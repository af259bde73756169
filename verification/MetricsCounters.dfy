/**
 * Metrics counters: each process counts in local tables (per virtual host, counter and value), and from
 * time to time merges these into one JSON document shared by all processes.
 */
module MetricsCounters {
  import opened CStrings
  import Decimal
  import opened MetricsInts
  import opened Options

  /** The key of counts without a value. */
  const DEFAULT := "_"

  type Values = map<string, int>
  type Counters = map<string, Values>
  type Local = map<string, Counters>

  /** What is counted: within a virtual host, the counter (by its key) and the value. */
  datatype Id = Id(vhost: string, key: string, value: string)

  datatype Split = Split(cls: string, name: Option<string>)

  function TypeNameKey(kind: nat, name: Option<string>): string {
    match name
    case None => Decimal.Dec(kind)
    case Some(n) => Decimal.Dec(kind) + "." + n
  }

  function ValueKey(value: Option<string>): (key: string)
    ensures value == None || value == Some("") ==> key == "_"
    ensures value.Some? && value.value != "" ==> key == value.value
  {
    if value.Some? && value.value != "" then value.value else DEFAULT
  }

  /** Class and name, which are separated by the key's first dot. */
  function SplitKey(key: string): Split {
    var dot := ChrOrEnd(key, '.', 0);
    if dot == |key| then Split(key, None) else Split(key[..dot], Some(key[dot + 1..]))
  }

  // ---- local tables ----

  function Count(l: Local, id: Id): int {
    if id.vhost in l && id.key in l[id.vhost] then TableCount(l[id.vhost][id.key], id.value) else 0
  }

  function TableCount(table: Values, value: string): int { if value in table then table[value] else 0 }

  /** A count that cannot grow any more starts again. */
  function Bumped(n: int): (m: int)
    ensures 0 <= n < 9_223_372_036_854_775_807 ==> m == n + 1
    ensures n < 0 || n >= 9_223_372_036_854_775_807 ==> m == 1
  {
    if n <= 0 || IsOverflow(n, 1) then 1 else n + 1
  }

  class Process {
    var counters: Local

    constructor ()
      ensures counters == map[]
    {
      counters := map[];
    }

    /** After a flush counting starts again. */
    method Clear()
      modifies this
      ensures counters == map[]
    {
      counters := map[];
    }

    /** Count one more event. */
    method Inc(vhost: string, kind: nat, name: Option<string>, value: Option<string>)
      modifies this
      ensures Incremented(old(counters), Id(vhost, TypeNameKey(kind, name), ValueKey(value)), counters)
    {
      hide Incremented;
      var key, valueKey := TypeNameKey(kind, name), ValueKey(value);
      PutBumped(counters, Id(vhost, key, valueKey));
      var server := if vhost in counters then counters[vhost] else map[];
      var table := if key in server then server[key] else map[];
      var count := if valueKey in table then table[valueKey] else 0;
      if count <= 0 {
        count := 1;
      } else {
        if IsOverflow(count, 1) {
          count := 0;
        }
        count := count + 1;
      }
      counters := counters[vhost := server[key := table[valueKey := count]]];
    }
  }

  ghost predicate HasCount(l: Local, id: Id) {
    id.vhost in l && id.key in l[id.vhost] && id.value in l[id.vhost][id.key]
  }

  ghost predicate NoEmptyTable(l: Local) { forall v, k :: v in l && k in l[v] ==> l[v][k] != map[] }

  /** One more of id is counted, and nothing else changes. */
  ghost predicate Incremented(l: Local, id: Id, l': Local) {
    && (forall x :: HasCount(l', x) <==> HasCount(l, x) || x == id)
    && (forall x :: Count(l', x) == if x == id then Bumped(Count(l, id)) else Count(l, x))
    && (NoEmptyTable(l) ==> NoEmptyTable(l'))
  }

  lemma PutBumped(l: Local, id: Id)
    ensures var server := if id.vhost in l then l[id.vhost] else map[];
            var table := if id.key in server then server[id.key] else map[];
            Incremented(l, id, l[id.vhost := server[id.key := table[id.value := Bumped(Count(l, id))]]])
  {
    var server := if id.vhost in l then l[id.vhost] else map[];
    var table := if id.key in server then server[id.key] else map[];
    var table' := table[id.value := Bumped(Count(l, id))];
    var l' := l[id.vhost := server[id.key := table']];
    forall x ensures HasCount(l', x) <==> HasCount(l, x) || x == id {}
    forall x ensures Count(l', x) == if x == id then Bumped(Count(l, id)) else Count(l, x) {}
    assert id.value in table';
  }

  // ---- JSON, as far as counters use it ----

  datatype Json = Int(n: int) | Obj(members: map<string, Json>)

  /** Member access and update, and integer access and update, do nothing on a value of the wrong type. */
  function Get(j: Json, key: string): Option<Json> {
    if j.Obj? && key in j.members then Some(j.members[key]) else None
  }

  function Put(j: Json, key: string, x: Json): Json {
    if j.Obj? then Obj(j.members[key := x]) else j
  }

  function IntValue(j: Json): int { if j.Int? then j.n else 0 }

  function PutInt(j: Json, n: int): Json { if j.Int? then Int(n) else j }

  // ---- nodes of the document ----

  /** What a counter's node can hold: one count without a value, or counts by value. */
  ghost predicate NodeOk(j: Json) { j.Int? || forall v :: v in j.members ==> j.members[v].Int? }

  /** Counts for this value show in the node. */
  predicate Shows(j: Json, value: string) { j.Int? == (value == DEFAULT) }

  function ReadNode(node: Option<Json>, value: string): int {
    if node.None? then 0
    else if value == DEFAULT then IntValue(node.value)
    else if Get(node.value, value).Some? then IntValue(Get(node.value, value).value)
    else 0
  }

  /** The shared count n with the local one added; if that overflows the shared one is lost. */
  function Merged(n: int, table: Values, value: string): int {
    if value !in table then n else if IsOverflow(n, table[value]) then table[value] else n + table[value]
  }

  /**
   * Merging a table into a node: an existing node keeps its kind, a new one is without values exactly if
   * the table counts events without a value. Each count of that kind is merged; the others are lost.
   */
  ghost predicate NodeMerged(node: Option<Json>, table: Values, after: Option<Json>) {
    && after.Some? && NodeOk(after.value)
    && after.value.Int? == (if node.Some? then node.value.Int? else DEFAULT in table)
    && forall v: string :: ReadNode(after, v)
        == if Shows(after.value, v) then Merged(ReadNode(node, v), table, v) else 0
  }

  ghost predicate HoldsExactly(j: Json, table: Values, values: set<string>) {
    j.Obj? && j.members.Keys == values <= table.Keys && forall v :: v in values ==> j.members[v] == Int(table[v])
  }

  /** A new node holds the whole table, or its count without a value if it has one. */
  method CounterNew(table: Values) returns (j: Option<Json>)
    ensures if table == map[] then j == None
            else if DEFAULT in table then j == Some(Int(table[DEFAULT]))
            else j.Some? && HoldsExactly(j.value, table, table.Keys)
    ensures table != map[] ==> NodeMerged(None, table, j)
  {
    j := None;
    var todo := table.Keys;
    while todo != {}
      invariant todo <= table.Keys
      invariant DEFAULT in table.Keys - todo ==> j == Some(Int(table[DEFAULT]))
      invariant DEFAULT !in table.Keys - todo ==>
                  if todo == table.Keys then j == None else j.Some? && HoldsExactly(j.value, table, table.Keys - todo)
    {
      var value :| value in todo;
      todo := todo - {value};
      if value == DEFAULT {
        j := Some(Int(table[value]));
      } else {
        if j == None {
          j := Some(Obj(map[]));
        }
        j := Some(Put(j.value, value, Int(table[value])));
      }
    }
  }

  method CounterUpdate(j: Json, table: Values) returns (j': Json)
    ensures NodeOk(j) ==> NodeMerged(Some(j), table, Some(j'))
  {
    j' := j;
    var todo := table.Keys;
    while todo != {}
      invariant todo <= table.Keys && j'.Int? == j.Int? && (NodeOk(j) ==> NodeOk(j'))
      invariant NodeOk(j) ==> forall v :: Shows(j, v) && v in table.Keys - todo ==>
                                ReadNode(Some(j'), v) == Merged(ReadNode(Some(j), v), table, v)
      invariant NodeOk(j) ==> forall v :: Shows(j, v) && v !in table.Keys - todo ==>
                                ReadNode(Some(j'), v) == ReadNode(Some(j), v)
    {
      var value :| value in todo;
      todo := todo - {value};
      var count := table[value];
      if value != DEFAULT && Get(j', value) == None {
        j' := Put(j', value, Int(count));
      } else {
        var node := if value == DEFAULT then j' else Get(j', value).value;
        var v := IntValue(node);
        if IsOverflow(v, count) {
          v := 0;
        }
        node := PutInt(node, v + count);
        j' := if value == DEFAULT then node else Put(j', value, node);
      }
    }
  }

  // ---- the document ----

  /** Which classes of counters come with a name, as a counter's type determines. */
  type Naming = string -> bool

  predicate Fits(naming: Naming, key: string) { SplitKey(key).name.Some? == naming(SplitKey(key).cls) }

  /** The counters part of one virtual host in the document. */
  type Server = map<string, Json>

  ghost predicate ServerOk(naming: Naming, server: Server) {
    forall c :: c in server ==>
      if naming(c) then server[c].Obj? && forall n :: n in server[c].members ==> NodeOk(server[c].members[n])
      else NodeOk(server[c])
  }

  type Document = map<string, Server>

  ghost predicate DocumentOk(naming: Naming, doc: Document) { forall v :: v in doc ==> ServerOk(naming, doc[v]) }

  ghost predicate TableOk(table: Values) { table != map[] && forall v :: v in table ==> 1 <= table[v] <= INT_MAX }

  ghost predicate CountersOk(naming: Naming, counters: Counters) {
    forall k :: k in counters ==> Fits(naming, k) && TableOk(counters[k])
  }

  ghost predicate LocalOk(naming: Naming, l: Local) {
    NoEmptyTable(l) && forall x :: HasCount(l, x) ==> Fits(naming, x.key) && 1 <= Count(l, x) <= INT_MAX
  }

  lemma LocalCountersOk(naming: Naming, l: Local, vhost: string)
    requires LocalOk(naming, l) && vhost in l
    ensures CountersOk(naming, l[vhost])
  {
    forall k | k in l[vhost] ensures Fits(naming, k) && TableOk(l[vhost][k]) {
      var table := l[vhost][k];
      forall v | v in table ensures Fits(naming, k) && 1 <= table[v] <= INT_MAX {
        assert HasCount(l, Id(vhost, k, v)) && Count(l, Id(vhost, k, v)) == table[v];
      }
      var v :| v in table;
      assert Fits(naming, k);
    }
  }

  /** A counter without a name sits at its class, one with a name below it. */
  function Find(server: Server, key: string): Option<Json> {
    var s := SplitKey(key);
    if s.cls !in server then None
    else if s.name.None? then Some(server[s.cls])
    else Get(server[s.cls], s.name.value)
  }

  /** The node of a virtual host's counter. */
  function Node(doc: Document, vhost: string, key: string): Option<Json> {
    if vhost in doc then Find(doc[vhost], key) else None
  }

  function Read(doc: Document, x: Id): int { ReadNode(Node(doc, x.vhost, x.key), x.value) }

  /** The local table of a virtual host's counter, empty if there is none. */
  function Table(l: Local, vhost: string, key: string): Values {
    if vhost in l && key in l[vhost] then l[vhost][key] else map[]
  }

  // ---- merging ----

  /** The counter at a place of its parent object is merged with a local table; other places stay. */
  method SetOrUpdate(parent: map<string, Json>, at: string, table: Values) returns (parent': map<string, Json>)
    requires TableOk(table)
    ensures forall x :: x != at ==> (x in parent' <==> x in parent) && (x in parent ==> parent'[x] == parent[x])
    ensures (at in parent ==> NodeOk(parent[at])) ==>
              at in parent' && NodeMerged(if at in parent then Some(parent[at]) else None, table, Some(parent'[at]))
  {
    if at in parent {
      var j := CounterUpdate(parent[at], table);
      return parent[at := j];
    } else {
      var j := CounterNew(table);
      return parent[at := j.value];
    }
  }

  /** A local table is merged into the counter with its key, and no other counter changes. */
  ghost predicate EntryMerged(naming: Naming, server: Server, key: string, table: Values, server': Server) {
    && ServerOk(naming, server')
    && NodeMerged(Find(server, key), table, Find(server', key))
    && forall k :: Fits(naming, k) && k != key ==> Find(server', k) == Find(server, k)
  }

  lemma UnnamedMerged(naming: Naming, server: Server, key: string, table: Values, server': Server)
    requires ServerOk(naming, server) && Fits(naming, key) && SplitKey(key).name == None
    requires var at := SplitKey(key).cls;
             && (forall x :: x != at ==> (x in server' <==> x in server) && (x in server ==> server'[x] == server[x]))
             && at in server'
             && NodeMerged(if at in server then Some(server[at]) else None, table, Some(server'[at]))
    ensures EntryMerged(naming, server, key, table, server')
  {
  }

  lemma NamedMerged(naming: Naming, server: Server, key: string, table: Values, members: map<string, Json>)
    requires ServerOk(naming, server) && Fits(naming, key) && SplitKey(key).name.Some?
    requires var cls, at := SplitKey(key).cls, SplitKey(key).name.value;
             var names := if cls in server then server[cls].members else map[];
             && (forall x :: x != at ==> (x in members <==> x in names) && (x in names ==> members[x] == names[x]))
             && at in members
             && NodeMerged(if at in names then Some(names[at]) else None, table, Some(members[at]))
    ensures EntryMerged(naming, server, key, table, server[SplitKey(key).cls := Obj(members)])
  {
  }

  method StoreCounterEntry(server: Server, key: string, table: Values, ghost naming: Naming) returns (server': Server)
    requires TableOk(table)
    ensures ServerOk(naming, server) && Fits(naming, key) ==> EntryMerged(naming, server, key, table, server')
  {
    hide NodeMerged, NodeOk, SplitKey;
    var s := SplitKey(key);
    if s.name == None {
      server' := SetOrUpdate(server, s.cls, table);
      if ServerOk(naming, server) && Fits(naming, key) {
        UnnamedMerged(naming, server, key, table, server');
      }
      return;
    }
    var names := if s.cls in server then server[s.cls] else Obj(map[]);
    if names.Int? {
      return server;
    }
    var members := SetOrUpdate(names.members, s.name.value, table);
    server' := server[s.cls := Obj(members)];
    if ServerOk(naming, server) && Fits(naming, key) {
      NamedMerged(naming, server, key, table, members);
    }
  }

  /** Nothing to merge, or a merge. */
  ghost predicate NodeStored(node: Option<Json>, table: Values, after: Option<Json>) {
    if table == map[] then after == node else NodeMerged(node, table, after)
  }

  ghost predicate ServerStored(naming: Naming, server: Server, counters: Counters, server': Server) {
    && ServerOk(naming, server')
    && forall k :: Fits(naming, k) ==>
         NodeStored(Find(server, k), if k in counters then counters[k] else map[], Find(server', k))
  }

  /** The local tables of one virtual host go into its part of the document. */
  method StoreServer(server: Server, counters: Counters, ghost naming: Naming) returns (server': Server)
    requires CountersOk(naming, counters)
    ensures ServerOk(naming, server) ==> ServerStored(naming, server, counters, server')
  {
    hide ServerOk, Find, SplitKey, NodeMerged;
    server' := server;
    ghost var done: Counters := map[];
    var todo := counters.Keys;
    while todo != {}
      invariant todo <= counters.Keys && done == map k | k in counters.Keys - todo :: counters[k]
      invariant ServerOk(naming, server) ==> ServerStored(naming, server, done, server')
    {
      var key :| key in todo;
      ghost var before := server';
      server' := StoreCounterEntry(server', key, counters[key], naming);
      if ServerOk(naming, server) {
        OneMoreEntry(naming, server, done, before, key, counters[key], server');
      }
      done := done[key := counters[key]];
      todo := todo - {key};
    }
    assert done == counters;
  }

  lemma OneMoreEntry(naming: Naming, server: Server, done: Counters, before: Server, key: string, table: Values,
                     after: Server)
    requires ServerStored(naming, server, done, before) && key !in done && Fits(naming, key) && table != map[]
    requires EntryMerged(naming, before, key, table, after)
    ensures ServerStored(naming, server, done[key := table], after)
  {
  }

  /** Every counter in the document has been merged with what was counted locally. */
  ghost predicate Stored(naming: Naming, doc: Document, l: Local, doc': Document) {
    && DocumentOk(naming, doc')
    && forall vhost: string, k: string :: Fits(naming, k) ==>
         NodeStored(Node(doc, vhost, k), Table(l, vhost, k), Node(doc', vhost, k))
  }

  /** All local tables go into the document, which gets a part for every virtual host that has none. */
  method StoreCounters(doc: Document, l: Local, ghost naming: Naming) returns (doc': Document)
    requires LocalOk(naming, l)
    ensures DocumentOk(naming, doc) ==> Stored(naming, doc, l, doc')
  {
    hide ServerOk, CountersOk, LocalOk, Find, SplitKey, ServerStored;
    doc' := doc;
    ghost var ok := DocumentOk(naming, doc);
    var todo := l.Keys;
    while todo != {}
      invariant todo <= l.Keys
      invariant ok ==> forall v :: v in doc' && v !in l.Keys - todo ==> v in doc && doc'[v] == doc[v]
      invariant ok ==> forall v :: v in doc && v !in l.Keys - todo ==> v in doc'
      invariant ok ==> forall v :: v in l.Keys - todo ==> v in doc' && VhostStored(naming, doc, l, doc', v)
    {
      var vhost :| vhost in todo;
      todo := todo - {vhost};
      ghost var before := doc';
      ghost var server0: Server := if vhost in doc then doc[vhost] else map[];
      assert ok ==> server0 == if vhost in doc' then doc'[vhost] else map[];
      LocalCountersOk(naming, l, vhost);
      NewServerOk(naming);
      var server := StoreServer(if vhost in doc' then doc'[vhost] else map[], l[vhost], naming);
      doc' := doc'[vhost := server];
      forall v | ok && v in l.Keys - todo ensures VhostStored(naming, doc, l, doc', v) {
        if v != vhost { assert VhostStored(naming, doc, l, before, v); }
      }
    }
    if ok { AllVhostsStored(naming, doc, l, doc'); }
  }

  ghost predicate VhostStored(naming: Naming, doc: Document, l: Local, doc': Document, vhost: string)
    requires vhost in l && vhost in doc'
  {
    ServerStored(naming, if vhost in doc then doc[vhost] else map[], l[vhost], doc'[vhost])
  }

  lemma NewServerOk(naming: Naming)
    ensures ServerOk(naming, map[])
  {
  }

  lemma AllVhostsStored(naming: Naming, doc: Document, l: Local, doc': Document)
    requires DocumentOk(naming, doc)
    requires forall v :: v in doc' && v !in l ==> v in doc && doc'[v] == doc[v]
    requires forall v :: v in doc && v !in l ==> v in doc'
    requires forall v :: v in l ==> v in doc' && VhostStored(naming, doc, l, doc', v)
    ensures Stored(naming, doc, l, doc')
  {
  }

  // ---- reset ----

  /** All integers in the tree become 0. */
  function Zeroed(j: Json): Json
    decreases j
  {
    match j
    case Int(_) => Int(0)
    case Obj(m) => Obj(map k | k in m :: Zeroed(m[k]))
  }

  method ResetIntegerTree(j: Json) returns (j': Json)
    requires j.Obj?
    ensures j' == Zeroed(j)
    decreases j
  {
    j' := j;
    var todo := j.members.Keys;
    while todo != {}
      invariant todo <= j.members.Keys && j'.Obj? && j'.members.Keys == j.members.Keys
      invariant forall k :: k in j.members ==> j'.members[k] == if k in todo then j.members[k] else Zeroed(j.members[k])
    {
      var key :| key in todo;
      todo := todo - {key};
      var value := j.members[key];
      if value.Int? {
        j' := Put(j', key, PutInt(value, 0));
      } else {
        var value' := ResetIntegerTree(value);
        j' := Put(j', key, value');
      }
    }
    assert j'.members == map k | k in j.members :: Zeroed(j.members[k]);
  }

  ghost predicate WasReset(naming: Naming, doc: Document, doc': Document) {
    && (DocumentOk(naming, doc) ==> DocumentOk(naming, doc'))
    && (forall x: Id :: Read(doc', x) == 0)
    && (forall vhost: string, k: string :: SameKind(Node(doc, vhost, k), Node(doc', vhost, k)))
  }

  ghost predicate SameKind(node: Option<Json>, after: Option<Json>) {
    after.Some? == node.Some? && (node.Some? ==> after.value.Int? == node.value.Int?)
  }

  /** Counters keep their place and kind but restart at 0. */
  method StorageReset(doc: Document, ghost naming: Naming) returns (doc': Document)
    ensures doc'.Keys == doc.Keys && WasReset(naming, doc, doc')
  {
    hide Zeroed, ServerOk, Find, ReadNode;
    doc' := doc;
    var todo := doc.Keys;
    while todo != {}
      invariant todo <= doc.Keys && doc'.Keys == doc.Keys
      invariant forall v :: v in todo ==> doc'[v] == doc[v]
      invariant forall v :: v in doc.Keys - todo ==> ServerReset(naming, doc[v], doc'[v])
    {
      var vhost :| vhost in todo;
      todo := todo - {vhost};
      var j := ResetIntegerTree(Obj(doc[vhost]));
      ZeroedServer(naming, doc[vhost]);
      doc' := doc'[vhost := j.members];
    }
    forall x: Id ensures Read(doc', x) == 0 {
      NoNodeReadsZero(x.value);
      if x.vhost in doc { assert ServerReset(naming, doc[x.vhost], doc'[x.vhost]); }
    }
    forall vhost: string, k: string ensures SameKind(Node(doc, vhost, k), Node(doc', vhost, k)) {
      if vhost in doc { assert ServerReset(naming, doc[vhost], doc'[vhost]); }
    }
  }

  lemma NoNodeReadsZero(value: string)
    ensures ReadNode(None, value) == 0
  {
  }

  ghost predicate ServerReset(naming: Naming, server: Server, server': Server) {
    && (ServerOk(naming, server) ==> ServerOk(naming, server'))
    && forall k: string :: SameKind(Find(server, k), Find(server', k))
        && forall v: string :: ReadNode(Find(server', k), v) == 0
  }

  lemma ZeroedServer(naming: Naming, server: Server)
    ensures Zeroed(Obj(server)).Obj? && ServerReset(naming, server, Zeroed(Obj(server)).members)
  {
    hide SplitKey;
    var server' := Zeroed(Obj(server)).members;
    assert forall c :: c in server' ==> c in server && server'[c] == Zeroed(server[c]);
    forall k: string
      ensures SameKind(Find(server, k), Find(server', k)) && forall v: string :: ReadNode(Find(server', k), v) == 0 {
      forall v: string ensures ReadNode(Find(server', k), v) == 0 { ZeroedReadsZero(server, k, v); }
      ZeroedKeepsKind(server, k);
    }
    if ServerOk(naming, server) { ZeroedServerOk(naming, server); }
  }

  lemma ZeroedServerOk(naming: Naming, server: Server)
    requires ServerOk(naming, server)
    ensures ServerOk(naming, Zeroed(Obj(server)).members)
  {
    var server' := Zeroed(Obj(server)).members;
    assert forall c :: c in server' ==> c in server && server'[c] == Zeroed(server[c]);
    forall c | c in server && naming(c)
      ensures server'[c].Obj? && forall n :: n in server'[c].members ==> NodeOk(server'[c].members[n]) {
      forall n | n in server[c].members ensures NodeOk(Zeroed(server[c].members[n])) {
        ZeroedNodeOk(server[c].members[n]);
      }
    }
    forall c | c in server && !naming(c) ensures NodeOk(server'[c]) {
      ZeroedNodeOk(server[c]);
    }
  }

  lemma ZeroedNodeOk(j: Json)
    requires NodeOk(j)
    ensures NodeOk(Zeroed(j))
  {
  }

  lemma ZeroedKeepsKind(server: Server, key: string)
    ensures SameKind(Find(server, key), Find(Zeroed(Obj(server)).members, key))
  {
    hide SplitKey;
    var s := SplitKey(key);
    if s.cls in server {
      assert Zeroed(Obj(server)).members[s.cls] == Zeroed(server[s.cls]);
    }
  }

  lemma ZeroedReadsZero(server: Server, key: string, value: string)
    ensures ReadNode(Find(Zeroed(Obj(server)).members, key), value) == 0
  {
    hide SplitKey;
    var s := SplitKey(key);
    if s.cls in server {
      var j := server[s.cls];
      assert Zeroed(Obj(server)).members[s.cls] == Zeroed(j);
      if s.name.Some? && Get(j, s.name.value).Some? {
        assert Get(Zeroed(j), s.name.value).value == Zeroed(j.members[s.name.value]);
      }
    }
  }

  // ---- keys ----

  /** Distinct counters have distinct keys. */
  lemma TypeNameKeyInjective(kind: nat, name: Option<string>, kind': nat, name': Option<string>)
    requires TypeNameKey(kind, name) == TypeNameKey(kind', name')
    ensures kind == kind' && name == name'
  {
    SplitTypeNameKey(kind, name);
    SplitTypeNameKey(kind', name');
    Decimal.DecInjective(kind, kind');
  }

  lemma SplitTypeNameKey(kind: nat, name: Option<string>)
    ensures SplitKey(TypeNameKey(kind, name)) == Split(Decimal.Dec(kind), name)
  {
    hide Decimal.Dec;
    var d, key := Decimal.Dec(kind), TypeNameKey(kind, name);
    Decimal.DecIsNumber(kind);
    assert forall i :: 0 <= i < |d| ==> key[i] == d[i] && Decimal.IsDigit(d[i]);
    if name.Some? {
      assert key[|d|] == '.' && key[|d| + 1..] == name.value && key[..|d|] == d;
    }
    assert ChrOrEnd(key, '.', 0) == |d|;
  }

  /** Distinct values are counted under distinct keys, but none, the empty one and "_" under the same. */
  lemma ValueKeyInjective(value: Option<string>, value': Option<string>)
    ensures ValueKey(value) == ValueKey(value') <==>
            value == value' || (value in {None, Some(""), Some("_")} && value' in {None, Some(""), Some("_")})
  {
  }

  // ---- which counts a flush shows ----

  /**
   * A count that is flushed shows in the document exactly if the counter's node is of its kind: the
   * node that is there, or else the one that this flush makes.
   */
  lemma FlushShowsIff(node: Option<Json>, table: Values, after: Option<Json>, value: string)
    requires NodeMerged(node, table, after) && TableOk(table) && value in table && ReadNode(node, value) >= 0
    ensures ReadNode(after, value) == Merged(ReadNode(node, value), table, value) <==>
            (if node.Some? then Shows(node.value, value) else (value == DEFAULT) == (DEFAULT in table))
  {
  }
}
