/** Cleaning up state cookies on a request: a scan of the Cookie header that builds and prunes a linked list. */
module StateCookies {
  import opened CStrings
  import opened CookieHeader
  import opened Options
  import opened StatePruning
  import Chunked = ChunkedCookies

  /**
   * What the scan knows: the prefix of state cookies, the cookie in use now, the decoder, the timeout, and
   * what the clock shows when it is read for token number i.
   */
  datatype Context = Context(prefix: string, current: Option<string>, decode: string -> Option<int>,
                             clock: nat -> int, timeout: int)

  // ---- scanning, on values ----

  /** Name and value when the token is a state cookie with a '='. */
  function Parse(c: Context, token: string): Option<Pair> {
    var cookie := TrimSpaces(token);
    if !(c.prefix <= cookie) then None
    else
      var eq := ChrOrEnd(cookie, '=', 0);
      if eq == |cookie| then None else Some(Pair(cookie[..eq], cookie[eq + 1..]))
  }

  datatype Verdict = Ignored | Stale(name: string) | Fresh(entry: Entry)

  /** The current cookie is left alone; an undecodable or expired one is to be deleted. */
  function Judge(c: Context, token: string, i: nat): Verdict {
    match Parse(c, token)
    case None => Ignored
    case Some(p) =>
      if c.current == Some(p.name) then Ignored
      else match c.decode(p.value)
        case None => Stale(p.name)
        case Some(ts) => if c.clock(i) > ts + c.timeout then Stale(p.name) else Fresh(Entry(p.name, ts))
  }

  /** The tokens from number i on. */
  function FreshOnes(c: Context, tokens: seq<string>, i: nat): seq<Entry> {
    if tokens == [] then []
    else (match Judge(c, tokens[0], i) case Fresh(e) => [e] case _ => []) + FreshOnes(c, tokens[1..], i + 1)
  }

  function StaleOnes(c: Context, tokens: seq<string>, i: nat): seq<string> {
    if tokens == [] then []
    else (match Judge(c, tokens[0], i) case Stale(n) => [n] case _ => []) + StaleOnes(c, tokens[1..], i + 1)
  }

  /** The Set-Cookie headers that clear these cookies. */
  function Deletions(names: seq<string>): seq<Chunked.SetCookie> {
    if names == [] then [] else [Chunked.Header(names[0], "", 0)] + Deletions(names[1..])
  }

  lemma {:induction false} DeletionsAppend(a: seq<string>, b: seq<string>)
    ensures Deletions(a + b) == Deletions(a) + Deletions(b)
    decreases |a|
  {
    if a == [] {
      assert a + b == b;
    } else {
      assert (a + b)[1..] == a[1..] + b;
      DeletionsAppend(a[1..], b);
    }
  }

  // ---- the linked list ----

  class Node {
    const name: string
    const timestamp: int
    var next: Node?

    constructor (name: string, timestamp: int)
      ensures this.name == name && this.timestamp == timestamp && next == null
    {
      this.name, this.timestamp := name, timestamp;
      next := null;
    }
  }

  function NodeAt(nodes: seq<Node>, i: nat): Node? {
    if i < |nodes| then nodes[i] else null
  }

  ghost predicate Linked(first: Node?, nodes: seq<Node>)
    reads nodes
  {
    && first == NodeAt(nodes, 0)
    && (forall i {:trigger nodes[i].next} :: 0 <= i < |nodes| ==> nodes[i].next == NodeAt(nodes, i + 1))
  }

  ghost predicate Distinct(nodes: seq<Node>) {
    forall i, j :: 0 <= i < j < |nodes| ==> nodes[i] != nodes[j]
  }

  /** The list that starts at first runs through exactly these nodes. */
  ghost predicate IsList(first: Node?, nodes: seq<Node>)
    reads nodes
  {
    Linked(first, nodes) && Distinct(nodes)
  }

  function Entries(nodes: seq<Node>): (es: seq<Entry>)
    ensures |es| == |nodes|
    ensures forall i :: 0 <= i < |nodes| ==> es[i] == Entry(nodes[i].name, nodes[i].timestamp)
  {
    seq(|nodes|, i requires 0 <= i < |nodes| => Entry(nodes[i].name, nodes[i].timestamp))
  }

  method ListAppend(first: Node?, last: Node?, name: string, timestamp: int, ghost nodes: seq<Node>)
    returns (first': Node, last': Node)
    requires IsList(first, nodes) && (nodes != [] ==> last == nodes[|nodes| - 1])
    modifies if nodes == [] then {} else {nodes[|nodes| - 1]}
    ensures fresh(last') && IsList(first', nodes + [last'])
    ensures Entries(nodes + [last']) == Entries(nodes) + [Entry(name, timestamp)]
  {
    last' := new Node(name, timestamp);
    if first == null {
      first' := last';
    } else {
      first' := first;
      last.next := last';
    }
  }

  /** Of the first n nodes, `oldest` is the oldest and prevOldest its predecessor. */
  ghost predicate IsOldest(nodes: seq<Node>, n: nat, oldest: Node, prevOldest: Node?) {
    && 0 < n <= |nodes|
    && var o := Oldest(Entries(nodes), n);
       oldest == nodes[o] && prevOldest == if o == 0 then null else nodes[o - 1]
  }

  lemma OneIsOldest(nodes: seq<Node>)
    requires nodes != []
    ensures IsOldest(nodes, 1, nodes[0], null)
  {
  }

  lemma NextOldest(nodes: seq<Node>, i: nat, oldest: Node, prevOldest: Node?)
    requires i < |nodes| && IsOldest(nodes, i, oldest, prevOldest)
    ensures if nodes[i].timestamp < oldest.timestamp then IsOldest(nodes, i + 1, nodes[i], nodes[i - 1])
            else IsOldest(nodes, i + 1, oldest, prevOldest)
  {
  }

  /** Find the oldest node of a non-empty list and its predecessor. */
  method FindOldest(first: Node, ghost nodes: seq<Node>) returns (oldest: Node, prevOldest: Node?)
    requires Linked(first, nodes)
    ensures IsOldest(nodes, |nodes|, oldest, prevOldest)
  {
    hide IsOldest;
    OneIsOldest(nodes);
    oldest, prevOldest := first, null;
    var prev, cur := first, first.next;
    ghost var i: nat := 1;
    while cur != null
      invariant 1 <= i <= |nodes| && prev == nodes[i - 1] && cur == NodeAt(nodes, i)
      invariant IsOldest(nodes, i, oldest, prevOldest)
      decreases |nodes| - i
    {
      NextOldest(nodes, i, oldest, prevOldest);
      if cur.timestamp < oldest.timestamp {
        oldest, prevOldest := cur, prev;
      }
      prev, cur, i := cur, cur.next, i + 1;
    }
  }

  /** Unlink node number o. */
  method Unlink(first: Node, prev: Node?, node: Node, ghost nodes: seq<Node>, ghost o: nat) returns (first': Node?)
    requires IsList(first, nodes) && o < |nodes| && node == nodes[o]
    requires prev == if o == 0 then null else nodes[o - 1]
    modifies nodes
    ensures IsList(first', RemoveAt(nodes, o))
  {
    ghost var rest := RemoveAt(nodes, o);
    assert Distinct(rest) by { RemovedDistinct(nodes, o); }
    if prev != null {
      prev.next := node.next;
      first' := first;
    } else {
      first' := first.next;
    }
    forall i | 0 <= i < |rest| ensures rest[i].next == NodeAt(rest, i + 1) {
      assert rest[i] == nodes[if i < o then i else i + 1];
    }
  }

  lemma RemovedDistinct(nodes: seq<Node>, o: nat)
    requires Distinct(nodes) && o < |nodes|
    ensures Distinct(RemoveAt(nodes, o))
  {
  }

  lemma RemovedEntries(nodes: seq<Node>, o: nat)
    requires o < |nodes|
    ensures Entries(RemoveAt(nodes, o)) == RemoveAt(Entries(nodes), o)
  {
  }

  /** Delete the oldest cookie of a non-empty list. */
  method DeleteOne(r: Chunked.Request, first: Node, ghost nodes: seq<Node>) returns (first': Node?)
    requires IsList(first, nodes)
    modifies r, nodes
    ensures var es := Entries(nodes);
            var o := Oldest(es, |es|);
            && r.setCookies == old(r.setCookies) + Deletions([es[o].name])
            && IsList(first', RemoveAt(nodes, o)) && Entries(RemoveAt(nodes, o)) == RemoveAt(es, o)
  {
    var oldest, prevOldest := FindOldest(first, nodes);
    ghost var o := Oldest(Entries(nodes), |nodes|);
    RemovedEntries(nodes, o);
    hide Oldest, Entries, Linked, Distinct;
    assert Deletions([oldest.name]) == [Chunked.Header(oldest.name, "", 0)] by { DeletionsOne(oldest.name); }
    r.Set(oldest.name, "", 0);
    first' := Unlink(first, prevOldest, oldest, nodes, o);
  }

  lemma DeletionsOne(name: string)
    ensures Deletions([name]) == [Chunked.Header(name, "", 0)]
  {
  }

  /** After deleting `gone`, what is left to do with the entries es and this count completes `whole`. */
  ghost predicate Pending(whole: Pruned, gone: seq<string>, es: seq<Entry>, number: int, max: int) {
    var left := DeleteOldest(es, number, max);
    whole.count == left.count && whole.deleted == gone + left.deleted
  }

  lemma PendingStep(whole: Pruned, gone: seq<string>, es: seq<Entry>, number: int, max: int)
    requires Pending(whole, gone, es, number, max)
    ensures number < max ==> whole.count == number && whole.deleted == gone
    ensures number >= max && es == [] ==> Pending(whole, gone, es, number - 1, max)
    ensures number >= max && es != [] ==>
              var o := Oldest(es, |es|); Pending(whole, gone + [es[o].name], RemoveAt(es, o), number - 1, max)
  {
  }

  lemma PendingStart(es: seq<Entry>, number: int, max: int)
    ensures Pending(DeleteOldest(es, number, max), [], es, number, max)
  {
  }

  /** Delete superfluous state cookies, oldest first, until fewer than max are counted. */
  method DeleteOldestCookies(r: Chunked.Request, number: int, max: int, first: Node?, ghost nodes: seq<Node>)
    returns (number': int)
    requires IsList(first, nodes)
    modifies r, nodes
    ensures var p := DeleteOldest(Entries(nodes), number, max);
            number' == p.count && r.setCookies == old(r.setCookies) + Deletions(p.deleted)
  {
    hide Oldest, Deletions, Entries, Linked, Distinct, Pending, DeleteOldest;
    number' := number;
    var head := first;
    ghost var list, gone := nodes, [];
    ghost var whole := DeleteOldest(Entries(nodes), number, max);
    PendingStart(Entries(nodes), number, max);
    NoDeletions();
    while number' >= max
      invariant IsList(head, list) && (forall i :: 0 <= i < |list| ==> list[i] in nodes)
      invariant Pending(whole, gone, Entries(list), number', max)
      invariant r.setCookies == old(r.setCookies) + Deletions(gone)
      decreases number' - max
    {
      ghost var es := Entries(list);
      HeadOf(head, list);
      PendingStep(whole, gone, es, number', max);
      if head != null {
        ghost var o := Oldest(es, |es|);
        head := DeleteOne(r, head, list);
        DeletionsAppend(gone, [es[o].name]);
        gone, list := gone + [es[o].name], RemoveAt(list, o);
      }
      number' := number' - 1;
    }
    PendingStep(whole, gone, Entries(list), number', max);
  }

  lemma HeadOf(first: Node?, nodes: seq<Node>)
    requires IsList(first, nodes)
    ensures first == NodeAt(nodes, 0)
  {
  }

  lemma NoDeletions()
    ensures Deletions([]) == []
  {
  }

  // ---- the scan ----

  /** The list built so far: its first and last node. */
  ghost predicate Built(first: Node?, last: Node?, nodes: seq<Node>)
    reads nodes
  {
    IsList(first, nodes) && (nodes != [] ==> last == nodes[|nodes| - 1])
  }

  /** Judge one token: delete a stale state cookie, append a fresh one to the list. */
  method ParseToken(r: Chunked.Request, c: Context, token: string, i: nat, first: Node?, last: Node?,
                    ghost nodes: seq<Node>)
    returns (kept: int, first': Node?, last': Node?, ghost nodes': seq<Node>)
    requires Built(first, last, nodes)
    modifies r, if nodes == [] then {} else {nodes[|nodes| - 1]}
    ensures Built(first', last', nodes') && nodes <= nodes' && forall i :: |nodes| <= i < |nodes'| ==> fresh(nodes'[i])
    ensures match Judge(c, token, i)
            case Ignored => kept == 0 && nodes' == nodes && r.setCookies == old(r.setCookies)
            case Stale(name) => kept == 0 && nodes' == nodes && r.setCookies == old(r.setCookies) + Deletions([name])
            case Fresh(e) => kept == 1 && Entries(nodes') == Entries(nodes) + [e] && r.setCookies == old(r.setCookies)
  {
    hide Entries, Linked, Distinct;
    kept, first', last', nodes' := 0, first, last, nodes;
    var cookie := SkipSpaces(token);
    if !(c.prefix <= cookie) {
      return;
    }
    var eq := ChrOrEnd(cookie, '=', 0);
    if eq == |cookie| {
      return;
    }
    var name, value := cookie[..eq], cookie[eq + 1..];
    if c.current == Some(name) {
      return;
    }
    DeletionsOne(name);
    match c.decode(value) {
      case None =>
        r.Set(name, "", 0);
      case Some(ts) =>
        if c.clock(i) > ts + c.timeout {
          r.Set(name, "", 0);
        } else {
          first', last' := ListAppend(first, last, name, ts, nodes);
          nodes' := nodes + [last'];
          kept := 1;
        }
    }
  }

  /**
   * Clean up: stale state cookies are deleted, the others are counted and, with delete-oldest on,
   * pruned to fewer than max; the number counted is returned.
   */
  method CleanExpired(r: Chunked.Request, c: Context, deleteOldest: int, max: int) returns (number: int)
    modifies r
    ensures var tokens := Tokens(r.cookies, 0);
            var p := Clean(FreshOnes(c, tokens, 0), deleteOldest, max);
            number == p.count && r.setCookies == old(r.setCookies) + Deletions(StaleOnes(c, tokens, 0) + p.deleted)
  {
    hide Tokens, Entries, Built, DeleteOldest, Judge, Deletions, Scanned, FreshOnes, StaleOnes;
    number := 0;
    var i: nat := 0;
    var first: Node?, last: Node? := null, null;
    ghost var nodes: seq<Node>, stale: seq<string> := [], [];
    ghost var tokens := Tokens(r.cookies, 0);
    ScanStart(c, tokens);
    NoDeletions();
    var token, pos := NextToken(r.cookies, 0);
    while token.Some?
      invariant pos <= |r.cookies|
      invariant Built(first, last, nodes) && (forall i :: 0 <= i < |nodes| ==> fresh(nodes[i])) && number == |nodes|
      invariant Scanned(c, tokens, Entries(nodes), stale, i,
                  if token == None then [] else [token.value] + Tokens(r.cookies, pos))
      invariant r.setCookies == old(r.setCookies) + Deletions(stale)
      decreases |r.cookies| - pos, token.Some?
    {
      ScanStep(c, tokens, Entries(nodes), stale, i, token.value, Tokens(r.cookies, pos));
      var kept;
      ghost var nodes';
      kept, first, last, nodes' := ParseToken(r, c, token.value, i, first, last, nodes);
      if Judge(c, token.value, i).Stale? {
        DeletionsAppend(stale, [Judge(c, token.value, i).name]);
        stale := stale + [Judge(c, token.value, i).name];
      }
      nodes := nodes';
      number := number + kept;
      i := i + 1;
      token, pos := NextToken(r.cookies, pos);
    }
    ScanEnd(c, tokens, Entries(nodes), stale, i);
    if deleteOldest > 0 {
      number := Prune(r, number, max, first, last, nodes);
      DeletionsAppend(stale, DeleteOldest(Entries(nodes), |nodes|, max).deleted);
    }
    assert stale + [] == stale;
  }

  method Prune(r: Chunked.Request, number: int, max: int, first: Node?, last: Node?, ghost nodes: seq<Node>)
    returns (number': int)
    requires Built(first, last, nodes)
    modifies r, nodes
    ensures var p := DeleteOldest(Entries(nodes), number, max);
            number' == p.count && r.setCookies == old(r.setCookies) + Deletions(p.deleted)
  {
    number' := DeleteOldestCookies(r, number, max, first, nodes);
  }

  /** With `rest`, from token number i on, still to be judged, the scan of tokens has found es and stale. */
  ghost predicate Scanned(c: Context, tokens: seq<string>, es: seq<Entry>, stale: seq<string>, i: nat,
                          rest: seq<string>) {
    && FreshOnes(c, tokens, 0) == es + FreshOnes(c, rest, i)
    && StaleOnes(c, tokens, 0) == stale + StaleOnes(c, rest, i)
  }

  lemma ScanStart(c: Context, tokens: seq<string>)
    ensures Built(null, null, []) && Entries([]) == [] && Scanned(c, tokens, [], [], 0, tokens)
  {
  }

  lemma ScanStep(c: Context, tokens: seq<string>, es: seq<Entry>, stale: seq<string>, i: nat, token: string,
                 rest: seq<string>)
    requires Scanned(c, tokens, es, stale, i, [token] + rest)
    ensures match Judge(c, token, i)
            case Ignored => Scanned(c, tokens, es, stale, i + 1, rest)
            case Stale(n) => Scanned(c, tokens, es, stale + [n], i + 1, rest)
            case Fresh(e) => Scanned(c, tokens, es + [e], stale, i + 1, rest)
  {
    hide Judge;
    assert ([token] + rest)[1..] == rest;
  }

  lemma ScanEnd(c: Context, tokens: seq<string>, es: seq<Entry>, stale: seq<string>, i: nat)
    requires Scanned(c, tokens, es, stale, i, [])
    ensures FreshOnes(c, tokens, 0) == es && StaleOnes(c, tokens, 0) == stale
  {
  }

  // ---- what cleaning never touches ----

  /** The token is a state cookie with this name, and not the one in use now. */
  ghost predicate IsOtherStateCookie(c: Context, token: string, name: string) {
    Parse(c, token).Some? && Parse(c, token).value.name == name && c.current != Some(name)
  }

  ghost predicate NamesAStateCookie(c: Context, tokens: seq<string>, name: string) {
    exists i :: 0 <= i < |tokens| && IsOtherStateCookie(c, tokens[i], name)
  }

  lemma {:induction false} ScanFindsStateCookies(c: Context, tokens: seq<string>, i: nat, name: string)
    ensures name in StaleOnes(c, tokens, i) ==> NamesAStateCookie(c, tokens, name)
    ensures (exists e :: e in FreshOnes(c, tokens, i) && e.name == name) ==> NamesAStateCookie(c, tokens, name)
    decreases |tokens|
  {
    if tokens != [] {
      ScanFindsStateCookies(c, tokens[1..], i + 1, name);
      if k :| 0 <= k < |tokens[1..]| && IsOtherStateCookie(c, tokens[1..][k], name) {
        assert IsOtherStateCookie(c, tokens[k + 1], name);
      }
      if Judge(c, tokens[0], i) != Ignored {
        assert IsOtherStateCookie(c, tokens[0], Parse(c, tokens[0]).value.name);
      }
    }
  }

  /** The current cookie and cookies that are no state cookies are never deleted. */
  lemma OnlyOtherStateCookiesAreDeleted(c: Context, tokens: seq<string>, deleteOldest: int, max: int, name: string)
    requires max >= 0
    requires name in StaleOnes(c, tokens, 0) + Clean(FreshOnes(c, tokens, 0), deleteOldest, max).deleted
    ensures NamesAStateCookie(c, tokens, name)
  {
    var es := FreshOnes(c, tokens, 0);
    ScanFindsStateCookies(c, tokens, 0, name);
    if deleteOldest > 0 {
      if k :| 0 <= k < |DeleteOldest(es, |es|, max).deleted| && DeleteOldest(es, |es|, max).deleted[k] == name {
        var j := DeletedInOrderOfAge(es, max, k);
        assert es[j] in es;
      }
    }
  }

  // ---- which state cookies are stale, and which are kept ----

  /** Behind leading spaces the token is "<name>=<value>", and starts with the prefix of state cookies. */
  ghost predicate IsStateCookie(c: Context, token: string, name: string, value: string) {
    && '=' !in name && (name == "" || name[0] != ' ') && c.prefix <= name + "=" + value
    && exists n: nat :: n <= |token| && (forall k :: 0 <= k < n ==> token[k] == ' ') && token[n..] == name + "=" + value
  }

  /** At that time the token is a state cookie other than the current one that cannot be decoded or has expired. */
  ghost predicate IsDead(c: Context, token: string, now: int, name: string) {
    && c.current != Some(name)
    && exists value :: IsStateCookie(c, token, name, value)
         && (c.decode(value) == None || now > c.decode(value).value + c.timeout)
  }

  /** At that time the token is a state cookie other than the current one, issued at e's time and not expired. */
  ghost predicate IsAlive(c: Context, token: string, now: int, e: Entry) {
    && c.current != Some(e.name)
    && exists value :: IsStateCookie(c, token, e.name, value)
         && c.decode(value) == Some(e.timestamp) && now <= e.timestamp + c.timeout
  }

  lemma CutAtEquals(name: string, value: string)
    requires '=' !in name
    ensures var cookie := name + "=" + value;
            ChrOrEnd(cookie, '=', 0) == |name| < |cookie| && cookie[..|name|] == name && cookie[|name| + 1..] == value
  {
    var cookie := name + "=" + value;
    assert cookie[|name|] == '=' && forall k :: 0 <= k < |name| ==> cookie[k] == name[k];
    EqualsAt(cookie, 0, |name|);
  }

  lemma {:induction false} EqualsAt(s: string, from: nat, e: nat)
    requires from <= e < |s| && s[e] == '=' && forall k :: from <= k < e ==> s[k] != '='
    ensures ChrOrEnd(s, '=', from) == e
    decreases e - from
  {
    if from < e { EqualsAt(s, from + 1, e); }
  }

  lemma ParsedIsCookie(c: Context, token: string, name: string, value: string)
    requires Parse(c, token) == Some(Pair(name, value))
    ensures IsStateCookie(c, token, name, value)
  {
    hide TrimSpaces, ChrOrEnd;
    var cookie := TrimSpaces(token);
    var n := TrimmedFrom(token);
    assert cookie == name + "=" + value;
    assert name != "" ==> name[0] == cookie[0];
  }

  lemma CookieIsParsed(c: Context, token: string, name: string, value: string, n: nat)
    requires '=' !in name && (name == "" || name[0] != ' ') && c.prefix <= name + "=" + value
    requires n <= |token| && (forall k :: 0 <= k < n ==> token[k] == ' ') && token[n..] == name + "=" + value
    ensures Parse(c, token) == Some(Pair(name, value))
  {
    hide TrimSpaces, ChrOrEnd;
    assert token[n..][0] == token[n];
    TrimmedTo(token, n);
    CutAtEquals(name, value);
  }

  /** What the scanner takes apart are state cookies. */
  lemma ParsedIff(c: Context, token: string, name: string, value: string)
    ensures Parse(c, token) == Some(Pair(name, value)) <==> IsStateCookie(c, token, name, value)
  {
    hide Parse;
    if Parse(c, token) == Some(Pair(name, value)) { ParsedIsCookie(c, token, name, value); }
    if IsStateCookie(c, token, name, value) {
      var n: nat :| n <= |token| && (forall k :: 0 <= k < n ==> token[k] == ' ') && token[n..] == name + "=" + value;
      CookieIsParsed(c, token, name, value, n);
    }
  }

  lemma JudgedIff(c: Context, token: string, i: nat, name: string, e: Entry)
    ensures Judge(c, token, i) == Stale(name) <==> IsDead(c, token, c.clock(i), name)
    ensures Judge(c, token, i) == Fresh(e) <==> IsAlive(c, token, c.clock(i), e)
  {
    hide Parse, IsStateCookie;
    forall n, v ensures Parse(c, token) == Some(Pair(n, v)) <==> IsStateCookie(c, token, n, v) {
      ParsedIff(c, token, n, v);
    }
  }

  /** Token k of these, which are numbered from i on, is dead, or alive, when it is reached. */
  ghost predicate IsDeadAt(c: Context, tokens: seq<string>, i: nat, k: nat, name: string) {
    k < |tokens| && IsDead(c, tokens[k], c.clock(i + k), name)
  }

  ghost predicate IsAliveAt(c: Context, tokens: seq<string>, i: nat, k: nat, e: Entry) {
    k < |tokens| && IsAlive(c, tokens[k], c.clock(i + k), e)
  }

  lemma TokenBehind(c: Context, tokens: seq<string>, i: nat, k: nat, name: string, e: Entry)
    requires tokens != []
    ensures IsDeadAt(c, tokens[1..], i + 1, k, name) <==> IsDeadAt(c, tokens, i, k + 1, name)
    ensures IsAliveAt(c, tokens[1..], i + 1, k, e) <==> IsAliveAt(c, tokens, i, k + 1, e)
  {
    hide IsDead, IsAlive;
    assert i + 1 + k == i + (k + 1);
  }

  /** Deleted as stale are exactly the other state cookies that, when their token is reached, are dead. */
  lemma {:induction false} StaleIff(c: Context, tokens: seq<string>, i: nat, name: string)
    ensures name in StaleOnes(c, tokens, i) <==> exists k: nat :: IsDeadAt(c, tokens, i, k, name)
    decreases |tokens|
  {
    hide Judge, IsDead, StaleOnes;
    NoTokensNoCookies(c, i);
    if tokens != [] {
      StaleIff(c, tokens[1..], i + 1, name);
      JudgedIff(c, tokens[0], i, name, Entry(name, 0));
      StaleHead(c, tokens, i, name);
      var tail, i' := tokens[1..], i + 1;
      if k: nat :| IsDeadAt(c, tail, i', k, name) {
        TokenBehind(c, tokens, i, k, name, Entry(name, 0));
      }
      if k: nat :| IsDeadAt(c, tokens, i, k, name) && k > 0 {
        TokenBehind(c, tokens, i, k - 1, name, Entry(name, 0));
      }
      assert i + 0 == i && (Judge(c, tokens[0], i) == Stale(name) <==> IsDeadAt(c, tokens, i, 0, name));
    }
  }

  lemma NoTokensNoCookies(c: Context, i: nat)
    ensures StaleOnes(c, [], i) == [] && FreshOnes(c, [], i) == []
  {
  }

  lemma StaleHead(c: Context, tokens: seq<string>, i: nat, name: string)
    requires tokens != []
    ensures name in StaleOnes(c, tokens, i) <==>
            Judge(c, tokens[0], i) == Stale(name) || name in StaleOnes(c, tokens[1..], i + 1)
  {
    hide Judge;
  }

  /** es lists the cookies alive among the tokens, in order: number j is that of token at[j]. */
  ghost predicate ListsAlive(c: Context, tokens: seq<string>, i: nat, es: seq<Entry>, at: seq<nat>) {
    && |at| == |es| && (forall j, k :: 0 <= j < k < |at| ==> at[j] < at[k])
    && (forall j :: 0 <= j < |at| ==> IsAliveAt(c, tokens, i, at[j], es[j]))
    && (forall k: nat, e :: IsAliveAt(c, tokens, i, k, e) ==> k in at)
  }

  /** Kept are exactly the other state cookies that are alive then, in the order of the header. */
  lemma {:induction false} FreshInOrder(c: Context, tokens: seq<string>, i: nat) returns (at: seq<nat>)
    ensures ListsAlive(c, tokens, i, FreshOnes(c, tokens, i), at)
    decreases |tokens|
  {
    hide Judge, IsDead, IsAlive, FreshOnes, ListsAlive;
    NoTokensNoCookies(c, i);
    if tokens == [] {
      at := [];
      assert ListsAlive(c, tokens, i, [], at) by { NothingAlive(c, i); }
    } else {
      var rest := FreshInOrder(c, tokens[1..], i + 1);
      FreshHead(c, tokens, i);
      at := OneMoreToken(c, tokens, i, FreshOnes(c, tokens[1..], i + 1), rest);
    }
  }

  lemma NothingAlive(c: Context, i: nat)
    ensures ListsAlive(c, [], i, [], [])
  {
  }

  /** One token more in front, which is listed itself if d is 1. */
  function Shifted(rest: seq<nat>, d: nat): (at: seq<nat>)
    ensures |at| == d + |rest|
    ensures forall j :: 0 <= j < |at| ==> at[j] == if j < d then 0 else rest[j - d] + 1
  {
    seq(d + |rest|, j requires 0 <= j < d + |rest| => if j < d then 0 else rest[j - d] + 1)
  }

  lemma OneMoreToken(c: Context, tokens: seq<string>, i: nat, es: seq<Entry>, rest: seq<nat>) returns (at: seq<nat>)
    requires tokens != [] && ListsAlive(c, tokens[1..], i + 1, es, rest)
    ensures var v := Judge(c, tokens[0], i);
            ListsAlive(c, tokens, i, (if v.Fresh? then [v.entry] else []) + es, at)
  {
    hide Judge, IsDead, IsAlive, IsAliveAt, Shifted;
    var v := Judge(c, tokens[0], i);
    var d := if v.Fresh? then 1 else 0;
    at := Shifted(rest, d);
    forall k: nat, e | IsAliveAt(c, tokens, i, k, e) ensures k in at {
      StillListed(c, tokens, i, es, rest, k, e);
    }
    var all := (if v.Fresh? then [v.entry] else []) + es;
    forall j | 0 <= j < |at| ensures IsAliveAt(c, tokens, i, at[j], all[j]) {
      if j >= d {
        assert all[j] == es[j - d] && at[j] == rest[j - d] + 1;
        TokenBehind(c, tokens, i, rest[j - d], "", es[j - d]);
      } else {
        FirstAlive(c, tokens, i, v.entry);
      }
    }
  }

  lemma StillListed(c: Context, tokens: seq<string>, i: nat, es: seq<Entry>, rest: seq<nat>, k: nat, e: Entry)
    requires tokens != [] && ListsAlive(c, tokens[1..], i + 1, es, rest) && IsAliveAt(c, tokens, i, k, e)
    ensures k in Shifted(rest, if Judge(c, tokens[0], i).Fresh? then 1 else 0)
  {
    hide Judge, IsDead, IsAlive, IsAliveAt, Shifted;
    var d := if Judge(c, tokens[0], i).Fresh? then 1 else 0;
    if k > 0 {
      TokenBehind(c, tokens, i, k - 1, "", e);
      assert IsAliveAt(c, tokens[1..], i + 1, k - 1, e);
      var j :| 0 <= j < |rest| && rest[j] == k - 1;
      assert Shifted(rest, d)[d + j] == k;
    } else {
      FirstAlive(c, tokens, i, e);
      assert Shifted(rest, d)[0] == 0;
    }
  }

  lemma FirstAlive(c: Context, tokens: seq<string>, i: nat, e: Entry)
    requires tokens != []
    ensures Judge(c, tokens[0], i) == Fresh(e) <==> IsAliveAt(c, tokens, i, 0, e)
  {
    hide Judge, IsDead, IsAlive;
    JudgedIff(c, tokens[0], i, "", e);
    assert i + 0 == i;
  }

  lemma FreshHead(c: Context, tokens: seq<string>, i: nat)
    requires tokens != []
    ensures FreshOnes(c, tokens, i) ==
            (if Judge(c, tokens[0], i).Fresh? then [Judge(c, tokens[0], i).entry] else [])
            + FreshOnes(c, tokens[1..], i + 1)
  {
    hide Judge;
  }

  /** With delete-oldest off, a name is deleted only for a state cookie that cannot be decoded or has expired. */
  lemma UnexpiredAreKept(c: Context, tokens: seq<string>, deleteOldest: int, max: int, name: string)
    requires deleteOldest <= 0
    ensures var p := Clean(FreshOnes(c, tokens, 0), deleteOldest, max);
            && p.count == |FreshOnes(c, tokens, 0)|
            && (name in StaleOnes(c, tokens, 0) + p.deleted <==> exists k: nat :: IsDeadAt(c, tokens, 0, k, name))
  {
    StaleIff(c, tokens, 0, name);
  }

  /** Deleting means clearing: one header for each name, with an empty value and an expiry in the past. */
  lemma {:induction false} DeletionsClear(names: seq<string>, k: nat)
    ensures |Deletions(names)| == |names|
    ensures k < |names| ==> Deletions(names)[k] == Chunked.SetCookie(names[k], "", 0)
    decreases |names|
  {
    if names != [] { DeletionsClear(names[1..], if k > 0 then k - 1 else 0); }
  }
}
