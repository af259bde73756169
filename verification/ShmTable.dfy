/**
 * The index-linked slot table inside the shared-memory segment, on values: 1-based links thread
 * every slot onto one hash-bucket chain or onto the free list. Index 0 means "none", so cell 0 of
 * a slot sequence stands for no slot.
 */
module ShmTable {
  import opened FiniteSets
  import opened ShmSpec
  import Layout = ShmLayout

  datatype Slot = Slot(sectionKey: string, access: int, expires: int, next: nat, value: string)

  /** How keys are spread over buckets: the low 32 bits of the keyed hash, masked with nbuckets - 1. */
  datatype Hashing = Hashing(nbuckets: nat, hash: string -> nat)
  {
    ghost predicate Valid() { nbuckets > 0 }

    function Bucket(sectionKey: string): (b: nat)
      requires nbuckets > 0
      ensures b < nbuckets
    {
      Layout.BitAnd(hash(sectionKey) % 0x1_0000_0000, nbuckets - 1)
    }

    /** The list a slot with this key belongs on; list number nbuckets is the free list. */
    function Home(sectionKey: string): (l: nat)
      requires nbuckets > 0
      ensures l <= nbuckets
    {
      if sectionKey == "" then nbuckets else Bucket(sectionKey)
    }
  }

  /** The link that leads to position i of a list, 0 past its end. */
  function LinkAt(list: seq<nat>, i: nat): nat {
    if i < |list| then list[i] else 0
  }

  ghost predicate IsList(slots: seq<Slot>, head: nat, list: seq<nat>) {
    && head == LinkAt(list, 0)
    && (forall i :: 0 <= i < |list| ==> 0 < list[i] < |slots|)
    && (forall i {:trigger slots[list[i]]} :: 0 <= i < |list| ==> slots[list[i]].next == LinkAt(list, i + 1))
  }

  ghost predicate Distinct(list: seq<nat>) {
    forall i, j :: 0 <= i < j < |list| ==> list[i] != list[j]
  }

  /** List number l, entered at `head`: acyclic, without the slot `out`, and holding only slots that belong there. */
  ghost predicate ListOk(g: Hashing, slots: seq<Slot>, head: nat, list: seq<nat>, l: nat, out: nat)
    requires g.Valid()
  {
    && IsList(slots, head, list)
    && Distinct(list)
    && out !in list
    && forall i {:trigger slots[list[i]]} :: 0 <= i < |list| ==> g.Home(slots[list[i]].sectionKey) == l
  }

  ghost predicate ListsOk(g: Hashing, heads: seq<nat>, slots: seq<Slot>, lists: seq<seq<nat>>, out: nat)
    requires g.Valid()
  {
    && |heads| == |lists| == g.nbuckets + 1
    && forall l :: 0 <= l < |lists| ==> ListOk(g, slots, heads[l], lists[l], l, out)
  }

  ghost predicate Covered(g: Hashing, slots: seq<Slot>, lists: seq<seq<nat>>, out: nat)
    requires g.Valid() && |lists| == g.nbuckets + 1
  {
    forall s :: 0 < s < |slots| && s != out ==> s in lists[g.Home(slots[s].sectionKey)]
  }

  /**
   * Every slot except `out` is on exactly one list, at exactly one position: the chain of its own
   * key's bucket, or the free list when its key is empty. `out` (0: none) is on no list.
   */
  ghost predicate Partition(g: Hashing, heads: seq<nat>, slots: seq<Slot>, lists: seq<seq<nat>>, out: nat)
    requires g.Valid()
  {
    ListsOk(g, heads, slots, lists, out) && Covered(g, slots, lists, out)
  }

  ghost predicate Occupied(slots: seq<Slot>, out: nat, s: nat) {
    0 < s < |slots| && s != out && slots[s].sectionKey != ""
  }

  ghost predicate Holds(slots: seq<Slot>, out: nat, s: nat, key: string) {
    Occupied(slots, out, s) && slots[s].sectionKey == key
  }

  /** The occupied slots other than `out` store exactly the map m, one slot per key. */
  ghost predicate Represents(slots: seq<Slot>, out: nat, m: Contents) {
    && (forall s: nat :: Occupied(slots, out, s) ==>
          && slots[s].sectionKey in m
          && m[slots[s].sectionKey] == Entry(slots[s].value, slots[s].expires, slots[s].access))
    && (forall k :: k in m ==> exists s: nat :: Holds(slots, out, s, k))
    && (forall s: nat, t: nat ::
          Occupied(slots, out, s) && Occupied(slots, out, t) && slots[s].sectionKey == slots[t].sectionKey ==> s == t)
  }

  function RemoveAt<T>(s: seq<T>, i: nat): seq<T>
    requires i < |s|
  {
    s[..i] + s[i + 1..]
  }

  /** Unlinking position pos of a list: its predecessor skips it ... */
  function UnlinkSlots(slots: seq<Slot>, list: seq<nat>, pos: nat): seq<Slot>
    requires pos < |list|
    requires forall i :: 0 <= i < |list| ==> list[i] < |slots|
  {
    if pos == 0 then slots
    else slots[list[pos - 1] := slots[list[pos - 1]].(next := slots[list[pos]].next)]
  }

  /** ... or the head does, when there is no predecessor. */
  function UnlinkHead(slots: seq<Slot>, head: nat, list: seq<nat>, pos: nat): nat
    requires pos < |list| && list[pos] < |slots|
  {
    if pos == 0 then slots[list[pos]].next else head
  }

  /** Only links differ between the two tables. */
  ghost predicate SamePayload(slots: seq<Slot>, slots': seq<Slot>) {
    && |slots| == |slots'|
    && forall s :: 0 <= s < |slots| ==> slots'[s] == slots[s].(next := slots'[s].next)
  }

  lemma UnlinkKeepsPayload(slots: seq<Slot>, list: seq<nat>, pos: nat)
    requires pos < |list| && forall i :: 0 <= i < |list| ==> list[i] < |slots|
    ensures SamePayload(slots, UnlinkSlots(slots, list, pos))
  {
  }

  lemma RemovedDistinct(list: seq<nat>, pos: nat)
    requires Distinct(list) && pos < |list|
    ensures Distinct(RemoveAt(list, pos)) && list[pos] !in RemoveAt(list, pos)
  {
  }

  lemma UnlinkIsList(slots: seq<Slot>, head: nat, list: seq<nat>, pos: nat)
    requires IsList(slots, head, list) && Distinct(list) && pos < |list|
    ensures IsList(UnlinkSlots(slots, list, pos), UnlinkHead(slots, head, list, pos), RemoveAt(list, pos))
  {
  }

  lemma UnlinkList(g: Hashing, slots: seq<Slot>, head: nat, list: seq<nat>, l: nat, pos: nat)
    requires g.Valid() && ListOk(g, slots, head, list, l, 0) && pos < |list|
    ensures ListOk(g, UnlinkSlots(slots, list, pos), UnlinkHead(slots, head, list, pos), RemoveAt(list, pos), l,
              list[pos])
  {
    UnlinkIsList(slots, head, list, pos);
    RemovedDistinct(list, pos);
    assert forall i :: 0 <= i < |list| ==> list[i] < |slots|;
    UnlinkKeepsPayload(slots, list, pos);
    hide IsList, Distinct, UnlinkHead, UnlinkSlots;
    var rest := RemoveAt(list, pos);
    forall i | 0 <= i < |rest| ensures g.Home(UnlinkSlots(slots, list, pos)[rest[i]].sectionKey) == l {
      assert rest[i] == list[if i < pos then i else i + 1];
    }
  }

  lemma UnlinkKeepsLists(g: Hashing, heads: seq<nat>, slots: seq<Slot>, lists: seq<seq<nat>>, l: nat, pos: nat)
    requires g.Valid() && ListsOk(g, heads, slots, lists, 0)
    requires l < |lists| && pos < |lists[l]|
    ensures ListOk(g, slots, heads[l], lists[l], l, 0)
    ensures ListsOk(g, heads[l := UnlinkHead(slots, heads[l], lists[l], pos)], UnlinkSlots(slots, lists[l], pos),
                    lists[l := RemoveAt(lists[l], pos)], lists[l][pos])
  {
    assert ListOk(g, slots, heads[l], lists[l], l, 0);
    UnlinkList(g, slots, heads[l], lists[l], l, pos);
    forall k | 0 <= k < |lists| && k != l
      ensures ListOk(g, UnlinkSlots(slots, lists[l], pos), heads[k], lists[k], k, lists[l][pos])
    {
      UnlinkElsewhere(g, heads, slots, lists, l, pos, k);
    }
  }

  lemma UnlinkKeepsPartition(g: Hashing, heads: seq<nat>, slots: seq<Slot>, lists: seq<seq<nat>>, l: nat, pos: nat)
    requires g.Valid() && Partition(g, heads, slots, lists, 0)
    requires l < |lists| && pos < |lists[l]|
    ensures IsList(slots, heads[l], lists[l])
    ensures Partition(g, heads[l := UnlinkHead(slots, heads[l], lists[l], pos)], UnlinkSlots(slots, lists[l], pos),
                      lists[l := RemoveAt(lists[l], pos)], lists[l][pos])
  {
    UnlinkKeepsLists(g, heads, slots, lists, l, pos);
    UnlinkKeepsPayload(slots, lists[l], pos);
    UnlinkKeepsCovered(g, slots, UnlinkSlots(slots, lists[l], pos), lists, l, pos);
  }

  lemma UnlinkKeepsCovered(g: Hashing, slots: seq<Slot>, slots': seq<Slot>, lists: seq<seq<nat>>, l: nat, pos: nat)
    requires g.Valid() && |lists| == g.nbuckets + 1 && Covered(g, slots, lists, 0) && SamePayload(slots, slots')
    requires l < |lists| && pos < |lists[l]|
    ensures Covered(g, slots', lists[l := RemoveAt(lists[l], pos)], lists[l][pos])
  {
  }

  lemma UnlinkElsewhere(g: Hashing, heads: seq<nat>, slots: seq<Slot>, lists: seq<seq<nat>>, l: nat, pos: nat, k: nat)
    requires g.Valid() && ListsOk(g, heads, slots, lists, 0)
    requires l < |lists| && pos < |lists[l]| && k < |lists| && k != l
    ensures ListOk(g, slots, heads[l], lists[l], l, 0)
    ensures ListOk(g, UnlinkSlots(slots, lists[l], pos), heads[k], lists[k], k, lists[l][pos])
  {
  }

  /** Pushing the unowned slot `idx`, now holding x, in front of the list it belongs on. */
  lemma PushKeepsPartition(g: Hashing, heads: seq<nat>, slots: seq<Slot>, lists: seq<seq<nat>>, idx: nat, x: Slot)
    requires g.Valid() && Partition(g, heads, slots, lists, idx)
    requires 0 < idx < |slots| && x.next == heads[g.Home(x.sectionKey)]
    ensures var h := g.Home(x.sectionKey);
            Partition(g, heads[h := idx], slots[idx := x], lists[h := [idx] + lists[h]], 0)
  {
    PushKeepsLists(g, heads, slots, lists, idx, x);
    PushKeepsCovered(g, slots, lists, idx, x);
  }

  lemma PushKeepsLists(g: Hashing, heads: seq<nat>, slots: seq<Slot>, lists: seq<seq<nat>>, idx: nat, x: Slot)
    requires g.Valid() && ListsOk(g, heads, slots, lists, idx)
    requires 0 < idx < |slots| && x.next == heads[g.Home(x.sectionKey)]
    ensures var h := g.Home(x.sectionKey);
            ListsOk(g, heads[h := idx], slots[idx := x], lists[h := [idx] + lists[h]], 0)
  {
  }

  lemma PushKeepsCovered(g: Hashing, slots: seq<Slot>, lists: seq<seq<nat>>, idx: nat, x: Slot)
    requires g.Valid() && |lists| == g.nbuckets + 1 && Covered(g, slots, lists, idx) && 0 < idx < |slots|
    ensures var h := g.Home(x.sectionKey); Covered(g, slots[idx := x], lists[h := [idx] + lists[h]], 0)
  {
  }

  /** Taking slot idx off its list drops its key (if it has one) from the represented map. */
  lemma TakeOut(slots: seq<Slot>, slots': seq<Slot>, idx: nat, m: Contents)
    requires Represents(slots, 0, m) && SamePayload(slots, slots') && 0 < idx < |slots|
    ensures Represents(slots', idx, m - {slots[idx].sectionKey})
  {
    var m' := m - {slots[idx].sectionKey};
    forall s: nat | Occupied(slots', idx, s)
      ensures && slots'[s].sectionKey in m'
              && m'[slots'[s].sectionKey] == Entry(slots'[s].value, slots'[s].expires, slots'[s].access)
    {
      assert Occupied(slots, 0, s);
      if slots[s].sectionKey == slots[idx].sectionKey { assert Occupied(slots, 0, idx); }
    }
    forall k | k in m' ensures exists s: nat :: Holds(slots', idx, s, k) {
      var s: nat :| Holds(slots, 0, s, k);
      assert Holds(slots', idx, s, k);
    }
    forall s: nat, t: nat |
      Occupied(slots', idx, s) && Occupied(slots', idx, t) && slots'[s].sectionKey == slots'[t].sectionKey
      ensures s == t
    {
      assert Occupied(slots, 0, s) && Occupied(slots, 0, t);
    }
  }

  /** Returning slot idx empty, or with a key that is new to the map. */
  lemma PutBack(slots: seq<Slot>, idx: nat, x: Slot, m: Contents)
    requires Represents(slots, idx, m) && 0 < idx < |slots| && x.sectionKey !in m
    ensures Represents(slots[idx := x], 0,
                       if x.sectionKey == "" then m else m[x.sectionKey := Entry(x.value, x.expires, x.access)])
  {
    var slots' := slots[idx := x];
    var m' := if x.sectionKey == "" then m else m[x.sectionKey := Entry(x.value, x.expires, x.access)];
    assert forall s: nat :: s != idx ==> Occupied(slots', 0, s) == Occupied(slots, idx, s);
    assert forall s: nat :: Occupied(slots, idx, s) ==> slots[s].sectionKey in m;
    forall k | k in m' ensures exists s: nat :: Holds(slots', 0, s, k) {
      if k == x.sectionKey && x.sectionKey != "" {
        assert Holds(slots', 0, idx, k);
      } else {
        var s: nat :| Holds(slots, idx, s, k);
        assert Holds(slots', 0, s, k);
      }
    }
  }

  /** Rewriting the payload of an occupied slot without touching its key or link. */
  lemma RewriteKeepsPartition(g: Hashing, heads: seq<nat>, slots: seq<Slot>, lists: seq<seq<nat>>, idx: nat, x: Slot)
    requires g.Valid() && Partition(g, heads, slots, lists, 0)
    requires 0 < idx < |slots| && x.sectionKey == slots[idx].sectionKey && x.next == slots[idx].next
    ensures Partition(g, heads, slots[idx := x], lists, 0)
  {
  }

  lemma Rewrite(slots: seq<Slot>, idx: nat, x: Slot, m: Contents)
    requires Represents(slots, 0, m) && Occupied(slots, 0, idx) && x.sectionKey == slots[idx].sectionKey
    ensures Represents(slots[idx := x], 0, m[x.sectionKey := Entry(x.value, x.expires, x.access)])
  {
    TakeOut(slots, slots, idx, m);
    PutBack(slots, idx, x, m - {x.sectionKey});
    assert (m - {x.sectionKey})[x.sectionKey := Entry(x.value, x.expires, x.access)]
        == m[x.sectionKey := Entry(x.value, x.expires, x.access)];
  }

  lemma {:induction false} SameSize(slots: seq<Slot>, occupied: set<nat>, keys: set<string>)
    requires forall s :: s in occupied ==> s < |slots| && slots[s].sectionKey in keys
    requires forall k :: k in keys ==> exists s :: s in occupied && slots[s].sectionKey == k
    requires forall s, t :: s in occupied && t in occupied && slots[s].sectionKey == slots[t].sectionKey ==> s == t
    ensures |occupied| == |keys|
    decreases occupied
  {
    if s :| s in occupied {
      var rest := keys - {slots[s].sectionKey};
      forall k | k in rest ensures exists t :: t in occupied - {s} && slots[t].sectionKey == k {
        var t :| t in occupied && slots[t].sectionKey == k;
        assert t in occupied - {s};
      }
      SameSize(slots, occupied - {s}, rest);
    } else {
      assert keys == {};
    }
  }

  function UpTo(n: nat): (r: set<nat>)
    ensures |r| == n && forall s :: s in r <==> 0 < s <= n
  {
    if n == 0 then {} else UpTo(n - 1) + {n}
  }

  function OccupiedSlots(slots: seq<Slot>): set<nat>
    requires |slots| > 0
  {
    set s | s in UpTo(|slots| - 1) && slots[s].sectionKey != ""
  }

  lemma OccupiedCount(slots: seq<Slot>, m: Contents)
    requires Represents(slots, 0, m) && |slots| > 0
    ensures |OccupiedSlots(slots)| == |m|
  {
    var occupied := OccupiedSlots(slots);
    assert forall s :: s in occupied ==> Occupied(slots, 0, s);
    forall k | k in m.Keys ensures exists s :: s in occupied && slots[s].sectionKey == k {
      var s: nat :| Holds(slots, 0, s, k);
      assert s in occupied;
    }
    SameSize(slots, occupied, m.Keys);
  }

  /** The map never outgrows the table, and it fills the table exactly when the free list is empty. */
  lemma FullIffNoFreeSlot(g: Hashing, heads: seq<nat>, slots: seq<Slot>, lists: seq<seq<nat>>, m: Contents)
    requires g.Valid() && Partition(g, heads, slots, lists, 0) && Represents(slots, 0, m) && |slots| > 0
    ensures |m| <= |slots| - 1
    ensures |m| < |slots| - 1 <==> heads[g.nbuckets] != 0
  {
    var all := UpTo(|slots| - 1);
    OccupiedCount(slots, m);
    SubsetSize(OccupiedSlots(slots), all);
    var freeList := lists[g.nbuckets];
    assert ListOk(g, slots, heads[g.nbuckets], freeList, g.nbuckets, 0);
    if heads[g.nbuckets] == 0 {
      assert freeList == [];
      forall s | s in all ensures s in OccupiedSlots(slots) {
        assert s in lists[g.Home(slots[s].sectionKey)];
      }
      SubsetSize(all, OccupiedSlots(slots));
    } else {
      var f := freeList[0];
      assert g.Home(slots[f].sectionKey) == g.nbuckets;
      SubsetSize(OccupiedSlots(slots), all - {f});
    }
  }

  /** A stored key sits on the chain of its own bucket. */
  lemma KeyOnItsChain(g: Hashing, heads: seq<nat>, slots: seq<Slot>, lists: seq<seq<nat>>, m: Contents, key: string)
    requires g.Valid() && Partition(g, heads, slots, lists, 0) && Represents(slots, 0, m) && key != ""
    ensures key in m ==> exists i :: 0 <= i < |lists[g.Bucket(key)]| && Holds(slots, 0, lists[g.Bucket(key)][i], key)
  {
  }

  /** Following the links from head passes exactly the slots of cur and then arrives at idx. */
  ghost predicate Chain(slots: seq<Slot>, head: nat, cur: seq<nat>, idx: nat) {
    && head == (if cur == [] then idx else cur[0])
    && (forall i :: 0 <= i < |cur| ==> 0 < cur[i] < |slots|)
    && (forall i {:trigger slots[cur[i]]} :: 0 <= i < |cur| ==>
          slots[cur[i]].next == if i + 1 < |cur| then cur[i + 1] else idx)
  }

  /** Links determine the list: what has been walked so far is a prefix of any list with this head. */
  lemma {:induction false} ChainIsPrefix(slots: seq<Slot>, head: nat, cur: seq<nat>, idx: nat, list: seq<nat>)
    requires Chain(slots, head, cur, idx) && IsList(slots, head, list)
    ensures cur <= list && idx == LinkAt(list, |cur|)
    decreases |cur|
  {
    if |cur| > 0 {
      var n := |cur| - 1;
      assert forall i :: 0 <= i < n ==> cur[..n][i] == cur[i];
      ChainIsPrefix(slots, head, cur[..n], cur[n], list);
      assert cur[n] == list[n] && slots[cur[n]].next == idx && slots[list[n]].next == LinkAt(list, n + 1);
      assert cur == cur[..n] + [cur[n]];
    }
  }

  ghost predicate InSome(lists: seq<seq<nat>>, s: nat) {
    exists l :: 0 <= l < |lists| && s in lists[l]
  }

  /** The first |done| lists have been walked completely. */
  ghost predicate Walked(g: Hashing, heads: seq<nat>, slots: seq<Slot>, done: seq<seq<nat>>)
    requires g.Valid()
  {
    && |done| <= |heads| == g.nbuckets + 1
    && forall k :: 0 <= k < |done| ==> ListOk(g, slots, heads[k], done[k], k, 0)
  }

  lemma WalkedIsUnique(g: Hashing, heads: seq<nat>, slots: seq<Slot>, done: seq<seq<nat>>, lists: seq<seq<nat>>)
    requires g.Valid() && Walked(g, heads, slots, done) && ListsOk(g, heads, slots, lists, 0)
    ensures done <= lists
  {
    forall k | 0 <= k < |done| ensures done[k] == lists[k] {
      assert ListOk(g, slots, heads[k], done[k], k, 0) && ListOk(g, slots, heads[k], lists[k], k, 0);
      ChainIsPrefix(slots, heads[k], done[k], 0, lists[k]);
    }
  }

  /** In a well-formed table the next slot of a walk is in range, not seen before, and at home on the list. */
  lemma NextStepIsSound(g: Hashing, heads: seq<nat>, slots: seq<Slot>, done: seq<seq<nat>>, cur: seq<nat>, idx: nat,
                        lists: seq<seq<nat>>)
    requires g.Valid() && |done| <= g.nbuckets && Walked(g, heads, slots, done)
    requires Chain(slots, heads[|done|], cur, idx) && idx != 0
    requires ListsOk(g, heads, slots, lists, 0)
    ensures idx < |slots| && g.Home(slots[idx].sectionKey) == |done| && idx !in cur && !InSome(done, idx)
  {
    var l := |done|;
    assert ListOk(g, slots, heads[l], lists[l], l, 0);
    ChainIsPrefix(slots, heads[l], cur, idx, lists[l]);
    assert idx == lists[l][|cur|] && slots[lists[l][|cur|]] == slots[idx];
    WalkedIsUnique(g, heads, slots, done, lists);
    forall k | 0 <= k < |done| ensures idx !in done[k] {
      assert ListOk(g, slots, heads[k], lists[k], k, 0) && done[k] == lists[k];
      assert forall s :: s in lists[k] ==> g.Home(slots[s].sectionKey) == k;
    }
  }

  lemma NoOrphanIffCovered(g: Hashing, heads: seq<nat>, slots: seq<Slot>, done: seq<seq<nat>>)
    requires g.Valid() && |done| == g.nbuckets + 1 && Walked(g, heads, slots, done)
    ensures Covered(g, slots, done, 0) <==> forall s: nat :: 0 < s < |slots| ==> InSome(done, s)
  {
    if forall s: nat :: 0 < s < |slots| ==> InSome(done, s) {
      forall s | 0 < s < |slots| ensures s in done[g.Home(slots[s].sectionKey)] {
        assert InSome(done, s);
        var l :| 0 <= l < |done| && s in done[l];
        assert ListOk(g, slots, heads[l], done[l], l, 0);
        assert forall t :: t in done[l] ==> g.Home(slots[t].sectionKey) == l;
      }
    }
    if Covered(g, slots, done, 0) {
      forall s: nat | 0 < s < |slots| ensures InSome(done, s) {
        assert s in done[g.Home(slots[s].sectionKey)];
      }
    }
  }

  lemma ChainStep(g: Hashing, slots: seq<Slot>, head: nat, cur: seq<nat>, idx: nat, l: nat)
    requires g.Valid() && Chain(slots, head, cur, idx) && Distinct(cur) && 0 < idx < |slots| && idx !in cur
    requires forall s :: s in cur ==> s < |slots| && g.Home(slots[s].sectionKey) == l
    requires g.Home(slots[idx].sectionKey) == l
    ensures Chain(slots, head, cur + [idx], slots[idx].next) && Distinct(cur + [idx])
    ensures forall s :: s in cur + [idx] ==> s < |slots| && g.Home(slots[s].sectionKey) == l
  {
  }

  lemma ChainEnd(g: Hashing, slots: seq<Slot>, head: nat, cur: seq<nat>, l: nat)
    requires g.Valid() && Chain(slots, head, cur, 0) && Distinct(cur)
    requires forall s :: s in cur ==> s < |slots| && g.Home(slots[s].sectionKey) == l
    ensures ListOk(g, slots, head, cur, l, 0)
  {
  }

  /** Once everything is walked, soundness of the table is decided by the absence of orphans. */
  lemma SoundIffNoOrphan(g: Hashing, heads: seq<nat>, slots: seq<Slot>, done: seq<seq<nat>>)
    requires g.Valid() && |done| == g.nbuckets + 1 && Walked(g, heads, slots, done)
    ensures (exists ls :: Partition(g, heads, slots, ls, 0)) <==> forall s: nat :: 0 < s < |slots| ==> InSome(done, s)
  {
    NoOrphanIffCovered(g, heads, slots, done);
    if ls :| Partition(g, heads, slots, ls, 0) {
      WalkedIsUnique(g, heads, slots, done, ls);
      assert done == ls;
    }
    if Covered(g, slots, done, 0) {
      assert Partition(g, heads, slots, done, 0);
    }
  }

  /** All slots on the free list, in order, and all buckets empty. */
  lemma FreshTable(g: Hashing, heads: seq<nat>, slots: seq<Slot>)
    requires g.Valid() && |slots| > 1 && |heads| == g.nbuckets + 1
    requires forall b :: 0 <= b < g.nbuckets ==> heads[b] == 0
    requires heads[g.nbuckets] == 1
    requires forall s {:trigger slots[s]} :: 0 < s < |slots| ==>
               slots[s].sectionKey == "" && slots[s].next == if s + 1 < |slots| then s + 1 else 0
    ensures Partition(g, heads, slots, seq(g.nbuckets, _ => []) + [seq(|slots| - 1, i => i + 1)], 0)
    ensures Represents(slots, 0, map[])
  {
    var free := seq(|slots| - 1, i => i + 1);
    var lists := seq(g.nbuckets, _ => []) + [free];
    forall s: nat | 0 < s < |slots| ensures slots[s].sectionKey == "" && s in lists[g.nbuckets] {
      assert free[s - 1] == s;
    }
  }
}
