/** Which state cookies are given up when there are too many: the specification, on values. */
module StatePruning {

  /** A still valid state cookie and the time it was issued, in header order. */
  datatype Entry = Entry(name: string, timestamp: int)

  function RemoveAt<T>(s: seq<T>, i: nat): (r: seq<T>)
    requires i < |s|
    ensures |r| == |s| - 1
    ensures forall j :: 0 <= j < |r| ==> r[j] == if j < i then s[j] else s[j + 1]
  {
    s[..i] + s[i + 1..]
  }

  /** The first entry with the smallest timestamp among the first n. */
  function Oldest(es: seq<Entry>, n: nat): (i: nat)
    requires 0 < n <= |es|
    ensures i < n
    ensures forall j :: 0 <= j < n ==>
              es[i].timestamp <= es[j].timestamp && (j < i ==> es[i].timestamp < es[j].timestamp)
  {
    if n == 1 then 0
    else
      var o := Oldest(es, n - 1);
      if es[n - 1].timestamp < es[o].timestamp then n - 1 else o
  }

  datatype Pruned = Pruned(survivors: seq<Entry>, deleted: seq<string>, count: int)

  /** Delete the oldest entry, and count one down, until fewer than `max` are counted. */
  function DeleteOldest(es: seq<Entry>, count: int, max: int): Pruned
    decreases count - max
  {
    if count < max then Pruned(es, [], count)
    else if es == [] then DeleteOldest(es, count - 1, max)
    else
      var o := Oldest(es, |es|);
      var rest := DeleteOldest(RemoveAt(es, o), count - 1, max);
      rest.(deleted := [es[o].name] + rest.deleted)
  }

  // ---- what that comes down to ----

  /** Entry i goes before entry j: it is older, or equally old and earlier in the header. */
  predicate Before(es: seq<Entry>, i: nat, j: nat)
    requires i < |es| && j < |es|
  {
    es[i].timestamp < es[j].timestamp || (es[i].timestamp == es[j].timestamp && i < j)
  }

  /** How many of the first k entries go before entry j. */
  function Rank(es: seq<Entry>, j: nat, k: nat): (r: nat)
    requires j < |es| && k <= |es|
    ensures r <= k
  {
    if k == 0 then 0 else Rank(es, j, k - 1) + if Before(es, k - 1, j) then 1 else 0
  }

  /** The entries from position j on that have at least d entries before them in age. */
  function Youngest(es: seq<Entry>, d: nat, j: nat): seq<Entry>
    requires j <= |es|
    decreases |es| - j
  {
    if j == |es| then []
    else (if Rank(es, j, |es|) >= d then [es[j]] else []) + Youngest(es, d, j + 1)
  }

  function Max(a: int, b: int): int { if a < b then b else a }
  function Min(a: int, b: int): int { if a < b then a else b }

  lemma {:induction false} RankAfterRemoval(es: seq<Entry>, o: nat, j: nat, k: nat)
    requires o < |es| && o == Oldest(es, |es|) && j < |es| - 1 && k <= |es| - 1
    ensures var j' := if j < o then j else j + 1;
            if k <= o then Rank(RemoveAt(es, o), j, k) == Rank(es, j', k)
            else Rank(RemoveAt(es, o), j, k) == Rank(es, j', k + 1) - 1
    decreases k
  {
    var es', j' := RemoveAt(es, o), if j < o then j else j + 1;
    if k > 0 {
      RankAfterRemoval(es, o, j, k - 1);
      var i := k - 1;
      var i' := if i < o then i else i + 1;
      assert Before(es', i, j) <==> Before(es, i', j');
      if k == o + 1 {
        assert Before(es, o, j');
        assert Rank(es, j', k) == Rank(es, j', o) + 1;
      }
    }
  }

  lemma {:induction false} OldestHasRankZero(es: seq<Entry>, k: nat)
    requires es != [] && k <= |es|
    ensures Rank(es, Oldest(es, |es|), k) == 0
    decreases k
  {
    if k > 0 { OldestHasRankZero(es, k - 1); }
  }

  /** Without the oldest entry everybody else's rank is one less. */
  lemma RankDrops(es: seq<Entry>, o: nat, j: nat)
    requires o < |es| && o == Oldest(es, |es|) && j < |es| - 1
    ensures var j' := if j < o then j else j + 1;
            Rank(es, j', |es|) == Rank(RemoveAt(es, o), j, |es| - 1) + 1
  {
    RankAfterRemoval(es, o, j, |es| - 1);
    var j' := if j < o then j else j + 1;
    if o == |es| - 1 {
      assert Before(es, o, j');
    }
  }

  lemma {:induction false} YoungestAfterRemoval(es: seq<Entry>, o: nat, d: nat, j: nat)
    requires o < |es| && o == Oldest(es, |es|) && d > 0 && j <= |es|
    ensures Youngest(es, d, j) == Youngest(RemoveAt(es, o), d - 1, if j <= o then j else j - 1)
    decreases |es| - j
  {
    hide Rank, Before;
    if j < |es| {
      YoungestAfterRemoval(es, o, d, j + 1);
      if j == o {
        OldestHasRankZero(es, |es|);
      } else {
        RankDrops(es, o, if j < o then j else j - 1);
      }
    }
  }

  lemma {:induction false} NobodyTooOld(es: seq<Entry>, j: nat)
    requires j <= |es|
    ensures Youngest(es, 0, j) == es[j..]
    decreases |es| - j
  {
    if j < |es| {
      NobodyTooOld(es, j + 1);
      assert es[j..] == [es[j]] + es[j + 1..];
    }
  }

  /**
   * Counting from the number of entries, pruning deletes the max(0, n - max + 1) oldest entries (all
   * of them when that is more), ties going to the earliest in the header, and keeps the others in
   * their order; it returns min(n, max - 1).
   */
  lemma {:induction false} PruningKeepsTheYoungest(es: seq<Entry>, max: int)
    requires max >= 0
    ensures var p, d := DeleteOldest(es, |es|, max), Max(0, |es| - max + 1);
            && p.survivors == Youngest(es, d, 0)
            && |p.deleted| == Min(d, |es|) && |p.survivors| == |es| - |p.deleted|
            && p.count == Min(|es|, max - 1)
    decreases |es|
  {
    var d := Max(0, |es| - max + 1);
    if |es| < max {
      NobodyTooOld(es, 0);
      assert es[0..] == es;
    } else if es == [] {
      assert DeleteOldest(es, -1, max) == Pruned(es, [], -1);
    } else {
      var o := Oldest(es, |es|);
      PruningKeepsTheYoungest(RemoveAt(es, o), max);
      YoungestAfterRemoval(es, o, d, 0);
    }
  }

  lemma {:induction false} NothingToDelete(count: int, max: int)
    ensures DeleteOldest([], count, max).deleted == []
    decreases count - max
  {
    if count >= max { NothingToDelete(count - 1, max); }
  }

  lemma DeletionStep(es: seq<Entry>, max: int)
    requires DeleteOldest(es, |es|, max).deleted != []
    ensures es != [] && DeleteOldest(es, |es|, max).deleted ==
            [es[Oldest(es, |es|)].name] + DeleteOldest(RemoveAt(es, Oldest(es, |es|)), |es| - 1, max).deleted
  {
    NothingToDelete(|es|, max);
  }

  /** The k-th deletion is that of the entry with exactly k entries before it in age. */
  lemma {:induction false} DeletedInOrderOfAge(es: seq<Entry>, max: int, k: nat) returns (i: nat)
    requires max >= 0 && k < |DeleteOldest(es, |es|, max).deleted|
    ensures i < |es| && Rank(es, i, |es|) == k && es[i].name == DeleteOldest(es, |es|, max).deleted[k]
    decreases |es|
  {
    hide Rank, Before, DeleteOldest, Oldest;
    DeletionStep(es, max);
    var o := Oldest(es, |es|);
    if k == 0 {
      OldestHasRankZero(es, |es|);
      i := o;
    } else {
      var i' := DeletedInOrderOfAge(RemoveAt(es, o), max, k - 1);
      i := if i' < o then i' else i' + 1;
      RankDrops(es, o, i');
    }
  }

  /** What cleaning does with the still valid state cookies: prune them, with delete-oldest on. */
  function Clean(es: seq<Entry>, deleteOldest: int, max: int): Pruned {
    if deleteOldest > 0 then DeleteOldest(es, |es|, max) else Pruned(es, [], |es|)
  }

  /** When no valid state cookie is given up. */
  lemma NothingIsPrunedIff(es: seq<Entry>, deleteOldest: int, max: int)
    requires max >= 0
    ensures Clean(es, deleteOldest, max).deleted == [] <==> deleteOldest <= 0 || es == [] || |es| < max
    ensures Clean(es, deleteOldest, max).deleted == [] ==> Clean(es, deleteOldest, max).survivors == es
  {
  }

  /**
   * The documentation says that a limit of 0 means unlimited. With delete-oldest on, the code instead
   * deletes every valid state cookie; it leaves them alone exactly when that is off or there are none.
   */
  lemma ZeroIsNotUnlimited(es: seq<Entry>, deleteOldest: int)
    ensures deleteOldest > 0 ==> Clean(es, deleteOldest, 0).survivors == []
    ensures deleteOldest > 0 ==> |Clean(es, deleteOldest, 0).deleted| == |es|
    ensures deleteOldest > 0 ==> Clean(es, deleteOldest, 0).count == -1
    ensures Clean(es, deleteOldest, 0).deleted == [] <==> deleteOldest <= 0 || es == []
  {
    PruningKeepsTheYoungest(es, 0);
    NothingIsPrunedIff(es, deleteOldest, 0);
  }
}
