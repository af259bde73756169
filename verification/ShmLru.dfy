/**
 * Exact LRU over whole runs of the shared-memory cache: with a strictly increasing clock, no
 * deletes and no expiry, what is stored is decided by how recently each key was used.
 */
module ShmLru {
  import opened FiniteSets
  import opened Options
  import opened ShmSpec

  datatype Op = Put(key: string, value: string, expires: int) | Lookup(key: string, result: Option<string>)

  /** A run: operation i happens at times[i] and takes the cache from states[i] to states[i + 1]. */
  datatype Run = Run(capacity: nat, ops: seq<Op>, times: seq<int>, states: seq<Contents>)
  {
    ghost predicate StepOk(i: nat)
      requires i < |ops| == |times| && |states| == |ops| + 1
    {
      match ops[i]
      case Put(k, v, e) => SetSpec(capacity, states[i], k, Entry(v, e, times[i]), states[i + 1])
      case Lookup(k, result) => GetSpec(states[i], k, times[i], states[i + 1], result)
    }

    /** Nothing that expires at `expires` does so during the run. */
    ghost predicate Outlives(expires: int) {
      forall i :: 0 <= i < |times| ==> times[i] < expires
    }

    ghost predicate Valid() {
      && capacity > 0
      && |ops| == |times| && |states| == |ops| + 1
      && states[0] == map[]
      && (forall i {:trigger StepOk(i)} :: 0 <= i < |ops| ==> StepOk(i))
      && (forall i, j :: 0 <= i < j < |ops| ==> times[i] < times[j])
      && (forall i :: 0 <= i < |ops| && ops[i].Put? ==> Outlives(ops[i].expires))
    }

    /** Operation i uses its key: it stores it, or looks it up and finds it. */
    ghost predicate IsUse(i: nat)
      requires i < |ops| == |times| && |states| == |ops| + 1
    {
      ops[i].Put? || ops[i].key in states[i]
    }

    /** The last use of k among the first j operations, -1 if there is none. */
    ghost function LastUse(j: nat, k: string): (i: int)
      requires |ops| == |times| && |states| == |ops| + 1 && j <= |ops|
      ensures -1 <= i < j
      ensures i >= 0 ==> ops[i].key == k && IsUse(i)
    {
      if j == 0 then -1
      else if ops[j - 1].key == k && IsUse(j - 1) then j - 1
      else LastUse(j - 1, k)
    }

    /** The distinct keys used by operations i, .., j - 1. */
    ghost function UsedBetween(i: nat, j: nat): set<string>
      requires |ops| == |times| && |states| == |ops| + 1 && j <= |ops|
    {
      if j <= i then {}
      else UsedBetween(i, j - 1) + if IsUse(j - 1) then {ops[j - 1].key} else {}
    }

    /** The last value stored under k by the first j operations. */
    ghost function LastPut(j: nat, k: string): Option<string>
      requires j <= |ops|
    {
      if j == 0 then None
      else if ops[j - 1].Put? && ops[j - 1].key == k then Some(ops[j - 1].value)
      else LastPut(j - 1, k)
    }

    ghost predicate EntryOk(j: nat, k: string, e: Entry)
      requires |ops| == |times| && |states| == |ops| + 1 && j <= |ops|
    {
      && LastUse(j, k) >= 0 && e.access == times[LastUse(j, k)]
      && LastPut(j, k) == Some(e.value)
      && Outlives(e.expires)
    }

    /** b was used after a. */
    ghost predicate MoreRecent(j: nat, a: string, b: string)
      requires |ops| == |times| && |states| == |ops| + 1 && j <= |ops|
    {
      LastUse(j, a) < LastUse(j, b)
    }

    /** What is true after the first j operations. */
    ghost predicate Inv(j: nat)
      requires |ops| == |times| && |states| == |ops| + 1 && j <= |ops|
    {
      && (forall k :: k in states[j] ==> EntryOk(j, k, states[j][k]))
      && (forall a, b {:trigger MoreRecent(j, a, b)} :: a in states[j] && MoreRecent(j, a, b) ==> b in states[j])
      && |states[j]| == Min(capacity, |UsedBetween(0, j)|)
    }
  }

  function Min(a: nat, b: nat): nat { if a < b then a else b }

  lemma {:induction false} UsedIffLastUse(r: Run, i: nat, j: nat, k: string)
    requires r.Valid() && j <= |r.ops|
    ensures k in r.UsedBetween(i, j) <==> r.LastUse(j, k) >= i
    decreases j
  {
    if j > i { UsedIffLastUse(r, i, j - 1, k); }
  }

  lemma ResidentsWereUsed(r: Run, j: nat)
    requires r.Valid() && j <= |r.ops| && r.Inv(j)
    ensures r.states[j].Keys <= r.UsedBetween(0, j)
  {
    hide Run.StepOk;
    forall k | k in r.states[j] ensures k in r.UsedBetween(0, j) {
      assert r.EntryOk(j, k, r.states[j][k]);
      UsedIffLastUse(r, 0, j, k);
    }
  }

  /** Entry e goes in under k; at most one entry, with the oldest access, goes out, and only when there is no room. */
  ghost predicate UseEffect(capacity: nat, m: Contents, k: string, e: Entry, m': Contents, dropped: set<string>) {
    && dropped <= m.Keys - {k}
    && m' == (m - dropped)[k := e]
    && (if k in m || |m| < capacity then dropped == {} else |dropped| == 1)
    && (forall v, a :: v in dropped && a in m ==> m[v].access <= m[a].access)
  }

  lemma PutEffect(capacity: nat, m: Contents, k: string, e: Entry, m': Contents) returns (dropped: set<string>)
    requires SetSpec(capacity, m, k, e, m')
    requires forall a :: a in m ==> m[a].expires > e.access
    ensures UseEffect(capacity, m, k, e, m', dropped)
  {
    dropped := {};
    if k in m || |m| < capacity {
      assert m - dropped == m;
    } else {
      var victim :| IsVictim(m, e.access, victim) && m' == (m - {victim})[k := e];
      dropped := {victim};
    }
  }

  /** The entry operation j leaves under its key. */
  ghost function NewEntry(r: Run, j: nat): Entry
    requires r.Valid() && j < |r.ops| && r.IsUse(j)
  {
    match r.ops[j]
    case Put(k, v, e) => Entry(v, e, r.times[j])
    case Lookup(k, _) => r.states[j][k].(access := r.times[j])
  }

  lemma UseStep(r: Run, j: nat) returns (dropped: set<string>)
    requires r.Valid() && j < |r.ops| && r.Inv(j) && r.IsUse(j)
    ensures UseEffect(r.capacity, r.states[j], r.ops[j].key, NewEntry(r, j), r.states[j + 1], dropped)
  {
    var m := r.states[j];
    assert r.StepOk(j);
    forall a | a in m ensures m[a].expires > r.times[j] { assert r.EntryOk(j, a, m[a]); }
    if r.ops[j].Put? {
      hide SetSpec;
      dropped := PutEffect(r.capacity, m, r.ops[j].key, NewEntry(r, j), r.states[j + 1]);
    } else {
      dropped := {};
      assert m - dropped == m;
    }
  }

  /** The number of entries after a step that puts k in the cache. */
  lemma SizeAfterUse(r: Run, j: nat, dropped: set<string>)
    requires r.Valid() && j < |r.ops| && r.Inv(j) && r.IsUse(j)
    requires UseEffect(r.capacity, r.states[j], r.ops[j].key, NewEntry(r, j), r.states[j + 1], dropped)
    ensures |r.states[j + 1]| == Min(r.capacity, |r.UsedBetween(0, j + 1)|)
  {
    hide Run.StepOk, Run.EntryOk, Run.MoreRecent;
    var m, k := r.states[j], r.ops[j].key;
    var used := r.UsedBetween(0, j);
    assert r.UsedBetween(0, j + 1) == used + {k};
    ResidentsWereUsed(r, j);
    SubsetSize(m.Keys, used);
    assert |m.Keys| == |m|;
    assert r.states[j + 1].Keys == m.Keys - dropped + {k};
    assert |r.states[j + 1].Keys| == |r.states[j + 1]|;
    if k in m {
      assert used + {k} == used && r.states[j + 1].Keys == m.Keys;
    } else if |m| < r.capacity {
      assert m.Keys == used;
      assert m.Keys - dropped + {k} == m.Keys + {k};
    } else {
      assert |m.Keys - dropped| == |m.Keys| - 1;
      SubsetSize(used, used + {k});
    }
  }

  lemma UseKeepsOrder(r: Run, j: nat, dropped: set<string>, a: string, b: string)
    requires r.Valid() && j < |r.ops| && r.Inv(j) && r.IsUse(j)
    requires UseEffect(r.capacity, r.states[j], r.ops[j].key, NewEntry(r, j), r.states[j + 1], dropped)
    requires a in r.states[j + 1] && r.MoreRecent(j + 1, a, b)
    ensures b in r.states[j + 1]
  {
    hide Run.StepOk;
    var m, k := r.states[j], r.ops[j].key;
    if b != k {
      assert a != k && r.MoreRecent(j, a, b);
      assert a in m && b in m;
      assert r.EntryOk(j, a, m[a]) && r.EntryOk(j, b, m[b]);
    }
  }

  lemma UseKeepsEntries(r: Run, j: nat, dropped: set<string>, k: string)
    requires r.Valid() && j < |r.ops| && r.Inv(j) && r.IsUse(j)
    requires UseEffect(r.capacity, r.states[j], r.ops[j].key, NewEntry(r, j), r.states[j + 1], dropped)
    requires k in r.states[j + 1]
    ensures r.EntryOk(j + 1, k, r.states[j + 1][k])
  {
    hide Run.StepOk, Run.MoreRecent;
    if k in r.states[j] { assert r.EntryOk(j, k, r.states[j][k]); }
  }

  lemma InvStep(r: Run, j: nat)
    requires r.Valid() && j < |r.ops| && r.Inv(j)
    ensures r.Inv(j + 1)
  {
    if r.IsUse(j) {
      var dropped := UseStep(r, j);
      hide Run.StepOk, Run.EntryOk, Run.MoreRecent, UseEffect;
      SizeAfterUse(r, j, dropped);
      var m' := r.states[j + 1];
      forall a, b | a in m' && r.MoreRecent(j + 1, a, b) ensures b in m' {
        UseKeepsOrder(r, j, dropped, a, b);
      }
      forall k | k in m' ensures r.EntryOk(j + 1, k, m'[k]) {
        UseKeepsEntries(r, j, dropped, k);
      }
    } else {
      assert r.StepOk(j);
      assert r.states[j + 1] == r.states[j];
      SkipStep(r, j);
    }
  }

  lemma SkipStep(r: Run, j: nat)
    requires r.Valid() && j < |r.ops| && r.Inv(j) && !r.IsUse(j) && r.states[j + 1] == r.states[j]
    ensures r.Inv(j + 1)
  {
    hide Run.StepOk;
    var m' := r.states[j + 1];
    forall k | k in m' ensures r.EntryOk(j + 1, k, m'[k]) {
      assert r.EntryOk(j, k, r.states[j][k]);
    }
    forall a, b | a in m' && r.MoreRecent(j + 1, a, b) ensures b in m' {
      assert r.MoreRecent(j, a, b);
    }
    assert r.UsedBetween(0, j + 1) == r.UsedBetween(0, j);
  }

  lemma {:induction false} InvHolds(r: Run, j: nat)
    requires r.Valid() && j <= |r.ops|
    ensures r.Inv(j)
    decreases j
  {
    if j > 0 {
      InvHolds(r, j - 1);
      InvStep(r, j - 1);
    }
  }

  lemma SinceIffMoreRecent(r: Run, j: nat, k: string, b: string)
    requires r.Valid() && j <= |r.ops| && r.LastUse(j, k) >= 0
    ensures b in r.UsedBetween(r.LastUse(j, k) + 1, j) <==> r.MoreRecent(j, k, b)
  {
  }

  /**
   * Exact LRU: after any number of operations a key is stored iff it was used and fewer than
   * `capacity` distinct other keys have been used since; it then holds the value last stored under it.
   */
  lemma ExactLru(r: Run, j: nat, k: string)
    requires r.Valid() && j <= |r.ops|
    ensures var last := r.LastUse(j, k);
            k in r.states[j] <==> last >= 0 && |r.UsedBetween(last + 1, j)| < r.capacity
    ensures k in r.states[j] ==> Some(r.states[j][k].value) == r.LastPut(j, k)
    ensures |r.states[j]| == Min(r.capacity, |r.UsedBetween(0, j)|)
  {
    InvHolds(r, j);
    if k in r.states[j] {
      assert r.EntryOk(j, k, r.states[j][k]);
      ResidentIsRecent(r, j, k);
    } else if r.LastUse(j, k) >= 0 {
      MissingIsOld(r, j, k);
    }
  }

  lemma ResidentIsRecent(r: Run, j: nat, k: string)
    requires r.Valid() && j <= |r.ops| && r.Inv(j) && k in r.states[j] && r.LastUse(j, k) >= 0
    ensures |r.UsedBetween(r.LastUse(j, k) + 1, j)| < r.capacity
  {
    hide Run.StepOk, Run.EntryOk;
    var m, since := r.states[j], r.UsedBetween(r.LastUse(j, k) + 1, j);
    forall b | b in since ensures b in m.Keys - {k} {
      SinceIffMoreRecent(r, j, k, b);
    }
    SubsetSize(since, m.Keys - {k});
    assert |m.Keys| == |m|;
  }

  lemma MissingIsOld(r: Run, j: nat, k: string)
    requires r.Valid() && j <= |r.ops| && r.Inv(j) && k !in r.states[j] && r.LastUse(j, k) >= 0
    ensures |r.UsedBetween(r.LastUse(j, k) + 1, j)| >= r.capacity
  {
    hide Run.StepOk, Run.EntryOk, Run.MoreRecent, Run.LastUse, Run.UsedBetween, Run.IsUse, Run.Inv;
    FullWhenMissing(r, j, k);
    var m := r.states[j];
    var since := r.UsedBetween(r.LastUse(j, k) + 1, j);
    forall a | a in m ensures a in since {
      ResidentIsNewer(r, j, k, a);
      SinceIffMoreRecent(r, j, k, a);
    }
    MapSize(m, since);
  }

  lemma MapSize(m: Contents, s: set<string>)
    requires m.Keys <= s
    ensures |m| <= |s|
  {
    SubsetSize(m.Keys, s);
    assert |m.Keys| == |m|;
  }

  lemma ResidentIsNewer(r: Run, j: nat, k: string, a: string)
    requires r.Valid() && j <= |r.ops| && r.Inv(j) && k !in r.states[j] && r.LastUse(j, k) >= 0 && a in r.states[j]
    ensures r.MoreRecent(j, k, a)
  {
    hide Run.StepOk, Run.LastUse;
    assert r.EntryOk(j, a, r.states[j][a]);
    assert !r.MoreRecent(j, a, k);
  }

  /** A key that was used but is gone was displaced: the cache is full. */
  lemma FullWhenMissing(r: Run, j: nat, k: string)
    requires r.Valid() && j <= |r.ops| && r.Inv(j) && r.LastUse(j, k) >= 0 && k !in r.states[j]
    ensures |r.states[j]| == r.capacity
  {
    hide Run.StepOk;
    ResidentsWereUsed(r, j);
    UsedIffLastUse(r, 0, j, k);
    assert |r.states[j].Keys| == |r.states[j]|;
    SubsetSize(r.states[j].Keys, r.UsedBetween(0, j));
  }
}
