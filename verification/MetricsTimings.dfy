/**
 * Timing histograms: each process adds its samples to a local histogram and from time to time merges
 * that into the one shared by all processes, whose sum is kept in milliseconds.
 */
module MetricsTimings {
  import opened MetricsInts
  import opened Options

  /** Upper bounds in microseconds; 0 marks the open-ended last bucket. */
  const THRESHOLDS: seq<int> := [100, 500, 1000, 5000, 10000, 50000, 100000, 500000, 1000000, 5000000, 0]
  const BUCKET_NUM: nat := 11

  /** The value of a timing; sum is in microseconds locally and in milliseconds when shared. */
  datatype Histogram = Histogram(buckets: seq<int>, sum: int, count: int)

  const ZERO := Histogram([0, 0, 0, 0, 0, 0, 0, 0, 0, 0, 0], 0, 0)

  predicate Covers(j: nat, elapsed: int)
    requires j < BUCKET_NUM
  {
    elapsed < THRESHOLDS[j] || THRESHOLDS[j] == 0
  }

  /** The buckets in microseconds. */
  lemma BucketBounds(elapsed: int)
    ensures Covers(0, elapsed) <==> elapsed < 100
    ensures Covers(1, elapsed) <==> elapsed < 500
    ensures Covers(2, elapsed) <==> elapsed < 1_000
    ensures Covers(3, elapsed) <==> elapsed < 5_000
    ensures Covers(4, elapsed) <==> elapsed < 10_000
    ensures Covers(5, elapsed) <==> elapsed < 50_000
    ensures Covers(6, elapsed) <==> elapsed < 100_000
    ensures Covers(7, elapsed) <==> elapsed < 500_000
    ensures Covers(8, elapsed) <==> elapsed < 1_000_000
    ensures Covers(9, elapsed) <==> elapsed < 5_000_000
    ensures Covers(10, elapsed)
  {
  }

  ghost predicate Shaped(h: Histogram) { |h.buckets| == BUCKET_NUM }

  /** One sample's contribution to each bucket. */
  function Marks(elapsed: int): (m: seq<int>)
    ensures |m| == BUCKET_NUM && forall j :: 0 <= j < BUCKET_NUM ==> m[j] == if Covers(j, elapsed) then 1 else 0
  {
    seq(BUCKET_NUM, j requires 0 <= j < BUCKET_NUM => if Covers(j, elapsed) then 1 else 0)
  }

  function Plus(a: seq<int>, b: seq<int>): (c: seq<int>)
    requires |a| == |b|
    ensures |c| == |a| && forall j :: 0 <= j < |a| ==> c[j] == a[j] + b[j]
  {
    seq(|a|, j requires 0 <= j < |a| => a[j] + b[j])
  }

  /** Every bucket that covers the sample counts it; an overflowing sum starts the histogram afresh. */
  function Added(h: Histogram, elapsed: int): (r: Histogram)
    requires Shaped(h)
    ensures Shaped(r)
  {
    if elapsed < 0 then h
    else if h.count > 0 && IsOverflow(h.sum, elapsed) then Histogram(Marks(elapsed), elapsed, 1)
    else Histogram(Plus(h.buckets, Marks(elapsed)), h.sum + elapsed, h.count + 1)
  }

  /** The shared histogram after a local one was merged into it; an overflowing sum starts afresh. */
  function Merged(shared: Option<Histogram>, h: Histogram): (r: Histogram)
    requires Shaped(h) && (shared.Some? ==> Shaped(shared.value))
    ensures Shaped(r)
  {
    match shared
    case None => h.(sum := h.sum / 1000)
    case Some(g) =>
      var sum := if IsOverflow(g.sum, h.sum / 1000) then h.sum / 1000 else g.sum + h.sum / 1000;
      Histogram(Plus(g.buckets, h.buckets), sum, g.count + h.count)
  }

  class Timing {
    const buckets: array<int>
    var sum: int
    var count: int

    ghost predicate Valid()
      reads this
    {
      buckets.Length == BUCKET_NUM
    }

    ghost function Value(): (h: Histogram)
      requires Valid()
      reads this, buckets
      ensures Shaped(h)
    {
      Histogram(buckets[..], sum, count)
    }

    /** A freshly allocated, zeroed timing. */
    constructor ()
      ensures Valid() && fresh(buckets) && Value() == ZERO
    {
      buckets := new int[BUCKET_NUM](_ => 0);
      sum, count := 0, 0;
    }

    /** Zero a timing, a local or a shared one. */
    method Clear()
      requires Valid()
      modifies this, buckets
      ensures Valid() && Value() == ZERO
    {
      count := 0;
      sum := 0;
      for i := 0 to BUCKET_NUM
        invariant sum == 0 && count == 0 && forall j :: 0 <= j < i ==> buckets[j] == 0
      {
        buckets[i] := 0;
      }
    }

    /** Thresholds ascend, so the buckets covering a sample are those from the first such one on. */
    method BucketsInc(elapsed: int)
      requires Valid()
      modifies buckets
      ensures forall j :: 0 <= j < BUCKET_NUM ==> buckets[j] == old(buckets[j]) + if Covers(j, elapsed) then 1 else 0
    {
      for i := 0 to BUCKET_NUM
        invariant buckets[..] == old(buckets[..])
        invariant forall j :: 0 <= j < i ==> !Covers(j, elapsed)
      {
        if elapsed < THRESHOLDS[i] || THRESHOLDS[i] == 0 {
          for j := i to BUCKET_NUM
            invariant forall k :: 0 <= k < BUCKET_NUM ==> buckets[k] == old(buckets[k]) + if i <= k < j then 1 else 0
          {
            buckets[j] := buckets[j] + 1;
          }
          CoversOn(i, elapsed);
          return;
        }
      }
      assert Covers(BUCKET_NUM - 1, elapsed);
    }

    method Add(elapsed: int)
      requires Valid()
      modifies this, buckets
      ensures Valid() && Value() == Added(old(Value()), elapsed)
    {
      if elapsed < 0 {
        return;
      }
      if count > 0 && IsOverflow(sum, elapsed) {
        Clear();
      }
      BucketsInc(elapsed);
      sum := sum + elapsed;
      count := count + 1;
    }

    /** The shared entry made of the first timing that is merged. */
    constructor New(timing: Timing)
      requires timing.Valid()
      ensures Valid() && fresh(buckets) && Value() == Merged(None, timing.Value())
    {
      var b := new int[BUCKET_NUM];
      for i := 0 to BUCKET_NUM
        invariant forall j :: 0 <= j < i ==> b[j] == timing.buckets[j]
        invariant timing.Valid() && timing.Value() == old(timing.Value())
      {
        b[i] := timing.buckets[i];
      }
      buckets := b;
      sum := timing.sum / 1000;
      count := timing.count;
    }

    /** The shared entry as it is read from the stored document. */
    constructor Parsed(entry: Timing)
      requires entry.Valid()
      ensures Valid() && fresh(buckets) && Value() == entry.Value()
    {
      var b := new int[BUCKET_NUM];
      for i := 0 to BUCKET_NUM
        invariant forall j :: 0 <= j < i ==> b[j] == entry.buckets[j]
        invariant entry.Valid() && entry.Value() == old(entry.Value())
      {
        b[i] := entry.buckets[i];
      }
      buckets := b;
      sum := entry.sum;
      count := entry.count;
    }

    /** Merge a timing into this shared entry. */
    method Update(timing: Timing)
      requires Valid() && timing.Valid() && timing != this && timing.buckets != buckets
      modifies this, buckets
      ensures Valid() && Value() == Merged(Some(old(Value())), timing.Value())
    {
      for i := 0 to BUCKET_NUM
        invariant sum == old(sum) && count == old(count)
        invariant forall j :: 0 <= j < BUCKET_NUM ==>
                                buckets[j] == old(buckets[j]) + if j < i then timing.buckets[j] else 0
      {
        buckets[i] := buckets[i] + timing.buckets[i];
      }
      var v := timing.sum / 1000;
      sum := if IsOverflow(sum, v) then v else sum + v;
      count := count + timing.count;
    }
  }

  lemma CoversOn(i: nat, elapsed: int)
    requires i < BUCKET_NUM && Covers(i, elapsed)
    ensures forall j :: i <= j < BUCKET_NUM ==> Covers(j, elapsed)
  {
  }

  // ---- what histograms count ----

  function CountBelow(samples: seq<int>, j: nat): nat
    requires j < BUCKET_NUM
  {
    if samples == [] then 0
    else CountBelow(samples[..|samples| - 1], j) + if Covers(j, samples[|samples| - 1]) then 1 else 0
  }

  function Total(samples: seq<int>): int {
    if samples == [] then 0 else Total(samples[..|samples| - 1]) + samples[|samples| - 1]
  }

  /** The histogram counts exactly these samples; its sum is given separately. */
  ghost predicate Counts(h: Histogram, samples: seq<int>) {
    Shaped(h) && h.count == |samples| && forall j :: 0 <= j < BUCKET_NUM ==> h.buckets[j] == CountBelow(samples, j)
  }

  /** Buckets do not decrease and the last one counts everything. */
  lemma {:induction false} BucketsAscend(samples: seq<int>, i: nat, j: nat)
    requires i <= j < BUCKET_NUM
    ensures CountBelow(samples, i) <= CountBelow(samples, j)
    ensures CountBelow(samples, BUCKET_NUM - 1) == |samples|
    decreases |samples|
  {
    if samples != [] {
      BucketsAscend(samples[..|samples| - 1], i, j);
      if Covers(i, samples[|samples| - 1]) { CoversOn(i, samples[|samples| - 1]); }
    }
  }

  lemma {:induction false} CountAppend(a: seq<int>, b: seq<int>, j: nat)
    requires j < BUCKET_NUM
    ensures CountBelow(a + b, j) == CountBelow(a, j) + CountBelow(b, j)
    decreases |b|
  {
    if b == [] {
      assert a + b == a;
    } else {
      assert (a + b)[..|a + b| - 1] == a + b[..|b| - 1];
      CountAppend(a, b[..|b| - 1], j);
    }
  }

  lemma {:induction false} TotalAppend(a: seq<int>, b: seq<int>)
    ensures Total(a + b) == Total(a) + Total(b)
    decreases |b|
  {
    if b == [] {
      assert a + b == a;
    } else {
      assert (a + b)[..|a + b| - 1] == a + b[..|b| - 1];
      TotalAppend(a, b[..|b| - 1]);
    }
  }

  // ---- whole runs ----

  type Process = nat

  /** A sample in a process; a flush, whose document may turn out too large to be stored; a reset of what is shared. */
  datatype Step = Sample(p: Process, elapsed: int) | Flush(p: Process, fits: bool) | Reset

  /** A process without a timing of its own is not in locals. */
  datatype State = State(locals: map<Process, Histogram>, shared: Option<Histogram>)

  ghost predicate Proper(s: State) {
    (forall p :: p in s.locals ==> Shaped(s.locals[p])) && (s.shared.Some? ==> Shaped(s.shared.value))
  }

  function Next(s: State, step: Step): (t: State)
    requires Proper(s)
    ensures Proper(t)
  {
    match step
    case Sample(p, elapsed) =>
      if elapsed < 0 then s
      else s.(locals := s.locals[p := Added(if p in s.locals then s.locals[p] else ZERO, elapsed)])
    case Flush(p, fits) =>
      var shared := if fits && p in s.locals then Some(Merged(s.shared, s.locals[p])) else s.shared;
      State(s.locals - {p}, shared)
    case Reset => s.(shared := if s.shared.Some? then Some(ZERO) else None)
  }

  function Run(steps: seq<Step>): (s: State)
    ensures Proper(s)
  {
    if steps == [] then State(map[], None) else Next(Run(steps[..|steps| - 1]), steps[|steps| - 1])
  }

  /** The samples that process p has taken since its last flush (or since its sum overflowed). */
  function Pending(steps: seq<Step>, p: Process): seq<int> {
    if steps == [] then []
    else
      var before := Pending(steps[..|steps| - 1], p);
      match steps[|steps| - 1]
      case Sample(q, elapsed) =>
        if q != p || elapsed < 0 then before
        else if before != [] && IsOverflow(Total(before), elapsed) then [elapsed]
        else before + [elapsed]
      case Flush(q, _) => if q == p then [] else before
      case Reset => before
  }

  /** The batches of samples stored since the last reset. */
  function Batches(steps: seq<Step>): seq<seq<int>> {
    if steps == [] then []
    else
      var init := steps[..|steps| - 1];
      match steps[|steps| - 1]
      case Sample(_, _) => Batches(init)
      case Flush(p, fits) =>
        if fits && Pending(init, p) != [] then Batches(init) + [Pending(init, p)] else Batches(init)
      case Reset => []
  }

  function Flat(batches: seq<seq<int>>): seq<int> {
    if batches == [] then [] else Flat(batches[..|batches| - 1]) + batches[|batches| - 1]
  }

  /** Milliseconds, rounded down batch by batch. */
  function Millis(batches: seq<seq<int>>): int {
    if batches == [] then 0 else Millis(batches[..|batches| - 1]) + Total(batches[|batches| - 1]) / 1000
  }

  /** Rounding loses less than a millisecond per merge. */
  lemma {:induction false} RoundingLoss(batches: seq<seq<int>>)
    ensures 1000 * Millis(batches) <= Total(Flat(batches)) <= 1000 * Millis(batches) + 999 * |batches|
    decreases |batches|
  {
    if batches != [] {
      RoundingLoss(batches[..|batches| - 1]);
      TotalAppend(Flat(batches[..|batches| - 1]), batches[|batches| - 1]);
    }
  }

  /** Merging batch `last` would overflow the sum of the batches since number k. */
  predicate Overflows(init: seq<seq<int>>, k: nat, last: seq<int>)
    requires k <= |init|
  {
    IsOverflow(Millis(init[k..]), Total(last) / 1000)
  }

  /** The number of the batch with which the shared sum last restarted, 0 if it never did. */
  function Restart(batches: seq<seq<int>>): (k: nat)
    ensures k <= |batches|
  {
    if batches == [] then 0
    else
      var init := batches[..|batches| - 1];
      if Overflows(init, Restart(init), batches[|batches| - 1]) then |init| else Restart(init)
  }

  /** The sum restarts exactly when some batch, not the first, takes the sum of all so far beyond the maximum. */
  lemma {:induction false} NeverRestartsIff(batches: seq<seq<int>>)
    ensures Restart(batches) == 0 <==> forall n :: 2 <= n <= |batches| ==> Millis(batches[..n]) <= INT_MAX
    decreases |batches|
  {
    if batches != [] {
      var init := batches[..|batches| - 1];
      NeverRestartsIff(init);
      assert forall n :: 2 <= n <= |init| ==> batches[..n] == init[..n];
      assert init[0..] == init && batches[..|batches|] == batches;
    }
  }

  lemma MillisRestart(init: seq<seq<int>>, last: seq<int>)
    ensures var k := Restart(init);
            Millis((init + [last])[Restart(init + [last])..]) ==
            if Overflows(init, k, last) then Total(last) / 1000 else Millis(init[k..]) + Total(last) / 1000
  {
    var batches, k := init + [last], Restart(init);
    assert batches[..|batches| - 1] == init && batches[|init|..] == [last];
    assert [last][..0] == [];
    assert batches[k..][..|batches[k..]| - 1] == init[k..];
  }

  ghost predicate LocalOk(s: State, steps: seq<Step>, p: Process) {
    && (p in s.locals <==> Pending(steps, p) != [])
    && (p in s.locals ==> Counts(s.locals[p], Pending(steps, p)) && s.locals[p].sum == Total(Pending(steps, p)))
  }

  ghost predicate SharedOk(s: State, steps: seq<Step>) {
    var batches := Batches(steps);
    match s.shared
    case None => batches == []
    case Some(h) => Counts(h, Flat(batches)) && h.sum == Millis(batches[Restart(batches)..])
  }

  lemma AddedCounts(h: Histogram, samples: seq<int>, elapsed: int)
    requires Counts(h, samples) && h.sum == Total(samples) && elapsed >= 0
    ensures var kept := if samples != [] && IsOverflow(Total(samples), elapsed) then [] else samples;
            var after := kept + [elapsed];
            Counts(Added(h, elapsed), after) && Added(h, elapsed).sum == Total(after)
  {
    hide Covers;
    var kept := if samples != [] && IsOverflow(Total(samples), elapsed) then [] else samples;
    var after := kept + [elapsed];
    assert after[|after| - 1] == elapsed && after[..|after| - 1] == kept;
    forall j: nat | j < BUCKET_NUM ensures Added(h, elapsed).buckets[j] == CountBelow(after, j) {
      assert CountBelow([], j) == 0;
    }
  }

  lemma MergedCounts(shared: Option<Histogram>, batches: seq<seq<int>>, h: Histogram, samples: seq<int>)
    requires shared.None? ==> batches == []
    requires shared.Some? ==> Counts(shared.value, Flat(batches))
    requires shared.Some? ==> shared.value.sum == Millis(batches[Restart(batches)..])
    requires Counts(h, samples) && h.sum == Total(samples)
    ensures var r, after := Merged(shared, h), batches + [samples];
            Counts(r, Flat(after)) && r.sum == Millis(after[Restart(after)..])
  {
    hide Covers;
    MillisRestart(batches, samples);
    assert (batches + [samples])[..|batches|] == batches;
    forall j: nat | j < BUCKET_NUM
      ensures CountBelow(Flat(batches + [samples]), j) == CountBelow(Flat(batches), j) + CountBelow(samples, j)
    {
      CountAppend(Flat(batches), samples, j);
    }
  }

  lemma {:induction false} LocalCounts(steps: seq<Step>, p: Process)
    ensures LocalOk(Run(steps), steps, p)
    decreases |steps|
  {
    hide Counts, Added, Merged, CountBelow, Total;
    if steps != [] {
      var init, last := steps[..|steps| - 1], steps[|steps| - 1];
      LocalCounts(init, p);
      if last.Sample? && last.p == p && last.elapsed >= 0 { SampleCounts(steps, p); }
    }
  }

  lemma {:induction false} SharedCounts(steps: seq<Step>)
    ensures SharedOk(Run(steps), steps)
    decreases |steps|
  {
    hide Counts, Added, Merged, CountBelow, Total;
    if steps != [] {
      var init, last := steps[..|steps| - 1], steps[|steps| - 1];
      SharedCounts(init);
      match last
      case Sample(_, _) =>
      case Flush(q, fits) =>
        LocalCounts(init, q);
        if fits && q in Run(init).locals {
          MergedCounts(Run(init).shared, Batches(init), Run(init).locals[q], Pending(init, q));
        }
      case Reset => ZeroCountsNothing();
    }
  }

  lemma SampleCounts(steps: seq<Step>, p: Process)
    requires steps != [] && steps[|steps| - 1].Sample? && steps[|steps| - 1].p == p && steps[|steps| - 1].elapsed >= 0
    requires LocalOk(Run(steps[..|steps| - 1]), steps[..|steps| - 1], p)
    ensures LocalOk(Run(steps), steps, p)
  {
    hide Counts, Added;
    var init := steps[..|steps| - 1];
    ZeroCountsNothing();
    AddedCounts(if p in Run(init).locals then Run(init).locals[p] else ZERO, Pending(init, p),
        steps[|steps| - 1].elapsed);
  }

  lemma ZeroCountsNothing()
    ensures Counts(ZERO, []) && ZERO.sum == Total([])
  {
  }

  /**
   * Whatever the interleaving of samples, flushes and resets over all processes: bucket j of the shared
   * histogram counts exactly the samples flushed since the last reset that are below threshold j, the
   * buckets do not decrease and the last one equals the count. The sum is that of the batches since it last
   * restarted - all of them unless their sum ever exceeded the maximum - but for less than a millisecond
   * per merge.
   */
  lemma SharedHistogramIsExact(steps: seq<Step>, i: nat, j: nat)
    requires Run(steps).shared.Some? && i <= j < BUCKET_NUM
    ensures var h, batches := Run(steps).shared.value, Batches(steps);
            && h.buckets[j] == CountBelow(Flat(batches), j) && h.count == |Flat(batches)|
            && h.buckets[i] <= h.buckets[j] && h.buckets[BUCKET_NUM - 1] == h.count
    ensures var h, batches := Run(steps).shared.value, Batches(steps);
            var since := batches[Restart(batches)..];
            && h.sum == Millis(since)
            && 1000 * h.sum <= Total(Flat(since)) <= 1000 * h.sum + 999 * |since|
            && ((forall n :: 2 <= n <= |batches| ==> Millis(batches[..n]) <= INT_MAX) <==> since == batches)
  {
    hide Covers, Run, Batches, Flat, CountBelow, Total, Millis, Restart;
    var batches := Batches(steps);
    SharedCounts(steps);
    BucketsAscend(Flat(batches), i, j);
    RoundingLoss(batches[Restart(batches)..]);
    NeverRestartsIff(batches);
    assert batches[0..] == batches;
  }

  /** The same for a process's own histogram, whose sum is exact. */
  lemma LocalHistogramIsExact(steps: seq<Step>, p: Process, i: nat, j: nat)
    requires p in Run(steps).locals && i <= j < BUCKET_NUM
    ensures var h := Run(steps).locals[p]; var samples := Pending(steps, p);
            && h.buckets[j] == CountBelow(samples, j) && h.count == |samples| && h.sum == Total(samples)
            && h.buckets[i] <= h.buckets[j] && h.buckets[BUCKET_NUM - 1] == h.count
  {
    hide Covers, Run, Pending, CountBelow, Total;
    LocalCounts(steps, p);
    BucketsAscend(Pending(steps, p), i, j);
  }

  // ---- the methods make such runs ----

  ghost function SharedValue(shared: Timing?): (h: Option<Histogram>)
    requires shared != null ==> shared.Valid()
    reads shared, if shared == null then {} else {shared.buckets}
    ensures h.Some? ==> Shaped(h.value)
  {
    if shared == null then None else Some(shared.Value())
  }

  /** These timings hold the histograms of s, and each has its own buckets. */
  ghost predicate Represents(locals: map<Process, Timing>, shared: Timing?, s: State)
    reads locals.Values, set p | p in locals :: locals[p].buckets
    reads shared, if shared == null then {} else {shared.buckets}
  {
    && locals.Keys == s.locals.Keys && (shared != null ==> shared.Valid()) && SharedValue(shared) == s.shared
    && (forall p :: p in locals ==> locals[p].Valid() && locals[p].Value() == s.locals[p])
    && (forall p, q :: p in locals && q in locals && p != q ==>
          locals[p] != locals[q] && locals[p].buckets != locals[q].buckets)
    && (shared != null ==> forall p :: p in locals ==>
          locals[p] != shared && locals[p].buckets != shared.buckets)
  }

  /** The document's entry with a timing merged into it, or made of it. */
  method StoreTiming(shared: Timing?, timing: Timing) returns (entry: Timing)
    requires timing.Valid() && (shared != null ==> shared.Valid())
    ensures fresh(entry) && fresh(entry.buckets) && entry.Valid()
    ensures entry.Value() == Merged(SharedValue(shared), timing.Value())
  {
    if shared == null {
      entry := new Timing.New(timing);
    } else {
      entry := new Timing.Parsed(shared);
      entry.Update(timing);
    }
  }

  /** The entry of the process, made if there is none yet, takes a sample. */
  method TakeSample(locals: map<Process, Timing>, shared: Timing?, p: Process, elapsed: int, ghost s: State)
    returns (locals': map<Process, Timing>)
    requires Proper(s) && Represents(locals, shared, s)
    modifies locals.Values, set q | q in locals :: locals[q].buckets
    ensures Represents(locals', shared, Next(s, Sample(p, elapsed)))
    ensures forall q :: q in locals' ==> (q in locals && locals'[q] == locals[q]) || fresh(locals'[q])
    ensures forall q :: q in locals' ==>
              (q in locals && locals'[q].buckets == locals[q].buckets) || fresh(locals'[q].buckets)
  {
    hide Added, Marks, Plus, Covers;
    locals' := locals;
    if elapsed < 0 {
      return;
    }
    if p !in locals {
      var timing := new Timing();
      locals' := locals[p := timing];
    }
    locals'[p].Add(elapsed);
  }

  /** One flush: the shared entry is stored if the document fits, and the process starts afresh. */
  method Store(locals: map<Process, Timing>, shared: Timing?, p: Process, fits: bool, ghost s: State)
    returns (locals': map<Process, Timing>, shared': Timing?)
    requires Proper(s) && Represents(locals, shared, s)
    ensures Represents(locals', shared', Next(s, Flush(p, fits)))
    ensures locals' == locals - {p}
    ensures shared' == shared || (shared' != null && fresh(shared') && fresh(shared'.buckets))
  {
    shared' := shared;
    if p in locals {
      var entry := StoreTiming(shared, locals[p]);
      if fits {
        shared' := entry;
      }
    }
    locals' := locals - {p};
  }

  method ResetTimer(locals: map<Process, Timing>, shared: Timing?, ghost s: State) returns (shared': Timing?)
    requires Proper(s) && Represents(locals, shared, s)
    ensures Represents(locals, shared', Next(s, Reset))
    ensures shared' == shared || (shared' != null && fresh(shared') && fresh(shared'.buckets))
  {
    shared' := shared;
    if shared != null {
      var entry := new Timing.Parsed(shared);
      entry.Clear();
      shared' := entry;
    }
  }

  /** Any number of processes, any interleaving: the methods do what the run says. */
  method Execute(steps: seq<Step>) returns (locals: map<Process, Timing>, shared: Timing?)
    ensures Represents(locals, shared, Run(steps))
  {
    hide Next;
    locals, shared := map[], null;
    for i := 0 to |steps|
      invariant Represents(locals, shared, Run(steps[..i]))
      invariant forall p :: p in locals ==> fresh(locals[p]) && fresh(locals[p].buckets)
      invariant shared != null ==> fresh(shared) && fresh(shared.buckets)
    {
      ghost var s := Run(steps[..i]);
      assert steps[..i + 1][..i] == steps[..i];
      match steps[i] {
        case Sample(p, elapsed) => locals := TakeSample(locals, shared, p, elapsed, s);
        case Flush(p, fits) => locals, shared := Store(locals, shared, p, fits, s);
        case Reset => shared := ResetTimer(locals, shared, s);
      }
    }
    assert steps[..|steps|] == steps;
  }
}
