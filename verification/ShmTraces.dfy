/** Traces of calls on the shared-memory segment: they make the runs that exact LRU speaks about. */
module ShmTraces {
  import opened Options
  import opened ShmCache
  import opened ShmLru
  import opened ShmSpec
  import Keys = CacheKeys

  datatype Call = Store(section: string, key: string, value: string, expires: int) | Fetch(section: string, key: string)
  {
    function SectionKey(): string { Keys.SectionKey(section, key) }
  }

  /** What the cache admits, stored for longer than the trace takes. */
  predicate CallOk(seg: Segment, call: Call, times: seq<int>) {
    |call.SectionKey()| < Keys.KEY_SIZE_MAX
    && (call.Store? ==> seg.Admitted(call.value) && forall i :: 0 <= i < |times| ==> times[i] < call.expires)
  }

  /** The call as an operation of a run, with the result that a lookup gave. */
  function AsOp(call: Call, result: Option<string>): Op {
    match call
    case Store(_, _, value, expires) => Put(call.SectionKey(), value, expires)
    case Fetch(_, _) => Lookup(call.SectionKey(), result)
  }

  /** The operation takes the cache from m to m' at time now. */
  ghost predicate Did(capacity: nat, m: Contents, op: Op, now: int, m': Contents) {
    match op
    case Put(k, v, e) => SetSpec(capacity, m, k, Entry(v, e, now), m')
    case Lookup(k, r) => GetSpec(m, k, now, m', r)
  }

  method Carry(seg: Segment, call: Call, now: int) returns (result: Option<string>)
    requires seg.Valid() && CallOk(seg, call, [now])
    modifies seg, seg.buckets, seg.slots
    ensures seg.Valid()
    ensures Did(seg.nslots, old(seg.contents), AsOp(call, result), now, seg.contents)
  {
    hide SetSpec, GetSpec, Segment.Held;
    var rc;
    result := None;
    match call {
      case Store(section, key, value, expires) =>
        rc := seg.Set(section, key, Some(value), expires, now, true, true);
      case Fetch(section, key) =>
        rc, result := seg.Get(section, key, now, true, true);
    }
  }

  /**
   * Any trace of admitted stores and lookups at increasing times on a fresh segment: what it then holds is
   * exactly what LRU prescribes.
   */
  method Trace(seg: Segment, calls: seq<Call>, times: seq<int>) returns (results: seq<Option<string>>, ghost run: Run)
    requires seg.Valid() && seg.contents == map[] && |calls| == |times|
    requires forall i, j :: 0 <= i < j < |times| ==> times[i] < times[j]
    requires forall i :: 0 <= i < |calls| ==> CallOk(seg, calls[i], times)
    modifies seg, seg.buckets, seg.slots
    ensures seg.Valid() && |results| == |calls|
    ensures run.Valid() && run.capacity == seg.nslots && run.times == times && |run.ops| == |calls|
    ensures forall i :: 0 <= i < |calls| ==> run.ops[i] == AsOp(calls[i], results[i])
    ensures Prescribed(run, seg.contents)
  {
    hide SetSpec, GetSpec, Segment.Held, Segment.Admitted, CallOk, Run.Valid, Prescribed, AsOp, Did;
    HasSlots(seg);
    results := [];
    ghost var ops: seq<Op>, states: seq<Contents> := [], [map[]];
    for i := 0 to |calls|
      invariant seg.Valid() && |results| == |ops| == i && |states| == i + 1
      invariant states[0] == map[] && states[i] == seg.contents
      invariant forall j :: 0 <= j < i ==> ops[j] == AsOp(calls[j], results[j])
      invariant forall j: nat :: j < i ==> Did(seg.nslots, states[j], ops[j], times[j], states[j + 1])
    {
      OkNow(seg, calls[i], times, i);
      var result := Carry(seg, calls[i], times[i]);
      ghost var op := AsOp(calls[i], result);
      ops, states, results := ops + [op], states + [seg.contents], results + [result];
    }
    run := Run(seg.nslots, ops, times, states);
    MakesRun(run, seg, calls, results);
    PrescribedBy(run);
  }

  lemma HasSlots(seg: Segment)
    requires seg.Valid()
    ensures seg.nslots > 0
  {
  }

  lemma OkNow(seg: Segment, call: Call, times: seq<int>, i: nat)
    requires i < |times| && CallOk(seg, call, times)
    ensures CallOk(seg, call, [times[i]])
  {
  }

  lemma MakesRun(run: Run, seg: Segment, calls: seq<Call>, results: seq<Option<string>>)
    requires run.capacity > 0 && |run.ops| == |run.times| == |calls| == |results| && |run.states| == |calls| + 1
    requires run.states[0] == map[]
    requires forall i, j :: 0 <= i < j < |run.times| ==> run.times[i] < run.times[j]
    requires forall i :: 0 <= i < |calls| ==>
               CallOk(seg, calls[i], run.times) && run.ops[i] == AsOp(calls[i], results[i])
    requires forall j: nat :: j < |calls| ==>
               Did(run.capacity, run.states[j], run.ops[j], run.times[j], run.states[j + 1])
    ensures run.Valid()
  {
  }

  /** The last state of a run, as exact LRU prescribes it. */
  lemma PrescribedBy(run: Run)
    requires run.Valid() && |run.states| == |run.ops| + 1 && |run.ops| == |run.times|
    ensures Prescribed(run, run.states[|run.ops|])
  {
    hide Run.Valid, Run.LastUse, Run.UsedBetween, Run.LastPut;
    forall k ensures PrescribedFor(run, run.states[|run.ops|], k) {
      ExactLru(run, |run.ops|, k);
    }
  }

  /** Fewer than capacity distinct other keys were used since the last use of k. */
  ghost predicate IsResident(run: Run, k: string)
    requires run.Valid()
  {
    var n := |run.ops|;
    run.LastUse(n, k) >= 0 && |run.UsedBetween(run.LastUse(n, k) + 1, n)| < run.capacity
  }

  ghost predicate Prescribed(run: Run, m: Contents)
    requires run.Valid()
  {
    forall k :: PrescribedFor(run, m, k)
  }

  /** The key is there iff LRU keeps it, with the value last stored under it. */
  ghost predicate PrescribedFor(run: Run, m: Contents, k: string)
    requires run.Valid()
  {
    (k in m <==> IsResident(run, k)) && (k in m ==> Some(m[k].value) == run.LastPut(|run.ops|, k))
  }
}
