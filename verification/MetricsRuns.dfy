/** Counts are conserved over whole runs: processes count, flush into the shared document, and it is reset. */
module MetricsRuns {
  import opened MetricsCounters
  import opened MetricsInts
  import opened Options

  /** An event counted in process p; a flush, whose document may turn out too large to be stored; a reset. */
  datatype Step =
    | Inc(p: nat, vhost: string, kind: nat, name: Option<string>, value: Option<string>)
    | Flush(p: nat, fits: bool)
    | Reset
  {
    function Counted(): Id
      requires Inc?
    {
      Id(vhost, TypeNameKey(kind, name), ValueKey(value))
    }

    /** There is such a process, and the counter has a name exactly if its class has names. */
    predicate Ok(naming: Naming, processes: nat) {
      match this
      case Inc(p, _, _, _, _) => p < processes && Fits(naming, Counted().key)
      case Flush(p, _) => p < processes
      case Reset => true
    }
  }

  /** The local tables of each process, and the shared document. */
  datatype State = State(locals: seq<Local>, doc: Document)

  /** The step does what the corresponding method promises. */
  ghost predicate Does(naming: Naming, s: State, step: Step, t: State) {
    && step.Ok(naming, |s.locals|)
    && match step
       case Inc(p, _, _, _, _) =>
         && t.doc == s.doc && |t.locals| == |s.locals| && t.locals == s.locals[p := t.locals[p]]
         && Incremented(s.locals[p], step.Counted(), t.locals[p])
       case Flush(p, fits) =>
         && t.locals == s.locals[p := map[]]
         && (if fits then Stored(naming, s.doc, s.locals[p], t.doc) else t.doc == s.doc)
       case Reset => t.locals == s.locals && WasReset(naming, s.doc, t.doc)
  }

  datatype Run = Run(naming: Naming, steps: seq<Step>, states: seq<State>)
  {
    ghost predicate StepOk(i: nat)
      requires i < |steps| && i + 1 < |states|
    {
      Does(naming, states[i], steps[i], states[i + 1])
    }

    /** Nothing is counted at first; each step does what the corresponding method promises. */
    ghost predicate Valid() {
      && |states| == |steps| + 1
      && states[0].doc == map[] && (forall p :: 0 <= p < |states[0].locals| ==> states[0].locals[p] == map[])
      && forall i: nat :: i < |steps| ==> StepOk(i)
    }

    // ---- tallies over the first i steps ----

    /** How often x was counted. */
    function Incs(i: nat, x: Id): nat
      requires i <= |steps|
    {
      if i == 0 then 0 else Incs(i - 1, x) + if steps[i - 1].Inc? && steps[i - 1].Counted() == x then 1 else 0
    }

    /** What resets took out of the document. */
    function Reset(i: nat, x: Id): int
      requires i <= |steps| < |states|
    {
      if i == 0 then 0 else Reset(i - 1, x) + if steps[i - 1].Reset? then Read(states[i - 1].doc, x) else 0
    }

    /** What was dropped. */
    function Lost(i: nat, x: Id): int
      requires Valid() && i <= |steps|
    {
      if i == 0 then 0 else Lost(i - 1, x) + LostAt(i - 1, x)
    }

    /** The shared count that restarts because it cannot take another c. */
    function Restarts(n: int, c: int): int { if c > 0 && IsOverflow(n, c) then n else 0 }

    /**
     * A step drops a count that is at its maximum; a flush drops what is in a document that does not
     * fit, a count for which the counter's node has the wrong kind, and a shared count that restarts.
     */
    function LostAt(i: nat, x: Id): int
      requires Valid() && i < |steps|
    {
      var s := states[i];
      assert StepOk(i);
      match steps[i]
      case Inc(p, _, _, _, _) => if steps[i].Counted() == x then Restarts(Count(s.locals[p], x), 1) else 0
      case Flush(p, fits) =>
        if !fits || !ShownBy(i, x) then Count(s.locals[p], x) else Restarts(Read(s.doc, x), Count(s.locals[p], x))
      case Reset => 0
    }

    /**
     * Flush i finds or makes a node of x's kind: the counter's node counts with values exactly if x has one,
     * or there is no node yet and the flushed table counts without values exactly if x has none.
     */
    predicate ShownBy(i: nat, x: Id)
      requires i < |steps| && i < |states| && steps[i].Flush? && steps[i].p < |states[i].locals|
    {
      var node := Node(states[i].doc, x.vhost, x.key);
      if node.Some? then Shows(node.value, x.value)
      else (x.value == DEFAULT) == (DEFAULT in Table(states[i].locals[steps[i].p], x.vhost, x.key))
    }
  }

  function Unflushed(locals: seq<Local>, x: Id): int {
    if locals == [] then 0 else Unflushed(locals[..|locals| - 1], x) + Count(locals[|locals| - 1], x)
  }

  lemma {:induction false} UnflushedUpdate(locals: seq<Local>, p: nat, l: Local, x: Id)
    requires p < |locals|
    ensures Unflushed(locals[p := l], x) == Unflushed(locals, x) - Count(locals[p], x) + Count(l, x)
    decreases |locals|
  {
    hide Count;
    var n := |locals| - 1;
    if p == n {
      assert locals[p := l][..n] == locals[..n];
    } else {
      assert locals[p := l][..n] == locals[..n][p := l];
      UnflushedUpdate(locals[..n], p, l, x);
    }
  }

  lemma {:induction false} NothingUnflushed(locals: seq<Local>, x: Id)
    requires forall p :: 0 <= p < |locals| ==> locals[p] == map[]
    ensures Unflushed(locals, x) == 0
    decreases |locals|
  {
    if locals != [] { NothingUnflushed(locals[..|locals| - 1], x); }
  }

  ghost predicate StateOk(naming: Naming, s: State) {
    DocumentOk(naming, s.doc) && forall p :: 0 <= p < |s.locals| ==> LocalOk(naming, s.locals[p])
  }

  lemma EmptyOk(naming: Naming)
    ensures LocalOk(naming, map[]) && DocumentOk(naming, map[])
  {
  }

  lemma StepKeeps(naming: Naming, s: State, step: Step, t: State)
    requires StateOk(naming, s) && Does(naming, s, step, t)
    ensures StateOk(naming, t)
  {
  }

  /** The balance of one counter and value after i steps. */
  function Balance(run: Run, i: nat, x: Id): int
    requires run.Valid() && i <= |run.steps|
  {
    Read(run.states[i].doc, x) + Unflushed(run.states[i].locals, x) + run.Reset(i, x) + run.Lost(i, x)
  }

  lemma CountIsNatural(naming: Naming, l: Local, x: Id)
    requires LocalOk(naming, l)
    ensures Count(l, x) >= 0 && (Count(l, x) > 0 <==> HasCount(l, x))
    ensures Count(l, x) == TableCount(Table(l, x.vhost, x.key), x.value)
    ensures HasCount(l, x) <==> x.value in Table(l, x.vhost, x.key)
  {
  }

  /** What one flush that fits does to one count. */
  lemma FlushReads(run: Run, i: nat, x: Id)
    requires run.Valid() && i < |run.steps| && StateOk(run.naming, run.states[i]) && Fits(run.naming, x.key)
    requires run.steps[i].Flush? && run.steps[i].fits && run.steps[i].p < |run.states[i].locals|
    ensures var n, c := Read(run.states[i].doc, x), Count(run.states[i].locals[run.steps[i].p], x);
            Read(run.states[i + 1].doc, x) == if !run.ShownBy(i, x) then n else n + c - run.Restarts(n, c)
  {
    hide Fits, HasCount, DocumentOk;
    assert run.StepOk(i);
    var s, t, l := run.states[i], run.states[i + 1], run.states[i].locals[run.steps[i].p];
    CountIsNatural(run.naming, l, x);
    assert NodeStored(Node(s.doc, x.vhost, x.key), Table(l, x.vhost, x.key), Node(t.doc, x.vhost, x.key));
  }

  lemma StepBalances(run: Run, i: nat, x: Id)
    requires run.Valid() && i < |run.steps| && Fits(run.naming, x.key) && StateOk(run.naming, run.states[i])
    ensures Balance(run, i + 1, x) - Balance(run, i, x) == run.Incs(i + 1, x) - run.Incs(i, x)
  {
    hide LocalOk, DocumentOk, Fits, Read, HasCount, NoEmptyTable, Unflushed, Node, Table, NodeStored, Shows;
    hide Run.ShownBy;
    var s, t := run.states[i], run.states[i + 1];
    assert run.StepOk(i);
    if !run.steps[i].Reset? {
      var p := run.steps[i].p;
      UnflushedUpdate(s.locals, p, t.locals[p], x);
      CountIsNatural(run.naming, s.locals[p], x);
      if run.steps[i].Flush? && run.steps[i].fits { FlushReads(run, i, x); }
    }
  }

  /**
   * Whatever the interleaving of counting, flushing and resetting over any number of processes, for each
   * counter and value: what the document shows, what is not yet flushed, what was reset and what was lost
   * add up to the number of times it was counted.
   */
  lemma {:induction false} CountsAreConserved(run: Run, i: nat, x: Id)
    requires run.Valid() && i <= |run.steps| && Fits(run.naming, x.key)
    ensures StateOk(run.naming, run.states[i])
    ensures Read(run.states[i].doc, x) + Unflushed(run.states[i].locals, x) + run.Reset(i, x) + run.Lost(i, x)
              == run.Incs(i, x)
    decreases i
  {
    hide Fits, StateOk, Read;
    if i == 0 {
      InitiallyOk(run, x);
    } else {
      CountsAreConserved(run, i - 1, x);
      assert run.StepOk(i - 1);
      StepKeeps(run.naming, run.states[i - 1], run.steps[i - 1], run.states[i]);
      StepBalances(run, i - 1, x);
    }
  }

  lemma InitiallyOk(run: Run, x: Id)
    requires run.Valid()
    ensures StateOk(run.naming, run.states[0]) && Unflushed(run.states[0].locals, x) == 0
    ensures Read(run.states[0].doc, x) == 0
  {
    EmptyOk(run.naming);
    NothingUnflushed(run.states[0].locals, x);
  }

  // ---- when is something lost? ----

  lemma {:induction false} UnflushedBounds(naming: Naming, locals: seq<Local>, p: nat, x: Id)
    requires forall q :: 0 <= q < |locals| ==> LocalOk(naming, locals[q])
    ensures Unflushed(locals, x) >= 0 && (p < |locals| ==> Unflushed(locals, x) >= Count(locals[p], x) >= 0)
    decreases |locals|
  {
    hide LocalOk, Count, Table, TableCount, HasCount;
    if locals != [] {
      UnflushedBounds(naming, locals[..|locals| - 1], p, x);
      CountIsNatural(naming, locals[|locals| - 1], x);
    }
  }

  /** Flush k fits and finds or makes a node of x's kind, if it has anything to store under x. */
  ghost predicate Keeps(run: Run, k: nat, x: Id)
    requires run.Valid() && k < |run.steps|
  {
    assert run.StepOk(k);
    run.steps[k].Flush? && Count(run.states[k].locals[run.steps[k].p], x) > 0 ==> run.steps[k].fits && run.ShownBy(k, x)
  }

  /** No tally is negative. */
  lemma {:induction false} TalliesAreNatural(run: Run, i: nat, x: Id)
    requires run.Valid() && i <= |run.steps| && Fits(run.naming, x.key)
    ensures Read(run.states[i].doc, x) >= 0 && run.Reset(i, x) >= 0 && run.Lost(i, x) >= 0
    decreases i
  {
    hide Fits, StateOk, Read, Unflushed, Count;
    if i == 0 {
      InitiallyOk(run, x);
    } else {
      TalliesAreNatural(run, i - 1, x);
      StepIsNatural(run, i - 1, x);
    }
  }

  lemma StepIsNatural(run: Run, i: nat, x: Id)
    requires run.Valid() && i < |run.steps| && Fits(run.naming, x.key) && Read(run.states[i].doc, x) >= 0
    ensures run.LostAt(i, x) >= 0 && Read(run.states[i + 1].doc, x) >= 0
  {
    hide Fits, Read, Unflushed, Count, LocalOk, DocumentOk, Node, Table, NodeStored, Shows, Run.ShownBy;
    CountsAreConserved(run, i, x);
    assert run.StepOk(i);
    UnflushedBounds(run.naming, run.states[i].locals, if run.steps[i].Reset? then 0 else run.steps[i].p, x);
    if run.steps[i].Flush? && run.steps[i].fits { FlushReads(run, i, x); }
  }

  /**
   * Nothing is lost of a count that stays within the maximum exactly if every flush that has some of it
   * to store fits the document and finds, or makes, a node of its kind.
   */
  lemma {:induction false} NothingIsLostIff(run: Run, i: nat, x: Id)
    requires run.Valid() && i <= |run.steps| && Fits(run.naming, x.key) && run.Incs(i, x) <= INT_MAX
    ensures run.Lost(i, x) == 0 <==> forall k: nat :: k < i ==> Keeps(run, k, x)
    decreases i
  {
    hide Fits, StateOk, Read, Unflushed, Count, Keeps;
    if i > 0 {
      NothingIsLostIff(run, i - 1, x);
      TalliesAreNatural(run, i - 1, x);
      LosesNothingIff(run, i - 1, x);
    }
  }

  lemma LosesNothingIff(run: Run, i: nat, x: Id)
    requires run.Valid() && i < |run.steps| && Fits(run.naming, x.key) && run.Incs(i + 1, x) <= INT_MAX
    ensures run.LostAt(i, x) >= 0 && (run.LostAt(i, x) == 0 <==> Keeps(run, i, x))
  {
    hide Fits, Read, Unflushed, Count, LocalOk, DocumentOk, Node, Table, Shows, Run.ShownBy;
    CountsAreConserved(run, i, x);
    TalliesAreNatural(run, i, x);
    assert run.StepOk(i);
    UnflushedBounds(run.naming, run.states[i].locals, if run.steps[i].Reset? then 0 else run.steps[i].p, x);
  }

  // ---- uniform use ----

  /** In the first i steps the counter of x is used with values only, or without only, as x is. */
  ghost predicate UsedLike(run: Run, i: nat, x: Id)
    requires i <= |run.steps|
  {
    forall k :: 0 <= k < i && run.steps[k].Inc? ==> var c := run.steps[k].Counted();
      c.vhost == x.vhost && c.key == x.key ==> (c.value == DEFAULT) == (x.value == DEFAULT)
  }

  /** Everything that is there of x's counter has x's kind. */
  ghost predicate KindOk(s: State, x: Id) {
    && (Node(s.doc, x.vhost, x.key).Some? ==> Shows(Node(s.doc, x.vhost, x.key).value, x.value))
    && forall p, v :: 0 <= p < |s.locals| && HasCount(s.locals[p], Id(x.vhost, x.key, v)) ==>
         (v == DEFAULT) == (x.value == DEFAULT)
  }

  lemma TableKinds(l: Local, x: Id)
    requires forall v :: HasCount(l, Id(x.vhost, x.key, v)) ==> (v == DEFAULT) == (x.value == DEFAULT)
    ensures forall v :: v in Table(l, x.vhost, x.key) ==> (v == DEFAULT) == (x.value == DEFAULT)
  {
    assert forall v :: v in Table(l, x.vhost, x.key) ==> HasCount(l, Id(x.vhost, x.key, v));
  }

  lemma {:induction false} UniformKinds(run: Run, i: nat, x: Id)
    requires run.Valid() && i <= |run.steps| && Fits(run.naming, x.key) && UsedLike(run, i, x)
    ensures KindOk(run.states[i], x)
    decreases i
  {
    hide Fits, KindOk;
    if i == 0 {
      NoKindAtFirst(run, x);
    } else {
      UniformKinds(run, i - 1, x);
      CountsAreConserved(run, i - 1, x);
      KindStep(run, i - 1, x);
    }
  }

  lemma NoKindAtFirst(run: Run, x: Id)
    requires run.Valid()
    ensures KindOk(run.states[0], x)
  {
  }

  lemma KindStep(run: Run, i: nat, x: Id)
    requires run.Valid() && i < |run.steps| && Fits(run.naming, x.key) && UsedLike(run, i + 1, x)
    requires KindOk(run.states[i], x) && StateOk(run.naming, run.states[i])
    ensures KindOk(run.states[i + 1], x)
  {
    hide Fits, DocumentOk, ReadNode, Node, LocalOk;
    assert run.StepOk(i);
    var s, t := run.states[i], run.states[i + 1];
    match run.steps[i]
    case Inc(p, _, _, _, _) =>
      assert forall v :: HasCount(t.locals[p], Id(x.vhost, x.key, v)) ==>
          HasCount(s.locals[p], Id(x.vhost, x.key, v)) || Id(x.vhost, x.key, v) == run.steps[i].Counted();
    case Flush(p, fits) =>
      if fits {
        TableKinds(s.locals[p], x);
        assert NodeStored(Node(s.doc, x.vhost, x.key), Table(s.locals[p], x.vhost, x.key), Node(t.doc, x.vhost, x.key));
        if v :| v in Table(s.locals[p], x.vhost, x.key) {}
      }
    case Reset =>
      assert SameKind(Node(s.doc, x.vhost, x.key), Node(t.doc, x.vhost, x.key));
  }

  /**
   * So nothing is lost of a counter that is itself used uniformly, however others are used, as long as
   * documents fit and the count stays within the maximum.
   */
  lemma {:induction false} UniformUseLosesNothing(run: Run, i: nat, x: Id)
    requires run.Valid() && i <= |run.steps| && Fits(run.naming, x.key) && UsedLike(run, i, x)
    requires run.Incs(i, x) <= INT_MAX && forall k :: 0 <= k < i && run.steps[k].Flush? ==> run.steps[k].fits
    ensures run.Lost(i, x) == 0
    ensures Read(run.states[i].doc, x) + Unflushed(run.states[i].locals, x) + run.Reset(i, x) == run.Incs(i, x)
  {
    hide Fits, Read, Unflushed, Count, StateOk, KindOk, UsedLike, Keeps;
    CountsAreConserved(run, i, x);
    forall k: nat | k < i ensures Keeps(run, k, x) {
      assert UsedLike(run, k, x) by { UsedLikeBefore(run, k, i, x); }
      UniformKinds(run, k, x);
      CountsAreConserved(run, k, x);
      UniformKeeps(run, k, x);
    }
    NothingIsLostIff(run, i, x);
  }

  lemma UsedLikeBefore(run: Run, k: nat, i: nat, x: Id)
    requires k <= i <= |run.steps| && UsedLike(run, i, x)
    ensures UsedLike(run, k, x)
  {
  }

  lemma UniformKeeps(run: Run, k: nat, x: Id)
    requires run.Valid() && k < |run.steps| && KindOk(run.states[k], x) && StateOk(run.naming, run.states[k])
    requires run.steps[k].Flush? ==> run.steps[k].fits
    ensures Keeps(run, k, x)
  {
    hide Fits, Node;
    assert run.StepOk(k);
    if run.steps[k].Flush? {
      var l := run.states[k].locals[run.steps[k].p];
      TableKinds(l, x);
      CountIsNatural(run.naming, l, x);
    }
  }

  // ---- the methods make such runs ----

  function Locals(ps: seq<Process>): (r: seq<Local>)
    reads ps
    ensures |r| == |ps| && forall i :: 0 <= i < |ps| ==> r[i] == ps[i].counters
  {
    seq(|ps|, i requires 0 <= i < |ps| reads ps => ps[i].counters)
  }

  method StartProcesses(n: nat) returns (ps: seq<Process>)
    ensures |ps| == n && (forall i :: 0 <= i < n ==> fresh(ps[i]) && ps[i].counters == map[])
    ensures forall i, j :: 0 <= i < j < n ==> ps[i] != ps[j]
  {
    ps := [];
    for i := 0 to n
      invariant |ps| == i && (forall k :: 0 <= k < i ==> fresh(ps[k]) && ps[k].counters == map[])
      invariant forall k, j :: 0 <= k < j < i ==> ps[k] != ps[j]
    {
      var p := new Process();
      ps := ps + [p];
    }
  }

  /** One step, carried out by the methods. */
  method Take(ps: seq<Process>, doc: Document, step: Step, ghost naming: Naming) returns (doc': Document)
    requires step.Ok(naming, |ps|) && StateOk(naming, State(Locals(ps), doc))
    requires forall i, j :: 0 <= i < j < |ps| ==> ps[i] != ps[j]
    modifies ps
    ensures Does(naming, old(State(Locals(ps), doc)), step, State(Locals(ps), doc'))
  {
    hide LocalOk, DocumentOk, Incremented, Stored, WasReset, Fits;
    doc' := doc;
    ghost var before := Locals(ps);
    match step {
      case Inc(p, vhost, kind, name, value) =>
        ps[p].Inc(vhost, kind, name, value);
        assert Locals(ps) == before[p := ps[p].counters];
      case Flush(p, fits) =>
        var merged := StoreCounters(doc, ps[p].counters, naming);
        if fits {
          doc' := merged;
        }
        ps[p].Clear();
        assert Locals(ps) == before[p := map[]];
      case Reset =>
        doc' := StorageReset(doc, naming);
    }
  }

  /** Any number of processes, any interleaving. */
  method Execute(processes: nat, steps: seq<Step>, ghost naming: Naming) returns (doc: Document, ghost run: Run)
    requires forall i :: 0 <= i < |steps| ==> steps[i].Ok(naming, processes)
    ensures run.Valid() && run.naming == naming && run.steps == steps && |run.states[0].locals| == processes
    ensures doc == run.states[|steps|].doc
  {
    hide StateOk, Does;
    var ps := StartProcesses(processes);
    doc := map[];
    run := Run(naming, steps, [State(Locals(ps), doc)]);
    EmptyOk(naming);
    assert StateOk(naming, State(Locals(ps), doc)) by { EmptyStateOk(naming, Locals(ps)); }
    for i := 0 to |steps|
      invariant |ps| == processes && (forall k :: 0 <= k < processes ==> fresh(ps[k]))
      invariant forall k, j :: 0 <= k < j < processes ==> ps[k] != ps[j]
      invariant run.naming == naming && run.steps == steps && |run.states| == i + 1
      invariant run.states[0].doc == map[] && |run.states[0].locals| == processes
      invariant forall p :: 0 <= p < processes ==> run.states[0].locals[p] == map[]
      invariant run.states[i] == State(Locals(ps), doc) && StateOk(naming, run.states[i])
      invariant forall k: nat :: k < i ==> run.StepOk(k)
    {
      ghost var before := run;
      doc := Take(ps, doc, steps[i], naming);
      run := run.(states := run.states + [State(Locals(ps), doc)]);
      StepKeeps(naming, run.states[i], steps[i], run.states[i + 1]);
      forall k: nat | k <= i ensures run.StepOk(k) {
        if k < i { assert before.StepOk(k); }
      }
    }
  }

  lemma EmptyStateOk(naming: Naming, locals: seq<Local>)
    requires forall p :: 0 <= p < |locals| ==> locals[p] == map[]
    ensures StateOk(naming, State(locals, map[]))
  {
  }

  // ---- a counter that is used with and without a value ----

  const FULL := Inc(0, "vhost", 7, None, Some("value"))
  const EMPTY := Inc(0, "vhost", 7, None, Some(""))
  const MIXED := [FULL, Flush(0, true), EMPTY, Flush(0, true)]

  lemma MixedKeys()
    ensures FULL.Counted() == Id("vhost", "7", "value") && EMPTY.Counted() == Id("vhost", "7", DEFAULT)
    ensures SplitKey("7") == Split("7", None)
  {
  }

  lemma CountOnce(l: Local, x: Id, l': Local)
    requires l == map[] && Incremented(l, x, l')
    ensures Count(l', x) == 1 && forall v :: v in Table(l', x.vhost, x.key) <==> v == x.value
  {
    assert forall v :: v in Table(l', x.vhost, x.key) <==> HasCount(l', Id(x.vhost, x.key, v));
  }

  lemma MixedFlush(naming: Naming, s: State, t: State, x: Id)
    requires |s.locals| > 0 && Stored(naming, s.doc, s.locals[0], t.doc) && Fits(naming, x.key)
    requires Count(s.locals[0], x) == 1 && forall v :: v in Table(s.locals[0], x.vhost, x.key) <==> v == x.value
    ensures NodeMerged(Node(s.doc, x.vhost, x.key), Table(s.locals[0], x.vhost, x.key), Node(t.doc, x.vhost, x.key))
    ensures TableCount(Table(s.locals[0], x.vhost, x.key), x.value) == 1
  {
  }

  /** A claim is counted with its value and flushed; then it is counted once with an empty value and flushed, too. */
  lemma MixedUseLosesACount(run: Run)
    requires run.Valid() && run.steps == MIXED
    ensures var full, empty := FULL.Counted(), EMPTY.Counted(); var t := run.states[4];
            && Read(t.doc, full) == run.Incs(4, full) == 1
            && Read(t.doc, empty) == 0 && Unflushed(t.locals, empty) == 0 && run.Incs(4, empty) == 1
                && run.Lost(4, empty) == 1
  {
    hide Fits, Node, NodeMerged, NodeStored, Stored, Incremented, Count, Unflushed, Table, Run.Lost;
    var naming, s := run.naming, run.states;
    MixedKeys();
    var full, empty := FULL.Counted(), EMPTY.Counted();
    assert run.StepOk(0) && run.StepOk(1) && run.StepOk(2) && run.StepOk(3);
    CountOnce(s[0].locals[0], full, s[1].locals[0]);
    CountOnce(s[2].locals[0], empty, s[3].locals[0]);
    MixedFlush(naming, s[1], s[2], full);
    MixedFlush(naming, s[3], s[4], empty);
    NothingYet(s[0].doc, full);
    MixedNodes(Node(s[2].doc, "vhost", "7"), Table(s[1].locals[0], "vhost", "7"),
               Node(s[4].doc, "vhost", "7"), Table(s[3].locals[0], "vhost", "7"));
    NothingUnflushed(s[4].locals, empty);
    MixedTally(run);
    CountsAreConserved(run, 4, empty);
  }

  lemma NothingYet(doc: Document, x: Id)
    requires doc == map[]
    ensures Node(doc, x.vhost, x.key) == None
  {
  }

  lemma MixedNodes(n2: Option<Json>, t1: Values, n4: Option<Json>, t3: Values)
    requires NodeMerged(None, t1, n2) && NodeMerged(n2, t3, n4)
    requires (forall v :: v in t1 <==> v == "value") && TableCount(t1, "value") == 1
    requires forall v :: v in t3 <==> v == DEFAULT
    ensures ReadNode(n4, "value") == 1 && ReadNode(n4, DEFAULT) == 0
  {
  }

  lemma MixedTally(run: Run)
    requires run.Valid() && run.steps == MIXED
    ensures run.Incs(4, FULL.Counted()) == 1 && run.Incs(4, EMPTY.Counted()) == 1
    ensures run.Reset(4, EMPTY.Counted()) == 0
  {
    hide Read, Run.StepOk;
    MixedKeys();
    var full, empty := FULL.Counted(), EMPTY.Counted();
    assert run.Incs(1, full) == 1 && run.Incs(2, full) == 1 && run.Incs(3, full) == 1;
    assert run.Incs(1, empty) == 0 && run.Incs(2, empty) == 0 && run.Incs(3, empty) == 1;
    assert run.Reset(1, empty) == 0 && run.Reset(2, empty) == 0 && run.Reset(3, empty) == 0;
  }

  /** Such a run there is: counting twice and flushing twice leaves a count of 1 and a count of 0. */
  method MixedUse() returns (doc: Document)
    ensures Read(doc, FULL.Counted()) == 1 && Read(doc, EMPTY.Counted()) == 0
  {
    ghost var run;
    MixedKeys();
    doc, run := Execute(1, MIXED, _ => false);
    MixedUseLosesACount(run);
  }
}
