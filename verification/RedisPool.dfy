/**
 * Request-scoped Redis connections: requests of one process interleave, each owning at most one
 * connection at a time, and share the pool of idle ones. One step is what happens between two points
 * where another request may run; what is done under the mutex is one step, and locking may fail.
 */
module RedisPool {
  import opened Options
  import opened RedisIdle

  type Request = nat

  /** Where a request is: between backend calls, or inside one of them. */
  datatype Pc = Ready | Popping | Vetting | Opening | Flushing | Returning

  datatype Checkout = Checkout(rctx: Option<Handle>, pc: Pc)

  /**
   * made counts the connections ever opened (handles are numbered), freed holds the ones that were
   * freed, broken the ones with their error flag set; fault is set by the first use or free of a freed one.
   */
  datatype Process = Process(idle: seq<Handle>, checkouts: map<Request, Checkout>, made: nat, freed: set<Handle>,
                             broken: set<Handle>, fault: bool, destroyed: bool)

  const INITIAL := Process([], map[], 0, {}, {}, false, false)

  datatype OpenResult = NoHandle | FailedHandle | GoodHandle

  datatype Step =
    | Start(r: Request)
    | Connect(r: Request)
    | Pop(r: Request, lockOk: bool)
    | Vet(r: Request)
    | Open(r: Request, result: OpenResult)
    | Command(r: Request, breaks: bool)
    | Flush(r: Request, lockOk: bool)
    | End(r: Request, lockOk: bool)
    | Drop(r: Request)
    | Destroy

  predicate At(s: Process, r: Request, pc: Pc) {
    r in s.checkouts && s.checkouts[r].pc == pc && !s.destroyed
  }

  predicate Enabled(s: Process, step: Step) {
    match step
    case Start(r) => r !in s.checkouts && !s.destroyed
    case Connect(r) => At(s, r, Ready)
    case Pop(r, _) => At(s, r, Popping)
    case Vet(r) => At(s, r, Vetting)
    case Open(r, _) => At(s, r, Opening)
    case Command(r, _) => At(s, r, Ready)
    case Flush(r, _) => At(s, r, Flushing)
    case End(r, _) => At(s, r, Ready)
    case Drop(r) => At(s, r, Returning)
    case Destroy => s.checkouts == map[] && !s.destroyed
  }

  /** redisFree */
  function Free(s: Process, h: Handle): Process {
    s.(fault := s.fault || h in s.freed, freed := s.freed + {h})
  }

  function FreeAll(s: Process, hs: seq<Handle>): Process {
    if hs == [] then s else Free(FreeAll(s, hs[..|hs| - 1]), hs[|hs| - 1])
  }

  /** Any other use of a connection. */
  function Use(s: Process, h: Handle): Process {
    s.(fault := s.fault || h in s.freed)
  }

  function Put(s: Process, r: Request, c: Checkout): Process {
    s.(checkouts := s.checkouts[r := c])
  }

  function Leave(s: Process, r: Request): Process {
    s.(checkouts := s.checkouts - {r})
  }

  /** Keep a healthy connection and go on at `good`; free a broken one and go on at `bad`. */
  function Check(s: Process, r: Request, good: Pc, bad: Pc): Process
    requires r in s.checkouts
  {
    match s.checkouts[r].rctx
    case None => Put(s, r, Checkout(None, bad))
    case Some(h) =>
      if h in s.broken then Put(Free(Use(s, h), h), r, Checkout(None, bad))
      else Put(Use(s, h), r, Checkout(Some(h), good))
  }

  function Next(s: Process, step: Step): Process
    requires Enabled(s, step)
  {
    match step
    case Start(r) => Put(s, r, Checkout(None, Ready))
    // reuse the request's own connection, unless it broke earlier in this request
    case Connect(r) => Check(s, r, Ready, Popping)
    case Pop(r, lockOk) =>
      if !lockOk then Put(s, r, Checkout(None, Vetting))
      else
        var t := Take(s.idle);
        Put(s.(idle := t.idle), r, Checkout(t.handle, Vetting))
    // an idle connection may be broken; else a fresh one has to be opened
    case Vet(r) => Check(s, r, Ready, Opening)
    // a connection that fails to authenticate or select is freed again
    case Open(r, NoHandle) => Put(s, r, Checkout(None, Ready))
    case Open(r, FailedHandle) => Put(Free(s.(made := s.made + 1), s.made), r, Checkout(None, Ready))
    case Open(r, GoodHandle) => Put(s.(made := s.made + 1), r, Checkout(Some(s.made), Ready))
    // a command that breaks the connection frees it at once, and the idle ones are suspect, too
    case Command(r, breaks) =>
      (match s.checkouts[r].rctx
       case None => s
       case Some(h) =>
         var u := Use(s, h).(broken := if breaks then s.broken + {h} else s.broken);
         if h in u.broken then Put(Free(u, h), r, Checkout(None, Flushing)) else u)
    case Flush(r, lockOk) =>
      var t := if lockOk then FreeAll(s, s.idle).(idle := []) else s;
      Put(t, r, s.checkouts[r].(pc := Ready))
    // request-pool cleanup: put a healthy connection back if there is room, else drop it
    case End(r, lockOk) =>
      (match s.checkouts[r].rctx
       case None => Leave(s, r)
       case Some(h) =>
         if h !in s.broken && lockOk && HasRoom(s.idle) then Leave(Use(s, h).(idle := s.idle + [h]), r)
         else Put(Use(s, h), r, Checkout(Some(h), Returning)))
    case Drop(r) =>
      (match s.checkouts[r].rctx
       case None => Leave(s, r)
       case Some(h) => Leave(Free(s, h), r))
    case Destroy => FreeAll(s, s.idle).(idle := [], destroyed := true)
  }

  // ---- ownership ----

  ghost predicate Owns(s: Process, r: Request, h: Handle) {
    r in s.checkouts && s.checkouts[r].rctx == Some(h)
  }

  ghost predicate Live(s: Process, h: Handle) {
    h < s.made && h !in s.freed
  }

  ghost predicate Inv(s: Process) {
    && !s.fault
    && |s.idle| <= POOL_MAX
    && (forall h :: h in s.freed ==> h < s.made)
    // every idle or checked-out connection is live, and has one owner only
    && (forall i :: 0 <= i < |s.idle| ==> Live(s, s.idle[i]))
    && (forall r, h :: Owns(s, r, h) ==> Live(s, h) && h !in s.idle)
    && (forall i, j :: 0 <= i < j < |s.idle| ==> s.idle[i] != s.idle[j])
    && (forall r, r', h :: Owns(s, r, h) && Owns(s, r', h) ==> r == r')
    // and no live connection is without an owner
    && (forall h :: Live(s, h) ==> h in s.idle || exists r :: Owns(s, r, h))
    && (forall r :: r in s.checkouts && s.checkouts[r].pc in {Popping, Opening, Flushing} ==>
          s.checkouts[r].rctx == None)
    && (s.destroyed ==> s.idle == [] && s.checkouts == map[])
  }

  // ---- every step keeps ownership ----

  /** Dropping its connection for good: the handle is freed and no longer owned. */
  lemma FreeOwned(s: Process, r: Request, h: Handle, pc: Pc)
    requires Inv(s) && Owns(s, r, h)
    ensures Inv(Put(Free(s, h), r, Checkout(None, pc))) && Inv(Leave(Free(s, h), r))
  {
    var t := Free(s, h);
    forall t' | t' == Put(t, r, Checkout(None, pc)) || t' == Leave(t, r) ensures Inv(t') {
      assert forall r', h' :: Owns(t', r', h') <==> r' != r && Owns(s, r', h');
      forall x | Live(t', x) ensures x in t'.idle || exists r' :: Owns(t', r', x) {
        assert Live(s, x);
        if r' :| Owns(s, r', x) { assert Owns(t', r', x); }
      }
    }
  }

  lemma Repoint(s: Process, r: Request, pc: Pc)
    requires Inv(s) && r in s.checkouts && (pc in {Popping, Opening, Flushing} ==> s.checkouts[r].rctx == None)
    ensures Inv(Put(s, r, s.checkouts[r].(pc := pc)))
  {
    var t := Put(s, r, s.checkouts[r].(pc := pc));
    assert forall r', h :: Owns(t, r', h) <==> Owns(s, r', h);
    forall x | Live(t, x) ensures x in t.idle || exists r' :: Owns(t, r', x) {
      if r' :| Owns(s, r', x) { assert Owns(t, r', x); }
    }
  }

  /** Request r gets a connection nobody else has, or none. */
  lemma Acquire(s: Process, t: Process, r: Request, c: Checkout)
    requires Inv(s) && !s.destroyed && (r in s.checkouts ==> s.checkouts[r].rctx == None)
    requires t == Put(s.(idle := t.idle, made := t.made), r, c) && s.made <= t.made
    requires c.pc in {Popping, Opening, Flushing} ==> c.rctx == None
    requires |t.idle| <= |s.idle| && t.idle == s.idle[..|t.idle|]
    requires forall h :: (h in s.idle && h !in t.idle) || s.made <= h < t.made <==> c.rctx == Some(h)
    ensures Inv(t)
  {
    forall r': Request, h: Handle | Owns(t, r', h)
      ensures (r' == r && c.rctx == Some(h)) || (r' != r && Owns(s, r', h))
    {
    }
    forall h | Live(t, h) ensures h in t.idle || exists r' :: Owns(t, r', h) {
      if c.rctx == Some(h) {
        assert Owns(t, r, h);
      } else if h !in t.idle {
        assert Live(s, h);
        var r' :| Owns(s, r', h);
        assert Owns(t, r', h);
      }
    }
  }

  lemma {:induction false} FreeAllFreesOnce(s: Process, hs: seq<Handle>)
    requires !s.fault && (forall i :: 0 <= i < |hs| ==> hs[i] !in s.freed)
    requires forall i, j :: 0 <= i < j < |hs| ==> hs[i] != hs[j]
    ensures FreeAll(s, hs) == s.(freed := s.freed + set h | h in hs)
    decreases |hs|
  {
    if hs == [] {
      assert s.freed + (set h | h in hs) == s.freed;
    } else {
      var init, last := hs[..|hs| - 1], hs[|hs| - 1];
      FreeAllFreesOnce(s, init);
      assert s.freed + (set h | h in hs) == s.freed + (set h | h in init) + {last};
    }
  }

  /** Emptying the pool frees every idle connection once. */
  lemma DrainKeeps(s: Process)
    requires Inv(s)
    ensures FreeAll(s, s.idle) == s.(freed := s.freed + set h | h in s.idle)
    ensures Inv(FreeAll(s, s.idle).(idle := []))
  {
    assert forall i :: 0 <= i < |s.idle| ==> Live(s, s.idle[i]);
    FreeAllFreesOnce(s, s.idle);
    var t := FreeAll(s, s.idle).(idle := []);
    forall r, h | Owns(t, r, h) ensures Live(t, h) { assert Owns(s, r, h); }
    assert forall r, h :: Owns(t, r, h) <==> Owns(s, r, h);
    forall h | Live(t, h) ensures exists r :: Owns(t, r, h) {
      assert Live(s, h);
      var r :| Owns(s, r, h);
      assert Owns(t, r, h);
    }
  }

  lemma CheckKeeps(s: Process, r: Request, bad: Pc)
    requires Inv(s) && r in s.checkouts
    ensures Inv(Check(s, r, Ready, bad))
  {
    match s.checkouts[r].rctx
    case None => Repoint(s, r, bad);
    case Some(h) =>
      assert Owns(s, r, h) && Live(s, h);
      if h in s.broken { FreeOwned(s, r, h, bad); } else { Repoint(s, r, Ready); }
  }

  lemma OpenKeeps(s: Process, r: Request, result: OpenResult)
    requires Inv(s) && At(s, r, Opening)
    ensures Inv(Next(s, Open(r, result)))
  {
    var t := Next(s, Open(r, result));
    match result
    case NoHandle => Repoint(s, r, Ready);
    case GoodHandle => Acquire(s, t, r, Checkout(Some(s.made), Ready));
    case FailedHandle =>
      assert s.made !in s.freed;
      var u := s.(made := s.made + 1, freed := s.freed + {s.made});
      assert forall h :: Live(u, h) <==> Live(s, h);
      assert forall r', h :: Owns(u, r', h) <==> Owns(s, r', h);
      Repoint(u, r, Ready);
  }

  lemma PopKeeps(s: Process, r: Request, lockOk: bool)
    requires Inv(s) && At(s, r, Popping)
    ensures Inv(Next(s, Pop(r, lockOk)))
  {
    var t := Next(s, Pop(r, lockOk));
    Acquire(s, t, r, t.checkouts[r]);
  }

  lemma CommandKeeps(s: Process, r: Request, breaks: bool)
    requires Inv(s) && At(s, r, Ready)
    ensures Inv(Next(s, Command(r, breaks)))
  {
    if s.checkouts[r].rctx.Some? {
      var h := s.checkouts[r].rctx.value;
      assert Owns(s, r, h) && Live(s, h);
      var u := s.(broken := if breaks then s.broken + {h} else s.broken);
      assert forall x :: Live(u, x) <==> Live(s, x);
      assert forall r', x :: Owns(u, r', x) <==> Owns(s, r', x);
      if h in u.broken { FreeOwned(u, r, h, Flushing); }
    }
  }

  lemma EndKeeps(s: Process, r: Request, lockOk: bool)
    requires Inv(s) && At(s, r, Ready)
    ensures Inv(Next(s, End(r, lockOk)))
  {
    var t := Next(s, End(r, lockOk));
    match s.checkouts[r].rctx
    case None => LeaveEmpty(s, r);
    case Some(h) =>
      assert Owns(s, r, h) && Live(s, h);
      if h !in s.broken && lockOk && HasRoom(s.idle) {
        forall r', x | Owns(t, r', x) ensures r' != r && Owns(s, r', x) && x != h { assert r' == r || Owns(s, r', x); }
        forall x | Live(t, x) ensures x in t.idle || exists r' :: Owns(t, r', x) {
          assert Live(s, x);
          if x != h && x !in s.idle {
            var r' :| Owns(s, r', x);
            assert Owns(t, r', x);
          } else if x == h {
            assert t.idle[|s.idle|] == h;
          }
        }
      } else {
        Repoint(s, r, Returning);
      }
  }

  lemma LeaveEmpty(s: Process, r: Request)
    requires Inv(s) && r in s.checkouts && s.checkouts[r].rctx == None
    ensures Inv(Leave(s, r))
  {
    var t := Leave(s, r);
    assert forall r', h :: Owns(t, r', h) <==> Owns(s, r', h);
    forall x | Live(t, x) ensures x in t.idle || exists r' :: Owns(t, r', x) {
      assert Live(s, x);
      if r' :| Owns(s, r', x) { assert Owns(t, r', x); }
    }
  }

  lemma StepKeeps(s: Process, step: Step)
    requires Inv(s) && Enabled(s, step)
    ensures Inv(Next(s, step))
  {
    hide Inv, Live, Owns;
    match step
    case Start(r) => StartKeeps(s, r);
    case Connect(r) => CheckKeeps(s, r, Popping);
    case Pop(r, lockOk) => PopKeeps(s, r, lockOk);
    case Vet(r) => CheckKeeps(s, r, Opening);
    case Open(r, result) => OpenKeeps(s, r, result);
    case Command(r, breaks) => CommandKeeps(s, r, breaks);
    case Flush(r, lockOk) => FlushKeeps(s, r, lockOk);
    case End(r, lockOk) => EndKeeps(s, r, lockOk);
    case Drop(r) => DropKeeps(s, r);
    case Destroy => DestroyKeeps(s);
  }

  lemma StartKeeps(s: Process, r: Request)
    requires Inv(s) && Enabled(s, Start(r))
    ensures Inv(Next(s, Start(r)))
  {
    Acquire(s, Next(s, Start(r)), r, Checkout(None, Ready));
  }

  lemma FlushKeeps(s: Process, r: Request, lockOk: bool)
    requires Inv(s) && At(s, r, Flushing)
    ensures Inv(Next(s, Flush(r, lockOk)))
  {
    if lockOk {
      DrainKeeps(s);
      Repoint(FreeAll(s, s.idle).(idle := []), r, Ready);
    } else {
      Repoint(s, r, Ready);
    }
  }

  lemma DropKeeps(s: Process, r: Request)
    requires Inv(s) && At(s, r, Returning)
    ensures Inv(Next(s, Drop(r)))
  {
    if s.checkouts[r].rctx == None {
      LeaveEmpty(s, r);
    } else {
      assert Owns(s, r, s.checkouts[r].rctx.value);
      FreeOwned(s, r, s.checkouts[r].rctx.value, Ready);
    }
  }

  lemma DestroyKeeps(s: Process)
    requires Inv(s) && Enabled(s, Destroy)
    ensures Inv(Next(s, Destroy))
  {
    DrainKeeps(s);
    var t := FreeAll(s, s.idle).(idle := []);
    var t' := t.(destroyed := true);
    assert forall h :: Live(t', h) <==> Live(t, h);
    assert forall r, h :: Owns(t', r, h) <==> Owns(t, r, h);
  }

  // ---- whole runs ----

  /** An interleaving: every step is enabled when it is taken. */
  ghost predicate IsRun(s: Process, steps: seq<Step>)
    decreases |steps|
  {
    steps == [] || (Enabled(s, steps[0]) && IsRun(Next(s, steps[0]), steps[1..]))
  }

  function Run(s: Process, steps: seq<Step>): Process
    requires IsRun(s, steps)
    decreases |steps|
  {
    if steps == [] then s else Run(Next(s, steps[0]), steps[1..])
  }

  lemma {:induction false} RunKeeps(s: Process, steps: seq<Step>)
    requires Inv(s) && IsRun(s, steps)
    ensures Inv(Run(s, steps))
    decreases |steps|
  {
    hide Inv;
    if steps != [] {
      StepKeeps(s, steps[0]);
      RunKeeps(Next(s, steps[0]), steps[1..]);
    }
  }

  /**
   * In every interleaving of any number of requests: no connection is used or freed after it was
   * freed, the pool never overflows, and each connection that is open belongs to the pool or to
   * exactly one request.
   */
  lemma ConnectionsAreOwned(steps: seq<Step>, h: Handle)
    requires IsRun(INITIAL, steps)
    ensures var s := Run(INITIAL, steps);
            && !s.fault && |s.idle| <= 16
            && (Live(s, h) <==> (h in s.idle || exists r :: Owns(s, r, h)))
            && (h in s.idle ==> forall r :: !Owns(s, r, h))
            && (forall r, r' :: Owns(s, r, h) && Owns(s, r', h) ==> r == r')
  {
    RunKeeps(INITIAL, steps);
  }

  /** Once all requests have ended and the cache is destroyed, every connection ever opened was freed, exactly once. */
  lemma NothingLeaks(steps: seq<Step>)
    requires IsRun(INITIAL, steps) && Run(INITIAL, steps).destroyed
    ensures var s := Run(INITIAL, steps); !s.fault && forall h: Handle :: h < s.made <==> h in s.freed
  {
    RunKeeps(INITIAL, steps);
    var s := Run(INITIAL, steps);
    forall h: Handle | h < s.made ensures h in s.freed {
      if h !in s.freed {
        assert Live(s, h);
      }
    }
  }

  // ---- what each step does with connections ----

  /** A connection is freed exactly for one of these reasons. */
  lemma FreedIff(s: Process, step: Step, h: Handle)
    requires Inv(s) && Enabled(s, step) && h !in s.freed
    ensures h in Next(s, step).freed <==>
            match step
            // it broke, now or before
            case Connect(r) => Owns(s, r, h) && h in s.broken
            case Vet(r) => Owns(s, r, h) && h in s.broken
            case Command(r, breaks) => Owns(s, r, h) && (breaks || h in s.broken)
            // it could not be set up
            case Open(r, result) => result == FailedHandle && h == s.made
            // it was idle when another one broke, or at the end
            case Flush(r, lockOk) => lockOk && h in s.idle
            case Destroy => h in s.idle
            // it was not put back
            case Drop(r) => Owns(s, r, h)
            case _ => false
  {
    DrainKeeps(s);
  }

  /** The idle connections change like this: the last one is taken, a healthy one is put back, all are dropped. */
  lemma IdleAfter(s: Process, step: Step)
    requires Inv(s) && Enabled(s, step)
    ensures var idle := Next(s, step).idle;
            match step
            case Pop(_, lockOk) =>
              if lockOk && s.idle != [] then exists h :: idle + [h] == s.idle && Owns(Next(s, step), step.r, h)
              else idle == s.idle
            case End(r, lockOk) =>
              (exists h :: Owns(s, r, h) && h !in s.broken && lockOk && |s.idle| < 16 && idle == s.idle + [h])
              || (idle == s.idle && forall h :: Owns(s, r, h) ==> h in s.broken || !lockOk || |s.idle| >= 16)
            case Flush(_, lockOk) => idle == if lockOk then [] else s.idle
            case Destroy => idle == []
            case _ => idle == s.idle
  {
    DrainKeeps(s);
    match step
    case Pop(r, lockOk) =>
      if lockOk && s.idle != [] {
        var h := s.idle[|s.idle| - 1];
        assert Next(s, step).idle + [h] == s.idle && Owns(Next(s, step), r, h);
      }
    case End(r, lockOk) =>
      if s.checkouts[r].rctx.Some? { assert Owns(s, r, s.checkouts[r].rctx.value); }
    case _ =>
  }

  /** A request keeps its own healthy connection; it opens a new one only when it has none left to use. */
  lemma HealthyIsReused(s: Process, r: Request, h: Handle)
    requires Inv(s) && Owns(s, r, h) && h !in s.broken
    ensures At(s, r, Ready) ==> Owns(Next(s, Connect(r)), r, h) && At(Next(s, Connect(r)), r, Ready)
    ensures At(s, r, Vetting) ==> Owns(Next(s, Vet(r)), r, h) && At(Next(s, Vet(r)), r, Ready)
    ensures At(s, r, Ready) ==> Owns(Next(s, Command(r, false)), r, h) && At(Next(s, Command(r, false)), r, Ready)
    ensures !At(s, r, Opening)
  {
  }

  /** A request without a usable connection looks for an idle one, and without that opens one, which it then has. */
  lemma NoneIsReplaced(s: Process, r: Request)
    requires Inv(s) && r in s.checkouts && forall h :: Owns(s, r, h) ==> h in s.broken
    ensures At(s, r, Ready) ==> At(Next(s, Connect(r)), r, Popping)
    ensures At(s, r, Vetting) ==> At(Next(s, Vet(r)), r, Opening)
    ensures At(s, r, Opening) ==> Owns(Next(s, Open(r, GoodHandle)), r, s.made)
  {
    if s.checkouts[r].rctx.Some? { assert Owns(s, r, s.checkouts[r].rctx.value); }
  }
}
