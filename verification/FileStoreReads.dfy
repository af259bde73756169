/**
 * Reads that succeed: what a reader is told happened, and a read that nothing disturbs comes to its end and
 * finds what was stored.
 */
module FileStoreReads {
  import opened FileFormat
  import opened FileStore
  import opened FileStoreSafety

  lemma ReaderStep(s: State, step: Step, r: Id)
    requires Enabled(s, step)
    ensures r in s.readers ==> r in Next(s, step).readers
    ensures var t := Next(s, step);
            r in t.readers ==>
              && (t.readers[r].lookFailed ==> (r in s.readers && s.readers[r].lookFailed) || IsFailedLook(step, r))
              && (t.readers[r].ioError ==> (r in s.readers && s.readers[r].ioError) || step == ReadError(r))
  {
    hide Record, FileName, TempName, AfterRead, Judged, Compared, Files.Remove;
  }

  /** A look-up or an open of this reader that fails. */
  ghost predicate IsFailedLook(step: Step, r: Id) { step == Open(r, false) || (step.Look? && step.r == r && !step.ok) }

  lemma {:induction false} FlagsAreRight(s: State, steps: seq<Step>, r: Id)
    requires IsRun(s, steps) && r in Run(s, steps).readers
    ensures Run(s, steps).readers[r].lookFailed ==>
              (r in s.readers && s.readers[r].lookFailed) || exists step :: step in steps && IsFailedLook(step, r)
    ensures Run(s, steps).readers[r].ioError ==> (r in s.readers && s.readers[r].ioError) || ReadError(r) in steps
    decreases |steps|
  {
    hide Next, Enabled, IsFailedLook;
    if steps != [] {
      ReaderStep(s, steps[0], r);
      FlagsAreRight(Next(s, steps[0]), steps[1..], r);
    }
  }

  /** A read is marked as failed only if a step of it failed. */
  lemma FailuresAreSteps(steps: seq<Step>, r: Id)
    requires IsRun(INITIAL, steps) && r in Run(INITIAL, steps).readers
    ensures var x := Run(INITIAL, steps).readers[r];
            && (x.lookFailed ==> exists step :: step in steps && IsFailedLook(step, r))
            && (x.ioError ==> ReadError(r) in steps)
  {
    FlagsAreRight(INITIAL, steps, r);
  }

  /** A failed look-up or open ends the read with a miss, as does a missing name; a failed read with an error. */
  lemma FailuresEndTheRead(s: State, r: Id, key: Key, ok: bool)
    ensures Enabled(s, Look(r, key, ok)) ==>
              var x := Next(s, Look(r, key, ok)).readers[r];
              x.lookFailed == !ok && x.pc == if ok && FileName(key) in s.files.dir then Opening else Finished(Miss, 0)
    ensures Enabled(s, Open(r, ok)) ==>
              var x := Next(s, Open(r, ok)).readers[r];
              x.lookFailed == !ok && (!ok || FileName(s.readers[r].key) !in s.files.dir ==> x.pc == Finished(Miss, 0))
    ensures Enabled(s, ReadError(r)) ==>
              Next(s, ReadError(r)).readers[r].ioError && Next(s, ReadError(r)).readers[r].pc == Finished(Broken, 0)
  {
    hide FileName;
  }

  // ---- a read without a failure ----

  function Stage(pc: ReaderPc): nat {
    match pc
    case Opening => 0
    case Sizing(_) => 1
    case ReadingHeader(_, _) => 2
    case Checking(_, _, _, _) => 3
    case ReadingValue(_, _, _) => 4
    case Finished(_, _) => 5
  }

  /** The step of reader r that comes next, with its expiry check at `now`. */
  function NextRead(s: State, r: Id, now: int): Step
    requires Reading(s, r)
  {
    match s.readers[r].pc
    case Sizing(_) => Size(r)
    case ReadingHeader(_, _) => ReadHeader(r)
    case Checking(_, _, _, _) => Check(r, now)
    case _ => ReadValue(r)
  }

  /** A value is read at `now`, or the file is broken. */
  ghost predicate ReadAt(pc: ReaderPc, now: int) {
    match pc
    case ReadingValue(_, _, then_) => then_ == now
    case Finished(outcome, then_) => outcome == Broken || then_ == now
    case _ => true
  }

  lemma ReadMoves(s: State, r: Id, now: int)
    requires Reading(s, r) && ReadAt(s.readers[r].pc, now)
    ensures var step := NextRead(s, r, now);
            Enabled(s, step) && Next(s, step).files == s.files && r in Next(s, step).readers
    ensures var x, y := s.readers[r], Next(s, NextRead(s, r, now)).readers[r];
            && Stage(y.pc) > Stage(x.pc) && ReadAt(y.pc, now) && y == x.(pc := y.pc)
  {
    hide HeaderLen, HeaderExpire, ToNul;
  }

  lemma {:induction false} ReadOn(steps: seq<Step>, r: Id, now: int) returns (steps': seq<Step>)
    requires IsRun(INITIAL, steps) && Reading(Run(INITIAL, steps), r) && ReadAt(Run(INITIAL, steps).readers[r].pc, now)
    ensures IsRun(INITIAL, steps')
    ensures var s, t := Run(INITIAL, steps), Run(INITIAL, steps');
            && t.files == s.files && r in t.readers && t.readers[r].pc.Finished? && ReadAt(t.readers[r].pc, now)
            && t.readers[r] == s.readers[r].(pc := t.readers[r].pc)
    decreases 5 - Stage(Run(INITIAL, steps).readers[r].pc)
  {
    hide IsRun, Run, Enabled, Next, ReadAt;
    var step := NextRead(Run(INITIAL, steps), r, now);
    ReadMoves(Run(INITIAL, steps), r, now);
    OneMoreStep(INITIAL, steps, step);
    steps' := steps + [step];
    if !Run(INITIAL, steps').readers[r].pc.Finished? { steps' := ReadOn(steps', r, now); }
  }

  lemma ReadStarts(s: State, r: Id, key: Key)
    requires r !in s.readers && FileName(key) !in s.temps && FileName(key) in s.files.dir
    ensures Enabled(s, Look(r, key, true))
    ensures var t := Next(s, Look(r, key, true));
            && Enabled(t, Open(r, true))
            && var u := Next(t, Open(r, true));
               && u.files == s.files && Reading(u, r) && Stage(u.readers[r].pc) == 1
               && u.readers[r] == Reader(key, |s.files.log|, false, false, u.readers[r].pc)
  {
    hide FileName;
  }

  /** Whatever went on before: a read of its own of a stored entry that fits and has not expired finds its value. */
  lemma StoredIsRead(steps: seq<Step>, r: Id, key: Key, now: int, k: int, e: Entry, w: Id) returns (steps': seq<Step>)
    requires IsRun(INITIAL, steps)
    requires r !in Run(INITIAL, steps).readers && FileName(key) !in Run(INITIAL, steps).temps
    requires var log := Run(INITIAL, steps).files.log;
             IsLast(log, |log|, FileName(key), k) && log[k] == Stored(FileName(key), e, w)
    requires |e.value| + 1 <= 16 * 1024 * 1024 && now < e.expiry
    ensures IsRun(INITIAL, steps')
    ensures r in Run(INITIAL, steps').readers
    ensures Run(INITIAL, steps').readers[r].pc.Finished? && Run(INITIAL, steps').readers[r].pc.outcome == Hit(e.value)
  {
    hide IsRun, Run, Enabled, Next, FileName, Replay, Inv;
    var s := Run(INITIAL, steps);
    Reachable(steps);
    assert s.files.log[..|s.files.log|] == s.files.log;
    LastEventDecides(s.files.log, FileName(key), k);
    TempsThatRemain(steps, FileName(key));
    ReadStarts(s, r, key);
    OneMoreStep(INITIAL, steps, Look(r, key, true));
    var steps1 := steps + [Look(r, key, true)];
    OneMoreStep(INITIAL, steps1, Open(r, true));
    steps' := ReadOn(steps1 + [Open(r, true)], r, now);
    ReadsFromTheLog(steps', r);
  }
}
