/**
 * Runs of the file cache that end badly: a cleaner goes on to unlink an entry that has not expired, because
 * the system gave the inode number of the file that it inspected to a later file of the same key, or because
 * it could not read the file, or because a new entry was stored just before; and a temporary file stays behind.
 */
module FileStoreFailures {
  import opened FileFormat
  import opened FileStore
  import opened FileStoreSafety

  /** Writer w can store e under a temporary name and an inode number that are free. */
  ghost predicate CanStore(s: State, w: Id, e: Entry, rnd: string, number: nat) {
    && Enabled(s, Create(w, e, rnd, number)) && TempName(FileName(e.key), rnd) !in s.files.dir
  }

  /** What is left of the state once w has stored e. */
  ghost predicate HasStored(s: State, w: Id, e: Entry, rnd: string, number: nat, t: State) {
    && t.files.dir == s.files.dir[FileName(e.key) := s.files.made]
    && t.files.disk == s.files.disk[s.files.made := Record(e)]
    && t.files.numbers == s.files.numbers[s.files.made := number]
    && t.files.made == s.files.made + 1 && t.files.log == s.files.log + [Stored(FileName(e.key), e, w)]
    && t.cleaners == s.cleaners && t.writers.Keys == s.writers.Keys + {w}
    && t.temps == s.temps[TempName(FileName(e.key), rnd) := w] && t.targets == s.targets + {FileName(e.key)}
  }

  lemma WriterSteps(s: State, w: Id, e: Entry, rnd: string, number: nat)
    requires CanStore(s, w, e, rnd, number)
    ensures var s1 := Created(s, w, e, TempName(FileName(e.key), rnd), number);
            && Next(s, Create(w, e, rnd, number)) == s1
            && Enabled(s1, Write(w, |Record(e)|))
            && var s2 := Written(s1, w, s1.writers[w], |Record(e)|);
               && Next(s1, Write(w, |Record(e)|)) == s2
               && Enabled(s2, Rename(w, true)) && Next(s2, Rename(w, true)) == Renamed(s2, w, s2.writers[w], true)
  {
  }

  /** Create, write and rename without interruption. */
  lemma StoreAtOnce(steps: seq<Step>, w: Id, e: Entry, rnd: string, number: nat) returns (steps': seq<Step>)
    requires IsRun(INITIAL, steps) && CanStore(Run(INITIAL, steps), w, e, rnd, number)
    ensures IsRun(INITIAL, steps') && HasStored(Run(INITIAL, steps), w, e, rnd, number, Run(INITIAL, steps'))
  {
    hide IsRun, Run, Record, FileName, TempName, Next, Enabled;
    var s := Run(INITIAL, steps);
    WriterSteps(s, w, e, rnd, number);
    var n, temp := FileName(e.key), TempName(FileName(e.key), rnd);
    TempIsNoTarget(n, rnd);
    OneMoreStep(INITIAL, steps, Create(w, e, rnd, number));
    var s1 := Created(s, w, e, temp, number);
    OneMoreStep(INITIAL, steps + [Create(w, e, rnd, number)], Write(w, |Record(e)|));
    var s2 := Written(s1, w, s1.writers[w], |Record(e)|);
    assert Next(s1, Write(w, |Record(e)|)) == s2;
    assert s2.writers[w] == Writer(e, temp, s.files.made, Complete) && Record(e)[..|Record(e)|] == Record(e);
    var steps2 := steps + [Create(w, e, rnd, number)] + [Write(w, |Record(e)|)];
    OneMoreStep(INITIAL, steps2, Rename(w, true));
    steps' := steps2 + [Rename(w, true)];
    var t := Run(INITIAL, steps');
    assert t == Renamed(s2, w, s2.writers[w], true);
    assert t.files.dir == s.files.dir[n := s.files.made];
    assert t.files.disk == s.files.disk[s.files.made := Record(e)];
  }

  const KEY: Key := RawKey.Key("s", "k")
  const OLD: Entry := RawEntry.Entry(KEY, "old", 10)
  const LIVING: Entry := RawEntry.Entry(KEY, "living", 100)

  lemma CleanerSteps(s: State, name: string, now: int, failed: bool)
    ensures 0 !in s.cleaners && name in s.files.dir ==>
              Enabled(s, Inspect(0, name)) && Next(s, Inspect(0, name))
                  == PutCleaner(s, 0, Cleaner(name, s.files.dir[name], s.files.made, Inspecting))
    ensures 0 in s.cleaners && s.cleaners[0].pc == Inspecting ==>
              Enabled(s, Judge(0, now, failed))
              && Next(s, Judge(0, now, failed)) == PutCleaner(s, 0, Judged(s.files, s.cleaners[0], now, failed))
    ensures 0 in s.cleaners && s.cleaners[0].pc.Condemned? ==>
              Enabled(s, Same(0, true)) && Next(s, Same(0, true))
                  == PutCleaner(s, 0, Compared(s.files, s.cleaners[0], true))
  {
  }

  lemma DeleteStep(s: State, key: Key)
    requires FileName(key) !in s.temps
    ensures Enabled(s, Delete(key, true))
    ensures Next(s, Delete(key, true))
              == s.(files := s.files.Remove(FileName(key), true), targets := s.targets + {FileName(key)})
  {
  }

  /** An expired entry is stored, and condemned by cleaner 0 at time 50. */
  lemma Condemn() returns (steps: seq<Step>)
    ensures IsRun(INITIAL, steps)
    ensures HasStored(INITIAL, 1, OLD, "x", 7, Run(INITIAL, steps).(cleaners := map[]))
    ensures Run(INITIAL, steps).cleaners == map[0 := Cleaner(FileName(KEY), 0, 1, Condemned(50, false))]
  {
    hide IsRun, Run, Record, FileName, TempName, Next, Enabled;
    var n := FileName(KEY);
    NoSteps();
    TempIsNoTarget(n, "x");
    assert CanStore(INITIAL, 1, OLD, "x", 7) by { FirstStore(); }
    var steps1 := StoreAtOnce([], 1, OLD, "x", 7);
    var s1 := Run(INITIAL, steps1);
    CleanerSteps(s1, n, 50, false);
    OneMoreStep(INITIAL, steps1, Inspect(0, n));
    var s2 := Next(s1, Inspect(0, n));
    CleanerSteps(s2, n, 50, false);
    OneMoreStep(INITIAL, steps1 + [Inspect(0, n)], Judge(0, 50, false));
    steps := steps1 + [Inspect(0, n)] + [Judge(0, 50, false)];
    RecordReadsBack(OLD);
    assert s1.(cleaners := map[]) == s1 == Run(INITIAL, steps).(cleaners := map[]);
  }

  lemma FirstStore()
    ensures CanStore(INITIAL, 1, OLD, "x", 7)
  {
  }

  lemma NoSteps()
    ensures IsRun(INITIAL, []) && Run(INITIAL, []) == INITIAL
  {
  }

  lemma TempsDiffer(target: string)
    ensures TempName(target, "x") != TempName(target, "y")
  {
    assert TempName(target, "x")[|target| + 1] == 'x' && TempName(target, "y")[|target| + 1] == 'y';
  }

  /** The key is deleted before the cleaner compares, and stored again in a file with the same number. */
  lemma StoreAgain() returns (steps: seq<Step>)
    ensures IsRun(INITIAL, steps)
    ensures var s := Run(INITIAL, steps); var n := FileName(KEY);
            && s.files.dir == map[n := 1] && s.files.Number(0) == 7 && s.files.Number(1) == 7
            && s.files.log == [Stored(n, OLD, 1), Removed(n), Stored(n, LIVING, 2)]
            && s.cleaners == map[0 := Cleaner(n, 0, 1, Condemned(50, false))]
  {
    hide IsRun, Run, Record, FileName, TempName, Next, Enabled;
    var n := FileName(KEY);
    var steps1 := Condemn();
    var s1 := Run(INITIAL, steps1);
    TempIsNoTarget(n, "x");
    DeleteStep(s1, KEY);
    OneMoreStep(INITIAL, steps1, Delete(KEY, true));
    var s2 := Next(s1, Delete(KEY, true));
    assert s2.files.dir == map[] && s2.files.log == [Stored(n, OLD, 1), Removed(n)];
    assert CanStore(s2, 2, LIVING, "y", 7) by { SecondStore(s2); }
    steps := StoreAtOnce(steps1 + [Delete(KEY, true)], 2, LIVING, "y", 7);
    assert s2.files.dir[n := 1] == map[n := 1];
  }

  lemma SecondStore(s: State)
    requires s.files.dir == map[] && 2 !in s.writers && s.temps == map[TempName(FileName(KEY), "x") := 1]
    requires s.targets == {FileName(KEY)}
    ensures CanStore(s, 2, LIVING, "y", 7)
  {
    hide FileName, TempName;
    TempIsNoTarget(FileName(KEY), "x");
    TempIsNoTarget(FileName(KEY), "y");
    TempsDiffer(FileName(KEY));
  }

  lemma ReplayedTwice(n: string)
    ensures Replay([Stored(n, OLD, 1), Removed(n), Stored(n, LIVING, 2)]) == map[n := LIVING]
  {
    ReplayNext([], Stored(n, OLD, 1));
    ReplayNext([Stored(n, OLD, 1)], Removed(n));
    ReplayNext([Stored(n, OLD, 1), Removed(n)], Stored(n, LIVING, 2));
    assert [Stored(n, OLD, 1), Removed(n)] + [Stored(n, LIVING, 2)]
        == [Stored(n, OLD, 1), Removed(n), Stored(n, LIVING, 2)];
    assert [Stored(n, OLD, 1)] + [Removed(n)] == [Stored(n, OLD, 1), Removed(n)];
    assert [] + [Stored(n, OLD, 1)] == [Stored(n, OLD, 1)];
    assert Replay([Stored(n, OLD, 1), Removed(n)]) == map[];
  }

  /** The cleaner, which knows how to tell files apart, goes on to unlink an entry that lives for long. */
  lemma ReuseCondemnsTheLiving() returns (steps: seq<Step>)
    ensures IsRun(INITIAL, steps)
    ensures var s := Run(INITIAL, steps); var m := Replay(s.files.log);
            && 0 in s.cleaners && s.cleaners[0].pc.Removing? && s.cleaners[0].pc.known && s.cleaners[0].name in m
            && m[s.cleaners[0].name].expiry > s.cleaners[0].pc.now
            && !StoredSince(s.files.log, s.cleaners[0].name, s.cleaners[0].pc.since)
            && Reused(s, s.cleaners[0])
  {
    hide IsRun, Run, FileName, Next, Enabled, Replay;
    var n := FileName(KEY);
    var steps1 := StoreAgain();
    CleanerSteps(Run(INITIAL, steps1), n, 50, false);
    OneMoreStep(INITIAL, steps1, Same(0, true));
    steps := steps1 + [Same(0, true)];
    ReplayedTwice(n);
  }

  // ---- a store between the comparison and the removal ----

  lemma ThirdStore(s: State)
    requires s.files.dir == map[FileName(KEY) := 0] && s.files.Number(0) == 7 && 2 !in s.writers
    requires s.temps == map[TempName(FileName(KEY), "x") := 1] && s.targets == {FileName(KEY)}
    ensures CanStore(s, 2, LIVING, "y", 8)
  {
    hide FileName, TempName;
    TempIsNoTarget(FileName(KEY), "x");
    TempIsNoTarget(FileName(KEY), "y");
    TempsDiffer(FileName(KEY));
  }

  lemma ReplayedOver(n: string)
    ensures Replay([Stored(n, OLD, 1), Stored(n, LIVING, 2)]) == map[n := LIVING]
  {
    ReplayNext([], Stored(n, OLD, 1));
    ReplayNext([Stored(n, OLD, 1)], Stored(n, LIVING, 2));
    assert [] + [Stored(n, OLD, 1)] == [Stored(n, OLD, 1)];
    assert [Stored(n, OLD, 1)] + [Stored(n, LIVING, 2)] == [Stored(n, OLD, 1), Stored(n, LIVING, 2)];
  }

  /** The name still stands for the expired file when the cleaner compares, and then for a new entry that lives on. */
  lemma LateStoreCondemnsTheLiving() returns (steps: seq<Step>)
    ensures IsRun(INITIAL, steps)
    ensures var s := Run(INITIAL, steps); var m := Replay(s.files.log);
            && 0 in s.cleaners && s.cleaners[0].pc.Removing? && s.cleaners[0].pc.known && s.cleaners[0].name in m
            && m[s.cleaners[0].name].expiry > s.cleaners[0].pc.now && !s.cleaners[0].pc.failed
            && StoredSince(s.files.log, s.cleaners[0].name, s.cleaners[0].pc.since)
            && !Reused(s, s.cleaners[0])
  {
    hide IsRun, Run, Record, FileName, TempName, Next, Enabled, Replay;
    var n := FileName(KEY);
    var steps1 := Condemn();
    var s1 := Run(INITIAL, steps1);
    CleanerSteps(s1, n, 50, false);
    OneMoreStep(INITIAL, steps1, Same(0, true));
    var s2 := Next(s1, Same(0, true));
    ThirdStore(s2);
    steps := StoreAtOnce(steps1 + [Same(0, true)], 2, LIVING, "y", 8);
    ReplayedOver(n);
    var log := Run(INITIAL, steps).files.log;
    assert log == [Stored(n, OLD, 1), Stored(n, LIVING, 2)] && log[1].name == n;
  }

  // ---- a header that cannot be read ----

  lemma ReplayedOnce(n: string, e: Entry)
    ensures Replay([Stored(n, e, 1)]) == map[n := e]
  {
    ReplayNext([], Stored(n, e, 1));
    assert [] + [Stored(n, e, 1)] == [Stored(n, e, 1)];
  }

  lemma LivingStore()
    ensures CanStore(INITIAL, 1, LIVING, "x", 7)
  {
    TempIsNoTarget(FileName(KEY), "x");
  }

  /** An I/O error while the header of a complete and living entry is read: the cleaner goes on to unlink it. */
  lemma ReadErrorCondemnsTheLiving() returns (steps: seq<Step>)
    ensures IsRun(INITIAL, steps)
    ensures var s := Run(INITIAL, steps); var m := Replay(s.files.log);
            && 0 in s.cleaners && s.cleaners[0].pc.Removing? && s.cleaners[0].pc.known && s.cleaners[0].name in m
            && m[s.cleaners[0].name].expiry > s.cleaners[0].pc.now
            && !StoredSince(s.files.log, s.cleaners[0].name, s.cleaners[0].pc.since)
            && !Reused(s, s.cleaners[0])
  {
    hide IsRun, Run, Record, FileName, TempName, Next, Enabled, Replay;
    var n := FileName(KEY);
    NoSteps();
    LivingStore();
    var steps1 := StoreAtOnce([], 1, LIVING, "x", 7);
    var s1 := Run(INITIAL, steps1);
    CleanerSteps(s1, n, 50, true);
    OneMoreStep(INITIAL, steps1, Inspect(0, n));
    var s2 := Next(s1, Inspect(0, n));
    CleanerSteps(s2, n, 50, true);
    OneMoreStep(INITIAL, steps1 + [Inspect(0, n)], Judge(0, 50, true));
    var s3 := Next(s2, Judge(0, 50, true));
    CleanerSteps(s3, n, 50, true);
    OneMoreStep(INITIAL, steps1 + [Inspect(0, n)] + [Judge(0, 50, true)], Same(0, true));
    steps := steps1 + [Inspect(0, n)] + [Judge(0, 50, true)] + [Same(0, true)];
    ReplayedOnce(n, LIVING);
    assert [] + [Stored(n, LIVING, 1)] == [Stored(n, LIVING, 1)];
  }

  // ---- a temporary file that cannot be removed ----

  /** A write fails and so does the removal of the temporary file: no writer is at work and it is there. */
  lemma TempStaysBehind() returns (steps: seq<Step>)
    ensures IsRun(INITIAL, steps)
    ensures var s := Run(INITIAL, steps);
            && (forall w :: w in s.writers ==> !Busy(s, w)) && Replay(s.files.log) == map[]
            && s.files.dir.Keys == {TempName(FileName(KEY), "x")}
  {
    hide IsRun, Run, Record, FileName, TempName;
    var temp := TempName(FileName(KEY), "x");
    NoSteps();
    LivingStore();
    var create := Create(1, LIVING, "x", 7);
    OneMoreStep(INITIAL, [], create);
    var s1 := Next(INITIAL, create);
    OneMoreStep(INITIAL, [] + [create], WriteError(1));
    var s2 := Next(s1, WriteError(1));
    OneMoreStep(INITIAL, [] + [create] + [WriteError(1)], DropTemp(1, false));
    steps := [] + [create] + [WriteError(1)] + [DropTemp(1, false)];
    assert Next(s2, DropTemp(1, false)).files.dir == map[temp := 0];
  }
}
