/** What every interleaving of the file cache's writers, readers and cleaners keeps. */
module FileStoreSafety {
  import opened FileFormat
  import opened FileStore

  // ---- invariant ----

  /** Writer w may still touch its temporary file. */
  ghost predicate Busy(s: State, w: Id) { w in s.writers && s.writers[w].pc in {Writing, Complete, Dropping} }

  /** No writer will ever write to this file again. */
  ghost predicate Frozen(s: State, i: File) {
    i < s.files.made && forall w :: Busy(s, w) ==> s.writers[w].file != i
  }

  /** File i holds the complete record of e for good. */
  ghost predicate Holds(s: State, i: File, e: Entry) { Frozen(s, i) && s.files.Content(i) == Record(e) }

  ghost predicate WriterOk(s: State, w: Id)
    requires w in s.writers
  {
    var x := s.writers[w];
    && x.temp in s.temps && s.temps[x.temp] == w
    && FileName(x.entry.key) in s.targets
    && (Busy(s, w) ==> x.file < s.files.made && s.files.Content(x.file) <= Record(x.entry))
    && (x.pc.Complete? ==> s.files.Content(x.file) == Record(x.entry))
    && (forall v :: Busy(s, w) && Busy(s, v) && s.writers[v].file == x.file ==> v == w)
  }

  /**
   * A name in the directory is either a cache file, as the events say, or the temporary file of a writer
   * that is busy or could not remove it.
   */
  ghost predicate NameOk(s: State, n: string)
    requires n in s.files.dir
  {
    var i := s.files.dir[n];
    if n in s.temps then
      var w := s.temps[n];
      w in s.writers && s.writers[w].file == i && s.writers[w].temp == n && (Busy(s, w) || s.writers[w].pc == Leak)
    else
      var m := Replay(s.files.log);
      n in s.targets && n in m && FileName(m[n].key) == n && Holds(s, i, m[n])
  }

  /** The reader's file is the one that its name stood for when it looked. */
  ghost predicate ReaderOk(s: State, x: Reader) {
    && x.since <= |s.files.log| && FileName(x.key) in s.targets
    && var m := Replay(s.files.log[..x.since]); var n := FileName(x.key);
       match x.pc
       case Opening => true
       case Sizing(i) => n in m && Holds(s, i, m[n])
       case ReadingHeader(i, size) => n in m && Holds(s, i, m[n]) && size == |Record(m[n])| && Fits(m[n])
       case Checking(i, size, len, expire) =>
         && n in m && Holds(s, i, m[n]) && Fits(m[n])
         && size == |Record(m[n])| && len == |m[n].value| + 1 && expire == m[n].expiry
       case ReadingValue(i, len, now) =>
         n in m && Holds(s, i, m[n]) && Fits(m[n]) && len == |m[n].value| + 1 && now < m[n].expiry
       case Finished(outcome, now) => IsAnswer(x, outcome, Lookup(m, n, now))
  }

  /** A read ends as the cache's contents call for, or broken after a read error, or with a miss after a failed look. */
  ghost predicate IsAnswer(x: Reader, outcome: Outcome, called: Outcome) {
    outcome == called || (x.ioError && outcome == Broken) || (x.lookFailed && outcome == Miss)
  }

  ghost predicate Fits(e: Entry) { |e.value| + 1 <= FILE_SIZE_MAX }

  ghost predicate StoredSince(log: seq<Event>, n: string, since: nat) {
    exists k :: since <= k < |log| && log[k].Stored? && log[k].name == n
  }

  ghost predicate WasRemoved(log: seq<Event>, n: string) { Removed(n) in log }

  /** A temporary file is there until it is renamed or removed. */
  ghost predicate TempOk(s: State, w: Id)
    requires w in s.writers
  {
    var x := s.writers[w];
    && (x.temp in s.files.dir <==> x.pc != Success && !WasRemoved(s.files.log, x.temp))
    && (x.pc == Failure ==> x.temp !in s.files.dir)
  }

  ghost predicate TempsOk(s: State) {
    && (forall n :: n in s.temps ==> s.temps[n] in s.writers && s.writers[s.temps[n]].temp == n)
    && (forall w :: w in s.writers ==> TempOk(s, w))
    && (forall n :: WasRemoved(s.files.log, n) ==> n in s.temps || n in s.targets)
  }

  /** Files in the directory have different numbers. */
  ghost predicate NumbersOk(s: State) {
    && (forall n :: n in s.files.dir ==> s.files.dir[n] < s.files.made)
    && (forall n, m ::
          n in s.files.dir && m in s.files.dir &&
          s.files.Number(s.files.dir[n]) == s.files.Number(s.files.dir[m]) ==>
            s.files.dir[n] == s.files.dir[m])
  }

  /** Only a file made after the cleaner opened its own can have got the same number. */
  ghost predicate NumberOk(s: State, x: Cleaner) {
    && x.file < x.seen <= s.files.made
    && forall n :: n in s.files.dir && s.files.Number(s.files.dir[n]) == s.files.Number(x.file) ==>
         s.files.dir[n] == x.file || s.files.dir[n] >= x.seen
  }

  /** A cleaner that condemned a complete file could not read it or found it expired. */
  ghost predicate Condemns(x: Cleaner, e: Entry) {
    x.pc.Condemned? || x.pc.Removing? ==> x.pc.failed || x.pc.now >= e.expiry
  }

  /** The file inspected under a cache file's name is complete. */
  ghost predicate CleanerOk(s: State, x: Cleaner) {
    && (x.name in s.temps || x.name in s.targets)
    && (x.name !in s.temps ==> exists e :: Holds(s, x.file, e) && Condemns(x, e))
    && (x.pc.Removing? ==> x.pc.since <= |s.files.log|)
    && (x.pc.Removing? && x.pc.known && x.name in s.files.dir ==>
          s.files.Number(s.files.dir[x.name]) == s.files.Number(x.file) || StoredSince(s.files.log, x.name, x.pc.since))
  }

  /** A writer has stored its entry exactly if it reports so, and then exactly once. */
  ghost predicate LogOk(s: State) {
    && (forall k :: 0 <= k < |s.files.log| && s.files.log[k].Stored? ==> WroteIt(s, s.files.log[k]))
    && (forall j, k :: 0 <= j < k < |s.files.log| && s.files.log[j].Stored? && s.files.log[k].Stored? ==>
          s.files.log[j].writer != s.files.log[k].writer)
    && (forall w :: w in s.writers && s.writers[w].pc == Success ==> Logged(s.files.log, w))
  }

  ghost predicate WroteIt(s: State, event: Event)
    requires event.Stored?
  {
    WriterAt(s, event.writer, Success) && s.writers[event.writer].entry == event.entry
    && event.name == FileName(event.entry.key)
  }

  ghost predicate Logged(log: seq<Event>, w: Id) {
    exists k :: 0 <= k < |log| && log[k].Stored? && log[k].writer == w
  }

  ghost predicate NamesOk(s: State) {
    && (forall n :: n in s.temps ==> n !in s.targets)
    && (forall n :: n in Replay(s.files.log) ==> n in s.files.dir && n !in s.temps)
    && (forall n :: n in s.files.dir ==> NameOk(s, n))
  }

  ghost predicate WritersOk(s: State) { forall w :: w in s.writers ==> WriterOk(s, w) }

  ghost predicate OthersOk(s: State) {
    && (forall r :: r in s.readers ==> ReaderOk(s, s.readers[r]))
    && (forall c :: c in s.cleaners ==> CleanerOk(s, s.cleaners[c]) && NumberOk(s, s.cleaners[c]))
  }

  ghost predicate Inv(s: State) {
    NamesOk(s) && WritersOk(s) && TempsOk(s) && NumbersOk(s) && OthersOk(s) && LogOk(s)
  }

  // ---- what a step does to the files, as far as those who did not take it can tell ----

  ghost predicate Evolves(s: State, t: State) {
    && s.files.log <= t.files.log && s.files.made <= t.files.made
    && (forall i :: Frozen(s, i) ==> Frozen(t, i) && t.files.Content(i) == s.files.Content(i))
    && (forall n :: n in s.temps ==> n in t.temps) && s.targets <= t.targets
    && (forall n :: n in t.temps && n !in s.temps ==> n !in s.targets)
    && (forall n :: n in t.files.dir && (n in s.temps || n in s.targets) ==>
          (n in s.files.dir && t.files.dir[n] == s.files.dir[n]) || StoredSince(t.files.log, n, |s.files.log|))
    && (forall i: File :: i < s.files.made ==> t.files.Number(i) == s.files.Number(i))
    && (forall n :: n in t.files.dir ==>
          (t.files.dir[n] in s.files.dir.Values || s.files.made <= t.files.dir[n] < t.files.made))
  }

  lemma ReaderKeeps(s: State, t: State, x: Reader)
    requires ReaderOk(s, x) && Evolves(s, t)
    ensures ReaderOk(t, x)
  {
    assert t.files.log[..x.since] == s.files.log[..x.since];
  }

  lemma CleanerKeeps(s: State, t: State, x: Cleaner)
    requires CleanerOk(s, x) && NumberOk(s, x) && NumbersOk(s) && Evolves(s, t)
    ensures CleanerOk(t, x)
  {
    hide NumbersOk, Record;
    if x.pc.Removing? && x.pc.known && x.name in t.files.dir && !StoredSince(t.files.log, x.name, x.pc.since) {
      StoredStays(s.files.log, t.files.log, x.name, x.pc.since);
      assert s.files.dir[x.name] < s.files.made by { assert NumbersOk(s); DirIsMade(s, x.name); }
    }
    if x.name !in t.temps {
      var e :| Holds(s, x.file, e) && Condemns(x, e);
      assert Holds(t, x.file, e);
    }
  }

  lemma DirIsMade(s: State, n: string)
    requires NumbersOk(s) && n in s.files.dir
    ensures s.files.dir[n] < s.files.made
  {
  }

  lemma StoredStays(log: seq<Event>, log': seq<Event>, n: string, since: nat)
    requires log <= log' && since <= |log|
    ensures StoredSince(log, n, since) || StoredSince(log', n, |log|) ==> StoredSince(log', n, since)
  {
  }

  lemma NumberKeeps(s: State, t: State, x: Cleaner)
    requires NumberOk(s, x) && NumbersOk(s) && Evolves(s, t)
    ensures NumberOk(t, x)
  {
  }

  lemma OthersKeep(s: State, t: State)
    requires OthersOk(s) && NumbersOk(s) && Evolves(s, t)
    requires forall r :: r in t.readers ==>
                           (r in s.readers && t.readers[r] == s.readers[r]) || ReaderOk(t, t.readers[r])
    requires forall c :: c in t.cleaners ==>
                           (c in s.cleaners && t.cleaners[c] == s.cleaners[c])
                               || (CleanerOk(t, t.cleaners[c]) && NumberOk(t, t.cleaners[c]))
    ensures OthersOk(t)
  {
    hide Evolves, ReaderOk, CleanerOk, NumberOk, NumbersOk;
    forall r | r in s.readers ensures ReaderOk(t, s.readers[r]) { ReaderKeeps(s, t, s.readers[r]); }
    forall c | c in s.cleaners ensures CleanerOk(t, s.cleaners[c]) && NumberOk(t, s.cleaners[c]) {
      CleanerKeeps(s, t, s.cleaners[c]);
      NumberKeeps(s, t, s.cleaners[c]);
    }
  }

  /** Nothing that writers and their files depend on changes. */
  ghost predicate SameWriters(s: State, t: State) {
    && t.writers == s.writers && t.temps == s.temps && s.targets <= t.targets
    && t.files.disk == s.files.disk && t.files.made == s.files.made && t.files.numbers == s.files.numbers
  }

  lemma WritersFrame(s: State, t: State)
    requires SameWriters(s, t)
    ensures forall i :: Frozen(t, i) <==> Frozen(s, i)
    ensures WritersOk(s) ==> WritersOk(t)
  {
  }

  /** Names other than removed ones keep standing for what they did. */
  lemma NamesFrame(s: State, t: State)
    requires NamesOk(s) && SameWriters(s, t) && (forall n :: n in t.targets ==> n !in t.temps)
    requires Replay(t.files.log).Keys <= t.files.dir.Keys
    requires forall n :: n in t.files.dir ==> n in s.files.dir && t.files.dir[n] == s.files.dir[n]
    requires forall n :: n in Replay(t.files.log) <==> n in Replay(s.files.log) && n in t.files.dir
    requires forall n :: n in Replay(t.files.log) ==> Replay(t.files.log)[n] == Replay(s.files.log)[n]
    ensures NamesOk(t)
  {
    hide Record, Replay, FileName;
    WritersFrame(s, t);
    forall n | n in t.files.dir ensures NameOk(t, n) { assert NameOk(s, n); }
  }

  lemma LogFrame(s: State, t: State)
    requires LogOk(s) && t.files.log == s.files.log
    requires forall w :: w in s.writers && s.writers[w].pc == Success ==> w in t.writers && t.writers[w] == s.writers[w]
    requires forall w :: WriterAt(t, w, Success) ==> WriterAt(s, w, Success)
    ensures LogOk(t)
  {
    hide FileName;
    forall k | 0 <= k < |t.files.log| && t.files.log[k].Stored? ensures WroteIt(t, t.files.log[k]) {
      assert WroteIt(s, s.files.log[k]);
    }
    forall w | w in t.writers && t.writers[w].pc == Success ensures Logged(t.files.log, w) {
      assert WriterAt(t, w, Success);
    }
  }

  // ---- steps of readers and cleaners change no file ----

  lemma SameFiles(s: State, t: State)
    requires Inv(s) && t.files == s.files && SameWriters(s, t) && (forall n :: n in t.targets ==> n !in t.temps)
    requires forall r :: r in t.readers ==>
                           (r in s.readers && t.readers[r] == s.readers[r]) || ReaderOk(t, t.readers[r])
    requires forall c :: c in t.cleaners ==>
                           (c in s.cleaners && t.cleaners[c] == s.cleaners[c])
                               || (CleanerOk(t, t.cleaners[c]) && NumberOk(t, t.cleaners[c]))
    ensures Inv(t)
  {
    hide Record, Replay, FileName, ReaderOk, CleanerOk, NumberOk, WriterOk, LogOk, Frozen, WasRemoved;
    WritersFrame(s, t);
    assert NamesOk(t) by {
      forall n | n in t.files.dir ensures n in s.files.dir { assert NameOk(s, n); }
      NamesFrame(s, t);
    }
    assert TempsOk(t) by { assert forall w :: w in s.writers ==> TempOk(s, w); }
    LogFrame(s, t);
    OthersKeep(s, t);
  }

  lemma LookKeeps(s: State, r: Id, key: Key, ok: bool)
    requires Inv(s) && Enabled(s, Look(r, key, ok))
    ensures Inv(Next(s, Look(r, key, ok)))
  {
    hide Record, Replay, FileName, TempsOk, NumbersOk, WritersOk, LogOk;
    var t := Next(s, Look(r, key, ok));
    assert s.files.log[..|s.files.log|] == s.files.log;
    assert FileName(key) !in s.files.dir ==> FileName(key) !in Replay(s.files.log);
    assert ReaderOk(t, t.readers[r]);
    SameFiles(s, t);
  }

  lemma OpenKeeps(s: State, r: Id, ok: bool)
    requires Inv(s) && Enabled(s, Open(r, ok))
    ensures Inv(Next(s, Open(r, ok)))
  {
    hide Record, Replay, FileName, TempsOk, NumbersOk, WritersOk, LogOk;
    var x := s.readers[r];
    assert s.files.log[..|s.files.log|] == s.files.log;
    assert ReaderOk(s, x);
    if FileName(x.key) in s.files.dir {
      assert NameOk(s, FileName(x.key));
    }
    assert ReaderOk(s, Opened(s.files, x, ok));
    ReaderMoves(s, r, Opened(s.files, x, ok));
  }

  /** Reading on, the reader stays on the way to the outcome that the cache's contents call for. */
  lemma ReadOn(s: State, x: Reader, now: int)
    requires ReaderOk(s, x) && !x.pc.Opening? && !x.pc.Finished?
    ensures ReaderOk(s, x.(pc := AfterRead(s.files, x.pc, now)))
  {
    hide Record, Replay, FileName, ToNul, HeaderLen, HeaderExpire, Frozen;
    var m, n := Replay(s.files.log[..x.since]), FileName(x.key);
    RecordReadsBack(m[n]);
  }

  lemma ReadKeeps(s: State, r: Id, step: Step, now: int)
    requires Inv(s) && Enabled(s, step)
    requires step == Size(r) || step == ReadHeader(r) || step == Check(r, now) || step == ReadValue(r)
    ensures Inv(Next(s, step))
  {
    hide TempsOk, NumbersOk, NumberOk, Record, Replay, FileName, ReaderOk, CleanerOk, AfterRead, WriterOk, NameOk;
    hide LogOk, Frozen;
    var x := s.readers[r];
    assert ReaderOk(s, x);
    ReadOn(s, x, if step.Check? then now else 0);
    ReaderMoves(s, r, Next(s, step).readers[r]);
  }

  lemma ReadErrorKeeps(s: State, r: Id)
    requires Inv(s) && Enabled(s, ReadError(r))
    ensures Inv(Next(s, ReadError(r)))
  {
    hide TempsOk, NumbersOk, NumberOk, Record, Replay, FileName, Lookup, CleanerOk, WriterOk, NameOk, LogOk, Frozen;
    assert ReaderOk(s, s.readers[r]);
    ReaderMoves(s, r, Next(s, ReadError(r)).readers[r]);
  }

  lemma ReaderMoves(s: State, r: Id, x: Reader)
    requires Inv(s) && ReaderOk(s, x)
    ensures Inv(PutReader(s, r, x))
  {
    hide TempsOk, NumbersOk, NumberOk, Record, Replay, FileName, ReaderOk, CleanerOk, WriterOk, NameOk, LogOk;
    var t := PutReader(s, r, x);
    assert Evolves(s, t);
    ReaderKeeps(s, t, x);
    SameFiles(s, t);
  }

  lemma CleanerMoves(s: State, c: Id, x: Cleaner)
    requires Inv(s) && CleanerOk(s, x) && NumberOk(s, x)
    ensures Inv(PutCleaner(s, c, x))
  {
    hide TempsOk, NumbersOk, NumberOk, Record, Replay, FileName, ReaderOk, CleanerOk, WriterOk, NameOk, LogOk;
    var t := PutCleaner(s, c, x);
    assert Evolves(s, t);
    CleanerKeeps(s, t, x);
    NumberKeeps(s, t, x);
    SameFiles(s, t);
  }

  lemma InspectKeeps(s: State, c: Id, name: string)
    requires Inv(s) && Enabled(s, Inspect(c, name))
    ensures Inv(Next(s, Inspect(c, name)))
  {
    hide TempsOk, WritersOk, LogOk, Record, Replay, FileName;
    var y := Cleaner(name, s.files.dir[name], s.files.made, Inspecting);
    assert NameOk(s, name);
    if name !in s.temps {
      assert Holds(s, y.file, Replay(s.files.log)[name]);
    }
    CleanerMoves(s, c, y);
  }

  lemma JudgeKeeps(s: State, c: Id, now: int, failed: bool)
    requires Inv(s) && Enabled(s, Judge(c, now, failed))
    ensures Inv(Next(s, Judge(c, now, failed)))
  {
    hide TempsOk, WritersOk, LogOk, Record, Replay, FileName, HeaderExpire;
    var y := Judged(s.files, s.cleaners[c], now, failed);
    var x := s.cleaners[c];
    assert CleanerOk(s, x);
    if x.name !in s.temps {
      var e :| Holds(s, x.file, e);
      RecordReadsBack(e);
      assert Holds(s, y.file, e);
    }
    CleanerMoves(s, c, y);
  }

  lemma SameKeeps(s: State, c: Id, known: bool)
    requires Inv(s) && Enabled(s, Same(c, known))
    ensures Inv(Next(s, Same(c, known)))
  {
    hide TempsOk, WritersOk, LogOk, Record, Replay, FileName;
    var y := Compared(s.files, s.cleaners[c], known);
    var x := s.cleaners[c];
    assert CleanerOk(s, x);
    if x.name !in s.temps {
      var e :| Holds(s, x.file, e) && Condemns(x, e);
      assert Holds(s, y.file, e);
    }
    CleanerMoves(s, c, y);
  }

  // ---- steps that change files ----

  lemma ReplayNext(log: seq<Event>, event: Event)
    ensures Replay(log + [event]) == Apply(Replay(log), event)
  {
  }

  lemma RemoveKeeps(s: State, name: string, ok: bool)
    requires Inv(s)
    ensures Inv(s.(files := s.files.Remove(name, ok)))
  {
    hide Record, Replay, FileName, ReaderOk, CleanerOk, NumberOk, WriterOk, NameOk, LogOk, Frozen, TempsOk;
    var t := s.(files := s.files.Remove(name, ok));
    if ok && name in s.files.dir {
      ReplayNext(s.files.log, Removed(name));
      WritersFrame(s, t);
      NamesFrame(s, t);
      RemoveKeepsTemps(s, name);
      LogExtended(s, t, Removed(name));
      OthersKeep(s, t);
    } else {
      assert t == s;
    }
  }

  lemma RemoveKeepsTemps(s: State, name: string)
    requires TempsOk(s) && NamesOk(s) && name in s.files.dir
    ensures TempsOk(s.(files := s.files.Remove(name, true)))
  {
    hide FileName, Record, Replay;
    var t := s.(files := s.files.Remove(name, true));
    assert NameOk(s, name);
    assert forall n :: WasRemoved(t.files.log, n) <==> WasRemoved(s.files.log, n) || n == name;
    forall w | w in t.writers ensures TempOk(t, w) { assert TempOk(s, w); }
  }

  lemma LogExtended(s: State, t: State, event: Event)
    requires LogOk(s) && t.writers == s.writers && t.files.log == s.files.log + [event] && event.Removed?
    ensures LogOk(t)
  {
    hide FileName;
    forall k | 0 <= k < |t.files.log| && t.files.log[k].Stored? ensures WroteIt(t, t.files.log[k]) {
      assert WroteIt(s, s.files.log[k]);
    }
    forall w | w in t.writers && t.writers[w].pc == Success ensures Logged(t.files.log, w) {
      var k :| 0 <= k < |s.files.log| && s.files.log[k].Stored? && s.files.log[k].writer == w;
      assert t.files.log[k] == s.files.log[k];
    }
  }

  lemma DeleteKeeps(s: State, key: Key, ok: bool)
    requires Inv(s) && Enabled(s, Delete(key, ok))
    ensures Inv(Next(s, Delete(key, ok)))
  {
    hide Record, Replay, FileName, ReaderOk, CleanerOk, NumberOk, WriterOk, NameOk, LogOk, TempsOk, NumbersOk;
    var t := s.(targets := s.targets + {FileName(key)});
    SameFiles(s, t);
    RemoveKeeps(t, FileName(key), ok);
  }

  lemma UnlinkKeeps(s: State, c: Id, ok: bool)
    requires Inv(s) && Enabled(s, Unlink(c, ok))
    ensures Inv(Next(s, Unlink(c, ok)))
  {
    hide Record, Replay, FileName, ReaderOk, WriterOk, NameOk, LogOk, Frozen, TempsOk, NumbersOk, NamesOk, WritersOk;
    hide Files.Remove;
    var t := s.(files := s.files.Remove(s.cleaners[c].name, ok));
    RemoveKeeps(s, s.cleaners[c].name, ok);
    assert CleanerOk(t, t.cleaners[c]) && NumberOk(t, t.cleaners[c]);
    CleanerMoves(t, c, t.cleaners[c].(pc := Over));
  }

  /** The writer gives up: its file will be dropped, has been, or could not be. */
  lemma WriterGivesUp(s: State, w: Id, pc: WriterPc)
    requires Inv(s) && Busy(s, w)
    requires pc == Dropping || pc == Leak || (pc == Failure && s.writers[w].temp !in s.files.dir)
    ensures Inv(PutWriter(s, w, s.writers[w].(pc := pc)))
  {
    hide Record, Replay, FileName, ReaderOk, CleanerOk, NumberOk, WriterOk, NameOk, LogOk, TempsOk;
    var t := PutWriter(s, w, s.writers[w].(pc := pc));
    assert WriterOk(s, w);
    assert forall i :: Frozen(s, i) ==> Frozen(t, i);
    GivingUpKeepsWriters(s, w, pc);
    GivingUpKeepsNames(s, w, pc);
    GivingUpKeepsTemps(s, w, pc);
    LogFrame(s, t);
    OthersKeep(s, t);
  }

  lemma GivingUpKeepsTemps(s: State, w: Id, pc: WriterPc)
    requires TempsOk(s) && Busy(s, w)
    requires pc == Dropping || pc == Leak || (pc == Failure && s.writers[w].temp !in s.files.dir)
    ensures TempsOk(PutWriter(s, w, s.writers[w].(pc := pc)))
  {
  }

  lemma GivingUpKeepsWriters(s: State, w: Id, pc: WriterPc)
    requires WritersOk(s) && Busy(s, w) && (pc == Dropping || pc == Failure || pc == Leak)
    ensures WritersOk(PutWriter(s, w, s.writers[w].(pc := pc)))
  {
  }

  lemma GivingUpKeepsNames(s: State, w: Id, pc: WriterPc)
    requires NamesOk(s) && WritersOk(s) && Busy(s, w)
    requires pc == Dropping || pc == Leak || (pc == Failure && s.writers[w].temp !in s.files.dir)
    ensures NamesOk(PutWriter(s, w, s.writers[w].(pc := pc)))
  {
    hide Record, Replay, FileName;
    var t := PutWriter(s, w, s.writers[w].(pc := pc));
    assert forall i :: Frozen(s, i) ==> Frozen(t, i);
    forall n | n in t.files.dir ensures NameOk(t, n) {
      assert NameOk(s, n);
      if n in s.temps { assert WriterOk(s, s.temps[n]); }
    }
  }

  lemma DropTempKeeps(s: State, w: Id, ok: bool)
    requires Inv(s) && Enabled(s, DropTemp(w, ok))
    ensures Inv(Next(s, DropTemp(w, ok)))
  {
    hide Inv;
    var temp := s.writers[w].temp;
    var t := s.(files := s.files.Remove(temp, ok));
    RemoveKeeps(s, temp, ok);
    WriterGivesUp(t, w, if temp in t.files.dir then Leak else Failure);
  }

  lemma CreateKeeps(s: State, w: Id, e: Entry, rnd: string, number: nat)
    requires Inv(s) && Enabled(s, Create(w, e, rnd, number))
    ensures Inv(Next(s, Create(w, e, rnd, number)))
  {
    hide Record, Replay, FileName, TempName, ReaderOk, CleanerOk, NumberOk, NameOk, LogOk, TempsOk, NumbersOk;
    hide WritersOk, Evolves;
    var temp := TempName(FileName(e.key), rnd);
    TempIsNoTarget(FileName(e.key), rnd);
    CreateEvolves(s, w, e, temp, number);
    CreateKeepsWriters(s, w, e, temp, number);
    CreateKeepsNames(s, w, e, temp, number);
    CreateKeepsTemps(s, w, e, temp, number);
    CreateKeepsNumbers(s, w, e, temp, number);
    LogFrame(s, Created(s, w, e, temp, number));
    OthersKeep(s, Created(s, w, e, temp, number));
  }

  lemma CreateEvolves(s: State, w: Id, e: Entry, temp: string, number: nat)
    requires NumbersOk(s) && w !in s.writers && temp !in s.temps && temp !in s.targets
    ensures Evolves(s, Created(s, w, e, temp, number))
  {
  }

  lemma CreateKeepsNumbers(s: State, w: Id, e: Entry, temp: string, number: nat)
    requires NumbersOk(s) && forall n :: n in s.files.dir ==> s.files.Number(s.files.dir[n]) != number
    ensures NumbersOk(Created(s, w, e, temp, number))
  {
  }

  lemma CreateKeepsTemps(s: State, w: Id, e: Entry, temp: string, number: nat)
    requires TempsOk(s) && WritersOk(s) && w !in s.writers && temp !in s.temps && temp !in s.targets
    ensures TempsOk(Created(s, w, e, temp, number))
  {
    hide FileName, Record;
    var t := Created(s, w, e, temp, number);
    forall v | v in t.writers ensures TempOk(t, v) {
      if v != w { assert TempOk(s, v) && WriterOk(s, v); }
    }
  }

  lemma TempIsNoTarget(target: string, rnd: string)
    ensures TempName(target, rnd) != target
  {
  }

  lemma CreateKeepsWriters(s: State, w: Id, e: Entry, temp: string, number: nat)
    requires WritersOk(s) && w !in s.writers && temp !in s.temps
    ensures WritersOk(Created(s, w, e, temp, number))
  {
    hide Record, FileName;
    var t := Created(s, w, e, temp, number);
    assert forall v :: Busy(t, v) <==> Busy(s, v) || v == w;
    forall v | v in t.writers ensures WriterOk(t, v) {
      if v != w { assert WriterOk(s, v); }
      forall u | Busy(t, u) && Busy(t, v) && t.writers[u].file == t.writers[v].file ensures u == v {
        if u != w { assert WriterOk(s, u); }
      }
    }
  }

  lemma CreateKeepsNames(s: State, w: Id, e: Entry, temp: string, number: nat)
    requires NamesOk(s) && w !in s.writers && temp !in s.temps && temp !in s.targets && FileName(e.key) !in s.temps
    requires FileName(e.key) != temp
    ensures NamesOk(Created(s, w, e, temp, number))
  {
    hide Record, Replay, FileName, NameOk;
    var t := Created(s, w, e, temp, number);
    forall n | n in t.files.dir ensures NameOk(t, n) {
      if n != temp { CreateKeepsOthers(s, w, e, temp, number, n); } else { CreatedNameOk(s, w, e, temp, number); }
    }
    forall n | n in Replay(t.files.log) ensures n != temp { KnownName(s, n); }
  }

  lemma KnownName(s: State, n: string)
    requires NamesOk(s) && n in Replay(s.files.log)
    ensures n in s.files.dir && n in s.targets
  {
    hide Replay;
    assert NameOk(s, n);
  }

  lemma CreatedNameOk(s: State, w: Id, e: Entry, temp: string, number: nat)
    ensures NameOk(Created(s, w, e, temp, number), temp)
  {
    hide Replay, FileName, Record;
  }

  lemma CreateKeepsOthers(s: State, w: Id, e: Entry, temp: string, number: nat, n: string)
    requires w !in s.writers && temp !in s.temps && n in s.files.dir && n != temp && NameOk(s, n)
    ensures NameOk(Created(s, w, e, temp, number), n)
  {
    hide Record, Replay, FileName;
    var t := Created(s, w, e, temp, number);
    assert forall i :: Frozen(s, i) ==> Frozen(t, i);
  }

  lemma WriteKeeps(s: State, w: Id, upto: nat)
    requires Inv(s) && Enabled(s, Write(w, upto))
    ensures Inv(Next(s, Write(w, upto)))
  {
    hide Record, Replay, FileName, ReaderOk, CleanerOk, NumberOk, NameOk, LogOk, TempsOk, WritersOk, Evolves;
    WriteEvolves(s, w, upto);
    WriteKeepsWriters(s, w, upto);
    WriteKeepsNames(s, w, upto);
    WriteKeepsTemps(s, w, upto);
    LogFrame(s, Next(s, Write(w, upto)));
    OthersKeep(s, Next(s, Write(w, upto)));
  }

  lemma WriteEvolves(s: State, w: Id, upto: nat)
    requires NumbersOk(s) && Enabled(s, Write(w, upto))
    ensures Evolves(s, Next(s, Write(w, upto)))
  {
  }

  lemma WriteKeepsWriters(s: State, w: Id, upto: nat)
    requires WritersOk(s) && Enabled(s, Write(w, upto))
    ensures WritersOk(Next(s, Write(w, upto)))
  {
    hide Record, FileName;
    var t := Next(s, Write(w, upto));
    assert forall v :: Busy(t, v) <==> Busy(s, v);
    assert WriterOk(s, w);
    forall v | v in t.writers ensures WriterOk(t, v) { assert WriterOk(s, v); }
  }

  lemma WriteKeepsTemps(s: State, w: Id, upto: nat)
    requires TempsOk(s) && Enabled(s, Write(w, upto))
    ensures TempsOk(Next(s, Write(w, upto)))
  {
  }

  lemma WriteKeepsNames(s: State, w: Id, upto: nat)
    requires NamesOk(s) && Enabled(s, Write(w, upto))
    ensures NamesOk(Next(s, Write(w, upto)))
  {
    hide Record, Replay, FileName;
    var t := Next(s, Write(w, upto));
    assert forall i :: Frozen(s, i) ==> Frozen(t, i) && t.files.Content(i) == s.files.Content(i);
    forall n | n in t.files.dir ensures NameOk(t, n) { assert NameOk(s, n); }
  }

  /** The rename succeeds. */
  ghost predicate Renames(s: State, w: Id) { WriterAt(s, w, Complete) && s.writers[w].temp in s.files.dir }

  lemma RenameKeeps(s: State, w: Id, ok: bool)
    requires Inv(s) && Enabled(s, Rename(w, ok))
    ensures Inv(Next(s, Rename(w, ok)))
  {
    hide TempsOk, NumberOk, Record, Replay, FileName, ReaderOk, CleanerOk, WriterOk, NameOk, LogOk;
    if ok && Renames(s, w) {
      RenameEvolves(s, w);
      RenameKeepsWriters(s, w);
      RenameKeepsNames(s, w);
      RenameKeepsTemps(s, w);
      RenameKeepsLog(s, w);
      OthersKeep(s, Next(s, Rename(w, true)));
    } else {
      WriterGivesUp(s, w, Dropping);
    }
  }

  lemma RenameEvolves(s: State, w: Id)
    requires WritersOk(s) && Renames(s, w)
    ensures Evolves(s, Renamed(s, w, s.writers[w], true))
  {
    hide Record, Replay, FileName;
    var t := Renamed(s, w, s.writers[w], true);
    assert forall v :: Busy(t, v) ==> Busy(s, v);
    assert forall i :: Frozen(s, i) ==> Frozen(t, i);
    var name := FileName(s.writers[w].entry.key);
    assert t.files.log[|s.files.log|] == Stored(name, s.writers[w].entry, w);
    assert StoredSince(t.files.log, name, |s.files.log|);
  }

  lemma RenameKeepsWriters(s: State, w: Id)
    requires WritersOk(s) && Renames(s, w)
    ensures WritersOk(Renamed(s, w, s.writers[w], true))
  {
  }

  lemma WriterNames(s: State, w: Id)
    requires w in s.writers && WriterOk(s, w)
    ensures s.writers[w].temp in s.temps && s.temps[s.writers[w].temp] == w
    ensures FileName(s.writers[w].entry.key) in s.targets
  {
  }

  lemma RenameKeepsTemps(s: State, w: Id)
    requires TempsOk(s) && WritersOk(s) && NamesOk(s) && Renames(s, w)
    ensures TempsOk(Renamed(s, w, s.writers[w], true))
  {
    hide Record, Replay, FileName, WriterOk, NameOk;
    var t := Renamed(s, w, s.writers[w], true);
    WriterNames(s, w);
    assert forall n :: WasRemoved(t.files.log, n) <==> WasRemoved(s.files.log, n);
    hide WasRemoved;
    forall v | v in t.writers ensures TempOk(t, v) {
      assert TempOk(s, v);
      WriterNames(s, v);
    }
  }

  lemma RenameKeepsNames(s: State, w: Id)
    requires NamesOk(s) && WritersOk(s) && Renames(s, w)
    ensures NamesOk(Renamed(s, w, s.writers[w], true))
  {
    hide Record, Replay, FileName;
    var t := Renamed(s, w, s.writers[w], true);
    var e := s.writers[w].entry;
    ReplayNext(s.files.log, Stored(FileName(e.key), e, w));
    assert forall v :: Busy(t, v) <==> Busy(s, v) && v != w;
    assert WriterOk(s, w) && NameOk(s, s.writers[w].temp);
    assert Holds(t, s.writers[w].file, e) && NameOk(t, FileName(e.key));
    forall n | n in t.files.dir && n != FileName(e.key) ensures NameOk(t, n) { RenameKeepsOthers(s, w, n); }
  }

  lemma RenameKeepsOthers(s: State, w: Id, n: string)
    requires WritersOk(s) && Renames(s, w) && n in s.files.dir && NameOk(s, n)
    requires n != s.writers[w].temp && n != FileName(s.writers[w].entry.key)
    ensures NameOk(Renamed(s, w, s.writers[w], true), n)
  {
    hide Record, Replay, FileName;
    var t := Renamed(s, w, s.writers[w], true);
    ReplayNext(s.files.log, Stored(FileName(s.writers[w].entry.key), s.writers[w].entry, w));
    assert forall v :: Busy(t, v) ==> Busy(s, v);
    if n in s.temps {
      assert s.temps[n] != w;
    } else {
      assert forall i :: Frozen(s, i) ==> Frozen(t, i);
    }
  }

  lemma RenameKeepsLog(s: State, w: Id)
    requires LogOk(s) && Renames(s, w)
    ensures LogOk(Renamed(s, w, s.writers[w], true))
  {
    hide Record, FileName;
    var t := Renamed(s, w, s.writers[w], true);
    var n := |s.files.log|;
    forall k | 0 <= k < n && s.files.log[k].Stored?
      ensures t.files.log[k] == s.files.log[k] && s.files.log[k].writer != w
    {
      assert WroteIt(s, s.files.log[k]);
    }
    forall k | 0 <= k <= n && t.files.log[k].Stored? ensures WroteIt(t, t.files.log[k]) {
      if k < n { assert WroteIt(s, s.files.log[k]); }
    }
    forall v | v in t.writers && t.writers[v].pc == Success ensures Logged(t.files.log, v) {
      if v == w {
        assert t.files.log[n].writer == w;
      } else {
        assert Logged(s.files.log, v);
        var k :| 0 <= k < n && s.files.log[k].Stored? && s.files.log[k].writer == v;
        assert t.files.log[k].writer == v;
      }
    }
  }

  // ---- every step, every run ----

  lemma StepKeeps(s: State, step: Step)
    requires Inv(s) && Enabled(s, step)
    ensures Inv(Next(s, step))
  {
    hide Inv, Next;
    match step
    case Delete(key, ok) => DeleteKeeps(s, key, ok);
    case Create(w, e, rnd, number) => CreateKeeps(s, w, e, rnd, number);
    case Write(w, upto) => WriteKeeps(s, w, upto);
    case WriteError(w) => WriteErrorKeeps(s, w);
    case Rename(w, ok) => RenameKeeps(s, w, ok);
    case DropTemp(w, ok) => DropTempKeeps(s, w, ok);
    case Look(r, key, ok) => LookKeeps(s, r, key, ok);
    case Open(r, ok) => OpenKeeps(s, r, ok);
    case Size(r) => ReadKeeps(s, r, step, 0);
    case ReadHeader(r) => ReadKeeps(s, r, step, 0);
    case Check(r, now) => ReadKeeps(s, r, step, now);
    case ReadValue(r) => ReadKeeps(s, r, step, 0);
    case ReadError(r) => ReadErrorKeeps(s, r);
    case Inspect(c, name) => InspectKeeps(s, c, name);
    case Judge(c, now, failed) => JudgeKeeps(s, c, now, failed);
    case Same(c, known) => SameKeeps(s, c, known);
    case Unlink(c, ok) => UnlinkKeeps(s, c, ok);
  }

  lemma WriteErrorKeeps(s: State, w: Id)
    requires Inv(s) && Enabled(s, WriteError(w))
    ensures Inv(Next(s, WriteError(w)))
  {
    hide Inv;
    WriterGivesUp(s, w, Dropping);
  }

  lemma {:induction false} RunKeeps(s: State, steps: seq<Step>)
    requires Inv(s) && IsRun(s, steps)
    ensures Inv(Run(s, steps))
    decreases |steps|
  {
    hide Inv, Enabled, Next;
    if steps != [] {
      StepKeeps(s, steps[0]);
      RunKeeps(Next(s, steps[0]), steps[1..]);
    }
  }

  lemma Reachable(steps: seq<Step>)
    requires IsRun(INITIAL, steps)
    ensures Inv(Run(INITIAL, steps))
  {
    hide Enabled, Next;
    RunKeeps(INITIAL, steps);
  }

  // ---- what that means ----

  /**
   * Whatever the interleaving: a read's outcome is what the cache held under its key at the moment it
   * looked up the file name, judged at the time of its expiry check - unless looking up or opening the
   * file failed, which counts as a miss, or reading it did, which is reported. So a hit is the complete
   * value of the latest rename for that very key, not removed since, unexpired.
   */
  lemma ReadsAreRight(steps: seq<Step>, r: Id)
    requires IsRun(INITIAL, steps)
    requires var s := Run(INITIAL, steps); r in s.readers && s.readers[r].pc.Finished?
    ensures var s := Run(INITIAL, steps); var x := s.readers[r];
            && x.since <= |s.files.log|
            && IsAnswer(x, x.pc.outcome, Lookup(Replay(s.files.log[..x.since]), FileName(x.key), x.pc.now))
  {
    Reachable(steps);
    assert ReaderOk(Run(INITIAL, steps), Run(INITIAL, steps).readers[r]);
  }

  /** Of the first `since` events number k is the last one on this name. */
  ghost predicate IsLast(log: seq<Event>, since: nat, n: string, k: int) {
    0 <= k < since <= |log| && log[k].name == n && forall j :: k < j < since ==> log[j].name != n
  }

  lemma {:induction false} LastEventDecides(log: seq<Event>, n: string, k: nat)
    requires k < |log| && log[k].name == n && forall j :: k < j < |log| ==> log[j].name != n
    ensures n in Replay(log) <==> log[k].Stored?
    ensures log[k].Stored? ==> Replay(log)[n] == log[k].entry
    decreases |log|
  {
    if k < |log| - 1 { LastEventDecides(log[..|log| - 1], n, k); }
  }

  /**
   * A read without errors, seen from the events alone: the value last stored under its name comes back,
   * unless it has expired or is too long to be read; that is a miss or a failure. Nothing stored is a miss.
   */
  lemma ReadsFromTheLog(steps: seq<Step>, r: Id)
    requires IsRun(INITIAL, steps)
    requires var s := Run(INITIAL, steps); r in s.readers && s.readers[r].pc.Finished?
    requires var x := Run(INITIAL, steps).readers[r]; !x.lookFailed && !x.ioError
    ensures var s := Run(INITIAL, steps); var x := s.readers[r]; var n := FileName(x.key);
            && x.since <= |s.files.log|
            && (forall k, e, w :: IsLast(s.files.log, x.since, n, k) && s.files.log[k] == Stored(n, e, w) ==>
                  x.pc.outcome == if |e.value| + 1 > 16 * 1024 * 1024 then Broken
                                  else if x.pc.now < e.expiry then Hit(e.value) else Miss)
            && ((forall k :: IsLast(s.files.log, x.since, n, k) ==> s.files.log[k].Removed?) ==> x.pc.outcome == Miss)
  {
    hide Run, IsRun, Replay, FileName;
    ReadsAreRight(steps, r);
    var s, x := Run(INITIAL, steps), Run(INITIAL, steps).readers[r];
    var log, n := s.files.log[..x.since], FileName(x.key);
    forall k, e, w | IsLast(s.files.log, x.since, n, k) && s.files.log[k] == Stored(n, e, w)
      ensures n in Replay(log) && Replay(log)[n] == e
    {
      assert log[k] == s.files.log[k];
      LastEventDecides(log, n, k);
    }
    if n in Replay(log) {
      var k := LatestStore(log, n);
      assert log[k] == s.files.log[k] && forall j :: k < j < x.since ==> log[j] == s.files.log[j];
      assert IsLast(s.files.log, x.since, n, k);
    }
  }

  /** In particular the value was stored under the reader's own key by a writer that completed its record. */
  lemma HitsAreWhole(steps: seq<Step>, r: Id)
    requires IsRun(INITIAL, steps)
    requires var s := Run(INITIAL, steps); r in s.readers && s.readers[r].pc.Finished? && s.readers[r].pc.outcome.Hit?
    ensures var s := Run(INITIAL, steps); var x := s.readers[r];
            exists k, e, w :: 0 <= k < x.since <= |s.files.log| && s.files.log[k] == Stored(FileName(x.key), e, w)
              && (forall j :: k < j < x.since ==> s.files.log[j].name != FileName(x.key))
              && e.key == x.key && x.pc.outcome == Hit(e.value) && x.pc.now < e.expiry
  {
    Reachable(steps);
    HitIsWhole(Run(INITIAL, steps), Run(INITIAL, steps).readers[r]);
  }

  lemma HitIsWhole(s: State, x: Reader)
    requires LogOk(s) && ReaderOk(s, x) && x.pc.Finished? && x.pc.outcome.Hit?
    ensures exists k, e, w :: 0 <= k < x.since <= |s.files.log| && s.files.log[k] == Stored(FileName(x.key), e, w)
              && (forall j :: k < j < x.since ==> s.files.log[j].name != FileName(x.key))
              && e.key == x.key && x.pc.outcome == Hit(e.value) && x.pc.now < e.expiry
  {
    hide Replay, FileName;
    var k := LatestStore(s.files.log[..x.since], FileName(x.key));
    var event := s.files.log[k];
    assert WroteIt(s, event);
    FileNameInjective(x.key, event.entry.key);
    forall j | k < j < x.since ensures s.files.log[j].name != FileName(x.key) {
      assert s.files.log[..x.since][j] == s.files.log[j];
    }
    assert s.files.log[k] == Stored(FileName(x.key), event.entry, event.writer);
  }

  /** What is replayed for a name is what its latest event stored. */
  lemma {:induction false} LatestStore(log: seq<Event>, n: string) returns (k: nat)
    requires n in Replay(log)
    ensures k < |log| && log[k].Stored? && log[k].name == n && log[k].entry == Replay(log)[n]
    ensures forall j :: k < j < |log| ==> log[j].name != n
    decreases |log|
  {
    if log[|log| - 1].name == n {
      k := |log| - 1;
    } else {
      k := LatestStore(log[..|log| - 1], n);
    }
  }

  /** A writer that reports success has stored its entry exactly once, any other one not at all. */
  lemma StoredIffReported(steps: seq<Step>, w: Id)
    requires IsRun(INITIAL, steps) && w in Run(INITIAL, steps).writers
    ensures var s := Run(INITIAL, steps);
            && (Logged(s.files.log, w) <==> s.writers[w].pc == Success)
            && (forall j, k :: 0 <= j < k < |s.files.log| && s.files.log[j].Stored? && s.files.log[k].Stored?
                  ==> s.files.log[j].writer != w || s.files.log[k].writer != w)
  {
    Reachable(steps);
    var s := Run(INITIAL, steps);
    if Logged(s.files.log, w) {
      var k :| 0 <= k < |s.files.log| && s.files.log[k].Stored? && s.files.log[k].writer == w;
      assert WroteIt(s, s.files.log[k]);
    }
  }

  /** What a writer's own removal of its temporary file leaves behind. */
  lemma {:induction false} DropHistory(s: State, steps: seq<Step>, w: Id)
    requires Inv(s) && IsRun(s, steps) && w in s.writers
    ensures w in Run(s, steps).writers
    ensures s.writers[w].pc in {Success, Failure, Leak} ==> Run(s, steps).writers[w].pc == s.writers[w].pc
    ensures (exists ok :: DropTemp(w, ok) in steps) ==> Run(s, steps).writers[w].pc in {Failure, Leak}
    ensures Run(s, steps).writers[w].pc == Leak ==> s.writers[w].pc == Leak || DropTemp(w, false) in steps
    decreases |steps|
  {
    hide Inv, Record, FileName, TempName;
    if steps != [] {
      var t := Next(s, steps[0]);
      StepKeeps(s, steps[0]);
      WriterStep(s, steps[0], w);
      DropHistory(t, steps[1..], w);
      if ok :| DropTemp(w, ok) in steps && DropTemp(w, ok) !in steps[1..] {
        assert steps[0] == DropTemp(w, ok);
      }
    }
  }

  lemma WriterStep(s: State, step: Step, w: Id)
    requires Enabled(s, step) && w in s.writers
    ensures w in Next(s, step).writers
    ensures s.writers[w].pc in {Success, Failure, Leak} ==> Next(s, step).writers[w] == s.writers[w]
    ensures (exists ok :: step == DropTemp(w, ok)) ==> Next(s, step).writers[w].pc in {Failure, Leak}
    ensures Next(s, step).writers[w].pc == Leak ==> s.writers[w].pc == Leak || step == DropTemp(w, false)
  {
    hide Record, FileName, TempName, AfterRead, Opened, Judged, Compared, Files.Remove;
  }

  lemma {:induction false} CreatedOnce(s: State, steps: seq<Step>, w: Id)
    requires Inv(s) && IsRun(s, steps) && w in Run(s, steps).writers && w !in s.writers
    ensures Run(s, steps).writers[w].pc == Leak ==> DropTemp(w, false) in steps
    ensures (exists ok :: DropTemp(w, ok) in steps) ==> Run(s, steps).writers[w].pc in {Failure, Leak}
    decreases |steps|
  {
    hide Inv, Record, FileName, TempName;
    if steps != [] {
      var t := Next(s, steps[0]);
      StepKeeps(s, steps[0]);
      NewWriter(s, steps[0], w);
      if w in t.writers { DropHistory(t, steps[1..], w); } else { CreatedOnce(t, steps[1..], w); }
      if ok :| DropTemp(w, ok) in steps { assert DropTemp(w, ok) in steps[1..]; }
    }
  }

  lemma NewWriter(s: State, step: Step, w: Id)
    requires Enabled(s, step) && w !in s.writers
    ensures forall ok :: step != DropTemp(w, ok)
    ensures w in Next(s, step).writers ==> Next(s, step).writers[w].pc == Writing
  {
    hide Record, FileName, TempName, AfterRead, Opened, Judged, Compared, Files.Remove;
  }

  /**
   * A temporary file is in the directory exactly as long as its writer is at work or tried in vain to
   * remove it, and nobody else removed it. Everything else in the directory is an entry of the cache, and
   * all of them are.
   */
  lemma TempsThatRemain(steps: seq<Step>, n: string)
    requires IsRun(INITIAL, steps)
    ensures var s := Run(INITIAL, steps);
            && (n in s.temps ==>
                  s.temps[n] in s.writers
                  && (n in s.files.dir <==>
                        (Busy(s, s.temps[n]) || DropTemp(s.temps[n], false) in steps) && !WasRemoved(s.files.log, n)))
            && (n !in s.temps ==> (n in s.files.dir <==> n in Replay(s.files.log)))
  {
    hide Replay, FileName, Record;
    Reachable(steps);
    var s := Run(INITIAL, steps);
    if n in s.files.dir { assert NameOk(s, n); }
    if n in s.temps {
      assert TempOk(s, s.temps[n]);
      NothingAtFirst();
      CreatedOnce(INITIAL, steps, s.temps[n]);
    }
  }

  lemma NothingAtFirst()
    ensures Inv(INITIAL)
  {
  }

  /** A file that was made after the cleaner opened its own got that one's number, and now has that one's name. */
  ghost predicate Reused(s: State, x: Cleaner) {
    && x.name in s.files.dir && s.files.dir[x.name] >= x.seen
    && s.files.Number(s.files.dir[x.name]) == s.files.Number(x.file)
  }

  /** A removal by name that succeeds: the name is neither in the directory nor among the entries, and others stay. */
  ghost predicate IsGone(s: State, t: State, n: string) {
    && n !in t.files.dir && n !in Replay(t.files.log)
    && forall m :: m != n ==>
         && (m in t.files.dir <==> m in s.files.dir)
         && (m in Replay(t.files.log) <==> m in Replay(s.files.log))
  }

  lemma RemovedIsGone(s: State, t: State, n: string)
    requires Inv(s) && n !in s.temps && t.files == s.files.Remove(n, true)
    ensures IsGone(s, t, n)
  {
    hide Record, FileName, OthersOk, WritersOk, LogOk, NumbersOk, TempsOk;
    if n in s.files.dir { ReplayNext(s.files.log, Removed(n)); }
  }

  /** A delete removes the entry of its key and no other. */
  lemma DeleteRemoves(steps: seq<Step>, key: Key)
    requires IsRun(INITIAL, steps) && Enabled(Run(INITIAL, steps), Delete(key, true))
    ensures var s := Run(INITIAL, steps); IsGone(s, Next(s, Delete(key, true)), FileName(key))
  {
    hide Inv, Run, IsRun, Replay, FileName;
    Reachable(steps);
    RemovedIsGone(Run(INITIAL, steps), Next(Run(INITIAL, steps), Delete(key, true)), FileName(key));
  }

  /** So does a cleaner that comes to unlinking the name of a cache file. */
  lemma UnlinkRemoves(steps: seq<Step>, c: Id)
    requires IsRun(INITIAL, steps) && Enabled(Run(INITIAL, steps), Unlink(c, true))
    requires Run(INITIAL, steps).cleaners[c].name !in Run(INITIAL, steps).temps
    ensures var s := Run(INITIAL, steps); IsGone(s, Next(s, Unlink(c, true)), s.cleaners[c].name)
  {
    hide Inv, Run, IsRun, Replay, FileName;
    Reachable(steps);
    var s := Run(INITIAL, steps);
    RemovedIsGone(s, Next(s, Unlink(c, true)), s.cleaners[c].name);
  }

  /** A cleaner that has condemned a file comes to that exactly if the name still stands for a file with its number. */
  lemma RemovesIff(s: State, c: Id, known: bool)
    requires Enabled(s, Same(c, known))
    ensures var x, t := s.cleaners[c], Next(s, Same(c, known));
            Enabled(t, Unlink(c, true)) <==>
            !known || (x.name in s.files.dir && s.files.Number(s.files.dir[x.name]) == s.files.Number(x.file))
  {
  }

  /** A cleaner condemns a complete cache file exactly if it cannot read it or finds it expired. */
  lemma CondemnedIff(steps: seq<Step>, c: Id, now: int, failed: bool) returns (e: Entry)
    requires IsRun(INITIAL, steps) && Enabled(Run(INITIAL, steps), Judge(c, now, failed))
    requires Run(INITIAL, steps).cleaners[c].name !in Run(INITIAL, steps).temps
    ensures var s := Run(INITIAL, steps); Inspected(s, s.cleaners[c], e)
    ensures Next(Run(INITIAL, steps), Judge(c, now, failed)).cleaners[c].pc.Condemned? <==> failed || now >= e.expiry
  {
    hide Inv, CleanerOk, Run, IsRun;
    Reachable(steps);
    e := InspectedEntry(Run(INITIAL, steps), c);
    JudgedIff(Run(INITIAL, steps).files, Run(INITIAL, steps).cleaners[c], e, now, failed);
  }

  /** The cleaner's file holds e, and if its name still stands for it, e is what the cache holds. */
  ghost predicate Inspected(s: State, x: Cleaner, e: Entry) {
    var m := Replay(s.files.log);
    && s.files.Content(x.file) == Record(e)
    && (x.name in m && x.name in s.files.dir && s.files.dir[x.name] == x.file ==> m[x.name] == e)
  }

  lemma InspectedEntry(s: State, c: Id) returns (e: Entry)
    requires Inv(s) && c in s.cleaners && s.cleaners[c].name !in s.temps
    ensures Inspected(s, s.cleaners[c], e)
  {
    hide Record, TempsOk, WritersOk, NumbersOk, LogOk, Replay, FileName;
    var x := s.cleaners[c];
    assert CleanerOk(s, x);
    if x.name in s.files.dir && s.files.dir[x.name] == x.file {
      assert NameOk(s, x.name);
      e := Replay(s.files.log)[x.name];
    } else {
      e :| Holds(s, x.file, e);
    }
  }

  lemma JudgedIff(f: Files, x: Cleaner, e: Entry, now: int, failed: bool)
    requires f.Content(x.file) == Record(e)
    ensures Judged(f, x, now, failed).pc.Condemned? <==> failed || now >= e.expiry
  {
    RecordReadsBack(e);
  }

  /**
   * A cleaner about to unlink a cache file, on a platform that tells files apart: the entry had expired
   * when it was judged, or its header could not be read, or it was stored after the cleaner's last look at
   * the name, or the system gave the number of the inspected file to the later one.
   */
  lemma CleanerSparesTheLiving(steps: seq<Step>, c: Id)
    requires IsRun(INITIAL, steps)
    requires var s := Run(INITIAL, steps); c in s.cleaners && s.cleaners[c].pc.Removing? && s.cleaners[c].pc.known
    ensures var s := Run(INITIAL, steps); var x := s.cleaners[c]; var m := Replay(s.files.log);
            x.name in m ==>
              || m[x.name].expiry <= x.pc.now || x.pc.failed
              || StoredSince(s.files.log, x.name, x.pc.since) || Reused(s, x)
  {
    hide Record, TempsOk, WritersOk, NumbersOk, LogOk;
    Reachable(steps);
    var s := Run(INITIAL, steps);
    var x := s.cleaners[c];
    var m := Replay(s.files.log);
    assert CleanerOk(s, x) && NumberOk(s, x);
    if x.name in m && !StoredSince(s.files.log, x.name, x.pc.since) && !Reused(s, x) {
      assert NameOk(s, x.name);
      assert s.files.dir[x.name] == x.file;
      var e :| Holds(s, x.file, e) && Condemns(x, e);
      RecordReadsBack(e);
      RecordReadsBack(m[x.name]);
    }
  }
}
