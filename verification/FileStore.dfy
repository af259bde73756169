/**
 * The file cache as a protocol: any number of writers, readers and cleaners (threads of any number of
 * processes) interleave their file operations on one directory. Locks are advisory and their results
 * ignored, so no step relies on them; clocks are read, and I/O errors strike, at any step.
 */
module FileStore {
  import opened FileFormat

  type File = nat
  type Id = nat

  /** What happened to a file name: a writer renamed its finished file to it, or it was removed. */
  datatype Event = Stored(name: string, entry: Entry, writer: Id) | Removed(name: string)

  /**
   * The directory, the contents of the files (counted as they are made), the inode numbers that the system
   * gave them, and what happened so far.
   */
  datatype Files = Files(dir: map<string, File>, disk: map<File, string>, numbers: map<File, nat>, made: nat,
                         log: seq<Event>)
  {
    function Content(i: File): string { if i in disk then disk[i] else "" }

    function Number(i: File): nat { if i in numbers then numbers[i] else 0 }

    /** Removing a name may fail, and does when there is no such name. */
    function Remove(name: string, ok: bool): Files {
      if ok && name in dir then this.(dir := dir - {name}, log := log + [Removed(name)]) else this
    }
  }

  /** Success: the entry is in place; Failure: it is not; Leak: nor could the temporary file be removed. */
  datatype WriterPc = Writing | Complete | Dropping | Success | Failure | Leak

  datatype Writer = Writer(entry: Entry, temp: string, file: File, pc: WriterPc)

  datatype Outcome = Hit(value: string) | Miss | Broken

  datatype ReaderPc =
    | Opening
    | Sizing(file: File)
    | ReadingHeader(file: File, size: nat)
    | Checking(file: File, size: nat, len: nat, expire: int)
    | ReadingValue(file: File, len: nat, now: int)
    | Finished(outcome: Outcome, now: int)

  /**
   * since counts the events before the reader last looked up its file name; lookFailed says that this failed
   * though the file may be there, ioError that reading did.
   */
  datatype Reader = Reader(key: Key, since: nat, lookFailed: bool, ioError: bool, pc: ReaderPc)

  /**
   * failed: reading the header failed; known: the platform can tell files apart; since counts the events
   * before the last look at the name.
   */
  datatype CleanerPc =
    | Inspecting
    | Condemned(now: int, failed: bool)
    | Removing(now: int, failed: bool, known: bool, since: nat)
    | Over

  /** seen counts the files made before the cleaner opened this one. */
  datatype Cleaner = Cleaner(name: string, file: File, seen: nat, pc: CleanerPc)

  /** temps says which writer made up which temporary name, targets holds the file names asked for. */
  datatype State = State(files: Files, writers: map<Id, Writer>, readers: map<Id, Reader>, cleaners: map<Id, Cleaner>,
                         temps: map<string, Id>, targets: set<string>)

  const INITIAL := State(Files(map[], map[], map[], 0, []), map[], map[], map[], map[], {})

  datatype Step =
    | Delete(key: Key, ok: bool)
    | Create(w: Id, entry: Entry, rnd: string, number: nat)
    | Write(w: Id, upto: nat)
    | WriteError(w: Id)
    | Rename(w: Id, ok: bool)
    | DropTemp(w: Id, ok: bool)
    | Look(r: Id, key: Key, ok: bool)
    | Open(r: Id, ok: bool)
    | Size(r: Id)
    | ReadHeader(r: Id)
    | Check(r: Id, now: int)
    | ReadValue(r: Id)
    | ReadError(r: Id)
    | Inspect(c: Id, name: string)
    | Judge(c: Id, now: int, failed: bool)
    | Same(c: Id, known: bool)
    | Unlink(c: Id, ok: bool)

  // ---- the specification: what the cache holds after some events ----

  function Apply(m: map<string, Entry>, event: Event): map<string, Entry> {
    match event
    case Stored(name, entry, _) => m[name := entry]
    case Removed(name) => m - {name}
  }

  function Replay(log: seq<Event>): map<string, Entry> {
    if log == [] then map[] else Apply(Replay(log[..|log| - 1]), log[|log| - 1])
  }

  /** What a read is to find in a cache holding m. Too long a value is unreadable. */
  function Lookup(m: map<string, Entry>, name: string, now: int): Outcome {
    if name !in m then Miss
    else if |m[name].value| + 1 > FILE_SIZE_MAX then Broken
    else if now >= m[name].expiry then Miss
    else Hit(m[name].value)
  }

  // ---- steps ----

  predicate WriterAt(s: State, w: Id, pc: WriterPc) { w in s.writers && s.writers[w].pc == pc }

  /** The reader has its file open. */
  predicate Reading(s: State, r: Id) {
    r in s.readers && !s.readers[r].pc.Opening? && !s.readers[r].pc.Finished?
  }

  predicate Enabled(s: State, step: Step) {
    match step
    case Delete(key, _) => FileName(key) !in s.temps
    // a random name was never used before, neither as such nor as a cache file's name
    // and a new file gets a number that no file in the directory has (and, in the system, no open one)
    case Create(w, e, rnd, number) =>
      && (forall n :: n in s.files.dir ==> s.files.Number(s.files.dir[n]) != number)
      && w !in s.writers && FileName(e.key) !in s.temps
      && (var temp := TempName(FileName(e.key), rnd); temp !in s.temps && temp !in s.targets)
    case Write(w, upto) =>
      WriterAt(s, w, Writing) && |s.files.Content(s.writers[w].file)| <= upto <= |Record(s.writers[w].entry)|
    case WriteError(w) => WriterAt(s, w, Writing)
    case Rename(w, _) => WriterAt(s, w, Complete)
    case DropTemp(w, _) => WriterAt(s, w, Dropping)
    case Look(r, key, _) => r !in s.readers && FileName(key) !in s.temps
    case Open(r, _) => r in s.readers && s.readers[r].pc == Opening
    case Size(r) => Reading(s, r) && s.readers[r].pc.Sizing?
    case ReadHeader(r) => Reading(s, r) && s.readers[r].pc.ReadingHeader?
    case Check(r, _) => Reading(s, r) && s.readers[r].pc.Checking?
    case ReadValue(r) => Reading(s, r) && s.readers[r].pc.ReadingValue?
    case ReadError(r) => Reading(s, r)
    case Inspect(c, name) => c !in s.cleaners && name in s.files.dir
    case Judge(c, _, _) => c in s.cleaners && s.cleaners[c].pc == Inspecting
    case Same(c, _) => c in s.cleaners && s.cleaners[c].pc.Condemned?
    case Unlink(c, _) => c in s.cleaners && s.cleaners[c].pc.Removing?
  }

  function PutWriter(s: State, w: Id, writer: Writer): State { s.(writers := s.writers[w := writer]) }

  function PutReader(s: State, r: Id, reader: Reader): State { s.(readers := s.readers[r := reader]) }

  function PutCleaner(s: State, c: Id, cleaner: Cleaner): State { s.(cleaners := s.cleaners[c := cleaner]) }

  function Next(s: State, step: Step): State
    requires Enabled(s, step)
  {
    match step
    case Delete(key, ok) => s.(files := s.files.Remove(FileName(key), ok), targets := s.targets + {FileName(key)})
    case Create(w, e, rnd, number) => Created(s, w, e, TempName(FileName(e.key), rnd), number)
    case Write(w, upto) => Written(s, w, s.writers[w], upto)
    case WriteError(w) => PutWriter(s, w, s.writers[w].(pc := Dropping))
    case Rename(w, ok) => Renamed(s, w, s.writers[w], ok)
    case DropTemp(w, ok) => DroppedTemp(s, w, s.writers[w], ok)
    case Look(r, key, ok) =>
      var pc := if ok && FileName(key) in s.files.dir then Opening else Finished(Miss, 0);
      PutReader(s.(targets := s.targets + {FileName(key)}), r, Reader(key, |s.files.log|, !ok, false, pc))
    case Open(r, ok) => PutReader(s, r, Opened(s.files, s.readers[r], ok))
    case Size(r) => PutReader(s, r, s.readers[r].(pc := AfterRead(s.files, s.readers[r].pc, 0)))
    case ReadHeader(r) => PutReader(s, r, s.readers[r].(pc := AfterRead(s.files, s.readers[r].pc, 0)))
    case Check(r, now) => PutReader(s, r, s.readers[r].(pc := AfterRead(s.files, s.readers[r].pc, now)))
    case ReadValue(r) => PutReader(s, r, s.readers[r].(pc := AfterRead(s.files, s.readers[r].pc, 0)))
    case ReadError(r) => PutReader(s, r, s.readers[r].(ioError := true, pc := Finished(Broken, 0)))
    case Inspect(c, name) => PutCleaner(s, c, Cleaner(name, s.files.dir[name], s.files.made, Inspecting))
    case Judge(c, now, failed) => PutCleaner(s, c, Judged(s.files, s.cleaners[c], now, failed))
    case Same(c, known) => PutCleaner(s, c, Compared(s.files, s.cleaners[c], known))
    case Unlink(c, ok) => PutCleaner(s.(files := s.files.Remove(s.cleaners[c].name, ok)), c, s.cleaners[c].(pc := Over))
  }

  /** Open a new, empty temporary file. */
  function Created(s: State, w: Id, e: Entry, temp: string, number: nat): State {
    var f := s.files;
    var files := Files(f.dir[temp := f.made], f.disk[f.made := ""], f.numbers[f.made := number], f.made + 1, f.log);
    PutWriter(s.(files := files, temps := s.temps[temp := w], targets := s.targets + {FileName(e.key)}),
              w, Writer(e, temp, f.made, Writing))
  }

  /** Part of the record reaches the file; once all of it has, the file is closed. */
  function Written(s: State, w: Id, writer: Writer, upto: nat): State
    requires upto <= |Record(writer.entry)|
  {
    var record := Record(writer.entry);
    PutWriter(s.(files := s.files.(disk := s.files.disk[writer.file := record[..upto]])),
              w, writer.(pc := if upto == |record| then Complete else Writing))
  }

  /** Renaming fails at least when the temporary file is gone. */
  function Renamed(s: State, w: Id, writer: Writer, ok: bool): State {
    var f, name := s.files, FileName(writer.entry.key);
    if ok && writer.temp in f.dir then
      var dir := (f.dir - {writer.temp})[name := f.dir[writer.temp]];
      var files := f.(dir := dir, log := f.log + [Stored(name, writer.entry, w)]);
      PutWriter(s.(files := files), w, writer.(pc := Success))
    else PutWriter(s, w, writer.(pc := Dropping))
  }

  /** Dropping the temporary file fails at most when it is still there. */
  function DroppedTemp(s: State, w: Id, writer: Writer, ok: bool): State {
    PutWriter(s.(files := s.files.Remove(writer.temp, ok)), w,
              writer.(pc := if !ok && writer.temp in s.files.dir then Leak else Failure))
  }

  /** A look-up or an open that fails is taken for a miss, whatever the reason. */
  function Opened(f: Files, reader: Reader, ok: bool): Reader {
    var name := FileName(reader.key);
    var pc := if ok && name in f.dir then Sizing(f.dir[name]) else Finished(Miss, 0);
    reader.(since := |f.log|, lookFailed := !ok, pc := pc)
  }

  /** What one read operation leads to; the clock is used by the expiry check only. */
  function AfterRead(f: Files, pc: ReaderPc, now: int): ReaderPc {
    match pc
    case Sizing(i) =>
      var size := |f.Content(i)|;
      if size < HEADER_SIZE || size - HEADER_SIZE > FILE_SIZE_MAX then Finished(Broken, 0) else ReadingHeader(i, size)
    case ReadingHeader(i, size) =>
      var content := f.Content(i);
      if |content| < HEADER_SIZE then Finished(Broken, 0)
      else Checking(i, size, HeaderLen(content[..HEADER_SIZE]), HeaderExpire(content[..HEADER_SIZE]))
    case Checking(i, size, len, expire) =>
      if now >= expire then Finished(Miss, now)
      else if len == 0 || len > FILE_SIZE_MAX || len > size - HEADER_SIZE then Finished(Broken, now)
      else ReadingValue(i, len, now)
    case ReadingValue(i, len, then_) =>
      var content := f.Content(i);
      if |content| < HEADER_SIZE + len then Finished(Broken, then_)
      else Finished(Hit(ToNul(content[HEADER_SIZE..HEADER_SIZE + len])), then_)
    case _ => pc
  }

  /** A header that is cut short or cannot be read, or one that has expired, condemns the file. */
  function Judged(f: Files, cleaner: Cleaner, now: int, failed: bool): Cleaner {
    var content := f.Content(cleaner.file);
    if !failed && |content| >= HEADER_SIZE && now < HeaderExpire(content[..HEADER_SIZE]) then cleaner.(pc := Over)
    else cleaner.(pc := Condemned(now, failed))
  }

  /** Does the name stand for a file with the inspected number? Assumed so where files cannot be told apart. */
  function Compared(f: Files, cleaner: Cleaner, known: bool): Cleaner
    requires cleaner.pc.Condemned?
  {
    var same := cleaner.name in f.dir && f.Number(f.dir[cleaner.name]) == f.Number(cleaner.file);
    cleaner.(pc := if known && !same then Over else Removing(cleaner.pc.now, cleaner.pc.failed, known, |f.log|))
  }

  // ---- runs ----

  /** An interleaving: every step is enabled when it is taken. */
  predicate IsRun(s: State, steps: seq<Step>)
    decreases |steps|
  {
    steps == [] || (Enabled(s, steps[0]) && IsRun(Next(s, steps[0]), steps[1..]))
  }

  function Run(s: State, steps: seq<Step>): State
    requires IsRun(s, steps)
    decreases |steps|
  {
    if steps == [] then s else Run(Next(s, steps[0]), steps[1..])
  }

  lemma {:induction false} OneMoreStep(s: State, steps: seq<Step>, step: Step)
    requires IsRun(s, steps) && Enabled(Run(s, steps), step)
    ensures IsRun(s, steps + [step]) && Run(s, steps + [step]) == Next(Run(s, steps), step)
    decreases |steps|
  {
    hide Enabled, Next;
    if steps == [] {
      assert steps + [step] == [step] && [step][1..] == [];
    } else {
      assert (steps + [step])[1..] == steps[1..] + [step];
      OneMoreStep(Next(s, steps[0]), steps[1..], step);
    }
  }
}
