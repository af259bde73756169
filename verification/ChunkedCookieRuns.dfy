/** Chunked cookies over whole runs: a browser jar, one store per request, then a read. */
module ChunkedCookieRuns {
  import opened Arithmetic
  import opened ChunkedCookies
  import opened CookieHeader
  import opened Decimal
  import opened Options

  /** The browser applies a Set-Cookie header at time now; an expired cookie is deleted. */
  function Apply(jar: Jar, h: SetCookie, now: int): Jar {
    if h.expires != -1 && h.expires <= now then jar - {h.name} else jar[h.name := h.value]
  }

  function ApplyAll(jar: Jar, hs: seq<SetCookie>, now: int): Jar
    decreases |hs|
  {
    if hs == [] then jar else ApplyAll(Apply(jar, hs[0], now), hs[1..], now)
  }

  function In(jar: Jar): string -> Option<string> {
    n => Lookup(jar, n)
  }

  /** One request that stores a value: what the jar holds after its response. */
  datatype StoreOp = StoreOp(value: string, expires: int, now: int)

  ghost predicate OpOk(op: StoreOp) {
    ';' !in op.value && 0 <= op.now && (op.expires == -1 || op.now < op.expires)
  }

  function Step(jar: Jar, name: string, chunkSize: nat, op: StoreOp): Jar {
    match Store(ChunkedCount(In(jar), name), name, op.value, op.expires, chunkSize)
    case None => jar
    case Some(hs) => ApplyAll(jar, hs, op.now)
  }

  function After(jar: Jar, name: string, chunkSize: nat, ops: seq<StoreOp>): Jar
    decreases |ops|
  {
    if ops == [] then jar else After(Step(jar, name, chunkSize, ops[0]), name, chunkSize, ops[1..])
  }

  /** The stores that return TRUE: those whose value fits in the maximum number of chunks. */
  predicate Accepted(value: string, chunkSize: nat) {
    chunkSize == 0 || |value| <= CHUNKS_MAX * chunkSize
  }

  /** The last value whose store returned TRUE; storing the empty value clears the cookie. */
  function LastStored(current: Option<string>, chunkSize: nat, ops: seq<StoreOp>): Option<string>
    decreases |ops|
  {
    if ops == [] then current
    else LastStored(NowStored(current, chunkSize, ops[0].value), chunkSize, ops[1..])
  }

  function NowStored(current: Option<string>, chunkSize: nat, value: string): Option<string> {
    if !Accepted(value, chunkSize) then current else if value == "" then None else Some(value)
  }

  // ---- cookie names ----

  ghost predicate IsChunkName(name: string, x: string) {
    exists i: nat :: x == ChunkName(name, i)
  }

  lemma ChunkNameParts(name: string, i: nat)
    ensures Dec(i) != "" && IsDigit(Dec(i)[0]) && AllDigits(Dec(i))
    ensures ChunkName(name, i)[|name| + 1..] == Dec(i)
  {
  }

  lemma NamesDistinct(name: string)
    ensures !IsChunkName(name, name) && !IsChunkName(name, ChunkCountName(name)) && ChunkCountName(name) != name
  {
    forall i: nat ensures name != ChunkName(name, i) && ChunkCountName(name) != ChunkName(name, i) {
      ChunkNameParts(name, i);
      assert ChunkCountName(name)[|name| + 1..] == "chunks";
      assert !IsDigit("chunks"[0]);
    }
  }

  lemma ChunkNameInjective(name: string, i: nat, j: nat)
    requires ChunkName(name, i) == ChunkName(name, j)
    ensures i == j
  {
    ChunkNameParts(name, i);
    ChunkNameParts(name, j);
    DecInjective(i, j);
  }

  lemma ChunkNamesOk(name: string, i: nat)
    requires NameOk(name)
    ensures NameOk(ChunkName(name, i)) && NameOk(ChunkCountName(name))
  {
    ChunkNameParts(name, i);
    assert ChunkName(name, i)[0] == name[0];
    assert forall c :: c in Dec(i) ==> IsDigit(c);
  }

  // ---- applying headers ----

  lemma {:induction false} ApplyAppend(jar: Jar, a: seq<SetCookie>, b: seq<SetCookie>, now: int)
    ensures ApplyAll(jar, a + b, now) == ApplyAll(ApplyAll(jar, a, now), b, now)
    decreases |a|
  {
    if a == [] {
      assert a + b == b;
    } else {
      assert (a + b)[1..] == a[1..] + b;
      ApplyAppend(Apply(jar, a[0], now), a[1..], b, now);
    }
  }

  lemma ApplyTwo(jar: Jar, a: SetCookie, b: SetCookie, now: int)
    ensures ApplyAll(jar, [a, b], now) == Apply(Apply(jar, a, now), b, now)
  {
    assert [a, b][1..] == [b] && [b][1..] == [];
    assert ApplyAll(Apply(jar, a, now), [b], now) == Apply(Apply(jar, a, now), b, now);
  }

  /** Clearing or setting chunks leaves every cookie alone that is not a chunk. */
  lemma {:induction false} ClearFrame(jar: Jar, name: string, i: nat, count: nat, expires: int, now: int, x: string)
    requires !IsChunkName(name, x)
    ensures Lookup(ApplyAll(jar, ClearChunks(name, i, count, expires), now), x) == Lookup(jar, x)
    decreases count - i
  {
    if i < count {
      assert x != ChunkName(name, i);
      ClearFrame(Apply(jar, Header(ChunkName(name, i), "", expires), now), name, i + 1, count, expires, now, x);
    }
  }

  lemma {:induction false} SetFrame(jar: Jar, name: string, i: nat, pieces: seq<string>, expires: int, now: int,
                                    x: string)
    requires forall k: nat :: i <= k ==> x != ChunkName(name, k)
    ensures Lookup(ApplyAll(jar, SetChunks(name, i, pieces, expires), now), x) == Lookup(jar, x)
    decreases |pieces|
  {
    if pieces != [] {
      assert x != ChunkName(name, i);
      SetFrame(Apply(jar, Header(ChunkName(name, i), pieces[0], expires), now), name, i + 1, pieces[1..], expires,
          now, x);
    }
  }

  lemma {:induction false} ChunksAreSet(jar: Jar, name: string, i: nat, pieces: seq<string>, expires: int, now: int,
                                        k: nat)
    requires k < |pieces| && (forall j :: 0 <= j < |pieces| ==> pieces[j] != "") && (expires == -1 || now < expires)
    ensures Lookup(ApplyAll(jar, SetChunks(name, i, pieces, expires), now), ChunkName(name, i + k)) == Some(pieces[k])
    decreases |pieces|
  {
    var jar' := Apply(jar, Header(ChunkName(name, i), pieces[0], expires), now);
    if k > 0 {
      ChunksAreSet(jar', name, i + 1, pieces[1..], expires, now, k - 1);
    } else {
      forall j: nat | i + 1 <= j ensures ChunkName(name, i) != ChunkName(name, j) {
        if ChunkName(name, i) == ChunkName(name, j) { ChunkNameInjective(name, i, j); }
      }
      SetFrame(jar', name, i + 1, pieces[1..], expires, now, ChunkName(name, i));
    }
  }

  // ---- pieces put together ----

  lemma {:induction false} PiecesJoin(value: string, chunkSize: nat)
    requires chunkSize > 0
    ensures Concat(Pieces(value, chunkSize)) == value
    ensures forall j :: 0 <= j < |Pieces(value, chunkSize)| ==> Pieces(value, chunkSize)[j] != ""
    decreases |value|
  {
    if value != "" {
      if |value| <= chunkSize {
        assert [value][1..] == [];
      } else {
        PiecesJoin(value[chunkSize..], chunkSize);
        assert Pieces(value, chunkSize)[1..] == Pieces(value[chunkSize..], chunkSize);
      }
    }
  }

  lemma {:induction false} AssembleJoins(jar: Jar, name: string, i: nat, pieces: seq<string>)
    requires i <= |pieces| && forall k :: i <= k < |pieces| ==> Lookup(jar, ChunkName(name, k)) == Some(pieces[k])
    ensures Assemble(In(jar), name, i, |pieces|) == Some(Concat(pieces[i..]))
    decreases |pieces| - i
  {
    if i < |pieces| {
      AssembleJoins(jar, name, i + 1, pieces);
      assert pieces[i..][0] == pieces[i] && pieces[i..][1..] == pieces[i + 1..];
    }
  }

  // ---- one store ----

  /** The counter is absent or counts at least one chunk and at most the maximum. */
  ghost predicate CountOk(jar: Jar, name: string) {
    ChunkCountName(name) in jar ==>
      exists n: nat :: 1 <= n <= CHUNKS_MAX && jar[ChunkCountName(name)] == Dec(n)
  }

  lemma RefusedIffTooLong(value: string, chunkSize: nat, count: int, name: string, expires: int)
    ensures Store(count, name, value, expires, chunkSize) == None <==> !Accepted(value, chunkSize)
  {
    if chunkSize > 0 {
      PieceCount(value, chunkSize);
      CeilBound(|value|, chunkSize, CHUNKS_MAX);
    }
  }

  /** A short or empty value, or no chunking at all: the plain cookie is set and the counter is gone. */
  lemma ShortStore(jar: Jar, name: string, value: string, expires: int, now: int, count: int)
    requires ChunkCountName(name) in jar ==> count > 0
    requires 0 <= now && (expires == -1 || now < expires)
    ensures var jar' := ApplyAll(jar, [Header(name, value, expires)] + Clear(name, count, expires), now);
            && ChunkCountName(name) !in jar'
            && Lookup(jar', name) == if value == "" then None else Some(value)
  {
    NamesDistinct(name);
    var first := Header(name, value, expires);
    var jar1 := Apply(jar, first, now);
    ApplyAppend(jar, [first], Clear(name, count, expires), now);
    ApplyOne(jar, first, now);
    if count > 0 {
      var clear, last := ClearChunks(name, 0, count, expires), Header(ChunkCountName(name), "", expires);
      ApplyAppend(jar1, clear, [last], now);
      ClearFrame(jar1, name, 0, count, expires, now, name);
      ApplyOne(ApplyAll(jar1, clear, now), last, now);
    }
  }

  /** A counter that the request carries counts at least one chunk. */
  lemma CounterCounts(jar: Jar, name: string)
    requires CountOk(jar, name)
    ensures ChunkCountName(name) in jar <==> ChunkedCount(In(jar), name) > 0
  {
    if ChunkCountName(name) in jar {
      var n: nat :| 1 <= n <= CHUNKS_MAX && jar[ChunkCountName(name)] == Dec(n);
      ParseDec(n, 0);
    }
  }

  /** A long value: its chunks and their counter are set and the plain cookie is gone. */
  lemma LongStore(jar: Jar, name: string, value: string, expires: int, now: int, chunkSize: nat)
    requires chunkSize > 0 && value != "" && |Pieces(value, chunkSize)| <= CHUNKS_MAX
    requires 0 <= now && (expires == -1 || now < expires)
    ensures var pieces := Pieces(value, chunkSize);
            var tail := [Header(ChunkCountName(name), Dec(|pieces|), expires), Header(name, "", expires)];
            var jar' := ApplyAll(jar, SetChunks(name, 0, pieces, expires) + tail, now);
            && Lookup(jar', ChunkCountName(name)) == Some(Dec(|pieces|)) && |pieces| >= 1
            && Assemble(In(jar'), name, 0, |pieces|) == Some(value)
  {
    NamesDistinct(name);
    var pieces := Pieces(value, chunkSize);
    PiecesJoin(value, chunkSize);
    DecIsNumber(|pieces|);
    var set_ := SetChunks(name, 0, pieces, expires);
    var tail := [Header(ChunkCountName(name), Dec(|pieces|), expires), Header(name, "", expires)];
    var jar1 := ApplyAll(jar, set_, now);
    ApplyAppend(jar, set_, tail, now);
    var jar' := ApplyAll(jar1, tail, now);
    ApplyTwo(jar1, tail[0], tail[1], now);
    forall k | 0 <= k < |pieces| ensures Lookup(jar', ChunkName(name, k)) == Some(pieces[k]) {
      ChunksAreSet(jar, name, 0, pieces, expires, now, k);
      assert IsChunkName(name, ChunkName(name, k));
    }
    AssembleJoins(jar', name, 0, pieces);
    assert pieces[0..] == pieces;
  }

  /** One store followed by a read gives back exactly what was stored, and a refused store changes nothing. */
  lemma StoreThenRead(jar: Jar, name: string, chunkSize: nat, op: StoreOp)
    requires CountOk(jar, name) && OpOk(op)
    ensures CountOk(Step(jar, name, chunkSize, op), name)
    ensures Read(In(Step(jar, name, chunkSize, op)), name, chunkSize)
         == NowStored(Read(In(jar), name, chunkSize), chunkSize, op.value)
  {
    var count := ChunkedCount(In(jar), name);
    CounterCounts(jar, name);
    RefusedIffTooLong(op.value, chunkSize, count, name, op.expires);
    if Accepted(op.value, chunkSize) {
      if chunkSize == 0 || |op.value| < chunkSize {
        ShortStore(jar, name, op.value, op.expires, op.now, count);
      } else {
        LongStore(jar, name, op.value, op.expires, op.now, chunkSize);
        ParseDec(|Pieces(op.value, chunkSize)|, 0);
      }
    }
  }

  // ---- whole runs ----

  lemma {:induction false} ReadAfterRun(jar: Jar, name: string, chunkSize: nat, ops: seq<StoreOp>)
    requires CountOk(jar, name) && forall i :: 0 <= i < |ops| ==> OpOk(ops[i])
    ensures Read(In(After(jar, name, chunkSize, ops)), name, chunkSize)
         == LastStored(Read(In(jar), name, chunkSize), chunkSize, ops)
    decreases |ops|
  {
    if ops != [] {
      StoreThenRead(jar, name, chunkSize, ops[0]);
      ReadAfterRun(Step(jar, name, chunkSize, ops[0]), name, chunkSize, ops[1..]);
    }
  }

  // ---- through the Cookie header ----

  ghost predicate HeaderOk(h: SetCookie) {
    NameOk(h.name) && ';' !in h.value
  }

  ghost predicate HeadersOk(hs: seq<SetCookie>) {
    forall i :: 0 <= i < |hs| ==> HeaderOk(hs[i])
  }

  lemma {:induction false} ApplyKeepsJarOk(jar: Jar, hs: seq<SetCookie>, now: int)
    requires JarOk(jar) && HeadersOk(hs)
    ensures JarOk(ApplyAll(jar, hs, now))
    decreases |hs|
  {
    if hs != [] { ApplyKeepsJarOk(Apply(jar, hs[0], now), hs[1..], now); }
  }

  lemma {:induction false} ClearHeadersOk(name: string, i: nat, count: nat, expires: int)
    requires NameOk(name)
    ensures HeadersOk(ClearChunks(name, i, count, expires))
    decreases count - i
  {
    if i < count {
      ChunkNamesOk(name, i);
      assert HeaderOk(Header(ChunkName(name, i), "", expires));
      ClearHeadersOk(name, i + 1, count, expires);
    }
  }

  lemma {:induction false} SetHeadersOk(name: string, i: nat, pieces: seq<string>, expires: int)
    requires NameOk(name) && forall k :: 0 <= k < |pieces| ==> ';' !in pieces[k]
    ensures HeadersOk(SetChunks(name, i, pieces, expires))
    decreases |pieces|
  {
    if pieces != [] {
      ChunkNamesOk(name, i);
      assert HeaderOk(Header(ChunkName(name, i), pieces[0], expires));
      SetHeadersOk(name, i + 1, pieces[1..], expires);
    }
  }

  lemma {:induction false} PiecesOk(value: string, chunkSize: nat)
    requires chunkSize > 0 && ';' !in value
    ensures forall k :: 0 <= k < |Pieces(value, chunkSize)| ==> ';' !in Pieces(value, chunkSize)[k]
    decreases |value|
  {
    if |value| > chunkSize { PiecesOk(value[chunkSize..], chunkSize); }
  }

  lemma StoreHeadersOk(count: int, name: string, chunkSize: nat, op: StoreOp)
    requires NameOk(name) && OpOk(op)
    ensures var store := Store(count, name, op.value, op.expires, chunkSize); store.Some? ==> HeadersOk(store.value)
  {
    ChunkNamesOk(name, 0);
    assert HeaderOk(Header(name, op.value, op.expires)) && HeaderOk(Header(name, "", op.expires));
    assert HeaderOk(Header(ChunkCountName(name), "", op.expires));
    if chunkSize == 0 || |op.value| < chunkSize {
      if count > 0 { ClearHeadersOk(name, 0, count, op.expires); }
    } else {
      var pieces := Pieces(op.value, chunkSize);
      PiecesOk(op.value, chunkSize);
      SetHeadersOk(name, 0, pieces, op.expires);
      DecIsNumber(|pieces|);
      assert HeaderOk(Header(ChunkCountName(name), Dec(|pieces|), op.expires));
    }
  }

  lemma StepKeepsJarOk(jar: Jar, name: string, chunkSize: nat, op: StoreOp)
    requires JarOk(jar) && NameOk(name) && OpOk(op)
    ensures JarOk(Step(jar, name, chunkSize, op))
  {
    hide JarOk, HeadersOk;
    var count := ChunkedCount(In(jar), name);
    StoreHeadersOk(count, name, chunkSize, op);
    var store := Store(count, name, op.value, op.expires, chunkSize);
    if store.Some? {
      ApplyKeepsJarOk(jar, store.value, op.now);
    }
  }

  lemma {:induction false} RunKeepsJarOk(jar: Jar, name: string, chunkSize: nat, ops: seq<StoreOp>)
    requires JarOk(jar) && NameOk(name) && forall i :: 0 <= i < |ops| ==> OpOk(ops[i])
    ensures JarOk(After(jar, name, chunkSize, ops))
    decreases |ops|
  {
    if ops != [] {
      StepKeepsJarOk(jar, name, chunkSize, ops[0]);
      RunKeepsJarOk(Step(jar, name, chunkSize, ops[0]), name, chunkSize, ops[1..]);
    }
  }

  /** The cookies of the request that carries this header. */
  function Carried(pairs: seq<Pair>): string -> Option<string> {
    n => CookieValue(Render(pairs), n)
  }

  lemma {:induction false} SameAssembly(jar: Jar, pairs: seq<Pair>, name: string, i: nat, count: nat)
    requires JarOk(jar) && Lists(pairs, jar) && NameOk(name)
    ensures Assemble(Carried(pairs), name, i, count) == Assemble(In(jar), name, i, count)
    decreases count - i
  {
    if i < count {
      ChunkNamesOk(name, i);
      CookieRoundTrip(jar, pairs, ChunkName(name, i));
      SameAssembly(jar, pairs, name, i + 1, count);
    }
  }

  /** A request sees the counter and the value that the jar holds, in whatever order the cookies are sent. */
  lemma RequestSeesJar(jar: Jar, pairs: seq<Pair>, name: string, chunkSize: int)
    requires JarOk(jar) && Lists(pairs, jar) && NameOk(name)
    ensures ChunkedCount(Carried(pairs), name) == ChunkedCount(In(jar), name)
    ensures Read(Carried(pairs), name, chunkSize) == Read(In(jar), name, chunkSize)
  {
    ChunkNamesOk(name, 0);
    CookieRoundTrip(jar, pairs, name);
    CookieRoundTrip(jar, pairs, ChunkCountName(name));
    var count := ChunkedCount(In(jar), name);
    if 0 < count {
      SameAssembly(jar, pairs, name, 0, count);
    }
  }

  /**
   * Round trip over whole runs: after any sequence of stores, one per request, the next request
   * reads the last value whose store returned TRUE, nothing after a clear.
   */
  lemma ChunkedCookieRoundTrip(jar: Jar, name: string, chunkSize: nat, ops: seq<StoreOp>, pairs: seq<Pair>)
    requires JarOk(jar) && NameOk(name) && ChunkCountName(name) !in jar
    requires forall i :: 0 <= i < |ops| ==> OpOk(ops[i])
    requires Lists(pairs, After(jar, name, chunkSize, ops))
    ensures Read(Carried(pairs), name, chunkSize) == LastStored(Lookup(jar, name), chunkSize, ops)
  {
    ReadAfterRun(jar, name, chunkSize, ops);
    RunKeepsJarOk(jar, name, chunkSize, ops);
    RequestSeesJar(After(jar, name, chunkSize, ops), pairs, name, chunkSize);
  }

  /** Cookies with other names are never touched. */
  lemma OthersUntouched(jar: Jar, name: string, chunkSize: nat, op: StoreOp, x: string)
    requires x != name && x != ChunkCountName(name) && !IsChunkName(name, x)
    ensures Lookup(Step(jar, name, chunkSize, op), x) == Lookup(jar, x)
  {
    hide IsChunkName, ChunkedCount;
    var count := ChunkedCount(In(jar), name);
    if chunkSize == 0 || |op.value| < chunkSize {
      var first := Header(name, op.value, op.expires);
      ApplyAppend(jar, [first], Clear(name, count, op.expires), op.now);
      ApplyOne(jar, first, op.now);
      ClearAllFrame(Apply(jar, first, op.now), name, count, op.expires, op.now, x);
    } else {
      var pieces := Pieces(op.value, chunkSize);
      var a, b := Header(ChunkCountName(name), Dec(|pieces|), op.expires), Header(name, "", op.expires);
      ApplyAppend(jar, SetChunks(name, 0, pieces, op.expires), [a, b], op.now);
      assert forall k: nat :: x != ChunkName(name, k) by { NotAChunk(name, x); }
      SetFrame(jar, name, 0, pieces, op.expires, op.now, x);
      ApplyTwo(ApplyAll(jar, SetChunks(name, 0, pieces, op.expires), op.now), a, b, op.now);
    }
  }

  lemma NotAChunk(name: string, x: string)
    requires !IsChunkName(name, x)
    ensures forall k: nat :: x != ChunkName(name, k)
  {
  }

  lemma ApplyOne(jar: Jar, h: SetCookie, now: int)
    ensures ApplyAll(jar, [h], now) == Apply(jar, h, now)
  {
  }

  lemma ClearAllFrame(jar: Jar, name: string, count: int, expires: int, now: int, x: string)
    requires x != ChunkCountName(name) && !IsChunkName(name, x)
    ensures Lookup(ApplyAll(jar, Clear(name, count, expires), now), x) == Lookup(jar, x)
  {
    if count > 0 {
      hide IsChunkName;
      var clear, last := ClearChunks(name, 0, count, expires), Header(ChunkCountName(name), "", expires);
      ApplyAppend(jar, clear, [last], now);
      ClearFrame(jar, name, 0, count, expires, now, x);
      ApplyOne(ApplyAll(jar, clear, now), last, now);
    }
  }

  /**
   * Two stores in one response: both write their headers for the counter that the request carried. The
   * second one takes effect exactly if it is not a short (or empty) value after a long one for which
   * the request carried no counter.
   */
  lemma TwoStoresInOneResponse(jar: Jar, name: string, chunkSize: nat, first: StoreOp, second: StoreOp)
    requires CountOk(jar, name) && OpOk(first) && OpOk(second) && first.now == second.now
    requires Accepted(first.value, chunkSize) && Accepted(second.value, chunkSize)
    ensures var count := ChunkedCount(In(jar), name);
            var h1 := Store(count, name, first.value, first.expires, chunkSize);
            var h2 := Store(count, name, second.value, second.expires, chunkSize);
            && h1.Some? && h2.Some?
            && var after := Read(In(ApplyAll(jar, h1.value + h2.value, first.now)), name, chunkSize);
               (after == NowStored(None, chunkSize, second.value)
                <==> !(0 < chunkSize <= |first.value| && |second.value| < chunkSize && ChunkCountName(name) !in jar))
  {
    hide Dec;
    var count := ChunkedCount(In(jar), name);
    CounterCounts(jar, name);
    RefusedIffTooLong(first.value, chunkSize, count, name, first.expires);
    RefusedIffTooLong(second.value, chunkSize, count, name, second.expires);
    var h1 := Store(count, name, first.value, first.expires, chunkSize).value;
    var h2 := Store(count, name, second.value, second.expires, chunkSize).value;
    ApplyAppend(jar, h1, h2, first.now);
    var jar1 := ApplyAll(jar, h1, first.now);
    if 0 < chunkSize <= |second.value| {
      LongStore(jar1, name, second.value, second.expires, second.now, chunkSize);
      ParseDec(|Pieces(second.value, chunkSize)|, 0);
    } else if 0 < chunkSize <= |first.value| && ChunkCountName(name) !in jar {
      SecondStoreIsLost(jar, name, chunkSize, first.value, second.value, first.expires, second.expires, first.now);
    } else {
      if ChunkCountName(name) !in jar && chunkSize > 0 {
        ShortStore(jar, name, first.value, first.expires, first.now, count);
      }
      ShortSecond(jar1, name, chunkSize, second, count);
    }
  }

  lemma ShortSecond(jar: Jar, name: string, chunkSize: nat, op: StoreOp, count: int)
    requires chunkSize == 0 || (|op.value| < chunkSize && (ChunkCountName(name) in jar ==> count > 0))
    requires OpOk(op)
    ensures Store(count, name, op.value, op.expires, chunkSize).Some?
    ensures var jar' := ApplyAll(jar, Store(count, name, op.value, op.expires, chunkSize).value, op.now);
            Read(In(jar'), name, chunkSize) == NowStored(None, chunkSize, op.value)
  {
    hide Dec;
    if ChunkCountName(name) in jar ==> count > 0 {
      ShortStore(jar, name, op.value, op.expires, op.now, count);
    } else {
      NamesDistinct(name);
      var first := Header(name, op.value, op.expires);
      assert [first] + [] == [first];
      ApplyOne(jar, first, op.now);
    }
  }

  /**
   * The failing case: the counter is read from the incoming request, so a short value stored, or a
   * clear, after a long value in the same response does not take effect.
   */
  lemma SecondStoreIsLost(jar: Jar, name: string, chunkSize: nat, long: string, short: string,
                          longExpires: int, shortExpires: int, now: int)
    requires ChunkCountName(name) !in jar && 0 < chunkSize <= |long| <= CHUNKS_MAX * chunkSize && |short| < chunkSize
    requires 0 <= now && (longExpires == -1 || now < longExpires) && (shortExpires == -1 || now < shortExpires)
    ensures var count := ChunkedCount(In(jar), name);
            var first := Store(count, name, long, longExpires, chunkSize);
            var second := Store(count, name, short, shortExpires, chunkSize);
            && first.Some? && second.Some?
            && Read(In(ApplyAll(jar, first.value + second.value, now)), name, chunkSize) == Some(long)
  {
    var count := ChunkedCount(In(jar), name);
    RefusedIffTooLong(long, chunkSize, count, name, longExpires);
    LongStore(jar, name, long, longExpires, now, chunkSize);
    var first := Store(count, name, long, longExpires, chunkSize).value;
    var second := [Header(name, short, shortExpires)];
    assert second + [] == second;
    assert Store(count, name, short, shortExpires, chunkSize) == Some(second);
    ApplyAppend(jar, first, second, now);
    var jar1 := ApplyAll(jar, first, now);
    ApplyOne(jar1, second[0], now);
    var n := |Pieces(long, chunkSize)|;
    ParseDec(n, 0);
    NamesDistinct(name);
    SameChunks(jar1, Apply(jar1, second[0], now), name, 0, n);
  }

  lemma {:induction false} SameChunks(jar1: Jar, jar2: Jar, name: string, i: nat, n: nat)
    requires forall x :: x != name ==> Lookup(jar1, x) == Lookup(jar2, x)
    ensures Assemble(In(jar1), name, i, n) == Assemble(In(jar2), name, i, n)
    decreases n - i
  {
    if i < n {
      NamesDistinct(name);
      assert IsChunkName(name, ChunkName(name, i));
      SameChunks(jar1, jar2, name, i + 1, n);
    }
  }
}
