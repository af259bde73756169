/** Cookie values split over several cookies, written to a response and read back from later requests. */
module ChunkedCookies {
  import opened Arithmetic
  import opened CookieHeader
  import opened Decimal
  import opened Options

  const CHUNKS_MAX := 99

  /** One Set-Cookie header; expires -1 means a session cookie. */
  datatype SetCookie = SetCookie(name: string, value: string, expires: int)

  /** Setting an empty value clears the cookie: it is sent with an expiry date in the past. */
  function Header(name: string, value: string, expires: int): SetCookie {
    SetCookie(name, value, if value == "" then 0 else expires)
  }

  function ChunkCountName(name: string): string { name + "_" + "chunks" }

  function ChunkName(name: string, i: nat): string { name + "_" + Dec(i) }

  // ---- what the functions do, given how cookies are looked up ----

  /** The chunk counter as the request carries it, 0 when it is absent or no number. */
  function ChunkedCount(get: string -> Option<string>, name: string): int {
    StrToInt(get(ChunkCountName(name)), 0)
  }

  /** Chunks i, .., count - 1 put together; None when one is missing. */
  function Assemble(get: string -> Option<string>, name: string, i: nat, count: nat): Option<string>
    decreases count - i
  {
    if i >= count then Some("")
    else match get(ChunkName(name, i))
      case None => None
      case Some(chunk) =>
        Prepend(chunk, Assemble(get, name, i + 1, count))
  }

  function Read(get: string -> Option<string>, name: string, chunkSize: int): Option<string> {
    var count := ChunkedCount(get, name);
    if chunkSize == 0 || count == 0 then get(name)
    else if count < 0 || count > CHUNKS_MAX then None
    else Assemble(get, name, 0, count)
  }

  /** Headers that clear chunks i, .., count - 1. */
  function ClearChunks(name: string, i: nat, count: nat, expires: int): seq<SetCookie>
    decreases count - i
  {
    if i >= count then [] else [Header(ChunkName(name, i), "", expires)] + ClearChunks(name, i + 1, count, expires)
  }

  function Clear(name: string, count: int, expires: int): seq<SetCookie> {
    if count > 0 then ClearChunks(name, 0, count, expires) + [Header(ChunkCountName(name), "", expires)] else []
  }

  /** The value cut into pieces of at most chunkSize characters. */
  function Pieces(value: string, chunkSize: nat): seq<string>
    requires chunkSize > 0
    decreases |value|
  {
    if value == "" then []
    else if |value| <= chunkSize then [value]
    else [value[..chunkSize]] + Pieces(value[chunkSize..], chunkSize)
  }

  /** Headers that set chunk i to pieces[0], chunk i + 1 to pieces[1], and so on. */
  function SetChunks(name: string, i: nat, pieces: seq<string>, expires: int): seq<SetCookie>
    decreases |pieces|
  {
    if pieces == [] then []
    else [Header(ChunkName(name, i), pieces[0], expires)] + SetChunks(name, i + 1, pieces[1..], expires)
  }

  /** The headers that store a value when the request's counter is `count`; None when it is refused. */
  function Store(count: int, name: string, value: string, expires: int, chunkSize: nat): Option<seq<SetCookie>> {
    if chunkSize == 0 || 0 < |value| < chunkSize then
      Some([Header(name, value, expires)] + Clear(name, count, expires))
    else if value == "" then
      Some([Header(name, "", expires)] + Clear(name, count, expires))
    else
      var pieces := Pieces(value, chunkSize);
      if |pieces| > CHUNKS_MAX then None
      else Some(SetChunks(name, 0, pieces, expires)
                + [Header(ChunkCountName(name), Dec(|pieces|), expires), Header(name, "", expires)])
  }

  /** Ceiling division counts the pieces, without an empty last one for exact multiples. */
  lemma {:induction false} PieceCount(value: string, chunkSize: nat)
    requires chunkSize > 0
    ensures |Pieces(value, chunkSize)| == (|value| + chunkSize - 1) / chunkSize
    decreases |value|
  {
    if |value| > chunkSize {
      PieceCount(value[chunkSize..], chunkSize);
      var x := |value| - 1;
      Recompose(x, chunkSize);
      DivModUnique(x + chunkSize, chunkSize, x / chunkSize + 1, x % chunkSize);
    } else if value != "" {
      DivModUnique(|value| + chunkSize - 1, chunkSize, 1, |value| - 1);
    } else {
      DivModUnique(chunkSize - 1, chunkSize, 0, chunkSize - 1);
    }
  }

  function Prepend(s: string, r: Option<string>): Option<string> {
    match r case None => None case Some(rest) => Some(s + rest)
  }

  lemma PrependTwice(a: string, b: string, r: Option<string>)
    ensures Prepend(a, Prepend(b, r)) == Prepend(a + b, r) && Prepend("", r) == r
  {
    if r.Some? {
      assert a + (b + r.value) == (a + b) + r.value && "" + r.value == r.value;
    }
  }

  // ---- a request and its response headers ----

  class Request {
    const cookies: string
    var setCookies: seq<SetCookie>

    constructor (cookies: string)
      ensures this.cookies == cookies && setCookies == []
    {
      this.cookies := cookies;
      setCookies := [];
    }

    function Sent(): string -> Option<string> {
      name => CookieValue(cookies, name)
    }

    method Get(name: string) returns (value: Option<string>)
      ensures value == Sent()(name)
    {
      value := GetCookie(cookies, name);
    }

    method Set(name: string, value: string, expires: int)
      modifies this
      ensures setCookies == old(setCookies) + [Header(name, value, expires)]
    {
      var e := if value == "" then 0 else expires;
      setCookies := setCookies + [SetCookie(name, value, e)];
    }

    method GetChunkedCount(name: string) returns (count: int)
      ensures count == ChunkedCount(Sent(), name)
    {
      var value := Get(ChunkCountName(name));
      count := StrToInt(value, 0);
    }

    method GetChunkedCookie(name: string, chunkSize: int) returns (value: Option<string>)
      ensures value == Read(Sent(), name, chunkSize)
    {
      hide Tokens, Dec, ChunkedCount, Assemble;
      if chunkSize == 0 {
        value := Get(name);
        return;
      }
      var count := GetChunkedCount(name);
      if count == 0 {
        value := Get(name);
        return;
      }
      if count < 0 || count > CHUNKS_MAX {
        return None;
      }
      value := ReadChunks(name, count);
    }

    method ReadChunks(name: string, count: nat) returns (value: Option<string>)
      ensures value == Assemble(Sent(), name, 0, count)
    {
      hide Dec, Tokens;
      var cookie := "";
      PrependTwice("", "", Assemble(Sent(), name, 0, count));
      for i := 0 to count
        invariant Assemble(Sent(), name, 0, count) == Prepend(cookie, Assemble(Sent(), name, i, count))
      {
        var chunk := Get(ChunkName(name, i));
        if chunk == None {
          return None;
        }
        PrependTwice(cookie, chunk.value, Assemble(Sent(), name, i + 1, count));
        cookie := cookie + chunk.value;
      }
      assert cookie + "" == cookie;
      value := Some(cookie);
    }

    method ClearChunkedCookie(name: string, expires: int)
      modifies this
      ensures setCookies == old(setCookies) + Clear(name, ChunkedCount(Sent(), name), expires)
    {
      hide Dec, ChunkedCount;
      var count := GetChunkedCount(name);
      if count > 0 {
        for i := 0 to count
          invariant setCookies + ClearChunks(name, i, count, expires) == old(setCookies)
                      + ClearChunks(name, 0, count, expires)
        {
          ghost var before, rest := setCookies, ClearChunks(name, i + 1, count, expires);
          Set(ChunkName(name, i), "", expires);
          assert before + ([Header(ChunkName(name, i), "", expires)] + rest) == setCookies + rest;
        }
        assert setCookies == old(setCookies) + ClearChunks(name, 0, count, expires);
        Set(ChunkCountName(name), "", expires);
      }
    }

    method SetChunkedCookie(name: string, value: string, expires: int, chunkSize: nat) returns (rc: bool)
      modifies this
      ensures var headers := Store(ChunkedCount(Sent(), name), name, value, expires, chunkSize);
              if headers == None then !rc && setCookies == old(setCookies)
              else rc && setCookies == old(setCookies) + headers.value
    {
      hide Dec, ChunkedCount, Clear;
      var length := |value|;
      if chunkSize == 0 || (length > 0 && length < chunkSize) {
        Set(name, value, expires);
        ClearChunkedCookie(name, expires);
        return true;
      }
      if length == 0 {
        Set(name, "", expires);
        ClearChunkedCookie(name, expires);
        return true;
      }
      var count := (length + chunkSize - 1) / chunkSize;
      PieceCount(value, chunkSize);
      if count > CHUNKS_MAX {
        return false;
      }
      WriteChunks(name, value, expires, chunkSize, count);
      Set(ChunkCountName(name), Dec(count), expires);
      Set(name, "", expires);
      rc := true;
    }

    method WriteChunks(name: string, value: string, expires: int, chunkSize: nat, count: nat)
      requires chunkSize > 0 && count == |Pieces(value, chunkSize)|
      modifies this
      ensures setCookies == old(setCookies) + SetChunks(name, 0, Pieces(value, chunkSize), expires)
    {
      hide Dec;
      var ptr := value;
      for i := 0 to count
        invariant |Pieces(ptr, chunkSize)| == count - i
        invariant setCookies + SetChunks(name, i, Pieces(ptr, chunkSize), expires)
               == old(setCookies) + SetChunks(name, 0, Pieces(value, chunkSize), expires)
      {
        var chunk := if |ptr| <= chunkSize then ptr else ptr[..chunkSize];
        ghost var before, pieces := setCookies, Pieces(ptr, chunkSize);
        ptr := if |ptr| <= chunkSize then "" else ptr[chunkSize..];
        assert pieces[1..] == Pieces(ptr, chunkSize);
        ghost var rest := SetChunks(name, i + 1, Pieces(ptr, chunkSize), expires);
        Set(ChunkName(name, i), chunk, expires);
        assert before + ([Header(ChunkName(name, i), chunk, expires)] + rest) == setCookies + rest;
      }
    }
  }

  // ---- the headers of a store, one by one ----

  lemma {:induction false} ClearChunksAt(name: string, i: nat, count: nat, expires: int, k: nat)
    requires i <= count
    ensures |ClearChunks(name, i, count, expires)| == count - i
    ensures k < count - i ==>
              ClearChunks(name, i, count, expires)[k] == SetCookie(name + "_" + Dec(i + k), "", 0)
    decreases count - i
  {
    hide Dec;
    if i < count { ClearChunksAt(name, i + 1, count, expires, if k > 0 then k - 1 else 0); }
  }

  lemma {:induction false} SetChunksAt(name: string, i: nat, pieces: seq<string>, expires: int, k: nat)
    ensures |SetChunks(name, i, pieces, expires)| == |pieces|
    ensures k < |pieces| && pieces[k] != "" ==>
              SetChunks(name, i, pieces, expires)[k] == SetCookie(name + "_" + Dec(i + k), pieces[k], expires)
    decreases |pieces|
  {
    hide Dec;
    if pieces != [] { SetChunksAt(name, i + 1, pieces[1..], expires, if k > 0 then k - 1 else 0); }
  }

  /** Where piece k starts. */
  function Start(k: nat, chunkSize: nat): nat { k * chunkSize }

  lemma NextStart(k: nat, chunkSize: nat)
    ensures Start(k + 1, chunkSize) == Start(k, chunkSize) + chunkSize && Start(0, chunkSize) == 0
  {
  }

  /** The piece that starts there: at most chunkSize characters. */
  function PieceFrom(value: string, from: nat, chunkSize: nat): string
    requires from <= |value|
  {
    if from + chunkSize < |value| then value[from..from + chunkSize] else value[from..]
  }

  lemma {:induction false} PieceAt(value: string, chunkSize: nat, k: nat)
    requires chunkSize > 0 && k < |Pieces(value, chunkSize)|
    ensures Start(k, chunkSize) < |value|
    ensures Pieces(value, chunkSize)[k] == PieceFrom(value, Start(k, chunkSize), chunkSize)
    decreases |value|
  {
    hide Start;
    NextStart(if k > 0 then k - 1 else 0, chunkSize);
    if k > 0 {
      var rest := value[chunkSize..];
      PieceAt(rest, chunkSize, k - 1);
      RestOfRest(value, chunkSize, Start(k - 1, chunkSize));
    }
  }

  lemma RestOfRest(value: string, n: nat, from: nat)
    requires n + from <= |value|
    ensures PieceFrom(value[n..], from, n) == PieceFrom(value, n + from, n)
  {
  }

  /**
   * A short or empty value, or any without chunking: the plain cookie with the expiry asked for (an empty one
   * is expired at once), and each chunk that the request counted and then the counter cleared.
   */
  lemma ShortHeaders(count: int, name: string, value: string, expires: int, chunkSize: nat, k: nat)
    requires chunkSize == 0 || |value| < chunkSize
    ensures Store(count, name, value, expires, chunkSize).Some?
    ensures var hs := Store(count, name, value, expires, chunkSize).value;
            && |hs| == (if count > 0 then count + 2 else 1)
            && hs[0] == SetCookie(name, value, if value == "" then 0 else expires)
            && (k < count ==> hs[1 + k] == SetCookie(name + "_" + Dec(k), "", 0))
            && (count > 0 ==> hs[1 + count] == SetCookie(name + "_chunks", "", 0))
  {
    hide Dec;
    if count > 0 {
      ClearChunksAt(name, 0, count, expires, k);
      assert name + "_chunks" == name + "_" + "chunks";
    }
  }

  /**
   * A long value is refused if it has more than 99 pieces; else each piece goes into a cookie of its own with
   * the expiry asked for, then their number, and the plain cookie is cleared.
   */
  lemma LongHeaders(count: int, name: string, value: string, expires: int, chunkSize: nat, k: nat)
    requires 0 < chunkSize <= |value|
    ensures var n := (|value| + chunkSize - 1) / chunkSize;
            if n > 99 then Store(count, name, value, expires, chunkSize) == None
            else
              && Store(count, name, value, expires, chunkSize).Some?
              && var hs := Store(count, name, value, expires, chunkSize).value;
                 && |hs| == n + 2 && (k < n ==> k * chunkSize < |value|)
                 && (k < n ==> hs[k].name == name + "_" + Dec(k) && hs[k].expires == expires
                               && hs[k].value == PieceFrom(value, k * chunkSize, chunkSize))
                 && hs[n] == SetCookie(name + "_chunks", Dec(n), expires) && hs[n + 1] == SetCookie(name, "", 0)
  {
    hide Dec, Pieces, SetChunks;
    PieceCount(value, chunkSize);
    var pieces := Pieces(value, chunkSize);
    SetChunksAt(name, 0, pieces, expires, k);
    DecIsNumber(|pieces|);
    assert name + "_chunks" == name + "_" + "chunks";
    if k < |pieces| {
      PieceAt(value, chunkSize, k);
    }
  }

  // ---- what a read puts together ----

  function Concat(pieces: seq<string>): string {
    if pieces == [] then "" else pieces[0] + Concat(pieces[1..])
  }

  lemma {:induction false} AssembleIff(get: string -> Option<string>, name: string, i: nat, count: nat)
    requires i <= count
    ensures Assemble(get, name, i, count).Some? <==>
            forall k: nat :: i <= k < count ==> get(ChunkName(name, k)).Some?
    ensures forall pieces: seq<string> ::
              |pieces| == count - i
              && (forall k: nat :: k < count - i ==> get(ChunkName(name, i + k)) == Some(pieces[k])) ==>
                Assemble(get, name, i, count) == Some(Concat(pieces))
    decreases count - i
  {
    hide ChunkName;
    if i < count {
      AssembleIff(get, name, i + 1, count);
      forall pieces: seq<string> |
        |pieces| == count - i && (forall k: nat :: k < count - i ==> get(ChunkName(name, i + k)) == Some(pieces[k]))
        ensures Assemble(get, name, i, count) == Some(Concat(pieces))
      {
        assert get(ChunkName(name, i + 0)) == Some(pieces[0]);
        forall k: nat | k < count - i - 1 ensures get(ChunkName(name, i + 1 + k)) == Some(pieces[1..][k]) {
          assert i + 1 + k == i + (k + 1);
        }
      }
    }
  }

  /**
   * For any cookies: without chunking or a counter the plain cookie is read; a counter out of range, or a
   * missing chunk, gives nothing; otherwise all chunks are put together in order.
   */
  lemma ReadMeans(get: string -> Option<string>, name: string, chunkSize: int, pieces: seq<string>)
    ensures var count, value := StrToInt(get(ChunkCountName(name)), 0), Read(get, name, chunkSize);
            && (chunkSize == 0 || count == 0 ==> value == get(name))
            && (chunkSize != 0 && (count < 0 || count > 99) ==> value == None)
            && (chunkSize != 0 && 0 < count <= 99 ==>
                  && (value.Some? <==> forall k: nat :: k < count ==> get(ChunkName(name, k)).Some?)
                  && (|pieces| == count
                      && (forall k: nat :: k < count ==> get(ChunkName(name, k)) == Some(pieces[k])) ==>
                        value == Some(Concat(pieces))))
  {
    hide ChunkName, ChunkCountName, StrToInt, Assemble;
    var count := StrToInt(get(ChunkCountName(name)), 0);
    if 0 < count <= 99 {
      AssembleIff(get, name, 0, count);
      if |pieces| == count && forall k: nat :: k < count ==> get(ChunkName(name, k)) == Some(pieces[k]) {
        assert forall k: nat :: k < count - 0 ==> get(ChunkName(name, 0 + k)) == Some(pieces[k]);
      }
    }
  }
}
