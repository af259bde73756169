/**
 * One pass over JSON text, seen on the pieces of the text between double quotes: the pass looks for the
 * piece that is the member's name, followed by a colon and the piece to mask.
 */
module QuotedPieces {
  import opened CStrings
  import opened LogRedaction
  import opened Options
  import opened Splitting

  /** Only a colon and blanks, as between a name and its value. */
  predicate IsColon(piece: string) {
    var b := SkipBlanks(piece, 0);
    At(piece, b) == ':' && SkipBlanks(piece, b + 1) == |piece|
  }

  /** What a member can be called: a name is neither a text with quotes nor a colon. */
  ghost predicate NameOk(name: string) { QUOTE !in name && !IsColon(name) }

  // ---- one pass on pieces ----

  /** The pieces start with the name, and a closing quote follows. */
  predicate StartsName(ps: seq<string>, name: string) { |ps| >= 2 && ps[0] == name }

  /** The pieces start with the name, a colon and a quoted value. */
  predicate StartsValue(ps: seq<string>, name: string) { |ps| >= 3 && ps[0] == name && IsColon(ps[1]) }

  /** How far the scan goes on. */
  function Advance(ps: seq<string>, name: string): (n: nat)
    requires ps != []
    ensures 1 <= n <= |ps|
  {
    if StartsValue(ps, name) then 3 else if StartsName(ps, name) then 2 else 1
  }

  /** Piece number m, of those behind the first quote, is masked. */
  predicate Masks(ps: seq<string>, name: string, m: nat)
    decreases |ps|
  {
    ps != [] && if m < Advance(ps, name) then m == 2 else Masks(ps[Advance(ps, name)..], name, m - Advance(ps, name))
  }

  /** The masked pieces replaced by w(k), w(k + 1), ... */
  function Replaced(ps: seq<string>, name: string, w: nat -> string, k: nat): (r: seq<string>)
    ensures |r| == |ps|
    decreases |ps|
  {
    if ps == [] then []
    else if StartsValue(ps, name) then [ps[0], ps[1], w(k)] + Replaced(ps[3..], name, w, k + 1)
    else ps[..Advance(ps, name)] + Replaced(ps[Advance(ps, name)..], name, w, k)
  }

  /** The text of these pieces, each with the quote in front of it. */
  function Behind(ps: seq<string>): string {
    if ps == [] then "" else [QUOTE] + ps[0] + Behind(ps[1..])
  }

  lemma {:induction false} JoinIsBehind(ps: seq<string>)
    requires ps != []
    ensures Join(ps, QUOTE) == ps[0] + Behind(ps[1..])
    decreases |ps|
  {
    if |ps| > 1 { JoinIsBehind(ps[1..]); }
  }

  // ---- one pass on the text ----

  lemma {:induction false} ShiftFirstMask(s: string, needle: string, i: nat, pos: nat)
    requires needle != "" && i + pos <= |s|
    ensures FirstMask(s, needle, i + pos) ==
            match FirstMask(s[i..], needle, pos) case None => None case Some((p, e)) => Some((i + p, i + e))
    decreases |s| - i - pos
  {
    hide NextStep;
    ShiftStep(s, needle, i, pos);
    match NextStep(s[i..], needle, pos)
    case Skipped(after) => ShiftFirstMask(s, needle, i, after);
    case _ =>
  }

  lemma RewriteFirst(v: string, needle: string, w: nat -> string, k: nat, from: nat, to: nat)
    requires needle != "" && FirstMask(v, needle, 0) == Some((from, to))
    ensures from <= to <= |v| && Rewrite(v, needle, w, k) == v[..from] + w(k) + Rewrite(v[to..], needle, w, k + 1)
  {
    hide FirstMask;
  }

  lemma RewriteNone(v: string, needle: string, w: nat -> string, k: nat)
    requires needle != "" && FirstMask(v, needle, 0) == None
    ensures Rewrite(v, needle, w, k) == v
  {
    hide FirstMask;
  }

  /** When the scan gets through a without masking anything there, a is kept. */
  lemma PassThrough(a: string, v: string, needle: string, w: nat -> string, k: nat)
    requires needle != "" && FirstMask(a + v, needle, 0) == FirstMask(a + v, needle, |a|)
    ensures Rewrite(a + v, needle, w, k) == a + Rewrite(v, needle, w, k)
  {
    hide FirstMask, Rewrite;
    var s := a + v;
    assert s[|a|..] == v;
    ShiftFirstMask(s, needle, |a|, 0);
    match FirstMask(v, needle, 0)
    case None =>
      RewriteNone(v, needle, w, k);
      RewriteNone(s, needle, w, k);
    case Some((p, e)) =>
      RewriteFirst(v, needle, w, k, p, e);
      RewriteFirst(s, needle, w, k, |a| + p, |a| + e);
      SliceBehind(a, v, p, e);
      Assoc(a, v[..p] + w(k), Rewrite(v[e..], needle, w, k + 1));
      Assoc(a, v[..p], w(k));
  }

  lemma SliceBehind(a: string, v: string, p: nat, e: nat)
    requires p <= |v| && e <= |v|
    ensures (a + v)[..|a| + p] == a + v[..p] && (a + v)[|a| + e..] == v[e..]
  {
  }

  lemma NoMatchHere(s: string, needle: string)
    requires needle != "" && s != "" && !MatchAt(s, needle, 0)
    ensures FirstMask(s, needle, 0) == FirstMask(s, needle, 1)
  {
    hide ValueStart, MatchAt;
    assert StrStr(s, needle, 0) == StrStr(s, needle, 1);
    assert NextStep(s, needle, 0) == NextStep(s, needle, 1);
  }

  /** No needle starts inside a text without quotes. */
  lemma {:induction false} PassPiece(u: string, v: string, name: string, w: nat -> string, k: nat)
    requires QUOTE !in u
    ensures Quoted(name) != "" && Rewrite(u + v, Quoted(name), w, k) == u + Rewrite(v, Quoted(name), w, k)
    decreases |u|
  {
    hide Rewrite, FirstMask;
    var needle := Quoted(name);
    if u == "" {
      assert u + v == v;
    } else {
      var s, rest := u + v, u[1..] + v;
      assert s == u[..1] + rest && s[0] == u[0];
      assert !MatchAt(s, needle, 0) by { assert s[0 + 0] != needle[0]; }
      NoMatchHere(s, needle);
      PassThrough(u[..1], rest, needle, w, k);
      PassPiece(u[1..], v, name, w, k);
      assert u[..1] + (u[1..] + Rewrite(v, needle, w, k)) == u + Rewrite(v, needle, w, k);
    }
  }

  ghost predicate EndsPiece(r: string) { r == "" || r[0] == QUOTE }

  lemma {:induction false} BlanksInFront(c: string, r: string, i: nat)
    requires EndsPiece(r) && i <= |c|
    ensures SkipBlanks(c + r, i) == SkipBlanks(c, i)
    decreases |c| - i
  {
    assert i < |c| ==> (c + r)[i] == c[i];
    if i < |c| && IsBlank(c[i]) { BlanksInFront(c, r, i + 1); }
  }

  /** A quoted value follows exactly if the piece is a colon and a quote follows it. */
  lemma ValueBehind(c: string, r: string)
    requires EndsPiece(r) && QUOTE !in c
    ensures ValueStart(c + r, 0) == if IsColon(c) && r != "" then Some(|c| + 1) else None
  {
    hide SkipBlanks;
    var s := c + r;
    assert forall i :: 0 <= i < |c| ==> s[i] == c[i];
    BlanksInFront(c, r, 0);
    var b := SkipBlanks(c, 0);
    if At(s, b) == ':' {
      BlanksInFront(c, r, b + 1);
    }
  }

  lemma BehindEnds(ps: seq<string>)
    ensures EndsPiece(Behind(ps)) && (Behind(ps) == "" <==> ps == [])
  {
  }

  /** The needle is at the first quote exactly if the pieces start with the name. */
  lemma MatchIffName(ps: seq<string>, name: string)
    requires ps != [] && AreParts(ps, QUOTE) && QUOTE !in name
    ensures MatchAt(Behind(ps), Quoted(name), 0) <==> StartsName(ps, name)
  {
    var v, needle, r := Behind(ps), Quoted(name), Behind(ps[1..]);
    BehindEnds(ps[1..]);
    var c := ps[0];
    assert v == [QUOTE] + c + r;
    assert forall i :: 0 <= i < |c| ==> v[1 + i] == c[i];
    assert forall i :: 0 <= i < |name| ==> needle[1 + i] == name[i];
    if MatchAt(v, needle, 0) {
      assert forall k :: 0 <= k < |needle| ==> v[0 + k] == needle[k];
      assert needle[|name| + 1] == QUOTE && v[0 + (|name| + 1)] == needle[|name| + 1];
      assert v[1..] == c + r && forall i :: 0 <= i < |name| ==> (c + r)[i] == v[0 + (1 + i)] == name[i];
      PieceIsName(c, r, name);
    }
  }

  /** A text that goes on with the name and a quote has the name as its first piece. */
  lemma PieceIsName(c: string, r: string, name: string)
    requires QUOTE !in c && QUOTE !in name && EndsPiece(r)
    requires |name| < |c + r| && (forall i :: 0 <= i < |name| ==> (c + r)[i] == name[i]) && (c + r)[|name|] == QUOTE
    ensures c == name && r != ""
  {
    var t := c + r;
    assert forall i :: 0 <= i < |c| ==> t[i] == c[i];
    EndUnique(t, 0, |name|);
    EndUnique(t, 0, |c|);
  }

  /** One step of the scan, on pieces. */
  lemma ScanOther(ps: seq<string>, name: string, w: nat -> string, k: nat)
    requires ps != [] && AreParts(ps, QUOTE) && QUOTE !in name && !StartsName(ps, name)
    ensures Quoted(name) != ""
    ensures Rewrite(Behind(ps), Quoted(name), w, k) == [QUOTE] + ps[0] + Rewrite(Behind(ps[1..]), Quoted(name), w, k)
  {
    hide Rewrite, FirstMask, MatchAt;
    var needle, r := Quoted(name), Behind(ps[1..]);
    MatchIffName(ps, name);
    NoMatchHere(Behind(ps), needle);
    assert Behind(ps) == [QUOTE] + (ps[0] + r);
    PassThrough([QUOTE], ps[0] + r, needle, w, k);
    PassPiece(ps[0], r, name, w, k);
    assert [QUOTE] + (ps[0] + Rewrite(r, needle, w, k)) == [QUOTE] + ps[0] + Rewrite(r, needle, w, k);
  }

  lemma StepFrom(v: string, needle: string)
    requires needle != "" && MatchAt(v, needle, 0)
    ensures NextStep(v, needle, 0) ==
            match ValueStart(v, |needle|)
            case None => Skipped(|needle|)
            case Some(p) => Masked(p, ChrOrEnd(v, QUOTE, p))
  {
    hide ValueStart, ChrOrEnd;
    assert StrStr(v, needle, 0) == 0;
  }

  lemma ValueAtName(ps: seq<string>, name: string)
    requires AreParts(ps, QUOTE) && StartsName(ps, name)
    ensures var v, after := Behind(ps), |Quoted(name)|;
            after <= |v| && ValueStart(v, after) == if StartsValue(ps, name) then Some(after + |ps[1]| + 1) else None
  {
    hide IsColon, ValueStart, Behind, Quoted, EndsPiece, AreParts;
    TextAtName(ps, name);
    BehindEnds(ps[2..]);
    NoQuoteIn(ps, 1);
    ValueBehind(ps[1], Behind(ps[2..]));
    ShiftValueStart(Behind(ps), |Quoted(name)|, 0);
  }

  /** What the scan finds behind the name. */
  lemma StepAtName(ps: seq<string>, name: string)
    requires AreParts(ps, QUOTE) && QUOTE !in name && StartsName(ps, name)
    ensures var after := |name| + 2; var from := after + |ps[1]| + 1;
            NextStep(Behind(ps), Quoted(name), 0) ==
            if StartsValue(ps, name) then Masked(from, from + |ps[2]|) else Skipped(after)
  {
    hide IsColon, NextStep, MatchAt, ValueStart, ChrOrEnd, Behind, Quoted, AreParts;
    MatchIffName(ps, name);
    TextAtName(ps, name);
    StepFrom(Behind(ps), Quoted(name));
    ValueAtName(ps, name);
    if StartsValue(ps, name) {
      SuffixParts(ps, 2);
      TextAtValue(ps);
      ValueEnds(Behind(ps), |name| + |ps[1]| + 3, ps[2..]);
    }
  }

  lemma NoQuoteIn(ps: seq<string>, i: nat)
    requires AreParts(ps, QUOTE) && i < |ps|
    ensures QUOTE !in ps[i]
  {
  }

  lemma DropFront(a: string, b: string)
    ensures (a + b)[|a|..] == b && (a + b)[..|a|] == a
  {
  }

  lemma TextAtName(ps: seq<string>, name: string)
    requires StartsName(ps, name)
    ensures |Quoted(name)| == |name| + 2 && Behind(ps) == Quoted(name) + (ps[1] + Behind(ps[2..]))
    ensures Behind(ps)[|Quoted(name)|..] == ps[1] + Behind(ps[2..])
  {
    assert ps[1..][0] == ps[1] && ps[1..][1..] == ps[2..];
    DropFront(Quoted(name), ps[1] + Behind(ps[2..]));
  }

  lemma Assoc(a: string, b: string, c: string)
    ensures a + (b + c) == (a + b) + c
  {
  }

  lemma BehindStep(ps: seq<string>)
    requires ps != []
    ensures Behind(ps) == ([QUOTE] + ps[0]) + Behind(ps[1..])
  {
  }

  lemma TextAtValue(ps: seq<string>)
    requires |ps| >= 2
    ensures var head := [QUOTE] + ps[0] + ([QUOTE] + ps[1]);
            && Behind(ps) == head + Behind(ps[2..]) && Behind(ps)[|head|..] == Behind(ps[2..])
  {
    hide Behind;
    BehindStep(ps);
    BehindStep(ps[1..]);
    assert ps[1..][0] == ps[1] && ps[1..][1..] == ps[2..];
    Assoc([QUOTE] + ps[0], [QUOTE] + ps[1], Behind(ps[2..]));
    DropFront([QUOTE] + ps[0] + ([QUOTE] + ps[1]), Behind(ps[2..]));
  }

  lemma ValueEnds(v: string, from: nat, ps: seq<string>)
    requires ps != [] && AreParts(ps, QUOTE) && 0 < from <= |v| && v[from - 1..] == Behind(ps)
    ensures ChrOrEnd(v, QUOTE, from) == from + |ps[0]| <= |v|
    ensures v[from + |ps[0]|..] == Behind(ps[1..])
  {
    var t, r := v[from - 1..], Behind(ps[1..]);
    BehindEnds(ps[1..]);
    assert t == [QUOTE] + ps[0] + r;
    assert forall i :: 0 <= i < |ps[0]| ==> v[from + i] == t[1 + i] == ps[0][i];
    assert v[from + |ps[0]|..] == t[1 + |ps[0]|..] == r;
    if r != "" { assert v[from + |ps[0]|] == r[0]; }
    EndUnique(v, from, from + |ps[0]|);
  }

  lemma ScanName(ps: seq<string>, name: string, w: nat -> string, k: nat)
    requires AreParts(ps, QUOTE) && QUOTE !in name && StartsName(ps, name) && !StartsValue(ps, name)
    ensures Quoted(name) != ""
    ensures Rewrite(Behind(ps), Quoted(name), w, k) ==
            [QUOTE] + ps[0] + ([QUOTE] + ps[1] + Rewrite(Behind(ps[2..]), Quoted(name), w, k))
  {
    hide Rewrite, NextStep;
    var v, needle, r := Behind(ps), Quoted(name), Behind(ps[2..]);
    StepAtName(ps, name);
    assert ps[1..][0] == ps[1] && ps[1..][1..] == ps[2..];
    assert v == needle + (ps[1] + r);
    assert FirstMask(v, needle, 0) == FirstMask(v, needle, |needle|);
    PassThrough(needle, ps[1] + r, needle, w, k);
    PassPiece(ps[1], r, name, w, k);
    assert needle + (ps[1] + Rewrite(r, needle, w, k)) == [QUOTE] + ps[0]
        + ([QUOTE] + ps[1] + Rewrite(r, needle, w, k));
  }

  lemma ScanValue(ps: seq<string>, name: string, w: nat -> string, k: nat)
    requires AreParts(ps, QUOTE) && QUOTE !in name && StartsValue(ps, name)
    ensures Quoted(name) != ""
    ensures Rewrite(Behind(ps), Quoted(name), w, k) ==
            [QUOTE] + ps[0] + ([QUOTE] + ps[1] + ([QUOTE] + w(k) + Rewrite(Behind(ps[3..]), Quoted(name), w, k + 1)))
  {
    hide NextStep, IsColon, Rewrite, Behind, FirstMask, AreParts;
    var v, needle := Behind(ps), Quoted(name);
    var from := |ps[0]| + |ps[1]| + 3;
    FirstMaskAtName(ps, name);
    RewriteFirst(v, needle, w, k, from, from + |ps[2]|);
    Regroup(ps[0], ps[1], w(k), Rewrite(Behind(ps[3..]), needle, w, k + 1));
  }

  lemma FirstMaskAtName(ps: seq<string>, name: string)
    requires AreParts(ps, QUOTE) && QUOTE !in name && StartsValue(ps, name)
    ensures var v, from := Behind(ps), |ps[0]| + |ps[1]| + 3;
            && Quoted(name) != "" && FirstMask(v, Quoted(name), 0) == Some((from, from + |ps[2]|))
            && v[..from] == ([QUOTE] + ps[0] + ([QUOTE] + ps[1])) + [QUOTE]
            && v[from + |ps[2]|..] == Behind(ps[3..])
  {
    hide NextStep, IsColon, Behind, AreParts, ChrOrEnd, Quoted;
    var v := Behind(ps);
    var head := [QUOTE] + ps[0] + ([QUOTE] + ps[1]);
    StepAtName(ps, name);
    TextAtName(ps, name);
    TextAtValue(ps);
    SuffixParts(ps, 2);
    ValueEnds(v, |head| + 1, ps[2..]);
    assert ps[2..][0] == ps[2] && ps[2..][1..] == ps[3..];
    BehindStarts(ps[2..]);
    TakeFront(v, head, Behind(ps[2..]));
  }

  lemma TakeFront(v: string, a: string, b: string)
    requires v == a + b && b != "" && b[0] == QUOTE
    ensures v[..|a| + 1] == a + [QUOTE]
  {
  }

  lemma BehindStarts(ps: seq<string>)
    requires ps != []
    ensures Behind(ps) != "" && Behind(ps)[0] == QUOTE
  {
  }

  lemma Regroup(a: string, b: string, c: string, rest: string)
    ensures ([QUOTE] + a + ([QUOTE] + b)) + [QUOTE] + c + rest == [QUOTE] + a + ([QUOTE] + b + ([QUOTE] + c + rest))
  {
  }

  /** A pass over the text is a pass over its pieces. */
  lemma {:induction false} RewriteBehind(ps: seq<string>, name: string, w: nat -> string, k: nat)
    requires AreParts(ps, QUOTE) && QUOTE !in name
    ensures Quoted(name) != "" && Rewrite(Behind(ps), Quoted(name), w, k) == Behind(Replaced(ps, name, w, k))
    decreases |ps|
  {
    hide Rewrite, IsColon, AreParts, Quoted;
    if ps == [] {
      NothingToMask(name, w, k);
    } else {
      SuffixParts(ps, Advance(ps, name));
      if StartsValue(ps, name) {
        ScanValue(ps, name, w, k);
        RewriteBehind(ps[3..], name, w, k + 1);
        BehindThree(ps[0], ps[1], w(k), Replaced(ps[3..], name, w, k + 1));
      } else if StartsName(ps, name) {
        ScanName(ps, name, w, k);
        RewriteBehind(ps[2..], name, w, k);
        assert ps[..2] == [ps[0], ps[1]];
        BehindTwo(ps[0], ps[1], Replaced(ps[2..], name, w, k));
      } else {
        ScanOther(ps, name, w, k);
        RewriteBehind(ps[1..], name, w, k);
        assert ps[..1] == [ps[0]];
        assert ([ps[0]] + Replaced(ps[1..], name, w, k))[1..] == Replaced(ps[1..], name, w, k);
      }
    }
  }

  lemma NothingToMask(name: string, w: nat -> string, k: nat)
    ensures Quoted(name) != "" && Rewrite("", Quoted(name), w, k) == ""
  {
    assert !MatchAt("", Quoted(name), 0);
  }

  lemma SuffixParts(ps: seq<string>, n: nat)
    requires AreParts(ps, QUOTE) && n <= |ps|
    ensures AreParts(ps[n..], QUOTE)
  {
  }

  lemma BehindTwo(a: string, b: string, rest: seq<string>)
    ensures Behind([a, b] + rest) == [QUOTE] + a + ([QUOTE] + b + Behind(rest))
  {
    assert ([a, b] + rest)[1..] == [b] + rest && ([b] + rest)[1..] == rest;
  }

  lemma BehindThree(a: string, b: string, c: string, rest: seq<string>)
    ensures Behind([a, b, c] + rest) == [QUOTE] + a + ([QUOTE] + b + ([QUOTE] + c + Behind(rest)))
  {
    assert ([a, b, c] + rest)[1..] == [b, c] + rest;
    BehindTwo(b, c, rest);
  }
}
