/**
 * What the log shows of a JSON text: which values of which members are starred out, and exactly when these
 * are the values of the sensitive members.
 */
module JsonRedaction {
  import opened CStrings
  import opened JsonTexts
  import opened LogRedaction
  import opened MemberRedaction
  import opened Options
  import opened QuotedPieces
  import opened Splitting

  // ---- the pieces of a text ----

  function Pieces(d: Doc): (all: seq<string>)
    ensures all != [] && all[0] == d.gap
  {
    match d
    case Last(gap) => [gap]
    case Then(gap, raw, rest) => [gap] + Split(raw, QUOTE) + Pieces(rest)
  }

  lemma {:induction false} JoinBoth(a: seq<string>, b: seq<string>, c: char)
    requires a != [] && b != []
    ensures Join(a + b, c) == Join(a, c) + [c] + Join(b, c)
    decreases |a|
  {
    assert (a + b)[0] == a[0] && (a + b)[1..] == a[1..] + b;
    if |a| > 1 { JoinBoth(a[1..], b, c); }
  }

  lemma {:induction false} PiecesText(d: Doc)
    ensures Join(Pieces(d), QUOTE) == DocText(d)
  {
    hide Join;
    match d
    case Last(gap) => JoinOne(gap);
    case Then(gap, raw, rest) =>
      PiecesText(rest);
      JoinOfSplit(raw, QUOTE);
      JoinOne(gap);
      JoinBoth([gap], Split(raw, QUOTE), QUOTE);
      JoinBoth([gap] + Split(raw, QUOTE), Pieces(rest), QUOTE);
  }

  lemma JoinOne(s: string)
    ensures Join([s], QUOTE) == s
  {
  }

  /** Also after values have been replaced, the pieces are those of the text. */
  lemma {:induction false} ExchangeParts(d: Doc, f: Field -> string, name: Option<string>)
    requires Regular(d)
    ensures AreParts(Pieces(DocExchange(d, f, name)), QUOTE)
  {
    hide RawOk, IsKeyGap, FirstOf;
    match d
    case Last(gap) =>
    case Then(gap, raw, rest) =>
      ExchangeParts(rest, f, Some(raw));
      JoinOfSplit(DocExchange(d, f, name).raw, QUOTE);
  }

  lemma {:induction false} PiecesParts(d: Doc)
    requires Regular(d)
    ensures AreParts(Pieces(d), QUOTE) && Split(DocText(d), QUOTE) == Pieces(d)
  {
    hide RawOk, IsKeyGap, FirstOf;
    if d.Then? {
      PiecesParts(d.rest);
      JoinOfSplit(d.raw, QUOTE);
    }
    PiecesText(d);
    SplitOfJoin(Pieces(d), QUOTE);
  }

  // ---- what the pieces can look like ----

  predicate EndsEscaped(p: string) { p != "" && p[|p| - 1] == '\\' }

  /** A quote inside a string has a backslash in front of it. */
  lemma {:induction false} BeforeQuote(raw: string)
    requires RawOk(raw) && ChrOrEnd(raw, QUOTE, 0) < |raw|
    ensures var e := ChrOrEnd(raw, QUOTE, 0); e >= 1 && raw[e - 1] == '\\' && RawOk(raw[e + 1..])
    decreases |raw|
  {
    hide ChrOrEnd;
    var e, n := ChrOrEnd(raw, QUOTE, 0), if raw[0] == '\\' then 2 else 1;
    if e >= n {
      var r := raw[n..];
      assert r[e - n] == QUOTE && forall i :: 0 <= i < e - n ==> r[i] == raw[n + i];
      EndUnique(r, 0, e - n);
      BeforeQuote(r);
      assert r[e - n + 1..] == raw[e + 1..];
    }
  }

  lemma {:induction false} InnerPieces(raw: string, i: nat)
    requires RawOk(raw) && i + 1 < |Split(raw, QUOTE)|
    ensures EndsEscaped(Split(raw, QUOTE)[i])
    decreases |raw|
  {
    BeforeQuote(raw);
    if i > 0 { InnerPieces(raw[ChrOrEnd(raw, QUOTE, 0) + 1..], i - 1); }
  }

  lemma EscapedIsNothing(p: string)
    requires EndsEscaped(p)
    ensures p !in SENSITIVE_MEMBERS && !IsColon(p)
  {
  }

  lemma GapIsNoName(s: string)
    requires IsPunct(FirstOf(s))
    ensures s !in SENSITIVE_MEMBERS
  {
  }

  /** A colon with blanks around it: white space, but no line break. */
  lemma {:induction false} ColonIff(s: string)
    ensures IsColon(s) <==> IsKeyGap(s) && '\n' !in s && '\r' !in s
  {
    if IsColon(s) { BlanksAreSpace(s, SkipBlanks(s, 0)); }
    if IsKeyGap(s) && '\n' !in s && '\r' !in s {
      var b := KeyGapShape(s);
      BlanksEnd(s, 0, b);
      BlanksEnd(s, b + 1, |s|);
    }
  }

  lemma {:induction false} BlanksAreSpace(s: string, b: nat)
    requires b < |s| && s[b] == ':' && forall i :: 0 <= i < |s| ==> i == b || IsBlank(s[i])
    ensures IsKeyGap(s) && '\n' !in s && '\r' !in s
    decreases b
  {
    if b > 0 {
      BlanksAreSpace(s[1..], b - 1);
      assert s == s[..1] + s[1..];
    }
  }

  lemma {:induction false} KeyGapShape(s: string) returns (b: nat)
    requires IsKeyGap(s)
    ensures b < |s| && s[b] == ':' && forall i :: 0 <= i < |s| ==> i == b || IsSpace(s[i])
  {
    b := 0;
    if IsSpace(s[0]) {
      b := KeyGapShape(s[1..]);
      b := b + 1;
    }
  }

  lemma {:induction false} BlanksEnd(s: string, i: nat, e: nat)
    requires i <= e <= |s| && (forall k :: i <= k < e ==> IsBlank(s[k])) && (e < |s| ==> !IsBlank(s[e]))
    ensures SkipBlanks(s, i) == e
    decreases e - i
  {
    if i < e { BlanksEnd(s, i + 1, e); }
  }

  // ---- which pieces of a JSON text are masked ----

  /** No two names in a row, and none between two colons. */
  ghost predicate Apart(all: seq<string>, from: nat) {
    forall p :: from <= p && p + 1 < |all| && all[p] in SENSITIVE_MEMBERS ==>
      all[p + 1] !in SENSITIVE_MEMBERS && (p > 0 && IsColon(all[p - 1]) ==> !IsColon(all[p + 1]))
  }

  lemma {:induction false} RegularApart(d: Doc)
    requires Regular(d)
    ensures Apart(Pieces(d), 1)
  {
    hide IsColon, IsKeyGap, RawOk, FirstOf, IsPunct, Split;
    match d
    case Last(gap) =>
    case Then(gap, raw, rest) =>
      var all, c, tail := Pieces(d), Split(raw, QUOTE), Pieces(rest);
      RegularApart(rest);
      GapIsNoName(rest.gap);
      ColonIff(gap);
      if FirstOf(rest.gap) != ':' { NoColonFirst(rest.gap); ColonIff(rest.gap); }
      forall p | 1 <= p && p + 1 < |all| && all[p] in SENSITIVE_MEMBERS
        ensures all[p + 1] !in SENSITIVE_MEMBERS && (IsColon(all[p - 1]) ==> !IsColon(all[p + 1]))
      {
        if p < |c| {
          InnerPieces(raw, p - 1);
          EscapedIsNothing(c[p - 1]);
          assert false;
        } else if p == |c| {
          assert all[p + 1] == rest.gap;
          if p > 1 { InnerPieces(raw, p - 2); EscapedIsNothing(c[p - 2]); }
        } else {
          assert all[p] == tail[p - |c| - 1] && all[p + 1] == tail[p - |c|] && all[p - 1] == (c + tail)[p - 2];
          assert p - |c| - 1 > 0;
        }
      }
  }

  lemma ApartBehind(ps: seq<string>, n: nat)
    requires Apart(ps, 0) && n <= |ps|
    ensures Apart(ps[n..], 0)
  {
    hide IsColon;
    forall p | 0 <= p && p + 1 < |ps[n..]| && ps[n..][p] in SENSITIVE_MEMBERS
      ensures ps[n..][p + 1] !in SENSITIVE_MEMBERS
      ensures p > 0 && IsColon(ps[n..][p - 1]) ==> !IsColon(ps[n..][p + 1])
    {
      assert ps[n..][p] == ps[n + p];
    }
  }

  lemma {:induction false} ApartMasks(ps: seq<string>, name: string, m: nat)
    requires Apart(ps, 0) && name in SENSITIVE_MEMBERS
    ensures Masks(ps, name, m) <==> 2 <= m < |ps| && ps[m - 2] == name && IsColon(ps[m - 1])
    decreases |ps|
  {
    hide IsColon;
    SensitiveNamesOk();
    assert NameOk(name);
    if ps != [] {
      var n := Advance(ps, name);
      if m >= n {
        ApartBehind(ps, n);
        ApartMasks(ps[n..], name, m - n);
      }
    }
  }

  /** Piece m stands where the scans look for a value. */
  ghost predicate Stands(all: seq<string>, m: int) {
    3 <= m < |all| && all[m - 2] in SENSITIVE_MEMBERS && IsColon(all[m - 1])
  }

  lemma ApartMaskedFor(all: seq<string>, name: string, m: int)
    requires all != [] && Apart(all, 1) && name in SENSITIVE_MEMBERS
    ensures MaskedFor(all, name, m) <==> 3 <= m < |all| && all[m - 2] == name && IsColon(all[m - 1])
  {
    hide IsColon, Masks;
    var ps := all[1..];
    forall p | 0 <= p && p + 1 < |ps| && ps[p] in SENSITIVE_MEMBERS
      ensures ps[p + 1] !in SENSITIVE_MEMBERS && (p > 0 && IsColon(ps[p - 1]) ==> !IsColon(ps[p + 1]))
    {
      assert ps[p] == all[p + 1] && (p > 0 ==> ps[p - 1] == all[p]);
    }
    if m >= 1 { ApartMasks(ps, name, m - 1); }
  }

  lemma LeadsShort(ps: seq<string>, name: string)
    requires LeadsOn(ps, name)
    ensures |ps| >= 3 && ps[0] == name && (IsColon(ps[1]) || ps[1] == name)
  {
    hide IsColon;
  }

  /** No value in such a text is misread as another member's name. */
  lemma ApartValuesOk(all: seq<string>)
    requires all != [] && Apart(all, 1)
    ensures ValuesOk(all, SENSITIVE_MEMBERS)
  {
    hide IsColon, MaskedFor, LeadsOn;
    forall name, other, m: int | name in SENSITIVE_MEMBERS && other in SENSITIVE_MEMBERS && name != other
      ensures !Misread(all, name, other, m)
    {
      ApartMaskedFor(all, name, m);
      if MaskedFor(all, name, m) && LeadsOn(all[m..], other) {
        LeadsShort(all[m..], other);
        assert false;
      }
    }
  }

  lemma ApartIsMasked(all: seq<string>, m: int)
    requires all != [] && Apart(all, 1)
    ensures IsMasked(all, SENSITIVE_MEMBERS, m) <==> Stands(all, m)
  {
    hide IsColon, MaskedFor, IsMasked, ValuesOk, Misread, NamesOk;
    SensitiveNamesOk();
    ApartValuesOk(all);
    OkIsExact(all, SENSITIVE_MEMBERS);
    forall n | n in SENSITIVE_MEMBERS
      ensures MaskedFor(all, n, m) <==> 3 <= m < |all| && all[m - 2] == n && IsColon(all[m - 1])
    {
      ApartMaskedFor(all, n, m);
    }
  }

  // ---- the log of a JSON text ----

  /** The part of a name behind its last escaped quote. */
  function LastPart(name: string): string { Split(name, QUOTE)[|Split(name, QUOTE)| - 1] }

  predicate Matches(name: string, gap: string) { LastPart(name) in SENSITIVE_MEMBERS && IsColon(gap) }

  /** What the log shows of a member's value: the mask in place of the part up to an escaped quote. */
  function LoggedValue(x: Field): string {
    if Matches(x.name, x.gap) then MASK + x.value[ChrOrEnd(x.value, QUOTE, 0)..] else x.value
  }

  lemma SplitFront(a: string, r: string)
    requires QUOTE !in a
    ensures Split(a, QUOTE) == [a] && Split(a + ([QUOTE] + r), QUOTE) == [a] + Split(r, QUOTE)
  {
    hide Split, Join;
    JoinOfSplit(r, QUOTE);
    JoinOne(a);
    SplitOfJoin([a], QUOTE);
    JoinBoth([a], Split(r, QUOTE), QUOTE);
    SplitOfJoin([a] + Split(r, QUOTE), QUOTE);
    assert a + [QUOTE] + r == a + ([QUOTE] + r);
  }

  lemma StarredPieces(x: Field)
    requires Matches(x.name, x.gap)
    ensures Split(LoggedValue(x), QUOTE) == [MASK] + Split(x.value, QUOTE)[1..]
  {
    hide Matches, Split;
    var e, v := ChrOrEnd(x.value, QUOTE, 0), x.value;
    assert v[..e] + v[e..] == v;
    SplitFront(v[..e], v[if e < |v| then e + 1 else e..]);
    SplitFront(MASK, v[if e < |v| then e + 1 else e..]);
    if e < |v| {
      assert v[e..] == [QUOTE] + v[e + 1..];
    } else {
      assert v[..e] == v && MASK + v[e..] == MASK;
    }
  }

  /** The value behind a matching name is where the scans look. */
  ghost predicate StandsFirst(d: Doc, name: Option<string>) {
    d.Then? && name.Some? && Matches(name.value, d.gap)
  }

  lemma {:induction false} LoggedPieces(d: Doc, name: Option<string>, m: nat)
    requires Regular(d) && m < |Pieces(d)|
    ensures var all, out := Pieces(d), Pieces(DocExchange(d, LoggedValue, name));
            |out| == |all| && out[m] == if Stands(all, m) || (m == 1 && StandsFirst(d, name)) then MASK else all[m]
  {
    hide IsColon, IsKeyGap, RawOk, FirstOf, IsPunct, Split, LoggedValue;
    match d
    case Last(gap) =>
    case Then(gap, raw, rest) =>
      var all, c, c' := Pieces(d), Split(raw, QUOTE), Split(DocExchange(d, LoggedValue, name).raw, QUOTE);
      FirstLogged(gap, raw, name);
      assert |c'| == |c| && c'[1..] == c[1..];
      if m <= |c| {
        LoggedPieces(rest, Some(raw), 0);
        StandsInFront(d, m);
      } else {
        hide Stands, StandsFirst;
        LoggedPieces(rest, Some(raw), m - |c| - 1);
        StandsBehind(d, m);
      }
  }

  lemma FirstLogged(gap: string, raw: string, name: Option<string>)
    ensures var c := Split(raw, QUOTE);
            var c' := Split(DocExchange(Then(gap, raw, Last("")), LoggedValue, name).raw, QUOTE);
            c' == if name.Some? && Matches(name.value, gap) then [MASK] + c[1..] else c
  {
    hide IsColon, IsKeyGap, Split;
    ColonIff(gap);
    if name.Some? && Matches(name.value, gap) { StarredPieces(Field(name.value, gap, raw)); }
  }

  /** No value stands at the first gap or inside the first string. */
  lemma StandsInFront(d: Doc, m: int)
    requires Regular(d) && d.Then? && m <= |Split(d.raw, QUOTE)|
    ensures !Stands(Pieces(d), m)
  {
    hide IsColon, IsKeyGap, RawOk, FirstOf, IsPunct, Split;
    var c := Split(d.raw, QUOTE);
    if m >= 3 {
      InnerPieces(d.raw, m - 2);
      EscapedIsNothing(c[m - 2]);
      assert Pieces(d)[m - 1] == c[m - 2];
    }
  }

  /** Behind the first string, a value stands where it does in the rest, or it is the first value there. */
  lemma StandsBehind(d: Doc, m: int)
    requires Regular(d) && d.Then? && |Split(d.raw, QUOTE)| < m < |Pieces(d)|
    ensures var k := m - |Split(d.raw, QUOTE)| - 1;
            Stands(Pieces(d), m) <==> Stands(Pieces(d.rest), k) || (k == 1 && StandsFirst(d.rest, Some(d.raw)))
  {
    hide IsColon, IsKeyGap, RawOk, FirstOf, IsPunct, Split;
    var all, c, tail := Pieces(d), Split(d.raw, QUOTE), Pieces(d.rest);
    var k := m - |c| - 1;
    assert all == ([d.gap] + c) + tail;
    if k == 0 {
      StandsNotBehind(d);
    } else {
      assert all[m - 1] == tail[k - 1];
      GapIsNoName(d.rest.gap);
      if k == 1 {
        assert all[m - 2] == c[|c| - 1];
      } else {
        assert all[m - 2] == tail[k - 2];
      }
    }
  }

  /** Nor does one stand at the gap behind the first string. */
  lemma StandsNotBehind(d: Doc)
    requires Regular(d) && d.Then?
    ensures !Stands(Pieces(d), |Split(d.raw, QUOTE)| + 1)
  {
    hide IsColon, IsKeyGap, RawOk, FirstOf, IsPunct, Split;
    var c := Split(d.raw, QUOTE);
    if |c| >= 2 {
      InnerPieces(d.raw, |c| - 2);
      EscapedIsNothing(c[|c| - 2]);
      assert Pieces(d)[|c| - 1] == c[|c| - 2];
    }
  }

  lemma DocIsLogged(d: Doc)
    requires Regular(d)
    ensures RedactAll(DocText(d), SENSITIVE_MEMBERS) == DocText(DocExchange(d, LoggedValue, None))
  {
    hide IsMasked, Stands, RedactAll, Regular, NamesOk, Join, AreParts;
    var all, logged := Pieces(d), Pieces(DocExchange(d, LoggedValue, None));
    PiecesText(d);
    PiecesParts(d);
    SensitiveNamesOk();
    NoQuoteInNames(SENSITIVE_MEMBERS);
    var out := RedactAllMasks(all, SENSITIVE_MEMBERS);
    RegularApart(d);
    LoggedPieces(d, None, 0);
    forall m | 0 <= m < |all| ensures out[m] == logged[m] {
      ApartIsMasked(all, m);
      LoggedPieces(d, None, m);
    }
    assert out == logged;
    PiecesText(DocExchange(d, LoggedValue, None));
  }

  // ---- documents ----

  /** A JSON text: a value with white space around it. */
  datatype Document = Document(lead: string, value: Json, trail: string)
  {
    ghost predicate Valid() { AllSpace(lead) && JsonOk(value) && AllSpace(trail) }

    function Text(): string { lead + Render(value) + trail }

    function With(f: Field -> string): Document { this.(value := Exchange(value, f)) }

    function Strings(): Doc { Before(lead, Layout(value, Last(trail))) }
  }

  lemma StringsText(t: Document)
    ensures DocText(t.Strings()) == t.Text()
  {
    LayoutText(t.value, Last(t.trail));
    BeforeText(t.lead, Layout(t.value, Last(t.trail)));
  }

  lemma StringsRegular(t: Document, f: Field -> string)
    requires t.Valid()
    ensures Regular(t.Strings()) && DocExchange(t.Strings(), f, None) == t.With(f).Strings()
    ensures DocFields(t.Strings(), None) == Fields(t.value)
  {
    hide IsKeyGap, FirstOf, AllSpace, JsonOk, Layout;
    var k := Last(t.trail);
    SpaceFirst(t.trail);
    SpaceQuoteFree(t.trail);
    SpaceQuoteFree(t.lead);
    LayoutRegular(t.value, k);
    LayoutExchange(t.value, k, f);
    var d := Layout(t.value, k);
    StartsKeyless(t.value, d, k);
    FirstOfBoth(t.lead, d.gap);
    SpaceFirst(t.lead);
    NoColonFirst(t.lead + d.gap);
    BeforeRegular(t.lead, d);
    Unnamed(t.lead, d, f, None);
  }

  /** In a JSON text no value is misread as another member's name. */
  lemma JsonValuesOk(t: Document)
    requires t.Valid()
    ensures ValuesOk(Split(t.Text(), QUOTE), SENSITIVE_MEMBERS)
  {
    hide ValuesOk, Regular, Apart, Document.Strings;
    StringsText(t);
    StringsRegular(t, LoggedValue);
    PiecesParts(t.Strings());
    RegularApart(t.Strings());
    ApartValuesOk(Pieces(t.Strings()));
  }

  /** The log of a JSON text is that text with each member's value as LoggedValue says. */
  lemma JsonIsLogged(t: Document)
    requires t.Valid()
    ensures RedactAll(t.Text(), SENSITIVE_MEMBERS) == t.With(LoggedValue).Text()
  {
    hide RedactAll, LoggedValue, Document.Strings, Document.Text;
    StringsText(t);
    StringsRegular(t, LoggedValue);
    DocIsLogged(t.Strings());
    StringsText(t.With(LoggedValue));
  }

  // ---- sensitive members ----

  function HexDigit(c: char): (r: Option<nat>) {
    if '0' <= c <= '9' then Some(c as int - '0' as int)
    else if 'a' <= c <= 'f' then Some(c as int - 'a' as int + 10)
    else if 'A' <= c <= 'F' then Some(c as int - 'A' as int + 10)
    else None
  }

  function Hex(s: string): (r: Option<nat>)
    decreases |s|
  {
    if s == "" then Some(0)
    else match (Hex(s[..|s| - 1]), HexDigit(s[|s| - 1]))
      case (Some(high), Some(low)) => Some(16 * high + low)
      case _ => None
  }

  /** The character that a backslash and c stand for. */
  function Escape(c: char): (r: Option<char>) {
    if c == QUOTE || c == '\\' || c == '/' then Some(c)
    else if c == 'b' then Some(8 as char)
    else if c == 'f' then Some(12 as char)
    else if c == 'n' then Some('\n')
    else if c == 'r' then Some('\r')
    else if c == 't' then Some('\t')
    else None
  }

  /** raw is a spelling of s, which is ASCII (RFC 8259, section 7). */
  predicate Spells(raw: string, s: string) {
    if raw == "" || s == "" then raw == s
    else if raw[0] != '\\' then raw[0] == s[0] && Spells(raw[1..], s[1..])
    else if |raw| >= 6 && raw[1] == 'u' then Hex(raw[2..6]) == Some(s[0] as int) && Spells(raw[6..], s[1..])
    else |raw| >= 2 && Escape(raw[1]) == Some(s[0]) && Spells(raw[2..], s[1..])
  }

  ghost predicate IsSecret(name: string) { exists n :: n in SENSITIVE_MEMBERS && Spells(name, n) }

  /** A JSON text with the values of all sensitive members starred out. */
  ghost function CensoredValue(x: Field): string { if IsSecret(x.name) then MASK else x.value }

  predicate OnOneLine(gap: string) { '\n' !in gap && '\r' !in gap }

  lemma {:induction false} SpelledPlainly(raw: string, s: string)
    requires '\\' !in raw
    ensures Spells(raw, s) <==> raw == s
  {
    if raw != "" && s != "" { SpelledPlainly(raw[1..], s[1..]); }
    assert raw != "" ==> raw == [raw[0]] + raw[1..];
    assert s != "" ==> s == [s[0]] + s[1..];
  }

  lemma {:induction false} HexQuoteFree(s: string)
    requires Hex(s).Some?
    ensures QUOTE !in s
    decreases |s|
  {
    if s != "" {
      HexQuoteFree(s[..|s| - 1]);
      assert s == s[..|s| - 1] + [s[|s| - 1]];
    }
  }

  lemma {:induction false} SpelledQuoteFree(raw: string, s: string)
    requires Spells(raw, s) && QUOTE !in s
    ensures QUOTE !in raw
    decreases |raw|
  {
    hide Hex;
    if raw != "" {
      var n := if raw[0] != '\\' then 1 else if |raw| >= 6 && raw[1] == 'u' then 6 else 2;
      SpelledQuoteFree(raw[n..], s[1..]);
      if n == 6 { HexQuoteFree(raw[2..6]); }
      assert raw == raw[..n] + raw[n..];
      assert raw[..n] == if n == 1 then [raw[0]] else [raw[0], raw[1]] + raw[2..n];
    }
  }

  lemma NoBackslashInNames(n: string)
    requires n in SENSITIVE_MEMBERS
    ensures '\\' !in n && QUOTE !in n
  {
  }

  lemma WholePart(name: string)
    requires QUOTE !in name
    ensures LastPart(name) == name
  {
    EndUnique(name, 0, |name|);
  }

  /** The scans know a sensitive name exactly if it is spelled without escapes. */
  lemma SecretMatches(name: string)
    requires IsSecret(name)
    ensures QUOTE !in name && LastPart(name) == name && (name in SENSITIVE_MEMBERS <==> '\\' !in name)
  {
    hide Spells;
    var n :| n in SENSITIVE_MEMBERS && Spells(name, n);
    NoBackslashInNames(n);
    SpelledQuoteFree(name, n);
    WholePart(name);
    if name in SENSITIVE_MEMBERS { NoBackslashInNames(name); }
    if '\\' !in name { SpelledPlainly(name, n); }
  }

  /** A plain sensitive name is one. */
  lemma PlainIsSecret(name: string)
    requires name in SENSITIVE_MEMBERS
    ensures IsSecret(name)
  {
    NoBackslashInNames(name);
    SpelledPlainly(name, name);
  }

  /**
   * The value of a sensitive member is starred out completely if and only if it contains no escaped quote,
   * no line break stands between name and value, and the name is spelled without escapes - or it is three
   * stars anyway. Otherwise it shows, all of it or what is behind its first escaped quote.
   */
  lemma SecretIsHiddenIff(x: Field)
    requires IsSecret(x.name) && IsKeyGap(x.gap)
    ensures LoggedValue(x) == MASK <==>
              x.value == MASK || (QUOTE !in x.value && OnOneLine(x.gap) && '\\' !in x.name)
    ensures var e := ChrOrEnd(x.value, QUOTE, 0);
            LoggedValue(x) == if OnOneLine(x.gap) && '\\' !in x.name then MASK + x.value[e..] else x.value
  {
    hide IsColon, IsKeyGap, LastPart, IsSecret;
    SecretMatches(x.name);
    ColonIff(x.gap);
    var e := ChrOrEnd(x.value, QUOTE, 0);
    assert e < |x.value| ==> x.value[e] == QUOTE;
    assert e == |x.value| <==> QUOTE !in x.value;
  }

  /** The log shows this member as it should be: starred out exactly if it is sensitive. */
  ghost predicate FieldOk(x: Field) {
    if IsSecret(x.name) then x.value == MASK || (QUOTE !in x.value && OnOneLine(x.gap) && '\\' !in x.name)
    else LastPart(x.name) in SENSITIVE_MEMBERS && OnOneLine(x.gap) ==> x.value[..ChrOrEnd(x.value, QUOTE, 0)] == MASK
  }

  lemma FieldOkIff(x: Field)
    requires IsKeyGap(x.gap)
    ensures LoggedValue(x) == CensoredValue(x) <==> FieldOk(x)
  {
    hide IsColon, IsKeyGap, LastPart, IsSecret;
    if IsSecret(x.name) {
      SecretIsHiddenIff(x);
    } else {
      ColonIff(x.gap);
      var e := ChrOrEnd(x.value, QUOTE, 0);
      assert x.value == x.value[..e] + x.value[e..];
      if MASK + x.value[e..] == x.value { assert e == 3; }
    }
  }

  // ---- main results ----

  lemma {:induction false} GapsAreColons(d: Doc, name: Option<string>)
    ensures forall x :: x in DocFields(d, name) ==> IsKeyGap(x.gap)
  {
    hide IsKeyGap;
    if d.Then? { GapsAreColons(d.rest, Some(d.raw)); }
  }

  /** Two ways to replace the values give the same text only if they agree on all. */
  lemma {:induction false} SameText(d: Doc, f: Field -> string, g: Field -> string, name: Option<string>)
    requires forall x :: x in DocFields(d, name) ==> |Split(g(x), QUOTE)| <= |Split(f(x), QUOTE)|
    ensures var a, b := Pieces(DocExchange(d, f, name)), Pieces(DocExchange(d, g, name));
            && |b| <= |a|
            && (a == b ==> forall x :: x in DocFields(d, name) ==> f(x) == g(x))
  {
    hide IsKeyGap, Split;
    match d
    case Last(gap) =>
    case Then(gap, raw, rest) =>
      SameText(rest, f, g, Some(raw));
      var a, b := DocExchange(d, f, name), DocExchange(d, g, name);
      var s, t := Split(a.raw, QUOTE), Split(b.raw, QUOTE);
      if IsValue(name, gap) { assert Field(name.value, gap, raw) in DocFields(d, name); }
      if Pieces(a) == Pieces(b) {
        assert |s| == |t|;
        assert Pieces(a)[1..|s| + 1] == s && Pieces(b)[1..|s| + 1] == t;
        assert Pieces(a)[|s| + 1..] == Pieces(a.rest) && Pieces(b)[|s| + 1..] == Pieces(b.rest);
        JoinOfSplit(a.raw, QUOTE);
        JoinOfSplit(b.raw, QUOTE);
      }
  }

  lemma {:induction false} SameExchange(d: Doc, f: Field -> string, g: Field -> string, name: Option<string>)
    requires forall x :: x in DocFields(d, name) ==> f(x) == g(x)
    ensures DocExchange(d, f, name) == DocExchange(d, g, name)
  {
    hide IsKeyGap;
    if d.Then? {
      if IsValue(name, d.gap) { assert Field(name.value, d.gap, d.raw) in DocFields(d, name); }
      SameExchange(d.rest, f, g, Some(d.raw));
    }
  }

  /** Censoring makes no more pieces than the log has. */
  lemma FewerPieces(x: Field)
    ensures |Split(CensoredValue(x), QUOTE)| <= |Split(LoggedValue(x), QUOTE)|
  {
    hide IsSecret, Matches;
    WholePart(MASK);
    if Matches(x.name, x.gap) { StarredPieces(x); }
    if IsSecret(x.name) { EndUnique(MASK, 0, 3); }
  }

  /**
   * The log of a JSON text is that text with the values of exactly the sensitive members starred out, if and
   * only if each member with a string value is as FieldOk says.
   */
  lemma JsonIsCensoredIff(t: Document)
    requires t.Valid()
    ensures RedactAll(t.Text(), SENSITIVE_MEMBERS) == t.With(CensoredValue).Text() <==>
            forall x :: x in Fields(t.value) ==> FieldOk(x)
  {
    hide RedactAll, LoggedValue, CensoredValue, FieldOk, Document.Strings, Document.Text;
    hide Regular, IsKeyGap, Split, Join;
    var d := t.Strings();
    JsonIsLogged(t);
    StringsRegular(t, LoggedValue);
    StringsRegular(t, CensoredValue);
    StringsText(t.With(LoggedValue));
    StringsText(t.With(CensoredValue));
    var a, b := DocExchange(d, LoggedValue, None), DocExchange(d, CensoredValue, None);
    GapsAreColons(d, None);
    forall x | x in DocFields(d, None)
      ensures |Split(CensoredValue(x), QUOTE)| <= |Split(LoggedValue(x), QUOTE)|
      ensures LoggedValue(x) == CensoredValue(x) <==> FieldOk(x)
    {
      FewerPieces(x);
      FieldOkIff(x);
    }
    SameText(d, LoggedValue, CensoredValue, None);
    ExchangeParts(d, LoggedValue, None);
    ExchangeParts(d, CensoredValue, None);
    PiecesText(a);
    PiecesText(b);
    SplitOfJoin(Pieces(a), QUOTE);
    SplitOfJoin(Pieces(b), QUOTE);
    if forall x :: x in DocFields(d, None) ==> LoggedValue(x) == CensoredValue(x) {
      SameExchange(d, LoggedValue, CensoredValue, None);
    }
  }

  /** The first quote that no backslash escapes, or the end. */
  function EndOfString(s: string): nat {
    if s == "" || s[0] == QUOTE then 0
    else if s[0] == '\\' && |s| >= 2 then 2 + EndOfString(s[2..])
    else 1 + EndOfString(s[1..])
  }

  lemma {:induction false} StringEnds(raw: string, rest: string)
    requires RawOk(raw)
    ensures EndOfString(raw + ([QUOTE] + rest)) == |raw|
    decreases |raw|
  {
    var s := raw + ([QUOTE] + rest);
    if raw == "" {
      assert s[0] == QUOTE;
    } else {
      var n := if raw[0] == '\\' then 2 else 1;
      assert s[n..] == raw[n..] + ([QUOTE] + rest);
      StringEnds(raw[n..], rest);
    }
  }

  lemma {:induction false} GapEnds(d: Doc)
    requires QUOTE !in d.gap
    ensures ChrOrEnd(DocText(d), QUOTE, 0) == |d.gap| && (d.Last? <==> |DocText(d)| == |d.gap|)
    ensures DocText(d)[..|d.gap|] == d.gap
    ensures d.Then? ==> DocText(d)[|d.gap| + 1..] == d.raw + ([QUOTE] + DocText(d.rest))
  {
    var s := DocText(d);
    assert forall i :: 0 <= i < |d.gap| ==> s[i] == d.gap[i];
    EndUnique(s, 0, |d.gap|);
  }

  /** Different strings or gaps make different texts. */
  lemma {:induction false} DocInjective(d: Doc, e: Doc)
    requires Regular(d) && Regular(e) && DocText(d) == DocText(e)
    ensures d == e
  {
    hide DocText, IsKeyGap, FirstOf, RawOk, EndOfString;
    GapEnds(d);
    GapEnds(e);
    if d.Then? {
      StringEnds(d.raw, DocText(d.rest));
      StringEnds(e.raw, DocText(e.rest));
      FrontAndBack(d.raw, [QUOTE] + DocText(d.rest), e.raw, [QUOTE] + DocText(e.rest));
      assert ([QUOTE] + DocText(d.rest))[1..] == ([QUOTE] + DocText(e.rest))[1..];
      DocInjective(d.rest, e.rest);
    }
  }

  lemma FrontAndBack(a: string, b: string, c: string, d: string)
    requires a + b == c + d && |a| == |c|
    ensures a == c && b == d
  {
    assert (a + b)[..|a|] == a && (c + d)[..|c|] == c && (a + b)[|a|..] == b && (c + d)[|c|..] == d;
  }

  lemma {:induction false} CensoredRegular(d: Doc, name: Option<string>)
    requires Regular(d)
    ensures Regular(DocExchange(d, CensoredValue, name))
  {
    hide IsKeyGap, FirstOf, IsSecret;
    if d.Then? {
      CensoredRegular(d.rest, Some(d.raw));
      GapKept(d.rest, CensoredValue, Some(d.raw));
      assert RawOk("***") by { assert "***"[1..] == "**" && "**"[1..] == "*" && "*"[1..] == ""; }
    }
  }

  /**
   * The log shows no more and no less: of two JSON texts whose members are as FieldOk says, the logs are
   * alike exactly if their strings and the gaps between them are, but for the values of sensitive members.
   */
  lemma JsonSecretsDoNotShow(t: Document, u: Document)
    requires t.Valid() && u.Valid()
    requires (forall x :: x in Fields(t.value) ==> FieldOk(x)) && (forall x :: x in Fields(u.value) ==> FieldOk(x))
    ensures RedactAll(t.Text(), SENSITIVE_MEMBERS) == RedactAll(u.Text(), SENSITIVE_MEMBERS) <==>
              DocExchange(t.Strings(), CensoredValue, None) == DocExchange(u.Strings(), CensoredValue, None)
  {
    hide RedactAll, CensoredValue, FieldOk, Document.Strings, Document.Text, Regular;
    JsonIsCensoredIff(t);
    JsonIsCensoredIff(u);
    StringsRegular(t, CensoredValue);
    StringsRegular(u, CensoredValue);
    StringsText(t.With(CensoredValue));
    StringsText(u.With(CensoredValue));
    CensoredRegular(t.Strings(), None);
    CensoredRegular(u.Strings(), None);
    if RedactAll(t.Text(), SENSITIVE_MEMBERS) == RedactAll(u.Text(), SENSITIVE_MEMBERS) {
      DocInjective(t.With(CensoredValue).Strings(), u.With(CensoredValue).Strings());
    }
  }

  // ---- texts of which something shows, or too little ----

  function OneMember(name: string, gap: string, value: string): Document {
    Document("", Object("", Member("", name, gap, Text(value), "", NoMembers)), "")
  }

  /** The text of this document. */
  function MemberText(name: string, gap: string, value: string): string {
    "{\"" + name + "\"" + gap + "\"" + value + "\"}"
  }

  lemma OneMemberText(name: string, gap: string, value: string)
    ensures OneMember(name, gap, value).Text() == MemberText(name, gap, value)
  {
    var members := Member("", name, gap, Text(value), "", NoMembers);
    assert RenderMembers(members) == "\"" + name + "\"" + gap + ("\"" + value + "\"");
    assert Render(Object("", members)) == "{" + RenderMembers(members) + "}";
  }

  lemma OneMemberLogged(name: string, gap: string, value: string)
    requires RawOk(name) && IsKeyGap(gap) && RawOk(value)
    ensures RedactAll(MemberText(name, gap, value), SENSITIVE_MEMBERS) ==
            MemberText(name, gap, LoggedValue(Field(name, gap, value)))
  {
    hide RedactAll, LoggedValue, RawOk, IsKeyGap, Document.Text, MemberText;
    OneMemberText(name, gap, value);
    OneMemberText(name, gap, LoggedValue(Field(name, gap, value)));
    var t, members := OneMember(name, gap, value), Member("", name, gap, Text(value), "", NoMembers);
    assert MembersOk(NoMembers) && JsonOk(Text(value));
    assert MembersOk(members);
    assert JsonOk(t.value);
    JsonIsLogged(t);
    assert ExchangeMembers(NoMembers, LoggedValue) == NoMembers;
    assert ExchangeMembers(members, LoggedValue) == members.(value := Text(LoggedValue(Field(name, gap, value))));
  }

  const TOKEN := "access_token"

  lemma TokenIsSecret()
    ensures TOKEN in SENSITIVE_MEMBERS && IsSecret(TOKEN) && RawOk(TOKEN) && LastPart(TOKEN) == TOKEN
  {
    hide RawOk, IsSecret, LastPart;
    assert TOKEN == SENSITIVE_MEMBERS[0];
    NoBackslashInNames(TOKEN);
    PlainIsSecret(TOKEN);
    WholePart(TOKEN);
    PlainIsRaw(TOKEN);
  }

  /** With a line break between name and value nothing is masked. */
  lemma LineBreakShowsTheValue(secret: string)
    requires RawOk(secret)
    ensures var s := MemberText(TOKEN, ":\n", secret); RedactAll(s, SENSITIVE_MEMBERS) == s
  {
    hide RedactAll, RawOk, LastPart, IsColon;
    TokenIsSecret();
    var gap := ":\n";
    assert gap[1] == '\n' && gap[1..] == "\n";
    ColonIff(gap);
    OneMemberLogged(TOKEN, gap, secret);
  }

  lemma ColonGap()
    ensures IsKeyGap(":") && IsColon(":")
  {
    ColonIff(":");
  }

  /** With a character of the name escaped, which is the same name, nothing is masked. */
  lemma EscapedNameShowsTheValue(secret: string)
    requires RawOk(secret)
    ensures var name := "access" + ESCAPED_UNDERSCORE + "token"; var s := MemberText(name, ":", secret);
            Spells(name, TOKEN) && RedactAll(s, SENSITIVE_MEMBERS) == s
  {
    hide RedactAll, LastPart, IsColon, IsKeyGap, RawOk, Spells, MemberText;
    var name := "access" + ESCAPED_UNDERSCORE + "token";
    EscapedUnderscore("access", "token");
    assert TOKEN == "access" + ("_" + "token") && TOKEN in SENSITIVE_MEMBERS;
    ColonGap();
    SecretMatches(name);
    OneMemberLogged(name, ":", secret);
  }

  const ESCAPED_UNDERSCORE := "\\u005f"

  lemma EscapedUnderscore(a: string, b: string)
    requires '\\' !in a && QUOTE !in a && '\\' !in b && QUOTE !in b
    ensures var name := a + ESCAPED_UNDERSCORE + b; '\\' in name && RawOk(name) && Spells(name, a + ("_" + b))
  {
    var tail := ESCAPED_UNDERSCORE + b;
    assert a + ESCAPED_UNDERSCORE + b == a + tail && ESCAPED_UNDERSCORE[0] == '\\' && (a + tail)[|a|] == '\\';
    PlainFront(a, tail, "_" + b);
    var digits := [ESCAPED_UNDERSCORE[2], ESCAPED_UNDERSCORE[3], ESCAPED_UNDERSCORE[4], ESCAPED_UNDERSCORE[5]];
    assert tail[2..] == digits + b && tail[2..6] == digits && tail[6..] == b && ("_" + b)[1..] == b;
    PlainIsRaw(digits + b);
    HexUnderscore(digits);
    SpelledPlainly(b, b);
  }

  lemma HexUnderscore(s: string)
    requires |s| == 4 && s[0] == '0' && s[1] == '0' && s[2] == '5' && s[3] == 'f'
    ensures Hex(s) == Some('_' as int)
  {
    assert s[..3][..2] == s[..2] && s[..2][..1] == s[..1] && s[..1][..0] == "";
    assert Hex(s[..1]) == Some(0) && Hex(s[..2]) == Some(0) && Hex(s[..3]) == Some(5);
  }

  lemma {:induction false} PlainFront(a: string, raw: string, s: string)
    requires '\\' !in a && QUOTE !in a
    ensures Spells(a + raw, a + s) <==> Spells(raw, s)
    ensures RawOk(a + raw) <==> RawOk(raw)
  {
    if a == "" {
      assert a + raw == raw && a + s == s;
    } else {
      PlainFront(a[1..], raw, s);
      assert (a + raw)[1..] == a[1..] + raw && (a + s)[1..] == a[1..] + s;
    }
  }

  const ESCAPED_QUOTE := "\\\""

  /** Of a value with an escaped quote the log shows what is behind it, as in "a\"b" - "***"b". */
  lemma EscapedQuoteShowsTheRest(first: string, rest: string)
    requires RawOk(first + ESCAPED_QUOTE + rest) && QUOTE !in first
    ensures RedactAll(MemberText(TOKEN, ":", first + ESCAPED_QUOTE + rest), SENSITIVE_MEMBERS) ==
            MemberText(TOKEN, ":", MASK + ([QUOTE] + rest))
  {
    hide RedactAll, RawOk, LastPart, MemberText, IsColon, IsKeyGap;
    TokenIsSecret();
    ColonGap();
    OneMemberLogged(TOKEN, ":", first + ESCAPED_QUOTE + rest);
    BehindEscapedQuote(first, rest);
  }

  lemma BehindEscapedQuote(first: string, rest: string)
    requires QUOTE !in first
    ensures var value := first + ESCAPED_QUOTE + rest; var e := ChrOrEnd(value, QUOTE, 0);
            e == |first| + 1 && value[e..] == [QUOTE] + rest
  {
    var value := first + ESCAPED_QUOTE + rest;
    assert value == first + (ESCAPED_QUOTE + rest) && ESCAPED_QUOTE[0] == '\\' && ESCAPED_QUOTE[1] == QUOTE;
    assert value[|first|] == '\\' && value[|first| + 1] == QUOTE;
    assert forall i :: 0 <= i < |first| ==> value[i] == first[i];
    EndUnique(value, 0, |first| + 1);
  }

  /** A name that only ends like a sensitive one, behind an escaped quote, has its value masked, too. */
  lemma EndOfNameMasksTheValue(front: string, value: string)
    requires RawOk(front + ESCAPED_QUOTE + TOKEN) && RawOk(value) && QUOTE !in value && QUOTE !in front
    ensures var name := front + ESCAPED_QUOTE + TOKEN;
            && !IsSecret(name)
            && RedactAll(MemberText(name, ":", value), SENSITIVE_MEMBERS) == MemberText(name, ":", MASK)
  {
    hide RedactAll, RawOk, MemberText, IsColon, IsKeyGap, IsSecret, LastPart;
    var name := front + ESCAPED_QUOTE + TOKEN;
    BehindEscapedQuote(front, TOKEN);
    var e := ChrOrEnd(name, QUOTE, 0);
    assert name == name[..e] + ([QUOTE] + TOKEN) && name[e] == QUOTE;
    if IsSecret(name) { SecretMatches(name); }
    TokenIsSecret();
    NoBackslashInNames(TOKEN);
    ColonGap();
    OneMemberLogged(name, ":", value);
    LastOf(name[..e], TOKEN);
    EndUnique(value, 0, |value|);
    assert MASK + value[|value|..] == MASK;
  }

  lemma {:induction false} LastOf(a: string, b: string)
    requires QUOTE !in b
    ensures LastPart(a + ([QUOTE] + b)) == b
    decreases |a|
  {
    JoinOfSplit(a, QUOTE);
    JoinOfSplit(b, QUOTE);
    JoinBoth(Split(a, QUOTE), Split(b, QUOTE), QUOTE);
    assert a + [QUOTE] + b == a + ([QUOTE] + b);
    SplitOfJoin(Split(a, QUOTE) + Split(b, QUOTE), QUOTE);
    WholePart(b);
  }

  lemma {:induction false} PlainIsRaw(s: string)
    requires '\\' !in s && QUOTE !in s
    ensures RawOk(s)
  {
    if s != "" { PlainIsRaw(s[1..]); }
  }
}
