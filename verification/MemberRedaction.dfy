/**
 * What the passes for all sensitive members achieve together in any text, on the pieces between double quotes.
 * A value is here what a pass takes for one; JsonRedaction says what that means for JSON texts.
 */
module MemberRedaction {
  import opened CStrings
  import opened LogRedaction
  import opened QuotedPieces
  import opened Splitting

  // ---- which pieces a pass masks ----

  lemma {:induction false} MaskedShape(ps: seq<string>, name: string, m: nat)
    requires Masks(ps, name, m)
    ensures 2 <= m < |ps| && ps[m - 2] == name && IsColon(ps[m - 1])
    decreases |ps|
  {
    hide IsColon;
    var n := Advance(ps, name);
    if m >= n { MaskedShape(ps[n..], name, m - n); }
  }

  /** Exactly the masked pieces are replaced. */
  lemma {:induction false} ReplacedAt(ps: seq<string>, name: string, w: nat -> string, k: nat, m: nat) returns (j: nat)
    requires m < |ps|
    ensures Replaced(ps, name, w, k)[m] == if Masks(ps, name, m) then w(j) else ps[m]
    decreases |ps|
  {
    hide IsColon;
    var n := Advance(ps, name);
    j := k;
    if m >= n { j := ReplacedAt(ps[n..], name, w, if StartsValue(ps, name) then k + 1 else k, m - n); }
  }

  /** The pieces up to m decide whether piece m is masked. */
  lemma {:induction false} FrontDecides(ps: seq<string>, qs: seq<string>, name: string, m: nat)
    requires m < |ps| == |qs| && forall i :: 0 <= i <= m ==> ps[i] == qs[i]
    ensures Masks(ps, name, m) <==> Masks(qs, name, m)
    decreases |ps|
  {
    hide IsColon;
    var n := Advance(ps, name);
    if m >= 2 {
      assert n == Advance(qs, name);
      if m >= n { FrontDecides(ps[n..], qs[n..], name, m - n); }
    }
  }

  /** The scan does not step over a place behind a colon that does not belong to the name. */
  lemma AdvanceBefore(ps: seq<string>, name: string, h: nat)
    requires !IsColon(name) && 0 < h < |ps| && IsColon(ps[h - 1]) && (h > 1 ==> ps[h - 2] != name)
    ensures Advance(ps, name) <= h
  {
    hide IsColon;
  }

  /** The scan for a name begins anew behind a colon that does not belong to this name. */
  lemma {:induction false} BeginsAnew(ps: seq<string>, name: string, h: nat, m: nat)
    requires !IsColon(name) && h <= m < |ps| && (h > 0 ==> IsColon(ps[h - 1])) && (h > 1 ==> ps[h - 2] != name)
    ensures Masks(ps, name, m) <==> Masks(ps[h..], name, m - h)
    decreases |ps|
  {
    hide IsColon;
    if h == 0 {
      assert ps[0..] == ps;
    } else {
      var n := Advance(ps, name);
      AdvanceBefore(ps, name, h);
      assert ps[n..][h - n..] == ps[h..];
      assert h > n ==> ps[n..][h - n - 1] == ps[h - 1];
      assert h > n + 1 ==> ps[n..][h - n - 2] == ps[h - 2];
      BeginsAnew(ps[n..], name, h - n, m - n);
    }
  }

  /** A text that starts with the name, perhaps repeated, and goes on as for a member of that name. */
  predicate LeadsOn(ps: seq<string>, name: string)
    decreases |ps|
  {
    |ps| >= 3 && ps[0] == name && (IsColon(ps[1]) || LeadsOn(ps[1..], name))
  }

  /** Where the value of that member is. */
  function LeadsTo(ps: seq<string>, name: string): (d: nat)
    requires LeadsOn(ps, name)
    decreases |ps|
  {
    if IsColon(ps[1]) then 2 else 1 + LeadsTo(ps[1..], name)
  }

  lemma {:induction false} LeadsShape(ps: seq<string>, name: string)
    requires LeadsOn(ps, name)
    ensures var d := LeadsTo(ps, name);
            2 <= d < |ps| && IsColon(ps[d - 1]) && forall i :: 0 <= i <= d - 2 ==> ps[i] == name
    decreases |ps|
  {
    hide IsColon;
    if !IsColon(ps[1]) { LeadsShape(ps[1..], name); }
  }

  /** Without the name at its start, a text that leads nowhere has the same values ... */
  lemma {:induction false} LeadsNowhere(ps: seq<string>, name: string, m: nat)
    requires ps != [] && !LeadsOn(ps, name) && m > 0
    ensures Masks(ps, name, m) <==> Masks(ps[1..], name, m - 1)
    decreases |ps|
  {
    hide IsColon;
    if |ps| >= 2 && ps[0] == name {
      assert ps[1..][1..] == ps[2..];
      if m > 1 { LeadsNowhere(ps[1..], name, m - 1); }
    }
  }

  /** ... and one that leads on has a value more or a value less there. */
  lemma {:induction false} LeadsSomewhere(ps: seq<string>, name: string)
    requires LeadsOn(ps, name) && !IsColon(name)
    ensures LeadsTo(ps, name) > 0
    ensures Masks(ps, name, LeadsTo(ps, name)) <==> !Masks(ps[1..], name, LeadsTo(ps, name) - 1)
    decreases |ps|
  {
    hide IsColon;
    assert ps[1..][1..] == ps[2..];
    if !IsColon(ps[1]) {
      LeadsSomewhere(ps[1..], name);
    }
  }

  /** A change from ps to qs at piece i that the scan for a name does not notice. */
  ghost predicate Unnoticed(ps: seq<string>, qs: seq<string>, name: string, i: nat)
    requires i < |ps| == |qs|
  {
    && (i > 0 ==> IsColon(ps[i - 1]))
    && (Masks(ps, name, i) || (qs[i] != name && !LeadsOn(ps[i..], name)))
  }

  ghost predicate Alike(ps: seq<string>, qs: seq<string>, name: string) {
    |ps| == |qs| && forall i: nat :: i < |ps| && ps[i] != qs[i] ==> Unnoticed(ps, qs, name, i)
  }

  lemma AlikeBehind(ps: seq<string>, qs: seq<string>, name: string, n: nat)
    requires Alike(ps, qs, name) && n <= |ps|
    requires forall i: nat :: n <= i && Masks(ps, name, i) ==> Masks(ps[n..], name, i - n)
    ensures Alike(ps[n..], qs[n..], name)
  {
    hide IsColon, LeadsOn, Masks;
    forall i: nat | i < |ps| - n && ps[n..][i] != qs[n..][i] ensures Unnoticed(ps[n..], qs[n..], name, i) {
      assert Unnoticed(ps, qs, name, n + i) && ps[n..][i..] == ps[n + i..];
      assert Masks(ps, name, n + i) ==> Masks(ps[n..], name, (n + i) - n);
    }
  }

  lemma SameAdvance(ps: seq<string>, qs: seq<string>, name: string)
    requires Alike(ps, qs, name) && ps != [] && ps[0] == qs[0] && !IsColon(name)
    ensures Advance(ps, name) == Advance(qs, name)
  {
    hide IsColon, LeadsOn, Masks;
    if |ps| > 1 && ps[1] != qs[1] { assert Unnoticed(ps, qs, name, 1); }
  }

  lemma {:induction false} SameMasks(ps: seq<string>, qs: seq<string>, name: string, m: nat)
    requires Alike(ps, qs, name) && !IsColon(name)
    ensures Masks(ps, name, m) <==> Masks(qs, name, m)
    decreases |ps|
  {
    hide IsColon, LeadsOn;
    if ps != [] && ps[0] != qs[0] {
      assert Unnoticed(ps, qs, name, 0);
      assert ps[0..] == ps;
      forall i: nat | i > 0 ensures Masks(ps, name, i) <==> Masks(ps[1..], name, i - 1) {
        LeadsNowhere(ps, name, i);
      }
      AlikeBehind(ps, qs, name, 1);
      if m > 0 { SameMasks(ps[1..], qs[1..], name, m - 1); }
    } else if ps != [] {
      var n := Advance(ps, name);
      SameAdvance(ps, qs, name);
      if m >= n {
        AlikeBehind(ps, qs, name, n);
        SameMasks(ps[n..], qs[n..], name, m - n);
      }
    }
  }

  /** Changes behind colons of other members leave a text leading on, or not. */
  lemma {:induction false} StillLeads(ps: seq<string>, qs: seq<string>, name: string)
    requires |ps| == |qs| && !IsColon(name) && (ps != [] ==> ps[0] == qs[0])
    requires forall i :: 0 < i < |ps| && ps[i] != qs[i] ==> IsColon(ps[i - 1])
    ensures LeadsOn(ps, name) <==> LeadsOn(qs, name)
    decreases |ps|
  {
    hide IsColon;
    if |ps| >= 3 && ps[0] == name { StillLeads(ps[1..], qs[1..], name); }
  }

  // ---- whole texts, all members ----

  /** Names can be told from each other and from colons, and the mask is none. */
  ghost predicate NamesOk(names: seq<string>) {
    && MASK !in names && (forall n :: n in names ==> NameOk(n))
    && forall i, j :: 0 <= i < j < |names| ==> names[i] != names[j]
  }

  /** Piece m of a text is the value that the pass for this member masks. */
  ghost predicate MaskedFor(all: seq<string>, name: string, m: int)
    requires all != []
  {
    m >= 1 && Masks(all[1..], name, m - 1)
  }

  /** Piece m is what the pass for one of the members takes for its value. */
  ghost predicate Hidden(all: seq<string>, names: seq<string>, m: int)
    requires all != []
  {
    exists name :: name in names && MaskedFor(all, name, m)
  }

  /** Piece m is a value of one member but called like another, and the text goes on as for that one. */
  ghost predicate Misread(all: seq<string>, name: string, other: string, m: int)
    requires all != []
  {
    0 <= m < |all| && MaskedFor(all, name, m) && LeadsOn(all[m..], other)
  }

  /** No value of a member is misread as another member's name. */
  ghost predicate ValuesOk(all: seq<string>, names: seq<string>)
    requires all != []
  {
    forall name, other, m: int :: name in names && other in names && name != other ==> !Misread(all, name, other, m)
  }

  lemma MaskedForShape(all: seq<string>, name: string, m: int)
    requires all != [] && MaskedFor(all, name, m)
    ensures 3 <= m < |all| && all[m - 2] == name && IsColon(all[m - 1])
  {
    hide IsColon, Masks;
    MaskedShape(all[1..], name, m - 1);
  }

  /** A change at piece i that leaves every member's values in their places. */
  ghost predicate Harmless(all: seq<string>, others: seq<string>, name: string, i: int)
    requires all != [] && 0 <= i < |all| == |others|
  {
    && i >= 3 && IsColon(all[i - 1])
    && (MaskedFor(all, name, i) || (others[i] != name && !LeadsOn(all[i..], name)))
  }

  lemma SameValues(all: seq<string>, others: seq<string>, name: string, m: int)
    requires all != [] && |others| == |all| && !IsColon(name)
    requires forall i :: 0 <= i < |all| && all[i] != others[i] ==> Harmless(all, others, name, i)
    ensures MaskedFor(all, name, m) <==> MaskedFor(others, name, m)
  {
    hide IsColon, Masks, LeadsOn;
    var ps, qs := all[1..], others[1..];
    forall i: nat | i < |ps| && ps[i] != qs[i] ensures Unnoticed(ps, qs, name, i) {
      assert Harmless(all, others, name, i + 1) && all[i + 1..] == ps[i..];
    }
    if m >= 1 { SameMasks(ps, qs, name, m - 1); }
  }

  /** The text with the values of one member replaced. */
  function Exchanged(all: seq<string>, name: string, w: nat -> string): (r: seq<string>)
    requires all != []
    ensures |r| == |all|
  {
    [all[0]] + Replaced(all[1..], name, w, 0)
  }

  lemma ExchangedAt(all: seq<string>, name: string, w: nat -> string, m: nat) returns (j: nat)
    requires all != [] && m < |all|
    ensures Exchanged(all, name, w)[m] == if MaskedFor(all, name, m) then w(j) else all[m]
  {
    j := 0;
    if m > 0 { j := ReplacedAt(all[1..], name, w, 0, m - 1); }
  }

  lemma RewriteIsExchange(all: seq<string>, name: string, w: nat -> string)
    requires all != [] && AreParts(all, QUOTE) && QUOTE !in name
    ensures Quoted(name) != "" && Rewrite(Join(all, QUOTE), Quoted(name), w, 0) == Join(Exchanged(all, name, w), QUOTE)
  {
    hide Rewrite, Replaced, Join, Behind, AreParts;
    SuffixParts(all, 1);
    NoQuoteIn(all, 0);
    JoinIsBehind(all);
    PassPiece(all[0], Behind(all[1..]), name, w, 0);
    RewriteBehind(all[1..], name, w, 0);
    JoinIsBehind(Exchanged(all, name, w));
    assert Exchanged(all, name, w)[1..] == Replaced(all[1..], name, w, 0);
  }

  lemma ExchangedParts(all: seq<string>, name: string, w: nat -> string)
    requires all != [] && AreParts(all, QUOTE) && QuoteFree(w)
    ensures AreParts(Exchanged(all, name, w), QUOTE)
  {
    forall m: nat | m < |all| ensures QUOTE !in Exchanged(all, name, w)[m] {
      var j := ExchangedAt(all, name, w, m);
    }
  }

  // ---- one pass after the other ----

  function Stars(k: nat): string { MASK }

  /** The pieces after the pass for one member. */
  function Pass(all: seq<string>, name: string): (r: seq<string>)
    requires all != []
    ensures |r| == |all|
  {
    Exchanged(all, name, Stars)
  }

  lemma PassAt(all: seq<string>, name: string, m: nat)
    requires all != [] && m < |all|
    ensures Pass(all, name)[m] == if MaskedFor(all, name, m) then MASK else all[m]
  {
    hide MaskedFor;
    var j := ExchangedAt(all, name, Stars, m);
  }

  /** Piece m is masked by one of the passes, each of which works on what the ones before it left. */
  ghost predicate IsMasked(all: seq<string>, members: seq<string>, m: int)
    requires all != []
    decreases |members|
  {
    members != [] && (MaskedFor(all, members[0], m) || IsMasked(Pass(all, members[0]), members[1..], m))
  }

  /** The text that is logged has the masked pieces starred out and the others as they were. */
  lemma {:induction false} RedactAllMasks(all: seq<string>, members: seq<string>) returns (out: seq<string>)
    requires all != [] && AreParts(all, QUOTE) && forall n :: n in members ==> QUOTE !in n
    ensures AreParts(out, QUOTE) && |out| == |all|
    ensures RedactAll(Join(all, QUOTE), members) == Join(out, QUOTE)
    ensures forall m :: 0 <= m < |all| ==> out[m] == if IsMasked(all, members, m) then MASK else all[m]
    decreases |members|
  {
    hide Redact, Rewrite, Join, Exchanged, MaskedFor, Quoted, AreParts;
    if members == [] {
      out := all;
    } else {
      var name := members[0];
      RewriteIsExchange(all, name, Stars);
      RedactReplaces(Join(all, QUOTE), Quoted(name), Stars, 0);
      StarsAreQuoteFree();
      ExchangedParts(all, name, Stars);
      out := RedactAllMasks(Pass(all, name), members[1..]);
      forall m: nat | m < |all| ensures out[m] == if IsMasked(all, members, m) then MASK else all[m] {
        PassAt(all, name, m);
      }
    }
  }

  lemma StarsAreQuoteFree()
    ensures QuoteFree(Stars)
  {
  }

  lemma {:induction false} MaskedInShape(all: seq<string>, members: seq<string>, m: int)
    requires all != [] && MASK !in members && IsMasked(all, members, m)
    ensures 3 <= m < |all| && all[m - 2] in members && IsColon(all[m - 1])
    decreases |members|
  {
    hide MaskedFor, IsColon, Pass;
    if MaskedFor(all, members[0], m) {
      MaskedForShape(all, members[0], m);
    } else {
      MaskedInShape(Pass(all, members[0]), members[1..], m);
      PassAt(all, members[0], m - 2);
      PassAt(all, members[0], m - 1);
      StarsNoColon();
    }
  }

  // ---- exactly when the passes mask the members' values ----

  /** A member's value is misread as the name of a member whose pass comes later. */
  ghost predicate MisreadLater(all: seq<string>, members: seq<string>)
    requires all != []
  {
    exists i, j, m: int :: 0 <= i < j < |members| && Misread(all, members[i], members[j], m)
  }

  ghost predicate IsExact(all: seq<string>, members: seq<string>)
    requires all != []
  {
    forall m: int :: IsMasked(all, members, m) <==> Hidden(all, members, m)
  }

  lemma TailOk(members: seq<string>)
    requires NamesOk(members) && members != []
    ensures NamesOk(members[1..]) && members[0] !in members[1..] && NameOk(members[0]) && members[0] != MASK
  {
    hide NameOk;
  }

  /** A pass that misreads nothing for another member leaves that member's values in their places. */
  lemma PassKeeps(all: seq<string>, name: string, other: string, m: int)
    requires all != [] && NameOk(other) && other != MASK && forall i: int :: !Misread(all, name, other, i)
    ensures MaskedFor(all, other, m) <==> MaskedFor(Pass(all, name), other, m)
  {
    hide IsColon, MaskedFor, LeadsOn, Pass;
    var next := Pass(all, name);
    forall i | 0 <= i < |all| && all[i] != next[i] ensures Harmless(all, next, other, i) {
      PassAt(all, name, i);
      MaskedForShape(all, name, i);
      assert !Misread(all, name, other, i);
    }
    SameValues(all, next, other, m);
  }

  lemma PassKeepsMisread(all: seq<string>, name: string, one: string, other: string, m: int)
    requires all != [] && NameOk(one) && NameOk(other) && one != MASK && other != MASK && name != one
    requires forall i: int :: !Misread(all, name, one, i)
    ensures Misread(all, one, other, m) <==> Misread(Pass(all, name), one, other, m)
  {
    hide IsColon, MaskedFor, LeadsOn, Pass;
    PassKeeps(all, name, one, m);
    if MaskedFor(all, one, m) {
      MaskedForShape(all, one, m);
      var next := Pass(all, name);
      forall i | m <= i < |all| && all[i] != next[i] ensures m < i && IsColon(all[i - 1]) {
        PassAt(all, name, i);
        MaskedForShape(all, name, i);
      }
      StillLeads(all[m..], next[m..], other);
    }
  }

  /** When the first pass misreads nothing, all depends on the other passes. */
  lemma FirstPassExact(all: seq<string>, members: seq<string>)
    requires all != [] && members != [] && NamesOk(members)
    requires forall other, i: int :: other in members[1..] ==> !Misread(all, members[0], other, i)
    ensures IsExact(all, members) <==> IsExact(Pass(all, members[0]), members[1..])
  {
    hide MaskedFor, NameOk, LeadsOn, Pass, IsMasked, Hidden, NamesOk, Misread;
    var next := Pass(all, members[0]);
    forall m: int
      ensures (IsMasked(all, members, m) <==> Hidden(all, members, m)) <==>
              (IsMasked(next, members[1..], m) <==> Hidden(next, members[1..], m))
    {
      FirstPassExactAt(all, members, m);
    }
  }

  lemma FirstPassExactAt(all: seq<string>, members: seq<string>, m: int)
    requires all != [] && members != [] && NamesOk(members)
    requires forall other, i: int :: other in members[1..] ==> !Misread(all, members[0], other, i)
    ensures var next := Pass(all, members[0]);
            (IsMasked(all, members, m) <==> Hidden(all, members, m)) <==>
            (IsMasked(next, members[1..], m) <==> Hidden(next, members[1..], m))
  {
    hide MaskedFor, IsColon, NameOk, LeadsOn, Pass, Misread;
    var name, rest, next := members[0], members[1..], Pass(all, members[0]);
    TailOk(members);
    forall other | other in rest ensures MaskedFor(all, other, m) <==> MaskedFor(next, other, m) {
      PassKeeps(all, name, other, m);
    }
    HiddenFirst(all, members, next, m);
    if MaskedFor(all, name, m) {
      MaskedForShape(all, name, m);
      PassAt(all, name, m - 2);
      if IsMasked(next, rest, m) { MaskedInShape(next, rest, m); }
      if Hidden(next, rest, m) { HiddenShape(next, rest, m); }
    }
  }

  lemma HiddenShape(all: seq<string>, names: seq<string>, m: int)
    requires all != [] && Hidden(all, names, m)
    ensures 3 <= m < |all| && all[m - 2] in names && IsColon(all[m - 1])
  {
    hide IsColon;
    var name :| name in names && MaskedFor(all, name, m);
    MaskedForShape(all, name, m);
  }

  lemma HiddenFirst(all: seq<string>, members: seq<string>, next: seq<string>, m: int)
    requires all != [] && next != [] && members != []
    requires forall n :: n in members[1..] ==> (MaskedFor(all, n, m) <==> MaskedFor(next, n, m))
    ensures Hidden(all, members, m) <==> MaskedFor(all, members[0], m) || Hidden(next, members[1..], m)
  {
    hide MaskedFor;
    assert forall n :: n in members <==> n == members[0] || n in members[1..];
  }

  lemma FirstPassMisreads(all: seq<string>, members: seq<string>)
    requires all != [] && members != [] && NamesOk(members)
    requires forall other, i: int :: other in members[1..] ==> !Misread(all, members[0], other, i)
    ensures MisreadLater(all, members) <==> MisreadLater(Pass(all, members[0]), members[1..])
  {
    hide MaskedFor, NameOk, Pass, Misread;
    var name, rest, next := members[0], members[1..], Pass(all, members[0]);
    TailOk(members);
    forall i, j, m: int | 0 <= i < j < |rest|
      ensures Misread(all, rest[i], rest[j], m) <==> Misread(next, rest[i], rest[j], m)
    {
      PassKeepsMisread(all, name, rest[i], rest[j], m);
    }
    if i, j, m: int :| 0 <= i < j < |members| && Misread(all, members[i], members[j], m) {
      assert members[j] == rest[j - 1];
      assert i > 0;
      assert members[i] == rest[i - 1];
      assert Misread(next, rest[i - 1], rest[j - 1], m);
    }
    if i, j, m: int :| 0 <= i < j < |rest| && Misread(next, rest[i], rest[j], m) {
      assert Misread(all, members[i + 1], members[j + 1], m);
    }
  }

  /** Behind a starred value at m, the pieces up to m + d are those of a text that leads on. */
  ghost predicate Starred(t: seq<string>, name: string, m: int, d: int) {
    && 3 <= m && 2 <= d && m + d < |t|
    && t[m - 2] != name && !IsColon(t[m - 2]) && IsColon(t[m - 1]) && t[m] == MASK
    && (forall i :: m < i <= m + d - 2 ==> t[i] == name)
    && IsColon(t[m + d - 1])
  }

  lemma StarsNoColon()
    ensures !IsColon(MASK)
  {
  }

  /** A pass for another member changes nothing there. */
  lemma PassKeepsStarred(t: seq<string>, name: string, other: string, m: int, d: int)
    requires Starred(t, name, m, d) && NameOk(name) && name != MASK && NameOk(other) && other != name && other != MASK
    ensures Starred(Pass(t, other), name, m, d) && !MaskedFor(t, other, m + d)
    ensures MaskedFor(t, name, m + d) <==> MaskedFor(Pass(t, other), name, m + d)
  {
    hide IsColon, MaskedFor, Pass;
    StarsNoColon();
    var next := Pass(t, other);
    forall i | m - 1 <= i <= m + d && MaskedFor(t, other, i) ensures i == m {
      MaskedForShape(t, other, i);
    }
    forall i: nat | m - 2 <= i <= m + d ensures next[i] == t[i] || (i == m - 2 && next[i] == MASK) {
      PassAt(t, other, i);
    }
    SameWindow(t, next, name, m, d);
  }

  lemma SameWindow(t: seq<string>, next: seq<string>, name: string, m: int, d: int)
    requires Starred(t, name, m, d) && Starred(next, name, m, d) && |t| == |next| && t[m + d] == next[m + d]
    requires t[m + d - 1] == next[m + d - 1] && NameOk(name)
    ensures MaskedFor(t, name, m + d) <==> MaskedFor(next, name, m + d)
  {
    hide IsColon, Masks;
    ScanFrom(t, name, m, m + d);
    ScanFrom(next, name, m, m + d);
    FrontDecides(t[m..], next[m..], name, d);
  }

  lemma ScanFrom(t: seq<string>, name: string, h: int, m: int)
    requires 2 <= h <= m < |t| && NameOk(name) && IsColon(t[h - 1]) && t[h - 2] != name
    ensures MaskedFor(t, name, m) <==> Masks(t[h..], name, m - h)
  {
    hide IsColon, Masks;
    BeginsAnew(t[1..], name, h - 1, m - 1);
    assert t[1..][h - 1..] == t[h..];
  }

  /** Only the name's own pass can mask what its text leads to. */
  lemma {:induction false} OwnPassDecides(t: seq<string>, members: seq<string>, name: string, m: int, d: int)
    requires NamesOk(members) && name in members && Starred(t, name, m, d)
    ensures IsMasked(t, members, m + d) <==> MaskedFor(t, name, m + d)
    decreases |members|
  {
    hide IsColon, MaskedFor, Pass, NameOk;
    TailOk(members);
    var next := Pass(t, members[0]);
    if members[0] == name {
      PassAt(t, name, m + d - 2);
      if IsMasked(next, members[1..], m + d) { MaskedInShape(next, members[1..], m + d); }
    } else {
      assert NameOk(name);
      PassKeepsStarred(t, name, members[0], m, d);
      OwnPassDecides(next, members[1..], name, m, d);
    }
  }

  /** What a misread value leads to is masked exactly if it should not be. */
  lemma MisreadIsWrong(all: seq<string>, members: seq<string>, other: string, m: int)
    requires all != [] && members != [] && NamesOk(members) && other in members[1..]
    requires Misread(all, members[0], other, m)
    ensures !IsExact(all, members)
  {
    hide IsColon, MaskedFor, Pass, NameOk, LeadsOn;
    var name, rest, next := members[0], members[1..], Pass(all, members[0]);
    var d := LeadsTo(all[m..], other);
    TailOk(members);
    assert NameOk(other);
    MisreadIsStarred(all, name, other, m);
    OwnPassDecides(next, rest, other, m, d);
    HiddenIsOwn(all, members, other, m + d);
    if MaskedFor(all, name, m + d) { MaskedForShape(all, name, m + d); }
    assert IsMasked(all, members, m + d) <==> !Hidden(all, members, m + d);
  }

  lemma HiddenIsOwn(all: seq<string>, names: seq<string>, name: string, m: int)
    requires all != [] && 3 <= m < |all| && all[m - 2] == name && name in names
    ensures Hidden(all, names, m) <==> MaskedFor(all, name, m)
  {
    hide MaskedFor, IsColon;
    if n :| n in names && MaskedFor(all, n, m) { MaskedForShape(all, n, m); }
  }

  lemma MisreadIsStarred(all: seq<string>, name: string, other: string, m: int)
    requires all != [] && Misread(all, name, other, m) && name != other && name != MASK && other != MASK
    requires NameOk(name) && NameOk(other)
    ensures var d := LeadsTo(all[m..], other); var next := Pass(all, name);
            && Starred(next, other, m, d) && all[m + d - 2] == other
            && (MaskedFor(next, other, m + d) <==> !MaskedFor(all, other, m + d))
  {
    hide IsColon, MaskedFor, Pass, LeadsOn, LeadsTo, Masks;
    var d, next := LeadsTo(all[m..], other), Pass(all, name);
    MaskedForShape(all, name, m);
    LeadsShape(all[m..], other);
    StarsNoColon();
    assert forall i :: 0 <= i < |all| - m ==> all[m..][i] == all[m + i];
    forall i | m <= i <= m + d - 2 ensures all[i] == other { assert all[m..][i - m] == other; }
    forall i | m - 1 <= i <= m + d && MaskedFor(all, name, i) ensures i == m {
      MaskedForShape(all, name, i);
    }
    forall i: nat | m - 2 <= i <= m + d
      ensures next[i] == (if i == m then MASK else all[i]) || (i == m - 2 && next[i] == MASK)
    {
      PassAt(all, name, i);
    }
    ScanFrom(all, other, m, m + d);
    ScanFrom(next, other, m, m + d);
    LeadsSomewhere(all[m..], other);
    MASKIsSkipped(all, next, other, m, d);
  }

  lemma MASKIsSkipped(all: seq<string>, next: seq<string>, other: string, m: int, d: int)
    requires 0 <= m && 2 <= d && m + d < |all| == |next| && next[m] != other
    requires forall i :: m < i <= m + d ==> next[i] == all[i]
    ensures Masks(next[m..], other, d) <==> Masks(all[m..][1..], other, d - 1)
  {
    hide IsColon;
    assert next[m..][1..] == next[m + 1..] && all[m..][1..] == all[m + 1..];
    FrontDecides(next[m + 1..], all[m + 1..], other, d - 1);
  }

  /** The passes mask exactly the members' values if and only if no value is misread by a later pass. */
  lemma {:induction false} ExactIff(all: seq<string>, members: seq<string>)
    requires all != [] && NamesOk(members)
    ensures IsExact(all, members) <==> !MisreadLater(all, members)
    decreases |members|
  {
    hide MaskedFor, Pass, NameOk, IsExact, NamesOk, Misread;
    if members == [] {
      NothingIsExact(all);
    } else if other, m: int :| other in members[1..] && Misread(all, members[0], other, m) {
      MisreadIsWrong(all, members, other, m);
      var j :| 0 <= j < |members| - 1 && members[1..][j] == other;
      assert Misread(all, members[0], members[j + 1], m);
    } else {
      TailOk(members);
      FirstPassExact(all, members);
      FirstPassMisreads(all, members);
      ExactIff(Pass(all, members[0]), members[1..]);
    }
  }

  lemma NothingIsExact(all: seq<string>)
    requires all != []
    ensures IsExact(all, [])
  {
  }

  // ---- main results ----

  lemma SensitiveNamesOk()
    ensures NamesOk(SENSITIVE_MEMBERS)
  {
    forall n | n in SENSITIVE_MEMBERS ensures NameOk(n) {
      assert n[0] != ':' && !IsBlank(n[0]);
    }
  }

  lemma NoQuoteInNames(names: seq<string>)
    requires NamesOk(names)
    ensures forall n :: n in names ==> QUOTE !in n
  {
    hide IsColon;
  }

  /**
   * The text that is logged has some pieces starred out and all others as they were. These are exactly
   * the values of the members, if and only if no value is misread by a later pass.
   */
  lemma LoggedIff(s: string)
    ensures var all, out := Split(s, QUOTE), Split(RedactAll(s, SENSITIVE_MEMBERS), QUOTE);
            && |out| == |all|
            && (forall m :: 0 <= m < |all| ==>
                  out[m] == if IsMasked(all, SENSITIVE_MEMBERS, m) then MASK else all[m])
            && (IsExact(all, SENSITIVE_MEMBERS) <==> !MisreadLater(all, SENSITIVE_MEMBERS))
  {
    hide RedactAll, Split, Join, NamesOk, IsExact, MisreadLater, IsMasked;
    SensitiveNamesOk();
    NoQuoteInNames(SENSITIVE_MEMBERS);
    JoinOfSplit(s, QUOTE);
    var out := RedactAllMasks(Split(s, QUOTE), SENSITIVE_MEMBERS);
    SplitOfJoin(out, QUOTE);
    ExactIff(Split(s, QUOTE), SENSITIVE_MEMBERS);
  }

  ghost predicate Same(all: seq<string>, others: seq<string>)
    requires all != [] && others != []
  {
    |all| == |others|
    && forall m :: 0 <= m < |all| ==>
         all[m] == others[m] || (Hidden(all, SENSITIVE_MEMBERS, m) && Hidden(others, SENSITIVE_MEMBERS, m))
  }

  /** Starring out some values leaves all values in their places. */
  lemma BlankedHides(all: seq<string>, u: seq<string>, names: seq<string>, m: int)
    requires all != [] && NamesOk(names) && ValuesOk(all, names) && |u| == |all|
    requires forall i :: 0 <= i < |all| && all[i] != u[i] ==> u[i] == MASK && Hidden(all, names, i)
    ensures Hidden(all, names, m) <==> Hidden(u, names, m)
  {
    hide MaskedFor, IsColon, LeadsOn;
    forall n | n in names ensures MaskedFor(all, n, m) <==> MaskedFor(u, n, m) {
      assert NameOk(n);
      forall i | 0 <= i < |all| && all[i] != u[i] ensures Harmless(all, u, n, i) {
        var name :| name in names && MaskedFor(all, name, i);
        MaskedForShape(all, name, i);
        if name != n { assert !Misread(all, name, n, i); }
      }
      SameValues(all, u, n, m);
    }
  }

  /** Texts that are the same but for values have them in the same places. */
  lemma SameMeansHidden(all: seq<string>, others: seq<string>, m: int)
    requires all != [] && others != [] && Same(all, others)
    requires ValuesOk(all, SENSITIVE_MEMBERS) && ValuesOk(others, SENSITIVE_MEMBERS)
    ensures Hidden(all, SENSITIVE_MEMBERS, m) <==> Hidden(others, SENSITIVE_MEMBERS, m)
  {
    hide Hidden, NamesOk, ValuesOk;
    SensitiveNamesOk();
    var u := seq(|all|, (i: nat) requires i < |all| == |others| => if all[i] == others[i] then all[i] else MASK);
    BlankedHides(all, u, SENSITIVE_MEMBERS, m);
    BlankedHides(others, u, SENSITIVE_MEMBERS, m);
  }

  lemma OkIsExact(all: seq<string>, names: seq<string>)
    requires all != [] && NamesOk(names) && ValuesOk(all, names)
    ensures IsExact(all, names)
  {
    hide Misread, NameOk, IsExact;
    ExactIff(all, names);
  }

  /** What is logged of a text without misread values. */
  lemma LoggedOk(s: string) returns (out: seq<string>)
    requires ValuesOk(Split(s, QUOTE), SENSITIVE_MEMBERS)
    ensures var all := Split(s, QUOTE);
            && |out| == |all| && AreParts(out, QUOTE) && RedactAll(s, SENSITIVE_MEMBERS) == Join(out, QUOTE)
            && forall m :: 0 <= m < |all| ==>
                 && out[m] == (if Hidden(all, SENSITIVE_MEMBERS, m) then MASK else all[m])
                 && (Hidden(all, SENSITIVE_MEMBERS, m) <==> Hidden(out, SENSITIVE_MEMBERS, m))
  {
    hide RedactAll, Split, Join, NamesOk, Hidden, IsMasked, ValuesOk;
    SensitiveNamesOk();
    NoQuoteInNames(SENSITIVE_MEMBERS);
    JoinOfSplit(s, QUOTE);
    var all := Split(s, QUOTE);
    out := RedactAllMasks(all, SENSITIVE_MEMBERS);
    OkIsExact(all, SENSITIVE_MEMBERS);
    forall m | 0 <= m < |all| ensures Hidden(all, SENSITIVE_MEMBERS, m) <==> Hidden(out, SENSITIVE_MEMBERS, m) {
      BlankedHides(all, out, SENSITIVE_MEMBERS, m);
    }
  }

  /**
   * The log shows no more and no less: two texts in which no value is misread as another member's name
   * are logged alike exactly if they are the same but for the values of members.
   */
  lemma MemberSecretsDoNotShow(s: string, t: string)
    requires ValuesOk(Split(s, QUOTE), SENSITIVE_MEMBERS) && ValuesOk(Split(t, QUOTE), SENSITIVE_MEMBERS)
    ensures RedactAll(s, SENSITIVE_MEMBERS) == RedactAll(t, SENSITIVE_MEMBERS) <==>
              Same(Split(s, QUOTE), Split(t, QUOTE))
  {
    hide RedactAll, Split, Join, Hidden, ValuesOk, AreParts;
    var all, others := Split(s, QUOTE), Split(t, QUOTE);
    var out := LoggedOk(s);
    var out' := LoggedOk(t);
    SplitOfJoin(out, QUOTE);
    SplitOfJoin(out', QUOTE);
    if Same(all, others) {
      forall m | 0 <= m < |all| ensures out[m] == out'[m] { SameMeansHidden(all, others, m); }
      assert out == out';
    }
  }

  /** Exchanging the values of one member for texts that are no names keeps all values, and none is misread. */
  lemma ExchangeKeeps(all: seq<string>, names: seq<string>, name: string, w: nat -> string, other: string, m: int)
    requires all != [] && NamesOk(names) && ValuesOk(all, names) && name in names && other in names
    requires forall k: nat :: w(k) !in names
    ensures MaskedFor(all, other, m) <==> MaskedFor(Exchanged(all, name, w), other, m)
  {
    hide MaskedFor, IsColon, LeadsOn, Exchanged;
    var r := Exchanged(all, name, w);
    assert NameOk(other);
    forall i | 0 <= i < |all| && all[i] != r[i] ensures Harmless(all, r, other, i) {
      var j := ExchangedAt(all, name, w, i);
      MaskedForShape(all, name, i);
      if name != other { assert !Misread(all, name, other, i); }
    }
    SameValues(all, r, other, m);
  }

  lemma ExchangeOk(all: seq<string>, names: seq<string>, name: string, w: nat -> string)
    requires all != [] && NamesOk(names) && ValuesOk(all, names) && name in names
    requires forall k: nat :: w(k) !in names
    ensures ValuesOk(Exchanged(all, name, w), names)
  {
    hide Misread, Exchanged, NamesOk;
    forall one, other, m: int | one in names && other in names && one != other
      ensures !Misread(Exchanged(all, name, w), one, other, m)
    {
      MisreadBefore(all, names, name, w, one, other, m);
    }
  }

  lemma MisreadBefore(all: seq<string>, names: seq<string>, name: string, w: nat -> string, one: string,
                      other: string, m: int)
    requires all != [] && NamesOk(names) && ValuesOk(all, names) && name in names && one in names && other in names
    requires forall k: nat :: w(k) !in names
    ensures Misread(Exchanged(all, name, w), one, other, m) ==> Misread(all, one, other, m)
  {
    hide MaskedFor, IsColon, Exchanged, ValuesOk;
    var r := Exchanged(all, name, w);
    if Misread(r, one, other, m) {
      ExchangeKeeps(all, names, name, w, one, m);
      var k := ExchangedAt(all, name, w, m);
      assert r[m..][0] == other && all[m] == r[m];
      forall i | 0 < i < |all| && all[i] != r[i] ensures IsColon(all[i - 1]) {
        var j := ExchangedAt(all, name, w, i);
        MaskedForShape(all, name, i);
      }
      assert NameOk(other);
      StillLeads(all[m..], r[m..], other);
    }
  }

  /** In particular, exchanging all values of one member for texts without quotes that are no names changes nothing. */
  lemma ExchangeDoesNotShow(s: string, name: string, w: nat -> string)
    requires name in SENSITIVE_MEMBERS && QuoteFree(w) && forall k: nat :: w(k) !in SENSITIVE_MEMBERS
    requires ValuesOk(Split(s, QUOTE), SENSITIVE_MEMBERS)
    ensures Quoted(name) != ""
    ensures RedactAll(Rewrite(s, Quoted(name), w, 0), SENSITIVE_MEMBERS) == RedactAll(s, SENSITIVE_MEMBERS)
  {
    hide RedactAll, Split, Join, MaskedFor, Rewrite, Exchanged, NamesOk, Quoted, ValuesOk, QuoteFree;
    var all := Split(s, QUOTE);
    var r := Exchanged(all, name, w);
    JoinOfSplit(s, QUOTE);
    SensitiveNamesOk();
    NoQuoteInNames(SENSITIVE_MEMBERS);
    RewriteIsExchange(all, name, w);
    ExchangedParts(all, name, w);
    SplitOfJoin(r, QUOTE);
    ExchangeOk(all, SENSITIVE_MEMBERS, name, w);
    forall m: nat | m < |all| && all[m] != r[m]
      ensures Hidden(all, SENSITIVE_MEMBERS, m) && Hidden(r, SENSITIVE_MEMBERS, m)
    {
      var j := ExchangedAt(all, name, w, m);
      ExchangeKeeps(all, SENSITIVE_MEMBERS, name, w, name, m);
      assert MaskedFor(all, name, m) && MaskedFor(r, name, m);
    }
    MemberSecretsDoNotShow(Rewrite(s, Quoted(name), w, 0), s);
  }

  // ---- a text of which something shows ----

  lemma {:induction false} NoNameNoChange(ps: seq<string>, name: string, w: nat -> string, k: nat)
    requires name !in ps
    ensures Replaced(ps, name, w, k) == ps
    decreases |ps|
  {
    if ps != [] { NoNameNoChange(ps[1..], name, w, k); }
  }

  lemma {:induction false} NoMemberNoChange(all: seq<string>, members: seq<string>)
    requires all != [] && AreParts(all, QUOTE) && forall n :: n in members ==> n !in all && QUOTE !in n
    ensures RedactAll(Join(all, QUOTE), members) == Join(all, QUOTE)
    decreases |members|
  {
    hide Redact, Rewrite, Join, Replaced, Quoted;
    if members != [] {
      var w: nat -> string := _ => MASK;
      RewriteIsExchange(all, members[0], w);
      RedactReplaces(Join(all, QUOTE), Quoted(members[0]), w, 0);
      NoNameNoChange(all[1..], members[0], w, 0);
      assert Exchanged(all, members[0], w) == all;
      NoMemberNoChange(all, members[1..]);
    }
  }

  /** The first member's value is masked and nothing else is a member. */
  lemma FirstPassOnly(all: seq<string>, out: seq<string>, w: nat -> string)
    requires all != [] && AreParts(all, QUOTE)
    requires (forall i :: w(i) == MASK) && out == Exchanged(all, SENSITIVE_MEMBERS[0], w)
    requires forall n :: n in SENSITIVE_MEMBERS[1..] ==> n !in out
    ensures RedactAll(Join(all, QUOTE), SENSITIVE_MEMBERS) == Join(out, QUOTE)
  {
    hide Redact, Rewrite, Join, Exchanged, NamesOk, Quoted;
    SensitiveNamesOk();
    NoQuoteInNames(SENSITIVE_MEMBERS);
    RewriteIsExchange(all, SENSITIVE_MEMBERS[0], w);
    RedactReplaces(Join(all, QUOTE), Quoted(SENSITIVE_MEMBERS[0]), w, 0);
    ExchangedParts(all, SENSITIVE_MEMBERS[0], w);
    NoMemberNoChange(out, SENSITIVE_MEMBERS[1..]);
  }

  lemma ReplacedFirst(ps: seq<string>, name: string, w: nat -> string)
    requires StartsValue(ps, name) && name !in ps[3..]
    ensures Replaced(ps, name, w, 0) == [ps[0], ps[1], w(0)] + ps[3..] && Masks(ps, name, 2)
  {
    hide IsColon;
    NoNameNoChange(ps[3..], name, w, 1);
  }

  /** The first pass on a text with one member, whose value is one piece. */
  lemma ExchangeFirst(a: string, name: string, c: string, d: string, rest: seq<string>, w: nat -> string)
    requires w(0) == MASK && IsColon(c) && name !in rest
    ensures Exchanged([a, name, c, d] + rest, name, w) == [a, name, c, MASK] + rest
    ensures MaskedFor([a, name, c, d] + rest, name, 3)
  {
    hide IsColon, Replaced, Masks;
    var ps := ([a, name, c, d] + rest)[1..];
    assert ps == [name, c, d] + rest && ps[3..] == rest;
    ReplacedFirst(ps, name, w);
  }

  lemma ColonIsColon()
    ensures IsColon(":")
  {
  }

  /** A text with one access token, made of these pieces. */
  function OneToken(a: string, token: string, rest: seq<string>): string {
    Join([a, "access_token", ":", token] + rest, QUOTE)
  }

  lemma OneMasked(a: string, token: string, rest: seq<string>)
    requires QUOTE !in a && QUOTE !in token && AreParts(rest, QUOTE)
    requires a !in SENSITIVE_MEMBERS && forall p :: p in rest ==> p !in SENSITIVE_MEMBERS
    ensures RedactAll(OneToken(a, token, rest), SENSITIVE_MEMBERS) == OneToken(a, MASK, rest)
  {
    hide RedactAll, Join, Exchanged, IsColon, MaskedFor;
    var w: nat -> string := _ => MASK;
    var all, out := [a, "access_token", ":", token] + rest, [a, "access_token", ":", MASK] + rest;
    ColonIsColon();
    assert SENSITIVE_MEMBERS[0] == "access_token";
    ExchangeFirst(a, "access_token", ":", token, rest, w);
    FirstPassOnly(all, out, w);
  }

  /**
   * A value that is called like a later member, as in "access_token":"refresh_token":"S1" - masking it
   * hides the name that the later pass would look for, so the value behind it shows.
   */
  lemma ValueCalledLikeAMember(name: string, secret: string)
    requires name in SENSITIVE_MEMBERS[1..] && QUOTE !in secret && secret !in SENSITIVE_MEMBERS
    ensures var rest := [":", secret, ""]; var s := OneToken("", name, rest);
            && |Split(s, QUOTE)| == 7 && Split(s, QUOTE)[5] == secret && Hidden(Split(s, QUOTE), SENSITIVE_MEMBERS, 5)
            && Misread(Split(s, QUOTE), SENSITIVE_MEMBERS[0], name, 3)
            && RedactAll(s, SENSITIVE_MEMBERS) == OneToken("", MASK, rest)
  {
    hide RedactAll, Split, Join, IsColon, MaskedFor;
    var rest := [":", secret, ""];
    var all := ["", "access_token", ":", name] + rest;
    SensitiveNamesOk();
    NoQuoteInNames(SENSITIVE_MEMBERS);
    ColonIsColon();
    assert name in SENSITIVE_MEMBERS && name != SENSITIVE_MEMBERS[0] && NameOk(name);
    OneMasked("", name, rest);
    SplitOfJoin(all, QUOTE);
    LaterValue(all[1..], name, secret);
    assert MaskedFor(all, name, 5) by { MaskedIn(all, name, 5); }
    ExchangeFirst("", "access_token", ":", name, rest, _ => MASK);
    assert all[3..] == [name, ":", secret, ""];
  }

  lemma MaskedIn(all: seq<string>, name: string, m: nat)
    requires all != [] && m >= 1 && Masks(all[1..], name, m - 1)
    ensures MaskedFor(all, name, m)
  {
  }

  lemma LaterValue(ps: seq<string>, name: string, secret: string)
    requires ps == ["access_token", ":", name, ":", secret, ""] && name != "access_token" && name != ":" && IsColon(":")
    ensures Masks(ps, name, 4)
  {
    hide IsColon;
    assert ps[1..] == [":", name, ":", secret, ""] && ps[1..][1..] == [name, ":", secret, ""];
    assert Masks(ps[1..][1..], name, 2);
    assert Masks(ps[1..], name, 3);
  }
}
