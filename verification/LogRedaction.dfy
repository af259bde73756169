/** Masking secrets in text that goes to the debug log, in one pass into a pre-sized buffer. */
module LogRedaction {
  import opened CStrings
  import opened Options

  const MASK := "***"

  // ---- searching from a position ----

  predicate MatchAt(s: string, needle: string, i: nat) {
    i + |needle| <= |s| && forall k :: 0 <= k < |needle| ==> s[i + k] == needle[k]
  }

  /** strstr: the first occurrence at or after `from`, -1 if there is none. */
  function StrStr(s: string, needle: string, from: nat): (r: int)
    requires from <= |s|
    ensures r == -1 || (from <= r && MatchAt(s, needle, r))
    ensures forall i: nat :: from <= i && (i < r || r == -1) ==> !MatchAt(s, needle, i)
    decreases |s| - from
  {
    if MatchAt(s, needle, from) then from
    else if from == |s| then -1
    else StrStr(s, needle, from + 1)
  }

  predicate IsBlank(c: char) { c == ' ' || c == '\t' }

  function SkipBlanks(s: string, from: nat): (r: nat)
    requires from <= |s|
    ensures from <= r <= |s| && (forall i :: from <= i < r ==> IsBlank(s[i])) && !IsBlank(At(s, r))
    decreases |s| - from
  {
    if IsBlank(At(s, from)) then SkipBlanks(s, from + 1) else from
  }

  /** Where the quoted value after a member name starts: `blanks : blanks "`. */
  function ValueStart(s: string, after: nat): (r: Option<nat>)
    requires after <= |s|
    ensures r.Some? ==> after + 2 <= r.value <= |s| && s[r.value - 1] == '"'
  {
    var c := SkipBlanks(s, after);
    if At(s, c) != ':' then None
    else
      var q := SkipBlanks(s, c + 1);
      if At(s, q) != '"' then None else Some(q + 1)
  }

  // ---- one JSON member ----

  /**
   * What the scan finds next: no further needle, a needle that introduces no quoted value and is
   * stepped over, or a value s[from..to] to mask.
   */
  datatype Step = Finished | Skipped(after: nat) | Masked(from: nat, to: nat)

  function NextStep(s: string, needle: string, pos: nat): (r: Step)
    requires pos <= |s|
    ensures r.Skipped? ==> pos + |needle| <= r.after <= |s|
    ensures r.Masked? ==> pos + |needle| + 2 <= r.from <= r.to <= |s|
  {
    var m := StrStr(s, needle, pos);
    if m < 0 then Finished
    else match ValueStart(s, m + |needle|)
      case None => Skipped(m + |needle|)
      case Some(p) => Masked(p, ChrOrEnd(s, '"', p))
  }

  /**
   * The redaction of s[copied..], of which s[copied..pos] has been scanned: values found are
   * replaced by the mask, all other text is kept.
   */
  function Redact(s: string, needle: string, copied: nat, pos: nat): string
    requires needle != "" && copied <= pos <= |s|
    decreases |s| - pos
  {
    match NextStep(s, needle, pos)
    case Finished => s[copied..]
    case Skipped(after) => Redact(s, needle, copied, after)
    case Masked(from, to) => (s[copied..from] + MASK) + Redact(s, needle, to, to)
  }

  /** Masked matches are at least |needle| + 2 apart, which bounds how many there can be. */
  function MaxMasks(dataLen: nat, needleLen: nat): (n: nat)
    ensures n == dataLen / (needleLen + 2)
  {
    dataLen / (needleLen + 2)
  }

  function BufferSize(dataLen: nat, needleLen: nat): nat {
    dataLen + 3 * (MaxMasks(dataLen, needleLen) + 1) + 1
  }

  ghost predicate MasksWithin(masks: nat, needleLen: nat, copied: nat) {
    masks * (needleLen + 2) <= copied
  }

  lemma OneMoreMask(dataLen: nat, needleLen: nat, masks: nat, copied: nat, copied': nat)
    requires MasksWithin(masks, needleLen, copied) && copied + needleLen + 2 <= copied' <= dataLen
    ensures MasksWithin(masks + 1, needleLen, copied')
    ensures masks + 1 <= MaxMasks(dataLen, needleLen)
  {
  }

  lemma NoMasks(needleLen: nat)
    ensures MasksWithin(0, needleLen, 0)
  {
  }

  lemma RedactStep(s: string, needle: string, copied: nat, pos: nat, done: string)
    requires needle != "" && copied <= pos <= |s|
    ensures match NextStep(s, needle, pos)
            case Finished => done + Redact(s, needle, copied, pos) == done + s[copied..]
            case Skipped(after) => Redact(s, needle, copied, pos) == Redact(s, needle, copied, after)
            case Masked(from, to) =>
              done + Redact(s, needle, copied, pos) == done + (s[copied..from] + MASK) + Redact(s, needle, to, to)
  {
  }

  method RedactJsonMember(data: string, needle: string) returns (result: array<char>)
    requires needle != ""
    ensures fresh(result) && result.Length == |data| + 3 * (|data| / (|needle| + 2) + 1) + 1
    ensures Holds(result, Redact(data, needle, 0, 0))
  {
    hide NextStep, Redact, MasksWithin, MaxMasks;
    result := new char[BufferSize(|data|, |needle|)];
    var out: nat, copied: nat, pos: nat := 0, 0, 0;
    ghost var masks: nat, done := 0, "";
    NoMasks(|needle|);
    while true
      invariant copied <= pos <= |data|
      invariant MasksWithin(masks, |needle|, copied) && masks <= MaxMasks(|data|, |needle|) && out <= copied + 3 * masks
      invariant out + (|data| - copied) + 3 < result.Length
      invariant result[..out] == done
      invariant done + Redact(data, needle, copied, pos) == Redact(data, needle, 0, 0)
      decreases |data| - pos
    {
      RedactStep(data, needle, copied, pos, done);
      var step := FindValue(data, needle, pos);
      if step == Finished {
        break;
      }
      if step.Skipped? {
        pos := step.after;
        continue;
      }
      var p, end := step.from, step.to;
      out := CopyThenMask(result, out, data, copied, p);
      done := done + (data[copied..p] + MASK);
      OneMoreMask(|data|, |needle|, masks, copied, end);
      masks := masks + 1;
      copied, pos := end, end;
    }
    out := Copy(result, out, data, copied, |data|);
    assert result[..out] == Redact(data, needle, 0, 0);
    Terminate(result, out);
  }

  method CopyThenMask(result: array<char>, out: nat, data: string, from: nat, to: nat) returns (out': nat)
    requires from <= to <= |data| && out + (to - from) + 3 <= result.Length
    modifies result
    ensures out' == out + (to - from) + 3
    ensures result[..out'] == old(result[..out]) + (data[from..to] + MASK)
  {
    out' := Copy(result, out, data, from, to);
    out' := Copy(result, out', MASK, 0, 3);
  }

  /** Search for the needle from pos on, then walk over `: "` and up to the closing quote. */
  method FindValue(data: string, needle: string, pos: nat) returns (step: Step)
    requires pos <= |data|
    ensures step == NextStep(data, needle, pos)
  {
    var match_ := StrStr(data, needle, pos);
    if match_ < 0 {
      return Finished;
    }
    var after := match_ + |needle|;
    var p := ScanBlanks(data, after);
    if At(data, p) != ':' {
      return Skipped(after);
    }
    p := ScanBlanks(data, p + 1);
    if At(data, p) != '"' {
      return Skipped(after);
    }
    p := p + 1;
    return Masked(p, ChrOrEnd(data, '"', p));
  }

  method ScanBlanks(data: string, from: nat) returns (p: nat)
    requires from <= |data|
    ensures p == SkipBlanks(data, from)
  {
    p := from;
    while IsBlank(At(data, p))
      invariant from <= p <= |data| && SkipBlanks(data, p) == SkipBlanks(data, from)
      decreases |data| - p
    {
      p := p + 1;
    }
  }

  // ---- what redaction achieves: the output carries no information about the masked values ----

  /** A needle as the module builds it: a member name between double quotes. */
  predicate IsQuotedName(needle: string) {
    |needle| >= 2 && needle[0] == '"' && needle[|needle| - 1] == '"'
  }

  /** The first value the scan masks from pos on. */
  function FirstMask(s: string, needle: string, pos: nat): (r: Option<(nat, nat)>)
    requires needle != "" && pos <= |s|
    ensures r.Some? ==> pos + |needle| + 2 <= r.value.0 <= r.value.1 <= |s|
    decreases |s| - pos
  {
    match NextStep(s, needle, pos)
    case Finished => None
    case Skipped(after) => FirstMask(s, needle, after)
    case Masked(from, to) => Some((from, to))
  }

  /** s with its k-th, (k+1)-st, ... masked values replaced by w(k), w(k + 1), ... */
  function Rewrite(s: string, needle: string, w: nat -> string, k: nat): string
    requires needle != ""
  {
    match FirstMask(s, needle, 0)
    case None => s
    case Some((from, to)) => (s[..from] + w(k)) + Rewrite(s[to..], needle, w, k + 1)
  }

  ghost predicate QuoteFree(w: nat -> string) {
    forall k: nat :: '"' !in w(k)
  }

  /** s and t have their first n characters in common. */
  ghost predicate Agree(s: string, t: string, n: nat) {
    n <= |s| && n <= |t| && forall i :: 0 <= i < n ==> s[i] == t[i]
  }

  lemma SameFirstMatch(s: string, t: string, needle: string, pos: nat)
    requires pos <= |s| && StrStr(s, needle, pos) >= 0 && Agree(s, t, StrStr(s, needle, pos) + |needle|)
    ensures pos <= |t| && StrStr(t, needle, pos) == StrStr(s, needle, pos)
  {
    var m := StrStr(s, needle, pos);
    assert MatchAt(t, needle, m);
    var r := StrStr(t, needle, pos);
    assert 0 <= r <= m;
    assert MatchAt(s, needle, r);
  }

  /** Whether a quoted value follows is decided by the text up to the next double quote. */
  lemma SameValueStart(s: string, t: string, after: nat, q: nat)
    requires after <= q && Agree(s, t, q + 1) && s[q] == '"'
    ensures ValueStart(s, after) == ValueStart(t, after)
  {
  }

  /** Before a masked value there is the needle that introduces it. */
  lemma {:induction false} MaskHasNeedle(s: string, needle: string, pos: nat) returns (m: nat)
    requires needle != "" && pos <= |s| && FirstMask(s, needle, pos).Some?
    ensures pos <= m && m + |needle| + 2 <= FirstMask(s, needle, pos).value.0 && MatchAt(s, needle, m)
    decreases |s| - pos
  {
    match NextStep(s, needle, pos)
    case Skipped(after) => m := MaskHasNeedle(s, needle, after);
    case Masked(_, _) => m := StrStr(s, needle, pos);
  }

  lemma EndUnique(t: string, p: nat, e: nat)
    requires p <= e <= |t| && (forall i :: p <= i < e ==> t[i] != '"') && (e < |t| ==> t[e] == '"')
    ensures ChrOrEnd(t, '"', p) == e
  {
  }

  /** A needle that is stepped over, with another double quote at q behind it, is stepped over in t, too. */
  lemma SameSkip(s: string, t: string, needle: string, pos: nat, q: nat)
    requires pos <= |s| && NextStep(s, needle, pos).Skipped? && NextStep(s, needle, pos).after <= q
    requires Agree(s, t, q + 1) && s[q] == '"'
    ensures NextStep(t, needle, pos) == NextStep(s, needle, pos)
  {
    SameFirstMatch(s, t, needle, pos);
    SameValueStart(s, t, StrStr(s, needle, pos) + |needle|, q);
    hide StrStr, ChrOrEnd, ValueStart, MatchAt;
  }

  lemma QuoteBehindSkip(s: string, needle: string, pos: nat) returns (q: nat)
    requires IsQuotedName(needle) && pos <= |s| && FirstMask(s, needle, pos).Some?
    ensures pos <= q && q + 1 < FirstMask(s, needle, pos).value.0 && s[q] == '"'
  {
    q := MaskHasNeedle(s, needle, pos);
    assert s[q + 0] == needle[0];
  }

  lemma SameMask(s: string, t: string, needle: string, pos: nat, p: nat, e: nat)
    requires pos <= |s| && NextStep(s, needle, pos).Masked? && p == NextStep(s, needle, pos).from
    requires Agree(s, t, p) && p <= e <= |t| && (forall i :: p <= i < e ==> t[i] != '"') && (e < |t| ==> t[e] == '"')
    ensures NextStep(t, needle, pos) == Masked(p, e)
  {
    SameFirstMatch(s, t, needle, pos);
    SameValueStart(s, t, StrStr(s, needle, pos) + |needle|, p - 1);
    EndUnique(t, p, e);
    hide StrStr, ChrOrEnd;
  }

  /** Up to its first masked value, a text is scanned alike whatever that value and the text behind it are. */
  lemma {:induction false} ScanPrefix(s: string, t: string, needle: string, pos: nat, p: nat, e: nat)
    requires IsQuotedName(needle) && pos <= |s|
    requires FirstMask(s, needle, pos).Some? && p == FirstMask(s, needle, pos).value.0
    requires Agree(s, t, p) && p <= e <= |t| && (forall i :: p <= i < e ==> t[i] != '"') && (e < |t| ==> t[e] == '"')
    ensures pos <= |t| && Redact(t, needle, 0, pos) == (s[..p] + MASK) + Redact(t, needle, e, e)
    decreases |s| - pos
  {
    hide NextStep;
    match NextStep(s, needle, pos)
    case Skipped(after) =>
      var q := QuoteBehindSkip(s, needle, after);
      SameSkip(s, t, needle, pos, q);
      ScanPrefix(s, t, needle, after, p, e);
    case Masked(_, _) =>
      SameMask(s, t, needle, pos, p, e);
      assert t[0..p] == s[..p];
  }

  // ---- scanning a suffix of a text ----

  lemma {:induction false} ShiftStrStr(s: string, needle: string, i: nat, pos: nat)
    requires i + pos <= |s|
    ensures var r := StrStr(s[i..], needle, pos); StrStr(s, needle, i + pos) == if r < 0 then -1 else i + r
    decreases |s| - i - pos
  {
    assert MatchAt(s[i..], needle, pos) <==> MatchAt(s, needle, i + pos) by { ShiftMatch(s, needle, i, pos); }
    if !MatchAt(s, needle, i + pos) && i + pos < |s| {
      ShiftStrStr(s, needle, i, pos + 1);
    }
  }

  lemma ShiftMatch(s: string, needle: string, i: nat, pos: nat)
    requires i + pos <= |s|
    ensures MatchAt(s[i..], needle, pos) <==> MatchAt(s, needle, i + pos)
  {
  }

  lemma ShiftValueStart(s: string, i: nat, after: nat)
    requires i + after <= |s|
    ensures ValueStart(s, i + after) == match ValueStart(s[i..], after) case None => None case Some(p) => Some(i + p)
  {
  }

  lemma ShiftStep(s: string, needle: string, i: nat, pos: nat)
    requires i + pos <= |s|
    ensures NextStep(s, needle, i + pos) ==
            match NextStep(s[i..], needle, pos)
            case Finished => Finished
            case Skipped(after) => Skipped(i + after)
            case Masked(from, to) => Masked(i + from, i + to)
  {
    hide StrStr, ValueStart, ChrOrEnd;
    ShiftStrStr(s, needle, i, pos);
    var m := StrStr(s[i..], needle, pos);
    if m >= 0 {
      ShiftValueStart(s, i, m + |needle|);
      match ValueStart(s[i..], m + |needle|)
      case None =>
      case Some(p) => ShiftChr(s, '"', i, p);
    }
  }

  /** Redacting the rest of a text is redacting that text on its own. */
  lemma {:induction false} ShiftRedact(s: string, u: string, needle: string, i: nat, copied: nat, pos: nat)
    requires i <= |s| && u == s[i..] && needle != "" && copied <= pos <= |u|
    ensures Redact(s, needle, i + copied, i + pos) == Redact(u, needle, copied, pos)
    decreases |u| - pos
  {
    hide NextStep;
    ShiftStep(s, needle, i, pos);
    match NextStep(u, needle, pos)
    case Finished => ShiftSlice(s, u, i, copied, |u|);
    case Skipped(after) => ShiftRedact(s, u, needle, i, copied, after);
    case Masked(from, to) =>
      ShiftSlice(s, u, i, copied, from);
      ShiftRedact(s, u, needle, i, to, to);
  }

  lemma ShiftSlice(s: string, u: string, i: nat, from: nat, to: nat)
    requires i <= |s| && u == s[i..] && from <= to <= |u|
    ensures u[from..to] == s[i + from..i + to] && u[from..] == s[i + from..]
  {
  }

  // ---- main results ----

  lemma {:induction false} UnmaskedIsKept(s: string, needle: string, pos: nat)
    requires needle != "" && pos <= |s| && FirstMask(s, needle, pos).None?
    ensures Redact(s, needle, 0, pos) == s
    decreases |s| - pos
  {
    hide NextStep;
    assert s[0..] == s;
    match NextStep(s, needle, pos)
    case Skipped(after) => UnmaskedIsKept(s, needle, after);
    case _ =>
  }

  lemma {:induction false} FirstMaskIsNext(s: string, needle: string, pos: nat)
    requires needle != "" && pos <= |s| && FirstMask(s, needle, pos).Some?
    ensures var (p, e) := FirstMask(s, needle, pos).value;
            Redact(s, needle, 0, pos) == (s[..p] + MASK) + Redact(s, needle, e, e)
    ensures var (p, e) := FirstMask(s, needle, pos).value;
            (forall i :: p <= i < e ==> s[i] != '"') && (e < |s| ==> s[e] == '"')
    decreases |s| - pos
  {
    match NextStep(s, needle, pos)
    case Skipped(after) => FirstMaskIsNext(s, needle, after);
    case Masked(p, e) => assert s[0..p] == s[..p];
  }

  /** Redaction replaces every value the scan finds by the mask and keeps everything else. */
  lemma {:induction false} RedactReplaces(s: string, needle: string, w: nat -> string, k: nat)
    requires needle != "" && forall i :: w(i) == MASK
    ensures Redact(s, needle, 0, 0) == Rewrite(s, needle, w, k)
    decreases |s|
  {
    hide FirstMask, Redact;
    if FirstMask(s, needle, 0).None? {
      UnmaskedIsKept(s, needle, 0);
    } else {
      FirstMaskIsNext(s, needle, 0);
      var e := FirstMask(s, needle, 0).value.1;
      ShiftRedact(s, s[e..], needle, e, 0, 0);
      RedactReplaces(s[e..], needle, w, k + 1);
    }
  }

  /**
   * The redacted text does not depend on the masked values: exchanging all of them, each for any
   * text without a double quote, changes nothing in the output.
   */
  lemma {:induction false} SecretsDoNotShow(s: string, needle: string, w: nat -> string, k: nat)
    requires IsQuotedName(needle) && QuoteFree(w)
    ensures Redact(Rewrite(s, needle, w, k), needle, 0, 0) == Redact(s, needle, 0, 0)
    decreases |s|
  {
    hide Redact, FirstMask;
    if FirstMask(s, needle, 0).Some? {
      var (p, e) := FirstMask(s, needle, 0).value;
      FirstMaskIsNext(s, needle, 0);
      SecretsDoNotShow(s[e..], needle, w, k + 1);
      var tail := Rewrite(s[e..], needle, w, k + 1);
      RewriteKeepsHead(s[e..], needle, w, k + 1);
      ExchangeFirst(s, needle, p, w(k), tail);
      ShiftRedact(s, s[e..], needle, e, 0, 0);
    }
  }

  lemma RewriteKeepsHead(s: string, needle: string, w: nat -> string, k: nat)
    requires needle != ""
    ensures var t := Rewrite(s, needle, w, k); if s == "" then t == "" else t != "" && t[0] == s[0]
  {
  }

  lemma ExchangeFirst(s: string, needle: string, p: nat, v: string, tail: string)
    requires IsQuotedName(needle) && FirstMask(s, needle, 0).Some? && p == FirstMask(s, needle, 0).value.0
    requires '"' !in v && (tail == "" || tail[0] == '"')
    ensures Redact((s[..p] + v) + tail, needle, 0, 0) == (s[..p] + MASK) + Redact(tail, needle, 0, 0)
  {
    hide FirstMask, Redact;
    var t, e := (s[..p] + v) + tail, p + |v|;
    Pasted(s, p, v, tail);
    ScanPrefix(s, t, needle, 0, p, e);
    ShiftRedact(t, tail, needle, e, 0, 0);
  }

  lemma Pasted(s: string, p: nat, v: string, tail: string)
    requires p <= |s| && '"' !in v && (tail == "" || tail[0] == '"')
    ensures var t, e := (s[..p] + v) + tail, p + |v|;
            && Agree(s, t, p) && e <= |t| && t[e..] == tail
            && (forall i :: p <= i < e ==> t[i] != '"') && (e < |t| ==> t[e] == '"')
  {
  }

  /** Redacting twice is redacting once. */
  lemma RedactIdempotent(s: string, needle: string)
    requires IsQuotedName(needle)
    ensures var r := Redact(s, needle, 0, 0); Redact(r, needle, 0, 0) == r
  {
    var w: nat -> string := _ => MASK;
    RedactReplaces(s, needle, w, 0);
    SecretsDoNotShow(s, needle, w, 0);
  }

  // ---- all members of a response ----

  const SENSITIVE_MEMBERS: seq<string> := [
    "access_token", "refresh_token", "id_token", "client_secret", "registration_access_token"
  ]

  /** The members whose values are not to be logged. */
  lemma SensitiveMembers(name: string)
    ensures name in SENSITIVE_MEMBERS <==>
            name in {"access_token", "refresh_token", "id_token", "client_secret", "registration_access_token"}
  {
  }

  function Quoted(name: string): string { "\"" + name + "\"" }

  /** One pass per member, each over the result of the one before. */
  function RedactAll(s: string, members: seq<string>): string
    decreases |members|
  {
    if members == [] then s else RedactAll(Redact(s, Quoted(members[0]), 0, 0), members[1..])
  }

  /** `masking` is the switch that turns masking off. */
  method RedactJsonForLog(data: string, masking: bool) returns (result: string)
    requires '\0' !in data
    ensures result == if masking then RedactAll(data, SENSITIVE_MEMBERS) else data
  {
    hide Redact, Quoted;
    result := data;
    if !masking {
      return;
    }
    assert SENSITIVE_MEMBERS[0..] == SENSITIVE_MEMBERS;
    for i := 0 to |SENSITIVE_MEMBERS|
      invariant '\0' !in result && RedactAll(result, SENSITIVE_MEMBERS[i..]) == RedactAll(data, SENSITIVE_MEMBERS)
    {
      var needle := Quoted(SENSITIVE_MEMBERS[i]);
      assert needle != "" by { QuotedIsName(SENSITIVE_MEMBERS[i]); }
      var buffer := RedactJsonMember(result, needle);
      ghost var redacted := Redact(result, needle, 0, 0);
      NoNulAppears(result, needle, 0, 0);
      assert SENSITIVE_MEMBERS[i..][1..] == SENSITIVE_MEMBERS[i + 1..];
      result := ToString(buffer, redacted);
    }
  }

  lemma QuotedIsName(name: string)
    ensures IsQuotedName(Quoted(name))
  {
  }

  lemma {:induction false} NoNulAppears(s: string, needle: string, copied: nat, pos: nat)
    requires needle != "" && copied <= pos <= |s| && '\0' !in s
    ensures '\0' !in Redact(s, needle, copied, pos)
    decreases |s| - pos
  {
    hide NextStep;
    match NextStep(s, needle, pos)
    case Finished =>
    case Skipped(after) => NoNulAppears(s, needle, copied, after);
    case Masked(from, to) => NoNulAppears(s, needle, to, to);
  }
}
