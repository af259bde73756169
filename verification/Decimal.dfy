/** Decimal integers as text: "%d" formatting and the strict whole-string parse of the module. */
module Decimal {
  import opened Options

  function Digit(d: nat): char
    requires d < 10
  {
    ('0' as int + d) as char
  }

  /** "%d" of a non-negative number. */
  function Dec(n: nat): string {
    if n < 10 then [Digit(n)] else Dec(n / 10) + [Digit(n % 10)]
  }

  predicate IsDigit(c: char) { '0' <= c <= '9' }

  predicate AllDigits(s: string) {
    forall i :: 0 <= i < |s| ==> IsDigit(s[i])
  }

  function Number(s: string): nat
    requires AllDigits(s)
  {
    if s == "" then 0 else Number(s[..|s| - 1]) * 10 + (s[|s| - 1] as int - '0' as int)
  }

  predicate IsSpace(c: char) { c == ' ' || 9 <= c as int <= 13 }

  function SkipSpace(s: string): string {
    if s != "" && IsSpace(s[0]) then SkipSpace(s[1..]) else s
  }

  const INT_MIN := -0x8000_0000
  const INT_MAX := 0x7FFF_FFFF

  /** strtol over the whole string, in int range; the default when that fails or there is no string. */
  function StrToInt(s: Option<string>, default: int): int {
    if s == None then default
    else
      var t := SkipSpace(s.value);
      var negative := t != "" && t[0] == '-';
      var digits := if t != "" && (t[0] == '-' || t[0] == '+') then t[1..] else t;
      if digits == "" || !AllDigits(digits) then default
      else
        var v: int := if negative then 0 - Number(digits) else Number(digits);
        if INT_MIN <= v <= INT_MAX then v else default
  }

  lemma {:induction false} DecIsNumber(n: nat)
    ensures Dec(n) != "" && AllDigits(Dec(n)) && Number(Dec(n)) == n
    decreases n
  {
    if n >= 10 {
      DecIsNumber(n / 10);
      var s := Dec(n);
      assert s[..|s| - 1] == Dec(n / 10) && s[|s| - 1] == Digit(n % 10);
    }
  }

  /** Parsing undoes formatting. */
  lemma ParseDec(n: nat, default: int)
    requires n <= INT_MAX
    ensures StrToInt(Some(Dec(n)), default) == n
  {
    DecIsNumber(n);
    assert IsDigit(Dec(n)[0]);
  }

  lemma DecInjective(m: nat, n: nat)
    requires Dec(m) == Dec(n)
    ensures m == n
  {
    DecIsNumber(m);
    DecIsNumber(n);
  }

  /** Zeros in front do not count. */
  lemma {:induction false} ZeroInFront(digits: string)
    requires AllDigits(digits)
    ensures Number("0" + digits) == Number(digits)
    decreases |digits|
  {
    var s := "0" + digits;
    if digits == "" {
      assert s[..0] == "";
    } else {
      ZeroInFront(digits[..|digits| - 1]);
      assert s[..|s| - 1] == "0" + digits[..|digits| - 1];
    }
  }

  /** White space, as isspace knows it. */
  ghost predicate IsWhite(s: string) {
    forall i :: 0 <= i < |s| ==> s[i] == ' ' || 9 <= s[i] as int <= 13
  }

  lemma {:induction false} SpaceSkipped(space: string, rest: string)
    requires IsWhite(space) && (rest != "" ==> !IsWhite(rest[..1]))
    ensures SkipSpace(space + rest) == rest
  {
    if space == "" {
      assert space + rest == rest;
      if rest != "" { assert rest[..1][0] == rest[0] && |rest[..1]| == 1; }
    } else {
      SpaceSkipped(space[1..], rest);
      assert (space + rest)[1..] == space[1..] + rest;
    }
  }

  lemma SignedText(sign: string, digits: string)
    requires sign == "" || sign == "+" || sign == "-"
    requires digits != "" && sign == "" ==> !IsWhite(digits[..1]) && digits[0] != '+' && digits[0] != '-'
    ensures var t := sign + digits;
            && (t != "" ==> !IsWhite(t[..1]))
            && (sign == "" ==> t == digits && (t == "" || (t[0] != '+' && t[0] != '-')))
            && (sign != "" ==> t[0] == sign[0] && t[1..] == digits)
  {
    var t := sign + digits;
    if sign == "" { assert t == digits; } else { assert t[..1][0] == sign[0] && |t[..1]| == 1; }
  }

  /**
   * Any text: behind white space and at most one sign it is parsed exactly if there are digits only, at least
   * one, whose number fits an int. Otherwise the default is the result.
   */
  lemma ParseIff(space: string, sign: string, digits: string, default: int)
    requires IsWhite(space) && (sign == "" || sign == "+" || sign == "-")
    requires digits != "" && sign == "" ==> !IsWhite(digits[..1]) && digits[0] != '+' && digits[0] != '-'
    ensures var parsed := StrToInt(Some(space + (sign + digits)), default);
            if digits != "" && forall i :: 0 <= i < |digits| ==> '0' <= digits[i] <= '9' then
              var n: int := if sign == "-" then 0 - Number(digits) else Number(digits);
              parsed == if -2_147_483_648 <= n <= 2_147_483_647 then n else default
            else parsed == default
  {
    hide SkipSpace, Number, IsWhite;
    SignedText(sign, digits);
    SpaceSkipped(space, sign + digits);
  }
}
