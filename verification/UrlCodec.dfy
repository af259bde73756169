/** Percent-encoding (sections 2.1 and 2.3 of RFC 3986) and decoding, into pre-sized buffers. */
module UrlCodec {
  import opened CStrings

  const HEX := "0123456789ABCDEF"

  predicate IsUnreserved(c: char) {
    'A' <= c <= 'Z' || 'a' <= c <= 'z' || '0' <= c <= '9' || c == '-' || c == '.' || c == '_' || c == '~'
  }

  function EncodeByte(c: char): (r: string)
    requires c as int < 256
  {
    if IsUnreserved(c) then [c] else ['%', HEX[c as int / 16], HEX[c as int % 16]]
  }

  function Encode(s: string): string
    requires IsCString(s)
  {
    if s == "" then "" else EncodeByte(s[0]) + Encode(s[1..])
  }

  function HexDigit(c: char): (d: int)
    ensures -1 <= d < 16
  {
    if '0' <= c <= '9' then c as int - '0' as int
    else if 'A' <= c <= 'F' then c as int - 'A' as int + 10
    else if 'a' <= c <= 'f' then c as int - 'a' as int + 10
    else -1
  }

  /** s starts with a well-formed percent-encoded byte. */
  predicate StartsEncoded(s: string) {
    |s| >= 3 && s[0] == '%' && HexDigit(s[1]) >= 0 && HexDigit(s[2]) >= 0
  }

  function Decode(s: string): string {
    if s == "" then ""
    else if s[0] == '+' then " " + Decode(s[1..])
    else if StartsEncoded(s) then [(HexDigit(s[1]) * 16 + HexDigit(s[2])) as char] + Decode(s[3..])
    else [s[0]] + Decode(s[1..])
  }

  lemma {:induction false} EncodeAppend(s: string, c: char)
    requires IsCString(s + [c])
    ensures IsCString(s) && 0 < c as int < 256
    ensures Encode(s + [c]) == Encode(s) + EncodeByte(c)
    decreases |s|
  {
    hide EncodeByte;
    assert (s + [c])[|s|] == c;
    assert forall i :: 0 <= i < |s| ==> (s + [c])[i] == s[i];
    if s == "" {
      assert s + [c] == [c] && [c][1..] == "";
    } else {
      assert (s + [c])[1..] == s[1..] + [c];
      EncodeAppend(s[1..], c);
    }
  }

  method UrlEncode(str: string) returns (rv: array<char>)
    requires IsCString(str)
    ensures fresh(rv) && rv.Length == |str| * 3 + 1 && Holds(rv, Encode(str))
  {
    hide Encode, IsUnreserved;
    assert Encode("") == "" by { EncodeNothing(); }
    rv := new char[|str| * 3 + 1];
    var p := 0;
    for i := 0 to |str|
      invariant p <= i * 3 && rv[..p] == Encode(str[..i])
    {
      var c := str[i];
      ghost var done := rv[..p];
      assert str[..i + 1] == str[..i] + [c];
      EncodeAppend(str[..i], c);
      if IsUnreserved(c) {
        p := Put(rv, p, c);
      } else {
        p := Put(rv, p, '%');
        p := Put(rv, p, HEX[c as int / 16]);
        p := Put(rv, p, HEX[c as int % 16]);
      }
      assert rv[..p] == done + EncodeByte(c);
    }
    assert str[..|str|] == str;
    Terminate(rv, p);
  }

  lemma EncodeNothing()
    ensures Encode("") == ""
  {
  }

  /** One step of the decoder at the front of `rest`: the byte it emits and how much it consumes. */
  function DecodeStep(rest: string): (r: (char, nat))
    requires rest != ""
    ensures 1 <= r.1 <= |rest| && Decode(rest) == [r.0] + Decode(rest[r.1..])
  {
    if rest[0] == '+' then (' ', 1)
    else if StartsEncoded(rest) then ((HexDigit(rest[1]) * 16 + HexDigit(rest[2])) as char, 3)
    else (rest[0], 1)
  }

  method UrlDecode(str: string) returns (rv: array<char>)
    ensures fresh(rv) && rv.Length == |str| + 1 && Holds(rv, Decode(str))
  {
    hide Decode, HexDigit;
    rv := new char[|str| + 1];
    var p, i := 0, 0;
    assert Decode(str[0..]) == Decode(str) by { assert str[0..] == str; }
    while i < |str|
      invariant p <= i <= |str| && rv[..p] + Decode(str[i..]) == Decode(str)
    {
      ghost var i0, done := i, rv[..p];
      var c := str[i];
      if c == '+' {
        p := Put(rv, p, ' ');
        i := i + 1;
      } else if c == '%' {
        var hi := HexDigit(At(str, i + 1));
        assert HexDigit('\0') == -1 by { NulIsNoDigit(); }
        var lo := if hi >= 0 then HexDigit(At(str, i + 2)) else -1;
        if lo >= 0 {
          p := Put(rv, p, (hi * 16 + lo) as char);
          i := i + 3;
        } else {
          p := Put(rv, p, c);
          i := i + 1;
        }
      } else {
        p := Put(rv, p, c);
        i := i + 1;
      }
      ghost var step := DecodeStep(str[i0..]);
      assert str[i0..][step.1..] == str[i0 + step.1..];
      assert rv[..p] == done + [step.0] && i == i0 + step.1;
    }
    assert Decode("") == "" by { DecodeNothing(); }
    assert str[i..] == "";
    Terminate(rv, p);
  }

  lemma NulIsNoDigit()
    ensures HexDigit('\0') == -1
  {
  }

  lemma DecodeNothing()
    ensures Decode("") == ""
  {
  }

  lemma EncodedByteDecodes(c: char, rest: string)
    requires 0 < c as int < 256
    ensures Decode(EncodeByte(c) + rest) == [c] + Decode(rest)
  {
    var e := EncodeByte(c) + rest;
    if IsUnreserved(c) {
      assert e[1..] == rest;
    } else {
      assert e[0] == '%' && e[1] == HEX[c as int / 16] && e[2] == HEX[c as int % 16] && e[3..] == rest;
      HexDigitOfHex(c as int / 16);
      HexDigitOfHex(c as int % 16);
    }
  }

  lemma HexDigitOfHex(d: nat)
    requires d < 16
    ensures HexDigit(HEX[d]) == d
  {
  }

  /** Decoding undoes encoding. */
  lemma {:induction false} DecodeEncode(s: string)
    requires IsCString(s)
    ensures Decode(Encode(s)) == s
    ensures |Encode(s)| <= 3 * |s|
    decreases |s|
  {
    if s != "" {
      DecodeEncode(s[1..]);
      EncodedByteDecodes(s[0], Encode(s[1..]));
    }
  }

  /** Distinct strings have distinct encodings. */
  lemma EncodeInjective(s: string, t: string)
    requires IsCString(s) && IsCString(t) && Encode(s) == Encode(t)
    ensures s == t
  {
    DecodeEncode(s);
    DecodeEncode(t);
  }

  /** An encoded string is made of unreserved characters and '%' only, so it is safe inside a file name. */
  lemma {:induction false} EncodedAlphabet(s: string)
    requires IsCString(s)
    ensures forall c :: c in Encode(s) ==> IsUnreserved(c) || c == '%'
    decreases |s|
  {
    if s != "" {
      EncodedAlphabet(s[1..]);
      EncodedByteAlphabet(s[0]);
    }
  }

  lemma EncodedByteAlphabet(c: char)
    requires c as int < 256
    ensures forall x :: x in EncodeByte(c) ==> IsUnreserved(x) || x == '%'
  {
  }

  // ---- characters and escapes ----

  /** Letters, digits and four others are kept; each other byte becomes '%' and two upper-case digits. */
  lemma EncodedBytes(c: char)
    requires c as int < 256
    ensures 'a' <= c <= 'z' || 'A' <= c <= 'Z' || '0' <= c <= '9' || c in "-._~" <==> EncodeByte(c) == [c]
    ensures EncodeByte(c) == [c] ||
            EncodeByte(c) == ['%', "0123456789ABCDEF"[c as int / 16], "0123456789ABCDEF"[c as int % 16]]
  {
  }

  /** So an encoded string can be part of a file name: it contains no slash. */
  lemma EncodedIsFileName(s: string)
    requires IsCString(s)
    ensures '/' !in Encode(s) && '\0' !in Encode(s)
  {
    EncodedAlphabet(s);
  }

  /** A hexadecimal digit in either case. */
  function HexChar(d: nat, upper: bool): char
    requires d < 16
  {
    if upper then "0123456789ABCDEF"[d] else "0123456789abcdef"[d]
  }

  /** Escapes are decoded whether their digits are upper-case or lower-case. */
  lemma EscapesDecode(n: nat, upper: bool, upper': bool, rest: string)
    requires n < 256
    ensures Decode(['%', HexChar(n / 16, upper), HexChar(n % 16, upper')] + rest) == [n as char] + Decode(rest)
  {
    hide Decode, HexDigit, HexChar;
    DigitValue(n / 16, upper);
    DigitValue(n % 16, upper');
    EscapeDecodes(HexChar(n / 16, upper), HexChar(n % 16, upper'), rest);
  }

  lemma EscapeDecodes(hi: char, lo: char, rest: string)
    requires HexDigit(hi) >= 0 && HexDigit(lo) >= 0
    ensures Decode(['%', hi, lo] + rest) == [(HexDigit(hi) * 16 + HexDigit(lo)) as char] + Decode(rest)
  {
    hide HexDigit;
    assert (['%', hi, lo] + rest)[3..] == rest;
  }

  lemma DigitValue(d: nat, upper: bool)
    requires d < 16
    ensures HexDigit(HexChar(d, upper)) == d
  {
  }

  /** A percent sign without two hexadecimal digits behind it is copied, a plus sign is a space, all else is kept. */
  lemma OthersAreCopied(c: char, rest: string)
    ensures c == '+' ==> Decode([c] + rest) == " " + Decode(rest)
    ensures c != '+' && c != '%' ==> Decode([c] + rest) == [c] + Decode(rest)
    ensures c == '%' && (|rest| < 2 || !IsHex(rest[0]) || !IsHex(rest[1])) ==>
              Decode([c] + rest) == [c] + Decode(rest)
  {
    assert ([c] + rest)[1..] == rest;
  }

  predicate IsHex(c: char) { '0' <= c <= '9' || 'A' <= c <= 'F' || 'a' <= c <= 'f' }
}
