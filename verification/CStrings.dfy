/**
 * C strings: a value is the sequence of its bytes before the terminating NUL, one char per byte.
 * A buffer holds a value when it starts with the value's bytes followed by a NUL.
 */
module CStrings {

  const QUOTE := '"'

  /** Every char is one byte and none is the terminator. */
  ghost predicate IsCString(s: string) {
    forall i :: 0 <= i < |s| ==> 0 < s[i] as int < 256
  }

  /** Reading position i of a C string; the terminator is the last readable position. */
  function At(s: string, i: nat): char
    requires i <= |s|
  {
    if i < |s| then s[i] else '\0'
  }

  /** strchr from a position on, giving the end of the string when the character does not occur. */
  function ChrOrEnd(s: string, c: char, from: nat): (r: nat)
    requires from <= |s|
    ensures from <= r <= |s| && (forall i :: from <= i < r ==> s[i] != c) && (r < |s| ==> s[r] == c)
    decreases |s| - from
  {
    if from == |s| || s[from] == c then from else ChrOrEnd(s, c, from + 1)
  }

  lemma ShiftChr(s: string, c: char, i: nat, pos: nat)
    requires i + pos <= |s|
    ensures ChrOrEnd(s, c, i + pos) == i + ChrOrEnd(s[i..], c, pos)
  {
  }

  ghost predicate Holds(buf: array<char>, s: string)
    reads buf
  {
    |s| < buf.Length && buf[..|s|] == s && buf[|s|] == '\0'
  }

  /** memcpy of s[from..to] to position out. */
  method Copy(buf: array<char>, out: nat, s: string, from: nat, to: nat) returns (out': nat)
    requires from <= to <= |s| && out + (to - from) <= buf.Length
    modifies buf
    ensures out' == out + (to - from)
    ensures buf[..out'] == old(buf[..out]) + s[from..to]
  {
    var n := to - from;
    forall i | 0 <= i < n { buf[out + i] := s[from + i]; }
    out' := out + n;
  }

  /** *p++ = c */
  method Put(buf: array<char>, p: nat, c: char) returns (p': nat)
    requires p < buf.Length
    modifies buf
    ensures p' == p + 1 && buf[..p'] == old(buf[..p]) + [c]
  {
    buf[p] := c;
    p' := p + 1;
  }

  /** *p = '\0', which completes the string. */
  method Terminate(buf: array<char>, p: nat)
    requires p < buf.Length
    modifies buf
    ensures Holds(buf, old(buf[..p]))
  {
    buf[p] := '\0';
  }

  /** Read a buffer up to its terminator. */
  method ToString(buffer: array<char>, ghost s: string) returns (r: string)
    requires Holds(buffer, s) && '\0' !in s
    ensures r == s
  {
    var n := 0;
    while buffer[n] != '\0'
      invariant n <= |s|
      decreases |s| - n
    {
      assert n != |s|;
      n := n + 1;
    }
    assert forall i :: 0 <= i < |s| ==> s[i] == buffer[..|s|][i];
    r := buffer[..n];
  }
}
