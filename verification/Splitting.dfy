/** Texts as the parts between the occurrences of a separator. */
module Splitting {
  import opened CStrings

  /** There is always at least one part. */
  function Split(s: string, c: char): (parts: seq<string>)
    ensures parts != []
  {
    var e := ChrOrEnd(s, c, 0);
    if e == |s| then [s] else [s[..e]] + Split(s[e + 1..], c)
  }

  function Join(parts: seq<string>, c: char): string
    requires parts != []
  {
    if |parts| == 1 then parts[0] else parts[0] + [c] + Join(parts[1..], c)
  }

  /** No part contains the separator. */
  ghost predicate AreParts(parts: seq<string>, c: char) {
    forall i :: 0 <= i < |parts| ==> c !in parts[i]
  }

  lemma {:induction false} SplitOfJoin(parts: seq<string>, c: char)
    requires parts != [] && AreParts(parts, c)
    ensures Split(Join(parts, c), c) == parts
    decreases |parts|
  {
    var s := Join(parts, c);
    if |parts| > 1 {
      SplitOfJoin(parts[1..], c);
      assert s[|parts[0]|] == c && s[..|parts[0]|] == parts[0] && s[|parts[0]| + 1..] == Join(parts[1..], c);
      assert forall i :: 0 <= i < |parts[0]| ==> s[i] == parts[0][i];
    }
    assert ChrOrEnd(s, c, 0) == |parts[0]|;
  }

  lemma {:induction false} JoinOfSplit(s: string, c: char)
    ensures Join(Split(s, c), c) == s && AreParts(Split(s, c), c)
    decreases |s|
  {
    var e := ChrOrEnd(s, c, 0);
    if e < |s| {
      JoinOfSplit(s[e + 1..], c);
      assert Split(s, c)[1..] == Split(s[e + 1..], c);
      assert s == s[..e] + [c] + s[e + 1..];
    }
  }
}
