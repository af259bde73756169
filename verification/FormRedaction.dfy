/** Masking the secret parameters of a form-encoded request body, in one pass into a pre-sized buffer. */
module FormRedaction {
  import opened CStrings
  import LogRedaction
  import opened Splitting

  const SENSITIVE_PARAMS: seq<string> := [
    "client_secret", "client_assertion", "code", "code_verifier",
    "refresh_token", "access_token", "id_token", "logout_token"
  ]

  predicate IsSensitive(name: string) { name in SENSITIVE_PARAMS }

  /** The parameters whose values are not to be logged. */
  lemma SensitiveParams(name: string)
    ensures IsSensitive(name) <==>
            name in {"client_secret", "client_assertion", "code", "code_verifier",
                     "refresh_token", "access_token", "id_token", "logout_token"}
  {
  }

  // ---- parameters of a body ----

  /** The text between the '&'s. */
  function Params(s: string): (r: seq<string>)
    ensures r != []
  {
    Split(s, '&')
  }

  /** A sensitive parameter: its value is not to be shown. */
  predicate HidesValue(param: string) {
    var eq := ChrOrEnd(param, '=', 0);
    eq < |param| && IsSensitive(param[..eq])
  }

  function Name(param: string): string { param[..ChrOrEnd(param, '=', 0)] }

  function Shown(param: string): string {
    if HidesValue(param) then param[..ChrOrEnd(param, '=', 0) + 1] + LogRedaction.MASK else param
  }

  function ShownAll(params: seq<string>): (r: seq<string>)
    ensures |r| == |params| && forall i :: 0 <= i < |r| ==> r[i] == Shown(params[i])
  {
    seq(|params|, i requires 0 <= i < |params| => Shown(params[i]))
  }

  function Redacted(body: string): string { Join(ShownAll(Params(body)), '&') }

  // ---- the scanner ----

  /** How many parameters a body has, which sizes the buffer. */
  method CountParams(data: string) returns (n: nat)
    ensures n == |Params(data)|
  {
    hide Params, Split;
    n := 1;
    assert data[0..] == data;
    for i := 0 to |data|
      invariant n - 1 + |Params(data[i..])| == |Params(data)|
    {
      OneCharOn(data[i..]);
      assert data[i..][1..] == data[i + 1..];
      if data[i] == '&' {
        n := n + 1;
      }
    }
    assert data[|data|..] == "";
    assert |Params("")| == 1 by { NoText(); }
  }

  lemma NoText()
    ensures Params("") == [""]
  {
  }

  lemma OneCharOn(s: string)
    requires s != ""
    ensures |Params(s)| == |Params(s[1..])| + if s[0] == '&' then 1 else 0
  {
    if s[0] != '&' {
      ShiftChr(s, '&', 1, 0);
      var e := ChrOrEnd(s, '&', 0);
      if e < |s| { assert s[e + 1..] == s[1..][e..]; }
    }
  }

  method RedactBody(data: string) returns (result: array<char>)
    ensures fresh(result) && Holds(result, Redacted(data)) && result.Length <= 4 * |data| + 4
  {
    hide Redacted, Params, Split, Join, Shown, HidesValue, ChrOrEnd;
    var n := CountParams(data);
    ParamsAreFew(data);
    result := new char[|data| + 3 * n + 1];
    var out: nat, param: nat, left: nat := 0, 0, n;
    ghost var done := "";
    assert data[0..] == data;
    while true
      invariant param <= |data| && left == |Params(data[param..])| && out + (|data| - param) + 3 * left < result.Length
      invariant result[..out] == done && done + Redacted(data[param..]) == Redacted(data)
      decreases |data| - param
    {
      ParamStep(data, param);
      var end := ChrOrEnd(data, '&', param);
      var text := data[param..end];
      out := CopyShown(result, out, text);
      ghost var before := done;
      done := before + Shown(text);
      if end == |data| {
        break;
      }
      out := Put(result, out, '&');
      done := done + "&";
      Assoc4(before, Shown(text), Redacted(data[end + 1..]));
      param := end + 1;
      left := left - 1;
    }
    Terminate(result, out);
  }

  /** What is left from a parameter on. */
  lemma ParamStep(data: string, param: nat)
    requires param <= |data|
    ensures var end := ChrOrEnd(data, '&', param);
            && (end == |data| ==> Redacted(data[param..]) == Shown(data[param..end]) && |Params(data[param..])| == 1)
            && (end < |data| ==>
                  && Redacted(data[param..]) == Shown(data[param..end]) + "&" + Redacted(data[end + 1..])
                  && |Params(data[param..])| == 1 + |Params(data[end + 1..])|)
  {
    hide Redacted, Params, Shown, ChrOrEnd;
    var rest, end := data[param..], ChrOrEnd(data, '&', param);
    RedactedStep(rest);
    ShiftChr(data, '&', param, 0);
    assert data[param..end] == rest[..end - param];
    if end < |data| { assert rest[end - param + 1..] == data[end + 1..]; }
  }

  lemma Assoc4(a: string, b: string, c: string)
    ensures a + (b + "&" + c) == a + b + "&" + c
  {
  }

  /** One parameter: kept up to the '=', then masked - or kept as a whole. */
  method CopyShown(result: array<char>, out: nat, text: string) returns (out': nat)
    requires out + |text| + 3 <= result.Length
    modifies result
    ensures out' <= out + |text| + 3 && out' <= result.Length && result[..out'] == old(result[..out]) + Shown(text)
  {
    var eq := ChrOrEnd(text, '=', 0);
    var redact := eq < |text| && IsSensitive(text[..eq]);
    var keep := if redact then eq + 1 else |text|;
    assert text[0..keep] == text[..keep];
    out' := Copy(result, out, text, 0, keep);
    if redact {
      out' := Copy(result, out', LogRedaction.MASK, 0, 3);
    }
  }

  lemma RedactedStep(s: string)
    ensures var e := ChrOrEnd(s, '&', 0);
            && (e == |s| ==> s[..e] == s && Redacted(s) == Shown(s) && |Params(s)| == 1)
            && (e < |s| ==> Redacted(s) == Shown(s[..e]) + "&" + Redacted(s[e + 1..]))
            && (e < |s| ==> |Params(s)| == 1 + |Params(s[e + 1..])|)
  {
    hide Shown;
    var e := ChrOrEnd(s, '&', 0);
    if e < |s| {
      var rest := Params(s[e + 1..]);
      assert Params(s) == [s[..e]] + rest;
      assert ShownAll(Params(s)) == [Shown(s[..e])] + ShownAll(rest);
      assert ([Shown(s[..e])] + ShownAll(rest))[1..] == ShownAll(rest);
    }
  }

  lemma {:induction false} ParamsAreFew(s: string)
    ensures |Params(s)| <= |s| + 1
    decreases |s|
  {
    var e := ChrOrEnd(s, '&', 0);
    if e < |s| { ParamsAreFew(s[e + 1..]); }
  }

  /** `masking` is the switch that turns masking off. */
  method RedactBodyForLog(data: string, masking: bool) returns (result: string)
    requires '\0' !in data
    ensures result == if masking then Redacted(data) else data
  {
    hide Redacted;
    if !masking {
      return data;
    }
    var buffer := RedactBody(data);
    NoNulAppears(data);
    result := ToString(buffer, Redacted(data));
  }

  lemma {:induction false} NoNulAppears(s: string)
    requires '\0' !in s
    ensures '\0' !in Redacted(s)
    decreases |s|
  {
    hide Redacted, Params, Split;
    RedactedStep(s);
    var e := ChrOrEnd(s, '&', 0);
    if e < |s| { NoNulAppears(s[e + 1..]); }
  }

  // ---- what it achieves ----

  /** A parameter called name: what is shown of it. */
  lemma ShownOf(name: string, value: string)
    requires '=' !in name
    ensures Shown(name + "=" + value) == name + "=" + (if IsSensitive(name) then LogRedaction.MASK else value)
    ensures Name(name + "=" + value) == name
  {
    var p := name + "=" + value;
    assert p[|name|] == '=' && (forall i :: 0 <= i < |name| ==> p[i] == name[i]) && p[..|name|] == name;
    assert ChrOrEnd(p, '=', 0) == |name|;
    assert p[..|name| + 1] == name + "=";
  }

  /** What has no '=' is shown. */
  lemma NoValueIsShown(param: string)
    requires '=' !in param
    ensures Shown(param) == param
  {
  }

  /** The shown parameters are those of the body, in order: redaction neither splits nor joins any. */
  lemma ParamsAreShown(body: string)
    ensures Params(Redacted(body)) == ShownAll(Params(body))
  {
    hide Split, Join;
    JoinOfSplit(body, '&');
    SplitOfJoin(ShownAll(Params(body)), '&');
  }

  /** Two parameters look the same exactly if they are the same but for the value of a sensitive one. */
  ghost predicate SameButSecrets(p: string, q: string) {
    p == q || (HidesValue(p) && HidesValue(q) && Name(p) == Name(q))
  }

  lemma SameShown(p: string, q: string)
    ensures Shown(p) == Shown(q) <==> SameButSecrets(p, q)
  {
    hide IsSensitive;
    var i, j := ChrOrEnd(p, '=', 0), ChrOrEnd(q, '=', 0);
    var x, y := Shown(p), Shown(q);
    assert ChrOrEnd(x, '=', 0) == i && x[..i] == p[..i] by { NameIsShown(p); }
    assert ChrOrEnd(y, '=', 0) == j && y[..j] == q[..j] by { NameIsShown(q); }
    if SameButSecrets(p, q) && p != q {
      assert p[..i + 1] == p[..i] + "=" && q[..j + 1] == q[..j] + "=";
    }
  }

  lemma NameIsShown(p: string)
    ensures ChrOrEnd(Shown(p), '=', 0) == ChrOrEnd(p, '=', 0)
    ensures Name(Shown(p)) == Name(p)
  {
  }

  /**
   * The log shows no more and no less: two bodies are redacted alike exactly if they have the same
   * parameters in the same order, but for the values of sensitive ones.
   */
  lemma BodySecretsDoNotShow(s: string, t: string)
    ensures Redacted(s) == Redacted(t) <==>
            (|Params(s)| == |Params(t)| && forall i :: 0 <= i < |Params(s)| ==>
                SameButSecrets(Params(s)[i], Params(t)[i]))
  {
    hide Params, Split, Join, Shown, SameButSecrets;
    var p, q := Params(s), Params(t);
    ParamsAreShown(s);
    ParamsAreShown(t);
    if |p| == |q| {
      forall i | 0 <= i < |p| ensures ShownAll(p)[i] == ShownAll(q)[i] <==> SameButSecrets(p[i], q[i]) {
        SameShown(p[i], q[i]);
      }
      if forall i :: 0 <= i < |p| ==> SameButSecrets(p[i], q[i]) {
        assert ShownAll(p) == ShownAll(q);
      }
    }
  }
}
