/** Form parameters whose decoded name is sensitive: masked exactly if the name is not encoded. */
module FormSecrets {
  import opened CStrings
  import opened FormRedaction
  import LogRedaction
  import opened Splitting
  import UrlCodec

  lemma {:induction false} DecodeFront(s: string, rest: string)
    requires '%' !in s && '+' !in s
    ensures UrlCodec.Decode(s + rest) == s + UrlCodec.Decode(rest)
  {
    if s == "" {
      assert s + rest == rest;
    } else {
      DecodeFront(s[1..], rest);
      assert (s + rest)[1..] == s[1..] + rest && (s + rest)[0] == s[0];
    }
  }

  lemma {:induction false} SpaceInName(s: string)
    requires '%' !in s && '+' in s
    ensures ' ' in UrlCodec.Decode(s)
  {
    assert s == [s[0]] + s[1..];
    if s[0] != '+' { SpaceInName(s[1..]); }
  }

  lemma SensitiveAlphabet(name: string, c: char)
    requires IsSensitive(name) && !UrlCodec.IsUnreserved(c)
    ensures c !in name
  {
  }

  /** The value of a parameter whose decoded name is sensitive is masked if and only if the name is not encoded. */
  lemma SecretParamIff(name: string, value: string)
    requires '=' !in name && IsSensitive(UrlCodec.Decode(name))
    ensures Shown(name + "=" + value) == name + "=" + (if '%' !in name then LogRedaction.MASK else value)
  {
    hide Shown, IsSensitive;
    ShownOf(name, value);
    SensitiveAlphabet(UrlCodec.Decode(name), ' ');
    if IsSensitive(name) { SensitiveAlphabet(name, '%'); }
    if '%' !in name {
      if '+' in name { SpaceInName(name); }
      DecodeFront(name, "");
      assert name + "" == name && UrlCodec.Decode("") == "";
    }
  }

  const ENCODED_UNDERSCORE := "%5f"

  /** A body with an encoded name, which is that of a token: the value shows. */
  lemma EncodedNameShowsTheValue(value: string)
    requires '&' !in value
    ensures var name := "access" + ENCODED_UNDERSCORE + "token";
            IsSensitive(UrlCodec.Decode(name)) && Redacted(name + "=" + value) == name + "=" + value
  {
    hide Shown, Redacted, IsSensitive;
    var name := "access" + ENCODED_UNDERSCORE + "token";
    EncodedName("access", "token");
    assert IsSensitive(UrlCodec.Decode(name)) by { TokenIsSensitive(); }
    SecretParamIff(name, value);
    OneParam(name + "=" + value);
  }

  lemma TokenIsSensitive()
    ensures IsSensitive("access" + ("_" + "token"))
  {
    assert SENSITIVE_PARAMS[5] == "access" + ("_" + "token");
  }

  lemma EncodedName(a: string, b: string)
    requires forall c :: c in a || c in b ==> UrlCodec.IsUnreserved(c)
    ensures var name := a + ENCODED_UNDERSCORE + b;
            && UrlCodec.Decode(name) == a + ("_" + b) && '%' in name && '=' !in name && '&' !in name
  {
    var tail := ENCODED_UNDERSCORE + b;
    assert a + ENCODED_UNDERSCORE + b == a + tail && tail[0] == '%' && tail[1] == '5' && tail[2] == 'f';
    assert tail[3..] == b && b + "" == b && (a + tail)[|a|] == '%';
    DecodeFront(a, tail);
    DecodeFront(b, "");
    assert UrlCodec.Decode(tail) == "_" + UrlCodec.Decode(b);
  }

  /** A body that is one parameter. */
  lemma OneParam(param: string)
    requires '&' !in param
    ensures Redacted(param) == Shown(param)
  {
    hide Shown;
    assert ChrOrEnd(param, '&', 0) == |param|;
  }
}
