/** The Cookie request header: what a browser sends for its jar, and how one cookie is read back. */
module CookieHeader {
  import opened CStrings
  import opened Options
  import opened Splitting

  /** A browser's cookies for this site. */
  type Jar = map<string, string>

  datatype Pair = Pair(name: string, value: string)

  /** Names and values a browser can hold: no separator, no '=' in a name, no space in front of it. */
  predicate NameOk(name: string) {
    name != "" && name[0] != ' ' && '=' !in name && ';' !in name
  }

  ghost predicate JarOk(jar: Jar) {
    forall n :: n in jar ==> NameOk(n) && ';' !in jar[n]
  }

  /** The tokens apr_strtok yields from position `from` on. */
  function Tokens(s: string, from: nat): seq<string>
    requires from <= |s|
    decreases |s| - from
  {
    if from == |s| then []
    else if s[from] == ';' then Tokens(s, from + 1)
    else
      var e := ChrOrEnd(s, ';', from);
      [s[from..e]] + Tokens(s, e)
  }

  function TrimSpaces(s: string): string {
    if s != "" && s[0] == ' ' then TrimSpaces(s[1..]) else s
  }

  /** The token is the named cookie: name, '=', value. */
  predicate IsCookie(token: string, name: string) {
    name <= token && |token| > |name| && token[|name|] == '='
  }

  function Find(tokens: seq<string>, name: string): Option<string> {
    if tokens == [] then None
    else if IsCookie(TrimSpaces(tokens[0]), name) then Some(TrimSpaces(tokens[0])[|name| + 1..])
    else Find(tokens[1..], name)
  }

  /** The value of the first cookie with this name in the header. */
  function CookieValue(header: string, name: string): Option<string> {
    Find(Tokens(header, 0), name)
  }

  method NextToken(s: string, pos: nat) returns (token: Option<string>, pos': nat)
    requires pos <= |s|
    ensures pos <= pos' <= |s|
    ensures token == None ==> Tokens(s, pos) == []
    ensures token.Some? ==> pos < pos' && Tokens(s, pos) == [token.value] + Tokens(s, pos')
  {
    pos' := pos;
    while pos' < |s| && s[pos'] == ';'
      invariant pos <= pos' <= |s| && Tokens(s, pos') == Tokens(s, pos)
    {
      pos' := pos' + 1;
    }
    if pos' == |s| {
      return None, pos';
    }
    var e := ChrOrEnd(s, ';', pos');
    return Some(s[pos'..e]), e;
  }

  method SkipSpaces(s: string) returns (t: string)
    ensures t == TrimSpaces(s)
  {
    t := s;
    while t != "" && t[0] == ' '
      invariant TrimSpaces(t) == TrimSpaces(s)
      decreases |t|
    {
      t := t[1..];
    }
  }

  method GetCookie(header: string, name: string) returns (value: Option<string>)
    ensures value == CookieValue(header, name)
  {
    hide Tokens;
    var token, pos := NextToken(header, 0);
    while token.Some?
      invariant pos <= |header|
      invariant CookieValue(header, name) ==
                if token == None then None else Find([token.value] + Tokens(header, pos), name)
      decreases |header| - pos, token.Some?
    {
      var cookie := SkipSpaces(token.value);
      if IsCookie(cookie, name) {
        return Some(cookie[|name| + 1..]);
      }
      assert ([token.value] + Tokens(header, pos))[1..] == Tokens(header, pos);
      token, pos := NextToken(header, pos);
    }
    return None;
  }

  // ---- what the browser sends ----

  function Text(p: Pair): string { p.name + "=" + p.value }

  /** "a=1; b=2; ..." */
  function Render(pairs: seq<Pair>): string {
    if pairs == [] then ""
    else if |pairs| == 1 then Text(pairs[0])
    else Text(pairs[0]) + "; " + Render(pairs[1..])
  }

  ghost predicate PairOk(p: Pair) {
    NameOk(p.name) && ';' !in p.value
  }

  /** The pairs are the jar's cookies, each once, in whatever order the browser chose. */
  ghost predicate Lists(pairs: seq<Pair>, jar: Jar) {
    && (forall i :: 0 <= i < |pairs| ==> pairs[i].name in jar && jar[pairs[i].name] == pairs[i].value)
    && (forall n :: n in jar ==> exists i :: 0 <= i < |pairs| && pairs[i].name == n)
  }

  function Lookup(jar: Jar, name: string): Option<string> {
    if name in jar then Some(jar[name]) else None
  }

  function FindPair(pairs: seq<Pair>, name: string): Option<string> {
    if pairs == [] then None
    else if pairs[0].name == name then Some(pairs[0].value)
    else FindPair(pairs[1..], name)
  }

  lemma TokenThenRest(t: string, rest: string)
    requires t != "" && ';' !in t
    ensures Tokens(t + ";" + rest, 0) == [t] + Tokens(rest, 0)
    ensures Tokens(t, 0) == [t]
  {
    var s := t + ";" + rest;
    assert ChrOrEnd(s, ';', 0) == |t| by { FirstSeparator(s, |t|); }
    assert s[0..|t|] == t && s[|t|] == ';';
    ShiftTokens(s, rest, |t| + 1, 0);
    assert ChrOrEnd(t, ';', 0) == |t| by { FirstSeparator(t, |t|); }
    assert t[0..|t|] == t;
  }

  lemma FirstSeparator(s: string, e: nat)
    requires e <= |s| && (forall i :: 0 <= i < e ==> s[i] != ';') && (e < |s| ==> s[e] == ';')
    ensures ChrOrEnd(s, ';', 0) == e
  {
  }

  lemma SliceOfSlice(s: string, i: nat, from: nat, to: nat)
    requires i + to <= |s| && from <= to
    ensures s[i..][from..to] == s[i + from..i + to]
  {
  }

  lemma {:induction false} ShiftTokens(s: string, rest: string, i: nat, pos: nat)
    requires i <= |s| && rest == s[i..] && pos <= |rest|
    ensures Tokens(s, i + pos) == Tokens(rest, pos)
    decreases |rest| - pos
  {
    if pos < |rest| {
      if rest[pos] == ';' {
        ShiftTokens(s, rest, i, pos + 1);
      } else {
        ShiftChr(s, ';', i, pos);
        var e := ChrOrEnd(rest, ';', pos);
        SliceOfSlice(s, i, pos, e);
        ShiftTokens(s, rest, i, e);
      }
    }
  }

  lemma TokenMatches(p: Pair, name: string)
    requires PairOk(p) && NameOk(name)
    ensures TrimSpaces(Text(p)) == Text(p) == TrimSpaces(" " + Text(p))
    ensures IsCookie(Text(p), name) <==> p.name == name
    ensures Text(p)[|p.name| + 1..] == p.value
    ensures ';' !in Text(p) && ';' !in " " + Text(p)
  {
    var t := Text(p);
    assert t[0] == p.name[0];
    assert (" " + t)[1..] == t;
    assert forall i :: 0 <= i < |p.name| ==> t[i] == p.name[i];
    assert t[|p.name|] == '=';
    if IsCookie(t, name) {
      assert forall i :: 0 <= i < |name| ==> t[i] == name[i];
      assert |name| == |p.name|;
    }
  }

  lemma FindHead(p: Pair, lead: string, tokens: seq<string>, name: string)
    requires PairOk(p) && NameOk(name) && (lead == "" || lead == " ")
    ensures Find([lead + Text(p)] + tokens, name) == if p.name == name then Some(p.value) else Find(tokens, name)
    ensures lead + Text(p) != "" && ';' !in lead + Text(p)
  {
    TokenMatches(p, name);
    assert lead == "" ==> lead + Text(p) == Text(p);
    assert ([lead + Text(p)] + tokens)[1..] == tokens;
    assert '=' in lead + Text(p);
  }

  lemma {:induction false} FindInRendered(pairs: seq<Pair>, lead: string, name: string)
    requires (forall i :: 0 <= i < |pairs| ==> PairOk(pairs[i])) && NameOk(name)
    requires lead == "" || (lead == " " && pairs != [])
    ensures CookieValue(lead + Render(pairs), name) == FindPair(pairs, name)
    decreases |pairs|
  {
    hide Tokens, IsCookie, TrimSpaces, Text, PairOk, NameOk, Find;
    if pairs == [] {
      assert lead + Render(pairs) == "";
      NoTokens();
    } else {
      var t := lead + Text(pairs[0]);
      if |pairs| == 1 {
        FindHead(pairs[0], lead, [], name);
        TokenThenRest(t, "");
        NoTokens();
        assert [t] + [] == [t] && pairs[1..] == [];
      } else {
        var rest := " " + Render(pairs[1..]);
        assert lead + Render(pairs) == t + ";" + rest by {
          assert "; " == ";" + " ";
        }
        FindHead(pairs[0], lead, Tokens(rest, 0), name);
        TokenThenRest(t, rest);
        FindInRendered(pairs[1..], " ", name);
      }
    }
  }

  lemma NoTokens()
    ensures Tokens("", 0) == [] && forall name :: Find([], name) == None
  {
  }

  lemma {:induction false} FindListed(pairs: seq<Pair>, name: string, value: string)
    requires forall i :: 0 <= i < |pairs| && pairs[i].name == name ==> pairs[i].value == value
    ensures FindPair(pairs, name) == if exists i :: 0 <= i < |pairs| && pairs[i].name == name then Some(value) else None
    decreases |pairs|
  {
    if pairs != [] && pairs[0].name != name {
      FindListed(pairs[1..], name, value);
      if i :| 0 <= i < |pairs| && pairs[i].name == name {
        assert pairs[1..][i - 1].name == name;
      }
    }
  }

  /** Whatever order the browser sends its cookies in, reading one back gives exactly what the jar holds. */
  lemma CookieRoundTrip(jar: Jar, pairs: seq<Pair>, name: string)
    requires JarOk(jar) && Lists(pairs, jar) && NameOk(name)
    ensures CookieValue(Render(pairs), name) == Lookup(jar, name)
  {
    assert "" + Render(pairs) == Render(pairs);
    FindInRendered(pairs, "", name);
    FindListed(pairs, name, if name in jar then jar[name] else "");
  }

  // ---- any header ----

  lemma {:induction false} TrimmedFrom(token: string) returns (n: nat)
    ensures n <= |token| && (forall k :: 0 <= k < n ==> token[k] == ' ') && TrimSpaces(token) == token[n..]
    ensures TrimSpaces(token) == "" || TrimSpaces(token)[0] != ' '
    decreases |token|
  {
    n := 0;
    if token != "" && token[0] == ' ' {
      var m := TrimmedFrom(token[1..]);
      n := m + 1;
      assert token[n..] == token[1..][m..];
    }
  }

  lemma {:induction false} TrimmedTo(token: string, n: nat)
    requires n <= |token| && (forall k :: 0 <= k < n ==> token[k] == ' ') && (n < |token| ==> token[n] != ' ')
    ensures TrimSpaces(token) == token[n..]
    decreases n
  {
    if n > 0 {
      TrimmedTo(token[1..], n - 1);
      assert token[1..][n - 1..] == token[n..];
    }
  }


  function NonEmpty(parts: seq<string>): seq<string> {
    if parts == [] then [] else (if parts[0] == "" then [] else [parts[0]]) + NonEmpty(parts[1..])
  }

  /** The tokens are the parts between semicolons, without the empty ones. */
  lemma {:induction false} TokensAreParts(s: string)
    ensures Tokens(s, 0) == NonEmpty(Split(s, ';'))
    decreases |s|
  {
    hide ChrOrEnd;
    var e := ChrOrEnd(s, ';', 0);
    assert s[0..e] == s[..e];
    if e < |s| {
      TokensAreParts(s[e + 1..]);
      ShiftTokens(s, s[e + 1..], e + 1, 0);
      assert Split(s, ';')[1..] == Split(s[e + 1..], ';');
      assert Tokens(s, e) == Tokens(s, e + 1);
    } else {
      assert s[..e] == s && Split(s, ';') == [s] && [s][1..] == [];
    }
  }

  /** Behind leading spaces the part is "<name>=<value>". */
  ghost predicate IsNamed(part: string, name: string, value: string) {
    exists n: nat :: n < |part| && part[n] != ' ' && (forall k :: 0 <= k < n ==> part[k] == ' ')
      && part[n..] == name + "=" + value
  }

  lemma NamedIff(part: string, name: string, value: string)
    ensures IsNamed(part, name, value) <==>
            IsCookie(TrimSpaces(part), name) && TrimSpaces(part)[|name| + 1..] == value
  {
    hide TrimSpaces;
    var cookie := TrimSpaces(part);
    var m := TrimmedFrom(part);
    if n: nat :| n < |part| && part[n] != ' ' && (forall k :: 0 <= k < n ==> part[k] == ' ')
                 && part[n..] == name + "=" + value {
      TrimmedTo(part, n);
      assert cookie[|name|] == '=' && cookie[..|name|] == name;
    }
    if IsCookie(cookie, name) && cookie[|name| + 1..] == value {
      assert cookie == cookie[..|name|] + [cookie[|name|]] + cookie[|name| + 1..];
    }
  }

  /** Part k is the first one with this name. */
  ghost predicate IsFirst(parts: seq<string>, k: nat, name: string, value: string) {
    k < |parts| && IsNamed(parts[k], name, value) && forall j, v :: 0 <= j < k ==> !IsNamed(parts[j], name, v)
  }

  lemma {:induction false} FindIff(parts: seq<string>, name: string, value: string)
    ensures Find(NonEmpty(parts), name) == Some(value) <==> exists k: nat :: IsFirst(parts, k, name, value)
    decreases |parts|
  {
    hide IsNamed, TrimSpaces, IsCookie;
    if parts != [] {
      var tail := parts[1..];
      FindIff(tail, name, value);
      FindNext(parts, name);
      var found := Find(NonEmpty(parts), name);
      if v :| IsNamed(parts[0], name, v) {
        assert found == Some(v);
        forall k: nat | IsFirst(parts, k, name, value) ensures k == 0 {}
        if v == value { assert IsFirst(parts, 0, name, value); }
      } else {
        if k: nat :| IsFirst(tail, k, name, value) { assert IsFirst(parts, k + 1, name, value); }
        if k: nat :| IsFirst(parts, k, name, value) {
          assert k > 0 && tail[k - 1] == parts[k] && forall j :: 0 <= j < k - 1 ==> tail[j] == parts[j + 1];
          assert IsFirst(tail, k - 1, name, value);
        }
      }
    }
  }

  /** The first part decides if it has the name; otherwise the others do. */
  lemma FindNext(parts: seq<string>, name: string)
    requires parts != []
    ensures forall v :: IsNamed(parts[0], name, v) ==> Find(NonEmpty(parts), name) == Some(v)
    ensures (forall v :: !IsNamed(parts[0], name, v)) ==>
              Find(NonEmpty(parts), name) == Find(NonEmpty(parts[1..]), name)
  {
    hide TrimSpaces, IsNamed;
    forall v ensures IsNamed(parts[0], name, v) <==>
                     IsCookie(TrimSpaces(parts[0]), name) && TrimSpaces(parts[0])[|name| + 1..] == v {
      NamedIff(parts[0], name, v);
    }
    NothingHasNoName(name);
    var head, rest := if parts[0] == "" then [] else [parts[0]], NonEmpty(parts[1..]);
    if parts[0] != "" { assert ([parts[0]] + rest)[1..] == rest; } else { assert [] + rest == rest; }
    if IsCookie(TrimSpaces(parts[0]), name) {
      assert IsNamed(parts[0], name, TrimSpaces(parts[0])[|name| + 1..]);
    }
  }

  lemma NothingHasNoName(name: string)
    ensures !IsCookie(TrimSpaces(""), name)
  {
  }

  /**
   * For any header: a cookie is found exactly if some part between semicolons is, behind leading spaces, its
   * name, '=' and a value, and the value is that of the first such part.
   */
  lemma CookieFoundIff(header: string, name: string, value: string)
    ensures CookieValue(header, name) == Some(value) <==>
            exists k: nat :: IsFirst(Split(header, ';'), k, name, value)
  {
    TokensAreParts(header);
    FindIff(Split(header, ';'), name, value);
  }
}
