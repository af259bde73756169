/**
 * JSON texts (RFC 8259, sections 2 to 7) as they are spelled: with white space wherever it may be and with
 * escapes in names and strings. A text is seen in two ways, as a value and as its strings with the gaps around.
 */
module JsonTexts {
  import opened CStrings
  import opened Options

  // ---- values ----

  datatype Json =
    | Literal(text: string)
    | Text(raw: string)
    | Array(space: string, items: Items)
    | Object(space: string, members: Members)

  datatype Items = NoItems | Item(before: string, value: Json, after: string, more: Items)

  /** `colon` is what stands between name and value: a colon with the white space around it. */
  datatype Members =
    | NoMembers
    | Member(before: string, name: string, colon: string, value: Json, after: string, more: Members)

  predicate IsSpace(c: char) { c == ' ' || c == '\t' || c == '\n' || c == '\r' }

  predicate AllSpace(s: string) { forall i :: 0 <= i < |s| ==> IsSpace(s[i]) }

  /** White space, a colon, white space. */
  predicate IsKeyGap(s: string) {
    s != "" && if IsSpace(s[0]) then IsKeyGap(s[1..]) else s[0] == ':' && AllSpace(s[1..])
  }

  /** The inside of a string as it is spelled: every quote in it is escaped. */
  predicate RawOk(raw: string) {
    raw == "" ||
    if raw[0] == '\\' then |raw| >= 2 && RawOk(raw[2..]) else raw[0] != QUOTE && RawOk(raw[1..])
  }

  /** What numbers, true, false and null are made of. */
  predicate IsLiteralChar(c: char) {
    'a' <= c <= 'z' || 'A' <= c <= 'Z' || '0' <= c <= '9' || c == '+' || c == '-' || c == '.'
  }

  ghost predicate JsonOk(j: Json) {
    match j
    case Literal(text) => text != "" && forall c :: c in text ==> IsLiteralChar(c)
    case Text(raw) => RawOk(raw)
    case Array(space, items) => AllSpace(space) && ItemsOk(items)
    case Object(space, members) => AllSpace(space) && MembersOk(members)
  }

  ghost predicate ItemsOk(items: Items) {
    items.Item? ==> AllSpace(items.before) && JsonOk(items.value) && AllSpace(items.after) && ItemsOk(items.more)
  }

  ghost predicate MembersOk(members: Members) {
    members.Member? ==>
      && AllSpace(members.before) && RawOk(members.name) && IsKeyGap(members.colon)
      && JsonOk(members.value) && AllSpace(members.after) && MembersOk(members.more)
  }

  /** The text of a value. */
  function Render(j: Json): string {
    match j
    case Literal(text) => text
    case Text(raw) => [QUOTE] + raw + [QUOTE]
    case Array(space, items) => "[" + space + RenderItems(items) + "]"
    case Object(space, members) => "{" + space + RenderMembers(members) + "}"
  }

  function RenderItems(items: Items): string {
    match items
    case NoItems => ""
    case Item(before, value, after, more) =>
      before + Render(value) + after + (if more.NoItems? then "" else "," + RenderItems(more))
  }

  function RenderMembers(members: Members): string {
    match members
    case NoMembers => ""
    case Member(before, name, colon, value, after, more) =>
      before + ([QUOTE] + name + [QUOTE]) + colon + Render(value) + after +
      (if more.NoMembers? then "" else "," + RenderMembers(more))
  }

  // ---- members whose value is a string ----

  datatype Field = Field(name: string, gap: string, value: string)

  /** All members with string values, wherever they are, in the order of the text. */
  function Fields(j: Json): seq<Field> {
    match j
    case Literal(_) => []
    case Text(_) => []
    case Array(_, items) => ItemFields(items)
    case Object(_, members) => MemberFields(members)
  }

  function ItemFields(items: Items): seq<Field> {
    if items.NoItems? then [] else Fields(items.value) + ItemFields(items.more)
  }

  function MemberFields(members: Members): seq<Field> {
    match members
    case NoMembers => []
    case Member(_, name, colon, value, _, more) =>
      (if value.Text? then [Field(name, colon, value.raw)] else Fields(value)) + MemberFields(more)
  }

  /** The value with each of these members' values x replaced by f(x). */
  function Exchange(j: Json, f: Field -> string): Json {
    match j
    case Literal(_) => j
    case Text(_) => j
    case Array(_, items) => j.(items := ExchangeItems(items, f))
    case Object(_, members) => j.(members := ExchangeMembers(members, f))
  }

  function ExchangeItems(items: Items, f: Field -> string): Items {
    if items.NoItems? then items
    else items.(value := Exchange(items.value, f), more := ExchangeItems(items.more, f))
  }

  function ExchangeMembers(members: Members, f: Field -> string): Members {
    match members
    case NoMembers => members
    case Member(_, name, colon, value, _, more) =>
      var value' := if value.Text? then Text(f(Field(name, colon, value.raw))) else Exchange(value, f);
      members.(value := value', more := ExchangeMembers(more, f))
  }

  // ---- strings and gaps ----

  /** A text with its strings cut out: the gap in front of the first string, the inside of it, and the rest. */
  datatype Doc = Last(gap: string) | Then(gap: string, raw: string, rest: Doc)

  function DocText(d: Doc): string {
    match d
    case Last(gap) => gap
    case Then(gap, raw, rest) => gap + ([QUOTE] + raw + [QUOTE]) + DocText(rest)
  }

  function Before(t: string, d: Doc): Doc { d.(gap := t + d.gap) }

  /** The text of j followed by that of k. */
  function Layout(j: Json, k: Doc): Doc
    decreases j, 0
  {
    match j
    case Literal(text) => Before(text, k)
    case Text(raw) => Then("", raw, k)
    case Array(space, items) => Before("[" + space, LayItems(items, Before("]", k)))
    case Object(space, members) => Before("{" + space, LayMembers(members, Before("}", k)))
  }

  function LayItems(items: Items, k: Doc): Doc
    decreases items, 0
  {
    match items
    case NoItems => k
    case Item(before, value, after, more) => Before(before, Layout(value, Before(after, MoreItems(more, k))))
  }

  function MoreItems(more: Items, k: Doc): Doc
    decreases more, 1
  {
    if more.NoItems? then k else Before(",", LayItems(more, k))
  }

  function LayMembers(members: Members, k: Doc): Doc
    decreases members, 0
  {
    match members
    case NoMembers => k
    case Member(before, name, colon, value, after, more) =>
      Then(before, name, Before(colon, Layout(value, Before(after, MoreMembers(more, k)))))
  }

  function MoreMembers(more: Members, k: Doc): Doc
    decreases more, 1
  {
    if more.NoMembers? then k else Before(",", LayMembers(more, k))
  }

  lemma BeforeText(t: string, d: Doc)
    ensures DocText(Before(t, d)) == t + DocText(d)
  {
    if d.Then? {
      assert (t + d.gap) + ([QUOTE] + d.raw + [QUOTE]) + DocText(d.rest) == t + DocText(d);
    }
  }

  lemma {:induction false} LayoutText(j: Json, k: Doc)
    ensures DocText(Layout(j, k)) == Render(j) + DocText(k)
    decreases j, 0
  {
    match j
    case Literal(text) => BeforeText(text, k);
    case Text(raw) =>
    case Array(space, items) =>
      BeforeText("]", k);
      LayItemsText(items, Before("]", k));
      BeforeText("[" + space, LayItems(items, Before("]", k)));
    case Object(space, members) =>
      BeforeText("}", k);
      LayMembersText(members, Before("}", k));
      BeforeText("{" + space, LayMembers(members, Before("}", k)));
  }

  lemma {:induction false} LayItemsText(items: Items, k: Doc)
    ensures DocText(LayItems(items, k)) == RenderItems(items) + DocText(k)
    decreases items, 0
  {
    hide DocText, Layout, Before, Render;
    match items
    case NoItems =>
      assert RenderItems(items) == "";
    case Item(before, value, after, more) =>
      var tail := MoreItems(more, k);
      var more' := if more.NoItems? then "" else "," + RenderItems(more);
      MoreItemsText(more, k);
      BeforeText(after, tail);
      LayoutText(value, Before(after, tail));
      BeforeText(before, Layout(value, Before(after, tail)));
      Regroup("", before, Render(value), after, more', DocText(k));
      EmptyFirst(before + (Render(value) + (after + (more' + DocText(k)))), before);
  }

  lemma EmptyFirst(a: string, b: string)
    ensures "" + a == a && "" + b == b
  {
  }

  lemma {:induction false} MoreItemsText(more: Items, k: Doc)
    ensures DocText(MoreItems(more, k)) == (if more.NoItems? then "" else "," + RenderItems(more)) + DocText(k)
    decreases more, 1
  {
    hide DocText, Before, RenderItems;
    if more.Item? {
      LayItemsText(more, k);
      BeforeText(",", LayItems(more, k));
      Assoc(",", RenderItems(more), DocText(k));
    } else {
      EmptyFirst(DocText(k), "");
    }
  }

  lemma Assoc(a: string, b: string, c: string)
    ensures a + (b + c) == (a + b) + c
  {
  }

  lemma {:induction false} LayMembersText(members: Members, k: Doc)
    ensures DocText(LayMembers(members, k)) == RenderMembers(members) + DocText(k)
    decreases members, 0
  {
    hide DocText, Layout, Before, Render;
    match members
    case NoMembers =>
      assert RenderMembers(members) == "";
    case Member(before, name, colon, value, after, more) =>
      var tail := MoreMembers(more, k);
      var more' := if more.NoMembers? then "" else "," + RenderMembers(more);
      MoreMembersText(more, k);
      BeforeText(after, tail);
      LayoutText(value, Before(after, tail));
      BeforeText(colon, Layout(value, Before(after, tail)));
      ThenText(before, name, Before(colon, Layout(value, Before(after, tail))));
      Regroup(before + ([QUOTE] + name + [QUOTE]), colon, Render(value), after, more', DocText(k));
  }

  lemma ThenText(gap: string, raw: string, rest: Doc)
    ensures DocText(Then(gap, raw, rest)) == (gap + ([QUOTE] + raw + [QUOTE])) + DocText(rest)
  {
  }

  lemma {:induction false} MoreMembersText(more: Members, k: Doc)
    ensures DocText(MoreMembers(more, k)) == (if more.NoMembers? then "" else "," + RenderMembers(more)) + DocText(k)
    decreases more, 1
  {
    hide DocText, Before, RenderMembers;
    if more.Member? {
      LayMembersText(more, k);
      BeforeText(",", LayMembers(more, k));
      Assoc(",", RenderMembers(more), DocText(k));
    } else {
      EmptyFirst(DocText(k), "");
    }
  }

  lemma Regroup(a: string, b: string, c: string, d: string, e: string, f: string)
    ensures a + (b + (c + (d + (e + f)))) == (a + b + c + d + e) + f
  {
  }

  // ---- gaps of JSON texts ----

  /** The first character that is no white space, or a space. */
  function FirstOf(s: string): char {
    if s == "" then ' ' else if IsSpace(s[0]) then FirstOf(s[1..]) else s[0]
  }

  lemma {:induction false} FirstOfBoth(s: string, t: string)
    ensures FirstOf(s + t) == if AllSpace(s) then FirstOf(t) else FirstOf(s)
  {
    if s == "" {
      assert s + t == t;
    } else {
      FirstOfBoth(s[1..], t);
      assert (s + t)[1..] == s[1..] + t;
      assert AllSpace(s) <==> IsSpace(s[0]) && AllSpace(s[1..]);
    }
  }

  lemma {:induction false} SpaceFirst(s: string)
    ensures AllSpace(s) <==> FirstOf(s) == ' '
  {
    if s != "" {
      SpaceFirst(s[1..]);
      assert AllSpace(s) <==> IsSpace(s[0]) && AllSpace(s[1..]);
    }
  }

  lemma {:induction false} KeyGapFirst(s: string)
    requires IsKeyGap(s)
    ensures FirstOf(s) == ':' && !AllSpace(s) && QUOTE !in s
  {
    if IsSpace(s[0]) { KeyGapFirst(s[1..]); }
    assert s == s[..1] + s[1..];
  }

  lemma {:induction false} KeyGapBoth(s: string, t: string)
    requires IsKeyGap(s)
    ensures IsKeyGap(s + t) <==> AllSpace(t)
  {
    assert (s + t)[1..] == s[1..] + t;
    if IsSpace(s[0]) {
      KeyGapBoth(s[1..], t);
    } else {
      assert forall i :: 0 <= i < |t| ==> (s[1..] + t)[|s[1..]| + i] == t[i];
    }
  }

  /** What a gap behind a string starts with, apart from white space. */
  predicate IsPunct(c: char) { c == ' ' || c == ',' || c == ':' || c == ']' || c == '}' }

  /** Strings are well spelled, gaps behind them start properly, and no colon follows a member's value. */
  ghost predicate Regular(d: Doc) {
    && QUOTE !in d.gap
    && (d.Then? ==>
          && RawOk(d.raw) && IsPunct(FirstOf(d.rest.gap)) && Regular(d.rest)
          && (IsKeyGap(d.gap) ==> FirstOf(d.rest.gap) != ':'))
  }

  /** What may follow a value. */
  ghost predicate Follows(d: Doc) {
    Regular(d) && IsPunct(FirstOf(d.gap)) && FirstOf(d.gap) != ':'
  }

  lemma BeforeRegular(t: string, d: Doc)
    requires Regular(d) && QUOTE !in t && (IsKeyGap(t + d.gap) && d.Then? ==> FirstOf(d.rest.gap) != ':')
    ensures Regular(Before(t, d))
  {
    hide FirstOf, IsKeyGap;
  }

  lemma SpaceQuoteFree(t: string)
    requires AllSpace(t)
    ensures QUOTE !in t
  {
  }

  /** White space keeps what may follow a value. */
  lemma SpaceFollows(t: string, d: Doc)
    requires AllSpace(t) && Follows(d)
    ensures Follows(Before(t, d))
  {
    hide IsKeyGap, FirstOf, AllSpace;
    SpaceQuoteFree(t);
    FirstOfBoth(t, d.gap);
    NoColonFirst(t + d.gap);
    BeforeRegular(t, d);
  }

  lemma EmptyGap()
    ensures FirstOf("") == ' ' && !IsKeyGap("") && AllSpace("")
  {
  }

  lemma NoColonFirst(s: string)
    requires FirstOf(s) != ':'
    ensures !IsKeyGap(s)
  {
    if IsKeyGap(s) { KeyGapFirst(s); }
  }

  /** A text that starts with something else than white space and a colon. */
  lemma PunctFirst(t: string, d: Doc)
    requires t != "" && !IsSpace(t[0]) && t[0] != ':' && QUOTE !in t && Regular(d)
    ensures Regular(Before(t, d)) && FirstOf(Before(t, d).gap) == t[0] && !AllSpace(Before(t, d).gap)
  {
    hide IsKeyGap;
    assert (t + d.gap)[0] == t[0];
    NoColonFirst(t + d.gap);
    BeforeRegular(t, d);
  }

  /** How the text of a value starts: with a string, or with something else that is no colon. */
  ghost predicate StartsAs(j: Json, d: Doc, k: Doc) {
    if j.Text? then d == Then("", j.raw, k) else !AllSpace(d.gap) && FirstOf(d.gap) != ':'
  }

  lemma StartsKeyless(j: Json, d: Doc, k: Doc)
    requires StartsAs(j, d, k)
    ensures FirstOf(d.gap) != ':' && !IsKeyGap(d.gap)
  {
    hide IsKeyGap;
    NoColonFirst(d.gap);
  }

  lemma {:induction false} LayoutRegular(j: Json, k: Doc)
    requires JsonOk(j) && Follows(k)
    ensures Regular(Layout(j, k)) && StartsAs(j, Layout(j, k), k)
    decreases j, 0
  {
    hide IsKeyGap, FirstOf, AllSpace;
    match j
    case Literal(text) =>
      assert text[0] in text;
      PunctFirst(text, k);
    case Text(raw) =>
      EmptyGap();
    case Array(space, items) =>
      PunctFirst("]", k);
      LayItemsRegular(items, Before("]", k));
      SpaceQuoteFree(space);
      PunctFirst("[" + space, LayItems(items, Before("]", k)));
    case Object(space, members) =>
      PunctFirst("}", k);
      LayMembersRegular(members, Before("}", k));
      SpaceQuoteFree(space);
      PunctFirst("{" + space, LayMembers(members, Before("}", k)));
  }

  lemma {:induction false} LayItemsRegular(items: Items, k: Doc)
    requires ItemsOk(items) && Follows(k)
    ensures Regular(LayItems(items, k)) && FirstOf(LayItems(items, k).gap) != ':'
    decreases items, 0
  {
    hide IsKeyGap, FirstOf, AllSpace;
    if items.Item? {
      MoreItemsFollows(items.more, k);
      var tail := Before(items.after, MoreItems(items.more, k));
      SpaceFollows(items.after, MoreItems(items.more, k));
      LayoutRegular(items.value, tail);
      var d := Layout(items.value, tail);
      StartsKeyless(items.value, d, tail);
      FirstOfBoth(items.before, d.gap);
      NoColonFirst(items.before + d.gap);
      SpaceQuoteFree(items.before);
      BeforeRegular(items.before, d);
    }
  }

  lemma {:induction false} MoreItemsFollows(more: Items, k: Doc)
    requires ItemsOk(more) && Follows(k)
    ensures Follows(MoreItems(more, k))
    decreases more, 1
  {
    hide IsKeyGap, FirstOf, AllSpace;
    if more.Item? {
      LayItemsRegular(more, k);
      PunctFirst(",", LayItems(more, k));
    }
  }

  lemma {:induction false} LayMembersRegular(members: Members, k: Doc)
    requires MembersOk(members) && Follows(k)
    ensures Regular(LayMembers(members, k)) && FirstOf(LayMembers(members, k).gap) != ':'
    decreases members, 0
  {
    hide IsKeyGap, FirstOf, AllSpace;
    if members.Member? {
      MoreMembersFollows(members.more, k);
      var tail := Before(members.after, MoreMembers(members.more, k));
      SpaceFollows(members.after, MoreMembers(members.more, k));
      LayoutRegular(members.value, tail);
      MemberRegular(members.before, members.name, members.colon, members.value, tail);
    }
  }

  lemma MemberRegular(before: string, name: string, colon: string, value: Json, k: Doc)
    requires AllSpace(before) && RawOk(name) && IsKeyGap(colon) && Follows(k)
    requires Regular(Layout(value, k)) && StartsAs(value, Layout(value, k), k)
    ensures Regular(Then(before, name, Before(colon, Layout(value, k)))) && FirstOf(before) != ':'
  {
    hide IsKeyGap, FirstOf, AllSpace, Layout;
    var d := Layout(value, k);
    SpaceFirst(before);
    SpaceQuoteFree(before);
    NoColonFirst(before);
    KeyGapFirst(colon);
    FirstOfBoth(colon, d.gap);
    KeyGapBoth(colon, d.gap);
    BeforeRegular(colon, d);
  }

  lemma {:induction false} MoreMembersFollows(more: Members, k: Doc)
    requires MembersOk(more) && Follows(k)
    ensures Follows(MoreMembers(more, k))
    decreases more, 1
  {
    hide IsKeyGap, FirstOf, AllSpace;
    if more.Member? {
      LayMembersRegular(more, k);
      PunctFirst(",", LayMembers(more, k));
    }
  }

  // ---- members and their exchange, on strings and gaps ----

  /** A string behind a name and a colon is that member's value. */
  predicate IsValue(name: Option<string>, gap: string) { name.Some? && IsKeyGap(gap) }

  /** The members of a text in front of which stands the string `name`, if any. */
  function DocFields(d: Doc, name: Option<string>): seq<Field> {
    match d
    case Last(_) => []
    case Then(gap, raw, rest) =>
      (if IsValue(name, gap) then [Field(name.value, gap, raw)] else []) + DocFields(rest, Some(raw))
  }

  function DocExchange(d: Doc, f: Field -> string, name: Option<string>): Doc {
    match d
    case Last(_) => d
    case Then(gap, raw, rest) =>
      Then(gap, if IsValue(name, gap) then f(Field(name.value, gap, raw)) else raw, DocExchange(rest, f, Some(raw)))
  }

  /** Nothing in front of a value or behind it makes it a member. */
  lemma Unnamed(t: string, d: Doc, f: Field -> string, name: Option<string>)
    requires !IsKeyGap(d.gap) && !IsKeyGap(t + d.gap)
    ensures DocExchange(Before(t, d), f, name) == Before(t, DocExchange(d, f, None))
    ensures DocFields(Before(t, d), name) == DocFields(d, None)
  {
    hide IsKeyGap;
  }

  lemma GapKept(d: Doc, f: Field -> string, name: Option<string>)
    ensures DocExchange(d, f, name).gap == d.gap
  {
  }

  /** What `Follows` says about the members of k. */
  lemma FollowsUnnamed(t: string, k: Doc, f: Field -> string, name: Option<string>)
    requires Follows(k) && FirstOf(t + k.gap) != ':'
    ensures DocExchange(Before(t, k), f, name) == Before(t, DocExchange(k, f, None))
    ensures DocFields(Before(t, k), name) == DocFields(k, None)
  {
    hide IsKeyGap, FirstOf;
    NoColonFirst(k.gap);
    NoColonFirst(t + k.gap);
    Unnamed(t, k, f, name);
  }

  /** A string that is a value is no name. */
  lemma BehindString(k: Doc, f: Field -> string, raw: string)
    requires Follows(k)
    ensures DocExchange(k, f, Some(raw)) == DocExchange(k, f, None)
    ensures DocFields(k, Some(raw)) == DocFields(k, None)
  {
    hide IsKeyGap, FirstOf;
    NoColonFirst(k.gap);
  }

  lemma {:induction false} LayoutExchange(j: Json, k: Doc, f: Field -> string)
    requires JsonOk(j) && Follows(k)
    ensures DocExchange(Layout(j, k), f, None) == Layout(Exchange(j, f), DocExchange(k, f, None))
    ensures DocFields(Layout(j, k), None) == Fields(j) + DocFields(k, None)
    decreases j, 0
  {
    hide IsKeyGap, FirstOf, AllSpace;
    LayoutRegular(j, k);
    match j
    case Literal(text) =>
      StartsKeyless(j, Layout(j, k), k);
      FollowsUnnamed(text, k, f, None);
    case Text(raw) =>
      EmptyGap();
      BehindString(k, f, raw);
    case Array(space, items) =>
      CloseUnnamed("]", k, f);
      LayItemsExchange(items, Before("]", k), f);
      LayItemsRegular(items, Before("]", k));
      OpenUnnamed("[" + space, LayItems(items, Before("]", k)), f);
    case Object(space, members) =>
      CloseUnnamed("}", k, f);
      LayMembersExchange(members, Before("}", k), f);
      LayMembersRegular(members, Before("}", k));
      OpenUnnamed("{" + space, LayMembers(members, Before("}", k)), f);
  }

  lemma CloseUnnamed(t: string, k: Doc, f: Field -> string)
    requires Follows(k) && (t == "," || t == "]" || t == "}")
    ensures Follows(Before(t, k)) && DocExchange(Before(t, k), f, None) == Before(t, DocExchange(k, f, None))
    ensures DocFields(Before(t, k), None) == DocFields(k, None)
  {
    hide IsKeyGap, FirstOf, AllSpace;
    PunctFirst(t, k);
    FollowsUnnamed(t, k, f, None);
  }

  lemma OpenUnnamed(t: string, d: Doc, f: Field -> string)
    requires Regular(d) && FirstOf(d.gap) != ':' && t != "" && !IsSpace(t[0]) && t[0] != ':'
    ensures DocExchange(Before(t, d), f, None) == Before(t, DocExchange(d, f, None))
    ensures DocFields(Before(t, d), None) == DocFields(d, None)
  {
    hide IsKeyGap;
    assert (t + d.gap)[0] == t[0];
    NoColonFirst(d.gap);
    NoColonFirst(t + d.gap);
    Unnamed(t, d, f, None);
  }

  lemma {:induction false} LayItemsExchange(items: Items, k: Doc, f: Field -> string)
    requires ItemsOk(items) && Follows(k)
    ensures DocExchange(LayItems(items, k), f, None) == LayItems(ExchangeItems(items, f), DocExchange(k, f, None))
    ensures DocFields(LayItems(items, k), None) == ItemFields(items) + DocFields(k, None)
    decreases items, 0
  {
    hide IsKeyGap, FirstOf, AllSpace, Regular, DocExchange, DocFields, Layout, Exchange, Fields, MoreItems;
    if items.NoItems? {
      assert DocFields(k, None) == [] + DocFields(k, None);
    } else {
      var tail := MoreItems(items.more, k);
      MoreItemsExchange(items.more, k, f);
      MoreItemsFollows(items.more, k);
      SpaceUnnamed(items.after, tail, f);
      LayoutExchange(items.value, Before(items.after, tail), f);
      LayoutRegular(items.value, Before(items.after, tail));
      ItemUnnamed(items.before, items.value, Before(items.after, tail), f);
    }
  }

  lemma ItemUnnamed(before: string, value: Json, k: Doc, f: Field -> string)
    requires AllSpace(before) && StartsAs(value, Layout(value, k), k)
    ensures var d := Layout(value, k);
            && DocExchange(Before(before, d), f, None) == Before(before, DocExchange(d, f, None))
            && DocFields(Before(before, d), None) == DocFields(d, None)
  {
    hide IsKeyGap, FirstOf, AllSpace, Layout;
    var d := Layout(value, k);
    StartsKeyless(value, d, k);
    FirstOfBoth(before, d.gap);
    SpaceFirst(before);
    NoColonFirst(before + d.gap);
    Unnamed(before, d, f, None);
  }

  lemma SpaceUnnamed(t: string, k: Doc, f: Field -> string)
    requires Follows(k) && AllSpace(t)
    ensures Follows(Before(t, k)) && DocExchange(Before(t, k), f, None) == Before(t, DocExchange(k, f, None))
    ensures DocFields(Before(t, k), None) == DocFields(k, None)
  {
    hide IsKeyGap, FirstOf, AllSpace;
    SpaceFollows(t, k);
    FollowsUnnamed(t, k, f, None);
  }

  lemma {:induction false} MoreItemsExchange(more: Items, k: Doc, f: Field -> string)
    requires ItemsOk(more) && Follows(k)
    ensures DocExchange(MoreItems(more, k), f, None) == MoreItems(ExchangeItems(more, f), DocExchange(k, f, None))
    ensures DocFields(MoreItems(more, k), None) == ItemFields(more) + DocFields(k, None)
    decreases more, 1
  {
    hide IsKeyGap, FirstOf, AllSpace;
    if more.Item? {
      LayItemsExchange(more, k, f);
      LayItemsRegular(more, k);
      OpenUnnamed(",", LayItems(more, k), f);
    }
  }

  lemma {:induction false} LayMembersExchange(members: Members, k: Doc, f: Field -> string)
    requires MembersOk(members) && Follows(k)
    ensures DocExchange(LayMembers(members, k), f, None) ==
            LayMembers(ExchangeMembers(members, f), DocExchange(k, f, None))
    ensures DocFields(LayMembers(members, k), None) == MemberFields(members) + DocFields(k, None)
    decreases members, 0
  {
    hide IsKeyGap, FirstOf, AllSpace, Regular, DocExchange, DocFields, Layout, Exchange, Fields, MoreMembers;
    if members.NoMembers? {
      assert DocFields(k, None) == [] + DocFields(k, None);
    } else {
      var tail := MoreMembers(members.more, k);
      MoreMembersExchange(members.more, k, f);
      MoreMembersFollows(members.more, k);
      SpaceUnnamed(members.after, tail, f);
      var rest := Before(members.after, tail);
      LayoutExchange(members.value, rest, f);
      LayoutRegular(members.value, rest);
      MemberExchange(members.before, members.name, members.colon, members.value, rest, f);
    }
  }

  /** A member with a string value is one on both sides; any other value follows its colon without a name. */
  lemma MemberExchange(before: string, name: string, colon: string, value: Json, k: Doc, f: Field -> string)
    requires AllSpace(before) && IsKeyGap(colon) && Follows(k) && StartsAs(value, Layout(value, k), k)
    requires DocExchange(Layout(value, k), f, None) == Layout(Exchange(value, f), DocExchange(k, f, None))
    requires DocFields(Layout(value, k), None) == Fields(value) + DocFields(k, None)
    ensures var d := Then(before, name, Before(colon, Layout(value, k)));
            var value' := if value.Text? then Text(f(Field(name, colon, value.raw))) else Exchange(value, f);
            && DocExchange(d, f, None) == Then(before, name, Before(colon, Layout(value', DocExchange(k, f, None))))
            && DocFields(d, None) ==
               (if value.Text? then [Field(name, colon, value.raw)] else Fields(value)) + DocFields(k, None)
  {
    hide IsKeyGap, FirstOf, AllSpace;
    var d := Layout(value, k);
    KeyGapBoth(colon, d.gap);
    if value.Text? {
      assert colon + "" == colon;
      EmptyGap();
      BehindString(k, f, value.raw);
    } else {
      StartsKeyless(value, d, k);
      Unnamed(colon, d, f, Some(name));
    }
  }

  lemma {:induction false} MoreMembersExchange(more: Members, k: Doc, f: Field -> string)
    requires MembersOk(more) && Follows(k)
    ensures DocExchange(MoreMembers(more, k), f, None) ==
            MoreMembers(ExchangeMembers(more, f), DocExchange(k, f, None))
    ensures DocFields(MoreMembers(more, k), None) == MemberFields(more) + DocFields(k, None)
    decreases more, 1
  {
    hide IsKeyGap, FirstOf, AllSpace;
    if more.Member? {
      LayMembersExchange(more, k, f);
      LayMembersRegular(more, k);
      OpenUnnamed(",", LayMembers(more, k), f);
    }
  }
}
