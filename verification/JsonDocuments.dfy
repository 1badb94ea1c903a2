/**
 * What a JSON rendering of an item contains, and how it is laid out as text.
 *
 * `ObjectPairs` says which members the generator writes for an item, and `Render` lays such a document out.  The
 * stateful generator (module JsonGenerating) is proved to write exactly `Render` of `ObjectPairs`.
 */
module JsonDocuments {
  import opened CodeUnits
  import opened DataTree
  import opened ChildNames
  import opened JsonStrings
  import opened JsonParsing

  /**
   * A JSON value; `wide` objects put every member on a line of its own. The generator writes no arrays; in one to be read,
   * `gap` stands after the left bracket, and each element has its own blanks around it.
   */
  datatype Json =
    | Quoted(text: Text)
    | Bare(text: Text)
    | Nested(members: seq<Pair>, wide: bool)
    | Listed(gap: Text, elements: seq<Element>)

  datatype Pair = Pair(name: Text, val: Json)

  datatype Element = Element(before: Text, val: Json, after: Text)

  // ----- layout -----

  /** A line break and one step of indentation. */
  datatype Layout = Layout(lineBreak: Text, step: Text)

  const STANDARD: Layout := Layout([LF], [SPACE, SPACE, SPACE])

  function Indent(level: nat, layout: Layout): Text {
    if level == 0 then [] else Indent(level - 1, layout) + layout.step
  }

  function Line(level: nat, layout: Layout): Text {
    layout.lineBreak + Indent(level, layout)
  }

  /** What stands before a member: a comma unless it is the first of its object, then white space. */
  function Lead(level: nat, wide: bool, first: bool, layout: Layout): Text {
    (if first then [] else [COMMA]) + (if wide then Line(level, layout) else if first then [] else [SPACE])
  }

  /** `"name":value`, the value already rendered. */
  function PairText(name: Text, value: Text): Text {
    QuotedText(name) + ([COLON] + value)
  }

  function Enclosed(members: Text, close: Text): Text {
    [LBRACE] + (members + (close + [RBRACE]))
  }

  function Render(v: Json, level: nat, layout: Layout): Text
    decreases v, 1
  {
    match v
    case Quoted(text) => QuotedText(text)
    case Bare(text) => text
    case Nested(members, wide) =>
      Enclosed(MembersText(members, level + 1, wide, true, layout), if wide then Line(level, layout) else [])
    case Listed(gap, elements) => [LBRACKET] + (gap + ElementsText(elements, level, layout))
  }

  /** The elements of an array, with the commas between them and the bracket that closes it. */
  function ElementsText(es: seq<Element>, level: nat, layout: Layout): Text
    decreases es, 0
  {
    if es == [] then [RBRACKET]
    else ElementText(es[0], level, layout) + ((if |es| == 1 then [] else [COMMA]) + ElementsText(es[1..], level, layout))
  }

  function ElementText(e: Element, level: nat, layout: Layout): Text
    decreases e, 2
  {
    e.before + (Render(e.val, level, layout) + e.after)
  }

  /** A member with what stands before it. */
  function LedMember(p: Pair, level: nat, wide: bool, first: bool, layout: Layout): Text
    decreases p, 2
  {
    Lead(level, wide, first, layout) + PairText(p.name, Render(p.val, level, layout))
  }

  /** The members of an object that sits at `level - 1`; `first` says whether the first of them opens the object. */
  function MembersText(ms: seq<Pair>, level: nat, wide: bool, first: bool, layout: Layout): Text
    decreases ms, 0
  {
    if ms == [] then []
    else LedMember(ms[0], level, wide, first, layout) + MembersText(ms[1..], level, wide, false, layout)
  }

  lemma Associate(a: Text, b: Text, c: Text)
    ensures a + b + c == a + (b + c)
  {
  }

  lemma {:induction false} MembersTextAppend(a: seq<Pair>, b: seq<Pair>, level: nat, wide: bool, first: bool, layout: Layout)
    ensures MembersText(a + b, level, wide, first, layout)
         == MembersText(a, level, wide, first, layout) + MembersText(b, level, wide, first && a == [], layout)
  {
    hide LedMember;
    if a == [] {
      var none: Text := [];
      assert a + b == b && none + MembersText(b, level, wide, first, layout) == MembersText(b, level, wide, first, layout);
    } else {
      assert (a + b)[0] == a[0] && (a + b)[1..] == a[1..] + b;
      MembersTextAppend(a[1..], b, level, wide, false, layout);
      Associate(LedMember(a[0], level, wide, first, layout), MembersText(a[1..], level, wide, false, layout),
                MembersText(b, level, wide, false, layout));
    }
  }

  lemma {:induction false} MembersTextSnoc(ms: seq<Pair>, p: Pair, level: nat, wide: bool, layout: Layout)
    ensures MembersText(ms + [p], level, wide, true, layout)
         == MembersText(ms, level, wide, true, layout) + LedMember(p, level, wide, ms == [], layout)
  {
    MembersTextAppend(ms, [p], level, wide, true, layout);
    assert [p][1..] == [];
    assert MembersText([p], level, wide, ms == [], layout) == LedMember(p, level, wide, ms == [], layout);
  }

  // ----- content -----

  const ERROR: Text := Ascii("$error")
  const NEXT: Text := Ascii("$next")
  const TRUNCATED: Text := Ascii("$truncated")
  const TYPE: Text := Ascii("$type")
  const EFFECTIVE_TYPE: Text := Ascii("$effectiveType")
  const TRUE: Text := Ascii("true")

  /** The error number for data that may not be read (Errors.NOT_READABLE). */
  const NOT_READABLE: Text := Ascii("41")

  /** An item with its metadata and children as the context lets them through, and what the generator asks of it. */
  datatype Item = Item(name: Text, base: Base, value: Option<Text>, meta: seq<Item>, children: seq<Item>, facts: Facts)

  datatype Facts = Facts(container: bool, readable: bool, untyped: bool, definition: bool, unspecified: bool,
                         truncated: bool, partial: bool, next: Option<Text>, localType: Text, effectiveType: Text)

  /** The query context: which kinds of information to include, how deep to go, and the locale to announce. */
  datatype Context = Context(includeBase: bool, includeValue: bool, includeType: bool, depth: int, locale: Text)

  predicate IsUnquoted(base: Base) {
    base == Unsigned || base == Integer || base == Real || base == Double || base == Boolean
  }

  predicate IsTimelike(base: Base) {
    base == Date || base == DateTime || base == Time
  }

  /** Extended metadata: a "$" name longer than three, not starting "$$", with a dash or a dot. */
  predicate IsExtendedMetadata(name: Text) {
    |name| > 3 && name[0] == DOLLAR && name[1] != DOLLAR && (MINUS in name || DOT in name)
  }

  function If(condition: bool, name: Text, val: Json): (ps: seq<Pair>) {
    if condition then [Pair(name, val)] else []
  }

  function TopPairs(d: Item, depth: int, cx: Context): seq<Pair> {
    if depth != 1 then []
    else If(!StartsWith(d.name, [DOT, DOT]), NAME, Quoted(d.name)) + If(true, DEFAULT_LOCALE, Quoted(cx.locale))
  }

  function BasePairs(d: Item, cx: Context): seq<Pair> {
    If(cx.includeBase || d.facts.untyped, BASE, Quoted(BaseToString(d.base)))
  }

  function ExtentPairs(d: Item, depth: int, cx: Context): seq<Pair> {
    if !d.facts.container then []
    else If(d.facts.truncated || depth > cx.depth, TRUNCATED, Quoted(TRUE))
         + If(d.facts.partial, PARTIAL, Quoted(TRUE))
         + (match d.facts.next
            case Some(next) => [Pair(NEXT, Quoted(next))]
            case None => [])
  }

  predicate HasItem(items: seq<Item>, name: Text) {
    exists i :: 0 <= i < |items| && items[i].name == name
  }

  function ValuePairs(d: Item, cx: Context): seq<Pair> {
    if !cx.includeValue || d.value.None? then []
    else if !d.facts.readable then [Pair(ERROR, Bare(NOT_READABLE))]
    else if HasItem(d.meta, ERROR) then []
    else if IsUnquoted(d.base) then [Pair(VALUE, Bare(d.value.value))]
    else If(!IsTimelike(d.base) || !d.facts.unspecified, VALUE, Quoted(d.value.value))
  }

  function TypePairs(d: Item, depth: int, cx: Context): seq<Pair> {
    if !cx.includeType && !d.facts.untyped && !d.facts.definition then []
    else
      var local, effective := d.facts.localType, d.facts.effectiveType;
      If(local != [] && (depth == 1 || d.facts.untyped), TYPE, Quoted(local))
      + If(depth == 1 && effective != [] && effective != local, EFFECTIVE_TYPE, Quoted(effective))
  }

  function HeadPairs(d: Item, depth: int, cx: Context): seq<Pair> {
    TopPairs(d, depth, cx) + BasePairs(d, cx) + ExtentPairs(d, depth, cx) + ValuePairs(d, cx) + TypePairs(d, depth, cx)
  }

  /** The primitive form of an item: its value, or an inline object in its place. */
  function SubValue(d: Item): Json {
    if !d.facts.readable then Nested([Pair(ERROR, Bare(NOT_READABLE))], false)
    else if d.value.None? then Nested([], false)
    else if IsUnquoted(d.base) then Bare(d.value.value)
    else Quoted(d.value.value)
  }

  predicate MetaAsPrimitive(m: Item) {
    m.meta == [] && !m.facts.container && !IsExtendedMetadata(m.name)
  }

  predicate ChildAsPrimitive(c: Item, cx: Context) {
    c.meta == [] && !c.facts.container && !cx.includeBase && !c.facts.untyped
  }

  function MetaPairs(meta: seq<Item>, depth: int, cx: Context): seq<Pair>
    decreases meta, 0
  {
    if meta == [] then [] else MetaMember(meta[0], depth, cx) + MetaPairs(meta[1..], depth, cx)
  }

  /** The member for one piece of metadata; `$type` has been dealt with before. */
  function MetaMember(m: Item, depth: int, cx: Context): seq<Pair>
    decreases m, 2
  {
    if m.name == TYPE then []
    else [Pair(m.name, if MetaAsPrimitive(m) then SubValue(m) else Nested(ObjectPairs(m, depth + 1, true, cx), true))]
  }

  function ChildPairs(children: seq<Item>, depth: int, cx: Context): seq<Pair>
    decreases children, 0
  {
    if children == [] then [] else [ChildMember(children[0], depth, cx)] + ChildPairs(children[1..], depth, cx)
  }

  function ChildMember(c: Item, depth: int, cx: Context): Pair
    decreases c, 2
  {
    Pair(c.name, if ChildAsPrimitive(c, cx) then SubValue(c) else Nested(ObjectPairs(c, depth + 1, false, cx), true))
  }

  /** The members written for an item that is `depth` levels deep (the top is at 1). */
  function ObjectPairs(d: Item, depth: int, doingMetadata: bool, cx: Context): seq<Pair>
    decreases d, 1
  {
    HeadPairs(d, depth, cx) + MetaPairs(d.meta, depth, cx)
    + (if depth <= cx.depth || doingMetadata then ChildPairs(d.children, depth, cx) else [])
  }

  lemma {:induction false} MetaPairsSnoc(meta: seq<Item>, m: Item, depth: int, cx: Context)
    ensures MetaPairs(meta + [m], depth, cx) == MetaPairs(meta, depth, cx) + MetaMember(m, depth, cx)
  {
    if meta == [] {
      assert ([] + [m])[1..] == [];
    } else {
      assert (meta + [m])[0] == meta[0] && (meta + [m])[1..] == meta[1..] + [m];
      MetaPairsSnoc(meta[1..], m, depth, cx);
    }
  }

  lemma {:induction false} ChildPairsSnoc(children: seq<Item>, c: Item, depth: int, cx: Context)
    ensures ChildPairs(children + [c], depth, cx) == ChildPairs(children, depth, cx) + [ChildMember(c, depth, cx)]
  {
    if children == [] {
      assert ([] + [c])[1..] == [];
    } else {
      assert (children + [c])[0] == children[0] && (children + [c])[1..] == children[1..] + [c];
      ChildPairsSnoc(children[1..], c, depth, cx);
    }
  }

  /** The whole text for an item. */
  function GeneratedText(d: Item, cx: Context, layout: Layout): Text {
    Render(Nested(ObjectPairs(d, 1, false, cx), true), 0, layout)
  }

  // ----- the standard layout, spelled out -----

  function Spaces(n: nat): Text {
    seq(n, i => SPACE)
  }

  /** Each member on a line of its own: its name, a colon and its value. */
  function MemberLines(ms: seq<Pair>, level: nat): seq<Text> {
    seq(|ms|, i requires 0 <= i < |ms| =>
      [LF] + Spaces(3 * level) + [QUOTE] + Escape(ms[i].name) + [QUOTE, COLON] + Render(ms[i].val, level, STANDARD))
  }

  function Commas(parts: seq<Text>): Text {
    if parts == [] then [] else if |parts| == 1 then parts[0] else parts[0] + [COMMA] + Commas(parts[1..])
  }

  lemma {:induction false} IndentIsSpaces(level: nat)
    ensures Indent(level, STANDARD) == Spaces(3 * level)
  {
    if level > 0 {
      IndentIsSpaces(level - 1);
      assert Spaces(3 * level) == Spaces(3 * (level - 1)) + [SPACE, SPACE, SPACE];
    }
  }

  lemma {:induction false} MembersAreLines(ms: seq<Pair>, level: nat, first: bool)
    ensures MembersText(ms, level, true, first, STANDARD)
         == (if first || ms == [] then [] else [COMMA]) + Commas(MemberLines(ms, level))
    decreases |ms|
  {
    hide Render, Escape;
    if ms != [] {
      var lines, rest := MemberLines(ms, level), MemberLines(ms[1..], level);
      MembersAreLines(ms[1..], level, false);
      assert lines[1..] == rest;
      LedIsLine(ms, level, first);
      Associate(if first then [] else [COMMA], lines[0], MembersText(ms[1..], level, true, false, STANDARD));
      if |ms| == 1 {
        assert lines[0] + [] == lines[0];
      } else {
        Associate(lines[0], [COMMA], Commas(rest));
      }
    }
  }

  lemma {:induction false} LedIsLine(ms: seq<Pair>, level: nat, first: bool)
    requires ms != []
    ensures LedMember(ms[0], level, true, first, STANDARD)
         == (if first then [] else [COMMA]) + MemberLines(ms, level)[0]
  {
    hide Render, Escape;
    IndentIsSpaces(level);
    var name, val := Escape(ms[0].name), Render(ms[0].val, level, STANDARD);
    var comma: Text := if first then [] else [COMMA];
    assert comma + ([LF] + Spaces(3 * level)) + ([QUOTE] + name + [QUOTE] + ([COLON] + val))
        == comma + ([LF] + Spaces(3 * level) + [QUOTE] + name + [QUOTE, COLON] + val);
  }

  function LaidOut(ms: seq<Pair>, level: nat): Text {
    [LBRACE] + Commas(MemberLines(ms, level + 1)) + [LF] + Spaces(3 * level) + [RBRACE]
  }

  /**
   * What the generator writes for an object: braces around its members, with commas between them, each on a line of its
   * own indented by three spaces for every level, and the right brace on a line of its own.
   */
  lemma {:induction false} ObjectIsLaidOut(ms: seq<Pair>, level: nat)
    ensures Render(Nested(ms, true), level, STANDARD)
         == LaidOut(ms, level)
  {
    hide MembersText, MemberLines, Commas;
    MembersAreLines(ms, level + 1, true);
    IndentIsSpaces(level);
    var members := Commas(MemberLines(ms, level + 1));
    assert [] + members == members;
    assert [LBRACE] + (members + ([LF] + Spaces(3 * level) + [RBRACE]))
        == [LBRACE] + members + [LF] + Spaces(3 * level) + [RBRACE];
  }

  /**
   * Which form a part of an item is written in. A child is an object laid out as above as soon as it has metadata or may
   * have children, or its base has to be given; so is metadata, or if its name is an extended one.
   */
  lemma {:induction false} FormsOfParts(c: Item, depth: int, cx: Context, level: nat)
    ensures var p := ChildMember(c, depth, cx);
            && p.name == c.name
            && Render(p.val, level, STANDARD)
            == if c.meta == [] && !c.facts.container && !cx.includeBase && !c.facts.untyped then Render(SubValue(c), level, STANDARD)
               else LaidOut(ObjectPairs(c, depth + 1, false, cx), level)
    ensures var extended := |c.name| > 3 && c.name[0] == DOLLAR && c.name[1] != DOLLAR && (MINUS in c.name || DOT in c.name);
            var ps := MetaMember(c, depth, cx);
            if c.name == Ascii("$type") then ps == []
            else
              && |ps| == 1 && ps[0].name == c.name
              && Render(ps[0].val, level, STANDARD)
              == if c.meta == [] && !c.facts.container && !extended then Render(SubValue(c), level, STANDARD)
                 else LaidOut(ObjectPairs(c, depth + 1, true, cx), level)
  {
    hide Render, ObjectPairs, SubValue, MemberLines, Commas;
    ObjectIsLaidOut(ObjectPairs(c, depth + 1, false, cx), level);
    ObjectIsLaidOut(ObjectPairs(c, depth + 1, true, cx), level);
  }
}
