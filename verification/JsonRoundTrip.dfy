/**
 * Generating and parsing JSON undo each other.
 *
 * First on documents: parsing the text of a document, however it is laid out, builds the item that its members
 * describe (`ParseRendered`).  Then on items: the document the generator writes for an item describes that item
 * (`GenerateThenParse`), and in the default context nothing of the tree is lost (`SameTreeBack`).
 */
module JsonRoundTrip {
  import opened CodeUnits
  import opened DataTree
  import opened Decimals
  import opened ChildNames
  import opened Reader
  import opened JsonStrings
  import opened JsonParsing
  import opened JsonDocuments

  // ----- documents that can be read back -----

  /** JSON's own white space (section 2 of RFC 8259); the parser also skips form feeds, but only between values. */
  const BLANK: set<CodeUnit> := {SPACE, TAB, CR, LF}

  predicate AllBlank(t: Text) {
    forall i :: 0 <= i < |t| ==> t[i] in BLANK
  }

  predicate BlankLayout(layout: Layout) {
    AllBlank(layout.lineBreak) && AllBlank(layout.step)
  }

  predicate SafeText(t: Text) {
    !EndsWith(t, BACKSLASH)
  }

  /** A text that can stand unquoted: not empty, no delimiter in it, and not starting like another kind of value. */
  predicate SafeBare(t: Text) {
    && t != []
    && (forall i :: 0 <= i < |t| ==> t[i] != NUL && t[i] !in UNQUOTED_END)
    && t[0] != FF && t[0] != QUOTE && t[0] != LBRACE && t[0] != LBRACKET
  }

  predicate SafeJson(v: Json)
    decreases v, 1
  {
    match v
    case Quoted(text) => SafeText(text)
    case Bare(text) => SafeBare(text)
    case Nested(members, _) => SafeMembers(members)
    case Listed(gap, elements) => AllBlank(gap) && SafeElements(elements)
  }

  predicate SafeElements(es: seq<Element>)
    decreases es, 0
  {
    es != [] ==> AllBlank(es[0].before) && SafeJson(es[0].val) && AllBlank(es[0].after) && SafeElements(es[1..])
  }

  predicate IsPrimitive(v: Json) {
    v.Quoted? || v.Bare?
  }

  predicate SafeMembers(ms: seq<Pair>)
    decreases ms, 0
  {
    ms != [] ==> SafePair(ms[0]) && SafeMembers(ms[1..])
  }

  /**
   * Only ordinary members may hold an array, and only they and comments an object; the forms that are not modelled do not
   * occur.
   */
  predicate SafePair(p: Pair)
    decreases p, 2
  {
    && SafeText(p.name) && SafeJson(p.val)
    && (match RoleOf(p.name)
        case Plain => true
        case TheComment => !p.val.Listed?
        case Other => false
        case _ => IsPrimitive(p.val))
  }

  // ----- what a document describes, without any text -----

  function NodeOf(v: Json, name: Text): Outcome<Node>
    decreases v, 1
  {
    match v
    case Quoted(text) => Done(Node(name, Poly, Some(text), []))
    case Bare(text) => Done(Node(name, Poly, Some(text), []))
    case Nested(members, _) => Finished(Assemble(members, Fresh(name)))
    case Listed(_, elements) => Number(elements, Fresh(name), 1)
  }

  /** An array stands for an item whose children are its elements, called 1, 2, 3 and so on. */
  function Number(es: seq<Element>, info: Node, k: nat): Outcome<Node>
    decreases es, 0
  {
    if es == [] then Done(info)
    else
      match NodeOf(es[0].val, ToString(k))
      case Thrown(e) => Thrown(e)
      case Done(n) => Number(es[1..], info.(subs := AddLocal(info.subs, n)), k + 1)
  }

  function Finished(out: Outcome<Node>): Outcome<Node> {
    if out.Thrown? then out
    else
      match Finish(out.value)
      case Some(done) => Done(done)
      case None => Thrown(InconsistentBase)
  }

  function Assemble(ms: seq<Pair>, info: Node): Outcome<Node>
    decreases ms, 0
  {
    if ms == [] then Done(info)
    else
      match Apply(info, ms[0])
      case Thrown(e) => Thrown(e)
      case Done(more) => Assemble(ms[1..], more)
  }

  function TextOf(v: Json): Text {
    match v
    case Quoted(text) => text
    case Bare(text) => text
    case _ => []
  }

  function Apply(info: Node, p: Pair): Outcome<Node>
    decreases p, 2
  {
    match RoleOf(p.name)
    case TheValue => Done(info.(value := Some(TextOf(p.val))))
    case TheName => Done(info.(name := TextOf(p.val)))
    case TheBase => Done(info.(base := BaseFromString(TextOf(p.val))))
    case TheLocale => Done(info)
    case TheComment =>
      // a comment is read, and then forgotten
      if !p.val.Nested? then Done(info)
      else
        (match NodeOf(p.val, p.name)
         case Thrown(e) => Thrown(e)
         case Done(_) => Done(info))
    case Other => Thrown(NotModelled)
    case Plain =>
      match NodeOf(p.val, p.name)
      case Thrown(e) => Thrown(e)
      case Done(member) =>
        match AddMember(info, member)
        case Some(more) => Done(more)
        case None => Thrown(BadName)
  }

  function Returning(out: Outcome<Node>, rest: Text): Result<Node> {
    match out
    case Done(n) => Ok(n, rest)
    case Thrown(e) => Fail(e)
  }

  // ----- reading a rendered document -----

  predicate Solid(t: Text) {
    t != [] && t[0] !in WHITE && t[0] != NUL
  }

  lemma {:induction false} BlankBeforeSolid(gap: Text, t: Text)
    requires AllBlank(gap) && Solid(t)
    ensures SkipWhite(gap + t) == t && PeekedNonwhite(gap + t) == t
  {
    SkipWhiteRun(gap, t);
  }

  lemma {:induction false} SolidStays(t: Text)
    requires Solid(t)
    ensures SkipWhite(t) == t && PeekedNonwhite(t) == t && Expected(t) == t[1..]
  {
  }

  /** What may follow a value: a delimiter. */
  predicate Follows(rest: Text) {
    rest != [] && rest[0] in UNQUOTED_END
  }

  lemma BareReadsBack(text: Text, rest: Text)
    requires SafeBare(text) && Follows(rest)
    ensures Solid(text + rest)
    ensures Span(text + rest, UNQUOTED_END) == text && AfterSpan(text + rest, UNQUOTED_END) == rest
  {
    var t := text + rest;
    assert t[0] == text[0];
    assert t[0] !in UNQUOTED_END;
    assert SPACE in UNQUOTED_END && TAB in UNQUOTED_END && CR in UNQUOTED_END && LF in UNQUOTED_END;
    StopIsUnique(t, UNQUOTED_END, |text|);
    assert t[..|text|] == text && t[|text|..] == rest;
  }

  lemma {:induction false} PrimitiveReadsBack(v: Json, level: nat, layout: Layout, rest: Text)
    requires SafeJson(v) && IsPrimitive(v) && Follows(rest)
    ensures var t := Render(v, level, layout) + rest;
            && Solid(t) && t[0] != LBRACE && t[0] != LBRACKET
            && PrimitiveFrom(t) == Ok(TextOf(v), rest)
  {
    match v
    case Quoted(text) =>
      QuotedTextReadsBack(text, rest);
      SolidStays(QuotedText(text) + rest);
    case Bare(text) =>
      BareReadsBack(text, rest);
      SolidStays(text + rest);
  }

  lemma {:induction false} LineIsBlank(level: nat, layout: Layout)
    requires BlankLayout(layout)
    ensures AllBlank(Line(level, layout))
  {
    if level > 0 {
      LineIsBlank(level - 1, layout);
      assert Line(level, layout) == Line(level - 1, layout) + layout.step;
    }
  }

  /** The white space in front of a member, and the text from there to the end of the object and beyond. */
  function Gap(level: nat, wide: bool, first: bool, layout: Layout): Text {
    if wide then Line(level, layout) else if first then [] else [SPACE]
  }

  function Body(ms: seq<Pair>, level: nat, wide: bool, layout: Layout, tail: Text): Text
    requires ms != []
  {
    PairText(ms[0].name, Render(ms[0].val, level, layout)) + More(ms, level, wide, layout, tail)
  }

  function More(ms: seq<Pair>, level: nat, wide: bool, layout: Layout, tail: Text): Text
    requires ms != []
  {
    MembersText(ms[1..], level, wide, false, layout) + tail
  }

  lemma {:induction false} MembersTextIsBody(ms: seq<Pair>, level: nat, wide: bool, first: bool, layout: Layout, tail: Text)
    requires ms != [] && BlankLayout(layout)
    ensures AllBlank(Gap(level, wide, first, layout))
    ensures MembersText(ms, level, wide, first, layout) + tail
         == (if first then [] else [COMMA]) + (Gap(level, wide, first, layout) + Body(ms, level, wide, layout, tail))
  {
    LineIsBlank(level, layout);
    var comma: Text := if first then [] else [COMMA];
    var gap := Gap(level, wide, first, layout);
    var pair := PairText(ms[0].name, Render(ms[0].val, level, layout));
    Regroup(comma, gap, pair, MembersText(ms[1..], level, wide, false, layout), tail);
  }

  lemma Regroup(a: Text, b: Text, c: Text, d: Text, e: Text)
    ensures a + b + c + d + e == a + (b + (c + (d + e)))
  {
  }

  lemma {:induction false} NameReadsBack(gap: Text, name: Text, rest: Text)
    requires AllBlank(gap) && SafeText(name)
    ensures QuotedFrom(gap + (QuotedText(name) + ([COLON] + rest))) == Ok(name, [COLON] + rest)
    ensures Expects([COLON] + rest, COLON) && Expected([COLON] + rest) == rest
  {
    var t := QuotedText(name) + ([COLON] + rest);
    BlankBeforeSolid(gap, t);
    QuotedTextReadsBack(name, [COLON] + rest);
    SolidStays([COLON] + rest);
  }

  lemma {:induction false} ClosingFollows(close: Text, rest: Text)
    requires AllBlank(close)
    ensures var tail := close + ([RBRACE] + rest);
            && Follows(tail) && Front(SkipWhite(tail)) == RBRACE
            && SkipWhite(tail) == PeekedNonwhite(tail) == [RBRACE] + rest
  {
    BlankBeforeSolid(close, [RBRACE] + rest);
    assert UNQUOTED_END[0] == SPACE && UNQUOTED_END[1] == TAB && UNQUOTED_END[2] == CR && UNQUOTED_END[3] == LF
        && UNQUOTED_END[5] == RBRACE;
  }

  lemma {:induction false} ValueReadsBack(v: Json, name: Text, level: nat, layout: Layout, rest: Text, info: Node)
    requires SafePair(Pair(name, v)) && BlankLayout(layout) && Follows(rest)
    ensures ValueFrom(Render(v, level, layout) + rest, info, name) == Returning(Apply(info, Pair(name, v)), rest)
    decreases v, 3
  {
    match RoleOf(name)
    case Plain =>
      MemberReadsBack(v, name, level, layout, rest);
    case TheComment =>
      CommentReadsBack(v, name, level, layout, rest, info);
    case _ =>
      PrimitiveReadsBack(v, level, layout, rest);
  }

  lemma {:induction false} CommentReadsBack(v: Json, name: Text, level: nat, layout: Layout, rest: Text, info: Node)
    requires SafePair(Pair(name, v)) && RoleOf(name) == TheComment && BlankLayout(layout) && Follows(rest)
    ensures ValueFrom(Render(v, level, layout) + rest, info, name) == Returning(Apply(info, Pair(name, v)), rest)
    decreases v, 2
  {
    hide RoleOf;
    var t := Render(v, level, layout) + rest;
    if v.Nested? {
      SolidStays(t);
      ObjectReadsBack(v, name, level, layout, rest);
    } else {
      PrimitiveReadsBack(v, level, layout, rest);
      SolidStays(t);
    }
  }

  lemma {:induction false} MemberReadsBack(v: Json, name: Text, level: nat, layout: Layout, rest: Text)
    requires SafeJson(v) && BlankLayout(layout) && Follows(rest)
    ensures MemberFrom(Render(v, level, layout) + rest, name) == Returning(NodeOf(v, name), rest)
    decreases v, 2
  {
    var t := Render(v, level, layout) + rest;
    if v.Nested? {
      SolidStays(t);
      ObjectReadsBack(v, name, level, layout, rest);
    } else if v.Listed? {
      SolidStays(t);
      ArrayReadsBack(v, name, level, layout, rest);
    } else {
      PrimitiveReadsBack(v, level, layout, rest);
      SolidStays(t);
    }
  }

  /** What an object parses to, once its members have. */
  lemma {:induction false} ObjectCloses(t1: Text, name: Text, out: Outcome<Node>, rest: Text)
    requires Returning(out, [RBRACE] + rest)
          == if Front(SkipWhite(t1)) == RBRACE then Ok(Fresh(name), PeekedNonwhite(t1))
             else MembersFrom(PeekedNonwhite(t1), Fresh(name))
    ensures ObjectFrom([LBRACE] + t1, name) == Returning(Finished(out), rest)
  {
    SolidStays([LBRACE] + t1);
    assert ([LBRACE] + t1)[1..] == t1;
    SolidStays([RBRACE] + rest);
    assert ([RBRACE] + rest)[1..] == rest;
  }

  lemma {:induction false} RenderedObject(v: Json, level: nat, layout: Layout, rest: Text)
    requires v.Nested?
    ensures Render(v, level, layout) + rest
         == [LBRACE] + (MembersText(v.members, level + 1, v.wide, true, layout)
                        + ((if v.wide then Line(level, layout) else []) + ([RBRACE] + rest)))
  {
  }

  lemma {:induction false} ObjectReadsBack(v: Json, name: Text, level: nat, layout: Layout, rest: Text)
    requires v.Nested? && SafeJson(v) && BlankLayout(layout)
    ensures ObjectFrom(Render(v, level, layout) + rest, name) == Returning(NodeOf(v, name), rest)
    decreases v, 1
  {
    var close := if v.wide then Line(level, layout) else [];
    LineIsBlank(level, layout);
    RenderedObject(v, level, layout, rest);
    InsideReadsBack(v.members, name, level + 1, v.wide, layout, close, rest);
    ObjectCloses(MembersText(v.members, level + 1, v.wide, true, layout) + (close + ([RBRACE] + rest)), name,
                 Assemble(v.members, Fresh(name)), rest);
  }

  lemma {:induction false} InsideReadsBack(ms: seq<Pair>, name: Text, level: nat, wide: bool, layout: Layout, close: Text, rest: Text)
    requires SafeMembers(ms) && BlankLayout(layout) && AllBlank(close)
    ensures var t1 := MembersText(ms, level, wide, true, layout) + (close + ([RBRACE] + rest));
            Returning(Assemble(ms, Fresh(name)), [RBRACE] + rest)
            == if Front(SkipWhite(t1)) == RBRACE then Ok(Fresh(name), PeekedNonwhite(t1))
               else MembersFrom(PeekedNonwhite(t1), Fresh(name))
    decreases ms, 1
  {
    var tail := close + ([RBRACE] + rest);
    if ms == [] {
      ClosingFollows(close, rest);
      assert MembersText(ms, level, wide, true, layout) + tail == tail;
    } else {
      FirstMember(ms, level, wide, layout, tail);
      MembersReadBack([], ms, level, wide, layout, close, rest, Fresh(name));
    }
  }

  lemma {:induction false} FirstMember(ms: seq<Pair>, level: nat, wide: bool, layout: Layout, tail: Text)
    requires ms != [] && BlankLayout(layout)
    ensures var t1 := MembersText(ms, level, wide, true, layout) + tail;
            && Front(SkipWhite(t1)) == QUOTE
            && PeekedNonwhite(t1) == [] + Body(ms, level, wide, layout, tail)
  {
    var gap := Gap(level, wide, true, layout);
    var body := Body(ms, level, wide, layout, tail);
    MembersTextIsBody(ms, level, wide, true, layout, tail);
    var none: Text := [];
    assert none + (gap + body) == gap + body;
    BlankBeforeSolid(gap, body);
    assert none + body == body;
  }

  lemma {:induction false} NextMember(ms: seq<Pair>, level: nat, wide: bool, layout: Layout, tail: Text)
    requires ms != [] && BlankLayout(layout)
    ensures var more := MembersText(ms, level, wide, false, layout) + tail;
            && Follows(more) && SkipWhite(more) == PeekedNonwhite(more) == more && Front(more) == COMMA
            && Expected(more) == Gap(level, wide, false, layout) + Body(ms, level, wide, layout, tail)
            && AllBlank(Gap(level, wide, false, layout))
  {
    MembersTextIsBody(ms, level, wide, false, layout, tail);
    SolidStays(MembersText(ms, level, wide, false, layout) + tail);
    assert UNQUOTED_END[4] == COMMA;
  }

  /** How the member loop goes on once a name has been read. */
  lemma {:induction false} MembersStep(t: Text, name: Text, rest: Text, info: Node)
    requires QuotedFrom(t) == Ok(name, [COLON] + rest)
    ensures MembersFrom(t, info)
         == (match ValueFrom(rest, info, name)
             case Fail(e) => Fail(e)
             case Ok(more, t2) =>
               if Front(SkipWhite(t2)) != COMMA then Ok(more, PeekedNonwhite(t2))
               else if !Expects(PeekedNonwhite(t2), COMMA) then Fail(Unexpected)
               else MembersFrom(Expected(PeekedNonwhite(t2)), more))
  {
    SolidStays([COLON] + rest);
    assert ([COLON] + rest)[1..] == rest;
  }

  lemma {:induction false} BodyName(gap: Text, ms: seq<Pair>, level: nat, wide: bool, layout: Layout, tail: Text)
    requires AllBlank(gap) && ms != [] && SafeText(ms[0].name)
    ensures QuotedFrom(gap + Body(ms, level, wide, layout, tail))
         == Ok(ms[0].name, [COLON] + (Render(ms[0].val, level, layout) + More(ms, level, wide, layout, tail)))
  {
    var val, more := Render(ms[0].val, level, layout), More(ms, level, wide, layout, tail);
    NameReadsBack(gap, ms[0].name, val + more);
    assert QuotedText(ms[0].name) + ([COLON] + val) + more == QuotedText(ms[0].name) + ([COLON] + (val + more));
  }

  lemma {:induction false} MembersReadBack(gap: Text, ms: seq<Pair>, level: nat, wide: bool, layout: Layout, close: Text, rest: Text, info: Node)
    requires AllBlank(gap) && ms != [] && SafeMembers(ms) && BlankLayout(layout) && AllBlank(close)
    ensures var tail := close + ([RBRACE] + rest);
            MembersFrom(gap + Body(ms, level, wide, layout, tail), info) == Returning(Assemble(ms, info), [RBRACE] + rest)
    decreases ms, 0
  {
    var tail := close + ([RBRACE] + rest);
    var p, more := ms[0], More(ms, level, wide, layout, tail);
    BodyName(gap, ms, level, wide, layout, tail);
    MembersStep(gap + Body(ms, level, wide, layout, tail), p.name, Render(p.val, level, layout) + more, info);
    ClosingFollows(close, rest);
    if ms[1..] == [] {
      assert more == tail;
      ValueReadsBack(p.val, p.name, level, layout, more, info);
    } else {
      NextMember(ms[1..], level, wide, layout, tail);
      ValueReadsBack(p.val, p.name, level, layout, more, info);
      if Apply(info, p).Done? {
        MembersReadBack(Gap(level, wide, false, layout), ms[1..], level, wide, layout, close, rest, Apply(info, p).value);
      }
    }
  }

  // ----- the members with a meaning of their own -----

  /** What follows the special names, whatever kind of value it is, as long as it is a primitive one. */
  lemma {:induction false} SpecialMembers(v: Json, level: nat, layout: Layout, rest: Text, info: Node)
    requires SafeJson(v) && IsPrimitive(v) && BlankLayout(layout) && Follows(rest)
    ensures var t := Render(v, level, layout) + rest;
            && ValueFrom(t, info, Ascii("$value")) == Ok(info.(value := Some(TextOf(v))), rest)
            && ValueFrom(t, info, Ascii("$name")) == Ok(info.(name := TextOf(v)), rest)
            && ValueFrom(t, info, Ascii("$base")) == Ok(info.(base := BaseFromString(TextOf(v))), rest)
            && ValueFrom(t, info, Ascii("$$defaultLocale")) == Ok(info, rest)
            && ValueFrom(t, info, Ascii("$$org.ampii.comment")) == Ok(info, rest)
  {
    hide RoleOf, Render, PrimitiveFrom, SkipWhite;
    SpecialRoles();
    PrimitiveReadsBack(v, level, layout, rest);
    SolidStays(Render(v, level, layout) + rest);
  }

  lemma {:induction false} SpecialRoles()
    ensures RoleOf(Ascii("$value")) == TheValue && RoleOf(Ascii("$name")) == TheName && RoleOf(Ascii("$base")) == TheBase
    ensures RoleOf(Ascii("$$defaultLocale")) == TheLocale && RoleOf(Ascii("$$org.ampii.comment")) == TheComment
  {
    assert NAME[1] == 0x6E && VALUE[1] == 0x76 && BASE[1] == 0x62 && DEFAULT_LOCALE[1] == DOLLAR && COMMENT[1] == DOLLAR;
    assert COMMENT[2] == 0x6F && DEFAULT_LOCALE[2] == 0x64;
  }

  /** What ends up being called ".csml" is made a Collection if its base is undecided, and refused if it is any other. */
  lemma {:induction false} CsmlIsExact(v: Json, name: Text, level: nat, layout: Layout, rest: Text)
    requires v.Nested? && SafeJson(v) && BlankLayout(layout)
    requires Assemble(v.members, Fresh(name)).Done? && Assemble(v.members, Fresh(name)).value.name == Ascii(".csml")
    ensures var info := Assemble(v.members, Fresh(name)).value;
            ObjectFrom(Render(v, level, layout) + rest, name)
            == if info.base == Poly || info.base == Collection then Ok(info.(base := Collection), rest)
               else Fail(InconsistentBase)
  {
    hide Render, ObjectFrom, Assemble;
    ObjectReadsBack(v, name, level, layout, rest);
  }

  // ----- reading an array -----

  /** From the first element on: its value, and all that follows. */
  function Started(es: seq<Element>, level: nat, layout: Layout, rest: Text): Text
    requires es != []
  {
    Render(es[0].val, level, layout) + Onward(es, level, layout, rest)
  }

  function Onward(es: seq<Element>, level: nat, layout: Layout, rest: Text): Text
    requires es != []
  {
    es[0].after + ((if |es| == 1 then [] else [COMMA]) + (ElementsText(es[1..], level, layout) + rest))
  }

  lemma {:induction false} ElementsStart(es: seq<Element>, level: nat, layout: Layout, rest: Text)
    requires es != []
    ensures ElementsText(es, level, layout) + rest == es[0].before + Started(es, level, layout, rest)
  {
    hide Render;
    Regroup6(es[0].before, Render(es[0].val, level, layout), es[0].after, if |es| == 1 then [] else [COMMA],
             ElementsText(es[1..], level, layout), rest);
  }

  lemma Regroup6(a: Text, b: Text, c: Text, d: Text, e: Text, f: Text)
    ensures a + (b + c) + (d + e) + f == a + (b + (c + (d + (e + f))))
  {
    hide *;
    assert a + (b + c) + (d + e) == a + (b + (c + (d + e)));
    assert d + e + f == d + (e + f);
    Regroup(a, b, c, d + e, f);
  }

  lemma {:induction false} ValueStarts(v: Json, level: nat, layout: Layout, rest: Text)
    requires SafeJson(v)
    ensures var t := Render(v, level, layout) + rest; Solid(t) && t[0] != RBRACKET
  {
    if v.Bare? {
      assert SPACE in UNQUOTED_END && TAB in UNQUOTED_END && CR in UNQUOTED_END && LF in UNQUOTED_END;
      assert RBRACKET in UNQUOTED_END;
    }
  }

  lemma {:induction false} MemberAfterBlanks(lead: Text, t: Text, name: Text)
    requires AllBlank(lead) && Solid(t)
    ensures MemberFrom(lead + t, name) == MemberFrom(t, name)
  {
    BlankBeforeSolid(lead, t);
    SolidStays(t);
  }

  /** After an element: its bracket, or a comma and the next element. */
  lemma {:induction false} OnwardReads(es: seq<Element>, level: nat, layout: Layout, rest: Text)
    requires es != [] && AllBlank(es[0].after)
    ensures var t := Onward(es, level, layout, rest);
            && Follows(t) && SkipWhite(t) == PeekedNonwhite(t)
            && if |es| == 1 then PeekedNonwhite(t) == [RBRACKET] + rest
               else
                 var next := PeekedNonwhite(t);
                 Front(next) == COMMA && SkipWhite(next) == next && Expects(next, COMMA)
                 && Expected(next) == ElementsText(es[1..], level, layout) + rest
  {
    hide SkipWhite, ElementsText;
    var next := (if |es| == 1 then [] else [COMMA]) + (ElementsText(es[1..], level, layout) + rest);
    NoElements(level, layout);
    assert |es| == 1 ==> es[1..] == [] && next == [RBRACKET] + rest;
    assert next[0] == if |es| == 1 then RBRACKET else COMMA;
    BlankBeforeSolid(es[0].after, next);
    SolidStays(next);
    assert UNQUOTED_END[0] == SPACE && UNQUOTED_END[1] == TAB && UNQUOTED_END[2] == CR && UNQUOTED_END[3] == LF
        && UNQUOTED_END[4] == COMMA && UNQUOTED_END[6] == RBRACKET;
  }

  lemma {:induction false} NoElements(level: nat, layout: Layout)
    ensures ElementsText([], level, layout) == [RBRACKET]
  {
  }

  lemma {:induction false} ElementsReadBack(
      lead: Text, es: seq<Element>, level: nat, layout: Layout, rest: Text, info: Node, k: nat)
    requires AllBlank(lead) && es != [] && SafeElements(es) && BlankLayout(layout)
    ensures ElementsFrom(lead + Started(es, level, layout, rest), info, k)
         == Returning(Number(es, info, k), [RBRACKET] + rest)
    decreases es, 0
  {
    hide MemberFrom, Render, ElementsText, SkipWhite, Onward, NodeOf, ToString, BlankLayout;
    var e, onward := es[0], Onward(es, level, layout, rest);
    ValueStarts(e.val, level, layout, onward);
    MemberAfterBlanks(lead, Started(es, level, layout, rest), ToString(k));
    OnwardReads(es, level, layout, rest);
    MemberReadsBack(e.val, ToString(k), level, layout, onward);
    if |es| > 1 && NodeOf(e.val, ToString(k)).Done? {
      var n := NodeOf(e.val, ToString(k)).value;
      ElementsStart(es[1..], level, layout, rest);
      ElementsReadBack(es[1].before, es[1..], level, layout, rest, info.(subs := AddLocal(info.subs, n)), k + 1);
    }
  }

  lemma {:induction false} BracketOpens(t1: Text, name: Text, out: Outcome<Node>, rest: Text)
    requires Returning(out, [RBRACKET] + rest)
          == if Front(SkipWhite(t1)) == RBRACKET then Ok(Fresh(name), PeekedNonwhite(t1))
             else ElementsFrom(PeekedNonwhite(t1), Fresh(name), 1)
    ensures ArrayFrom([LBRACKET] + t1, name) == Returning(out, rest)
  {
    SolidStays([LBRACKET] + t1);
    assert ([LBRACKET] + t1)[1..] == t1;
    SolidStays([RBRACKET] + rest);
    assert ([RBRACKET] + rest)[1..] == rest;
  }

  /** An array reads back, with any blanks around its elements, and leaves what stands after its right bracket. */
  lemma {:induction false} ArrayReadsBack(v: Json, name: Text, level: nat, layout: Layout, rest: Text)
    requires v.Listed? && SafeJson(v) && BlankLayout(layout)
    ensures ArrayFrom(Render(v, level, layout) + rest, name) == Returning(NodeOf(v, name), rest)
    decreases v, 1
  {
    hide ElementsFrom, ElementsText, SkipWhite;
    var es, gap := v.elements, v.gap;
    var t1 := gap + (ElementsText(es, level, layout) + rest);
    assert Render(v, level, layout) + rest == [LBRACKET] + t1;
    if es == [] {
      BlankBeforeSolid(gap, [RBRACKET] + rest);
      NoElements(level, layout);
    } else {
      var started := Started(es, level, layout, rest);
      ElementsStart(es, level, layout, rest);
      ValueStarts(es[0].val, level, layout, Onward(es, level, layout, rest));
      var lead, none: Text := gap + es[0].before, [];
      assert t1 == lead + started && none + started == started;
      BlankBeforeSolid(lead, started);
      ElementsReadBack(none, es, level, layout, rest, Fresh(name), 1);
    }
    BracketOpens(t1, name, Number(es, Fresh(name), 1), rest);
  }

  /** What the elements stand for on their own, called `k` and so on. */
  predicate StandFor(es: seq<Element>, k: nat, ns: seq<Node>) {
    |ns| == |es| && forall i :: 0 <= i < |es| ==> NodeOf(es[i].val, ToString(k + i)) == Done(ns[i])
  }

  lemma RestStandsFor(es: seq<Element>, k: nat, ns: seq<Node>)
    requires StandFor(es, k, ns) && es != []
    ensures NodeOf(es[0].val, ToString(k)) == Done(ns[0]) && StandFor(es[1..], k + 1, ns[1..])
  {
    hide NodeOf, ToString;
    assert NodeOf(es[0].val, ToString(k + 0)) == Done(ns[0]);
    var rest := es[1..];
    forall i | 0 <= i < |rest|
      ensures NodeOf(rest[i].val, ToString(k + 1 + i)) == Done(ns[1..][i])
    {
      assert NodeOf(es[i + 1].val, ToString(k + (i + 1))) == Done(ns[i + 1]);
      assert k + 1 + i == k + (i + 1);
    }
  }

  /** There are as many children as elements exactly if the names differ, and then they are the elements, in order. */
  lemma {:induction false} NumberIsExact(es: seq<Element>, info: Node, k: nat, ns: seq<Node>)
    requires StandFor(es, k, ns)
    ensures Number(es, info, k).Done?
    ensures var subs := Number(es, info, k).value.subs;
            |subs| <= |info.subs| + |es| && (|subs| == |info.subs| + |es| <==> AllNew(info.subs, ns))
    ensures AllNew(info.subs, ns) ==> Number(es, info, k) == Done(info.(subs := info.subs + ns))
    decreases |es|
  {
    hide NodeOf, ToString, StandFor, AddLocal;
    if es == [] {
      SameLength(es, k, ns);
      assert info.subs + ns == info.subs;
    } else {
      SameLength(es, k, ns);
      RestStandsFor(es, k, ns);
      AddOne(info.subs, ns[0]);
      var more := info.(subs := AddLocal(info.subs, ns[0]));
      NumberIsExact(es[1..], more, k + 1, ns[1..]);
      if AllNew(info.subs, ns) {
        assert more.subs + ns[1..] == info.subs + ns;
      }
    }
  }

  lemma SameLength(es: seq<Element>, k: nat, ns: seq<Node>)
    requires StandFor(es, k, ns)
    ensures |ns| == |es|
  {
  }

  /** Each has a name of its own, which is none of those before. */
  predicate AllNew(subs: seq<Node>, ns: seq<Node>)
    decreases |ns|
  {
    ns != [] ==> (forall n :: n in subs ==> n.name != ns[0].name) && AllNew(subs + [ns[0]], ns[1..])
  }

  lemma AddOne(subs: seq<Node>, n: Node)
    ensures if forall m :: m in subs ==> m.name != n.name then AddLocal(subs, n) == subs + [n]
            else |AddLocal(subs, n)| == |subs|
  {
    if forall m :: m in subs ==> m.name != n.name {
      AddLocalAppends(subs, n);
    } else {
      var m :| m in subs && m.name == n.name;
      var i :| 0 <= i < |subs| && subs[i] == m;
      assert IndexOf(subs, n.name) < |subs|;
    }
  }

  /** Numerals tell numbers apart, so numbered names are new. */
  lemma {:induction false} NumberedAreNew(subs: seq<Node>, ns: seq<Node>, k: nat)
    requires forall i :: 0 <= i < |ns| ==> ns[i].name == ToString(k + i)
    requires forall m :: m in subs ==> exists j: nat :: j < k && m.name == ToString(j)
    ensures AllNew(subs, ns)
    decreases |ns|
  {
    hide ToString;
    if ns != [] {
      assert ns[0].name == ToString(k + 0);
      forall m | m in subs
        ensures m.name != ns[0].name
      {
        var j: nat :| j < k && m.name == ToString(j);
        NumeralsDiffer(j, k);
      }
      forall i | 0 <= i < |ns[1..]|
        ensures ns[1..][i].name == ToString(k + 1 + i)
      {
        assert k + 1 + i == k + (i + 1);
      }
      NumberedAreNew(subs + [ns[0]], ns[1..], k + 1);
    }
  }

  lemma NumeralsDiffer(a: nat, b: nat)
    requires a != b
    ensures ToString(a) != ToString(b)
  {
    ValueOfDigitsOf(a);
    ValueOfDigitsOf(b);
  }

  /** The value is not an object that names itself. */
  predicate NamesNothing(v: Json) {
    v.Nested? ==> forall p :: p in v.members ==> p.name != Ascii("$name")
  }

  lemma {:induction false} NameIsKept(v: Json, name: Text)
    requires NamesNothing(v)
    ensures NodeOf(v, name).Done? ==> NodeOf(v, name).value.name == name
  {
    match v
    case Nested(members, _) => AssembleKeepsName(members, Fresh(name));
    case Listed(_, es) => NumberKeepsName(es, Fresh(name), 1);
    case _ =>
  }

  lemma {:induction false} AssembleKeepsName(ms: seq<Pair>, info: Node)
    requires forall p :: p in ms ==> p.name != NAME
    ensures Assemble(ms, info).Done? ==> Assemble(ms, info).value.name == info.name
    decreases |ms|
  {
    if ms != [] && Apply(info, ms[0]).Done? {
      assert ms[0] in ms;
      AssembleKeepsName(ms[1..], Apply(info, ms[0]).value);
    }
  }

  lemma {:induction false} NumberKeepsName(es: seq<Element>, info: Node, k: nat)
    ensures Number(es, info, k).Done? ==> Number(es, info, k).value.name == info.name
    decreases |es|
  {
    if es != [] && NodeOf(es[0].val, ToString(k)).Done? {
      NumberKeepsName(es[1..], info.(subs := AddLocal(info.subs, NodeOf(es[0].val, ToString(k)).value)), k + 1);
    }
  }

  /**
   * An array, with any blanks in it and anything after it, reads as an item with as many children as it has elements:
   * the k-th is called k and is what the k-th element stands for, be that an array again. Elements that name themselves
   * are the exception: then it is so exactly if all the names they end up with differ.
   */
  lemma {:induction false} ArrayIsItsElements(v: Json, name: Text, level: nat, layout: Layout, rest: Text, ns: seq<Node>)
    requires v.Listed? && SafeJson(v) && BlankLayout(layout) && StandFor(v.elements, 1, ns)
    ensures var r := ArrayFrom(Render(v, level, layout) + rest, name);
            && r.Ok? && r.rest == rest && |r.value.subs| <= |v.elements|
            && (|r.value.subs| == |v.elements| <==> AllNew([], ns))
            && (AllNew([], ns) ==> r.value == Node(name, Poly, None, ns))
    ensures (forall i :: 0 <= i < |v.elements| ==> NamesNothing(v.elements[i].val)) ==>
              AllNew([], ns) && forall i :: 0 <= i < |ns| ==> ns[i].name == ToString(i + 1)
  {
    hide Render, ArrayFrom, NodeOf, NamesNothing, ToString, AllNew, StandFor, Number, SafeJson, BlankLayout;
    ArrayReadsBack(v, name, level, layout, rest);
    ArrayIsNumbered(v, name);
    NumberIsExact(v.elements, Fresh(name), 1, ns);
    if forall i :: 0 <= i < |v.elements| ==> NamesNothing(v.elements[i].val) {
      ElementsAreNew(v.elements, ns);
    }
    assert [] + ns == ns;
  }

  lemma {:induction false} ElementsAreNew(es: seq<Element>, ns: seq<Node>)
    requires StandFor(es, 1, ns) && forall i :: 0 <= i < |es| ==> NamesNothing(es[i].val)
    ensures AllNew([], ns) && forall i :: 0 <= i < |ns| ==> ns[i].name == ToString(i + 1)
  {
    hide NodeOf, NamesNothing, ToString, AllNew;
    forall i | 0 <= i < |ns|
      ensures ns[i].name == ToString(1 + i)
    {
      NameIsKept(es[i].val, ToString(1 + i));
    }
    NumberedAreNew([], ns, 1);
  }

  lemma {:induction false} ArrayIsNumbered(v: Json, name: Text)
    requires v.Listed?
    ensures NodeOf(v, name) == Number(v.elements, Fresh(name), 1)
  {
  }

  /** Parsing a rendered document builds the item it describes, whatever the layout and whatever follows. */
  lemma {:induction false} ParseRendered(ms: seq<Pair>, wide: bool, layout: Layout)
    requires SafeMembers(ms) && BlankLayout(layout)
    ensures Parse(Render(Nested(ms, wide), 0, layout)) == Returning(NodeOf(Nested(ms, wide), ANONYMOUS), [])
  {
    var t := Render(Nested(ms, wide), 0, layout);
    var none: Text := [];
    ObjectReadsBack(Nested(ms, wide), ANONYMOUS, 0, layout, none);
    assert t + none == t;
  }
}
