/**
 * XML attribute values and comments (marshallers/XMLGenerator.java, emitXMLAttribute and escape, and
 * marshallers/XMLParser.java, consumeAttributeName, consumeAttributeValue, unescape and skipRestOfComment).
 */
module XmlText {
  import opened CodeUnits
  import opened Reader

  datatype Error = MissingSemicolon | UnknownEntity | Unexpected | Unterminated

  datatype Outcome<+T> = Done(value: T) | Failed(error: Error)

  // ----- entities -----

  /** The entity an escaped character is written as, without its ampersand and semicolon. */
  function EntityOf(c: CodeUnit): (e: Text)
    ensures SEMICOLON !in e && AMP !in e && QUOTE !in e && NUL !in e
  {
    if c == QUOTE then Ascii("quot")
    else if c == APOS then Ascii("apos")
    else if c == LT then Ascii("lt")
    else if c == GT then Ascii("gt")
    else if c == AMP then Ascii("amp")
    else []
  }

  function Escaped(c: CodeUnit): Text {
    if EntityOf(c) == [] then [c] else [AMP] + EntityOf(c) + [SEMICOLON]
  }

  function Escape(t: Text): Text {
    if t == [] then [] else Escape(t[..|t| - 1]) + Escaped(t[|t| - 1])
  }

  /** The character an entity stands for. */
  function Character(entity: Text): (c: Outcome<CodeUnit>)
    ensures c.Done? ==> c.value != NUL
  {
    if entity == Ascii("lt") then Done(LT)
    else if entity == Ascii("gt") then Done(GT)
    else if entity == Ascii("amp") then Done(AMP)
    else if entity == Ascii("apos") then Done(APOS)
    else if entity == Ascii("quot") then Done(QUOTE)
    else Failed(UnknownEntity)
  }

  /** `indexOf`, or the length where it says -1. */
  function Index(t: Text, c: CodeUnit): (i: nat)
    ensures i <= |t| && (i < |t| ==> t[i] == c) && forall j :: 0 <= j < i ==> t[j] != c
  {
    if t == [] || t[0] == c then 0 else 1 + Index(t[1..], c)
  }

  function Unescape(t: Text): Outcome<Text>
    decreases |t|
  {
    if t == [] then Done([])
    else if t[0] != AMP then Prefixed(t[0], Unescape(t[1..]))
    else
      var end := Index(t, SEMICOLON);
      if end == |t| then Failed(MissingSemicolon)
      else
        var c := Character(t[1..end]);
        if c.Failed? then Failed(c.error) else Prefixed(c.value, Unescape(t[end + 1..]))
  }

  function Prefixed(c: CodeUnit, rest: Outcome<Text>): Outcome<Text> {
    if rest.Failed? then rest else Done([c] + rest.value)
  }

  method EscapeText(t: Text) returns (out: Text)
    ensures out == Escape(t)
  {
    out := [];
    for i := 0 to |t|
      invariant out == Escape(t[..i])
    {
      var c := t[i];
      assert t[..i + 1][..i] == t[..i];
      if c == QUOTE {
        out := out + Ascii("&quot;");
      } else if c == APOS {
        out := out + Ascii("&apos;");
      } else if c == LT {
        out := out + Ascii("&lt;");
      } else if c == GT {
        out := out + Ascii("&gt;");
      } else if c == AMP {
        out := out + Ascii("&amp;");
      } else {
        out := out + [c];
      }
      EscapedIsLiteral(c);
    }
    assert t[..|t|] == t;
  }

  lemma EscapedIsLiteral(c: CodeUnit)
    ensures Escaped(c) == if c == QUOTE then Ascii("&quot;") else if c == APOS then Ascii("&apos;")
                          else if c == LT then Ascii("&lt;") else if c == GT then Ascii("&gt;")
                          else if c == AMP then Ascii("&amp;") else [c]
  {
  }

  /** What is done so far in front of what is still to come. */
  function After(done: Text, rest: Outcome<Text>): Outcome<Text> {
    if rest.Failed? then rest else Done(done + rest.value)
  }

  method UnescapeText(t: Text) returns (out: Outcome<Text>)
    ensures out == Unescape(t)
  {
    hide Unescape, Character;
    var done: Text := [];
    var i := 0;
    assert t[0..] == t;
    AfterNothing(Unescape(t));
    while i < |t|
      invariant i <= |t|
      invariant After(done, Unescape(t[i..])) == Unescape(t)
    {
      UnescapeAt(t, i);
      var c := t[i];
      if c == AMP {
        var end := i + Index(t[i..], SEMICOLON);
        if end == |t| {
          return Failed(MissingSemicolon);
        }
        var character := Character(t[i + 1..end]);
        if character.Failed? {
          return Failed(character.error);
        }
        c := character.value;
        i := end;
      }
      MoveOver(done, c, Unescape(t[i + 1..]));
      done := done + [c];
      i := i + 1;
    }
    UnescapeNothing();
    assert t[i..] == [] && done + [] == done;
    out := Done(done);
  }

  lemma UnescapeNothing()
    ensures Unescape([]) == Done([])
  {
  }

  lemma UnescapeAt(t: Text, i: nat)
    requires i < |t|
    ensures t[i] != AMP ==> Unescape(t[i..]) == Prefixed(t[i], Unescape(t[i + 1..]))
    ensures t[i] == AMP ==>
              var end := i + Index(t[i..], SEMICOLON);
              Unescape(t[i..]) == if end == |t| then Failed(MissingSemicolon)
                                  else
                                    var c := Character(t[i + 1..end]);
                                    if c.Failed? then Failed(c.error) else Prefixed(c.value, Unescape(t[end + 1..]))
  {
    hide Index, Character;
    var rest := t[i..];
    assert rest[1..] == t[i + 1..];
    if t[i] == AMP {
      var k := Index(rest, SEMICOLON);
      if k < |rest| {
        assert rest[1..k] == t[i + 1..i + k] && rest[k + 1..] == t[i + k + 1..];
      }
    }
  }

  lemma MoveOver(done: Text, c: CodeUnit, rest: Outcome<Text>)
    ensures After(done, Prefixed(c, rest)) == After(done + [c], rest)
  {
    if rest.Done? {
      assert done + ([c] + rest.value) == done + [c] + rest.value;
    }
  }

  lemma {:induction false} EntityReads(c: CodeUnit, rest: Text)
    ensures Unescape(Escaped(c) + rest) == Prefixed(c, Unescape(rest))
  {
    var e := EntityOf(c);
    if e == [] {
      assert ([c] + rest)[1..] == rest;
    } else {
      var t := [AMP] + e + [SEMICOLON] + rest;
      assert t == Escaped(c) + rest;
      IndexIs(t, SEMICOLON, |e| + 1);
      assert t[1..|e| + 1] == e && t[|e| + 2..] == rest;
      CharacterOfEntity(c);
    }
  }

  lemma {:induction false} IndexIs(t: Text, c: CodeUnit, i: nat)
    requires i < |t| && t[i] == c && forall j :: 0 <= j < i ==> t[j] != c
    ensures Index(t, c) == i
  {
  }

  lemma CharacterOfEntity(c: CodeUnit)
    requires EntityOf(c) != []
    ensures Character(EntityOf(c)) == Done(c)
  {
    assert Ascii("lt")[0] == 0x6C && Ascii("gt")[0] == 0x67;
    assert |Ascii("lt")| == 2 && |Ascii("amp")| == 3 && |Ascii("quot")| == 4;
    assert Ascii("apos")[0] == 0x61 && Ascii("quot")[0] == 0x71;
  }

  lemma {:induction false} UnescapeAfter(t: Text, rest: Text)
    ensures Unescape(Escape(t) + rest) == After(t, Unescape(rest))
    decreases |t|
  {
    hide Unescape, Escaped;
    if t == [] {
      assert Escape(t) + rest == rest;
      assert rest == [] + rest;
      AfterNothing(Unescape(rest));
    } else {
      var n := |t| - 1;
      assert Escape(t) + rest == Escape(t[..n]) + (Escaped(t[n]) + rest);
      UnescapeAfter(t[..n], Escaped(t[n]) + rest);
      EntityReads(t[n], rest);
      MoveOver(t[..n], t[n], Unescape(rest));
      assert t[..n] + [t[n]] == t;
    }
  }

  lemma AfterNothing(rest: Outcome<Text>)
    ensures After([], rest) == rest
  {
    if rest.Done? {
      assert [] + rest.value == rest.value;
    }
  }

  /** Unescaping what was escaped gives it back, whatever it holds. */
  lemma {:induction false} UnescapeEscape(t: Text)
    ensures Unescape(Escape(t)) == Done(t)
  {
    UnescapeAfter(t, []);
    assert Escape(t) + [] == Escape(t) && t + [] == t;
  }

  lemma {:induction false} EscapeIsQuotable(t: Text)
    ensures QUOTE !in Escape(t) && (NulFree(t) ==> NulFree(Escape(t)))
    decreases |t|
  {
    hide EntityOf;
    if t != [] {
      EscapeIsQuotable(t[..|t| - 1]);
      assert EntityOf(QUOTE) != [] by {
        EscapedIsLiteral(QUOTE);
        assert |Ascii("&quot;")| == 6;
      }
    }
  }

  lemma {:induction false} UnescapedIsNulFree(t: Text)
    requires NulFree(t) && Unescape(t).Done?
    ensures NulFree(Unescape(t).value)
    decreases |t|
  {
    if t != [] {
      if t[0] != AMP {
        UnescapedIsNulFree(t[1..]);
      } else {
        UnescapedIsNulFree(t[Index(t, SEMICOLON) + 1..]);
      }
    }
  }

  // ----- attributes -----

  const NAME_ENDS: Text := [SPACE, TAB, EQUALS, LT, SLASH, GT, CR, LF, QUOTE]

  /** A value read, and the text left. */
  datatype Reading<+T> = Reading(value: Outcome<T>, rest: Text)

  function AnyQuotedFrom(t: Text): Reading<Text> {
    var s := Peeked(SkipWhite(t));
    if Front(SkipWhite(t)) == QUOTE then QuotedFrom(s, QUOTE)
    else if Front(s) == APOS then QuotedFrom(Peeked(s), APOS)
    else Reading(Failed(Unexpected), Peeked(s))
  }

  /** After peeking at a quote. */
  function QuotedFrom(t: Text, quote: CodeUnit): Reading<Text> {
    if !Expects(t, quote) then Reading(Failed(Unexpected), Expected(t))
    else
      var body := Expected(t);
      var after := AfterSpan(body, [quote]);
      if !Expects(after, quote) then Reading(Failed(Unexpected), Expected(after))
      else Reading(Done(Span(body, [quote])), Expected(after))
  }

  function AttributeValueFrom(t: Text): Reading<Text> {
    var s := SkipWhite(t);
    if Front(s) != EQUALS then Reading(Failed(Unexpected), Rest(s))
    else
      var quoted := AnyQuotedFrom(SkipWhite(Rest(s)));
      if quoted.value.Failed? then quoted else Reading(Unescape(quoted.value.value), quoted.rest)
  }

  function AttributeNameFrom(t: Text): Reading<Text> {
    var s := SkipWhite(t);
    Reading(if Span(s, NAME_ENDS) == [] then Failed(Unexpected) else Done(Span(s, NAME_ENDS)), AfterSpan(s, NAME_ENDS))
  }

  function AttributeText(name: Text, value: Text): Text {
    [SPACE] + name + [EQUALS, QUOTE] + Escape(value) + [QUOTE]
  }

  predicate LegalAttributeName(name: Text) {
    name != [] && name[0] !in WHITE && NulFree(name) && forall c :: c in name ==> c !in NAME_ENDS
  }

  const COMMENT_START: Text := [BANG, MINUS, MINUS]

  lemma StartsWithThree(t: Text)
    ensures StartsWith(t, COMMENT_START) <==> |t| >= 3 && t[0] == BANG && t[1] == MINUS && t[2] == MINUS
  {
    if |t| >= 3 {
      assert t[..3] == [t[0], t[1], t[2]];
    }
  }

  lemma CommentStep(t: Text, state: nat)
    requires state <= 2
    ensures CommentFrom(t, state)
         == if t == [] || t[0] == NUL then Failed(Unterminated)
            else if state == 2 && t[0] == GT then Done(t[1..])
            else CommentFrom(t[1..], if t[0] == MINUS && state < 2 then state + 1 else 0)
  {
  }

  /** Skipping a comment after its "<": what is left when the scanner in the given state finds the end. */
  function CommentFrom(t: Text, state: nat): Outcome<Text>
    decreases |t|
  {
    if t == [] || t[0] == NUL then Failed(Unterminated)
    else if state == 2 && t[0] == GT then Done(t[1..])
    else CommentFrom(t[1..], if t[0] == MINUS && state < 2 then state + 1 else 0)
  }

  class XmlParser {
    const reader: Parser

    constructor (text: Text)
      ensures fresh(reader) && reader.Valid() && reader.Remaining() == text
    {
      reader := new Parser(text);
    }

    method ConsumeAnyQuoted() returns (out: Outcome<Text>)
      requires reader.Valid()
      modifies reader
      ensures reader.Valid() && Reading(out, reader.Remaining()) == AnyQuotedFrom(old(reader.Remaining()))
    {
      hide SkipWhite, Stop;
      reader.SkipWhitespace();
      var c := reader.PeekNext();
      var delimiter := QUOTE;
      if c != QUOTE {
        c := reader.PeekNext();
        if c != APOS {
          return Failed(Unexpected);
        }
        delimiter := APOS;
      }
      var opened_ := reader.Expect(delimiter);
      if !opened_ {
        return Failed(Unexpected);
      }
      var result := reader.ConsumeUntil([delimiter]);
      var closed := reader.Expect(delimiter);
      out := if closed then Done(result) else Failed(Unexpected);
    }

    method ConsumeAttributeValue() returns (out: Outcome<Text>)
      requires reader.Valid()
      modifies reader
      ensures reader.Valid() && Reading(out, reader.Remaining()) == AttributeValueFrom(old(reader.Remaining()))
    {
      hide SkipWhite, AnyQuotedFrom, Unescape;
      reader.SkipWhitespace();
      var equals := reader.ExpectNext(EQUALS);
      if !equals {
        return Failed(Unexpected);
      }
      reader.SkipWhitespace();
      var quoted := ConsumeAnyQuoted();
      if quoted.Failed? {
        return quoted;
      }
      out := UnescapeText(quoted.value);
    }

    method ConsumeAttributeName() returns (out: Outcome<Text>)
      requires reader.Valid()
      modifies reader
      ensures reader.Valid() && Reading(out, reader.Remaining()) == AttributeNameFrom(old(reader.Remaining()))
    {
      hide SkipWhite, Stop;
      reader.SkipWhitespace();
      var name := reader.ConsumeUntil(NAME_ENDS);
      out := if |name| == 0 then Failed(Unexpected) else Done(name);
    }

    method ExpectCommentStart() returns (found: bool)
      requires reader.Valid()
      modifies reader
      ensures reader.Valid() && found == StartsWith(old(reader.Remaining()), COMMENT_START)
      ensures found ==> reader.Remaining() == old(reader.Remaining())[3..]
    {
      hide StartsWith;
      ghost var t := reader.Remaining();
      StartsWithThree(t);
      found := reader.ExpectNext(BANG);
      if found {
        found := reader.ExpectNext(MINUS);
      }
      if found {
        found := reader.ExpectNext(MINUS);
      }
    }

    /** The state is the number of hyphens of a possible end just seen. */
    method SkipRestOfComment() returns (out: Outcome<()>)
      requires reader.Valid()
      modifies reader
      ensures reader.Valid()
      ensures var t := old(reader.Remaining());
              StartsWith(t, COMMENT_START) ==>
                match CommentFrom(t[3..], 0)
                case Done(rest) => out.Done? && reader.Remaining() == rest
                case Failed(e) => out == Failed(e)
      ensures !StartsWith(old(reader.Remaining()), COMMENT_START) ==> out == Failed(Unexpected)
    {
      ghost var t := reader.Remaining();
      var found := ExpectCommentStart();
      if !found {
        return Failed(Unexpected);
      }
      ghost var body := reader.Remaining();
      hide CommentFrom;
      var state := 0;
      while true
        invariant reader.Valid() && state <= 2
        invariant CommentFrom(reader.Remaining(), state) == CommentFrom(body, 0)
        decreases |reader.Remaining()|
      {
        CommentStep(reader.Remaining(), state);
        var next := reader.Consume();
        if next == NUL {
          return Failed(Unterminated);
        }
        if state == 0 && next == MINUS {
          state := 1;
        } else if state == 1 && next == MINUS {
          state := 2;
        } else if state == 2 && next == GT {
          break;
        } else {
          state := 0;
        }
      }
      out := Done(());
    }
  }

  // ----- attributes read back -----

  lemma QuotedReadsBack(body: Text, rest: Text)
    requires NulFree(body) && QUOTE !in body
    ensures AnyQuotedFrom([QUOTE] + body + [QUOTE] + rest) == Reading(Done(body), rest)
  {
    var tail := [QUOTE] + rest;
    var t := [QUOTE] + (body + tail);
    assert [QUOTE] + body + [QUOTE] + rest == t;
    assert [] + t == t && [] + tail == tail;
    SkipWhiteRun([], t);
    SkipWhiteRun([], tail);
    assert t[1..] == body + tail;
    StopIsUnique(body + tail, [QUOTE], |body|);
    assert (body + tail)[..|body|] == body && (body + tail)[|body|..] == tail && tail[1..] == rest;
  }

  lemma NameReadsBack(name: Text, rest: Text)
    requires LegalAttributeName(name)
    ensures AttributeNameFrom([SPACE] + name + ([EQUALS] + rest)) == Reading(Done(name), [EQUALS] + rest)
  {
    var tail := [EQUALS] + rest;
    assert [SPACE] + name + tail == [SPACE] + (name + tail);
    SkipWhiteRun([SPACE], name + tail);
    assert NAME_ENDS[2] == EQUALS;
    StopIsUnique(name + tail, NAME_ENDS, |name|);
    assert (name + tail)[..|name|] == name && (name + tail)[|name|..] == tail;
  }

  lemma {:induction false} ValueReads(body: Text, rest: Text)
    requires NulFree(body) && QUOTE !in body
    ensures AttributeValueFrom([EQUALS] + ([QUOTE] + body + [QUOTE] + rest)) == Reading(Unescape(body), rest)
  {
    hide AnyQuotedFrom, Unescape;
    var quoted := [QUOTE] + body + [QUOTE] + rest;
    var t := [EQUALS] + quoted;
    assert [] + t == t && [] + quoted == quoted && t[1..] == quoted;
    SkipWhiteRun([], t);
    SkipWhiteRun([], quoted);
    QuotedReadsBack(body, rest);
  }

  /** The text emitted for an attribute reads back as its name and value, and leaves what follows untouched. */
  lemma AttributeReadsBack(name: Text, value: Text, rest: Text)
    requires LegalAttributeName(name) && NulFree(value)
    ensures var first := AttributeNameFrom(AttributeText(name, value) + rest);
            && first.value == Done(name)
            && AttributeValueFrom(first.rest) == Reading(Done(value), rest)
  {
    hide AttributeNameFrom, AttributeValueFrom, Escape, Unescape;
    var quoted := [QUOTE] + Escape(value) + [QUOTE] + rest;
    assert AttributeText(name, value) + rest == [SPACE] + name + ([EQUALS] + quoted);
    NameReadsBack(name, quoted);
    EscapeIsQuotable(value);
    ValueReads(Escape(value), rest);
    UnescapeEscape(value);
  }

  lemma SkippedIsNulFree(t: Text)
    requires t != [] && t[0] == QUOTE
    ensures var r := AnyQuotedFrom(t); r.value.Done? ==> NulFree(r.value.value)
  {
  }

  /** A NUL in the value is what spoils it: the value comes back exactly when it holds none. */
  lemma {:induction false} AttributeIsExact(value: Text, rest: Text)
    ensures AttributeValueFrom([EQUALS] + ([QUOTE] + Escape(value) + [QUOTE] + rest)) == Reading(Done(value), rest)
       <==> NulFree(value)
  {
    hide Escape, Unescape, AnyQuotedFrom;
    var quoted := [QUOTE] + Escape(value) + [QUOTE] + rest;
    if NulFree(value) {
      EscapeIsQuotable(value);
      ValueReads(Escape(value), rest);
      UnescapeEscape(value);
    } else {
      var t := [EQUALS] + quoted;
      assert [] + t == t && [] + quoted == quoted && t[1..] == quoted;
      SkipWhiteRun([], t);
      SkipWhiteRun([], quoted);
      SkippedIsNulFree(quoted);
      var read := AnyQuotedFrom(quoted).value;
      if read.Done? && Unescape(read.value).Done? {
        UnescapedIsNulFree(read.value);
      }
    }
  }

  // ----- comments -----

  /** Section 2.5 of XML 1.0: between "<!--" and "-->", no two hyphens in a row and none at the end. */
  predicate CommentBody(body: Text) {
    || body == []
    || (body[0] != MINUS && body[0] != NUL && CommentBody(body[1..]))
    || (body[0] == MINUS && |body| > 1 && body[1] != MINUS && body[1] != NUL && CommentBody(body[2..]))
  }

  const COMMENT_END: Text := [MINUS, MINUS, GT]

  /** Every comment of the grammar is skipped to its very end. */
  lemma {:induction false} CommentIsSkipped(body: Text, rest: Text)
    requires CommentBody(body)
    ensures CommentFrom(body + COMMENT_END + rest, 0) == Done(rest)
    decreases |body|
  {
    hide CommentFrom;
    var t := body + COMMENT_END + rest;
    if body == [] {
      assert t[1..] == [MINUS, GT] + rest && t[1..][1..] == [GT] + rest && ([GT] + rest)[1..] == rest;
      CommentStep(t, 0);
      CommentStep(t[1..], 1);
      CommentStep([GT] + rest, 2);
    } else {
      CommentStep(t, 0);
      assert t[1..] == body[1..] + COMMENT_END + rest;
      if body[0] == MINUS {
        CommentStep(t[1..], 1);
        assert t[1..][1..] == body[2..] + COMMENT_END + rest;
        CommentIsSkipped(body[2..], rest);
      } else {
        CommentIsSkipped(body[1..], rest);
      }
    }
  }

  /** How many hyphens a text ends in. */
  function TrailingHyphens(t: Text): (n: nat)
    ensures n <= |t| && forall i :: |t| - n <= i < |t| ==> t[i] == MINUS
    ensures n < |t| ==> t[|t| - n - 1] != MINUS
  {
    if t == [] || t[|t| - 1] != MINUS then 0 else 1 + TrailingHyphens(t[..|t| - 1])
  }

  /** Somewhere in the text stands "-->". */
  predicate HoldsEnd(body: Text) {
    exists i :: 2 <= i < |body| && body[i] == GT && body[i - 1] == MINUS && body[i - 2] == MINUS
  }

  lemma OneMoreUnit(body: Text, i: nat)
    requires i < |body|
    ensures TrailingHyphens(body[..i + 1]) == if body[i] == MINUS then TrailingHyphens(body[..i]) + 1 else 0
  {
    assert body[..i + 1][..i] == body[..i];
  }

  lemma NoEndAt(body: Text, k: nat)
    requires k < |body| && !HoldsEnd(body)
    ensures TrailingHyphens(body[..k]) % 3 == 2 ==> body[k] != GT
  {
    var n := TrailingHyphens(body[..k]);
    if n >= 2 {
      assert body[..k][k - 1] == MINUS && body[..k][k - 2] == MINUS;
    }
  }

  /** The state of the scanner is the number of hyphens just seen, up to multiples of three. */
  lemma {:induction false} ScanReaches(body: Text, i: nat, tail: Text)
    requires i <= |body| && NulFree(body) && !HoldsEnd(body)
    ensures CommentFrom(body + tail, 0) == CommentFrom(body[i..] + tail, TrailingHyphens(body[..i]) % 3)
    decreases i
  {
    hide CommentFrom;
    if i == 0 {
      assert body[0..] == body;
    } else {
      var k := i - 1;
      ScanReaches(body, k, tail);
      OneMoreUnit(body, k);
      var n := TrailingHyphens(body[..k]);
      var t := body[k..] + tail;
      CommentStep(t, n % 3);
      assert t[1..] == body[i..] + tail && t[0] == body[k] != NUL;
      NoEndAt(body, k);
    }
  }

  /**
   * What the scanner makes of the end of any comment, grammatical or not: it stops there exactly if the number of
   * hyphens before the "-->" is divisible by three, and reads on past it as if nothing had been there otherwise.
   */
  lemma {:induction false} CommentEndIsExact(body: Text, rest: Text)
    requires NulFree(body) && !HoldsEnd(body)
    ensures CommentFrom(body + COMMENT_END + rest, 0) == Done(rest) <==> TrailingHyphens(body) % 3 == 0
    ensures TrailingHyphens(body) % 3 != 0 ==> CommentFrom(body + COMMENT_END + rest, 0) == CommentFrom(rest, 0)
  {
    hide CommentFrom, TrailingHyphens;
    var n, tail := TrailingHyphens(body), COMMENT_END + rest;
    assert body + COMMENT_END + rest == body + tail;
    ScanReaches(body, |body|, tail);
    assert body[..|body|] == body && body[|body|..] + tail == tail;
    EndFrom(n % 3, rest);
    SkippingLeavesLess(rest, 0);
  }

  lemma {:induction false} EndFrom(state: nat, rest: Text)
    requires state <= 2
    ensures CommentFrom(COMMENT_END + rest, state) == if state == 0 then Done(rest) else CommentFrom(rest, 0)
  {
    hide CommentFrom;
    var tail := COMMENT_END + rest;
    assert tail[1..] == [MINUS, GT] + rest && tail[1..][1..] == [GT] + rest && ([GT] + rest)[1..] == rest;
    CommentStep(tail, state);
    CommentStep(tail[1..], if state == 2 then 0 else state + 1);
    CommentStep([GT] + rest, if state == 0 then 2 else state - 1);
  }

  lemma {:induction false} SkippingLeavesLess(t: Text, state: nat)
    ensures CommentFrom(t, state).Done? ==> |CommentFrom(t, state).value| < |t|
    decreases |t|
  {
    if t != [] {
      SkippingLeavesLess(t[1..], if t[0] == MINUS && state < 2 then state + 1 else 0);
    }
  }

  /** So with one hyphen too many the scanner reads on past "--->". */
  lemma {:induction false} ThirdHyphenIsMissed(rest: Text)
    ensures CommentFrom([MINUS] + COMMENT_END + rest, 0) == CommentFrom(rest, 0)
  {
    assert TrailingHyphens([MINUS]) == 1 by {
      assert [MINUS][..0] == [];
    }
    CommentEndIsExact([MINUS], rest);
  }
}
