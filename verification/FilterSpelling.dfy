/**
 * Spelling a filter out as text, with blanks, and cutting it back into tokens (data/Context.java, lines 675-721).
 *
 * The last lemma joins the tokenizer and the evaluator: any expression, spelled out in any legal way, has its Boolean
 * meaning as the verdict of the filter.
 */
module FilterSpelling {
  import opened CodeUnits
  import opened DataTree
  import opened Reader
  import Filters
  import opened FilterMeaning
  import opened FilterText

  // ----- how tokens are spelled -----

  /** A word in its URL-encoded spelling, a parenthesis, or a function call with the blanks inside it. */
  datatype Lexeme =
    | Spelled(spelling: Text, word: Text)
    | Paren(open_: bool)
    | Invocation(name: Text, before: Text, inside: Text, arguments: Text, after: Text)

  function TextOf(l: Lexeme): Text {
    match l
    case Spelled(s, _) => s
    case Paren(o) => if o then OPEN else CLOSE
    case Invocation(n, g, h, a, k) => n + (g + OPEN + (h + a + (k + CLOSE)))
  }

  function TokenOf(l: Lexeme): Text {
    match l
    case Spelled(_, w) => w
    case Paren(o) => if o then OPEN else CLOSE
    case Invocation(n, _, _, a, _) => n + [LPAREN] + a + [RPAREN]
  }

  /** What the loop remembers as the previous token. */
  function Trace(l: Lexeme): Text {
    match l
    case Spelled(s, _) => s
    case Paren(o) => if o then OPEN else CLOSE
    case Invocation(_, _, _, _, _) => CLOSE
  }

  predicate Clean(w: Text) {
    w != [] && NulFree(w) && w[0] !in WHITE && forall c :: c in w ==> c !in BREAKS
  }

  /** Blanks that may follow a word: a line feed would be taken into the word. */
  predicate EndsWord(gap: Text) {
    Blank(gap) && (gap == [] || gap[0] == SPACE || gap[0] == TAB)
  }

  predicate LegalWord(decode: Decoder, l: Lexeme) {
    match l
    case Spelled(s, w) => Clean(s) && decode(s) == Some(w)
    case Paren(_) => false
    case Invocation(n, g, h, a, k) =>
      Clean(n) && !StartsGroup(n) && decode(n).Some? && Clean(a) && EndsWord(g) && Blank(h) && EndsWord(k)
  }

  predicate LegalAfter(decode: Decoder, previous: Text, l: Lexeme) {
    match l
    case Paren(o) => o ==> StartsGroup(previous)
    case _ => LegalWord(decode, l)
  }

  predicate Legal(decode: Decoder, previous: Text, ls: seq<Lexeme>)
    decreases |ls|
  {
    ls == [] || (LegalAfter(decode, previous, ls[0]) && Legal(decode, Trace(ls[0]), ls[1..]))
  }

  predicate EndsInWord(previous: Text) {
    previous != [] && previous != OPEN && previous != CLOSE
  }

  /** Blanks anywhere, at least one between two words, and none that would be taken into a word. */
  predicate Spaced(previous: Text, ls: seq<Lexeme>, gaps: seq<Text>)
    requires |gaps| == |ls| + 1
    decreases |ls|
  {
    && Blank(gaps[0])
    && (EndsInWord(previous) ==> EndsWord(gaps[0]) && (ls != [] && !ls[0].Paren? ==> gaps[0] != []))
    && (ls != [] ==> Spaced(Trace(ls[0]), ls[1..], gaps[1..]))
  }

  function Rendered(ls: seq<Lexeme>, gaps: seq<Text>): Text
    requires |gaps| == |ls| + 1
  {
    if ls == [] then gaps[0] else gaps[0] + (TextOf(ls[0]) + Rendered(ls[1..], gaps[1..]))
  }

  function TokensOf(ls: seq<Lexeme>): (r: seq<Text>)
    ensures |r| == |ls|
  {
    if ls == [] then [] else [TokenOf(ls[0])] + TokensOf(ls[1..])
  }

  /** The decoder leaves the words of the syntax alone. */
  predicate Decodes(decode: Decoder) {
    decode(AND) == Some(AND) && decode(OR) == Some(OR) && decode(NOT) == Some(NOT) && decode(CLOSE) == Some(CLOSE)
  }

  // ----- cutting the spelling -----

  lemma {:induction false} SkipWhiteOnce(t: Text)
    requires NulFree(t)
    ensures NulFree(SkipWhite(t)) && SkipWhite(SkipWhite(t)) == SkipWhite(t)
    ensures Peeked(SkipWhite(t)) == SkipWhite(t)
    ensures Front(SkipWhite(t)) == NUL <==> SkipWhite(t) == []
  {
    var k := SkipWhiteIsSuffix(t);
  }

  predicate Breaks(t: Text) {
    t == [] || t[0] in BREAKS
  }

  lemma {:induction false} WordIsCut(gap: Text, w: Text, rest: Text)
    requires Blank(gap) && Clean(w) && NulFree(rest) && Breaks(rest)
    ensures TokenAt(gap + (w + rest)) == Scan(w, SkipWhite(rest))
  {
    hide SkipWhite;
    SkipWhiteRun(gap, w + rest);
    StopIsUnique(w + rest, BREAKS, |w|);
    assert (w + rest)[..|w|] == w && (w + rest)[|w|..] == rest;
  }

  lemma ParenIsCut(gap: Text, c: CodeUnit, rest: Text)
    requires Blank(gap) && (c == LPAREN || c == RPAREN)
    ensures TokenAt(gap + ([c] + rest)) == Scan([c], rest)
  {
    var t := [c] + rest;
    SkipWhiteRun(gap, t);
    StopIsUnique(t, BREAKS, 0);
    assert t[0..] == t && t[1..] == rest;
  }

  lemma {:induction false} ClosingIsCut(k: Text, rest: Text)
    requires Blank(k) && NulFree(rest)
    ensures TokenAt(SkipWhite(k + (CLOSE + rest))) == Scan(CLOSE, rest)
  {
    SkipWhiteRun(k, CLOSE + rest);
    ParenIsCut([], RPAREN, rest);
    assert [] + (CLOSE + rest) == CLOSE + rest;
  }

  /** The loop does not care whether blanks have been skipped already. */
  lemma {:induction false} SkippedFirst(decode: Decoder, t: Text, previous: Text, tokens: seq<Text>)
    requires NulFree(t) && (previous != [] ==> tokens != [])
    ensures Tokenize(decode, SkipWhite(t), previous, tokens) == Tokenize(decode, t, previous, tokens)
  {
    hide TokenAt, SkipWhite;
    SkipWhiteOnce(t);
  }

  lemma {:induction false} WordStep(decode: Decoder, gap: Text, l: Lexeme, rest: Text, previous: Text, tokens: seq<Text>)
    requires Blank(gap) && l.Spelled? && LegalWord(decode, l) && NulFree(rest) && Breaks(rest)
    requires previous != [] ==> tokens != []
    ensures Tokenize(decode, gap + (TextOf(l) + rest), previous, tokens)
         == Tokenize(decode, rest, Trace(l), tokens + [TokenOf(l)])
  {
    hide Tokenize, TokenAt, SkipWhite;
    var t := TextOf(l) + rest;
    SkipWhiteRun(gap, t);
    TokenizeStep(decode, gap + t, previous, tokens);
    WordIsCut([], l.spelling, rest);
    assert [] + t == t && PeekedNonwhite(gap + t) == t;
    assert TokenAt(t).token == l.spelling && l.spelling[0] != OPEN[0];
    SkippedFirst(decode, rest, l.spelling, tokens + [l.word]);
  }

  lemma {:induction false} ParenStep(decode: Decoder, gap: Text, l: Lexeme, rest: Text, previous: Text, tokens: seq<Text>)
    requires Decodes(decode) && Blank(gap) && l.Paren? && LegalAfter(decode, previous, l)
    requires previous != [] ==> tokens != []
    ensures Tokenize(decode, gap + (TextOf(l) + rest), previous, tokens)
         == Tokenize(decode, rest, Trace(l), tokens + [TokenOf(l)])
  {
    hide Tokenize, TokenAt, SkipWhite;
    var t := TextOf(l) + rest;
    SkipWhiteRun(gap, t);
    TokenizeStep(decode, gap + t, previous, tokens);
    ParenIsCut([], t[0], rest);
    assert [] + ([t[0]] + rest) == t;
  }

  lemma {:induction false} InvocationStep(decode: Decoder, gap: Text, l: Lexeme, rest: Text, previous: Text, tokens: seq<Text>)
    requires Blank(gap) && l.Invocation? && LegalWord(decode, l) && NulFree(rest)
    requires previous != [] ==> tokens != []
    ensures Tokenize(decode, gap + (TextOf(l) + rest), previous, tokens)
         == Tokenize(decode, rest, Trace(l), tokens + [TokenOf(l)])
  {
    hide Tokenize, TokenAt, SkipWhite;
    var name, word := Spelled(l.name, decode(l.name).value), decode(l.name).value;
    var tail := l.after + (CLOSE + rest);
    var inner := l.inside + (l.arguments + tail);
    var call := l.before + (OPEN + inner);
    assert TextOf(l) + rest == l.name + call;
    WordStep(decode, gap, name, call, previous, tokens);
    SkipWhiteRun(l.before, OPEN + inner);
    TokenizeStep(decode, call, l.name, tokens + [word]);
    ParenIsCut([], LPAREN, inner);
    assert [] + ([LPAREN] + inner) == OPEN + inner;
    WordIsCut(l.inside, l.arguments, tail);
    ClosingIsCut(l.after, rest);
    assert WithLast(tokens + [word], TokenOf(l)) == tokens + [TokenOf(l)];
  }

  /** The token of a call is the call as written, without any blanks inside it. */
  lemma TokenIsText(l: Lexeme)
    requires l.Invocation?
    ensures TokenOf(l) == TextOf(l.(before := [], inside := [], after := []))
  {
    var none: Text := [];
    assert none + OPEN + (none + l.arguments + (none + CLOSE)) == OPEN + l.arguments + CLOSE;
  }

  /** So a filter that is a call, with blanks wherever they may stand, is cut into the call without them. */
  lemma {:induction false} CallIsCut(decode: Decoder, g: Text, l: Lexeme, end: Text)
    requires Blank(g) && Blank(end) && l.Invocation? && LegalWord(decode, l)
    ensures Tokenize(decode, g + (TextOf(l) + end), [], []) == Cut([l.name + [LPAREN] + l.arguments + [RPAREN]])
  {
    hide Tokenize, TextOf;
    InvocationStep(decode, g, l, end, [], []);
    BlankIsEnd(end);
    TokenizeEnd(decode, end, CLOSE, [TokenOf(l)]);
    assert [] + [TokenOf(l)] == [TokenOf(l)];
  }

  lemma {:induction false} RenderedIsNulFree(decode: Decoder, previous: Text, ls: seq<Lexeme>, gaps: seq<Text>)
    requires |gaps| == |ls| + 1 && Legal(decode, previous, ls) && Spaced(previous, ls, gaps)
    ensures NulFree(Rendered(ls, gaps))
    ensures EndsInWord(previous) ==> Breaks(Rendered(ls, gaps))
    decreases |ls|
  {
    if ls != [] {
      LexemeIsNulFree(decode, previous, ls[0]);
      RenderedIsNulFree(decode, Trace(ls[0]), ls[1..], gaps[1..]);
      RenderedBreaks(gaps[0], TextOf(ls[0]), Rendered(ls[1..], gaps[1..]));
    }
  }

  lemma LexemeIsNulFree(decode: Decoder, previous: Text, l: Lexeme)
    requires LegalAfter(decode, previous, l)
    ensures NulFree(TextOf(l)) && TextOf(l) != [] && (l.Paren? ==> TextOf(l)[0] in BREAKS)
  {
  }

  lemma CleanEndsInWord(w: Text)
    requires Clean(w)
    ensures EndsInWord(w)
  {
    assert w[0] !in BREAKS;
  }

  lemma RenderedBreaks(gap: Text, l: Text, rest: Text)
    requires l != []
    ensures gap != [] ==> (gap + (l + rest))[0] == gap[0]
    ensures gap == [] ==> (gap + (l + rest))[0] == l[0]
  {
  }

  /** Any legal spelling is cut into the tokens it spells. */
  lemma {:induction false} RenderedIsCut(decode: Decoder, previous: Text, ls: seq<Lexeme>, gaps: seq<Text>, tokens: seq<Text>)
    requires Decodes(decode) && |gaps| == |ls| + 1 && Legal(decode, previous, ls) && Spaced(previous, ls, gaps)
    requires previous != [] ==> tokens != []
    ensures Tokenize(decode, Rendered(ls, gaps), previous, tokens) == Cut(tokens + TokensOf(ls))
    decreases |ls|
  {
    hide Tokenize, TokenAt, TextOf, TokenOf;
    RenderedIsNulFree(decode, previous, ls, gaps);
    if ls == [] {
      BlankIsEnd(gaps[0]);
      TokenizeEnd(decode, gaps[0], previous, tokens);
      assert tokens + TokensOf(ls) == tokens;
    } else {
      var l, rest := ls[0], Rendered(ls[1..], gaps[1..]);
      RenderedIsNulFree(decode, Trace(l), ls[1..], gaps[1..]);
      match l {
        case Spelled(s, _) =>
          CleanEndsInWord(s);
          WordStep(decode, gaps[0], l, rest, previous, tokens);
        case Paren(_) => ParenStep(decode, gaps[0], l, rest, previous, tokens);
        case Invocation(_, _, _, _, _) => InvocationStep(decode, gaps[0], l, rest, previous, tokens);
      }
      RenderedIsCut(decode, Trace(l), ls[1..], gaps[1..], tokens + [TokenOf(l)]);
      assert tokens + [TokenOf(l)] + TokensOf(ls[1..]) == tokens + TokensOf(ls);
    }
  }

  lemma {:induction false} BlankIsEnd(gap: Text)
    requires Blank(gap)
    ensures SkipWhite(gap) == []
  {
    var k := SkipWhiteIsSuffix(gap);
  }

  /**
   * A call without arguments: its right parenthesis is taken for the arguments, so the token after it has to be another
   * one.  If it is, it is consumed and the call becomes one with ")" for its arguments; if not, the call is refused.
   * This holds after any token that can name a function, and whatever follows.
   */
  lemma {:induction false} CallWithoutArguments(decode: Decoder, g: Text, h: Text, rest: Text, previous: Text, tokens: seq<Text>)
    requires Blank(g) && Blank(h) && !StartsGroup(previous) && tokens != []
    ensures var end := TokenAt(rest);
            Tokenize(decode, g + (OPEN + (h + (CLOSE + rest))), previous, tokens)
            == if end.token == CLOSE
               then Tokenize(decode, end.rest, CLOSE, WithLast(tokens, previous + [LPAREN, RPAREN, RPAREN]))
               else Failed(MissingRightParen)
  {
    hide Tokenize, TokenAt, SkipWhite;
    var inner := h + (CLOSE + rest);
    var t := OPEN + inner;
    SkipWhiteRun(g, t);
    TokenizeStep(decode, g + t, previous, tokens);
    ParenIsCut([], LPAREN, inner);
    assert [] + ([LPAREN] + inner) == t;
    ParenIsCut(h, RPAREN, rest);
    assert Call(previous, CLOSE) == previous + [LPAREN, RPAREN, RPAREN];
  }

  /** The token after it is a right parenthesis exactly when that is the next visible character. */
  lemma {:induction false} NextIsClose(rest: Text)
    requires NulFree(rest)
    ensures TokenAt(rest).token == CLOSE <==> Front(SkipWhite(rest)) == RPAREN
    ensures Front(SkipWhite(rest)) == RPAREN ==> TokenAt(rest).rest == SkipWhite(rest)[1..]
  {
    SkipWhiteOnce(rest);
    var s := SkipWhite(rest);
    if s != [] && s[0] !in BREAKS {
      assert Span(s, BREAKS)[0] == s[0];
      assert RPAREN in BREAKS;
    } else {
      StopIsUnique(s, BREAKS, 0);
      assert s[0..] == s;
    }
  }

  /** So "name()" alone is refused, and in "(name())" the call takes the parenthesis that closes the group. */
  lemma {:induction false} EmptyArgumentsSwallow(decode: Decoder, name: Text)
    requires Clean(name) && !StartsGroup(name) && decode(name).Some?
    ensures Tokenize(decode, name + (OPEN + CLOSE), [], []) == Failed(MissingRightParen)
    ensures Tokenize(decode, OPEN + (name + (OPEN + CLOSE + CLOSE)), [], []) == Cut([OPEN, name + [LPAREN, RPAREN, RPAREN]])
  {
    hide Tokenize, TokenAt, SkipWhite;
    var word, none: Text := decode(name).value, [];
    EmptyCallAt(decode, name, [], [], []);
    EmptyCallAt(decode, name, CLOSE, OPEN, [OPEN]);
    NothingToCut();
    ParenIsCut([], RPAREN, []);
    assert [] + ([RPAREN] + []) == CLOSE && OPEN + CLOSE + none == OPEN + CLOSE;
    var t := OPEN + (name + (OPEN + CLOSE + CLOSE));
    GroupOpens(decode, name + (OPEN + CLOSE + CLOSE));
    BlankIsEnd(none);
    var token := name + [LPAREN, RPAREN, RPAREN];
    TokenizeEnd(decode, none, CLOSE, [OPEN, token]);
    assert WithLast([OPEN] + [word], token) == [OPEN, token];
  }

  lemma {:induction false} GroupOpens(decode: Decoder, rest: Text)
    ensures Tokenize(decode, OPEN + rest, [], []) == Tokenize(decode, rest, OPEN, [OPEN])
  {
    hide Tokenize, TokenAt, SkipWhite;
    assert [] + (OPEN + rest) == OPEN + rest && [] + [OPEN] == [OPEN];
    SkipWhiteRun([], OPEN + rest);
    TokenizeStep(decode, OPEN + rest, [], []);
    ParenIsCut([], LPAREN, rest);
  }

  lemma {:induction false} EmptyCallAt(decode: Decoder, name: Text, rest: Text, previous: Text, tokens: seq<Text>)
    requires Clean(name) && !StartsGroup(name) && decode(name).Some? && NulFree(rest)
    requires previous != [] ==> tokens != []
    ensures var end := TokenAt(rest);
            Tokenize(decode, name + (OPEN + CLOSE + rest), previous, tokens)
            == if end.token == CLOSE
               then Tokenize(decode, end.rest, CLOSE, WithLast(tokens + [decode(name).value], name + [LPAREN, RPAREN, RPAREN]))
               else Failed(MissingRightParen)
  {
    hide Tokenize, TokenAt, SkipWhite;
    var word, call := decode(name).value, OPEN + CLOSE + rest;
    assert name + call == [] + (name + call);
    WordStep(decode, [], Spelled(name, word), call, previous, tokens);
    assert call == [] + (OPEN + ([] + (CLOSE + rest)));
    CallWithoutArguments(decode, [], [], rest, name, tokens + [word]);
  }

  lemma NothingToCut()
    ensures TokenAt([]) == Scan([], [])
  {
  }

  // ----- spelling an expression -----

  type Speller = Text -> Lexeme

  function Lexemes(spell: Speller, e: Exp): seq<Lexeme> {
    match e
    case Operand(w) => [spell(w)]
    case Compare(w, _, sign, right) => [spell(w), spell(sign), spell(right)]
    case Not(a) => [Spelled(NOT, NOT)] + Lexemes(spell, a)
    case Group(a) => [Paren(true)] + Lexemes(spell, a) + [Paren(false)]
    case And(l, r) => Lexemes(spell, l) + [Spelled(AND, AND)] + Lexemes(spell, r)
    case Or(l, r) => Lexemes(spell, l) + [Spelled(OR, OR)] + Lexemes(spell, r)
  }

  predicate Spells(decode: Decoder, spell: Speller, w: Text) {
    LegalWord(decode, spell(w)) && TokenOf(spell(w)) == w
  }

  /** Every word of the expression has a legal spelling. */
  predicate SpellsAll(decode: Decoder, spell: Speller, e: Exp) {
    match e
    case Operand(w) => Spells(decode, spell, w)
    case Compare(w, _, sign, right) => Spells(decode, spell, w) && Spells(decode, spell, sign) && Spells(decode, spell, right)
    case Not(a) => SpellsAll(decode, spell, a)
    case Group(a) => SpellsAll(decode, spell, a)
    case And(l, r) => SpellsAll(decode, spell, l) && SpellsAll(decode, spell, r)
    case Or(l, r) => SpellsAll(decode, spell, l) && SpellsAll(decode, spell, r)
  }

  lemma {:induction false} TokensOfAppend(a: seq<Lexeme>, b: seq<Lexeme>)
    ensures TokensOf(a + b) == TokensOf(a) + TokensOf(b)
  {
    if a == [] {
      assert a + b == b;
    } else {
      assert (a + b)[1..] == a[1..] + b;
      TokensOfAppend(a[1..], b);
    }
  }

  function LastTrace(previous: Text, ls: seq<Lexeme>): Text {
    if ls == [] then previous else Trace(ls[|ls| - 1])
  }

  lemma {:induction false} LegalAppend(decode: Decoder, previous: Text, a: seq<Lexeme>, b: seq<Lexeme>)
    requires Legal(decode, previous, a) && Legal(decode, LastTrace(previous, a), b)
    ensures Legal(decode, previous, a + b)
    decreases |a|
  {
    if a == [] {
      assert a + b == b;
    } else {
      assert (a + b)[1..] == a[1..] + b;
      LegalAppend(decode, Trace(a[0]), a[1..], b);
    }
  }

  lemma Keywords()
    ensures Clean(AND) && Clean(OR) && Clean(NOT)
  {
  }

  /** One lexeme between two legal stretches. */
  lemma {:induction false} LegalJoin(decode: Decoder, previous: Text, a: seq<Lexeme>, l: Lexeme, b: seq<Lexeme>)
    requires Legal(decode, previous, a) && LegalAfter(decode, LastTrace(previous, a), l) && Legal(decode, Trace(l), b)
    ensures Legal(decode, previous, a + [l] + b)
  {
    LegalAppend(decode, previous, a, [l]);
    LegalAppend(decode, previous, a + [l], b);
  }

  lemma {:induction false} LexemesAreLegal(decode: Decoder, spell: Speller, e: Exp, previous: Text)
    requires Decodes(decode) && SpellsAll(decode, spell, e) && StartsGroup(previous)
    ensures Legal(decode, previous, Lexemes(spell, e))
    ensures TokensOf(Lexemes(spell, e)) == Tokens(e)
    decreases e
  {
    hide LegalWord, StartsGroup;
    LegalKeywords(decode);
    match e
    case Operand(w) =>
      WordsAreNoParens(decode, spell(w));
    case Compare(w, _, sign, right) =>
      WordsAreNoParens(decode, spell(w));
      WordsAreNoParens(decode, spell(sign));
      WordsAreNoParens(decode, spell(right));
      LegalJoin(decode, previous, [spell(w)], spell(sign), [spell(right)]);
      TokensJoin([spell(w)], spell(sign), [spell(right)]);
      assert [spell(w)] + [spell(sign)] + [spell(right)] == Lexemes(spell, e);
      assert [w] + [sign] + [right] == Tokens(e);
    case Not(a) =>
      LexemesAreLegal(decode, spell, a, NOT);
    case Group(a) =>
      LexemesAreLegal(decode, spell, a, OPEN);
      LegalJoin(decode, previous, [], Paren(true), Lexemes(spell, a));
      assert [] + [Paren(true)] + Lexemes(spell, a) == [Paren(true)] + Lexemes(spell, a);
      LegalJoin(decode, previous, [Paren(true)] + Lexemes(spell, a), Paren(false), []);
      assert [Paren(true)] + Lexemes(spell, a) + [Paren(false)] + [] == Lexemes(spell, e);
      TokensOfAppend([Paren(true)] + Lexemes(spell, a), [Paren(false)]);
    case And(l, r) =>
      LexemesAreLegal(decode, spell, l, previous);
      LexemesAreLegal(decode, spell, r, AND);
      LegalJoin(decode, previous, Lexemes(spell, l), Spelled(AND, AND), Lexemes(spell, r));
      TokensJoin(Lexemes(spell, l), Spelled(AND, AND), Lexemes(spell, r));
    case Or(l, r) =>
      LexemesAreLegal(decode, spell, l, previous);
      LexemesAreLegal(decode, spell, r, OR);
      LegalJoin(decode, previous, Lexemes(spell, l), Spelled(OR, OR), Lexemes(spell, r));
      TokensJoin(Lexemes(spell, l), Spelled(OR, OR), Lexemes(spell, r));
  }

  lemma WordsAreNoParens(decode: Decoder, l: Lexeme)
    requires LegalWord(decode, l)
    ensures !l.Paren?
  {
  }

  lemma LegalKeywords(decode: Decoder)
    requires Decodes(decode)
    ensures LegalWord(decode, Spelled(AND, AND)) && LegalWord(decode, Spelled(OR, OR)) && LegalWord(decode, Spelled(NOT, NOT))
    ensures StartsGroup(AND) && StartsGroup(OR) && StartsGroup(NOT) && StartsGroup(OPEN)
  {
    Keywords();
  }

  lemma {:induction false} TokensJoin(a: seq<Lexeme>, l: Lexeme, b: seq<Lexeme>)
    ensures TokensOf(a + [l] + b) == TokensOf(a) + [TokenOf(l)] + TokensOf(b)
  {
    TokensOfAppend(a + [l], b);
    TokensOfAppend(a, [l]);
  }

  lemma {:induction false} ParenthesizedIsSpelled(decode: Decoder, spell: Speller, e: Exp)
    requires SpellsAll(decode, spell, e)
    ensures SpellsAll(decode, spell, Parenthesized(e))
  {
    hide Spells;
    match e
    case Operand(_) =>
    case Compare(_, _, _, _) =>
    case Not(a) => ParenthesizedIsSpelled(decode, spell, a);
    case Group(a) => ParenthesizedIsSpelled(decode, spell, a);
    case And(l, r) =>
      ParenthesizedIsSpelled(decode, spell, l);
      ParenthesizedIsSpelled(decode, spell, r);
    case Or(l, r) =>
      ParenthesizedIsSpelled(decode, spell, l);
      ParenthesizedIsSpelled(decode, spell, r);
  }

  /** Text of an expression: its parentheses added, every token spelled, blanks between. */
  function Spelling(spell: Speller, e: Exp, gaps: seq<Text>): Text
    requires |gaps| == |Lexemes(spell, Parenthesized(e))| + 1
  {
    Rendered(Lexemes(spell, Parenthesized(e)), gaps)
  }

  /** A single space around every token is always a legal spacing. */
  lemma SingleSpaces(previous: Text, ls: seq<Lexeme>)
    ensures Spaced(previous, ls, seq(|ls| + 1, i => [SPACE]))
    decreases |ls|
  {
    if ls != [] {
      SingleSpaces(Trace(ls[0]), ls[1..]);
      assert seq(|ls| + 1, i => [SPACE])[1..] == seq(|ls[1..]| + 1, i => [SPACE]);
    }
  }

  /** Filters, end to end: spelling any expression, cutting the text and evaluating the tokens gives its meaning. */
  lemma {:induction false} FilterMeansExpression(
      num: Filters.Numbers, c: Filters.Candidate, decode: Decoder, spell: Speller, e: Exp, gaps: seq<Text>)
    requires Writable(e) && Total(c) && AllNumeric(num, OrderedSides(e))
    requires Decodes(decode) && SpellsAll(decode, spell, e)
    requires var ls := Lexemes(spell, Parenthesized(e)); |gaps| == |ls| + 1 && Spaced([], ls, gaps)
    ensures var out := Tokenize(decode, Spelling(spell, e, gaps), [], []);
            && out.Cut?
            && Filters.ExprAt(num, c, out.tokens, 0) == Filters.Value(Some(Meaning(num, c, e)), |out.tokens|)
  {
    var p := Parenthesized(e);
    ParenthesizedIsSpelled(decode, spell, e);
    LexemesAreLegal(decode, spell, p, []);
    RenderedIsCut(decode, [], Lexemes(spell, p), gaps, []);
    assert [] + TokensOf(Lexemes(spell, p)) == Tokens(p);
    WrittenMeansMeaning(num, c, e);
  }
}
