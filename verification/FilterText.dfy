/**
 * Cutting a 'filter' query parameter into tokens (data/Context.java, parseFilterString and getToken).
 *
 * `Tokenize` is what the loop does to the text still unread; `Context` is the loop itself.  Every expression, spelled
 * out with any blanks between its tokens, is cut back into those tokens, and so has its Boolean meaning.
 */
module FilterText {
  import opened CodeUnits
  import opened DataTree
  import opened Reader
  import Filters
  import opened FilterMeaning

  /** `URLDecoder.decode`; `None` where it throws. */
  type Decoder = Text -> Option<Text>

  const BREAKS: Text := [SPACE, TAB, LPAREN, RPAREN]
  const OPEN: Text := [LPAREN]
  const CLOSE: Text := [RPAREN]

  datatype Scan = Scan(token: Text, rest: Text)

  /** What `getToken` returns and leaves: a word, or one parenthesis, or nothing at the end. */
  function TokenAt(t: Text): (r: Scan)
    ensures |r.token| + |r.rest| <= |t|
    ensures Front(t) != NUL ==> |r.rest| < |t|
  {
    var s := SkipWhite(t);
    var word, after := Span(s, BREAKS), SkipWhite(AfterSpan(s, BREAKS));
    if word != [] then Scan(word, after)
    else
      var once := PeekedNonwhite(after);
      if Front(SkipWhite(after)) == LPAREN then Scan([LPAREN], Rest(once))
      else
        var twice := PeekedNonwhite(once);
        if Front(SkipWhite(once)) == RPAREN then Scan([RPAREN], Rest(twice)) else Scan([], twice)
  }

  datatype Failure = MissingRightParen | BadEncoding

  datatype Cut = Cut(tokens: seq<Text>) | Failed(failure: Failure)

  /** A left parenthesis here groups; after anything else it opens the arguments of the function just named. */
  predicate StartsGroup(previous: Text) {
    previous == [] || previous == OPEN || previous == AND || previous == OR || previous == NOT
  }

  function Call(name: Text, arguments: Text): Text {
    name + OPEN + arguments + CLOSE
  }

  function WithLast(tokens: seq<Text>, token: Text): seq<Text>
    requires tokens != []
  {
    tokens[..|tokens| - 1] + [token]
  }

  /** The loop of `parseFilterString`, with the raw token before and the tokens so far. */
  function Tokenize(decode: Decoder, t: Text, previous: Text, tokens: seq<Text>): Cut
    requires previous != [] ==> tokens != []
    decreases |t|
  {
    if Front(SkipWhite(t)) == NUL then Cut(tokens)
    else
      var s := TokenAt(PeekedNonwhite(t));
      if s.token == OPEN then
        if StartsGroup(previous) then Tokenize(decode, s.rest, OPEN, tokens + [OPEN])
        else
          var arguments := TokenAt(s.rest);
          var end := TokenAt(arguments.rest);
          if end.token != CLOSE then Failed(MissingRightParen)
          else Tokenize(decode, end.rest, CLOSE, WithLast(tokens, Call(previous, arguments.token)))
      else
        match decode(s.token)
        case None => Failed(BadEncoding)
        case Some(word) => Tokenize(decode, s.rest, s.token, tokens + [word])
  }

  /** The part of a query context that cuts the filter string. */
  class Context {
    const decode: Decoder

    constructor (decode: Decoder)
      ensures this.decode == decode
    {
      this.decode := decode;
    }

    method GetToken(parser: Parser) returns (token: Text)
      requires parser.Valid()
      modifies parser
      ensures parser.Valid()
      ensures var s := TokenAt(old(parser.Remaining())); token == s.token && parser.Remaining() == s.rest
    {
      hide SkipWhite, Stop;
      parser.SkipWhitespace();
      token := parser.ConsumeUntil(BREAKS);
      parser.SkipWhitespace();
      if |token| == 0 {
        var c := parser.PeekNextNonwhite();
        var paren := c == LPAREN;
        if !paren {
          c := parser.PeekNextNonwhite();
          paren := c == RPAREN;
        }
        if paren {
          c := parser.Consume();
          token := [c];
        }
      }
    }

    method ParseFilterString(filter: Text) returns (out: Cut)
      ensures out == Tokenize(decode, filter, [], [])
    {
      hide TokenAt, Tokenize;
      var tokens: seq<Text> := [];
      var parser := new Parser(filter);
      var previousToken: Text := [];
      var c := parser.PeekNextNonwhite();
      ghost var t := filter;
      while c != NUL
        invariant parser.Valid() && fresh(parser)
        invariant c == Front(SkipWhite(t)) && parser.Remaining() == PeekedNonwhite(t)
        invariant previousToken != [] ==> tokens != []
        invariant Tokenize(decode, t, previousToken, tokens) == Tokenize(decode, filter, [], [])
        decreases |t|
      {
        TokenizeStep(decode, t, previousToken, tokens);
        var token := GetToken(parser);
        t := parser.Remaining();
        if token == OPEN {
          if StartsGroup(previousToken) {
            tokens := tokens + [OPEN];
            previousToken := OPEN;
          } else {
            var arguments := GetToken(parser);
            var endParen := GetToken(parser);
            if endParen != CLOSE {
              return Failed(MissingRightParen);
            }
            tokens := WithLast(tokens, Call(previousToken, arguments));
            previousToken := CLOSE;
            t := parser.Remaining();
          }
        } else {
          var decoded := decode(token);
          if decoded.None? {
            return Failed(BadEncoding);
          }
          tokens := tokens + [decoded.value];
          previousToken := token;
        }
        c := parser.PeekNextNonwhite();
      }
      TokenizeEnd(decode, t, previousToken, tokens);
      out := Cut(tokens);
    }
  }

  lemma {:induction false} TokenizeEnd(decode: Decoder, t: Text, previous: Text, tokens: seq<Text>)
    requires previous != [] ==> tokens != []
    requires Front(SkipWhite(t)) == NUL
    ensures Tokenize(decode, t, previous, tokens) == Cut(tokens)
  {
  }

  /** One round of the loop. */
  lemma {:induction false} TokenizeStep(decode: Decoder, t: Text, previous: Text, tokens: seq<Text>)
    requires previous != [] ==> tokens != []
    requires Front(SkipWhite(t)) != NUL
    ensures var s, r := TokenAt(PeekedNonwhite(t)), Tokenize(decode, t, previous, tokens);
            && |s.rest| < |t|
            && if s.token == OPEN then
                 if StartsGroup(previous) then r == Tokenize(decode, s.rest, OPEN, tokens + [OPEN])
                 else
                   var arguments := TokenAt(s.rest);
                   var end := TokenAt(arguments.rest);
                   && |end.rest| < |t|
                   && r == if end.token != CLOSE then Failed(MissingRightParen)
                           else Tokenize(decode, end.rest, CLOSE, WithLast(tokens, Call(previous, arguments.token)))
               else
                 match decode(s.token)
                 case None => r == Failed(BadEncoding)
                 case Some(word) => r == Tokenize(decode, s.rest, s.token, tokens + [word])
  {
  }
}
