/**
 * Parsing JSON text into items (marshallers/JSONParser.java), with no parser options set.
 *
 * `ObjectFrom` and its companions say, on the unread text, what each consuming method returns and leaves; the class
 * below is the stateful parser, proved to do exactly that.
 */
module JsonParsing {
  import opened CodeUnits
  import opened DataTree
  import opened Decimals
  import opened ChildNames
  import opened Reader
  import opened JsonStrings

  const ANONYMOUS: Text := Ascii(".anonymous")
  const CSML: Text := Ascii(".csml")
  const VALUE: Text := Ascii("$value")
  const NAME: Text := Ascii("$name")
  const BASE: Text := Ascii("$base")
  const DEFAULT_LOCALE: Text := Ascii("$$defaultLocale")
  const COMMENT: Text := Ascii("$$org.ampii.comment")

  /** Where an unquoted value ends. */
  const UNQUOTED_END: Text := [SPACE, TAB, CR, LF, COMMA, RBRACE, RBRACKET, COLON]

  /** What a member name makes the parser do.  `Other` covers the forms that are not modelled. */
  datatype Role = TheValue | TheName | TheBase | TheLocale | TheComment | Plain | Other

  function RoleOf(name: Text): Role {
    if name == VALUE then TheValue
    else if name == NAME then TheName
    else if name == BASE then TheBase
    else if name == DEFAULT_LOCALE then TheLocale
    else if name == COMMENT then TheComment
    else if ContainsDoubleDollar(name) then Other
    else Plain
  }

  function Fresh(name: Text): Node {
    Node(name, Poly, None, [])
  }

  /** Adding a parsed member: a child is first given an available name, metadata keeps its own. */
  function AddMember(info: Node, member: Node): Option<Node> {
    if IsMetadata(member.name) then Some(info.(subs := AddLocal(info.subs, member)))
    else
      match NextAvailableChildName(info, member.name)
      case Some(name) => Some(info.(subs := AddLocal(info.subs, member.(name := name))))
      case None => None
  }

  /** The check at the end of an object: a ".csml" wrapper has to be a Collection. */
  function Finish(info: Node): Option<Node> {
    if info.name != CSML then Some(info)
    else if info.base == Poly then Some(info.(base := Collection))
    else if info.base == Collection then Some(info)
    else None
  }

  function QuotedFrom(t: Text): (r: Result<Text>)
    ensures r.Ok? ==> |r.rest| + 1 < |t|
  {
    DoubleQuoted(PeekedNonwhite(t))
  }

  function PrimitiveFrom(t: Text): (r: Result<Text>)
    ensures r.Ok? ==> |r.rest| <= |t|
  {
    var t1 := PeekedNonwhite(t);
    if Front(SkipWhite(t)) == QUOTE then DoubleQuoted(t1)
    else
      var t2 := PeekedNonwhite(t1);
      Ok(Span(t2, UNQUOTED_END), AfterSpan(t2, UNQUOTED_END))
  }

  function ObjectFrom(t: Text, name: Text): (r: Result<Node>)
    ensures r.Ok? ==> |r.rest| < |t|
    decreases |t|, 0
  {
    if !Expects(t, LBRACE) then Fail(Unexpected)
    else
      var t1 := Expected(t);
      assert |t1| < |t| by { ExpectedIsShorter(t, LBRACE); }
      var members := if Front(SkipWhite(t1)) == RBRACE then Ok(Fresh(name), PeekedNonwhite(t1))
                     else MembersFrom(PeekedNonwhite(t1), Fresh(name));
      match members
      case Fail(e) => Fail(e)
      case Ok(info, t2) =>
        if !Expects(t2, RBRACE) then Fail(Unexpected)
        else
          match Finish(info)
          case Some(done) => Ok(done, Expected(t2))
          case None => Fail(InconsistentBase)
  }

  function MembersFrom(t: Text, info: Node): (r: Result<Node>)
    ensures r.Ok? ==> |r.rest| < |t|
    decreases |t|, 3
  {
    match QuotedFrom(t)
    case Fail(e) => Fail(e)
    case Ok(name, t1) =>
      if !Expects(t1, COLON) then Fail(Unexpected)
      else
        match ValueFrom(Expected(t1), info, name)
        case Fail(e) => Fail(e)
        case Ok(more, t2) =>
          if Front(SkipWhite(t2)) != COMMA then Ok(more, PeekedNonwhite(t2))
          else
            var t3 := PeekedNonwhite(t2);
            if !Expects(t3, COMMA) then Fail(Unexpected) else MembersFrom(Expected(t3), more)
  }

  /** Everything after the colon of one member. */
  function ValueFrom(t: Text, info: Node, name: Text): (r: Result<Node>)
    ensures r.Ok? ==> |r.rest| <= |t|
    decreases |t|, 2
  {
    match RoleOf(name)
    case TheValue =>
      (match PrimitiveFrom(t)
       case Ok(v, rest) => Ok(info.(value := Some(v)), rest)
       case Fail(e) => Fail(e))
    case TheName =>
      (match PrimitiveFrom(t)
       case Ok(v, rest) => Ok(info.(name := v), rest)
       case Fail(e) => Fail(e))
    case TheBase =>
      (match PrimitiveFrom(t)
       case Ok(v, rest) => Ok(info.(base := BaseFromString(v)), rest)
       case Fail(e) => Fail(e))
    case TheLocale =>
      (match PrimitiveFrom(t)
       case Ok(_, rest) => Ok(info, rest)
       case Fail(e) => Fail(e))
    case TheComment =>
      var t1 := PeekedNonwhite(t);
      if Front(SkipWhite(t)) == LBRACE then
        match ObjectFrom(t1, name)
        case Ok(_, rest) => Ok(info, rest)
        case Fail(e) => Fail(e)
      else
        (match PrimitiveFrom(t1)
         case Ok(_, rest) => Ok(info, rest)
         case Fail(e) => Fail(e))
    case Other => Fail(NotModelled)
    case Plain =>
      (match MemberFrom(t, name)
       case Fail(e) => Fail(e)
       case Ok(member, rest) =>
         match AddMember(info, member)
         case Some(more) => Ok(more, rest)
         case None => Fail(BadName))
  }

  function MemberFrom(t: Text, name: Text): (r: Result<Node>)
    ensures r.Ok? ==> |r.rest| <= |t|
    decreases |t|, 1
  {
    var t1 := PeekedNonwhite(t);
    if Front(SkipWhite(t)) == LBRACKET then ArrayFrom(t1, name)
    else
      var t2 := PeekedNonwhite(t1);
      if Front(SkipWhite(t1)) == LBRACE then ObjectFrom(t2, name)
      else
        match PrimitiveFrom(t2)
        case Ok(v, rest) => Ok(Node(name, Poly, Some(v), []), rest)
        case Fail(e) => Fail(e)
  }

  function ArrayFrom(t: Text, name: Text): (r: Result<Node>)
    ensures r.Ok? ==> |r.rest| < |t|
    decreases |t|, 0
  {
    if !Expects(t, LBRACKET) then Fail(Unexpected)
    else
      var t1 := Expected(t);
      assert |t1| < |t| by { ExpectedIsShorter(t, LBRACKET); }
      var elements := if Front(SkipWhite(t1)) == RBRACKET then Ok(Fresh(name), PeekedNonwhite(t1))
                      else ElementsFrom(PeekedNonwhite(t1), Fresh(name), 1);
      match elements
      case Fail(e) => Fail(e)
      case Ok(info, t2) => if Expects(t2, RBRACKET) then Ok(info, Expected(t2)) else Fail(Unexpected)
  }

  function ElementsFrom(t: Text, info: Node, i: nat): (r: Result<Node>)
    ensures r.Ok? ==> |r.rest| <= |t|
    decreases |t|, 2
  {
    match MemberFrom(t, ToString(i))
    case Fail(e) => Fail(e)
    case Ok(member, t1) =>
      var more := info.(subs := AddLocal(info.subs, member));
      if Front(SkipWhite(t1)) != COMMA then Ok(more, PeekedNonwhite(t1))
      else
        var t2 := PeekedNonwhite(t1);
        if !Expects(t2, COMMA) then Fail(Unexpected)
        else
          assert |Expected(t2)| < |t2| by { ExpectedIsShorter(t2, COMMA); }
          ElementsFrom(Expected(t2), more, i + 1)
  }

  /** `parse`. */
  function Parse(t: Text): Result<Node> {
    ObjectFrom(t, ANONYMOUS)
  }

  /** What a consuming method hands to its caller: a value, or the exception it throws. */
  datatype Outcome<+T> = Done(value: T) | Thrown(error: Error)

  /** The method delivered what the function on texts says: the same value and rest, or the same complaint. */
  predicate Delivers<T(==)>(out: Outcome<T>, remaining: Text, spec: Result<T>) {
    match spec
    case Ok(v, rest) => out == Done(v) && remaining == rest
    case Fail(e) => out == Thrown(e)
  }

  class JsonParser {
    const reader: Parser

    ghost predicate Valid()
      reads reader
    {
      reader.Valid()
    }

    ghost function Remaining(): Text
      requires Valid()
      reads reader
    {
      reader.Remaining()
    }

    constructor (text: Text)
      ensures Valid() && Remaining() == text && fresh(reader)
    {
      reader := new Parser(text);
    }

    method ParseText() returns (out: Outcome<Node>)
      requires Valid()
      modifies reader
      ensures Valid() && Delivers(out, Remaining(), Parse(old(Remaining())))
    {
      out := ConsumeObject(ANONYMOUS);
    }

    method ConsumeDoubleQuoted() returns (out: Outcome<Text>)
      requires Valid()
      modifies reader
      ensures Valid() && Delivers(out, Remaining(), DoubleQuoted(old(Remaining())))
    {
      reader.SkipWhitespace();
      var ok := reader.Expect(QUOTE);
      if !ok {
        return Thrown(Unexpected);
      }
      var raw := ConsumeQuotedBody();
      ok := reader.Expect(QUOTE);
      if !ok {
        return Thrown(Unexpected);
      }
      var text := UnescapeText(raw);
      out := if text.Some? then Done(text.value) else Thrown(BadEscape);
    }

    /** The scan for the closing quote. */
    method ConsumeQuotedBody() returns (result: Text)
      requires Valid()
      modifies reader
      ensures Valid() && (result, Remaining()) == QuotedBody(old(Remaining()))
    {
      result := [];
      ghost var goal := QuotedBody(Remaining());
      BeforeAppend([], [], goal);
      while true
        invariant Valid()
        invariant goal == Before(result, QuotedBody(Remaining()))
        decreases |Remaining()|
      {
        ghost var before := result;
        var next := reader.PeekNext();
        if next == NUL || next == QUOTE {
          assert result + [] == result;
          break;
        }
        var step := ConsumeQuotedUnit();
        result := result + step;
        BeforeAppend(before, step, QuotedBody(Remaining()));
      }
    }

    /** One turn of that scan: a character, with the quote that follows a backslash. */
    method ConsumeQuotedUnit() returns (step: Text)
      requires Valid()
      requires Front(Remaining()) != NUL && Front(Remaining()) != QUOTE
      modifies reader
      ensures Valid() && |Remaining()| < |old(Remaining())|
      ensures QuotedBody(old(Remaining())) == Before(step, QuotedBody(Remaining()))
    {
      var c := reader.Consume();
      step := [c];
      if c == BACKSLASH {
        var next := reader.PeekNext();
        if next == QUOTE {
          var q := reader.Consume();
          step := step + [q];
          assert step == [BACKSLASH, QUOTE] && old(Remaining())[1..][1..] == old(Remaining())[2..];
        }
      }
    }

    method ConsumeQuoted() returns (out: Outcome<Text>)
      requires Valid()
      modifies reader
      ensures Valid() && Delivers(out, Remaining(), QuotedFrom(old(Remaining())))
    {
      var _ := reader.PeekNextNonwhite(); // an apostrophe would matter only with the single-quotes option
      out := ConsumeDoubleQuoted();
    }

    method ConsumePrimitiveValue() returns (out: Outcome<Text>)
      requires Valid()
      modifies reader
      ensures Valid() && Delivers(out, Remaining(), PrimitiveFrom(old(Remaining())))
    {
      var next := reader.PeekNextNonwhite();
      if next == QUOTE {
        out := ConsumeDoubleQuoted();
      } else {
        var _ := reader.PeekNextNonwhite(); // an apostrophe would matter only with the single-quotes option
        var text := reader.ConsumeUntil(UNQUOTED_END);
        out := Done(text);
      }
    }

    method ConsumeObject(name: Text) returns (out: Outcome<Node>)
      requires Valid()
      modifies reader
      ensures Valid() && Delivers(out, Remaining(), ObjectFrom(old(Remaining()), name))
      decreases |Remaining()|, 0
    {
      var ok := reader.Expect(LBRACE);
      if !ok {
        return Thrown(Unexpected);
      }
      ExpectedIsShorter(old(Remaining()), LBRACE);
      var info := Fresh(name);
      var next := reader.PeekNextNonwhite();
      if next != RBRACE {
        out := ConsumeMembers(info);
        if out.Thrown? {
          return;
        }
        info := out.value;
      }
      ok := reader.Expect(RBRACE);
      if !ok {
        return Thrown(Unexpected);
      }
      var done := Finish(info);
      out := if done.Some? then Done(done.value) else Thrown(InconsistentBase);
    }

    /** The member loop of an object. */
    method ConsumeMembers(start: Node) returns (out: Outcome<Node>)
      requires Valid()
      modifies reader
      ensures Valid() && Delivers(out, Remaining(), MembersFrom(old(Remaining()), start))
      decreases |Remaining()|, 3
    {
      var info := start;
      ghost var first := Remaining();
      while true
        invariant Valid()
        invariant |Remaining()| <= |first|
        invariant MembersFrom(Remaining(), info) == MembersFrom(first, start)
        decreases |Remaining()|
      {
        var name := ConsumeQuoted();
        if name.Thrown? {
          return Thrown(name.error);
        }
        var ok := reader.Expect(COLON);
        if !ok {
          return Thrown(Unexpected);
        }
        out := ConsumeValue(info, name.value);
        if out.Thrown? {
          return;
        }
        info := out.value;
        var next := reader.PeekNextNonwhite();
        if next != COMMA {
          return;
        }
        ok := reader.Expect(COMMA);
        if !ok {
          return Thrown(Unexpected);
        }
      }
    }

    method ConsumeValue(info: Node, name: Text) returns (out: Outcome<Node>)
      requires Valid()
      modifies reader
      ensures Valid() && Delivers(out, Remaining(), ValueFrom(old(Remaining()), info, name))
      decreases |Remaining()|, 2
    {
      match RoleOf(name)
      case TheValue =>
        var v := ConsumePrimitiveValue();
        out := if v.Done? then Done(info.(value := Some(v.value))) else Thrown(v.error);
      case TheName =>
        var v := ConsumePrimitiveValue();
        out := if v.Done? then Done(info.(name := v.value)) else Thrown(v.error);
      case TheBase =>
        var v := ConsumePrimitiveValue();
        out := if v.Done? then Done(info.(base := BaseFromString(v.value))) else Thrown(v.error);
      case TheLocale =>
        var v := ConsumePrimitiveValue();
        out := if v.Done? then Done(info) else Thrown(v.error);
      case TheComment =>
        var next := reader.PeekNextNonwhite();
        if next == LBRACE {
          var ignored := ConsumeObject(name);
          out := if ignored.Done? then Done(info) else Thrown(ignored.error);
        } else {
          var v := ConsumePrimitiveValue();
          out := if v.Done? then Done(info) else Thrown(v.error);
        }
      case Other =>
        out := Thrown(NotModelled);
      case Plain =>
        var member := ConsumeMember(name);
        if member.Thrown? {
          return Thrown(member.error);
        }
        var more := AddMember(info, member.value);
        out := if more.Some? then Done(more.value) else Thrown(BadName);
    }

    method ConsumeMember(name: Text) returns (out: Outcome<Node>)
      requires Valid()
      modifies reader
      ensures Valid() && Delivers(out, Remaining(), MemberFrom(old(Remaining()), name))
      decreases |Remaining()|, 1
    {
      var next := reader.PeekNextNonwhite();
      if next == LBRACKET {
        out := ConsumeArray(name);
        return;
      }
      next := reader.PeekNextNonwhite();
      if next == LBRACE {
        out := ConsumeObject(name);
      } else {
        var v := ConsumePrimitiveValue();
        out := if v.Done? then Done(Node(name, Poly, Some(v.value), [])) else Thrown(v.error);
      }
    }

    method ConsumeArray(name: Text) returns (out: Outcome<Node>)
      requires Valid()
      modifies reader
      ensures Valid() && Delivers(out, Remaining(), ArrayFrom(old(Remaining()), name))
      decreases |Remaining()|, 0
    {
      var ok := reader.Expect(LBRACKET);
      if !ok {
        return Thrown(Unexpected);
      }
      ExpectedIsShorter(old(Remaining()), LBRACKET);
      var info := Fresh(name);
      var next := reader.PeekNextNonwhite();
      if next != RBRACKET {
        out := ConsumeElements(info);
        if out.Thrown? {
          return;
        }
        info := out.value;
      }
      ok := reader.Expect(RBRACKET);
      out := if ok then Done(info) else Thrown(Unexpected);
    }

    /** The element loop of an array. */
    method ConsumeElements(start: Node) returns (out: Outcome<Node>)
      requires Valid()
      modifies reader
      ensures Valid() && Delivers(out, Remaining(), ElementsFrom(old(Remaining()), start, 1))
      decreases |Remaining()|, 2
    {
      var info := start;
      var i := 1;
      ghost var first := Remaining();
      while true
        invariant Valid()
        invariant |Remaining()| <= |first| && 1 <= i
        invariant ElementsFrom(Remaining(), info, i) == ElementsFrom(first, start, 1)
        decreases |Remaining()|
      {
        var member := ConsumeMember(ToString(i));
        if member.Thrown? {
          return Thrown(member.error);
        }
        info := info.(subs := AddLocal(info.subs, member.value));
        var next := reader.PeekNextNonwhite();
        if next != COMMA {
          return Done(info);
        }
        ghost var t2 := Remaining();
        var ok := reader.Expect(COMMA);
        if !ok {
          return Thrown(Unexpected);
        }
        ExpectedIsShorter(t2, COMMA);
        i := i + 1;
      }
    }
  }
}
