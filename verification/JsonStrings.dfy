/** JSON string literals: escaping, unescaping and finding the closing quote (section 7 of RFC 8259). */
module JsonStrings {
  import opened CodeUnits
  import opened DataTree
  import opened Reader

  // ----- what the generator writes -----

  function HexDigit(n: int): CodeUnit
    requires 0 <= n < 16
  {
    if n < 10 then ZERO + n else 0x61 + (n - 10)
  }

  function EscapeUnit(c: CodeUnit): Text {
    if c < 0x10 then [BACKSLASH, 0x75, ZERO, ZERO, ZERO, HexDigit(c)]
    else if c < 0x20 then [BACKSLASH, 0x75, ZERO, ZERO, HexDigit(c / 16), HexDigit(c % 16)]
    else if c == BACKSLASH || c == QUOTE then [BACKSLASH, c]
    else [c]
  }

  function Escape(s: Text): Text {
    if s == [] then [] else EscapeUnit(s[0]) + Escape(s[1..])
  }

  lemma {:induction false} EscapeAppend(a: Text, b: Text)
    ensures Escape(a + b) == Escape(a) + Escape(b)
  {
    if a == [] {
      assert a + b == b;
    } else {
      assert (a + b)[1..] == a[1..] + b;
      EscapeAppend(a[1..], b);
    }
  }

  method EscapeText(input: Text) returns (out: Text)
    ensures out == Escape(input)
  {
    out := [];
    assert input[..|input|] == input;
    for i := 0 to |input|
      invariant out == Escape(input[..i])
    {
      var c := input[i];
      assert input[..i + 1] == input[..i] + [c];
      EscapeAppend(input[..i], [c]);
      assert Escape([c]) == EscapeUnit(c) + Escape([]);
      if c < 0x10 {
        out := out + [BACKSLASH, 0x75, ZERO, ZERO, ZERO] + [HexDigit(c)];
      } else if c < 0x20 {
        out := out + [BACKSLASH, 0x75, ZERO, ZERO] + [HexDigit(c / 16), HexDigit(c % 16)];
      } else if c == BACKSLASH || c == QUOTE {
        out := out + [BACKSLASH] + [c];
      } else {
        out := out + [c];
      }
    }
  }

  // ----- what the parser makes of it -----

  function HexValue(c: CodeUnit): Option<nat> {
    if ZERO <= c <= ZERO + 9 then Some(c - ZERO)
    else if 0x61 <= c <= 0x66 then Some(c - 0x61 + 10)
    else if 0x41 <= c <= 0x46 then Some(c - 0x41 + 10)
    else None
  }

  function HexNumber(t: Text): Option<nat> {
    if t == [] then Some(0)
    else
      var high, low := HexNumber(t[..|t| - 1]), HexValue(t[|t| - 1]);
      if high.Some? && low.Some? then Some(16 * high.value + low.value) else None
  }

  /** `(char) Integer.parseInt(hex, 16)`: a sign is accepted, and a negative number wraps to 16 bits. */
  function HexUnit(hex: Text): Option<CodeUnit>
    requires |hex| == 4
  {
    var signed := hex[0] == MINUS || hex[0] == PLUS;
    match HexNumber(if signed then hex[1..] else hex)
    case Some(n) => Some((if hex[0] == MINUS then -(n as int) else n) % 0x1_0000)
    case None => None
  }

  function SimpleEscape(c: CodeUnit): Option<CodeUnit> {
    if c == BACKSLASH || c == QUOTE || c == SLASH then Some(c)
    else if c == 0x62 then Some(0x08)
    else if c == 0x66 then Some(FF)
    else if c == 0x6E then Some(LF)
    else if c == 0x72 then Some(CR)
    else if c == 0x74 then Some(TAB)
    else None
  }

  /** The first unit of an escaped text and the number of units it takes, if it is well formed. */
  function UnescapeUnit(s: Text): (r: Option<(CodeUnit, nat)>)
    requires s != []
    ensures r.Some? ==> 0 < r.value.1 <= |s|
  {
    if s[0] != BACKSLASH then Some((s[0], 1))
    else if |s| == 1 then None
    else if s[1] == 0x75 then
      if |s| < 6 then None
      else
        match HexUnit(s[2..6])
        case Some(c) => Some((c, 6))
        case None => None
    else
      match SimpleEscape(s[1])
      case Some(c) => Some((c, 2))
      case None => None
  }

  /** `unescape`; `None` stands for the complaint. */
  function Unescape(s: Text): Option<Text> {
    if s == [] then Some([])
    else
      match UnescapeUnit(s)
      case None => None
      case Some(unit) =>
        Prefixed([unit.0], Unescape(s[unit.1..]))
  }

  function Prefixed(out: Text, rest: Option<Text>): Option<Text> {
    if rest.None? then None else Some(out + rest.value)
  }

  lemma PrefixedAppend(a: Text, b: Text, rest: Option<Text>)
    ensures Prefixed([], rest) == rest
    ensures Prefixed(a + b, rest) == Prefixed(a, Prefixed(b, rest))
  {
    if rest.Some? {
      assert [] + rest.value == rest.value;
      assert a + b + rest.value == a + (b + rest.value);
    }
  }

  method UnescapeText(input: Text) returns (out: Option<Text>)
    ensures out == Unescape(input)
  {
    var built: Text := [];
    var i := 0;
    assert input[0..] == input;
    PrefixedAppend([], [], Unescape(input));
    while i < |input|
      invariant 0 <= i <= |input|
      invariant Unescape(input) == Prefixed(built, Unescape(input[i..]))
    {
      ghost var at := i;
      var c := input[i];
      if c == BACKSLASH {
        i := i + 1;
        if i >= |input| {
          return None;
        }
        if input[i] == 0x75 {
          if i + 5 > |input| {
            return None;
          }
          assert input[at..][2..6] == input[i + 1..i + 5];
          var unit := HexUnit(input[i + 1..i + 5]);
          if unit.None? {
            return None;
          }
          c := unit.value;
          i := i + 4;
        } else {
          var unit := SimpleEscape(input[i]);
          if unit.None? {
            return None;
          }
          c := unit.value;
        }
      }
      i := i + 1;
      assert UnescapeUnit(input[at..]) == Some((c, i - at));
      assert input[at..][i - at..] == input[i..];
      PrefixedAppend(built, [c], Unescape(input[i..]));
      built := built + [c];
    }
    assert input[i..] == [] && built + [] == built;
    out := Some(built);
  }

  // ----- escaping and unescaping undo each other -----

  lemma HexNumberOfPair(a: int, b: int, t: Text)
    requires 0 <= a < 16 && 0 <= b < 16
    requires t == [ZERO, ZERO, HexDigit(a), HexDigit(b)]
    ensures HexUnit(t) == Some(16 * a + b)
  {
    var t3, t2, t1 := t[..3], t[..3][..2], t[..3][..2][..1];
    assert t1[..0] == [];
    assert HexNumber(t1) == Some(0) && HexNumber(t2) == Some(0) && HexNumber(t3) == Some(a);
  }

  lemma UnescapeEscapedUnit(c: CodeUnit, rest: Text)
    ensures UnescapeUnit(EscapeUnit(c) + rest) == Some((c, |EscapeUnit(c)|))
  {
    var t := EscapeUnit(c) + rest;
    if c < 0x20 {
      assert t[2..6] == [ZERO, ZERO, HexDigit(c / 16), HexDigit(c % 16)];
      HexNumberOfPair(c / 16, c % 16, t[2..6]);
    }
  }

  /** Unescaping an escaped text gives the text back, whatever its code units. */
  lemma {:induction false} UnescapeEscape(s: Text)
    ensures Unescape(Escape(s)) == Some(s)
  {
    if s != [] {
      UnescapeEscapedUnit(s[0], Escape(s[1..]));
      UnescapeEscape(s[1..]);
      assert Escape(s)[|EscapeUnit(s[0])|..] == Escape(s[1..]);
      assert Escape(s) == EscapeUnit(s[0]) + Escape(s[1..]) && [s[0]] + s[1..] == s;
    }
  }

  /** What is written holds no control characters, and nothing that closes the string early. */
  lemma {:induction false} EscapedIsPrintable(s: Text)
    ensures forall c :: c in Escape(s) ==> c >= 0x20
    ensures forall i :: 0 <= i < |Escape(s)| && Escape(s)[i] == QUOTE ==> i > 0 && Escape(s)[i - 1] == BACKSLASH
  {
    if s != [] {
      EscapedIsPrintable(s[1..]);
    }
  }

  // ----- every spelling of a character -----

  /** The digit of that value, in either case. */
  predicate IsHexDigit(d: CodeUnit, value: int) {
    0 <= value < 16 && (d == Ascii("0123456789abcdef")[value] || d == Ascii("0123456789ABCDEF")[value])
  }

  ghost predicate IsHex3(t: Text, n: int)
    requires |t| == 3
  {
    exists a, b, c: int :: IsHexDigit(t[0], a) && IsHexDigit(t[1], b) && IsHexDigit(t[2], c) && n == 0x100 * a + 0x10 * b + c
  }

  /** The spellings of section 7 of RFC 8259 for a character inside a string. */
  ghost predicate Spells(t: Text, c: CodeUnit) {
    || (t == [c] && c != BACKSLASH)
    || (|t| == 2 && t[0] == BACKSLASH
        && (t[1], c) in {(QUOTE, QUOTE), (BACKSLASH, BACKSLASH), (SLASH, SLASH),
                         (0x62, 0x08), (0x66, 0x0C), (0x6E, 0x0A), (0x72, 0x0D), (0x74, 0x09)})
    || (|t| == 6 && t[0] == BACKSLASH && t[1] == 0x75
        && exists a, n: int :: IsHexDigit(t[2], a) && IsHex3(t[3..], n) && c == 0x1000 * a + n)
  }

  /** Three hexadecimal digits after a sign, which are taken too. */
  ghost predicate SpellsSigned(t: Text, c: CodeUnit) {
    && |t| == 6 && t[0] == BACKSLASH && t[1] == 0x75
    && exists n: int :: IsHex3(t[3..], n) && if t[2] == MINUS then c == (-n) % 0x1_0000 else t[2] == PLUS && c == n
  }

  lemma HexDigitReads(d: CodeUnit)
    ensures forall v: int :: IsHexDigit(d, v) <==> HexValue(d) == Some(v)
  {
    var lower, upper := Ascii("0123456789abcdef"), Ascii("0123456789ABCDEF");
    assert forall v: int :: 0 <= v < 10 ==> lower[v] == ZERO + v && upper[v] == ZERO + v;
    assert forall v: int :: 10 <= v < 16 ==> lower[v] == 0x61 + v - 10 && upper[v] == 0x41 + v - 10;
  }

  lemma {:induction false} HexNumberOne(t: Text)
    requires t != []
    ensures var high, low := HexNumber(t[..|t| - 1]), HexValue(t[|t| - 1]);
            HexNumber(t) == if high.Some? && low.Some? then Some(16 * high.value + low.value) else None
  {
  }

  lemma {:induction false} HexNumber3(t: Text)
    requires |t| == 3
    ensures var a, b, c := HexValue(t[0]), HexValue(t[1]), HexValue(t[2]);
            HexNumber(t) == if a.Some? && b.Some? && c.Some? then Some(0x100 * a.value + 0x10 * b.value + c.value) else None
  {
    hide HexValue;
    HexNumberOne(t);
    HexNumberOne(t[..2]);
    HexNumberOne(t[..2][..1]);
    assert t[..2][..1][..0] == [];
  }

  lemma {:induction false} Hex3Reads(t: Text)
    requires |t| == 3
    ensures forall n: int :: IsHex3(t, n) <==> HexNumber(t) == Some(n)
  {
    hide HexValue, IsHexDigit;
    HexDigitReads(t[0]);
    HexDigitReads(t[1]);
    HexDigitReads(t[2]);
    HexNumber3(t);
    forall n: int
      ensures IsHex3(t, n) <==> HexNumber(t) == Some(n)
    {
      if HexNumber(t) == Some(n) {
        var a, b, c := HexValue(t[0]).value, HexValue(t[1]).value, HexValue(t[2]).value;
        assert IsHexDigit(t[0], a) && IsHexDigit(t[1], b) && IsHexDigit(t[2], c);
      }
    }
  }

  lemma {:induction false} HexNumber4(t: Text)
    requires |t| == 4
    ensures var a, n := HexValue(t[0]), HexNumber(t[1..]);
            HexNumber(t) == if a.Some? && n.Some? then Some(0x1000 * a.value + n.value) else None
  {
    hide HexValue;
    HexNumber3(t[1..]);
    HexNumber3(t[..3]);
    HexNumberOne(t);
  }

  lemma {:induction false} Hex4Reads(t: Text)
    requires |t| == 4
    ensures forall m: int :: (exists a, n: int :: IsHexDigit(t[0], a) && IsHex3(t[1..], n) && m == 0x1000 * a + n)
                             <==> HexNumber(t) == Some(m)
    ensures HexNumber(t).Some? ==> HexNumber(t).value < 0x1_0000
  {
    hide HexValue, IsHexDigit, IsHex3, HexNumber;
    HexDigitReads(t[0]);
    Hex3Reads(t[1..]);
    HexNumber4(t);
    if HexNumber(t).Some? {
      HexBounds(t[0], HexValue(t[0]).value, t[1..], HexNumber(t[1..]).value);
    }
    forall m: int
      ensures (exists a, n: int :: IsHexDigit(t[0], a) && IsHex3(t[1..], n) && m == 0x1000 * a + n)
              <==> HexNumber(t) == Some(m)
    {
      if HexNumber(t) == Some(m) {
        assert IsHexDigit(t[0], HexValue(t[0]).value) && IsHex3(t[1..], HexNumber(t[1..]).value);
      }
    }
  }

  lemma HexBounds(d: CodeUnit, a: int, t: Text, n: int)
    requires |t| == 3
    ensures IsHexDigit(d, a) ==> 0 <= a < 16
    ensures IsHex3(t, n) ==> 0 <= n < 0x1000
  {
  }

  /** Exactly the spellings of a character, standing in front of anything, are read as that character. */
  lemma UnitIsSpelled(t: Text, rest: Text, c: CodeUnit)
    requires t != []
    ensures UnescapeUnit(t + rest) == Some((c, |t|)) <==> Spells(t, c) || SpellsSigned(t, c)
  {
    hide HexNumber, IsHex3, IsHexDigit;
    var u := t + rest;
    assert u[0] == t[0] && (|t| > 1 ==> u[1] == t[1]);
    if |t| == 6 && t[0] == BACKSLASH && t[1] == 0x75 {
      assert u[2..6] == t[2..];
      HexIsSpelled(t, c);
    }
  }

  lemma HexIsSpelled(t: Text, c: CodeUnit)
    requires |t| == 6 && t[0] == BACKSLASH && t[1] == 0x75
    ensures HexUnit(t[2..]) == Some(c) <==> Spells(t, c) || SpellsSigned(t, c)
  {
    hide HexNumber, IsHex3, IsHexDigit;
    var hex := t[2..];
    assert hex[1..] == t[3..];
    Hex4Reads(hex);
    Hex3Reads(t[3..]);
    if HexNumber(t[3..]).Some? {
      HexBounds(t[2], 0, t[3..], HexNumber(t[3..]).value);
    }
    if t[2] == PLUS || t[2] == MINUS {
      SignIsNoDigit(t[2]);
    }
  }

  lemma SignIsNoDigit(d: CodeUnit)
    requires d == PLUS || d == MINUS
    ensures forall v: int :: !IsHexDigit(d, v)
  {
    HexDigitReads(d);
  }

  function Joined(ts: seq<Text>): Text {
    if ts == [] then [] else ts[0] + Joined(ts[1..])
  }

  ghost predicate SpellsAll(ts: seq<Text>, s: Text) {
    |ts| == |s| && forall i :: 0 <= i < |ts| ==> Spells(ts[i], s[i]) || SpellsSigned(ts[i], s[i])
  }

  /** Any spelling of a text, character by character, is read as the text. */
  lemma {:induction false} SpellingIsRead(ts: seq<Text>, s: Text)
    requires SpellsAll(ts, s)
    ensures Unescape(Joined(ts)) == Some(s)
    decreases |ts|
  {
    hide Spells, SpellsSigned, UnescapeUnit;
    if ts != [] {
      var rest := Joined(ts[1..]);
      SpelledIsSome(ts[0], s[0]);
      UnitIsSpelled(ts[0], rest, s[0]);
      assert forall i :: 0 <= i < |ts[1..]| ==> ts[1..][i] == ts[i + 1] && s[1..][i] == s[i + 1];
      SpellingIsRead(ts[1..], s[1..]);
      assert (ts[0] + rest)[|ts[0]|..] == rest && [s[0]] + s[1..] == s;
    }
  }

  lemma SpelledIsSome(t: Text, c: CodeUnit)
    requires Spells(t, c) || SpellsSigned(t, c)
    ensures t != []
  {
  }

  /** And whatever is read was such a spelling. */
  lemma {:induction false} ReadingIsSpelled(u: Text) returns (ts: seq<Text>)
    requires Unescape(u).Some?
    ensures Joined(ts) == u && SpellsAll(ts, Unescape(u).value)
    decreases |u|
  {
    hide Spells, SpellsSigned, UnescapeUnit;
    ts := [];
    if u != [] {
      var (c, n) := UnescapeUnit(u).value;
      assert u[..n] + u[n..] == u;
      UnitIsSpelled(u[..n], u[n..], c);
      var rest := ReadingIsSpelled(u[n..]);
      ts := [u[..n]] + rest;
      assert ts[1..] == rest;
      var s, more := Unescape(u).value, Unescape(u[n..]).value;
      assert s == [c] + more;
      forall i | 0 <= i < |ts|
        ensures Spells(ts[i], s[i]) || SpellsSigned(ts[i], s[i])
      {
        assert i > 0 ==> ts[i] == rest[i - 1] && s[i] == more[i - 1];
      }
    }
  }

  // ----- quoted strings -----

  function Before(raw: Text, body: (Text, Text)): (Text, Text) {
    (raw + body.0, body.1)
  }

  lemma BeforeAppend(a: Text, b: Text, body: (Text, Text))
    ensures Before([], body) == body
    ensures Before(a + b, body) == Before(a, Before(b, body))
  {
    assert [] + body.0 == body.0;
    assert a + b + body.0 == a + (b + body.0);
  }

  /** The raw body of a quoted string and what follows it: the scanner looks one character past a backslash only. */
  function QuotedBody(t: Text): (r: (Text, Text))
    ensures |r.0| + |r.1| <= |t|
    decreases |t|
  {
    if Front(t) == NUL then ([], Peeked(t))
    else if t[0] == QUOTE then ([], t)
    else if t[0] == BACKSLASH then
      if Front(t[1..]) == QUOTE then Before([BACKSLASH, QUOTE], QuotedBody(t[2..]))
      else Before([BACKSLASH], QuotedBody(Peeked(t[1..])))
    else Before([t[0]], QuotedBody(t[1..]))
  }

  datatype Result<+T> = Ok(value: T, rest: Text) | Fail(error: Error)

  datatype Error = Unexpected | BadEscape | BadName | InconsistentBase | NotModelled

  /** `consumeDoubleQuoted`. */
  function DoubleQuoted(t: Text): (r: Result<Text>)
    ensures r.Ok? ==> |r.rest| + 1 < |t|
  {
    var t0 := SkipWhite(t);
    if !Expects(t0, QUOTE) then Fail(Unexpected)
    else
      var body := QuotedBody(Expected(t0));
      if !Expects(body.1, QUOTE) then Fail(Unexpected)
      else
        match Unescape(body.0)
        case Some(s) => Ok(s, Expected(body.1))
        case None => Fail(BadEscape)
  }

  function QuotedText(s: Text): Text {
    [QUOTE] + Escape(s) + [QUOTE]
  }

  predicate IsPlain(c: CodeUnit) {
    c != NUL && c != QUOTE && c != BACKSLASH
  }

  lemma {:induction false} BodyOfPlainRun(run: Text, u: Text)
    requires forall i :: 0 <= i < |run| ==> IsPlain(run[i])
    ensures QuotedBody(run + u) == Before(run, QuotedBody(u))
  {
    if run == [] {
      assert run + u == u;
      BeforeAppend([], [], QuotedBody(u));
    } else {
      var t := run + u;
      assert t[0] == run[0] && t[1..] == run[1..] + u;
      BodyOfPlainRun(run[1..], u);
      BeforeAppend([run[0]], run[1..], QuotedBody(u));
      assert run == [run[0]] + run[1..];
    }
  }

  lemma {:induction false} BodyOfControl(c: CodeUnit, u: Text)
    requires c < 0x20
    ensures QuotedBody(EscapeUnit(c) + u) == Before(EscapeUnit(c), QuotedBody(u))
  {
    var e := EscapeUnit(c);
    var t := e + u;
    assert t[0] == BACKSLASH && t[1..] == e[1..] + u && t[1] == 0x75;
    BodyOfPlainRun(e[1..], u);
    BeforeAppend([BACKSLASH], e[1..], QuotedBody(u));
    assert e == [BACKSLASH] + e[1..];
  }

  lemma {:induction false} BodyOfBackslash(u: Text)
    requires Front(u) != QUOTE && Front(u) != NUL
    ensures QuotedBody([BACKSLASH, BACKSLASH] + u) == Before([BACKSLASH, BACKSLASH], QuotedBody(u))
  {
    var t := [BACKSLASH, BACKSLASH] + u;
    assert t[1..] == [BACKSLASH] + u;
    assert t[1..][1..] == u;
    BeforeAppend([BACKSLASH], [BACKSLASH], QuotedBody(u));
    assert [BACKSLASH] + [BACKSLASH] == [BACKSLASH, BACKSLASH];
  }

  /** One escaped unit passes through the scanner unchanged, unless it is a backslash that a quote follows. */
  lemma {:induction false} BodyOfUnit(c: CodeUnit, u: Text)
    requires c == BACKSLASH ==> Front(u) != QUOTE && Front(u) != NUL
    ensures QuotedBody(EscapeUnit(c) + u) == Before(EscapeUnit(c), QuotedBody(u))
  {
    if c < 0x20 {
      BodyOfControl(c, u);
    } else if c == QUOTE {
      assert ([BACKSLASH, QUOTE] + u)[2..] == u;
    } else if c == BACKSLASH {
      BodyOfBackslash(u);
    } else {
      BodyOfPlainRun([c], u);
    }
  }

  lemma {:induction false} EscapedStartsPlainly(s: Text)
    requires s != []
    ensures Escape(s) != [] && Escape(s)[0] != QUOTE && Escape(s)[0] != NUL
  {
  }

  /** The scanner passes over an escaped text, up to a final backslash. */
  lemma {:induction false} BodyOfEscaped(s: Text, u: Text)
    requires EndsWith(s, BACKSLASH) ==> Front(u) != QUOTE && Front(u) != NUL
    ensures QuotedBody(Escape(s) + u) == Before(Escape(s), QuotedBody(u))
  {
    if s == [] {
      assert Escape(s) + u == u;
      BeforeAppend([], [], QuotedBody(u));
    } else {
      var more := Escape(s[1..]) + u;
      if s[1..] != [] {
        EscapedStartsPlainly(s[1..]);
        assert s[1..][|s[1..]| - 1] == s[|s| - 1];
      }
      BodyOfEscaped(s[1..], u);
      BodyOfUnit(s[0], more);
      BeforeAppend(EscapeUnit(s[0]), Escape(s[1..]), QuotedBody(u));
      assert Escape(s) + u == EscapeUnit(s[0]) + more;
    }
  }

  /** What the reader makes of a string, given its body. */
  function Closed(body: (Text, Text)): Result<Text> {
    if !Expects(body.1, QUOTE) then Fail(Unexpected)
    else
      match Unescape(body.0)
      case Some(s) => Ok(s, Expected(body.1))
      case None => Fail(BadEscape)
  }

  lemma {:induction false} QuoteOpens(t: Text)
    ensures DoubleQuoted([QUOTE] + t) == Closed(QuotedBody(t))
  {
    assert SkipWhite([QUOTE] + t) == [QUOTE] + t;
    assert ([QUOTE] + t)[1..] == t;
  }

  lemma {:induction false} QuoteCloses(raw: Text, rest: Text)
    ensures Closed(Before(raw, QuotedBody([QUOTE] + rest)))
         == match Unescape(raw)
            case Some(s) => Ok(s, rest)
            case None => Fail(BadEscape)
  {
    assert raw + [] == raw;
    assert ([QUOTE] + rest)[1..] == rest;
  }

  lemma {:induction false} QuotedTextThen(s: Text, rest: Text)
    ensures QuotedText(s) + rest == [QUOTE] + (Escape(s) + ([QUOTE] + rest))
  {
  }

  /** A text that does not end in a backslash is read back from its quoted form, whatever follows the quote. */
  lemma QuotedTextReadsBack(s: Text, rest: Text)
    requires !EndsWith(s, BACKSLASH)
    ensures DoubleQuoted(QuotedText(s) + rest) == Ok(s, rest)
  {
    QuotedTextThen(s, rest);
    QuoteOpens(Escape(s) + ([QUOTE] + rest));
    BodyOfEscaped(s, [QUOTE] + rest);
    QuoteCloses(Escape(s), rest);
    UnescapeEscape(s);
  }

  /** A final backslash makes the scanner swallow the closing quote, so the reader ends up past it or fails. */
  lemma FinalBackslashSwallowsQuote(s: Text, rest: Text)
    requires EndsWith(s, BACKSLASH)
    ensures var r := DoubleQuoted(QuotedText(s) + rest);
            r.Ok? ==> |r.rest| < |rest|
  {
    var init := s[..|s| - 1];
    var u := [BACKSLASH, QUOTE] + rest;
    assert s == init + [BACKSLASH];
    EscapeAppend(init, [BACKSLASH]);
    assert Escape([BACKSLASH]) == [BACKSLASH, BACKSLASH] + Escape([]);
    QuotedTextThen(s, rest);
    assert Escape(s) + ([QUOTE] + rest) == Escape(init) + ([BACKSLASH] + u);
    QuoteOpens(Escape(init) + ([BACKSLASH] + u));
    BodyOfEscaped(init, [BACKSLASH] + u);
    assert ([BACKSLASH] + u)[1..] == u && u[2..] == rest;
    assert QuotedBody([BACKSLASH] + u).1 == QuotedBody(u).1 == QuotedBody(rest).1;
    if Expects(QuotedBody(rest).1, QUOTE) {
      ExpectedIsShorter(QuotedBody(rest).1, QUOTE);
    }
  }

  lemma ExpectedIsShorter(t: Text, c: CodeUnit)
    requires Expects(t, c) && c != NUL
    ensures |Expected(t)| < |t|
  {
  }

  /**
   * Reading a quoted text back is exact - the same text, stopping right after its closing quote - precisely for
   * the texts that do not end in a backslash.
   */
  lemma QuotedTextExact(s: Text, rest: Text)
    ensures DoubleQuoted(QuotedText(s) + rest) == Ok(s, rest) <==> !EndsWith(s, BACKSLASH)
  {
    if EndsWith(s, BACKSLASH) {
      FinalBackslashSwallowsQuote(s, rest);
    } else {
      QuotedTextReadsBack(s, rest);
    }
  }
}
