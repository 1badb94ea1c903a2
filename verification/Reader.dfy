/**
 * The one-character-lookahead reader under every parser (marshallers/Parser.java).
 *
 * What a parser can still read is a text: the pushed-back character, if any, followed by the unread input.  The
 * functions below say what each operation returns and leaves of that text; NUL doubles as "no pushed-back
 * character", so a NUL in the input reads as an end of input once and is then lost.
 */
module Reader {
  import opened CodeUnits

  const WHITE: set<CodeUnit> := {SPACE, TAB, CR, LF, FF}

  /** The next character, or NUL at the end. */
  function Front(t: Text): CodeUnit {
    if t == [] then NUL else t[0]
  }

  /** What `consume` leaves. */
  function Rest(t: Text): (r: Text)
    ensures |r| <= |t| && (t != [] ==> |r| < |t|)
  {
    if t == [] then [] else t[1..]
  }

  /** What `peekNext` leaves: looking at a NUL drops it. */
  function Peeked(t: Text): (r: Text)
    ensures |r| <= |t|
  {
    if t != [] && t[0] == NUL then t[1..] else t
  }

  /** What `skipWhitespace` leaves. */
  function SkipWhite(t: Text): (r: Text)
    ensures |r| <= |t|
  {
    if Front(t) in WHITE then SkipWhite(t[1..]) else Peeked(t)
  }

  /** What `peekNextNonwhite` leaves; the character it returns is `Front(SkipWhite(t))`. */
  function PeekedNonwhite(t: Text): (r: Text)
    ensures |r| <= |t|
  {
    Peeked(SkipWhite(t))
  }

  /** What `expect` leaves, whether or not the character it found was the expected one. */
  function Expected(t: Text): (r: Text)
    ensures |r| <= |t|
  {
    Rest(SkipWhite(t))
  }

  predicate Expects(t: Text, c: CodeUnit) {
    Front(SkipWhite(t)) == c
  }

  /** How far `consumeUntil` reads. */
  function Stop(t: Text, delimiters: Text): (n: nat)
    ensures n <= |t|
    ensures forall i :: 0 <= i < n ==> t[i] != NUL && t[i] !in delimiters
    ensures n < |t| ==> t[n] == NUL || t[n] in delimiters
  {
    if t == [] || t[0] == NUL || t[0] in delimiters then 0 else 1 + Stop(t[1..], delimiters)
  }

  function Span(t: Text, delimiters: Text): (r: Text)
    ensures |r| <= |t|
  {
    t[..Stop(t, delimiters)]
  }

  function AfterSpan(t: Text, delimiters: Text): (r: Text)
    ensures |r| + |Span(t, delimiters)| <= |t|
  {
    Peeked(t[Stop(t, delimiters)..])
  }

  /** The end of the longest delimiter-free prefix is the only place `consumeUntil` can stop. */
  lemma {:induction false} StopIsUnique(t: Text, delimiters: Text, n: nat)
    requires n <= |t|
    requires forall i :: 0 <= i < n ==> t[i] != NUL && t[i] !in delimiters
    requires n < |t| ==> t[n] == NUL || t[n] in delimiters
    ensures Stop(t, delimiters) == n
  {
  }

  lemma SkipWhiteIsSuffix(t: Text) returns (k: nat)
    requires NulFree(t)
    ensures k <= |t| && SkipWhite(t) == t[k..] && Front(SkipWhite(t)) !in WHITE
  {
    if Front(t) in WHITE {
      var j := SkipWhiteIsSuffix(t[1..]);
      k := j + 1;
    } else {
      k := 0;
    }
  }

  /** A run of whitespace before a visible character is skipped, and nothing more. */
  lemma {:induction false} SkipWhiteRun(gap: Text, t: Text)
    requires forall c :: c in gap ==> c in WHITE
    requires t != [] && t[0] !in WHITE && t[0] != NUL
    ensures SkipWhite(gap + t) == t
  {
    if gap == [] {
      assert gap + t == t;
    } else {
      assert (gap + t)[1..] == gap[1..] + t;
      SkipWhiteRun(gap[1..], t);
    }
  }

  /** Blanks are spaces, tabs, carriage returns, line feeds and form feeds; everything else but NUL is looked at. */
  lemma {:induction false} BlanksAreSkipped(c: CodeUnit, t: Text)
    requires c != NUL
    ensures SkipWhite([c] + t) == if c in {0x20, 0x09, 0x0D, 0x0A, 0x0C} then SkipWhite(t) else [c] + t
  {
    assert ([c] + t)[1..] == t;
  }

  /** The operations a parser can ask for. */
  datatype Op = Peek | PeekNonwhite | Skip | Consume | Expect(c: CodeUnit) | Until(delimiters: Text)

  /** What one operation leaves unread. */
  function After(op: Op, t: Text): Text {
    match op
    case Peek => Peeked(t)
    case PeekNonwhite => PeekedNonwhite(t)
    case Skip => SkipWhite(t)
    case Consume => Rest(t)
    case Expect(_) => Expected(t)
    case Until(ds) => AfterSpan(t, ds)
  }

  /** What one operation hands out: the character consumed, the text up to a delimiter, or nothing. */
  function Given(op: Op, t: Text): Text {
    match op
    case Consume => t[..|t| - |Rest(t)|]
    case Expect(_) => SkipWhite(t)[..|SkipWhite(t)| - |Expected(t)|]
    case Until(ds) => Span(t, ds)
    case _ => []
  }

  /** The blanks one operation passes over. */
  function Passed(op: Op, t: Text): Text {
    if SkipsBlanks(op) then t[..|t| - |SkipWhite(t)|] else []
  }

  function AfterAll(ops: seq<Op>, t: Text): Text {
    if ops == [] then t else AfterAll(ops[1..], After(ops[0], t))
  }

  /** The blanks each operation of a run passes over. */
  function PassedBy(ops: seq<Op>, t: Text): (gaps: seq<Text>)
    ensures |gaps| == |ops|
  {
    if ops == [] then [] else [Passed(ops[0], t)] + PassedBy(ops[1..], After(ops[0], t))
  }

  /** The pieces each operation of a run hands out. */
  function GivenBy(ops: seq<Op>, t: Text): (pieces: seq<Text>)
    ensures |pieces| == |ops|
  {
    if ops == [] then [] else [Given(ops[0], t)] + GivenBy(ops[1..], After(ops[0], t))
  }

  function Interleaved(gaps: seq<Text>, pieces: seq<Text>): Text
    requires |gaps| == |pieces|
  {
    if gaps == [] then [] else gaps[0] + pieces[0] + Interleaved(gaps[1..], pieces[1..])
  }

  predicate SkipsBlanks(op: Op) {
    op.PeekNonwhite? || op.Skip? || op.Expect?
  }

  predicate Blank(t: Text) {
    forall c :: c in t ==> c in WHITE
  }

  lemma {:induction false} SkipWhiteSplits(t: Text)
    requires NulFree(t)
    ensures var n := |t| - |SkipWhite(t)|;
            n <= |t| && SkipWhite(t) == t[n..] && (forall i :: 0 <= i < n ==> t[i] in WHITE)
            && Front(SkipWhite(t)) !in WHITE
    decreases |t|
  {
    if Front(t) in WHITE {
      SkipWhiteSplits(t[1..]);
      var n := |t| - |SkipWhite(t)|;
      assert t[1..][n - 1..] == t[n..];
      forall i | 0 <= i < n
        ensures t[i] in WHITE
      {
        if i > 0 {
          assert t[1..][i - 1] == t[i];
        }
      }
    }
  }

  /**
   * One operation takes blanks off the front of the unread text, and then exactly what it hands out: the first
   * character or none at the end, the first visible one, or the text up to a delimiter.
   */
  lemma {:induction false} OneOperation(op: Op, t: Text)
    requires NulFree(t)
    ensures t == Passed(op, t) + Given(op, t) + After(op, t)
    ensures NulFree(After(op, t)) && Blank(Passed(op, t))
    ensures op.Consume? ==> Given(op, t) == if t == [] then [] else [Front(t)]
    ensures op.Expect? ==> Given(op, t) == if SkipWhite(t) == [] then [] else [Front(SkipWhite(t))]
  {
    hide SkipWhite, Stop, Given, Passed;
    if SkipsBlanks(op) {
      SkippingOperation(op, t);
    } else {
      PlainOperation(op, t);
    }
  }

  lemma {:induction false} SkippingOperation(op: Op, t: Text)
    requires NulFree(t) && SkipsBlanks(op)
    ensures var s := SkipWhite(t);
            && NulFree(s) && t == Passed(op, t) + s && Blank(Passed(op, t))
            && (op.Expect? ==> Given(op, t) == (if s == [] then [] else [Front(s)]) && s == Given(op, t) + After(op, t))
            && (!op.Expect? ==> Given(op, t) == [] && After(op, t) == s)
  {
    hide SkipWhite;
    SkipWhiteSplits(t);
    SplitsAt(t, |t| - |SkipWhite(t)|);
    if SkipWhite(t) != [] {
      SplitsAt(SkipWhite(t), 1);
    }
  }

  lemma PlainOperation(op: Op, t: Text)
    requires NulFree(t) && !SkipsBlanks(op)
    ensures Passed(op, t) == [] && t == Given(op, t) + After(op, t) && NulFree(After(op, t))
    ensures op.Consume? ==> Given(op, t) == if t == [] then [] else [Front(t)]
  {
    hide SkipWhite, Stop;
    if op.Consume? && t != [] {
      SplitsAt(t, 1);
    } else if op.Until? {
      SplitsAt(t, Stop(t, op.delimiters));
    }
  }

  lemma SplitsAt(t: Text, n: nat)
    requires n <= |t|
    ensures t == t[..n] + t[n..] && (NulFree(t) ==> NulFree(t[n..]))
  {
  }

  /**
   * On input without NUL, any run of operations reads the input in order: the pieces handed out one after another, with
   * only blanks between them and only where an operation skips them, and then what is left, make up the whole text.
   * Nothing is lost, repeated or reordered.
   */
  lemma {:induction false} NothingIsLost(ops: seq<Op>, t: Text)
    requires NulFree(t)
    ensures t == Interleaved(PassedBy(ops, t), GivenBy(ops, t)) + AfterAll(ops, t)
    ensures forall i :: 0 <= i < |ops| ==>
              Blank(PassedBy(ops, t)[i]) && (!SkipsBlanks(ops[i]) ==> PassedBy(ops, t)[i] == [])
    decreases |ops|
  {
    hide Given, After, Blank;
    if ops != [] {
      var op, rest, left := ops[0], ops[1..], After(ops[0], t);
      OneOperation(op, t);
      NothingIsLost(rest, left);
      var gaps, pieces := PassedBy(ops, t), GivenBy(ops, t);
      assert gaps[1..] == PassedBy(rest, left) && pieces[1..] == GivenBy(rest, left);
      Regroup(Passed(op, t) + Given(op, t), Interleaved(PassedBy(rest, left), GivenBy(rest, left)), AfterAll(ops, t));
    }
  }

  lemma Regroup(a: Text, b: Text, c: Text)
    ensures a + (b + c) == a + b + c
  {
  }

  /** The line a position is on: one more than the line feeds before it. */
  function LineAfter(t: Text): int {
    if t == [] then 1 else LineAfter(t[..|t| - 1]) + if t[|t| - 1] == LF then 1 else 0
  }

  /** The column a position is at: one more than the characters since the last line feed. */
  function ColumnAfter(t: Text): int {
    if t == [] || t[|t| - 1] == LF then 1 else ColumnAfter(t[..|t| - 1]) + 1
  }

  /** A character read and pushed back leaves the text as it was, but for a NUL. */
  lemma PushedBack(before: Text, unread: Text)
    requires unread == Rest(before)
    ensures (if Front(before) == NUL then [] else [Front(before)]) + unread == Peeked(before)
  {
  }

  /** The character at a position, when what is before it has been read. */
  lemma FrontAt(t: Text, n: nat)
    requires n <= |t|
    ensures n < |t| ==> Front(t[n..]) == t[n] && Rest(t[n..]) == t[n + 1..] && t[..n + 1] == t[..n] + [t[n]]
    ensures Front(t[n..]) != NUL ==> n < |t| && Peeked(t[n..]) == t[n..]
  {
  }

  class Parser {
    const input: Text
    var position: nat
    var nextChar: CodeUnit
    var line: int
    var column: int

    ghost predicate Valid()
      reads this
    {
      && position <= |input|
      && line == LineAfter(input[..position])
      && column == ColumnAfter(input[..position])
    }

    ghost function Remaining(): Text
      reads this
      requires Valid()
    {
      (if nextChar == NUL then [] else [nextChar]) + input[position..]
    }

    constructor (text: Text)
      ensures Valid() && input == text && Remaining() == text
    {
      input := text;
      position, nextChar, line, column := 0, NUL, 1, 1;
      new;
      assert input[..0] == [];
    }

    method Consume() returns (c: CodeUnit)
      requires Valid()
      modifies this
      ensures Valid()
      ensures c == Front(old(Remaining())) && Remaining() == Rest(old(Remaining()))
      ensures nextChar == NUL
    {
      if nextChar == NUL {
        if position == |input| {
          return NUL;
        }
        c := input[position];
        assert input[..position + 1] == input[..position] + [c];
        if c == LF {
          line, column := line + 1, 1;
        } else {
          column := column + 1;
        }
        position := position + 1;
      } else {
        c := nextChar;
        nextChar := NUL;
      }
    }

    method PeekNext() returns (c: CodeUnit)
      requires Valid()
      modifies this
      ensures Valid()
      ensures c == Front(old(Remaining())) && Remaining() == Peeked(old(Remaining()))
    {
      hide LineAfter, ColumnAfter;
      if nextChar == NUL {
        ghost var before := Remaining();
        var found := Consume();
        ghost var unread := input[position..];
        assert Remaining() == unread;
        nextChar := found;
        PushedBack(before, unread);
      }
      c := nextChar;
    }

    method SkipWhitespace()
      requires Valid()
      modifies this
      ensures Valid()
      ensures Remaining() == SkipWhite(old(Remaining()))
    {
      var c := PeekNext();
      while c in WHITE
        invariant Valid()
        invariant c in WHITE ==> c == Front(Remaining())
        invariant if c in WHITE then SkipWhite(Remaining()) == SkipWhite(old(Remaining()))
                  else Remaining() == SkipWhite(old(Remaining()))
        decreases if c in WHITE then |Remaining()| + 1 else 0
      {
        ghost var before := Remaining();
        var _ := Consume();
        c := PeekNext();
      }
    }

    method PeekNextNonwhite() returns (c: CodeUnit)
      requires Valid()
      modifies this
      ensures Valid()
      ensures c == Front(SkipWhite(old(Remaining()))) && Remaining() == PeekedNonwhite(old(Remaining()))
    {
      SkipWhitespace();
      c := PeekNext();
    }

    method ExpectNext(expected: CodeUnit) returns (ok: bool)
      requires Valid()
      modifies this
      ensures Valid()
      ensures ok == (Front(old(Remaining())) == expected) && Remaining() == Rest(old(Remaining()))
    {
      var found := Consume();
      ok := found == expected;
    }

    method Expect(expected: CodeUnit) returns (ok: bool)
      requires Valid()
      modifies this
      ensures Valid()
      ensures ok == Expects(old(Remaining()), expected) && Remaining() == Expected(old(Remaining()))
    {
      SkipWhitespace();
      ok := ExpectNext(expected);
    }

    method ConsumeUntil(delimiters: Text) returns (result: Text)
      requires Valid()
      modifies this
      ensures Valid()
      ensures result == Span(old(Remaining()), delimiters)
      ensures Remaining() == AfterSpan(old(Remaining()), delimiters)
    {
      hide Stop, LineAfter, ColumnAfter, Front, Rest, Peeked;
      result := [];
      ghost var t := Remaining();
      ghost var n := 0;
      assert t[0..] == t;
      FrontAt(t, 0);
      var c := PeekNext();
      while c != NUL && c !in delimiters
        invariant Valid()
        invariant n <= |t| && result == t[..n]
        invariant forall i :: 0 <= i < n ==> t[i] != NUL && t[i] !in delimiters
        invariant c == Front(t[n..]) && Remaining() == Peeked(t[n..])
        decreases |t| - n
      {
        FrontAt(t, n);
        c := Consume();
        result := result + [c];
        n := n + 1;
        c := PeekNext();
      }
      FrontAt(t, n);
      StopIsUnique(t, delimiters, n);
    }
  }
}
