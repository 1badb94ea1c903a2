/** What any text the parser accepts looks like: nothing is skipped over, and what is opened is closed. */
module JsonShape {
  import opened CodeUnits
  import opened DataTree
  import opened Decimals
  import opened Reader
  import opened JsonStrings
  import opened JsonParsing

  /** What is left of a text is its end. */
  predicate Leaves(t: Text, rest: Text) {
    |rest| <= |t| && rest == t[|t| - |rest|..]
  }

  /** What has been read starts with one character, after blanks, and ends with another. */
  predicate Reads(t: Text, rest: Text, first: CodeUnit, last: CodeUnit) {
    Leaves(t, rest) && |rest| < |t| && Front(SkipWhite(t)) == first && t[|t| - |rest| - 1] == last
  }

  lemma LeavesMore(t: Text, u: Text, v: Text)
    requires Leaves(t, u) && Leaves(u, v) && NulFree(t)
    ensures Leaves(t, v) && NulFree(u) && NulFree(v)
    ensures |v| < |u| ==> t[|t| - |v| - 1] == u[|u| - |v| - 1]
  {
  }

  lemma {:induction false} BlanksLeave(t: Text)
    requires NulFree(t)
    ensures Leaves(t, SkipWhite(t)) && NulFree(SkipWhite(t)) && PeekedNonwhite(t) == SkipWhite(t)
    ensures SkipWhite(SkipWhite(t)) == SkipWhite(t)
  {
    hide SkipWhite;
    var k := SkipWhiteIsSuffix(t);
    assert |t| - |SkipWhite(t)| == k;
    NotBlank(SkipWhite(t));
  }

  lemma {:induction false} NotBlank(t: Text)
    requires NulFree(t) && Front(t) !in WHITE
    ensures SkipWhite(t) == t && Peeked(t) == t
  {
  }

  /** Reading an expected character. */
  lemma {:induction false} ExpectedIsRead(t: Text, c: CodeUnit)
    requires NulFree(t) && Expects(t, c) && c != NUL
    ensures Reads(t, Expected(t), c, c) && NulFree(Expected(t))
  {
    hide SkipWhite;
    BlanksLeave(t);
    LeavesMore(t, SkipWhite(t), Expected(t));
  }

  lemma {:induction false} SpanLeaves(t: Text, ends: Text)
    requires NulFree(t)
    ensures Leaves(t, AfterSpan(t, ends)) && NulFree(AfterSpan(t, ends))
  {
    hide Stop;
    assert forall c :: c in t[Stop(t, ends)..] ==> c in t;
  }

  lemma {:induction false} BodyLeaves(t: Text)
    requires NulFree(t)
    ensures Leaves(t, QuotedBody(t).1) && NulFree(QuotedBody(t).1)
    decreases |t|
  {
    hide Leaves, QuotedBody;
    var n := BodyStep(t);
    StartLeaves(t, n);
    if n > 0 {
      BodyLeaves(t[n..]);
      LeavesMore(t, t[n..], QuotedBody(t[n..]).1);
    }
  }

  lemma StartLeaves(t: Text, n: nat)
    requires n <= |t|
    ensures Leaves(t, t[n..]) && (NulFree(t) ==> NulFree(t[n..])) && t[0..] == t
  {
  }

  /** The scan for the right quotation mark stops, or goes on after one character or two. */
  lemma {:induction false} BodyStep(t: Text) returns (n: nat)
    requires NulFree(t)
    ensures n <= |t| && QuotedBody(t).1 == if n == 0 then t else QuotedBody(t[n..]).1
  {
    n := if t == [] || t[0] == QUOTE then 0 else if t[0] == BACKSLASH && Front(t[1..]) == QUOTE then 2 else 1;
  }

  /** A string is read from one quotation mark to another. */
  lemma {:induction false} QuotedIsRead(t: Text)
    requires NulFree(t) && DoubleQuoted(t).Ok?
    ensures Reads(t, DoubleQuoted(t).rest, QUOTE, QUOTE) && NulFree(DoubleQuoted(t).rest)
  {
    hide SkipWhite, QuotedBody, Unescape, Leaves, Reads;
    BlanksLeave(t);
    var t0 := SkipWhite(t);
    ExpectedIsRead(t0, QUOTE);
    BodyLeaves(Expected(t0));
    var end := QuotedBody(Expected(t0)).1;
    ExpectedIsRead(end, QUOTE);
    ReadsLeaves(t0, Expected(t0), QUOTE, QUOTE);
    LeavesMore(t, t0, Expected(t0));
    LeavesMore(t, Expected(t0), end);
    ReadsFrom(t, end, Expected(end), QUOTE, QUOTE);
  }

  lemma ReadsLeaves(t: Text, rest: Text, first: CodeUnit, last: CodeUnit)
    requires Reads(t, rest, first, last)
    ensures Leaves(t, rest)
  {
  }

  lemma {:induction false} ReadsFrom(t: Text, u: Text, rest: Text, first: CodeUnit, last: CodeUnit)
    requires NulFree(t) && Leaves(t, u) && Front(SkipWhite(t)) == first && Reads(u, rest, last, last)
    ensures Reads(t, rest, first, last)
  {
    hide SkipWhite;
    LeavesMore(t, u, rest);
  }

  lemma {:induction false} PrimitiveIsRead(t: Text)
    requires NulFree(t) && PrimitiveFrom(t).Ok?
    ensures Leaves(t, PrimitiveFrom(t).rest) && NulFree(PrimitiveFrom(t).rest)
  {
    hide SkipWhite, DoubleQuoted, Stop;
    BlanksLeave(t);
    var t1 := SkipWhite(t);
    if Front(t1) == QUOTE {
      QuotedIsRead(t1);
    } else {
      BlanksLeave(t1);
      SpanLeaves(t1, UNQUOTED_END);
    }
    LeavesMore(t, t1, PrimitiveFrom(t).rest);
  }

  /** Whatever object is accepted, it has been read from a left brace to a right brace. */
  lemma {:induction false} ObjectIsClosed(t: Text, name: Text)
    requires NulFree(t) && ObjectFrom(t, name).Ok?
    ensures Reads(t, ObjectFrom(t, name).rest, LBRACE, RBRACE) && NulFree(ObjectFrom(t, name).rest)
    decreases |t|, 0
  {
    hide SkipWhite, MembersFrom, Finish, Leaves, Reads;
    ExpectedIsRead(t, LBRACE);
    ReadsLeaves(t, Expected(t), LBRACE, LBRACE);
    var t1 := Expected(t);
    BlanksLeave(t1);
    var u := PeekedNonwhite(t1);
    var t2 := u;
    if Front(SkipWhite(t1)) != RBRACE {
      MembersAreRead(u, Fresh(name));
      t2 := MembersFrom(u, Fresh(name)).rest;
    }
    StartLeaves(u, 0);
    ExpectedIsRead(t2, RBRACE);
    LeavesMore(t, t1, u);
    LeavesMore(t, u, t2);
    ReadsFrom(t, t2, Expected(t2), LBRACE, RBRACE);
  }

  lemma {:induction false} MembersAreRead(t: Text, info: Node)
    requires NulFree(t) && MembersFrom(t, info).Ok?
    ensures Leaves(t, MembersFrom(t, info).rest) && NulFree(MembersFrom(t, info).rest)
    decreases |t|, 3
  {
    hide SkipWhite, ValueFrom, DoubleQuoted;
    BlanksLeave(t);
    QuotedIsRead(PeekedNonwhite(t));
    var q := QuotedFrom(t);
    ExpectedIsRead(q.rest, COLON);
    var t1 := Expected(q.rest);
    ValueIsRead(t1, info, q.value);
    var v := ValueFrom(t1, info, q.value);
    BlanksLeave(v.rest);
    var t3 := PeekedNonwhite(v.rest);
    LeavesMore(t, PeekedNonwhite(t), q.rest);
    LeavesMore(t, q.rest, t1);
    LeavesMore(t, t1, v.rest);
    LeavesMore(t, v.rest, t3);
    if Front(SkipWhite(v.rest)) == COMMA {
      ExpectedIsRead(t3, COMMA);
      MembersAreRead(Expected(t3), v.value);
      LeavesMore(t, t3, Expected(t3));
      LeavesMore(t, Expected(t3), MembersFrom(t, info).rest);
    }
  }

  lemma {:induction false} ValueIsRead(t: Text, info: Node, name: Text)
    requires NulFree(t) && ValueFrom(t, info, name).Ok?
    ensures Leaves(t, ValueFrom(t, info, name).rest) && NulFree(ValueFrom(t, info, name).rest)
    decreases |t|, 2
  {
    hide SkipWhite, RoleOf, MemberFrom, ObjectFrom, PrimitiveFrom, AddMember;
    var u := PeekedNonwhite(t);
    BlanksLeave(t);
    match RoleOf(name)
    case Plain => MemberIsRead(t, name);
    case TheComment =>
      if Front(SkipWhite(t)) == LBRACE {
        ObjectIsClosed(u, name);
      } else {
        PrimitiveIsRead(u);
      }
      LeavesMore(t, u, ValueFrom(t, info, name).rest);
    case _ => PrimitiveIsRead(t);
  }

  lemma {:induction false} MemberIsRead(t: Text, name: Text)
    requires NulFree(t) && MemberFrom(t, name).Ok?
    ensures Leaves(t, MemberFrom(t, name).rest) && NulFree(MemberFrom(t, name).rest)
    decreases |t|, 1
  {
    hide SkipWhite, ArrayFrom, ObjectFrom, PrimitiveFrom;
    BlanksLeave(t);
    var t1 := PeekedNonwhite(t);
    BlanksLeave(t1);
    if Front(t1) == LBRACKET {
      ArrayIsClosed(t1, name);
    } else if Front(t1) == LBRACE {
      ObjectIsClosed(t1, name);
    } else {
      PrimitiveIsRead(t1);
    }
    LeavesMore(t, t1, MemberFrom(t, name).rest);
  }

  /** Whatever array is accepted, it has been read from a left bracket to a right bracket. */
  lemma {:induction false} ArrayIsClosed(t: Text, name: Text)
    requires NulFree(t) && ArrayFrom(t, name).Ok?
    ensures Reads(t, ArrayFrom(t, name).rest, LBRACKET, RBRACKET) && NulFree(ArrayFrom(t, name).rest)
    decreases |t|, 0
  {
    hide SkipWhite, ElementsFrom;
    ExpectedIsRead(t, LBRACKET);
    var t1 := Expected(t);
    BlanksLeave(t1);
    var u := PeekedNonwhite(t1);
    var t2 := u;
    if Front(SkipWhite(t1)) != RBRACKET {
      ElementsAreRead(u, Fresh(name), 1);
      t2 := ElementsFrom(u, Fresh(name), 1).rest;
    }
    ExpectedIsRead(t2, RBRACKET);
    LeavesMore(t, t1, u);
    LeavesMore(t, u, t2);
    LeavesMore(t, t2, Expected(t2));
  }

  lemma {:induction false} ElementsAreRead(t: Text, info: Node, i: nat)
    requires NulFree(t) && ElementsFrom(t, info, i).Ok?
    ensures Leaves(t, ElementsFrom(t, info, i).rest) && NulFree(ElementsFrom(t, info, i).rest)
    decreases |t|, 2
  {
    hide SkipWhite, MemberFrom, ToString;
    MemberIsRead(t, ToString(i));
    var m := MemberFrom(t, ToString(i));
    BlanksLeave(m.rest);
    var t2 := PeekedNonwhite(m.rest);
    LeavesMore(t, m.rest, t2);
    if Front(SkipWhite(m.rest)) == COMMA {
      ExpectedIsRead(t2, COMMA);
      ElementsAreRead(Expected(t2), info.(subs := AddLocal(info.subs, m.value)), i + 1);
      LeavesMore(t, t2, Expected(t2));
      LeavesMore(t, Expected(t2), ElementsFrom(t, info, i).rest);
    }
  }
}
