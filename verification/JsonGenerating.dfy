/** The stateful JSON emitter (marshallers/Generator.java and marshallers/JSONGenerator.java). */
module JsonGenerating {
  import opened CodeUnits
  import opened DataTree
  import opened ChildNames
  import opened JsonStrings
  import opened JsonParsing
  import opened JsonDocuments

  class JsonGenerator {
    const cx: Context
    var out: Text               // what the writer has received
    var indentLevel: nat
    var first: bool             // nothing has been written into the current object yet
    var newline: seq<bool>      // per level, whether members go on lines of their own
    var curDepth: int           // the context's current depth

    /** The line flags always cover the current level, and depth and indentation move together. */
    ghost predicate Valid()
      reads this
    {
      |newline| > indentLevel && curDepth == indentLevel
    }

    /** Since `before`, exactly these members have been written into the current wide object. */
    ghost predicate Wrote(before: Text, ms: seq<Pair>)
      reads this
    {
      && Valid() && newline[indentLevel]
      && out == before + MembersText(ms, indentLevel, true, true, STANDARD)
      && first == (ms == [])
    }

    constructor (cx: Context)
      ensures Valid() && this.cx == cx && out == [] && indentLevel == 0 && first
    {
      this.cx := cx;
      out, newline, indentLevel, curDepth, first := [], [false], 0, 0, true;
    }

    method Generate(d: Item)
      requires Valid() && out == [] && indentLevel == 0
      modifies this
      ensures Valid() && indentLevel == 0 && curDepth == 0
      ensures out == GeneratedText(d, cx, STANDARD)
    {
      EmitObject(d, false);
    }

    // ----- Generator.java -----

    method Emit(text: Text)
      modifies this`out
      ensures out == old(out) + text
    {
      out := out + text;
    }

    method EmitWithIndent(text: Text)
      modifies this`out
      ensures out == old(out) + Indent(indentLevel, STANDARD) + text
    {
      assert Indent(0, STANDARD) == [];
      for j := 0 to indentLevel
        invariant out == old(out) + Indent(j, STANDARD)
      {
        Emit([SPACE, SPACE, SPACE]);
      }
      Emit(text);
    }

    method EmitWithOptionalIndent(text: Text, indent: bool)
      modifies this`out
      ensures out == old(out) + (if indent then Indent(indentLevel, STANDARD) else []) + text
    {
      if indent {
        EmitWithIndent(text);
      } else {
        Emit(text);
        assert old(out) + [] == old(out);
      }
    }

    method SetNewline(need: bool)
      requires |newline| >= indentLevel
      modifies this`newline
      ensures |newline| > indentLevel && newline[indentLevel] == need
      ensures newline == if old(|newline|) == indentLevel then old(newline) + [need] else old(newline)[indentLevel := need]
    {
      if indentLevel + 1 > |newline| {
        newline := newline + [need];
      } else {
        newline := newline[indentLevel := need];
      }
    }

    // ----- JSONGenerator.java: commas, lines and pairs -----

    method CheckFirst()
      requires Valid()
      modifies this`out, this`first
      ensures Valid() && !first
      ensures out == old(out) + (if old(first) then [] else [COMMA])
                     + (if newline[indentLevel] then [LF] else if old(first) then [] else [SPACE])
    {
      var nothing: Text := [];
      assert out + nothing == out && out + [COMMA] + nothing == out + [COMMA];
      if !first {
        Emit([COMMA]);
      }
      if newline[indentLevel] {
        Emit([LF]);
      } else if !first {
        Emit([SPACE]);
      }
      first := false;
    }

    method CheckFirstAndForceNewline()
      modifies this`out, this`first
      ensures !first && out == old(out) + (if old(first) then [] else [COMMA]) + [LF]
    {
      assert out + [] == out;
      if !first {
        Emit([COMMA]);
      }
      Emit([LF]);
      first := false;
    }

    /** Both pair emitters: the value text is already quoted or deliberately bare. */
    method EmitPair(name: Text, value: Text)
      requires Valid()
      modifies this`out, this`first
      ensures Valid() && !first
      ensures out == old(out) + (Lead(indentLevel, newline[indentLevel], old(first), STANDARD) + PairText(name, value))
    {
      CheckFirst();
      var escaped := EscapeText(name);
      EmitWithOptionalIndent([QUOTE] + escaped + [QUOTE, COLON] + value, newline[indentLevel]);
      PairTextIs(name, escaped, value);
      LeadIs(old(out), indentLevel, newline[indentLevel], old(first), PairText(name, value));
    }

    method EmitUnquotedPair(name: Text, value: Text, ghost before: Text, ghost ms: seq<Pair>)
      requires Wrote(before, ms)
      modifies this`out, this`first
      ensures Wrote(before, ms + [Pair(name, Bare(value))])
    {
      EmitPair(name, value);
      OneMore(before, ms, Pair(name, Bare(value)), old(out));
    }

    method EmitQuotedPair(name: Text, value: Text, ghost before: Text, ghost ms: seq<Pair>)
      requires Wrote(before, ms)
      modifies this`out, this`first
      ensures Wrote(before, ms + [Pair(name, Quoted(value))])
    {
      var escaped := EscapeText(value);
      EmitPair(name, [QUOTE] + escaped + [QUOTE]);
      OneMore(before, ms, Pair(name, Quoted(value)), old(out));
    }

    /** Emitting one pair adds one member to what has been written. */
    lemma {:induction false} OneMore(before: Text, ms: seq<Pair>, p: Pair, was: Text)
      requires Valid() && newline[indentLevel] && !first
      requires was == before + MembersText(ms, indentLevel, true, true, STANDARD)
      requires out == was + LedMember(p, indentLevel, true, ms == [], STANDARD)
      ensures Wrote(before, ms + [p])
    {
      MembersTextSnoc(ms, p, indentLevel, true, STANDARD);
      Associate(before, MembersText(ms, indentLevel, true, true, STANDARD),
                LedMember(p, indentLevel, true, ms == [], STANDARD));
    }

    // ----- JSONGenerator.java: objects -----

    /** Opens an object; a nested one is announced in the current object as one more member. */
    method EmitStartOfObject(name: Option<Text>)
      requires |newline| > indentLevel && curDepth == indentLevel + 1
      requires name.None? <==> indentLevel == 0
      modifies this`out, this`first, this`indentLevel, this`newline
      ensures Valid() && first && indentLevel == old(indentLevel) + 1
      ensures forall i :: 0 <= i <= old(indentLevel) ==> newline[i] == old(newline)[i]
      ensures out == old(out) + Opening(name, old(indentLevel), old(first))
    {
      if indentLevel != 0 {
        CheckFirstAndForceNewline();
      }
      if name.None? {
        EmitWithOptionalIndent([LBRACE], false);
        assert old(out) + [] == old(out);
      } else {
        var escaped := EscapeText(name.value);
        EmitWithOptionalIndent([QUOTE] + escaped + [QUOTE, COLON, LBRACE], indentLevel != 0);
        PairTextIs(name.value, escaped, [LBRACE]);
        assert [QUOTE] + escaped + [QUOTE, COLON, LBRACE] == [QUOTE] + escaped + [QUOTE, COLON] + [LBRACE];
        LeadIs(old(out), indentLevel, true, old(first), PairText(name.value, [LBRACE]));
      }
      indentLevel := indentLevel + 1;
      SetNewline(false);
      first := true;
    }

    method EmitEndOfObject()
      requires |newline| > indentLevel && indentLevel > 0
      modifies this`out, this`first, this`indentLevel
      ensures indentLevel == old(indentLevel) - 1 && !first
      ensures out == old(out) + ((if old(newline[indentLevel]) then Line(indentLevel, STANDARD) else []) + [RBRACE])
    {
      var wide := newline[indentLevel];
      indentLevel := indentLevel - 1;
      if wide {
        Emit([LF]);
        EmitWithIndent([RBRACE]);
        assert out == old(out) + (([LF] + Indent(indentLevel, STANDARD)) + [RBRACE]);
      } else {
        Emit([RBRACE]);
        assert [] + [RBRACE] == [RBRACE];
      }
      first := false;
    }

    method EmitObject(d: Item, doingMetadata: bool)
      requires Valid()
      modifies this
      ensures Valid() && indentLevel == old(indentLevel) && curDepth == old(curDepth) && !first
      ensures forall i :: 0 <= i <= indentLevel ==> newline[i] == old(newline)[i]
      ensures var val := Nested(ObjectPairs(d, indentLevel + 1, doingMetadata, cx), true);
              if indentLevel == 0 then out == old(out) + Render(val, 0, STANDARD)
              else out == old(out) + LedMember(Pair(d.name, val), indentLevel, true, old(first), STANDARD)
      decreases d, 2
    {
      hide ObjectPairs, MembersText, LedMember, Render;
      OpenObject(d.name);
      ghost var begun := out;
      EmitMembers(d, doingMetadata, begun);
      ghost var inside := out;
      CloseObject();
      ClosedObject(d.name, ObjectPairs(d, indentLevel + 1, doingMetadata, cx), old(out), begun, inside, out, indentLevel,
                   old(first));
    }

    /** Going down one level: only the top object is written without its name. */
    method OpenObject(name: Text)
      requires Valid()
      modifies this
      ensures Valid() && indentLevel == old(indentLevel) + 1 && newline[indentLevel] && first
      ensures forall i :: 0 <= i <= old(indentLevel) ==> newline[i] == old(newline)[i]
      ensures out == old(out) + Opening(if old(indentLevel) == 0 then None else Some(name), old(indentLevel), old(first))
    {
      curDepth := curDepth + 1;
      EmitStartOfObject(if curDepth == 1 then None else Some(name));
      SetNewline(true);
    }

    /** Coming back up. */
    method CloseObject()
      requires Valid() && indentLevel > 0 && newline[indentLevel]
      modifies this`out, this`first, this`indentLevel, this`curDepth
      ensures Valid() && indentLevel == old(indentLevel) - 1 && !first
      ensures out == old(out) + (Line(indentLevel, STANDARD) + [RBRACE])
    {
      EmitEndOfObject();
      curDepth := curDepth - 1;
    }

    /** Everything between the braces. */
    method EmitMembers(d: Item, doingMetadata: bool, ghost before: Text)
      requires Valid() && newline[indentLevel] && first && out == before && indentLevel > 0
      modifies this
      ensures indentLevel == old(indentLevel) && curDepth == old(curDepth)
      ensures Valid() && newline[indentLevel]
      ensures out == before + MembersText(ObjectPairs(d, indentLevel, doingMetadata, cx), indentLevel, true, true, STANDARD)
      ensures forall i :: 0 <= i <= indentLevel ==> newline[i] == old(newline)[i]
      decreases d, 1
    {
      assert before + [] == before;
      EmitHead(d, before);
      ghost var head := HeadPairs(d, curDepth, cx);
      EmitMetadata(d, before, head);
      head := head + MetaPairs(d.meta, curDepth, cx);
      if curDepth <= cx.depth || doingMetadata {
        EmitChildren(d, before, head);
      } else {
        assert head + [] == head;
      }
    }

    method EmitHead(d: Item, ghost before: Text)
      requires Wrote(before, [])
      modifies this`out, this`first
      ensures Wrote(before, HeadPairs(d, curDepth, cx))
    {
      EmitTop(d, before);
      ghost var ms := TopPairs(d, curDepth, cx);
      if cx.includeBase || d.facts.untyped {
        EmitQuotedPair(BASE, BaseToString(d.base), before, ms);
      }
      assert ms + [] == ms;
      ms := ms + BasePairs(d, cx);
      EmitExtent(d, before, ms);
      ms := ms + ExtentPairs(d, curDepth, cx);
      EmitValue(d, before, ms);
      ms := ms + ValuePairs(d, cx);
      EmitType(d, before, ms);
    }

    method EmitTop(d: Item, ghost before: Text)
      requires Wrote(before, [])
      modifies this`out, this`first
      ensures Wrote(before, TopPairs(d, curDepth, cx))
    {
      if curDepth == 1 {
        ghost var ms: seq<Pair> := [];
        if !StartsWith(d.name, [DOT, DOT]) {
          EmitQuotedPair(NAME, d.name, before, ms);
          ms := ms + [Pair(NAME, Quoted(d.name))];
        }
        EmitQuotedPair(DEFAULT_LOCALE, cx.locale, before, ms);
        assert ms == If(!StartsWith(d.name, [DOT, DOT]), NAME, Quoted(d.name));
      }
    }

    method EmitExtent(d: Item, ghost before: Text, ghost start: seq<Pair>)
      requires Wrote(before, start)
      modifies this`out, this`first
      ensures Wrote(before, start + ExtentPairs(d, curDepth, cx))
    {
      ghost var ms := start;
      if d.facts.container {
        if d.facts.truncated || curDepth > cx.depth {
          EmitQuotedPair(TRUNCATED, TRUE, before, ms);
          ms := ms + [Pair(TRUNCATED, Quoted(TRUE))];
        }
        if d.facts.partial {
          EmitQuotedPair(PARTIAL, TRUE, before, ms);
          ms := ms + [Pair(PARTIAL, Quoted(TRUE))];
        }
        if d.facts.next.Some? {
          EmitQuotedPair(NEXT, d.facts.next.value, before, ms);
          ms := ms + [Pair(NEXT, Quoted(d.facts.next.value))];
        }
      }
      assert ms == start + ExtentPairs(d, curDepth, cx);
    }

    method EmitValue(d: Item, ghost before: Text, ghost start: seq<Pair>)
      requires Wrote(before, start)
      modifies this`out, this`first
      ensures Wrote(before, start + ValuePairs(d, cx))
    {
      assert start + [] == start;
      if cx.includeValue && d.value.Some? {
        if !d.facts.readable {
          EmitUnquotedPair(ERROR, NOT_READABLE, before, start);
        } else if !HasItem(d.meta, ERROR) {
          if IsUnquoted(d.base) {
            EmitUnquotedPair(VALUE, d.value.value, before, start);
          } else if IsTimelike(d.base) {
            if !d.facts.unspecified {
              EmitQuotedPair(VALUE, d.value.value, before, start);
            }
          } else {
            EmitQuotedPair(VALUE, d.value.value, before, start);
          }
        }
      }
    }

    method EmitType(d: Item, ghost before: Text, ghost start: seq<Pair>)
      requires Wrote(before, start)
      modifies this`out, this`first
      ensures Wrote(before, start + TypePairs(d, curDepth, cx))
    {
      ghost var ms := start;
      if cx.includeType || d.facts.untyped || d.facts.definition {
        if d.facts.localType != [] {
          if curDepth == 1 || d.facts.untyped {
            EmitQuotedPair(TYPE, d.facts.localType, before, ms);
            ms := ms + [Pair(TYPE, Quoted(d.facts.localType))];
          }
        }
        if curDepth == 1 {
          if d.facts.effectiveType != [] && d.facts.effectiveType != d.facts.localType {
            EmitQuotedPair(EFFECTIVE_TYPE, d.facts.effectiveType, before, ms);
            ms := ms + [Pair(EFFECTIVE_TYPE, Quoted(d.facts.effectiveType))];
          }
        }
      }
      assert ms == start + TypePairs(d, curDepth, cx);
    }

    method EmitSubValue(d: Item, ghost before: Text, ghost ms: seq<Pair>)
      requires Wrote(before, ms)
      modifies this`out, this`first
      ensures Wrote(before, ms + [Pair(d.name, SubValue(d))])
    {
      if !d.facts.readable {
        EmitPair(d.name, [LBRACE] + [QUOTE] + ERROR + [QUOTE, COLON] + NOT_READABLE + [RBRACE]);
        InlineError(indentLevel);
        OneMore(before, ms, Pair(d.name, SubValue(d)), old(out));
      } else if d.value.None? {
        EmitPair(d.name, [LBRACE, RBRACE]);
        assert Render(SubValue(d), indentLevel, STANDARD) == [LBRACE, RBRACE];
        OneMore(before, ms, Pair(d.name, SubValue(d)), old(out));
      } else if IsUnquoted(d.base) {
        EmitUnquotedPair(d.name, d.value.value, before, ms);
      } else {
        EmitQuotedPair(d.name, d.value.value, before, ms);
      }
    }

    method EmitMetadata(d: Item, ghost before: Text, ghost start: seq<Pair>)
      requires Wrote(before, start) && indentLevel > 0
      modifies this
      ensures indentLevel == old(indentLevel) && curDepth == old(curDepth)
      ensures Wrote(before, start + MetaPairs(d.meta, curDepth, cx))
      ensures forall i :: 0 <= i <= indentLevel ==> newline[i] == old(newline)[i]
      decreases d, 0
    {
      assert start + [] == start;
      for k := 0 to |d.meta|
        invariant indentLevel == old(indentLevel) && curDepth == old(curDepth)
        invariant Wrote(before, start + MetaPairs(d.meta[..k], curDepth, cx))
        invariant forall i :: 0 <= i <= indentLevel ==> newline[i] == old(newline)[i]
      {
        var m := d.meta[k];
        ghost var ms := start + MetaPairs(d.meta[..k], curDepth, cx);
        MetaPairsNext(d.meta, k, curDepth, cx, start);
        if m.name == TYPE {
          assert ms + [] == ms;
          continue;
        }
        EmitMetaMember(m, before, ms);
      }
      assert d.meta[..|d.meta|] == d.meta;
    }

    /** One piece of metadata, in primitive or object form. */
    method EmitMetaMember(m: Item, ghost before: Text, ghost ms: seq<Pair>)
      requires Wrote(before, ms) && indentLevel > 0 && m.name != TYPE
      modifies this
      ensures indentLevel == old(indentLevel) && curDepth == old(curDepth)
      ensures Wrote(before, ms + MetaMember(m, curDepth, cx))
      ensures forall i :: 0 <= i <= indentLevel ==> newline[i] == old(newline)[i]
      decreases m, 3
    {
      hide SubValue, ObjectPairs, Render, MembersText, MetaAsPrimitive;
      ghost var p := MetaMember(m, curDepth, cx)[0];
      assert MetaMember(m, curDepth, cx) == [p];
      if MetaAsPrimitive(m) {
        EmitSubValue(m, before, ms);
      } else {
        EmitObject(m, true);
        OneMore(before, ms, p, old(out));
      }
    }

    /** One child, in primitive or object form. */
    method EmitChildMember(c: Item, ghost before: Text, ghost ms: seq<Pair>)
      requires Wrote(before, ms) && indentLevel > 0
      modifies this
      ensures indentLevel == old(indentLevel) && curDepth == old(curDepth)
      ensures Wrote(before, ms + [ChildMember(c, curDepth, cx)])
      ensures forall i :: 0 <= i <= indentLevel ==> newline[i] == old(newline)[i]
      decreases c, 3
    {
      hide SubValue, ObjectPairs, Render, MembersText, ChildAsPrimitive;
      if ChildAsPrimitive(c, cx) {
        EmitSubValue(c, before, ms);
      } else {
        EmitObject(c, false);
        OneMore(before, ms, ChildMember(c, curDepth, cx), old(out));
      }
    }

    method EmitChildren(d: Item, ghost before: Text, ghost start: seq<Pair>)
      requires Wrote(before, start) && indentLevel > 0
      modifies this
      ensures indentLevel == old(indentLevel) && curDepth == old(curDepth)
      ensures Wrote(before, start + ChildPairs(d.children, curDepth, cx))
      ensures forall i :: 0 <= i <= indentLevel ==> newline[i] == old(newline)[i]
      decreases d, 0
    {
      assert start + [] == start;
      for k := 0 to |d.children|
        invariant indentLevel == old(indentLevel) && curDepth == old(curDepth)
        invariant Wrote(before, start + ChildPairs(d.children[..k], curDepth, cx))
        invariant forall i :: 0 <= i <= indentLevel ==> newline[i] == old(newline)[i]
      {
        var c := d.children[k];
        ghost var ms := start + ChildPairs(d.children[..k], curDepth, cx);
        ChildPairsNext(d.children, k, curDepth, cx, start);
        EmitChildMember(c, before, ms);
      }
      assert d.children[..|d.children|] == d.children;
    }
  }

  lemma {:induction false} MetaPairsNext(meta: seq<Item>, k: nat, depth: int, cx: Context, start: seq<Pair>)
    requires k < |meta|
    ensures start + MetaPairs(meta[..k + 1], depth, cx) == start + MetaPairs(meta[..k], depth, cx) + MetaMember(meta[k], depth, cx)
  {
    assert meta[..k + 1] == meta[..k] + [meta[k]];
    MetaPairsSnoc(meta[..k], meta[k], depth, cx);
  }

  lemma {:induction false} ChildPairsNext(children: seq<Item>, k: nat, depth: int, cx: Context, start: seq<Pair>)
    requires k < |children|
    ensures start + ChildPairs(children[..k + 1], depth, cx)
         == start + ChildPairs(children[..k], depth, cx) + [ChildMember(children[k], depth, cx)]
  {
    assert children[..k + 1] == children[..k] + [children[k]];
    ChildPairsSnoc(children[..k], children[k], depth, cx);
  }

  // ----- texts -----

  /** What opening an object writes. */
  function Opening(name: Option<Text>, level: nat, first: bool): Text {
    if name.None? then [LBRACE] else Lead(level, true, first, STANDARD) + PairText(name.value, [LBRACE])
  }

  lemma {:induction false} PairTextIs(name: Text, escaped: Text, value: Text)
    requires escaped == Escape(name)
    ensures [QUOTE] + escaped + [QUOTE, COLON] + value == PairText(name, value)
  {
  }

  lemma {:induction false} LeadIs(was: Text, level: nat, wide: bool, first: bool, text: Text)
    ensures was + (if first then [] else [COMMA]) + (if wide then [LF] else if first then [] else [SPACE])
            + (if wide then Indent(level, STANDARD) else []) + text
         == was + (Lead(level, wide, first, STANDARD) + text)
  {
  }

  lemma {:induction false} InlineError(level: nat)
    ensures [LBRACE] + [QUOTE] + ERROR + [QUOTE, COLON] + NOT_READABLE + [RBRACE]
         == Render(Nested([Pair(ERROR, Bare(NOT_READABLE))], false), level, STANDARD)
  {
    EscapePlain(ERROR);
    InlinePair(ERROR, NOT_READABLE, level);
  }

  /** What has no value to show in primitive form is written as an object, on the same line. */
  lemma {:induction false} InlineObjects(d: Item, level: nat)
    ensures !d.facts.readable ==> Render(SubValue(d), level, STANDARD) == Ascii("{\"$error\":41}")
    ensures d.facts.readable && d.value.None? ==> Render(SubValue(d), level, STANDARD) == Ascii("{}")
  {
    if !d.facts.readable {
      InlineError(level);
      ErrorText();
    } else if d.value.None? {
      assert MembersText([], level + 1, false, true, STANDARD) == [];
    }
  }

  lemma ErrorText()
    ensures [LBRACE] + [QUOTE] + ERROR + [QUOTE, COLON] + NOT_READABLE + [RBRACE] == Ascii("{\"$error\":41}")
  {
    var t, number := Ascii("{\"$error\":41}"), NOT_READABLE;
    assert |ERROR| == 6 && |number| == 2 && |t| == 13;
    assert t[2..8] == ERROR by {
      assert t[2] == ERROR[0] && t[3] == ERROR[1] && t[4] == ERROR[2];
      assert t[5] == ERROR[3] && t[6] == ERROR[4] && t[7] == ERROR[5];
    }
    assert t[10] == number[0] && t[11] == number[1];
    assert t == t[..2] + t[2..8] + t[8..10] + t[10..12] + t[12..];
    assert t[..2] == [LBRACE] + [QUOTE] && t[8..10] == [QUOTE, COLON] && t[10..12] == number && t[12..] == [RBRACE];
  }

  lemma {:induction false} InlinePair(name: Text, value: Text, level: nat)
    requires Escape(name) == name
    ensures [LBRACE] + [QUOTE] + name + [QUOTE, COLON] + value + [RBRACE]
         == Render(Nested([Pair(name, Bare(value))], false), level, STANDARD)
  {
    var p := Pair(name, Bare(value));
    var q := [QUOTE] + name + [QUOTE];
    OneTightMember(p, level + 1);
    assert Render(p.val, level + 1, STANDARD) == value;
    assert [LBRACE] + [QUOTE] + name + [QUOTE, COLON] + value + [RBRACE]
        == [LBRACE] + ((q + ([COLON] + value)) + ([] + [RBRACE]));
  }

  lemma {:induction false} OneTightMember(p: Pair, level: nat)
    ensures MembersText([p], level, false, true, STANDARD) == PairText(p.name, Render(p.val, level, STANDARD))
  {
  }

  lemma {:induction false} EscapePlain(s: Text)
    requires forall i :: 0 <= i < |s| ==> s[i] >= 0x20 && s[i] != QUOTE && s[i] != BACKSLASH
    ensures Escape(s) == s
  {
    if s != [] {
      EscapePlain(s[1..]);
      assert [s[0]] + s[1..] == s;
    }
  }

  lemma ClosedTop(start: Text, members: Text, line: Text)
    ensures start + [LBRACE] + members + (line + [RBRACE]) == start + Enclosed(members, line)
  {
  }

  lemma ClosedMember(start: Text, lead: Text, name: Text, members: Text, line: Text)
    ensures start + (lead + PairText(name, [LBRACE])) + members + (line + [RBRACE])
         == start + (lead + PairText(name, Enclosed(members, line)))
  {
  }

  /** Opening, members and closing make up one member of the surrounding object, or all the text at the top. */
  lemma {:induction false} ClosedObject(name: Text, ms: seq<Pair>, start: Text, begun: Text, inside: Text, closed: Text, level: nat, first: bool)
    requires begun == start + Opening(if level == 0 then None else Some(name), level, first)
    requires inside == begun + MembersText(ms, level + 1, true, true, STANDARD)
    requires closed == inside + (Line(level, STANDARD) + [RBRACE])
    ensures level == 0 ==> closed == start + Render(Nested(ms, true), 0, STANDARD)
    ensures level > 0 ==> closed == start + LedMember(Pair(name, Nested(ms, true)), level, true, first, STANDARD)
  {
    var members := MembersText(ms, level + 1, true, true, STANDARD);
    assert Render(Nested(ms, true), level, STANDARD) == Enclosed(members, Line(level, STANDARD));
    if level == 0 {
      ClosedTop(start, members, Line(level, STANDARD));
    } else {
      ClosedMember(start, Lead(level, true, first, STANDARD), name, members, Line(level, STANDARD));
    }
  }
}
