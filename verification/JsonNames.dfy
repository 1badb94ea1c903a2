/** What the parser guarantees about the names in any item it builds, from any text at all. */
module JsonNames {
  import opened CodeUnits
  import opened DataTree
  import opened Decimals
  import opened ChildNames
  import opened Reader
  import opened JsonStrings
  import opened JsonParsing

  /** Siblings have distinct names, at every level. */
  predicate WellNamed(n: Node)
    decreases n, 1
  {
    DistinctNames(n.subs) && AllWellNamed(n.subs)
  }

  predicate AllWellNamed(ns: seq<Node>)
    decreases ns, 0
  {
    ns != [] ==> WellNamed(ns[0]) && AllWellNamed(ns[1..])
  }

  lemma {:induction false} AllWellNamedIffEach(ns: seq<Node>)
    ensures AllWellNamed(ns) <==> forall n :: n in ns ==> WellNamed(n)
  {
    if ns != [] {
      AllWellNamedIffEach(ns[1..]);
      assert ns[0] in ns && forall n :: n in ns <==> n == ns[0] || n in ns[1..];
    }
  }

  lemma {:induction false} AddLocalKeepsWellNamed(subs: seq<Node>, sub: Node)
    requires DistinctNames(subs) && AllWellNamed(subs) && WellNamed(sub)
    ensures DistinctNames(AddLocal(subs, sub)) && AllWellNamed(AddLocal(subs, sub))
  {
    AddLocalKeepsDistinctNames(subs, sub);
    AllWellNamedIffEach(subs);
    AllWellNamedIffEach(AddLocal(subs, sub));
  }

  lemma {:induction false} AddMemberKeepsWellNamed(info: Node, member: Node)
    requires WellNamed(info) && WellNamed(member)
    ensures AddMember(info, member).Some? ==> WellNamed(AddMember(info, member).value)
  {
    if IsMetadata(member.name) {
      AddLocalKeepsWellNamed(info.subs, member);
    } else if NextAvailableChildName(info, member.name).Some? {
      AddLocalKeepsWellNamed(info.subs, member.(name := NextAvailableChildName(info, member.name).value));
    }
  }

  /** Whatever object the parser accepts, siblings in the item it builds have distinct names, at every level. */
  lemma {:induction false} ObjectIsWellNamed(t: Text, name: Text)
    ensures ObjectFrom(t, name).Ok? ==> WellNamed(ObjectFrom(t, name).value)
    decreases |t|, 0
  {
    if Expects(t, LBRACE) {
      ExpectedIsShorter(t, LBRACE);
      MembersAreWellNamed(PeekedNonwhite(Expected(t)), Fresh(name));
    }
  }

  lemma {:induction false} MembersAreWellNamed(t: Text, info: Node)
    requires WellNamed(info)
    ensures MembersFrom(t, info).Ok? ==> WellNamed(MembersFrom(t, info).value)
    decreases |t|, 3
  {
    var q := QuotedFrom(t);
    if q.Ok? && Expects(q.rest, COLON) {
      var t1 := Expected(q.rest);
      ValueIsWellNamed(t1, info, q.value);
      var v := ValueFrom(t1, info, q.value);
      if v.Ok? && Front(SkipWhite(v.rest)) == COMMA && Expects(PeekedNonwhite(v.rest), COMMA) {
        MembersAreWellNamed(Expected(PeekedNonwhite(v.rest)), v.value);
      }
    }
  }

  lemma {:induction false} ValueIsWellNamed(t: Text, info: Node, name: Text)
    requires WellNamed(info)
    ensures ValueFrom(t, info, name).Ok? ==> WellNamed(ValueFrom(t, info, name).value)
    decreases |t|, 2
  {
    if RoleOf(name) == Plain {
      MemberIsWellNamed(t, name);
      var m := MemberFrom(t, name);
      if m.Ok? {
        AddMemberKeepsWellNamed(info, m.value);
      }
    }
  }

  lemma {:induction false} MemberIsWellNamed(t: Text, name: Text)
    ensures MemberFrom(t, name).Ok? ==> WellNamed(MemberFrom(t, name).value)
    decreases |t|, 1
  {
    var t1 := PeekedNonwhite(t);
    ArrayIsWellNamed(t1, name);
    ObjectIsWellNamed(PeekedNonwhite(t1), name);
  }

  lemma {:induction false} ArrayIsWellNamed(t: Text, name: Text)
    ensures ArrayFrom(t, name).Ok? ==> WellNamed(ArrayFrom(t, name).value)
    decreases |t|, 0
  {
    if Expects(t, LBRACKET) {
      ExpectedIsShorter(t, LBRACKET);
      ElementsAreWellNamed(PeekedNonwhite(Expected(t)), Fresh(name), 1);
    }
  }

  lemma {:induction false} ElementsAreWellNamed(t: Text, info: Node, i: nat)
    requires WellNamed(info)
    ensures ElementsFrom(t, info, i).Ok? ==> WellNamed(ElementsFrom(t, info, i).value)
    decreases |t|, 2
  {
    MemberIsWellNamed(t, ToString(i));
    var m := MemberFrom(t, ToString(i));
    if m.Ok? {
      AddLocalKeepsWellNamed(info.subs, m.value);
      if Front(SkipWhite(m.rest)) == COMMA {
        var t2 := PeekedNonwhite(m.rest);
        if Expects(t2, COMMA) {
          ExpectedIsShorter(t2, COMMA);
          ElementsAreWellNamed(Expected(t2), info.(subs := AddLocal(info.subs, m.value)), i + 1);
        }
      }
    }
  }

  // ----- the members of an object are all kept -----

  /** A child about to be added, and the item as it is then. */
  datatype Addition = Addition(to: Node, child: Node)

  /** The children that the member loop adds, in order. */
  function Additions(t: Text, info: Node): seq<Addition>
    decreases |t|
  {
    match QuotedFrom(t)
    case Fail(_) => []
    case Ok(name, t1) =>
      if !Expects(t1, COLON) then []
      else
        match ValueFrom(Expected(t1), info, name)
        case Fail(_) => []
        case Ok(more, t2) =>
          var t3 := PeekedNonwhite(t2);
          Added(Expected(t1), info, name)
          + if Front(SkipWhite(t2)) != COMMA || !Expects(t3, COMMA) then [] else Additions(Expected(t3), more)
  }

  /** The child that one member adds, if it is neither metadata nor about the item itself. */
  function Added(t: Text, info: Node, name: Text): seq<Addition> {
    if RoleOf(name) != Plain then []
    else
      match MemberFrom(t, name)
      case Fail(_) => []
      case Ok(member, _) => if IsMetadata(member.name) then [] else [Addition(info, member)]
  }

  function AdditionsOf(t: Text, name: Text): seq<Addition> {
    if !Expects(t, LBRACE) || Front(SkipWhite(Expected(t))) == RBRACE then []
    else Additions(PeekedNonwhite(Expected(t)), Fresh(name))
  }

  /** The child's key is taken, numbering wraps around at the largest int, and a sibling has the number after that. */
  predicate Collides(a: Addition) {
    var children, stem := ChildrenOf(a.to.subs), Stem(a.to, a.child.name);
    && Find(a.to.subs, stem).Some? && !NoLargest(children, stem)
    && exists n :: n in Rivals(children, stem) && n.name == Numbered(stem, NumberFor(children, stem))
  }

  /** The child as it was read, but for a name that starts with its key. */
  predicate Keeps(kept: Node, child: Node) {
    kept.(name := child.name) == child && child.name <= kept.name
  }

  predicate KeepsAll(kept: seq<Node>, adds: seq<Addition>) {
    |kept| == |adds| && forall i :: 0 <= i < |adds| ==> Keeps(kept[i], adds[i].child)
  }

  lemma {:induction false} ChildrenOfAddLocal(subs: seq<Node>, sub: Node)
    ensures IsMetadata(sub.name) ==> ChildrenOf(AddLocal(subs, sub)) == ChildrenOf(subs)
    ensures !IsMetadata(sub.name) && (forall n :: n in ChildrenOf(subs) ==> n.name != sub.name) ==>
              ChildrenOf(AddLocal(subs, sub)) == ChildrenOf(subs) + [sub]
    ensures !IsMetadata(sub.name) && !(forall n :: n in ChildrenOf(subs) ==> n.name != sub.name) ==>
              |ChildrenOf(AddLocal(subs, sub))| == |ChildrenOf(subs)|
  {
    hide IsMetadata, ChildrenOf;
    var i := IndexOf(subs, sub.name);
    ChildrenOfOne(sub);
    if i < |subs| {
      assert subs[i] in subs;
      Replaced(subs[..i], subs[i], subs[i + 1..], sub);
      assert subs == subs[..i] + [subs[i]] + subs[i + 1..];
    } else {
      ChildrenOfAppend(subs, [sub]);
    }
  }

  lemma {:induction false} Replaced(a: seq<Node>, before: Node, b: seq<Node>, sub: Node)
    requires before.name == sub.name
    ensures var was, now := ChildrenOf(a + [before] + b), ChildrenOf(a + b + [sub]);
            if IsMetadata(sub.name) then was == now else |was| == |now|
  {
    hide ChildrenOf;
    ChildrenOfOne(before);
    ChildrenOfOne(sub);
    ChildrenOfAppend(a + [before], b);
    ChildrenOfAppend(a, [before]);
    ChildrenOfAppend(a + b, [sub]);
    ChildrenOfAppend(a, b);
  }

  lemma ChildrenOfOne(n: Node)
    ensures ChildrenOf([n]) == if IsMetadata(n.name) then [] else [n]
  {
    assert [n][1..] == [];
  }

  /** One child is appended under a name of its own, or takes the place of another exactly in a collision. */
  lemma ChildIsAdded(a: Addition)
    requires IsFreelyNamed(a.to.base) && !IsMetadata(a.child.name)
    ensures AddMember(a.to, a.child).Some?
    ensures var was, now := ChildrenOf(a.to.subs), ChildrenOf(AddMember(a.to, a.child).value.subs);
            if Collides(a) then |now| == |was|
            else |now| == |was| + 1 && now[..|was|] == was && Keeps(now[|was|], a.child)
  {
    hide NoLargest, Rivals, NumberFor, IsMetadata, ChildrenOf, NextAvailableChildName, Find;
    NewNameIsExact(a.to, a.child.name);
    var name := NextAvailableChildName(a.to, a.child.name).value;
    NameIsOrdinary(a.to, a.child.name);
    ChildrenOfAddLocal(a.to.subs, a.child.(name := name));
  }

  lemma NameIsOrdinary(to: Node, key: Text)
    requires IsFreelyNamed(to.base) && !IsMetadata(key)
    ensures var name := NextAvailableChildName(to, key); name.Some? && !IsMetadata(name.value) && key <= name.value
  {
    hide NextNumber;
    var stem := Stem(to, key);
    assert stem != [] && !IsMetadata(stem) by {
      assert key == [] ==> IsDigit(stem[0]);
    }
    var name := NextAvailableChildName(to, key).value;
    assert name[0] == stem[0];
  }

  lemma {:induction false} ValueStep(t: Text, info: Node, name: Text)
    requires ValueFrom(t, info, name).Ok?
    ensures var adds, more := Added(t, info, name), ValueFrom(t, info, name).value;
            if adds == [] then ChildrenOf(more.subs) == ChildrenOf(info.subs)
            else |adds| == 1 && adds[0].to == info && !IsMetadata(adds[0].child.name)
                 && AddMember(info, adds[0].child) == Some(more)
  {
    hide MemberFrom, PrimitiveFrom, ObjectFrom, AddLocal, NextAvailableChildName, ChildrenOf;
    if RoleOf(name) == Plain {
      var member := MemberFrom(t, name).value;
      ChildrenOfAddLocal(info.subs, member);
    }
  }

  lemma OneMoreKept(kept: seq<Node>, adds: seq<Addition>, now: Node, a: Addition)
    requires KeepsAll(kept, adds) && Keeps(now, a.child)
    ensures KeepsAll([now] + kept, [a] + adds)
  {
    hide Keeps;
  }

  ghost predicate AllKept(was: seq<Node>, now: seq<Node>, adds: seq<Addition>) {
    && |now| <= |was| + |adds|
    && (|now| == |was| + |adds| <==> forall a :: a in adds ==> !Collides(a))
    && (|now| == |was| + |adds| ==> was <= now && KeepsAll(now[|was|..], adds))
  }

  lemma AllKeptStep(info: Node, more: Node, now: seq<Node>, here: seq<Addition>, rest: seq<Addition>)
    requires AllKept(ChildrenOf(more.subs), now, rest)
    requires forall a :: a in here ==> IsFreelyNamed(a.to.base)
    requires if here == [] then ChildrenOf(more.subs) == ChildrenOf(info.subs)
             else |here| == 1 && here[0].to == info && !IsMetadata(here[0].child.name)
                  && AddMember(info, here[0].child) == Some(more)
    ensures AllKept(ChildrenOf(info.subs), now, here + rest)
  {
    hide Collides, ChildrenOf, AddMember, Keeps, IsFreelyNamed;
    if here == [] {
      assert here + rest == rest;
    } else {
      var a := here[0];
      var was, next := ChildrenOf(info.subs), ChildrenOf(more.subs);
      assert a in here && here == [a];
      ChildIsAdded(a);
      if |now| == |next| + |rest| && !Collides(a) {
        OneMoreKept(now[|next|..], rest, next[|was|], a);
        assert now[|was|..] == [next[|was|]] + now[|next|..];
        assert now[..|was|] == next[..|was|];
      }
    }
  }

  lemma {:induction false} MembersAreKept(t: Text, info: Node)
    requires MembersFrom(t, info).Ok? && forall a :: a in Additions(t, info) ==> IsFreelyNamed(a.to.base)
    ensures AllKept(ChildrenOf(info.subs), ChildrenOf(MembersFrom(t, info).value.subs), Additions(t, info))
    decreases |t|
  {
    hide ValueFrom, Added, AllKept, IsFreelyNamed, ChildrenOf, AddMember, IsMetadata, SkipWhite, PeekedNonwhite, DoubleQuoted;
    var q := QuotedFrom(t);
    var t1 := Expected(q.rest);
    var v := ValueFrom(t1, info, q.value);
    var now := ChildrenOf(MembersFrom(t, info).value.subs);
    ValueStep(t1, info, q.value);
    var t3 := PeekedNonwhite(v.rest);
    if Front(SkipWhite(v.rest)) != COMMA {
      NothingMore(now);
      AllKeptStep(info, v.value, now, Added(t1, info, q.value), []);
    } else {
      MembersAreKept(Expected(t3), v.value);
      AllKeptStep(info, v.value, now, Added(t1, info, q.value), Additions(Expected(t3), v.value));
    }
  }

  lemma NothingMore(now: seq<Node>)
    ensures AllKept(now, now, [])
  {
  }

  /**
   * An object whose base stays undecided has at most one child per member that is a child. It has one for each, in
   * order and under a name that starts with its key, repeated keys included, exactly if no addition collides.
   */
  lemma {:induction false} ObjectKeepsMembers(t: Text, name: Text)
    requires ObjectFrom(t, name).Ok? && forall a :: a in AdditionsOf(t, name) ==> IsFreelyNamed(a.to.base)
    ensures AllKept([], ChildrenOf(ObjectFrom(t, name).value.subs), AdditionsOf(t, name))
  {
    hide Additions, MembersFrom, AllKept, IsFreelyNamed;
    var t1 := Expected(t);
    if Front(SkipWhite(t1)) == RBRACE {
      NothingMore([]);
    } else {
      MembersAreKept(PeekedNonwhite(t1), Fresh(name));
    }
  }
}
