/**
 * What is in a prototype (definitions/Prototypes.java, lines 106-245): the required children of what is extended, the
 * given metadata and the given children, in that order, by the rules for the base of the definition.
 */
module PrototypeContents {
  import opened CodeUnits
  import opened DataTree
  import opened Prototypes
  import opened PrototypeShape

  // ----- the parts -----

  /** What one item of the given metadata becomes: a prototype of its own, unless it only says what is extended. */
  function MetaPart(defs: seq<Node>, limit: nat, m: Node, fuel: nat): seq<Built> {
    if m.name in {Ascii("$type"), Ascii("$extends"), Ascii("$overlays")} then []
    else if m.name == Ascii("$memberTypeDefinition") then
      var member := Find(m.subs, Ascii("1"));
      if member.None? || FlatDef(defs, limit, member.value, fuel).Failed? then []
      else [Built(m.name, List, None, [FlatDef(defs, limit, member.value, fuel).value], BuiltIn(List))]
    else if FlatDef(defs, limit, m, fuel).Failed? then []
    else [FlatDef(defs, limit, m, fuel).value]
  }

  /** What the given metadata among the first `i` items become. */
  function MetaParts(defs: seq<Node>, limit: nat, def: Node, i: nat, fuel: nat): seq<Built>
    requires i <= |def.subs|
  {
    if i == 0 then []
    else
      var before, m := MetaParts(defs, limit, def, i - 1, fuel), def.subs[i - 1];
      if IsMetadata(m.name) then before + MetaPart(defs, limit, m, fuel) else before
  }

  /** What the given children among the first `i` items become. */
  function KidParts(defs: seq<Node>, limit: nat, def: Node, i: nat, fuel: nat): seq<Built>
    requires i <= |def.subs|
  {
    if i == 0 then []
    else
      var before, child := KidParts(defs, limit, def, i - 1, fuel), def.subs[i - 1];
      if IsMetadata(child.name) || FlatDef(defs, limit, child, fuel).Failed? then before
      else before + [FlatDef(defs, limit, child, fuel).value]
  }

  predicate NamedIn(items: seq<Built>, name: Text) {
    exists k :: 0 <= k < |items| && items[k].name == name
  }

  /** Those of the items that none of the others displaces by its name. */
  function Undisplaced(subs: seq<Built>, others: seq<Built>): seq<Built> {
    if subs == [] then []
    else (if NamedIn(others, subs[0].name) then [] else [subs[0]]) + Undisplaced(subs[1..], others)
  }

  /** The items of a prototype before `$optional` is dropped, with the children among the first `j` items given. */
  function Contents(defs: seq<Node>, limit: nat, def: Node, inherited: seq<Built>, j: nat, fuel: nat): seq<Built>
    requires j <= |def.subs|
  {
    var metas, kids := MetaParts(defs, limit, def, |def.subs|, fuel), KidParts(defs, limit, def, j, fuel);
    if def.base in {List, SequenceOf, Array, Collection, Unknown} then metas + kids
    else if def.base in {Object, Sequence, Composition, Choice} then Undisplaced(inherited, kids) + metas + kids
    else inherited + metas
  }

  /** The definition gives a value, or children that replace all others. */
  predicate IsSettled(def: Node) {
    || def.value.Some?
    || (&& def.base in {List, SequenceOf, Array, Collection, Unknown}
        && exists c :: c in def.subs && !IsMetadata(c.name))
  }

  // ----- lists -----

  lemma WithoutFirst(x: Built, rest: seq<Built>, name: Text)
    ensures Without([x] + rest, name) == if x.name == name then rest else [x] + Without(rest, name)
  {
    var all, i := [x] + rest, PositionOf(rest, name);
    assert all[1..] == rest;
    assert PositionOf(all, name) == if x.name == name then 0 else 1 + i;
    hide PositionOf;
    if x.name == name {
      assert all[..0] + all[1..] == rest;
    } else if i < |rest| {
      assert all[..i + 1] == [x] + rest[..i] && all[i + 2..] == rest[i + 1..];
      InFront(x, rest[..i], rest[i + 1..]);
    }
  }

  lemma WithoutNone(subs: seq<Built>, name: Text)
    requires forall s :: s in subs ==> s.name != name
    ensures Without(subs, name) == subs
  {
  }

  lemma NamedInMore(kids: seq<Built>, k: Built, name: Text)
    ensures NamedIn(kids + [k], name) <==> NamedIn(kids, name) || k.name == name
  {
    var all := kids + [k];
    if NamedIn(kids, name) {
      var i :| 0 <= i < |kids| && kids[i].name == name;
      assert all[i].name == name;
    }
    assert all[|kids|] == k;
  }

  lemma {:induction false} UndisplacedIgnores(subs: seq<Built>, kids: seq<Built>, k: Built)
    requires forall s :: s in subs ==> s.name != k.name
    ensures Undisplaced(subs, kids + [k]) == Undisplaced(subs, kids)
    decreases |subs|
  {
    hide NamedIn;
    if subs != [] {
      NamedInMore(kids, k, subs[0].name);
      UndisplacedIgnores(subs[1..], kids, k);
    }
  }

  lemma {:induction false} UndisplacedAll(subs: seq<Built>)
    ensures Undisplaced(subs, []) == subs
    decreases |subs|
  {
    if subs != [] {
      UndisplacedAll(subs[1..]);
      assert [subs[0]] + subs[1..] == subs;
    }
  }

  /** Adding one more child displaces at most one inherited item. */
  lemma {:induction false} OneMoreDisplaced(subs: seq<Built>, kids: seq<Built>, k: Built, rest: seq<Built>)
    requires Distinct(subs) && forall s :: s in rest ==> s.name != k.name
    ensures Without(Undisplaced(subs, kids) + rest, k.name) == Undisplaced(subs, kids + [k]) + rest
    decreases |subs|
  {
    hide NamedIn, Without, Undisplaced;
    if subs == [] {
      UndisplacedNothing(kids);
      UndisplacedNothing(kids + [k]);
      WithoutNone(rest, k.name);
      assert [] + rest == rest;
    } else {
      var x, t := subs[0], subs[1..];
      assert forall i :: 0 <= i < |t| ==> t[i] == subs[i + 1];
      NamedInMore(kids, k, x.name);
      UndisplacedStep(subs, kids);
      UndisplacedStep(subs, kids + [k]);
      OneMoreDisplaced(t, kids, k, rest);
      if !NamedIn(kids, x.name) {
        InFront(x, Undisplaced(t, kids), rest);
        WithoutFirst(x, Undisplaced(t, kids) + rest, k.name);
        if x.name == k.name {
          UndisplacedIgnores(t, kids, k);
        } else {
          InFront(x, Undisplaced(t, kids + [k]), rest);
        }
      }
    }
  }

  lemma InFront(x: Built, a: seq<Built>, b: seq<Built>)
    ensures [x] + a + b == [x] + (a + b)
  {
  }

  lemma {:induction false} UndisplacedNothing(others: seq<Built>)
    ensures Undisplaced([], others) == []
  {
  }

  lemma {:induction false} UndisplacedStep(subs: seq<Built>, others: seq<Built>)
    requires subs != []
    ensures Undisplaced(subs, others)
         == if NamedIn(others, subs[0].name) then Undisplaced(subs[1..], others)
            else [subs[0]] + Undisplaced(subs[1..], others)
  {
  }

  lemma {:induction false} MetadataOnlySplits(a: seq<Built>, b: seq<Built>)
    requires (forall s :: s in a ==> !IsMetadata(s.name)) && forall s :: s in b ==> IsMetadata(s.name)
    ensures MetadataOnly(a + b) == b
    decreases |a| + |b|
  {
    var all := a + b;
    if a != [] {
      assert all[0] == a[0] && all[1..] == a[1..] + b;
      MetadataOnlySplits(a[1..], b);
    } else if b != [] {
      assert all == b && all[1..] == [] + b[1..];
      MetadataOnlySplits([], b[1..]);
      assert [b[0]] + b[1..] == b;
    }
  }

  // ----- position by position -----

  /** What a position does, in terms of what its item becomes. */
  lemma {:induction false} ActionsAgree(defs: seq<Node>, limit: nat, def: Node, i: nat, r: Built, fuel: nat)
    requires i < |def.subs| && !ActionAt(def, i, r).Refuse?
    ensures var a, m := ActionAt(def, i, r), def.subs[i];
            && !a.Clear?
            && (a.Ignore? ==> !IsMetadata(m.name) || MetaPart(defs, limit, m, fuel) == [])
            && (a.Part? ==> IsMetadata(m.name)
                            && (FlatDef(defs, limit, a.def, fuel).Done? ==>
                                  var part := FlatDef(defs, limit, a.def, fuel).value;
                                  MetaPart(defs, limit, m, fuel) == [if a.inList then Wrapped(part) else part]))
  {
    hide FlatDef, Has;
  }

  lemma {:induction false} StartHasNoMetadata(defs: seq<Node>, limit: nat, def: Node, fuel: nat)
    requires FlatUpto(defs, limit, def, 0, fuel).Done?
    ensures forall s :: s in FlatUpto(defs, limit, def, 0, fuel).value.subs ==> !IsMetadata(s.name)
  {
    MetadataIsGiven(defs, limit, def, 0, fuel);
  }

  lemma {:induction false} MetaPartsAreMetadata(defs: seq<Node>, limit: nat, def: Node, i: nat, fuel: nat)
    requires i <= |def.subs|
    ensures forall s :: s in MetaParts(defs, limit, def, i, fuel) ==> IsMetadata(s.name)
    decreases i
  {
    hide FlatDef, Find, Has, IndexOf;
    if i > 0 {
      MetaPartsAreMetadata(defs, limit, def, i - 1, fuel);
      if FlatDef(defs, limit, def.subs[i - 1], fuel).Done? {
        PartName(defs, limit, def.subs[i - 1], fuel);
      }
    }
  }

  /** After the metadata: what was inherited, and what was given. */
  lemma {:induction false} MetadataIsAppended(defs: seq<Node>, limit: nat, def: Node, i: nat, fuel: nat)
    requires i <= |def.subs| && DistinctNames(def.subs) && FlatUpto(defs, limit, def, i, fuel).Done?
    ensures FlatUpto(defs, limit, def, 0, fuel).Done?
    ensures var start := FlatUpto(defs, limit, def, 0, fuel).value;
            FlatUpto(defs, limit, def, i, fuel).value
            == start.(subs := start.subs + MetaParts(defs, limit, def, i, fuel))
    decreases i
  {
    hide FlatDef, FlatType, ActionAt, MetaPart, Extension, Without, MakeInstance;
    var start := FlatUpto(defs, limit, def, 0, fuel);
    if i == 0 {
      assert start.value.subs + [] == start.value.subs;
    } else {
      MetadataIsAppended(defs, limit, def, i - 1, fuel);
      var r, m := FlatUpto(defs, limit, def, i - 1, fuel).value, def.subs[i - 1];
      ActionsAgree(defs, limit, def, i - 1, r, fuel);
      var a := ActionAt(def, i - 1, r);
      var so := start.value.subs + MetaParts(defs, limit, def, i - 1, fuel);
      assert so + [] == so && MetaParts(defs, limit, def, i - 1, fuel) + [] == MetaParts(defs, limit, def, i - 1, fuel);
      if a.Part? {
        var part := FlatDef(defs, limit, a.def, fuel).value;
        PartIsNew(defs, limit, def, i - 1, fuel);
        WithAppends(r.subs, if a.inList then Wrapped(part) else part);
        assert start.value.subs + MetaParts(defs, limit, def, i - 1, fuel) + [if a.inList then Wrapped(part) else part]
            == start.value.subs + MetaParts(defs, limit, def, i, fuel);
      }
    }
  }

  /** A piece of given metadata has a name that nothing so far has. */
  lemma {:induction false} PartIsNew(defs: seq<Node>, limit: nat, def: Node, i: nat, fuel: nat)
    requires i < |def.subs| && DistinctNames(def.subs) && FlatUpto(defs, limit, def, i, fuel).Done?
    requires var a := ActionAt(def, i, FlatUpto(defs, limit, def, i, fuel).value);
             a.Part? && FlatDef(defs, limit, a.def, fuel).Done?
    ensures var r := FlatUpto(defs, limit, def, i, fuel).value;
            var a := ActionAt(def, i, r);
            var part := FlatDef(defs, limit, a.def, fuel).value;
            var name := (if a.inList then Wrapped(part) else part).name;
            name == def.subs[i].name && IsMetadata(name) && forall s :: s in r.subs ==> s.name != name
  {
    hide FlatUpto, FlatDef, Has, IndexOf, Find;
    var r := FlatUpto(defs, limit, def, i, fuel).value;
    PartName(defs, limit, ActionAt(def, i, r).def, fuel);
    MetadataIsGiven(defs, limit, def, i, fuel);
    forall s | s in r.subs
      ensures s.name != def.subs[i].name
    {
      if IsMetadata(s.name) {
        var k :| 0 <= k < i && def.subs[k].name == s.name;
      }
    }
  }

  lemma {:induction false} KidNames(defs: seq<Node>, limit: nat, def: Node, i: nat, fuel: nat)
    requires i <= |def.subs|
    ensures forall s :: s in KidParts(defs, limit, def, i, fuel) ==> !IsMetadata(s.name) && NamedBefore(def, i, s.name)
    decreases i
  {
    hide FlatDef;
    if i > 0 {
      KidNames(defs, limit, def, i - 1, fuel);
      var child := def.subs[i - 1];
      if !IsMetadata(child.name) && FlatDef(defs, limit, child, fuel).Done? {
        PartName(defs, limit, child, fuel);
      }
    }
  }

  lemma {:induction false} ChildrenAreFilled(defs: seq<Node>, limit: nat, def: Node, j: nat, fuel: nat)
    requires j <= |def.subs| && DistinctNames(def.subs) && FlatUpto(defs, limit, def, |def.subs| + 1 + j, fuel).Done?
    ensures FlatUpto(defs, limit, def, 0, fuel).Done?
    ensures var start := FlatUpto(defs, limit, def, 0, fuel).value;
            FlatUpto(defs, limit, def, |def.subs| + 1 + j, fuel).value
            == start.(subs := Contents(defs, limit, def, start.subs, j, fuel))
    decreases j
  {
    hide FlatDef, FlatType, MetaAction, Extension, With, Without, MakeInstance, Undisplaced, MetaParts, IsMetadata;
    var n := |def.subs|;
    if j == 0 {
      ClearedRight(defs, limit, def, fuel);
    } else {
      ChildrenAreFilled(defs, limit, def, j - 1, fuel);
      var child := def.subs[j - 1];
      assert ActionAt(def, n + j, FlatUpto(defs, limit, def, n + j, fuel).value)
          == if !IsMetadata(child.name) && (Replaces(def.base) || Adds(def.base)) then Part(child, false) else Ignore;
      if !IsMetadata(child.name) && (Replaces(def.base) || Adds(def.base)) {
        ChildIsFilled(defs, limit, def, j, fuel);
      }
    }
  }

  lemma {:induction false} ClearedRight(defs: seq<Node>, limit: nat, def: Node, fuel: nat)
    requires DistinctNames(def.subs) && FlatUpto(defs, limit, def, |def.subs| + 1, fuel).Done?
    ensures FlatUpto(defs, limit, def, 0, fuel).Done?
    ensures var start := FlatUpto(defs, limit, def, 0, fuel).value;
            FlatUpto(defs, limit, def, |def.subs| + 1, fuel).value
            == start.(subs := Contents(defs, limit, def, start.subs, 0, fuel))
  {
    hide FlatDef, FlatType, MetaAction, Extension, With, Without, MakeInstance, Undisplaced, MetaParts;
    var n := |def.subs|;
    MetadataIsAppended(defs, limit, def, n, fuel);
    var start := FlatUpto(defs, limit, def, 0, fuel).value;
    var metas := MetaParts(defs, limit, def, n, fuel);
    StartHasNoMetadata(defs, limit, def, fuel);
    MetaPartsAreMetadata(defs, limit, def, n, fuel);
    MetadataOnlySplits(start.subs, metas);
    UndisplacedAll(start.subs);
    assert metas + [] == metas && start.subs + metas + [] == start.subs + metas;
  }

  /** One more given child. */
  lemma {:induction false} ChildIsFilled(defs: seq<Node>, limit: nat, def: Node, j: nat, fuel: nat)
    requires 0 < j <= |def.subs| && DistinctNames(def.subs) && FlatUpto(defs, limit, def, 0, fuel).Done?
    requires !IsMetadata(def.subs[j - 1].name) && (Replaces(def.base) || Adds(def.base))
    requires FlatDef(defs, limit, def.subs[j - 1], fuel).Done?
    ensures var inherited := FlatUpto(defs, limit, def, 0, fuel).value.subs;
            With(Contents(defs, limit, def, inherited, j - 1, fuel), FlatDef(defs, limit, def.subs[j - 1], fuel).value)
            == Contents(defs, limit, def, inherited, j, fuel)
  {
    hide FlatDef, FlatUpto, Undisplaced, MetaParts, Without, NamedIn;
    var start, child := FlatUpto(defs, limit, def, 0, fuel).value, def.subs[j - 1];
    var kid := FlatDef(defs, limit, child, fuel).value;
    var metas, kids := MetaParts(defs, limit, def, |def.subs|, fuel), KidParts(defs, limit, def, j - 1, fuel);
    PartName(defs, limit, child, fuel);
    MetaPartsAreMetadata(defs, limit, def, |def.subs|, fuel);
    KidNames(defs, limit, def, j - 1, fuel);
    var rest := metas + kids;
    forall s: Built | s in rest
      ensures s.name != kid.name
    {
      if s in kids {
        var k :| 0 <= k < j - 1 && def.subs[k].name == s.name;
      }
    }
    if Replaces(def.base) {
      WithAppends(rest, kid);
      assert rest + [kid] == metas + (kids + [kid]);
    } else {
      FlatUptoIsTidy(defs, limit, def, 0, fuel);
      OneMoreDisplaced(start.subs, kids, kid, rest);
      Regroup(Undisplaced(start.subs, kids), metas, kids, []);
      Regroup(Undisplaced(start.subs, kids + [kid]), metas, kids, [kid]);
    }
  }

  lemma Regroup(a: seq<Built>, b: seq<Built>, c: seq<Built>, d: seq<Built>)
    ensures a + b + c == a + (b + c) && a + (b + c) + d == a + b + (c + d)
  {
  }

  /**
   * A prototype has the base, prototype and - unless one is given - the value of the instance it starts from, the name
   * of the definition, and as its items: the inherited children, unless the base replaces them or a given child of the
   * same name displaces them; the given metadata; the given children.  An item given a value, or children that
   * replace, is no longer optional.
   */
  lemma {:induction false} PrototypeHas(defs: seq<Node>, limit: nat, def: Node, fuel: nat)
    requires DistinctNames(def.subs) && FlatDef(defs, limit, def, fuel).Done?
    ensures FlatUpto(defs, limit, def, 0, fuel).Done?
    ensures var start, b := FlatUpto(defs, limit, def, 0, fuel).value, FlatDef(defs, limit, def, fuel).value;
            var items := Contents(defs, limit, def, start.subs, |def.subs|, fuel);
            && b.name == def.name && b.base == start.base && b.proto == start.proto
            && b.value == (if def.value.Some? then def.value else start.value)
            && b.subs == if IsSettled(def) then Without(items, OPTIONAL) else items
  {
    hide FlatUpto, Without, MetaParts, KidParts, Undisplaced;
    ChildrenAreFilled(defs, limit, def, |def.subs|, fuel);
    FlatKeepsName(defs, limit, def, 0, fuel);
    FlatUptoIsTidy(defs, limit, def, Positions(def), fuel);
    var items := FlatUpto(defs, limit, def, Positions(def), fuel).value.subs;
    WithoutIsTidy(items, OPTIONAL);
    WithoutNone(Without(items, OPTIONAL), OPTIONAL);
  }

  // ----- when there is a prototype -----

  /** The k-th item of a definition can be made into what it stands for; merging is not modelled. */
  predicate ItemIsMade(defs: seq<Node>, limit: nat, def: Node, k: nat, fuel: nat)
    requires k < |def.subs|
  {
    var m := def.subs[k];
    if !IsMetadata(m.name) then
      def.base in {List, SequenceOf, Array, Collection, Unknown, Object, Sequence, Composition, Choice} ==>
        FlatDef(defs, limit, m, fuel).Done?
    else if m.name in {Ascii("$type"), Ascii("$extends"), Ascii("$overlays")} then true
    else if m.name == Ascii("$memberTypeDefinition") then
      var member := Find(m.subs, Ascii("1"));
      member.Some? && FlatDef(defs, limit, member.value, fuel).Done?
    else
      m.name !in {Ascii("$namedBits"), Ascii("$namedValues"), Ascii("$choices")} && FlatDef(defs, limit, m, fuel).Done?
  }

  /** Whether a position makes what it has to make. */
  predicate PositionIsMade(defs: seq<Node>, limit: nat, def: Node, i: nat, fuel: nat)
    requires i < Positions(def)
  {
    var n := |def.subs|;
    if i < n then IsMetadata(def.subs[i].name) ==> ItemIsMade(defs, limit, def, i, fuel)
    else i == n || (!IsMetadata(def.subs[i - n - 1].name) ==> ItemIsMade(defs, limit, def, i - n - 1, fuel))
  }

  lemma {:induction false} PositionSucceeds(defs: seq<Node>, limit: nat, def: Node, i: nat, r: Built, fuel: nat)
    requires i < Positions(def)
    requires i < |def.subs| && IsMetadata(def.subs[i].name) ==> !Has(r.subs, def.subs[i].name)
    ensures var a := ActionAt(def, i, r);
            PositionIsMade(defs, limit, def, i, fuel)
            <==> !a.Refuse? && (a.Part? ==> FlatDef(defs, limit, a.def, fuel).Done?)
  {
    hide FlatDef, Has;
  }

  lemma {:induction false} MadeUpto(defs: seq<Node>, limit: nat, def: Node, i: nat, fuel: nat)
    requires i <= Positions(def) && DistinctNames(def.subs)
    ensures FlatUpto(defs, limit, def, i, fuel).Done?
       <==> FlatUpto(defs, limit, def, 0, fuel).Done?
            && forall k :: 0 <= k < i ==> PositionIsMade(defs, limit, def, k, fuel)
    decreases i
  {
    hide FlatDef, FlatType, ActionAt, Extension, Has, With, MakeInstance, PositionIsMade, MetadataOnly;
    if i > 0 {
      MadeUpto(defs, limit, def, i - 1, fuel);
      if FlatUpto(defs, limit, def, i - 1, fuel).Done? {
        var r := FlatUpto(defs, limit, def, i - 1, fuel).value;
        if i - 1 < |def.subs| && IsMetadata(def.subs[i - 1].name) {
          NameIsNew(defs, limit, def, i - 1, fuel);
        }
        PositionSucceeds(defs, limit, def, i - 1, r, fuel);
      }
    }
  }

  lemma NotHad(subs: seq<Built>, name: Text)
    requires forall s :: s in subs ==> s.name != name
    ensures !Has(subs, name)
  {
  }

  lemma {:induction false} NameIsNew(defs: seq<Node>, limit: nat, def: Node, i: nat, fuel: nat)
    requires i < |def.subs| && DistinctNames(def.subs) && IsMetadata(def.subs[i].name)
    requires FlatUpto(defs, limit, def, i, fuel).Done?
    ensures !Has(FlatUpto(defs, limit, def, i, fuel).value.subs, def.subs[i].name)
  {
    hide FlatUpto, FlatDef;
    var r := FlatUpto(defs, limit, def, i, fuel).value;
    MetadataIsGiven(defs, limit, def, i, fuel);
    forall s | s in r.subs
      ensures s.name != def.subs[i].name
    {
      if IsMetadata(s.name) {
        var k :| 0 <= k < i && def.subs[k].name == s.name;
      }
    }
    NotHad(r.subs, def.subs[i].name);
  }

  /**
   * A definition has a prototype exactly if what it extends has one, no deeper than the limit, every piece of metadata
   * that is to be stored can be made into a prototype, member definitions naming their member, and so can every child
   * that its base lets it give.
   */
  lemma {:induction false} PrototypeIsMade(defs: seq<Node>, limit: nat, def: Node, fuel: nat)
    requires DistinctNames(def.subs)
    ensures FlatDef(defs, limit, def, fuel).Done?
       <==> FlatUpto(defs, limit, def, 0, fuel).Done?
            && forall k :: 0 <= k < |def.subs| ==> ItemIsMade(defs, limit, def, k, fuel)
  {
    hide FlatUpto, ItemIsMade;
    MadeUpto(defs, limit, def, Positions(def), fuel);
    var n := |def.subs|;
    if forall k :: 0 <= k < Positions(def) ==> PositionIsMade(defs, limit, def, k, fuel) {
      forall k | 0 <= k < n
        ensures ItemIsMade(defs, limit, def, k, fuel)
      {
        assert PositionIsMade(defs, limit, def, k, fuel) && PositionIsMade(defs, limit, def, n + 1 + k, fuel);
      }
    }
  }

  // ----- where a prototype starts -----

  /** What a definition can say it extends something with, first things first. */
  const LINKS: seq<Text> := [Ascii("$extends"), Ascii("$type"), Ascii("$overlays")]

  /**
   * A definition that says so starts from an instance of what the first of these names, whatever the others say, and that
   * is its prototype from then on.
   */
  lemma {:induction false} WhatIsExtended(defs: seq<Node>, limit: nat, def: Node, fuel: nat, k: nat)
    requires FlatDef(defs, limit, def, fuel).Done?
    requires k < |LINKS| && Find(def.subs, LINKS[k]).Some? && forall j :: 0 <= j < k ==> Find(def.subs, LINKS[j]).None?
    ensures var named := Find(def.subs, LINKS[k]).value.value;
            var extended := if named.Some? then named.value else [];
            && fuel > 0 && FlatType(defs, limit, extended, fuel - 1).Done?
            && var p := FlatType(defs, limit, extended, fuel - 1).value;
               && FlatUpto(defs, limit, def, 0, fuel) == Done(Instance(p, def.name))
               && FlatDef(defs, limit, def, fuel).value.proto == p && HeightOf(p) <= limit
  {
    hide FlatType, Instance, HeightOf;
    assert LINKS[0] == EXTENDS && LINKS[1] == TYPE && LINKS[2] == OVERLAYS;
    assert Extension(def) == Find(def.subs, LINKS[k]);
    ProtoIsKept(defs, limit, def, Positions(def), fuel);
    InstanceProto(FlatType(defs, limit, StringValue(Extension(def).value), fuel - 1).value, def.name);
  }

  lemma InstanceProto(p: Proto, name: Text)
    ensures Instance(p, name).proto == p
  {
  }

  /** Any other starts from nothing, as its base. */
  lemma {:induction false} NothingIsExtended(defs: seq<Node>, limit: nat, def: Node, fuel: nat)
    requires FlatDef(defs, limit, def, fuel).Done? && forall j :: 0 <= j < |LINKS| ==> Find(def.subs, LINKS[j]).None?
    ensures FlatUpto(defs, limit, def, 0, fuel) == Done(Built(def.name, def.base, None, [], BuiltIn(def.base)))
    ensures FlatDef(defs, limit, def, fuel).value.proto == BuiltIn(def.base)
  {
    assert LINKS[0] == EXTENDS && LINKS[1] == TYPE && LINKS[2] == OVERLAYS;
    ProtoIsKept(defs, limit, def, Positions(def), fuel);
  }

  lemma {:induction false} ProtoIsKept(defs: seq<Node>, limit: nat, def: Node, i: nat, fuel: nat)
    requires i <= Positions(def) && FlatUpto(defs, limit, def, i, fuel).Done?
    ensures FlatUpto(defs, limit, def, 0, fuel).Done?
    ensures FlatUpto(defs, limit, def, i, fuel).value.proto == FlatUpto(defs, limit, def, 0, fuel).value.proto
    decreases i
  {
    hide FlatDef, FlatType, ActionAt, Extension, With, MetadataOnly, Instance, HeightOf;
    if i > 0 {
      ProtoIsKept(defs, limit, def, i - 1, fuel);
    }
  }
}
