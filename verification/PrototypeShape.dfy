/**
 * What prototypes and their instances look like (definitions/Prototypes.java, lines 102-249, and
 * definitions/Instances.java, lines 61-90), and one thing the cache does change.
 */
module PrototypeShape {
  import opened CodeUnits
  import opened DataTree
  import opened Prototypes
  import opened PrototypeCache

  // ----- sibling names stay distinct -----

  predicate Distinct(subs: seq<Built>) {
    forall i, j :: 0 <= i < j < |subs| ==> subs[i].name != subs[j].name
  }

  /** Siblings have distinct names, all the way down and up the prototypes. */
  predicate Tidy(b: Built)
    decreases b
  {
    && Distinct(b.subs)
    && (forall i :: 0 <= i < |b.subs| ==> Tidy(b.subs[i]))
    && (b.proto.Made? ==> Tidy(b.proto.item))
  }

  predicate TidyList(subs: seq<Built>) {
    Distinct(subs) && forall i :: 0 <= i < |subs| ==> Tidy(subs[i])
  }

  lemma WithoutIsTidy(subs: seq<Built>, name: Text)
    requires TidyList(subs)
    ensures TidyList(Without(subs, name)) && forall s :: s in Without(subs, name) ==> s in subs && s.name != name
  {
  }

  lemma {:induction false} WithIsTidy(subs: seq<Built>, sub: Built)
    requires TidyList(subs) && Tidy(sub)
    ensures TidyList(With(subs, sub))
  {
    hide Tidy, Without;
    WithoutIsTidy(subs, sub.name);
  }

  lemma WithAppends(subs: seq<Built>, sub: Built)
    requires forall s :: s in subs ==> s.name != sub.name
    ensures With(subs, sub) == subs + [sub]
  {
  }

  lemma {:induction false} MetadataOnlyIsTidy(subs: seq<Built>)
    requires TidyList(subs)
    ensures TidyList(MetadataOnly(subs)) && forall s :: s in MetadataOnly(subs) ==> s in subs
  {
    hide Tidy;
    if subs != [] {
      var rest := subs[1..];
      assert forall i :: 0 <= i < |rest| ==> rest[i] == subs[i + 1];
      MetadataOnlyIsTidy(rest);
      var kept := MetadataOnly(rest);
      if IsMetadata(subs[0].name) {
        forall s | s in kept
          ensures s.name != subs[0].name
        {
          var i :| 0 <= i < |rest| && rest[i] == s;
        }
        assert forall i :: 0 < i <= |kept| ==> ([subs[0]] + kept)[i] == kept[i - 1];
      }
    }
  }

  lemma {:induction false} CopiesAreTidy(b: Built, i: nat)
    requires i <= |b.subs| && Tidy(b)
    ensures TidyList(Copies(b, i))
    decreases b, i
  {
    hide IsCopied, With;
    if i > 0 {
      var sub := b.subs[i - 1];
      CopiesAreTidy(b, i - 1);
      CopiesAreTidy(sub, |sub.subs|);
      WithIsTidy(Copies(b, i - 1), Built(sub.name, sub.base, sub.value, Copies(sub, |sub.subs|), Made(sub)));
    }
  }

  lemma {:induction false} FlatTypeIsTidy(defs: seq<Node>, limit: nat, t: Text, fuel: nat)
    requires FlatType(defs, limit, t, fuel).Done?
    ensures var p := FlatType(defs, limit, t, fuel).value; p.Made? ==> Tidy(p.item)
    decreases fuel
  {
    hide FlatDef, Tidy, Find, BaseFromString;
    if SLASH !in t && BaseFromString(t) == Invalid && Find(defs, t).Some? {
      FlatDefIsTidy(defs, limit, Find(defs, t).value, fuel);
    }
  }

  lemma {:induction false} FlatDefIsTidy(defs: seq<Node>, limit: nat, def: Node, fuel: nat)
    requires FlatDef(defs, limit, def, fuel).Done?
    ensures Tidy(FlatDef(defs, limit, def, fuel).value)
    decreases fuel, def
  {
    hide FlatUpto, Without;
    FlatUptoIsTidy(defs, limit, def, Positions(def), fuel);
    var b := FlatUpto(defs, limit, def, Positions(def), fuel).value;
    WithoutIsTidy(b.subs, OPTIONAL);
    WithoutIsTidy(Without(b.subs, OPTIONAL), OPTIONAL);
  }

  lemma {:induction false} FlatUptoIsTidy(defs: seq<Node>, limit: nat, def: Node, i: nat, fuel: nat)
    requires i <= Positions(def) && FlatUpto(defs, limit, def, i, fuel).Done?
    ensures Tidy(FlatUpto(defs, limit, def, i, fuel).value)
    decreases fuel, def, i
  {
    hide FlatDef, FlatType, ActionAt, Extension, With, MetadataOnly, Copies;
    if i == 0 {
      var ext := Extension(def);
      if ext.Some? {
        FlatTypeIsTidy(defs, limit, StringValue(ext.value), fuel - 1);
        var p := FlatType(defs, limit, StringValue(ext.value), fuel - 1).value;
        if p.Made? {
          CopiesAreTidy(p.item, |p.item.subs|);
        }
      }
    } else {
      FlatUptoIsTidy(defs, limit, def, i - 1, fuel);
      var r := FlatUpto(defs, limit, def, i - 1, fuel).value;
      var action := ActionAt(def, i - 1, r);
      MetadataOnlyIsTidy(r.subs);
      if action.Part? {
        FlatDefIsTidy(defs, limit, action.def, fuel);
        var part := FlatDef(defs, limit, action.def, fuel).value;
        WithIsTidy(r.subs, if action.inList then Wrapped(part) else part);
      }
    }
  }

  // ----- an instance is exactly the non-optional part of its prototype -----

  /** The children of `b` that are not optional, in order, among its first `i` items. */
  /** An item, the prototype it was made from, the one that was made from, and so on. */
  function Line(b: Built): (r: seq<Built>)
    ensures r != [] && r[0] == b
    decreases b
  {
    [b] + if b.proto.BuiltIn? then [] else Line(b.proto.item)
  }

  /** The first of the items called `$optional` is at that position. */
  predicate IsOptionalAt(b: Built, i: nat) {
    i < |b.subs| && b.subs[i].name == Ascii("$optional") && forall j :: 0 <= j < i ==> b.subs[j].name != Ascii("$optional")
  }

  /** The item has an `$optional` with that value, or has no value there. */
  predicate Says(b: Built, value: Text) {
    exists i :: 0 <= i < |b.subs| && IsOptionalAt(b, i) && b.subs[i].value == Some(value)
  }

  predicate Silent(b: Built) {
    forall i :: 0 <= i < |b.subs| && IsOptionalAt(b, i) ==> b.subs[i].value.None?
  }

  predicate IsOut(line: seq<Built>, k: nat)
    requires k < |line|
  {
    Says(line[k], Ascii("true")) && forall j :: 0 <= j < k ==> Silent(line[j])
  }

  /** The first in line to say anything about it says that the item is optional. */
  predicate LeftOut(b: Built) {
    exists k :: 0 <= k < |Line(b)| && IsOut(Line(b), k)
  }

  lemma OwnSays(b: Built)
    ensures var i := PositionOf(b.subs, OPTIONAL);
            if i < |b.subs| && b.subs[i].value.Some? then
              !Silent(b) && forall v :: Says(b, v) <==> b.subs[i].value == Some(v)
            else Silent(b) && forall v :: !Says(b, v)
  {
    var i := PositionOf(b.subs, OPTIONAL);
    assert i < |b.subs| ==> IsOptionalAt(b, i);
    forall k | 0 <= k < |b.subs| && IsOptionalAt(b, k)
      ensures k == i
    {
    }
  }

  /** What an item says goes; if it says nothing, what its prototype does. */
  lemma LeftOutStep(b: Built)
    ensures !Silent(b) ==> (LeftOut(b) <==> Says(b, Ascii("true")))
    ensures Silent(b) ==> (LeftOut(b) <==> b.proto.Made? && LeftOut(b.proto.item))
  {
    hide Says, Silent;
    OwnSays(b);
    var line := Line(b);
    if !Silent(b) {
      assert Says(b, Ascii("true")) ==> IsOut(line, 0);
    } else {
      assert !Says(b, Ascii("true"));
      if b.proto.Made? {
        var rest := Line(b.proto.item);
        assert line[1..] == rest;
        forall k | 0 <= k < |rest|
          ensures IsOut(rest, k) <==> IsOut(line, k + 1)
        {
          assert forall j :: 0 <= j < k ==> rest[j] == line[j + 1];
          assert forall j :: 1 <= j < k + 1 ==> line[j] == rest[j - 1];
        }
        if k :| 0 <= k < |line| && IsOut(line, k) {
          assert IsOut(rest, k - 1);
        }
      } else {
        assert line == [b];
      }
    }
  }

  lemma {:induction false} OptionalIsLeftOut(b: Built)
    ensures IsOptional(b) <==> LeftOut(b)
    decreases b
  {
    hide LeftOut, Says, Silent;
    OwnSays(b);
    LeftOutStep(b);
    if Silent(b) && b.proto.Made? {
      OptionalIsLeftOut(b.proto.item);
    }
  }

  /** Those of the first `i` items that an instance has to have. */
  function Required(b: Built, i: nat): seq<Built>
    requires i <= |b.subs|
  {
    if i == 0 then []
    else
      var sub := b.subs[i - 1];
      Required(b, i - 1) + if !IsMetadata(sub.name) && !LeftOut(sub) then [sub] else []
  }

  function InstancesOf(items: seq<Built>): (r: seq<Built>)
    ensures |r| == |items|
  {
    seq(|items|, i requires 0 <= i < |items| => Instance(Made(items[i]), items[i].name))
  }

  lemma {:induction false} CopiesAreExact(b: Built, i: nat)
    requires i <= |b.subs| && Distinct(b.subs)
    ensures Copies(b, i) == InstancesOf(Required(b, i))
    ensures forall s :: s in Required(b, i) ==> exists k :: 0 <= k < i && b.subs[k] == s
    decreases i
  {
    hide IsOptional, LeftOut, With;
    if i > 0 {
      CopiesAreExact(b, i - 1);
      OptionalIsLeftOut(b.subs[i - 1]);
      var sub, before := b.subs[i - 1], Required(b, i - 1);
      if IsCopied(sub) {
        forall s | s in InstancesOf(before)
          ensures s.name != sub.name
        {
          var k :| 0 <= k < |before| && InstancesOf(before)[k] == s;
          assert before[k] in before;
        }
        WithAppends(Copies(b, i - 1), Instance(Made(sub), sub.name));
        assert InstancesOf(before + [sub]) == InstancesOf(before) + [Instance(Made(sub), sub.name)];
      }
    }
  }

  /**
   * An instance has an instance of an item exactly if that is neither metadata nor left out, in the same order and once
   * each: there are positions, in ascending order, of exactly those items, and the instance holds instances of these.
   */
  lemma {:induction false} InstanceHasTheRest(b: Built, name: Text) returns (at: seq<nat>)
    requires Distinct(b.subs)
    ensures var subs := Instance(Made(b), name).subs;
            && |subs| == |at| && (forall m, n :: 0 <= m < n < |at| ==> at[m] < at[n])
            && (forall i :: i in at <==> 0 <= i < |b.subs| && !IsMetadata(b.subs[i].name) && !LeftOut(b.subs[i]))
            && (forall m :: 0 <= m < |at| ==> at[m] < |b.subs| && subs[m] == Instance(Made(b.subs[at[m]]), b.subs[at[m]].name))
  {
    CopiesAreExact(b, |b.subs|);
    at := RequiredAt(b, |b.subs|);
  }

  lemma {:induction false} RequiredAt(b: Built, i: nat) returns (at: seq<nat>)
    requires i <= |b.subs|
    ensures |Required(b, i)| == |at| && (forall m, n :: 0 <= m < n < |at| ==> at[m] < at[n])
    ensures forall k :: k in at <==> 0 <= k < i && !IsMetadata(b.subs[k].name) && !LeftOut(b.subs[k])
    ensures forall m :: 0 <= m < |at| ==> at[m] < i && Required(b, i)[m] == b.subs[at[m]]
    decreases i
  {
    hide LeftOut, IsMetadata;
    at := [];
    if i > 0 {
      at := RequiredAt(b, i - 1);
      if !IsMetadata(b.subs[i - 1].name) && !LeftOut(b.subs[i - 1]) {
        at := at + [i - 1];
      }
    }
  }

  /** The number of levels of an item and what is in it. */
  function Depth(b: Built): nat
    decreases b
  {
    1 + DepthUpto(b, |b.subs|)
  }

  function DepthUpto(b: Built, i: nat): nat
    requires i <= |b.subs|
    decreases b, i
  {
    if i == 0 then 0 else Max(DepthUpto(b, i - 1), Depth(b.subs[i - 1]))
  }

  /** Siblings are distinct all the way down. */
  predicate TidyBelow(b: Built)
    decreases b
  {
    Distinct(b.subs) && forall i :: 0 <= i < |b.subs| ==> TidyBelow(b.subs[i])
  }

  /** The limit on instances is one on their depth: that is how deep making one recurses. */
  lemma {:induction false} HeightIsDepth(b: Built, name: Text)
    requires TidyBelow(b)
    ensures HeightOf(Made(b)) == Depth(Instance(Made(b), name))
    decreases b, |b.subs| + 1
  {
    CopiesAreExact(b, |b.subs|);
    HeightIsDepthUpto(b, |b.subs|, Instance(Made(b), name));
  }

  lemma {:induction false} HeightIsDepthUpto(b: Built, i: nat, made: Built)
    requires i <= |b.subs| && TidyBelow(b) && InstancesOf(Required(b, i)) <= made.subs
    ensures HeightUpto(b, i) == DepthUpto(made, |Required(b, i)|)
    decreases b, i
  {
    hide IsOptional, LeftOut, Copies, Instance;
    if i > 0 {
      var sub, before := b.subs[i - 1], Required(b, i - 1);
      OptionalIsLeftOut(sub);
      if IsCopied(sub) {
        assert Required(b, i) == before + [sub];
        assert InstancesOf(before + [sub]) == InstancesOf(before) + [Instance(Made(sub), sub.name)];
        HeightIsDepth(sub, sub.name);
        assert made.subs[|before|] == Instance(Made(sub), sub.name);
      }
      HeightIsDepthUpto(b, i - 1, made);
    }
  }

  /** Builtins have nothing below them. */
  lemma {:induction false} InstanceIsAsDeep(limit: nat, p: Proto, name: Text)
    requires p.Made? ==> TidyBelow(p.item)
    ensures MakeInstance(limit, p, name)
         == if Depth(Instance(p, name)) <= limit then Done(Instance(p, name)) else Failed(TooDeepInstance)
  {
    hide TidyBelow;
    if p.Made? {
      HeightIsDepth(p.item, name);
    }
  }

  /** A child is left out by its own `$optional`, or its prototype's; and not if its own overrides that. */
  lemma OptionalChildren(own: Built, inherited: Built, overridden: Built, plain: Built, optional: Built, b: Built, name: Text)
    requires optional.name == Ascii("$optional") && optional.value == Some(Ascii("true"))
    requires own.subs == [optional] && own.name == Ascii("a")
    requires inherited.subs == [] && inherited.proto == Made(own) && inherited.name == Ascii("b")
    requires overridden.subs == [optional.(value := Some(Ascii("false")))] && overridden.proto == Made(own)
    requires overridden.name == Ascii("c") && plain.name == Ascii("d") && plain.subs == [] && plain.proto.BuiltIn?
    requires b.subs == [own, inherited, overridden, plain]
    ensures Instance(Made(b), name).subs
         == [Instance(Made(overridden), overridden.name), Instance(Made(plain), plain.name)]
  {
    hide LeftOut, Copies, IsMetadata, Says, Silent;
    OwnSays(own);
    OwnSays(inherited);
    OwnSays(overridden);
    OwnSays(plain);
    LeftOutStep(own);
    LeftOutStep(inherited);
    LeftOutStep(overridden);
    LeftOutStep(plain);
    FourApart(own, inherited, overridden, plain);
    var at := InstanceHasTheRest(b, name);
    assert at == [2, 3] by {
      assert 2 in at && 3 in at && forall i :: i in at ==> i == 2 || i == 3;
      TwoAscending(at);
    }
  }

  lemma FourApart(a: Built, b: Built, c: Built, d: Built)
    requires a.name == Ascii("a") && b.name == Ascii("b") && c.name == Ascii("c") && d.name == Ascii("d")
    ensures Distinct([a, b, c, d])
    ensures !IsMetadata(a.name) && !IsMetadata(b.name) && !IsMetadata(c.name) && !IsMetadata(d.name)
  {
    assert a.name[0] == 0x61 && b.name[0] == 0x62 && c.name[0] == 0x63 && d.name[0] == 0x64;
  }

  lemma TwoAscending(at: seq<nat>)
    requires (forall m, n :: 0 <= m < n < |at| ==> at[m] < at[n]) && 2 in at && 3 in at
    requires forall i :: i in at ==> i == 2 || i == 3
    ensures at == [2, 3]
  {
    var k :| 0 <= k < |at| && at[k] == 2;
    var l :| 0 <= l < |at| && at[l] == 3;
    assert forall m :: 0 <= m < |at| ==> at[m] in at;
    assert k == 0 && |at| >= 2 && at[1] == 3;
    assert at[|at| - 1] in at;
  }

  /** Any instance of any prototype: instances of its non-optional children, in order, and nothing else. */
  lemma {:induction false} InstanceOfPrototype(defs: seq<Node>, limit: nat, t: Text, fuel: nat, name: Text)
    requires FlatType(defs, limit, t, fuel).Done? && FlatType(defs, limit, t, fuel).value.Made?
    ensures var p := FlatType(defs, limit, t, fuel).value;
            var instance := Instance(p, name);
            && instance.name == name && instance.proto == p
            && instance.base == p.item.base && instance.value == p.item.value
            && instance.subs == InstancesOf(Required(p.item, |p.item.subs|))
  {
    hide FlatType, Copies;
    FlatTypeIsTidy(defs, limit, t, fuel);
    var p := FlatType(defs, limit, t, fuel).value;
    CopiesAreExact(p.item, |p.item.subs|);
  }

  // ----- given metadata is never there already -----

  lemma {:induction false} FlatKeepsName(defs: seq<Node>, limit: nat, def: Node, i: nat, fuel: nat)
    requires i <= Positions(def) && FlatUpto(defs, limit, def, i, fuel).Done?
    ensures FlatUpto(defs, limit, def, i, fuel).value.name == def.name
    decreases i
  {
    hide FlatDef, FlatType, ActionAt, Extension, With, MetadataOnly, Copies, HeightOf;
    if i > 0 {
      FlatKeepsName(defs, limit, def, i - 1, fuel);
    }
  }

  lemma {:induction false} CopiesHaveNoMetadata(b: Built, i: nat)
    requires i <= |b.subs|
    ensures forall s :: s in Copies(b, i) ==> !IsMetadata(s.name)
    decreases i
  {
    hide IsOptional, IsMetadata;
    if i > 0 {
      CopiesHaveNoMetadata(b, i - 1);
      WithoutKeeps(Copies(b, i - 1), b.subs[i - 1].name);
    }
  }

  predicate NamedBefore(def: Node, i: nat, name: Text)
    requires i <= |def.subs|
  {
    exists k :: 0 <= k < i && def.subs[k].name == name
  }

  lemma {:induction false} MetadataIsGiven(defs: seq<Node>, limit: nat, def: Node, i: nat, fuel: nat)
    requires i <= |def.subs| && FlatUpto(defs, limit, def, i, fuel).Done?
    ensures forall s :: s in FlatUpto(defs, limit, def, i, fuel).value.subs && IsMetadata(s.name) ==> NamedBefore(def, i, s.name)
    decreases i
  {
    hide FlatDef, FlatType, Extension, Copies, HeightOf, Has, IndexOf, Without;
    if i == 0 {
      var ext := Extension(def);
      if ext.Some? {
        var p := FlatType(defs, limit, StringValue(ext.value), fuel - 1).value;
        if p.Made? {
          CopiesHaveNoMetadata(p.item, |p.item.subs|);
        }
      }
    } else {
      MetadataIsGiven(defs, limit, def, i - 1, fuel);
      var r, m := FlatUpto(defs, limit, def, i - 1, fuel).value, def.subs[i - 1];
      var action := ActionAt(def, i - 1, r);
      if action.Part? {
        var part := FlatDef(defs, limit, action.def, fuel).value;
        PartName(defs, limit, action.def, fuel);
        WithoutKeeps(r.subs, m.name);
      }
    }
  }

  lemma {:induction false} PartName(defs: seq<Node>, limit: nat, def: Node, fuel: nat)
    requires FlatDef(defs, limit, def, fuel).Done?
    ensures FlatDef(defs, limit, def, fuel).value.name == def.name
  {
    hide FlatUpto;
    FlatKeepsName(defs, limit, def, Positions(def), fuel);
  }

  lemma WithoutKeeps(subs: seq<Built>, name: Text)
    ensures forall s :: s in Without(subs, name) ==> s in subs
  {
  }

  /** With distinct names in a definition, merging given metadata into metadata already there is never called for. */
  lemma {:induction false} MetadataComesOnce(defs: seq<Node>, limit: nat, def: Node, i: nat, fuel: nat)
    requires i < |def.subs| && DistinctNames(def.subs) && FlatUpto(defs, limit, def, i, fuel).Done?
    requires IsMetadata(def.subs[i].name)
    ensures !Has(FlatUpto(defs, limit, def, i, fuel).value.subs, def.subs[i].name)
  {
    hide FlatUpto;
    MetadataIsGiven(defs, limit, def, i, fuel);
    var r := FlatUpto(defs, limit, def, i, fuel).value;
    forall s | s in r.subs && IsMetadata(s.name)
      ensures s.name != def.subs[i].name
    {
      var k :| 0 <= k < i && def.subs[k].name == s.name;
    }
  }

  // ----- what the cache does change -----

  /** A definition that extends another and gives nothing. */
  function Link(name: Text, extended: Text): Node {
    Node(name, String, None, [Node(EXTENDS, String, Some(extended), [])])
  }

  lemma {:induction false} LinkMakes(defs: seq<Node>, limit: nat, cache: Cache, name: Text, extended: Text, depth: nat)
    requires depth < limit
    ensures var r, got := Make(defs, limit, cache, Link(name, extended), depth), Get(defs, limit, cache, extended, depth + 1);
            && r.cache == got.cache
            && match got.out
               case Failed(e) => r.out == Failed(e)
               case Done(p) => r.out == MakeInstance(limit, p, name)
  {
    hide Get, MakeInstance;
    var def := Link(name, extended);
    assert |EXTENDS| == 8 && EXTENDS[0] == DOLLAR;
    assert def.subs[0].name == EXTENDS;
    assert Extension(def) == Some(def.subs[0]);
    assert Positions(def) == 3;
    forall i: nat, r | i < 3
      ensures ActionAt(def, i, r) == Ignore
    {
    }
    var u0 := MakeUpto(defs, limit, cache, def, 0, depth + 1);
    var u1 := MakeUpto(defs, limit, cache, def, 1, depth + 1);
    var u2 := MakeUpto(defs, limit, cache, def, 2, depth + 1);
    assert u1 == u0 && u2 == u1;
  }

  lemma {:induction false} PlainMakes(defs: seq<Node>, limit: nat, cache: Cache, name: Text, depth: nat)
    requires depth < limit
    ensures Make(defs, limit, cache, Node(name, String, None, []), depth)
         == Run(Done(Built(name, String, None, [], BuiltIn(String))), cache)
  {
    var def := Node(name, String, None, []);
    assert Extension(def) == None;
    assert MakeUpto(defs, limit, cache, def, 0, depth + 1).out == Done(Plainly(def));
    assert Positions(def) == 1 && ActionAt(def, 0, Plainly(def)) == Ignore;
  }

  /** Definitions of which each extends the next, down to a plain one. */
  predicate Stacked(defs: seq<Node>, names: seq<Text>) {
    && names != []
    && (forall i, j :: 0 <= i < j < |names| ==> names[i] != names[j])
    && forall i :: 0 <= i < |names| ==> StackedAt(defs, names, i)
  }

  predicate StackedAt(defs: seq<Node>, names: seq<Text>, i: nat)
    requires i < |names|
  {
    && SLASH !in names[i] && BaseFromString(names[i]) == Invalid
    && Find(defs, names[i])
    == Some(if i == |names| - 1 then Node(names[i], String, None, []) else Link(names[i], names[i + 1]))
  }

  lemma {:induction false} MakeTooDeep(defs: seq<Node>, limit: nat, cache: Cache, def: Node, depth: nat)
    requires depth >= limit
    ensures Make(defs, limit, cache, def, depth) == Run(Failed(TooDeep), cache)
  {
  }

  /** A prototype without items, as every one on the stack is. */
  predicate IsBare(p: Proto) {
    p.Made? && p.item.subs == []
  }

  lemma BareInstance(limit: nat, p: Proto, name: Text)
    requires IsBare(p) && limit >= 1
    ensures MakeInstance(limit, p, name).Done? && MakeInstance(limit, p, name).value.subs == []
  {
    assert HeightUpto(p.item, 0) == 0 && Copies(p.item, 0) == [];
  }

  /** A request for a name on the stack when nothing is cached takes two levels for each definition from there on. */
  lemma {:induction false} StackFromEmpty(defs: seq<Node>, limit: nat, names: seq<Text>, k: nat, depth: nat)
    requires Stacked(defs, names) && k < |names|
    ensures var r := Get(defs, limit, map[], names[k], depth);
            if depth + 2 * (|names| - k) <= limit then
              && r.out.Done? && IsBare(r.out.value)
              && names[k] in r.cache && r.cache[names[k]] == r.out.value.item
              && forall j :: 0 <= j < k ==> names[j] !in r.cache
            else r == Run(Failed(TooDeep), map[])
    decreases |names| - k
  {
    hide BaseFromString, Find, Make, MakeInstance, Link;
    assert StackedAt(defs, names, k);
    if depth < limit {
      if depth + 1 >= limit {
        MakeTooDeep(defs, limit, map[], Find(defs, names[k]).value, depth + 1);
      } else if k == |names| - 1 {
        PlainMakes(defs, limit, map[], names[k], depth + 1);
      } else {
        LinkMakes(defs, limit, map[], names[k], names[k + 1], depth + 1);
        StackFromEmpty(defs, limit, names, k + 1, depth + 2);
        var got := Get(defs, limit, map[], names[k + 1], depth + 2);
        if got.out.Done? {
          BareInstance(limit, got.out.value, names[k]);
        }
      }
    }
  }

  /**
   * The order of requests matters, at every limit: the top of a stack of n definitions can be had at once if and only
   * if 2n levels are allowed; once the type it extends has been asked for, if and only if 2n - 2 are.  So at a limit of
   * 2n - 2 or 2n - 1 the same request is too deep in an empty cache, and fine after the other one.
   */
  lemma {:induction false} HistoryMatters(defs: seq<Node>, limit: nat, names: seq<Text>)
    requires Stacked(defs, names) && |names| >= 2 && limit >= 3
    ensures var r := Get(defs, limit, CacheAfter(defs, limit, []), names[0], 0);
            if 2 * |names| <= limit then r.out.Done? else r.out == Failed(TooDeep)
    ensures var r := Get(defs, limit, CacheAfter(defs, limit, [names[1]]), names[0], 0);
            if 2 * |names| - 2 <= limit then r.out.Done? else r.out == Failed(TooDeep)
  {
    hide BaseFromString, Find, Make, Link, MakeInstance;
    StackFromEmpty(defs, limit, names, 0, 0);
    StackFromEmpty(defs, limit, names, 1, 0);
    AfterOne(defs, limit, names[1]);
    var cache := CacheAfter(defs, limit, [names[1]]);
    if 2 * |names| - 2 <= limit {
      assert StackedAt(defs, names, 0);
      LinkMakes(defs, limit, cache, names[0], names[1], 1);
      BareInstance(limit, Made(cache[names[1]]), names[0]);
      CachedAt(defs, limit, cache, names[1], 2);
    }
  }

  lemma {:induction false} AfterOne(defs: seq<Node>, limit: nat, t: Text)
    ensures CacheAfter(defs, limit, []) == map[]
    ensures CacheAfter(defs, limit, [t]) == Get(defs, limit, map[], t, 0).cache
  {
    assert [t][..0] == [];
  }

  lemma {:induction false} CachedAt(defs: seq<Node>, limit: nat, cache: Cache, t: Text, depth: nat)
    requires depth < limit && t in cache && SLASH !in t
    ensures Get(defs, limit, cache, t, depth) == Run(Done(Made(cache[t])), cache)
  {
  }
}
