/** The objects that make prototypes and instances (definitions/Prototypes.java, definitions/Instances.java). */
module PrototypeMaking {
  import opened CodeUnits
  import opened DataTree
  import opened Prototypes
  import opened PrototypeCache

  /** A depth counter: `Prototypes.Depth`, and `cur_depth` of the context `makeInstance` creates. */
  class Depth {
    var depth: nat

    constructor ()
      ensures depth == 0
    {
      depth := 0;
    }
  }

  /** `makeInstanceOf_recurse`: the counter is back where it was on every normal return. */
  method MakeInstanceOfRecurse(limit: nat, prototype: Proto, name: Text, context: Depth) returns (out: Outcome<Built>)
    modifies context
    ensures out == if old(context.depth) + HeightOf(prototype) > limit then Failed(TooDeepInstance)
                   else Done(Instance(prototype, name))
    ensures out.Done? ==> context.depth == old(context.depth)
    decreases HeightOf(prototype)
  {
    hide IsCopied, With;
    if prototype.Made? {
      HeightIsPositive(prototype.item, |prototype.item.subs|);
    }
    context.depth := context.depth + 1;
    if context.depth > limit {
      return Failed(TooDeepInstance);
    }
    if prototype.BuiltIn? {
      context.depth := context.depth - 1;
      return Done(Built(name, prototype.base, None, [], prototype));
    }
    var b := prototype.item;
    var copies: seq<Built> := [];
    for i := 0 to |b.subs|
      invariant context.depth == old(context.depth) + 1
      invariant copies == Copies(b, i) && context.depth + HeightUpto(b, i) <= limit
    {
      HeightGrows(b, i + 1);
      var sub := b.subs[i];
      if IsCopied(sub) {
        var child := MakeInstanceOfRecurse(limit, Made(sub), sub.name, context);
        if child.Failed? {
          return child;
        }
        copies := With(copies, child.value);
      }
    }
    context.depth := context.depth - 1;
    out := Done(Built(name, b.base, b.value, copies, prototype));
  }

  lemma {:induction false} HeightIsPositive(b: Built, i: nat)
    requires i <= |b.subs|
    ensures Height(b) == 1 + HeightUpto(b, |b.subs|)
  {
  }

  lemma {:induction false} HeightGrows(b: Built, i: nat)
    requires i <= |b.subs|
    ensures HeightUpto(b, i) <= HeightUpto(b, |b.subs|)
    decreases |b.subs| - i
  {
    hide IsCopied, Height;
    if i < |b.subs| {
      HeightGrows(b, i + 1);
    }
  }

  /** `makeInstance` without initializers. */
  method MakeInstanceFrom(limit: nat, prototype: Proto, name: Text) returns (out: Outcome<Built>)
    ensures out == MakeInstance(limit, prototype, name)
  {
    var context := new Depth();
    out := MakeInstanceOfRecurse(limit, prototype, name, context);
  }

  /** The prototypes of a system, made on demand from a fixed set of definitions. */
  class Store {
    const definitions: seq<Node>
    const maxDefinitionDepth: nat
    var prototypes: Cache

    ghost predicate Valid()
      reads this
    {
      && (exists fuel :: Agrees(definitions, maxDefinitionDepth, prototypes, fuel))
      && Closed(definitions, prototypes)
    }

    constructor (definitions: seq<Node>, maxDefinitionDepth: nat)
      ensures Valid() && prototypes == map[]
      ensures this.definitions == definitions && this.maxDefinitionDepth == maxDefinitionDepth
    {
      this.definitions, this.maxDefinitionDepth, prototypes := definitions, maxDefinitionDepth, map[];
      new;
      EmptyCache(definitions, maxDefinitionDepth);
    }

    method GetPrototypeFor(typeName: Text) returns (out: Outcome<Proto>)
      requires Valid()
      modifies this
      ensures Valid()
      ensures Run(out, prototypes) == Get(definitions, maxDefinitionDepth, old(prototypes), typeName, 0)
    {
      hide Agrees, Closed, Get;
      ghost var fuel :| Agrees(definitions, maxDefinitionDepth, prototypes, fuel);
      ghost var before := prototypes;
      var depth := new Depth();
      out := GetPrototypeForRecurse(typeName, depth);
      GetCloses(definitions, maxDefinitionDepth, before, typeName, 0);
      ghost var g := GetIsFlat(definitions, maxDefinitionDepth, before, typeName, 0, fuel);
      assert Agrees(definitions, maxDefinitionDepth, prototypes, g);
    }

    method FindPrototypeFor(typeName: Text) returns (found: Option<Proto>)
      requires Valid()
      modifies this
      ensures Valid()
      ensures var r := Get(definitions, maxDefinitionDepth, old(prototypes), typeName, 0);
              prototypes == r.cache && found == if r.out.Done? then Some(r.out.value) else None
    {
      var out := GetPrototypeFor(typeName);
      found := if out.Done? then Some(out.value) else None;
    }

    /** The counter is back where it was on every normal return, and never passes the limit by more than one. */
    method GetPrototypeForRecurse(type_: Text, depth: Depth) returns (out: Outcome<Proto>)
      modifies this, depth
      ensures Run(out, prototypes) == Get(definitions, maxDefinitionDepth, old(prototypes), type_, old(depth.depth))
      ensures out.Done? ==> depth.depth == old(depth.depth)
      ensures depth.depth <= Max(old(depth.depth), maxDefinitionDepth) + 1
      decreases if depth.depth < maxDefinitionDepth then maxDefinitionDepth - depth.depth else 0, 0
    {
      hide Make, Find, BaseFromString;
      depth.depth := depth.depth + 1;
      if depth.depth > maxDefinitionDepth {
        return Failed(TooDeep);
      }
      if SLASH in type_ {
        return Failed(NotModelled);
      }
      if type_ in prototypes {
        depth.depth := depth.depth - 1;
        return Done(Made(prototypes[type_]));
      }
      var base := BaseFromString(type_);
      if base != Invalid {
        depth.depth := depth.depth - 1;
        return Done(BuiltIn(base));
      }
      var definition := Find(definitions, type_);
      if definition.None? {
        return Failed(MissingDefinition);
      }
      var made := MakePrototypeFromDefinition(definition.value, depth);
      if made.Failed? {
        return Failed(made.error);
      }
      prototypes := prototypes[type_ := made.value];
      depth.depth := depth.depth - 1;
      out := Done(Made(made.value));
    }

    method MakePrototypeFromDefinition(definition: Node, depth: Depth) returns (out: Outcome<Built>)
      modifies this, depth
      ensures Run(out, prototypes) == Make(definitions, maxDefinitionDepth, old(prototypes), definition, old(depth.depth))
      ensures out.Done? ==> depth.depth == old(depth.depth)
      ensures depth.depth <= Max(old(depth.depth), maxDefinitionDepth) + 1
      decreases if depth.depth < maxDefinitionDepth then maxDefinitionDepth - depth.depth else 0, 0
    {
      hide MakeUpto, Get, Find, Without;
      ghost var before := prototypes;
      depth.depth := depth.depth + 1;
      if depth.depth > maxDefinitionDepth {
        return Failed(TooDeep);
      }
      ghost var d := depth.depth;
      var started := StartPrototype(definition, depth);
      if started.Failed? {
        FailsLater(definitions, maxDefinitionDepth, before, definition, 0, Positions(definition), d);
        return started;
      }
      var described := AddMetadata(definition, started.value, depth, before);
      if described.Failed? {
        return described;
      }
      var result := described.value;
      if Replaces(definition.base) {
        result := result.(subs := MetadataOnly(result.subs));
      }
      ghost var n := |definition.subs|;
      StepClears(definitions, maxDefinitionDepth, before, definition, d);
      if Replaces(definition.base) || Adds(definition.base) {
        var filled, givenChildren := AddChildren(definition, result, depth, before);
        if filled.Failed? {
          return filled;
        }
        result := filled.value;
        if Replaces(definition.base) && givenChildren {
          result := result.(subs := Without(result.subs, OPTIONAL));
        }
      } else {
        NoChildren(definitions, maxDefinitionDepth, before, definition, Positions(definition), d);
      }
      if definition.value.Some? {
        result := result.(value := definition.value);
        result := result.(subs := Without(result.subs, OPTIONAL));
      }
      depth.depth := depth.depth - 1;
      out := Done(result);
    }

    /** An instance of what the definition extends, or a fresh item of its base. */
    method StartPrototype(definition: Node, depth: Depth) returns (out: Outcome<Built>)
      requires depth.depth <= maxDefinitionDepth
      modifies this, depth
      ensures Run(out, prototypes)
           == MakeUpto(definitions, maxDefinitionDepth, old(prototypes), definition, 0, old(depth.depth))
      ensures out.Done? ==> depth.depth == old(depth.depth)
      ensures depth.depth <= maxDefinitionDepth + 1
      decreases if depth.depth < maxDefinitionDepth then maxDefinitionDepth - depth.depth else 0, 1, 0
    {
      hide Get, Find, MakeInstance;
      var extensionOf := Find(definition.subs, EXTENDS);
      if extensionOf.None? {
        extensionOf := Find(definition.subs, TYPE);
      }
      if extensionOf.None? {
        extensionOf := Find(definition.subs, OVERLAYS);
      }
      if extensionOf.None? {
        return Done(Built(definition.name, definition.base, None, [], BuiltIn(definition.base)));
      }
      var prototypePrototype := GetPrototypeForRecurse(StringValue(extensionOf.value), depth);
      if prototypePrototype.Failed? {
        return Failed(prototypePrototype.error);
      }
      out := MakeInstanceFrom(maxDefinitionDepth, prototypePrototype.value, definition.name);
    }

    /** The loop over the given metadata. */
    method AddMetadata(definition: Node, start: Built, depth: Depth, ghost before: Cache) returns (out: Outcome<Built>)
      requires depth.depth <= maxDefinitionDepth
      requires MakeUpto(definitions, maxDefinitionDepth, before, definition, 0, depth.depth) == Run(Done(start), prototypes)
      modifies this, depth
      ensures out.Done? ==>
                && depth.depth == old(depth.depth)
                && MakeUpto(definitions, maxDefinitionDepth, before, definition, |definition.subs|, old(depth.depth))
                == Run(out, prototypes)
      ensures out.Failed? ==>
                MakeUpto(definitions, maxDefinitionDepth, before, definition, Positions(definition), old(depth.depth))
                == Run(out, prototypes)
      ensures depth.depth <= maxDefinitionDepth + 1
      decreases if depth.depth < maxDefinitionDepth then maxDefinitionDepth - depth.depth else 0, 1, 0
    {
      hide Make, Get, Find, WithPart, Has, MakeUpto, IndexOf;
      ghost var d := depth.depth;
      var result := start;
      for i := 0 to |definition.subs|
        invariant depth.depth == d
        invariant MakeUpto(definitions, maxDefinitionDepth, before, definition, i, d) == Run(Done(result), prototypes)
      {
        StepAt(definitions, maxDefinitionDepth, before, definition, i, d);
        var given := definition.subs[i];
        if !IsMetadata(given.name) || given.name in {TYPE, EXTENDS, OVERLAYS} {
          continue;
        }
        var refused := None;
        var memberDef, inList := given, false;
        if given.name == MEMBER_TYPE_DEFINITION {
          var k := IndexOf(given.subs, ONE);
          if k < |given.subs| {
            memberDef, inList := given.subs[k], true;
          } else {
            refused := Some(NoMember);
          }
        } else if given.name in {NAMED_BITS, NAMED_VALUES, CHOICES} || Has(result.subs, given.name) {
          refused := Some(NotModelled);
        }
        if refused.Some? {
          FailsLater(definitions, maxDefinitionDepth, before, definition, i + 1, Positions(definition), d);
          return Failed(refused.value);
        }
        var made := MakePrototypeFromDefinition(memberDef, depth);
        if made.Failed? {
          FailsLater(definitions, maxDefinitionDepth, before, definition, i + 1, Positions(definition), d);
          return Failed(made.error);
        }
        result := WithPart(result, made.value, inList);
      }
      out := Done(result);
    }

    /** The loop over the given children. */
    method AddChildren(definition: Node, start: Built, depth: Depth, ghost before: Cache)
      returns (out: Outcome<Built>, givenChildren: bool)
      requires depth.depth <= maxDefinitionDepth && (Replaces(definition.base) || Adds(definition.base))
      requires MakeUpto(definitions, maxDefinitionDepth, before, definition, |definition.subs| + 1, depth.depth)
            == Run(Done(start), prototypes)
      modifies this, depth
      ensures MakeUpto(definitions, maxDefinitionDepth, before, definition, Positions(definition), old(depth.depth))
           == Run(out, prototypes)
      ensures out.Done? ==> depth.depth == old(depth.depth) && givenChildren == GivesChildren(definition)
      ensures depth.depth <= maxDefinitionDepth + 1
      decreases if depth.depth < maxDefinitionDepth then maxDefinitionDepth - depth.depth else 0, 1, 0
    {
      hide Make, Get, Find, Without, MetaAction, MakeUpto;
      ghost var d, n := depth.depth, |definition.subs|;
      var result := start;
      givenChildren := false;
      for i := 0 to |definition.subs|
        invariant depth.depth == d
        invariant MakeUpto(definitions, maxDefinitionDepth, before, definition, n + 1 + i, d) == Run(Done(result), prototypes)
        invariant givenChildren <==> exists k :: 0 <= k < i && !IsMetadata(definition.subs[k].name)
      {
        StepAt(definitions, maxDefinitionDepth, before, definition, n + 1 + i, d);
        var given := definition.subs[i];
        if IsMetadata(given.name) {
          continue;
        }
        var made := MakePrototypeFromDefinition(given, depth);
        if made.Failed? {
          FailsLater(definitions, maxDefinitionDepth, before, definition, n + 2 + i, Positions(definition), d);
          return Failed(made.error), givenChildren;
        }
        result := result.(subs := With(result.subs, made.value));
        givenChildren := true;
      }
      out := Done(result);
    }
  }

  /** One position further. */
  lemma StepAt(defs: seq<Node>, limit: nat, cache: Cache, def: Node, i: nat, depth: nat)
    requires i < Positions(def) && depth <= limit && MakeUpto(defs, limit, cache, def, i, depth).out.Done?
    ensures var before, after := MakeUpto(defs, limit, cache, def, i, depth), MakeUpto(defs, limit, cache, def, i + 1, depth);
            match ActionAt(def, i, before.out.value)
            case Ignore => after == before
            case Refuse(e) => after == Run(Failed(e), before.cache)
            case Clear => after == Run(Done(Cleared(before.out.value)), before.cache)
            case Part(sub, inList) =>
              var made := Make(defs, limit, before.cache, sub, depth);
              after == Run(if made.out.Failed? then Failed(made.out.error)
                           else Done(WithPart(before.out.value, made.out.value, inList)), made.cache)
  {
    hide Make, Get, ActionAt;
  }

  /** A failure at one position is the failure of the whole. */
  lemma {:induction false} FailsLater(
      defs: seq<Node>, limit: nat, cache: Cache, def: Node, i: nat, j: nat, depth: nat)
    requires i <= j <= Positions(def) && depth <= limit && MakeUpto(defs, limit, cache, def, i, depth).out.Failed?
    ensures MakeUpto(defs, limit, cache, def, j, depth) == MakeUpto(defs, limit, cache, def, i, depth)
    decreases j
  {
    hide Make, Get, ActionAt;
    if i < j {
      FailsLater(defs, limit, cache, def, i, j - 1, depth);
    }
  }

  lemma {:induction false} StepClears(defs: seq<Node>, limit: nat, cache: Cache, def: Node, depth: nat)
    requires depth <= limit
    ensures var before, after := MakeUpto(defs, limit, cache, def, |def.subs|, depth),
                                 MakeUpto(defs, limit, cache, def, |def.subs| + 1, depth);
            before.out.Done? ==>
              after == if Replaces(def.base) then Run(Done(Cleared(before.out.value)), before.cache) else before
  {
    hide Make, Get;
  }

  /** Definitions of the other bases give no children. */
  lemma {:induction false} NoChildren(defs: seq<Node>, limit: nat, cache: Cache, def: Node, i: nat, depth: nat)
    requires depth <= limit && !Replaces(def.base) && !Adds(def.base) && |def.subs| <= i <= Positions(def)
    requires MakeUpto(defs, limit, cache, def, |def.subs|, depth).out.Done?
    ensures MakeUpto(defs, limit, cache, def, i, depth) == MakeUpto(defs, limit, cache, def, |def.subs|, depth)
    decreases i
  {
    hide Make, MakeUpto, Get, Replaces, Adds, MetaAction, IsMetadata;
    if i > |def.subs| {
      NoChildren(defs, limit, cache, def, i - 1, depth);
      StepAt(defs, limit, cache, def, i - 1, depth);
    }
  }
}
