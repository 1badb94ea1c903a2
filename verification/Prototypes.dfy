/**
 * Flattening definitions into prototypes (definitions/Prototypes.java) and making instances of them
 * (definitions/Instances.java), on values: the meaning of a type name, the same with a cache and a depth limit, and
 * how deep the recursion goes.  Module PrototypeMaking holds the objects that do the work.
 */
module Prototypes {
  import opened CodeUnits
  import opened DataTree

  const TYPE: Text := Ascii("$type")
  const EXTENDS: Text := Ascii("$extends")
  const OVERLAYS: Text := Ascii("$overlays")
  const OPTIONAL: Text := Ascii("$optional")
  const MEMBER_TYPE_DEFINITION: Text := Ascii("$memberTypeDefinition")
  const NAMED_BITS: Text := Ascii("$namedBits")
  const NAMED_VALUES: Text := Ascii("$namedValues")
  const CHOICES: Text := Ascii("$choices")
  const ONE: Text := Ascii("1")
  const TRUE: Text := Ascii("true")

  /** A prototype or an instance; `proto` is the prototype it was made from. */
  datatype Built = Built(name: Text, base: Base, value: Option<Text>, subs: seq<Built>, proto: Proto)

  datatype Proto = BuiltIn(base: Base) | Made(item: Built)

  datatype Error = TooDeep | TooDeepInstance | MissingDefinition | NoMember | NotModelled | Endless

  datatype Outcome<+T> = Done(value: T) | Failed(error: Error)

  // ----- lists of items -----

  function PositionOf(subs: seq<Built>, name: Text): (i: nat)
    ensures i <= |subs|
    ensures i < |subs| ==> subs[i].name == name
    ensures forall j :: 0 <= j < i ==> subs[j].name != name
  {
    if subs == [] || subs[0].name == name then 0 else 1 + PositionOf(subs[1..], name)
  }

  predicate Has(subs: seq<Built>, name: Text) {
    PositionOf(subs, name) < |subs|
  }

  /** `removeLocal`: the first item of that name goes. */
  function Without(subs: seq<Built>, name: Text): seq<Built> {
    var i := PositionOf(subs, name);
    if i < |subs| then subs[..i] + subs[i + 1..] else subs
  }

  /** `addLocal`. */
  function With(subs: seq<Built>, sub: Built): seq<Built> {
    Without(subs, sub.name) + [sub]
  }

  function MetadataOnly(subs: seq<Built>): seq<Built> {
    if subs == [] then [] else (if IsMetadata(subs[0].name) then [subs[0]] else []) + MetadataOnly(subs[1..])
  }

  // ----- instances -----

  /** The `$optional` item in effect: the item's own if it has a value, else its prototype's. */
  function EffectiveOptional(b: Built): Option<Built>
    decreases b
  {
    var i := PositionOf(b.subs, OPTIONAL);
    if i < |b.subs| && b.subs[i].value.Some? then Some(b.subs[i])
    else if b.proto.BuiltIn? then None
    else EffectiveOptional(b.proto.item)
  }

  predicate IsOptional(b: Built) {
    var found := EffectiveOptional(b);
    found.Some? && found.value.value == Some(TRUE)
  }

  predicate IsCopied(b: Built) {
    !IsMetadata(b.name) && !IsOptional(b)
  }

  /** An instance of a prototype: its children that are not optional, likewise instantiated, and none of its metadata. */
  function Instance(p: Proto, name: Text): Built
    decreases p
  {
    match p
    case BuiltIn(base) => Built(name, base, None, [], p)
    case Made(b) => Built(name, b.base, b.value, Copies(b, |b.subs|), p)
  }

  /** The copies of the first `i` items. */
  function Copies(b: Built, i: nat): seq<Built>
    requires i <= |b.subs|
    decreases b, i
  {
    if i == 0 then []
    else
      var sub, before := b.subs[i - 1], Copies(b, i - 1);
      if IsCopied(sub) then With(before, Built(sub.name, sub.base, sub.value, Copies(sub, |sub.subs|), Made(sub)))
      else before
  }

  /** How deep the instantiation of a prototype recurses. */
  function Height(b: Built): nat
    decreases b
  {
    1 + HeightUpto(b, |b.subs|)
  }

  function HeightUpto(b: Built, i: nat): nat
    requires i <= |b.subs|
    decreases b, i
  {
    if i == 0 then 0
    else if IsCopied(b.subs[i - 1]) then Max(HeightUpto(b, i - 1), Height(b.subs[i - 1]))
    else HeightUpto(b, i - 1)
  }

  function HeightOf(p: Proto): nat {
    if p.BuiltIn? then 1 else Height(p.item)
  }

  function Max(a: nat, b: nat): nat {
    if a < b then b else a
  }

  function MakeInstance(limit: nat, p: Proto, name: Text): Outcome<Built> {
    if HeightOf(p) > limit then Failed(TooDeepInstance) else Done(Instance(p, name))
  }

  // ----- one definition -----

  /** What a definition extends, if anything: `$extends`, else `$type`, else `$overlays`. */
  function Extension(def: Node): Option<Node> {
    var e := Find(def.subs, EXTENDS);
    if e.Some? then e
    else
      var t := Find(def.subs, TYPE);
      if t.Some? then t else Find(def.subs, OVERLAYS)
  }

  /** `stringValue`: empty where there is no value. */
  function StringValue(item: Node): Text {
    if item.value.Some? then item.value.value else []
  }

  /** The children given in a definition of this base replace the extended ones. */
  predicate Replaces(base: Base) {
    base in {List, SequenceOf, Array, Collection, Unknown}
  }

  /** The children given in a definition of this base are added to the extended ones. */
  predicate Adds(base: Base) {
    base in {Object, Sequence, Composition, Choice}
  }

  /**
   * The positions at which a definition of n items is worked through: its metadata at 0..n, the children inherited so
   * far cleared at n if they are to be replaced, its children after that.
   */
  function Positions(def: Node): nat {
    2 * |def.subs| + 1
  }

  /** What happens at a position; `Part` makes a prototype of a part of the definition and adds it. */
  datatype Action = Ignore | Refuse(error: Error) | Clear | Part(def: Node, inList: bool)

  function ActionAt(def: Node, i: nat, result: Built): (a: Action)
    requires i < Positions(def)
    ensures a.Part? ==> a.def < def
    ensures a.Refuse? ==> a.error == NoMember || a.error == NotModelled
  {
    if i < |def.subs| then MetaAction(def.subs[i], result)
    else if i == |def.subs| then if Replaces(def.base) then Clear else Ignore
    else
      var child := def.subs[i - |def.subs| - 1];
      if !IsMetadata(child.name) && (Replaces(def.base) || Adds(def.base)) then Part(child, false) else Ignore
  }

  function MetaAction(m: Node, result: Built): (a: Action)
    ensures !a.Clear? && (a.Part? ==> a.def == m || a.def < m)
    ensures a.Refuse? ==> a.error == NoMember || a.error == NotModelled
  {
    if !IsMetadata(m.name) || m.name in {TYPE, EXTENDS, OVERLAYS} then Ignore
    else if m.name == MEMBER_TYPE_DEFINITION then
      var k := IndexOf(m.subs, ONE);
      if k < |m.subs| then Part(m.subs[k], true) else Refuse(NoMember)
    else if m.name in {NAMED_BITS, NAMED_VALUES, CHOICES} then Refuse(NotModelled)
    else if Has(result.subs, m.name) then Refuse(NotModelled) // only with two items of one name
    else Part(m, false)
  }

  function WithPart(result: Built, part: Built, inList: bool): Built {
    result.(subs := With(result.subs, if inList then Wrapped(part) else part))
  }

  function Wrapped(member: Built): Built {
    Built(MEMBER_TYPE_DEFINITION, List, None, [member], BuiltIn(List))
  }

  function Cleared(result: Built): Built {
    result.(subs := MetadataOnly(result.subs))
  }

  predicate GivesChildren(def: Node) {
    exists i :: 0 <= i < |def.subs| && !IsMetadata(def.subs[i].name)
  }

  /** What is left to do after the children: an item given children or a value is no longer optional. */
  function Completed(def: Node, result: Built): Built {
    var r := if Replaces(def.base) && GivesChildren(def) then result.(subs := Without(result.subs, OPTIONAL)) else result;
    if def.value.Some? then r.(value := def.value, subs := Without(r.subs, OPTIONAL)) else r
  }

  function Plainly(def: Node): Built {
    Built(def.name, def.base, None, [], BuiltIn(def.base))
  }

  // ----- flattening, without cache or depth limit -----

  /** The prototype of a type name; the fuel bounds how many names are looked up one inside another. */
  function FlatType(defs: seq<Node>, limit: nat, type_: Text, fuel: nat): Outcome<Proto>
    decreases fuel
  {
    if SLASH in type_ then Failed(NotModelled)
    else if BaseFromString(type_) != Invalid then Done(BuiltIn(BaseFromString(type_)))
    else
      match Find(defs, type_)
      case None => Failed(MissingDefinition)
      case Some(def) =>
        match FlatDef(defs, limit, def, fuel)
        case Failed(e) => Failed(e)
        case Done(b) => Done(Made(b))
  }

  function FlatDef(defs: seq<Node>, limit: nat, def: Node, fuel: nat): Outcome<Built>
    decreases fuel, def
  {
    match FlatUpto(defs, limit, def, Positions(def), fuel)
    case Failed(e) => Failed(e)
    case Done(b) => Done(Completed(def, b))
  }

  function FlatUpto(defs: seq<Node>, limit: nat, def: Node, i: nat, fuel: nat): Outcome<Built>
    requires i <= Positions(def)
    decreases fuel, def, i
  {
    if i == 0 then
      match Extension(def)
      case None => Done(Plainly(def))
      case Some(ext) =>
        if fuel == 0 then Failed(Endless)
        else
          match FlatType(defs, limit, StringValue(ext), fuel - 1)
          case Failed(e) => Failed(e)
          case Done(p) => MakeInstance(limit, p, def.name)
    else
      match FlatUpto(defs, limit, def, i - 1, fuel)
      case Failed(e) => Failed(e)
      case Done(r) =>
        match ActionAt(def, i - 1, r)
        case Ignore => Done(r)
        case Refuse(e) => Failed(e)
        case Clear => Done(Cleared(r))
        case Part(sub, inList) =>
          match FlatDef(defs, limit, sub, fuel)
          case Failed(e) => Failed(e)
          case Done(part) => Done(WithPart(r, part, inList))
  }

  // ----- flattening as the program does it -----

  type Cache = map<Text, Built>

  /** A result, and the cache it leaves. */
  datatype Run<+T> = Run(out: Outcome<T>, cache: Cache)

  /** `getPrototypeFor_recurse`, called at the given depth. */
  function Get(defs: seq<Node>, limit: nat, cache: Cache, type_: Text, depth: nat): (r: Run<Proto>)
    ensures r.out != Failed(Endless)
    decreases if depth < limit then limit - depth else 0, 0
  {
    if depth >= limit then Run(Failed(TooDeep), cache)
    else if SLASH in type_ then Run(Failed(NotModelled), cache)
    else if type_ in cache then Run(Done(Made(cache[type_])), cache)
    else if BaseFromString(type_) != Invalid then Run(Done(BuiltIn(BaseFromString(type_))), cache)
    else
      match Find(defs, type_)
      case None => Run(Failed(MissingDefinition), cache)
      case Some(def) =>
        var made := Make(defs, limit, cache, def, depth + 1);
        match made.out
        case Failed(e) => Run(Failed(e), made.cache)
        case Done(b) => Run(Done(Made(b)), made.cache[type_ := b])
  }

  /** `makePrototypeFromDefinition`, called at the given depth. */
  function Make(defs: seq<Node>, limit: nat, cache: Cache, def: Node, depth: nat): (r: Run<Built>)
    ensures r.out != Failed(Endless)
    decreases if depth < limit then limit - depth else 0, 0
  {
    if depth >= limit then Run(Failed(TooDeep), cache)
    else
      var made := MakeUpto(defs, limit, cache, def, Positions(def), depth + 1);
      match made.out
      case Failed(e) => Run(Failed(e), made.cache)
      case Done(b) => Run(Done(Completed(def, b)), made.cache)
  }

  function MakeUpto(defs: seq<Node>, limit: nat, cache: Cache, def: Node, i: nat, depth: nat): (r: Run<Built>)
    requires i <= Positions(def) && depth <= limit
    ensures r.out != Failed(Endless)
    decreases if depth < limit then limit - depth else 0, 1, i
  {
    if i == 0 then
      match Extension(def)
      case None => Run(Done(Plainly(def)), cache)
      case Some(ext) =>
        var got := Get(defs, limit, cache, StringValue(ext), depth);
        match got.out
        case Failed(e) => Run(Failed(e), got.cache)
        case Done(p) => Run(MakeInstance(limit, p, def.name), got.cache)
    else
      var before := MakeUpto(defs, limit, cache, def, i - 1, depth);
      match before.out
      case Failed(e) => before
      case Done(b) =>
        match ActionAt(def, i - 1, b)
        case Ignore => before
        case Refuse(e) => Run(Failed(e), before.cache)
        case Clear => Run(Done(Cleared(b)), before.cache)
        case Part(sub, inList) =>
          var made := Make(defs, limit, before.cache, sub, depth);
          match made.out
          case Failed(e) => Run(Failed(e), made.cache)
          case Done(part) => Run(Done(WithPart(b, part, inList)), made.cache)
  }
}
