/**
 * The cache of prototypes against the flattening it stands for (definitions/Prototypes.java, lines 55-104).
 *
 * Whatever has been asked before, an answer that is not "too deep" is the flattening of the name, and so is every
 * cached prototype; the cache holds everything its prototypes refer to, and nothing on a circular chain.
 */
module PrototypeCache {
  import opened CodeUnits
  import opened DataTree
  import opened Prototypes

  // ----- more fuel changes nothing -----

  lemma {:induction false} TypeFuel(defs: seq<Node>, limit: nat, t: Text, f: nat, g: nat)
    requires f <= g && FlatType(defs, limit, t, f) != Failed(Endless)
    ensures FlatType(defs, limit, t, g) == FlatType(defs, limit, t, f)
    decreases f
  {
    if SLASH !in t && BaseFromString(t) == Invalid {
      var found := Find(defs, t);
      if found.Some? {
        DefFuel(defs, limit, found.value, f, g);
      }
    }
  }

  lemma {:induction false} DefFuel(defs: seq<Node>, limit: nat, def: Node, f: nat, g: nat)
    requires f <= g && FlatDef(defs, limit, def, f) != Failed(Endless)
    ensures FlatDef(defs, limit, def, g) == FlatDef(defs, limit, def, f)
    decreases f, def
  {
    hide ActionAt;
    UptoFuel(defs, limit, def, Positions(def), f, g);
  }

  lemma {:induction false} UptoFuel(defs: seq<Node>, limit: nat, def: Node, i: nat, f: nat, g: nat)
    requires i <= Positions(def) && f <= g && FlatUpto(defs, limit, def, i, f) != Failed(Endless)
    ensures FlatUpto(defs, limit, def, i, g) == FlatUpto(defs, limit, def, i, f)
    decreases f, def, i
  {
    hide ActionAt, MakeInstance, Extension, StringValue, WithPart, Cleared, Plainly;
    if i == 0 {
      var ext := Extension(def);
      if ext.Some? {
        TypeFuel(defs, limit, StringValue(ext.value), f - 1, g - 1);
      }
    } else {
      UptoFuel(defs, limit, def, i - 1, f, g);
      var before := FlatUpto(defs, limit, def, i - 1, f);
      if before.Done? {
        var action := ActionAt(def, i - 1, before.value);
        if action.Part? {
          DefFuel(defs, limit, action.def, f, g);
        }
      }
    }
  }

  // ----- the cache agrees with the flattening -----

  /** Every cached prototype is the flattening of its name. */
  predicate Agrees(defs: seq<Node>, limit: nat, cache: Cache, fuel: nat) {
    forall t :: t in cache ==> FlatType(defs, limit, t, fuel) == Done(Made(cache[t]))
  }

  lemma AgreesFuel(defs: seq<Node>, limit: nat, cache: Cache, f: nat, g: nat)
    requires f <= g && Agrees(defs, limit, cache, f)
    ensures Agrees(defs, limit, cache, g)
  {
    hide FlatType;
    forall t | t in cache
      ensures FlatType(defs, limit, t, g) == Done(Made(cache[t]))
    {
      TypeFuel(defs, limit, t, f, g);
    }
  }

  /** Cached or not, deep or not: unless it is "too deep", the answer is the flattening. */
  lemma {:induction false} GetIsFlat(defs: seq<Node>, limit: nat, cache: Cache, t: Text, depth: nat, f: nat) returns (g: nat)
    requires Agrees(defs, limit, cache, f)
    ensures var r := Get(defs, limit, cache, t, depth);
            g >= f && Agrees(defs, limit, r.cache, g) && (r.out != Failed(TooDeep) ==> FlatType(defs, limit, t, g) == r.out)
    decreases if depth < limit then limit - depth else 0, 0
  {
    g := f;
    if depth < limit && SLASH !in t && t !in cache && BaseFromString(t) == Invalid && Find(defs, t).Some? {
      g := MakeIsFlat(defs, limit, cache, Find(defs, t).value, depth + 1, f);
    }
  }

  lemma {:induction false} MakeIsFlat(defs: seq<Node>, limit: nat, cache: Cache, def: Node, depth: nat, f: nat) returns (g: nat)
    requires Agrees(defs, limit, cache, f)
    ensures var r := Make(defs, limit, cache, def, depth);
            g >= f && Agrees(defs, limit, r.cache, g) && (r.out != Failed(TooDeep) ==> FlatDef(defs, limit, def, g) == r.out)
    decreases if depth < limit then limit - depth else 0, 0
  {
    hide FlatUpto, MakeUpto;
    g := f;
    if depth < limit {
      g := MakeUptoIsFlat(defs, limit, cache, def, Positions(def), depth + 1, f);
    }
  }

  lemma {:induction false} MakeUptoIsFlat(defs: seq<Node>, limit: nat, cache: Cache, def: Node, i: nat, depth: nat, f: nat)
    returns (g: nat)
    requires i <= Positions(def) && depth <= limit && Agrees(defs, limit, cache, f)
    ensures var r := MakeUpto(defs, limit, cache, def, i, depth);
            && g >= f && Agrees(defs, limit, r.cache, g)
            && (r.out != Failed(TooDeep) ==> FlatUpto(defs, limit, def, i, g) == r.out)
    decreases if depth < limit then limit - depth else 0, 1, i
  {
    hide Agrees, FlatDef, FlatType, Make, Get, ActionAt, MakeInstance, Extension, StringValue, WithPart, Cleared, Plainly;
    if i == 0 {
      var ext := Extension(def);
      g := f;
      if ext.Some? {
        g := GetIsFlat(defs, limit, cache, StringValue(ext.value), depth, f);
        AgreesFuel(defs, limit, Get(defs, limit, cache, StringValue(ext.value), depth).cache, g, g + 1);
        g := g + 1;
      }
    } else {
      g := MakeUptoIsFlat(defs, limit, cache, def, i - 1, depth, f);
      var before := MakeUpto(defs, limit, cache, def, i - 1, depth);
      if before.out.Done? {
        var b, action := g, ActionAt(def, i - 1, before.out.value);
        if action.Part? {
          g := MakeIsFlat(defs, limit, before.cache, action.def, depth, b);
          UptoFuel(defs, limit, def, i - 1, b, g);
        }
      }
    }
  }

  // ----- what a definition refers to -----

  /** The part worked on at a position, as far as the definition alone tells. */
  function PartAt(def: Node, i: nat): (p: Option<Node>)
    requires i < Positions(def)
    ensures p.Some? ==> p.value < def
  {
    var a := ActionAt(def, i, Plainly(def));
    if a.Part? then Some(a.def) else None
  }

  lemma ActionsAreStatic(def: Node, i: nat, r: Built)
    requires i < Positions(def)
    ensures var a := ActionAt(def, i, r);
            a.Refuse? || (if a.Part? then PartAt(def, i) == Some(a.def) else PartAt(def, i) == None)
  {
    var m := if i < |def.subs| then def.subs[i].name else [];
    assert !Has([], m);
  }

  /** A definition, or a part of it, extends the type `t`. */
  predicate Refers(def: Node, t: Text)
    decreases def
  {
    RefersUpto(def, Positions(def), t)
  }

  predicate RefersUpto(def: Node, i: nat, t: Text)
    requires i <= Positions(def)
    decreases def, i
  {
    if i == 0 then Extension(def).Some? && StringValue(Extension(def).value) == t
    else RefersUpto(def, i - 1, t) || (PartAt(def, i - 1).Some? && Refers(PartAt(def, i - 1).value, t))
  }

  /** Whatever a flattened definition refers to can be flattened with less fuel. */
  lemma {:induction false} ReferencesAreFlat(defs: seq<Node>, limit: nat, def: Node, i: nat, fuel: nat, t: Text)
    requires i <= Positions(def) && FlatUpto(defs, limit, def, i, fuel).Done? && RefersUpto(def, i, t)
    ensures fuel > 0 && FlatType(defs, limit, t, fuel - 1).Done?
    decreases def, i
  {
    hide ActionAt, MakeInstance, Extension, StringValue, WithPart, Cleared, Plainly, FlatType;
    if i > 0 {
      var before := FlatUpto(defs, limit, def, i - 1, fuel).value;
      if RefersUpto(def, i - 1, t) {
        ReferencesAreFlat(defs, limit, def, i - 1, fuel, t);
      } else {
        ActionsAreStatic(def, i - 1, before);
        var part := PartAt(def, i - 1).value;
        ReferencesAreFlat(defs, limit, part, Positions(part), fuel, t);
      }
    }
  }

  // ----- circular definitions -----

  /** Each name is defined, and its definition refers to the next. */
  predicate Chain(defs: seq<Node>, names: seq<Text>) {
    forall k :: 0 <= k < |names| - 1 ==> Links(defs, names[k], names[k + 1])
  }

  predicate Links(defs: seq<Node>, t: Text, u: Text) {
    BaseFromString(t) == Invalid && Find(defs, t).Some? && Refers(Find(defs, t).value, u)
  }

  lemma {:induction false} ChainIsFlat(defs: seq<Node>, limit: nat, names: seq<Text>, k: nat, fuel: nat)
    requires Chain(defs, names) && k < |names| && FlatType(defs, limit, names[0], fuel).Done?
    ensures k <= fuel && FlatType(defs, limit, names[k], fuel - k).Done?
    decreases k
  {
    hide FlatUpto, FlatDef, Find, Refers, BaseFromString;
    if k > 0 {
      ChainIsFlat(defs, limit, names, k - 1, fuel);
      assert Links(defs, names[k - 1], names[k - 1 + 1]);
      LinkIsFlat(defs, limit, names[k - 1], names[k], fuel - (k - 1));
    }
  }

  lemma LinkIsFlat(defs: seq<Node>, limit: nat, t: Text, u: Text, fuel: nat)
    requires Links(defs, t, u) && FlatType(defs, limit, t, fuel).Done?
    ensures fuel > 0 && FlatType(defs, limit, u, fuel - 1).Done?
  {
    hide FlatUpto;
    var def := Find(defs, t).value;
    ReferencesAreFlat(defs, limit, def, Positions(def), fuel, u);
  }

  /** A name whose definition leads into a circle has no flattening at all. */
  lemma {:induction false} CirclesAreNotFlat(defs: seq<Node>, limit: nat, names: seq<Text>, j: nat, fuel: nat)
    requires Chain(defs, names) && j < |names| - 1 && names[j] == names[|names| - 1]
    ensures !FlatType(defs, limit, names[0], fuel).Done?
    decreases fuel
  {
    hide FlatType, Links;
    if FlatType(defs, limit, names[0], fuel).Done? {
      var last := |names| - 1;
      ChainIsFlat(defs, limit, names, last, fuel);
      var circle := names[j..];
      assert Chain(defs, circle) by {
        forall k | 0 <= k < |circle| - 1
          ensures Links(defs, circle[k], circle[k + 1])
        {
          assert Links(defs, names[j + k], names[j + k + 1]);
        }
      }
      CirclesAreNotFlat(defs, limit, circle, 0, fuel - last);
    }
  }

  /** So it is never cached, and asking for it always ends in an exception. */
  lemma {:induction false} CirclesAreRefused(defs: seq<Node>, limit: nat, cache: Cache, names: seq<Text>, j: nat, depth: nat, fuel: nat)
    requires Agrees(defs, limit, cache, fuel)
    requires Chain(defs, names) && j < |names| - 1 && names[j] == names[|names| - 1]
    ensures var r := Get(defs, limit, cache, names[0], depth);
            r.out.Failed? && names[0] !in r.cache && names[0] !in cache
  {
    hide FlatType, Links, Get;
    var g := GetIsFlat(defs, limit, cache, names[0], depth, fuel);
    CirclesAreNotFlat(defs, limit, names, j, g);
    CirclesAreNotFlat(defs, limit, names, j, fuel);
  }

  // ----- the cache is closed -----

  predicate Known(cache: Cache, t: Text) {
    t in cache || BaseFromString(t) != Invalid
  }

  ghost predicate Covers(cache: Cache, def: Node, i: nat)
    requires i <= Positions(def)
  {
    forall t :: RefersUpto(def, i, t) ==> Known(cache, t)
  }

  /** Everything a cached prototype's definition refers to is cached, or is a base type. */
  ghost predicate Closed(defs: seq<Node>, cache: Cache) {
    forall t :: t in cache ==>
      Find(defs, t).Some? && Covers(cache, Find(defs, t).value, Positions(Find(defs, t).value))
  }

  lemma CoversMore(a: Cache, b: Cache, def: Node, i: nat)
    requires i <= Positions(def) && Covers(a, def, i) && a.Keys <= b.Keys
    ensures Covers(b, def, i)
  {
  }

  lemma ClosedMore(defs: seq<Node>, cache: Cache, t: Text, b: Built)
    requires Closed(defs, cache) && Find(defs, t).Some? && Covers(cache, Find(defs, t).value, Positions(Find(defs, t).value))
    ensures Closed(defs, cache[t := b])
  {
  }

  lemma {:induction false} GetCloses(defs: seq<Node>, limit: nat, cache: Cache, t: Text, depth: nat)
    requires Closed(defs, cache)
    ensures var r := Get(defs, limit, cache, t, depth);
            Closed(defs, r.cache) && cache.Keys <= r.cache.Keys && (r.out.Done? ==> Known(r.cache, t))
    decreases if depth < limit then limit - depth else 0, 0
  {
    hide Closed, Covers, Make, Find, BaseFromString;
    if depth < limit && SLASH !in t && t !in cache && BaseFromString(t) == Invalid && Find(defs, t).Some? {
      var def := Find(defs, t).value;
      MakeCloses(defs, limit, cache, def, depth + 1);
      var made := Make(defs, limit, cache, def, depth + 1);
      if made.out.Done? {
        ClosedMore(defs, made.cache, t, made.out.value);
      }
    }
  }

  lemma {:induction false} MakeCloses(defs: seq<Node>, limit: nat, cache: Cache, def: Node, depth: nat)
    requires Closed(defs, cache)
    ensures var r := Make(defs, limit, cache, def, depth);
            && Closed(defs, r.cache) && cache.Keys <= r.cache.Keys
            && (r.out.Done? ==> Covers(r.cache, def, Positions(def)))
    decreases if depth < limit then limit - depth else 0, 0
  {
    hide Closed, Covers, MakeUpto;
    if depth < limit {
      MakeUptoCloses(defs, limit, cache, def, Positions(def), depth + 1);
    }
  }

  lemma {:induction false} MakeUptoCloses(defs: seq<Node>, limit: nat, cache: Cache, def: Node, i: nat, depth: nat)
    requires i <= Positions(def) && depth <= limit && Closed(defs, cache)
    ensures var r := MakeUpto(defs, limit, cache, def, i, depth);
            && Closed(defs, r.cache) && cache.Keys <= r.cache.Keys && (r.out.Done? ==> Covers(r.cache, def, i))
    decreases if depth < limit then limit - depth else 0, 1, i
  {
    hide Closed, Covers, Make, Get, ActionAt, MakeInstance, Extension, StringValue, WithPart, Cleared, Plainly;
    if i == 0 {
      var ext := Extension(def);
      if ext.Some? {
        GetCloses(defs, limit, cache, StringValue(ext.value), depth);
      }
      CoversStart(MakeUpto(defs, limit, cache, def, i, depth).cache, def);
    } else {
      MakeUptoCloses(defs, limit, cache, def, i - 1, depth);
      var before := MakeUpto(defs, limit, cache, def, i - 1, depth);
      if before.out.Done? {
        var action := ActionAt(def, i - 1, before.out.value);
        ActionsAreStatic(def, i - 1, before.out.value);
        if action.Part? {
          MakeCloses(defs, limit, before.cache, action.def, depth);
          CoversMore(before.cache, Make(defs, limit, before.cache, action.def, depth).cache, def, i - 1);
        }
        if MakeUpto(defs, limit, cache, def, i, depth).out.Done? {
          CoversStep(MakeUpto(defs, limit, cache, def, i, depth).cache, def, i);
        }
      }
    }
  }

  lemma CoversStart(cache: Cache, def: Node)
    ensures Covers(cache, def, 0) <==>
              (Extension(def).Some? ==> Known(cache, StringValue(Extension(def).value)))
  {
  }

  lemma CoversStep(cache: Cache, def: Node, i: nat)
    requires 0 < i <= Positions(def) && Covers(cache, def, i - 1)
    requires var p := PartAt(def, i - 1); p.Some? ==> Covers(cache, p.value, Positions(p.value))
    ensures Covers(cache, def, i)
  {
  }

  // ----- exactly how deep a request goes -----

  /** The levels a request takes, and the names that are cached after it. */
  datatype Need = Need(levels: nat, known: set<Text>)

  /**
   * What asking for a type takes when the given names are cached - those cached earlier in the same request included.
   * It depends on the definitions and these names alone; `None` if the fuel is not enough.
   */
  function NeedType(defs: seq<Node>, known: set<Text>, t: Text, fuel: nat): Option<Need>
    decreases fuel
  {
    if SLASH in t || t in known || BaseFromString(t) != Invalid || Find(defs, t).None? then Some(Need(1, known))
    else
      var need := NeedDef(defs, known, Find(defs, t).value, fuel);
      if need.None? then None else Some(Need(need.value.levels + 1, need.value.known + {t}))
  }

  function NeedDef(defs: seq<Node>, known: set<Text>, def: Node, fuel: nat): Option<Need>
    decreases fuel, def
  {
    var need := NeedUpto(defs, known, def, Positions(def), fuel);
    if need.None? then None else Some(Need(need.value.levels + 1, need.value.known))
  }

  function NeedUpto(defs: seq<Node>, known: set<Text>, def: Node, i: nat, fuel: nat): Option<Need>
    requires i <= Positions(def)
    decreases fuel, def, i
  {
    if i == 0 then
      var ext := Extension(def);
      if ext.None? then Some(Need(0, known))
      else if fuel == 0 then None
      else NeedType(defs, known, StringValue(ext.value), fuel - 1)
    else
      var before, p := NeedUpto(defs, known, def, i - 1, fuel), PartAt(def, i - 1);
      if before.None? || p.None? then before
      else
        var need := NeedDef(defs, before.value.known, p.value, fuel);
        if need.None? then None else Some(Need(Max(before.value.levels, need.value.levels), need.value.known))
  }

  /** With enough fuel, more fuel changes nothing. */
  lemma {:induction false} NeedTypeFuel(defs: seq<Node>, known: set<Text>, t: Text, f: nat, g: nat)
    requires f <= g && NeedType(defs, known, t, f).Some?
    ensures NeedType(defs, known, t, g) == NeedType(defs, known, t, f)
    decreases f
  {
    hide NeedDef, Find, BaseFromString;
    if SLASH !in t && t !in known && BaseFromString(t) == Invalid && Find(defs, t).Some? {
      NeedDefFuel(defs, known, Find(defs, t).value, f, g);
    }
  }

  lemma {:induction false} NeedDefFuel(defs: seq<Node>, known: set<Text>, def: Node, f: nat, g: nat)
    requires f <= g && NeedDef(defs, known, def, f).Some?
    ensures NeedDef(defs, known, def, g) == NeedDef(defs, known, def, f)
    decreases f, def
  {
    hide NeedUpto;
    NeedUptoFuel(defs, known, def, Positions(def), f, g);
  }

  lemma {:induction false} NeedUptoFuel(defs: seq<Node>, known: set<Text>, def: Node, i: nat, f: nat, g: nat)
    requires i <= Positions(def) && f <= g && NeedUpto(defs, known, def, i, f).Some?
    ensures NeedUpto(defs, known, def, i, g) == NeedUpto(defs, known, def, i, f)
    decreases f, def, i
  {
    hide NeedDef, NeedType, PartAt, Extension, StringValue;
    if i == 0 {
      if Extension(def).Some? {
        NeedTypeFuel(defs, known, StringValue(Extension(def).value), f - 1, g - 1);
      }
    } else {
      NeedUptoFuel(defs, known, def, i - 1, f, g);
      var p := PartAt(def, i - 1);
      if p.Some? {
        NeedDefFuel(defs, NeedUpto(defs, known, def, i - 1, f).value.known, p.value, f, g);
      }
    }
  }

  /** A run against what it needs: never "too deep" within the limit, and never a result beyond it. */
  predicate Fits<T>(r: Run<T>, need: Need, depth: nat, limit: nat) {
    && (depth + need.levels <= limit ==> r.out != Failed(TooDeep))
    && (r.out.Done? ==> depth + need.levels <= limit && r.cache.Keys == need.known)
  }

  lemma {:induction false} GetFits(defs: seq<Node>, limit: nat, cache: Cache, t: Text, depth: nat, fuel: nat)
    requires NeedType(defs, cache.Keys, t, fuel).Some?
    ensures Fits(Get(defs, limit, cache, t, depth), NeedType(defs, cache.Keys, t, fuel).value, depth, limit)
    decreases fuel
  {
    hide Make, NeedDef, Find, BaseFromString;
    if SLASH !in t && t !in cache && BaseFromString(t) == Invalid && Find(defs, t).Some? {
      MakeFits(defs, limit, cache, Find(defs, t).value, depth + 1, fuel);
    }
  }

  lemma {:induction false} MakeFits(defs: seq<Node>, limit: nat, cache: Cache, def: Node, depth: nat, fuel: nat)
    requires NeedDef(defs, cache.Keys, def, fuel).Some?
    ensures Fits(Make(defs, limit, cache, def, depth), NeedDef(defs, cache.Keys, def, fuel).value, depth, limit)
    decreases fuel, def
  {
    hide MakeUpto, NeedUpto;
    if depth < limit {
      UptoFits(defs, limit, cache, def, Positions(def), depth + 1, fuel);
    }
  }

  lemma {:induction false} UptoFits(defs: seq<Node>, limit: nat, cache: Cache, def: Node, i: nat, depth: nat, fuel: nat)
    requires i <= Positions(def) && depth <= limit && NeedUpto(defs, cache.Keys, def, i, fuel).Some?
    ensures Fits(MakeUpto(defs, limit, cache, def, i, depth), NeedUpto(defs, cache.Keys, def, i, fuel).value, depth, limit)
    decreases fuel, def, i
  {
    hide Make, Get, NeedType, NeedDef, ActionAt, PartAt, Extension, StringValue, WithPart, Cleared, Plainly;
    if i == 0 {
      if Extension(def).Some? {
        GetFits(defs, limit, cache, StringValue(Extension(def).value), depth, fuel - 1);
      }
    } else {
      UptoFits(defs, limit, cache, def, i - 1, depth, fuel);
      var before := MakeUpto(defs, limit, cache, def, i - 1, depth);
      if before.out.Done? {
        var action := ActionAt(def, i - 1, before.out.value);
        ActionsAreStatic(def, i - 1, before.out.value);
        if action.Part? {
          MakeFits(defs, limit, before.cache, action.def, depth, fuel);
        }
      }
    }
  }

  /** A name with a flattening needs finitely many levels, whatever is cached. */
  lemma {:induction false} FlatTypeNeeds(defs: seq<Node>, limit: nat, known: set<Text>, t: Text, fuel: nat)
    requires FlatType(defs, limit, t, fuel).Done?
    ensures NeedType(defs, known, t, fuel).Some?
    decreases fuel
  {
    hide Find, BaseFromString, FlatDef, NeedDef;
    if SLASH !in t && t !in known && BaseFromString(t) == Invalid && Find(defs, t).Some? {
      FlatDefNeeds(defs, limit, known, Find(defs, t).value, fuel);
    }
  }

  lemma {:induction false} FlatDefNeeds(defs: seq<Node>, limit: nat, known: set<Text>, def: Node, fuel: nat)
    requires FlatDef(defs, limit, def, fuel).Done?
    ensures NeedDef(defs, known, def, fuel).Some?
    decreases fuel, def
  {
    hide FlatUpto, NeedUpto;
    FlatUptoNeeds(defs, limit, known, def, Positions(def), fuel);
  }

  lemma {:induction false} FlatUptoNeeds(defs: seq<Node>, limit: nat, known: set<Text>, def: Node, i: nat, fuel: nat)
    requires i <= Positions(def) && FlatUpto(defs, limit, def, i, fuel).Done?
    ensures NeedUpto(defs, known, def, i, fuel).Some?
    decreases fuel, def, i
  {
    hide FlatDef, FlatType, NeedDef, NeedType, ActionAt, PartAt, MakeInstance, Extension, WithPart, Cleared, Plainly;
    if i == 0 {
      if Extension(def).Some? {
        FlatTypeNeeds(defs, limit, known, StringValue(Extension(def).value), fuel - 1);
      }
    } else {
      FlatUptoNeeds(defs, limit, known, def, i - 1, fuel);
      ActionsAreStatic(def, i - 1, FlatUpto(defs, limit, def, i - 1, fuel).value);
      var p := PartAt(def, i - 1);
      if p.Some? {
        FlatDefNeeds(defs, limit, NeedUpto(defs, known, def, i - 1, fuel).value.known, p.value, fuel);
      }
    }
  }

  /**
   * Exactly when a request succeeds: for a name with a flattening the answer is that flattening if and only if the
   * levels needed, given what is cached, are within the limit; otherwise it is "too deep".
   */
  lemma {:induction false} GetGivesFlattening(defs: seq<Node>, limit: nat, cache: Cache, t: Text, depth: nat, p: Proto, f: nat, fuel: nat)
    requires Agrees(defs, limit, cache, f) && FlatType(defs, limit, t, fuel) == Done(p)
    ensures NeedType(defs, cache.Keys, t, fuel).Some?
    ensures var r, need := Get(defs, limit, cache, t, depth), NeedType(defs, cache.Keys, t, fuel).value;
            && (r.out == Done(p) <==> depth + need.levels <= limit)
            && (r.out == Failed(TooDeep) <==> depth + need.levels > limit)
            && (r.out.Done? ==> r.cache.Keys == need.known)
  {
    hide FlatType, NeedType, Get;
    FlatTypeNeeds(defs, limit, cache.Keys, t, fuel);
    GetFits(defs, limit, cache, t, depth, fuel);
    var g := GetIsFlat(defs, limit, cache, t, depth, f);
    var h := Max(g, fuel);
    TypeFuel(defs, limit, t, fuel, h);
    var r := Get(defs, limit, cache, t, depth);
    if r.out != Failed(TooDeep) {
      GetNeverEndless(defs, limit, cache, t, depth);
      TypeFuel(defs, limit, t, g, h);
    }
  }

  lemma {:induction false} GetNeverEndless(defs: seq<Node>, limit: nat, cache: Cache, t: Text, depth: nat)
    ensures Get(defs, limit, cache, t, depth).out != Failed(Endless)
  {
  }

  // ----- whole runs -----

  /** The cache after a run of requests. */
  function CacheAfter(defs: seq<Node>, limit: nat, requests: seq<Text>): Cache {
    if requests == [] then map[]
    else
      Get(defs, limit, CacheAfter(defs, limit, requests[..|requests| - 1]), requests[|requests| - 1], 0).cache
  }

  /** Over any run of requests, every cached prototype is the flattening of its name and the cache is closed. */
  lemma {:induction false} EveryRunAgrees(defs: seq<Node>, limit: nat, requests: seq<Text>) returns (fuel: nat)
    ensures Agrees(defs, limit, CacheAfter(defs, limit, requests), fuel)
    ensures Closed(defs, CacheAfter(defs, limit, requests))
  {
    hide Get, Closed, Agrees;
    if requests == [] {
      EmptyCache(defs, limit);
      fuel := 0;
    } else {
      var before := requests[..|requests| - 1];
      var f := EveryRunAgrees(defs, limit, before);
      fuel := GetIsFlat(defs, limit, CacheAfter(defs, limit, before), requests[|requests| - 1], 0, f);
      GetCloses(defs, limit, CacheAfter(defs, limit, before), requests[|requests| - 1], 0);
    }
  }

  lemma EmptyCache(defs: seq<Node>, limit: nat)
    ensures Agrees(defs, limit, map[], 0) && Closed(defs, map[])
  {
  }
}
