/**
 * What survives a trip through JSON: the item that the generator's document for an item describes.
 *
 * `Image` says, from the tree and the context alone, which names, bases, values, metadata and children a reader of
 * the generated text ends up with.
 */
module JsonItems {
  import opened CodeUnits
  import opened DataTree
  import opened Decimals
  import opened ChildNames
  import opened JsonStrings
  import opened JsonParsing
  import opened JsonDocuments
  import opened JsonRoundTrip

  function Leaf(name: Text, value: Text): Node {
    Node(name, Poly, Some(value), [])
  }

  /** The name a reader sees: internal names are not written at the top. */
  function ImageName(d: Item, depth: int): Text {
    if depth == 1 && StartsWith(d.name, [DOT, DOT]) then ANONYMOUS else d.name
  }

  predicate WritesBase(d: Item, cx: Context) {
    cx.includeBase || d.facts.untyped
  }

  function ImageBase(d: Item, cx: Context): Base {
    if WritesBase(d, cx) then d.base else Poly
  }

  predicate WritesError(d: Item, cx: Context) {
    cx.includeValue && d.value.Some? && !d.facts.readable
  }

  /** The item carries an error of its own. */
  predicate HasError(d: Item) {
    exists m :: m in d.meta && m.name == Ascii("$error")
  }

  lemma ErrorIsFound(d: Item)
    ensures HasItem(d.meta, ERROR) <==> HasError(d)
  {
    if HasError(d) {
      var m :| m in d.meta && m.name == ERROR;
      var i :| 0 <= i < |d.meta| && d.meta[i] == m;
    }
  }

  function ImageValue(d: Item, cx: Context): Option<Text> {
    if !cx.includeValue || !d.facts.readable || HasError(d) then None
    else if d.base in {Date, DateTime, Time} && d.facts.unspecified then None
    else d.value
  }

  /** The metadata that describes the extent of the item's children. */
  function ExtentLeaves(d: Item, depth: int, cx: Context): seq<Node> {
    if !d.facts.container then []
    else (if d.facts.truncated || depth > cx.depth then [Leaf(TRUNCATED, TRUE)] else [])
         + (if d.facts.partial then [Leaf(PARTIAL, TRUE)] else [])
         + (if d.facts.next.Some? then [Leaf(NEXT, d.facts.next.value)] else [])
  }

  function TypeLeaves(d: Item, depth: int, cx: Context): seq<Node> {
    if !cx.includeType && !d.facts.untyped && !d.facts.definition then []
    else (if d.facts.localType != [] && (depth == 1 || d.facts.untyped) then [Leaf(TYPE, d.facts.localType)] else [])
         + (if depth == 1 && d.facts.effectiveType != [] && d.facts.effectiveType != d.facts.localType
            then [Leaf(EFFECTIVE_TYPE, d.facts.effectiveType)] else [])
  }

  function HeadLeaves(d: Item, depth: int, cx: Context): seq<Node> {
    ExtentLeaves(d, depth, cx)
    + (if WritesError(d, cx) then [Leaf(ERROR, NOT_READABLE)] else [])
    + TypeLeaves(d, depth, cx)
  }

  /** The image of an item written in primitive form. */
  function SubImage(d: Item): Node {
    var asObject := if d.name == CSML then Collection else Poly; // an object so named becomes a Collection
    if !d.facts.readable then Node(d.name, asObject, None, [Leaf(ERROR, NOT_READABLE)])
    else if d.value.None? then Node(d.name, asObject, None, [])
    else Node(d.name, Poly, d.value, [])
  }

  function MetaImage(m: Item, depth: int, cx: Context): Node
    decreases m, 2
  {
    if MetaAsPrimitive(m) then SubImage(m) else Image(m, depth + 1, true, cx)
  }

  function MetaImages(meta: seq<Item>, depth: int, cx: Context): seq<Node>
    decreases meta, 0
  {
    if meta == [] then []
    else (if meta[0].name == TYPE then [] else [MetaImage(meta[0], depth, cx)]) + MetaImages(meta[1..], depth, cx)
  }

  function ChildImage(c: Item, depth: int, cx: Context): Node
    decreases c, 2
  {
    if ChildAsPrimitive(c, cx) then SubImage(c) else Image(c, depth + 1, false, cx)
  }

  function ChildImages(children: seq<Item>, depth: int, cx: Context): seq<Node>
    decreases children, 0
  {
    if children == [] then [] else [ChildImage(children[0], depth, cx)] + ChildImages(children[1..], depth, cx)
  }

  predicate Descends(depth: int, doingMetadata: bool, cx: Context) {
    depth <= cx.depth || doingMetadata
  }

  function MetaPart(d: Item, depth: int, cx: Context): seq<Node>
    decreases d, 0
  {
    HeadLeaves(d, depth, cx) + MetaImages(d.meta, depth, cx)
  }

  function ChildPart(d: Item, depth: int, doingMetadata: bool, cx: Context): seq<Node>
    decreases d, 0
  {
    if Descends(depth, doingMetadata, cx) then ChildImages(d.children, depth, cx) else []
  }

  function Image(d: Item, depth: int, doingMetadata: bool, cx: Context): Node
    decreases d, 1
  {
    var base := ImageBase(d, cx);
    var name := ImageName(d, depth);
    Node(name, if name == CSML && base == Poly then Collection else base, ImageValue(d, cx),
         MetaPart(d, depth, cx) + ChildPart(d, depth, doingMetadata, cx))
  }

  // ----- what the text looks like -----

  /** Numbers and truth values are written bare, anything else in quotes, in primitive form as well as in an object. */
  lemma {:induction false} ValueIsWritten(d: Item, depth: int, doingMetadata: bool, cx: Context, level: nat, layout: Layout)
    requires d.value.Some? && d.facts.readable
    ensures var text := if d.base in {Unsigned, Integer, Real, Double, Boolean} then d.value.value
                        else [QUOTE] + Escape(d.value.value) + [QUOTE];
            && Render(SubValue(d), level, layout) == text
            && (cx.includeValue && !HasError(d) && !(d.base in {Date, DateTime, Time} && d.facts.unspecified) ==>
                  exists p :: p in ObjectPairs(d, depth, doingMetadata, cx) && p.name == Ascii("$value")
                              && Render(p.val, level, layout) == text)
  {
    hide TopPairs, BasePairs, ExtentPairs, TypePairs, MetaPairs, ChildPairs, Escape;
    ErrorIsFound(d);
    var ps := ValuePairs(d, cx);
    if cx.includeValue && !HasError(d) && !(d.base in {Date, DateTime, Time} && d.facts.unspecified) {
      assert |ps| == 1 && ps[0].name == VALUE;
      var before := TopPairs(d, depth, cx) + BasePairs(d, cx) + ExtentPairs(d, depth, cx);
      assert ps[0] in before + ps;
      assert ps[0] in HeadPairs(d, depth, cx);
      assert ps[0] in ObjectPairs(d, depth, doingMetadata, cx);
    }
  }

  /** The top of a document, and only that, gives the item's name, unless it is an internal one, and the locale. */
  lemma {:induction false} TopIsWritten(d: Item, depth: int, doingMetadata: bool, cx: Context)
    requires (forall m :: m in d.meta ==> m.name !in {Ascii("$name"), Ascii("$$defaultLocale")})
    requires (forall c :: c in d.children ==> c.name !in {Ascii("$name"), Ascii("$$defaultLocale")})
    ensures var ps := ObjectPairs(d, depth, doingMetadata, cx);
            && (Pair(Ascii("$$defaultLocale"), Quoted(cx.locale)) in ps <==> depth == 1)
            && (Pair(Ascii("$name"), Quoted(d.name)) in ps <==> depth == 1 && !StartsWith(d.name, Ascii("..")))
  {
    hide MetaPairs, ChildPairs, TopPairs, BasePairs, ExtentPairs, ValuePairs, TypePairs;
    var locale, name := Pair(Ascii("$$defaultLocale"), Quoted(cx.locale)), Pair(Ascii("$name"), Quoted(d.name));
    TopAlone(d, depth, cx);
    MetaNames(d.meta, depth, cx);
    ChildNamesOf(d.children, depth, cx);
    var top, metas := TopPairs(d, depth, cx), MetaPairs(d.meta, depth, cx);
    var rest := BasePairs(d, cx) + ExtentPairs(d, depth, cx) + ValuePairs(d, cx) + TypePairs(d, depth, cx);
    var kids := if depth <= cx.depth || doingMetadata then ChildPairs(d.children, depth, cx) else [];
    assert ObjectPairs(d, depth, doingMetadata, cx) == top + rest + metas + kids;
  }

  lemma TopAlone(d: Item, depth: int, cx: Context)
    ensures forall p :: p in BasePairs(d, cx) + ExtentPairs(d, depth, cx) + ValuePairs(d, cx) + TypePairs(d, depth, cx) ==>
              p.name !in {Ascii("$name"), Ascii("$$defaultLocale")}
    ensures Pair(DEFAULT_LOCALE, Quoted(cx.locale)) in TopPairs(d, depth, cx) <==> depth == 1
    ensures Pair(NAME, Quoted(d.name)) in TopPairs(d, depth, cx) <==> depth == 1 && !StartsWith(d.name, Ascii(".."))
  {
    hide RoleOf, BaseToString, IsMetadata, SafeText;
    FixedNames();
    assert [DOT, DOT] == Ascii("..");
  }

  lemma {:induction false} MetaNames(ms: seq<Item>, depth: int, cx: Context)
    ensures forall p :: p in MetaPairs(ms, depth, cx) ==> exists m :: m in ms && m.name == p.name
  {
    hide ObjectPairs, SubValue;
    if ms != [] {
      MetaNames(ms[1..], depth, cx);
      assert ms[0] in ms;
    }
  }

  lemma {:induction false} ChildNamesOf(cs: seq<Item>, depth: int, cx: Context)
    ensures forall p :: p in ChildPairs(cs, depth, cx) ==> exists c :: c in cs && c.name == p.name
  {
    hide ObjectPairs, SubValue;
    if cs != [] {
      ChildNamesOf(cs[1..], depth, cx);
      assert cs[0] in cs;
    }
  }

  // ----- the items whose text can be read back -----

  predicate SafeFacts(d: Item, cx: Context) {
    && SafeText(d.name) && SafeText(cx.locale)
    && (d.value.Some? ==> if IsUnquoted(d.base) then SafeBare(d.value.value) else SafeText(d.value.value))
    && (d.facts.next.Some? ==> SafeText(d.facts.next.value))
    && SafeText(d.facts.localType) && SafeText(d.facts.effectiveType)
  }

  /** The parser lets the children keep their names, given the base and metadata it has seen by then. */
  predicate NamesFit(base: Base, metadata: seq<Node>, children: seq<Node>) {
    if IsNumbered(base) then
      if IsTrue(Find(metadata, PARTIAL)) then forall c :: c in children ==> c.name != [] && ParseInt(c.name).Some?
      else forall i :: 0 <= i < |children| ==> children[i].name == ToString(i + 1)
    else if IsFreelyNamed(base) then forall c :: c in children ==> c.name != []
    else true
  }

  predicate Legal(d: Item, depth: int, doingMetadata: bool, cx: Context)
    decreases d, 1
  {
    && SafeFacts(d, cx)
    && LegalMeta(d.meta, depth, cx)
    && (Descends(depth, doingMetadata, cx) ==> LegalChildren(d.children, depth, cx))
    && DistinctNames(MetaPart(d, depth, cx) + ChildPart(d, depth, doingMetadata, cx))
    && NamesFit(ImageBase(d, cx), MetaPart(d, depth, cx), ChildPart(d, depth, doingMetadata, cx))
    && (ImageName(d, depth) == CSML ==> ImageBase(d, cx) == Poly || ImageBase(d, cx) == Collection)
  }

  predicate LegalMeta(meta: seq<Item>, depth: int, cx: Context)
    decreases meta, 0
  {
    meta != [] ==>
      && (meta[0].name == TYPE ||
          (&& IsMetadata(meta[0].name) && RoleOf(meta[0].name) == Plain
           && (if MetaAsPrimitive(meta[0]) then SafeFacts(meta[0], cx) else Legal(meta[0], depth + 1, true, cx))))
      && LegalMeta(meta[1..], depth, cx)
  }

  predicate LegalChildren(children: seq<Item>, depth: int, cx: Context)
    decreases children, 0
  {
    children != [] ==>
      && !IsMetadata(children[0].name) && RoleOf(children[0].name) == Plain
      && (if ChildAsPrimitive(children[0], cx) then SafeFacts(children[0], cx)
          else Legal(children[0], depth + 1, false, cx))
      && LegalChildren(children[1..], depth, cx)
  }

  // ----- the fixed names -----

  /** A name with a single dollar sign, at its start, and not one of the reserved ones is an ordinary metadata name. */
  lemma OrdinaryName(name: Text)
    requires |name| > 1 && name[0] == DOLLAR && forall i :: 1 <= i < |name| ==> name[i] != DOLLAR
    requires name != VALUE && name != NAME && name != BASE
    ensures RoleOf(name) == Plain && IsMetadata(name)
  {
    assert DEFAULT_LOCALE[1] == DOLLAR && COMMENT[1] == DOLLAR;
  }

  /** The reserved names tell themselves apart by their second character. */
  lemma ReservedNames()
    ensures RoleOf(VALUE) == TheValue && RoleOf(NAME) == TheName && RoleOf(BASE) == TheBase
    ensures RoleOf(DEFAULT_LOCALE) == TheLocale
    ensures SafeText(VALUE) && SafeText(NAME) && SafeText(BASE) && SafeText(DEFAULT_LOCALE)
    ensures VALUE[1] == 0x76 && NAME[1] == 0x6E && NAME[2] == 0x61 && BASE[1] == 0x62
  {
    assert VALUE[1] == 0x76 && NAME[2] == 0x61 && BASE[1] == 0x62 && NAME[1] == 0x6E && DEFAULT_LOCALE[1] == DOLLAR;
  }

  lemma FixedNames()
    ensures forall n :: n in {ERROR, NEXT, TRUNCATED, PARTIAL, TYPE, EFFECTIVE_TYPE}
              ==> RoleOf(n) == Plain && IsMetadata(n) && SafeText(n)
    ensures RoleOf(VALUE) == TheValue && RoleOf(NAME) == TheName && RoleOf(BASE) == TheBase
    ensures RoleOf(DEFAULT_LOCALE) == TheLocale
    ensures SafeText(VALUE) && SafeText(NAME) && SafeText(BASE) && SafeText(DEFAULT_LOCALE)
  {
    hide RoleOf;
    ReservedNames();
    assert ERROR[1] == 0x65 && NEXT[2] == 0x65;
    OrdinaryName(ERROR);
    OrdinaryName(NEXT);
    OrdinaryName(TRUNCATED);
    OrdinaryName(PARTIAL);
    OrdinaryName(TYPE);
    OrdinaryName(EFFECTIVE_TYPE);
  }

  // ----- putting members together -----

  lemma {:induction false} AssembleAppend(a: seq<Pair>, b: seq<Pair>, info: Node)
    requires Assemble(a, info).Done?
    ensures Assemble(a + b, info) == Assemble(b, Assemble(a, info).value)
  {
    if a == [] {
      assert a + b == b;
    } else {
      assert (a + b)[0] == a[0] && (a + b)[1..] == a[1..] + b;
      AssembleAppend(a[1..], b, Apply(info, a[0]).value);
    }
  }

  lemma {:induction false} AssembleOne(p: Pair, info: Node)
    ensures Assemble([p], info) == Apply(info, p)
  {
    assert [p][1..] == [];
  }

  /** Ordinary members and the items they stand for. */
  predicate Describes(ps: seq<Pair>, ns: seq<Node>) {
    && |ps| == |ns|
    && forall i :: 0 <= i < |ps| ==>
         RoleOf(ps[i].name) == Plain && ns[i].name == ps[i].name && NodeOf(ps[i].val, ps[i].name) == Done(ns[i])
  }

  function Adding(info: Node, ns: seq<Node>): Node {
    info.(subs := info.subs + ns)
  }

  lemma AddingMore(info: Node, n: Node, ns: seq<Node>)
    ensures Adding(Adding(info, [n]), ns) == Adding(info, [n] + ns)
    ensures Adding(info, []) == info
  {
    assert info.subs + [n] + ns == info.subs + ([n] + ns);
    assert info.subs + [] == info.subs;
  }

  lemma NewName(subs: seq<Node>, ns: seq<Node>)
    requires DistinctNames(subs + ns) && ns != []
    ensures forall n :: n in subs ==> n.name != ns[0].name
    ensures DistinctNames(subs + [ns[0]] + ns[1..])
    ensures Find(subs, ns[0].name).None?
  {
    assert (subs + ns)[|subs|] == ns[0];
    forall n | n in subs
      ensures n.name != ns[0].name
    {
      var i :| 0 <= i < |subs| && subs[i] == n;
      assert (subs + ns)[i] == n;
    }
    assert subs + [ns[0]] + ns[1..] == subs + ns;
  }

  lemma {:induction false} MetadataIsAdded(ps: seq<Pair>, ns: seq<Node>, info: Node)
    requires Describes(ps, ns)
    requires forall n :: n in ns ==> IsMetadata(n.name)
    requires DistinctNames(info.subs + ns)
    ensures Assemble(ps, info) == Done(Adding(info, ns))
  {
    if ps == [] {
      AddingMore(info, Fresh([]), []);
    } else {
      NewName(info.subs, ns);
      AddLocalAppends(info.subs, ns[0]);
      assert Apply(info, ps[0]) == Done(Adding(info, [ns[0]]));
      MetadataIsAdded(ps[1..], ns[1..], Adding(info, [ns[0]]));
      AddingMore(info, ns[0], ns[1..]);
      assert [ns[0]] + ns[1..] == ns;
    }
  }

  /** As `NamesFit`, with some children already in place. */
  predicate NamesFitAfter(base: Base, subs: seq<Node>, children: seq<Node>) {
    if IsNumbered(base) then
      if IsTrue(Find(subs, PARTIAL)) then forall c :: c in children ==> c.name != [] && ParseInt(c.name).Some?
      else forall i :: 0 <= i < |children| ==> children[i].name == ToString(|ChildrenOf(subs)| + i + 1)
    else if IsFreelyNamed(base) then forall c :: c in children ==> c.name != []
    else true
  }

  lemma FitsAfterOne(base: Base, subs: seq<Node>, children: seq<Node>)
    requires children != [] && !IsMetadata(children[0].name)
    requires NamesFitAfter(base, subs, children)
    ensures NamesFitAfter(base, subs + [children[0]], children[1..])
  {
    OneMoreChild(subs, children[0]);
    FindIgnores(subs, children[0], PARTIAL);
    var rest := children[1..];
    forall i | 0 <= i < |rest|
      ensures rest[i] == children[i + 1]
    {
    }
  }

  lemma {:induction false} OneMoreChild(subs: seq<Node>, c: Node)
    requires !IsMetadata(c.name)
    ensures |ChildrenOf(subs + [c])| == |ChildrenOf(subs)| + 1
    ensures c.name != PARTIAL
  {
    ChildrenOfAppend(subs, [c]);
    assert [c][1..] == [];
    assert PARTIAL[0] == DOLLAR;
  }

  lemma FindIgnores(subs: seq<Node>, n: Node, name: Text)
    requires n.name != name
    ensures Find(subs + [n], name) == Find(subs, name)
  {
    var all := subs + [n];
    assert forall k :: 0 <= k < |subs| ==> all[k] == subs[k];
    var i, j := IndexOf(subs, name), IndexOf(all, name);
    assert i < |subs| ==> all[i].name == name;
    assert i == j || (i == |subs| && j == |all|);
  }

  lemma {:induction false} ChildIsAdded(p: Pair, ns: seq<Node>, info: Node)
    requires ns != [] && Describes([p], [ns[0]]) && !IsMetadata(ns[0].name)
    requires Find(info.subs, ns[0].name).None? && forall n :: n in info.subs ==> n.name != ns[0].name
    requires NamesFitAfter(info.base, info.subs, ns)
    ensures Apply(info, p) == Done(Adding(info, [ns[0]]))
  {
    AddLocalAppends(info.subs, ns[0]);
    assert [p][0] == p && [ns[0]][0] == ns[0];
    assert NextAvailableChildName(info, ns[0].name) == Some(ns[0].name);
  }

  lemma {:induction false} ChildrenAreAdded(ps: seq<Pair>, ns: seq<Node>, info: Node)
    requires Describes(ps, ns)
    requires forall n :: n in ns ==> !IsMetadata(n.name)
    requires DistinctNames(info.subs + ns)
    requires NamesFitAfter(info.base, info.subs, ns)
    ensures Assemble(ps, info) == Done(Adding(info, ns))
  {
    if ps == [] {
      AddingMore(info, Fresh([]), []);
    } else {
      hide Apply, NamesFitAfter;
      NewName(info.subs, ns);
      ChildIsAdded(ps[0], ns, info);
      FitsAfterOne(info.base, info.subs, ns);
      ChildrenAreAdded(ps[1..], ns[1..], Adding(info, [ns[0]]));
      AddingMore(info, ns[0], ns[1..]);
      assert [ns[0]] + ns[1..] == ns;
    }
  }

  // ----- the parts of a document describe the parts of the image -----

  predicate AllMetadata(ns: seq<Node>) {
    forall n :: n in ns ==> IsMetadata(n.name)
  }

  lemma DescribesAppend(a: seq<Pair>, m: seq<Node>, b: seq<Pair>, n: seq<Node>)
    requires Describes(a, m) && Describes(b, n)
    ensures Describes(a + b, m + n)
    ensures AllMetadata(m) && AllMetadata(n) ==> AllMetadata(m + n)
  {
  }

  lemma LeafDescribed(name: Text, value: Text)
    requires name in {ERROR, NEXT, TRUNCATED, PARTIAL, TYPE, EFFECTIVE_TYPE}
    ensures Describes([Pair(name, Quoted(value))], [Leaf(name, value)])
    ensures Describes([Pair(name, Bare(value))], [Leaf(name, value)])
    ensures AllMetadata([Leaf(name, value)])
  {
    FixedNames();
  }

  lemma ExtentDescribed(d: Item, depth: int, cx: Context)
    ensures Describes(ExtentPairs(d, depth, cx), ExtentLeaves(d, depth, cx)) && AllMetadata(ExtentLeaves(d, depth, cx))
  {
    LeafDescribed(TRUNCATED, TRUE);
    LeafDescribed(PARTIAL, TRUE);
    if d.facts.container {
      var a, m := If(d.facts.truncated || depth > cx.depth, TRUNCATED, Quoted(TRUE)),
                  (if d.facts.truncated || depth > cx.depth then [Leaf(TRUNCATED, TRUE)] else []);
      var b, n := If(d.facts.partial, PARTIAL, Quoted(TRUE)), (if d.facts.partial then [Leaf(PARTIAL, TRUE)] else []);
      DescribesAppend(a, m, b, n);
      if d.facts.next.Some? {
        LeafDescribed(NEXT, d.facts.next.value);
        DescribesAppend(a + b, m + n, [Pair(NEXT, Quoted(d.facts.next.value))], [Leaf(NEXT, d.facts.next.value)]);
      } else {
        DescribesAppend(a + b, m + n, [], []);
      }
    }
  }

  lemma TypeDescribed(d: Item, depth: int, cx: Context)
    ensures Describes(TypePairs(d, depth, cx), TypeLeaves(d, depth, cx)) && AllMetadata(TypeLeaves(d, depth, cx))
  {
    var local, effective := d.facts.localType, d.facts.effectiveType;
    LeafDescribed(TYPE, local);
    LeafDescribed(EFFECTIVE_TYPE, effective);
    if cx.includeType || d.facts.untyped || d.facts.definition {
      var hasLocal := local != [] && (depth == 1 || d.facts.untyped);
      var hasEffective := depth == 1 && effective != [] && effective != local;
      DescribesAppend(If(hasLocal, TYPE, Quoted(local)), if hasLocal then [Leaf(TYPE, local)] else [],
                      If(hasEffective, EFFECTIVE_TYPE, Quoted(effective)),
                      if hasEffective then [Leaf(EFFECTIVE_TYPE, effective)] else []);
    }
  }

  lemma SubValueDescribed(d: Item)
    ensures NodeOf(SubValue(d), d.name) == Done(SubImage(d))
  {
    if !d.facts.readable {
      var none: seq<Node> := [];
      LeafDescribed(ERROR, NOT_READABLE);
      assert none + [Leaf(ERROR, NOT_READABLE)] == [Leaf(ERROR, NOT_READABLE)];
      MetadataIsAdded([Pair(ERROR, Bare(NOT_READABLE))], [Leaf(ERROR, NOT_READABLE)], Fresh(d.name));
    }
  }

  /** Top, base and value members set the item's own fields. */
  lemma TopApplied(d: Item, depth: int, cx: Context)
    requires depth >= 1
    ensures Assemble(TopPairs(d, depth, cx), Fresh(if depth == 1 then ANONYMOUS else d.name))
         == Done(Fresh(ImageName(d, depth)))
  {
    FixedNames();
    if depth == 1 {
      AssembleOne(Pair(DEFAULT_LOCALE, Quoted(cx.locale)), Fresh(ImageName(d, depth)));
      AssembleOne(Pair(NAME, Quoted(d.name)), Fresh(ANONYMOUS));
      AssembleAppend(If(!StartsWith(d.name, [DOT, DOT]), NAME, Quoted(d.name)),
                     If(true, DEFAULT_LOCALE, Quoted(cx.locale)), Fresh(ANONYMOUS));
    }
  }

  lemma {:induction false} BaseApplied(d: Item, cx: Context, info: Node)
    requires info.base == Poly
    ensures Assemble(BasePairs(d, cx), info) == Done(info.(base := ImageBase(d, cx)))
  {
    FixedNames();
    BaseNameRoundTrip(d.base);
    AssembleOne(Pair(BASE, Quoted(BaseToString(d.base))), info);
  }

  function ErrorLeaves(d: Item, cx: Context): seq<Node> {
    if WritesError(d, cx) then [Leaf(ERROR, NOT_READABLE)] else []
  }

  lemma {:induction false} ValueApplied(d: Item, cx: Context, info: Node)
    requires info.value.None? && DistinctNames(info.subs + ErrorLeaves(d, cx))
    ensures Assemble(ValuePairs(d, cx), info) == Done(Adding(info, ErrorLeaves(d, cx)).(value := ImageValue(d, cx)))
  {
    hide RoleOf, AddLocal, DistinctNames, HasItem, HasError;
    FixedNames();
    ErrorIsFound(d);
    AddingMore(info, Fresh([]), []);
    if WritesError(d, cx) {
      LeafDescribed(ERROR, NOT_READABLE);
      MetadataIsAdded([Pair(ERROR, Bare(NOT_READABLE))], [Leaf(ERROR, NOT_READABLE)], info);
    } else if ImageValue(d, cx).Some? {
      AssembleOne(ValuePairs(d, cx)[0], info);
    }
  }

  predicate LegalMetaItem(m: Item, depth: int, cx: Context) {
    && m.name != TYPE && IsMetadata(m.name) && RoleOf(m.name) == Plain
    && (if MetaAsPrimitive(m) then SafeFacts(m, cx) else Legal(m, depth + 1, true, cx))
  }

  lemma {:induction false} MetaMemberDescribed(m: Item, depth: int, cx: Context)
    requires depth >= 1 && LegalMetaItem(m, depth, cx)
    ensures Describes(MetaMember(m, depth, cx), [MetaImage(m, depth, cx)]) && IsMetadata(MetaImage(m, depth, cx).name)
    decreases m, 2
  {
    hide Legal, ObjectPairs, Image;
    if MetaAsPrimitive(m) {
      SubValueDescribed(m);
      OneDescribed(Pair(m.name, SubValue(m)), SubImage(m));
    } else {
      ImageDescribed(m, depth + 1, true, cx);
      OneDescribed(Pair(m.name, Nested(ObjectPairs(m, depth + 1, true, cx), true)), Image(m, depth + 1, true, cx));
    }
  }

  lemma OneDescribed(p: Pair, n: Node)
    requires RoleOf(p.name) == Plain && n.name == p.name && NodeOf(p.val, p.name) == Done(n)
    ensures Describes([p], [n])
  {
  }

  lemma {:induction false} MetaDescribed(meta: seq<Item>, depth: int, cx: Context)
    requires depth >= 1 && LegalMeta(meta, depth, cx)
    ensures Describes(MetaPairs(meta, depth, cx), MetaImages(meta, depth, cx)) && AllMetadata(MetaImages(meta, depth, cx))
    decreases meta, 0
  {
    if meta != [] {
      var m := meta[0];
      MetaDescribed(meta[1..], depth, cx);
      var ns := if m.name == TYPE then [] else [MetaImage(m, depth, cx)];
      if m.name != TYPE {
        MetaMemberDescribed(m, depth, cx);
      }
      DescribesAppend(MetaMember(m, depth, cx), ns, MetaPairs(meta[1..], depth, cx), MetaImages(meta[1..], depth, cx));
    }
  }

  lemma {:induction false} ChildMemberDescribed(c: Item, depth: int, cx: Context)
    requires depth >= 1 && !IsMetadata(c.name) && RoleOf(c.name) == Plain
    requires ChildAsPrimitive(c, cx) || Legal(c, depth + 1, false, cx)
    ensures Describes([ChildMember(c, depth, cx)], [ChildImage(c, depth, cx)]) && ChildImage(c, depth, cx).name == c.name
    decreases c, 2
  {
    hide Legal, ObjectPairs, Image;
    if ChildAsPrimitive(c, cx) {
      SubValueDescribed(c);
      OneDescribed(Pair(c.name, SubValue(c)), SubImage(c));
    } else {
      ImageDescribed(c, depth + 1, false, cx);
      OneDescribed(Pair(c.name, Nested(ObjectPairs(c, depth + 1, false, cx), true)), Image(c, depth + 1, false, cx));
    }
  }

  lemma {:induction false} ChildrenDescribed(children: seq<Item>, depth: int, cx: Context)
    requires depth >= 1 && LegalChildren(children, depth, cx)
    ensures Describes(ChildPairs(children, depth, cx), ChildImages(children, depth, cx))
    ensures forall n :: n in ChildImages(children, depth, cx) ==> !IsMetadata(n.name)
    decreases children, 0
  {
    if children != [] {
      ChildMemberDescribed(children[0], depth, cx);
      ChildrenDescribed(children[1..], depth, cx);
      DescribesAppend([ChildMember(children[0], depth, cx)], [ChildImage(children[0], depth, cx)],
                      ChildPairs(children[1..], depth, cx), ChildImages(children[1..], depth, cx));
    }
  }

  lemma DistinctPrefix(a: seq<Node>, b: seq<Node>)
    requires DistinctNames(a + b)
    ensures DistinctNames(a)
  {
    assert forall i :: 0 <= i < |a| ==> (a + b)[i] == a[i];
  }

  /** Everything up to and including the type members. */
  lemma {:induction false} HeadApplied(d: Item, depth: int, cx: Context)
    requires depth >= 1 && DistinctNames(HeadLeaves(d, depth, cx))
    ensures Assemble(HeadPairs(d, depth, cx), Fresh(if depth == 1 then ANONYMOUS else d.name))
         == Done(Node(ImageName(d, depth), ImageBase(d, cx), ImageValue(d, cx), HeadLeaves(d, depth, cx)))
  {
    var start := Fresh(if depth == 1 then ANONYMOUS else d.name);
    var extent, error, types := ExtentLeaves(d, depth, cx), ErrorLeaves(d, cx), TypeLeaves(d, depth, cx);
    assert HeadLeaves(d, depth, cx) == extent + error + types;
    DistinctPrefix(extent + error, types);
    DistinctPrefix(extent, error);
    var top, base, ext, val, typ := TopPairs(d, depth, cx), BasePairs(d, cx), ExtentPairs(d, depth, cx),
                                    ValuePairs(d, cx), TypePairs(d, depth, cx);
    var info1 := Fresh(ImageName(d, depth));
    TopApplied(d, depth, cx);
    AssembleAppend(top, base, start);
    var info2 := info1.(base := ImageBase(d, cx));
    BaseApplied(d, cx, info1);
    AssembleAppend(top + base, ext, start);
    ExtentDescribed(d, depth, cx);
    assert info2.subs + extent == extent;
    MetadataIsAdded(ext, extent, info2);
    var info3 := info2.(subs := extent);
    AssembleAppend(top + base + ext, val, start);
    ValueApplied(d, cx, info3);
    var info4 := info3.(subs := extent + error, value := ImageValue(d, cx));
    AssembleAppend(top + base + ext + val, typ, start);
    TypeDescribed(d, depth, cx);
    MetadataIsAdded(typ, types, info4);
  }

  lemma HeadLeavesAreMetadata(d: Item, depth: int, cx: Context)
    ensures AllMetadata(HeadLeaves(d, depth, cx))
  {
    ExtentDescribed(d, depth, cx);
    TypeDescribed(d, depth, cx);
    LeafDescribed(ERROR, NOT_READABLE);
  }

  lemma {:induction false} NoChildrenYet(ns: seq<Node>)
    requires AllMetadata(ns)
    ensures ChildrenOf(ns) == []
  {
    if ns != [] {
      assert ns[0] in ns;
      NoChildrenYet(ns[1..]);
    }
  }

  /** Everything but the children. */
  lemma {:induction false} MetaApplied(d: Item, depth: int, cx: Context)
    requires depth >= 1 && LegalMeta(d.meta, depth, cx) && DistinctNames(MetaPart(d, depth, cx))
    ensures Assemble(HeadPairs(d, depth, cx) + MetaPairs(d.meta, depth, cx), Fresh(if depth == 1 then ANONYMOUS else d.name))
         == Done(Node(ImageName(d, depth), ImageBase(d, cx), ImageValue(d, cx), MetaPart(d, depth, cx)))
    ensures AllMetadata(MetaPart(d, depth, cx))
    decreases d, 0
  {
    var head, metas := HeadLeaves(d, depth, cx), MetaImages(d.meta, depth, cx);
    DistinctPrefix(head, metas);
    HeadApplied(d, depth, cx);
    HeadLeavesAreMetadata(d, depth, cx);
    AssembleAppend(HeadPairs(d, depth, cx), MetaPairs(d.meta, depth, cx), Fresh(if depth == 1 then ANONYMOUS else d.name));
    MetaDescribed(d.meta, depth, cx);
    MetadataIsAdded(MetaPairs(d.meta, depth, cx), metas, Node(ImageName(d, depth), ImageBase(d, cx), ImageValue(d, cx), head));
  }

  /** The children are added to whatever metadata is there. */
  lemma {:induction false} ChildrenApplied(d: Item, depth: int, doingMetadata: bool, cx: Context, info: Node)
    requires depth >= 1 && (Descends(depth, doingMetadata, cx) ==> LegalChildren(d.children, depth, cx))
    requires AllMetadata(info.subs) && DistinctNames(info.subs + ChildPart(d, depth, doingMetadata, cx))
    requires NamesFit(info.base, info.subs, ChildPart(d, depth, doingMetadata, cx))
    ensures Assemble(if Descends(depth, doingMetadata, cx) then ChildPairs(d.children, depth, cx) else [], info)
         == Done(Adding(info, ChildPart(d, depth, doingMetadata, cx)))
    decreases d, 0
  {
    if Descends(depth, doingMetadata, cx) {
      ChildrenDescribed(d.children, depth, cx);
      FirstChildren(ChildPairs(d.children, depth, cx), ChildImages(d.children, depth, cx), info);
    } else {
      AddingMore(info, Fresh([]), []);
    }
  }

  lemma {:induction false} FirstChildren(ps: seq<Pair>, ns: seq<Node>, info: Node)
    requires Describes(ps, ns) && forall n :: n in ns ==> !IsMetadata(n.name)
    requires AllMetadata(info.subs) && DistinctNames(info.subs + ns) && NamesFit(info.base, info.subs, ns)
    ensures Assemble(ps, info) == Done(Adding(info, ns))
  {
    NoChildrenYet(info.subs);
    ChildrenAreAdded(ps, ns, info);
  }

  /** The generator's document for a legal item describes exactly the image of the item. */
  lemma {:induction false} ImageDescribed(d: Item, depth: int, doingMetadata: bool, cx: Context)
    requires depth >= 1 && Legal(d, depth, doingMetadata, cx)
    ensures NodeOf(Nested(ObjectPairs(d, depth, doingMetadata, cx), true), if depth == 1 then ANONYMOUS else d.name)
         == Done(Image(d, depth, doingMetadata, cx))
    ensures Image(d, depth, doingMetadata, cx).name == ImageName(d, depth)
    decreases d, 1
  {
    hide Image, MetaPart, ChildPart, HeadPairs, MetaPairs, ChildPairs, Assemble, LegalMeta, LegalChildren, NamesFit;
    DistinctPrefix(MetaPart(d, depth, cx), ChildPart(d, depth, doingMetadata, cx));
    MetaApplied(d, depth, cx);
    var info := Node(ImageName(d, depth), ImageBase(d, cx), ImageValue(d, cx), MetaPart(d, depth, cx));
    ChildrenApplied(d, depth, doingMetadata, cx, info);
    AssembleAppend(HeadPairs(d, depth, cx) + MetaPairs(d.meta, depth, cx),
                   if Descends(depth, doingMetadata, cx) then ChildPairs(d.children, depth, cx) else [],
                   Fresh(if depth == 1 then ANONYMOUS else d.name));
    FinishedImage(d, depth, doingMetadata, cx, info);
  }

  lemma {:induction false} FinishedImage(d: Item, depth: int, doingMetadata: bool, cx: Context, info: Node)
    requires info == Node(ImageName(d, depth), ImageBase(d, cx), ImageValue(d, cx), MetaPart(d, depth, cx))
    requires ImageName(d, depth) == CSML ==> ImageBase(d, cx) == Poly || ImageBase(d, cx) == Collection
    ensures Finished(Done(Adding(info, ChildPart(d, depth, doingMetadata, cx)))) == Done(Image(d, depth, doingMetadata, cx))
    ensures Image(d, depth, doingMetadata, cx).name == ImageName(d, depth)
  {
  }

  // ----- the document of a legal item can be read back -----

  predicate AllSafe(ps: seq<Pair>) {
    forall i :: 0 <= i < |ps| ==> SafePair(ps[i])
  }

  lemma {:induction false} AllSafeIsSafe(ps: seq<Pair>)
    requires AllSafe(ps)
    ensures SafeMembers(ps)
  {
    hide SafePair;
    if ps != [] {
      AllSafeIsSafe(ps[1..]);
    }
  }

  lemma {:induction false} FixedPairSafe(name: Text, val: Json)
    requires name in {ERROR, NEXT, TRUNCATED, PARTIAL, TYPE, EFFECTIVE_TYPE, VALUE, NAME, BASE, DEFAULT_LOCALE}
    requires SafeJson(val) && IsPrimitive(val)
    ensures SafePair(Pair(name, val))
  {
    FixedNames();
  }

  lemma SafeConstants(b: Base)
    ensures SafeText(TRUE) && SafeBare(NOT_READABLE) && SafeText(BaseToString(b))
  {
    assert TRUE[3] == 0x65;
    assert NOT_READABLE[0] == 0x34 && NOT_READABLE[1] == 0x31;
    BaseNameSafe(b);
  }

  lemma BaseNameSafe(b: Base)
    ensures SafeText(BaseToString(b))
  {
    LastLetter(b);
    LastUnit(BaseLiteral(b));
  }

  lemma LastLetter(b: Base)
    ensures var s := BaseLiteral(b); s != [] && s[|s| - 1] != '\\' && s[|s| - 1] < '\U{80}'
  {
  }

  lemma LastUnit(s: string)
    requires s != [] && s[|s| - 1] != '\\' && s[|s| - 1] < '\U{80}'
    ensures SafeText(Ascii(s))
  {
  }

  lemma TopSafe(d: Item, depth: int, cx: Context)
    requires SafeFacts(d, cx)
    ensures AllSafe(TopPairs(d, depth, cx)) && AllSafe(BasePairs(d, cx))
  {
    hide SafePair, RoleOf;
    SafeConstants(d.base);
    FixedPairSafe(NAME, Quoted(d.name));
    FixedPairSafe(DEFAULT_LOCALE, Quoted(cx.locale));
    FixedPairSafe(BASE, Quoted(BaseToString(d.base)));
  }

  lemma ExtentSafe(d: Item, depth: int, cx: Context)
    requires SafeFacts(d, cx)
    ensures AllSafe(ExtentPairs(d, depth, cx))
  {
    hide SafePair, RoleOf;
    SafeConstants(d.base);
    FixedPairSafe(TRUNCATED, Quoted(TRUE));
    FixedPairSafe(PARTIAL, Quoted(TRUE));
    if d.facts.next.Some? {
      FixedPairSafe(NEXT, Quoted(d.facts.next.value));
    }
  }

  lemma ValueSafe(d: Item, cx: Context)
    requires SafeFacts(d, cx)
    ensures AllSafe(ValuePairs(d, cx))
  {
    hide SafePair, RoleOf;
    SafeConstants(d.base);
    FixedPairSafe(ERROR, Bare(NOT_READABLE));
    if d.value.Some? {
      FixedPairSafe(VALUE, if IsUnquoted(d.base) then Bare(d.value.value) else Quoted(d.value.value));
    }
  }

  lemma TypeSafe(d: Item, depth: int, cx: Context)
    requires SafeFacts(d, cx)
    ensures AllSafe(TypePairs(d, depth, cx))
  {
    hide SafePair, RoleOf;
    FixedPairSafe(TYPE, Quoted(d.facts.localType));
    FixedPairSafe(EFFECTIVE_TYPE, Quoted(d.facts.effectiveType));
  }

  lemma HeadSafe(d: Item, depth: int, cx: Context)
    requires SafeFacts(d, cx)
    ensures AllSafe(HeadPairs(d, depth, cx))
  {
    hide SafePair, TopPairs, BasePairs, ExtentPairs, ValuePairs, TypePairs, SafeFacts;
    TopSafe(d, depth, cx);
    ExtentSafe(d, depth, cx);
    ValueSafe(d, cx);
    TypeSafe(d, depth, cx);
  }

  lemma SubValueSafe(d: Item, cx: Context)
    requires SafeFacts(d, cx) && RoleOf(d.name) == Plain
    ensures SafePair(Pair(d.name, SubValue(d)))
  {
    SafeConstants(d.base);
    FixedPairSafe(ERROR, Bare(NOT_READABLE));
    AllSafeIsSafe([Pair(ERROR, Bare(NOT_READABLE))]);
  }

  lemma {:induction false} NestedSafe(name: Text, ms: seq<Pair>)
    requires SafeText(name) && RoleOf(name) == Plain && SafeMembers(ms)
    ensures SafePair(Pair(name, Nested(ms, true)))
  {
  }

  lemma {:induction false} MetaSafe(meta: seq<Item>, depth: int, cx: Context)
    requires LegalMeta(meta, depth, cx)
    ensures AllSafe(MetaPairs(meta, depth, cx))
    decreases meta, 0
  {
    hide Legal, ObjectPairs;
    if meta != [] {
      var m := meta[0];
      MetaSafe(meta[1..], depth, cx);
      if m.name != TYPE {
        if MetaAsPrimitive(m) {
          SubValueSafe(m, cx);
        } else {
          DocumentSafe(m, depth + 1, true, cx);
          NestedSafe(m.name, ObjectPairs(m, depth + 1, true, cx));
        }
        assert SafePair(MetaMember(m, depth, cx)[0]);
      }
    }
  }

  lemma {:induction false} ChildrenSafe(children: seq<Item>, depth: int, cx: Context)
    requires LegalChildren(children, depth, cx)
    ensures AllSafe(ChildPairs(children, depth, cx))
    decreases children, 0
  {
    hide Legal, ObjectPairs;
    if children != [] {
      var c := children[0];
      ChildrenSafe(children[1..], depth, cx);
      if ChildAsPrimitive(c, cx) {
        SubValueSafe(c, cx);
      } else {
        DocumentSafe(c, depth + 1, false, cx);
        NestedSafe(c.name, ObjectPairs(c, depth + 1, false, cx));
      }
      assert SafePair(ChildMember(c, depth, cx));
    }
  }

  lemma {:induction false} DocumentSafe(d: Item, depth: int, doingMetadata: bool, cx: Context)
    requires Legal(d, depth, doingMetadata, cx)
    ensures SafeMembers(ObjectPairs(d, depth, doingMetadata, cx)) && SafeText(d.name)
    decreases d, 1
  {
    hide HeadPairs, MetaPairs, ChildPairs, SafePair, SafeMembers, DistinctNames, NamesFit, LegalMeta, LegalChildren;
    hide MetaPart, ChildPart;
    HeadSafe(d, depth, cx);
    MetaSafe(d.meta, depth, cx);
    if Descends(depth, doingMetadata, cx) {
      ChildrenSafe(d.children, depth, cx);
    }
    AllSafeIsSafe(ObjectPairs(d, depth, doingMetadata, cx));
  }

  // ----- the round trip -----

  /**
   * Parsing the text generated for a legal item gives back its image, in any layout that only breaks lines and
   * indents: one reader for primitive and object forms, quoted and bare values, metadata and children alike.
   */
  lemma {:induction false} GenerateThenParse(d: Item, cx: Context, layout: Layout)
    requires Legal(d, 1, false, cx) && BlankLayout(layout)
    ensures Parse(GeneratedText(d, cx, layout)) == Ok(Image(d, 1, false, cx), [])
  {
    hide Legal, ObjectPairs, Image, Render;
    DocumentSafe(d, 1, false, cx);
    ImageDescribed(d, 1, false, cx);
    ParseRendered(ObjectPairs(d, 1, false, cx), true, layout);
  }

  /** The base of a child comes back if bases are asked for, and in any case if nothing else says what it is. */
  lemma {:induction false} BaseComesBack(d: Item, cx: Context, layout: Layout, i: nat)
    requires Legal(d, 1, false, cx) && BlankLayout(layout) && cx.depth >= 1 && i < |d.children|
    requires cx.includeBase || d.children[i].facts.untyped
    ensures Parse(GeneratedText(d, cx, layout)).Ok?
    ensures var subs, c := Parse(GeneratedText(d, cx, layout)).value.subs, d.children[i];
            var k := |subs| - |d.children| + i;
            && 0 <= k < |subs| && subs[k].name == c.name
            && subs[k].base == if c.name == CSML && c.base == Poly then Collection else c.base
  {
    hide Legal, GeneratedText, MetaPart, ChildImage;
    GenerateThenParse(d, cx, layout);
    ChildImagesAre(d.children, 1, cx, i);
    ChildImageKeepsBase(d.children[i], 1, cx);
  }

  lemma {:induction false} ChildImagesAre(cs: seq<Item>, depth: int, cx: Context, i: nat)
    requires i < |cs|
    ensures |ChildImages(cs, depth, cx)| == |cs| && ChildImages(cs, depth, cx)[i] == ChildImage(cs[i], depth, cx)
    decreases |cs|
  {
    hide ChildImage;
    if i > 0 {
      ChildImagesAre(cs[1..], depth, cx, i - 1);
    } else if |cs| > 1 {
      ChildImagesAre(cs[1..], depth, cx, 0);
    }
  }

  lemma {:induction false} ChildImageKeepsBase(c: Item, depth: int, cx: Context)
    requires depth >= 1 && (cx.includeBase || c.facts.untyped)
    ensures var n := ChildImage(c, depth, cx);
            n.name == c.name && n.base == if c.name == CSML && c.base == Poly then Collection else c.base
  {
  }

  /** The tree of names and values in an item, with their bases if these are asked for. */
  function Tree(d: Item, bases: bool): Node
    decreases d, 1
  {
    Node(d.name, if bases then d.base else Poly, d.value, MetaTrees(d.meta, bases) + Trees(d.children, bases))
  }

  function Trees(ds: seq<Item>, bases: bool): seq<Node>
    decreases ds, 0
  {
    if ds == [] then [] else [Tree(ds[0], bases)] + Trees(ds[1..], bases)
  }

  /** No metadata, no children, and nothing in its name that makes it extended metadata. */
  predicate IsPlainValue(m: Item) {
    m.meta == [] && !m.facts.container && (|m.name| <= 3 || (MINUS !in m.name && DOT !in m.name))
  }

  /** Of metadata, the bases of plain values are not written, unless their names are extended ones. */
  function MetaTrees(ms: seq<Item>, bases: bool): seq<Node>
    decreases ms, 0
  {
    if ms == [] then []
    else
      [Tree(ms[0], bases && !IsPlainValue(ms[0]))] + MetaTrees(ms[1..], bases)
  }

  /** A readable item, told apart from the others only by its form: leaves may be written as objects or primitives. */
  predicate PlainItem(d: Item)
    decreases d, 1
  {
    && d.facts.readable && !d.facts.untyped && !d.facts.definition && !d.facts.truncated && !d.facts.partial
    && d.facts.next.None? && !(IsTimelike(d.base) && d.facts.unspecified) && !HasError(d)
    && d.name != CSML && d.name != TYPE
    && PlainItems(d.meta) && PlainItems(d.children)
    && (!d.facts.container ==> d.children == [])
  }

  predicate PlainItems(ds: seq<Item>)
    decreases ds, 0
  {
    ds != [] ==> PlainItem(ds[0]) && PlainItems(ds[1..])
  }

  predicate PlainContext(cx: Context) {
    cx.includeValue && !cx.includeType
  }

  /** The number of levels an item takes up. */
  function Height(d: Item): (h: nat)
    decreases d, 1
  {
    1 + Max(HeightOf(d.meta), HeightOf(d.children))
  }

  function HeightOf(ds: seq<Item>): (h: nat)
    decreases ds, 0
  {
    if ds == [] then 0 else Max(Height(ds[0]), HeightOf(ds[1..]))
  }

  function Max(a: nat, b: nat): nat {
    if a < b then b else a
  }

  lemma {:induction false} ImageIsTree(d: Item, depth: int, doingMetadata: bool, cx: Context)
    requires PlainItem(d) && PlainContext(cx) && 1 <= depth && depth + Height(d) <= cx.depth + 1
    requires depth == 1 ==> !StartsWith(d.name, [DOT, DOT])
    requires Legal(d, depth, doingMetadata, cx)
    ensures Image(d, depth, doingMetadata, cx) == Tree(d, cx.includeBase)
    decreases d, 1
  {
    hide MetaImages, ChildImages, Trees, MetaTrees, PlainItems, HeightOf, LegalMeta, LegalChildren, NamesFit, DistinctNames;
    MetaImagesAreTrees(d.meta, depth, cx);
    ChildImagesAreTrees(d.children, depth, cx);
    assert HeadLeaves(d, depth, cx) == [];
    var none: seq<Node> := [];
    assert none + MetaTrees(d.meta, cx.includeBase) == MetaTrees(d.meta, cx.includeBase);
  }

  lemma {:induction false} PrimitiveIsTree(d: Item)
    requires PlainItem(d) && d.meta == [] && !d.facts.container
    ensures SubImage(d) == Tree(d, false)
  {
  }

  /** A legal name has one dollar sign, so a dash or a dot makes it extended. */
  lemma MetaFormIsName(m: Item)
    requires IsMetadata(m.name) && RoleOf(m.name) == Plain
    ensures MetaAsPrimitive(m) <==> IsPlainValue(m)
  {
    if |m.name| > 3 {
      OneDollar(m.name);
    }
  }

  lemma OneDollar(name: Text)
    requires |name| > 1 && name[0] == DOLLAR && !ContainsDoubleDollar(name)
    ensures name[1] != DOLLAR
  {
  }

  lemma {:induction false} MetaImageIsTree(m: Item, depth: int, cx: Context)
    requires LegalMetaItem(m, depth, cx) && PlainItem(m) && PlainContext(cx) && depth >= 1 && depth + Height(m) <= cx.depth
    ensures MetaImage(m, depth, cx) == Tree(m, cx.includeBase && !IsPlainValue(m))
    decreases m, 2
  {
    hide Legal, Image, Tree, RoleOf, Height, IsPlainValue, MetaAsPrimitive, PlainItem;
    MetaFormIsName(m);
    if MetaAsPrimitive(m) {
      PrimitiveMeta(m);
      PrimitiveIsTree(m);
    } else {
      ImageIsTree(m, depth + 1, true, cx);
    }
  }

  lemma PrimitiveMeta(m: Item)
    requires MetaAsPrimitive(m)
    ensures m.meta == [] && !m.facts.container
  {
  }

  lemma {:induction false} LegalMetaFirst(ms: seq<Item>, depth: int, cx: Context)
    requires LegalMeta(ms, depth, cx) && ms != [] && PlainItem(ms[0])
    ensures LegalMetaItem(ms[0], depth, cx) && LegalMeta(ms[1..], depth, cx)
  {
  }

  lemma {:induction false} MetaImagesAreTrees(ds: seq<Item>, depth: int, cx: Context)
    requires PlainItems(ds) && PlainContext(cx) && depth >= 1 && depth + HeightOf(ds) <= cx.depth
    requires LegalMeta(ds, depth, cx)
    ensures MetaImages(ds, depth, cx) == MetaTrees(ds, cx.includeBase)
    decreases ds, 0
  {
    hide Tree, RoleOf, IsPlainValue, Height, MetaImage, PlainContext, LegalMetaItem, LegalMeta;
    if ds != [] {
      LegalMetaFirst(ds, depth, cx);
      MetaImagesAreTrees(ds[1..], depth, cx);
      MetaImageIsTree(ds[0], depth, cx);
    }
  }

  lemma {:induction false} ChildImageIsTree(c: Item, depth: int, cx: Context)
    requires ChildAsPrimitive(c, cx) || Legal(c, depth + 1, false, cx)
    requires PlainItem(c) && PlainContext(cx) && depth >= 1 && depth + Height(c) <= cx.depth
    ensures ChildImage(c, depth, cx) == Tree(c, cx.includeBase)
    decreases c, 2
  {
    hide Legal, Image, Tree, Height, PlainItem;
    if ChildAsPrimitive(c, cx) {
      PrimitiveIsTree(c);
    } else {
      ImageIsTree(c, depth + 1, false, cx);
    }
  }

  lemma {:induction false} LegalChildFirst(cs: seq<Item>, depth: int, cx: Context)
    requires LegalChildren(cs, depth, cx) && cs != []
    ensures ChildAsPrimitive(cs[0], cx) || Legal(cs[0], depth + 1, false, cx)
    ensures LegalChildren(cs[1..], depth, cx)
  {
  }

  lemma {:induction false} ChildImagesAreTrees(ds: seq<Item>, depth: int, cx: Context)
    requires PlainItems(ds) && PlainContext(cx) && depth >= 1 && depth + HeightOf(ds) <= cx.depth
    requires LegalChildren(ds, depth, cx)
    ensures ChildImages(ds, depth, cx) == Trees(ds, cx.includeBase)
    decreases ds, 0
  {
    hide Tree, Height, ChildImage, PlainItem, PlainContext, LegalChildren, Legal, ChildAsPrimitive;
    if ds != [] {
      LegalChildFirst(ds, depth, cx);
      ChildImagesAreTrees(ds[1..], depth, cx);
      ChildImageIsTree(ds[0], depth, cx);
    }
  }

  /**
   * With no depth limit in the way the same tree comes back, whatever the form each leaf was written in; and with it the
   * base of every item, if the bases are asked for.
   */
  lemma {:induction false} SameTreeBack(d: Item, cx: Context, layout: Layout)
    requires Legal(d, 1, false, cx) && BlankLayout(layout)
    requires PlainItem(d) && PlainContext(cx) && Height(d) <= cx.depth && !StartsWith(d.name, [DOT, DOT])
    ensures Parse(GeneratedText(d, cx, layout)) == Ok(Tree(d, cx.includeBase), [])
  {
    hide Legal, Image, Tree, GeneratedText;
    GenerateThenParse(d, cx, layout);
    ImageIsTree(d, 1, false, cx);
  }
}
