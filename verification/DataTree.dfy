/** Data items as the parsers build them: base types (data/Base.java) and an ordered tree of named items. */
module DataTree {
  import opened CodeUnits

  datatype Option<+T> = None | Some(value: T)

  /** The base types, in the order of the enumeration.  `Poly` is the undecided base of freshly parsed data. */
  datatype Base =
    | Invalid | Null | Boolean | Unsigned | Integer | Real
    | Double | OctetString | String | BitString | Enumerated | Date
    | DatePattern | DateTime | DateTimePattern | Time | TimePattern | ObjectIdentifier
    | ObjectIdentifierPattern | WeekNDay | Sequence | Array | List | SequenceOf
    | Choice | Object | Bit | Link | Any | StringSet
    | Composition | Collection | Unknown | Raw | Poly

  const BASES: seq<Base> := [
    Invalid, Null, Boolean, Unsigned, Integer, Real,
    Double, OctetString, String, BitString, Enumerated, Date,
    DatePattern, DateTime, DateTimePattern, Time, TimePattern, ObjectIdentifier,
    ObjectIdentifierPattern, WeekNDay, Sequence, Array, List, SequenceOf,
    Choice, Object, Bit, Link, Any, StringSet,
    Composition, Collection, Unknown, Raw, Poly
  ]

  function BaseLiteral(b: Base): string {
    match b
    case Invalid => "Invalid"
    case Null => "Null"
    case Boolean => "Boolean"
    case Unsigned => "Unsigned"
    case Integer => "Integer"
    case Real => "Real"
    case Double => "Double"
    case OctetString => "OctetString"
    case String => "String"
    case BitString => "BitString"
    case Enumerated => "Enumerated"
    case Date => "Date"
    case DatePattern => "DatePattern"
    case DateTime => "DateTime"
    case DateTimePattern => "DateTimePattern"
    case Time => "Time"
    case TimePattern => "TimePattern"
    case ObjectIdentifier => "ObjectIdentifier"
    case ObjectIdentifierPattern => "ObjectIdentifierPattern"
    case WeekNDay => "WeekNDay"
    case Sequence => "Sequence"
    case Array => "Array"
    case List => "List"
    case SequenceOf => "SequenceOf"
    case Choice => "Choice"
    case Object => "Object"
    case Bit => "Bit"
    case Link => "Link"
    case Any => "Any"
    case StringSet => "StringSet"
    case Composition => "Composition"
    case Collection => "Collection"
    case Unknown => "Unknown"
    case Raw => "Raw"
    case Poly => "Poly"
  }

  /** `Base.toString`: the name a base carries in JSON and XML. */
  function BaseToString(b: Base): Text {
    Ascii(BaseLiteral(b))
  }

  /** `Base.fromString`: the base with the given name, or `Invalid`. */
  function BaseFromString(t: Text): Base {
    LookUp(t, BASES)
  }

  function LookUp(t: Text, bases: seq<Base>): Base {
    if bases == [] then Invalid
    else if BaseToString(bases[0]) == t then bases[0]
    else LookUp(t, bases[1..])
  }

  /** Every base name is told apart by its length and the codes of its first and third letter. */
  function Fingerprint(b: Base): (int, int, int) {
    match b
    case Invalid => (7, 0x49, 0x76)
    case Null => (4, 0x4E, 0x6C)
    case Boolean => (7, 0x42, 0x6F)
    case Unsigned => (8, 0x55, 0x73)
    case Integer => (7, 0x49, 0x74)
    case Real => (4, 0x52, 0x61)
    case Double => (6, 0x44, 0x75)
    case OctetString => (11, 0x4F, 0x74)
    case String => (6, 0x53, 0x72)
    case BitString => (9, 0x42, 0x74)
    case Enumerated => (10, 0x45, 0x75)
    case Date => (4, 0x44, 0x74)
    case DatePattern => (11, 0x44, 0x74)
    case DateTime => (8, 0x44, 0x74)
    case DateTimePattern => (15, 0x44, 0x74)
    case Time => (4, 0x54, 0x6D)
    case TimePattern => (11, 0x54, 0x6D)
    case ObjectIdentifier => (16, 0x4F, 0x6A)
    case ObjectIdentifierPattern => (23, 0x4F, 0x6A)
    case WeekNDay => (8, 0x57, 0x65)
    case Sequence => (8, 0x53, 0x71)
    case Array => (5, 0x41, 0x72)
    case List => (4, 0x4C, 0x73)
    case SequenceOf => (10, 0x53, 0x71)
    case Choice => (6, 0x43, 0x6F)
    case Object => (6, 0x4F, 0x6A)
    case Bit => (3, 0x42, 0x74)
    case Link => (4, 0x4C, 0x6E)
    case Any => (3, 0x41, 0x79)
    case StringSet => (9, 0x53, 0x72)
    case Composition => (11, 0x43, 0x6D)
    case Collection => (10, 0x43, 0x6C)
    case Unknown => (7, 0x55, 0x6B)
    case Raw => (3, 0x52, 0x77)
    case Poly => (4, 0x50, 0x6C)
  }

  lemma FingerprintOfLiteral(b: Base)
    ensures var s := BaseLiteral(b); |s| > 2 && Fingerprint(b) == (|s|, s[0] as int, s[2] as int)
  {
  }

  lemma FingerprintOfName(b: Base)
    ensures var t := BaseToString(b); |t| > 2 && Fingerprint(b) == (|t|, t[0], t[2])
  {
    FingerprintOfLiteral(b);
    var s := BaseLiteral(b);
    assert 0 <= Fingerprint(b).1 < 0x1_0000 && 0 <= Fingerprint(b).2 < 0x1_0000;
  }

  lemma FingerprintsAreDistinct(a: Base, b: Base)
    requires Fingerprint(a) == Fingerprint(b)
    ensures a == b
  {
  }

  lemma BaseNamesAreDistinct(a: Base, b: Base)
    requires BaseToString(a) == BaseToString(b)
    ensures a == b
  {
    FingerprintOfName(a);
    FingerprintOfName(b);
    FingerprintsAreDistinct(a, b);
  }

  lemma {:induction false} LookUpFinds(b: Base, bases: seq<Base>)
    requires b in bases
    ensures LookUp(BaseToString(b), bases) == b
  {
    if BaseToString(bases[0]) == BaseToString(b) {
      BaseNamesAreDistinct(bases[0], b);
    } else {
      LookUpFinds(b, bases[1..]);
    }
  }

  lemma EveryBaseIsListed(b: Base)
    ensures b in BASES
  {
  }

  /** Reading a base name gives back the base it was written from. */
  lemma BaseNameRoundTrip(b: Base)
    ensures BaseFromString(BaseToString(b)) == b
  {
    EveryBaseIsListed(b);
    LookUpFinds(b, BASES);
  }

  /** A parsed item; `subs` holds metadata and children together, in the order they were added. */
  datatype Node = Node(name: Text, base: Base, value: Option<Text>, subs: seq<Node>)

  predicate IsMetadata(name: Text) {
    name != [] && name[0] == DOLLAR
  }

  function ChildrenOf(subs: seq<Node>): (r: seq<Node>)
    ensures forall n :: n in r <==> n in subs && !IsMetadata(n.name)
  {
    if subs == [] then []
    else (if IsMetadata(subs[0].name) then [] else [subs[0]]) + ChildrenOf(subs[1..])
  }

  /** The position of the first item with the given name, or the number of items. */
  function IndexOf(subs: seq<Node>, name: Text): (i: nat)
    ensures i <= |subs|
    ensures i < |subs| ==> subs[i].name == name
    ensures forall j :: 0 <= j < i ==> subs[j].name != name
  {
    if subs == [] || subs[0].name == name then 0 else 1 + IndexOf(subs[1..], name)
  }

  function Find(subs: seq<Node>, name: Text): Option<Node> {
    var i := IndexOf(subs, name);
    if i < |subs| then Some(subs[i]) else None
  }

  /** `addLocal`: the first item of the same name goes, and the new one is appended. */
  function AddLocal(subs: seq<Node>, sub: Node): seq<Node> {
    var i := IndexOf(subs, sub.name);
    (if i < |subs| then subs[..i] + subs[i + 1..] else subs) + [sub]
  }

  predicate DistinctNames(items: seq<Node>) {
    forall i, j :: 0 <= i < j < |items| ==> items[i].name != items[j].name
  }

  lemma AddLocalAppends(subs: seq<Node>, sub: Node)
    requires forall n :: n in subs ==> n.name != sub.name
    ensures AddLocal(subs, sub) == subs + [sub]
  {
  }

  lemma AddLocalKeepsDistinctNames(subs: seq<Node>, sub: Node)
    requires DistinctNames(subs)
    ensures DistinctNames(AddLocal(subs, sub))
  {
  }

  lemma {:induction false} ChildrenOfAppend(a: seq<Node>, b: seq<Node>)
    ensures ChildrenOf(a + b) == ChildrenOf(a) + ChildrenOf(b)
  {
    if a == [] {
      assert a + b == b;
    } else {
      assert (a + b)[1..] == a[1..] + b;
      ChildrenOfAppend(a[1..], b);
    }
  }
}
