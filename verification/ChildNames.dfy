/** Choosing the name of a new child (data/Rules.java, getNextAvailableChildName). */
module ChildNames {
  import opened CodeUnits
  import opened DataTree
  import opened Decimals

  const PARTIAL: Text := Ascii("$partial")

  predicate IsNumbered(base: Base) {
    base == Array || base == List || base == SequenceOf || base == Unknown
  }

  predicate IsFreelyNamed(base: Base) {
    base == Poly || base == Collection
  }

  /** The number a sibling called `name` uses up for the prefix: "foo12" and "foo_12" both use 12 for "foo". */
  function UsedNumber(name: Text, prefix: Text): Option<int> {
    if !StartsWith(name, prefix) then None
    else
      var remainder := name[|prefix|..];
      if remainder == [] then None
      else
        var digits := if remainder[0] == UNDERSCORE then remainder[1..] else remainder;
        if digits == [] || !IsDigit(digits[0]) then None else ParseInt(digits)
  }

  /** The candidate number after one more sibling. */
  function Advance(next: int, name: Text, prefix: Text): int {
    match UsedNumber(name, prefix)
    case Some(existing) => if existing >= next then Wrap(existing + 1) else next
    case None => next
  }

  /** The candidate number after all the siblings, starting from `next`. */
  function NextNumber(siblings: seq<Node>, prefix: Text, next: int): int {
    if siblings == [] then next
    else NextNumber(siblings[1..], prefix, Advance(next, siblings[0].name, prefix))
  }

  function Numbered(prefix: Text, n: int): Text {
    prefix + [UNDERSCORE] + ToString(n)
  }

  function IsTrue(t: Option<Node>): bool {
    t.Some? && t.value.value == Some(Ascii("true"))
  }

  /** The prefix actually used: a missing one is replaced by the position of the new child. */
  function Stem(target: Node, prefix: Text): Text {
    if prefix == [] then ToString(|ChildrenOf(target.subs)| + 1) else prefix
  }

  /** The name the new child gets, or `None` where the source refuses. */
  function NextAvailableChildName(target: Node, prefix: Text): Option<Text> {
    if IsNumbered(target.base) then
      if IsTrue(Find(target.subs, PARTIAL)) && prefix != [] then
        if ParseInt(prefix).Some? && Find(target.subs, prefix).None? then Some(prefix) else None
      else Some(ToString(|ChildrenOf(target.subs)| + 1))
    else if IsFreelyNamed(target.base) then
      var stem := Stem(target, prefix);
      if Find(target.subs, stem).None? then Some(stem)
      else Some(Numbered(stem, NextNumber(ChildrenOf(target.subs), stem, 1)))
    else Some(prefix)
  }

  method GetNextAvailableChildName(target: Node, prefix: Text) returns (name: Option<Text>)
    ensures name == NextAvailableChildName(target, prefix)
  {
    if IsNumbered(target.base) {
      if !IsTrue(Find(target.subs, PARTIAL)) || prefix == [] {
        return Some(ToString(|ChildrenOf(target.subs)| + 1));
      }
      if ParseInt(prefix).None? || Find(target.subs, prefix).Some? {
        return None;
      }
      return Some(prefix);
    }
    if !IsFreelyNamed(target.base) {
      return Some(prefix);
    }
    var stem := if prefix == [] then ToString(|ChildrenOf(target.subs)| + 1) else prefix;
    if Find(target.subs, stem).None? {
      return Some(stem);
    }
    var next := SearchNextNumber(ChildrenOf(target.subs), stem);
    name := Some(Numbered(stem, next));
  }

  /** The search loop over the existing children. */
  method SearchNextNumber(children: seq<Node>, stem: Text) returns (next: int)
    ensures next == NextNumber(children, stem, 1)
  {
    next := 1;
    assert children[0..] == children;
    for i := 0 to |children|
      invariant NextNumber(children[i..], stem, next) == NextNumber(children, stem, 1)
    {
      var child := children[i].name;
      ghost var goal := Advance(next, child, stem);
      assert NextNumber(children[i + 1..], stem, goal) == NextNumber(children, stem, 1) by {
        assert children[i..][1..] == children[i + 1..];
      }
      if StartsWith(child, stem) {
        var remainder := child[|stem|..];
        if remainder != [] && remainder[0] == UNDERSCORE {
          remainder := remainder[1..];
        }
        if remainder != [] && IsDigit(remainder[0]) {
          var existing := ParseInt(remainder);
          if existing.Some? && existing.value >= next {
            next := Wrap(existing.value + 1);
          }
        }
      }
      assert next == goal;
    }
  }

  // ----- freshness -----

  /** No sibling uses up the largest int for this prefix. */
  predicate NoLargest(siblings: seq<Node>, prefix: Text) {
    forall n :: n in siblings ==> UsedNumber(n.name, prefix) != Some(MAX_INT)
  }

  lemma NumberedUses(prefix: Text, n: int)
    requires 0 <= n <= MAX_INT
    ensures UsedNumber(Numbered(prefix, n), prefix) == Some(n)
  {
    var name := Numbered(prefix, n);
    assert name[..|prefix|] == prefix;
    assert name[|prefix|..] == [UNDERSCORE] + ToString(n);
    assert name[|prefix|..][1..] == ToString(n);
    ParsePrinted(n);
  }

  /** Without a largest suffix the candidate only grows, and ends above every number used up. */
  lemma {:induction false} NextNumberIsAbove(siblings: seq<Node>, prefix: Text, next: int)
    requires NoLargest(siblings, prefix)
    requires MIN_INT <= next <= MAX_INT
    ensures next <= NextNumber(siblings, prefix, next) <= MAX_INT
    ensures forall n :: n in siblings && UsedNumber(n.name, prefix).Some?
              ==> UsedNumber(n.name, prefix).value < NextNumber(siblings, prefix, next)
  {
    if siblings != [] {
      assert siblings[0] in siblings;
      NextNumberIsAbove(siblings[1..], prefix, Advance(next, siblings[0].name, prefix));
    }
  }

  /** A number may follow the prefix with or without an underscore. */
  lemma BareNumberUses(prefix: Text, n: int)
    requires 0 <= n <= MAX_INT
    ensures UsedNumber(prefix + ToString(n), prefix) == Some(n)
  {
    var name := prefix + ToString(n);
    assert name[..|prefix|] == prefix && name[|prefix|..] == ToString(n);
    ParsePrinted(n);
  }

  /** So unless there is a largest suffix, no sibling has the number found or a larger one, in either spelling. */
  lemma {:induction false} NumberIsFree(siblings: seq<Node>, prefix: Text, n: Node, k: int)
    requires NoLargest(siblings, prefix) && n in siblings && NextNumber(siblings, prefix, 1) <= k <= MAX_INT
    ensures n.name != prefix + ToString(k) && n.name != prefix + [UNDERSCORE] + ToString(k)
  {
    hide UsedNumber, NoLargest, NextNumber;
    NextNumberIsAbove(siblings, prefix, 1);
    BareNumberUses(prefix, k);
    NumberedUses(prefix, k);
  }

  lemma {:induction false} NextNumberSplits(a: seq<Node>, b: seq<Node>, prefix: Text, next: int)
    ensures NextNumber(a + b, prefix, next) == NextNumber(b, prefix, NextNumber(a, prefix, next))
  {
    if a == [] {
      assert a + b == b;
    } else {
      assert (a + b)[1..] == a[1..] + b;
      NextNumberSplits(a[1..], b, prefix, Advance(next, a[0].name, prefix));
    }
  }

  lemma {:induction false} NextNumberInRange(siblings: seq<Node>, prefix: Text, next: int)
    requires MIN_INT <= next <= MAX_INT
    ensures MIN_INT <= NextNumber(siblings, prefix, next) <= MAX_INT
    decreases |siblings|
  {
    hide UsedNumber;
    if siblings != [] {
      NextNumberInRange(siblings[1..], prefix, Advance(next, siblings[0].name, prefix));
    }
  }

  lemma UsedNumberIsNatural(name: Text, prefix: Text)
    ensures UsedNumber(name, prefix).Some? ==> 0 <= UsedNumber(name, prefix).value <= MAX_INT
  {
  }

  /** The largest number the siblings use up, if any does use one up. */
  function LargestUsed(siblings: seq<Node>, prefix: Text): Option<int> {
    if siblings == [] then None
    else
      var first, rest := UsedNumber(siblings[0].name, prefix), LargestUsed(siblings[1..], prefix);
      if first.None? then rest
      else if rest.None? || first.value >= rest.value then first
      else rest
  }

  /** How many siblings there are up to and including the last that uses up the largest int. */
  function Wrapping(siblings: seq<Node>, prefix: Text): (k: nat)
    ensures k <= |siblings| && NoLargest(siblings[k..], prefix)
    ensures k > 0 ==> UsedNumber(siblings[k - 1].name, prefix) == Some(MAX_INT)
  {
    if siblings == [] then 0
    else
      var n := |siblings| - 1;
      if UsedNumber(siblings[n].name, prefix) == Some(MAX_INT) then n + 1
      else
        assert siblings[..n] + [siblings[n]] == siblings;
        Wrapping(siblings[..n], prefix)
  }

  /**
   * The number the new name ends in, from the siblings alone: one more than the largest one used up since the last
   * wrap-around; without any, 1 if there was no wrap-around and the smallest int if there was.
   */
  function NumberFor(siblings: seq<Node>, prefix: Text): int {
    var k := Wrapping(siblings, prefix);
    var largest := LargestUsed(siblings[k..], prefix);
    if largest.Some? then largest.value + 1 else if k == 0 then 1 else MIN_INT
  }

  lemma {:induction false} LargestIsLargest(siblings: seq<Node>, prefix: Text)
    ensures var largest := LargestUsed(siblings, prefix);
            && (forall n :: n in siblings && UsedNumber(n.name, prefix).Some?
                  ==> largest.Some? && UsedNumber(n.name, prefix).value <= largest.value)
            && (largest.Some? ==> exists n :: n in siblings && UsedNumber(n.name, prefix) == largest)
  {
    hide UsedNumber;
    if siblings != [] {
      LargestIsLargest(siblings[1..], prefix);
      assert siblings[0] in siblings;
    }
  }

  /** Without a largest suffix the search ends one above the largest number used up. */
  lemma {:induction false} SearchFindsLargest(siblings: seq<Node>, prefix: Text, next: int)
    requires NoLargest(siblings, prefix) && MIN_INT <= next <= MAX_INT
    ensures var largest := LargestUsed(siblings, prefix);
            NextNumber(siblings, prefix, next)
            == if largest.Some? && largest.value >= next then largest.value + 1 else next
  {
    hide UsedNumber;
    if siblings != [] {
      assert siblings[0] in siblings;
      UsedNumberIsNatural(siblings[0].name, prefix);
      SearchFindsLargest(siblings[1..], prefix, Advance(next, siblings[0].name, prefix));
    }
  }

  /** The search loop finds exactly that number, wrap-around included. */
  lemma {:induction false} SearchFindsNumber(siblings: seq<Node>, prefix: Text)
    ensures NextNumber(siblings, prefix, 1) == NumberFor(siblings, prefix)
  {
    hide UsedNumber, NextNumber, LargestUsed, NoLargest, Wrapping;
    var k := Wrapping(siblings, prefix);
    LargestIsNatural(siblings[k..], prefix);
    if k == 0 {
      assert siblings[0..] == siblings;
      SearchFindsLargest(siblings, prefix, 1);
    } else {
      WrapRestarts(siblings, prefix, k - 1);
      SearchFindsLargest(siblings[k..], prefix, MIN_INT);
    }
  }

  lemma {:induction false} LargestIsNatural(siblings: seq<Node>, prefix: Text)
    ensures LargestUsed(siblings, prefix).Some? ==> 0 <= LargestUsed(siblings, prefix).value <= MAX_INT
  {
    LargestIsLargest(siblings, prefix);
    if LargestUsed(siblings, prefix).Some? {
      var n :| n in siblings && UsedNumber(n.name, prefix) == LargestUsed(siblings, prefix);
      UsedNumberIsNatural(n.name, prefix);
    }
  }

  lemma {:induction false} WrapRestarts(siblings: seq<Node>, prefix: Text, k: nat)
    requires k < |siblings| && UsedNumber(siblings[k].name, prefix) == Some(MAX_INT)
    ensures NextNumber(siblings, prefix, 1) == NextNumber(siblings[k + 1..], prefix, MIN_INT)
  {
    hide UsedNumber;
    NextNumberInRange(siblings[..k], prefix, 1);
    assert siblings == siblings[..k] + siblings[k..];
    NextNumberSplits(siblings[..k], siblings[k..], prefix, 1);
    assert siblings[k..][1..] == siblings[k + 1..];
  }

  /** The siblings that can already have the new name: those up to the last wrap-around, or all if it ends there. */
  function Rivals(siblings: seq<Node>, prefix: Text): seq<Node> {
    var k := Wrapping(siblings, prefix);
    if k == 0 then [] else if LargestUsed(siblings[k..], prefix).Some? then siblings[..k] else siblings
  }

  lemma NumberedIsRivalsOnly(siblings: seq<Node>, prefix: Text)
    ensures var name := Numbered(prefix, NumberFor(siblings, prefix));
            (exists n :: n in siblings && n.name == name) <==> (exists n :: n in Rivals(siblings, prefix) && n.name == name)
  {
    hide UsedNumber, LargestUsed, NoLargest, Wrapping, Numbered;
    var k, number := Wrapping(siblings, prefix), NumberFor(siblings, prefix);
    var later := siblings[k..];
    LargestIsLargest(later, prefix);
    LargestIsNatural(later, prefix);
    NoneIsLargest(later, prefix);
    if number != MIN_INT {
      NumberedUses(prefix, number);
      assert forall n :: n in later ==> n.name != Numbered(prefix, number);
      assert siblings == siblings[..k] + later;
    }
  }

  lemma {:induction false} NoneIsLargest(siblings: seq<Node>, prefix: Text)
    requires NoLargest(siblings, prefix)
    ensures LargestUsed(siblings, prefix) != Some(MAX_INT)
  {
    LargestIsLargest(siblings, prefix);
  }

  /**
   * The name of a new child, and exactly when it is a new one.  It is the prefix if nothing has that name yet, else
   * the prefix and `NumberFor` the siblings; and a child has it already if and only if a sibling uses up the largest
   * int and one of the rivals that leaves has the numbered name.
   */
  lemma NewNameIsExact(target: Node, prefix: Text)
    requires IsFreelyNamed(target.base)
    ensures var children, stem := ChildrenOf(target.subs), Stem(target, prefix);
            var free, numbered := Find(target.subs, stem).None?, Numbered(stem, NumberFor(children, stem));
            && NextAvailableChildName(target, prefix) == Some(if free then stem else numbered)
            && ((exists n :: n in children && n.name == NextAvailableChildName(target, prefix).value)
                <==> !free && !NoLargest(children, stem) && exists n :: n in Rivals(children, stem) && n.name == numbered)
  {
    hide UsedNumber, NextNumber, LargestUsed, NoLargest, Wrapping, NumberFor, Numbered;
    var children, stem := ChildrenOf(target.subs), Stem(target, prefix);
    SearchFindsNumber(children, stem);
    NumberedIsRivalsOnly(children, stem);
    WrappingIffLargest(children, stem);
  }

  lemma {:induction false} WrappingIffLargest(siblings: seq<Node>, prefix: Text)
    ensures Wrapping(siblings, prefix) == 0 <==> NoLargest(siblings, prefix)
  {
    hide UsedNumber, Wrapping;
    var k := Wrapping(siblings, prefix);
    assert k == 0 ==> siblings[k..] == siblings;
    assert k > 0 ==> siblings[k - 1] in siblings;
  }

  /** In particular the new name is taken by no child as long as no child's suffix is the largest int. */
  lemma NewNameIsFresh(target: Node, prefix: Text)
    requires IsFreelyNamed(target.base)
    requires NoLargest(ChildrenOf(target.subs), Stem(target, prefix))
    ensures var name := NextAvailableChildName(target, prefix);
            name.Some? && forall n :: n in ChildrenOf(target.subs) ==> n.name != name.value
  {
    hide NoLargest, NextAvailableChildName;
    NewNameIsExact(target, prefix);
  }

  /**
   * The names for other bases. In numbered containers it is the position of the new child; but where only a part of one is
   * given, the number that comes with the child, and anything else but a new number is refused. In all others the name
   * given is taken, whatever it is; where names are free, only a missing one is replaced by the position.
   */
  lemma NamesByBase(target: Node, given: Text)
    ensures var name, position := NextAvailableChildName(target, given), ToString(|ChildrenOf(target.subs)| + 1);
            var isPart := Find(target.subs, Ascii("$partial")).Some?
                          && Find(target.subs, Ascii("$partial")).value.value == Some(Ascii("true"));
            var isNew := forall n :: n in target.subs ==> n.name != given;
            if target.base in {Array, List, SequenceOf, Unknown} then
              name == if !isPart || given == [] then Some(position)
                      else if ParseInt(given).Some? && isNew then Some(given)
                      else None
            else if target.base in {Poly, Collection} then
              (given == [] && (forall n :: n in target.subs ==> n.name != position) ==> name == Some(position))
              && (given != [] && isNew ==> name == Some(given))
            else name == Some(given)
  {
    hide ParseInt, ToString, NextNumber, Numbered, Find, ChildrenOf, IndexOf;
    FindNone(target.subs, given);
    FindNone(target.subs, Stem(target, given));
  }

  lemma FindNone(subs: seq<Node>, name: Text)
    ensures Find(subs, name).None? <==> forall n :: n in subs ==> n.name != name
  {
    var i := IndexOf(subs, name);
    assert i < |subs| ==> subs[i] in subs;
  }

  lemma NegativeUsesNothing(prefix: Text, n: int)
    requires n < 0
    ensures UsedNumber(Numbered(prefix, n), prefix).None?
  {
  }

  /** The promise does fail: with siblings "a", "a_2147483647" and "a_-2147483648" a second "a" gets the last name. */
  lemma LargestSuffixBreaksFreshness(a: Node, big: Node, small: Node)
    requires a.name == Ascii("a")
    requires big.name == Numbered(a.name, MAX_INT)
    requires small.name == Numbered(a.name, MIN_INT)
    ensures NextAvailableChildName(Node([], Poly, None, [a, big, small]), a.name) == Some(small.name)
  {
    hide UsedNumber, NextNumber, ChildrenOf, Find, ToString, IsMetadata, Ascii;
    NumberedUses(a.name, MAX_INT);
    NegativeUsesNothing(a.name, MIN_INT);
    NumberedIsNoMetadata(a.name, MAX_INT);
    NumberedIsNoMetadata(a.name, MIN_INT);
    WrappedNumber(a, big, small);
  }

  lemma NumberedIsNoMetadata(prefix: Text, n: int)
    requires prefix == Ascii("a")
    ensures !IsMetadata(prefix) && !IsMetadata(Numbered(prefix, n))
  {
    assert prefix[0] == 0x61 && Numbered(prefix, n)[0] == prefix[0];
  }

  lemma WrappedNumber(a: Node, big: Node, small: Node)
    requires a.name != [] && UsedNumber(big.name, a.name) == Some(MAX_INT) && UsedNumber(small.name, a.name).None?
    requires !IsMetadata(a.name) && !IsMetadata(big.name) && !IsMetadata(small.name)
    ensures ChildrenOf([a, big, small]) == [a, big, small]
    ensures NextNumber([a, big, small], a.name, 1) == MIN_INT
    ensures Find([a, big, small], a.name).Some?
  {
    hide NextNumber, ChildrenOf;
    AllAreChildren([a, big, small]);
    assert [a, big, small] == [a] + [big] + [small];
    NextNumberSplits([a] + [big], [small], a.name, 1);
    NextNumberSplits([a], [big], a.name, 1);
    OneStep(a, a.name, 1);
    OneStep(big, a.name, 1);
    OneStep(small, a.name, MIN_INT);
  }

  lemma {:induction false} AllAreChildren(subs: seq<Node>)
    requires forall n :: n in subs ==> !IsMetadata(n.name)
    ensures ChildrenOf(subs) == subs
  {
    if subs != [] {
      AllAreChildren(subs[1..]);
      assert [subs[0]] + subs[1..] == subs;
    }
  }

  lemma {:induction false} OneStep(n: Node, prefix: Text, next: int)
    ensures NextNumber([n], prefix, next) == Advance(next, n.name, prefix)
    ensures n.name == prefix ==> Advance(next, n.name, prefix) == next
  {
    assert [n][1..] == [];
  }
}
