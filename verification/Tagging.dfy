/** The `tagged()` function (functions/TaggedFunction.java): a depth-first search with a shared list of parents. */
module Tagging {
  import opened CodeUnits
  import opened DataTree
  import opened Decimals
  import opened Addressing

  // ----- document order -----

  /** How many more levels to descend; `None` for all. */
  type Levels = Option<nat>

  function OneLess(levels: Levels): Levels {
    if levels.Some? && levels.value > 0 then Some(levels.value - 1) else levels
  }

  /** `p` and the children below it, in document order. */
  function Preorder(root: Node, p: Place, levels: Levels): seq<Place>
    requires Exists(root, p)
    decreases At(root, p), |At(root, p).subs| + 1
  {
    if levels == Some(0) then [p] else [p] + Below(root, p, |At(root, p).subs|, OneLess(levels))
  }

  /** The first `i` items under `p`, each with what is below it. */
  function Below(root: Node, p: Place, i: nat, levels: Levels): seq<Place>
    requires Exists(root, p) && i <= |At(root, p).subs|
    decreases At(root, p), i
  {
    if i == 0 then []
    else
      ChildExists(root, p, i - 1);
      Below(root, p, i - 1, levels)
      + if IsMetadata(At(root, p).subs[i - 1].name) then [] else Preorder(root, p + [i - 1], levels)
  }

  /** From `p` to `q` by children only. */
  predicate Descends(root: Node, p: Place, q: Place)
    requires Exists(root, p)
    decreases |q|
  {
    if |q| <= |p| then q == p
    else
      Exists(root, q)
      && (ParentExists(root, q); !IsMetadata(At(root, q).name))
      && Descends(root, p, Parent(q))
  }

  predicate Within(p: Place, q: Place, levels: Levels) {
    levels.Some? ==> |q| - |p| <= levels.value
  }

  // ----- the search -----

  predicate HasAll(found: set<Text>, tags: seq<Text>) {
    forall t :: t in tags ==> t in found
  }

  /** The levels below an item with that many parents: all for a limit of -1, else up to level `limit`. */
  function LevelsBelow(limit: int, parents: nat): Levels {
    if limit == -1 then None
    else if parents < Wrap(limit - 1) then Some(Wrap(limit - 1) - parents)
    else Some(0)
  }

  /** The path of `p` relative to an ancestor at level `j`. */
  function PathFrom(root: Node, p: Place, j: nat): Text
    requires Exists(root, p) && j < |p|
  {
    Join(NamesBelow(root, p, j))
  }

  /** The paths of those places that carry all tags. */
  function Matching(root: Node, tagsOf: Place -> set<Text>, tags: seq<Text>, places: seq<Place>, j: nat): seq<Text>
  {
    if places == [] then []
    else
      var n := |places| - 1;
      Matching(root, tagsOf, tags, places[..n], j)
      + if HasAll(tagsOf(places[n]), tags) && Exists(root, places[n]) && j < |places[n]| then [PathFrom(root, places[n], j)]
        else []
  }

  lemma {:induction false} MatchingInTwoParts(
      root: Node, tagsOf: Place -> set<Text>, tags: seq<Text>, a: seq<Place>, b: seq<Place>, j: nat)
    ensures Matching(root, tagsOf, tags, a + b, j) == Matching(root, tagsOf, tags, a, j) + Matching(root, tagsOf, tags, b, j)
    decreases |b|
  {
    hide Exists, PathFrom, HasAll;
    if b == [] {
      assert a + b == a;
    } else {
      var n := |b| - 1;
      assert (a + b)[..|a| + n] == a + b[..n];
      MatchingInTwoParts(root, tagsOf, tags, a, b[..n], j);
    }
  }

  /** One invocation: the parents of the item at hand, below the target, and the paths found so far. */
  class TaggedFunction {
    const root: Node
    const tagsOf: Place -> set<Text>
    const target: Place
    const tags: seq<Text>
    const depthLimit: int
    var parents: seq<Place>
    var results: seq<Text>

    constructor (root: Node, tagsOf: Place -> set<Text>, target: Place, tags: seq<Text>, depthLimit: int)
      ensures this.root == root && this.tagsOf == tagsOf && this.target == target && this.tags == tags
      ensures this.depthLimit == depthLimit && parents == [] && results == []
    {
      this.root, this.tagsOf, this.target, this.tags, this.depthLimit := root, tagsOf, target, tags, depthLimit;
      parents, results := [], [];
    }

    /** `parents` are the places between the target and `data`. */
    ghost predicate LeadsTo(data: Place)
      reads this`parents
    {
      && Exists(root, target) && Exists(root, data) && target < data
      && |parents| == |data| - |target| - 1
      && forall k :: 0 <= k < |parents| ==> parents[k] == data[..|target| + 1 + k]
    }

    /** The name of each parent and a slash, then the item's own. */
    method BuildPath(data: Place) returns (path: Text)
      requires LeadsTo(data)
      ensures path == PathFrom(root, data, |target|)
    {
      hide At, Exists, Join;
      path := [];
      ghost var j := |target|;
      for i := 0 to |parents|
        invariant i > 0 ==> Exists(root, parents[i - 1]) && path == Join(NamesBelow(root, parents[i - 1], j)) + SLASHES
        invariant i == 0 ==> path == []
      {
        var parent := parents[i];
        AncestorExists(root, data, j + 1 + i);
        ParentExists(root, parent);
        AncestorExists(root, data, j + i);
        OneMoreName(root, parent, j);
        assert i > 0 ==> Parent(parent) == parents[i - 1];
        path := path + At(root, parent).name + SLASHES;
      }
      ParentExists(root, data);
      OneMoreName(root, data, j);
      assert |parents| > 0 ==> Parent(data) == parents[|parents| - 1];
      path := path + At(root, data).name;
    }

    method CountTags(foundTags: set<Text>) returns (found: nat)
      ensures found == |tags| <==> HasAll(foundTags, tags)
    {
      hide HasAll;
      found := 0;
      NoTagsMissing(foundTags);
      assert tags[..0] == [];
      for i := 0 to |tags|
        invariant found <= i && (found == i <==> HasAll(foundTags, tags[..i]))
      {
        OneMoreTag(foundTags, tags, i);
        if tags[i] in foundTags {
          found := found + 1;
        }
      }
      assert tags[..|tags|] == tags;
    }

    method Search(data: Place)
      requires LeadsTo(data)
      modifies this
      ensures parents == old(parents)
      ensures results == old(results)
                       + Matching(root, tagsOf, tags, Preorder(root, data, LevelsBelow(depthLimit, |parents|)), |target|)
      decreases At(root, data), |At(root, data).subs| + 1
    {
      hide Matching, Exists, Below, HasAll, Wrap;
      var found := CountTags(tagsOf(data));
      ghost var j := |target|;
      if found == |tags| {
        var path := BuildPath(data);
        results := results + [path];
      }
      MatchingOne(root, tagsOf, tags, data, j);
      var subs := At(root, data).subs;
      ghost var levels := LevelsBelow(depthLimit, |parents|);
      if HasChild(subs) && (depthLimit == -1 || |parents| < Wrap(depthLimit - 1)) {
        ghost var before := parents;
        parents := parents + [data];
        assert LevelsBelow(depthLimit, |parents|) == OneLess(levels);
        SearchBelow(data);
        parents := parents[..|parents| - 1];
        assert parents == before;
        MatchingInTwoParts(root, tagsOf, tags, [data], Below(root, data, |subs|, OneLess(levels)), j);
      } else if levels != Some(0) {
        NoChildrenBelow(root, data, |subs|, OneLess(levels));
        assert [data] + [] == [data];
      }
    }

    /** The loop over the children, with the item among the parents. */
    method SearchBelow(data: Place)
      requires Exists(root, target) && Exists(root, data) && target <= data && |parents| == |data| - |target|
      requires forall k :: 0 <= k < |parents| ==> parents[k] == data[..|target| + 1 + k]
      modifies this
      ensures parents == old(parents)
      ensures var levels := LevelsBelow(depthLimit, |parents|);
              results == old(results)
                       + Matching(root, tagsOf, tags, Below(root, data, |At(root, data).subs|, levels), |target|)
      decreases At(root, data), 0
    {
      hide Matching, Exists, Below, Preorder, LevelsBelow;
      var subs := At(root, data).subs;
      ghost var levels, j := LevelsBelow(depthLimit, |parents|), |target|;
      BelowNothing(root, data, levels);
      MatchingNothing(root, tagsOf, tags, j);
      for i := 0 to |subs|
        invariant parents == old(parents)
        invariant results == old(results) + Matching(root, tagsOf, tags, Below(root, data, i, levels), j)
      {
        BelowStep(root, data, i, levels);
        ghost var so := Below(root, data, i, levels);
        assert so + [] == so;
        if !IsMetadata(subs[i].name) {
          ChildExists(root, data, i);
          ghost var child := data + [i];
          assert forall k :: 0 <= k < |parents| ==> parents[k] == child[..j + 1 + k];
          Search(data + [i]);
          MatchingInTwoParts(root, tagsOf, tags, so, Preorder(root, child, levels), j);
        }
      }
    }

    /** `invoke`, after its arguments are parsed. */
    method Invoke()
      requires Exists(root, target) && parents == [] && results == []
      modifies this
      ensures parents == []
      ensures results == Matching(root, tagsOf, tags, Visited(root, target, depthLimit), |target|)
    {
      SearchBelow(target);
    }
  }

  lemma NoTagsMissing(found: set<Text>)
    ensures HasAll(found, [])
  {
  }

  predicate HasChild(subs: seq<Node>) {
    exists i :: 0 <= i < |subs| && !IsMetadata(subs[i].name)
  }

  lemma OneMoreTag(found: set<Text>, tags: seq<Text>, i: nat)
    requires i < |tags|
    ensures HasAll(found, tags[..i + 1]) <==> HasAll(found, tags[..i]) && tags[i] in found
  {
    assert tags[..i + 1] == tags[..i] + [tags[i]];
  }

  lemma {:induction false} OneMoreName(root: Node, p: Place, j: nat)
    requires Exists(root, p) && j < |p| && Exists(root, Parent(p))
    ensures |p| == j + 1 ==> Join(NamesBelow(root, p, j)) == At(root, p).name
    ensures |p| > j + 1 ==> Join(NamesBelow(root, p, j)) == Join(NamesBelow(root, Parent(p), j)) + SLASHES + At(root, p).name
  {
  }

  lemma {:induction false} MatchingOne(root: Node, tagsOf: Place -> set<Text>, tags: seq<Text>, p: Place, j: nat)
    requires Exists(root, p) && j < |p|
    ensures Matching(root, tagsOf, tags, [p], j) == if HasAll(tagsOf(p), tags) then [PathFrom(root, p, j)] else []
  {
  }

  lemma {:induction false} MatchingNothing(root: Node, tagsOf: Place -> set<Text>, tags: seq<Text>, j: nat)
    ensures Matching(root, tagsOf, tags, [], j) == []
  {
  }

  lemma {:induction false} BelowNothing(root: Node, p: Place, levels: Levels)
    requires Exists(root, p)
    ensures Below(root, p, 0, levels) == []
  {
  }

  lemma BelowStep(root: Node, p: Place, i: nat, levels: Levels)
    requires Exists(root, p) && i < |At(root, p).subs|
    ensures Exists(root, p + [i]) && At(root, p + [i]) == At(root, p).subs[i]
    ensures Below(root, p, i + 1, levels)
         == Below(root, p, i, levels) + if IsMetadata(At(root, p).subs[i].name) then [] else Preorder(root, p + [i], levels)
  {
    hide Preorder, Exists, At;
    ChildExists(root, p, i);
  }

  lemma {:induction false} NoChildrenBelow(root: Node, p: Place, i: nat, levels: Levels)
    requires Exists(root, p) && i <= |At(root, p).subs| && !HasChild(At(root, p).subs)
    ensures Below(root, p, i, levels) == []
    decreases i
  {
    hide Preorder, Exists, At, Below;
    if i == 0 {
      BelowNothing(root, p, levels);
    } else {
      NoChildrenBelow(root, p, i - 1, levels);
      BelowStep(root, p, i - 1, levels);
    }
  }

  // ----- the search visits exactly the descendants within the limit, in document order -----

  lemma {:induction false} DownFirst(root: Node, p: Place, q: Place)
    requires Exists(root, p) && Descends(root, p, q) && |q| > |p|
    ensures p < q && Exists(root, q) && q[|p|] < |At(root, p).subs| && !IsMetadata(At(root, p).subs[q[|p|]].name)
    ensures Exists(root, p + [q[|p|]]) && Descends(root, p + [q[|p|]], q)
    decreases |q|
  {
    hide Exists, At;
    var up := Parent(q);
    ParentExists(root, q);
    if |up| > |p| {
      DownFirst(root, p, up);
    } else {
      assert q == p + [q[|p|]];
    }
  }

  lemma {:induction false} UpFirst(root: Node, p: Place, k: nat, q: Place)
    requires Exists(root, p) && Exists(root, p + [k]) && Descends(root, p + [k], q)
    requires !IsMetadata(At(root, p + [k]).name)
    ensures p < q && q[|p|] == k && Descends(root, p, q)
    decreases |q|
  {
    hide Exists, At;
    if |q| <= |p + [k]| {
      assert Parent(q) == p;
    } else {
      UpFirst(root, p, k, Parent(q));
    }
  }

  /** The search visits a place exactly if it is the item or below it by children, and within the levels. */
  lemma {:induction false} PreorderIsExact(root: Node, p: Place, levels: Levels, q: Place)
    requires Exists(root, p)
    ensures q in Preorder(root, p, levels) <==> Descends(root, p, q) && Within(p, q, levels)
    decreases At(root, p), |At(root, p).subs| + 1
  {
    hide Exists, At, Below;
    if levels != Some(0) {
      var n := |At(root, p).subs|;
      BelowIsExact(root, p, n, OneLess(levels), q);
      if Descends(root, p, q) && |q| > |p| {
        DownFirst(root, p, q);
      }
    }
  }

  lemma {:induction false} BelowIsExact(root: Node, p: Place, i: nat, levels: Levels, q: Place)
    requires Exists(root, p) && i <= |At(root, p).subs|
    ensures q in Below(root, p, i, levels)
       <==> Descends(root, p, q) && |q| > |p| && q[|p|] < i && (levels.Some? ==> |q| - |p| - 1 <= levels.value)
    decreases At(root, p), i
  {
    hide Exists, At, Below, Preorder, Descends;
    if i == 0 {
      BelowNothing(root, p, levels);
    } else {
      BelowStep(root, p, i - 1, levels);
      ChildExists(root, p, i - 1);
      BelowIsExact(root, p, i - 1, levels, q);
      if Descends(root, p, q) && |q| > |p| {
        DownFirst(root, p, q);
      }
      if !IsMetadata(At(root, p).subs[i - 1].name) {
        PreorderIsExact(root, p + [i - 1], levels, q);
        if Descends(root, p + [i - 1], q) {
          UpFirst(root, p, i - 1, q);
        }
      }
    }
  }

  /** Document order: an item before what is below it, and that before the items after it. */
  predicate Earlier(a: Place, b: Place) {
    b != [] && (a == [] || a[0] < b[0] || (a[0] == b[0] && Earlier(a[1..], b[1..])))
  }

  lemma {:induction false} EarlierAt(p: Place, a: Place, b: Place)
    requires p <= a && p < b && (a == p || (p < a && a[|p|] < b[|p|]))
    ensures Earlier(a, b)
    decreases |p|
  {
    if p != [] {
      EarlierAt(p[1..], a[1..], b[1..]);
    }
  }

  predicate Sorted(places: seq<Place>) {
    forall i, j :: 0 <= i < j < |places| ==> Earlier(places[i], places[j])
  }

  lemma SortedAppend(a: seq<Place>, b: seq<Place>)
    requires Sorted(a) && Sorted(b) && forall x, y :: x in a && y in b ==> Earlier(x, y)
    ensures Sorted(a + b)
  {
  }

  lemma {:induction false} PreorderIsSorted(root: Node, p: Place, levels: Levels)
    requires Exists(root, p)
    ensures Sorted(Preorder(root, p, levels))
    decreases At(root, p), |At(root, p).subs| + 1
  {
    hide Exists, At, Below, Earlier, Descends;
    if levels != Some(0) {
      var n := |At(root, p).subs|;
      var below := Below(root, p, n, OneLess(levels));
      BelowIsSorted(root, p, n, OneLess(levels));
      forall q | q in below
        ensures Earlier(p, q)
      {
        BelowIsExact(root, p, n, OneLess(levels), q);
        DownFirst(root, p, q);
        EarlierAt(p, p, q);
      }
      SortedAppend([p], below);
    }
  }

  lemma {:induction false} BelowIsSorted(root: Node, p: Place, i: nat, levels: Levels)
    requires Exists(root, p) && i <= |At(root, p).subs|
    ensures Sorted(Below(root, p, i, levels))
    decreases At(root, p), i
  {
    hide Exists, At, Below, Earlier, Descends, Preorder;
    if i == 0 {
      BelowNothing(root, p, levels);
    } else {
      BelowStep(root, p, i - 1, levels);
      BelowIsSorted(root, p, i - 1, levels);
      var before := Below(root, p, i - 1, levels);
      if IsMetadata(At(root, p).subs[i - 1].name) {
        assert before + [] == before;
      } else {
        var last := Preorder(root, p + [i - 1], levels);
        PreorderIsSorted(root, p + [i - 1], levels);
        forall a, b | a in before && b in last
          ensures Earlier(a, b)
        {
          BelowIsExact(root, p, i - 1, levels, a);
          DownFirst(root, p, a);
          PreorderIsExact(root, p + [i - 1], levels, b);
          UpFirst(root, p, i - 1, b);
          EarlierAt(p, a, b);
        }
        SortedAppend(before, last);
      }
    }
  }

  // ----- what an invocation finds -----

  /** The items an invocation looks at. */
  function Visited(root: Node, target: Place, depth: int): seq<Place>
    requires Exists(root, target)
  {
    Below(root, target, |At(root, target).subs|, LevelsBelow(depth, 0))
  }

  /** The deepest level a depth other than -1 leads to. The smallest int leads deepest of all: one less wraps around. */
  function DeepestLevel(depth: int): int {
    if depth == MIN_INT then MAX_INT + 1 else Limit(depth)
  }

  /** The level a depth is meant to stop at. */
  function Limit(depth: int): int {
    if depth > 1 then depth else 1
  }

  predicate InReach(root: Node, target: Place, depth: int, q: Place)
    requires Exists(root, target)
  {
    Descends(root, target, q) && |q| > |target| && (depth == -1 || |q| - |target| <= DeepestLevel(depth))
  }

  /** What `tagged()` looks at below a target: every descendant down to the deepest level, or at any level for -1. */
  lemma {:induction false} TaggedVisits(root: Node, target: Place, depth: int, q: Place)
    requires Exists(root, target) && MIN_INT <= depth <= MAX_INT
    ensures Sorted(Visited(root, target, depth))
    ensures q in Visited(root, target, depth) <==> InReach(root, target, depth, q)
  {
    hide Below, Descends, Sorted, Exists, At;
    var n := |At(root, target).subs|;
    BelowIsExact(root, target, n, LevelsBelow(depth, 0), q);
    BelowIsSorted(root, target, n, LevelsBelow(depth, 0));
    if Descends(root, target, q) && |q| > |target| {
      DownFirst(root, target, q);
    }
  }

  predicate HasGrandchild(node: Node) {
    exists i :: 0 <= i < |node.subs| && !IsMetadata(node.subs[i].name) && HasChild(node.subs[i].subs)
  }

  lemma {:induction false} SecondLevel(root: Node, target: Place, q: Place)
    requires Exists(root, target) && Descends(root, target, q) && |q| >= |target| + 2
    ensures HasGrandchild(At(root, target))
  {
    hide Exists, At, Descends;
    DownFirst(root, target, q);
    var child := target + [q[|target|]];
    ChildExists(root, target, q[|target|]);
    DownFirst(root, child, q);
    assert !IsMetadata(At(root, child).subs[q[|child|]].name);
  }

  lemma GrandchildDescends(root: Node, target: Place) returns (q: Place)
    requires Exists(root, target) && HasGrandchild(At(root, target))
    ensures Descends(root, target, q) && |q| == |target| + 2
  {
    hide Exists, At;
    var node := At(root, target);
    var i :| 0 <= i < |node.subs| && !IsMetadata(node.subs[i].name) && HasChild(node.subs[i].subs);
    var k :| 0 <= k < |node.subs[i].subs| && !IsMetadata(node.subs[i].subs[k].name);
    var child := target + [i];
    ChildExists(root, target, i);
    ChildExists(root, child, k);
    q := child + [k];
    assert Parent(child) == target && Parent(q) == child;
    assert Descends(root, target, target);
    assert Descends(root, target, child);
  }

  /** The levels asked for are kept to, unless the depth is the smallest int and the target has grandchildren. */
  lemma {:induction false} LimitIsKept(root: Node, target: Place, depth: int)
    requires Exists(root, target) && MIN_INT <= depth <= MAX_INT && depth != -1
    ensures (forall q :: q in Visited(root, target, depth) ==> |q| - |target| <= Limit(depth))
       <==> depth != MIN_INT || !HasGrandchild(At(root, target))
  {
    hide Exists, At, Descends, Visited, HasGrandchild;
    forall q | q in Visited(root, target, depth) && |q| - |target| > Limit(depth)
      ensures depth == MIN_INT && HasGrandchild(At(root, target))
    {
      TaggedVisits(root, target, depth, q);
      SecondLevel(root, target, q);
    }
    if depth == MIN_INT && HasGrandchild(At(root, target)) {
      var q := GrandchildDescends(root, target);
      TaggedVisits(root, target, depth, q);
    }
  }

  /** The paths of these places, in order; each leads from the target back to its place if that is addressable. */
  ghost predicate Finds(w: World, mode: Mode, target: Place, places: seq<Place>, paths: seq<Text>)
    requires Exists(w.root, target)
  {
    && |paths| == |places|
    && forall i :: 0 <= i < |places| ==> LeadsFrom(w, mode, target, places[i], paths[i])
  }

  predicate LeadsFrom(w: World, mode: Mode, target: Place, q: Place, path: Text)
    requires Exists(w.root, target)
  {
    && target < q && Exists(w.root, q) && path == PathFrom(w.root, q, |target|)
    && (Addressable(w, mode, q) ==> Resolved(w, mode, target, path) == Reached(q))
  }

  /** Of any places in order, those with all the tags are found, in order. */
  lemma {:induction false} MatchingFinds(
      w: World, mode: Mode, tagsOf: Place -> set<Text>, tags: seq<Text>, target: Place, places: seq<Place>)
    returns (found: seq<Place>)
    requires Exists(w.root, target) && LegalPrefix(w.dataPrefix) && Sorted(places)
    requires forall q :: q in places ==> Exists(w.root, q) && target < q
    ensures forall q :: q in found <==> q in places && HasAll(tagsOf(q), tags)
    ensures Sorted(found) && Finds(w, mode, target, found, Matching(w.root, tagsOf, tags, places, |target|))
    decreases |places|
  {
    hide Exists, HasAll, PathFrom, Finds, Matching, Sorted, Descends;
    var j := |target|;
    if places == [] {
      found := [];
      NothingIsSorted();
      NothingFound(w, mode, target);
      MatchingNothing(w.root, tagsOf, tags, j);
    } else {
      var n := |places| - 1;
      var q, before := places[n], places[..n];
      assert places == before + [q] && q in places;
      assert forall p :: p in places <==> p in before || p == q;
      SortedFront(before, q);
      found := MatchingFinds(w, mode, tagsOf, tags, target, before);
      MatchingInTwoParts(w.root, tagsOf, tags, before, [q], j);
      MatchingOne(w.root, tagsOf, tags, q, j);
      if HasAll(tagsOf(q), tags) {
        SortedMore(found, q);
        PathLeads(w, mode, target, q);
        OneMoreFound(w, mode, target, found, Matching(w.root, tagsOf, tags, before, j), q, PathFrom(w.root, q, j));
        found := found + [q];
      } else {
        var paths := Matching(w.root, tagsOf, tags, before, j);
        assert paths + [] == paths;
      }
    }
  }

  lemma NothingIsSorted()
    ensures Sorted([])
  {
  }

  lemma {:induction false} SortedFront(places: seq<Place>, last: Place)
    requires Sorted(places + [last])
    ensures Sorted(places) && forall p :: p in places ==> Earlier(p, last)
  {
    hide Earlier;
    var all := places + [last];
    assert forall i :: 0 <= i < |places| ==> all[i] == places[i];
    forall p | p in places
      ensures Earlier(p, last)
    {
      var i :| 0 <= i < |places| && places[i] == p;
      assert Earlier(all[i], all[|places|]);
    }
  }

  lemma {:induction false} SortedMore(places: seq<Place>, last: Place)
    requires Sorted(places) && forall p :: p in places ==> Earlier(p, last)
    ensures Sorted(places + [last])
  {
    hide Earlier;
    assert forall i :: 0 <= i < |places| ==> places[i] in places;
  }

  lemma {:induction false} NothingFound(w: World, mode: Mode, target: Place)
    requires Exists(w.root, target)
    ensures Finds(w, mode, target, [], [])
  {
  }

  lemma {:induction false} OneMoreFound(w: World, mode: Mode, target: Place, places: seq<Place>, paths: seq<Text>, q: Place, path: Text)
    requires Exists(w.root, target) && Finds(w, mode, target, places, paths) && LeadsFrom(w, mode, target, q, path)
    ensures Finds(w, mode, target, places + [q], paths + [path])
  {
    hide Exists, LeadsFrom;
  }

  lemma {:induction false} PathLeads(w: World, mode: Mode, target: Place, q: Place)
    requires Exists(w.root, target) && LegalPrefix(w.dataPrefix) && Exists(w.root, q) && target < q
    ensures LeadsFrom(w, mode, target, q, PathFrom(w.root, q, |target|))
  {
    hide Exists, Addressable, Resolved;
    if Addressable(w, mode, q) {
      RelativeLeadsBack(w, mode, q, target);
    }
  }

  /**
   * What an invocation returns: the paths, in document order, of exactly the items in reach that carry all the tags, and
   * each path evaluates from the target to its item, whatever the other items are.
   */
  lemma TaggedIsExact(w: World, mode: Mode, tagsOf: Place -> set<Text>, tags: seq<Text>, target: Place, depth: int)
    returns (found: seq<Place>)
    requires Exists(w.root, target) && LegalPrefix(w.dataPrefix) && MIN_INT <= depth <= MAX_INT
    ensures forall q :: q in found <==> InReach(w.root, target, depth, q) && forall t :: t in tags ==> t in tagsOf(q)
    ensures Sorted(found)
    ensures Finds(w, mode, target, found, Matching(w.root, tagsOf, tags, Visited(w.root, target, depth), |target|))
  {
    hide Exists, Descends, Visited, Matching, Finds, Sorted, LeadsFrom, DeepestLevel;
    var places := Visited(w.root, target, depth);
    forall q
      ensures q in places <==> InReach(w.root, target, depth, q)
      ensures q in places ==> Exists(w.root, q) && target < q
    {
      TaggedVisits(w.root, target, depth, q);
      if q in places {
        DownFirst(w.root, target, q);
      }
    }
    TaggedVisits(w.root, target, depth, target);
    found := MatchingFinds(w, mode, tagsOf, tags, target, places);
  }
}
