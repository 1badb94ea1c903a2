/**
 * Addressing items by path (resolver/Eval.java, resolver/Path.java).
 *
 * A place in a tree is the list of positions leading to it from the root, so its parent is the list without the last.
 * What authorization, aliases, the fabricator and functions do is given by the world: each is a fixed answer about a
 * place and a segment.
 */
module Addressing {
  import opened CodeUnits
  import opened DataTree

  const ROOT_NAME: Text := Ascii("..root")
  const SLASHES: Text := [SLASH]
  const DOT_1: Text := [DOT]
  const DOT_2: Text := [DOT, DOT]
  const DOT_3: Text := [DOT, DOT, DOT]

  type Place = seq<nat>

  predicate Exists(root: Node, p: Place)
    decreases |p|
  {
    p == [] || (p[0] < |root.subs| && Exists(root.subs[p[0]], p[1..]))
  }

  function At(root: Node, p: Place): Node
    requires Exists(root, p)
    decreases |p|
  {
    if p == [] then root else At(root.subs[p[0]], p[1..])
  }

  function Parent(p: Place): Place
    requires p != []
  {
    p[..|p| - 1]
  }

  /** Where a segment leads that stands for something else: a place, or an item made for the occasion. */
  datatype Redirect = NotReserved | To(place: Place) | Fresh | Refused

  datatype World = World(
    root: Node,
    dataPrefix: Text,
    alias: (Place, Text) -> Redirect,
    fabricated: (Place, Text) -> bool,
    visible: Place -> bool,
    readable: Place -> bool)

  datatype Mode = ForGet | ForDelete | ForExists

  datatype Problem = NotVisible | NotReadable | BadAlias | BadFunctionSyntax | DataNotFound | MetadataNotFound

  /** The place reached, or the exception; `Outside` if an item not in the tree is reached on the way. */
  datatype Outcome = Reached(place: Place) | Thrown(problem: Problem) | Outside

  // ----- places -----

  lemma {:induction false} ChildExists(root: Node, p: Place, k: nat)
    ensures Exists(root, p + [k]) <==> Exists(root, p) && k < |At(root, p).subs|
    ensures Exists(root, p + [k]) ==> At(root, p + [k]) == At(root, p).subs[k]
    decreases |p|
  {
    if p == [] {
      assert (p + [k])[1..] == [];
    } else {
      assert (p + [k])[1..] == p[1..] + [k];
      if p[0] < |root.subs| {
        ChildExists(root.subs[p[0]], p[1..], k);
      }
    }
  }

  lemma {:induction false} ParentExists(root: Node, p: Place)
    requires p != [] && Exists(root, p)
    ensures Exists(root, Parent(p)) && p[|p| - 1] < |At(root, Parent(p)).subs|
    ensures At(root, p) == At(root, Parent(p)).subs[p[|p| - 1]]
  {
    assert p == Parent(p) + [p[|p| - 1]];
    ChildExists(root, Parent(p), p[|p| - 1]);
  }

  lemma {:induction false} AncestorExists(root: Node, p: Place, j: nat)
    requires j <= |p| && Exists(root, p)
    ensures Exists(root, p[..j])
    decreases |p|
  {
    if j < |p| {
      ParentExists(root, p);
      AncestorExists(root, Parent(p), j);
      assert Parent(p)[..j] == p[..j];
    } else {
      assert p[..j] == p;
    }
  }

  // ----- segments -----

  /** The pieces between slashes. */
  function Pieces(t: Text): (r: seq<Text>)
    ensures r != []
  {
    if t == [] then [[]]
    else
      var rest := Pieces(t[1..]);
      if t[0] == SLASH then [[]] + rest else [[t[0]] + rest[0]] + rest[1..]
  }

  function DropEmpty(s: seq<Text>): (r: seq<Text>)
    ensures r <= s
  {
    if s == [] || s[|s| - 1] != [] then s else DropEmpty(s[..|s| - 1])
  }

  /** `String.split("/")`: trailing empty pieces are dropped, unless there is no slash at all. */
  function Split(t: Text): seq<Text> {
    if SLASH in t then DropEmpty(Pieces(t)) else [t]
  }

  function Join(names: seq<Text>): Text
    requires names != []
  {
    if |names| == 1 then names[0] else Join(names[..|names| - 1]) + SLASHES + names[|names| - 1]
  }

  lemma {:induction false} PiecesOfPlain(t: Text)
    requires SLASH !in t
    ensures Pieces(t) == [t]
  {
    if t != [] {
      PiecesOfPlain(t[1..]);
      assert [t[0]] + t[1..] == t;
    }
  }

  /** The pieces with one character more in front. */
  function Grown(c: CodeUnit, pieces: seq<Text>): seq<Text>
    requires pieces != []
  {
    if c == SLASH then [[]] + pieces else [[c] + pieces[0]] + pieces[1..]
  }

  lemma {:induction false} PiecesOfMore(c: CodeUnit, t: Text)
    ensures Pieces([c] + t) == Grown(c, Pieces(t))
  {
    assert ([c] + t)[1..] == t;
  }

  lemma GrownInFront(c: CodeUnit, a: seq<Text>, b: seq<Text>)
    requires a != []
    ensures Grown(c, a + b) == Grown(c, a) + b
  {
    assert (a + b)[1..] == a[1..] + b;
  }

  lemma FirstApart(a: Text, b: Text)
    requires a != []
    ensures a == [a[0]] + a[1..] && a + SLASHES + b == [a[0]] + (a[1..] + SLASHES + b)
  {
  }

  lemma {:induction false} PiecesOfJoined(a: Text, b: Text)
    ensures Pieces(a + SLASHES + b) == Pieces(a) + Pieces(b)
    decreases |a|
  {
    if a == [] {
      assert a + SLASHES + b == [SLASH] + b;
      PiecesOfMore(SLASH, b);
    } else {
      hide Pieces, Grown;
      PiecesOfJoined(a[1..], b);
      FirstApart(a, b);
      PiecesOfMore(a[0], a[1..]);
      PiecesOfMore(a[0], a[1..] + SLASHES + b);
      GrownInFront(a[0], Pieces(a[1..]), Pieces(b));
    }
  }

  lemma {:induction false} PiecesOfNames(names: seq<Text>)
    requires names != [] && forall n :: n in names ==> SLASH !in n
    ensures Pieces(Join(names)) == names
    decreases |names|
  {
    var last := names[|names| - 1];
    PiecesOfPlain(last);
    if |names| > 1 {
      var front := names[..|names| - 1];
      PiecesOfNames(front);
      PiecesOfJoined(Join(front), last);
    }
  }

  // ----- evaluation -----

  /** One segment, from one place. */
  function Step(w: World, mode: Mode, target: Place, segment: Text): (r: Outcome)
    requires Exists(w.root, target)
    ensures r.Reached? ==> Exists(w.root, r.place)
  {
    if segment == [] || segment == DOT_1 then Reached(target)
    else if segment == DOT_2 then
      if target == [] then Reached(target)
      else
        ParentExists(w.root, target);
        Reached(Parent(target))
    else if segment == DOT_3 then Reached([])
    else
      match w.alias(target, segment)
      case To(p) => if !Exists(w.root, p) then Outside else if w.visible(p) then Reached(p) else Thrown(NotVisible)
      case Fresh => Outside
      case Refused => Thrown(BadAlias)
      case NotReserved =>
        if mode == ForGet && w.fabricated(target, segment) then Outside
        else
          var i := IndexOf(At(w.root, target).subs, segment);
          ChildExists(w.root, target, i);
          if i < |At(w.root, target).subs| then if w.visible(target + [i]) then Reached(target + [i]) else Thrown(NotVisible)
          else if LPAREN in segment then if EndsWith(segment, RPAREN) then Outside else Thrown(BadFunctionSyntax)
          else Thrown(if IsMetadata(segment) then MetadataNotFound else DataNotFound)
  }

  function Walk(w: World, mode: Mode, target: Place, segments: seq<Text>): (r: Outcome)
    requires Exists(w.root, target)
    ensures r.Reached? ==> Exists(w.root, r.place)
    decreases |segments|
  {
    if segments == [] then Reached(target)
    else
      var r := Step(w, mode, target, segments[0]);
      if r.Reached? then Walk(w, mode, r.place, segments[1..]) else r
  }

  predicate IsPrefixed(w: World, path: Text) {
    path == w.dataPrefix || StartsWith(path, w.dataPrefix + SLASHES)
  }

  function Unprefixed(w: World, path: Text): Text {
    if IsPrefixed(w, path) then path[|w.dataPrefix|..] else path
  }

  function Start(base: Place, path: Text): Place {
    if StartsWith(path, SLASHES) then [] else base
  }

  /** Where a path leads, before asking whether the item there may be read. */
  function Resolved(w: World, mode: Mode, base: Place, path: Text): (r: Outcome)
    requires Exists(w.root, base)
    ensures r.Reached? ==> Exists(w.root, r.place)
  {
    Walk(w, mode, Start(base, path), Split(Unprefixed(w, path)))
  }

  /** `Eval.eval`: when it reaches anything, a place of the same tree. */
  function Evaluated(w: World, mode: Mode, base: Place, path: Text): (r: Outcome)
    requires Exists(w.root, base)
    ensures r.Reached? ==> Exists(w.root, r.place)
  {
    var r := Resolved(w, mode, base, path);
    if r.Reached? && mode == ForGet && !w.readable(r.place) then Thrown(NotReadable) else r
  }

  method GetRootFor(w: World, data: Place) returns (found: Place)
    requires Exists(w.root, data)
    ensures found == []
  {
    found := data;
    while found != []
      invariant Exists(w.root, found)
      decreases |found|
    {
      ParentExists(w.root, found);
      found := Parent(found);
    }
  }

  /** The body of the loop over the segments. */
  method EvalSegment(w: World, mode: Mode, target: Place, segment: Text) returns (out: Outcome)
    requires Exists(w.root, target)
    ensures out == Step(w, mode, target, segment)
  {
    if |segment| == 0 || segment == DOT_1 {
      return Reached(target);
    }
    if segment == DOT_2 {
      return Reached(if target != [] then Parent(target) else target);
    }
    if segment == DOT_3 {
      var root := GetRootFor(w, target);
      return Reached(root);
    }
    var found := w.alias(target, segment);
    if found.Refused? {
      return Thrown(BadAlias);
    }
    if found.Fresh? || (found.To? && !Exists(w.root, found.place)) {
      return Outside;
    }
    if found.To? {
      return if w.visible(found.place) then Reached(found.place) else Thrown(NotVisible);
    }
    if mode == ForGet && w.fabricated(target, segment) {
      return Outside;
    }
    var k := IndexOf(At(w.root, target).subs, segment);
    if k < |At(w.root, target).subs| {
      return if w.visible(target + [k]) then Reached(target + [k]) else Thrown(NotVisible);
    }
    if LPAREN in segment {
      if !EndsWith(segment, RPAREN) {
        return Thrown(BadFunctionSyntax);
      }
      return Outside;
    }
    out := Thrown(if IsMetadata(segment) then MetadataNotFound else DataNotFound);
  }

  method Eval(w: World, mode: Mode, base: Place, path: Text) returns (out: Outcome)
    requires Exists(w.root, base)
    ensures out == Evaluated(w, mode, base, path)
  {
    hide Walk, Step, Split;
    var target: Place := base;
    if StartsWith(path, SLASHES) {
      target := GetRootFor(w, base);
    }
    var segments: seq<Text>;
    if path == w.dataPrefix || StartsWith(path, w.dataPrefix + SLASHES) {
      segments := Split(path[|w.dataPrefix|..]);
    } else {
      segments := Split(path);
    }
    ghost var from := target;
    assert segments[0..] == segments;
    for i := 0 to |segments|
      invariant Exists(w.root, target)
      invariant Walk(w, mode, from, segments) == Walk(w, mode, target, segments[i..])
    {
      WalkStep(w, mode, target, segments[i..]);
      assert segments[i..][1..] == segments[i + 1..];
      out := EvalSegment(w, mode, target, segments[i]);
      if !out.Reached? {
        return;
      }
      target := out.place;
    }
    WalkStep(w, mode, target, []);
    assert segments[|segments|..] == [];
    if mode == ForGet && !w.readable(target) {
      return Thrown(NotReadable);
    }
    out := Reached(target);
  }

  lemma {:induction false} WalkStep(w: World, mode: Mode, target: Place, segments: seq<Text>)
    requires Exists(w.root, target)
    ensures segments == [] ==> Walk(w, mode, target, segments) == Reached(target)
    ensures segments != [] ==>
              var r := Step(w, mode, target, segments[0]);
              Walk(w, mode, target, segments) == if r.Reached? then Walk(w, mode, r.place, segments[1..]) else r
  {
  }

  // ----- what may be reached -----

  /** The same world, if everything could be read, or seen. */
  function AllReadable(w: World): World {
    w.(readable := (p: Place) => true)
  }

  function AllVisible(w: World): World {
    w.(visible := (p: Place) => true)
  }

  lemma {:induction false} WalkDoesNotRead(w: World, mode: Mode, target: Place, segments: seq<Text>)
    requires Exists(w.root, target)
    ensures Walk(AllReadable(w), mode, target, segments) == Walk(w, mode, target, segments)
    decreases |segments|
  {
    hide Step;
    if segments != [] {
      StepDoesNotRead(w, mode, target, segments[0]);
      if Step(w, mode, target, segments[0]).Reached? {
        WalkDoesNotRead(w, mode, Step(w, mode, target, segments[0]).place, segments[1..]);
      }
    }
  }

  lemma {:induction false} StepDoesNotRead(w: World, mode: Mode, target: Place, segment: Text)
    requires Exists(w.root, target)
    ensures Step(AllReadable(w), mode, target, segment) == Step(w, mode, target, segment)
  {
  }

  /**
   * Reading, and nothing else, asks whether the item at the end may be read: what a GET reaches when everything may be
   * read is refused if that may not be, and every other mode gives the same whatever may be read.
   */
  lemma {:induction false} ReadIsAsked(w: World, mode: Mode, base: Place, path: Text)
    requires Exists(w.root, base)
    ensures var free := Evaluated(AllReadable(w), mode, base, path);
            Evaluated(w, mode, base, path)
            == if mode == ForGet && free.Reached? && !w.readable(free.place) then Thrown(NotReadable) else free
  {
    hide Walk, Split;
    WalkDoesNotRead(w, mode, Start(base, path), Split(Unprefixed(w, path)));
  }

  /** A segment that is neither empty nor dots is the name of something. */
  predicate IsName(segment: Text) {
    segment != [] && segment != DOT_1 && segment != DOT_2 && segment != DOT_3
  }

  lemma {:induction false} StepAsks(w: World, mode: Mode, target: Place, segment: Text)
    requires Exists(w.root, target)
    ensures var free := Step(AllVisible(w), mode, target, segment);
            Step(w, mode, target, segment)
            == if IsName(segment) && free.Reached? && !w.visible(free.place) then Thrown(NotVisible) else free
  {
  }

  /** The places entered by name on the way that may not be seen, were everything visible. */
  ghost predicate HiddenAt(w: World, mode: Mode, target: Place, segments: seq<Text>, i: nat)
    requires Exists(w.root, target) && i < |segments|
  {
    var r := Walk(AllVisible(w), mode, target, segments[..i + 1]);
    IsName(segments[i]) && r.Reached? && !w.visible(r.place)
  }

  /** Every place entered by name on the way has to be visible, and nothing else does. */
  lemma {:induction false} WalkAsks(w: World, mode: Mode, target: Place, segments: seq<Text>)
    requires Exists(w.root, target)
    ensures Walk(w, mode, target, segments)
         == if exists i :: 0 <= i < |segments| && HiddenAt(w, mode, target, segments, i) then Thrown(NotVisible)
            else Walk(AllVisible(w), mode, target, segments)
    decreases |segments|
  {
    hide Step;
    if segments != [] {
      var first, rest := segments[0], segments[1..];
      StepAsks(w, mode, target, first);
      var free := Step(AllVisible(w), mode, target, first);
      OneSegmentWalk(AllVisible(w), mode, target, segments);
      assert HiddenAt(w, mode, target, segments, 0) <==> IsName(first) && free.Reached? && !w.visible(free.place);
      if free.Reached? {
        WalkAsks(w, mode, free.place, rest);
        forall i | 0 <= i < |rest|
          ensures HiddenAt(w, mode, free.place, rest, i) <==> HiddenAt(w, mode, target, segments, i + 1)
        {
          assert segments[..i + 2][1..] == rest[..i + 1];
        }
        if i :| 1 <= i < |segments| && HiddenAt(w, mode, target, segments, i) {
          assert HiddenAt(w, mode, free.place, rest, i - 1);
        }
      } else {
        forall i | 0 <= i < |segments|
          ensures !HiddenAt(w, mode, target, segments, i)
        {
          assert segments[..i + 1][0] == first;
        }
      }
    }
  }

  /**
   * The same of a whole path: with everything visible it leads where it leads, but as soon as a name on the way leads to
   * a place that is not visible, it is refused.
   */
  lemma {:induction false} VisibilityIsAsked(w: World, mode: Mode, base: Place, path: Text)
    requires Exists(w.root, base)
    ensures var start, segments := Start(base, path), Split(Unprefixed(w, path));
            Resolved(w, mode, base, path)
            == if exists i :: 0 <= i < |segments| && HiddenAt(w, mode, start, segments, i) then Thrown(NotVisible)
               else Resolved(AllVisible(w), mode, base, path)
  {
    hide Walk, Split, HiddenAt;
    WalkAsks(w, mode, Start(base, path), Split(Unprefixed(w, path)));
  }

  lemma {:induction false} OneSegmentWalk(w: World, mode: Mode, target: Place, segments: seq<Text>)
    requires Exists(w.root, target) && segments != []
    ensures Walk(w, mode, target, segments[..1]) == Step(w, mode, target, segments[0])
  {
    var one := segments[..1];
    assert one[1..] == [];
  }

  // ----- evaluation composes -----

  lemma {:induction false} WalkInTwoParts(w: World, mode: Mode, target: Place, a: seq<Text>, b: seq<Text>)
    requires Exists(w.root, target)
    ensures var r := Walk(w, mode, target, a);
            Walk(w, mode, target, a + b) == if r.Reached? then Walk(w, mode, r.place, b) else r
    decreases |a|
  {
    hide Step;
    if a == [] {
      assert a + b == b;
    } else {
      assert (a + b)[1..] == a[1..] + b;
      var r := Step(w, mode, target, a[0]);
      if r.Reached? {
        WalkInTwoParts(w, mode, r.place, a[1..], b);
      }
    }
  }

  lemma {:induction false} EmptyPieceStays(w: World, mode: Mode, target: Place)
    requires Exists(w.root, target)
    ensures Walk(w, mode, target, [[]]) == Reached(target)
  {
    var empty: seq<Text> := [[]];
    assert empty[1..] == [];
  }

  /** Dropping trailing empty pieces leads to the same place. */
  lemma {:induction false} WalkDropped(w: World, mode: Mode, target: Place, segments: seq<Text>)
    requires Exists(w.root, target)
    ensures Walk(w, mode, target, DropEmpty(segments)) == Walk(w, mode, target, segments)
    decreases |segments|
  {
    hide Walk, Step;
    if segments != [] && segments[|segments| - 1] == [] {
      var front := segments[..|segments| - 1];
      WalkDropped(w, mode, target, front);
      WalkInTwoParts(w, mode, target, front, [[]]);
      var r := Walk(w, mode, target, front);
      if r.Reached? {
        EmptyPieceStays(w, mode, r.place);
      }
      assert segments == front + [[]];
    }
  }

  lemma {:induction false} WalkSplit(w: World, mode: Mode, target: Place, t: Text)
    requires Exists(w.root, target)
    ensures Walk(w, mode, target, Split(t)) == Walk(w, mode, target, Pieces(t))
  {
    hide Walk;
    if SLASH in t {
      WalkDropped(w, mode, target, Pieces(t));
    } else {
      PiecesOfPlain(t);
    }
  }

  /** A prefix of at most one segment: empty, or a slash followed by no other slash. */
  predicate OneSegment(prefix: Text) {
    prefix == [] || (prefix[0] == SLASH && SLASH !in prefix[1..])
  }

  lemma SlashTellsApart(d: Text, p: Text, q: Text)
    requires OneSegment(d) && 0 < |p| < |d|
    ensures var t := p + SLASHES + q; t != d && !StartsWith(t, d + SLASHES)
  {
    var t, m := p + SLASHES + q, |d| + 1;
    assert t[|p|] == SLASH && d[|p|] == d[1..][|p| - 1];
    if m <= |t| {
      assert t[..m][|p|] == SLASH && (d + SLASHES)[|p|] == d[|p|];
    }
  }

  lemma PrefixIsKept(w: World, p: Text, q: Text)
    requires OneSegment(w.dataPrefix) && p != [] && q != []
    ensures IsPrefixed(w, p + SLASHES + q) <==> IsPrefixed(w, p)
    ensures Unprefixed(w, p + SLASHES + q) == Unprefixed(w, p) + SLASHES + q
  {
    var d, t := w.dataPrefix, p + SLASHES + q;
    var m := |d| + 1;
    assert t[|p|] == SLASH;
    if |p| < |d| {
      SlashTellsApart(d, p, q);
    } else if |p| == |d| {
      assert t[..m] == p + SLASHES;
      assert p + SLASHES == d + SLASHES ==> (p + SLASHES)[..|d|] == (d + SLASHES)[..|d|];
      assert t[|d|..] == [] + SLASHES + q && p[|d|..] == [];
    } else {
      assert t[..m] == p[..m];
      assert t[|d|..] == p[|d|..] + SLASHES + q;
    }
  }

  /** A prefix as the command line gives it: empty, or starting with a slash. */
  predicate LegalPrefix(prefix: Text) {
    prefix == [] || prefix[0] == SLASH
  }

  lemma RelativeIsNotPrefixed(w: World, q: Text)
    requires LegalPrefix(w.dataPrefix) && q != [] && q[0] != SLASH
    ensures !IsPrefixed(w, q) && !StartsWith(q, SLASHES)
  {
  }

  /**
   * Evaluating `p/q` is evaluating `p` and then `q` from there, whatever empty, dotted or aliased segments they hold;
   * only the item in the middle need not be readable.
   */
  lemma {:induction false} EvaluationComposes(w: World, mode: Mode, base: Place, p: Text, q: Text)
    requires Exists(w.root, base) && OneSegment(w.dataPrefix)
    requires p != [] && q != [] && q[0] != SLASH
    ensures var r := Resolved(w, mode, base, p);
            Evaluated(w, mode, base, p + SLASHES + q) == if r.Reached? then Evaluated(w, mode, r.place, q) else r
    ensures var r := Evaluated(w, mode, base, p);
            r.Reached? ==> Evaluated(w, mode, base, p + SLASHES + q) == Evaluated(w, mode, r.place, q)
  {
    hide Walk, Pieces, Split, IsPrefixed;
    var t, from := p + SLASHES + q, Start(base, p);
    assert t[..1] == p[..1];
    PrefixIsKept(w, p, q);
    RelativeIsNotPrefixed(w, q);
    var front := Unprefixed(w, p);
    PiecesOfJoined(front, q);
    WalkSplit(w, mode, from, front + SLASHES + q);
    WalkSplit(w, mode, from, front);
    WalkInTwoParts(w, mode, from, Pieces(front), Pieces(q));
    var r := Walk(w, mode, from, Pieces(front));
    if r.Reached? {
      WalkSplit(w, mode, r.place, q);
    }
  }

  // ----- writing paths -----

  function PathName(w: World, name: Text): Text {
    if name == ROOT_NAME then if w.dataPrefix == [] then [SLASH, DOT] else w.dataPrefix else name
  }

  /** The loop of `toRelativePath`: up from `data`, with the text built so far. */
  function Upward(w: World, base: Option<Place>, data: Place, built: Text): Text
    requires Exists(w.root, data)
    decreases |data|
  {
    if data == [] || base == Some(Parent(data)) then built
    else
      ParentExists(w.root, data);
      var parent := At(w.root, Parent(data)).name;
      if parent == ROOT_NAME then w.dataPrefix + SLASHES + built
      else Upward(w, base, Parent(data), PathName(w, parent) + SLASHES + built)
  }

  function RelativePath(w: World, base: Option<Place>, data: Place): Text
    requires Exists(w.root, data)
  {
    if base == Some(data) then DOT_1 else Upward(w, base, data, PathName(w, At(w.root, data).name))
  }

  function ToPath(w: World, data: Place): Text
    requires Exists(w.root, data)
  {
    if At(w.root, data).name == ROOT_NAME then PathName(w, ROOT_NAME) else RelativePath(w, None, data)
  }

  method ToRelativePath(w: World, base: Option<Place>, data: Place) returns (path: Text)
    requires Exists(w.root, data)
    ensures path == RelativePath(w, base, data)
  {
    if base == Some(data) {
      return DOT_1;
    }
    var builder := PathName(w, At(w.root, data).name);
    var here := data;
    while here != []
      invariant Exists(w.root, here)
      invariant Upward(w, base, here, builder) == RelativePath(w, base, data)
      decreases |here|
    {
      var parent := Parent(here);
      ParentExists(w.root, here);
      if base == Some(parent) {
        break;
      }
      if At(w.root, parent).name == ROOT_NAME {
        builder := w.dataPrefix + SLASHES + builder;
        return builder;
      }
      builder := PathName(w, At(w.root, parent).name) + SLASHES + builder;
      here := parent;
    }
    path := builder;
  }

  // ----- paths lead back -----

  predicate LegalName(name: Text) {
    name != [] && SLASH !in name && name !in {DOT_1, DOT_2, DOT_3, ROOT_NAME}
  }

  /** The item at `p` is found under its own name, and nothing else is. */
  predicate Plain(w: World, mode: Mode, p: Place)
    requires p != [] && Exists(w.root, p)
  {
    ParentExists(w.root, p);
    var name := At(w.root, p).name;
    && LegalName(name) && w.alias(Parent(p), name) == NotReserved && !(mode == ForGet && w.fabricated(Parent(p), name))
    && IndexOf(At(w.root, Parent(p)).subs, name) == p[|p| - 1]
    && w.visible(p)
  }

  /** The item and all its ancestors are plain, up to a root that carries the root's name. */
  predicate Addressable(w: World, mode: Mode, p: Place)
    requires Exists(w.root, p)
    decreases |p|
  {
    if p == [] then w.root.name == ROOT_NAME
    else
      ParentExists(w.root, p);
      Plain(w, mode, p) && Addressable(w, mode, Parent(p))
  }

  /** The names below level `j` on the way to `p`. */
  function NamesBelow(root: Node, p: Place, j: nat): (r: seq<Text>)
    requires Exists(root, p) && j <= |p|
    ensures |r| == |p| - j
    decreases |p|
  {
    if |p| == j then []
    else
      ParentExists(root, p);
      NamesBelow(root, Parent(p), j) + [At(root, p).name]
  }

  lemma {:induction false} NamesAreLegal(w: World, mode: Mode, p: Place, j: nat)
    requires Exists(w.root, p) && j <= |p| && Addressable(w, mode, p)
    ensures forall n :: n in NamesBelow(w.root, p, j) ==> LegalName(n)
    decreases |p|
  {
    hide LegalName;
    if |p| > j {
      ParentExists(w.root, p);
      NamesAreLegal(w, mode, Parent(p), j);
    }
  }

  lemma {:induction false} PlainStep(w: World, mode: Mode, p: Place)
    requires p != [] && Exists(w.root, p) && Exists(w.root, Parent(p)) && Plain(w, mode, p)
    ensures Step(w, mode, Parent(p), At(w.root, p).name) == Reached(p)
  {
    ParentExists(w.root, p);
    assert Parent(p) + [p[|p| - 1]] == p;
  }

  /** Following the names from an ancestor leads to the item. */
  lemma {:induction false} WalkDown(w: World, mode: Mode, p: Place, j: nat)
    requires Exists(w.root, p) && j <= |p| && Addressable(w, mode, p) && Exists(w.root, p[..j])
    ensures Walk(w, mode, p[..j], NamesBelow(w.root, p, j)) == Reached(p)
    decreases |p|
  {
    hide Step, Plain;
    if |p| == j {
      assert p[..j] == p;
    } else {
      ParentExists(w.root, p);
      assert Parent(p)[..j] == p[..j];
      WalkDown(w, mode, Parent(p), j);
      var name := At(w.root, p).name;
      var step: seq<Text> := [name];
      WalkInTwoParts(w, mode, p[..j], NamesBelow(w.root, Parent(p), j), step);
      PlainStep(w, mode, p);
      WalkStep(w, mode, Parent(p), step);
      assert step[1..] == [];
    }
  }

  /** The text the loop builds from `data` down to `p`, in front of what an ancestor adds. */
  lemma {:induction false} UpwardIsJoin(w: World, mode: Mode, p: Place, base: Option<Place>, data: Place, built: Text)
    requires Exists(w.root, p) && Addressable(w, mode, p) && data <= p && data != []
    requires built == Join(NamesBelow(w.root, p, |data| - 1)) && Exists(w.root, data)
    requires base.Some? && base.value <= p ==> base.value < data
    ensures Upward(w, base, data, built)
         == if base.Some? && base.value <= p then Join(NamesBelow(w.root, p, |base.value|))
            else w.dataPrefix + SLASHES + Join(NamesBelow(w.root, p, 0))
    decreases |data|
  {
    hide Plain, Exists, At, Join, Addressable;
    var up := Parent(data);
    ParentExists(w.root, data);
    AncestorExists(w.root, p, |up|);
    AncestorIsAddressable(w, mode, p, |up|);
    assert p[..|up|] == up;
    if up == [] {
      RootIsNamed(w, mode);
    }
    if up != [] && base != Some(up) {
      NameIsLegal(w, mode, up);
      NamesBelowMore(w.root, p, |up| - 1);
      JoinFront(At(w.root, up).name, NamesBelow(w.root, p, |up|));
      if base.Some? && base.value <= p {
        ProperPrefix(base.value, up, p);
      }
      UpwardIsJoin(w, mode, p, base, up, At(w.root, up).name + SLASHES + built);
    }
  }

  lemma {:induction false} RootIsNamed(w: World, mode: Mode)
    requires Addressable(w, mode, [])
    ensures At(w.root, []).name == ROOT_NAME
  {
  }

  lemma ProperPrefix(a: Place, b: Place, p: Place)
    requires a <= p && b <= p && |a| <= |b| && a != b
    ensures a < b
  {
    assert a == p[..|a|] && b == p[..|b|];
    assert |a| == |b| ==> a == b;
  }

  lemma {:induction false} NameIsLegal(w: World, mode: Mode, p: Place)
    requires Exists(w.root, p) && Addressable(w, mode, p) && p != []
    ensures LegalName(At(w.root, p).name) && At(w.root, p).name != ROOT_NAME
  {
  }

  lemma {:induction false} AncestorIsAddressable(w: World, mode: Mode, p: Place, j: nat)
    requires Exists(w.root, p) && Addressable(w, mode, p) && j <= |p| && Exists(w.root, p[..j])
    ensures Addressable(w, mode, p[..j])
    decreases |p|
  {
    hide Plain;
    if j == |p| {
      assert p[..j] == p;
    } else {
      ParentExists(w.root, p);
      assert Parent(p)[..j] == p[..j];
      AncestorIsAddressable(w, mode, Parent(p), j);
    }
  }

  lemma {:induction false} NamesBelowMore(root: Node, p: Place, j: nat)
    requires Exists(root, p) && j < |p| && Exists(root, p[..j + 1])
    ensures NamesBelow(root, p, j) == [At(root, p[..j + 1]).name] + NamesBelow(root, p, j + 1)
    decreases |p|
  {
    ParentExists(root, p);
    if |p| == j + 1 {
      assert p[..j + 1] == p;
    } else {
      assert Parent(p)[..j + 1] == p[..j + 1];
      NamesBelowMore(root, Parent(p), j);
    }
  }

  lemma {:induction false} JoinFront(name: Text, names: seq<Text>)
    requires names != []
    ensures Join([name] + names) == name + SLASHES + Join(names)
    decreases |names|
  {
    var all := [name] + names;
    if |names| == 1 {
      assert all[..1] == [name];
    } else {
      assert all[..|all| - 1] == [name] + names[..|names| - 1];
      JoinFront(name, names[..|names| - 1]);
      Reassociate(name, SLASHES, Join(names[..|names| - 1]), SLASHES + names[|names| - 1]);
      Reassociate3(Join(names[..|names| - 1]), SLASHES, names[|names| - 1]);
      Reassociate3(name + SLASHES + Join(names[..|names| - 1]), SLASHES, names[|names| - 1]);
    }
  }

  lemma Reassociate(a: Text, b: Text, c: Text, d: Text)
    ensures a + b + c + d == a + b + (c + d)
  {
  }

  lemma Reassociate3(a: Text, b: Text, c: Text)
    ensures a + b + c == a + (b + c)
  {
  }

  lemma {:induction false} JoinStarts(names: seq<Text>)
    requires names != [] && names[0] != []
    ensures Join(names) != [] && Join(names)[0] == names[0][0]
    decreases |names|
  {
    if |names| > 1 {
      JoinStarts(names[..|names| - 1]);
    }
  }

  lemma StartIsRoot(base: Place, path: Text)
    requires path != [] && path[0] == SLASH
    ensures Start(base, path) == []
  {
    assert path[..1] == SLASHES;
  }

  lemma {:induction false} RootLeadsBack(w: World, mode: Mode, from: Place)
    requires Exists(w.root, from) && LegalPrefix(w.dataPrefix)
    ensures Resolved(w, mode, from, PathName(w, ROOT_NAME)) == Reached([])
  {
    hide Walk, Split, Pieces;
    var path := PathName(w, ROOT_NAME);
    StartIsRoot(from, path);
    if w.dataPrefix == [] {
      assert path[..1] == SLASHES && w.dataPrefix + SLASHES == SLASHES && path[0..] == path;
      var pieces: seq<Text> := [[], DOT_1];
      assert path == [] + SLASHES + DOT_1;
      PiecesOfPlain([]);
      PiecesOfPlain(DOT_1);
      PiecesOfJoined([], DOT_1);
      assert Pieces(path) == pieces;
      WalkSplit(w, mode, [], path);
      assert pieces[1..] == [DOT_1] && pieces[1..][1..] == [];
      WalkStep(w, mode, [], pieces);
      WalkStep(w, mode, [], pieces[1..]);
      WalkStep(w, mode, [], []);
    } else {
      assert path[|path|..] == [];
      WalkSplit(w, mode, [], []);
      PiecesOfPlain([]);
      EmptyPieceStays(w, mode, []);
    }
  }

  /** A path from the root: the prefix and the names. */
  lemma {:induction false} AbsoluteLeadsBack(w: World, mode: Mode, p: Place, from: Place)
    requires Exists(w.root, p) && Exists(w.root, from) && p != []
    requires LegalPrefix(w.dataPrefix) && Addressable(w, mode, p)
    ensures Resolved(w, mode, from, w.dataPrefix + SLASHES + Join(NamesBelow(w.root, p, 0))) == Reached(p)
  {
    hide Walk, Pieces, Split, Plain, At, NamesBelow, Join, Addressable;
    var names := NamesBelow(w.root, p, 0);
    var path := w.dataPrefix + SLASHES + Join(names);
    var rest := [] + SLASHES + Join(names);
    StartIsRoot(from, path);
    assert path[..|w.dataPrefix| + 1] == w.dataPrefix + SLASHES && path[|w.dataPrefix|..] == rest;
    NamesAreLegal(w, mode, p, 0);
    PiecesOfNames(names);
    PiecesOfPlain([]);
    PiecesOfJoined([], Join(names));
    WalkSplit(w, mode, [], rest);
    var empty: seq<Text> := [[]];
    WalkInTwoParts(w, mode, [], empty, names);
    EmptyPieceStays(w, mode, []);
    assert p[..0] == [];
    WalkDown(w, mode, p, 0);
  }

  /** A relative path from an ancestor: the names in between. */
  lemma {:induction false} RelativeLeadsBack(w: World, mode: Mode, p: Place, base: Place)
    requires Exists(w.root, p) && Exists(w.root, base) && base < p
    requires LegalPrefix(w.dataPrefix) && Addressable(w, mode, p)
    ensures Resolved(w, mode, base, Join(NamesBelow(w.root, p, |base|))) == Reached(p)
  {
    hide Walk, Pieces, Split, Plain, IsPrefixed, Exists, At, NamesBelow, Join, Addressable;
    var names := NamesBelow(w.root, p, |base|);
    NamesAreLegal(w, mode, p, |base|);
    assert names[0] in names && names[0][0] in names[0];
    JoinStarts(names);
    RelativeIsNotPrefixed(w, Join(names));
    PiecesOfNames(names);
    WalkSplit(w, mode, base, Join(names));
    assert p[..|base|] == base;
    WalkDown(w, mode, p, |base|);
  }

  lemma {:induction false} PathOf(w: World, mode: Mode, p: Place, base: Option<Place>)
    requires Exists(w.root, p) && Addressable(w, mode, p) && p != [] && base != Some(p)
    ensures At(w.root, p).name != ROOT_NAME
    ensures RelativePath(w, base, p)
         == if base.Some? && base.value < p then Join(NamesBelow(w.root, p, |base.value|))
            else w.dataPrefix + SLASHES + Join(NamesBelow(w.root, p, 0))
  {
    hide Plain, Upward;
    NameIsLegal(w, mode, p);
    ParentExists(w.root, p);
    assert NamesBelow(w.root, p, |p| - 1) == [At(w.root, p).name];
    if base.Some? && base.value <= p {
      ProperPrefix(base.value, p, p);
    }
    UpwardIsJoin(w, mode, p, base, p, At(w.root, p).name);
  }

  /**
   * What a path looks like: the names from the base down if that is above the item, else the prefix and all names; a dot
   * for the base itself; and for the root the prefix, or "/." if there is none.
   */
  lemma {:induction false} PathIs(w: World, mode: Mode, p: Place, base: Place)
    requires Exists(w.root, p) && Addressable(w, mode, p)
    ensures ToPath(w, p)
         == if p != [] then w.dataPrefix + SLASHES + Join(NamesBelow(w.root, p, 0))
            else if w.dataPrefix == [] then [SLASH, DOT] else w.dataPrefix
    ensures RelativePath(w, Some(base), p)
         == if base == p then [DOT] else if base < p then Join(NamesBelow(w.root, p, |base|)) else ToPath(w, p)
  {
    hide Upward;
    if p == [] {
      RootIsNamed(w, mode);
      UpwardStops(w, Some(base), PathName(w, ROOT_NAME));
    } else {
      PathOf(w, mode, p, None);
      if base != p {
        PathOf(w, mode, p, Some(base));
      }
    }
  }

  lemma {:induction false} UpwardStops(w: World, base: Option<Place>, built: Text)
    ensures Upward(w, base, [], built) == built
  {
  }

  /** The path of an item leads back to it from anywhere. */
  lemma {:induction false} PathLeadsBack(w: World, mode: Mode, p: Place, from: Place)
    requires Exists(w.root, p) && Exists(w.root, from)
    requires LegalPrefix(w.dataPrefix) && Addressable(w, mode, p) && (mode == ForGet ==> w.readable(p))
    ensures Evaluated(w, mode, from, ToPath(w, p)) == Reached(p)
  {
    hide Resolved, RelativePath;
    if p == [] {
      RootLeadsBack(w, mode, from);
    } else {
      PathOf(w, mode, p, None);
      AbsoluteLeadsBack(w, mode, p, from);
    }
  }

  /** The path of an item relative to any other leads back to it from there: below it, above it, beside it, or itself. */
  lemma {:induction false} RelativePathLeadsBack(w: World, mode: Mode, p: Place, base: Place)
    requires Exists(w.root, p) && Exists(w.root, base)
    requires LegalPrefix(w.dataPrefix) && Addressable(w, mode, p) && (mode == ForGet ==> w.readable(p))
    ensures Evaluated(w, mode, base, RelativePath(w, Some(base), p)) == Reached(p)
  {
    hide Resolved;
    if base == p {
      SelfLeadsBack(w, mode, p);
    } else if p == [] {
      RootLeadsBack(w, mode, base);
    } else {
      PathOf(w, mode, p, Some(base));
      if base <= p {
        ProperPrefix(base, p, p);
        RelativeLeadsBack(w, mode, p, base);
      } else {
        AbsoluteLeadsBack(w, mode, p, base);
      }
    }
  }

  lemma {:induction false} SelfLeadsBack(w: World, mode: Mode, p: Place)
    requires Exists(w.root, p) && LegalPrefix(w.dataPrefix)
    ensures Resolved(w, mode, p, DOT_1) == Reached(p)
  {
    hide IsPrefixed;
    RelativeIsNotPrefixed(w, DOT_1);
    var dot: seq<Text> := [DOT_1];
    WalkStep(w, mode, p, dot);
    WalkStep(w, mode, p, []);
    assert dot[1..] == [];
  }

  /** Up and down again: ".." leads to the parent, from where the name leads back; "..." leads to the root. */
  lemma {:induction false} UpAndBack(w: World, mode: Mode, p: Place)
    requires Exists(w.root, p) && p != [] && Addressable(w, mode, p) && LegalPrefix(w.dataPrefix)
    ensures Resolved(w, mode, p, DOT_2) == Reached(Parent(p)) && Resolved(w, mode, p, DOT_3) == Reached([])
    ensures Resolved(w, mode, p, DOT_2 + SLASHES + At(w.root, p).name) == Reached(p)
  {
    hide IsPrefixed, Walk, Pieces, Split, Plain;
    var name := At(w.root, p).name;
    var path := DOT_2 + SLASHES + name;
    RelativeIsNotPrefixed(w, DOT_2);
    RelativeIsNotPrefixed(w, DOT_3);
    RelativeIsNotPrefixed(w, path);
    NameIsLegal(w, mode, p);
    PiecesOfPlain(DOT_2);
    PiecesOfPlain(name);
    PiecesOfJoined(DOT_2, name);
    WalkSplit(w, mode, p, path);
    OneSegmentPath(w, mode, p, DOT_2);
    OneSegmentPath(w, mode, p, DOT_3);
    ParentExists(w.root, p);
    var up: seq<Text> := [DOT_2];
    WalkInTwoParts(w, mode, p, up, [name]);
    WalkOne(w, mode, p, DOT_2);
    WalkOne(w, mode, Parent(p), name);
    PlainStep(w, mode, p);
  }

  lemma {:induction false} WalkOne(w: World, mode: Mode, target: Place, segment: Text)
    requires Exists(w.root, target)
    ensures Walk(w, mode, target, [segment]) == Step(w, mode, target, segment)
  {
    hide Step, Exists;
    var one: seq<Text> := [segment];
    WalkStep(w, mode, target, one);
    assert one[1..] == [];
  }

  predicate IsFirst(subs: seq<Node>, name: Text, i: nat) {
    i < |subs| && subs[i].name == name && forall k :: 0 <= k < i ==> subs[k].name != name
  }

  predicate HasName(w: World, p: Place, name: Text)
    requires Exists(w.root, p)
  {
    exists i :: 0 <= i < |At(w.root, p).subs| && At(w.root, p).subs[i].name == name
  }

  /**
   * What a single name leads to, when everything may be seen and read: an alias comes before everything else; then, for
   * a GET only, the fabricator; then what is stored under that name; then functions; and if all else fails it is not
   * found, as metadata or as data.
   */
  lemma {:induction false} NameLeads(w: World, mode: Mode, base: Place, name: Text)
    requires Exists(w.root, base) && LegalPrefix(w.dataPrefix) && SLASH !in name && IsName(name)
    requires forall p: Place :: w.visible(p) && w.readable(p)
    ensures var found, out := w.alias(base, name), Evaluated(w, mode, base, name);
            && (found.To? ==> out == if Exists(w.root, found.place) then Reached(found.place) else Outside)
            && (found.Refused? ==> out == Thrown(BadAlias))
            && (found.Fresh? ==> out == Outside)
            && (found.NotReserved? && mode == ForGet && w.fabricated(base, name) ==> out == Outside)
            && (found.NotReserved? && !(mode == ForGet && w.fabricated(base, name)) ==>
                  if HasName(w, base, name) then
                    exists i :: IsFirst(At(w.root, base).subs, name, i) && out == Reached(base + [i])
                  else if LPAREN in name then out == if name[|name| - 1] == RPAREN then Outside else Thrown(BadFunctionSyntax)
                  else if name[0] == DOLLAR then out == Thrown(MetadataNotFound)
                  else out == Thrown(DataNotFound))
  {
    hide IsPrefixed, Walk, Split;
    RelativeIsNotPrefixed(w, name);
    OneSegmentPath(w, mode, base, name);
    var i := IndexOf(At(w.root, base).subs, name);
    ChildExists(w.root, base, i);
    assert i < |At(w.root, base).subs| ==> IsFirst(At(w.root, base).subs, name, i);
  }

  lemma {:induction false} OneSegmentPath(w: World, mode: Mode, target: Place, segment: Text)
    requires Exists(w.root, target) && SLASH !in segment
    ensures Walk(w, mode, target, Split(segment)) == Step(w, mode, target, segment)
  {
    hide Step, Exists, Walk;
    WalkOne(w, mode, target, segment);
  }
}
