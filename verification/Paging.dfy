/**
 * Paging through the children of a target (data/Context.java, filterChildren, and client/Client.java,
 * makeSimpleNextPointer).
 *
 * Whether a candidate is visible and whether it makes the cut are fixed facts about it.  A page holds a window of the
 * candidates that make the cut, and its 'next' pointer is the request's parameters with a new window.
 */
module Paging {
  import opened CodeUnits
  import opened DataTree
  import opened Decimals

  const SKIP: Text := Ascii("skip")
  const MAX_RESULTS: Text := Ascii("max-results")

  type Parameters = map<Text, Text>

  /** The part of the query parameters that is about paging; both may be absent. */
  datatype Window = Window(skip: Option<int>, maxResults: Option<int>)
  {
    function Skip(): int {
      if skip.Some? then skip.value else 0
    }

    function Max(): int {
      if maxResults.Some? then maxResults.value else MAX_INT
    }

    predicate Valid() {
      -1 <= Skip() <= MAX_INT && 0 <= Max() <= MAX_INT
    }
  }

  /** `Integer.valueOf` and the range check that follows it; the outer option is `None` where they throw. */
  function NumberIn(pars: Parameters, name: Text, least_: int): Option<Option<int>> {
    if name !in pars then Some(None)
    else
      var n := ParseInt(pars[name]);
      if n.None? || n.value < least_ then None else Some(n)
  }

  /** What `evaluateParameters` makes of 'skip' and 'max-results'; -1 is let through as a skip. */
  function WindowOf(pars: Parameters): (w: Option<Window>)
    ensures w.Some? ==> w.value.Valid()
  {
    var skip, max := NumberIn(pars, SKIP, -1), NumberIn(pars, MAX_RESULTS, 0);
    if skip.None? || max.None? then None else Some(Window(skip.value, max.value))
  }

  /** A child offered for the page; `included` is the verdict of `canIncludeChild` on a visible one. */
  datatype Candidate = Candidate(data: Node, visible: bool, included: bool)
  {
    predicate Shown(isTarget: bool) {
      visible && (isTarget ==> included)
    }
  }

  datatype Page = Page(items: seq<Candidate>, next: Option<Parameters>, partial: bool)

  datatype Outcome<+T> = Done(value: T) | NoMaxResults

  // ----- what a page is -----

  /** The candidates a target shows, or the ones anything else shows. */
  function Kept(c: seq<Candidate>, isTarget: bool): (r: seq<Candidate>)
    ensures |r| <= |c|
  {
    if c == [] then []
    else Kept(c[..|c| - 1], isTarget) + if c[|c| - 1].Shown(isTarget) then [c[|c| - 1]] else []
  }

  predicate Drops(c: seq<Candidate>) {
    exists i :: 0 <= i < |c| && c[i].visible && !c[i].included
  }

  function Min(a: int, b: int): int {
    if a < b then a else b
  }

  /** How many included candidates are passed over. */
  function First(w: Window): nat {
    if w.Skip() < 0 then 0 else w.Skip()
  }

  /** The page is full, or asked to be empty with something left to show. */
  predicate Full(n: nat, w: Window) {
    if w.Max() == 0 then First(w) < n else First(w) + w.Max() <= n
  }

  function NextPointer(pars: Parameters, w: Window): Parameters {
    pars[SKIP := ToString(Wrap(w.Skip() + w.Max()))][MAX_RESULTS := ToString(if w.Max() == 0 then 1 else w.Max())]
  }

  /** The page of a target: the included candidates from `First(w)` on, at most `Max` of them. */
  function PageOf(c: seq<Candidate>, pars: Parameters, w: Window): Outcome<Page>
    requires w.Valid()
  {
    var chosen := Kept(c, true);
    var n := |chosen|;
    if Full(n, w) then
      if w.maxResults.None? then NoMaxResults
      else Done(Page(chosen[First(w)..First(w) + w.Max()], Some(NextPointer(pars, w)), true))
    else
      Done(Page(chosen[Min(First(w), n)..], None, Drops(c) || (First(w) > 0 && n > 0)))
  }

  class Context {
    const parameters: Parameters
    const window: Window

    constructor (pars: Parameters, w: Window)
      ensures parameters == pars && window == w
    {
      parameters, window := pars, w;
    }

    method MakeSimpleNextPointer() returns (pointer: Outcome<Parameters>)
      ensures pointer == if window.maxResults.None? then NoMaxResults else Done(NextPointer(parameters, window))
    {
      if window.maxResults.None? {
        return NoMaxResults;
      }
      var skip := window.Skip();
      var newMaxResults := window.Max();
      var newSkip := Wrap(skip + newMaxResults);
      if newMaxResults == 0 {
        newMaxResults := 1;
      }
      var newPars := parameters;
      newPars := newPars[SKIP := ToString(newSkip)];
      newPars := newPars[MAX_RESULTS := ToString(newMaxResults)];
      pointer := Done(newPars);
    }

    method FilterChildren(candidates: seq<Candidate>, isTarget: bool)
      returns (out: Outcome<Page>)
      requires window.Valid()
      ensures out == if isTarget then PageOf(candidates, parameters, window)
                     else Done(Page(Kept(candidates, false), None, false))
    {
      hide Kept, PageOf, NextPointer, InProgress, Wrap, ToString, Full, Drops;
      var items: seq<Candidate>, partial := [], false;
      var skip, max := window.Skip(), window.Max();
      var i := 0;
      KeptNothing(false);
      NothingYet(window);
      assert candidates[..0] == [];
      while i < |candidates|
        invariant i <= |candidates|
        invariant !isTarget ==> items == Kept(candidates[..i], false) && !partial
        invariant isTarget ==> InProgress(window, candidates[..i], items, partial, skip, max)
      {
        var candidate := candidates[i];
        KeptStep(candidates, i, false);
        if isTarget {
          StepWithout(window, candidates, i, items, partial, skip, max);
          if candidate.Shown(true) && skip <= 0 {
            MaxLeft(window, candidates[..i], items, partial, skip, max);
            if max > 1 {
              StepWith(window, candidates, i, items, partial, skip, max);
            } else {
              StepLast(parameters, window, candidates, i, items, partial, skip, max);
            }
          }
        }
        i := i + 1;
        if !candidate.visible {
          continue;
        }
        if isTarget {
          if !candidate.included {
            partial := true;
            continue;
          }
          if skip > 0 {
            skip := skip - 1;
            partial := true;
            continue;
          }
          if max == 0 {
            var pointer := MakeSimpleNextPointer();
            if pointer.NoMaxResults? {
              return NoMaxResults;
            }
            return Done(Page(items, Some(pointer.value), true));
          }
          items := items + [candidate];
          max := max - 1;
          if max == 0 {
            var pointer := MakeSimpleNextPointer();
            if pointer.NoMaxResults? {
              return NoMaxResults;
            }
            return Done(Page(items, Some(pointer.value), true));
          }
        } else {
          items := items + [candidate];
        }
      }
      assert candidates[..i] == candidates;
      if isTarget {
        NotFull(parameters, window, candidates, items, partial, skip, max);
      }
      out := Done(Page(items, None, partial));
    }
  }

  /** Where the loop is after the candidates in `c`. */
  ghost predicate InProgress(w: Window, c: seq<Candidate>,
                                items: seq<Candidate>, partial: bool, skip: int, max: int) {
    var chosen := Kept(c, true);
    && !Full(|chosen|, w)
    && items == chosen[Min(First(w), |chosen|)..]
    && skip == (if w.Skip() > |chosen| then w.Skip() - |chosen| else Min(w.Skip(), 0))
    && max == w.Max() - |items|
    && (partial <==> Drops(c) || (First(w) > 0 && |chosen| > 0))
  }

  function Stopped(pars: Parameters, w: Window, items: seq<Candidate>): Outcome<Page> {
    if w.maxResults.None? then NoMaxResults else Done(Page(items, Some(NextPointer(pars, w)), true))
  }

  lemma {:induction false} KeptNothing(isTarget: bool)
    ensures Kept([], isTarget) == []
  {
  }

  lemma {:induction false} KeptStep(c: seq<Candidate>, i: nat, isTarget: bool)
    requires i < |c|
    ensures Kept(c[..i + 1], isTarget) == Kept(c[..i], isTarget) + if c[i].Shown(isTarget) then [c[i]] else []
  {
    assert c[..i + 1][..i] == c[..i];
  }

  lemma NothingYet(w: Window)
    requires w.Valid()
    ensures InProgress(w, [], [], false, w.Skip(), w.Max())
  {
    hide Kept;
    KeptNothing(true);
    assert !Drops([]);
  }

  /** A candidate that does not make the cut, or is skipped. */
  lemma StepWithout(w: Window, c: seq<Candidate>, i: nat,
                       items: seq<Candidate>, partial: bool, skip: int, max: int)
    requires w.Valid() && i < |c| && InProgress(w, c[..i], items, partial, skip, max)
    ensures !c[i].visible ==> InProgress(w, c[..i + 1], items, partial, skip, max)
    ensures c[i].visible && !c[i].included ==> InProgress(w, c[..i + 1], items, true, skip, max)
    ensures c[i].visible && c[i].included && skip > 0 ==>
              InProgress(w, c[..i + 1], items, true, skip - 1, max)
  {
    hide Kept, Drops;
    DropsStep(c, i);
    KeptStep(c, i, true);
  }

  /** A candidate that goes on the page with room for more. */
  lemma StepWith(w: Window, c: seq<Candidate>, i: nat, items: seq<Candidate>, partial: bool, skip: int, max: int)
    requires w.Valid() && i < |c| && InProgress(w, c[..i], items, partial, skip, max)
    requires c[i].Shown(true) && skip <= 0 && max > 1
    ensures InProgress(w, c[..i + 1], items + [c[i]], partial, skip, max - 1)
  {
    hide Kept, Drops;
    DropsStep(c, i);
    KeptStep(c, i, true);
    var before := Kept(c[..i], true);
    assert (before + [c[i]])[First(w)..] == before[First(w)..] + [c[i]];
  }

  /** A candidate that fills the page, or finds it full from the start. */
  lemma StepLast(pars: Parameters, w: Window, c: seq<Candidate>, i: nat,
                 items: seq<Candidate>, partial: bool, skip: int, max: int)
    requires w.Valid() && i < |c| && InProgress(w, c[..i], items, partial, skip, max)
    requires c[i].Shown(true) && skip <= 0 && max <= 1
    ensures PageOf(c, pars, w) == Stopped(pars, w, if max == 0 then items else items + [c[i]])
  {
    hide Kept, Drops, NextPointer;
    KeptStep(c, i, true);
    KeptPrefix(c, i + 1, true);
    var before, all := Kept(c[..i], true), Kept(c, true);
    PrefixSlice(all, before, c[i], First(w));
  }

  lemma PrefixSlice(all: seq<Candidate>, before: seq<Candidate>, last: Candidate, from: nat)
    requires before + [last] <= all && from <= |before|
    ensures all[from..|before|] == before[from..]
    ensures all[from..|before| + 1] == before[from..] + [last]
  {
    assert all[|before|] == (before + [last])[|before|];
  }

  lemma MaxLeft(w: Window, c: seq<Candidate>, items: seq<Candidate>, partial: bool, skip: int, max: int)
    requires w.Valid() && InProgress(w, c, items, partial, skip, max)
    ensures max >= 0
  {
    hide Kept, Drops;
  }

  lemma NotFull(pars: Parameters, w: Window, c: seq<Candidate>,
                   items: seq<Candidate>, partial: bool, skip: int, max: int)
    requires w.Valid() && InProgress(w, c, items, partial, skip, max)
    ensures PageOf(c, pars, w) == Done(Page(items, None, partial))
  {
    hide Kept, Drops;
  }

  lemma DropsStep(c: seq<Candidate>, i: nat)
    requires i < |c|
    ensures Drops(c[..i + 1]) <==> Drops(c[..i]) || (c[i].visible && !c[i].included)
  {
  }

  lemma {:induction false} KeptPrefix(c: seq<Candidate>, i: nat, isTarget: bool)
    requires i <= |c|
    ensures Kept(c[..i], isTarget) <= Kept(c, isTarget)
    decreases |c|
  {
    if i < |c| {
      KeptPrefix(c[..|c| - 1], i, isTarget);
      assert c[..|c| - 1][..i] == c[..i];
    } else {
      assert c[..i] == c;
    }
  }

  lemma {:induction false} NothingDropped(c: seq<Candidate>)
    requires !Drops(c)
    ensures Kept(c, true) == Kept(c, false)
  {
    if c != [] {
      var d := c[..|c| - 1];
      assert forall k :: 0 <= k < |d| ==> d[k] == c[k];
      NothingDropped(d);
    }
  }

  /** A page that is not marked partial shows every visible candidate. */
  lemma {:induction false} NotPartialIsComplete(c: seq<Candidate>, pars: Parameters, w: Window)
    requires w.Valid()
    requires var page := PageOf(c, pars, w); page.Done? && !page.value.partial
    ensures PageOf(c, pars, w).value.items == Kept(c, false)
  {
    NothingDropped(c);
  }

  /** The parameters of a request for `max` items from `skip` on, as a client would write them. */
  function Request(pars: Parameters, skip: int, max: int): Parameters {
    pars[Ascii("skip") := ToString(skip)][Ascii("max-results") := ToString(max)]
  }

  /**
   * Such a request is taken exactly if the skip is at least -1 and the number of items is not negative, and is then read
   * as what it says.
   */
  lemma RequestIsRead(pars: Parameters, skip: int, max: int)
    requires MIN_INT <= skip <= MAX_INT && MIN_INT <= max <= MAX_INT
    ensures WindowOf(Request(pars, skip, max))
         == if skip >= -1 && max >= 0 then Some(Window(Some(skip), Some(max))) else None
  {
    hide ParseInt, ToString;
    NamesDiffer();
    ParsePrinted(skip);
    ParsePrinted(max);
  }

  /** Its page is the included candidates from position `skip` on, at most `max` of them. */
  lemma {:induction false} PageIsWindow(c: seq<Candidate>, pars: Parameters, skip: int, max: int)
    requires 0 <= skip <= MAX_INT && 0 <= max <= MAX_INT
    ensures var w, chosen := WindowOf(Request(pars, skip, max)), Kept(c, true);
            && w.Some? && PageOf(c, Request(pars, skip, max), w.value).Done?
            && PageOf(c, Request(pars, skip, max), w.value).value.items
            == if skip >= |chosen| then [] else if skip + max >= |chosen| then chosen[skip..] else chosen[skip..skip + max]
  {
    hide Kept, Request, WindowOf, NextPointer, Drops;
    RequestIsRead(pars, skip, max);
  }

  /** Without either parameter it is all of them, as long as they are fewer than the largest int. */
  lemma {:induction false} PageOfAll(c: seq<Candidate>, pars: Parameters)
    requires Ascii("skip") !in pars && Ascii("max-results") !in pars
    ensures WindowOf(pars) == Some(Window(None, None))
    ensures var page, chosen := PageOf(c, pars, Window(None, None)), Kept(c, true);
            if |chosen| < MAX_INT then page == Done(Page(chosen, None, Drops(c))) else page == NoMaxResults
  {
    hide Kept, Drops;
    assert Kept(c, true)[0..] == Kept(c, true);
  }

  /**
   * When a page is marked partial: if it has a 'next' pointer, or does not show every visible candidate. It has one as
   * soon as it holds as many as were asked for, even if no more are left; and if none were asked for, as soon as there
   * is one to show.
   */
  lemma {:induction false} PartialIsExact(c: seq<Candidate>, pars: Parameters, w: Window)
    requires w.Valid() && PageOf(c, pars, w).Done?
    ensures var page := PageOf(c, pars, w).value;
            && (page.partial <==> page.next.Some? || page.items != Kept(c, false))
            && (page.next.Some? <==> if w.Max() > 0 then |page.items| == w.Max() else |Kept(c, true)| > First(w))
  {
    if Drops(c) {
      DroppedIsMissing(c);
    } else {
      NothingDropped(c);
    }
  }

  lemma {:induction false} DroppedIsMissing(c: seq<Candidate>)
    ensures |Kept(c, true)| <= |Kept(c, false)| && (Drops(c) ==> |Kept(c, true)| < |Kept(c, false)|)
  {
    if c != [] {
      var d := c[..|c| - 1];
      DroppedIsMissing(d);
      DropsStep(c, |d|);
      assert c[..|d| + 1] == c;
    }
  }

  // ----- following the 'next' pointers -----

  lemma NamesDiffer()
    ensures SKIP != MAX_RESULTS
  {
    assert |SKIP| == 4 && |MAX_RESULTS| == 11;
  }

  /** Reading a 'next' pointer back gives the window after this one, with every other parameter as it was. */
  lemma NextPointerReadsBack(pars: Parameters, w: Window)
    requires w.Valid() && Wrap(w.Skip() + w.Max()) >= -1
    ensures WindowOf(NextPointer(pars, w))
         == Some(Window(Some(Wrap(w.Skip() + w.Max())), Some(if w.Max() == 0 then 1 else w.Max())))
    ensures NextPointer(pars, w) - {SKIP, MAX_RESULTS} == pars - {SKIP, MAX_RESULTS}
  {
    hide ParseInt, ToString, Wrap;
    NamesDiffer();
    ParsePrinted(Wrap(w.Skip() + w.Max()));
    ParsePrinted(if w.Max() == 0 then 1 else w.Max());
  }

  /** A 'next' pointer never overflows: it is only made when that many candidates exist. */
  lemma NextSkipIsExact(n: nat, w: Window)
    requires w.Valid() && Full(n, w) && n <= MAX_INT
    ensures Wrap(w.Skip() + w.Max()) == w.Skip() + w.Max()
  {
  }

  function Steps(n: nat, w: Window): nat {
    if n < w.Skip() then 0 else n - w.Skip()
  }

  /** Everything a client collects by following 'next' until there is none; `None` if a request fails on the way. */
  function Collected(c: seq<Candidate>, pars: Parameters): Option<seq<Candidate>>
    requires |c| <= MAX_INT && WindowOf(pars).Some?
    decreases Steps(|Kept(c, true)|, WindowOf(pars).value), WindowOf(pars).value.Max() == 0
  {
    var w := WindowOf(pars).value;
    var page := PageOf(c, pars, w);
    if page.NoMaxResults? then None
    else if page.value.next.None? then Some(page.value.items)
    else
      NextSkipIsExact(|Kept(c, true)|, w);
      NextPointerReadsBack(pars, w);
      var rest := Collected(c, page.value.next.value);
      if rest.None? then None else Some(page.value.items + rest.value)
  }

  /**
   * Following 'next' ends, and the pages together are every included candidate from the first window on, once each. A
   * request that names no page size gets them on one page, as long as that page is not full.
   */
  lemma {:induction false} PagesPartition(c: seq<Candidate>, pars: Parameters)
    requires |c| <= MAX_INT && WindowOf(pars).Some?
    requires WindowOf(pars).value.Skip() >= 0
    requires WindowOf(pars).value.maxResults.Some? || !Full(|Kept(c, true)|, WindowOf(pars).value)
    ensures var chosen := Kept(c, true);
            Collected(c, pars) == Some(chosen[Min(WindowOf(pars).value.Skip(), |chosen|)..])
    decreases Steps(|Kept(c, true)|, WindowOf(pars).value), WindowOf(pars).value.Max() == 0
  {
    hide WindowOf, Kept, NextPointer, Wrap;
    var w := WindowOf(pars).value;
    var chosen := Kept(c, true);
    if Full(|chosen|, w) {
      var next := NextPointer(pars, w);
      NextSkipIsExact(|chosen|, w);
      NextPointerReadsBack(pars, w);
      PagesPartition(c, next);
      assert chosen[w.Skip()..w.Skip() + w.Max()] + chosen[w.Skip() + w.Max()..] == chosen[w.Skip()..];
    }
  }

  /**
   * A skip of -1 passes the range check but makes the next window start one candidate early, so the last item of a
   * full page comes twice; and a request that names no page size is refused when its page is full. The pages are a
   * partition exactly when there is one page, or the request names a page size and its skip is not negative.
   */
  lemma {:induction false} PartitionIsExact(c: seq<Candidate>, pars: Parameters)
    requires |c| <= MAX_INT && WindowOf(pars).Some?
    ensures var chosen, w := Kept(c, true), WindowOf(pars).value;
            && (Collected(c, pars) == Some(chosen[Min(First(w), |chosen|)..])
                <==> !Full(|chosen|, w) || (w.maxResults.Some? && w.Skip() >= 0))
            && (w.maxResults.None? ==> (!Full(|chosen|, w) <==> |chosen| < MAX_INT || w.Skip() > 0))
    decreases if WindowOf(pars).value.Max() == 0 then 1 else 0
  {
    hide WindowOf, Kept, NextPointer, Wrap;
    var w := WindowOf(pars).value;
    var chosen := Kept(c, true);
    if w.Skip() >= 0 && (w.maxResults.Some? || !Full(|chosen|, w)) {
      PagesPartition(c, pars);
    } else if w.maxResults.Some? && Full(|chosen|, w) {
      var next := NextPointer(pars, w);
      NextPointerReadsBack(pars, w);
      if w.Max() == 0 {
        PartitionIsExact(c, next);
        var again := NextPointer(next, WindowOf(next).value);
        NextPointerReadsBack(next, WindowOf(next).value);
        PagesPartition(c, again);
        assert |Collected(c, next).value| == 1 + |chosen|;
      } else {
        PagesPartition(c, next);
        assert |Collected(c, pars).value| == |chosen| + 1;
      }
    }
  }
}
