/**
 * The write lock under every interleaving (database/Session.java, lines 161-224, and database/DataStore.java, lines
 * 59-60): a semaphore of one permit, the static field naming the active write session, and the steps threads take
 * between them.  Each step reads or writes one of the two once.
 */
module Locking {
  import opened DataTree

  type Thread = nat
  type Id = nat

  /** Where a thread is: between calls, or inside `makeWriteSession` or `close`. */
  datatype Pc =
    | Outside
    | Acquired           // has the permit, has not yet named its session as the active one
    | Matched(id: Id)    // closing; found its session to be the active one
    | Cleared(id: Id)    // closing; has reset the active session, has not yet released

  datatype Kind = Read | Write | WriteSub

  datatype Session = Session(owner: Thread, kind: Kind)

  /** `closed` holds the top-level write sessions that have been given up. */
  datatype State = State(permits: nat, active: Option<Id>, pcs: map<Thread, Pc>, sessions: map<Id, Session>, closed: set<Id>)
  {
    function At(t: Thread): Pc {
      if t in pcs then pcs[t] else Outside
    }

    function Move(t: Thread, pc: Pc): State {
      this.(pcs := pcs[t := pc])
    }
  }

  const INITIAL: State := State(1, None, map[], map[], {})

  datatype Step =
    | Acquire(t: Thread)                         // tryAcquire gets the permit
    | Activate(t: Thread, id: Id)                // activeWriteSession = session
    | Close(t: Thread, id: Id)                   // commit or discard of any session, up to the test in close()
    | Clear(t: Thread)                           // activeWriteSession = null
    | Release(t: Thread)                         // the permit goes back
    | OpenRead(t: Thread, id: Id)
    | OpenSub(t: Thread, parent: Id, id: Id)     // makeWriteSubsession; an XDError changes nothing

  predicate Enabled(s: State, step: Step) {
    match step
    case Acquire(t) => s.At(t) == Outside && s.permits > 0
    case Activate(t, id) => s.At(t) == Acquired && id !in s.sessions
    case Close(t, id) => s.At(t) == Outside && id in s.sessions
    case Clear(t) => s.At(t).Matched?
    case Release(t) => s.At(t).Cleared?
    case OpenRead(t, id) => s.At(t) == Outside && id !in s.sessions
    case OpenSub(t, parent, id) => s.At(t) == Outside && parent in s.sessions && id !in s.sessions
  }

  predicate CanHaveSub(s: State, parent: Id)
    requires parent in s.sessions
  {
    s.sessions[parent].kind != Read && s.active == Some(parent)
  }

  function After(s: State, step: Step): State
    requires Enabled(s, step)
  {
    match step
    case Acquire(t) => s.Move(t, Acquired).(permits := s.permits - 1)
    case Activate(t, id) => s.Move(t, Outside).(active := Some(id), sessions := s.sessions[id := Session(t, Write)])
    case Close(t, id) => if s.sessions[id].kind != Read && s.active == Some(id) then s.Move(t, Matched(id)) else s
    case Clear(t) => s.Move(t, Cleared(s.At(t).id)).(active := None, closed := s.closed + {s.At(t).id})
    case Release(t) => s.Move(t, Outside).(permits := s.permits + 1)
    case OpenRead(t, id) => s.(sessions := s.sessions[id := Session(t, Read)])
    case OpenSub(t, parent, id) =>
      if CanHaveSub(s, parent) then s.(sessions := s.sessions[id := Session(t, WriteSub)]) else s
  }

  /** Nobody starts closing a session while another thread closing it is past the test and has not reset it yet. */
  ghost predicate Guarded(s: State, step: Step) {
    step.Close? ==> forall u: Thread :: s.At(u) == Matched(step.id) ==> u == step.t
  }

  // ----- what every step keeps -----

  predicate IsOpen(s: State, id: Id) {
    id in s.sessions && s.sessions[id].kind == Write && id !in s.closed
  }

  /** A thread inside `makeWriteSession` with the permit, or inside `close` past the test. */
  predicate Busy(s: State, t: Thread) {
    s.At(t) != Outside
  }

  ghost predicate Inv(s: State) {
    && s.permits <= 1
    && (forall t: Thread, u: Thread :: Busy(s, t) && Busy(s, u) ==> t == u)
    && (forall t: Thread :: s.At(t) == Acquired ==> s.permits == 0 && s.active == None)
    && (forall t: Thread :: s.At(t).Matched? ==> s.active == Some(s.At(t).id))
    && (forall t: Thread :: s.At(t).Cleared? ==> s.permits == 0 && s.active == None)
    && (s.active.Some? ==> s.permits == 0 && IsOpen(s, s.active.value))
    && (forall id: Id :: IsOpen(s, id) ==> s.active == Some(id))
    && (s.permits == 0 && s.active == None ==> exists t: Thread :: Busy(s, t))
    && (forall id: Id :: id in s.closed ==> id in s.sessions)
  }

  lemma InitialIsFine()
    ensures Inv(INITIAL)
  {
  }

  lemma OneThreadMoves(s: State, step: Step)
    requires Enabled(s, step)
    ensures forall u: Thread :: u != step.t ==> After(s, step).At(u) == s.At(u)
  {
  }

  lemma OthersAreOutside(s: State, t: Thread)
    requires Inv(s) && Busy(s, t)
    ensures forall u: Thread :: u != t ==> s.At(u) == Outside
  {
    forall u: Thread | u != t
      ensures s.At(u) == Outside
    {
      assert Busy(s, u) ==> u == t;
    }
  }

  lemma StepKeepsInv(s: State, step: Step)
    requires Inv(s) && Enabled(s, step) && Guarded(s, step)
    ensures Inv(After(s, step))
  {
    var n := After(s, step);
    OneThreadMoves(s, step);
    if s.permits == 0 && s.active == None {
      var b: Thread :| Busy(s, b);
      assert b != step.t ==> Busy(n, b);
    }
    match step
    case Acquire(t) =>
      assert Busy(n, t);
    case Activate(t, id) =>
      OthersAreOutside(s, t);
    case Close(t, id) =>
    case Clear(t) =>
      OthersAreOutside(s, t);
      assert Busy(n, t);
    case Release(t) =>
      OthersAreOutside(s, t);
    case OpenRead(t, id) =>
      assert forall u: Thread :: Busy(n, u) == Busy(s, u);
    case OpenSub(t, parent, id) =>
      assert forall u: Thread :: Busy(n, u) == Busy(s, u);
  }

  // ----- whole runs -----

  /** Every step of the run can be taken, and is guarded. */
  ghost predicate Allowed(s: State, steps: seq<Step>)
    decreases |steps|
  {
    steps == [] || (Enabled(s, steps[0]) && Guarded(s, steps[0]) && Allowed(After(s, steps[0]), steps[1..]))
  }

  ghost function Result(s: State, steps: seq<Step>): State
    requires Allowed(s, steps)
    decreases |steps|
  {
    if steps == [] then s else Result(After(s, steps[0]), steps[1..])
  }

  lemma {:induction false} RunKeepsInv(s: State, steps: seq<Step>)
    requires Inv(s) && Allowed(s, steps)
    ensures Inv(Result(s, steps))
    decreases |steps|
  {
    hide After, Inv, Enabled, Guarded;
    if steps != [] {
      StepKeepsInv(s, steps[0]);
      RunKeepsInv(After(s, steps[0]), steps[1..]);
    }
  }

  /** A thread holds the permit from `Acquire` until `Release`: inside either call, or while its session is open. */
  ghost predicate Holds(s: State, t: Thread) {
    Busy(s, t) || exists id: Id :: IsOpen(s, id) && s.sessions[id].owner == t
  }

  /** After any guarded run at most one top-level write session is open, and at most one thread opens or closes one. */
  lemma {:induction false} OneWriterAtATime(steps: seq<Step>)
    requires Allowed(INITIAL, steps)
    ensures var s := Result(INITIAL, steps);
            && (forall i: Id, j: Id :: IsOpen(s, i) && IsOpen(s, j) ==> i == j)
            && (forall t: Thread, u: Thread :: Busy(s, t) && Busy(s, u) ==> t == u)
  {
    hide Result, Allowed;
    InitialIsFine();
    RunKeepsInv(INITIAL, steps);
  }

  /** After any guarded run the permit is there exactly when no thread is between acquire and release. */
  lemma {:induction false} PermitIsExact(steps: seq<Step>)
    requires Allowed(INITIAL, steps)
    ensures var s := Result(INITIAL, steps);
            s.permits <= 1 && (s.permits == 1 <==> forall t: Thread :: !Holds(s, t))
  {
    hide Result, Allowed;
    InitialIsFine();
    RunKeepsInv(INITIAL, steps);
    var s := Result(INITIAL, steps);
    if s.active.Some? {
      assert Holds(s, s.sessions[s.active.value].owner);
    } else if s.permits == 0 {
      var t: Thread :| Busy(s, t);
      assert Holds(s, t);
    } else {
      forall t: Thread
        ensures !Holds(s, t)
      {
        assert Busy(s, t) ==> s.At(t).Matched?;
      }
    }
  }

  /** Closing a session that is not the active one changes nothing: a late or repeated discard releases no lock. */
  lemma {:induction false} LateCloseDoesNothing(steps: seq<Step>, t: Thread, id: Id)
    requires Allowed(INITIAL, steps)
    requires var s := Result(INITIAL, steps); Enabled(s, Close(t, id)) && (id in s.closed || s.sessions[id].kind != Write)
    ensures var s := Result(INITIAL, steps); After(s, Close(t, id)) == s
  {
    hide Result, Allowed;
    InitialIsFine();
    RunKeepsInv(INITIAL, steps);
  }

  /** A subsession never becomes the active session, so it cannot have a write subsession of its own. */
  lemma {:induction false} SubsessionsDoNotNest(steps: seq<Step>, t: Thread, parent: Id, id: Id)
    requires Allowed(INITIAL, steps)
    requires var s := Result(INITIAL, steps); Enabled(s, OpenSub(t, parent, id)) && !IsOpen(s, parent)
    ensures var s := Result(INITIAL, steps); After(s, OpenSub(t, parent, id)) == s
  {
    hide Result, Allowed;
    InitialIsFine();
    RunKeepsInv(INITIAL, steps);
  }

  /** Under the open session a write subsession is made; it is not open itself, and the lock stays with its parent. */
  lemma {:induction false} SubsessionsAreMade(steps: seq<Step>, t: Thread, parent: Id, id: Id)
    requires Allowed(INITIAL, steps)
    requires var s := Result(INITIAL, steps); Enabled(s, OpenSub(t, parent, id)) && IsOpen(s, parent)
    ensures var s := Result(INITIAL, steps);
            var n := After(s, OpenSub(t, parent, id));
            && id in n.sessions && n.sessions[id] == Session(t, WriteSub) && id !in s.sessions
            && n.permits == 0 && n.active == Some(parent)
            && forall i: Id :: IsOpen(n, i) <==> i == parent
  {
    hide Result, Allowed;
    InitialIsFine();
    RunKeepsInv(INITIAL, steps);
    var s := Result(INITIAL, steps);
    var n := After(s, OpenSub(t, parent, id));
    assert forall i: Id :: IsOpen(n, i) <==> IsOpen(s, i);
  }

  // ----- the lock comes back -----

  /**
   * No guarded run ends with the lock lost: from any state it reaches, at most four more steps of the one thread that has
   * the permit, all guarded, bring the permit back, whatever the others are doing.
   */
  lemma LockComesBack(steps: seq<Step>) returns (more: seq<Step>)
    requires Allowed(INITIAL, steps)
    ensures var s := Result(INITIAL, steps); |more| <= 4 && Allowed(s, more) && Result(s, more).permits == 1
    ensures forall step :: step in more ==> step.t == more[0].t
  {
    hide Result, Allowed;
    InitialIsFine();
    RunKeepsInv(INITIAL, steps);
    var s := Result(INITIAL, steps);
    more := [];
    if s.permits == 1 {
      NoSteps(s);
    } else if s.active.Some? {
      var id := s.active.value;
      if t: Thread :| Busy(s, t) {
        more := Closing(s, t, id);
      } else {
        var t := s.sessions[id].owner;
        assert !Busy(s, t);
        more := Closing(s, t, id);
      }
    } else {
      var t: Thread :| Busy(s, t);
      if s.At(t) == Acquired {
        var id := NewId(s.sessions.Keys);
        var n := After(s, Activate(t, id));
        StepKeepsInv(s, Activate(t, id));
        OthersAreOutside(s, t);
        OneThreadMoves(s, Activate(t, id));
        more := Closing(n, t, id);
        FirstStep(s, Activate(t, id), more);
        more := [Activate(t, id)] + more;
      } else {
        more := [Release(t)];
        OneStep(s, Release(t));
      }
    }
  }

  /** Closing the open session, from wherever the closing thread is. */
  lemma Closing(s: State, t: Thread, id: Id) returns (more: seq<Step>)
    requires Inv(s) && s.active == Some(id) && (forall u: Thread :: Busy(s, u) ==> u == t)
    ensures 0 < |more| <= 3 && Allowed(s, more) && Result(s, more).permits == 1 && forall step :: step in more ==> step.t == t
  {
    hide Result, Allowed;
    if s.At(t) == Outside {
      assert IsOpen(s, id) && forall u: Thread :: s.At(u) == Matched(id) ==> Busy(s, u);
      var n := After(s, Close(t, id));
      StepKeepsInv(s, Close(t, id));
      more := Resetting(n, t, id);
      FirstStep(s, Close(t, id), more);
      more := [Close(t, id)] + more;
    } else {
      more := Resetting(s, t, id);
    }
  }

  lemma Resetting(s: State, t: Thread, id: Id) returns (more: seq<Step>)
    requires Inv(s) && s.At(t) == Matched(id)
    ensures |more| == 2 && Allowed(s, more) && Result(s, more).permits == 1 && forall step :: step in more ==> step.t == t
  {
    hide Result, Allowed;
    var n := After(s, Clear(t));
    StepKeepsInv(s, Clear(t));
    OneStep(n, Release(t));
    FirstStep(s, Clear(t), [Release(t)]);
    more := [Clear(t), Release(t)];
    assert more == [Clear(t)] + [Release(t)];
  }

  lemma {:induction false} NoSteps(s: State)
    ensures Allowed(s, []) && Result(s, []) == s
  {
  }

  lemma {:induction false} FirstStep(s: State, step: Step, rest: seq<Step>)
    requires Enabled(s, step) && Guarded(s, step) && Allowed(After(s, step), rest)
    ensures Allowed(s, [step] + rest) && Result(s, [step] + rest) == Result(After(s, step), rest)
  {
    assert ([step] + rest)[1..] == rest;
  }

  lemma {:induction false} OneStep(s: State, step: Step)
    requires Enabled(s, step) && Guarded(s, step)
    ensures Allowed(s, [step]) && Result(s, [step]) == After(s, step)
  {
    NoSteps(After(s, step));
    FirstStep(s, step, []);
    assert [step] + [] == [step];
  }

  lemma NewId(ids: set<Id>) returns (id: Id)
    ensures id !in ids
  {
    id := 0;
    var left := ids;
    while id in ids
      invariant forall i: Id :: i in left <==> i in ids && i >= id
      decreases left
    {
      left := left - {id};
      id := id + 1;
    }
  }

  // ----- the guard is exactly what is needed -----

  /** The steps that finish two overlapping closes of one session. */
  function Finished(s: State, t: Thread, u: Thread): State
    requires t != u && s.At(t).Matched? && s.At(u).Matched?
  {
    var c := After(s, Clear(u));
    assert c.At(t) == s.At(t);
    var d := After(c, Clear(t));
    assert d.At(u).Cleared? && d.At(t).Cleared?;
    var e := After(d, Release(u));
    assert e.At(t).Cleared?;
    After(e, Release(t))
  }

  /** From any state with the invariant, an unguarded close leads to two permits. */
  lemma UnguardedReleasesTwice(s: State, t: Thread, id: Id, u: Thread)
    requires Inv(s) && Enabled(s, Close(t, id)) && s.At(u) == Matched(id) && u != t
    ensures var n := After(s, Close(t, id));
            n.At(t) == Matched(id) && n.At(u) == Matched(id) && Finished(n, t, u).permits == 2
  {
    assert Busy(s, u);
  }

  /**
   * In every state a guarded run reaches, taking one more step that can be taken keeps the lock sound if and only if
   * the step is guarded: otherwise two threads are past the test for one session, and between them they release twice.
   */
  lemma {:induction false} GuardIsExact(steps: seq<Step>, step: Step)
    requires Allowed(INITIAL, steps) && Enabled(Result(INITIAL, steps), step)
    ensures var s := Result(INITIAL, steps);
            && (Inv(After(s, step)) <==> Guarded(s, step))
            && (!Guarded(s, step) ==>
                  exists u: Thread ::
                    && u != step.t && s.At(u) == Matched(step.id)
                    && After(s, step).At(step.t) == Matched(step.id) && After(s, step).At(u) == Matched(step.id)
                    && Finished(After(s, step), step.t, u).permits == 2)
  {
    hide Result, Allowed, Finished;
    InitialIsFine();
    RunKeepsInv(INITIAL, steps);
    var s := Result(INITIAL, steps);
    if Guarded(s, step) {
      StepKeepsInv(s, step);
    } else {
      var u: Thread :| s.At(u) == Matched(step.id) && u != step.t;
      UnguardedReleasesTwice(s, step.t, step.id, u);
      assert Busy(After(s, step), u) && Busy(After(s, step), step.t);
    }
  }

  // ----- one owner for each session -----

  /** Each session is closed only by the thread that made it. */
  predicate Disciplined(s: State, step: Step) {
    step.Close? && step.id in s.sessions ==> s.sessions[step.id].owner == step.t
  }

  predicate Owned(s: State, steps: seq<Step>)
    decreases |steps|
  {
    steps == [] || (Enabled(s, steps[0]) && Disciplined(s, steps[0]) && Owned(After(s, steps[0]), steps[1..]))
  }

  /** A thread closing a session is its owner. */
  ghost predicate ClosedByOwner(s: State) {
    forall t: Thread :: s.At(t).Matched? ==> s.At(t).id in s.sessions && s.sessions[s.At(t).id].owner == t
  }

  lemma OwnersAreGuarded(s: State, step: Step)
    requires ClosedByOwner(s) && Enabled(s, step) && Disciplined(s, step)
    ensures Guarded(s, step) && ClosedByOwner(After(s, step))
  {
    OneThreadMoves(s, step);
  }

  /** So the discipline of one owner is enough: such runs are guarded, and after them at most one thread holds the permit. */
  lemma {:induction false} OwnedRunsAreAllowed(s: State, steps: seq<Step>)
    requires ClosedByOwner(s) && Owned(s, steps)
    ensures Allowed(s, steps) && ClosedByOwner(Result(s, steps))
    decreases |steps|
  {
    hide After, Enabled, Guarded, Disciplined, ClosedByOwner;
    if steps != [] {
      OwnersAreGuarded(s, steps[0]);
      OwnedRunsAreAllowed(After(s, steps[0]), steps[1..]);
    }
  }

  lemma {:induction false} OneHolderAtATime(steps: seq<Step>)
    requires Owned(INITIAL, steps)
    ensures Allowed(INITIAL, steps)
    ensures var s := Result(INITIAL, steps); forall t: Thread, u: Thread :: Holds(s, t) && Holds(s, u) ==> t == u
  {
    hide Result, Allowed, Owned;
    InitialIsFine();
    OwnedRunsAreAllowed(INITIAL, steps);
    RunKeepsInv(INITIAL, steps);
    var s := Result(INITIAL, steps);
    forall t: Thread, u: Thread | Holds(s, t) && Holds(s, u)
      ensures t == u
    {
      if Busy(s, t) {
        OthersAreOutside(s, t);
      } else if Busy(s, u) {
        OthersAreOutside(s, u);
      }
    }
  }
}
