/**
 * The write half of a POST to /.multi (managers/MultiManager.java, lines 108-168): each entry is written in a session
 * of its own under the session of the request, and the failures are reported.
 */
module MultiWrite {
  import opened CodeUnits
  import opened DataTree
  import opened Sessions

  const VIA: Text := Ascii("$via")
  const VALUES: Text := Ascii("values/")
  const METADATA_NOT_FOUND: nat := 10
  const LIST_OF_PATHS_IS_EMPTY: nat := 17
  const INCONSISTENT_VALUES: nat := 39

  /** One entry against a copy of the data: its `$via` must name a place, and writing there must not throw. */
  function Try(writer: Writer, data: Node, entry: Node): Attempt {
    var via := Find(entry.subs, VIA);
    if via.None? || via.value.value.None? || via.value.value.value == [] then Attempt(data, Some(METADATA_NOT_FOUND))
    else writer(data, via.value.value.value, entry)
  }

  /** The stored data after the entries: each works on what the ones before it stored, and stores all or nothing. */
  function Stored(writer: Writer, data: Node, entries: seq<Node>): Node {
    if entries == [] then data
    else
      var before := Stored(writer, data, entries[..|entries| - 1]);
      var attempt := Try(writer, before, entries[|entries| - 1]);
      if attempt.error.None? then attempt.data else before
  }

  /** The error each entry ends in, if any. */
  function Errors(writer: Writer, data: Node, entries: seq<Node>): (r: seq<Option<nat>>)
    ensures |r| == |entries|
  {
    if entries == [] then []
    else
      var before := entries[..|entries| - 1];
      Errors(writer, data, before) + [Try(writer, Stored(writer, data, before), entries[|entries| - 1]).error]
  }

  /** The entries that end in an error, or those that do not, in order. */
  function Chosen(entries: seq<Node>, errors: seq<Option<nat>>, failed: bool): seq<Node>
    requires |errors| == |entries|
  {
    if entries == [] then []
    else
      var n := |entries| - 1;
      Chosen(entries[..n], errors[..n], failed) + if errors[n].Some? == failed then [entries[n]] else []
  }

  function Pointers(entries: seq<Node>): seq<Text> {
    seq(|entries|, i requires 0 <= i < |entries| => VALUES + entries[i].name)
  }

  datatype Outcome = Refused(error: nat) | Reading | Written(failures: seq<Text>, errors: seq<Option<nat>>) | NotActive

  /** The loop over the entries. */
  method WriteEach(session: Session, entries: seq<Node>, writer: Writer) returns (out: Outcome)
    requires session.database.Valid()
    modifies session.database
    ensures session.database.Valid() && session.database.permits == old(session.database.permits)
    ensures session.database.activeWriteSession == old(session.database.activeWriteSession)
    ensures if entries != [] && !(session.isWriteSession && old(session.database.activeWriteSession) == session)
            then out == NotActive && session.database.root == old(session.database.root)
            else
              var errors := Errors(writer, old(session.database.root), entries);
              && out == Written(Pointers(Chosen(entries, errors, true)), errors)
              && session.database.root == Stored(writer, old(session.database.root), entries)
  {
    hide Stored, Errors, Chosen, Try;
    var database := session.database;
    ghost var start := database.root;
    var failures: seq<Text>, errors: seq<Option<nat>> := [], [];
    assert entries[..0] == [];
    NothingWritten(writer, start);
    for i := 0 to |entries|
      invariant database.Valid() && database.permits == old(database.permits)
      invariant database.activeWriteSession == old(database.activeWriteSession)
      invariant i > 0 ==> session.isWriteSession && database.activeWriteSession == session
      invariant database.root == Stored(writer, start, entries[..i])
      invariant errors == Errors(writer, start, entries[..i])
      invariant failures == Pointers(Chosen(entries[..i], errors, true))
    {
      var one := entries[i];
      assert entries[..i + 1] == entries[..i] + [one];
      WriteStep(writer, start, entries[..i], one);
      var subsession := session.MakeWriteSubsession();
      if subsession == null {
        return NotActive;
      }
      var attempt := Try(writer, subsession.root, one);
      subsession.root := attempt.data;
      if attempt.error.None? {
        subsession.Commit();
      }
      ChosenStep(entries[..i], errors, one, attempt.error, true);
      errors := errors + [attempt.error];
      if attempt.error.Some? {
        failures := failures + [VALUES + one.name];
      }
      subsession.Discard();
    }
    assert entries[..|entries|] == entries;
    out := Written(failures, errors);
  }

  lemma {:induction false} NothingWritten(writer: Writer, data: Node)
    ensures Stored(writer, data, []) == data && Errors(writer, data, []) == [] && Chosen([], [], true) == []
  {
  }

  lemma {:induction false} WriteStep(writer: Writer, data: Node, entries: seq<Node>, one: Node)
    ensures var attempt := Try(writer, Stored(writer, data, entries), one);
            && Errors(writer, data, entries + [one]) == Errors(writer, data, entries) + [attempt.error]
            && Stored(writer, data, entries + [one])
            == if attempt.error.None? then attempt.data else Stored(writer, data, entries)
  {
    assert (entries + [one])[..|entries|] == entries;
  }

  lemma {:induction false} ChosenStep(entries: seq<Node>, errors: seq<Option<nat>>, one: Node, error: Option<nat>, failed: bool)
    requires |errors| == |entries|
    ensures Chosen(entries + [one], errors + [error], failed)
         == Chosen(entries, errors, failed) + if error.Some? == failed then [one] else []
  {
    assert (entries + [one])[..|entries|] == entries && (errors + [error])[..|entries|] == errors;
  }

  predicate IsReadEntry(entry: Node) {
    entry.base == Any
  }

  /** `prepost`, up to what is read: reads and writes cannot be mixed, and a write has no lifetime. */
  method PrePost(session: Session, values: Option<seq<Node>>, lifetime: int, writer: Writer) returns (out: Outcome)
    requires session.database.Valid()
    modifies session.database
    ensures session.database.Valid() && session.database.permits == old(session.database.permits)
    ensures session.database.activeWriteSession == old(session.database.activeWriteSession)
    ensures out.Written? <==> values.Some? && values.value != [] && lifetime == 0 && out != NotActive
                              && forall one :: one in values.value ==> one.base != Any
    ensures out.NotActive? ==> !(session.isWriteSession && session.database.activeWriteSession == session)
    ensures out.Reading? <==> values.Some? && values.value != [] && forall one :: one in values.value ==> one.base == Any
    ensures out == Refused(LIST_OF_PATHS_IS_EMPTY) <==> values.None? || values.value == []
    ensures out.Refused? && values.Some? && values.value != [] ==> out.error == INCONSISTENT_VALUES
    ensures !out.Written? ==> session.database.root == old(session.database.root)
    ensures out.Written? ==> out.errors == Errors(writer, old(session.database.root), values.value)
    ensures out.Written? ==> out.failures == Pointers(Chosen(values.value, out.errors, true))
    ensures out.Written? ==> session.database.root == Stored(writer, old(session.database.root), values.value)
  {
    if values.None? {
      return Refused(LIST_OF_PATHS_IS_EMPTY);
    }
    var doingRead, doingWrite := false, false;
    for i := 0 to |values.value|
      invariant doingRead ==> !doingWrite
      invariant doingRead || doingWrite <==> i > 0
      invariant doingRead ==> forall k :: 0 <= k < i ==> IsReadEntry(values.value[k])
      invariant doingWrite ==> forall k :: 0 <= k < i ==> !IsReadEntry(values.value[k])
    {
      var one := values.value[i];
      if IsReadEntry(one) {
        doingRead := true;
        if doingWrite {
          assert !IsReadEntry(values.value[0]);
          return Refused(INCONSISTENT_VALUES);
        }
      } else {
        doingWrite := true;
        if doingRead {
          assert IsReadEntry(values.value[0]);
          return Refused(INCONSISTENT_VALUES);
        }
      }
    }
    if doingRead {
      assert IsReadEntry(values.value[0]);
      out := Reading;
    } else if doingWrite {
      assert !IsReadEntry(values.value[0]);
      if lifetime != 0 {
        return Refused(INCONSISTENT_VALUES);
      }
      out := WriteEach(session, values.value, writer);
    } else {
      out := Refused(LIST_OF_PATHS_IS_EMPTY);
    }
  }

  predicate IsReported(entries: seq<Node>, errors: seq<Option<nat>>, i: nat, path: Text)
    requires |errors| == |entries| && i < |entries|
  {
    errors[i].Some? && path == Ascii("values/") + entries[i].name
  }

  /** What is reported: a path, in the list of entries, to each that failed, and nothing else. */
  lemma {:induction false} FailuresAreNamed(entries: seq<Node>, errors: seq<Option<nat>>, path: Text)
    requires |errors| == |entries|
    ensures path in Pointers(Chosen(entries, errors, true))
       <==> exists i :: 0 <= i < |entries| && IsReported(entries, errors, i, path)
    decreases |entries|
  {
    hide Chosen;
    if entries == [] {
      NothingChosen();
    } else {
      var n := |entries| - 1;
      var before, rest := entries[..n], errors[..n];
      FailuresAreNamed(before, rest, path);
      ChosenStep(before, rest, entries[n], errors[n], true);
      assert entries == before + [entries[n]] && errors == rest + [errors[n]];
      var failed := Chosen(before, rest, true);
      PointersMore(failed, entries[n]);
      assert failed + [] == failed;
      if i :| 0 <= i < n && IsReported(before, rest, i, path) {
        assert IsReported(entries, errors, i, path);
      }
      if i :| 0 <= i < |entries| && IsReported(entries, errors, i, path) {
        assert i < n ==> IsReported(before, rest, i, path);
      }
      assert IsReported(entries, errors, n, path) <==> errors[n].Some? && path == Ascii("values/") + entries[n].name;
    }
  }

  lemma PointersMore(entries: seq<Node>, one: Node)
    ensures Pointers(entries + [one]) == Pointers(entries) + [Ascii("values/") + one.name]
  {
  }

  // ----- the attempts are independent -----

  /** Writing a list is writing its first part and then the rest. */
  lemma {:induction false} StoredInTwoParts(writer: Writer, data: Node, a: seq<Node>, b: seq<Node>)
    ensures Stored(writer, data, a + b) == Stored(writer, Stored(writer, data, a), b)
    ensures Errors(writer, data, a + b) == Errors(writer, data, a) + Errors(writer, Stored(writer, data, a), b)
    decreases |b|
  {
    hide Stored, Errors, Try;
    if b == [] {
      NothingWritten(writer, Stored(writer, data, a));
      assert a + b == a;
    } else {
      var n := |b| - 1;
      StoredInTwoParts(writer, data, a, b[..n]);
      WriteStep(writer, data, a + b[..n], b[n]);
      WriteStep(writer, Stored(writer, data, a), b[..n], b[n]);
      assert a + b == a + b[..n] + [b[n]] && b == b[..n] + [b[n]];
    }
  }

  /** The failed entries leave no trace: the stored data is what the successful ones alone store, and all of them succeed. */
  lemma {:induction false} OnlySuccessesCount(writer: Writer, data: Node, entries: seq<Node>)
    ensures var good := Chosen(entries, Errors(writer, data, entries), false);
            && Stored(writer, data, entries) == Stored(writer, data, good)
            && forall e :: e in Errors(writer, data, good) ==> e == None
    decreases |entries|, 1
  {
    if entries == [] {
      NothingChosen();
    } else {
      var before, one := entries[..|entries| - 1], entries[|entries| - 1];
      SuccessStep(writer, data, before, one);
      assert entries == before + [one];
    }
  }

  lemma NothingChosen()
    ensures Chosen([], [], true) == [] && Chosen([], [], false) == []
  {
  }

  lemma {:induction false} SuccessStep(writer: Writer, data: Node, before: seq<Node>, one: Node)
    ensures var good := Chosen(before + [one], Errors(writer, data, before + [one]), false);
            && Stored(writer, data, before + [one]) == Stored(writer, data, good)
            && forall e :: e in Errors(writer, data, good) ==> e == None
    decreases |before| + 1, 0
  {
    hide Stored, Errors, Chosen, Try;
    OnlySuccessesCount(writer, data, before);
    var errors := Errors(writer, data, before);
    var error := Try(writer, Stored(writer, data, before), one).error;
    var good := Chosen(before, errors, false);
    WriteStep(writer, data, before, one);
    WriteStep(writer, data, good, one);
    ChosenStep(before, errors, one, error, false);
    assert good + [] == good;
  }

  /**
   * What becomes of one entry, whatever came before: it is written to the place its `$via` names, in the data as stored
   * so far, and that is stored if nothing is thrown.
   */
  lemma {:induction false} EntryIsWritten(writer: Writer, data: Node, before: seq<Node>, one: Node, path: Text)
    requires Find(one.subs, Ascii("$via")).Some? && Find(one.subs, Ascii("$via")).value.value == Some(path) && path != []
    ensures var so := Stored(writer, data, before);
            var written := writer(so, path, one);
            && Errors(writer, data, before + [one]) == Errors(writer, data, before) + [written.error]
            && Stored(writer, data, before + [one]) == if written.error == None then written.data else so
  {
    hide Stored, Errors;
    WriteStep(writer, data, before, one);
  }

  /** Without a path in its `$via` it fails with that metadata missing, and nothing is stored. */
  lemma {:induction false} EntryWithoutPath(writer: Writer, data: Node, before: seq<Node>, one: Node)
    requires forall path: Text :: path != [] ==>
               !(Find(one.subs, Ascii("$via")).Some? && Find(one.subs, Ascii("$via")).value.value == Some(path))
    ensures Errors(writer, data, before + [one]) == Errors(writer, data, before) + [Some(10)]
    ensures Stored(writer, data, before + [one]) == Stored(writer, data, before)
  {
    hide Stored, Errors;
    WriteStep(writer, data, before, one);
    var via := Find(one.subs, VIA);
    if via.Some? && via.value.value.Some? {
      assert via.value.value == Some(via.value.value.value);
    }
  }

  /** Each entry is tried once, on what the entries before it stored, and is then either among the reported or kept. */
  lemma {:induction false} EachIsTriedOnce(writer: Writer, data: Node, entries: seq<Node>)
    ensures var errors := Errors(writer, data, entries);
            && (forall i :: 0 <= i < |entries| ==>
                  errors[i] == Try(writer, Stored(writer, data, entries[..i]), entries[i]).error)
            && multiset(Chosen(entries, errors, true)) + multiset(Chosen(entries, errors, false)) == multiset(entries)
    decreases |entries|
  {
    hide Stored, Chosen, Try;
    ChosenSplit(entries, Errors(writer, data, entries));
    if entries != [] {
      var before := entries[..|entries| - 1];
      EachIsTriedOnce(writer, data, before);
      forall i | 0 <= i < |before|
        ensures Errors(writer, data, entries)[i] == Try(writer, Stored(writer, data, entries[..i]), entries[i]).error
      {
        assert entries[..i] == before[..i];
      }
    }
  }

  lemma {:induction false} ChosenSplit(entries: seq<Node>, errors: seq<Option<nat>>)
    requires |errors| == |entries|
    ensures |Chosen(entries, errors, true)| + |Chosen(entries, errors, false)| == |entries|
    ensures multiset(Chosen(entries, errors, true)) + multiset(Chosen(entries, errors, false)) == multiset(entries)
    decreases |entries|
  {
    hide Chosen;
    if entries == [] {
      NothingChosen();
    } else {
      var n := |entries| - 1;
      var before, rest := entries[..n], errors[..n];
      ChosenSplit(before, rest);
      assert entries == before + [entries[n]] && errors == rest + [errors[n]];
      ChosenStep(before, rest, entries[n], errors[n], true);
      ChosenStep(before, rest, entries[n], errors[n], false);
    }
  }

  /** An entry that fails where it stands can be left out without any other entry noticing. */
  lemma {:induction false} FailureIsInvisible(writer: Writer, data: Node, a: seq<Node>, one: Node, b: seq<Node>)
    requires Try(writer, Stored(writer, data, a), one).error.Some?
    ensures Stored(writer, data, a + [one] + b) == Stored(writer, data, a + b)
    ensures Errors(writer, data, a + [one] + b)
         == Errors(writer, data, a) + [Try(writer, Stored(writer, data, a), one).error]
          + Errors(writer, Stored(writer, data, a), b)
  {
    hide Stored, Errors, Try;
    StoredInTwoParts(writer, data, a + [one], b);
    StoredInTwoParts(writer, data, a, b);
    WriteStep(writer, data, a, one);
  }
}
