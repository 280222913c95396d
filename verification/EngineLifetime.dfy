/** When the engines shared by a family of handles are released, over every interleaving of `cursor`
    and `close` on its handles, with engines registered and dropped meanwhile. */
module EngineLifetime {
  import opened Connection

  /** Handles are numbered in order of creation; `connect` makes handle 0. */
  datatype Event =
    | Cursor
    | Close(handle: nat)
    | Rebind(rack: set<nat>)   // the registry now holds these engines

  function Apply(f: Shared, e: Event): Shared {
    match e
    case Cursor => f.(live := f.live + 1)
    case Close(_) => HandleClosed(f)
    case Rebind(rack) => f.(rack := rack)
  }

  /** What the family shares after a run that starts with `connect`. */
  function After(run: seq<Event>): Shared {
    if run == [] then Shared(1, {}, multiset{}) else Apply(After(run[..|run| - 1]), run[|run| - 1])
  }

  // ---- the run, told in terms of handles ----------------------------------------

  function Created(run: seq<Event>): nat {
    if run == [] then 1 else Created(run[..|run| - 1]) + (if run[|run| - 1].Cursor? then 1 else 0)
  }

  function ClosedHandles(run: seq<Event>): set<nat> {
    if run == [] then {}
    else ClosedHandles(run[..|run| - 1]) + (if run[|run| - 1].Close? then {run[|run| - 1].handle} else {})
  }

  function OpenHandles(run: seq<Event>): set<nat> {
    set h | 0 <= h < Created(run) && h !in ClosedHandles(run)
  }

  /** Closes of a handle that was closed before. */
  function Repeats(run: seq<Event>): nat {
    if run == [] then 0
    else
      var before, e := run[..|run| - 1], run[|run| - 1];
      Repeats(before) + (if e.Close? && e.handle in ClosedHandles(before) then 1 else 0)
  }

  /** Only handles that exist are closed. */
  predicate Wellformed(run: seq<Event>) {
    forall i | 0 <= i < |run| && run[i].Close? :: run[i].handle < Created(run[..i])
  }

  lemma {:induction false} WellformedBefore(run: seq<Event>)
    requires run != [] && Wellformed(run)
    ensures Wellformed(run[..|run| - 1])
    ensures run[|run| - 1].Close? ==> run[|run| - 1].handle < Created(run[..|run| - 1])
  {
    var before := run[..|run| - 1];
    forall i | 0 <= i < |before| && before[i].Close? ensures before[i].handle < Created(before[..i]) {
      assert before[..i] == run[..i] && before[i] == run[i];
    }
  }

  lemma FirstHandle()
    ensures OpenHandles([]) == {0}
  {
    assert Created([]) == 1 && ClosedHandles([]) == {};
  }

  lemma {:induction false} OpenStep(run: seq<Event>)
    requires run != [] && Wellformed(run)
    ensures
      var before, e := run[..|run| - 1], run[|run| - 1];
      OpenHandles(run) ==
        match e
        case Cursor => OpenHandles(before) + {Created(before)}
        case Close(h) => OpenHandles(before) - {h}
        case Rebind(_) => OpenHandles(before)
  {
    WellformedBefore(run);
    var before, e := run[..|run| - 1], run[|run| - 1];
    ClosedExist(before);
    match e
    case Cursor =>
      assert Created(run) == Created(before) + 1;
      assert forall h :: h in OpenHandles(run) <==> h in OpenHandles(before) || h == Created(before);
    case Close(h) =>
      assert ClosedHandles(run) == ClosedHandles(before) + {h} && Created(run) == Created(before);
      assert forall k :: k in OpenHandles(run) <==> k in OpenHandles(before) && k != h;
    case Rebind(_) =>
      assert ClosedHandles(run) == ClosedHandles(before) && Created(run) == Created(before);
  }

  lemma {:induction false} ClosedExist(run: seq<Event>)
    requires Wellformed(run)
    ensures forall h | h in ClosedHandles(run) :: h < Created(run)
    decreases |run|
  {
    if run != [] {
      WellformedBefore(run);
      ClosedExist(run[..|run| - 1]);
    }
  }

  /** Over every run, the shared count is the number of open handles less the repeated closes. */
  lemma {:induction false} CountIsOpenLessRepeats(run: seq<Event>)
    requires Wellformed(run)
    ensures After(run).live == |OpenHandles(run)| - Repeats(run)
    decreases |run|
  {
    if run == [] {
      FirstHandle();
    } else {
      var before := run[..|run| - 1];
      WellformedBefore(run);
      CountIsOpenLessRepeats(before);
      OpenStep(run);
      ClosedExist(before);
      assert Created(before) !in OpenHandles(before);
      if run[|run| - 1].Close? {
        assert run[|run| - 1].handle in OpenHandles(before) <==> run[|run| - 1].handle !in ClosedHandles(before);
      }
    }
  }

  /** A close tells every registered engine to close exactly when no more handles are open than
      closes were repeated; otherwise no engine is touched. */
  lemma CloseReleases(run: seq<Event>)
    requires Wellformed(run) && run != [] && run[|run| - 1].Close?
    ensures
      var before := After(run[..|run| - 1]);
      After(run).closed ==
        (if |OpenHandles(run)| <= Repeats(run) then before.closed + multiset(before.rack) else before.closed)
  {
    CountIsOpenLessRepeats(run);
  }

  lemma Snoc(run: seq<Event>, e: Event)
    ensures After(run + [e]) == Apply(After(run), e)
    ensures Created(run + [e]) == Created(run) + (if e.Cursor? then 1 else 0)
    ensures ClosedHandles(run + [e]) == ClosedHandles(run) + (if e.Close? then {e.handle} else {})
    ensures Wellformed(run) && (e.Close? ==> e.handle < Created(run)) ==> Wellformed(run + [e])
  {
    var more := run + [e];
    assert more[..|more| - 1] == run;
    if Wellformed(run) && (e.Close? ==> e.handle < Created(run)) {
      forall i | 0 <= i < |more| && more[i].Close? ensures more[i].handle < Created(more[..i]) {
        assert more[..i] == run[..i];
        assert run[..|run|] == run;
      }
    }
  }

  /** So with a repeated close the engines go under a handle that is still open: whatever engine
      is registered, closing the one cursor twice closes it under the parent. */
  lemma RepeatedCloseReleasesEarly(engine: nat)
    ensures
      var run := [Rebind({engine})] + [Cursor] + [Close(1)] + [Close(1)];
      && Wellformed(run)
      && OpenHandles(run) == {0}
      && After(run).closed == multiset{engine}
  {
    var r1 := [Rebind({engine})];
    Snoc([], Rebind({engine}));
    assert [] + [Rebind({engine})] == r1;
    Snoc(r1, Cursor);
    Snoc(r1 + [Cursor], Close(1));
    Snoc(r1 + [Cursor] + [Close(1)], Close(1));
  }

  // ---- used as documented -----------------------------------------------------------

  /** No handle is closed twice, and none is made once all are closed. */
  predicate Proper(run: seq<Event>) {
    && Wellformed(run)
    && (forall i | 0 <= i < |run| && run[i].Close? :: run[i].handle !in ClosedHandles(run[..i]))
    && (forall i | 0 <= i < |run| && run[i].Cursor? :: OpenHandles(run[..i]) != {})
  }

  lemma {:induction false} ProperBefore(run: seq<Event>)
    requires run != [] && Proper(run)
    ensures Proper(run[..|run| - 1])
    ensures run[|run| - 1].Close? ==> run[|run| - 1].handle in OpenHandles(run[..|run| - 1])
    ensures run[|run| - 1].Cursor? ==> OpenHandles(run[..|run| - 1]) != {}
  {
    WellformedBefore(run);
    var before := run[..|run| - 1];
    forall i | 0 <= i < |before| && before[i].Close? ensures before[i].handle !in ClosedHandles(before[..i]) {
      assert before[..i] == run[..i] && before[i] == run[i];
    }
    forall i | 0 <= i < |before| && before[i].Cursor? ensures OpenHandles(before[..i]) != {} {
      assert before[..i] == run[..i] && before[i] == run[i];
    }
  }

  lemma {:induction false} NoRepeats(run: seq<Event>)
    requires Proper(run)
    ensures Repeats(run) == 0
    decreases |run|
  {
    if run != [] {
      ProperBefore(run);
      NoRepeats(run[..|run| - 1]);
    }
  }

  /** The engines registered at the last close. */
  function RackAtLastClose(run: seq<Event>): set<nat> {
    if run == [] then {}
    else if run[|run| - 1].Close? then After(run[..|run| - 1]).rack
    else RackAtLastClose(run[..|run| - 1])
  }

  /** While any handle is open no engine has been told to close; once the last one closes, every
      engine registered then has been told so exactly once, for good. */
  lemma {:induction false} ReleasedOnceByTheLast(run: seq<Event>)
    requires Proper(run)
    ensures OpenHandles(run) != {} ==> After(run).closed == multiset{}
    ensures OpenHandles(run) == {} ==> After(run).closed == multiset(RackAtLastClose(run))
    decreases |run|
  {
    if run == [] {
      FirstHandle();
    } else {
      var before, e := run[..|run| - 1], run[|run| - 1];
      ProperBefore(run);
      ReleasedOnceByTheLast(before);
      OpenStep(run);
      NoRepeats(run);
      if e.Close? {
        CloseReleases(run);
      }
      if e.Cursor? {
        assert Created(before) in OpenHandles(run);
      }
    }
  }
}
