/** Maximum bipartite matching by augmenting paths, as the cross-check runs it on the float
    columns of one key group. `matched[j]` is the row holding column j, or -1; `seen` marks the
    columns one top-level search has already tried. */
module Augmenting {
  import opened Pairing

  /** Every held column is compatible with the row that holds it. */
  ghost predicate Holding(c: seq<seq<bool>>, m: nat, matched: seq<int>)
    requires Table(c, m)
  {
    && |matched| == m
    && (forall j | 0 <= j < m :: -1 <= matched[j] < |c|)
    && (forall j | 0 <= j < m && matched[j] >= 0 :: c[matched[j]][j])
  }

  /** No row holds two of the columns outside seen. */
  ghost predicate DistinctOff(matched: seq<int>, seen: seq<bool>)
    requires |matched| == |seen|
  {
    forall j, k | 0 <= j < k < |matched| && !seen[j] && !seen[k] && matched[j] >= 0 ::
      matched[j] != matched[k]
  }

  /** Row r holds some column outside seen. */
  ghost predicate HeldOff(matched: seq<int>, seen: seq<bool>, r: int)
    requires |matched| == |seen|
  {
    exists j :: 0 <= j < |matched| && !seen[j] && matched[j] == r
  }

  ghost function Unseen(seen: seq<bool>): set<nat> {
    set j | j in Below(|seen|) && !seen[j]
  }

  /** Columns newly marked by a failed search are held by rows with no way out of the marks. */
  ghost predicate Trapped(c: seq<seq<bool>>, m: nat, matched: seq<int>, before: seq<bool>, after: seq<bool>)
    requires Table(c, m) && Holding(c, m, matched) && |before| == |after| == m
  {
    forall j | 0 <= j < m && after[j] && !before[j] ::
      matched[j] >= 0 && forall k | 0 <= k < m && c[matched[j]][k] :: after[k]
  }

  /** Moving the holder of column j elsewhere and giving j to row i adds exactly row i. */
  lemma Rerouted(old0: seq<int>, new1: seq<int>, seen0: seq<bool>, seen1: seq<bool>, j: nat, i: nat)
    requires |old0| == |new1| == |seen0| == |seen1| && j < |old0|
    requires !seen0[j] && seen1[j] && old0[j] >= 0
    requires forall k | 0 <= k < |seen0| && seen0[k] :: seen1[k]
    requires forall k | 0 <= k < |seen0| && seen1[k] :: new1[k] == old0[k]
    requires DistinctOff(old0, seen0) && !HeldOff(old0, seen0, i)
    requires DistinctOff(new1, seen1)
    requires forall r | r >= 0 :: HeldOff(new1, seen1, r) <==> r == old0[j] || HeldOff(old0, seen1, r)
    ensures DistinctOff(new1[j := i], seen0)
    ensures forall r | r >= 0 :: HeldOff(new1[j := i], seen0, r) <==> r == i || HeldOff(old0, seen0, r)
  {
    var new2 := new1[j := i];
    forall k, l | 0 <= k < |new2| && 0 <= l < |new2| && k != l && !seen0[k] && !seen0[l] && new2[k] >= 0
      ensures new2[k] != new2[l]
    {
      if !seen1[k] && !seen1[l] {
      } else if k != j && l != j {
        if seen1[k] && seen1[l] {
        } else {
          // one column moved, the other stayed: a clash would be a clash before the move
          var moved := if seen1[k] then l else k;
          if new2[k] == new2[l] {
            assert HeldOff(new1, seen1, new1[moved]);
          }
        }
      } else {
        var other := if k == j then l else k;
        assert !HeldOff(old0, seen1, i) && old0[j] != i;
        assert !HeldOff(new1, seen1, i);
      }
    }
    forall r | r >= 0
      ensures HeldOff(new2, seen0, r) <==> r == i || HeldOff(old0, seen0, r)
    {
      RowsAfterReroute(old0, new1, seen0, seen1, j, i, r);
    }
  }

  lemma RowsAfterReroute(old0: seq<int>, new1: seq<int>, seen0: seq<bool>, seen1: seq<bool>, j: nat, i: nat, r: int)
    requires |old0| == |new1| == |seen0| == |seen1| && j < |old0| && r >= 0
    requires !seen0[j] && seen1[j] && old0[j] >= 0
    requires forall k | 0 <= k < |seen0| && seen0[k] :: seen1[k]
    requires forall k | 0 <= k < |seen0| && seen1[k] :: new1[k] == old0[k]
    requires HeldOff(new1, seen1, r) <==> r == old0[j] || HeldOff(old0, seen1, r)
    ensures HeldOff(new1[j := i], seen0, r) <==> r == i || HeldOff(old0, seen0, r)
  {
    var new2 := new1[j := i];
    if HeldOff(new2, seen0, r) {
      var k :| 0 <= k < |new2| && !seen0[k] && new2[k] == r;
      if !seen1[k] {
        assert HeldOff(new1, seen1, r);
      }
    }
    if r == i {
      assert new2[j] == i;
    } else if HeldOff(old0, seen0, r) {
      var k :| 0 <= k < |old0| && !seen0[k] && old0[k] == r;
      if seen1[k] && k != j {
        assert new2[k] == r;
      } else {
        assert HeldOff(new1, seen1, r);
        var l :| 0 <= l < |new1| && !seen1[l] && new1[l] == r;
        assert new2[l] == r;
      }
    }
  }

  /** Giving a free column to row i adds exactly row i. */
  lemma Placed(matched: seq<int>, seen: seq<bool>, j: nat, i: nat)
    requires |matched| == |seen| && j < |matched| && !seen[j] && matched[j] == -1
    requires DistinctOff(matched, seen) && !HeldOff(matched, seen, i)
    ensures DistinctOff(matched[j := i], seen)
    ensures forall r | r >= 0 :: HeldOff(matched[j := i], seen, r) <==> r == i || HeldOff(matched, seen, r)
  {
    forall r | r >= 0
      ensures HeldOff(matched[j := i], seen, r) <==> r == i || HeldOff(matched, seen, r)
    {
      if r == i {
        assert matched[j := i][j] == r;
      } else if HeldOff(matched, seen, r) {
        var k :| 0 <= k < |matched| && !seen[k] && matched[k] == r;
        assert matched[j := i][k] == r;
      }
    }
  }

  lemma HoldingUpdated(c: seq<seq<bool>>, m: nat, matched: seq<int>, j: nat, i: nat)
    requires Table(c, m) && Holding(c, m, matched) && j < m && i < |c| && c[i][j]
    ensures Holding(c, m, matched[j := i])
  {
  }

  /** Marking a held column leaves its row unheld off the marks, and fewer columns to try. */
  lemma MarkStep(matched: seq<int>, seen0: seq<bool>, seen1: seq<bool>, j: nat, r: int)
    requires |matched| == |seen0| == |seen1| && j < |matched| && !seen0[j] && seen1[j] && matched[j] == r >= 0
    requires forall k | 0 <= k < |seen0| && seen0[k] :: seen1[k]
    requires DistinctOff(matched, seen0)
    ensures DistinctOff(matched, seen1) && !HeldOff(matched, seen1, r)
    ensures Unseen(seen1) < Unseen(seen0)
  {
    assert j in Unseen(seen0) && j !in Unseen(seen1);
  }

  /** A failed search from the holder of column j keeps every newly marked column trapped. */
  lemma TrappedGrows(c: seq<seq<bool>>, m: nat, matched: seq<int>, seen0: seq<bool>, seen: seq<bool>, j: nat, after: seq<bool>)
    requires Table(c, m) && Holding(c, m, matched) && |seen0| == |seen| == |after| == m && j < m
    requires Trapped(c, m, matched, seen0, seen) && matched[j] >= 0
    requires Trapped(c, m, matched, seen[j := true], after)
    requires forall k | 0 <= k < m && seen[j := true][k] :: after[k]
    requires forall k | 0 <= k < m && c[matched[j]][k] :: after[k]
    ensures Trapped(c, m, matched, seen0, after)
  {
    forall k | 0 <= k < m && after[k] && !seen0[k]
      ensures matched[k] >= 0 && forall l | 0 <= l < m && c[matched[k]][l] :: after[l]
    {
      if seen[k] {
      } else if k == j {
      } else {
        assert !seen[j := true][k];
      }
    }
  }

  /** Tries to give row i a column outside `seen`, moving earlier rows along if need be.
      A success adds row i to the rows served and drops none; a failure changes no assignment and
      leaves `seen` closed under every way out. */
  method Augment(c: seq<seq<bool>>, m: nat, i: nat, matched: array<int>, seen: array<bool>) returns (ok: bool)
    requires Table(c, m) && i < |c| && matched.Length == m && seen.Length == m
    requires Holding(c, m, matched[..]) && DistinctOff(matched[..], seen[..])
    requires !HeldOff(matched[..], seen[..], i)
    modifies matched, seen
    ensures Holding(c, m, matched[..])
    ensures forall j | 0 <= j < m && old(seen[j]) :: seen[j] && matched[j] == old(matched[j])
    ensures ok ==> DistinctOff(matched[..], old(seen[..]))
    ensures ok ==> forall r | r >= 0 ::
      HeldOff(matched[..], old(seen[..]), r) <==> r == i || HeldOff(old(matched[..]), old(seen[..]), r)
    ensures !ok ==> matched[..] == old(matched[..])
    ensures !ok ==> forall j | 0 <= j < m && c[i][j] :: seen[j]
    ensures !ok ==> Trapped(c, m, matched[..], old(seen[..]), seen[..])
    decreases Unseen(seen[..])
  {
    ghost var matched0, seen0 := matched[..], seen[..];
    for j := 0 to m
      invariant matched[..] == matched0
      invariant forall k | 0 <= k < m && seen0[k] :: seen[k]
      invariant forall k | 0 <= k < j && c[i][k] :: seen[k]
      invariant Trapped(c, m, matched0, seen0, seen[..])
    {
      if c[i][j] && !seen[j] {
        ghost var tried := seen[..];
        seen[j] := true;
        ghost var seen1 := seen[..];
        assert seen1 == tried[j := true];
        assert matched[j] == matched0[j];
        if matched[j] == -1 {
          Placed(matched0, seen0, j, i);
          HoldingUpdated(c, m, matched0, j, i);
          matched[j] := i;
          assert matched[..] == matched0[j := i];
          return true;
        }
        MarkStep(matched0, seen0, seen1, j, matched0[j]);
        var moved := Augment(c, m, matched[j], matched, seen);
        ghost var matched1 := matched[..];
        if moved {
          assert forall k | 0 <= k < m && seen1[k] :: matched1[k] == matched0[k];
          Rerouted(matched0, matched1, seen0, seen1, j, i);
          HoldingUpdated(c, m, matched1, j, i);
          matched[j] := i;
          assert matched[..] == matched1[j := i];
          return true;
        }
        TrappedGrows(c, m, matched0, seen0, tried, j, seen[..]);
      }
    }
    ok := false;
  }

  /** Whether every row of c can have a column of its own: one top-level search per row, each with
      fresh marks, stopping at the first that fails. On failure `stuck` is a set of rows with too
      few compatible columns between them. */
  method MatchAll(c: seq<seq<bool>>, m: nat) returns (ok: bool, ghost stuck: set<nat>)
    requires Table(c, m)
    ensures ok <==> Saturable(c, m)
    ensures !ok ==> HallViolator(c, m, stuck)
  {
    stuck := {};
    var matched := new int[m](_ => -1);
    var i := 0;
    while i < |c|
      invariant 0 <= i <= |c|
      invariant Holding(c, m, matched[..])
      invariant DistinctOff(matched[..], NoMarks(m))
      invariant forall r | r >= 0 :: HeldOff(matched[..], NoMarks(m), r) <==> r < i
    {
      var seen := new bool[m](_ => false);
      assert seen[..] == NoMarks(m);
      var found := Augment(c, m, i, matched, seen);
      if !found {
        stuck := StuckRows(matched[..], seen[..], i);
        StuckViolatesHall(c, m, matched[..], seen[..], i);
        HallViolatorRefutes(c, m, stuck);
        return false, stuck;
      }
      i := i + 1;
    }
    AllServed(c, m, matched[..]);
    return true, stuck;
  }

  ghost function NoMarks(m: nat): seq<bool> {
    seq(m, _ => false)
  }

  ghost function StuckRows(matched: seq<int>, seen: seq<bool>, i: nat): set<nat>
    requires |matched| == |seen|
  {
    {i} + set j | j in Below(|seen|) && seen[j] && matched[j] >= 0 :: matched[j] as nat
  }

  ghost function Marked(seen: seq<bool>): set<nat> {
    set j | j in Below(|seen|) && seen[j]
  }

  lemma {:induction false} HoldersCount(matched: seq<int>, cols: set<nat>, i: nat)
    requires forall j | j in cols :: j < |matched| && matched[j] >= 0 && matched[j] != i
    requires forall j, k | j in cols && k in cols && j != k :: matched[j] != matched[k]
    ensures |{i} + set j | j in cols :: matched[j] as nat| == |cols| + 1
    decreases cols
  {
    if cols != {} {
      var x :| x in cols;
      HoldersCount(matched, cols - {x}, i);
      var rest := {i} + set j | j in cols - {x} :: matched[j] as nat;
      assert ({i} + set j | j in cols :: matched[j] as nat) == rest + {matched[x] as nat};
    }
  }

  /** The rows of a failed top-level search are compatible with marked columns only. */
  lemma StuckNeighboursMarked(c: seq<seq<bool>>, m: nat, matched: seq<int>, seen: seq<bool>, i: nat)
    requires Table(c, m) && Holding(c, m, matched) && |seen| == m && i < |c|
    requires forall j | 0 <= j < m && c[i][j] :: seen[j]
    requires Trapped(c, m, matched, NoMarks(m), seen)
    ensures Neighbours(c, m, StuckRows(matched, seen, i)) <= Marked(seen)
  {
    forall j | j in Neighbours(c, m, StuckRows(matched, seen, i))
      ensures j in Marked(seen)
    {
      var r :| r in StuckRows(matched, seen, i) && r < |c| && c[r][j];
      if r != i {
        var k :| 0 <= k < m && seen[k] && matched[k] == r;
        assert !NoMarks(m)[k];
      }
    }
  }

  /** Every marked column is held, by another row each and never by row i. */
  lemma StuckRowsCount(c: seq<seq<bool>>, m: nat, matched: seq<int>, seen: seq<bool>, i: nat)
    requires Table(c, m) && Holding(c, m, matched) && |seen| == m
    requires DistinctOff(matched, NoMarks(m)) && !HeldOff(matched, NoMarks(m), i)
    requires Trapped(c, m, matched, NoMarks(m), seen)
    ensures |StuckRows(matched, seen, i)| == |Marked(seen)| + 1
  {
    var cols := Marked(seen);
    forall j | j in cols
      ensures matched[j] >= 0 && matched[j] != i
    {
      assert !NoMarks(m)[j];
    }
    forall j, k | j in cols && k in cols && j != k
      ensures matched[j] != matched[k]
    {
      assert !NoMarks(m)[j] && !NoMarks(m)[k];
    }
    HoldersCount(matched, cols, i);
    assert StuckRows(matched, seen, i) == {i} + set j | j in cols :: matched[j] as nat;
  }

  /** The marks left by a failed top-level search give a Hall violator. */
  lemma StuckViolatesHall(c: seq<seq<bool>>, m: nat, matched: seq<int>, seen: seq<bool>, i: nat)
    requires Table(c, m) && Holding(c, m, matched) && |seen| == m && i < |c|
    requires DistinctOff(matched, NoMarks(m)) && !HeldOff(matched, NoMarks(m), i)
    requires forall j | 0 <= j < m && c[i][j] :: seen[j]
    requires Trapped(c, m, matched, NoMarks(m), seen)
    ensures HallViolator(c, m, StuckRows(matched, seen, i))
  {
    StuckNeighboursMarked(c, m, matched, seen, i);
    SubsetSize(Neighbours(c, m, StuckRows(matched, seen, i)), Marked(seen));
    StuckRowsCount(c, m, matched, seen, i);
  }

  /** Columns held by all rows, read the other way round, saturate the table. */
  lemma AllServed(c: seq<seq<bool>>, m: nat, matched: seq<int>)
    requires Table(c, m) && Holding(c, m, matched)
    requires forall r | r >= 0 :: HeldOff(matched, NoMarks(m), r) <==> r < |c|
    ensures Saturable(c, m)
  {
    forall i | 0 <= i < |c|
      ensures i in matched
    {
      assert HeldOff(matched, NoMarks(m), i);
    }
    var f := seq(|c|, i requires 0 <= i < |c| => PositionOf(matched, i));
    assert Saturates(c, m, f);
  }
}
