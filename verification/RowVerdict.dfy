/** Multiset comparison of rows: rows are grouped by their exact columns, and inside each group the
    float columns are matched one-to-one within tolerance. */
module RowVerdict {
  import opened Pairing
  import opened Cells
  import opened SortedMatch
  import opened Blocks

  /** The exact columns in ascending order, and the float columns in the order their set is
      enumerated in. */
  datatype Columns = Columns(exact: seq<nat>, floats: seq<nat>)

  ghost predicate IsFloatColumn(rows: seq<Row>, i: nat) {
    exists r :: 0 <= r < |rows| && i < |rows[r]| && rows[r][i].IsFloat()
  }

  /** The columns holding a genuine float in some row of either side. */
  ghost predicate FloatIn(a: seq<Row>, b: seq<Row>, i: nat) {
    IsFloatColumn(a, i) || IsFloatColumn(b, i)
  }

  /** What two rows must satisfy to stand for each other: equal on exact columns, close on floats. */
  ghost predicate RowMatch(r: Row, s: Row, floats: set<nat>, tol: real)
    requires |r| == |s|
  {
    forall i | 0 <= i < |r| :: if i in floats then FloatClose(r[i], s[i], tol) else r[i] == s[i]
  }

  ghost function FloatSet(a: seq<Row>, b: seq<Row>, n: nat): set<nat> {
    set i | i in Below(n) && FloatIn(a, b, i)
  }

  ghost function RowCompat(a: seq<Row>, b: seq<Row>, n: nat, floats: set<nat>, tol: real): (c: seq<seq<bool>>)
    requires Width(a, n) && Width(b, n)
    ensures |c| == |a| && Table(c, |b|)
    ensures forall i, j | 0 <= i < |a| && 0 <= j < |b| :: c[i][j] == RowMatch(a[i], b[j], floats, tol)
  {
    seq(|a|, i requires 0 <= i < |a| =>
      seq(|b|, j requires 0 <= j < |b| => RowMatch(a[i], b[j], floats, tol)))
  }

  /** Every row of a has a matching row of b of its own. */
  ghost predicate RowsContained(a: seq<Row>, b: seq<Row>, n: nat, tol: real)
    requires Width(a, n) && Width(b, n)
  {
    Saturable(RowCompat(a, b, n, FloatSet(a, b, n), tol), |b|)
  }

  /** The rows of a and b match one-to-one. */
  ghost predicate RowsEqual(a: seq<Row>, b: seq<Row>, n: nat, tol: real)
    requires Width(a, n) && Width(b, n)
  {
    |a| == |b| && RowsContained(a, b, n, tol)
  }

  // ---- columns -------------------------------------------------------------

  ghost predicate Splits(cols: Columns, n: nat, floats: set<nat>) {
    && (forall k | 0 <= k < |cols.exact| :: cols.exact[k] < n && cols.exact[k] !in floats)
    && (forall k | 0 <= k < |cols.floats| :: cols.floats[k] < n && cols.floats[k] in floats)
    && (forall i | 0 <= i < n :: if i in floats then i in cols.floats else i in cols.exact)
    && |cols.floats| == |floats|
  }

  function Project(r: Row, idx: seq<nat>): (p: Row)
    requires forall k | 0 <= k < |idx| :: idx[k] < |r|
    ensures |p| == |idx| && forall k | 0 <= k < |idx| :: p[k] == r[idx[k]]
  {
    seq(|idx|, k requires 0 <= k < |idx| => r[idx[k]])
  }

  predicate Fits(rows: seq<Row>, n: nat, cols: Columns) {
    && (forall i | 0 <= i < |rows| :: |rows[i]| == n)
    && (forall k | 0 <= k < |cols.exact| :: cols.exact[k] < n)
    && (forall k | 0 <= k < |cols.floats| :: cols.floats[k] < n)
  }

  /** A row match is a key match plus a float-vector match. */
  lemma RowMatchSplits(r: Row, s: Row, n: nat, cols: Columns, floats: set<nat>, tol: real)
    requires |r| == |s| == n && Splits(cols, n, floats)
    ensures RowMatch(r, s, floats, tol) <==>
      Project(r, cols.exact) == Project(s, cols.exact)
      && VecClose(Project(r, cols.floats), Project(s, cols.floats), tol)
  {
    var kr, ks := Project(r, cols.exact), Project(s, cols.exact);
    var vr, vs := Project(r, cols.floats), Project(s, cols.floats);
    if kr == ks && VecClose(vr, vs, tol) {
      forall i | 0 <= i < n
        ensures if i in floats then FloatClose(r[i], s[i], tol) else r[i] == s[i]
      {
        if i in floats {
          var k := PositionOf(cols.floats, i);
          assert FloatClose(vr[k], vs[k], tol);
        } else {
          var k := PositionOf(cols.exact, i);
          assert kr[k] == ks[k];
        }
      }
    }
  }

  // ---- groups ----------------------------------------------------------------

  ghost function KeyList(rows: seq<Row>, n: nat, cols: Columns): (ks: seq<Row>)
    requires Fits(rows, n, cols)
    ensures |ks| == |rows|
  {
    seq(|rows|, i requires 0 <= i < |rows| => Project(rows[i], cols.exact))
  }

  /** Float vectors of the rows with key k, in order. */
  ghost function GroupOf(rows: seq<Row>, n: nat, cols: Columns, k: Row): seq<Row>
    requires Fits(rows, n, cols)
  {
    if rows == [] then []
    else
      var last := |rows| - 1;
      GroupOf(rows[..last], n, cols, k) +
      (if Project(rows[last], cols.exact) == k then [Project(rows[last], cols.floats)] else [])
  }

  ghost function Keys(rows: seq<Row>, n: nat, cols: Columns): set<Row>
    requires Fits(rows, n, cols)
  {
    if rows == [] then {}
    else
      var last := |rows| - 1;
      Keys(rows[..last], n, cols) + {Project(rows[last], cols.exact)}
  }

  lemma {:induction false} GroupMeans(rows: seq<Row>, n: nat, cols: Columns, k: Row)
    requires Fits(rows, n, cols)
    ensures |GroupOf(rows, n, cols, k)| == |PositionsOf(KeyList(rows, n, cols), k)|
    ensures forall l | 0 <= l < |GroupOf(rows, n, cols, k)| ::
      PositionsOf(KeyList(rows, n, cols), k)[l] < |rows| &&
      GroupOf(rows, n, cols, k)[l] == Project(rows[PositionsOf(KeyList(rows, n, cols), k)[l]], cols.floats)
  {
    if rows != [] {
      var last := |rows| - 1;
      assert KeyList(rows, n, cols)[..last] == KeyList(rows[..last], n, cols);
      GroupMeans(rows[..last], n, cols, k);
    }
  }

  lemma GroupWidth(rows: seq<Row>, n: nat, cols: Columns, k: Row)
    requires Fits(rows, n, cols)
    ensures Width(GroupOf(rows, n, cols, k), |cols.floats|)
  {
    GroupMeans(rows, n, cols, k);
  }

  lemma {:induction false} KeysMeans(rows: seq<Row>, n: nat, cols: Columns, k: Row)
    requires Fits(rows, n, cols)
    ensures k in Keys(rows, n, cols) <==> GroupOf(rows, n, cols, k) != []
  {
    if rows != [] {
      KeysMeans(rows[..|rows| - 1], n, cols, k);
    }
  }

  lemma GroupStep(rows: seq<Row>, n: nat, cols: Columns, i: nat, k: Row)
    requires Fits(rows, n, cols) && i < |rows|
    ensures Keys(rows[..i + 1], n, cols) == Keys(rows[..i], n, cols) + {Project(rows[i], cols.exact)}
    ensures GroupOf(rows[..i + 1], n, cols, k) ==
      GroupOf(rows[..i], n, cols, k) +
      (if Project(rows[i], cols.exact) == k then [Project(rows[i], cols.floats)] else [])
  {
    assert rows[..i + 1][..i] == rows[..i];
  }

  lemma GroupsGrow(rows: seq<Row>, n: nat, cols: Columns, i: nat, groups: map<Row, seq<Row>>)
    requires Fits(rows, n, cols) && i < |rows|
    requires groups.Keys == Keys(rows[..i], n, cols)
    requires forall k | k in groups :: groups[k] == GroupOf(rows[..i], n, cols, k)
    ensures
      var key, vec := Project(rows[i], cols.exact), Project(rows[i], cols.floats);
      var grown := groups[key := (if key in groups then groups[key] else []) + [vec]];
      && grown.Keys == Keys(rows[..i + 1], n, cols)
      && forall k | k in grown :: grown[k] == GroupOf(rows[..i + 1], n, cols, k)
  {
    var key, vec := Project(rows[i], cols.exact), Project(rows[i], cols.floats);
    GroupStep(rows, n, cols, i, key);
    KeysMeans(rows[..i], n, cols, key);
    var grown := groups[key := (if key in groups then groups[key] else []) + [vec]];
    forall k | k in grown
      ensures grown[k] == GroupOf(rows[..i + 1], n, cols, k)
    {
      GroupStep(rows, n, cols, i, k);
    }
  }

  /** Groups the float vectors of rows under their keys. */
  method Group(rows: seq<Row>, n: nat, cols: Columns) returns (groups: map<Row, seq<Row>>)
    requires Fits(rows, n, cols)
    ensures groups.Keys == Keys(rows, n, cols)
    ensures forall k | k in groups :: groups[k] == GroupOf(rows, n, cols, k)
  {
    groups := map[];
    var i := 0;
    while i < |rows|
      invariant 0 <= i <= |rows|
      invariant groups.Keys == Keys(rows[..i], n, cols)
      invariant forall k | k in groups :: groups[k] == GroupOf(rows[..i], n, cols, k)
    {
      var key, vec := Project(rows[i], cols.exact), Project(rows[i], cols.floats);
      GroupsGrow(rows, n, cols, i, groups);
      groups := groups[key := (if key in groups then groups[key] else []) + [vec]];
      i := i + 1;
    }
    assert rows[..i] == rows;
  }

  // ---- groups against the whole ------------------------------------------------

  /** Two whole tables of rows, with their columns split into exact and float ones. */
  ghost predicate Framed(a: seq<Row>, b: seq<Row>, n: nat, cols: Columns) {
    Fits(a, n, cols) && Fits(b, n, cols) && Splits(cols, n, FloatSet(a, b, n))
  }

  ghost function GroupCompat(a: seq<Row>, b: seq<Row>, n: nat, cols: Columns, k: Row, tol: real): (c: seq<seq<bool>>)
    requires Fits(a, n, cols) && Fits(b, n, cols)
    ensures Table(c, |GroupOf(b, n, cols, k)|)
  {
    GroupWidth(a, n, cols, k);
    GroupWidth(b, n, cols, k);
    Compat(GroupOf(a, n, cols, k), GroupOf(b, n, cols, k), |cols.floats|, tol)
  }

  ghost predicate GroupSaturable(a: seq<Row>, b: seq<Row>, n: nat, cols: Columns, k: Row, tol: real)
    requires Fits(a, n, cols) && Fits(b, n, cols)
  {
    Saturable(GroupCompat(a, b, n, cols, k, tol), |GroupOf(b, n, cols, k)|)
  }

  lemma LabelsAreKeys(a: seq<Row>, b: seq<Row>, n: nat, cols: Columns, tol: real)
    requires Framed(a, b, n, cols)
    ensures LabelsRespected(RowCompat(a, b, n, FloatSet(a, b, n), tol), KeyList(a, n, cols), KeyList(b, n, cols))
  {
    forall i, j | 0 <= i < |a| && 0 <= j < |b| && RowMatch(a[i], b[j], FloatSet(a, b, n), tol)
      ensures KeyList(a, n, cols)[i] == KeyList(b, n, cols)[j]
    {
      RowMatchSplits(a[i], b[j], n, cols, FloatSet(a, b, n), tol);
    }
  }

  /** The block of a key is the compatibility table of the two groups under that key. */
  lemma BlockIsGroup(a: seq<Row>, b: seq<Row>, n: nat, cols: Columns, k: Row, tol: real)
    requires Framed(a, b, n, cols)
    ensures LabelBlock(RowCompat(a, b, n, FloatSet(a, b, n), tol), KeyList(a, n, cols), KeyList(b, n, cols), k)
         == GroupCompat(a, b, n, cols, k, tol)
  {
    var ga, gb := GroupOf(a, n, cols, k), GroupOf(b, n, cols, k);
    var p, q := PositionsOf(KeyList(a, n, cols), k), PositionsOf(KeyList(b, n, cols), k);
    var c := RowCompat(a, b, n, FloatSet(a, b, n), tol);
    GroupMeans(a, n, cols, k);
    GroupMeans(b, n, cols, k);
    PositionsMean(KeyList(a, n, cols), k);
    PositionsMean(KeyList(b, n, cols), k);
    var c2 := LabelBlock(c, KeyList(a, n, cols), KeyList(b, n, cols), k);
    var c3 := GroupCompat(a, b, n, cols, k, tol);
    forall x, y | 0 <= x < |p| && 0 <= y < |q|
      ensures c2[x][y] == c3[x][y]
    {
      assert p[x] in p && q[y] in q;
      RowMatchSplits(a[p[x]], b[q[y]], n, cols, FloatSet(a, b, n), tol);
    }
    forall x | 0 <= x < |p|
      ensures c2[x] == c3[x]
    {
    }
  }

  lemma {:induction false} KeysAreLabels(rows: seq<Row>, n: nat, cols: Columns, k: Row)
    requires Fits(rows, n, cols)
    ensures k in Keys(rows, n, cols) <==> k in KeyList(rows, n, cols)
  {
    if rows != [] {
      var last := |rows| - 1;
      KeysAreLabels(rows[..last], n, cols, k);
      assert KeyList(rows, n, cols) == KeyList(rows[..last], n, cols) + [Project(rows[last], cols.exact)];
    }
  }

  /** Rows are contained when every key group is. */
  lemma ContainedGroupwise(a: seq<Row>, b: seq<Row>, n: nat, cols: Columns, tol: real)
    requires Framed(a, b, n, cols)
    ensures RowsContained(a, b, n, tol) <==>
      forall k | k in Keys(a, n, cols) :: GroupSaturable(a, b, n, cols, k, tol)
  {
    var la, lb := KeyList(a, n, cols), KeyList(b, n, cols);
    var c := RowCompat(a, b, n, FloatSet(a, b, n), tol);
    LabelsAreKeys(a, b, n, cols, tol);
    BlockwiseSaturable(c, la, lb);
    forall k
      ensures k in la <==> k in Keys(a, n, cols)
      ensures BlockSaturable(c, la, lb, k) <==> GroupSaturable(a, b, n, cols, k, tol)
    {
      KeysAreLabels(a, n, cols, k);
      BlockIsGroup(a, b, n, cols, k, tol);
      GroupMeans(b, n, cols, k);
    }
  }

  ghost predicate SameGroupSizes(a: seq<Row>, b: seq<Row>, n: nat, cols: Columns)
    requires Fits(a, n, cols) && Fits(b, n, cols)
  {
    forall k :: |GroupOf(a, n, cols, k)| == |GroupOf(b, n, cols, k)|
  }

  /** Equality is containment with equal group sizes. */
  lemma EqualGroupwise(a: seq<Row>, b: seq<Row>, n: nat, cols: Columns, tol: real)
    requires Framed(a, b, n, cols)
    ensures RowsEqual(a, b, n, tol) <==> RowsContained(a, b, n, tol) && SameGroupSizes(a, b, n, cols)
  {
    var la, lb := KeyList(a, n, cols), KeyList(b, n, cols);
    forall k
      ensures |GroupOf(a, n, cols, k)| == |PositionsOf(la, k)|
      ensures |GroupOf(b, n, cols, k)| == |PositionsOf(lb, k)|
    {
      GroupMeans(a, n, cols, k);
      GroupMeans(b, n, cols, k);
    }
    if RowsEqual(a, b, n, tol) {
      LabelsAreKeys(a, b, n, cols, tol);
      PerfectMatchingCounts(RowCompat(a, b, n, FloatSet(a, b, n), tol), la, lb);
    }
    if SameGroupSizes(a, b, n, cols) {
      assert SameCounts(la, lb) by {
        forall k
          ensures |PositionsOf(la, k)| == |PositionsOf(lb, k)|
        {
          assert |GroupOf(a, n, cols, k)| == |GroupOf(b, n, cols, k)|;
        }
      }
      SameCountsSameLength(la, lb);
    }
  }

  // ---- splitting the columns -----------------------------------------------------

  /** Indices of the columns holding a genuine float in any row. */
  method FloatColumns(rows: seq<Row>, n: nat) returns (floatish: set<nat>)
    requires Width(rows, n)
    ensures forall i: nat :: i in floatish <==> i < n && IsFloatColumn(rows, i)
  {
    floatish := {};
    var r := 0;
    while r < |rows|
      invariant 0 <= r <= |rows|
      invariant forall i: nat :: i in floatish <==> i < n && IsFloatColumn(rows[..r], i)
    {
      ghost var before := floatish;
      for i := 0 to n
        invariant forall c: nat :: c in floatish <==> c in before || (c < i && rows[r][c].IsFloat())
      {
        if rows[r][i].IsFloat() {
          floatish := floatish + {i};
        }
      }
      forall i | 0 <= i < n
        ensures IsFloatColumn(rows[..r + 1], i) <==> IsFloatColumn(rows[..r], i) || rows[r][i].IsFloat()
      {
        FloatColumnGrows(rows, n, r, i);
      }
      r := r + 1;
    }
    assert rows[..r] == rows;
  }

  lemma FloatColumnGrows(rows: seq<Row>, n: nat, r: nat, i: nat)
    requires Width(rows, n) && r < |rows| && i < n
    ensures IsFloatColumn(rows[..r + 1], i) <==> IsFloatColumn(rows[..r], i) || rows[r][i].IsFloat()
  {
    if x :| 0 <= x < r && rows[..r][x][i].IsFloat() {
      assert rows[..r + 1][x][i].IsFloat();
    }
    if rows[r][i].IsFloat() {
      assert rows[..r + 1][r][i].IsFloat();
    }
    if IsFloatColumn(rows[..r + 1], i) {
      var x :| 0 <= x < |rows[..r + 1]| && i < |rows[..r + 1][x]| && rows[..r + 1][x][i].IsFloat();
      assert x < r ==> rows[..r][x][i].IsFloat();
    }
  }

  /** The members of s in whatever order the set is walked. */
  method Walk(s: set<nat>) returns (q: seq<nat>)
    ensures |q| == |s| && forall c :: c in q <==> c in s
  {
    q := [];
    var todo := s;
    while todo != {}
      invariant todo <= s && |q| + |todo| == |s|
      invariant forall c :: c in q <==> c in s - todo
      decreases |todo|
    {
      var c :| c in todo;
      todo := todo - {c};
      q := q + [c];
    }
  }

  /** The exact columns in order, and the float columns in any order their set is walked in. */
  method SplitColumns(a: seq<Row>, b: seq<Row>, n: nat) returns (cols: Columns)
    requires Width(a, n) && Width(b, n)
    ensures Framed(a, b, n, cols)
  {
    var fa := FloatColumns(a, n);
    var fb := FloatColumns(b, n);
    var floatIdx := fa + fb;
    assert floatIdx == FloatSet(a, b, n);
    var exact: seq<nat> := [];
    for i := 0 to n
      invariant forall c: nat :: c in exact <==> c < i && c !in floatIdx
    {
      if i !in floatIdx {
        exact := exact + [i];
      }
    }
    var floats := Walk(floatIdx);
    cols := Columns(exact, floats);
    forall k | 0 <= k < |exact|
      ensures exact[k] < n && exact[k] !in floatIdx
    {
      assert exact[k] in exact;
    }
    forall k | 0 <= k < |floats|
      ensures floats[k] < n && floats[k] in floatIdx
    {
      assert floats[k] in floats;
    }
  }

  // ---- when the verdict is exact ---------------------------------------------------

  /** Two rows agree on every exact column. */
  ghost predicate SameKey(r: Row, s: Row, floats: set<nat>)
    requires |r| == |s|
  {
    forall i | 0 <= i < |r| && i !in floats :: r[i] == s[i]
  }

  /** The rows sharing the key of row j. */
  ghost function KeyTwins(b: seq<Row>, n: nat, floats: set<nat>, j: nat): set<nat>
    requires Width(b, n) && j < |b|
  {
    set l | l in Below(|b|) && SameKey(b[j], b[l], floats)
  }

  /** Float columns that hold only numbers, NaN and NULL. */
  ghost predicate NumericIn(rows: seq<Row>, n: nat, floats: set<nat>)
    requires Width(rows, n)
  {
    forall r, i | 0 <= r < |rows| && i in floats && i < n :: rows[r][i].Numeric()
  }

  /** The same rows twice; or no float columns; or numeric ones, if there is no tolerance or only one
      column; or several, with no key shared by more rows of b than the matcher takes. */
  ghost predicate DecidedExactlyOn(a: seq<Row>, b: seq<Row>, n: nat, tol: real)
    requires Width(a, n) && Width(b, n)
  {
    var floats := FloatSet(a, b, n);
    || a == b
    || |floats| == 0
    || (NumericIn(a, n, floats) && NumericIn(b, n, floats) && (tol <= 0.0 || (|floats| == 1 && tol < 1.0)))
    || (|floats| > 1 && forall j | 0 <= j < |b| :: |KeyTwins(b, n, floats, j)| <= EXACT_MATCH_CAP)
  }

  lemma SameKeyIsSameProjection(r: Row, s: Row, n: nat, cols: Columns, floats: set<nat>)
    requires |r| == |s| == n && Splits(cols, n, floats)
    ensures SameKey(r, s, floats) <==> Project(r, cols.exact) == Project(s, cols.exact)
  {
    var kr, ks := Project(r, cols.exact), Project(s, cols.exact);
    if kr == ks {
      forall i | 0 <= i < n && i !in floats
        ensures r[i] == s[i]
      {
        var k := PositionOf(cols.exact, i);
        assert kr[k] == ks[k];
      }
    }
  }

  lemma GroupSizeIsTwins(a: seq<Row>, b: seq<Row>, n: nat, cols: Columns, k: Row, j: nat)
    requires Framed(a, b, n, cols) && j < |b| && k == Project(b[j], cols.exact)
    ensures |GroupOf(b, n, cols, k)| == |KeyTwins(b, n, FloatSet(a, b, n), j)|
  {
    var p := PositionsOf(KeyList(b, n, cols), k);
    var floats := FloatSet(a, b, n);
    GroupMeans(b, n, cols, k);
    PositionsMean(KeyList(b, n, cols), k);
    ImageSize(p, |b|);
    forall l: nat
      ensures l in Image(p) <==> l in KeyTwins(b, n, floats, j)
    {
      if l < |b| {
        SameKeyIsSameProjection(b[j], b[l], n, cols, floats);
      }
    }
    assert Image(p) == KeyTwins(b, n, floats, j);
  }

  lemma GroupNumeric(rows: seq<Row>, n: nat, cols: Columns, floats: set<nat>, k: Row)
    requires Width(rows, n) && Fits(rows, n, cols) && Splits(cols, n, floats) && NumericIn(rows, n, floats)
    ensures NumericColumn(GroupOf(rows, n, cols, k))
  {
    GroupMeans(rows, n, cols, k);
  }

  /** On rows decided exactly, every key group is. */
  lemma GroupDecidedExactly(a: seq<Row>, b: seq<Row>, n: nat, cols: Columns, k: Row, tol: real)
    requires Framed(a, b, n, cols) && DecidedExactlyOn(a, b, n, tol) && |cols.floats| > 0
    requires k in Keys(b, n, cols)
    ensures DecidedExactly(GroupOf(a, n, cols, k), GroupOf(b, n, cols, k), |cols.floats|, tol)
  {
    var floats := FloatSet(a, b, n);
    if a == b {
    } else if NumericIn(a, n, floats) && NumericIn(b, n, floats) && (tol <= 0.0 || (|floats| == 1 && tol < 1.0)) {
      GroupNumeric(a, n, cols, floats, k);
      GroupNumeric(b, n, cols, floats, k);
    } else {
      KeysAreLabels(b, n, cols, k);
      var j := PositionOf(KeyList(b, n, cols), k);
      GroupSizeIsTwins(a, b, n, cols, k, j);
    }
  }

  lemma NoFloatsSaturable(a: seq<Row>, b: seq<Row>, n: nat, cols: Columns, k: Row, tol: real)
    requires Framed(a, b, n, cols) && |cols.floats| == 0
    requires |GroupOf(a, n, cols, k)| <= |GroupOf(b, n, cols, k)|
    ensures GroupSaturable(a, b, n, cols, k, tol)
  {
    GroupWidth(a, n, cols, k);
    GroupWidth(b, n, cols, k);
    var c := GroupCompat(a, b, n, cols, k, tol);
    assert Saturates(c, |GroupOf(b, n, cols, k)|, seq(|c|, i => i));
  }

  lemma OverfullGroup(a: seq<Row>, b: seq<Row>, n: nat, cols: Columns, k: Row, tol: real)
    requires Framed(a, b, n, cols) && |GroupOf(a, n, cols, k)| > |GroupOf(b, n, cols, k)|
    ensures !GroupSaturable(a, b, n, cols, k, tol)
  {
    GroupWidth(a, n, cols, k);
    GroupWidth(b, n, cols, k);
    TooManyRows(GroupCompat(a, b, n, cols, k, tol), |GroupOf(b, n, cols, k)|);
  }

  // ---- the two verdicts ----------------------------------------------------------------

  lemma EmptyVerdict(b: seq<Row>, n: nat, tol: real)
    requires Width(b, n)
    ensures RowsContained([], b, n, tol)
    ensures RowsEqual([], b, n, tol) <==> b == []
  {
    assert Saturates(RowCompat([], b, n, FloatSet([], b, n), tol), |b|, []);
  }

  /** As many vectors on both sides of a key, which match one-to-one. */
  ghost predicate GroupEqual(a: seq<Row>, b: seq<Row>, n: nat, cols: Columns, k: Row, tol: real)
    requires Framed(a, b, n, cols)
  {
    |GroupOf(a, n, cols, k)| == |GroupOf(b, n, cols, k)| && GroupSaturable(a, b, n, cols, k, tol)
  }

  /** Equality, key by key: the same keys, and under each as many vectors on both sides that match. */
  lemma EqualKeywise(a: seq<Row>, b: seq<Row>, n: nat, cols: Columns, tol: real)
    requires Framed(a, b, n, cols)
    ensures RowsEqual(a, b, n, tol) <==>
      && Keys(a, n, cols) == Keys(b, n, cols)
      && forall k | k in Keys(a, n, cols) :: GroupEqual(a, b, n, cols, k, tol)
  {
    EqualGroupwise(a, b, n, cols, tol);
    ContainedGroupwise(a, b, n, cols, tol);
    forall k
      ensures k in Keys(a, n, cols) <==> |GroupOf(a, n, cols, k)| > 0
      ensures k in Keys(b, n, cols) <==> |GroupOf(b, n, cols, k)| > 0
    {
      KeysMeans(a, n, cols, k);
      KeysMeans(b, n, cols, k);
    }
  }

  /** The float columns of two groups under one key, if there are any. */
  method MatchGroup(ghost a: seq<Row>, ghost b: seq<Row>, n: nat, cols: Columns, ghost k: Row, va: seq<Row>, vb: seq<Row>, tol: real)
    returns (ok: bool)
    requires Framed(a, b, n, cols) && k in Keys(b, n, cols)
    requires va == GroupOf(a, n, cols, k) && vb == GroupOf(b, n, cols, k) && |va| == |vb|
    ensures ok ==> GroupSaturable(a, b, n, cols, k, tol)
    ensures DecidedExactlyOn(a, b, n, tol) ==> (ok <==> GroupSaturable(a, b, n, cols, k, tol))
  {
    if |cols.floats| == 0 {
      NoFloatsSaturable(a, b, n, cols, k, tol);
      return true;
    }
    GroupWidth(a, n, cols, k);
    GroupWidth(b, n, cols, k);
    if DecidedExactlyOn(a, b, n, tol) {
      GroupDecidedExactly(a, b, n, cols, k, tol);
    }
    ok := MatchFloatVecs(va, vb, |cols.floats|, tol);
  }

  /** The containment counterpart of MatchGroup. */
  method MatchGroupSubset(ghost a: seq<Row>, ghost b: seq<Row>, n: nat, cols: Columns, ghost k: Row, va: seq<Row>, vb: seq<Row>, tol: real)
    returns (ok: bool)
    requires Framed(a, b, n, cols) && k in Keys(b, n, cols)
    requires va == GroupOf(a, n, cols, k) && vb == GroupOf(b, n, cols, k) && |va| <= |vb|
    ensures ok ==> GroupSaturable(a, b, n, cols, k, tol)
    ensures DecidedExactlyOn(a, b, n, tol) ==> (ok <==> GroupSaturable(a, b, n, cols, k, tol))
  {
    if |cols.floats| == 0 {
      NoFloatsSaturable(a, b, n, cols, k, tol);
      return true;
    }
    GroupWidth(a, n, cols, k);
    GroupWidth(b, n, cols, k);
    if DecidedExactlyOn(a, b, n, tol) {
      GroupDecidedExactly(a, b, n, cols, k, tol);
    }
    ok := MatchFloatVecsSubset(va, vb, |cols.floats|, tol);
  }

  /** Multiset equality of rows: never accepts rows that do not match one-to-one, and accepts all
      that do wherever the float matching is exact. */
  method MultisetEqual(a: seq<Row>, b: seq<Row>, n: nat, tol: real) returns (ok: bool)
    requires Width(a, n) && Width(b, n)
    ensures ok ==> RowsEqual(a, b, n, tol)
    ensures DecidedExactlyOn(a, b, n, tol) ==> (ok <==> RowsEqual(a, b, n, tol))
  {
    if a == [] {
      EmptyVerdict(b, n, tol);
      return b == [];
    }
    var cols := SplitColumns(a, b, n);
    var groupsA := Group(a, n, cols);
    var groupsB := Group(b, n, cols);
    EqualKeywise(a, b, n, cols, tol);
    if groupsA.Keys != groupsB.Keys {
      return false;
    }
    var todo := groupsA.Keys;
    while todo != {}
      invariant todo <= groupsA.Keys
      invariant forall k | k in groupsA.Keys - todo :: GroupEqual(a, b, n, cols, k, tol)
      decreases |todo|
    {
      var k :| k in todo;
      todo := todo - {k};
      if |groupsA[k]| != |groupsB[k]| {
        assert !GroupEqual(a, b, n, cols, k, tol);
        return false;
      }
      var matched := MatchGroup(a, b, n, cols, k, groupsA[k], groupsB[k], tol);
      if !matched {
        return false;
      }
    }
    return true;
  }

  /** Multiset containment of rows. */
  method MultisetContained(a: seq<Row>, b: seq<Row>, n: nat, tol: real) returns (ok: bool)
    requires Width(a, n) && Width(b, n)
    ensures ok ==> RowsContained(a, b, n, tol)
    ensures DecidedExactlyOn(a, b, n, tol) ==> (ok <==> RowsContained(a, b, n, tol))
  {
    if a == [] {
      EmptyVerdict(b, n, tol);
      return true;
    }
    var cols := SplitColumns(a, b, n);
    var groupsA := Group(a, n, cols);
    var groupsB := Group(b, n, cols);
    ContainedGroupwise(a, b, n, cols, tol);
    var todo := groupsA.Keys;
    while todo != {}
      invariant todo <= groupsA.Keys
      invariant forall k | k in groupsA.Keys - todo :: GroupSaturable(a, b, n, cols, k, tol)
      decreases |todo|
    {
      var k :| k in todo;
      todo := todo - {k};
      KeysMeans(a, n, cols, k);
      KeysMeans(b, n, cols, k);
      if k !in groupsB || |groupsA[k]| > |groupsB[k]| {
        OverfullGroup(a, b, n, cols, k, tol);
        return false;
      }
      var matched := MatchGroupSubset(a, b, n, cols, k, groupsA[k], groupsB[k], tol);
      if !matched {
        return false;
      }
    }
    return true;
  }
}
