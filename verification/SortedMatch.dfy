/** Matching the float vectors of one key group.

    A single float column is paired in sorted order; a group of several float columns goes to the
    augmenting-path matcher while it is small, and to sorted pairing beyond the size cap. */
module SortedMatch {
  import opened Pairing
  import opened Cells
  import opened Augmenting

  /** Largest group the augmenting-path matcher is given. */
  const EXACT_MATCH_CAP := 64

  // ---- sorting ----------------------------------------------------------

  /** p with index i inserted behind every index whose vector does not exceed vs[i]. */
  function Place(vs: seq<Row>, p: seq<nat>, i: nat): (r: seq<nat>)
    requires i < |vs| && forall k | 0 <= k < |p| :: p[k] < |vs|
    ensures |r| == |p| + 1
    ensures forall k | 0 <= k < |r| :: r[k] == i || r[k] in p
  {
    if p == [] then [i]
    else
      var last := |p| - 1;
      if VecLeq(vs[p[last]], vs[i]) then p + [i] else Place(vs, p[..last], i) + [p[last]]
  }

  /** The first n indices of vs in the stable order of their sort keys. */
  function OrderOfFirst(vs: seq<Row>, n: nat): (p: seq<nat>)
    requires n <= |vs|
    ensures |p| == n && forall k | 0 <= k < n :: p[k] < n
  {
    if n == 0 then [] else Place(vs, OrderOfFirst(vs, n - 1), n - 1)
  }

  function SortOrder(vs: seq<Row>): seq<nat> {
    OrderOfFirst(vs, |vs|)
  }

  ghost predicate SortedBy(vs: seq<Row>, p: seq<nat>)
    requires forall k | 0 <= k < |p| :: p[k] < |vs|
  {
    forall k, l | 0 <= k < l < |p| :: VecLeq(vs[p[k]], vs[p[l]])
  }

  lemma {:induction false} PlaceKeepsSorted(vs: seq<Row>, p: seq<nat>, i: nat)
    requires i < |vs| && forall k | 0 <= k < |p| :: p[k] < |vs|
    requires SortedBy(vs, p)
    ensures SortedBy(vs, Place(vs, p, i))
  {
    if p != [] {
      var last := |p| - 1;
      if VecLeq(vs[p[last]], vs[i]) {
        forall k | 0 <= k < last
          ensures VecLeq(vs[p[k]], vs[i])
        {
          VecLeqTransitive(vs[p[k]], vs[p[last]], vs[i]);
        }
      } else {
        VecLeqTotal(vs[p[last]], vs[i]);
        PlaceKeepsSorted(vs, p[..last], i);
      }
    }
  }

  lemma {:induction false} PlaceKeepsDistinct(vs: seq<Row>, p: seq<nat>, i: nat, n: nat)
    requires i < |vs| && forall k | 0 <= k < |p| :: p[k] < |vs|
    requires Injection(p, n) && i !in p && i < n
    ensures Injection(Place(vs, p, i), n)
  {
    if p != [] {
      var last := |p| - 1;
      if !VecLeq(vs[p[last]], vs[i]) {
        PlaceKeepsDistinct(vs, p[..last], i, n);
      }
    }
  }

  lemma {:induction false} OrderOfFirstPermutes(vs: seq<Row>, n: nat)
    requires n <= |vs|
    ensures IsPermutation(OrderOfFirst(vs, n), n)
  {
    if n > 0 {
      OrderOfFirstPermutes(vs, n - 1);
      var p := OrderOfFirst(vs, n - 1);
      assert Injection(p, n) && n - 1 !in p;
      PlaceKeepsDistinct(vs, p, n - 1, n);
    }
  }

  lemma {:induction false} OrderOfFirstSorts(vs: seq<Row>, n: nat)
    requires n <= |vs|
    ensures SortedBy(vs, OrderOfFirst(vs, n))
  {
    if n == 0 {
      assert OrderOfFirst(vs, n) == [];
    } else {
      OrderOfFirstSorts(vs, n - 1);
      PlaceKeepsSorted(vs, OrderOfFirst(vs, n - 1), n - 1);
    }
  }

  function Reorder(vs: seq<Row>, p: seq<nat>): seq<Row>
    requires forall k | 0 <= k < |p| :: p[k] < |vs|
  {
    seq(|p|, k requires 0 <= k < |p| => vs[p[k]])
  }

  /** The vectors in the order Python's stable `sorted` gives them. */
  function Sorted(vs: seq<Row>): (r: seq<Row>)
    ensures |r| == |vs|
  {
    Reorder(vs, SortOrder(vs))
  }

  /** Vectors that are in order already stay where they are. */
  lemma {:induction false} SortedInputKeepsOrder(vs: seq<Row>, n: nat)
    requires n <= |vs|
    requires forall k | 0 < k < |vs| :: VecLeq(vs[k - 1], vs[k])
    ensures OrderOfFirst(vs, n) == seq(n, k => k)
  {
    if n > 0 {
      SortedInputKeepsOrder(vs, n - 1);
    }
  }

  // ---- the compatibility table of two groups ----------------------------

  ghost predicate Width(vs: seq<Row>, w: nat) {
    forall i | 0 <= i < |vs| :: |vs[i]| == w
  }

  function Compat(a: seq<Row>, b: seq<Row>, w: nat, tol: real): (c: seq<seq<bool>>)
    requires Width(a, w) && Width(b, w)
    ensures |c| == |a| && Table(c, |b|)
    ensures forall i, j | 0 <= i < |a| && 0 <= j < |b| :: c[i][j] == VecClose(a[i], b[j], tol)
  {
    seq(|a|, i requires 0 <= i < |a| =>
      seq(|b|, j requires 0 <= j < |b| => VecClose(a[i], b[j], tol)))
  }

  lemma SortingKeepsSaturable(a: seq<Row>, b: seq<Row>, w: nat, tol: real)
    requires Width(a, w) && Width(b, w)
    ensures Saturable(Compat(a, b, w, tol), |b|) <==> Saturable(Compat(Sorted(a), Sorted(b), w, tol), |b|)
  {
    OrderOfFirstPermutes(a, |a|);
    OrderOfFirstPermutes(b, |b|);
    ReorderedSaturable(Compat(a, b, w, tol), |b|, SortOrder(a), SortOrder(b), Compat(Sorted(a), Sorted(b), w, tol));
  }

  // ---- one column: convex tables -----------------------------------------

  /** Compatibility at two opposite corners of a block fills the whole block. */
  ghost predicate Convex(c: seq<seq<bool>>, m: nat)
    requires Table(c, m)
  {
    forall i, k, i2, j, l, j2 |
      0 <= i <= k <= i2 < |c| && 0 <= j <= l <= j2 < m && c[i][j2] && c[i2][j] :: c[k][l]
  }

  ghost predicate NumericColumn(vs: seq<Row>) {
    forall i, k | 0 <= i < |vs| && 0 <= k < |vs[i]| :: vs[i][k].Numeric()
  }

  lemma ConvexCell(lo: Cell, mid: Cell, hi: Cell, lo2: Cell, mid2: Cell, hi2: Cell, tol: real)
    requires tol < 1.0
    requires lo.Numeric() && mid.Numeric() && hi.Numeric() && lo2.Numeric() && mid2.Numeric() && hi2.Numeric()
    requires KeyLeq(lo, mid) && KeyLeq(mid, hi) && KeyLeq(lo2, mid2) && KeyLeq(mid2, hi2)
    requires FloatClose(lo, hi2, tol) && FloatClose(hi, lo2, tol)
    ensures FloatClose(mid, mid2, tol)
  {
    if KeyLeq(mid, mid2) {
      KeyLeqIsTotalPreorder(mid, mid2, hi2);
      FloatCloseBetween(lo, mid, hi2, tol);
      FloatCloseBetween(mid, mid2, hi2, tol);
    } else {
      KeyLeqIsTotalPreorder(lo2, mid2, mid);
      KeyLeqIsTotalPreorder(mid2, mid, hi);
      KeyLeqIsTotalPreorder(mid, mid2, mid);
      FloatCloseSymmetric(hi, lo2, tol);
      FloatCloseBetween(lo2, mid, hi, tol);
      FloatCloseBetween(lo2, mid2, mid, tol);
      FloatCloseSymmetric(mid2, mid, tol);
    }
  }

  lemma SortedColumn(vs: seq<Row>, i: nat, k: nat)
    requires Width(vs, 1) && i <= k < |vs|
    ensures KeyLeq(Sorted(vs)[i][0], Sorted(vs)[k][0])
  {
    OrderOfFirstSorts(vs, |vs|);
    var u, v := Sorted(vs)[i], Sorted(vs)[k];
    if i < k {
      assert VecLeq(u, v);
    }
  }

  ghost predicate ColumnInOrder(vs: seq<Row>) {
    && (forall i | 0 <= i < |vs| :: |vs[i]| == 1 && vs[i][0].Numeric())
    && (forall i, k | 0 <= i <= k < |vs| :: KeyLeq(vs[i][0], vs[k][0]))
  }

  lemma OrderedColumnsConvex(a: seq<Row>, b: seq<Row>, tol: real)
    requires ColumnInOrder(a) && ColumnInOrder(b) && tol < 1.0
    ensures Convex(Compat(a, b, 1, tol), |b|)
  {
    var c := Compat(a, b, 1, tol);
    forall i, k, i2, j, l, j2 |
      0 <= i <= k <= i2 < |c| && 0 <= j <= l <= j2 < |b| && c[i][j2] && c[i2][j]
      ensures c[k][l]
    {
      ConvexCell(a[i][0], a[k][0], a[i2][0], b[j][0], b[l][0], b[j2][0], tol);
    }
  }

  lemma SortedColumnInOrder(vs: seq<Row>)
    requires Width(vs, 1) && NumericColumn(vs)
    ensures ColumnInOrder(Sorted(vs))
  {
    forall i, k | 0 <= i <= k < |vs|
      ensures KeyLeq(Sorted(vs)[i][0], Sorted(vs)[k][0])
    {
      SortedColumn(vs, i, k);
    }
  }

  /** One numeric column in sorted order gives a convex table. */
  lemma SortedColumnConvex(a: seq<Row>, b: seq<Row>, w: nat, tol: real)
    requires Width(a, w) && Width(b, w) && w <= 1 && tol < 1.0
    requires NumericColumn(a) && NumericColumn(b)
    ensures Convex(Compat(Sorted(a), Sorted(b), w, tol), |b|)
  {
    if w == 1 {
      SortedColumnInOrder(a);
      SortedColumnInOrder(b);
      OrderedColumnsConvex(Sorted(a), Sorted(b), tol);
    }
  }

  /** In a convex square table, if any perfect matching exists then the diagonal is one. */
  lemma DiagonalIsOptimal(c: seq<seq<bool>>, k: nat)
    requires Table(c, |c|) && Convex(c, |c|) && Saturable(c, |c|) && k < |c|
    ensures c[k][k]
  {
    var f :| Saturates(c, |c|, f);
    // some row up to k is assigned a column from k on, and some row from k on a column up to k
    if forall i | 0 <= i <= k :: f[i] < k {
      Pigeonhole(f[..k + 1], k);
    } else if forall i | k <= i < |c| :: f[i] > k {
      var g := seq(|c| - k, i requires 0 <= i < |c| - k => f[k + i] - k - 1);
      Pigeonhole(g, |c| - k - 1);
    }
  }

  lemma DiagonalSaturates(c: seq<seq<bool>>)
    requires Table(c, |c|) && forall k | 0 <= k < |c| :: c[k][k]
    ensures Saturable(c, |c|)
  {
    assert Saturates(c, |c|, seq(|c|, k => k));
  }

  // ---- equality of groups ------------------------------------------------

  /** Sorted positional pairing of two groups. */
  predicate PairsInOrder(a: seq<Row>, b: seq<Row>, w: nat, tol: real)
    requires Width(a, w) && Width(b, w) && |a| == |b|
  {
    forall k | 0 <= k < |a| :: VecClose(Sorted(a)[k], Sorted(b)[k], tol)
  }

  /** Sorted pairing never accepts without a matching, and on one numeric column it accepts
      whenever there is one. */
  lemma PairsInOrderMeans(a: seq<Row>, b: seq<Row>, w: nat, tol: real)
    requires Width(a, w) && Width(b, w) && |a| == |b|
    ensures PairsInOrder(a, b, w, tol) ==> Saturable(Compat(a, b, w, tol), |b|)
    ensures w <= 1 && tol < 1.0 && NumericColumn(a) && NumericColumn(b) ==>
      (PairsInOrder(a, b, w, tol) <==> Saturable(Compat(a, b, w, tol), |b|))
  {
    var c := Compat(Sorted(a), Sorted(b), w, tol);
    SortingKeepsSaturable(a, b, w, tol);
    if PairsInOrder(a, b, w, tol) {
      DiagonalSaturates(c);
    } else if w <= 1 && tol < 1.0 && NumericColumn(a) && NumericColumn(b) && Saturable(c, |b|) {
      SortedColumnConvex(a, b, w, tol);
      forall k | 0 <= k < |a|
        ensures VecClose(Sorted(a)[k], Sorted(b)[k], tol)
      {
        DiagonalIsOptimal(c, k);
      }
    }
  }

  /** Whatever the number of columns, it is exact where the sorted table is convex. */
  lemma PairsInOrderConvex(a: seq<Row>, b: seq<Row>, w: nat, tol: real)
    requires Width(a, w) && Width(b, w) && |a| == |b| && Convex(Compat(Sorted(a), Sorted(b), w, tol), |b|)
    ensures PairsInOrder(a, b, w, tol) <==> Saturable(Compat(a, b, w, tol), |b|)
  {
    var c := Compat(Sorted(a), Sorted(b), w, tol);
    PairsInOrderMeans(a, b, w, tol);
    SortingKeepsSaturable(a, b, w, tol);
    if Saturable(c, |b|) {
      forall k | 0 <= k < |a|
        ensures VecClose(Sorted(a)[k], Sorted(b)[k], tol)
      {
        DiagonalIsOptimal(c, k);
      }
    }
  }

  // ---- where sorted pairing is too strict -----------------------------------

  /** A vector of width w: two given numbers, and zeros. */
  function Wide(x: real, y: real, w: nat): (v: Row)
    requires w >= 2
    ensures |v| == w && v[0] == Real(x) && v[1] == Real(y) && forall i | 2 <= i < w :: v[i] == Real(0.0)
  {
    [Real(x), Real(y)] + seq(w - 2, _ => Real(0.0))
  }

  /** Two given vectors, and n - 2 times the same third. */
  function TwoThenSame(n: nat, first: Row, second: Row, third: Row): (vs: seq<Row>)
    requires n >= 2
    ensures |vs| == n
  {
    [first, second] + seq(n - 2, _ => third)
  }

  /** Two groups whose first two vectors match crosswise only. */
  function Upper(n: nat, w: nat, tol: real): (vs: seq<Row>)
    requires n >= 2 && w >= 2
    ensures |vs| == n && Width(vs, w)
  {
    TwoThenSame(n, Wide(0.0, 0.0, w), Wide(tol / 2.0, 10.0, w), Wide(100.0, 100.0, w))
  }

  function Lower(n: nat, w: nat, tol: real): (vs: seq<Row>)
    requires n >= 2 && w >= 2
    ensures |vs| == n && Width(vs, w)
  {
    TwoThenSame(n, Wide(0.0, 10.0, w), Wide(tol / 2.0, 0.0, w), Wide(100.0, 100.0, w))
  }

  lemma SortedAlready(n: nat, first: Row, second: Row, third: Row)
    requires n >= 2 && VecLeq(first, second) && VecLeq(second, third)
    ensures Sorted(TwoThenSame(n, first, second, third)) == TwoThenSame(n, first, second, third)
  {
    var vs := TwoThenSame(n, first, second, third);
    VecLeqTotal(third, third);
    forall k | 0 < k < n
      ensures VecLeq(vs[k - 1], vs[k])
    {
    }
    SortedInputKeepsOrder(vs, n);
  }

  lemma RealsClose(x: real, z: real, tol: real)
    requires tol > 0.0 && x <= z <= x + tol
    ensures FloatClose(Real(x), Real(z), tol) && FloatClose(Real(z), Real(x), tol)
  {
    CloseEitherScale(x, z, tol);
    CloseEitherScale(z, x, tol);
  }

  /** Within the tolerance in the first column and equal in the others. */
  lemma WideClose(x: real, y: real, z: real, w: nat, tol: real)
    requires w >= 2 && tol > 0.0 && x <= z <= x + tol
    ensures VecClose(Wide(x, y, w), Wide(z, y, w), tol) && VecClose(Wide(z, y, w), Wide(x, y, w), tol)
  {
    RealsClose(x, z, tol);
    RealsClose(y, y, tol);
    RealsClose(0.0, 0.0, tol);
  }

  lemma FarApart(w: nat, tol: real)
    requires w >= 2 && 0.0 < tol < 1.0
    ensures !VecClose(Wide(0.0, 0.0, w), Wide(0.0, 10.0, w), tol)
  {
    assert !FloatClose(Wide(0.0, 0.0, w)[1], Wide(0.0, 10.0, w)[1], tol);
  }

  lemma CrosswiseSaturates(c: seq<seq<bool>>, n: nat)
    requires n >= 2 && |c| == n && Table(c, n) && c[0][1] && c[1][0] && forall k | 2 <= k < n :: c[k][k]
    ensures Saturable(c, n)
  {
    assert Saturates(c, n, seq(n, k => if k == 0 then 1 else if k == 1 then 0 else k));
  }

  lemma CrosswiseMatch(n: nat, w: nat, tol: real)
    requires n >= 2 && w >= 2 && 0.0 < tol < 1.0
    ensures Saturable(Compat(Upper(n, w, tol), Lower(n, w, tol), w, tol), n)
  {
    var a, b := Upper(n, w, tol), Lower(n, w, tol);
    WideClose(0.0, 0.0, tol / 2.0, w, tol);
    WideClose(0.0, 10.0, tol / 2.0, w, tol);
    WideClose(100.0, 100.0, 100.0, w, tol);
    CrosswiseSaturates(Compat(a, b, w, tol), n);
  }

  lemma SortedFirsts(n: nat, w: nat, tol: real)
    requires n >= 2 && w >= 2 && 0.0 < tol < 1.0
    ensures !VecClose(Sorted(Upper(n, w, tol))[0], Sorted(Lower(n, w, tol))[0], tol)
  {
    var third := Wide(100.0, 100.0, w);
    SortedAlready(n, Wide(0.0, 0.0, w), Wide(tol / 2.0, 10.0, w), third);
    SortedAlready(n, Wide(0.0, 10.0, w), Wide(tol / 2.0, 0.0, w), third);
    FarApart(w, tol);
    assert Sorted(Upper(n, w, tol))[0] == Wide(0.0, 0.0, w) && Sorted(Lower(n, w, tol))[0] == Wide(0.0, 10.0, w);
  }

  /** In every size, with any two or more columns and any tolerance: two groups that match one-to-one and
      that sorted pairing refuses, because the first two vectors of one side match crosswise. */
  lemma SortedPairingTooStrict(n: nat, w: nat, tol: real)
    requires n >= 2 && w >= 2 && 0.0 < tol < 1.0
    ensures
      var a, b := Upper(n, w, tol), Lower(n, w, tol);
      && Saturable(Compat(a, b, w, tol), n)
      && !PairsInOrder(a, b, w, tol)
  {
    CrosswiseMatch(n, w, tol);
    SortedFirsts(n, w, tol);
  }

  // ---- the two-pointer scan --------------------------------------------------------

  /** f places the rows from k on at distinct compatible columns from j on. */
  ghost predicate SaturatesFrom(c: seq<seq<bool>>, m: nat, k: nat, j: nat, f: seq<nat>)
    requires Table(c, m)
  {
    && |f| == |c|
    && (forall i | k <= i < |c| :: j <= f[i] < m && c[i][f[i]])
    && (forall i, i2 | k <= i < i2 < |c| :: f[i] != f[i2])
  }

  ghost predicate SaturableFrom(c: seq<seq<bool>>, m: nat, k: nat, j: nat)
    requires Table(c, m)
  {
    exists f :: SaturatesFrom(c, m, k, j, f)
  }

  /** The two-pointer scan: row k takes the first compatible column from j on. */
  predicate Scan(c: seq<seq<bool>>, m: nat, k: nat, j: nat)
    requires Table(c, m) && k <= |c| && j <= m
    decreases m - j
  {
    if k == |c| then true
    else if j == m then false
    else if c[k][j] then Scan(c, m, k + 1, j + 1)
    else Scan(c, m, k, j + 1)
  }

  lemma {:induction false} ScanSound(c: seq<seq<bool>>, m: nat, k: nat, j: nat)
    requires Table(c, m) && k <= |c| && j <= m && Scan(c, m, k, j)
    ensures SaturableFrom(c, m, k, j)
    decreases m - j
  {
    if k == |c| {
      assert SaturatesFrom(c, m, k, j, seq(|c|, _ => 0));
    } else if c[k][j] {
      ScanSound(c, m, k + 1, j + 1);
      var f :| SaturatesFrom(c, m, k + 1, j + 1, f);
      assert SaturatesFrom(c, m, k, j, f[k := j]);
    } else {
      ScanSound(c, m, k, j + 1);
      var f :| SaturatesFrom(c, m, k, j + 1, f);
      assert SaturatesFrom(c, m, k, j, f);
    }
  }

  /** Taking the first compatible column loses nothing: a column passed over is useless to every
      later row, and a later row assigned the taken column can swap. */
  lemma {:induction false} ScanComplete(c: seq<seq<bool>>, m: nat, k: nat, j: nat)
    requires Table(c, m) && k <= |c| && j <= m && Convex(c, m)
    requires SaturableFrom(c, m, k, j)
    ensures Scan(c, m, k, j)
    decreases m - j
  {
    if k < |c| {
      var f :| SaturatesFrom(c, m, k, j, f);
      assert c[k][f[k]];
      if c[k][j] {
        if i :| k < i < |c| && f[i] == j {
          assert c[i][f[k]];
          assert SaturatesFrom(c, m, k + 1, j + 1, f[i := f[k]]);
        } else {
          assert SaturatesFrom(c, m, k + 1, j + 1, f);
        }
        ScanComplete(c, m, k + 1, j + 1);
      } else {
        forall i | k <= i < |c|
          ensures f[i] != j
        {
          assert c[i][f[i]];
        }
        assert SaturatesFrom(c, m, k, j + 1, f);
        ScanComplete(c, m, k, j + 1);
      }
    }
  }

  lemma ScanMeans(c: seq<seq<bool>>, m: nat)
    requires Table(c, m)
    ensures Scan(c, m, 0, 0) ==> Saturable(c, m)
    ensures Convex(c, m) ==> (Scan(c, m, 0, 0) <==> Saturable(c, m))
  {
    if Scan(c, m, 0, 0) {
      ScanSound(c, m, 0, 0);
      var f :| SaturatesFrom(c, m, 0, 0, f);
      assert Saturates(c, m, f);
    } else if Convex(c, m) && Saturable(c, m) {
      var f :| Saturates(c, m, f);
      assert SaturatesFrom(c, m, 0, 0, f);
      ScanComplete(c, m, 0, 0);
    }
  }

  lemma TooManyRows(c: seq<seq<bool>>, m: nat)
    requires Table(c, m) && |c| > m
    ensures !Saturable(c, m)
  {
    forall f | Saturates(c, m, f)
      ensures false
    {
      Pigeonhole(f, m);
    }
  }

  // ---- no tolerance: closeness is equality ------------------------------------------

  lemma ZeroClose(x: Cell, y: Cell, tol: real)
    requires tol <= 0.0 && x.Numeric() && y.Numeric()
    ensures FloatClose(x, y, tol) <==> KeyLeq(x, y) && KeyLeq(y, x) && !x.NaN?
  {
    if Finite(x) && Finite(y) && tol == 0.0 {
      CloseEitherScale(Value(x), Value(y), tol);
    }
  }

  predicate NumericRow(v: Row) {
    forall i | 0 <= i < |v| :: v[i].Numeric()
  }

  /** Without a tolerance numeric vectors are close exactly if they sort alike and hold no NaN. */
  lemma {:induction false} ZeroVecClose(u: Row, v: Row, tol: real)
    requires tol <= 0.0 && |u| == |v| && NumericRow(u) && NumericRow(v)
    ensures VecClose(u, v, tol) <==> VecLeq(u, v) && VecLeq(v, u) && NaNFree(u)
    ensures VecLeq(u, v) && VecLeq(v, u) ==> (NaNFree(u) <==> NaNFree(v))
  {
    if u != [] {
      ZeroClose(u[0], v[0], tol);
      ZeroVecClose(u[1..], v[1..], tol);
      assert VecClose(u, v, tol) <==> FloatClose(u[0], v[0], tol) && VecClose(u[1..], v[1..], tol);
      assert NaNFree(u) <==> !u[0].NaN? && NaNFree(u[1..]);
      assert NaNFree(v) <==> !v[0].NaN? && NaNFree(v[1..]);
    }
  }

  /** Vectors between two close ones, on both sides, are close. */
  lemma ZeroConvexCell(lo: Row, mid: Row, hi: Row, lo2: Row, mid2: Row, hi2: Row, tol: real)
    requires tol <= 0.0 && |lo| == |mid| == |hi| == |lo2| == |mid2| == |hi2|
    requires NumericRow(lo) && NumericRow(mid) && NumericRow(hi) && NumericRow(lo2) && NumericRow(mid2) && NumericRow(hi2)
    requires VecLeq(lo, mid) && VecLeq(mid, hi) && VecLeq(lo2, mid2) && VecLeq(mid2, hi2)
    requires VecClose(lo, hi2, tol) && VecClose(hi, lo2, tol)
    ensures VecClose(mid, mid2, tol)
  {
    ZeroVecClose(lo, hi2, tol);
    ZeroVecClose(hi, lo2, tol);
    VecLeqTransitive(mid, hi, lo2);
    VecLeqTransitive(mid, lo2, mid2);
    VecLeqTransitive(mid2, hi2, lo);
    VecLeqTransitive(mid2, lo, mid);
    VecLeqTransitive(mid, mid2, hi2);
    VecLeqTransitive(mid, hi2, lo);
    ZeroVecClose(lo, mid, tol);
    ZeroVecClose(mid, mid2, tol);
  }

  lemma SortedVectors(vs: seq<Row>, i: nat, k: nat)
    requires i <= k < |vs|
    ensures VecLeq(Sorted(vs)[i], Sorted(vs)[k])
  {
    OrderOfFirstSorts(vs, |vs|);
    VecLeqTotal(Sorted(vs)[i], Sorted(vs)[i]);
  }

  /** Without a tolerance several numeric columns in sorted order give a convex table too. */
  lemma ZeroToleranceConvex(a: seq<Row>, b: seq<Row>, w: nat, tol: real)
    requires Width(a, w) && Width(b, w) && tol <= 0.0 && NumericColumn(a) && NumericColumn(b)
    ensures Convex(Compat(Sorted(a), Sorted(b), w, tol), |b|)
  {
    var sa, sb := Sorted(a), Sorted(b);
    var c := Compat(sa, sb, w, tol);
    forall i, k, i2, j, l, j2 |
      0 <= i <= k <= i2 < |c| && 0 <= j <= l <= j2 < |b| && c[i][j2] && c[i2][j]
      ensures c[k][l]
    {
      SortedVectors(a, i, k);
      SortedVectors(a, k, i2);
      SortedVectors(b, j, l);
      SortedVectors(b, l, j2);
      ZeroConvexCell(sa[i], sa[k], sa[i2], sb[j], sb[l], sb[j2], tol);
    }
  }

  // ---- a group against itself ---------------------------------------------------------

  lemma CloseToItself(x: Cell, tol: real)
    requires !x.NaN?
    ensures FloatClose(x, x, tol)
  {
    if Finite(x) && tol >= 0.0 {
      CloseEitherScale(Value(x), Value(x), tol);
    }
  }

  lemma RowCloseToItself(v: Row, tol: real)
    requires NaNFree(v)
    ensures VecClose(v, v, tol)
  {
    forall i | 0 <= i < |v| ensures FloatClose(v[i], v[i], tol) {
      CloseToItself(v[i], tol);
    }
  }

  lemma MatchedIsNaNFree(a: seq<Row>, b: seq<Row>, w: nat, tol: real)
    requires Width(a, w) && Width(b, w) && Saturable(Compat(a, b, w, tol), |b|)
    ensures forall k | 0 <= k < |a| :: NaNFree(a[k])
  {
    var c := Compat(a, b, w, tol);
    var f :| Saturates(c, |b|, f);
    forall k | 0 <= k < |a| ensures NaNFree(a[k]) {
      assert c[k][f[k]];
    }
  }

  ghost predicate AllNaNFree(a: seq<Row>) {
    forall k | 0 <= k < |a| :: NaNFree(a[k])
  }

  /** A group matches itself exactly if it holds no NaN. */
  lemma SelfSaturable(a: seq<Row>, w: nat, tol: real)
    requires Width(a, w)
    ensures Saturable(Compat(a, a, w, tol), |a|) <==> AllNaNFree(a)
  {
    if AllNaNFree(a) {
      forall k | 0 <= k < |a| ensures Compat(a, a, w, tol)[k][k] {
        RowCloseToItself(a[k], tol);
      }
      DiagonalSaturates(Compat(a, a, w, tol));
    }
    if Saturable(Compat(a, a, w, tol), |a|) {
      MatchedIsNaNFree(a, a, w, tol);
    }
  }

  lemma SortedCloseToItself(a: seq<Row>, k: nat, tol: real)
    requires k < |a| && AllNaNFree(a)
    ensures VecClose(Sorted(a)[k], Sorted(a)[k], tol)
  {
    RowCloseToItself(Sorted(a)[k], tol);
  }

  lemma {:induction false} ScanDiagonal(c: seq<seq<bool>>, k: nat)
    requires Table(c, |c|) && k <= |c| && forall l | 0 <= l < |c| :: c[l][l]
    ensures Scan(c, |c|, k, k)
    decreases |c| - k
  {
    if k < |c| {
      ScanDiagonal(c, k + 1);
    }
  }

  // ---- where the two algorithms are exact -----------------------------------------------

  /** The groups on which the verdict is exact and not only sound: one numeric column, or as many vectors
      as the matcher takes, or several numeric columns without a tolerance, or the same group twice. */
  ghost predicate DecidedExactly(a: seq<Row>, b: seq<Row>, w: nat, tol: real) {
    || a == b
    || (NumericColumn(a) && NumericColumn(b) && (tol <= 0.0 || (w <= 1 && tol < 1.0)))
    || (w > 1 && |b| <= EXACT_MATCH_CAP)
  }

  lemma SortedConvex(a: seq<Row>, b: seq<Row>, w: nat, tol: real)
    requires Width(a, w) && Width(b, w) && NumericColumn(a) && NumericColumn(b) && (tol <= 0.0 || (w <= 1 && tol < 1.0))
    ensures Convex(Compat(Sorted(a), Sorted(b), w, tol), |b|)
  {
    if tol <= 0.0 {
      ZeroToleranceConvex(a, b, w, tol);
    } else {
      SortedColumnConvex(a, b, w, tol);
    }
  }

  lemma PairingMeans(a: seq<Row>, b: seq<Row>, w: nat, tol: real)
    requires Width(a, w) && Width(b, w) && |a| == |b| && (w <= 1 || |a| > EXACT_MATCH_CAP)
    ensures PairsInOrder(a, b, w, tol) ==> Saturable(Compat(a, b, w, tol), |b|)
    ensures DecidedExactly(a, b, w, tol) ==> (PairsInOrder(a, b, w, tol) <==> Saturable(Compat(a, b, w, tol), |b|))
  {
    PairsInOrderMeans(a, b, w, tol);
    if DecidedExactly(a, b, w, tol) {
      PairingExact(a, b, w, tol);
    }
  }

  /** Sorted pairing is exact where it is used on such groups. */
  lemma PairingExact(a: seq<Row>, b: seq<Row>, w: nat, tol: real)
    requires Width(a, w) && Width(b, w) && |a| == |b| && DecidedExactly(a, b, w, tol)
    requires w <= 1 || |a| > EXACT_MATCH_CAP
    ensures PairsInOrder(a, b, w, tol) <==> Saturable(Compat(a, b, w, tol), |b|)
  {
    if a == b {
      SelfPairing(a, w, tol);
    } else {
      SortedConvex(a, b, w, tol);
      PairsInOrderConvex(a, b, w, tol);
    }
  }

  lemma SelfPairing(a: seq<Row>, w: nat, tol: real)
    requires Width(a, w)
    ensures PairsInOrder(a, a, w, tol) <==> Saturable(Compat(a, a, w, tol), |a|)
  {
    PairsInOrderMeans(a, a, w, tol);
    SelfSaturable(a, w, tol);
    if AllNaNFree(a) {
      forall k | 0 <= k < |a| ensures VecClose(Sorted(a)[k], Sorted(a)[k], tol) {
        SortedCloseToItself(a, k, tol);
      }
    }
  }

  /** So is the scan. */
  lemma ScanExact(a: seq<Row>, b: seq<Row>, w: nat, tol: real)
    requires Width(a, w) && Width(b, w) && DecidedExactly(a, b, w, tol)
    requires w <= 1 || |b| > EXACT_MATCH_CAP
    ensures Scan(Compat(Sorted(a), Sorted(b), w, tol), |b|, 0, 0) <==> Saturable(Compat(a, b, w, tol), |b|)
  {
    if a == b {
      SelfScan(a, w, tol);
    } else {
      SortedScan(a, b, w, tol);
      SortingKeepsSaturable(a, b, w, tol);
    }
  }

  lemma ScanVerdict(a: seq<Row>, b: seq<Row>, w: nat, tol: real)
    requires Width(a, w) && Width(b, w) && (w <= 1 || |b| > EXACT_MATCH_CAP)
    ensures Scan(Compat(Sorted(a), Sorted(b), w, tol), |b|, 0, 0) ==> Saturable(Compat(a, b, w, tol), |b|)
    ensures DecidedExactly(a, b, w, tol) ==>
      (Scan(Compat(Sorted(a), Sorted(b), w, tol), |b|, 0, 0) <==> Saturable(Compat(a, b, w, tol), |b|))
  {
    SortingKeepsSaturable(a, b, w, tol);
    ScanMeans(Compat(Sorted(a), Sorted(b), w, tol), |b|);
    if DecidedExactly(a, b, w, tol) {
      ScanExact(a, b, w, tol);
    }
  }

  lemma SortedScan(a: seq<Row>, b: seq<Row>, w: nat, tol: real)
    requires Width(a, w) && Width(b, w) && NumericColumn(a) && NumericColumn(b) && (tol <= 0.0 || (w <= 1 && tol < 1.0))
    ensures
      var c := Compat(Sorted(a), Sorted(b), w, tol);
      Scan(c, |b|, 0, 0) <==> Saturable(c, |b|)
  {
    SortedConvex(a, b, w, tol);
    ScanMeans(Compat(Sorted(a), Sorted(b), w, tol), |b|);
  }

  lemma SelfScan(a: seq<Row>, w: nat, tol: real)
    requires Width(a, w)
    ensures Scan(Compat(Sorted(a), Sorted(a), w, tol), |a|, 0, 0) <==> Saturable(Compat(a, a, w, tol), |a|)
  {
    var c := Compat(Sorted(a), Sorted(a), w, tol);
    SortingKeepsSaturable(a, a, w, tol);
    ScanMeans(c, |a|);
    SelfSaturable(a, w, tol);
    if AllNaNFree(a) {
      forall k | 0 <= k < |a| ensures c[k][k] {
        SortedCloseToItself(a, k, tol);
      }
      ScanDiagonal(c, 0);
    }
  }

  // ---- where the scan is too strict ---------------------------------------------------------

  /** Square tables whose first column the first row cannot use: the scan leaves a row over. */
  lemma FirstColumnLost(c: seq<seq<bool>>)
    requires Table(c, |c|) && c != [] && !c[0][0]
    ensures !Scan(c, |c|, 0, 0)
  {
    if Scan(c, |c|, 0, 1) {
      ScanSound(c, |c|, 0, 1);
      var f :| SaturatesFrom(c, |c|, 0, 1, f);
      Pigeonhole(seq(|c|, i requires 0 <= i < |c| => f[i] - 1), |c| - 1);
    }
  }

  /** The same groups: each maps injectively into the other, and the scan refuses them too. */
  lemma ScanTooStrict(n: nat, w: nat, tol: real)
    requires n >= 2 && w >= 2 && 0.0 < tol < 1.0
    ensures
      var a, b := Upper(n, w, tol), Lower(n, w, tol);
      && Saturable(Compat(a, b, w, tol), n)
      && !Scan(Compat(Sorted(a), Sorted(b), w, tol), n, 0, 0)
  {
    SortedFirsts(n, w, tol);
    CrosswiseMatch(n, w, tol);
    FirstColumnLost(Compat(Sorted(Upper(n, w, tol)), Sorted(Lower(n, w, tol)), w, tol));
  }

  /** Whether the vectors of a and b match one-to-one within tolerance. */
  method MatchFloatVecs(a: seq<Row>, b: seq<Row>, w: nat, tol: real) returns (ok: bool)
    requires Width(a, w) && Width(b, w) && |a| == |b|
    ensures ok ==> Saturable(Compat(a, b, w, tol), |b|)
    ensures DecidedExactly(a, b, w, tol) ==> (ok <==> Saturable(Compat(a, b, w, tol), |b|))
    ensures w > 1 && |a| <= 64 ==> (ok <==> Saturable(Compat(a, b, w, tol), |b|))
    ensures w <= 1 || |a| > 64 ==> (ok <==> PairsInOrder(a, b, w, tol))
  {
    if |a| == 0 {
      DiagonalSaturates(Compat(a, b, w, tol));
      return true;
    }
    if w <= 1 || |a| > EXACT_MATCH_CAP {
      PairingMeans(a, b, w, tol);
      var sa, sb := Sorted(a), Sorted(b);
      var k := 0;
      while k < |sa|
        invariant 0 <= k <= |sa|
        invariant forall l | 0 <= l < k :: VecClose(sa[l], sb[l], tol)
      {
        if !VecClose(sa[k], sb[k], tol) {
          return false;
        }
        k := k + 1;
      }
      return true;
    }
    ghost var stuck;
    ok, stuck := MatchAll(Compat(a, b, w, tol), |b|);
  }

  // ---- containment of groups ----------------------------------------------

  /** The two-pointer scan over two sorted groups. */
  method ScanSorted(sa: seq<Row>, sb: seq<Row>, w: nat, tol: real) returns (ok: bool)
    requires Width(sa, w) && Width(sb, w)
    ensures ok <==> Scan(Compat(sa, sb, w, tol), |sb|, 0, 0)
  {
    ghost var c := Compat(sa, sb, w, tol);
    var j := 0;
    var k := 0;
    while k < |sa|
      invariant 0 <= k <= |sa| && 0 <= j <= |sb|
      invariant Scan(c, |sb|, 0, 0) == Scan(c, |sb|, k, j)
    {
      while j < |sb| && !VecClose(sa[k], sb[j], tol)
        invariant 0 <= j <= |sb|
        invariant Scan(c, |sb|, 0, 0) == Scan(c, |sb|, k, j)
      {
        j := j + 1;
      }
      if j == |sb| {
        return false;
      }
      j := j + 1;
      k := k + 1;
    }
    return true;
  }

  /** Whether every vector of a matches a vector of its own in b within tolerance. */
  method MatchFloatVecsSubset(a: seq<Row>, b: seq<Row>, w: nat, tol: real) returns (ok: bool)
    requires Width(a, w) && Width(b, w)
    ensures ok ==> Saturable(Compat(a, b, w, tol), |b|)
    ensures DecidedExactly(a, b, w, tol) ==> (ok <==> Saturable(Compat(a, b, w, tol), |b|))
    ensures w > 1 && |b| <= 64 ==> (ok <==> Saturable(Compat(a, b, w, tol), |b|))
    ensures 0 < |a| <= |b| && (w <= 1 || |b| > 64) ==>
      (ok <==> Scan(Compat(Sorted(a), Sorted(b), w, tol), |b|, 0, 0))
  {
    ghost var c := Compat(a, b, w, tol);
    if |a| == 0 {
      assert Saturates(c, |b|, []);
      return true;
    }
    if |a| > |b| {
      TooManyRows(c, |b|);
      return false;
    }
    if w <= 1 || |b| > EXACT_MATCH_CAP {
      ScanVerdict(a, b, w, tol);
      ok := ScanSorted(Sorted(a), Sorted(b), w, tol);
      return;
    }
    ghost var stuck;
    ok, stuck := MatchAll(Compat(a, b, w, tol), |b|);
  }
}
