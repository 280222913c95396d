/** The cross-check verdict on two whole results, and how its three strengths relate. */
module Verdict {
  import opened Pairing
  import opened Cells
  import opened SortedMatch
  import opened Blocks
  import opened RowVerdict
  import opened Wrappers

  /** A result: column count, row count, and the cells row by row. A result without columns has a
      row count and no cells. */
  datatype Result = Result(ncols: nat, nrows: nat, cells: seq<Row>)
  {
    ghost predicate Valid() {
      Width(cells, ncols) && (ncols > 0 ==> |cells| == nrows)
    }

    function Rows(): seq<Row> {
      if ncols == 0 then [] else cells
    }
  }

  predicate KeysIn(keys: seq<nat>, n: nat) {
    forall k | 0 <= k < |keys| :: keys[k] < n
  }

  /** Key columns agree position by position. */
  predicate KeysAgree(a: seq<Row>, b: seq<Row>, n: nat, keys: seq<nat>, tol: real)
    requires (forall i | 0 <= i < |a| :: |a[i]| == n) && (forall i | 0 <= i < |b| :: |b[i]| == n)
    requires |a| == |b| && KeysIn(keys, n)
  {
    forall i | 0 <= i < |a| :: RowEqual(Project(a[i], keys), Project(b[i], keys), tol)
  }

  predicate Positional(a: seq<Row>, b: seq<Row>, tol: real)
    requires |a| == |b|
  {
    forall i | 0 <= i < |a| :: RowEqual(a[i], b[i], tol)
  }

  /** Rows equal as multisets, with the key columns in the reference's order. */
  ghost predicate TieAware(a: seq<Row>, b: seq<Row>, n: nat, keys: seq<nat>, tol: real)
    requires Width(a, n) && Width(b, n) && KeysIn(keys, n)
  {
    |a| == |b| && KeysAgree(a, b, n, keys, tol) && RowsEqual(a, b, n, tol)
  }

  /** Rows drawn from the pool, with the key columns in the reference's order. */
  ghost predicate DrawnFromPool(a: seq<Row>, b: seq<Row>, pool: seq<Row>, n: nat, keys: seq<nat>, tol: real)
    requires Width(a, n) && Width(b, n) && Width(pool, n) && KeysIn(keys, n)
  {
    |a| == |b| && KeysAgree(a, b, n, keys, tol) && RowsContained(a, pool, n, tol)
  }

  /** The pool the ordered comparison checks membership in, if it does: candidates count only for a
      reference that fills its limit. */
  function PoolInUse(b: seq<Row>, rowLimit: Option<nat>, candidates: Option<seq<Row>>): Option<seq<Row>> {
    if candidates.Some? && rowLimit.Some? && |b| == rowLimit.value then candidates else None
  }

  ghost predicate ArgumentsFit(bespoke: Result, reference: Result, orderKeys: Option<seq<nat>>, candidates: Option<seq<Row>>) {
    && bespoke.Valid() && reference.Valid()
    && (orderKeys.Some? ==> KeysIn(orderKeys.value, reference.ncols))
    && (candidates.Some? ==> Width(candidates.value, reference.ncols))
  }

  /** What an accepted pair of results satisfies. */
  ghost predicate Agree(bespoke: Result, reference: Result, ordered: bool, orderKeys: Option<seq<nat>>,
                        tol: real, rowLimit: Option<nat>, candidates: Option<seq<Row>>)
    requires ArgumentsFit(bespoke, reference, orderKeys, candidates)
  {
    && bespoke.ncols == reference.ncols && bespoke.nrows == reference.nrows
    && var a, b, n := bespoke.Rows(), reference.Rows(), reference.ncols;
       if !ordered then RowsEqual(a, b, n, tol)
       else if orderKeys.Some? && orderKeys.value != [] then
         match PoolInUse(b, rowLimit, candidates)
         case Some(pool) => DrawnFromPool(a, b, pool, n, orderKeys.value, tol)
         case None => TieAware(a, b, n, orderKeys.value, tol)
       else Positional(a, b, tol)
  }

  /** The comparisons on which the float matching is exact. */
  ghost predicate ExactComparison(bespoke: Result, reference: Result, ordered: bool, orderKeys: Option<seq<nat>>,
                                  tol: real, rowLimit: Option<nat>, candidates: Option<seq<Row>>)
    requires ArgumentsFit(bespoke, reference, orderKeys, candidates)
  {
    bespoke.ncols == reference.ncols ==>
      var a, b, n := bespoke.Rows(), reference.Rows(), reference.ncols;
      if ordered && (orderKeys.None? || orderKeys.value == []) then true
      else if ordered && PoolInUse(b, rowLimit, candidates).Some? then DecidedExactlyOn(a, candidates.value, n, tol)
      else DecidedExactlyOn(a, b, n, tol)
  }

  /** Whether two results are equal. */
  method ResultsEqual(bespoke: Result, reference: Result, ordered: bool, orderKeys: Option<seq<nat>>,
                      tol: real, rowLimit: Option<nat>, candidates: Option<seq<Row>>) returns (ok: bool)
    requires ArgumentsFit(bespoke, reference, orderKeys, candidates)
    ensures ok ==> Agree(bespoke, reference, ordered, orderKeys, tol, rowLimit, candidates)
    ensures ExactComparison(bespoke, reference, ordered, orderKeys, tol, rowLimit, candidates) ==>
      (ok <==> Agree(bespoke, reference, ordered, orderKeys, tol, rowLimit, candidates))
  {
    if bespoke.ncols != reference.ncols {
      return false;
    }
    if bespoke.nrows != reference.nrows {
      return false;
    }
    var a, b, n := bespoke.Rows(), reference.Rows(), reference.ncols;
    if !ordered {
      ok := MultisetEqual(a, b, n, tol);
      return;
    }
    if orderKeys.Some? && orderKeys.value != [] {
      var keys := orderKeys.value;
      var i := 0;
      while i < |a|
        invariant 0 <= i <= |a|
        invariant forall l | 0 <= l < i :: RowEqual(Project(a[l], keys), Project(b[l], keys), tol)
      {
        if !RowEqual(Project(a[i], keys), Project(b[i], keys), tol) {
          return false;
        }
        i := i + 1;
      }
      if candidates.Some? && rowLimit.Some? && |b| == rowLimit.value {
        ok := MultisetContained(a, candidates.value, n, tol);
        return;
      }
      ok := MultisetEqual(a, b, n, tol);
      return;
    }
    var i := 0;
    while i < |a|
      invariant 0 <= i <= |a|
      invariant forall l | 0 <= l < i :: RowEqual(a[l], b[l], tol)
    {
      if !RowEqual(a[i], b[i], tol) {
        return false;
      }
      i := i + 1;
    }
    return true;
  }

  // ---- the strictness ladder ------------------------------------------------

  /** Positional equality of two rows of a and b is a match in the multiset sense. */
  lemma RowEqualMatches(a: seq<Row>, b: seq<Row>, n: nat, i: nat, tol: real)
    requires Width(a, n) && Width(b, n) && i < |a| && i < |b| && RowEqual(a[i], b[i], tol)
    ensures RowMatch(a[i], b[i], FloatSet(a, b, n), tol)
  {
    forall c | 0 <= c < n
      ensures if c in FloatSet(a, b, n) then FloatClose(a[i][c], b[i][c], tol) else a[i][c] == b[i][c]
    {
      assert CellEqual(a[i][c], b[i][c], tol);
      if !a[i][c].IsFloat() && !b[i][c].IsFloat() {
        CloseToItself(a[i][c], tol);
      } else {
        assert IsFloatColumn(a, c) || IsFloatColumn(b, c);
      }
    }
  }

  /** Strict positional equality implies tie-aware equality, for any key columns. */
  lemma PositionalImpliesTieAware(a: seq<Row>, b: seq<Row>, n: nat, keys: seq<nat>, tol: real)
    requires Width(a, n) && Width(b, n) && KeysIn(keys, n) && |a| == |b|
    requires Positional(a, b, tol)
    ensures TieAware(a, b, n, keys, tol)
  {
    forall i | 0 <= i < |a|
      ensures RowEqual(Project(a[i], keys), Project(b[i], keys), tol)
    {
      assert RowEqual(a[i], b[i], tol);
    }
    var c := RowCompat(a, b, n, FloatSet(a, b, n), tol);
    forall i | 0 <= i < |a|
      ensures c[i][i]
    {
      RowEqualMatches(a, b, n, i, tol);
    }
    DiagonalSaturates(c);
  }

  /** Table of exact equality between two lists of rows. */
  ghost function Same(a: seq<Row>, b: seq<Row>): (c: seq<seq<bool>>)
    ensures |c| == |a| && Table(c, |b|)
    ensures forall i, j | 0 <= i < |a| && 0 <= j < |b| :: c[i][j] == (a[i] == b[j])
  {
    seq(|a|, i requires 0 <= i < |a| => seq(|b|, j requires 0 <= j < |b| => a[i] == b[j]))
  }

  /** Every row of a has an equal row of b of its own exactly when a is a sub-multiset of b. */
  lemma SubmultisetSaturates(a: seq<Row>, b: seq<Row>)
    ensures Saturable(Same(a, b), |b|) <==> multiset(a) <= multiset(b)
  {
    var c := Same(a, b);
    BlockwiseSaturable(c, a, b);
    forall k
      ensures BlockSaturable(c, a, b, k) <==> multiset(a)[k] <= multiset(b)[k]
    {
      SameBlock(a, b, k);
    }
    assert forall k | k in a :: multiset(a)[k] > 0;
  }

  lemma SameBlock(a: seq<Row>, b: seq<Row>, k: Row)
    ensures BlockSaturable(Same(a, b), a, b, k) <==> multiset(a)[k] <= multiset(b)[k]
  {
    var p, q := PositionsOf(a, k), PositionsOf(b, k);
    PositionsMean(a, k);
    PositionsMean(b, k);
    PositionsCount(a, k);
    PositionsCount(b, k);
    var c2 := LabelBlock(Same(a, b), a, b, k);
    if |p| <= |q| {
      forall l | 0 <= l < |p|
        ensures c2[l][l]
      {
        assert p[l] in p && q[l] in q;
      }
      assert Saturates(c2, |q|, seq(|p|, l => l));
    } else {
      TooManyRows(c2, |q|);
    }
  }

  /** Enlarging the reference side only adds float columns, on which equal cells stay close. */
  lemma MatchSurvivesMoreFloats(r: Row, s: Row, floats: set<nat>, more: set<nat>, tol: real)
    requires |r| == |s| && RowMatch(r, s, floats, tol) && floats <= more
    requires forall i | 0 <= i < |r| && i !in floats :: !r[i].IsFloat()
    ensures RowMatch(r, s, more, tol)
  {
    forall i | 0 <= i < |r| && i in more
      ensures FloatClose(r[i], s[i], tol)
    {
      if i !in floats {
        CloseToItself(r[i], tol);
      }
    }
  }

  lemma FloatsOfPool(a: seq<Row>, b: seq<Row>, pool: seq<Row>, n: nat)
    requires Width(a, n) && Width(b, n) && Width(pool, n) && multiset(b) <= multiset(pool)
    ensures FloatSet(a, b, n) <= FloatSet(a, pool, n)
  {
    forall i | i in FloatSet(a, b, n)
      ensures i in FloatSet(a, pool, n)
    {
      if IsFloatColumn(b, i) {
        var r :| 0 <= r < |b| && i < |b[r]| && b[r][i].IsFloat();
        assert b[r] in multiset(b) && b[r] in multiset(pool);
        var l :| 0 <= l < |pool| && pool[l] == b[r];
        assert IsFloatColumn(pool, i);
      }
    }
  }

  lemma NoFloatsOutside(a: seq<Row>, b: seq<Row>, n: nat, i: nat)
    requires Width(a, n) && Width(b, n) && i < |a|
    ensures forall l | 0 <= l < n && l !in FloatSet(a, b, n) :: !a[i][l].IsFloat()
  {
    forall l | 0 <= l < n && a[i][l].IsFloat()
      ensures l in FloatSet(a, b, n)
    {
      assert IsFloatColumn(a, l);
    }
  }

  /** Tie-aware equality implies acceptance against every pool that contains the reference. */
  lemma TieAwareImpliesPool(a: seq<Row>, b: seq<Row>, pool: seq<Row>, n: nat, keys: seq<nat>, tol: real)
    requires Width(a, n) && Width(b, n) && Width(pool, n) && KeysIn(keys, n)
    requires TieAware(a, b, n, keys, tol) && multiset(b) <= multiset(pool)
    ensures DrawnFromPool(a, b, pool, n, keys, tol)
  {
    SubmultisetSaturates(b, pool);
    FloatsOfPool(a, b, pool, n);
    var small, big := FloatSet(a, b, n), FloatSet(a, pool, n);
    var f := Chosen(RowCompat(a, b, n, small, tol), |b|);
    var g := Chosen(Same(b, pool), |pool|);
    ComposeInjections(f, g, |pool|);
    var h := Compose(f, g);
    var c := RowCompat(a, pool, n, big, tol);
    forall i | 0 <= i < |a|
      ensures RowMatch(a[i], pool[h[i]], big, tol)
    {
      assert RowMatch(a[i], b[f[i]], small, tol);
      assert Same(b, pool)[f[i]][g[f[i]]];
      NoFloatsOutside(a, b, n, i);
      MatchSurvivesMoreFloats(a[i], b[f[i]], small, big, tol);
    }
    assert Saturates(c, |pool|, h);
  }

  // ---- what the verdict means, cell by cell ---------------------------------------

  /** Cells that stand for each other by position. */
  predicate InPlace(x: Cell, y: Cell, tol: real) {
    (x == y && !x.NaN?) || (Finite(x) && Finite(y) && (x.Real? || y.Real?) && Near(Value(x), Value(y), tol))
  }

  lemma RowEqualMeans(r: Row, s: Row, tol: real)
    ensures RowEqual(r, s, tol) <==> |r| == |s| && forall l | 0 <= l < |r| :: InPlace(r[l], s[l], tol)
  {
    forall l | 0 <= l < |r| && l < |s| ensures CellEqual(r[l], s[l], tol) <==> InPlace(r[l], s[l], tol) {
      CellEqualMeans(r[l], s[l], tol);
    }
  }

  /** Some row of either side has a float in the column. */
  ghost predicate Floating(a: seq<Row>, b: seq<Row>, l: nat) {
    exists r: Row | r in a || r in b :: l < |r| && r[l].IsFloat()
  }

  /** The rows stand for each other: each cell the same value, or in a column with floats a number no
      further away than the tolerance. */
  ghost predicate Stands(a: seq<Row>, b: seq<Row>, r: Row, s: Row, tol: real) {
    |r| == |s| && forall l | 0 <= l < |r| ::
      (r[l] == s[l] && !r[l].NaN?) || (Floating(a, b, l) && Finite(r[l]) && Finite(s[l]) && Near(Value(r[l]), Value(s[l]), tol))
  }

  /** f gives every row of a a row of b of its own that it stands for. */
  ghost predicate Paired(a: seq<Row>, b: seq<Row>, f: seq<nat>, tol: real) {
    && |f| == |a|
    && (forall i | 0 <= i < |a| :: f[i] < |b| && Stands(a, b, a[i], b[f[i]], tol))
    && (forall i, j | 0 <= i < j < |a| :: f[i] != f[j])
  }

  ghost predicate Pairable(a: seq<Row>, b: seq<Row>, tol: real) {
    exists f :: Paired(a, b, f, tol)
  }

  lemma FloatingColumns(a: seq<Row>, b: seq<Row>, n: nat, l: nat)
    requires Width(a, n) && Width(b, n) && l < n
    ensures l in FloatSet(a, b, n) <==> Floating(a, b, l)
  {
    if Floating(a, b, l) {
      var r: Row :| (r in a || r in b) && l < |r| && r[l].IsFloat();
      if r in a {
        var i :| 0 <= i < |a| && a[i] == r;
      } else {
        var i :| 0 <= i < |b| && b[i] == r;
      }
      assert FloatIn(a, b, l);
    }
  }

  lemma RowMatchMeans(a: seq<Row>, b: seq<Row>, n: nat, i: nat, j: nat, tol: real)
    requires Width(a, n) && Width(b, n) && i < |a| && j < |b|
    ensures RowMatch(a[i], b[j], FloatSet(a, b, n), tol) <==> Stands(a, b, a[i], b[j], tol)
  {
    forall l | 0 <= l < n
      ensures (if l in FloatSet(a, b, n) then FloatClose(a[i][l], b[j][l], tol) else a[i][l] == b[j][l]) <==>
        (a[i][l] == b[j][l] && !a[i][l].NaN?)
        || (Floating(a, b, l) && Finite(a[i][l]) && Finite(b[j][l]) && Near(Value(a[i][l]), Value(b[j][l]), tol))
    {
      FloatingColumns(a, b, n, l);
      FloatCloseMeans(a[i][l], b[j][l], tol);
      if a[i][l].NaN? {
        assert a[i] in a && Floating(a, b, l);
      }
    }
  }

  /** A row list is contained in another exactly if its rows can be paired. */
  lemma RowsContainedMeans(a: seq<Row>, b: seq<Row>, n: nat, tol: real)
    requires Width(a, n) && Width(b, n)
    ensures RowsContained(a, b, n, tol) <==> Pairable(a, b, tol)
  {
    var c := RowCompat(a, b, n, FloatSet(a, b, n), tol);
    forall i, j | 0 <= i < |a| && 0 <= j < |b| ensures c[i][j] <==> Stands(a, b, a[i], b[j], tol) {
      RowMatchMeans(a, b, n, i, j, tol);
    }
    if Saturable(c, |b|) {
      assert Paired(a, b, Chosen(c, |b|), tol);
    }
    if f :| Paired(a, b, f, tol) {
      assert Saturates(c, |b|, f);
    }
  }

  /** The key columns' cells stand for each other, row by row. */
  ghost predicate KeysInPlace(a: seq<Row>, b: seq<Row>, keys: seq<nat>, tol: real) {
    |a| == |b| && forall i, k | 0 <= i < |a| && 0 <= k < |keys| ::
      keys[k] < |a[i]| && keys[k] < |b[i]| && InPlace(a[i][keys[k]], b[i][keys[k]], tol)
  }

  lemma KeysAgreeMeans(a: seq<Row>, b: seq<Row>, n: nat, keys: seq<nat>, tol: real)
    requires Width(a, n) && Width(b, n) && |a| == |b| && KeysIn(keys, n)
    ensures KeysAgree(a, b, n, keys, tol) <==> KeysInPlace(a, b, keys, tol)
  {
    forall i | 0 <= i < |a|
      ensures RowEqual(Project(a[i], keys), Project(b[i], keys), tol) <==>
        forall k | 0 <= k < |keys| :: InPlace(a[i][keys[k]], b[i][keys[k]], tol)
    {
      RowEqualMeans(Project(a[i], keys), Project(b[i], keys), tol);
    }
  }

  ghost predicate AllInPlace(a: seq<Row>, b: seq<Row>, tol: real) {
    |a| == |b| && forall i | 0 <= i < |a| ::
      |a[i]| == |b[i]| && forall l | 0 <= l < |a[i]| :: InPlace(a[i][l], b[i][l], tol)
  }

  lemma PositionalMeans(a: seq<Row>, b: seq<Row>, tol: real)
    requires |a| == |b|
    ensures Positional(a, b, tol) <==> AllInPlace(a, b, tol)
  {
    forall i | 0 <= i < |a|
      ensures RowEqual(a[i], b[i], tol) <==> |a[i]| == |b[i]| && forall l | 0 <= l < |a[i]| :: InPlace(a[i][l], b[i][l], tol)
    {
      RowEqualMeans(a[i], b[i], tol);
    }
  }

  /** The rows agree: unordered, they pair up; ordered by no known columns, every cell stands for the one
      in its place; ordered by known columns, those cells do, and the rows pair up, with the pool's if
      there is one and the reference fills its limit. */
  ghost predicate RowsAgree(a: seq<Row>, b: seq<Row>, ordered: bool, orderKeys: Option<seq<nat>>, tol: real,
                            rowLimit: Option<nat>, candidates: Option<seq<Row>>) {
    if !ordered then Pairable(a, b, tol)
    else if orderKeys.None? || orderKeys.value == [] then AllInPlace(a, b, tol)
    else
      && KeysInPlace(a, b, orderKeys.value, tol)
      && if candidates.Some? && rowLimit == Some(|b|) then Pairable(a, candidates.value, tol) else Pairable(a, b, tol)
  }

  /** Results agree exactly if they have as many columns and rows and their rows agree. */
  lemma AgreeMeans(bespoke: Result, reference: Result, ordered: bool, orderKeys: Option<seq<nat>>, tol: real,
                   rowLimit: Option<nat>, candidates: Option<seq<Row>>)
    requires ArgumentsFit(bespoke, reference, orderKeys, candidates)
    ensures Agree(bespoke, reference, ordered, orderKeys, tol, rowLimit, candidates) <==>
      && bespoke.ncols == reference.ncols && bespoke.nrows == reference.nrows
      && RowsAgree(bespoke.Rows(), reference.Rows(), ordered, orderKeys, tol, rowLimit, candidates)
  {
    if bespoke.ncols == reference.ncols && bespoke.nrows == reference.nrows {
      var a, b, n := bespoke.Rows(), reference.Rows(), reference.ncols;
      RowsContainedMeans(a, b, n, tol);
      if ordered && (orderKeys.None? || orderKeys.value == []) {
        PositionalMeans(a, b, tol);
      } else if ordered {
        KeysAgreeMeans(a, b, n, orderKeys.value, tol);
        if candidates.Some? {
          RowsContainedMeans(a, candidates.value, n, tol);
        }
      }
    }
  }

  lemma TwinsFew(b: seq<Row>, n: nat, floats: set<nat>, j: nat)
    requires Width(b, n) && j < |b|
    ensures |KeyTwins(b, n, floats, j)| <= |b|
  {
    SubsetSize(KeyTwins(b, n, floats, j), Below(|b|));
  }

  lemma AtMostOne(s: set<nat>)
    requires forall x, y | x in s && y in s :: x == y
    ensures |s| <= 1
  {
    if x :| x in s {
      assert s == {x};
    }
  }

  /** Where columns with floats hold nothing that is not a number, NaN or NULL, the matching is exact up to
      64 rows; and for any number of rows with at most one such column, or without a tolerance. */
  lemma DecidedUpTo64(a: seq<Row>, b: seq<Row>, n: nat, tol: real)
    requires Width(a, n) && Width(b, n) && tol < 1.0
    requires forall r: Row, l | (r in a || r in b) && 0 <= l < n && Floating(a, b, l) :: !r[l].Other?
    requires |b| <= 64 || tol <= 0.0 || forall l, m | 0 <= l < n && 0 <= m < n && Floating(a, b, l) && Floating(a, b, m) :: l == m
    ensures DecidedExactlyOn(a, b, n, tol)
  {
    var floats := FloatSet(a, b, n);
    forall l | 0 <= l < n ensures l in floats <==> Floating(a, b, l) {
      FloatingColumns(a, b, n, l);
    }
    assert NumericIn(a, n, floats) && NumericIn(b, n, floats);
    if |b| <= 64 {
      forall j | 0 <= j < |b| ensures |KeyTwins(b, n, floats, j)| <= 64 {
        TwinsFew(b, n, floats, j);
      }
    } else if tol > 0.0 {
      AtMostOne(floats);
    }
  }

  // ---- rounding is tolerated -------------------------------------------------------

  /** Some finite floats of b have been replaced by floats no further away than the tolerance, absolutely
      or relative to either. */
  ghost predicate Rounded(a: seq<Row>, b: seq<Row>, tol: real) {
    |a| == |b| && forall i | 0 <= i < |a| :: |a[i]| == |b[i]| && forall l | 0 <= l < |a[i]| ::
      a[i][l] == b[i][l] || (a[i][l].Real? && b[i][l].Real? && Near(a[i][l].x, b[i][l].x, tol))
  }

  /** Every form of the comparison accepts a reference without NaN whose floats were rounded within the
      tolerance; with a pool, if the pool holds the reference. */
  lemma RoundingTolerated(bespoke: Result, reference: Result, ordered: bool, orderKeys: Option<seq<nat>>, tol: real,
                          rowLimit: Option<nat>, candidates: Option<seq<Row>>)
    requires ArgumentsFit(bespoke, reference, orderKeys, candidates)
    requires bespoke.ncols == reference.ncols && bespoke.nrows == reference.nrows
    requires AllNaNFree(reference.Rows()) && Rounded(bespoke.Rows(), reference.Rows(), tol)
    requires candidates.Some? ==> multiset(reference.Rows()) <= multiset(candidates.value)
    ensures Agree(bespoke, reference, ordered, orderKeys, tol, rowLimit, candidates)
  {
    var a, b, n := bespoke.Rows(), reference.Rows(), reference.ncols;
    var keys := if orderKeys.Some? then orderKeys.value else [];
    RoundedInPlace(a, b, tol);
    PositionalMeans(a, b, tol);
    PositionalImpliesTieAware(a, b, n, keys, tol);
    if candidates.Some? {
      TieAwareImpliesPool(a, b, candidates.value, n, keys, tol);
    }
  }

  lemma RoundedInPlace(a: seq<Row>, b: seq<Row>, tol: real)
    requires AllNaNFree(b) && Rounded(a, b, tol)
    ensures AllInPlace(a, b, tol)
  {
    forall i, l | 0 <= i < |a| && 0 <= l < |a[i]| ensures InPlace(a[i][l], b[i][l], tol) {
      assert NaNFree(b[i]);
    }
  }

  // ---- NaN ---------------------------------------------------------------------

  lemma MatchedRowNaNFree(a: seq<Row>, b: seq<Row>, n: nat, i: nat, j: nat, tol: real)
    requires Width(a, n) && Width(b, n) && i < |a| && j < |b| && RowMatch(a[i], b[j], FloatSet(a, b, n), tol)
    ensures NaNFree(a[i]) && NaNFree(b[j])
  {
    forall l | 0 <= l < n && (a[i][l].IsFloat() || b[j][l].IsFloat()) ensures l in FloatSet(a, b, n) {
      assert IsFloatColumn(a, l) || IsFloatColumn(b, l);
    }
  }

  /** Rows that are matched hold no NaN; nor do the rows they use up, if all are used. */
  lemma ContainedNaNFree(a: seq<Row>, b: seq<Row>, n: nat, tol: real)
    requires Width(a, n) && Width(b, n) && RowsContained(a, b, n, tol)
    ensures AllNaNFree(a)
    ensures |a| == |b| ==> AllNaNFree(b)
  {
    var c := RowCompat(a, b, n, FloatSet(a, b, n), tol);
    var f := Chosen(c, |b|);
    forall i | 0 <= i < |a| ensures NaNFree(a[i]) && NaNFree(b[f[i]]) {
      assert c[i][f[i]];
      MatchedRowNaNFree(a, b, n, i, f[i], tol);
    }
    if |a| == |b| {
      forall j | 0 <= j < |b| ensures NaNFree(b[j]) {
        PermutationIsOnto(f, |b|, j);
        var i := PositionOf(f, j);
      }
    }
  }

  lemma PositionalNaNFree(a: seq<Row>, b: seq<Row>, tol: real)
    requires |a| == |b| && Positional(a, b, tol)
    ensures AllNaNFree(a) && AllNaNFree(b)
  {
    forall i | 0 <= i < |a| ensures NaNFree(a[i]) && NaNFree(b[i]) {
      assert RowEqual(a[i], b[i], tol);
    }
  }

  lemma PositionalSelf(a: seq<Row>, tol: real)
    requires AllNaNFree(a)
    ensures Positional(a, a, tol)
  {
    forall i, l | 0 <= i < |a| && 0 <= l < |a[i]| ensures CellEqual(a[i][l], a[i][l], tol) {
      CloseToItself(a[i][l], tol);
    }
  }

  /** The comparison checks membership in a pool. */
  predicate UsesPool(reference: Result, ordered: bool, orderKeys: Option<seq<nat>>, rowLimit: Option<nat>, candidates: Option<seq<Row>>) {
    ordered && orderKeys.Some? && orderKeys.value != [] && PoolInUse(reference.Rows(), rowLimit, candidates).Some?
  }

  /** A NaN of the engine's is refused by every form of the comparison, and one of the reference's
      wherever no pool is in use. */
  lemma NaNRefused(bespoke: Result, reference: Result, ordered: bool, orderKeys: Option<seq<nat>>,
                   tol: real, rowLimit: Option<nat>, candidates: Option<seq<Row>>)
    requires ArgumentsFit(bespoke, reference, orderKeys, candidates)
    requires Agree(bespoke, reference, ordered, orderKeys, tol, rowLimit, candidates)
    ensures AllNaNFree(bespoke.Rows())
    ensures !UsesPool(reference, ordered, orderKeys, rowLimit, candidates) ==> AllNaNFree(reference.Rows())
  {
    var a, b, n := bespoke.Rows(), reference.Rows(), reference.ncols;
    if ordered && (orderKeys.None? || orderKeys.value == []) {
      PositionalNaNFree(a, b, tol);
    } else if UsesPool(reference, ordered, orderKeys, rowLimit, candidates) {
      ContainedNaNFree(a, candidates.value, n, tol);
    } else {
      ContainedNaNFree(a, b, n, tol);
    }
  }

  /** Without a pool a result equals itself exactly if it holds no NaN; and this comparison is exact,
      whatever the number of rows and columns. */
  lemma EqualsItselfUnlessNaN(r: Result, ordered: bool, orderKeys: Option<seq<nat>>, tol: real, rowLimit: Option<nat>,
                              candidates: Option<seq<Row>>)
    requires ArgumentsFit(r, r, orderKeys, candidates) && !UsesPool(r, ordered, orderKeys, rowLimit, candidates)
    ensures ExactComparison(r, r, ordered, orderKeys, tol, rowLimit, candidates)
    ensures Agree(r, r, ordered, orderKeys, tol, rowLimit, candidates) <==> AllNaNFree(r.Rows())
  {
    var a, n := r.Rows(), r.ncols;
    if Agree(r, r, ordered, orderKeys, tol, rowLimit, candidates) {
      NaNRefused(r, r, ordered, orderKeys, tol, rowLimit, candidates);
    }
    if AllNaNFree(a) {
      PositionalSelf(a, tol);
      PositionalImpliesTieAware(a, a, n, if orderKeys.Some? then orderKeys.value else [], tol);
    }
  }

  /** With a pool, a NaN of the reference's outside the key columns is not looked at. */
  lemma PoolHidesReferenceNaN(tol: real)
    ensures
      var a, b := [[Int(1), Real(2.0)]], [[Int(1), NaN]];
      !AllNaNFree(b) && DrawnFromPool(a, b, b + a, 2, [0], tol)
  {
    var a, b := [[Int(1), Real(2.0)]], [[Int(1), NaN]];
    var pool := b + a;
    assert !NaNFree(b[0]) by {
      assert b[0][1].NaN?;
    }
    CloseToItself(Int(1), tol);
    CloseToItself(Real(2.0), tol);
    assert pool[1] == a[0];
    assert Saturates(RowCompat(a, pool, 2, FloatSet(a, pool, 2), tol), |pool|, [1]);
  }
}
