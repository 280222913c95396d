/** Result cells and their comparison.

    A cell is what a column hands to Python: NULL, a float (finite, infinite or NaN), an integer
    (booleans included), or any other value, which `float()` refuses and only `==` compares. */
module Cells {
  datatype Cell = Null | Real(x: real) | PosInf | NegInf | NaN | Int(n: int) | Other(id: int)
  {
    /** A genuine floating-point value. */
    predicate IsFloat() {
      Real? || PosInf? || NegInf? || NaN?
    }

    /** Anything a DOUBLE column can be compared as: not an `Other`. */
    predicate Numeric() {
      !Other?
    }
  }

  type Row = seq<Cell>

  function Abs(x: real): real {
    if x < 0.0 then -x else x
  }

  function Max(x: real, y: real): real {
    if x < y then y else x
  }

  /** The value of a finite number. */
  function Value(c: Cell): real
    requires c.Real? || c.Int?
  {
    if c.Int? then c.n as real else c.x
  }

  predicate Finite(c: Cell) {
    c.Real? || c.Int?
  }

  /** Closeness of two finite numbers: the relative and the absolute tolerance are both tol. A
      negative tolerance is refused by the library, and the comparison falls back to equality. */
  predicate Close(x: real, y: real, tol: real) {
    if tol < 0.0 then x == y else Abs(x - y) <= Max(tol * Max(Abs(x), Abs(y)), tol)
  }

  /** Float-column comparison: NULL matches only NULL, NaN matches nothing, infinities match
      themselves, values that are no numbers compare by equality. */
  predicate FloatClose(x: Cell, y: Cell, tol: real) {
    if x.Null? || y.Null? then x.Null? && y.Null?
    else if x.Other? || y.Other? then x == y
    else if x.NaN? || y.NaN? then false
    else if Finite(x) && Finite(y) then Close(Value(x), Value(y), tol)
    else x == y
  }

  /** Cell comparison of the positional verdict: tolerant as soon as one side is a float. */
  predicate CellEqual(x: Cell, y: Cell, tol: real) {
    if x.Null? || y.Null? then x.Null? && y.Null?
    else if x.IsFloat() || y.IsFloat() then FloatClose(x, y, tol)
    else x == y
  }

  predicate RowEqual(r: Row, s: Row, tol: real) {
    |r| == |s| && forall i | 0 <= i < |r| :: CellEqual(r[i], s[i], tol)
  }

  predicate NaNFree(r: Row) {
    forall i | 0 <= i < |r| :: !r[i].NaN?
  }

  predicate VecClose(u: Row, v: Row, tol: real)
    requires |u| == |v|
  {
    forall i | 0 <= i < |u| :: FloatClose(u[i], v[i], tol)
  }

  // ---- the sort key ---------------------------------------------------

  /** Rank of a cell's class in the sort key: numbers, then NaN, then NULL. */
  function Class(c: Cell): nat {
    if c.Null? then 2 else if c.NaN? then 1 else 0
  }

  /** Order of the third key component; a cell that is no number sorts as 0.0. */
  predicate NumberLeq(x: Cell, y: Cell) {
    if x.NegInf? || y.PosInf? then true
    else if x.PosInf? || y.NegInf? then false
    else KeyValue(x) <= KeyValue(y)
  }

  function KeyValue(c: Cell): real {
    if Finite(c) then Value(c) else 0.0
  }

  predicate KeyLeq(x: Cell, y: Cell) {
    Class(x) < Class(y) || (Class(x) == Class(y) && (Class(x) == 0 ==> NumberLeq(x, y)))
  }

  /** Tuples of keys compare lexicographically. */
  predicate VecLeq(u: Row, v: Row) {
    if u == [] then true
    else if v == [] then false
    else if KeyLeq(u[0], v[0]) && KeyLeq(v[0], u[0]) then VecLeq(u[1..], v[1..])
    else KeyLeq(u[0], v[0])
  }

  lemma KeyLeqIsTotalPreorder(x: Cell, y: Cell, z: Cell)
    ensures KeyLeq(x, y) || KeyLeq(y, x)
    ensures KeyLeq(x, y) && KeyLeq(y, z) ==> KeyLeq(x, z)
  {
  }

  /** Numbers sort by value between the infinities, then NaN, then NULL. */
  lemma SortKeyOrder(x: Cell, y: Cell)
    ensures Finite(x) && Finite(y) ==> (KeyLeq(x, y) <==> Value(x) <= Value(y))
    ensures Finite(x) ==> KeyLeq(NegInf, x) && !KeyLeq(x, NegInf) && KeyLeq(x, PosInf) && !KeyLeq(PosInf, x)
    ensures KeyLeq(PosInf, NaN) && !KeyLeq(NaN, PosInf) && KeyLeq(NaN, Null) && !KeyLeq(Null, NaN)
  {
  }

  lemma {:induction false} VecLeqTotal(u: Row, v: Row)
    ensures VecLeq(u, v) || VecLeq(v, u)
  {
    if u != [] && v != [] && KeyLeq(u[0], v[0]) && KeyLeq(v[0], u[0]) {
      VecLeqTotal(u[1..], v[1..]);
    }
  }

  lemma {:induction false} VecLeqTransitive(u: Row, v: Row, w: Row)
    requires VecLeq(u, v) && VecLeq(v, w)
    ensures VecLeq(u, w)
  {
    if u != [] {
      KeyLeqIsTotalPreorder(u[0], v[0], w[0]);
      KeyLeqIsTotalPreorder(w[0], v[0], u[0]);
      if KeyLeq(v[0], u[0]) && KeyLeq(w[0], v[0]) {
        VecLeqTransitive(u[1..], v[1..], w[1..]);
      } else if KeyLeq(w[0], u[0]) {
        KeyLeqIsTotalPreorder(v[0], w[0], u[0]);
        KeyLeqIsTotalPreorder(w[0], u[0], v[0]);
      }
    }
  }

  // ---- betweenness ----------------------------------------------------

  lemma ScaledMonotone(t: real, x: real, y: real)
    requires 0.0 <= t && x <= y
    ensures t * x <= t * y
  {
    assert t * (y - x) >= 0.0;
  }

  lemma LargerScale(d: real, p: real, q: real, tol: real)
    requires 0.0 <= tol
    ensures d <= Max(tol * Max(p, q), tol) <==> d <= tol || d <= tol * p || d <= tol * q
  {
    if p < q {
      ScaledMonotone(tol, p, q);
      assert Max(p, q) == q;
    } else {
      ScaledMonotone(tol, q, p);
      assert Max(p, q) == p;
    }
  }

  /** Scaling the larger magnitude is scaling either one. */
  lemma CloseEitherScale(x: real, y: real, tol: real)
    requires 0.0 <= tol
    ensures Close(x, y, tol) <==>
      Abs(x - y) <= tol || Abs(x - y) <= tol * Abs(x) || Abs(x - y) <= tol * Abs(y)
  {
    LargerScale(Abs(x - y), Abs(x), Abs(y), tol);
  }

  lemma PositiveBetween(x: real, y: real, z: real, tol: real)
    requires 0.0 <= tol < 1.0 && 0.0 <= x <= y <= z
    requires z - x <= tol * z
    ensures y - x <= tol * y
  {
    // (1 - tol) * y <= (1 - tol) * z <= x
    ScaledMonotone(1.0 - tol, y, z);
    assert (1.0 - tol) * z == z - tol * z && (1.0 - tol) * y == y - tol * y;
  }

  lemma OppositeSigns(x: real, z: real, tol: real)
    requires 0.0 <= tol < 1.0 && x < 0.0 < z
    ensures z - x > tol * z && z - x > tol * -x
  {
    ScaledMonotone(1.0 - tol, 0.0, z);
    ScaledMonotone(1.0 - tol, 0.0, -x);
    assert (1.0 - tol) * z == z - tol * z && (1.0 - tol) * -x == -x - tol * -x;
  }

  lemma NonnegativeCloseBetween(x: real, y: real, z: real, tol: real)
    requires 0.0 <= tol < 1.0 && 0.0 <= x <= y <= z && Close(x, z, tol)
    ensures Close(x, y, tol) && Close(y, z, tol)
  {
    CloseEitherScale(x, y, tol);
    CloseEitherScale(y, z, tol);
    CloseEitherScale(x, z, tol);
    if z - x > tol {
      ScaledMonotone(tol, x, z);
      PositiveBetween(x, y, z, tol);
    }
  }

  lemma CloseNegated(x: real, y: real, tol: real)
    ensures Close(-x, -y, tol) <==> Close(x, y, tol)
  {
  }

  lemma CloseSymmetric(x: real, y: real, tol: real)
    ensures Close(x, y, tol) <==> Close(y, x, tol)
  {
    if tol >= 0.0 {
      CloseEitherScale(x, y, tol);
      CloseEitherScale(y, x, tol);
    }
  }

  /** Numbers of opposite signs are close only within the absolute tolerance. */
  lemma StraddlingIsAbsolute(x: real, z: real, tol: real)
    requires 0.0 <= tol < 1.0 && x < 0.0 < z && Close(x, z, tol)
    ensures z - x <= tol
  {
    CloseEitherScale(x, z, tol);
    OppositeSigns(x, z, tol);
  }

  /** The tolerance relation is not transitive, but it is an interval relation: whatever lies
      between two close values is close to both. */
  lemma CloseBetween(x: real, y: real, z: real, tol: real)
    requires tol < 1.0 && x <= y <= z && Close(x, z, tol)
    ensures Close(x, y, tol) && Close(y, z, tol)
  {
    if tol < 0.0 {
    } else if x >= 0.0 {
      NonnegativeCloseBetween(x, y, z, tol);
    } else if z > 0.0 {
      StraddlingIsAbsolute(x, z, tol);
    } else {
      CloseNegated(x, z, tol);
      CloseSymmetric(-x, -z, tol);
      NonnegativeCloseBetween(-z, -y, -x, tol);
      CloseSymmetric(-x, -y, tol);
      CloseSymmetric(-y, -z, tol);
      CloseNegated(x, y, tol);
      CloseNegated(y, z, tol);
    }
  }

  lemma FloatCloseSymmetric(x: Cell, y: Cell, tol: real)
    ensures FloatClose(x, y, tol) <==> FloatClose(y, x, tol)
  {
    if Finite(x) && Finite(y) {
      CloseSymmetric(Value(x), Value(y), tol);
    }
  }

  /** Betweenness over whole float columns, with NaN, NULL and the infinities in their sort
      positions. */
  lemma FloatCloseBetween(lo: Cell, mid: Cell, hi: Cell, tol: real)
    requires tol < 1.0 && lo.Numeric() && mid.Numeric() && hi.Numeric()
    requires KeyLeq(lo, mid) && KeyLeq(mid, hi)
    requires FloatClose(lo, hi, tol)
    ensures FloatClose(lo, mid, tol) && FloatClose(mid, hi, tol)
  {
    if Finite(lo) && Finite(hi) {
      CloseBetween(Value(lo), Value(mid), Value(hi), tol);
    }
  }

  // ---- what the comparisons come to -----------------------------------

  /** Two numbers are equal, or differ by no more than the tolerance, absolutely or relative to either. */
  predicate Near(x: real, y: real, tol: real) {
    var d := if x < y then y - x else x - y;
    x == y || d <= tol || d <= tol * Abs(x) || d <= tol * Abs(y)
  }

  /** The same value, which is not NaN; or two numbers no further apart than the tolerance. */
  predicate Alike(x: Cell, y: Cell, tol: real) {
    (x == y && !x.NaN?) || (Finite(x) && Finite(y) && Near(Value(x), Value(y), tol))
  }

  lemma CloseIsNear(x: real, y: real, tol: real)
    ensures Close(x, y, tol) <==> Near(x, y, tol)
  {
    if tol >= 0.0 {
      CloseEitherScale(x, y, tol);
    } else {
      ScaledMonotone(-tol, 0.0, Abs(x));
      ScaledMonotone(-tol, 0.0, Abs(y));
    }
  }

  /** In a float column two cells are close exactly if they are alike. */
  lemma FloatCloseMeans(x: Cell, y: Cell, tol: real)
    ensures FloatClose(x, y, tol) <==> Alike(x, y, tol)
  {
    if Finite(x) && Finite(y) {
      CloseIsNear(Value(x), Value(y), tol);
    }
  }

  /** By position, two cells are the same value, or numbers, one of them a float, no further apart than
      the tolerance. */
  lemma CellEqualMeans(x: Cell, y: Cell, tol: real)
    ensures CellEqual(x, y, tol) <==>
      (x == y && !x.NaN?) || (Finite(x) && Finite(y) && (x.Real? || y.Real?) && Near(Value(x), Value(y), tol))
  {
    FloatCloseMeans(x, y, tol);
  }

  /** Of two numbers, one of them a float, exactly those further apart than the tolerance are refused. */
  lemma NumbersRefused(x: Cell, y: Cell, tol: real)
    requires Finite(x) && Finite(y) && (x.Real? || y.Real?)
    ensures !CellEqual(x, y, tol) <==> !Near(Value(x), Value(y), tol)
  {
    CellEqualMeans(x, y, tol);
    if x == y {
      assert Near(Value(x), Value(y), tol);
    }
  }

  /** Closeness is not transitive. */
  lemma FloatCloseNotTransitive()
    ensures FloatClose(Real(0.0), Real(0.5), 0.5) && FloatClose(Real(0.5), Real(1.0), 0.5)
    ensures !FloatClose(Real(0.0), Real(1.0), 0.5)
  {
  }
}
