/** One-to-one pairings between the rows and the columns of a compatibility table.

    Every verdict of the cross-check comes down to one question about a table `c` of booleans:
    can each row be given a column of its own among those it is compatible with? This module
    states the question and the finite counting facts about it. */
module Pairing {

  /** f gives each of its indices a place of its own below m. */
  ghost predicate Injection(f: seq<nat>, m: nat) {
    && (forall i | 0 <= i < |f| :: f[i] < m)
    && (forall i, j | 0 <= i < j < |f| :: f[i] != f[j])
  }

  /** A compatibility table with m columns. */
  predicate Table(c: seq<seq<bool>>, m: nat) {
    forall i | 0 <= i < |c| :: |c[i]| == m
  }

  /** f gives every row of c a compatible column, no column twice. */
  ghost predicate Saturates(c: seq<seq<bool>>, m: nat, f: seq<nat>)
    requires Table(c, m)
  {
    && |f| == |c|
    && Injection(f, m)
    && (forall i | 0 <= i < |c| :: c[i][f[i]])
  }

  ghost predicate Saturable(c: seq<seq<bool>>, m: nat)
    requires Table(c, m)
  {
    exists f :: Saturates(c, m, f)
  }

  ghost predicate IsPermutation(p: seq<nat>, n: nat) {
    |p| == n && Injection(p, n)
  }

  /** c2 is c with its rows and columns picked by the index lists p and q. */
  ghost predicate Picked(c: seq<seq<bool>>, m: nat, p: seq<nat>, q: seq<nat>, c2: seq<seq<bool>>)
    requires Table(c, m)
  {
    && |c2| == |p| && Table(c2, |q|)
    && (forall k | 0 <= k < |p| :: p[k] < |c|)
    && (forall l | 0 <= l < |q| :: q[l] < m)
    && (forall k, l | 0 <= k < |p| && 0 <= l < |q| :: c2[k][l] == c[p[k]][q[l]])
  }

  // ---- counting -------------------------------------------------------

  function Below(m: nat): (s: set<nat>)
    ensures forall v: nat :: v in s <==> v < m
    ensures |s| == m
  {
    if m == 0 then {} else Below(m - 1) + {m - 1}
  }

  lemma SubsetSize<T>(a: set<T>, b: set<T>)
    requires a <= b
    ensures |a| <= |b|
    ensures |a| == |b| ==> a == b
  {
    assert b == a + (b - a);
  }

  ghost function Image(f: seq<nat>): set<nat> {
    set v | v in f
  }

  lemma ImageSnoc(f: seq<nat>, m: nat)
    requires Injection(f, m) && f != []
    ensures Injection(f[..|f| - 1], m) && f[|f| - 1] !in Image(f[..|f| - 1])
    ensures Image(f) == Image(f[..|f| - 1]) + {f[|f| - 1]}
  {
    assert f == f[..|f| - 1] + [f[|f| - 1]];
  }

  lemma {:induction false} ImageSize(f: seq<nat>, m: nat)
    requires Injection(f, m)
    ensures |Image(f)| == |f|
  {
    if f != [] {
      var n := |f| - 1;
      ImageSnoc(f, m);
      ImageSize(f[..n], m);
    }
  }

  /** The pigeonhole principle. */
  lemma Pigeonhole(f: seq<nat>, m: nat)
    requires Injection(f, m)
    ensures |f| <= m
  {
    ImageSize(f, m);
    SubsetSize(Image(f), Below(m));
  }

  lemma PermutationIsOnto(p: seq<nat>, n: nat, v: nat)
    requires IsPermutation(p, n) && v < n
    ensures v in p
  {
    ImageSize(p, n);
    SubsetSize(Image(p), Below(n));
    assert v in Image(p);
  }

  /** Position of v in p. */
  ghost function PositionOf<T>(p: seq<T>, v: T): (k: nat)
    requires v in p
    ensures k < |p| && p[k] == v
  {
    var k :| 0 <= k < |p| && p[k] == v;
    k
  }

  ghost function Inverse(p: seq<nat>, n: nat): (r: seq<nat>)
    requires IsPermutation(p, n)
    ensures IsPermutation(r, n)
    ensures forall v | 0 <= v < n :: p[r[v]] == v
    ensures forall k | 0 <= k < n :: r[p[k]] == k
  {
    var r := seq(n, v requires 0 <= v < n => PermutationIsOnto(p, n, v); PositionOf(p, v));
    assert forall v | 0 <= v < n :: r[v] < n && p[r[v]] == v;
    r
  }

  // ---- Hall's condition -------------------------------------------------

  /** The columns compatible with some row of rs. */
  ghost function Neighbours(c: seq<seq<bool>>, m: nat, rs: set<nat>): set<nat>
    requires Table(c, m)
  {
    set j | j in Below(m) && exists i :: i in rs && i < |c| && c[i][j]
  }

  /** A set of rows with too few compatible columns. */
  ghost predicate HallViolator(c: seq<seq<bool>>, m: nat, rs: set<nat>)
    requires Table(c, m)
  {
    && (forall i | i in rs :: i < |c|)
    && |Neighbours(c, m, rs)| < |rs|
  }

  ghost function ImageOf(f: seq<nat>, rs: set<nat>): set<nat>
    requires forall i | i in rs :: i < |f|
  {
    set i | i in rs :: f[i]
  }

  lemma ImageOfMore(f: seq<nat>, m: nat, rs: set<nat>, x: nat)
    requires Injection(f, m) && x < |f| && x !in rs
    requires forall i | i in rs :: i < |f|
    ensures ImageOf(f, rs + {x}) == ImageOf(f, rs) + {f[x]} && f[x] !in ImageOf(f, rs)
  {
    forall i | i in rs ensures f[i] != f[x] {
      assert i < x || x < i;
    }
  }

  lemma {:induction false} SelectedImageSize(f: seq<nat>, m: nat, rs: set<nat>)
    requires Injection(f, m)
    requires forall i | i in rs :: i < |f|
    ensures |ImageOf(f, rs)| == |rs|
    decreases rs
  {
    if rs != {} {
      var x :| x in rs;
      var rest := rs - {x};
      SelectedImageSize(f, m, rest);
      ImageOfMore(f, m, rest, x);
      assert rest + {x} == rs;
    }
  }

  /** A Hall violator rules every saturating assignment out. */
  lemma HallViolatorRefutes(c: seq<seq<bool>>, m: nat, rs: set<nat>)
    requires Table(c, m) && HallViolator(c, m, rs)
    ensures !Saturable(c, m)
  {
    forall f | Saturates(c, m, f)
      ensures false
    {
      SelectedImageSize(f, m, rs);
      SubsetSize(ImageOf(f, rs), Neighbours(c, m, rs));
    }
  }

  // ---- reordering ---------------------------------------------------------

  /** First f, then g. */
  ghost function Compose(f: seq<nat>, g: seq<nat>): (h: seq<nat>)
    requires Injection(f, |g|)
    ensures |h| == |f| && forall i | 0 <= i < |f| :: h[i] == g[f[i]]
  {
    seq(|f|, i requires 0 <= i < |f| => g[f[i]])
  }

  lemma ComposeInjections(f: seq<nat>, g: seq<nat>, m: nat)
    requires Injection(f, |g|) && Injection(g, m)
    ensures Injection(Compose(f, g), m)
  {
    forall i, j | 0 <= i < j < |f|
      ensures g[f[i]] != g[f[j]]
    {
      assert f[i] < f[j] || f[j] < f[i];
    }
  }

  lemma ReorderingKeepsSaturable(c: seq<seq<bool>>, m: nat, p: seq<nat>, q: seq<nat>, c2: seq<seq<bool>>)
    requires Table(c, m) && IsPermutation(p, |c|) && IsPermutation(q, m)
    requires Picked(c, m, p, q, c2) && Saturable(c, m)
    ensures Saturable(c2, m)
  {
    var f :| Saturates(c, m, f);
    var qi := Inverse(q, m);
    ComposeInjections(p, f, m);
    ComposeInjections(Compose(p, f), qi, m);
    var g := Compose(Compose(p, f), qi);
    forall k | 0 <= k < |c2|
      ensures c2[k][g[k]]
    {
      assert q[g[k]] == f[p[k]];
      assert c[p[k]][f[p[k]]];
    }
    assert Saturates(c2, m, g);
  }

  /** Reordering rows and columns does not change whether a table can be saturated. */
  lemma ReorderedSaturable(c: seq<seq<bool>>, m: nat, p: seq<nat>, q: seq<nat>, c2: seq<seq<bool>>)
    requires Table(c, m) && IsPermutation(p, |c|) && IsPermutation(q, m)
    requires Picked(c, m, p, q, c2)
    ensures Saturable(c, m) <==> Saturable(c2, m)
  {
    var pi, qi := Inverse(p, |c|), Inverse(q, m);
    assert Picked(c2, m, pi, qi, c) by {
      forall i, j | 0 <= i < |c| && 0 <= j < m
        ensures c[i][j] == c2[pi[i]][qi[j]]
      {
        assert p[pi[i]] == i && q[qi[j]] == j;
      }
    }
    if Saturable(c, m) {
      ReorderingKeepsSaturable(c, m, p, q, c2);
    }
    if Saturable(c2, m) {
      ReorderingKeepsSaturable(c2, m, pi, qi, c);
    }
  }
}
