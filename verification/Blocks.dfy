/** Tables whose rows and columns carry labels, with compatibility only between equal labels:
    saturating such a table is saturating each label's block on its own. */
module Blocks {
  import opened Pairing

  /** Positions of k in labels, ascending. */
  function PositionsOf<K(==)>(labels: seq<K>, k: K): seq<nat> {
    if labels == [] then []
    else
      var last := |labels| - 1;
      PositionsOf(labels[..last], k) + (if labels[last] == k then [last] else [])
  }

  lemma {:induction false} PositionsMean<K>(labels: seq<K>, k: K)
    ensures Injection(PositionsOf(labels, k), |labels|)
    ensures forall i | 0 <= i < |labels| :: i in PositionsOf(labels, k) <==> labels[i] == k
  {
    if labels != [] {
      PositionsMean(labels[..|labels| - 1], k);
    }
  }

  /** The part of c picked by the row list p and the column list q. */
  ghost function Block(c: seq<seq<bool>>, m: nat, p: seq<nat>, q: seq<nat>): (c2: seq<seq<bool>>)
    requires Table(c, m) && Injection(p, |c|) && Injection(q, m)
    ensures Picked(c, m, p, q, c2)
  {
    seq(|p|, k requires 0 <= k < |p| => seq(|q|, l requires 0 <= l < |q| => c[p[k]][q[l]]))
  }

  ghost function LabelBlock<K>(c: seq<seq<bool>>, la: seq<K>, lb: seq<K>, k: K): (c2: seq<seq<bool>>)
    requires Table(c, |lb|) && |c| == |la|
    ensures Picked(c, |lb|, PositionsOf(la, k), PositionsOf(lb, k), c2)
  {
    PositionsMean(la, k);
    PositionsMean(lb, k);
    Block(c, |lb|, PositionsOf(la, k), PositionsOf(lb, k))
  }

  ghost predicate LabelsRespected<K>(c: seq<seq<bool>>, la: seq<K>, lb: seq<K>) {
    && |c| == |la| && Table(c, |lb|)
    && (forall i, j | 0 <= i < |la| && 0 <= j < |lb| && c[i][j] :: la[i] == lb[j])
  }

  ghost predicate BlockSaturable<K>(c: seq<seq<bool>>, la: seq<K>, lb: seq<K>, k: K)
    requires Table(c, |lb|) && |c| == |la|
  {
    Saturable(LabelBlock(c, la, lb, k), |PositionsOf(lb, k)|)
  }

  lemma WholeToBlock<K>(c: seq<seq<bool>>, la: seq<K>, lb: seq<K>, f: seq<nat>, k: K)
    requires LabelsRespected(c, la, lb) && Saturates(c, |lb|, f)
    ensures BlockSaturable(c, la, lb, k)
  {
    var p, q := PositionsOf(la, k), PositionsOf(lb, k);
    PositionsMean(la, k);
    PositionsMean(lb, k);
    forall l | 0 <= l < |p|
      ensures f[p[l]] in q
    {
      assert p[l] in p;
      assert c[p[l]][f[p[l]]];
    }
    var g := seq(|p|, l requires 0 <= l < |p| => PositionOf(q, f[p[l]]));
    var c2 := LabelBlock(c, la, lb, k);
    assert Saturates(c2, |q|, g) by {
      forall l, l2 | 0 <= l < l2 < |g|
        ensures g[l] != g[l2]
      {
        assert p[l] != p[l2] && f[p[l]] != f[p[l2]];
      }
      forall l | 0 <= l < |c2|
        ensures c2[l][g[l]]
      {
        assert c2[l][g[l]] == c[p[l]][f[p[l]]];
      }
    }
  }

  ghost function Chosen(c: seq<seq<bool>>, m: nat): (f: seq<nat>)
    requires Table(c, m) && Saturable(c, m)
    ensures Saturates(c, m, f)
  {
    var f :| Saturates(c, m, f);
    f
  }

  /** The column the block assignment of its label gives to row i. */
  ghost function Assembled<K>(c: seq<seq<bool>>, la: seq<K>, lb: seq<K>, i: nat): (j: nat)
    requires LabelsRespected(c, la, lb) && i < |la|
    requires BlockSaturable(c, la, lb, la[i])
    ensures j < |lb| && c[i][j]
  {
    var k := la[i];
    var p, q := PositionsOf(la, k), PositionsOf(lb, k);
    PositionsMean(la, k);
    PositionsMean(lb, k);
    var c2 := LabelBlock(c, la, lb, k);
    var l := PositionOf(p, i);
    assert c2[l][Chosen(c2, |q|)[l]] == c[p[l]][q[Chosen(c2, |q|)[l]]];
    q[Chosen(c2, |q|)[l]]
  }

  lemma AssembledDistinct<K>(c: seq<seq<bool>>, la: seq<K>, lb: seq<K>, i: nat, i2: nat)
    requires LabelsRespected(c, la, lb) && i < |la| && i2 < |la| && i != i2
    requires BlockSaturable(c, la, lb, la[i]) && BlockSaturable(c, la, lb, la[i2])
    ensures Assembled(c, la, lb, i) != Assembled(c, la, lb, i2)
  {
    var k := la[i];
    if la[i2] == k {
      PositionsMean(la, k);
      PositionsMean(lb, k);
      var g := Chosen(LabelBlock(c, la, lb, k), |PositionsOf(lb, k)|);
      var l, l2 := PositionOf(PositionsOf(la, k), i), PositionOf(PositionsOf(la, k), i2);
      assert g[l] != g[l2];
      assert Assembled(c, la, lb, i) == PositionsOf(lb, k)[g[l]];
      assert Assembled(c, la, lb, i2) == PositionsOf(lb, k)[g[l2]];
    } else {
      assert lb[Assembled(c, la, lb, i)] == la[i] && lb[Assembled(c, la, lb, i2)] == la[i2];
    }
  }

  /** A labelled table can be saturated exactly when every block can. */
  lemma BlockwiseSaturable<K(!new)>(c: seq<seq<bool>>, la: seq<K>, lb: seq<K>)
    requires LabelsRespected(c, la, lb)
    ensures Saturable(c, |lb|) <==> forall k | k in la :: BlockSaturable(c, la, lb, k)
  {
    if f :| Saturates(c, |lb|, f) {
      forall k | k in la
        ensures BlockSaturable(c, la, lb, k)
      {
        WholeToBlock(c, la, lb, f, k);
      }
    }
    if forall k | k in la :: BlockSaturable(c, la, lb, k) {
      var f := seq(|la|, i requires 0 <= i < |la| => Assembled(c, la, lb, i));
      forall i, i2 | 0 <= i < i2 < |f|
        ensures f[i] != f[i2]
      {
        AssembledDistinct(c, la, lb, i, i2);
      }
      assert Saturates(c, |lb|, f);
    }
  }

  // ---- label counts ------------------------------------------------------

  ghost predicate SameCounts<K(!new)>(la: seq<K>, lb: seq<K>) {
    forall k :: |PositionsOf(la, k)| == |PositionsOf(lb, k)|
  }

  lemma {:induction false} PositionsCount<K>(labels: seq<K>, k: K)
    ensures |PositionsOf(labels, k)| == multiset(labels)[k]
  {
    if labels != [] {
      PositionsCount(labels[..|labels| - 1], k);
      assert labels == labels[..|labels| - 1] + [labels[|labels| - 1]];
    }
  }

  /** Equal counts of every label mean equally many labels. */
  lemma SameCountsSameLength<K(!new)>(la: seq<K>, lb: seq<K>)
    requires SameCounts(la, lb)
    ensures multiset(la) == multiset(lb) && |la| == |lb|
  {
    forall k
      ensures multiset(la)[k] == multiset(lb)[k]
    {
      PositionsCount(la, k);
      PositionsCount(lb, k);
    }
    assert multiset(la) == multiset(lb);
    assert |multiset(la)| == |la| && |multiset(lb)| == |lb|;
  }

  /** A perfect matching respects the count of every label. */
  lemma PerfectMatchingCounts<K(!new)>(c: seq<seq<bool>>, la: seq<K>, lb: seq<K>)
    requires LabelsRespected(c, la, lb) && |la| == |lb| && Saturable(c, |lb|)
    ensures SameCounts(la, lb)
  {
    var f := Chosen(c, |lb|);
    assert multiset(la) <= multiset(lb) by {
      forall k
        ensures multiset(la)[k] <= multiset(lb)[k]
      {
        WholeToBlock(c, la, lb, f, k);
        Pigeonhole(Chosen(LabelBlock(c, la, lb, k), |PositionsOf(lb, k)|), |PositionsOf(lb, k)|);
        PositionsCount(la, k);
        PositionsCount(lb, k);
      }
    }
    assert multiset(lb) == multiset(la) + (multiset(lb) - multiset(la));
    assert |multiset(la)| == |la| && |multiset(lb)| == |lb|;
    assert multiset(la) == multiset(lb);
    forall k
      ensures |PositionsOf(la, k)| == |PositionsOf(lb, k)|
    {
      PositionsCount(la, k);
      PositionsCount(lb, k);
    }
  }
}
