/** Checking a result that ORDER BY ... LIMIT truncated.

    The reference is re-run with a growing limit until every row the window could have contained is
    in hand; the engine's rows must then come from that pool, in the reference's key order. */
module CandidatePool {
  import opened Pairing
  import opened Cells
  import opened SortedMatch
  import opened RowVerdict
  import opened Verdict
  import opened Wrappers

  /** How far the query may be widened, as a multiple of the rows its window covers. */
  const MAX_WIDEN_FACTOR := 1024

  /** The most widened queries one check asks. */
  const MAX_ROUNDS := 11

  /** The limit of the k-th widened query: the window doubled k times. */
  function Widened(window: nat, k: nat): nat
    requires k <= MAX_ROUNDS
  {
    match k
    case 0 => window
    case 1 => 2 * window
    case 2 => 4 * window
    case 3 => 8 * window
    case 4 => 16 * window
    case 5 => 32 * window
    case 6 => 64 * window
    case 7 => 128 * window
    case 8 => 256 * window
    case 9 => 512 * window
    case 10 => 1024 * window
    case _ => 2048 * window
  }

  /** The reference fills a positive limit under a non-empty key. */
  predicate Truncated(reference: Result, keys: seq<nat>, rowLimit: Option<nat>) {
    reference.Rows() != [] && keys != [] && rowLimit.Some? && |reference.Rows()| == rowLimit.value
  }

  /** A widened result that failed to run, or has no rows. */
  predicate Unusable(widened: Option<Result>) {
    widened.None? || widened.value.Rows() == []
  }

  /** The rows of a widened result show the whole tie group the window ends in: they fall short of
      the limit, or end on another key. */
  predicate Closes(rows: seq<Row>, limit: nat, keys: seq<nat>, lastKey: Row, tol: real)
    requires rows != [] && KeysIn(keys, |rows[|rows| - 1]|)
  {
    |rows| < limit || !RowEqual(Project(rows[|rows| - 1], keys), lastKey, tol)
  }

  /** The answers to the widened queries, in the order they are asked: replies[k - 1] is what the
      query over the first window * 2^k rows returned. */
  ghost predicate RepliesFit(replies: seq<Option<Result>>, n: nat) {
    && |replies| == MAX_ROUNDS
    && (forall k | 0 <= k < MAX_ROUNDS && replies[k].Some? :: replies[k].value.Valid() && replies[k].value.ncols == n)
  }

  /** The k-th widening neither failed nor closed the group. */
  ghost predicate Inconclusive(replies: seq<Option<Result>>, n: nat, window: nat, k: nat, keys: seq<nat>, lastKey: Row, tol: real)
    requires RepliesFit(replies, n) && KeysIn(keys, n) && 1 <= k <= MAX_ROUNDS
  {
    !Unusable(replies[k - 1]) && !Closes(replies[k - 1].value.Rows(), Widened(window, k), keys, lastKey, tol)
  }

  /** How the search ends: after inconclusive widenings with a closing one, whose rows are the pool;
      with an unusable one; or after eleven inconclusive ones. */
  ghost predicate Searched(replies: seq<Option<Result>>, n: nat, window: nat, rounds: nat, reach: nat, keys: seq<nat>, lastKey: Row,
                           tol: real, pool: Option<seq<Row>>)
    requires RepliesFit(replies, n) && KeysIn(keys, n)
  {
    && 1 <= rounds <= MAX_ROUNDS && reach == Widened(window, rounds) && window <= reach
    && (forall k | 1 <= k < rounds :: Inconclusive(replies, n, window, k, keys, lastKey, tol))
    && var last := replies[rounds - 1];
       match pool
       case Some(p) => !Unusable(last) && p == last.value.Rows() && Closes(p, reach, keys, lastKey, tol)
       case None => Unusable(last) || (rounds == MAX_ROUNDS && Inconclusive(replies, n, window, rounds, keys, lastKey, tol))
  }

  /** Only a truncated reference is searched for. */
  ghost predicate SearchOutcome(reference: Result, keys: seq<nat>, rowLimit: Option<nat>, rowOffset: nat,
                                replies: seq<Option<Result>>, tol: real, rounds: nat, reach: nat, pool: Option<seq<Row>>)
    requires reference.Valid() && KeysIn(keys, reference.ncols) && RepliesFit(replies, reference.ncols)
  {
    if Truncated(reference, keys, rowLimit) then
      Searched(replies, reference.ncols, rowOffset + rowLimit.value, rounds, reach, keys,
               Project(reference.Rows()[rowLimit.value - 1], keys), tol, pool)
    else
      pool.None?
  }

  /** Every row the window could have contained, or None. The k-th widened query asks for
      window * 2^k rows, for k from 1 up to at most 11; the last one spans 2048 windows. */
  method CandidateSuperset(reference: Result, keys: seq<nat>, rowLimit: Option<nat>, rowOffset: nat,
                           replies: seq<Option<Result>>, tol: real)
    returns (pool: Option<seq<Row>>, rounds: nat, limit: nat)
    requires reference.Valid() && KeysIn(keys, reference.ncols) && RepliesFit(replies, reference.ncols)
    ensures SearchOutcome(reference, keys, rowLimit, rowOffset, replies, tol, rounds, limit, pool)
    ensures pool.Some? ==> reference.Rows() != [] && keys != [] && rowLimit == Some(|reference.Rows()|)
  {
    var rows := reference.Rows();
    rounds, limit := 0, 0;
    if rows == [] || keys == [] || rowLimit.None? || |rows| != rowLimit.value {
      return None, rounds, limit;
    }
    var lastKey := Project(rows[|rows| - 1], keys);
    var window := rowOffset + rowLimit.value;
    limit := window;
    while limit <= window * MAX_WIDEN_FACTOR
      invariant rounds <= MAX_ROUNDS && limit == Widened(window, rounds)
      invariant forall k | 1 <= k <= rounds :: Inconclusive(replies, reference.ncols, window, k, keys, lastKey, tol)
      decreases MAX_ROUNDS - rounds
    {
      limit := limit * 2;
      rounds := rounds + 1;
      var widened := replies[rounds - 1];
      if widened.None? {
        return None, rounds, limit;
      }
      var wrows := widened.value.Rows();
      if wrows == [] {
        return None, rounds, limit;
      }
      if |wrows| < limit || !RowEqual(Project(wrows[|wrows| - 1], keys), lastKey, tol) {
        return Some(wrows), rounds, limit;
      }
    }
    return None, rounds, limit;
  }

  // ---- rankings and windows ------------------------------------------------

  /** An order on key tuples, as the set of its pairs. */
  type KeyOrder = iset<(Row, Row)>

  ghost predicate Leq(leq: KeyOrder, x: Row, y: Row) {
    (x, y) in leq
  }

  /** leq orders key tuples totally: tied keys are equal keys. */
  ghost predicate TotalOrder(leq: KeyOrder) {
    && (forall x, y :: Leq(leq, x, y) || Leq(leq, y, x))
    && (forall x, y :: Leq(leq, x, y) && Leq(leq, y, x) ==> x == y)
    && (forall x, y, z :: Leq(leq, x, y) && Leq(leq, y, z) ==> Leq(leq, x, z))
  }

  // An order of this kind, on all key tuples.

  function Rank(c: Cell): nat {
    match c
    case NegInf => 0
    case Int(_) => 1
    case Real(_) => 2
    case PosInf => 3
    case NaN => 4
    case Other(_) => 5
    case Null => 6
  }

  predicate CellLeq(x: Cell, y: Cell) {
    || Rank(x) < Rank(y)
    || (Rank(x) == Rank(y) && (x.Int? ==> x.n <= y.n) && (x.Real? ==> x.x <= y.x) && (x.Other? ==> x.id <= y.id))
  }

  predicate TupleLeq(u: Row, v: Row) {
    if u == [] || v == [] then u == [] else if u[0] == v[0] then TupleLeq(u[1..], v[1..]) else CellLeq(u[0], v[0])
  }

  lemma {:induction false} TupleTotal(u: Row, v: Row)
    ensures TupleLeq(u, v) || TupleLeq(v, u)
    ensures TupleLeq(u, v) && TupleLeq(v, u) ==> u == v
  {
    if u != [] && v != [] && u[0] == v[0] {
      TupleTotal(u[1..], v[1..]);
      assert u == [u[0]] + u[1..] && v == [v[0]] + v[1..];
    }
  }

  lemma {:induction false} TupleTransitive(u: Row, v: Row, w: Row)
    requires TupleLeq(u, v) && TupleLeq(v, w)
    ensures TupleLeq(u, w)
  {
    if u != [] && u[0] == v[0] == w[0] {
      TupleTransitive(u[1..], v[1..], w[1..]);
    }
  }

  lemma SomeTotalOrder() returns (leq: KeyOrder)
    ensures TotalOrder(leq)
  {
    leq := iset u: Row, v: Row | TupleLeq(u, v) :: (u, v);
    forall u, v ensures Leq(leq, u, v) || Leq(leq, v, u)
      ensures Leq(leq, u, v) && Leq(leq, v, u) ==> u == v
    {
      TupleTotal(u, v);
    }
    forall u, v, w | Leq(leq, u, v) && Leq(leq, v, w) ensures Leq(leq, u, w) {
      TupleTransitive(u, v, w);
    }
  }

  ghost function KeysOf(w: seq<Row>, n: nat, keys: seq<nat>): (ks: seq<Row>)
    requires Width(w, n) && KeysIn(keys, n)
    ensures |ks| == |w| && forall i | 0 <= i < |w| :: ks[i] == Project(w[i], keys)
  {
    seq(|w|, i requires 0 <= i < |w| => Project(w[i], keys))
  }

  ghost predicate InOrder(ks: seq<Row>, leq: KeyOrder) {
    forall i, j | 0 <= i < j < |ks| :: Leq(leq, ks[i], ks[j])
  }

  /** w is one of the orders in which ORDER BY may deliver the rows of the ranking. */
  ghost predicate Ordering(w: seq<Row>, ranking: multiset<Row>, n: nat, keys: seq<nat>, leq: KeyOrder)
    requires KeysIn(keys, n)
  {
    Width(w, n) && multiset(w) == ranking && InOrder(KeysOf(w, n, keys), leq)
  }

  function Min(x: nat, y: nat): nat {
    if x < y then x else y
  }

  /** LIMIT limit OFFSET offset of w. */
  function Window(w: seq<Row>, offset: nat, limit: nat): seq<Row> {
    w[Min(offset, |w|)..Min(offset + limit, |w|)]
  }

  /** rows is the window of some legal order of the ranking. */
  ghost predicate LegalWindow(rows: seq<Row>, ranking: multiset<Row>, n: nat, keys: seq<nat>, leq: KeyOrder,
                              offset: nat, limit: nat)
    requires KeysIn(keys, n)
  {
    exists w :: Ordering(w, ranking, n, keys, leq) && rows == Window(w, offset, limit)
  }

  function Drop(s: seq<Row>, j: nat): (r: seq<Row>)
    requires j < |s|
    ensures |r| == |s| - 1
  {
    s[..j] + s[j + 1..]
  }

  lemma Dropped(s: seq<Row>, j: nat)
    requires j < |s|
    ensures multiset(s) == multiset(Drop(s, j)) + multiset{s[j]}
  {
    assert s == s[..j] + [s[j]] + s[j + 1..];
  }

  lemma DropSame(s: seq<Row>, j: nat, t: seq<Row>, k: nat)
    requires j < |s| && k < |t| && s[j] == t[k] && multiset(s) == multiset(t)
    ensures multiset(Drop(s, j)) == multiset(Drop(t, k))
  {
    Dropped(s, j);
    Dropped(t, k);
    assert multiset(Drop(s, j)) == multiset(s) - multiset{s[j]};
  }

  lemma SameSize(s: seq<Row>, t: seq<Row>)
    requires multiset(s) == multiset(t)
    ensures |s| == |t|
    ensures forall r :: r in s <==> r in t
  {
    assert |s| == |multiset(s)| && |t| == |multiset(t)|;
    assert forall r :: r in s <==> r in multiset(s);
    assert forall r :: r in t <==> r in multiset(t);
  }

  lemma SortedHead(x: seq<Row>, y: seq<Row>, leq: KeyOrder)
    requires TotalOrder(leq) && InOrder(x, leq) && InOrder(y, leq)
    requires x != [] && y != [] && x[0] in y && y[0] in x
    ensures x[0] == y[0]
  {
    var i, j := PositionOf(x, y[0]), PositionOf(y, x[0]);
    assert Leq(leq, x[0], x[0]) && Leq(leq, y[0], y[0]);
    assert Leq(leq, x[0], x[i]) && Leq(leq, y[0], y[j]);
  }

  /** Two sorted lists with the same elements are the same list. */
  lemma {:induction false} SortedUnique(x: seq<Row>, y: seq<Row>, leq: KeyOrder)
    requires TotalOrder(leq) && InOrder(x, leq) && InOrder(y, leq) && multiset(x) == multiset(y)
    ensures x == y
  {
    SameSize(x, y);
    if x != [] {
      assert x[0] in x && y[0] in y;
      SortedHead(x, y, leq);
      DropSame(x, 0, y, 0);
      assert Drop(x, 0) == x[1..] && Drop(y, 0) == y[1..];
      SortedUnique(x[1..], y[1..], leq);
    }
  }

  lemma KeysOfDrop(w: seq<Row>, n: nat, keys: seq<nat>, j: nat)
    requires Width(w, n) && KeysIn(keys, n) && j < |w|
    ensures Width(Drop(w, j), n)
    ensures KeysOf(Drop(w, j), n, keys) == Drop(KeysOf(w, n, keys), j)
  {
  }

  lemma {:induction false} SameRowsSameKeys(v: seq<Row>, w: seq<Row>, n: nat, keys: seq<nat>)
    requires Width(v, n) && Width(w, n) && KeysIn(keys, n) && multiset(v) == multiset(w)
    ensures multiset(KeysOf(v, n, keys)) == multiset(KeysOf(w, n, keys))
  {
    SameSize(v, w);
    if v != [] {
      assert v[0] in v;
      var j := PositionOf(w, v[0]);
      DropSame(v, 0, w, j);
      KeysOfDrop(v, n, keys, 0);
      KeysOfDrop(w, n, keys, j);
      SameRowsSameKeys(Drop(v, 0), Drop(w, j), n, keys);
      Dropped(KeysOf(v, n, keys), 0);
      Dropped(KeysOf(w, n, keys), j);
    }
  }

  /** Every legal order of a ranking shows the same key at the same rank. */
  lemma KeysFixed(v: seq<Row>, w: seq<Row>, ranking: multiset<Row>, n: nat, keys: seq<nat>, leq: KeyOrder)
    requires TotalOrder(leq) && KeysIn(keys, n)
    requires Ordering(v, ranking, n, keys, leq) && Ordering(w, ranking, n, keys, leq)
    ensures |v| == |w| && KeysOf(v, n, keys) == KeysOf(w, n, keys)
  {
    assert |v| == |multiset(v)| && |w| == |multiset(w)|;
    SameRowsSameKeys(v, w, n, keys);
    SortedUnique(KeysOf(v, n, keys), KeysOf(w, n, keys), leq);
  }

  // ---- every row list with the right keys is a legal window -----------------

  ghost function Listed(m: multiset<Row>): (s: seq<Row>)
    ensures multiset(s) == m
    decreases |m|
  {
    if m == multiset{} then []
    else
      var x :| x in m;
      [x] + Listed(m - multiset{x})
  }

  lemma RestKeys(rows: seq<Row>, n: nat, keys: seq<nat>, ks: seq<Row>) returns (j: nat)
    requires Width(rows, n) && KeysIn(keys, n) && ks != []
    requires multiset(KeysOf(rows, n, keys)) == multiset(ks)
    ensures j < |rows| && Project(rows[j], keys) == ks[0] && Width(Drop(rows, j), n)
    ensures multiset(KeysOf(Drop(rows, j), n, keys)) == multiset(Drop(ks, 0))
  {
    var kr := KeysOf(rows, n, keys);
    SameSize(kr, ks);
    assert ks[0] in ks;
    j := PositionOf(kr, ks[0]);
    DropSame(kr, j, ks, 0);
    KeysOfDrop(rows, n, keys, j);
  }

  lemma RowInFront(rows: seq<Row>, n: nat, keys: seq<nat>, ks: seq<Row>, j: nat, rest: seq<Row>)
    requires Width(rows, n) && KeysIn(keys, n) && ks != [] && j < |rows| && Project(rows[j], keys) == ks[0]
    requires Width(rest, n) && multiset(rest) == multiset(Drop(rows, j)) && KeysOf(rest, n, keys) == Drop(ks, 0)
    ensures var r := [rows[j]] + rest; Width(r, n) && multiset(r) == multiset(rows) && KeysOf(r, n, keys) == ks
  {
    Dropped(rows, j);
    assert KeysOf([rows[j]] + rest, n, keys) == [ks[0]] + KeysOf(rest, n, keys);
    assert ks == [ks[0]] + Drop(ks, 0);
  }

  /** Rows can be arranged to show any arrangement of their keys. */
  lemma {:induction false} Arrange(rows: seq<Row>, n: nat, keys: seq<nat>, ks: seq<Row>) returns (r: seq<Row>)
    requires Width(rows, n) && KeysIn(keys, n)
    requires multiset(KeysOf(rows, n, keys)) == multiset(ks)
    ensures Width(r, n) && multiset(r) == multiset(rows) && KeysOf(r, n, keys) == ks
    decreases |ks|
  {
    SameSize(KeysOf(rows, n, keys), ks);
    if ks == [] {
      r := [];
    } else {
      var j := RestKeys(rows, n, keys, ks);
      var rest := Arrange(Drop(rows, j), n, keys, Drop(ks, 0));
      RowInFront(rows, n, keys, ks, j, rest);
      r := [rows[j]] + rest;
    }
  }

  lemma WidthFromMultiset(s: seq<Row>, w: seq<Row>, n: nat)
    requires Width(w, n) && multiset(s) <= multiset(w)
    ensures Width(s, n)
  {
    forall i | 0 <= i < |s|
      ensures |s[i]| == n
    {
      assert s[i] in multiset(s) && s[i] in multiset(w);
    }
  }

  lemma KeysOfParts(u: seq<Row>, v: seq<Row>, n: nat, keys: seq<nat>)
    requires Width(u, n) && Width(v, n) && KeysIn(keys, n)
    ensures KeysOf(u + v, n, keys) == KeysOf(u, n, keys) + KeysOf(v, n, keys)
  {
  }

  lemma OutsideSlice(s: seq<Row>, lo: nat, hi: nat)
    requires lo <= hi <= |s|
    ensures multiset(s) == multiset(s[..lo] + s[hi..]) + multiset(s[lo..hi])
  {
    assert s == s[..lo] + s[lo..hi] + s[hi..];
  }

  lemma RemainingKeys(e: seq<Row>, rest: seq<Row>, w: seq<Row>, n: nat, keys: seq<nat>)
    requires Width(w, n) && Width(e, n) && Width(rest, n) && KeysIn(keys, n)
    requires multiset(rest) + multiset(e) == multiset(w)
    ensures multiset(KeysOf(rest, n, keys)) + multiset(KeysOf(e, n, keys)) == multiset(KeysOf(w, n, keys))
  {
    assert multiset(rest + e) == multiset(w);
    SameRowsSameKeys(rest + e, w, n, keys);
    KeysOfParts(rest, e, n, keys);
  }

  lemma CancelRight(x: multiset<Row>, y: multiset<Row>, z: multiset<Row>)
    requires x + z == y + z
    ensures x == y
  {
    assert x == (x + z) - z && y == (y + z) - z;
  }

  /** The rows outside a window can be arranged under the keys outside it. */
  lemma RestArranged(e: seq<Row>, w: seq<Row>, n: nat, keys: seq<nat>, lo: nat, hi: nat, outside: seq<Row>) returns (r: seq<Row>)
    requires Width(w, n) && Width(e, n) && KeysIn(keys, n) && lo <= hi <= |w|
    requires multiset(e) <= multiset(w) && KeysOf(e, n, keys) == KeysOf(w, n, keys)[lo..hi]
    requires outside == KeysOf(w, n, keys)[..lo] + KeysOf(w, n, keys)[hi..]
    ensures Width(r, n) && multiset(r) + multiset(e) == multiset(w) && KeysOf(r, n, keys) == outside
  {
    var rest := Listed(multiset(w) - multiset(e));
    WidthFromMultiset(rest, w, n);
    RemainingKeys(e, rest, w, n, keys);
    OutsideSlice(KeysOf(w, n, keys), lo, hi);
    CancelRight(multiset(KeysOf(rest, n, keys)), multiset(outside), multiset(KeysOf(e, n, keys)));
    r := Arrange(rest, n, keys, outside);
  }

  function Inserted(r: seq<Row>, e: seq<Row>, lo: nat): seq<Row>
    requires lo <= |r|
  {
    r[..lo] + e + r[lo..]
  }

  lemma InsertedRows(r: seq<Row>, e: seq<Row>, lo: nat)
    requires lo <= |r|
    ensures multiset(Inserted(r, e, lo)) == multiset(r) + multiset(e)
    ensures Inserted(r, e, lo)[lo..lo + |e|] == e
  {
    assert r == r[..lo] + r[lo..];
  }

  lemma InsertedKeys(r: seq<Row>, e: seq<Row>, lo: nat, n: nat, keys: seq<nat>)
    requires lo <= |r| && Width(r, n) && Width(e, n) && KeysIn(keys, n)
    ensures Width(Inserted(r, e, lo), n)
    ensures KeysOf(Inserted(r, e, lo), n, keys) == Inserted(KeysOf(r, n, keys), KeysOf(e, n, keys), lo)
  {
  }

  lemma SlottedKeys(ks: seq<Row>, lo: nat, hi: nat)
    requires lo <= hi <= |ks|
    ensures Inserted(ks[..lo] + ks[hi..], ks[lo..hi], lo) == ks
  {
  }

  /** Rows of the ranking that show the keys of ranks lo..hi can stand at those ranks. */
  lemma Slotted(e: seq<Row>, w: seq<Row>, ranking: multiset<Row>, n: nat, keys: seq<nat>, leq: KeyOrder, lo: nat, hi: nat)
    returns (v: seq<Row>)
    requires KeysIn(keys, n) && Ordering(w, ranking, n, keys, leq)
    requires lo <= hi <= |w| && Width(e, n) && multiset(e) <= ranking
    requires KeysOf(e, n, keys) == KeysOf(w, n, keys)[lo..hi]
    ensures Ordering(v, ranking, n, keys, leq) && |v| == |w| && v[lo..hi] == e
  {
    var ks := KeysOf(w, n, keys);
    var r := RestArranged(e, w, n, keys, lo, hi, ks[..lo] + ks[hi..]);
    assert |KeysOf(e, n, keys)| == hi - lo && |KeysOf(r, n, keys)| == |w| - (hi - lo);
    InsertedRows(r, e, lo);
    InsertedKeys(r, e, lo, n, keys);
    v := Inserted(r, e, lo);
    SlottedKeys(ks, lo, hi);
  }

  // ---- the pool holds every row a legal window may show ------------------------

  lemma KeyLeftBehind(ks: seq<Row>, leq: KeyOrder, i: nat, end: nat, reach: nat, p: nat)
    requires TotalOrder(leq) && InOrder(ks, leq)
    requires i < end <= reach <= p < |ks| && ks[reach - 1] != ks[end - 1]
    ensures ks[i] != ks[p]
  {
    assert Leq(leq, ks[end - 1], ks[reach - 1]) && Leq(leq, ks[reach - 1], ks[p]);
    assert !Leq(leq, ks[reach - 1], ks[end - 1]);
    assert Leq(leq, ks[i], ks[end - 1]) || i == end - 1;
  }

  /** A prefix of a legal order that reaches past the window, and either is the whole ranking or
      ends on another key than the window, holds the rows of every legal window. */
  lemma PoolHoldsWindow(v: seq<Row>, w: seq<Row>, ranking: multiset<Row>, n: nat, keys: seq<nat>, leq: KeyOrder,
                        end: nat, reach: nat)
    requires TotalOrder(leq) && KeysIn(keys, n)
    requires Ordering(v, ranking, n, keys, leq) && Ordering(w, ranking, n, keys, leq)
    requires 0 < end <= |v| && end <= reach
    requires reach > |w| || (reach <= |w| && Project(w[reach - 1], keys) != Project(v[end - 1], keys))
    ensures multiset(v[..end]) <= multiset(w[..Min(reach, |w|)])
  {
    KeysFixed(v, w, ranking, n, keys, leq);
    assert v == v[..end] + v[end..];
    if reach > |w| {
      assert w[..Min(reach, |w|)] == w;
    } else {
      forall r | r in v[..end]
        ensures multiset(v[..end])[r] <= multiset(w[..reach])[r]
      {
        PoolHoldsRow(v, w, ranking, n, keys, leq, end, reach, r);
      }
    }
  }

  lemma PoolHoldsRow(v: seq<Row>, w: seq<Row>, ranking: multiset<Row>, n: nat, keys: seq<nat>, leq: KeyOrder,
                     end: nat, reach: nat, r: Row)
    requires TotalOrder(leq) && KeysIn(keys, n)
    requires Ordering(v, ranking, n, keys, leq) && Ordering(w, ranking, n, keys, leq)
    requires 0 < end <= |v| && end <= reach <= |w| && r in v[..end]
    requires KeysOf(v, n, keys) == KeysOf(w, n, keys)
    requires Project(w[reach - 1], keys) != Project(v[end - 1], keys)
    ensures multiset(v[..end])[r] <= multiset(w[..reach])[r]
  {
    var ks := KeysOf(v, n, keys);
    var i :| 0 <= i < end && v[i] == r;
    forall p | reach <= p < |w|
      ensures w[p] != r
    {
      assert ks[reach - 1] == Project(w[reach - 1], keys) && ks[end - 1] == Project(v[end - 1], keys);
      KeyLeftBehind(ks, leq, i, end, reach, p);
      assert ks[p] == Project(w[p], keys) && ks[i] == Project(r, keys);
    }
    PrefixCounts(v, end, r);
    PrefixCounts(w, reach, r);
  }

  lemma PrefixCounts(s: seq<Row>, k: nat, r: Row)
    requires k <= |s|
    ensures multiset(s[..k])[r] <= multiset(s)[r]
    ensures (forall p | k <= p < |s| :: s[p] != r) ==> multiset(s[..k])[r] == multiset(s)[r]
  {
    assert s == s[..k] + s[k..];
    assert multiset(s) == multiset(s[..k]) + multiset(s[k..]);
    if forall p | k <= p < |s| :: s[p] != r {
      assert r !in s[k..];
    }
  }

  // ---- exact cells ---------------------------------------------------------------

  ghost predicate NoFloats(rows: seq<Row>) {
    forall i, k | 0 <= i < |rows| && 0 <= k < |rows[i]| :: !rows[i][k].IsFloat()
  }

  lemma ExactContainment(a: seq<Row>, b: seq<Row>, n: nat, tol: real)
    requires Width(a, n) && Width(b, n) && NoFloats(a) && NoFloats(b)
    ensures DecidedExactlyOn(a, b, n, tol)
    ensures RowsContained(a, b, n, tol) <==> multiset(a) <= multiset(b)
  {
    assert FloatSet(a, b, n) == {};
    var c, c2 := RowCompat(a, b, n, {}, tol), Same(a, b);
    forall i, j | 0 <= i < |a| && 0 <= j < |b|
      ensures c[i][j] == c2[i][j]
    {
    }
    forall i | 0 <= i < |a|
      ensures c[i] == c2[i]
    {
    }
    assert c == c2;
    SubmultisetSaturates(a, b);
  }

  lemma ExactRowEqual(r: Row, s: Row, keys: seq<nat>, tol: real)
    requires KeysIn(keys, |r|) && |r| == |s|
    requires forall k | 0 <= k < |r| :: !r[k].IsFloat() && !s[k].IsFloat()
    ensures RowEqual(Project(r, keys), Project(s, keys), tol) <==> Project(r, keys) == Project(s, keys)
  {
  }

  lemma ExactKeysAgree(a: seq<Row>, b: seq<Row>, n: nat, keys: seq<nat>, tol: real)
    requires Width(a, n) && Width(b, n) && KeysIn(keys, n) && |a| == |b| && NoFloats(a) && NoFloats(b)
    ensures KeysAgree(a, b, n, keys, tol) <==> KeysOf(a, n, keys) == KeysOf(b, n, keys)
  {
    forall i | 0 <= i < |a|
      ensures RowEqual(Project(a[i], keys), Project(b[i], keys), tol) <==> KeysOf(a, n, keys)[i] == KeysOf(b, n, keys)[i]
    {
      ExactRowEqual(a[i], b[i], keys, tol);
    }
  }

  // ---- the LIMIT theorem -----------------------------------------------------------

  ghost predicate ExactRanking(ranking: multiset<Row>) {
    forall r: Row | r in ranking :: forall k | 0 <= k < |r| :: !r[k].IsFloat()
  }

  lemma WindowRows(rows: seq<Row>, ranking: multiset<Row>, n: nat, keys: seq<nat>, leq: KeyOrder, offset: nat, limit: nat)
    requires KeysIn(keys, n) && LegalWindow(rows, ranking, n, keys, leq, offset, limit)
    ensures Width(rows, n) && multiset(rows) <= ranking
    ensures ExactRanking(ranking) ==> NoFloats(rows)
  {
    var w :| Ordering(w, ranking, n, keys, leq) && rows == Window(w, offset, limit);
    OutsideSlice(w, Min(offset, |w|), Min(offset + limit, |w|));
    forall i | 0 <= i < |rows|
      ensures rows[i] in ranking
    {
      assert rows[i] in multiset(rows);
    }
  }

  lemma KeysOfSlice(w: seq<Row>, n: nat, keys: seq<nat>, lo: nat, hi: nat)
    requires Width(w, n) && KeysIn(keys, n) && lo <= hi <= |w|
    ensures Width(w[lo..hi], n) && KeysOf(w[lo..hi], n, keys) == KeysOf(w, n, keys)[lo..hi]
  {
  }

  /** All legal windows show the same keys at the same positions. */
  lemma WindowKeysFixed(e: seq<Row>, rows: seq<Row>, ranking: multiset<Row>, n: nat, keys: seq<nat>, leq: KeyOrder,
                        offset: nat, limit: nat)
    requires TotalOrder(leq) && KeysIn(keys, n) && Width(e, n) && Width(rows, n)
    requires LegalWindow(e, ranking, n, keys, leq, offset, limit)
    requires LegalWindow(rows, ranking, n, keys, leq, offset, limit)
    ensures KeysOf(e, n, keys) == KeysOf(rows, n, keys)
  {
    var v :| Ordering(v, ranking, n, keys, leq) && e == Window(v, offset, limit);
    var w :| Ordering(w, ranking, n, keys, leq) && rows == Window(w, offset, limit);
    KeysFixed(v, w, ranking, n, keys, leq);
    var lo, hi := Min(offset, |w|), Min(offset + limit, |w|);
    KeysOfSlice(v, n, keys, lo, hi);
    KeysOfSlice(w, n, keys, lo, hi);
  }

  /** Rows of the ranking with the window's keys form a legal window. */
  lemma SameKeysLegal(e: seq<Row>, rows: seq<Row>, ranking: multiset<Row>, n: nat, keys: seq<nat>, leq: KeyOrder,
                      offset: nat, limit: nat)
    requires KeysIn(keys, n) && Width(e, n) && Width(rows, n)
    requires LegalWindow(rows, ranking, n, keys, leq, offset, limit)
    requires KeysOf(e, n, keys) == KeysOf(rows, n, keys) && multiset(e) <= ranking
    ensures LegalWindow(e, ranking, n, keys, leq, offset, limit)
  {
    var w :| Ordering(w, ranking, n, keys, leq) && rows == Window(w, offset, limit);
    var lo, hi := Min(offset, |w|), Min(offset + limit, |w|);
    KeysOfSlice(w, n, keys, lo, hi);
    var v := Slotted(e, w, ranking, n, keys, leq, lo, hi);
    assert Window(v, offset, limit) == e;
  }

  /** With exact cells and a pool that closes the window's last tie group, rows in the reference's
      key order drawn from the pool are exactly the legal windows. */
  lemma PoolDecides(e: seq<Row>, reference: seq<Row>, pool: seq<Row>, ranking: multiset<Row>, n: nat, keys: seq<nat>,
                    leq: KeyOrder, offset: nat, limit: nat, reach: nat, tol: real)
    requires TotalOrder(leq) && KeysIn(keys, n) && ExactRanking(ranking)
    requires LegalWindow(reference, ranking, n, keys, leq, offset, limit) && |reference| == limit > 0
    requires LegalWindow(pool, ranking, n, keys, leq, 0, reach) && pool != [] && offset + limit <= reach
    requires Width(reference, n) && Width(pool, n) && Width(e, n) && NoFloats(e)
    requires |pool| < reach || Project(pool[|pool| - 1], keys) != Project(reference[limit - 1], keys)
    ensures DrawnFromPool(e, reference, pool, n, keys, tol) <==> LegalWindow(e, ranking, n, keys, leq, offset, limit)
  {
    WindowRows(reference, ranking, n, keys, leq, offset, limit);
    WindowRows(pool, ranking, n, keys, leq, 0, reach);
    ExactContainment(e, pool, n, tol);
    if |e| == |reference| {
      ExactKeysAgree(e, reference, n, keys, tol);
    }
    if DrawnFromPool(e, reference, pool, n, keys, tol) {
      SameKeysLegal(e, reference, ranking, n, keys, leq, offset, limit);
    }
    if LegalWindow(e, ranking, n, keys, leq, offset, limit) {
      WindowKeysFixed(e, reference, ranking, n, keys, leq, offset, limit);
      assert |KeysOf(e, n, keys)| == |KeysOf(reference, n, keys)|;
      assert KeysOf(e, n, keys)[limit - 1] == KeysOf(reference, n, keys)[limit - 1];
      LegalInPool(e, pool, ranking, n, keys, leq, offset, limit, reach, Project(reference[limit - 1], keys));
    }
  }

  lemma LegalInPool(e: seq<Row>, pool: seq<Row>, ranking: multiset<Row>, n: nat, keys: seq<nat>,
                    leq: KeyOrder, offset: nat, limit: nat, reach: nat, lastKey: Row)
    requires TotalOrder(leq) && KeysIn(keys, n) && Width(e, n) && Width(pool, n)
    requires LegalWindow(e, ranking, n, keys, leq, offset, limit) && |e| == limit > 0
    requires Project(e[limit - 1], keys) == lastKey
    requires LegalWindow(pool, ranking, n, keys, leq, 0, reach) && pool != [] && offset + limit <= reach
    requires |pool| < reach || Project(pool[|pool| - 1], keys) != lastKey
    ensures multiset(e) <= multiset(pool)
  {
    var v := OrderOf(e, ranking, n, keys, leq, offset, limit);
    var w := OrderOf(pool, ranking, n, keys, leq, 0, reach);
    PoolEndsElsewhere(v, w, keys, n, offset, limit, reach, lastKey);
    WindowInPrefix(v, w, ranking, n, keys, leq, offset, limit, reach);
  }

  lemma OrderOf(rows: seq<Row>, ranking: multiset<Row>, n: nat, keys: seq<nat>, leq: KeyOrder, offset: nat, limit: nat)
    returns (v: seq<Row>)
    requires KeysIn(keys, n) && LegalWindow(rows, ranking, n, keys, leq, offset, limit)
    ensures Ordering(v, ranking, n, keys, leq) && rows == Window(v, offset, limit)
  {
    v :| Ordering(v, ranking, n, keys, leq) && rows == Window(v, offset, limit);
  }

  lemma PoolEndsElsewhere(v: seq<Row>, w: seq<Row>, keys: seq<nat>, n: nat, offset: nat, limit: nat, reach: nat, lastKey: Row)
    requires Width(v, n) && Width(w, n) && KeysIn(keys, n)
    requires |Window(v, offset, limit)| == limit > 0 && Window(w, 0, reach) != []
    requires Project(Window(v, offset, limit)[limit - 1], keys) == lastKey
    requires |Window(w, 0, reach)| < reach || Project(Window(w, 0, reach)[|Window(w, 0, reach)| - 1], keys) != lastKey
    ensures offset + limit <= |v|
    ensures 0 < reach && (reach > |w| || Project(w[reach - 1], keys) != Project(v[offset + limit - 1], keys))
  {
    FullWindow(v, offset, limit);
  }

  lemma WindowInPrefix(v: seq<Row>, w: seq<Row>, ranking: multiset<Row>, n: nat, keys: seq<nat>, leq: KeyOrder,
                       offset: nat, limit: nat, reach: nat)
    requires TotalOrder(leq) && KeysIn(keys, n)
    requires Ordering(v, ranking, n, keys, leq) && Ordering(w, ranking, n, keys, leq)
    requires limit > 0 && |Window(v, offset, limit)| == limit && offset + limit <= |v| && offset + limit <= reach
    requires reach > |w| || Project(w[reach - 1], keys) != Project(v[offset + limit - 1], keys)
    ensures multiset(Window(v, offset, limit)) <= multiset(Window(w, 0, reach))
  {
    FullWindow(v, offset, limit);
    PoolHoldsWindow(v, w, ranking, n, keys, leq, offset + limit, reach);
    assert Window(w, 0, reach) == w[..Min(reach, |w|)];
    SubmultisetTransitive(multiset(Window(v, offset, limit)), multiset(v[..offset + limit]), multiset(w[..Min(reach, |w|)]));
  }

  lemma SubmultisetTransitive(x: multiset<Row>, y: multiset<Row>, z: multiset<Row>)
    requires x <= y && y <= z
    ensures x <= z
  {
  }

  lemma FullWindow(v: seq<Row>, offset: nat, limit: nat)
    requires |Window(v, offset, limit)| == limit > 0
    ensures offset + limit <= |v|
    ensures Window(v, offset, limit)[limit - 1] == v[offset + limit - 1]
    ensures multiset(Window(v, offset, limit)) <= multiset(v[..offset + limit])
  {
    assert v[..offset + limit] == v[..offset] + Window(v, offset, limit);
  }

  lemma SubmultisetSameSize(x: seq<Row>, y: seq<Row>)
    requires |x| == |y| && multiset(x) <= multiset(y)
    ensures multiset(x) == multiset(y)
  {
    assert multiset(y) == multiset(x) + (multiset(y) - multiset(x));
    assert |multiset(x)| == |x| && |multiset(y)| == |y|;
  }

  /** Tie-aware equality with exact cells is the same rows under the same keys. */
  lemma ExactTieAware(e: seq<Row>, reference: seq<Row>, n: nat, keys: seq<nat>, tol: real)
    requires Width(e, n) && Width(reference, n) && KeysIn(keys, n) && NoFloats(e) && NoFloats(reference)
    ensures TieAware(e, reference, n, keys, tol) <==>
      multiset(e) == multiset(reference) && KeysOf(e, n, keys) == KeysOf(reference, n, keys)
  {
    ExactContainment(e, reference, n, tol);
    if |e| == |reference| {
      ExactKeysAgree(e, reference, n, keys, tol);
      if multiset(e) <= multiset(reference) {
        SubmultisetSameSize(e, reference);
      }
    }
    if multiset(e) == multiset(reference) {
      SameSize(e, reference);
    }
  }

  // ---- without a pool ---------------------------------------------------------------

  /** A cut through an order that leaves no choice of rows on either side: at an end, between two
      keys, or in a tie group whose rows are all the same row. */
  ghost predicate CleanCut(w: seq<Row>, ks: seq<Row>, c: nat)
    requires |ks| == |w| && c <= |w|
  {
    0 < c < |w| && ks[c - 1] == ks[c] ==>
      forall i, j | 0 <= i < |w| && 0 <= j < |w| && ks[i] == ks[c] == ks[j] :: w[i] == w[j]
  }

  /** The window is empty, or cuts the order cleanly where it starts and where it ends. */
  ghost predicate CleanWindow(w: seq<Row>, n: nat, keys: seq<nat>, offset: nat, limit: nat)
    requires KeysIn(keys, n) && Width(w, n)
  {
    var ks, lo, hi := KeysOf(w, n, keys), Min(offset, |w|), Min(offset + limit, |w|);
    lo == hi || (CleanCut(w, ks, lo) && CleanCut(w, ks, hi))
  }

  lemma {:induction false} SamePlacesSameCount(s: seq<Row>, t: seq<Row>, r: Row)
    requires |s| == |t| && forall i | 0 <= i < |s| :: s[i] == r <==> t[i] == r
    ensures multiset(s)[r] == multiset(t)[r]
  {
    if s != [] {
      var last := |s| - 1;
      SamePlacesSameCount(s[..last], t[..last], r);
      assert s == s[..last] + [s[last]] && t == t[..last] + [t[last]];
    }
  }

  /** A key seen before and behind a cut is the key on both sides of it. */
  lemma StraddlingKey(ks: seq<Row>, leq: KeyOrder, i: nat, c: nat, p: nat)
    requires TotalOrder(leq) && InOrder(ks, leq) && i < c <= p < |ks| && ks[i] == ks[p]
    ensures ks[c - 1] == ks[c] == ks[i]
  {
    assert i == c - 1 || Leq(leq, ks[i], ks[c - 1]);
    assert Leq(leq, ks[c - 1], ks[c]);
    assert c == p || Leq(leq, ks[c], ks[p]);
    assert Leq(leq, ks[i], ks[i]);
    assert Leq(leq, ks[i], ks[c - 1]) && Leq(leq, ks[c], ks[i]);
    assert Leq(leq, ks[i], ks[c]) && Leq(leq, ks[c - 1], ks[i]);
  }

  /** Every legal order has as many copies of a row before a clean cut. */
  lemma CleanPrefixCount(v: seq<Row>, w: seq<Row>, ks: seq<Row>, leq: KeyOrder, n: nat, keys: seq<nat>, c: nat, r: Row)
    requires TotalOrder(leq) && KeysIn(keys, n) && Width(v, n) && Width(w, n) && multiset(v) == multiset(w) && |v| == |w|
    requires ks == KeysOf(v, n, keys) == KeysOf(w, n, keys) && InOrder(ks, leq)
    requires c <= |w| && CleanCut(w, ks, c)
    ensures multiset(v[..c])[r] == multiset(w[..c])[r]
  {
    PrefixCounts(v, c, r);
    PrefixCounts(w, c, r);
    SameSize(v, w);
    if r in w {
      var x := PositionOf(w, r);
      if forall p | c <= p < |w| :: ks[p] != ks[x] {
      } else if forall i | 0 <= i < c :: ks[i] != ks[x] {
        assert r !in v[..c] && r !in w[..c];
      } else {
        var p :| c <= p < |w| && ks[p] == ks[x];
        var i :| 0 <= i < c && ks[i] == ks[x];
        StraddlingKey(ks, leq, i, c, p);
        forall k | 0 <= k < c
          ensures v[..c][k] == r <==> w[..c][k] == r
        {
          assert v[k] in v && v[k] in w;
          var y := PositionOf(w, v[k]);
          assert ks[y] == ks[k];
        }
        SamePlacesSameCount(v[..c], w[..c], r);
      }
    } else {
      assert r !in multiset(w) && r !in multiset(v);
    }
  }

  lemma CleanPrefix(v: seq<Row>, w: seq<Row>, ks: seq<Row>, leq: KeyOrder, n: nat, keys: seq<nat>, c: nat)
    requires TotalOrder(leq) && KeysIn(keys, n) && Width(v, n) && Width(w, n) && multiset(v) == multiset(w) && |v| == |w|
    requires ks == KeysOf(v, n, keys) == KeysOf(w, n, keys) && InOrder(ks, leq)
    requires c <= |w| && CleanCut(w, ks, c)
    ensures multiset(v[..c]) == multiset(w[..c])
  {
    forall r
      ensures multiset(v[..c])[r] == multiset(w[..c])[r]
    {
      CleanPrefixCount(v, w, ks, leq, n, keys, c, r);
    }
  }

  lemma SliceRows(s: seq<Row>, lo: nat, hi: nat)
    requires lo <= hi <= |s|
    ensures multiset(s[lo..hi]) == multiset(s[..hi]) - multiset(s[..lo])
  {
    assert s[..hi] == s[..lo] + s[lo..hi];
  }

  /** All legal windows between clean cuts hold the same rows. */
  lemma CleanWindowsAgree(e: seq<Row>, w: seq<Row>, ranking: multiset<Row>, n: nat, keys: seq<nat>, leq: KeyOrder,
                          offset: nat, limit: nat)
    requires TotalOrder(leq) && KeysIn(keys, n) && Ordering(w, ranking, n, keys, leq)
    requires CleanWindow(w, n, keys, offset, limit)
    requires LegalWindow(e, ranking, n, keys, leq, offset, limit)
    ensures multiset(e) == multiset(Window(w, offset, limit))
  {
    var v := OrderOf(e, ranking, n, keys, leq, offset, limit);
    KeysFixed(v, w, ranking, n, keys, leq);
    var lo, hi := Min(offset, |w|), Min(offset + limit, |w|);
    if lo < hi {
      CleanPrefix(v, w, KeysOf(w, n, keys), leq, n, keys, lo);
      CleanPrefix(v, w, KeysOf(w, n, keys), leq, n, keys, hi);
      SliceRows(v, lo, hi);
      SliceRows(w, lo, hi);
    }
  }

  function Swapped(w: seq<Row>, i: nat, p: nat): seq<Row>
    requires i < |w| && p < |w|
  {
    w[i := w[p]][p := w[i]]
  }

  /** Exchanging two tied rows gives another legal order. */
  lemma SwappedLegal(w: seq<Row>, ranking: multiset<Row>, n: nat, keys: seq<nat>, leq: KeyOrder, i: nat, p: nat)
    requires KeysIn(keys, n) && Ordering(w, ranking, n, keys, leq)
    requires i < |w| && p < |w| && i != p && Project(w[i], keys) == Project(w[p], keys)
    ensures Ordering(Swapped(w, i, p), ranking, n, keys, leq)
  {
    var v := Swapped(w, i, p);
    assert multiset(v) == multiset(w);
    assert KeysOf(v, n, keys) == KeysOf(w, n, keys);
  }

  /** In a group that is cut and whose rows differ, two different rows stand on either side. */
  lemma DifferentAcross(w: seq<Row>, ks: seq<Row>, inside: nat, outside: nat, lo: nat, hi: nat) returns (i: nat, p: nat)
    requires |ks| == |w| && lo <= inside < hi <= |w| && outside < |w| && !(lo <= outside < hi)
    requires ks[inside] == ks[outside]
    requires exists x, y | 0 <= x < |w| && 0 <= y < |w| && ks[x] == ks[inside] == ks[y] :: w[x] != w[y]
    ensures lo <= i < hi && p < |w| && !(lo <= p < hi) && ks[i] == ks[p] && w[i] != w[p]
  {
    var x, y :| 0 <= x < |w| && 0 <= y < |w| && ks[x] == ks[inside] == ks[y] && w[x] != w[y];
    if lo <= x < hi && w[x] != w[outside] {
      i, p := x, outside;
    } else if !(lo <= x < hi) && w[x] != w[inside] {
      i, p := inside, x;
    } else if lo <= y < hi {
      i, p := y, if lo <= x < hi then outside else x;
    } else {
      i, p := if lo <= x < hi then x else inside, y;
    }
  }

  lemma UncleanPair(w: seq<Row>, ks: seq<Row>, lo: nat, hi: nat) returns (i: nat, p: nat)
    requires |ks| == |w| && lo < hi <= |w| && !(CleanCut(w, ks, lo) && CleanCut(w, ks, hi))
    ensures lo <= i < hi && p < |w| && !(lo <= p < hi) && ks[i] == ks[p] && w[i] != w[p]
  {
    if !CleanCut(w, ks, lo) {
      i, p := DifferentAcross(w, ks, lo, lo - 1, lo, hi);
    } else {
      i, p := DifferentAcross(w, ks, hi - 1, hi, lo, hi);
    }
  }

  lemma SwappedWindow(w: seq<Row>, i: nat, p: nat, lo: nat, hi: nat)
    requires lo <= i < hi <= |w| && p < |w| && !(lo <= p < hi) && w[i] != w[p]
    ensures multiset(Swapped(w, i, p)[lo..hi]) != multiset(w[lo..hi])
  {
    var s := w[lo..hi];
    assert Swapped(w, i, p)[lo..hi] == s[i - lo := w[p]];
    assert multiset(s[i - lo := w[p]])[w[i]] == multiset(s)[w[i]] - 1;
  }

  /** A window that is not clean has a legal rival with other rows. */
  lemma RivalWindow(u: seq<Row>, ranking: multiset<Row>, n: nat, keys: seq<nat>, leq: KeyOrder, offset: nat, limit: nat)
    returns (e: seq<Row>)
    requires KeysIn(keys, n) && Ordering(u, ranking, n, keys, leq) && !CleanWindow(u, n, keys, offset, limit)
    ensures LegalWindow(e, ranking, n, keys, leq, offset, limit)
    ensures multiset(e) != multiset(Window(u, offset, limit))
  {
    var ks, lo, hi := KeysOf(u, n, keys), Min(offset, |u|), Min(offset + limit, |u|);
    var i, p := UncleanPair(u, ks, lo, hi);
    SwappedLegal(u, ranking, n, keys, leq, i, p);
    SwappedWindow(u, i, p, lo, hi);
    e := Window(Swapped(u, i, p), offset, limit);
  }

  /** Whether a window is clean does not depend on the order looked at. */
  lemma CleanCutFixed(v: seq<Row>, w: seq<Row>, ks: seq<Row>, n: nat, keys: seq<nat>, c: nat)
    requires KeysIn(keys, n) && Width(v, n) && Width(w, n) && multiset(v) == multiset(w) && |v| == |w|
    requires ks == KeysOf(v, n, keys) == KeysOf(w, n, keys)
    requires c <= |w| && CleanCut(w, ks, c)
    ensures CleanCut(v, ks, c)
  {
    SameSize(v, w);
    if 0 < c < |w| && ks[c - 1] == ks[c] {
      forall i, j | 0 <= i < |v| && 0 <= j < |v| && ks[i] == ks[c] == ks[j]
        ensures v[i] == v[j]
      {
        assert v[i] in v && v[j] in v;
        var x, y := PositionOf(w, v[i]), PositionOf(w, v[j]);
        assert ks[x] == ks[i] && ks[y] == ks[j];
      }
    }
  }

  lemma CleanWindowFixed(v: seq<Row>, w: seq<Row>, ranking: multiset<Row>, n: nat, keys: seq<nat>, leq: KeyOrder,
                         offset: nat, limit: nat)
    requires TotalOrder(leq) && KeysIn(keys, n)
    requires Ordering(v, ranking, n, keys, leq) && Ordering(w, ranking, n, keys, leq)
    requires CleanWindow(w, n, keys, offset, limit)
    ensures CleanWindow(v, n, keys, offset, limit)
  {
    KeysFixed(v, w, ranking, n, keys, leq);
    var ks, lo, hi := KeysOf(w, n, keys), Min(offset, |w|), Min(offset + limit, |w|);
    if lo < hi {
      CleanCutFixed(v, w, ks, n, keys, lo);
      CleanCutFixed(v, w, ks, n, keys, hi);
    }
  }

  /** Without a pool, what is accepted is still a legal window, and a clean window is decided exactly. */
  lemma StrictDecides(e: seq<Row>, reference: seq<Row>, ranking: multiset<Row>, n: nat, keys: seq<nat>,
                      leq: KeyOrder, offset: nat, limit: nat, tol: real, w: seq<Row>)
    requires TotalOrder(leq) && KeysIn(keys, n) && ExactRanking(ranking)
    requires LegalWindow(reference, ranking, n, keys, leq, offset, limit)
    requires Width(reference, n) && Width(e, n) && NoFloats(e)
    requires Ordering(w, ranking, n, keys, leq)
    ensures TieAware(e, reference, n, keys, tol) ==> LegalWindow(e, ranking, n, keys, leq, offset, limit)
    ensures CleanWindow(w, n, keys, offset, limit) ==>
      (TieAware(e, reference, n, keys, tol) <==> LegalWindow(e, ranking, n, keys, leq, offset, limit))
  {
    WindowRows(reference, ranking, n, keys, leq, offset, limit);
    ExactTieAware(e, reference, n, keys, tol);
    if TieAware(e, reference, n, keys, tol) {
      SameKeysLegal(e, reference, ranking, n, keys, leq, offset, limit);
    }
    if CleanWindow(w, n, keys, offset, limit) && LegalWindow(e, ranking, n, keys, leq, offset, limit) {
      WindowKeysFixed(e, reference, ranking, n, keys, leq, offset, limit);
      CleanWindowsAgree(e, w, ranking, n, keys, leq, offset, limit);
      CleanWindowsAgree(reference, w, ranking, n, keys, leq, offset, limit);
    }
  }

  /** The strict comparison accepts every legal window exactly if the window cuts no tie group of
      different rows. */
  lemma StrictExactIffClean(reference: seq<Row>, ranking: multiset<Row>, n: nat, keys: seq<nat>,
                            leq: KeyOrder, offset: nat, limit: nat, tol: real, w: seq<Row>)
    requires TotalOrder(leq) && KeysIn(keys, n) && ExactRanking(ranking)
    requires LegalWindow(reference, ranking, n, keys, leq, offset, limit) && Width(reference, n)
    requires Ordering(w, ranking, n, keys, leq)
    ensures CleanWindow(w, n, keys, offset, limit) <==>
      forall e | LegalWindow(e, ranking, n, keys, leq, offset, limit) ::
        Width(e, n) && TieAware(e, reference, n, keys, tol)
  {
    if CleanWindow(w, n, keys, offset, limit) {
      forall e | LegalWindow(e, ranking, n, keys, leq, offset, limit)
        ensures Width(e, n) && TieAware(e, reference, n, keys, tol)
      {
        WindowRows(e, ranking, n, keys, leq, offset, limit);
        StrictDecides(e, reference, ranking, n, keys, leq, offset, limit, tol, w);
      }
    } else {
      var u := OrderOf(reference, ranking, n, keys, leq, offset, limit);
      if CleanWindow(u, n, keys, offset, limit) {
        CleanWindowFixed(w, u, ranking, n, keys, leq, offset, limit);
      }
      var e := RivalWindow(u, ranking, n, keys, leq, offset, limit);
      WindowRows(e, ranking, n, keys, leq, offset, limit);
      WindowRows(reference, ranking, n, keys, leq, offset, limit);
      ExactTieAware(e, reference, n, keys, tol);
    }
  }

  lemma TiedPairLegal(x: Row, y: Row, n: nat, keys: seq<nat>, leq: KeyOrder)
    requires TotalOrder(leq) && |x| == |y| == n && KeysIn(keys, n) && Project(x, keys) == Project(y, keys)
    ensures LegalWindow([y], multiset{x, y}, n, keys, leq, 1, 10)
  {
    var w := [x, y];
    assert Leq(leq, Project(x, keys), Project(x, keys));
    assert multiset(w) == multiset{x, y};
    assert Ordering(w, multiset{x, y}, n, keys, leq) && Window(w, 1, 10) == [y];
  }

  /** When an OFFSET cuts into a tie group and the result is not truncated, a legal window can be
      refused: two rows tie, OFFSET 1 skips either one, and the engine kept the other. */
  lemma OffsetCutOverRejects(x: Row, y: Row, n: nat, keys: seq<nat>, leq: KeyOrder, tol: real)
    requires TotalOrder(leq) && |x| == |y| == n && KeysIn(keys, n) && NoFloats([x, y])
    requires x != y && Project(x, keys) == Project(y, keys)
    ensures LegalWindow([y], multiset{x, y}, n, keys, leq, 1, 10)
    ensures LegalWindow([x], multiset{x, y}, n, keys, leq, 1, 10)
    ensures !TieAware([x], [y], n, keys, tol)
  {
    TiedPairLegal(x, y, n, keys, leq);
    TiedPairLegal(y, x, n, keys, leq);
    assert multiset{x, y} == multiset{y, x};
    assert [x, y][0] == x && [x, y][1] == y;
    ExactTieAware([x], [y], n, keys, tol);
    assert x in multiset([x]) && x !in multiset([y]);
  }

  /** Each widened query returns the first rows of some legal order of the ranking. */
  ghost predicate RepliesArePrefixes(replies: seq<Option<Result>>, window: nat, ranking: multiset<Row>, n: nat, keys: seq<nat>, leq: KeyOrder)
    requires KeysIn(keys, n) && RepliesFit(replies, n)
  {
    forall k | 0 <= k < MAX_ROUNDS && replies[k].Some? ::
      LegalWindow(replies[k].value.Rows(), ranking, n, keys, leq, 0, Widened(window, k + 1))
  }

  /** A pool that closes the window's tie group is exact. */
  lemma ClosedPool(e: seq<Row>, reference: Result, pool: Result, ranking: multiset<Row>, keys: seq<nat>, leq: KeyOrder,
                   offset: nat, limit: nat, reach: nat, tol: real)
    requires reference.Valid() && pool.Valid() && pool.ncols == reference.ncols && KeysIn(keys, reference.ncols)
    requires TotalOrder(leq) && ExactRanking(ranking) && Width(e, reference.ncols) && NoFloats(e)
    requires Truncated(reference, keys, Some(limit)) && offset + limit <= reach
    requires LegalWindow(reference.Rows(), ranking, reference.ncols, keys, leq, offset, limit)
    requires LegalWindow(pool.Rows(), ranking, reference.ncols, keys, leq, 0, reach)
    requires pool.Rows() != [] && Closes(pool.Rows(), reach, keys, Project(reference.Rows()[limit - 1], keys), tol)
    ensures DecidedExactlyOn(e, pool.Rows(), reference.ncols, tol)
    ensures DrawnFromPool(e, reference.Rows(), pool.Rows(), reference.ncols, keys, tol) <==>
      LegalWindow(e, ranking, reference.ncols, keys, leq, offset, limit)
  {
    var n, b, p := reference.ncols, reference.Rows(), pool.Rows();
    WindowRows(b, ranking, n, keys, leq, offset, limit);
    WindowRows(p, ranking, n, keys, leq, 0, reach);
    ExactContainment(e, p, n, tol);
    ExactRowEqual(p[|p| - 1], b[limit - 1], keys, tol);
    PoolDecides(e, b, p, ranking, n, keys, leq, offset, limit, reach, tol);
  }

  /** What the search returns, over exact cells, is an exact pool. */
  lemma SearchedPool(e: seq<Row>, reference: Result, rounds: nat, reach: nat, pool: seq<Row>, replies: seq<Option<Result>>,
                     ranking: multiset<Row>, keys: seq<nat>, leq: KeyOrder, offset: nat, limit: nat, tol: real)
    requires reference.Valid() && KeysIn(keys, reference.ncols)
    requires TotalOrder(leq) && ExactRanking(ranking) && Width(e, reference.ncols) && NoFloats(e)
    requires Truncated(reference, keys, Some(limit))
    requires LegalWindow(reference.Rows(), ranking, reference.ncols, keys, leq, offset, limit)
    requires RepliesFit(replies, reference.ncols) && RepliesArePrefixes(replies, offset + limit, ranking, reference.ncols, keys, leq)
    requires Searched(replies, reference.ncols, offset + limit, rounds, reach, keys, Project(reference.Rows()[limit - 1], keys), tol, Some(pool))
    ensures Width(pool, reference.ncols) && DecidedExactlyOn(e, pool, reference.ncols, tol)
    ensures DrawnFromPool(e, reference.Rows(), pool, reference.ncols, keys, tol) <==>
      LegalWindow(e, ranking, reference.ncols, keys, leq, offset, limit)
  {
    assert replies[rounds - 1].Some?;
    ClosedPool(e, reference, replies[rounds - 1].value, ranking, keys, leq, offset, limit, reach, tol);
  }

  lemma StrictExact(e: seq<Row>, reference: seq<Row>, ranking: multiset<Row>, n: nat, keys: seq<nat>,
                    leq: KeyOrder, offset: nat, limit: nat, tol: real)
    requires KeysIn(keys, n) && ExactRanking(ranking)
    requires LegalWindow(reference, ranking, n, keys, leq, offset, limit)
    requires Width(reference, n) && Width(e, n) && NoFloats(e)
    ensures DecidedExactlyOn(e, reference, n, tol)
  {
    WindowRows(reference, ranking, n, keys, leq, offset, limit);
    ExactContainment(e, reference, n, tol);
  }

  lemma SizesAgree(bespoke: Result, reference: Result, ranking: multiset<Row>, keys: seq<nat>, leq: KeyOrder,
                   offset: nat, limit: nat)
    requires bespoke.Valid() && reference.Valid() && bespoke.ncols == reference.ncols > 0
    requires TotalOrder(leq) && KeysIn(keys, reference.ncols)
    requires LegalWindow(reference.Rows(), ranking, reference.ncols, keys, leq, offset, limit)
    ensures LegalWindow(bespoke.Rows(), ranking, reference.ncols, keys, leq, offset, limit) ==> bespoke.nrows == reference.nrows
  {
    if LegalWindow(bespoke.Rows(), ranking, reference.ncols, keys, leq, offset, limit) {
      WindowKeysFixed(bespoke.Rows(), reference.Rows(), ranking, reference.ncols, keys, leq, offset, limit);
      assert |KeysOf(bespoke.Rows(), reference.ncols, keys)| == |KeysOf(reference.Rows(), reference.ncols, keys)|;
    }
  }

  /** The verdict's meaning with a pool in hand. */
  lemma AgreeWithPool(bespoke: Result, reference: Result, keys: seq<nat>, limit: nat, tol: real, pool: seq<Row>)
    requires bespoke.Valid() && reference.Valid() && bespoke.ncols == reference.ncols
    requires keys != [] && KeysIn(keys, reference.ncols) && Width(pool, reference.ncols)
    requires Truncated(reference, keys, Some(limit))
    requires DecidedExactlyOn(bespoke.Rows(), pool, reference.ncols, tol)
    ensures ExactComparison(bespoke, reference, true, Some(keys), tol, Some(limit), Some(pool))
    ensures Agree(bespoke, reference, true, Some(keys), tol, Some(limit), Some(pool)) <==>
      bespoke.nrows == reference.nrows && DrawnFromPool(bespoke.Rows(), reference.Rows(), pool, reference.ncols, keys, tol)
  {
  }

  /** The verdict's meaning without a pool. */
  lemma AgreeStrictly(bespoke: Result, reference: Result, keys: seq<nat>, limit: nat, tol: real)
    requires bespoke.Valid() && reference.Valid() && bespoke.ncols == reference.ncols
    requires keys != [] && KeysIn(keys, reference.ncols)
    requires DecidedExactlyOn(bespoke.Rows(), reference.Rows(), reference.ncols, tol)
    ensures ExactComparison(bespoke, reference, true, Some(keys), tol, Some(limit), None)
    ensures Agree(bespoke, reference, true, Some(keys), tol, Some(limit), None) <==>
      bespoke.nrows == reference.nrows && TieAware(bespoke.Rows(), reference.Rows(), reference.ncols, keys, tol)
  {
  }

  lemma PoolVerdict(bespoke: Result, reference: Result, keys: seq<nat>, limit: nat, offset: nat, replies: seq<Option<Result>>,
                    tol: real, rounds: nat, reach: nat, pool: seq<Row>, ranking: multiset<Row>, leq: KeyOrder)
    requires bespoke.Valid() && reference.Valid() && bespoke.ncols == reference.ncols > 0 && KeysIn(keys, reference.ncols)
    requires TotalOrder(leq) && ExactRanking(ranking) && NoFloats(bespoke.Rows())
    requires Truncated(reference, keys, Some(limit))
    requires LegalWindow(reference.Rows(), ranking, reference.ncols, keys, leq, offset, limit)
    requires RepliesFit(replies, reference.ncols) && RepliesArePrefixes(replies, offset + limit, ranking, reference.ncols, keys, leq)
    requires Searched(replies, reference.ncols, offset + limit, rounds, reach, keys, Project(reference.Rows()[limit - 1], keys), tol, Some(pool))
    ensures Width(pool, reference.ncols)
    ensures ExactComparison(bespoke, reference, true, Some(keys), tol, Some(limit), Some(pool))
    ensures Agree(bespoke, reference, true, Some(keys), tol, Some(limit), Some(pool)) <==>
      LegalWindow(bespoke.Rows(), ranking, reference.ncols, keys, leq, offset, limit)
  {
    SearchedPool(bespoke.Rows(), reference, rounds, reach, pool, replies, ranking, keys, leq, offset, limit, tol);
    AgreeWithPool(bespoke, reference, keys, limit, tol, pool);
    SizesAgree(bespoke, reference, ranking, keys, leq, offset, limit);
  }

  lemma StrictVerdict(bespoke: Result, reference: Result, keys: seq<nat>, limit: nat, offset: nat,
                      tol: real, ranking: multiset<Row>, leq: KeyOrder, w: seq<Row>)
    requires bespoke.Valid() && reference.Valid() && bespoke.ncols == reference.ncols > 0
    requires keys != [] && KeysIn(keys, reference.ncols)
    requires TotalOrder(leq) && ExactRanking(ranking) && NoFloats(bespoke.Rows())
    requires LegalWindow(reference.Rows(), ranking, reference.ncols, keys, leq, offset, limit)
    requires Ordering(w, ranking, reference.ncols, keys, leq)
    ensures ExactComparison(bespoke, reference, true, Some(keys), tol, Some(limit), None)
    ensures Agree(bespoke, reference, true, Some(keys), tol, Some(limit), None) ==>
      LegalWindow(bespoke.Rows(), ranking, reference.ncols, keys, leq, offset, limit)
    ensures CleanWindow(w, reference.ncols, keys, offset, limit) ==>
      (Agree(bespoke, reference, true, Some(keys), tol, Some(limit), None) <==>
       LegalWindow(bespoke.Rows(), ranking, reference.ncols, keys, leq, offset, limit))
  {
    StrictExact(bespoke.Rows(), reference.Rows(), ranking, reference.ncols, keys, leq, offset, limit, tol);
    StrictDecides(bespoke.Rows(), reference.Rows(), ranking, reference.ncols, keys, leq, offset, limit, tol, w);
    AgreeStrictly(bespoke, reference, keys, limit, tol);
    SizesAgree(bespoke, reference, ranking, keys, leq, offset, limit);
  }

  lemma OutcomeWithPool(reference: Result, keys: seq<nat>, limit: nat, offset: nat, replies: seq<Option<Result>>,
                        tol: real, rounds: nat, reach: nat, pool: seq<Row>)
    requires reference.Valid() && KeysIn(keys, reference.ncols) && RepliesFit(replies, reference.ncols)
    requires SearchOutcome(reference, keys, Some(limit), offset, replies, tol, rounds, reach, Some(pool))
    ensures Truncated(reference, keys, Some(limit))
    ensures Searched(replies, reference.ncols, offset + limit, rounds, reach, keys, Project(reference.Rows()[limit - 1], keys), tol, Some(pool))
  {
  }

  // ---- when a pool is found -----------------------------------------------------

  function Power2(k: nat): nat {
    if k == 0 then 1 else 2 * Power2(k - 1)
  }

  lemma WidenedMeans(window: nat, k: nat)
    requires k <= MAX_ROUNDS
    ensures Widened(window, k) == Power2(k) * window
  {
    assert Power2(1) == 2 && Power2(2) == 4 && Power2(3) == 8 && Power2(4) == 16;
    assert Power2(5) == 32 && Power2(6) == 64 && Power2(7) == 128 && Power2(8) == 256;
    assert Power2(9) == 512 && Power2(10) == 1024 && Power2(11) == 2048;
  }

  /** Some widening, it and all before it answered, covers the end of the tie group the window ends in. */
  ghost predicate GroupSeen(replies: seq<Option<Result>>, ks: seq<Row>, window: nat)
    requires |replies| == 11 && 0 < window <= |ks|
  {
    exists k | 1 <= k <= 11 :: AnsweredUpTo(replies, k) && SeenAt(ks, window, k)
  }

  predicate AnsweredUpTo(replies: seq<Option<Result>>, k: nat)
    requires k <= |replies|
  {
    forall j | 0 <= j < k :: replies[j].Some?
  }

  /** Within 2^k windows the ranking ends, or shows another key than the window's last row. */
  predicate SeenAt(ks: seq<Row>, window: nat, k: nat)
    requires 0 < window <= |ks|
  {
    var reach := Power2(k) * window;
    reach > |ks| || (reach > 0 && ks[reach - 1] != ks[window - 1])
  }

  /** The rows are as many as the keys of the window, and end on its last key. */
  ghost predicate Shows(rows: seq<Row>, n: nat, keys: seq<nat>, ks: seq<Row>, offset: nat, limit: nat)
    requires KeysIn(keys, n)
  {
    var lo, hi := Min(offset, |ks|), Min(offset + limit, |ks|);
    Width(rows, n) && |rows| == hi - lo && (rows != [] ==> Project(rows[|rows| - 1], keys) == ks[hi - 1])
  }

  lemma WindowShows(v: seq<Row>, n: nat, keys: seq<nat>, offset: nat, limit: nat)
    requires Width(v, n) && KeysIn(keys, n)
    ensures Shows(Window(v, offset, limit), n, keys, KeysOf(v, n, keys), offset, limit)
  {
  }

  lemma LegalWindowShows(rows: seq<Row>, w: seq<Row>, ranking: multiset<Row>, n: nat, keys: seq<nat>, leq: KeyOrder,
                         offset: nat, limit: nat)
    requires TotalOrder(leq) && KeysIn(keys, n) && LegalWindow(rows, ranking, n, keys, leq, offset, limit)
    requires Ordering(w, ranking, n, keys, leq)
    ensures Shows(rows, n, keys, KeysOf(w, n, keys), offset, limit)
  {
    var v := OrderOf(rows, ranking, n, keys, leq, offset, limit);
    KeysFixed(v, w, ranking, n, keys, leq);
    WindowShows(v, n, keys, offset, limit);
  }

  predicate NoFloatIn(r: Row) {
    forall l | 0 <= l < |r| :: !r[l].IsFloat()
  }

  /** Over exact cells a reply closes the group exactly if it covers its end. */
  lemma ReplyCloses(p: seq<Row>, last: Row, ks: seq<Row>, n: nat, keys: seq<nat>, window: nat, k: nat, tol: real)
    requires KeysIn(keys, n) && NoFloats(p) && 1 <= k <= 11 && 0 < window <= |ks|
    requires Shows(p, n, keys, ks, 0, Widened(window, k))
    requires |last| == n && NoFloatIn(last) && Project(last, keys) == ks[window - 1]
    ensures p != []
    ensures Closes(p, Widened(window, k), keys, Project(last, keys), tol) <==> SeenAt(ks, window, k)
  {
    WidenedMeans(window, k);
    ExactRowEqual(p[|p| - 1], last, keys, tol);
  }

  /** A window of exact cells, and the keys it shows. */
  lemma ExactWindow(rows: seq<Row>, w: seq<Row>, ranking: multiset<Row>, n: nat, keys: seq<nat>, leq: KeyOrder, offset: nat, limit: nat)
    requires TotalOrder(leq) && KeysIn(keys, n) && ExactRanking(ranking) && Ordering(w, ranking, n, keys, leq)
    requires LegalWindow(rows, ranking, n, keys, leq, offset, limit)
    ensures NoFloats(rows) && Shows(rows, n, keys, KeysOf(w, n, keys), offset, limit)
  {
    WindowRows(rows, ranking, n, keys, leq, offset, limit);
    LegalWindowShows(rows, w, ranking, n, keys, leq, offset, limit);
  }

  ghost predicate RepliesShow(replies: seq<Option<Result>>, n: nat, keys: seq<nat>, ks: seq<Row>, window: nat)
    requires |replies| == 11 && KeysIn(keys, n)
  {
    forall k | 0 <= k < 11 && replies[k].Some? ::
      NoFloats(replies[k].value.Rows()) && Shows(replies[k].value.Rows(), n, keys, ks, 0, Widened(window, k + 1))
  }

  /** The last row of a window that fills its limit. */
  lemma LastRow(rows: seq<Row>, n: nat, keys: seq<nat>, ks: seq<Row>, offset: nat, limit: nat)
    requires KeysIn(keys, n) && NoFloats(rows) && |rows| == limit > 0
    requires Shows(rows, n, keys, ks, offset, limit)
    ensures offset + limit <= |ks| && |rows[limit - 1]| == n && NoFloatIn(rows[limit - 1])
    ensures Project(rows[limit - 1], keys) == ks[offset + limit - 1]
  {
  }

  ghost predicate RepliesDecide(replies: seq<Option<Result>>, n: nat, keys: seq<nat>, ks: seq<Row>, window: nat, lastKey: Row, tol: real)
    requires RepliesFit(replies, n) && KeysIn(keys, n) && 0 < window <= |ks|
  {
    forall k | 0 <= k < 11 && replies[k].Some? ::
      && !Unusable(replies[k])
      && (Closes(replies[k].value.Rows(), Widened(window, k + 1), keys, lastKey, tol) <==> SeenAt(ks, window, k + 1))
  }

  lemma RepliesAreShown(replies: seq<Option<Result>>, offset: nat, limit: nat, w: seq<Row>, ranking: multiset<Row>, n: nat,
                        keys: seq<nat>, leq: KeyOrder)
    requires KeysIn(keys, n) && RepliesFit(replies, n) && RepliesArePrefixes(replies, offset + limit, ranking, n, keys, leq)
    requires TotalOrder(leq) && ExactRanking(ranking) && Ordering(w, ranking, n, keys, leq)
    ensures RepliesShow(replies, n, keys, KeysOf(w, n, keys), offset + limit)
  {
    var ks := KeysOf(w, n, keys);
    forall k | 0 <= k < 11 && replies[k].Some?
      ensures NoFloats(replies[k].value.Rows())
      ensures Shows(replies[k].value.Rows(), n, keys, ks, 0, Widened(offset + limit, k + 1))
    {
      ExactWindow(replies[k].value.Rows(), w, ranking, n, keys, leq, 0, Widened(offset + limit, k + 1));
    }
  }

  /** The keys the reference and the replies show. */
  lemma AllShown(reference: Result, keys: seq<nat>, limit: nat, offset: nat, replies: seq<Option<Result>>,
                 ranking: multiset<Row>, leq: KeyOrder, w: seq<Row>)
    requires KeysIn(keys, reference.ncols)
    requires TotalOrder(leq) && ExactRanking(ranking)
    requires LegalWindow(reference.Rows(), ranking, reference.ncols, keys, leq, offset, limit)
    requires Ordering(w, ranking, reference.ncols, keys, leq)
    requires RepliesFit(replies, reference.ncols) && RepliesArePrefixes(replies, offset + limit, ranking, reference.ncols, keys, leq)
    ensures AllShow(reference, replies, reference.ncols, keys, KeysOf(w, reference.ncols, keys), offset, limit, offset + limit)
  {
    RepliesAreShown(replies, offset, limit, w, ranking, reference.ncols, keys, leq);
    ExactWindow(reference.Rows(), w, ranking, reference.ncols, keys, leq, offset, limit);
  }

  ghost predicate AllShow(reference: Result, replies: seq<Option<Result>>, n: nat, keys: seq<nat>, ks: seq<Row>,
                          offset: nat, limit: nat, window: nat)
    requires KeysIn(keys, n)
  {
    && NoFloats(reference.Rows())
    && Shows(reference.Rows(), n, keys, ks, offset, limit)
    && |replies| == 11 && RepliesShow(replies, n, keys, ks, window)
  }

  /** The search over replies that show a ranking's keys: a pool is found exactly if some widening,
      answered like all before it, covers the end of the tie group the window ends in. */
  lemma PoolFound(reference: Result, keys: seq<nat>, limit: nat, offset: nat, replies: seq<Option<Result>>, tol: real,
                  rounds: nat, reach: nat, pool: Option<seq<Row>>, ks: seq<Row>)
    requires reference.Valid() && keys != [] && KeysIn(keys, reference.ncols) && RepliesFit(replies, reference.ncols)
    requires |reference.Rows()| == limit > 0
    requires AllShow(reference, replies, reference.ncols, keys, ks, offset, limit, offset + limit)
    requires SearchOutcome(reference, keys, Some(limit), offset, replies, tol, rounds, reach, pool)
    ensures offset + limit <= |ks|
    ensures pool.Some? <==> GroupSeen(replies, ks, offset + limit)
  {
    var n, b, window := reference.ncols, reference.Rows(), offset + limit;
    LastRow(b, n, keys, ks, offset, limit);
    var last, lastKey := b[limit - 1], Project(b[limit - 1], keys);
    forall k | 0 <= k < 11 && replies[k].Some?
      ensures !Unusable(replies[k])
      ensures Closes(replies[k].value.Rows(), Widened(window, k + 1), keys, lastKey, tol) <==> SeenAt(ks, window, k + 1)
    {
      ReplyCloses(replies[k].value.Rows(), last, ks, n, keys, window, k + 1, tol);
    }
    SearchEnds(replies, n, window, rounds, reach, keys, lastKey, tol, pool, ks);
  }

  lemma SearchEnds(replies: seq<Option<Result>>, n: nat, window: nat, rounds: nat, reach: nat, keys: seq<nat>, lastKey: Row,
                   tol: real, pool: Option<seq<Row>>, ks: seq<Row>)
    requires RepliesFit(replies, n) && KeysIn(keys, n) && 0 < window <= |ks|
    requires Searched(replies, n, window, rounds, reach, keys, lastKey, tol, pool)
    requires RepliesDecide(replies, n, keys, ks, window, lastKey, tol)
    ensures pool.Some? <==> GroupSeen(replies, ks, window)
  {
    forall j | 0 <= j < rounds - 1 ensures replies[j].Some? && !SeenAt(ks, window, j + 1) {
      assert Inconclusive(replies, n, window, j + 1, keys, lastKey, tol);
    }
    if pool.Some? {
      assert SeenAt(ks, window, (rounds - 1) + 1);
      assert AnsweredUpTo(replies, rounds);
    }
    if GroupSeen(replies, ks, window) {
      var k :| 1 <= k <= 11 && AnsweredUpTo(replies, k) && SeenAt(ks, window, k);
      assert replies[k - 1].Some? && SeenAt(ks, window, (k - 1) + 1);
      assert rounds <= k;
      assert replies[rounds - 1].Some?;
    }
  }

  lemma {:induction false} SeenLater(ks: seq<Row>, leq: KeyOrder, window: nat, k: nat, m: nat)
    requires TotalOrder(leq) && InOrder(ks, leq) && 0 < window <= |ks| && SeenAt(ks, window, k) && k <= m
    ensures SeenAt(ks, window, m)
    decreases m
  {
    if k < m {
      SeenLater(ks, leq, window, k, m - 1);
      SeenNext(ks, leq, window, Power2(m - 1));
      assert Power2(m) * window == 2 * Power2(m - 1) * window;
    }
  }

  lemma SeenNext(ks: seq<Row>, leq: KeyOrder, window: nat, factor: nat)
    requires TotalOrder(leq) && InOrder(ks, leq) && 0 < window <= |ks|
    requires factor * window > |ks| || (factor * window > 0 && ks[factor * window - 1] != ks[window - 1])
    ensures
      var reach := 2 * factor * window;
      reach > |ks| || (reach > 0 && ks[reach - 1] != ks[window - 1])
  {
    var before, reach := factor * window, 2 * factor * window;
    assert reach == 2 * before;
    if reach <= |ks| {
      assert before >= window;
      assert Leq(leq, ks[window - 1], ks[before - 1]) && Leq(leq, ks[before - 1], ks[reach - 1]);
    }
  }

  /** When every widening is answered, a pool is found exactly if the tie group the window ends in ends
      within 2048 windows. */
  lemma PoolFoundWithin(replies: seq<Option<Result>>, ks: seq<Row>, leq: KeyOrder, window: nat)
    requires |replies| == 11 && AnsweredUpTo(replies, 11)
    requires TotalOrder(leq) && InOrder(ks, leq) && 0 < window <= |ks|
    ensures GroupSeen(replies, ks, window) <==> 2048 * window > |ks| || ks[2048 * window - 1] != ks[window - 1]
  {
    WidenedMeans(window, 11);
    if GroupSeen(replies, ks, window) {
      var k :| 1 <= k <= 11 && AnsweredUpTo(replies, k) && SeenAt(ks, window, k);
      SeenLater(ks, leq, window, k, 11);
    }
    if SeenAt(ks, window, 11) {
      assert AnsweredUpTo(replies, 11);
    }
  }

  lemma WindowVerdict(bespoke: Result, reference: Result, keys: seq<nat>, limit: nat, offset: nat, replies: seq<Option<Result>>,
                      tol: real, rounds: nat, reach: nat, pool: Option<seq<Row>>, ranking: multiset<Row>, leq: KeyOrder,
                      w: seq<Row>)
    requires bespoke.Valid() && reference.Valid() && bespoke.ncols == reference.ncols
    requires keys != [] && KeysIn(keys, reference.ncols)
    requires TotalOrder(leq) && ExactRanking(ranking) && NoFloats(bespoke.Rows())
    requires LegalWindow(reference.Rows(), ranking, reference.ncols, keys, leq, offset, limit)
    requires Ordering(w, ranking, reference.ncols, keys, leq)
    requires RepliesFit(replies, reference.ncols) && RepliesArePrefixes(replies, offset + limit, ranking, reference.ncols, keys, leq)
    requires SearchOutcome(reference, keys, Some(limit), offset, replies, tol, rounds, reach, pool)
    ensures ArgumentsFit(bespoke, reference, Some(keys), pool)
    ensures ExactComparison(bespoke, reference, true, Some(keys), tol, Some(limit), pool)
    ensures Agree(bespoke, reference, true, Some(keys), tol, Some(limit), pool) ==>
      LegalWindow(bespoke.Rows(), ranking, reference.ncols, keys, leq, offset, limit)
    ensures pool.Some? || CleanWindow(w, reference.ncols, keys, offset, limit) ==>
      (Agree(bespoke, reference, true, Some(keys), tol, Some(limit), pool) <==>
       LegalWindow(bespoke.Rows(), ranking, reference.ncols, keys, leq, offset, limit))
  {
    assert keys[0] < reference.ncols;
    match pool
    case Some(p) =>
      OutcomeWithPool(reference, keys, limit, offset, replies, tol, rounds, reach, p);
      PoolVerdict(bespoke, reference, keys, limit, offset, replies, tol, rounds, reach, p, ranking, leq);
    case None => StrictVerdict(bespoke, reference, keys, limit, offset, tol, ranking, leq, w);
  }

  /** The validator's check of a LIMIT query against its reference. Over exact cells it accepts only
      legal windows of the ranking. With a pool in hand it accepts every one of them, and it has one exactly
      if some widening covers the end of the tie group the window ends in. Without one it accepts them all
      where the window cuts no tie group of different rows. */
  method CheckWindow(bespoke: Result, reference: Result, keys: seq<nat>, limit: nat, offset: nat,
                     replies: seq<Option<Result>>, tol: real,
                     ghost ranking: multiset<Row>, ghost leq: KeyOrder, ghost w: seq<Row>)
    returns (ok: bool, pool: Option<seq<Row>>)
    requires bespoke.Valid() && reference.Valid() && bespoke.ncols == reference.ncols
    requires keys != [] && KeysIn(keys, reference.ncols)
    requires TotalOrder(leq) && ExactRanking(ranking) && NoFloats(bespoke.Rows())
    requires LegalWindow(reference.Rows(), ranking, reference.ncols, keys, leq, offset, limit)
    requires Ordering(w, ranking, reference.ncols, keys, leq)
    requires RepliesFit(replies, reference.ncols) && RepliesArePrefixes(replies, offset + limit, ranking, reference.ncols, keys, leq)
    ensures ok ==> LegalWindow(bespoke.Rows(), ranking, reference.ncols, keys, leq, offset, limit)
    ensures pool.Some? || CleanWindow(w, reference.ncols, keys, offset, limit) ==>
      (ok <==> LegalWindow(bespoke.Rows(), ranking, reference.ncols, keys, leq, offset, limit))
    ensures |reference.Rows()| == limit > 0 ==>
      && offset + limit <= |w|
      && (pool.Some? <==> GroupSeen(replies, KeysOf(w, reference.ncols, keys), offset + limit))
      && (GroupSeen(replies, KeysOf(w, reference.ncols, keys), offset + limit) ==>
            (ok <==> LegalWindow(bespoke.Rows(), ranking, reference.ncols, keys, leq, offset, limit)))
  {
    var rounds, reach;
    AllShown(reference, keys, limit, offset, replies, ranking, leq, w);
    pool, rounds, reach := CandidateSuperset(reference, keys, Some(limit), offset, replies, tol);
    if |reference.Rows()| == limit > 0 {
      PoolFound(reference, keys, limit, offset, replies, tol, rounds, reach, pool, KeysOf(w, reference.ncols, keys));
    }
    WindowVerdict(bespoke, reference, keys, limit, offset, replies, tol, rounds, reach, pool, ranking, leq, w);
    ok := ResultsEqual(bespoke, reference, true, Some(keys), tol, Some(limit), pool);
  }
}
