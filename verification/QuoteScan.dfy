/** The quote-aware scanner of SQL text. */
module QuoteScan {
  import opened Wrappers

  /** A quoted string or identifier: positions of its quotes (the closing one is the length of the
      text when it is missing) and its text with doubled quotes collapsed. */
  datatype Span = Span(open: nat, close: nat, inner: string)

  datatype Bounds = Bounds(open: nat, close: nat)

  predicate IsQuote(c: char) {
    c == '\'' || c == '"'
  }

  // ---- where the spans are -----------------------------------------------------------

  /** The first undoubled q from position j on, or the end of the text. */
  function CloseOf(sql: string, q: char, j: nat): (k: nat)
    requires j <= |sql|
    ensures j <= k <= |sql|
    ensures k < |sql| ==> sql[k] == q
    decreases |sql| - j
  {
    if j == |sql| then j
    else if sql[j] != q then CloseOf(sql, q, j + 1)
    else if j + 1 < |sql| && sql[j + 1] == q then CloseOf(sql, q, j + 2)
    else j
  }

  function BoundsFrom(sql: string, i: nat): seq<Bounds>
    decreases |sql| - i
  {
    if i >= |sql| then []
    else if !IsQuote(sql[i]) then BoundsFrom(sql, i + 1)
    else
      var j := CloseOf(sql, sql[i], i + 1);
      [Bounds(i, j)] + BoundsFrom(sql, j + 1)
  }

  /** A literal's text with its quotes doubled again. */
  function Doubled(inner: string, q: char): string {
    if inner == "" then ""
    else
      var n := |inner| - 1;
      Doubled(inner[..n], q) + if inner[n] == q then [q, q] else [inner[n]]
  }

  /** Collapsing is determined: no two texts double to the same one. */
  lemma {:induction false} DoubledInjective(a: string, b: string, q: char)
    requires Doubled(a, q) == Doubled(b, q)
    ensures a == b
    decreases |a|
  {
    if a != "" && b != "" {
      var m, n := |a| - 1, |b| - 1;
      var d := Doubled(a, q);
      assert d[|d| - 1] == a[m] && d[|d| - 1] == b[n];
      var k := if a[m] == q then 2 else 1;
      assert Doubled(a[..m], q) == d[..|d| - k] && Doubled(b[..n], q) == d[..|d| - k];
      DoubledInjective(a[..m], b[..n], q);
      assert a == a[..m] + [a[m]] && b == b[..n] + [b[n]];
    }
  }

  /** A span starts at a quote, ends at the same quote or at the end of the text, and carries exactly
      the text between them, collapsed. */
  predicate SpanFits(sql: string, span: Span) {
    && span.open < span.close <= |sql| && IsQuote(sql[span.open])
    && (span.close < |sql| ==> sql[span.close] == sql[span.open])
    && sql[span.open + 1..span.close] == Doubled(span.inner, sql[span.open])
  }

  // ---- the scanner ---------------------------------------------------------------------

  lemma BodyGrows(sql: string, start: nat, j: nat, buf: string, q: char)
    requires start <= j < |sql| && Doubled(buf, q) == sql[start..j] && sql[j] != q
    ensures Doubled(buf + [sql[j]], q) == sql[start..j + 1]
  {
    assert sql[start..j + 1] == sql[start..j] + [sql[j]];
  }

  lemma BodyGrowsByPair(sql: string, start: nat, j: nat, buf: string, q: char)
    requires start <= j && j + 1 < |sql| && Doubled(buf, q) == sql[start..j] && sql[j] == q && sql[j + 1] == q
    ensures Doubled(buf + [q], q) == sql[start..j + 2]
  {
    assert sql[start..j + 2] == sql[start..j] + [q, q];
  }

  /** Reads the body that starts at `start`, up to its closing quote or the end of the text. */
  method ScanBody(sql: string, start: nat, q: char) returns (j: nat, buf: string)
    requires start <= |sql|
    ensures j == CloseOf(sql, q, start)
    ensures Doubled(buf, q) == sql[start..j]
  {
    j, buf := start, "";
    while j < |sql|
      invariant start <= j <= |sql|
      invariant CloseOf(sql, q, j) == CloseOf(sql, q, start)
      invariant Doubled(buf, q) == sql[start..j]
    {
      if sql[j] == q {
        if j + 1 < |sql| && sql[j + 1] == q {
          BodyGrowsByPair(sql, start, j, buf, q);
          buf := buf + [q];
          j := j + 2;
          continue;
        }
        break;
      }
      BodyGrows(sql, start, j, buf, q);
      buf := buf + [sql[j]];
      j := j + 1;
    }
  }

  predicate SpansAt(spans: seq<Span>, bounds: seq<Bounds>) {
    |spans| == |bounds| && forall m | 0 <= m < |spans| :: Bounds(spans[m].open, spans[m].close) == bounds[m]
  }

  /** All spans of the text, left to right. */
  method ScanStringLiterals(sql: string) returns (spans: seq<Span>)
    ensures SpansAt(spans, BoundsFrom(sql, 0))
    ensures forall m | 0 <= m < |spans| :: SpanFits(sql, spans[m])
  {
    spans := [];
    ghost var bounds: seq<Bounds> := [];
    var i := 0;
    while i < |sql|
      invariant bounds + BoundsFrom(sql, i) == BoundsFrom(sql, 0)
      invariant SpansAt(spans, bounds)
      invariant forall m | 0 <= m < |spans| :: SpanFits(sql, spans[m])
    {
      var q := sql[i];
      if !IsQuote(q) {
        i := i + 1;
        continue;
      }
      var j, buf := ScanBody(sql, i + 1, q);
      assert BoundsFrom(sql, i) == [Bounds(i, j)] + BoundsFrom(sql, j + 1);
      spans := spans + [Span(i, j, buf)];
      bounds := bounds + [Bounds(i, j)];
      i := j + 1;
    }
    assert BoundsFrom(sql, i) == [];
  }

  // ---- the automaton -------------------------------------------------------------------

  /** Two states, outside and inside a quote; a doubled quote leaves and re-enters. */
  function Toggle(open: Option<char>, c: char): Option<char> {
    match open
    case None => if IsQuote(c) then Some(c) else None
    case Some(q) => if c == q then None else open
  }

  /** The state before position k of the text. */
  function StateAt(sql: string, k: nat): Option<char>
    requires k <= |sql|
  {
    if k == 0 then None else Toggle(StateAt(sql, k - 1), sql[k - 1])
  }

  /** Outside, a single or a double quote opens; inside, only the quote that opened closes. */
  lemma StateMoves(sql: string, k: nat)
    requires k < |sql|
    ensures StateAt(sql, 0) == None
    ensures StateAt(sql, k + 1) ==
      match StateAt(sql, k)
      case None => if sql[k] == '\'' || sql[k] == '"' then Some(sql[k]) else None
      case Some(q) => if sql[k] == q then None else Some(q)
  {
  }

  /** In a body the automaton is inside, or between the two halves of a doubled quote. */
  lemma {:induction false} InsideBody(sql: string, j: nat, q: char)
    requires j <= |sql| && IsQuote(q) && StateAt(sql, j) == Some(q)
    ensures StateAt(sql, CloseOf(sql, q, j)) == Some(q)
    ensures forall k | j <= k < CloseOf(sql, q, j) :: IsQuote(sql[k]) || StateAt(sql, k) == Some(q)
    decreases |sql| - j
  {
    if j < |sql| {
      if sql[j] != q {
        InsideBody(sql, j + 1, q);
      } else if j + 1 < |sql| && sql[j + 1] == q {
        assert StateAt(sql, j + 1) == None;
        InsideBody(sql, j + 2, q);
      }
    }
  }

  predicate Within(b: Bounds, p: nat) {
    b.open <= p <= b.close
  }

  predicate Covered(bounds: seq<Bounds>, p: nat) {
    exists m | 0 <= m < |bounds| :: Within(bounds[m], p)
  }

  lemma CoveredCons(first: Bounds, later: seq<Bounds>, p: nat)
    ensures Covered([first] + later, p) <==> Within(first, p) || Covered(later, p)
  {
    var all := [first] + later;
    assert all[0] == first;
    if Covered(later, p) {
      var m :| 0 <= m < |later| && Within(later[m], p);
      assert all[m + 1] == later[m];
    }
  }

  /** Spans are in order, apart, and inside the text. */
  lemma {:induction false} BoundsOrdered(sql: string, i: nat)
    ensures forall m | 0 <= m < |BoundsFrom(sql, i)| ::
      i <= BoundsFrom(sql, i)[m].open < BoundsFrom(sql, i)[m].close <= |sql|
    ensures forall l, m | 0 <= l < m < |BoundsFrom(sql, i)| :: BoundsFrom(sql, i)[l].close < BoundsFrom(sql, i)[m].open
    decreases |sql| - i
  {
    if i < |sql| {
      if !IsQuote(sql[i]) {
        BoundsOrdered(sql, i + 1);
      } else {
        BoundsOrdered(sql, CloseOf(sql, sql[i], i + 1) + 1);
      }
    }
  }

  predicate InsideAt(sql: string, p: nat)
    requires p < |sql|
  {
    IsQuote(sql[p]) || StateAt(sql, p).Some?
  }

  lemma {:induction false} CoverageFrom(sql: string, i: nat)
    requires i <= |sql| ==> StateAt(sql, i) == None
    ensures forall p | i <= p < |sql| :: Covered(BoundsFrom(sql, i), p) <==> InsideAt(sql, p)
    decreases |sql| - i
  {
    if i < |sql| {
      if !IsQuote(sql[i]) {
        CoverageFrom(sql, i + 1);
        BoundsOrdered(sql, i + 1);
      } else {
        var j := CloseOf(sql, sql[i], i + 1);
        InsideBody(sql, i + 1, sql[i]);
        CoverageFrom(sql, j + 1);
        BoundsOrdered(sql, j + 1);
        forall p | i <= p < |sql| ensures Covered(BoundsFrom(sql, i), p) <==> InsideAt(sql, p) {
          CoveredCons(Bounds(i, j), BoundsFrom(sql, j + 1), p);
        }
      }
    }
  }

  /** The scanner agrees with the automaton: the spans cover the quotes and exactly those other
      characters that the automaton reads inside. */
  lemma SpansAgreeWithAutomaton(sql: string)
    ensures forall p | 0 <= p < |sql| :: Covered(BoundsFrom(sql, 0), p) <==> InsideAt(sql, p)
  {
    CoverageFrom(sql, 0);
  }
}
