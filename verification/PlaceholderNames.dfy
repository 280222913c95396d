/** The rewriter that gives each anonymous `?` of a template a name of its own, in source order. */
module PlaceholderNames {
  import opened Wrappers
  import opened Numerals
  import opened QuoteScan

  const SYNP := ":synp"

  function Marker(i: nat): string {
    SYNP + Digits(i)
  }

  /** The key the i-th name is kept under. */
  function Key(i: nat): string {
    "synp" + Digits(i)
  }

  lemma KeysDiffer(m: nat, n: nat)
    requires Key(m) == Key(n)
    ensures m == n
  {
    assert Key(m)[4..] == Digits(m) && Key(n)[4..] == Digits(n);
    DigitsInjective(m, n);
  }

  // ---- what the rewriting is, position by position -------------------------------------

  predicate IsMarker(sql: string, p: nat)
    requires p < |sql|
  {
    sql[p] == '?' && StateAt(sql, p).None?
  }

  function MarkersBefore(sql: string, k: nat): nat
    requires k <= |sql|
  {
    if k == 0 then 0 else MarkersBefore(sql, k - 1) + if IsMarker(sql, k - 1) then 1 else 0
  }

  function ImageOf(sql: string, p: nat): string
    requires p < |sql|
  {
    if IsMarker(sql, p) then Marker(MarkersBefore(sql, p)) else [sql[p]]
  }

  predicate ImageAt(sql: string, out: string, off: seq<nat>, p: nat)
    requires p < |sql| && p + 1 < |off|
  {
    && off[p + 1] == off[p] + |ImageOf(sql, p)| <= |out|
    && out[off[p]..off[p + 1]] == ImageOf(sql, p)
  }

  /** The images of the first k characters, in order and without gaps, are the text `out`; off[p] is
      where the image of character p starts. */
  predicate Placed(sql: string, k: nat, out: string, off: seq<nat>)
    requires k <= |sql|
  {
    |off| == k + 1 && off[0] == 0 && off[k] == |out| && forall p | 0 <= p < k :: ImageAt(sql, out, off, p)
  }

  lemma ImageStays(sql: string, out: string, off: seq<nat>, p: nat, more: string, further: seq<nat>)
    requires p < |sql| && p + 1 < |off| && ImageAt(sql, out, off, p)
    ensures ImageAt(sql, out + more, off + further, p)
  {
    assert (out + more)[off[p]..off[p + 1]] == out[off[p]..off[p + 1]];
  }

  lemma PlacedMarker(sql: string, k: nat, out: string, off: seq<nat>)
    requires k < |sql| && Placed(sql, k, out, off) && IsMarker(sql, k)
    ensures
      var image := Marker(MarkersBefore(sql, k));
      Placed(sql, k + 1, out + image, off + [|out| + |image|])
  {
    var image := Marker(MarkersBefore(sql, k));
    var out2, off2 := out + image, off + [|out| + |image|];
    forall p | 0 <= p < k + 1 ensures ImageAt(sql, out2, off2, p) {
      if p < k {
        ImageStays(sql, out, off, p, image, [|out| + |image|]);
      } else {
        assert out2[off2[k]..off2[k + 1]] == image;
      }
    }
  }

  /** A stretch without markers is placed as it stands. */
  lemma PlacedPlain(sql: string, lo: nat, hi: nat, out: string, off: seq<nat>) returns (off2: seq<nat>)
    requires lo <= hi <= |sql| && Placed(sql, lo, out, off)
    requires forall p | lo <= p < hi :: !IsMarker(sql, p)
    ensures Placed(sql, hi, out + sql[lo..hi], off2)
  {
    var further := seq(hi - lo, i requires 0 <= i < hi - lo => |out| + i + 1);
    off2 := off + further;
    var out2 := out + sql[lo..hi];
    forall p | 0 <= p < hi ensures ImageAt(sql, out2, off2, p) {
      if p < lo {
        ImageStays(sql, out, off, p, sql[lo..hi], further);
      } else {
        assert !IsMarker(sql, p);
        assert off2[p] == |out| + (p - lo) && off2[p + 1] == off2[p] + 1;
        assert out2[off2[p]] == sql[p];
      }
    }
  }

  function NamesUpTo(names: seq<string>, k: nat): map<string, string>
    requires k <= |names|
  {
    if k == 0 then map[] else NamesUpTo(names, k - 1)[Key(k - 1) := names[k - 1]]
  }

  lemma NamesNext(names: seq<string>, pi: nat)
    ensures
      NamesUpTo(names, Clamp(pi + 1, |names|)) ==
      if pi < |names| then NamesUpTo(names, Clamp(pi, |names|))[Key(pi) := names[pi]] else NamesUpTo(names, Clamp(pi, |names|))
  {
    var now, next: nat := Clamp(pi, |names|), Clamp(pi + 1, |names|);
    if pi < |names| {
      assert now == pi && next == pi + 1;
    } else {
      assert now == next;
    }
  }

  lemma {:induction false} NamesUpToMeans(names: seq<string>, k: nat)
    requires k <= |names|
    ensures forall i | 0 <= i < k :: Key(i) in NamesUpTo(names, k) && NamesUpTo(names, k)[Key(i)] == names[i]
    ensures forall key | key in NamesUpTo(names, k) :: exists i | 0 <= i < k :: key == Key(i)
  {
    if k > 0 {
      NamesUpToMeans(names, k - 1);
      forall i | 0 <= i < k ensures Key(i) in NamesUpTo(names, k) && NamesUpTo(names, k)[Key(i)] == names[i] {
        if Key(i) == Key(k - 1) {
          KeysDiffer(i, k - 1);
        }
      }
    }
  }

  // ---- stretches outside every literal --------------------------------------------------------

  predicate Outside(sql: string, lo: nat, hi: nat)
    requires lo <= hi <= |sql|
  {
    forall p | lo <= p < hi :: StateAt(sql, p) == None
  }

  /** Position of the first question mark, or the length. */
  function FirstQuestion(s: string): (n: nat)
    ensures n <= |s| && (n < |s| ==> s[n] == '?') && forall k | 0 <= k < n :: s[k] != '?'
  {
    if s == "" || s[0] == '?' then 0 else 1 + FirstQuestion(s[1..])
  }

  /** The pieces between the question marks. */
  function Split(s: string): (pieces: seq<string>)
    ensures pieces != []
  {
    var n := FirstQuestion(s);
    if n == |s| then [s] else [s[..n]] + Split(s[n + 1..])
  }

  /** One turn of the rewriter: the marker at `at` and the piece behind it. */
  lemma MarkerAndPiece(sql: string, lo: nat, hi: nat, at: nat, rest: seq<string>, out: string, off: seq<nat>)
    returns (next: nat, off2: seq<nat>)
    requires lo <= at < hi <= |sql| && Outside(sql, lo, hi) && sql[at] == '?'
    requires Placed(sql, at, out, off) && rest == Split(sql[at + 1..hi])
    ensures at < next <= hi && MarkersBefore(sql, next) == MarkersBefore(sql, at) + 1
    ensures Placed(sql, next, out + Marker(MarkersBefore(sql, at)) + rest[0], off2)
    ensures if next < hi then sql[next] == '?' && rest[1..] == Split(sql[next + 1..hi]) else |rest| == 1
  {
    assert IsMarker(sql, at) && MarkersBefore(sql, at + 1) == MarkersBefore(sql, at) + 1;
    next := at + 1 + |rest[0]|;
    PieceAhead(sql, at + 1, hi, next);
    off2 := PlacedPair(sql, at, next, out, off, rest[0]);
  }

  lemma PlacedPair(sql: string, at: nat, next: nat, out: string, off: seq<nat>, piece: string) returns (off2: seq<nat>)
    requires at < next <= |sql| && IsMarker(sql, at) && Placed(sql, at, out, off)
    requires piece == sql[at + 1..next] && forall p | at + 1 <= p < next :: !IsMarker(sql, p)
    ensures Placed(sql, next, out + Marker(MarkersBefore(sql, at)) + piece, off2)
  {
    var image := Marker(MarkersBefore(sql, at));
    PlacedMarker(sql, at, out, off);
    off2 := PlacedPlain(sql, at + 1, next, out + image, off + [|out| + |image|]);
  }

  /** Rewrites a stretch without quotes, numbering on from pi. */
  method RewriteOutside(sql: string, lo: nat, hi: nat, names: seq<string>, pi0: nat, mapping0: map<string, string>,
                        out0: string, ghost off0: seq<nat>)
    returns (out: string, pi: nat, mapping: map<string, string>, ghost off: seq<nat>)
    requires lo <= hi <= |sql| && Outside(sql, lo, hi)
    requires Placed(sql, lo, out0, off0) && pi0 == MarkersBefore(sql, lo)
    requires mapping0 == NamesUpTo(names, Clamp(pi0, |names|))
    ensures Placed(sql, hi, out, off) && pi == MarkersBefore(sql, hi)
    ensures mapping == NamesUpTo(names, Clamp(pi, |names|))
  {
    var pieces := Split(sql[lo..hi]);
    ghost var at := lo + |pieces[0]|;
    ghost var rest := pieces[1..];
    PieceAhead(sql, lo, hi, at);
    off := PlacedPlain(sql, lo, at, out0, off0);
    out, pi, mapping := out0 + pieces[0], pi0, mapping0;
    for m := 1 to |pieces|
      invariant lo <= at <= hi && Placed(sql, at, out, off) && pi == MarkersBefore(sql, at)
      invariant mapping == NamesUpTo(names, Clamp(pi, |names|))
      invariant rest == pieces[m..] && (at == hi <==> rest == [])
      invariant at < hi ==> sql[at] == '?' && rest == Split(sql[at + 1..hi])
    {
      NamesNext(names, pi);
      if pi < |names| {
        mapping := mapping[Key(pi) := names[pi]];
      }
      ghost var next;
      next, off := MarkerAndPiece(sql, lo, hi, at, rest, out, off);
      out := out + Marker(pi);
      pi := pi + 1;
      out := out + pieces[m];
      at, rest := next, rest[1..];
    }
  }

  /** The first piece of a stretch outside every literal: plain text up to a marker or the end. */
  lemma PieceAhead(sql: string, lo: nat, hi: nat, at: nat)
    requires lo <= hi <= |sql| && Outside(sql, lo, hi) && at == lo + |Split(sql[lo..hi])[0]|
    ensures at <= hi && Split(sql[lo..hi])[0] == sql[lo..at]
    ensures forall p | lo <= p < at :: !IsMarker(sql, p)
    ensures MarkersBefore(sql, at) == MarkersBefore(sql, lo)
    ensures if at < hi then sql[at] == '?' && Split(sql[lo..hi])[1..] == Split(sql[at + 1..hi]) else |Split(sql[lo..hi])| == 1
  {
    var s := sql[lo..hi];
    assert at == lo + FirstQuestion(s);
    assert s[..at - lo] == sql[lo..at];
    forall p | lo <= p < at ensures sql[p] != '?' {
      assert s[p - lo] == sql[p];
    }
    NoMarkers(sql, lo, at);
    if at < hi {
      assert s[at - lo + 1..] == sql[at + 1..hi];
    }
  }

  lemma {:induction false} NoMarkers(sql: string, lo: nat, hi: nat)
    requires lo <= hi <= |sql| && forall p | lo <= p < hi :: !IsMarker(sql, p)
    ensures MarkersBefore(sql, hi) == MarkersBefore(sql, lo)
    decreases hi - lo
  {
    if lo < hi {
      NoMarkers(sql, lo, hi - 1);
    }
  }

  // ---- the rewriter ------------------------------------------------------------------------

  function Clamp(k: nat, n: nat): nat {
    if k < n then k else n
  }

  /** Where the stretch before the m-th span starts: after the span before it, if that is closed. */
  function GapStart(sql: string, bounds: seq<Bounds>, m: nat): nat
    requires m <= |bounds|
  {
    if m == 0 then 0 else Clamp(bounds[m - 1].close + 1, |sql|)
  }

  function GapEnd(sql: string, bounds: seq<Bounds>, m: nat): nat {
    if m < |bounds| then bounds[m].open else |sql|
  }

  lemma {:induction false} OutsideFrom(sql: string, lo: nat, hi: nat)
    requires lo <= hi <= |sql| && (lo < hi ==> StateAt(sql, lo) == None)
    requires forall p | lo <= p < hi :: !IsQuote(sql[p])
    ensures Outside(sql, lo, hi)
    decreases hi - lo
  {
    if lo + 1 < hi {
      OutsideFrom(sql, lo, hi - 1);
      assert StateAt(sql, hi - 2) == None;
    }
  }

  /** The stretch between two spans lies outside, the span itself inside. */
  lemma GapOutside(sql: string, m: nat)
    requires m <= |BoundsFrom(sql, 0)|
    ensures
      var bounds := BoundsFrom(sql, 0);
      var lo, hi := GapStart(sql, bounds, m), GapEnd(sql, bounds, m);
      lo <= hi <= |sql| && Outside(sql, lo, hi)
  {
    var bounds := BoundsFrom(sql, 0);
    var lo, hi := GapStart(sql, bounds, m), GapEnd(sql, bounds, m);
    BoundsOrdered(sql, 0);
    SpansAgreeWithAutomaton(sql);
    forall p | lo <= p < hi ensures !IsQuote(sql[p]) {
      forall l | 0 <= l < |bounds| ensures !Within(bounds[l], p) {
      }
      assert !InsideAt(sql, p);
    }
    if m > 0 {
      ClosesOutside(sql, 0, m - 1);
    }
    OutsideFrom(sql, lo, hi);
  }

  lemma SpanInside(sql: string, m: nat)
    requires m < |BoundsFrom(sql, 0)|
    ensures
      var b := BoundsFrom(sql, 0)[m];
      b.open < b.close <= |sql| && forall p | b.open <= p < Clamp(b.close + 1, |sql|) :: InsideAt(sql, p)
  {
    var bounds := BoundsFrom(sql, 0);
    BoundsOrdered(sql, 0);
    SpansAgreeWithAutomaton(sql);
    forall p | bounds[m].open <= p < Clamp(bounds[m].close + 1, |sql|) ensures InsideAt(sql, p) {
      assert Within(bounds[m], p);
    }
  }

  /** After a span that is closed the automaton is outside. */
  lemma {:induction false} ClosesOutside(sql: string, i: nat, m: nat)
    requires m < |BoundsFrom(sql, i)| && (i <= |sql| ==> StateAt(sql, i) == None)
    ensures
      var c := BoundsFrom(sql, i)[m].close;
      c < |sql| ==> StateAt(sql, c + 1) == None
    decreases |sql| - i
  {
    if !IsQuote(sql[i]) {
      ClosesOutside(sql, i + 1, m);
    } else {
      var j := CloseOf(sql, sql[i], i + 1);
      InsideBody(sql, i + 1, sql[i]);
      if m > 0 {
        ClosesOutside(sql, j + 1, m - 1);
      }
    }
  }

  /** Names the anonymous placeholders of a template: the rewritten text and the names by key, or
      nothing when there are not as many `?` as names. */
  method NameAnonymousPlaceholders(sql: string, names: seq<string>)
    returns (rewritten: Option<string>, mapping: map<string, string>, ghost off: seq<nat>)
    ensures rewritten.Some? <==> MarkersBefore(sql, |sql|) == |names|
    ensures rewritten.Some? ==> Placed(sql, |sql|, rewritten.value, off)
    ensures mapping == if rewritten.Some? then NamesUpTo(names, |names|) else map[]
  {
    var spans := ScanStringLiterals(sql);
    ghost var bounds := BoundsFrom(sql, 0);
    var out, pi, last := "", 0, 0;
    mapping, off := map[], [0];
    for m := 0 to |spans|
      invariant last == GapStart(sql, bounds, m)
      invariant Placed(sql, last, out, off) && pi == MarkersBefore(sql, last)
      invariant mapping == NamesUpTo(names, Clamp(pi, |names|))
    {
      var open, end := spans[m].open, Clamp(spans[m].close + 1, |sql|);
      assert Bounds(open, spans[m].close) == bounds[m];
      GapOutside(sql, m);
      SpanPlain(sql, m);
      out, pi, mapping, off := RewriteOutside(sql, last, open, names, pi, mapping, out, off);
      off := PlacedPlain(sql, open, end, out, off);
      out := out + sql[open..end];
      last := end;
    }
    GapOutside(sql, |spans|);
    out, pi, mapping, off := RewriteOutside(sql, last, |sql|, names, pi, mapping, out, off);
    if pi != |names| {
      return None, map[], off;
    }
    rewritten := Some(out);
  }

  lemma SpanPlain(sql: string, m: nat)
    requires m < |BoundsFrom(sql, 0)|
    ensures
      var lo, hi := BoundsFrom(sql, 0)[m].open, GapStart(sql, BoundsFrom(sql, 0), m + 1);
      && lo <= hi <= |sql|
      && (forall p | lo <= p < hi :: !IsMarker(sql, p))
      && MarkersBefore(sql, hi) == MarkersBefore(sql, lo)
  {
    var lo, hi := BoundsFrom(sql, 0)[m].open, GapStart(sql, BoundsFrom(sql, 0), m + 1);
    SpanInside(sql, m);
    forall p | lo <= p < hi ensures !IsMarker(sql, p) {
      assert InsideAt(sql, p);
    }
    NoMarkers(sql, lo, hi);
  }

  // ---- the rewriting is determined, and literals are found again in it ---------------------------

  /** A text has one rewriting. */
  lemma {:induction false} PlacedDetermined(sql: string, k: nat, a: string, offA: seq<nat>, b: string, offB: seq<nat>)
    requires k <= |sql| && Placed(sql, k, a, offA) && Placed(sql, k, b, offB)
    ensures a == b && offA == offB
  {
    if k > 0 {
      PlacedShorter(sql, k, a, offA);
      PlacedShorter(sql, k, b, offB);
      PlacedDetermined(sql, k - 1, a[..offA[k - 1]], offA[..k], b[..offB[k - 1]], offB[..k]);
      assert ImageAt(sql, a, offA, k - 1) && ImageAt(sql, b, offB, k - 1);
      assert a == a[..offA[k - 1]] + a[offA[k - 1]..offA[k]] && b == b[..offB[k - 1]] + b[offB[k - 1]..offB[k]];
      assert offA == offA[..k] + [offA[k]] && offB == offB[..k] + [offB[k]];
    }
  }

  lemma PlacedShorter(sql: string, k: nat, out: string, off: seq<nat>)
    requires 0 < k <= |sql| && Placed(sql, k, out, off)
    ensures off[k - 1] <= |out| && Placed(sql, k - 1, out[..off[k - 1]], off[..k])
  {
    assert ImageAt(sql, out, off, k - 1);
    PlacedClimb(sql, k - 1, out, off);
    var shorter, off2 := out[..off[k - 1]], off[..k];
    forall p | 0 <= p < k - 1 ensures ImageAt(sql, shorter, off2, p) {
      assert ImageAt(sql, out, off, p);
      ImageCut(sql, out, off, p, k);
    }
  }

  lemma ImageCut(sql: string, out: string, off: seq<nat>, p: nat, k: nat)
    requires p < |sql| && p + 1 < k < |off| && ImageAt(sql, out, off, p) && off[p + 1] <= off[k - 1] <= |out|
    ensures ImageAt(sql, out[..off[k - 1]], off[..k], p)
  {
    assert out[..off[k - 1]][off[p]..off[p + 1]] == out[off[p]..off[p + 1]];
  }

  lemma {:induction false} PlacedClimb(sql: string, k: nat, out: string, off: seq<nat>)
    requires k <= |sql| && |off| > k && forall p | 0 <= p < k :: ImageAt(sql, out, off, p)
    ensures forall i | 0 <= i <= k :: off[i] <= off[k]
  {
    if k > 0 {
      PlacedClimb(sql, k - 1, out, off);
      assert ImageAt(sql, out, off, k - 1);
    }
  }

  lemma MarkerText(i: nat)
    ensures |Marker(i)| > 5 && Marker(i)[..5] == SYNP && Marker(i)[0] == ':'
    ensures forall k | 0 < k < |Marker(i)| :: Marker(i)[k] != ':'
    ensures forall k | 0 <= k < |Marker(i)| :: !IsQuote(Marker(i)[k])
  {
    DigitsAreDigits(i);
    assert Marker(i)[..5] == SYNP;
  }

  lemma PlainImage(sql: string, out: string, off: seq<nat>, p: nat)
    requires p < |sql| && p + 1 < |off| && ImageAt(sql, out, off, p) && !IsMarker(sql, p)
    ensures off[p + 1] == off[p] + 1 <= |out| && out[off[p]] == sql[p]
  {
    assert out[off[p]..off[p + 1]][0] == sql[p];
  }

  lemma MarkerImage(sql: string, out: string, off: seq<nat>, p: nat)
    requires p < |sql| && p + 1 < |off| && ImageAt(sql, out, off, p) && IsMarker(sql, p)
    ensures off[p] + 5 < off[p + 1] <= |out| && off[p + 1] == off[p] + |Marker(MarkersBefore(sql, p))|
    ensures out[off[p]..off[p] + 5] == SYNP && out[off[p]] == ':'
    ensures forall i | off[p] < i < off[p + 1] :: out[i] != ':'
    ensures forall i | off[p] <= i < off[p + 1] :: !IsQuote(out[i])
  {
    var marker := Marker(MarkersBefore(sql, p));
    MarkerText(MarkersBefore(sql, p));
    forall i | off[p] <= i < off[p + 1] ensures out[i] == marker[i - off[p]] {
      assert out[off[p]..off[p + 1]][i - off[p]] == out[i];
    }
    assert out[off[p]..off[p] + 5] == marker[..5];
  }

  /** The images told only by their extent and their quotes: all that scanning depends on. */
  predicate LaidAt(sql: string, out: string, off: seq<nat>, p: nat)
    requires p < |sql| && p + 1 < |off|
  {
    && off[p] < off[p + 1] <= |out|
    && if IsMarker(sql, p) then forall i | off[p] <= i < off[p + 1] :: !IsQuote(out[i])
       else off[p + 1] == off[p] + 1 && out[off[p]] == sql[p]
  }

  predicate Laid(sql: string, out: string, off: seq<nat>) {
    |off| == |sql| + 1 && off[0] == 0 && off[|sql|] == |out| && forall p | 0 <= p < |sql| :: LaidAt(sql, out, off, p)
  }

  lemma PlacedIsLaid(sql: string, out: string, off: seq<nat>)
    requires Placed(sql, |sql|, out, off)
    ensures Laid(sql, out, off)
  {
    forall p | 0 <= p < |sql| ensures LaidAt(sql, out, off, p) {
      assert ImageAt(sql, out, off, p);
      if IsMarker(sql, p) {
        MarkerImage(sql, out, off, p);
      } else {
        PlainImage(sql, out, off, p);
      }
    }
  }

  lemma {:induction false} LaidClimb(sql: string, out: string, off: seq<nat>, i: nat, k: nat)
    requires Laid(sql, out, off) && i <= k <= |sql|
    ensures off[i] + (k - i) <= off[k] <= |out|
    decreases |sql| - i, k
  {
    if i < k {
      assert LaidAt(sql, out, off, k - 1);
      LaidClimb(sql, out, off, i, k - 1);
    } else if k > 0 {
      assert LaidAt(sql, out, off, k - 1);
    }
  }

  /** The automaton is in the same state at corresponding places. */
  lemma {:induction false} StateTracks(sql: string, out: string, off: seq<nat>, k: nat)
    requires Laid(sql, out, off) && k <= |sql|
    ensures off[k] <= |out| && StateAt(out, off[k]) == StateAt(sql, k)
    decreases k
  {
    LaidClimb(sql, out, off, k, k);
    if k > 0 {
      StateTracks(sql, out, off, k - 1);
      assert LaidAt(sql, out, off, k - 1);
      if IsMarker(sql, k - 1) {
        OutsideFrom(out, off[k - 1], off[k]);
        assert StateAt(out, off[k] - 1) == None;
      } else {
      }
    }
  }

  lemma {:induction false} CloseTracks(sql: string, out: string, off: seq<nat>, q: char, j: nat)
    requires Laid(sql, out, off) && j <= |sql| && IsQuote(q) && StateAt(sql, j) == Some(q)
    ensures off[j] <= |out| && CloseOf(out, q, off[j]) == off[CloseOf(sql, q, j)]
    decreases |sql| - j
  {
    if j < |sql| {
      assert LaidAt(sql, out, off, j);
      if sql[j] != q {
        CloseTracks(sql, out, off, q, j + 1);
      } else if j + 1 < |sql| {
        assert LaidAt(sql, out, off, j + 1);
        if sql[j + 1] == q {
          assert StateAt(sql, j + 1) == None;
          CloseTracks(sql, out, off, q, j + 2);
        }
      }
    }
  }

  lemma {:induction false} SkipPlain(s: string, lo: nat, hi: nat)
    requires lo <= hi <= |s| && forall p | lo <= p < hi :: !IsQuote(s[p])
    ensures BoundsFrom(s, lo) == BoundsFrom(s, hi)
    decreases hi - lo
  {
    if lo < hi {
      SkipPlain(s, lo + 1, hi);
    }
  }

  predicate Tracks(off: seq<nat>, b: Bounds, image: Bounds) {
    b.open < |off| && b.close < |off| && image == Bounds(off[b.open], off[b.close])
  }

  predicate AllTrack(off: seq<nat>, found: seq<Bounds>, image: seq<Bounds>) {
    |found| == |image| && forall m | 0 <= m < |found| :: Tracks(off, found[m], image[m])
  }

  predicate Leads(b: Bounds, found: seq<Bounds>, later: seq<Bounds>) {
    found == [b] + later
  }

  lemma FirstBounds(s: string, i: nat, j: nat)
    requires i < |s| && IsQuote(s[i]) && j == CloseOf(s, s[i], i + 1)
    ensures Leads(Bounds(i, j), BoundsFrom(s, i), BoundsFrom(s, j + 1))
  {
  }

  lemma TrackCons(off: seq<nat>, b: Bounds, found: seq<Bounds>, later: seq<Bounds>,
                  image: Bounds, foundImage: seq<Bounds>, laterImage: seq<Bounds>)
    requires Tracks(off, b, image) && AllTrack(off, later, laterImage)
    requires Leads(b, found, later) && Leads(image, foundImage, laterImage)
    ensures AllTrack(off, found, foundImage)
  {
  }

  lemma NoneBehind(s: string, i: nat)
    requires i >= |s|
    ensures BoundsFrom(s, i) == []
  {
  }

  /** The spans of the rewritten text stand where the spans of the text are placed. */
  lemma {:induction false} BoundsTrack(sql: string, out: string, off: seq<nat>, i: nat)
    requires Laid(sql, out, off) && i <= |sql| && StateAt(sql, i) == None
    ensures AllTrack(off, BoundsFrom(sql, i), BoundsFrom(out, off[i]))
    decreases |sql| - i, 2
  {
    if i < |sql| {
      assert LaidAt(sql, out, off, i);
      if IsMarker(sql, i) {
        SkipPlain(out, off[i], off[i + 1]);
        BoundsTrack(sql, out, off, i + 1);
      } else if !IsQuote(sql[i]) {
        BoundsTrack(sql, out, off, i + 1);
      } else {
        QuoteTracks(sql, out, off, i);
      }
    }
  }

  lemma {:induction false} QuoteTracks(sql: string, out: string, off: seq<nat>, i: nat)
    requires Laid(sql, out, off) && i < |sql| && StateAt(sql, i) == None && IsQuote(sql[i])
    ensures AllTrack(off, BoundsFrom(sql, i), BoundsFrom(out, off[i]))
    decreases |sql| - i, 1
  {
    var j, o, c := LiteralLeads(sql, out, off, i);
    LaterTrack(sql, out, off, i, j);
    QuoteJoined(sql, i, j, out, o, c, off);
  }

  lemma {:induction false} LaterTrack(sql: string, out: string, off: seq<nat>, i: nat, j: nat)
    requires Laid(sql, out, off) && i < j <= |sql|
    requires if j < |sql| then StateAt(sql, j + 1) == None && off[j + 1] == off[j] + 1 else off[j] == |out|
    ensures AllTrack(off, BoundsFrom(sql, j + 1), BoundsFrom(out, off[j] + 1))
    decreases |sql| - i, 0
  {
    if j < |sql| {
      BoundsTrack(sql, out, off, j + 1);
    } else {
      NoneBehind(sql, |sql| + 1);
      NoneBehind(out, |out| + 1);
    }
  }

  /** A literal and its image come first among the spans. */
  lemma LiteralLeads(sql: string, out: string, off: seq<nat>, i: nat) returns (j: nat, o: nat, c: nat)
    requires Laid(sql, out, off) && i < |sql| && StateAt(sql, i) == None && IsQuote(sql[i])
    ensures i < j <= |sql| && o == off[i] && c == off[j]
    ensures if j < |sql| then StateAt(sql, j + 1) == None && off[j + 1] == off[j] + 1 else off[j] == |out|
    ensures Leads(Bounds(i, j), BoundsFrom(sql, i), BoundsFrom(sql, j + 1))
    ensures Leads(Bounds(o, c), BoundsFrom(out, o), BoundsFrom(out, c + 1))
  {
    j := LiteralTracks(sql, out, off, i);
    o, c := off[i], off[j];
    FirstBounds(sql, i, j);
    FirstBounds(out, o, c);
  }

  /** A span and the spans behind it. */
  lemma QuoteJoined(sql: string, i: nat, j: nat, out: string, o: nat, c: nat, off: seq<nat>)
    requires i < |off| && j < |off| && off[i] == o && off[j] == c
    requires Leads(Bounds(i, j), BoundsFrom(sql, i), BoundsFrom(sql, j + 1))
    requires Leads(Bounds(o, c), BoundsFrom(out, o), BoundsFrom(out, c + 1))
    requires AllTrack(off, BoundsFrom(sql, j + 1), BoundsFrom(out, c + 1))
    ensures AllTrack(off, BoundsFrom(sql, i), BoundsFrom(out, o))
  {
    TrackCons(off, Bounds(i, j), BoundsFrom(sql, i), BoundsFrom(sql, j + 1),
              Bounds(o, c), BoundsFrom(out, o), BoundsFrom(out, c + 1));
  }

  /** A literal ends where its image ends, and the automaton is outside again. */
  lemma LiteralTracks(sql: string, out: string, off: seq<nat>, i: nat) returns (j: nat)
    requires Laid(sql, out, off) && i < |sql| && StateAt(sql, i) == None && IsQuote(sql[i])
    ensures j == CloseOf(sql, sql[i], i + 1)
    ensures off[i] < |out| && out[off[i]] == sql[i] && off[j] == CloseOf(out, sql[i], off[i] + 1)
    ensures j < |sql| ==> StateAt(sql, j + 1) == None && off[j + 1] == off[j] + 1
    ensures j == |sql| ==> off[j] == |out|
  {
    var q := sql[i];
    assert LaidAt(sql, out, off, i);
    CloseTracks(sql, out, off, q, i + 1);
    InsideBody(sql, i + 1, q);
    j := CloseOf(sql, q, i + 1);
    if j < |sql| {
      assert LaidAt(sql, out, off, j);
    }
  }

  /** A stretch without markers is read back in place. */
  lemma {:induction false} StretchRead(sql: string, out: string, off: seq<nat>, lo: nat, hi: nat)
    requires Laid(sql, out, off) && lo <= hi <= |sql| && forall p | lo <= p < hi :: !IsMarker(sql, p)
    ensures off[lo] <= off[hi] <= |out| && off[hi] == off[lo] + (hi - lo) && out[off[lo]..off[hi]] == sql[lo..hi]
    decreases hi - lo
  {
    LaidClimb(sql, out, off, lo, hi);
    if lo < hi {
      StretchRead(sql, out, off, lo, hi - 1);
      assert LaidAt(sql, out, off, hi - 1);
      assert sql[lo..hi] == sql[lo..hi - 1] + [sql[hi - 1]];
      assert out[off[lo]..off[hi]] == out[off[lo]..off[hi - 1]] + [out[off[hi - 1]]];
    }
  }

  /** The text of a span with its quotes. */
  function TextOf(sql: string, b: Bounds): string
    requires b.open <= b.close <= |sql|
  {
    sql[b.open..Clamp(b.close + 1, |sql|)]
  }

  /** Scanning the rewritten text finds the same literals: as many, in the same order, each with the
      same text between the same quotes. */
  lemma LiteralsUnchanged(sql: string, out: string, off: seq<nat>)
    requires Placed(sql, |sql|, out, off)
    ensures
      var found, again := BoundsFrom(sql, 0), BoundsFrom(out, 0);
      && |again| == |found|
      && forall m | 0 <= m < |found| ::
        && found[m].open <= found[m].close <= |sql| && again[m].open <= again[m].close <= |out|
        && TextOf(out, again[m]) == TextOf(sql, found[m])
  {
    var found, again := BoundsFrom(sql, 0), BoundsFrom(out, 0);
    PlacedIsLaid(sql, out, off);
    BoundsTrack(sql, out, off, 0);
    BoundsOrdered(sql, 0);
    BoundsOrdered(out, 0);
    forall m | 0 <= m < |found| ensures TextOf(out, again[m]) == TextOf(sql, found[m]) {
      assert Tracks(off, found[m], again[m]);
      LiteralRead(sql, out, off, m);
    }
  }

  lemma LiteralRead(sql: string, out: string, off: seq<nat>, m: nat)
    requires Laid(sql, out, off) && m < |BoundsFrom(sql, 0)|
    ensures
      var b := BoundsFrom(sql, 0)[m];
      && b.open <= b.close <= |sql| && off[b.open] <= off[b.close] <= |out|
      && TextOf(out, Bounds(off[b.open], off[b.close])) == TextOf(sql, b)
  {
    var b := BoundsFrom(sql, 0)[m];
    var hi := Clamp(b.close + 1, |sql|);
    SpanInside(sql, m);
    SpanPlain(sql, m);
    StretchRead(sql, out, off, b.open, hi);
    LaidClimb(sql, out, off, b.open, b.close);
    if b.close < |sql| {
      assert LaidAt(sql, out, off, b.close);
    }
  }
}
