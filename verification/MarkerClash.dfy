/** When the rewriter can be undone: exactly when no text of the template's own, between two
    neighbouring `?`, spells the name the one between them is given. */
module MarkerClash {
  import opened Wrappers
  import opened QuoteScan
  import opened Numerals
  import opened PlaceholderNames

  /** The template's own text at p, outside the literals, spells the name of its j-th `?`; and p stands
      between the `?` before that one and the `?` after it. */
  predicate OwnMarkerAt(sql: string, j: nat, p: nat) {
    && j < MarkersBefore(sql, |sql|)
    && p + |Marker(j)| <= |sql| && sql[p..p + |Marker(j)|] == Marker(j) && StateAt(sql, p) == None
    && (MarkersBefore(sql, p) == j || MarkersBefore(sql, p) == j + 1)
  }

  ghost predicate OwnsMarker(sql: string) {
    exists j, p :: OwnMarkerAt(sql, j, p)
  }

  /** Two templates with as many `?` have the same rewriting. */
  ghost predicate RewrittenAlike(a: string, b: string) {
    MarkersBefore(a, |a|) == MarkersBefore(b, |b|)
    && exists out, offA, offB :: Placed(a, |a|, out, offA) && Placed(b, |b|, out, offB)
  }

  // ---- the places of the markers -------------------------------------------------------

  function MarkerPlaces(sql: string, k: nat): (places: seq<nat>)
    requires k <= |sql|
    ensures |places| == MarkersBefore(sql, k)
  {
    if k == 0 then [] else MarkerPlaces(sql, k - 1) + if IsMarker(sql, k - 1) then [k - 1] else []
  }

  lemma {:induction false} PlacesMean(sql: string, k: nat)
    requires k <= |sql|
    ensures forall i | 0 <= i < MarkersBefore(sql, k) ::
      var q := MarkerPlaces(sql, k)[i]; q < k && IsMarker(sql, q) && MarkersBefore(sql, q) == i
    ensures forall q | 0 <= q < k && IsMarker(sql, q) ::
      MarkersBefore(sql, q) < MarkersBefore(sql, k) && MarkerPlaces(sql, k)[MarkersBefore(sql, q)] == q
  {
    if k > 0 {
      PlacesMean(sql, k - 1);
    }
  }

  lemma PlaceAt(sql: string, i: nat) returns (q: nat)
    requires i < MarkersBefore(sql, |sql|)
    ensures q < |sql| && q == MarkerPlaces(sql, |sql|)[i] && IsMarker(sql, q) && MarkersBefore(sql, q) == i
  {
    PlacesMean(sql, |sql|);
    q := MarkerPlaces(sql, |sql|)[i];
  }

  lemma PlaceOf(sql: string, q: nat)
    requires q < |sql| && IsMarker(sql, q)
    ensures MarkersBefore(sql, q) < MarkersBefore(sql, |sql|) && MarkerPlaces(sql, |sql|)[MarkersBefore(sql, q)] == q
  {
    PlacesMean(sql, |sql|);
  }

  lemma {:induction false} MarkersGrow(sql: string, p: nat, q: nat)
    requires p <= q <= |sql|
    ensures MarkersBefore(sql, p) <= MarkersBefore(sql, q)
    decreases q
  {
    if p < q {
      MarkersGrow(sql, p, q - 1);
    }
  }

  /** Where the markers start in the rewriting. */
  function MarkerOffsets(sql: string, off: seq<nat>): (s: seq<nat>)
    requires |off| == |sql| + 1
    ensures |s| == MarkersBefore(sql, |sql|)
  {
    var places := MarkerPlaces(sql, |sql|);
    PlacesMean(sql, |sql|);
    seq(|places|, i requires 0 <= i < |places| => off[places[i]])
  }

  predicate Increasing(s: seq<nat>) {
    forall i, k | 0 <= i < k < |s| :: s[i] < s[k]
  }

  lemma OffsetsIncrease(sql: string, out: string, off: seq<nat>)
    requires Laid(sql, out, off)
    ensures Increasing(MarkerOffsets(sql, off))
  {
    forall i, k | 0 <= i < k < MarkersBefore(sql, |sql|)
      ensures MarkerOffsets(sql, off)[i] < MarkerOffsets(sql, off)[k]
    {
      var p := PlaceAt(sql, i);
      var q := PlaceAt(sql, k);
      if q <= p {
        MarkersGrow(sql, q, p);
      }
      LaidClimb(sql, out, off, p, q);
    }
  }

  /** What stands in the rewriting where the i-th marker starts. */
  lemma MarkerStands(sql: string, out: string, off: seq<nat>, i: nat)
    requires Placed(sql, |sql|, out, off) && i < MarkersBefore(sql, |sql|)
    ensures
      var x := MarkerOffsets(sql, off)[i];
      x + |Marker(i)| <= |out| && out[x..x + |Marker(i)|] == Marker(i) && StateAt(out, x) == None
  {
    var q := PlaceAt(sql, i);
    PlacedIsLaid(sql, out, off);
    assert ImageAt(sql, out, off, q);
    StateTracks(sql, out, off, q);
  }

  // ---- two templates with one rewriting ----------------------------------------------------

  /** Two different increasing lists: one of them has an entry strictly between the neighbours of the
      other's. */
  lemma {:induction false} RunUp(s: seq<nat>, t: seq<nat>, i: nat) returns (j: nat)
    requires |s| == |t| && i < |s| && s[i] < t[i]
    ensures j < |s| && s[j] < t[j] && (j + 1 < |s| ==> t[j + 1] <= s[j + 1])
    decreases |s| - i
  {
    if i + 1 < |s| && s[i + 1] < t[i + 1] {
      j := RunUp(s, t, i + 1);
    } else {
      j := i;
    }
  }

  lemma {:induction false} RunDown(s: seq<nat>, t: seq<nat>, i: nat) returns (j: nat)
    requires |s| == |t| && i < |s| && t[i] < s[i]
    ensures j < |s| && t[j] < s[j] && (j > 0 ==> s[j - 1] <= t[j - 1])
  {
    if i > 0 && t[i - 1] < s[i - 1] {
      j := RunDown(s, t, i - 1);
    } else {
      j := i;
    }
  }

  /** x stands strictly between the entries of s next to the j-th: before it, or behind it. */
  predicate Between(s: seq<nat>, j: nat, x: nat)
    requires j < |s|
  {
    || (s[j] < x && (j + 1 < |s| ==> x < s[j + 1]))
    || (x < s[j] && (j > 0 ==> s[j - 1] < x))
  }

  lemma Displaced(s: seq<nat>, t: seq<nat>) returns (j: nat)
    requires |s| == |t| && s != t && Increasing(s) && Increasing(t)
    ensures j < |s| && Between(s, j, t[j]) && t[j] !in s
  {
    var i :| 0 <= i < |s| && s[i] != t[i];
    if s[i] < t[i] {
      j := RunUp(s, t, i);
    } else {
      j := RunDown(s, t, i);
    }
    forall k | 0 <= k < |s| ensures s[k] != t[j] {
    }
  }

  lemma {:induction false} Locate(sql: string, out: string, off: seq<nat>, p: nat, k: nat) returns (i: nat)
    requires Laid(sql, out, off) && k <= |sql| && p < off[k]
    ensures i < k && off[i] <= p < off[i + 1]
    decreases k
  {
    assert LaidAt(sql, out, off, k - 1);
    if off[k - 1] <= p {
      i := k - 1;
    } else {
      i := Locate(sql, out, off, p, k - 1);
    }
  }

  /** An image that does not start with a colon is a plain character. */
  lemma PlainHere(sql: string, out: string, off: seq<nat>, k: nat)
    requires Placed(sql, |sql|, out, off) && k <= |sql| && off[k] < |out| && out[off[k]] != ':'
    ensures k < |sql| && !IsMarker(sql, k) && off[k + 1] == off[k] + 1 && sql[k] == out[off[k]]
  {
    assert ImageAt(sql, out, off, k);
    if IsMarker(sql, k) {
      MarkerImage(sql, out, off, k);
      assert false;
    }
    PlainImage(sql, out, off, k);
  }

  /** A stretch without colons, from a place where a plain character's image starts, is the template's own. */
  lemma {:induction false} OwnStretch(sql: string, out: string, off: seq<nat>, p: nat, k: nat)
    requires Placed(sql, |sql|, out, off) && p <= |sql| && off[p] + k <= |out|
    requires forall t | off[p] <= t < off[p] + k :: out[t] != ':'
    ensures p + k <= |sql| && off[p + k] == off[p] + k && sql[p..p + k] == out[off[p]..off[p] + k]
  {
    if k > 0 {
      OwnStretch(sql, out, off, p, k - 1);
      PlainHere(sql, out, off, p + k - 1);
      assert sql[p..p + k] == sql[p..p + k - 1] + [sql[p + k - 1]];
      assert out[off[p]..off[p] + k] == out[off[p]..off[p] + k - 1] + [out[off[p] + k - 1]];
    }
  }

  lemma OffsetListed(sql: string, off: seq<nat>, p: nat)
    requires |off| == |sql| + 1 && p < |sql| && IsMarker(sql, p)
    ensures off[p] in MarkerOffsets(sql, off)
  {
    PlaceOf(sql, p);
    assert MarkerOffsets(sql, off)[MarkersBefore(sql, p)] == off[p];
  }

  /** A colon inside an image that is a marker is the marker's first character. */
  lemma ColonStartsMarker(sql: string, out: string, off: seq<nat>, x: nat, p: nat)
    requires Placed(sql, |sql|, out, off) && p < |sql| && off[p] <= x < off[p + 1] <= |out| && out[x] == ':'
    ensures IsMarker(sql, p) ==> x in MarkerOffsets(sql, off)
  {
    if IsMarker(sql, p) {
      assert ImageAt(sql, out, off, p);
      MarkerImage(sql, out, off, p);
      OffsetListed(sql, off, p);
    }
  }

  /** A plain character whose image is a colon, in front of more of the template's own text. */
  lemma OwnName(sql: string, out: string, off: seq<nat>, p: nat, k: nat)
    requires Placed(sql, |sql|, out, off) && p < |sql| && !IsMarker(sql, p) && off[p] + 1 + k <= |out|
    requires forall t | off[p] < t < off[p] + 1 + k :: out[t] != ':'
    ensures p + 1 + k <= |sql| && sql[p..p + 1 + k] == out[off[p]..off[p] + 1 + k]
  {
    assert ImageAt(sql, out, off, p);
    PlainImage(sql, out, off, p);
    OwnStretch(sql, out, off, p + 1, k);
    assert sql[p..p + 1 + k] == [sql[p]] + sql[p + 1..p + 1 + k];
    assert out[off[p]..off[p] + 1 + k] == [out[off[p]]] + out[off[p] + 1..off[p] + 1 + k];
  }

  /** Where a character other than a marker's is placed. */
  lemma PlainAt(sql: string, out: string, off: seq<nat>, x: nat) returns (p: nat)
    requires Placed(sql, |sql|, out, off) && x < |out| && out[x] == ':' && StateAt(out, x) == None
    requires x !in MarkerOffsets(sql, off)
    ensures p < |sql| && off[p] == x && !IsMarker(sql, p) && StateAt(sql, p) == None
  {
    PlacedIsLaid(sql, out, off);
    p := Locate(sql, out, off, x, |sql|);
    assert ImageAt(sql, out, off, p);
    ColonStartsMarker(sql, out, off, x, p);
    PlainImage(sql, out, off, p);
    StateTracks(sql, out, off, p);
  }

  /** A marker's name in the rewriting, where no marker starts, is the template's own text. */
  lemma NameIsOwn(sql: string, out: string, off: seq<nat>, x: nat, j: nat) returns (p: nat)
    requires Placed(sql, |sql|, out, off) && x !in MarkerOffsets(sql, off)
    requires x + |Marker(j)| <= |out| && out[x..x + |Marker(j)|] == Marker(j) && StateAt(out, x) == None
    ensures p + |Marker(j)| <= |sql| && off[p] == x
    ensures sql[p..p + |Marker(j)|] == Marker(j) && StateAt(sql, p) == None
  {
    MarkerText(j);
    var name := Marker(j);
    forall t | x <= t < x + |name| ensures out[t] == name[t - x] {
      assert out[x..x + |name|][t - x] == out[t];
    }
    p := PlainAt(sql, out, off, x);
    OwnName(sql, out, off, p, |name| - 1);
  }

  lemma CountBehind(sql: string, out: string, off: seq<nat>, q: nat, p: nat)
    requires Laid(sql, out, off) && q < |sql| && IsMarker(sql, q) && p <= |sql| && off[q] < off[p]
    ensures MarkersBefore(sql, q) < MarkersBefore(sql, p)
  {
    Before(sql, out, off, q, p);
    MarkersGrow(sql, q + 1, p);
  }

  lemma CountAhead(sql: string, out: string, off: seq<nat>, p: nat, q: nat)
    requires Laid(sql, out, off) && q <= |sql| && p <= |sql| && off[p] < off[q]
    ensures MarkersBefore(sql, p) <= MarkersBefore(sql, q)
  {
    Before(sql, out, off, p, q);
    MarkersGrow(sql, p, q);
  }

  /** How many markers precede a place that lies between the neighbours of the j-th. */
  lemma CountBetween(sql: string, out: string, off: seq<nat>, j: nat, p: nat)
    requires Laid(sql, out, off) && j < MarkersBefore(sql, |sql|) && p < |sql|
    requires Between(MarkerOffsets(sql, off), j, off[p])
    ensures MarkersBefore(sql, p) == j || MarkersBefore(sql, p) == j + 1
  {
    var q := PlaceAt(sql, j);
    if off[q] < off[p] {
      CountBehind(sql, out, off, q, p);
      MarkersGrow(sql, p, |sql|);
      if j + 1 < MarkersBefore(sql, |sql|) {
        var next := PlaceAt(sql, j + 1);
        CountAhead(sql, out, off, p, next);
      }
    } else {
      CountAhead(sql, out, off, p, q);
      if j > 0 {
        var before := PlaceAt(sql, j - 1);
        CountBehind(sql, out, off, before, p);
      }
    }
  }

  lemma Before(sql: string, out: string, off: seq<nat>, p: nat, q: nat)
    requires Laid(sql, out, off) && p <= |sql| && q <= |sql| && off[p] < off[q]
    ensures p < q
  {
    if q <= p {
      LaidClimb(sql, out, off, q, p);
    }
  }

  lemma SameMarker(a: string, offA: seq<nat>, b: string, offB: seq<nat>, out: string, p: nat)
    requires Laid(a, out, offA) && Laid(b, out, offB) && p < |a| && p < |b| && offA[p] == offB[p]
    requires MarkerOffsets(a, offA) == MarkerOffsets(b, offB)
    ensures IsMarker(a, p) ==> IsMarker(b, p)
  {
    if IsMarker(a, p) {
      PlaceOf(a, p);
      var i := MarkersBefore(a, p);
      var q := PlaceAt(b, i);
      assert MarkerOffsets(a, offA)[i] == offA[p] && MarkerOffsets(b, offB)[i] == offB[q];
      if q < p {
        LaidClimb(b, out, offB, q, p);
      } else if p < q {
        LaidClimb(b, out, offB, p, q);
      }
    }
  }

  lemma {:induction false} SamePrefix(a: string, offA: seq<nat>, b: string, offB: seq<nat>, out: string, k: nat)
    requires Placed(a, |a|, out, offA) && Placed(b, |b|, out, offB) && k <= |a| && k <= |b|
    requires Laid(a, out, offA) && Laid(b, out, offB)
    requires MarkerOffsets(a, offA) == MarkerOffsets(b, offB)
    ensures a[..k] == b[..k] && offA[k] == offB[k] && MarkersBefore(a, k) == MarkersBefore(b, k)
    decreases k
  {
    if k > 0 {
      var p := k - 1;
      SamePrefix(a, offA, b, offB, out, p);
      SameMarker(a, offA, b, offB, out, p);
      SameMarker(b, offB, a, offA, out, p);
      assert ImageAt(a, out, offA, p) && ImageAt(b, out, offB, p);
      if IsMarker(a, p) {
        MarkerImage(a, out, offA, p);
        MarkerImage(b, out, offB, p);
      } else {
        PlainImage(a, out, offA, p);
        PlainImage(b, out, offB, p);
      }
      assert a[..k] == a[..p] + [a[p]] && b[..k] == b[..p] + [b[p]];
    }
  }

  /** The rewriting and the places of the markers in it determine the template. */
  lemma OffsetsDetermine(a: string, offA: seq<nat>, b: string, offB: seq<nat>, out: string)
    requires Placed(a, |a|, out, offA) && Placed(b, |b|, out, offB)
    requires MarkerOffsets(a, offA) == MarkerOffsets(b, offB)
    ensures a == b
  {
    PlacedIsLaid(a, out, offA);
    PlacedIsLaid(b, out, offB);
    var n := if |a| <= |b| then |a| else |b|;
    SamePrefix(a, offA, b, offB, out, n);
    LaidClimb(a, out, offA, n, |a|);
    LaidClimb(b, out, offB, n, |b|);
    assert a[..|a|] == a && b[..|b|] == b;
  }

  /** A template that spells no name of its own `?` in their places shares its rewriting with no other. */
  lemma RewritingUndone(a: string, offA: seq<nat>, b: string, offB: seq<nat>, out: string)
    requires Placed(a, |a|, out, offA) && Placed(b, |b|, out, offB)
    requires MarkersBefore(a, |a|) == MarkersBefore(b, |b|) && !OwnsMarker(a)
    ensures a == b
  {
    var s, t := MarkerOffsets(a, offA), MarkerOffsets(b, offB);
    if s == t {
      OffsetsDetermine(a, offA, b, offB, out);
    } else {
      PlacedIsLaid(a, out, offA);
      PlacedIsLaid(b, out, offB);
      OffsetsIncrease(a, out, offA);
      OffsetsIncrease(b, out, offB);
      var j := Displaced(s, t);
      MarkerStands(b, out, offB, j);
      var p := NameIsOwn(a, out, offA, t[j], j);
      CountBetween(a, out, offA, j, p);
      assert OwnMarkerAt(a, j, p);
      assert false;
    }
  }

  // ---- exchanging a `?` with a text that spells its name ------------------------------------

  lemma {:induction false} SamePast(a: string, b: string, k: nat)
    requires k <= |a| && k <= |b| && a[..k] == b[..k]
    ensures StateAt(a, k) == StateAt(b, k) && MarkersBefore(a, k) == MarkersBefore(b, k)
    ensures forall p | 0 <= p < k :: IsMarker(a, p) == IsMarker(b, p)
  {
    if k > 0 {
      assert a[..k][..k - 1] == a[..k - 1] && b[..k][..k - 1] == b[..k - 1];
      SamePast(a, b, k - 1);
      assert a[..k][k - 1] == b[..k][k - 1];
    }
  }

  /** Two texts that agree from k and l on, in the same state and with as many markers before, are
      rewritten alike from there on. */
  lemma {:induction false} SameFuture(a: string, k: nat, offA: seq<nat>, b: string, l: nat, offB: seq<nat>, out: string)
    requires k <= |a| && l <= |b| && a[k..] == b[l..]
    requires Placed(a, k, out, offA) && Placed(b, l, out, offB)
    requires StateAt(a, k) == StateAt(b, l) && MarkersBefore(a, k) == MarkersBefore(b, l)
    ensures RewrittenAlike(a, b)
    decreases |a| - k
  {
    assert |a[k..]| == |b[l..]|;
    if k < |a| {
      assert a[k] == a[k..][0] == b[l..][0] == b[l];
      assert a[k + 1..] == a[k..][1..] == b[l + 1..];
      if IsMarker(a, k) {
        var image := Marker(MarkersBefore(a, k));
        PlacedMarker(a, k, out, offA);
        PlacedMarker(b, l, out, offB);
        SameFuture(a, k + 1, offA + [|out| + |image|], b, l + 1, offB + [|out| + |image|], out + image);
      } else {
        var offA2 := PlacedPlain(a, k, k + 1, out, offA);
        var offB2 := PlacedPlain(b, l, l + 1, out, offB);
        assert a[k..k + 1] == b[l..l + 1];
        SameFuture(a, k + 1, offA2, b, l + 1, offB2, out + a[k..k + 1]);
      }
    }
  }

  lemma {:induction false} Rewriting(sql: string, k: nat) returns (out: string, off: seq<nat>)
    requires k <= |sql|
    ensures Placed(sql, k, out, off)
  {
    if k == 0 {
      out, off := "", [0];
    } else {
      out, off := Rewriting(sql, k - 1);
      if IsMarker(sql, k - 1) {
        PlacedMarker(sql, k - 1, out, off);
        var image := Marker(MarkersBefore(sql, k - 1));
        out, off := out + image, off + [|out| + |image|];
      } else {
        var off2 := PlacedPlain(sql, k - 1, k, out, off);
        out, off := out + sql[k - 1..k], off2;
      }
    }
  }

  lemma PlacedHere(a: string, b: string, k: nat, out: string, off: seq<nat>)
    requires k <= |a| && k <= |b| && a[..k] == b[..k] && Placed(a, k, out, off)
    ensures Placed(b, k, out, off)
  {
    SamePast(a, b, k);
    forall p | 0 <= p < k ensures ImageAt(b, out, off, p) {
      assert ImageAt(a, out, off, p);
      assert a[..p] == a[..k][..p] == b[..k][..p] == b[..p];
      SamePast(a, b, p);
      assert a[p] == a[..k][p] == b[p];
    }
  }

  /** A stretch read from outside every literal depends on itself only. */
  lemma {:induction false} StretchAlone(sql: string, lo: nat, text: string, k: nat)
    requires lo + |text| <= |sql| && sql[lo..lo + |text|] == text && StateAt(sql, lo) == None && k <= |text|
    ensures StateAt(sql, lo + k) == StateAt(text, k)
    ensures forall p | 0 <= p < k :: IsMarker(sql, lo + p) == IsMarker(text, p)
  {
    if k > 0 {
      StretchAlone(sql, lo, text, k - 1);
      assert sql[lo..lo + |text|][k - 1] == sql[lo + k - 1];
    }
  }

  lemma NameAlone(j: nat)
    ensures StateAt(Marker(j), |Marker(j)|) == None && forall p | 0 <= p < |Marker(j)| :: !IsMarker(Marker(j), p)
  {
    MarkerText(j);
    OutsideFrom(Marker(j), 0, |Marker(j)|);
    DigitsAreDigits(j);
  }

  /** Plain text after an even place: it is placed as it stands. */
  lemma Stretch(sql: string, lo: nat, text: string, out: string, off: seq<nat>) returns (off2: seq<nat>)
    requires lo + |text| <= |sql| && sql[lo..lo + |text|] == text && StateAt(sql, lo) == None
    requires forall p | 0 <= p < |text| :: !IsMarker(text, p)
    requires Placed(sql, lo, out, off)
    ensures Placed(sql, lo + |text|, out + text, off2)
    ensures StateAt(sql, lo + |text|) == StateAt(text, |text|) && MarkersBefore(sql, lo + |text|) == MarkersBefore(sql, lo)
  {
    StretchAlone(sql, lo, text, |text|);
    forall p | lo <= p < lo + |text| ensures !IsMarker(sql, p) {
      assert IsMarker(sql, lo + (p - lo)) == IsMarker(text, p - lo);
    }
    NoMarkers(sql, lo, lo + |text|);
    off2 := PlacedPlain(sql, lo, lo + |text|, out, off);
  }

  /** A `?` outside the literals becomes its name. */
  lemma Question(sql: string, k: nat, out: string, off: seq<nat>) returns (off2: seq<nat>)
    requires k < |sql| && sql[k] == '?' && StateAt(sql, k) == None && Placed(sql, k, out, off)
    ensures Placed(sql, k + 1, out + Marker(MarkersBefore(sql, k)), off2)
    ensures StateAt(sql, k + 1) == None && MarkersBefore(sql, k + 1) == MarkersBefore(sql, k) + 1
  {
    PlacedMarker(sql, k, out, off);
    off2 := off + [|out| + |Marker(MarkersBefore(sql, k))|];
  }

  predicate Exchangeable(left: string, middle: string) {
    && StateAt(left, |left|) == None && StateAt(middle, |middle|) == None
    && forall p | 0 <= p < |middle| :: !IsMarker(middle, p)
  }

  function QuestionFirst(left: string, middle: string, right: string): string {
    left + "?" + middle + Marker(MarkersBefore(left, |left|)) + right
  }

  function QuestionLast(left: string, middle: string, right: string): string {
    left + Marker(MarkersBefore(left, |left|)) + middle + "?" + right
  }

  lemma Parts(t: string, left: string, p1: string, p2: string, p3: string, right: string)
    requires t == left + p1 + p2 + p3 + right
    ensures
      var k1, k2 := |left| + |p1|, |left| + |p1| + |p2|;
      && k2 + |p3| <= |t| && t[..|left|] == left
      && t[|left|..k1] == p1 && t[k1..k2] == p2 && t[k2..k2 + |p3|] == p3 && t[k2 + |p3|..] == right
  {
  }

  /** The part of the first text up to the exchange's end. */
  lemma FirstPlaced(left: string, middle: string, right: string, outL: string, offL: seq<nat>) returns (off: seq<nat>)
    requires Exchangeable(left, middle) && Placed(left, |left|, outL, offL)
    ensures
      var a, j := QuestionFirst(left, middle, right), MarkersBefore(left, |left|);
      var k := |left| + 1 + |middle| + |Marker(j)|;
      && a[k..] == right && Placed(a, k, outL + Marker(j) + middle + Marker(j), off)
      && StateAt(a, k) == None && MarkersBefore(a, k) == j + 1
  {
    var a, j := QuestionFirst(left, middle, right), MarkersBefore(left, |left|);
    Parts(a, left, "?", middle, Marker(j), right);
    assert left[..|left|] == left && a[|left|] == a[|left|..|left| + 1][0];
    PlacedHere(left, a, |left|, outL, offL);
    SamePast(left, a, |left|);
    var off1 := Question(a, |left|, outL, offL);
    var lo := |left| + 1;
    var off2 := Stretch(a, lo, middle, outL + Marker(j), off1);
    var lo2 := lo + |middle|;
    NameAlone(j);
    off := Stretch(a, lo2, Marker(j), outL + Marker(j) + middle, off2);
  }

  lemma LastPlaced(left: string, middle: string, right: string, outL: string, offL: seq<nat>) returns (off: seq<nat>)
    requires Exchangeable(left, middle) && Placed(left, |left|, outL, offL)
    ensures
      var b, j := QuestionLast(left, middle, right), MarkersBefore(left, |left|);
      var k := |left| + |Marker(j)| + |middle| + 1;
      && b[k..] == right && Placed(b, k, outL + Marker(j) + middle + Marker(j), off)
      && StateAt(b, k) == None && MarkersBefore(b, k) == j + 1
  {
    var b, j := QuestionLast(left, middle, right), MarkersBefore(left, |left|);
    Parts(b, left, Marker(j), middle, "?", right);
    assert left[..|left|] == left;
    PlacedHere(left, b, |left|, outL, offL);
    SamePast(left, b, |left|);
    NameAlone(j);
    var off1 := Stretch(b, |left|, Marker(j), outL, offL);
    var lo := |left| + |Marker(j)|;
    var off2 := Stretch(b, lo, middle, outL + Marker(j), off1);
    assert b[lo + |middle|] == b[lo + |middle|..lo + |middle| + 1][0];
    off := Question(b, lo + |middle|, outL + Marker(j) + middle, off2);
  }

  /** A `?` and a text that spells its name can change places without changing the rewriting. */
  lemma Exchange(left: string, middle: string, right: string)
    requires Exchangeable(left, middle)
    ensures RewrittenAlike(QuestionFirst(left, middle, right), QuestionLast(left, middle, right))
    ensures QuestionFirst(left, middle, right) != QuestionLast(left, middle, right)
  {
    var a, b, j := QuestionFirst(left, middle, right), QuestionLast(left, middle, right), MarkersBefore(left, |left|);
    MarkerText(j);
    assert a[|left|] == '?' && b[|left|] == Marker(j)[0];
    var outL, offL := Rewriting(left, |left|);
    var offA := FirstPlaced(left, middle, right, outL, offL);
    var offB := LastPlaced(left, middle, right, outL, offL);
    SameFuture(a, |left| + 1 + |middle| + |Marker(j)|, offA, b, |left| + |Marker(j)| + |middle| + 1, offB,
               outL + Marker(j) + middle + Marker(j));
  }

  lemma AlikeSymmetric(a: string, b: string)
    requires RewrittenAlike(a, b)
    ensures RewrittenAlike(b, a)
  {
    var out, offA, offB :| Placed(a, |a|, out, offA) && Placed(b, |b|, out, offB);
    assert Placed(b, |b|, out, offB) && Placed(a, |a|, out, offA);
  }

  /** The stretch of own text between two places that no `?` separates. */
  lemma MiddleFits(sql: string, lo: nat, hi: nat)
    requires lo <= hi <= |sql| && StateAt(sql, lo) == None && StateAt(sql, hi) == None
    requires MarkersBefore(sql, lo) == MarkersBefore(sql, hi)
    ensures Exchangeable("", sql[lo..hi])
  {
    var middle := sql[lo..hi];
    StretchAlone(sql, lo, middle, |middle|);
    forall p | 0 <= p < |middle| ensures !IsMarker(middle, p) {
      assert IsMarker(sql, lo + p) == IsMarker(middle, p);
      NoneBetween(sql, lo, lo + p, hi);
    }
  }

  lemma NoneBetween(sql: string, lo: nat, q: nat, hi: nat)
    requires lo <= q < hi <= |sql| && MarkersBefore(sql, lo) == MarkersBefore(sql, hi)
    ensures !IsMarker(sql, q)
  {
    MarkersGrow(sql, lo, q);
    MarkersGrow(sql, q + 1, hi);
  }

  lemma NameInPlace(a: string, p: nat, j: nat)
    requires p + |Marker(j)| <= |a| && a[p..p + |Marker(j)|] == Marker(j) && StateAt(a, p) == None
    ensures StateAt(a, p + |Marker(j)|) == None && MarkersBefore(a, p + |Marker(j)|) == MarkersBefore(a, p)
    ensures forall q | p <= q < p + |Marker(j)| :: !IsMarker(a, q)
  {
    var end := p + |Marker(j)|;
    StretchAlone(a, p, Marker(j), |Marker(j)|);
    NameAlone(j);
    forall q | p <= q < end ensures !IsMarker(a, q) {
      assert IsMarker(a, p + (q - p)) == IsMarker(Marker(j), q - p);
    }
    NoMarkers(a, p, end);
  }

  /** Text that spells the name of the `?` before it or behind it can be exchanged with it. */
  lemma OwnMarkerClashes(a: string, j: nat, p: nat) returns (b: string)
    requires OwnMarkerAt(a, j, p)
    ensures b != a && RewrittenAlike(a, b)
  {
    NameInPlace(a, p, j);
    var m := PlaceAt(a, j);
    if MarkersBefore(a, p) == j + 1 {
      if p <= m {
        MarkersGrow(a, p, m);
      }
      b := QuestionMovesBack(a, j, m, p);
    } else {
      if m < p {
        MarkersGrow(a, m + 1, p);
      }
      b := QuestionMovesUp(a, j, p, m);
    }
  }

  lemma QuestionMovesBack(a: string, j: nat, m: nat, p: nat) returns (b: string)
    requires m < p && p + |Marker(j)| <= |a| && IsMarker(a, m) && MarkersBefore(a, m) == j
    requires a[p..p + |Marker(j)|] == Marker(j) && StateAt(a, p) == None && MarkersBefore(a, p) == j + 1
    ensures b != a && RewrittenAlike(a, b)
  {
    var left, middle, right := a[..m], a[m + 1..p], a[p + |Marker(j)|..];
    SamePast(a, left, m);
    MiddleFits(a, m + 1, p);
    assert a == QuestionFirst(left, middle, right);
    Exchange(left, middle, right);
    b := QuestionLast(left, middle, right);
  }

  lemma QuestionMovesUp(a: string, j: nat, p: nat, m: nat) returns (b: string)
    requires p + |Marker(j)| <= m < |a| && IsMarker(a, m) && MarkersBefore(a, m) == j
    requires a[p..p + |Marker(j)|] == Marker(j) && StateAt(a, p) == None && MarkersBefore(a, p) == j
    requires StateAt(a, p + |Marker(j)|) == None && MarkersBefore(a, p + |Marker(j)|) == j
    ensures b != a && RewrittenAlike(a, b)
  {
    var left, middle, right := a[..p], a[p + |Marker(j)|..m], a[m + 1..];
    SamePast(a, left, p);
    MiddleFits(a, p + |Marker(j)|, m);
    assert a == QuestionLast(left, middle, right);
    Exchange(left, middle, right);
    b := QuestionFirst(left, middle, right);
    AlikeSymmetric(b, a);
  }

  /** A template shares its rewriting with another one of as many `?` exactly if its own text spells the
      name of one of its `?` somewhere between the two next to it. */
  lemma SharedExactlyIfOwned(a: string)
    ensures (exists b :: b != a && RewrittenAlike(a, b)) <==> OwnsMarker(a)
  {
    if OwnsMarker(a) {
      var j, p :| OwnMarkerAt(a, j, p);
      var b := OwnMarkerClashes(a, j, p);
    } else {
      forall b | RewrittenAlike(a, b) ensures b == a {
        var out, offA, offB :| Placed(a, |a|, out, offA) && Placed(b, |b|, out, offB);
        RewritingUndone(a, offA, b, offB, out);
      }
    }
  }

  /** Two templates can be rewritten alike: one whose own text spells the first name in front of its
      only `?` is an instance. */
  lemma RewritingsClash() returns (b: string)
    ensures b != ":synp0 ?" && RewrittenAlike(":synp0 ?", b)
  {
    var a := ":synp0 ?";
    assert Digits(0) == "0" && Marker(0) == ":synp0" && a[0..6] == ":synp0";
    OutsideFrom(a, 0, 8);
    NoMarkers(a, 0, 7);
    assert IsMarker(a, 7) && MarkersBefore(a, 8) == 1;
    b := OwnMarkerClashes(a, 0, 0);
  }
}
