/** Literals that pack several parameters: grouping the placeholder specs by literal, and splitting a
    bound literal on its constant text. */
module SplitLiteral {
  import opened Wrappers
  import opened SqlTree

  /** One engine parameter and its type: the constant text right before and after it in its literal, and the id of
      that literal if it packs several parameters (-1 otherwise). */
  datatype Spec = Spec(name: string, typ: string, prefix: string, suffix: string, group: int)

  // ---- groups ------------------------------------------------------------------------

  function Flat<T>(groups: seq<seq<T>>): seq<T> {
    if groups == [] then [] else Flat(groups[..|groups| - 1]) + groups[|groups| - 1]
  }

  /** s belongs to the same literal as first. */
  predicate Joins(first: Spec, s: Spec) {
    s.group >= 0 && first.group == s.group
  }

  predicate OneLiteral(group: seq<Spec>) {
    group != [] && forall k | 0 < k < |group| :: Joins(group[0], group[k])
  }

  /** Group g could not be taken in by the group before it. */
  predicate StartsAnew(groups: seq<seq<Spec>>, g: nat)
    requires 0 < g < |groups|
  {
    groups[g - 1] != [] && groups[g] != [] && !Joins(groups[g - 1][0], groups[g][0])
  }

  /** Every group is one literal, and no group could take in the first spec of the next. */
  predicate Grouped(groups: seq<seq<Spec>>) {
    && (forall g | 0 <= g < |groups| :: OneLiteral(groups[g]))
    && (forall g | 0 < g < |groups| :: StartsAnew(groups, g))
  }

  lemma GroupedFront(groups: seq<seq<Spec>>, n: nat)
    requires Grouped(groups) && n <= |groups|
    ensures Grouped(groups[..n])
  {
    forall g | 0 < g < n ensures StartsAnew(groups[..n], g) {
      assert StartsAnew(groups, g);
    }
  }

  lemma GroupedExtended(groups: seq<seq<Spec>>, last: nat, s: Spec)
    requires Grouped(groups) && last + 1 == |groups| && Joins(groups[last][0], s)
    ensures Grouped(groups[last := groups[last] + [s]])
  {
    var more := groups[last := groups[last] + [s]];
    forall g | 0 < g < |more| ensures StartsAnew(more, g) {
      assert StartsAnew(groups, g);
    }
  }

  lemma GroupedSnoc(groups: seq<seq<Spec>>, s: Spec)
    requires Grouped(groups) && (groups != [] ==> !Joins(groups[|groups| - 1][0], s))
    ensures Grouped(groups + [[s]])
  {
    var more := groups + [[s]];
    forall g | 0 < g < |more| ensures StartsAnew(more, g) {
      if g < |groups| {
        assert StartsAnew(groups, g);
      }
    }
  }

  lemma FlatSnoc(groups: seq<seq<Spec>>, s: Spec)
    ensures Flat(groups + [[s]]) == Flat(groups) + [s]
  {
    assert (groups + [[s]])[..|groups|] == groups;
  }

  lemma FlatExtended(groups: seq<seq<Spec>>, last: nat, s: Spec)
    requires last + 1 == |groups|
    ensures Flat(groups[last := groups[last] + [s]]) == Flat(groups) + [s]
  {
    var more := groups[last := groups[last] + [s]];
    assert more[..last] == groups[..last];
    assert Flat(more) == Flat(groups[..last]) + (groups[last] + [s]);
  }

  method BindingGroups(specs: seq<Spec>) returns (groups: seq<seq<Spec>>)
    ensures Flat(groups) == specs && Grouped(groups)
  {
    groups := [];
    for k := 0 to |specs|
      invariant Flat(groups) == specs[..k] && Grouped(groups)
    {
      var s := specs[k];
      assert specs[..k + 1] == specs[..k] + [s];
      var last := |groups| - 1;
      if s.group >= 0 && groups != [] && groups[last][0].group == s.group {
        FlatExtended(groups, last, s);
        GroupedExtended(groups, last, s);
        groups := groups[last := groups[last] + [s]];
      } else {
        FlatSnoc(groups, s);
        GroupedSnoc(groups, s);
        groups := groups + [[s]];
      }
    }
    assert specs[..|specs|] == specs;
  }

  lemma LastGroupsEnd(a: seq<seq<Spec>>)
    requires a != []
    ensures var x := a[|a| - 1]; |x| <= |Flat(a)| && Flat(a)[|Flat(a)| - |x|..] == x
    ensures Flat(a)[..|Flat(a)| - |a[|a| - 1]|] == Flat(a[..|a| - 1])
  {
  }

  /** A literal that reaches back over the start of x joins x to the literal before it. */
  lemma OverlapJoins(all: seq<Spec>, w: seq<Spec>, x: seq<Spec>, y: seq<Spec>)
    requires OneLiteral(w) && OneLiteral(x) && OneLiteral(y) && |x| < |y| <= |all| && |w| + |x| <= |all|
    requires all[|all| - |x|..] == x && all[|all| - |y|..] == y
    requires all[..|all| - |x|][|all| - |x| - |w|..] == w
    ensures Joins(w[0], x[0])
  {
    var k := |y| - |x|;
    assert y[k] == x[0];
    assert w[|w| - 1] == all[|all| - |x| - 1] == y[k - 1];
    assert Joins(y[0], y[k]);
  }

  lemma LastNotShorter(a: seq<seq<Spec>>, b: seq<seq<Spec>>)
    requires Grouped(a) && Grouped(b) && Flat(a) == Flat(b) && a != [] && b != []
    ensures |a[|a| - 1]| >= |b[|b| - 1]|
  {
    var all, x, y := Flat(a), a[|a| - 1], b[|b| - 1];
    LastGroupsEnd(a);
    LastGroupsEnd(b);
    if |x| < |y| {
      var front := a[..|a| - 1];
      assert |Flat(front)| == |all| - |x| > 0;
      LastGroupsEnd(front);
      assert StartsAnew(a, |a| - 1);
      OverlapJoins(all, a[|a| - 2], x, y);
      assert false;
    }
  }

  /** The grouping is determined: nothing else splits the specs into maximal literals. */
  lemma {:induction false} GroupingDetermined(a: seq<seq<Spec>>, b: seq<seq<Spec>>)
    requires Grouped(a) && Grouped(b) && Flat(a) == Flat(b)
    ensures a == b
    decreases |a|
  {
    if a != [] && b != [] {
      LastGroupsEnd(a);
      LastGroupsEnd(b);
      LastNotShorter(a, b);
      LastNotShorter(b, a);
      var m, n := |a| - 1, |b| - 1;
      GroupedFront(a, m);
      GroupedFront(b, n);
      GroupingDetermined(a[..m], b[..n]);
      assert a == a[..m] + [a[m]] && b == b[..n] + [b[n]];
    } else if a != [] {
      LastGroupsEnd(a);
    } else if b != [] {
      LastGroupsEnd(b);
    }
  }

  /** Specs share a literal exactly if they follow one another under one nonnegative number; a spec without
      one stands alone. */
  lemma GroupsMean(groups: seq<seq<Spec>>)
    requires Grouped(groups)
    ensures forall g, j, k | 0 <= g < |groups| && 0 <= j < |groups[g]| && 0 <= k < |groups[g]| :: groups[g][j].group == groups[g][k].group
    ensures forall g, j | 0 <= g < |groups| && 0 <= j < |groups[g]| && |groups[g]| > 1 :: groups[g][j].group >= 0
    ensures forall g: nat | 0 < g < |groups| && StartsAnew(groups, g) ::
      groups[g - 1] != [] && groups[g] != [] && (groups[g][0].group < 0 || groups[g - 1][0].group != groups[g][0].group)
  {
    forall g, j | 0 <= g < |groups| && 0 <= j < |groups[g]|
      ensures groups[g][j].group == groups[g][0].group && (|groups[g]| > 1 ==> groups[g][j].group >= 0)
    {
      assert OneLiteral(groups[g]);
      if |groups[g]| > 1 {
        assert Joins(groups[g][0], groups[g][1]);
      }
    }
  }

  // ---- splitting one literal ----------------------------------------------------------

  predicate IsWildcard(c: char) {
    c == '%' || c == '_'
  }

  predicate WildcardFree(s: string) {
    forall k | 0 <= k < |s| :: !IsWildcard(s[k])
  }

  predicate AllWildcardFree(cores: seq<string>) {
    forall k | 0 <= k < |cores| :: WildcardFree(cores[k])
  }

  /** v is the constants with the cores between them. */
  predicate Assembles(consts: seq<string>, cores: seq<string>, v: string)
    requires |consts| == |cores| + 1
    decreases |cores|
  {
    if cores == [] then v == consts[0]
    else
      && consts[0] <= v
      && var rest := v[|consts[0]|..];
      && cores[0] <= rest
      && Assembles(consts[1..], cores[1..], rest[|cores[0]|..])
  }

  function WildcardFreePrefix(s: string): (n: nat)
    ensures n <= |s| && WildcardFree(s[..n]) && (n < |s| ==> IsWildcard(s[n]))
  {
    if s == "" || IsWildcard(s[0]) then 0
    else
      var n := WildcardFreePrefix(s[1..]);
      assert s[..1 + n] == [s[0]] + s[1..][..n];
      1 + n
  }

  /** The anchored regular expression: constants verbatim, each core as long as backtracking allows. */
  function Search(consts: seq<string>, v: string): Option<seq<string>>
    requires consts != []
    decreases |consts|, 0
  {
    if !(consts[0] <= v) then None
    else
      var rest := v[|consts[0]|..];
      if |consts| == 1 then (if rest == "" then Some([]) else None)
      else Backtrack(consts, rest, WildcardFreePrefix(rest))
  }

  function Backtrack(consts: seq<string>, rest: string, n: nat): Option<seq<string>>
    requires |consts| > 1 && n <= |rest|
    decreases |consts| - 1, n + 1
  {
    match Search(consts[1..], rest[n..])
    case Some(cores) => Some([rest[..n]] + cores)
    case None => if n == 0 then None else Backtrack(consts, rest, n - 1)
  }

  lemma AssemblesCons(consts: seq<string>, cores: seq<string>, v: string, core: string)
    requires |consts| == |cores| + 2 && consts[0] <= v && core <= v[|consts[0]|..]
    requires Assembles(consts[1..], cores, v[|consts[0]|..][|core|..])
    ensures Assembles(consts, [core] + cores, v)
  {
    assert ([core] + cores)[1..] == cores;
  }

  /** What the search returns reassembles to the literal, with wildcard-free cores. */
  lemma {:induction false} SearchSound(consts: seq<string>, v: string)
    requires consts != [] && Search(consts, v).Some?
    ensures
      var cores := Search(consts, v).value;
      |cores| == |consts| - 1 && AllWildcardFree(cores) && Assembles(consts, cores, v)
    decreases |consts|, 0
  {
    if |consts| > 1 {
      var rest := v[|consts[0]|..];
      BacktrackSound(consts, v, WildcardFreePrefix(rest));
    }
  }

  lemma {:induction false} BacktrackSound(consts: seq<string>, v: string, n: nat)
    requires |consts| > 1 && consts[0] <= v
    requires n <= |v| - |consts[0]| && WildcardFree(v[|consts[0]|..][..n])
    requires Backtrack(consts, v[|consts[0]|..], n).Some?
    ensures
      var cores := Backtrack(consts, v[|consts[0]|..], n).value;
      |cores| == |consts| - 1 && AllWildcardFree(cores) && Assembles(consts, cores, v)
    decreases |consts| - 1, n + 1
  {
    var rest := v[|consts[0]|..];
    match Search(consts[1..], rest[n..])
    case Some(cores) =>
      SearchSound(consts[1..], rest[n..]);
      AssemblesCons(consts, cores, v, rest[..n]);
    case None =>
      assert rest[..n - 1] == rest[..n][..n - 1];
      BacktrackSound(consts, v, n - 1);
  }

  /** The search finds a split whenever there is one. */
  lemma {:induction false} SearchComplete(consts: seq<string>, cores: seq<string>, v: string)
    requires |consts| == |cores| + 1 && AllWildcardFree(cores) && Assembles(consts, cores, v)
    ensures Search(consts, v).Some?
    decreases |consts|, 0
  {
    if cores != [] {
      var rest := v[|consts[0]|..];
      var n := |cores[0]|;
      assert forall k | 0 <= k < n :: rest[k] == cores[0][k];
      assert n <= WildcardFreePrefix(rest);
      SearchComplete(consts[1..], cores[1..], rest[n..]);
      BacktrackFinds(consts, rest, WildcardFreePrefix(rest), n);
    }
  }

  lemma {:induction false} BacktrackFinds(consts: seq<string>, rest: string, from: nat, n: nat)
    requires |consts| > 1 && n <= from <= |rest| && Search(consts[1..], rest[n..]).Some?
    ensures Backtrack(consts, rest, from).Some?
    decreases from
  {
    if n < from {
      BacktrackFinds(consts, rest, from - 1, n);
    }
  }

  /** The cores hold neither wildcard of LIKE. */
  predicate Wordlike(cores: seq<string>) {
    forall k, i | 0 <= k < |cores| && 0 <= i < |cores[k]| :: cores[k][i] != '%' && cores[k][i] != '_'
  }

  lemma WordlikeMeans(cores: seq<string>)
    ensures Wordlike(cores) <==> AllWildcardFree(cores)
  {
  }

  /** A value splits exactly if it is the constants around some cores without wildcards. */
  lemma SearchExactly(consts: seq<string>, v: string)
    requires consts != []
    ensures Search(consts, v).Some? <==>
      exists cores: seq<string> | |cores| == |consts| - 1 :: Wordlike(cores) && Assembles(consts, cores, v)
  {
    if Search(consts, v).Some? {
      SearchSound(consts, v);
      WordlikeMeans(Search(consts, v).value);
    }
    if cores: seq<string> :| |cores| == |consts| - 1 && Wordlike(cores) && Assembles(consts, cores, v) {
      WordlikeMeans(cores);
      SearchComplete(consts, cores, v);
    }
  }

  /** At the first core on which they differ, a's is the longer. */
  predicate Longer(a: seq<string>, b: seq<string>) {
    |a| == |b| && (a == b || (a != [] && (|a[0]| > |b[0]| || (a[0] == b[0] && Longer(a[1..], b[1..])))))
  }

  lemma {:induction false} BacktrackLongest(consts: seq<string>, rest: string, from: nat, n: nat) returns (m: nat)
    requires |consts| > 1 && n <= from <= |rest| && Search(consts[1..], rest[n..]).Some?
    ensures n <= m <= from && Search(consts[1..], rest[m..]).Some?
    ensures Backtrack(consts, rest, from) == Some([rest[..m]] + Search(consts[1..], rest[m..]).value)
    decreases from
  {
    m := from;
    if Search(consts[1..], rest[from..]).None? {
      m := BacktrackLongest(consts, rest, from - 1, n);
    }
  }

  lemma LongerCons(core: string, a: seq<string>, b: seq<string>)
    requires |b| == |a| + 1 && (|core| > |b[0]| || (core == b[0] && Longer(a, b[1..])))
    ensures Longer([core] + a, b)
  {
    assert ([core] + a)[1..] == a;
    if core == b[0] && a == b[1..] {
      assert b == [b[0]] + b[1..];
    }
  }

  lemma FirstCoreFits(consts: seq<string>, b: seq<string>, v: string)
    requires |consts| == |b| + 1 > 1 && AllWildcardFree(b) && Assembles(consts, b, v)
    ensures
      var rest := v[|consts[0]|..];
      && |b[0]| <= WildcardFreePrefix(rest) && rest[..|b[0]|] == b[0]
      && Assembles(consts[1..], b[1..], rest[|b[0]|..])
      && Search(consts, v) == Backtrack(consts, rest, WildcardFreePrefix(rest))
  {
    var rest := v[|consts[0]|..];
    assert forall k | 0 <= k < |b[0]| :: rest[k] == b[0][k];
  }

  /** Of all splits the search gives the one with the longest first core, then the longest second one, and
      so on. */
  lemma {:induction false} SearchLongest(consts: seq<string>, b: seq<string>, v: string)
    requires |consts| == |b| + 1 && AllWildcardFree(b) && Assembles(consts, b, v)
    ensures Search(consts, v).Some? && Longer(Search(consts, v).value, b)
    decreases |b|
  {
    if b != [] {
      var rest, n := v[|consts[0]|..], |b[0]|;
      FirstCoreFits(consts, b, v);
      SearchLongest(consts[1..], b[1..], rest[n..]);
      var m := BacktrackLongest(consts, rest, WildcardFreePrefix(rest), n);
      SearchSound(consts[1..], rest[m..]);
      LongerCons(rest[..m], Search(consts[1..], rest[m..]).value, b);
    }
  }

  // ---- when the split is unambiguous ---------------------------------------------------

  /** Every delimiter between two parameters holds a wildcard. */
  predicate DelimitersWild(consts: seq<string>) {
    forall k | 0 < k < |consts| - 1 :: !WildcardFree(consts[k])
  }

  /** A wildcard of a shorter split's delimiter would fall on wildcard-free text of the longer. */
  lemma NotShorter(delimiter: string, a: string, b: string, rest: string, w: nat)
    requires w < |delimiter| && IsWildcard(delimiter[w]) && WildcardFree(delimiter[..w]) && WildcardFree(b)
    requires a <= rest && b <= rest && delimiter <= rest[|a|..] && delimiter <= rest[|b|..]
    ensures |a| >= |b|
  {
    assert rest[|a|..][w] == rest[|a| + w];
    assert forall q | 0 <= q < |b| :: rest[q] == b[q];
    assert forall q | |b| <= q < |b| + |delimiter| :: rest[q] == delimiter[q - |b|];
    assert forall k | 0 <= k < w :: delimiter[k] == delimiter[..w][k];
  }

  /** Where two splits put the first delimiter, if it holds a wildcard. */
  lemma FirstCoreDetermined(delimiter: string, a: string, b: string, rest: string)
    requires !WildcardFree(delimiter) && WildcardFree(a) && WildcardFree(b)
    requires a <= rest && b <= rest && delimiter <= rest[|a|..] && delimiter <= rest[|b|..]
    ensures a == b
  {
    var w := WildcardFreePrefix(delimiter);
    assert w < |delimiter| by {
      assert delimiter[..|delimiter|] == delimiter;
    }
    NotShorter(delimiter, a, b, rest, w);
    NotShorter(delimiter, b, a, rest, w);
  }

  lemma DelimiterFollows(consts: seq<string>, cores: seq<string>, v: string)
    requires |consts| == |cores| + 1 && Assembles(consts, cores, v)
    ensures consts[0] <= v
  {
  }

  lemma PrefixIs(p: string, s: string)
    requires p <= s
    ensures p == s[..|p|]
  {
  }

  /** What an assembled literal starts with, told of the text after the first constant. */
  lemma AssembledStart(consts: seq<string>, cores: seq<string>, v: string)
    requires |consts| == |cores| + 1 && cores != [] && Assembles(consts, cores, v)
    ensures consts[0] <= v && cores[0] <= v[|consts[0]|..]
    ensures consts[1] <= v[|consts[0]|..][|cores[0]|..]
    ensures |cores| == 1 ==> v[|consts[0]|..][|cores[0]|..] == consts[1]
  {
    DelimiterFollows(consts[1..], cores[1..], v[|consts[0]|..][|cores[0]|..]);
  }

  /** The last core is what its constant leaves. */
  lemma LastCoreDetermined(delimiter: string, a: string, b: string, rest: string)
    requires a <= rest && b <= rest && rest[|a|..] == delimiter == rest[|b|..]
    ensures a == b
  {
    PrefixIs(a, rest);
    PrefixIs(b, rest);
  }

  lemma DelimitersWildTail(consts: seq<string>)
    requires consts != [] && DelimitersWild(consts)
    ensures DelimitersWild(consts[1..])
  {
    forall k | 0 < k < |consts[1..]| - 1 ensures !WildcardFree(consts[1..][k]) {
      assert consts[1..][k] == consts[k + 1];
    }
  }

  lemma {:induction false} WildSplitUnique(consts: seq<string>, a: seq<string>, b: seq<string>, v: string)
    requires |consts| == |a| + 1 == |b| + 1 && DelimitersWild(consts)
    requires AllWildcardFree(a) && AllWildcardFree(b) && Assembles(consts, a, v) && Assembles(consts, b, v)
    ensures a == b
    decreases |a|
  {
    if a != [] {
      var rest := v[|consts[0]|..];
      AssembledStart(consts, a, v);
      AssembledStart(consts, b, v);
      if |a| == 1 {
        LastCoreDetermined(consts[1], a[0], b[0], rest);
      } else {
        FirstCoreDetermined(consts[1], a[0], b[0], rest);
      }
      DelimitersWildTail(consts);
      WildSplitUnique(consts[1..], a[1..], b[1..], rest[|a[0]|..]);
      assert a == [a[0]] + a[1..] && b == [b[0]] + b[1..];
    }
  }

  /** With wildcards in every delimiter the search recovers any assembled parameters exactly. */
  lemma SplitUndoesAssembly(consts: seq<string>, cores: seq<string>, v: string)
    requires |consts| == |cores| + 1 && DelimitersWild(consts)
    requires AllWildcardFree(cores) && Assembles(consts, cores, v)
    ensures Search(consts, v) == Some(cores)
  {
    SearchComplete(consts, cores, v);
    SearchSound(consts, v);
    WildSplitUnique(consts, cores, Search(consts, v).value, v);
  }

  // ---- and when it is not ----------------------------------------------------------------

  lemma PutFront(consts: seq<string>, cores: seq<string>, v: string, core: string)
    requires |consts| == |cores| + 2 && Assembles(consts[1..], cores, v)
    ensures Assembles(consts, [core] + cores, consts[0] + core + v)
  {
    var all := consts[0] + core + v;
    assert all[|consts[0]|..] == core + v;
    assert (core + v)[|core|..] == v;
    AssemblesCons(consts, cores, all, core);
  }

  /** With all cores empty some value assembles. */
  lemma {:induction false} EmptyCores(consts: seq<string>) returns (cores: seq<string>, v: string)
    requires consts != []
    ensures |consts| == |cores| + 1 && AllWildcardFree(cores) && Assembles(consts, cores, v)
  {
    if |consts| == 1 {
      cores, v := [], consts[0];
    } else {
      cores, v := EmptyCores(consts[1..]);
      PutFront(consts, cores, v, "");
      cores, v := [""] + cores, consts[0] + "" + v;
    }
  }

  /** Text that can stand on either side of a wildcard-free delimiter. */
  function Sliding(d: string): (t: string)
    ensures t != "" && t + d == d + t
    ensures WildcardFree(d) ==> WildcardFree(t)
  {
    if d == "" then "a" else d
  }

  lemma Slid(c: string, d: string, t: string, rest: string)
    requires t + d == d + t
    ensures c + t + (d + "" + rest) == c + "" + (d + t + rest)
  {
    assert c + t + (d + "" + rest) == c + (t + d) + rest;
    assert c + "" + (d + t + rest) == c + (d + t) + rest;
  }

  lemma AmbiguousHere(consts: seq<string>) returns (a: seq<string>, b: seq<string>, v: string)
    requires |consts| > 2 && WildcardFree(consts[1])
    ensures |consts| == |a| + 1 == |b| + 1 && a != b && AllWildcardFree(a) && AllWildcardFree(b)
    ensures Assembles(consts, a, v) && Assembles(consts, b, v)
  {
    var c, d, tail := consts[0], consts[1], consts[1..];
    var t := Sliding(d);
    var cores, rest := EmptyCores(consts[2..]);
    assert tail[1..] == consts[2..];
    PutFront(tail, cores, rest, "");
    PutFront(tail, cores, rest, t);
    PutFront(consts, [""] + cores, d + "" + rest, t);
    PutFront(consts, [t] + cores, d + t + rest, "");
    Slid(c, d, t, rest);
    a, b, v := [t] + ([""] + cores), [""] + ([t] + cores), c + t + (d + "" + rest);
    assert a[0] != b[0];
  }

  /** Otherwise some value splits in two ways: the condition is exact. */
  lemma {:induction false} AmbiguousSplit(consts: seq<string>) returns (a: seq<string>, b: seq<string>, v: string)
    requires consts != [] && !DelimitersWild(consts)
    ensures |consts| == |a| + 1 == |b| + 1 && a != b && AllWildcardFree(a) && AllWildcardFree(b)
    ensures Assembles(consts, a, v) && Assembles(consts, b, v)
  {
    if WildcardFree(consts[1]) {
      a, b, v := AmbiguousHere(consts);
    } else {
      var tail := consts[1..];
      var k :| 0 < k < |consts| - 1 && WildcardFree(consts[k]);
      assert tail[k - 1] == consts[k];
      var a1, b1, v1 := AmbiguousSplit(tail);
      PutFront(consts, a1, v1, "");
      PutFront(consts, b1, v1, "");
      a, b, v := [""] + a1, [""] + b1, consts[0] + "" + v1;
      assert a[1..] == a1 && b[1..] == b1;
    }
  }

  // ---- the parameters a bound literal carries -------------------------------------------------

  predicate WholeLiteral(group: seq<Spec>) {
    |group| == 1 && group[0].prefix == "" && group[0].suffix == ""
  }

  /** The literal's constant text: before the first parameter and after each. */
  function Consts(group: seq<Spec>): (consts: seq<string>)
    requires group != []
    ensures |consts| == |group| + 1
  {
    [group[0].prefix] + seq(|group|, k requires 0 <= k < |group| => group[k].suffix)
  }

  /** parts gives each parameter of the group its core, and nothing else. */
  predicate Gives(group: seq<Spec>, cores: seq<string>, parts: map<string, Value>)
    requires |group| == |cores|
  {
    && (forall k | 0 <= k < |group| :: group[k].name in parts && parts[group[k].name] == One(Text(cores[k])))
    && (forall name | name in parts :: exists k | 0 <= k < |group| :: group[k].name == name)
  }

  /** The parameters that the value carries for the group. */
  predicate Carries(value: Value, group: seq<Spec>, parts: map<string, Value>)
    requires group != []
  {
    if WholeLiteral(group) then parts == map[group[0].name := value]
    else
      && value.IsText()
      && var found := Search(Consts(group), value.scalar.s);
      && found.Some? && |found.value| == |group| && Gives(group, found.value, parts)
  }

  /** The value carries the group's constants around wildcard-free cores, alike for a repeated name. */
  predicate Splits(value: Value, group: seq<Spec>, cores: seq<string>)
    requires group != [] && |cores| == |group|
  {
    value.IsText() && AllWildcardFree(cores) && Assembles(Consts(group), cores, value.scalar.s)
  }

  method SplitValue(value: Value, group: seq<Spec>) returns (out: Option<map<string, Value>>)
    requires group != []
    ensures out.Some? ==> Carries(value, group, out.value)
    ensures out.Some? && !WholeLiteral(group) ==>
      exists cores: seq<string> | |cores| == |group| :: Splits(value, group, cores) && Gives(group, cores, out.value)
    ensures out.None? ==> !WholeLiteral(group) && forall parts :: !Carries(value, group, parts)
  {
    if |group| == 1 && group[0].prefix == "" && group[0].suffix == "" {
      return Some(map[group[0].name := value]);
    }
    if !value.IsText() {
      return None;
    }
    var found := Search(Consts(group), value.scalar.s);
    if found.None? {
      return None;
    }
    SearchSound(Consts(group), value.scalar.s);
    var cores := found.value;
    var parts: map<string, Value> := map[];
    for k := 0 to |group|
      invariant Gives(group[..k], cores[..k], parts)
    {
      var name, core := group[k].name, One(Text(cores[k]));
      if name in parts && parts[name] != core {
        NothingGives(group, cores, k, parts);
        return None;
      }
      GivesMore(group, cores, k, parts);
      parts := parts[name := core];
    }
    assert group[..|group|] == group && cores[..|group|] == cores;
    assert Splits(value, group, cores);
    out := Some(parts);
  }

  lemma NothingGives(group: seq<Spec>, cores: seq<string>, k: nat, parts: map<string, Value>)
    requires |group| == |cores| && k < |group| && Gives(group[..k], cores[..k], parts)
    requires group[k].name in parts && parts[group[k].name] != One(Text(cores[k]))
    ensures forall other :: !Gives(group, cores, other)
  {
    var i :| 0 <= i < |group[..k]| && group[..k][i].name == group[k].name;
    assert group[i].name == group[k].name && cores[i] != cores[k];
  }

  lemma GivesMore(group: seq<Spec>, cores: seq<string>, k: nat, parts: map<string, Value>)
    requires |group| == |cores| && k < |group| && Gives(group[..k], cores[..k], parts)
    requires group[k].name in parts ==> parts[group[k].name] == One(Text(cores[k]))
    ensures Gives(group[..k + 1], cores[..k + 1], parts[group[k].name := One(Text(cores[k]))])
  {
    var more, g, c := parts[group[k].name := One(Text(cores[k]))], group[..k + 1], cores[..k + 1];
    assert g == group[..k] + [group[k]] && c == cores[..k] + [cores[k]];
    assert g[k].name == group[k].name;
    forall name | name in more ensures exists i | 0 <= i < |g| :: g[i].name == name {
      if name in parts {
        var i :| 0 <= i < k && group[..k][i].name == name;
        assert g[i].name == name;
      }
    }
  }

  /** A group's parameters are determined by the value. */
  lemma CarriedDetermined(value: Value, group: seq<Spec>, a: map<string, Value>, b: map<string, Value>)
    requires group != [] && Carries(value, group, a) && Carries(value, group, b)
    ensures a == b
  {
    if !WholeLiteral(group) {
      var cores := Search(Consts(group), value.scalar.s).value;
      forall name | name in a ensures name in b && b[name] == a[name] {
        var k :| 0 <= k < |group| && group[k].name == name;
      }
      forall name | name in b ensures name in a {
        var k :| 0 <= k < |group| && group[k].name == name;
      }
    }
  }

  // ---- merging the groups -----------------------------------------------------------------------

  predicate Clash(out: map<string, Value>, parts: map<string, Value>) {
    exists name | name in out && name in parts :: !LooseEq(out[name], parts[name])
  }

  /** The parts of all groups in turn, or nothing if a name recurs with a different value. */
  function Merged(parts: seq<map<string, Value>>): Option<map<string, Value>> {
    if parts == [] then Some(map[])
    else
      var last := parts[|parts| - 1];
      match Merged(parts[..|parts| - 1])
      case None => None
      case Some(out) => if Clash(out, last) then None else Some(out + last)
  }

  lemma {:induction false} MergedNone(parts: seq<map<string, Value>>, k: nat)
    requires k <= |parts| && Merged(parts[..k]) == None
    ensures Merged(parts) == None
    decreases |parts|
  {
    if k == |parts| {
      assert parts[..k] == parts;
    } else {
      assert parts[..|parts| - 1][..k] == parts[..k];
      MergedNone(parts[..|parts| - 1], k);
    }
  }

  /** Part g is the last that holds the name. */
  predicate LastWith(parts: seq<map<string, Value>>, name: string, g: nat) {
    g < |parts| && name in parts[g] && forall l | g < l < |parts| :: name !in parts[l]
  }

  /** Every name of the part has a value loosely equal to the last one before it, if there is one. */
  predicate JoinsOn(parts: seq<map<string, Value>>, part: map<string, Value>) {
    forall g, name | 0 <= g < |parts| && name in part && LastWith(parts, name, g) :: LooseEq(parts[g][name], part[name])
  }

  predicate Mergeable(parts: seq<map<string, Value>>) {
    forall k | 0 <= k < |parts| :: JoinsOn(parts[..k], parts[k])
  }

  lemma MergeableInit(parts: seq<map<string, Value>>)
    requires parts != []
    ensures var n := |parts| - 1; Mergeable(parts) <==> Mergeable(parts[..n]) && JoinsOn(parts[..n], parts[n])
  {
    var n := |parts| - 1;
    forall k | 0 <= k < n ensures parts[..n][..k] == parts[..k] && parts[..n][k] == parts[k] {
    }
  }

  /** What is merged holds every name of a part, with the value of the last part that has it. */
  lemma {:induction false} MergedHolds(parts: seq<map<string, Value>>, g: nat, name: string)
    requires Merged(parts).Some? && g < |parts| && name in parts[g]
    ensures name in Merged(parts).value && (LastWith(parts, name, g) ==> Merged(parts).value[name] == parts[g][name])
    decreases |parts|
  {
    var n := |parts| - 1;
    if g < n {
      MergedHolds(parts[..n], g, name);
      if LastWith(parts, name, g) {
        assert LastWith(parts[..n], name, g) && name !in parts[n];
      }
    }
  }

  /** And nothing else. */
  lemma {:induction false} MergedComesFrom(parts: seq<map<string, Value>>, name: string) returns (g: nat)
    requires Merged(parts).Some? && name in Merged(parts).value
    ensures LastWith(parts, name, g)
    decreases |parts|
  {
    var n := |parts| - 1;
    if name in parts[n] {
      g := n;
    } else {
      g := MergedComesFrom(parts[..n], name);
    }
  }

  lemma ClashExactly(parts: seq<map<string, Value>>, out: map<string, Value>, part: map<string, Value>)
    requires Merged(parts) == Some(out)
    ensures Clash(out, part) <==> !JoinsOn(parts, part)
  {
    forall g, name | 0 <= g < |parts| && LastWith(parts, name, g) ensures name in out && out[name] == parts[g][name] {
      MergedHolds(parts, g, name);
    }
    if Clash(out, part) {
      var name :| name in out && name in part && !LooseEq(out[name], part[name]);
      var g := MergedComesFrom(parts, name);
    }
  }

  /** The parts merge exactly if each name that recurs has a value loosely equal to the last one. */
  lemma {:induction false} MergedExactly(parts: seq<map<string, Value>>)
    ensures Merged(parts).Some? <==> Mergeable(parts)
    decreases |parts|
  {
    if parts != [] {
      var n := |parts| - 1;
      MergedExactly(parts[..n]);
      MergeableInit(parts);
      if Merged(parts[..n]).Some? {
        ClashExactly(parts[..n], Merged(parts[..n]).value, parts[n]);
      }
    }
  }

  /** Every group's value carries its part. */
  predicate AllCarry(groups: seq<seq<Spec>>, values: seq<Value>, parts: seq<map<string, Value>>)
    requires |groups| == |values| && forall g | 0 <= g < |groups| :: groups[g] != []
  {
    |parts| == |groups| && forall g | 0 <= g < |groups| :: Carries(values[g], groups[g], parts[g])
  }

  /** The names outside `rest` have been added. */
  predicate AddedExcept(before: map<string, Value>, found: map<string, Value>, rest: set<string>, merged: map<string, Value>) {
    && rest <= found.Keys && merged.Keys == before.Keys + (found.Keys - rest)
    && (forall name | name in merged :: merged[name] == if name in found && name !in rest then found[name] else before[name])
    && (forall name | name in found && name !in rest && name in before :: LooseEq(before[name], found[name]))
  }

  lemma AddOne(before: map<string, Value>, found: map<string, Value>, rest: set<string>, merged: map<string, Value>, name: string)
    requires AddedExcept(before, found, rest, merged) && name in rest
    requires name in merged ==> LooseEq(merged[name], found[name])
    ensures AddedExcept(before, found, rest - {name}, merged[name := found[name]])
  {
  }

  lemma AllAdded(before: map<string, Value>, found: map<string, Value>, merged: map<string, Value>)
    requires AddedExcept(before, found, {}, merged)
    ensures merged == before + found && !Clash(before, found)
  {
  }

  /** Adds one group's parts, unless a name is there with a different value. */
  method MergePart(before: map<string, Value>, found: map<string, Value>) returns (out: Option<map<string, Value>>)
    ensures out == if Clash(before, found) then None else Some(before + found)
  {
    var merged, rest := before, found.Keys;
    while rest != {}
      invariant AddedExcept(before, found, rest, merged)
      decreases |rest|
    {
      var name :| name in rest;
      if name in merged && !LooseEq(merged[name], found[name]) {
        assert name in before && merged[name] == before[name];
        return None;
      }
      AddOne(before, found, rest, merged, name);
      merged := merged[name := found[name]];
      rest := rest - {name};
    }
    AllAdded(before, found, merged);
    out := Some(merged);
  }

  method MergeSplit(groups: seq<seq<Spec>>, values: seq<Value>)
    returns (out: Option<map<string, Value>>, ghost parts: seq<map<string, Value>>)
    requires |groups| == |values| && forall g | 0 <= g < |groups| :: groups[g] != []
    ensures out.Some? ==> AllCarry(groups, values, parts) && Merged(parts) == out
    ensures out.None? ==> forall all :: AllCarry(groups, values, all) ==> Merged(all) == None
  {
    var merged: map<string, Value> := map[];
    parts := [];
    for g := 0 to |groups|
      invariant AllCarry(groups[..g], values[..g], parts)
      invariant Merged(parts) == Some(merged)
    {
      var part := SplitValue(values[g], groups[g]);
      if part.None? {
        NothingCarries(groups, values, g);
        return None, parts;
      }
      ghost var more := parts + [part.value];
      assert more[..g] == parts;
      var next := MergePart(merged, part.value);
      if next.None? {
        ClashForGood(groups, values, parts, part.value, g);
        return None, parts;
      }
      AllCarryMore(groups, values, parts, part.value, g);
      merged, parts := next.value, more;
    }
    assert groups[..|groups|] == groups && values[..|groups|] == values;
    out := Some(merged);
  }

  lemma NothingCarries(groups: seq<seq<Spec>>, values: seq<Value>, g: nat)
    requires |groups| == |values| && g < |groups| && forall k | 0 <= k < |groups| :: groups[k] != []
    requires forall part :: !Carries(values[g], groups[g], part)
    ensures forall all :: !AllCarry(groups, values, all)
  {
    forall all ensures !AllCarry(groups, values, all) {
      assert |all| == |groups| ==> !Carries(values[g], groups[g], all[g]);
    }
  }

  /** A clash among the first groups is never repaired by the others. */
  lemma ClashForGood(groups: seq<seq<Spec>>, values: seq<Value>, parts: seq<map<string, Value>>,
                     part: map<string, Value>, g: nat)
    requires |groups| == |values| && g < |groups| && forall k | 0 <= k < |groups| :: groups[k] != []
    requires AllCarry(groups[..g], values[..g], parts) && Carries(values[g], groups[g], part)
    requires Merged(parts + [part]) == None
    ensures forall all :: AllCarry(groups, values, all) ==> Merged(all) == None
  {
    forall all | AllCarry(groups, values, all) ensures Merged(all) == None {
      FirstParts(groups, values, parts, all, g);
      CarriedDetermined(values[g], groups[g], all[g], part);
      assert all[..g + 1] == parts + [part];
      MergedNone(all, g + 1);
    }
  }

  lemma AllCarryMore(groups: seq<seq<Spec>>, values: seq<Value>, parts: seq<map<string, Value>>,
                     part: map<string, Value>, g: nat)
    requires |groups| == |values| && g < |groups| && forall k | 0 <= k < |groups| :: groups[k] != []
    requires AllCarry(groups[..g], values[..g], parts) && Carries(values[g], groups[g], part)
    ensures AllCarry(groups[..g + 1], values[..g + 1], parts + [part])
  {
    var gs, vs, ps := groups[..g + 1], values[..g + 1], parts + [part];
    forall k | 0 <= k < |gs| ensures Carries(vs[k], gs[k], ps[k]) {
      if k < g {
        assert gs[k] == groups[..g][k] && vs[k] == values[..g][k];
      }
    }
  }

  lemma FirstParts(groups: seq<seq<Spec>>, values: seq<Value>, parts: seq<map<string, Value>>,
                   all: seq<map<string, Value>>, g: nat)
    requires |groups| == |values| && g <= |groups| && forall k | 0 <= k < |groups| :: groups[k] != []
    requires AllCarry(groups, values, all) && AllCarry(groups[..g], values[..g], parts)
    ensures all[..g] == parts
  {
    forall k | 0 <= k < g ensures all[k] == parts[k] {
      assert groups[..g][k] == groups[k] && values[..g][k] == values[k];
      CarriedDetermined(values[k], groups[k], all[k], parts[k]);
    }
  }
}
