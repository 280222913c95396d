/** Replacing the parameters of a template by typed NULLs, at the tokenizer's offsets, so that its
    output schema can be described without values. */
module Literalize {
  import opened Wrappers
  import opened SplitLiteral

  datatype Kind = QuestionMark | Dollar | Colon | Other

  /** A token and its offsets, inclusive on both ends. */
  datatype Token = Token(kind: Kind, start: nat, end: nat, text: string)

  datatype Splice = Splice(start: nat, end: nat, typ: string)

  const VARCHAR := "VARCHAR"

  predicate IsWordChar(c: char) {
    'a' <= c <= 'z' || 'A' <= c <= 'Z' || '0' <= c <= '9' || c == '_'
  }

  predicate IsWord(s: string) {
    s != "" && forall k | 0 <= k < |s| :: IsWordChar(s[k])
  }

  /** The declared types by name; the last declaration counts. */
  function ByName(specs: seq<Spec>): map<string, string> {
    if specs == [] then map[]
    else
      var n := |specs| - 1;
      ByName(specs[..n])[specs[n].name := specs[n].typ]
  }

  function TypeOr(byName: map<string, string>, name: string): string {
    if name in byName then byName[name] else VARCHAR
  }

  /** A literal that packs parameters is a text, whatever their types. */
  function GroupType(group: seq<Spec>): string {
    if WholeLiteral(group) then group[0].typ else VARCHAR
  }

  predicate Adjacent(toks: seq<Token>, i: nat)
    requires i < |toks|
  {
    i + 1 < |toks| && toks[i + 1].start == toks[i].end + 1
  }

  /** `$name`: the sign and a word right behind it. */
  predicate DollarParameter(toks: seq<Token>, i: nat)
    requires i < |toks|
  {
    toks[i].kind == Dollar && Adjacent(toks, i) && IsWord(toks[i + 1].text)
  }

  /** `:name`: the sign and a declared name right behind it. */
  predicate ColonParameter(toks: seq<Token>, byName: map<string, string>, i: nat)
    requires i < |toks|
  {
    toks[i].kind == Colon && Adjacent(toks, i) && toks[i + 1].text in byName
  }

  // ---- what is replaced by what ----------------------------------------------------------

  function QuestionsBefore(toks: seq<Token>, i: nat): nat
    requires i <= |toks|
  {
    if i == 0 then 0 else QuestionsBefore(toks, i - 1) + if toks[i - 1].kind == QuestionMark then 1 else 0
  }

  /** The parameter that starts at token i: the k-th `?` has the type of the k-th group, a named one
      the type of its name. */
  function SpliceAt(toks: seq<Token>, byName: map<string, string>, groups: seq<seq<Spec>>, i: nat): Option<Splice>
    requires i < |toks|
  {
    var tok := toks[i];
    if tok.kind == QuestionMark then
      var k := QuestionsBefore(toks, i);
      Some(Splice(tok.start, tok.end, if k < |groups| then GroupType(groups[k]) else VARCHAR))
    else if DollarParameter(toks, i) then
      Some(Splice(tok.start, toks[i + 1].end, TypeOr(byName, toks[i + 1].text)))
    else if ColonParameter(toks, byName, i) then
      Some(Splice(tok.start, toks[i + 1].end, TypeOr(byName, toks[i + 1].text)))
    else None
  }

  /** The parameters that start among the first n tokens, in order. */
  function Splices(toks: seq<Token>, byName: map<string, string>, groups: seq<seq<Spec>>, n: nat): seq<Splice>
    requires n <= |toks|
  {
    if n == 0 then []
    else
      Splices(toks, byName, groups, n - 1) +
      match SpliceAt(toks, byName, groups, n - 1) case Some(s) => [s] case None => []
  }

  /** A sign's text is the sign, and declared names are words. */
  predicate Sane(toks: seq<Token>, byName: map<string, string>) {
    && (forall i | 0 <= i < |toks| && toks[i].kind != Other :: !IsWord(toks[i].text))
    && (forall name | name in byName :: IsWord(name))
  }

  /** The name's token starts no parameter of its own. */
  lemma NameStartsNothing(toks: seq<Token>, byName: map<string, string>, groups: seq<seq<Spec>>, i: nat)
    requires Sane(toks, byName) && i < |toks| && (DollarParameter(toks, i) || ColonParameter(toks, byName, i))
    ensures i + 1 < |toks| && SpliceAt(toks, byName, groups, i + 1) == None
    ensures QuestionsBefore(toks, i + 2) == QuestionsBefore(toks, i)
    ensures Splices(toks, byName, groups, i + 2) == Splices(toks, byName, groups, i + 1)
  {
    assert toks[i + 1].kind == Other;
    assert toks[i].kind != QuestionMark;
  }

  lemma NamedSplice(toks: seq<Token>, byName: map<string, string>, groups: seq<seq<Spec>>, i: nat)
    requires Sane(toks, byName) && i < |toks| && (DollarParameter(toks, i) || ColonParameter(toks, byName, i))
    ensures i + 2 <= |toks| && QuestionsBefore(toks, i + 2) == QuestionsBefore(toks, i)
    ensures Splices(toks, byName, groups, i + 2) ==
      Splices(toks, byName, groups, i) + [Splice(toks[i].start, toks[i + 1].end, TypeOr(byName, toks[i + 1].text))]
  {
    NameStartsNothing(toks, byName, groups, i);
  }

  lemma NoSplice(toks: seq<Token>, byName: map<string, string>, groups: seq<seq<Spec>>, i: nat)
    requires i < |toks| && SpliceAt(toks, byName, groups, i) == None
    ensures QuestionsBefore(toks, i + 1) == QuestionsBefore(toks, i)
    ensures Splices(toks, byName, groups, i + 1) == Splices(toks, byName, groups, i)
  {
  }

  lemma QuestionSplice(toks: seq<Token>, byName: map<string, string>, groups: seq<seq<Spec>>, i: nat)
    requires i < |toks| && toks[i].kind == QuestionMark
    ensures QuestionsBefore(toks, i + 1) == QuestionsBefore(toks, i) + 1
    ensures
      var k := QuestionsBefore(toks, i);
      Splices(toks, byName, groups, i + 1) == Splices(toks, byName, groups, i) +
        [Splice(toks[i].start, toks[i].end, if k < |groups| then GroupType(groups[k]) else VARCHAR)]
  {
  }

  /** Walks the tokens and collects the parameters in textual order. */
  method Scan(toks: seq<Token>, byName: map<string, string>, groups: seq<seq<Spec>>) returns (splices: seq<Splice>)
    requires Sane(toks, byName)
    ensures splices == Splices(toks, byName, groups, |toks|)
  {
    splices := [];
    var anon, i := 0, 0;
    while i < |toks|
      invariant i <= |toks| && anon == QuestionsBefore(toks, i)
      invariant splices == Splices(toks, byName, groups, i)
    {
      var tok := toks[i];
      if tok.kind == QuestionMark {
        QuestionSplice(toks, byName, groups, i);
        var typ := if anon < |groups| then GroupType(groups[anon]) else VARCHAR;
        anon := anon + 1;
        splices := splices + [Splice(tok.start, tok.end, typ)];
      } else if DollarParameter(toks, i) {
        NamedSplice(toks, byName, groups, i);
        splices := splices + [Splice(tok.start, toks[i + 1].end, TypeOr(byName, toks[i + 1].text))];
        i := i + 1;
      } else if ColonParameter(toks, byName, i) {
        NamedSplice(toks, byName, groups, i);
        splices := splices + [Splice(tok.start, toks[i + 1].end, TypeOr(byName, toks[i + 1].text))];
        i := i + 1;
      } else {
        NoSplice(toks, byName, groups, i);
      }
      i := i + 1;
    }
  }

  // ---- splices are in order and apart ------------------------------------------------------

  /** Tokens follow one another inside the text. */
  predicate InText(toks: seq<Token>, length: nat) {
    && (forall i | 0 <= i < |toks| :: toks[i].start <= toks[i].end < length)
    && (forall i, k | 0 <= i < k < |toks| :: toks[i].end < toks[k].start)
  }

  predicate Apart(splices: seq<Splice>, length: nat) {
    && (forall k | 0 <= k < |splices| :: splices[k].start <= splices[k].end < length)
    && (forall i, k | 0 <= i < k < |splices| :: splices[i].end < splices[k].start)
  }

  predicate StartsNamed(toks: seq<Token>, byName: map<string, string>, i: nat)
    requires i < |toks|
  {
    DollarParameter(toks, i) || ColonParameter(toks, byName, i)
  }

  /** The end of the last token that the first n tokens' parameters can take in. */
  function ReachOf(toks: seq<Token>, byName: map<string, string>, n: nat): nat
    requires 0 < n <= |toks|
  {
    if n < |toks| && StartsNamed(toks, byName, n - 1) then toks[n].end else toks[n - 1].end
  }

  predicate Within(splices: seq<Splice>, reach: nat) {
    forall k | 0 <= k < |splices| :: splices[k].end <= reach
  }

  /** All splices end before an offset. */
  predicate EndBefore(splices: seq<Splice>, offset: nat) {
    forall k | 0 <= k < |splices| :: splices[k].end < offset
  }

  lemma ApartSnoc(splices: seq<Splice>, s: Splice, length: nat)
    requires Apart(splices, length) && s.start <= s.end < length && EndBefore(splices, s.start)
    ensures Apart(splices + [s], length)
  {
  }

  /** All parameters of the first n tokens lie within the tokens they can take in. */
  lemma {:induction false} SplicesWithin(toks: seq<Token>, byName: map<string, string>, groups: seq<seq<Spec>>, n: nat, length: nat)
    requires 0 < n <= |toks| && InText(toks, length)
    ensures Within(Splices(toks, byName, groups, n), ReachOf(toks, byName, n))
    decreases n
  {
    if n > 1 {
      SplicesWithin(toks, byName, groups, n - 1, length);
      assert ReachOf(toks, byName, n - 1) <= toks[n - 1].end <= ReachOf(toks, byName, n);
    } else {
      assert Splices(toks, byName, groups, 0) == [];
    }
  }

  /** They end before the next token that starts a parameter. */
  lemma EndsBefore(toks: seq<Token>, byName: map<string, string>, groups: seq<seq<Spec>>, n: nat, length: nat)
    requires n < |toks| && Sane(toks, byName) && InText(toks, length) && SpliceAt(toks, byName, groups, n).Some?
    ensures EndBefore(Splices(toks, byName, groups, n), toks[n].start)
  {
    if n > 0 {
      SplicesWithin(toks, byName, groups, n, length);
      NotBoth(toks, byName, groups, n - 1);
    }
  }

  lemma NotBoth(toks: seq<Token>, byName: map<string, string>, groups: seq<seq<Spec>>, i: nat)
    requires Sane(toks, byName) && i + 1 < |toks|
    ensures StartsNamed(toks, byName, i) ==> SpliceAt(toks, byName, groups, i + 1) == None
  {
    if StartsNamed(toks, byName, i) {
      NameStartsNothing(toks, byName, groups, i);
    }
  }

  lemma SpliceInText(toks: seq<Token>, byName: map<string, string>, groups: seq<seq<Spec>>, n: nat, length: nat)
    requires n < |toks| && InText(toks, length) && SpliceAt(toks, byName, groups, n).Some?
    ensures var s := SpliceAt(toks, byName, groups, n).value; s.start == toks[n].start <= s.end < length
  {
  }

  lemma ApartNext(toks: seq<Token>, byName: map<string, string>, groups: seq<seq<Spec>>, n: nat, length: nat)
    requires n < |toks| && Sane(toks, byName) && InText(toks, length)
    requires Apart(Splices(toks, byName, groups, n), length)
    ensures Apart(Splices(toks, byName, groups, n + 1), length)
  {
    var next := SpliceAt(toks, byName, groups, n);
    if next.Some? {
      EndsBefore(toks, byName, groups, n, length);
      SpliceInText(toks, byName, groups, n, length);
      ApartSnoc(Splices(toks, byName, groups, n), next.value, length);
    } else {
      NoSplice(toks, byName, groups, n);
    }
  }

  lemma {:induction false} SplicesApart(toks: seq<Token>, byName: map<string, string>, groups: seq<seq<Spec>>, n: nat, length: nat)
    requires n <= |toks| && Sane(toks, byName) && InText(toks, length)
    ensures Apart(Splices(toks, byName, groups, n), length)
    decreases n
  {
    if n > 0 {
      SplicesApart(toks, byName, groups, n - 1, length);
      ApartNext(toks, byName, groups, n - 1, length);
    }
  }

  // ---- which tokens are parameters ------------------------------------------------------------

  /** The next token stands right behind this one and has this text. */
  predicate RightBehind(toks: seq<Token>, i: nat, text: string) {
    i + 1 < |toks| && toks[i + 1].start == toks[i].end + 1 && toks[i + 1].text == text
  }

  /** Spec k is the last to declare the name. */
  predicate Declares(specs: seq<Spec>, k: nat, name: string) {
    k < |specs| && specs[k].name == name && forall l | k < l < |specs| :: specs[l].name != name
  }

  predicate IsDeclared(specs: seq<Spec>, name: string) {
    exists k | 0 <= k < |specs| :: Declares(specs, k, name)
  }

  lemma {:induction false} ByNameMeans(specs: seq<Spec>, name: string)
    ensures name in ByName(specs) <==> IsDeclared(specs, name)
    ensures forall k | 0 <= k < |specs| && Declares(specs, k, name) :: name in ByName(specs) && ByName(specs)[name] == specs[k].typ
    decreases |specs|
  {
    if specs != [] {
      var n := |specs| - 1;
      ByNameMeans(specs[..n], name);
      forall k | 0 <= k < n ensures Declares(specs, k, name) <==> Declares(specs[..n], k, name) && specs[n].name != name {
      }
      assert Declares(specs, n, name) <==> specs[n].name == name;
    }
  }

  function Questions(toks: seq<Token>, i: nat): set<nat>
    requires i <= |toks|
  {
    set j: nat | j < i && toks[j].kind == QuestionMark
  }

  lemma {:induction false} QuestionsCounted(toks: seq<Token>, i: nat)
    requires i <= |toks|
    ensures QuestionsBefore(toks, i) == |Questions(toks, i)|
  {
    if i > 0 {
      QuestionsCounted(toks, i - 1);
      assert Questions(toks, i) == Questions(toks, i - 1) + if toks[i - 1].kind == QuestionMark then {i - 1} else {};
    }
  }

  /** A parameter starts at a `?`, at a `$` with a word right behind it, or at a `:` with a declared name
      right behind it, and nowhere else. A `?` is given the type of its group, by the number of `?` before
      it, or VARCHAR if that literal packs parameters; a name the type it was last declared with. */
  lemma ParameterExactly(toks: seq<Token>, specs: seq<Spec>, groups: seq<seq<Spec>>, i: nat, word: string)
    requires i < |toks| && RightBehind(toks, i, word)
    ensures
      var found := SpliceAt(toks, ByName(specs), groups, i);
      && (found.Some? <==>
            || toks[i].kind == QuestionMark
            || (toks[i].kind == Colon && IsDeclared(specs, word))
            || (toks[i].kind == Dollar && word != "" && forall k | 0 <= k < |word| ::
                  'a' <= word[k] <= 'z' || 'A' <= word[k] <= 'Z' || '0' <= word[k] <= '9' || word[k] == '_'))
      && (found.Some? && toks[i].kind != QuestionMark ==>
            && found.value.start == toks[i].start && found.value.end == toks[i + 1].end
            && (forall k | 0 <= k < |specs| && Declares(specs, k, word) :: found.value.typ == specs[k].typ)
            && (!IsDeclared(specs, word) ==> found.value.typ == "VARCHAR"))
  {
    ByNameMeans(specs, word);
  }

  lemma LoneParameterExactly(toks: seq<Token>, specs: seq<Spec>, groups: seq<seq<Spec>>, i: nat)
    requires i < |toks|
    ensures SpliceAt(toks, ByName(specs), groups, i).Some? && toks[i].kind != QuestionMark ==>
      i + 1 < |toks| && toks[i + 1].start == toks[i].end + 1
    ensures toks[i].kind == QuestionMark ==>
      var k := |Questions(toks, i)|;
      SpliceAt(toks, ByName(specs), groups, i) ==
        Some(Splice(toks[i].start, toks[i].end,
                    if k < |groups| && |groups[k]| == 1 && groups[k][0].prefix == "" && groups[k][0].suffix == "" then groups[k][0].typ
                    else "VARCHAR"))
  {
    QuestionsCounted(toks, i);
  }

  /** The splices are the parameters of the tokens, one for each that starts one. */
  lemma {:induction false} SplicedExactly(toks: seq<Token>, byName: map<string, string>, groups: seq<seq<Spec>>, n: nat, s: Splice)
    requires n <= |toks|
    ensures s in Splices(toks, byName, groups, n) <==> exists i | 0 <= i < n :: SpliceAt(toks, byName, groups, i) == Some(s)
  {
    if n > 0 {
      SplicedExactly(toks, byName, groups, n - 1, s);
    }
  }

  // ---- splicing ------------------------------------------------------------------------------

  /** Where the text behind the first m splices starts. */
  function Behind(splices: seq<Splice>, m: nat): nat
    requires m <= |splices|
  {
    if m == 0 then 0 else splices[m - 1].end + 1
  }

  /** The typed NULL of a type, or plain NULL for a type that does not build. */
  function TypedNull(nulls: map<string, string>, typ: string): string {
    if typ in nulls then nulls[typ] else "NULL"
  }

  /** The text behind the first m splices with the other splices replaced, all at their offsets in the
      original text: simultaneous substitution. */
  function Substituted(text: string, splices: seq<Splice>, nulls: map<string, string>, m: nat): string
    requires Apart(splices, |text|) && m <= |splices|
    decreases |splices| - m
  {
    if m == |splices| then text[Behind(splices, m)..]
    else
      text[Behind(splices, m)..splices[m].start]
      + TypedNull(nulls, splices[m].typ)
      + Substituted(text, splices, nulls, m + 1)
  }

  lemma SpliceOne(text: string, lo: nat, start: nat, end: nat, typedNull: string, rest: string)
    requires lo <= start <= end < |text|
    ensures
      var spliced := text[..end + 1] + rest;
      spliced[..start] + typedNull + spliced[end + 1..] == text[..lo] + (text[lo..start] + typedNull + rest)
  {
    var spliced := text[..end + 1] + rest;
    assert spliced[..start] == text[..start] == text[..lo] + text[lo..start];
    assert spliced[end + 1..] == rest;
  }

  lemma NothingSpliced(text: string, splices: seq<Splice>, nulls: map<string, string>)
    requires Apart(splices, |text|)
    ensures
      var n: nat := |splices|;
      text == text[..Behind(splices, n)] + Substituted(text, splices, nulls, n)
  {
  }

  lemma AllSpliced(text: string, splices: seq<Splice>, nulls: map<string, string>)
    requires Apart(splices, |text|)
    ensures text[..Behind(splices, 0)] + Substituted(text, splices, nulls, 0) == Substituted(text, splices, nulls, 0)
  {
  }

  lemma SpliceStep(text: string, splices: seq<Splice>, nulls: map<string, string>, m: nat, spliced: string)
    requires Apart(splices, |text|) && m < |splices|
    requires spliced == text[..Behind(splices, m + 1)] + Substituted(text, splices, nulls, m + 1)
    ensures
      var s := splices[m];
      && s.end < |spliced|
      && spliced[..s.start] + TypedNull(nulls, s.typ) + spliced[s.end + 1..] ==
         text[..Behind(splices, m)] + Substituted(text, splices, nulls, m)
  {
    var s := splices[m];
    SpliceOne(text, Behind(splices, m), s.start, s.end, TypedNull(nulls, s.typ), Substituted(text, splices, nulls, m + 1));
  }

  /** Splices right to left, so that the offsets to the left stay valid. */
  method SpliceAll(text: string, splices: seq<Splice>, nulls: map<string, string>) returns (spliced: string)
    requires Apart(splices, |text|)
    ensures spliced == Substituted(text, splices, nulls, 0)
  {
    spliced := text;
    var m: nat := |splices|;
    NothingSpliced(text, splices, nulls);
    while m > 0
      invariant m <= |splices|
      invariant spliced == text[..Behind(splices, m)] + Substituted(text, splices, nulls, m)
    {
      m := m - 1;
      var s := splices[m];
      SpliceStep(text, splices, nulls, m, spliced);
      spliced := spliced[..s.start] + TypedNull(nulls, s.typ) + spliced[s.end + 1..];
    }
    AllSpliced(text, splices, nulls);
  }

  method Declared(specs: seq<Spec>) returns (byName: map<string, string>)
    ensures byName == ByName(specs)
  {
    byName := map[];
    for k := 0 to |specs|
      invariant byName == ByName(specs[..k])
    {
      assert specs[..k + 1][..k] == specs[..k];
      byName := byName[specs[k].name := specs[k].typ];
    }
    assert specs[..|specs|] == specs;
  }

  /** A template with its parameters replaced by typed NULLs, before it is parsed again. */
  method LiteralizeTemplate(text: string, toks: seq<Token>, specs: seq<Spec>, nulls: map<string, string>)
    returns (spliced: string, ghost groups: seq<seq<Spec>>)
    requires Sane(toks, ByName(specs)) && InText(toks, |text|)
    ensures Flat(groups) == specs && Grouped(groups)
    ensures Apart(Splices(toks, ByName(specs), groups, |toks|), |text|)
    ensures spliced == Substituted(text, Splices(toks, ByName(specs), groups, |toks|), nulls, 0)
  {
    var byName := Declared(specs);
    var gs := BindingGroups(specs);
    groups := gs;
    var splices := Scan(toks, byName, gs);
    SplicesApart(toks, byName, gs, |toks|, |text|);
    spliced := SpliceAll(text, splices, nulls);
  }

  // ---- what that leaves unchanged --------------------------------------------------------------

  function Shift(splices: seq<Splice>, nulls: map<string, string>, m: nat): int
    requires m <= |splices|
  {
    if m == 0 then 0
    else
      var s := splices[m - 1];
      Shift(splices, nulls, m - 1) + |TypedNull(nulls, s.typ)| - (s.end + 1 - s.start)
  }

  /** The text written for splice k: what stands before it, and its typed NULL. */
  function Front(text: string, splices: seq<Splice>, nulls: map<string, string>, k: nat): (front: string)
    requires Apart(splices, |text|) && k < |splices|
    ensures Substituted(text, splices, nulls, k) == front + Substituted(text, splices, nulls, k + 1)
    ensures |front| == Behind(splices, k + 1) - Behind(splices, k) + Shift(splices, nulls, k + 1) - Shift(splices, nulls, k)
  {
    text[Behind(splices, k)..splices[k].start] + TypedNull(nulls, splices[k].typ)
  }

  lemma InFront(text: string, splices: seq<Splice>, nulls: map<string, string>, k: nat, at: nat)
    requires Apart(splices, |text|) && k < |splices| && at < |Front(text, splices, nulls, k)|
    ensures at < |Substituted(text, splices, nulls, k)|
    ensures Substituted(text, splices, nulls, k)[at] == Front(text, splices, nulls, k)[at]
  {
    var front, rest := Front(text, splices, nulls, k), Substituted(text, splices, nulls, k + 1);
    assert (front + rest)[at] == front[at];
  }

  lemma FrontNull(text: string, splices: seq<Splice>, nulls: map<string, string>, k: nat, d: nat)
    requires Apart(splices, |text|) && k < |splices| && d < |TypedNull(nulls, splices[k].typ)|
    ensures
      var at := splices[k].start - Behind(splices, k) + d;
      0 <= at < |Front(text, splices, nulls, k)| && Front(text, splices, nulls, k)[at] == TypedNull(nulls, splices[k].typ)[d]
  {
  }

  /** Where offset p of the text behind m splices stands in the substitution behind k. */
  function Moved(splices: seq<Splice>, nulls: map<string, string>, m: nat, k: nat, p: nat): int
    requires m <= |splices| && k <= |splices|
  {
    p - Behind(splices, k) + Shift(splices, nulls, m) - Shift(splices, nulls, k)
  }

  /** The substitution behind the first k splices holds c at an offset. */
  predicate Stands(text: string, splices: seq<Splice>, nulls: map<string, string>, k: nat, at: int, c: char)
    requires Apart(splices, |text|) && k <= |splices|
  {
    var t := Substituted(text, splices, nulls, k);
    0 <= at < |t| && t[at] == c
  }

  function Lengths(fronts: seq<string>, k: nat, m: nat): nat
    requires k <= m <= |fronts|
    decreases m - k
  {
    if k == m then 0 else |fronts[k]| + Lengths(fronts, k + 1, m)
  }

  /** A text is its front and the next text. */
  predicate OnTop(texts: seq<string>, fronts: seq<string>, j: nat)
    requires j < |fronts| && |texts| == |fronts| + 1
  {
    texts[j] == fronts[j] + texts[j + 1]
  }

  /** Texts each of which is a front and the next: what stands in one stands, moved, in the earlier ones. */
  lemma {:induction false} StandsInEarlier(texts: seq<string>, fronts: seq<string>, m: nat, k: nat, at: nat)
    requires |texts| == |fronts| + 1 && k <= m <= |fronts| && at < |texts[m]|
    requires forall j | 0 <= j < |fronts| :: OnTop(texts, fronts, j)
    ensures at + Lengths(fronts, k, m) < |texts[k]| && texts[k][at + Lengths(fronts, k, m)] == texts[m][at]
    decreases m - k
  {
    if k < m {
      StandsInEarlier(texts, fronts, m, k + 1, at);
      assert OnTop(texts, fronts, k);
    }
  }

  function Fronts(text: string, splices: seq<Splice>, nulls: map<string, string>): (fronts: seq<string>)
    requires Apart(splices, |text|)
    ensures |fronts| == |splices| && forall k | 0 <= k < |splices| :: fronts[k] == Front(text, splices, nulls, k)
  {
    seq(|splices|, k requires 0 <= k < |splices| => Front(text, splices, nulls, k))
  }

  function Texts(text: string, splices: seq<Splice>, nulls: map<string, string>): (texts: seq<string>)
    requires Apart(splices, |text|)
    ensures |texts| == |splices| + 1 && forall k | 0 <= k <= |splices| :: texts[k] == Substituted(text, splices, nulls, k)
  {
    seq(|splices| + 1, k requires 0 <= k <= |splices| => Substituted(text, splices, nulls, k))
  }

  lemma TextsStack(text: string, splices: seq<Splice>, nulls: map<string, string>)
    requires Apart(splices, |text|)
    ensures
      var texts, fronts := Texts(text, splices, nulls), Fronts(text, splices, nulls);
      forall k | 0 <= k < |fronts| :: OnTop(texts, fronts, k)
  {
    var texts, fronts := Texts(text, splices, nulls), Fronts(text, splices, nulls);
    forall k | 0 <= k < |fronts| ensures OnTop(texts, fronts, k) {
      assert fronts[k] == Front(text, splices, nulls, k);
      assert texts[k] == Substituted(text, splices, nulls, k) && texts[k + 1] == Substituted(text, splices, nulls, k + 1);
    }
  }

  /** How much longer the text written for splice k is than what it stands for, told by offsets. */
  function Grown(splices: seq<Splice>, nulls: map<string, string>, k: nat): int
    requires k < |splices|
  {
    Behind(splices, k + 1) - Behind(splices, k) + Shift(splices, nulls, k + 1) - Shift(splices, nulls, k)
  }

  lemma {:induction false} LengthsAre(fronts: seq<string>, splices: seq<Splice>, nulls: map<string, string>, m: nat, k: nat)
    requires |fronts| == |splices| && k <= m <= |splices|
    requires forall l | 0 <= l < |fronts| :: |fronts[l]| == Grown(splices, nulls, l)
    ensures Lengths(fronts, k, m) == Moved(splices, nulls, m, k, Behind(splices, m))
    decreases m - k
  {
    if k < m {
      LengthsAre(fronts, splices, nulls, m, k + 1);
      assert |fronts[k]| == Grown(splices, nulls, k);
    }
  }

  lemma FrontLengths(text: string, splices: seq<Splice>, nulls: map<string, string>, m: nat, k: nat)
    requires Apart(splices, |text|) && k <= m <= |splices|
    ensures Lengths(Fronts(text, splices, nulls), k, m) == Moved(splices, nulls, m, k, Behind(splices, m))
  {
    LengthsAre(Fronts(text, splices, nulls), splices, nulls, m, k);
  }

  lemma TextIs(text: string, splices: seq<Splice>, nulls: map<string, string>, k: nat)
    requires Apart(splices, |text|) && k <= |splices|
    ensures Texts(text, splices, nulls)[k] == Substituted(text, splices, nulls, k)
  {
  }

  lemma TextsShare(text: string, splices: seq<Splice>, nulls: map<string, string>, m: nat, k: nat, at: nat)
    requires Apart(splices, |text|) && k <= m <= |splices| && at < |Texts(text, splices, nulls)[m]|
    ensures
      var there := at + Lengths(Fronts(text, splices, nulls), k, m);
      && there < |Texts(text, splices, nulls)[k]|
      && Texts(text, splices, nulls)[k][there] == Texts(text, splices, nulls)[m][at]
  {
    TextsStack(text, splices, nulls);
    StandsInEarlier(Texts(text, splices, nulls), Fronts(text, splices, nulls), m, k, at);
  }

  lemma SubstitutedShares(text: string, splices: seq<Splice>, nulls: map<string, string>, m: nat, k: nat, at: nat)
    requires Apart(splices, |text|) && k <= m <= |splices| && at < |Substituted(text, splices, nulls, m)|
    ensures
      var there := at + Lengths(Fronts(text, splices, nulls), k, m);
      && there < |Substituted(text, splices, nulls, k)|
      && Substituted(text, splices, nulls, k)[there] == Substituted(text, splices, nulls, m)[at]
  {
    TextIs(text, splices, nulls, m);
    TextIs(text, splices, nulls, k);
    TextsShare(text, splices, nulls, m, k, at);
  }

  /** What stands somewhere behind m splices stands, moved, behind fewer. */
  lemma StandsMoved(text: string, splices: seq<Splice>, nulls: map<string, string>, m: nat, k: nat, at: int, c: char)
    requires Apart(splices, |text|) && k <= m <= |splices| && Stands(text, splices, nulls, m, at, c)
    ensures Stands(text, splices, nulls, k, at + Moved(splices, nulls, m, k, Behind(splices, m)), c)
  {
    SubstitutedShares(text, splices, nulls, m, k, at);
    FrontLengths(text, splices, nulls, m, k);
  }

  lemma MovedTogether(splices: seq<Splice>, nulls: map<string, string>, m: nat, k: nat, p: nat, q: nat)
    requires m <= |splices| && k <= |splices|
    ensures Moved(splices, nulls, m, k, p) - Moved(splices, nulls, m, k, q) == p - q
  {
  }

  lemma OutsideHere(text: string, splices: seq<Splice>, nulls: map<string, string>, m: nat, p: nat)
    requires Apart(splices, |text|) && m <= |splices|
    requires Behind(splices, m) <= p < (if m < |splices| then splices[m].start else |text|)
    ensures Stands(text, splices, nulls, m, p - Behind(splices, m), text[p])
  {
    if m < |splices| {
      InFront(text, splices, nulls, m, p - Behind(splices, m));
    }
  }

  /** Every character outside the parameters is kept, shifted by what the splices before it changed. */
  lemma OutsideKept(text: string, splices: seq<Splice>, nulls: map<string, string>, m: nat, k: nat, p: nat)
    requires Apart(splices, |text|) && k <= m <= |splices|
    requires Behind(splices, m) <= p < (if m < |splices| then splices[m].start else |text|)
    ensures Stands(text, splices, nulls, k, Moved(splices, nulls, m, k, p), text[p])
  {
    var at := p - Behind(splices, m);
    OutsideHere(text, splices, nulls, m, p);
    StandsMoved(text, splices, nulls, m, k, at, text[p]);
    MovedTogether(splices, nulls, m, k, p, Behind(splices, m));
    assert Moved(splices, nulls, m, k, p) == at + Moved(splices, nulls, m, k, Behind(splices, m));
  }

  lemma NullHere(text: string, splices: seq<Splice>, nulls: map<string, string>, m: nat, d: nat)
    requires Apart(splices, |text|) && m < |splices| && d < |TypedNull(nulls, splices[m].typ)|
    ensures Stands(text, splices, nulls, m, splices[m].start - Behind(splices, m) + d, TypedNull(nulls, splices[m].typ)[d])
  {
    FrontNull(text, splices, nulls, m, d);
    InFront(text, splices, nulls, m, splices[m].start - Behind(splices, m) + d);
  }

  /** And every parameter has become the typed NULL of its type, in its place: character d of it. */
  lemma ParameterReplaced(text: string, splices: seq<Splice>, nulls: map<string, string>, m: nat, k: nat, d: nat)
    requires Apart(splices, |text|) && k <= m < |splices| && d < |TypedNull(nulls, splices[m].typ)|
    ensures Stands(text, splices, nulls, k, Moved(splices, nulls, m, k, splices[m].start) + d, TypedNull(nulls, splices[m].typ)[d])
  {
    NullHere(text, splices, nulls, m, d);
    StandsMoved(text, splices, nulls, m, k, splices[m].start - Behind(splices, m) + d, TypedNull(nulls, splices[m].typ)[d]);
  }
}
