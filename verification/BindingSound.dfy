/** Why a binding can be trusted: with equal structural keys every bound value is read from a constant,
    and filling the template with the values gives back the statement. */
module BindingSound {
  import opened Wrappers
  import opened SqlTree
  import opened Unify
  import Numerals

  /** No placeholder stands inside a type. */
  predicate TypesBare(n: Node) {
    match n
    case Paren(e) => TypesBare(e)
    case Neg(e) => TypesBare(e)
    case Cast(e, to) => TypesBare(e) && NoMarkers(to)
    case In(e, list) => TypesBare(e) && ListTypesBare(list)
    case Op(_, args) => forall k | 0 <= k < |args| :: TypesBare(args[k])
    case _ => true
  }

  predicate ListTypesBare(list: InList) {
    match list
    case Field(f) => TypesBare(f)
    case Members(ms) => forall k | 0 <= k < |ms| :: TypesBare(ms[k])
    case Subquery(q) => TypesBare(q)
  }

  /** A tree as the parser gives it for a statement without placeholders. */
  predicate Incoming(n: Node) {
    NoMarkers(n) && SignsApart(n)
  }

  predicate ListIncoming(list: InList) {
    ListNoMarkers(list) && ListSignsApart(list)
  }

  lemma OccurrencesPastParen(t: Node, i: Node)
    ensures Occurrences(t, Paren(i)) == Occurrences(t, i)
    decreases t
  {
    if t.Paren? {
      OccurrencesPastParen(t.e, i);
    }
  }

  // ---- a tree without markers binds nothing ------------------------------------------------

  lemma {:induction false} BareBindsNothing(t: Node, i: Node)
    requires NoMarkers(t)
    ensures Occurrences(t, i).Some? ==> Occurrences(t, i).value == []
    decreases t, i
  {
    if t.Paren? {
      BareBindsNothing(t.e, i);
    } else if i.Paren? {
      BareBindsNothing(t, i.e);
    } else {
      match t
      case Neg(e) =>
        if i.Neg? {
          BareBindsNothing(e, i.e);
        }
      case Cast(e, to) =>
        if i.Cast? {
          BareBindsNothing(e, i.e);
          BareBindsNothing(to, i.to);
        }
      case In(e, list) =>
        if i.In? {
          BareBindsNothing(e, i.e);
          BareListBindsNothing(list, i.list);
        }
      case Op(tag, args) =>
        if i.Op? && |i.args| == |args| {
          BareFirstBindNothing(args, i.args, |args|);
        }
      case _ =>
    }
  }

  lemma {:induction false} BareListBindsNothing(t: InList, i: InList)
    requires ListNoMarkers(t)
    ensures ListOccurrences(t, i).Some? ==> ListOccurrences(t, i).value == []
    decreases t, i
  {
    match (t, i)
    case (Field(f), Field(g)) => BareBindsNothing(f, g);
    case (Members(ms), Members(ns)) =>
      if |ms| == |ns| {
        BareFirstBindNothing(ms, ns, |ms|);
      }
    case (Subquery(q), Subquery(r)) => BareBindsNothing(q, r);
    case (_, _) =>
  }

  lemma {:induction false} BareFirstBindNothing(ts: seq<Node>, ns: seq<Node>, n: nat)
    requires n <= |ts| == |ns| && forall k | 0 <= k < |ts| :: NoMarkers(ts[k])
    ensures FirstOccurrences(ts, ns, n).Some? ==> FirstOccurrences(ts, ns, n).value == []
    decreases ts, ns, n
  {
    if n > 0 {
      BareFirstBindNothing(ts, ns, n - 1);
      BareBindsNothing(ts[n - 1], ns[n - 1]);
    }
  }

  // ---- equal keys bind constants only ---------------------------------------------------------

  predicate BindsConstants(occs: Option<seq<Occurrence>>) {
    occs.Some? ==> AllConstant(occs.value)
  }

  lemma HoleMeansConstant(i: Node)
    requires KeyOf(i) == HOLE && Incoming(i)
    ensures IncomingConstant(i)
  {
    assert Collapses(i);
  }

  /** With equal keys every value is read from a constant of the incoming statement. */
  lemma {:induction false} KeysBindConstants(t: Node, i: Node)
    requires KeyOf(t) == KeyOf(i) && Incoming(i) && TypesBare(t)
    ensures BindsConstants(Occurrences(t, i))
    decreases t, i
  {
    match t
    case Paren(e) =>
      assert i.Paren?;
      OccurrencesPastParen(e, i.e);
      KeysBindConstants(e, i.e);
    case Marker(name) => MarkerBindsConstant(t, name, i);
    case Parameter(name) => MarkerBindsConstant(t, name, i);
    case Neg(e) =>
      if i.Neg? {
        assert KeyOf(e) == KeyOf(i.e);
        KeysBindConstants(e, i.e);
      }
    case Cast(e, to) =>
      if i.Cast? {
        assert KeyOf(e) == KeyOf(i.e);
        KeysBindConstants(e, i.e);
        BareBindsNothing(to, i.to);
      }
    case In(e, list) =>
      KeysBindConstants(e, i.e);
      ListKeysBindConstants(list, i.list);
    case Op(tag, args) =>
      assert i.Op? && |i.args| == |args|;
      forall k | 0 <= k < |args| ensures KeyOf(args[k]) == KeyOf(i.args[k]) {
        assert KeyOf(t).args[k] == KeyOf(i).args[k];
      }
      FirstKeysBindConstants(args, i.args, |args|);
    case _ =>
      assert !i.Paren?;
  }

  lemma MarkerBindsConstant(t: Node, name: string, i: Node)
    requires t == Marker(name) || t == Parameter(name)
    requires KeyOf(t) == KeyOf(i) && Incoming(i)
    ensures BindsConstants(Occurrences(t, i))
  {
    HoleMeansConstant(i);
  }

  lemma {:induction false} ListKeysBindConstants(t: InList, i: InList)
    requires KeyOfList(t) == KeyOfList(i) && ListIncoming(i) && ListTypesBare(t)
    ensures BindsConstants(ListOccurrences(t, i))
    decreases t, i
  {
    match (t, i)
    case (Field(f), Members(ns)) =>
      if TakesList(t, i) {
        assert KeyOfList(t) == Members([HOLE]);
        forall k | 0 <= k < |ns| ensures IncomingConstant(ns[k]) {
          assert KeyOfList(i).members[0] == HOLE;
          HoleMeansConstant(ns[k]);
        }
      }
    case (Field(f), Field(g)) => KeysBindConstants(f, g);
    case (Members(ms), Members(ns)) =>
      if |ms| == |ns| {
        MemberKeys(ms, ns);
        FirstKeysBindConstants(ms, ns, |ms|);
      }
    case (Subquery(q), Subquery(r)) => KeysBindConstants(q, r);
    case (_, _) =>
  }

  lemma MemberKeys(ms: seq<Node>, ns: seq<Node>)
    requires KeyOfList(Members(ms)) == KeyOfList(Members(ns)) && |ms| == |ns|
    ensures forall k | 0 <= k < |ms| :: KeyOf(ms[k]) == KeyOf(ns[k])
  {
    var a, b := KeyOfList(Members(ms)).members, KeyOfList(Members(ns)).members;
    forall k | 0 <= k < |ms| ensures KeyOf(ms[k]) == KeyOf(ns[k]) {
      var all, alln := forall l | 0 <= l < |ms| :: Collapses(ms[l]), forall l | 0 <= l < |ns| :: Collapses(ns[l]);
      if !all && !alln {
        assert a[k] == b[k];
      } else if all && !alln {
        assert a == [HOLE] && b[0] == KeyOf(ns[0]);
      } else if alln && !all {
        assert b == [HOLE] && a[0] == KeyOf(ms[0]);
      }
    }
  }

  lemma {:induction false} FirstKeysBindConstants(ts: seq<Node>, ns: seq<Node>, n: nat)
    requires n <= |ts| == |ns| && forall k | 0 <= k < |ts| :: KeyOf(ts[k]) == KeyOf(ns[k])
    requires forall k | 0 <= k < |ts| :: Incoming(ns[k]) && TypesBare(ts[k])
    ensures BindsConstants(FirstOccurrences(ts, ns, n))
    decreases ts, ns, n
  {
    if n > 0 {
      FirstKeysBindConstants(ts, ns, n - 1);
      KeysBindConstants(ts[n - 1], ns[n - 1]);
    }
  }

  // ---- repeated names -----------------------------------------------------------------------------

  const EMPTY := Dict(map[], [])

  predicate RepeatsEqual(occs: seq<Occurrence>) {
    forall j, k | 0 <= j < k < |occs| && occs[j].name == occs[k].name :: occs[j].value == occs[k].value
  }

  /** Tolerant equality is equality between the values of a repeated name. */
  predicate RepeatsStrict(occs: seq<Occurrence>) {
    forall j, k | 0 <= j < k < |occs| && occs[j].name == occs[k].name ::
      LooseEq(occs[j].value, occs[k].value) ==> occs[j].value == occs[k].value
  }

  /** The dictionary holds each name met, with the value of its last occurrence. */
  lemma {:induction false} LastOccurrenceHeld(occs: seq<Occurrence>, k: nat)
    requires RecordedAll(EMPTY, occs).Some? && k < |occs|
    ensures
      var bound := RecordedAll(EMPTY, occs).value.entries;
      && occs[k].name in bound
      && ((forall j | k < j < |occs| :: occs[j].name != occs[k].name) ==> bound[occs[k].name] == occs[k].value)
    decreases |occs|
  {
    var n := |occs| - 1;
    if k < n {
      assert occs[..n][k] == occs[k];
      LastOccurrenceHeld(occs[..n], k);
    }
  }

  lemma {:induction false} LastOccurrence(occs: seq<Occurrence>, k: nat) returns (last: nat)
    requires k < |occs|
    ensures k <= last < |occs| && occs[last].name == occs[k].name
    ensures forall j | last < j < |occs| :: occs[j].name != occs[k].name
    decreases |occs|
  {
    var n := |occs| - 1;
    if occs[n].name == occs[k].name {
      last := n;
    } else {
      last := LastOccurrence(occs[..n], k);
      assert occs[..n][last] == occs[last];
    }
  }

  /** All occurrences agree with the dictionary exactly when repeated names met equal values. */
  lemma AgreesIffRepeatsEqual(occs: seq<Occurrence>)
    requires RecordedAll(EMPTY, occs).Some?
    ensures Agrees(occs, RecordedAll(EMPTY, occs).value.entries) <==> RepeatsEqual(occs)
  {
    var bound := RecordedAll(EMPTY, occs).value.entries;
    forall k | 0 <= k < |occs|
      ensures occs[k].name in bound
      ensures RepeatsEqual(occs) ==> bound[occs[k].name] == occs[k].value
    {
      var last := LastOccurrence(occs, k);
      LastOccurrenceHeld(occs, last);
      LastOccurrenceHeld(occs, k);
    }
  }

  lemma {:induction false} StrictRepeatsAreEqual(occs: seq<Occurrence>)
    requires RecordedAll(EMPTY, occs).Some? && RepeatsStrict(occs)
    ensures RepeatsEqual(occs)
    decreases |occs|
  {
    if occs != [] {
      var n := |occs| - 1;
      var init := occs[..n];
      StrictRepeatsAreEqual(init);
      AgreesIffRepeatsEqual(init);
      forall j | 0 <= j < n && occs[j].name == occs[n].name ensures occs[j].value == occs[n].value {
        assert init[j] == occs[j];
      }
      forall j, k | 0 <= j < k < |occs| && occs[j].name == occs[k].name ensures occs[j].value == occs[k].value {
        if k < n {
          assert init[j] == occs[j] && init[k] == occs[k];
        }
      }
    }
  }

  // ---- what a later value keeps of an earlier one -------------------------------------------------

  predicate DecentValue(v: Value) {
    match v
    case One(x) => Decent(x)
    case Many(xs) => forall l | 0 <= l < |xs| :: Decent(xs[l])
  }

  /** The later value is of the same kind, and where the earlier one was a cast's text (or, in a list, any
      text) it still is. */
  predicate Keeps(v: Value, later: Value) {
    match (v, later)
    case (One(x), One(y)) => CastText(x) ==> x == y
    case (Many(xs), Many(ys)) => |xs| == |ys| && forall l | 0 <= l < |xs| && xs[l].Text? :: xs[l] == ys[l]
    case (_, _) => false
  }

  lemma ShownOtherwise(y: Scalar)
    requires !y.Text? && Decent(y)
    ensures PyStr(y) == "" || PyStr(y)[0] != 'C'
  {
    match y
    case Number(Int(n)) => Numerals.DigitsAreDigits(if n < 0 then -n else n);
    case _ =>
  }

  lemma CastTextStays(x: Scalar, y: Scalar)
    requires CastText(x) && Decent(y) && LooseEq(One(x), One(y))
    ensures x == y
  {
    assert x.s[0] == x.s[..5][0] == 'C';
    if !y.Text? {
      ShownOtherwise(y);
    }
  }

  lemma LooseKeeps(v: Value, later: Value)
    requires LooseEq(v, later) && DecentValue(later)
    ensures Keeps(v, later)
  {
    if v.One? && CastText(v.scalar) {
      CastTextStays(v.scalar, later.scalar);
    }
  }

  lemma KeepsTransitive(a: Value, b: Value, c: Value)
    requires Keeps(a, b) && Keeps(b, c)
    ensures Keeps(a, c)
  {
  }

  lemma {:induction false} EntryKeeps(occs: seq<Occurrence>, k: nat)
    requires RecordedAll(EMPTY, occs).Some? && k < |occs|
    requires forall j | 0 <= j < |occs| :: DecentValue(occs[j].value)
    ensures
      var bound := RecordedAll(EMPTY, occs).value.entries;
      occs[k].name in bound && Keeps(occs[k].value, bound[occs[k].name])
    decreases |occs|
  {
    var n := |occs| - 1;
    if k < n {
      assert occs[..n][k] == occs[k];
      EntryKeeps(occs[..n], k);
      var before := RecordedAll(EMPTY, occs[..n]).value.entries;
      if occs[n].name == occs[k].name {
        LooseKeeps(before[occs[n].name], occs[n].value);
        KeepsTransitive(occs[k].value, before[occs[n].name], occs[n].value);
      }
    }
  }

  lemma OccurrenceDecent(o: Occurrence)
    requires Sourced([o]) && AllConstant([o])
    ensures DecentValue(o.value)
  {
    assert [o][0] == o;
    forall l | 0 <= l < |o.sources| ensures Decent(ValueOf(o.sources[l])) {
      assert IncomingConstant([o][0].sources[l]);
      ConstantDecent(o.sources[l]);
    }
  }

  lemma AllOccurrencesDecent(occs: seq<Occurrence>)
    requires Sourced(occs) && AllConstant(occs)
    ensures forall k | 0 <= k < |occs| :: DecentValue(occs[k].value)
  {
    forall k | 0 <= k < |occs| ensures DecentValue(occs[k].value) {
      var o := occs[k];
      assert forall l | 0 <= l < |o.sources| :: IncomingConstant(occs[k].sources[l]);
      assert Sourced([o]);
      OccurrenceDecent(o);
    }
  }

  predicate PlainAt(o: Occurrence) {
    forall l | 0 <= l < |o.sources| :: Plain(o.sources[l])
  }

  /** One occurrence: the value bound in the end reads as its source exactly when the source is plain and
      the value is its own. */
  lemma OccurrenceReadsBack(o: Occurrence, bound: map<string, Value>)
    requires Sourced([o]) && (forall l | 0 <= l < |o.sources| :: IncomingConstant(o.sources[l]))
    requires o.name in bound && Keeps(o.value, bound[o.name]) && DecentValue(bound[o.name])
    ensures ReadsBack(o, bound) <==> PlainAt(o) && bound[o.name] == o.value
  {
    assert [o][0] == o;
    match bound[o.name]
    case One(v) => ValueReadsBack(v, o.sources[0]);
    case Many(vs) =>
      forall l | 0 <= l < |vs|
        ensures Reads(NodeOf(vs[l]), o.sources[l]) <==> Plain(o.sources[l]) && vs[l] == o.value.items[l]
      {
        ValueReadsBack(vs[l], o.sources[l]);
      }
  }

  lemma AllReadBackExactly(occs: seq<Occurrence>, bound: map<string, Value>)
    requires Sourced(occs) && AllConstant(occs)
    requires forall k | 0 <= k < |occs| :: occs[k].name in bound && Keeps(occs[k].value, bound[occs[k].name])
    requires forall k | 0 <= k < |occs| :: DecentValue(bound[occs[k].name])
    ensures KindsAgree(occs, bound)
    ensures AllReadBack(occs, bound) <==> AllPlain(occs) && Agrees(occs, bound)
  {
    forall k | 0 <= k < |occs|
      ensures ReadsBack(occs[k], bound) <==> PlainAt(occs[k]) && bound[occs[k].name] == occs[k].value
    {
      var o := occs[k];
      assert forall l | 0 <= l < |o.sources| :: IncomingConstant(occs[k].sources[l]);
      assert Sourced([o]);
      OccurrenceReadsBack(o, bound);
    }
    assert AllPlain(occs) <==> forall k | 0 <= k < |occs| :: PlainAt(occs[k]);
  }

  /** The dictionary's values, against every occurrence they were recorded over. */
  lemma EntriesKeep(occs: seq<Occurrence>)
    requires Sourced(occs) && AllConstant(occs) && RecordedAll(EMPTY, occs).Some?
    ensures
      var bound := RecordedAll(EMPTY, occs).value.entries;
      forall k | 0 <= k < |occs| ::
        occs[k].name in bound && Keeps(occs[k].value, bound[occs[k].name]) && DecentValue(bound[occs[k].name])
  {
    var bound := RecordedAll(EMPTY, occs).value.entries;
    AllOccurrencesDecent(occs);
    forall k | 0 <= k < |occs|
      ensures occs[k].name in bound && Keeps(occs[k].value, bound[occs[k].name]) && DecentValue(bound[occs[k].name])
    {
      EntryKeeps(occs, k);
      var last := LastOccurrence(occs, k);
      LastOccurrenceHeld(occs, last);
    }
  }

  // ---- the main result ------------------------------------------------------------------------------

  lemma ReadsExactly(t: Node, i: Node, occs: seq<Occurrence>, d: Dict)
    requires Occurrences(t, i) == Some(occs) && RecordedAll(EMPTY, occs) == Some(d) && AllConstant(occs)
    ensures Reads(Instance(t, d.entries), i) <==> AllPlain(occs) && Agrees(occs, d.entries)
  {
    InstanceReads(t, i, d.entries);
    EntriesKeep(occs);
    AllReadBackExactly(occs, d.entries);
  }

  /** For statements with the template's key: if the unifier binds, then every value comes from a
      constant, and filling the template reads as the statement exactly when those constants are
      plain and repeated names met equal values. */
  lemma InlineBindingSound(t: Node, i: Node, after: Dict)
    requires KeyOf(t) == KeyOf(i) && Incoming(i) && TypesBare(t)
    requires Comes(EMPTY, Occurrences(t, i), true, after)
    ensures AllConstant(Occurrences(t, i).value)
    ensures Agrees(Occurrences(t, i).value, after.entries) <==> RepeatsEqual(Occurrences(t, i).value)
    ensures Reads(Instance(t, after.entries), i) <==>
      AllPlain(Occurrences(t, i).value) && RepeatsEqual(Occurrences(t, i).value)
  {
    var occs := Occurrences(t, i).value;
    KeysBindConstants(t, i);
    AgreesIffRepeatsEqual(occs);
    ReadsExactly(t, i, occs, after);
  }

  // ---- where it fails without its conditions -----------------------------------------------------

  /** Without equal keys a whole expression is bound to the one literal in it. */
  lemma DifferentKeysBindInnerLiteral(name: string)
    requires !IsAnonymous(name)
    ensures
      var t := Marker(name);
      var i := Op("Add", [Op("Column", []), NumberLit("5", Int(5))]);
      && KeyOf(t) != KeyOf(i)
      && Occurrences(t, i) == Some([Occurrence(name, One(Number(Int(5))), [i])])
      && !Reads(Instance(t, map[name := One(Number(Int(5)))]), i)
  {
    var i := Op("Add", [Op("Column", []), NumberLit("5", Int(5))]);
    var args := i.args;
    assert LiteralsInFirst(args, 1) == NoLiteral by {
      assert LiteralsInFirst(args, 0) == NoLiteral && LiteralsIn(args[0]) == NoLiteral;
    }
    assert LiteralsIn(args[1]) == OneLiteral(Number(Int(5)));
    assert LiteralsIn(i) == OneLiteral(Number(Int(5)));
  }

  /** With equal keys, a typed NULL is bound to the number in its type. */
  lemma TypedNullBindsTypeLength(name: string)
    requires !IsAnonymous(name)
    ensures
      var t := Marker(name);
      var i := Cast(Null, Op("Varchar", [NumberLit("10", Int(10))]));
      && KeyOf(t) == KeyOf(i) && Incoming(i) && TypesBare(t)
      && Occurrences(t, i) == Some([Occurrence(name, One(Number(Int(10))), [i])])
      && !Reads(Instance(t, map[name := One(Number(Int(10)))]), i)
  {
    var to := Op("Varchar", [NumberLit("10", Int(10))]);
    assert LiteralsInFirst(to.args, 0) == NoLiteral && LiteralsIn(to.args[0]) == OneLiteral(Number(Int(10)));
    assert LiteralsIn(to) == OneLiteral(Number(Int(10)));
    assert LiteralsIn(Cast(Null, to)) == OneLiteral(Number(Int(10)));
  }

  lemma TwoOccurrences(t1: Node, i1: Node, a: Occurrence, t2: Node, i2: Node, b: Occurrence)
    requires Occurrences(t1, i1) == Some([a]) && Occurrences(t2, i2) == Some([b])
    ensures FirstOccurrences([t1, t2], [i1, i2], 2) == Some([a, b])
  {
    var ts, ns := [t1, t2], [i1, i2];
    assert FirstOccurrences(ts, ns, 0) == Some([]);
    assert [] + [a] == [a] && [a] + [b] == [a, b];
    assert FirstOccurrences(ts, ns, 1) == Some([a]);
  }

  lemma RecordedTwice(a: Occurrence, b: Occurrence)
    requires a.name == b.name && LooseEq(a.value, b.value)
    ensures RecordedAll(EMPTY, [a, b]).Some? && RecordedAll(EMPTY, [a, b]).value.entries == map[b.name := b.value]
  {
    assert [a, b][..1] == [a] && [a][..0] == [];
    assert RecordedAll(EMPTY, []) == Some(EMPTY);
    assert RecordedAll(EMPTY, [a]) == Recorded(EMPTY, a.name, a.value);
  }

  function TwoMarkers(name: string): Node {
    Op("Row", [Marker(name), Marker(name)])
  }

  const TRUE_AND_ONE := Op("Row", [Boolean(true), NumberLit("1", Int(1))])

  lemma BooleanThenOne(name: string) returns (after: Dict)
    requires !IsAnonymous(name)
    ensures
      var occs := Occurrences(TwoMarkers(name), TRUE_AND_ONE);
      occs.Some? && !RepeatsEqual(occs.value) && Comes(EMPTY, occs, true, after)
  {
    var m, yes, one := Marker(name), Boolean(true), NumberLit("1", Int(1));
    var first, second := Occurrence(name, One(Bool(true)), [yes]), Occurrence(name, One(Number(Int(1))), [one]);
    TwoOccurrences(m, yes, first, m, one, second);
    RecordedTwice(first, second);
    after := RecordedAll(EMPTY, [first, second]).value;
    assert [first, second][0].value != [first, second][1].value;
  }

  /** With equal keys, a repeated name can be bound to values that differ: TRUE and then 1. */
  lemma LooseRepeatsLoseAValue(name: string)
    requires !IsAnonymous(name)
    ensures
      var t, i := TwoMarkers(name), TRUE_AND_ONE;
      && KeyOf(t) == KeyOf(i) && Incoming(i) && TypesBare(t)
      && exists after :: Comes(EMPTY, Occurrences(t, i), true, after) && !Reads(Instance(t, after.entries), i)
  {
    var after := BooleanThenOne(name);
    InlineBindingSound(TwoMarkers(name), TRUE_AND_ONE, after);
  }
}
