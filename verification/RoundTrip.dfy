/** Filling a template with parameters and binding the result gives the parameters back. */
module RoundTrip {
  import opened Wrappers
  import opened Numerals
  import opened PlaceholderNames
  import opened SqlTree
  import opened Unify
  import opened BindingSound
  import opened SplitLiteral
  import opened BindTemplate

  /** A value that some literal stands for: a signed zero decimal has none. */
  predicate Writable(v: Scalar) {
    v.Number? && v.num.Dec? ==> v.num.magnitude >= 0.0 && (v.num.negative ==> v.num.magnitude > 0.0)
  }

  /** A value the binder accepts as a member of a whole list. */
  predicate ListItem(v: Scalar) {
    Writable(v) && (v.Text? || v.Number?)
  }

  lemma ValueReadBack(v: Scalar)
    requires Writable(v)
    ensures ValueOf(NodeOf(v)) == v && Collapses(NodeOf(v)) && !NodeOf(v).Paren?
    ensures ListItem(v) ==> IsConstant(NodeOf(v)) && !HoldsNullOrBoolean(NodeOf(v))
  {
  }

  /** Every placeholder of the template has a fitting value. */
  predicate Fits(t: Node, bound: map<string, Value>) {
    match t
    case Marker(name) => !IsAnonymous(name) && name in bound && bound[name].One? && Writable(bound[name].scalar)
    case Parameter(name) => name in bound && bound[name].One? && Writable(bound[name].scalar)
    case Paren(e) => Fits(e, bound)
    case Neg(e) => Fits(e, bound)
    case Cast(e, to) => Fits(e, bound) && Fits(to, bound)
    case In(e, list) => Fits(e, bound) && ListFits(list, bound)
    case Op(_, args) => forall k | 0 <= k < |args| :: Fits(args[k], bound)
    case _ => true
  }

  predicate TakesMany(list: InList, bound: map<string, Value>) {
    list.Field? && list.field.Marker? && list.field.name in bound && bound[list.field.name].Many?
  }

  predicate ListFits(list: InList, bound: map<string, Value>) {
    match list
    case Field(f) =>
      if TakesMany(list, bound) then
        var items := bound[f.name].items;
        !IsAnonymous(f.name) && items != [] && forall k | 0 <= k < |items| :: ListItem(items[k])
      else Fits(f, bound)
    case Members(ms) => forall k | 0 <= k < |ms| :: Fits(ms[k], bound)
    case Subquery(q) => Fits(q, bound)
  }

  /** The template has a placeholder of this name. */
  predicate Mentions(t: Node, name: string) {
    match t
    case Marker(other) => other == name
    case Parameter(other) => other == name
    case Paren(e) => Mentions(e, name)
    case Neg(e) => Mentions(e, name)
    case Cast(e, to) => Mentions(e, name) || Mentions(to, name)
    case In(e, list) => Mentions(e, name) || ListMentions(list, name)
    case Op(_, args) => exists k | 0 <= k < |args| :: Mentions(args[k], name)
    case _ => false
  }

  predicate ListMentions(list: InList, name: string) {
    match list
    case Field(f) => Mentions(f, name)
    case Members(ms) => exists k | 0 <= k < |ms| :: Mentions(ms[k], name)
    case Subquery(q) => Mentions(q, name)
  }

  // ---- an instance matches, with the values that made it ----------------------------------------

  predicate Meets(occs: seq<Occurrence>, name: string) {
    exists k | 0 <= k < |occs| :: occs[k].name == name
  }

  /** All occurrences have the given values, and `name` occurs when it should. */
  predicate Recovers(occs: Option<seq<Occurrence>>, bound: map<string, Value>, name: string, mentioned: bool) {
    occs.Some? && Agrees(occs.value, bound) && (Meets(occs.value, name) <==> mentioned)
  }

  lemma AppendRecovers(a: Option<seq<Occurrence>>, b: Option<seq<Occurrence>>, bound: map<string, Value>, name: string, ma: bool, mb: bool)
    requires Recovers(a, bound, name, ma) && Recovers(b, bound, name, mb)
    ensures Recovers(Append(a, b), bound, name, ma || mb)
  {
    AppendParts(a.value, b.value, bound);
    var ab := a.value + b.value;
    if ma {
      var k :| 0 <= k < |a.value| && a.value[k].name == name;
      assert ab[k].name == name;
    }
    if mb {
      var k :| 0 <= k < |b.value| && b.value[k].name == name;
      assert ab[|a.value| + k].name == name;
    }
  }

  lemma SingleRecovers(o: Occurrence, bound: map<string, Value>, name: string)
    requires o.name in bound && bound[o.name] == o.value
    ensures Recovers(Some([o]), bound, name, o.name == name)
  {
    assert [o][0] == o;
  }

  /** Matching a filled template meets every placeholder, each with the value it was filled with. */
  lemma {:induction false} InstanceMatches(t: Node, bound: map<string, Value>, name: string)
    requires Fits(t, bound)
    ensures Recovers(Occurrences(t, Instance(t, bound)), bound, name, Mentions(t, name))
    decreases t
  {
    var i := Instance(t, bound);
    match t
    case Marker(other) => LeafMatches(t, other, bound, name);
    case Parameter(other) => LeafMatches(t, other, bound, name);
    case Paren(e) =>
      OccurrencesPastParen(e, Instance(e, bound));
      InstanceMatches(e, bound, name);
    case Neg(e) => InstanceMatches(e, bound, name);
    case Cast(e, to) =>
      InstanceMatches(e, bound, name);
      InstanceMatches(to, bound, name);
      AppendRecovers(Occurrences(e, i.e), Occurrences(to, i.to), bound, name, Mentions(e, name), Mentions(to, name));
    case In(e, list) =>
      InstanceMatches(e, bound, name);
      ListInstanceMatches(list, bound, name);
      AppendRecovers(Occurrences(e, i.e), ListOccurrences(list, i.list), bound, name, Mentions(e, name), ListMentions(list, name));
    case Op(_, args) => FirstInstancesMatch(args, i.args, bound, name, |args|);
    case _ =>
  }

  lemma LeafMatches(t: Node, other: string, bound: map<string, Value>, name: string)
    requires (t == Marker(other) || t == Parameter(other)) && Fits(t, bound)
    ensures Recovers(Occurrences(t, Instance(t, bound)), bound, name, Mentions(t, name))
  {
    var i := Instance(t, bound);
    ValueReadBack(bound[other].scalar);
    SingleRecovers(Occurrence(other, One(ValueOf(i)), [i]), bound, name);
  }

  lemma {:induction false} ListInstanceMatches(list: InList, bound: map<string, Value>, name: string)
    requires ListFits(list, bound)
    ensures Recovers(ListOccurrences(list, ListInstance(list, bound)), bound, name, ListMentions(list, name))
    decreases list
  {
    match list
    case Field(f) =>
      if TakesMany(list, bound) {
        WholeListMatches(list, bound, name);
      } else {
        InstanceMatches(f, bound, name);
      }
    case Members(ms) => FirstInstancesMatch(ms, ListInstance(list, bound).members, bound, name, |ms|);
    case Subquery(q) => InstanceMatches(q, bound, name);
  }

  lemma WholeListMatches(list: InList, bound: map<string, Value>, name: string)
    requires TakesMany(list, bound) && ListFits(list, bound)
    ensures Recovers(ListOccurrences(list, ListInstance(list, bound)), bound, name, ListMentions(list, name))
  {
    var f := list.field;
    var items, ms := bound[f.name].items, ListInstance(list, bound).members;
    forall k | 0 <= k < |items|
      ensures ValueOf(ms[k]) == items[k] && IsConstant(ms[k]) && !HoldsNullOrBoolean(ms[k])
    {
      assert ListItem(items[k]);
      ValueReadBack(items[k]);
    }
    assert TakesList(list, ListInstance(list, bound));
    assert ValuesOf(ms) == items;
    SingleRecovers(Occurrence(f.name, Many(ValuesOf(ms)), ms), bound, name);
  }

  predicate FirstMention(ts: seq<Node>, n: nat, name: string)
    requires n <= |ts|
  {
    exists k | 0 <= k < n :: Mentions(ts[k], name)
  }

  lemma {:induction false} FirstInstancesMatch(ts: seq<Node>, ns: seq<Node>, bound: map<string, Value>, name: string, n: nat)
    requires n <= |ts| == |ns| && forall k | 0 <= k < |ts| :: Fits(ts[k], bound) && ns[k] == Instance(ts[k], bound)
    ensures Recovers(FirstOccurrences(ts, ns, n), bound, name, FirstMention(ts, n, name))
    decreases ts, n
  {
    if n > 0 {
      FirstInstancesMatch(ts, ns, bound, name, n - 1);
      InstanceMatches(ts[n - 1], bound, name);
      AppendRecovers(FirstOccurrences(ts, ns, n - 1), Occurrences(ts[n - 1], ns[n - 1]), bound, name,
                     FirstMention(ts, n - 1, name), Mentions(ts[n - 1], name));
    }
  }

  // ---- recorded without a clash, and mapped back ---------------------------------------------

  lemma LooseEqSelf(v: Value)
    ensures LooseEq(v, v)
  {
  }

  /** Consistent occurrences are recorded, as exactly the values they have. */
  lemma {:induction false} ConsistentRecorded(occs: seq<Occurrence>, bound: map<string, Value>)
    requires Agrees(occs, bound)
    ensures RecordedAll(EMPTY, occs).Some?
    ensures forall name :: name in RecordedAll(EMPTY, occs).value.entries <==> Meets(occs, name)
    ensures forall name | name in RecordedAll(EMPTY, occs).value.entries ::
      name in bound && RecordedAll(EMPTY, occs).value.entries[name] == bound[name]
    decreases |occs|
  {
    if occs != [] {
      var n := |occs| - 1;
      ConsistentRecorded(occs[..n], bound);
      LooseEqSelf(occs[n].value);
      forall name ensures Meets(occs, name) <==> Meets(occs[..n], name) || occs[n].name == name {
        MeetsSnoc(occs, name);
      }
    }
  }

  lemma MeetsSnoc(occs: seq<Occurrence>, name: string)
    requires occs != []
    ensures Meets(occs, name) <==> Meets(occs[..|occs| - 1], name) || occs[|occs| - 1].name == name
  {
    var n := |occs| - 1;
    if Meets(occs[..n], name) {
      var k :| 0 <= k < n && occs[..n][k].name == name;
      assert occs[k].name == name;
    }
    if Meets(occs, name) && occs[n].name != name {
      var k :| 0 <= k < |occs| && occs[k].name == name;
      assert occs[..n][k].name == name;
    }
  }

  /** Keys that share a user name share its value. */
  predicate SharesUserValue(entries: map<string, Value>, order: seq<string>, mapping: map<string, string>, user: map<string, Value>) {
    forall key | key in order ::
      key in entries && UserName(mapping, key) in user && user[UserName(mapping, key)] == entries[key]
  }

  lemma {:induction false} ConsistentRenamed(entries: map<string, Value>, order: seq<string>, mapping: map<string, string>, user: map<string, Value>)
    requires SharesUserValue(entries, order, mapping, user)
    ensures Renamed(entries, order, mapping).Some?
    ensures forall u | u in Renamed(entries, order, mapping).value :: u in user && Renamed(entries, order, mapping).value[u] == user[u]
    ensures forall key | key in order :: UserName(mapping, key) in Renamed(entries, order, mapping).value
    decreases |order|
  {
    if order != [] {
      var n := |order| - 1;
      assert order == order[..n] + [order[n]];
      ConsistentRenamed(entries, order[..n], mapping, user);
      LooseEqSelf(entries[order[n]]);
    }
  }

  /** The values the template is filled with are those of the user's names. */
  ghost predicate FilledFrom(t: Node, bound: map<string, Value>, mapping: map<string, string>, user: map<string, Value>) {
    forall name | Mentions(t, name) ::
      name in bound && UserName(mapping, name) in user && user[UserName(mapping, name)] == bound[name]
  }

  /** What recording the occurrences of a filled template comes to. */
  lemma FillingRecorded(t: Node, bound: map<string, Value>, name: string)
    requires Fits(t, bound)
    ensures
      var occs := Occurrences(t, Instance(t, bound));
      && occs.Some? && RecordedAll(EMPTY, occs.value).Some? && Listed(RecordedAll(EMPTY, occs.value).value)
      && var d := RecordedAll(EMPTY, occs.value).value;
      && (name in d.order <==> Mentions(t, name))
      && (name in d.order ==> name in bound && d.entries[name] == bound[name])
  {
    InstanceMatches(t, bound, name);
    var occs := Occurrences(t, Instance(t, bound)).value;
    ConsistentRecorded(occs, bound);
    RecordedListed(occs);
    assert name in RecordedAll(EMPTY, occs).value.entries <==> Meets(occs, name);
  }

  lemma FillingShares(t: Node, bound: map<string, Value>, mapping: map<string, string>, user: map<string, Value>, d: Dict)
    requires Fits(t, bound) && FilledFrom(t, bound, mapping, user)
    requires Occurrences(t, Instance(t, bound)).Some? && RecordedAll(EMPTY, Occurrences(t, Instance(t, bound)).value) == Some(d)
    ensures SharesUserValue(d.entries, d.order, mapping, user)
  {
    forall key | key in d.order
      ensures key in d.entries && UserName(mapping, key) in user && user[UserName(mapping, key)] == d.entries[key]
    {
      FillingRecorded(t, bound, key);
    }
  }

  lemma KeyOfUser(names: seq<string>, k: nat)
    requires k < |names|
    ensures UserName(NamesUpTo(names, |names|), Key(k)) == names[k]
  {
    NamesUpToMeans(names, |names|);
  }

  lemma FillingNames(t: Node, bound: map<string, Value>, names: seq<string>, d: Dict, final: map<string, Value>)
    requires Fits(t, bound) && forall k | 0 <= k < |names| :: Mentions(t, Key(k))
    requires Occurrences(t, Instance(t, bound)).Some? && RecordedAll(EMPTY, Occurrences(t, Instance(t, bound)).value) == Some(d)
    requires forall key | key in d.order :: UserName(NamesUpTo(names, |names|), key) in final
    ensures forall k | 0 <= k < |names| :: names[k] in final
  {
    forall k | 0 <= k < |names| ensures names[k] in final {
      KeyOfUser(names, k);
      FillingRecorded(t, bound, Key(k));
    }
  }

  /** Round trip of the unifier: a filled template binds, every name to the value it was filled with,
      provided every listed name has a placeholder. */
  lemma UnifyUndoesFilling(t: Node, bound: map<string, Value>, names: seq<string>, user: map<string, Value>)
    requires Fits(t, bound) && FilledFrom(t, bound, NamesUpTo(names, |names|), user)
    requires forall k | 0 <= k < |names| :: Mentions(t, Key(k))
    ensures
      var result := UserBinding(t, Instance(t, bound), names);
      && result.Some?
      && (forall k | 0 <= k < |names| :: names[k] in result.value)
      && forall u | u in result.value :: u in user && result.value[u] == user[u]
  {
    var i, mapping := Instance(t, bound), NamesUpTo(names, |names|);
    FillingRecorded(t, bound, "");
    var d := RecordedAll(EMPTY, Occurrences(t, i).value).value;
    FillingShares(t, bound, mapping, user, d);
    ConsistentRenamed(d.entries, d.order, mapping, user);
    var final := Renamed(d.entries, d.order, mapping).value;
    FillingNames(t, bound, names, d, final);
    UserBindingIs(t, i, names, d, final);
  }

  // ---- packed literals -----------------------------------------------------------------------------

  function TextOf(v: Value): string {
    if v.IsText() then v.scalar.s else ""
  }

  /** The texts of a group's parameters. */
  function CoresOf(group: seq<Spec>, params: map<string, Value>): (cores: seq<string>)
    requires forall k | 0 <= k < |group| :: group[k].name in params
    ensures |cores| == |group|
  {
    seq(|group|, k requires 0 <= k < |group| => TextOf(params[group[k].name]))
  }

  /** The value of the literal that carries a group: the parameter itself, or the constants around
      wildcard-free parameters with a wildcard in every delimiter between two. */
  predicate LiteralFor(group: seq<Spec>, params: map<string, Value>, value: Value)
    requires group != [] && forall k | 0 <= k < |group| :: group[k].name in params
  {
    if WholeLiteral(group) then value == params[group[0].name]
    else
      && (forall k | 0 <= k < |group| :: params[group[k].name].IsText())
      && DelimitersWild(Consts(group))
      && Splits(value, group, CoresOf(group, params))
  }

  /** A group's share of the parameters. */
  function PartOf(group: seq<Spec>, params: map<string, Value>): map<string, Value>
    requires forall k | 0 <= k < |group| :: group[k].name in params
  {
    map k | 0 <= k < |group| :: group[k].name := params[group[k].name]
  }

  lemma LiteralCarries(group: seq<Spec>, params: map<string, Value>, value: Value)
    requires group != [] && (forall k | 0 <= k < |group| :: group[k].name in params) && LiteralFor(group, params, value)
    ensures Carries(value, group, PartOf(group, params))
  {
    var part := PartOf(group, params);
    if WholeLiteral(group) {
      assert part == map[group[0].name := value];
    } else {
      var cores := CoresOf(group, params);
      SplitUndoesAssembly(Consts(group), cores, value.scalar.s);
      forall k | 0 <= k < |group| ensures group[k].name in part && part[group[k].name] == One(Text(cores[k])) {
      }
      assert Gives(group, cores, part);
    }
  }

  /** Such a literal exists for any wildcard-free texts. */
  lemma {:induction false} AssemblyExists(consts: seq<string>, cores: seq<string>) returns (v: string)
    requires |consts| == |cores| + 1
    ensures Assembles(consts, cores, v)
    decreases |cores|
  {
    if cores == [] {
      v := consts[0];
    } else {
      var rest := AssemblyExists(consts[1..], cores[1..]);
      PutFront(consts, cores[1..], rest, cores[0]);
      v := consts[0] + cores[0] + rest;
      assert cores == [cores[0]] + cores[1..];
    }
  }

  /** A literal for the group: parameters that are wildcard-free texts can always be packed. */
  lemma LiteralExists(group: seq<Spec>, params: map<string, Value>) returns (value: Value)
    requires group != [] && forall k | 0 <= k < |group| :: group[k].name in params
    requires !WholeLiteral(group) ==>
      && (forall k | 0 <= k < |group| :: params[group[k].name].IsText())
      && AllWildcardFree(CoresOf(group, params)) && DelimitersWild(Consts(group))
    ensures LiteralFor(group, params, value)
  {
    if WholeLiteral(group) {
      value := params[group[0].name];
    } else {
      var text := AssemblyExists(Consts(group), CoresOf(group, params));
      value := One(Text(text));
    }
  }

  ghost predicate InSome(parts: seq<map<string, Value>>, name: string) {
    exists g | 0 <= g < |parts| :: name in parts[g]
  }

  lemma InSomeSnoc(parts: seq<map<string, Value>>, name: string)
    requires parts != []
    ensures InSome(parts, name) <==> InSome(parts[..|parts| - 1], name) || name in parts[|parts| - 1]
  {
    var n := |parts| - 1;
    if InSome(parts[..n], name) {
      var g :| 0 <= g < n && name in parts[..n][g];
      assert name in parts[g];
    }
    if InSome(parts, name) && name !in parts[n] {
      var g :| 0 <= g < |parts| && name in parts[g];
      assert name in parts[..n][g];
    }
  }

  predicate ShareOf(part: map<string, Value>, params: map<string, Value>) {
    forall name | name in part :: name in params && part[name] == params[name]
  }

  lemma SharesDoNotClash(a: map<string, Value>, b: map<string, Value>, params: map<string, Value>)
    requires ShareOf(a, params) && ShareOf(b, params)
    ensures !Clash(a, b) && ShareOf(a + b, params)
  {
    forall name | name in a && name in b ensures LooseEq(a[name], b[name]) {
      LooseEqSelf(params[name]);
    }
  }

  /** Shares of the same parameters merge into their union. */
  lemma {:induction false} SharesMerge(parts: seq<map<string, Value>>, params: map<string, Value>)
    requires forall g | 0 <= g < |parts| :: ShareOf(parts[g], params)
    ensures Merged(parts).Some? && ShareOf(Merged(parts).value, params)
    ensures forall name :: name in Merged(parts).value <==> InSome(parts, name)
    decreases |parts|
  {
    if parts != [] {
      var n := |parts| - 1;
      SharesMerge(parts[..n], params);
      SharesDoNotClash(Merged(parts[..n]).value, parts[n], params);
      forall name ensures name in Merged(parts).value <==> InSome(parts, name) {
        InSomeSnoc(parts, name);
      }
    }
  }

  ghost predicate Named(groups: seq<seq<Spec>>, params: map<string, Value>) {
    forall g | 0 <= g < |groups| :: groups[g] != [] && forall k | 0 <= k < |groups[g]| :: groups[g][k].name in params
  }

  ghost predicate NamedIn(specs: seq<Spec>, name: string) {
    exists k | 0 <= k < |specs| :: specs[k].name == name
  }

  /** The parts merge to the groups' parameters, each with its value, and nothing else. */
  ghost predicate MergesTo(groups: seq<seq<Spec>>, params: map<string, Value>, parts: seq<map<string, Value>>) {
    && Merged(parts).Some?
    && (forall name :: name in Merged(parts).value <==>
          exists g | 0 <= g < |groups| :: NamedIn(groups[g], name))
    && forall name | name in Merged(parts).value :: name in params && Merged(parts).value[name] == params[name]
  }

  /** Splitting and merging the literals made from parameters recovers each parameter, and nothing
      else. */
  lemma MergeRecovers(groups: seq<seq<Spec>>, params: map<string, Value>, values: seq<Value>, parts: seq<map<string, Value>>)
    requires Named(groups, params) && |values| == |groups|
    requires forall g | 0 <= g < |groups| :: LiteralFor(groups[g], params, values[g])
    requires AllCarry(groups, values, parts)
    ensures MergesTo(groups, params, parts)
  {
    forall g | 0 <= g < |groups| ensures parts[g] == PartOf(groups[g], params) {
      LiteralCarries(groups[g], params, values[g]);
      CarriedDetermined(values[g], groups[g], parts[g], PartOf(groups[g], params));
    }
    SharesMerge(parts, params);
  }

  /** The groups' shares of the parameters are what their literals carry. */
  lemma SharesCarry(groups: seq<seq<Spec>>, params: map<string, Value>, values: seq<Value>) returns (parts: seq<map<string, Value>>)
    requires Named(groups, params) && |values| == |groups|
    requires forall g | 0 <= g < |groups| :: LiteralFor(groups[g], params, values[g])
    ensures AllCarry(groups, values, parts)
  {
    parts := seq(|groups|, g requires 0 <= g < |groups| => PartOf(groups[g], params));
    forall g | 0 <= g < |groups| ensures Carries(values[g], groups[g], parts[g]) {
      LiteralCarries(groups[g], params, values[g]);
    }
  }

  // ---- the whole binder ------------------------------------------------------------------------------

  /** The tree of a rewritten template with n anonymous placeholders: it mentions their keys, and any
      other name it mentions is neither a key nor a group's name. */
  ghost predicate Template(t: Node, n: nat) {
    && (forall k | 0 <= k < n :: Mentions(t, Key(k)))
    && (forall name | Mentions(t, name) && name !in NamesUpTo(GroupNames(n), n) :: name !in GroupNames(n))
  }

  /** What the user sees: each group's value under the group's name, other names as filled. */
  function UserValues(bound: map<string, Value>, values: seq<Value>): map<string, Value> {
    if values == [] then bound
    else
      var n := |values| - 1;
      UserValues(bound, values[..n])[GroupName(n) := values[n]]
  }

  lemma GroupNamesDiffer(j: nat, k: nat)
    requires GroupName(j) == GroupName(k)
    ensures j == k
  {
    assert GroupName(j)[5..] == Digits(j) && GroupName(k)[5..] == Digits(k);
    DigitsInjective(j, k);
  }

  lemma {:induction false} UserValuesHold(bound: map<string, Value>, values: seq<Value>)
    ensures forall k | 0 <= k < |values| ::
      GroupName(k) in UserValues(bound, values) && UserValues(bound, values)[GroupName(k)] == values[k]
    ensures forall name | name in bound && (forall k | 0 <= k < |values| :: name != GroupName(k)) ::
      name in UserValues(bound, values) && UserValues(bound, values)[name] == bound[name]
  {
    if values != [] {
      var n := |values| - 1;
      UserValuesHold(bound, values[..n]);
      forall k | 0 <= k < |values|
        ensures GroupName(k) in UserValues(bound, values) && UserValues(bound, values)[GroupName(k)] == values[k]
      {
        if GroupName(k) == GroupName(n) {
          GroupNamesDiffer(k, n);
        }
      }
    }
  }

  lemma TemplateFilledFrom(t: Node, bound: map<string, Value>, values: seq<Value>)
    requires Fits(t, bound) && Template(t, |values|)
    requires forall k | 0 <= k < |values| :: Key(k) in bound && bound[Key(k)] == values[k]
    ensures FilledFrom(t, bound, NamesUpTo(GroupNames(|values|), |values|), UserValues(bound, values))
  {
    var n := |values|;
    var names := GroupNames(n);
    var mapping, user := NamesUpTo(names, n), UserValues(bound, values);
    NamesUpToMeans(names, n);
    UserValuesHold(bound, values);
    forall name | Mentions(t, name)
      ensures name in bound && UserName(mapping, name) in user && user[UserName(mapping, name)] == bound[name]
    {
      FillingRecorded(t, bound, name);
      if name in mapping {
        var k :| 0 <= k < n && name == Key(k);
        assert mapping[name] == names[k] == GroupName(k);
      } else {
        forall k | 0 <= k < n ensures name != GroupName(k) {
          assert names[k] == GroupName(k);
        }
      }
    }
  }

  /** Round trip of the binder: fill a template with any constants, packing those that share a literal,
      and binding the statement gives back exactly the parameters. */
  lemma BindRecovers(t: Node, bound: map<string, Value>, groups: seq<seq<Spec>>, params: map<string, Value>, values: seq<Value>)
    requires Named(groups, params) && |values| == |groups|
    requires forall g | 0 <= g < |groups| :: LiteralFor(groups[g], params, values[g])
    requires Fits(t, bound) && Template(t, |groups|)
    requires forall k | 0 <= k < |groups| :: Key(k) in bound && bound[Key(k)] == values[k]
    ensures
      var n := |groups|;
      var raw := UserBinding(t, Instance(t, bound), GroupNames(n));
      && raw.Some? && (forall k | 0 <= k < n :: GroupNames(n)[k] in raw.value)
      && GroupValues(raw.value, n) == values
      && (exists parts :: AllCarry(groups, values, parts) && MergesTo(groups, params, parts))
      && forall parts | AllCarry(groups, values, parts) :: MergesTo(groups, params, parts)
  {
    var n := |groups|;
    var names := GroupNames(n);
    TemplateFilledFrom(t, bound, values);
    UnifyUndoesFilling(t, bound, names, UserValues(bound, values));
    UserValuesHold(bound, values);
    var raw := UserBinding(t, Instance(t, bound), names);
    forall k | 0 <= k < n ensures raw.value[names[k]] == values[k] {
      assert names[k] == GroupName(k);
    }
    forall parts | AllCarry(groups, values, parts) ensures MergesTo(groups, params, parts) {
      MergeRecovers(groups, params, values, parts);
    }
    var shares := SharesCarry(groups, params, values);
    assert MergesTo(groups, params, shares);
  }

  lemma {:induction false} FlatNames(groups: seq<seq<Spec>>, name: string)
    ensures NamedIn(Flat(groups), name) <==> exists g | 0 <= g < |groups| :: NamedIn(groups[g], name)
  {
    if groups != [] {
      var n := |groups| - 1;
      var before, last, all := Flat(groups[..n]), groups[n], Flat(groups);
      FlatNames(groups[..n], name);
      if NamedIn(last, name) {
        var k :| 0 <= k < |last| && last[k].name == name;
        assert all[|before| + k].name == name;
      }
      if NamedIn(before, name) {
        var k :| 0 <= k < |before| && before[k].name == name;
        assert all[k].name == name;
        var g :| 0 <= g < n && NamedIn(groups[..n][g], name);
        assert NamedIn(groups[g], name);
      }
      if exists g | 0 <= g < n :: NamedIn(groups[g], name) {
        var g :| 0 <= g < n && NamedIn(groups[g], name);
        assert NamedIn(groups[..n][g], name);
      }
    }
  }

  /** Binding a filled template succeeds, with exactly the parameters it was filled with. */
  method BindFilled(templateSql: string, t: Node, bound: map<string, Value>, specs: seq<Spec>,
                    ghost groups: seq<seq<Spec>>, ghost params: map<string, Value>, ghost values: seq<Value>)
    returns (result: Option<map<string, Value>>)
    requires Flat(groups) == specs && Grouped(groups) && MarkersBefore(templateSql, |templateSql|) == |groups|
    requires Named(groups, params) && |values| == |groups|
    requires forall g | 0 <= g < |groups| :: LiteralFor(groups[g], params, values[g])
    requires Fits(t, bound) && Template(t, |groups|)
    requires forall k | 0 <= k < |groups| :: Key(k) in bound && bound[Key(k)] == values[k]
    ensures result.Some?
    ensures forall name :: name in result.value <==> NamedIn(specs, name)
    ensures forall name | name in result.value :: name in params && result.value[name] == params[name]
  {
    BindRecovers(t, bound, groups, params, values);
    ghost var found, raw, parts;
    result, found, raw, parts := BindTemplate.BindTemplate(templateSql, Some(t), Some(Instance(t, bound)), specs);
    GroupingDetermined(found, groups);
    forall name ensures name in result.value <==> NamedIn(specs, name) {
      FlatNames(groups, name);
    }
  }
}
