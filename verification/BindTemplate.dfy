/** The binder as the router calls it: naming, unification, mapping back to the user's names, and
    splitting of packed literals. */
module BindTemplate {
  import opened Wrappers
  import opened Numerals
  import opened PlaceholderNames
  import opened SqlTree
  import opened Unify
  import opened BindingSound
  import opened SplitLiteral

  // ---- back to the user's names -----------------------------------------------------------

  function UserName(mapping: map<string, string>, key: string): string {
    if key in mapping then mapping[key] else key
  }

  function Renamed(entries: map<string, Value>, order: seq<string>, mapping: map<string, string>): Option<map<string, Value>>
    requires forall key | key in order :: key in entries
    decreases |order|
  {
    if order == [] then Some(map[])
    else
      var n := |order| - 1;
      match Renamed(entries, order[..n], mapping)
      case None => None
      case Some(final) =>
        var user, v := UserName(mapping, order[n]), entries[order[n]];
        if user in final && !LooseEq(final[user], v) then None else Some(final[user := v])
  }

  predicate Listed(d: Dict) {
    (forall key | key in d.order :: key in d.entries) && (forall key | key in d.entries :: key in d.order)
  }

  lemma {:induction false} RecordedListed(occs: seq<Occurrence>)
    requires RecordedAll(EMPTY, occs).Some?
    ensures Listed(RecordedAll(EMPTY, occs).value)
    decreases |occs|
  {
    if occs != [] {
      var n := |occs| - 1;
      RecordedListed(occs[..n]);
      var before, after := RecordedAll(EMPTY, occs[..n]).value, RecordedAll(EMPTY, occs).value;
      forall key ensures key in after.order <==> key in after.entries {
        assert key in before.order <==> key in before.entries;
      }
    }
  }

  /** The user's bindings: every name bound, none to two different values. */
  function UserBinding(t: Node, i: Node, names: seq<string>): Option<map<string, Value>> {
    match Occurrences(t, i)
    case None => None
    case Some(occs) =>
      match RecordedAll(EMPTY, occs)
      case None => None
      case Some(d) =>
        RecordedListed(occs);
        match Renamed(d.entries, d.order, NamesUpTo(names, |names|))
        case None => None
        case Some(final) => if forall k | 0 <= k < |names| :: names[k] in final then Some(final) else None
  }

  lemma UserBindingIs(t: Node, i: Node, names: seq<string>, d: Dict, final: map<string, Value>)
    requires Occurrences(t, i).Some? && RecordedAll(EMPTY, Occurrences(t, i).value) == Some(d) && Listed(d)
    requires Renamed(d.entries, d.order, NamesUpTo(names, |names|)) == Some(final)
    requires forall k | 0 <= k < |names| :: names[k] in final
    ensures UserBinding(t, i, names) == Some(final)
  {
  }

  method MapBack(d: Dict, mapping: map<string, string>) returns (final: Option<map<string, Value>>)
    requires Listed(d)
    ensures final == Renamed(d.entries, d.order, mapping)
  {
    var out: map<string, Value> := map[];
    for k := 0 to |d.order|
      invariant Renamed(d.entries, d.order[..k], mapping) == Some(out)
    {
      var key := d.order[k];
      var user, v := UserName(mapping, key), d.entries[key];
      assert d.order[..k + 1][..k] == d.order[..k];
      if user in out && !LooseEq(out[user], v) {
        RenamedNone(d.entries, d.order, mapping, k + 1);
        return None;
      }
      out := out[user := v];
    }
    assert d.order[..|d.order|] == d.order;
    final := Some(out);
  }

  lemma {:induction false} RenamedNone(entries: map<string, Value>, order: seq<string>, mapping: map<string, string>, k: nat)
    requires k <= |order| && (forall key | key in order :: key in entries)
    requires Renamed(entries, order[..k], mapping) == None
    ensures Renamed(entries, order, mapping) == None
    decreases |order|
  {
    if k == |order| {
      assert order[..k] == order;
    } else {
      assert order[..|order| - 1][..k] == order[..k];
      RenamedNone(entries, order[..|order| - 1], mapping, k);
    }
  }

  /** Binds a statement. `parse` and `incoming` are the trees of the rewritten template and of the
      statement, if they parse. */
  method UnifyAndBind(templateSql: string, parse: Option<Node>, incoming: Option<Node>, names: seq<string>)
    returns (result: Option<map<string, Value>>)
    ensures result ==
      if MarkersBefore(templateSql, |templateSql|) == |names| && parse.Some? && incoming.Some?
      then UserBinding(parse.value, incoming.value, names) else None
  {
    var rewritten, mapping, _ := NameAnonymousPlaceholders(templateSql, names);
    if rewritten.None? || parse.None? || incoming.None? {
      return None;
    }
    var unifier := new Unifier();
    var ok := unifier.Unify(parse.value, incoming.value);
    if !ok {
      return None;
    }
    RecordedListed(Occurrences(parse.value, incoming.value).value);
    var final := MapBack(unifier.bound, mapping);
    if final.Some? && forall k | 0 <= k < |names| :: names[k] in final.value {
      return final;
    }
    result := None;
  }

  // ---- soundness in the user's names --------------------------------------------------------

  /** Tolerant equality is equality between the values that come under one user name. */
  predicate UserStrict(occs: seq<Occurrence>, mapping: map<string, string>) {
    forall j, k | 0 <= j < |occs| && 0 <= k < |occs| && UserName(mapping, occs[j].name) == UserName(mapping, occs[k].name) ::
      LooseEq(occs[j].value, occs[k].value) ==> occs[j].value == occs[k].value
  }

  predicate UserAgrees(occs: seq<Occurrence>, mapping: map<string, string>, final: map<string, Value>) {
    forall k | 0 <= k < |occs| ::
      UserName(mapping, occs[k].name) in final && final[UserName(mapping, occs[k].name)] == occs[k].value
  }

  predicate EntriesStrict(entries: map<string, Value>, order: seq<string>, mapping: map<string, string>)
    requires forall key | key in order :: key in entries
  {
    forall a, b | a in order && b in order && UserName(mapping, a) == UserName(mapping, b) ::
      LooseEq(entries[a], entries[b]) ==> entries[a] == entries[b]
  }

  predicate HasUserValue(entries: map<string, Value>, mapping: map<string, string>, final: map<string, Value>, key: string)
    requires key in entries
  {
    UserName(mapping, key) in final && final[UserName(mapping, key)] == entries[key]
  }

  lemma EntriesStrictInit(entries: map<string, Value>, order: seq<string>, mapping: map<string, string>)
    requires order != [] && (forall key | key in order :: key in entries) && EntriesStrict(entries, order, mapping)
    ensures var init := order[..|order| - 1];
      (forall key | key in init :: key in order) && EntriesStrict(entries, init, mapping)
  {
  }

  lemma {:induction false} RenamedAgrees(entries: map<string, Value>, order: seq<string>, mapping: map<string, string>, key: string)
    requires (forall key | key in order :: key in entries) && EntriesStrict(entries, order, mapping)
    requires Renamed(entries, order, mapping).Some? && key in order
    ensures HasUserValue(entries, mapping, Renamed(entries, order, mapping).value, key)
    decreases |order|
  {
    var n := |order| - 1;
    var init, last := order[..n], order[n];
    EntriesStrictInit(entries, order, mapping);
    if key in init {
      RenamedAgrees(entries, init, mapping, key);
      var before := Renamed(entries, init, mapping).value;
      if UserName(mapping, key) == UserName(mapping, last) {
        assert LooseEq(before[UserName(mapping, last)], entries[last]);
        assert entries[key] == entries[last];
      }
    } else {
      assert key == last;
    }
  }

  /** The values under the template's own names. */
  function Pulled(occs: seq<Occurrence>, mapping: map<string, string>, final: map<string, Value>): map<string, Value>
    requires forall k | 0 <= k < |occs| :: UserName(mapping, occs[k].name) in final
  {
    map k | 0 <= k < |occs| :: occs[k].name := final[UserName(mapping, occs[k].name)]
  }

  /** Every entry is the value of an occurrence. */
  lemma {:induction false} EntryComesFrom(occs: seq<Occurrence>, key: string) returns (k: nat)
    requires RecordedAll(EMPTY, occs).Some? && key in RecordedAll(EMPTY, occs).value.entries
    ensures k < |occs| && occs[k].name == key && occs[k].value == RecordedAll(EMPTY, occs).value.entries[key]
    decreases |occs|
  {
    var n := |occs| - 1;
    if occs[n].name == key {
      k := n;
    } else {
      k := EntryComesFrom(occs[..n], key);
      assert occs[..n][k] == occs[k];
    }
  }

  lemma StrictEntries(occs: seq<Occurrence>, mapping: map<string, string>, d: Dict)
    requires RecordedAll(EMPTY, occs) == Some(d) && Listed(d) && UserStrict(occs, mapping)
    ensures EntriesStrict(d.entries, d.order, mapping)
  {
    forall a, b | a in d.order && b in d.order && UserName(mapping, a) == UserName(mapping, b) && LooseEq(d.entries[a], d.entries[b])
      ensures d.entries[a] == d.entries[b]
    {
      var j := EntryComesFrom(occs, a);
      var k := EntryComesFrom(occs, b);
    }
  }

  lemma StrictAgrees(occs: seq<Occurrence>, mapping: map<string, string>, d: Dict)
    requires RecordedAll(EMPTY, occs) == Some(d) && UserStrict(occs, mapping)
    ensures Agrees(occs, d.entries)
  {
    StrictRepeatsAreEqual(occs);
    AgreesIffRepeatsEqual(occs);
  }

  lemma EntriesToUser(occs: seq<Occurrence>, mapping: map<string, string>, d: Dict, final: map<string, Value>)
    requires Listed(d) && Agrees(occs, d.entries) && EntriesStrict(d.entries, d.order, mapping)
    requires Renamed(d.entries, d.order, mapping) == Some(final)
    ensures UserAgrees(occs, mapping, final)
  {
    forall k | 0 <= k < |occs|
      ensures UserName(mapping, occs[k].name) in final && final[UserName(mapping, occs[k].name)] == occs[k].value
    {
      RenamedAgrees(d.entries, d.order, mapping, occs[k].name);
    }
  }

  lemma UserBindingAgrees(t: Node, i: Node, names: seq<string>)
    requires UserBinding(t, i, names).Some?
    requires UserStrict(Occurrences(t, i).value, NamesUpTo(names, |names|))
    ensures UserAgrees(Occurrences(t, i).value, NamesUpTo(names, |names|), UserBinding(t, i, names).value)
  {
    var occs, mapping := Occurrences(t, i).value, NamesUpTo(names, |names|);
    var d := RecordedAll(EMPTY, occs).value;
    RecordedListed(occs);
    StrictAgrees(occs, mapping, d);
    StrictEntries(occs, mapping, d);
    EntriesToUser(occs, mapping, d, UserBinding(t, i, names).value);
  }

  /** Occurrences that come under one user name met equal values. */
  predicate UserRepeatsEqual(occs: seq<Occurrence>, mapping: map<string, string>) {
    forall j, k | 0 <= j < |occs| && 0 <= k < |occs| && UserName(mapping, occs[j].name) == UserName(mapping, occs[k].name) ::
      occs[j].value == occs[k].value
  }

  lemma {:induction false} RenamedKeeps(entries: map<string, Value>, order: seq<string>, mapping: map<string, string>, key: string)
    requires forall a | a in order :: a in entries && DecentValue(entries[a])
    requires Renamed(entries, order, mapping).Some? && key in order
    ensures
      var final := Renamed(entries, order, mapping).value;
      UserName(mapping, key) in final && Keeps(entries[key], final[UserName(mapping, key)])
    decreases |order|
  {
    var n := |order| - 1;
    var last := order[n];
    if key in order[..n] {
      RenamedKeeps(entries, order[..n], mapping, key);
      var before, user := Renamed(entries, order[..n], mapping).value, UserName(mapping, last);
      if UserName(mapping, key) == user {
        LooseKeeps(before[user], entries[last]);
        KeepsTransitive(entries[key], before[user], entries[last]);
      }
    } else {
      assert key == last;
    }
  }

  /** A value under a user name is the entry of one of its keys. */
  lemma {:induction false} RenamedComesFrom(entries: map<string, Value>, order: seq<string>, mapping: map<string, string>, user: string)
    returns (key: string)
    requires forall a | a in order :: a in entries
    requires Renamed(entries, order, mapping).Some? && user in Renamed(entries, order, mapping).value
    ensures key in order && UserName(mapping, key) == user && Renamed(entries, order, mapping).value[user] == entries[key]
    decreases |order|
  {
    var n := |order| - 1;
    if UserName(mapping, order[n]) == user {
      key := order[n];
    } else {
      key := RenamedComesFrom(entries, order[..n], mapping, user);
    }
  }

  /** The user's value against one occurrence: it keeps what it must, and is the value of an occurrence
      under the same user name. */
  lemma UserValueKeeps(occs: seq<Occurrence>, mapping: map<string, string>, d: Dict, final: map<string, Value>, k: nat)
    returns (j: nat)
    requires Sourced(occs) && AllConstant(occs) && RecordedAll(EMPTY, occs) == Some(d) && Listed(d)
    requires Renamed(d.entries, d.order, mapping) == Some(final) && k < |occs|
    ensures
      var user := UserName(mapping, occs[k].name);
      && user in final && Keeps(occs[k].value, final[user]) && DecentValue(final[user])
      && j < |occs| && UserName(mapping, occs[j].name) == user && occs[j].value == final[user]
  {
    var user := UserName(mapping, occs[k].name);
    EntriesKeep(occs);
    forall a | a in d.order ensures a in d.entries && DecentValue(d.entries[a]) {
      var l := EntryComesFrom(occs, a);
    }
    RenamedKeeps(d.entries, d.order, mapping, occs[k].name);
    KeepsTransitive(occs[k].value, d.entries[occs[k].name], final[user]);
    var key := RenamedComesFrom(d.entries, d.order, mapping, user);
    j := EntryComesFrom(occs, key);
  }

  predicate UserKept(occs: seq<Occurrence>, mapping: map<string, string>, final: map<string, Value>) {
    forall k | 0 <= k < |occs| ::
      var user := UserName(mapping, occs[k].name);
      user in final && Keeps(occs[k].value, final[user]) && DecentValue(final[user])
  }

  lemma UserValuesKept(occs: seq<Occurrence>, mapping: map<string, string>, d: Dict, final: map<string, Value>)
    requires Sourced(occs) && AllConstant(occs) && RecordedAll(EMPTY, occs) == Some(d) && Listed(d)
    requires Renamed(d.entries, d.order, mapping) == Some(final)
    ensures UserKept(occs, mapping, final)
    ensures UserAgrees(occs, mapping, final) <==> UserRepeatsEqual(occs, mapping)
  {
    forall k | 0 <= k < |occs|
      ensures
        var user := UserName(mapping, occs[k].name);
        && user in final && Keeps(occs[k].value, final[user]) && DecentValue(final[user])
        && (UserRepeatsEqual(occs, mapping) ==> final[user] == occs[k].value)
    {
      var j := UserValueKeeps(occs, mapping, d, final, k);
    }
  }

  lemma PulledReadsBack(occs: seq<Occurrence>, mapping: map<string, string>, final: map<string, Value>)
    requires Sourced(occs) && AllConstant(occs) && UserKept(occs, mapping, final)
    ensures KindsAgree(occs, Pulled(occs, mapping, final))
    ensures AllReadBack(occs, Pulled(occs, mapping, final)) <==> AllPlain(occs) && UserAgrees(occs, mapping, final)
  {
    var pulled := Pulled(occs, mapping, final);
    forall k | 0 <= k < |occs|
      ensures occs[k].name in pulled && pulled[occs[k].name] == final[UserName(mapping, occs[k].name)]
    {
    }
    AllReadBackExactly(occs, pulled);
  }

  lemma UserReadsExactly(t: Node, i: Node, occs: seq<Occurrence>, mapping: map<string, string>, d: Dict, final: map<string, Value>)
    requires Occurrences(t, i) == Some(occs) && AllConstant(occs)
    requires RecordedAll(EMPTY, occs) == Some(d) && Listed(d) && Renamed(d.entries, d.order, mapping) == Some(final)
    ensures UserKept(occs, mapping, final)
    ensures UserAgrees(occs, mapping, final) <==> UserRepeatsEqual(occs, mapping)
    ensures Reads(Instance(t, Pulled(occs, mapping, final)), i) <==> AllPlain(occs) && UserRepeatsEqual(occs, mapping)
  {
    InstanceReads(t, i, map[]);
    UserValuesKept(occs, mapping, d, final);
    PulledReadsBack(occs, mapping, final);
    InstanceReads(t, i, Pulled(occs, mapping, final));
  }

  /** For a statement with the template's key, the user's bindings put back into the template read as
      the statement exactly when the constants they came from are plain and those that come under one
      user name were equal. */
  lemma UserBindingSound(t: Node, i: Node, names: seq<string>)
    requires KeyOf(t) == KeyOf(i) && Incoming(i) && TypesBare(t)
    requires UserBinding(t, i, names).Some?
    ensures
      var occs, mapping, final := Occurrences(t, i).value, NamesUpTo(names, |names|), UserBinding(t, i, names).value;
      && AllConstant(occs) && UserKept(occs, mapping, final)
      && (UserAgrees(occs, mapping, final) <==> UserRepeatsEqual(occs, mapping))
      && (UserStrict(occs, mapping) ==> UserRepeatsEqual(occs, mapping))
      && (Reads(Instance(t, Pulled(occs, mapping, final)), i) <==> AllPlain(occs) && UserRepeatsEqual(occs, mapping))
      && forall k | 0 <= k < |names| :: names[k] in final
  {
    var occs, mapping, final := Occurrences(t, i).value, NamesUpTo(names, |names|), UserBinding(t, i, names).value;
    KeysBindConstants(t, i);
    RecordedListed(occs);
    UserReadsExactly(t, i, occs, mapping, RecordedAll(EMPTY, occs).value, final);
    if UserStrict(occs, mapping) {
      UserBindingAgrees(t, i, names);
    }
  }

  // ---- packed literals ------------------------------------------------------------------------

  function GroupName(k: nat): string {
    "__grp" + Digits(k)
  }

  function GroupNames(n: nat): (names: seq<string>)
    ensures |names| == n
  {
    seq(n, k requires 0 <= k < n => GroupName(k))
  }

  /** The value bound for each group. */
  function GroupValues(raw: map<string, Value>, n: nat): (values: seq<Value>)
    requires forall k | 0 <= k < n :: GroupNames(n)[k] in raw
    ensures |values| == n
  {
    seq(n, k requires 0 <= k < n => raw[GroupNames(n)[k]])
  }

  /** The binder: one `?` for each group, each bound literal split into its parameters. */
  method BindTemplate(templateSql: string, parse: Option<Node>, incoming: Option<Node>, specs: seq<Spec>)
    returns (result: Option<map<string, Value>>, ghost groups: seq<seq<Spec>>, ghost raw: Option<map<string, Value>>,
             ghost parts: seq<map<string, Value>>)
    ensures Flat(groups) == specs && Grouped(groups)
    ensures raw ==
      if MarkersBefore(templateSql, |templateSql|) == |groups| && parse.Some? && incoming.Some?
      then UserBinding(parse.value, incoming.value, GroupNames(|groups|)) else None
    ensures raw.Some? ==> forall k | 0 <= k < |groups| :: GroupNames(|groups|)[k] in raw.value
    ensures result.Some? ==>
      raw.Some? && AllCarry(groups, GroupValues(raw.value, |groups|), parts) && Merged(parts) == result
    ensures result.None? ==>
      raw.None? || forall all :: AllCarry(groups, GroupValues(raw.value, |groups|), all) ==> Merged(all) == None
    ensures specs != [] && MarkersBefore(templateSql, |templateSql|) == 0 ==> result.None?
  {
    var gs := BindingGroups(specs);
    groups, parts := gs, [];
    var bound := UnifyAndBind(templateSql, parse, incoming, GroupNames(|gs|));
    raw := bound;
    if bound.None? {
      return None, groups, raw, parts;
    }
    result, parts := MergeSplit(gs, GroupValues(bound.value, |gs|));
  }
}
