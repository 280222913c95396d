/** Exactly when a statement binds: which lists a whole-list marker takes, and which values a repeated name
    may meet. */
module BindingExact {
  import opened Wrappers
  import opened SqlTree
  import opened Unify
  import opened BindingSound
  import opened PlaceholderNames
  import opened BindTemplate

  // ---- what an expression is bound as ---------------------------------------------------

  /** The values of the literals in a tree, in order. */
  function Literals(n: Node): seq<Scalar> {
    match n
    case StringLit(s) => [Text(s)]
    case NumberLit(_, num) => [Number(num)]
    case Paren(e) => Literals(e)
    case Neg(e) => Literals(e)
    case Cast(e, to) => Literals(e) + Literals(to)
    case In(e, list) => Literals(e) + ListLiterals(list)
    case Op(_, args) => FirstLiterals(args, |args|)
    case _ => []
  }

  function ListLiterals(list: InList): seq<Scalar> {
    match list
    case Field(f) => Literals(f)
    case Members(ms) => FirstLiterals(ms, |ms|)
    case Subquery(q) => Literals(q)
  }

  function FirstLiterals(ns: seq<Node>, k: nat): seq<Scalar>
    requires k <= |ns|
    decreases ns, k
  {
    if k == 0 then [] else FirstLiterals(ns, k - 1) + Literals(ns[k - 1])
  }

  predicate Counts(found: Found, literals: seq<Scalar>) {
    match |literals|
    case 0 => found == NoLiteral
    case 1 => found == OneLiteral(literals[0])
    case _ => found == MoreLiterals
  }

  lemma CountsBoth(a: Found, b: Found, x: seq<Scalar>, y: seq<Scalar>)
    requires Counts(a, x) && Counts(b, y)
    ensures Counts(Both(a, b), x + y)
  {
    if x == [] {
      assert x + y == y;
    }
  }

  lemma {:induction false} LiteralsCounted(n: Node)
    ensures Counts(LiteralsIn(n), Literals(n))
  {
    match n
    case Paren(e) => LiteralsCounted(e);
    case Neg(e) => LiteralsCounted(e);
    case Cast(e, to) =>
      LiteralsCounted(e);
      LiteralsCounted(to);
      CountsBoth(LiteralsIn(e), LiteralsIn(to), Literals(e), Literals(to));
    case In(e, list) =>
      LiteralsCounted(e);
      ListLiteralsCounted(list);
      CountsBoth(LiteralsIn(e), LiteralsInList(list), Literals(e), ListLiterals(list));
    case Op(_, args) => FirstLiteralsCounted(args, |args|);
    case _ =>
  }

  lemma {:induction false} ListLiteralsCounted(list: InList)
    ensures Counts(LiteralsInList(list), ListLiterals(list))
  {
    match list
    case Field(f) => LiteralsCounted(f);
    case Members(ms) => FirstLiteralsCounted(ms, |ms|);
    case Subquery(q) => LiteralsCounted(q);
  }

  lemma {:induction false} FirstLiteralsCounted(ns: seq<Node>, k: nat)
    requires k <= |ns|
    ensures Counts(LiteralsInFirst(ns, k), FirstLiterals(ns, k))
    decreases ns, k
  {
    if k > 0 {
      FirstLiteralsCounted(ns, k - 1);
      LiteralsCounted(ns[k - 1]);
      CountsBoth(LiteralsInFirst(ns, k - 1), LiteralsIn(ns[k - 1]), FirstLiterals(ns, k - 1), Literals(ns[k - 1]));
    }
  }

  /** At a placeholder an expression is its one literal, or its text if it holds none or several; a sign
      turns a number around, makes a number of a boolean, and leaves the text of anything else. */
  lemma ValueExactly(n: Node)
    ensures !n.Paren? && !n.Neg? && !n.IsLeafConstant() ==>
      ValueOf(n) == if |Literals(n)| == 1 then Literals(n)[0] else Text(Render(n))
    ensures n.Paren? ==> ValueOf(n) == ValueOf(n.e)
    ensures n.Neg? ==>
      match ValueOf(n.e)
      case Number(num) => ValueOf(n).Number? && Amount(ValueOf(n).num) == -Amount(num)
      case Bool(b) => ValueOf(n) == Number(Int(if b then -1 else 0))
      case Text(_) => ValueOf(n) == Text(Render(n))
      case NoValue => ValueOf(n) == Text(Render(n))
  {
    LiteralsCounted(n);
  }

  // ---- what a whole-list marker takes ---------------------------------------------------

  /** Every node of a tree, itself included. */
  ghost function Inside(n: Node): set<Node> {
    {n} +
    match n
    case Paren(e) => Inside(e)
    case Neg(e) => Inside(e)
    case Cast(e, to) => Inside(e) + Inside(to)
    case In(e, list) => Inside(e) + InsideList(list)
    case Op(_, args) => InsideFirst(args, |args|)
    case _ => {}
  }

  ghost function InsideList(list: InList): set<Node> {
    match list
    case Field(f) => Inside(f)
    case Members(ms) => InsideFirst(ms, |ms|)
    case Subquery(q) => Inside(q)
  }

  ghost function InsideFirst(ns: seq<Node>, k: nat): set<Node>
    requires k <= |ns|
    decreases ns, k
  {
    if k == 0 then {} else InsideFirst(ns, k - 1) + Inside(ns[k - 1])
  }

  /** No NULL and no boolean among the nodes. */
  ghost predicate ValuesOnly(nodes: set<Node>) {
    forall x | x in nodes :: !x.Null? && !x.Boolean?
  }

  lemma {:induction false} HoldsMeans(n: Node)
    ensures HoldsNullOrBoolean(n) <==> !ValuesOnly(Inside(n))
  {
    match n
    case Paren(e) => HoldsMeans(e);
    case Neg(e) => HoldsMeans(e);
    case Cast(e, to) =>
      HoldsMeans(e);
      HoldsMeans(to);
    case In(e, list) =>
      HoldsMeans(e);
      ListHoldsMeans(list);
    case Op(_, args) =>
      forall k | 0 <= k < |args| ensures HoldsNullOrBoolean(args[k]) <==> !ValuesOnly(Inside(args[k])) {
        HoldsMeans(args[k]);
      }
      FirstValuesOnly(args, |args|);
    case _ =>
      assert n in Inside(n);
  }

  lemma {:induction false} ListHoldsMeans(list: InList)
    ensures ListHoldsNullOrBoolean(list) <==> !ValuesOnly(InsideList(list))
  {
    match list
    case Field(f) => HoldsMeans(f);
    case Members(ms) =>
      forall k | 0 <= k < |ms| ensures HoldsNullOrBoolean(ms[k]) <==> !ValuesOnly(Inside(ms[k])) {
        HoldsMeans(ms[k]);
      }
      FirstValuesOnly(ms, |ms|);
    case Subquery(q) => HoldsMeans(q);
  }

  lemma {:induction false} FirstValuesOnly(ns: seq<Node>, n: nat)
    requires n <= |ns|
    ensures ValuesOnly(InsideFirst(ns, n)) <==> forall k | 0 <= k < n :: ValuesOnly(Inside(ns[k]))
  {
    if n > 0 {
      FirstValuesOnly(ns, n - 1);
    }
  }

  /** A member of a list that can be bound: a number or a text, under any signs, or with a type. */
  ghost predicate Listable(n: Node) {
    match n
    case StringLit(_) => true
    case NumberLit(_, _) => true
    case Neg(e) => Listable(e)
    case Cast(e, to) => (e.StringLit? || e.NumberLit?) && ValuesOnly(Inside(to))
    case _ => false
  }

  lemma {:induction false} ListableMeans(n: Node)
    ensures IsConstant(n) && !HoldsNullOrBoolean(n) <==> Listable(n)
  {
    match n
    case Neg(e) => ListableMeans(e);
    case Cast(e, to) => HoldsMeans(to);
    case _ =>
  }

  /** A whole-list marker binds a list exactly if the left-hand sides match and every member is a signed or
      typed literal without NULL or boolean anywhere in it; then to the values of all members. */
  lemma ListBindsExactly(e: Node, name: string, e2: Node, ms: seq<Node>)
    ensures
      var occs := Occurrences(In(e, Field(Marker(name))), In(e2, Members(ms)));
      && (occs.Some? <==>
            && Occurrences(e, e2).Some? && name != "" && name != "?"
            && ms != [] && forall k | 0 <= k < |ms| :: Listable(ms[k]))
      && (occs.Some? ==>
            && |occs.value| == |Occurrences(e, e2).value| + 1
            && occs.value == Occurrences(e, e2).value + [Occurrence(name, Many(ValuesOf(ms)), ms)])
  {
    var t, i := Field(Marker(name)), Members(ms);
    forall k | 0 <= k < |ms| ensures IsConstant(ms[k]) && !HoldsNullOrBoolean(ms[k]) <==> Listable(ms[k]) {
      ListableMeans(ms[k]);
    }
    assert TakesList(t, i) <==> ms != [] && forall k | 0 <= k < |ms| :: Listable(ms[k]);
    assert Occurrences(In(e, t), In(e2, i)) == Append(Occurrences(e, e2), ListOccurrences(t, i));
  }

  // ---- anywhere in the statement -----------------------------------------------------------

  /** Matching t against i comes to match u against v. */
  predicate Faces(t: Node, i: Node, u: Node, v: Node)
    decreases t, i
  {
    || (t == u && i == v)
    || if t.Paren? then Faces(t.e, i, u, v)
       else if i.Paren? then Faces(t, i.e, u, v)
       else
         match t
         case Neg(e) => i.Neg? && Faces(e, i.e, u, v)
         case Cast(e, to) => i.Cast? && (Faces(e, i.e, u, v) || Faces(to, i.to, u, v))
         case In(e, list) => i.In? && (Faces(e, i.e, u, v) || ListFaces(list, i.list, u, v))
         case Op(_, args) => i.Op? && |i.args| == |args| && exists k | 0 <= k < |args| :: Faces(args[k], i.args[k], u, v)
         case _ => false
  }

  predicate ListFaces(t: InList, i: InList, u: Node, v: Node)
    decreases t, i
  {
    match (t, i)
    case (Field(f), Field(g)) => Faces(f, g, u, v)
    case (Members(ms), Members(ns)) => |ms| == |ns| && exists k | 0 <= k < |ms| :: Faces(ms[k], ns[k], u, v)
    case (Subquery(q), Subquery(r)) => Faces(q, r, u, v)
    case (_, _) => false
  }

  /** What does not match somewhere does not match as a whole. */
  lemma {:induction false} UnmatchedInside(t: Node, i: Node, u: Node, v: Node)
    requires Faces(t, i, u, v) && Occurrences(u, v).None?
    ensures Occurrences(t, i).None?
    decreases t, i
  {
    if t == u && i == v {
    } else if t.Paren? {
      UnmatchedInside(t.e, i, u, v);
    } else if i.Paren? {
      UnmatchedInside(t, i.e, u, v);
    } else {
      match t
      case Neg(e) => UnmatchedInside(e, i.e, u, v);
      case Cast(e, to) =>
        if Faces(e, i.e, u, v) {
          UnmatchedInside(e, i.e, u, v);
        } else {
          UnmatchedInside(to, i.to, u, v);
        }
      case In(e, list) =>
        if Faces(e, i.e, u, v) {
          UnmatchedInside(e, i.e, u, v);
        } else {
          ListUnmatchedInside(list, i.list, u, v);
        }
      case Op(_, args) =>
        var k :| 0 <= k < |args| && Faces(args[k], i.args[k], u, v);
        UnmatchedInside(args[k], i.args[k], u, v);
        FirstUnmatched(args, i.args, k, |args|);
    }
  }

  lemma {:induction false} ListUnmatchedInside(t: InList, i: InList, u: Node, v: Node)
    requires ListFaces(t, i, u, v) && Occurrences(u, v).None?
    ensures ListOccurrences(t, i).None?
    decreases t, i
  {
    match (t, i)
    case (Field(f), Field(g)) => UnmatchedInside(f, g, u, v);
    case (Members(ms), Members(ns)) =>
      var k :| 0 <= k < |ms| && Faces(ms[k], ns[k], u, v);
      UnmatchedInside(ms[k], ns[k], u, v);
      FirstUnmatched(ms, ns, k, |ms|);
    case (Subquery(q), Subquery(r)) => UnmatchedInside(q, r, u, v);
  }

  lemma {:induction false} FirstUnmatched(ts: seq<Node>, ns: seq<Node>, k: nat, n: nat)
    requires k < n <= |ts| == |ns| && Occurrences(ts[k], ns[k]).None?
    ensures FirstOccurrences(ts, ns, n).None?
    decreases n
  {
    if k < n - 1 {
      FirstUnmatched(ts, ns, k, n - 1);
    }
  }

  /** A statement that holds NULL or a boolean in a list facing a whole-list marker gets no binding. */
  lemma NullInListUnbound(t: Node, i: Node, names: seq<string>, e: Node, name: string, e2: Node, ms: seq<Node>, k: nat, x: Node)
    requires Faces(t, i, In(e, Field(Marker(name))), In(e2, Members(ms)))
    requires k < |ms| && x in Inside(ms[k]) && (x.Null? || x.Boolean?)
    ensures UserBinding(t, i, names).None?
  {
    ListBindsExactly(e, name, e2, ms);
    if Listable(ms[k]) {
      ListableHoldsNone(ms[k]);
    }
    UnmatchedInside(t, i, In(e, Field(Marker(name))), In(e2, Members(ms)));
  }

  lemma {:induction false} ListableHoldsNone(n: Node)
    requires Listable(n)
    ensures ValuesOnly(Inside(n))
  {
    if n.Neg? {
      ListableHoldsNone(n.e);
    }
  }

  // ---- repeated names -------------------------------------------------------------------------

  /** Occurrence j is the last of its name. */
  predicate IsLast(occs: seq<Occurrence>, name: string, j: nat) {
    j < |occs| && occs[j].name == name && forall l | j < l < |occs| :: occs[l].name != name
  }

  /** The last occurrence of the name, if there is one, has a loosely equal value. */
  predicate Fits(occs: seq<Occurrence>, name: string, value: Value) {
    forall j | 0 <= j < |occs| && IsLast(occs, name, j) :: LooseEq(occs[j].value, value)
  }

  /** Each repetition of a name has a value loosely equal to the last one met under it. */
  predicate Clashless(occs: seq<Occurrence>) {
    forall k | 0 <= k < |occs| :: Fits(occs[..k], occs[k].name, occs[k].value)
  }

  lemma ClashlessInit(occs: seq<Occurrence>)
    requires occs != []
    ensures
      var n := |occs| - 1;
      Clashless(occs) <==> Clashless(occs[..n]) && Fits(occs[..n], occs[n].name, occs[n].value)
  {
    var n := |occs| - 1;
    forall k | 0 <= k < n ensures occs[..n][..k] == occs[..k] && occs[..n][k] == occs[k] {
    }
  }

  lemma HeldIfMet(occs: seq<Occurrence>, name: string)
    requires RecordedAll(EMPTY, occs).Some?
    ensures name in RecordedAll(EMPTY, occs).value.entries <==> exists j | 0 <= j < |occs| :: occs[j].name == name
  {
    if name in RecordedAll(EMPTY, occs).value.entries {
      var k := EntryComesFrom(occs, name);
    }
    forall j | 0 <= j < |occs| && occs[j].name == name ensures name in RecordedAll(EMPTY, occs).value.entries {
      LastOccurrenceHeld(occs, j);
    }
  }

  lemma OneIsLast(occs: seq<Occurrence>, name: string, j: nat, k: nat)
    requires IsLast(occs, name, j) && IsLast(occs, name, k)
    ensures j == k
  {
  }

  lemma RecordsNext(occs: seq<Occurrence>, d: Dict, name: string, value: Value)
    requires RecordedAll(EMPTY, occs) == Some(d)
    ensures Recorded(d, name, value).Some? <==> Fits(occs, name, value)
  {
    if name in d.entries {
      var k := EntryComesFrom(occs, name);
      var last := LastOccurrence(occs, k);
      LastOccurrenceHeld(occs, last);
      assert IsLast(occs, name, last);
      forall j | 0 <= j < |occs| && IsLast(occs, name, j) ensures j == last {
        OneIsLast(occs, name, j, last);
      }
    } else {
      forall j | 0 <= j < |occs| ensures !IsLast(occs, name, j) {
        LastOccurrenceHeld(occs, j);
      }
    }
  }

  /** The dictionary takes the occurrences exactly if each repetition has the value last met, or one with the
      same text. */
  lemma {:induction false} RecordsExactly(occs: seq<Occurrence>)
    ensures RecordedAll(EMPTY, occs).Some? <==> Clashless(occs)
    decreases |occs|
  {
    if occs != [] {
      RecordsExactly(occs[..|occs| - 1]);
      ClashlessInit(occs);
      var before := RecordedAll(EMPTY, occs[..|occs| - 1]);
      if before.Some? {
        RecordsNext(occs[..|occs| - 1], before.value, occs[|occs| - 1].name, occs[|occs| - 1].value);
      }
    }
  }

  /** The entries of a dictionary, in order, under the user's names. */
  function ByUser(entries: map<string, Value>, order: seq<string>, mapping: map<string, string>): (occs: seq<Occurrence>)
    requires forall key | key in order :: key in entries
    ensures |occs| == |order|
  {
    seq(|order|, k requires 0 <= k < |order| => Occurrence(UserName(mapping, order[k]), entries[order[k]], []))
  }

  lemma {:induction false} RenamedIsRecorded(entries: map<string, Value>, order: seq<string>, mapping: map<string, string>)
    requires forall key | key in order :: key in entries
    ensures Renamed(entries, order, mapping) ==
      match RecordedAll(EMPTY, ByUser(entries, order, mapping)) case None => None case Some(d) => Some(d.entries)
    decreases |order|
  {
    if order != [] {
      var n := |order| - 1;
      RenamedIsRecorded(entries, order[..n], mapping);
      assert ByUser(entries, order, mapping)[..n] == ByUser(entries, order[..n], mapping);
    }
  }

  /** The values of the template's names that stand for one user name. */
  predicate UsersAgree(occs: seq<Occurrence>, mapping: map<string, string>)
    requires RecordedAll(EMPTY, occs).Some?
  {
    RecordedListed(occs);
    var d := RecordedAll(EMPTY, occs).value;
    Clashless(ByUser(d.entries, d.order, mapping))
  }

  predicate Met(occs: seq<Occurrence>, mapping: map<string, string>, name: string) {
    exists j | 0 <= j < |occs| :: UserName(mapping, occs[j].name) == name
  }

  /** A statement binds exactly if it matches, repeated names met loosely equal values, so did the
      template's names that stand for one of the user's, and every user name was met. */
  lemma BindsExactly(t: Node, i: Node, names: seq<string>)
    ensures
      var mapping := NamesUpTo(names, |names|);
      UserBinding(t, i, names).Some? <==>
        && Occurrences(t, i).Some? && Clashless(Occurrences(t, i).value)
        && RecordedAll(EMPTY, Occurrences(t, i).value).Some? && UsersAgree(Occurrences(t, i).value, mapping)
        && forall k | 0 <= k < |names| :: Met(Occurrences(t, i).value, mapping, names[k])
  {
    if Occurrences(t, i).Some? {
      RecordsExactly(Occurrences(t, i).value);
      if Clashless(Occurrences(t, i).value) {
        MatchedBinds(t, i, names, Occurrences(t, i).value);
      }
    }
  }

  lemma MatchedBinds(t: Node, i: Node, names: seq<string>, occs: seq<Occurrence>)
    requires Occurrences(t, i) == Some(occs) && RecordedAll(EMPTY, occs).Some?
    ensures
      var mapping := NamesUpTo(names, |names|);
      UserBinding(t, i, names).Some? <==> UsersAgree(occs, mapping) && forall k | 0 <= k < |names| :: Met(occs, mapping, names[k])
  {
    var mapping, d := NamesUpTo(names, |names|), RecordedAll(EMPTY, occs).value;
    RecordedListed(occs);
    UsersAgreeMeans(occs, mapping, d);
    if UsersAgree(occs, mapping) {
      AllMet(occs, d, mapping, names);
    }
  }

  lemma UsersAgreeMeans(occs: seq<Occurrence>, mapping: map<string, string>, d: Dict)
    requires RecordedAll(EMPTY, occs) == Some(d) && Listed(d)
    ensures UsersAgree(occs, mapping) <==> Renamed(d.entries, d.order, mapping).Some?
  {
    RecordsExactly(ByUser(d.entries, d.order, mapping));
    RenamedIsRecorded(d.entries, d.order, mapping);
  }

  lemma AllMet(occs: seq<Occurrence>, d: Dict, mapping: map<string, string>, names: seq<string>)
    requires RecordedAll(EMPTY, occs) == Some(d) && Listed(d) && Renamed(d.entries, d.order, mapping).Some?
    ensures (forall k | 0 <= k < |names| :: names[k] in Renamed(d.entries, d.order, mapping).value) <==>
            (forall k | 0 <= k < |names| :: Met(occs, mapping, names[k]))
  {
    forall k | 0 <= k < |names|
      ensures names[k] in Renamed(d.entries, d.order, mapping).value <==> Met(occs, mapping, names[k])
    {
      NameMet(occs, d, mapping, names[k]);
    }
  }

  lemma NameMet(occs: seq<Occurrence>, d: Dict, mapping: map<string, string>, name: string)
    requires RecordedAll(EMPTY, occs) == Some(d) && Listed(d) && Renamed(d.entries, d.order, mapping).Some?
    ensures name in Renamed(d.entries, d.order, mapping).value <==> Met(occs, mapping, name)
  {
    var byUser := ByUser(d.entries, d.order, mapping);
    RenamedIsRecorded(d.entries, d.order, mapping);
    HeldIfMet(byUser, name);
    if name in Renamed(d.entries, d.order, mapping).value {
      var k :| 0 <= k < |byUser| && byUser[k].name == name;
      var j := EntryComesFrom(occs, d.order[k]);
    }
    if j :| 0 <= j < |occs| && UserName(mapping, occs[j].name) == name {
      HeldIfMet(occs, occs[j].name);
      assert occs[j].name in d.order;
      var k :| 0 <= k < |d.order| && d.order[k] == occs[j].name;
      assert byUser[k].name == name;
    }
  }
}
