/** Structural unification of a template with an incoming statement, and what its bindings mean. */
module Unify {
  import opened Wrappers
  import opened SqlTree
  import QuoteScan

  /** One placeholder met: its name, the value it is bound to there, and the incoming expressions the
      value was read from (the members, for a whole list). */
  datatype Occurrence = Occurrence(name: string, value: Value, sources: seq<Node>)

  predicate IsAnonymous(name: string) {
    name == "" || name == "?"
  }

  // ---- the occurrences a match meets, in order -------------------------------------------

  function Append(a: Option<seq<Occurrence>>, b: Option<seq<Occurrence>>): Option<seq<Occurrence>> {
    if a.Some? && b.Some? then Some(a.value + b.value) else None
  }

  function Bind(name: string, value: Value, sources: seq<Node>): Option<seq<Occurrence>> {
    if IsAnonymous(name) then None else Some([Occurrence(name, value, sources)])
  }

  /** A whole-list marker takes a list of constants with no NULL or boolean. */
  predicate TakesList(t: InList, i: InList) {
    && t.Field? && t.field.Marker?
    && i.Members? && i.members != []
    && forall k | 0 <= k < |i.members| :: IsConstant(i.members[k]) && !HoldsNullOrBoolean(i.members[k])
  }

  function ValuesOf(ns: seq<Node>): seq<Scalar> {
    seq(|ns|, k requires 0 <= k < |ns| => ValueOf(ns[k]))
  }

  /** The occurrences met when t matches i; None if it does not. Anonymous markers were given names
      before, so one that is left does not match. */
  function Occurrences(t: Node, i: Node): Option<seq<Occurrence>>
    decreases t, i
  {
    if t.Paren? then Occurrences(t.e, i)
    else if i.Paren? then Occurrences(t, i.e)
    else
      match t
      case Marker(name) => Bind(name, One(ValueOf(i)), [i])
      case Parameter(name) => Some([Occurrence(name, One(ValueOf(i)), [i])])
      case Neg(e) => if i.Neg? then Occurrences(e, i.e) else None
      case Cast(e, to) => if i.Cast? then Append(Occurrences(e, i.e), Occurrences(to, i.to)) else None
      case In(e, list) => if i.In? then Append(Occurrences(e, i.e), ListOccurrences(list, i.list)) else None
      case Op(tag, args) =>
        if i.Op? && i.tag == tag && |i.args| == |args| then FirstOccurrences(args, i.args, |args|) else None
      case _ => if t == i then Some([]) else None
  }

  function ListOccurrences(t: InList, i: InList): Option<seq<Occurrence>>
    decreases t, i
  {
    if TakesList(t, i) then Bind(t.field.name, Many(ValuesOf(i.members)), i.members)
    else
      match (t, i)
      case (Field(f), Field(g)) => Occurrences(f, g)
      case (Members(ms), Members(ns)) => if |ms| == |ns| then FirstOccurrences(ms, ns, |ms|) else None
      case (Subquery(q), Subquery(r)) => Occurrences(q, r)
      case (_, _) => None
  }

  /** The occurrences of the first k pairs. */
  function FirstOccurrences(ts: seq<Node>, ns: seq<Node>, k: nat): Option<seq<Occurrence>>
    requires k <= |ts| == |ns|
    decreases ts, ns, k
  {
    if k == 0 then Some([]) else Append(FirstOccurrences(ts, ns, k - 1), Occurrences(ts[k - 1], ns[k - 1]))
  }

  // ---- recording them -----------------------------------------------------------------------

  /** A dictionary, with its keys in order of first insertion. */
  datatype Dict = Dict(entries: map<string, Value>, order: seq<string>)

  function Recorded(d: Dict, name: string, value: Value): Option<Dict> {
    if name in d.entries && !LooseEq(d.entries[name], value) then None
    else Some(Dict(d.entries[name := value], if name in d.entries then d.order else d.order + [name]))
  }

  function RecordedAll(d: Dict, occs: seq<Occurrence>): Option<Dict> {
    if occs == [] then Some(d)
    else
      match RecordedAll(d, occs[..|occs| - 1])
      case None => None
      case Some(d2) => Recorded(d2, occs[|occs| - 1].name, occs[|occs| - 1].value)
  }

  lemma AppendInit<T>(a: seq<T>, b: seq<T>)
    requires b != []
    ensures (a + b)[..|a + b| - 1] == a + b[..|b| - 1] && (a + b)[|a + b| - 1] == b[|b| - 1]
  {
  }

  lemma {:induction false} RecordedAppend(d: Dict, a: seq<Occurrence>, b: seq<Occurrence>)
    ensures RecordedAll(d, a + b) ==
      match RecordedAll(d, a) case None => None case Some(d2) => RecordedAll(d2, b)
    decreases |b|
  {
    if b == [] {
      assert a + b == a;
    } else {
      AppendInit(a, b);
      RecordedAppend(d, a, b[..|b| - 1]);
    }
  }

  /** What a run of the unifier comes to, told from the occurrences it meets. */
  predicate Comes(before: Dict, occs: Option<seq<Occurrence>>, ok: bool, after: Dict) {
    var all := if occs.Some? then RecordedAll(before, occs.value) else None;
    (ok <==> all.Some?) && (ok ==> all == Some(after))
  }

  lemma ComesAppend(d0: Dict, a: Option<seq<Occurrence>>, d1: Dict, b: Option<seq<Occurrence>>, ok: bool, d2: Dict)
    requires Comes(d0, a, true, d1) && Comes(d1, b, ok, d2)
    ensures Comes(d0, Append(a, b), ok, d2)
  {
    if b.Some? {
      RecordedAppend(d0, a.value, b.value);
    }
  }

  lemma ComesFails(d0: Dict, a: Option<seq<Occurrence>>, d1: Dict, b: Option<seq<Occurrence>>, d2: Dict)
    requires Comes(d0, a, false, d1)
    ensures Comes(d0, Append(a, b), false, d2)
  {
    if a.Some? && b.Some? {
      RecordedAppend(d0, a.value, b.value);
    }
  }

  lemma ComesNext(before: Dict, ts: seq<Node>, ns: seq<Node>, k: nat, between: Dict, ok: bool, after: Dict)
    requires k < |ts| == |ns| && Comes(before, FirstOccurrences(ts, ns, k), true, between)
    requires Comes(between, Occurrences(ts[k], ns[k]), ok, after)
    ensures Comes(before, FirstOccurrences(ts, ns, k + 1), ok, after)
  {
    ComesAppend(before, FirstOccurrences(ts, ns, k), between, Occurrences(ts[k], ns[k]), ok, after);
  }

  /** The unifier: it fills one dictionary as it walks both trees. */
  class Unifier {
    var bound: Dict

    constructor ()
      ensures bound == Dict(map[], [])
    {
      bound := Dict(map[], []);
    }

    method Record(name: string, value: Value, ghost sources: seq<Node>) returns (ok: bool)
      modifies this
      ensures Comes(old(bound), Some([Occurrence(name, value, sources)]), ok, bound)
    {
      assert RecordedAll(bound, []) == Some(bound);
      assert [Occurrence(name, value, sources)][..0] == [];
      if name in bound.entries && !LooseEq(bound.entries[name], value) {
        return false;
      }
      bound := Dict(bound.entries[name := value], if name in bound.entries then bound.order else bound.order + [name]);
      ok := true;
    }

    method BindPlaceholder(name: string, value: Value, ghost sources: seq<Node>) returns (ok: bool)
      modifies this
      ensures Comes(old(bound), Bind(name, value, sources), ok, bound)
    {
      if IsAnonymous(name) {
        return false;
      }
      ok := Record(name, value, sources);
    }

    method Unify(template: Node, incoming: Node) returns (ok: bool)
      modifies this
      ensures Comes(old(bound), Occurrences(template, incoming), ok, bound)
      decreases template, incoming
    {
      var t, i := template, incoming;
      while t.Paren?
        invariant Occurrences(t, i) == Occurrences(template, incoming)
        invariant t == template || t < template
        decreases t
      {
        t := t.e;
      }
      while i.Paren?
        invariant Occurrences(t, i) == Occurrences(template, incoming)
        invariant i == incoming || i < incoming
        decreases i
      {
        i := i.e;
      }
      match t {
        case Marker(name) => ok := BindPlaceholder(name, One(ValueOf(i)), [i]);
        case Parameter(name) => ok := Record(name, One(ValueOf(i)), [i]);
        case Neg(e) =>
          if i.Neg? {
            ok := Unify(e, i.e);
          } else {
            ok := false;
          }
        case Cast(e, to) =>
          if i.Cast? {
            ok := Unify(e, i.e);
            ghost var between := bound;
            if ok {
              ok := Unify(to, i.to);
              ComesAppend(old(bound), Occurrences(e, i.e), between, Occurrences(to, i.to), ok, bound);
            } else {
              ComesFails(old(bound), Occurrences(e, i.e), between, Occurrences(to, i.to), bound);
            }
          } else {
            ok := false;
          }
        case In(e, list) =>
          if i.In? {
            ok := Unify(e, i.e);
            ghost var between := bound;
            if ok {
              ok := UnifyList(list, i.list);
              ComesAppend(old(bound), Occurrences(e, i.e), between, ListOccurrences(list, i.list), ok, bound);
            } else {
              ComesFails(old(bound), Occurrences(e, i.e), between, ListOccurrences(list, i.list), bound);
            }
          } else {
            ok := false;
          }
        case Op(tag, args) =>
          if i.Op? && i.tag == tag && |i.args| == |args| {
            ok := UnifyAll(args, i.args);
          } else {
            ok := false;
          }
        case _ => ok := t == i;
      }
    }

    method UnifyList(t: InList, i: InList) returns (ok: bool)
      modifies this
      ensures Comes(old(bound), ListOccurrences(t, i), ok, bound)
      decreases t, i
    {
      if t.Field? && t.field.Marker? && i.Members? && i.members != [] {
        if forall k | 0 <= k < |i.members| :: IsConstant(i.members[k]) && !HoldsNullOrBoolean(i.members[k]) {
          ok := BindPlaceholder(t.field.name, Many(ValuesOf(i.members)), i.members);
          return;
        }
      }
      match (t, i)
      case (Field(f), Field(g)) => ok := Unify(f, g);
      case (Members(ms), Members(ns)) =>
        if |ms| == |ns| {
          ok := UnifyAll(ms, ns);
        } else {
          ok := false;
        }
      case (Subquery(q), Subquery(r)) => ok := Unify(q, r);
      case (_, _) => ok := false;
    }

    method UnifyAll(ts: seq<Node>, ns: seq<Node>) returns (ok: bool)
      requires |ts| == |ns|
      modifies this
      ensures Comes(old(bound), FirstOccurrences(ts, ns, |ts|), ok, bound)
      decreases ts, ns
    {
      ghost var before := bound;
      for k := 0 to |ts|
        invariant Comes(before, FirstOccurrences(ts, ns, k), true, bound)
      {
        ghost var between := bound;
        ok := Unify(ts[k], ns[k]);
        if !ok {
          ComesNext(before, ts, ns, k, between, false, bound);
          NoneForGood(before, ts, ns, k + 1, bound);
          return;
        }
        ComesNext(before, ts, ns, k, between, true, bound);
      }
      ok := true;
    }
  }

  lemma {:induction false} NoneForGood(before: Dict, ts: seq<Node>, ns: seq<Node>, k: nat, after: Dict)
    requires k <= |ts| == |ns| && Comes(before, FirstOccurrences(ts, ns, k), false, after)
    ensures Comes(before, FirstOccurrences(ts, ns, |ts|), false, after)
    decreases |ts| - k
  {
    if k < |ts| {
      ComesFails(before, FirstOccurrences(ts, ns, k), after, Occurrences(ts[k], ns[k]), after);
      NoneForGood(before, ts, ns, k + 1, after);
    }
  }

  // ---- what a binding means ---------------------------------------------------------------------

  /** The constant that a value is written as. */
  function NodeOf(v: Scalar): Node {
    match v
    case Text(s) => StringLit(s)
    case Number(Int(n)) => if n < 0 then Neg(NumberLit(Shown(Int(-n)), Int(-n))) else NumberLit(Shown(Int(n)), Int(n))
    case Number(Dec(negative, magnitude, shown)) =>
      if negative then Neg(NumberLit(shown, Dec(false, magnitude, shown))) else NumberLit(shown, v.num)
    case Bool(b) => Boolean(b)
    case NoValue => Null
  }

  function NodesOf(vs: seq<Scalar>): seq<Node> {
    seq(|vs|, k requires 0 <= k < |vs| => NodeOf(vs[k]))
  }

  /** What a placeholder becomes; one that has no fitting value stays. */
  function Filled(n: Node, name: string, bound: map<string, Value>): Node {
    if name in bound && bound[name].One? then NodeOf(bound[name].scalar) else n
  }

  /** The template with its placeholders replaced by their values. */
  function Instance(t: Node, bound: map<string, Value>): Node {
    match t
    case Marker(name) => Filled(t, name, bound)
    case Parameter(name) => Filled(t, name, bound)
    case Paren(e) => Paren(Instance(e, bound))
    case Neg(e) => Neg(Instance(e, bound))
    case Cast(e, to) => Cast(Instance(e, bound), Instance(to, bound))
    case In(e, list) => In(Instance(e, bound), ListInstance(list, bound))
    case Op(tag, args) => Op(tag, seq(|args|, k requires 0 <= k < |args| => Instance(args[k], bound)))
    case _ => t
  }

  function ListInstance(list: InList, bound: map<string, Value>): InList {
    match list
    case Field(f) =>
      if f.Marker? && f.name in bound && bound[f.name].Many? then Members(NodesOf(bound[f.name].items))
      else Field(Instance(f, bound))
    case Members(ms) => Members(seq(|ms|, k requires 0 <= k < |ms| => Instance(ms[k], bound)))
    case Subquery(q) => Subquery(Instance(q, bound))
  }

  predicate SameNumber(n: Node, num: Num) {
    n.NumberLit? && n.num == num
  }

  /** b reads as a: the same tree up to parentheses, the spelling of a number, and a cast directly
      around one literal. */
  predicate Reads(a: Node, b: Node)
    decreases a, b
  {
    if a.Paren? then Reads(a.e, b)
    else if b.Paren? then Reads(a, b.e)
    else
      match a
      case StringLit(_) => b == a || (b.Cast? && b.e == a)
      case NumberLit(_, num) => SameNumber(b, num) || (b.Cast? && SameNumber(b.e, num))
      case Neg(e) => b.Neg? && Reads(e, b.e)
      case Cast(e, to) => b.Cast? && Reads(e, b.e) && Reads(to, b.to)
      case In(e, list) => b.In? && Reads(e, b.e) && ListReads(list, b.list)
      case Op(tag, args) =>
        b.Op? && b.tag == tag && |b.args| == |args| && forall k | 0 <= k < |args| :: Reads(args[k], b.args[k])
      case _ => a == b
  }

  predicate ListReads(a: InList, b: InList)
    decreases a, b
  {
    match (a, b)
    case (Field(f), Field(g)) => Reads(f, g)
    case (Members(ms), Members(ns)) => |ms| == |ns| && forall k | 0 <= k < |ms| :: Reads(ms[k], ns[k])
    case (Subquery(q), Subquery(r)) => Reads(q, r)
    case (_, _) => false
  }

  /** The characters of a shown decimal. */
  predicate NumberText(s: string) {
    forall i | 0 <= i < |s| :: '0' <= s[i] <= '9' || s[i] in ".eE+-"
  }

  /** Number literals carry no sign; a minus sign is a node of its own. */
  predicate Unsigned(num: Num) {
    match num
    case Int(n) => n >= 0
    case Dec(negative, magnitude, shown) => !negative && magnitude >= 0.0 && NumberText(shown)
  }

  /** Every number literal of the tree is one. */
  predicate SignsApart(n: Node) {
    match n
    case NumberLit(_, num) => Unsigned(num)
    case Paren(e) => SignsApart(e)
    case Neg(e) => SignsApart(e)
    case Cast(e, to) => SignsApart(e) && SignsApart(to)
    case In(e, list) => SignsApart(e) && ListSignsApart(list)
    case Op(_, args) => forall k | 0 <= k < |args| :: SignsApart(args[k])
    case _ => true
  }

  predicate ListSignsApart(list: InList) {
    match list
    case Field(f) => SignsApart(f)
    case Members(ms) => forall k | 0 <= k < |ms| :: SignsApart(ms[k])
    case Subquery(q) => SignsApart(q)
  }

  /** A constant whose value can be written back: not a cast of NULL or a boolean, not a cast whose
      type holds a literal of its own, not the negation of a text or of zero. */
  predicate Plain(n: Node) {
    match n
    case StringLit(_) => true
    case NumberLit(_, num) => Unsigned(num)
    case Boolean(_) => true
    case Null => true
    case Neg(e) => e.NumberLit? && Unsigned(e.num) && Amount(e.num) != 0.0
    case Cast(e, to) => e.IsLiteral() && Plain(e) && LiteralsIn(to) == NoLiteral
    case _ => false
  }

  lemma RenderLonger(to: Node)
    ensures forall s :: Text(Render(Cast(StringLit(s), to))) != Text(s)
  {
    forall s ensures Render(Cast(StringLit(s), to)) != s {
      DoubledNotShorter(s, '\'');
      assert |Render(StringLit(s))| > |s|;
    }
  }

  lemma {:induction false} DoubledNotShorter(s: string, q: char)
    ensures |QuoteScan.Doubled(s, q)| >= |s|
    decreases |s|
  {
    if s != "" {
      DoubledNotShorter(s[..|s| - 1], q);
    }
  }

  /** A constant as an incoming statement holds it. */
  predicate IncomingConstant(n: Node) {
    Collapses(n) && NoMarkers(n) && SignsApart(n)
  }

  /** The text of a cast, which is bound where the cast has no single literal. */
  predicate CastText(v: Scalar) {
    v.Text? && |v.s| >= 5 && v.s[..5] == "CAST("
  }

  /** What a number bound from a constant looks like: no negative zero, and shown as a number. */
  predicate Decent(v: Scalar) {
    v.Number? && v.num.Dec? ==> NumberText(v.num.shown) && (v.num.negative ==> v.num.magnitude != 0.0)
  }

  lemma NegatedTextUnread(v: Scalar, s: string)
    ensures !Reads(NodeOf(v), Neg(StringLit(s))) && !Plain(Neg(StringLit(s)))
  {
  }

  lemma OtherValueUnread(v: Scalar, text: string, num: Num)
    requires !v.Number?
    ensures !Reads(NodeOf(v), Neg(NumberLit(text, num))) && v != ValueOf(Neg(NumberLit(text, num)))
  {
    assert ValueOf(NumberLit(text, num)) == Number(num);
  }

  lemma NegationFits(v: Scalar, e: Node)
    requires e.IsLiteral() && SignsApart(e) && Decent(v)
    ensures Reads(NodeOf(v), Neg(e)) <==> Plain(Neg(e)) && v == ValueOf(Neg(e))
  {
    match e
    case StringLit(s) => NegatedTextUnread(v, s);
    case NumberLit(text, num) =>
      if v.Number? {
        NegatedNumberFits(v.num, num, e);
        assert ValueOf(e) == Number(num);
      } else {
        OtherValueUnread(v, text, num);
      }
    case _ =>
  }

  lemma NegatedNumberFits(num: Num, inner: Num, e: Node)
    requires e.NumberLit? && e.num == inner && Unsigned(inner) && Decent(Number(num))
    ensures Reads(NodeOf(Number(num)), Neg(e)) <==> Amount(inner) != 0.0 && num == NegateNum(inner)
  {
    match num
    case Int(n) => assert Reads(NodeOf(Number(num)), Neg(e)) <==> n < 0 && inner == Int(-n);
    case Dec(negative, magnitude, shown) =>
      assert Reads(NodeOf(Number(num)), Neg(e)) <==> negative && inner == Dec(false, magnitude, shown);
  }

  lemma CastFits(v: Scalar, e: Node, to: Node)
    requires e.IsLeafConstant() && SignsApart(e) && (CastText(ValueOf(Cast(e, to))) ==> v == ValueOf(Cast(e, to)))
    ensures Reads(NodeOf(v), Cast(e, to)) <==> Plain(Cast(e, to)) && v == ValueOf(Cast(e, to))
  {
    var n := Cast(e, to);
    assert LiteralsIn(n) == Both(LiteralsIn(e), LiteralsIn(to));
    if !e.IsLiteral() {
      assert !Reads(NodeOf(v), n);
    } else if LiteralsIn(to) == NoLiteral {
      assert ValueOf(n) == ConstantValue(e);
      LiteralFits(v, e);
    } else {
      assert ValueOf(n) == Text(Render(n));
      assert Render(n)[..5] == "CAST(";
      RenderLonger(to);
    }
  }

  lemma LiteralFits(v: Scalar, e: Node)
    requires e.IsLiteral() && SignsApart(e)
    ensures forall to :: Reads(NodeOf(v), Cast(e, to)) <==> v == ConstantValue(e)
    ensures Reads(NodeOf(v), e) <==> v == ConstantValue(e)
  {
  }

  /** A value bound from constants, written as one, reads as a constant exactly when that one is plain
      and has the same value; unless the constant's value is a cast's text, which is bound to itself. */
  lemma ValueReadsBack(v: Scalar, n: Node)
    requires IncomingConstant(n) && Decent(v) && (CastText(ValueOf(n)) ==> v == ValueOf(n))
    ensures Reads(NodeOf(v), n) <==> Plain(n) && v == ValueOf(n)
  {
    match n
    case StringLit(_) => LiteralFits(v, n);
    case NumberLit(_, _) => LiteralFits(v, n);
    case Neg(e) =>
      assert NoMarkers(e);
      NegationFits(v, e);
    case Cast(e, to) =>
      assert NoMarkers(e);
      CastFits(v, e, to);
    case _ =>
  }

  // ---- the literals of a constant ------------------------------------------------------------

  predicate FoundUnsigned(found: Found) {
    found.OneLiteral? && found.value.Number? ==> Unsigned(found.value.num)
  }

  lemma {:induction false} LiteralsUnsigned(n: Node)
    requires SignsApart(n)
    ensures FoundUnsigned(LiteralsIn(n))
  {
    match n
    case Paren(e) => LiteralsUnsigned(e);
    case Neg(e) => LiteralsUnsigned(e);
    case Cast(e, to) =>
      LiteralsUnsigned(e);
      LiteralsUnsigned(to);
    case In(e, list) =>
      LiteralsUnsigned(e);
      ListLiteralsUnsigned(list);
    case Op(_, args) => FirstLiteralsUnsigned(args, |args|);
    case _ =>
  }

  lemma {:induction false} ListLiteralsUnsigned(list: InList)
    requires ListSignsApart(list)
    ensures FoundUnsigned(LiteralsInList(list))
  {
    match list
    case Field(f) => LiteralsUnsigned(f);
    case Members(ms) => FirstLiteralsUnsigned(ms, |ms|);
    case Subquery(q) => LiteralsUnsigned(q);
  }

  lemma {:induction false} FirstLiteralsUnsigned(ns: seq<Node>, k: nat)
    requires k <= |ns| && forall l | 0 <= l < |ns| :: SignsApart(ns[l])
    ensures FoundUnsigned(LiteralsInFirst(ns, k))
    decreases ns, k
  {
    if k > 0 {
      FirstLiteralsUnsigned(ns, k - 1);
      LiteralsUnsigned(ns[k - 1]);
    }
  }

  lemma ConstantDecent(n: Node)
    requires IncomingConstant(n)
    ensures Decent(ValueOf(n))
  {
    LiteralsUnsigned(n);
    match n
    case Neg(e) => assert NoMarkers(e) && ValueOf(e) == ConstantValue(e);
    case _ =>
  }

  /** At a placeholder, exactly the plain constants can be written back from the value they bind. */
  lemma ConstantReadsBack(n: Node)
    requires IncomingConstant(n)
    ensures Reads(NodeOf(ValueOf(n)), n) <==> Plain(n)
  {
    ConstantDecent(n);
    ValueReadsBack(ValueOf(n), n);
  }

  predicate AllPlain(occs: seq<Occurrence>) {
    forall k | 0 <= k < |occs| :: forall l | 0 <= l < |occs[k].sources| :: Plain(occs[k].sources[l])
  }

  predicate AllConstant(occs: seq<Occurrence>) {
    forall k | 0 <= k < |occs| :: forall l | 0 <= l < |occs[k].sources| :: IncomingConstant(occs[k].sources[l])
  }

  /** Every occurrence has the value its name is bound to. */
  predicate Agrees(occs: seq<Occurrence>, bound: map<string, Value>) {
    forall k | 0 <= k < |occs| :: occs[k].name in bound && bound[occs[k].name] == occs[k].value
  }

  /** Each occurrence's value is the value of its source, or the values of its sources. */
  predicate Sourced(occs: seq<Occurrence>) {
    forall k | 0 <= k < |occs| ::
      match occs[k].value
      case One(v) => |occs[k].sources| == 1 && v == ValueOf(occs[k].sources[0])
      case Many(vs) => vs == ValuesOf(occs[k].sources)
  }

  /** Names are bound to one value where one was met, and to a list where a list was. */
  predicate KindsAgree(occs: seq<Occurrence>, bound: map<string, Value>) {
    forall k | 0 <= k < |occs| :: occs[k].name in bound && (bound[occs[k].name].One? <==> occs[k].value.One?)
  }

  /** What the name is bound to, written as constants, reads as the expressions met. */
  predicate ReadsBack(o: Occurrence, bound: map<string, Value>) {
    o.name in bound &&
    match bound[o.name]
    case One(v) => |o.sources| == 1 && Reads(NodeOf(v), o.sources[0])
    case Many(vs) => |vs| == |o.sources| && forall l | 0 <= l < |vs| :: Reads(NodeOf(vs[l]), o.sources[l])
  }

  predicate AllReadBack(occs: seq<Occurrence>, bound: map<string, Value>) {
    forall k | 0 <= k < |occs| :: ReadsBack(occs[k], bound)
  }

  lemma AppendParts(a: seq<Occurrence>, b: seq<Occurrence>, bound: map<string, Value>)
    ensures AllConstant(a + b) <==> AllConstant(a) && AllConstant(b)
    ensures Sourced(a + b) <==> Sourced(a) && Sourced(b)
    ensures KindsAgree(a + b, bound) <==> KindsAgree(a, bound) && KindsAgree(b, bound)
    ensures AllReadBack(a + b, bound) <==> AllReadBack(a, bound) && AllReadBack(b, bound)
  {
    var ab := a + b;
    assert forall k | 0 <= k < |a| :: ab[k] == a[k];
    assert forall k | 0 <= k < |b| :: ab[|a| + k] == b[k];
  }

  /** The occurrences of a match decide whether a reads as b. */
  predicate ReadsWithOccurrences(a: Node, b: Node, occs: Option<seq<Occurrence>>, bound: map<string, Value>) {
    occs.Some? ==> Sourced(occs.value) && (KindsAgree(occs.value, bound) ==> (Reads(a, b) <==> AllReadBack(occs.value, bound)))
  }

  predicate ListReadsWithOccurrences(a: InList, b: InList, occs: Option<seq<Occurrence>>, bound: map<string, Value>) {
    occs.Some? ==> Sourced(occs.value) && (KindsAgree(occs.value, bound) ==> (ListReads(a, b) <==> AllReadBack(occs.value, bound)))
  }

  /** Substituting the bound values into the template reads as the incoming tree exactly when at every
      placeholder the bound value reads as what was met there. */
  lemma {:induction false} InstanceReads(t: Node, i: Node, bound: map<string, Value>)
    ensures ReadsWithOccurrences(Instance(t, bound), i, Occurrences(t, i), bound)
    decreases t, i
  {
    if t.Paren? {
      InstanceReads(t.e, i, bound);
    } else if i.Paren? {
      InstanceReads(t, i.e, bound);
      ReadsPastParen(Instance(t, bound), i.e);
    } else {
      match t
      case Marker(name) => LeafReads(t, name, i, bound);
      case Parameter(name) => LeafReads(t, name, i, bound);
      case Neg(e) =>
        if i.Neg? {
          InstanceReads(e, i.e, bound);
        }
      case Cast(e, to) =>
        if i.Cast? {
          InstanceReads(e, i.e, bound);
          InstanceReads(to, i.to, bound);
          CastInstanceReads(e, to, i.e, i.to, bound);
        }
      case In(e, list) =>
        if i.In? {
          InstanceReads(e, i.e, bound);
          ListInstanceReads(list, i.list, bound);
          InInstanceReads(e, list, i.e, i.list, bound);
        }
      case Op(tag, args) =>
        if i.Op? && i.tag == tag && |i.args| == |args| {
          FirstInstancesRead(args, i.args, |args|, bound);
        }
      case _ =>
    }
  }

  lemma CastInstanceReads(e: Node, to: Node, ie: Node, ito: Node, bound: map<string, Value>)
    requires ReadsWithOccurrences(Instance(e, bound), ie, Occurrences(e, ie), bound)
    requires ReadsWithOccurrences(Instance(to, bound), ito, Occurrences(to, ito), bound)
    ensures ReadsWithOccurrences(Instance(Cast(e, to), bound), Cast(ie, ito), Occurrences(Cast(e, to), Cast(ie, ito)), bound)
  {
    var a, b := Occurrences(e, ie), Occurrences(to, ito);
    if a.Some? && b.Some? {
      AppendParts(a.value, b.value, bound);
    }
  }

  lemma InInstanceReads(e: Node, list: InList, ie: Node, ilist: InList, bound: map<string, Value>)
    requires ReadsWithOccurrences(Instance(e, bound), ie, Occurrences(e, ie), bound)
    requires ListReadsWithOccurrences(ListInstance(list, bound), ilist, ListOccurrences(list, ilist), bound)
    ensures ReadsWithOccurrences(Instance(In(e, list), bound), In(ie, ilist), Occurrences(In(e, list), In(ie, ilist)), bound)
  {
    var a, b := Occurrences(e, ie), ListOccurrences(list, ilist);
    if a.Some? && b.Some? {
      AppendParts(a.value, b.value, bound);
    }
  }

  lemma ReadsPastParen(a: Node, b: Node)
    ensures Reads(a, Paren(b)) == Reads(a, b)
    decreases a
  {
    if a.Paren? {
      ReadsPastParen(a.e, b);
    }
  }

  lemma LeafReads(t: Node, name: string, i: Node, bound: map<string, Value>)
    requires !i.Paren? && (t == Marker(name) || t == Parameter(name))
    ensures ReadsWithOccurrences(Instance(t, bound), i, Occurrences(t, i), bound)
  {
    var occs := Occurrences(t, i);
    if occs.Some? && KindsAgree(occs.value, bound) {
      var o := Occurrence(name, One(ValueOf(i)), [i]);
      assert occs.value == [o] && occs.value[0] == o;
      assert AllReadBack(occs.value, bound) <==> ReadsBack(o, bound);
    }
  }

  lemma {:induction false} ListInstanceReads(t: InList, i: InList, bound: map<string, Value>)
    ensures ListReadsWithOccurrences(ListInstance(t, bound), i, ListOccurrences(t, i), bound)
    decreases t, i
  {
    if TakesList(t, i) {
      WholeListReads(t, i, bound);
    } else {
      match (t, i)
      case (Field(f), Field(g)) =>
        InstanceReads(f, g, bound);
        if f.Marker? && ListOccurrences(t, i).Some? && KindsAgree(ListOccurrences(t, i).value, bound) {
          FieldHoldsOne(f, g, bound);
        }
      case (Members(ms), Members(ns)) =>
        if |ms| == |ns| {
          FirstInstancesRead(ms, ns, |ms|, bound);
        }
      case (Subquery(q), Subquery(r)) => InstanceReads(q, r, bound);
      case (_, _) =>
    }
  }

  lemma FieldHoldsOne(f: Node, g: Node, bound: map<string, Value>)
    requires f.Marker? && Occurrences(f, g).Some? && KindsAgree(Occurrences(f, g).value, bound)
    ensures f.name in bound && bound[f.name].One?
    decreases g
  {
    if g.Paren? {
      FieldHoldsOne(f, g.e, bound);
    } else {
      assert Occurrences(f, g).value[0] == Occurrence(f.name, One(ValueOf(g)), [g]);
    }
  }

  lemma WholeListReads(t: InList, i: InList, bound: map<string, Value>)
    requires TakesList(t, i)
    ensures ListReadsWithOccurrences(ListInstance(t, bound), i, ListOccurrences(t, i), bound)
  {
    var occs, ms := ListOccurrences(t, i), i.members;
    if occs.Some? && KindsAgree(occs.value, bound) {
      var o := Occurrence(t.field.name, Many(ValuesOf(ms)), ms);
      assert occs.value == [o] && occs.value[0] == o;
      assert AllReadBack(occs.value, bound) <==> ReadsBack(o, bound);
    }
  }

  /** Pair by pair. */
  lemma {:induction false} FirstInstancesRead(ts: seq<Node>, ns: seq<Node>, n: nat, bound: map<string, Value>)
    requires n <= |ts| == |ns|
    ensures
      var occs := FirstOccurrences(ts, ns, n);
      occs.Some? ==> Sourced(occs.value) && (KindsAgree(occs.value, bound) ==>
        ((forall k | 0 <= k < n :: Reads(Instance(ts[k], bound), ns[k])) <==> AllReadBack(occs.value, bound)))
    decreases ts, ns, n
  {
    if n > 0 {
      var init, last := FirstOccurrences(ts, ns, n - 1), Occurrences(ts[n - 1], ns[n - 1]);
      FirstInstancesRead(ts, ns, n - 1, bound);
      InstanceReads(ts[n - 1], ns[n - 1], bound);
      if init.Some? && last.Some? {
        AppendParts(init.value, last.value, bound);
      }
    }
  }
}
