/** When a filled template still has the template's structural key, and so reaches the binder at all. */
module InstanceKey {
  import opened SqlTree
  import opened Unify
  import opened RoundTrip

  /** A value written with a minus sign of its own. */
  predicate Negative(v: Scalar) {
    match v
    case Number(Int(n)) => n < 0
    case Number(Dec(negative, _, _)) => negative
    case _ => false
  }

  /** The name is bound to a text, or to a number that is not negative. */
  predicate BindsLiteral(bound: map<string, Value>, name: string) {
    name in bound && bound[name].One? && !Negative(bound[name].scalar) && (bound[name].scalar.Text? || bound[name].scalar.Number?)
  }

  predicate BindsNegative(bound: map<string, Value>, name: string) {
    name in bound && bound[name].One? && Negative(bound[name].scalar)
  }

  /** Directly under a minus sign a placeholder stands for a text or a nonnegative number, and directly
      in a cast for no negative number; for `$name` parameters, which do not collapse there, it is the
      other way round. A whole-list marker stands for a list. */
  predicate Direct(t: Node, bound: map<string, Value>) {
    match t
    case Paren(e) => Direct(e, bound)
    case Neg(e) =>
      if e.Marker? then BindsLiteral(bound, e.name)
      else if e.Parameter? then !BindsLiteral(bound, e.name)
      else Direct(e, bound)
    case Cast(e, to) =>
      if e.Marker? then !BindsNegative(bound, e.name)
      else if e.Parameter? then BindsNegative(bound, e.name) && Direct(to, bound)
      else if e.IsLeafConstant() then true
      else Direct(e, bound) && Direct(to, bound)
    case In(e, list) => Direct(e, bound) && ListDirect(list, bound)
    case Op(_, args) => forall k | 0 <= k < |args| :: Direct(args[k], bound)
    case _ => true
  }

  predicate ListDirect(list: InList, bound: map<string, Value>) {
    match list
    case Field(f) => if f.Marker? then TakesMany(list, bound) else Direct(f, bound)
    case Members(ms) => forall k | 0 <= k < |ms| :: Direct(ms[k], bound)
    case Subquery(q) => Direct(q, bound)
  }

  predicate SameKey(t: Node, bound: map<string, Value>) {
    KeyOf(Instance(t, bound)) == KeyOf(t)
  }

  lemma HoleOnlyIfCollapses(n: Node)
    ensures KeyOf(n) == HOLE <==> Collapses(n)
  {
  }

  lemma FilledCollapses(t: Node, bound: map<string, Value>)
    requires (t.Marker? || t.Parameter?) && Fits(t, bound)
    ensures Collapses(Instance(t, bound)) && !Instance(t, bound).Marker?
  {
    ValueReadBack(bound[t.name].scalar);
  }

  /** What stands directly under a sign or in a cast, once filled. */
  lemma CollapsesWithValue(e: Node, bound: map<string, Value>)
    requires Fits(e, bound)
    ensures Instance(e, bound).IsLiteral() <==>
      if e.Marker? || e.Parameter? then BindsLiteral(bound, e.name) else e.IsLiteral()
    ensures Instance(e, bound).IsLeafConstant() <==>
      if e.Marker? || e.Parameter? then !BindsNegative(bound, e.name) else e.IsLeafConstant()
    ensures !Instance(e, bound).Marker?
  {
  }

  /** The instance of a template keeps its key exactly under that condition; otherwise the statement
      never matches the template. */
  lemma {:induction false} InstanceKeepsKey(t: Node, bound: map<string, Value>)
    requires Fits(t, bound)
    ensures SameKey(t, bound) <==> Direct(t, bound)
    decreases t
  {
    match t
    case Marker(_) => FilledCollapses(t, bound);
    case Parameter(_) => FilledCollapses(t, bound);
    case Paren(e) => InstanceKeepsKey(e, bound);
    case Neg(e) =>
      HoleOnlyIfCollapses(t);
      HoleOnlyIfCollapses(Instance(t, bound));
      InstanceKeepsKey(e, bound);
      CollapsesWithValue(e, bound);
    case Cast(e, to) =>
      HoleOnlyIfCollapses(t);
      HoleOnlyIfCollapses(Instance(t, bound));
      InstanceKeepsKey(e, bound);
      InstanceKeepsKey(to, bound);
      CollapsesWithValue(e, bound);
    case In(e, list) =>
      InstanceKeepsKey(e, bound);
      ListInstanceKeepsKey(list, bound);
    case Op(tag, args) =>
      forall k | 0 <= k < |args| ensures SameKey(args[k], bound) <==> Direct(args[k], bound) {
        InstanceKeepsKey(args[k], bound);
      }
      OpKeys(tag, args, bound);
    case _ =>
  }

  lemma OpKeys(tag: string, args: seq<Node>, bound: map<string, Value>)
    ensures SameKey(Op(tag, args), bound) <==> forall k | 0 <= k < |args| :: SameKey(args[k], bound)
  {
    var t := Op(tag, args);
    var a, b := KeyOf(Instance(t, bound)).args, KeyOf(t).args;
    if forall k | 0 <= k < |args| :: SameKey(args[k], bound) {
      assert a == b;
    }
    if a == b {
      forall k | 0 <= k < |args| ensures SameKey(args[k], bound) {
        assert a[k] == b[k];
      }
    }
  }

  predicate SameListKey(list: InList, bound: map<string, Value>) {
    KeyOfList(ListInstance(list, bound)) == KeyOfList(list)
  }

  lemma {:induction false} ListInstanceKeepsKey(list: InList, bound: map<string, Value>)
    requires ListFits(list, bound)
    ensures SameListKey(list, bound) <==> ListDirect(list, bound)
    decreases list
  {
    match list
    case Field(f) =>
      if TakesMany(list, bound) {
        var items, ms := bound[f.name].items, ListInstance(list, bound).members;
        forall k | 0 <= k < |ms| ensures Collapses(ms[k]) {
          assert ListItem(items[k]);
          ValueReadBack(items[k]);
        }
      } else {
        InstanceKeepsKey(f, bound);
        if f.Marker? || f.Parameter? {
          FilledCollapses(f, bound);
        }
      }
    case Members(ms) =>
      forall k | 0 <= k < |ms| ensures SameKey(ms[k], bound) <==> Direct(ms[k], bound) {
        InstanceKeepsKey(ms[k], bound);
      }
      MemberListKeys(ms, bound);
    case Subquery(q) => InstanceKeepsKey(q, bound);
  }

  predicate AllCollapse(ns: seq<Node>) {
    forall k | 0 <= k < |ns| :: Collapses(ns[k])
  }

  lemma MembersCollapse(ns: seq<Node>)
    requires KeyOfList(Members(ns)) == Members([HOLE])
    ensures ns != [] && AllCollapse(ns)
  {
    var key := KeyOfList(Members(ns)).members;
    assert AllCollapse(ns) || (|ns| == 1 && key[0] == KeyOf(ns[0]));
    if ns != [] {
      HoleOnlyIfCollapses(ns[0]);
    }
  }

  lemma CollapseAlike(ms: seq<Node>, ns: seq<Node>)
    requires KeyOfList(Members(ms)) == KeyOfList(Members(ns)) && AllCollapse(ms) && ms != []
    ensures AllCollapse(ns)
  {
    MembersCollapse(ns);
  }

  lemma KeysMemberwise(ms: seq<Node>, ns: seq<Node>, k: nat)
    requires KeyOfList(Members(ms)) == KeyOfList(Members(ns)) && |ms| == |ns| && k < |ms|
    ensures KeyOf(ms[k]) == KeyOf(ns[k])
  {
    var a, b := KeyOfList(Members(ns)).members, KeyOfList(Members(ms)).members;
    if AllCollapse(ms) {
      CollapseAlike(ms, ns);
    } else if AllCollapse(ns) {
      CollapseAlike(ns, ms);
    } else {
      assert a[k] == b[k];
    }
  }

  /** A list of members keeps its key exactly if every member does. */
  lemma MemberListKeys(ms: seq<Node>, bound: map<string, Value>)
    ensures SameListKey(Members(ms), bound) <==> forall k | 0 <= k < |ms| :: SameKey(ms[k], bound)
  {
    var ns := ListInstance(Members(ms), bound).members;
    if forall k | 0 <= k < |ms| :: SameKey(ms[k], bound) {
      forall k | 0 <= k < |ms| ensures KeyOf(ns[k]) == KeyOf(ms[k]) && (Collapses(ns[k]) <==> Collapses(ms[k])) {
        assert SameKey(ms[k], bound);
        HoleOnlyIfCollapses(ms[k]);
        HoleOnlyIfCollapses(ns[k]);
      }
    }
    if SameListKey(Members(ms), bound) {
      forall k | 0 <= k < |ms| ensures SameKey(ms[k], bound) {
        KeysMemberwise(ms, ns, k);
      }
    }
  }

  /** A negative number under a template's minus sign, say, is out of reach: the statement has another
      key. */
  lemma NegativeUnderMinus(name: string, n: int)
    requires !IsAnonymous(name) && n < 0
    ensures
      var t, bound := Neg(Marker(name)), map[name := One(Number(Int(n)))];
      Fits(t, bound) && !SameKey(t, bound)
  {
    var t, bound := Neg(Marker(name)), map[name := One(Number(Int(n)))];
    assert bound[name].One? && Writable(bound[name].scalar);
    assert Instance(t.e, bound) == NodeOf(Number(Int(n)));
    assert Instance(t, bound) == Neg(Neg(NumberLit(Shown(Int(-n)), Int(-n))));
    InstanceKeepsKey(t, bound);
  }
}
