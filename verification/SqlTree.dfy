/** SQL expression trees and the Python values of their constants. */
module SqlTree {
  import opened Wrappers
  import QuoteScan
  import opened Numerals

  datatype Num =
    | Int(n: int)
    | Dec(negative: bool, magnitude: real, shown: string)  // a decimal and how its magnitude is shown

  datatype Scalar =
    | Text(s: string)
    | Number(num: Num)
    | Bool(b: bool)
    | NoValue

  /** What a placeholder is bound to: one value, or the members of a whole IN list. */
  datatype Value = One(scalar: Scalar) | Many(items: seq<Scalar>)
  {
    predicate IsText() {
      One? && scalar.Text?
    }
  }

  /** `Op` is any node without a rule of its own. Its tag stands for the node class, which arguments
      are present, their scalar values and list lengths; args are the child nodes in order. */
  datatype Node =
    | StringLit(s: string)
    | NumberLit(text: string, num: Num)
    | Boolean(b: bool)
    | Null
    | Marker(name: string)      // `?` (no name), `:name`, `$name`
    | Parameter(name: string)   // the form some dialects give `$name`
    | Paren(e: Node)
    | Neg(e: Node)
    | Cast(e: Node, to: Node)
    | In(e: Node, list: InList)
    | Op(tag: string, args: seq<Node>)
  {
    predicate IsLiteral() {
      StringLit? || NumberLit?
    }

    predicate IsLeafConstant() {
      StringLit? || NumberLit? || Boolean? || Null?
    }
  }

  /** The right-hand side of IN: one expression without parentheses, a list, or a subquery. */
  datatype InList = Field(field: Node) | Members(members: seq<Node>) | Subquery(query: Node)

  // ---- equality of values ------------------------------------------------------------

  function Signed(n: int): string {
    if n < 0 then "-" + Digits(-n) else Digits(n)
  }

  function Shown(num: Num): string {
    match num
    case Int(n) => Signed(n)
    case Dec(negative, _, shown) => (if negative then "-" else "") + shown
  }

  function Amount(num: Num): real {
    match num
    case Int(n) => n as real
    case Dec(negative, magnitude, _) => if negative then -magnitude else magnitude
  }

  predicate IsNumeric(v: Scalar) {
    v.Number? || v.Bool?
  }

  function AmountOf(v: Scalar): real
    requires IsNumeric(v)
  {
    match v
    case Number(num) => Amount(num)
    case Bool(b) => if b then 1.0 else 0.0
  }

  /** Python's `==` on scalars: a boolean is a number. */
  predicate SameScalar(a: Scalar, b: Scalar) {
    if IsNumeric(a) && IsNumeric(b) then AmountOf(a) == AmountOf(b) else a == b
  }

  function PyStr(v: Scalar): string {
    match v
    case Text(s) => s
    case Number(num) => Shown(num)
    case Bool(b) => if b then "True" else "False"
    case NoValue => "None"
  }

  /** Type-tolerant equality: equal, or with the same text. */
  predicate LooseEq(a: Value, b: Value) {
    match (a, b)
    case (One(x), One(y)) => SameScalar(x, y) || PyStr(x) == PyStr(y)
    case (Many(xs), Many(ys)) => |xs| == |ys| && forall k | 0 <= k < |xs| :: SameScalar(xs[k], ys[k])
    case (_, _) => false
  }

  /** It is not transitive: TRUE equals 1, 1 has the text of '1', but TRUE and '1' differ. */
  lemma LooseEqNotTransitive()
    ensures
      var yes, one, text := One(Bool(true)), One(Number(Int(1))), One(Text("1"));
      LooseEq(yes, one) && LooseEq(one, text) && !LooseEq(yes, text)
  {
    assert Digits(1) == "1";
  }

  /** Values are also compared by their text: a boolean as True or False, NULL as None, a negative number
      with its sign; but numbers and texts not by their amount. */
  lemma LooseEqByText()
    ensures LooseEq(One(Bool(true)), One(Text("True"))) && LooseEq(One(Text("False")), One(Bool(false)))
    ensures LooseEq(One(NoValue), One(Text("None"))) && LooseEq(One(Number(Int(-7))), One(Text("-7")))
    ensures LooseEq(One(Number(Int(1))), One(Number(Dec(false, 1.0, "1.00")))) && LooseEq(One(Text("1.00")), One(Number(Dec(false, 1.0, "1.00"))))
    ensures !LooseEq(One(Number(Int(1))), One(Text("1.00"))) && !LooseEq(One(NoValue), One(Number(Int(0))))
  {
    assert Digits(7) == "7" && Digits(1) == "1" && Digits(0) == "0";
    assert "1.00"[0] == '1' && |"1.00"| == 4;
  }

  // ---- reading a value out of a tree -----------------------------------------------------

  /** The library's text of an expression, up to spelling. */
  function Render(n: Node): string {
    match n
    case StringLit(s) => "'" + QuoteScan.Doubled(s, '\'') + "'"
    case NumberLit(text, _) => text
    case Boolean(b) => if b then "TRUE" else "FALSE"
    case Null => "NULL"
    case Marker(name) => "?" + name
    case Parameter(name) => "$" + name
    case Paren(e) => "(" + Render(e) + ")"
    case Neg(e) => "-" + Render(e)
    case Cast(e, to) => "CAST(" + Render(e) + " AS " + Render(to) + ")"
    case In(e, list) => Render(e) + " IN " + RenderList(list)
    case Op(tag, args) => tag + "(" + RenderFirst(args, |args|) + ")"
  }

  function RenderList(list: InList): string {
    match list
    case Field(f) => Render(f)
    case Members(ms) => "(" + RenderFirst(ms, |ms|) + ")"
    case Subquery(q) => "(" + Render(q) + ")"
  }

  function RenderFirst(ns: seq<Node>, k: nat): string
    requires k <= |ns|
    decreases ns, k
  {
    if k == 0 then "" else RenderFirst(ns, k - 1) + Render(ns[k - 1]) + ", "
  }

  /** How many literals a tree holds, as far as it matters. */
  datatype Found = NoLiteral | OneLiteral(value: Scalar) | MoreLiterals

  function Both(a: Found, b: Found): Found {
    if a.NoLiteral? then b else if b.NoLiteral? then a else MoreLiterals
  }

  function LiteralsIn(n: Node): Found {
    match n
    case StringLit(s) => OneLiteral(Text(s))
    case NumberLit(_, num) => OneLiteral(Number(num))
    case Boolean(_) => NoLiteral
    case Null => NoLiteral
    case Marker(_) => NoLiteral
    case Parameter(_) => NoLiteral
    case Paren(e) => LiteralsIn(e)
    case Neg(e) => LiteralsIn(e)
    case Cast(e, to) => Both(LiteralsIn(e), LiteralsIn(to))
    case In(e, list) => Both(LiteralsIn(e), LiteralsInList(list))
    case Op(_, args) => LiteralsInFirst(args, |args|)
  }

  function LiteralsInList(list: InList): Found {
    match list
    case Field(f) => LiteralsIn(f)
    case Members(ms) => LiteralsInFirst(ms, |ms|)
    case Subquery(q) => LiteralsIn(q)
  }

  function LiteralsInFirst(ns: seq<Node>, k: nat): Found
    requires k <= |ns|
    decreases ns, k
  {
    if k == 0 then NoLiteral else Both(LiteralsInFirst(ns, k - 1), LiteralsIn(ns[k - 1]))
  }

  function NegateNum(num: Num): Num {
    match num
    case Int(n) => Int(-n)
    case Dec(negative, magnitude, shown) => if magnitude == 0.0 then Dec(false, magnitude, shown) else Dec(!negative, magnitude, shown)
  }

  /** Python's unary minus; None where it raises. */
  function Negate(v: Scalar): Option<Scalar> {
    match v
    case Number(num) => Some(Number(NegateNum(num)))
    case Bool(b) => Some(Number(Int(if b then -1 else 0)))
    case Text(_) => None
    case NoValue => None
  }

  function ConstantValue(n: Node): Scalar
    requires n.IsLeafConstant()
  {
    match n
    case StringLit(s) => Text(s)
    case NumberLit(_, num) => Number(num)
    case Boolean(b) => Bool(b)
    case Null => NoValue
  }

  /** The value an incoming sub-expression has at a placeholder. */
  function ValueOf(n: Node): Scalar {
    if n.Paren? then ValueOf(n.e)
    else if n.Neg? then
      match Negate(ValueOf(n.e))
      case Some(v) => v
      case None => Text(Render(n))
    else if n.IsLeafConstant() then ConstantValue(n)
    else
      match LiteralsIn(n)
      case OneLiteral(v) => v
      case NoLiteral => Text(Render(n))
      case MoreLiterals => Text(Render(n))
  }

  predicate IsConstant(n: Node) {
    match n
    case StringLit(_) => true
    case NumberLit(_, _) => true
    case Boolean(_) => true
    case Null => true
    case Neg(e) => IsConstant(e)
    case Cast(e, _) => e.IsLeafConstant()
    case _ => false
  }

  /** A NULL or boolean somewhere in the tree. */
  predicate HoldsNullOrBoolean(n: Node) {
    match n
    case StringLit(_) => false
    case NumberLit(_, _) => false
    case Boolean(_) => true
    case Null => true
    case Marker(_) => false
    case Parameter(_) => false
    case Paren(e) => HoldsNullOrBoolean(e)
    case Neg(e) => HoldsNullOrBoolean(e)
    case Cast(e, to) => HoldsNullOrBoolean(e) || HoldsNullOrBoolean(to)
    case In(e, list) => HoldsNullOrBoolean(e) || ListHoldsNullOrBoolean(list)
    case Op(_, args) => exists k | 0 <= k < |args| :: HoldsNullOrBoolean(args[k])
  }

  predicate ListHoldsNullOrBoolean(list: InList) {
    match list
    case Field(f) => HoldsNullOrBoolean(f)
    case Members(ms) => exists k | 0 <= k < |ms| :: HoldsNullOrBoolean(ms[k])
    case Subquery(q) => HoldsNullOrBoolean(q)
  }

  // ---- the structural key -------------------------------------------------------------------

  const HOLE := Marker("")

  /** Nodes the key replaces by a bare placeholder. */
  predicate Collapses(n: Node) {
    match n
    case StringLit(_) => true
    case NumberLit(_, _) => true
    case Boolean(_) => true
    case Null => true
    case Marker(_) => true
    case Parameter(_) => true
    case Cast(e, _) => e.IsLeafConstant() || e.Marker?
    case Neg(e) => e.IsLiteral() || e.Marker?
    case _ => false
  }

  /** The structural key, as a tree. */
  function KeyOf(n: Node): Node {
    if Collapses(n) then HOLE
    else
      match n
      case Paren(e) => Paren(KeyOf(e))
      case Neg(e) => Neg(KeyOf(e))
      case Cast(e, to) => Cast(KeyOf(e), KeyOf(to))
      case In(e, list) => In(KeyOf(e), KeyOfList(list))
      case Op(tag, args) => Op(tag, seq(|args|, k requires 0 <= k < |args| => KeyOf(args[k])))
      case _ => n
  }

  /** An all-constant list and a whole-list marker have the same, arity-free key. */
  function KeyOfList(list: InList): InList {
    match list
    case Field(f) => if f.Marker? then Members([HOLE]) else Field(KeyOf(f))
    case Members(ms) =>
      if ms != [] && forall k | 0 <= k < |ms| :: Collapses(ms[k]) then Members([HOLE])
      else Members(seq(|ms|, k requires 0 <= k < |ms| => KeyOf(ms[k])))
    case Subquery(q) => Subquery(KeyOf(q))
  }

  predicate NoMarkers(n: Node) {
    match n
    case StringLit(_) => true
    case NumberLit(_, _) => true
    case Boolean(_) => true
    case Null => true
    case Marker(_) => false
    case Parameter(_) => false
    case Paren(e) => NoMarkers(e)
    case Neg(e) => NoMarkers(e)
    case Cast(e, to) => NoMarkers(e) && NoMarkers(to)
    case In(e, list) => NoMarkers(e) && ListNoMarkers(list)
    case Op(_, args) => forall k | 0 <= k < |args| :: NoMarkers(args[k])
  }

  predicate ListNoMarkers(list: InList) {
    match list
    case Field(f) => NoMarkers(f)
    case Members(ms) => forall k | 0 <= k < |ms| :: NoMarkers(ms[k])
    case Subquery(q) => NoMarkers(q)
  }
}
