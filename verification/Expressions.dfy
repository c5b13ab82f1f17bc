/** Three-valued expression evaluation (src/observer/sql/expr/expression.cpp). */
module Expressions {
  /** Return codes other than success that evaluation can end with. */
  datatype RC = NotFound | Internal | InvalidArgument | OtherFailure(code: int)

  /** A cell value. Numbers and booleans compare numerically; NULL compares with nothing. */
  datatype Value = Null | Boolean(b: bool) | Integer(i: int)

  /** What `get_value` delivers: a value, or the return code it failed with. */
  datatype Outcome = Ok(value: Value) | Err(rc: RC)

  /** What pulling the next row from an operator delivers. */
  datatype Pull = Success | RecordEof | Failed(rc: RC)

  /** How a whole run ends. */
  type End = p: Pull | !p.Success? witness RecordEof

  datatype CompOp = EqualTo | LessEqual | NotEqual | LessThan | GreatEqual | GreatThan | NoOp

  datatype ConjunctionType = And | Or

  type Row = map<string, Value>

  /** `Other` stands for every expression kind the optimizer does not look into
      (LIKE, IN, EXISTS, functions, arithmetic, casts): any function of the row. */
  datatype Expr =
    | Field(name: string)
    | Const(value: Value)
    | Comparison(comp: CompOp, left: Expr, right: Expr)
    | Conjunction(kind: ConjunctionType, children: seq<Expr>)
    | Not(child: Expr)
    | Other(get: Row -> Outcome)

  function GetBoolean(v: Value): bool
    requires !v.Null?
  {
    match v
    case Boolean(b) => b
    case Integer(i) => i != 0
  }

  function Number(v: Value): int
    requires !v.Null?
  {
    match v
    case Boolean(b) => if b then 1 else 0
    case Integer(i) => i
  }

  /** `compare_value` plus the mapping of NULL_VALUE to a NULL result: the NULL test comes before
      the operator switch, so an unsupported operator is only noticed on two non-NULL operands. */
  function Compare(op: CompOp, l: Value, r: Value): Outcome {
    if l.Null? || r.Null? then Ok(Null)
    else
      var a, b := Number(l), Number(r);
      match op
      case EqualTo => Ok(Boolean(a == b))
      case LessEqual => Ok(Boolean(a <= b))
      case NotEqual => Ok(Boolean(a != b))
      case LessThan => Ok(Boolean(a < b))
      case GreatEqual => Ok(Boolean(a >= b))
      case GreatThan => Ok(Boolean(a > b))
      case NoOp => Err(Internal)
  }

  /** Evaluation of an expression on a row, with the order and the short cuts of `get_value`. */
  function Eval(e: Expr, row: Row): Outcome
    decreases e, 1
  {
    match e
    case Field(n) => if n in row then Ok(row[n]) else Err(NotFound)
    case Const(v) => Ok(v)
    case Comparison(op, l, r) =>
      var lv := Eval(l, row);
      if lv.Err? then lv else
      var rv := Eval(r, row);
      if rv.Err? then rv else Compare(op, lv.value, rv.value)
    case Conjunction(kind, cs) =>
      if cs == [] then Ok(Boolean(true)) else EvalConjuncts(kind, cs, row, false)
    case Not(c) =>
      var v := Eval(c, row);
      if v.Err? || v.value.Null? then v else Ok(Boolean(!GetBoolean(v.value)))
    case Other(get) => get(row)
  }

  function EvalConjuncts(kind: ConjunctionType, cs: seq<Expr>, row: Row, containNull: bool): Outcome
    decreases cs, 0
  {
    if cs == [] then (if containNull then Ok(Null) else Ok(Boolean(kind.And?)))
    else
      var v := Eval(cs[0], row);
      if v.Err? then v
      else if v.value.Null? then EvalConjuncts(kind, cs[1..], row, true)
      else
        var b := GetBoolean(v.value);
        if kind.Or? <==> b then Ok(Boolean(b)) else EvalConjuncts(kind, cs[1..], row, containNull)
  }

  /** The row is accepted: evaluation succeeds with a value that is neither NULL nor false. */
  predicate IsTrue(e: Expr, row: Row) {
    var v := Eval(e, row);
    v.Ok? && !v.value.Null? && GetBoolean(v.value)
  }

  /** The condition `column = n`. */
  function Is(column: string, n: int): Expr {
    Comparison(EqualTo, Field(column), Const(Integer(n)))
  }

  // ---------------------------------------------------------------- Kleene logic as the reference

  datatype Truth = False | Unknown | True

  function TruthOf(v: Value): Truth {
    if v.Null? then Unknown else if GetBoolean(v) then True else False
  }

  /** Kleene conjunction and disjunction: minimum and maximum in False < Unknown < True. */
  function Kleene(kind: ConjunctionType, a: Truth, b: Truth): Truth {
    var absorbing := if kind.And? then False else True;
    if a == absorbing || b == absorbing then absorbing
    else if a == Unknown || b == Unknown then Unknown
    else a
  }

  function KleeneUnit(kind: ConjunctionType): Truth {
    if kind.And? then True else False
  }

  ghost predicate AllOk(cs: seq<Expr>, row: Row) {
    forall i | 0 <= i < |cs| :: Eval(cs[i], row).Ok?
  }

  /** The Kleene value of all children, none of which is skipped. */
  ghost function KleeneOf(kind: ConjunctionType, cs: seq<Expr>, row: Row): Truth
    requires AllOk(cs, row)
  {
    if cs == [] then KleeneUnit(kind)
    else Kleene(kind, TruthOf(Eval(cs[0], row).value), KleeneOf(kind, cs[1..], row))
  }

  /** The scan with its `contain_null` flag and its early exit computes the Kleene value of what it
      is given, combined with Unknown when a NULL was already seen. */
  lemma {:induction false} EvalConjunctsIsKleene(kind: ConjunctionType, cs: seq<Expr>, row: Row, containNull: bool)
    requires AllOk(cs, row)
    ensures var r := EvalConjuncts(kind, cs, row, containNull);
            r.Ok? && TruthOf(r.value) ==
                     Kleene(kind, if containNull then Unknown else KleeneUnit(kind), KleeneOf(kind, cs, row))
    decreases cs
  {
    if cs != [] {
      var v := Eval(cs[0], row).value;
      EvalConjunctsIsKleene(kind, cs[1..], row, containNull || v.Null?);
    }
  }

  /** A conjunction without failing children has its Kleene value, except that an empty
      disjunction is true: the emptiness test does not look at the kind. */
  lemma ConjunctionIsKleene(kind: ConjunctionType, cs: seq<Expr>, row: Row)
    requires AllOk(cs, row)
    ensures Eval(Conjunction(kind, cs), row).Ok?
    ensures TruthOf(Eval(Conjunction(kind, cs), row).value) == KleeneOf(kind, cs, row)
            <==> !(kind.Or? && cs == [])
  {
    if cs != [] {
      EvalConjunctsIsKleene(kind, cs, row, false);
    }
  }

  function Negation(t: Truth): Truth {
    match t
    case False => True
    case Unknown => Unknown
    case True => False
  }

  /** NOT is Kleene negation. */
  lemma NotIsKleene(c: Expr, row: Row)
    requires Eval(c, row).Ok?
    ensures Eval(Not(c), row).Ok?
    ensures TruthOf(Eval(Not(c), row).value) == Negation(TruthOf(Eval(c, row).value))
  {
  }

  function NotAll(cs: seq<Expr>): (r: seq<Expr>)
    ensures |r| == |cs| && forall i | 0 <= i < |cs| :: r[i] == Not(cs[i])
  {
    if cs == [] then [] else [Not(cs[0])] + NotAll(cs[1..])
  }

  lemma {:induction false} KleeneDual(cs: seq<Expr>, row: Row)
    requires AllOk(cs, row)
    ensures AllOk(NotAll(cs), row)
    ensures KleeneOf(Or, NotAll(cs), row) == Negation(KleeneOf(And, cs, row))
  {
    if cs != [] {
      KleeneDual(cs[1..], row);
      NotIsKleene(cs[0], row);
      assert NotAll(cs)[1..] == NotAll(cs[1..]);
    }
  }

  /** De Morgan's law holds of the evaluator, on a non-empty list without failures. */
  lemma DeMorgan(cs: seq<Expr>, row: Row)
    requires AllOk(cs, row) && cs != []
    ensures var l := Eval(Not(Conjunction(And, cs)), row);
            var r := Eval(Conjunction(Or, NotAll(cs)), row);
            l.Ok? && r.Ok? && TruthOf(l.value) == TruthOf(r.value)
  {
    KleeneDual(cs, row);
    ConjunctionIsKleene(And, cs, row);
    ConjunctionIsKleene(Or, NotAll(cs), row);
    NotIsKleene(Conjunction(And, cs), row);
  }

  predicate IsYes(v: Outcome) {
    v == Ok(Boolean(true))
  }

  /** Exactly one of less, equal and greater holds of two values; the other operators are put together
      from these. */
  lemma CompareIsTrichotomy(l: Value, r: Value)
    requires !l.Null? && !r.Null?
    ensures forall op: CompOp :: op != NoOp ==> Compare(op, l, r).Ok? && Compare(op, l, r).value.Boolean?
    ensures var lt, eq, gt := IsYes(Compare(LessThan, l, r)), IsYes(Compare(EqualTo, l, r)),
                              IsYes(Compare(GreatThan, l, r));
            && (lt || eq || gt) && !(lt && eq) && !(lt && gt) && !(eq && gt)
            && (IsYes(Compare(LessEqual, l, r)) <==> lt || eq)
            && (IsYes(Compare(GreatEqual, l, r)) <==> gt || eq)
            && (IsYes(Compare(NotEqual, l, r)) <==> !eq)
  {
  }

  /** The order is transitive, equal values are interchangeable in it, and numbers, and booleans as
      zero and one, are ordered as usual. */
  lemma CompareIsOrder(a: Value, b: Value, c: Value)
    requires !a.Null? && !b.Null? && !c.Null?
    ensures IsYes(Compare(EqualTo, a, a))
    ensures IsYes(Compare(LessThan, a, b)) && IsYes(Compare(LessThan, b, c)) ==> IsYes(Compare(LessThan, a, c))
    ensures IsYes(Compare(EqualTo, a, b)) ==> forall op: CompOp ::
              Compare(op, a, c) == Compare(op, b, c) && Compare(op, c, a) == Compare(op, c, b)
    ensures a.Integer? && b.Integer? ==>
              (IsYes(Compare(LessThan, a, b)) <==> a.i < b.i) && (IsYes(Compare(EqualTo, a, b)) <==> a.i == b.i)
    ensures IsYes(Compare(EqualTo, Boolean(false), Integer(0))) && IsYes(Compare(EqualTo, Boolean(true), Integer(1)))
  {
  }

  /** A value is true exactly when it is not equal to zero; a boolean is what it says. */
  lemma TruthIsNotZero(v: Value)
    requires !v.Null?
    ensures GetBoolean(v) <==> IsYes(Compare(NotEqual, v, Integer(0)))
    ensures v.Boolean? ==> GetBoolean(v) == v.b
  {
  }

  /** A comparison fails with its left side, else with its right side, else on an unsupported operator
      over two values; otherwise it is NULL exactly when a side is. */
  lemma ComparisonOutcome(op: CompOp, l: Expr, r: Expr, row: Row)
    ensures var x, y, z := Eval(l, row), Eval(r, row), Eval(Comparison(op, l, r), row);
            && (x.Err? ==> z == x)
            && (x.Ok? && y.Err? ==> z == y)
            && (x.Ok? && y.Ok? ==> && (z == Ok(Null) <==> x.value.Null? || y.value.Null?)
                                   && (z.Err? <==> op == NoOp && !x.value.Null? && !y.value.Null?)
                                   && (z.Err? ==> z == Err(Internal)))
  {
  }

  /** What is delivered: `column = n`, and so on, on a row with a number in the column. */
  lemma ColumnAgainstNumber(column: string, i: int, n: int, row: Row)
    requires column in row && row[column] == Integer(i)
    ensures IsTrue(Comparison(EqualTo, Field(column), Const(Integer(n))), row) <==> i == n
    ensures IsTrue(Comparison(NotEqual, Field(column), Const(Integer(n))), row) <==> i != n
    ensures IsTrue(Comparison(LessThan, Field(column), Const(Integer(n))), row) <==> i < n
    ensures IsTrue(Comparison(LessEqual, Field(column), Const(Integer(n))), row) <==> i <= n
    ensures IsTrue(Comparison(GreatThan, Field(column), Const(Integer(n))), row) <==> i > n
    ensures IsTrue(Comparison(GreatEqual, Field(column), Const(Integer(n))), row) <==> i >= n
  {
    assert Eval(Field(column), row) == Ok(Integer(i)) && Eval(Const(Integer(n)), row) == Ok(Integer(n));
  }

  /** On two values an operator and its opposite have opposite truth; NULL on either side is Unknown for
      every operator, and the unsupported one fails on anything else. */
  lemma OppositeComparisons(l: Value, r: Value)
    ensures forall op: CompOp :: l.Null? || r.Null? ==> Compare(op, l, r) == Ok(Null)
    ensures !l.Null? && !r.Null? ==> Compare(NoOp, l, r).Err?
    ensures TruthOf(Compare(NotEqual, l, r).value) == Negation(TruthOf(Compare(EqualTo, l, r).value))
    ensures TruthOf(Compare(LessThan, l, r).value) == Negation(TruthOf(Compare(GreatEqual, l, r).value))
    ensures TruthOf(Compare(GreatThan, l, r).value) == Negation(TruthOf(Compare(LessEqual, l, r).value))
    ensures Compare(LessThan, l, r) == Compare(GreatThan, r, l)
  {
  }

  function Opposite(op: CompOp): CompOp {
    match op
    case EqualTo => NotEqual
    case NotEqual => EqualTo
    case LessThan => GreatEqual
    case GreatEqual => LessThan
    case GreatThan => LessEqual
    case LessEqual => GreatThan
    case NoOp => NoOp
  }

  /** The negation of an expression with the NOT pushed inwards. */
  function Dual(e: Expr): Expr
    decreases e, 1
  {
    match e
    case Comparison(op, l, r) => Comparison(Opposite(op), l, r)
    case Conjunction(kind, cs) => Conjunction(if kind.And? then Or else And, DualAll(cs))
    case Not(c) => c
    case _ => Not(e)
  }

  function DualAll(cs: seq<Expr>): (r: seq<Expr>)
    decreases cs, 0
  {
    if cs == [] then [] else [Dual(cs[0])] + DualAll(cs[1..])
  }

  /** None of the conjunctions that `Dual` turns around is empty. */
  ghost predicate NoneEmpty(e: Expr)
    decreases e
  {
    e.Conjunction? ==> e.children != [] && forall c | c in e.children :: NoneEmpty(c)
  }

  /** The outcome of the negation: the same failure, or the opposite truth. */
  predicate Negates(a: Outcome, b: Outcome) {
    if a.Err? then b == a else b.Ok? && TruthOf(b.value) == Negation(TruthOf(a.value))
  }

  /** De Morgan's laws and the opposite operators together, for trees of any depth: evaluation skips the
      same children on either side, so even the failures are the same. */
  lemma {:induction false} DualNegates(e: Expr, row: Row)
    requires NoneEmpty(e)
    ensures Negates(Eval(e, row), Eval(Dual(e), row))
    decreases e, 1
  {
    match e
    case Comparison(op, l, r) =>
      var lv, rv := Eval(l, row), Eval(r, row);
      if lv.Ok? && rv.Ok? { OppositeComparisons(lv.value, rv.value); }
    case Conjunction(kind, cs) => DualAllNegates(kind, cs, row, false);
    case _ =>
  }

  lemma {:induction false} DualAllNegates(kind: ConjunctionType, cs: seq<Expr>, row: Row, containNull: bool)
    requires forall c | c in cs :: NoneEmpty(c)
    ensures Negates(EvalConjuncts(kind, cs, row, containNull),
                    EvalConjuncts(if kind.And? then Or else And, DualAll(cs), row, containNull))
    decreases cs, 0
  {
    if cs != [] {
      assert cs[0] in cs;
      DualNegates(cs[0], row);
      var v := Eval(cs[0], row);
      DualAllNegates(kind, cs[1..], row, containNull || (v.Ok? && v.value.Null?));
      assert DualAll(cs)[1..] == DualAll(cs[1..]);
    }
  }

  /** AND accepts a row exactly when every child does, failing children included. */
  lemma {:induction false} AndAcceptsIffAllAccept(cs: seq<Expr>, row: Row)
    ensures IsTrue(Conjunction(And, cs), row) <==> forall c | c in cs :: IsTrue(c, row)
  {
    if cs != [] { ConjunctsAccept(cs, row, false); }
  }

  lemma {:induction false} ConjunctsAccept(cs: seq<Expr>, row: Row, containNull: bool)
    ensures EvalConjuncts(And, cs, row, containNull) == Ok(Boolean(true))
            <==> !containNull && forall c | c in cs :: IsTrue(c, row)
    ensures var r := EvalConjuncts(And, cs, row, containNull);
            r.Ok? && !r.value.Null? ==> r.value.Boolean?
    decreases cs
  {
    if cs != [] {
      var v := Eval(cs[0], row);
      assert cs == [cs[0]] + cs[1..];
      if v.Ok? {
        ConjunctsAccept(cs[1..], row, containNull || v.value.Null?);
        ConjunctsAccept(cs[1..], row, containNull);
      }
      assert cs[0] in cs;
    }
  }

  // ---------------------------------------------------------------- the evaluator itself

  /** `Expression::get_value`, dispatching on the expression kind. */
  method GetValue(e: Expr, row: Row) returns (r: Outcome)
    ensures r == Eval(e, row)
    decreases e, 1
  {
    match e
    case Field(n) => r := if n in row then Ok(row[n]) else Err(NotFound);
    case Const(v) => r := Ok(v);
    case Comparison(op, left, right) =>
      r := GetValue(left, row);
      if r.Err? { return; }
      var rv := GetValue(right, row);
      if rv.Err? { return rv; }
      r := Compare(op, r.value, rv.value);
    case Conjunction(kind, cs) => r := ConjunctionGetValue(kind, cs, row);
    case Not(c) =>
      r := GetValue(c, row);
      if r.Ok? && !r.value.Null? { r := Ok(Boolean(!GetBoolean(r.value))); }
    case Other(get) => r := get(row);
  }

  /** `ConjunctionExpr::get_value`: a loop over the children with a `contain_null` flag. */
  method ConjunctionGetValue(kind: ConjunctionType, cs: seq<Expr>, row: Row) returns (r: Outcome)
    ensures r == Eval(Conjunction(kind, cs), row)
    decreases cs, 0
  {
    if cs == [] { return Ok(Boolean(true)); }
    var containNull, i := false, 0;
    while i < |cs|
      invariant 0 <= i <= |cs|
      invariant EvalConjuncts(kind, cs, row, false) == EvalConjuncts(kind, cs[i..], row, containNull)
    {
      var v := GetValue(cs[i], row);
      if v.Err? { return v; }
      if v.value.Null? {
        containNull := true;
      } else {
        var b := GetBoolean(v.value);
        if (kind.And? && !b) || (kind.Or? && b) { return Ok(Boolean(b)); }
      }
      i := i + 1;
    }
    return if containNull then Ok(Null) else Ok(Boolean(kind.And?));
  }
}
