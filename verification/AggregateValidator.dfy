/** The structural check of expressions with aggregates and subqueries
    (src/observer/sql/expr/expression_refactor.cpp). */
module AggregateValidator {

  /** A parsed expression. A function knows whether its name is an aggregate's; a subquery knows how many
      columns it selects; `Other` is any kind the walk does not expect. */
  datatype Node =
    | Field | Value | Other
    | Cast(child: Node) | Not(child: Node) | Like(child: Node) | In(child: Node) | IsNull(child: Node)
    | Comparison(left: Node, right: Node) | Conjunction(left: Node, right: Node) | Arithmetic(left: Node, right: Node)
    | Function(aggregate: bool, params: seq<Node>)
    | Exists(subquery: Node) | Subquery(columns: nat)

  datatype RC = Success | InvalidAggregate | SubqueryMoreThanOneCol | Internal

  // ---------------------------------------------------------------- what is legal

  /** No aggregate inside an aggregate, one argument per aggregate, and one column per subquery unless
      it stands directly under EXISTS or under casts there. */
  ghost predicate Legal(n: Node, inAggregate: bool, multipleColumns: bool)
    decreases n
  {
    match n
    case Field => true
    case Value => true
    case Other => false
    case Cast(c) => Legal(c, inAggregate, multipleColumns)
    case Not(c) => Legal(c, inAggregate, false)
    case Like(c) => Legal(c, inAggregate, false)
    case In(c) => Legal(c, inAggregate, false)
    case IsNull(c) => Legal(c, inAggregate, false)
    case Comparison(l, r) => Legal(l, inAggregate, false) && Legal(r, inAggregate, false)
    case Conjunction(l, r) => Legal(l, inAggregate, false) && Legal(r, inAggregate, false)
    case Arithmetic(l, r) => Legal(l, inAggregate, false) && Legal(r, inAggregate, false)
    case Function(aggregate, ps) =>
      if aggregate then !inAggregate && |ps| == 1 && Legal(ps[0], true, false)
      else forall i | 0 <= i < |ps| :: Legal(ps[i], inAggregate, false)
    case Exists(s) => Legal(s, inAggregate, true)
    case Subquery(columns) => columns <= 1 || multipleColumns
  }

  ghost predicate HasAggregate(n: Node)
    decreases n
  {
    match n
    case Function(aggregate, ps) => aggregate || exists i | 0 <= i < |ps| :: HasAggregate(ps[i])
    case Comparison(l, r) => HasAggregate(l) || HasAggregate(r)
    case Conjunction(l, r) => HasAggregate(l) || HasAggregate(r)
    case Arithmetic(l, r) => HasAggregate(l) || HasAggregate(r)
    case Cast(c) => HasAggregate(c)
    case Not(c) => HasAggregate(c)
    case Like(c) => HasAggregate(c)
    case In(c) => HasAggregate(c)
    case IsNull(c) => HasAggregate(c)
    case Exists(s) => HasAggregate(s)
    case _ => false
  }

  /** A field outside every aggregate. */
  ghost predicate HasBareField(n: Node)
    decreases n
  {
    match n
    case Field => true
    case Function(aggregate, ps) => !aggregate && exists i | 0 <= i < |ps| :: HasBareField(ps[i])
    case Comparison(l, r) => HasBareField(l) || HasBareField(r)
    case Conjunction(l, r) => HasBareField(l) || HasBareField(r)
    case Arithmetic(l, r) => HasBareField(l) || HasBareField(r)
    case Cast(c) => HasBareField(c)
    case Not(c) => HasBareField(c)
    case Like(c) => HasBareField(c)
    case In(c) => HasBareField(c)
    case IsNull(c) => HasBareField(c)
    case Exists(s) => HasBareField(s)
    case _ => false
  }

  /** An expression on its own is accepted when it is legal and does not mix aggregates with bare
      fields. */
  ghost predicate Acceptable(n: Node) {
    Legal(n, false, false) && !(HasAggregate(n) && HasBareField(n))
  }

  /** Inside an aggregate a legal expression has no aggregate. */
  lemma {:induction false} LegalInsideHasNone(n: Node, multipleColumns: bool)
    requires Legal(n, true, multipleColumns)
    ensures !HasAggregate(n)
    decreases n
  {
    match n
    case Function(aggregate, ps) =>
      forall i | 0 <= i < |ps| ensures !HasAggregate(ps[i]) { LegalInsideHasNone(ps[i], false); }
    case Comparison(l, r) => LegalInsideHasNone(l, false); LegalInsideHasNone(r, false);
    case Conjunction(l, r) => LegalInsideHasNone(l, false); LegalInsideHasNone(r, false);
    case Arithmetic(l, r) => LegalInsideHasNone(l, false); LegalInsideHasNone(r, false);
    case Cast(c) => LegalInsideHasNone(c, multipleColumns);
    case Not(c) => LegalInsideHasNone(c, false);
    case Like(c) => LegalInsideHasNone(c, false);
    case In(c) => LegalInsideHasNone(c, false);
    case IsNull(c) => LegalInsideHasNone(c, false);
    case Exists(s) => LegalInsideHasNone(s, true);
    case _ =>
  }

  // ---------------------------------------------------------------- the same, position by position

  function Children(n: Node): seq<Node> {
    match n
    case Function(_, ps) => ps
    case Comparison(l, r) => [l, r]
    case Conjunction(l, r) => [l, r]
    case Arithmetic(l, r) => [l, r]
    case Cast(c) => [c]
    case Not(c) => [c]
    case Like(c) => [c]
    case In(c) => [c]
    case IsNull(c) => [c]
    case Exists(s) => [s]
    case _ => []
  }

  lemma ChildIsSmaller(n: Node, i: nat)
    requires i < |Children(n)|
    ensures Children(n)[i] < n
  {
  }

  /** A way down from a node: at every turn the number of a child. */
  ghost predicate Leads(n: Node, path: seq<nat>)
    decreases |path|
  {
    path == [] || (path[0] < |Children(n)| && Leads(Children(n)[path[0]], path[1..]))
  }

  ghost function At(n: Node, path: seq<nat>): Node
    requires Leads(n, path)
    decreases |path|
  {
    if path == [] then n else At(Children(n)[path[0]], path[1..])
  }

  predicate IsAggregate(n: Node) {
    n.Function? && n.aggregate
  }

  /** An aggregate stands strictly above the end of the path. */
  ghost predicate AggregateAbove(n: Node, path: seq<nat>)
    requires Leads(n, path)
    decreases |path|
  {
    path != [] && (IsAggregate(n) || AggregateAbove(Children(n)[path[0]], path[1..]))
  }

  /** What stands above the end of the path, casts left out, is an EXISTS; above the root is whatever
      `outside` says. */
  ghost predicate UnderExists(n: Node, path: seq<nat>, outside: bool)
    requires Leads(n, path)
    decreases |path|
  {
    if path == [] then outside
    else UnderExists(Children(n)[path[0]], path[1..], n.Exists? || (n.Cast? && outside))
  }

  /** What is legal at one position. */
  ghost predicate LegalAt(n: Node, path: seq<nat>, inAggregate: bool, multipleColumns: bool)
    requires Leads(n, path)
  {
    var x := At(n, path);
    && !x.Other?
    && (IsAggregate(x) ==> |x.params| == 1 && !inAggregate && !AggregateAbove(n, path))
    && (x.Subquery? && x.columns > 1 ==> UnderExists(n, path, multipleColumns))
  }

  ghost predicate LegalEverywhere(n: Node, inAggregate: bool, multipleColumns: bool) {
    forall path | Leads(n, path) :: LegalAt(n, path, inAggregate, multipleColumns)
  }

  /** What a node hands down to its children. */
  predicate Inside(n: Node, inAggregate: bool) {
    inAggregate || IsAggregate(n)
  }

  predicate Several(n: Node, multipleColumns: bool) {
    n.Exists? || (n.Cast? && multipleColumns)
  }

  lemma Down(n: Node, i: nat, rest: seq<nat>, inAggregate: bool, multipleColumns: bool)
    requires i < |Children(n)| && Leads(Children(n)[i], rest)
    ensures Leads(n, [i] + rest) && At(n, [i] + rest) == At(Children(n)[i], rest)
    ensures AggregateAbove(n, [i] + rest) <==> IsAggregate(n) || AggregateAbove(Children(n)[i], rest)
    ensures LegalAt(n, [i] + rest, inAggregate, multipleColumns)
            <==> LegalAt(Children(n)[i], rest, Inside(n, inAggregate), Several(n, multipleColumns))
  {
    hide Children, IsAggregate;
    assert ([i] + rest)[1..] == rest;
  }

  lemma Up(n: Node, path: seq<nat>)
    requires Leads(n, path) && path != []
    ensures path[0] < |Children(n)| && Leads(Children(n)[path[0]], path[1..]) && path == [path[0]] + path[1..]
  {
  }

  /** The children are legal on the terms handed down. */
  ghost predicate LegalBelow(n: Node, inAggregate: bool, multipleColumns: bool) {
    forall i | 0 <= i < |Children(n)| ::
      Legal(Children(n)[i], Inside(n, inAggregate), Several(n, multipleColumns))
  }

  lemma LegalByChildren(n: Node, inAggregate: bool, multipleColumns: bool)
    ensures Legal(n, inAggregate, multipleColumns) <==>
              LegalAt(n, [], inAggregate, multipleColumns) && LegalBelow(n, inAggregate, multipleColumns)
  {
    LegalRoot(n, inAggregate, multipleColumns);
    var down, several := Inside(n, inAggregate), Several(n, multipleColumns);
    if n.Function? {
      if !n.aggregate || |n.params| == 1 { assert Children(n) == n.params; }
    } else if n.Comparison? || n.Conjunction? || n.Arithmetic? {
      TwoBelow(n, n.left, n.right, inAggregate, multipleColumns);
    } else if Children(n) != [] {
      OneBelow(n, Children(n)[0], inAggregate, multipleColumns);
    }
  }

  lemma LegalRoot(n: Node, inAggregate: bool, multipleColumns: bool)
    ensures LegalAt(n, [], inAggregate, multipleColumns) <==>
              && !n.Other? && (IsAggregate(n) ==> |n.params| == 1 && !inAggregate)
              && (n.Subquery? && n.columns > 1 ==> multipleColumns)
  {
    assert At(n, []) == n;
  }

  lemma OneBelow(n: Node, c: Node, inAggregate: bool, multipleColumns: bool)
    requires Children(n) == [c]
    ensures LegalBelow(n, inAggregate, multipleColumns)
            <==> Legal(c, Inside(n, inAggregate), Several(n, multipleColumns))
  {
    hide Legal, Inside, Several;
    assert Children(n)[0] == c;
  }

  lemma TwoBelow(n: Node, l: Node, r: Node, inAggregate: bool, multipleColumns: bool)
    requires Children(n) == [l, r]
    ensures LegalBelow(n, inAggregate, multipleColumns)
            <==> && Legal(l, Inside(n, inAggregate), Several(n, multipleColumns))
                 && Legal(r, Inside(n, inAggregate), Several(n, multipleColumns))
  {
    hide Legal, Inside, Several;
    assert Children(n)[0] == l && Children(n)[1] == r;
  }

  lemma EverywhereByChildren(n: Node, inAggregate: bool, multipleColumns: bool)
    ensures LegalEverywhere(n, inAggregate, multipleColumns) <==>
              && LegalAt(n, [], inAggregate, multipleColumns)
              && forall i | 0 <= i < |Children(n)| ::
                   LegalEverywhere(Children(n)[i], Inside(n, inAggregate), Several(n, multipleColumns))
  {
    hide LegalAt, Children, Inside, Several, At, AggregateAbove;
    var down, several := Inside(n, inAggregate), Several(n, multipleColumns);
    assert Leads(n, []);
    if LegalEverywhere(n, inAggregate, multipleColumns) {
      forall i | 0 <= i < |Children(n)| ensures LegalEverywhere(Children(n)[i], down, several) {
        forall rest | Leads(Children(n)[i], rest) ensures LegalAt(Children(n)[i], rest, down, several) {
          Down(n, i, rest, inAggregate, multipleColumns);
        }
      }
    }
    if && LegalAt(n, [], inAggregate, multipleColumns)
       && forall i | 0 <= i < |Children(n)| :: LegalEverywhere(Children(n)[i], down, several) {
      forall path | Leads(n, path) ensures LegalAt(n, path, inAggregate, multipleColumns) {
        if path != [] {
          Up(n, path);
          Down(n, path[0], path[1..], inAggregate, multipleColumns);
        }
      }
    }
  }

  /** A node is legal exactly when every position in it is: nothing unexpected, aggregates with one
      argument and none above them, and several columns only under EXISTS. */
  lemma {:induction false} LegalIffEverywhere(n: Node, inAggregate: bool, multipleColumns: bool)
    ensures Legal(n, inAggregate, multipleColumns) <==> LegalEverywhere(n, inAggregate, multipleColumns)
    decreases n
  {
    LegalByChildren(n, inAggregate, multipleColumns);
    EverywhereByChildren(n, inAggregate, multipleColumns);
    hide Legal, LegalEverywhere, LegalAt, Inside, Several;
    var down, several := Inside(n, inAggregate), Several(n, multipleColumns);
    forall i | 0 <= i < |Children(n)|
      ensures Legal(Children(n)[i], down, several) <==> LegalEverywhere(Children(n)[i], down, several)
    {
      ChildIsSmaller(n, i);
      LegalIffEverywhere(Children(n)[i], down, several);
    }
  }

  ghost predicate AggregateAt(n: Node, path: seq<nat>) {
    Leads(n, path) && IsAggregate(At(n, path))
  }

  ghost predicate BareFieldAt(n: Node, path: seq<nat>) {
    Leads(n, path) && At(n, path).Field? && !AggregateAbove(n, path)
  }

  lemma ByChildren(n: Node)
    ensures HasAggregate(n) <==> IsAggregate(n) || exists i | 0 <= i < |Children(n)| :: HasAggregate(Children(n)[i])
    ensures HasBareField(n) <==>
              n.Field? || (!IsAggregate(n) && exists i | 0 <= i < |Children(n)| :: HasBareField(Children(n)[i]))
  {
    var cs := Children(n);
    if n.Comparison? || n.Conjunction? || n.Arithmetic? {
      assert cs == [n.left, n.right] && cs[0] == n.left && cs[1] == n.right;
    } else if !n.Function? && cs != [] {
      assert cs[0] == cs[0];
    }
  }

  /** The two flags: some position holds an aggregate; some position outside every aggregate a field. */
  lemma {:induction false} FlagsByPosition(n: Node)
    ensures HasAggregate(n) <==> exists path :: AggregateAt(n, path)
    ensures HasBareField(n) <==> exists path :: BareFieldAt(n, path)
    decreases n
  {
    ByChildren(n);
    forall i | 0 <= i < |Children(n)|
      ensures HasAggregate(Children(n)[i]) <==> exists path :: AggregateAt(Children(n)[i], path)
      ensures HasBareField(Children(n)[i]) <==> exists path :: BareFieldAt(Children(n)[i], path)
    {
      ChildIsSmaller(n, i);
      FlagsByPosition(Children(n)[i]);
    }
    FlagsDown(n);
    FlagsUp(n);
  }

  lemma FlagsDown(n: Node)
    ensures IsAggregate(n) ==> AggregateAt(n, [])
    ensures n.Field? ==> BareFieldAt(n, [])
    ensures forall i, rest | 0 <= i < |Children(n)| && AggregateAt(Children(n)[i], rest) :: AggregateAt(n, [i] + rest)
    ensures !IsAggregate(n) ==>
              forall i, rest | 0 <= i < |Children(n)| && BareFieldAt(Children(n)[i], rest) :: BareFieldAt(n, [i] + rest)
  {
    hide Children;
    forall i, rest | 0 <= i < |Children(n)| && Leads(Children(n)[i], rest)
      ensures Leads(n, [i] + rest) && At(n, [i] + rest) == At(Children(n)[i], rest)
      ensures AggregateAbove(n, [i] + rest) <==> IsAggregate(n) || AggregateAbove(Children(n)[i], rest)
    {
      Down(n, i, rest, false, false);
    }
  }

  lemma FlagsUp(n: Node)
    ensures (exists path :: AggregateAt(n, path)) ==>
              IsAggregate(n) || exists i, rest :: 0 <= i < |Children(n)| && AggregateAt(Children(n)[i], rest)
    ensures (exists path :: BareFieldAt(n, path)) ==>
              n.Field? ||
              (!IsAggregate(n) && exists i, rest :: 0 <= i < |Children(n)| && BareFieldAt(Children(n)[i], rest))
  {
    hide Children;
    if path :| AggregateAt(n, path) {
      if path != [] {
        Up(n, path);
        Down(n, path[0], path[1..], false, false);
        assert AggregateAt(Children(n)[path[0]], path[1..]);
      }
    }
    if path :| BareFieldAt(n, path) {
      if path != [] {
        Up(n, path);
        Down(n, path[0], path[1..], false, false);
        assert BareFieldAt(Children(n)[path[0]], path[1..]);
      }
    }
  }

  // ---------------------------------------------------------------- the walk

  class Validator {
    var allowAggregate: bool
    var allowNonAggregate: bool

    constructor ()
      ensures allowAggregate && allowNonAggregate
    {
      allowAggregate, allowNonAggregate := true, true;
    }

    predicate GotAggregate()
      reads this
    {
      !allowNonAggregate
    }

    predicate GotField()
      reads this
    {
      !allowAggregate
    }

    /** Not both kinds have been seen so far. */
    predicate Consistent()
      reads this
    {
      !(GotAggregate() && GotField())
    }

    /** `validate`: succeeds exactly on acceptable expressions, and then its flags say what they mean. */
    method Validate(n: Node) returns (rc: RC)
      modifies this
      ensures rc.Success? <==> Acceptable(n)
      ensures rc.Success? ==> (GotAggregate() <==> HasAggregate(n)) && (GotField() <==> HasBareField(n))
    {
      allowAggregate, allowNonAggregate := true, true;
      rc := Walk(n, false, false);
    }

    /** The recursive walk. Outside aggregates the flags accumulate what was seen before and in the
        expression, and a mixture fails; inside an aggregate only the field flag may change, which
        the aggregate resets. */
    method Walk(n: Node, inAggregate: bool, multipleColumns: bool) returns (rc: RC)
      requires inAggregate || Consistent()
      modifies this
      ensures inAggregate ==>
                && (rc.Success? <==> Legal(n, true, multipleColumns))
                && (rc.Success? ==> allowNonAggregate == old(allowNonAggregate))
      ensures !inAggregate ==>
                (rc.Success? <==>
                   && Legal(n, false, multipleColumns)
                   && !((old(GotAggregate()) || HasAggregate(n)) && (old(GotField()) || HasBareField(n))))
      ensures !inAggregate && rc.Success? ==>
                && (GotAggregate() <==> old(GotAggregate()) || HasAggregate(n))
                && (GotField() <==> old(GotField()) || HasBareField(n))
      decreases n
    {
      match n
      case Field =>
        if !allowNonAggregate && !inAggregate { return InvalidAggregate; }
        allowAggregate := false;
        return Success;
      case Value => return Success;
      case Other => return Internal;
      case Cast(c) => rc := Walk(c, inAggregate, multipleColumns);
      case Not(c) => rc := Walk(c, inAggregate, false);
      case Like(c) => rc := Walk(c, inAggregate, false);
      case In(c) => rc := Walk(c, inAggregate, false);
      case IsNull(c) => rc := Walk(c, inAggregate, false);
      case Comparison(l, r) =>
        rc := Walk(l, inAggregate, false);
        if !rc.Success? { return; }
        rc := Walk(r, inAggregate, false);
      case Conjunction(l, r) =>
        rc := Walk(l, inAggregate, false);
        if !rc.Success? { return; }
        rc := Walk(r, inAggregate, false);
      case Arithmetic(l, r) =>
        rc := Walk(l, inAggregate, false);
        if !rc.Success? { return; }
        rc := Walk(r, inAggregate, false);
      case Function(aggregate, params) =>
        if aggregate {
          if inAggregate { return InvalidAggregate; }
          if !allowAggregate { return InvalidAggregate; }
          allowNonAggregate := false;
          if |params| != 1 { return InvalidAggregate; }
          rc := Walk(params[0], true, false);
          allowAggregate := true;
          return;
        }
        rc := WalkAll(params, inAggregate);
      case Exists(s) => rc := Walk(s, inAggregate, true);
      case Subquery(columns) =>
        if columns > 1 && !multipleColumns { return SubqueryMoreThanOneCol; }
        return Success;
    }

    /** The loop over the arguments of an ordinary function. */
    method WalkAll(ps: seq<Node>, inAggregate: bool) returns (rc: RC)
      requires inAggregate || Consistent()
      modifies this
      ensures inAggregate ==>
                && (rc.Success? <==> forall i | 0 <= i < |ps| :: Legal(ps[i], true, false))
                && (rc.Success? ==> allowNonAggregate == old(allowNonAggregate))
      ensures !inAggregate ==>
                (rc.Success? <==>
                   && (forall i | 0 <= i < |ps| :: Legal(ps[i], false, false))
                   && !((old(GotAggregate()) || AnyAggregate(ps)) && (old(GotField()) || AnyBareField(ps))))
      ensures !inAggregate && rc.Success? ==>
                && (GotAggregate() <==> old(GotAggregate()) || AnyAggregate(ps))
                && (GotField() <==> old(GotField()) || AnyBareField(ps))
      decreases ps, 0
    {
      hide Legal, HasAggregate, HasBareField;
      for k := 0 to |ps|
        invariant inAggregate || Consistent()
        invariant forall i | 0 <= i < k :: Legal(ps[i], inAggregate, false)
        invariant inAggregate ==> allowNonAggregate == old(allowNonAggregate)
        invariant !inAggregate ==> (GotAggregate() <==> old(GotAggregate()) || AnyAggregate(ps[..k]))
        invariant !inAggregate ==> (GotField() <==> old(GotField()) || AnyBareField(ps[..k]))
      {
        AnyStep(ps, k);
        AnyWhole(ps, k);
        rc := Walk(ps[k], inAggregate, false);
        if !rc.Success? { return; }
      }
      assert ps[..|ps|] == ps;
      rc := Success;
    }
  }

  ghost predicate AnyAggregate(ps: seq<Node>) {
    exists i | 0 <= i < |ps| :: HasAggregate(ps[i])
  }

  ghost predicate AnyBareField(ps: seq<Node>) {
    exists i | 0 <= i < |ps| :: HasBareField(ps[i])
  }

  lemma AnyStep(ps: seq<Node>, k: nat)
    requires k < |ps|
    ensures AnyAggregate(ps[..k + 1]) <==> AnyAggregate(ps[..k]) || HasAggregate(ps[k])
    ensures AnyBareField(ps[..k + 1]) <==> AnyBareField(ps[..k]) || HasBareField(ps[k])
  {
    hide HasAggregate, HasBareField;
    var a, b := ps[..k], ps[..k + 1];
    assert b[k] == ps[k] && forall i | 0 <= i < k :: a[i] == b[i];
    if i :| 0 <= i < |a| && HasAggregate(a[i]) { assert HasAggregate(b[i]); }
    if i :| 0 <= i < |a| && HasBareField(a[i]) { assert HasBareField(b[i]); }
  }

  lemma AnyWhole(ps: seq<Node>, k: nat)
    requires k < |ps|
    ensures AnyAggregate(ps[..k + 1]) ==> AnyAggregate(ps)
    ensures AnyBareField(ps[..k + 1]) ==> AnyBareField(ps)
  {
  }

  /** The check of a select list: every expression on its own, and no aggregate in one together with a
      bare field in another. */
  method CheckList(list: seq<Node>) returns (rc: RC)
    ensures rc.Success? <==>
              (forall i | 0 <= i < |list| :: Acceptable(list[i])) && !(AnyAggregate(list) && AnyBareField(list))
  {
    hide Acceptable, HasAggregate, HasBareField;
    var allowAggregate, allowNonAggregate := true, true;
    var validator := new Validator();
    for k := 0 to |list|
      invariant forall i | 0 <= i < k :: Acceptable(list[i])
      invariant allowNonAggregate <==> !AnyAggregate(list[..k])
      invariant allowAggregate <==> !AnyBareField(list[..k])
      invariant allowAggregate || allowNonAggregate
    {
      AnyStep(list, k);
      AnyWhole(list, k);
      rc := validator.Validate(list[k]);
      if !rc.Success? { return; }
      if validator.GotAggregate() {
        if !allowAggregate { return InvalidAggregate; }
        allowNonAggregate := false;
      }
      if validator.GotField() {
        if !allowNonAggregate { return InvalidAggregate; }
        allowAggregate := false;
      }
    }
    assert list[..|list|] == list;
    rc := Success;
  }
}
