/** The rewrite rules, one rewriting pass, and the fixpoint loop (predicate_rewrite.cpp,
    predicate_pushdown_rewriter.cpp, rewriter.cpp, optimize_stage.cpp). The expression rewriting rule
    of the rule list has an empty list of its own rules and changes nothing. */
module Rewriter {
  import opened Wrappers
  import opened Expressions
  import opened PredicatePushdown
  import opened Conjuncts
  import opened LogicalPlan

  datatype Rewritten = Rewritten(plan: Plan, changed: bool)

  datatype RewrittenAll = RewrittenAll(plans: seq<Plan>, changed: bool)

  function Size(p: Plan): nat
    decreases p, 1
  {
    1 + SizeAll(p.children)
  }

  function SizeAll(ps: seq<Plan>): nat
    decreases ps, 0
  {
    if ps == [] then 0 else Size(ps[0]) + SizeAll(ps[1..])
  }

  /** A constant whose boolean value is true; NULL counts as false. */
  predicate ConstTrue(e: Expr) {
    e.Const? && !e.value.Null? && GetBoolean(e.value)
  }

  /** The only child is a predicate operator over one constant. */
  predicate Splicable(p: Plan) {
    && |p.children| == 1
    && p.children[0].kind.Predicate?
    && |p.children[0].exprs| == 1
    && p.children[0].exprs[0].Const?
  }

  /** `PredicateRewriteRule::rewrite`: the parent of a constant predicate takes over the
      grandchildren when the constant is true and is left without children otherwise. */
  function Splice(p: Plan): (r: Rewritten)
    ensures SizeAll(r.plan.children) <= SizeAll(p.children)
  {
    if !Splicable(p) then Rewritten(p, false)
    else if ConstTrue(p.children[0].exprs[0]) then Rewritten(p.(children := p.children[0].children), true)
    else Rewritten(p.(children := []), true)
  }

  predicate OverTableGet(p: Plan) {
    && p.kind.Predicate?
    && |p.children| == 1
    && p.children[0].kind.TableGet?
    && |p.exprs| == 1
  }

  /** `PredicatePushdownRewriter::rewrite`: the scan's predicates are replaced, not extended. */
  function Pushdown(p: Plan): (r: Rewritten)
    ensures SizeAll(r.plan.children) == SizeAll(p.children)
  {
    if !OverTableGet(p) || Split(p.exprs[0]).pushed == [] then Rewritten(p, false)
    else
      var get := p.children[0];
      var filled := get.(kind := TableGet(get.kind.table, Split(p.exprs[0]).pushed));
      Rewritten(p.(exprs := [Residual(p.exprs[0])], children := [filled]), true)
  }

  /** One pass: the rules at this operator, then the children of what they made of it. */
  function Rewrite(p: Plan): Rewritten
    decreases Size(p), 1
  {
    var a := Splice(p);
    var b := Pushdown(a.plan);
    var c := RewriteAll(b.plan.children);
    Rewritten(b.plan.(children := c.plans), a.changed || b.changed || c.changed)
  }

  function RewriteAll(ps: seq<Plan>): (r: RewrittenAll)
    ensures |r.plans| == |ps|
    decreases SizeAll(ps), 2 + |ps|
  {
    if ps == [] then RewrittenAll([], false)
    else
      var h, t := Rewrite(ps[0]), RewriteAll(ps[1..]);
      RewrittenAll([h.plan] + t.plans, h.changed || t.changed)
  }

  // ---------------------------------------------------------------- termination

  function PushCount(es: seq<Expr>): nat {
    if |es| == 1 then |Split(es[0]).pushed| else 0
  }

  /** Predicate operators plus the conjuncts they could still push. */
  function Measure(p: Plan): nat
    decreases p, 1
  {
    (if p.kind.Predicate? then 1 + PushCount(p.exprs) else 0) + MeasureAll(p.children)
  }

  function MeasureAll(ps: seq<Plan>): nat
    decreases ps, 0
  {
    if ps == [] then 0 else Measure(ps[0]) + MeasureAll(ps[1..])
  }

  /** Every pass that reports a change lowers the measure; a pass that reports none left the plan
      exactly as it was. */
  lemma {:induction false} RewriteShrinks(p: Plan)
    ensures var r := Rewrite(p);
            if r.changed then Measure(r.plan) < Measure(p) else r.plan == p
    decreases Size(p), 1
  {
    var a := Splice(p);
    var b := Pushdown(a.plan);
    SpliceShrinks(p);
    PushdownShrinks(a.plan);
    RewriteAllShrinks(b.plan.children);
  }

  lemma SpliceShrinks(p: Plan)
    ensures var r := Splice(p); if r.changed then Measure(r.plan) < Measure(p) else r.plan == p
  {
    if Splicable(p) { assert MeasureAll(p.children) == Measure(p.children[0]); }
  }

  lemma PushdownShrinks(p: Plan)
    ensures var r := Pushdown(p); if r.changed then Measure(r.plan) < Measure(p) else r.plan == p
  {
    var r := Pushdown(p);
    if r.changed {
      ResidualPushesNothing(p.exprs[0]);
      assert MeasureAll(p.children) == Measure(p.children[0]);
      assert MeasureAll(r.plan.children) == Measure(r.plan.children[0]);
    }
  }

  lemma {:induction false} RewriteAllShrinks(ps: seq<Plan>)
    ensures var r := RewriteAll(ps);
            if r.changed then MeasureAll(r.plans) < MeasureAll(ps) else r.plans == ps
    decreases SizeAll(ps), 2 + |ps|
  {
    if ps != [] {
      RewriteShrinks(ps[0]);
      RewriteAllShrinks(ps[1..]);
      assert RewriteAll(ps).plans[1..] == RewriteAll(ps[1..]).plans;
      assert ps == [ps[0]] + ps[1..];
    }
  }

  /** The plan the fixpoint loop ends with. */
  function Fixpoint(p: Plan): Plan
    decreases Measure(p)
  {
    RewriteShrinks(p);
    var r := Rewrite(p);
    if r.changed then Fixpoint(r.plan) else r.plan
  }

  /** No rule applies anywhere in the plan. */
  ghost predicate Normal(p: Plan)
    decreases p
  {
    && !Splicable(p)
    && !(OverTableGet(p) && Split(p.exprs[0]).pushed != [])
    && forall c | c in p.children :: Normal(c)
  }

  predicate ColumnEquality(e: Expr) {
    e.Comparison? && e.comp == EqualTo && (e.left.Field? || e.right.Field?)
  }

  /** What an optimized plan looks like: no operator has as its only child a predicate over one constant,
      and no predicate right above a table scan has an equality with a column among its conjuncts. */
  ghost predicate Settled(p: Plan)
    decreases p
  {
    && (|p.children| == 1 && p.children[0].kind.Predicate? && |p.children[0].exprs| == 1 ==>
          !p.children[0].exprs[0].Const?)
    && (|p.children| == 1 && p.children[0].kind.TableGet? && p.kind.Predicate? && |p.exprs| == 1 ==>
          forall e | e in Leaves(p.exprs[0]) :: !ColumnEquality(e))
    && forall c | c in p.children :: Settled(c)
  }

  lemma {:induction false} PushedNothingIff(ls: seq<Expr>)
    ensures Pushed(ls) == [] <==> forall e | e in ls :: !ColumnEquality(e)
  {
    if ls != [] {
      CanPushIffAColumnSide(ls[0]);
      assert CanPush(ls[0]) <==> ColumnEquality(ls[0]);
      PushedNothingIff(ls[1..]);
      hide CanPush, ColumnEquality;
      assert ls[0] in ls && forall e :: e in ls <==> e == ls[0] || e in ls[1..];
    }
  }

  lemma {:induction false} NormalIffSettled(p: Plan)
    ensures Normal(p) <==> Settled(p)
    decreases p
  {
    if |p.exprs| == 1 {
      SplitByLeaves(p.exprs[0]);
      PushedNothingIff(Leaves(p.exprs[0]));
    }
    forall c | c in p.children ensures Normal(c) <==> Settled(c) { NormalIffSettled(c); }
  }

  lemma {:induction false} UnchangedIffNormal(p: Plan)
    ensures Rewrite(p).changed <==> !Normal(p)
    decreases Size(p), 1
  {
    if !Splice(p).changed && !Pushdown(p).changed { UnchangedAllIffNormal(p.children); }
  }

  lemma {:induction false} UnchangedAllIffNormal(ps: seq<Plan>)
    ensures RewriteAll(ps).changed <==> exists c :: c in ps && !Normal(c)
    decreases SizeAll(ps), 2 + |ps|
  {
    if ps != [] {
      UnchangedIffNormal(ps[0]);
      UnchangedAllIffNormal(ps[1..]);
      assert forall c :: c in ps <==> c == ps[0] || c in ps[1..];
    }
  }

  /** The loop ends in a plan no rule applies to, and rewriting that plan again is the identity. */
  lemma {:induction false} FixpointIsNormal(p: Plan)
    ensures Normal(Fixpoint(p)) && Settled(Fixpoint(p))
    ensures Fixpoint(Fixpoint(p)) == Fixpoint(p)
    decreases Measure(p)
  {
    RewriteShrinks(p);
    UnchangedIffNormal(p);
    if Rewrite(p).changed { FixpointIsNormal(Rewrite(p).plan); } else { NormalIffSettled(p); }
  }

  // ---------------------------------------------------------------- when the meaning is kept

  predicate Pushes(e: Expr) {
    Split(e).pushed != []
  }

  /** The predicate operator over this expression will disappear once it is above a table scan. */
  predicate Bare(e: Expr) {
    Split(e).rest.None?
  }

  /** A table scan will come up to the place of this operator. */
  predicate Reaches(p: Plan)
    decreases p
  {
    p.kind.TableGet? ||
    (p.kind.Predicate? && |p.exprs| == 1 && |p.children| == 1 &&
     (ConstTrue(p.exprs[0]) || Bare(p.exprs[0])) && Reaches(p.children[0]))
  }

  /** A table scan that already carries predicates will come up to the place of this operator. */
  predicate Filled(p: Plan)
    decreases p
  {
    (p.kind.TableGet? && p.kind.predicates != []) ||
    (p.kind.Predicate? && |p.exprs| == 1 && |p.children| == 1 &&
     ((ConstTrue(p.exprs[0]) && Filled(p.children[0])) || (Bare(p.exprs[0]) && Reaches(p.children[0]))))
  }

  /** The table whose scan comes up. */
  function TableOf(p: Plan): string
    requires Reaches(p)
    decreases p
  {
    if p.kind.TableGet? then p.kind.table else TableOf(p.children[0])
  }

  /** A parent that has this operator as its only child will be left without children: it is a constant
      false or NULL, possibly under constants that are true. */
  predicate Vanishes(p: Plan)
    decreases p
  {
    && p.kind.Predicate? && |p.exprs| == 1 && p.exprs[0].Const?
    && (ConstTrue(p.exprs[0]) ==> |p.children| == 0 || (|p.children| == 1 && Vanishes(p.children[0])))
  }

  /** Without children the operator means what it means over its only child. */
  predicate SameWithout(eng: Engine, p: Plan)
    requires |p.children| == 1
  {
    NodeMeaning(eng, p.kind, p.exprs, []) == NodeMeaning(eng, p.kind, p.exprs, [Meaning(eng, p.children[0])])
  }

  predicate Pushing(p: Plan) {
    p.kind.Predicate? && |p.exprs| == 1 && |p.children| == 1 && Pushes(p.exprs[0]) && Reaches(p.children[0])
  }

  /** What one operator must satisfy: a constant true has at most one child to pass on; an only child
      that vanishes is not missed; and what a predicate pushes lands on a scan without predicates,
      on whose rows the split changes no failure. */
  ghost predicate NodeRewritable(eng: Engine, p: Plan) {
    && (p.kind.Predicate? && |p.exprs| == 1 && ConstTrue(p.exprs[0]) ==> |p.children| <= 1)
    && (|p.children| == 1 && Vanishes(p.children[0]) ==> SameWithout(eng, p))
    && (Pushing(p) ==>
          && !Filled(p.children[0])
          && forall r: Row | r in eng.table(TableOf(p.children[0])).rows :: SplitSafe(p.exprs[0], r))
  }

  ghost predicate Rewritable(eng: Engine, p: Plan)
    decreases p
  {
    NodeRewritable(eng, p) && forall i | 0 <= i < |p.children| :: Rewritable(eng, p.children[i])
  }

  /** What a rewriting step keeps: the meaning, and what the operators above rely on. */
  ghost predicate Keeps(eng: Engine, p: Plan, q: Plan) {
    && Rewritable(eng, q)
    && Meaning(eng, q) == Meaning(eng, p)
    && (Reaches(q) ==> Reaches(p) && TableOf(q) == TableOf(p))
    && (Filled(q) ==> Filled(p))
    && (Vanishes(q) ==> Vanishes(p))
  }

  lemma OneInput(eng: Engine, p: Plan)
    requires |p.children| == 1
    ensures MeaningAll(eng, p.children) == [Meaning(eng, p.children[0])]
  {
    MeaningAllAt(eng, p.children, 0);
  }

  lemma SpliceKeeps(eng: Engine, p: Plan)
    requires Rewritable(eng, p)
    ensures Keeps(eng, p, Splice(p).plan)
  {
    if Splicable(p) {
      var c := p.children[0];
      assert Rewritable(eng, c);
      OneInput(eng, p);
      if ConstTrue(c.exprs[0]) && c.children != [] {
        SpliceTrueKeeps(eng, p, c, c.children[0]);
      } else {
        assert Vanishes(c);
        assert MeaningAll(eng, []) == [];
      }
    }
  }

  lemma SpliceTrueKeeps(eng: Engine, p: Plan, c: Plan, g: Plan)
    requires Rewritable(eng, p) && p.children == [c] && c.children == [g]
    requires c.kind.Predicate? && |c.exprs| == 1 && ConstTrue(c.exprs[0])
    ensures Keeps(eng, p, p.(children := [g]))
  {
    var q := p.(children := [g]);
    assert Rewritable(eng, c);
    assert Rewritable(eng, g);
    OneInput(eng, p);
    OneInput(eng, c);
    OneInput(eng, q);
    SelectConst(c.exprs[0], Meaning(eng, g));
    assert c.exprs == [c.exprs[0]];
    assert Meaning(eng, c) == Meaning(eng, g);
  }

  lemma PushdownKeeps(eng: Engine, p: Plan)
    requires Rewritable(eng, p)
    ensures Keeps(eng, p, Pushdown(p).plan)
  {
    var q := Pushdown(p).plan;
    if q != p {
      var e, get := p.exprs[0], p.children[0];
      var s := eng.table(get.kind.table);
      ResidualPushesNothing(e);
      assert Pushing(p);
      assert get.kind.predicates == [] && Select([], s) == s by { SelectNothing(s); }
      OneInput(eng, p);
      OneInput(eng, q);
      PushdownStream(e, s);
      assert p.exprs == [e];
      assert Meaning(eng, q) == Meaning(eng, p);
      FilledScan(eng, get, Split(e).pushed);
      assert Rewritable(eng, q);
    }
  }

  lemma {:induction false} SelectNothing(s: Stream)
    ensures Select([], s) == s
    decreases |s.rows|
  {
    if s.rows != [] {
      var rest := s.(rows := s.rows[1..]);
      SelectNothing(rest);
      assert Select([], s) == rest.(rows := [s.rows[0]] + rest.rows);
      assert s.rows == [s.rows[0]] + s.rows[1..];
    }
  }

  lemma FilledScan(eng: Engine, get: Plan, predicates: seq<Expr>)
    requires Rewritable(eng, get) && get.kind.TableGet?
    ensures Rewritable(eng, get.(kind := TableGet(get.kind.table, predicates)))
  {
  }

  /** A pass keeps the meaning of every plan that meets the conditions, and keeps the conditions. */
  lemma {:induction false} RewriteKeeps(eng: Engine, p: Plan)
    requires Rewritable(eng, p)
    ensures Keeps(eng, p, Rewrite(p).plan)
    decreases Size(p), 1
  {
    var a := Splice(p).plan;
    var b := Pushdown(a).plan;
    SpliceKeeps(eng, p);
    PushdownKeeps(eng, a);
    RewriteAllKeeps(eng, b.children);
    ChildrenKeep(eng, b, RewriteAll(b.children).plans);
  }

  lemma {:induction false} RewriteAllKeeps(eng: Engine, ps: seq<Plan>)
    requires forall i | 0 <= i < |ps| :: Rewritable(eng, ps[i])
    ensures forall i | 0 <= i < |ps| :: Keeps(eng, ps[i], RewriteAll(ps).plans[i])
    decreases SizeAll(ps), 2 + |ps|
  {
    if ps != [] {
      RewriteKeeps(eng, ps[0]);
      RewriteAllKeeps(eng, ps[1..]);
      forall i | 0 <= i < |ps| ensures Keeps(eng, ps[i], RewriteAll(ps).plans[i]) {
        if i > 0 { assert ps[i] == ps[1..][i - 1] && RewriteAll(ps).plans[i] == RewriteAll(ps[1..]).plans[i - 1]; }
      }
    }
  }

  lemma ChildrenKeep(eng: Engine, p: Plan, qs: seq<Plan>)
    requires Rewritable(eng, p)
    requires |qs| == |p.children|
    requires forall i | 0 <= i < |qs| :: Keeps(eng, p.children[i], qs[i])
    ensures Keeps(eng, p, p.(children := qs))
  {
    forall i | 0 <= i < |qs| ensures MeaningAll(eng, qs)[i] == MeaningAll(eng, p.children)[i] {
      MeaningAllAt(eng, qs, i);
      MeaningAllAt(eng, p.children, i);
    }
    assert MeaningAll(eng, qs) == MeaningAll(eng, p.children);
  }

  /** The fixpoint loop keeps the meaning, for every stored data and every meaning of the
      operators it does not look into. */
  lemma {:induction false} FixpointKeepsMeaning(eng: Engine, p: Plan)
    requires Rewritable(eng, p)
    ensures Meaning(eng, Fixpoint(p)) == Meaning(eng, p)
    ensures Rewritable(eng, Fixpoint(p))
    decreases Measure(p)
  {
    RewriteShrinks(p);
    RewriteKeeps(eng, p);
    if Rewrite(p).changed { FixpointKeepsMeaning(eng, Rewrite(p).plan); }
  }

  // ---------------------------------------------------------------- where the conditions matter

  /** Splicing keeps the meaning exactly when the constant is true or the parent means the same
      without children as over a child that delivers nothing and ends as the grandchild does. */
  lemma SpliceKeepsMeaningIff(eng: Engine, p: Plan)
    requires Splicable(p) && |p.children[0].children| == 1
    ensures var nothing := Meaning(eng, p.children[0].children[0]).(rows := []);
            Meaning(eng, Splice(p).plan) == Meaning(eng, p)
            <==> ConstTrue(p.children[0].exprs[0]) ||
                 NodeMeaning(eng, p.kind, p.exprs, []) == NodeMeaning(eng, p.kind, p.exprs, [nothing])
    ensures p.kind.Project? ==>
              (Meaning(eng, Splice(p).plan) == Meaning(eng, p) <==> ConstTrue(p.children[0].exprs[0]))
  {
    var c := p.children[0];
    OneInput(eng, p);
    OneInput(eng, c);
    assert c.exprs == [c.exprs[0]];
    SelectConst(c.exprs[0], Meaning(eng, c.children[0]));
    if ConstTrue(c.exprs[0]) {
      assert Splice(p).plan.children == c.children;
    } else {
      assert MeaningAll(eng, Splice(p).plan.children) == [];
    }
  }

  /** The FROM part of a select: table scans without predicates, under operators that are not
      predicates (logical_plan_generator.cpp). */
  ghost predicate TablesOnly(p: Plan)
    decreases p
  {
    if p.kind.TableGet? then p.kind.predicates == [] && p.children == []
    else p.kind.Other? && forall i | 0 <= i < |p.children| :: TablesOnly(p.children[i])
  }

  lemma {:induction false} TablesAreRewritable(eng: Engine, p: Plan)
    requires TablesOnly(p)
    ensures Rewritable(eng, p) && !Filled(p) && !Vanishes(p) && (Reaches(p) <==> p.kind.TableGet?)
    decreases p
  {
    forall i | 0 <= i < |p.children| ensures Rewritable(eng, p.children[i]) && !Vanishes(p.children[i]) {
      TablesAreRewritable(eng, p.children[i]);
    }
  }

  datatype GroupBy = GroupBy(tag: nat, exprs: seq<Expr>)

  /** The upper part of a select: a projection, over a group if there are aggregates. */
  function Above(exprs: seq<Expr>, group: Option<GroupBy>, children: seq<Plan>): Plan {
    if group.None? then Plan(Project, exprs, children)
    else Plan(Project, exprs, [Plan(Kind.Other(group.value.tag), group.value.exprs, children)])
  }

  /** `create_plan(SelectStmt)`: filter and FROM part may be missing. */
  function SelectPlan(exprs: seq<Expr>, group: Option<GroupBy>, filter: Option<Expr>, tables: Option<Plan>): Plan {
    var from := if tables.Some? then [tables.value] else [];
    Above(exprs, group, if filter.Some? then [Plan(Predicate, [filter.value], from)] else from)
  }

  /** What a select over some tables means: the projection of the accepted rows, through the group if there
      is one. */
  lemma SelectMeans(eng: Engine, exprs: seq<Expr>, group: Option<GroupBy>, filter: Option<Expr>, tables: Plan)
    ensures var s := if filter.Some? then Select([filter.value], Meaning(eng, tables)) else Meaning(eng, tables);
            Meaning(eng, SelectPlan(exprs, group, filter, Some(tables))) ==
              ProjectAll(eng, exprs,
                if group.None? then s else eng.other(Kind.Other(group.value.tag), group.value.exprs, [s]))
  {
    var p := SelectPlan(exprs, group, filter, Some(tables));
    var low := if filter.Some? then Plan(Predicate, [filter.value], [tables]) else tables;
    if filter.Some? { OneInput(eng, low); }
    if group.Some? { OneInput(eng, p.children[0]); }
    OneInput(eng, p);
  }

  predicate NeverTrue(e: Expr) {
    e.Const? && !ConstTrue(e)
  }

  /** Below a projection the loop works on a group as it would without the projection. */
  lemma {:induction false} FixpointBelow(exprs: seq<Expr>, g: Plan)
    requires g.kind.Other?
    ensures Fixpoint(Plan(Project, exprs, [g])) == Plan(Project, exprs, [Fixpoint(g)])
    decreases Measure(g)
  {
    var p, r := Plan(Project, exprs, [g]), Rewrite(g);
    assert RewriteAll([g]) == RewrittenAll([r.plan], r.changed) by { assert [g][1..] == []; }
    assert Rewrite(p) == Rewritten(Plan(Project, exprs, [r.plan]), r.changed);
    RewriteShrinks(g);
    hide Rewrite, RewriteAll;
    FixpointUnfold(p);
    FixpointUnfold(g);
    if r.changed {
      GroupStays(g);
      FixpointBelow(exprs, r.plan);
    }
  }

  lemma GroupStays(g: Plan)
    requires g.kind.Other?
    ensures Rewrite(g).plan.kind == g.kind
  {
  }

  /** A constant filter that is not true, or has nothing below it, leaves its parent without children. */
  lemma FilterVanishes(kind: Kind, exprs: seq<Expr>, filter: Expr, from: seq<Plan>)
    requires (kind.Project? || kind.Other?) && filter.Const? && (from == [] || NeverTrue(filter))
    ensures Fixpoint(Plan(kind, exprs, [Plan(Predicate, [filter], from)])) == Plan(kind, exprs, [])
  {
    var p, q := Plan(kind, exprs, [Plan(Predicate, [filter], from)]), Plan(kind, exprs, []);
    assert Splice(p) == Rewritten(q, true);
    assert Rewrite(p) == Rewritten(q, true);
    assert Rewrite(q) == Rewritten(q, false);
    FixpointUnfold(p);
    FixpointUnfold(q);
  }

  /** With a constant false or NULL as its filter, a select loses everything below projection and group;
      without a group it emits one row where there should be none. */
  lemma NeverTrueSelect(eng: Engine, exprs: seq<Expr>, group: Option<GroupBy>, filter: Expr, tables: Plan)
    requires NeverTrue(filter)
    ensures var p := SelectPlan(exprs, group, Some(filter), Some(tables));
            && Fixpoint(p) == Above(exprs, group, [])
            && (group.None? ==> Meaning(eng, p).rows == [] && |Meaning(eng, Fixpoint(p)).rows| == 1)
  {
    VanishesInSelect(exprs, group, filter, Some(tables));
    hide Fixpoint;
    var p := SelectPlan(exprs, group, Some(filter), Some(tables));
    if group.None? {
      OneInput(eng, p);
      OneInput(eng, p.children[0]);
      SelectConst(filter, Meaning(eng, tables));
    }
  }

  lemma VanishesInSelect(exprs: seq<Expr>, group: Option<GroupBy>, filter: Expr, tables: Option<Plan>)
    requires filter.Const? && (tables.None? || NeverTrue(filter))
    ensures Fixpoint(SelectPlan(exprs, group, Some(filter), tables)) == Above(exprs, group, [])
  {
    hide Fixpoint;
    var from := if tables.Some? then [tables.value] else [];
    if group.None? {
      FilterVanishes(Project, exprs, filter, from);
    } else {
      var kind := Kind.Other(group.value.tag);
      FilterVanishes(kind, group.value.exprs, filter, from);
      FixpointBelow(exprs, Plan(kind, group.value.exprs, [Plan(Predicate, [filter], from)]));
    }
  }

  /** An engine in which groups and the like end normally over one child and fail over any other number. */
  function Picky(): Engine {
    Engine(_ => Stream([], RecordEof), (_, _) => map[],
           (_, _, inputs) => Stream([], if |inputs| == 1 then RecordEof else Failed(Internal)))
  }

  lemma VanishedDiffers(exprs: seq<Expr>, group: Option<GroupBy>, filter: Expr, tables: Option<Plan>)
    requires filter.Const? && (tables.None? || NeverTrue(filter))
    ensures Meaning(Picky(), Above(exprs, group, []))
            != Meaning(Picky(), SelectPlan(exprs, group, Some(filter), tables))
  {
    var eng, from := Picky(), if tables.Some? then [tables.value] else [];
    var f := Plan(Predicate, [filter], from);
    var p, q := Above(exprs, group, [f]), Above(exprs, group, []);
    OneInput(eng, p);
    if group.Some? {
      OneInput(eng, p.children[0]);
      OneInput(eng, q);
    } else {
      if tables.Some? {
        OneInput(eng, f);
        SelectConst(filter, Meaning(eng, tables.value));
      }
      assert Meaning(eng, f).rows == [];
      assert |Meaning(eng, q).rows| == 1;
    }
  }

  /** Which filters over which FROM parts are harmless on the stored data. */
  ghost predicate Harmless(eng: Engine, filter: Option<Expr>, tables: Option<Plan>) {
    filter.Some? ==>
      if tables.None? then !filter.value.Const?
      else && !NeverTrue(filter.value)
           && (tables.value.kind.TableGet? ==>
                 forall r: Row | r in eng.table(tables.value.kind.table).rows :: SplitSafe(filter.value, r))
  }

  lemma SelectIsRewritable(eng: Engine, exprs: seq<Expr>, group: Option<GroupBy>, filter: Option<Expr>,
                           tables: Option<Plan>)
    requires (tables.Some? ==> TablesOnly(tables.value)) && Harmless(eng, filter, tables)
    ensures Rewritable(eng, SelectPlan(exprs, group, filter, tables))
  {
    var from := if tables.Some? then [tables.value] else [];
    var children := if filter.Some? then [Plan(Predicate, [filter.value], from)] else from;
    if tables.Some? { TablesAreRewritable(eng, tables.value); }
    forall i | 0 <= i < |children| ensures Rewritable(eng, children[i]) && !Vanishes(children[i]) {
      if filter.Some? { FilterIsRewritable(eng, filter.value, from); }
    }
    ParentIsRewritable(eng, Plan(Project, exprs, children));
    if group.Some? {
      var g := Plan(Kind.Other(group.value.tag), group.value.exprs, children);
      ParentIsRewritable(eng, g);
      ParentIsRewritable(eng, Plan(Project, exprs, [g]));
    }
  }

  lemma ParentIsRewritable(eng: Engine, p: Plan)
    requires p.kind.Project? || p.kind.Other?
    requires forall i | 0 <= i < |p.children| :: Rewritable(eng, p.children[i]) && !Vanishes(p.children[i])
    ensures Rewritable(eng, p)
  {
  }

  lemma FilterIsRewritable(eng: Engine, filter: Expr, from: seq<Plan>)
    requires |from| <= 1 && (from == [] ==> !filter.Const?) && !NeverTrue(filter)
    requires from != [] ==> && TablesOnly(from[0])
                            && (from[0].kind.TableGet? ==>
                                  forall r: Row | r in eng.table(from[0].kind.table).rows :: SplitSafe(filter, r))
    ensures Rewritable(eng, Plan(Predicate, [filter], from)) && !Vanishes(Plan(Predicate, [filter], from))
  {
    if from != [] { TablesAreRewritable(eng, from[0]); }
  }

  /** Other operators that pass the stream of their only child on. */
  ghost predicate PassesOn(eng: Engine) {
    forall kind, es, s :: eng.other(kind, es, [s]) == s
  }

  /** On a table with one row on which the split is not safe, the two plans end differently. */
  lemma UnsafeBelow(eng: Engine, kind: Kind, exprs: seq<Expr>, filter: Expr, get: Plan, r: Row)
    requires (kind.Project? || kind.Other?) && PassesOn(eng)
    requires get.kind.TableGet? && get.kind.predicates == [] && get.children == []
    requires eng.table(get.kind.table) == Stream([r], RecordEof) && !SplitSafe(filter, r)
    ensures var p := Plan(kind, exprs, [Plan(Predicate, [filter], [get])]);
            Meaning(eng, Fixpoint(p)).end != Meaning(eng, p).end
  {
    hide SplitSafe;
    var low := Plan(Predicate, [filter], [get]);
    var low' := Pushdown(low).plan;
    var p, p1 := Plan(kind, exprs, [low]), Plan(kind, exprs, [low']);
    assert Pushes(filter) by { if !Pushes(filter) { NothingPushedIsSafe(filter, r); } }
    UnsafeStep(kind, exprs, filter, get);
    PushedIsRewritable(eng, kind, exprs, filter, get);
    FixpointUnfold(p);
    FixpointKeepsMeaning(eng, p1);
    PassesEnd(eng, kind, exprs, low);
    PassesEnd(eng, kind, exprs, low');
    hide Rewrite, RewriteAll, Fixpoint, Rewritable, Split, Residual, PassesOn;
    OneInput(eng, low);
    OneInput(eng, low');
    var s := eng.table(get.kind.table);
    SelectNothing(s);
    SelectTwice(Split(filter).pushed, [Residual(filter)], s);
    SplitKeepsVerdictIff(filter, r);
    UnsafeAborts(filter, r);
    SelectOne(Split(filter).pushed + [Residual(filter)], r);
    SelectOne([filter], r);
  }

  lemma PassesEnd(eng: Engine, kind: Kind, exprs: seq<Expr>, child: Plan)
    requires (kind.Project? || kind.Other?) && PassesOn(eng)
    ensures Meaning(eng, Plan(kind, exprs, [child])).end == Meaning(eng, child).end
  {
    OneInput(eng, Plan(kind, exprs, [child]));
  }

  lemma UnsafeSelect(eng: Engine, exprs: seq<Expr>, group: Option<GroupBy>, filter: Expr, get: Plan, r: Row)
    requires get.kind.TableGet? && get.kind.predicates == [] && get.children == [] && PassesOn(eng)
    requires eng.table(get.kind.table) == Stream([r], RecordEof) && !SplitSafe(filter, r)
    ensures var p := SelectPlan(exprs, group, Some(filter), Some(get));
            Meaning(eng, Fixpoint(p)).end != Meaning(eng, p).end
  {
    hide SplitSafe, Fixpoint, PassesOn, Meaning;
    var low := Plan(Predicate, [filter], [get]);
    if group.None? {
      UnsafeBelow(eng, Project, exprs, filter, get, r);
    } else {
      var kind := Kind.Other(group.value.tag);
      var g := Plan(kind, group.value.exprs, [low]);
      UnsafeBelow(eng, kind, group.value.exprs, filter, get, r);
      FixpointBelow(exprs, g);
      PassesEnd(eng, Project, exprs, g);
      PassesEnd(eng, Project, exprs, Fixpoint(g));
    }
  }

  lemma UnsafeAborts(e: Expr, r: Row)
    requires !SplitSafe(e, r)
    ensures Judge([e], r).Abort? || Judge(Split(e).pushed + [Residual(e)], r).Abort?
  {
    SafeIsSameFailure(e, r);
    hide SplitSafe;
    var f, g := Failure(Leaves(e), r), SplitFailure(Leaves(e), r);
    if f.Some? { FailsIff(e, r, f.value); }
    if g.Some? { SplitFailsIff(e, r, g.value); }
  }

  lemma NothingPushedIsSafe(e: Expr, r: Row)
    requires !Pushes(e)
    ensures SplitSafe(e, r)
  {
  }

  /** The first pass over a filter that pushes something into its only table. */
  lemma UnsafeStep(kind: Kind, exprs: seq<Expr>, filter: Expr, get: Plan)
    requires kind.Project? || kind.Other?
    requires Pushes(filter) && get.kind.TableGet? && get.children == []
    ensures var low := Plan(Predicate, [filter], [get]);
            Rewrite(Plan(kind, exprs, [low])) == Rewritten(Plan(kind, exprs, [Pushdown(low).plan]), true)
  {
    var low := Plan(Predicate, [filter], [get]);
    var low' := Pushdown(low).plan;
    assert Rewrite(low'.children[0]) == Rewritten(low'.children[0], false);
    assert RewriteAll(low'.children) == RewrittenAll(low'.children, false);
    assert Rewrite(low) == Rewritten(low', true);
    assert RewriteAll([low]) == RewrittenAll([low'], true);
  }

  lemma PushedIsRewritable(eng: Engine, kind: Kind, exprs: seq<Expr>, filter: Expr, get: Plan)
    requires kind.Project? || kind.Other?
    requires Pushes(filter) && get.kind.TableGet? && get.children == []
    ensures Rewritable(eng, Plan(kind, exprs, [Pushdown(Plan(Predicate, [filter], [get])).plan]))
  {
    var low := Pushdown(Plan(Predicate, [filter], [get])).plan;
    ResidualPushesNothing(filter);
    assert Rewritable(eng, low.children[0]) && !Vanishes(low.children[0]);
    assert Rewritable(eng, low);
    assert Residual(filter).Const? ==> ConstTrue(Residual(filter));
    assert !Vanishes(low);
  }

  /** The optimized plan delivers the same rows and ends the same way. */
  ghost predicate OptimizingKeeps(eng: Engine, p: Plan) {
    Meaning(eng, Fixpoint(p)) == Meaning(eng, p)
  }

  /** Optimizing a select, grouped or not, keeps its stream for all data and all meanings of the other
      operators exactly when there is no filter, or: without a FROM part, the filter is not a constant;
      with one, it is not a constant false or NULL, and over a single table its split is safe on every
      row. */
  lemma SelectKeptIff(exprs: seq<Expr>, group: Option<GroupBy>, filter: Option<Expr>, tables: Option<Plan>)
    requires tables.Some? ==> TablesOnly(tables.value)
    ensures var p := SelectPlan(exprs, group, filter, tables);
            (forall eng: Engine :: OptimizingKeeps(eng, p))
            <==> (filter.Some? ==>
                    if tables.None? then !filter.value.Const?
                    else && !NeverTrue(filter.value)
                         && (tables.value.kind.TableGet? ==> forall r: Row :: SplitSafe(filter.value, r)))
  {
    hide SplitSafe, Meaning, Fixpoint, Rewritable;
    var p := SelectPlan(exprs, group, filter, tables);
    if filter.Some? && filter.value.Const? && (tables.None? || NeverTrue(filter.value)) {
      VanishesInSelect(exprs, group, filter.value, tables);
      VanishedDiffers(exprs, group, filter.value, tables);
      assert !OptimizingKeeps(Picky(), p);
    } else if filter.Some? && tables.Some? && tables.value.kind.TableGet?
              && exists r: Row :: !SplitSafe(filter.value, r) {
      var r: Row :| !SplitSafe(filter.value, r);
      var one := Stream([r], RecordEof);
      var eng := Engine(_ => one, (_, _) => map[], (_, _, inputs) => if |inputs| == 1 then inputs[0] else one);
      UnsafeSelect(eng, exprs, group, filter.value, tables.value, r);
      assert !OptimizingKeeps(eng, p);
    } else {
      forall eng: Engine ensures OptimizingKeeps(eng, p) {
        SelectIsRewritable(eng, exprs, group, filter, tables);
        FixpointKeepsMeaning(eng, p);
      }
    }
  }

  /** Constant-false predicates that no rule touches: at the root, or beside another child. */
  lemma FalseLeftAlone(eng: Engine, never: Expr, k: nat, a: Plan, b: Plan)
    requires NeverTrue(never) && TablesOnly(a) && TablesOnly(b)
    ensures Rewritable(eng, Filter(never, a))
    ensures Rewritable(eng, Plan(Kind.Other(k), [], [Filter(never, a), b]))
  {
    TablesAreRewritable(eng, a);
    TablesAreRewritable(eng, b);
    assert !Pushes(never);
    assert Rewritable(eng, Filter(never, a));
  }

  /** A constant true between a predicate and the scan: it goes, and then the predicate pushes. */
  lemma TrueInBetween(eng: Engine, e: Expr)
    requires !NeverTrue(e) && forall r: Row | r in eng.table("t").rows :: SplitSafe(e, r)
    ensures Rewritable(eng, Filter(e, Filter(Const(Boolean(true)), Scan([]))))
  {
    var low := Filter(Const(Boolean(true)), Scan([]));
    assert Rewritable(eng, Scan([])) && Split(Const(Boolean(true))).pushed == [];
    assert Rewritable(eng, low) && !Filled(low) && TableOf(low) == "t";
  }

  function Scan(predicates: seq<Expr>): Plan {
    Plan(TableGet("t", predicates), [], [])
  }

  function Filter(e: Expr, child: Plan): Plan {
    Plan(Predicate, [e], [child])
  }

  /** Of two stacked predicates that both push, only the upper one is left at the scan. */
  lemma StackedFixpoint(eng: Engine, a: Expr, b: Expr)
    requires a == Is("a", 1) && b == Is("b", 2)
    ensures !Rewritable(eng, Filter(a, Filter(b, Scan([]))))
    ensures Fixpoint(Filter(a, Filter(b, Scan([])))) == Filter(Const(Boolean(true)), Scan([a]))
  {
    StackedClashes(eng, a, b);
    hide Fixpoint, Rewritable;
    var yes := Const(Boolean(true));
    var low, p := Filter(b, Scan([])), Filter(a, Filter(b, Scan([])));
    var p1 := Filter(a, Filter(yes, Scan([b])));
    RewriteOfScan([b]);
    assert Pushdown(low) == Rewritten(Filter(yes, Scan([b])), true);
    assert RewriteAll([low]).plans == [Rewrite(low).plan];
    assert Rewrite(p) == Rewritten(p1, true);
    StackedTail(a, b);
    assert Fixpoint(p) == Fixpoint(p1) by { hide Rewrite, RewriteAll; FixpointUnfold(p); }
  }

  lemma StackedClashes(eng: Engine, a: Expr, b: Expr)
    requires a == Is("a", 1) && b == Is("b", 2)
    ensures !Rewritable(eng, Filter(a, Filter(b, Scan([]))))
  {
    assert Bare(b) && Pushes(a) && Filled(Filter(b, Scan([])));
  }

  lemma FixpointUnfold(p: Plan)
    ensures Fixpoint(p) == if Rewrite(p).changed then Fixpoint(Rewrite(p).plan) else Rewrite(p).plan
  {
  }

  /** The passes after the first one. */
  lemma StackedTail(a: Expr, b: Expr)
    requires a == Is("a", 1) && b == Is("b", 2)
    ensures Fixpoint(Filter(a, Filter(Const(Boolean(true)), Scan([b])))) == Filter(Const(Boolean(true)), Scan([a]))
  {
    var yes := Const(Boolean(true));
    var p1, p2 := Filter(a, Filter(yes, Scan([b]))), Filter(yes, Scan([a]));
    RewriteOfScan([a]);
    assert Splice(p1) == Rewritten(Filter(a, Scan([b])), true);
    assert Pushdown(Filter(a, Scan([b]))) == Rewritten(p2, true);
    assert Rewrite(p1) == Rewritten(p2, true);
    assert Rewrite(p2) == Rewritten(p2, false);
    FixpointUnfold(p1);
    FixpointUnfold(p2);
  }

  lemma RewriteOfScan(predicates: seq<Expr>)
    ensures Rewrite(Scan(predicates)) == Rewritten(Scan(predicates), false)
    ensures RewriteAll([Scan(predicates)]) == RewrittenAll([Scan(predicates)], false)
  {
  }

  lemma MeaningOfFilter(eng: Engine, e: Expr, child: Plan)
    ensures Meaning(eng, Filter(e, child)) == Select([e], Meaning(eng, child))
  {
    OneInput(eng, Filter(e, child));
  }

  /** So a row that the lower one rejects comes back. */
  lemma StackedPredicatesLoseOne(eng: Engine, row: Row)
    requires eng.table("t") == Stream([row], RecordEof) && row == map["a" := Integer(1), "b" := Integer(3)]
    ensures var p := Filter(Is("a", 1), Filter(Is("b", 2), Scan([])));
            Meaning(eng, p).rows == [] && Meaning(eng, Fixpoint(p)).rows == [row]
  {
    var a, b, yes := Is("a", 1), Is("b", 2), Const(Boolean(true));
    StackedFixpoint(eng, a, b);
    StackedRow(row);
    MeaningOfFilter(eng, a, Filter(b, Scan([])));
    MeaningOfFilter(eng, b, Scan([]));
    MeaningOfFilter(eng, yes, Scan([a]));
    SelectNothing(eng.table("t"));
    SelectOne([a], row);
    SelectOne([b], row);
    SelectOne([yes], row);
  }

  lemma StackedRow(row: Row)
    requires row == map["a" := Integer(1), "b" := Integer(3)]
    ensures Judge([Is("a", 1)], row).Accept? && Judge([Const(Boolean(true))], row).Accept?
    ensures Judge([Is("b", 2)], row).Reject?
  {
    JudgeOne(Is("a", 1), row);
    JudgeOne(Is("b", 2), row);
    JudgeOne(Const(Boolean(true)), row);
  }

  // ---------------------------------------------------------------- the code

  /** `PredicateRewriteRule::rewrite`, moving the grandchildren one by one. */
  method PredicateRewrite(oper: Plan) returns (r: Plan, changeMade: bool)
    ensures Rewritten(r, changeMade) == Splice(oper)
  {
    r, changeMade := oper, false;
    if |oper.children| != 1 { return; }
    var child := oper.children[0];
    if !child.kind.Predicate? { return; }
    if |child.exprs| != 1 { return; }
    var expr := child.exprs[0];
    if !expr.Const? { return; }
    var boolValue := if expr.value.Null? then false else GetBoolean(expr.value);
    r := r.(children := []);
    if boolValue {
      var grandChildren := child.children;
      for i := 0 to |grandChildren|
        invariant r == oper.(children := grandChildren[..i])
      {
        r := r.(children := r.children + [grandChildren[i]]);
      }
      assert grandChildren[..|grandChildren|] == grandChildren;
    }
    changeMade := true;
  }

  /** `PredicatePushdownRewriter::rewrite`. */
  method PredicatePushdownRewrite(oper: Plan) returns (r: Plan, changeMade: bool)
    ensures Rewritten(r, changeMade) == Pushdown(oper)
  {
    r, changeMade := oper, false;
    if !oper.kind.Predicate? { return; }
    if |oper.children| != 1 { return; }
    var child := oper.children[0];
    if !child.kind.TableGet? { return; }
    if |oper.exprs| != 1 { return; }
    NothingPushedNothingChanged(oper.exprs[0]);
    assert oper.exprs == [oper.exprs[0]];
    var rest, pushdownExprs := GetExprsCanPushdown(oper.exprs[0], []);
    assert pushdownExprs == Split(oper.exprs[0]).pushed;
    if rest.None? { rest := Some(Const(Boolean(true))); }
    r := r.(exprs := [rest.value]);
    if |pushdownExprs| != 0 {
      changeMade := true;
      r := r.(children := [child.(kind := TableGet(child.kind.table, pushdownExprs))]);
    }
  }

  /** `Rewriter::rewrite`: the rules in order, then every child in turn. */
  method RewritePass(oper: Plan) returns (r: Plan, changeMade: bool)
    ensures Rewritten(r, changeMade) == Rewrite(oper)
    decreases Size(oper), 1
  {
    RewriteUnfold(oper);
    hide Rewrite, RewriteAll, Size, SizeAll, Splice, Pushdown;
    var subChange;
    r, changeMade := PredicateRewrite(oper);
    r, subChange := PredicatePushdownRewrite(r);
    changeMade := changeMade || subChange;
    var children;
    children, subChange := RewriteChildren(r.children);
    r := r.(children := children);
    changeMade := changeMade || subChange;
  }

  /** The loop of `Rewriter::rewrite` over the children. */
  method RewriteChildren(ps: seq<Plan>) returns (children: seq<Plan>, changeMade: bool)
    ensures RewrittenAll(children, changeMade) == RewriteAll(ps)
    decreases SizeAll(ps), 2
  {
    hide Rewrite, RewriteAll, Size, SizeAll;
    children, changeMade := ps, false;
    ghost var kept, rest := [], ps;
    var i := 0;
    while i < |children|
      invariant children == kept + rest && i == |kept|
      invariant |rest| <= |ps| && rest == ps[|ps| - |rest|..]
      invariant kept + RewriteAll(rest).plans == RewriteAll(ps).plans
      invariant (changeMade || RewriteAll(rest).changed) == RewriteAll(ps).changed
    {
      RewriteAllStep(rest);
      ReplaceAt(kept, rest, Rewrite(rest[0]).plan);
      SizeAllAt(ps, |ps| - |rest|);
      var child, subChange := RewritePass(children[i]);
      children := children[i := child];
      changeMade := changeMade || subChange;
      i := i + 1;
      kept, rest := kept + [child], rest[1..];
    }
    RewriteNone();
  }

  lemma RewriteNone()
    ensures RewriteAll([]) == RewrittenAll([], false)
  {
  }

  lemma RewriteAllStep(ps: seq<Plan>)
    requires ps != []
    ensures var h, t := Rewrite(ps[0]), RewriteAll(ps[1..]);
            RewriteAll(ps) == RewrittenAll([h.plan] + t.plans, h.changed || t.changed)
  {
  }

  lemma RewriteUnfold(p: Plan)
    ensures var a := Splice(p);
            var b := Pushdown(a.plan);
            var c := RewriteAll(b.plan.children);
            && Rewrite(p) == Rewritten(b.plan.(children := c.plans), a.changed || b.changed || c.changed)
            && SizeAll(b.plan.children) < Size(p)
  {
  }

  lemma {:induction false} SizeAllAt(ps: seq<Plan>, i: nat)
    requires i < |ps|
    ensures Size(ps[i]) <= SizeAll(ps)
  {
    if i > 0 { SizeAllAt(ps[1..], i - 1); }
  }

  /** `OptimizeStage::rewrite`: passes until one reports no change. */
  method OptimizeRewrite(plan: Plan) returns (r: Plan)
    ensures r == Fixpoint(plan) && Settled(r)
    ensures forall eng: Engine :: Rewritable(eng, plan) ==> Meaning(eng, r) == Meaning(eng, plan)
  {
    r := plan;
    var changeMade := true;
    while changeMade
      invariant Fixpoint(r) == Fixpoint(plan)
      invariant !changeMade ==> Fixpoint(r) == r
      decreases Measure(r), changeMade
    {
      RewriteShrinks(r);
      r, changeMade := RewritePass(r);
    }
    FixpointIsNormal(plan);
    forall eng: Engine | Rewritable(eng, plan) ensures Meaning(eng, r) == Meaning(eng, plan) {
      FixpointKeepsMeaning(eng, plan);
    }
  }
}
