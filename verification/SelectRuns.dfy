/** Running the plan of a select over one table: projection, filter and scan as operators
    (project_physical_operator.cpp, physical_plan_generator.cpp). */
module SelectRuns {
  import opened Wrappers
  import opened Expressions
  import opened Conjuncts
  import opened LogicalPlan
  import opened Rewriter
  import opened Execution

  /** What a projection can stand on here. */
  datatype Child = NoChild | ScanChild(scan: TableScan) | FilterChild(filter: PredicateOperator)

  function ScanOf(c: Child): TableScan
    requires !c.NoChild?
  {
    if c.ScanChild? then c.scan else c.filter.child
  }

  class ProjectOperator {
    const eng: Engine
    const exprs: seq<Expr>
    const child: Child
    var constEof: bool           // the one tuple of a constant select is out
    var current: Row

    ghost predicate Valid()
      reads if child.NoChild? then {} else {ScanOf(child)}
    {
      !child.NoChild? ==> ScanOf(child).Valid()
    }

    /** What the child still has to deliver. */
    ghost function Below(): Stream
      requires Valid()
      reads this, if child.NoChild? then {} else {ScanOf(child)}
    {
      match child
      case NoChild => if constEof then Stream([], RecordEof) else Stream([map[]], RecordEof)
      case ScanChild(scan) => scan.Remaining()
      case FilterChild(filter) => filter.Remaining()
    }

    constructor (eng: Engine, exprs: seq<Expr>, child: Child)
      ensures this.eng == eng && this.exprs == exprs && this.child == child && !constEof
    {
      this.eng, this.exprs, this.child, constEof, current := eng, exprs, child, false, map[];
    }

    /** `next` and `current_tuple`. */
    method Next() returns (rc: Pull)
      requires Valid()
      modifies this, if child.NoChild? then {} else {ScanOf(child)}
      ensures Valid()
      ensures rc.Success? ==> old(Below()).rows != [] && current == eng.project(exprs, old(Below()).rows[0])
      ensures rc.Success? ==> Below() == old(Below()).(rows := old(Below()).rows[1..])
      ensures !rc.Success? ==> old(Below()) == Stream([], rc)
    {
      hide Select, Visible;
      match child {
        case NoChild =>
          if constEof { return RecordEof; }
          constEof, current := true, eng.project(exprs, map[]);
          rc := Success;
        case ScanChild(scan) =>
          rc := scan.Next();
          if rc.Success? { current := eng.project(exprs, scan.currentRecord); }
        case FilterChild(filter) =>
          rc := filter.Next();
          if rc.Success? { current := eng.project(exprs, filter.child.currentRecord); }
      }
    }
  }

  lemma ProjectStep(eng: Engine, exprs: seq<Expr>, s: Stream)
    requires s.rows != []
    ensures var t := ProjectAll(eng, exprs, s.(rows := s.rows[1..]));
            ProjectAll(eng, exprs, s) == t.(rows := [eng.project(exprs, s.rows[0])] + t.rows)
  {
  }

  /** Pulls the projection from open to the end. */
  method DrainProject(op: ProjectOperator) returns (rows: seq<Row>, end: End)
    requires op.Valid()
    modifies op, if op.child.NoChild? then {} else {ScanOf(op.child)}
    ensures Stream(rows, end) == ProjectAll(op.eng, op.exprs, old(op.Below()))
  {
    hide ProjectAll, ProjectOperator.Below;
    ghost var all := ProjectAll(op.eng, op.exprs, op.Below());
    rows := [];
    while true
      invariant op.Valid()
      invariant var t := ProjectAll(op.eng, op.exprs, op.Below()); t.(rows := rows + t.rows) == all
      decreases |op.Below().rows|
    {
      ghost var before := op.Below();
      var rc := op.Next();
      if !rc.Success? {
        assert rows + [] == rows;
        return rows, rc;
      }
      ProjectStep(op.eng, op.exprs, before);
      Regrouped(rows, op.current, ProjectAll(op.eng, op.exprs, op.Below()).rows);
      rows := rows + [op.current];
    }
  }

  lemma Regrouped(a: seq<Row>, r: Row, b: seq<Row>)
    ensures a + ([r] + b) == a + [r] + b
  {
  }

  // ---------------------------------------------------------------- plans of a select over one table

  predicate IsScan(p: Plan, table: string) {
    p.kind.TableGet? && p.kind.table == table && p.children == []
  }

  /** A projection over nothing, over a scan of the table, or over a filter over such a scan. */
  predicate Runnable(p: Plan, table: string) {
    && p.kind.Project? && |p.children| <= 1
    && (p.children != [] ==>
          var c := p.children[0];
          || IsScan(c, table)
          || (c.kind.Predicate? && |c.exprs| == 1 && |c.children| == 1 && IsScan(c.children[0], table)))
  }

  lemma RewriteStaysRunnable(p: Plan, table: string)
    requires Runnable(p, table)
    ensures Runnable(Rewrite(p).plan, table)
  {
    var a := Splice(p).plan;
    assert Runnable(a, table) && Pushdown(a).plan == a;
    RewriteUnfold(p);
    hide Rewrite, RewriteAll, Splice, Pushdown;
    RewriteNone();
    if a.children != [] {
      var c := a.children[0];
      RewriteAllStep([c]);
      assert a.children == [c] && [c][1..] == [];
      if IsScan(c, table) { RewriteScan(c, table); } else { RewriteFilter(c, table); }
    }
  }

  lemma RewriteScan(p: Plan, table: string)
    requires IsScan(p, table)
    ensures Rewrite(p).plan == p
  {
  }

  lemma RewriteFilter(p: Plan, table: string)
    requires p.kind.Predicate? && |p.exprs| == 1 && |p.children| == 1 && IsScan(p.children[0], table)
    ensures var q := Rewrite(p).plan;
            q.kind.Predicate? && |q.exprs| == 1 && |q.children| == 1 && IsScan(q.children[0], table)
  {
    var b := Pushdown(p).plan;
    assert Splice(p).plan == p && |b.children| == 1 && IsScan(b.children[0], table);
    RewriteUnfold(p);
    hide Rewrite, RewriteAll, Splice, Pushdown;
    RewriteNone();
    RewriteAllStep(b.children);
    assert b.children[1..] == [];
    RewriteScan(b.children[0], table);
  }

  lemma {:induction false} FixpointIsRunnable(p: Plan, table: string)
    requires Runnable(p, table)
    ensures Runnable(Fixpoint(p), table)
    decreases Measure(p)
  {
    RewriteStaysRunnable(p, table);
    RewriteShrinks(p);
    FixpointUnfold(p);
    if Rewrite(p).changed { FixpointIsRunnable(Rewrite(p).plan, table); }
  }

  /** The meaning of such a plan is the projection of what its operators deliver. */
  lemma RunnableMeaning(eng: Engine, p: Plan, table: string)
    requires Runnable(p, table)
    ensures Meaning(eng, p) ==
              if p.children == [] then ProjectAll(eng, p.exprs, Stream([map[]], RecordEof))
              else if p.children[0].kind.TableGet?
              then ProjectAll(eng, p.exprs, Select(p.children[0].kind.predicates, eng.table(table)))
              else ProjectAll(eng, p.exprs,
                     Select(p.children[0].exprs,
                       Select(p.children[0].children[0].kind.predicates, eng.table(table))))
  {
    if p.children != [] {
      var c := p.children[0];
      OneInput(eng, p);
      if c.kind.Predicate? { OneInput(eng, c); }
    }
  }

  /** Creates the operators of such a plan and pulls them to the end: the meaning of the plan, whenever
      the records are what the table has stored. */
  method RunPlan(eng: Engine, p: Plan, table: string, records: seq<Record>, scanEnd: End)
    returns (rows: seq<Row>, end: End)
    requires Runnable(p, table) && eng.table(table) == Stored(records, scanEnd)
    ensures Stream(rows, end) == Meaning(eng, p)
  {
    hide Select, ProjectAll, Visible;
    RunnableMeaning(eng, p, table);
    assert records[0..] == records;
    var child := NoChild;
    if p.children != [] {
      var c := p.children[0];
      if c.kind.TableGet? {
        var scan := new TableScan(records, scanEnd, c.kind.predicates);
        child := ScanChild(scan);
      } else {
        var scan := new TableScan(records, scanEnd, c.children[0].kind.predicates);
        var filter := new PredicateOperator(scan, c.exprs[0]);
        assert [c.exprs[0]] == c.exprs;
        child := FilterChild(filter);
      }
    }
    var project := new ProjectOperator(eng, p.exprs, child);
    rows, end := DrainProject(project);
  }

  /** A select over one table, optimized and run: the stream of the optimized plan, which is that of the
      plan as it was wherever the filter is harmless. */
  method RunSelect(eng: Engine, exprs: seq<Expr>, filter: Option<Expr>, get: Plan, records: seq<Record>, scanEnd: End)
    returns (rows: seq<Row>, end: End)
    requires get.kind.TableGet? && get.kind.predicates == [] && get.children == []
    requires eng.table(get.kind.table) == Stored(records, scanEnd)
    ensures Stream(rows, end) == Meaning(eng, Fixpoint(SelectPlan(exprs, None, filter, Some(get))))
    ensures Harmless(eng, filter, Some(get)) ==>
              Stream(rows, end) ==
                ProjectAll(eng, exprs, Select(if filter.Some? then [filter.value] else [], Stored(records, scanEnd)))
  {
    SelectMeans(eng, exprs, None, filter, get);
    SelectNothing(Stored(records, scanEnd));
    assert Meaning(eng, get) == Stored(records, scanEnd);
    hide Fixpoint, Meaning, Rewritable, Harmless, Settled, Visible, Select, ProjectAll;
    var plan := SelectPlan(exprs, None, filter, Some(get));
    FixpointIsRunnable(plan, get.kind.table);
    if Harmless(eng, filter, Some(get)) { SelectIsRewritable(eng, exprs, None, filter, Some(get)); }
    var optimized := OptimizeRewrite(plan);
    rows, end := RunPlan(eng, optimized, get.kind.table, records, scanEnd);
  }

  /** Every stream is what some records have to offer. */
  function Records(rows: seq<Row>): (rs: seq<Record>)
    ensures Visible(rs) == rows
  {
    if rows == [] then []
    else
      var rest := Records(rows[1..]);
      assert ([Record(rows[0], true)] + rest)[1..] == rest && rows == [rows[0]] + rows[1..];
      [Record(rows[0], true)] + rest
  }

  /** The two plans run alike on these records. */
  ghost predicate RunAlike(eng: Engine, p: Plan, table: string, records: seq<Record>, scanEnd: End) {
    eng.table(table) == Stored(records, scanEnd) ==> OptimizingKeeps(eng, p)
  }

  /** The optimized and the original plan of a select over one table run alike, rows and end, on all records
      exactly when there is no filter, or it is not a constant false or NULL and its split is safe on
      every row. */
  lemma SelectRunsAlikeIff(exprs: seq<Expr>, filter: Option<Expr>, get: Plan)
    requires get.kind.TableGet? && get.kind.predicates == [] && get.children == []
    ensures var p := SelectPlan(exprs, None, filter, Some(get));
            (forall eng: Engine, records, scanEnd: End :: RunAlike(eng, p, get.kind.table, records, scanEnd))
            <==> (filter.Some? ==> !NeverTrue(filter.value) && forall r: Row :: SplitSafe(filter.value, r))
  {
    hide NeverTrue, SplitSafe, Visible, OptimizingKeeps;
    var p, table := SelectPlan(exprs, None, filter, Some(get)), get.kind.table;
    SelectKeptIff(exprs, None, filter, Some(get));
    if forall eng: Engine, records, scanEnd: End :: RunAlike(eng, p, table, records, scanEnd) {
      forall eng: Engine ensures OptimizingKeeps(eng, p) {
        assert RunAlike(eng, p, table, Records(eng.table(table).rows), eng.table(table).end);
      }
    }
  }
}
