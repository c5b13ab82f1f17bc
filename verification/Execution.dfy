/** The pull operators that run a filtered table scan (table_scan_physical_operator.cpp,
    predicate_physical_operator.cpp). */
module Execution {
  import opened Expressions
  import opened PredicatePushdown
  import opened Conjuncts
  import opened LogicalPlan

  /** A stored record and whether the transaction can see it. */
  datatype Record = Record(row: Row, visible: bool)

  function Visible(rs: seq<Record>): seq<Row> {
    if rs == [] then [] else (if rs[0].visible then [rs[0].row] else []) + Visible(rs[1..])
  }

  /** Exactly the visible records are seen, in their order. */
  lemma VisibleMeans(r: Record, before: seq<Record>, after: seq<Record>)
    ensures Visible(before + [r] + after)
            == Visible(before) + (if r.visible then [r.row] else []) + Visible(after)
  {
    assert before + [r] + after == before + ([r] + after);
    VisibleConcat(before, [r] + after);
    assert ([r] + after)[1..] == after;
  }

  lemma {:induction false} VisibleConcat(a: seq<Record>, b: seq<Record>)
    ensures Visible(a + b) == Visible(a) + Visible(b)
  {
    if a == [] {
      assert a + b == b;
    } else {
      assert (a + b)[1..] == a[1..] + b;
      VisibleConcat(a[1..], b);
      var h := if a[0].visible then [a[0].row] else [];
      assert h + (Visible(a[1..]) + Visible(b)) == (h + Visible(a[1..])) + Visible(b);
    }
  }

  /** What a scan of the records has to offer: the visible ones, and how the record scanner ends. */
  function Stored(rs: seq<Record>, end: End): Stream {
    Stream(Visible(rs), end)
  }

  /** What the first of the remaining records adds to a selection over them. */
  lemma ScanStep(es: seq<Expr>, records: seq<Record>, end: End, pos: nat)
    requires pos < |records|
    ensures var r, t := records[pos], Select(es, Stored(records[pos + 1..], end));
            Select(es, Stored(records[pos..], end)) ==
              if !r.visible || Judge(es, r.row).Reject? then t
              else if Judge(es, r.row).Accept? then t.(rows := [r.row] + t.rows)
              else Stream([], Failed(Judge(es, r.row).rc))
  {
    hide Judge;
    var r, s := records[pos], Stored(records[pos..], end);
    assert records[pos..][1..] == records[pos + 1..];
    if r.visible {
      assert s.rows[1..] == Visible(records[pos + 1..]);
    } else {
      assert s.rows == Visible(records[pos + 1..]);
    }
  }

  class TableScan {
    const records: seq<Record>
    const scanEnd: End           // what the record scanner answers after its last record
    var predicates: seq<Expr>
    var pos: nat
    var currentRecord: Row

    ghost predicate Valid()
      reads this
    {
      pos <= |records|
    }

    /** What the scan still has to deliver, and how it will end. */
    ghost function Remaining(): Stream
      requires Valid()
      reads this
    {
      Select(predicates, Stored(records[pos..], scanEnd))
    }

    constructor (records: seq<Record>, scanEnd: End, predicates: seq<Expr>)
      ensures Valid() && this.records == records && this.scanEnd == scanEnd && this.predicates == predicates && pos == 0
    {
      this.records, this.scanEnd, this.predicates, pos, currentRecord := records, scanEnd, predicates, 0, map[];
    }

    /** `TableScanPhysicalOperator::filter`. */
    method Filter(row: Row) returns (rc: Pull, result: bool)
      ensures !rc.RecordEof?
      ensures rc.Success? ==> (result <==> AllTrue(predicates, row))
      ensures Judge(predicates, row) == if rc.Failed? then Abort(rc.rc) else if result then Accept else Reject
    {
      hide AllTrue;
      AcceptIffAllTrue(predicates, row);
      for i := 0 to |predicates|
        invariant Judge(predicates, row) == Judge(predicates[i..], row)
      {
        var value := GetValue(predicates[i], row);
        assert predicates[i..][1..] == predicates[i + 1..];
        if value.Err? { return Failed(value.rc), false; }
        var tmp := if value.value.Null? then false else GetBoolean(value.value);
        if !tmp { return Success, false; }
      }
      return Success, true;
    }

    /** `TableScanPhysicalOperator::next`: skips what it may not see and what the pushed predicates
        do not accept; a failing predicate ends the scan, and so does a failing record scanner. */
    method Next() returns (rc: Pull)
      requires Valid()
      modifies this`pos, this`currentRecord
      ensures Valid() && old(pos) <= pos
      ensures rc.Success? ==> pos > old(pos)
      ensures rc.Success? ==> old(Remaining()) == Remaining().(rows := [currentRecord] + Remaining().rows)
      ensures !rc.Success? ==> old(Remaining()) == Stream([], rc)
    {
      hide Judge, Select;
      while pos < |records|
        invariant Valid() && old(pos) <= pos && Remaining() == old(Remaining())
      {
        ScanStep(predicates, records, scanEnd, pos);
        currentRecord, pos := records[pos].row, pos + 1;
        if records[pos - 1].visible {
          var result;
          rc, result := Filter(currentRecord);
          if !rc.Success? || result { return; }
        }
      }
      rc := scanEnd;
      SelectEmpty(predicates, scanEnd);
    }
  }

  lemma SelectEmpty(es: seq<Expr>, end: End)
    ensures Select(es, Stored([], end)) == Stream([], end)
  {
  }

  class PredicateOperator {
    const child: TableScan
    const expression: Expr

    ghost predicate Valid()
      reads child
    {
      child.Valid()
    }

    /** What the filter still has to deliver, and how it will end. */
    ghost function Remaining(): Stream
      requires Valid()
      reads child
    {
      Select([expression], child.Remaining())
    }

    constructor (child: TableScan, expression: Expr)
      ensures this.child == child && this.expression == expression
    {
      this.child, this.expression := child, expression;
    }

    /** `PredicatePhysicalOperator::next`: pulls until a row is accepted. */
    method Next() returns (rc: Pull)
      requires Valid()
      modifies child`pos, child`currentRecord
      ensures Valid() && child.pos >= old(child.pos)
      ensures rc.Success? ==> child.pos > old(child.pos)
      ensures rc.Success? ==> old(Remaining()) == Remaining().(rows := [child.currentRecord] + Remaining().rows)
      ensures !rc.Success? ==> old(Remaining()) == Stream([], rc)
    {
      hide Judge, Select;
      while true
        invariant Valid() && child.pos >= old(child.pos) && Remaining() == old(Remaining())
        decreases |child.records| - child.pos
      {
        ghost var s := child.Remaining();
        rc := child.Next();
        if !rc.Success? {
          FilterStep(expression, s);
          return;
        }
        var row := child.currentRecord;
        var value := GetValue(expression, row);
        FilterStep(expression, s);
        assert s.rows[1..] == child.Remaining().rows;
        if value.Err? { return Failed(value.rc); }
        if !value.value.Null? && GetBoolean(value.value) { return; }
      }
    }
  }

  lemma FilterStep(e: Expr, s: Stream)
    ensures s.rows == [] ==> Select([e], s) == s
    ensures s.rows != [] ==>
              var v, t := VerdictOf(Eval(e, s.rows[0])), Select([e], s.(rows := s.rows[1..]));
              Select([e], s) == if v.Accept? then t.(rows := [s.rows[0]] + t.rows)
                                else if v.Reject? then t else Stream([], Failed(v.rc))
  {
    if s.rows != [] { JudgeOne(e, s.rows[0]); }
  }

  /** Pulls an operator from open to the end: what it delivered and why it stopped. */
  method Drain(op: PredicateOperator) returns (rows: seq<Row>, end: End)
    requires op.Valid()
    modifies op.child`pos, op.child`currentRecord
    ensures Stream(rows, end) == old(op.Remaining())
  {
    hide Select, Visible;
    rows := [];
    while true
      invariant op.Valid()
      invariant op.Remaining().(rows := rows + op.Remaining().rows) == old(op.Remaining())
      decreases |op.child.records| - op.child.pos
    {
      ghost var before := op.Remaining();
      var rc := op.Next();
      if !rc.Success? {
        assert rows + [] == rows;
        return rows, rc;
      }
      assert rows + before.rows == rows + [op.child.currentRecord] + op.Remaining().rows;
      rows := rows + [op.child.currentRecord];
    }
  }

  /** Scan and filter as planned: no predicates at the scan. */
  method RunPlain(records: seq<Record>, scanEnd: End, filterExpr: Expr) returns (rows: seq<Row>, end: End)
    ensures Stream(rows, end) == Select([filterExpr], Stored(records, scanEnd))
  {
    var scan := new TableScan(records, scanEnd, []);
    var filter := new PredicateOperator(scan, filterExpr);
    assert records[0..] == records;
    SelectTwice([], [filterExpr], Stored(records, scanEnd));
    assert [] + [filterExpr] == [filterExpr];
    rows, end := Drain(filter);
  }

  /** Scan and filter after optimization: the scan carries the pushed conjuncts and the filter above it
      the residual. Where the split is safe on every visible row, it delivers the rows of the plain
      run and ends as that does. */
  method RunPushedDown(records: seq<Record>, scanEnd: End, filterExpr: Expr) returns (rows: seq<Row>, end: End)
    ensures Stream(rows, end) == Select(Split(filterExpr).pushed + [Residual(filterExpr)], Stored(records, scanEnd))
    ensures (forall r: Row | r in Visible(records) :: SplitSafe(filterExpr, r))
            ==> Stream(rows, end) == Select([filterExpr], Stored(records, scanEnd))
  {
    hide Select, SplitSafe, Visible;
    var rest, pushed := GetExprsCanPushdown(filterExpr, []);
    assert pushed == Split(filterExpr).pushed;
    var residual := if rest.Some? then rest.value else Const(Boolean(true));
    var scan := new TableScan(records, scanEnd, pushed);
    var filter := new PredicateOperator(scan, residual);
    assert records[0..] == records;
    SelectTwice(pushed, [residual], Stored(records, scanEnd));
    if forall r: Row | r in Visible(records) :: SplitSafe(filterExpr, r) {
      PushdownStream(filterExpr, Stored(records, scanEnd));
    }
    rows, end := Drain(filter);
  }

  /** When every pushed conjunct and the residual evaluate on every visible row, both runs deliver all
      the rows the predicate accepts and end as the record scanner does. */
  lemma RunsAgreeWithoutFailures(records: seq<Record>, scanEnd: End, e: Expr)
    requires forall r: Row | r in Visible(records) :: AllOk(Split(e).pushed, r) && Eval(Residual(e), r).Ok?
    ensures Select(Split(e).pushed + [Residual(e)], Stored(records, scanEnd)) == Select([e], Stored(records, scanEnd))
            == Stream(Where([e], Visible(records)), scanEnd)
  {
    var after := Split(e).pushed + [Residual(e)];
    forall r: Row | r in Visible(records)
      ensures Judge(after, r) == Judge([e], r) && !Judge([e], r).Abort?
    {
      EvaluatesIsSafe(e, r);
    }
    SelectAlike(after, [e], Stored(records, scanEnd));
    SelectIsWhere([e], Stored(records, scanEnd));
  }

  // ---------------------------------------------------------------- failures the split changes

  function Fails(rc: RC): Expr {
    Expr.Other(_ => Err(rc))
  }

  /** A table with one row. */
  function OneRow(n: int): Stream {
    Stored([Record(map["a" := Integer(n)], true)], RecordEof)
  }

  /** A condition of two conjuncts of which the second is pushed and does not accept the row. */
  lemma TwoConjuncts(x: Expr, y: Expr, n: int)
    requires !x.Conjunction? && !CanPush(x) && CanPush(y)
    ensures var e, row: Row := Conjunction(And, [x, y]), map["a" := Integer(n)];
            var v, w := Eval(x, row), VerdictOf(Eval(y, row));
            && (v.Err? ==> Select([e], OneRow(n)) == Stream([], Failed(v.rc)))
            && (IsFalse(v) ==> Select([e], OneRow(n)) == Stream([], RecordEof))
            && (!w.Accept? ==> Select(Split(e).pushed + [Residual(e)], OneRow(n))
                                 == Stream([], if w.Abort? then Failed(w.rc) else RecordEof))
  {
    var e, row: Row := Conjunction(And, [x, y]), map["a" := Integer(n)];
    var rs := [Record(row, true)];
    assert rs[1..] == [] && Visible(rs) == [row] + Visible([]) == [row];
    assert [x, y][1..] == [y] && [y][1..] == [];
    assert SplitAll([y]) == SplitResults([], [y]);
    assert SplitAll([x, y]) == SplitResults([x], [y]) by { SplitAllStep([x, y]); }
    assert Split(e).pushed == [y];
    JudgeOne(e, row);
    JudgeOne(y, row);
    JudgeConcat([y], [Residual(e)], row);
    SelectOne([e], row);
    SelectOne(Split(e).pushed + [Residual(e)], row);
  }

  /** `1 > 2 and a = <failing>`: the plain run stops at the first conjunct and ends normally; the
      optimized one tests the second conjunct at the scan and fails. */
  lemma PushdownAddsFailure(rc: RC, n: int)
    ensures var e := Conjunction(And, [Comparison(GreatThan, Const(Integer(1)), Const(Integer(2))),
                                       Comparison(EqualTo, Field("a"), Fails(rc))]);
            && Select([e], OneRow(n)) == Stream([], RecordEof)
            && Select(Split(e).pushed + [Residual(e)], OneRow(n)) == Stream([], Failed(rc))
  {
    TwoConjuncts(Comparison(GreatThan, Const(Integer(1)), Const(Integer(2))),
                 Comparison(EqualTo, Field("a"), Fails(rc)), n);
  }

  /** `<failing> and a = 1` on a = 2: the plain run fails; the optimized one never gets to the failing
      conjunct. */
  lemma PushdownHidesFailure(rc: RC)
    ensures var e := Conjunction(And, [Fails(rc), Is("a", 1)]);
            && Select([e], OneRow(2)) == Stream([], Failed(rc))
            && Select(Split(e).pushed + [Residual(e)], OneRow(2)) == Stream([], RecordEof)
  {
    TwoConjuncts(Fails(rc), Is("a", 1), 2);
  }
}
