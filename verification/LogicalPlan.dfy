/** Logical plans and their meaning as row sequences. */
module LogicalPlan {
  import opened Expressions
  import opened PredicatePushdown
  import opened Conjuncts

  /** The operator kinds the rewrite rules tell apart. `Other` is any remaining operator
      (join, group, delete, update, insert, explain). */
  datatype Kind = TableGet(table: string, predicates: seq<Expr>) | Predicate | Project | Other(tag: nat)

  /** A logical operator with its expressions and children (logical_operator.h). */
  datatype Plan = Plan(kind: Kind, exprs: seq<Expr>, children: seq<Plan>)

  /** What pulling an operator to its end delivers: rows, and how it ends. */
  datatype Stream = Stream(rows: seq<Row>, end: End)

  /** Everything a plan's meaning depends on besides the plan: the stored rows, the projection of one
      row, and an arbitrary meaning for the operators that are not interpreted here. */
  datatype Engine = Engine(
    table: string -> Stream,
    project: (seq<Expr>, Row) -> Row,
    other: (Kind, seq<Expr>, seq<Stream>) -> Stream)

  /** Testing the rows one by one: a failing test ends the stream. */
  function Select(es: seq<Expr>, s: Stream): Stream
    decreases |s.rows|
  {
    if s.rows == [] then s
    else
      var rest := s.(rows := s.rows[1..]);
      match Judge(es, s.rows[0])
      case Accept => var t := Select(es, rest); t.(rows := [s.rows[0]] + t.rows)
      case Reject => Select(es, rest)
      case Abort(rc) => Stream([], Failed(rc))
  }

  function ProjectAll(eng: Engine, exprs: seq<Expr>, s: Stream): (out: Stream)
    ensures |out.rows| == |s.rows| && out.end == s.end
    ensures forall i | 0 <= i < |s.rows| :: out.rows[i] == eng.project(exprs, s.rows[i])
  {
    s.(rows := seq(|s.rows|, i requires 0 <= i < |s.rows| => eng.project(exprs, s.rows[i])))
  }

  /** The meaning of one operator over the meanings of its children. A projection without a child is
      a constant select: it emits one row (project_physical_operator.cpp). */
  function NodeMeaning(eng: Engine, kind: Kind, exprs: seq<Expr>, inputs: seq<Stream>): Stream {
    if kind.TableGet? then Select(kind.predicates, eng.table(kind.table))
    else if kind.Predicate? && |exprs| == 1 && |inputs| == 1 then Select(exprs, inputs[0])
    else if kind.Project? && |inputs| == 0 then Stream([eng.project(exprs, map[])], RecordEof)
    else if kind.Project? && |inputs| == 1 then ProjectAll(eng, exprs, inputs[0])
    else eng.other(kind, exprs, inputs)
  }

  function Meaning(eng: Engine, p: Plan): Stream
    decreases p, 1
  {
    NodeMeaning(eng, p.kind, p.exprs, MeaningAll(eng, p.children))
  }

  function MeaningAll(eng: Engine, ps: seq<Plan>): (r: seq<Stream>)
    ensures |r| == |ps|
    decreases ps, 0
  {
    if ps == [] then [] else [Meaning(eng, ps[0])] + MeaningAll(eng, ps[1..])
  }

  lemma {:induction false} MeaningAllAt(eng: Engine, ps: seq<Plan>, i: nat)
    requires i < |ps|
    ensures MeaningAll(eng, ps)[i] == Meaning(eng, ps[i])
  {
    if i > 0 { MeaningAllAt(eng, ps[1..], i - 1); }
  }

  // ---------------------------------------------------------------- selections

  /** Two selections in a row are one: no row is tested more or less often, or in another order. */
  lemma {:induction false} SelectTwice(a: seq<Expr>, b: seq<Expr>, s: Stream)
    ensures Select(b, Select(a, s)) == Select(a + b, s)
    decreases |s.rows|
  {
    if s.rows != [] {
      var rest := s.(rows := s.rows[1..]);
      SelectTwice(a, b, rest);
      JudgeConcat(a, b, s.rows[0]);
      var t := Select(a, s);
      if Judge(a, s.rows[0]).Accept? { assert t.rows[1..] == Select(a, rest).rows; }
    }
  }

  lemma {:induction false} SelectAlike(xs: seq<Expr>, ys: seq<Expr>, s: Stream)
    requires forall r: Row | r in s.rows :: Judge(xs, r) == Judge(ys, r)
    ensures Select(xs, s) == Select(ys, s)
    decreases |s.rows|
  {
    if s.rows != [] {
      assert s.rows[0] in s.rows;
      SelectAlike(xs, ys, s.(rows := s.rows[1..]));
    }
  }

  lemma SelectOne(es: seq<Expr>, r: Row)
    ensures Select(es, Stream([r], RecordEof)) ==
              match Judge(es, r)
              case Accept => Stream([r], RecordEof)
              case Reject => Stream([], RecordEof)
              case Abort(rc) => Stream([], Failed(rc))
  {
    var s := Stream([r], RecordEof);
    assert s.rows[1..] == [];
    assert Select(es, s.(rows := [])) == Stream([], RecordEof);
  }

  /** Pushing down gives the same stream on all data exactly when the split is safe on every row. */
  lemma PushdownStreamsIff(e: Expr)
    ensures (forall s: Stream :: Select([Residual(e)], Select(Split(e).pushed, s)) == Select([e], s))
            <==> forall r: Row :: SplitSafe(e, r)
  {
    if r: Row :| !SplitSafe(e, r) {
      var s := Stream([r], RecordEof);
      SelectTwice(Split(e).pushed, [Residual(e)], s);
      SplitKeepsVerdictIff(e, r);
      SelectOne(Split(e).pushed + [Residual(e)], r);
      SelectOne([e], r);
      assert Select([Residual(e)], Select(Split(e).pushed, s)) != Select([e], s);
    } else {
      forall s: Stream ensures Select([Residual(e)], Select(Split(e).pushed, s)) == Select([e], s) {
        PushdownStream(e, s);
      }
    }
  }

  lemma PushdownStream(e: Expr, s: Stream)
    requires forall r: Row | r in s.rows :: SplitSafe(e, r)
    ensures Select([Residual(e)], Select(Split(e).pushed, s)) == Select([e], s)
  {
    var after := Split(e).pushed + [Residual(e)];
    SelectTwice(Split(e).pushed, [Residual(e)], s);
    forall r: Row | r in s.rows ensures Judge(after, r) == Judge([e], r) { SplitKeepsVerdictIff(e, r); }
    SelectAlike(after, [e], s);
  }

  /** The rows that every one of the expressions accepts, in order. */
  ghost function Where(es: seq<Expr>, rows: seq<Row>): seq<Row> {
    if rows == [] then []
    else (if AllTrue(es, rows[0]) then [rows[0]] else []) + Where(es, rows[1..])
  }

  /** A row that is accepted stays in its place; any other is left out. */
  lemma WhereMeans(es: seq<Expr>, before: seq<Row>, r: Row, after: seq<Row>)
    ensures Where(es, before + [r] + after)
            == Where(es, before) + (if AllTrue(es, r) then [r] else []) + Where(es, after)
  {
    assert before + [r] + after == before + ([r] + after);
    WhereConcat(es, before, [r] + after);
    assert ([r] + after)[1..] == after;
  }

  lemma {:induction false} WhereConcat(es: seq<Expr>, a: seq<Row>, b: seq<Row>)
    ensures Where(es, a + b) == Where(es, a) + Where(es, b)
  {
    if a == [] {
      assert a + b == b;
    } else {
      assert (a + b)[1..] == a[1..] + b;
      WhereConcat(es, a[1..], b);
      var h := if AllTrue(es, a[0]) then [a[0]] else [];
      assert h + (Where(es, a[1..]) + Where(es, b)) == (h + Where(es, a[1..])) + Where(es, b);
    }
  }

  /** Up to the first row on which a test fails, the accepted rows are delivered; then the failure. */
  lemma {:induction false} SelectUpToFailure(es: seq<Expr>, s: Stream, n: nat)
    requires n < |s.rows| && NoAbort(es, s.rows[..n]) && Judge(es, s.rows[n]).Abort?
    ensures Select(es, s) == Stream(Where(es, s.rows[..n]), Failed(Judge(es, s.rows[n]).rc))
    decreases |s.rows|
  {
    if n > 0 {
      var t := s.(rows := s.rows[1..]);
      assert s.rows[..n][0] == s.rows[0] && s.rows[..n][1..] == t.rows[..n - 1];
      assert s.rows[0] in s.rows[..n];
      AcceptIffAllTrue(es, s.rows[0]);
      SelectUpToFailure(es, t, n - 1);
    }
  }

  ghost predicate NoAbort(es: seq<Expr>, rows: seq<Row>) {
    forall r: Row | r in rows :: !Judge(es, r).Abort?
  }

  /** Where no test fails, a selection delivers all the rows it accepts and ends as its input does. */
  lemma {:induction false} SelectIsWhere(es: seq<Expr>, s: Stream)
    requires NoAbort(es, s.rows)
    ensures Select(es, s) == Stream(Where(es, s.rows), s.end)
    decreases |s.rows|
  {
    if s.rows != [] {
      assert s.rows[0] in s.rows;
      AcceptIffAllTrue(es, s.rows[0]);
      SelectIsWhere(es, s.(rows := s.rows[1..]));
    }
  }

  /** Two selections of which one accepts no more than the other agree on a row sequence exactly
      when they accept the same of its rows. */
  lemma {:induction false} WhereEqualIff(strong: seq<Expr>, weak: seq<Expr>, rows: seq<Row>)
    requires forall r: Row | r in rows :: AllTrue(strong, r) ==> AllTrue(weak, r)
    ensures |Where(strong, rows)| <= |Where(weak, rows)|
    ensures Where(strong, rows) == Where(weak, rows)
            <==> forall r: Row | r in rows :: AllTrue(weak, r) ==> AllTrue(strong, r)
  {
    if rows != [] {
      var s, w := Where(strong, rows[1..]), Where(weak, rows[1..]);
      WhereEqualIff(strong, weak, rows[1..]);
      assert forall r: Row :: r in rows <==> r == rows[0] || r in rows[1..];
      if AllTrue(weak, rows[0]) && !AllTrue(strong, rows[0]) {
        assert |Where(strong, rows)| == |s| < |Where(weak, rows)|;
      } else if AllTrue(weak, rows[0]) {
        assert Where(strong, rows)[1..] == s && Where(weak, rows)[1..] == w;
      } else {
        assert Where(strong, rows) == s && Where(weak, rows) == w;
      }
    }
  }

  /** When the scan already had predicates they are overwritten. Where nothing fails, the result is
      right exactly when the predicate implies the overwritten ones on every row. */
  lemma PushdownRowsIff(e: Expr, prior: seq<Expr>, s: Stream)
    requires NoAbort(prior + [e], s.rows) && NoAbort(Split(e).pushed + [Residual(e)], s.rows)
    ensures Select([Residual(e)], Select(Split(e).pushed, s)) == Select([e], Select(prior, s))
            <==> forall r: Row | r in s.rows :: IsTrue(e, r) ==> AllTrue(prior, r)
  {
    var after := Split(e).pushed + [Residual(e)];
    var before := prior + [e];
    SelectTwice(Split(e).pushed, [Residual(e)], s);
    SelectTwice(prior, [e], s);
    SelectIsWhere(after, s);
    SelectIsWhere(before, s);
    forall r: Row ensures AllTrue(after, r) <==> IsTrue(e, r)
                  ensures AllTrue(before, r) <==> AllTrue(prior, r) && IsTrue(e, r) {
      AllTrueConcat(Split(e).pushed, [Residual(e)], r);
      AllTrueConcat(prior, [e], r);
      SplitKeepsAcceptance(e, r);
      assert Residual(e) in [Residual(e)] && e in [e];
    }
    WhereEqualIff(before, after, s.rows);
  }

  lemma {:induction false} SelectConst(c: Expr, s: Stream)
    requires c.Const?
    ensures Select([c], s) == if IsTrue(c, map[]) then s else s.(rows := [])
    decreases |s.rows|
  {
    if s.rows != [] {
      JudgeOne(c, s.rows[0]);
      SelectConst(c, s.(rows := s.rows[1..]));
      assert s.rows == [s.rows[0]] + s.rows[1..];
    }
  }
}
