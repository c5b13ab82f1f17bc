/** What splitting a predicate does to failures: which conjunct stops an evaluation, before the split
    (ConjunctionExpr::get_value) and after it (TableScanPhysicalOperator::filter, then the residual). */
module Conjuncts {
  import opened Wrappers
  import opened Expressions
  import opened PredicatePushdown

  /** What becomes of a row: delivered, skipped, or the end of the run. */
  datatype Verdict = Accept | Reject | Abort(rc: RC)

  function VerdictOf(v: Outcome): Verdict {
    if v.Err? then Abort(v.rc) else if !v.value.Null? && GetBoolean(v.value) then Accept else Reject
  }

  /** Predicates tested one after the other; the first one that is not true decides. */
  function Judge(es: seq<Expr>, row: Row): Verdict {
    if es == [] then Accept
    else
      var v := VerdictOf(Eval(es[0], row));
      if v.Accept? then Judge(es[1..], row) else v
  }

  lemma {:induction false} JudgeConcat(a: seq<Expr>, b: seq<Expr>, row: Row)
    ensures Judge(a + b, row) == if Judge(a, row).Accept? then Judge(b, row) else Judge(a, row)
  {
    if a == [] {
      assert a + b == b;
    } else {
      assert (a + b)[1..] == a[1..] + b;
      JudgeConcat(a[1..], b, row);
    }
  }

  lemma {:induction false} AcceptIffAllTrue(es: seq<Expr>, row: Row)
    ensures Judge(es, row).Accept? <==> AllTrue(es, row)
  {
    if es != [] {
      AcceptIffAllTrue(es[1..], row);
      AllTrueConcat([es[0]], es[1..], row);
      assert es == [es[0]] + es[1..] && es[0] in [es[0]];
    }
  }

  lemma JudgeOne(e: Expr, row: Row)
    ensures Judge([e], row) == VerdictOf(Eval(e, row))
  {
    assert [e][1..] == [];
  }

  // ---------------------------------------------------------------- conjuncts in evaluation order

  /** The conjuncts of a tree of ANDs, left to right. */
  function Leaves(e: Expr): seq<Expr>
    decreases e, 1
  {
    if e.Conjunction? && e.kind.And? then LeavesAll(e.children) else [e]
  }

  function LeavesAll(cs: seq<Expr>): seq<Expr>
    decreases cs, 0
  {
    if cs == [] then [] else Leaves(cs[0]) + LeavesAll(cs[1..])
  }

  /** None of them is itself an AND. */
  lemma {:induction false} LeavesAreNoAnds(e: Expr)
    ensures forall c | c in Leaves(e) :: !(c.Conjunction? && c.kind.And?)
    decreases e, 1
  {
    if e.Conjunction? && e.kind.And? { LeavesAllAreNoAnds(e.children); }
  }

  lemma {:induction false} LeavesAllAreNoAnds(cs: seq<Expr>)
    ensures forall c | c in LeavesAll(cs) :: !(c.Conjunction? && c.kind.And?)
    decreases cs, 0
  {
    if cs != [] {
      LeavesAreNoAnds(cs[0]);
      LeavesAllAreNoAnds(cs[1..]);
    }
  }

  predicate IsFalse(v: Outcome) {
    v.Ok? && !v.value.Null? && !GetBoolean(v.value)
  }

  /** What AND fails with: a NULL conjunct is passed over, a false one ends the evaluation. */
  function Failure(ls: seq<Expr>, row: Row): Option<RC> {
    if ls == [] then None
    else
      var v := Eval(ls[0], row);
      if v.Err? then Some(v.rc) else if IsFalse(v) then None else Failure(ls[1..], row)
  }

  /** What a scan fails with: a conjunct that is false or NULL ends the test. */
  function ScanFailure(ps: seq<Expr>, row: Row): Option<RC> {
    if ps == [] then None
    else
      var v := VerdictOf(Eval(ps[0], row));
      if v.Abort? then Some(v.rc) else if v.Reject? then None else ScanFailure(ps[1..], row)
  }

  function Pushed(ls: seq<Expr>): seq<Expr> {
    if ls == [] then [] else (if CanPush(ls[0]) then [ls[0]] else []) + Pushed(ls[1..])
  }

  function Kept(ls: seq<Expr>): seq<Expr> {
    if ls == [] then [] else (if CanPush(ls[0]) then [] else [ls[0]]) + Kept(ls[1..])
  }

  /** What the split form fails with: the scan tests the pushed conjuncts first, and the others are
      evaluated only on rows that pass it. */
  function SplitFailure(ls: seq<Expr>, row: Row): Option<RC> {
    if Judge(Pushed(ls), row).Accept? then Failure(Kept(ls), row) else ScanFailure(Pushed(ls), row)
  }

  /** When the split changes nothing on this row: always if the scan passes it; if the scan rejects it,
      as long as the predicate does not fail on it; if the scan fails on it, as long as the predicate
      does so with the same code. */
  predicate SplitSafe(e: Expr, row: Row) {
    match Judge(Split(e).pushed, row)
    case Accept => true
    case Reject => Failure(Leaves(e), row).None?
    case Abort(rc) => Failure(Leaves(e), row) == Some(rc)
  }

  /** Conjunct i fails with rc, and none before it fails or is false. */
  ghost predicate FailsAt(ls: seq<Expr>, row: Row, rc: RC, i: int) {
    && 0 <= i < |ls| && Eval(ls[i], row) == Err(rc)
    && forall j | 0 <= j < i :: Eval(ls[j], row).Ok? && !IsFalse(Eval(ls[j], row))
  }

  lemma {:induction false} FailureIff(ls: seq<Expr>, row: Row, rc: RC)
    ensures Failure(ls, row) == Some(rc) <==> exists i :: FailsAt(ls, row, rc, i)
  {
    if ls != [] {
      var t, v := ls[1..], Eval(ls[0], row);
      FailureIff(t, row, rc);
      if i :| FailsAt(t, row, rc, i) {
        assert v.Ok? && !IsFalse(v) ==> FailsAt(ls, row, rc, i + 1) by {
          assert forall j | 0 < j <= i + 1 :: ls[j] == t[j - 1];
        }
      }
      if i :| FailsAt(ls, row, rc, i) {
        assert i > 0 ==> FailsAt(t, row, rc, i - 1) by {
          assert forall j | 0 <= j < i :: t[j] == ls[j + 1];
        }
      }
      assert v == Err(rc) ==> FailsAt(ls, row, rc, 0);
    }
  }

  /** Predicate i fails with rc, and all before it are true. */
  ghost predicate ScanFailsAt(ps: seq<Expr>, row: Row, rc: RC, i: int) {
    0 <= i < |ps| && Eval(ps[i], row) == Err(rc) && forall j | 0 <= j < i :: IsTrue(ps[j], row)
  }

  lemma {:induction false} ScanFailureIff(ps: seq<Expr>, row: Row, rc: RC)
    ensures ScanFailure(ps, row) == Some(rc) <==> Judge(ps, row) == Abort(rc)
    ensures Judge(ps, row) == Abort(rc) <==> exists i :: ScanFailsAt(ps, row, rc, i)
  {
    if ps != [] {
      var t := ps[1..];
      ScanFailureIff(t, row, rc);
      if i :| ScanFailsAt(t, row, rc, i) {
        assert IsTrue(ps[0], row) ==> ScanFailsAt(ps, row, rc, i + 1) by {
          assert forall j | 0 < j <= i + 1 :: ps[j] == t[j - 1];
        }
      }
      if i :| ScanFailsAt(ps, row, rc, i) {
        assert i > 0 ==> ScanFailsAt(t, row, rc, i - 1) by {
          assert forall j | 0 <= j < i :: t[j] == ps[j + 1];
        }
      }
      assert Eval(ps[0], row) == Err(rc) ==> ScanFailsAt(ps, row, rc, 0);
    }
  }

  // ---------------------------------------------------------------- evaluation by leaves

  /** A NULL seen before only turns true into NULL. */
  lemma {:induction false} NullSeen(cs: seq<Expr>, row: Row)
    ensures var r := EvalConjuncts(And, cs, row, false);
            EvalConjuncts(And, cs, row, true) == if r.Err? || IsFalse(r) then r else Ok(Null)
    decreases cs
  {
    if cs != [] { NullSeen(cs[1..], row); }
  }

  lemma {:induction false} AndConcat(a: seq<Expr>, b: seq<Expr>, row: Row, nul: bool)
    ensures var r := EvalConjuncts(And, a, row, nul);
            EvalConjuncts(And, a + b, row, nul) ==
              if r.Err? || IsFalse(r) then r else EvalConjuncts(And, b, row, r.value.Null?)
    decreases a
  {
    if a == [] {
      assert a + b == b;
    } else {
      assert (a + b)[1..] == a[1..] + b;
      AndConcat(a[1..], b, row, nul);
      AndConcat(a[1..], b, row, true);
    }
  }

  /** Evaluating a tree of ANDs is evaluating the flat list of its conjuncts. */
  lemma {:induction false} AndByLeaves(e: Expr, row: Row)
    ensures e.Conjunction? && e.kind.And? ==> Eval(e, row) == EvalConjuncts(And, Leaves(e), row, false)
    ensures VerdictOf(Eval(e, row)) == VerdictOf(EvalConjuncts(And, Leaves(e), row, false))
    decreases e, 1
  {
    if e.Conjunction? && e.kind.And? {
      AndAllByLeaves(e.children, row, false);
    } else {
      assert [e][1..] == [];
    }
  }

  lemma {:induction false} AndAllByLeaves(cs: seq<Expr>, row: Row, nul: bool)
    ensures EvalConjuncts(And, cs, row, nul) == EvalConjuncts(And, LeavesAll(cs), row, nul)
    decreases cs, 0
  {
    if cs != [] {
      var c, t := cs[0], cs[1..];
      AndByLeaves(c, row);
      AndAllByLeaves(t, row, nul);
      AndAllByLeaves(t, row, true);
      AndConcat(Leaves(c), LeavesAll(t), row, nul);
      NullSeen(Leaves(c), row);
      ConjunctsAccept(Leaves(c), row, false);
      if !(c.Conjunction? && c.kind.And?) { assert [c][1..] == []; }
    }
  }

  lemma {:induction false} FailureOfAnd(ls: seq<Expr>, row: Row, nul: bool, rc: RC)
    ensures EvalConjuncts(And, ls, row, nul) == Err(rc) <==> Failure(ls, row) == Some(rc)
    decreases ls
  {
    if ls != [] {
      FailureOfAnd(ls[1..], row, nul, rc);
      FailureOfAnd(ls[1..], row, true, rc);
    }
  }

  /** The unsplit predicate ends the run exactly when, among its conjuncts, the first that is false or
      fails is one that fails. */
  lemma FailsIff(e: Expr, row: Row, rc: RC)
    ensures Judge([e], row) == Abort(rc) <==> Failure(Leaves(e), row) == Some(rc)
    ensures Judge([e], row) == Abort(rc) <==> exists i :: FailsAt(Leaves(e), row, rc, i)
  {
    FailureIff(Leaves(e), row, rc);
    JudgeOne(e, row);
    AndByLeaves(e, row);
    FailureOfAnd(Leaves(e), row, false, rc);
  }

  // ---------------------------------------------------------------- the split by leaves

  lemma {:induction false} PushedConcat(a: seq<Expr>, b: seq<Expr>)
    ensures Pushed(a + b) == Pushed(a) + Pushed(b)
  {
    hide CanPush;
    if a == [] {
      assert a + b == b;
    } else {
      assert (a + b)[1..] == a[1..] + b;
      PushedConcat(a[1..], b);
      var h := if CanPush(a[0]) then [a[0]] else [];
      assert h + (Pushed(a[1..]) + Pushed(b)) == (h + Pushed(a[1..])) + Pushed(b);
    }
  }

  lemma {:induction false} KeptConcat(a: seq<Expr>, b: seq<Expr>)
    ensures Kept(a + b) == Kept(a) + Kept(b)
  {
    hide CanPush;
    if a == [] {
      assert a + b == b;
    } else {
      assert (a + b)[1..] == a[1..] + b;
      KeptConcat(a[1..], b);
      var h := if CanPush(a[0]) then [] else [a[0]];
      assert h + (Kept(a[1..]) + Kept(b)) == (h + Kept(a[1..])) + Kept(b);
    }
  }

  /** The split takes the pushable conjuncts out and leaves the others, each in their order. */
  lemma {:induction false} SplitByLeaves(e: Expr)
    ensures Split(e).pushed == Pushed(Leaves(e))
    ensures if Split(e).rest.Some? then Leaves(Split(e).rest.value) == Kept(Leaves(e)) else Kept(Leaves(e)) == []
    decreases e, 1
  {
    if e.Conjunction? && e.kind.And? {
      SplitAllByLeaves(e.children);
    } else {
      assert [e][1..] == [];
    }
  }

  lemma {:induction false} SplitAllByLeaves(cs: seq<Expr>)
    ensures SplitAll(cs).pushed == Pushed(LeavesAll(cs))
    ensures LeavesAll(SplitAll(cs).rests) == Kept(LeavesAll(cs))
    decreases cs, 0
  {
    if cs != [] {
      var h, t := Split(cs[0]), SplitAll(cs[1..]);
      SplitByLeaves(cs[0]);
      SplitAllByLeaves(cs[1..]);
      PushedConcat(Leaves(cs[0]), LeavesAll(cs[1..]));
      KeptConcat(Leaves(cs[0]), LeavesAll(cs[1..]));
      if h.rest.Some? {
        var rs := SplitAll(cs).rests;
        assert rs[0] == h.rest.value && rs[1..] == t.rests;
      } else {
        assert SplitAll(cs).rests == t.rests;
      }
    }
  }

  lemma SplitFailureIff(ls: seq<Expr>, row: Row, rc: RC)
    ensures SplitFailure(ls, row) == Some(rc) <==>
              || (exists i :: ScanFailsAt(Pushed(ls), row, rc, i))
              || (AllTrue(Pushed(ls), row) && exists i :: FailsAt(Kept(ls), row, rc, i))
  {
    AcceptIffAllTrue(Pushed(ls), row);
    ScanFailureIff(Pushed(ls), row, rc);
    FailureIff(Kept(ls), row, rc);
    hide AllTrue, Judge, FailsAt, ScanFailsAt;
    if Judge(Pushed(ls), row).Accept? {
      assert SplitFailure(ls, row) == Failure(Kept(ls), row);
    } else {
      assert SplitFailure(ls, row) == ScanFailure(Pushed(ls), row);
    }
  }

  /** The split form ends the run exactly when the first pushed conjunct that is not true fails, or all
      pushed ones are true and the first of the others that is false or fails is one that fails. */
  lemma SplitFailsIff(e: Expr, row: Row, rc: RC)
    ensures Judge(Split(e).pushed + [Residual(e)], row) == Abort(rc) <==> SplitFailure(Leaves(e), row) == Some(rc)
    ensures SplitFailure(Leaves(e), row) == Some(rc) <==>
              || (exists i :: ScanFailsAt(Pushed(Leaves(e)), row, rc, i))
              || (AllTrue(Pushed(Leaves(e)), row) && exists i :: FailsAt(Kept(Leaves(e)), row, rc, i))
  {
    SplitFailureIff(Leaves(e), row, rc);
    var ps := Split(e).pushed;
    SplitByLeaves(e);
    JudgeConcat(ps, [Residual(e)], row);
    ScanFailureIff(ps, row, rc);
    FailsIff(Residual(e), row, rc);
    if Split(e).rest.None? { assert Leaves(Residual(e)) == [Residual(e)] && [Residual(e)][1..] == []; }
  }

  lemma FailsAlike(e: Expr, row: Row, v: Verdict)
    ensures v.Abort? ==> (Judge([e], row) == v <==> Failure(Leaves(e), row) == Some(v.rc))
    ensures v.Abort? ==> (Judge(Split(e).pushed + [Residual(e)], row) == v
                          <==> SplitFailure(Leaves(e), row) == Some(v.rc))
  {
    if v.Abort? {
      FailsIff(e, row, v.rc);
      SplitFailsIff(e, row, v.rc);
    }
  }

  /** A failure of the conjunction is one of the conjuncts that stay behind, if no pushed one fails;
      so is its absence, if all pushed ones are true. */
  lemma {:induction false} FailureIsKept(ls: seq<Expr>, row: Row)
    requires AllOk(Pushed(ls), row)
    ensures Failure(ls, row).Some? || AllTrue(Pushed(ls), row) ==> Failure(Kept(ls), row) == Failure(ls, row)
  {
    if ls != [] {
      var ps, ks := Pushed(ls), Kept(ls);
      if CanPush(ls[0]) {
        assert ps[0] == ls[0] && ps[1..] == Pushed(ls[1..]) && ks == Kept(ls[1..]);
        assert AllTrue(ps, row) ==> IsTrue(ls[0], row) && AllTrue(ps[1..], row);
      } else {
        assert ps == Pushed(ls[1..]) && ks[0] == ls[0] && ks[1..] == Kept(ls[1..]);
      }
      if Eval(ls[0], row).Ok? { FailureIsKept(ls[1..], row); }
    }
  }

  /** A split is safe exactly when the same failure, or none, stops either form. */
  lemma SafeIsSameFailure(e: Expr, row: Row)
    ensures SplitSafe(e, row) <==> Failure(Leaves(e), row) == SplitFailure(Leaves(e), row)
  {
    var ls := Leaves(e);
    SplitByLeaves(e);
    match Judge(Pushed(ls), row)
    case Accept =>
      AcceptIffAllTrue(Pushed(ls), row);
      assert forall i | 0 <= i < |Pushed(ls)| :: IsTrue(Pushed(ls)[i], row);
      FailureIsKept(ls, row);
    case Reject =>
      var f := ScanFailure(Pushed(ls), row);
      if f.Some? { ScanFailureIff(Pushed(ls), row, f.value); }
    case Abort(rc) => ScanFailureIff(Pushed(ls), row, rc);
  }

  /** A row meets the same fate before and after the split exactly when the split is safe on it. */
  lemma SplitKeepsVerdictIff(e: Expr, row: Row)
    ensures Judge(Split(e).pushed + [Residual(e)], row) == Judge([e], row) <==> SplitSafe(e, row)
  {
    var ps := Split(e).pushed;
    var before, after := Judge([e], row), Judge(ps + [Residual(e)], row);
    AcceptIffAllTrue(ps + [Residual(e)], row);
    AcceptIffAllTrue([e], row);
    AllTrueConcat(ps, [Residual(e)], row);
    SplitKeepsAcceptance(e, row);
    assert e in [e] && Residual(e) in [Residual(e)];
    SafeIsSameFailure(e, row);
    hide Judge, AllTrue, IsTrue, Failure, SplitFailure, Split, Leaves, Residual, SplitSafe;
    FailsAlike(e, row, before);
    FailsAlike(e, row, after);
    var f, g := Failure(Leaves(e), row), SplitFailure(Leaves(e), row);
    if f.Some? { FailsAlike(e, row, Abort(f.value)); }
    if g.Some? { FailsAlike(e, row, Abort(g.value)); }
  }

  /** On a row where every pushed conjunct and the residual evaluate, neither form fails and both say
      the same. */
  lemma EvaluatesIsSafe(e: Expr, row: Row)
    requires AllOk(Split(e).pushed, row) && Eval(Residual(e), row).Ok?
    ensures SplitSafe(e, row) && Eval(e, row).Ok?
    ensures Judge(Split(e).pushed + [Residual(e)], row) == Judge([e], row) && !Judge([e], row).Abort?
  {
    var ls := Leaves(e);
    var f := Failure(ls, row);
    SplitByLeaves(e);
    SplitKeepsVerdictIff(e, row);
    SafeIsSameFailure(e, row);
    hide SplitSafe;
    JudgeOne(e, row);
    JudgeOne(Residual(e), row);
    if f.Some? {
      FailureIsKept(ls, row);
      FailsIff(Residual(e), row, f.value);
    }
    var before := Judge([e], row);
    if before.Abort? { FailsIff(e, row, before.rc); }
    var g := SplitFailure(ls, row);
    if g.Some? {
      SplitFailsIff(e, row, g.value);
      NoFailureWhenOk(Split(e).pushed, row, g.value);
      JudgeConcat(Split(e).pushed, [Residual(e)], row);
    }
  }

  lemma NoFailureWhenOk(ps: seq<Expr>, row: Row, rc: RC)
    requires AllOk(ps, row)
    ensures Judge(ps, row) != Abort(rc)
  {
    ScanFailureIff(ps, row, rc);
  }
}
