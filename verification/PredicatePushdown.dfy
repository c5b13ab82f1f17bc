/** Splitting a predicate into conjuncts for the table scan and a residual
    (src/observer/sql/optimizer/predicate_pushdown_rewriter.cpp). */
module PredicatePushdown {
  import opened Wrappers
  import opened Expressions

  /** The two guards of `get_exprs_can_pushdown` for a comparison. */
  predicate CanPush(e: Expr) {
    && e.Comparison?
    && e.comp == EqualTo
    && !(!e.left.Field? && !e.right.Field?)
    && !(!e.left.Field? && !e.left.Const? && !e.right.Field? && !e.right.Const?)
  }

  datatype SplitResult = SplitResult(rest: Option<Expr>, pushed: seq<Expr>)

  datatype SplitResults = SplitResults(rests: seq<Expr>, pushed: seq<Expr>)

  /** What is left of an expression, and what was moved out of it, in order. */
  function Split(e: Expr): SplitResult
    decreases e, 1
  {
    if e.Conjunction? && e.kind.And? then
      var s := SplitAll(e.children);
      SplitResult(Some(Conjunction(And, s.rests)), s.pushed)
    else if CanPush(e) then SplitResult(None, [e])
    else SplitResult(Some(e), [])
  }

  function SplitAll(cs: seq<Expr>): SplitResults
    decreases cs, 0
  {
    if cs == [] then SplitResults([], [])
    else
      var h, t := Split(cs[0]), SplitAll(cs[1..]);
      SplitResults((if h.rest.Some? then [h.rest.value] else []) + t.rests, h.pushed + t.pushed)
  }

  /** The expression a predicate operator is left with: the fake `true` when all of it moved. */
  function Residual(e: Expr): Expr {
    var s := Split(e);
    if s.rest.Some? then s.rest.value else Const(Boolean(true))
  }

  ghost predicate AllTrue(es: seq<Expr>, row: Row) {
    forall e | e in es :: IsTrue(e, row)
  }

  /** The second guard never fires: an equality moves as soon as either side is a column, whatever
      the other side is. The comment in the source promises a column or a constant there. */
  lemma CanPushIffAColumnSide(e: Expr)
    ensures CanPush(e) <==> e.Comparison? && e.comp == EqualTo && (e.left.Field? || e.right.Field?)
    ensures CanPush(Comparison(EqualTo, Field("a"), Not(Const(Null))))
  {
  }

  /** Acceptance is unchanged by the split, for every expression and row: no evaluation is assumed
      to succeed, because a failing conjunct rejects the row on either side. */
  lemma {:induction false} SplitKeepsAcceptance(e: Expr, row: Row)
    ensures IsTrue(e, row) <==> AllTrue(Split(e).pushed, row) && IsTrue(Residual(e), row)
    decreases e, 1
  {
    if e.Conjunction? && e.kind.And? {
      var s := SplitAll(e.children);
      SplitAllKeepsAcceptance(e.children, row);
      AndAcceptsIffAllAccept(e.children, row);
      AndAcceptsIffAllAccept(s.rests, row);
    } else if CanPush(e) {
      assert e in Split(e).pushed;
    }
  }

  lemma {:induction false} SplitAllKeepsAcceptance(cs: seq<Expr>, row: Row)
    ensures AllTrue(cs, row) <==> AllTrue(SplitAll(cs).pushed, row) && AllTrue(SplitAll(cs).rests, row)
    decreases cs, 0
  {
    if cs != [] {
      var h, t := Split(cs[0]), SplitAll(cs[1..]);
      var first := if h.rest.Some? then [h.rest.value] else [];
      SplitKeepsAcceptance(cs[0], row);
      SplitAllKeepsAcceptance(cs[1..], row);
      AllTrueConcat([cs[0]], cs[1..], row);
      AllTrueConcat(h.pushed, t.pushed, row);
      AllTrueConcat(first, t.rests, row);
      assert cs == [cs[0]] + cs[1..];
      assert AllTrue([cs[0]], row) <==> IsTrue(cs[0], row) by { assert cs[0] in [cs[0]]; }
      assert h.rest.Some? ==> (AllTrue(first, row) <==> IsTrue(h.rest.value, row)) by {
        if h.rest.Some? { assert first[0] in first; }
      }
    }
  }

  lemma AllTrueConcat(a: seq<Expr>, b: seq<Expr>, row: Row)
    ensures AllTrue(a + b, row) <==> AllTrue(a, row) && AllTrue(b, row)
  {
    assert forall e :: e in a + b <==> e in a || e in b;
  }

  /** What stays behind holds nothing more to push, so a second split moves nothing. */
  lemma {:induction false} ResidualPushesNothing(e: Expr)
    ensures Split(Residual(e)) == SplitResult(Some(Residual(e)), [])
    decreases e, 1
  {
    if e.Conjunction? && e.kind.And? { RestsPushNothing(e.children); }
  }

  lemma {:induction false} RestsPushNothing(cs: seq<Expr>)
    ensures var rs := SplitAll(cs).rests; SplitAll(rs) == SplitResults(rs, [])
    decreases cs, 0
  {
    if cs != [] {
      var h, t := Split(cs[0]), SplitAll(cs[1..]);
      ResidualPushesNothing(cs[0]);
      RestsPushNothing(cs[1..]);
      if h.rest.Some? {
        var rs := SplitAll(cs).rests;
        assert rs[0] == h.rest.value && rs[1..] == t.rests;
      } else {
        assert SplitAll(cs).rests == t.rests;
      }
    }
  }

  /** A split that moves nothing leaves the expression as it was. */
  lemma {:induction false} NothingPushedNothingChanged(e: Expr)
    ensures Split(e).pushed == [] ==> Split(e).rest == Some(e)
    decreases e, 1
  {
    if e.Conjunction? && e.kind.And? { NothingPushedAll(e.children); }
  }

  lemma {:induction false} NothingPushedAll(cs: seq<Expr>)
    ensures SplitAll(cs).pushed == [] ==> SplitAll(cs).rests == cs
    decreases cs, 0
  {
    if cs != [] {
      NothingPushedNothingChanged(cs[0]);
      NothingPushedAll(cs[1..]);
      assert cs == [cs[0]] + cs[1..];
    }
  }

  /** `get_exprs_can_pushdown`. The moved expressions are appended to what the caller has collected
      so far; None is a moved-out pointer. */
  method GetExprsCanPushdown(expr: Expr, collected: seq<Expr>) returns (rest: Option<Expr>, pushdown: seq<Expr>)
    ensures rest == Split(expr).rest
    ensures pushdown == collected + Split(expr).pushed
    decreases expr, 1
  {
    rest, pushdown := Some(expr), collected;
    if expr.Conjunction? {
      if expr.kind.Or? { return; }
      var children;
      children, pushdown := PushdownChildren(expr.children, collected);
      rest := Some(Conjunction(And, children));
    } else if expr.Comparison? {
      if expr.comp != EqualTo { return; }
      var left, right := expr.left, expr.right;
      if !left.Field? && !right.Field? { return; }
      if left.Field? || left.Const? || right.Field? || right.Const? {
        rest, pushdown := None, pushdown + [expr];
      }
    }
  }

  /** The loop of `get_exprs_can_pushdown` over the children of an AND: a child that moved away is
      erased in place, otherwise the iterator advances. */
  method PushdownChildren(cs: seq<Expr>, collected: seq<Expr>) returns (children: seq<Expr>, pushdown: seq<Expr>)
    ensures children == SplitAll(cs).rests
    ensures pushdown == collected + SplitAll(cs).pushed
    decreases cs, 0
  {
    hide Split, SplitAll;
    children, pushdown := cs, collected;
    var iter := 0;
    ghost var kept, rest := [], cs;
    while iter < |children|
      invariant children == kept + rest && iter == |kept|
      invariant kept + SplitAll(rest).rests == SplitAll(cs).rests
      invariant pushdown + SplitAll(rest).pushed == collected + SplitAll(cs).pushed
      invariant |rest| <= |cs| && rest == cs[|cs| - |rest|..]
      decreases |rest|
    {
      SplitAllStep(rest);
      EraseAt(kept, rest);
      ghost var was := pushdown;
      var child;
      child, pushdown := GetExprsCanPushdown(children[iter], pushdown);
      assert pushdown + SplitAll(rest[1..]).pushed == was + SplitAll(rest).pushed;
      if child.None? {
        children := children[..iter] + children[iter + 1..];
      } else {
        ReplaceAt(kept, rest, child.value);
        children := children[iter := child.value];
        iter := iter + 1;
        kept := kept + [child.value];
      }
      rest := rest[1..];
    }
    SplitNone();
  }

  lemma SplitNone()
    ensures SplitAll([]) == SplitResults([], [])
  {
  }

  lemma EraseAt(kept: seq<Expr>, rest: seq<Expr>)
    requires rest != []
    ensures (kept + rest)[..|kept|] + (kept + rest)[|kept| + 1..] == kept + rest[1..]
  {
  }

  lemma ReplaceAt<T>(kept: seq<T>, rest: seq<T>, e: T)
    requires rest != []
    ensures (kept + rest)[|kept| := e] == (kept + [e]) + rest[1..]
  {
  }

  lemma SplitAllStep(cs: seq<Expr>)
    requires cs != []
    ensures var h, t := Split(cs[0]), SplitAll(cs[1..]);
            SplitAll(cs) ==
              SplitResults((if h.rest.Some? then [h.rest.value] else []) + t.rests, h.pushed + t.pushed)
  {
  }
}
