/** The two join operators as pull machines (join_physical_operator.cpp,
    hash_join_physical_operator.cpp), and the choice between them (physical_plan_generator.cpp). */
module JoinOperators {
  import opened Wrappers
  import opened Expressions
  import opened Tuples
  import opened Joins

  /** What a child operator does each time it is opened: fails at once, or delivers its rows and ends,
      normally or with a failure. Closing it may fail too. */
  datatype Source = Source(openFailure: Option<RC>, rows: seq<Cells>, end: End, closeFailure: Option<RC>)

  /** What pulling a join to its end delivers. */
  datatype PairStream = PairStream(pairs: seq<Pair>, end: End)

  function Prepend(ps: seq<Pair>, s: PairStream): PairStream {
    s.(pairs := ps + s.pairs)
  }

  function Failing(rc: RC): PairStream {
    PairStream([], Failed(rc))
  }

  class RowSource {
    const src: Source
    var pos: nat
    var isOpen: bool
    var current: Cells

    ghost predicate Valid()
      reads this
    {
      pos <= |src.rows|
    }

    constructor (src: Source)
      ensures Valid() && this.src == src && !isOpen
    {
      this.src, pos, isOpen, current := src, 0, false, [];
    }

    method Open() returns (rc: Pull)
      modifies this
      ensures rc == if src.openFailure.Some? then Failed(src.openFailure.value) else Success
      ensures rc.Success? ==> Valid() && pos == 0 && isOpen
    {
      if src.openFailure.Some? { return Failed(src.openFailure.value); }
      pos, isOpen := 0, true;
      rc := Success;
    }

    method Close() returns (rc: Pull)
      modifies this`isOpen
      ensures !isOpen && rc == if src.closeFailure.Some? then Failed(src.closeFailure.value) else Success
    {
      isOpen := false;
      rc := if src.closeFailure.Some? then Failed(src.closeFailure.value) else Success;
    }

    method Next() returns (rc: Pull)
      requires Valid() && isOpen
      modifies this`pos, this`current
      ensures Valid()
      ensures rc.Success? ==> src.rows[old(pos)..] == [current] + src.rows[pos..] && pos == old(pos) + 1
      ensures !rc.Success? ==> src.rows[old(pos)..] == [] && pos == old(pos) && rc == src.end
    {
      if pos == |src.rows| { return src.end; }
      current, pos := src.rows[pos], pos + 1;
      rc := Success;
    }
  }

  // ---------------------------------------------------------------- nested loop

  /** What stands in the way of a new round over the right side. */
  function Reopening(r: Source, closed: bool): Option<RC> {
    if !closed && r.closeFailure.Some? then r.closeFailure else r.openFailure
  }

  /** The left rows in turn, each with a round over the right side. A round without any row is taken for
      the end of the join, and later left rows are not read. */
  function Loop(ls: seq<Cells>, end: End, r: Source, closed: bool): PairStream
    decreases |ls|, 0
  {
    if ls == [] then PairStream([], end)
    else if Reopening(r, closed).Some? then Failing(Reopening(r, closed).value)
    else if r.rows == [] then PairStream([], r.end)
    else Prepend(PairWith(ls[0], r.rows), AfterRound(ls[1..], end, r))
  }

  function AfterRound(ls: seq<Cells>, end: End, r: Source): PairStream
    decreases |ls|, 1
  {
    if r.end.Failed? then PairStream([], r.end) else Loop(ls, end, r, false)
  }

  function LoopStream(l: Source, r: Source): PairStream {
    if l.openFailure.Some? then Failing(l.openFailure.value) else Loop(l.rows, l.end, r, true)
  }

  predicate NoFailures(s: Source) {
    s.openFailure.None? && s.closeFailure.None? && s.end.RecordEof?
  }

  /** Without failures the nested loop is the product in left-major order. */
  lemma LoopIsProduct(l: Source, r: Source)
    requires NoFailures(l) && NoFailures(r)
    ensures LoopStream(l, r) == PairStream(Product(l.rows, r.rows), RecordEof)
  {
    LoopIsProductFrom(l.rows, r, true);
  }

  lemma {:induction false} LoopIsProductFrom(ls: seq<Cells>, r: Source, closed: bool)
    requires NoFailures(r)
    ensures Loop(ls, RecordEof, r, closed) == PairStream(Product(ls, r.rows), RecordEof)
  {
    if r.rows == [] {
      ProductOfNothing(ls);
    } else if ls != [] {
      LoopIsProductFrom(ls[1..], r, false);
    }
  }

  /** When the nested loop fails: the left side does not open; or it has a row and the right side does not
      open, or fails before its end; or it has a second row, the right side has any, and closing it
      fails; or the left side fails at its end, with no row at all or with right rows all along. */
  lemma LoopFailsIff(l: Source, r: Source)
    ensures LoopStream(l, r).end.Failed? <==>
              || l.openFailure.Some?
              || (l.rows != [] && (r.openFailure.Some? || r.end.Failed?))
              || (|l.rows| > 1 && r.rows != [] && r.closeFailure.Some?)
              || (l.end.Failed? && (l.rows == [] || r.rows != []))
    ensures l.openFailure.Some? ==> LoopStream(l, r) == Failing(l.openFailure.value)
    ensures l.openFailure.None? && l.rows != [] && r.openFailure.Some? ==>
              LoopStream(l, r) == Failing(r.openFailure.value)
  {
    LoopFailsFrom(l.rows, l.end, r, true);
  }

  /** Whatever fails, what was delivered until then is a beginning of the product. */
  lemma LoopIsPrefix(l: Source, r: Source)
    ensures LoopStream(l, r).pairs <= Product(l.rows, r.rows)
  {
    LoopIsPrefixFrom(l.rows, l.end, r, true);
  }

  lemma {:induction false} LoopIsPrefixFrom(ls: seq<Cells>, end: End, r: Source, closed: bool)
    ensures Loop(ls, end, r, closed).pairs <= Product(ls, r.rows)
    decreases |ls|
  {
    if ls != [] { LoopIsPrefixFrom(ls[1..], end, r, false); }
  }

  lemma {:induction false} LoopFailsFrom(ls: seq<Cells>, end: End, r: Source, closed: bool)
    ensures Loop(ls, end, r, closed).end.Failed? <==>
              || (ls != [] && (r.openFailure.Some? || r.end.Failed?))
              || (ls != [] && !closed && r.closeFailure.Some?)
              || (|ls| > 1 && r.rows != [] && r.closeFailure.Some?)
              || (end.Failed? && (ls == [] || r.rows != []))
    decreases |ls|
  {
    if ls != [] { LoopFailsFrom(ls[1..], end, r, false); }
  }

  class NestedLoopJoin {
    const left: RowSource
    const right: RowSource
    var roundDone: bool
    var rightClosed: bool
    var leftTuple: Option<Cells>
    var joined: Pair

    ghost predicate Valid()
      reads this, left, right
    {
      && left != right && left.Valid() && right.Valid() && left.isOpen
      && (rightClosed <==> !right.isOpen)
      && (leftTuple.Some? ==> joined.0 == leftTuple.value)
      && (!roundDone ==> leftTuple.Some? && right.isOpen)
    }

    /** What is still to come: the rest of the current round, then the later left rows. */
    ghost function Remaining(): PairStream
      requires Valid()
      reads this, left, right
    {
      var later := left.src.rows[left.pos..];
      if roundDone then Loop(later, left.src.end, right.src, rightClosed)
      else Prepend(PairWith(leftTuple.value, right.src.rows[right.pos..]), AfterRound(later, left.src.end, right.src))
    }

    constructor (left: RowSource, right: RowSource)
      ensures this.left == left && this.right == right && leftTuple.None?
    {
      this.left, this.right, leftTuple, joined := left, right, None, ([], []);
      roundDone, rightClosed := true, true;
    }

    /** `open`: only the left side is opened; the right side is opened once per left row. */
    method Open() returns (rc: Pull)
      requires left != right && right.Valid() && !right.isOpen
      requires leftTuple.Some? ==> joined.0 == leftTuple.value
      modifies this, left
      ensures !rc.RecordEof? && (rc.Failed? ==> LoopStream(left.src, right.src) == Failing(rc.rc))
      ensures rc.Success? ==> Valid() && Remaining() == LoopStream(left.src, right.src)
    {
      rightClosed, roundDone := true, true;
      rc := left.Open();
    }

    /** `left_next`. */
    method LeftNext() returns (rc: Pull)
      requires Valid() && roundDone
      modifies this`leftTuple, this`joined, left`pos, left`current
      ensures Valid()
      ensures rc.Success? ==> && leftTuple.Some? && left.pos == old(left.pos) + 1
                              && left.src.rows[old(left.pos)..] == [leftTuple.value] + left.src.rows[left.pos..]
      ensures !rc.Success? ==> left.src.rows[old(left.pos)..] == [] && rc == left.src.end
    {
      rc := left.Next();
      if !rc.Success? { return; }
      leftTuple := Some(left.current);
      joined := (left.current, joined.1);
    }

    /** `right_next`: a finished round closes the right side and opens it again. */
    method RightNext() returns (rc: Pull)
      requires Valid() && leftTuple.Some?
      modifies this`roundDone, this`rightClosed, this`joined, right
      ensures var failure := if old(roundDone) then Reopening(right.src, old(rightClosed)) else None;
              var rest := if old(roundDone) then right.src.rows else right.src.rows[old(right.pos)..];
              if failure.Some? then rc == Failed(failure.value) && rightClosed
              else if rest == [] then rc == right.src.end
              else && rc.Success? && Valid() && !roundDone && joined.0 == leftTuple.value
                   && rest == [joined.1] + right.src.rows[right.pos..]
      ensures rc.RecordEof? ==> Valid() && roundDone && !rightClosed
    {
      if roundDone {
        if !rightClosed {
          rc := right.Close();
          rightClosed := true;
          if !rc.Success? { return; }
        }
        rc := right.Open();
        if !rc.Success? { return; }
        rightClosed, roundDone := false, false;
      }
      rc := right.Next();
      if !rc.Success? {
        if rc.RecordEof? { roundDone := true; }
        return;
      }
      joined := (joined.0, right.current);
    }

    /** The second half of `next`: step the left side, then the right side. */
    method NextRound() returns (rc: Pull)
      requires Valid() && roundDone
      modifies this, left, right
      ensures rc.Success? ==> Valid() && old(Remaining()) == Prepend([joined], Remaining())
      ensures !rc.Success? ==> old(Remaining()) == PairStream([], rc)
    {
      ghost var later := left.src.rows[left.pos..];
      rc := LeftNext();
      if !rc.Success? { return; }
      ghost var after := left.src.rows[left.pos..];
      assert later[0] == leftTuple.value && later[1..] == after;
      rc := RightNext();
      if rc.Success? {
        RoundStep(leftTuple.value, joined.1, right.src.rows[right.pos..], AfterRound(after, left.src.end, right.src));
      }
    }

    /** `next`. */
    method Next() returns (rc: Pull)
      requires Valid()
      modifies this, left, right
      ensures rc.Success? ==> Valid() && old(Remaining()) == Prepend([joined], Remaining())
      ensures !rc.Success? ==> old(Remaining()) == PairStream([], rc)
    {
      if !roundDone {
        ghost var l, later := leftTuple.value, AfterRound(left.src.rows[left.pos..], left.src.end, right.src);
        rc := RightNext();
        if rc.Success? {
          RoundStep(l, joined.1, right.src.rows[right.pos..], later);
          return;
        }
        NothingFirst(l, later);
        if rc.Failed? { return; }
        assert Remaining() == old(Remaining());
      }
      rc := NextRound();
    }
  }

  lemma RoundStep(l: Cells, r: Cells, rs: seq<Cells>, later: PairStream)
    ensures Prepend(PairWith(l, [r] + rs), later) == Prepend([(l, r)], Prepend(PairWith(l, rs), later))
  {
    assert PairWith(l, [r] + rs) == [(l, r)] + PairWith(l, rs);
  }

  lemma NothingFirst(l: Cells, later: PairStream)
    ensures Prepend(PairWith(l, []), later) == later
  {
  }

  // ---------------------------------------------------------------- equi-join

  /** The failure of the first key that does not evaluate. */
  function KeyFailure(k: KeyFn, rows: seq<Cells>): Option<RC> {
    if rows == [] then None
    else if k(rows[0]).Err? then Some(k(rows[0]).rc) else KeyFailure(k, rows[1..])
  }

  /** The right rows in turn, each with the range of its key, up to the first key that fails. */
  function ProbeStream(m: seq<Entry>, rk: KeyFn, rs: seq<Cells>, end: End): PairStream {
    if rs == [] then PairStream([], end)
    else if rk(rs[0]).Err? then Failing(rk(rs[0]).rc)
    else Prepend(PairRight(RangeRows(m, rk(rs[0]).value), rs[0]), ProbeStream(m, rk, rs[1..], end))
  }

  /** The right side is opened, the left side is read to its end into the table, and the right side
      probes it. */
  function EquiStream(l: Source, r: Source, lk: KeyFn, rk: KeyFn): PairStream {
    if r.openFailure.Some? then Failing(r.openFailure.value)
    else if l.openFailure.Some? then Failing(l.openFailure.value)
    else if KeyFailure(lk, l.rows).Some? then Failing(KeyFailure(lk, l.rows).value)
    else if l.end.Failed? then PairStream([], l.end)
    else ProbeStream(Build(lk, l.rows), rk, r.rows, r.end)
  }

  lemma {:induction false} KeyFailureIff(k: KeyFn, rows: seq<Cells>)
    ensures KeyFailure(k, rows).Some? <==> exists i :: 0 <= i < |rows| && k(rows[i]).Err?
  {
    if rows != [] {
      KeyFailureIff(k, rows[1..]);
      if i :| 0 <= i < |rows| && k(rows[i]).Err? {
        assert i == 0 || rows[i] == rows[1..][i - 1];
      }
      if i :| 0 <= i < |rows[1..]| && k(rows[1..][i]).Err? {
        assert rows[i + 1] == rows[1..][i];
      }
    }
  }

  lemma {:induction false} ProbeStreamEnd(m: seq<Entry>, rk: KeyFn, rs: seq<Cells>, end: End)
    ensures ProbeStream(m, rk, rs, end).end ==
              if KeyFailure(rk, rs).Some? then Failed(KeyFailure(rk, rs).value) else end
    ensures KeyFailure(rk, rs).None? ==> ProbeStream(m, rk, rs, end).pairs == Probe(m, rk, rs)
  {
    if rs != [] { ProbeStreamEnd(m, rk, rs[1..], end); }
  }

  /** Up to the first right row whose key fails, the probe is delivered; then the failure. */
  lemma {:induction false} ProbeUpToFailure(m: seq<Entry>, rk: KeyFn, rs: seq<Cells>, end: End, n: nat)
    requires n < |rs| && rk(rs[n]).Err? && forall i | 0 <= i < n :: rk(rs[i]).Ok?
    ensures ProbeStream(m, rk, rs, end) == PairStream(Probe(m, rk, rs[..n]), Failed(rk(rs[n]).rc))
  {
    if n > 0 {
      assert rs[..n][0] == rs[0] && rs[..n][1..] == rs[1..][..n - 1];
      ProbeUpToFailure(m, rk, rs[1..], end, n - 1);
    }
  }

  /** The equi-join fails exactly when a child fails to open or to reach its end, or a key fails. */
  lemma EquiFailsIff(l: Source, r: Source, lk: KeyFn, rk: KeyFn)
    ensures EquiStream(l, r, lk, rk).end.Failed? <==>
              || l.openFailure.Some? || r.openFailure.Some? || l.end.Failed? || r.end.Failed?
              || (exists i :: 0 <= i < |l.rows| && lk(l.rows[i]).Err?)
              || (exists i :: 0 <= i < |r.rows| && rk(r.rows[i]).Err?)
    ensures !EquiStream(l, r, lk, rk).end.Failed? ==>
              EquiStream(l, r, lk, rk).pairs == Probe(Build(lk, l.rows), rk, r.rows)
    ensures r.openFailure.Some? ==> EquiStream(l, r, lk, rk) == Failing(r.openFailure.value)
    ensures r.openFailure.None? && l.openFailure.Some? ==> EquiStream(l, r, lk, rk) == Failing(l.openFailure.value)
  {
    KeyFailureIff(lk, l.rows);
    KeyFailureIff(rk, r.rows);
    ProbeStreamEnd(Build(lk, l.rows), rk, r.rows, r.end);
  }

  /** A condition written with its sides the other way round: the left key is found all the same, in
      the first cached cell, and the right key nowhere. The join fails on the first right row. */
  lemma SidesSwapped(l: Source, r: Source, left: Shape, right: Shape, a: Spec, b: Spec)
    requires NoFailures(l) && NoFailures(r) && Shaped(left, l.rows)
    requires NoAliases(Schema(left)) && Width(left) > 0 && a.alias == "" && Locate(right, b).None?
    ensures EquiStream(l, r, CachedKey(left, a), DirectKey(right, b))
            == if r.rows == [] then PairStream([], RecordEof) else Failing(NotFound)
  {
    var lk := CachedKey(left, a);
    KeyFailureIff(lk, l.rows);
    forall i | 0 <= i < |l.rows| ensures lk(l.rows[i]).Ok? { CachedKeyMeans(left, a.table, a.field, l.rows[i]); }
  }

  /** The cached rows of a range with one right row. */
  function RangePairs(m: seq<Entry>, i: nat, j: nat, r: Cells): seq<Pair>
    requires i <= j <= |m|
  {
    PairRight(RowsOf(m[i..j]), r)
  }

  lemma ProbeStep(m: seq<Entry>, rk: KeyFn, rs: seq<Cells>, end: End)
    requires Sorted(m) && rs != [] && rk(rs[0]).Ok?
    ensures var k := rk(rs[0]).value;
            var lo, hi := LowerBound(m, k), UpperBound(m, k);
            var rest := ProbeStream(m, rk, rs[1..], end);
            && lo <= hi
            && ProbeStream(m, rk, rs, end) == Prepend(RangePairs(m, lo, hi, rs[0]), rest)
            && (lo == hi ==> ProbeStream(m, rk, rs, end) == rest)
  {
    EqualRange(m, rk(rs[0]).value);
  }

  lemma RangeStep(m: seq<Entry>, i: nat, j: nat, r: Cells, later: PairStream)
    requires i < j <= |m|
    ensures Prepend(RangePairs(m, i, j, r), later)
            == Prepend([(m[i].row, r)], Prepend(RangePairs(m, i + 1, j, r), later))
  {
    assert RowsOf(m[i..j]) == [m[i].row] + RowsOf(m[i + 1..j]);
    assert RangePairs(m, i, j, r) == [(m[i].row, r)] + RangePairs(m, i + 1, j, r);
  }

  lemma EmptyRange(m: seq<Entry>, i: nat, r: Cells, later: PairStream)
    requires i <= |m|
    ensures Prepend(RangePairs(m, i, i, r), later) == later == Prepend([], later)
  {
  }

  predicate NoNullKeys(k: KeyFn, rows: seq<Cells>) {
    forall i | 0 <= i < |rows| :: k(rows[i]) != Ok(Null)
  }

  class RbTreeEqJoin {
    const left: RowSource
    const right: RowSource
    const leftShape: Shape
    const rightShape: Shape
    const leftColumn: Spec
    const rightColumn: Spec
    var table: seq<Entry>
    var first: nat
    var second: nat
    var current: Pair

    function LeftKey(): KeyFn {
      CachedKey(leftShape, leftColumn)
    }

    function RightKey(): KeyFn {
      DirectKey(rightShape, rightColumn)
    }

    ghost predicate Valid()
      reads this, left, right
    {
      left != right && right.Valid() && right.isOpen && Sorted(table) && first <= second <= |table|
    }

    ghost function Later(): PairStream
      requires Valid()
      reads this, left, right
    {
      ProbeStream(table, RightKey(), right.src.rows[right.pos..], right.src.end)
    }

    /** What is still to come: the rest of the current range, then the later right rows. */
    ghost function Remaining(): PairStream
      requires Valid()
      reads this, left, right
    {
      Prepend(if first == second then [] else RangePairs(table, first + 1, second, right.current), Later())
    }

    constructor (left: RowSource, leftShape: Shape, leftColumn: Spec,
                 right: RowSource, rightShape: Shape, rightColumn: Spec)
      ensures this.left == left && this.right == right && table == []
      ensures this.leftShape == leftShape && this.leftColumn == leftColumn
      ensures this.rightShape == rightShape && this.rightColumn == rightColumn
    {
      this.left, this.leftShape, this.leftColumn := left, leftShape, leftColumn;
      this.right, this.rightShape, this.rightColumn := right, rightShape, rightColumn;
      table, first, second, current := [], 0, 0, ([], []);
    }

    /** `open`: caches the whole left side under its keys, or fails. */
    method Open() returns (rc: Pull)
      requires left != right && table == []
      modifies this, left, right
      ensures !rc.RecordEof?
      ensures rc.Failed? ==> EquiStream(left.src, right.src, LeftKey(), RightKey()) == Failing(rc.rc)
      ensures rc.Success? ==> table == Build(LeftKey(), left.src.rows)
      ensures rc.Success? && NoNullKeys(LeftKey(), left.src.rows) ==>
                Valid() && Remaining() == EquiStream(left.src, right.src, LeftKey(), RightKey())
    {
      first, second := 0, 0;
      rc := right.Open();
      if !rc.Success? { return; }
      rc := GenerateTable();
      if rc.Success? && NoNullKeys(LeftKey(), left.src.rows) {
        KeyFailureIff(LeftKey(), left.src.rows);
        BuildIsSorted(LeftKey(), left.src.rows);
        assert right.src.rows[0..] == right.src.rows;
      }
    }

    /** `generate_hash_table`: copies each left tuple and reads its key from the copy. */
    method GenerateTable() returns (rc: Pull)
      requires left != right && table == []
      modifies this`table, left
      ensures var keys := KeyFailure(LeftKey(), left.src.rows);
              rc == if left.src.openFailure.Some? then Failed(left.src.openFailure.value)
                    else if keys.Some? then Failed(keys.value)
                    else if left.src.end.Failed? then left.src.end
                    else Success
      ensures rc.Success? ==> table == Build(LeftKey(), left.src.rows)
    {
      hide Find, Build, Insert;
      rc := left.Open();
      if !rc.Success? { return; }
      BuildNothing(LeftKey());
      while true
        invariant left.Valid() && left.isOpen
        invariant KeyFailure(LeftKey(), left.src.rows) == KeyFailure(LeftKey(), left.src.rows[left.pos..])
        invariant table == Build(LeftKey(), left.src.rows[..left.pos])
        decreases |left.src.rows| - left.pos
      {
        ghost var k := left.pos;
        ghost var rest := left.src.rows[k..];
        rc := left.Next();
        if !rc.Success? { break; }
        assert rest[0] == left.current && rest[1..] == left.src.rows[left.pos..];
        var cache;
        rc, cache := CloneTuple(left.current, Schema(leftShape));
        if !rc.Success? { return; }
        var value := CacheFindCell(cache, Schema(leftShape), leftColumn);
        if value.Err? { return Failed(value.rc); }
        BuildStep(LeftKey(), left.src.rows[..k], left.current);
        assert left.src.rows[..k + 1] == left.src.rows[..k] + [left.current];
        table := Insert(table, Entry(value.value, cache));
      }
      assert left.src.rows[..left.pos] == left.src.rows;
      if rc.RecordEof? { rc := Success; }
    }

    /** `fetch_next_tuple_in_range`. */
    method FetchInRange() returns (rc: Pull)
      requires Valid()
      modifies this`first, this`current
      ensures Valid() && !rc.Failed?
      ensures rc.Success? ==> old(Remaining()) == Prepend([current], Remaining())
      ensures rc.RecordEof? ==> first == second && Remaining() == old(Remaining())
    {
      hide ProbeStream, Sorted;
      if first == second { return RecordEof; }
      first := first + 1;
      if first == second {
        EmptyRange(table, first, right.current, Later());
        return RecordEof;
      }
      current := (table[first].row, right.current);
      RangeStep(table, first, second, right.current, Later());
      rc := Success;
    }

    /** The loop of `fetch_next_tuple_in_table`: skips right rows whose key finds nothing. */
    method SeekRange() returns (rc: Pull)
      requires Valid() && first == second
      modifies this`first, this`second, right`pos, right`current
      ensures rc.Success? ==> Valid() && first < second
      ensures rc.Success? ==> old(Remaining()) == Prepend(RangePairs(table, first, second, right.current), Later())
      ensures !rc.Success? ==> old(Remaining()) == PairStream([], rc)
    {
      hide Find, Sorted, LowerBound, UpperBound;
      ghost var all := Remaining();
      EmptyRange(table, first, right.current, Later());
      while true
        invariant Valid() && first == second && all == Later()
        decreases |right.src.rows| - right.pos
      {
        ghost var rest := right.src.rows[right.pos..];
        rc := right.Next();
        if !rc.Success? { return; }
        assert rest[0] == right.current && rest[1..] == right.src.rows[right.pos..];
        var value := Find(rightShape, right.current, rightColumn);
        if value.Err? { return Failed(value.rc); }
        ProbeStep(table, RightKey(), rest, right.src.end);
        first, second := LowerBound(table, value.value), UpperBound(table, value.value);
        if first != second { return Success; }
      }
    }

    /** `fetch_next_tuple_in_table`. */
    method FetchInTable() returns (rc: Pull)
      requires Valid() && first == second
      modifies this`first, this`second, this`current, right`pos, right`current
      ensures rc.Success? ==> Valid() && old(Remaining()) == Prepend([current], Remaining())
      ensures !rc.Success? ==> old(Remaining()) == PairStream([], rc)
    {
      hide ProbeStream, Sorted;
      rc := SeekRange();
      if !rc.Success? { return; }
      current := (table[first].row, right.current);
      RangeStep(table, first, second, right.current, Later());
    }

    /** `next`. */
    method Next() returns (rc: Pull)
      requires Valid()
      modifies this`first, this`second, this`current, right`pos, right`current
      ensures rc.Success? ==> Valid() && old(Remaining()) == Prepend([current], Remaining())
      ensures !rc.Success? ==> old(Remaining()) == PairStream([], rc)
    {
      hide ProbeStream, Sorted, RangePairs;
      rc := FetchInRange();
      if rc.Success? { return; }
      rc := FetchInTable();
    }
  }

  lemma BuildNothing(k: KeyFn)
    ensures Build(k, []) == []
  {
  }

  lemma Regroup(a: seq<Pair>, p: Pair, s: PairStream)
    ensures Prepend(a, Prepend([p], s)) == Prepend(a + [p], s)
  {
  }

  lemma PrependMeans(a: seq<Pair>, s: PairStream)
    ensures |Prepend(a, s).pairs| == |a| + |s.pairs| && Prepend([], s) == s
  {
  }

  lemma Last(a: seq<Pair>, end: End)
    ensures Prepend(a, PairStream([], end)) == PairStream(a, end)
  {
  }

  /** Drains the equi-join. */
  method RunEquiJoin(l: Source, leftShape: Shape, a: Spec, r: Source, rightShape: Shape, b: Spec)
    returns (pairs: seq<Pair>, end: End)
    requires NoNullKeys(CachedKey(leftShape, a), l.rows)
    ensures PairStream(pairs, end) == EquiStream(l, r, CachedKey(leftShape, a), DirectKey(rightShape, b))
  {
    hide EquiStream, Build, Sorted, NoNullKeys, RbTreeEqJoin.Remaining, Prepend;
    var left := new RowSource(l);
    var right := new RowSource(r);
    var op := new RbTreeEqJoin(left, leftShape, a, right, rightShape, b);
    pairs := [];
    var rc := op.Open();
    if !rc.Success? { return pairs, rc; }
    ghost var all := op.Remaining();
    PrependMeans([], all);
    while true
      invariant op.Valid() && fresh(op) && fresh(left) && fresh(right)
      invariant Prepend(pairs, op.Remaining()) == all
      decreases |all.pairs| - |pairs|
    {
      ghost var before := op.Remaining();
      rc := op.Next();
      if !rc.Success? {
        Last(pairs, rc);
        return pairs, rc;
      }
      Regroup(pairs, op.current, op.Remaining());
      PrependMeans(pairs + [op.current], op.Remaining());
      pairs := pairs + [op.current];
    }
  }

  // ---------------------------------------------------------------- the filter above the nested loop

  /** Testing the pairs one by one: a failing test ends the stream. */
  function SelectPairs(cond: PairTest, s: PairStream): PairStream
    decreases |s.pairs|
  {
    if s.pairs == [] then s
    else
      var v, rest := cond(s.pairs[0]), SelectPairs(cond, s.(pairs := s.pairs[1..]));
      if v.Err? then Failing(v.rc) else if Holds(v) then Prepend([s.pairs[0]], rest) else rest
  }

  /** Where the condition evaluates on every pair, the filter delivers those on which it holds. */
  lemma {:induction false} SelectPairsIsFiltered(cond: PairTest, s: PairStream)
    requires forall i | 0 <= i < |s.pairs| :: cond(s.pairs[i]).Ok?
    ensures SelectPairs(cond, s) == PairStream(Filtered(cond, s.pairs), s.end)
    decreases |s.pairs|
  {
    if s.pairs != [] { SelectPairsIsFiltered(cond, s.(pairs := s.pairs[1..])); }
  }

  /** Up to the first pair on which the condition fails, those on which it holds; then the failure. */
  lemma {:induction false} SelectPairsUpToFailure(cond: PairTest, s: PairStream, n: nat)
    requires n < |s.pairs| && cond(s.pairs[n]).Err? && forall i | 0 <= i < n :: cond(s.pairs[i]).Ok?
    ensures SelectPairs(cond, s) == PairStream(Filtered(cond, s.pairs[..n]), Failed(cond(s.pairs[n]).rc))
    decreases |s.pairs|
  {
    if n > 0 {
      var t := s.(pairs := s.pairs[1..]);
      assert s.pairs[..n][0] == s.pairs[0] && s.pairs[..n][1..] == t.pairs[..n - 1];
      SelectPairsUpToFailure(cond, t, n - 1);
    }
  }

  lemma SelectStep(cond: PairTest, p: Pair, s: PairStream)
    ensures var v := cond(p);
            SelectPairs(cond, Prepend([p], s)) ==
              if v.Err? then Failing(v.rc) else if Holds(v) then Prepend([p], SelectPairs(cond, s))
              else SelectPairs(cond, s)
  {
    var t := Prepend([p], s);
    assert t.pairs[0] == p && t.pairs[1..] == s.pairs;
  }

  lemma SelectEnd(cond: PairTest, end: End)
    ensures SelectPairs(cond, PairStream([], end)) == PairStream([], end)
  {
  }

  /** Drains the nested loop, through a predicate operator above it if there is one. */
  method RunNestedLoop(filter: Option<PairTest>, l: Source, r: Source) returns (pairs: seq<Pair>, end: End)
    ensures filter.None? ==> PairStream(pairs, end) == LoopStream(l, r)
    ensures filter.Some? ==> PairStream(pairs, end) == SelectPairs(filter.value, LoopStream(l, r))
  {
    hide LoopStream, SelectPairs, NestedLoopJoin.Remaining, Prepend;
    var left := new RowSource(l);
    var right := new RowSource(r);
    var op := new NestedLoopJoin(left, right);
    pairs := [];
    var rc := op.Open();
    ghost var all := Under(filter, LoopStream(l, r));
    if !rc.Success? {
      UnderEnd(filter, rc);
      return pairs, rc;
    }
    PrependMeans([], all);
    while true
      invariant op.Valid() && fresh(op) && fresh(left) && fresh(right)
      invariant Prepend(pairs, Under(filter, op.Remaining())) == all
      decreases |op.Remaining().pairs|
    {
      ghost var before := op.Remaining();
      rc := op.Next();
      if !rc.Success? {
        UnderEnd(filter, rc);
        Last(pairs, rc);
        return pairs, rc;
      }
      UnderStep(filter, op.joined, op.Remaining());
      PrependMeans([op.joined], op.Remaining());
      if filter.Some? {
        var value := filter.value(op.joined);
        if value.Err? {
          Last(pairs, Failed(value.rc));
          return pairs, Failed(value.rc);
        }
        if value.value.Null? || !GetBoolean(value.value) { continue; }
      }
      Regroup(pairs, op.joined, Under(filter, op.Remaining()));
      pairs := pairs + [op.joined];
    }
  }

  /** A stream under a filter, if there is one. */
  ghost function Under(filter: Option<PairTest>, s: PairStream): PairStream {
    if filter.None? then s else SelectPairs(filter.value, s)
  }

  lemma UnderEnd(filter: Option<PairTest>, end: End)
    ensures Under(filter, PairStream([], end)) == PairStream([], end)
  {
    if filter.Some? { SelectEnd(filter.value, end); }
  }

  lemma UnderStep(filter: Option<PairTest>, p: Pair, s: PairStream)
    ensures var v := if filter.None? then Ok(Boolean(true)) else filter.value(p);
            Under(filter, Prepend([p], s)) ==
              if v.Err? then Failing(v.rc) else if Holds(v) then Prepend([p], Under(filter, s)) else Under(filter, s)
  {
    if filter.Some? { SelectStep(filter.value, p, s); }
  }

  // ---------------------------------------------------------------- the choice

  /** What the planner tells apart: an equality of two columns, or anything else. */
  datatype Condition = Unconditional | Equality(a: Spec, b: Spec) | AnyOther(get: PairTest)

  /** `create_plan(JoinLogicalOperator)` and a run of what it creates: the bare nested loop without a
      condition, the nested loop under a filter for a condition other than an equality of columns, and
      the equi-join for an equality. The equi-join delivers the pairs of the filtered nested loop when its
      left column is the first and no key is NULL. */
  method RunJoin(cond: Condition, l: Source, left: Shape, r: Source, right: Shape)
    returns (pairs: seq<Pair>, end: End)
    requires cond.Equality? ==> NoNullKeys(CachedKey(left, cond.a), l.rows)
    ensures cond.Unconditional? ==> PairStream(pairs, end) == LoopStream(l, r)
    ensures cond.Unconditional? && NoFailures(l) && NoFailures(r) ==> pairs == Product(l.rows, r.rows) && end.RecordEof?
    ensures cond.AnyOther? ==> PairStream(pairs, end) == SelectPairs(cond.get, LoopStream(l, r))
    ensures cond.Equality? ==>
              PairStream(pairs, end) == EquiStream(l, r, CachedKey(left, cond.a), DirectKey(right, cond.b))
    ensures cond.Equality? && Agreeable(cond.a, cond.b, l, left, r, right) ==>
              && end.RecordEof?
              && multiset(pairs)
                 == multiset(Filtered(ColumnsEqual(left, right, cond.a, cond.b), Product(l.rows, r.rows)))
  {
    match cond
    case Equality(a, b) =>
      pairs, end := RunEquiJoin(l, left, a, r, right, b);
      if Agreeable(a, b, l, left, r, right) { EquiJoinAgrees(a, b, l, left, r, right); }
    case Unconditional =>
      if NoFailures(l) && NoFailures(r) { LoopIsProduct(l, r); }
      pairs, end := RunNestedLoop(None, l, r);
    case AnyOther(get) =>
      pairs, end := RunNestedLoop(Some(get), l, r);
  }

  /** The first left column against a column of the right side, on children that do not fail and keys
      that are not NULL. */
  ghost predicate Agreeable(a: Spec, b: Spec, l: Source, left: Shape, r: Source, right: Shape) {
    && NoFailures(l) && NoFailures(r) && Shaped(left, l.rows) && Shaped(right, r.rows)
    && NoAliases(Schema(left)) && OwnSides(left, right, a, b) && a.alias == "" && Locate(left, a) == Some(0)
    && NoNullKeys(CachedKey(left, a), l.rows) && NoNullKeys(DirectKey(right, b), r.rows)
  }

  /** For example, t1(x, y) and t2(z) on t1.x = t2.z, whatever the numbers stored. */
  lemma FirstColumnExample(ls: seq<Cells>, rs: seq<Cells>)
    requires forall i | 0 <= i < |ls| :: |ls[i]| == 2 && !ls[i][0].Null?
    requires forall i | 0 <= i < |rs| :: |rs[i]| == 1 && !rs[i][0].Null?
    ensures Agreeable(Column("t1", "x"), Column("t2", "z"),
                      Source(None, ls, RecordEof, None), RowShape("t1", ["x", "y"]),
                      Source(None, rs, RecordEof, None), RowShape("t2", ["z"]))
  {
    var left, right := RowShape("t1", ["x", "y"]), RowShape("t2", ["z"]);
    FirstFieldIs(["x", "y"], "x", 0);
    FirstFieldIs(["z"], "z", 0);
    UncachedHasNoAliases(left);
    forall i | 0 <= i < |ls| ensures CachedKey(left, Column("t1", "x"))(ls[i]) != Ok(Null) {
      CachedKeyMeans(left, "t1", "x", ls[i]);
    }
    forall i | 0 <= i < |rs| ensures DirectKey(right, Column("t2", "z"))(rs[i]) != Ok(Null) { }
  }

  lemma EquiJoinAgrees(a: Spec, b: Spec, l: Source, left: Shape, r: Source, right: Shape)
    requires Agreeable(a, b, l, left, r, right)
    ensures var e := EquiStream(l, r, CachedKey(left, a), DirectKey(right, b));
            var pairs := Filtered(ColumnsEqual(left, right, a, b), Product(l.rows, r.rows));
            && e.end.RecordEof? && multiset(e.pairs) == multiset(pairs)
            && SelectPairs(ColumnsEqual(left, right, a, b), LoopStream(l, r)) == PairStream(pairs, RecordEof)
  {
    var lk, rk, cond := CachedKey(left, a), DirectKey(right, b), ColumnsEqual(left, right, a, b);
    forall i | 0 <= i < |l.rows| ensures lk(l.rows[i]).Ok? { CachedKeyMeans(left, a.table, a.field, l.rows[i]); }
    forall i | 0 <= i < |r.rows| ensures rk(r.rows[i]).Ok? { }
    EquiFailsIff(l, r, lk, rk);
    LoopIsProduct(l, r);
    ProductShaped(l.rows, r.rows);
    var ps := Product(l.rows, r.rows);
    forall i | 0 <= i < |ps| ensures cond(ps[i]).Ok? {
      ColumnsEqualMeans(left, right, a, b, ps[i].0, ps[i].1);
    }
    SelectPairsIsFiltered(cond, PairStream(ps, RecordEof));
    FirstColumnJoinsAgreeIff(left, right, a, b, l.rows, r.rows);
  }

  lemma {:induction false} ProductShaped(ls: seq<Cells>, rs: seq<Cells>)
    ensures forall i | 0 <= i < |Product(ls, rs)| :: Product(ls, rs)[i].0 in ls && Product(ls, rs)[i].1 in rs
  {
    if ls != [] { ProductShaped(ls[1..], rs); }
  }
}
