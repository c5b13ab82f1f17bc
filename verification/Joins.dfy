/** What the two join operators enumerate, and when they agree (join_physical_operator.cpp,
    hash_join_physical_operator.cpp, value.h, physical_plan_generator.cpp). */
module Joins {
  import opened Wrappers
  import opened Expressions
  import opened Tuples

  type Pair = (Cells, Cells)

  /** How the key of a tuple is read; it may fail. */
  type KeyFn = Cells -> Outcome

  /** A condition on a joined tuple; its evaluation may fail. */
  type PairTest = Pair -> Outcome

  // ---------------------------------------------------------------- nested loop

  /** One left row with every right row, in right order. */
  function PairWith(l: Cells, rs: seq<Cells>): (ps: seq<Pair>)
    ensures |ps| == |rs|
  {
    seq(|rs|, i requires 0 <= i < |rs| => (l, rs[i]))
  }

  /** Left-major order: the right side is run once per left row. */
  function Product(ls: seq<Cells>, rs: seq<Cells>): seq<Pair> {
    if ls == [] then [] else PairWith(ls[0], rs) + Product(ls[1..], rs)
  }

  /** Every pair of a left and a right row, once, at its place. */
  lemma {:induction false} ProductAt(ls: seq<Cells>, rs: seq<Cells>, i: nat, j: nat)
    requires i < |ls| && j < |rs|
    ensures |Product(ls, rs)| == |ls| * |rs| && i * |rs| + j < |ls| * |rs|
    ensures Product(ls, rs)[i * |rs| + j] == (ls[i], rs[j])
  {
    ProductSize(ls, rs);
    ProductSize(ls[1..], rs);
    if i > 0 {
      ProductAt(ls[1..], rs, i - 1, j);
      assert i * |rs| + j == |rs| + ((i - 1) * |rs| + j);
    } else if |ls| > 1 {
      assert |rs| <= |ls| * |rs|;
    }
  }

  lemma {:induction false} ProductSize(ls: seq<Cells>, rs: seq<Cells>)
    ensures |Product(ls, rs)| == |ls| * |rs|
  {
    if ls != [] {
      ProductSize(ls[1..], rs);
      assert |ls| * |rs| == |rs| + (|ls| - 1) * |rs|;
    }
  }

  predicate Holds(v: Outcome) {
    v.Ok? && !v.value.Null? && GetBoolean(v.value)
  }

  /** The pairs a condition accepts, in order. */
  function Filtered(cond: PairTest, ps: seq<Pair>): seq<Pair> {
    if ps == [] then [] else (if Holds(cond(ps[0])) then [ps[0]] else []) + Filtered(cond, ps[1..])
  }

  // ---------------------------------------------------------------- ordered multimap

  datatype Entry = Entry(key: Value, row: Cells)

  /** `std::less<Value>`: a NULL on either side is "not less", so NULL is equivalent to everything. */
  predicate Less(a: Value, b: Value) {
    !a.Null? && !b.Null? && Number(a) < Number(b)
  }

  /** `multimap::insert`: behind the entries that are not greater. */
  function Insert(m: seq<Entry>, e: Entry): (r: seq<Entry>)
    ensures |r| == |m| + 1
    ensures r[0] == e || (m != [] && r[0] == m[0])
  {
    if m == [] || Less(e.key, m[0].key) then [e] + m else [m[0]] + Insert(m[1..], e)
  }

  /** The ends of `multimap::equal_range`: the first entry not less than the key, and the first
      entry greater than it. */
  function LowerBound(m: seq<Entry>, k: Value): (i: nat)
    ensures i <= |m|
  {
    if m == [] || !Less(m[0].key, k) then 0 else 1 + LowerBound(m[1..], k)
  }

  function UpperBound(m: seq<Entry>, k: Value): (i: nat)
    ensures i <= |m|
  {
    if m == [] || Less(k, m[0].key) then 0 else 1 + UpperBound(m[1..], k)
  }

  /** The cached left side: every left row under its key. */
  function Build(e: KeyFn, ls: seq<Cells>): seq<Entry> {
    if ls == [] then [] else
    var last := ls[|ls| - 1];
    Insert(Build(e, ls[..|ls| - 1]), Entry(Key(e, last), last))
  }

  function Key(e: KeyFn, row: Cells): Value {
    var v := e(row);
    if v.Ok? then v.value else Null
  }

  function RowsOf(m: seq<Entry>): seq<Cells> {
    seq(|m|, i requires 0 <= i < |m| => m[i].row)
  }

  predicate Sorted(m: seq<Entry>) {
    m == [] ||
    (!m[0].key.Null? && Sorted(m[1..]) && (|m| > 1 ==> Number(m[0].key) <= Number(m[1].key)))
  }

  predicate SameKey(a: Value, b: Value) {
    !a.Null? && !b.Null? && Number(a) == Number(b)
  }

  function WithKey(m: seq<Entry>, k: Value): seq<Entry> {
    if m == [] then [] else (if SameKey(m[0].key, k) then [m[0]] else []) + WithKey(m[1..], k)
  }

  lemma {:induction false} InsertSorted(m: seq<Entry>, e: Entry)
    requires Sorted(m) && !e.key.Null?
    ensures Sorted(Insert(m, e))
  {
    if m == [] || Less(e.key, m[0].key) {
      assert ([e] + m)[1..] == m;
    } else {
      InsertSorted(m[1..], e);
      assert ([m[0]] + Insert(m[1..], e))[1..] == Insert(m[1..], e);
    }
  }

  /** A new entry comes last among the entries with its key. */
  lemma {:induction false} InsertWithKey(m: seq<Entry>, e: Entry, k: Value)
    requires Sorted(m) && !e.key.Null?
    ensures WithKey(Insert(m, e), k) == WithKey(m, k) + (if SameKey(e.key, k) then [e] else [])
  {
    if m == [] || Less(e.key, m[0].key) {
      assert ([e] + m)[1..] == m;
      if SameKey(e.key, k) { NoneBelow(m, k); }
    } else {
      InsertWithKey(m[1..], e, k);
      assert ([m[0]] + Insert(m[1..], e))[1..] == Insert(m[1..], e);
    }
  }

  lemma {:induction false} NoneBelow(m: seq<Entry>, k: Value)
    requires Sorted(m) && !k.Null? && (m != [] ==> Number(k) < Number(m[0].key))
    ensures WithKey(m, k) == []
  {
    if m != [] { NoneBelow(m[1..], k); }
  }

  lemma BoundsStep(m: seq<Entry>, k: Value)
    requires m != []
    ensures LowerBound(m, k) == if Less(m[0].key, k) then 1 + LowerBound(m[1..], k) else 0
    ensures UpperBound(m, k) == if Less(k, m[0].key) then 0 else 1 + UpperBound(m[1..], k)
    ensures WithKey(m, k) == (if SameKey(m[0].key, k) then [m[0]] else []) + WithKey(m[1..], k)
  {
  }

  /** Behind an entry that is not less than the key, nothing is. */
  lemma LowerIsZero(m: seq<Entry>, k: Value)
    requires Sorted(m) && m != [] && !Less(m[0].key, k)
    ensures LowerBound(m[1..], k) == 0
  {
  }

  /** On a sorted table the equal range of a key is exactly the entries with that key; the equal
      range of NULL is the whole table. */
  lemma {:induction false} EqualRange(m: seq<Entry>, k: Value)
    requires Sorted(m)
    ensures var lo, hi := LowerBound(m, k), UpperBound(m, k);
            lo <= hi && m[lo..hi] == if k.Null? then m else WithKey(m, k)
  {
    if m != [] {
      BoundsStep(m, k);
      EqualRange(m[1..], k);
      assert Sorted(m[1..]);
      if Less(k, m[0].key) {
        NoneBelow(m, k);
      } else {
        if !Less(m[0].key, k) { LowerIsZero(m, k); }
        hide LowerBound, UpperBound, WithKey, Sorted;
        ShiftRange(m, LowerBound(m[1..], k), UpperBound(m[1..], k));
      }
    }
  }

  lemma ShiftRange(m: seq<Entry>, lo: nat, hi: nat)
    requires m != [] && lo <= hi < |m|
    ensures m[1 + lo..1 + hi] == m[1..][lo..hi]
    ensures m[0..1 + hi] == [m[0]] + m[1..][0..hi]
    ensures m == [m[0]] + m[1..]
  {
  }

  lemma {:induction false} BuildIsSorted(e: KeyFn, ls: seq<Cells>)
    requires NonNullKeys(e, ls)
    ensures Sorted(Build(e, ls)) && |Build(e, ls)| == |ls|
  {
    if ls != [] {
      var init, last := ls[..|ls| - 1], ls[|ls| - 1];
      BuildIsSorted(e, init);
      InsertSorted(Build(e, init), Entry(Key(e, last), last));
    }
  }

  lemma BuildStep(e: KeyFn, ls: seq<Cells>, last: Cells)
    ensures Build(e, ls + [last]) == Insert(Build(e, ls), Entry(Key(e, last), last))
  {
    assert (ls + [last])[..|ls|] == ls;
  }

  lemma RowsOfAppend(m: seq<Entry>, x: Entry)
    ensures RowsOf(m + [x]) == RowsOf(m) + [x.row]
  {
  }

  /** The cached entries under a key are the left rows with that key, in left order. */
  lemma {:induction false} BuildWithKey(e: KeyFn, ls: seq<Cells>, k: Value)
    requires NonNullKeys(e, ls)
    ensures RowsOf(WithKey(Build(e, ls), k)) == Matching(e, ls, k)
  {
    if ls != [] {
      hide Build, WithKey, Matching, RowsOf, Insert, SameKey, Key, Sorted;
      var init, last := ls[..|ls| - 1], ls[|ls| - 1];
      assert ls == init + [last];
      BuildIsSorted(e, init);
      BuildWithKey(e, init, k);
      var m, x := Build(e, init), Entry(Key(e, last), last);
      BuildStep(e, init, last);
      InsertWithKey(m, x, k);
      MatchingConcat(e, init, last, k);
      RowsOfAppend(WithKey(m, k), x);
      assert WithKey(m, k) + [] == WithKey(m, k) && Matching(e, init, k) + [] == Matching(e, init, k);
    }
  }

  ghost predicate NonNullKeys(e: KeyFn, ls: seq<Cells>) {
    forall i | 0 <= i < |ls| :: !Key(e, ls[i]).Null?
  }

  /** The left rows whose key equals a non-NULL key, in left order. */
  function Matching(e: KeyFn, ls: seq<Cells>, k: Value): seq<Cells> {
    if ls == [] then [] else (if SameKey(Key(e, ls[0]), k) then [ls[0]] else []) + Matching(e, ls[1..], k)
  }

  lemma MatchingStep(e: KeyFn, l: Cells, ls: seq<Cells>, k: Value)
    ensures Matching(e, [l] + ls, k) == (if SameKey(Key(e, l), k) then [l] else []) + Matching(e, ls, k)
  {
    assert ([l] + ls)[1..] == ls;
  }

  lemma {:induction false} MatchingConcat(e: KeyFn, ls: seq<Cells>, l: Cells, k: Value)
    ensures Matching(e, ls + [l], k) == Matching(e, ls, k) + (if SameKey(Key(e, l), k) then [l] else [])
  {
    if ls == [] {
      assert ls + [l] == [l] + ls;
      MatchingStep(e, l, ls, k);
    } else {
      hide Matching, Key, SameKey;
      assert ls + [l] == [ls[0]] + (ls[1..] + [l]) && ls == [ls[0]] + ls[1..];
      MatchingStep(e, ls[0], ls[1..] + [l], k);
      MatchingStep(e, ls[0], ls[1..], k);
      MatchingConcat(e, ls[1..], l, k);
    }
  }

  // ---------------------------------------------------------------- the two enumerations

  /** Several left rows with one right row. */
  function PairRight(ls: seq<Cells>, r: Cells): (ps: seq<Pair>)
    ensures |ps| == |ls|
  {
    seq(|ls|, i requires 0 <= i < |ls| => (ls[i], r))
  }

  /** The rows a probe with a key finds. */
  function RangeRows(m: seq<Entry>, k: Value): seq<Cells> {
    var lo, hi := LowerBound(m, k), UpperBound(m, k);
    if lo <= hi then RowsOf(m[lo..hi]) else []
  }

  /** Right-major order: each right row with the equal range of its key. */
  function Probe(m: seq<Entry>, re: KeyFn, rs: seq<Cells>): seq<Pair> {
    if rs == [] then [] else PairRight(RangeRows(m, Key(re, rs[0])), rs[0]) + Probe(m, re, rs[1..])
  }

  /** What a probe with a NULL key adds: every cached row. */
  function NullPairs(m: seq<Entry>, re: KeyFn, rs: seq<Cells>): seq<Pair> {
    if rs == [] then []
    else (if Key(re, rs[0]).Null? then PairRight(RowsOf(m), rs[0]) else []) + NullPairs(m, re, rs[1..])
  }

  /** On these left rows and this right row the condition holds exactly if the keys are equal. */
  ghost predicate TestsKeys(cond: PairTest, lk: KeyFn, rk: KeyFn, ls: seq<Cells>, r: Cells) {
    forall i | 0 <= i < |ls| :: Holds(cond((ls[i], r))) <==> SameKey(Key(lk, ls[i]), Key(rk, r))
  }

  ghost predicate TestsAllKeys(cond: PairTest, lk: KeyFn, rk: KeyFn, ls: seq<Cells>, rs: seq<Cells>) {
    forall j | 0 <= j < |rs| :: TestsKeys(cond, lk, rk, ls, rs[j])
  }

  lemma FilteredStep(cond: PairTest, p: Pair, ps: seq<Pair>)
    ensures Filtered(cond, [p] + ps) == (if Holds(cond(p)) then [p] else []) + Filtered(cond, ps)
  {
    assert ([p] + ps)[1..] == ps;
  }

  lemma {:induction false} FilteredConcat(cond: PairTest, x: seq<Pair>, y: seq<Pair>)
    ensures Filtered(cond, x + y) == Filtered(cond, x) + Filtered(cond, y)
  {
    if x == [] {
      assert x + y == y;
    } else {
      hide Filtered, Holds;
      assert x + y == [x[0]] + (x[1..] + y) && x == [x[0]] + x[1..];
      FilteredStep(cond, x[0], x[1..] + y);
      FilteredStep(cond, x[0], x[1..]);
      FilteredConcat(cond, x[1..], y);
    }
  }

  lemma FilteredPairWith(cond: PairTest, l: Cells, rs: seq<Cells>)
    requires rs != []
    ensures Filtered(cond, PairWith(l, rs))
            == (if Holds(cond((l, rs[0]))) then [(l, rs[0])] else []) + Filtered(cond, PairWith(l, rs[1..]))
  {
    assert PairWith(l, rs)[1..] == PairWith(l, rs[1..]);
  }

  /** Summing the filtered product by its first right row instead of by left rows. */
  lemma {:induction false} PeelRightRow(cond: PairTest, lk: KeyFn, rk: KeyFn, ls: seq<Cells>, rs: seq<Cells>)
    requires rs != [] && TestsKeys(cond, lk, rk, ls, rs[0])
    ensures multiset(Filtered(cond, Product(ls, rs)))
            == multiset(PairRight(Matching(lk, ls, Key(rk, rs[0])), rs[0]))
               + multiset(Filtered(cond, Product(ls, rs[1..])))
  {
    var r, k := rs[0], Key(rk, rs[0]);
    if ls != [] {
      var l, t := ls[0], ls[1..];
      assert TestsKeys(cond, lk, rk, t, r);
      PeelRightRow(cond, lk, rk, t, rs);
      assert Holds(cond((l, r))) <==> SameKey(Key(lk, l), k);
      PeelLeftRow(cond, ls, rs);
      PairRightMatching(lk, ls, k, r);
      var head := if SameKey(Key(lk, l), k) then [(l, r)] else [];
      hide Filtered, Product, Matching, Holds, TestsKeys;
      Cancel(multiset(Filtered(cond, Product(ls, rs))), multiset(Filtered(cond, Product(ls, rs[1..]))),
             multiset(Filtered(cond, Product(t, rs))), multiset(Filtered(cond, Product(t, rs[1..]))),
             multiset(head), multiset(PairRight(Matching(lk, t, k), r)));
    } else {
      assert PairRight([], r) == [];
    }
  }

  lemma PairRightMatching(lk: KeyFn, ls: seq<Cells>, k: Value, r: Cells)
    requires ls != []
    ensures PairRight(Matching(lk, ls, k), r)
            == (if SameKey(Key(lk, ls[0]), k) then [(ls[0], r)] else []) + PairRight(Matching(lk, ls[1..], k), r)
  {
  }

  lemma Cancel<T>(x: multiset<T>, x': multiset<T>, d: multiset<T>, d': multiset<T>, h: multiset<T>, p: multiset<T>)
    requires x + d' == h + x' + d && d == p + d'
    ensures x == h + p + x'
  {
    assert x == (x + d') - d';
  }

  lemma PeelLeftRow(cond: PairTest, ls: seq<Cells>, rs: seq<Cells>)
    requires ls != [] && rs != []
    ensures var l, r, t := ls[0], rs[0], ls[1..];
            var head := if Holds(cond((l, r))) then [(l, r)] else [];
            multiset(Filtered(cond, Product(ls, rs))) + multiset(Filtered(cond, Product(t, rs[1..])))
            == multiset(head) + multiset(Filtered(cond, Product(ls, rs[1..])))
               + multiset(Filtered(cond, Product(t, rs)))
  {
    var l, t := ls[0], ls[1..];
    FilteredConcat(cond, PairWith(l, rs), Product(t, rs));
    FilteredConcat(cond, PairWith(l, rs[1..]), Product(t, rs[1..]));
    FilteredPairWith(cond, l, rs);
  }

  lemma {:induction false} ProductOfNothing(ls: seq<Cells>)
    ensures Product(ls, []) == []
  {
    if ls != [] { ProductOfNothing(ls[1..]); }
  }

  /** Probing yields the filtered product, as a multiset, and all left rows once more for every right
      row whose key is NULL. */
  lemma {:induction false} ProbeIsFilteredProduct(
      cond: PairTest, lk: KeyFn, rk: KeyFn, ls: seq<Cells>, rs: seq<Cells>)
    requires NonNullKeys(lk, ls) && TestsAllKeys(cond, lk, rk, ls, rs)
    ensures var m := Build(lk, ls);
            multiset(Probe(m, rk, rs))
            == multiset(Filtered(cond, Product(ls, rs))) + multiset(NullPairs(m, rk, rs))
  {
    var m := Build(lk, ls);
    if rs == [] {
      ProductOfNothing(ls);
    } else {
      assert TestsAllKeys(cond, lk, rk, ls, rs[1..]);
      ProbeIsFilteredProduct(cond, lk, rk, ls, rs[1..]);
      PeelRightRow(cond, lk, rk, ls, rs);
      RangeOfKey(lk, ls, Key(rk, rs[0]));
      ProbeFirst(m, rk, rs);
      hide *;
    }
  }

  /** What a key finds in the table: the matching left rows, or all of them for NULL. */
  lemma RangeOfKey(lk: KeyFn, ls: seq<Cells>, k: Value)
    requires NonNullKeys(lk, ls)
    ensures var m := Build(lk, ls); RangeRows(m, k) == if k.Null? then RowsOf(m) else Matching(lk, ls, k)
    ensures k.Null? ==> Matching(lk, ls, k) == []
  {
    BuildIsSorted(lk, ls);
    EqualRange(Build(lk, ls), k);
    BuildWithKey(lk, ls, k);
    if k.Null? { MatchingNull(lk, ls); }
    hide Build, Sorted, WithKey, Matching, LowerBound, UpperBound, NonNullKeys;
  }

  /** The contributions of the first right row. */
  lemma ProbeFirst(m: seq<Entry>, rk: KeyFn, rs: seq<Cells>)
    requires rs != []
    ensures var k := Key(rk, rs[0]);
            && multiset(Probe(m, rk, rs))
                 == multiset(PairRight(RangeRows(m, k), rs[0])) + multiset(Probe(m, rk, rs[1..]))
            && multiset(NullPairs(m, rk, rs))
                 == multiset(if k.Null? then PairRight(RowsOf(m), rs[0]) else []) + multiset(NullPairs(m, rk, rs[1..]))
            && PairRight([], rs[0]) == []
  {
    hide RangeRows, RowsOf, Key;
  }

  lemma {:induction false} MatchingNull(e: KeyFn, ls: seq<Cells>)
    ensures Matching(e, ls, Null) == []
  {
    if ls != [] { MatchingNull(e, ls[1..]); }
  }

  lemma {:induction false} NullPairsEmptyIff(m: seq<Entry>, rk: KeyFn, rs: seq<Cells>)
    ensures NullPairs(m, rk, rs) == [] <==> m == [] || NonNullKeys(rk, rs)
  {
    if rs != [] {
      NullPairsEmptyIff(m, rk, rs[1..]);
      assert NonNullKeys(rk, rs) <==> !Key(rk, rs[0]).Null? && NonNullKeys(rk, rs[1..]) by {
        assert forall i | 0 < i < |rs| :: rs[i] == rs[1..][i - 1];
      }
      var head := if Key(rk, rs[0]).Null? then PairRight(RowsOf(m), rs[0]) else [];
      assert NullPairs(m, rk, rs) == head + NullPairs(m, rk, rs[1..]);
      assert |head| == if Key(rk, rs[0]).Null? then |m| else 0;
    }
  }

  /** Where the condition compares the very keys the equi-join reads, the equi-join and the nested loop
      return the same pairs, as a multiset, exactly when no right key is NULL or the left side is
      empty. */
  lemma JoinsAgreeIff(cond: PairTest, lk: KeyFn, rk: KeyFn, ls: seq<Cells>, rs: seq<Cells>)
    requires NonNullKeys(lk, ls) && TestsAllKeys(cond, lk, rk, ls, rs)
    ensures multiset(Probe(Build(lk, ls), rk, rs)) == multiset(Filtered(cond, Product(ls, rs)))
            <==> ls == [] || NonNullKeys(rk, rs)
  {
    hide Probe, Filtered, Product, Build, NullPairs, Sorted, TestsAllKeys, NonNullKeys;
    var m := Build(lk, ls);
    ProbeIsFilteredProduct(cond, lk, rk, ls, rs);
    BuildIsSorted(lk, ls);
    NullPairsEmptyIff(m, rk, rs);
    var extra := multiset(NullPairs(m, rk, rs));
    assert |extra| == |NullPairs(m, rk, rs)|;
    if NullPairs(m, rk, rs) != [] {
      assert |multiset(Probe(m, rk, rs))| > |multiset(Filtered(cond, Product(ls, rs)))|;
    }
  }

  // ---------------------------------------------------------------- the keys the code reads

  /** The condition `a = b` on the joined tuple of the nested loop. */
  function ColumnsEqual(left: Shape, right: Shape, a: Spec, b: Spec): PairTest {
    (p: Pair) =>
      var x := Find(JoinShape(left, right), p.0 + p.1, a);
      if x.Err? then x else
      var y := Find(JoinShape(left, right), p.0 + p.1, b);
      if y.Err? then y else Compare(EqualTo, x.value, y.value)
  }

  /** The left key of the equi-join is read from the cached copy; a tuple that does not have the cells of
      the schema is not copied. */
  function CachedKey(left: Shape, a: Spec): KeyFn {
    (c: Cells) => if |c| != Width(left) then Err(InvalidArgument) else Find(CacheShape(Schema(left)), c, a)
  }

  /** The right key is read from the tuple of the right child. */
  function DirectKey(right: Shape, b: Spec): KeyFn {
    (c: Cells) => Find(right, c, b)
  }

  /** Left rows and right rows of the given shapes. */
  ghost predicate Shaped(s: Shape, rows: seq<Cells>) {
    forall i | 0 <= i < |rows| :: |rows[i]| == Width(s)
  }

  /** Each column is one of its own side, and of no other. */
  predicate OwnSides(left: Shape, right: Shape, a: Spec, b: Spec) {
    Locate(left, a).Some? && Locate(left, b).None? && Locate(right, b).Some?
  }

  /** What the nested loop compares. */
  lemma ColumnsEqualMeans(left: Shape, right: Shape, a: Spec, b: Spec, l: Cells, r: Cells)
    requires OwnSides(left, right, a, b) && |l| == Width(left) && |r| == Width(right)
    ensures var x, y := l[Locate(left, a).value], r[Locate(right, b).value];
            && ColumnsEqual(left, right, a, b)((l, r)) == Compare(EqualTo, x, y)
            && DirectKey(right, b)(r) == Ok(y)
            && (Holds(ColumnsEqual(left, right, a, b)((l, r))) <==> SameKey(x, y))
  {
    var x, y := l[Locate(left, a).value], r[Locate(right, b).value];
    FindInJoined(left, right, a, b, l, r);
    EqualIsSameKey(x, y);
    hide Find, Locate, Compare, Holds, SameKey;
    assert ColumnsEqual(left, right, a, b)((l, r)) == Compare(EqualTo, x, y);
  }

  lemma FindInJoined(left: Shape, right: Shape, a: Spec, b: Spec, l: Cells, r: Cells)
    requires OwnSides(left, right, a, b) && |l| == Width(left) && |r| == Width(right)
    ensures Find(JoinShape(left, right), l + r, a) == Ok(l[Locate(left, a).value])
    ensures Find(JoinShape(left, right), l + r, b) == Ok(r[Locate(right, b).value]) == Find(right, r, b)
  {
    var i, j := Locate(left, a).value, Locate(right, b).value;
    assert (l + r)[i] == l[i] && (l + r)[Width(left) + j] == r[j];
  }

  lemma EqualIsSameKey(x: Value, y: Value)
    ensures Holds(Compare(EqualTo, x, y)) <==> SameKey(x, y)
  {
  }

  /** What the equi-join compares: the first left column, whatever a is. */
  lemma CachedKeyMeans(left: Shape, table: string, field: string, l: Cells)
    requires NoAliases(Schema(left)) && |l| == Width(left) > 0
    ensures CachedKey(left, Column(table, field))(l) == Ok(l[0])
  {
    CachedIsFirstCell(left, table, field);
  }

  /** On the first left column the two joins of the code agree exactly when no right key is NULL or the
      left side is empty. */
  lemma FirstColumnJoinsAgreeIff(left: Shape, right: Shape, a: Spec, b: Spec, ls: seq<Cells>, rs: seq<Cells>)
    requires NoAliases(Schema(left)) && OwnSides(left, right, a, b) && a.alias == "" && Locate(left, a) == Some(0)
    requires Shaped(left, ls) && Shaped(right, rs) && NonNullKeys(CachedKey(left, a), ls)
    ensures multiset(Probe(Build(CachedKey(left, a), ls), DirectKey(right, b), rs))
            == multiset(Filtered(ColumnsEqual(left, right, a, b), Product(ls, rs)))
            <==> ls == [] || NonNullKeys(DirectKey(right, b), rs)
  {
    var cond, lk, rk := ColumnsEqual(left, right, a, b), CachedKey(left, a), DirectKey(right, b);
    forall i, j | 0 <= i < |ls| && 0 <= j < |rs|
      ensures Holds(cond((ls[i], rs[j]))) <==> SameKey(Key(lk, ls[i]), Key(rk, rs[j]))
    {
      ColumnsEqualMeans(left, right, a, b, ls[i], rs[j]);
      CachedKeyMeans(left, a.table, a.field, ls[i]);
    }
    assert TestsAllKeys(cond, lk, rk, ls, rs);
    JoinsAgreeIff(cond, lk, rk, ls, rs);
  }

  /** The two joins of the code return the same pairs on these rows. */
  ghost predicate SamePairs(left: Shape, right: Shape, a: Spec, b: Spec, ls: seq<Cells>, rs: seq<Cells>) {
    multiset(Probe(Build(CachedKey(left, a), ls), DirectKey(right, b), rs))
    == multiset(Filtered(ColumnsEqual(left, right, a, b), Product(ls, rs)))
  }

  ghost predicate NoNulls(rows: seq<Cells>) {
    forall i, j | 0 <= i < |rows| && 0 <= j < |rows[i]| :: !rows[i][j].Null?
  }

  /** Cells that are 1 up to position k and 2 from there on. */
  function Steps(width: nat, k: nat): (r: Cells)
    ensures |r| == width && forall i | 0 <= i < width :: r[i] == Integer(if i < k then 1 else 2)
  {
    seq(width, i => Integer(if i < k then 1 else 2))
  }

  /** Any other left column: one left row and one right row that the nested loop joins and the
      equi-join does not. */
  lemma OtherColumnLosesPair(left: Shape, right: Shape, a: Spec, b: Spec)
    requires NoAliases(Schema(left)) && OwnSides(left, right, a, b) && a.alias == "" && Locate(left, a) != Some(0)
    ensures var l, r := Steps(Width(left), 1), Steps(Width(right), 0);
            Filtered(ColumnsEqual(left, right, a, b), Product([l], [r])) == [(l, r)]
            && Probe(Build(CachedKey(left, a), [l]), DirectKey(right, b), [r]) == []
  {
    var l, r := Steps(Width(left), 1), Steps(Width(right), 0);
    ColumnsEqualMeans(left, right, a, b, l, r);
    CachedKeyMeans(left, a.table, a.field, l);
    OneByOne(ColumnsEqual(left, right, a, b), CachedKey(left, a), DirectKey(right, b), l, r);
  }

  lemma OneByOne(cond: PairTest, lk: KeyFn, rk: KeyFn, l: Cells, r: Cells)
    requires Holds(cond((l, r))) && lk(l) == Ok(Integer(1)) && rk(r) == Ok(Integer(2))
    ensures Filtered(cond, Product([l], [r])) == [(l, r)] && Probe(Build(lk, [l]), rk, [r]) == []
  {
    assert Product([l], [r]) == PairWith(l, [r]) + Product([], [r]) == [(l, r)];
    assert [(l, r)][1..] == [] && [r][1..] == [] && [l][..0] == [];
    var m := Build(lk, [l]);
    BuildStep(lk, [], l);
    assert [] + [l] == [l] && m == [Entry(Integer(1), l)] && m[1..] == [];
    assert LowerBound(m, Integer(2)) == 1 == UpperBound(m, Integer(2));
    assert m[1..1] == [] && RangeRows(m, Integer(2)) == [];
    assert Probe(m, rk, [r]) == PairRight([], r) + Probe(m, rk, []);
  }

  /** For example, t1(x, y) with the row (1, 2) and t2(z) with the row (2), on t1.y = t2.z. */
  lemma SecondColumnExample()
    ensures var left, right := RowShape("t1", ["x", "y"]), RowShape("t2", ["z"]);
            var a, b := Column("t1", "y"), Column("t2", "z");
            var l, r := [Integer(1), Integer(2)], [Integer(2)];
            && Uncached(JoinShape(left, right)) && OwnSides(left, right, a, b) && NoAliases(Schema(left))
            && Schema(left) == [Column("t1", "x"), Column("t1", "y")]
            && Filtered(ColumnsEqual(left, right, a, b), Product([l], [r])) == [(l, r)]
            && Probe(Build(CachedKey(left, a), [l]), DirectKey(right, b), [r]) == []
  {
    var left, right := RowShape("t1", ["x", "y"]), RowShape("t2", ["z"]);
    var a, b := Column("t1", "y"), Column("t2", "z");
    FirstFieldIs(["x", "y"], "y", 1);
    FirstFieldIs(["z"], "z", 0);
    assert Steps(2, 1) == [Integer(1), Integer(2)] && Steps(1, 0) == [Integer(2)];
    UncachedHasNoAliases(left);
    OtherColumnLosesPair(left, right, a, b);
  }

  lemma FirstFieldIs(fields: seq<string>, field: string, i: nat)
    requires i < |fields| && fields[i] == field && forall j | 0 <= j < i :: fields[j] != field
    ensures FirstField(fields, field) == i
  {
  }

  /** The equi-join returns what the nested loop does on all data without NULLs exactly when its left
      column is the first. */
  lemma JoinsAgreeOnAllDataIff(left: Shape, right: Shape, a: Spec, b: Spec)
    requires NoAliases(Schema(left)) && OwnSides(left, right, a, b) && a.alias == ""
    ensures (forall ls, rs | Shaped(left, ls) && Shaped(right, rs) && NoNulls(ls) && NoNulls(rs) ::
               SamePairs(left, right, a, b, ls, rs))
            <==> Locate(left, a) == Some(0)
  {
    hide SamePairs;
    if Locate(left, a) == Some(0) {
      forall ls, rs | Shaped(left, ls) && Shaped(right, rs) && NoNulls(ls) && NoNulls(rs)
        ensures SamePairs(left, right, a, b, ls, rs)
      {
        FirstColumnAgrees(left, right, a, b, ls, rs);
      }
    } else {
      var l, r := Steps(Width(left), 1), Steps(Width(right), 0);
      OtherColumnDiffers(left, right, a, b, l, r);
      assert Shaped(left, [l]) && Shaped(right, [r]) && NoNulls([l]) && NoNulls([r]);
    }
  }

  lemma OtherColumnDiffers(left: Shape, right: Shape, a: Spec, b: Spec, l: Cells, r: Cells)
    requires NoAliases(Schema(left)) && OwnSides(left, right, a, b) && a.alias == "" && Locate(left, a) != Some(0)
    requires l == Steps(Width(left), 1) && r == Steps(Width(right), 0)
    ensures !SamePairs(left, right, a, b, [l], [r])
  {
    OtherColumnLosesPair(left, right, a, b);
    assert (l, r) in multiset([(l, r)]);
  }

  lemma FirstColumnAgrees(left: Shape, right: Shape, a: Spec, b: Spec, ls: seq<Cells>, rs: seq<Cells>)
    requires NoAliases(Schema(left)) && OwnSides(left, right, a, b) && a.alias == "" && Locate(left, a) == Some(0)
    requires Shaped(left, ls) && Shaped(right, rs) && NoNulls(ls) && NoNulls(rs)
    ensures SamePairs(left, right, a, b, ls, rs)
  {
    var lk, rk := CachedKey(left, a), DirectKey(right, b);
    forall i | 0 <= i < |ls| ensures !Key(lk, ls[i]).Null? { CachedKeyMeans(left, a.table, a.field, ls[i]); }
    forall i | 0 <= i < |rs| ensures !Key(rk, rs[i]).Null? {
      assert rk(rs[i]) == Ok(rs[i][Locate(right, b).value]);
    }
    FirstColumnJoinsAgreeIff(left, right, a, b, ls, rs);
  }
}
