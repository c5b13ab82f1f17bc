/** Looking up a column by name in the tuples a join sees (src/observer/sql/expr/tuple.h). */
module Tuples {
  import opened Wrappers
  import opened Expressions

  /** `TupleCellSpec`: names that were not given are empty. */
  datatype Spec = Spec(table: string, field: string, alias: string)

  /** What `FieldExpr` asks a tuple for: it never gives an alias. */
  function Column(table: string, field: string): Spec {
    Spec(table, field, "")
  }

  type Cells = seq<Value>

  /** What the tuples of one operator have in common, apart from their cells. */
  datatype Shape =
    | RowShape(table: string, fields: seq<string>)
    | CacheShape(specs: seq<Spec>)
    | JoinShape(left: Shape, right: Shape)

  function Width(s: Shape): nat {
    match s
    case RowShape(_, fields) => |fields|
    case CacheShape(specs) => |specs|
    case JoinShape(l, r) => Width(l) + Width(r)
  }

  /** The specs of all cells, as the planner collects them: stored columns come without alias. */
  function Schema(s: Shape): (specs: seq<Spec>)
    ensures |specs| == Width(s)
  {
    match s
    case RowShape(table, fields) => seq(|fields|, i requires 0 <= i < |fields| => Column(table, fields[i]))
    case CacheShape(specs) => specs
    case JoinShape(l, r) => Schema(l) + Schema(r)
  }

  function FirstField(fields: seq<string>, field: string): (i: nat)
    ensures i <= |fields| && (i < |fields| ==> fields[i] == field) && forall j | 0 <= j < i :: fields[j] != field
  {
    if fields == [] || fields[0] == field then 0 else 1 + FirstField(fields[1..], field)
  }

  function FirstAlias(specs: seq<Spec>, alias: string): (i: nat)
    ensures i <= |specs| && (i < |specs| ==> specs[i].alias == alias)
    ensures forall j | 0 <= j < i :: specs[j].alias != alias
  {
    if specs == [] || specs[0].alias == alias then 0 else 1 + FirstAlias(specs[1..], alias)
  }

  predicate Names(s: Spec, spec: Spec) {
    s.table == spec.table && s.field == spec.field
  }

  function FirstColumn(specs: seq<Spec>, spec: Spec): (i: nat)
    ensures i <= |specs| && (i < |specs| ==> Names(specs[i], spec))
    ensures forall j | 0 <= j < i :: !Names(specs[j], spec)
  {
    if specs == [] || Names(specs[0], spec) then 0 else 1 + FirstColumn(specs[1..], spec)
  }

  /** The index of the cell that `find_cell` returns. A cached tuple looks at the aliases first. */
  function Locate(s: Shape, spec: Spec): (r: Option<nat>)
    ensures r.Some? ==> r.value < Width(s)
  {
    match s
    case RowShape(table, fields) =>
      var i := FirstField(fields, spec.field);
      if spec.table == table && i < |fields| then Some(i) else None
    case CacheShape(specs) =>
      var i, j := FirstAlias(specs, spec.alias), FirstColumn(specs, spec);
      if i < |specs| then Some(i) else if j < |specs| then Some(j) else None
    case JoinShape(l, r) =>
      var i, j := Locate(l, spec), Locate(r, spec);
      if i.Some? then i else if j.Some? then Some(Width(l) + j.value) else None
  }

  function Find(s: Shape, cells: Cells, spec: Spec): Outcome {
    var i := Locate(s, spec);
    if i.Some? && i.value < |cells| then Ok(cells[i.value]) else Err(NotFound)
  }

  /** In a cached tuple: the first cell with the asked alias; if there is none, the first of that table and
      field; if there is none, nothing. */
  lemma CachedLocateMeans(specs: seq<Spec>, spec: Spec, i: nat)
    requires i < |specs|
    ensures Locate(CacheShape(specs), spec) == Some(i) <==>
              || (specs[i].alias == spec.alias && forall j | 0 <= j < i :: specs[j].alias != spec.alias)
              || (&& (forall j | 0 <= j < |specs| :: specs[j].alias != spec.alias)
                  && specs[i].table == spec.table && specs[i].field == spec.field
                  && forall j | 0 <= j < i :: specs[j].table != spec.table || specs[j].field != spec.field)
    ensures Locate(CacheShape(specs), spec).None? <==>
              forall j | 0 <= j < |specs| ::
                specs[j].alias != spec.alias && (specs[j].table != spec.table || specs[j].field != spec.field)
  {
  }

  // ---------------------------------------------------------------- what a cached tuple finds

  /** Tables and joins of tables, before anything was cached. */
  predicate Uncached(s: Shape) {
    match s
    case RowShape(_, _) => true
    case CacheShape(_) => false
    case JoinShape(l, r) => Uncached(l) && Uncached(r)
  }

  predicate NoAliases(specs: seq<Spec>) {
    forall i | 0 <= i < |specs| :: specs[i].alias == ""
  }

  lemma {:induction false} UncachedHasNoAliases(s: Shape)
    requires Uncached(s)
    ensures NoAliases(Schema(s))
  {
    match s
    case RowShape(_, _) =>
    case JoinShape(l, r) =>
      UncachedHasNoAliases(l);
      UncachedHasNoAliases(r);
  }

  lemma FirstColumnIs(specs: seq<Spec>, spec: Spec, i: nat)
    requires i <= |specs| && (i < |specs| ==> Names(specs[i], spec)) && forall j | 0 <= j < i :: !Names(specs[j], spec)
    ensures FirstColumn(specs, spec) == i
  {
    var k := FirstColumn(specs, spec);
    assert !(k < i) && !(i < k);
  }

  lemma FirstColumnOfRow(table: string, fields: seq<string>, spec: Spec)
    ensures FirstColumn(Schema(RowShape(table, fields)), spec)
            == if spec.table == table then FirstField(fields, spec.field) else |fields|
  {
    var i := FirstField(fields, spec.field);
    FirstColumnIs(Schema(RowShape(table, fields)), spec, if spec.table == table then i else |fields|);
  }

  /** Before caching, the lookup finds the first cell with the asked table and field. */
  lemma {:induction false} LocateIsFirstColumn(s: Shape, spec: Spec)
    requires Uncached(s)
    ensures var i := FirstColumn(Schema(s), spec);
            Locate(s, spec) == if i < Width(s) then Some(i) else None
  {
    hide FirstColumn, FirstField, Names;
    match s
    case RowShape(table, fields) => FirstColumnOfRow(table, fields, spec);
    case JoinShape(l, r) =>
      LocateIsFirstColumn(l, spec);
      LocateIsFirstColumn(r, spec);
      FirstColumnConcat(Schema(l), Schema(r), spec);
  }

  lemma FirstColumnConcat(x: seq<Spec>, y: seq<Spec>, spec: Spec)
    ensures var i := FirstColumn(x, spec);
            FirstColumn(x + y, spec) == if i < |x| then i else |x| + FirstColumn(y, spec)
  {
    var i := FirstColumn(x, spec);
    FirstColumnIs(x + y, spec, if i < |x| then i else |x| + FirstColumn(y, spec));
  }

  /** In a cached tuple every column by name is the first cell: no alias is asked for, and the first
      cell has none. */
  lemma CachedIsFirstCell(s: Shape, table: string, field: string)
    requires NoAliases(Schema(s)) && Width(s) > 0
    ensures Locate(CacheShape(Schema(s)), Column(table, field)) == Some(0)
  {
  }

  /** So caching keeps the lookup of exactly one column, the first. */
  lemma CachedLookupAgreesIff(s: Shape, table: string, field: string)
    requires Uncached(s) && Width(s) > 0
    ensures Locate(CacheShape(Schema(s)), Column(table, field)) == Locate(s, Column(table, field))
            <==> Schema(s)[0] == Column(table, field)
  {
    UncachedHasNoAliases(s);
    CachedIsFirstCell(s, table, field);
    LocateIsFirstColumn(s, Column(table, field));
  }

  /** Above an equi-join, every column of either side reads as the first cell of the left side. */
  lemma JoinedWithCacheReadsFirstCell(s: Shape, r: Shape, table: string, field: string)
    requires Uncached(s) && Width(s) > 0
    ensures Locate(JoinShape(CacheShape(Schema(s)), r), Column(table, field)) == Some(0)
  {
    UncachedHasNoAliases(s);
    CachedIsFirstCell(s, table, field);
  }

  // ---------------------------------------------------------------- the code

  /** `CacheTuple::find_cell`. */
  method CacheFindCell(cells: Cells, specs: seq<Spec>, spec: Spec) returns (r: Outcome)
    requires |cells| == |specs|
    ensures r == Find(CacheShape(specs), cells, spec)
  {
    for i := 0 to |specs|
      invariant forall j | 0 <= j < i :: specs[j].alias != spec.alias
    {
      if spec.alias == specs[i].alias { return Ok(cells[i]); }
    }
    for i := 0 to |specs|
      invariant forall j | 0 <= j < i :: !Names(specs[j], spec)
    {
      if spec.table == specs[i].table && spec.field == specs[i].field { return Ok(cells[i]); }
    }
    r := Err(NotFound);
  }

  /** `RowTuple::find_cell`. */
  method RowFindCell(cells: Cells, table: string, fields: seq<string>, spec: Spec) returns (r: Outcome)
    requires |cells| == |fields|
    ensures r == Find(RowShape(table, fields), cells, spec)
  {
    if spec.table != table { return Err(NotFound); }
    for i := 0 to |fields|
      invariant forall j | 0 <= j < i :: fields[j] != spec.field
    {
      if spec.field == fields[i] { return Ok(cells[i]); }
    }
    r := Err(NotFound);
  }

  /** `CacheTupleManager::cloneTuple`: the cells one by one, under the specs of the manager. */
  method CloneTuple(cells: Cells, specs: seq<Spec>) returns (r: Pull, cache: Cells)
    ensures r == if |cells| == |specs| then Success else Failed(InvalidArgument)
    ensures r.Success? ==> cache == cells
  {
    cache := [];
    if |cells| != |specs| { return Failed(InvalidArgument), cache; }
    for i := 0 to |cells|
      invariant cache == cells[..i]
    {
      cache := cache + [cells[i]];
    }
    assert cells[..|cells|] == cells;
    r := Success;
  }
}
