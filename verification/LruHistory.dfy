/** What an LRU cache means: an ordered list of entries, and what its order says about the history. */
module LruHistory {
  import opened Wrappers

  datatype Entry<K, V> = Entry(key: K, value: V)

  datatype Op<K, V> = Get(key: K) | Put(key: K, value: V) | Remove(key: K)

  function Without<K(==), V>(c: seq<Entry<K, V>>, k: K): seq<Entry<K, V>> {
    if c == [] then [] else (if c[0].key == k then [] else [c[0]]) + Without(c[1..], k)
  }

  function Lookup<K(==), V>(c: seq<Entry<K, V>>, k: K): Option<V> {
    if c == [] then None else if c[0].key == k then Some(c[0].value) else Lookup(c[1..], k)
  }

  /** One operation on the list, most recently used entry first. */
  function Apply<K(==), V>(c: seq<Entry<K, V>>, op: Op<K, V>): seq<Entry<K, V>> {
    match op
    case Get(k) => if Lookup(c, k).Some? then [Entry(k, Lookup(c, k).value)] + Without(c, k) else c
    case Put(k, v) => [Entry(k, v)] + Without(c, k)
    case Remove(k) => Without(c, k)
  }

  function Run<K(==), V>(ops: seq<Op<K, V>>): seq<Entry<K, V>> {
    if ops == [] then [] else Apply(Run(ops[..|ops| - 1]), ops[|ops| - 1])
  }

  // ---------------------------------------------------------------- the history as reference

  /** The value last put under the key since it was last removed. */
  function LastPut<K(==), V>(ops: seq<Op<K, V>>, k: K): Option<V> {
    if ops == [] then None
    else
      var op := ops[|ops| - 1];
      if op.Remove? && op.key == k then None
      else if op.Put? && op.key == k then Some(op.value)
      else LastPut(ops[..|ops| - 1], k)
  }

  /** One plus the position of the last get or put of the key, or zero. */
  function LastUse<K(==), V>(ops: seq<Op<K, V>>, k: K): nat {
    if ops == [] then 0
    else if !ops[|ops| - 1].Remove? && ops[|ops| - 1].key == k then |ops|
    else LastUse(ops[..|ops| - 1], k)
  }

  /** The entries were last used before time n, each later than the ones behind it. */
  predicate UsedBefore<K(==), V>(ops: seq<Op<K, V>>, c: seq<Entry<K, V>>, n: nat) {
    c == [] || (LastUse(ops, c[0].key) < n && UsedBefore(ops, c[1..], LastUse(ops, c[0].key)))
  }

  lemma {:induction false} UsedBeforeLater<K, V>(ops: seq<Op<K, V>>, c: seq<Entry<K, V>>, n: nat, m: nat)
    requires UsedBefore(ops, c, n) && n <= m
    ensures UsedBefore(ops, c, m)
  {
  }

  /** One more operation on k leaves the order of the other entries as it was. */
  lemma {:induction false} WithoutUsedBefore<K, V>(ops: seq<Op<K, V>>, op: Op<K, V>, c: seq<Entry<K, V>>, n: nat)
    requires UsedBefore(ops, c, n)
    ensures UsedBefore(ops + [op], Without(c, op.key), n)
  {
    if c != [] {
      assert (ops + [op])[..|ops|] == ops;
      WithoutUsedBefore(ops, op, c[1..], LastUse(ops, c[0].key));
      if c[0].key == op.key {
        UsedBeforeLater(ops + [op], Without(c[1..], op.key), LastUse(ops, c[0].key), n);
        assert Without(c, op.key) == Without(c[1..], op.key);
      } else {
        assert ([c[0]] + Without(c[1..], op.key))[1..] == Without(c[1..], op.key);
      }
    }
  }

  lemma {:induction false} WithoutAbsent<K, V>(c: seq<Entry<K, V>>, k: K)
    ensures Lookup(c, k).None? <==> forall i | 0 <= i < |c| :: c[i].key != k
    ensures Lookup(c, k).None? ==> Without(c, k) == c
  {
    if c != [] {
      WithoutAbsent(c[1..], k);
      assert c == [c[0]] + c[1..];
      assert forall i | 0 < i < |c| :: c[i] == c[1..][i - 1];
    }
  }

  lemma {:induction false} LookupWithout<K, V>(c: seq<Entry<K, V>>, k: K, j: K)
    ensures Lookup(Without(c, k), j) == if j == k then None else Lookup(c, j)
  {
    if c != [] {
      LookupWithout(c[1..], k, j);
      if c[0].key == k {
        assert Without(c, k) == Without(c[1..], k);
      } else {
        assert Without(c, k)[1..] == Without(c[1..], k);
      }
    }
  }

  lemma {:induction false} RunUsedBefore<K, V>(ops: seq<Op<K, V>>)
    ensures UsedBefore(ops, Run(ops), |ops| + 1)
  {
    if ops != [] {
      var init, op := ops[..|ops| - 1], ops[|ops| - 1];
      var c := Run(init);
      assert ops == init + [op];
      RunUsedBefore(init);
      WithoutUsedBefore(init, op, c, |ops|);
      var rest := Without(c, op.key);
      UsedBeforeLater(ops, rest, |ops|, |ops| + 1);
      if Lookup(c, op.key).None? { WithoutAbsent(c, op.key); }
      assert forall e: Entry<K, V> :: ([e] + rest)[1..] == rest;
    }
  }

  lemma {:induction false} RunLookup<K, V>(ops: seq<Op<K, V>>, k: K)
    ensures Lookup(Run(ops), k) == LastPut(ops, k)
  {
    if ops != [] {
      var init, op := ops[..|ops| - 1], ops[|ops| - 1];
      RunLookup(init, k);
      LookupWithout(Run(init), op.key, k);
      assert forall e: Entry<K, V> :: ([e] + Without(Run(init), op.key))[1..] == Without(Run(init), op.key);
    }
  }

  lemma {:induction false} UsedBeforeAt<K, V>(ops: seq<Op<K, V>>, c: seq<Entry<K, V>>, n: nat, i: nat, j: nat)
    requires UsedBefore(ops, c, n) && i < j < |c|
    ensures LastUse(ops, c[j].key) < LastUse(ops, c[i].key) < n
  {
    if i > 0 {
      UsedBeforeAt(ops, c[1..], LastUse(ops, c[0].key), i - 1, j - 1);
    } else if j > 1 {
      UsedBeforeAt(ops, c[1..], LastUse(ops, c[0].key), 0, j - 1);
    }
  }

  /** After any operations the cache holds, under each key, the value last put and not removed since;
      its keys are distinct; and its order is most recently used first. */
  lemma RunReflectsHistory<K, V>(ops: seq<Op<K, V>>)
    ensures forall k :: Lookup(Run(ops), k) == LastPut(ops, k)
    ensures forall i, j | 0 <= i < j < |Run(ops)| ::
              && Run(ops)[i].key != Run(ops)[j].key
              && LastUse(ops, Run(ops)[i].key) > LastUse(ops, Run(ops)[j].key)
  {
    forall k ensures Lookup(Run(ops), k) == LastPut(ops, k) { RunLookup(ops, k); }
    RunUsedBefore(ops);
    forall i, j | 0 <= i < j < |Run(ops)|
      ensures LastUse(ops, Run(ops)[i].key) > LastUse(ops, Run(ops)[j].key)
    {
      UsedBeforeAt(ops, Run(ops), |ops| + 1, i, j);
    }
  }
}
