/** The LRU cache: an intrusive doubly linked list and an index by key (deps/common/lang/lru_cache.h). */
module LruCache {
  import opened Wrappers
  import opened LruHistory

  class ListNode<K(==), V> {
    const key: K
    var value: V
    var prev: ListNode?<K, V>
    var next: ListNode?<K, V>

    constructor (key: K, value: V)
      ensures this.key == key && this.value == value && prev == null && next == null
    {
      this.key, this.value, prev, next := key, value, null, null;
    }
  }

  /** The nodes form a doubly linked list in this order, from front to tail. */
  ghost predicate Linked<K, V>(ns: seq<ListNode<K, V>>, front: ListNode?<K, V>, tail: ListNode?<K, V>)
    reads ns
  {
    && (forall i, j | 0 <= i < j < |ns| :: ns[i] != ns[j])
    && front == (if ns == [] then null else ns[0])
    && tail == (if ns == [] then null else ns[|ns| - 1])
    && (forall i {:trigger ns[i].prev} | 0 <= i < |ns| :: ns[i].prev == if i == 0 then null else ns[i - 1])
    && (forall i {:trigger ns[i].next} | 0 <= i < |ns| :: ns[i].next == if i == |ns| - 1 then null else ns[i + 1])
  }

  ghost function EntriesOf<K, V>(ns: seq<ListNode<K, V>>): (c: seq<Entry<K, V>>)
    reads ns
    ensures |c| == |ns|
    ensures forall i | 0 <= i < |ns| :: c[i] == Entry(ns[i].key, ns[i].value)
  {
    if ns == [] then [] else [Entry(ns[0].key, ns[0].value)] + EntriesOf(ns[1..])
  }

  function RemoveAt<T>(s: seq<T>, i: nat): seq<T>
    requires i < |s|
  {
    s[..i] + s[i + 1..]
  }

  ghost predicate DistinctKeys<K, V>(c: seq<Entry<K, V>>) {
    forall i, j | 0 <= i < j < |c| :: c[i].key != c[j].key
  }

  /** With distinct keys, dropping a key is dropping its position. */
  lemma {:induction false} WithoutAt<K, V>(c: seq<Entry<K, V>>, i: nat)
    requires DistinctKeys(c) && i < |c|
    ensures Without(c, c[i].key) == RemoveAt(c, i)
    ensures Lookup(c, c[i].key) == Some(c[i].value)
  {
    if i == 0 {
      WithoutAbsent(c[1..], c[0].key);
    } else {
      WithoutAt(c[1..], i - 1);
      assert RemoveAt(c, i) == [c[0]] + RemoveAt(c[1..], i - 1);
    }
  }

  /** The three operations on a key at position i. */
  lemma ApplyPresent<K, V>(c: seq<Entry<K, V>>, i: nat, v: V)
    requires DistinctKeys(c) && i < |c|
    ensures Lookup(c, c[i].key) == Some(c[i].value)
    ensures Apply(c, Get(c[i].key)) == [c[i]] + RemoveAt(c, i)
    ensures Apply(c, Put(c[i].key, v)) == [Entry(c[i].key, v)] + RemoveAt(c, i)
    ensures Apply(c, Remove(c[i].key)) == RemoveAt(c, i)
  {
    WithoutAt(c, i);
  }

  /** The three operations on a key that is not there. */
  lemma NothingAbsent<K, V>(c: seq<Entry<K, V>>, k: K)
    requires forall i | 0 <= i < |c| :: c[i].key != k
    ensures Lookup(c, k) == None
    ensures Apply(c, Get(k)) == c == Apply(c, Remove(k))
    ensures forall v :: Apply(c, Put(k, v)) == [Entry(k, v)] + c
  {
    WithoutAbsent(c, k);
  }

  /** Moving a node to the front, or taking it out, moves or takes out its entry. */
  lemma EntriesMove<K, V>(c: seq<Entry<K, V>>, ns: seq<ListNode<K, V>>, i: nat, ms: seq<ListNode<K, V>>)
    requires |c| == |ns| && i < |ns|
    requires ms == RemoveAt(ns, i)
    requires forall j | 0 <= j < |ns| :: c[j].key == ns[j].key && (j != i ==> c[j].value == ns[j].value)
    ensures EntriesOf(ms) == RemoveAt(c, i)
    ensures EntriesOf([ns[i]] + ms) == [Entry(ns[i].key, ns[i].value)] + RemoveAt(c, i)
  {
    Gap(ns, i);
    Gap(c, i);
    assert ([ns[i]] + ms)[1..] == ms;
  }

  lemma EntriesGrow<K, V>(c: seq<Entry<K, V>>, ns: seq<ListNode<K, V>>, node: ListNode<K, V>)
    requires |c| == |ns| && forall j | 0 <= j < |ns| :: c[j] == Entry(ns[j].key, ns[j].value)
    ensures EntriesOf([node] + ns) == [Entry(node.key, node.value)] + c
  {
    assert ([node] + ns)[1..] == ns;
    assert EntriesOf(ns) == c;
  }

  /** The index holds exactly these nodes, under their keys. */
  ghost predicate Indexed<K, V>(index: map<K, ListNode<K, V>>, ns: seq<ListNode<K, V>>) {
    && (forall n | n in ns :: n.key in index && index[n.key] == n)
    && (forall k | k in index :: index[k] in ns && index[k].key == k)
  }

  lemma IndexedMoved<K, V>(index: map<K, ListNode<K, V>>, ns: seq<ListNode<K, V>>, i: nat)
    requires Indexed(index, ns) && i < |ns|
    ensures Indexed(index, [ns[i]] + RemoveAt(ns, i))
    ensures forall n | n in RemoveAt(ns, i) :: n in ns
  {
    MembersOfRemove(ns, i);
  }

  class Cache<K(==), V> {
    var searcher: map<K, ListNode<K, V>>
    var lruFront: ListNode?<K, V>
    var lruTail: ListNode?<K, V>
    ghost var nodes: seq<ListNode<K, V>>

    /** The pointers form one list, and the index holds exactly its nodes under their keys. */
    ghost predicate Valid()
      reads this, nodes
    {
      && Linked(nodes, lruFront, lruTail)
      && Indexed(searcher, nodes)
    }

    /** The entries, most recently used first. */
    ghost function Contents(): seq<Entry<K, V>>
      reads this, nodes
    {
      EntriesOf(nodes)
    }

    constructor ()
      ensures Valid() && Contents() == [] && nodes == []
    {
      searcher, lruFront, lruTail, nodes := map[], null, null, [];
    }

    /** The pointer part of taking a node out, shared by `lru_touch` and `lru_remove`. */
    method Unlink(node: ListNode<K, V>, ghost i: nat)
      requires Linked(nodes, lruFront, lruTail) && i < |nodes| && nodes[i] == node
      modifies this`lruFront, this`lruTail, nodes
      ensures Linked(RemoveAt(nodes, i), lruFront, lruTail)
      ensures forall n | n in nodes :: n.value == old(n.value)
    {
      assert nodes[i].prev == if i == 0 then null else nodes[i - 1];
      assert nodes[i].next == if i == |nodes| - 1 then null else nodes[i + 1];
      if node.prev != null {
        node.prev.next := node.next;
      } else {
        lruFront := node.next;
      }
      if node.next != null {
        node.next.prev := node.prev;
      } else {
        lruTail := node.prev;
      }
      Gap(nodes, i);
    }

    /** The pointer part of putting a node in front, shared by `lru_touch` and `lru_push`. */
    method LinkFront(node: ListNode<K, V>, ghost rest: seq<ListNode<K, V>>)
      requires Linked(rest, lruFront, lruTail) && node !in rest
      modifies this`lruFront, this`lruTail, node, rest
      ensures Linked([node] + rest, lruFront, lruTail)
      ensures node.value == old(node.value) && forall n | n in rest :: n.value == old(n.value)
    {
      if lruTail == null {
        lruTail := node;
      }
      node.prev := null;
      node.next := lruFront;
      if lruFront != null {
        lruFront.prev := node;
      }
      lruFront := node;
    }

    /** `lru_touch`: moves a node to the front, unless it is there already. */
    method LruTouch(node: ListNode<K, V>, ghost i: nat)
      requires Valid() && i < |nodes| && nodes[i] == node
      modifies this`lruFront, this`lruTail, this`nodes, nodes
      ensures Valid() && nodes == [node] + RemoveAt(old(nodes), i)
      ensures forall n | n in old(nodes) :: n.value == old(n.value)
    {
      Neighbours(i);
      if node.prev == null {
        assert nodes == [node] + RemoveAt(nodes, i);
        return;
      }
      MoveToFront(node, i);
    }

    method MoveToFront(node: ListNode<K, V>, ghost i: nat)
      requires Valid() && i < |nodes| && nodes[i] == node
      modifies this`lruFront, this`lruTail, this`nodes, nodes
      ensures Valid() && nodes == [node] + RemoveAt(old(nodes), i)
      ensures forall n | n in old(nodes) :: n.value == old(n.value)
    {
      ghost var rest := RemoveAt(nodes, i);
      IndexedMoved(searcher, nodes, i);
      NotInRest(nodes, i);
      hide Linked, Indexed, RemoveAt;
      Unlink(node, i);
      LinkFront(node, rest);
      nodes := [node] + rest;
    }

    /** `lru_push`: a new node goes to the front and into the index. */
    method LruPush(node: ListNode<K, V>)
      requires Valid() && node !in nodes && node.key !in searcher
      modifies this, nodes, node
      ensures Valid() && nodes == [node] + old(nodes)
      ensures forall n | n in nodes :: n.value == old(n.value)
    {
      LinkFront(node, nodes);
      searcher := searcher[node.key := node];
      nodes := [node] + nodes;
    }

    /** `lru_remove`. */
    method LruRemove(node: ListNode<K, V>, ghost i: nat)
      requires Valid() && i < |nodes| && nodes[i] == node
      modifies this, nodes
      ensures Valid() && nodes == RemoveAt(old(nodes), i)
      ensures forall n | n in old(nodes) :: n.value == old(n.value)
    {
      MembersOfRemove(nodes, i);
      NotInRest(nodes, i);
      hide Linked, RemoveAt;
      Unlink(node, i);
      searcher := map k | k in searcher && k != node.key :: searcher[k];
      nodes := RemoveAt(nodes, i);
    }

    lemma KeysAreDistinct()
      requires Valid()
      ensures DistinctKeys(Contents())
    {
      var c := Contents();
      forall i, j | 0 <= i < j < |c| ensures c[i].key != c[j].key {
        assert searcher[nodes[i].key] == nodes[i] && searcher[nodes[j].key] == nodes[j];
      }
    }

    /** Where the node of an indexed key is in the list. */
    lemma Position(key: K) returns (i: nat)
      requires Valid() && key in searcher
      ensures i < |nodes| && nodes[i] == searcher[key] && nodes[i].key == key
      ensures Contents()[i] == Entry(key, searcher[key].value)
    {
      i :| 0 <= i < |nodes| && nodes[i] == searcher[key];
    }

    lemma Absent(key: K)
      requires Valid() && key !in searcher
      ensures forall i | 0 <= i < |Contents()| :: Contents()[i].key != key
    {
    }

    /** `get`. */
    method Get(key: K) returns (found: bool, value: Option<V>)
      requires Valid()
      modifies this, nodes
      ensures Valid() && Contents() == Apply(old(Contents()), Op.Get(key))
      ensures found == value.Some? && value == Lookup(old(Contents()), key)
      ensures forall n | n in nodes :: n in old(nodes)
    {
      hide Apply, Lookup, RemoveAt, EntriesOf, Linked;
      ghost var c := Contents();
      if key !in searcher {
        Absent(key);
        NothingAbsent(c, key);
        return false, None;
      }
      var node := searcher[key];
      ghost var i := Position(key);
      KeysAreDistinct();
      ApplyPresent(c, i, node.value);
      ghost var ns := nodes;
      LruTouch(node, i);
      EntriesMove(c, ns, i, RemoveAt(ns, i));
      MembersOfRemove(ns, i);
      return true, Some(node.value);
    }

    /** A node's value is not part of the list structure. */
    method SetValue(node: ListNode<K, V>, value: V)
      requires Valid()
      modifies node`value
      ensures Valid() && node.value == value
    {
      node.value := value;
    }

    /** `put`. */
    method Put(key: K, value: V)
      requires Valid()
      modifies this, nodes
      ensures Valid() && Contents() == Apply(old(Contents()), Op.Put(key, value))
      ensures forall n | n in nodes :: n in old(nodes) || fresh(n)
    {
      hide Apply, Lookup, RemoveAt, EntriesOf, Linked;
      ghost var c, ns := Contents(), nodes;
      if key in searcher {
        var ln := searcher[key];
        ghost var i := Position(key);
        KeysAreDistinct();
        ApplyPresent(c, i, value);
        SetValue(ln, value);
        LruTouch(ln, i);
        EntriesMove(c, ns, i, RemoveAt(ns, i));
        MembersOfRemove(ns, i);
        return;
      }
      Absent(key);
      NothingAbsent(c, key);
      var ln := new ListNode(key, value);
      LruPush(ln);
      EntriesGrow(c, ns, ln);
    }

    /** `remove`. */
    method Remove(key: K)
      requires Valid()
      modifies this, nodes
      ensures Valid() && Contents() == Apply(old(Contents()), Op.Remove(key))
      ensures forall n | n in nodes :: n in old(nodes)
    {
      hide Apply, Lookup, RemoveAt, EntriesOf, Linked;
      ghost var c, ns := Contents(), nodes;
      if key !in searcher {
        Absent(key);
        NothingAbsent(c, key);
        return;
      }
      ghost var i := Position(key);
      KeysAreDistinct();
      ApplyPresent(c, i, searcher[key].value);
      LruRemove(searcher[key], i);
      EntriesMove(c, ns, i, RemoveAt(ns, i));
      MembersOfRemove(ns, i);
    }

    lemma Neighbours(i: nat)
      requires Valid() && i < |nodes|
      ensures nodes[i].prev == if i == 0 then null else nodes[i - 1]
      ensures nodes[i].next == if i == |nodes| - 1 then null else nodes[i + 1]
    {
    }

    lemma Ends()
      requires Valid()
      ensures lruFront == if nodes == [] then null else nodes[0]
      ensures lruTail == if nodes == [] then null else nodes[|nodes| - 1]
    {
    }

    /** `foreach`: front to tail along `next`, up to the first entry the visitor declines. */
    method ForEach(visit: Entry<K, V> -> bool) returns (visited: seq<Entry<K, V>>)
      requires Valid()
      ensures visited == Visited(Contents(), visit)
    {
      hide Visited, EntriesOf, Linked;
      visited := [];
      var node := lruFront;
      ghost var i, c := 0, Contents();
      Ends();
      while node != null
        invariant 0 <= i <= |nodes| && node == (if i == |nodes| then null else nodes[i])
        invariant visited == c[..i] && AllVisited(c, i, visit)
        decreases |nodes| - i
      {
        var e := Entry(node.key, node.value);
        Neighbours(i);
        visited := visited + [e];
        i := i + 1;
        if !visit(e) { break; }
        node := node.next;
      }
      VisitedStops(c, i, visit);
    }

    /** `foreach_reverse`: tail to front along `prev`. */
    method ForEachReverse(visit: Entry<K, V> -> bool) returns (visited: seq<Entry<K, V>>)
      requires Valid()
      ensures visited == Visited(Reversed(Contents()), visit)
    {
      hide Visited, Reversed, EntriesOf, Linked;
      visited := [];
      var node := lruTail;
      ghost var i, n, c := 0, |nodes|, Reversed(Contents());
      Ends();
      while node != null
        invariant 0 <= i <= n && node == (if i == n then null else nodes[n - 1 - i])
        invariant visited == c[..i] && AllVisited(c, i, visit)
        decreases n - i
      {
        var e := Entry(node.key, node.value);
        Neighbours(n - 1 - i);
        visited := visited + [e];
        i := i + 1;
        if !visit(e) { break; }
        node := node.prev;
      }
      VisitedStops(c, i, visit);
    }
  }

  /** The entries a visitor is called on: all up to the first one it declines, that one included. */
  function Visited<K, V>(c: seq<Entry<K, V>>, visit: Entry<K, V> -> bool): seq<Entry<K, V>> {
    if c == [] then [] else [c[0]] + if visit(c[0]) then Visited(c[1..], visit) else []
  }

  /** The visitor accepted the first n entries. */
  ghost predicate AllVisited<K, V>(c: seq<Entry<K, V>>, n: nat, visit: Entry<K, V> -> bool)
    requires n <= |c|
  {
    forall k | 0 <= k < n :: visit(c[k])
  }

  lemma {:induction false} VisitedStops<K, V>(c: seq<Entry<K, V>>, n: nat, visit: Entry<K, V> -> bool)
    requires n <= |c|
    requires (n == |c| && AllVisited(c, n, visit)) || (n > 0 && AllVisited(c, n - 1, visit) && !visit(c[n - 1]))
    ensures Visited(c, visit) == c[..n]
  {
    if c != [] {
      if n > 1 || visit(c[0]) {
        VisitedStops(c[1..], n - 1, visit);
      }
      assert c[..n] == [c[0]] + c[1..][..n - 1];
    }
  }

  function Reversed<T>(s: seq<T>): (r: seq<T>)
    ensures |r| == |s| && forall i | 0 <= i < |s| :: r[i] == s[|s| - 1 - i]
  {
    if s == [] then [] else Reversed(s[1..]) + [s[0]]
  }

  /** Any client: after a list of operations the cache holds, under each key, the value last put and not
      removed since, with distinct keys and the most recently used entry first; and every get answered
      with the value last put before it. */
  method RunOps<K(==), V>(ops: seq<Op<K, V>>) returns (cache: Cache<K, V>, answers: seq<Option<V>>)
    ensures fresh(cache) && cache.Valid() && cache.Contents() == Run(ops)
    ensures forall k :: Lookup(cache.Contents(), k) == LastPut(ops, k)
    ensures forall i, j | 0 <= i < j < |cache.Contents()| ::
              && cache.Contents()[i].key != cache.Contents()[j].key
              && LastUse(ops, cache.Contents()[i].key) > LastUse(ops, cache.Contents()[j].key)
    ensures Answers(ops, answers)
  {
    hide Apply, EntriesOf, Linked, Run, LastPut, LastUse, Lookup;
    cache := new Cache<K, V>();
    answers := [];
    RunNothing<K, V>();
    for n := 0 to |ops|
      invariant fresh(cache) && cache.Valid() && cache.Contents() == Run(ops[..n])
      invariant forall x | x in cache.nodes :: fresh(x)
      invariant |answers| == n && forall i | 0 <= i < n && ops[i].Get? :: answers[i] == LastPut(ops[..i], ops[i].key)
    {
      RunStep(ops, n);
      var answer := None;
      match ops[n] {
        case Get(k) =>
          RunLookup(ops[..n], k);
          var found;
          found, answer := cache.Get(k);
        case Put(k, v) => cache.Put(k, v);
        case Remove(k) => cache.Remove(k);
      }
      answers := answers + [answer];
    }
    assert ops[..|ops|] == ops;
    RunReflectsHistory(ops);
  }

  /** One answer per operation; a get is answered with the value last put before it. */
  ghost predicate Answers<K, V>(ops: seq<Op<K, V>>, answers: seq<Option<V>>) {
    |answers| == |ops| && forall i | 0 <= i < |ops| && ops[i].Get? :: answers[i] == LastPut(ops[..i], ops[i].key)
  }

  lemma RunNothing<K, V>()
    ensures Run<K, V>([]) == []
  {
  }

  lemma RunStep<K, V>(ops: seq<Op<K, V>>, n: nat)
    requires n < |ops|
    ensures Run(ops[..n + 1]) == Apply(Run(ops[..n]), ops[n])
  {
    hide Apply;
    assert ops[..n + 1][..n] == ops[..n];
  }

  lemma NotInRest<K, V>(ns: seq<ListNode<K, V>>, i: nat)
    requires i < |ns| && forall i, j | 0 <= i < j < |ns| :: ns[i] != ns[j]
    ensures ns[i] !in RemoveAt(ns, i)
  {
  }

  lemma MembersOfRemove<T>(s: seq<T>, i: nat)
    requires i < |s|
    ensures forall x :: x in s <==> x in RemoveAt(s, i) || x == s[i]
  {
  }

  lemma Gap<T>(s: seq<T>, i: nat)
    requires i < |s|
    ensures |RemoveAt(s, i)| == |s| - 1
    ensures forall j | 0 <= j < |s| - 1 :: RemoveAt(s, i)[j] == if j < i then s[j] else s[j + 1]
  {
  }
}
