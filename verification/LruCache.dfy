/** The LRU cache as it is built: a list of nodes, and a hash map from keys to iterators into that list. */
module LruCache {
  import opened Options
  import opened LruSpec

  /** A list iterator: it stays with its node when the node is spliced to another position. */
  type Iter = nat
  type Nodes<K, V> = map<Iter, Entry<K, V>>

  // ----- list primitives -----

  function Drop(s: seq<Iter>, x: Iter): seq<Iter> {
    if s == [] then [] else if s[0] == x then s[1..] else [s[0]] + Drop(s[1..], x)
  }

  predicate NoRepeats(s: seq<Iter>) {
    s == [] || (s[0] !in s[1..] && NoRepeats(s[1..]))
  }

  lemma {:induction false} DropMembers(s: seq<Iter>, x: Iter)
    requires NoRepeats(s) && x in s
    ensures forall y :: y in Drop(s, x) <==> y in s && y != x
    ensures NoRepeats(Drop(s, x)) && |Drop(s, x)| == |s| - 1
  {
    if s[0] != x {
      DropMembers(s[1..], x);
      assert ([s[0]] + Drop(s[1..], x))[1..] == Drop(s[1..], x);
    }
  }

  lemma {:induction false} DropLast(s: seq<Iter>)
    requires s != [] && NoRepeats(s)
    ensures Drop(s, s[|s| - 1]) == s[..|s| - 1]
  {
    if |s| > 1 {
      assert s[|s| - 1] == s[1..][|s| - 2];
      DropLast(s[1..]);
      assert s[..|s| - 1] == [s[0]] + s[1..][..|s| - 2];
    }
  }

  /** The entries of a list in order. */
  ghost function Listing<K, V>(order: seq<Iter>, nodes: Nodes<K, V>): (s: seq<Entry<K, V>>)
    requires forall it :: it in order ==> it in nodes
    ensures |s| == |order| && forall i :: 0 <= i < |s| ==> s[i] == nodes[order[i]]
  {
    if order == [] then [] else [nodes[order[0]]] + Listing(order[1..], nodes)
  }

  /** Searching a list for a key finds its one node, and dropping that node drops the entry. */
  lemma {:induction false} ListingDrop<K, V>(order: seq<Iter>, nodes: Nodes<K, V>, x: Iter)
    requires x in order && x in nodes
    requires forall it :: it in order ==> it in nodes && (nodes[it].key == nodes[x].key ==> it == x)
    ensures Find(Listing(order, nodes), nodes[x].key) == Some(nodes[x].value)
    ensures forall it :: it in Drop(order, x) ==> it in nodes
    ensures Without(Listing(order, nodes), nodes[x].key) == Listing(Drop(order, x), nodes)
  {
    assert Listing(order, nodes)[1..] == Listing(order[1..], nodes);
    if order[0] != x {
      ListingDrop(order[1..], nodes, x);
      assert ([order[0]] + Drop(order[1..], x))[1..] == Drop(order[1..], x);
    }
  }

  lemma ListingPrefix<K, V>(order: seq<Iter>, nodes: Nodes<K, V>, n: nat)
    requires n <= |order| && forall it :: it in order ==> it in nodes
    ensures Listing(order[..n], nodes) == Listing(order, nodes)[..n]
  {
  }

  // ----- the map and the list together -----

  /** The map and the list hold the same keys, and each map entry is the iterator of its key's node. */
  ghost predicate Linked<K(!new), V>(cache: map<K, Iter>, order: seq<Iter>, nodes: Nodes<K, V>) {
    && NoRepeats(order) && |cache| == |order|
    && (forall it :: it in order ==> it in nodes && nodes[it].key in cache && cache[nodes[it].key] == it)
    && (forall k :: k in cache ==> cache[k] in order && nodes[cache[k]].key == k)
  }

  /** The map finds what a search of the list finds. */
  lemma LinkedFind<K(!new), V>(cache: map<K, Iter>, order: seq<Iter>, nodes: Nodes<K, V>, k: K)
    requires Linked(cache, order, nodes)
    ensures Find(Listing(order, nodes), k) == if k in cache then Some(nodes[cache[k]].value) else None
  {
    if k in cache {
      ListingDrop(order, nodes, cache[k]);
    } else {
      assert forall i :: 0 <= i < |order| ==> order[i] in order;
    }
  }

  /** Taking a key out of both. */
  lemma LinkedDrop<K(!new), V>(cache: map<K, Iter>, order: seq<Iter>, nodes: Nodes<K, V>, k: K)
    requires Linked(cache, order, nodes) && k in cache
    ensures Linked(cache - {k}, Drop(order, cache[k]), nodes) && cache[k] !in Drop(order, cache[k])
    ensures Listing(Drop(order, cache[k]), nodes) == Without(Listing(order, nodes), k)
  {
    DropMembers(order, cache[k]);
    ListingDrop(order, nodes, cache[k]);
    MapMinus(cache, k);
  }

  lemma MapMinus<K>(m: map<K, Iter>, k: K)
    requires k in m
    ensures |m - {k}| == |m| - 1
  {
    assert m.Keys == (m - {k}).Keys + {k};
  }

  /** A new or spliced node at the front. */
  lemma LinkedPush<K(!new), V>(cache: map<K, Iter>, order: seq<Iter>, nodes: Nodes<K, V>, it: Iter, e: Entry<K, V>)
    requires Linked(cache, order, nodes) && it !in order && e.key !in cache
    ensures Linked(cache[e.key := it], [it] + order, nodes[it := e])
    ensures Listing([it] + order, nodes[it := e]) == [e] + Listing(order, nodes)
  {
    ListingPush(order, nodes, it, e);
    MapPlus(cache, e.key, it);
    var front, bound, held := [it] + order, cache[e.key := it], nodes[it := e];
    assert front[1..] == order;
    forall j | j in front ensures j in held && held[j].key in bound && bound[held[j].key] == j {
      assert j == it || j in order;
    }
    forall k | k in bound ensures bound[k] in front && held[bound[k]].key == k {
      assert k == e.key || k in cache;
    }
  }

  lemma MapPlus<K>(m: map<K, Iter>, k: K, it: Iter)
    requires k !in m
    ensures |m[k := it]| == |m| + 1
  {
    assert m[k := it].Keys == m.Keys + {k};
  }

  lemma ListingPush<K, V>(order: seq<Iter>, nodes: Nodes<K, V>, it: Iter, e: Entry<K, V>)
    requires it !in order && forall j :: j in order ==> j in nodes
    ensures Listing([it] + order, nodes[it := e]) == [e] + Listing(order, nodes)
  {
  }

  /** Splicing a node to the front, with the value that it now has. */
  lemma LinkedSplice<K(!new), V>(cache: map<K, Iter>, order: seq<Iter>, nodes: Nodes<K, V>, e: Entry<K, V>)
    requires Linked(cache, order, nodes) && e.key in cache
    ensures
      var it := cache[e.key];
      && Linked(cache, [it] + Drop(order, it), nodes[it := e])
      && Listing([it] + Drop(order, it), nodes[it := e]) == ToFront(Listing(order, nodes), e.key, e.value)
  {
    var k, it := e.key, cache[e.key];
    LinkedDrop(cache, order, nodes, k);
    var less, rest := cache - {k}, Drop(order, it);
    LinkedPush(less, rest, nodes, it, e);
    MapBack(cache, k);
  }

  lemma MapBack<K>(m: map<K, Iter>, k: K)
    requires k in m
    ensures (m - {k})[k := m[k]] == m
  {
  }

  /** Taking out the last node. */
  lemma LinkedPop<K(!new), V>(cache: map<K, Iter>, order: seq<Iter>, nodes: Nodes<K, V>)
    requires Linked(cache, order, nodes) && order != []
    ensures
      var k, rest := nodes[order[|order| - 1]].key, order[..|order| - 1];
      Linked(cache - {k}, rest, nodes) && Listing(rest, nodes) == Listing(order, nodes)[..|order| - 1]
    ensures |cache - {nodes[order[|order| - 1]].key}| == |cache| - 1
  {
    var last := order[|order| - 1];
    assert last in order;
    LinkedDrop(cache, order, nodes, nodes[last].key);
    DropLast(order);
    ListingPrefix(order, nodes, |order| - 1);
  }

  class Cache<K(==, !new), V> {
    var cache: map<K, Iter>
    var keys: seq<Iter>
    var nodes: Nodes<K, V>
    var unused: Iter
    const limits: Limits

    ghost predicate Valid()
      reads this
    {
      Linked(cache, keys, nodes) && forall it :: it in keys ==> it < unused
    }

    /** The abstract value: the entries, most recently used first. */
    ghost function Entries(): seq<Entry<K, V>>
      requires Valid()
      reads this
    {
      Listing(keys, nodes)
    }

    constructor (maxSize: nat, elasticity: nat)
      ensures Valid() && Entries() == [] && limits == Limits(maxSize, elasticity)
    {
      cache, keys, nodes, unused := map[], [], map[], 0;
      limits := Limits(maxSize, elasticity);
    }

    method Clear()
      modifies this
      ensures Valid() && Entries() == []
    {
      cache := map[];
      keys := [];
    }

    method Insert(k: K, v: V)
      requires Valid()
      modifies this
      ensures Valid() && Entries() == Step(limits, old(Entries()), Put(k, v))
    {
      LinkedFind(cache, keys, nodes, k);
      if k in cache {
        LinkedSplice(cache, keys, nodes, Entry(k, v));
        DropMembers(keys, cache[k]);
        nodes := nodes[cache[k] := nodes[cache[k]].(value := v)];
        SpliceToFront(cache[k]);
        return;
      }
      EmplaceFront(k, v);
      cache := cache[k := keys[0]];
      var count := Prune();
    }

    method SpliceToFront(it: Iter)
      modifies `keys
      ensures keys == [it] + Drop(old(keys), it)
    {
      keys := [it] + Drop(keys, it);
    }

    method EmplaceFront(k: K, v: V)
      requires Valid() && k !in cache
      modifies `keys, `nodes, `unused
      ensures keys == [old(unused)] + old(keys) && Linked(cache[k := keys[0]], keys, nodes)
      ensures Listing(keys, nodes) == [Entry(k, v)] + old(Entries())
      ensures forall it :: it in keys ==> it < unused
    {
      LinkedPush(cache, keys, nodes, unused, Entry(k, v));
      nodes := nodes[unused := Entry(k, v)];
      keys := [unused] + keys;
      unused := unused + 1;
    }

    method Prune() returns (count: nat)
      requires Valid()
      modifies this
      ensures Valid() && Entries() == Pruned(limits, old(Entries()))
      ensures count == |old(Entries())| - |Entries()|
    {
      var maxAllowed := limits.MaxAllowed();
      count := 0;
      if limits.maxSize == 0 || |cache| < maxAllowed {
        return;
      }
      while |cache| > limits.maxSize
        invariant Valid() && |old(Entries())| == |cache| + count
        invariant |cache| >= limits.maxSize || count == 0
        invariant Entries() == old(Entries())[..|cache|]
      {
        EvictLast();
        count := count + 1;
      }
    }

    method EvictLast()
      requires Valid() && |cache| > 0
      modifies `cache, `keys
      ensures |cache| == old(|cache|) - 1 && Valid() && Entries() == old(Entries())[..|cache|]
    {
      var k := nodes[keys[|keys| - 1]].key;
      LinkedPop(cache, keys, nodes);
      cache := cache - {k};
      keys := keys[..|keys| - 1];
    }

    method TryGet(k: K) returns (r: Option<V>)
      requires Valid()
      modifies `keys
      ensures Valid() && r == Find(old(Entries()), k)
      ensures Entries() == Step(limits, old(Entries()), Op.Get(k))
    {
      LinkedFind(cache, keys, nodes, k);
      if k !in cache {
        return None;
      }
      var it := cache[k];
      LinkedSplice(cache, keys, nodes, nodes[it]);
      DropMembers(keys, it);
      assert nodes[it := nodes[it]] == nodes;
      SpliceToFront(it);
      r := Some(nodes[it].value);
    }

    method Remove(k: K) returns (found: bool)
      requires Valid()
      modifies `cache, `keys
      ensures Valid() && (found <==> Find(old(Entries()), k).Some?)
      ensures Entries() == Step(limits, old(Entries()), Op.Remove(k))
    {
      LinkedFind(cache, keys, nodes, k);
      if k !in cache {
        WithoutAt(Entries(), k);
        return false;
      }
      LinkedDrop(cache, keys, nodes, k);
      DropMembers(keys, cache[k]);
      keys := Drop(keys, cache[k]);
      cache := cache - {k};
      return true;
    }

    method Contains(k: K) returns (found: bool)
      requires Valid()
      ensures found <==> Find(Entries(), k).Some?
    {
      LinkedFind(cache, keys, nodes, k);
      found := k in cache;
    }

    /** Any operation. */
    method Perform(op: Op<K, V>)
      requires Valid()
      modifies this
      ensures Valid() && Entries() == Step(limits, old(Entries()), op)
    {
      match op
      case Put(k, v) => Insert(k, v);
      case Get(k) => var r := TryGet(k);
      case Remove(k) => var found := Remove(k);
      case Clear => Clear();
    }
  }

  /** Any sequence of operations on a new cache, and a lookup at its end. */
  method Replay<K(==, !new), V>(limits: Limits, ops: seq<Op<K, V>>, k: K) returns (r: Option<V>)
    ensures r == Find(Run(limits, [], ops), k)
  {
    var c := new Cache<K, V>(limits.maxSize, limits.elasticity);
    assert ops[0..] == ops;
    for i := 0 to |ops|
      invariant c.Valid() && c.limits == limits && fresh(c)
      invariant Run(limits, c.Entries(), ops[i..]) == Run(limits, [], ops)
    {
      assert ops[i..][1..] == ops[i + 1..];
      c.Perform(ops[i]);
    }
    r := c.TryGet(k);
  }
}
