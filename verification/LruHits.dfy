/** Exactly which keys an LRU cache holds: the order of its entries is the order of their last uses, and a put that
reaches the elastic limit drops all but the most recent. */
module LruHits {
  import opened Options
  import opened LruSpec

  /** A run from an empty cache, with its states. */
  ghost predicate Trace<K, V>(limits: Limits, ops: seq<Op<K, V>>, states: seq<seq<Entry<K, V>>>) {
    && |states| == |ops| + 1 && states[0] == []
    && forall i {:trigger ops[i]} :: 0 <= i < |ops| ==> states[i + 1] == Step(limits, states[i], ops[i])
  }

  lemma {:induction false} TraceRuns<K, V>(limits: Limits, ops: seq<Op<K, V>>, states: seq<seq<Entry<K, V>>>, n: nat)
    requires Trace(limits, ops, states) && n < |states|
    ensures states[n] == Run(limits, [], ops[..n]) && Distinct(states[n])
  {
    if n > 0 {
      TraceRuns(limits, ops, states, n - 1);
      RunConcat(limits, [], ops[..n - 1], [ops[n - 1]]);
      assert ops[..n] == ops[..n - 1] + [ops[n - 1]];
      assert [ops[n - 1]][1..] == [];
      StepDistinct(limits, states[n - 1], ops[n - 1]);
    }
  }

  // ----- one put -----

  /** The put of a new key into `size` entries makes the cache cut back: it is bounded, the new size has reached the
      elastic limit, and it is above the plain one. */
  predicate Overflows(limits: Limits, size: nat) {
    limits.maxSize > 0 && size + 1 >= (limits.maxSize + limits.elasticity) % 0x1_0000_0000_0000_0000 &&
    size + 1 > limits.maxSize
  }

  /** A put of a new key goes to the front. It drops nothing unless it overflows, and then it keeps exactly the maxSize
      most recent entries. */
  lemma PutExactly<K, V>(limits: Limits, s: seq<Entry<K, V>>, k: K, v: V, i: nat)
    requires Find(s, k) == None
    ensures
      var t := Step(limits, s, Put(k, v));
      && t != [] && t[0] == Entry(k, v)
      && |t| == (if Overflows(limits, |s|) then limits.maxSize else |s| + 1)
      && (0 < i < |t| ==> t[i] == s[i - 1])
  {
  }

  // ----- the order of last uses -----

  /** Call `i` moves `k` to the front: it puts it, or gets and finds it. */
  predicate Uses<K(==), V>(s: seq<Entry<K, V>>, op: Op<K, V>, k: K) {
    match op
    case Put(j, _) => j == k
    case Get(j) => j == k && Find(s, k).Some?
    case _ => false
  }

  predicate Drops<K(==), V>(op: Op<K, V>, k: K) {
    match op
    case Remove(j) => j == k
    case Clear => true
    case _ => false
  }

  /** The keys used by the calls behind `j` and before `n`. */
  ghost function Since<K(!new), V>(ops: seq<Op<K, V>>, states: seq<seq<Entry<K, V>>>, j: nat, n: nat): set<K>
    requires |states| == |ops| + 1 && n < |states|
  {
    if n <= j + 1 then {} else Since(ops, states, j, n - 1) + Touches(states[n - 1], ops[n - 1])
  }

  /** How many entries have a key from `since`. */
  ghost function Count<K(!new), V>(s: seq<Entry<K, V>>, since: set<K>): nat {
    if s == [] then 0 else (if s[0].key in since then 1 else 0) + Count(s[1..], since)
  }

  /** The entries in front of `s[p]` are exactly those with a key from `since`. */
  ghost predicate InFront<K(!new), V>(s: seq<Entry<K, V>>, p: nat, since: set<K>) {
    Distinct(s) && p < |s| && forall q :: 0 <= q < |s| ==> (q < p <==> s[q].key in since)
  }

  /** So the position counts them. */
  lemma {:induction false} Position<K(!new), V>(s: seq<Entry<K, V>>, p: nat, since: set<K>)
    requires p <= |s| && forall q :: 0 <= q < |s| ==> (q < p <==> s[q].key in since)
    ensures Count(s, since) == p
    decreases |s|
  {
    if s != [] {
      assert s[0].key in since <==> 0 < p;
      forall q | 0 <= q < |s| - 1 ensures q < (if p == 0 then 0 else p - 1) <==> s[1..][q].key in since {
        assert s[1..][q] == s[q + 1];
      }
      Position(s[1..], if p == 0 then 0 else p - 1, since);
    }
  }

  /** Dropping another entry keeps the order. */
  lemma FrontWithout<K(!new), V>(s: seq<Entry<K, V>>, p: nat, since: set<K>, k: K) returns (at: nat)
    requires InFront(s, p, since) && k != s[p].key
    ensures InFront(Without(s, k), at, since) && Without(s, k)[at] == s[p] && Find(Without(s, k), k) == None
  {
    WithoutDistinct(s, k);
    if Find(s, k).Some? {
      var r := WithoutFound(s, k);
      at := FrontRemoved(s, p, since, r, Without(s, k));
    } else {
      WithoutAt(s, k);
      at := p;
    }
  }

  lemma FrontRemoved<K(!new), V>(s: seq<Entry<K, V>>, p: nat, since: set<K>, r: nat, t: seq<Entry<K, V>>)
    returns (at: nat)
    requires InFront(s, p, since) && r < |s| && r != p && t == s[..r] + s[r + 1..] && Distinct(t)
    ensures InFront(t, at, since) && t[at] == s[p]
  {
    at := if r < p then p - 1 else p;
    forall q | 0 <= q < |t| ensures q < at <==> t[q].key in since {
      assert t[q] == s[if q < r then q else q + 1];
    }
  }

  /** A new front entry, of another key. */
  lemma FrontPut<K(!new), V>(s: seq<Entry<K, V>>, p: nat, since: set<K>, e: Entry<K, V>)
    requires InFront(s, p, since) && Find(s, e.key) == None
    ensures InFront([e] + s, p + 1, since + {e.key}) && ([e] + s)[p + 1] == s[p]
  {
    forall q | 0 <= q < |s| ensures s[q].key != e.key {}
    forall q | 0 <= q < |s| + 1 ensures q < p + 1 <==> ([e] + s)[q].key in since + {e.key} {
      assert q > 0 ==> ([e] + s)[q] == s[q - 1];
    }
  }

  /** A call that neither uses nor drops `s[p]` keeps it exactly when it does not cut the list before it. */
  lemma FrontStep<K(!new), V>(limits: Limits, s: seq<Entry<K, V>>, p: nat, since: set<K>, op: Op<K, V>)
    returns (at: nat)
    requires InFront(s, p, since) && !Uses(s, op, s[p].key) && !Drops(op, s[p].key)
    ensures Cuts(limits, s, p, op) ==> Find(Step(limits, s, op), s[p].key) == None
    ensures !Cuts(limits, s, p, op) ==>
      InFront(Step(limits, s, op), at, since + Touches(s, op)) && Step(limits, s, op)[at] == s[p]
  {
    at := p;
    FindDistinct(s, p);
    if op.Remove? {
      at := FrontWithout(s, p, since, op.key);
    } else if Find(s, op.key).Some? {
      at := FrontWithout(s, p, since, op.key);
      var value := if op.Put? then op.value else Find(s, op.key).value;
      FrontPut(Without(s, op.key), at, since, Entry(op.key, value));
      at := at + 1;
    } else if op.Put? {
      var e := Entry(op.key, op.value);
      FrontPut(s, p, since, e);
      at := p + 1;
      FrontPruned(limits, [e] + s, at, since + {op.key});
    }
  }

  /** The put of a new key that cuts the list before position p + 1. */
  predicate Cuts<K(==), V>(limits: Limits, s: seq<Entry<K, V>>, p: nat, op: Op<K, V>) {
    op.Put? && Find(s, op.key) == None && Overflows(limits, |s|) && p + 1 >= limits.maxSize
  }

  lemma FrontPruned<K(!new), V>(limits: Limits, t: seq<Entry<K, V>>, at: nat, since: set<K>)
    requires InFront(t, at, since)
    ensures
      var u := Pruned(limits, t);
      if Overflows(limits, |t| - 1) && at >= limits.maxSize then Find(u, t[at].key) == None
      else InFront(u, at, since) && u[at] == t[at]
  {
  }

  // ----- which keys are held -----

  /** Call `i` drops a key last used by call `j` by cutting the list: it puts a new key, overflows, and at least maxSize
      entries, the new one included, have been used since. */
  ghost predicate Evicts<K(!new), V>(limits: Limits, ops: seq<Op<K, V>>, states: seq<seq<Entry<K, V>>>, j: nat, i: nat)
    requires |states| == |ops| + 1 && i < |ops|
  {
    && ops[i].Put? && Find(states[i], ops[i].key) == None && Overflows(limits, |states[i]|)
    && Count(states[i], Since(ops, states, j, i)) + 1 >= limits.maxSize
  }

  /** Call `j` is the last one before the n-th that used `k`, and none since has dropped it. */
  ghost predicate Kept<K(!new), V>(limits: Limits, ops: seq<Op<K, V>>, states: seq<seq<Entry<K, V>>>, j: nat, n: nat,
                                   k: K)
    requires |states| == |ops| + 1 && n < |states|
  {
    && j < n && Uses(states[j], ops[j], k)
    && forall i {:trigger Drops(ops[i], k)} :: j < i < n ==>
         !Uses(states[i], ops[i], k) && !Drops(ops[i], k) && !Evicts(limits, ops, states, j, i)
  }

  /** One more call that does not use the key: it is still held exactly when the call neither drops nor evicts it. */
  lemma FrontAfter<K(!new), V>(
      limits: Limits, s: seq<Entry<K, V>>, op: Op<K, V>, t: seq<Entry<K, V>>, p: nat, since: set<K>, evicts: bool)
    returns (at: nat)
    requires t == Step(limits, s, op) && InFront(s, p, since) && !Uses(s, op, s[p].key)
    requires evicts <==>
      op.Put? && Find(s, op.key) == None && Overflows(limits, |s|) && Count(s, since) + 1 >= limits.maxSize
    ensures Find(t, s[p].key).Some? <==> !Drops(op, s[p].key) && !evicts
    ensures Find(t, s[p].key).Some? ==> InFront(t, at, since + Touches(s, op)) && t[at].key == s[p].key
  {
    at := 0;
    Position(s, p, since);
    if Drops(op, s[p].key) {
      WithoutDistinct(s, s[p].key);
    } else {
      at := FrontStep(limits, s, p, since, op);
      if !evicts {
        FindDistinct(t, at);
      }
    }
  }

  lemma KeptLess<K(!new), V>(
      limits: Limits, ops: seq<Op<K, V>>, states: seq<seq<Entry<K, V>>>, j: nat, m: nat, n: nat, k: K)
    requires |states| == |ops| + 1 && j < m && m + 1 == n < |states| && Kept(limits, ops, states, j, n, k)
    ensures Kept(limits, ops, states, j, m, k)
  {
    forall i | j < i < m
      ensures !Uses(states[i], ops[i], k) && !Drops(ops[i], k) && !Evicts(limits, ops, states, j, i)
    {
      assert !Drops(ops[i], k);
    }
  }

  lemma KeptOneMore<K(!new), V>(
      limits: Limits, ops: seq<Op<K, V>>, states: seq<seq<Entry<K, V>>>, j: nat, n: nat, k: K)
    requires |states| == |ops| + 1 && n < |ops| && j < n
    ensures Kept(limits, ops, states, j, n + 1, k) <==>
      Kept(limits, ops, states, j, n, k) &&
      !Uses(states[n], ops[n], k) && !Drops(ops[n], k) && !Evicts(limits, ops, states, j, n)
  {
    if Kept(limits, ops, states, j, n + 1, k) {
      KeptLess(limits, ops, states, j, n, n + 1, k);
      assert !Drops(ops[n], k);
    }
    if Kept(limits, ops, states, j, n, k) && !Uses(states[n], ops[n], k) && !Drops(ops[n], k) &&
       !Evicts(limits, ops, states, j, n) {
      forall i | j < i < n + 1
        ensures !Uses(states[i], ops[i], k) && !Drops(ops[i], k) && !Evicts(limits, ops, states, j, i)
      {
        if i < n {
          assert !Drops(ops[i], k);
        }
      }
    }
  }

  lemma TraceStep<K(!new), V>(limits: Limits, ops: seq<Op<K, V>>, states: seq<seq<Entry<K, V>>>, n: nat)
    requires Trace(limits, ops, states) && n < |ops|
    ensures states[n + 1] == Step(limits, states[n], ops[n])
  {
    assert ops[n] == ops[n];
  }

  /** One more call after the last use, on the entry of the key. */
  lemma EntryAfter<K(!new), V>(
      limits: Limits, ops: seq<Op<K, V>>, states: seq<seq<Entry<K, V>>>, j: nat, n: nat, p: nat, k: K) returns (at: nat)
    requires Trace(limits, ops, states) && j < n < |ops| && !Uses(states[n], ops[n], k)
    requires InFront(states[n], p, Since(ops, states, j, n)) && states[n][p].key == k
    ensures Find(states[n + 1], k).Some? <==> !Drops(ops[n], k) && !Evicts(limits, ops, states, j, n)
    ensures Find(states[n + 1], k).Some? ==>
      InFront(states[n + 1], at, Since(ops, states, j, n + 1)) && states[n + 1][at].key == k
  {
    TraceStep(limits, ops, states, n);
    at := FrontAfter(limits, states[n], ops[n], states[n + 1], p, Since(ops, states, j, n),
                     Evicts(limits, ops, states, j, n));
  }

  lemma KeptFirst<K(!new), V>(
      limits: Limits, ops: seq<Op<K, V>>, states: seq<seq<Entry<K, V>>>, j: nat, k: K)
    requires Trace(limits, ops, states) && j < |ops| && Uses(states[j], ops[j], k)
    ensures InFront(states[j + 1], 0, Since(ops, states, j, j + 1)) && states[j + 1][0].key == k
  {
    TraceRuns(limits, ops, states, j);
    TraceStep(limits, ops, states, j);
    UsedFirst(limits, states[j], ops[j], k);
  }

  lemma KeptStep<K(!new), V>(
      limits: Limits, ops: seq<Op<K, V>>, states: seq<seq<Entry<K, V>>>, j: nat, m: nat, n: nat, p: nat, k: K)
    returns (at: nat)
    requires Trace(limits, ops, states) && j < m && m + 1 == n < |states| && Kept(limits, ops, states, j, n, k)
    requires InFront(states[m], p, Since(ops, states, j, m)) && states[m][p].key == k
    ensures InFront(states[n], at, Since(ops, states, j, n)) && states[n][at].key == k
  {
    KeptOneMore(limits, ops, states, j, m, k);
    at := EntryAfter(limits, ops, states, j, m, p, k);
  }

  lemma {:induction false} KeptInFront<K(!new), V>(
      limits: Limits, ops: seq<Op<K, V>>, states: seq<seq<Entry<K, V>>>, j: nat, n: nat, k: K) returns (p: nat)
    requires Trace(limits, ops, states) && n < |states| && Kept(limits, ops, states, j, n, k)
    ensures InFront(states[n], p, Since(ops, states, j, n)) && states[n][p].key == k
    decreases n
  {
    if n == j + 1 {
      p := 0;
      KeptFirst(limits, ops, states, j, k);
    } else {
      KeptLess(limits, ops, states, j, n - 1, n, k);
      var q := KeptInFront(limits, ops, states, j, n - 1, k);
      p := KeptStep(limits, ops, states, j, n - 1, n, q, k);
    }
  }

  lemma UsedFirst<K(!new), V>(limits: Limits, s: seq<Entry<K, V>>, op: Op<K, V>, k: K)
    requires Distinct(s) && Uses(s, op, k)
    ensures var t := Step(limits, s, op); InFront(t, 0, {}) && t[0].key == k
  {
    StepDistinct(limits, s, op);
  }

  lemma OnlyUsesAdd<K(!new), V>(limits: Limits, s: seq<Entry<K, V>>, op: Op<K, V>, k: K)
    requires Distinct(s) && Find(Step(limits, s, op), k).Some? && !Uses(s, op, k)
    ensures Find(s, k).Some? && !Drops(op, k)
  {
    var t := Step(limits, s, op);
    var i :| 0 <= i < |t| && t[i].key == k;
    var m := OldEntry(limits, s, op, i);
    if op.Remove? {
      WithoutDistinct(s, op.key);
    }
  }

  lemma HeldBefore<K(!new), V>(limits: Limits, ops: seq<Op<K, V>>, states: seq<seq<Entry<K, V>>>, n: nat, k: K)
    requires Trace(limits, ops, states) && n < |ops| && Find(states[n + 1], k).Some? && !Uses(states[n], ops[n], k)
    ensures Find(states[n], k).Some?
  {
    TraceRuns(limits, ops, states, n);
    TraceStep(limits, ops, states, n);
    OnlyUsesAdd(limits, states[n], ops[n], k);
  }

  lemma KeptAfter<K(!new), V>(
      limits: Limits, ops: seq<Op<K, V>>, states: seq<seq<Entry<K, V>>>, j: nat, n: nat, k: K)
    requires Trace(limits, ops, states) && n < |ops| && Kept(limits, ops, states, j, n, k)
    requires !Uses(states[n], ops[n], k) && Find(states[n + 1], k).Some?
    ensures Kept(limits, ops, states, j, n + 1, k)
  {
    var p := KeptInFront(limits, ops, states, j, n, k);
    var at := EntryAfter(limits, ops, states, j, n, p, k);
    KeptOneMore(limits, ops, states, j, n, k);
  }

  lemma {:induction false} HeldIsKept<K(!new), V>(
      limits: Limits, ops: seq<Op<K, V>>, states: seq<seq<Entry<K, V>>>, n: nat, k: K) returns (j: nat)
    requires Trace(limits, ops, states) && n < |states| && Find(states[n], k).Some?
    ensures Kept(limits, ops, states, j, n, k)
    decreases n
  {
    assert n > 0;
    var m := n - 1;
    if Uses(states[m], ops[m], k) {
      j := m;
    } else {
      HeldBefore(limits, ops, states, m, k);
      j := HeldIsKept(limits, ops, states, m, k);
      KeptAfter(limits, ops, states, j, m, k);
    }
  }

  /**
   * Over every run, a key is found exactly when some call used it and no call since that last use removed it, cleared
   * the cache, or put a new key that overflowed with at least maxSize entries, its own included, used since then.
   */
  lemma HitExactly<K(!new), V>(limits: Limits, ops: seq<Op<K, V>>, states: seq<seq<Entry<K, V>>>, n: nat, k: K)
    requires Trace(limits, ops, states) && n < |states|
    ensures Find(states[n], k).Some? <==> exists j: nat :: Kept(limits, ops, states, j, n, k)
  {
    if Find(states[n], k).Some? {
      var j := HeldIsKept(limits, ops, states, n, k);
    }
    if j: nat :| Kept(limits, ops, states, j, n, k) {
      var p := KeptInFront(limits, ops, states, j, n, k);
    }
  }

  /** And it is found with the value that it was last put with. */
  lemma {:induction false} LastValue<K(!new), V>(
      limits: Limits, ops: seq<Op<K, V>>, states: seq<seq<Entry<K, V>>>, n: nat, k: K) returns (j: nat)
    requires Trace(limits, ops, states) && n < |states| && Find(states[n], k).Some?
    ensures j < n && ops[j] == Put(k, Find(states[n], k).value)
    ensures forall i :: j < i < n && ops[i].Put? ==> ops[i].key != k
    decreases n
  {
    assert n > 0;
    var s, op := states[n - 1], ops[n - 1];
    TraceRuns(limits, ops, states, n - 1);
    if op.Put? && op.key == k {
      j := n - 1;
      assert states[n][0] == Entry(k, op.value);
    } else {
      if !Uses(s, op, k) {
        OnlyUsesAdd(limits, s, op, k);
      }
      SameValue(limits, s, op, k);
      j := LastValue(limits, ops, states, n - 1, k);
    }
  }

  lemma SameValue<K(!new), V>(limits: Limits, s: seq<Entry<K, V>>, op: Op<K, V>, k: K)
    requires Distinct(s) && Find(s, k).Some? && Find(Step(limits, s, op), k).Some? && !(op.Put? && op.key == k)
    ensures Find(Step(limits, s, op), k) == Find(s, k)
  {
    var t := Step(limits, s, op);
    StepDistinct(limits, s, op);
    var i :| 0 <= i < |t| && t[i].key == k;
    FindDistinct(t, i);
    if !Uses(s, op, k) {
      var m := OldEntry(limits, s, op, i);
      FindDistinct(s, m);
    }
  }

  /** Entries of other keys than the one put or found were there before. */
  lemma OldEntry<K(!new), V>(limits: Limits, s: seq<Entry<K, V>>, op: Op<K, V>, i: nat) returns (m: nat)
    requires i < |Step(limits, s, op)| && !Uses(s, op, Step(limits, s, op)[i].key)
    ensures m < |s| && s[m] == Step(limits, s, op)[i]
  {
    m := i;
    if op.Put? && Find(s, op.key) == None {
      m := i - 1;
    } else if Find(s, op.key).Some? {
      var r := WithoutFound(s, op.key);
      var q := if op.Remove? then i else i - 1;
      m := if q < r then q else q + 1;
    } else if op.Remove? {
      WithoutAt(s, op.key);
    }
  }
}
