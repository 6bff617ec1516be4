/** What the LRU cache is: its entries in order of use, most recent first, and what that order promises. */
module LruSpec {
  import opened Options
  import opened Sizes

  datatype Entry<K, V> = Entry(key: K, value: V)

  datatype Limits = Limits(maxSize: nat, elasticity: nat) {
    /** getMaxAllowedSize, a size_t sum. */
    function MaxAllowed(): nat {
      (maxSize + elasticity) % TWO64
    }

    /** The most entries that the cache keeps, when it is bounded. */
    function Capacity(): nat {
      if MaxAllowed() - 1 <= maxSize then maxSize else MaxAllowed() - 1
    }
  }

  datatype Op<K, V> = Put(key: K, value: V) | Get(key: K) | Remove(key: K) | Clear

  // ----- one operation -----

  function Find<K(==), V>(s: seq<Entry<K, V>>, k: K): (r: Option<V>)
    ensures r.Some? <==> exists i :: 0 <= i < |s| && s[i].key == k
  {
    if s == [] then None
    else if s[0].key == k then Some(s[0].value)
    else
      assert forall i :: 1 <= i < |s| ==> s[i] == s[1..][i - 1];
      Find(s[1..], k)
  }

  function Without<K(==), V>(s: seq<Entry<K, V>>, k: K): (r: seq<Entry<K, V>>)
    ensures |r| <= |s|
  {
    if s == [] then []
    else if s[0].key == k then s[1..]
    else [s[0]] + Without(s[1..], k)
  }

  function ToFront<K(==), V>(s: seq<Entry<K, V>>, k: K, v: V): seq<Entry<K, V>> {
    [Entry(k, v)] + Without(s, k)
  }

  /** Pruning cuts back to maxSize once the elastic limit is reached. */
  function Pruned<K, V>(limits: Limits, s: seq<Entry<K, V>>): seq<Entry<K, V>> {
    if limits.maxSize == 0 || |s| < limits.MaxAllowed() || |s| <= limits.maxSize then s
    else s[..limits.maxSize]
  }

  function Step<K(==), V>(limits: Limits, s: seq<Entry<K, V>>, op: Op<K, V>): seq<Entry<K, V>> {
    match op
    case Put(k, v) => if Find(s, k).Some? then ToFront(s, k, v) else Pruned(limits, [Entry(k, v)] + s)
    case Get(k) => (match Find(s, k) case Some(v) => ToFront(s, k, v) case None => s)
    case Remove(k) => Without(s, k)
    case Clear => []
  }

  function Run<K(==), V>(limits: Limits, s: seq<Entry<K, V>>, ops: seq<Op<K, V>>): seq<Entry<K, V>>
    decreases |ops|
  {
    if ops == [] then s else Run(limits, Step(limits, s, ops[0]), ops[1..])
  }

  /** The key that an operation moves to the front, if it does: a miss touches nothing. */
  function Touches<K(==), V>(s: seq<Entry<K, V>>, op: Op<K, V>): set<K> {
    match op
    case Put(k, _) => {k}
    case Get(k) => if Find(s, k).Some? then {k} else {}
    case _ => {}
  }

  /** The distinct keys moved to the front during a run. */
  function Touched<K(==), V>(limits: Limits, s: seq<Entry<K, V>>, ops: seq<Op<K, V>>): set<K>
    decreases |ops|
  {
    if ops == [] then {} else Touches(s, ops[0]) + Touched(limits, Step(limits, s, ops[0]), ops[1..])
  }

  /** Operations that neither replace nor drop the entry for `k`. */
  predicate Spares<K(==), V(==)>(op: Op<K, V>, k: K) {
    match op
    case Put(j, _) => j != k
    case Get(_) => true
    case Remove(j) => j != k
    case Clear => false
  }

  // ----- facts about the parts -----

  ghost predicate Distinct<K, V>(s: seq<Entry<K, V>>) {
    forall i, j :: 0 <= i < j < |s| ==> s[i].key != s[j].key
  }

  lemma {:induction false} WithoutAt<K, V>(s: seq<Entry<K, V>>, k: K)
    requires Find(s, k) == None
    ensures Without(s, k) == s
  {
    if s != [] {
      assert s[0].key != k;
      WithoutAt(s[1..], k);
    }
  }

  /** The entry that is found, and the list without it. */
  lemma {:induction false} WithoutFound<K, V>(s: seq<Entry<K, V>>, k: K) returns (i: nat)
    requires Find(s, k).Some?
    ensures i < |s| && s[i] == Entry(k, Find(s, k).value) && Without(s, k) == s[..i] + s[i + 1..]
  {
    if s[0].key == k {
      i := 0;
    } else {
      var j := WithoutFound(s[1..], k);
      i := j + 1;
      OneLess(s, j);
    }
  }

  lemma OneLess<T>(s: seq<T>, j: nat)
    requires j + 1 < |s|
    ensures [s[0]] + (s[1..][..j] + s[1..][j + 1..]) == s[..j + 1] + s[j + 2..]
  {
    assert s[..j + 1] == [s[0]] + s[1..][..j];
    assert s[j + 2..] == s[1..][j + 1..];
  }

  lemma FindDistinct<K, V>(s: seq<Entry<K, V>>, i: nat)
    requires Distinct(s) && i < |s|
    ensures Find(s, s[i].key) == Some(s[i].value)
  {
    if i > 0 {
      assert s[0].key != s[i].key;
      FindDistinct(s[1..], i - 1);
    }
  }

  lemma StepDistinct<K, V>(limits: Limits, s: seq<Entry<K, V>>, op: Op<K, V>)
    requires Distinct(s)
    ensures Distinct(Step(limits, s, op))
  {
    if !op.Clear? {
      WithoutDistinct(s, op.key);
    }
  }

  lemma WithoutDistinct<K, V>(s: seq<Entry<K, V>>, k: K)
    requires Distinct(s)
    ensures Distinct(Without(s, k)) && Find(Without(s, k), k) == None
  {
    if Find(s, k).Some? {
      var i := WithoutFound(s, k);
    } else {
      WithoutAt(s, k);
    }
  }

  // ----- the size bound -----

  lemma StepSize<K, V>(limits: Limits, s: seq<Entry<K, V>>, op: Op<K, V>)
    requires limits.maxSize > 0 && |s| <= limits.Capacity()
    ensures |Step(limits, s, op)| <= limits.Capacity()
  {
    if !op.Clear? && Find(s, op.key).Some? {
      var i := WithoutFound(s, op.key);
    }
  }

  /** A bounded cache never holds more than its capacity, whatever is done to it. */
  lemma {:induction false} SizeBound<K, V>(limits: Limits, s: seq<Entry<K, V>>, ops: seq<Op<K, V>>)
    requires limits.maxSize > 0 && |s| <= limits.Capacity()
    ensures |Run(limits, s, ops)| <= limits.Capacity()
    decreases |ops|
  {
    if ops != [] {
      StepSize(limits, s, ops[0]);
      SizeBound(limits, Step(limits, s, ops[0]), ops[1..]);
    }
  }

  // ----- recently used keys hit -----

  /** `s[i]` is an entry whose predecessors have all been touched since it was. */
  ghost predicate Behind<K(!new), V>(s: seq<Entry<K, V>>, i: nat, touched: set<K>) {
    && i < |s| && Distinct(s) && s[i].key !in touched
    && forall j :: 0 <= j < i ==> s[j].key in touched
  }

  /** Distinct predecessors are at most as many as the touched keys. */
  lemma {:induction false} BehindBound<K(!new), V>(s: seq<Entry<K, V>>, i: nat, touched: set<K>)
    requires Behind(s, i, touched)
    ensures i <= |touched|
    decreases i
  {
    if i > 0 {
      var k := s[0].key;
      BehindBound(s[1..], i - 1, touched - {k});
    }
  }

  /** Moving another key to the front, or dropping it, keeps `s[i]` behind touched keys only. */
  lemma BehindWithout<K(!new), V>(s: seq<Entry<K, V>>, i: nat, touched: set<K>, k: K) returns (at: nat)
    requires Behind(s, i, touched) && k != s[i].key
    ensures Behind(Without(s, k), at, touched) && Without(s, k)[at] == s[i] && Find(Without(s, k), k) == None
  {
    WithoutDistinct(s, k);
    if Find(s, k).Some? {
      var j := WithoutFound(s, k);
      at := BehindRemoved(s, i, touched, j, Without(s, k));
    } else {
      WithoutAt(s, k);
      at := i;
    }
  }

  lemma BehindRemoved<K(!new), V>(s: seq<Entry<K, V>>, i: nat, touched: set<K>, j: nat, t: seq<Entry<K, V>>)
    returns (at: nat)
    requires Behind(s, i, touched) && j < |s| && j != i && t == s[..j] + s[j + 1..]
    ensures at < |t| && t[at] == s[i] && forall m :: 0 <= m < at ==> t[m].key in touched
  {
    at := if j < i then i - 1 else i;
  }

  lemma BehindPut<K(!new), V>(s: seq<Entry<K, V>>, i: nat, touched: set<K>, e: Entry<K, V>)
    requires Behind(s, i, touched) && Find(s, e.key) == None
    ensures Behind([e] + s, i + 1, touched + {e.key}) && ([e] + s)[i + 1] == s[i]
  {
  }

  lemma BehindPruned<K(!new), V>(limits: Limits, s: seq<Entry<K, V>>, i: nat, touched: set<K>)
    requires Behind(s, i, touched) && (limits.maxSize == 0 || |touched| < limits.maxSize)
    ensures Behind(Pruned(limits, s), i, touched) && Pruned(limits, s)[i] == s[i]
  {
    BehindBound(s, i, touched);
  }

  /** One operation of a run. A hit on the key itself brings it to the front and clears the account. */
  lemma BehindStep<K(!new), V>(limits: Limits, s: seq<Entry<K, V>>, i: nat, touched: set<K>, op: Op<K, V>)
    returns (at: nat, now: set<K>)
    requires Behind(s, i, touched) && Spares(op, s[i].key)
    requires limits.maxSize == 0 || |touched + Touches(s, op) - {s[i].key}| < limits.maxSize
    ensures now <= touched + Touches(s, op) - {s[i].key}
    ensures Behind(Step(limits, s, op), at, now) && Step(limits, s, op)[at] == s[i]
  {
    var e := s[i];
    now, at := touched + Touches(s, op) - {e.key}, i;
    if op.Remove? {
      at := BehindWithout(s, i, touched, op.key);
    } else if op.key == e.key {
      FindDistinct(s, i);
      StepDistinct(limits, s, op);
      now, at := {}, 0;
    } else if Find(s, op.key).Some? {
      at := BehindWithout(s, i, touched, op.key);
      var value := if op.Put? then op.value else Find(s, op.key).value;
      BehindPut(Without(s, op.key), at, touched, Entry(op.key, value));
      at := at + 1;
    } else if op.Put? {
      BehindPut(s, i, touched, Entry(op.key, op.value));
      at := i + 1;
      BehindPruned(limits, [Entry(op.key, op.value)] + s, at, now);
    }
  }

  lemma {:induction false} StaysBehind<K(!new), V>(
      limits: Limits, s: seq<Entry<K, V>>, i: nat, touched: set<K>, ops: seq<Op<K, V>>)
    requires Behind(s, i, touched) && forall op :: op in ops ==> Spares(op, s[i].key)
    requires limits.maxSize == 0 || |touched + Touched(limits, s, ops) - {s[i].key}| < limits.maxSize
    ensures Find(Run(limits, s, ops), s[i].key) == Some(s[i].value)
    decreases |ops|
  {
    if ops == [] {
      FindDistinct(s, i);
    } else {
      var t := Step(limits, s, ops[0]);
      var k, all := s[i].key, touched + Touched(limits, s, ops) - {s[i].key};
      Fewer(touched + Touches(s, ops[0]) - {k}, all);
      var at, now := BehindStep(limits, s, i, touched, ops[0]);
      Fewer(now + Touched(limits, t, ops[1..]) - {k}, all);
      StaysBehind(limits, t, at, now, ops[1..]);
    }
  }

  lemma {:induction false} RunDistinct<K, V>(limits: Limits, s: seq<Entry<K, V>>, ops: seq<Op<K, V>>)
    requires Distinct(s)
    ensures Distinct(Run(limits, s, ops))
    decreases |ops|
  {
    if ops != [] {
      StepDistinct(limits, s, ops[0]);
      RunDistinct(limits, Step(limits, s, ops[0]), ops[1..]);
    }
  }

  lemma {:induction false} RunConcat<K, V>(limits: Limits, s: seq<Entry<K, V>>, a: seq<Op<K, V>>, b: seq<Op<K, V>>)
    ensures Run(limits, s, a + b) == Run(limits, Run(limits, s, a), b)
    decreases |a|
  {
    if a == [] {
      assert a + b == b;
    } else {
      assert (a + b)[1..] == a[1..] + b;
      RunConcat(limits, Step(limits, s, a[0]), a[1..], b);
    }
  }

  /**
   * Recently used keys hit. After any history, let `use` be a put of `k` or a get that finds it, and then do
   * anything that neither replaces nor drops it: as long as fewer than maxSize other keys have been touched
   * since, `k` is found with its value. An unbounded cache always finds it.
   */
  lemma RecentHit<K(!new), V>(
      limits: Limits, history: seq<Op<K, V>>, use: Op<K, V>, k: K, v: V, later: seq<Op<K, V>>)
    requires use == Put(k, v) || (use == Get(k) && Find(Run(limits, [], history), k) == Some(v))
    requires forall op :: op in later ==> Spares(op, k)
    requires
      var s := Run(limits, [], history + [use]);
      limits.maxSize == 0 || |Touched(limits, s, later) - {k}| < limits.maxSize
    ensures Find(Run(limits, [], history + [use] + later), k) == Some(v)
  {
    var before := Run(limits, [], history);
    var s := Step(limits, before, use);
    RunConcat(limits, [], history, [use]);
    RunConcat(limits, [], history + [use], later);
    assert [use][1..] == [];
    RunDistinct(limits, [], history);
    StepDistinct(limits, before, use);
    assert s[0] == Entry(k, v);
    assert {} + Touched(limits, s, later) - {k} == Touched(limits, s, later) - {k};
    StaysBehind(limits, s, 0, {}, later);
  }
}
