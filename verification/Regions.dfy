/** Hash ranges: how servers split and publish them, and how clients look them up. */
module Regions {
  import opened Counting
  import opened JumpHash
  import opened Options
  import opened Powers
  import opened Sizes

  const HASH_RANGE: nat := 1024

  type Id = int

  /** A closed range of hash values. */
  datatype Range = Range(start: nat, end: nat) {
    predicate Has(h: nat) {
      start <= h <= end
    }
  }

  type RegionMap = map<Id, Range>

  // ----- partitions -----

  /** Some region has h. */
  ghost predicate Covered(p: RegionMap, h: nat) {
    exists id :: id in p && p[id].Has(h)
  }

  /** Every hash up to hi is in exactly one region, and no region goes beyond. */
  ghost predicate Exact(p: RegionMap, hi: nat) {
    && (forall h: nat :: h <= hi ==> Covered(p, h))
    && (forall id, h: nat :: id in p && p[id].Has(h) ==> h <= hi)
    && (forall i, j, h: nat :: i in p && j in p && p[i].Has(h) && p[j].Has(h) ==> i == j)
  }

  ghost predicate NonEmpty(p: RegionMap) {
    forall id :: id in p ==> p[id].start <= p[id].end
  }

  function LeftPart(r: Range): Range {
    Range(r.start, r.end / 2)
  }

  function RightPart(r: Range): Range {
    Range(r.end / 2 + 1, r.end)
  }

  /** What publishing a split does to the map. */
  function Split(p: RegionMap, left: Id, id: Id): RegionMap
    requires left in p
  {
    (p - {left})[id := RightPart(p[left])][left := LeftPart(p[left])]
  }

  /** The halving point is computed from the end alone, so a split keeps every hash in one region exactly when
      the region starts no later than the upper half. */
  lemma SplitExactly(p: RegionMap, hi: nat, left: Id, id: Id)
    requires Exact(p, hi) && left in p && id !in p && p[left].end >= 2
    ensures Exact(Split(p, left, id), hi) <==> p[left].start <= p[left].end / 2 + 1
  {
    if p[left].start <= p[left].end / 2 + 1 {
      SplitKeeps(p, hi, left, id);
    } else {
      SplitBreaks(p, hi, left, id);
    }
  }

  lemma SplitKeeps(p: RegionMap, hi: nat, left: Id, id: Id)
    requires Exact(p, hi) && left in p && id !in p && p[left].start <= p[left].end / 2 + 1
    ensures Exact(Split(p, left, id), hi)
  {
    var q := Split(p, left, id);
    forall h: nat ensures q[left].Has(h) || q[id].Has(h) <==> p[left].Has(h) {}
    forall h: nat | h <= hi ensures Covered(q, h) {
      assert Covered(p, h);
      var i :| i in p && p[i].Has(h);
      if i == left {
        assert q[left].Has(h) || q[id].Has(h);
      } else {
        assert q[i].Has(h);
      }
    }
  }

  lemma SplitBreaks(p: RegionMap, hi: nat, left: Id, id: Id)
    requires Exact(p, hi) && left in p && id !in p && p[left].end / 2 + 1 < p[left].start && p[left].end >= 2
    ensures !Exact(Split(p, left, id), hi)
  {
    var q, h := Split(p, left, id), p[left].end / 2 + 1;
    assert q[id].Has(h);
    if h <= hi {
      assert Covered(p, h);
      var i :| i in p && p[i].Has(h);
      assert q[i].Has(h);
    }
  }

  /** No region becomes empty exactly when the region starts in the lower half. */
  lemma SplitNonEmptyExactly(p: RegionMap, left: Id, id: Id)
    requires NonEmpty(p) && left in p && id !in p && p[left].end >= 2
    ensures NonEmpty(Split(p, left, id)) <==> p[left].start <= p[left].end / 2
  {
    var q := Split(p, left, id);
    assert left in q && q[left] == LeftPart(p[left]);
  }

  /** Splitting an upper half again leaves its region empty, and once more makes regions overlap. */
  lemma UpperHalvesDoNotSplit()
    ensures
      var p := map[0 := Range(0, 511), 1 := Range(512, 1023)];
      var q := Split(p, 1, 2);
      && Exact(p, 1023) && NonEmpty(p)
      && Exact(q, 1023) && !NonEmpty(q) && q[1] == Range(512, 511)
      && !Exact(Split(q, 1, 3), 1023)
  {
    var p := map[0 := Range(0, 511), 1 := Range(512, 1023)];
    forall h: nat | h <= 1023 ensures Covered(p, h) {
      assert p[if h <= 511 then 0 else 1].Has(h);
    }
    SplitExactly(p, 1023, 1, 2);
    SplitNonEmptyExactly(p, 1, 2);
    SplitExactly(Split(p, 1, 2), 1023, 1, 3);
  }

  // ----- the servers -----

  datatype Status = Normal | IsSplit | SplitAlmostDone

  datatype Region = Region(range: Range, status: Status)

  /** A region created for a split and not yet handed over. */
  datatype Pending = Pending(left: Id, range: Range)

  datatype System = System(published: RegionMap, regions: map<Id, Region>, pending: map<Id, Pending>, nextId: Id)

  function InitialRange(server: nat): Range {
    Range(server * HASH_RANGE, (server + 1) * HASH_RANGE - 1)
  }

  /** register_region on every one of n servers. */
  function Registered(n: nat): System {
    System(
      map i: Id | 0 <= i < n :: InitialRange(i),
      map i: Id | 0 <= i < n :: Region(InitialRange(i), Normal),
      map[], n)
  }

  datatype Step =
    | Begin(left: Id, id: Id)  // check_region_and_split, after the status moved from Normal to IsSplit
    | Publish(id: Id)          // the log of the split is almost sent
    | Finish(id: Id)           // the target server has all of it

  /** A publish that would leave the left region without hash values above 0 stops the server instead. */
  predicate Enabled(s: System, step: Step) {
    match step
    case Begin(left, id) => left in s.regions && s.regions[left].status == Normal && id >= s.nextId
    case Publish(id) =>
      && id in s.pending && s.pending[id].left in s.regions && s.regions[s.pending[id].left].status == IsSplit
      && s.pending[id].left in s.published && s.regions[s.pending[id].left].range.end / 2 > 0
    case Finish(id) =>
      && id in s.pending && s.pending[id].left in s.regions
      && s.regions[s.pending[id].left].status == SplitAlmostDone
  }

  function Apply(s: System, step: Step): System
    requires Enabled(s, step)
  {
    match step
    case Begin(left, id) =>
      var r := s.regions[left];
      s.(regions := s.regions[left := r.(status := IsSplit)],
         pending := s.pending[id := Pending(left, RightPart(r.range))], nextId := id + 1)
    case Publish(id) =>
      var left := s.pending[id].left;
      var shrunk := LeftPart(s.regions[left].range);
      s.(published := (s.published - {left})[id := s.pending[id].range][left := shrunk],
         regions := s.regions[left := Region(shrunk, SplitAlmostDone)])
    case Finish(id) =>
      var left := s.pending[id].left;
      s.(regions := s.regions[left := s.regions[left].(status := Normal)][id := Region(s.pending[id].range, Normal)],
         pending := s.pending - {id})
  }

  ghost predicate BeingSplit(s: System, left: Id) {
    exists id :: id in s.pending && s.pending[id].left == left
  }

  /** Servers and the published map agree; a pending split is the upper part of what its region still has; and the
      regions whose status is not normal are those with a pending split. */
  ghost predicate Consistent(s: System) {
    && (forall id :: id in s.regions ==> (s.regions[id].status == Normal <==> !BeingSplit(s, id)))
    && (forall id :: id in s.regions ==> id in s.published && s.published[id] == s.regions[id].range)
    && (forall id :: id in s.pending ==> PendingFits(s, id))
    && (forall i, j :: i in s.pending && j in s.pending && s.pending[i].left == s.pending[j].left ==> i == j)
    && (forall id :: id in s.published ==> id < s.nextId && (id in s.regions || id in s.pending))
    && (forall id :: id in s.pending ==> id < s.nextId)
  }

  ghost predicate PendingFits(s: System, id: Id)
    requires id in s.pending
  {
    var left, range := s.pending[id].left, s.pending[id].range;
    && id !in s.regions && left in s.regions
    && match s.regions[left].status
       case Normal => false
       case IsSplit => id !in s.published && range == RightPart(s.regions[left].range)
       case SplitAlmostDone => id in s.published && s.published[id] == range
  }

  lemma ConsistentStep(s: System, step: Step)
    requires Consistent(s) && Enabled(s, step)
    ensures Consistent(Apply(s, step))
    ensures Apply(s, step).published ==
      if step.Publish? then Split(s.published, s.pending[step.id].left, step.id) else s.published
  {
    var t := Apply(s, step);
    match step
    case Begin(left, id) => BeginConsistent(s, left, id);
    case Publish(id) => PublishConsistent(s, id);
    case Finish(id) => FinishConsistent(s, id);
  }

  lemma BeginConsistent(s: System, left: Id, id: Id)
    requires Consistent(s) && Enabled(s, Begin(left, id))
    ensures Consistent(Apply(s, Begin(left, id)))
  {
    var t := Apply(s, Begin(left, id));
    forall i | i in t.pending ensures PendingFits(t, i) {
      if i != id {
        assert PendingFits(s, i);
      }
    }
    forall i | i in s.pending ensures s.pending[i].left != left && t.pending[i] == s.pending[i] {
      assert PendingFits(s, i);
    }
    assert t.pending[id].left == left;
    forall r ensures BeingSplit(t, r) <==> r == left || BeingSplit(s, r) {}
  }

  lemma PublishConsistent(s: System, id: Id)
    requires Consistent(s) && Enabled(s, Publish(id))
    ensures Consistent(Apply(s, Publish(id)))
    ensures Apply(s, Publish(id)).published == Split(s.published, s.pending[id].left, id)
  {
    var t := Apply(s, Publish(id));
    assert PendingFits(s, id);
    forall i | i in t.pending ensures PendingFits(t, i) {
      assert PendingFits(s, i);
    }
  }

  lemma FinishConsistent(s: System, id: Id)
    requires Consistent(s) && Enabled(s, Finish(id))
    ensures Consistent(Apply(s, Finish(id)))
  {
    var t := Apply(s, Finish(id));
    assert PendingFits(s, id);
    forall i | i in t.pending ensures PendingFits(t, i) && s.pending[i].left != id {
      assert PendingFits(s, i);
    }
    forall r ensures BeingSplit(t, r) <==> r != s.pending[id].left && BeingSplit(s, r) {
      if i :| i in s.pending && i != id && s.pending[i].left == r {
        assert t.pending[i].left == r;
      }
    }
  }

  // ----- runs -----

  ghost predicate Run(states: seq<System>, steps: seq<Step>) {
    && |states| == |steps| + 1
    && forall i :: 0 <= i < |steps| ==> Enabled(states[i], steps[i]) && states[i + 1] == Apply(states[i], steps[i])
  }

  /** The region that a publish splits. */
  predicate Publishes(s: System, step: Step, left: Id) {
    step.Publish? && step.id in s.pending && s.pending[step.id].left == left && left in s.published
  }

  /** A publish splits a region that starts in its lower half. */
  predicate Halves(s: System, step: Step) {
    forall left :: left in s.published && Publishes(s, step, left) ==>
      s.published[left].start <= s.published[left].end / 2
  }

  /** A publish splits a region that starts no later than its upper half. */
  predicate Meets(s: System, step: Step) {
    forall left :: left in s.published && Publishes(s, step, left) ==>
      s.published[left].start <= s.published[left].end / 2 + 1
  }

  /** One step keeps every hash in one region, and every region non-empty, under exactly those conditions. */
  lemma StepExactly(s: System, step: Step, hi: nat)
    requires Consistent(s) && Exact(s.published, hi) && Enabled(s, step)
    ensures Exact(Apply(s, step).published, hi) <==> Meets(s, step)
    ensures NonEmpty(s.published) ==> (NonEmpty(Apply(s, step).published) <==> Halves(s, step))
    ensures Halves(s, step) ==> Meets(s, step)
  {
    ConsistentStep(s, step);
    if step.Publish? {
      var left := s.pending[step.id].left;
      assert PendingFits(s, step.id);
      assert Publishes(s, step, left);
      SplitExactly(s.published, hi, left, step.id);
      if NonEmpty(s.published) {
        SplitNonEmptyExactly(s.published, left, step.id);
      }
    }
  }

  ghost predicate Partitioned(s: System, hi: nat) {
    Exact(s.published, hi) && NonEmpty(s.published)
  }

  lemma RegisteredPartition(n: nat)
    requires n > 0
    ensures Consistent(Registered(n)) && Partitioned(Registered(n), n * HASH_RANGE - 1)
  {
    var p := Registered(n).published;
    forall h: nat | h <= n * HASH_RANGE - 1 ensures Covered(p, h) {
      assert p[h / HASH_RANGE].Has(h);
    }
    forall i, h: nat | i in p && p[i].Has(h) ensures i == h / HASH_RANGE && h <= n * HASH_RANGE - 1 {}
  }

  lemma {:induction false} ConsistentThroughout(states: seq<System>, steps: seq<Step>, n: nat, k: nat)
    requires n > 0 && Run(states, steps) && states[0] == Registered(n) && k < |states|
    ensures Consistent(states[k])
  {
    if k == 0 {
      RegisteredPartition(n);
    } else {
      ConsistentThroughout(states, steps, n, k - 1);
      assert Enabled(states[k - 1], steps[k - 1]);
      ConsistentStep(states[k - 1], steps[k - 1]);
    }
  }

  lemma {:induction false} ExactUpTo(states: seq<System>, steps: seq<Step>, n: nat, k: nat)
    requires n > 0 && Run(states, steps) && states[0] == Registered(n) && k < |states|
    requires forall i :: 0 <= i < k ==> Meets(states[i], steps[i])
    ensures Exact(states[k].published, n * HASH_RANGE - 1)
    ensures (forall i :: 0 <= i < k ==> Halves(states[i], steps[i])) ==> NonEmpty(states[k].published)
  {
    if k == 0 {
      RegisteredPartition(n);
    } else {
      ExactUpTo(states, steps, n, k - 1);
      ConsistentThroughout(states, steps, n, k - 1);
      assert Enabled(states[k - 1], steps[k - 1]);
      StepExactly(states[k - 1], steps[k - 1], n * HASH_RANGE - 1);
    }
  }

  lemma MeetsAfterExact(states: seq<System>, steps: seq<Step>, n: nat, i: nat)
    requires n > 0 && Run(states, steps) && states[0] == Registered(n) && i < |steps|
    requires Exact(states[i].published, n * HASH_RANGE - 1) && Exact(states[i + 1].published, n * HASH_RANGE - 1)
    ensures Meets(states[i], steps[i])
    ensures NonEmpty(states[i].published) && NonEmpty(states[i + 1].published) ==> Halves(states[i], steps[i])
  {
    ConsistentThroughout(states, steps, n, i);
    assert Enabled(states[i], steps[i]);
    StepExactly(states[i], steps[i], n * HASH_RANGE - 1);
  }

  /** In every run from any number of registered servers, every hash is in exactly one published region at every
      moment if and only if every published split is of a region that starts no later than its upper half. */
  lemma ExactThroughout(states: seq<System>, steps: seq<Step>, n: nat)
    requires n > 0 && Run(states, steps) && states[0] == Registered(n)
    ensures (forall k :: 0 <= k < |states| ==> Exact(states[k].published, n * HASH_RANGE - 1)) <==>
            (forall i :: 0 <= i < |steps| ==> Meets(states[i], steps[i]))
  {
    var hi := n * HASH_RANGE - 1;
    if forall k :: 0 <= k < |states| ==> Exact(states[k].published, hi) {
      forall i | 0 <= i < |steps| ensures Meets(states[i], steps[i]) {
        MeetsAfterExact(states, steps, n, i);
      }
    }
    if forall i :: 0 <= i < |steps| ==> Meets(states[i], steps[i]) {
      forall k | 0 <= k < |states| ensures Exact(states[k].published, hi) {
        ExactUpTo(states, steps, n, k);
      }
    }
  }

  /** The published regions are non-empty and partition the hash values at every moment if and only if every
      published split is of a region that starts in its lower half. */
  lemma PartitionThroughout(states: seq<System>, steps: seq<Step>, n: nat)
    requires n > 0 && Run(states, steps) && states[0] == Registered(n)
    ensures (forall k :: 0 <= k < |states| ==> Partitioned(states[k], n * HASH_RANGE - 1)) <==>
            (forall i :: 0 <= i < |steps| ==> Halves(states[i], steps[i]))
  {
    var hi := n * HASH_RANGE - 1;
    if forall k :: 0 <= k < |states| ==> Partitioned(states[k], hi) {
      forall i | 0 <= i < |steps| ensures Halves(states[i], steps[i]) {
        assert Partitioned(states[i], hi) && Partitioned(states[i + 1], hi);
        MeetsAfterExact(states, steps, n, i);
      }
    }
    if forall i :: 0 <= i < |steps| ==> Halves(states[i], steps[i]) {
      forall i | 0 <= i < |steps| ensures Meets(states[i], steps[i]) {
        assert Halves(states[i], steps[i]);
      }
      forall k | 0 <= k < |states| ensures Partitioned(states[k], hi) {
        ExactUpTo(states, steps, n, k);
      }
    }
  }

  /** The first split of a registered region: server 1's leaves it empty, and a later server's takes hashes from
      the region before it. */
  lemma FirstSplitExactly(n: nat, i: nat, id: Id)
    requires i < n <= id
    ensures
      var p := Registered(n).published;
      && (Exact(Split(p, i, id), n * HASH_RANGE - 1) <==> i <= 1)
      && (NonEmpty(Split(p, i, id)) <==> i == 0)
  {
    RegisteredPartition(n);
    SplitExactly(Registered(n).published, n * HASH_RANGE - 1, i, id);
    SplitNonEmptyExactly(Registered(n).published, i, id);
  }

  // ----- the shape of the ranges -----

  /** [0, 2^k - 1] or [2^k, 2^(k+1) - 1] */
  ghost predicate Dyadic(r: Range) {
    exists k: nat :: r == Range(0, Pow2(k) - 1) || r == Range(Pow2(k), Pow2(k + 1) - 1)
  }

  ghost predicate HalvesLowest(s: System, id: Id) {
    id in s.pending && s.pending[id].left in s.published && s.published[s.pending[id].left].start == 0
  }

  lemma DyadicParts(r: Range)
    requires Dyadic(r) && r.start <= r.end / 2 && r.end >= 2
    ensures Dyadic(LeftPart(r)) && Dyadic(RightPart(r)) && r.start == 0
  {
    var k: nat :| r == Range(0, Pow2(k) - 1) || r == Range(Pow2(k), Pow2(k + 1) - 1);
    assert k > 0;
    assert LeftPart(r) == Range(0, Pow2(k - 1) - 1);
    assert RightPart(r) == Range(Pow2(k - 1), Pow2(k - 1 + 1) - 1);
  }

  /** A range that a run can publish: dyadic, or the untouched range of a server other than the first. */
  ghost predicate Reached(r: Range, n: nat) {
    Dyadic(r) || exists i: nat :: 1 <= i < n && r == InitialRange(i)
  }

  lemma LaterServersDoNotHalve(r: Range, n: nat)
    requires exists i: nat :: 1 <= i < n && r == InitialRange(i)
    ensures r.start > r.end / 2
  {
    var i: nat :| 1 <= i < n && r == InitialRange(i);
    assert i * HASH_RANGE >= HASH_RANGE;
  }

  lemma ReachedParts(r: Range, n: nat)
    requires Reached(r, n) && r.start <= r.end / 2 && r.end >= 2
    ensures Dyadic(LeftPart(r)) && Dyadic(RightPart(r)) && r.start == 0
  {
    assert Dyadic(r) by {
      if exists i: nat :: 1 <= i < n && r == InitialRange(i) {
        LaterServersDoNotHalve(r, n);
      }
    }
    DyadicParts(r);
  }

  /** In every such run, from any number of servers, only the region at 0 is ever halved: every published range is
      [0, 2^k - 1] or [2^k, 2^(k+1) - 1], or still the initial range of a server other than the first. */
  lemma {:induction false} DyadicThroughout(states: seq<System>, steps: seq<Step>, n: nat, k: nat)
    requires n > 0 && Run(states, steps) && states[0] == Registered(n) && k < |states|
    requires forall i :: 0 <= i < k ==> Halves(states[i], steps[i])
    ensures forall id :: id in states[k].published ==> Reached(states[k].published[id], n)
    ensures k > 0 && steps[k - 1].Publish? ==> HalvesLowest(states[k - 1], steps[k - 1].id)
  {
    if k == 0 {
      assert Pow2(10) == 1024 by { Pow2Byte(2); }
      assert Dyadic(InitialRange(0));
    } else {
      var s, step := states[k - 1], steps[k - 1];
      DyadicThroughout(states, steps, n, k - 1);
      ConsistentThroughout(states, steps, n, k - 1);
      assert Enabled(s, step) && Halves(s, step);
      ConsistentStep(s, step);
      if step.Publish? {
        var left := s.pending[step.id].left;
        assert PendingFits(s, step.id) && Publishes(s, step, left);
        ReachedParts(s.published[left], n);
      }
    }
  }

  // ----- whose region a new one becomes -----

  /** Jump hashing places the key in bucket b of n. */
  ghost predicate Owner(g: Jumper, key: nat, n: int, b: int) {
    exists i: nat :: LandsAt(g, key, n, i) && JumpAt(g, key, i) == b
  }

  lemma OneBucket(g: Jumper, key: nat)
    requires g.Ahead() && key < TWO64
    ensures Owner(g, key, 1, 0)
  {
    OneAhead(g, key, 0);
    assert LandsAt(g, key, 1, 0);
  }

  /** The ids from `next` on, `turns` more than one of them, are all the server's own. */
  predicate AllOwn(own: Id -> bool, next: Id, turns: nat) {
    forall i :: next <= i <= next + turns ==> own(i)
  }

  /** The search ends if and only if some id from the counter on belongs to another server. */
  lemma SearchEndsExactly(own: Id -> bool, next: Id)
    ensures (exists turns: nat :: !AllOwn(own, next, turns)) <==> exists i :: next <= i && !own(i)
  {
    if i :| next <= i && !own(i) {
      assert !AllOwn(own, next, i - next);
    }
  }

  /** With one server every id is its own, so its search goes on after any number of turns and no split begins. */
  lemma OneServerNeverSplits(g: Jumper, own: Id -> bool, next: Id, turns: nat)
    requires g.Ahead() && forall id :: own(id) <==> Owner(g, id % TWO64, 1, 0)
    ensures AllOwn(own, next, turns)
  {
    forall id | next <= id <= next + turns ensures own(id) {
      OneBucket(g, id % TWO64);
    }
  }

  // ----- the servers' state as it is kept -----

  /** Some servers have registered, each taking one id. */
  function RegisteredSet(done: set<nat>): System {
    System(
      map i: Id | i in done :: InitialRange(i),
      map i: Id | i in done :: Region(InitialRange(i), Normal),
      map[], |done|)
  }

  ghost function Firsts(order: seq<nat>, n: nat): set<nat>
    requires n <= |order|
  {
    set i | 0 <= i < n :: order[i]
  }

  lemma AllRegistered(order: seq<nat>, done: set<nat>)
    requires forall i :: 0 <= i < |order| ==> order[i] < |order|
    requires done == Firsts(order, |order|) && |done| == |order|
    ensures RegisteredSet(done) == Registered(|order|)
  {
    var all := Between(0, |order|);
    assert done <= all;
    if done != all {
      ProperlyFewer(done, all);
    }
  }

  /** A search in progress: the status is taken and ids are used up, but no split has begun. */
  function Searching(s: System, left: Id, turns: nat): System
    requires left in s.regions
  {
    s.(regions := s.regions[left := s.regions[left].(status := IsSplit)], nextId := s.nextId + turns + 1)
  }

  class Servers {
    var globalRegionMap: RegionMap
    var regionMap: map<Id, Region>
    var splits: map<Id, Pending>
    var globalRegionId: Id

    ghost function View(): System
      reads this
    {
      System(globalRegionMap, regionMap, splits, globalRegionId)
    }

    /** All servers, registering in any order. */
    constructor (order: seq<nat>)
      requires forall i, j :: 0 <= i < j < |order| ==> order[i] != order[j]
      requires forall i :: 0 <= i < |order| ==> order[i] < |order|
      ensures View() == Registered(|order|)
    {
      globalRegionMap, regionMap, splits, globalRegionId := map[], map[], map[], 0;
      new;
      ghost var done: set<nat> := {};
      for i := 0 to |order|
        invariant done == Firsts(order, i) && View() == RegisteredSet(done) && |done| == i
      {
        RegisterRegion(order[i], done);
        done := done + {order[i]};
      }
      AllRegistered(order, done);
    }

    /** One more server has registered. */
    method RegisterRegion(server: nat, ghost done: set<nat>)
      requires View() == RegisteredSet(done) && server !in done
      modifies this
      ensures View() == RegisteredSet(done + {server})
    {
      globalRegionId := globalRegionId + 1;
      regionMap := regionMap[server := Region(InitialRange(server), Normal)];
      globalRegionMap := globalRegionMap[server := InitialRange(server)];
    }

    /** The status exchange and check_region_and_split, with at most `turns` more turns of the search for an id that
        jump hashing places on another server. When it finds one, a split has begun; else the search goes on. */
    method CheckRegionAndSplit(left: Id, own: Id -> bool, turns: nat) returns (r: Option<Id>)
      requires left in regionMap && regionMap[left].status == Normal
      modifies this
      ensures r.None? <==> AllOwn(own, old(globalRegionId), turns)
      ensures r.None? ==> View() == Searching(old(View()), left, turns)
      ensures r.Some? ==>
        && Enabled(old(View()), Begin(left, r.value)) && View() == Apply(old(View()), Begin(left, r.value))
        && !own(r.value) && forall i :: old(globalRegionId) <= i < r.value ==> own(i)
    {
      regionMap := regionMap[left := regionMap[left].(status := IsSplit)];
      var range := RightPart(regionMap[left].range);
      var id := globalRegionId;
      globalRegionId := globalRegionId + 1;
      var turn := 0;
      while own(id)
        invariant turn <= turns && id == old(globalRegionId) + turn && globalRegionId == id + 1
        invariant unchanged(`globalRegionMap) && unchanged(`splits)
        invariant regionMap == old(regionMap)[left := old(regionMap[left]).(status := IsSplit)]
        invariant forall i :: old(globalRegionId) <= i < id ==> own(i)
        decreases turns - turn
      {
        if turn == turns {
          return None;
        }
        id := globalRegionId;
        globalRegionId := globalRegionId + 1;
        turn := turn + 1;
      }
      splits := splits[id := Pending(left, range)];
      return Some(id);
    }

    /** The publish step of rpc_send_region_log; false when an assertion stops the server. */
    method PublishSplit(id: Id) returns (ok: bool)
      requires id in splits && splits[id].left in regionMap && regionMap[splits[id].left].status == IsSplit
      modifies this
      ensures ok <==> Enabled(old(View()), Publish(id))
      ensures ok ==> View() == Apply(old(View()), Publish(id))
    {
      var left := splits[id].left;
      if left !in globalRegionMap {
        return false;
      }
      globalRegionMap := globalRegionMap - {left};
      var shrunk := LeftPart(regionMap[left].range);
      if shrunk.end <= 0 {
        return false;
      }
      regionMap := regionMap[left := Region(shrunk, SplitAlmostDone)];
      globalRegionMap := globalRegionMap[id := splits[id].range];
      globalRegionMap := globalRegionMap[left := shrunk];
      return true;
    }

    method FinishSplit(id: Id)
      requires Enabled(View(), Finish(id))
      modifies this
      ensures View() == Apply(old(View()), Finish(id))
    {
      var left := splits[id].left;
      regionMap := regionMap[left := regionMap[left].(status := Normal)];
      regionMap := regionMap[id := Region(splits[id].range, Normal)];
      splits := splits - {id};
    }
  }
}

/** The client's copy of the region map. */
module RegionLookup {
  import opened Regions

  datatype Entry = Entry(id: Id, range: Range)

  /** region_cmp_func. */
  predicate Less(a: Range, b: Range) {
    a.end < b.start
  }

  ghost predicate Sorted(s: seq<Entry>) {
    forall i, j :: 0 <= i < j < |s| ==> Less(s[i].range, s[j].range)
  }

  ghost predicate Proper(s: seq<Entry>) {
    forall i :: 0 <= i < |s| ==> s[i].range.start <= s[i].range.end
  }

  ghost predicate Apart(a: Range, b: Range) {
    Less(a, b) || Less(b, a)
  }

  /** The entries of a region map, each once. */
  ghost predicate Lists(s: seq<Entry>, p: RegionMap) {
    && (forall i :: 0 <= i < |s| ==> s[i].id in p && p[s[i].id] == s[i].range)
    && (forall id :: id in p ==> exists i :: 0 <= i < |s| && s[i].id == id)
    && (forall i, j :: 0 <= i < j < |s| ==> s[i].id != s[j].id)
  }

  /** std::map::insert: no effect when an equivalent key, which is an overlapping range, is there. */
  method Insert(s: seq<Entry>, e: Entry) returns (t: seq<Entry>)
    requires Sorted(s) && Proper(s) && e.range.start <= e.range.end
    ensures Sorted(t) && Proper(t)
    ensures (exists i :: 0 <= i < |s| && !Apart(s[i].range, e.range)) ==> t == s
    ensures (forall i :: 0 <= i < |s| ==> Apart(s[i].range, e.range)) ==>
      exists k :: 0 <= k <= |s| && t == s[..k] + [e] + s[k..]
  {
    var k := 0;
    while k < |s| && Less(s[k].range, e.range)
      invariant 0 <= k <= |s| && forall i :: 0 <= i < k ==> Less(s[i].range, e.range)
    {
      k := k + 1;
    }
    if k < |s| && !Less(e.range, s[k].range) {
      return s;
    }
    t := s[..k] + [e] + s[k..];
    InsertedSorted(s, e, k);
  }

  lemma InsertedSorted(s: seq<Entry>, e: Entry, k: nat)
    requires Sorted(s) && Proper(s) && e.range.start <= e.range.end && k <= |s|
    requires forall i :: 0 <= i < k ==> Less(s[i].range, e.range)
    requires k < |s| ==> Less(e.range, s[k].range)
    ensures Sorted(s[..k] + [e] + s[k..]) && Proper(s[..k] + [e] + s[k..])
    ensures forall i :: 0 <= i < |s| ==> Apart(s[i].range, e.range)
  {
    forall i | k <= i < |s| ensures Less(e.range, s[i].range) {
      if i > k {
        assert Less(s[k].range, s[i].range);
      }
    }
  }

  /** Reading a region map: the entries in any order, inserted one by one. */
  method ReadRegionMap(entries: seq<Entry>) returns (s: seq<Entry>)
    requires Proper(entries) && forall i, j :: 0 <= i < j < |entries| ==> Apart(entries[i].range, entries[j].range)
    ensures Sorted(s) && Proper(s) && multiset(s) == multiset(entries)
  {
    s := [];
    assert entries[..0] == [];
    for n := 0 to |entries|
      invariant Sorted(s) && Proper(s) && multiset(s) == multiset(entries[..n])
    {
      assert entries[..n + 1] == entries[..n] + [entries[n]];
      StillApart(entries, n, s);
      ghost var before := s;
      s := Insert(s, entries[n]);
      OneMore(before, entries[n], s);
    }
    assert entries[..|entries|] == entries;
  }

  lemma StillApart(entries: seq<Entry>, n: nat, s: seq<Entry>)
    requires n < |entries| && multiset(s) == multiset(entries[..n])
    requires forall i, j :: 0 <= i < j < |entries| ==> Apart(entries[i].range, entries[j].range)
    ensures forall i :: 0 <= i < |s| ==> Apart(s[i].range, entries[n].range)
  {
    forall i | 0 <= i < |s| ensures Apart(s[i].range, entries[n].range) {
      assert s[i] in multiset(s);
      assert s[i] in entries[..n];
    }
  }

  lemma OneMore(s: seq<Entry>, e: Entry, t: seq<Entry>)
    requires exists k :: 0 <= k <= |s| && t == s[..k] + [e] + s[k..]
    ensures multiset(t) == multiset(s) + multiset{e}
  {
    var k :| 0 <= k <= |s| && t == s[..k] + [e] + s[k..];
    assert s == s[..k] + s[k..];
  }

  /** `id` belongs to a region of the map that has the hash, or is -1 when none has. */
  ghost predicate Answers(s: seq<Entry>, h: nat, id: Id) {
    if exists i :: 0 <= i < |s| && s[i].range.Has(h)
    then exists i :: 0 <= i < |s| && s[i].range.Has(h) && s[i].id == id
    else id == -1
  }

  /** find_region_id: a linear scan. */
  method FindRegionId(s: seq<Entry>, h: nat) returns (id: Id)
    ensures Answers(s, h, id)
  {
    var i := 0;
    while i < |s|
      invariant 0 <= i <= |s| && forall k :: 0 <= k < i ==> !s[k].range.Has(h)
    {
      if h >= s[i].range.start && h <= s[i].range.end {
        assert s[i].range.Has(h);
        return s[i].id;
      }
      i := i + 1;
    }
    return -1;
  }

  /** std::map::find of the range [h, h] under region_cmp_func: the lower bound, then the equivalence test. */
  method FindByOrder(s: seq<Entry>, h: nat) returns (id: Id)
    requires Sorted(s) && Proper(s)
    ensures Answers(s, h, id)
  {
    var key := Range(h, h);
    var lo, hi := 0, |s|;
    while lo < hi
      invariant 0 <= lo <= hi <= |s|
      invariant forall i :: 0 <= i < lo ==> Less(s[i].range, key)
      invariant forall i :: hi <= i < |s| ==> !Less(s[i].range, key)
    {
      var mid := (lo + hi) / 2;
      if Less(s[mid].range, key) {
        forall i | 0 <= i < mid ensures Less(s[i].range, key) {
          assert Less(s[i].range, s[mid].range);
        }
        lo := mid + 1;
      } else {
        forall i | mid < i < |s| ensures !Less(s[i].range, key) {
          assert Less(s[mid].range, s[i].range);
        }
        hi := mid;
      }
    }
    if lo < |s| && !Less(key, s[lo].range) {
      assert s[lo].range.Has(h);
      return s[lo].id;
    }
    forall i | lo < i < |s| ensures !s[i].range.Has(h) {
      assert Less(s[lo].range, s[i].range);
    }
    return -1;
  }

  lemma ListedApart(s: seq<Entry>, p: RegionMap, hi: nat)
    requires Lists(s, p) && Exact(p, hi) && NonEmpty(p)
    ensures Proper(s) && forall i, j :: 0 <= i < j < |s| ==> Apart(s[i].range, s[j].range)
  {
    forall i, j | 0 <= i < j < |s| ensures Apart(s[i].range, s[j].range) {
      var a, b := s[i].range, s[j].range;
      if !Apart(a, b) {
        var h := if a.start < b.start then b.start else a.start;
        assert p[s[i].id].Has(h) && p[s[j].id].Has(h);
        assert false;
      }
    }
  }

  /** Whatever order the entries arrive in, every hash is found in the one region that has it, by the linear
      scan and by ordered search alike. */
  method Locate(entries: seq<Entry>, p: RegionMap, hi: nat, h: nat) returns (id: Id, byOrder: Id)
    requires Lists(entries, p) && Exact(p, hi) && NonEmpty(p) && h <= hi
    ensures id == byOrder && id in p && p[id].Has(h) && forall j :: j in p && p[j].Has(h) ==> j == id
  {
    ListedApart(entries, p, hi);
    var s := ReadRegionMap(entries);
    id := FindRegionId(s, h);
    byOrder := FindByOrder(s, h);
    Present(entries, s, p, h, hi);
    OnlyAnswer(entries, s, p, h, id);
    OnlyAnswer(entries, s, p, h, byOrder);
  }

  lemma OnlyAnswer(entries: seq<Entry>, s: seq<Entry>, p: RegionMap, h: nat, id: Id)
    requires Lists(entries, p) && multiset(s) == multiset(entries)
    requires Answers(s, h, id) && exists i :: 0 <= i < |s| && s[i].range.Has(h)
    ensures id in p && p[id].Has(h)
  {
    var i :| 0 <= i < |s| && s[i].range.Has(h) && s[i].id == id;
    assert s[i] in multiset(s);
    assert s[i] in entries;
  }

  lemma Present(entries: seq<Entry>, s: seq<Entry>, p: RegionMap, h: nat, hi: nat)
    requires Lists(entries, p) && multiset(s) == multiset(entries) && Exact(p, hi) && h <= hi
    ensures exists i :: 0 <= i < |s| && s[i].range.Has(h)
  {
    assert Covered(p, h);
    var id :| id in p && p[id].Has(h);
    var i :| 0 <= i < |entries| && entries[i].id == id;
    assert entries[i] in multiset(entries);
    assert entries[i] in s;
  }
}
