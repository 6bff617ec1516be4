/**
 * The writer-preferring reader/writer lock as a state machine. Each call of lockRead or lockWrite is a
 * request. The critical sections under the mutex are the steps; a wait on a condition variable splits
 * lockRead and lockWrite into one step on entry and one for every time the request is woken.
 */
module RwLock {
  type Request = nat

  datatype Lock = Lock(
    readCount: int,
    writeCount: int,
    isWriting: bool,
    waitingWriters: set<Request>,  // asleep on the write condition
    wokenWriters: set<Request>,    // notified, not yet back under the mutex
    writers: set<Request>,         // past lockWrite, before unlockWrite
    waitingReaders: set<Request>,
    wokenReaders: set<Request>,
    readers: set<Request>
  ) {
    predicate WriteGuard() {
      readCount == 0 && !isWriting
    }

    predicate ReadGuard() {
      writeCount == 0
    }

    function Busy(): set<Request> {
      waitingWriters + wokenWriters + writers + waitingReaders + wokenReaders + readers
    }

    /** No request holds the lock. */
    predicate Free() {
      writers == {} && readers == {}
    }
  }

  const FRESH := Lock(0, 0, false, {}, {}, {}, {}, {}, {})

  datatype Step =
    | LockWrite(r: Request)
    | ResumeWrite(r: Request)
    | UnlockWrite(r: Request, next: Request)  // `next` is the waiting writer that notify_one picks, if any waits
    | LockRead(r: Request)
    | ResumeRead(r: Request)
    | UnlockRead(r: Request, next: Request)
    | SpuriousWrite(r: Request)
    | SpuriousRead(r: Request)

  predicate Enabled(s: Lock, step: Step) {
    match step
    case LockWrite(r) => r !in s.Busy()
    case ResumeWrite(r) => r in s.wokenWriters
    case UnlockWrite(r, next) => r in s.writers && (s.waitingWriters != {} ==> next in s.waitingWriters)
    case LockRead(r) => r !in s.Busy()
    case ResumeRead(r) => r in s.wokenReaders
    case UnlockRead(r, next) => r in s.readers && (s.waitingWriters != {} ==> next in s.waitingWriters)
    case SpuriousWrite(r) => r in s.waitingWriters
    case SpuriousRead(r) => r in s.waitingReaders
  }

  /** The end of lockWrite, or another round of its wait. */
  function TryWrite(s: Lock, r: Request): Lock {
    if s.WriteGuard() then s.(isWriting := true, writers := s.writers + {r})
    else s.(waitingWriters := s.waitingWriters + {r})
  }

  function TryRead(s: Lock, r: Request): Lock {
    if s.ReadGuard() then s.(readCount := s.readCount + 1, readers := s.readers + {r})
    else s.(waitingReaders := s.waitingReaders + {r})
  }

  function NotifyWriter(s: Lock, next: Request): Lock {
    if s.waitingWriters == {} then s
    else s.(waitingWriters := s.waitingWriters - {next}, wokenWriters := s.wokenWriters + {next})
  }

  function NotifyReaders(s: Lock): Lock {
    s.(waitingReaders := {}, wokenReaders := s.wokenReaders + s.waitingReaders)
  }

  function Apply(s: Lock, step: Step): Lock {
    match step
    case LockWrite(r) => TryWrite(s.(writeCount := s.writeCount + 1), r)
    case ResumeWrite(r) => TryWrite(s.(wokenWriters := s.wokenWriters - {r}), r)
    case UnlockWrite(r, next) =>
      var t := s.(isWriting := false, writeCount := s.writeCount - 1, writers := s.writers - {r});
      if t.writeCount == 0 then NotifyReaders(t) else NotifyWriter(t, next)
    case LockRead(r) => TryRead(s, r)
    case ResumeRead(r) => TryRead(s.(wokenReaders := s.wokenReaders - {r}), r)
    case UnlockRead(r, next) =>
      var t := s.(readCount := s.readCount - 1, readers := s.readers - {r});
      if t.readCount == 0 && t.writeCount > 0 then NotifyWriter(t, next) else t
    case SpuriousWrite(r) => NotifyWriter(s, r)
    case SpuriousRead(r) =>
      s.(waitingReaders := s.waitingReaders - {r}, wokenReaders := s.wokenReaders + {r})
  }

  // ----- what every step keeps -----

  /** A request is in one place, and the three fields count the requests in theirs. */
  ghost predicate Accounted(s: Lock) {
    && s.waitingWriters !! s.wokenWriters !! s.writers !! s.waitingReaders !! s.wokenReaders !! s.readers
    && s.readCount == |s.readers|
    && s.writeCount == |s.waitingWriters| + |s.wokenWriters| + |s.writers|
    && (s.isWriting <==> s.writers != {})
  }

  /** One writer, or any number of readers. */
  ghost predicate Exclusive(s: Lock) {
    |s.writers| <= 1 && (s.writers != {} ==> s.readers == {})
  }

  /** No wakeup is lost: when the lock is free, a sleeping writer has a notified one in front of it, and
      readers sleep only behind a writer. */
  ghost predicate NoneStranded(s: Lock) {
    && (s.WriteGuard() && s.waitingWriters != {} ==> s.wokenWriters != {})
    && (s.waitingReaders != {} ==> s.writeCount > 0)
  }

  ghost predicate Invariant(s: Lock) {
    Accounted(s) && Exclusive(s) && NoneStranded(s)
  }

  lemma Grow(a: set<Request>, r: Request)
    requires r !in a
    ensures |a + {r}| == |a| + 1
  {
  }

  lemma Shrink(a: set<Request>, r: Request)
    requires r in a
    ensures |a - {r}| == |a| - 1
  {
    assert a == a - {r} + {r};
  }

  lemma KeptByTryWrite(s: Lock, r: Request)
    requires r !in s.Busy() && Exclusive(s) && NoneStranded(s)
    requires Accounted(s.(writeCount := s.writeCount - 1))
    ensures Invariant(TryWrite(s, r))
  {
    Grow(s.waitingWriters, r);
    Grow(s.writers, r);
  }

  lemma KeptByTryRead(s: Lock, r: Request)
    requires r !in s.Busy() && Invariant(s)
    ensures Invariant(TryRead(s, r))
  {
    Grow(s.readers, r);
  }

  lemma KeptByNotifyWriter(s: Lock, next: Request)
    requires Accounted(s) && Exclusive(s) && (s.waitingReaders != {} ==> s.writeCount > 0)
    requires s.waitingWriters != {} ==> next in s.waitingWriters
    ensures Invariant(NotifyWriter(s, next))
  {
    if s.waitingWriters != {} {
      Shrink(s.waitingWriters, next);
      Grow(s.wokenWriters, next);
    }
  }

  lemma KeptByUnlockWrite(s: Lock, r: Request, next: Request)
    requires Invariant(s) && Enabled(s, UnlockWrite(r, next))
    ensures Invariant(Apply(s, UnlockWrite(r, next)))
  {
    Shrink(s.writers, r);
    var t := s.(isWriting := false, writeCount := s.writeCount - 1, writers := s.writers - {r});
    assert |t.writers| == 0;
    if t.writeCount != 0 {
      KeptByNotifyWriter(t, next);
    }
  }

  lemma KeptByUnlockRead(s: Lock, r: Request, next: Request)
    requires Invariant(s) && Enabled(s, UnlockRead(r, next))
    ensures Invariant(Apply(s, UnlockRead(r, next)))
  {
    Shrink(s.readers, r);
    var t := s.(readCount := s.readCount - 1, readers := s.readers - {r});
    if t.readCount == 0 && t.writeCount > 0 {
      KeptByNotifyWriter(t, next);
    }
  }

  /** Every step keeps the invariant. */
  lemma Preserved(s: Lock, step: Step)
    requires Invariant(s) && Enabled(s, step)
    ensures Invariant(Apply(s, step))
  {
    match step
    case LockWrite(r) => KeptByTryWrite(s.(writeCount := s.writeCount + 1), r);
    case ResumeWrite(r) => ResumedWriter(s, r);
    case UnlockWrite(r, next) => KeptByUnlockWrite(s, r, next);
    case LockRead(r) => KeptByTryRead(s, r);
    case ResumeRead(r) => KeptByTryRead(s.(wokenReaders := s.wokenReaders - {r}), r);
    case UnlockRead(r, next) => KeptByUnlockRead(s, r, next);
    case SpuriousWrite(r) => KeptByNotifyWriter(s, r);
    case SpuriousRead(r) =>
  }

  /** A woken writer that finds the lock taken may sleep again: whoever holds it will wake it. */
  lemma ResumedWriter(s: Lock, r: Request)
    requires Invariant(s) && r in s.wokenWriters
    ensures Invariant(Apply(s, ResumeWrite(r)))
  {
    Shrink(s.wokenWriters, r);
    Grow(s.waitingWriters, r);
    Grow(s.writers, r);
  }

  // ----- runs -----

  /** The states of a run: `states[i + 1]` comes from `states[i]` by `steps[i]`. */
  ghost predicate Run(states: seq<Lock>, steps: seq<Step>) {
    && |states| == |steps| + 1
    && forall i :: 0 <= i < |steps| ==> Enabled(states[i], steps[i]) && states[i + 1] == Apply(states[i], steps[i])
  }

  lemma {:induction false} Reachable(states: seq<Lock>, steps: seq<Step>, n: nat)
    requires Run(states, steps) && Invariant(states[0]) && n < |states|
    ensures Invariant(states[n])
  {
    if n > 0 {
      Reachable(states, steps, n - 1);
      assert Enabled(states[n - 1], steps[n - 1]);
      Preserved(states[n - 1], steps[n - 1]);
    }
  }

  /** In every state of every run from a fresh lock: mutual exclusion, exact counts, no lost wakeup. */
  lemma Safety(states: seq<Lock>, steps: seq<Step>, n: nat)
    requires Run(states, steps) && states[0] == FRESH && n < |states|
    ensures |states[n].writers| <= 1 && (states[n].writers != {} ==> states[n].readers == {})
    ensures Accounted(states[n]) && NoneStranded(states[n])
  {
    Reachable(states, steps, n);
  }

  /** Whenever the lock is free while requests are pending, some notified request is admitted as soon as it
      runs again: a writer if any is pending, else every pending reader. */
  lemma Progress(s: Lock)
    requires Invariant(s) && s.Free() && s.Busy() != {}
    ensures s.writeCount > 0 ==>
      s.wokenWriters != {} && forall r :: r in s.wokenWriters ==> r in Apply(s, ResumeWrite(r)).writers
    ensures s.writeCount == 0 ==>
      s.waitingReaders == {} && s.wokenReaders != {} &&
      forall r :: r in s.wokenReaders ==> r in Apply(s, ResumeRead(r)).readers
  {
    if s.writeCount == 0 {
      assert s.waitingWriters == {} && s.wokenWriters == {};
    } else if s.wokenWriters == {} {
      assert s.waitingWriters == {};
    }
  }

  lemma NoReaderAdmitted(s: Lock, step: Step, w: Request)
    requires Accounted(s) && w in s.waitingWriters + s.wokenWriters
    ensures Apply(s, step).readers <= s.readers
  {
    assert |s.waitingWriters| + |s.wokenWriters| > 0;
  }

  /** Writers are preferred: from the moment a writer asks until it is admitted, no reader is. */
  lemma {:induction false} WritersFirst(states: seq<Lock>, steps: seq<Step>, w: Request, n: nat)
    requires Run(states, steps) && Invariant(states[0]) && n < |states|
    requires forall i :: 0 <= i <= n ==> w in states[i].waitingWriters + states[i].wokenWriters
    ensures states[n].readers <= states[0].readers
  {
    if n > 0 {
      WritersFirst(states, steps, w, n - 1);
      Reachable(states, steps, n - 1);
      assert w in states[n - 1].waitingWriters + states[n - 1].wokenWriters;
      NoReaderAdmitted(states[n - 1], steps[n - 1], w);
    }
  }

  // ----- every request is served -----

  /** The steps of threads that are already inside: no new request, no spurious wakeup. */
  predicate Serving(step: Step) {
    step.ResumeWrite? || step.UnlockWrite? || step.ResumeRead? || step.UnlockRead?
  }

  /** A bound on the serving steps that can still happen. */
  function Work(s: Lock): nat {
    2 * |s.waitingWriters| + 3 * |s.wokenWriters| + 2 * |s.writers| +
    4 * |s.waitingReaders| + (if s.writeCount > 0 then 5 else 3) * |s.wokenReaders| + 2 * |s.readers|
  }

  lemma NotifyWriterWork(s: Lock, next: Request)
    requires s.waitingWriters !! s.wokenWriters
    requires s.waitingWriters != {} ==> next in s.waitingWriters
    ensures Work(NotifyWriter(s, next)) <= Work(s) + 1
  {
    if s.waitingWriters != {} {
      Shrink(s.waitingWriters, next);
      Grow(s.wokenWriters, next);
    }
  }

  lemma UnlockWriteWork(s: Lock, r: Request, next: Request)
    requires Invariant(s) && Enabled(s, UnlockWrite(r, next))
    ensures Work(Apply(s, UnlockWrite(r, next))) < Work(s)
  {
    Shrink(s.writers, r);
    var t := s.(isWriting := false, writeCount := s.writeCount - 1, writers := s.writers - {r});
    if t.writeCount == 0 {
      assert |s.wokenReaders + s.waitingReaders| == |s.wokenReaders| + |s.waitingReaders|;
    } else {
      NotifyWriterWork(t, next);
    }
  }

  lemma UnlockReadWork(s: Lock, r: Request, next: Request)
    requires Invariant(s) && Enabled(s, UnlockRead(r, next))
    ensures Work(Apply(s, UnlockRead(r, next))) < Work(s)
  {
    Shrink(s.readers, r);
    var t := s.(readCount := s.readCount - 1, readers := s.readers - {r});
    assert Work(t) == Work(s) - 2;
    NotifyWriterWork(t, next);
  }

  lemma ResumeWork(s: Lock, step: Step)
    requires Invariant(s) && Enabled(s, step) && (step.ResumeWrite? || step.ResumeRead?)
    ensures Work(Apply(s, step)) < Work(s)
  {
    var r := step.r;
    if step.ResumeWrite? {
      Shrink(s.wokenWriters, r);
      Grow(s.waitingWriters, r);
      Grow(s.writers, r);
    } else {
      Shrink(s.wokenReaders, r);
      Grow(s.waitingReaders, r);
      Grow(s.readers, r);
    }
  }

  lemma WorkDecreases(s: Lock, step: Step)
    requires Invariant(s) && Enabled(s, step) && Serving(step)
    ensures Work(Apply(s, step)) < Work(s)
  {
    match step
    case UnlockWrite(r, next) => UnlockWriteWork(s, r, next);
    case UnlockRead(r, next) => UnlockReadWork(s, r, next);
    case _ => ResumeWork(s, step);
  }

  /** Serving stops only when every request has been served: there is no deadlock. */
  lemma SomethingToServe(s: Lock) returns (step: Step)
    requires Invariant(s) && s.Busy() != {}
    ensures Serving(step) && Enabled(s, step)
  {
    if s.Free() {
      Progress(s);
      if s.writeCount > 0 {
        var r :| r in s.wokenWriters;
        step := ResumeWrite(r);
      } else {
        var r :| r in s.wokenReaders;
        step := ResumeRead(r);
      }
    } else {
      step := SomeUnlock(s);
    }
  }

  lemma SomeUnlock(s: Lock) returns (step: Step)
    requires !s.Free()
    ensures Serving(step) && Enabled(s, step)
  {
    var next := 0;
    if s.waitingWriters != {} {
      next :| next in s.waitingWriters;
    }
    if s.writers != {} {
      var r :| r in s.writers;
      step := UnlockWrite(r, next);
    } else {
      var r :| r in s.readers;
      step := UnlockRead(r, next);
    }
  }

  lemma {:induction false} WorkBoundsRun(states: seq<Lock>, steps: seq<Step>, n: nat)
    requires Run(states, steps) && Invariant(states[0]) && n < |states|
    requires forall i :: 0 <= i < |steps| ==> Serving(steps[i])
    ensures Work(states[n]) + n <= Work(states[0])
  {
    if n > 0 {
      WorkBoundsRun(states, steps, n - 1);
      Reachable(states, steps, n - 1);
      assert Enabled(states[n - 1], steps[n - 1]) && Serving(steps[n - 1]);
      WorkDecreases(states[n - 1], steps[n - 1]);
    }
  }

  /** A request leaves the lock only through the set of holders. */
  lemma {:induction false} ServedOnTheWay(states: seq<Lock>, steps: seq<Step>, r: Request, n: nat)
    requires Run(states, steps) && n < |states| && r in states[0].Busy() && r !in states[n].Busy()
    ensures exists i :: 0 <= i < n && r in states[i].writers + states[i].readers
  {
    if r in states[n - 1].Busy() {
      assert Enabled(states[n - 1], steps[n - 1]);
      assert r in states[n - 1].writers + states[n - 1].readers;
    } else {
      ServedOnTheWay(states, steps, r, n - 1);
    }
  }

  /**
   * From any reachable state, once no new requests arrive, at most `Work` steps remain, whatever order the
   * threads run in; and when no thread has a step left, every pending request has held the lock and gone.
   */
  lemma EveryRequestServed(states: seq<Lock>, steps: seq<Step>, r: Request)
    requires Run(states, steps) && Invariant(states[0])
    requires forall i :: 0 <= i < |steps| ==> Serving(steps[i])
    ensures |steps| <= Work(states[0])
    ensures
      (forall step :: Serving(step) ==> !Enabled(states[|steps|], step)) && r in states[0].Busy() ==>
        states[|steps|].Busy() == {} && exists i :: 0 <= i < |steps| && r in states[i].writers + states[i].readers
  {
    var n := |steps|;
    WorkBoundsRun(states, steps, n);
    Reachable(states, steps, n);
    if (forall step :: Serving(step) ==> !Enabled(states[n], step)) && r in states[0].Busy() {
      if states[n].Busy() != {} {
        var step := SomethingToServe(states[n]);
        assert false;
      }
      ServedOnTheWay(states, steps, r, n);
    }
  }
}
