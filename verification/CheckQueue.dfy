/** The parallel check queue of src/checkqueue.h: one master and any number of workers, interleaved
    in every way. A step is one critical section of the mutex, one check being run, a spurious
    wake-up, or the environment starting a thread, adding checks or starting Wait.

    Thread 0 is the master. `good` is the result each check gives when it is run. */
module CheckQueue {
  import opened Basics

  type Id = nat

  /** Where a thread is. Working with next == |batch| is waiting for the mutex after a batch;
      Entered is inside the critical section and never seen between steps. */
  datatype Thread =
    | Outside
    | Starting
    | Working(batch: seq<Id>, next: nat, ok: bool)
    | Sleeping
    | Woken
    | Entered

  /** The fields of CCheckQueue, the threads, and a history of the current round: the checks added
      since the last Wait returned, those finished, and those run. `fresh` ids are unused. */
  datatype State = State(
    queue: seq<Id>, nIdle: int, nTotal: int, allOk: bool, nTodo: int, batchSize: nat,
    threads: seq<Thread>, added: multiset<Id>, finished: multiset<Id>, run: multiset<Id>, unused: Id)

  datatype Event =
    | StartWorker(i: nat)
    | StartWait
    | Add(ids: seq<Id>, woken: set<nat>)
    | Lock(i: nat)
    | Run(i: nat)
    | Spurious(i: nat)

  //////////////////////////////////////////////////////////////////////////////
  // Sums over threads
  //////////////////////////////////////////////////////////////////////////////

  function Held(t: Thread): multiset<Id> {
    if t.Working? then multiset(t.batch) else multiset{}
  }

  function RunBy(t: Thread): multiset<Id> {
    if t.Working? && t.next <= |t.batch| then multiset(t.batch[..t.next]) else multiset{}
  }

  function Inside(t: Thread): nat {
    if t.Outside? || t.Starting? then 0 else 1
  }

  function Idle(t: Thread): nat {
    if t.Sleeping? || t.Woken? then 1 else 0
  }

  ghost function Gather(ts: seq<Thread>, f: Thread -> multiset<Id>): multiset<Id> {
    if ts == [] then multiset{} else Gather(ts[..|ts| - 1], f) + f(ts[|ts| - 1])
  }

  /** The checks in the threads' batches, and those of them already run. */
  ghost function AllHeld(ts: seq<Thread>): multiset<Id> {
    Gather(ts, Held)
  }

  ghost function AllRun(ts: seq<Thread>): multiset<Id> {
    Gather(ts, RunBy)
  }

  ghost function Count(ts: seq<Thread>, f: Thread -> nat): nat {
    if ts == [] then 0 else Count(ts[..|ts| - 1], f) + f(ts[|ts| - 1])
  }

  lemma Rearrange(a: multiset<Id>, b: multiset<Id>, c: multiset<Id>, d: multiset<Id>, e: multiset<Id>)
    requires a + b == c + d
    ensures a + e + b == c + e + d
  {
    assert a + e + b == a + b + e;
  }

  lemma {:induction false} GatherUpdate(ts: seq<Thread>, i: nat, t: Thread, f: Thread -> multiset<Id>)
    requires i < |ts|
    ensures f(ts[i]) <= Gather(ts, f)
    ensures Gather(ts[i := t], f) + f(ts[i]) == Gather(ts, f) + f(t)
  {
    var n := |ts| - 1;
    if i < n {
      GatherUpdate(ts[..n], i, t, f);
      assert ts[i := t][..n] == ts[..n][i := t];
      Rearrange(Gather(ts[..n][i := t], f), f(ts[i]), Gather(ts[..n], f), f(t), f(ts[n]));
    } else {
      assert ts[i := t][..n] == ts[..n];
    }
  }

  lemma {:induction false} CountUpdate(ts: seq<Thread>, i: nat, t: Thread, f: Thread -> nat)
    requires i < |ts|
    ensures f(ts[i]) <= Count(ts, f)
    ensures Count(ts[i := t], f) == Count(ts, f) - f(ts[i]) + f(t)
  {
    var n := |ts| - 1;
    if i < n {
      CountUpdate(ts[..n], i, t, f);
      assert ts[i := t][..n] == ts[..n][i := t];
    } else {
      assert ts[i := t][..n] == ts[..n];
    }
  }

  lemma {:induction false} SomeHolder(ts: seq<Thread>)
    requires AllHeld(ts) != multiset{}
    ensures exists i | 0 <= i < |ts| :: ts[i].Working? && ts[i].batch != []
  {
    var n := |ts| - 1;
    if Held(ts[n]) == multiset{} {
      SomeHolder(ts[..n]);
      var i :| 0 <= i < n && ts[..n][i].Working? && ts[..n][i].batch != [];
      assert ts[i].Working? && ts[i].batch != [];
    } else {
      assert ts[n].Working? && ts[n].batch != [];
    }
  }

  //////////////////////////////////////////////////////////////////////////////
  // The invariant
  //////////////////////////////////////////////////////////////////////////////

  ghost predicate Failure(good: Id -> bool, added: multiset<Id>) {
    exists id <- added :: !good(id)
  }

  /** What a thread knows: while `ok`, all it ran was good; otherwise some check added this round
      is not good. */
  ghost predicate ThreadOk(good: Id -> bool, added: multiset<Id>, t: Thread) {
    t.Working? ==>
      && t.batch != [] && t.next <= |t.batch|
      && (t.ok ==> forall k | 0 <= k < t.next :: good(t.batch[k]))
      && (!t.ok ==> Failure(good, added))
  }

  /** Every check added is queued, in some thread's batch or finished, and none is in two places. */
  ghost predicate Accounted(s: State) {
    && s.added == multiset(s.queue) + AllHeld(s.threads) + s.finished
    && (forall id :: s.added[id] <= 1)
    && (forall id <- s.added :: id < s.unused)
    && s.nTodo == |s.queue| + |AllHeld(s.threads)|
    && s.run <= s.finished + AllRun(s.threads)
  }

  ghost predicate Counted(s: State) {
    s.nTotal == Count(s.threads, Inside) && s.nIdle == Count(s.threads, Idle)
  }

  /** The verdict so far is right about the finished checks, and as long as it is good all of them
      have been run. */
  ghost predicate Judged(good: Id -> bool, s: State) {
    && (s.allOk ==> forall id <- s.finished :: good(id) && id in s.run)
    && (!s.allOk ==> Failure(good, s.added))
    && (forall i | 0 <= i < |s.threads| :: ThreadOk(good, s.added, s.threads[i]))
    && (forall i | 0 <= i < |s.threads| :: s.threads[i].Working? && s.threads[i].ok ==>
          forall k | 0 <= k < s.threads[i].next :: s.threads[i].batch[k] in s.run)
  }

  /** The master sleeps only while there is something to wait for, and nothing is queued then. */
  ghost predicate MasterOk(s: State) {
    && |s.threads| > 0
    && (s.threads[0].Sleeping? ==> s.nTodo > 0)
    && (s.threads[0].Sleeping? || s.threads[0].Woken? ==> s.queue == [])
  }

  ghost predicate Inv(good: Id -> bool, s: State) {
    Accounted(s) && Counted(s) && Judged(good, s) && MasterOk(s)
  }

  //////////////////////////////////////////////////////////////////////////////
  // Steps
  //////////////////////////////////////////////////////////////////////////////

  /** The first part of the critical section: the clean-up after a batch, or the first iteration, or
      the return from a wait. */
  ghost function Enter(s: State, i: nat): State
    requires i < |s.threads| && |s.threads| > 0
  {
    var t, s1 := s.threads[i], s.(threads := s.threads[i := Entered]);
    match t
    case Starting => s1.(nTotal := s.nTotal + 1)
    case Woken => s1.(nIdle := s.nIdle - 1)
    case Working(batch, _, ok) =>
      var nTodo := s.nTodo - |batch|;
      var threads := if nTodo == 0 && i != 0 && s1.threads[0].Sleeping? then s1.threads[0 := Woken] else s1.threads;
      s1.(allOk := s.allOk && ok, nTodo := nTodo, threads := threads, finished := s.finished + multiset(batch))
    case _ => s1
  }

  function BatchLength(s: State): int {
    var share := if s.nTotal + s.nIdle + 1 > 0 then |s.queue| / (s.nTotal + s.nIdle + 1) else 0;
    var most := if s.batchSize < share then s.batchSize else share;
    if most < 1 then 1 else most
  }

  /** The last `n` of the queue, last first. */
  function Popped(queue: seq<Id>, n: nat): seq<Id>
    requires n <= |queue|
  {
    seq(n, k requires 0 <= k < n => queue[|queue| - 1 - k])
  }

  /** The rest of the critical section: return the verdict, go to sleep, or take a batch. */
  ghost function Proceed(s: State, i: nat): (State, Option<bool>)
    requires i < |s.threads|
  {
    if s.queue == [] then
      if i == 0 && s.nTodo == 0 then
        (s.(nTotal := s.nTotal - 1, allOk := true, threads := s.threads[i := Outside],
            added := multiset{}, finished := multiset{}, run := multiset{}), Some(s.allOk))
      else
        (s.(nIdle := s.nIdle + 1, threads := s.threads[i := Sleeping]), None)
    else
      var n := BatchLength(s);
      if 0 <= n <= |s.queue| then
        (s.(queue := s.queue[..|s.queue| - n],
            threads := s.threads[i := Working(Popped(s.queue, n), 0, s.allOk)]), None)
      else (s, None)
  }

  //////////////////////////////////////////////////////////////////////////////
  // Steps keep the invariant
  //////////////////////////////////////////////////////////////////////////////

  /** The sums when thread `i` changes to `t`. */
  lemma ThreadChange(ts: seq<Thread>, i: nat, t: Thread)
    requires i < |ts|
    ensures Held(ts[i]) <= AllHeld(ts) && AllHeld(ts[i := t]) + Held(ts[i]) == AllHeld(ts) + Held(t)
    ensures RunBy(ts[i]) <= AllRun(ts) && AllRun(ts[i := t]) + RunBy(ts[i]) == AllRun(ts) + RunBy(t)
    ensures Count(ts[i := t], Inside) == Count(ts, Inside) - Inside(ts[i]) + Inside(t)
    ensures Count(ts[i := t], Idle) == Count(ts, Idle) - Idle(ts[i]) + Idle(t)
  {
    GatherUpdate(ts, i, t, Held);
    GatherUpdate(ts, i, t, RunBy);
    CountUpdate(ts, i, t, Inside);
    CountUpdate(ts, i, t, Idle);
  }

  lemma QuietAccounted(s: State, i: nat, t: Thread)
    requires i < |s.threads| && !s.threads[i].Working? && !t.Working? && Accounted(s)
    ensures Accounted(s.(threads := s.threads[i := t]))
  {
    hide Gather, AllHeld, AllRun;
    ThreadChange(s.threads, i, t);
    Cancel(AllHeld(s.threads[i := t]), AllHeld(s.threads));
    Cancel(AllRun(s.threads[i := t]), AllRun(s.threads));
  }

  lemma Cancel(a: multiset<Id>, b: multiset<Id>)
    requires a + multiset{} == b + multiset{}
    ensures a == b
  {
    assert a + multiset{} == a && b + multiset{} == b;
  }

  lemma QuietJudged(good: Id -> bool, s: State, i: nat, t: Thread)
    requires i < |s.threads| && !t.Working? && Judged(good, s)
    ensures Judged(good, s.(threads := s.threads[i := t]))
  {
    hide Failure;
    var s' := s.(threads := s.threads[i := t]);
    forall k | 0 <= k < |s'.threads| ensures ThreadOk(good, s'.added, s'.threads[k]) {
      assert ThreadOk(good, s.added, s.threads[k]);
    }
  }

  /** A thread without a batch changes to another state without a batch. */
  lemma QuietChange(good: Id -> bool, s: State, i: nat, t: Thread)
    requires i < |s.threads| && !s.threads[i].Working? && !t.Working?
    requires Accounted(s) && Judged(good, s)
    ensures Accounted(s.(threads := s.threads[i := t])) && Judged(good, s.(threads := s.threads[i := t]))
  {
    hide *;
    QuietAccounted(s, i, t);
    QuietJudged(good, s, i, t);
  }

  /** The fields that only Counted and MasterOk look at. */
  lemma SameBooks(good: Id -> bool, s: State, nTotal: int, nIdle: int)
    requires Accounted(s) && Judged(good, s)
    ensures Accounted(s.(nTotal := nTotal, nIdle := nIdle)) && Judged(good, s.(nTotal := nTotal, nIdle := nIdle))
  {
  }

  ghost predicate WantsLock(t: Thread) {
    t.Starting? || t.Woken? || (t.Working? && t.next == |t.batch|)
  }

  lemma EnterQuiet(good: Id -> bool, s: State, i: nat)
    requires Inv(good, s) && i < |s.threads| && (s.threads[i].Starting? || s.threads[i].Woken?)
    ensures Inv(good, Enter(s, i))
  {
    hide Accounted, Judged, Count, Gather, AllHeld, AllRun;
    QuietChange(good, s, i, Entered);
    ThreadChange(s.threads, i, Entered);
    var s1 := s.(threads := s.threads[i := Entered]);
    SameBooks(good, s1, Enter(s, i).nTotal, Enter(s, i).nIdle);
  }

  /** A finished batch moves from the thread to the finished checks. */
  lemma FinishAccounted(s: State, i: nat, allOk: bool)
    requires Accounted(s) && i < |s.threads| && s.threads[i].Working? && s.threads[i].next == |s.threads[i].batch|
    ensures var batch := s.threads[i].batch;
            Accounted(s.(threads := s.threads[i := Entered], allOk := allOk, nTodo := s.nTodo - |batch|,
                         finished := s.finished + multiset(batch)))
  {
    var batch := s.threads[i].batch;
    ThreadChange(s.threads, i, Entered);
    var held, run := AllHeld(s.threads[i := Entered]), AllRun(s.threads[i := Entered]);
    assert batch[..|batch|] == batch;
    assert AllHeld(s.threads) == held + multiset(batch);
    assert AllRun(s.threads) == run + multiset(batch);
    assert |held + multiset(batch)| == |held| + |multiset(batch)|;
  }

  lemma FinishJudged(good: Id -> bool, s: State, i: nat)
    requires Judged(good, s) && i < |s.threads| && s.threads[i].Working? && s.threads[i].next == |s.threads[i].batch|
    ensures var t := s.threads[i];
            Judged(good, s.(threads := s.threads[i := Entered], allOk := s.allOk && t.ok, nTodo := s.nTodo - |t.batch|,
                            finished := s.finished + multiset(t.batch)))
  {
    hide Failure;
    var t := s.threads[i];
    assert ThreadOk(good, s.added, t);
    if s.allOk && t.ok {
      forall id <- s.finished + multiset(t.batch) ensures good(id) && id in s.run {
        if id in multiset(t.batch) {
          var k :| 0 <= k < |t.batch| && t.batch[k] == id;
        }
      }
    }
  }

  lemma EnterFinish(good: Id -> bool, s: State, i: nat)
    requires Inv(good, s) && i < |s.threads| && s.threads[i].Working? && s.threads[i].next == |s.threads[i].batch|
    ensures Inv(good, Enter(s, i))
  {
    hide Judged, Accounted, Count, Gather, AllHeld, AllRun;
    var t := s.threads[i];
    var s1 := s.(threads := s.threads[i := Entered], allOk := s.allOk && t.ok, nTodo := s.nTodo - |t.batch|,
                 finished := s.finished + multiset(t.batch));
    FinishAccounted(s, i, s.allOk && t.ok);
    FinishJudged(good, s, i);
    ThreadChange(s.threads, i, Entered);
    TodoNonneg(s1);
    if s1.nTodo == 0 && i != 0 && s1.threads[0].Sleeping? {
      QuietChange(good, s1, 0, Woken);
      ThreadChange(s1.threads, 0, Woken);
    }
  }

  lemma TodoNonneg(s: State)
    requires Accounted(s)
    ensures s.nTodo >= |s.queue| && (s.nTodo == 0 ==> s.queue == [] && AllHeld(s.threads) == multiset{})
  {
  }

  /** The critical section up to the point where the thread looks at the queue. */
  lemma EnterOk(good: Id -> bool, s: State, i: nat)
    requires Inv(good, s) && i < |s.threads| && WantsLock(s.threads[i])
    ensures Inv(good, Enter(s, i)) && |Enter(s, i).threads| == |s.threads| && Enter(s, i).threads[i] == Entered
    ensures Enter(s, i).added == s.added && Enter(s, i).run == s.run && Enter(s, i).queue == s.queue
  {
    hide Inv;
    if s.threads[i].Working? {
      EnterFinish(good, s, i);
    } else {
      EnterQuiet(good, s, i);
    }
  }

  lemma {:induction false} PoppedAll(queue: seq<Id>, n: nat)
    requires n <= |queue|
    ensures multiset(queue) == multiset(queue[..|queue| - n]) + multiset(Popped(queue, n))
    decreases n
  {
    if n == 0 {
      assert queue[..|queue|] == queue;
    } else {
      PoppedAll(queue, n - 1);
      var m := |queue| - n;
      assert queue[..m + 1] == queue[..m] + [queue[m]];
      assert Popped(queue, n) == Popped(queue, n - 1) + [queue[m]];
    }
  }

  /** When the master finds nothing to do, the verdict is that of all checks added this round. */
  lemma Verdict(good: Id -> bool, s: State)
    requires Accounted(s) && Judged(good, s) && s.nTodo == 0
    ensures s.allOk <==> forall id <- s.added :: good(id)
    ensures s.allOk ==> s.run == s.added
  {
    TodoNonneg(s);
    assert s.added == s.finished;
    if s.allOk {
      NothingHeld(s);
      forall id ensures s.run[id] == s.added[id] {
        assert s.run[id] <= s.added[id] <= 1;
        assert id in s.added ==> id in s.run;
      }
    }
  }

  lemma NothingHeld(s: State)
    requires Accounted(s) && AllHeld(s.threads) == multiset{}
    ensures s.run <= s.finished
  {
    RunIsHeld(s.threads);
  }

  lemma {:induction false} RunIsHeld(ts: seq<Thread>)
    ensures AllRun(ts) <= AllHeld(ts)
  {
    if ts != [] {
      var n := |ts| - 1;
      RunIsHeld(ts[..n]);
      var t := ts[n];
      if t.Working? && t.next <= |t.batch| {
        assert t.batch == t.batch[..t.next] + t.batch[t.next..];
        assert RunBy(t) <= Held(t);
      }
    }
  }

  lemma ReturnOk(good: Id -> bool, s: State)
    requires Inv(good, s) && s.threads[0] == Entered && s.queue == [] && s.nTodo == 0
    ensures Inv(good, Proceed(s, 0).0)
  {
    hide Failure, Gather, Count;
    var s' := Proceed(s, 0).0;
    TodoNonneg(s);
    QuietAccounted(s, 0, Outside);
    RunIsHeld(s'.threads);
    ThreadChange(s.threads, 0, Outside);
    forall k | 0 <= k < |s'.threads| ensures !s'.threads[k].Working? {
      Unheld(s'.threads, k);
      if k > 0 { assert ThreadOk(good, s.added, s.threads[k]); }
    }
    assert Accounted(s');
  }

  lemma Unheld(ts: seq<Thread>, k: nat)
    requires k < |ts| && AllHeld(ts) == multiset{}
    ensures Held(ts[k]) == multiset{}
  {
    GatherUpdate(ts, k, ts[k], Held);
  }

  lemma SleepOk(good: Id -> bool, s: State, i: nat)
    requires Inv(good, s) && i < |s.threads| && s.threads[i] == Entered && s.queue == [] && (i == 0 ==> s.nTodo != 0)
    ensures Inv(good, Proceed(s, i).0)
  {
    hide Accounted, Judged, Count, Gather, AllHeld, AllRun;
    QuietChange(good, s, i, Sleeping);
    ThreadChange(s.threads, i, Sleeping);
    TodoNonneg(s);
    SameBooks(good, s.(threads := s.threads[i := Sleeping]), s.nTotal, s.nIdle + 1);
  }

  lemma BatchFits(s: State)
    requires s.queue != [] && s.nTotal >= 0 && s.nIdle >= 0
    ensures 1 <= BatchLength(s) <= |s.queue|
  {
    var d := s.nTotal + s.nIdle + 1;
    assert |s.queue| / d <= |s.queue|;
  }

  /** A batch is the largest number of checks within the batch size that leaves as many for each of the other threads
      and one more, and at least one check. */
  lemma BatchExact(s: State)
    requires s.nTotal >= 0 && s.nIdle >= 0
    ensures var n, d := BatchLength(s), s.nTotal + s.nIdle + 1;
            && (n == 1 || (n <= s.batchSize && n * d <= |s.queue|))
            && (n >= s.batchSize || (n + 1) * d > |s.queue|)
  {
    Share(|s.queue|, s.nTotal + s.nIdle + 1);
    var share, d := |s.queue| / (s.nTotal + s.nIdle + 1), s.nTotal + s.nIdle + 1;
    var n := BatchLength(s);
    if n == 1 && share < 1 {
      assert (n + 1) * d > |s.queue|;
    }
  }

  lemma Share(q: nat, d: nat)
    requires d > 0
    ensures q / d * d <= q < (q / d + 1) * d
    ensures q / d < 1 ==> q < 2 * d
  {
  }

  lemma TakeAccounted(s: State, i: nat, n: nat, ok: bool)
    requires Accounted(s) && i < |s.threads| && s.threads[i] == Entered && 1 <= n <= |s.queue|
    ensures Accounted(s.(queue := s.queue[..|s.queue| - n], threads := s.threads[i := Working(Popped(s.queue, n), 0, ok)]))
  {
    hide Gather;
    var t := Working(Popped(s.queue, n), 0, ok);
    ThreadChange(s.threads, i, t);
    PoppedAll(s.queue, n);
    var held, held' := AllHeld(s.threads), AllHeld(s.threads[i := t]);
    assert t.batch[..0] == [];
    Cancel(AllRun(s.threads[i := t]), AllRun(s.threads));
    assert held' + multiset{} == held' && held' == held + multiset(t.batch);
    assert |held'| == |held| + n;
  }

  lemma TakeJudged(good: Id -> bool, s: State, i: nat, n: nat)
    requires Judged(good, s) && i < |s.threads| && 1 <= n <= |s.queue|
    ensures Judged(good, s.(queue := s.queue[..|s.queue| - n], threads := s.threads[i := Working(Popped(s.queue, n), 0, s.allOk)]))
  {
    hide Failure;
    var s' := s.(queue := s.queue[..|s.queue| - n], threads := s.threads[i := Working(Popped(s.queue, n), 0, s.allOk)]);
    forall k | 0 <= k < |s'.threads| ensures ThreadOk(good, s'.added, s'.threads[k]) {
      if k != i { assert ThreadOk(good, s.added, s.threads[k]); }
    }
  }

  lemma TakeOk(good: Id -> bool, s: State, i: nat)
    requires Inv(good, s) && i < |s.threads| && s.threads[i] == Entered && s.queue != []
    ensures Inv(good, Proceed(s, i).0) && 1 <= BatchLength(s) <= |s.queue|
  {
    hide Accounted, Judged, Count, Gather, AllHeld, AllRun, Popped, BatchLength;
    BatchFits(s);
    var n := BatchLength(s);
    TakeAccounted(s, i, n, s.allOk);
    TakeJudged(good, s, i, n);
    ThreadChange(s.threads, i, Working(Popped(s.queue, n), 0, s.allOk));
  }

  /** The rest of the critical section. If Wait returns, it returns true exactly when every check
      added since the last Wait is good, and when it does so all of them have been run. */
  lemma ProceedOk(good: Id -> bool, s: State, i: nat)
    requires Inv(good, s) && i < |s.threads| && s.threads[i] == Entered
    ensures Inv(good, Proceed(s, i).0) && |Proceed(s, i).0.threads| == |s.threads|
    ensures var out := Proceed(s, i).1;
            out.Some? ==> (out.value <==> forall id <- s.added :: good(id)) && (out.value ==> s.run == s.added)
  {
    hide Accounted, Judged, Counted, MasterOk;
    if s.queue != [] {
      TakeOk(good, s, i);
    } else if i == 0 && s.nTodo == 0 {
      ReturnOk(good, s);
      Verdict(good, s);
    } else {
      SleepOk(good, s, i);
    }
  }

  //////////////////////////////////////////////////////////////////////////////
  // Running a check
  //////////////////////////////////////////////////////////////////////////////

  ghost function RunNext(good: Id -> bool, s: State, i: nat): State
    requires i < |s.threads| && s.threads[i].Working? && s.threads[i].next < |s.threads[i].batch|
  {
    var t := s.threads[i];
    var id := t.batch[t.next];
    s.(threads := s.threads[i := Working(t.batch, t.next + 1, t.ok && good(id))],
       run := if t.ok then s.run + multiset{id} else s.run)
  }

  lemma RunByNext(t: Thread)
    requires t.Working? && t.next < |t.batch|
    ensures multiset(t.batch[..t.next + 1]) == multiset(t.batch[..t.next]) + multiset{t.batch[t.next]}
    ensures multiset(t.batch[..t.next + 1]) <= multiset(t.batch)
  {
    assert t.batch[..t.next + 1] == t.batch[..t.next] + [t.batch[t.next]];
    assert t.batch == t.batch[..t.next + 1] + t.batch[t.next + 1..];
  }

  /** No check is run twice: the one run next has not been run in this round. */
  lemma NotRunTwice(s: State, i: nat)
    requires Accounted(s) && i < |s.threads| && s.threads[i].Working? && s.threads[i].next < |s.threads[i].batch|
    ensures s.threads[i].batch[s.threads[i].next] in s.added
    ensures s.threads[i].batch[s.threads[i].next] !in s.run
  {
    hide Gather, AllHeld, AllRun;
    var t := s.threads[i];
    var id := t.batch[t.next];
    var t' := Working(t.batch, t.next + 1, t.ok);
    RunByNext(t);
    ThreadChange(s.threads, i, t');
    RunIsHeld(s.threads[i := t']);
    SameTotal(AllHeld(s.threads[i := t']), AllHeld(s.threads), multiset(t.batch));
    OneMore(AllRun(s.threads[i := t']), AllRun(s.threads), RunBy(t), id);
    NotTwice(s.added, multiset(s.queue), AllHeld(s.threads), s.finished, s.run, AllRun(s.threads), AllRun(s.threads[i := t']), id);
  }

  lemma OneMore(a: multiset<Id>, b: multiset<Id>, c: multiset<Id>, id: Id)
    requires a + c == b + (c + multiset{id})
    ensures a[id] == b[id] + 1
  {
    assert (a + c)[id] == (b + (c + multiset{id}))[id];
  }

  lemma NotTwice(added: multiset<Id>, queue: multiset<Id>, held: multiset<Id>, finished: multiset<Id>, run: multiset<Id>,
                 begun: multiset<Id>, begun': multiset<Id>, id: Id)
    requires added == queue + held + finished && added[id] <= 1
    requires run <= finished + begun && begun'[id] == begun[id] + 1 && begun' <= held
    ensures id in added && id !in run
  {
    assert added[id] == queue[id] + held[id] + finished[id];
    assert run[id] <= (finished + begun)[id];
  }

  lemma SameTotal(a: multiset<Id>, b: multiset<Id>, c: multiset<Id>)
    requires a + c == b + c
    ensures a == b
  {
    forall id ensures a[id] == b[id] {
      assert (a + c)[id] == (b + c)[id];
    }
  }

  lemma RunAccounted(good: Id -> bool, s: State, i: nat)
    requires Accounted(s) && i < |s.threads| && s.threads[i].Working? && s.threads[i].next < |s.threads[i].batch|
    ensures Accounted(RunNext(good, s, i))
  {
    hide Gather, AllHeld, AllRun, Count;
    var t, s' := s.threads[i], RunNext(good, s, i);
    ThreadChange(s.threads, i, s'.threads[i]);
    SameTotal(AllHeld(s'.threads), AllHeld(s.threads), Held(t));
    RunMore(s.run, s'.run, s.finished, AllRun(s.threads), AllRun(s'.threads), t, s'.threads[i]);
  }

  /** What has been run grows with what its thread has run. */
  lemma RunMore(run: multiset<Id>, run': multiset<Id>, finished: multiset<Id>, all: multiset<Id>, all': multiset<Id>, t: Thread, t': Thread)
    requires t.Working? && t.next < |t.batch|
    requires t'.Working? && t'.batch == t.batch && t'.next == t.next + 1 && (t'.ok ==> t.ok)
    requires run <= finished + all && all' + RunBy(t) == all + RunBy(t')
    requires run' == if t.ok then run + multiset{t.batch[t.next]} else run
    ensures run' <= finished + all'
  {
    RunByNext(t);
    forall id ensures run'[id] <= (finished + all')[id] {
      assert (all' + RunBy(t))[id] == (all + RunBy(t'))[id];
      assert run[id] <= (finished + all)[id];
    }
  }

  lemma RunJudged(good: Id -> bool, s: State, i: nat)
    requires Accounted(s) && Judged(good, s)
    requires i < |s.threads| && s.threads[i].Working? && s.threads[i].next < |s.threads[i].batch|
    ensures Judged(good, RunNext(good, s, i))
  {
    hide Accounted;
    var t, s' := s.threads[i], RunNext(good, s, i);
    assert ThreadOk(good, s.added, t);
    NotRunTwice(s, i);
    assert forall id <- s.run :: id in s'.run;
    forall k | 0 <= k < |s'.threads| ensures ThreadOk(good, s'.added, s'.threads[k]) {
      if k != i { assert ThreadOk(good, s.added, s.threads[k]); }
    }
  }

  lemma RunOk(good: Id -> bool, s: State, i: nat)
    requires Inv(good, s) && i < |s.threads| && s.threads[i].Working? && s.threads[i].next < |s.threads[i].batch|
    ensures Inv(good, RunNext(good, s, i)) && RunNext(good, s, i).added == s.added
  {
    hide Accounted, Judged, Count;
    RunAccounted(good, s, i);
    RunJudged(good, s, i);
    ThreadChange(s.threads, i, RunNext(good, s, i).threads[i]);
  }

  //////////////////////////////////////////////////////////////////////////////
  // Adding checks
  //////////////////////////////////////////////////////////////////////////////

  ghost function WakeUp(ts: seq<Thread>, woken: set<nat>): seq<Thread> {
    seq(|ts|, k requires 0 <= k < |ts| => if k in woken && ts[k].Sleeping? then Woken else ts[k])
  }

  ghost function Added(s: State, ids: seq<Id>, woken: set<nat>): State {
    s.(queue := s.queue + ids, nTodo := s.nTodo + |ids|, threads := WakeUp(s.threads, woken),
       added := s.added + multiset(ids), unused := s.unused + |ids|)
  }

  /** The ids given to added checks are new ones. */
  ghost predicate NewIds(s: State, ids: seq<Id>) {
    forall k | 0 <= k < |ids| :: ids[k] == s.unused + k
  }

  lemma {:induction false} GatherSame(ts: seq<Thread>, ts': seq<Thread>, f: Thread -> multiset<Id>)
    requires |ts| == |ts'| && forall k | 0 <= k < |ts| :: f(ts[k]) == f(ts'[k])
    ensures Gather(ts, f) == Gather(ts', f)
  {
    if ts != [] {
      GatherSame(ts[..|ts| - 1], ts'[..|ts| - 1], f);
    }
  }

  lemma {:induction false} CountSame(ts: seq<Thread>, ts': seq<Thread>, f: Thread -> nat)
    requires |ts| == |ts'| && forall k | 0 <= k < |ts| :: f(ts[k]) == f(ts'[k])
    ensures Count(ts, f) == Count(ts', f)
  {
    if ts != [] {
      CountSame(ts[..|ts| - 1], ts'[..|ts| - 1], f);
    }
  }

  lemma {:induction false} NewIdsOnce(ids: seq<Id>, from: Id)
    requires forall k | 0 <= k < |ids| :: ids[k] == from + k
    ensures forall id :: multiset(ids)[id] == if from <= id < from + |ids| then 1 else 0
  {
    if ids != [] {
      var n := |ids| - 1;
      NewIdsOnce(ids[..n], from);
      assert ids == ids[..n] + [ids[n]];
    }
  }

  lemma AddedAccounted(s: State, ids: seq<Id>, woken: set<nat>)
    requires Accounted(s) && NewIds(s, ids)
    ensures Accounted(Added(s, ids, woken))
  {
    hide Gather;
    var s' := Added(s, ids, woken);
    GatherSame(s.threads, s'.threads, Held);
    GatherSame(s.threads, s'.threads, RunBy);
    NewIdsOnce(ids, s.unused);
    forall id ensures s'.added[id] <= 1 && (id in s'.added ==> id < s'.unused) {
      assert s'.added[id] == s.added[id] + multiset(ids)[id];
    }
  }

  lemma AddedJudged(good: Id -> bool, s: State, ids: seq<Id>, woken: set<nat>)
    requires Judged(good, s)
    ensures Judged(good, Added(s, ids, woken))
  {
    var s' := Added(s, ids, woken);
    assert Failure(good, s.added) ==> Failure(good, s'.added) by {
      if Failure(good, s.added) {
        var id :| id in s.added && !good(id);
        assert id in s'.added;
      }
    }
    hide Failure;
    forall k | 0 <= k < |s'.threads| ensures ThreadOk(good, s'.added, s'.threads[k]) {
      assert ThreadOk(good, s.added, s.threads[k]);
    }
  }

  lemma AddedOk(good: Id -> bool, s: State, ids: seq<Id>, woken: set<nat>)
    requires Inv(good, s) && NewIds(s, ids) && s.threads[0].Outside?
    ensures Inv(good, Added(s, ids, woken))
  {
    hide Accounted, Judged;
    AddedAccounted(s, ids, woken);
    AddedJudged(good, s, ids, woken);
    CountSame(s.threads, WakeUp(s.threads, woken), Inside);
    CountSame(s.threads, WakeUp(s.threads, woken), Idle);
  }

  //////////////////////////////////////////////////////////////////////////////
  // Runs
  //////////////////////////////////////////////////////////////////////////////

  ghost function SleepingWorkers(s: State): set<nat> {
    set k: nat | 0 < k < |s.threads| && s.threads[k].Sleeping?
  }

  /** notify_one wakes one sleeping worker if there is any; notify_all wakes all. */
  ghost predicate Notified(s: State, n: nat, woken: set<nat>) {
    if n == 0 then woken == {}
    else if n == 1 then woken <= SleepingWorkers(s) && |woken| == (if SleepingWorkers(s) == {} then 0 else 1)
    else woken == SleepingWorkers(s)
  }

  ghost predicate Enabled(s: State, e: Event) {
    && |s.threads| > 0
    && match e
       case StartWorker(i) => 0 < i < |s.threads| && s.threads[i].Outside?
       case StartWait => s.threads[0].Outside?
       case Add(ids, woken) => s.threads[0].Outside? && NewIds(s, ids) && Notified(s, |ids|, woken)
       case Lock(i) => i < |s.threads| && WantsLock(s.threads[i])
       case Run(i) => i < |s.threads| && s.threads[i].Working? && s.threads[i].next < |s.threads[i].batch|
       case Spurious(i) => i < |s.threads| && s.threads[i].Sleeping?
  }

  /** The state after an event and, if Wait returns, what it returns. */
  ghost function Step(good: Id -> bool, s: State, e: Event): (State, Option<bool>)
    requires Enabled(s, e)
  {
    match e
    case StartWorker(i) => (s.(threads := s.threads[i := Starting]), None)
    case StartWait => (s.(threads := s.threads[0 := Starting]), None)
    case Add(ids, woken) => (Added(s, ids, woken), None)
    case Lock(i) => Proceed(Enter(s, i), i)
    case Run(i) => (RunNext(good, s, i), None)
    case Spurious(i) => (s.(threads := s.threads[i := Woken]), None)
  }

  lemma PcChangeOk(good: Id -> bool, s: State, i: nat, t: Thread)
    requires Inv(good, s) && i < |s.threads|
    requires (s.threads[i].Outside? && t.Starting?) || (s.threads[i].Sleeping? && t.Woken?)
    ensures Inv(good, s.(threads := s.threads[i := t]))
  {
    hide Accounted, Judged, Count;
    QuietChange(good, s, i, t);
    ThreadChange(s.threads, i, t);
  }

  /** Every step keeps the invariant, and whenever Wait returns it returns the truth about all checks
      added since it last returned, all of which have been run if it returns true. */
  lemma StepOk(good: Id -> bool, s: State, e: Event)
    requires Inv(good, s) && Enabled(s, e)
    ensures Inv(good, Step(good, s, e).0)
    ensures var out := Step(good, s, e).1;
            out.Some? ==>
              && e == Lock(0) && (out.value <==> forall id <- s.added :: good(id))
              && (out.value ==> s.run == s.added)
  {
    hide Accounted, Judged, Counted, MasterOk, Enter, Proceed, RunNext, Added;
    match e
    case StartWorker(i) => PcChangeOk(good, s, i, Starting);
    case StartWait => PcChangeOk(good, s, 0, Starting);
    case Add(ids, woken) => AddedOk(good, s, ids, woken);
    case Lock(i) =>
      EnterOk(good, s, i);
      ProceedOk(good, Enter(s, i), i);
      ProceedOut(Enter(s, i), i);
    case Run(i) => RunOk(good, s, i);
    case Spurious(i) => PcChangeOk(good, s, i, Woken);
  }

  lemma ProceedOut(s: State, i: nat)
    requires i < |s.threads|
    ensures Proceed(s, i).1.Some? ==> i == 0
  {
  }

  ghost predicate Initial(s: State) {
    && |s.threads| > 0 && (forall k | 0 <= k < |s.threads| :: s.threads[k].Outside?)
    && s == State([], 0, 0, true, 0, s.batchSize, s.threads, multiset{}, multiset{}, multiset{}, 0)
  }

  lemma InitialOk(good: Id -> bool, s: State)
    requires Initial(s)
    ensures Inv(good, s)
  {
    var none := seq(|s.threads|, _ => Outside);
    assert s.threads == none;
    AllOutside(s.threads);
  }

  lemma {:induction false} AllOutside(ts: seq<Thread>)
    requires forall k | 0 <= k < |ts| :: ts[k].Outside?
    ensures AllHeld(ts) == multiset{} && AllRun(ts) == multiset{} && Count(ts, Inside) == 0 && Count(ts, Idle) == 0
  {
    if ts != [] {
      AllOutside(ts[..|ts| - 1]);
    }
  }

  /** `states` is a run: it starts initially and each state follows from the one before. */
  ghost predicate IsRun(good: Id -> bool, states: seq<State>, events: seq<Event>) {
    && |states| == |events| + 1 && Initial(states[0])
    && forall k | 0 <= k < |events| :: Enabled(states[k], events[k]) && states[k + 1] == Step(good, states[k], events[k]).0
  }

  lemma {:induction false} RunInv(good: Id -> bool, states: seq<State>, events: seq<Event>, k: nat)
    requires IsRun(good, states, events) && k < |states|
    ensures Inv(good, states[k])
    decreases k
  {
    if k == 0 {
      InitialOk(good, states[0]);
    } else {
      RunInv(good, states, events, k - 1);
      StepOk(good, states[k - 1], events[k - 1]);
    }
  }

  //////////////////////////////////////////////////////////////////////////////
  // Waiting always ends
  //////////////////////////////////////////////////////////////////////////////

  ghost predicate CanStep(t: Thread) {
    WantsLock(t) || (t.Working? && t.next < |t.batch|)
  }

  /** No lost wake-up: while the master is in Wait, some thread can take a step of its own. */
  lemma NoDeadlock(good: Id -> bool, s: State)
    requires Inv(good, s) && !s.threads[0].Outside? && !s.threads[0].Entered?
    ensures exists i | 0 <= i < |s.threads| :: CanStep(s.threads[i])
  {
    if s.threads[0].Sleeping? {
      assert AllHeld(s.threads) != multiset{};
      SomeHolder(s.threads);
      var i :| 0 <= i < |s.threads| && s.threads[i].Working? && s.threads[i].batch != [];
      assert ThreadOk(good, s.added, s.threads[i]);
      assert CanStep(s.threads[i]);
    } else {
      assert ThreadOk(good, s.added, s.threads[0]);
      assert CanStep(s.threads[0]);
    }
  }

  function Unrun(t: Thread): nat {
    if t.Working? && t.next <= |t.batch| then |t.batch| - t.next else 0
  }

  function Batch(t: Thread): nat {
    if t.Working? then 1 else 0
  }

  function Awake(t: Thread): nat {
    if t.Starting? || t.Woken? then 1 else 0
  }

  /** Lexicographic order on four counters. */
  ghost predicate Less(a: (nat, nat, nat, nat), b: (nat, nat, nat, nat)) {
    || a.0 < b.0
    || (a.0 == b.0 && a.1 < b.1)
    || (a.0 == b.0 && a.1 == b.1 && a.2 < b.2)
    || (a.0 == b.0 && a.1 == b.1 && a.2 == b.2 && a.3 < b.3)
  }

  /** Checks queued, checks in batches not yet run, batches in hand, threads awake without one. */
  ghost function Remaining(s: State): (nat, nat, nat, nat) {
    (|s.queue|, Count(s.threads, Unrun), Count(s.threads, Batch), Count(s.threads, Awake))
  }

  /** Every step the threads take of their own accord uses up some of what remains. */
  lemma Progress(good: Id -> bool, s: State, e: Event)
    requires Inv(good, s) && Enabled(s, e) && (e.Lock? || e.Run?)
    ensures Less(Remaining(Step(good, s, e).0), Remaining(s))
  {
    hide Judged, Counted, Accounted, MasterOk, Failure;
    match e
    case Run(i) =>
      var t' := RunNext(good, s, i).threads[i];
      CountUpdate(s.threads, i, t', Unrun);
    case Lock(i) =>
      EnterOk(good, s, i);
      EnterProgress(good, s, i);
      ProceedProgress(good, Enter(s, i), i);
  }

  lemma EnterProgress(good: Id -> bool, s: State, i: nat)
    requires Inv(good, s) && i < |s.threads| && WantsLock(s.threads[i])
    ensures Less(Remaining(Enter(s, i)), Remaining(s))
  {
    hide Judged, Counted, Accounted, Failure, Count;
    CountUpdate(s.threads, i, Entered, Unrun);
    CountUpdate(s.threads, i, Entered, Batch);
    CountUpdate(s.threads, i, Entered, Awake);
    var ts := s.threads[i := Entered];
    CountUpdate(ts, 0, Woken, Unrun);
    CountUpdate(ts, 0, Woken, Batch);
    CountUpdate(ts, 0, Woken, Awake);
  }

  lemma ProceedProgress(good: Id -> bool, s: State, i: nat)
    requires Inv(good, s) && i < |s.threads| && s.threads[i] == Entered
    ensures Proceed(s, i).0.queue == s.queue ==> Remaining(Proceed(s, i).0) == Remaining(s)
    ensures |Proceed(s, i).0.queue| < |s.queue| || Proceed(s, i).0.queue == s.queue
  {
    hide Judged, Accounted, Failure, Count;
    if s.queue != [] {
      TakeOk(good, s, i);
    } else {
      var t := if i == 0 && s.nTodo == 0 then Outside else Sleeping;
      CountUpdate(s.threads, i, t, Unrun);
      CountUpdate(s.threads, i, t, Batch);
      CountUpdate(s.threads, i, t, Awake);
    }
  }

  //////////////////////////////////////////////////////////////////////////////
  // All together, for every run
  //////////////////////////////////////////////////////////////////////////////

  ghost predicate NoneEntered(s: State) {
    forall k | 0 <= k < |s.threads| :: !s.threads[k].Entered?
  }

  /** Only the thread that has the lock is inside. */
  ghost predicate OnlyEntered(s: State, i: nat) {
    forall k | 0 <= k < |s.threads| && k != i :: !s.threads[k].Entered?
  }

  lemma EnterOnly(s: State, i: nat)
    requires i < |s.threads| && NoneEntered(s)
    ensures OnlyEntered(Enter(s, i), i)
  {
  }

  lemma ProceedNone(s: State, i: nat)
    requires i < |s.threads| && OnlyEntered(s, i) && (s.queue != [] ==> 1 <= BatchLength(s) <= |s.queue|)
    ensures NoneEntered(Proceed(s, i).0)
  {
    hide BatchLength, Popped;
  }

  lemma StepNoneEntered(good: Id -> bool, s: State, e: Event)
    requires Inv(good, s) && Enabled(s, e) && NoneEntered(s)
    ensures NoneEntered(Step(good, s, e).0)
  {
    hide Inv, BatchLength, Enter, Proceed;
    if e.Lock? {
      EnterOk(good, s, e.i);
      EnterOnly(s, e.i);
      if Enter(s, e.i).queue != [] { TakeOk(good, Enter(s, e.i), e.i); }
      ProceedNone(Enter(s, e.i), e.i);
    }
  }

  lemma {:induction false} RunNoneEntered(good: Id -> bool, states: seq<State>, events: seq<Event>, k: nat)
    requires IsRun(good, states, events) && k < |states|
    ensures NoneEntered(states[k])
    decreases k
  {
    hide Step, Inv, Initial;
    if k == 0 {
      InitialNone(states[0]);
    } else {
      RunNoneEntered(good, states, events, k - 1);
      RunInv(good, states, events, k - 1);
      StepNoneEntered(good, states[k - 1], events[k - 1]);
    }
  }

  lemma InitialNone(s: State)
    requires Initial(s)
    ensures NoneEntered(s)
  {
  }

  /** In every state of every run: nTodo is the number of checks queued or in some batch, no check
      has been run twice since the last Wait, the master sleeps only while there is something to
      wait for, and while it is in Wait some thread can go on. */
  lemma RunSafe(good: Id -> bool, states: seq<State>, events: seq<Event>, k: nat)
    requires IsRun(good, states, events) && k < |states|
    ensures var s := states[k];
            && |s.threads| > 0
            && s.nTodo == |s.queue| + |AllHeld(s.threads)|
            && (forall id :: s.run[id] <= 1)
            && (s.threads[0].Sleeping? ==> s.nTodo > 0)
            && (!s.threads[0].Outside? ==> exists i | 0 <= i < |s.threads| :: CanStep(s.threads[i]))
  {
    hide Step, Gather, Judged, Counted;
    var s := states[k];
    RunInv(good, states, events, k);
    RunNoneEntered(good, states, events, k);
    if !s.threads[0].Outside? { NoDeadlock(good, s); }
    RunIsHeld(s.threads);
    forall id ensures s.run[id] <= 1 {
      assert s.added[id] == multiset(s.queue)[id] + AllHeld(s.threads)[id] + s.finished[id];
      assert s.run[id] <= (s.finished + AllRun(s.threads))[id];
    }
  }

  /** In every run, a Wait that returns answers whether all checks added since the last one are
      good, and none has been abandoned if they are. */
  lemma RunAnswers(good: Id -> bool, states: seq<State>, events: seq<Event>, k: nat)
    requires IsRun(good, states, events) && k < |events|
    ensures var out := Step(good, states[k], events[k]).1;
            out.Some? ==>
              && (out.value <==> forall id <- states[k].added :: good(id))
              && (out.value ==> states[k].run == states[k].added)
  {
    hide Step, Inv;
    RunInv(good, states, events, k);
    StepOk(good, states[k], events[k]);
  }

  //////////////////////////////////////////////////////////////////////////////
  // Wait returns
  //////////////////////////////////////////////////////////////////////////////

  /** Whenever some thread can take a step of its own, one of them does. Which one is left open. */
  ghost predicate GoesOn(good: Id -> bool, states: nat -> State, events: nat -> Event, k: nat) {
    var s, e := states(k), events(k);
    (exists i | 0 <= i < |s.threads| :: CanStep(s.threads[i])) ==>
      (e.Lock? || e.Run?) && Enabled(s, e) && states(k + 1) == Step(good, s, e).0
  }

  ghost predicate Schedule(good: Id -> bool, states: nat -> State, events: nat -> Event) {
    forall k: nat :: GoesOn(good, states, events, k)
  }

  /** Wait returns at step `n` and tells whether all of `added` are good. */
  ghost predicate Returns(good: Id -> bool, states: nat -> State, events: nat -> Event, n: nat, added: multiset<Id>) {
    && Enabled(states(n), events(n))
    && var out := Step(good, states(n), events(n)).1;
       out.Some? && (out.value <==> forall id <- added :: good(id))
  }

  /** Until it returns, the master stays in Wait and nothing is forgotten. */
  lemma StaysInWait(good: Id -> bool, s: State, e: Event)
    requires Inv(good, s) && Enabled(s, e) && (e.Lock? || e.Run?) && !s.threads[0].Outside?
    requires Step(good, s, e).1.None?
    ensures var t := Step(good, s, e).0; t.added == s.added && |t.threads| > 0 && !t.threads[0].Outside?
  {
    hide Inv, Enter, Proceed, RunNext;
    if e.Lock? {
      EnterStays(s, e.i);
      ProceedStays(Enter(s, e.i), e.i);
    } else {
      RunStays(good, s, e.i);
    }
  }

  lemma EnterStays(s: State, i: nat)
    requires i < |s.threads| && !s.threads[0].Outside?
    ensures var t := Enter(s, i); t.added == s.added && |t.threads| == |s.threads| && !t.threads[0].Outside?
  {
  }

  lemma ProceedStays(s: State, i: nat)
    requires i < |s.threads| && !s.threads[0].Outside? && Proceed(s, i).1.None?
    ensures var t := Proceed(s, i).0; t.added == s.added && |t.threads| == |s.threads| && !t.threads[0].Outside?
  {
    hide BatchLength, Popped;
  }

  lemma RunStays(good: Id -> bool, s: State, i: nat)
    requires i < |s.threads| && s.threads[i].Working? && s.threads[i].next < |s.threads[i].batch|
    requires !s.threads[0].Outside?
    ensures var t := RunNext(good, s, i); t.added == s.added && |t.threads| == |s.threads| && !t.threads[0].Outside?
  {
  }

  lemma {:induction false} WaitReturns(good: Id -> bool, states: nat -> State, events: nat -> Event, k: nat)
    requires Schedule(good, states, events) && Inv(good, states(k)) && NoneEntered(states(k))
    requires |states(k).threads| > 0 && !states(k).threads[0].Outside?
    ensures exists n: nat :: Returns(good, states, events, n, states(k).added)
    decreases Remaining(states(k)).0, Remaining(states(k)).1, Remaining(states(k)).2, Remaining(states(k)).3
  {
    hide Inv, Remaining, Step, CanStep, Enabled;
    var s, e := states(k), events(k);
    NoDeadlock(good, s);
    assert GoesOn(good, states, events, k);
    StepOk(good, s, e);
    if Step(good, s, e).1.Some? {
      assert Returns(good, states, events, k, s.added);
    } else {
      Progress(good, s, e);
      StaysInWait(good, s, e);
      StepNoneEntered(good, s, e);
      WaitReturns(good, states, events, k + 1);
    }
  }

  /** From every state of every run in which the master is in Wait: whichever threads go on, as long as some
      do, Wait returns after finitely many steps, with the truth about all checks added. */
  lemma WaitEnds(good: Id -> bool, past: seq<State>, pastEvents: seq<Event>, states: nat -> State, events: nat -> Event)
    requires IsRun(good, past, pastEvents) && states(0) == past[|past| - 1]
    requires |states(0).threads| > 0 && !states(0).threads[0].Outside?
    requires Schedule(good, states, events)
    ensures exists n: nat :: Returns(good, states, events, n, states(0).added)
  {
    hide Inv, Step, Schedule, Returns;
    RunInv(good, past, pastEvents, |past| - 1);
    RunNoneEntered(good, past, pastEvents, |past| - 1);
    WaitReturns(good, states, events, 0);
  }
}
