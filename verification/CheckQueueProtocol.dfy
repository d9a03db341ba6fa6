/** All interleavings of one master and any number of workers on a check queue. A critical
    section is one step, and so is the evaluation of one check outside the lock. Thread 0 is
    the master; only the master adds checks, and only between two waits. */
module CheckQueueProtocol {
  import opened CheckQueue

  datatype Thread =
    | Outside
    | AtLock(batch: seq<Check>, fOk: bool)               // about to enter a critical section
    | Inside                                             // in it, about to look at the queue
    | Waiting(notified: bool)                            // asleep on its condition variable
    | Working(batch: seq<Check>, next: nat, fOk: bool)   // evaluating batch[next..]

  /** `added` and `done` are the checks added, and those finished, since the last return of
      the master. */
  datatype System = System(sh: Shared, threads: seq<Thread>, added: seq<Check>, done: multiset<Check>)

  datatype Step =
    | Add(checks: seq<Check>, woken: nat)
    | Enter(i: nat)
    | Lock(i: nat)
    | Wake(i: nat)     // after a notification, or spuriously
    | Evaluate(i: nat)

  function Start(nBatchSize: nat, workers: nat): System {
    System(Initial(nBatchSize), seq(workers + 1, _ => Outside), [], multiset{})
  }

  predicate Enabled(s: System, step: Step) {
    match step
    case Add(checks, woken) =>
      && |s.threads| > 0 && s.threads[0].Outside?
      && (|checks| == 1 && (exists w :: 1 <= w < |s.threads| && s.threads[w].Waiting?) ==>
            1 <= woken < |s.threads| && s.threads[woken].Waiting?)
    case Enter(i) => i < |s.threads| && s.threads[i].Outside?
    case Lock(i) => i < |s.threads| && s.threads[i].AtLock?
    case Wake(i) => i < |s.threads| && s.threads[i].Waiting?
    case Evaluate(i) => i < |s.threads| && s.threads[i].Working?
  }

  function Notified(t: Thread): Thread { if t.Waiting? then Waiting(true) else t }

  /** Every waiting worker is notified. */
  function NotifyWorkers(threads: seq<Thread>): seq<Thread> {
    seq(|threads|, k requires 0 <= k < |threads| => if k == 0 then threads[k] else Notified(threads[k]))
  }

  function AddTo(s: System, checks: seq<Check>, woken: nat): System {
    var threads :=
      if |checks| == 1 then (if 1 <= woken < |s.threads| then s.threads[woken := Notified(s.threads[woken])] else s.threads)
      else if |checks| > 1 then NotifyWorkers(s.threads)
      else s.threads;
    s.(sh := Push(s.sh, checks), threads := threads, added := s.added + checks)
  }

  function NotifyMaster(threads: seq<Thread>): seq<Thread> {
    if |threads| > 0 then threads[0 := Notified(threads[0])] else threads
  }

  /** The clean-up after a batch. */
  function Settled(s: System, i: nat): System
    requires i < |s.threads| && s.threads[i].AtLock?
  {
    var t := s.threads[i];
    var sh := CleanUp(s.sh, |t.batch|, t.fOk);
    var threads := s.threads[i := Inside];
    s.(sh := sh,
       threads := if t.batch != [] && sh.nTodo == 0 && i != 0 then NotifyMaster(threads) else threads,
       done := s.done + multiset(t.batch))
  }

  /** Look at the queue: leave, sleep or take a batch. */
  function Proceed(s: System, i: nat): System
    requires i < |s.threads|
  {
    var sh := After(s.sh, i == 0);
    match Decide(s.sh, i == 0)
    case Return(_) => System(sh, s.threads[i := Outside], [], multiset{})
    case Sleep => s.(sh := sh, threads := s.threads[i := Waiting(false)])
    case Take(batch) => s.(sh := sh, threads := s.threads[i := Working(batch, 0, s.sh.fAllOk)])
  }

  function EvaluateOne(t: Thread): Thread
    requires t.Working?
  {
    if t.next >= |t.batch| then AtLock(t.batch, t.fOk)
    else t.(next := t.next + 1, fOk := t.fOk && t.batch[t.next].passes)
  }

  /** The state in which the stepping thread looks at the queue. */
  function Ready(s: System, step: Step): System
    requires Enabled(s, step) && (step.Lock? || step.Wake?)
  {
    if step.Lock? then Settled(s, step.i)
    else s.(sh := s.sh.(nIdle := s.sh.nIdle - 1), threads := s.threads[step.i := Inside])
  }

  function Next(s: System, step: Step): System
    requires Enabled(s, step)
  {
    match step
    case Add(checks, woken) => AddTo(s, checks, woken)
    case Enter(i) => s.(threads := s.threads[i := AtLock([], true)])
    case Lock(i) => Proceed(Ready(s, step), i)
    case Wake(i) => Proceed(Ready(s, step), i)
    case Evaluate(i) => s.(threads := s.threads[i := EvaluateOne(s.threads[i])])
  }

  /** The value Wait returns in a step, if it is one of the master that returns. */
  predicate Returns(s: System, step: Step, fRet: bool) {
    && Enabled(s, step) && (step.Lock? || step.Wake?) && step.i == 0
    && Decide(Ready(s, step).sh, true) == Return(fRet)
  }

  // ----- counting over the threads

  function HeldBy(t: Thread): multiset<Check> {
    if t.AtLock? || t.Working? then multiset(t.batch) else multiset{}
  }

  function Held(threads: seq<Thread>): multiset<Check> {
    if threads == [] then multiset{} else Held(threads[..|threads| - 1]) + HeldBy(threads[|threads| - 1])
  }

  function Registered(t: Thread): nat {
    if t.Waiting? || t.Working? || t.Inside? || (t.AtLock? && t.batch != []) then 1 else 0
  }

  function Registrations(threads: seq<Thread>): nat {
    if threads == [] then 0 else Registrations(threads[..|threads| - 1]) + Registered(threads[|threads| - 1])
  }

  function Asleep(t: Thread): nat { if t.Waiting? then 1 else 0 }

  function Sleepers(threads: seq<Thread>): nat {
    if threads == [] then 0 else Sleepers(threads[..|threads| - 1]) + Asleep(threads[|threads| - 1])
  }

  /** What replacing one thread does to the three totals. */
  lemma {:induction false} CountsUpdate(threads: seq<Thread>, i: nat, t: Thread)
    requires i < |threads|
    ensures Held(threads[i := t]) + HeldBy(threads[i]) == Held(threads) + HeldBy(t)
    ensures Registrations(threads[i := t]) + Registered(threads[i]) == Registrations(threads) + Registered(t)
    ensures Sleepers(threads[i := t]) + Asleep(threads[i]) == Sleepers(threads) + Asleep(t)
  {
    hide HeldBy, Registered, Asleep;
    var last := |threads| - 1;
    var threads' := threads[i := t];
    if i == last {
      assert threads'[..last] == threads[..last];
    } else {
      assert threads'[..last] == threads[..last][i := t] && threads'[last] == threads[last];
      assert threads[..last][i] == threads[i];
      CountsUpdate(threads[..last], i, t);
      Shift(Held(threads[..last][i := t]), Held(threads[..last]), HeldBy(threads[last]), HeldBy(threads[i]), HeldBy(t));
    }
  }

  lemma Shift(a': multiset<Check>, a: multiset<Check>, l: multiset<Check>, x: multiset<Check>, y: multiset<Check>)
    requires a' + x == a + y
    ensures (a' + l) + x == (a + l) + y
  {
    assert (a' + l) + x == (a' + x) + l;
  }

  /** Replacing a thread by one that holds the same batch, if any. */
  lemma HeldSame(threads: seq<Thread>, i: nat, t: Thread)
    requires i < |threads| && HeldBy(threads[i]) == HeldBy(t)
    ensures Held(threads[i := t]) == Held(threads)
  {
    CountsUpdate(threads, i, t);
    Cancel(Held(threads[i := t]), Held(threads), HeldBy(t));
  }

  lemma Cancel(a: multiset<Check>, b: multiset<Check>, x: multiset<Check>)
    requires a + x == b + x
    ensures a == b
  {
    forall c ensures a[c] == b[c] { assert (a + x)[c] == (b + x)[c]; }
  }

  /** Replacing a thread that holds nothing, or by one that holds nothing. */
  lemma HeldMoves(threads: seq<Thread>, i: nat, t: Thread)
    requires i < |threads|
    ensures HeldBy(threads[i]) == multiset{} ==>
      Held(threads[i := t]) == Held(threads) + HeldBy(t) && |Held(threads[i := t])| == |Held(threads)| + |HeldBy(t)|
    ensures HeldBy(t) == multiset{} ==>
      Held(threads) == Held(threads[i := t]) + HeldBy(threads[i]) && |Held(threads)| == |Held(threads[i := t])| + |HeldBy(threads[i])|
  {
    CountsUpdate(threads, i, t);
    assert Held(threads[i := t]) + multiset{} == Held(threads[i := t]);
    assert Held(threads) + multiset{} == Held(threads);
  }

  ghost predicate SameButNotified(threads: seq<Thread>, threads': seq<Thread>) {
    |threads| == |threads'| &&
    forall k | 0 <= k < |threads| :: threads'[k] == threads[k] || threads'[k] == Notified(threads[k])
  }

  lemma {:induction false} CountsNotified(threads: seq<Thread>, threads': seq<Thread>)
    requires SameButNotified(threads, threads')
    ensures Held(threads') == Held(threads)
    ensures Registrations(threads') == Registrations(threads) && Sleepers(threads') == Sleepers(threads)
  {
    if threads != [] { CountsNotified(threads[..|threads| - 1], threads'[..|threads| - 1]); }
  }

  lemma {:induction false} HeldElement(threads: seq<Thread>, i: nat)
    requires i < |threads|
    ensures HeldBy(threads[i]) <= Held(threads)
  {
    if i < |threads| - 1 { HeldElement(threads[..|threads| - 1], i); }
  }

  lemma {:induction false} HeldSomewhere(threads: seq<Thread>)
    requires |Held(threads)| > 0
    ensures exists i :: 0 <= i < |threads| && |HeldBy(threads[i])| > 0
  {
    var last := |threads| - 1;
    if |HeldBy(threads[last])| == 0 {
      assert HeldBy(threads[last]) == multiset{};
      HeldSomewhere(threads[..last]);
      var i :| 0 <= i < last && |HeldBy(threads[..last][i])| > 0;
      assert |HeldBy(threads[i])| > 0;
    }
  }

  lemma {:induction false} HeldNowhere(workers: nat)
    ensures var ts := seq(workers, _ => Outside);
      Held(ts) == multiset{} && Registrations(ts) == 0 && Sleepers(ts) == 0
  {
    if workers > 0 {
      HeldNowhere(workers - 1);
      assert seq(workers, _ => Outside)[..workers - 1] == seq(workers - 1, _ => Outside);
    }
  }

  // ----- the invariant

  ghost predicate AllPass(checks: multiset<Check>) { forall c | c in checks :: c.passes }

  predicate Failed(checks: seq<Check>) { exists k :: 0 <= k < |checks| && !checks[k].passes }

  /** A thread's partial result: true only if what it has evaluated passes, and false only if
      some check that was added fails. */
  ghost predicate Honest(t: Thread, added: seq<Check>) {
    match t
    case Outside => true
    case Waiting(_) => true
    case Inside => true
    case AtLock(batch, fOk) => if fOk then !Failed(batch) else batch != [] && Failed(added)
    case Working(batch, next, fOk) =>
      && next <= |batch| && batch != []
      && if fOk then !Failed(batch[..next]) else Failed(added)
  }

  ghost predicate Conserved(s: System) {
    && multiset(s.added) == multiset(s.sh.queue) + Held(s.threads) + s.done
    && s.sh.nTodo == |s.sh.queue| + |Held(s.threads)|
  }

  ghost predicate Counted(s: System) {
    s.sh.nTotal == Registrations(s.threads) && s.sh.nIdle == Sleepers(s.threads)
  }

  ghost predicate AllHonest(threads: seq<Thread>, added: seq<Check>) {
    forall i | 0 <= i < |threads| :: Honest(threads[i], added)
  }

  ghost predicate Truthful(s: System) {
    && (if s.sh.fAllOk then AllPass(s.done) else Failed(s.added))
    && AllHonest(s.threads, s.added)
  }

  /** While the master sleeps nothing is queued; if nobody has notified it, something is
      still to be done. */
  ghost predicate Attended(s: System) {
    && |s.threads| > 0
    && (s.threads[0].Waiting? ==> s.sh.queue == [])
    && (s.threads[0] == Waiting(false) ==> s.sh.nTodo > 0)
  }

  ghost predicate Inv(s: System) { Conserved(s) && Counted(s) && Truthful(s) && Attended(s) }

  lemma StartInv(nBatchSize: nat, workers: nat)
    ensures Inv(Start(nBatchSize, workers))
  {
    HeldNowhere(workers + 1);
  }

  // ----- every step keeps it

  lemma FailedMore(a: seq<Check>, b: seq<Check>)
    ensures Failed(a) ==> Failed(a + b)
  {
    if k :| 0 <= k < |a| && !a[k].passes { assert (a + b)[k] == a[k]; }
  }

  lemma FailedPart(batch: seq<Check>, added: seq<Check>)
    requires multiset(batch) <= multiset(added)
    ensures Failed(batch) ==> Failed(added)
  {
    if k :| 0 <= k < |batch| && !batch[k].passes {
      assert batch[k] in multiset(batch);
      assert batch[k] in added;
    }
  }

  lemma AddNotifies(s: System, checks: seq<Check>, woken: nat)
    ensures SameButNotified(s.threads, AddTo(s, checks, woken).threads)
  {
  }

  lemma HonestNotified(threads: seq<Thread>, threads': seq<Thread>, added: seq<Check>, added': seq<Check>)
    requires SameButNotified(threads, threads') && (Failed(added) ==> Failed(added')) && AllHonest(threads, added)
    ensures AllHonest(threads', added')
  {
    forall i | 0 <= i < |threads'| ensures Honest(threads'[i], added') { assert Honest(threads[i], added); }
  }

  lemma HonestUpdate(threads: seq<Thread>, i: nat, t: Thread, added: seq<Check>)
    requires i < |threads| && AllHonest(threads, added) && Honest(t, added)
    ensures AllHonest(threads[i := t], added)
  {
  }

  lemma AddKeeps(s: System, checks: seq<Check>, woken: nat)
    requires Inv(s) && Enabled(s, Add(checks, woken))
    ensures Inv(AddTo(s, checks, woken))
  {
    hide Held, Registrations, Sleepers, Failed, Honest, SameButNotified, AllPass;
    var t := AddTo(s, checks, woken);
    AddNotifies(s, checks, woken);
    CountsNotified(s.threads, t.threads);
    FailedMore(s.added, checks);
    HonestNotified(s.threads, t.threads, s.added, t.added);
    assert t.threads[0] == s.threads[0];
  }

  /** A step outside the lock replaces a thread by one that counts the same. */
  lemma ReplaceKeeps(s: System, i: nat, t: Thread)
    requires Inv(s) && i < |s.threads| && Honest(t, s.added)
    requires HeldBy(t) == HeldBy(s.threads[i]) && Registered(t) == Registered(s.threads[i])
    requires !t.Waiting? && !s.threads[i].Waiting?
    ensures Inv(s.(threads := s.threads[i := t]))
  {
    hide Held, HeldBy, Registered, Registrations, Sleepers, AllPass, AllHonest, Honest, Failed;
    CountsUpdate(s.threads, i, t);
    HeldSame(s.threads, i, t);
    HonestUpdate(s.threads, i, t, s.added);
  }

  lemma EnterKeeps(s: System, i: nat)
    requires Inv(s) && Enabled(s, Enter(i))
    ensures Inv(Next(s, Enter(i)))
  {
    hide Inv;
    assert HeldBy(AtLock([], true)) == multiset{};
    ReplaceKeeps(s, i, AtLock([], true));
  }

  lemma EvaluateKeeps(s: System, i: nat)
    requires Inv(s) && Enabled(s, Evaluate(i))
    ensures Inv(Next(s, Evaluate(i)))
  {
    HonestEvaluation(s, i);
    hide Inv, Honest;
    ReplaceKeeps(s, i, EvaluateOne(s.threads[i]));
  }

  lemma HonestEvaluation(s: System, i: nat)
    requires Inv(s) && i < |s.threads| && s.threads[i].Working?
    ensures Honest(EvaluateOne(s.threads[i]), s.added) && s.threads[i].batch != []
  {
    hide Registrations, Sleepers, AllPass;
    var t := s.threads[i];
    assert Honest(t, s.added);
    if t.next < |t.batch| {
      assert t.batch[..t.next + 1] == t.batch[..t.next] + [t.batch[t.next]];
      if t.fOk && !t.batch[t.next].passes {
        HeldElement(s.threads, i);
        assert Failed(t.batch);
        FailedPart(t.batch, s.added);
      }
    } else {
      assert t.batch[..t.next] == t.batch;
    }
  }

  lemma SettledKeeps(s: System, i: nat)
    requires Inv(s) && i < |s.threads| && s.threads[i].AtLock?
    ensures Inv(Settled(s, i)) && i < |Settled(s, i).threads| && Settled(s, i).threads[i].Inside?
  {
    SettledCounts(s, i);
    SettledTruth(s, i);
    SettledAttended(s, i);
    hide Conserved, Counted, Truthful, Attended;
  }

  lemma SettledCounts(s: System, i: nat)
    requires Conserved(s) && Counted(s) && i < |s.threads| && s.threads[i].AtLock?
    ensures Conserved(Settled(s, i)) && Counted(Settled(s, i))
  {
    hide Held, Registrations, Sleepers, NotifyMaster, SameButNotified;
    var u := Settled(s, i);
    var threads := s.threads[i := Inside];
    CountsUpdate(s.threads, i, Inside);
    HeldMoves(s.threads, i, Inside);
    MasterNotified(threads, u.threads);
    SettledConserves(s.threads[i].batch, Held(s.threads), Held(threads), s.done, multiset(s.sh.queue));
  }

  lemma SettledTruth(s: System, i: nat)
    requires Inv(s) && i < |s.threads| && s.threads[i].AtLock?
    ensures Truthful(Settled(s, i))
  {
    SettledOk(s, i);
    hide Held, Registrations, Sleepers, Failed, AllPass, Honest, AllHonest, NotifyMaster, SameButNotified;
    var u := Settled(s, i);
    var threads := s.threads[i := Inside];
    InsideHonest(s.added);
    HonestUpdate(s.threads, i, Inside, s.added);
    MasterNotified(threads, u.threads);
    HonestNotified(threads, u.threads, s.added, s.added);
  }

  lemma SettledAttended(s: System, i: nat)
    requires Inv(s) && i < |s.threads| && s.threads[i].AtLock? && Conserved(Settled(s, i))
    ensures Attended(Settled(s, i)) && i < |Settled(s, i).threads| && Settled(s, i).threads[i].Inside?
  {
    hide Counted, Truthful, Held;
  }

  lemma InsideHonest(added: seq<Check>)
    ensures Honest(Inside, added)
  {
  }

  lemma WaitingHonest(added: seq<Check>)
    ensures Honest(Waiting(false), added)
  {
  }

  lemma MasterNotified(threads: seq<Thread>, threads': seq<Thread>)
    requires threads' == threads || threads' == NotifyMaster(threads)
    ensures SameButNotified(threads, threads')
    ensures Held(threads') == Held(threads)
    ensures Registrations(threads') == Registrations(threads) && Sleepers(threads') == Sleepers(threads)
  {
    CountsNotified(threads, threads');
  }

  lemma SettledConserves(batch: seq<Check>, held: multiset<Check>, held': multiset<Check>, done: multiset<Check>, queued: multiset<Check>)
    requires held == held' + multiset(batch)
    ensures |held| == |held'| + |batch| && queued + held + done == queued + held' + (done + multiset(batch))
  {
  }

  lemma SettledOk(s: System, i: nat)
    requires Inv(s) && i < |s.threads| && s.threads[i].AtLock?
    ensures var u := Settled(s, i); if u.sh.fAllOk then AllPass(u.done) else Failed(u.added)
  {
    hide Held, Registrations, Sleepers, Conserved, Counted;
    var t := s.threads[i];
    assert Honest(t, s.added);
    if t.fOk {
      forall c | c in multiset(t.batch) ensures c.passes {
        var k :| 0 <= k < |t.batch| && t.batch[k] == c;
      }
    }
  }

  lemma ReadyKeeps(s: System, step: Step)
    requires Inv(s) && Enabled(s, step) && (step.Lock? || step.Wake?)
    ensures Inv(Ready(s, step))
    ensures step.i < |Ready(s, step).threads| && Ready(s, step).threads[step.i].Inside?
  {
    hide Held, Registrations, Sleepers, Failed, AllPass, Honest, AllHonest;
    if step.Lock? {
      SettledKeeps(s, step.i);
    } else {
      CountsUpdate(s.threads, step.i, Inside);
      HeldSame(s.threads, step.i, Inside);
      InsideHonest(s.added);
      HonestUpdate(s.threads, step.i, Inside, s.added);
    }
  }

  lemma ProceedKeeps(s: System, i: nat)
    requires Inv(s) && i < |s.threads| && s.threads[i].Inside?
    ensures Inv(Proceed(s, i))
  {
    hide Held, Registrations, Sleepers, Failed, AllPass, BatchSize, AllHonest, Popped, Honest;
    match Decide(s.sh, i == 0)
    case Return(_) =>
      ReturnKeeps(s, i);
    case Sleep =>
      CountsUpdate(s.threads, i, Waiting(false));
      HeldSame(s.threads, i, Waiting(false));
      WaitingHonest(s.added);
      HonestUpdate(s.threads, i, Waiting(false), s.added);
      SleepAttended(s, i);
    case Take(batch) =>
      TakeKeeps(s, i);
  }

  lemma TakeKeeps(s: System, i: nat)
    requires Inv(s) && i < |s.threads| && s.threads[i].Inside? && Decide(s.sh, i == 0).Take?
    ensures Inv(Proceed(s, i))
  {
    TakeCounts(s, i);
    TakeTruth(s, i);
    hide Conserved, Counted, Truthful;
  }

  lemma TakeCounts(s: System, i: nat)
    requires Conserved(s) && Counted(s) && i < |s.threads| && s.threads[i].Inside? && Decide(s.sh, i == 0).Take?
    ensures Conserved(Proceed(s, i)) && Counted(Proceed(s, i))
  {
    hide Held, Registrations, Sleepers, BatchSize, Popped, Share;
    BatchFits(s.sh);
    var batch := Popped(s.sh.queue, BatchSize(s.sh));
    Numbers(s.threads, i, Working(batch, 0, s.sh.fAllOk));
    PoppedConserves(s.sh.queue, BatchSize(s.sh));
    TakeConserves(s, i, batch, s.sh.queue[..|s.sh.queue| - |batch|]);
  }

  lemma Numbers(threads: seq<Thread>, i: nat, t: Thread)
    requires i < |threads|
    ensures Registrations(threads[i := t]) + Registered(threads[i]) == Registrations(threads) + Registered(t)
    ensures Sleepers(threads[i := t]) + Asleep(threads[i]) == Sleepers(threads) + Asleep(t)
  {
    CountsUpdate(threads, i, t);
  }

  lemma TakeConserves(s: System, i: nat, batch: seq<Check>, queue: seq<Check>)
    requires Conserved(s) && i < |s.threads| && s.threads[i].Inside?
    requires multiset(batch) + multiset(queue) == multiset(s.sh.queue)
    ensures var threads := s.threads[i := Working(batch, 0, s.sh.fAllOk)];
      && multiset(s.added) == multiset(queue) + Held(threads) + s.done
      && s.sh.nTodo == |queue| + |Held(threads)|
  {
    hide Held;
    BatchHeld(s.threads, i, batch, s.sh.fAllOk);
    assert |multiset(s.sh.queue)| == |s.sh.queue| && |multiset(queue)| == |queue| && |multiset(batch)| == |batch|;
  }

  lemma BatchHeld(threads: seq<Thread>, i: nat, batch: seq<Check>, fOk: bool)
    requires i < |threads| && threads[i].Inside?
    ensures Held(threads[i := Working(batch, 0, fOk)]) == Held(threads) + multiset(batch)
  {
    HeldMoves(threads, i, Working(batch, 0, fOk));
  }

  lemma TakeTruth(s: System, i: nat)
    requires Truthful(s) && i < |s.threads| && s.threads[i].Inside? && Decide(s.sh, i == 0).Take?
    ensures Truthful(Proceed(s, i))
  {
    hide Failed, AllPass, BatchSize, AllHonest, Popped, Share;
    BatchFits(s.sh);
    var batch := Popped(s.sh.queue, BatchSize(s.sh));
    NothingFailed(batch);
    HonestUpdate(s.threads, i, Working(batch, 0, s.sh.fAllOk), s.added);
  }

  lemma SleepAttended(s: System, i: nat)
    requires Inv(s) && i < |s.threads| && s.threads[i].Inside? && Decide(s.sh, i == 0).Sleep?
    ensures Attended(Proceed(s, i))
  {
    hide Registrations, Sleepers, Failed, AllPass, Share, AllHonest;
  }

  lemma NothingFailed(batch: seq<Check>)
    ensures !Failed(batch[..0])
  {
  }

  /** When the master leaves, nothing is queued and no thread holds a batch. */
  lemma NothingLeft(s: System)
    requires Conserved(s) && s.sh.queue == [] && s.sh.nTodo == 0
    ensures Held(s.threads) == multiset{} && multiset(s.added) == s.done
  {
  }

  lemma ReturnKeeps(s: System, i: nat)
    requires Inv(s) && i < |s.threads| && s.threads[i].Inside? && Decide(s.sh, i == 0).Return?
    ensures Inv(Proceed(s, i))
  {
    hide Registrations, Sleepers, AllPass, Held, AllHonest, Failed;
    NothingLeft(s);
    CountsUpdate(s.threads, i, Outside);
    HeldSame(s.threads, i, Outside);
    ForgetAdded(s.threads, s.added);
    HonestUpdate(s.threads, i, Outside, []);
    assert AllPass(multiset{}) by { NothingFails(); }
  }

  lemma NothingFails()
    ensures AllPass(multiset{})
  {
  }

  /** Threads that hold no batch do not depend on the checks that were added. */
  lemma ForgetAdded(threads: seq<Thread>, added: seq<Check>)
    requires AllHonest(threads, added) && Held(threads) == multiset{}
    ensures AllHonest(threads, [])
  {
    hide Held;
    forall k | 0 <= k < |threads| ensures Honest(threads[k], []) {
      HeldElement(threads, k);
      assert Honest(threads[k], added);
      if threads[k].AtLock? || threads[k].Working? {
        NoElements(threads[k].batch);
      }
    }
  }

  lemma NoElements(batch: seq<Check>)
    requires multiset(batch) <= multiset{}
    ensures batch == []
  {
    assert |multiset(batch)| == |batch|;
  }

  lemma StepKeeps(s: System, step: Step)
    requires Inv(s) && Enabled(s, step)
    ensures Inv(Next(s, step))
  {
    hide Inv, AddTo, Ready, Proceed, EvaluateOne;
    match step
    case Add(checks, woken) => AddKeeps(s, checks, woken);
    case Enter(i) => EnterKeeps(s, i);
    case Lock(i) => ReadyKeeps(s, step); ProceedKeeps(Ready(s, step), i);
    case Wake(i) => ReadyKeeps(s, step); ProceedKeeps(Ready(s, step), i);
    case Evaluate(i) => EvaluateKeeps(s, i);
  }

  // ----- whole runs

  ghost predicate IsRun(run: seq<System>, steps: seq<Step>, nBatchSize: nat, workers: nat) {
    && |run| == |steps| + 1 && run[0] == Start(nBatchSize, workers)
    && forall k | 0 <= k < |steps| :: Enabled(run[k], steps[k]) && run[k + 1] == Next(run[k], steps[k])
  }

  /** Every state of every run satisfies the invariant. */
  lemma {:induction false} RunKeeps(run: seq<System>, steps: seq<Step>, nBatchSize: nat, workers: nat, k: nat)
    requires IsRun(run, steps, nBatchSize, workers) && k < |run|
    ensures Inv(run[k])
  {
    hide Inv, Next, Enabled, Start;
    if k == 0 {
      StartInv(nBatchSize, workers);
    } else {
      RunKeeps(run, steps, nBatchSize, workers, k - 1);
      assert run[k] == Next(run[k - 1], steps[k - 1]);
      StepKeeps(run[k - 1], steps[k - 1]);
    }
  }

  /** In every interleaving Wait returns true exactly when every check added since the
      previous return of Wait passes, although checks after a failure may be skipped. */
  lemma WaitIsExact(run: seq<System>, steps: seq<Step>, nBatchSize: nat, workers: nat, k: nat, fRet: bool)
    requires IsRun(run, steps, nBatchSize, workers) && k < |steps| && Returns(run[k], steps[k], fRet)
    ensures fRet <==> forall c | c in run[k].added :: c.passes
  {
    RunKeeps(run, steps, nBatchSize, workers, k);
    ReturnIsExact(run[k], steps[k], fRet);
  }

  lemma ReturnIsExact(s: System, step: Step, fRet: bool)
    requires Inv(s) && Returns(s, step, fRet)
    ensures fRet <==> forall c | c in s.added :: c.passes
  {
    hide Held, Registrations, Sleepers, AllHonest, Settled;
    ReadyKeeps(s, step);
    var u := Ready(s, step);
    SameAdded(s, step);
    NothingLeft(u);
    if fRet {
      forall c | c in s.added ensures c.passes { assert c in multiset(u.added); }
    } else {
      var k :| 0 <= k < |u.added| && !u.added[k].passes;
      assert u.added[k] in s.added;
    }
  }

  lemma SameAdded(s: System, step: Step)
    requires Enabled(s, step) && (step.Lock? || step.Wake?)
    ensures Ready(s, step).added == s.added
  {
  }

  /** In every reachable state nTodo counts the queued checks and those in unfinished
      batches, and the two thread counters are exact. */
  lemma TodoIsExact(run: seq<System>, steps: seq<Step>, nBatchSize: nat, workers: nat, k: nat)
    requires IsRun(run, steps, nBatchSize, workers) && k < |run|
    ensures run[k].sh.nTodo == |run[k].sh.queue| + |Held(run[k].threads)|
    ensures run[k].sh.nTotal == Registrations(run[k].threads) && run[k].sh.nIdle == Sleepers(run[k].threads)
    ensures multiset(run[k].added) == multiset(run[k].sh.queue) + Held(run[k].threads) + run[k].done
  {
    RunKeeps(run, steps, nBatchSize, workers, k);
  }

  /** No wake-up of the master is lost: while it sleeps unnotified, some worker holds an
      unfinished batch, and that worker can take a step. */
  lemma SleepingMasterIsAttended(run: seq<System>, steps: seq<Step>, nBatchSize: nat, workers: nat, k: nat) returns (w: nat)
    requires IsRun(run, steps, nBatchSize, workers) && k < |run|
    requires |run[k].threads| > 0 && run[k].threads[0] == Waiting(false)
    ensures 1 <= w < |run[k].threads| && |HeldBy(run[k].threads[w])| > 0
    ensures Enabled(run[k], Lock(w)) || Enabled(run[k], Evaluate(w))
  {
    RunKeeps(run, steps, nBatchSize, workers, k);
    w := BatchHolder(run[k]);
  }

  lemma BatchHolder(s: System) returns (w: nat)
    requires Conserved(s) && Attended(s) && s.threads[0] == Waiting(false)
    ensures 1 <= w < |s.threads| && |HeldBy(s.threads[w])| > 0
    ensures Enabled(s, Lock(w)) || Enabled(s, Evaluate(w))
  {
    hide Held;
    HeldSomewhere(s.threads);
    var i :| 0 <= i < |s.threads| && |HeldBy(s.threads[i])| > 0;
    w := i;
  }

  /** A critical section takes a batch of at least one check and no more than are queued. */
  lemma TakenFits(s: Shared, fMaster: bool)
    requires Decide(s, fMaster).Take?
    ensures 1 <= |Decide(s, fMaster).batch| <= |s.queue|
    ensures s.nBatchSize >= 1 ==> |Decide(s, fMaster).batch| <= s.nBatchSize
  {
    BatchFits(s);
  }
}
