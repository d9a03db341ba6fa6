/** The check queue's shared fields, and what one critical section of the worker loop does to
    them. A check is a name together with the value its operator() returns. */
module CheckQueue {
  import opened Powers

  datatype Check = Check(name: nat, passes: bool)

  datatype Shared = Shared(queue: seq<Check>, nIdle: int, nTotal: int, fAllOk: bool, nTodo: int, nBatchSize: nat)

  function Initial(nBatchSize: nat): Shared { Shared([], 0, 0, true, 0, nBatchSize) }

  /** What a thread does after looking at the queue. */
  datatype Decision = Return(fRet: bool) | Sleep | Take(batch: seq<Check>)

  function Push(sh: Shared, checks: seq<Check>): Shared {
    sh.(queue := sh.queue + checks, nTodo := sh.nTodo + |checks|)
  }

  /** The clean-up of the previous round, or the registration of a thread that has just entered. */
  function CleanUp(sh: Shared, nNow: nat, fOk: bool): Shared {
    if nNow != 0 then sh.(fAllOk := sh.fAllOk && fOk, nTodo := sh.nTodo - nNow)
    else sh.(nTotal := sh.nTotal + 1)
  }

  /** A fair share of the queue. */
  function Share(size: nat, workers: int): (share: nat)
    ensures share <= size
  {
    if workers >= 1 then size / workers else 0
  }

  function BatchSize(sh: Shared): nat {
    var share := Share(|sh.queue|, sh.nTotal + sh.nIdle + 1);
    var wanted := if sh.nBatchSize < share then sh.nBatchSize else share;
    if wanted > 1 then wanted else 1
  }

  /** The batch of n checks popped off the back of the queue. */
  function Popped(queue: seq<Check>, n: nat): (batch: seq<Check>)
    requires n <= |queue|
    ensures |batch| == n
  {
    seq(n, k requires 0 <= k < n => queue[|queue| - 1 - k])
  }

  /** Popping a batch loses no check and invents none. */
  lemma {:induction false} PoppedConserves(queue: seq<Check>, n: nat)
    requires n <= |queue|
    ensures multiset(Popped(queue, n)) + multiset(queue[..|queue| - n]) == multiset(queue)
  {
    if n == 0 {
      assert queue[..|queue| - n] == queue;
    } else {
      var k := |queue| - n;
      PoppedConserves(queue, n - 1);
      assert Popped(queue, n) == Popped(queue, n - 1) + [queue[k]];
      assert queue[..k + 1] == queue[..k] + [queue[k]];
    }
  }

  /** A batch is never empty, never larger than the queue, and no larger than the batch size
      unless that is zero. */
  lemma BatchFits(sh: Shared)
    requires sh.queue != []
    ensures 1 <= BatchSize(sh) <= |sh.queue|
    ensures sh.nBatchSize >= 1 ==> BatchSize(sh) <= sh.nBatchSize
  {
    hide Share;
  }

  lemma ShareExact(size: nat, workers: int, n: nat)
    requires workers >= 1
    ensures n <= Share(size, workers) <==> n * workers <= size
  {
    var q := size / workers;
    Cut(size, workers);
    if n <= q {
      MulMonotone(n, q, workers);
    } else {
      MulMonotone(q + 1, n, workers);
      assert (q + 1) * workers == q * workers + workers;
    }
  }

  /** A batch is the largest within the batch size of which every thread, the idle ones counted twice, and one
      more could get one of the same size out of the queue; or one check. */
  lemma BatchExact(sh: Shared, n: nat)
    requires sh.nTotal + sh.nIdle + 1 >= 1
    ensures n <= BatchSize(sh) <==> n <= 1 || (n <= sh.nBatchSize && n * (sh.nTotal + sh.nIdle + 1) <= |sh.queue|)
  {
    hide Share;
    ShareExact(|sh.queue|, sh.nTotal + sh.nIdle + 1, n);
  }

  function Decide(sh: Shared, fMaster: bool): Decision {
    if sh.queue != [] then
      BatchFits(sh);
      Take(Popped(sh.queue, BatchSize(sh)))
    else if fMaster && sh.nTodo == 0 then Return(sh.fAllOk)
    else Sleep
  }

  function After(sh: Shared, fMaster: bool): Shared {
    match Decide(sh, fMaster)
    case Return(_) => sh.(nTotal := sh.nTotal - 1, fAllOk := if fMaster then true else sh.fAllOk)
    case Sleep => sh.(nIdle := sh.nIdle + 1)
    case Take(batch) =>
      BatchFits(sh);
      sh.(queue := sh.queue[..|sh.queue| - |batch|])
  }

  /** The queue as an object; a method is one critical section. */
  class Queue {
    var queue: seq<Check>
    var nIdle: int
    var nTotal: int
    var fAllOk: bool
    var nTodo: int
    const nBatchSize: nat

    ghost function Contents(): Shared
      reads this
    {
      Shared(queue, nIdle, nTotal, fAllOk, nTodo, nBatchSize)
    }

    constructor (nBatchSizeIn: nat)
      ensures Contents() == Initial(nBatchSizeIn)
    {
      queue, nIdle, nTotal, fAllOk, nTodo, nBatchSize := [], 0, 0, true, 0, nBatchSizeIn;
    }

    /** Add: the number of waiting workers to notify is one, or all of them. */
    method Add(vChecks: seq<Check>) returns (notifyOne: bool, notifyAll: bool)
      modifies this
      ensures Contents() == Push(old(Contents()), vChecks)
      ensures notifyOne == (|vChecks| == 1) && notifyAll == (|vChecks| > 1)
    {
      for i := 0 to |vChecks|
        invariant Contents() == old(Contents()).(queue := old(queue) + vChecks[..i])
      {
        queue := queue + [vChecks[i]];
      }
      assert vChecks[..|vChecks|] == vChecks;
      nTodo := nTodo + |vChecks|;
      notifyOne, notifyAll := |vChecks| == 1, |vChecks| > 1;
    }

    /** The head of a critical section of the loop; says whether the master is notified. */
    method Settle(fMaster: bool, nNow: nat, fOk: bool) returns (notifyMaster: bool)
      modifies this
      ensures Contents() == CleanUp(old(Contents()), nNow, fOk)
      ensures notifyMaster == (nNow != 0 && nTodo == 0 && !fMaster)
    {
      notifyMaster := false;
      if nNow != 0 {
        fAllOk := fAllOk && fOk;
        nTodo := nTodo - nNow;
        if nTodo == 0 && !fMaster {
          notifyMaster := true;
        }
      } else {
        nTotal := nTotal + 1;
      }
    }

    /** The rest of a critical section: leave, go to sleep, or take a batch off the queue. */
    method Proceed(fMaster: bool) returns (d: Decision)
      requires nTotal + nIdle >= 0
      modifies this
      ensures d == Decide(old(Contents()), fMaster) && Contents() == After(old(Contents()), fMaster)
    {
      if queue == [] {
        if fMaster && nTodo == 0 {
          nTotal := nTotal - 1;
          var fRet := fAllOk;
          if fMaster {
            fAllOk := true;
          }
          return Return(fRet);
        }
        nIdle := nIdle + 1;
        return Sleep;
      }
      hide Share;
      BatchFits(Contents());
      var nNow := BatchNow();
      var vChecks := PopBatch(nNow);
      d := Take(vChecks);
    }

    method PopBatch(nNow: nat) returns (vChecks: seq<Check>)
      requires nNow <= |queue|
      modifies this`queue
      ensures vChecks == Popped(old(queue), nNow) && queue == old(queue)[..|old(queue)| - nNow]
    {
      ghost var q := queue;
      vChecks := [];
      for i := 0 to nNow
        invariant queue == q[..|q| - i] && vChecks == Popped(q, i)
      {
        vChecks := vChecks + [queue[|queue| - 1]];
        queue := queue[..|queue| - 1];
      }
    }

    method BatchNow() returns (nNow: nat)
      requires nTotal + nIdle >= 0
      ensures nNow == BatchSize(Contents())
    {
      hide Share;
      var share := Share(|queue|, nTotal + nIdle + 1);
      nNow := if nBatchSize < share then nBatchSize else share;
      if nNow < 1 {
        nNow := 1;
      }
    }

    /** A thread that has been woken up holds the lock again. */
    method Awake()
      modifies this
      ensures Contents() == old(Contents()).(nIdle := old(nIdle) - 1)
    {
      nIdle := nIdle - 1;
    }

    /** A critical section of a thread that takes the lock: what it does next, and whether the master
        is notified. */
    method Enter(fMaster: bool, nNow: nat, fOk: bool) returns (notifyMaster: bool, d: Decision)
      requires nTotal + nIdle >= 0
      modifies this
      ensures var sh := CleanUp(old(Contents()), nNow, fOk);
        && d == Decide(sh, fMaster) && Contents() == After(sh, fMaster)
        && notifyMaster == (nNow != 0 && sh.nTodo == 0 && !fMaster)
    {
      notifyMaster := Settle(fMaster, nNow, fOk);
      d := Proceed(fMaster);
    }

    /** A critical section of a thread that was asleep. */
    method Resume(fMaster: bool) returns (d: Decision)
      requires nTotal + nIdle >= 1
      modifies this
      ensures var sh := old(Contents()).(nIdle := old(nIdle) - 1);
        d == Decide(sh, fMaster) && Contents() == After(sh, fMaster)
    {
      Awake();
      d := Proceed(fMaster);
    }
  }

  /** The work on a batch outside the lock: checks after a failure are skipped. */
  method Evaluate(vChecks: seq<Check>, fAllOk: bool) returns (fOk: bool)
    ensures fOk == (fAllOk && forall i | 0 <= i < |vChecks| :: vChecks[i].passes)
  {
    fOk := fAllOk;
    for i := 0 to |vChecks|
      invariant fOk == (fAllOk && forall j | 0 <= j < i :: vChecks[j].passes)
    {
      if fOk {
        fOk := vChecks[i].passes;
      }
    }
  }
}
