/** The compression pool: one batch of jobs, claimed, executed and awaited by the submitter and the
    workers in any interleaving of their atomic steps. */
module CompressionPool {
  import opened Blocks

  /** Where a thread is. Thread 0 is the submitter. */
  datatype Phase =
    | Start                      // submitter: about to take the mutex and publish the batch
    | Publish                    // submitter: publishing, holds the mutex
    | Claim(n: nat)              // about to claim the next job, n claimed so far
    | Exec(job: nat, n: nat)     // executing a job, which n counts
    | AddDone(n: nat)            // about to add its n jobs to the completion count
    | LockSignal                 // completed the batch, about to take the mutex
    | Signal                     // about to signal completion, holds the mutex
    | Idle                       // worker: about to take the mutex
    | Test                       // worker: looking for work, holds the mutex
    | Asleep                     // worker: waiting for work
    | Async                      // worker: running an asynchronous job
    | Wait                       // submitter: about to take the mutex
    | Check                      // submitter: reading the completion count, holds the mutex
    | Doze                       // submitter: found jobs missing, still holds the mutex
    | Dozing                     // submitter: waiting for completion
    | Left                       // submitter: the batch is over

  /** A worker remembers the last generation it saw; a thread without compression contexts runs no jobs. */
  datatype Thread = Thread(phase: Phase, gen: nat, able: bool)

  datatype State<!R> = State(
    threads: seq<Thread>,
    mutex: Option<nat>,
    generation: nat,
    active: bool,
    asyncs: nat,
    next: nat,
    done: nat,
    results: seq<Option<R>>,
    finished: multiset<nat>)

  predicate Holding(p: Phase) {
    p.Publish? || p.Signal? || p.Test? || p.Check? || p.Doze?
  }

  /** The phases of the two kinds of thread. */
  predicate Proper(t: nat, p: Phase) {
    if t == 0 then !(p.Idle? || p.Test? || p.Asleep? || p.Async?)
    else !(p.Start? || p.Publish? || p.Wait? || p.Check? || p.Doze? || p.Dozing? || p.Left?)
  }

  function Put<R>(s: State<R>, t: nat, p: Phase): State<R>
    requires t < |s.threads|
  {
    s.(threads := s.threads[t := s.threads[t].(phase := p)])
  }

  /** Where a thread goes after its part of the batch. */
  function Rest(t: nat): Phase {
    if t == 0 then Wait else Idle
  }

  /** A broadcast on work_avail. */
  function Roused(th: Thread): Thread {
    if th.phase.Asleep? then th.(phase := Idle) else th
  }

  function Broadcast(ts: seq<Thread>): seq<Thread> {
    seq(|ts|, i requires 0 <= i < |ts| => Roused(ts[i]))
  }

  /** A signal on batch_done, on which only the submitter waits. */
  function Signalled<R>(s: State<R>): State<R>
    requires |s.threads| > 0
  {
    if s.threads[0].phase.Dozing? then Put(s, 0, Wait) else s
  }

  /** The next atomic step of thread t; None while it is blocked, asleep or gone. */
  function Step<J, R>(s: State<R>, jobs: seq<J>, work: J -> R, t: nat): (r: Option<State<R>>)
    requires t < |s.threads| && |s.results| == |jobs|
    ensures r.Some? ==> |r.value.results| == |jobs| && |r.value.threads| == |s.threads|
  {
    var th := s.threads[t];
    match th.phase
    case Start => Lock(s, t, Publish)
    case Publish =>
      Some(Put(s.(active := true, generation := (s.generation + 1) % 0x1_0000_0000, mutex := None,
                  threads := Broadcast(s.threads)), t, Claim(0)))
    case Claim(n) =>
      if s.next < |jobs| then Some(Put(s.(next := s.next + 1), t, Exec(s.next, n + 1)))
      else Some(Put(s.(next := s.next + 1), t, if n > 0 then AddDone(n) else Rest(t)))
    case Exec(job, n) =>
      if job >= |jobs| then None
      else
        var results := s.results[job := Some(work(jobs[job]))];
        Some(Put(s.(results := results, finished := s.finished + multiset{job}), t, Claim(n)))
    case AddDone(n) =>
      Some(Put(s.(done := s.done + n), t, if s.done + n >= |jobs| then LockSignal else Rest(t)))
    case LockSignal => Lock(s, t, Signal)
    case Signal => Some(Put(Signalled(s.(mutex := None)), t, Rest(t)))
    case Idle => Lock(s, t, Test)
    case Test =>
      if s.generation == th.gen && s.asyncs == 0 then Some(Put(s.(mutex := None), t, Asleep))
      else if s.asyncs > 0 then Some(Put(s.(mutex := None, asyncs := s.asyncs - 1), t, Async))
      else
        var s' := s.(mutex := None, threads := s.threads[t := th.(gen := s.generation)]);
        Some(Put(s', t, if s.active && th.able then Claim(0) else Idle))
    case Asleep => None
    case Async => Some(Put(s, t, Idle))
    case Wait => Lock(s, t, Check)
    case Check =>
      if s.done < |jobs| then Some(Put(s, t, Doze)) else Some(Put(s.(active := false, mutex := None), t, Left))
    case Doze => Some(Put(s.(mutex := None), t, Dozing))
    case Dozing => None
    case Left => None
  }

  function Lock<R>(s: State<R>, t: nat, p: Phase): Option<State<R>>
    requires t < |s.threads|
  {
    if s.mutex.Some? then None else Some(Put(s.(mutex := Some(t)), t, p))
  }

  /** A spurious return from a condition wait. */
  function Spurious<R>(s: State<R>, t: nat): Option<State<R>>
    requires t < |s.threads|
  {
    match s.threads[t].phase
    case Asleep => Some(Put(s, t, Idle))
    case Dozing => Some(Put(s, t, Wait))
    case _ => None
  }

  /** A quiescent pool with a batch filled in, and async jobs possibly queued; the submitter has its
      compression contexts. */
  ghost predicate Initial<R>(s: State<R>, total: nat) {
    && |s.threads| > 0 && s.threads[0] == Thread(Start, s.threads[0].gen, true)
    && (forall t | 1 <= t < |s.threads| ::
        s.threads[t].gen == s.generation && (s.threads[t].phase.Idle? || s.threads[t].phase.Asleep?))
    && s.mutex == None && !s.active && s.next == 0 && s.done == 0 && s.generation < 0x1_0000_0000
    && |s.results| == total && s.finished == multiset{}
  }

  // ----- the invariant

  /** Jobs a thread has claimed and not yet added to the completion count. */
  function Uncounted(p: Phase): nat {
    match p
    case Claim(n) => n
    case Exec(job, n) => n
    case AddDone(n) => n
    case _ => 0
  }

  function Sum(ts: seq<Thread>): nat {
    if ts == [] then 0 else Uncounted(ts[0].phase) + Sum(ts[1..])
  }

  function Claimed(next: nat, total: nat): nat {
    if next < total then next else total
  }

  /** A thread that will signal completion. */
  ghost predicate WillSignal(p: Phase) {
    p.LockSignal? || p.Signal?
  }

  ghost predicate SomeSignal(ts: seq<Thread>) {
    exists t :: 0 <= t < |ts| && WillSignal(ts[t].phase)
  }

  ghost predicate ThreadOk(ts: seq<Thread>, t: nat, mutex: Option<nat>, next: nat, total: nat, finished: multiset<nat>)
    requires t < |ts|
  {
    var p := ts[t].phase;
    && Proper(t, p)
    && (mutex == Some(t) <==> Holding(p))
    && (p.Exec? ==> p.n > 0 && p.job < Claimed(next, total) && finished[p.job] == 0)
    && (p.AddDone? ==> p.n > 0)
  }

  /** The submitter stops claiming only when nothing is left to claim. */
  ghost predicate Past(p: Phase) {
    p.Wait? || p.Check? || p.Doze? || p.Dozing? || p.Left? || p.AddDone? || WillSignal(p)
  }

  ghost predicate ExecutedBy(ts: seq<Thread>, t: nat, job: nat) {
    t < |ts| && ts[t].phase.Exec? && ts[t].phase.job == job
  }

  ghost predicate JobOk<J, R>(s: State<R>, jobs: seq<J>, work: J -> R, i: nat)
    requires i < |jobs| == |s.results|
  {
    if i >= s.next then s.finished[i] == 0
    else if s.finished[i] == 0 then exists t :: ExecutedBy(s.threads, t, i)
    else s.finished[i] == 1 && s.results[i] == Some(work(jobs[i]))
  }

  ghost predicate ThreadsOk<R>(s: State<R>, total: nat) {
    forall t | 0 <= t < |s.threads| :: ThreadOk(s.threads, t, s.mutex, s.next, total, s.finished)
  }

  /** No job is executed by two threads. */
  ghost predicate OneEach(ts: seq<Thread>) {
    forall t, u, j | ExecutedBy(ts, t, j) && ExecutedBy(ts, u, j) :: t == u
  }

  ghost predicate JobsOk<J, R>(s: State<R>, jobs: seq<J>, work: J -> R)
    requires |jobs| == |s.results|
  {
    (forall i | 0 <= i < |jobs| :: JobOk(s, jobs, work, i)) && (forall j | j in s.finished :: j < |jobs|)
  }

  /** The completion count with the jobs not yet added is the number of jobs claimed; the submitter passes on
      only when it may, and does not wait in vain. */
  ghost predicate Counted<R>(s: State<R>, total: nat)
    requires |s.threads| > 0
  {
    && s.done + Sum(s.threads) == Claimed(s.next, total)
    && (Past(s.threads[0].phase) ==> s.next >= total)
    && (s.threads[0].phase.Left? ==> s.done >= total)
    && (Dozes(s.threads[0].phase) && s.done >= total ==> SomeSignal(s.threads))
  }

  ghost predicate Dozes(p: Phase) {
    p.Doze? || p.Dozing?
  }

  ghost predicate Inv<J, R>(s: State<R>, jobs: seq<J>, work: J -> R) {
    && |s.results| == |jobs| && |s.threads| > 0 && s.threads[0].able
    && (s.mutex.Some? ==> s.mutex.value < |s.threads|)
    && ThreadsOk(s, |jobs|) && OneEach(s.threads) && JobsOk(s, jobs, work) && Counted(s, |jobs|)
  }

  lemma {:induction false} SumPut(ts: seq<Thread>, t: nat, th: Thread)
    requires t < |ts|
    ensures Sum(ts[t := th]) + Uncounted(ts[t].phase) == Sum(ts) + Uncounted(th.phase)
  {
    if t == 0 {
      assert ts[0 := th][1..] == ts[1..];
    } else {
      assert ts[t := th][1..] == ts[1..][t - 1 := th];
      SumPut(ts[1..], t - 1, th);
    }
  }

  lemma {:induction false} SumZero(ts: seq<Thread>)
    requires forall t | 0 <= t < |ts| :: Uncounted(ts[t].phase) == 0
    ensures Sum(ts) == 0
  {
    if ts != [] {
      SumZero(ts[1..]);
    }
  }

  lemma {:induction false} SumAtLeast(ts: seq<Thread>, t: nat)
    requires t < |ts|
    ensures Sum(ts) >= Uncounted(ts[t].phase)
  {
    if t > 0 {
      SumAtLeast(ts[1..], t - 1);
    }
  }

  lemma {:induction false} SumBroadcast(ts: seq<Thread>)
    ensures Sum(Broadcast(ts)) == Sum(ts)
  {
    if ts != [] {
      assert Broadcast(ts)[1..] == Broadcast(ts[1..]);
      SumBroadcast(ts[1..]);
    }
  }

  lemma {:induction false} InitialInv<J, R>(s: State<R>, jobs: seq<J>, work: J -> R)
    requires Initial(s, |jobs|)
    ensures Inv(s, jobs, work)
  {
    SumZero(s.threads);
  }

  // ----- preservation

  /** A step that changes neither jobs nor counters, by a thread that claims nothing before and after. */
  ghost predicate Quiet<R>(s: State<R>, s': State<R>) {
    && s'.next == s.next && s'.done == s.done && s'.results == s.results && s'.finished == s.finished
    && |s'.threads| == |s.threads|
  }

  /** No thread starts or stops executing. */
  ghost predicate SameExec(ts: seq<Thread>, ts': seq<Thread>) {
    && |ts| == |ts'|
    && forall t | 0 <= t < |ts| :: (ts[t].phase.Exec? || ts'[t].phase.Exec?) ==> ts[t].phase == ts'[t].phase
  }

  lemma {:induction false} ExecKept(ts: seq<Thread>, ts': seq<Thread>, t: nat, j: nat)
    requires SameExec(ts, ts')
    ensures ExecutedBy(ts, t, j) <==> ExecutedBy(ts', t, j)
  {
  }

  lemma {:induction false} SameExecPut(ts: seq<Thread>, t: nat, th: Thread)
    requires t < |ts| && !ts[t].phase.Exec? && !th.phase.Exec?
    ensures SameExec(ts, ts[t := th])
  {
  }

  lemma {:induction false} JobsKept<J, R>(s: State<R>, s': State<R>, jobs: seq<J>, work: J -> R)
    requires |s.results| == |jobs| && JobsOk(s, jobs, work) && OneEach(s.threads) && SameExec(s.threads, s'.threads)
    requires s'.results == s.results && s'.finished == s.finished && Claimed(s'.next, |jobs|) == Claimed(s.next, |jobs|)
    ensures JobsOk(s', jobs, work) && OneEach(s'.threads)
  {
    forall i | 0 <= i < |jobs| ensures JobOk(s', jobs, work, i) {
      assert JobOk(s, jobs, work, i);
      if i < s.next && s.finished[i] == 0 {
        var t: nat :| ExecutedBy(s.threads, t, i);
        ExecKept(s.threads, s'.threads, t, i);
      }
    }
    forall t, u, j | ExecutedBy(s'.threads, t, j) && ExecutedBy(s'.threads, u, j) ensures t == u {
      ExecKept(s.threads, s'.threads, t, j);
      ExecKept(s.threads, s'.threads, u, j);
    }
  }

  lemma {:induction false} OkThread<R>(s: State<R>, total: nat, t: nat)
    requires ThreadsOk(s, total) && t < |s.threads|
    ensures ThreadOk(s.threads, t, s.mutex, s.next, total, s.finished)
  {
  }

  /** Thread t takes the mutex, gives it back or leaves it alone. */
  predicate OwnMutex(m: Option<nat>, m': Option<nat>, t: nat) {
    m == m' || ((m.None? || m.value == t) && (m'.None? || m'.value == t))
  }

  /** A change of one thread, which the other threads do not notice. */
  lemma {:induction false} ThreadsPut<R>(s: State<R>, s': State<R>, total: nat, t: nat, th: Thread)
    requires t < |s.threads| && s'.threads == s.threads[t := th] && ThreadsOk(s, total)
    requires ThreadOk(s'.threads, t, s'.mutex, s'.next, total, s'.finished)
    requires OwnMutex(s.mutex, s'.mutex, t) && s.next <= s'.next
    requires forall u, j | u != t && ExecutedBy(s.threads, u, j) :: s'.finished[j] == s.finished[j]
    ensures ThreadsOk(s', total)
  {
    forall u | 0 <= u < |s'.threads| ensures ThreadOk(s'.threads, u, s'.mutex, s'.next, total, s'.finished) {
      OkThread(s, total, u);
      assert s.threads[u].phase.Exec? ==> ExecutedBy(s.threads, u, s.threads[u].phase.job);
    }
  }

  /** Taking the mutex. */
  lemma {:induction false} LockKeeps<J, R>(s: State<R>, jobs: seq<J>, work: J -> R, t: nat, p: Phase)
    requires Inv(s, jobs, work) && t < |s.threads| && s.mutex.None?
    requires var q := s.threads[t].phase;
      || (q.Start? && p == Publish) || (q.LockSignal? && p == Signal)
      || (q.Idle? && p == Test) || (q.Wait? && p == Check)
    ensures Inv(Lock(s, t, p).value, jobs, work)
  {
    hide ThreadsOk, OneEach, JobsOk, Sum, Claimed, SameExec;
    var s', th := Lock(s, t, p).value, s.threads[t].(phase := p);
    OkThread(s, |jobs|, t);
    SumPut(s.threads, t, th);
    SameExecPut(s.threads, t, th);
    JobsKept(s, s', jobs, work);
    ThreadsPut(s, s', |jobs|, t, th);
    if SomeSignal(s.threads) {
      SignalKept(s.threads, s'.threads, t);
    }
  }

  lemma {:induction false} SignalKept(ts: seq<Thread>, ts': seq<Thread>, t: nat)
    requires SomeSignal(ts) && |ts| == |ts'| && t < |ts| && (WillSignal(ts[t].phase) ==> WillSignal(ts'[t].phase))
    requires forall u | 0 <= u < |ts| && u != t :: WillSignal(ts[u].phase) ==> WillSignal(ts'[u].phase)
    ensures SomeSignal(ts')
  {
    var u :| 0 <= u < |ts| && WillSignal(ts[u].phase);
    assert WillSignal(ts'[u].phase);
  }

  /** A step of one thread that neither claims, executes nor counts jobs, nor takes the mutex. */
  lemma {:induction false} QuietKeeps<J, R>(s: State<R>, s': State<R>, jobs: seq<J>, work: J -> R, t: nat, th: Thread)
    requires Inv(s, jobs, work) && Quiet(s, s') && t < |s.threads| && s'.threads == s.threads[t := th]
    requires Uncounted(th.phase) == Uncounted(s.threads[t].phase) == 0 && !th.phase.Exec? && !th.phase.AddDone?
    requires !s.threads[t].phase.Exec?
    requires Proper(t, th.phase) && th.able == s.threads[t].able
    requires s'.mutex == if Holding(s.threads[t].phase) && !Holding(th.phase) then None else s.mutex
    requires Holding(th.phase) ==> Holding(s.threads[t].phase)
    requires WillSignal(s.threads[t].phase) ==> WillSignal(th.phase) || !Dozes(s'.threads[0].phase)
    requires t == 0 ==> (Past(th.phase) ==> s.next >= |jobs|) && (th.phase.Left? ==> s.done >= |jobs|)
    requires t == 0 && Dozes(th.phase) && s.done >= |jobs| ==> SomeSignal(s'.threads)
    ensures Inv(s', jobs, work)
  {
    hide ThreadsOk, OneEach, JobsOk, Sum, Claimed, SameExec;
    OkThread(s, |jobs|, t);
    SumPut(s.threads, t, th);
    SameExecPut(s.threads, t, th);
    JobsKept(s, s', jobs, work);
    ThreadsPut(s, s', |jobs|, t, th);
    if SomeSignal(s.threads) && Dozes(s'.threads[0].phase) {
      SignalKept(s.threads, s'.threads, t);
    }
  }

  lemma {:induction false} TestKeeps<J, R>(s: State<R>, jobs: seq<J>, work: J -> R, t: nat)
    requires Inv(s, jobs, work) && t < |s.threads| && (s.threads[t].phase.Test? || s.threads[t].phase.Async?)
    ensures Inv(Step(s, jobs, work, t).value, jobs, work)
  {
    OkThread(s, |jobs|, t);
    hide ThreadsOk, OneEach, JobsOk, Sum, Claimed;
    var s' := Step(s, jobs, work, t).value;
    QuietKeeps(s, s', jobs, work, t, s'.threads[t]);
  }

  lemma {:induction false} WaitKeeps<J, R>(s: State<R>, jobs: seq<J>, work: J -> R, t: nat)
    requires Inv(s, jobs, work) && t < |s.threads| && (s.threads[t].phase.Check? || s.threads[t].phase.Doze?)
    ensures Inv(Step(s, jobs, work, t).value, jobs, work)
  {
    OkThread(s, |jobs|, t);
    hide ThreadsOk, OneEach, JobsOk, Sum, Claimed;
    var s' := Step(s, jobs, work, t).value;
    if Dozes(s'.threads[0].phase) && s.done >= |jobs| {
      SignalKept(s.threads, s'.threads, t);
    }
    QuietKeeps(s, s', jobs, work, t, s'.threads[t]);
  }

  lemma {:induction false} SpuriousKeeps<J, R>(s: State<R>, jobs: seq<J>, work: J -> R, t: nat)
    requires Inv(s, jobs, work) && t < |s.threads| && Spurious(s, t).Some?
    ensures Inv(Spurious(s, t).value, jobs, work)
  {
    OkThread(s, |jobs|, t);
    hide ThreadsOk, OneEach, JobsOk, Sum, Claimed;
    var s' := Spurious(s, t).value;
    QuietKeeps(s, s', jobs, work, t, s'.threads[t]);
  }

  /** The signal wakes the submitter if it waits, then the signaller goes its way. */
  lemma {:induction false} SignalKeeps<J, R>(s: State<R>, jobs: seq<J>, work: J -> R, t: nat)
    requires Inv(s, jobs, work) && t < |s.threads| && s.threads[t].phase.Signal?
    ensures Inv(Step(s, jobs, work, t).value, jobs, work)
  {
    OkThread(s, |jobs|, t);
    hide ThreadsOk, OneEach, JobsOk, Sum, Claimed;
    OkThread(s, |jobs|, 0);
    var s0 := s;
    if s.threads[0].phase.Dozing? {
      s0 := Put(s, 0, Wait);
      QuietKeeps(s, s0, jobs, work, 0, s0.threads[0]);
    }
    var s' := Step(s, jobs, work, t).value;
    QuietKeeps(s0, s', jobs, work, t, s'.threads[t]);
  }

  lemma {:induction false} PublishKeeps<J, R>(s: State<R>, jobs: seq<J>, work: J -> R, t: nat)
    requires Inv(s, jobs, work) && t < |s.threads| && s.threads[t].phase.Publish?
    ensures Inv(Step(s, jobs, work, t).value, jobs, work)
  {
    OkThread(s, |jobs|, t);
    hide ThreadsOk, OneEach, JobsOk, Sum, Claimed;
    var s0 := s.(active := true, generation := (s.generation + 1) % 0x1_0000_0000, threads := Broadcast(s.threads));
    RousedKeeps(s, s0, jobs, work);
    var s' := Step(s, jobs, work, t).value;
    QuietKeeps(s0, s', jobs, work, t, s'.threads[t]);
  }

  lemma {:induction false} RousedKeeps<J, R>(s: State<R>, s': State<R>, jobs: seq<J>, work: J -> R)
    requires Inv(s, jobs, work)
    requires s' == s.(active := true, generation := s'.generation, threads := Broadcast(s.threads))
    ensures Inv(s', jobs, work)
  {
    hide OneEach, JobsOk, Sum, Claimed;
    SumBroadcast(s.threads);
    JobsKept(s, s', jobs, work);
    forall u | 0 <= u < |s'.threads| ensures ThreadOk(s'.threads, u, s'.mutex, s'.next, |jobs|, s'.finished) {
      OkThread(s, |jobs|, u);
    }
    OkThread(s, |jobs|, 0);
    if SomeSignal(s.threads) {
      SignalKept(s.threads, s'.threads, 0);
    }
  }

  /** Claiming: the job index was free, and now exactly this thread executes it. */
  lemma {:induction false} ClaimKeeps<J, R>(s: State<R>, jobs: seq<J>, work: J -> R, t: nat)
    requires Inv(s, jobs, work) && t < |s.threads| && s.threads[t].phase.Claim? && s.next < |jobs|
    ensures Inv(Step(s, jobs, work, t).value, jobs, work)
  {
    var s' := Step(s, jobs, work, t).value;
    ClaimJobs(s, jobs, work, t);
    OkThread(s, |jobs|, t);
    assert JobOk(s, jobs, work, s.next);
    hide ThreadsOk, OneEach, JobsOk, Sum;
    SumPut(s.threads, t, s'.threads[t]);
    ThreadsPut(s, s', |jobs|, t, s'.threads[t]);
    if SomeSignal(s.threads) {
      SignalKept(s.threads, s'.threads, t);
    }
  }

  lemma {:induction false} ClaimJobs<J, R>(s: State<R>, jobs: seq<J>, work: J -> R, t: nat)
    requires Inv(s, jobs, work) && t < |s.threads| && s.threads[t].phase.Claim? && s.next < |jobs|
    ensures var s' := Step(s, jobs, work, t).value; JobsOk(s', jobs, work) && OneEach(s'.threads)
  {
    hide Counted;
    var s' := Step(s, jobs, work, t).value;
    forall u, v, j | ExecutedBy(s'.threads, u, j) && ExecutedBy(s'.threads, v, j) ensures u == v {
      OthersBelow(s, jobs, work, t, u, j);
      OthersBelow(s, jobs, work, t, v, j);
    }
    hide ThreadsOk, OneEach;
    forall i | 0 <= i < |jobs| ensures JobOk(s', jobs, work, i) {
      assert JobOk(s, jobs, work, i);
      if i == s.next {
        assert ExecutedBy(s'.threads, t, i);
      } else if i < s.next && s.finished[i] == 0 {
        var u: nat :| ExecutedBy(s.threads, u, i);
        assert ExecutedBy(s'.threads, u, i);
      }
    }
  }

  /** Before the claim, other threads execute only jobs below the claimed one. */
  lemma {:induction false} OthersBelow<J, R>(s: State<R>, jobs: seq<J>, work: J -> R, t: nat, u: nat, j: nat)
    requires Inv(s, jobs, work) && t < |s.threads| && s.threads[t].phase.Claim? && s.next < |jobs|
    requires ExecutedBy(Step(s, jobs, work, t).value.threads, u, j)
    ensures if u == t then j == s.next else j < s.next && ExecutedBy(s.threads, u, j)
  {
    hide OneEach, JobsOk, Counted;
    assert u < |s.threads|;
    OkThread(s, |jobs|, u);
  }

  /** Finding no job left. */
  lemma {:induction false} ExhaustedKeeps<J, R>(s: State<R>, jobs: seq<J>, work: J -> R, t: nat)
    requires Inv(s, jobs, work) && t < |s.threads| && s.threads[t].phase.Claim? && s.next >= |jobs|
    ensures Inv(Step(s, jobs, work, t).value, jobs, work)
  {
    hide ThreadsOk, OneEach, JobsOk, Sum, SameExec;
    var s' := Step(s, jobs, work, t).value;
    OkThread(s, |jobs|, t);
    SumPut(s.threads, t, s'.threads[t]);
    SameExecPut(s.threads, t, s'.threads[t]);
    JobsKept(s, s', jobs, work);
    ThreadsPut(s, s', |jobs|, t, s'.threads[t]);
    if SomeSignal(s.threads) {
      SignalKept(s.threads, s'.threads, t);
    }
  }

  /** Finishing a job: its result is recorded, once. */
  lemma {:induction false} FinishKeeps<J, R>(s: State<R>, jobs: seq<J>, work: J -> R, t: nat)
    requires Inv(s, jobs, work) && t < |s.threads| && s.threads[t].phase.Exec?
    ensures Step(s, jobs, work, t).Some? && Inv(Step(s, jobs, work, t).value, jobs, work)
  {
    OkThread(s, |jobs|, t);
    var s', job := Step(s, jobs, work, t).value, s.threads[t].phase.job;
    FinishJobs(s, jobs, work, t, s', job);
    assert ExecutedBy(s.threads, t, job);
    assert forall u, j | u != t && ExecutedBy(s.threads, u, j) :: s'.finished[j] == s.finished[j];
    hide ThreadsOk, OneEach, JobsOk, Sum, Claimed;
    SumPut(s.threads, t, s'.threads[t]);
    ThreadsPut(s, s', |jobs|, t, s'.threads[t]);
    if SomeSignal(s.threads) {
      SignalKept(s.threads, s'.threads, t);
    }
  }

  lemma {:induction false} FinishJobs<J, R>(s: State<R>, jobs: seq<J>, work: J -> R, t: nat, s': State<R>, job: nat)
    requires |s.results| == |jobs| && JobsOk(s, jobs, work) && OneEach(s.threads)
    requires ExecutedBy(s.threads, t, job) && job < |jobs| && job < s.next && s.finished[job] == 0
    requires |s'.threads| == |s.threads| && s'.threads == s.threads[t := s'.threads[t]] && !s'.threads[t].phase.Exec?
    requires s'.results == s.results[job := Some(work(jobs[job]))] && s'.finished == s.finished + multiset{job}
    requires s'.next == s.next
    ensures JobsOk(s', jobs, work) && OneEach(s'.threads)
  {
    forall u, v, j | ExecutedBy(s'.threads, u, j) && ExecutedBy(s'.threads, v, j) ensures u == v {
      assert ExecutedBy(s.threads, u, j) && ExecutedBy(s.threads, v, j);
    }
    hide OneEach;
    forall i | 0 <= i < |jobs| ensures JobOk(s', jobs, work, i) {
      assert JobOk(s, jobs, work, i);
      if i != job && i < s.next && s.finished[i] == 0 {
        var u: nat :| ExecutedBy(s.threads, u, i);
        assert ExecutedBy(s'.threads, u, i);
      }
    }
  }

  /** Adding to the completion count: whoever completes the batch will signal. */
  lemma {:induction false} AddDoneKeeps<J, R>(s: State<R>, jobs: seq<J>, work: J -> R, t: nat)
    requires Inv(s, jobs, work) && t < |s.threads| && s.threads[t].phase.AddDone?
    ensures Inv(Step(s, jobs, work, t).value, jobs, work)
  {
    hide ThreadsOk, OneEach, JobsOk, Sum, Claimed, SameExec;
    var s' := Step(s, jobs, work, t).value;
    OkThread(s, |jobs|, t);
    SumPut(s.threads, t, s'.threads[t]);
    SameExecPut(s.threads, t, s'.threads[t]);
    JobsKept(s, s', jobs, work);
    ThreadsPut(s, s', |jobs|, t, s'.threads[t]);
    if s'.done >= |jobs| {
      assert WillSignal(s'.threads[t].phase);
    }
  }

  /** Every step of every thread keeps the invariant. */
  lemma {:induction false} StepKeeps<J, R>(s: State<R>, jobs: seq<J>, work: J -> R, t: nat)
    requires Inv(s, jobs, work) && t < |s.threads| && Step(s, jobs, work, t).Some?
    ensures Inv(Step(s, jobs, work, t).value, jobs, work)
  {
    hide Inv;
    var p := s.threads[t].phase;
    if p.Claim? && s.next < |jobs| {
      ClaimKeeps(s, jobs, work, t);
    } else if p.Claim? {
      ExhaustedKeeps(s, jobs, work, t);
    } else if p.Exec? {
      FinishKeeps(s, jobs, work, t);
    } else if p.AddDone? {
      AddDoneKeeps(s, jobs, work, t);
    } else if p.Publish? {
      PublishKeeps(s, jobs, work, t);
    } else if p.Signal? {
      SignalKeeps(s, jobs, work, t);
    } else if p.Test? || p.Async? {
      TestKeeps(s, jobs, work, t);
    } else if p.Check? || p.Doze? {
      WaitKeeps(s, jobs, work, t);
    } else {
      LockKeeps(s, jobs, work, t,
                if p.Start? then Publish else if p.LockSignal? then Signal else if p.Idle? then Test else Check);
    }
  }
}
