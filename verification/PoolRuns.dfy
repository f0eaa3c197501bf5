/** Runs of the compression pool: safety under every schedule, no lost wake-up, termination, and
    agreement with the path that uses no pool. */
module PoolRuns {
  import opened Blocks
  import opened CompressionPool

  // ----- safety

  /** A schedule picks a thread to step, or to return spuriously from a wait; a pick that is not possible
      has no effect. */
  datatype Move = Go(t: nat) | Stir(t: nat)

  function Play1<J, R>(s: State<R>, jobs: seq<J>, work: J -> R, m: Move): State<R>
    requires |s.results| == |jobs|
  {
    if m.t >= |s.threads| then s
    else
      var r := if m.Go? then Step(s, jobs, work, m.t) else Spurious(s, m.t);
      if r.Some? then r.value else s
  }

  ghost function Play<J, R>(s: State<R>, jobs: seq<J>, work: J -> R, moves: seq<Move>): State<R>
    requires |s.results| == |jobs|
    decreases |moves|
  {
    if moves == [] then s else Play(Play1(s, jobs, work, moves[0]), jobs, work, moves[1..])
  }

  lemma {:induction false} PlayKeeps<J, R>(s: State<R>, jobs: seq<J>, work: J -> R, moves: seq<Move>)
    requires Inv(s, jobs, work)
    ensures Inv(Play(s, jobs, work, moves), jobs, work)
    decreases |moves|
  {
    if moves != [] {
      var m := moves[0];
      if m.Go? && m.t < |s.threads| && Step(s, jobs, work, m.t).Some? {
        StepKeeps(s, jobs, work, m.t);
      } else if m.Stir? && m.t < |s.threads| && Spurious(s, m.t).Some? {
        SpuriousKeeps(s, jobs, work, m.t);
      }
      PlayKeeps(Play1(s, jobs, work, m), jobs, work, moves[1..]);
    }
  }

  /** Job i was executed exactly once and its result is the job's. */
  ghost predicate Completed<J, R>(s: State<R>, jobs: seq<J>, work: J -> R, i: nat)
    requires i < |jobs|
  {
    |s.results| == |jobs| && s.finished[i] == 1 && s.results[i] == Some(work(jobs[i]))
  }

  lemma {:induction false} DoneMeansFinished<J, R>(s: State<R>, jobs: seq<J>, work: J -> R)
    requires Inv(s, jobs, work)
    ensures s.done <= |jobs|
    ensures s.done == |jobs| ==> forall t | 0 <= t < |s.threads| :: !s.threads[t].phase.Exec?
    ensures s.done == |jobs| ==> forall i | 0 <= i < |jobs| :: Completed(s, jobs, work, i)
  {
    if s.done == |jobs| {
      forall t | 0 <= t < |s.threads| ensures !s.threads[t].phase.Exec? {
        SumAtLeast(s.threads, t);
        OkThread(s, |jobs|, t);
      }
      forall i | 0 <= i < |jobs| ensures Completed(s, jobs, work, i) {
        assert JobOk(s, jobs, work, i);
      }
    }
  }

  /** Under every schedule: no job is executed twice, no two threads execute the same job at once, the
      completion count never exceeds the number of jobs, and once the submitter has left, every job was
      executed exactly once and nothing is still running. */
  lemma {:induction false} BatchSafety<J, R>(s: State<R>, jobs: seq<J>, work: J -> R, moves: seq<Move>)
    requires Initial(s, |jobs|)
    ensures var s' := Play(s, jobs, work, moves);
      && s'.done <= |jobs| && (forall i | 0 <= i < |jobs| :: s'.finished[i] <= 1)
      && (forall t, u, j | ExecutedBy(s'.threads, t, j) && ExecutedBy(s'.threads, u, j) ::
          t == u && s'.finished[j] == 0)
      && |s'.threads| > 0
      && (s'.threads[0].phase.Left? ==>
            && (forall i | 0 <= i < |jobs| :: Completed(s', jobs, work, i))
            && (forall t | 0 <= t < |s'.threads| :: !s'.threads[t].phase.Exec?))
  {
    InitialInv(s, jobs, work);
    PlayKeeps(s, jobs, work, moves);
    var s' := Play(s, jobs, work, moves);
    DoneMeansFinished(s', jobs, work);
    forall i | 0 <= i < |jobs| ensures s'.finished[i] <= 1 {
      assert JobOk(s', jobs, work, i);
    }
    forall t, u, j | ExecutedBy(s'.threads, t, j) && ExecutedBy(s'.threads, u, j)
      ensures t == u && s'.finished[j] == 0
    {
      OkThread(s', |jobs|, t);
    }
  }

  // ----- no lost wake-up

  /** While the submitter has not left, some thread can step: in particular a submitter that waits with
      all jobs counted has its signal still coming. */
  lemma {:induction false} SomeThreadSteps<J, R>(s: State<R>, jobs: seq<J>, work: J -> R) returns (t: nat)
    requires Inv(s, jobs, work) && !s.threads[0].phase.Left?
    ensures t < |s.threads| && Step(s, jobs, work, t).Some?
  {
    OkThread(s, |jobs|, 0);
    if s.mutex.Some? {
      t := s.mutex.value;
      OkThread(s, |jobs|, t);
    } else if !s.threads[0].phase.Dozing? {
      t := 0;
    } else if s.done >= |jobs| {
      t :| 0 <= t < |s.threads| && WillSignal(s.threads[t].phase);
      OkThread(s, |jobs|, t);
    } else {
      t := Busy(s.threads);
      OkThread(s, |jobs|, t);
    }
  }

  lemma {:induction false} Busy(ts: seq<Thread>) returns (t: nat)
    requires Sum(ts) > 0
    ensures t < |ts| && Uncounted(ts[t].phase) > 0
  {
    if Uncounted(ts[0].phase) > 0 {
      t := 0;
    } else {
      t := Busy(ts[1..]);
      t := t + 1;
    }
  }

  // ----- termination

  /** Steps a thread still has before it, not counting new jobs. */
  function Rank(th: Thread, generation: nat, threads: nat): nat {
    var stale := th.gen != generation;
    match th.phase
    case Start => 11 + 13 * threads
    case Publish => 10 + 13 * threads
    case Claim(_) => 9
    case Exec(_, _) => 10
    case AddDone(_) => 8
    case LockSignal => 7
    case Signal => 6
    case Idle => if stale then 11 else 2
    case Test => if stale then 10 else 1
    case Asleep => 0
    case Async => if stale then 12 else 3
    case Wait => 3
    case Check => 2
    case Doze => 1
    case Dozing => 0
    case Left => 0
  }

  function Ranks(ts: seq<Thread>, generation: nat, threads: nat): nat {
    if ts == [] then 0 else Rank(ts[0], generation, threads) + Ranks(ts[1..], generation, threads)
  }

  function Measure<R>(s: State<R>, total: nat): nat {
    2 * (total - Claimed(s.next, total)) + 3 * s.asyncs + Ranks(s.threads, s.generation, |s.threads|)
  }

  lemma {:induction false} RanksPut(ts: seq<Thread>, t: nat, th: Thread, g: nat, n: nat)
    requires t < |ts|
    ensures Ranks(ts[t := th], g, n) + Rank(ts[t], g, n) == Ranks(ts, g, n) + Rank(th, g, n)
  {
    if t == 0 {
      assert ts[0 := th][1..] == ts[1..];
    } else {
      assert ts[t := th][1..] == ts[1..][t - 1 := th];
      RanksPut(ts[1..], t - 1, th, g, n);
    }
  }

  lemma {:induction false} RanksBound(ts: seq<Thread>, g: nat, n: nat)
    requires forall t | 0 <= t < |ts| :: !ts[t].phase.Start? && !ts[t].phase.Publish?
    ensures Ranks(ts, g, n) <= 12 * |ts|
  {
    if ts != [] {
      RanksBound(ts[1..], g, n);
    }
  }

  /** Only workers that saw the current batch take part in it; before it is published none does. */
  ghost predicate Current<R>(s: State<R>) {
    && |s.threads| > 0
    && (forall t | 1 <= t < |s.threads| ::
          InBatch(s.threads[t].phase) || s.threads[0].phase.Start? || s.threads[0].phase.Publish? ==>
            s.threads[t].gen == s.generation)
    && (s.threads[0].phase.Start? || s.threads[0].phase.Publish? ==>
          forall t | 1 <= t < |s.threads| :: !InBatch(s.threads[t].phase))
  }

  ghost predicate InBatch(p: Phase) {
    p.Claim? || p.Exec? || p.AddDone? || WillSignal(p)
  }

  /** What a step does to the threads, but for publishing and signalling. */
  lemma {:induction false} OneThread<J, R>(s: State<R>, jobs: seq<J>, work: J -> R, t: nat)
    requires |s.results| == |jobs| && t < |s.threads| && Step(s, jobs, work, t).Some?
    requires !s.threads[t].phase.Publish? && !s.threads[t].phase.Signal?
    ensures var s' := Step(s, jobs, work, t).value;
      s'.threads == s.threads[t := s'.threads[t]] && s'.generation == s.generation
  {
    var p := s.threads[t].phase;
    if p.Start? || p.LockSignal? || p.Idle? || p.Wait? {
      LockThread(s, jobs, work, t);
    } else if p.Test? || p.Async? {
      TestThread(s, jobs, work, t);
    } else {
      JobThread(s, jobs, work, t);
    }
  }

  lemma {:induction false} LockThread<J, R>(s: State<R>, jobs: seq<J>, work: J -> R, t: nat)
    requires |s.results| == |jobs| && t < |s.threads| && Step(s, jobs, work, t).Some?
    requires var p := s.threads[t].phase; p.Start? || p.LockSignal? || p.Idle? || p.Wait?
    ensures var s' := Step(s, jobs, work, t).value;
      s'.threads == s.threads[t := s'.threads[t]] && s'.generation == s.generation
    ensures var s' := Step(s, jobs, work, t).value; s'.threads[t].gen == s.threads[t].gen
    ensures var p := Step(s, jobs, work, t).value.threads[t].phase;
      p == match s.threads[t].phase case Start => Publish case LockSignal => Signal case Idle => Test case _ => Check
  {
  }

  lemma {:induction false} TestThread<J, R>(s: State<R>, jobs: seq<J>, work: J -> R, t: nat)
    requires |s.results| == |jobs| && t < |s.threads| && (s.threads[t].phase.Test? || s.threads[t].phase.Async?)
    ensures var s' := Step(s, jobs, work, t).value;
      s'.threads == s.threads[t := s'.threads[t]] && s'.generation == s.generation
    ensures var th := Step(s, jobs, work, t).value.threads[t];
      || (th.gen == s.threads[t].gen && (th.phase.Asleep? || th.phase.Async? || th.phase.Idle?))
      || (th.gen == s.generation != s.threads[t].gen && (th.phase.Claim? || th.phase.Idle?))
  {
  }

  lemma {:induction false} JobThread<J, R>(s: State<R>, jobs: seq<J>, work: J -> R, t: nat)
    requires |s.results| == |jobs| && t < |s.threads| && Step(s, jobs, work, t).Some?
    requires var p := s.threads[t].phase; p.Claim? || p.Exec? || p.AddDone? || p.Check? || p.Doze?
    ensures var s' := Step(s, jobs, work, t).value;
      s'.threads == s.threads[t := s'.threads[t]] && s'.generation == s.generation
    ensures var th := Step(s, jobs, work, t).value.threads[t];
      && th.gen == s.threads[t].gen && !th.phase.Start? && !th.phase.Publish?
      && (InBatch(th.phase) ==> InBatch(s.threads[t].phase))
  {
  }

  lemma {:induction false} CurrentPut<R>(s: State<R>, s': State<R>, t: nat, th: Thread)
    requires Current(s) && t < |s.threads| && s'.threads == s.threads[t := th] && s'.generation == s.generation
    requires t == 0 ==>
      (th.phase.Start? || th.phase.Publish? ==> s.threads[0].phase.Start? || s.threads[0].phase.Publish?)
    requires t > 0 ==>
      (InBatch(th.phase) ==> th.gen == s.generation) && (s.threads[t].gen == s.generation ==> th.gen == s.generation)
    requires t > 0 && (s.threads[0].phase.Start? || s.threads[0].phase.Publish?) ==> !InBatch(th.phase)
    ensures Current(s')
  {
  }

  lemma {:induction false} CurrentKept<J, R>(s: State<R>, jobs: seq<J>, work: J -> R, t: nat)
    requires Inv(s, jobs, work) && Current(s) && t < |s.threads| && Step(s, jobs, work, t).Some?
    ensures Current(Step(s, jobs, work, t).value)
  {
    OkThread(s, |jobs|, t);
    OkThread(s, |jobs|, 0);
    hide Inv, Current, ThreadsOk;
    var p := s.threads[t].phase;
    if p.Publish? {
      CurrentPublish(s, jobs, work);
    } else if p.Signal? {
      CurrentSignal(s, jobs, work, t);
    } else {
      CurrentOther(s, jobs, work, t);
    }
  }

  lemma {:induction false} CurrentPublish<J, R>(s: State<R>, jobs: seq<J>, work: J -> R)
    requires |s.results| == |jobs| && Current(s) && s.threads[0].phase.Publish?
    ensures Current(Step(s, jobs, work, 0).value)
  {
    var s' := Step(s, jobs, work, 0).value;
    assert forall u | 1 <= u < |s.threads| :: s'.threads[u] == Roused(s.threads[u]);
  }

  lemma {:induction false} CurrentSignal<J, R>(s: State<R>, jobs: seq<J>, work: J -> R, t: nat)
    requires |s.results| == |jobs| && Current(s) && t < |s.threads| && s.threads[t].phase.Signal?
    ensures Current(Step(s, jobs, work, t).value)
  {
    hide Current;
    var s', mid := Step(s, jobs, work, t).value, Signalled(s.(mutex := None));
    assert |s.threads| > 0 && mid.threads == s.threads[0 := mid.threads[0]];
    CurrentPut(s, mid, 0, mid.threads[0]);
    if t > 0 {
      BeforeBatch(s, t);
    }
    CurrentPut(mid, s', t, s'.threads[t]);
  }

  /** Who is in the batch saw it published. */
  lemma {:induction false} BeforeBatch<R>(s: State<R>, t: nat)
    requires Current(s) && t < |s.threads| && InBatch(s.threads[t].phase) && t > 0
    ensures s.threads[t].gen == s.generation && !s.threads[0].phase.Start? && !s.threads[0].phase.Publish?
  {
  }

  lemma {:induction false} CurrentOther<J, R>(s: State<R>, jobs: seq<J>, work: J -> R, t: nat)
    requires |s.results| == |jobs| && Current(s) && t < |s.threads| && Step(s, jobs, work, t).Some?
    requires Proper(t, s.threads[t].phase)
    requires !s.threads[t].phase.Publish? && !s.threads[t].phase.Signal?
    ensures Current(Step(s, jobs, work, t).value)
  {
    var s', p := Step(s, jobs, work, t).value, s.threads[t].phase;
    assert !p.Asleep? && !p.Dozing? && !p.Left?;
    hide Step;
    if p.Start? || p.LockSignal? || p.Idle? || p.Wait? {
      LockThread(s, jobs, work, t);
    } else if p.Test? || p.Async? {
      TestThread(s, jobs, work, t);
    } else {
      JobThread(s, jobs, work, t);
    }
    CurrentPut(s, s', t, s'.threads[t]);
  }

  /** Every step brings the batch closer to its end. */
  lemma {:induction false} StepDecreases<J, R>(s: State<R>, jobs: seq<J>, work: J -> R, t: nat)
    requires Inv(s, jobs, work) && Current(s) && t < |s.threads| && Step(s, jobs, work, t).Some?
    ensures Measure(Step(s, jobs, work, t).value, |jobs|) < Measure(s, |jobs|)
  {
    hide Ranks;
    OkThread(s, |jobs|, t);
    OkThread(s, |jobs|, 0);
    var s', n := Step(s, jobs, work, t).value, |s.threads|;
    if s.threads[t].phase.Publish? {
      PublishFrom(s, jobs, work, t);
      PublishDecreases(s, s', t, n);
    } else if s.threads[t].phase.Signal? {
      SignalDecreases(s, s', t, n);
    } else {
      OneThread(s, jobs, work, t);
      RanksPut(s.threads, t, s'.threads[t], s.generation, n);
      RankOrJobs(s, jobs, work, t);
    }
  }

  /** The thread's rank falls, or a job or an asynchronous job is taken. */
  ghost predicate Falls<R>(s: State<R>, s': State<R>, t: nat, total: nat)
    requires t < |s.threads| == |s'.threads|
  {
    2 * (total - Claimed(s'.next, total)) + 3 * s'.asyncs + Rank(s'.threads[t], s.generation, |s.threads|)
    < 2 * (total - Claimed(s.next, total)) + 3 * s.asyncs + Rank(s.threads[t], s.generation, |s.threads|)
  }

  lemma {:induction false} RankOrJobs<J, R>(s: State<R>, jobs: seq<J>, work: J -> R, t: nat)
    requires |s.results| == |jobs| && Current(s) && t < |s.threads| && Step(s, jobs, work, t).Some?
    requires !s.threads[t].phase.Publish? && !s.threads[t].phase.Signal?
    ensures Falls(s, Step(s, jobs, work, t).value, t, |jobs|)
  {
    var p := s.threads[t].phase;
    if p.Test? {
      TestRank(s, jobs, work, t);
    } else if p.Claim? {
      ClaimRank(s, jobs, work, t);
    } else if p.AddDone? {
      AddDoneRank(s, jobs, work, t);
    } else if p.Exec? || p.Async? || p.Check? || p.Doze? {
      PlainRank(s, jobs, work, t);
    } else {
      LockRank(s, jobs, work, t);
    }
  }

  lemma {:induction false} ClaimRank<J, R>(s: State<R>, jobs: seq<J>, work: J -> R, t: nat)
    requires |s.results| == |jobs| && Current(s) && t < |s.threads| && s.threads[t].phase.Claim?
    ensures Falls(s, Step(s, jobs, work, t).value, t, |jobs|)
  {
  }

  lemma {:induction false} AddDoneRank<J, R>(s: State<R>, jobs: seq<J>, work: J -> R, t: nat)
    requires |s.results| == |jobs| && Current(s) && t < |s.threads| && s.threads[t].phase.AddDone?
    ensures Falls(s, Step(s, jobs, work, t).value, t, |jobs|)
  {
  }

  lemma {:induction false} PlainRank<J, R>(s: State<R>, jobs: seq<J>, work: J -> R, t: nat)
    requires |s.results| == |jobs| && t < |s.threads| && Step(s, jobs, work, t).Some?
    requires var p := s.threads[t].phase; p.Exec? || p.Async? || p.Check? || p.Doze?
    ensures Falls(s, Step(s, jobs, work, t).value, t, |jobs|)
  {
  }

  lemma {:induction false} LockRank<J, R>(s: State<R>, jobs: seq<J>, work: J -> R, t: nat)
    requires |s.results| == |jobs| && t < |s.threads| && Step(s, jobs, work, t).Some?
    requires var p := s.threads[t].phase; p.Start? || p.LockSignal? || p.Idle? || p.Wait?
    ensures Falls(s, Step(s, jobs, work, t).value, t, |jobs|)
  {
  }

  lemma {:induction false} TestRank<J, R>(s: State<R>, jobs: seq<J>, work: J -> R, t: nat)
    requires t < |s.threads| && |s.results| == |jobs| && s.threads[t].phase.Test?
    ensures Falls(s, Step(s, jobs, work, t).value, t, |jobs|)
  {
  }

  lemma {:induction false} SignalDecreases<R>(s: State<R>, s': State<R>, t: nat, n: nat)
    requires t < |s.threads| && Current(s) && s.threads[t].phase.Signal?
    requires s' == Put(Signalled(s.(mutex := None)), t, Rest(t)) && n == |s.threads|
    ensures Ranks(s'.threads, s.generation, n) < Ranks(s.threads, s.generation, n)
  {
    var ts := Signalled(s.(mutex := None)).threads;
    RanksPut(s.threads, 0, ts[0], s.generation, n);
    RanksPut(ts, t, s'.threads[t], s.generation, n);
    assert ts == s.threads[0 := ts[0]];
  }

  lemma {:induction false} PublishFrom<J, R>(s: State<R>, jobs: seq<J>, work: J -> R, t: nat)
    requires Inv(s, jobs, work) && t < |s.threads| && s.threads[t].phase.Publish?
    ensures var s' := Step(s, jobs, work, t).value;
      s'.threads[t].phase.Claim? && forall u | 0 <= u < |s'.threads| ::
        !s'.threads[u].phase.Start? && !s'.threads[u].phase.Publish?
  {
    OkThread(s, |jobs|, t);
    var s' := Step(s, jobs, work, t).value;
    forall u | 0 <= u < |s'.threads| ensures !s'.threads[u].phase.Start? && !s'.threads[u].phase.Publish? {
      OkThread(s, |jobs|, u);
    }
  }

  lemma {:induction false} PublishDecreases<R>(s: State<R>, s': State<R>, t: nat, n: nat)
    requires t < |s.threads| == n == |s'.threads| && s.threads[t].phase.Publish? && s'.threads[t].phase.Claim?
    requires forall u | 0 <= u < n :: !s'.threads[u].phase.Start? && !s'.threads[u].phase.Publish?
    ensures Ranks(s'.threads, s'.generation, n) < Ranks(s.threads, s.generation, n)
  {
    RanksBound(s'.threads, s'.generation, n);
    RankWithin(s.threads, t, s.generation, n);
  }

  lemma {:induction false} RankWithin(ts: seq<Thread>, t: nat, g: nat, n: nat)
    requires t < |ts|
    ensures Ranks(ts, g, n) >= Rank(ts[t], g, n)
  {
    if t > 0 {
      RankWithin(ts[1..], t - 1, g, n);
    }
  }

  /** All the moves are steps that have an effect. */
  ghost predicate Effective<J, R>(s: State<R>, jobs: seq<J>, work: J -> R, ts: seq<nat>)
    requires |s.results| == |jobs|
    decreases |ts|
  {
    ts != [] ==>
      && ts[0] < |s.threads| && Step(s, jobs, work, ts[0]).Some?
      && Effective(Step(s, jobs, work, ts[0]).value, jobs, work, ts[1..])
  }

  /** No schedule keeps the pool busy for more steps than the measure says. */
  lemma {:induction false} RunsAreBounded<J, R>(s: State<R>, jobs: seq<J>, work: J -> R, ts: seq<nat>)
    requires Inv(s, jobs, work) && Current(s) && Effective(s, jobs, work, ts)
    ensures |ts| <= Measure(s, |jobs|)
    decreases |ts|
  {
    if ts != [] {
      StepKeeps(s, jobs, work, ts[0]);
      CurrentKept(s, jobs, work, ts[0]);
      StepDecreases(s, jobs, work, ts[0]);
      RunsAreBounded(Step(s, jobs, work, ts[0]).value, jobs, work, ts[1..]);
    }
  }

  // ----- the two ways to run a batch

  /** compress_pool_submit with a pool, under an arbitrary scheduler: it returns, with every result. */
  method Submit<J, R>(start: State<R>, jobs: seq<J>, work: J -> R, schedule: nat -> nat) returns (s: State<R>)
    requires Initial(start, |jobs|)
    ensures s.threads != [] && s.threads[0].phase.Left? && |s.results| == |jobs|
    ensures forall i | 0 <= i < |jobs| :: s.results[i] == Some(work(jobs[i]))
  {
    s := start;
    InitialInv(s, jobs, work);
    var time := 0;
    while !s.threads[0].phase.Left?
      invariant Inv(s, jobs, work) && Current(s)
      decreases Measure(s, |jobs|)
    {
      var t := schedule(time);
      if t >= |s.threads| || Step(s, jobs, work, t).None? {
        ghost var u := SomeThreadSteps(s, jobs, work);
        t := Pick(s, jobs, work, u);
      }
      StepKeeps(s, jobs, work, t);
      CurrentKept(s, jobs, work, t);
      StepDecreases(s, jobs, work, t);
      s := Step(s, jobs, work, t).value;
      time := time + 1;
    }
    DoneMeansFinished(s, jobs, work);
    forall i | 0 <= i < |jobs| ensures s.results[i] == Some(work(jobs[i])) {
      assert Completed(s, jobs, work, i);
    }
  }

  /** The first thread that can step. */
  method Pick<J, R>(s: State<R>, jobs: seq<J>, work: J -> R, ghost u: nat) returns (t: nat)
    requires |s.results| == |jobs| && u < |s.threads| && Step(s, jobs, work, u).Some?
    ensures t < |s.threads| && Step(s, jobs, work, t).Some?
  {
    t := 0;
    while Step(s, jobs, work, t).None?
      invariant t <= u
      decreases u - t
    {
      t := t + 1;
    }
  }

  /** Without a pool the submitter runs the claim loop alone; the results are those of the pool. */
  method SubmitInline<J, R>(jobs: seq<J>, work: J -> R) returns (results: seq<Option<R>>, processed: nat)
    ensures |results| == |jobs| == processed && forall i | 0 <= i < |jobs| :: results[i] == Some(work(jobs[i]))
  {
    results := seq(|jobs|, _ => None);
    var next := 0;
    processed := 0;
    while next < |jobs|
      invariant next <= |jobs| == |results| && processed == next
      invariant forall i | 0 <= i < next :: results[i] == Some(work(jobs[i]))
    {
      var idx := next;
      next := next + 1;
      processed := processed + 1;
      results := results[idx := Some(work(jobs[idx]))];
    }
  }
}
