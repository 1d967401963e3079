/** Progress in the thread pool: nobody waits for ever, the steps run out, and no job is lost on the way. */
module PoolProgress {
  import opened Results
  import opened Seqs
  import opened ThreadPool
  import opened PoolPosting

  // Somebody can always go on.

  /** A worker with a job, a token or an exit request, or on its way out. */
  predicate Busy(w: Worker) {
    !w.pc.Exited? && !(w.pc.AtWait? && w.queue == [] && !w.exitPosted)
  }

  /** Nothing is left to do, until somebody posts or destroys the pool. */
  ghost predicate AtRest(s: Pool) {
    && s.poster.Idle? && (s.destroyer.NotCalled? || s.destroyer.Freed?)
    && forall i :: 0 <= i < |s.workers| ==> !Busy(s.workers[i])
  }

  /** A step that brings on what was begun: no new post, no new destruction. */
  predicate Continues(a: Action) {
    !a.PostBegin? && !a.PopPool?
  }

  function NextOfWorker(w: Worker, i: nat): Action {
    match w.pc
    case AtWait => Take(i)
    case AtCheck => Check(i)
    case AtPeek => Peek(i)
    case Running(_) => Return(i)
    case AtUnlink(_) => Unlink(i)
    case Draining => Leave(i)
    case Exited => Leave(i)
  }

  /** A busy worker whose mutex is free is not stuck. */
  lemma BusyWorkerCanStep(s: Pool, i: nat)
    requires Inv(s) && i < |s.workers| && Busy(s.workers[i]) && s.workers[i].lock.Free? && s.poster != Added(i)
    ensures Step(s, NextOfWorker(s.workers[i], i)).Some?
  {}

  lemma PostCanStep(s: Pool)
    requires Inv(s) && !s.poster.Idle? && !(s.poster.Chosen? && s.poster.choice.None?)
    ensures exists a :: Continues(a) && Step(s, a).Some?
  {
    var a := match s.poster
      case Scanning(_, _, _) => Sample
      case Chosen(_, _) => PostLock
      case Locked(_, _) => PostAdd
      case Added(_) => PostSignal
      case _ => PostUnlock;
    assert s.poster.Scanning? && |s.poster.sampled| < |s.workers| ==>
        !HeldByPoster(s.poster, |s.poster.sampled|) && !HeldByDestroyer(s.destroyer, |s.poster.sampled|)
        && s.workers[|s.poster.sampled|].lock.Free?;
    assert s.poster.Chosen? ==>
        var w := s.poster.choice.value; !HeldByPoster(s.poster, w) && !HeldByDestroyer(s.destroyer, w) && s.workers[w].lock.Free?;
    assert Continues(a) && Step(s, a).Some?;
  }

  lemma DestructionCanStep(s: Pool)
    requires Inv(s) && !s.destroyer.NotCalled? && !s.destroyer.Freed?
    ensures exists a :: Continues(a) && Step(s, a).Some?
  {
    var i := s.destroyer.i;
    if s.destroyer.Joining? && !s.workers[i].pc.Exited? {
      assert !HeldByPoster(s.poster, i) && !HeldByDestroyer(s.destroyer, i);
      BusyWorkerCanStep(s, i);
      assert Continues(NextOfWorker(s.workers[i], i));
    } else {
      var a := match s.destroyer
        case Stopping(_) => StopLock
        case Holding(_) => StopFlag
        case FlagSet(_) => StopToken
        case TokenPosted(_) => StopUnlock
        case _ => Join;
      assert s.destroyer.Stopping? ==>
          !HeldByPoster(s.poster, i) && !HeldByDestroyer(s.destroyer, i) && s.workers[i].lock.Free?;
      assert Continues(a) && Step(s, a).Some?;
    }
  }

  /** No deadlock: in every reachable state that is not at rest some thread can go on, unless a post has found no
      worker. */
  lemma SomebodyCanStep(amount: nat, acts: seq<Action>)
    requires Run(Init(amount), acts).Some?
    ensures var s := Run(Init(amount), acts).value;
            !AtRest(s) && !(s.poster.Chosen? && s.poster.choice.None?) ==> exists a :: Continues(a) && Step(s, a).Some?
  {
    RunKeeps(amount, acts);
    var s := Run(Init(amount), acts).value;
    if !AtRest(s) && !(s.poster.Chosen? && s.poster.choice.None?) {
      if !s.poster.Idle? {
        PostCanStep(s);
      } else if !s.destroyer.NotCalled? && !s.destroyer.Freed? {
        DestructionCanStep(s);
      } else {
        var i :| 0 <= i < |s.workers| && Busy(s.workers[i]);
        assert !HeldByPoster(s.poster, i) && !HeldByDestroyer(s.destroyer, i);
        BusyWorkerCanStep(s, i);
        assert Continues(NextOfWorker(s.workers[i], i));
      }
    }
  }

  /** At rest before any destruction, every job that was posted is done. */
  lemma AtRestAllIsDone(amount: nat, acts: seq<Action>, i: nat)
    requires Run(Init(amount), acts).Some? && i < amount
    requires AtRest(Run(Init(amount), acts).value) && Run(Init(amount), acts).value.destroyer.NotCalled?
    ensures var w := Run(Init(amount), acts).value.workers[i];
            w.queue == [] && w.done == w.posted == w.started && w.pc.AtWait? && w.sem == 0
  {
    RunKeeps(amount, acts);
    var s := Run(Init(amount), acts).value;
    assert !s.workers[i].exit && !Busy(s.workers[i]);
  }

  /** A pool with no post under way can be destroyed, and when that has come to rest every worker has exited. */
  lemma DestructionCompletes(amount: nat, acts: seq<Action>)
    requires Run(Init(amount), acts).Some?
    ensures var s := Run(Init(amount), acts).value;
            && (Quiet(s) ==> Step(s, PopPool).Some? && !Step(s, PopPool).value.destroyer.NotCalled?)
            && (AtRest(s) && !s.destroyer.NotCalled? ==> forall i :: 0 <= i < amount ==> s.workers[i].pc.Exited?)
  {
    RunKeeps(amount, acts);
  }

  // The steps run out.

  function PcWork(pc: Pc): nat {
    match pc
    case AtWait => 0
    case AtCheck => 4
    case AtPeek => 3
    case Running(_) => 2
    case AtUnlink(_) => 1
    case Draining => 1
    case Exited => 0
  }

  /** Each token is good for five steps. */
  function WorkerWork(w: Worker): nat {
    5 * w.sem + PcWork(w.pc)
  }

  function WorkerWorks(s: Pool): seq<nat> {
    seq(|s.workers|, i requires 0 <= i < |s.workers| => WorkerWork(s.workers[i]))
  }

  function PosterWork(p: Poster, n: nat): nat {
    match p
    case Idle => 0
    case Scanning(_, _, sampled) => 11 + if |sampled| <= n then n - |sampled| else 0
    case Chosen(_, _) => 10
    case Locked(_, _) => 9
    case Added(_) => 8
    case Signalled(_) => 1
  }

  /** Ten steps for each worker still to be stopped. */
  function DestroyerWork(d: Destroyer, n: nat): int {
    match d
    case NotCalled => 10 * n + 1
    case Stopping(i) => 10 * (n - i)
    case Holding(i) => 10 * (n - i) - 1
    case FlagSet(i) => 10 * (n - i) - 2
    case TokenPosted(i) => 10 * (n - i) - 8
    case Joining(i) => 10 * (n - i) - 9
    case Freed => 0
  }

  function Work(s: Pool): int {
    Sum(WorkerWorks(s)) + PosterWork(s.poster, |s.workers|) + DestroyerWork(s.destroyer, |s.workers|)
  }

  lemma {:induction false} SumAfterUpdate(lens: seq<nat>, i: nat, x: nat)
    requires i < |lens|
    ensures Sum(lens[i := x]) == Sum(lens) - lens[i] + x
  {
    var n := |lens| - 1;
    if i == n {
      assert lens[i := x][..n] == lens[..n];
    } else {
      assert lens[i := x][..n] == lens[..n][i := x];
      SumAfterUpdate(lens[..n], i, x);
    }
  }

  lemma WorkAfterSet(s: Pool, i: nat, w: Worker)
    requires i < |s.workers|
    ensures Sum(WorkerWorks(SetWorker(s, i, w))) == Sum(WorkerWorks(s)) - WorkerWork(s.workers[i]) + WorkerWork(w)
  {
    assert WorkerWorks(SetWorker(s, i, w)) == WorkerWorks(s)[i := WorkerWork(w)];
    SumAfterUpdate(WorkerWorks(s), i, WorkerWork(w));
  }

  lemma WorkerStepIsWork(s: Pool, i: nat, a: Action)
    requires i < |s.workers| && WorkerStep(s.workers[i], a).Some?
    ensures Work(SetWorker(s, i, WorkerStep(s.workers[i], a).value)) < Work(s)
  {
    WorkAfterSet(s, i, WorkerStep(s.workers[i], a).value);
  }

  lemma PostStepIsWork(s: Pool, a: Action)
    requires PostStep(s, a).Some? && !a.PostBegin?
    ensures Work(PostStep(s, a).value) < Work(s)
  {
    if a.Sample? {
      assert WorkerWorks(PostStep(s, a).value) == WorkerWorks(s);
    } else {
      var i := if s.poster.Chosen? then s.poster.choice.value else s.poster.w;
      WorkAfterSet(s, i, PostStep(s, a).value.workers[i]);
    }
  }

  lemma DestroyStepIsWork(s: Pool, a: Action)
    requires Inv(s) && DestroyStep(s, a).Some?
    ensures Work(DestroyStep(s, a).value) < Work(s)
  {
    if a.PopPool? || a.Join? {
      assert WorkerWorks(DestroyStep(s, a).value) == WorkerWorks(s);
    } else {
      StopStepIsWork(s, a);
    }
  }

  lemma StopStepIsWork(s: Pool, a: Action)
    requires Inv(s) && DestroyStep(s, a).Some? && !a.PopPool? && !a.Join?
    ensures Work(DestroyStep(s, a).value) < Work(s)
  {
    var i, s' := s.destroyer.i, DestroyStep(s, a).value;
    WorkAfterSet(s, i, s'.workers[i]);
    assert s' == SetWorker(s, i, s'.workers[i]).(destroyer := s'.destroyer);
    assert DestroyerWork(s'.destroyer, |s.workers|) + WorkerWork(s'.workers[i])
           < DestroyerWork(s.destroyer, |s.workers|) + WorkerWork(s.workers[i]);
  }

  lemma StepIsWork(s: Pool, a: Action)
    requires Inv(s) && Step(s, a).Some? && !a.PostBegin?
    ensures Work(Step(s, a).value) < Work(s)
  {
    if a.Take? || a.Check? || a.Peek? || a.Return? || a.Unlink? || a.Leave? {
      WorkerStepIsWork(s, a.i, a);
    } else if a.Sample? || a.PostLock? || a.PostAdd? || a.PostSignal? || a.PostUnlock? {
      PostStepIsWork(s, a);
    } else {
      DestroyStepIsWork(s, a);
    }
  }

  /** Whatever the scheduling, without a new post only so many steps are left: together with SomebodyCanStep, every post
      is completed, every job of a pool that is not destroyed gets done, and every destruction comes to its end. */
  lemma {:induction false} StepsRunOut(s: Pool, acts: seq<Action>)
    requires Inv(s) && SamePost(acts) && Run(s, acts).Some?
    ensures Inv(Run(s, acts).value) && |acts| + Work(Run(s, acts).value) <= Work(s)
  {
    if acts != [] {
      var n := |acts| - 1;
      StepsRunOut(s, acts[..n]);
      StepKeeps(Run(s, acts[..n]).value, acts[n]);
      StepIsWork(Run(s, acts[..n]).value, acts[n]);
    }
  }

  lemma WorkIsNatural(s: Pool)
    requires Inv(s)
    ensures Work(s) >= 0
  {}

  // Conservation.

  function DoneCounts(s: Pool): seq<nat> {
    seq(|s.workers|, i requires 0 <= i < |s.workers| => |s.workers[i].done|)
  }

  function PostedCounts(s: Pool): seq<nat> {
    seq(|s.workers|, i requires 0 <= i < |s.workers| => |s.workers[i].posted|)
  }

  lemma {:induction false} SumOfSums(a: seq<nat>, b: seq<nat>, c: seq<nat>)
    requires |a| == |b| == |c| && forall i :: 0 <= i < |a| ==> c[i] == a[i] + b[i]
    ensures Sum(c) == Sum(a) + Sum(b)
  {
    if a != [] {
      var n := |a| - 1;
      SumOfSums(a[..n], b[..n], c[..n]);
    }
  }

  lemma {:induction false} SumOfNone(n: nat)
    ensures Sum(seq(n, _ => 0)) == 0
  {
    if n > 0 {
      assert seq(n, _ => 0)[..n - 1] == seq(n - 1, _ => 0);
      SumOfNone(n - 1);
    }
  }

  lemma PostedAfterStep(s: Pool, a: Action)
    requires Step(s, a).Some?
    ensures Sum(PostedCounts(Step(s, a).value)) - Step(s, a).value.tickets == Sum(PostedCounts(s)) - s.tickets
  {
    if a.PostAdd? {
      var i := s.poster.w;
      assert PostedCounts(Step(s, a).value) == PostedCounts(s)[i := |s.workers[i].posted| + 1];
      SumAfterUpdate(PostedCounts(s), i, |s.workers[i].posted| + 1);
    } else {
      OnlyAddPosts(s, a);
      assert PostedCounts(Step(s, a).value) == PostedCounts(s);
    }
  }

  lemma {:induction false} PostedIsTickets(amount: nat, acts: seq<Action>)
    requires Run(Init(amount), acts).Some?
    ensures Sum(PostedCounts(Run(Init(amount), acts).value)) == Run(Init(amount), acts).value.tickets
  {
    if acts == [] {
      assert PostedCounts(Init(amount)) == seq(amount, _ => 0);
      SumOfNone(amount);
    } else {
      var n := |acts| - 1;
      PostedIsTickets(amount, acts[..n]);
      PostedAfterStep(Run(Init(amount), acts[..n]).value, acts[n]);
    }
  }

  /** Jobs are conserved: those queued and those done are as many as were posted, in every interleaving. */
  lemma JobsAreConserved(amount: nat, acts: seq<Action>)
    requires Run(Init(amount), acts).Some?
    ensures var s := Run(Init(amount), acts).value; Sum(Lengths(s)) + Sum(DoneCounts(s)) == s.tickets
  {
    RunKeeps(amount, acts);
    PostedIsTickets(amount, acts);
    var s := Run(Init(amount), acts).value;
    forall i | 0 <= i < |s.workers|
      ensures PostedCounts(s)[i] == Lengths(s)[i] + DoneCounts(s)[i]
    {
      assert s.workers[i].posted == s.workers[i].done + s.workers[i].queue;
    }
    SumOfSums(Lengths(s), DoneCounts(s), PostedCounts(s));
  }
}
