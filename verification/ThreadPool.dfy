/** The protocol between one pool's workers, the posters and the destroyer, as a state machine over its steps.
    A critical section that touches only what its mutex guards is one step, enabled while the mutex is free;
    the sections that also write the semaphore or the exit flag, which a worker reads without the mutex,
    are split into their writes. */
module ThreadPool {
  import opened Results
  import opened Seqs

  /** Jobs are told apart by the order in which they are posted to the pool. */
  type Job = nat

  /** What a peek at the queue yields. On an empty list the cursor ends on the list head, which is no job. */
  datatype WorkPtr = Work(job: Job) | ListHead

  datatype Pc =
    | AtWait                 // about to wait for a token
    | AtCheck                // has a token, about to look at the exit flag
    | AtPeek                 // past the check, about to peek at the queue
    | Running(wf: WorkPtr)   // runs the job, no lock held
    | AtUnlink(wf: WorkPtr)  // the job has returned, its node is still linked
    | Draining               // saw the exit flag
    | Exited

  datatype Lock = Free | ByPoster | ByDestroyer

  /** One worker thread with its queue, semaphore, flag and mutex. The last three fields are its history:
      jobs queued for it, jobs begun and jobs finished and unlinked. */
  datatype Worker = Worker(queue: seq<Job>, sem: nat, exit: bool, exitPosted: bool, lock: Lock, pc: Pc,
                           posted: seq<Job>, started: seq<Job>, done: seq<Job>)

  /** A post in progress; the registry mutex admits one at a time. `sampled` lists the queue lengths it has read. */
  datatype Poster =
    | Idle
    | Scanning(best: Option<nat>, min: nat, sampled: seq<nat>)
    | Chosen(choice: Option<nat>, sampled: seq<nat>)
    | Locked(w: nat, sampled: seq<nat>)
    | Added(w: nat)
    | Signalled(w: nat)

  datatype Destroyer =
    | NotCalled
    | Stopping(i: nat)       // about to lock worker i
    | Holding(i: nat)
    | FlagSet(i: nat)
    | TokenPosted(i: nat)
    | Joining(i: nat)
    | Freed

  datatype Pool = Pool(workers: seq<Worker>, poster: Poster, destroyer: Destroyer, tickets: nat)

  datatype Action =
    | PostBegin | Sample | PostLock | PostAdd | PostSignal | PostUnlock
    | Take(i: nat) | Check(i: nat) | Peek(i: nat) | Return(i: nat) | Unlink(i: nat) | Leave(i: nat)
    | PopPool | StopLock | StopFlag | StopToken | StopUnlock | Join

  const SCAN_LIMIT := 10000

  function NewWorker(): Worker {
    Worker([], 0, false, false, Free, AtWait, [], [], [])
  }

  function Init(amount: nat): Pool {
    Pool(seq(amount, _ => NewWorker()), Idle, NotCalled, 0)
  }

  /** list_del of the peeked node. */
  function Unlinked(queue: seq<Job>, wf: WorkPtr): seq<Job> {
    match wf
    case ListHead => queue
    case Work(job) =>
      if queue == [] then []
      else if queue[0] == job then queue[1..]
      else [queue[0]] + Unlinked(queue[1..], wf)
  }

  /** One step of worker w; None when the step is not enabled. */
  function WorkerStep(w: Worker, a: Action): Option<Worker> {
    match a
    case Take(_) =>
      if w.pc.AtWait? && w.sem > 0 then Some(w.(sem := w.sem - 1, pc := AtCheck)) else None
    case Check(_) =>
      if w.pc.AtCheck? then Some(w.(pc := if w.exit then Draining else AtPeek)) else None
    case Peek(_) =>
      if w.pc.AtPeek? && w.lock.Free? then
        var wf := if w.queue == [] then ListHead else Work(w.queue[0]);
        Some(w.(pc := Running(wf), started := if wf.Work? then w.started + [wf.job] else w.started))
      else None
    case Return(_) =>
      if w.pc.Running? then Some(w.(pc := AtUnlink(w.pc.wf))) else None
    case Unlink(_) =>
      if w.pc.AtUnlink? && w.lock.Free? then
        Some(w.(pc := AtWait, queue := Unlinked(w.queue, w.pc.wf), done := if w.pc.wf.Work? then w.done + [w.pc.wf.job] else w.done))
      else None
    case Leave(_) =>
      if w.pc.Draining? && w.lock.Free? then Some(w.(pc := Exited)) else None
    case _ => None
  }

  function SetWorker(s: Pool, i: nat, w: Worker): Pool
    requires i < |s.workers|
  {
    s.(workers := s.workers[i := w])
  }

  /** The scan reads the length of one more queue. An empty queue ends it at once. */
  function Scan(s: Pool): Option<Pool> {
    match s.poster
    case Scanning(best, min, sampled) =>
      var i := |sampled|;
      if i >= |s.workers| then Some(s.(poster := Chosen(best, sampled)))
      else if !s.workers[i].lock.Free? then None
      else
        var sz := |s.workers[i].queue|;
        if sz == 0 then Some(s.(poster := Chosen(Some(i), sampled + [sz])))
        else if min > sz then Some(s.(poster := Scanning(Some(i), sz, sampled + [sz])))
        else Some(s.(poster := Scanning(best, min, sampled + [sz])))
    case _ => None
  }

  function PostStep(s: Pool, a: Action): Option<Pool> {
    match (a, s.poster)
    case (PostBegin, Idle) =>
      if s.destroyer.NotCalled? then Some(s.(poster := Scanning(None, SCAN_LIMIT, []))) else None
    case (Sample, Scanning(_, _, _)) => Scan(s)
    case (PostLock, Chosen(Some(w), sampled)) =>
      if w < |s.workers| && s.workers[w].lock.Free? then
        Some(SetWorker(s, w, s.workers[w].(lock := ByPoster)).(poster := Locked(w, sampled)))
      else None
    case (PostAdd, Locked(w, _)) =>
      if w < |s.workers| then
        var wk := s.workers[w];
        Some(SetWorker(s, w, wk.(queue := wk.queue + [s.tickets], posted := wk.posted + [s.tickets]))
             .(poster := Added(w), tickets := s.tickets + 1))
      else None
    case (PostSignal, Added(w)) =>
      if w < |s.workers| then
        Some(SetWorker(s, w, s.workers[w].(sem := s.workers[w].sem + 1)).(poster := Signalled(w)))
      else None
    case (PostUnlock, Signalled(w)) =>
      if w < |s.workers| then Some(SetWorker(s, w, s.workers[w].(lock := Free)).(poster := Idle)) else None
    case _ => None
  }

  function DestroyStep(s: Pool, a: Action): Option<Pool> {
    match (a, s.destroyer)
    case (PopPool, NotCalled) =>
      if s.poster.Idle? then Some(s.(destroyer := if s.workers == [] then Freed else Stopping(0))) else None
    case (StopLock, Stopping(i)) =>
      if i < |s.workers| && s.workers[i].lock.Free? then
        Some(SetWorker(s, i, s.workers[i].(lock := ByDestroyer)).(destroyer := Holding(i)))
      else None
    case (StopFlag, Holding(i)) =>
      if i < |s.workers| then Some(SetWorker(s, i, s.workers[i].(exit := true)).(destroyer := FlagSet(i))) else None
    case (StopToken, FlagSet(i)) =>
      if i < |s.workers| then
        var w := s.workers[i];
        Some(SetWorker(s, i, w.(sem := w.sem + 1, exitPosted := true)).(destroyer := TokenPosted(i)))
      else None
    case (StopUnlock, TokenPosted(i)) =>
      if i < |s.workers| then Some(SetWorker(s, i, s.workers[i].(lock := Free)).(destroyer := Joining(i))) else None
    case (Join, Joining(i)) =>
      if i < |s.workers| && s.workers[i].pc.Exited? then
        Some(s.(destroyer := if i + 1 < |s.workers| then Stopping(i + 1) else Freed))
      else None
    case _ => None
  }

  function Step(s: Pool, a: Action): (r: Option<Pool>)
    ensures r.Some? ==> |r.value.workers| == |s.workers|
  {
    if a.Take? || a.Check? || a.Peek? || a.Return? || a.Unlink? || a.Leave? then
      if a.i < |s.workers| && WorkerStep(s.workers[a.i], a).Some? then
        Some(SetWorker(s, a.i, WorkerStep(s.workers[a.i], a).value))
      else None
    else if a.PostBegin? || a.Sample? || a.PostLock? || a.PostAdd? || a.PostSignal? || a.PostUnlock? then
      PostStep(s, a)
    else
      DestroyStep(s, a)
  }

  /** The state after the actions, taken in this order; None when one of them was not enabled. */
  function Run(s: Pool, acts: seq<Action>): (r: Option<Pool>)
    ensures r.Some? ==> |r.value.workers| == |s.workers|
  {
    if acts == [] then Some(s)
    else match Run(s, acts[..|acts| - 1])
      case None => None
      case Some(t) => Step(t, acts[|acts| - 1])
  }

  // The invariant.

  /** A token has been taken for a job that is still linked (or for a look at the exit flag). */
  function TakenToken(pc: Pc): nat {
    if pc.AtCheck? || pc.AtPeek? || pc.Running? || pc.AtUnlink? then 1 else 0
  }

  predicate Gone(pc: Pc) {
    pc.Draining? || pc.Exited?
  }

  /** Tokens and jobs agree; `unsignalled` says that a job is linked whose token has not been posted yet. */
  ghost predicate Agreement(w: Worker, unsignalled: bool) {
    !Gone(w.pc) ==> w.sem + TakenToken(w.pc) + One(unsignalled) == |w.queue| + One(w.exitPosted)
  }

  ghost predicate Increasing(s: seq<nat>) {
    forall i, j :: 0 <= i < j < |s| ==> s[i] < s[j]
  }

  ghost predicate WorkerInv(w: Worker, unsignalled: bool, tickets: nat) {
    && Agreement(w, unsignalled)
    && (w.exitPosted ==> w.exit) && (Gone(w.pc) ==> w.exit)
    && (w.pc.AtPeek? ==> w.queue != [])
    && (w.pc.Running? || w.pc.AtUnlink? ==> w.queue != [] && w.pc.wf == Work(w.queue[0]))
    && w.posted == w.done + w.queue
    && w.started == w.done + (if w.pc.Running? || w.pc.AtUnlink? then w.queue[..1] else [])
    && Increasing(w.posted) && (forall j :: j in w.posted ==> j < tickets)
  }

  predicate HeldByPoster(p: Poster, i: nat) {
    (p.Locked? || p.Added? || p.Signalled?) && p.w == i
  }

  predicate HeldByDestroyer(d: Destroyer, i: nat) {
    (d.Holding? || d.FlagSet? || d.TokenPosted?) && d.i == i
  }

  ghost predicate LocksInv(s: Pool) {
    forall i :: 0 <= i < |s.workers| ==>
      && (s.workers[i].lock == ByPoster <==> HeldByPoster(s.poster, i))
      && (s.workers[i].lock == ByDestroyer <==> HeldByDestroyer(s.destroyer, i))
  }

  /** The scan remembers a shortest queue among those it has read, and no queue it has read has grown since. */
  ghost predicate ScanInv(s: Pool) {
    match s.poster
    case Scanning(best, min, sampled) =>
      && |sampled| <= |s.workers| && min <= SCAN_LIMIT
      && (forall j :: 0 <= j < |sampled| ==> sampled[j] >= min)
      && (forall j :: 0 <= j < |sampled| ==> |s.workers[j].queue| <= sampled[j])
      && (best.None? ==> min == SCAN_LIMIT)
      && (best.Some? ==> best.value < |sampled| && sampled[best.value] == min < SCAN_LIMIT)
    case Chosen(choice, sampled) =>
      && |sampled| <= |s.workers|
      && (choice.Some? ==> choice.value < |sampled| && sampled[choice.value] < SCAN_LIMIT && Shortest(s, choice.value, sampled))
      && (choice.None? ==> |sampled| == |s.workers| && forall j :: 0 <= j < |sampled| ==> sampled[j] >= SCAN_LIMIT)
    case Locked(w, sampled) => w < |s.workers| && Shortest(s, w, sampled)
    case Added(w) => w < |s.workers|
    case Signalled(w) => w < |s.workers|
    case Idle => true
  }

  /** The queue of w is no longer than any of the sampled lengths. */
  ghost predicate Shortest(s: Pool, w: nat, sampled: seq<nat>)
    requires w < |s.workers|
  {
    forall j :: 0 <= j < |sampled| ==> |s.workers[w].queue| <= sampled[j]
  }

  /** Workers are stopped one after the other; those behind the destroyer have exited, those ahead have no flag yet. */
  ghost predicate StopInv(s: Pool) {
    && (s.destroyer.NotCalled? ==> forall j :: 0 <= j < |s.workers| ==> !s.workers[j].exit)
    && (!s.destroyer.NotCalled? ==> s.poster.Idle?)
    && (s.destroyer.Freed? ==> forall j :: 0 <= j < |s.workers| ==> s.workers[j].pc.Exited?)
    && (!s.destroyer.NotCalled? && !s.destroyer.Freed? ==>
          && s.destroyer.i < |s.workers|
          && (forall j :: 0 <= j < s.destroyer.i ==> s.workers[j].pc.Exited?)
          && (forall j :: s.destroyer.i < j < |s.workers| ==> !s.workers[j].exit)
          && (s.destroyer.Stopping? || s.destroyer.Holding? ==> !s.workers[s.destroyer.i].exit)
          && (s.destroyer.FlagSet? ==> s.workers[s.destroyer.i].exit && !s.workers[s.destroyer.i].exitPosted)
          && (s.destroyer.TokenPosted? || s.destroyer.Joining? ==> s.workers[s.destroyer.i].exitPosted))
  }

  ghost predicate Inv(s: Pool) {
    && (forall i :: 0 <= i < |s.workers| ==> WorkerInv(s.workers[i], s.poster == Added(i), s.tickets))
    && LocksInv(s) && ScanInv(s) && StopInv(s)
  }

  // Every step keeps it.

  lemma WorkerStepKeeps(w: Worker, a: Action, unsignalled: bool, tickets: nat)
    requires WorkerInv(w, unsignalled, tickets) && WorkerStep(w, a).Some?
    ensures var w' := WorkerStep(w, a).value;
            && WorkerInv(w', unsignalled, tickets)
            && |w'.queue| <= |w.queue| && w'.lock == w.lock && w'.exit == w.exit && w'.exitPosted == w.exitPosted
            && (w.pc.Exited? ==> w'.pc.Exited?)
  {
    if a.Unlink? {
      assert w.done + [w.queue[0]] + w.queue[1..] == w.done + w.queue;
    }
  }

  lemma WorkerActionKeeps(s: Pool, i: nat, a: Action)
    requires Inv(s) && i < |s.workers| && WorkerStep(s.workers[i], a).Some?
    ensures Inv(SetWorker(s, i, WorkerStep(s.workers[i], a).value))
  {
    WorkerStepKeeps(s.workers[i], a, s.poster == Added(i), s.tickets);
  }

  lemma MoreTickets(w: Worker, unsignalled: bool, tickets: nat)
    requires WorkerInv(w, unsignalled, tickets)
    ensures WorkerInv(w, unsignalled, tickets + 1)
  {}

  lemma AddKeeps(w: Worker, tickets: nat)
    requires WorkerInv(w, false, tickets)
    ensures WorkerInv(w.(queue := w.queue + [tickets], posted := w.posted + [tickets]), true, tickets + 1)
  {
    var w' := w.(queue := w.queue + [tickets], posted := w.posted + [tickets]);
    assert w'.posted == w'.done + w'.queue;
    assert forall k :: 0 <= k < |w.posted| ==> w.posted[k] in w.posted;
    assert w.queue != [] ==> w'.queue[..1] == w.queue[..1];
  }

  lemma PostAddKeeps(s: Pool)
    requires Inv(s) && s.poster.Locked?
    ensures PostStep(s, PostAdd).Some? && Inv(PostStep(s, PostAdd).value)
  {
    var s' := PostStep(s, PostAdd).value;
    forall i | 0 <= i < |s.workers|
      ensures WorkerInv(s'.workers[i], s'.poster == Added(i), s'.tickets)
    {
      if i == s.poster.w {
        AddKeeps(s.workers[i], s.tickets);
      } else {
        MoreTickets(s.workers[i], false, s.tickets);
      }
    }
  }

  lemma ScanStaysSound(s: Pool)
    requires ScanInv(s) && s.poster.Scanning? && Scan(s).Some?
    ensures ScanInv(Scan(s).value)
  {}

  lemma ScanKeeps(s: Pool)
    requires Inv(s) && s.poster.Scanning? && Scan(s).Some?
    ensures Inv(Scan(s).value)
  {
    ScanStaysSound(s);
    var s' := Scan(s).value;
    assert s' == s.(poster := s'.poster) && (s'.poster.Scanning? || s'.poster.Chosen?);
  }

  lemma PostLockKeeps(s: Pool)
    requires Inv(s) && PostStep(s, PostLock).Some?
    ensures Inv(PostStep(s, PostLock).value)
  {}

  lemma PostUnlockKeeps(s: Pool)
    requires Inv(s) && PostStep(s, PostUnlock).Some?
    ensures Inv(PostStep(s, PostUnlock).value)
  {}

  lemma PostMovesKeep(s: Pool, a: Action)
    requires Inv(s) && (a.PostBegin? || a.PostSignal?) && PostStep(s, a).Some?
    ensures Inv(PostStep(s, a).value)
  {}

  lemma PostStepKeeps(s: Pool, a: Action)
    requires Inv(s) && PostStep(s, a).Some?
    ensures Inv(PostStep(s, a).value)
  {
    if a.PostAdd? {
      PostAddKeeps(s);
    } else if a.Sample? {
      ScanKeeps(s);
    } else if a.PostLock? {
      PostLockKeeps(s);
    } else if a.PostUnlock? {
      PostUnlockKeeps(s);
    } else {
      PostMovesKeep(s, a);
    }
  }

  lemma StopWritesKeep(s: Pool, a: Action)
    requires Inv(s) && (a.StopFlag? || a.StopToken?) && DestroyStep(s, a).Some?
    ensures Inv(DestroyStep(s, a).value)
  {}

  lemma StopMovesKeep(s: Pool, a: Action)
    requires Inv(s) && (a.PopPool? || a.Join?) && DestroyStep(s, a).Some?
    ensures Inv(DestroyStep(s, a).value)
  {}

  lemma StopLocksKeep(s: Pool, a: Action)
    requires Inv(s) && (a.StopLock? || a.StopUnlock?) && DestroyStep(s, a).Some?
    ensures Inv(DestroyStep(s, a).value)
  {}

  lemma DestroyStepKeeps(s: Pool, a: Action)
    requires Inv(s) && DestroyStep(s, a).Some?
    ensures Inv(DestroyStep(s, a).value)
  {
    if a.StopFlag? || a.StopToken? {
      StopWritesKeep(s, a);
    } else if a.StopLock? || a.StopUnlock? {
      StopLocksKeep(s, a);
    } else {
      StopMovesKeep(s, a);
    }
  }

  lemma StepKeeps(s: Pool, a: Action)
    requires Inv(s) && Step(s, a).Some?
    ensures Inv(Step(s, a).value)
  {
    if a.Take? || a.Check? || a.Peek? || a.Return? || a.Unlink? || a.Leave? {
      WorkerActionKeeps(s, a.i, a);
    } else if a.PostBegin? || a.Sample? || a.PostLock? || a.PostAdd? || a.PostSignal? || a.PostUnlock? {
      PostStepKeeps(s, a);
    } else {
      DestroyStepKeeps(s, a);
    }
  }

  lemma {:induction false} RunKeeps(amount: nat, acts: seq<Action>)
    requires Run(Init(amount), acts).Some?
    ensures Inv(Run(Init(amount), acts).value)
  {
    if acts != [] {
      var n := |acts| - 1;
      RunKeeps(amount, acts[..n]);
      StepKeeps(Run(Init(amount), acts[..n]).value, acts[n]);
    }
  }

  // What holds in every interleaving.

  /** Semaphore and queue agree until the worker has seen the exit flag: every token stands for a linked job,
      or is the exit token; a job being linked may be ahead of its token. */
  lemma SemaphoreAgreesWithQueue(amount: nat, acts: seq<Action>, i: nat)
    requires Run(Init(amount), acts).Some? && i < amount
    ensures var s := Run(Init(amount), acts).value;
            var w := s.workers[i];
            !Gone(w.pc) ==>
              w.sem + TakenToken(w.pc) == |w.queue| + One(w.exitPosted) - One(s.poster == Added(i))
  {
    RunKeeps(amount, acts);
  }

  /** Past the exit check a worker always finds a job, never the bare list head; and although the job runs
      without a lock, it stays the first of the queue until it is unlinked. */
  lemma RunningJobIsQueueHead(amount: nat, acts: seq<Action>, i: nat)
    requires Run(Init(amount), acts).Some? && i < amount
    ensures var w := Run(Init(amount), acts).value.workers[i];
            && (w.pc.AtPeek? ==> w.queue != [])
            && (w.pc.Running? || w.pc.AtUnlink? ==> w.queue != [] && w.pc.wf == Work(w.queue[0]))
  {
    RunKeeps(amount, acts);
  }

  // Jobs belong to one worker each.

  ghost predicate Disjoint(a: seq<Job>, b: seq<Job>) {
    forall t :: t in a ==> t !in b
  }

  /** Every job was posted to some worker, and to one only. */
  ghost predicate Partitioned(s: Pool) {
    && (forall i, j :: 0 <= i < |s.workers| && 0 <= j < |s.workers| && i != j ==> Disjoint(s.workers[i].posted, s.workers[j].posted))
    && (forall t: Job :: t < s.tickets ==> PostedSomewhere(s, t))
  }

  ghost predicate PostedSomewhere(s: Pool, t: Job) {
    exists i :: 0 <= i < |s.workers| && t in s.workers[i].posted
  }

  /** Only the linking of a new job extends what was posted. */
  lemma OnlyAddPosts(s: Pool, a: Action)
    requires Step(s, a).Some? && !a.PostAdd?
    ensures var s' := Step(s, a).value;
            s'.tickets == s.tickets && forall i :: 0 <= i < |s.workers| ==> s'.workers[i].posted == s.workers[i].posted
  {}

  lemma AddKeepsPartition(s: Pool)
    requires Inv(s) && Partitioned(s) && PostStep(s, PostAdd).Some?
    ensures Partitioned(PostStep(s, PostAdd).value)
  {
    var s', w := PostStep(s, PostAdd).value, s.poster.w;
    assert s'.workers[w].posted == s.workers[w].posted + [s.tickets];
    assert forall i :: 0 <= i < |s.workers| ==> forall t :: t in s.workers[i].posted ==> t < s.tickets;
    forall t: Job | t < s'.tickets
      ensures PostedSomewhere(s', t)
    {
      if t == s.tickets {
        assert t in s'.workers[w].posted;
      } else {
        assert PostedSomewhere(s, t);
        var i :| 0 <= i < |s.workers| && t in s.workers[i].posted;
        assert t in s'.workers[i].posted;
      }
    }
  }

  lemma PartitionKeeps(s: Pool, a: Action)
    requires Inv(s) && Partitioned(s) && Step(s, a).Some?
    ensures Partitioned(Step(s, a).value)
  {
    if a.PostAdd? {
      AddKeepsPartition(s);
    } else {
      OnlyAddPosts(s, a);
      forall t: Job | t < s.tickets
        ensures PostedSomewhere(Step(s, a).value, t)
      {
        assert PostedSomewhere(s, t);
        var i :| 0 <= i < |s.workers| && t in s.workers[i].posted;
        assert t in Step(s, a).value.workers[i].posted;
      }
    }
  }

  lemma {:induction false} RunPartitions(amount: nat, acts: seq<Action>)
    requires Run(Init(amount), acts).Some?
    ensures Partitioned(Run(Init(amount), acts).value)
  {
    if acts != [] {
      var n := |acts| - 1;
      RunPartitions(amount, acts[..n]);
      RunKeeps(amount, acts[..n]);
      PartitionKeeps(Run(Init(amount), acts[..n]).value, acts[n]);
    }
  }

  /** First in, first out, at most once: the jobs posted to a worker are those done followed by those queued, none
      twice and none of them posted to another worker; and the jobs begun are those done and the one in progress. */
  lemma FifoAtMostOnce(amount: nat, acts: seq<Action>, i: nat)
    requires Run(Init(amount), acts).Some? && i < amount
    ensures var s := Run(Init(amount), acts).value;
            var w := s.workers[i];
            && w.posted == w.done + w.queue
            && w.started <= w.posted && |w.done| <= |w.started| <= |w.done| + 1
            && (forall j, k :: 0 <= j < k < |w.posted| ==> w.posted[j] != w.posted[k])
            && forall k :: 0 <= k < amount && k != i ==> Disjoint(w.posted, s.workers[k].posted)
  {
    RunKeeps(amount, acts);
    RunPartitions(amount, acts);
    var w := Run(Init(amount), acts).value.workers[i];
    assert w.started <= w.done + w.queue;
  }

  /** No job is lost: the jobs posted to the workers are exactly the tickets handed out. */
  lemma EveryJobHasItsWorker(amount: nat, acts: seq<Action>, t: Job)
    requires Run(Init(amount), acts).Some?
    ensures var s := Run(Init(amount), acts).value;
            t < s.tickets <==> exists i :: 0 <= i < amount && t in s.workers[i].done + s.workers[i].queue
  {
    RunKeeps(amount, acts);
    RunPartitions(amount, acts);
    var s := Run(Init(amount), acts).value;
    assert t < s.tickets ==> PostedSomewhere(s, t);
    assert forall i :: 0 <= i < amount ==> s.workers[i].posted == s.workers[i].done + s.workers[i].queue;
  }

  /** No lost wakeup: a worker about to sleep on an empty semaphore has an empty queue, unless a job is being
      added to it at this moment. */
  lemma SleeperHasNoJob(amount: nat, acts: seq<Action>, i: nat)
    requires Run(Init(amount), acts).Some? && i < amount
    ensures var s := Run(Init(amount), acts).value;
            var w := s.workers[i];
            w.pc.AtWait? && w.sem == 0 && s.poster != Added(i) ==> w.queue == [] && !w.exitPosted
  {
    RunKeeps(amount, acts);
  }

  // Mutual exclusion: a queue is changed only by the post that holds its mutex, or by its worker while nobody holds it;
  // a worker peeks, unlinks and leaves, and a post reads a length, only while nobody holds it; and only the holder frees it.

  lemma QueuesAreGuarded(s: Pool, a: Action, i: nat)
    requires Inv(s) && i < |s.workers| && Step(s, a).Some?
    ensures Step(s, a).value.workers[i].queue != s.workers[i].queue ==>
              (a == Unlink(i) && s.workers[i].lock == Free) || (a == PostAdd && s.workers[i].lock == ByPoster)
  {}

  lemma MutexIsRespected(s: Pool, a: Action, i: nat)
    requires i < |s.workers| && Step(s, a).Some? && LocksInv(s)
    ensures a == Peek(i) || a == Unlink(i) || a == Leave(i) ==> s.workers[i].lock == Free
    ensures a == Sample && s.poster.Scanning? && |s.poster.sampled| == i ==> s.workers[i].lock == Free
    ensures s.workers[i].lock != Free ==>
              Step(s, a).value.workers[i].lock == s.workers[i].lock || (a == PostUnlock && s.workers[i].lock == ByPoster)
              || (a == StopUnlock && s.workers[i].lock == ByDestroyer)
  {}

  /** At the check the flag decides: with it the worker leaves by way of the mutex, without it goes to work. */
  lemma CheckReadsTheFlag(s: Pool, i: nat)
    requires i < |s.workers| && s.workers[i].pc.AtCheck?
    ensures var r := Step(s, Check(i));
            r.Some? && r.value.workers[i] == s.workers[i].(pc := r.value.workers[i].pc)
            && (s.workers[i].exit ==> r.value.workers[i].pc == Draining) && (!s.workers[i].exit ==> r.value.workers[i].pc == AtPeek)
  {}

  lemma StepUnderFlag(s: Pool, a: Action, i: nat)
    requires i < |s.workers| && s.workers[i].exit && Step(s, a).Some?
    ensures var w, w' := s.workers[i], Step(s, a).value.workers[i];
            w'.exit && w.started <= w'.started && |w'.started| + One(w'.pc.AtPeek?) <= |w.started| + One(w.pc.AtPeek?)
  {}

  /** The exit flag is obeyed: from the moment it is set it stays set, and the worker begins no job whose check it has not
      already passed, whatever is queued and whatever the others do. */
  lemma {:induction false} ExitIsObeyed(s: Pool, acts: seq<Action>, i: nat)
    requires i < |s.workers| && s.workers[i].exit && Run(s, acts).Some?
    ensures var w, w' := s.workers[i], Run(s, acts).value.workers[i];
            w'.exit && w.started <= w'.started && |w'.started| + One(w'.pc.AtPeek?) <= |w.started| + One(w.pc.AtPeek?)
  {
    if acts != [] {
      var n := |acts| - 1;
      ExitIsObeyed(s, acts[..n], i);
      StepUnderFlag(Run(s, acts[..n]).value, acts[n], i);
    }
  }

  lemma StepAfterExit(s: Pool, a: Action, i: nat)
    requires i < |s.workers| && Gone(s.workers[i].pc) && Step(s, a).Some?
    ensures var w, w' := s.workers[i], Step(s, a).value.workers[i];
            Gone(w'.pc) && w'.started == w.started && w'.done == w.done
  {}

  /** Once a worker has seen the exit flag it begins no further job, whatever the others do. */
  lemma {:induction false} NothingStartsAfterExit(s: Pool, acts: seq<Action>, i: nat)
    requires i < |s.workers| && Gone(s.workers[i].pc) && Run(s, acts).Some?
    ensures var s' := Run(s, acts).value;
            && Gone(s'.workers[i].pc)
            && s'.workers[i].started == s.workers[i].started && s'.workers[i].done == s.workers[i].done
  {
    if acts != [] {
      var n := |acts| - 1;
      NothingStartsAfterExit(s, acts[..n], i);
      StepAfterExit(Run(s, acts[..n]).value, acts[n], i);
    }
  }

  /** The pool's memory is released only when every worker has exited. */
  lemma FreedAfterAllExited(amount: nat, acts: seq<Action>)
    requires Run(Init(amount), acts).Some? && Run(Init(amount), acts).value.destroyer.Freed?
    ensures forall j :: 0 <= j < amount ==> Run(Init(amount), acts).value.workers[j].pc.Exited?
  {
    RunKeeps(amount, acts);
  }

  /** At the moment a job is linked, the chosen queue is no longer than any length the scan has read,
      although the workers have been draining their queues in between. */
  lemma ChosenQueueIsShortest(amount: nat, acts: seq<Action>)
    requires Run(Init(amount), acts).Some? && Run(Init(amount), acts).value.poster.Locked?
    ensures var s := Run(Init(amount), acts).value;
            && s.poster.w < amount
            && forall j :: 0 <= j < |s.poster.sampled| ==> |s.workers[s.poster.w].queue| <= s.poster.sampled[j]
  {
    RunKeeps(amount, acts);
  }

  /** A post finds no worker exactly when every queue it read held 10000 jobs or more; the code then
      follows a null pointer. */
  lemma PostFindsNoWorkerExactlyWhenFull(amount: nat, acts: seq<Action>)
    requires Run(Init(amount), acts).Some? && Run(Init(amount), acts).value.poster.Chosen?
    ensures var p := Run(Init(amount), acts).value.poster;
            p.choice.None? <==> |p.sampled| == amount && forall j :: 0 <= j < amount ==> p.sampled[j] >= 10000
  {
    RunKeeps(amount, acts);
  }
}
