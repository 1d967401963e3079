/** How posts spread over the workers of a pool: the choice of a worker, balance, and the room there must be. */
module PoolPosting {
  import opened Results
  import opened ThreadPool

  // Selection.

  /** The first of the shortest queues, if it holds fewer than 10000 jobs. */
  ghost predicate IsChoice(lens: seq<nat>, c: Option<nat>) {
    match c
    case None => forall j :: 0 <= j < |lens| ==> lens[j] >= SCAN_LIMIT
    case Some(w) =>
      && w < |lens| && lens[w] < SCAN_LIMIT
      && (forall j :: 0 <= j < |lens| ==> lens[w] <= lens[j])
      && (forall j :: 0 <= j < w ==> lens[w] < lens[j])
  }

  /** The scan over queues that do not change meanwhile. */
  method SelectWorker(lens: seq<nat>) returns (pt: Option<nat>)
    ensures IsChoice(lens, pt)
  {
    pt := None;
    var min := SCAN_LIMIT;
    for i := 0 to |lens|
      invariant forall j :: 0 <= j < i ==> min <= lens[j] && lens[j] != 0
      invariant pt.None? ==> min == SCAN_LIMIT
      invariant pt.Some? ==> pt.value < i && lens[pt.value] == min < SCAN_LIMIT && forall j :: 0 <= j < pt.value ==> min < lens[j]
    {
      var sz := lens[i];
      if sz == 0 {
        pt := Some(i);
        break;
      }
      if min > sz {
        pt := Some(i);
        min := sz;
      }
    }
  }

  function Lengths(s: Pool): seq<nat> {
    seq(|s.workers|, i requires 0 <= i < |s.workers| => |s.workers[i].queue|)
  }

  ghost predicate NoUnlink(acts: seq<Action>) {
    forall i :: 0 <= i < |acts| ==> !acts[i].Unlink?
  }

  /** While no job leaves a queue, what a post has read is current and it remembers the first of the shortest. */
  ghost predicate ScanExact(s: Pool) {
    match s.poster
    case Scanning(best, min, sampled) =>
      && |sampled| <= |s.workers|
      && (forall j :: 0 <= j < |sampled| ==> sampled[j] == |s.workers[j].queue| && min <= sampled[j] && sampled[j] != 0)
      && (best.None? ==> min == SCAN_LIMIT)
      && (best.Some? ==> best.value < |sampled| && sampled[best.value] == min < SCAN_LIMIT
                         && forall j :: 0 <= j < best.value ==> min < sampled[j])
    case Chosen(choice, _) => IsChoice(Lengths(s), choice)
    case Locked(w, _) => IsChoice(Lengths(s), Some(w))
    case _ => true
  }

  /** Nothing but linking and unlinking changes a queue, and nothing but its own steps the post in progress. */
  lemma QueuesStay(s: Pool, a: Action)
    requires Step(s, a).Some? && !a.Unlink? && !a.PostAdd?
    ensures var s' := Step(s, a).value;
            && Lengths(s') == Lengths(s) && s'.tickets == s.tickets
            && (s'.poster == s.poster || PostStep(s, a) == Some(s'))
  {
    var s' := Step(s, a).value;
    assert forall i :: 0 <= i < |s.workers| ==> s'.workers[i].queue == s.workers[i].queue;
  }

  lemma SampleKeepsExact(s: Pool)
    requires ScanExact(s) && s.poster.Scanning? && Scan(s).Some?
    ensures ScanExact(Scan(s).value)
  {}

  lemma ExactKeeps(s: Pool, a: Action)
    requires ScanExact(s) && Step(s, a).Some? && !a.Unlink?
    ensures ScanExact(Step(s, a).value)
  {
    if a.Sample? {
      SampleKeepsExact(s);
    } else if !a.PostAdd? {
      QueuesStay(s, a);
      var s' := Step(s, a).value;
      assert forall i :: 0 <= i < |s.workers| ==> |s'.workers[i].queue| == Lengths(s')[i] == Lengths(s)[i];
    }
  }

  lemma {:induction false} RunKeepsExact(s: Pool, acts: seq<Action>)
    requires ScanExact(s) && NoUnlink(acts) && Run(s, acts).Some?
    ensures ScanExact(Run(s, acts).value)
  {
    if acts != [] {
      var n := |acts| - 1;
      RunKeepsExact(s, acts[..n]);
      ExactKeeps(Run(s, acts[..n]).value, acts[n]);
    }
  }

  /** Whatever went before: a scan during which no job leaves a queue ends in the first of the shortest. */
  lemma ScanMakesTheChoice(s: Pool, acts: seq<Action>)
    requires s.poster.Idle? && NoUnlink(acts) && Run(s, acts).Some? && Run(s, acts).value.poster.Chosen?
    ensures var t := Run(s, acts).value; IsChoice(Lengths(t), t.poster.choice)
  {
    RunKeepsExact(s, acts);
  }

  // Balance.

  /** Full rounds and posts in the current round, after k posts to n workers. */
  function Rounds(k: nat, n: nat): (r: (nat, nat))
    requires n > 0
    ensures r.1 < n && k == r.0 * n + r.1
  {
    if k == 0 then (0, 0)
    else
      var (q, m) := Rounds(k - 1, n);
      if m + 1 == n then (q + 1, 0) else (q, m + 1)
  }

  lemma {:induction false} LessByOne(p: int, q: int, n: nat)
    requires p < q
    ensures p * n + n <= q * n
    decreases q - p
  {
    assert (q - 1) * n == q * n - n;
    if p + 1 < q {
      LessByOne(p, q - 1, n);
    }
  }

  lemma DivisionIsUnique(q: int, m: nat, p: int, l: nat, n: nat)
    requires m < n && l < n && q * n + m == p * n + l
    ensures q == p && m == l
  {
    if q < p {
      LessByOne(q, p, n);
    } else if p < q {
      LessByOne(p, q, n);
    }
  }

  /** That is, quotient and remainder. */
  lemma RoundsAreDivision(k: nat, n: nat)
    requires n > 0
    ensures Rounds(k, n) == (k / n, k % n)
  {
    var q, m, p, l := Rounds(k, n).0, Rounds(k, n).1, k / n, k % n;
    assert p * n + l == k;
    DivisionIsUnique(q, m, p, l, n);
  }

  /** Queue lengths after k posts: everybody has one job per round, the first ones one more. */
  ghost predicate RoundRobin(lens: seq<nat>, k: nat) {
    && |lens| > 0
    && forall i :: 0 <= i < |lens| ==> lens[i] == Rounds(k, |lens|).0 + if i < Rounds(k, |lens|).1 then 1 else 0
  }

  lemma PostGoesRound(lens: seq<nat>, k: nat, c: Option<nat>)
    requires RoundRobin(lens, k) && IsChoice(lens, c)
    ensures c.Some? <==> Rounds(k, |lens|).0 < SCAN_LIMIT
    ensures c.Some? ==> c.value == Rounds(k, |lens|).1 && RoundRobin(lens[c.value := lens[c.value] + 1], k + 1)
  {
    var (q, m) := Rounds(k, |lens|);
    assert lens[m] == q;
  }

  lemma FullRounds(q: nat, m: nat, n: nat, limit: nat)
    requires m < n
    ensures q < limit <==> q * n + m < limit * n
  {
    if q < limit {
      assert (q + 1) * n <= limit * n;
    } else {
      assert limit * n <= q * n;
    }
  }

  ghost predicate Balanced(s: Pool) {
    ScanExact(s) && RoundRobin(Lengths(s), s.tickets)
  }

  lemma BalanceKeeps(s: Pool, a: Action)
    requires Balanced(s) && Step(s, a).Some? && !a.Unlink?
    ensures Balanced(Step(s, a).value)
  {
    ExactKeeps(s, a);
    if a.PostAdd? {
      var w := s.poster.w;
      PostGoesRound(Lengths(s), s.tickets, Some(w));
      assert Lengths(Step(s, a).value) == Lengths(s)[w := Lengths(s)[w] + 1];
    } else {
      QueuesStay(s, a);
    }
  }

  lemma {:induction false} RunBalances(n: nat, acts: seq<Action>)
    requires n > 0 && NoUnlink(acts) && Run(Init(n), acts).Some?
    ensures Balanced(Run(Init(n), acts).value)
  {
    if acts != [] {
      var m := |acts| - 1;
      RunBalances(n, acts[..m]);
      BalanceKeeps(Run(Init(n), acts[..m]).value, acts[m]);
    }
  }

  /** In every run of the protocol in which no job finishes, posting is round robin and no two queues differ by more
      than one, whatever workers, posters and destroyer do otherwise. */
  lemma PostsAreBalanced(n: nat, acts: seq<Action>)
    requires n > 0 && NoUnlink(acts) && Run(Init(n), acts).Some?
    ensures var s := Run(Init(n), acts).value;
            && |s.workers| == n && RoundRobin(Lengths(s), s.tickets)
            && (s.poster.Locked? ==> s.poster.w == s.tickets % n)
            && forall i, j :: 0 <= i < n && 0 <= j < n ==> |s.workers[i].queue| <= |s.workers[j].queue| + 1
  {
    RunBalances(n, acts);
    var s := Run(Init(n), acts).value;
    if s.poster.Locked? {
      PostGoesRound(Lengths(s), s.tickets, Some(s.poster.w));
      RoundsAreDivision(s.tickets, n);
    }
    assert forall i :: 0 <= i < n ==> |s.workers[i].queue| == Lengths(s)[i];
  }

  /** With no job finishing, a post finds a worker exactly while fewer than 10000 jobs per worker have been posted. */
  lemma PostLimitIsExact(n: nat, acts: seq<Action>)
    requires n > 0 && NoUnlink(acts) && Run(Init(n), acts).Some? && Run(Init(n), acts).value.poster.Chosen?
    ensures var s := Run(Init(n), acts).value;
            s.poster.choice.Some? <==> s.tickets < 10000 * n
  {
    RunBalances(n, acts);
    var s := Run(Init(n), acts).value;
    PostGoesRound(Lengths(s), s.tickets, s.poster.choice);
    var (q, m) := Rounds(s.tickets, n);
    FullRounds(q, m, n, SCAN_LIMIT);
  }

  // Room: when a post can find no worker at all.

  lemma RunMore(s: Pool, acts: seq<Action>, a: Action)
    requires Run(s, acts).Some?
    ensures Run(s, acts + [a]) == Step(Run(s, acts).value, a)
  {
    assert (acts + [a])[..|acts|] == acts;
  }

  /** A scan left alone comes to its end and changes nothing. */
  lemma ScanCompletes(s: Pool, acts: seq<Action>) returns (more: seq<Action>)
    requires Run(s, acts).Some?
    requires var t := Run(s, acts).value;
             && t.poster.Scanning? && |t.poster.sampled| <= |t.workers|
             && forall i :: 0 <= i < |t.workers| ==> t.workers[i].lock.Free?
    ensures acts <= more && forall i :: |acts| <= i < |more| ==> more[i].Sample?
    ensures Run(s, more).Some?
    ensures var t, t' := Run(s, acts).value, Run(s, more).value;
            t'.poster.Chosen? && t' == t.(poster := t'.poster)
    decreases |Run(s, acts).value.workers| - |Run(s, acts).value.poster.sampled|
  {
    RunMore(s, acts, Sample);
    more := acts + [Sample];
    if Run(s, more).value.poster.Scanning? {
      more := ScanCompletes(s, more);
    }
  }

  /** The pool when no post and no destruction is under way. */
  ghost predicate Quiet(s: Pool) {
    s.poster.Idle? && s.destroyer.NotCalled?
  }

  lemma QuietIsUnlocked(s: Pool)
    requires Inv(s) && Quiet(s)
    ensures forall i :: 0 <= i < |s.workers| ==> s.workers[i].lock.Free?
  {
    forall i | 0 <= i < |s.workers|
      ensures s.workers[i].lock.Free?
    {
      assert !HeldByPoster(s.poster, i) && !HeldByDestroyer(s.destroyer, i);
    }
  }

  /** From a quiet state a post can begin and read every queue as it is. */
  lemma PostCanScan(n: nat, acts: seq<Action>) returns (more: seq<Action>)
    requires Run(Init(n), acts).Some? && Quiet(Run(Init(n), acts).value)
    ensures acts + [PostBegin] <= more && forall i :: |acts| < i < |more| ==> more[i].Sample?
    ensures Run(Init(n), more).Some?
    ensures var t, t' := Run(Init(n), acts).value, Run(Init(n), more).value;
            t'.poster.Chosen? && t' == t.(poster := t'.poster)
  {
    RunKeeps(n, acts);
    QuietIsUnlocked(Run(Init(n), acts).value);
    RunMore(Init(n), acts, PostBegin);
    more := ScanCompletes(Init(n), acts + [PostBegin]);
  }

  lemma LinkCompletes(s: Pool, acts: seq<Action>) returns (more: seq<Action>)
    requires Run(s, acts).Some?
    requires var t := Run(s, acts).value;
             t.poster.Chosen? && t.poster.choice.Some? && t.poster.choice.value < |t.workers|
             && t.workers[t.poster.choice.value].lock.Free?
    ensures more == acts + [PostLock] + [PostAdd] && Run(s, more).Some?
    ensures var t, t' := Run(s, acts).value, Run(s, more).value;
            && |t'.workers| == |t.workers| && t'.poster == Added(t.poster.choice.value)
            && t'.destroyer == t.destroyer && t'.tickets == t.tickets + 1
  {
    var t, locked := Run(s, acts).value, acts + [PostLock];
    RunMore(s, acts, PostLock);
    var t1 := Run(s, locked).value;
    assert t1.poster == Locked(t.poster.choice.value, t.poster.sampled) && t1.destroyer == t.destroyer && t1.tickets == t.tickets;
    RunMore(s, locked, PostAdd);
    more := locked + [PostAdd];
  }

  lemma SignalCompletes(s: Pool, acts: seq<Action>) returns (more: seq<Action>)
    requires Run(s, acts).Some? && Run(s, acts).value.poster.Added?
    requires Run(s, acts).value.poster.w < |Run(s, acts).value.workers|
    ensures more == acts + [PostSignal] + [PostUnlock] && Run(s, more).Some?
    ensures var t, t' := Run(s, acts).value, Run(s, more).value;
            t'.poster.Idle? && t'.destroyer == t.destroyer && t'.tickets == t.tickets
  {
    var t, signalled := Run(s, acts).value, acts + [PostSignal];
    RunMore(s, acts, PostSignal);
    var t1 := Run(s, signalled).value;
    assert t1.poster == Signalled(t.poster.w) && t1.destroyer == t.destroyer && t1.tickets == t.tickets;
    RunMore(s, signalled, PostUnlock);
    more := signalled + [PostUnlock];
  }

  /** As long as there is room a post can be completed. */
  lemma PostCanComplete(n: nat, acts: seq<Action>) returns (more: seq<Action>)
    requires n > 0 && NoUnlink(acts) && Run(Init(n), acts).Some? && Quiet(Run(Init(n), acts).value)
    requires Run(Init(n), acts).value.tickets < SCAN_LIMIT * n
    ensures NoUnlink(more) && Run(Init(n), more).Some?
    ensures var t, t' := Run(Init(n), acts).value, Run(Init(n), more).value;
            Quiet(t') && t'.tickets == t.tickets + 1
  {
    RunKeeps(n, acts);
    QuietIsUnlocked(Run(Init(n), acts).value);
    more := PostCanScan(n, acts);
    PostLimitIsExact(n, more);
    RunKeeps(n, more);
    more := LinkCompletes(Init(n), more);
    more := SignalCompletes(Init(n), more);
  }

  lemma PostsCanComplete(n: nat, k: nat) returns (acts: seq<Action>)
    requires n > 0 && k <= SCAN_LIMIT * n
    ensures NoUnlink(acts) && Run(Init(n), acts).Some?
    ensures Quiet(Run(Init(n), acts).value) && Run(Init(n), acts).value.tickets == k
  {
    if k == 0 {
      acts := [];
    } else {
      var before := PostsCanComplete(n, k - 1);
      acts := PostCanComplete(n, before);
    }
  }

  /** The failing input: in a pool of any size, 10000 posts per worker that nobody has finished, and then one more. */
  lemma FullPoolHasNoWorker(n: nat)
    requires n > 0
    ensures exists acts :: NoUnlink(acts) && Run(Init(n), acts).Some? && Run(Init(n), acts).value.tickets == 10000 * n
                           && Run(Init(n), acts).value.poster.Chosen? && Run(Init(n), acts).value.poster.choice.None?
  {
    var acts := PostsCanComplete(n, SCAN_LIMIT * n);
    var more := PostCanScan(n, acts);
    PostLimitIsExact(n, more);
  }

  /** No further post begins: all of it belongs to the one that has begun. */
  ghost predicate SamePost(acts: seq<Action>) {
    forall i :: 0 <= i < |acts| ==> !acts[i].PostBegin?
  }

  /** As long as a post is choosing, queues are no longer than they were, and what it has read was no longer either. */
  ghost predicate StillChoosing(before: Pool, s: Pool) {
    s.poster.Scanning? || s.poster.Chosen? ==>
      && |s.workers| == |before.workers| && |s.poster.sampled| <= |s.workers|
      && (forall i :: 0 <= i < |s.workers| ==> |s.workers[i].queue| <= |before.workers[i].queue|)
      && (forall i :: 0 <= i < |s.poster.sampled| ==> s.poster.sampled[i] <= |before.workers[i].queue|)
  }

  lemma QueuesShrink(s: Pool, a: Action)
    requires Inv(s) && Step(s, a).Some? && !a.PostAdd?
    ensures forall i :: 0 <= i < |s.workers| ==> |Step(s, a).value.workers[i].queue| <= |s.workers[i].queue|
  {
    if a.Unlink? {
      WorkerStepKeeps(s.workers[a.i], a, s.poster == Added(a.i), s.tickets);
    } else {
      QueuesStay(s, a);
      assert forall i :: 0 <= i < |s.workers| ==> |Step(s, a).value.workers[i].queue| == Lengths(Step(s, a).value)[i] == Lengths(s)[i];
    }
  }

  lemma SampleKeepsChoosing(before: Pool, s: Pool)
    requires StillChoosing(before, s) && s.poster.Scanning? && Scan(s).Some?
    ensures StillChoosing(before, Scan(s).value)
  {}

  lemma ChoosingKeeps(before: Pool, s: Pool, a: Action)
    requires Inv(s) && StillChoosing(before, s) && Step(s, a).Some? && !a.PostBegin?
    ensures StillChoosing(before, Step(s, a).value)
  {
    if a.Sample? {
      SampleKeepsChoosing(before, s);
    } else if !a.PostAdd? {
      QueuesShrink(s, a);
    }
  }

  lemma {:induction false} RunKeepsChoosing(before: Pool, s: Pool, acts: seq<Action>)
    requires Inv(s) && StillChoosing(before, s) && SamePost(acts) && Run(s, acts).Some?
    ensures Inv(Run(s, acts).value) && StillChoosing(before, Run(s, acts).value)
  {
    if acts != [] {
      var n := |acts| - 1;
      RunKeepsChoosing(before, s, acts[..n]);
      StepKeeps(Run(s, acts[..n]).value, acts[n]);
      ChoosingKeeps(before, Run(s, acts[..n]).value, acts[n]);
    }
  }

  ghost predicate HasRoom(s: Pool) {
    exists i :: 0 <= i < |s.workers| && |s.workers[i].queue| < 10000
  }

  /** Whatever happens until the post that has just begun makes its choice, it finds a worker. */
  ghost predicate AlwaysFindsWorker(begun: Pool) {
    forall acts :: SamePost(acts) && Run(begun, acts).Some? && Run(begun, acts).value.poster.Chosen? ==>
      Run(begun, acts).value.poster.choice.Some?
  }

  lemma RoomSuffices(s: Pool, acts: seq<Action>)
    requires Inv(s) && Quiet(s) && HasRoom(s)
    requires var begun := Step(s, PostBegin).value;
             SamePost(acts) && Run(begun, acts).Some? && Run(begun, acts).value.poster.Chosen?
    ensures Run(Step(s, PostBegin).value, acts).value.poster.choice.Some?
  {
    StepKeeps(s, PostBegin);
    RunKeepsChoosing(s, Step(s, PostBegin).value, acts);
    var t := Run(Step(s, PostBegin).value, acts).value;
    var i :| 0 <= i < |s.workers| && |s.workers[i].queue| < SCAN_LIMIT;
    assert i < |t.poster.sampled| ==> t.poster.sampled[i] < SCAN_LIMIT;
  }

  lemma NoRoomCanFail(s: Pool)
    requires Inv(s) && Quiet(s) && !HasRoom(s)
    ensures !AlwaysFindsWorker(Step(s, PostBegin).value)
  {
    QuietIsUnlocked(s);
    var begun := Step(s, PostBegin).value;
    assert Run(begun, []) == Some(begun);
    var acts := ScanCompletes(begun, []);
    RunKeepsExact(begun, acts);
    var t := Run(begun, acts).value;
    assert forall i :: 0 <= i < |s.workers| ==> Lengths(t)[i] == |s.workers[i].queue|;
    assert SamePost(acts) && t.poster.choice.None?;
  }

  /** The condition a caller can check: a post is certain to find a worker if and only if, when it begins, some queue
      holds fewer than 10000 jobs. */
  lemma PostIsSafeExactlyWithRoom(n: nat, acts: seq<Action>)
    requires Run(Init(n), acts).Some? && Quiet(Run(Init(n), acts).value)
    ensures var s := Run(Init(n), acts).value;
            AlwaysFindsWorker(Step(s, PostBegin).value) <==> HasRoom(s)
  {
    RunKeeps(n, acts);
    var s := Run(Init(n), acts).value;
    if HasRoom(s) {
      forall more | SamePost(more) && Run(Step(s, PostBegin).value, more).Some? && Run(Step(s, PostBegin).value, more).value.poster.Chosen?
        ensures Run(Step(s, PostBegin).value, more).value.poster.choice.Some?
      {
        RoomSuffices(s, more);
      }
    } else {
      NoRoomCanFail(s);
    }
  }

  function Sum(lens: seq<nat>): nat {
    if lens == [] then 0 else Sum(lens[..|lens| - 1]) + lens[|lens| - 1]
  }

  lemma {:induction false} SumOfFull(lens: seq<nat>, limit: nat)
    requires forall i :: 0 <= i < |lens| ==> lens[i] >= limit
    ensures Sum(lens) >= limit * |lens|
  {
    if lens != [] {
      var n := |lens| - 1;
      SumOfFull(lens[..n], limit);
      assert limit * (n + 1) == limit * n + limit;
    }
  }

  /** In particular it is with fewer than 10000 jobs per worker outstanding. */
  lemma FewJobsLeaveRoom(s: Pool)
    requires Sum(Lengths(s)) < 10000 * |s.workers|
    ensures HasRoom(s)
  {
    if !HasRoom(s) {
      SumOfFull(Lengths(s), SCAN_LIMIT);
    }
  }
}
