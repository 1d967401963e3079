/** Whole runs of the timer thread: requests and expiries in any order, and how often each timer fires. */
module TimerRuns {
  import opened Seqs
  import opened TimerMessage
  import opened TimerRegistry
  import Bytes

  /** A request served, with what the system grants a new timer; or the expiry of a handle. */
  datatype Event = Serve(r: Request, g: Grant) | Expire(fd: int)

  /** The list, and its history: the count each handle was armed with, how often its callback has been invoked,
      and the handles that were cancelled. */
  datatype State = State(nodes: seq<Timer>, armed: map<int, nat>, fired: map<int, nat>, cancelled: set<int>)

  /** The state right after the server node was created. */
  function Ready(srvFd: int): State {
    State([Timer(true, srvFd, 0, 0)], map[], map[], {})
  }

  /** Handles are never used twice. */
  predicate Enabled(s: State, e: Event) {
    e.Serve? && e.g.Granted? ==> Fresh(s.nodes, e.g) && e.g.fd !in s.armed
  }

  function Step(s: State, e: Event): State {
    match e
    case Serve(Set(_, _, repeats, cb), g) =>
      var nodes' := Added(s.nodes, g, repeats, cb);
      if nodes' == s.nodes then s
      else State(nodes', s.armed[g.fd := repeats], s.fired[g.fd := 0], s.cancelled)
    case Serve(Cancel(cb), _) =>
      var i := Find(s.nodes, IsTimerOf(cb));
      if i == |s.nodes| then s else s.(nodes := Removed(s.nodes, cb), cancelled := s.cancelled + {s.nodes[i].fd})
    case Serve(_, _) => s
    case Expire(fd) =>
      var i := Find(s.nodes, IsTimerAt(fd));
      if i == |s.nodes| then s
      else s.(nodes := Expired(s.nodes, fd), fired := s.fired[fd := (if fd in s.fired then s.fired[fd] else 0) + 1])
  }

  ghost predicate Enables(s: State, es: seq<Event>)
    decreases es
  {
    es == [] || (Enabled(s, es[0]) && Enables(Step(s, es[0]), es[1..]))
  }

  function Run(s: State, es: seq<Event>): State
    decreases es
  {
    if es == [] then s else Run(Step(s, es[0]), es[1..])
  }

  /** What is asked of the environment is just that the handles it grants are new: none is the server's, no two are equal. */
  ghost predicate NewHandles(srvFd: int, es: seq<Event>) {
    && (forall i :: 0 <= i < |es| && es[i].Serve? && es[i].g.Granted? ==> es[i].g.fd != srvFd)
    && (forall i, j :: 0 <= i < j < |es| && es[i].Serve? && es[i].g.Granted? && es[j].Serve? && es[j].g.Granted? ==>
          es[i].g.fd != es[j].g.fd)
  }

  /** No handle in use or used before is granted by es. */
  ghost predicate Unused(s: State, es: seq<Event>) {
    forall i :: 0 <= i < |es| && es[i].Serve? && es[i].g.Granted? ==>
      es[i].g.fd !in s.armed && forall n :: n in s.nodes ==> n.fd != es[i].g.fd
  }

  lemma StepUsesItsHandle(s: State, e: Event, fd: int)
    requires fd !in s.armed && (forall n :: n in s.nodes ==> n.fd != fd)
    requires e.Serve? && e.g.Granted? ==> e.g.fd != fd
    ensures fd !in Step(s, e).armed && forall n :: n in Step(s, e).nodes ==> n.fd != fd
  {}

  lemma {:induction false} UnusedIsEnough(s: State, srvFd: int, es: seq<Event>)
    requires Unused(s, es) && NewHandles(srvFd, es)
    ensures Enables(s, es)
    decreases es
  {
    if es != [] {
      assert forall n :: n in s.nodes <==> exists i :: 0 <= i < |s.nodes| && s.nodes[i] == n;
      forall i | 0 < i < |es| && es[i].Serve? && es[i].g.Granted?
        ensures es[i].g.fd !in Step(s, es[0]).armed && forall n :: n in Step(s, es[0]).nodes ==> n.fd != es[i].g.fd
      {
        StepUsesItsHandle(s, es[0], es[i].g.fd);
      }
      UnusedIsEnough(Step(s, es[0]), srvFd, es[1..]);
    }
  }

  lemma NewHandlesEnable(srvFd: int, es: seq<Event>)
    requires NewHandles(srvFd, es)
    ensures Enables(Ready(srvFd), es)
  {
    UnusedIsEnough(Ready(srvFd), srvFd, es);
  }

  predicate Registered(nodes: seq<Timer>, fd: int) {
    exists i :: 1 <= i < |nodes| && nodes[i].fd == fd
  }

  /** What is known of a registered timer armed with n. */
  predicate Counts(t: Timer, n: nat, fired: nat) {
    if n == 0 then t.repeats == 0 else t.repeats >= 1 && fired + t.repeats == n
  }

  ghost predicate History(s: State) {
    && Inv(s.nodes)
    && s.fired.Keys == s.armed.Keys && s.cancelled <= s.armed.Keys && s.nodes[0].fd !in s.armed
    && (forall i :: 1 <= i < |s.nodes| ==>
          && s.nodes[i].fd in s.armed && s.nodes[i].fd !in s.cancelled
          && Counts(s.nodes[i], s.armed[s.nodes[i].fd], s.fired[s.nodes[i].fd]))
    && (forall fd :: fd in s.armed && !Registered(s.nodes, fd) && fd !in s.cancelled ==>
          s.armed[fd] >= 1 && s.fired[fd] == s.armed[fd])
    && (forall fd :: fd in s.cancelled ==> s.armed[fd] == 0 || s.fired[fd] < s.armed[fd])
  }

  // Each kind of event keeps it.

  lemma SetKeeps(s: State, g: Grant, repeats: u32, cb: u64)
    requires History(s) && g.Granted? && Fresh(s.nodes, g) && g.fd !in s.armed
    requires !HasCb(s.nodes, cb) && |s.nodes| <= MAX_TIMER_CNT
    ensures History(State(s.nodes + [Timer(false, g.fd, repeats, cb)], s.armed[g.fd := repeats], s.fired[g.fd := 0], s.cancelled))
  {
    var t := State(s.nodes + [Timer(false, g.fd, repeats, cb)], s.armed[g.fd := repeats], s.fired[g.fd := 0], s.cancelled);
    AddedRefines(s.nodes, g, repeats, cb);
    forall fd
      ensures Registered(t.nodes, fd) <==> Registered(s.nodes, fd) || fd == g.fd
    {
      RegisteredAfterAdd(s.nodes, Timer(false, g.fd, repeats, cb), fd);
    }
  }

  lemma RegisteredAfterAdd(nodes: seq<Timer>, n: Timer, fd: int)
    requires |nodes| > 0
    ensures Registered(nodes + [n], fd) <==> Registered(nodes, fd) || fd == n.fd
  {
    var more := nodes + [n];
    assert more[|nodes|] == n;
    if Registered(nodes, fd) {
      var i :| 1 <= i < |nodes| && nodes[i].fd == fd;
      assert more[i].fd == fd;
    }
  }

  /** Dropping node i leaves the other handles registered, and only them. */
  lemma RegisteredAfterDrop(nodes: seq<Timer>, i: nat, fd: int)
    requires Inv(nodes) && 1 <= i < |nodes|
    ensures Registered(RemoveAt(nodes, i), fd) <==> Registered(nodes, fd) && fd != nodes[i].fd
  {
    var rest := RemoveAt(nodes, i);
    RemoveAtSkips(nodes, i);
    if Registered(rest, fd) {
      var j :| 1 <= j < |rest| && rest[j].fd == fd;
      assert nodes[Skip(j, i)].fd == fd;
    }
    if Registered(nodes, fd) && fd != nodes[i].fd {
      var k :| 1 <= k < |nodes| && nodes[k].fd == fd;
      var j := if k < i then k else k - 1;
      assert Skip(j, i) == k && rest[j].fd == fd;
    }
  }

  lemma DropHistory(s: State, t: State, i: nat)
    requires History(s) && 1 <= i < |s.nodes| && t.nodes == RemoveAt(s.nodes, i) && t.armed == s.armed
    requires var fd := s.nodes[i].fd;
             || (t.cancelled == s.cancelled + {fd} && t.fired == s.fired)
             || (t.cancelled == s.cancelled && t.fired == s.fired[fd := s.armed[fd]] && s.armed[fd] >= 1)
    ensures History(t)
  {
    DropKeeps(s.nodes, i);
    RemoveAtSkips(s.nodes, i);
    forall j | 1 <= j < |t.nodes|
      ensures t.nodes[j].fd in t.armed && t.nodes[j].fd !in t.cancelled
           && Counts(t.nodes[j], t.armed[t.nodes[j].fd], t.fired[t.nodes[j].fd])
    {
      assert t.nodes[j] == s.nodes[Skip(j, i)] && s.nodes[Skip(j, i)].fd != s.nodes[i].fd;
    }
    forall fd | fd in t.armed && !Registered(t.nodes, fd) && fd !in t.cancelled
      ensures t.armed[fd] >= 1 && t.fired[fd] == t.armed[fd]
    {
      RegisteredAfterDrop(s.nodes, i, fd);
    }
  }

  lemma CountDownHistory(s: State, t: State, i: nat)
    requires History(s) && 1 <= i < |s.nodes| && s.nodes[i].repeats != 1
    requires t == s.(nodes := Ticked(s.nodes, i), fired := s.fired[s.nodes[i].fd := s.fired[s.nodes[i].fd] + 1])
    ensures History(t)
  {
    TickRefines(s.nodes, i);
    assert s.nodes[i].fd in s.armed && s.nodes[i].fd !in s.cancelled;
    assert |t.nodes| == |s.nodes| && forall j :: 0 <= j < |t.nodes| ==> t.nodes[j].fd == s.nodes[j].fd;
    assert forall j :: 0 <= j < |t.nodes| && j != i ==> t.nodes[j] == s.nodes[j] && s.nodes[j].fd != s.nodes[i].fd;
    forall j | 1 <= j < |t.nodes|
      ensures t.nodes[j].fd in t.armed && t.nodes[j].fd !in t.cancelled
           && Counts(t.nodes[j], t.armed[t.nodes[j].fd], t.fired[t.nodes[j].fd])
    {
      assert Counts(s.nodes[j], s.armed[s.nodes[j].fd], s.fired[s.nodes[j].fd]);
    }
    forall fd | fd in t.armed && !Registered(t.nodes, fd) && fd !in t.cancelled
      ensures t.armed[fd] >= 1 && t.fired[fd] == t.armed[fd]
    {
      SameHandles(s.nodes, t.nodes, fd);
      assert fd != s.nodes[i].fd by { assert t.nodes[i].fd == s.nodes[i].fd; }
    }
  }

  lemma SameHandles(a: seq<Timer>, b: seq<Timer>, fd: int)
    requires |a| == |b| && forall j :: 0 <= j < |a| ==> b[j].fd == a[j].fd
    ensures Registered(a, fd) ==> Registered(b, fd)
  {
    if Registered(a, fd) {
      var j :| 1 <= j < |a| && a[j].fd == fd;
      assert b[j].fd == fd;
    }
  }

  lemma CancelKeeps(s: State, cb: u64, g: Grant)
    requires History(s)
    ensures var t := Step(s, Serve(Cancel(cb), g)); History(t) && t.nodes[0] == s.nodes[0]
  {
    var i := Find(s.nodes, IsTimerOf(cb));
    if i < |s.nodes| {
      DropKeeps(s.nodes, i);
      DropHistory(s, Step(s, Serve(Cancel(cb), g)), i);
    }
  }

  lemma ExpireKeeps(s: State, fd: int)
    requires History(s)
    ensures var t := Step(s, Expire(fd)); History(t) && t.nodes[0] == s.nodes[0]
  {
    var i := Find(s.nodes, IsTimerAt(fd));
    if i < |s.nodes| {
      TickRefines(s.nodes, i);
      if s.nodes[i].repeats == 1 {
        DropHistory(s, Step(s, Expire(fd)), i);
      } else {
        CountDownHistory(s, Step(s, Expire(fd)), i);
      }
    }
  }

  lemma StepKeeps(s: State, e: Event)
    requires History(s) && Enabled(s, e)
    ensures History(Step(s, e)) && Step(s, e).nodes[0] == s.nodes[0]
  {
    match e
    case Serve(Set(_, _, repeats, cb), g) =>
      if Added(s.nodes, g, repeats, cb) != s.nodes {
        SetKeeps(s, g, repeats, cb);
      }
    case Serve(Cancel(cb), g) => CancelKeeps(s, cb, g);
    case Serve(Destroy, _) =>
    case Serve(Unknown, _) =>
    case Expire(fd) => ExpireKeeps(s, fd);
  }

  lemma {:induction false} RunKeeps(s: State, es: seq<Event>)
    requires History(s) && Enables(s, es)
    ensures History(Run(s, es)) && Run(s, es).nodes[0] == s.nodes[0]
    decreases es
  {
    if es != [] {
      StepKeeps(s, es[0]);
      RunKeeps(Step(s, es[0]), es[1..]);
    }
  }

  /** In every reachable state the server node is the first and only one, callbacks are unique, and there are at
      most 100 timers. */
  lemma RegistryInvariant(srvFd: int, es: seq<Event>)
    requires Enables(Ready(srvFd), es)
    ensures var nodes := Run(Ready(srvFd), es).nodes;
            && Inv(nodes) && 1 <= |nodes| <= 101 && nodes[0] == Timer(true, srvFd, 0, 0)
            && (forall i :: 1 <= i < |nodes| ==> !nodes[i].srv && nodes[i].cb != 0)
            && (forall i, j :: 0 <= i < j < |nodes| ==> nodes[i].cb != nodes[j].cb && nodes[i].fd != nodes[j].fd)
  {
    RunKeeps(Ready(srvFd), es);
  }

  /** A timer armed with n >= 1 has fired plus remaining equal to n while it is registered; unless cancelled, it has
      fired exactly n times when it is no longer registered; cancelled, it has fired fewer times. A timer armed with
      0 leaves the list only by being cancelled. */
  lemma TimersFireExactly(srvFd: int, es: seq<Event>, fd: int)
    requires Enables(Ready(srvFd), es) && fd in Run(Ready(srvFd), es).armed
    ensures var s := Run(Ready(srvFd), es);
            && fd in s.fired
            && (forall i :: 1 <= i < |s.nodes| && s.nodes[i].fd == fd && s.armed[fd] >= 1 ==>
                  s.nodes[i].repeats >= 1 && s.fired[fd] + s.nodes[i].repeats == s.armed[fd])
            && (!Registered(s.nodes, fd) && fd !in s.cancelled ==> s.armed[fd] >= 1 && s.fired[fd] == s.armed[fd])
            && (fd in s.cancelled && s.armed[fd] >= 1 ==> s.fired[fd] < s.armed[fd])
            && (s.armed[fd] == 0 && fd !in s.cancelled ==> Registered(s.nodes, fd))
  {
    RunKeeps(Ready(srvFd), es);
  }

  // From bytes and expiries to the map.

  /** What the timer thread wakes up for: a whole message on its connection (and what the system would grant a new
      timer), or the expiry of a handle. */
  datatype Input = Arrived(bytes: seq<Bytes.byte>, g: Grant) | Fired(fd: int)

  predicate Whole(ins: seq<Input>) {
    forall i :: 0 <= i < |ins| && ins[i].Arrived? ==> |ins[i].bytes| == SZ
  }

  predicate Stops(e: Event) {
    e.Serve? && e.r.Destroy?
  }

  function EventOf(i: Input): Event
    requires i.Arrived? ==> |i.bytes| == SZ
  {
    if i.Arrived? then Serve(Decode(i.bytes), i.g) else Expire(i.fd)
  }

  /** An event as it reaches the thread. */
  function InputOf(e: Event): (i: Input)
    requires e.Serve? ==> !e.r.Unknown?
    ensures i.Arrived? ==> |i.bytes| == SZ
  {
    if e.Serve? then Arrived(Encode(e.r), e.g) else Fired(e.fd)
  }

  lemma EventReadsBack(e: Event)
    requires e.Serve? ==> !e.r.Unknown?
    ensures EventOf(InputOf(e)) == e
  {
    if e.Serve? {
      MessageRoundTrip(e.r);
    }
  }

  /** What the inputs ask for, up to the first Destroy. */
  function Decoded(ins: seq<Input>): seq<Event>
    requires Whole(ins)
  {
    if ins == [] then []
    else if Stops(EventOf(ins[0])) then [EventOf(ins[0])]
    else [EventOf(ins[0])] + Decoded(ins[1..])
  }

  ghost predicate Understood(es: seq<Event>) {
    forall i :: 0 <= i < |es| && es[i].Serve? ==> !es[i].r.Unknown?
  }

  function Encoded(es: seq<Event>): (ins: seq<Input>)
    requires Understood(es)
    ensures Whole(ins) && |ins| == |es|
  {
    if es == [] then [] else [InputOf(es[0])] + Encoded(es[1..])
  }

  function UpToDestroy(es: seq<Event>): seq<Event> {
    if es == [] then []
    else if Stops(es[0]) then [es[0]]
    else [es[0]] + UpToDestroy(es[1..])
  }

  predicate Destroys(i: Input)
    requires i.Arrived? ==> |i.bytes| == SZ
  {
    i.Arrived? && Decode(i.bytes) == Destroy
  }

  /** Every input is taken, in order, up to and with the first message that decodes to Destroy; without one, all are. */
  lemma {:induction false} DecodedAre(ins: seq<Input>, k: nat)
    requires Whole(ins) && k < |ins| && forall j :: 0 <= j < k ==> !Destroys(ins[j])
    ensures k < |Decoded(ins)|
    ensures Decoded(ins)[k] == match ins[k] case Arrived(bytes, g) => Serve(Decode(bytes), g) case Fired(fd) => Expire(fd)
    ensures Destroys(ins[k]) || k == |ins| - 1 ==> |Decoded(ins)| == k + 1
  {
    if k > 0 {
      assert !Destroys(ins[0]);
      DecodedAre(ins[1..], k - 1);
    }
  }

  lemma {:induction false} UpToDestroyIs(es: seq<Event>, k: nat)
    requires k <= |es| && forall j :: 0 <= j < k ==> es[j].Expire? || es[j].r != Destroy
    requires k < |es| ==> es[k].Serve? && es[k].r == Destroy
    ensures UpToDestroy(es) == if k < |es| then es[..k + 1] else es
  {
    if es != [] && k > 0 {
      UpToDestroyIs(es[1..], k - 1);
      assert k < |es| ==> es[..k + 1] == [es[0]] + es[1..][..k];
    }
  }

  lemma {:induction false} EventsReadBack(es: seq<Event>)
    requires Understood(es)
    ensures Decoded(Encoded(es)) == UpToDestroy(es)
  {
    if es != [] {
      EventReadsBack(es[0]);
      EventsReadBack(es[1..]);
      assert Encoded(es)[0] == InputOf(es[0]) && Encoded(es)[1..] == Encoded(es[1..]);
    }
  }

  /** The list after one event, and the callback the event invokes. */
  function After(nodes: seq<Timer>, e: Event): seq<Timer> {
    match e
    case Serve(r, g) => Served(nodes, r, g)
    case Expire(fd) => Expired(nodes, fd)
  }

  function CallOf(nodes: seq<Timer>, e: Event): seq<u64> {
    if e.Serve? || Find(nodes, IsTimerAt(e.fd)) == |nodes| || CbOf(nodes, e.fd) == 0 then [] else [CbOf(nodes, e.fd)]
  }

  function AfterAll(nodes: seq<Timer>, es: seq<Event>): seq<Timer>
    decreases es
  {
    if es == [] then nodes else AfterAll(After(nodes, es[0]), es[1..])
  }

  function CallsOf(nodes: seq<Timer>, es: seq<Event>): seq<u64>
    decreases es
  {
    if es == [] then [] else CallOf(nodes, es[0]) + CallsOf(After(nodes, es[0]), es[1..])
  }

  /** List and callbacks after the inputs. */
  function Outcome(nodes: seq<Timer>, calls: seq<u64>, ins: seq<Input>): (seq<Timer>, seq<u64>)
    requires Whole(ins)
    decreases ins
  {
    if ins == [] then (nodes, calls)
    else
      var e := EventOf(ins[0]);
      var nodes', calls' := After(nodes, e), calls + CallOf(nodes, e);
      if Stops(e) then (nodes', calls') else Outcome(nodes', calls', ins[1..])
  }

  lemma FirstEvent(nodes: seq<Timer>, e: Event, later: seq<Event>)
    ensures AfterAll(nodes, [e] + later) == AfterAll(After(nodes, e), later)
    ensures CallsOf(nodes, [e] + later) == CallOf(nodes, e) + CallsOf(After(nodes, e), later)
  {
    assert ([e] + later)[1..] == later;
  }

  lemma Associative(a: seq<u64>, b: seq<u64>, c: seq<u64>)
    ensures a + (b + c) == (a + b) + c
  {}

  lemma {:induction false} OutcomeIsAfterAll(nodes: seq<Timer>, calls: seq<u64>, ins: seq<Input>)
    requires Whole(ins)
    ensures Outcome(nodes, calls, ins).0 == AfterAll(nodes, Decoded(ins))
    ensures Outcome(nodes, calls, ins).1 == calls + CallsOf(nodes, Decoded(ins))
    decreases ins
  {
    if ins == [] {
      assert calls + [] == calls;
    } else {
      var e := EventOf(ins[0]);
      var nodes', call := After(nodes, e), CallOf(nodes, e);
      var later := if Stops(e) then [] else Decoded(ins[1..]);
      assert Decoded(ins) == [e] + later;
      FirstEvent(nodes, e, later);
      Associative(calls, call, CallsOf(nodes', later));
      if Stops(e) {
        assert CallsOf(nodes', []) == [] && (calls + call) + [] == calls + call;
      } else {
        OutcomeIsAfterAll(nodes', calls + call, ins[1..]);
      }
    }
  }

  /** One wake-up. */
  method TimerWakes(list: TimerList, i: Input) returns (stop: bool)
    requires i.Arrived? ==> |i.bytes| == SZ
    modifies list
    ensures stop == (i.Arrived? && Decode(i.bytes) == Destroy)
    ensures list.nodes == After(old(list.nodes), EventOf(i))
    ensures list.calls == old(list.calls) + CallOf(old(list.nodes), EventOf(i))
  {
    stop := false;
    match i
    case Arrived(bytes, g) => stop := list.SrvTimerProc(bytes, g);
    case Fired(fd) => list.CliTimerProc(fd);
  }

  /** The loop of the timer thread, until it is told to stop and cleans up. */
  method TimerThread(list: TimerList, ins: seq<Input>)
    requires Whole(ins)
    modifies list
    ensures list.nodes == AfterAll(old(list.nodes), Decoded(ins))
    ensures list.calls == old(list.calls) + CallsOf(old(list.nodes), Decoded(ins))
  {
    OutcomeIsAfterAll(list.nodes, list.calls, ins);
    ghost var end := Outcome(list.nodes, list.calls, ins);
    assert ins[0..] == ins;
    for k := 0 to |ins|
      invariant Outcome(list.nodes, list.calls, ins[k..]) == end
    {
      assert ins[k..][1..] == ins[k + 1..];
      var stop := TimerWakes(list, ins[k]);
      if stop {
        return;
      }
    }
  }

  /** The history does not change what happens to the list. */
  lemma {:induction false} RunIsAfterAll(s: State, es: seq<Event>)
    ensures Run(s, es).nodes == AfterAll(s.nodes, es)
    decreases es
  {
    if es != [] {
      RunIsAfterAll(Step(s, es[0]), es[1..]);
    }
  }

  /** A timer counts as fired exactly when its callback is invoked. */
  lemma FiringIsACall(s: State, e: Event)
    requires History(s) && Enabled(s, e)
    ensures var call, fired := CallOf(s.nodes, e), Step(s, e).fired;
            && (e.Serve? ==> call == [] && forall fd :: fd in s.fired ==> fd in fired && fired[fd] == s.fired[fd])
            && (e.Expire? && call == [] ==> fired == s.fired)
            && (e.Expire? && call != [] ==> e.fd in s.fired && fired == s.fired[e.fd := s.fired[e.fd] + 1])
  {
    if e.Expire? {
      NullIsNotRegistered(s.nodes);
    }
  }

  /** An event as the map sees it: handles are gone. */
  datatype MapEvent = Requested(r: Request, g: Grant) | Elapsed(cb: u64)

  function OnMap(nodes: seq<Timer>, es: seq<Event>): seq<MapEvent>
    decreases es
  {
    if es == [] then []
    else [if es[0].Serve? then Requested(es[0].r, es[0].g) else Elapsed(CbOf(nodes, es[0].fd))]
         + OnMap(After(nodes, es[0]), es[1..])
  }

  function MapRun(m: map<u64, u32>, es: seq<MapEvent>): map<u64, u32>
    decreases es
  {
    if es == [] then m
    else MapRun(if es[0].Requested? then AbsServed(m, es[0].r, es[0].g) else AbsExpired(m, es[0].cb), es[1..])
  }

  lemma {:induction false} RunRefinesMapRun(s: State, es: seq<Event>)
    requires History(s) && Enables(s, es)
    ensures Inv(AfterAll(s.nodes, es))
    ensures Abs(AfterAll(s.nodes, es)) == MapRun(Abs(s.nodes), OnMap(s.nodes, es))
    decreases es
  {
    if es != [] {
      var e, t := es[0], Step(s, es[0]);
      StepKeeps(s, e);
      assert t.nodes == After(s.nodes, e);
      match e {
        case Serve(r, g) => FreshWhenNeeded(s, r, g);
        case Expire(fd) => ExpiredRefines(s.nodes, fd);
      }
      RunRefinesMapRun(t, es[1..]);
    }
  }

  lemma FreshWhenNeeded(s: State, r: Request, g: Grant)
    requires History(s) && Enabled(s, Serve(r, g))
    ensures Abs(Served(s.nodes, r, g)) == AbsServed(Abs(s.nodes), r, g)
  {
    ServedRefines(s.nodes, r, g);
  }

  /** Messages and expiries in any order: what the timer thread does with the bytes it is sent and the handles that
      expire is, on the map from callbacks to counts, carrying out the requests and counting down, up to the first
      Destroy. */
  lemma InputsRefineMapRun(srvFd: int, es: seq<Event>)
    requires Understood(es) && Enables(Ready(srvFd), UpToDestroy(es))
    ensures var nodes := Ready(srvFd).nodes;
            var end := AfterAll(nodes, Decoded(Encoded(es)));
            && Inv(end)
            && end == Run(Ready(srvFd), UpToDestroy(es)).nodes
            && Abs(end) == MapRun(map[], OnMap(nodes, UpToDestroy(es)))
  {
    EventsReadBack(es);
    RunIsAfterAll(Ready(srvFd), UpToDestroy(es));
    RunRefinesMapRun(Ready(srvFd), UpToDestroy(es));
  }
}
