/** The list of timers the timer thread keeps, and its life over whole runs. */
module TimerRegistry {
  import opened Results
  import opened Seqs
  import opened TimerMessage
  import Bytes

  const MAX_TIMER_CNT := 100

  /** A node of the list. Callbacks are addresses, 0 is NULL; fd names the timer or, in the server node, the socket. */
  datatype Timer = Timer(srv: bool, fd: int, repeats: u32, cb: u64)

  // What the operations do, on the sequence of nodes.

  predicate HasCb(nodes: seq<Timer>, cb: u64) {
    exists i :: 0 <= i < |nodes| && nodes[i].cb == cb
  }

  /** The first node that p accepts, or the end of the list. */
  function Find(nodes: seq<Timer>, p: Timer -> bool): (i: nat)
    ensures i <= |nodes| && (i < |nodes| ==> p(nodes[i])) && forall j :: 0 <= j < i ==> !p(nodes[j])
  {
    if nodes == [] || p(nodes[0]) then 0 else 1 + Find(nodes[1..], p)
  }

  function IsTimerOf(cb: u64): Timer -> bool {
    (t: Timer) => !t.srv && t.cb == cb
  }

  function IsTimerAt(fd: int): Timer -> bool {
    (t: Timer) => !t.srv && t.fd == fd
  }

  /** What the system does with a new timer: the handle it gives it, or a failure. */
  datatype Grant = Granted(fd: int) | Refused

  function Added(nodes: seq<Timer>, g: Grant, repeats: u32, cb: u64): seq<Timer> {
    if HasCb(nodes, cb) || |nodes| > MAX_TIMER_CNT || g.Refused? then nodes
    else nodes + [Timer(false, g.fd, repeats, cb)]
  }

  function Removed(nodes: seq<Timer>, cb: u64): seq<Timer> {
    var i := Find(nodes, IsTimerOf(cb));
    if i == |nodes| then nodes else RemoveAt(nodes, i)
  }

  /** One expiry of node i: count down, or leave the list after the last one; 0 never ends. */
  function Ticked(nodes: seq<Timer>, i: nat): seq<Timer>
    requires i < |nodes|
  {
    if nodes[i].repeats == 0 then nodes
    else if nodes[i].repeats == 1 then RemoveAt(nodes, i)
    else nodes[i := nodes[i].(repeats := nodes[i].repeats - 1)]
  }

  function Expired(nodes: seq<Timer>, fd: int): seq<Timer> {
    var i := Find(nodes, IsTimerAt(fd));
    if i == |nodes| then nodes else Ticked(nodes, i)
  }

  /** The list as the code keeps it. */
  class TimerList {
    var nodes: seq<Timer>
    ghost var calls: seq<u64>  // callbacks invoked

    constructor ()
      ensures nodes == [] && calls == []
    {
      nodes, calls := [], [];
    }

    method CreSrvNode(fd: int) returns (ret: Ret)
      modifies this`nodes
      ensures ret == FAIL <==> exists i :: 0 <= i < |old(nodes)| && old(nodes)[i].srv
      ensures nodes == if ret == SUCC then old(nodes) + [Timer(true, fd, 0, 0)] else old(nodes)
    {
      for i := 0 to |nodes|
        invariant forall j :: 0 <= j < i ==> !nodes[j].srv
        invariant nodes == old(nodes)
      {
        if nodes[i].srv { return FAIL; }
      }
      nodes := nodes + [Timer(true, fd, 0, 0)];
      return SUCC;
    }

    method AddTimer(g: Grant, repeats: u32, cb: u64)
      modifies this`nodes
      ensures nodes == Added(old(nodes), g, repeats, cb)
      ensures if (exists i :: 0 <= i < |old(nodes)| && old(nodes)[i].cb == cb) || |old(nodes)| > 100 || g == Refused
              then nodes == old(nodes) else nodes == old(nodes) + [Timer(false, g.fd, repeats, cb)]
    {
      for i := 0 to |nodes|
        invariant forall j :: 0 <= j < i ==> nodes[j].cb != cb
        invariant nodes == old(nodes)
      {
        if nodes[i].cb == cb { return; }
      }
      if |nodes| > MAX_TIMER_CNT { return; }
      if g.Granted? {
        nodes := nodes + [Timer(false, g.fd, repeats, cb)];
      }
    }

    method RmvTimer(cb: u64)
      modifies this`nodes
      ensures nodes == Removed(old(nodes), cb)
      ensures (forall i :: 0 <= i < |old(nodes)| ==> old(nodes)[i].srv || old(nodes)[i].cb != cb) ==> nodes == old(nodes)
      ensures forall i :: 0 <= i < |old(nodes)| && !old(nodes)[i].srv && old(nodes)[i].cb == cb
                          && (forall j :: 0 <= j < i ==> old(nodes)[j].srv || old(nodes)[j].cb != cb) ==>
                nodes == old(nodes)[..i] + old(nodes)[i + 1..]
    {
      for i := 0 to |nodes|
        invariant forall j :: 0 <= j < i ==> !IsTimerOf(cb)(nodes[j])
        invariant nodes == old(nodes)
      {
        if !nodes[i].srv && nodes[i].cb == cb {
          FirstIs(nodes, IsTimerOf(cb), i);
          nodes := nodes[..i] + nodes[i + 1..];
          return;
        }
      }
      FirstIs(nodes, IsTimerOf(cb), |nodes|);
    }

    method CliTimerProc(fd: int)
      modifies this
      ensures nodes == Expired(old(nodes), fd)
      ensures var i := Find(old(nodes), IsTimerAt(fd));
              calls == if i < |old(nodes)| && old(nodes)[i].cb != 0 then old(calls) + [old(nodes)[i].cb] else old(calls)
      ensures (forall i :: 0 <= i < |old(nodes)| ==> old(nodes)[i].srv || old(nodes)[i].fd != fd) ==>
                nodes == old(nodes) && calls == old(calls)
      ensures forall i :: 0 <= i < |old(nodes)| && !old(nodes)[i].srv && old(nodes)[i].fd == fd
                          && (forall j :: 0 <= j < i ==> old(nodes)[j].srv || old(nodes)[j].fd != fd) ==>
                var t := old(nodes)[i];
                && (t.repeats == 0 ==> nodes == old(nodes))
                && (t.repeats == 1 ==> nodes == old(nodes)[..i] + old(nodes)[i + 1..])
                && (t.repeats > 1 ==> nodes == old(nodes)[i := t.(repeats := t.repeats - 1)])
                && calls == old(calls) + if t.cb != 0 then [t.cb] else []
    {
      for i := 0 to |nodes|
        invariant forall j :: 0 <= j < i ==> !IsTimerAt(fd)(nodes[j])
        invariant nodes == old(nodes) && calls == old(calls)
      {
        if nodes[i].srv || nodes[i].fd != fd { continue; }
        FirstIs(nodes, IsTimerAt(fd), i);
        if nodes[i].cb != 0 {
          calls := calls + [nodes[i].cb];
        }
        if nodes[i].repeats > 1 {
          nodes := nodes[i := nodes[i].(repeats := nodes[i].repeats - 1)];
        } else if nodes[i].repeats == 1 {
          nodes := nodes[..i] + nodes[i + 1..];
        }
        return;
      }
      FirstIs(nodes, IsTimerAt(fd), |nodes|);
    }

    /** The number of registered callbacks; -1 before the server node is there. */
    method TimerCount() returns (cnt: int)
      ensures cnt == |nodes| - 1
      ensures Inv(nodes) ==> cnt == |Abs(nodes)| <= 100
    {
      cnt := |nodes| - 1;
      if Inv(nodes) {
        CountIsMapSize(nodes);
      }
    }

    /** Serve one message; true asks for the end of the timer system. */
    method SrvTimerProc(buf: seq<Bytes.byte>, g: Grant) returns (stop: bool)
      requires |buf| == SZ
      modifies this`nodes
      ensures nodes == Served(old(nodes), Decode(buf), g) && stop == (Decode(buf) == Destroy)
      ensures match Decode(buf)
              case Set(_, _, repeats, cb) => nodes == Added(old(nodes), g, repeats, cb)
              case Cancel(cb) => nodes == Removed(old(nodes), cb)
              case _ => nodes == old(nodes)
    {
      if buf[0] != 1 { return false; }
      if Field16(buf, 1) != 17 { return false; }
      var kind := buf[3];
      if kind == 1 {
        AddTimer(g, Field32(buf, 8), Field64(buf, 12));
      } else if kind == 2 {
        RmvTimer(Field64(buf, 12));
      } else if kind == 3 {
        return true;
      }
      return false;
    }
  }

  lemma {:induction false} FirstIs(nodes: seq<Timer>, p: Timer -> bool, i: nat)
    requires i <= |nodes| && (i < |nodes| ==> p(nodes[i])) && forall j :: 0 <= j < i ==> !p(nodes[j])
    ensures Find(nodes, p) == i
  {
    if i > 0 {
      FirstIs(nodes[1..], p, i - 1);
    }
  }

  function Served(nodes: seq<Timer>, r: Request, g: Grant): seq<Timer> {
    match r
    case Set(_, _, repeats, cb) => Added(nodes, g, repeats, cb)
    case Cancel(cb) => Removed(nodes, cb)
    case Destroy => nodes
    case Unknown => nodes
  }

  // The registry invariant.

  /** One server node, first in the list; callbacks and handles pairwise different; at most 100 timers. */
  ghost predicate Inv(nodes: seq<Timer>) {
    && 1 <= |nodes| <= MAX_TIMER_CNT + 1
    && nodes[0].srv && nodes[0].cb == 0
    && (forall i :: 1 <= i < |nodes| ==> !nodes[i].srv)
    && (forall i, j :: 0 <= i < j < |nodes| ==> nodes[i].cb != nodes[j].cb && nodes[i].fd != nodes[j].fd)
  }

  // The registry as a map from callbacks to their remaining counts.

  function Abs(nodes: seq<Timer>): map<u64, u32> {
    if |nodes| <= 1 then map[] else Abs(nodes[..|nodes| - 1])[nodes[|nodes| - 1].cb := nodes[|nodes| - 1].repeats]
  }

  lemma InvOfPrefix(nodes: seq<Timer>)
    requires Inv(nodes) && |nodes| > 1
    ensures Inv(nodes[..|nodes| - 1])
  {}

  /** The map has the callbacks of the timers, with their counts. */
  lemma {:induction false} AbsHas(nodes: seq<Timer>)
    requires Inv(nodes)
    ensures forall cb :: cb in Abs(nodes) ==> exists i :: 1 <= i < |nodes| && nodes[i].cb == cb
    ensures forall i :: 1 <= i < |nodes| ==> nodes[i].cb in Abs(nodes) && Abs(nodes)[nodes[i].cb] == nodes[i].repeats
    ensures |Abs(nodes)| == |nodes| - 1
  {
    if |nodes| > 1 {
      var last := |nodes| - 1;
      var before := nodes[..last];
      InvOfPrefix(nodes);
      AbsHas(before);
      forall i | 1 <= i < |nodes|
        ensures nodes[i].cb in Abs(nodes) && Abs(nodes)[nodes[i].cb] == nodes[i].repeats
      {
        if i < last {
          assert before[i] == nodes[i] && nodes[i].cb != nodes[last].cb;
        }
      }
      forall cb | cb in Abs(nodes)
        ensures exists i :: 1 <= i < |nodes| && nodes[i].cb == cb
      {
        if cb in Abs(before) {
          var i :| 1 <= i < |before| && before[i].cb == cb;
          assert nodes[i].cb == cb;
        } else {
          assert nodes[last].cb == cb;
        }
      }
      assert nodes[last].cb !in Abs(before);
    }
  }

  /** Two maps with the same lookups. */
  lemma AbsIs(nodes: seq<Timer>, m: map<u64, u32>)
    requires Inv(nodes)
    requires forall i :: 1 <= i < |nodes| ==> nodes[i].cb in m && m[nodes[i].cb] == nodes[i].repeats
    requires forall cb :: cb in m ==> exists i :: 1 <= i < |nodes| && nodes[i].cb == cb
    ensures Abs(nodes) == m
  {
    AbsHas(nodes);
  }

  function AbsAdded(m: map<u64, u32>, g: Grant, repeats: u32, cb: u64): map<u64, u32> {
    if cb == 0 || cb in m || |m| >= MAX_TIMER_CNT || g.Refused? then m else m[cb := repeats]
  }

  function AbsRemoved(m: map<u64, u32>, cb: u64): map<u64, u32> {
    m - {cb}
  }

  function AbsExpired(m: map<u64, u32>, cb: u64): map<u64, u32> {
    if cb !in m || m[cb] == 0 then m else if m[cb] == 1 then m - {cb} else m[cb := m[cb] - 1]
  }

  function AbsServed(m: map<u64, u32>, r: Request, g: Grant): map<u64, u32> {
    match r
    case Set(_, _, repeats, cb) => AbsAdded(m, g, repeats, cb)
    case Cancel(cb) => AbsRemoved(m, cb)
    case Destroy => m
    case Unknown => m
  }

  predicate Fresh(nodes: seq<Timer>, g: Grant) {
    g.Granted? ==> forall i :: 0 <= i < |nodes| ==> nodes[i].fd != g.fd
  }

  lemma AddedRefines(nodes: seq<Timer>, g: Grant, repeats: u32, cb: u64)
    requires Inv(nodes) && Fresh(nodes, g)
    ensures Inv(Added(nodes, g, repeats, cb))
    ensures Abs(Added(nodes, g, repeats, cb)) == AbsAdded(Abs(nodes), g, repeats, cb)
  {
    AbsHas(nodes);
    assert HasCb(nodes, cb) <==> cb == 0 || cb in Abs(nodes);
    var nodes' := Added(nodes, g, repeats, cb);
    assert nodes' != nodes ==> nodes'[..|nodes|] == nodes;
  }

  lemma InvOfRest(nodes: seq<Timer>, rest: seq<Timer>, i: nat)
    requires Inv(nodes) && 1 <= i < |nodes| && |rest| == |nodes| - 1
    requires forall j :: 0 <= j < |rest| ==> rest[j] == nodes[Skip(j, i)]
    ensures Inv(rest) && rest[0] == nodes[0]
  {
    assert rest[0] == nodes[Skip(0, i)];
    forall j, k | 0 <= j < k < |rest|
      ensures rest[j].cb != rest[k].cb && rest[j].fd != rest[k].fd
    {
      assert Skip(j, i) < Skip(k, i);
    }
  }

  lemma AbsOfRest(nodes: seq<Timer>, rest: seq<Timer>, i: nat)
    requires Inv(nodes) && Inv(rest) && 1 <= i < |nodes| && |rest| == |nodes| - 1
    requires forall j :: 0 <= j < |rest| ==> rest[j] == nodes[Skip(j, i)]
    ensures Abs(rest) == Abs(nodes) - {nodes[i].cb}
  {
    AbsHas(nodes);
    var m := Abs(nodes) - {nodes[i].cb};
    forall cb | cb in m
      ensures exists j :: 1 <= j < |rest| && rest[j].cb == cb
    {
      var k :| 1 <= k < |nodes| && nodes[k].cb == cb;
      var j := if k < i then k else k - 1;
      assert Skip(j, i) == k && rest[j].cb == cb;
    }
    forall j | 1 <= j < |rest|
      ensures rest[j].cb in m && m[rest[j].cb] == rest[j].repeats
    {
      assert rest[j] == nodes[Skip(j, i)] && Skip(j, i) != i;
    }
    AbsIs(rest, m);
  }

  lemma DropKeeps(nodes: seq<Timer>, i: nat)
    requires Inv(nodes) && 1 <= i < |nodes|
    ensures Inv(RemoveAt(nodes, i)) && RemoveAt(nodes, i)[0] == nodes[0]
    ensures Abs(RemoveAt(nodes, i)) == Abs(nodes) - {nodes[i].cb}
  {
    RemoveAtSkips(nodes, i);
    InvOfRest(nodes, RemoveAt(nodes, i), i);
    AbsOfRest(nodes, RemoveAt(nodes, i), i);
  }

  lemma AbsAt(nodes: seq<Timer>, i: nat)
    requires Inv(nodes) && 1 <= i < |nodes|
    ensures nodes[i].cb in Abs(nodes) && Abs(nodes)[nodes[i].cb] == nodes[i].repeats
  {
    AbsHas(nodes);
  }

  lemma NullIsNotRegistered(nodes: seq<Timer>)
    requires Inv(nodes)
    ensures 0 !in Abs(nodes)
  {
    AbsHas(nodes);
  }

  lemma RemovedRefines(nodes: seq<Timer>, cb: u64)
    requires Inv(nodes)
    ensures Inv(Removed(nodes, cb)) && Removed(nodes, cb)[0] == nodes[0] && Abs(Removed(nodes, cb)) == AbsRemoved(Abs(nodes), cb)
  {
    var i := Find(nodes, IsTimerOf(cb));
    AbsHas(nodes);
    if i < |nodes| {
      DropKeeps(nodes, i);
    } else {
      assert cb !in Abs(nodes);
      assert Abs(nodes) - {cb} == Abs(nodes);
    }
  }

  lemma CountDownKeeps(nodes: seq<Timer>, i: nat, n: u32)
    requires Inv(nodes) && 1 <= i < |nodes|
    ensures var nodes' := nodes[i := nodes[i].(repeats := n)];
            Inv(nodes') && nodes'[0] == nodes[0] && Abs(nodes') == Abs(nodes)[nodes[i].cb := n]
  {
    var nodes' := nodes[i := nodes[i].(repeats := n)];
    AbsHas(nodes);
    var m := Abs(nodes)[nodes[i].cb := n];
    forall cb | cb in m
      ensures exists j :: 1 <= j < |nodes'| && nodes'[j].cb == cb
    {
      if cb == nodes[i].cb {
        assert nodes'[i].cb == cb;
      } else {
        var k :| 1 <= k < |nodes| && nodes[k].cb == cb;
        assert nodes'[k].cb == cb;
      }
    }
    AbsIs(nodes', m);
  }

  /** The callback of the timer with this handle; 0 when there is none. */
  function CbOf(nodes: seq<Timer>, fd: int): u64 {
    var i := Find(nodes, IsTimerAt(fd));
    if i < |nodes| then nodes[i].cb else 0
  }

  lemma TickRefines(nodes: seq<Timer>, i: nat)
    requires Inv(nodes) && 1 <= i < |nodes|
    ensures Inv(Ticked(nodes, i)) && Ticked(nodes, i)[0] == nodes[0]
    ensures Abs(Ticked(nodes, i)) == AbsExpired(Abs(nodes), nodes[i].cb)
  {
    AbsAt(nodes, i);
    if nodes[i].repeats == 1 {
      DropKeeps(nodes, i);
    } else if nodes[i].repeats > 1 {
      CountDownKeeps(nodes, i, nodes[i].repeats - 1);
    }
  }

  lemma ExpiredRefines(nodes: seq<Timer>, fd: int)
    requires Inv(nodes)
    ensures Inv(Expired(nodes, fd)) && Expired(nodes, fd)[0] == nodes[0]
    ensures Abs(Expired(nodes, fd)) == AbsExpired(Abs(nodes), CbOf(nodes, fd))
  {
    var i := Find(nodes, IsTimerAt(fd));
    if i < |nodes| {
      TickRefines(nodes, i);
    } else {
      NullIsNotRegistered(nodes);
    }
  }

  // Requests arriving as bytes.

  /** The requests served one after the other; gs(k) is what the system grants the k-th. */
  function ServedAll(nodes: seq<Timer>, rs: seq<Request>, gs: nat -> Grant, k: nat): seq<Timer>
    decreases rs
  {
    if rs == [] then nodes else ServedAll(Served(nodes, rs[0], gs(k)), rs[1..], gs, k + 1)
  }

  function AbsServedAll(m: map<u64, u32>, rs: seq<Request>, gs: nat -> Grant, k: nat): map<u64, u32>
    decreases rs
  {
    if rs == [] then m else AbsServedAll(AbsServed(m, rs[0], gs(k)), rs[1..], gs, k + 1)
  }

  /** The timer thread serving a stream of bytes until it is told to stop or no whole message is left. */
  method ServeStream(list: TimerList, bytes: seq<Bytes.byte>, gs: nat -> Grant)
    modifies list`nodes
    ensures list.nodes == ServedAll(old(list.nodes), DecodeAll(bytes), gs, 0)
  {
    var at, k := 0, 0;
    while at + SZ <= |bytes|
      invariant at <= |bytes|
      invariant ServedAll(list.nodes, DecodeAll(bytes[at..]), gs, k) == ServedAll(old(list.nodes), DecodeAll(bytes), gs, 0)
    {
      ghost var rest := bytes[at..];
      assert rest[..SZ] == bytes[at..at + SZ] && rest[SZ..] == bytes[at + SZ..];
      var stop := list.SrvTimerProc(bytes[at..at + SZ], gs(k));
      if stop {
        assert DecodeAll(rest)[1..] == [];
        return;
      }
      assert DecodeAll(rest)[1..] == DecodeAll(rest[SZ..]);
      at := at + SZ;
      k := k + 1;
    }
  }

  /** Every handle granted is a new one: different from those in the list and from one another. */
  ghost predicate FreshGrants(nodes: seq<Timer>, gs: nat -> Grant, k: nat) {
    && (forall i: nat :: i >= k ==> Fresh(nodes, gs(i)))
    && (forall i: nat, j: nat :: k <= i < j && gs(i).Granted? && gs(j).Granted? ==> gs(i).fd != gs(j).fd)
  }

  lemma RemovedHasOldFds(nodes: seq<Timer>, cb: u64)
    ensures forall n :: n in Removed(nodes, cb) ==> n in nodes
  {}

  lemma FreshLater(nodes: seq<Timer>, r: Request, gs: nat -> Grant, k: nat)
    requires FreshGrants(nodes, gs, k)
    ensures FreshGrants(Served(nodes, r, gs(k)), gs, k + 1)
  {
    var nodes' := Served(nodes, r, gs(k));
    assert forall n :: n in nodes' ==> n in nodes || (gs(k).Granted? && n.fd == gs(k).fd) by {
      if r.Cancel? { RemovedHasOldFds(nodes, r.cb); }
    }
    forall i: nat | i >= k + 1
      ensures Fresh(nodes', gs(i))
    {
      assert Fresh(nodes, gs(i));
      forall j | gs(i).Granted? && 0 <= j < |nodes'|
        ensures nodes'[j].fd != gs(i).fd
      {
        assert nodes'[j] in nodes';
      }
    }
  }

  lemma {:induction false} ServedAllRefines(nodes: seq<Timer>, rs: seq<Request>, gs: nat -> Grant, k: nat)
    requires Inv(nodes) && FreshGrants(nodes, gs, k)
    ensures Inv(ServedAll(nodes, rs, gs, k)) && ServedAll(nodes, rs, gs, k)[0] == nodes[0]
    ensures Abs(ServedAll(nodes, rs, gs, k)) == AbsServedAll(Abs(nodes), rs, gs, k)
    decreases rs
  {
    if rs != [] {
      assert Fresh(nodes, gs(k));
      ServedRefines(nodes, rs[0], gs(k));
      FreshLater(nodes, rs[0], gs, k);
      ServedAllRefines(Served(nodes, rs[0], gs(k)), rs[1..], gs, k + 1);
    }
  }

  /** Bytes in, map out: serving the concatenated messages is, on the map from callbacks to counts, carrying out
      the requests in order up to the first Destroy. */
  lemma ByteRunRefinesMapRun(nodes: seq<Timer>, rs: seq<Request>, gs: nat -> Grant)
    requires Inv(nodes) && FreshGrants(nodes, gs, 0) && forall r :: r in rs ==> !r.Unknown?
    ensures Inv(ServedAll(nodes, DecodeAll(EncodeAll(rs)), gs, 0))
    ensures Abs(ServedAll(nodes, DecodeAll(EncodeAll(rs)), gs, 0)) == AbsServedAll(Abs(nodes), UpToDestroy(rs), gs, 0)
  {
    StreamRoundTrip(rs);
    ServedAllRefines(nodes, UpToDestroy(rs), gs, 0);
  }

  lemma ServedRefines(nodes: seq<Timer>, r: Request, g: Grant)
    requires Inv(nodes) && Fresh(nodes, g)
    ensures Inv(Served(nodes, r, g)) && Served(nodes, r, g)[0] == nodes[0]
    ensures Abs(Served(nodes, r, g)) == AbsServed(Abs(nodes), r, g)
  {
    match r
    case Set(_, _, repeats, cb) => AddedRefines(nodes, g, repeats, cb);
    case Cancel(cb) => RemovedRefines(nodes, cb);
    case Destroy =>
    case Unknown =>
  }

  /** The count callers see is the number of registered callbacks, and never exceeds 100. */
  lemma CountIsMapSize(nodes: seq<Timer>)
    requires Inv(nodes)
    ensures |nodes| - 1 == |Abs(nodes)| <= 100
  {
    AbsHas(nodes);
  }
}
