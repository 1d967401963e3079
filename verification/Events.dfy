/** The event queue and its dispatcher: subscriptions, delivery, and the protocol between publishers and the
    event thread, up to the moment the component is shut down. */
module Events {
  import opened Results
  import opened Seqs

  /** A subscription; callbacks are addresses, 0 is NULL. */
  datatype Lsnr = Lsnr(no: nat, cb: nat)

  /** An event; `id` tells allocations apart. */
  datatype Evt = Evt(id: nat, no: nat, data: nat, hasFree: bool)

  // Subscriptions.

  ghost predicate NoDuplicates(lsnrs: seq<Lsnr>) {
    forall i, j :: 0 <= i < j < |lsnrs| ==> lsnrs[i] != lsnrs[j]
  }

  class Subscriptions {
    var lsnrs: seq<Lsnr>

    ghost predicate Valid()
      reads this
    {
      NoDuplicates(lsnrs)
    }

    constructor ()
      ensures Valid() && lsnrs == []
    {
      lsnrs := [];
    }

    /** A second subscription of the same pair changes nothing. So does one for which there is no memory,
        although it reports success. */
    method Sub(no: nat, cb: nat, memory: bool) returns (ret: Ret)
      requires Valid()
      modifies this
      ensures Valid()
      ensures ret == FAIL <==> cb == 0
      ensures cb != 0 && memory && Lsnr(no, cb) !in old(lsnrs) ==> lsnrs == old(lsnrs) + [Lsnr(no, cb)]
      ensures cb == 0 || !memory || Lsnr(no, cb) in old(lsnrs) ==> lsnrs == old(lsnrs)
    {
      if cb == 0 { return FAIL; }
      for i := 0 to |lsnrs|
        invariant lsnrs == old(lsnrs)
        invariant Lsnr(no, cb) !in lsnrs[..i]
      {
        if lsnrs[i].no == no && lsnrs[i].cb == cb { return SUCC; }
      }
      assert lsnrs[..|lsnrs|] == lsnrs;
      if !memory { return SUCC; }
      lsnrs := lsnrs + [Lsnr(no, cb)];
      return SUCC;
    }

    /** The pair is gone afterwards; the others keep their order. */
    method Unsub(no: nat, cb: nat) returns (ret: Ret)
      requires Valid()
      modifies this
      ensures Valid() && (ret == SUCC <==> cb != 0 && Lsnr(no, cb) in old(lsnrs))
      ensures cb != 0 ==> Lsnr(no, cb) !in lsnrs
      ensures lsnrs == if ret == SUCC then Without(old(lsnrs), Lsnr(no, cb)) else old(lsnrs)
    {
      if cb == 0 { return FAIL; }
      for i := 0 to |lsnrs|
        invariant lsnrs == old(lsnrs)
        invariant Lsnr(no, cb) !in lsnrs[..i]
      {
        if lsnrs[i].no == no && lsnrs[i].cb == cb {
          WithoutAt(lsnrs, i);
          WithoutKeepsOthers(lsnrs, lsnrs[i]);
          lsnrs := RemoveAt(lsnrs, i);
          return SUCC;
        }
      }
      assert lsnrs[..|lsnrs|] == lsnrs;
      return FAIL;
    }
  }

  function With(lsnrs: seq<Lsnr>, l: Lsnr): (r: seq<Lsnr>)
    ensures lsnrs <= r && l in r && |r| <= |lsnrs| + 1
    ensures l in lsnrs ==> r == lsnrs
    ensures l !in lsnrs ==> r[|lsnrs|] == l
  {
    if l in lsnrs then lsnrs else lsnrs + [l]
  }

  function Without(lsnrs: seq<Lsnr>, l: Lsnr): seq<Lsnr> {
    if lsnrs == [] then []
    else if lsnrs[0] == l then Without(lsnrs[1..], l)
    else [lsnrs[0]] + Without(lsnrs[1..], l)
  }

  lemma {:induction false} WithoutNothing(lsnrs: seq<Lsnr>, l: Lsnr)
    requires l !in lsnrs
    ensures Without(lsnrs, l) == lsnrs
  {
    if lsnrs != [] {
      WithoutNothing(lsnrs[1..], l);
    }
  }

  lemma {:induction false} WithoutAppend(before: seq<Lsnr>, after: seq<Lsnr>, l: Lsnr)
    ensures Without(before + after, l) == Without(before, l) + Without(after, l)
  {
    if before == [] {
      assert before + after == after;
    } else {
      assert (before + after)[1..] == before[1..] + after;
      WithoutAppend(before[1..], after, l);
    }
  }

  /** Unlinking the one node that holds l removes l. */
  lemma WithoutAt(lsnrs: seq<Lsnr>, i: nat)
    requires i < |lsnrs| && NoDuplicates(lsnrs)
    ensures RemoveAt(lsnrs, i) == Without(lsnrs, lsnrs[i])
  {
    var before, l, after := lsnrs[..i], lsnrs[i], lsnrs[i + 1..];
    assert lsnrs == before + ([l] + after);
    WithoutAppend(before, [l] + after, l);
    WithoutAppend([l], after, l);
    WithoutNothing(before, l);
    WithoutNothing(after, l);
  }

  lemma {:induction false} WithoutKeepsOthers(lsnrs: seq<Lsnr>, l: Lsnr)
    ensures forall m :: m in Without(lsnrs, l) <==> m in lsnrs && m != l
    ensures NoDuplicates(lsnrs) ==> NoDuplicates(Without(lsnrs, l))
  {
    if lsnrs != [] {
      WithoutKeepsOthers(lsnrs[1..], l);
      assert NoDuplicates(lsnrs) ==> NoDuplicates(lsnrs[1..]);
      assert NoDuplicates(lsnrs) ==> lsnrs[0] !in Without(lsnrs[1..], l);
    }
  }

  // Delivery.

  function Matching(lsnrs: seq<Lsnr>, no: nat): seq<Lsnr> {
    if lsnrs == [] then []
    else if lsnrs[0].no == no then [lsnrs[0]] + Matching(lsnrs[1..], no)
    else Matching(lsnrs[1..], no)
  }

  /** ls up to and including the first whose callback intercepts the event. */
  function UpToConsumer(ls: seq<Lsnr>, e: Evt, consumes: (Lsnr, Evt) -> bool): seq<Lsnr> {
    if ls == [] then []
    else if consumes(ls[0], e) then [ls[0]]
    else [ls[0]] + UpToConsumer(ls[1..], e, consumes)
  }

  /** Who is called for e. */
  function Notified(lsnrs: seq<Lsnr>, e: Evt, consumes: (Lsnr, Evt) -> bool): seq<Lsnr> {
    UpToConsumer(Matching(lsnrs, e.no), e, consumes)
  }

  /** UpToConsumer is what it says: a prefix, in which none but the last intercepts, and which is only short of the
      whole when the last does. */
  lemma {:induction false} DeliveryStopsAtConsumer(ls: seq<Lsnr>, e: Evt, consumes: (Lsnr, Evt) -> bool)
    ensures var called := UpToConsumer(ls, e, consumes);
            && called <= ls
            && (forall i :: 0 <= i < |called| - 1 ==> !consumes(called[i], e))
            && (|called| < |ls| ==> |called| > 0 && consumes(called[|called| - 1], e))
  {
    if ls != [] && !consumes(ls[0], e) {
      DeliveryStopsAtConsumer(ls[1..], e, consumes);
    }
  }

  /** The places, from i on, of the listeners for no. */
  function MatchingAt(lsnrs: seq<Lsnr>, no: nat, i: nat): (at: seq<nat>)
    requires i <= |lsnrs|
    ensures forall k :: 0 <= k < |at| ==> i <= at[k] < |lsnrs|
    decreases |lsnrs| - i
  {
    if i == |lsnrs| then []
    else if lsnrs[i].no == no then [i] + MatchingAt(lsnrs, no, i + 1)
    else MatchingAt(lsnrs, no, i + 1)
  }

  lemma {:induction false} MatchingIsAt(lsnrs: seq<Lsnr>, no: nat, i: nat)
    requires i <= |lsnrs|
    ensures var at, ls := MatchingAt(lsnrs, no, i), Matching(lsnrs[i..], no);
            |at| == |ls| && forall k :: 0 <= k < |at| ==> ls[k] == lsnrs[at[k]]
    decreases |lsnrs| - i
  {
    if i < |lsnrs| {
      assert lsnrs[i..][1..] == lsnrs[i + 1..];
      MatchingIsAt(lsnrs, no, i + 1);
    }
  }

  lemma {:induction false} MatchingAtIsComplete(lsnrs: seq<Lsnr>, no: nat, i: nat)
    requires i <= |lsnrs|
    ensures var at := MatchingAt(lsnrs, no, i);
            && (forall j, k :: 0 <= j < k < |at| ==> at[j] < at[k])
            && (forall p :: i <= p < |lsnrs| ==> (lsnrs[p].no == no <==> p in at))
    decreases |lsnrs| - i
  {
    if i < |lsnrs| {
      MatchingAtIsComplete(lsnrs, no, i + 1);
    }
  }

  /** The candidates are the listeners for no, all of them, in subscription order: they stand at the increasing places
      `at`, which are all the places of such listeners. */
  lemma MatchingKeepsOrder(lsnrs: seq<Lsnr>, no: nat)
    ensures var at := MatchingAt(lsnrs, no, 0);
            && |at| == |Matching(lsnrs, no)|
            && (forall j, k :: 0 <= j < k < |at| ==> at[j] < at[k])
            && (forall k :: 0 <= k < |at| ==> Matching(lsnrs, no)[k] == lsnrs[at[k]])
            && (forall p :: 0 <= p < |lsnrs| ==> (lsnrs[p].no == no <==> p in at))
    ensures NoDuplicates(lsnrs) ==> NoDuplicates(Matching(lsnrs, no))
  {
    assert lsnrs[0..] == lsnrs;
    MatchingIsAt(lsnrs, no, 0);
    MatchingAtIsComplete(lsnrs, no, 0);
  }

  /** Who is called for e, place by place: at the increasing places `at` the listeners for its number, none left out up
      to the last one called; only that one may intercept, and if it does not, nobody is left out at all. */
  ghost predicate CalledAt(lsnrs: seq<Lsnr>, e: Evt, consumes: (Lsnr, Evt) -> bool, calls: seq<Lsnr>, at: seq<nat>) {
    && |at| == |calls|
    && (forall k :: 0 <= k < |at| ==> at[k] < |lsnrs| && calls[k] == lsnrs[at[k]] && lsnrs[at[k]].no == e.no)
    && (forall j, k :: 0 <= j < k < |at| ==> at[j] < at[k])
    && (forall k :: 0 <= k < |calls| - 1 ==> !consumes(calls[k], e))
    && (forall p :: 0 <= p < |lsnrs| && lsnrs[p].no == e.no && p !in at ==>
          |calls| > 0 && at[|calls| - 1] < p && consumes(calls[|calls| - 1], e))
  }

  lemma NotifiedAreCalledAt(lsnrs: seq<Lsnr>, e: Evt, consumes: (Lsnr, Evt) -> bool)
    ensures exists at :: CalledAt(lsnrs, e, consumes, Notified(lsnrs, e, consumes), at)
  {
    var all, ls, calls := MatchingAt(lsnrs, e.no, 0), Matching(lsnrs, e.no), Notified(lsnrs, e, consumes);
    MatchingKeepsOrder(lsnrs, e.no);
    DeliveryStopsAtConsumer(ls, e, consumes);
    PrefixIsCalled(lsnrs, e, consumes, all, ls, calls);
  }

  lemma PrefixIsCalled(lsnrs: seq<Lsnr>, e: Evt, consumes: (Lsnr, Evt) -> bool, all: seq<nat>, ls: seq<Lsnr>, calls: seq<Lsnr>)
    requires |all| == |ls| && (forall j, k :: 0 <= j < k < |all| ==> all[j] < all[k])
    requires forall k :: 0 <= k < |all| ==> all[k] < |lsnrs| && ls[k] == lsnrs[all[k]]
    requires forall p :: 0 <= p < |lsnrs| ==> (lsnrs[p].no == e.no <==> p in all)
    requires calls <= ls && forall k :: 0 <= k < |calls| - 1 ==> !consumes(calls[k], e)
    requires |calls| < |ls| ==> |calls| > 0 && consumes(calls[|calls| - 1], e)
    ensures CalledAt(lsnrs, e, consumes, calls, all[..|calls|])
  {
    var at := all[..|calls|];
    forall k | 0 <= k < |at|
      ensures at[k] < |lsnrs| && calls[k] == lsnrs[at[k]] && lsnrs[at[k]].no == e.no
    {
      assert at[k] == all[k] && calls[k] == ls[k] && all[k] in all;
    }
    forall p | 0 <= p < |lsnrs| && lsnrs[p].no == e.no && p !in at
      ensures |calls| > 0 && at[|calls| - 1] < p && consumes(calls[|calls| - 1], e)
    {
      BehindPrefix(all, |calls|, p);
    }
  }

  lemma BehindPrefix(all: seq<nat>, n: nat, p: nat)
    requires n <= |all| && p in all && p !in all[..n]
    requires forall j, k :: 0 <= j < k < |all| ==> all[j] < all[k]
    ensures n < |all| && (n > 0 ==> all[n - 1] < p)
  {
    var k :| 0 <= k < |all| && all[k] == p;
    assert forall j :: 0 <= j < n ==> all[..n][j] == all[j];
  }

  lemma {:induction false} NotifiedSplit(lsnrs: seq<Lsnr>, i: nat, e: Evt, consumes: (Lsnr, Evt) -> bool, calls: seq<Lsnr>)
    requires i < |lsnrs|
    requires calls + Notified(lsnrs[i..], e, consumes) == Notified(lsnrs, e, consumes)
    ensures if lsnrs[i].no != e.no then calls + Notified(lsnrs[i + 1..], e, consumes) == Notified(lsnrs, e, consumes)
            else if consumes(lsnrs[i], e) then calls + [lsnrs[i]] == Notified(lsnrs, e, consumes)
            else calls + [lsnrs[i]] + Notified(lsnrs[i + 1..], e, consumes) == Notified(lsnrs, e, consumes)
  {
    assert lsnrs[i..][1..] == lsnrs[i + 1..];
    if lsnrs[i].no == e.no {
      assert Matching(lsnrs[i..], e.no)[1..] == Matching(lsnrs[i + 1..], e.no);
    }
  }

  /** The dispatch loop. */
  method Notify(lsnrs: seq<Lsnr>, e: Evt, consumes: (Lsnr, Evt) -> bool) returns (calls: seq<Lsnr>)
    ensures calls == Notified(lsnrs, e, consumes)
    ensures exists at :: CalledAt(lsnrs, e, consumes, calls, at)
  {
    NotifiedAreCalledAt(lsnrs, e, consumes);
    calls := [];
    assert lsnrs[0..] == lsnrs;
    for i := 0 to |lsnrs|
      invariant calls + Notified(lsnrs[i..], e, consumes) == Notified(lsnrs, e, consumes)
    {
      NotifiedSplit(lsnrs, i, e, consumes, calls);
      if lsnrs[i].no == e.no {
        calls := calls + [lsnrs[i]];
        if consumes(lsnrs[i], e) {
          return;
        }
      }
    }
    assert lsnrs[|lsnrs|..] == [];
  }

  // The protocol.

  datatype Pc =
    | AtWait                    // about to wait for the semaphore
    | AtPop                     // has a token, about to take the first event
    | AtDispatch(e: Option<Evt>)
    | AtRelease(e: Option<Evt>)

  datatype Item = Called(id: nat, l: Lsnr) | Freed(id: nat)

  /** `unsignalled` counts the publishers between unlocking the queue and posting the semaphore. The rest is history:
      `seen[k]` are the subscriptions when event k was dispatched, `log` is what was called and freed. */
  datatype State = State(queue: seq<Evt>, sem: nat, unsignalled: nat, pc: Pc, lsnrs: seq<Lsnr>,
                         published: seq<Evt>, popped: seq<Evt>, seen: seq<seq<Lsnr>>, log: seq<Item>)

  datatype Action =
    | Publish(no: nat, data: nat, hasFree: bool, memory: bool)
    | Signal
    | Wait
    | Pop
    | Dispatch
    | Release
    | Subscribe(l: Lsnr)
    | Unsubscribe(l: Lsnr)

  ghost predicate Initial(s: State) {
    s == State([], 0, 0, AtWait, [], [], [], [], [])
  }

  function Calls(id: nat, ls: seq<Lsnr>): (items: seq<Item>)
    ensures |items| == |ls| && forall i :: 0 <= i < |ls| ==> items[i] == Called(id, ls[i])
  {
    seq(|ls|, i requires 0 <= i < |ls| => Called(id, ls[i]))
  }

  function Published(s: State, e: Evt): State {
    s.(queue := s.queue + [e], published := s.published + [e], unsignalled := s.unsignalled + 1)
  }

  /** The event thread tolerates an empty queue. */
  function Popped(s: State): State {
    if s.queue == [] then s.(pc := AtDispatch(None))
    else s.(queue := s.queue[1..], popped := s.popped + [s.queue[0]], pc := AtDispatch(Some(s.queue[0])))
  }

  function Dispatched(s: State, consumes: (Lsnr, Evt) -> bool): State
    requires s.pc.AtDispatch?
  {
    if s.pc.e.None? then s.(pc := AtRelease(None))
    else s.(log := s.log + Calls(s.pc.e.value.id, Notified(s.lsnrs, s.pc.e.value, consumes)), seen := s.seen + [s.lsnrs],
            pc := AtRelease(s.pc.e))
  }

  function Released(s: State): State
    requires s.pc.AtRelease?
  {
    if s.pc.e.Some? && s.pc.e.value.hasFree then s.(log := s.log + [Freed(s.pc.e.value.id)], pc := AtWait)
    else s.(pc := AtWait)
  }

  function Step(s: State, a: Action, consumes: (Lsnr, Evt) -> bool): Option<State> {
    match a
    case Publish(no, data, hasFree, memory) =>
      Some(if memory then Published(s, Evt(|s.published|, no, data, hasFree)) else s)
    case Signal =>
      if s.unsignalled > 0 then Some(s.(unsignalled := s.unsignalled - 1, sem := s.sem + 1)) else None
    case Wait =>
      if s.pc.AtWait? && s.sem > 0 then Some(s.(sem := s.sem - 1, pc := AtPop)) else None
    case Pop => if s.pc.AtPop? then Some(Popped(s)) else None
    case Dispatch => if s.pc.AtDispatch? then Some(Dispatched(s, consumes)) else None
    case Release => if s.pc.AtRelease? then Some(Released(s)) else None
    case Subscribe(l) => Some(s.(lsnrs := With(s.lsnrs, l)))
    case Unsubscribe(l) => Some(s.(lsnrs := Without(s.lsnrs, l)))
  }

  function Run(s: State, acts: seq<Action>, consumes: (Lsnr, Evt) -> bool): Option<State>
    decreases |acts|
  {
    if acts == [] then Some(s)
    else match Step(s, acts[0], consumes)
      case None => None
      case Some(t) => Run(t, acts[1..], consumes)
  }

  /** What the first n events bring about: for each the calls to the listeners there were at the time, and then the
      release. */
  function Delivered(evts: seq<Evt>, seen: seq<seq<Lsnr>>, n: nat, consumes: (Lsnr, Evt) -> bool): seq<Item>
    requires n <= |evts| && n <= |seen|
  {
    if n == 0 then []
    else
      Delivered(evts, seen, n - 1, consumes) + Calls(evts[n - 1].id, Notified(seen[n - 1], evts[n - 1], consumes))
      + if evts[n - 1].hasFree then [Freed(evts[n - 1].id)] else []
  }

  ghost predicate Numbered(evts: seq<Evt>) {
    forall i :: 0 <= i < |evts| ==> evts[i].id == i
  }

  /** Number of events completely dealt with. */
  function Finished(s: State): nat {
    if (s.pc.AtDispatch? || s.pc.AtRelease?) && s.popped != [] then |s.popped| - 1 else |s.popped|
  }

  /** All that was ever called or freed is, for each event in publishing order: the matching listeners in
      subscription order up to the interceptor, then one release. The last event may still await its release. */
  ghost predicate LogIsDelivery(s: State, consumes: (Lsnr, Evt) -> bool) {
    var n := Finished(s);
    && n <= |s.seen| <= |s.popped|
    && (s.pc.AtRelease? ==> n < |s.seen|)
    && s.log == Delivered(s.popped, s.seen, n, consumes)
                + if s.pc.AtRelease? then Calls(n, Notified(s.seen[n], s.popped[n], consumes)) else []
  }

  ghost predicate Inv(s: State, consumes: (Lsnr, Evt) -> bool) {
    && |s.queue| == s.sem + s.unsignalled + One(s.pc.AtPop?)
    && s.published == s.popped + s.queue
    && Numbered(s.published)
    && NoDuplicates(s.lsnrs)
    && |s.seen| == |s.popped| - One(s.pc.AtDispatch?)
    && (forall k :: 0 <= k < |s.seen| ==> NoDuplicates(s.seen[k]))
    && (s.pc.AtDispatch? || s.pc.AtRelease? ==> s.popped != [] && s.pc.e == Some(s.popped[|s.popped| - 1]))
    && LogIsDelivery(s, consumes)
  }

  /** Only the first n events and listener lists matter for what they bring about. */
  lemma {:induction false} DeliveredAgrees(evts: seq<Evt>, seen: seq<seq<Lsnr>>, n: nat, evts': seq<Evt>, seen': seq<seq<Lsnr>>,
                                           consumes: (Lsnr, Evt) -> bool)
    requires n <= |evts| && n <= |seen| && evts <= evts' && seen <= seen'
    ensures Delivered(evts, seen, n, consumes) == Delivered(evts', seen', n, consumes)
  {
    if n > 0 {
      DeliveredAgrees(evts, seen, n - 1, evts', seen', consumes);
      assert evts'[n - 1] == evts[n - 1] && seen'[n - 1] == seen[n - 1];
    }
  }

  /** A step that leaves the history alone leaves it the history of what was delivered. */
  lemma HistoryKeeps(s: State, t: State, consumes: (Lsnr, Evt) -> bool)
    requires LogIsDelivery(s, consumes) && t.popped == s.popped && t.seen == s.seen && t.log == s.log
    requires t.pc == s.pc || (s.pc.AtWait? && t.pc.AtPop?)
    ensures LogIsDelivery(t, consumes)
  {}

  lemma PublishKeeps(s: State, e: Evt, consumes: (Lsnr, Evt) -> bool)
    requires Inv(s, consumes) && e.id == |s.published|
    ensures Inv(Published(s, e), consumes)
  {
    HistoryKeeps(s, Published(s, e), consumes);
  }

  lemma PopKeeps(s: State, consumes: (Lsnr, Evt) -> bool)
    requires Inv(s, consumes) && s.pc.AtPop?
    ensures Inv(Popped(s), consumes)
  {
    var t := Popped(s);
    assert s.queue[0] == s.published[|s.popped|];
    DeliveredAgrees(s.popped, s.seen, |s.seen|, t.popped, t.seen, consumes);
  }

  lemma DispatchKeeps(s: State, consumes: (Lsnr, Evt) -> bool)
    requires Inv(s, consumes) && s.pc.AtDispatch?
    ensures Inv(Dispatched(s, consumes), consumes)
  {
    var t := Dispatched(s, consumes);
    var k := |s.seen|;
    assert s.popped[k] == s.published[k];
    DeliveredAgrees(s.popped, s.seen, k, t.popped, t.seen, consumes);
  }

  lemma ReleaseKeeps(s: State, consumes: (Lsnr, Evt) -> bool)
    requires Inv(s, consumes) && s.pc.AtRelease?
    ensures Inv(Released(s), consumes)
  {
    var k := |s.popped| - 1;
    assert s.popped[k] == s.published[k];
    assert Delivered(s.popped, s.seen, k + 1, consumes) == s.log + if s.popped[k].hasFree then [Freed(k)] else [];
  }

  lemma StepKeeps(s: State, a: Action, consumes: (Lsnr, Evt) -> bool)
    requires Inv(s, consumes) && Step(s, a, consumes).Some?
    ensures Inv(Step(s, a, consumes).value, consumes)
  {
    match a
    case Pop => PopKeeps(s, consumes);
    case Dispatch => DispatchKeeps(s, consumes);
    case Release => ReleaseKeeps(s, consumes);
    case Publish(no, data, hasFree, memory) => PublishKeeps(s, Evt(|s.published|, no, data, hasFree), consumes);
    case Subscribe(l) => HistoryKeeps(s, s.(lsnrs := With(s.lsnrs, l)), consumes);
    case Unsubscribe(l) =>
      WithoutKeepsOthers(s.lsnrs, l);
      HistoryKeeps(s, s.(lsnrs := Without(s.lsnrs, l)), consumes);
    case _ => HistoryKeeps(s, Step(s, a, consumes).value, consumes);
  }

  lemma {:induction false} RunKeeps(s: State, acts: seq<Action>, consumes: (Lsnr, Evt) -> bool)
    requires Inv(s, consumes) && Run(s, acts, consumes).Some?
    ensures Inv(Run(s, acts, consumes).value, consumes)
    decreases |acts|
  {
    if acts != [] {
      StepKeeps(s, acts[0], consumes);
      RunKeeps(Step(s, acts[0], consumes).value, acts[1..], consumes);
    }
  }

  lemma InitialInv(s: State, consumes: (Lsnr, Evt) -> bool)
    requires Initial(s)
    ensures Inv(s, consumes)
  {}

  lemma ReachableInv(init: State, acts: seq<Action>, consumes: (Lsnr, Evt) -> bool)
    requires Initial(init) && Run(init, acts, consumes).Some?
    ensures Inv(Run(init, acts, consumes).value, consumes)
  {
    InitialInv(init, consumes);
    RunKeeps(init, acts, consumes);
  }

  // What the steps do to the subscriptions, and what they bring about.

  /** A new subscription comes last and leaves the others in their places; a known one changes nothing. */
  lemma SubscribingAppends(s: State, l: Lsnr, consumes: (Lsnr, Evt) -> bool)
    ensures var t := Step(s, Subscribe(l), consumes);
            t == Some(s.(lsnrs := if l in s.lsnrs then s.lsnrs else s.lsnrs + [l]))
  {}

  /** Unsubscribing takes out the pair, wherever it stands, and leaves the others in their order. */
  lemma UnsubscribingRemoves(s: State, before: seq<Lsnr>, l: Lsnr, after: seq<Lsnr>, consumes: (Lsnr, Evt) -> bool)
    requires s.lsnrs == before + [l] + after && l !in before && l !in after
    ensures Step(s, Unsubscribe(l), consumes) == Some(s.(lsnrs := before + after))
  {
    assert Without([l], l) == Without([l][1..], l) == [];
    assert before + [] == before;
    WithoutAppend(before + [l], after, l);
    WithoutAppend(before, [l], l);
    WithoutNothing(before, l);
    WithoutNothing(after, l);
  }

  /** An event is queued last, with what the publisher said; without memory nothing happens. */
  lemma PublishingAppends(s: State, no: nat, data: nat, hasFree: bool, memory: bool, consumes: (Lsnr, Evt) -> bool)
    ensures var r := Step(s, Publish(no, data, hasFree, memory), consumes);
            if !memory then r == Some(s) else
            && r.Some? && |r.value.queue| == |s.queue| + 1 && s.queue <= r.value.queue && s.published <= r.value.published
            && r.value.unsignalled == s.unsignalled + 1 && r.value.log == s.log && r.value.lsnrs == s.lsnrs
            && var e := r.value.queue[|s.queue|]; e.no == no && e.data == data && e.hasFree == hasFree
  {}

  /** log went on to log' with just these calls for event id, one after the other. */
  ghost predicate Logged(log: seq<Item>, log': seq<Item>, id: nat, calls: seq<Lsnr>) {
    log <= log' && |log'| == |log| + |calls| && forall k :: 0 <= k < |calls| ==> log'[|log| + k] == Called(id, calls[k])
  }

  lemma CallsAreLogged(log: seq<Item>, id: nat, calls: seq<Lsnr>)
    ensures Logged(log, log + Calls(id, calls), id, calls)
  {}

  /** A dispatch calls the listeners that are subscribed at that moment, as NotifiedAreCalledAt says, and changes nothing
      else. */
  lemma DispatchCallsTheListeners(s: State, consumes: (Lsnr, Evt) -> bool)
    requires s.pc.AtDispatch? && s.pc.e.Some?
    ensures var t := Step(s, Dispatch, consumes).value;
            && Logged(s.log, t.log, s.pc.e.value.id, Notified(s.lsnrs, s.pc.e.value, consumes))
            && t == s.(log := t.log, seen := s.seen + [s.lsnrs], pc := AtRelease(s.pc.e))
  {
    CallsAreLogged(s.log, s.pc.e.value.id, Notified(s.lsnrs, s.pc.e.value, consumes));
  }

  /** No deadlock: while an event is published and not finished, or the thread has work in hand, somebody can take a step
      that is no new publication or subscription. */
  lemma SomebodyCanStep(init: State, acts: seq<Action>, consumes: (Lsnr, Evt) -> bool)
    requires Initial(init) && Run(init, acts, consumes).Some?
    ensures var s := Run(init, acts, consumes).value;
            !s.pc.AtWait? || |s.popped| < |s.published| ==>
              exists a :: a in [Signal, Wait, Pop, Dispatch, Release] && Step(s, a, consumes).Some?
  {
    ReachableInv(init, acts, consumes);
    var s := Run(init, acts, consumes).value;
    if !s.pc.AtWait? || |s.popped| < |s.published| {
      var a := if s.pc.AtPop? then Pop else if s.pc.AtDispatch? then Dispatch else if s.pc.AtRelease? then Release
               else if s.sem > 0 then Wait else Signal;
      assert a in [Signal, Wait, Pop, Dispatch, Release] && Step(s, a, consumes).Some?;
    }
  }

  /** How many of these steps are still to be taken. */
  function Work(s: State): nat {
    5 * s.unsignalled + 4 * s.sem
    + match s.pc case AtWait => 0 case AtPop => 3 case AtDispatch(_) => 2 case AtRelease(_) => 1
  }

  ghost predicate Internal(acts: seq<Action>) {
    forall i :: 0 <= i < |acts| ==> acts[i] in [Signal, Wait, Pop, Dispatch, Release]
  }

  /** Nor can these steps go on for ever, whatever their order: so when nothing is published any more, every event gets
      delivered. */
  lemma {:induction false} StepsRunOut(s: State, acts: seq<Action>, consumes: (Lsnr, Evt) -> bool)
    requires Internal(acts) && Run(s, acts, consumes).Some?
    ensures |acts| + Work(Run(s, acts, consumes).value) == Work(s)
    decreases |acts|
  {
    if acts != [] {
      StepIsWork(s, acts[0], consumes);
      StepsRunOut(Step(s, acts[0], consumes).value, acts[1..], consumes);
    }
  }

  lemma StepIsWork(s: State, a: Action, consumes: (Lsnr, Evt) -> bool)
    requires a in [Signal, Wait, Pop, Dispatch, Release] && Step(s, a, consumes).Some?
    ensures Work(Step(s, a, consumes).value) + 1 == Work(s)
  {}

  /** Conservation: tokens and events agree in every interleaving, events come out in the order they went in, a
      thread that was woken always finds one, and it only sleeps on unfinished work that a publisher is about to
      signal. */
  lemma NoEventIsLost(init: State, acts: seq<Action>, consumes: (Lsnr, Evt) -> bool)
    requires Initial(init) && Run(init, acts, consumes).Some?
    ensures var s := Run(init, acts, consumes).value;
            && |s.queue| == s.sem + s.unsignalled + One(s.pc.AtPop?)
            && s.published == s.popped + s.queue
            && (s.pc.AtPop? ==> s.queue != [])
            && (s.pc.AtDispatch? || s.pc.AtRelease? ==> s.pc.e.Some?)
            && (s.pc.AtWait? && s.sem == 0 && s.unsignalled == 0 ==> s.popped == s.published)
  {
    ReachableInv(init, acts, consumes);
  }

  /** What was called and freed is exactly what the events demand, and no pair is ever subscribed twice. */
  lemma EventsAreDelivered(init: State, acts: seq<Action>, consumes: (Lsnr, Evt) -> bool)
    requires Initial(init) && Run(init, acts, consumes).Some?
    ensures var s := Run(init, acts, consumes).value;
            && LogIsDelivery(s, consumes)
            && NoDuplicates(s.lsnrs) && forall k :: 0 <= k < |s.seen| ==> NoDuplicates(s.seen[k])
  {
    ReachableInv(init, acts, consumes);
  }

  /** Events come in order and nothing happens to one after it was freed; of the first n those that have a free
      function were freed, and no others; of the next one there are at most calls, and nothing of any later one. */
  ghost predicate InOrder(log: seq<Item>, evts: seq<Evt>, n: nat)
    requires n <= |evts|
  {
    && (forall i, j :: 0 <= i < j < |log| ==> log[i].id <= log[j].id && (log[i].Freed? ==> log[i].id < log[j].id))
    && (forall k :: 0 <= k < n ==> (evts[k].hasFree <==> Freed(k) in log))
    && (forall i :: 0 <= i < |log| ==> log[i].id < n || (log[i].id == n && log[i].Called?))
  }

  ghost predicate Closed(log: seq<Item>, n: nat) {
    forall i :: 0 <= i < |log| ==> log[i].id < n
  }

  lemma InOrderCalls(log: seq<Item>, evts: seq<Evt>, n: nat, calls: seq<Item>)
    requires n <= |evts| && InOrder(log, evts, n) && Closed(log, n)
    requires forall i :: 0 <= i < |calls| ==> calls[i].id == n && calls[i].Called?
    ensures InOrder(log + calls, evts, n)
  {
    forall k | 0 <= k < n
      ensures Freed(k) in log + calls <==> Freed(k) in log
    {
      assert Freed(k) !in calls;
    }
  }

  lemma InOrderRelease(log: seq<Item>, evts: seq<Evt>, n: nat)
    requires n < |evts| && InOrder(log, evts, n)
    ensures var more := if evts[n].hasFree then [Freed(n)] else [];
            InOrder(log + more, evts, n + 1) && Closed(log + more, n + 1)
  {
    var more := if evts[n].hasFree then [Freed(n)] else [];
    assert Freed(n) !in log;
    assert evts[n].hasFree ==> (log + more)[|log|] == Freed(n);
    forall k | 0 <= k < n
      ensures Freed(k) in log + more <==> Freed(k) in log
    {
      assert Freed(k) !in more;
    }
  }

  lemma {:induction false} DeliveryOrder(evts: seq<Evt>, seen: seq<seq<Lsnr>>, n: nat, consumes: (Lsnr, Evt) -> bool)
    requires n <= |evts| && n <= |seen| && Numbered(evts)
    ensures InOrder(Delivered(evts, seen, n, consumes), evts, n) && Closed(Delivered(evts, seen, n, consumes), n)
  {
    if n > 0 {
      var e := evts[n - 1];
      var before, calls := Delivered(evts, seen, n - 1, consumes), Calls(n - 1, Notified(seen[n - 1], e, consumes));
      var more := if e.hasFree then [Freed(n - 1)] else [];
      assert e.id == n - 1;
      assert Delivered(evts, seen, n, consumes) == before + calls + more;
      DeliveryOrder(evts, seen, n - 1, consumes);
      InOrderCalls(before, evts, n - 1, calls);
      InOrderRelease(before + calls, evts, n - 1);
    }
  }

  /** At every moment: events are called and freed in publishing order, nothing happens to an event after it was
      freed (so that it is freed at most once, after its last callback), every finished event with a free function
      has been freed, and no event without one, nor any unfinished one. */
  lemma FreedOnceAfterLastCallback(init: State, acts: seq<Action>, consumes: (Lsnr, Evt) -> bool)
    requires Initial(init) && Run(init, acts, consumes).Some?
    ensures var s := Run(init, acts, consumes).value;
            InOrder(s.log, s.popped, Finished(s))
  {
    ReachableInv(init, acts, consumes);
    var s := Run(init, acts, consumes).value;
    var n := Finished(s);
    assert forall i :: 0 <= i < |s.popped| ==> s.popped[i] == s.published[i];
    DeliveryOrder(s.popped, s.seen, n, consumes);
    if s.pc.AtRelease? {
      InOrderCalls(Delivered(s.popped, s.seen, n, consumes), s.popped, n, Calls(n, Notified(s.seen[n], s.popped[n], consumes)));
    }
  }
}
