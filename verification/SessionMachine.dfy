/**
 * Any number of concurrent calls on one client. Between two awaits a call runs alone, so a step is
 * the start of a call, the acquisition of the lock up to the first request, or the arrival of a
 * reply up to the next request or the end of the call. The release of the lock and the invalidation
 * that may follow it have no await between them and are one step.
 */
module SessionMachine {
  import opened Results
  import opened Session

  /** A read, a write, or a write that always ends the authentication. */
  datatype Mode = Plain | Write | WriteThenInvalidate

  /** Active and Done remember where the call's events start, and the phase of its first request. */
  datatype Pc =
    | Waiting(mode: Mode)
    | Active(mode: Mode, at: nat, start: Phase, phase: Phase)
    | Done(mode: Mode, at: nat, start: Phase, end: nat, outcome: Outcome)

  datatype State = State(lock: Option<nat>, initialized: bool, calls: map<nat, Pc>, trace: seq<Event>)

  datatype Step = Begin(call: nat, mode: Mode) | Acquire(call: nat) | Receive(call: nat, reply: Reply)

  const Init := State(None, false, map[], [])

  predicate Swallowed(mode: Mode, outcome: Outcome) {
    mode != Plain && outcome == Raised(DisconnectedError)
  }

  /** The write is reported to its caller as applied. */
  predicate ReportedApplied(mode: Mode, outcome: Outcome) {
    mode != Plain && (outcome == Returned || outcome == Raised(DisconnectedError))
  }

  predicate Invalidates(mode: Mode, outcome: Outcome) {
    Swallowed(mode, outcome) || (mode == WriteThenInvalidate && outcome == Returned)
  }

  function StepBegin(s: State, c: nat, mode: Mode): State {
    if c in s.calls then s else s.(calls := s.calls[c := Waiting(mode)])
  }

  function StepAcquire(s: State, c: nat): State {
    if s.lock.Some? || c !in s.calls || !s.calls[c].Waiting? then s
    else
      var phase := First(s.initialized);
      State(Some(c), s.initialized, s.calls[c := Active(s.calls[c].mode, |s.trace|, phase, phase)],
            s.trace + [Sent(c, phase.request)])
  }

  function StepReceive(s: State, c: nat, reply: Reply): State {
    if c !in s.calls || !s.calls[c].Active? then s
    else
      var pc := s.calls[c];
      var got := Got(c, pc.phase.request, reply);
      match OnReply(pc.phase, reply)
      case Send(next) =>
        State(s.lock, next.request == Path, s.calls[c := pc.(phase := next)],
              s.trace + [got, Sent(c, next.request)])
      case Finish(outcome) =>
        var done := s.calls[c := Done(pc.mode, pc.at, pc.start, |s.trace| + 1, outcome)];
        if Invalidates(pc.mode, outcome) then
          State(None, false, done, s.trace + [got, Invalidated(c)])
        else
          State(None, s.initialized, done, s.trace + [got])
  }

  /** A step that is not possible in a state leaves it as it is. */
  function Apply(s: State, step: Step): State {
    match step
    case Begin(c, mode) => StepBegin(s, c, mode)
    case Acquire(c) => StepAcquire(s, c)
    case Receive(c, reply) => StepReceive(s, c, reply)
  }

  function Run(steps: seq<Step>): State {
    if steps == [] then Init else Apply(Run(steps[..|steps| - 1]), steps[|steps| - 1])
  }

  // ---------- the part of a call made so far ----------

  /** The events from `at` up to `end` lead from the phase of the first request to the pending one. */
  ghost predicate Leads(h: seq<Event>, at: nat, end: nat, call: nat, start: Phase, phase: Phase)
    requires end <= |h|
    decreases end - at
  {
    && at < end && h[at] == Sent(call, start.request)
    && if end == at + 1 then phase == start
       else
         && at + 3 <= end
         && h[at + 1].Got? && h[at + 1] == Got(call, start.request, h[at + 1].reply)
         && OnReply(start, h[at + 1].reply).Send?
         && Leads(h, at + 2, end, call, OnReply(start, h[at + 1].reply).phase, phase)
  }

  lemma {:induction false} LeadsFacts(h: seq<Event>, at: nat, end: nat, call: nat, start: Phase, phase: Phase)
    requires end <= |h| && Leads(h, at, end, call, start, phase)
    ensures h[end - 1] == Sent(call, phase.request)
    ensures forall i :: at <= i < end ==> h[i].call == call
    decreases end - at
  {
    if end > at + 1 {
      LeadsFacts(h, at + 2, end, call, OnReply(start, h[at + 1].reply).phase, phase);
    }
  }

  lemma {:induction false} LeadsOn(
    h: seq<Event>, g: seq<Event>, at: nat, end: nat, call: nat, start: Phase, phase: Phase, reply: Reply)
    requires end <= |h| && Leads(h, at, end, call, start, phase)
    requires end + 1 <= |g| && (forall i :: at <= i < end ==> g[i] == h[i])
    requires g[end] == Got(call, phase.request, reply)
    ensures OnReply(phase, reply).Finish? ==> Conforms(g, at, end + 1, call, start, OnReply(phase, reply).outcome)
    ensures OnReply(phase, reply).Send? && end + 2 <= |g| &&
            g[end + 1] == Sent(call, OnReply(phase, reply).phase.request) ==>
              Leads(g, at, end + 2, call, start, OnReply(phase, reply).phase)
    decreases end - at
  {
    if end > at + 1 {
      LeadsOn(h, g, at + 2, end, call, OnReply(start, h[at + 1].reply).phase, phase, reply);
    }
  }

  // ---------- the invariant ----------

  /** The end of the call's events: the end of the trace while it runs, past its invalidation if it made one. */
  function Stop(s: State, pc: Pc): nat
    requires !pc.Waiting?
  {
    if pc.Active? then |s.trace| else if Invalidates(pc.mode, pc.outcome) then pc.end + 1 else pc.end
  }

  /** One call: its events are contiguous, and are a call made from the state that it found. */
  ghost predicate CallOk(s: State, c: nat)
    requires c in s.calls
  {
    var pc := s.calls[c];
    !pc.Waiting? ==>
      && pc.at < Stop(s, pc) <= |s.trace|
      && (forall i :: pc.at <= i < Stop(s, pc) ==> s.trace[i].call == c)
      && pc.start == First(Authenticated(s.trace, pc.at))
      && (pc.Active? ==> s.lock == Some(c) && Leads(s.trace, pc.at, |s.trace|, c, pc.start, pc.phase))
      && (pc.Done? ==>
            && pc.end <= |s.trace| && Conforms(s.trace, pc.at, pc.end, c, pc.start, pc.outcome)
            && (Invalidates(pc.mode, pc.outcome) ==> s.trace[pc.end] == Invalidated(c)))
  }

  /** One event: it belongs to its call's stretch, replies follow their requests, and paths are authenticated. */
  ghost predicate EventOk(s: State, i: nat)
    requires i < |s.trace|
  {
    var e := s.trace[i];
    && e.call in s.calls && !s.calls[e.call].Waiting?
    && s.calls[e.call].at <= i < Stop(s, s.calls[e.call])
    && (e.Got? ==> i > 0 && s.trace[i - 1] == Sent(e.call, e.request))
    && (e.Sent? && e.request == Path ==> Authenticated(s.trace, i))
  }

  ghost predicate Inv(s: State) {
    && (forall c :: c in s.calls ==> CallOk(s, c))
    && (forall i :: 0 <= i < |s.trace| ==> EventOk(s, i))
    && (s.lock.Some? ==> s.lock.value in s.calls && s.calls[s.lock.value].Active?)
    && s.initialized == Authenticated(s.trace, |s.trace|)
  }

  /** A call that a step does not move keeps its part of the invariant. */
  lemma OtherCall(s: State, t: State, c: nat)
    requires c in s.calls && c in t.calls && t.calls[c] == s.calls[c] && !s.calls[c].Active? && CallOk(s, c)
    requires |s.trace| <= |t.trace| && forall i :: 0 <= i < |s.trace| ==> t.trace[i] == s.trace[i]
    ensures CallOk(t, c)
  {
    var pc := s.calls[c];
    if pc.Done? {
      AuthenticatedFrame(s.trace, t.trace, pc.at);
      ConformsFrame(s.trace, t.trace, pc.at, pc.end, c, pc.start, pc.outcome);
    }
  }

  /** An old event keeps its part, when the call it belongs to still covers it. */
  lemma OldEvent(s: State, t: State, i: nat)
    requires i < |s.trace| <= |t.trace| && EventOk(s, i)
    requires forall k :: 0 <= k < |s.trace| ==> t.trace[k] == s.trace[k]
    requires var c := s.trace[i].call;
             c in t.calls && !t.calls[c].Waiting? && t.calls[c].at == s.calls[c].at && i < Stop(t, t.calls[c])
    ensures EventOk(t, i)
  {
    AuthenticatedFrame(s.trace, t.trace, i);
  }

  lemma BeginKeepsInv(s: State, c: nat, mode: Mode)
    requires Inv(s)
    ensures Inv(StepBegin(s, c, mode))
  {
    var t := StepBegin(s, c, mode);
    forall d | d in t.calls
      ensures CallOk(t, d)
    {
      assert d in s.calls ==> CallOk(s, d);
    }
    forall i | 0 <= i < |t.trace|
      ensures EventOk(t, i)
    {
      assert EventOk(s, i);
    }
  }

  lemma AcquireKeepsInv(s: State, c: nat)
    requires Inv(s)
    ensures Inv(StepAcquire(s, c))
  {
    var t := StepAcquire(s, c);
    if t != s {
      var n := |s.trace|;
      AuthenticatedFrame(s.trace, t.trace, n);
      forall d | d in t.calls
        ensures CallOk(t, d)
      {
        if d != c {
          assert CallOk(s, d);
          OtherCall(s, t, d);
        }
      }
      forall i | 0 <= i < |t.trace|
        ensures EventOk(t, i)
      {
        if i < n {
          assert EventOk(s, i);
          OldEvent(s, t, i);
        }
      }
    }
  }

  lemma ReceiverStaysOk(s: State, c: nat, reply: Reply)
    requires Inv(s) && c in s.calls && s.calls[c].Active?
    ensures CallOk(StepReceive(s, c, reply), c)
  {
    var t := StepReceive(s, c, reply);
    var n, pc := |s.trace|, s.calls[c];
    assert CallOk(s, c);
    LeadsFacts(s.trace, pc.at, n, c, pc.start, pc.phase);
    LeadsOn(s.trace, t.trace, pc.at, n, c, pc.start, pc.phase, reply);
    AuthenticatedFrame(s.trace, t.trace, pc.at);
  }

  lemma OthersStayOk(s: State, c: nat, reply: Reply, d: nat)
    requires Inv(s) && c in s.calls && s.calls[c].Active? && d in s.calls && d != c
    ensures CallOk(StepReceive(s, c, reply), d)
  {
    hide OnReply, Leads, Conforms;
    assert CallOk(s, c) && CallOk(s, d);
    OtherCall(s, StepReceive(s, c, reply), d);
  }

  lemma EventsStayOk(s: State, c: nat, reply: Reply, i: nat)
    requires Inv(s) && c in s.calls && s.calls[c].Active? && i < |StepReceive(s, c, reply).trace|
    ensures EventOk(StepReceive(s, c, reply), i)
  {
    hide Conforms, Authenticated;
    var t, n, pc := StepReceive(s, c, reply), |s.trace|, s.calls[c];
    assert CallOk(s, c);
    if i < n {
      assert EventOk(s, i);
      OldEvent(s, t, i);
    } else {
      LeadsFacts(s.trace, pc.at, n, c, pc.start, pc.phase);
      AfterReply(s, c, reply);
    }
  }

  lemma ReceiveKeepsInv(s: State, c: nat, reply: Reply)
    requires Inv(s)
    ensures Inv(StepReceive(s, c, reply))
  {
    if c in s.calls && s.calls[c].Active? {
      var t := StepReceive(s, c, reply);
      assert CallOk(s, c);
      AfterReply(s, c, reply);
      forall d | d in t.calls
        ensures CallOk(t, d)
      {
        if d == c {
          ReceiverStaysOk(s, c, reply);
        } else {
          OthersStayOk(s, c, reply, d);
        }
      }
      forall i | 0 <= i < |t.trace|
        ensures EventOk(t, i)
      {
        EventsStayOk(s, c, reply, i);
      }
    }
  }

  /** What the reply and its consequence do to the authentication. */
  lemma AfterReply(s: State, c: nat, reply: Reply)
    requires Inv(s) && c in s.calls && s.calls[c].Active?
    ensures var t, n := StepReceive(s, c, reply), |s.trace|;
            && n < |t.trace|
            && t.initialized == Authenticated(t.trace, |t.trace|)
            && (|t.trace| == n + 2 && t.trace[n + 1] == Sent(c, Path) ==> Authenticated(t.trace, n + 1))
  {
    var t, n, pc := StepReceive(s, c, reply), |s.trace|, s.calls[c];
    assert CallOk(s, c);
    LeadsFacts(s.trace, pc.at, n, c, pc.start, pc.phase);
    AuthenticatedFrame(s.trace, t.trace, n);
    assert pc.phase.request == Login ==> !Authenticated(s.trace, n);
    assert Authenticated(t.trace, n + 1) ==
           if pc.phase.request == Login then LoginVerdict(reply).None? else Authenticated(s.trace, n);
  }

  /** Every reachable state, of any number of calls in any interleaving, satisfies the invariant. */
  lemma {:induction false} RunKeepsInv(steps: seq<Step>)
    ensures Inv(Run(steps))
  {
    if steps != [] {
      var n := |steps| - 1;
      RunKeepsInv(steps[..n]);
      var s := Run(steps[..n]);
      match steps[n]
      case Begin(c, mode) => BeginKeepsInv(s, c, mode);
      case Acquire(c) => AcquireKeepsInv(s, c);
      case Receive(c, reply) => ReceiveKeepsInv(s, c, reply);
    }
  }

  // ---------- what every run guarantees ----------

  /** The exchanges of different calls never interleave. */
  lemma CallsNeverInterleave(steps: seq<Step>, i: nat, j: nat, k: nat)
    requires i <= j <= k < |Run(steps).trace| && Run(steps).trace[i].call == Run(steps).trace[k].call
    ensures Run(steps).trace[j].call == Run(steps).trace[i].call
  {
    RunKeepsInv(steps);
    var s := Run(steps);
    assert EventOk(s, i) && EventOk(s, k);
    assert CallOk(s, s.trace[i].call);
  }

  /** A finished call did what the sequential client does from the state that the call found. */
  lemma FinishedCallsConform(steps: seq<Step>, c: nat)
    requires c in Run(steps).calls && Run(steps).calls[c].Done?
    ensures var s := Run(steps);
            var pc := s.calls[c];
            && pc.at < pc.end <= |s.trace|
            && Conforms(s.trace, pc.at, pc.end, c, First(Authenticated(s.trace, pc.at)), pc.outcome)
            && forall i :: 0 <= i < |s.trace| && s.trace[i].call == c && i != pc.end ==> pc.at <= i < pc.end
  {
    RunKeepsInv(steps);
    var s := Run(steps);
    var pc := s.calls[c];
    assert CallOk(s, c);
    forall i | 0 <= i < |s.trace| && s.trace[i].call == c && i != pc.end
      ensures pc.at <= i < pc.end
    {
      assert EventOk(s, i);
    }
    CallIsShort(s.trace, pc.at, pc.end, c, pc.start, pc.outcome);
  }

  /**
   * A finished call, in terms of its exchanges alone: it starts with a login exactly when no login stood,
   * goes on exactly after a successful login and a first refusal, and ends as its last reply says.
   */
  lemma FinishedCallsEndAs(steps: seq<Step>, c: nat)
    requires c in Run(steps).calls && Run(steps).calls[c].Done?
    ensures var s := Run(steps);
            var pc := s.calls[c];
            && pc.at < pc.end <= |s.trace|
            && s.trace[pc.at] == Sent(c, if Authenticated(s.trace, pc.at) then Path else Login)
            && EndsAs(s.trace, pc.at, pc.end, c, false, pc.outcome)
            && GoesOn(s.trace, pc.at, pc.end, c, false)
  {
    hide EndsAs, GoesOn, Authenticated;
    FinishedCallsConform(steps, c);
    var s := Run(steps);
    var pc := s.calls[c];
    OutcomeOfCall(s.trace, pc.at, pc.end, c, First(Authenticated(s.trace, pc.at)), pc.outcome);
  }

  // ---------- every call can finish ----------

  /** The call's pending requests are answered by these replies, one after the other. */
  function Deliver(s: State, c: nat, replies: seq<Reply>): State
    decreases |replies|
  {
    if replies == [] then s else Deliver(StepReceive(s, c, replies[0]), c, replies[1..])
  }

  lemma {:induction false} DeliveryFinishes(s: State, c: nat, replies: seq<Reply>)
    requires c in s.calls && !s.calls[c].Waiting?
    requires s.calls[c].Active? ==> s.lock == Some(c) && |replies| >= Budget(s.calls[c].phase)
    requires s.calls[c].Done? ==> s.lock.None?
    ensures var t := Deliver(s, c, replies);
            c in t.calls && t.calls[c].Done? && t.lock.None?
    decreases |replies|
  {
    if replies != [] {
      DeliveryFinishes(StepReceive(s, c, replies[0]), c, replies[1..]);
    }
  }

  /** In every reachable state four replies, whatever they are, release the lock and end the call that holds it. */
  lemma LockIsReleased(steps: seq<Step>, replies: seq<Reply>)
    requires Run(steps).lock.Some? && |replies| >= 4
    ensures var c := Run(steps).lock.value;
            var t := Deliver(Run(steps), c, replies);
            t.lock.None? && c in t.calls && t.calls[c].Done?
  {
    RunKeepsInv(steps);
    DeliveryFinishes(Run(steps), Run(steps).lock.value, replies);
  }

  /** While the lock is free, any waiting call can take it, and four replies end that call. */
  lemma WaitingCallsCanFinish(steps: seq<Step>, c: nat, replies: seq<Reply>)
    requires Run(steps).lock.None? && c in Run(steps).calls && Run(steps).calls[c].Waiting? && |replies| >= 4
    ensures var t := Deliver(Apply(Run(steps), Acquire(c)), c, replies);
            t.lock.None? && c in t.calls && t.calls[c].Done?
  {
    DeliveryFinishes(Apply(Run(steps), Acquire(c)), c, replies);
  }

  lemma {:induction false} LeadsPathTwice(
    h: seq<Event>, at: nat, end: nat, call: nat, start: Phase, phase: Phase, i: nat, k: nat)
    requires end <= |h| && Leads(h, at, end, call, start, phase)
    requires at <= i < k < end && h[i] == Sent(call, Path) && h[k] == Sent(call, Path)
    ensures k == i + 4 && h[i + 1].Got? && PathVerdict(h[i + 1].reply) == Unauthorised
    ensures h[i + 3].Got? && h[i + 3].request == Login && LoginVerdict(h[i + 3].reply) == None
    decreases end - at
  {
    var p2 := OnReply(start, h[at + 1].reply).phase;
    if i >= at + 2 {
      LeadsPathTwice(h, at + 2, end, call, p2, phase, i, k);
    } else {
      assert i == at && p2 == Phase(Login, true) && k >= at + 3;
      var p3 := OnReply(p2, h[at + 3].reply).phase;
      assert p3 == Phase(Path, true) && Leads(h, at + 4, end, call, p3, phase);
    }
  }

  /** No call, finished or not, sends its path a second time but after an unauthorised reply and a login. */
  lemma PathIsSentAtMostTwice(steps: seq<Step>, c: nat, i: nat, k: nat)
    requires i < k < |Run(steps).trace|
    requires Run(steps).trace[i] == Sent(c, Path) && Run(steps).trace[k] == Sent(c, Path)
    ensures var h := Run(steps).trace;
            && k == i + 4
            && h[i + 1].Got? && PathVerdict(h[i + 1].reply) == Unauthorised
            && h[i + 3].Got? && h[i + 3].request == Login && LoginVerdict(h[i + 3].reply) == None
  {
    RunKeepsInv(steps);
    var s := Run(steps);
    assert EventOk(s, i) && EventOk(s, k) && CallOk(s, c);
    var pc := s.calls[c];
    if pc.Active? {
      LeadsPathTwice(s.trace, pc.at, |s.trace|, c, pc.start, pc.phase, i, k);
    } else {
      PathAtMostTwice(s.trace, pc.at, pc.end, c, pc.start, pc.outcome, i, k);
    }
  }

  /** Every path request is sent when the latest login succeeded and nothing has invalidated it since. */
  lemma PathsAreAuthenticated(steps: seq<Step>, i: nat)
    requires i < |Run(steps).trace| && Run(steps).trace[i].Sent? && Run(steps).trace[i].request == Path
    ensures var h := Run(steps).trace;
            exists l :: && 0 <= l < i && h[l].Got? && IsLogin(h[l]) && LoginVerdict(h[l].reply).None?
                        && forall j :: l < j < i ==> !IsLogin(h[j]) && !h[j].Invalidated? && !h[j].Closed?
  {
    RunKeepsInv(steps);
    assert EventOk(Run(steps), i);
    AuthenticatedMeaning(Run(steps).trace, i);
  }

  /**
   * A write is reported applied only if its own path request was its last exchange, answered as
   * authorised or cut off; the swallowed disconnect is followed at once by an invalidation.
   */
  lemma {:induction false} AppliedWritesWereAnswered(steps: seq<Step>, c: nat)
    requires c in Run(steps).calls && Run(steps).calls[c].Done?
    requires ReportedApplied(Run(steps).calls[c].mode, Run(steps).calls[c].outcome)
    ensures var s := Run(steps);
            var pc := s.calls[c];
            && 0 < pc.end <= |s.trace|
            && var last := s.trace[pc.end - 1];
            && last.Got? && last.call == c && last.request == Path
            && (PathVerdict(last.reply) == Authorised || last.reply == Disconnected)
            && (last.reply == Disconnected ==> pc.end < |s.trace| && s.trace[pc.end] == Invalidated(c))
  {
    RunKeepsInv(steps);
    var s := Run(steps);
    var pc := s.calls[c];
    assert CallOk(s, c);
    LastExchangeOfApplied(s.trace, pc.at, pc.end, c, pc.start, pc.outcome);
  }

  /** A call cut off during a login ends as an authentication failure and is never reported applied. */
  lemma LoginDisconnectIsNeverApplied(steps: seq<Step>, c: nat, i: nat)
    requires i < |Run(steps).trace| && Run(steps).trace[i] == Got(c, Login, Disconnected)
    ensures c in Run(steps).calls
    ensures var pc := Run(steps).calls[c];
            pc.Done? ==> pc.outcome == AuthFailed(CannotConnect) && !ReportedApplied(pc.mode, pc.outcome)
  {
    hide Leads, Conforms, Authenticated;
    RunKeepsInv(steps);
    var s := Run(steps);
    assert EventOk(s, i) && CallOk(s, c);
    var pc := s.calls[c];
    if pc.Done? {
      LoginDisconnectFails(s.trace, pc.at, pc.end, c, pc.start, pc.outcome, i);
    }
  }

  /** After an invalidation, the next request of any call is a login. */
  lemma InvalidationForcesLogin(steps: seq<Step>, i: nat, k: nat)
    requires i < k < |Run(steps).trace| && Run(steps).trace[i].Invalidated? && Run(steps).trace[k].Sent?
    requires forall j :: i < j < k ==> !Run(steps).trace[j].Sent?
    ensures Run(steps).trace[k].request == Login
  {
    RunKeepsInv(steps);
    var s := Run(steps);
    forall l | i < l < k
      ensures !s.trace[l].Got?
    {
      assert EventOk(s, l);
    }
    QuietAfterInvalidation(s.trace, i, k);
    assert EventOk(s, k);
  }

  lemma {:induction false} QuietAfterInvalidation(h: seq<Event>, i: nat, k: nat)
    requires i < k <= |h| && h[i].Invalidated? && forall l :: i < l < k ==> !h[l].Got?
    ensures !Authenticated(h, k)
  {
    if i + 1 < k {
      QuietAfterInvalidation(h, i, k - 1);
    }
  }
}
