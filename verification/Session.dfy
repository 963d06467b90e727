/** The authenticated session: login, one retry, invalidation, and writes that end in a disconnect. */
module Session {
  import opened Results

  datatype Request = Login | Path

  /** What one HTTP exchange comes to: the texts are taken as already parsed. */
  datatype Reply =
    | Answer(status: int, page: Page)
    | Disconnected
    | Failed
    | Unreadable

  /** An empty text, the variable logonInfo read as a string, and the same variable read as a list. */
  datatype Page = Page(empty: bool, logonText: string, logonItems: Option<seq<string>>)

  datatype AuthReason = General | CannotConnect | Credentials | UserBlocked | TooManyUsers | SessionTimeout

  /** An exception other than AuthenticationError that a call lets through. */
  datatype CallError = DisconnectedError | RequestError | ReadError

  datatype Outcome = Returned | AuthFailed(reason: AuthReason) | StillUnauthorised | Raised(error: CallError)

  /** How a logon reply is judged; None is success. */
  function LoginVerdict(r: Reply): Option<AuthReason> {
    match r
    case Disconnected => Some(CannotConnect)
    case Failed => Some(CannotConnect)
    case Unreadable => Some(General)
    case Answer(status, page) =>
      if status != 200 || page.empty || page.logonItems.None? || page.logonItems.value == [] then Some(General)
      else
        var code := page.logonItems.value[0];
        if code == "0" then None
        else if code == "1" then Some(Credentials)
        else if code == "2" then Some(UserBlocked)
        else if code == "3" || code == "4" then Some(TooManyUsers)
        else if code == "5" then Some(SessionTimeout)
        else Some(General)
  }

  predicate CheckAuthorized(status: int, page: Page) {
    status == 200 && page.logonText == ""
  }

  predicate UnexpectedStatus(status: int) {
    status != 200 && status != 401 && status != 403
  }

  datatype Verdict = Authorised | Unauthorised | Error(error: CallError)

  function PathVerdict(r: Reply): Verdict {
    match r
    case Disconnected => Error(DisconnectedError)
    case Failed => Error(RequestError)
    case Unreadable => Error(ReadError)
    case Answer(status, page) =>
      if UnexpectedStatus(status) then Error(RequestError)
      else if CheckAuthorized(status, page) then Authorised
      else Unauthorised
  }

  /** A page that was read, with a logon list. */
  predicate LogonPage(r: Reply) {
    r.Answer? && r.status == 200 && !r.page.empty && r.page.logonItems.Some? && r.page.logonItems.value != []
  }

  /** Only a read page whose first logon item is "0" authenticates. */
  lemma LoginSucceedsWhen(r: Reply)
    ensures LoginVerdict(r).None? <==>
            && r.Answer? && r.status == 200 && !r.page.empty
            && r.page.logonItems.Some? && r.page.logonItems.value != [] && r.page.logonItems.value[0] == "0"
  {
  }

  /** Which reply fails a login for which reason. */
  lemma LoginFailsWhen(r: Reply)
    ensures LoginVerdict(r) == Some(CannotConnect) <==> r == Disconnected || r == Failed
    ensures LoginVerdict(r) == Some(Credentials) <==> LogonPage(r) && r.page.logonItems.value[0] == "1"
    ensures LoginVerdict(r) == Some(UserBlocked) <==> LogonPage(r) && r.page.logonItems.value[0] == "2"
    ensures LoginVerdict(r) == Some(TooManyUsers) <==>
            LogonPage(r) && (r.page.logonItems.value[0] == "3" || r.page.logonItems.value[0] == "4")
    ensures LoginVerdict(r) == Some(SessionTimeout) <==> LogonPage(r) && r.page.logonItems.value[0] == "5"
    ensures LoginVerdict(r) == Some(General) <==>
            || r == Unreadable
            || (r.Answer? && !LogonPage(r))
            || (LogonPage(r) && r.page.logonItems.value[0] !in ["0", "1", "2", "3", "4", "5"])
  {
  }

  /** An HTTP failure is never taken for a missing login, nor a missing login for success. */
  lemma PathVerdictMeaning(r: Reply)
    ensures PathVerdict(r) == Unauthorised <==>
            r.Answer? && (r.status == 401 || r.status == 403 || (r.status == 200 && r.page.logonText != ""))
    ensures PathVerdict(r) == Authorised <==> r.Answer? && r.status == 200 && r.page.logonText == ""
    ensures PathVerdict(r) == Error(DisconnectedError) <==> r == Disconnected
    ensures PathVerdict(r) == Error(RequestError) <==>
            r == Failed || (r.Answer? && r.status != 200 && r.status != 401 && r.status != 403)
    ensures PathVerdict(r) == Error(ReadError) <==> r == Unreadable
  {
  }

  // ---------- one call as an automaton ----------

  /** The request a call is waiting for, before or after its one re-authentication. */
  datatype Phase = Phase(request: Request, retry: bool)

  datatype Next = Send(phase: Phase) | Finish(outcome: Outcome)

  function First(initialized: bool): Phase {
    Phase(if initialized then Path else Login, false)
  }

  function OnReply(phase: Phase, r: Reply): Next {
    match phase.request
    case Login =>
      (match LoginVerdict(r)
       case None => Send(Phase(Path, phase.retry))
       case Some(reason) => Finish(AuthFailed(reason)))
    case Path =>
      match PathVerdict(r)
      case Authorised => Finish(Returned)
      case Error(e) => Finish(Raised(e))
      case Unauthorised => if phase.retry then Finish(StillUnauthorised) else Send(Phase(Login, true))
  }

  datatype Event =
    | Sent(call: nat, request: Request)
    | Got(call: nat, request: Request, reply: Reply)
    | Invalidated(call: nat)
    | Closed(call: nat)

  /** The events from `at` up to `end` are a whole call that starts in this phase and ends in this outcome. */
  ghost predicate Conforms(h: seq<Event>, at: nat, end: nat, call: nat, phase: Phase, outcome: Outcome)
    requires end <= |h|
    decreases end - at
  {
    && at + 2 <= end
    && h[at] == Sent(call, phase.request)
    && h[at + 1].Got? && h[at + 1] == Got(call, phase.request, h[at + 1].reply)
    && match OnReply(phase, h[at + 1].reply)
       case Finish(o) => end == at + 2 && o == outcome
       case Send(next) => Conforms(h, at + 2, end, call, next, outcome)
  }

  lemma {:induction false} ConformsFrame(
    a: seq<Event>, b: seq<Event>, at: nat, end: nat, call: nat, phase: Phase, outcome: Outcome)
    requires end <= |a| && end <= |b| && forall i :: at <= i < end ==> a[i] == b[i]
    requires Conforms(a, at, end, call, phase, outcome)
    ensures Conforms(b, at, end, call, phase, outcome)
    decreases end - at
  {
    match OnReply(phase, a[at + 1].reply)
    case Finish(_) =>
    case Send(next) => ConformsFrame(a, b, at + 2, end, call, next, outcome);
  }

  // ---------- what the replies of a call come to ----------

  /** Event i is the reply to a path request, and it was unauthorised. */
  predicate Refused(h: seq<Event>, i: nat)
    requires i < |h|
  {
    h[i].Got? && h[i].request == Path && PathVerdict(h[i].reply) == Unauthorised
  }

  ghost predicate RefusedOnce(h: seq<Event>, at: nat, end: nat)
    requires end <= |h|
  {
    exists i :: at <= i < end && Refused(h, i)
  }

  /** Two path requests were both answered as unauthorised. */
  ghost predicate RefusedTwice(h: seq<Event>, at: nat, end: nat)
    requires end <= |h|
  {
    exists i, k :: at <= i < k < end && Refused(h, i) && Refused(h, k)
  }

  /**
   * How a call ends, in terms of the exchanges from `at` on: what the last of them was, and how often
   * the path was refused. `retry` says that it was refused once before `at`.
   */
  ghost predicate EndsAs(h: seq<Event>, at: nat, end: nat, call: nat, retry: bool, outcome: Outcome)
    requires end <= |h|
  {
    && at < end && h[end - 1].Got? && h[end - 1].call == call
    && var last := h[end - 1];
    && (outcome == Returned <==> last.request == Path && PathVerdict(last.reply) == Authorised)
    && (forall e :: outcome == Raised(e) <==> last.request == Path && PathVerdict(last.reply) == Error(e))
    && (forall r :: outcome == AuthFailed(r) <==> last.request == Login && LoginVerdict(last.reply) == Some(r))
    && (outcome == StillUnauthorised <==> if retry then RefusedOnce(h, at, end) else RefusedTwice(h, at, end))
  }

  /** Every reply but a successful login and the first refusal is the last event of its call. */
  ghost predicate Continues(h: seq<Event>, at: nat, i: nat, retry: bool)
    requires i < |h|
  {
    h[i].Got? && if h[i].request == Login then LoginVerdict(h[i].reply).None?
                 else Refused(h, i) && !retry && !RefusedOnce(h, at, i)
  }

  /**
   * The events are the call's own; a reply follows each request; and the call goes on exactly after a
   * successful login, with the path, and after a first refusal, with a login.
   */
  ghost predicate GoesOn(h: seq<Event>, at: nat, end: nat, call: nat, retry: bool)
    requires end <= |h|
  {
    forall i :: at <= i < end ==>
      && (h[i].Sent? || h[i].Got?) && h[i].call == call
      && (h[i].Sent? ==> i + 1 < end && h[i + 1].Got? && h[i + 1].request == h[i].request)
      && (h[i].Got? ==> (i + 1 < end <==> Continues(h, at, i, retry)))
      && (h[i].Got? && i + 1 < end ==> h[i + 1] == Sent(call, if h[i].request == Login then Path else Login))
  }

  /** The first exchange of a stretch is refused, or the refusals are those of the rest. */
  lemma RefusalsSplit(h: seq<Event>, at: nat, end: nat)
    requires at + 2 <= end <= |h| && h[at].Sent?
    ensures RefusedOnce(h, at, end) <==> Refused(h, at + 1) || RefusedOnce(h, at + 2, end)
    ensures RefusedTwice(h, at, end) <==>
            RefusedTwice(h, at + 2, end) || (Refused(h, at + 1) && RefusedOnce(h, at + 2, end))
    ensures RefusedTwice(h, at + 2, end) ==> RefusedOnce(h, at + 2, end)
  {
  }

  lemma {:induction false} OutcomeOfCall(
    h: seq<Event>, at: nat, end: nat, call: nat, phase: Phase, outcome: Outcome)
    requires end <= |h| && Conforms(h, at, end, call, phase, outcome)
    ensures at < end && h[at] == Sent(call, phase.request)
    ensures EndsAs(h, at, end, call, phase.retry, outcome)
    ensures GoesOn(h, at, end, call, phase.retry)
    decreases end - at
  {
    hide LoginVerdict, PathVerdict, RefusedOnce, RefusedTwice;
    RefusalsSplit(h, at, end);
    NoRefusals(h, at);
    match OnReply(phase, h[at + 1].reply)
    case Finish(_) =>
      NoRefusals(h, at + 2);
    case Send(next) =>
      OutcomeOfCall(h, at + 2, end, call, next, outcome);
      forall i | at + 2 <= i < end
        ensures Continues(h, at, i, phase.retry) == Continues(h, at + 2, i, next.retry)
      {
        RefusalsSplit(h, at, i);
      }
      assert Continues(h, at, at + 1, phase.retry);
  }

  lemma NoRefusals(h: seq<Event>, at: nat)
    requires at <= |h|
    ensures !RefusedOnce(h, at, at) && !RefusedTwice(h, at, at)
    ensures at < |h| && h[at].Sent? ==> !RefusedOnce(h, at, at + 1)
  {
  }

  /** The latest login succeeded, and nothing has invalidated it since, as of the first n events. */
  function Authenticated(trace: seq<Event>, n: nat): bool
    requires n <= |trace|
  {
    if n == 0 then false
    else
      match trace[n - 1]
      case Got(_, Login, reply) => LoginVerdict(reply).None?
      case Sent(_, Login) => false
      case Invalidated(_) => false
      case Closed(_) => false
      case _ => Authenticated(trace, n - 1)
  }

  predicate IsLogin(e: Event) {
    (e.Sent? || e.Got?) && e.request == Login
  }

  /** The meaning of Authenticated, without recursion. */
  lemma {:induction false} AuthenticatedMeaning(trace: seq<Event>, n: nat)
    requires n <= |trace|
    ensures Authenticated(trace, n) <==>
            exists l :: && 0 <= l < n && trace[l].Got? && IsLogin(trace[l]) && LoginVerdict(trace[l].reply).None?
                        && forall j :: l < j < n ==> !IsLogin(trace[j]) && !trace[j].Invalidated? && !trace[j].Closed?
  {
    if n > 0 {
      AuthenticatedMeaning(trace, n - 1);
      var e := trace[n - 1];
      if IsLogin(e) || e.Invalidated? || e.Closed? {
        if e.Got? && LoginVerdict(e.reply).None? {
          assert Authenticated(trace, n);
        }
      } else {
        assert Authenticated(trace, n) == Authenticated(trace, n - 1);
      }
    }
  }

  lemma {:induction false} AuthenticatedFrame(a: seq<Event>, b: seq<Event>, n: nat)
    requires n <= |a| && n <= |b| && forall i :: 0 <= i < n ==> a[i] == b[i]
    ensures Authenticated(a, n) == Authenticated(b, n)
  {
    if n > 0 {
      AuthenticatedFrame(a, b, n - 1);
    }
  }

  // ---------- the client object ----------

  /** Whose HTTP session it is: our own is closed when dropped, an injected one is only detached. */
  datatype HttpSession = Own | Injected

  datatype Disposal = Untouched | DetachedSession | ClosedSession

  class TpLinkWebApi {
    var initialized: bool
    var session: Option<HttpSession>
    ghost var trace: seq<Event>

    /** The flag tells the truth about the trace, and an authenticated client has a session. */
    ghost predicate Valid()
      reads this
    {
      && initialized == Authenticated(trace, |trace|)
      && (initialized ==> session.Some?)
    }

    constructor (session: Option<HttpSession>)
      requires session != Some(Own)
      ensures Valid() && !initialized && this.session == session && trace == []
    {
      this.session := session;
      initialized := false;
      trace := [];
    }

    ghost method Record(e: Event)
      modifies this`trace
      ensures trace == old(trace) + [e]
      ensures Authenticated(trace, |trace|) ==
              match e
              case Got(_, Login, reply) => LoginVerdict(reply).None?
              case Sent(_, Login) => false
              case Invalidated(_) => false
              case Closed(_) => false
              case _ => old(Authenticated(trace, |trace|))
    {
      AuthenticatedFrame(trace, trace + [e], |trace|);
      trace := trace + [e];
    }

    method InvalidateAuthentication(ghost call: nat)
      requires Valid()
      modifies this`initialized, this`trace
      ensures Valid() && !initialized
      ensures trace == old(trace) + [Invalidated(call)]
    {
      initialized := false;
      Record(Invalidated(call));
    }

    /** `_get_raw` and `_post_raw`: the device's reply is arbitrary; without a session nothing is sent. */
    method Exchange(ghost call: nat, request: Request) returns (reply: Reply)
      modifies this`trace
      ensures session.Some? ==>
                && trace == old(trace) + [Sent(call, request), Got(call, request, reply)]
                && Authenticated(trace, |trace|) ==
                   if request == Login then LoginVerdict(reply).None? else old(Authenticated(trace, |trace|))
      ensures session.None? ==> reply == Failed && trace == old(trace)
    {
      if session.None? {
        return Failed;
      }
      Record(Sent(call, request));
      reply := *;
      Record(Got(call, request, reply));
      assert trace == old(trace) + [Sent(call, request), Got(call, request, reply)];
    }

    method RefreshSession()
      modifies this`session
      ensures session == if old(session).None? then Some(Own) else old(session)
    {
      if session.None? {
        session := Some(Own);
      }
    }

    /** None is success, a reason is the AuthenticationError raised. */
    method Authenticate(ghost call: nat) returns (failure: Option<AuthReason>, ghost reply: Reply)
      requires Valid()
      modifies this
      ensures Valid() && session.Some?
      ensures trace == old(trace) + [Sent(call, Login), Got(call, Login, reply)]
      ensures failure == LoginVerdict(reply) && initialized == failure.None?
    {
      initialized := false;
      RefreshSession();
      var r := Exchange(call, Login);
      reply := r;
      failure := LoginVerdict(r);
      if failure.None? {
        initialized := true;
      }
    }

    /** `get` and `post`, which differ only in the request they send. */
    method Call(ghost call: nat) returns (outcome: Outcome)
      requires Valid()
      modifies this
      ensures Valid() && session.Some?
      ensures old(trace) <= trace
      ensures |old(trace)| < |trace| &&
              trace[|old(trace)|] == Sent(call, if old(initialized) then Path else Login)
      ensures EndsAs(trace, |old(trace)|, |trace|, call, false, outcome)
      ensures GoesOn(trace, |old(trace)|, |trace|, call, false)
      ensures Conforms(trace, |old(trace)|, |trace|, call, First(old(initialized)), outcome)
    {
      hide LoginVerdict, PathVerdict, Authenticated, EndsAs, GoesOn;
      ghost var start, first := |trace|, First(initialized);
      var failure, _ := EnsureInitialized(call);
      if failure.Some? {
        outcome := AuthFailed(failure.value);
      } else {
        outcome := RequestWithRetry(call);
      }
      OutcomeOfCall(trace, start, |trace|, call, first, outcome);
    }

    /** `_ensure_initialized`: a login when none stands. */
    method EnsureInitialized(ghost call: nat) returns (failure: Option<AuthReason>, ghost reply: Reply)
      requires Valid()
      modifies this
      ensures Valid() && session.Some? && initialized == failure.None?
      ensures old(initialized) ==> failure.None? && trace == old(trace)
      ensures !old(initialized) ==>
                trace == old(trace) + [Sent(call, Login), Got(call, Login, reply)] && failure == LoginVerdict(reply)
    {
      failure, reply := None, Failed;
      if !initialized {
        failure, reply := Authenticate(call);
        if failure.None? {
          initialized := true;
        }
      }
    }

    /** The request of a call, sent again after one more login if it is refused. */
    method RequestWithRetry(ghost call: nat) returns (outcome: Outcome)
      requires Valid() && initialized
      modifies this
      ensures Valid() && session.Some? && old(trace) <= trace
      ensures Conforms(trace, |old(trace)|, |trace|, call, Phase(Path, false), outcome)
    {
      hide LoginVerdict, PathVerdict, Authenticated;
      ghost var m := |trace|;
      var reply := Exchange(call, Path);
      var verdict := PathVerdict(reply);
      if verdict.Error? {
        outcome := Raised(verdict.error);
      } else if verdict.Unauthorised? {
        var failure, _ := Authenticate(call);
        if failure.Some? {
          outcome := AuthFailed(failure.value);
        } else {
          reply := Exchange(call, Path);
          verdict := PathVerdict(reply);
          outcome := match verdict
                     case Error(e) => Raised(e)
                     case Unauthorised => StillUnauthorised
                     case Authorised => Returned;
          assert Conforms(trace, m + 4, |trace|, call, Phase(Path, true), outcome);
        }
        assert Conforms(trace, m + 2, |trace|, call, Phase(Login, true), outcome);
      } else {
        outcome := Returned;
      }
    }

    /** `_apply_get` and `_apply_post`: true when the write is reported as applied. */
    method Apply(ghost call: nat) returns (applied: bool, outcome: Outcome)
      requires Valid()
      modifies this
      ensures Valid()
      ensures applied <==> outcome == Returned || outcome == Raised(DisconnectedError)
      ensures outcome == Raised(DisconnectedError) ==> !initialized
      ensures old(trace) <= trace && |old(trace)| < |trace|
      ensures trace[|old(trace)|] == Sent(call, if old(initialized) then Path else Login)
      ensures var swallowed := outcome == Raised(DisconnectedError);
              var end := if swallowed then |trace| - 1 else |trace|;
              && Conforms(trace, |old(trace)|, end, call, First(old(initialized)), outcome)
              && EndsAs(trace, |old(trace)|, end, call, false, outcome)
              && GoesOn(trace, |old(trace)|, end, call, false)
              && (swallowed ==> trace[end] == Invalidated(call))
    {
      outcome := Call(call);
      applied := outcome == Returned;
      if outcome == Raised(DisconnectedError) {
        ghost var done := trace;
        InvalidateAuthentication(call);
        applied := true;
        ConformsFrame(done, trace, |old(trace)|, |done|, call, First(old(initialized)), outcome);
        OutcomeOfCall(trace, |old(trace)|, |done|, call, First(old(initialized)), outcome);
      }
    }

    /** `reboot`, and the mode switches: a write reported as applied ends the authentication. */
    method ApplyThenInvalidate(ghost call: nat) returns (applied: bool, outcome: Outcome)
      requires Valid()
      modifies this
      ensures Valid() && (applied ==> !initialized)
      ensures applied <==> outcome == Returned || outcome == Raised(DisconnectedError)
      ensures old(trace) <= trace && |old(trace)| < |trace|
      ensures trace[|old(trace)|] == Sent(call, if old(initialized) then Path else Login)
      ensures var invalidations := if outcome == Raised(DisconnectedError) then 2 else if applied then 1 else 0;
              var end := |trace| - invalidations;
              && |old(trace)| < end
              && EndsAs(trace, |old(trace)|, end, call, false, outcome)
              && GoesOn(trace, |old(trace)|, end, call, false)
              && (forall i :: end <= i < |trace| ==> trace[i] == Invalidated(call))
    {
      hide EndsAs, GoesOn;
      applied, outcome := Apply(call);
      if applied {
        ghost var applying, end := trace, if outcome == Raised(DisconnectedError) then |trace| - 1 else |trace|;
        InvalidateAuthentication(call);
        ConformsFrame(applying, trace, |old(trace)|, end, call, First(old(initialized)), outcome);
        OutcomeOfCall(trace, |old(trace)|, end, call, First(old(initialized)), outcome);
      }
    }

    /** An injected session is detached and never closed; the next call logs in on a session of its own. */
    method Disconnect(ghost call: nat) returns (disposal: Disposal)
      requires Valid()
      modifies this
      ensures Valid() && !initialized && session.None?
      ensures trace == old(trace) + [Closed(call)]
      ensures disposal == match old(session)
                          case None => Untouched
                          case Some(Injected) => DetachedSession
                          case Some(Own) => ClosedSession
    {
      disposal := Untouched;
      if session.Some? {
        disposal := if session.value == Injected then DetachedSession else ClosedSession;
        session := None;
      }
      initialized := false;
      Record(Closed(call));
    }
  }

  // ---------- what one call may do ----------

  /** How many exchanges a call in this phase has left at most. */
  function Budget(phase: Phase): nat {
    (if phase.retry then 0 else 2) + (if phase.request == Login then 2 else 1)
  }

  /** A call is a number of whole exchanges of its own, four at most. */
  lemma {:induction false} CallIsShort(h: seq<Event>, at: nat, end: nat, call: nat, phase: Phase, outcome: Outcome)
    requires end <= |h| && Conforms(h, at, end, call, phase, outcome)
    ensures (end - at) % 2 == 0 && at < end <= at + 2 * Budget(phase) <= at + 8
    ensures forall i :: at <= i < end ==> h[i].call == call
    decreases end - at
  {
    match OnReply(phase, h[at + 1].reply)
    case Finish(_) =>
    case Send(next) => CallIsShort(h, at + 2, end, call, next, outcome);
  }

  /**
   * A call sends its path at most twice, and the second time only right after an unauthorised reply
   * and a successful login.
   */
  lemma {:induction false} PathAtMostTwice(
    h: seq<Event>, at: nat, end: nat, call: nat, phase: Phase, outcome: Outcome, i: nat, k: nat)
    requires end <= |h| && Conforms(h, at, end, call, phase, outcome)
    requires at <= i < k < end && h[i] == Sent(call, Path) && h[k] == Sent(call, Path)
    ensures k == i + 4 && k + 2 == end
    ensures h[i + 1].Got? && h[i + 1].request == Path && PathVerdict(h[i + 1].reply) == Unauthorised
    ensures h[i + 3].Got? && h[i + 3].request == Login && LoginVerdict(h[i + 3].reply) == None
    decreases end - at
  {
    CallIsShort(h, at, end, call, phase, outcome);
    if i >= at + 2 {
      PathAtMostTwice(h, at + 2, end, call, OnReply(phase, h[at + 1].reply).phase, outcome, i, k);
    } else {
      assert i == at && k >= at + 2;
      var p2 := OnReply(phase, h[at + 1].reply).phase;
      assert p2 == Phase(Login, true) && k >= at + 4;
      var p3 := OnReply(p2, h[at + 3].reply).phase;
      assert p3 == Phase(Path, true) && Conforms(h, at + 4, end, call, p3, outcome);
    }
  }

  /**
   * When a call ends Returned or in a disconnect, its last exchange is its own path request, answered
   * as authorised or cut off.
   */
  lemma {:induction false} LastExchangeOfApplied(
    h: seq<Event>, at: nat, end: nat, call: nat, phase: Phase, outcome: Outcome)
    requires end <= |h| && Conforms(h, at, end, call, phase, outcome)
    requires outcome == Returned || outcome == Raised(DisconnectedError)
    ensures h[end - 1].Got? && h[end - 1].call == call && h[end - 1].request == Path
    ensures outcome == Returned ==> PathVerdict(h[end - 1].reply) == Authorised
    ensures outcome == Raised(DisconnectedError) ==> h[end - 1].reply == Disconnected
    decreases end - at
  {
    match OnReply(phase, h[at + 1].reply)
    case Finish(_) =>
    case Send(next) => LastExchangeOfApplied(h, at + 2, end, call, next, outcome);
  }

  /** A disconnect during login is an authentication failure, whatever was being done. */
  lemma {:induction false} LoginDisconnectFails(
    h: seq<Event>, at: nat, end: nat, call: nat, phase: Phase, outcome: Outcome, i: nat)
    requires end <= |h| && Conforms(h, at, end, call, phase, outcome)
    requires at <= i < end && h[i] == Got(call, Login, Disconnected)
    ensures outcome == AuthFailed(CannotConnect)
    decreases end - at
  {
    if i >= at + 2 {
      LoginDisconnectFails(h, at + 2, end, call, OnReply(phase, h[at + 1].reply).phase, outcome, i);
    }
  }
}
