/** The coordinator's optional features: a tri-state latch over poll results, and the statistics poller. */
module Coordinator {
  import opened Results
  import Statistics

  datatype ApiError = AttributeError | DataFormatProblem | ApiCallProblem(code: Option<int>) | OtherProblem

  datatype ApiReply<+S> = Reading(state: S) | Failure(error: ApiError)

  /** An optional API surface that the device does not expose. */
  predicate IsUnsupportedError(e: ApiError) {
    e.AttributeError? || e.DataFormatProblem? || (e.ApiCallProblem? && e.code == Some(404))
  }

  /** The values None, False and True of a support flag. */
  datatype Support = Unknown | No | Yes

  datatype Latch<+S> = Latch(supported: Support, state: Option<S>)

  /** One cycle; the API is asked unless the feature is known to be missing. */
  function Poll<S>(l: Latch<S>, r: ApiReply<S>): Latch<S> {
    if l.supported == No then l
    else
      match r
      case Reading(s) => Latch(Yes, Some(s))
      case Failure(e) =>
        if IsUnsupportedError(e) && l.supported == Unknown then Latch(No, None) else Latch(l.supported, None)
  }

  /** A poll-only feature: LAG, MTU VLAN, port VLAN, 802.1Q VLAN and PVID all run this code. */
  class Feature<S> {
    var supported: Support
    var state: Option<S>

    constructor ()
      ensures Value() == Latch(Unknown, None)
    {
      supported := Unknown;
      state := None;
    }

    function Value(): Latch<S>
      reads this
    {
      Latch(supported, state)
    }

    /** r is what the API answers if it is asked. */
    method Update(r: ApiReply<S>) returns (asked: bool)
      modifies this
      ensures Value() == Poll(old(Value()), r)
      ensures asked <==> old(supported) != No
    {
      if supported == No {
        return false;
      }
      asked := true;
      if r.Failure? {
        state := None;
        if IsUnsupportedError(r.error) && supported == Unknown {
          supported := No;
        }
        return;
      }
      state := Some(r.state);
      supported := Yes;
    }
  }

  // ---------- whole histories ----------

  /** The latch after n cycles. */
  function History<S>(rs: seq<ApiReply<S>>, n: nat): Latch<S>
    requires n <= |rs|
  {
    if n == 0 then Latch(Unknown, None) else Poll(History(rs, n - 1), rs[n - 1])
  }

  /** The reply shows that the device lacks the feature: a missing member, an unreadable page, or HTTP 404. */
  predicate Absent<S>(r: ApiReply<S>) {
    || r == Failure(AttributeError)
    || r == Failure(DataFormatProblem)
    || r == Failure(ApiCallProblem(Some(404)))
  }

  ghost predicate NoSuccess<S>(rs: seq<ApiReply<S>>, n: nat)
    requires n <= |rs|
  {
    forall k :: 0 <= k < n ==> !rs[k].Reading?
  }

  ghost predicate NoRefusal<S>(rs: seq<ApiReply<S>>, n: nat)
    requires n <= |rs|
  {
    forall k :: 0 <= k < n ==> !Absent(rs[k])
  }

  /** The first n replies held an unsupported error before any success. */
  ghost predicate RefusedFirst<S>(rs: seq<ApiReply<S>>, n: nat)
    requires n <= |rs|
  {
    exists i :: 0 <= i < n && Absent(rs[i]) && NoSuccess(rs, i)
  }

  /** The first n replies held a success before any unsupported error. */
  ghost predicate SucceededFirst<S>(rs: seq<ApiReply<S>>, n: nat)
    requires n <= |rs|
  {
    exists i :: 0 <= i < n && rs[i].Reading? && NoRefusal(rs, i)
  }

  lemma ExtendFirst<S>(rs: seq<ApiReply<S>>, n: nat)
    requires 0 < n <= |rs|
    ensures RefusedFirst(rs, n) <==> RefusedFirst(rs, n - 1) || (Absent(rs[n - 1]) && NoSuccess(rs, n - 1))
    ensures SucceededFirst(rs, n) <==> SucceededFirst(rs, n - 1) || (rs[n - 1].Reading? && NoRefusal(rs, n - 1))
    ensures RefusedFirst(rs, n - 1) ==> !NoRefusal(rs, n - 1)
    ensures SucceededFirst(rs, n - 1) ==> !NoSuccess(rs, n - 1)
    ensures NoSuccess(rs, n) <==> NoSuccess(rs, n - 1) && !rs[n - 1].Reading?
    ensures NoRefusal(rs, n) <==> NoRefusal(rs, n - 1) && !Absent(rs[n - 1])
  {
  }

  /**
   * Support is False exactly when an unsupported error came before any success, True exactly when a
   * success came first, and otherwise unknown; the cached state is that of the latest poll made.
   */
  lemma {:induction false} LatchMeaning<S>(rs: seq<ApiReply<S>>, n: nat)
    requires n <= |rs|
    ensures History(rs, n).supported == No <==> RefusedFirst(rs, n)
    ensures History(rs, n).supported == Yes <==> SucceededFirst(rs, n)
    ensures History(rs, n).supported == Unknown <==> NoSuccess(rs, n) && NoRefusal(rs, n)
    ensures History(rs, n).state ==
            if n > 0 && !RefusedFirst(rs, n) && rs[n - 1].Reading? then Some(rs[n - 1].state) else None
  {
    if n > 0 {
      LatchMeaning(rs, n - 1);
      ExtendFirst(rs, n);
      OneStep(rs, n);
      hide RefusedFirst, SucceededFirst, NoSuccess, NoRefusal, Poll, Absent;
    }
  }

  lemma OneStep<S>(rs: seq<ApiReply<S>>, n: nat)
    requires 0 < n <= |rs|
    ensures var l, r := History(rs, n - 1), rs[n - 1];
            History(rs, n) ==
            if l.supported == No then l
            else if r.Reading? then Latch(Yes, Some(r.state))
            else if Absent(r) && l.supported == Unknown then Latch(No, None)
            else Latch(l.supported, None)
  {
  }

  /** A settled latch never changes again: False is permanent, and True never reverts. */
  lemma {:induction false} LatchIsPermanent<S>(rs: seq<ApiReply<S>>, m: nat, n: nat)
    requires m <= n <= |rs| && History(rs, m).supported != Unknown
    ensures History(rs, n).supported == History(rs, m).supported
    ensures History(rs, m).supported == No ==> History(rs, n) == History(rs, m)
    decreases n
  {
    if m < n {
      LatchIsPermanent(rs, m, n - 1);
      OneStep(rs, n);
    }
  }

  /** The number of the first n cycles in which the API was asked. */
  function Asked<S>(rs: seq<ApiReply<S>>, n: nat): nat
    requires n <= |rs|
  {
    if n == 0 then 0 else Asked(rs, n - 1) + if History(rs, n - 1).supported == No then 0 else 1
  }

  /** Once support is False no further poll is made; until then every cycle polls. */
  lemma {:induction false} RefusalStopsPolling<S>(rs: seq<ApiReply<S>>, m: nat, n: nat)
    requires m <= n <= |rs|
    ensures History(rs, m).supported == No ==> Asked(rs, n) == Asked(rs, m)
    ensures History(rs, n).supported != No ==> Asked(rs, n) == n
    decreases n
  {
    if m < n {
      RefusalStopsPolling(rs, m, n - 1);
      if History(rs, m).supported == No {
        LatchIsPermanent(rs, m, n - 1);
      }
    } else if n > 0 {
      RefusalStopsPolling(rs, n - 1, n - 1);
    }
  }

  // ---------- packet statistics ----------

  class StatisticsPoller {
    var supported: Support
    var statistics: seq<Statistics.PortStatistics>
    var rates: map<int, Statistics.Rates>
    const calculator: Statistics.RateCalculator

    constructor (packetSize: int)
      ensures supported == Unknown && statistics == [] && rates == map[] && fresh(calculator)
      ensures calculator.packetSize == packetSize && Memory() == Statistics.Memory(map[], None)
    {
      supported := Unknown;
      statistics := [];
      rates := map[];
      calculator := new Statistics.RateCalculator(packetSize);
    }

    function Memory(): Statistics.Memory
      reads calculator
    {
      Statistics.Memory(calculator.previous, calculator.previousTime)
    }

    /** A failed poll drops the published rates but leaves the stored sample; a good one feeds the calculator. */
    method Update(r: ApiReply<seq<Statistics.PortStatistics>>, now: real) returns (asked: bool)
      modifies this, calculator
      ensures asked <==> old(supported) != No
      ensures supported == Poll(Latch(old(supported), None), r).supported
      ensures !asked ==> statistics == old(statistics) && rates == old(rates) && Memory() == old(Memory())
      ensures asked && r.Failure? ==> statistics == [] && rates == map[] && Memory() == old(Memory())
      ensures asked && r.Reading? ==>
                && statistics == r.state
                && rates == Statistics.RatesFor(old(Memory()), Statistics.ByNumber(r.state), now, calculator.packetSize)
                && Memory() == Statistics.Memory(Statistics.ByNumber(r.state), Some(now))
    {
      if supported == No {
        return false;
      }
      asked := true;
      if r.Failure? {
        if IsUnsupportedError(r.error) && supported == Unknown {
          supported := No;
        }
        statistics := [];
        rates := map[];
        return;
      }
      supported := Yes;
      statistics := r.state;
      rates := calculator.Update(r.state, now);
    }
  }
}
