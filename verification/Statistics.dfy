/** Traffic rates from 32-bit packet counters that wrap and that a restart sets back to zero. */
module Statistics {
  import opened Results

  const COUNTER_MODULUS: int := 0x1_0000_0000

  /** `int(2**32 * 0.9)` */
  const WRAP_THRESHOLD: int := 3865470566

  type counter = c: int | 0 <= c < COUNTER_MODULUS

  function CounterDelta(current: int, previous: int): int {
    if current >= previous then current - previous
    else if previous >= WRAP_THRESHOLD then COUNTER_MODULUS - previous + current
    else current
  }

  // ---------- one interval ----------

  /** The packets that went by between two samples: without a restart, or before and after the last one. */
  datatype Interval = Ran(sent: nat) | Restarted(before: nat, after: nat)

  function Sent(i: Interval): nat {
    match i
    case Ran(sent) => sent
    case Restarted(before, after) => before + after
  }

  /** What the switch's counter shows at the end of the interval. */
  function CounterAfter(previous: counter, i: Interval): counter {
    match i
    case Ran(sent) => (previous + sent) % COUNTER_MODULUS
    case Restarted(_, after) => after % COUNTER_MODULUS
  }

  /** The delta is never negative, whatever the two counters are. */
  lemma DeltaIsNonNegative(current: counter, previous: counter)
    ensures 0 <= CounterDelta(current, previous) < COUNTER_MODULUS
  {
  }

  /** The bound is tight: exactly up to it, 429496730 packets, is the delta right for every starting counter. */
  lemma DeltaIsExactWhen(sent: nat)
    ensures sent <= 429496730 <==>
            forall previous: counter :: CounterDelta(CounterAfter(previous, Ran(sent)), previous) == sent
  {
    if sent <= 429496730 {
      forall previous: counter
        ensures CounterDelta(CounterAfter(previous, Ran(sent)), previous) == sent
      {
        if previous + sent >= COUNTER_MODULUS {
          assert (previous + sent) % COUNTER_MODULUS == previous + sent - COUNTER_MODULUS;
        }
      }
    } else if sent < COUNTER_MODULUS {
      var previous: counter := WRAP_THRESHOLD - 1;
      if previous + sent >= COUNTER_MODULUS {
        assert (previous + sent) % COUNTER_MODULUS == previous + sent - COUNTER_MODULUS;
      }
      assert CounterDelta(CounterAfter(previous, Ran(sent)), previous) != sent;
    } else {
      var previous: counter := 0;
      DeltaIsNonNegative(CounterAfter(previous, Ran(sent)), previous);
      assert CounterDelta(CounterAfter(previous, Ran(sent)), previous) != sent;
    }
  }

  /** After a restart the delta exceeds the truth exactly when the drop is mistaken for a wrap. */
  lemma RestartOvercountsWhen(previous: counter, before: nat, after: counter)
    ensures CounterDelta(CounterAfter(previous, Restarted(before, after)), previous) > before + after <==>
            previous >= 3865470566 && after < previous && before < 0x1_0000_0000 - previous
  {
  }

  // ---------- the calculator ----------

  datatype PortStatistics = PortStatistics(
    number: int, txGood: int, txBad: int, rxGood: int, rxBad: int)

  datatype Rates = Rates(txPps: real, rxPps: real, txMbps: real, rxMbps: real)

  /** `{item.number: item for item in statistics}` */
  function ByNumber(statistics: seq<PortStatistics>): map<int, PortStatistics> {
    if statistics == [] then map[]
    else
      var n := |statistics| - 1;
      ByNumber(statistics[..n])[statistics[n].number := statistics[n]]
  }

  function RateOf(item: PortStatistics, previous: PortStatistics, elapsed: real, packetSize: int): Rates
    requires elapsed > 0.0
  {
    var tx := CounterDelta(item.txGood, previous.txGood) as real / elapsed;
    var rx := CounterDelta(item.rxGood, previous.rxGood) as real / elapsed;
    var bits := (packetSize * 8) as real;
    Rates(tx, rx, tx * bits / 1000000.0, rx * bits / 1000000.0)
  }

  datatype Memory = Memory(previous: map<int, PortStatistics>, time: Option<real>)

  /** The rates that a sample yields: one for each port that is also in the stored sample. */
  function RatesFor(m: Memory, current: map<int, PortStatistics>, time: real, packetSize: int): (r: map<int, Rates>)
    ensures forall n :: n in r <==>
              m.time.Some? && time - m.time.value > 0.0 && n in current && n in m.previous
    ensures forall n :: n in r ==> r[n] == RateOf(current[n], m.previous[n], time - m.time.value, packetSize)
  {
    if m.time.None? || time - m.time.value <= 0.0 then map[]
    else
      map n | n in current && n in m.previous :: RateOf(current[n], m.previous[n], time - m.time.value, packetSize)
  }

  /** Item i is the last of the list with its port's number. */
  ghost predicate LastAt(statistics: seq<PortStatistics>, port: int, i: nat) {
    && i < |statistics| && statistics[i].number == port
    && forall k :: i < k < |statistics| ==> statistics[k].number != port
  }

  /** The dictionary holds exactly the numbers that are listed, each with its last item. */
  lemma {:induction false} ByNumberMeaning(statistics: seq<PortStatistics>, port: int)
    ensures port in ByNumber(statistics) <==> exists i :: 0 <= i < |statistics| && statistics[i].number == port
    ensures port in ByNumber(statistics) ==>
              exists i: nat :: LastAt(statistics, port, i) && ByNumber(statistics)[port] == statistics[i]
    ensures forall i: nat :: LastAt(statistics, port, i) ==>
              port in ByNumber(statistics) && ByNumber(statistics)[port] == statistics[i]
  {
    if statistics != [] {
      var n := |statistics| - 1;
      var below := statistics[..n];
      ByNumberMeaning(below, port);
      if statistics[n].number == port {
        assert LastAt(statistics, port, n);
      } else {
        assert forall i: nat :: LastAt(statistics, port, i) <==> LastAt(below, port, i);
        if i :| 0 <= i < |statistics| && statistics[i].number == port {
          assert below[i].number == port;
        }
      }
    }
  }

  /** The loop over the current sample, whose keys are the port numbers of the statistics. */
  method ComputeRates(
    statistics: seq<PortStatistics>, current: map<int, PortStatistics>, previous: map<int, PortStatistics>,
    elapsed: real, packetSize: int)
    returns (rates: map<int, Rates>)
    requires elapsed > 0.0 && current == ByNumber(statistics)
    ensures forall n :: n in rates <==> n in current && n in previous
    ensures forall n :: n in rates ==> rates[n] == RateOf(current[n], previous[n], elapsed, packetSize)
  {
    hide RateOf;
    rates := map[];
    for i := 0 to |statistics|
      invariant forall n :: n in rates <==> n in ByNumber(statistics[..i]) && n in previous
      invariant forall n :: n in rates ==>
                  n in current && rates[n] == RateOf(current[n], previous[n], elapsed, packetSize)
    {
      assert statistics[..i + 1][..i] == statistics[..i];
      var number := statistics[i].number;
      ByNumberMeaning(statistics, number);
      if number in previous {
        rates := rates[number := RateOf(current[number], previous[number], elapsed, packetSize)];
      }
    }
    assert statistics[..|statistics|] == statistics;
  }

  class RateCalculator {
    const packetSize: int
    var previous: map<int, PortStatistics>
    var previousTime: Option<real>

    constructor (packetSize: int)
      ensures this.packetSize == packetSize && previous == map[] && previousTime == None
    {
      this.packetSize := packetSize;
      previous := map[];
      previousTime := None;
    }

    method Update(statistics: seq<PortStatistics>, time: real) returns (rates: map<int, Rates>)
      modifies this
      ensures rates == RatesFor(Memory(old(previous), old(previousTime)), ByNumber(statistics), time, packetSize)
      ensures previous == ByNumber(statistics) && previousTime == Some(time)
    {
      hide RateOf;
      var current: map<int, PortStatistics> := map[];
      for i := 0 to |statistics|
        invariant current == ByNumber(statistics[..i])
      {
        assert statistics[..i + 1][..i] == statistics[..i];
        current := current[statistics[i].number := statistics[i]];
      }
      assert statistics[..|statistics|] == statistics;
      rates := map[];
      if previousTime.Some? && time - previousTime.value > 0.0 {
        rates := ComputeRates(statistics, current, previous, time - previousTime.value, packetSize);
      }
      ghost var expected := RatesFor(Memory(previous, previousTime), current, time, packetSize);
      assert forall n :: n in rates ==> n in expected;
      assert forall n :: n in expected ==> n in rates;
      assert forall n :: n in rates ==> rates[n] == expected[n];
      assert rates == expected;
      previous := current;
      previousTime := Some(time);
    }
  }

  // ---------- whole runs ----------

  datatype Sample = Sample(statistics: seq<PortStatistics>, time: real)

  /** What the calculator remembers of the last sample it was given. */
  function MemoryOf(last: Option<Sample>): Memory {
    match last
    case None => Memory(map[], None)
    case Some(sample) => Memory(ByNumber(sample.statistics), Some(sample.time))
  }

  /** A poll that failed and skipped the calculator, or a sample with what really happened since the stored one. */
  datatype Poll = Missed | Taken(sample: Sample, since: Interval)

  datatype Direction = Tx | Rx

  function Counter(item: PortStatistics, d: Direction): int {
    if d == Tx then item.txGood else item.rxGood
  }

  function Pps(r: Rates, d: Direction): real {
    if d == Tx then r.txPps else r.rxPps
  }

  function AfterPoll(last: Option<Sample>, poll: Poll): Option<Sample> {
    if poll.Missed? then last else Some(poll.sample)
  }

  /** Rate times elapsed time of one poll, for one port. */
  function Contribution(last: Option<Sample>, poll: Poll, port: int, d: Direction, packetSize: int): real {
    if poll.Missed? || last.None? then 0.0
    else
      var rates := RatesFor(MemoryOf(last), ByNumber(poll.sample.statistics), poll.sample.time, packetSize);
      if port in rates then Pps(rates[port], d) * (poll.sample.time - last.value.time) else 0.0
  }

  function Accounted(last: Option<Sample>, polls: seq<Poll>, port: int, d: Direction, packetSize: int): real
    decreases |polls|
  {
    if polls == [] then 0.0
    else
      Contribution(last, polls[0], port, d, packetSize) +
      Accounted(AfterPoll(last, polls[0]), polls[1..], port, d, packetSize)
  }

  /** The packets that really went by between the first and the last stored sample. */
  function Truth(last: Option<Sample>, polls: seq<Poll>): nat
    decreases |polls|
  {
    if polls == [] then 0
    else
      (if polls[0].Taken? && last.Some? then Sent(polls[0].since) else 0) +
      Truth(AfterPoll(last, polls[0]), polls[1..])
  }

  /** The list shows this counter for the port: that of the last item with the port's number. */
  ghost predicate Shows(statistics: seq<PortStatistics>, port: int, d: Direction, c: int) {
    exists i: nat :: LastAt(statistics, port, i) && Counter(statistics[i], d) == c
  }

  /** No more packets than the bound, or a restart from a counter below the wrap threshold. */
  predicate Bounded(before: counter, since: Interval) {
    match since
    case Ran(sent) => sent <= 429496730
    case Restarted(_, _) => before < 3865470566
  }

  /** The port is in the sample; if one was stored, time has passed, and the counter shows what happened. */
  ghost predicate Faithful(last: Option<Sample>, poll: Poll, port: int, d: Direction) {
    poll.Taken? ==>
      exists c: counter ::
        && Shows(poll.sample.statistics, port, d, c)
        && (last.Some? ==>
              && poll.sample.time > last.value.time
              && exists b: counter ::
                   && Shows(last.value.statistics, port, d, b)
                   && c == CounterAfter(b, poll.since) && Bounded(b, poll.since))
  }

  ghost predicate FaithfulRun(last: Option<Sample>, polls: seq<Poll>, port: int, d: Direction)
    decreases |polls|
  {
    polls != [] ==>
      Faithful(last, polls[0], port, d) && FaithfulRun(AfterPoll(last, polls[0]), polls[1..], port, d)
  }

  lemma Undivide(delta: real, elapsed: real)
    requires elapsed > 0.0
    ensures delta / elapsed * elapsed == delta
  {
  }

  lemma PpsTimesElapsed(item: PortStatistics, previous: PortStatistics, elapsed: real, packetSize: int, d: Direction)
    requires elapsed > 0.0
    ensures Pps(RateOf(item, previous, elapsed, packetSize), d) * elapsed ==
            CounterDelta(Counter(item, d), Counter(previous, d)) as real
  {
    var delta := CounterDelta(Counter(item, d), Counter(previous, d)) as real;
    Undivide(delta, elapsed);
    assert Pps(RateOf(item, previous, elapsed, packetSize), d) == delta / elapsed;
  }

  /** The megabit estimates are the packet rates times the assumed packet size in bits. */
  lemma MbpsIsBits(item: PortStatistics, previous: PortStatistics, elapsed: real, packetSize: int)
    requires elapsed > 0.0
    ensures var r := RateOf(item, previous, elapsed, packetSize);
            && r.txMbps * 1000000.0 == r.txPps * (8 * packetSize) as real
            && r.rxMbps * 1000000.0 == r.rxPps * (8 * packetSize) as real
  {
    var bits := (packetSize * 8) as real;
    var tx := CounterDelta(item.txGood, previous.txGood) as real / elapsed;
    var rx := CounterDelta(item.rxGood, previous.rxGood) as real / elapsed;
    Undivide(tx * bits, 1000000.0);
    Undivide(rx * bits, 1000000.0);
  }

  lemma DeltaOfInterval(before: counter, since: Interval)
    requires Bounded(before, since)
    ensures 0 <= CounterDelta(CounterAfter(before, since), before) <= Sent(since)
    ensures since.Ran? ==> CounterDelta(CounterAfter(before, since), before) == Sent(since)
  {
    match since
    case Ran(sent) => DeltaIsExactWhen(sent);
    case Restarted(_, after) => assert after % COUNTER_MODULUS <= after;
  }

  lemma ShownCounter(statistics: seq<PortStatistics>, port: int, d: Direction, c: int)
    requires Shows(statistics, port, d, c)
    ensures port in ByNumber(statistics) && Counter(ByNumber(statistics)[port], d) == c
    ensures exists i :: 0 <= i < |statistics| && statistics[i].number == port
  {
    ByNumberMeaning(statistics, port);
  }

  lemma RateFromMemory(
    m: Memory, current: map<int, PortStatistics>, time: real, packetSize: int, port: int, d: Direction)
    requires m.time.Some? && time > m.time.value && port in current && port in m.previous
    ensures var rates := RatesFor(m, current, time, packetSize);
            && port in rates
            && Pps(rates[port], d) * (time - m.time.value) ==
               CounterDelta(Counter(current[port], d), Counter(m.previous[port], d)) as real
  {
    hide RateOf, Pps, Counter, CounterDelta;
    PpsTimesElapsed(current[port], m.previous[port], time - m.time.value, packetSize, d);
  }

  lemma RateIsDelta(last: Sample, now: Sample, packetSize: int, port: int, d: Direction, c: int, b: int)
    requires now.time > last.time
    requires Shows(now.statistics, port, d, c) && Shows(last.statistics, port, d, b)
    ensures var rates := RatesFor(MemoryOf(Some(last)), ByNumber(now.statistics), now.time, packetSize);
            port in rates && Pps(rates[port], d) * (now.time - last.time) == CounterDelta(c, b) as real
  {
    hide RatesFor, CounterDelta, ByNumber, Shows, Counter, Pps;
    ShownCounter(now.statistics, port, d, c);
    ShownCounter(last.statistics, port, d, b);
    RateFromMemory(MemoryOf(Some(last)), ByNumber(now.statistics), now.time, packetSize, port, d);
  }

  /**
   * The rates of a sample, in terms of the two lists: there is one for exactly the ports of both, when time
   * has passed, and rate times elapsed time is the delta of the counters that the lists show.
   */
  lemma RatesMeaning(last: Sample, now: Sample, packetSize: int, port: int)
    ensures var rates := RatesFor(MemoryOf(Some(last)), ByNumber(now.statistics), now.time, packetSize);
            && (port in rates <==>
                  && now.time > last.time
                  && (exists i :: 0 <= i < |now.statistics| && now.statistics[i].number == port)
                  && (exists i :: 0 <= i < |last.statistics| && last.statistics[i].number == port))
            && (port in rates ==>
                  forall d, c, b :: Shows(now.statistics, port, d, c) && Shows(last.statistics, port, d, b) ==>
                    Pps(rates[port], d) * (now.time - last.time) == CounterDelta(c, b) as real)
  {
    hide RateOf, CounterDelta, ByNumber, LastAt, Pps, Shows;
    ByNumberMeaning(now.statistics, port);
    ByNumberMeaning(last.statistics, port);
    var rates := RatesFor(MemoryOf(Some(last)), ByNumber(now.statistics), now.time, packetSize);
    if port in rates {
      forall d, c, b | Shows(now.statistics, port, d, c) && Shows(last.statistics, port, d, b)
        ensures Pps(rates[port], d) * (now.time - last.time) == CounterDelta(c, b) as real
      {
        RateIsDelta(last, now, packetSize, port, d, c, b);
      }
    }
  }

  lemma ContributionIsDelta(
    last: Sample, poll: Poll, port: int, d: Direction, packetSize: int, c: int, b: int)
    requires poll.Taken? && poll.sample.time > last.time
    requires Shows(poll.sample.statistics, port, d, c) && Shows(last.statistics, port, d, b)
    ensures Contribution(Some(last), poll, port, d, packetSize) == CounterDelta(c, b) as real
  {
    hide RatesFor, MemoryOf, ByNumber, CounterDelta, Pps, Shows;
    RateIsDelta(last, poll.sample, packetSize, port, d, c, b);
  }

  lemma ContributionOfPoll(last: Sample, poll: Poll, port: int, d: Direction, packetSize: int)
    requires Faithful(Some(last), poll, port, d) && poll.Taken?
    ensures 0.0 <= Contribution(Some(last), poll, port, d, packetSize) <= Sent(poll.since) as real
    ensures poll.since.Ran? ==> Contribution(Some(last), poll, port, d, packetSize) == Sent(poll.since) as real
  {
    hide Contribution, CounterDelta, CounterAfter, Shows;
    var c: counter, b: counter :|
      && Shows(poll.sample.statistics, port, d, c) && Shows(last.statistics, port, d, b)
      && c == CounterAfter(b, poll.since) && Bounded(b, poll.since);
    ContributionIsDelta(last, poll, port, d, packetSize, c, b);
    DeltaOfInterval(b, poll.since);
  }

  /**
   * Over any run of polls, failed ones included, the sum of rate times elapsed time never exceeds the
   * packets that really went by, and equals them when no restart happened, across any number of wraps.
   */
  lemma {:induction false} RunConservesPackets(
    last: Option<Sample>, polls: seq<Poll>, port: int, d: Direction, packetSize: int)
    requires FaithfulRun(last, polls, port, d)
    ensures 0.0 <= Accounted(last, polls, port, d, packetSize) <= Truth(last, polls) as real
    ensures (forall i :: 0 <= i < |polls| && polls[i].Taken? ==> polls[i].since.Ran?) ==>
              Accounted(last, polls, port, d, packetSize) == Truth(last, polls) as real
    decreases |polls|
  {
    hide Faithful, Contribution;
    if polls != [] {
      var poll, rest := polls[0], polls[1..];
      RunConservesPackets(AfterPoll(last, poll), rest, port, d, packetSize);
      if poll.Taken? && last.Some? {
        ContributionOfPoll(last.value, poll, port, d, packetSize);
      } else {
        NoContribution(last, poll, port, d, packetSize);
      }
      assert Truth(last, polls) ==
             (if poll.Taken? && last.Some? then Sent(poll.since) else 0) + Truth(AfterPoll(last, poll), rest);
      if forall i :: 0 <= i < |polls| && polls[i].Taken? ==> polls[i].since.Ran? {
        assert forall i | 0 <= i < |rest| :: rest[i] == polls[i + 1];
      }
    }
  }

  lemma NoContribution(last: Option<Sample>, poll: Poll, port: int, d: Direction, packetSize: int)
    requires poll.Missed? || last.None?
    ensures Contribution(last, poll, port, d, packetSize) == 0.0
  {
  }
}
