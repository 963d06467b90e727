/** Port-based QoS priorities: the switch's copy and the coordinator's cached copy. */
module Qos {
  import opened Results
  import opened Ports

  datatype Page = Page(portNumber: int, qosMode: int, pPri: seq<int>, pTrunk: seq<int>)

  datatype QosMode = PortBased | Ieee8021p | DscpIeee8021p

  datatype QosState = QosState(mode: QosMode, priorities: seq<int>, trunkGroups: seq<int>)

  /** `port_queue` and the ports of the `sel_p` fields */
  datatype QosForm = QosForm(portQueue: int, sel: seq<int>)

  predicate Readable(page: Page) {
    && page.portNumber >= 1 && 0 <= page.qosMode <= 2
    && |page.pPri| >= page.portNumber && |page.pTrunk| >= page.portNumber
  }

  function GetQos(page: Page): (r: Result<QosState>)
    ensures r.Ok? <==> Readable(page)
    ensures r.Err? ==> r == Err(DataFormatError)
    ensures r.Ok? ==> |r.value.priorities| == |r.value.trunkGroups| == page.portNumber
    ensures r.Ok? ==>
              && (r.value.mode == PortBased <==> page.qosMode == 0)
              && (r.value.mode == Ieee8021p <==> page.qosMode == 1)
              && (r.value.mode == DscpIeee8021p <==> page.qosMode == 2)
              && forall i :: 0 <= i < page.portNumber ==>
                   r.value.priorities[i] == page.pPri[i] && r.value.trunkGroups[i] == page.pTrunk[i]
  {
    if page.portNumber < 1 then Err(DataFormatError)
    else if page.qosMode < 0 || page.qosMode > 2 then Err(DataFormatError)
    else if |page.pPri| < page.portNumber then Err(DataFormatError)
    else if |page.pTrunk| < page.portNumber then Err(DataFormatError)
    else
      var mode := if page.qosMode == 0 then PortBased else if page.qosMode == 1 then Ieee8021p else DscpIeee8021p;
      Ok(QosState(mode, page.pPri[..page.portNumber], page.pTrunk[..page.portNumber]))
  }

  function PlanPriority(state: QosState, port: int, priority: int): (r: Result<QosForm>) {
    if state.mode != PortBased then Refuse(NotPortBased)
    else if priority < 1 || priority > 4 then Refuse(PriorityOutOfRange)
    else
      var ports :- PortsForTrunk(port, state.trunkGroups);
      Ok(QosForm(priority - 1, ports))
  }

  /** The switch numbers its queues from 0 in the form and from 1 in the page. */
  function Submit(page: Page, form: QosForm): (r: Page)
    requires Readable(page)
    ensures Readable(r)
  {
    page.(pPri := seq(|page.pPri|, i requires 0 <= i < |page.pPri| =>
                        if i < page.portNumber && i + 1 in form.sel then form.portQueue + 1 else page.pPri[i]))
  }

  function TrySetPriority(page: Page, port: int, priority: int): Result<Page> {
    var state :- GetQos(page);
    var form :- PlanPriority(state, port, priority);
    Ok(Submit(page, form))
  }

  class QosSwitch {
    var page: Page

    constructor (page: Page)
      ensures this.page == page
    {
      this.page := page;
    }

    method Receive(form: QosForm)
      requires Readable(page)
      modifies this
      ensures page == Submit(old(page), form)
    {
      page := Submit(page, form);
    }
  }

  method SetQosPriority(sw: QosSwitch, port: int, priority: int) returns (r: Result<()>)
    modifies sw
    ensures match r
            case Ok(_) => TrySetPriority(old(sw.page), port, priority) == Ok(sw.page)
            case Err(e) => TrySetPriority(old(sw.page), port, priority) == Err(e) && sw.page == old(sw.page)
  {
    var state := GetQos(sw.page);
    if state.Err? {
      return Err(state.error);
    }
    var form := PlanPriority(state.value, port, priority);
    if form.Err? {
      return Err(form.error);
    }
    sw.Receive(form.value);
    r := Ok(());
  }

  // ---------- the coordinator's cache ----------

  /** The entries that the coordinator's loop rewrites for a port. */
  predicate Touched(trunk: seq<int>, port: int, i: int)
    requires 1 <= port <= |trunk| && 0 <= i < |trunk|
  {
    i + 1 == port || (trunk[port - 1] > 0 && trunk[i] == trunk[port - 1])
  }

  function CacheAfter(priorities: seq<int>, trunk: seq<int>, port: int, priority: int): (r: seq<int>)
    requires |priorities| == |trunk|
    ensures |r| == |priorities|
  {
    if 1 <= port <= |priorities| then
      seq(|priorities|, i requires 0 <= i < |priorities| =>
            if Touched(trunk, port, i) then priority else priorities[i])
    else priorities
  }

  /** The cached QosState of the coordinator; its two lists have one entry a port. */
  class QosCache {
    const priorities: array<int>
    const trunkGroups: seq<int>

    constructor (state: QosState)
      requires |state.priorities| == |state.trunkGroups|
      ensures Valid() && fresh(priorities)
      ensures priorities[..] == state.priorities && trunkGroups == state.trunkGroups
    {
      var n := |state.priorities|;
      var copy := new int[n](i requires 0 <= i < n => state.priorities[i]);
      priorities := copy;
      trunkGroups := state.trunkGroups;
      new;
      assert priorities[..] == state.priorities;
    }

    predicate Valid() {
      priorities.Length == |trunkGroups|
    }

    /** The in-place loop that follows an accepted write. */
    method Refresh(port: int, priority: int)
      requires Valid()
      modifies priorities
      ensures priorities[..] == CacheAfter(old(priorities[..]), trunkGroups, port, priority)
    {
      if 1 <= port <= priorities.Length {
        var group := trunkGroups[port - 1];
        for index := 0 to |trunkGroups|
          invariant forall i :: 0 <= i < index ==>
                      priorities[i] == if Touched(trunkGroups, port, i) then priority else old(priorities[i])
          invariant forall i :: index <= i < priorities.Length ==> priorities[i] == old(priorities[i])
        {
          if index + 1 == port || (group > 0 && trunkGroups[index] == group) {
            priorities[index] := priority;
          }
        }
      }
    }
  }

  /** The write, then the refresh of the cache if there is one; a refused write leaves the cache alone. */
  method AsyncSetQosPriority(sw: QosSwitch, cache: QosCache?, port: int, priority: int) returns (r: Result<()>)
    requires cache != null ==> cache.Valid()
    modifies sw, if cache != null then {cache.priorities} else {}
    ensures r.Ok? ==> TrySetPriority(old(sw.page), port, priority) == Ok(sw.page)
    ensures r.Err? ==> TrySetPriority(old(sw.page), port, priority) == Err(r.error) && sw.page == old(sw.page)
    ensures cache != null ==>
              cache.priorities[..] ==
              if r.Ok? then CacheAfter(old(cache.priorities[..]), cache.trunkGroups, port, priority)
              else old(cache.priorities[..])
  {
    r := SetQosPriority(sw, port, priority);
    if r.Ok? && cache != null {
      cache.Refresh(port, priority);
    }
  }

  // ---------- what a caller gets ----------

  lemma PriorityIsAcceptedWhen(state: QosState, port: int, priority: int)
    ensures PlanPriority(state, port, priority).Ok? <==>
            state.mode == PortBased && 1 <= priority <= 4 && 1 <= port <= |state.trunkGroups|
  {
    PortsForTrunkMembers(port, state.trunkGroups);
  }

  /** The form of an accepted call: the queue counted from 0, and the port with the ports of its non-zero group. */
  lemma PriorityForm(state: QosState, port: int, priority: int)
    requires PlanPriority(state, port, priority).Ok?
    ensures var form := PlanPriority(state, port, priority).value;
            && form.portQueue == priority - 1 && 1 <= port <= |state.trunkGroups| && StrictlySorted(form.sel)
            && forall p :: p in form.sel <==>
                           p == port || (1 <= p <= |state.trunkGroups| && state.trunkGroups[port - 1] != 0 &&
                                         state.trunkGroups[p - 1] == state.trunkGroups[port - 1])
  {
    PortsForTrunkMembers(port, state.trunkGroups);
  }

  /** A refusal names the first check that fails, in the order of the source. */
  lemma RefusedPriority(state: QosState, port: int, priority: int)
    requires PlanPriority(state, port, priority).Err?
    ensures PlanPriority(state, port, priority).error.ActionError?
    ensures match PlanPriority(state, port, priority).error.refusal
            case NotPortBased => state.mode != PortBased
            case PriorityOutOfRange => state.mode == PortBased && !(1 <= priority <= 4)
            case PortsOutOfRange(invalid) =>
              && state.mode == PortBased && 1 <= priority <= 4
              && !(1 <= port <= |state.trunkGroups|) && forall p :: p in invalid <==> p == port
            case _ => false
  {
    PortsForTrunkMembers(port, state.trunkGroups);
    if !(1 <= port <= |state.trunkGroups|) {
      assert port in [port];
      RefusedPorts([port], |state.trunkGroups|, false);
    }
  }

  /** A fresh read after an accepted write: the port and all ports of its non-zero group changed, no other did. */
  lemma SetPriorityThenRead(page: Page, port: int, priority: int)
    requires TrySetPriority(page, port, priority).Ok?
    ensures Readable(page) && 1 <= port <= page.portNumber
    ensures var before := GetQos(page).value;
            && GetQos(TrySetPriority(page, port, priority).value).Ok?
            && var after := GetQos(TrySetPriority(page, port, priority).value).value;
            && after == before.(priorities := after.priorities)
            && |after.priorities| == |before.priorities|
            && forall i :: 0 <= i < |after.priorities| ==>
                 after.priorities[i] ==
                 if i + 1 == port || (before.trunkGroups[port - 1] != 0 &&
                                      before.trunkGroups[i] == before.trunkGroups[port - 1])
                 then priority else before.priorities[i]
  {
    PriorityIsAcceptedWhen(GetQos(page).value, port, priority);
    PortsForTrunkMembers(port, GetQos(page).value.trunkGroups);
  }

  /**
   * A cache that equals the switch still equals a fresh read after an accepted write, exactly when the
   * port's group is not negative or every port of that negative group already had the priority.
   */
  lemma CacheMatchesFreshRead(page: Page, port: int, priority: int)
    requires TrySetPriority(page, port, priority).Ok?
    ensures Readable(page) && 1 <= port <= page.portNumber
    ensures GetQos(TrySetPriority(page, port, priority).value).Ok?
    ensures var before := GetQos(page).value;
            CacheAfter(before.priorities, before.trunkGroups, port, priority) ==
            GetQos(TrySetPriority(page, port, priority).value).value.priorities <==>
            || before.trunkGroups[port - 1] >= 0
            || forall i :: 0 <= i < |before.trunkGroups| && i + 1 != port &&
                           before.trunkGroups[i] == before.trunkGroups[port - 1] ==>
                             before.priorities[i] == priority
  {
    SetPriorityThenRead(page, port, priority);
    var before := GetQos(page).value;
    var cached := CacheAfter(before.priorities, before.trunkGroups, port, priority);
    var reread := GetQos(TrySetPriority(page, port, priority).value).value.priorities;
    var group := before.trunkGroups[port - 1];
    forall i | 0 <= i < |cached|
      ensures cached[i] == reread[i] <==>
              group >= 0 || i + 1 == port || before.trunkGroups[i] != group || before.priorities[i] == priority
    {
    }
    if forall i :: 0 <= i < |cached| ==> cached[i] == reread[i] {
      assert cached == reread;
    }
  }

  /** The coordinator's loop touches exactly the expansion of the port, whatever the group numbers. */
  lemma TouchedIsExpansion(trunk: seq<int>, port: int, i: nat)
    requires 1 <= port <= |trunk| && i < |trunk|
    ensures ExpandTrunkPorts([port], trunk).Ok?
    ensures Touched(trunk, port, i) <==> i + 1 in ExpandTrunkPorts([port], trunk).value
  {
    assert port in [port];
    ExpandMembers([port], trunk, i + 1);
    assert SameLag(port, i + 1, trunk) <==> trunk[port - 1] > 0 && trunk[i] == trunk[port - 1];
  }

  /** Writes and refreshes in step, from a cache that equals the switch. */
  datatype PriorityOp = PriorityOp(port: int, priority: int)

  function Step(page: Page, op: PriorityOp): Page {
    match TrySetPriority(page, op.port, op.priority)
    case Ok(after) => after
    case Err(_) => page
  }

  function StepCache(page: Page, cached: seq<int>, trunk: seq<int>, op: PriorityOp): seq<int>
    requires |cached| == |trunk|
  {
    if TrySetPriority(page, op.port, op.priority).Ok? then CacheAfter(cached, trunk, op.port, op.priority) else cached
  }

  /** The page and the cache after a run of calls. */
  function Run(page: Page, cached: seq<int>, trunk: seq<int>, ops: seq<PriorityOp>): (Page, seq<int>)
    requires |cached| == |trunk|
    decreases |ops|
  {
    if ops == [] then (page, cached)
    else
      var next := StepCache(page, cached, trunk, ops[0]);
      Run(Step(page, ops[0]), next, trunk, ops[1..])
  }

  /** With non-negative group numbers the cache equals a fresh read after every run of writes. */
  lemma {:induction false} RunKeepsCacheFresh(page: Page, ops: seq<PriorityOp>)
    requires Readable(page) && forall g :: g in GetQos(page).value.trunkGroups ==> g >= 0
    ensures var state := GetQos(page).value;
            var (page', cached) := Run(page, state.priorities, state.trunkGroups, ops);
            Readable(page') && GetQos(page') == Ok(state.(priorities := cached))
    decreases |ops|
  {
    hide TrySetPriority, CacheAfter;
    if ops != [] {
      var op := ops[0];
      if TrySetPriority(page, op.port, op.priority).Ok? {
        SetPriorityThenRead(page, op.port, op.priority);
        CacheMatchesFreshRead(page, op.port, op.priority);
        var group := GetQos(page).value.trunkGroups[op.port - 1];
        assert group in GetQos(page).value.trunkGroups;
      }
      RunKeepsCacheFresh(Step(page, op), ops[1..]);
    }
  }
}
