/** Port mirroring: one form for the destination, then one form a source port. */
module Mirror {
  import opened Results
  import opened Ports

  datatype Page = Page(
    maxPortNum: int, mirrEn: int, mirrPort: Option<int>,
    ingress: seq<int>, egress: seq<int>, portTrunkId: Option<seq<int>>)

  datatype MirrorState = MirrorState(
    enabled: bool, portCount: nat, destination: Option<int>,
    ingressPorts: seq<int>, egressPorts: seq<int>, trunkGroups: seq<int>)

  datatype MirrorForm =
    | Disable
    | Enable(mirroringPort: int)
    | Source(mirroredPort: int, ingressState: int, egressState: int)

  predicate Readable(page: Page) {
    && page.maxPortNum >= 1
    && |page.ingress| >= page.maxPortNum && |page.egress| >= page.maxPortNum
    && (page.portTrunkId.Some? ==> |page.portTrunkId.value| >= page.maxPortNum)
  }

  /** `[index + 1 for index, value in enumerate(values) if value]`, over the whole array. */
  function NonZero(values: seq<int>): (r: seq<int>)
    ensures StrictlySorted(r)
    ensures forall p :: p in r <==> 1 <= p <= |values| && values[p - 1] != 0
  {
    PortsWhere(|values|, p => 1 <= p <= |values| && values[p - 1] != 0)
  }

  function GetPortMirror(page: Page): (r: Result<MirrorState>)
    ensures r.Ok? <==> Readable(page)
    ensures r.Err? ==> r == Err(DataFormatError)
    ensures r.Ok? ==> |r.value.trunkGroups| == r.value.portCount
    ensures r.Ok? ==>
              && r.value.enabled == (page.mirrEn != 0) && r.value.portCount == page.maxPortNum
              && (forall d :: r.value.destination == Some(d) <==>
                              page.mirrPort == Some(d) && 1 <= d <= page.maxPortNum)
              && (forall p :: p in r.value.ingressPorts <==> 1 <= p <= |page.ingress| && page.ingress[p - 1] != 0)
              && (forall p :: p in r.value.egressPorts <==> 1 <= p <= |page.egress| && page.egress[p - 1] != 0)
              && StrictlySorted(r.value.ingressPorts) && StrictlySorted(r.value.egressPorts)
              && forall i :: 0 <= i < page.maxPortNum ==>
                   r.value.trunkGroups[i] == if page.portTrunkId.Some? then page.portTrunkId.value[i] else 0
  {
    if page.maxPortNum < 1 then Err(DataFormatError)
    else if |page.ingress| < page.maxPortNum then Err(DataFormatError)
    else if |page.egress| < page.maxPortNum then Err(DataFormatError)
    else
      var trunkGroups :- ReadTrunkGroups(page.portTrunkId, page.maxPortNum);
      var destination :=
        if page.mirrPort.Some? && 1 <= page.mirrPort.value <= page.maxPortNum then page.mirrPort else None;
      Ok(MirrorState(page.mirrEn != 0, page.maxPortNum, destination,
                     NonZero(page.ingress), NonZero(page.egress), trunkGroups))
  }

  // ---------- planning ----------

  datatype MirrorPlan = MirrorPlan(destination: int, ingress: seq<int>, egress: seq<int>, affected: seq<int>)

  /** The ports of [destination, *sources] that are in a LAG. */
  function LagPorts(ports: seq<int>, trunk: seq<int>): (r: seq<int>)
    ensures r == [] <==> forall p :: p in ports ==> !InLag(trunk, p)
  {
    var r := PortsWhere(|trunk|, p => p in ports && InLag(trunk, p));
    assert r != [] ==> var first := r[0]; first in r;
    assert forall p :: p in r <==> p in ports && InLag(trunk, p);
    r
  }

  predicate InLag(trunk: seq<int>, p: int) {
    1 <= p <= |trunk| && trunk[p - 1] > 0
  }

  /** `sorted(set(a) | set(b))` */
  function Union(a: seq<int>, b: seq<int>): (r: seq<int>)
    ensures StrictlySorted(r)
    ensures forall p :: p in r <==> p in a || p in b
    ensures r == [] <==> a == [] && b == []
  {
    var r := UniquePorts(a + b);
    assert r != [] ==> var first := r[0]; first in r;
    assert a != [] ==> var first := a[0]; first in a && first in r;
    assert b != [] ==> var first := b[0]; first in b && first in r;
    r
  }

  lemma ValidatedSingle(p: int, n: int)
    ensures ValidatePorts([p], n, false) == Ok([p]) <==> 1 <= p <= n
    ensures ValidatePorts([p], n, false).Ok? <==> 1 <= p <= n
  {
    assert p in [p];
    SortedIsUnique(UniquePorts([p]), [p]);
  }

  function CheckMirror(state: MirrorState, destination: Option<int>, ingressPorts: seq<int>, egressPorts: seq<int>)
    : (r: Result<MirrorPlan>)
  {
    if destination.None? then Refuse(DestinationRequired)
    else
      var validated :- ValidatePorts([destination.value], state.portCount, false);
      ValidatedSingle(destination.value, state.portCount);
      var d := validated[0];
      var ingress :- ValidatePorts(ingressPorts, state.portCount, true);
      var egress :- ValidatePorts(egressPorts, state.portCount, true);
      var sources := Union(ingress, egress);
      if sources == [] then Refuse(SourceRequired)
      else if d in sources then Refuse(DestinationIsSource)
      else if LagPorts([d] + sources, state.trunkGroups) != [] then Refuse(LagMemberPort)
      else
        Ok(MirrorPlan(d, ingress, egress,
                      Union(Union(state.ingressPorts, state.egressPorts), sources)))
  }

  // ---------- the switch ----------

  /** The array with port p's entry set, where the array has one. */
  function Flag(values: seq<int>, p: int, value: int): (r: seq<int>)
    ensures |r| == |values|
    ensures forall i :: 0 <= i < |values| ==> r[i] == if i == p - 1 then value else values[i]
  {
    if 1 <= p <= |values| then values[p - 1 := value] else values
  }

  function Submit(page: Page, form: MirrorForm): (r: Page)
    requires Readable(page)
    ensures Readable(r)
  {
    match form
    case Disable => page.(mirrEn := 0)
    case Enable(d) => page.(mirrEn := 1, mirrPort := Some(d))
    case Source(p, inState, outState) =>
      page.(ingress := Flag(page.ingress, p, inState), egress := Flag(page.egress, p, outState))
  }

  function SourceForm(plan: MirrorPlan, p: int): MirrorForm {
    Source(p, if p in plan.ingress then 1 else 0, if p in plan.egress then 1 else 0)
  }

  /** The page after the source forms of the first n affected ports. */
  function SubmitSources(page: Page, plan: MirrorPlan, n: nat): (r: Page)
    requires Readable(page) && n <= |plan.affected|
    ensures Readable(r)
  {
    if n == 0 then page
    else Submit(SubmitSources(page, plan, n - 1), SourceForm(plan, plan.affected[n - 1]))
  }

  function TrySetPortMirror(
    page: Page, enabled: bool, destination: Option<int>, ingressPorts: seq<int>, egressPorts: seq<int>)
    : Result<Page>
  {
    var state :- GetPortMirror(page);
    if !enabled then Ok(Submit(page, Disable))
    else
      var plan :- CheckMirror(state, destination, ingressPorts, egressPorts);
      Ok(SubmitSources(Submit(page, Enable(plan.destination)), plan, |plan.affected|))
  }

  class MirrorSwitch {
    var page: Page

    constructor (page: Page)
      ensures this.page == page
    {
      this.page := page;
    }

    method Receive(form: MirrorForm)
      requires Readable(page)
      modifies this
      ensures page == Submit(old(page), form)
    {
      page := Submit(page, form);
    }
  }

  method SetPortMirror(
    sw: MirrorSwitch, enabled: bool, destination: Option<int>, ingressPorts: seq<int>, egressPorts: seq<int>)
    returns (r: Result<()>)
    modifies sw
    ensures match r
            case Ok(_) => TrySetPortMirror(old(sw.page), enabled, destination, ingressPorts, egressPorts) == Ok(sw.page)
            case Err(e) =>
              && TrySetPortMirror(old(sw.page), enabled, destination, ingressPorts, egressPorts) == Err(e)
              && sw.page == old(sw.page)
  {
    var state := GetPortMirror(sw.page);
    if state.Err? {
      return Err(state.error);
    }
    if !enabled {
      sw.Receive(Disable);
      return Ok(());
    }
    var checked := CheckMirror(state.value, destination, ingressPorts, egressPorts);
    if checked.Err? {
      return Err(checked.error);
    }
    var plan := checked.value;
    sw.Receive(Enable(plan.destination));
    ghost var started := sw.page;
    for i := 0 to |plan.affected|
      invariant Readable(sw.page)
      invariant sw.page == SubmitSources(started, plan, i)
    {
      sw.Receive(SourceForm(plan, plan.affected[i]));
    }
    r := Ok(());
  }

  // ---------- what a caller gets ----------

  /** A mirror is accepted exactly for an in-range destination that is no source, some source, and no LAG member. */
  lemma MirrorIsAcceptedWhen(
    state: MirrorState, destination: Option<int>, ingressPorts: seq<int>, egressPorts: seq<int>)
    requires |state.trunkGroups| == state.portCount
    ensures CheckMirror(state, destination, ingressPorts, egressPorts).Ok? <==>
            && destination.Some? && 1 <= destination.value <= state.portCount
            && InRange(ingressPorts, state.portCount) && InRange(egressPorts, state.portCount)
            && (ingressPorts != [] || egressPorts != [])
            && destination.value !in ingressPorts && destination.value !in egressPorts
            && forall p :: 1 <= p <= state.portCount &&
                           (p == destination.value || p in ingressPorts || p in egressPorts) ==>
                             !InLag(state.trunkGroups, p)
    ensures CheckMirror(state, destination, ingressPorts, egressPorts).Ok? ==>
              var plan := CheckMirror(state, destination, ingressPorts, egressPorts).value;
              && plan.destination == destination.value
              && plan.ingress == UniquePorts(ingressPorts) && plan.egress == UniquePorts(egressPorts)
              && forall p :: p in plan.affected <==>
                             p in state.ingressPorts || p in state.egressPorts || p in ingressPorts || p in egressPorts
  {
    hide UniquePorts, Invalid, Union, LagPorts;
    if destination.Some? {
      ValidatedSingle(destination.value, state.portCount);
      UniqueIsEmptyWhen(ingressPorts);
      UniqueIsEmptyWhen(egressPorts);
    }
  }

  /** The first of the three selections that is not within the ports. */
  function FirstOutOfRange(state: MirrorState, d: int, ingressPorts: seq<int>, egressPorts: seq<int>): seq<int> {
    if !(1 <= d <= state.portCount) then [d]
    else if !InRange(ingressPorts, state.portCount) then ingressPorts
    else egressPorts
  }

  predicate AllInRange(state: MirrorState, d: int, ingressPorts: seq<int>, egressPorts: seq<int>) {
    1 <= d <= state.portCount && InRange(ingressPorts, state.portCount) && InRange(egressPorts, state.portCount)
  }

  /** A refusal names the first check that fails, in the order of the source. */
  lemma RefusedMirror(
    state: MirrorState, destination: Option<int>, ingressPorts: seq<int>, egressPorts: seq<int>)
    requires |state.trunkGroups| == state.portCount
    requires CheckMirror(state, destination, ingressPorts, egressPorts).Err?
    ensures CheckMirror(state, destination, ingressPorts, egressPorts).error.ActionError?
    ensures match CheckMirror(state, destination, ingressPorts, egressPorts).error.refusal
            case DestinationRequired => destination == None
            case PortsOutOfRange(invalid) =>
              && destination.Some? && invalid != []
              && forall p :: p in invalid <==>
                             p in FirstOutOfRange(state, destination.value, ingressPorts, egressPorts) &&
                             !(1 <= p <= state.portCount)
            case SourceRequired =>
              && destination.Some? && AllInRange(state, destination.value, ingressPorts, egressPorts)
              && ingressPorts == [] && egressPorts == []
            case DestinationIsSource =>
              && destination.Some? && AllInRange(state, destination.value, ingressPorts, egressPorts)
              && (destination.value in ingressPorts || destination.value in egressPorts)
            case LagMemberPort =>
              && destination.Some? && AllInRange(state, destination.value, ingressPorts, egressPorts)
              && (ingressPorts != [] || egressPorts != [])
              && destination.value !in ingressPorts && destination.value !in egressPorts
              && exists p :: && InLag(state.trunkGroups, p)
                             && (destination == Some(p) || p in ingressPorts || p in egressPorts)
            case _ => false
  {
    hide UniquePorts, Invalid, Union, LagPorts;
    if destination.Some? {
      ValidatedSingle(destination.value, state.portCount);
      UniqueIsEmptyWhen(ingressPorts);
      UniqueIsEmptyWhen(egressPorts);
      if !(1 <= destination.value <= state.portCount) {
        RefusedPorts([destination.value], state.portCount, false);
      } else if !InRange(ingressPorts, state.portCount) {
        RefusedPorts(ingressPorts, state.portCount, true);
      } else if !InRange(egressPorts, state.portCount) {
        RefusedPorts(egressPorts, state.portCount, true);
      }
    }
  }

  lemma UniqueIsEmptyWhen(ports: seq<int>)
    ensures UniquePorts(ports) == [] <==> ports == []
  {
    if ports != [] {
      var first := ports[0];
      assert first in ports && first in UniquePorts(ports);
    }
  }

  /** After n source forms: the named ports have their new flags, all others are as before. */
  lemma {:induction false} SourcesAfter(page: Page, plan: MirrorPlan, n: nat)
    requires Readable(page) && n <= |plan.affected|
    ensures var r := SubmitSources(page, plan, n);
            && r == page.(ingress := r.ingress, egress := r.egress)
            && |r.ingress| == |page.ingress| && |r.egress| == |page.egress|
            && (forall i :: 0 <= i < |page.ingress| ==>
                  r.ingress[i] == if i + 1 in plan.affected[..n] then Wanted(plan.ingress, i + 1) else page.ingress[i])
            && (forall i :: 0 <= i < |page.egress| ==>
                  r.egress[i] == if i + 1 in plan.affected[..n] then Wanted(plan.egress, i + 1) else page.egress[i])
  {
    if n > 0 {
      SourcesAfter(page, plan, n - 1);
      assert plan.affected[..n] == plan.affected[..n - 1] + [plan.affected[n - 1]];
    }
  }

  function Wanted(ports: seq<int>, p: int): int {
    if p in ports then 1 else 0
  }

  lemma NonZeroAfter(before: seq<int>, after: seq<int>, affected: seq<int>, wanted: seq<int>)
    requires |after| == |before|
    requires forall i :: 0 <= i < |before| ==>
                           after[i] == if i + 1 in affected then Wanted(wanted, i + 1) else before[i]
    requires forall p :: p in NonZero(before) || p in wanted ==> p in affected
    requires StrictlySorted(wanted) && InRange(wanted, |before|)
    ensures NonZero(after) == wanted
  {
    forall p
      ensures p in NonZero(after) <==> p in wanted
    {
      if 1 <= p <= |before| {
        assert p in NonZero(before) <==> before[p - 1] != 0;
        assert p !in affected ==> before[p - 1] == 0;
      }
    }
    SortedIsUnique(NonZero(after), wanted);
  }

  /**
   * Whatever was mirrored before, an accepted enable ends with exactly the requested destination,
   * ingress sources and egress sources, none of them a LAG member, the destination no source.
   */
  lemma EnableThenRead(page: Page, destination: Option<int>, ingressPorts: seq<int>, egressPorts: seq<int>)
    requires TrySetPortMirror(page, true, destination, ingressPorts, egressPorts).Ok?
    ensures Readable(page) && destination.Some?
    ensures var before := GetPortMirror(page).value;
            && GetPortMirror(TrySetPortMirror(page, true, destination, ingressPorts, egressPorts).value) ==
               Ok(before.(enabled := true, destination := destination,
                          ingressPorts := UniquePorts(ingressPorts), egressPorts := UniquePorts(egressPorts)))
            && destination.value !in ingressPorts && destination.value !in egressPorts
            && forall p :: p == destination.value || p in ingressPorts || p in egressPorts ==>
                             1 <= p <= before.portCount && !InLag(before.trunkGroups, p)
  {
    hide UniquePorts, CheckMirror, NonZero;
    var before := GetPortMirror(page).value;
    MirrorIsAcceptedWhen(before, destination, ingressPorts, egressPorts);
    var plan := CheckMirror(before, destination, ingressPorts, egressPorts).value;
    var started := Submit(page, Enable(plan.destination));
    var n := |plan.affected|;
    SourcesAfter(started, plan, n);
    assert plan.affected[..n] == plan.affected;
    var after := SubmitSources(started, plan, n);
    NonZeroAfter(page.ingress, after.ingress, plan.affected, UniquePorts(ingressPorts));
    NonZeroAfter(page.egress, after.egress, plan.affected, UniquePorts(egressPorts));
  }

  /** A disable only turns mirroring off; destination and sources stay configured. */
  lemma DisableThenRead(page: Page, destination: Option<int>, ingressPorts: seq<int>, egressPorts: seq<int>)
    ensures TrySetPortMirror(page, false, destination, ingressPorts, egressPorts).Ok? <==> Readable(page)
    ensures Readable(page) ==>
              GetPortMirror(TrySetPortMirror(page, false, destination, ingressPorts, egressPorts).value) ==
              Ok(GetPortMirror(page).value.(enabled := false))
  {
  }
}
