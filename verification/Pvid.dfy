/** Port VLAN ids: one form sets the PVID of every port in a mask. */
module Pvid {
  import opened Results
  import opened Bits
  import opened Ports

  /** The parsed variable `pvid_ds`. */
  datatype Page = Page(
    state: int, portNum: int, count: int,
    pvids: seq<int>, vids: seq<int>, mbrs: seq<int>, lagIds: Option<seq<int>>)

  datatype PvidState = PvidState(
    enabled: bool, portCount: nat, pvids: seq<int>,
    vlanIds: seq<int>, memberMasks: seq<int>, trunkGroups: seq<int>)

  datatype PvidForm = PvidForm(pbm: int, pvid: int)

  predicate Readable(page: Page) {
    && page.portNum >= 1 && page.count >= 0
    && |page.pvids| >= page.portNum && |page.vids| >= page.count && |page.mbrs| >= page.count
    && (page.lagIds.Some? ==> |page.lagIds.value| >= page.portNum)
  }

  function GetPvids(page: Page): (r: Result<PvidState>)
    ensures r.Ok? <==> Readable(page)
    ensures r.Err? ==> r == Err(DataFormatError)
    ensures r.Ok? ==> WellFormed(r.value)
    ensures r.Ok? ==>
              && r.value.enabled == (page.state != 0) && r.value.portCount == page.portNum
              && |r.value.vlanIds| == page.count
              && (forall i :: 0 <= i < page.portNum ==> r.value.pvids[i] == page.pvids[i])
              && (forall i :: 0 <= i < page.count ==>
                    r.value.vlanIds[i] == page.vids[i] && r.value.memberMasks[i] == page.mbrs[i])
              && forall i :: 0 <= i < page.portNum ==>
                   r.value.trunkGroups[i] == if page.lagIds.Some? then page.lagIds.value[i] else 0
  {
    if page.portNum < 1 || page.count < 0 then Err(DataFormatError)
    else if |page.pvids| < page.portNum then Err(DataFormatError)
    else if |page.vids| < page.count then Err(DataFormatError)
    else if |page.mbrs| < page.count then Err(DataFormatError)
    else
      var trunkGroups :- ReadTrunkGroups(page.lagIds, page.portNum);
      Ok(PvidState(page.state != 0, page.portNum, page.pvids[..page.portNum],
                   page.vids[..page.count], page.mbrs[..page.count], trunkGroups))
  }

  ghost predicate WellFormed(state: PvidState) {
    && |state.pvids| == state.portCount && |state.trunkGroups| == state.portCount
    && |state.vlanIds| == |state.memberMasks|
  }

  /** Port p is a member of the listed VLAN; of two rows with one id the first is meant. */
  predicate IsMember(state: PvidState, vlanId: int, p: int)
    requires |state.vlanIds| == |state.memberMasks|
  {
    var i := IndexOf(state.vlanIds, |state.vlanIds|, vlanId);
    p >= 1 && i < |state.vlanIds| && Bit(state.memberMasks[i], p - 1)
  }

  function Outsiders(state: PvidState, vlanId: int, members: seq<int>): (r: seq<int>)
    requires |state.vlanIds| == |state.memberMasks|
    ensures forall p :: p in r <==> 1 <= p <= |state.trunkGroups| && p in members && !IsMember(state, vlanId, p)
  {
    PortsWhere(|state.trunkGroups|, p => p in members && !IsMember(state, vlanId, p))
  }

  function CheckPvid(state: PvidState, ports: seq<int>, vlanId: int): (r: Result<seq<int>>)
    requires WellFormed(state)
  {
    if !state.enabled then Refuse(ModeDisabled)
    else
      var members :- ExpandTrunkPorts(ports, state.trunkGroups);
      if members == [] then Refuse(NoPortSelected)
      else if IndexOf(state.vlanIds, |state.vlanIds|, vlanId) == |state.vlanIds| then Refuse(NoSuchVlan)
      else
        var outsiders := Outsiders(state, vlanId, members);
        if outsiders != [] then Refuse(NotVlanMembers(outsiders)) else Ok(members)
  }

  lemma CheckedMembers(state: PvidState, ports: seq<int>, vlanId: int)
    requires WellFormed(state) && CheckPvid(state, ports, vlanId).Ok?
    ensures var members := CheckPvid(state, ports, vlanId).value;
            && ExpandTrunkPorts(ports, state.trunkGroups) == Ok(members)
            && StrictlySorted(members) && InRange(members, state.portCount) && members != []
            && LagClosed(members, state.trunkGroups)
            && forall p :: p in members ==> IsMember(state, vlanId, p)
  {
    ExpandIsClosedSuperset(ports, state.trunkGroups);
    var members := CheckPvid(state, ports, vlanId).value;
    var outsiders := Outsiders(state, vlanId, members);
    assert outsiders == [];
    forall p | p in members
      ensures IsMember(state, vlanId, p)
    {
      assert p in outsiders <==> !IsMember(state, vlanId, p);
    }
  }

  function PlanPvid(state: PvidState, ports: seq<int>, vlanId: int): (r: Result<PvidForm>)
    requires WellFormed(state)
  {
    var members :- CheckPvid(state, ports, vlanId);
    CheckedMembers(state, ports, vlanId);
    Ok(PvidForm(MaskOf(members), vlanId))
  }

  // ---------- the switch ----------

  function Submit(page: Page, form: PvidForm): (r: Page)
    requires Readable(page)
    ensures Readable(r)
  {
    page.(pvids := seq(|page.pvids|, i requires 0 <= i < |page.pvids| =>
                         if i < page.portNum && Bit(form.pbm, i) then form.pvid else page.pvids[i]))
  }

  function TrySetPvid(page: Page, ports: seq<int>, vlanId: int): Result<Page> {
    var state :- GetPvids(page);
    var form :- PlanPvid(state, ports, vlanId);
    Ok(Submit(page, form))
  }

  class PvidSwitch {
    var page: Page

    constructor (page: Page)
      ensures this.page == page
    {
      this.page := page;
    }

    method Receive(form: PvidForm)
      requires Readable(page)
      modifies this
      ensures page == Submit(old(page), form)
    {
      page := Submit(page, form);
    }
  }

  method SetPvid(sw: PvidSwitch, ports: seq<int>, vlanId: int) returns (r: Result<()>)
    modifies sw
    ensures match r
            case Ok(_) => TrySetPvid(old(sw.page), ports, vlanId) == Ok(sw.page)
            case Err(e) => TrySetPvid(old(sw.page), ports, vlanId) == Err(e) && sw.page == old(sw.page)
  {
    var state := GetPvids(sw.page);
    if state.Err? {
      return Err(state.error);
    }
    var members := CheckPvid(state.value, ports, vlanId);
    if members.Err? {
      return Err(members.error);
    }
    CheckedMembers(state.value, ports, vlanId);
    var pbm := EncodePortMask(members.value);
    sw.Receive(PvidForm(pbm, vlanId));
    r := Ok(());
  }

  // ---------- what a caller gets ----------

  /** A PVID is accepted exactly when each selected port, and each LAG partner of one, is in the VLAN. */
  lemma PvidIsAcceptedWhen(state: PvidState, ports: seq<int>, vlanId: int)
    requires WellFormed(state)
    ensures PlanPvid(state, ports, vlanId).Ok? <==>
            && state.enabled && ports != [] && InRange(ports, state.portCount) && vlanId in state.vlanIds
            && forall p, q :: p in ports && (q == p || SameLag(p, q, state.trunkGroups)) ==> IsMember(state, vlanId, q)
  {
    hide UniquePorts, Invalid, WithGroups, MaskOf;
    ExpandIsClosedSuperset(ports, state.trunkGroups);
    var n := |state.vlanIds|;
    assert IndexOf(state.vlanIds, n, vlanId) < n <==> vlanId in state.vlanIds;
    if state.enabled && ports != [] && InRange(ports, state.portCount) && vlanId in state.vlanIds {
      var members := ExpandTrunkPorts(ports, state.trunkGroups).value;
      var outsiders := Outsiders(state, vlanId, members);
      forall q
        ensures q in members <==> exists p :: p in ports && (q == p || SameLag(p, q, state.trunkGroups))
      {
        ExpandMembers(ports, state.trunkGroups, q);
      }
      if outsiders != [] {
        var o := outsiders[0];
        assert o in outsiders;
      }
      assert forall q :: q in outsiders <==> q in members && !IsMember(state, vlanId, q);
    }
  }

  /**
   * A refusal names the first check that fails, in the order of the source; the ports named are exactly
   * those out of range, or those of the closure that are not in the VLAN.
   */
  lemma RefusedPvid(state: PvidState, ports: seq<int>, vlanId: int)
    requires WellFormed(state) && PlanPvid(state, ports, vlanId).Err?
    ensures PlanPvid(state, ports, vlanId).error.ActionError?
    ensures match PlanPvid(state, ports, vlanId).error.refusal
            case ModeDisabled => !state.enabled
            case PortsOutOfRange(invalid) =>
              && state.enabled && invalid != []
              && forall p :: p in invalid <==> p in ports && !(1 <= p <= state.portCount)
            case NoPortSelected => state.enabled && ports == []
            case NoSuchVlan =>
              state.enabled && InRange(ports, state.portCount) && ports != [] && vlanId !in state.vlanIds
            case NotVlanMembers(outsiders) =>
              && state.enabled && InRange(ports, state.portCount) && vlanId in state.vlanIds
              && ExpandTrunkPorts(ports, state.trunkGroups).Ok? && outsiders != []
              && forall p :: p in outsiders <==>
                             p in ExpandTrunkPorts(ports, state.trunkGroups).value && !IsMember(state, vlanId, p)
            case _ => false
  {
    hide UniquePorts, Invalid, WithGroups, MaskOf;
    ExpandIsClosedSuperset(ports, state.trunkGroups);
    if !InRange(ports, state.portCount) {
      RefusedExpansion(ports, state.trunkGroups);
    }
  }

  /** The mask sent decodes to the LAG closure of the selection, all of it inside the VLAN. */
  lemma PvidMask(state: PvidState, ports: seq<int>, vlanId: int)
    requires WellFormed(state) && PlanPvid(state, ports, vlanId).Ok?
    ensures var form := PlanPvid(state, ports, vlanId).value;
            var sent := DecodePortMask(form.pbm, state.portCount);
            && form.pvid == vlanId
            && 0 <= form.pbm < Pow2(state.portCount)
            && Ok(sent) == ExpandTrunkPorts(ports, state.trunkGroups)
            && LagClosed(sent, state.trunkGroups)
            && forall p :: p in sent ==> IsMember(state, vlanId, p)
  {
    CheckedMembers(state, ports, vlanId);
    var members := CheckPvid(state, ports, vlanId).value;
    MaskBound(members, state.portCount);
    DecodeOfEncode(members, state.portCount);
    SortedIsUnique(UniquePorts(members), members);
  }

  /** The PVIDs with those of the given ports replaced. */
  function Assigned(pvids: seq<int>, members: seq<int>, vlanId: int): (r: seq<int>)
    ensures |r| == |pvids|
    ensures forall i :: 0 <= i < |r| ==> r[i] == if i + 1 in members then vlanId else pvids[i]
  {
    seq(|pvids|, i requires 0 <= i < |pvids| => if i + 1 in members then vlanId else pvids[i])
  }

  lemma ReadAfterSubmit(page: Page, members: seq<int>, vlanId: int)
    requires Readable(page) && Positive(members)
    ensures var before := GetPvids(page).value;
            GetPvids(Submit(page, PvidForm(MaskOf(members), vlanId))) ==
            Ok(before.(pvids := Assigned(before.pvids, members, vlanId)))
  {
    var before := GetPvids(page).value;
    var after := Submit(page, PvidForm(MaskOf(members), vlanId));
    forall i | 0 <= i < before.portCount
      ensures after.pvids[i] == Assigned(before.pvids, members, vlanId)[i]
    {
      BitsOfMask(members, i);
    }
    assert after.pvids[..page.portNum] == Assigned(before.pvids, members, vlanId);
  }

  /** Write then read: exactly the ports of the closure change, and to the requested VLAN. */
  lemma SetPvidThenRead(page: Page, ports: seq<int>, vlanId: int)
    requires TrySetPvid(page, ports, vlanId).Ok?
    ensures Readable(page)
    ensures var before := GetPvids(page).value;
            && ExpandTrunkPorts(ports, before.trunkGroups).Ok?
            && GetPvids(TrySetPvid(page, ports, vlanId).value) ==
               Ok(before.(pvids := Assigned(before.pvids, ExpandTrunkPorts(ports, before.trunkGroups).value, vlanId)))
  {
    var before := GetPvids(page).value;
    CheckedMembers(before, ports, vlanId);
    ReadAfterSubmit(page, CheckPvid(before, ports, vlanId).value, vlanId);
  }

  /** The port was named, or shares a positive entry of the page's LAG column with a named port. */
  ghost predicate Chosen(page: Page, ports: seq<int>, p: int)
    requires Readable(page)
  {
    exists q :: q in ports && (q == p || SameColumn(page, q, p))
  }

  predicate SameColumn(page: Page, p: int, q: int)
    requires Readable(page)
  {
    && page.lagIds.Some? && 1 <= p <= page.portNum && 1 <= q <= page.portNum
    && page.lagIds.value[p - 1] > 0 && page.lagIds.value[p - 1] == page.lagIds.value[q - 1]
  }

  /** The first row of the page with this id has the port in its mask. */
  ghost predicate ListedMember(page: Page, vlanId: int, p: int)
    requires Readable(page)
  {
    p >= 1 && exists i :: && 0 <= i < page.count && page.vids[i] == vlanId && Bit(page.mbrs[i], p - 1)
                          && forall k :: 0 <= k < i ==> page.vids[k] != vlanId
  }

  lemma MemberIsListed(page: Page, vlanId: int, p: int)
    requires Readable(page)
    ensures IsMember(GetPvids(page).value, vlanId, p) <==> ListedMember(page, vlanId, p)
  {
    var state := GetPvids(page).value;
    var i := IndexOf(state.vlanIds, |state.vlanIds|, vlanId);
    assert forall k | 0 <= k < page.count :: state.vlanIds[k] == page.vids[k];
    if ListedMember(page, vlanId, p) {
      var k :| && 0 <= k < page.count && page.vids[k] == vlanId && Bit(page.mbrs[k], p - 1)
               && forall l :: 0 <= l < k ==> page.vids[l] != vlanId;
      assert state.vlanIds[k] == vlanId;
      assert k == i;
    }
  }

  lemma ChosenIsExpanded(page: Page, ports: seq<int>, p: int)
    requires Readable(page) && InRange(ports, page.portNum)
    ensures var expanded := ExpandTrunkPorts(ports, GetPvids(page).value.trunkGroups);
            expanded.Ok? && (p in expanded.value <==> Chosen(page, ports, p))
  {
    var trunk := GetPvids(page).value.trunkGroups;
    ExpandMembers(ports, trunk, p);
    assert forall q :: SameLag(q, p, trunk) <==> SameColumn(page, q, p);
  }

  /** The switch after an accepted write: the chosen ports, all members of the VLAN, have it as PVID; no other changed. */
  lemma SetPvidOverPages(page: Page, ports: seq<int>, vlanId: int)
    requires TrySetPvid(page, ports, vlanId).Ok?
    ensures var after := TrySetPvid(page, ports, vlanId).value;
            && Readable(page) && page.state != 0 && |after.pvids| == |page.pvids|
            && after == page.(pvids := after.pvids)
            && (forall p :: Chosen(page, ports, p) ==> 1 <= p <= page.portNum && ListedMember(page, vlanId, p))
            && forall i :: 0 <= i < |page.pvids| ==>
                 after.pvids[i] == if Chosen(page, ports, i + 1) then vlanId else page.pvids[i]
  {
    hide Chosen, ListedMember, IsMember;
    var state := GetPvids(page).value;
    CheckedMembers(state, ports, vlanId);
    ExpandIsClosedSuperset(ports, state.trunkGroups);
    var members := CheckPvid(state, ports, vlanId).value;
    forall p
      ensures p in members <==> Chosen(page, ports, p)
      ensures p in members ==> 1 <= p <= page.portNum && ListedMember(page, vlanId, p)
    {
      ChosenIsExpanded(page, ports, p);
      MemberIsListed(page, vlanId, p);
    }
    forall i | 0 <= i < |page.pvids|
      ensures Bit(MaskOf(members), i) <==> Chosen(page, ports, i + 1)
    {
      BitsOfMask(members, i);
    }
  }

  // ---------- whole runs ----------

  datatype PvidOp = PvidOp(ports: seq<int>, vlanId: int)

  function Step(page: Page, op: PvidOp): Page {
    match TrySetPvid(page, op.ports, op.vlanId)
    case Ok(after) => after
    case Err(_) => page
  }

  function Run(page: Page, ops: seq<PvidOp>): Page
    decreases |ops|
  {
    if ops == [] then page else Run(Step(page, ops[0]), ops[1..])
  }

  /** The port is a member of the VLAN its PVID names. */
  ghost predicate Owned(state: PvidState, p: int)
    requires WellFormed(state) && 1 <= p <= state.portCount
  {
    IsMember(state, state.pvids[p - 1], p)
  }

  /** The members of a LAG share their PVID, and every port is a member of the VLAN its PVID names. */
  ghost predicate PvidsOk(state: PvidState) {
    && WellFormed(state)
    && (forall p, q :: SameLag(p, q, state.trunkGroups) ==> state.pvids[p - 1] == state.pvids[q - 1])
    && (forall p :: 1 <= p <= state.portCount ==> Owned(state, p))
  }

  lemma AssignKeepsPvids(state: PvidState, members: seq<int>, vlanId: int)
    requires PvidsOk(state) && LagClosed(members, state.trunkGroups)
    requires forall p :: p in members ==> IsMember(state, vlanId, p)
    ensures PvidsOk(state.(pvids := Assigned(state.pvids, members, vlanId)))
  {
    var after := state.(pvids := Assigned(state.pvids, members, vlanId));
    forall p, q | SameLag(p, q, after.trunkGroups)
      ensures after.pvids[p - 1] == after.pvids[q - 1]
    {
      assert SameLag(p, q, state.trunkGroups) && SameLag(q, p, state.trunkGroups);
      assert p in members <==> q in members;
    }
    forall p | 1 <= p <= after.portCount
      ensures Owned(after, p)
    {
      assert Owned(state, p);
      assert after.pvids[p - 1] == if p in members then vlanId else state.pvids[p - 1];
    }
  }

  lemma StepKeepsPvids(page: Page, op: PvidOp)
    requires Readable(page) && PvidsOk(GetPvids(page).value)
    ensures Readable(Step(page, op)) && PvidsOk(GetPvids(Step(page, op)).value)
    ensures var before, after := GetPvids(page).value, GetPvids(Step(page, op)).value;
            after == before.(pvids := after.pvids)
  {
    if TrySetPvid(page, op.ports, op.vlanId).Ok? {
      var before := GetPvids(page).value;
      SetPvidThenRead(page, op.ports, op.vlanId);
      CheckedMembers(before, op.ports, op.vlanId);
      AssignKeepsPvids(before, CheckPvid(before, op.ports, op.vlanId).value, op.vlanId);
    }
  }

  /** Every run of PVID writes keeps PVIDs equal within each LAG and owned by each port. */
  lemma {:induction false} RunKeepsPvids(page: Page, ops: seq<PvidOp>)
    requires Readable(page) && PvidsOk(GetPvids(page).value)
    ensures Readable(Run(page, ops)) && PvidsOk(GetPvids(Run(page, ops)).value)
    decreases |ops|
  {
    if ops != [] {
      StepKeepsPvids(page, ops[0]);
      RunKeepsPvids(Step(page, ops[0]), ops[1..]);
    }
  }
}
