/** The 802.1Q VLAN page, the forms that change it, and the switch that applies them. */
module QVlan {
  import opened Results
  import opened Bits
  import opened Ports

  datatype Vlan = Vlan(vlanId: int, name: string, tagged: seq<int>, untagged: seq<int>)

  datatype VlanState = VlanState(
    enabled: bool, portCount: nat, maxVlans: nat, vlans: seq<Vlan>, trunkGroups: seq<int>)

  /** The parsed variable `qvlan_ds` as the switch serves it; only the first `count` rows are meant. */
  datatype Page = Page(
    state: int, portNum: int, count: int, maxVids: int,
    vids: seq<int>, names: seq<string>, tagMbrs: seq<int>, untagMbrs: seq<int>,
    lagIds: Option<seq<int>>)

  /** selType holds `selType_1` .. `selType_n`: 1 tagged, 0 untagged, 2 not a member. */
  datatype VlanForm =
    | AddModify(vid: int, vname: string, selType: seq<int>)
    | Delete(vid: int)

  predicate Readable(page: Page) {
    && page.portNum >= 1 && page.count >= 0 && page.maxVids >= 1
    && |page.vids| >= page.count && |page.tagMbrs| >= page.count && |page.untagMbrs| >= page.count
    && |page.names| >= page.count
    && (page.lagIds.Some? ==> |page.lagIds.value| >= page.portNum)
  }

  function Row(page: Page, i: nat): Vlan
    requires Readable(page) && i < page.count
  {
    Vlan(page.vids[i], page.names[i],
         DecodePortMask(page.tagMbrs[i], page.portNum), DecodePortMask(page.untagMbrs[i], page.portNum))
  }

  function Get8021qVlans(page: Page): (r: Result<VlanState>)
    ensures r.Ok? <==> Readable(page)
    ensures r.Err? ==> r == Err(DataFormatError)
    ensures r.Ok? ==>
              && r.value.enabled == (page.state != 0)
              && r.value.portCount == page.portNum && r.value.maxVlans == page.maxVids
              && |r.value.vlans| == page.count && |r.value.trunkGroups| == page.portNum
              && forall i :: 0 <= i < page.portNum ==>
                   r.value.trunkGroups[i] == if page.lagIds.Some? then page.lagIds.value[i] else 0
  {
    if page.portNum < 1 || page.count < 0 || page.maxVids < 1 then Err(DataFormatError)
    else if |page.vids| < page.count then Err(DataFormatError)
    else if |page.tagMbrs| < page.count then Err(DataFormatError)
    else if |page.untagMbrs| < page.count then Err(DataFormatError)
    else if |page.names| < page.count then Err(DataFormatError)
    else
      var trunkGroups :- ReadTrunkGroups(page.lagIds, page.portNum);
      Ok(VlanState(page.state != 0, page.portNum, page.maxVids,
                   seq(page.count, i requires 0 <= i < page.count => Row(page, i)), trunkGroups))
  }

  /** What is read of row i: its id and name, and exactly the ports whose bits are set in its two masks. */
  lemma ReadRow(page: Page, i: nat, p: int)
    requires Readable(page) && i < page.count
    ensures var state := Get8021qVlans(page).value;
            && |state.vlans| == page.count && state.portCount == page.portNum
            && state.vlans[i].vlanId == page.vids[i] && state.vlans[i].name == page.names[i]
            && (p in state.vlans[i].tagged <==> 1 <= p <= page.portNum && Bit(page.tagMbrs[i], p - 1))
            && (p in state.vlans[i].untagged <==> 1 <= p <= page.portNum && Bit(page.untagMbrs[i], p - 1))
  {
  }

  // ---------- planning ----------

  /** At most ten characters of `[A-Za-z0-9_-]`. */
  predicate ValidName(name: string) {
    |name| <= 10 &&
    forall c :: c in name ==> 'A' <= c <= 'Z' || 'a' <= c <= 'z' || '0' <= c <= '9' || c == '_' || c == '-'
  }

  /** By character code: digits, upper-case and lower-case letters, underscore and hyphen. */
  lemma ValidNameCodes(name: string)
    ensures ValidName(name) <==>
            && |name| <= 10
            && forall i :: 0 <= i < |name| ==>
                 var c := name[i] as int;
                 48 <= c <= 57 || 65 <= c <= 90 || 97 <= c <= 122 || c == 95 || c == 45
  {
    assert forall i | 0 <= i < |name| :: name[i] in name;
  }

  function Ids(vlans: seq<Vlan>): (r: seq<int>)
    ensures |r| == |vlans| && forall i :: 0 <= i < |r| ==> r[i] == vlans[i].vlanId
  {
    seq(|vlans|, i requires 0 <= i < |vlans| => vlans[i].vlanId)
  }

  /** The distinct ids, as the source's `existing_ids` set. */
  function ExistingIds(vlans: seq<Vlan>): set<int> {
    set i | 0 <= i < |vlans| :: vlans[i].vlanId
  }

  predicate Member(vlan: Vlan, port: int) {
    port in vlan.tagged || port in vlan.untagged
  }

  /** Some VLAN other than the one with this id has the port. */
  predicate HeldByOther(vlans: seq<Vlan>, vlanId: int, port: int) {
    exists i | 0 <= i < |vlans| :: vlans[i].vlanId != vlanId && Member(vlans[i], port)
  }

  function Orphaned(state: VlanState, tagged: seq<int>, untagged: seq<int>): (r: seq<int>)
    ensures forall p :: p in r <==>
              1 <= p <= state.portCount && p !in tagged && p !in untagged && !HeldByOther(state.vlans, 1, p)
  {
    PortsWhere(state.portCount, p => p !in tagged && p !in untagged && !HeldByOther(state.vlans, 1, p))
  }

  function Overlap(tagged: seq<int>, untagged: seq<int>, n: nat): (r: seq<int>)
    ensures forall p :: p in r <==> 1 <= p <= n && p in tagged && p in untagged
  {
    PortsWhere(n, p => p in tagged && p in untagged)
  }

  function SelTypes(portCount: nat, tagged: seq<int>, untagged: seq<int>): (r: seq<int>)
    ensures |r| == portCount
  {
    seq(portCount, i => if i + 1 in tagged then 1 else if i + 1 in untagged then 0 else 2)
  }

  /** The loop over the ports that fills in the form's `selType_p` fields. */
  method FillSelTypes(portCount: nat, tagged: seq<int>, untagged: seq<int>) returns (r: seq<int>)
    ensures |r| == portCount
    ensures forall i :: 0 <= i < portCount ==>
              && (r[i] == 1 <==> i + 1 in tagged)
              && (r[i] == 0 <==> i + 1 !in tagged && i + 1 in untagged)
              && (r[i] == 2 <==> i + 1 !in tagged && i + 1 !in untagged)
    ensures r == SelTypes(portCount, tagged, untagged)
  {
    r := [];
    for port := 1 to portCount + 1
      invariant |r| == port - 1
      invariant forall i :: 0 <= i < port - 1 ==> r[i] == SelTypes(portCount, tagged, untagged)[i]
    {
      r := r + [if port in tagged then 1 else if port in untagged then 0 else 2];
    }
  }

  /** The checks of an upsert, in the order of the source; Ok carries the expanded selections. */
  function CheckUpsert(state: VlanState, vlanId: int, name: string, tagged: seq<int>, untagged: seq<int>)
    : (r: Result<(seq<int>, seq<int>)>)
  {
    if !state.enabled then Refuse(ModeDisabled)
    else if vlanId < 1 || vlanId > 4094 then Refuse(VlanIdOutOfRange)
    else if !ValidName(name) then Refuse(InvalidVlanName)
    else
      var tagged' :- ExpandTrunkPorts(tagged, state.trunkGroups);
      var untagged' :- ExpandTrunkPorts(untagged, state.trunkGroups);
      var overlap := Overlap(tagged', untagged', |state.trunkGroups|);
      if overlap != [] then Refuse(TaggedAndUntagged(overlap))
      else if tagged' == [] && untagged' == [] then Refuse(NoPortSelected)
      else if vlanId !in ExistingIds(state.vlans) && |ExistingIds(state.vlans)| >= state.maxVlans then
        Refuse(TooManyVlans)
      else
        var orphaned := Orphaned(state, tagged', untagged');
        if vlanId == 1 && orphaned != [] then Refuse(OrphanedPorts(orphaned))
        else Ok((tagged', untagged'))
  }

  function PlanUpsert(state: VlanState, vlanId: int, name: string, tagged: seq<int>, untagged: seq<int>)
    : (r: Result<VlanForm>)
  {
    var ports :- CheckUpsert(state, vlanId, name, tagged, untagged);
    Ok(AddModify(vlanId, name, SelTypes(state.portCount, ports.0, ports.1)))
  }

  function PlanDelete(state: VlanState, vlanId: int): (r: Result<VlanForm>) {
    if vlanId == 1 then Refuse(DefaultVlan)
    else if vlanId !in Ids(state.vlans) then Refuse(NoSuchVlan)
    else Ok(Delete(vlanId))
  }

  // ---------- the switch ----------

  /** Each named port's bit is set when its field has the given value and cleared otherwise. */
  function WriteMask(mask: int, selType: seq<int>, value: int): int {
    if selType == [] then mask
    else
      var k := |selType| - 1;
      var below := WriteMask(mask, selType[..k], value);
      if selType[k] == value then SetBit(below, k) else ClearBit(below, k)
  }

  lemma {:induction false} BitsOfWriteMask(mask: int, selType: seq<int>, value: int, k: nat)
    ensures Bit(WriteMask(mask, selType, value), k) <==>
            if k < |selType| then selType[k] == value else Bit(mask, k)
  {
    if selType != [] {
      var n := |selType| - 1;
      var below := WriteMask(mask, selType[..n], value);
      BitsOfWriteMask(mask, selType[..n], value, k);
      BitsOfSetBit(below, n, k);
      BitsOfClearBit(below, n, k);
    }
  }

  /** The first n elements of s, then x. */
  function AppendAt<T>(s: seq<T>, n: nat, x: T): (r: seq<T>)
    requires n <= |s|
    ensures |r| == n + 1
  {
    seq(n + 1, k requires 0 <= k <= n => if k < n then s[k] else x)
  }

  /** s without its element i */
  function DropAt<T>(s: seq<T>, i: nat): (r: seq<T>)
    requires i < |s|
    ensures |r| == |s| - 1
  {
    seq(|s| - 1, k requires 0 <= k < |s| - 1 => if k < i then s[k] else s[k + 1])
  }

  /** What the switch stores for a form: exactly the fields the form names change. */
  function Submit(page: Page, form: VlanForm): (r: Page)
    requires Readable(page)
    ensures Readable(r)
  {
    var n := page.count;
    var i := IndexOf(page.vids, n, form.vid);
    match form
    case AddModify(vid, vname, selType) =>
      if i < n then
        page.(names := page.names[i := vname],
              tagMbrs := page.tagMbrs[i := WriteMask(page.tagMbrs[i], selType, 1)],
              untagMbrs := page.untagMbrs[i := WriteMask(page.untagMbrs[i], selType, 0)])
      else
        page.(count := n + 1,
              vids := AppendAt(page.vids, n, vid),
              names := AppendAt(page.names, n, vname),
              tagMbrs := AppendAt(page.tagMbrs, n, WriteMask(0, selType, 1)),
              untagMbrs := AppendAt(page.untagMbrs, n, WriteMask(0, selType, 0)))
    case Delete(_) =>
      if i < n then
        page.(count := n - 1,
              vids := DropAt(page.vids, i),
              names := DropAt(page.names, i),
              tagMbrs := DropAt(page.tagMbrs, i),
              untagMbrs := DropAt(page.untagMbrs, i))
      else page
  }

  function Upsert(page: Page, vlanId: int, name: string, tagged: seq<int>, untagged: seq<int>): Result<Page> {
    var state :- Get8021qVlans(page);
    var form :- PlanUpsert(state, vlanId, name, tagged, untagged);
    Ok(Submit(page, form))
  }

  function Remove(page: Page, vlanId: int): Result<Page> {
    var state :- Get8021qVlans(page);
    var form :- PlanDelete(state, vlanId);
    Ok(Submit(page, form))
  }

  class VlanSwitch {
    var page: Page

    constructor (page: Page)
      ensures this.page == page
    {
      this.page := page;
    }

    method Receive(form: VlanForm)
      requires Readable(page)
      modifies this
      ensures page == Submit(old(page), form)
    {
      page := Submit(page, form);
    }
  }

  method Upsert8021qVlan(sw: VlanSwitch, vlanId: int, name: string, tagged: seq<int>, untagged: seq<int>)
    returns (r: Result<()>)
    modifies sw
    ensures match r
            case Ok(_) => Upsert(old(sw.page), vlanId, name, tagged, untagged) == Ok(sw.page)
            case Err(e) => Upsert(old(sw.page), vlanId, name, tagged, untagged) == Err(e) && sw.page == old(sw.page)
  {
    var state := Get8021qVlans(sw.page);
    if state.Err? {
      return Err(state.error);
    }
    var checked := CheckUpsert(state.value, vlanId, name, tagged, untagged);
    if checked.Err? {
      return Err(checked.error);
    }
    var selType := FillSelTypes(state.value.portCount, checked.value.0, checked.value.1);
    sw.Receive(AddModify(vlanId, name, selType));
    r := Ok(());
  }

  method Delete8021qVlan(sw: VlanSwitch, vlanId: int) returns (r: Result<()>)
    modifies sw
    ensures match r
            case Ok(_) => Remove(old(sw.page), vlanId) == Ok(sw.page)
            case Err(e) => Remove(old(sw.page), vlanId) == Err(e) && sw.page == old(sw.page)
  {
    var state := Get8021qVlans(sw.page);
    if state.Err? {
      return Err(state.error);
    }
    var form := PlanDelete(state.value, vlanId);
    if form.Err? {
      return Err(form.error);
    }
    sw.Receive(form.value);
    r := Ok(());
  }

  // ---------- what a caller gets ----------

  /** The table with this VLAN in place of the first one of its id, or at the end. */
  function Put(vlans: seq<Vlan>, vlan: Vlan): seq<Vlan> {
    var i := IndexOf(Ids(vlans), |vlans|, vlan.vlanId);
    if i < |vlans| then vlans[i := vlan] else AppendAt(vlans, i, vlan)
  }

  function Without(vlans: seq<Vlan>, vlanId: int): seq<Vlan> {
    var i := IndexOf(Ids(vlans), |vlans|, vlanId);
    if i < |vlans| then DropAt(vlans, i) else vlans
  }

  /** No port, and no LAG, is on both sides. */
  ghost predicate Conflicting(tagged: seq<int>, untagged: seq<int>, trunk: seq<int>) {
    exists p, q :: p in tagged && q in untagged && (p == q || SameLag(p, q, trunk))
  }

  lemma MemberHasSource(ports: seq<int>, trunk: seq<int>, p: int) returns (q: int)
    requires InRange(ports, |trunk|) && ExpandTrunkPorts(ports, trunk).Ok?
    requires p in ExpandTrunkPorts(ports, trunk).value
    ensures q in ports && (q == p || SameLag(q, p, trunk))
  {
    ExpandMembers(ports, trunk, p);
    if p in ports {
      q := p;
    } else {
      q :| q in ports && SameLag(q, p, trunk);
    }
  }

  lemma ConflictMeansOverlap(tagged: seq<int>, untagged: seq<int>, trunk: seq<int>)
    requires InRange(tagged, |trunk|) && InRange(untagged, |trunk|)
    ensures ExpandTrunkPorts(tagged, trunk).Ok? && ExpandTrunkPorts(untagged, trunk).Ok?
    ensures Conflicting(tagged, untagged, trunk) <==>
            exists p :: p in ExpandTrunkPorts(tagged, trunk).value && p in ExpandTrunkPorts(untagged, trunk).value
  {
    ExpandIsClosedSuperset(tagged, trunk);
    ExpandIsClosedSuperset(untagged, trunk);
    var t, u := ExpandTrunkPorts(tagged, trunk).value, ExpandTrunkPorts(untagged, trunk).value;
    if Conflicting(tagged, untagged, trunk) {
      var p, q :| p in tagged && q in untagged && (p == q || SameLag(p, q, trunk));
      assert q in t && q in u;
    }
    if p :| p in t && p in u {
      var a := MemberHasSource(tagged, trunk, p);
      var b := MemberHasSource(untagged, trunk, p);
      assert a == b || SameLag(a, b, trunk);
    }
  }

  /** Port p would be in no VLAN if VLAN 1 became exactly the LAG closure of the two selections. */
  ghost predicate WouldOrphan(state: VlanState, tagged: seq<int>, untagged: seq<int>, p: int) {
    && 1 <= p <= state.portCount
    && !(exists q :: (q in tagged || q in untagged) && (q == p || SameLag(q, p, state.trunkGroups)))
    && !HeldByOther(state.vlans, 1, p)
  }

  /** When an upsert is accepted, in terms of the arguments alone. */
  ghost predicate Acceptable(state: VlanState, vlanId: int, name: string, tagged: seq<int>, untagged: seq<int>) {
    && state.enabled && 1 <= vlanId <= 4094 && ValidName(name)
    && InRange(tagged, |state.trunkGroups|) && InRange(untagged, |state.trunkGroups|)
    && !Conflicting(tagged, untagged, state.trunkGroups)
    && (tagged != [] || untagged != [])
    && (vlanId in ExistingIds(state.vlans) || |ExistingIds(state.vlans)| < state.maxVlans)
  }

  lemma ExpandedSelection(state: VlanState, tagged: seq<int>, untagged: seq<int>, p: int)
    requires InRange(tagged, |state.trunkGroups|) && InRange(untagged, |state.trunkGroups|)
    ensures ExpandTrunkPorts(tagged, state.trunkGroups).Ok? && ExpandTrunkPorts(untagged, state.trunkGroups).Ok?
    ensures p in ExpandTrunkPorts(tagged, state.trunkGroups).value ||
            p in ExpandTrunkPorts(untagged, state.trunkGroups).value <==>
            exists q :: (q in tagged || q in untagged) && (q == p || SameLag(q, p, state.trunkGroups))
  {
    ExpandMembers(tagged, state.trunkGroups, p);
    ExpandMembers(untagged, state.trunkGroups, p);
  }

  /** The one refusal left once the other checks pass. */
  lemma AcceptableUpsert(state: VlanState, vlanId: int, name: string, tagged: seq<int>, untagged: seq<int>)
    requires Acceptable(state, vlanId, name, tagged, untagged)
    ensures ExpandTrunkPorts(tagged, state.trunkGroups).Ok? && ExpandTrunkPorts(untagged, state.trunkGroups).Ok?
    ensures var orphaned := Orphaned(state, ExpandTrunkPorts(tagged, state.trunkGroups).value,
                                     ExpandTrunkPorts(untagged, state.trunkGroups).value);
            if vlanId == 1 && orphaned != []
            then PlanUpsert(state, vlanId, name, tagged, untagged) == Refuse(OrphanedPorts(orphaned))
            else PlanUpsert(state, vlanId, name, tagged, untagged).Ok?
  {
    OverlapIsConflict(tagged, untagged, state.trunkGroups);
    ExpandIsClosedSuperset(tagged, state.trunkGroups);
    ExpandIsClosedSuperset(untagged, state.trunkGroups);
  }

  lemma AcceptedUpsert(state: VlanState, vlanId: int, name: string, tagged: seq<int>, untagged: seq<int>)
    requires PlanUpsert(state, vlanId, name, tagged, untagged).Ok?
    ensures Acceptable(state, vlanId, name, tagged, untagged)
  {
    ExpandIsClosedSuperset(tagged, state.trunkGroups);
    ExpandIsClosedSuperset(untagged, state.trunkGroups);
    OverlapIsConflict(tagged, untagged, state.trunkGroups);
  }

  /** An upsert that passes the other checks is refused exactly when it is for VLAN 1 and would orphan a port. */
  lemma UpsertIsAcceptedWhen(state: VlanState, vlanId: int, name: string, tagged: seq<int>, untagged: seq<int>)
    ensures PlanUpsert(state, vlanId, name, tagged, untagged).Ok? <==>
            && Acceptable(state, vlanId, name, tagged, untagged)
            && (vlanId == 1 ==> forall p :: !WouldOrphan(state, tagged, untagged, p))
    ensures PlanUpsert(state, vlanId, name, tagged, untagged).Err? &&
            Acceptable(state, vlanId, name, tagged, untagged) ==>
              exists ports ::
                && PlanUpsert(state, vlanId, name, tagged, untagged) == Refuse(OrphanedPorts(ports))
                && ports != []
                && forall p :: p in ports <==> WouldOrphan(state, tagged, untagged, p)
  {
    if PlanUpsert(state, vlanId, name, tagged, untagged).Ok? {
      AcceptedUpsert(state, vlanId, name, tagged, untagged);
    }
    if Acceptable(state, vlanId, name, tagged, untagged) {
      AcceptableUpsert(state, vlanId, name, tagged, untagged);
      OrphanedAreOrphans(state, tagged, untagged);
    }
  }

  lemma OverlapIsConflict(tagged: seq<int>, untagged: seq<int>, trunk: seq<int>)
    requires InRange(tagged, |trunk|) && InRange(untagged, |trunk|)
    ensures ExpandTrunkPorts(tagged, trunk).Ok? && ExpandTrunkPorts(untagged, trunk).Ok?
    ensures Overlap(ExpandTrunkPorts(tagged, trunk).value, ExpandTrunkPorts(untagged, trunk).value, |trunk|) != [] <==>
            Conflicting(tagged, untagged, trunk)
  {
    ConflictMeansOverlap(tagged, untagged, trunk);
    ExpandIsClosedSuperset(tagged, trunk);
    var overlap := Overlap(ExpandTrunkPorts(tagged, trunk).value, ExpandTrunkPorts(untagged, trunk).value, |trunk|);
    assert overlap != [] ==> overlap[0] in overlap;
  }

  lemma OrphanedAreOrphans(state: VlanState, tagged: seq<int>, untagged: seq<int>)
    requires InRange(tagged, |state.trunkGroups|) && InRange(untagged, |state.trunkGroups|)
    ensures ExpandTrunkPorts(tagged, state.trunkGroups).Ok? && ExpandTrunkPorts(untagged, state.trunkGroups).Ok?
    ensures var orphaned := Orphaned(state, ExpandTrunkPorts(tagged, state.trunkGroups).value,
                                     ExpandTrunkPorts(untagged, state.trunkGroups).value);
            && (forall p :: p in orphaned <==> WouldOrphan(state, tagged, untagged, p))
            && (orphaned == [] <==> forall p :: !WouldOrphan(state, tagged, untagged, p))
  {
    ExpandIsClosedSuperset(tagged, state.trunkGroups);
    ExpandIsClosedSuperset(untagged, state.trunkGroups);
    var orphaned := Orphaned(state, ExpandTrunkPorts(tagged, state.trunkGroups).value,
                             ExpandTrunkPorts(untagged, state.trunkGroups).value);
    forall p
      ensures p in orphaned <==> WouldOrphan(state, tagged, untagged, p)
    {
      ExpandedSelection(state, tagged, untagged, p);
    }
    assert orphaned != [] ==> orphaned[0] in orphaned;
  }

  /** The port was named, or a port of its LAG was. */
  ghost predicate Selected(ports: seq<int>, trunk: seq<int>, p: int) {
    exists q :: q in ports && (q == p || SameLag(q, p, trunk))
  }

  lemma SelectedIsExpanded(ports: seq<int>, trunk: seq<int>)
    requires InRange(ports, |trunk|)
    ensures ExpandTrunkPorts(ports, trunk).Ok?
    ensures forall p :: p in ExpandTrunkPorts(ports, trunk).value <==> Selected(ports, trunk, p)
  {
    ExpandIsClosedSuperset(ports, trunk);
    forall p
      ensures p in ExpandTrunkPorts(ports, trunk).value <==> Selected(ports, trunk, p)
    {
      ExpandMembers(ports, trunk, p);
    }
  }

  /** The checks on the arguments that come before the LAG map is used. */
  predicate PlainChecks(state: VlanState, vlanId: int, name: string) {
    state.enabled && 1 <= vlanId <= 4094 && ValidName(name)
  }

  /** A refusal of an upsert names the first check that fails, in the order of the source. */
  lemma RefusedUpsert(state: VlanState, vlanId: int, name: string, tagged: seq<int>, untagged: seq<int>)
    requires PlanUpsert(state, vlanId, name, tagged, untagged).Err?
    ensures PlanUpsert(state, vlanId, name, tagged, untagged).error.ActionError?
    ensures var n := |state.trunkGroups|;
            match PlanUpsert(state, vlanId, name, tagged, untagged).error.refusal
            case ModeDisabled => !state.enabled
            case VlanIdOutOfRange => state.enabled && !(1 <= vlanId <= 4094)
            case InvalidVlanName => state.enabled && 1 <= vlanId <= 4094 && !ValidName(name)
            case PortsOutOfRange(invalid) =>
              && PlainChecks(state, vlanId, name) && invalid != []
              && forall p :: p in invalid <==>
                             p in (if InRange(tagged, n) then untagged else tagged) && !(1 <= p <= n)
            case TaggedAndUntagged(overlap) =>
              && PlainChecks(state, vlanId, name) && InRange(tagged, n) && InRange(untagged, n)
              && Conflicting(tagged, untagged, state.trunkGroups)
              && forall p :: p in overlap <==> Selected(tagged, state.trunkGroups, p) &&
                                               Selected(untagged, state.trunkGroups, p)
            case NoPortSelected => PlainChecks(state, vlanId, name) && tagged == [] && untagged == []
            case TooManyVlans =>
              && PlainChecks(state, vlanId, name) && InRange(tagged, n) && InRange(untagged, n)
              && !Conflicting(tagged, untagged, state.trunkGroups) && (tagged != [] || untagged != [])
              && vlanId !in ExistingIds(state.vlans) && |ExistingIds(state.vlans)| >= state.maxVlans
            case OrphanedPorts(orphaned) =>
              && Acceptable(state, vlanId, name, tagged, untagged) && vlanId == 1 && orphaned != []
              && forall p :: p in orphaned <==> WouldOrphan(state, tagged, untagged, p)
            case _ => false
  {
    hide UniquePorts, Invalid, ValidatePorts;
    ExpandIsClosedSuperset(tagged, state.trunkGroups);
    ExpandIsClosedSuperset(untagged, state.trunkGroups);
    if !InRange(tagged, |state.trunkGroups|) {
      RefusedExpansion(tagged, state.trunkGroups);
    }
    if !InRange(untagged, |state.trunkGroups|) {
      RefusedExpansion(untagged, state.trunkGroups);
    }
    if InRange(tagged, |state.trunkGroups|) && InRange(untagged, |state.trunkGroups|) {
      OverlapIsConflict(tagged, untagged, state.trunkGroups);
      OrphanedAreOrphans(state, tagged, untagged);
      SelectedIsExpanded(tagged, state.trunkGroups);
      SelectedIsExpanded(untagged, state.trunkGroups);
      ExpandIsClosedSuperset(tagged, state.trunkGroups);
    }
  }

  lemma DecodeOfWrittenMask(mask: int, n: nat, tagged: seq<int>, untagged: seq<int>)
    requires StrictlySorted(tagged) && InRange(tagged, n) && StrictlySorted(untagged) && InRange(untagged, n)
    requires forall p :: !(p in tagged && p in untagged)
    ensures DecodePortMask(WriteMask(mask, SelTypes(n, tagged, untagged), 1), n) == tagged
    ensures DecodePortMask(WriteMask(mask, SelTypes(n, tagged, untagged), 0), n) == untagged
  {
    var sel := SelTypes(n, tagged, untagged);
    forall p | 1 <= p <= n
      ensures Bit(WriteMask(mask, sel, 1), p - 1) <==> p in tagged
      ensures Bit(WriteMask(mask, sel, 0), p - 1) <==> p in untagged
    {
      BitsOfWriteMask(mask, sel, 1, p - 1);
      BitsOfWriteMask(mask, sel, 0, p - 1);
    }
    SortedIsUnique(DecodePortMask(WriteMask(mask, sel, 1), n), tagged);
    SortedIsUnique(DecodePortMask(WriteMask(mask, sel, 0), n), untagged);
  }

  lemma SameIndex(page: Page, vlanId: int)
    requires Readable(page)
    ensures var vlans := Get8021qVlans(page).value.vlans;
            IndexOf(Ids(vlans), |vlans|, vlanId) == IndexOf(page.vids, page.count, vlanId)
  {
    var vlans := Get8021qVlans(page).value.vlans;
    assert forall j | 0 <= j < page.count :: Ids(vlans)[j] == page.vids[j];
    IndexOfPrefix(Ids(vlans), page.vids, page.count, vlanId);
  }

  lemma ExpandedArePorts(state: VlanState, vlanId: int, name: string, tagged: seq<int>, untagged: seq<int>)
    requires CheckUpsert(state, vlanId, name, tagged, untagged).Ok?
    ensures var (t, u) := CheckUpsert(state, vlanId, name, tagged, untagged).value;
            && ExpandTrunkPorts(tagged, state.trunkGroups) == Ok(t)
            && ExpandTrunkPorts(untagged, state.trunkGroups) == Ok(u)
            && StrictlySorted(t) && InRange(t, |state.trunkGroups|) && LagClosed(t, state.trunkGroups)
            && StrictlySorted(u) && InRange(u, |state.trunkGroups|) && LagClosed(u, state.trunkGroups)
            && (forall p :: !(p in t && p in u))
            && (t != [] || u != [])
  {
    ExpandIsClosedSuperset(tagged, state.trunkGroups);
    ExpandIsClosedSuperset(untagged, state.trunkGroups);
    var (t, u) := CheckUpsert(state, vlanId, name, tagged, untagged).value;
    var n := |state.trunkGroups|;
    assert forall p :: p in Overlap(t, u, n) <==> 1 <= p <= n && p in t && p in u;
  }

  lemma ReadAfterAddModify(page: Page, vlanId: int, name: string, t: seq<int>, u: seq<int>)
    requires Readable(page)
    requires StrictlySorted(t) && InRange(t, page.portNum) && StrictlySorted(u) && InRange(u, page.portNum)
    requires forall p :: !(p in t && p in u)
    ensures var before := Get8021qVlans(page).value;
            Get8021qVlans(Submit(page, AddModify(vlanId, name, SelTypes(page.portNum, t, u)))) ==
            Ok(before.(vlans := Put(before.vlans, Vlan(vlanId, name, t, u))))
  {
    var before := Get8021qVlans(page).value;
    SameIndex(page, vlanId);
    var after := Submit(page, AddModify(vlanId, name, SelTypes(page.portNum, t, u)));
    var i := IndexOf(page.vids, page.count, vlanId);
    DecodeOfWrittenMask(if i < page.count then page.tagMbrs[i] else 0, page.portNum, t, u);
    DecodeOfWrittenMask(if i < page.count then page.untagMbrs[i] else 0, page.portNum, t, u);
    var vlan := Vlan(vlanId, name, t, u);
    var expected := Put(before.vlans, vlan);
    forall k: nat | k < after.count
      ensures Row(after, k) == expected[k]
    {
      if k == i {
        assert Row(after, k) == vlan;
      } else {
        assert Row(after, k) == Row(page, k);
      }
    }
    assert Get8021qVlans(after).value.vlans == expected;
  }

  /** A delete is refused for VLAN 1, listed or not, and else for an id that is not listed. */
  lemma RefusedDelete(state: VlanState, vlanId: int)
    ensures PlanDelete(state, vlanId) ==
            if vlanId == 1 then Refuse(DefaultVlan)
            else if exists i :: 0 <= i < |state.vlans| && state.vlans[i].vlanId == vlanId then Ok(Delete(vlanId))
            else Refuse(NoSuchVlan)
  {
    var ids := Ids(state.vlans);
    if i :| 0 <= i < |state.vlans| && state.vlans[i].vlanId == vlanId {
      assert ids[i] == vlanId;
    }
  }

  /** Write then read: the table afterwards is the table before with exactly the requested VLAN put in. */
  lemma UpsertThenRead(page: Page, vlanId: int, name: string, tagged: seq<int>, untagged: seq<int>)
    requires Upsert(page, vlanId, name, tagged, untagged).Ok?
    ensures Readable(page)
    ensures var before := Get8021qVlans(page).value;
            && ExpandTrunkPorts(tagged, before.trunkGroups).Ok?
            && ExpandTrunkPorts(untagged, before.trunkGroups).Ok?
            && Get8021qVlans(Upsert(page, vlanId, name, tagged, untagged).value) ==
               Ok(before.(vlans := Put(before.vlans, Vlan(vlanId, name,
                                                          ExpandTrunkPorts(tagged, before.trunkGroups).value,
                                                          ExpandTrunkPorts(untagged, before.trunkGroups).value))))
  {
    var before := Get8021qVlans(page).value;
    ExpandedArePorts(before, vlanId, name, tagged, untagged);
    var (t, u) := CheckUpsert(before, vlanId, name, tagged, untagged).value;
    ReadAfterAddModify(page, vlanId, name, t, u);
  }

  lemma ReadAfterDelete(page: Page, vlanId: int)
    requires Readable(page)
    ensures var before := Get8021qVlans(page).value;
            Get8021qVlans(Submit(page, Delete(vlanId))) == Ok(before.(vlans := Without(before.vlans, vlanId)))
  {
    var before := Get8021qVlans(page).value;
    SameIndex(page, vlanId);
    var after := Submit(page, Delete(vlanId));
    var i := IndexOf(page.vids, page.count, vlanId);
    var expected := Without(before.vlans, vlanId);
    forall k: nat | k < after.count
      ensures Row(after, k) == expected[k]
    {
      if k < i {
        assert Row(after, k) == Row(page, k);
      } else {
        assert Row(after, k) == Row(page, k + 1);
      }
    }
    assert Get8021qVlans(after).value.vlans == expected;
  }

  /** A delete is accepted for any listed VLAN but VLAN 1, whatever ports it holds, and removes that row alone. */
  lemma DeleteThenRead(page: Page, vlanId: int)
    ensures Remove(page, vlanId).Ok? <==>
            Readable(page) && vlanId != 1 && vlanId in Ids(Get8021qVlans(page).value.vlans)
    ensures Remove(page, vlanId).Ok? ==>
              var before := Get8021qVlans(page).value;
              Get8021qVlans(Remove(page, vlanId).value) == Ok(before.(vlans := Without(before.vlans, vlanId)))
  {
    if Readable(page) {
      ReadAfterDelete(page, vlanId);
    }
  }

  // ---------- the same over the pages ----------

  /** Ports p and q have the same positive entry in the LAG column of the page. */
  predicate SameColumn(page: Page, p: int, q: int)
    requires Readable(page)
  {
    && page.lagIds.Some? && 1 <= p <= page.portNum && 1 <= q <= page.portNum
    && page.lagIds.value[p - 1] > 0 && page.lagIds.value[p - 1] == page.lagIds.value[q - 1]
  }

  /** The port was named, or a port of its LAG was. */
  ghost predicate Chosen(page: Page, ports: seq<int>, p: int)
    requires Readable(page)
  {
    exists q :: q in ports && (q == p || SameColumn(page, q, p))
  }

  lemma ChosenIsExpanded(page: Page, ports: seq<int>, p: int)
    requires Readable(page) && InRange(ports, page.portNum)
    ensures var expanded := ExpandTrunkPorts(ports, Get8021qVlans(page).value.trunkGroups);
            expanded.Ok? && (p in expanded.value <==> Chosen(page, ports, p))
  {
    var trunk := Get8021qVlans(page).value.trunkGroups;
    ExpandMembers(ports, trunk, p);
    assert forall q :: SameLag(q, p, trunk) <==> SameColumn(page, q, p);
  }

  /** The form of an accepted upsert: each port's field says whether its LAG was chosen as tagged or untagged. */
  lemma UpsertForm(page: Page, vlanId: int, name: string, tagged: seq<int>, untagged: seq<int>)
    requires Readable(page)
    requires PlanUpsert(Get8021qVlans(page).value, vlanId, name, tagged, untagged).Ok?
    ensures var form := PlanUpsert(Get8021qVlans(page).value, vlanId, name, tagged, untagged).value;
            && form.AddModify? && form.vid == vlanId && form.vname == name && |form.selType| == page.portNum
            && forall p :: 1 <= p <= page.portNum ==>
                 form.selType[p - 1] ==
                 if Chosen(page, tagged, p) then 1 else if Chosen(page, untagged, p) then 0 else 2
  {
    var state := Get8021qVlans(page).value;
    ExpandedArePorts(state, vlanId, name, tagged, untagged);
    ExpandIsClosedSuperset(tagged, state.trunkGroups);
    ExpandIsClosedSuperset(untagged, state.trunkGroups);
    forall p
      ensures p in ExpandTrunkPorts(tagged, state.trunkGroups).value <==> Chosen(page, tagged, p)
      ensures p in ExpandTrunkPorts(untagged, state.trunkGroups).value <==> Chosen(page, untagged, p)
    {
      ChosenIsExpanded(page, tagged, p);
      ChosenIsExpanded(page, untagged, p);
    }
  }

  /**
   * The switch after an accepted upsert: the first row of the id, or a new last row, has the name and exactly
   * the chosen ports' bits, and every other row is as it was.
   */
  lemma UpsertOverPages(page: Page, vlanId: int, name: string, tagged: seq<int>, untagged: seq<int>)
    returns (row: nat)
    requires Upsert(page, vlanId, name, tagged, untagged).Ok?
    ensures var after := Upsert(page, vlanId, name, tagged, untagged).value;
            && Readable(page) && Readable(after) && row <= page.count
            && after == page.(count := after.count, vids := after.vids, names := after.names,
                              tagMbrs := after.tagMbrs, untagMbrs := after.untagMbrs)
            && after.count == (if row < page.count then page.count else page.count + 1)
            && (forall i :: 0 <= i < row ==> page.vids[i] != vlanId)
            && (row < page.count ==> page.vids[row] == vlanId)
            && after.vids[row] == vlanId && after.names[row] == name
            && (forall p :: 1 <= p <= page.portNum ==>
                  && (Bit(after.tagMbrs[row], p - 1) <==> Chosen(page, tagged, p))
                  && (Bit(after.untagMbrs[row], p - 1) <==> Chosen(page, untagged, p)))
            && forall i :: 0 <= i < page.count && i != row ==>
                 && after.vids[i] == page.vids[i] && after.names[i] == page.names[i]
                 && after.tagMbrs[i] == page.tagMbrs[i] && after.untagMbrs[i] == page.untagMbrs[i]
  {
    hide Chosen, PlanUpsert;
    UpsertForm(page, vlanId, name, tagged, untagged);
    ChosenNotBoth(page, vlanId, name, tagged, untagged);
    var form := PlanUpsert(Get8021qVlans(page).value, vlanId, name, tagged, untagged).value;
    row := IndexOf(page.vids, page.count, vlanId);
    var oldTag := if row < page.count then page.tagMbrs[row] else 0;
    var oldUntag := if row < page.count then page.untagMbrs[row] else 0;
    forall p | 1 <= p <= page.portNum
      ensures Bit(WriteMask(oldTag, form.selType, 1), p - 1) <==> Chosen(page, tagged, p)
      ensures Bit(WriteMask(oldUntag, form.selType, 0), p - 1) <==> Chosen(page, untagged, p)
    {
      BitsOfWriteMask(oldTag, form.selType, 1, p - 1);
      BitsOfWriteMask(oldUntag, form.selType, 0, p - 1);
    }
    hide WriteMask;
  }

  lemma ChosenNotBoth(page: Page, vlanId: int, name: string, tagged: seq<int>, untagged: seq<int>)
    requires Readable(page)
    requires PlanUpsert(Get8021qVlans(page).value, vlanId, name, tagged, untagged).Ok?
    ensures forall p :: !(Chosen(page, tagged, p) && Chosen(page, untagged, p))
  {
    var state := Get8021qVlans(page).value;
    ExpandedArePorts(state, vlanId, name, tagged, untagged);
    ExpandIsClosedSuperset(tagged, state.trunkGroups);
    ExpandIsClosedSuperset(untagged, state.trunkGroups);
    forall p
      ensures !(Chosen(page, tagged, p) && Chosen(page, untagged, p))
    {
      ChosenIsExpanded(page, tagged, p);
      ChosenIsExpanded(page, untagged, p);
    }
  }

  /** The switch after an accepted delete: the first row of the id is gone, the rows after it move up. */
  lemma DeleteOverPages(page: Page, vlanId: int) returns (row: nat)
    requires Remove(page, vlanId).Ok?
    ensures var after := Remove(page, vlanId).value;
            && Readable(page) && Readable(after) && row < page.count && after.count == page.count - 1
            && page.vids[row] == vlanId && (forall i :: 0 <= i < row ==> page.vids[i] != vlanId)
            && after == page.(count := after.count, vids := after.vids, names := after.names,
                              tagMbrs := after.tagMbrs, untagMbrs := after.untagMbrs)
            && forall i :: 0 <= i < after.count ==>
                 var k := if i < row then i else i + 1;
                 && after.vids[i] == page.vids[k] && after.names[i] == page.names[k]
                 && after.tagMbrs[i] == page.tagMbrs[k] && after.untagMbrs[i] == page.untagMbrs[k]
  {
    row := IndexOf(page.vids, page.count, vlanId);
    var ids := Ids(Get8021qVlans(page).value.vlans);
    var at :| 0 <= at < |ids| && ids[at] == vlanId;
    ReadRow(page, at, 0);
  }
}
