/** Whole runs of 802.1Q upserts and deletes: the table invariant, and port coverage. */
module QVlanRuns {
  import opened Results
  import opened Bits
  import opened Ports
  import opened QVlan

  datatype VlanOp =
    | UpsertOp(vlanId: int, name: string, tagged: seq<int>, untagged: seq<int>)
    | DeleteOp(vlanId: int)

  function Attempt(page: Page, op: VlanOp): Result<Page> {
    match op
    case UpsertOp(vlanId, name, tagged, untagged) => Upsert(page, vlanId, name, tagged, untagged)
    case DeleteOp(vlanId) => Remove(page, vlanId)
  }

  /** A refused call sends no form. */
  function Step(page: Page, op: VlanOp): Page {
    match Attempt(page, op)
    case Ok(after) => after
    case Err(_) => page
  }

  function Run(page: Page, ops: seq<VlanOp>): Page
    decreases |ops|
  {
    if ops == [] then page else Run(Step(page, ops[0]), ops[1..])
  }

  // ---------- the table invariant ----------

  ghost predicate VlanOk(vlan: Vlan, state: VlanState) {
    && 1 <= vlan.vlanId <= 4094
    && (forall p :: !(p in vlan.tagged && p in vlan.untagged))
    && InRange(vlan.tagged, state.portCount) && InRange(vlan.untagged, state.portCount)
    && LagClosed(vlan.tagged, state.trunkGroups) && LagClosed(vlan.untagged, state.trunkGroups)
  }

  /** Named, so that distinctness is used only where a proof mentions it. */
  ghost predicate IdsDiffer(vlans: seq<Vlan>, i: nat, j: nat)
    requires i < |vlans| && j < |vlans|
  {
    vlans[i].vlanId != vlans[j].vlanId
  }

  ghost predicate DistinctIds(vlans: seq<Vlan>) {
    forall i, j :: 0 <= i < j < |vlans| ==> IdsDiffer(vlans, i, j)
  }

  /** In a table of distinct ids, the one at i is nowhere else. */
  lemma OnlyAt(vlans: seq<Vlan>, i: nat)
    requires DistinctIds(vlans) && i < |vlans|
    ensures forall k :: 0 <= k < |vlans| && k != i ==> vlans[k].vlanId != vlans[i].vlanId
  {
    forall k | 0 <= k < |vlans| && k != i
      ensures vlans[k].vlanId != vlans[i].vlanId
    {
      assert if k < i then IdsDiffer(vlans, k, i) else IdsDiffer(vlans, i, k);
    }
  }

  ghost predicate TableOk(state: VlanState) {
    && DistinctIds(state.vlans)
    && |state.vlans| <= state.maxVlans
    && (forall i :: 0 <= i < |state.vlans| ==> VlanOk(state.vlans[i], state))
    && (exists i :: 0 <= i < |state.vlans| && state.vlans[i].vlanId == 1)
    && |state.trunkGroups| == state.portCount
  }

  ghost predicate PageOk(page: Page) {
    Readable(page) && TableOk(Get8021qVlans(page).value)
  }

  /** No VLAN of the table is empty; a table may start with such VLANs, but no call makes one. */
  ghost predicate NoneEmpty(vlans: seq<Vlan>) {
    forall i :: 0 <= i < |vlans| ==> vlans[i].tagged != [] || vlans[i].untagged != []
  }

  lemma {:induction false} DistinctIdsCount(vlans: seq<Vlan>)
    requires DistinctIds(vlans)
    ensures |ExistingIds(vlans)| == |vlans|
  {
    if vlans == [] {
      assert ExistingIds(vlans) == {};
    } else {
      var n := |vlans| - 1;
      forall i, j | 0 <= i < j < n
        ensures IdsDiffer(vlans[..n], i, j)
      {
        assert IdsDiffer(vlans, i, j);
      }
      OnlyAt(vlans, n);
      DistinctIdsCount(vlans[..n]);
      var below := ExistingIds(vlans[..n]);
      forall id
        ensures id in ExistingIds(vlans) <==> id in below || id == vlans[n].vlanId
      {
        if id in below {
          var i :| 0 <= i < n && vlans[..n][i].vlanId == id;
          assert vlans[i].vlanId == id;
        }
        if id in ExistingIds(vlans) {
          var i :| 0 <= i < |vlans| && vlans[i].vlanId == id;
          assert i < n ==> vlans[..n][i].vlanId == id;
        }
      }
      assert ExistingIds(vlans) == below + {vlans[n].vlanId};
    }
  }

  /** The position at which Put writes: that of the VLAN's id, or the end. */
  lemma PutPosition(vlans: seq<Vlan>, vlan: Vlan) returns (i: nat)
    ensures i <= |vlans| && |Put(vlans, vlan)| == (if i < |vlans| then |vlans| else |vlans| + 1)
    ensures i < |vlans| ==> vlans[i].vlanId == vlan.vlanId
    ensures i == |vlans| ==> forall k :: 0 <= k < |vlans| ==> vlans[k].vlanId != vlan.vlanId
    ensures Put(vlans, vlan)[i] == vlan
    ensures forall k :: 0 <= k < |vlans| && k != i ==> Put(vlans, vlan)[k] == vlans[k]
  {
    var ids := Ids(vlans);
    i := IndexOf(ids, |vlans|, vlan.vlanId);
    assert i == |vlans| ==> forall k :: 0 <= k < |vlans| ==> ids[k] == vlans[k].vlanId;
  }

  lemma UpsertKeepsTable(state: VlanState, vlan: Vlan)
    requires TableOk(state) && VlanOk(vlan, state)
    requires vlan.vlanId in ExistingIds(state.vlans) || |ExistingIds(state.vlans)| < state.maxVlans
    ensures TableOk(state.(vlans := Put(state.vlans, vlan)))
    ensures NoneEmpty(state.vlans) && (vlan.tagged != [] || vlan.untagged != []) ==> NoneEmpty(Put(state.vlans, vlan))
  {
    var i := PutPosition(state.vlans, vlan);
    DistinctIdsCount(state.vlans);
    var after := state.(vlans := Put(state.vlans, vlan));
    forall k | 0 <= k < |after.vlans|
      ensures VlanOk(after.vlans[k], after)
    {
      assert VlanOk(if k == i then vlan else state.vlans[k], state);
    }
    forall k, j | 0 <= k < j < |after.vlans|
      ensures IdsDiffer(after.vlans, k, j)
    {
      if j < |state.vlans| {
        assert IdsDiffer(state.vlans, k, j);
      }
    }
    var one :| 0 <= one < |state.vlans| && state.vlans[one].vlanId == 1;
    assert after.vlans[one].vlanId == 1;
  }

  lemma DeleteKeepsTable(state: VlanState, vlanId: int)
    requires TableOk(state) && vlanId != 1
    ensures TableOk(state.(vlans := Without(state.vlans, vlanId)))
    ensures NoneEmpty(state.vlans) ==> NoneEmpty(Without(state.vlans, vlanId))
  {
    var i := IndexOf(Ids(state.vlans), |state.vlans|, vlanId);
    var after := state.(vlans := Without(state.vlans, vlanId));
    if i < |state.vlans| {
      forall k | 0 <= k < |after.vlans|
        ensures VlanOk(after.vlans[k], after)
      {
        assert VlanOk(state.vlans[if k < i then k else k + 1], state);
      }
      forall k, j | 0 <= k < j < |after.vlans|
        ensures IdsDiffer(after.vlans, k, j)
      {
        assert IdsDiffer(state.vlans, if k < i then k else k + 1, if j < i then j else j + 1);
      }
      var one :| 0 <= one < |state.vlans| && state.vlans[one].vlanId == 1;
      assert after.vlans[if one < i then one else one - 1].vlanId == 1;
    }
  }

  /** One call, accepted or refused, keeps the invariant, the limits and the LAG map. */
  lemma StepKeepsTable(page: Page, op: VlanOp)
    requires PageOk(page)
    ensures PageOk(Step(page, op))
    ensures var before, after := Get8021qVlans(page).value, Get8021qVlans(Step(page, op)).value;
            && after == before.(vlans := after.vlans)
            && (NoneEmpty(before.vlans) ==> NoneEmpty(after.vlans))
  {
    var before := Get8021qVlans(page).value;
    if Attempt(page, op).Ok? {
      match op
      case UpsertOp(vlanId, name, tagged, untagged) =>
        UpsertThenRead(page, vlanId, name, tagged, untagged);
        ExpandedArePorts(before, vlanId, name, tagged, untagged);
        var (t, u) := CheckUpsert(before, vlanId, name, tagged, untagged).value;
        UpsertKeepsTable(before, Vlan(vlanId, name, t, u));
      case DeleteOp(vlanId) =>
        DeleteThenRead(page, vlanId);
        DeleteKeepsTable(before, vlanId);
    }
  }

  /** Every run of upserts and deletes keeps the table invariant. */
  lemma {:induction false} RunKeepsTable(page: Page, ops: seq<VlanOp>)
    requires PageOk(page)
    ensures PageOk(Run(page, ops))
    ensures Get8021qVlans(Run(page, ops)).value.trunkGroups == Get8021qVlans(page).value.trunkGroups
    ensures NoneEmpty(Get8021qVlans(page).value.vlans) ==> NoneEmpty(Get8021qVlans(Run(page, ops)).value.vlans)
    decreases |ops|
  {
    if ops != [] {
      StepKeepsTable(page, ops[0]);
      RunKeepsTable(Step(page, ops[0]), ops[1..]);
    }
  }

  // ---------- coverage ----------

  ghost predicate HeldBy(vlans: seq<Vlan>, vlanId: int, port: int) {
    exists i :: 0 <= i < |vlans| && vlans[i].vlanId == vlanId && Member(vlans[i], port)
  }

  ghost predicate Held(vlans: seq<Vlan>, port: int) {
    exists i :: 0 <= i < |vlans| && Member(vlans[i], port)
  }

  /** Every port of the switch is in some VLAN. */
  ghost predicate Covers(state: VlanState) {
    forall p :: 1 <= p <= state.portCount ==> Held(state.vlans, p)
  }

  ghost predicate Covered(page: Page)
    requires Readable(page)
  {
    Covers(Get8021qVlans(page).value)
  }

  /** The ports that the named VLAN has and that the call takes out of it. */
  ghost predicate GivesUp(state: VlanState, op: VlanOp, port: int) {
    && HeldBy(state.vlans, op.vlanId, port)
    && (op.UpsertOp? ==>
          !exists q :: (q in op.tagged || q in op.untagged) && (q == port || SameLag(q, port, state.trunkGroups)))
  }

  /** What a caller can check before the call: VLAN 1 is guarded by the client, other VLANs are not. */
  ghost predicate KeepsCover(page: Page, op: VlanOp)
    requires Readable(page)
  {
    var state := Get8021qVlans(page).value;
    (op.UpsertOp? && op.vlanId == 1) ||
    forall p :: GivesUp(state, op, p) ==> HeldByOther(state.vlans, op.vlanId, p)
  }

  lemma HeldAfterPut(vlans: seq<Vlan>, vlan: Vlan, port: int)
    requires DistinctIds(vlans)
    ensures Held(Put(vlans, vlan), port) <==> Member(vlan, port) || HeldByOther(vlans, vlan.vlanId, port)
  {
    var i := PutPosition(vlans, vlan);
    if i < |vlans| {
      OnlyAt(vlans, i);
    }
    var after := Put(vlans, vlan);
    if Held(after, port) {
      var k :| 0 <= k < |after| && Member(after[k], port);
      assert k == i || vlans[k].vlanId != vlan.vlanId;
    }
    if k :| 0 <= k < |vlans| && vlans[k].vlanId != vlan.vlanId && Member(vlans[k], port) {
      assert Member(after[k], port);
    }
    assert Member(after[i], port) <==> Member(vlan, port);
  }

  lemma HeldAfterWithout(vlans: seq<Vlan>, vlanId: int, port: int)
    requires DistinctIds(vlans) && vlanId in Ids(vlans)
    ensures Held(Without(vlans, vlanId), port) <==> HeldByOther(vlans, vlanId, port)
  {
    var ids := Ids(vlans);
    var i := IndexOf(ids, |vlans|, vlanId);
    var at :| 0 <= at < |ids| && ids[at] == vlanId;
    assert i < |vlans| && vlans[i].vlanId == vlanId;
    OnlyAt(vlans, i);
    var after := Without(vlans, vlanId);
    if Held(after, port) {
      var k :| 0 <= k < |after| && Member(after[k], port);
      var k' := if k < i then k else k + 1;
      assert vlans[k'].vlanId != vlanId && Member(vlans[k'], port);
    }
    if k :| 0 <= k < |vlans| && vlans[k].vlanId != vlanId && Member(vlans[k], port) {
      assert Member(after[if k < i then k else k - 1], port);
    }
  }

  lemma HeldSplits(vlans: seq<Vlan>, vlanId: int, port: int)
    ensures Held(vlans, port) <==> HeldBy(vlans, vlanId, port) || HeldByOther(vlans, vlanId, port)
  {
    if Held(vlans, port) {
      var k :| 0 <= k < |vlans| && Member(vlans[k], port);
      assert vlans[k].vlanId == vlanId || vlans[k].vlanId != vlanId;
    }
  }

  /** Which ports are held after an accepted call. */
  lemma HeldAfterStep(page: Page, op: VlanOp, port: int)
    requires PageOk(page) && Attempt(page, op).Ok?
    ensures Readable(Step(page, op))
    ensures var state := Get8021qVlans(page).value;
            Held(Get8021qVlans(Step(page, op)).value.vlans, port) <==>
            || HeldByOther(state.vlans, op.vlanId, port)
            || (op.UpsertOp? && exists q :: (q in op.tagged || q in op.untagged) &&
                                            (q == port || SameLag(q, port, state.trunkGroups)))
  {
    var before := Get8021qVlans(page).value;
    match op
    case UpsertOp(vlanId, name, tagged, untagged) =>
      UpsertThenRead(page, vlanId, name, tagged, untagged);
      ExpandIsClosedSuperset(tagged, before.trunkGroups);
      ExpandIsClosedSuperset(untagged, before.trunkGroups);
      ExpandedSelection(before, tagged, untagged, port);
      var t := ExpandTrunkPorts(tagged, before.trunkGroups).value;
      var u := ExpandTrunkPorts(untagged, before.trunkGroups).value;
      HeldAfterPut(before.vlans, Vlan(vlanId, name, t, u), port);
    case DeleteOp(vlanId) =>
      DeleteThenRead(page, vlanId);
      HeldAfterWithout(before.vlans, vlanId, port);
  }

  /** An accepted upsert of VLAN 1 leaves every port covered, whatever the cover was before. */
  lemma DefaultVlanUpsertCovers(page: Page, op: VlanOp)
    requires PageOk(page) && op.UpsertOp? && op.vlanId == 1 && Attempt(page, op).Ok?
    ensures Readable(Step(page, op)) && Covered(Step(page, op))
  {
    var before := Get8021qVlans(page).value;
    UpsertIsAcceptedWhen(before, op.vlanId, op.name, op.tagged, op.untagged);
    StepKeepsTable(page, op);
    forall p | 1 <= p <= before.portCount
      ensures Held(Get8021qVlans(Step(page, op)).value.vlans, p)
    {
      assert !WouldOrphan(before, op.tagged, op.untagged, p);
      HeldAfterStep(page, op, p);
    }
  }

  /** From a covered table, an accepted call leaves it covered exactly when KeepsCover held. */
  lemma StepCoverage(page: Page, op: VlanOp)
    requires PageOk(page) && Covered(page) && Attempt(page, op).Ok?
    ensures Readable(Step(page, op))
    ensures Covered(Step(page, op)) <==> KeepsCover(page, op)
  {
    var before := Get8021qVlans(page).value;
    StepKeepsTable(page, op);
    if op.UpsertOp? && op.vlanId == 1 {
      DefaultVlanUpsertCovers(page, op);
    } else {
      var after := Get8021qVlans(Step(page, op)).value;
      forall p
        ensures 1 <= p <= before.portCount ==>
                  (Held(after.vlans, p) <==> (GivesUp(before, op, p) ==> HeldByOther(before.vlans, op.vlanId, p)))
        ensures GivesUp(before, op, p) ==> 1 <= p <= before.portCount
      {
        HeldAfterStep(page, op, p);
        HeldSplits(before.vlans, op.vlanId, p);
        if GivesUp(before, op, p) {
          var i :| 0 <= i < |before.vlans| && before.vlans[i].vlanId == op.vlanId && Member(before.vlans[i], p);
          assert VlanOk(before.vlans[i], before);
        }
      }
    }
  }

  lemma DeleteOrphans(page: Page, vlanId: int, port: int)
    requires PageOk(page) && Covered(page) && vlanId != 1
    requires var state := Get8021qVlans(page).value;
             GivesUp(state, DeleteOp(vlanId), port) && !HeldByOther(state.vlans, vlanId, port)
    ensures Attempt(page, DeleteOp(vlanId)).Ok?
    ensures Readable(Step(page, DeleteOp(vlanId))) && !Covered(Step(page, DeleteOp(vlanId)))
  {
    var vlans := Get8021qVlans(page).value.vlans;
    var i :| 0 <= i < |vlans| && vlans[i].vlanId == vlanId;
    assert Ids(vlans)[i] == vlanId;
    StepCoverage(page, DeleteOp(vlanId));
  }

  /** Each accepted call of the run met KeepsCover when it was made. */
  ghost predicate RunKeepsCover(page: Page, ops: seq<VlanOp>)
    decreases |ops|
  {
    ops != [] ==>
      && (Readable(page) && Attempt(page, ops[0]).Ok? ==> KeepsCover(page, ops[0]))
      && RunKeepsCover(Step(page, ops[0]), ops[1..])
  }

  ghost predicate AlwaysCovered(page: Page, ops: seq<VlanOp>)
    decreases |ops|
  {
    && Readable(page) && Covered(page)
    && (ops != [] ==> AlwaysCovered(Step(page, ops[0]), ops[1..]))
  }

  /** Coverage holds all along a run exactly when every accepted call met its condition. */
  lemma {:induction false} RunCoverage(page: Page, ops: seq<VlanOp>)
    requires PageOk(page) && Covered(page)
    ensures AlwaysCovered(page, ops) <==> RunKeepsCover(page, ops)
    decreases |ops|
  {
    if ops != [] {
      var next := Step(page, ops[0]);
      StepKeepsTable(page, ops[0]);
      if Attempt(page, ops[0]).Ok? {
        StepCoverage(page, ops[0]);
      }
      if Covered(next) {
        RunCoverage(next, ops[1..]);
      }
    }
  }

  // ---------- the documented promise that the client does not keep ----------

  /** Two ports; VLAN 1 holds port 1 and VLAN 2 holds port 2. */
  function TwoVlanPage(): Page {
    Page(1, 2, 2, 32, [1, 2], ["Default", "IoT"], [0, 0], [1, 2], None)
  }

  ghost predicate TwoVlans(state: VlanState) {
    && state.enabled && state.portCount == 2 && state.maxVlans == 32
    && |state.trunkGroups| == 2 && state.trunkGroups[0] == 0 && state.trunkGroups[1] == 0
    && |state.vlans| == 2
    && state.vlans[0].vlanId == 1 && state.vlans[0].tagged == [] && state.vlans[0].untagged == [1]
    && state.vlans[1].vlanId == 2 && state.vlans[1].tagged == [] && state.vlans[1].untagged == [2]
  }

  lemma SmallMasks()
    ensures DecodePortMask(0, 2) == [] && DecodePortMask(1, 2) == [1] && DecodePortMask(2, 2) == [2]
  {
    assert !Bit(0, 0) && !Bit(0, 1) && Bit(1, 0) && !Bit(1, 1) && !Bit(2, 0) && Bit(2, 1);
    SortedIsUnique(DecodePortMask(0, 2), []);
    SortedIsUnique(DecodePortMask(1, 2), [1]);
    SortedIsUnique(DecodePortMask(2, 2), [2]);
  }

  lemma TwoVlanPageReads()
    ensures Readable(TwoVlanPage()) && TwoVlans(Get8021qVlans(TwoVlanPage()).value)
  {
    SmallMasks();
  }

  lemma TwoVlansAreCovered(state: VlanState)
    requires TwoVlans(state)
    ensures TableOk(state) && Covers(state)
    ensures GivesUp(state, DeleteOp(2), 2) && !HeldByOther(state.vlans, 2, 2)
  {
    var first, second := state.vlans[0], state.vlans[1];
    assert 1 in first.untagged && 2 in second.untagged;
    assert VlanOk(first, state) && VlanOk(second, state);
    assert Member(state.vlans[0], 1) && Member(state.vlans[1], 2);
  }

  /** From a covered table, deleting VLAN 2 is accepted and leaves port 2 in no VLAN. */
  lemma DeleteCanOrphan()
    ensures PageOk(TwoVlanPage()) && Covered(TwoVlanPage())
    ensures Attempt(TwoVlanPage(), DeleteOp(2)).Ok?
    ensures Readable(Step(TwoVlanPage(), DeleteOp(2))) && !Covered(Step(TwoVlanPage(), DeleteOp(2)))
  {
    TwoVlanPageReads();
    TwoVlansAreCovered(Get8021qVlans(TwoVlanPage()).value);
    DeleteOrphans(TwoVlanPage(), 2, 2);
  }
}
