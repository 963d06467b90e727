/** Static link aggregation groups: each group may only use its own window of ports. */
module Lag {
  import opened Results
  import opened Bits
  import opened Ports

  /** The parsed variables `trunk_conf` and `portNumPerTrunk`; portStr maps a group id to `portStr_g{id}`. */
  datatype Page = Page(maxTrunkNum: int, portNum: int, portNumPerTrunk: int, portStr: map<int, seq<int>>)

  /** groups[g - 1] holds the ports of group g. */
  datatype LagState = LagState(maxGroups: nat, portCount: nat, portsPerGroup: nat, groups: seq<seq<int>>)

  datatype LagForm = SetApply(groupId: int, portIds: seq<int>) | SetDelete(chkTrunk: int)

  predicate Readable(page: Page) {
    page.maxTrunkNum >= 1 && page.portNum >= 2 && page.portNumPerTrunk >= 2
  }

  /** The flags of a group, `[]` when the page has none. */
  function Flags(page: Page, g: int): seq<int> {
    if g in page.portStr then page.portStr[g] else []
  }

  /** `[index + 1 for index, value in enumerate(values[:port_count]) if value]` */
  function FlaggedPorts(flags: seq<int>, portCount: int): (r: seq<int>)
    ensures StrictlySorted(r)
    ensures forall p :: p in r <==> 1 <= p <= portCount && p <= |flags| && flags[p - 1] != 0
  {
    PortsWhere(portCount, p => 1 <= p <= |flags| && flags[p - 1] != 0)
  }

  function GetLags(page: Page): (r: Result<LagState>)
    ensures r.Ok? <==> Readable(page)
    ensures r.Err? ==> r == Err(DataFormatError)
    ensures r.Ok? ==> |r.value.groups| == r.value.maxGroups && r.value.portsPerGroup >= 2
    ensures r.Ok? ==>
              && r.value.maxGroups == page.maxTrunkNum && r.value.portCount == page.portNum
              && r.value.portsPerGroup == page.portNumPerTrunk
  {
    if page.maxTrunkNum < 1 || page.portNum < 2 || page.portNumPerTrunk < 2 then Err(DataFormatError)
    else
      Ok(LagState(page.maxTrunkNum, page.portNum, page.portNumPerTrunk,
                  seq(page.maxTrunkNum, i => FlaggedPorts(Flags(page, i + 1), page.portNum))))
  }

  /** What is read of group g: in order, exactly the ports whose flags are set on the page. */
  lemma ReadGroup(page: Page, g: int, p: int)
    requires Readable(page) && 1 <= g <= page.maxTrunkNum
    ensures var members := GetLags(page).value.groups[g - 1];
            && StrictlySorted(members)
            && (p in members <==>
                  && 1 <= p <= page.portNum && g in page.portStr
                  && p <= |page.portStr[g]| && page.portStr[g][p - 1] != 0)
  {
  }

  function Min(a: int, b: int): int {
    if a <= b then a else b
  }

  /** The ports outside the window that group g of k-port groups may use on an n-port switch. */
  function OutsideWindow(members: seq<int>, g: int, k: int, n: int): (r: seq<int>)
    ensures forall p :: p in r <==>
              1 <= p <= n && p in members && (p < (g - 1) * k + 1 || p > Min(g * k, n))
  {
    var minimum, maximum := (g - 1) * k + 1, Min(g * k, n);
    PortsWhere(n, p => p in members && (p < minimum || p > maximum))
  }

  function CheckSetLag(state: LagState, g: int, ports: seq<int>): (r: Result<seq<int>>) {
    if g < 1 || g > state.maxGroups then Refuse(GroupIdOutOfRange)
    else
      var members :- ValidatePorts(ports, state.portCount, false);
      if |members| < 2 || |members| > state.portsPerGroup then Refuse(GroupSizeOutOfRange)
      else if OutsideWindow(members, g, state.portsPerGroup, state.portCount) != [] then
        Refuse(OutsideGroupWindow)
      else Ok(members)
  }

  function CheckDeleteLag(state: LagState, g: int): (r: Result<()>) {
    if g < 1 || g > state.maxGroups then Refuse(GroupIdOutOfRange) else Ok(())
  }

  // ---------- the switch ----------

  /** One flag a port, set for the given ports. */
  function FlagsFor(portIds: seq<int>, n: nat): seq<int> {
    seq(n, i => if i + 1 in portIds then 1 else 0)
  }

  function Submit(page: Page, form: LagForm): (r: Page)
    requires Readable(page)
    ensures Readable(r)
  {
    match form
    case SetApply(g, portIds) =>
      page.(portStr := page.portStr[g := FlagsFor(portIds, page.portNum)])
    case SetDelete(g) =>
      page.(portStr := page.portStr[g := FlagsFor([], page.portNum)])
  }

  function TrySetLag(page: Page, g: int, ports: seq<int>): Result<Page> {
    var state :- GetLags(page);
    var members :- CheckSetLag(state, g, ports);
    Ok(Submit(page, SetApply(g, members)))
  }

  function TryDeleteLag(page: Page, g: int): Result<Page> {
    var state :- GetLags(page);
    var _ :- CheckDeleteLag(state, g);
    Ok(Submit(page, SetDelete(g)))
  }

  class LagSwitch {
    var page: Page

    constructor (page: Page)
      ensures this.page == page
    {
      this.page := page;
    }

    method Receive(form: LagForm)
      requires Readable(page)
      modifies this
      ensures page == Submit(old(page), form)
    {
      page := Submit(page, form);
    }
  }

  method SetLag(sw: LagSwitch, g: int, ports: seq<int>) returns (r: Result<()>)
    modifies sw
    ensures match r
            case Ok(_) => TrySetLag(old(sw.page), g, ports) == Ok(sw.page)
            case Err(e) => TrySetLag(old(sw.page), g, ports) == Err(e) && sw.page == old(sw.page)
  {
    var state := GetLags(sw.page);
    if state.Err? {
      return Err(state.error);
    }
    var members := CheckSetLag(state.value, g, ports);
    if members.Err? {
      return Err(members.error);
    }
    sw.Receive(SetApply(g, members.value));
    r := Ok(());
  }

  method DeleteLag(sw: LagSwitch, g: int) returns (r: Result<()>)
    modifies sw
    ensures match r
            case Ok(_) => TryDeleteLag(old(sw.page), g) == Ok(sw.page)
            case Err(e) => TryDeleteLag(old(sw.page), g) == Err(e) && sw.page == old(sw.page)
  {
    var state := GetLags(sw.page);
    if state.Err? {
      return Err(state.error);
    }
    var checked := CheckDeleteLag(state.value, g);
    if checked.Err? {
      return Err(checked.error);
    }
    sw.Receive(SetDelete(g));
    r := Ok(());
  }

  // ---------- windows ----------

  /** The one group whose window holds port p, of groups of k ports. */
  function Owner(p: int, k: int): int
    requires k >= 1
  {
    (p - 1) / k + 1
  }

  lemma WindowIsOwner(p: int, g: int, k: int)
    requires k >= 1
    ensures (g - 1) * k + 1 <= p <= g * k <==> Owner(p, k) == g
  {
    var q, r := (p - 1) / k, (p - 1) % k;
    assert p - 1 == q * k + r;
    assert g * k == (g - 1) * k + k;
    if q > g - 1 {
      LargerQuotient(k, q, g - 1);
    } else if q < g - 1 {
      LargerQuotient(k, g - 1, q);
    }
  }

  /** A group is accepted exactly when its id exists and 2..k distinct ports of its window are named. */
  lemma SetLagIsAcceptedWhen(state: LagState, g: int, ports: seq<int>)
    requires state.portsPerGroup >= 2
    ensures CheckSetLag(state, g, ports).Ok? <==>
            && 1 <= g <= state.maxGroups
            && InRange(ports, state.portCount)
            && 2 <= |UniquePorts(ports)| <= state.portsPerGroup
            && forall p :: p in ports ==> Owner(p, state.portsPerGroup) == g
    ensures CheckSetLag(state, g, ports).Ok? ==> CheckSetLag(state, g, ports).value == UniquePorts(ports)
  {
    var k, n := state.portsPerGroup, state.portCount;
    var outside := OutsideWindow(UniquePorts(ports), g, k, n);
    forall p | 1 <= p <= n
      ensures p in outside <==> p in ports && Owner(p, k) != g
    {
      WindowIsOwner(p, g, k);
    }
    if outside != [] {
      var first := outside[0];
      assert first in outside;
    }
    assert ports == [] ==> UniquePorts(ports) == [];
  }

  /** A refusal names the first check that fails, in the order of the source. */
  lemma RefusedLag(state: LagState, g: int, ports: seq<int>)
    requires state.portsPerGroup >= 2 && CheckSetLag(state, g, ports).Err?
    ensures CheckSetLag(state, g, ports).error.ActionError?
    ensures match CheckSetLag(state, g, ports).error.refusal
            case GroupIdOutOfRange => !(1 <= g <= state.maxGroups)
            case NoPortSelected => 1 <= g <= state.maxGroups && ports == []
            case PortsOutOfRange(invalid) =>
              && 1 <= g <= state.maxGroups && invalid != []
              && forall p :: p in invalid <==> p in ports && !(1 <= p <= state.portCount)
            case GroupSizeOutOfRange =>
              && 1 <= g <= state.maxGroups && ports != [] && InRange(ports, state.portCount)
              && !(2 <= |UniquePorts(ports)| <= state.portsPerGroup)
            case OutsideGroupWindow =>
              && 1 <= g <= state.maxGroups && InRange(ports, state.portCount)
              && 2 <= |UniquePorts(ports)| <= state.portsPerGroup
              && exists p :: p in ports && Owner(p, state.portsPerGroup) != g
            case _ => false
  {
    var k, n := state.portsPerGroup, state.portCount;
    var outside := OutsideWindow(UniquePorts(ports), g, k, n);
    forall p | 1 <= p <= n
      ensures p in outside <==> p in ports && Owner(p, k) != g
    {
      WindowIsOwner(p, g, k);
    }
    if outside != [] {
      var first := outside[0];
      assert first in outside;
    }
    assert ports != [] ==> var first := ports[0]; first in UniquePorts(ports);
    if ValidatePorts(ports, n, false).Err? {
      RefusedPorts(ports, n, false);
    }
  }

  /** Some selection is accepted for group g exactly when the switch has two ports in its window. */
  lemma GroupIsUsableWhen(state: LagState, g: int)
    requires state.portsPerGroup >= 2
    ensures (exists ports :: CheckSetLag(state, g, ports).Ok?) <==>
            1 <= g <= state.maxGroups && (g - 1) * state.portsPerGroup + 2 <= state.portCount
  {
    var k, n := state.portsPerGroup, state.portCount;
    var base := (g - 1) * k;
    if 1 <= g <= state.maxGroups && base + 2 <= n {
      var pair := [base + 1, base + 2];
      assert g * k == base + k;
      WindowIsOwner(base + 1, g, k);
      WindowIsOwner(base + 2, g, k);
      assert base >= 0;
      SortedIsUnique(UniquePorts(pair), pair);
      SetLagIsAcceptedWhen(state, g, pair);
      assert CheckSetLag(state, g, pair).Ok?;
    }
    if ports :| CheckSetLag(state, g, ports).Ok? {
      SetLagIsAcceptedWhen(state, g, ports);
      var members := UniquePorts(ports);
      Ordered(members);
      var lo, hi := members[0], members[1];
      assert lo in members && hi in members;
      WindowIsOwner(lo, g, k);
    }
  }

  // ---------- what a caller gets ----------

  lemma FlagsOfMembers(members: seq<int>, n: nat)
    requires StrictlySorted(members) && InRange(members, n)
    ensures FlaggedPorts(FlagsFor(members, n), n) == members
  {
    SortedIsUnique(FlaggedPorts(FlagsFor(members, n), n), members);
  }

  /** Write then read: the group holds exactly the distinct requested ports, every other group is as before. */
  lemma SetLagThenRead(page: Page, g: int, ports: seq<int>)
    requires TrySetLag(page, g, ports).Ok?
    ensures Readable(page) && 1 <= g <= GetLags(page).value.maxGroups
    ensures var before := GetLags(page).value;
            GetLags(TrySetLag(page, g, ports).value) ==
            Ok(before.(groups := before.groups[g - 1 := UniquePorts(ports)]))
  {
    hide FlagsFor;
    var before := GetLags(page).value;
    SetLagIsAcceptedWhen(before, g, ports);
    var members := UniquePorts(ports);
    FlagsOfMembers(members, page.portNum);
    var after := Submit(page, SetApply(g, members));
    ReadGroups(page, after, g, members);
  }

  /** A delete is accepted for every group id that exists, in use or not, and empties that group alone. */
  lemma DeleteLagThenRead(page: Page, g: int)
    ensures TryDeleteLag(page, g).Ok? <==> Readable(page) && 1 <= g <= page.maxTrunkNum
    ensures Readable(page) && TryDeleteLag(page, g).Err? ==> TryDeleteLag(page, g) == Refuse(GroupIdOutOfRange)
    ensures TryDeleteLag(page, g).Ok? ==>
            var before := GetLags(page).value;
            GetLags(TryDeleteLag(page, g).value) == Ok(before.(groups := before.groups[g - 1 := []]))
  {
    hide FlagsFor;
    if Readable(page) && 1 <= g <= page.maxTrunkNum {
      FlagsOfMembers([], page.portNum);
      ReadGroups(page, Submit(page, SetDelete(g)), g, []);
    }
  }

  lemma ReadGroups(page: Page, after: Page, g: int, members: seq<int>)
    requires Readable(page) && 1 <= g <= page.maxTrunkNum
    requires after == page.(portStr := after.portStr)
    requires forall h :: h != g ==> Flags(after, h) == Flags(page, h)
    requires FlaggedPorts(Flags(after, g), page.portNum) == members
    ensures GetLags(after) == Ok(GetLags(page).value.(groups := GetLags(page).value.groups[g - 1 := members]))
  {
    var groups, groups' := GetLags(page).value.groups, GetLags(after).value.groups;
    assert groups' == groups[g - 1 := members];
  }

  // ---------- whole runs ----------

  datatype LagOp = SetOp(g: int, ports: seq<int>) | DeleteOp(g: int)

  function Attempt(page: Page, op: LagOp): Result<Page> {
    match op
    case SetOp(g, ports) => TrySetLag(page, g, ports)
    case DeleteOp(g) => TryDeleteLag(page, g)
  }

  function Step(page: Page, op: LagOp): Page {
    match Attempt(page, op)
    case Ok(after) => after
    case Err(_) => page
  }

  function Run(page: Page, ops: seq<LagOp>): Page
    decreases |ops|
  {
    if ops == [] then page else Run(Step(page, ops[0]), ops[1..])
  }

  /** A group is empty, or has 2..k members, all of its own window. */
  ghost predicate GroupOk(state: LagState, g: int)
    requires state.portsPerGroup >= 2 && 1 <= g <= |state.groups|
  {
    var members := state.groups[g - 1];
    && (members != [] ==> 2 <= |members| <= state.portsPerGroup)
    && StrictlySorted(members)
    && InRange(members, state.portCount)
    && forall p :: p in members ==> Owner(p, state.portsPerGroup) == g
  }

  ghost predicate LagsOk(page: Page) {
    Readable(page) && forall g :: 1 <= g <= page.maxTrunkNum ==> GroupOk(GetLags(page).value, g)
  }

  /** Group g of the switch has port p. */
  ghost predicate Holds(page: Page, g: int, p: int)
    requires Readable(page)
  {
    1 <= g <= page.maxTrunkNum && p in GetLags(page).value.groups[g - 1]
  }

  /** Only the owner of a port can hold it, so groups are pairwise disjoint. */
  lemma HolderIsOwner(page: Page)
    requires LagsOk(page)
    ensures forall g, p :: Holds(page, g, p) ==> g == Owner(p, page.portNumPerTrunk)
    ensures forall g, h, p :: Holds(page, g, p) && Holds(page, h, p) ==> g == h
  {
    forall g, p | Holds(page, g, p)
      ensures g == Owner(p, page.portNumPerTrunk)
    {
      assert GroupOk(GetLags(page).value, g);
    }
  }

  lemma StepKeepsLags(page: Page, op: LagOp)
    requires LagsOk(page)
    ensures LagsOk(Step(page, op))
    ensures Step(page, op) == page.(portStr := Step(page, op).portStr)
  {
    if Attempt(page, op).Ok? {
      var before := GetLags(page).value;
      if op.SetOp? {
        SetLagThenRead(page, op.g, op.ports);
        SetLagIsAcceptedWhen(before, op.g, op.ports);
      } else {
        DeleteLagThenRead(page, op.g);
      }
      var after := GetLags(Step(page, op)).value;
      forall g | 1 <= g <= page.maxTrunkNum
        ensures GroupOk(after, g)
      {
        assert GroupOk(before, g);
      }
    }
  }

  /**
   * Every run of set and delete calls keeps the group invariant, and the only group that ever
   * holds a port is the one whose window contains it.
   */
  lemma {:induction false} RunKeepsLags(page: Page, ops: seq<LagOp>)
    requires LagsOk(page)
    ensures LagsOk(Run(page, ops))
    ensures Run(page, ops).maxTrunkNum == page.maxTrunkNum
    ensures forall g, p :: Holds(Run(page, ops), g, p) ==> g == Owner(p, page.portNumPerTrunk)
    decreases |ops|
  {
    if ops == [] {
      HolderIsOwner(page);
    } else {
      StepKeepsLags(page, ops[0]);
      RunKeepsLags(Step(page, ops[0]), ops[1..]);
    }
  }
}
