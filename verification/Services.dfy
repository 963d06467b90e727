/** The registration of the domain's services, counted over the config entries that use them. */
module Services {
  import opened Results

  /** The shared Home Assistant data: the count under its key, the registered names, the coordinators. */
  datatype Shared = Shared(count: Option<int>, registered: set<string>, coordinators: set<nat>)

  function CountOf(s: Shared): int {
    s.count.GetOr(0)
  }

  function Max(a: int, b: int): int {
    if a >= b then a else b
  }

  function ChangeInstancesCount(s: Shared, delta: int): Shared {
    s.(count := Some(Max(0, CountOf(s) + delta)))
  }

  function Names(services: seq<string>): set<string> {
    set n | n in services
  }

  /** failAt is the position whose registration raises, None when all succeed; the flag is success. */
  function SetupServices(s: Shared, services: seq<string>, failAt: Option<nat>): (Shared, bool) {
    var counted := ChangeInstancesCount(s, 1);
    if CountOf(counted) > 1 then (counted, true)
    else if failAt.Some? && failAt.value < |services| then
      (ChangeInstancesCount(counted.(registered := s.registered - Names(services[..failAt.value])), -1), false)
    else (counted.(registered := s.registered + Names(services)), true)
  }

  function UnloadServices(s: Shared, services: seq<string>): Shared {
    var counted := ChangeInstancesCount(s, -1);
    if CountOf(counted) > 0 then counted
    else counted.(count := None, registered := s.registered - Names(services))
  }

  class Hass {
    var count: Option<int>
    var registered: set<string>
    var coordinators: set<nat>

    constructor ()
      ensures Value() == Shared(None, {}, {})
    {
      count := None;
      registered := {};
      coordinators := {};
    }

    function Value(): Shared
      reads this
    {
      Shared(count, registered, coordinators)
    }

    method ChangeCount(delta: int) returns (result: int)
      modifies this`count
      ensures Value() == ChangeInstancesCount(old(Value()), delta) && result == CountOf(Value()) >= 0
    {
      result := Max(0, count.GetOr(0) + delta);
      count := Some(result);
    }

    /** The registration loop appends to a list of what it has registered and undoes that on failure. */
    method AsyncSetupServices(services: seq<string>, failAt: Option<nat>) returns (ok: bool)
      modifies this`count, this`registered
      ensures (Value(), ok) == SetupServices(old(Value()), services, failAt)
    {
      var active := ChangeCount(1);
      if active > 1 {
        return true;
      }
      ghost var before := registered;
      var done: seq<string> := [];
      for i := 0 to |services|
        invariant done == services[..i]
        invariant registered == before + Names(done)
        invariant count == Some(active)
        invariant failAt.Some? && failAt.value < |services| ==> i <= failAt.value
      {
        if failAt == Some(i) {
          for k := 0 to |done|
            invariant registered == (before + Names(done)) - Names(done[..k])
            invariant count == Some(active)
          {
            assert Names(done[..k + 1]) == Names(done[..k]) + {done[k]} by {
              assert done[..k + 1] == done[..k] + [done[k]];
            }
            registered := registered - {done[k]};
          }
          assert done[..|done|] == done;
          var _ := ChangeCount(-1);
          assert registered == before - Names(services[..i]);
          return false;
        }
        assert services[..i + 1] == services[..i] + [services[i]];
        assert Names(services[..i + 1]) == Names(services[..i]) + {services[i]};
        registered := registered + {services[i]};
        done := done + [services[i]];
      }
      assert services[..|services|] == services;
      ok := true;
    }

    method AsyncUnloadServices(services: seq<string>)
      modifies this`count, this`registered
      ensures Value() == UnloadServices(old(Value()), services)
    {
      var active := ChangeCount(-1);
      if active > 0 {
        return;
      }
      count := None;
      ghost var before := registered;
      for i := 0 to |services|
        invariant registered == before - Names(services[..i])
        invariant count == None
      {
        assert services[..i + 1] == services[..i] + [services[i]];
        assert Names(services[..i + 1]) == Names(services[..i]) + {services[i]};
        registered := registered - {services[i]};
      }
      assert services[..|services|] == services;
    }
  }

  // ---------- config entries ----------

  /**
   * Where an entry stands between two awaits. Refreshing and Forwarding are inside its setup,
   * RollingBack unloads the platforms after a failure, Leaving disconnects the client of a failed setup,
   * Unloading and Closing are inside its unload.
   */
  datatype Phase = NotLoaded | Refreshing | Forwarding | RollingBack | Leaving | Loaded | Unloading | Closing

  datatype World = World(shared: Shared, entries: map<nat, Phase>)

  datatype Step =
    | StartSetup(entry: nat)
    | RefreshDone(entry: nat, ok: bool)
    | ForwardDone(entry: nat, ok: bool, failAt: Option<nat>)
    | RollbackDone(entry: nat)
    | Left(entry: nat)
    | StartUnload(entry: nat)
    | PlatformsUnloaded(entry: nat, ok: bool)
    | Disconnected(entry: nat)

  function PhaseOf(w: World, e: nat): Phase {
    if e in w.entries then w.entries[e] else NotLoaded
  }

  function Move(w: World, e: nat, p: Phase): World {
    w.(entries := w.entries[e := p])
  }

  /** One entry runs from one await to the next; a step that is not possible changes nothing. */
  function Apply(w: World, step: Step, services: seq<string>): World {
    var e := step.entry;
    match (step, PhaseOf(w, e))
    case (StartSetup(_), NotLoaded) => Move(w, e, Refreshing)
    case (RefreshDone(_, ok), Refreshing) =>
      if ok then Move(w.(shared := w.shared.(coordinators := w.shared.coordinators + {e})), e, Forwarding)
      else Move(w, e, Leaving)
    case (ForwardDone(_, ok, failAt), Forwarding) =>
      if !ok then Move(w, e, RollingBack)
      else
        var (shared, registered) := SetupServices(w.shared, services, failAt);
        Move(w.(shared := shared), e, if registered then Loaded else RollingBack)
    case (RollbackDone(_), RollingBack) =>
      Move(w.(shared := w.shared.(coordinators := w.shared.coordinators - {e})), e, Leaving)
    case (Left(_), Leaving) => Move(w, e, NotLoaded)
    case (StartUnload(_), Loaded) => Move(w, e, Unloading)
    case (PlatformsUnloaded(_, ok), Unloading) =>
      if ok then Move(w.(shared := w.shared.(coordinators := w.shared.coordinators - {e})), e, Closing)
      else Move(w, e, Loaded)
    case (Disconnected(_), Closing) =>
      Move(w.(shared := UnloadServices(w.shared, services)), e, NotLoaded)
    case _ => w
  }

  const Start := World(Shared(None, {}, {}), map[])

  function Run(steps: seq<Step>, services: seq<string>): World {
    if steps == [] then Start
    else Apply(Run(steps[..|steps| - 1], services), steps[|steps| - 1], services)
  }

  /** Past the service setup, and not yet past the service unload. */
  predicate UsesServices(p: Phase) {
    p.Loaded? || p.Unloading? || p.Closing?
  }

  /** Between the storing of the coordinator and its removal. */
  predicate HasCoordinator(p: Phase) {
    p.Forwarding? || p.RollingBack? || p.Loaded? || p.Unloading?
  }

  function Users(w: World): set<nat> {
    set e | e in w.entries && UsesServices(w.entries[e])
  }

  function Holders(w: World): set<nat> {
    set e | e in w.entries && HasCoordinator(w.entries[e])
  }

  ghost predicate Inv(w: World, services: seq<string>) {
    && CountOf(w.shared) == |Users(w)|
    && w.shared.registered == (if Users(w) == {} then {} else Names(services))
    && w.shared.coordinators == Holders(w)
  }

  lemma InUsers(w: World, e: nat)
    ensures e in Users(w) <==> UsesServices(PhaseOf(w, e))
    ensures e in Holders(w) <==> HasCoordinator(PhaseOf(w, e))
  {
  }

  lemma SetupCounts(s: Shared, services: seq<string>, failAt: Option<nat>, users: set<nat>, e: nat)
    requires CountOf(s) == |users| && e !in users
    requires s.registered == if users == {} then {} else Names(services)
    ensures var (t, ok) := SetupServices(s, services, failAt);
            && t.coordinators == s.coordinators
            && var after := if ok then users + {e} else users;
            CountOf(t) == |after| && t.registered == if after == {} then {} else Names(services)
  {
    if users != {} {
      var u :| u in users;
      assert |users| == |users - {u}| + 1;
    }
  }

  lemma UnloadCounts(s: Shared, services: seq<string>, users: set<nat>, e: nat)
    requires CountOf(s) == |users| && e in users && s.registered == Names(services)
    ensures var t := UnloadServices(s, services);
            && t.coordinators == s.coordinators
            && CountOf(t) == |users - {e}|
            && t.registered == if users - {e} == {} then {} else Names(services)
  {
    assert |users| == |users - {e}| + 1;
  }

  predicate Counts(w: World, step: Step) {
    (step.ForwardDone? && PhaseOf(w, step.entry).Forwarding? && step.ok) ||
    (step.Disconnected? && PhaseOf(w, step.entry).Closing?)
  }

  /** A step that runs neither the service setup nor the service unload keeps the entry's use of services. */
  lemma OtherSteps(w: World, step: Step, services: seq<string>)
    requires !Counts(w, step) && Apply(w, step, services) != w
    ensures var t, e := Apply(w, step, services), step.entry;
            && t.shared == w.shared.(coordinators := t.shared.coordinators)
            && t.entries == w.entries[e := PhaseOf(t, e)]
            && UsesServices(PhaseOf(t, e)) == UsesServices(PhaseOf(w, e))
            && if HasCoordinator(PhaseOf(t, e)) == HasCoordinator(PhaseOf(w, e))
               then t.shared.coordinators == w.shared.coordinators
               else if HasCoordinator(PhaseOf(t, e)) then t.shared.coordinators == w.shared.coordinators + {e}
               else t.shared.coordinators == w.shared.coordinators - {e}
  {
  }

  lemma StepKeepsInv(w: World, step: Step, services: seq<string>)
    requires Inv(w, services)
    ensures Inv(Apply(w, step, services), services)
  {
    hide Apply, Counts, Inv;
    if Counts(w, step) {
      CountingStepKeepsInv(w, step, services);
    } else if Apply(w, step, services) != w {
      OtherStepKeepsInv(w, step, services);
    }
  }

  lemma OtherStepKeepsInv(w: World, step: Step, services: seq<string>)
    requires Inv(w, services) && !Counts(w, step) && Apply(w, step, services) != w
    ensures Inv(Apply(w, step, services), services)
  {
    hide Apply, Counts, Names, UsesServices, HasCoordinator, Users, Holders, PhaseOf;
    var e, t := step.entry, Apply(w, step, services);
    InUsers(w, e);
    OtherSteps(w, step, services);
    SameEntries(w, t, e);
    assert Users(t) == Users(w);
    assert t.shared.coordinators == Holders(t);
  }

  lemma CountingStepKeepsInv(w: World, step: Step, services: seq<string>)
    requires Inv(w, services) && Counts(w, step)
    ensures Inv(Apply(w, step, services), services)
  {
    hide Apply, SetupServices, UnloadServices, Names, Users, Holders;
    var e := step.entry;
    var t := Apply(w, step, services);
    InUsers(w, e);
    CountingSteps(w, step, services);
    SameEntries(w, t, e);
    assert Holders(t) == Holders(w);
    if step.ForwardDone? {
      SetupCounts(w.shared, services, step.failAt, Users(w), e);
      assert PhaseOf(t, e).RollingBack? ==> Users(t) == Users(w);
    } else {
      UnloadCounts(w.shared, services, Users(w), e);
    }
  }

  /** A step that runs the service setup or the service unload, and where it leaves its entry. */
  lemma CountingSteps(w: World, step: Step, services: seq<string>)
    requires Counts(w, step)
    ensures var t, e := Apply(w, step, services), step.entry;
            && t.entries == w.entries[e := PhaseOf(t, e)]
            && if step.ForwardDone? then
                 var (shared, ok) := SetupServices(w.shared, services, step.failAt);
                 t.shared == shared && PhaseOf(t, e) == if ok then Loaded else RollingBack
               else t.shared == UnloadServices(w.shared, services) && PhaseOf(t, e).NotLoaded?
  {
    hide SetupServices, UnloadServices;
  }

  /** Only the stepping entry moves. */
  lemma SameEntries(w: World, t: World, e: nat)
    requires t.entries == w.entries[e := PhaseOf(t, e)]
    ensures Users(t) == if UsesServices(PhaseOf(t, e)) then Users(w) + {e} else Users(w) - {e}
    ensures Holders(t) == if HasCoordinator(PhaseOf(t, e)) then Holders(w) + {e} else Holders(w) - {e}
  {
  }

  /**
   * In every interleaving of setups, failing anywhere, and unloads: the count is the number of entries past
   * service setup and not past service unload, all services are registered when it is positive and none when
   * it is zero, and a coordinator is stored exactly for the entries between storing and removing it.
   */
  lemma {:induction false} ServicesFollowEntries(steps: seq<Step>, services: seq<string>)
    ensures var w := Run(steps, services);
            && CountOf(w.shared) == |Users(w)|
            && w.shared.registered == (if CountOf(w.shared) > 0 then Names(services) else {})
            && w.shared.coordinators == Holders(w)
    ensures Inv(Run(steps, services), services)
  {
    var w := Run(steps, services);
    if steps != [] {
      var n := |steps| - 1;
      ServicesFollowEntries(steps[..n], services);
      StepKeepsInv(Run(steps[..n], services), steps[n], services);
    }
    assert CountOf(w.shared) > 0 <==> Users(w) != {};
  }

  // ---------- the life of one entry among the others ----------

  function After(w: World, steps: seq<Step>, services: seq<string>): World
    decreases |steps|
  {
    if steps == [] then w else After(Apply(w, steps[0], services), steps[1..], services)
  }

  ghost predicate Foreign(steps: seq<Step>, e: nat) {
    forall i :: 0 <= i < |steps| ==> steps[i].entry != e
  }

  lemma ForeignStepKeepsEntry(w: World, step: Step, e: nat, services: seq<string>)
    requires step.entry != e
    ensures var t := Apply(w, step, services);
            && PhaseOf(t, e) == PhaseOf(w, e)
            && (e in t.shared.coordinators <==> e in w.shared.coordinators)
  {
    hide Names;
  }

  /** The steps of other entries, however many, neither move an entry nor touch its coordinator. */
  lemma {:induction false} ForeignStepsKeepEntry(w: World, steps: seq<Step>, e: nat, services: seq<string>)
    requires Foreign(steps, e)
    ensures var t := After(w, steps, services);
            && PhaseOf(t, e) == PhaseOf(w, e)
            && (e in t.shared.coordinators <==> e in w.shared.coordinators)
    decreases |steps|
  {
    hide Apply;
    if steps != [] {
      ForeignStepKeepsEntry(w, steps[0], e, services);
      assert Foreign(steps[1..], e);
      ForeignStepsKeepEntry(Apply(w, steps[0], services), steps[1..], e, services);
    }
  }

  /** An entry whose refresh, forwarding and registration succeed ends loaded, whatever others do in between. */
  lemma SetupEndsLoaded(w: World, e: nat, a: seq<Step>, b: seq<Step>, services: seq<string>)
    requires PhaseOf(w, e).NotLoaded? && Foreign(a, e) && Foreign(b, e)
    ensures var started := After(Apply(w, StartSetup(e), services), a, services);
            var refreshed := After(Apply(started, RefreshDone(e, true), services), b, services);
            var t := Apply(refreshed, ForwardDone(e, true, None), services);
            PhaseOf(t, e).Loaded? && e in t.shared.coordinators
  {
    hide After, Names;
    var started := Apply(w, StartSetup(e), services);
    ForeignStepsKeepEntry(started, a, e, services);
    var refreshed := Apply(After(started, a, services), RefreshDone(e, true), services);
    ForeignStepsKeepEntry(refreshed, b, e, services);
  }

  /** An entry whose first refresh fails is not loaded, and no coordinator of it is ever stored. */
  lemma FailedRefreshEndsNotLoaded(w: World, e: nat, a: seq<Step>, b: seq<Step>, services: seq<string>)
    requires PhaseOf(w, e).NotLoaded? && e !in w.shared.coordinators && Foreign(a, e) && Foreign(b, e)
    ensures var started := After(Apply(w, StartSetup(e), services), a, services);
            var failed := After(Apply(started, RefreshDone(e, false), services), b, services);
            var t := Apply(failed, Left(e), services);
            PhaseOf(t, e).NotLoaded? && e !in failed.shared.coordinators && e !in t.shared.coordinators
  {
    hide After, Names;
    var started := Apply(w, StartSetup(e), services);
    ForeignStepsKeepEntry(started, a, e, services);
    var failed := Apply(After(started, a, services), RefreshDone(e, false), services);
    ForeignStepsKeepEntry(failed, b, e, services);
  }

  /** A registration that raises, like platforms that fail, is rolled back until nothing of the entry is left. */
  lemma FailedSetupEndsNotLoaded(
    w: World, e: nat, ok: bool, failAt: Option<nat>, a: seq<Step>, b: seq<Step>, services: seq<string>)
    requires PhaseOf(w, e).Forwarding? && Foreign(a, e) && Foreign(b, e)
    requires ok ==> CountOf(w.shared) <= 0 && failAt.Some? && failAt.value < |services|
    ensures var failed := Apply(w, ForwardDone(e, ok, failAt), services);
            var rolledBack := Apply(After(failed, a, services), RollbackDone(e), services);
            var t := Apply(After(rolledBack, b, services), Left(e), services);
            PhaseOf(t, e).NotLoaded? && e !in t.shared.coordinators
  {
    hide After, Names;
    var failed := Apply(w, ForwardDone(e, ok, failAt), services);
    ForeignStepsKeepEntry(failed, a, e, services);
    var rolledBack := Apply(After(failed, a, services), RollbackDone(e), services);
    ForeignStepsKeepEntry(rolledBack, b, e, services);
  }

  /** A loaded entry that is unloaded ends not loaded; if its platforms do not unload, it stays loaded. */
  lemma UnloadEnds(w: World, e: nat, ok: bool, a: seq<Step>, b: seq<Step>, services: seq<string>)
    requires PhaseOf(w, e).Loaded? && e in w.shared.coordinators && Foreign(a, e) && Foreign(b, e)
    ensures var started := After(Apply(w, StartUnload(e), services), a, services);
            var unloaded := Apply(started, PlatformsUnloaded(e, ok), services);
            if ok then
              var t := Apply(After(unloaded, b, services), Disconnected(e), services);
              PhaseOf(t, e).NotLoaded? && e !in t.shared.coordinators
            else PhaseOf(unloaded, e).Loaded? && e in unloaded.shared.coordinators
  {
    hide After, Names;
    var started := Apply(w, StartUnload(e), services);
    ForeignStepsKeepEntry(started, a, e, services);
    var unloaded := Apply(After(started, a, services), PlatformsUnloaded(e, ok), services);
    ForeignStepsKeepEntry(unloaded, b, e, services);
  }
}
