/**
 The enabled flags of the installed modules, and the jobs that write them: enable with its replaced
 modules switched off, disable with its hand-back, and the rollback of either. Every job re-reads the
 manifests and re-plans on the state as it is under the lock, then writes once.
 */
module ModuleFlags {
  import opened Common
  import opened Manifests

  /** One entry of module-state.json; `others` holds visible, version, category and source. */
  datatype Record = Record(enabled: Option<bool>, others: map<string, string>)
  type Modules = map<Id, Record>

  /** The effective flag: a module without a record, or without the field, is enabled. */
  predicate Enabled(ms: Modules, id: Id) {
    if id in ms then ms[id].enabled.GetOr(true) else true
  }

  function Others(ms: Modules, id: Id): map<string, string> {
    if id in ms then ms[id].others else map[]
  }

  function SetFlag(ms: Modules, id: Id, on: bool): Modules {
    ms[id := Record(Some(on), Others(ms, id))]
  }

  function SetFlags(ms: Modules, ids: set<Id>, on: bool): Modules {
    map id | id in ms.Keys + ids :: if id in ids then Record(Some(on), Others(ms, id)) else ms[id]
  }

  lemma SetFlagsStep(ms: Modules, ids: seq<Id>, i: nat, on: bool)
    requires i < |ids|
    ensures SetFlag(SetFlags(ms, Elems(ids[..i]), on), ids[i], on) == SetFlags(ms, Elems(ids[..i + 1]), on)
  {
    assert Elems(ids[..i + 1]) == Elems(ids[..i]) + {ids[i]};
  }

  lemma SetOneFlag(ms: Modules, id: Id, on: bool)
    ensures SetFlag(ms, id, on) == SetFlags(ms, {id}, on)
  {
  }

  /** `dict.setdefault(id, True)` for every id. */
  function DefaultOn(before: map<Id, bool>, ids: set<Id>): map<Id, bool> {
    map id | id in before.Keys + ids :: if id in before then before[id] else true
  }

  function SetDefault(before: map<Id, bool>, id: Id): map<Id, bool> {
    if id in before then before else before[id := true]
  }

  lemma DefaultOnStep(before: map<Id, bool>, ids: seq<Id>, i: nat)
    requires i < |ids|
    ensures SetDefault(DefaultOn(before, Elems(ids[..i])), ids[i]) == DefaultOn(before, Elems(ids[..i + 1]))
  {
    assert Elems(ids[..i + 1]) == Elems(ids[..i]) + {ids[i]};
  }

  function ModelOf(manifests: map<Id, Manifest>, ms: Modules): (m: Model)
    ensures ValidManifests(manifests) ==> ValidModel(m)
  {
    map id | id in manifests :: Node(manifests[id], Enabled(ms, id))
  }

  // ----- Planning an enable job -----

  /** The enabled replacements that switching `id` back on would switch off. */
  function Switched(m: Model, id: Id): set<Id> {
    if ReplaceableIn(m, id) && !m[id].enabled then set o | o in m && m[o].enabled && m[o].manifest.target == Some(id)
    else {}
  }

  /** The core or server module that switching `id` on would switch off. */
  function Names(m: Model, id: Id): set<Id> {
    if id in m && !m[id].enabled then Displaced(m, id) else {}
  }

  predicate IdAllowed(m: Model, dev: bool, ids: seq<Id>, confirmed: seq<Id>, id: Id) {
    if id !in m then confirmed == []
    else
      && (m[id].manifest.target.Some? ==> ReplacementCheck(WithOff(m, Names(m, id)), dev, id, true).None?)
      && forall o <- Switched(m, id) :: o !in ids
  }

  /** What the plan of `ids` switches off, module by module. */
  function Off(m: Model, ids: seq<Id>): set<Id> {
    if ids == [] then {} else Off(m, ids[..|ids| - 1]) + Names(m, ids[|ids| - 1]) + Switched(m, ids[|ids| - 1])
  }

  predicate Switches(m: Model, ids: seq<Id>) {
    ids != [] && (Switches(m, ids[..|ids| - 1]) || Switched(m, ids[|ids| - 1]) != {})
  }

  function PlanDisables(m: Model, ids: seq<Id>): set<Id> {
    Off(m, ids) - Elems(ids)
  }

  ghost predicate EnableAllowed(m: Model, dev: bool, ids: seq<Id>, confirmed: seq<Id>, replacementConfirmed: bool) {
    && (forall id <- ids :: IdAllowed(m, dev, ids, confirmed, id))
    && (forall o <- PlanDisables(m, ids) :: o in confirmed)
    && (Switches(m, ids) ==> replacementConfirmed)
  }

  datatype Refusal =
    | NoTrustedManifest(id: Id)
    | RuleRefuses(id: Id, reason: Reason)
    | EnabledInSameJob(id: Id, other: Id)
    | UnconfirmedDisable(ids: seq<Id>)
    | SwitchUnconfirmed
    | HandBackRefused(id: Id)

  /** One module of an enable job: what switching it on switches off. */
  method PlanOne(m: Model, dev: bool, ids: seq<Id>, confirmed: seq<Id>, id: Id)
    returns (r: Result<(set<Id>, bool), Refusal>)
    ensures r.Ok? <==> IdAllowed(m, dev, ids, confirmed, id)
    ensures r.Ok? ==> r.value == (Names(m, id) + Switched(m, id), Switched(m, id) != {})
  {
    if id !in m {
      if confirmed != [] { return Err(NoTrustedManifest(id)); }
      assert Names(m, id) + Switched(m, id) == {};
      return Ok(({}, false));
    }
    var names := Names(m, id);
    if m[id].manifest.target.Some? {
      var reason := ReplacementCheck(WithOff(m, names), dev, id, true);
      if reason.Some? { return Err(RuleRefuses(id, reason.value)); }
    }
    var switched := Switched(m, id);
    var clash := set o | o in switched && o in ids;
    assert forall o <- switched :: o in ids ==> o in clash;
    if clash != {} {
      var least := Sorted(clash);
      return Err(EnabledInSameJob(id, least[0]));
    }
    return Ok((names + switched, switched != {}));
  }

  lemma OffNext(m: Model, ids: seq<Id>, i: nat)
    requires i < |ids|
    ensures Off(m, ids[..i + 1]) == Off(m, ids[..i]) + (Names(m, ids[i]) + Switched(m, ids[i]))
    ensures Switches(m, ids[..i + 1]) <==> Switches(m, ids[..i]) || Switched(m, ids[i]) != {}
  {
    assert ids[..i + 1][..i] == ids[..i];
  }

  /** The modules an enable job switches off, in order, or why the job is refused. */
  method PlanEnableDisables(m: Model, dev: bool, ids: seq<Id>, confirmed: seq<Id>, replacementConfirmed: bool)
    returns (r: Result<seq<Id>, Refusal>)
    ensures r.Ok? <==> EnableAllowed(m, dev, ids, confirmed, replacementConfirmed)
    ensures r.Ok? ==> r.value == Sorted(PlanDisables(m, ids))
  {
    var disables: set<Id> := {};
    var switches := false;
    for i := 0 to |ids|
      invariant forall k :: 0 <= k < i ==> IdAllowed(m, dev, ids, confirmed, ids[k])
      invariant disables == Off(m, ids[..i])
      invariant switches == Switches(m, ids[..i])
    {
      assert ids[i] in ids;
      var one := PlanOne(m, dev, ids, confirmed, ids[i]);
      if one.Err? { return Err(one.error); }
      OffNext(m, ids, i);
      disables := disables + one.value.0;
      switches := switches || one.value.1;
    }
    assert ids[..|ids|] == ids;
    var refusal := Unconfirmed(disables - Elems(ids), confirmed, switches, replacementConfirmed);
    if refusal.Some? { return Err(refusal.value); }
    return Ok(Sorted(disables - Elems(ids)));
  }

  /** Why the operator's confirmations do not cover the disables of a plan. */
  method Unconfirmed(disables: set<Id>, confirmed: seq<Id>, switches: bool, replacementConfirmed: bool)
    returns (r: Option<Refusal>)
    ensures r.None? <==> (forall o <- disables :: o in confirmed) && (switches ==> replacementConfirmed)
  {
    var unconfirmed := set o | o in disables && o !in confirmed;
    assert forall o <- disables :: o !in confirmed ==> o in unconfirmed;
    if unconfirmed != {} { return Some(UnconfirmedDisable(Sorted(unconfirmed))); }
    return if switches && !replacementConfirmed then Some(SwitchUnconfirmed) else None;
  }

  // ----- The state an enable job writes -----

  ghost function Planned(manifests: map<Id, Manifest>, ms: Modules, ids: seq<Id>): Modules {
    SetFlags(SetFlags(ms, Elems(ids), true), PlanDisables(ModelOf(manifests, ms), ids), false)
  }

  /** Replacements found on beside their enabled target after the planned writes (a hand edit). */
  ghost function Reconciled(manifests: map<Id, Manifest>, ms: Modules, ids: seq<Id>): set<Id> {
    Conflicted(ModelOf(manifests, Planned(manifests, ms, ids))) - Elems(ids)
  }

  ghost function EnableApplied(manifests: map<Id, Manifest>, ms: Modules, ids: seq<Id>): Modules {
    SetFlags(Planned(manifests, ms, ids), Reconciled(manifests, ms, ids), false)
  }

  function FlagsOf(ms: Modules, ids: set<Id>): map<Id, bool> {
    map id | id in ids :: Enabled(ms, id)
  }

  ghost function EnablePrevious(manifests: map<Id, Manifest>, ms: Modules, ids: seq<Id>): map<Id, bool> {
    DefaultOn(FlagsOf(ms, Elems(ids) + PlanDisables(ModelOf(manifests, ms), ids)), Reconciled(manifests, ms, ids))
  }

  // ----- Planning a disable job with its hand-back -----

  predicate HandBackAllowed(m: Model, ids: seq<Id>, t: Id) {
    && ReplaceableIn(m, t)
    && !m[t].enabled
    && (exists r <- ids :: Replaces(m, r, t) && m[r].enabled)
    && (forall o <- m :: m[o].enabled && m[o].manifest.target == Some(t) ==> o in ids)
  }

  /** The confirmed modules a disable job switches back on, or the first one that breaks a rule. */
  method PlanHandBack(m: Model, ids: seq<Id>, confirmedEnable: seq<Id>) returns (r: Result<seq<Id>, Refusal>)
    ensures r.Ok? <==> forall t <- confirmedEnable :: HandBackAllowed(m, ids, t)
    ensures r.Ok? ==> r.value == Sorted(Elems(confirmedEnable))
    ensures r.Err? ==> r.error.HandBackRefused? && r.error.id in confirmedEnable && !HandBackAllowed(m, ids, r.error.id)
  {
    var wanted := Sorted(Elems(confirmedEnable));
    var enables: seq<Id> := [];
    for i := 0 to |wanted|
      invariant enables == wanted[..i]
      invariant forall t <- wanted[..i] :: HandBackAllowed(m, ids, t)
    {
      var t := wanted[i];
      assert t in Elems(wanted);
      if t !in m || !Replaceable(m[t].manifest.category) || m[t].enabled { return Err(HandBackRefused(t)); }
      var leaving := set r | r in ids && r in m && m[r].manifest.target == Some(t) && m[r].enabled;
      assert forall r <- ids :: Replaces(m, r, t) && m[r].enabled ==> r in leaving;
      if leaving == {} { return Err(HandBackRefused(t)); }
      var rival := set o | o in m && m[o].enabled && m[o].manifest.target == Some(t) && o !in ids;
      assert forall o <- m :: m[o].enabled && m[o].manifest.target == Some(t) && o !in ids ==> o in rival;
      if rival != {} { return Err(HandBackRefused(t)); }
      var r :| r in leaving;
      assert Replaces(m, r, t);
      enables := enables + [t];
    }
    assert forall t <- confirmedEnable :: t in Elems(wanted);
    return Ok(enables);
  }

  ghost predicate DisableAllowed(m: Model, ids: seq<Id>, back: seq<Id>) {
    forall t <- back :: HandBackAllowed(m, ids, t)
  }

  ghost function DisableApplied(ms: Modules, ids: seq<Id>, back: seq<Id>): Modules {
    SetFlags(SetFlags(ms, Elems(ids), false), Elems(back), true)
  }

  ghost function DisablePrevious(ms: Modules, ids: seq<Id>, back: seq<Id>): map<Id, bool> {
    FlagsOf(ms, Elems(ids) + Elems(back))
  }

  ghost function RestoreFlags(ms: Modules, previous: map<Id, bool>): Modules {
    map id | id in ms.Keys + previous.Keys ::
      if id in previous then Record(Some(previous[id]), Others(ms, id)) else ms[id]
  }

  // ----- The lifecycle jobs -----

  /** An enable or disable job; `synced` and `restores` say whether the runtime reload and the undo write succeed. */
  datatype Job =
    | EnableJob(ids: seq<Id>, confirmed: seq<Id>, replacementConfirmed: bool, dev: bool, synced: bool, restores: bool)
    | DisableJob(ids: seq<Id>, back: seq<Id>, synced: bool, restores: bool)

  ghost predicate JobAllowed(m: Model, job: Job) {
    match job
    case EnableJob(ids, confirmed, second, dev, _, _) => EnableAllowed(m, dev, ids, confirmed, second)
    case DisableJob(ids, back, _, _) => DisableAllowed(m, ids, back)
  }

  /** A failed reload is undone only for a job that changed more than the modules it was asked for. */
  ghost predicate RollsBack(manifests: map<Id, Manifest>, ms: Modules, job: Job) {
    && JobAllowed(ModelOf(manifests, ms), job) && !job.synced && job.restores
    && match job
       case EnableJob(ids, _, _, _, _, _) =>
         PlanDisables(ModelOf(manifests, ms), ids) != {} || Reconciled(manifests, ms, ids) != {}
       case DisableJob(_, back, _, _) => back != []
  }

  ghost function Applied(manifests: map<Id, Manifest>, ms: Modules, job: Job): Modules {
    match job
    case EnableJob(ids, _, _, _, _, _) => EnableApplied(manifests, ms, ids)
    case DisableJob(ids, back, _, _) => DisableApplied(ms, ids, back)
  }

  ghost function Previous(manifests: map<Id, Manifest>, ms: Modules, job: Job): map<Id, bool> {
    match job
    case EnableJob(ids, _, _, _, _, _) => EnablePrevious(manifests, ms, ids)
    case DisableJob(ids, back, _, _) => DisablePrevious(ms, ids, back)
  }

  /** The state a job leaves, with the refusals and the rollback branch of a failed reload. */
  ghost function AfterJob(manifests: map<Id, Manifest>, ms: Modules, job: Job): Modules {
    if !JobAllowed(ModelOf(manifests, ms), job) then ms
    else if RollsBack(manifests, ms, job) then RestoreFlags(Applied(manifests, ms, job), Previous(manifests, ms, job))
    else Applied(manifests, ms, job)
  }

  /** module-state.json behind its lock. */
  class ModuleState {
    var modules: Modules

    method SetEnabled(ids: seq<Id>, on: bool)
      modifies this
      ensures modules == SetFlags(old(modules), Elems(ids), on)
    {
      for i := 0 to |ids|
        invariant modules == SetFlags(old(modules), Elems(ids[..i]), on)
      {
        SetFlagsStep(old(modules), ids, i, on);
        modules := SetFlag(modules, ids[i], on);
      }
      assert ids[..|ids|] == ids;
    }

    /** Switches the reconciled replacements off and records them as having been on. */
    method Reconcile(ids: seq<Id>, before: map<Id, bool>) returns (previous: map<Id, bool>)
      modifies this
      ensures modules == SetFlags(old(modules), Elems(ids), false)
      ensures previous == DefaultOn(before, Elems(ids))
    {
      previous := before;
      for i := 0 to |ids|
        invariant previous == DefaultOn(before, Elems(ids[..i]))
        invariant modules == SetFlags(old(modules), Elems(ids[..i]), false)
      {
        SetFlagsStep(old(modules), ids, i, false);
        DefaultOnStep(before, ids, i);
        previous := SetDefault(previous, ids[i]);
        modules := SetFlag(modules, ids[i], false);
      }
      assert ids[..|ids|] == ids;
    }

    method ApplyEnableJob(manifests: map<Id, Manifest>, dev: bool, ids: seq<Id>, confirmed: seq<Id>, second: bool)
      returns (r: Result<(seq<Id>, seq<Id>, map<Id, bool>), Refusal>)
      modifies this
      ensures r.Ok? <==> EnableAllowed(ModelOf(manifests, old(modules)), dev, ids, confirmed, second)
      ensures r.Err? ==> modules == old(modules)
      ensures r.Ok? ==>
        && modules == EnableApplied(manifests, old(modules), ids)
        && r.value.0 == Sorted(PlanDisables(ModelOf(manifests, old(modules)), ids))
        && r.value.1 == Sorted(Reconciled(manifests, old(modules), ids))
        && r.value.2 == EnablePrevious(manifests, old(modules), ids)
    {
      var model := ModelOf(manifests, modules);
      var plan := PlanEnableDisables(model, dev, ids, confirmed, second);
      if plan.Err? { return Err(plan.error); }
      var disables := plan.value;
      assert Elems(disables) == PlanDisables(model, ids);
      var previous := FlagsOf(modules, Elems(ids) + Elems(disables));
      SetEnabled(ids, true);
      SetEnabled(disables, false);
      assert modules == Planned(manifests, old(modules), ids);
      var conflicted := Conflicted(ModelOf(manifests, modules)) - Elems(ids);
      var reconciled := Sorted(conflicted);
      assert Elems(reconciled) == conflicted == Reconciled(manifests, old(modules), ids);
      previous := Reconcile(reconciled, previous);
      return Ok((disables, reconciled, previous));
    }

    method ApplyDisableJob(manifests: map<Id, Manifest>, ids: seq<Id>, back: seq<Id>)
      returns (r: Result<(seq<Id>, map<Id, bool>), Refusal>)
      modifies this
      ensures r.Ok? <==> DisableAllowed(ModelOf(manifests, old(modules)), ids, back)
      ensures r.Err? ==> modules == old(modules)
      ensures r.Ok? ==>
        && modules == DisableApplied(old(modules), ids, back)
        && r.value.0 == Sorted(Elems(back))
        && r.value.1 == DisablePrevious(old(modules), ids, back)
    {
      var enables: seq<Id> := [];
      if back != [] {
        var plan := PlanHandBack(ModelOf(manifests, modules), ids, back);
        if plan.Err? { return Err(plan.error); }
        enables := plan.value;
      }
      assert Elems(enables) == Elems(back);
      var previous := FlagsOf(modules, Elems(ids) + Elems(enables));
      SetEnabled(ids, false);
      SetEnabled(enables, true);
      assert Elems(back) == {} ==> Sorted(Elems(back)) == [];
      return Ok((enables, previous));
    }

    method RestoreEnabledFlags(previous: map<Id, bool>)
      modifies this
      ensures modules == RestoreFlags(old(modules), previous)
    {
      var left := previous.Keys;
      while left != {}
        invariant left <= previous.Keys
        invariant modules == RestoreFlags(old(modules), map id | id in previous && id !in left :: previous[id])
        decreases left
      {
        var id :| id in left;
        left := left - {id};
        modules := SetFlag(modules, id, previous[id]);
      }
      assert (map id | id in previous && id !in left :: previous[id]) == previous;
    }

    /** The enable and disable branches of a lifecycle job, with the rollback of a failed reload. */
    method RunFlagJob(manifests: map<Id, Manifest>, job: Job) returns (succeeded: bool, rolledBack: bool)
      modifies this
      ensures modules == AfterJob(manifests, old(modules), job)
      ensures succeeded <==> JobAllowed(ModelOf(manifests, old(modules)), job) && job.synced
      ensures rolledBack <==> RollsBack(manifests, old(modules), job)
    {
      succeeded, rolledBack := false, false;
      match job
      case EnableJob(ids, confirmed, second, dev, synced, restores) =>
        var r := ApplyEnableJob(manifests, dev, ids, confirmed, second);
        if r.Err? { return; }
        succeeded := synced;
        rolledBack := !synced && restores && (r.value.0 != [] || r.value.1 != []);
        if rolledBack { RestoreEnabledFlags(r.value.2); }
      case DisableJob(ids, back, synced, restores) =>
        var r := ApplyDisableJob(manifests, ids, back);
        if r.Err? { return; }
        assert back != [] ==> back[0] in Elems(back);
        succeeded := synced;
        rolledBack := !synced && restores && r.value.0 != [];
        if rolledBack { RestoreEnabledFlags(r.value.1); }
    }
  }
}
