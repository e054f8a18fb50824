/**
 What the enable and disable jobs promise: no replacement ever runs beside the module it replaces, no
 module is switched off unconfirmed, and a rolled-back job leaves every effective flag as it found it.
 */
module FlagRuns {
  import opened Common
  import opened Manifests
  import opened ModuleFlags

  /** No enabled replacement stands beside its enabled core or server target. */
  ghost predicate Settled(m: Model) {
    Conflicted(m) == {}
  }

  /** No module has two enabled replacements. */
  ghost predicate Unrivalled(manifests: map<Id, Manifest>, ms: Modules) {
    forall a, b :: SameTarget(manifests, a, b) && Enabled(ms, a) && Enabled(ms, b) ==> a == b
  }

  ghost predicate TargetIn(manifests: map<Id, Manifest>, r: Id, ids: seq<Id>) {
    r in manifests && manifests[r].target.Some? && manifests[r].target.value in ids
  }

  ghost predicate SameTarget(manifests: map<Id, Manifest>, a: Id, b: Id) {
    a in manifests && b in manifests && manifests[a].target.Some? && manifests[a].target == manifests[b].target
  }

  /** No requested module is the target of another one. */
  ghost predicate NoTargetAlong(manifests: map<Id, Manifest>, ids: seq<Id>) {
    forall r <- ids :: !TargetIn(manifests, r, ids)
  }

  /** No two requested modules replace the same module. */
  ghost predicate NoRivalAlong(manifests: map<Id, Manifest>, ids: seq<Id>) {
    forall a <- ids, b <- ids :: SameTarget(manifests, a, b) ==> a == b
  }

  // ----- Reading the plan -----

  lemma {:induction false} InOff(m: Model, ids: seq<Id>, o: Id)
    ensures o in Off(m, ids) <==> exists id <- ids :: o in Names(m, id) + Switched(m, id)
  {
    if ids != [] {
      var n := |ids| - 1;
      assert ids == ids[..n] + [ids[n]];
      InOff(m, ids[..n], o);
    }
  }

  lemma {:induction false} SwitchesIff(m: Model, ids: seq<Id>)
    ensures Switches(m, ids) <==> exists id <- ids :: Switched(m, id) != {}
  {
    if ids != [] {
      var n := |ids| - 1;
      assert ids == ids[..n] + [ids[n]];
      SwitchesIff(m, ids[..n]);
    }
  }

  lemma EnableFlag(manifests: map<Id, Manifest>, ms: Modules, ids: seq<Id>, id: Id)
    ensures Enabled(EnableApplied(manifests, ms, ids), id) ==
            (id in ids || (id !in PlanDisables(ModelOf(manifests, ms), ids)
                           && id !in Reconciled(manifests, ms, ids)
                           && Enabled(ms, id)))
  {
  }

  lemma DisableFlag(ms: Modules, ids: seq<Id>, back: seq<Id>, id: Id)
    ensures Enabled(DisableApplied(ms, ids, back), id) == (id in back || (id !in ids && Enabled(ms, id)))
  {
  }

  /** What the rule check of a requested replacement tells about the state before the job. */
  lemma RequestedReplacement(m: Model, dev: bool, ids: seq<Id>, confirmed: seq<Id>, r: Id)
    requires ValidModel(m) && r in m && m[r].manifest.target.Some?
    requires IdAllowed(m, dev, ids, confirmed, r)
    ensures var t := m[r].manifest.target.value;
      && ReplaceableIn(m, t)
      && (m[r].enabled ==> !m[t].enabled)
      && (!m[r].enabled && m[t].enabled ==> Names(m, r) == {t})
      && forall o :: On(m, o) && m[o].manifest.target == Some(t) ==> o == r
  {
    var t := m[r].manifest.target.value;
    var off := WithOff(m, Names(m, r));
    HonouredMeansCovered(off, dev, r, true);
    forall o | On(m, o) && m[o].manifest.target == Some(t) ensures o == r {
      assert off[o] == m[o];
    }
  }

  /** A reconciled replacement and its target were both on before the job. */
  lemma ReconciledWasConflicted(manifests: map<Id, Manifest>, ms: Modules, ids: seq<Id>, r: Id)
    requires ValidManifests(manifests)
    requires r in Reconciled(manifests, ms, ids)
    ensures r in Conflicted(ModelOf(manifests, ms))
    ensures r !in ids && r !in PlanDisables(ModelOf(manifests, ms), ids) && Enabled(ms, r)
  {
    var m := ModelOf(manifests, ms);
    var t := manifests[r].target.value;
    assert Enabled(Planned(manifests, ms, ids), r) && Enabled(Planned(manifests, ms, ids), t);
    if !Enabled(ms, t) {
      assert t in ids && r in Switched(m, t);
      InOff(m, ids, r);
      assert false;
    }
  }

  /** Only a record that says so switches a module off. */
  lemma OffOnlyWhenRecorded(ms: Modules, id: Id)
    ensures Enabled(ms, id) <==> !(id in ms && ms[id].enabled == Some(false))
  {
  }

  // ----- Jobs for one module -----

  /** No other enabled module replaces `t`, and the target's capabilities are all covered by `r`. */
  ghost predicate AloneAndCovering(m: Model, r: Id, t: Id)
    requires r in m && t in m
  {
    && (forall o <- m :: o != r && m[o].enabled ==> m[o].manifest.target != Some(t))
    && m[t].manifest.capabilities.Some?
    && forall c <- m[t].manifest.capabilities.value ::
         Covers(m[r].manifest.capabilities.GetOr(map[]), m[t].manifest.capabilities.value, c)
  }

  lemma OffOne(m: Model, id: Id)
    ensures Off(m, [id]) == Names(m, id) + Switched(m, id) && (Switches(m, [id]) <==> Switched(m, id) != {})
  {
    assert [id][..0] == [] && [id][0] == id;
  }

  /**
   Switching on a replacement: exactly when its category may, its target is there, it is alone and
   covers it, and a target that is on is confirmed off.
   */
  lemma EnableReplacementExactly(m: Model, dev: bool, r: Id, t: Id, confirmed: seq<Id>, second: bool)
    requires ValidModel(m) && r in m && m[r].manifest.target == Some(t) && !m[r].enabled
    ensures EnableAllowed(m, dev, [r], confirmed, second) <==>
      && (m[r].manifest.category.Premium? || (m[r].manifest.category.Unstated? && dev))
      && t in m && (m[t].manifest.category.Core? || m[t].manifest.category.Server?)
      && AloneAndCovering(m, r, t) && (m[t].enabled ==> t in confirmed)
  {
    OffOne(m, r);
    var checked := WithOff(m, Names(m, r));
    HonouredMeansCovered(checked, dev, r, true);
    assert Switched(m, r) == {} && r in [r];
    assert forall o <- m :: checked[o].manifest == m[o].manifest && (o != t ==> checked[o] == m[o]);
  }

  /**
   Switching on a core or server module: exactly when its enabled replacements are confirmed off, with
   the second confirmation if there is one.
   */
  lemma EnableTargetExactly(m: Model, dev: bool, t: Id, confirmed: seq<Id>, second: bool)
    requires ValidModel(m) && t in m && (m[t].manifest.category.Core? || m[t].manifest.category.Server?)
    requires !m[t].enabled
    ensures EnableAllowed(m, dev, [t], confirmed, second) <==>
      forall o <- m :: m[o].enabled && m[o].manifest.target == Some(t) ==> o in confirmed && second
  {
    OffOne(m, t);
    assert m[t].manifest.target.None? && t in [t];
    assert Names(m, t) == {};
    assert forall o <- m :: o in Switched(m, t) <==> m[o].enabled && m[o].manifest.target == Some(t);
    assert forall o <- Switched(m, t) :: o != t;
  }

  /** A module without a trusted manifest is switched on exactly when nothing is confirmed off with it. */
  lemma EnableUnknownExactly(m: Model, dev: bool, id: Id, confirmed: seq<Id>, second: bool)
    requires id !in m
    ensures EnableAllowed(m, dev, [id], confirmed, second) <==> confirmed == []
  {
    OffOne(m, id);
    assert id in [id];
  }

  /** A module that replaces nothing, and is not replaceable or is on already, is always switched on. */
  lemma EnablePlainAlways(m: Model, dev: bool, id: Id, confirmed: seq<Id>, second: bool)
    requires id in m && m[id].manifest.target.None?
    requires m[id].enabled || (!m[id].manifest.category.Core? && !m[id].manifest.category.Server?)
    ensures EnableAllowed(m, dev, [id], confirmed, second)
  {
    OffOne(m, id);
    assert Names(m, id) == {} && Switched(m, id) == {};
  }

  /** A module that is off and its enabled replacement are never switched on in one job. */
  lemma SameJobRefused(m: Model, dev: bool, ids: seq<Id>, confirmed: seq<Id>, second: bool, t: Id, o: Id)
    requires t in ids && o in ids && t in m && o in m
    requires (m[t].manifest.category.Core? || m[t].manifest.category.Server?)
    requires !m[t].enabled && m[o].enabled && m[o].manifest.target == Some(t)
    ensures !EnableAllowed(m, dev, ids, confirmed, second)
  {
    assert o in Switched(m, t);
  }

  // ----- One enable job -----

  /**
   From any start state, hand-edited or not, an accepted enable job leaves no replacement beside its
   target exactly when it was not asked for a replacement together with that replacement's target.
   */
  lemma EnableSettles(
    manifests: map<Id, Manifest>, ms: Modules, dev: bool, ids: seq<Id>, confirmed: seq<Id>, second: bool
  )
    requires ValidManifests(manifests)
    requires EnableAllowed(ModelOf(manifests, ms), dev, ids, confirmed, second)
    ensures Settled(ModelOf(manifests, EnableApplied(manifests, ms, ids))) <==> NoTargetAlong(manifests, ids)
  {
    var m := ModelOf(manifests, ms);
    var after := ModelOf(manifests, EnableApplied(manifests, ms, ids));
    forall r | r in Conflicted(after) ensures r in ids && TargetIn(manifests, r, ids) {
      var t := manifests[r].target.value;
      EnableFlag(manifests, ms, ids, r);
      EnableFlag(manifests, ms, ids, t);
      assert Enabled(Planned(manifests, ms, ids), r) && Enabled(Planned(manifests, ms, ids), t);
      assert r !in ids ==> r in Reconciled(manifests, ms, ids);
      RequestedReplacement(m, dev, ids, confirmed, r);
      if t !in ids {
        InOff(m, ids, t);
      }
    }
    forall r | r in ids && TargetIn(manifests, r, ids) ensures r in Conflicted(after) {
      RequestedReplacement(m, dev, ids, confirmed, r);
      EnableFlag(manifests, ms, ids, r);
      EnableFlag(manifests, ms, ids, manifests[r].target.value);
    }
  }

  /** Two enabled replacements of one module after the job: either both were asked for, or both were on before. */
  lemma RivalsAfter(
    manifests: map<Id, Manifest>, ms: Modules, dev: bool, ids: seq<Id>, confirmed: seq<Id>, second: bool,
    a: Id, b: Id
  )
    requires ValidManifests(manifests)
    requires EnableAllowed(ModelOf(manifests, ms), dev, ids, confirmed, second)
    requires SameTarget(manifests, a, b) && a != b
    requires Enabled(EnableApplied(manifests, ms, ids), a) && Enabled(EnableApplied(manifests, ms, ids), b)
    ensures (a in ids && b in ids) || (Enabled(ms, a) && Enabled(ms, b))
  {
    var m := ModelOf(manifests, ms);
    EnableFlag(manifests, ms, ids, a);
    EnableFlag(manifests, ms, ids, b);
    if a in ids && b !in ids {
      RequestedReplacement(m, dev, ids, confirmed, a);
    } else if b in ids && a !in ids {
      RequestedReplacement(m, dev, ids, confirmed, b);
    }
  }

  /**
   An accepted enable job gives no module a second enabled replacement exactly when it asks for no two
   of one module.
   */
  lemma EnableUnrivalled(
    manifests: map<Id, Manifest>, ms: Modules, dev: bool, ids: seq<Id>, confirmed: seq<Id>, second: bool
  )
    requires ValidManifests(manifests)
    requires EnableAllowed(ModelOf(manifests, ms), dev, ids, confirmed, second)
    requires Unrivalled(manifests, ms)
    ensures Unrivalled(manifests, EnableApplied(manifests, ms, ids)) <==> NoRivalAlong(manifests, ids)
  {
    var ms' := EnableApplied(manifests, ms, ids);
    forall a, b | SameTarget(manifests, a, b) && Enabled(ms', a) && Enabled(ms', b) && a != b
      ensures a in ids && b in ids
    {
      RivalsAfter(manifests, ms, dev, ids, confirmed, second, a, b);
    }
    forall a | a in ids ensures Enabled(ms', a) {
      EnableFlag(manifests, ms, ids, a);
    }
  }

  /**
   Whatever list a job asks for: a module goes off only when confirmed or when it stood beside its
   enabled target, it goes on only when asked for, and switching a module on at the expense of its
   replacement needs the second confirmation.
   */
  lemma EnableChangesAsConfirmed(
    manifests: map<Id, Manifest>, ms: Modules, dev: bool, ids: seq<Id>, confirmed: seq<Id>, second: bool,
    id: Id
  )
    requires ValidManifests(manifests)
    requires EnableAllowed(ModelOf(manifests, ms), dev, ids, confirmed, second)
    ensures
      var after := EnableApplied(manifests, ms, ids);
      && (Enabled(ms, id) && !Enabled(after, id) ==> id in confirmed || id in Conflicted(ModelOf(manifests, ms)))
      && (!Enabled(ms, id) && Enabled(after, id) ==> id in ids)
      && ((&& Enabled(ms, id) && !Enabled(after, id)
           && TargetIn(manifests, id, ids) && !Enabled(ms, manifests[id].target.value)) ==> second)
      && Others(after, id) == Others(ms, id)
  {
    var m := ModelOf(manifests, ms);
    EnableFlag(manifests, ms, ids, id);
    EnableOthers(manifests, ms, ids, id);
    if id in Reconciled(manifests, ms, ids) {
      ReconciledWasConflicted(manifests, ms, ids, id);
    } else if id in PlanDisables(m, ids) {
      SwitchedNeedsSecond(manifests, ms, ids, id);
    }
  }

  /** A planned disable whose own target is asked for and off is a switch. */
  lemma SwitchedNeedsSecond(manifests: map<Id, Manifest>, ms: Modules, ids: seq<Id>, id: Id)
    requires ValidManifests(manifests) && id in PlanDisables(ModelOf(manifests, ms), ids)
    ensures TargetIn(manifests, id, ids) && !Enabled(ms, manifests[id].target.value) ==>
      Switches(ModelOf(manifests, ms), ids)
  {
    var m := ModelOf(manifests, ms);
    InOff(m, ids, id);
    SwitchesIff(m, ids);
  }

  /** A job over modules that are all off, and that no check refuses, plans no disable. */
  lemma AllOffPlansNothing(m: Model, dev: bool, ids: seq<Id>)
    requires forall id <- m :: !m[id].enabled
    requires forall id <- ids :: id in m && (m[id].manifest.target.Some? ==> ReplacementCheck(m, dev, id, true).None?)
    ensures EnableAllowed(m, dev, ids, [], false)
  {
    forall id | id in ids ensures IdAllowed(m, dev, ids, [], id) && Names(m, id) + Switched(m, id) == {} {
      assert WithOff(m, Names(m, id)) == m;
    }
    forall o ensures o !in Off(m, ids) { InOff(m, ids, o); }
    SwitchesIff(m, ids);
  }

  // A core module and two premium modules that replace it, all of them off.
  const TRIO: map<Id, Manifest> := map[
    "t" := Manifest("t", Core, None, Some(map[])),
    "a" := Manifest("a", Premium, Some("t"), None),
    "b" := Manifest("b", Premium, Some("t"), None)]
  const OFF := Record(Some(false), map[])
  const TRIO_OFF: Modules := map["t" := OFF, "a" := OFF, "b" := OFF]

  /** The trio is valid and settled, and either replacement passes the rule check. */
  lemma TrioIsFine(r: Id)
    requires r == "a" || r == "b"
    ensures ValidManifests(TRIO) && Settled(ModelOf(TRIO, TRIO_OFF)) && Unrivalled(TRIO, TRIO_OFF)
    ensures ReplacementCheck(ModelOf(TRIO, TRIO_OFF), false, r, true).None?
  {
    var m := ModelOf(TRIO, TRIO_OFF);
    assert forall id <- m :: !m[id].enabled;
    HonouredMeansCovered(m, false, r, true);
  }

  /** Two requests that no rule refuses and that leave a replacement beside its target. */
  lemma ReplacementWithTargetInOneJob()
    ensures ValidManifests(TRIO) && Settled(ModelOf(TRIO, TRIO_OFF))
    ensures EnableAllowed(ModelOf(TRIO, TRIO_OFF), false, ["a", "t"], [], false)
    ensures !Settled(ModelOf(TRIO, EnableApplied(TRIO, TRIO_OFF, ["a", "t"])))
  {
    var ids := ["a", "t"];
    assert ids[0] == "a" && ids[1] == "t";
    TrioIsFine("a");
    AllOffPlansNothing(ModelOf(TRIO, TRIO_OFF), false, ids);
    assert TargetIn(TRIO, "a", ids);
    EnableSettles(TRIO, TRIO_OFF, false, ids, [], false);
  }

  /** Two requested replacements of one module that no rule refuses and that both end on. */
  lemma TwoReplacementsInOneJob()
    ensures ValidManifests(TRIO) && Unrivalled(TRIO, TRIO_OFF)
    ensures EnableAllowed(ModelOf(TRIO, TRIO_OFF), false, ["a", "b"], [], false)
    ensures !Unrivalled(TRIO, EnableApplied(TRIO, TRIO_OFF, ["a", "b"]))
  {
    var ids := ["a", "b"];
    assert ids[0] == "a" && ids[1] == "b";
    TrioIsFine("a");
    TrioIsFine("b");
    AllOffPlansNothing(ModelOf(TRIO, TRIO_OFF), false, ids);
    assert SameTarget(TRIO, "a", "b");
    EnableUnrivalled(TRIO, TRIO_OFF, false, ids, [], false);
  }

  // ----- One disable job -----

  lemma DisableConflict(manifests: map<Id, Manifest>, ms: Modules, ids: seq<Id>, back: seq<Id>, r: Id)
    requires ValidManifests(manifests)
    requires DisableAllowed(ModelOf(manifests, ms), ids, back)
    requires r in Conflicted(ModelOf(manifests, DisableApplied(ms, ids, back)))
    ensures r in Conflicted(ModelOf(manifests, ms))
  {
    var m := ModelOf(manifests, ms);
    var t := manifests[r].target.value;
    DisableFlag(ms, ids, back, r);
    DisableFlag(ms, ids, back, t);
    assert r in back ==> HandBackAllowed(m, ids, r);
    assert t in back ==> HandBackAllowed(m, ids, t);
  }

  /** A disable job with its hand-backs keeps both invariants, whatever it disables. */
  lemma DisableKeeps(manifests: map<Id, Manifest>, ms: Modules, ids: seq<Id>, back: seq<Id>)
    requires ValidManifests(manifests)
    requires DisableAllowed(ModelOf(manifests, ms), ids, back)
    ensures
      var after := DisableApplied(ms, ids, back);
      && (Settled(ModelOf(manifests, ms)) ==> Settled(ModelOf(manifests, after)))
      && (Unrivalled(manifests, ms) ==> Unrivalled(manifests, after))
  {
    var m, after := ModelOf(manifests, ms), DisableApplied(ms, ids, back);
    forall r | r in Conflicted(ModelOf(manifests, after)) ensures r in Conflicted(m) {
      DisableConflict(manifests, ms, ids, back, r);
    }
    forall r | r in manifests && manifests[r].target.Some? && Enabled(after, r) ensures Enabled(ms, r) {
      DisableFlag(ms, ids, back, r);
      assert r in back ==> HandBackAllowed(m, ids, r);
    }
  }

  // ----- Rollback -----

  ghost predicate SameFlags(ms: Modules, ms': Modules) {
    forall id: Id :: Enabled(ms, id) == Enabled(ms', id) && Others(ms, id) == Others(ms', id)
  }

  lemma RestoredFlag(ms: Modules, previous: map<Id, bool>, id: Id)
    ensures Enabled(RestoreFlags(ms, previous), id) == if id in previous then previous[id] else Enabled(ms, id)
    ensures Others(RestoreFlags(ms, previous), id) == Others(ms, id)
  {
  }

  lemma EnableOthers(manifests: map<Id, Manifest>, ms: Modules, ids: seq<Id>, id: Id)
    ensures Others(EnableApplied(manifests, ms, ids), id) == Others(ms, id)
  {
  }

  /** Rolling an enable job back is the identity on every effective flag, reconciled modules included. */
  lemma EnableRollback(manifests: map<Id, Manifest>, ms: Modules, ids: seq<Id>)
    requires ValidManifests(manifests)
    ensures SameFlags(ms, RestoreFlags(EnableApplied(manifests, ms, ids), EnablePrevious(manifests, ms, ids)))
  {
    var ms', previous := EnableApplied(manifests, ms, ids), EnablePrevious(manifests, ms, ids);
    forall id: Id
      ensures Enabled(RestoreFlags(ms', previous), id) == Enabled(ms, id)
      ensures Others(RestoreFlags(ms', previous), id) == Others(ms, id)
    {
      RestoredFlag(ms', previous, id);
      EnableOthers(manifests, ms, ids, id);
      EnableFlag(manifests, ms, ids, id);
      if id in Reconciled(manifests, ms, ids) { ReconciledWasConflicted(manifests, ms, ids, id); }
    }
  }

  lemma DisableRollback(ms: Modules, ids: seq<Id>, back: seq<Id>)
    ensures SameFlags(ms, RestoreFlags(DisableApplied(ms, ids, back), DisablePrevious(ms, ids, back)))
  {
    var ms', previous := DisableApplied(ms, ids, back), DisablePrevious(ms, ids, back);
    forall id: Id
      ensures Enabled(RestoreFlags(ms', previous), id) == Enabled(ms, id)
      ensures Others(RestoreFlags(ms', previous), id) == Others(ms, id)
    {
      RestoredFlag(ms', previous, id);
      DisableFlag(ms, ids, back, id);
    }
  }

  // ----- Whole runs -----

  ghost function AfterJobs(manifests: map<Id, Manifest>, ms: Modules, jobs: seq<Job>): Modules {
    if jobs == [] then ms
    else AfterJob(manifests, AfterJobs(manifests, ms, jobs[..|jobs| - 1]), jobs[|jobs| - 1])
  }

  ghost predicate Apart(manifests: map<Id, Manifest>, job: Job) {
    job.EnableJob? ==> NoTargetAlong(manifests, job.ids) && NoRivalAlong(manifests, job.ids)
  }

  /** Enable jobs have one target; such a job is always apart. */
  lemma SingleTargetApart(manifests: map<Id, Manifest>, job: Job)
    requires ValidManifests(manifests)
    requires job.EnableJob? ==> |job.ids| == 1
    ensures Apart(manifests, job)
  {
    if job.EnableJob? {
      assert forall id <- job.ids :: id == job.ids[0];
    }
  }

  lemma SameFlagsSameModel(manifests: map<Id, Manifest>, ms: Modules, ms': Modules)
    requires SameFlags(ms, ms')
    ensures ModelOf(manifests, ms) == ModelOf(manifests, ms')
  {
    assert forall id <- manifests :: Enabled(ms, id) == Enabled(ms', id);
  }

  /** A job that reports a rollback leaves every effective flag, and every other field, as it found it. */
  lemma RolledBackMeansUndone(manifests: map<Id, Manifest>, ms: Modules, job: Job)
    requires ValidManifests(manifests) && RollsBack(manifests, ms, job)
    ensures SameFlags(ms, AfterJob(manifests, ms, job))
  {
    match job
    case EnableJob(ids, _, _, _, _, _) => EnableRollback(manifests, ms, ids);
    case DisableJob(ids, back, _, _) => DisableRollback(ms, ids, back);
  }

  /** A failed reload is undone, when the undo works, exactly if the job changed a module it was not asked for. */
  lemma UndoneExactly(manifests: map<Id, Manifest>, ms: Modules, job: Job)
    requires ValidManifests(manifests) && JobAllowed(ModelOf(manifests, ms), job)
    ensures RollsBack(manifests, ms, job) <==>
      && !job.synced && job.restores
      && match job
         case EnableJob(ids, _, _, _, _, _) =>
           exists id: Id :: id !in ids && Enabled(ms, id) != Enabled(EnableApplied(manifests, ms, ids), id)
         case DisableJob(_, back, _, _) => back != []
  {
    if job.EnableJob? { SomethingChanged(manifests, ms, job.ids); }
  }

  lemma SomethingChanged(manifests: map<Id, Manifest>, ms: Modules, ids: seq<Id>)
    requires ValidManifests(manifests)
    ensures (exists id: Id :: id !in ids && Enabled(ms, id) != Enabled(EnableApplied(manifests, ms, ids), id)) <==>
      PlanDisables(ModelOf(manifests, ms), ids) != {} || Reconciled(manifests, ms, ids) != {}
  {
    var off, reconciled := PlanDisables(ModelOf(manifests, ms), ids), Reconciled(manifests, ms, ids);
    if id :| id !in ids && Enabled(ms, id) != Enabled(EnableApplied(manifests, ms, ids), id) {
      ChangedUnasked(manifests, ms, ids, id);
    }
    if off + reconciled != {} {
      var id :| id in off + reconciled;
      ChangedUnasked(manifests, ms, ids, id);
      assert id !in ids && Enabled(ms, id) != Enabled(EnableApplied(manifests, ms, ids), id);
    }
  }

  /** Among the modules not asked for, the disables and the reconciled ones are those that change. */
  lemma ChangedUnasked(manifests: map<Id, Manifest>, ms: Modules, ids: seq<Id>, id: Id)
    requires ValidManifests(manifests) && id !in ids
    ensures Enabled(ms, id) != Enabled(EnableApplied(manifests, ms, ids), id)
      <==> id in PlanDisables(ModelOf(manifests, ms), ids) || id in Reconciled(manifests, ms, ids)
  {
    EnableFlag(manifests, ms, ids, id);
    InOff(ModelOf(manifests, ms), ids, id);
    if id in Reconciled(manifests, ms, ids) { ReconciledWasConflicted(manifests, ms, ids, id); }
  }

  /**
   A refused job changes nothing and reports no rollback; an allowed one that reloads, or changes
   nothing else, stays applied.
   */
  lemma JobEnds(manifests: map<Id, Manifest>, ms: Modules, job: Job)
    ensures !JobAllowed(ModelOf(manifests, ms), job) ==>
      AfterJob(manifests, ms, job) == ms && !RollsBack(manifests, ms, job)
    ensures JobAllowed(ModelOf(manifests, ms), job) && !RollsBack(manifests, ms, job) ==>
      AfterJob(manifests, ms, job) ==
        if job.EnableJob? then EnableApplied(manifests, ms, job.ids) else DisableApplied(ms, job.ids, job.back)
  {
  }

  lemma JobKeeps(manifests: map<Id, Manifest>, ms: Modules, job: Job)
    requires ValidManifests(manifests) && Apart(manifests, job)
    requires Settled(ModelOf(manifests, ms)) && Unrivalled(manifests, ms)
    ensures var after := AfterJob(manifests, ms, job);
      Settled(ModelOf(manifests, after)) && Unrivalled(manifests, after)
  {
    if RollsBack(manifests, ms, job) {
      RolledBackMeansUndone(manifests, ms, job);
      SameFlagsSameModel(manifests, ms, AfterJob(manifests, ms, job));
    } else if JobAllowed(ModelOf(manifests, ms), job) {
      match job
      case EnableJob(ids, confirmed, second, dev, _, _) =>
        EnableSettles(manifests, ms, dev, ids, confirmed, second);
        EnableUnrivalled(manifests, ms, dev, ids, confirmed, second);
      case DisableJob(ids, back, _, _) =>
        DisableKeeps(manifests, ms, ids, back);
    }
  }

  /**
   In every state of every run of enable jobs, disable jobs and rollbacks that starts settled, no
   replacement runs beside its target and no module has two enabled replacements.
   */
  lemma {:induction false} RunsStaySettled(manifests: map<Id, Manifest>, ms: Modules, jobs: seq<Job>)
    requires ValidManifests(manifests)
    requires forall job <- jobs :: Apart(manifests, job)
    requires Settled(ModelOf(manifests, ms)) && Unrivalled(manifests, ms)
    ensures var after := AfterJobs(manifests, ms, jobs);
      Settled(ModelOf(manifests, after)) && Unrivalled(manifests, after)
  {
    if jobs != [] {
      var n := |jobs| - 1;
      RunsStaySettled(manifests, ms, jobs[..n]);
      JobKeeps(manifests, AfterJobs(manifests, ms, jobs[..n]), jobs[n]);
    }
  }
}
