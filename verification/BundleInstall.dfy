/**
 The bundle and batch install transaction: back up, install module by module with replaced modules
 switched off early, verify, record, and on any failure restore code and flags from the backup.
 */
module BundleInstall {
  import opened Common
  import opened Manifests
  import opened ModuleFlags

  type Tree = string

  datatype ActionKind = Install | Replace | Rename
  datatype Action = Action(id: Id, kind: ActionKind, previous: Option<Id>)

  /** A validated plan: the signed ids in order, their actions, and what the operator confirmed. */
  datatype Plan = Plan(order: seq<Id>, actions: map<Id, Action>, confirmed: seq<Id>)

  /** The `replaces` field of a package, read before its install shell runs. */
  datatype Peek = PeekFails | NoTarget | Target(id: Id)

  /** What an install shell leaves in the two trees of its own module; `ok` is its exit status. */
  datatype Shell = Shell(ok: bool, extension: Option<Tree>, reportset: Option<Tree>)

  /** The outcome of every foreign step of one job. */
  datatype Env = Env(
    manifest: Tree -> RawManifest,
    dev: bool,
    scriptOk: bool,
    treesCopied: nat,
    stateCopied: bool,
    packagePresent: Id -> bool,
    peek: Id -> Peek,
    shell: Id -> Shell,
    categoriesOk: bool,
    identityOk: Id -> bool,
    version: Id -> string,
    syncOk: bool,
    registerOk: bool)

  function InstalledIn(env: Env, extensions: map<Id, Tree>): (ms: map<Id, Manifest>)
    ensures ValidManifests(ms)
  {
    ReadInstalled(map id | id in extensions :: env.manifest(extensions[id]))
  }

  function Lookup<T>(m: map<Id, T>, id: Id): Option<T> {
    if id in m then Some(m[id]) else None
  }

  function Put<T>(m: map<Id, T>, id: Id, v: Option<T>): map<Id, T> {
    if v.Some? then m[id := v.value] else m - {id}
  }

  lemma PutAt<T>(m: map<Id, T>, id: Id, v: Option<T>, x: Id)
    ensures Lookup(Put(m, id, v), x) == if x == id then v else Lookup(m, x)
  {
  }

  function Restrict<T>(m: map<Id, T>, ids: set<Id>): map<Id, T> {
    map id | id in m && id in ids :: m[id]
  }

  function Presence(ext: map<Id, Tree>, rep: map<Id, Tree>, ids: set<Id>): map<Id, (bool, bool)> {
    map id | id in ids :: (id in ext, id in rep)
  }

  lemma RestrictStep<T>(m: map<Id, T>, ids: seq<Id>, i: nat)
    requires i < |ids|
    ensures Restrict(m, Elems(ids[..i + 1])) ==
      if ids[i] in m then Restrict(m, Elems(ids[..i]))[ids[i] := m[ids[i]]] else Restrict(m, Elems(ids[..i]))
  {
    assert Elems(ids[..i + 1]) == Elems(ids[..i]) + {ids[i]};
  }

  lemma PresenceStep(ext: map<Id, Tree>, rep: map<Id, Tree>, ids: seq<Id>, i: nat)
    requires i < |ids|
    ensures Presence(ext, rep, Elems(ids[..i + 1])) ==
      Presence(ext, rep, Elems(ids[..i]))[ids[i] := (ids[i] in ext, ids[i] in rep)]
  {
    assert Elems(ids[..i + 1]) == Elems(ids[..i]) + {ids[i]};
  }

  ghost predicate SameOutside<T(!new)>(a: map<Id, T>, b: map<Id, T>, ids: set<Id>) {
    forall id: Id :: id !in ids ==> Lookup(a, id) == Lookup(b, id)
  }

  function ActionOf(plan: Plan, id: Id): Action {
    if id in plan.actions then plan.actions[id] else Action(id, Replace, None)
  }

  /** The module a rename removes before it installs `id`. */
  function RenameFrom(plan: Plan, id: Id): Option<Id> {
    var a := ActionOf(plan, id);
    if a.kind.Rename? then a.previous else None
  }

  function Sources(plan: Plan, ids: seq<Id>): set<Id> {
    set i | 0 <= i < |ids| && RenameFrom(plan, ids[i]).Some? :: RenameFrom(plan, ids[i]).value
  }

  /** The order followed by every previous id an action names, each new one once. */
  function BackupUpTo(plan: Plan, i: nat): (ids: seq<Id>)
    requires i <= |plan.order|
    ensures forall x ::
      x in ids <==> x in plan.order || exists k :: 0 <= k < i && ActionOf(plan, plan.order[k]).previous == Some(x)
  {
    if i == 0 then plan.order
    else
      var ids, previous := BackupUpTo(plan, i - 1), ActionOf(plan, plan.order[i - 1]).previous;
      if previous.Some? && previous.value !in ids then ids + [previous.value] else ids
  }

  function BackupList(plan: Plan): seq<Id> {
    BackupUpTo(plan, |plan.order|)
  }

  /** Effective flags differ from the start only in the switched-off modules, all on before and confirmed. */
  ghost predicate FlagsOff(before: Modules, now: Modules, off: set<Id>, confirmed: seq<Id>) {
    && (forall id: Id :: Enabled(now, id) == (Enabled(before, id) && id !in off))
    && (forall id <- off :: Enabled(before, id) && id in confirmed)
  }

  lemma SwitchOff(before: Modules, now: Modules, off: set<Id>, confirmed: seq<Id>, more: set<Id>)
    requires FlagsOff(before, now, off, confirmed)
    requires forall id <- more :: Enabled(now, id) && id in confirmed
    ensures FlagsOff(before, SetFlags(now, more, false), off + more, confirmed)
  {
    forall id: Id ensures Enabled(SetFlags(now, more, false), id) == (Enabled(before, id) && id !in off + more) {
      assert Enabled(now, id) == (Enabled(before, id) && id !in off);
    }
  }

  function ModulesOf(state: Option<Modules>): Modules {
    state.GetOr(map[])
  }

  // ----- What freshly installed replacements switch off -----

  predicate FreshReplacement(plan: Plan, m: Model, before: set<Id>, id: Id) {
    id in m && m[id].manifest.target.Some? && id !in before && ActionOf(plan, id).kind.Install? && m[id].enabled
  }

  /** The enabled core or server target of a fresh replacement, unless this job installs it too. */
  function FreshNames(plan: Plan, m: Model, id: Id): set<Id>
    requires id in m
  {
    Displaced(m, id) - Elems(plan.order)
  }

  predicate FreshOk(plan: Plan, m: Model, dev: bool, id: Id)
    requires id in m
  {
    ReplacementCheck(WithOff(m, FreshNames(plan, m, id)), dev, id, true).None?
  }

  function NamesOf(plan: Plan, m: Model, before: set<Id>, id: Id): set<Id> {
    if FreshReplacement(plan, m, before, id) then FreshNames(plan, m, id) else {}
  }

  /** What the fresh replacements among `ids` switch off. */
  function FreshOff(plan: Plan, m: Model, before: set<Id>, ids: seq<Id>): set<Id> {
    if ids == [] then {} else FreshOff(plan, m, before, ids[..|ids| - 1]) + NamesOf(plan, m, before, ids[|ids| - 1])
  }

  lemma {:induction false} InFreshOff(plan: Plan, m: Model, before: set<Id>, ids: seq<Id>, d: Id)
    ensures d in FreshOff(plan, m, before, ids) <==> exists id <- ids :: d in NamesOf(plan, m, before, id)
  {
    if ids != [] {
      var n := |ids| - 1;
      assert ids == ids[..n] + [ids[n]];
      InFreshOff(plan, m, before, ids[..n], d);
    }
  }

  /** The module is no fresh replacement, or one that passes the rule check. */
  predicate Passes(plan: Plan, m: Model, dev: bool, before: set<Id>, id: Id) {
    FreshReplacement(plan, m, before, id) ==> FreshOk(plan, m, dev, id)
  }

  ghost predicate AllPass(plan: Plan, m: Model, dev: bool, before: set<Id>, ids: seq<Id>) {
    forall id <- ids :: Passes(plan, m, dev, before, id)
  }

  ghost predicate FreshAllowed(plan: Plan, m: Model, dev: bool, before: set<Id>) {
    && AllPass(plan, m, dev, before, plan.order)
    && (forall d <- FreshOff(plan, m, before, plan.order) :: d in plan.confirmed)
  }

  /** The replaced module as the check sees it: off already, or switched off by it unless the job installs it itself. */
  ghost predicate OffForCheck(plan: Plan, m: Model, t: Id)
    requires t in m
  {
    !m[t].enabled || t !in plan.order
  }

  /**
   Which modules of the order pass: those already there, without a readable manifest or target, with
   another action or switched off; and new enabled replacements that are allowed, alone, cover an
   installed core or server module and find it off or can switch it off.
   */
  lemma PassesMeans(plan: Plan, m: Model, dev: bool, before: set<Id>, id: Id)
    requires ValidModel(m)
    ensures Passes(plan, m, dev, before, id) <==>
      || id in before || id !in m || m[id].manifest.target.None? || !m[id].enabled
      || id !in plan.actions || plan.actions[id].kind != Install
      || var t := m[id].manifest.target.value;
         && (m[id].manifest.category == Premium || (m[id].manifest.category == Unstated && dev))
         && t in m && (m[t].manifest.category == Core || m[t].manifest.category == Server) && OffForCheck(plan, m, t)
         && (forall o <- m :: o != id && m[o].enabled ==> m[o].manifest.target != Some(t))
         && m[t].manifest.capabilities.Some?
         && forall c <- m[t].manifest.capabilities.value ::
              Covers(m[id].manifest.capabilities.GetOr(map[]), m[t].manifest.capabilities.value, c)
  {
    if id in m && m[id].manifest.target.Some? {
      var checked := WithOff(m, FreshNames(plan, m, id));
      HonouredMeansCovered(checked, dev, id, true);
      var t := m[id].manifest.target.value;
      assert FreshNames(plan, m, id) <= {t};
      assert forall o <- m :: checked[o].manifest == m[o].manifest && (o != t ==> checked[o] == m[o]);
    }
  }

  /** Works out what the fresh replacements of the order switch off, or refuses. */
  method VerifyInstallDisables(plan: Plan, m: Model, dev: bool, before: set<Id>) returns (r: Option<set<Id>>)
    ensures r.Some? <==> FreshAllowed(plan, m, dev, before)
    ensures r.Some? ==> r.value == FreshOff(plan, m, before, plan.order)
  {
    var disables: set<Id> := {};
    for i := 0 to |plan.order|
      invariant AllPass(plan, m, dev, before, plan.order[..i])
      invariant disables == FreshOff(plan, m, before, plan.order[..i])
    {
      var names := CheckOne(plan, m, dev, before, plan.order[i]);
      FreshNext(plan, m, dev, before, plan.order, i);
      if names.None? { return None; }
      disables := disables + names.value;
    }
    assert plan.order[..|plan.order|] == plan.order;
    if exists d <- disables :: d !in plan.confirmed { return None; }
    return Some(disables);
  }

  /** One module of the order: what it switches off, or None when the rule check refuses it. */
  method CheckOne(plan: Plan, m: Model, dev: bool, before: set<Id>, id: Id) returns (r: Option<set<Id>>)
    ensures r.Some? <==> Passes(plan, m, dev, before, id)
    ensures r.Some? ==> r.value == NamesOf(plan, m, before, id)
  {
    if !FreshReplacement(plan, m, before, id) { return Some({}); }
    if !FreshOk(plan, m, dev, id) { return None; }
    return Some(FreshNames(plan, m, id));
  }

  lemma FreshNext(plan: Plan, m: Model, dev: bool, before: set<Id>, ids: seq<Id>, i: nat)
    requires i < |ids|
    ensures FreshOff(plan, m, before, ids[..i + 1]) ==
      FreshOff(plan, m, before, ids[..i]) + NamesOf(plan, m, before, ids[i])
    ensures AllPass(plan, m, dev, before, ids[..i + 1]) <==>
      AllPass(plan, m, dev, before, ids[..i]) && Passes(plan, m, dev, before, ids[i])
    ensures !Passes(plan, m, dev, before, ids[i]) ==> !AllPass(plan, m, dev, before, ids)
  {
    assert ids[..i + 1][..i] == ids[..i] && ids[..i + 1] == ids[..i] + [ids[i]];
    assert ids[i] in ids && ids[i] in ids[..i + 1];
  }

  /** What is switched off was on, is a core or server module, and is not installed by this job. */
  lemma FreshOffOn(plan: Plan, m: Model, before: set<Id>, d: Id)
    requires d in FreshOff(plan, m, before, plan.order)
    ensures On(m, d) && ReplaceableIn(m, d) && d !in plan.order
  {
    InFreshOff(plan, m, before, plan.order, d);
  }

  /** A fresh replacement that passed the check ends beside a switched-off target. */
  lemma FreshTargetOff(plan: Plan, m: Model, dev: bool, id: Id)
    requires id in m && m[id].manifest.target.Some? && FreshOk(plan, m, dev, id)
    ensures ReplaceableIn(m, m[id].manifest.target.value)
    ensures m[m[id].manifest.target.value].enabled ==> m[id].manifest.target.value in FreshNames(plan, m, id)
  {
    HonouredMeansCovered(WithOff(m, FreshNames(plan, m, id)), dev, id, true);
  }

  /** An enabled core or server module that this job does not install itself. */
  predicate StandsInTheWay(plan: Plan, m: Model, t: Id) {
    ReplaceableIn(m, t) && m[t].enabled && t !in plan.order
  }

  // ----- The install loop -----

  /** What a job changes: the two trees of every module, and module-state.json. */
  datatype Site = Site(extensions: map<Id, Tree>, reportsets: map<Id, Tree>, state: Option<Modules>)

  /** The site during the install loop, with the rename sources removed and the modules switched off so far. */
  datatype Live = Live(site: Site, removed: set<Id>, off: set<Id>, failed: bool)

  function Dropped(plan: Plan, l: Live, id: Id): Live {
    match RenameFrom(plan, id)
    case None => l
    case Some(p) =>
      l.(site := l.site.(extensions := l.site.extensions - {p}, reportsets := l.site.reportsets - {p}),
         removed := l.removed + {p})
  }

  /** What is switched off before a fresh install: the module in the way, if any; None when that is refused. */
  function Prepared(plan: Plan, env: Env, before: set<Id>, site: Site, id: Id): Option<set<Id>> {
    if id in before || !ActionOf(plan, id).kind.Install? then Some({})
    else match env.peek(id)
      case PeekFails => None
      case NoTarget => Some({})
      case Target(t) =>
        if !StandsInTheWay(plan, ModelOf(InstalledIn(env, site.extensions), ModulesOf(site.state)), t) then Some({})
        else if t in plan.confirmed then Some({t}) else None
  }

  function Switch(state: Option<Modules>, off: set<Id>): Option<Modules> {
    if off == {} then state else Some(SetFlags(ModulesOf(state), off, false))
  }

  function Shelled(env: Env, site: Site, id: Id): Site {
    Site(Put(site.extensions, id, env.shell(id).extension),
         Put(site.reportsets, id, env.shell(id).reportset), site.state)
  }

  /** One module: rename removal, early disable, install shell. */
  function InstallStep(plan: Plan, env: Env, before: set<Id>, l: Live, id: Id): Live {
    if l.failed then l
    else if !env.packagePresent(id) then l.(failed := true)
    else
      var d := Dropped(plan, l, id);
      var off := Prepared(plan, env, before, d.site, id);
      if off.None? then d.(failed := true)
      else
        var switched := d.site.(state := Switch(d.site.state, off.value));
        Live(Shelled(env, switched, id), d.removed, d.off + off.value, !env.shell(id).ok)
  }

  function Loop(plan: Plan, env: Env, before: set<Id>, l: Live, ids: seq<Id>): Live {
    if ids == [] then l
    else InstallStep(plan, env, before, Loop(plan, env, before, l, ids[..|ids| - 1]), ids[|ids| - 1])
  }

  /**
   What is switched off before an install, and when that is refused: only the module a new one names,
   installed, on and not part of the job.
   */
  lemma PreparedMeans(plan: Plan, env: Env, before: set<Id>, site: Site, id: Id, t: Id)
    requires env.peek(id) == Target(t)
    ensures
      var new_ := id !in before && id in plan.actions && plan.actions[id].kind == Install;
      var inTheWay := InTheWay(plan, env, site, t);
      && (!new_ || !inTheWay ==> Prepared(plan, env, before, site, id) == Some({}))
      && (new_ && inTheWay && t in plan.confirmed ==> Prepared(plan, env, before, site, id) == Some({t}))
      && (new_ && inTheWay && t !in plan.confirmed ==> Prepared(plan, env, before, site, id).None?)
  {
  }

  /** An installed core or server module that is on and that the job does not install itself. */
  ghost predicate InTheWay(plan: Plan, env: Env, site: Site, t: Id) {
    var installed := InstalledIn(env, site.extensions);
    && t in installed && (installed[t].category == Core || installed[t].category == Server)
    && Enabled(ModulesOf(site.state), t) && t !in plan.order
  }

  /**
   A package that names no target switches nothing off; one that cannot be read is refused, unless it
   is no new install.
   */
  lemma PreparedWithoutTarget(plan: Plan, env: Env, before: set<Id>, site: Site, id: Id)
    ensures env.peek(id) == NoTarget ==> Prepared(plan, env, before, site, id) == Some({})
    ensures env.peek(id) == PeekFails ==>
      (Prepared(plan, env, before, site, id).None? <==>
         id !in before && id in plan.actions && plan.actions[id].kind == Install)
  {
  }

  lemma {:induction false} LoopStuck(plan: Plan, env: Env, before: set<Id>, l: Live, ids: seq<Id>, i: nat)
    requires i <= |ids| && Loop(plan, env, before, l, ids[..i]).failed
    ensures Loop(plan, env, before, l, ids) == Loop(plan, env, before, l, ids[..i])
    decreases |ids| - i
  {
    if i == |ids| {
      assert ids[..i] == ids;
    } else {
      assert ids[..i + 1][..i] == ids[..i];
      LoopStuck(plan, env, before, l, ids, i + 1);
    }
  }

  // ----- Recording -----

  function Moved(ms: Modules, previous: Id, id: Id): Modules {
    if previous in ms then (ms - {previous})[id := ms[previous]] else ms
  }

  function Remember(ms: Modules, id: Id, version: string): Modules {
    ms[id := Record(Some(Enabled(ms, id)), Others(ms, id)["version" := version])]
  }

  /** One action recorded; None when the identity migration fails or the new id already has a record. */
  function RecordStep(plan: Plan, env: Env, ms: Modules, id: Id): Option<Modules> {
    var a := ActionOf(plan, id);
    if !a.kind.Rename? then Some(Remember(ms, id, env.version(id)))
    else if a.previous.None? || !env.identityOk(id) || id in ms then None
    else Some(Remember(Moved(ms, a.previous.value, id), id, env.version(id)))
  }

  function Recorded(plan: Plan, env: Env, ms: Modules, ids: seq<Id>): Option<Modules> {
    if ids == [] then Some(ms)
    else
      var front := Recorded(plan, env, ms, ids[..|ids| - 1]);
      if front.None? then None else RecordStep(plan, env, front.value, ids[|ids| - 1])
  }

  lemma RecordedNext(plan: Plan, env: Env, ms: Modules, i: nat)
    requires i < |plan.order| && Recorded(plan, env, ms, plan.order[..i]).Some?
    ensures Recorded(plan, env, ms, plan.order[..i + 1]) ==
      RecordStep(plan, env, Recorded(plan, env, ms, plan.order[..i]).value, plan.order[i])
  {
    assert plan.order[..i + 1][..i] == plan.order[..i];
  }

  lemma {:induction false} RecordStuck(plan: Plan, env: Env, ms: Modules, ids: seq<Id>, i: nat)
    requires i <= |ids| && Recorded(plan, env, ms, ids[..i]).None?
    ensures Recorded(plan, env, ms, ids).None?
    decreases |ids| - i
  {
    if i == |ids| {
      assert ids[..i] == ids;
    } else {
      assert ids[..i + 1][..i] == ids[..i];
      RecordStuck(plan, env, ms, ids, i + 1);
    }
  }

  /** When recording stops: at a rename without a source, whose migration fails, or whose new id has a record. */
  lemma RecordStops(plan: Plan, env: Env, ms: Modules, id: Id)
    ensures RecordStep(plan, env, ms, id).None? <==>
      && id in plan.actions && plan.actions[id].kind == Rename
      && (plan.actions[id].previous.None? || !env.identityOk(id) || id in ms)
    ensures RecordStep(plan, env, ms, id).Some? ==>
      var after := RecordStep(plan, env, ms, id).value;
      id in after && "version" in after[id].others && after[id].others["version"] == env.version(id)
  {
  }

  /** A rename takes the flag and fields of its source along, and leaves the source with no record. */
  lemma RenameKeepsFlag(plan: Plan, env: Env, ms: Modules, id: Id, x: Id)
    requires RecordStep(plan, env, ms, id).Some? && ActionOf(plan, id).kind.Rename?
    ensures
      var p, after := ActionOf(plan, id).previous.value, RecordStep(plan, env, ms, id).value;
      && id !in ms
      && Enabled(after, id) == Enabled(ms, p)
      && (p != id ==> p !in after)
      && (x != id && x != p ==> Enabled(after, x) == Enabled(ms, x) && Others(after, x) == Others(ms, x))
  {
  }

  // ----- The whole job as a function -----

  /** contents.json is written: the shell script is there and every listed tree was copied. */
  predicate ContentsWritten(plan: Plan, env: Env) {
    env.scriptOk && |BackupList(plan)| <= env.treesCopied
  }

  predicate BackupCompletes(plan: Plan, env: Env, s: Site) {
    ContentsWritten(plan, env) && (s.state.None? || env.stateCopied)
  }

  /** A complete backup needs the script, a copy of every listed tree, and of the module state where there is one. */
  lemma BackupNeeds(plan: Plan, env: Env, s: Site)
    ensures BackupCompletes(plan, env, s) <==>
      env.scriptOk && env.treesCopied >= |BackupList(plan)| && (s.state.Some? ==> env.stateCopied)
    ensures forall x :: x in BackupList(plan) <==>
      x in plan.order || exists id <- plan.order :: id in plan.actions && plan.actions[id].previous == Some(x)
  {
    forall x ensures x in BackupList(plan) <==>
      x in plan.order || exists id <- plan.order :: id in plan.actions && plan.actions[id].previous == Some(x)
    {
      if x in BackupList(plan) && x !in plan.order {
        var k :| 0 <= k < |plan.order| && ActionOf(plan, plan.order[k]).previous == Some(x);
        assert plan.order[k] in plan.order;
      }
      if id :| id in plan.order && id in plan.actions && plan.actions[id].previous == Some(x) {
        var k :| 0 <= k < |plan.order| && plan.order[k] == id;
        assert ActionOf(plan, plan.order[k]).previous == Some(x);
      }
    }
  }

  function Installed0(env: Env, s: Site): set<Id> {
    InstalledIn(env, s.extensions).Keys
  }

  /** Where the install loop gets to; it does not start without a complete backup. */
  function Ran(plan: Plan, env: Env, s: Site): Live {
    Loop(plan, env, Installed0(env, s), Live(s, {}, {}, !BackupCompletes(plan, env, s)), plan.order)
  }

  function ModelAfter(env: Env, l: Live): Model {
    ModelOf(InstalledIn(env, l.site.extensions), ModulesOf(l.site.state))
  }

  ghost predicate Succeeds(plan: Plan, env: Env, s: Site) {
    var l := Ran(plan, env, s);
    && !l.failed && FreshAllowed(plan, ModelAfter(env, l), env.dev, Installed0(env, s))
    && env.categoriesOk && Recorded(plan, env, ModulesOf(l.site.state), plan.order).Some?
    && env.syncOk && env.registerOk
  }

  /** Everything a successful job needs. */
  lemma InstallNeedsEach(plan: Plan, env: Env, s: Site, id: Id)
    requires Succeeds(plan, env, s)
    ensures env.scriptOk && env.treesCopied >= |BackupList(plan)| && (s.state.Some? ==> env.stateCopied)
    ensures env.categoriesOk && env.syncOk && env.registerOk
    ensures id in plan.order ==> env.packagePresent(id) && env.shell(id).ok
  {
    if !BackupCompletes(plan, env, s) { NoBackupNoLoop(plan, env, s); }
    if id in plan.order { LoopNeedsEach(plan, env, Installed0(env, s), Live(s, {}, {}, false), plan.order, id); }
  }

  lemma {:induction false} LoopNeedsEach(plan: Plan, env: Env, before: set<Id>, l: Live, ids: seq<Id>, id: Id)
    requires id in ids && !Loop(plan, env, before, l, ids).failed
    ensures env.packagePresent(id) && env.shell(id).ok
  {
    var n := |ids| - 1;
    assert ids == ids[..n] + [ids[n]];
    if id in ids[..n] { LoopNeedsEach(plan, env, before, l, ids[..n], id); }
  }

  /** The records of a successful job. */
  ghost function FinalModules(plan: Plan, env: Env, s: Site): Modules
    requires Succeeds(plan, env, s)
  {
    var l := Ran(plan, env, s);
    SetFlags(Recorded(plan, env, ModulesOf(l.site.state), plan.order).value,
             FreshOff(plan, ModelAfter(env, l), Installed0(env, s), plan.order) - l.off, false)
  }

  /** What a failed job cannot give back: rename sources it removed before the install loop failed. */
  function Lost(plan: Plan, env: Env, s: Site): set<Id> {
    var l := Ran(plan, env, s);
    if l.failed then l.removed - Elems(plan.order) else {}
  }

  /**
   The trees a failed job leaves: without contents.json the ordered ones are removed, with it only the
   lost ones are gone.
   */
  function AfterFailure(plan: Plan, env: Env, s: Site, trees: map<Id, Tree>): map<Id, Tree> {
    if BackupCompletes(plan, env, s) then trees - Lost(plan, env, s)
    else if ContentsWritten(plan, env) then trees
    else trees - Elems(plan.order)
  }

  /** The records, as far as flags and fields go, that a failed job leaves: none without a complete backup. */
  function FailedModules(plan: Plan, env: Env, s: Site): Modules {
    if BackupCompletes(plan, env, s) then ModulesOf(s.state) else map[]
  }

  // ----- The server -----

  class Server {
    var extensions: map<Id, Tree>
    var reportsets: map<Id, Tree>
    var state: Option<Modules>
    // The backup directory of the job.
    var contents: Option<map<Id, (bool, bool)>>
    var extensionCopies: map<Id, Tree>
    var reportsetCopies: map<Id, Tree>
    var stateCopy: Option<Modules>

    function Current(): Site
      reads this
    {
      Site(extensions, reportsets, state)
    }

    ghost predicate FreshBackup()
      reads this
    {
      contents.None? && extensionCopies == map[] && reportsetCopies == map[] && stateCopy.None?
    }

    /** The backup holds what the server has at `ids`, and its module state. */
    ghost predicate BackupOf(ids: set<Id>, ext: map<Id, Tree>, rep: map<Id, Tree>, st: Option<Modules>)
      reads this
    {
      && contents == Some(Presence(ext, rep, ids))
      && extensionCopies == Restrict(ext, ids) && reportsetCopies == Restrict(rep, ids)
      && stateCopy == st
    }

    method BackupModules(ids: seq<Id>, env: Env) returns (ok: bool)
      requires FreshBackup()
      modifies this`contents, this`extensionCopies, this`reportsetCopies, this`stateCopy
      ensures ok ==> BackupOf(Elems(ids), extensions, reportsets, state)
      ensures !ok ==> stateCopy.None?
      ensures contents.Some? <==> |ids| <= env.treesCopied
      ensures !ok && contents.Some? ==> BackupOf(Elems(ids), extensions, reportsets, None)
      ensures ok <==> |ids| <= env.treesCopied && (state.None? || env.stateCopied)
    {
      var records: map<Id, (bool, bool)> := map[];
      for i := 0 to |ids|
        invariant records == Presence(extensions, reportsets, Elems(ids[..i]))
        invariant extensionCopies == Restrict(extensions, Elems(ids[..i]))
        invariant reportsetCopies == Restrict(reportsets, Elems(ids[..i]))
        invariant contents.None? && stateCopy.None? && i <= env.treesCopied
      {
        if i >= env.treesCopied { return false; }
        var id := ids[i];
        RestrictStep(extensions, ids, i);
        RestrictStep(reportsets, ids, i);
        PresenceStep(extensions, reportsets, ids, i);
        if id in extensions { extensionCopies := extensionCopies[id := extensions[id]]; }
        if id in reportsets { reportsetCopies := reportsetCopies[id := reportsets[id]]; }
        records := records[id := (id in extensions, id in reportsets)];
      }
      assert ids[..|ids|] == ids;
      contents := Some(records);
      if state.Some? {
        if !env.stateCopied { return false; }
        stateCopy := state;
      }
      return true;
    }

    function RestoredExtension(id: Id): Option<Tree>
      reads this
    {
      if contents.Some? && id in contents.value && contents.value[id].0 then Lookup(extensionCopies, id) else None
    }

    function RestoredReportset(id: Id): Option<Tree>
      reads this
    {
      if contents.Some? && id in contents.value && contents.value[id].1 then Lookup(reportsetCopies, id) else None
    }

    /** Puts the backed-up trees of `ids` back, removing what is not in the backup, and the module state. */
    method RestoreModules(ids: seq<Id>)
      modifies this`extensions, this`reportsets, this`state
      ensures forall id: Id ::
        Lookup(extensions, id) == if id in ids then RestoredExtension(id) else Lookup(old(extensions), id)
      ensures forall id: Id ::
        Lookup(reportsets, id) == if id in ids then RestoredReportset(id) else Lookup(old(reportsets), id)
      ensures state == stateCopy
    {
      for i := 0 to |ids|
        invariant forall id: Id ::
          Lookup(extensions, id) == if id in ids[..i] then RestoredExtension(id) else Lookup(old(extensions), id)
        invariant forall id: Id ::
          Lookup(reportsets, id) == if id in ids[..i] then RestoredReportset(id) else Lookup(old(reportsets), id)
      {
        assert ids[..i + 1] == ids[..i] + [ids[i]];
        ghost var ext1, rep1 := extensions, reportsets;
        extensions := Put(extensions, ids[i], RestoredExtension(ids[i]));
        reportsets := Put(reportsets, ids[i], RestoredReportset(ids[i]));
        forall x: Id
          ensures Lookup(extensions, x) == (if x == ids[i] then RestoredExtension(x) else Lookup(ext1, x))
          ensures Lookup(reportsets, x) == (if x == ids[i] then RestoredReportset(x) else Lookup(rep1, x))
        {
          PutAt(ext1, ids[i], RestoredExtension(ids[i]), x);
          PutAt(rep1, ids[i], RestoredReportset(ids[i]), x);
        }
      }
      assert ids[..|ids|] == ids;
      state := stateCopy;
    }

    /** Switches the confirmed replaced module off before its replacement's shell runs; None when unconfirmed. */
    method PrepareDisable(plan: Plan, env: Env, t: Id) returns (r: Option<bool>)
      modifies this`state
      ensures r == Some(false) <==>
        !StandsInTheWay(plan, ModelOf(InstalledIn(env, extensions), ModulesOf(old(state))), t)
      ensures r != Some(false) ==> (r.Some? <==> t in plan.confirmed)
      ensures state == if r == Some(true) then Switch(old(state), {t}) else old(state)
    {
      var m := ModelOf(InstalledIn(env, extensions), ModulesOf(state));
      if !StandsInTheWay(plan, m, t) { return Some(false); }
      if t !in plan.confirmed { return None; }
      SetOneFlag(ModulesOf(state), t, false);
      state := Some(SetFlag(ModulesOf(state), t, false));
      return Some(true);
    }

    /** Before a fresh install: the module the package replaces is switched off, if it is in the way. */
    method PrepareInstall(plan: Plan, env: Env, before: set<Id>, id: Id) returns (off: Option<set<Id>>)
      modifies this`state
      ensures off == Prepared(plan, env, before, old(Current()), id)
      ensures state == Switch(old(state), off.GetOr({}))
    {
      if id in before || !ActionOf(plan, id).kind.Install? { return Some({}); }
      var peek := env.peek(id);
      if peek.PeekFails? { return None; }
      if peek.NoTarget? { return Some({}); }
      var done := PrepareDisable(plan, env, peek.id);
      if done.None? { return None; }
      return Some(if done.value then {peek.id} else {});
    }

    /** One module of the install loop; `gone` and `off` collect removed rename sources and early disables. */
    method InstallOne(plan: Plan, env: Env, before: set<Id>, id: Id, gone: set<Id>, off: set<Id>)
      returns (ok: bool, gone': set<Id>, off': set<Id>)
      modifies this`extensions, this`reportsets, this`state
      ensures Live(Current(), gone', off', !ok) ==
        InstallStep(plan, env, before, Live(old(Current()), gone, off, false), id)
    {
      ok, gone', off' := false, gone, off;
      if !env.packagePresent(id) { return; }
      var from := RenameFrom(plan, id);
      if from.Some? {
        extensions, reportsets, gone' := extensions - {from.value}, reportsets - {from.value}, gone + {from.value};
      }
      var switched := PrepareInstall(plan, env, before, id);
      if switched.None? { return; }
      off' := off + switched.value;
      extensions := Put(extensions, id, env.shell(id).extension);
      reportsets := Put(reportsets, id, env.shell(id).reportset);
      ok := env.shell(id).ok;
    }

    /** The backup, if the install script is there. */
    method BackUp(plan: Plan, env: Env) returns (ok: bool)
      requires FreshBackup()
      modifies this`contents, this`extensionCopies, this`reportsetCopies, this`stateCopy
      ensures ok <==> BackupCompletes(plan, env, Current())
      ensures BackedUp(plan, env, Current())
    {
      if !env.scriptOk { return false; }
      var ids := ListBackupIds(plan);
      ok := BackupModules(ids, env);
    }

    method InstallLoop(plan: Plan, env: Env, before: set<Id>) returns (ok: bool, gone: set<Id>, off: set<Id>)
      modifies this`extensions, this`reportsets, this`state
      ensures Live(Current(), gone, off, !ok) ==
        Loop(plan, env, before, Live(old(Current()), {}, {}, false), plan.order)
    {
      ok, gone, off := true, {}, {};
      ghost var start := Live(Current(), {}, {}, false);
      assert plan.order[..0] == [];
      for i := 0 to |plan.order|
        invariant ok
        invariant Live(Current(), gone, off, false) == Loop(plan, env, before, start, plan.order[..i])
      {
        assert plan.order[..i + 1][..i] == plan.order[..i];
        ok, gone, off := InstallOne(plan, env, before, plan.order[i], gone, off);
        if !ok {
          LoopStuck(plan, env, before, start, plan.order, i + 1);
          return;
        }
      }
      assert plan.order[..|plan.order|] == plan.order;
    }

    /** Backs up, then installs the order one by one, up to the first failure. */
    method InstallPackages(plan: Plan, env: Env, before: set<Id>) returns (ok: bool, gone: set<Id>, off: set<Id>)
      requires FreshBackup()
      modifies this
      ensures var backed := BackupCompletes(plan, env, old(Current()));
        Live(Current(), gone, off, !ok) == Loop(plan, env, before, Live(old(Current()), {}, {}, !backed), plan.order)
      ensures BackedUp(plan, env, old(Current()))
    {
      ok := BackUp(plan, env);
      if !ok {
        assert plan.order[..0] == [];
        LoopStuck(plan, env, before, Live(Current(), {}, {}, true), plan.order, 0);
        return false, {}, {};
      }
      ok, gone, off := InstallLoop(plan, env, before);
    }

    /** What the backup directory holds once the job has tried to fill it. */
    ghost predicate BackedUp(plan: Plan, env: Env, s: Site)
      reads this
    {
      && (contents.Some? <==> ContentsWritten(plan, env))
      && (contents.Some? ==> BackupOf(Elems(BackupList(plan)), s.extensions, s.reportsets, stateCopy))
      && stateCopy == if BackupCompletes(plan, env, s) then s.state else None
    }

    /** The state record moves to the new id; refused when that id already has one. */
    method MoveIdentity(plan: Plan, env: Env, id: Id) returns (ok: bool)
      modifies this`state
      ensures ok <==> ActionOf(plan, id).previous.Some? && env.identityOk(id) && id !in ModulesOf(old(state))
      ensures !ok ==> state == old(state)
      ensures ok ==> ModulesOf(state) == Moved(ModulesOf(old(state)), ActionOf(plan, id).previous.value, id)
    {
      var previous := ActionOf(plan, id).previous;
      var ms := ModulesOf(state);
      if previous.None? || !env.identityOk(id) || id in ms { return false; }
      if previous.value in ms { state := Some(Moved(ms, previous.value, id)); }
      return true;
    }

    /** Records versions and identities, action by action. */
    method RecordAll(plan: Plan, env: Env) returns (ok: bool)
      modifies this`state
      ensures ok <==> Recorded(plan, env, ModulesOf(old(state)), plan.order).Some?
      ensures ok ==> Recorded(plan, env, ModulesOf(old(state)), plan.order) == Some(ModulesOf(state))
    {
      for i := 0 to |plan.order|
        invariant Recorded(plan, env, ModulesOf(old(state)), plan.order[..i]) == Some(ModulesOf(state))
      {
        var id := plan.order[i];
        RecordedNext(plan, env, ModulesOf(old(state)), i);
        if ActionOf(plan, id).kind.Rename? {
          var moved := MoveIdentity(plan, env, id);
          if !moved {
            RecordStuck(plan, env, ModulesOf(old(state)), plan.order, i + 1);
            return false;
          }
        }
        state := Some(Remember(ModulesOf(state), id, env.version(id)));
      }
      assert plan.order[..|plan.order|] == plan.order;
      return true;
    }

    /** Records the install, switches the remaining replaced modules off, syncs and registers. */
    method RecordInstall(plan: Plan, env: Env, disables: set<Id>, off: set<Id>) returns (ok: bool, off': set<Id>)
      modifies this`state
      ensures off <= off' <= off + disables
      ensures ok <==>
        env.categoriesOk && Recorded(plan, env, ModulesOf(old(state)), plan.order).Some? && env.syncOk && env.registerOk
      ensures ok ==>
        ModulesOf(state) ==
          SetFlags(Recorded(plan, env, ModulesOf(old(state)), plan.order).value, disables - off, false)
    {
      ok, off' := false, off;
      if !env.categoriesOk { return; }
      var recorded := RecordAll(plan, env);
      if !recorded { return; }
      var later := disables - off;
      assert later == {} ==> SetFlags(ModulesOf(state), later, false) == ModulesOf(state);
      if later != {} { state := Some(SetFlags(ModulesOf(state), later, false)); }
      off' := off + later;
      ok := env.syncOk && env.registerOk;
    }

    /** Restores code and flags after a failure: the order alone until the install loop has returned. */
    method RollBack(plan: Plan, returned: bool, off: set<Id>)
      modifies this`extensions, this`reportsets, this`state
      ensures var ids := if returned then BackupList(plan) else plan.order;
        && (forall id: Id ::
             Lookup(extensions, id) == if id in ids then RestoredExtension(id) else Lookup(old(extensions), id))
        && (forall id: Id ::
             Lookup(reportsets, id) == if id in ids then RestoredReportset(id) else Lookup(old(reportsets), id))
      ensures state == if off == {} then stateCopy else Some(SetFlags(ModulesOf(stateCopy), off, true))
    {
      var ids := plan.order;
      if returned { ids := ListBackupIds(plan); }
      RestoreModules(ids);
      if off != {} { state := Some(SetFlags(ModulesOf(state), off, true)); }
    }

    /** What the backup gives back for one id. */
    lemma RestoredFromBackup(plan: Plan, env: Env, s: Site, id: Id)
      requires BackedUp(plan, env, s)
      ensures contents.None? ==> RestoredExtension(id).None? && RestoredReportset(id).None?
      ensures contents.Some? && id in BackupList(plan) ==>
        RestoredExtension(id) == Lookup(s.extensions, id) && RestoredReportset(id) == Lookup(s.reportsets, id)
    {
    }

    /** The job up to its first failure. */
    method TryInstall(plan: Plan, env: Env) returns (ok: bool, returned: bool, off: set<Id>)
      requires FreshBackup()
      modifies this
      ensures ok <==> Succeeds(plan, env, old(Current()))
      ensures returned == !Ran(plan, env, old(Current())).failed
      ensures extensions == Ran(plan, env, old(Current())).site.extensions
      ensures reportsets == Ran(plan, env, old(Current())).site.reportsets
      ensures ok ==> ModulesOf(state) == FinalModules(plan, env, old(Current()))
      ensures BackedUp(plan, env, old(Current()))
      ensures forall d <- off :: Enabled(ModulesOf(old(state)), d)
      ensures !BackupCompletes(plan, env, old(Current())) ==> off == {}
    {
      var before := InstalledIn(env, extensions).Keys;
      ghost var s := Current();
      var gone: set<Id>;
      returned, gone, off := InstallPackages(plan, env, before);
      ok := false;
      ghost var l := Ran(plan, env, s);
      LoopFlags(plan, env, s, plan.order);
      if !BackupCompletes(plan, env, s) { NoBackupNoLoop(plan, env, s); }
      if !returned { return; }
      var m := ModelOf(InstalledIn(env, extensions), ModulesOf(state));
      var disables := VerifyInstallDisables(plan, m, env.dev, before);
      if disables.None? { return; }
      forall d | d in disables.value ensures Enabled(ModulesOf(s.state), d) { FreshOffOn(plan, m, before, d); }
      ok, off := RecordInstall(plan, env, disables.value, off);
    }

    /**
     The whole transaction. It succeeds exactly when every step does, and then leaves what the install
     shells left and the recorded flags. A failure with a complete backup leaves all effective flags and
     all trees but the lost rename sources; without one it removes the module state, and the ordered
     trees too unless contents.json was written.
     */
    method InstallJob(plan: Plan, env: Env) returns (ok: bool)
      requires FreshBackup()
      modifies this
      ensures ok <==> Succeeds(plan, env, old(Current()))
      ensures ok ==>
        && extensions == Ran(plan, env, old(Current())).site.extensions
        && reportsets == Ran(plan, env, old(Current())).site.reportsets
        && ModulesOf(state) == FinalModules(plan, env, old(Current()))
      ensures !ok ==>
        && extensions == AfterFailure(plan, env, old(Current()), old(extensions))
        && reportsets == AfterFailure(plan, env, old(Current()), old(reportsets))
      ensures !ok ==> SameEffectiveFlags(FailedModules(plan, env, old(Current())), ModulesOf(state))
      ensures !BackupCompletes(plan, env, old(Current())) ==> !ok && state.None?
    {
      ghost var s := Current();
      var returned: bool, off: set<Id>;
      ok, returned, off := TryInstall(plan, env);
      if !BackupCompletes(plan, env, s) { NoBackupNoLoop(plan, env, s); }
      if ok { return; }
      RollBack(plan, returned, off);
      forall id: Id
        ensures Lookup(extensions, id) == Lookup(AfterFailure(plan, env, s, s.extensions), id)
        ensures Lookup(reportsets, id) == Lookup(AfterFailure(plan, env, s, s.reportsets), id)
      {
        RestoredFromBackup(plan, env, s, id);
        RolledBackAt(plan, env, s, id);
      }
      SameLookup(extensions, AfterFailure(plan, env, s, s.extensions));
      SameLookup(reportsets, AfterFailure(plan, env, s, s.reportsets));
      if BackupCompletes(plan, env, s) { ReenableIsNeutral(ModulesOf(s.state), off); }
    }
  }

  method ListBackupIds(plan: Plan) returns (ids: seq<Id>)
    ensures ids == BackupList(plan)
  {
    ids := plan.order;
    for i := 0 to |plan.order|
      invariant ids == BackupUpTo(plan, i)
    {
      var previous := ActionOf(plan, plan.order[i]).previous;
      if previous.Some? && previous.value !in ids { ids := ids + [previous.value]; }
    }
  }

  lemma SameLookup(a: map<Id, Tree>, b: map<Id, Tree>)
    requires forall id: Id :: Lookup(a, id) == Lookup(b, id)
    ensures a == b
  {
    forall id: Id ensures (id in a <==> id in b) && (id in a ==> a[id] == b[id]) {
      assert Lookup(a, id) == Lookup(b, id);
    }
  }

  // ----- What the install loop touches -----

  /** Outside the order and the removed sources nothing changes, and removed sources outside the order are gone. */
  ghost predicate Between(plan: Plan, start: map<Id, Tree>, now: map<Id, Tree>, removed: set<Id>) {
    && SameOutside(start, now, Elems(plan.order) + removed)
    && forall p <- removed :: p !in plan.order ==> Lookup(now, p).None?
  }

  lemma BetweenDrop(plan: Plan, start: map<Id, Tree>, now: map<Id, Tree>, removed: set<Id>, p: Id)
    requires Between(plan, start, now, removed)
    ensures Between(plan, start, now - {p}, removed + {p})
  {
    forall x: Id | x !in Elems(plan.order) + (removed + {p}) ensures Lookup(start, x) == Lookup(now - {p}, x) {
      assert Lookup(start, x) == Lookup(now, x);
    }
    forall q | q in removed + {p} && q !in plan.order ensures Lookup(now - {p}, q).None? {
      assert q == p || Lookup(now, q).None?;
    }
  }

  lemma BetweenPut(plan: Plan, start: map<Id, Tree>, now: map<Id, Tree>, removed: set<Id>, id: Id, v: Option<Tree>)
    requires Between(plan, start, now, removed) && id in plan.order
    ensures Between(plan, start, Put(now, id, v), removed)
  {
    forall x: Id | x !in Elems(plan.order) + removed ensures Lookup(start, x) == Lookup(Put(now, id, v), x) {
      PutAt(now, id, v, x);
    }
    forall q | q in removed && q !in plan.order ensures Lookup(Put(now, id, v), q).None? {
      PutAt(now, id, v, q);
    }
  }

  ghost predicate LoopTrees(plan: Plan, s: Site, l: Live) {
    Between(plan, s.extensions, l.site.extensions, l.removed)
    && Between(plan, s.reportsets, l.site.reportsets, l.removed)
  }

  lemma DroppedTrees(plan: Plan, s: Site, l: Live, id: Id)
    requires LoopTrees(plan, s, l)
    ensures LoopTrees(plan, s, Dropped(plan, l, id))
  {
    var from := RenameFrom(plan, id);
    if from.Some? {
      BetweenDrop(plan, s.extensions, l.site.extensions, l.removed, from.value);
      BetweenDrop(plan, s.reportsets, l.site.reportsets, l.removed, from.value);
    }
  }

  lemma StepTrees(plan: Plan, env: Env, before: set<Id>, s: Site, l: Live, id: Id)
    requires LoopTrees(plan, s, l) && id in plan.order
    ensures LoopTrees(plan, s, InstallStep(plan, env, before, l, id))
  {
    if !l.failed && env.packagePresent(id) {
      DroppedTrees(plan, s, l, id);
      var d := Dropped(plan, l, id);
      BetweenPut(plan, s.extensions, d.site.extensions, d.removed, id, env.shell(id).extension);
      BetweenPut(plan, s.reportsets, d.site.reportsets, d.removed, id, env.shell(id).reportset);
    }
  }

  lemma {:induction false} LoopKeepsTrees(plan: Plan, env: Env, before: set<Id>, s: Site, l: Live, ids: seq<Id>)
    requires LoopTrees(plan, s, l) && forall id <- ids :: id in plan.order
    ensures LoopTrees(plan, s, Loop(plan, env, before, l, ids))
  {
    if ids != [] {
      var n := |ids| - 1;
      LoopKeepsTrees(plan, env, before, s, l, ids[..n]);
      StepTrees(plan, env, before, s, Loop(plan, env, before, l, ids[..n]), ids[n]);
    }
  }

  /** A loop that got through removed every rename source; one that failed removed at most the sources. */
  lemma {:induction false} LoopRemoves(plan: Plan, env: Env, before: set<Id>, l: Live, ids: seq<Id>)
    ensures var end := Loop(plan, env, before, l, ids);
      l.removed <= end.removed <= l.removed + Sources(plan, ids)
      && (!end.failed ==> end.removed == l.removed + Sources(plan, ids))
  {
    if ids != [] {
      var n := |ids| - 1;
      LoopRemoves(plan, env, before, l, ids[..n]);
      assert ids[..n + 1] == ids;
      SourcesStep(plan, ids, n);
    }
  }

  lemma NoBackupNoLoop(plan: Plan, env: Env, s: Site)
    requires !BackupCompletes(plan, env, s)
    ensures Ran(plan, env, s) == Live(s, {}, {}, true)
  {
    assert plan.order[..0] == [];
    LoopStuck(plan, env, Installed0(env, s), Live(s, {}, {}, true), plan.order, 0);
  }

  /** One id after the rollback of a failed job: from the backup where it is listed, else as the loop left it. */
  lemma RolledBackAt(plan: Plan, env: Env, s: Site, id: Id)
    ensures
      var l := Ran(plan, env, s);
      var listed := if l.failed then id in plan.order else id in BackupList(plan);
      && (!listed ==> Lookup(l.site.extensions, id) == Lookup(AfterFailure(plan, env, s, s.extensions), id))
      && (!listed ==> Lookup(l.site.reportsets, id) == Lookup(AfterFailure(plan, env, s, s.reportsets), id))
      && (listed && ContentsWritten(plan, env) ==> id in BackupList(plan))
      && (listed && ContentsWritten(plan, env) ==>
            Lookup(s.extensions, id) == Lookup(AfterFailure(plan, env, s, s.extensions), id))
      && (listed && ContentsWritten(plan, env) ==>
            Lookup(s.reportsets, id) == Lookup(AfterFailure(plan, env, s, s.reportsets), id))
      && (listed && !ContentsWritten(plan, env) ==> Lookup(AfterFailure(plan, env, s, s.extensions), id).None?)
      && (listed && !ContentsWritten(plan, env) ==> Lookup(AfterFailure(plan, env, s, s.reportsets), id).None?)
  {
    if !BackupCompletes(plan, env, s) {
      NoBackupNoLoop(plan, env, s);
    } else {
      var l := Ran(plan, env, s);
      LoopKeepsTrees(plan, env, Installed0(env, s), s, Live(s, {}, {}, false), plan.order);
      LoopRemoves(plan, env, Installed0(env, s), Live(s, {}, {}, false), plan.order);
      SourcesListed(plan, id);
      assert id !in Elems(plan.order) + l.removed ==> Lookup(s.extensions, id) == Lookup(l.site.extensions, id);
      assert id !in Elems(plan.order) + l.removed ==> Lookup(s.reportsets, id) == Lookup(l.site.reportsets, id);
    }
  }

  lemma SourcesListed(plan: Plan, id: Id)
    ensures id in Sources(plan, plan.order) ==> id in BackupList(plan)
  {
  }

  lemma SourcesStep(plan: Plan, ids: seq<Id>, i: nat)
    requires i < |ids|
    ensures Sources(plan, ids[..i + 1]) ==
      Sources(plan, ids[..i]) + (if RenameFrom(plan, ids[i]).Some? then {RenameFrom(plan, ids[i]).value} else {})
  {
    assert forall k :: 0 <= k < i ==> ids[..i + 1][k] == ids[..i][k];
    assert ids[..i + 1][i] == ids[i];
  }

  // ----- Flags -----

  lemma StepFlags(plan: Plan, env: Env, before: set<Id>, ms: Modules, l: Live, id: Id)
    requires FlagsOff(ms, ModulesOf(l.site.state), l.off, plan.confirmed)
    ensures var end := InstallStep(plan, env, before, l, id);
      FlagsOff(ms, ModulesOf(end.site.state), end.off, plan.confirmed)
  {
    var d := Dropped(plan, l, id);
    var off := Prepared(plan, env, before, d.site, id);
    if !l.failed && env.packagePresent(id) && off.Some? {
      assert off.value == {} ==> SetFlags(ModulesOf(d.site.state), off.value, false) == ModulesOf(d.site.state);
      SwitchOff(ms, ModulesOf(d.site.state), d.off, plan.confirmed, off.value);
    }
  }

  /** The loop switches off confirmed modules that were on, and nothing else. */
  lemma {:induction false} LoopFlags(plan: Plan, env: Env, s: Site, ids: seq<Id>)
    ensures
      var l := Loop(plan, env, Installed0(env, s), Live(s, {}, {}, !BackupCompletes(plan, env, s)), ids);
      FlagsOff(ModulesOf(s.state), ModulesOf(l.site.state), l.off, plan.confirmed)
  {
    if ids != [] {
      var n := |ids| - 1;
      LoopFlags(plan, env, s, ids[..n]);
      var l := Loop(plan, env, Installed0(env, s), Live(s, {}, {}, !BackupCompletes(plan, env, s)), ids[..n]);
      StepFlags(plan, env, Installed0(env, s), ModulesOf(s.state), l, ids[n]);
    }
  }

  ghost predicate NoRename(plan: Plan) {
    forall id <- plan.order :: !ActionOf(plan, id).kind.Rename?
  }

  /** Recording without renames keeps every effective flag. */
  lemma {:induction false} RecordedFlags(plan: Plan, env: Env, ms: Modules, ids: seq<Id>, x: Id)
    requires NoRename(plan) && forall id <- ids :: id in plan.order
    ensures Recorded(plan, env, ms, ids).Some? && Enabled(Recorded(plan, env, ms, ids).value, x) == Enabled(ms, x)
  {
    if ids != [] { RecordedFlags(plan, env, ms, ids[..|ids| - 1], x); }
  }

  ghost predicate SameEffectiveFlags(before: Modules, now: Modules) {
    forall id: Id :: Enabled(now, id) == Enabled(before, id) && Others(now, id) == Others(before, id)
  }

  lemma ReenableIsNeutral(before: Modules, off: set<Id>)
    requires forall id <- off :: Enabled(before, id)
    ensures SameEffectiveFlags(before, SetFlags(before, off, true))
  {
  }

  // ----- A successful job -----

  /** The trees of `ids` are what their install shells left. */
  ghost predicate Installed(env: Env, ids: seq<Id>, site: Site) {
    forall id <- ids ::
      Lookup(site.extensions, id) == env.shell(id).extension && Lookup(site.reportsets, id) == env.shell(id).reportset
  }

  /** No rename takes its source from the order. */
  ghost predicate SourcesApart(plan: Plan) {
    forall id <- plan.order :: RenameFrom(plan, id).Some? ==> RenameFrom(plan, id).value !in plan.order
  }

  lemma {:induction false} LoopInstalls(plan: Plan, env: Env, before: set<Id>, l: Live, ids: seq<Id>)
    requires SourcesApart(plan) && (forall id <- ids :: id in plan.order) && !Loop(plan, env, before, l, ids).failed
    ensures Installed(env, ids, Loop(plan, env, before, l, ids).site)
  {
    if ids != [] {
      var n := |ids| - 1;
      var mid := Loop(plan, env, before, l, ids[..n]);
      LoopInstalls(plan, env, before, l, ids[..n]);
      assert ids == ids[..n] + [ids[n]];
      var dropped := Dropped(plan, mid, ids[n]).site;
      forall id | id in ids ensures var site := Loop(plan, env, before, l, ids).site;
        Lookup(site.extensions, id) == env.shell(id).extension && Lookup(site.reportsets, id) == env.shell(id).reportset
      {
        PutAt(dropped.extensions, ids[n], env.shell(ids[n]).extension, id);
        PutAt(dropped.reportsets, ids[n], env.shell(ids[n]).reportset, id);
      }
    }
  }

  /** No fresh replacement of the order stands beside its enabled target. */
  ghost predicate FreshTargetsOff(plan: Plan, env: Env, before: set<Id>, extensions: map<Id, Tree>, ms: Modules) {
    forall id <- plan.order :: FreshReplacement(plan, ModelOf(InstalledIn(env, extensions), ms), before, id) ==>
      !Enabled(ms, InstalledIn(env, extensions)[id].target.value)
  }

  lemma FinalFlags(plan: Plan, env: Env, s: Site)
    requires Succeeds(plan, env, s) && NoRename(plan)
    ensures
      var l := Ran(plan, env, s);
      var disables := FreshOff(plan, ModelAfter(env, l), Installed0(env, s), plan.order);
      FlagsOff(ModulesOf(s.state), FinalModules(plan, env, s), l.off + disables, plan.confirmed)
  {
    var l, before := Ran(plan, env, s), Installed0(env, s);
    var m := ModelAfter(env, l);
    var disables := FreshOff(plan, m, before, plan.order);
    LoopFlags(plan, env, s, plan.order);
    var recorded := Recorded(plan, env, ModulesOf(l.site.state), plan.order).value;
    forall x: Id ensures Enabled(recorded, x) == Enabled(ModulesOf(l.site.state), x) {
      RecordedFlags(plan, env, ModulesOf(l.site.state), plan.order, x);
    }
    forall d | d in disables ensures Enabled(recorded, d) && d in plan.confirmed { FreshOffOn(plan, m, before, d); }
    SwitchOff(ModulesOf(s.state), recorded, l.off, plan.confirmed, disables - l.off);
    assert l.off + (disables - l.off) == l.off + disables;
  }

  /**
   The trees of a successful job whose renames take no source from the order: every ordered module is what
   its install shell left, the rename sources are gone, and no other tree changed.
   */
  lemma SuccessTrees(plan: Plan, env: Env, s: Site)
    requires Succeeds(plan, env, s) && SourcesApart(plan)
    ensures
      var l := Ran(plan, env, s);
      && Installed(env, plan.order, l.site)
      && (forall p <- Sources(plan, plan.order) :: p !in l.site.extensions && p !in l.site.reportsets)
      && SameOutside(s.extensions, l.site.extensions, Elems(plan.order) + Sources(plan, plan.order))
      && SameOutside(s.reportsets, l.site.reportsets, Elems(plan.order) + Sources(plan, plan.order))
  {
    var l, before := Ran(plan, env, s), Installed0(env, s);
    if !BackupCompletes(plan, env, s) { NoBackupNoLoop(plan, env, s); }
    var start := Live(s, {}, {}, false);
    LoopInstalls(plan, env, before, start, plan.order);
    LoopKeepsTrees(plan, env, before, s, start, plan.order);
    LoopRemoves(plan, env, before, start, plan.order);
    assert l.removed == Sources(plan, plan.order);
    forall p | p in Sources(plan, plan.order) ensures p !in l.site.extensions && p !in l.site.reportsets {
      assert Lookup(l.site.extensions, p).None? && Lookup(l.site.reportsets, p).None?;
    }
  }

  /**
   The flags of a successful job without renames: only confirmed modules were switched off, and no fresh
   replacement stands beside its enabled target.
   */
  lemma SuccessMeans(plan: Plan, env: Env, s: Site)
    requires Succeeds(plan, env, s) && NoRename(plan)
    ensures exists off: set<Id> :: FlagsOff(ModulesOf(s.state), FinalModules(plan, env, s), off, plan.confirmed)
    ensures var l := Ran(plan, env, s);
      FreshTargetsOff(plan, env, Installed0(env, s), l.site.extensions, FinalModules(plan, env, s))
  {
    var l, before := Ran(plan, env, s), Installed0(env, s);
    FinalFlags(plan, env, s);
    LoopFlags(plan, env, s, plan.order);
    FreshTargetsEndOff(plan, env, before, l.site.extensions, ModulesOf(s.state), ModulesOf(l.site.state), l.off,
                       FinalModules(plan, env, s), FreshOff(plan, ModelAfter(env, l), before, plan.order));
  }

  /** A module that was recorded off and whose record no rename takes away stays off. */
  lemma {:induction false} RecordedStaysOff(plan: Plan, env: Env, ms: Modules, ids: seq<Id>, x: Id)
    requires Recorded(plan, env, ms, ids).Some? && !Enabled(ms, x) && x !in Sources(plan, ids)
    ensures !Enabled(Recorded(plan, env, ms, ids).value, x)
  {
    if ids != [] {
      var n := |ids| - 1;
      assert ids[..n + 1] == ids;
      SourcesStep(plan, ids, n);
      RecordedStaysOff(plan, env, ms, ids[..n], x);
    }
  }

  /** An installed module that is off when the loop ends is off when the job has succeeded. */
  lemma StaysOff(plan: Plan, env: Env, s: Site, x: Id)
    requires Succeeds(plan, env, s) && SourcesApart(plan)
    requires x in Ran(plan, env, s).site.extensions && !Enabled(ModulesOf(Ran(plan, env, s).site.state), x)
    ensures !Enabled(FinalModules(plan, env, s), x)
  {
    SuccessTrees(plan, env, s);
    RecordedStaysOff(plan, env, ModulesOf(Ran(plan, env, s).site.state), plan.order, x);
  }

  /** A module new to the server whose action installs it and whose manifest names `t` as the module it replaces. */
  ghost predicate NewlyReplaces(plan: Plan, env: Env, s: Site, id: Id, t: Id) {
    && id in plan.order && id !in InstalledIn(env, s.extensions)
    && id in plan.actions && plan.actions[id].kind == Install
    && var after := InstalledIn(env, Ran(plan, env, s).site.extensions);
       id in after && after[id].target == Some(t)
  }

  /**
   For every order, with renames or without: a successful job leaves the module that a new, enabled
   replacement of it replaces installed, a core or server module and off, gives it no second enabled
   replacement, and the new one offers every capability of it at the same major and no lower version.
   */
  lemma SuccessHonours(plan: Plan, env: Env, s: Site, id: Id, t: Id)
    requires Succeeds(plan, env, s) && SourcesApart(plan) && NewlyReplaces(plan, env, s, id, t)
    requires Enabled(ModulesOf(Ran(plan, env, s).site.state), id)
    ensures
      var after, final := InstalledIn(env, Ran(plan, env, s).site.extensions), FinalModules(plan, env, s);
      && t in after && (after[t].category == Core || after[t].category == Server) && !Enabled(final, t)
      && (forall o <- after :: o != id && after[o].target == Some(t) ==> !Enabled(final, o))
      && after[t].capabilities.Some?
      && forall c <- after[t].capabilities.value ::
           Covers(after[id].capabilities.GetOr(map[]), after[t].capabilities.value, c)
  {
    var l, before := Ran(plan, env, s), Installed0(env, s);
    var m := ModelAfter(env, l);
    assert FreshReplacement(plan, m, before, id) && Passes(plan, m, env.dev, before, id);
    CheckedReplacement(plan, m, env.dev, id, t);
    if m[t].enabled {
      InFreshOff(plan, m, before, plan.order, t);
      FreshOffEndsOff(plan, env, s, t);
    } else {
      StaysOff(plan, env, s, t);
    }
    OthersStayOff(plan, env, s, id, t);
  }

  lemma OthersStayOff(plan: Plan, env: Env, s: Site, id: Id, t: Id)
    requires Succeeds(plan, env, s) && SourcesApart(plan)
    requires var m := ModelAfter(env, Ran(plan, env, s));
      forall o <- m :: o != id && m[o].manifest.target == Some(t) ==> !m[o].enabled
    ensures var after := InstalledIn(env, Ran(plan, env, s).site.extensions);
      forall o <- after :: o != id && after[o].target == Some(t) ==> !Enabled(FinalModules(plan, env, s), o)
  {
    var after, m := InstalledIn(env, Ran(plan, env, s).site.extensions), ModelAfter(env, Ran(plan, env, s));
    forall o | o in after && o != id && after[o].target == Some(t) ensures !Enabled(FinalModules(plan, env, s), o) {
      assert o in m && !m[o].enabled;
      StaysOff(plan, env, s, o);
    }
  }

  /** What the check of a new replacement tells about the modules as the loop left them. */
  lemma CheckedReplacement(plan: Plan, m: Model, dev: bool, id: Id, t: Id)
    requires ValidModel(m) && id in m && m[id].manifest.target == Some(t) && FreshOk(plan, m, dev, id)
    ensures t in m && (m[t].manifest.category == Core || m[t].manifest.category == Server)
    ensures m[t].enabled ==> t in FreshNames(plan, m, id)
    ensures forall o <- m :: o != id && m[o].manifest.target == Some(t) ==> !m[o].enabled
    ensures m[t].manifest.capabilities.Some?
    ensures forall c <- m[t].manifest.capabilities.value ::
      Covers(m[id].manifest.capabilities.GetOr(map[]), m[t].manifest.capabilities.value, c)
  {
    var checked := WithOff(m, FreshNames(plan, m, id));
    HonouredMeansCovered(checked, dev, id, true);
    assert FreshNames(plan, m, id) <= {t};
    assert forall o <- m :: checked[o].manifest == m[o].manifest && (o != t ==> checked[o] == m[o]);
  }

  /** What the new replacements switch off is off in the end, by the loop or after it. */
  lemma FreshOffEndsOff(plan: Plan, env: Env, s: Site, t: Id)
    requires Succeeds(plan, env, s)
    requires t in FreshOff(plan, ModelAfter(env, Ran(plan, env, s)), Installed0(env, s), plan.order)
    ensures !Enabled(FinalModules(plan, env, s), t)
  {
    var l := Ran(plan, env, s);
    FreshOffOn(plan, ModelAfter(env, l), Installed0(env, s), t);
    LoopFlags(plan, env, s, plan.order);
    assert Enabled(ModulesOf(l.site.state), t);
    assert t !in l.off;
  }

  lemma FreshTargetsEndOff(plan: Plan, env: Env, before: set<Id>, extensions: map<Id, Tree>,
                           ms0: Modules, ms1: Modules, off1: set<Id>, ms2: Modules, disables: set<Id>)
    requires FlagsOff(ms0, ms1, off1, plan.confirmed) && FlagsOff(ms0, ms2, off1 + disables, plan.confirmed)
    requires var m := ModelOf(InstalledIn(env, extensions), ms1);
      FreshAllowed(plan, m, env.dev, before) && disables == FreshOff(plan, m, before, plan.order)
    ensures FreshTargetsOff(plan, env, before, extensions, ms2)
  {
    var manifests := InstalledIn(env, extensions);
    var m := ModelOf(manifests, ms1);
    forall id | id in plan.order && FreshReplacement(plan, ModelOf(manifests, ms2), before, id)
      ensures !Enabled(ms2, manifests[id].target.value)
    {
      assert Enabled(ms1, id) && FreshReplacement(plan, m, before, id);
      InFreshOff(plan, m, before, plan.order, manifests[id].target.value);
      FreshTargetOff(plan, m, env.dev, id);
    }
  }

  // ----- What a failed job gives back -----

  ghost predicate GivesBack(plan: Plan, env: Env, s: Site) {
    AfterFailure(plan, env, s, s.extensions) == s.extensions && AfterFailure(plan, env, s, s.reportsets) == s.reportsets
  }

  predicate HasTree(s: Site, id: Id) {
    id in s.extensions || id in s.reportsets
  }

  /** Every job that fails with a complete backup gives every tree back. */
  ghost predicate AlwaysGivesBack(plan: Plan, s: Site) {
    forall env: Env :: BackupCompletes(plan, env, s) && !Succeeds(plan, env, s) ==> GivesBack(plan, env, s)
  }

  lemma GivesBackIff(plan: Plan, env: Env, s: Site)
    requires BackupCompletes(plan, env, s)
    ensures GivesBack(plan, env, s) <==> forall id <- Lost(plan, env, s) :: !HasTree(s, id)
  {
    var lost := Lost(plan, env, s);
    if forall id <- lost :: !HasTree(s, id) {
      assert s.extensions - lost == s.extensions && s.reportsets - lost == s.reportsets;
    }
  }

  /** The environment in which everything works but the install shell of `id`. */
  function OnlyShellFails(plan: Plan, id: Id): Env {
    Env(_ => RawManifest(Absent, Absent, Absent, Absent), false, true, |BackupList(plan)|, true,
        _ => true, _ => NoTarget,
        x => Shell(x != id, None, None), true, _ => true, _ => "", true, true)
  }

  lemma {:induction false} StopsAt(plan: Plan, id: Id, before: set<Id>, l: Live, ids: seq<Id>)
    requires RenameFrom(plan, id).Some? && !l.failed
    ensures var end := Loop(plan, OnlyShellFails(plan, id), before, l, ids);
      (end.failed <==> id in ids) && (id in ids ==> RenameFrom(plan, id).value in end.removed)
  {
    if ids != [] {
      var n := |ids| - 1;
      StopsAt(plan, id, before, l, ids[..n]);
      assert ids == ids[..n] + [ids[n]];
    }
  }

  /**
   For every plan and every server: all jobs that fail after a complete backup give every tree back, if
   and only if no rename source outside the order has a tree.
   */
  lemma RollbackExact(plan: Plan, s: Site)
    ensures AlwaysGivesBack(plan, s) <==> forall id <- Sources(plan, plan.order) :: id in plan.order || !HasTree(s, id)
  {
    if forall id <- Sources(plan, plan.order) :: id in plan.order || !HasTree(s, id) {
      forall env: Env | BackupCompletes(plan, env, s) ensures GivesBack(plan, env, s) {
        LoopRemoves(plan, env, Installed0(env, s), Live(s, {}, {}, false), plan.order);
        GivesBackIff(plan, env, s);
      }
    } else {
      var p :| p in Sources(plan, plan.order) && p !in plan.order && HasTree(s, p);
      var k :| 0 <= k < |plan.order| && RenameFrom(plan, plan.order[k]) == Some(p);
      var id := plan.order[k];
      var env := OnlyShellFails(plan, id);
      StopsAt(plan, id, Installed0(env, s), Live(s, {}, {}, false), plan.order);
      GivesBackIff(plan, env, s);
      assert p in Lost(plan, env, s) && !GivesBack(plan, env, s);
    }
  }

  /** A job that fails before contents.json is written gives the trees back exactly when no ordered module has one. */
  lemma WipeExact(plan: Plan, env: Env, s: Site)
    requires !ContentsWritten(plan, env)
    ensures !Succeeds(plan, env, s)
    ensures GivesBack(plan, env, s) <==> forall id <- plan.order :: !HasTree(s, id)
  {
    NoBackupNoLoop(plan, env, s);
    if forall id <- plan.order :: !HasTree(s, id) {
      assert s.extensions - Elems(plan.order) == s.extensions && s.reportsets - Elems(plan.order) == s.reportsets;
    } else {
      var id :| id in plan.order && HasTree(s, id);
      assert id in Elems(plan.order);
    }
  }

  /** With contents.json written but the module state not copied, a failed job gives every tree back. */
  lemma TreesSurviveStateLoss(plan: Plan, env: Env, s: Site)
    requires ContentsWritten(plan, env) && !BackupCompletes(plan, env, s)
    ensures !Succeeds(plan, env, s) && GivesBack(plan, env, s)
  {
    NoBackupNoLoop(plan, env, s);
  }

  /**
   A failed job keeps every effective flag and every other field, if and only if its backup completed or
   every recorded module was on and had no other field.
   */
  lemma StateLossExact(plan: Plan, env: Env, s: Site)
    ensures SameEffectiveFlags(ModulesOf(s.state), FailedModules(plan, env, s)) <==>
      || BackupCompletes(plan, env, s)
      || forall id <- ModulesOf(s.state) :: Enabled(ModulesOf(s.state), id) && Others(ModulesOf(s.state), id) == map[]
  {
    var ms := ModulesOf(s.state);
    if !BackupCompletes(plan, env, s) && SameEffectiveFlags(ms, map[]) {
      forall id | id in ms ensures Enabled(ms, id) && Others(ms, id) == map[] {
        assert Enabled(map[], id) == Enabled(ms, id) && Others(map[], id) == Others(ms, id);
      }
    }
  }

  /** A module switched off, and a job whose copy of the module state fails: the tree is there, and the module is on. */
  lemma StateLossSwitchesOn()
    ensures
      var plan := Plan(["m"], map[], []);
      var s := Site(map["m" := "tree"], map[], Some(map["m" := Record(Some(false), map[])]));
      var env := OnlyShellFails(plan, "").(stateCopied := false);
      && !BackupCompletes(plan, env, s) && !Succeeds(plan, env, s) && GivesBack(plan, env, s)
      && !Enabled(ModulesOf(s.state), "m") && Enabled(FailedModules(plan, env, s), "m")
  {
    var plan := Plan(["m"], map[], []);
    var s := Site(map["m" := "tree"], map[], Some(map["m" := Record(Some(false), map[])]));
    TreesSurviveStateLoss(plan, OnlyShellFails(plan, "").(stateCopied := false), s);
  }

  /** A rename whose install shell fails: the old module's tree is gone afterwards. */
  lemma RenameSourceLost()
    ensures
      var plan := Plan(["new"], map["new" := Action("new", Rename, Some("old"))], []);
      var s := Site(map["old" := "tree"], map[], None);
      var env := OnlyShellFails(plan, "new");
      && BackupCompletes(plan, env, s) && !Succeeds(plan, env, s)
      && AfterFailure(plan, env, s, s.extensions) == map[]
  {
    var plan := Plan(["new"], map["new" := Action("new", Rename, Some("old"))], []);
    var s := Site(map["old" := "tree"], map[], None);
    var env := OnlyShellFails(plan, "new");
    assert "new" in plan.order;
    StopsAt(plan, "new", Installed0(env, s), Live(s, {}, {}, false), plan.order);
    assert "old" in Lost(plan, env, s);
  }

  /** An update of an installed module whose backup copy fails: the module's tree is gone afterwards. */
  lemma OrderedTreeWiped()
    ensures
      var plan := Plan(["m"], map[], []);
      var s := Site(map["m" := "tree"], map[], None);
      var env := OnlyShellFails(plan, "").(treesCopied := 0);
      && !Succeeds(plan, env, s)
      && AfterFailure(plan, env, s, s.extensions) == map[]
  {
    var plan := Plan(["m"], map[], []);
    var s := Site(map["m" := "tree"], map[], None);
    var env := OnlyShellFails(plan, "").(treesCopied := 0);
    assert "m" in plan.order && BackupUpTo(plan, 0) == ["m"];
    WipeExact(plan, env, s);
    assert "m" in Elems(plan.order);
  }
}
