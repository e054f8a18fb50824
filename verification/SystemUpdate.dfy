/**
 The system update transaction: extract, verify, prepare, back up, move the source, stage, verify,
 install, verify, with its three failure endings. Foreign steps (git, the privileged verifier, the
 component installers) appear as outcomes in `Env`; every choice of failing step is one `Env`.
 */
module SystemUpdate {
  import opened Common

  type Commit = string
  type Hash = string

  // ----- Version keys -----

  /** A version text as the downgrade gate reads it. */
  datatype VersionKey = VersionKey(major: nat, minor: nat, patch: nat, rest: Rest)
  /** A pre-release or unparsed text, a final release, or a rebuild `-n`. */
  datatype Rest = Text(text: string) | Final | Rebuild(n: nat)

  function RestRank(r: Rest): nat {
    match r case Text(_) => 0 case Final => 1 case Rebuild(_) => 2
  }

  predicate RestLess(a: Rest, b: Rest) {
    if RestRank(a) != RestRank(b) then RestRank(a) < RestRank(b)
    else match a
      case Text(t) => t != b.text && Leq(t, b.text)
      case Final => false
      case Rebuild(n) => n < b.n
  }

  predicate KeyLess(a: VersionKey, b: VersionKey) {
    if a.major != b.major then a.major < b.major
    else if a.minor != b.minor then a.minor < b.minor
    else if a.patch != b.patch then a.patch < b.patch
    else RestLess(a.rest, b.rest)
  }

  /** The gate compares by a strict total order: any two different keys are a downgrade one way only. */
  lemma KeyOrder(a: VersionKey, b: VersionKey, c: VersionKey)
    ensures !KeyLess(a, a)
    ensures KeyLess(a, b) && KeyLess(b, c) ==> KeyLess(a, c)
    ensures a == b || KeyLess(a, b) || KeyLess(b, a)
    ensures !(KeyLess(a, b) && KeyLess(b, a))
  {
    RestOrder(a.rest, b.rest, c.rest);
  }

  /**
   Which way the order goes: the first of major, minor and patch that differs decides; then a pre-release
   or other text is below a final release, that is below a rebuild, texts go by string order and rebuilds
   by number.
   */
  lemma KeyDirection(a: VersionKey, b: VersionKey)
    ensures a.major < b.major ==> KeyLess(a, b)
    ensures a.major == b.major && a.minor < b.minor ==> KeyLess(a, b)
    ensures a.major == b.major && a.minor == b.minor && a.patch < b.patch ==> KeyLess(a, b)
    ensures a.major == b.major && a.minor == b.minor && a.patch == b.patch ==>
      (KeyLess(a, b) <==>
         || (a.rest.Text? && !b.rest.Text?)
         || (a.rest.Final? && b.rest.Rebuild?)
         || (a.rest.Rebuild? && b.rest.Rebuild? && a.rest.n < b.rest.n)
         || (a.rest.Text? && b.rest.Text? && a.rest.text != b.rest.text && Leq(a.rest.text, b.rest.text)))
  {
  }

  /** At the first of major, minor and patch that differs, `a` is the smaller one. */
  ghost predicate SmallerNumber(a: VersionKey, b: VersionKey) {
    || a.major < b.major
    || (a.major == b.major && a.minor < b.minor)
    || (a.major == b.major && a.minor == b.minor && a.patch < b.patch)
  }

  lemma RestOrder(a: Rest, b: Rest, c: Rest)
    ensures RestLess(a, b) && RestLess(b, c) ==> RestLess(a, c)
    ensures a == b || RestLess(a, b) || RestLess(b, a)
    ensures !(RestLess(a, b) && RestLess(b, a))
  {
    if a.Text? && b.Text? {
      LeqTotal(a.text, b.text);
      if Leq(a.text, b.text) && Leq(b.text, a.text) { LeqAntisymmetric(a.text, b.text); }
      if c.Text? && Leq(a.text, b.text) && Leq(b.text, c.text) {
        LeqTransitive(a.text, b.text, c.text);
        if a.text == c.text { LeqAntisymmetric(a.text, b.text); }
      }
    }
  }

  // ----- The world a job acts on -----

  datatype Tree = Tree(version: string, content: string)

  /** What the privileged verifier says about a tree it accepts. */
  datatype Trust = Trust(signed: bool, manifest: Hash, version: string)

  datatype Component = Framework | Ui
  datatype ProvenanceFile = NoProvenance | Unreadable | Provenance(version: string, commit: Option<Commit>)

  /** The provenance record as the job reads it. */
  function ReadProvenance(p: ProvenanceFile): Option<(string, Option<Commit>)> {
    if p.Provenance? then Some((p.version, p.commit)) else None
  }

  const REFUSED := 78
  const VERIFY_FAILED := 79

  datatype Request = Request(component: Component, commit: Option<Commit>, allowDowngrade: bool)

  /** The outcome of every foreign step of one job. A tree outcome is None when making it fails. */
  datatype Env = Env(
    keyOf: string -> VersionKey,
    verifier: Tree -> Option<Trust>,
    rootAllowsDowngrade: bool,
    extracted: Option<Tree>,
    prepareOk: bool,
    checkoutVersion: string,
    backupOk: bool,
    moveLands: Commit,
    moveClean: bool,
    movedVersion: string,
    stagedForward: Option<Tree>,
    preInstallOk: bool,
    installRc: int,
    installLands: string,
    publishOk: bool,
    repinOk: bool,
    runtimeChecksOk: bool,
    ownershipOk: bool,
    layoutOk: bool,
    provenanceOk: bool,
    stagedBack: Option<Tree>,
    preBackOk: bool,
    backRc: int,
    backLands: string,
    backStepTimedOut: bool,
    backPublishOk: bool,
    backRepinOk: bool,
    backOwnershipOk: bool,
    restoreLands: Commit,
    backLayoutOk: bool,
    backProvenanceOk: bool)

  datatype Stage = ForwardStage | BackStage
  datatype Install = Install(stage: Stage, tree: Tree, rc: int)

  datatype RollbackStatus = NotRequired | RolledBack | RolledBackWithWarning | RollbackFailed
  datatype JobResult = JobResult(succeeded: bool, performed: bool, rollback: RollbackStatus)

  /** How the update attempt ended, with the locals the failure endings read. */
  datatype Attempt = Attempt(done: bool, refused: bool, installerStarted: bool, backedUp: bool, oldHead: Option<Commit>)

  predicate BothSwitches(req: Request, env: Env) {
    req.allowDowngrade && env.rootAllowsDowngrade
  }

  /** A downgrade, or an update over an unreadable version, needs the request and the root policy. */
  predicate DowngradeAllowed(req: Request, env: Env, installed: string, wanted: string) {
    installed == "unknown" || KeyLess(env.keyOf(wanted), env.keyOf(installed)) ==> BothSwitches(req, env)
  }

  /** The package passed the privileged verifier when it was extracted. */
  ghost predicate PackageVerified(env: Env) {
    env.extracted.Some? && env.verifier(env.extracted.value).Some?
  }

  /** The tree an installer ran from was accepted by the verifier, and was the tree meant for its stage. */
  ghost predicate RanVerified(env: Env, installed: string, i: Install) {
    && env.verifier(i.tree).Some?
    && match i.stage
       case ForwardStage =>
         && PackageVerified(env)
         && env.verifier(i.tree).value.manifest == env.verifier(env.extracted.value).value.manifest
         && i.tree.version == env.extracted.value.version
       case BackStage =>
         env.verifier(i.tree).value.signed && env.verifier(i.tree).value.version == installed && installed != "unknown"
  }

  /** The checks before anything is moved: package, downgrade gate, checkout and backup. */
  ghost predicate Admitted(req: Request, env: Env, installed: string) {
    && PackageVerified(env) && DowngradeAllowed(req, env, installed, env.extracted.value.version)
    && env.prepareOk && (installed == "unknown" || env.checkoutVersion == installed) && env.backupOk
  }

  /**
   The gate at work: a package with a smaller number than the installed version, or over an unreadable
   one, is not admitted unless the request and the root policy both say so; one with a larger number needs
   neither.
   */
  lemma GateRefusesSmaller(req: Request, env: Env, installed: string)
    requires env.extracted.Some?
    ensures SmallerNumber(env.keyOf(env.extracted.value.version), env.keyOf(installed)) || installed == "unknown" ==>
      Admitted(req, env, installed) ==> req.allowDowngrade && env.rootAllowsDowngrade
    ensures SmallerNumber(env.keyOf(installed), env.keyOf(env.extracted.value.version)) && installed != "unknown" ==>
      DowngradeAllowed(req, env, installed, env.extracted.value.version)
  {
    KeyDirection(env.keyOf(env.extracted.value.version), env.keyOf(installed));
    KeyDirection(env.keyOf(installed), env.keyOf(env.extracted.value.version));
    KeyOrder(env.keyOf(installed), env.keyOf(env.extracted.value.version), env.keyOf(installed));
  }

  ghost predicate SourceMoves(req: Request, env: Env) {
    req.commit.Some? ==>
      && env.moveLands == req.commit.value && env.moveClean
      && env.movedVersion == env.extracted.GetOr(Tree("", "")).version
  }

  /** The staged tree is the verified package. */
  ghost predicate StageVerified(env: Env) {
    && PackageVerified(env) && env.stagedForward.Some? && env.verifier(env.stagedForward.value).Some?
    && env.verifier(env.stagedForward.value).value.manifest == env.verifier(env.extracted.value).value.manifest
    && env.stagedForward.value.version == env.extracted.value.version
  }

  /** The installer ended well and everything checked after it holds. */
  ghost predicate InstallerPasses(req: Request, env: Env) {
    && env.preInstallOk && env.installRc == 0
    && env.installLands == env.extracted.GetOr(Tree("", "")).version
    && env.runtimeChecksOk && env.layoutOk && env.provenanceOk
    && if req.component.Framework? then env.repinOk && env.ownershipOk else env.publishOk
  }

  /** The forward installer's run. */
  function ForwardRun(env: Env): Install {
    Install(ForwardStage, env.stagedForward.GetOr(Tree("", "")), env.installRc)
  }

  /** The forward installer is run. */
  ghost predicate Starts(req: Request, env: Env, installed: string) {
    Admitted(req, env, installed) && SourceMoves(req, env) && StageVerified(env) && env.preInstallOk
  }

  /** The installer's own refusal is what ends the job. */
  predicate InstallerRefuses(req: Request, env: Env) {
    env.installRc == REFUSED && (req.component.Framework? ==> env.repinOk)
  }

  /** The old release verifies as the signed one that was installed. */
  predicate BackStageVerified(env: Env, installed: string) {
    && installed != "" && installed != "unknown" && env.stagedBack.Some?
    && var verdict := env.verifier(env.stagedBack.value);
       verdict.Some? && verdict.value.signed && verdict.value.version == installed
  }

  /** The old release installs again, at most with a timed-out check, and the source is back at `head`. */
  predicate BackPasses(req: Request, env: Env, installed: string, head: Commit) {
    && BackStageVerified(env, installed) && env.preBackOk
    && (env.backRc == 0 || (env.backRc == VERIFY_FAILED && env.backStepTimedOut))
    && (if req.component.Framework? then env.backRepinOk && env.backOwnershipOk
        else env.backRc != 0 || env.backPublishOk)
    && env.restoreLands == head && env.backLayoutOk && env.backProvenanceOk
  }

  /** Everything a successful job needs, check by check and step by step. */
  lemma SuccessNeedsEach(req: Request, env: Env, installed: string)
    ensures
      (Admitted(req, env, installed) && SourceMoves(req, env) && StageVerified(env) && InstallerPasses(req, env)) <==>
      && env.extracted.Some? && env.verifier(env.extracted.value).Some?
      && (installed == "unknown" || KeyLess(env.keyOf(env.extracted.value.version), env.keyOf(installed)) ==>
            req.allowDowngrade && env.rootAllowsDowngrade)
      && env.prepareOk && (installed != "unknown" ==> env.checkoutVersion == installed) && env.backupOk
      && (req.commit.Some? ==>
            env.moveLands == req.commit.value && env.moveClean && env.movedVersion == env.extracted.value.version)
      && env.stagedForward.Some? && env.stagedForward.value.version == env.extracted.value.version
      && env.verifier(env.stagedForward.value).Some?
      && env.verifier(env.stagedForward.value).value.manifest == env.verifier(env.extracted.value).value.manifest
      && env.preInstallOk && env.installRc == 0 && env.installLands == env.extracted.value.version
      && env.runtimeChecksOk && env.layoutOk && env.provenanceOk
      && (req.component == Framework ==> env.repinOk && env.ownershipOk) && (req.component == Ui ==> env.publishOk)
  {
  }

  /** Everything that must hold before the forward installer is run. */
  lemma StartNeedsEach(req: Request, env: Env, installed: string)
    ensures Starts(req, env, installed) ==>
      && env.prepareOk && env.backupOk && env.preInstallOk
      && (installed != "unknown" ==> env.checkoutVersion == installed)
      && (req.commit.Some? ==> env.moveLands == req.commit.value && env.moveClean)
      && env.stagedForward.Some? && env.verifier(env.stagedForward.value).Some?
    ensures Starts(req, env, installed) && env.installRc == 0 && env.installLands == env.extracted.value.version
      && env.runtimeChecksOk && env.layoutOk && env.provenanceOk && env.repinOk && env.ownershipOk && env.publishOk
      ==> Admitted(req, env, installed) && SourceMoves(req, env) && StageVerified(env) && InstallerPasses(req, env)
  {
  }

  /** Everything a rollback needs that does not fail; a timed-out check is a warning, other statuses are failures. */
  lemma RollbackNeedsEach(req: Request, env: Env, installed: string, head: Commit)
    ensures BackPasses(req, env, installed, head) <==>
      && installed != "" && installed != "unknown" && env.stagedBack.Some? && env.verifier(env.stagedBack.value).Some?
      && env.verifier(env.stagedBack.value).value.signed
      && env.verifier(env.stagedBack.value).value.version == installed
      && env.preBackOk && (env.backRc == 0 || (env.backRc == 79 && env.backStepTimedOut))
      && (req.component == Framework ==> env.backRepinOk && env.backOwnershipOk)
      && (req.component == Ui && env.backRc == 0 ==> env.backPublishOk)
      && env.restoreLands == head && env.backLayoutOk && env.backProvenanceOk
    ensures InstallerRefuses(req, env) <==> env.installRc == 78 && (req.component == Framework ==> env.repinOk)
  {
  }

  class Updater {
    var head: Commit
    var provenance: ProvenanceFile
    var deployed: string
    var stages: map<Stage, Tree>
    var verifiedStages: set<Stage>
    var installs: seq<Install>

    /** Runs the component's installer, from a verified stage only; None when it refuses to run it. */
    method RunInstall(stage: Stage, rc: int, lands: string) returns (r: Option<int>)
      modifies this`installs, this`deployed
      ensures r.Some? <==> stage in verifiedStages && stage in stages
      ensures r.None? ==> installs == old(installs) && deployed == old(deployed)
      ensures r.Some? ==> r.value == rc && installs == old(installs) + [Install(stage, stages[stage], rc)]
      ensures r.Some? ==> deployed == if rc == REFUSED then old(deployed) else lands
    {
      if stage !in verifiedStages || stage !in stages { return None; }
      installs := installs + [Install(stage, stages[stage], rc)];
      if rc != REFUSED { deployed := lands; }
      return Some(rc);
    }

    method CloseStage(stage: Stage)
      modifies this`stages, this`verifiedStages
      ensures verifiedStages == old(verifiedStages) - {stage} && stages == old(stages) - {stage}
    {
      verifiedStages := verifiedStages - {stage};
      stages := stages - {stage};
    }

    /** Stages and verifies the forward tree, then runs its installer; None when a step raises. */
    method InstallForward(req: Request, env: Env, trust: Trust, wanted: string) returns (started: bool, rc: Option<int>)
      requires verifiedStages == {}
      modifies this`installs, this`deployed, this`stages, this`verifiedStages
      ensures verifiedStages == {}
      ensures rc.Some? ==> started && rc.value == env.installRc
      ensures !started ==> installs == old(installs) && deployed == old(deployed)
      ensures installs == old(installs) || (started && installs == old(installs) + [ForwardRun(env)])
      ensures installs != old(installs) ==>
        && env.stagedForward.Some? && env.verifier(env.stagedForward.value).Some?
        && env.verifier(env.stagedForward.value).value.manifest == trust.manifest
        && env.stagedForward.value.version == wanted
      ensures rc.Some? ==>
        installs == old(installs) + [ForwardRun(env)]
      ensures rc == Some(REFUSED) ==> deployed == old(deployed)
      ensures rc == Some(0) ==> deployed == env.installLands
      ensures rc.Some? <==> started && (req.component.Framework? || env.installRc != 0 || env.publishOk)
      ensures (&& PackageVerified(env) && trust == env.verifier(env.extracted.value).value
               && wanted == env.extracted.value.version) ==>
        (started <==> StageVerified(env) && env.preInstallOk)
    {
      started, rc := false, None;
      if env.stagedForward.None? { return; }
      stages := stages[ForwardStage := env.stagedForward.value];
      var verdict := env.verifier(stages[ForwardStage]);
      if verdict.Some? && verdict.value.manifest == trust.manifest && stages[ForwardStage].version == wanted {
        verifiedStages := verifiedStages + {ForwardStage};
        if env.preInstallOk {
          started := true;
          var run := RunInstall(ForwardStage, env.installRc, env.installLands);
          if run.Some? && (req.component.Framework? || run.value != 0 || env.publishOk) { rc := run; }
        }
      }
      CloseStage(ForwardStage);
    }

    /** Everything up to the backup; the head is read once the checkout is prepared. */
    method Admit(req: Request, env: Env, oldVersion: string) returns (headRead: bool, backedUp: bool)
      ensures backedUp <==> Admitted(req, env, oldVersion)
      ensures backedUp ==> headRead
    {
      headRead, backedUp := false, false;
      if env.extracted.None? { return; }
      var source := env.extracted.value;
      if env.verifier(source).None? { return; }
      if oldVersion == "unknown" && !BothSwitches(req, env) { return; }
      if KeyLess(env.keyOf(source.version), env.keyOf(oldVersion))
         && (!req.allowDowngrade || !env.rootAllowsDowngrade) { return; }
      if !env.prepareOk { return; }
      headRead := true;
      if oldVersion != "unknown" && env.checkoutVersion != oldVersion { return; }
      backedUp := env.backupOk;
    }

    /** Moves the checkout to the pinned commit, if the request names one. */
    method MoveSource(req: Request, env: Env, wanted: string) returns (ok: bool)
      modifies this`head
      ensures req.commit.None? ==> head == old(head)
      ensures env.extracted.Some? && wanted == env.extracted.value.version ==> (ok <==> SourceMoves(req, env))
      ensures ok && req.commit.Some? ==> head == req.commit.value
    {
      if req.commit.None? { return true; }
      head := env.moveLands;
      return head == req.commit.value && env.moveClean && env.movedVersion == wanted;
    }

    /** What follows the installer: refusal, the checks of the deployed release, and its provenance record. */
    method Finish(req: Request, env: Env, wanted: string, oldHead: Commit, rc: int) returns (refused: bool, done: bool)
      modifies this`provenance
      ensures refused <==> rc == REFUSED && (req.component.Framework? ==> env.repinOk)
      ensures refused ==> !done && provenance == old(provenance)
      ensures done <==>
        && rc == 0 && deployed == wanted && head == (if req.commit.Some? then req.commit.value else oldHead)
        && env.runtimeChecksOk && env.layoutOk && env.provenanceOk
        && (req.component.Framework? ==> env.repinOk && env.ownershipOk)
      ensures done ==> provenance == Provenance(wanted, req.commit)
    {
      refused, done := false, false;
      if req.component.Framework? && !env.repinOk { return; }
      if rc == REFUSED { refused := true; return; }
      if rc != 0 { return; }
      if deployed != wanted || !env.runtimeChecksOk { return; }
      if req.component.Framework? && !env.ownershipOk { return; }
      var expected := if req.commit.Some? then req.commit.value else oldHead;
      if head != expected || !env.layoutOk { return; }
      provenance := Provenance(wanted, req.commit);
      done := env.provenanceOk;
    }

    /** The update itself, up to the provenance record of a success. */
    method TryUpdate(req: Request, env: Env, oldVersion: string) returns (a: Attempt)
      requires verifiedStages == {}
      modifies this
      ensures verifiedStages == {}
      ensures a.oldHead == if a.oldHead.Some? then Some(old(head)) else None
      ensures a.oldHead.None? ==> head == old(head) && !a.installerStarted
      ensures a.installerStarted ==> a.oldHead.Some? && a.backedUp && PackageVerified(env)
      ensures !a.installerStarted ==>
        installs == old(installs) && deployed == old(deployed) && provenance == old(provenance) && !a.done
      ensures old(installs) <= installs && |installs| <= |old(installs)| + 1
      ensures forall i <- installs[|old(installs)|..] :: RanVerified(env, oldVersion, i)
      ensures a.refused ==> !a.done && deployed == old(deployed) && provenance == old(provenance)
      ensures a.refused ==> |installs| == |old(installs)| + 1 && installs[|old(installs)|].rc == REFUSED
      ensures a.backedUp <==> Admitted(req, env, oldVersion)
      ensures a.installerStarted <==> Starts(req, env, oldVersion)
      ensures a.refused <==> Starts(req, env, oldVersion) && InstallerRefuses(req, env)
      ensures a.done <==>
        Admitted(req, env, oldVersion) && SourceMoves(req, env) && StageVerified(env) && InstallerPasses(req, env)
      ensures a.done ==>
        && PackageVerified(env) && |installs| == |old(installs)| + 1
        && deployed == env.extracted.value.version
        && head == (if req.commit.Some? then req.commit.value else old(head))
        && DowngradeAllowed(req, env, oldVersion, env.extracted.value.version)
        && provenance == Provenance(env.extracted.value.version, req.commit)
    {
      var headRead, backedUp := Admit(req, env, oldVersion);
      a := Attempt(false, false, false, backedUp, if headRead then Some(head) else None);
      if !backedUp { return; }
      var trust, wanted := env.verifier(env.extracted.value), env.extracted.value.version;
      var moved := MoveSource(req, env, wanted);
      if !moved { return; }
      var started, rc := InstallForward(req, env, trust.value, wanted);
      a := a.(installerStarted := started);
      if rc.None? { return; }
      var refused, done := Finish(req, env, wanted, a.oldHead.value, rc.value);
      a := a.(refused := refused, done := done);
    }

    method RestoreSource(oldHead: Commit, lands: Commit) returns (ok: bool)
      modifies this`head
      ensures ok <==> head == oldHead
      ensures head == lands
    {
      head := lands;
      return head == oldHead;
    }

    /** The old release from the root-held backup: staged, verified as signed, and installed again. */
    method InstallBack(req: Request, env: Env, oldVersion: string) returns (rc: Option<int>)
      requires verifiedStages == {}
      modifies this`installs, this`deployed, this`stages, this`verifiedStages
      ensures verifiedStages == {}
      ensures rc.Some? ==> rc.value == env.backRc && |installs| == |old(installs)| + 1
      ensures rc.Some? <==>
        BackStageVerified(env, oldVersion) && env.preBackOk
        && (req.component.Framework? || env.backRc != 0 || env.backPublishOk)
      ensures old(installs) <= installs && |installs| <= |old(installs)| + 1
      ensures forall i <- installs[|old(installs)|..] ::
        RanVerified(env, oldVersion, i) && i.stage.BackStage? && i.rc == env.backRc
    {
      rc := None;
      if env.stagedBack.None? { return; }
      stages := stages[BackStage := env.stagedBack.value];
      var verdict := env.verifier(stages[BackStage]);
      if oldVersion != "" && oldVersion != "unknown"
         && verdict.Some? && verdict.value.signed && verdict.value.version == oldVersion {
        verifiedStages := verifiedStages + {BackStage};
        if env.preBackOk {
          var run := RunInstall(BackStage, env.backRc, env.backLands);
          if run.Some? && (req.component.Framework? || run.value != 0 || env.backPublishOk) { rc := run; }
        }
      }
      CloseStage(BackStage);
    }

    method RollBack(req: Request, env: Env, oldVersion: string, a: Attempt, previous: Option<(string, Option<Commit>)>)
      returns (status: RollbackStatus)
      requires verifiedStages == {} && a.oldHead.Some?
      modifies this
      ensures verifiedStages == {}
      ensures status.RolledBack? || status.RolledBackWithWarning? || status.RollbackFailed?
      ensures (status.RolledBack? ==> env.backRc == 0) && (status.RolledBackWithWarning? ==> env.backRc != 0)
      ensures !status.RollbackFailed? <==> a.backedUp && BackPasses(req, env, oldVersion, a.oldHead.value)
      ensures old(installs) <= installs && |installs| <= |old(installs)| + 1
      ensures forall i <- installs[|old(installs)|..] :: RanVerified(env, oldVersion, i) && i.stage.BackStage?
      ensures !status.RollbackFailed? ==>
        && head == a.oldHead.value && ReadProvenance(provenance) == previous && !provenance.Unreadable?
        && |installs| == |old(installs)| + 1
        && (status.RolledBack? <==> installs[|old(installs)|].rc == 0)
        && (status.RolledBackWithWarning? ==> installs[|old(installs)|].rc == VERIFY_FAILED && env.backStepTimedOut)
    {
      status := RollbackFailed;
      if a.backedUp {
        var rc := InstallBack(req, env, oldVersion);
        var timedOut := env.backRc == VERIFY_FAILED && env.backStepTimedOut;
        if rc.Some? && (req.component.Ui? || env.backRepinOk)
           && (rc.value == 0 || timedOut) && (req.component.Ui? || env.backOwnershipOk) {
          var restored := RestoreSource(a.oldHead.value, env.restoreLands);
          if restored && env.backLayoutOk {
            provenance := if previous.Some? then Provenance(previous.value.0, previous.value.1) else NoProvenance;
            if env.backProvenanceOk {
              return if rc.value == 0 then RolledBack else RolledBackWithWarning;
            }
          }
        }
      }
      var _ := RestoreSource(a.oldHead.value, env.restoreLands);
    }

    /** One update job. Whatever step fails, the recorded result means what it says. */
    method RunJob(req: Request, env: Env, oldVersion: string) returns (r: JobResult)
      requires verifiedStages == {}
      modifies this
      ensures verifiedStages == {}
      // An installer runs only on a tree that is verified at that moment.
      ensures old(installs) <= installs && |installs| <= |old(installs)| + 2
      ensures forall i <- installs[|old(installs)|..] :: RanVerified(env, oldVersion, i)
      // A job succeeds exactly when every check and every foreign step does.
      ensures r.succeeded <==>
        Admitted(req, env, oldVersion) && SourceMoves(req, env) && StageVerified(env) && InstallerPasses(req, env)
      // Success: the verified version is deployed at the pinned or unchanged head, downgrades had both switches.
      ensures r.succeeded ==>
        && !r.performed && PackageVerified(env) && deployed == env.extracted.value.version
        && head == (if req.commit.Some? then req.commit.value else old(head))
        && DowngradeAllowed(req, env, oldVersion, env.extracted.value.version)
        && provenance == Provenance(env.extracted.value.version, req.commit)
      // A failure without a rollback: no installer ran, or the one that ran refused; nothing moved.
      ensures !r.succeeded && !r.performed ==>
        && (installs == old(installs) || (|installs| == |old(installs)| + 1 && installs[|old(installs)|].rc == REFUSED))
        && deployed == old(deployed) && head == old(head) && provenance == old(provenance)
      // A rollback that did not fail: old head, through the signed old release, and the old provenance record;
      // the file itself comes back exactly when it was readable, and an unreadable one is removed.
      ensures r.rollback.RolledBack? || r.rollback.RolledBackWithWarning? ==>
        && r.performed && !r.succeeded
        && head == old(head) && ReadProvenance(provenance) == ReadProvenance(old(provenance))
        && (provenance == old(provenance) <==> !old(provenance).Unreadable?)
        && (old(provenance).Unreadable? ==> provenance.NoProvenance?)
        && installs != old(installs) && installs[|installs| - 1].stage.BackStage?
      ensures r.rollback.RollbackFailed? ==> r.performed && !r.succeeded
      ensures (r.rollback.RolledBack? ==> env.backRc == 0) && (r.rollback.RolledBackWithWarning? ==> env.backRc != 0)
      ensures r.rollback.RolledBack? || r.rollback.RolledBackWithWarning? <==>
        && Starts(req, env, oldVersion) && !InstallerRefuses(req, env) && !InstallerPasses(req, env)
        && BackPasses(req, env, oldVersion, old(head))
    {
      var previous := ReadProvenance(provenance);
      var a := TryUpdate(req, env, oldVersion);
      if a.done { return JobResult(true, false, NotRequired); }
      if a.refused || !a.installerStarted {
        if a.oldHead.None? { return JobResult(false, false, NotRequired); }
        var restored := RestoreSource(a.oldHead.value, env.restoreLands);
        return if restored then JobResult(false, false, NotRequired) else JobResult(false, true, RollbackFailed);
      }
      var status := RollBack(req, env, oldVersion, a, previous);
      return JobResult(false, true, status);
    }

    /**
     An update whose installer fails and whose rollback succeeds: an unreadable provenance file is gone
     afterwards.
     */
    method UnreadableProvenanceRemoved() returns (r: JobResult)
      requires verifiedStages == {} && provenance.Unreadable?
      modifies this
      ensures r.rollback.RolledBack? && provenance.NoProvenance?
    {
      var old_, new_ := Tree("1.0.0", "old"), Tree("1.0.1", "new");
      var verifier := (t: Tree) => Some(Trust(true, t.content, t.version));
      var keyOf := (v: string) => VersionKey(1, 0, 0, Final);
      var env := Env(keyOf, verifier, false, Some(new_), true, "1.0.0", true, head, true,
        "1.0.1", Some(new_), true, 1, "1.0.1",
                     true, true, true, true, true, true, Some(old_), true, 0,
                     "1.0.0", false, true, true, true, head, true, true);
      r := RunJob(Request(Framework, None, false), env, "1.0.0");
    }
  }
}
