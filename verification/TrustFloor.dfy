/**
 The root-owned trust floor: one ordered level in a policy file. The console command and its timed
 revert work under the policy lock; the updater, the installer migration and the restore merge do not,
 so each of those writes on the strength of a policy file it saw earlier.
 */
module TrustFloor {
  import opened Common

  datatype Level = Unsigned | SignedDevelopment | SignedProduction | SecureSigned

  function Rank(l: Level): nat {
    match l
    case Unsigned => 0
    case SignedDevelopment => 1
    case SignedProduction => 2
    case SecureSigned => 3
  }

  function Higher(a: Level, b: Level): Level {
    if Rank(a) < Rank(b) then b else a
  }

  /** A policy payload; `schemaIsOne` tells the number 1 from other spellings that parse to 1. */
  datatype Policy = Policy(level: Level, schemaIsOne: bool, updatedBy: string, updatedAt: string)

  /** A bad file is refused by every check; `text` is the level a reader finds that does not check the schema. */
  datatype PolicyFile = NoPolicy | BadPolicy(text: Option<Level>) | GoodPolicy(policy: Policy)

  /** The pending-revert file of a temporary lowering. */
  datatype Pending = Pending(changeId: string, previous: Level, temporary: Level, expires: int)
  datatype PendingFile = NoPending | CorruptPending | GoodPending(pending: Pending)

  datatype State = State(policy: PolicyFile, pending: PendingFile)

  function DefaultLevel(dev: bool): Level {
    if dev then SignedDevelopment else SignedProduction
  }

  /**
   The floor a check enforces: the environment's default without a policy file. With a bad file every
   check fails, which is as strict as the strongest level.
   */
  function FloorOf(dev: bool, f: PolicyFile): Level {
    match f
    case NoPolicy => DefaultLevel(dev)
    case BadPolicy(_) => SecureSigned
    case GoodPolicy(p) => p.level
  }

  function Floor(dev: bool, s: State): Level {
    FloorOf(dev, s.policy)
  }

  const MAX_HOURS := 168

  /**
   A console `set`. `recoveryAudited` and `audited` are false when the audit row of a recovery, or the
   one after the policy write, cannot be written or the process dies there.
   */
  datatype ConsoleSet = ConsoleSet(
    target: Option<Level>, reasonLength: nat, hours: int, confirmed: bool, recoveryAudited: bool, audited: bool,
    now: int, stamp: string, changeId: string)

  function Written(l: Level, author: string, stamp: string): PolicyFile {
    GoodPolicy(Policy(l, true, author, stamp))
  }

  /** A corrupt pending file loses the earlier level, so the floor moves to the strongest one. */
  function AfterRecovery(s: State, stamp: string, audited: bool): State {
    if !s.policy.GoodPolicy? then s
    else
      var policy :=
        if s.policy.policy.level == SecureSigned then s.policy
        else Written(SecureSigned, "system:corrupt-pending-recovery", stamp);
      State(policy, if audited then NoPending else s.pending)
  }

  /** The state a console command works on. */
  function Recovered(s: State, stamp: string): State {
    if s.pending.CorruptPending? then AfterRecovery(s, stamp, true) else s
  }

  predicate Lowers(s: State, c: ConsoleSet) {
    s.policy.GoodPolicy? && c.target.Some? && Rank(c.target.value) < Rank(s.policy.policy.level)
  }

  predicate Accepted(s: State, c: ConsoleSet) {
    && s.policy.GoodPolicy? && c.target.Some? && 1 <= c.reasonLength <= 500 && 1 <= c.hours <= MAX_HOURS
    && (Lowers(s, c) ==> c.confirmed)
  }

  /** The recovery of a corrupt pending file, if one is needed, got through. */
  predicate Recovers(s: State, c: ConsoleSet) {
    s.pending.CorruptPending? ==> c.recoveryAudited
  }

  /** The level the server comes back to: the floor, or the higher one a pending revert promises. */
  function RevertLevel(dev: bool, s: State): Level {
    if s.pending.GoodPending? then Higher(Floor(dev, s), s.pending.pending.previous) else Floor(dev, s)
  }

  /** The pending file a lowering writes. */
  function Promise(s: State, c: ConsoleSet): PendingFile
    requires Accepted(s, c)
  {
    GoodPending(Pending(c.changeId, RevertLevel(false, s), c.target.value, c.now + 3600 * c.hours))
  }

  function AfterConsole(s0: State, c: ConsoleSet): State {
    if !s0.policy.GoodPolicy? then s0
    else if !Recovers(s0, c) then AfterRecovery(s0, c.stamp, false)
    else
      var s := Recovered(s0, c.stamp);
      if !Accepted(s, c) then s
      else
        var policy := Written(c.target.value, "console", c.stamp);
        if !c.audited then State(policy, s.pending)
        else if !Lowers(s, c) then State(policy, NoPending)
        else State(policy, Promise(s, c))
  }

  /**
   The timed revert never lowers a floor that was raised above the promised level. `finished` is false
   when it stops before it clears the pending file: at the audit row of a skipped revert, or right after
   the policy write of a real one.
   */
  function AfterRevertDue(s: State, changeId: string, stamp: string, finished: bool): State {
    if !s.pending.GoodPending? || s.pending.pending.changeId != changeId || !s.policy.GoodPolicy? then s
    else
      var previous := s.pending.pending.previous;
      State(
        if Rank(s.policy.policy.level) > Rank(previous) then s.policy
        else Written(previous, "system:auto-revert", stamp),
        if finished then NoPending else s.pending)
  }

  function AfterCheckRevert(s: State, now: int, stamp: string, finished: bool): State {
    match s.pending
    case NoPending => s
    case CorruptPending => AfterRecovery(s, stamp, finished)
    case GoodPending(p) => if now < p.expires then s else AfterRevertDue(s, p.changeId, stamp, finished)
  }

  // ----- The updater: a read, then a write that compares nothing -----

  /** The updater goes on to write when the policy it read is no stricter than the request. */
  predicate Granted(dev: bool, seen: PolicyFile, requested: Option<Level>) {
    requested.Some? && !seen.BadPolicy? && Rank(FloorOf(dev, seen)) <= Rank(requested.value)
  }

  function AfterUpdater(
    dev: bool, s: State, seen: PolicyFile, requested: Option<Level>, actor: string, stamp: string
  ): State {
    if Granted(dev, seen, requested) then State(Written(requested.value, actor, stamp), s.pending) else s
  }

  /**
   What is granted: nothing over a bad file, else what is no lower than the file's level or, without
   one, the default.
   */
  lemma GrantedMeans(dev: bool, seen: PolicyFile, l: Level)
    ensures !Granted(dev, seen, None) && (seen.BadPolicy? ==> !Granted(dev, seen, Some(l)))
    ensures seen.GoodPolicy? ==> (Granted(dev, seen, Some(l)) <==> Rank(seen.policy.level) <= Rank(l))
    ensures seen.NoPolicy? ==>
      (Granted(dev, seen, Some(l)) <==> (if dev then l != Unsigned else l == SignedProduction || l == SecureSigned))
  {
  }

  // ----- Installer migration -----

  datatype Source = FromDefault | FromLegacy | FromCurrent

  function Preference(s: Source): nat {
    match s case FromDefault => 0 case FromLegacy => 1 case FromCurrent => 2
  }

  datatype Candidate = Candidate(source: Source, policy: Policy)

  predicate Beats(a: Candidate, b: Candidate) {
    Rank(a.policy.level) > Rank(b.policy.level)
    || (a.policy.level == b.policy.level && Preference(a.source) >= Preference(b.source))
  }

  function Default(dev: bool): Candidate {
    Candidate(FromDefault, Policy(DefaultLevel(dev), true, "installer", ""))
  }

  function Candidates(current: PolicyFile, legacy: PolicyFile, dev: bool): seq<Candidate> {
    [Default(dev)]
    + (if current.GoodPolicy? then [Candidate(FromCurrent, current.policy)] else [])
    + (if legacy.GoodPolicy? then [Candidate(FromLegacy, legacy.policy)] else [])
  }

  function Truncate(s: string, n: nat): string {
    if |s| <= n then s else s[..n]
  }

  function MigratedPolicy(winner: Candidate, hadCurrent: bool): Policy {
    var p := winner.policy.(schemaIsOne := true);
    match winner.source
    case FromLegacy =>
      var author := Truncate(p.updatedBy, 120);
      p.(updatedBy := "installer-legacy-policy-migration" + (if author != "" then ":" + author else ""))
    case FromDefault => if hadCurrent then p.(updatedBy := "installer-security-migration") else p
    case FromCurrent => p
  }

  /** `max` over the candidates; a loop keeps the first one that beats the best so far strictly. */
  method PickWinner(candidates: seq<Candidate>) returns (best: Candidate)
    requires candidates != []
    ensures best in candidates && forall c <- candidates :: Beats(best, c)
  {
    best := candidates[0];
    for i := 1 to |candidates|
      invariant best in candidates
      invariant forall k :: 0 <= k < i ==> Beats(best, candidates[k])
    {
      if !Beats(best, candidates[i]) { best := candidates[i]; }
    }
  }

  lemma WinnerUnique(current: PolicyFile, legacy: PolicyFile, dev: bool, a: Candidate, b: Candidate)
    requires a in Candidates(current, legacy, dev) && b in Candidates(current, legacy, dev)
    requires Beats(a, b) && Beats(b, a)
    ensures a == b
  {
  }

  /** The policy file a migration of `current` wants; an unreadable current file is refused. */
  ghost predicate MigratesTo(current: PolicyFile, legacy: PolicyFile, dev: bool, after: PolicyFile) {
    if current.BadPolicy? then after == current
    else exists w <- Candidates(current, legacy, dev) ::
      && (forall c <- Candidates(current, legacy, dev) :: Beats(w, c))
      && after == GoodPolicy(MigratedPolicy(w, current.GoodPolicy?))
  }

  // ----- Restore: capture, extract over the live files, merge -----

  /** The level the merge reads; it looks at the level text alone. */
  function LevelIn(f: PolicyFile): Option<Level> {
    match f
    case NoPolicy => None
    case BadPolicy(text) => text
    case GoodPolicy(p) => Some(p.level)
  }

  function Strictest(a: Option<Level>, b: Option<Level>): Option<Level> {
    if a.None? then b else if b.None? then a else Some(Higher(a.value, b.value))
  }

  /** The policy and pending files a backup holds; extraction leaves the live file where it holds none. */
  datatype Backup = Backup(policy: PolicyFile, pending: PendingFile)

  function AfterExtract(s: State, b: Backup): State {
    State(if b.policy.NoPolicy? then s.policy else b.policy, if b.pending.NoPending? then s.pending else b.pending)
  }

  /** The merge of the file in place with the one captured before extraction. */
  function AfterMerge(s: State, captured: PolicyFile, actor: string, stamp: string): State {
    var strictest := Strictest(LevelIn(captured), LevelIn(s.policy));
    if strictest.None? || LevelIn(s.policy) == strictest then s
    else s.(policy := Written(strictest.value, actor, stamp))
  }

  /** A restore that nothing comes between. */
  function AfterRestore(s: State, b: Backup, actor: string, stamp: string): State {
    AfterMerge(AfterExtract(s, b), s.policy, actor, stamp)
  }

  // ----- What the pieces mean -----

  /** A written policy is a valid one of its level. */
  lemma WrittenIsValid(l: Level, author: string, stamp: string)
    ensures Written(l, author, stamp).GoodPolicy? && Written(l, author, stamp).policy == Policy(l, true, author, stamp)
  {
  }

  /** On a tie the current policy wins over the legacy one, and either over the default. */
  lemma TiesByPreference(a: Candidate, b: Candidate)
    ensures Rank(b.policy.level) < Rank(a.policy.level) ==> Beats(a, b) && !Beats(b, a)
    ensures a.policy.level == b.policy.level ==>
      (Beats(a, b) <==> a.source == b.source || a.source == FromCurrent || b.source == FromDefault)
  {
  }

  /** Who a migrated policy says wrote it. */
  lemma MigratedAuthor(w: Candidate, hadCurrent: bool)
    ensures
      var p, author := MigratedPolicy(w, hadCurrent), w.policy.updatedBy;
      && p.level == w.policy.level && p.schemaIsOne && p.updatedAt == w.policy.updatedAt
      && (w.source == FromCurrent ==> p.updatedBy == author)
      && (w.source == FromDefault ==> p.updatedBy == if hadCurrent then "installer-security-migration" else author)
      && (w.source == FromLegacy && author == "" ==> p.updatedBy == "installer-legacy-policy-migration")
      && (w.source == FromLegacy && 0 < |author| <= 120 ==>
            p.updatedBy == "installer-legacy-policy-migration" + ":" + author)
      && (w.source == FromLegacy && 120 < |author| ==>
            p.updatedBy == "installer-legacy-policy-migration" + ":" + author[..120])
  {
  }

  /**
   A console command on a corrupt pending file: the strongest level first, and nothing more unless that
   is audited.
   */
  lemma ConsoleRecovers(s: State, c: ConsoleSet)
    requires s.policy.GoodPolicy? && s.pending.CorruptPending?
    ensures !c.recoveryAudited ==>
      FloorOf(false, AfterConsole(s, c).policy) == SecureSigned && AfterConsole(s, c).pending.CorruptPending?
    ensures c.recoveryAudited && c.target.None? ==>
      FloorOf(false, AfterConsole(s, c).policy) == SecureSigned && AfterConsole(s, c).pending.NoPending?
    ensures c.recoveryAudited ==> !AfterConsole(s, c).pending.CorruptPending?
  {
  }

  /** What a console command does with a sound pending file, ending by ending. */
  lemma ConsoleEnds(s: State, c: ConsoleSet)
    requires s.policy.GoodPolicy? && !s.pending.CorruptPending?
    ensures
      var ok := && c.target.Some? && 1 <= c.reasonLength <= 500 && 1 <= c.hours <= 168
                && (Rank(c.target.value) < Rank(s.policy.policy.level) ==> c.confirmed);
      var after := AfterConsole(s, c);
      && (!ok ==> after == s)
      && (ok ==> after.policy == GoodPolicy(Policy(c.target.value, true, "console", c.stamp)))
      && (ok && !c.audited ==> after.pending == s.pending)
      && (ok && c.audited && Rank(s.policy.policy.level) <= Rank(c.target.value) ==> after.pending.NoPending?)
      && (ok && c.audited && Rank(c.target.value) < Rank(s.policy.policy.level) ==>
            && after.pending.GoodPending? && after.pending.pending.temporary == c.target.value
            && after.pending.pending.changeId == c.changeId)
  {
  }

  /** A check recovers a corrupt pending file, and without a pending file changes nothing. */
  lemma CheckRecovers(s: State, now: int, stamp: string, finished: bool)
    ensures s.pending.NoPending? ==> AfterCheckRevert(s, now, stamp, finished) == s
    ensures s.pending.CorruptPending? && s.policy.GoodPolicy? ==>
      var after := AfterCheckRevert(s, now, stamp, finished);
      FloorOf(false, after.policy) == SecureSigned && (after.pending.NoPending? <==> finished)
    ensures !s.policy.GoodPolicy? ==> AfterCheckRevert(s, now, stamp, finished) == s
  {
  }

  /**
   A timed revert acts on its own change only: the promised level unless the floor is above it, and
   then the pending file goes.
   */
  lemma RevertEnds(s: State, changeId: string, stamp: string, finished: bool)
    ensures s.pending.GoodPending? && s.pending.pending.changeId != changeId ==>
      AfterRevertDue(s, changeId, stamp, finished) == s
    ensures s.pending.GoodPending? && s.pending.pending.changeId == changeId && s.policy.GoodPolicy? ==>
      var level, promised := s.policy.policy.level, s.pending.pending.previous;
      var after := AfterRevertDue(s, changeId, stamp, finished);
      && FloorOf(false, after.policy) == (if Rank(level) < Rank(promised) then promised else level)
      && after.pending == if finished then NoPending else s.pending
  {
  }

  /**
   The merge leaves the stricter of the two levels that can be read, and any other file as it is; the
   updater writes what it is granted.
   */
  lemma WritersEnd(dev: bool, s: State, captured: PolicyFile, l: Level, actor: string, stamp: string)
    ensures captured.GoodPolicy? && s.policy.GoodPolicy? ==>
      var a, b := captured.policy.level, s.policy.policy.level;
      FloorOf(dev, AfterMerge(s, captured, actor, stamp).policy) == if Rank(a) < Rank(b) then b else a
    ensures captured.NoPolicy? ==> AfterMerge(s, captured, actor, stamp) == s
    ensures captured.GoodPolicy? && s.policy.NoPolicy? ==>
      FloorOf(dev, AfterMerge(s, captured, actor, stamp).policy) == captured.policy.level
    ensures AfterMerge(s, captured, actor, stamp).pending == s.pending
    ensures var after := AfterUpdater(dev, s, captured, Some(l), actor, stamp);
      if Granted(dev, captured, Some(l)) then after == State(GoodPolicy(Policy(l, true, actor, stamp)), s.pending)
      else after == s
  {
  }

  // ----- The policy directory -----

  class PolicyRoot {
    const dev: bool
    var policy: PolicyFile
    var pending: PendingFile

    constructor (dev: bool, policy: PolicyFile, pending: PendingFile)
      ensures this.dev == dev && Current() == State(policy, pending)
    {
      this.dev, this.policy, this.pending := dev, policy, pending;
    }

    function Current(): State
      reads this
    {
      State(policy, pending)
    }

    method RecoverCorruptPending(stamp: string, audited: bool) returns (done: bool)
      modifies this
      ensures Current() == AfterRecovery(old(Current()), stamp, audited)
      ensures done <==> old(policy).GoodPolicy? && audited
    {
      if !policy.GoodPolicy? { return false; }
      if policy.policy.level != SecureSigned {
        policy := Written(SecureSigned, "system:corrupt-pending-recovery", stamp);
      }
      if !audited { return false; }
      pending := NoPending;
      return true;
    }

    method SetLevel(c: ConsoleSet) returns (applied: bool)
      modifies this
      ensures Current() == AfterConsole(old(Current()), c)
      ensures applied <==> Recovers(old(Current()), c) && Accepted(Recovered(old(Current()), c.stamp), c) && c.audited
    {
      if !policy.GoodPolicy? { return false; }
      if pending.CorruptPending? {
        var done := RecoverCorruptPending(c.stamp, c.recoveryAudited);
        if !done { return false; }
      }
      var current := policy.policy.level;
      if c.target.None? || c.reasonLength < 1 || c.reasonLength > 500 || c.hours < 1 || c.hours > MAX_HOURS {
        return false;
      }
      var lowering := Rank(c.target.value) < Rank(current);
      if lowering && !c.confirmed { return false; }
      var previous := current;
      if lowering && pending.GoodPending? && Rank(pending.pending.previous) > Rank(previous) {
        previous := pending.pending.previous;
      }
      policy := Written(c.target.value, "console", c.stamp);
      if !c.audited { return false; }
      if !lowering {
        pending := NoPending;
        return true;
      }
      pending := GoodPending(Pending(c.changeId, previous, c.target.value, c.now + 3600 * c.hours));
      return true;
    }

    method RevertDue(changeId: string, stamp: string, finished: bool)
      modifies this
      ensures Current() == AfterRevertDue(old(Current()), changeId, stamp, finished)
    {
      if !pending.GoodPending? || pending.pending.changeId != changeId || !policy.GoodPolicy? { return; }
      var previous := pending.pending.previous;
      if Rank(policy.policy.level) <= Rank(previous) {
        policy := Written(previous, "system:auto-revert", stamp);
      }
      if !finished { return; }
      pending := NoPending;
    }

    method CheckRevertDue(now: int, stamp: string, finished: bool)
      modifies this
      ensures Current() == AfterCheckRevert(old(Current()), now, stamp, finished)
    {
      if pending.CorruptPending? {
        var _ := RecoverCorruptPending(stamp, finished);
      } else if pending.GoodPending? && now >= pending.pending.expires {
        RevertDue(pending.pending.changeId, stamp, finished);
      }
    }

    /** `get-policy` and the comparison: the first of the updater's two processes. */
    method UpdaterRead(requested: Option<Level>) returns (granted: bool)
      ensures granted <==> Granted(dev, policy, requested)
    {
      if requested.None? || policy.BadPolicy? { return false; }
      var existing := if policy.GoodPolicy? then policy.policy.level else DefaultLevel(dev);
      return Rank(requested.value) >= Rank(existing);
    }

    /** `set-policy`: the second process compares nothing. */
    method SetPolicy(level: Level, actor: string, stamp: string)
      modifies this`policy
      ensures policy == Written(level, actor, stamp)
    {
      policy := Written(level, actor, stamp);
    }

    /** Both processes with nothing in between. */
    method UpdaterSet(requested: Option<Level>, actor: string, stamp: string) returns (ok: bool)
      modifies this
      ensures Current() == AfterUpdater(dev, old(Current()), old(policy), requested, actor, stamp)
      ensures ok <==> Granted(dev, old(policy), requested)
    {
      ok := UpdaterRead(requested);
      if ok { SetPolicy(requested.value, actor, stamp); }
    }

    method Migrate(legacy: PolicyFile) returns (wrote: bool)
      modifies this
      ensures pending == old(pending)
      ensures MigratesTo(old(policy), legacy, dev, policy)
      ensures wrote <==> policy != old(policy)
    {
      if policy.BadPolicy? { return false; }
      var w := PickWinner(Candidates(policy, legacy, dev));
      var out := MigratedPolicy(w, policy.GoodPolicy?);
      wrote := !policy.GoodPolicy? || policy.policy != out;
      if wrote { policy := GoodPolicy(out); }
    }

    /** The policy part of the restore merge, on the files extraction left. */
    method RestoreMerge(captured: PolicyFile, actor: string, stamp: string)
      modifies this`policy
      ensures Current() == AfterMerge(old(Current()), captured, actor, stamp)
    {
      var own, restored := LevelIn(captured), LevelIn(policy);
      if own.Some? && (restored.None? || Rank(restored.value) < Rank(own.value)) {
        policy := Written(own.value, actor, stamp);
      }
    }
  }

  // ----- What migration promises -----

  /** The maximum of the default, the current and the legacy level. */
  function MigratedLevel(current: PolicyFile, legacy: PolicyFile, dev: bool): Level {
    var base := DefaultLevel(dev);
    var own := if current.GoodPolicy? then Higher(base, current.policy.level) else base;
    if legacy.GoodPolicy? then Higher(own, legacy.policy.level) else own
  }

  lemma MigrateIsMaximum(current: PolicyFile, legacy: PolicyFile, dev: bool, after: PolicyFile)
    requires MigratesTo(current, legacy, dev, after) && !current.BadPolicy?
    ensures after.GoodPolicy? && after.policy.level == MigratedLevel(current, legacy, dev)
    ensures current.GoodPolicy? && current.policy.level == after.policy.level && current.policy.schemaIsOne ==>
      after == current
  {
    var cs := Candidates(current, legacy, dev);
    var w :| w in cs && (forall c <- cs :: Beats(w, c)) && after == GoodPolicy(MigratedPolicy(w, current.GoodPolicy?));
    assert cs[0] in cs;
    if current.GoodPolicy? { assert cs[1] in cs; }
    if legacy.GoodPolicy? { assert cs[|cs| - 1] in cs; }
  }

  /** A second migration from the same sources changes nothing. */
  lemma MigrateTwice(current: PolicyFile, legacy: PolicyFile, dev: bool, after: PolicyFile, again: PolicyFile)
    requires MigratesTo(current, legacy, dev, after) && !current.BadPolicy?
    requires MigratesTo(after, legacy, dev, again)
    ensures again == after
  {
    MigrateIsMaximum(current, legacy, dev, after);
    MigrateIsMaximum(after, legacy, dev, again);
  }

  // ----- All writers -----

  /** `seen` and `captured` are the policy files the unlocked writers read, at whatever earlier moment. */
  datatype Step =
    | Console(c: ConsoleSet)
    | CheckRevert(now: int, stamp: string, finished: bool)
    | Revert(changeId: string, stamp: string, finished: bool)
    | Updater(seen: PolicyFile, requested: Option<Level>, actor: string, stamp: string)
    | Migration(seen: PolicyFile, legacy: PolicyFile, result: PolicyFile)
    | Extract(backup: Backup)
    | Merge(captured: PolicyFile, actor: string, stamp: string)
    | Restore(backup: Backup, actor: string, stamp: string)

  ghost predicate StepOk(dev: bool, step: Step) {
    step.Migration? ==> MigratesTo(step.seen, step.legacy, dev, step.result)
  }

  ghost function AfterStep(dev: bool, s: State, step: Step): State {
    match step
    case Console(c) => AfterConsole(s, c)
    case CheckRevert(now, stamp, finished) => AfterCheckRevert(s, now, stamp, finished)
    case Revert(changeId, stamp, finished) => AfterRevertDue(s, changeId, stamp, finished)
    case Updater(seen, requested, actor, stamp) => AfterUpdater(dev, s, seen, requested, actor, stamp)
    case Migration(seen, _, result) => if result == seen then s else s.(policy := result)
    case Extract(backup) => AfterExtract(s, backup)
    case Merge(captured, actor, stamp) => AfterMerge(s, captured, actor, stamp)
    case Restore(backup, actor, stamp) => AfterRestore(s, backup, actor, stamp)
  }

  predicate ConfirmedLowering(s: State, c: ConsoleSet) {
    c.confirmed && Recovers(s, c) && Accepted(Recovered(s, c.stamp), c) && Lowers(s, c)
  }

  /** The merge writes the captured level over a file that gives none, or only a lower text in a bad file. */
  predicate MergeLowers(dev: bool, inPlace: PolicyFile, captured: PolicyFile) {
    && !inPlace.GoodPolicy? && LevelIn(captured).Some?
    && (LevelIn(inPlace).None? || Rank(LevelIn(inPlace).value) < Rank(LevelIn(captured).value))
    && Rank(LevelIn(captured).value) < Rank(FloorOf(dev, inPlace))
  }

  /**
   The target has no valid policy of its own, the backup brings a file, and the strictest level in the
   two is below the target's floor; a bad file that already holds that level stays, and stays strict.
   */
  predicate RestoreLowers(dev: bool, own: PolicyFile, b: Backup) {
    && !own.GoodPolicy? && !b.policy.NoPolicy?
    && var strictest := Strictest(LevelIn(own), LevelIn(b.policy));
       && strictest.Some? && Rank(strictest.value) < Rank(FloorOf(dev, own))
       && (b.policy.BadPolicy? ==> LevelIn(b.policy) != strictest)
  }

  /** What a caller can check before each write. */
  ghost predicate LoweringStep(dev: bool, s: State, step: Step) {
    match step
    case Console(c) => ConfirmedLowering(s, c)
    case CheckRevert(_, _, _) => false
    case Revert(_, _, _) => false
    case Updater(seen, requested, _, _) => Granted(dev, seen, requested) && Rank(requested.value) < Rank(Floor(dev, s))
    case Migration(seen, legacy, result) =>
      !seen.BadPolicy? && result != seen && Rank(MigratedLevel(seen, legacy, dev)) < Rank(Floor(dev, s))
    case Extract(b) => !b.policy.NoPolicy? && Rank(FloorOf(dev, b.policy)) < Rank(Floor(dev, s))
    case Merge(captured, _, _) => MergeLowers(dev, s.policy, captured)
    case Restore(b, _, _) => RestoreLowers(dev, s.policy, b)
  }

  /** Every step of every writer, from every state: the floor goes down exactly when the step is a lowering one. */
  lemma LowersExactly(dev: bool, s: State, step: Step)
    requires StepOk(dev, step)
    ensures Rank(Floor(dev, AfterStep(dev, s, step))) < Rank(Floor(dev, s)) <==> LoweringStep(dev, s, step)
  {
    if step.Migration? && !step.seen.BadPolicy? {
      MigrateIsMaximum(step.seen, step.legacy, dev, step.result);
    }
  }

  /** An unlocked writer acts on the policy as it is, a restore meets no bad case, nobody confirms a lowering. */
  ghost predicate Quiet(dev: bool, s: State, step: Step) {
    match step
    case Console(c) => !c.confirmed
    case CheckRevert(_, _, _) => true
    case Revert(_, _, _) => true
    case Updater(seen, _, _, _) => seen == s.policy
    case Migration(seen, _, _) => seen == s.policy
    case Extract(_) => false
    case Merge(_, _, _) => false
    case Restore(b, _, _) => !RestoreLowers(dev, s.policy, b)
  }

  /** So of the writers that act on the policy as it is, only a confirmed console lowering decreases the floor. */
  lemma OnlyConsoleLowers(dev: bool, s: State, step: Step)
    requires StepOk(dev, step) && (step.Console? || Quiet(dev, s, step))
    ensures Rank(Floor(dev, AfterStep(dev, s, step))) < Rank(Floor(dev, s)) <==>
      step.Console? && ConfirmedLowering(s, step.c)
  {
    LowersExactly(dev, s, step);
  }

  ghost predicate QuietRun(dev: bool, s: State, steps: seq<Step>)
    decreases |steps|
  {
    steps == []
    || (StepOk(dev, steps[0]) && Quiet(dev, s, steps[0]) && QuietRun(dev, AfterStep(dev, s, steps[0]), steps[1..]))
  }

  ghost function AfterRun(dev: bool, s: State, steps: seq<Step>): State
    decreases |steps|
  {
    if steps == [] then s else AfterRun(dev, AfterStep(dev, s, steps[0]), steps[1..])
  }

  /** A quiet run ends at least as strict as it began, also when it began without a policy file. */
  lemma {:induction false} RunsNeverLower(dev: bool, s: State, steps: seq<Step>)
    requires QuietRun(dev, s, steps)
    ensures Rank(Floor(dev, s)) <= Rank(Floor(dev, AfterRun(dev, s, steps)))
    decreases |steps|
  {
    if steps != [] {
      OnlyConsoleLowers(dev, s, steps[0]);
      RunsNeverLower(dev, AfterStep(dev, s, steps[0]), steps[1..]);
    }
  }

  /** A server without a policy file enforces its default until a restore brings an unsigned one. */
  lemma RestoreLowersDefault()
    ensures
      var s := State(NoPolicy, NoPending);
      var b := Backup(Written(Unsigned, "console", ""), NoPending);
      && Floor(false, s) == SignedProduction
      && Floor(false, AfterStep(false, s, Restore(b, "restore", ""))) == Unsigned
  {
  }

  /** The updater reads, the console raises the floor, the updater writes: the raise is gone. */
  lemma OvertakenUpdaterLowers()
    ensures
      var s := State(Written(SignedProduction, "console", ""), NoPending);
      var raise := ConsoleSet(Some(SecureSigned), 1, 8, false, true, true, 0, "", "a");
      var raised := AfterStep(false, s, Console(raise));
      && Floor(false, raised) == SecureSigned
      && Floor(false, AfterStep(false, raised,
         Updater(s.policy, Some(SignedProduction), "web", ""))) == SignedProduction
  {
  }

  // ----- The pending chain -----

  /** Console and updater steps that are not cut short and not overtaken. */
  ghost predicate ChainStep(dev: bool, s: State, step: Step) {
    || (step.Console? && step.c.audited && step.c.recoveryAudited)
    || (step.Updater? && !LoweringStep(dev, s, step))
  }

  ghost predicate ChainRun(dev: bool, s: State, steps: seq<Step>)
    decreases |steps|
  {
    steps == [] || (ChainStep(dev, s, steps[0]) && ChainRun(dev, AfterStep(dev, s, steps[0]), steps[1..]))
  }

  /** The highest level held since the pending chain began; a chain begins with its first lowering. */
  ghost function High(dev: bool, s: State, high: Level, step: Step): Level {
    var s' := AfterStep(dev, s, step);
    if !s'.pending.GoodPending? then high
    else if s.pending.GoodPending? then Higher(high, Higher(Floor(dev, s), Floor(dev, s')))
    else Higher(RecoveredFloor(dev, s), Floor(dev, s'))
  }

  /** The floor a console command compares with: the recovered one when the pending file is corrupt. */
  function RecoveredFloor(dev: bool, s: State): Level {
    if s.pending.CorruptPending? then SecureSigned else Floor(dev, s)
  }

  ghost function HighAfterRun(dev: bool, s: State, high: Level, steps: seq<Step>): Level
    decreases |steps|
  {
    if steps == [] then high
    else HighAfterRun(dev, AfterStep(dev, s, steps[0]), High(dev, s, high, steps[0]), steps[1..])
  }

  /** While a revert is pending there is a policy, and it and the promised level together remember the highest one. */
  ghost predicate Remembers(s: State, high: Level) {
    s.pending.GoodPending? ==> s.policy.GoodPolicy? && high == Higher(s.pending.pending.previous, s.policy.policy.level)
  }

  lemma ChainStepRemembers(dev: bool, s: State, high: Level, step: Step)
    requires Remembers(s, high) && ChainStep(dev, s, step)
    ensures Remembers(AfterStep(dev, s, step), High(dev, s, high, step))
  {
  }

  lemma {:induction false} ChainRemembers(dev: bool, s: State, high: Level, steps: seq<Step>)
    requires Remembers(s, high) && ChainRun(dev, s, steps)
    ensures Remembers(AfterRun(dev, s, steps), HighAfterRun(dev, s, high, steps))
    decreases |steps|
  {
    if steps != [] {
      ChainStepRemembers(dev, s, high, steps[0]);
      ChainRemembers(dev, AfterStep(dev, s, steps[0]), High(dev, s, high, steps[0]), steps[1..]);
    }
  }

  /** After any console and updater run, a due revert leaves the floor at the highest level of the chain. */
  lemma DueRevertRestoresHighest(dev: bool, s: State, steps: seq<Step>, now: int, stamp: string, finished: bool)
    requires s.pending.NoPending? && ChainRun(dev, s, steps)
    requires var end := AfterRun(dev, s, steps); end.pending.GoodPending? && end.pending.pending.expires <= now
    ensures
      var end := AfterCheckRevert(AfterRun(dev, s, steps), now, stamp, finished);
      && Floor(dev, end) == HighAfterRun(dev, s, Floor(dev, s), steps)
      && (finished <==> end.pending.NoPending?)
  {
    ChainRemembers(dev, s, Floor(dev, s), steps);
  }

  /** A revert that stops before it clears the pending file is done again, to the same floor, by the next check. */
  lemma StoppedRevertIsRepeated(dev: bool, s: State, now: int, later: int, stamp: string)
    requires s.pending.GoodPending? && s.pending.pending.expires <= now <= later
    ensures
      var once, stopped := AfterCheckRevert(s, now, stamp, true), AfterCheckRevert(s, now, stamp, false);
      && Floor(dev, stopped) == Floor(dev, once)
      && AfterCheckRevert(stopped, later, stamp, true) == once
  {
  }

  /** A check before a pending revert expires changes nothing. */
  lemma EarlyCheckKeeps(s: State, now: int, stamp: string, finished: bool)
    requires s.pending.GoodPending? && now < s.pending.pending.expires
    ensures AfterCheckRevert(s, now, stamp, finished) == s
  {
  }

  /**
   A confirmed lowering for some hours holds for just those hours: every check before they are over
   leaves the target level, every one from then on the level from before, or a higher one already
   promised.
   */
  lemma LoweringIsTimed(dev: bool, s: State, c: ConsoleSet, now: int, stamp: string, finished: bool)
    requires s.policy.GoodPolicy? && !s.pending.CorruptPending? && c.target.Some? && c.audited && c.confirmed
    requires 1 <= c.reasonLength <= 500 && 1 <= c.hours <= 168 && Rank(c.target.value) < Rank(s.policy.policy.level)
    ensures
      var checked := Floor(dev, AfterCheckRevert(AfterConsole(s, c), now, stamp, finished));
      var level := s.policy.policy.level;
      var promised := if s.pending.GoodPending? then s.pending.pending.previous else level;
      && (now < c.now + 3600 * c.hours ==> checked == c.target.value)
      && (c.now + 3600 * c.hours <= now ==>
            checked == if Rank(level) < Rank(promised) then promised else level)
  {
  }

  /**
   A lowering that completes keeps the level the server comes back to. One cut off between its two
   writes, the first lowering included, keeps it exactly when a pending revert already promises at
   least the floor it lowers.
   */
  lemma InterruptedConsole(dev: bool, s: State, c: ConsoleSet)
    requires Recovers(s, c) && Accepted(Recovered(s, c.stamp), c)
    ensures
      var r, end := Recovered(s, c.stamp), AfterConsole(s, c);
      var kept := RevertLevel(dev, end) == Higher(RevertLevel(dev, r), c.target.value);
      && (c.audited && Lowers(r, c) ==> kept)
      && (!c.audited ==>
            (kept <==>
               || Rank(Floor(dev, r)) <= Rank(c.target.value)
               || (r.pending.GoodPending? && Rank(Floor(dev, r)) <= Rank(r.pending.pending.previous))))
  {
  }

  /** A first lowering cut off between its two writes: no revert exists, so no check ever raises the floor again. */
  lemma InterruptedFirstLowering(now: int, stamp: string, finished: bool)
    ensures
      var s := State(Written(SecureSigned, "console", ""), NoPending);
      var c := ConsoleSet(Some(Unsigned), 1, 8, true, true, false, 0, "", "a");
      Floor(false, AfterCheckRevert(AfterConsole(s, c), now, stamp, finished)) == Unsigned
  {
  }

  /** A floor raised by the updater and then lowered by an interrupted command is not put back. */
  lemma InterruptedLoweringForgets()
    ensures
      var s := State(Written(SignedProduction, "updater", ""),
        GoodPending(Pending("a", SignedDevelopment, Unsigned, 0)));
      var c := ConsoleSet(Some(Unsigned), 1, 8, true, true, false, 0, "", "b");
      && Floor(false, AfterCheckRevert(AfterConsole(s, c), 0, "", true)) == SignedDevelopment
      && Rank(SignedDevelopment) < Rank(Floor(false, s))
  {
  }
}
