/**
 Publishing and deleting recovery archives in a local destination. Operations are serialised by a
 lock, but the process may die between any two steps and readers look at the directory at any time.
 */
module LocalPublication {
  import opened Common

  datatype Role = Archive | Sidecar | HashFile
  datatype File = File(name: string, role: Role, partial: bool)
  datatype Content = Bytes(bytes: string) | Meta(size: nat, sha: string) | HashLine(sha: string)
  type Dir = map<File, Content>

  function Final(name: string, role: Role): File { File(name, role, false) }
  function Partial(name: string, role: Role): File { File(name, role, true) }

  function Finals(d: Dir): Dir {
    map f | f in d && !f.partial :: d[f]
  }

  /** What a publish is asked to store: the archive name and its metadata. */
  datatype Job = Job(name: string, size: nat, sha: string)

  /** The operation holding the lock. `pc` counts its finished steps; `before` is the directory it started from. */
  datatype Phase =
    | Idle
    | Publishing(job: Job, pc: nat, before: Dir)
    | Cleaning(inner: seq<File>, outer: seq<File>, before: Dir)
    | Deleting(name: string, pc: nat, before: Dir)

  datatype State = State(dir: Dir, phase: Phase)

  /** `Advance(ok, copied)`: the current step succeeds or raises; `copied` is what a copy wrote. */
  datatype Event = BeginPublish(job: Job) | BeginDelete(name: string) | Advance(ok: bool, copied: string) | Crash

  function Partials(name: string): seq<File> {
    [Partial(name, Archive), Partial(name, Sidecar), Partial(name, HashFile)]
  }

  function PublishedSoFar(name: string, pc: nat): seq<File> {
    (if pc >= 5 then [Final(name, Sidecar)] else []) + (if pc >= 6 then [Final(name, HashFile)] else [])
  }

  /** What the handler around the archive's move unlinks: the published names, last one first. */
  function InnerList(name: string, pc: nat): seq<File> {
    if pc == 6 then [Final(name, HashFile), Final(name, Sidecar)] else []
  }

  /** What the handler around the whole publish unlinks: the partial files, then the published names. */
  function OuterList(name: string, pc: nat): seq<File> {
    Partials(name) + PublishedSoFar(name, pc)
  }

  function Move(d: Dir, name: string, role: Role): Dir {
    if Partial(name, role) in d then (d - {Partial(name, role)})[Final(name, role) := d[Partial(name, role)]] else d
  }

  predicate NameTaken(d: Dir, name: string) {
    Final(name, Archive) in d || Final(name, Sidecar) in d || Final(name, HashFile) in d
  }

  /** The seven steps of a publish. */
  function PublishStep(hash: string -> string, d: Dir, job: Job, pc: nat, copied: string): Option<Dir> {
    match pc
    case 0 => if NameTaken(d, job.name) then None else Some(d)
    case 1 => Some(d[Partial(job.name, Archive) := Bytes(copied)])
    case 2 => Some(d[Partial(job.name, Sidecar) := Meta(job.size, job.sha)])
    case 3 =>
      var written := d[Partial(job.name, HashFile) := HashLine(job.sha)];
      if VerifiedCopy(hash, written, job) then Some(written) else None
    case 4 => Some(Move(d, job.name, Sidecar))
    case 5 => Some(Move(d, job.name, HashFile))
    case _ => Some(Move(d, job.name, Archive))
  }

  function DeleteStep(d: Dir, name: string, pc: nat): Dir {
    if pc == 0 then d - {Final(name, Archive)}
    else if pc == 1 then d - {Final(name, Sidecar)}
    else d - {Final(name, HashFile)}
  }

  function Next(hash: string -> string, s: State, e: Event): State {
    match e
    case Crash => State(s.dir, Idle)
    case BeginPublish(job) => if s.phase.Idle? then State(s.dir, Publishing(job, 0, s.dir)) else s
    case BeginDelete(name) => if s.phase.Idle? then State(s.dir, Deleting(name, 0, s.dir)) else s
    case Advance(ok, copied) =>
      match s.phase
      case Idle => s
      case Publishing(job, pc, before) =>
        var step := PublishStep(hash, s.dir, job, pc, copied);
        if pc == 0 && (!ok || step.None?) then State(s.dir, Idle)
        else if !ok || step.None? then
          // A step that raises while writing a partial file may leave that file behind.
          State(
            if pc <= 3 && step.Some? then step.value else s.dir,
            Cleaning(InnerList(job.name, pc), OuterList(job.name, pc), before))
        else State(step.value, if pc == 6 then Idle else Publishing(job, pc + 1, before))
      case Cleaning(inner, outer, before) =>
        // An unlink that raises in the inner handler moves on to the outer one; in the outer one it ends the clean-up.
        if inner != [] then
          if ok then State(s.dir - {inner[0]}, Cleaning(inner[1..], outer, before))
          else State(s.dir, Cleaning([], outer, before))
        else if outer == [] || !ok then State(s.dir, Idle)
        else State(s.dir - {outer[0]}, Cleaning([], outer[1..], before))
      case Deleting(name, pc, before) =>
        if !ok then State(s.dir, Idle)
        else State(DeleteStep(s.dir, name, pc), if pc == 2 then Idle else Deleting(name, pc + 1, before))
  }

  // ----- The invariant -----

  /** A visible archive has a visible sidecar and hash file, and both describe its bytes. */
  ghost predicate Described(hash: string -> string, d: Dir, name: string) {
    Final(name, Archive) in d ==>
      && Final(name, Sidecar) in d && Final(name, HashFile) in d
      && d[Final(name, Archive)].Bytes?
      && var b := d[Final(name, Archive)].bytes;
         d[Final(name, Sidecar)] == Meta(|b|, hash(b)) && d[Final(name, HashFile)] == HashLine(hash(b))
  }

  ghost predicate AllDescribed(hash: string -> string, d: Dir) {
    forall name: string :: Described(hash, d, name)
  }

  /** The finals of a publish in progress: those it started from, plus what it has moved into place. */
  ghost predicate PublishFinals(d: Dir, job: Job, pc: nat, before: Dir) {
    && !NameTaken(before, job.name)
    && Finals(d) == Finals(before)
         + (if pc >= 5 then map[Final(job.name, Sidecar) := Meta(job.size, job.sha)] else map[])
         + (if pc >= 6 then map[Final(job.name, HashFile) := HashLine(job.sha)] else map[])
  }

  predicate VerifiedCopy(hash: string -> string, d: Dir, job: Job) {
    var a := Partial(job.name, Archive);
    a in d && d[a].Bytes? && |d[a].bytes| == job.size && hash(d[a].bytes) == job.sha
  }

  ghost predicate PartialsReady(hash: string -> string, d: Dir, job: Job, pc: nat) {
    && (pc >= 3 && pc <= 4 ==>
          Partial(job.name, Sidecar) in d && d[Partial(job.name, Sidecar)] == Meta(job.size, job.sha))
    && (4 <= pc <= 5 ==> Partial(job.name, HashFile) in d && d[Partial(job.name, HashFile)] == HashLine(job.sha))
    && (4 <= pc ==> VerifiedCopy(hash, d, job))
  }

  /** While cleaning, the finals are those of the start plus at most the files still to be unlinked. */
  ghost predicate CleaningFinals(d: Dir, todo: seq<File>, before: Dir) {
    && (forall f :: f in Finals(d) && f !in todo ==> f in Finals(before) && d[f] == before[f])
    && (forall f <- Finals(before) :: f !in todo && f in d && d[f] == before[f])
    && (forall f <- todo :: f.role.Archive? ==> f.partial)
  }

  ghost predicate Inv(hash: string -> string, s: State) {
    && AllDescribed(hash, s.dir)
    && match s.phase
       case Idle => true
       case Publishing(job, pc, before) =>
         && pc <= 6 && AllDescribed(hash, before)
         && (if pc == 0 then s.dir == before else PublishFinals(s.dir, job, pc, before))
         && PartialsReady(hash, s.dir, job, pc)
       case Cleaning(inner, outer, before) =>
         AllDescribed(hash, before) && (forall f <- inner :: f in outer) && CleaningFinals(s.dir, outer, before)
       case Deleting(name, pc, before) => pc <= 2 && (pc >= 1 ==> Final(name, Archive) !in s.dir)
  }

  lemma FinalsDecide(hash: string -> string, d: Dir, d': Dir)
    requires AllDescribed(hash, d) && Finals(d) == Finals(d')
    ensures AllDescribed(hash, d')
  {
    forall name: string ensures Described(hash, d', name) {
      assert Described(hash, d, name);
      SameFinal(d, d', Final(name, Archive));
      SameFinal(d, d', Final(name, Sidecar));
      SameFinal(d, d', Final(name, HashFile));
    }
  }

  lemma SameFinal(d: Dir, d': Dir, f: File)
    requires Finals(d) == Finals(d') && !f.partial
    ensures (f in d <==> f in d') && (f in d ==> d[f] == d'[f])
  {
    assert f in d <==> f in Finals(d);
    assert f in d' <==> f in Finals(d');
  }

  /** A publish in progress has not touched the description of any visible archive. */
  lemma PublishDescribed(hash: string -> string, d: Dir, job: Job, pc: nat, before: Dir)
    requires AllDescribed(hash, before) && PublishFinals(d, job, pc, before)
    ensures AllDescribed(hash, d) && Final(job.name, Archive) !in d
  {
    forall name: string ensures Described(hash, d, name) {
      assert Described(hash, before, name);
      FinalOf(d, job, pc, before, Final(name, Archive));
      FinalOf(d, job, pc, before, Final(name, Sidecar));
      FinalOf(d, job, pc, before, Final(name, HashFile));
    }
    FinalOf(d, job, pc, before, Final(job.name, Archive));
  }

  lemma FinalOf(d: Dir, job: Job, pc: nat, before: Dir, f: File)
    requires PublishFinals(d, job, pc, before) && !f.partial
    ensures f.name != job.name || f.role.Archive? ==> (f in d <==> f in before) && (f in d ==> d[f] == before[f])
    ensures f == Final(job.name, Sidecar) ==> (f in d <==> pc >= 5) && (f in d ==> d[f] == Meta(job.size, job.sha))
    ensures f == Final(job.name, HashFile) ==> (f in d <==> pc >= 6) && (f in d ==> d[f] == HashLine(job.sha))
  {
    assert f in d <==> f in Finals(d);
    assert f in before <==> f in Finals(before);
  }

  lemma PartialWriteKeepsFinals(d: Dir, f: File, c: Content)
    requires f.partial
    ensures Finals(d[f := c]) == Finals(d)
  {
  }

  lemma MoveFinals(d: Dir, name: string, role: Role)
    requires Partial(name, role) in d
    ensures Finals(Move(d, name, role)) == Finals(d)[Final(name, role) := d[Partial(name, role)]]
  {
  }

  lemma PublishKeepsInv(hash: string -> string, s: State, copied: string)
    requires Inv(hash, s) && s.phase.Publishing? && 1 <= s.phase.pc
    requires PublishStep(hash, s.dir, s.phase.job, s.phase.pc, copied).Some?
    ensures Inv(hash, Next(hash, s, Advance(true, copied)))
  {
    var job, pc, before := s.phase.job, s.phase.pc, s.phase.before;
    var d' := PublishStep(hash, s.dir, job, pc, copied).value;
    if pc <= 3 {
      var f := if pc == 1 then Partial(job.name, Archive)
        else if pc == 2 then Partial(job.name, Sidecar) else Partial(job.name, HashFile);
      PartialWriteKeepsFinals(s.dir, f, d'[f]);
      assert PublishFinals(d', job, pc + 1, before);
      PublishDescribed(hash, d', job, pc + 1, before);
    } else if pc <= 5 {
      MoveFinals(s.dir, job.name, if pc == 4 then Sidecar else HashFile);
      assert PublishFinals(d', job, pc + 1, before);
      PublishDescribed(hash, d', job, pc + 1, before);
    } else {
      PublishCompletes(hash, s.dir, job, before);
    }
  }

  /** The last move: sidecar and hash file are in place and describe the bytes that become visible. */
  lemma PublishCompletes(hash: string -> string, d: Dir, job: Job, before: Dir)
    requires AllDescribed(hash, d) && PublishFinals(d, job, 6, before) && VerifiedCopy(hash, d, job)
    ensures AllDescribed(hash, Move(d, job.name, Archive))
  {
    var d' := Move(d, job.name, Archive);
    forall name: string ensures Described(hash, d', name) {
      assert Described(hash, d, name);
      FinalOf(d, job, 6, before, Final(job.name, Sidecar));
      FinalOf(d, job, 6, before, Final(job.name, HashFile));
    }
  }

  lemma NotTaken(d: Dir, f: File, name: string)
    requires !NameTaken(d, name) && f in d && !f.partial
    ensures f.name != name
  {
    match f.role
    case Archive => assert f == Final(f.name, Archive);
    case Sidecar => assert f == Final(f.name, Sidecar);
    case HashFile => assert f == Final(f.name, HashFile);
  }

  lemma CleaningStarts(hash: string -> string, d: Dir, d': Dir, job: Job, pc: nat, before: Dir)
    requires 1 <= pc <= 6 && AllDescribed(hash, before) && PublishFinals(d, job, pc, before) && Finals(d') == Finals(d)
    ensures CleaningFinals(d', OuterList(job.name, pc), before)
    ensures forall f <- InnerList(job.name, pc) :: f in OuterList(job.name, pc)
  {
    var todo := OuterList(job.name, pc);
    if pc >= 5 { assert todo[3] == Final(job.name, Sidecar); }
    if pc >= 6 { assert todo[4] == Final(job.name, HashFile); }
    assert forall f <- todo :: f.name == job.name && (f.role.Archive? ==> f.partial);
    forall f | f in Finals(d') && f !in todo ensures f in Finals(before) && d'[f] == before[f] {
      SameFinal(d, d', f);
      FinalOf(d, job, pc, before, f);
    }
    forall f | f in Finals(before) ensures f !in todo && f in d' && d'[f] == before[f] {
      NotTaken(before, f, job.name);
      SameFinal(d, d', f);
      FinalOf(d, job, pc, before, f);
    }
  }

  lemma CleaningDescribed(hash: string -> string, d: Dir, todo: seq<File>, before: Dir)
    requires AllDescribed(hash, before) && CleaningFinals(d, todo, before)
    ensures AllDescribed(hash, d)
  {
    forall name: string ensures Described(hash, d, name) {
      assert Described(hash, before, name);
      assert Final(name, Archive) in d ==> Final(name, Archive) in Finals(d);
      assert Final(name, Sidecar) in before ==> Final(name, Sidecar) in Finals(before);
      assert Final(name, HashFile) in before ==> Final(name, HashFile) in Finals(before);
    }
  }

  lemma CleaningStep(d: Dir, todo: seq<File>, before: Dir)
    requires CleaningFinals(d, todo, before) && todo != []
    ensures CleaningFinals(d - {todo[0]}, todo[1..], before)
  {
    var d' := d - {todo[0]};
    assert todo == [todo[0]] + todo[1..];
    forall f | f in Finals(d') && f !in todo[1..] ensures f in Finals(before) && d'[f] == before[f] {
      assert f in Finals(d) && f !in todo;
    }
  }

  lemma InnerUnlink(d: Dir, f: File, outer: seq<File>, before: Dir)
    requires CleaningFinals(d, outer, before) && f in outer
    ensures CleaningFinals(d - {f}, outer, before)
  {
  }

  lemma DeleteKeepsInv(hash: string -> string, s: State)
    requires Inv(hash, s) && s.phase.Deleting?
    ensures Inv(hash, Next(hash, s, Advance(true, "")))
  {
    var d' := DeleteStep(s.dir, s.phase.name, s.phase.pc);
    forall name: string ensures Described(hash, d', name) {
      assert Described(hash, s.dir, name);
    }
  }

  /** Every step of every operation, and a crash at any moment, keeps visible archives described. */
  lemma NextKeepsInv(hash: string -> string, s: State, e: Event)
    requires Inv(hash, s)
    ensures Inv(hash, Next(hash, s, e))
  {
    if e.Advance? {
      match s.phase
      case Idle =>
      case Publishing(job, pc, before) =>
        var step := PublishStep(hash, s.dir, job, pc, e.copied);
        if pc == 0 {
          assert step.Some? && e.ok ==> PublishFinals(s.dir, job, 1, before);
        } else if e.ok && step.Some? {
          PublishKeepsInv(hash, s, e.copied);
        } else {
          var d' := Next(hash, s, e).dir;
          assert Finals(d') == Finals(s.dir);
          CleaningStarts(hash, s.dir, d', job, pc, before);
          FinalsDecide(hash, s.dir, d');
        }
      case Cleaning(inner, outer, before) =>
        if inner != [] && e.ok {
          assert inner[0] in inner;
          InnerUnlink(s.dir, inner[0], outer, before);
          CleaningDescribed(hash, s.dir - {inner[0]}, outer, before);
        } else if inner == [] && outer != [] && e.ok {
          CleaningStep(s.dir, outer, before);
          CleaningDescribed(hash, s.dir - {outer[0]}, outer[1..], before);
        }
      case Deleting(name, pc, before) => if e.ok { DeleteKeepsInv(hash, s); }
    }
  }

  function AfterEvents(hash: string -> string, s: State, events: seq<Event>): State {
    if events == [] then s else Next(hash, AfterEvents(hash, s, events[..|events| - 1]), events[|events| - 1])
  }

  lemma {:induction false} RunsKeepInv(hash: string -> string, s: State, events: seq<Event>)
    requires Inv(hash, s)
    ensures Inv(hash, AfterEvents(hash, s, events))
  {
    if events != [] {
      RunsKeepInv(hash, s, events[..|events| - 1]);
      NextKeepsInv(hash, AfterEvents(hash, s, events[..|events| - 1]), events[|events| - 1]);
    }
  }

  /** In every state of every run from an empty destination, a reader finds each visible archive described. */
  lemma ReadersSeeDescribedArchives(hash: string -> string, events: seq<Event>, name: string)
    ensures Described(hash, AfterEvents(hash, State(map[], Idle), events).dir, name)
  {
    RunsKeepInv(hash, State(map[], Idle), events);
  }

  /** No step changes the content of a visible final name. */
  lemma FinalsNeverOverwritten(hash: string -> string, s: State, e: Event, f: File)
    requires Inv(hash, s) && !f.partial && f in s.dir
    ensures f in Next(hash, s, e).dir ==> Next(hash, s, e).dir[f] == s.dir[f]
  {
    if e.Advance? && e.ok && s.phase.Publishing? && s.phase.pc >= 4 {
      FinalOf(s.dir, s.phase.job, s.phase.pc, s.phase.before, f);
      PublishDescribed(hash, s.dir, s.phase.job, s.phase.pc, s.phase.before);
    }
  }

  /** `n` steps that do not raise, each copy writing `bytes`. */
  function Steps(hash: string -> string, s: State, bytes: string, n: nat): State {
    if n == 0 then s else Next(hash, Steps(hash, s, bytes, n - 1), Advance(true, bytes))
  }

  ghost predicate FaithfulCopy(hash: string -> string, job: Job, bytes: string) {
    |bytes| == job.size && hash(bytes) == job.sha
  }

  ghost predicate HasCopy(d: Dir, job: Job, bytes: string) {
    Partial(job.name, Archive) in d && d[Partial(job.name, Archive)] == Bytes(bytes)
  }

  lemma StepAdvances(hash: string -> string, d: Dir, job: Job, pc: nat, before: Dir, bytes: string)
    requires pc <= 5 && FaithfulCopy(hash, job, bytes) && (pc == 0 ==> !NameTaken(d, job.name))
    requires (pc >= 2 ==> HasCopy(d, job, bytes))
    ensures var t := Next(hash, State(d, Publishing(job, pc, before)), Advance(true, bytes));
      t.phase == Publishing(job, pc + 1, before) && (pc >= 1 ==> HasCopy(t.dir, job, bytes))
  {
  }

  lemma {:induction false} PublishProgress(hash: string -> string, s: State, job: Job, bytes: string, n: nat)
    requires Inv(hash, s) && s.phase == Publishing(job, 0, s.dir) && !NameTaken(s.dir, job.name)
    requires FaithfulCopy(hash, job, bytes) && n <= 6
    ensures var t := Steps(hash, s, bytes, n);
      Inv(hash, t) && t.phase == Publishing(job, n, s.dir) && (n >= 2 ==> HasCopy(t.dir, job, bytes))
  {
    if n > 0 {
      var t := Steps(hash, s, bytes, n - 1);
      PublishProgress(hash, s, job, bytes, n - 1);
      NextKeepsInv(hash, t, Advance(true, bytes));
      StepAdvances(hash, t.dir, job, n - 1, s.dir, bytes);
    }
  }

  /**
   A publish of a free name whose copy is faithful and whose steps do not raise adds its three finals
   and nothing else.
   */
  lemma PublishSucceeds(hash: string -> string, d: Dir, job: Job, bytes: string)
    requires AllDescribed(hash, d) && !NameTaken(d, job.name) && FaithfulCopy(hash, job, bytes)
    ensures var t := Steps(hash, Next(hash, State(d, Idle), BeginPublish(job)), bytes, 7);
      && t.phase.Idle?
      && Finals(t.dir) == Finals(d) + map[
           Final(job.name, Sidecar) := Meta(job.size, job.sha),
           Final(job.name, HashFile) := HashLine(job.sha),
           Final(job.name, Archive) := Bytes(bytes)]
  {
    var s := Next(hash, State(d, Idle), BeginPublish(job));
    PublishProgress(hash, s, job, bytes, 6);
    LastMove(hash, Steps(hash, s, bytes, 6), job, bytes, d);
  }

  lemma LastMove(hash: string -> string, t: State, job: Job, bytes: string, before: Dir)
    requires t.phase == Publishing(job, 6, before) && PublishFinals(t.dir, job, 6, before) && HasCopy(t.dir, job, bytes)
    ensures var end := Next(hash, t, Advance(true, bytes));
      && end.phase.Idle?
      && Finals(end.dir) == Finals(before) + map[
           Final(job.name, Sidecar) := Meta(job.size, job.sha),
           Final(job.name, HashFile) := HashLine(job.sha),
           Final(job.name, Archive) := Bytes(bytes)]
  {
    MoveFinals(t.dir, job.name, Archive);
  }

  // ----- A publish that raises -----

  /**
   `a` unlinks of the inner handler and `n` of the outer one succeed; the next one of each, if there is
   one, raises.
   */
  function AfterCleanup(hash: string -> string, s: State, a: nat, n: nat): State
    requires s.phase.Cleaning?
  {
    var inner := Steps(hash, s, "", a);
    var outer := if a < |s.phase.inner| then Next(hash, inner, Advance(false, "")) else inner;
    Next(hash, Steps(hash, outer, "", n), Advance(false, ""))
  }

  function Without(d: Dir, files: seq<File>): Dir {
    map f | f in d && f !in files :: d[f]
  }

  lemma {:induction false} InnerSteps(hash: string -> string, s: State, a: nat)
    requires s.phase.Cleaning? && a <= |s.phase.inner|
    ensures Steps(hash, s, "", a) ==
      State(Without(s.dir, s.phase.inner[..a]), Cleaning(s.phase.inner[a..], s.phase.outer, s.phase.before))
  {
    if a > 0 {
      InnerSteps(hash, s, a - 1);
      assert s.phase.inner[..a] == s.phase.inner[..a - 1] + [s.phase.inner[a - 1]];
    }
  }

  lemma {:induction false} OuterSteps(hash: string -> string, s: State, n: nat)
    requires s.phase.Cleaning? && s.phase.inner == [] && n <= |s.phase.outer|
    ensures Steps(hash, s, "", n) ==
      State(Without(s.dir, s.phase.outer[..n]), Cleaning([], s.phase.outer[n..], s.phase.before))
  {
    if n > 0 {
      OuterSteps(hash, s, n - 1);
      assert s.phase.outer[..n] == s.phase.outer[..n - 1] + [s.phase.outer[n - 1]];
    }
  }

  /** The directory a clean-up leaves. */
  lemma CleanupLeaves(hash: string -> string, s: State, a: nat, n: nat)
    requires s.phase.Cleaning? && a <= |s.phase.inner| && n <= |s.phase.outer|
    ensures AfterCleanup(hash, s, a, n) ==
      State(Without(Without(s.dir, s.phase.inner[..a]), s.phase.outer[..n]), Idle)
  {
    InnerSteps(hash, s, a);
    var mid := State(Without(s.dir, s.phase.inner[..a]), Cleaning([], s.phase.outer, s.phase.before));
    assert a == |s.phase.inner| ==> s.phase.inner[a..] == [];
    OuterSteps(hash, mid, n);
  }

  /** Whether the clean-up gets as far as it needs to, by the step that raised and the unlinks that succeeded. */
  predicate CleanedFarEnough(pc: nat, a: nat, n: nat) {
    || pc <= 4
    || (pc == 5 && n >= 4)
    || (pc == 6 && (a >= 2 || (a == 1 && n >= 4) || n >= 5))
  }

  lemma FinalGone(job: Job, pc: nat, a: nat, n: nat)
    requires 1 <= pc <= 6 && a <= |InnerList(job.name, pc)| && n <= |OuterList(job.name, pc)|
    ensures var gone := InnerList(job.name, pc)[..a] + OuterList(job.name, pc)[..n];
      && (pc >= 5 ==> (Final(job.name, Sidecar) in gone <==> a >= 2 || n >= 4))
      && (pc >= 6 ==> (Final(job.name, HashFile) in gone <==> a >= 1 || n >= 5))
      && (forall f <- gone :: f.name == job.name)
  {
    var inner, outer := InnerList(job.name, pc), OuterList(job.name, pc);
    assert |outer| == if pc >= 6 then 5 else if pc == 5 then 4 else 3;
    assert outer[0] == Partial(job.name, Archive) && outer[1] == Partial(job.name, Sidecar);
    assert outer[2] == Partial(job.name, HashFile);
    if pc >= 5 { assert outer[3] == Final(job.name, Sidecar); }
    if pc >= 6 { assert outer[4] == Final(job.name, HashFile); }
    if n >= 4 { assert outer[..n][3] == Final(job.name, Sidecar); }
    if n >= 5 { assert outer[..n][4] == Final(job.name, HashFile); }
    if a >= 1 { assert inner[..a][0] == Final(job.name, HashFile); }
    if a >= 2 { assert inner[..a][1] == Final(job.name, Sidecar); }
  }

  /** The finals left once a clean-up has unlinked `gone`. */
  lemma LeftFinals(d: Dir, job: Job, pc: nat, before: Dir, gone: seq<File>)
    requires 1 <= pc <= 6 && PublishFinals(d, job, pc, before) && forall f <- gone :: f.name == job.name
    ensures Finals(Without(d, gone)) == Finals(before) <==>
      && (pc >= 5 ==> Final(job.name, Sidecar) in gone)
      && (pc >= 6 ==> Final(job.name, HashFile) in gone)
  {
    var end := Without(d, gone);
    FinalOf(d, job, pc, before, Final(job.name, Sidecar));
    FinalOf(d, job, pc, before, Final(job.name, HashFile));
    assert Final(job.name, Sidecar) !in Finals(before) && Final(job.name, HashFile) !in Finals(before);
    assert Final(job.name, Sidecar) in end ==> Final(job.name, Sidecar) in Finals(end);
    assert Final(job.name, HashFile) in end ==> Final(job.name, HashFile) in Finals(end);
    if (pc >= 5 ==> Final(job.name, Sidecar) in gone) && (pc >= 6 ==> Final(job.name, HashFile) in gone) {
      forall f: File
        ensures (f in Finals(end) <==> f in Finals(before))
        ensures (f in Finals(end) ==> Finals(end)[f] == Finals(before)[f])
      {
        if !f.partial {
          FinalOf(d, job, pc, before, f);
          if f in before { NotTaken(before, f, job.name); }
          match f.role
          case Archive => assert f == Final(f.name, Archive);
          case Sidecar => assert f == Final(f.name, Sidecar);
          case HashFile => assert f == Final(f.name, HashFile);
        }
      }
    }
  }

  /**
   A publish that raises at any step, and whose clean-up has unlinks that raise, leaves exactly the final
   names it started from if and only if it raised before its first move, or enough unlinks succeeded.
   */
  lemma RaisedPublishLeavesNothing(hash: string -> string, s: State, e: Event, a: nat, n: nat)
    requires Inv(hash, s) && s.phase.Publishing? && Next(hash, s, e).phase.Cleaning?
    requires a <= |InnerList(s.phase.job.name, s.phase.pc)| && n <= |OuterList(s.phase.job.name, s.phase.pc)|
    ensures AfterCleanup(hash, Next(hash, s, e), a, n).phase.Idle?
    ensures Finals(AfterCleanup(hash, Next(hash, s, e), a, n).dir) == Finals(s.phase.before)
      <==> CleanedFarEnough(s.phase.pc, a, n)
  {
    var job, pc, before := s.phase.job, s.phase.pc, s.phase.before;
    var raised := Next(hash, s, e);
    assert Finals(raised.dir) == Finals(s.dir);
    CleanupLeaves(hash, raised, a, n);
    var gone := InnerList(job.name, pc)[..a] + OuterList(job.name, pc)[..n];
    FinalGone(job, pc, a, n);
    LeftFinals(raised.dir, job, pc, before, gone);
    WithoutBoth(raised.dir, InnerList(job.name, pc)[..a], OuterList(job.name, pc)[..n]);
  }

  lemma WithoutBoth(d: Dir, a: seq<File>, b: seq<File>)
    ensures Without(Without(d, a), b) == Without(d, a + b)
  {
  }

  /** A publish that raises after moving its sidecar, and whose first unlink raises too, leaves that name behind. */
  lemma StoppedCleanupLeavesSidecar(hash: string -> string, job: Job, bytes: string)
    requires FaithfulCopy(hash, job, bytes)
    ensures
      var s := Steps(hash, State(map[], Publishing(job, 0, map[])), bytes, 5);
      var raised := Next(hash, s, Advance(false, bytes));
      raised.phase.Cleaning? && Final(job.name, Sidecar) in AfterCleanup(hash, raised, 0, 0).dir
  {
    var s := State(map[], Publishing(job, 0, map[]));
    PublishProgress(hash, s, job, bytes, 5);
    FinalOf(Steps(hash, s, bytes, 5).dir, job, 5, map[], Final(job.name, Sidecar));
    CleanupLeaves(hash, Next(hash, Steps(hash, s, bytes, 5), Advance(false, bytes)), 0, 0);
  }

  /** A delete that gets through leaves none of the three names and every other file. */
  lemma DeleteCompletes(hash: string -> string, d: Dir, name: string)
    ensures var t := Steps(hash, Next(hash, State(d, Idle), BeginDelete(name)), "", 3);
      && t.phase.Idle?
      && t.dir == map f | f in d && (f.partial || f.name != name) :: d[f]
  {
    var s := Next(hash, State(d, Idle), BeginDelete(name));
    var s1, s2, s3 := Steps(hash, s, "", 1), Steps(hash, s, "", 2), Steps(hash, s, "", 3);
    assert Steps(hash, s, "", 0) == s;
    assert s1 == State(d - {Final(name, Archive)}, Deleting(name, 1, d));
    assert s2 == State(s1.dir - {Final(name, Sidecar)}, Deleting(name, 2, d));
    assert s3 == State(s2.dir - {Final(name, HashFile)}, Idle);
    forall f | f in d && !f.partial && f.name == name ensures f !in s3.dir {
      match f.role
      case Archive => assert f == Final(name, Archive);
      case Sidecar => assert f == Final(name, Sidecar);
      case HashFile => assert f == Final(name, HashFile);
    }
  }
}
