/**
 The server-maintenance action registry: one record per action and an executable folder per module.
 Records a module registered carry the hash of the copied executable; records an administrator wrote
 by hand carry none.
 */
module MaintenanceRegistry {
  import opened Common

  type Bytes = string
  type Hash = string
  type ModuleId = string
  type ActionId = string
  /** A path below the action root; the first part is a module's own folder. */
  type Path = seq<string>

  /** A registry file; `managed` when the helper wrote it from a module manifest. */
  datatype Record = Record(
    id: ActionId, owner: Option<ModuleId>, managed: bool, enabled: bool, exe: Path, sha: Option<Hash>,
    moduleRemoved: bool)

  /** A declared action; `exe` is its path below the module's executable folder, None when malformed. */
  datatype RawAction = RawAction(id: ActionId, exe: Option<Path>, isProtected: bool, wellFormed: bool)
  datatype Action = Action(id: ActionId, exe: Path, isProtected: bool)

  datatype State = State(actions: map<ActionId, Record>, exes: map<Path, Bytes>)

  predicate Under(m: ModuleId, p: Path) { p != [] && p[0] == m }

  predicate RawOk(m: ModuleId, a: RawAction) {
    a.wellFormed && m + "." < a.id && a.exe.Some? && a.exe.value != []
  }

  /** A declared action is well formed, named below its module, and has an executable. */
  lemma RawOkMeans(m: ModuleId, a: RawAction)
    ensures RawOk(m, a) <==>
      && a.wellFormed && a.exe.Some? && |a.exe.value| > 0
      && |a.id| > |m| + 1 && a.id[..|m| + 1] == m + "."
  {
  }

  predicate DistinctIds(actions: seq<Action>) {
    forall i, j :: 0 <= i < j < |actions| ==> actions[i].id != actions[j].id
  }

  /** Every entry is well formed and no id is declared twice. */
  ghost predicate Declares(m: ModuleId, raw: seq<RawAction>) {
    (forall a <- raw :: RawOk(m, a)) && (forall i, j :: 0 <= i < j < |raw| ==> raw[i].id != raw[j].id)
  }

  /** The declared actions of a manifest; None when an entry is malformed or declared twice. */
  method ModuleActions(m: ModuleId, raw: seq<RawAction>) returns (r: Option<seq<Action>>)
    ensures r.Some? <==> Declares(m, raw)
    ensures r.Some? ==> |r.value| == |raw| && DistinctIds(r.value)
    ensures r.Some? ==>
      forall i :: 0 <= i < |raw| ==>
        RawOk(m, raw[i]) && r.value[i] == Action(raw[i].id, raw[i].exe.value, raw[i].isProtected)
  {
    var actions: seq<Action> := [];
    var seen: set<ActionId> := {};
    for i := 0 to |raw|
      invariant |actions| == i
      invariant forall k :: 0 <= k < i ==>
        RawOk(m, raw[k]) && actions[k] == Action(raw[k].id, raw[k].exe.value, raw[k].isProtected)
      invariant forall j, k :: 0 <= j < k < i ==> raw[j].id != raw[k].id
      invariant forall x :: x in seen <==> exists k :: 0 <= k < i && raw[k].id == x
    {
      if !RawOk(m, raw[i]) || raw[i].id in seen { return None; }
      seen := seen + {raw[i].id};
      actions := actions + [Action(raw[i].id, raw[i].exe.value, raw[i].isProtected)];
    }
    return Some(actions);
  }

  // ----- Loading -----

  /** The action can be dispatched: enabled, under its own file name, with its executable as registered. */
  predicate Loadable(hash: Bytes -> Hash, s: State, id: ActionId) {
    && id in s.actions && s.actions[id].enabled && s.actions[id].id == id
    && s.actions[id].exe in s.exes
    && (s.actions[id].managed || s.actions[id].sha.Some? ==>
          s.actions[id].sha == Some(hash(s.exes[s.actions[id].exe])))
  }

  // ----- Specification of the writers -----

  predicate Owned(r: Record, m: ModuleId) {
    r.managed && r.owner == Some(m)
  }

  function WithoutOwned(actions: map<ActionId, Record>, m: ModuleId, keep: set<ActionId>): map<ActionId, Record> {
    map id | id in actions && !(Owned(actions[id], m) && actions[id].id !in keep) :: actions[id]
  }

  /** A hand registration that outlives its module: owned by it, or running from its folder. */
  predicate Survivor(r: Record, m: ModuleId) {
    !r.managed && (r.owner == Some(m) || Under(m, r.exe)) && r.enabled
  }

  function SurvivorsOff(actions: map<ActionId, Record>, m: ModuleId): map<ActionId, Record> {
    map id | id in actions ::
      if Survivor(actions[id], m) then actions[id].(enabled := false, moduleRemoved := true) else actions[id]
  }

  function AfterUnregister(s: State, m: ModuleId): State {
    State(SurvivorsOff(WithoutOwned(s.actions, m, {}), m), map p | p in s.exes && !Under(m, p) :: s.exes[p])
  }

  predicate Stageable(s: State, m: ModuleId, source: map<Path, Bytes>, a: Action) {
    a.isProtected
    || (a.exe in source && (a.id in s.actions && s.actions[a.id].owner.Some? ==> s.actions[a.id].owner == Some(m)))
  }

  function RecordFor(hash: Bytes -> Hash, m: ModuleId, source: map<Path, Bytes>, a: Action): Record
    requires a.exe in source
  {
    Record(a.id, Some(m), true, true, [m] + a.exe, Some(hash(source[a.exe])), false)
  }

  function Wanted(actions: seq<Action>): set<ActionId> {
    set i | 0 <= i < |actions| && !actions[i].isProtected :: actions[i].id
  }

  function WantedFiles(m: ModuleId, actions: seq<Action>): set<Path> {
    set i | 0 <= i < |actions| && !actions[i].isProtected :: [m] + actions[i].exe
  }

  predicate ManagedIn(registry: map<ActionId, Record>, id: ActionId) {
    id in registry && registry[id].managed
  }

  /** Ids an upgrade keeps: what it declares, and protected ones only when registered by hand. */
  function Keep(actions: seq<Action>, registry: map<ActionId, Record>): set<ActionId> {
    Wanted(actions)
    + set i | 0 <= i < |actions| && actions[i].isProtected && !ManagedIn(registry, actions[i].id) :: actions[i].id
  }

  class Registry {
    var actions: map<ActionId, Record>
    var exes: map<Path, Bytes>

    function Current(): State
      reads this
    {
      State(actions, exes)
    }

    method LoadAction(hash: Bytes -> Hash, id: ActionId) returns (r: Option<Record>)
      ensures r.Some? <==> Loadable(hash, Current(), id)
      ensures r.Some? ==> r.value == actions[id]
    {
      if id !in actions || !actions[id].enabled || actions[id].exe !in exes || actions[id].id != id { return None; }
      var record := actions[id];
      if record.managed || record.sha.Some? {
        if record.sha != Some(hash(exes[record.exe])) { return None; }
      }
      return Some(record);
    }

    method RemoveOwnedActions(m: ModuleId, keep: set<ActionId>)
      modifies this`actions
      ensures actions == WithoutOwned(old(actions), m, keep)
    {
      var left := actions.Keys;
      while left != {}
        invariant left <= old(actions).Keys
        invariant actions == map id |
          id in old(actions) && (id in left || !(Owned(old(actions)[id], m) && old(actions)[id].id !in keep))
          :: old(actions)[id]
        decreases left
      {
        var id :| id in left;
        left := left - {id};
        if Owned(actions[id], m) && actions[id].id !in keep { actions := actions - {id}; }
      }
    }

    method DisableSurvivors(m: ModuleId)
      modifies this`actions
      ensures actions == SurvivorsOff(old(actions), m)
    {
      var left := actions.Keys;
      while left != {}
        invariant left <= old(actions).Keys && actions.Keys == old(actions).Keys
        invariant forall id <- left :: actions[id] == old(actions)[id]
        invariant forall id <- actions :: id !in left ==> actions[id] == SurvivorsOff(old(actions), m)[id]
        decreases left
      {
        var id :| id in left;
        left := left - {id};
        if Survivor(actions[id], m) { actions := actions[id := actions[id].(enabled := false, moduleRemoved := true)]; }
      }
    }

    method UnregisterModule(m: ModuleId)
      modifies this
      ensures Current() == AfterUnregister(old(Current()), m)
    {
      RemoveOwnedActions(m, {});
      DisableSurvivors(m);
      exes := map p | p in exes && !Under(m, p) :: exes[p];
    }

    /** Copies the staged executables and writes their records, in declaration order. */
    method WriteStaged(hash: Bytes -> Hash, m: ModuleId, acts: seq<Action>, source: map<Path, Bytes>)
      requires DistinctIds(acts) && forall a <- acts :: !a.isProtected ==> a.exe in source
      modifies this
      ensures forall id: ActionId :: WrittenAt(hash, old(actions), actions, m, acts, source, id)
      ensures exes == Copied(old(exes), m, acts, source)
    {
      for i := 0 to |acts|
        invariant forall id: ActionId :: WrittenAt(hash, old(actions), actions, m, acts[..i], source, id)
        invariant exes == Copied(old(exes), m, acts[..i], source)
      {
        var a := acts[i];
        ghost var done, next := acts[..i], acts[..i + 1];
        assert next == done + [a] && a in acts;
        CopiedStep(old(exes), m, done, source, a);
        ghost var before := actions;
        if !a.isProtected {
          exes := exes[[m] + a.exe := source[a.exe]];
          actions := actions[a.id := RecordFor(hash, m, source, a)];
        }
        forall id: ActionId ensures WrittenAt(hash, old(actions), actions, m, next, source, id) {
          assert WrittenAt(hash, old(actions), before, m, done, source, id);
          WrittenStep(hash, old(actions), before, m, done, source, a, id);
        }
      }
      assert acts[..|acts|] == acts;
    }

    /** The writes of a registration, up to where it stops: executables and records, stale records, stale files. */
    method WriteAll(hash: Bytes -> Hash, m: ModuleId, acts: seq<Action>, source: map<Path, Bytes>, stop: Option<Stop>)
      returns (ok: bool)
      requires DistinctIds(acts) && forall a <- acts :: Stageable(Current(), m, source, a)
      modifies this
      ensures ok <==> !Stops(stop, acts)
      ensures ok ==> Registered(hash, old(Current()), Current(), m, acts, source)
      ensures Interrupted(hash, old(Current()), Current(), m, acts, source)
    {
      ghost var s := Current();
      if stop.Some? && stop.value.InWrites? && stop.value.k < |acts| {
        var k := stop.value.k;
        assert forall a <- acts[..k] :: a in acts;
        WriteStaged(hash, m, acts[..k], source);
        if stop.value.half && !acts[k].isProtected {
          assert acts[k] in acts;
          exes := exes[[m] + acts[k].exe := source[acts[k].exe]];
        }
        PartWritten(hash, s.actions, actions, m, acts, k, source);
        return false;
      }
      WriteStaged(hash, m, acts, source);
      ghost var written := actions;
      assert acts[..|acts|] == acts;
      PartWritten(hash, s.actions, written, m, acts, |acts|, source);
      var spared := if stop.Some? && stop.value.InDrop? then stop.value.records else {};
      RemoveOwnedActions(m, Keep(acts, actions) + spared);
      PartDropped(hash, s.actions, written, m, acts, source, Keep(acts, written) + spared);
      if stop.Some? && stop.value.InDrop? { return false; }
      if stop.Some? && stop.value.InStale? {
        exes := map p | p in exes && (!Under(m, p) || p in WantedFiles(m, acts) || p in stop.value.files) :: exes[p];
        return false;
      }
      exes := Fresh(exes, m, acts);
      assert Keep(acts, written) + {} == Keep(acts, written);
      RecordsRegistered(hash, s, written, m, acts, source);
      FilesRegistered(s.exes, m, acts, source);
      return true;
    }

    /** Registers what an installed module declares and drops what it no longer declares. */
    method RegisterModule(
      hash: Bytes -> Hash, m: ModuleId, raw: seq<RawAction>, source: map<Path, Bytes>, stop: Option<Stop>
    ) returns (ok: bool, acts: seq<Action>)
      modifies this
      ensures ok <==> CanRegister(old(Current()), m, raw, source) && !Stops(stop, acts)
      ensures !CanRegister(old(Current()), m, raw, source) ==> Current() == old(Current())
      ensures CanRegister(old(Current()), m, raw, source) ==>
        Declared(raw, acts) && Interrupted(hash, old(Current()), Current(), m, acts, source)
      ensures ok ==> DistinctIds(acts) && Registered(hash, old(Current()), Current(), m, acts, source)
    {
      acts := [];
      var declared := ModuleActions(m, raw);
      if declared.None? { return false, []; }
      acts := declared.value;
      for i := 0 to |acts|
        invariant forall k :: 0 <= k < i ==> Stageable(Current(), m, source, acts[k])
      {
        if !Stageable(Current(), m, source, acts[i]) {
          assert raw[i] in raw;
          return false, acts;
        }
      }
      ok := WriteAll(hash, m, acts, source, stop);
    }
  }

  /**
   Where a registration stops: before or within the k-th action's two writes, among the stale records,
   or the stale files.
   */
  datatype Stop = InWrites(k: nat, half: bool) | InDrop(records: set<ActionId>) | InStale(files: set<Path>)

  predicate Stops(stop: Option<Stop>, acts: seq<Action>) {
    stop.Some? && (stop.value.InWrites? ==> stop.value.k < |acts|)
  }

  ghost predicate CanRegister(s: State, m: ModuleId, raw: seq<RawAction>, source: map<Path, Bytes>) {
    && Declares(m, raw)
    && forall a <- raw :: a.exe.Some? ==> Stageable(s, m, source, Action(a.id, a.exe.value, a.isProtected))
  }

  /** The actions of a manifest, field by field. */
  ghost predicate Declared(raw: seq<RawAction>, acts: seq<Action>) {
    && |acts| == |raw|
    && forall i :: 0 <= i < |raw| ==>
         raw[i].exe == Some(acts[i].exe) && acts[i] == Action(raw[i].id, acts[i].exe, raw[i].isProtected)
  }

  // ----- A registration that stops -----

  ghost predicate FreshRecord(
    hash: Bytes -> Hash, m: ModuleId, acts: seq<Action>, source: map<Path, Bytes>, id: ActionId, r: Record
  ) {
    exists a <- acts :: !a.isProtected && a.id == id && a.exe in source && r == RecordFor(hash, m, source, a)
  }

  /**
   Every record is as before or freshly declared, and no record is lost that is neither declared nor
   the module's own.
   */
  ghost predicate PartRecords(
    hash: Bytes -> Hash, before: map<ActionId, Record>, now: map<ActionId, Record>, m: ModuleId,
    acts: seq<Action>, source: map<Path, Bytes>
  ) {
    && (forall id <- now :: (id in before && now[id] == before[id]) || FreshRecord(hash, m, acts, source, id, now[id]))
    && (forall id <- before :: !Owned(before[id], m) && id !in Wanted(acts) ==> id in now)
  }

  ghost predicate SameFilesElsewhere(before: map<Path, Bytes>, now: map<Path, Bytes>, m: ModuleId) {
    forall p: Path :: !Under(m, p) ==> (p in now <==> p in before) && (p in now ==> now[p] == before[p])
  }

  /** A registration stopped anywhere. */
  ghost predicate Interrupted(
    hash: Bytes -> Hash, s: State, s': State, m: ModuleId, acts: seq<Action>, source: map<Path, Bytes>
  ) {
    && (forall a <- acts :: Stageable(s, m, source, a))
    && PartRecords(hash, s.actions, s'.actions, m, acts, source) && SameFilesElsewhere(s.exes, s'.exes, m)
  }

  lemma PartWritten(
    hash: Bytes -> Hash, before: map<ActionId, Record>, now: map<ActionId, Record>, m: ModuleId,
    acts: seq<Action>, k: nat, source: map<Path, Bytes>
  )
    requires k <= |acts| && forall id: ActionId :: WrittenAt(hash, before, now, m, acts[..k], source, id)
    ensures PartRecords(hash, before, now, m, acts, source)
  {
    forall id | id in now
      ensures (id in before && now[id] == before[id]) || FreshRecord(hash, m, acts, source, id, now[id])
    {
      assert WrittenAt(hash, before, now, m, acts[..k], source, id);
      if id in Wanted(acts[..k]) {
        var a := WantedAction(acts[..k], id);
        assert a in acts;
      }
    }
    forall id | id in before && id !in Wanted(acts) ensures id in now {
      assert WrittenAt(hash, before, now, m, acts[..k], source, id);
      if id in Wanted(acts[..k]) {
        var a := WantedAction(acts[..k], id);
        WantedFile(m, acts, a);
      }
    }
  }

  lemma FreshIsWanted(
    hash: Bytes -> Hash, m: ModuleId, acts: seq<Action>, source: map<Path, Bytes>, id: ActionId, r: Record
  )
    requires FreshRecord(hash, m, acts, source, id, r)
    ensures id in Wanted(acts)
  {
    var a :| a in acts && !a.isProtected && a.id == id;
    WantedFile(m, acts, a);
  }

  lemma PartDropped(
    hash: Bytes -> Hash, before: map<ActionId, Record>, now: map<ActionId, Record>, m: ModuleId,
    acts: seq<Action>, source: map<Path, Bytes>, keep: set<ActionId>
  )
    requires PartRecords(hash, before, now, m, acts, source)
    ensures PartRecords(hash, before, WithoutOwned(now, m, keep), m, acts, source)
  {
    forall id | id in before && !Owned(before[id], m) && id !in Wanted(acts) ensures id in WithoutOwned(now, m, keep) {
      if FreshRecord(hash, m, acts, source, id, now[id]) { FreshIsWanted(hash, m, acts, source, id, now[id]); }
    }
  }

  /** The record at `id` once the unprotected actions of `acts` are written. */
  ghost predicate WrittenAt(hash: Bytes -> Hash, before: map<ActionId, Record>, now: map<ActionId, Record>, m: ModuleId,
                            acts: seq<Action>, source: map<Path, Bytes>, id: ActionId)
  {
    && (forall a <- acts :: !a.isProtected && a.id == id ==>
          a.exe in source && id in now && now[id] == RecordFor(hash, m, source, a))
    && (id !in Wanted(acts) ==> (id in now <==> id in before) && (id in now ==> now[id] == before[id]))
  }

  lemma WantedPush(acts: seq<Action>, a: Action, id: ActionId)
    ensures id in Wanted(acts + [a]) <==> id in Wanted(acts) || (!a.isProtected && id == a.id)
  {
    var more := acts + [a];
    assert more[|acts|] == a && forall i :: 0 <= i < |acts| ==> more[i] == acts[i];
    if id in Wanted(acts) {
      var i :| 0 <= i < |acts| && !acts[i].isProtected && acts[i].id == id;
      assert more[i].id == id;
    }
  }

  lemma WrittenStep(hash: Bytes -> Hash, before: map<ActionId, Record>, now: map<ActionId, Record>, m: ModuleId,
                    acts: seq<Action>, source: map<Path, Bytes>, a: Action, id: ActionId)
    requires WrittenAt(hash, before, now, m, acts, source, id) && DistinctIds(acts + [a])
    requires (!a.isProtected ==> a.exe in source)
    ensures WrittenAt(hash, before, if a.isProtected then now else now[a.id := RecordFor(hash, m, source, a)],
      m, acts + [a], source, id)
  {
    WantedPush(acts, a, id);
    forall x | x in acts ensures x.id != a.id {
      var i :| 0 <= i < |acts| && acts[i] == x;
      assert (acts + [a])[i] == x && (acts + [a])[|acts|] == a;
    }
  }

  function Copied(exes: map<Path, Bytes>, m: ModuleId, acts: seq<Action>, source: map<Path, Bytes>): map<Path, Bytes> {
    map p | p in exes.Keys + WantedFiles(m, acts) && (p in WantedFiles(m, acts) ==> p != [] && p[1..] in source) ::
      if p in WantedFiles(m, acts) then source[p[1..]] else exes[p]
  }

  lemma WantedFilesPush(m: ModuleId, acts: seq<Action>, a: Action)
    ensures WantedFiles(m, acts + [a]) == WantedFiles(m, acts) + (if a.isProtected then {} else {[m] + a.exe})
  {
    var more := acts + [a];
    assert more[|acts|] == a && forall i :: 0 <= i < |acts| ==> more[i] == acts[i];
    forall p | p in WantedFiles(m, acts) ensures p in WantedFiles(m, more) {
      var i :| 0 <= i < |acts| && !acts[i].isProtected && [m] + acts[i].exe == p;
      assert [m] + more[i].exe == p;
    }
  }

  lemma CopiedStep(exes: map<Path, Bytes>, m: ModuleId, acts: seq<Action>, source: map<Path, Bytes>, a: Action)
    requires !a.isProtected ==> a.exe in source
    ensures Copied(exes, m, acts + [a], source) ==
      if a.isProtected then Copied(exes, m, acts, source)
      else Copied(exes, m, acts, source)[[m] + a.exe := source[a.exe]]
  {
    WantedFilesPush(m, acts, a);
    assert ([m] + a.exe)[1..] == a.exe;
  }

  /** The executables without the stale files of the module's folder. */
  function Fresh(exes: map<Path, Bytes>, m: ModuleId, acts: seq<Action>): map<Path, Bytes> {
    map p | p in exes && (!Under(m, p) || p in WantedFiles(m, acts)) :: exes[p]
  }

  lemma FilesRegistered(exes: map<Path, Bytes>, m: ModuleId, acts: seq<Action>, source: map<Path, Bytes>)
    requires forall a <- acts :: !a.isProtected ==> a.exe in source
    ensures FilesOf(exes, Fresh(Copied(exes, m, acts, source), m, acts), m, acts, source)
  {
    forall p | p in WantedFiles(m, acts) ensures Under(m, p) && p[1..] in source {
      var i :| 0 <= i < |acts| && !acts[i].isProtected && [m] + acts[i].exe == p;
      assert p[1..] == acts[i].exe && acts[i] in acts;
    }
  }

  lemma RecordsRegistered(
    hash: Bytes -> Hash, s: State, written: map<ActionId, Record>, m: ModuleId, acts: seq<Action>,
    source: map<Path, Bytes>
  )
    requires forall id: ActionId :: WrittenAt(hash, s.actions, written, m, acts, source, id)
    ensures RecordsOf(hash, s.actions, WithoutOwned(written, m, Keep(acts, written)), m, acts, source)
  {
    var now := WithoutOwned(written, m, Keep(acts, written));
    forall a | a in acts && !a.isProtected
      ensures a.exe in source && a.id in now && now[a.id] == RecordFor(hash, m, source, a)
    {
      assert WrittenAt(hash, s.actions, written, m, acts, source, a.id);
      var i :| 0 <= i < |acts| && acts[i] == a;
      assert a.id in Wanted(acts);
    }
    forall id: ActionId | id !in Wanted(acts) ensures OtherRecord(s.actions, now, m, acts, id) {
      assert WrittenAt(hash, s.actions, written, m, acts, source, id);
    }
  }

  /** A record outside the declared ids: unchanged, or dropped because the module owned it. */
  ghost predicate OtherRecord(
    before: map<ActionId, Record>, now: map<ActionId, Record>, m: ModuleId, acts: seq<Action>, id: ActionId
  ) {
    && (id in now ==> id in before && now[id] == before[id])
    && (id in before && !Owned(before[id], m) ==> id in now)
    && (id in now && Owned(now[id], m) ==> now[id].id in Wanted(acts) || ProtectedByHand(acts, now, now[id].id))
  }

  ghost predicate ProtectedByHand(acts: seq<Action>, now: map<ActionId, Record>, id: ActionId) {
    !(id in now && now[id].managed) && exists a <- acts :: a.isProtected && a.id == id
  }

  ghost predicate RecordsOf(hash: Bytes -> Hash, before: map<ActionId, Record>, now: map<ActionId, Record>, m: ModuleId,
                            acts: seq<Action>, source: map<Path, Bytes>)
  {
    && (forall a <- acts :: !a.isProtected ==>
          a.exe in source && a.id in now && now[a.id] == RecordFor(hash, m, source, a))
    && (forall id: ActionId :: id !in Wanted(acts) ==> OtherRecord(before, now, m, acts, id))
  }

  ghost predicate FilesOf(
    before: map<Path, Bytes>, now: map<Path, Bytes>, m: ModuleId, acts: seq<Action>, source: map<Path, Bytes>
  ) {
    && (forall p: Path :: !Under(m, p) ==> (p in now <==> p in before) && (p in now ==> now[p] == before[p]))
    && (forall p: Path :: Under(m, p) ==>
          (p in now <==> p in WantedFiles(m, acts)) && (p in now ==> p[1..] in source && now[p] == source[p[1..]]))
  }

  /** A completed registration: the declared records, no other owned one, exactly the declared files. */
  ghost predicate Registered(
    hash: Bytes -> Hash, s: State, s': State, m: ModuleId, acts: seq<Action>, source: map<Path, Bytes>
  ) {
    && (forall a <- acts :: Stageable(s, m, source, a))
    && RecordsOf(hash, s.actions, s'.actions, m, acts, source)
    && FilesOf(s.exes, s'.exes, m, acts, source)
  }

  // ----- Agreement over runs -----

  /** A managed record is filed under its id, runs from its owner's folder, and hashes to what is there. */
  ghost predicate AgreesAt(hash: Bytes -> Hash, s: State, id: ActionId) {
    id in s.actions && s.actions[id].managed ==>
      var r := s.actions[id];
      r.id == id && r.owner.Some? && Under(r.owner.value, r.exe)
      && r.exe in s.exes && r.sha == Some(hash(s.exes[r.exe]))
  }

  ghost predicate Agrees(hash: Bytes -> Hash, s: State) {
    forall id: ActionId :: AgreesAt(hash, s, id)
  }

  lemma WantedAction(acts: seq<Action>, id: ActionId) returns (a: Action)
    requires id in Wanted(acts)
    ensures a in acts && !a.isProtected && a.id == id
  {
    var i :| 0 <= i < |acts| && !acts[i].isProtected && acts[i].id == id;
    a := acts[i];
  }

  lemma WantedFile(m: ModuleId, acts: seq<Action>, a: Action)
    requires a in acts && !a.isProtected
    ensures [m] + a.exe in WantedFiles(m, acts) && ([m] + a.exe)[1..] == a.exe && a.id in Wanted(acts)
  {
    var i :| 0 <= i < |acts| && acts[i] == a;
  }

  /**
   After a registration the managed records the module owns are exactly its unprotected declared
   actions, each agreeing with the executable on disk; the folder holds exactly those executables; and
   every record of another module is as before.
   */
  lemma RegisterAgrees(
    hash: Bytes -> Hash, s: State, s': State, m: ModuleId, acts: seq<Action>, source: map<Path, Bytes>
  )
    requires Agrees(hash, s) && Registered(hash, s, s', m, acts, source)
    ensures Agrees(hash, s')
    ensures forall id: ActionId :: id in s'.actions && Owned(s'.actions[id], m) <==> id in Wanted(acts)
    ensures forall p: Path :: Under(m, p) ==> (p in s'.exes <==> p in WantedFiles(m, acts))
    ensures forall id <- s.actions :: s.actions[id].owner.Some? && s.actions[id].owner != Some(m) ==>
      id in s'.actions && s'.actions[id] == s.actions[id]
  {
    forall id: ActionId
      ensures AgreesAt(hash, s', id) && (id in s'.actions && Owned(s'.actions[id], m) <==> id in Wanted(acts))
    {
      if id in Wanted(acts) {
        var a := WantedAction(acts, id);
        WantedFile(m, acts, a);
        assert Under(m, [m] + a.exe);
      } else {
        assert OtherRecord(s.actions, s'.actions, m, acts, id) && AgreesAt(hash, s, id);
        if id in s'.actions && s'.actions[id].managed {
          assert s'.actions[id].owner != Some(m);
          assert !Under(m, s'.actions[id].exe);
        }
      }
    }
    forall id | id in s.actions && s.actions[id].owner.Some? && s.actions[id].owner != Some(m)
      ensures id in s'.actions && s'.actions[id] == s.actions[id]
    {
      if id in Wanted(acts) {
        var a := WantedAction(acts, id);
        assert false;
      } else {
        assert OtherRecord(s.actions, s'.actions, m, acts, id);
      }
    }
  }

  /** When a manifest registers, field by field. */
  lemma CanRegisterMeans(s: State, m: ModuleId, raw: seq<RawAction>, source: map<Path, Bytes>)
    ensures CanRegister(s, m, raw, source) <==>
      && (forall i, j :: 0 <= i < |raw| && 0 <= j < |raw| && raw[i].id == raw[j].id ==> i == j)
      && forall a <- raw ::
           && a.wellFormed && m + "." < a.id && a.exe.Some? && a.exe.value != []
           && (!a.isProtected ==>
                 a.exe.value in source && (a.id in s.actions ==> s.actions[a.id].owner in {None, Some(m)}))
  {
    if CanRegister(s, m, raw, source) {
      forall a | a in raw && !a.isProtected
        ensures a.exe.Some? && a.exe.value in source && (a.id in s.actions ==> s.actions[a.id].owner in {None, Some(m)})
      {
        assert RawOk(m, a) && Stageable(s, m, source, Action(a.id, a.exe.value, a.isProtected));
      }
    }
  }

  /** After a registration every declared, unprotected action can be loaded. */
  lemma RegisteredCanBeLoaded(
    hash: Bytes -> Hash, s: State, s': State, m: ModuleId, acts: seq<Action>, source: map<Path, Bytes>, a: Action
  )
    requires Registered(hash, s, s', m, acts, source) && a in acts && !a.isProtected
    ensures Loadable(hash, s', a.id) && s'.actions[a.id].exe == [m] + a.exe && s'.actions[a.id].owner == Some(m)
    ensures a.exe in source && s'.exes[[m] + a.exe] == source[a.exe]
    ensures s'.actions[a.id].managed && s'.actions[a.id].sha == Some(hash(source[a.exe]))
    ensures !s'.actions[a.id].moduleRemoved
  {
    WantedFile(m, acts, a);
    assert Under(m, [m] + a.exe);
  }

  /** No enabled record runs anything under the module's folder. */
  ghost predicate Silent(s: State, m: ModuleId) {
    forall id <- s.actions :: s.actions[id].enabled ==> !Under(m, s.actions[id].exe)
  }

  /** Removing a module leaves other modules' managed records and files alone and silences its folder. */
  lemma UnregisterSilences(hash: Bytes -> Hash, s: State, m: ModuleId)
    requires Agrees(hash, s)
    ensures Agrees(hash, AfterUnregister(s, m)) && Silent(AfterUnregister(s, m), m)
    ensures forall id <- s.actions :: s.actions[id].managed && s.actions[id].owner != Some(m) ==>
      id in AfterUnregister(s, m).actions && AfterUnregister(s, m).actions[id] == s.actions[id]
    ensures forall id <- AfterUnregister(s, m).actions :: !Owned(AfterUnregister(s, m).actions[id], m)
  {
    var s' := AfterUnregister(s, m);
    forall id: ActionId ensures AgreesAt(hash, s', id) {
      assert AgreesAt(hash, s, id);
    }
    forall id | id in s'.actions && s'.actions[id].enabled ensures !Under(m, s'.actions[id].exe) {
      assert AgreesAt(hash, s, id);
    }
  }

  /**
   What a removal does to each record: drops the module's own, switches off and marks its hand-written
   ones, keeps the rest.
   */
  lemma RemovalOf(s: State, m: ModuleId, id: ActionId)
    requires id in s.actions
    ensures
      var r, after := s.actions[id], AfterUnregister(s, m).actions;
      var its := r.owner == Some(m) || (r.exe != [] && r.exe[0] == m);
      && (id in after <==> !(r.managed && r.owner == Some(m)))
      && (!r.managed && r.enabled && its ==> after[id] == r.(enabled := false, moduleRemoved := true))
      && (!r.managed && !(r.enabled && its) ==> after[id] == r)
      && (r.managed && r.owner != Some(m) ==> after[id] == r)
    ensures var exes := AfterUnregister(s, m).exes;
      && (forall p <- exes :: p in s.exes && exes[p] == s.exes[p])
      && (forall p <- s.exes :: p in exes <==> p == [] || p[0] != m)
  {
  }

  /** When an action can be staged: protected ones always, others with their executable there and no other owner. */
  lemma StageableMeans(s: State, m: ModuleId, source: map<Path, Bytes>, a: Action)
    ensures Stageable(s, m, source, a) <==>
      (!a.isProtected ==> a.exe in source && (a.id in s.actions ==> s.actions[a.id].owner in {None, Some(m)}))
  {
  }

  /** A removal silences the module's folder, if and only if no enabled record marked as another's runs from it. */
  lemma SilentExactly(s: State, m: ModuleId)
    ensures Silent(AfterUnregister(s, m), m) <==>
      forall id <- s.actions :: s.actions[id].managed && s.actions[id].enabled && s.actions[id].owner != Some(m) ==>
        !Under(m, s.actions[id].exe)
    ensures Structured(s) ==> Silent(AfterUnregister(s, m), m)
  {
    var s' := AfterUnregister(s, m);
    forall id | id in s.actions && s.actions[id].managed && s.actions[id].owner != Some(m)
      ensures id in s'.actions && s'.actions[id] == s.actions[id]
    {
    }
  }

  /** A managed record is filed under its id and runs from its owner's folder, whatever is on the disk. */
  ghost predicate Structured(s: State) {
    forall id <- s.actions :: s.actions[id].managed ==> s.actions[id].id == id && InOwnFolder(s.actions[id])
  }

  predicate InOwnFolder(r: Record) {
    r.owner.Some? && Under(r.owner.value, r.exe)
  }

  /** In a structured registry a managed action that can be loaded agrees with the disk. */
  lemma LoadableAgrees(hash: Bytes -> Hash, s: State, id: ActionId)
    requires Structured(s) && Loadable(hash, s, id)
    ensures AgreesAt(hash, s, id)
  {
  }

  lemma AgreesIsStructured(hash: Bytes -> Hash, s: State)
    requires Agrees(hash, s)
    ensures Structured(s)
  {
    forall id | id in s.actions && s.actions[id].managed ensures s.actions[id].id == id && InOwnFolder(s.actions[id]) {
      assert AgreesAt(hash, s, id);
    }
  }

  /**
   Registering, with or without a stop on the way, removing, registering and unregistering one action by
   hand, and a later package dropping a file into a folder.
   */
  datatype Step =
    | Register(m: ModuleId, acts: seq<Action>, source: map<Path, Bytes>, result: State)
    | StoppedRegister(m: ModuleId, acts: seq<Action>, source: map<Path, Bytes>, result: State)
    | Unregister(m: ModuleId)
    | HandRegister(record: Record)
    | HandUnregister(id: ActionId)
    | DropFile(path: Path, bytes: Bytes)

  ghost predicate StepOk(hash: Bytes -> Hash, s: State, step: Step) {
    match step
    case Register(m, acts, source, result) => Registered(hash, s, result, m, acts, source)
    case StoppedRegister(m, acts, source, result) => Interrupted(hash, s, result, m, acts, source)
    case _ => true
  }

  ghost function AfterStep(s: State, step: Step): State {
    match step
    case Register(_, _, _, result) => result
    case StoppedRegister(_, _, _, result) => result
    case Unregister(m) => AfterUnregister(s, m)
    case HandRegister(record) => s.(actions := s.actions[record.id := record])
    case HandUnregister(id) => s.(actions := s.actions - {id})
    case DropFile(path, bytes) => s.(exes := s.exes[path := bytes])
  }

  /**
   A dropped file is not laid over a registered executable, unless it hashes the same; a record an
   administrator marks as a module's own is one.
   */
  ghost predicate StepFits(hash: Bytes -> Hash, s: State, step: Step) {
    match step
    case DropFile(path, bytes) =>
      forall id <- s.actions :: s.actions[id].managed && s.actions[id].exe == path ==>
        s.actions[id].sha == Some(hash(bytes))
    case HandRegister(r) =>
      r.managed ==> InOwnFolder(r) && r.exe in s.exes && r.sha == Some(hash(s.exes[r.exe]))
    case _ => true
  }

  ghost predicate RegistersAgain(step: Step, m: ModuleId) {
    ((step.Register? || step.StoppedRegister?) && step.m == m) || (step.HandRegister? && Under(m, step.record.exe))
  }

  /** Every step that is not stopped keeps the agreement, if and only if it fits. */
  lemma StepAgrees(hash: Bytes -> Hash, s: State, step: Step)
    requires Agrees(hash, s) && StepOk(hash, s, step) && !step.StoppedRegister?
    ensures Agrees(hash, AfterStep(s, step)) <==> StepFits(hash, s, step)
  {
    var after := AfterStep(s, step);
    match step
    case Register(m, acts, source, result) => RegisterAgrees(hash, s, result, m, acts, source);
    case Unregister(m) => UnregisterSilences(hash, s, m);
    case HandRegister(record) =>
      forall id: ActionId | id != record.id ensures AgreesAt(hash, after, id) { assert AgreesAt(hash, s, id); }
      assert AgreesAt(hash, after, record.id) <==> StepFits(hash, s, step);
    case HandUnregister(gone) =>
      forall id: ActionId ensures AgreesAt(hash, after, id) { assert AgreesAt(hash, s, id); }
    case DropFile(path, bytes) =>
      if StepFits(hash, s, step) {
        forall id: ActionId ensures AgreesAt(hash, after, id) { assert AgreesAt(hash, s, id); }
      } else {
        var id :|
          id in s.actions && s.actions[id].managed && s.actions[id].exe == path
          && s.actions[id].sha != Some(hash(bytes));
        assert !AgreesAt(hash, after, id);
      }
  }

  ghost predicate HandSound(step: Step) {
    step.HandRegister? && step.record.managed ==> InOwnFolder(step.record)
  }

  lemma FreshIsStructured(
    hash: Bytes -> Hash, m: ModuleId, acts: seq<Action>, source: map<Path, Bytes>, id: ActionId, r: Record
  )
    requires FreshRecord(hash, m, acts, source, id, r)
    ensures r.id == id && r.owner == Some(m) && Under(m, r.exe)
  {
  }

  lemma PartStructured(
    hash: Bytes -> Hash, s: State, s': State, m: ModuleId, acts: seq<Action>, source: map<Path, Bytes>
  )
    requires Structured(s) && PartRecords(hash, s.actions, s'.actions, m, acts, source)
    ensures Structured(s')
  {
    forall id | id in s'.actions && s'.actions[id].managed
      ensures s'.actions[id].id == id && InOwnFolder(s'.actions[id])
    {
      if FreshRecord(hash, m, acts, source, id, s'.actions[id]) {
        FreshIsStructured(hash, m, acts, source, id, s'.actions[id]);
      }
    }
  }

  /** A completed registration is one of the ways a registration may end. */
  lemma RegisteredIsPart(
    hash: Bytes -> Hash, s: State, s': State, m: ModuleId, acts: seq<Action>, source: map<Path, Bytes>
  )
    requires Registered(hash, s, s', m, acts, source)
    ensures Interrupted(hash, s, s', m, acts, source)
  {
    forall id | id in s'.actions
      ensures (id in s.actions && s'.actions[id] == s.actions[id])
        || FreshRecord(hash, m, acts, source, id, s'.actions[id])
    {
      if id in Wanted(acts) {
        var a := WantedAction(acts, id);
        assert FreshRecord(hash, m, acts, source, id, s'.actions[id]);
      } else {
        assert OtherRecord(s.actions, s'.actions, m, acts, id);
      }
    }
    forall id | id in s.actions && !Owned(s.actions[id], m) && id !in Wanted(acts) ensures id in s'.actions {
      assert OtherRecord(s.actions, s'.actions, m, acts, id);
    }
  }

  lemma StepStructured(hash: Bytes -> Hash, s: State, step: Step)
    requires Structured(s) && StepOk(hash, s, step) && HandSound(step)
    ensures Structured(AfterStep(s, step))
  {
    match step
    case Register(m, acts, source, result) =>
      RegisteredIsPart(hash, s, result, m, acts, source);
      PartStructured(hash, s, result, m, acts, source);
    case StoppedRegister(m, acts, source, result) => PartStructured(hash, s, result, m, acts, source);
    case _ =>
  }

  lemma StepStaysSilent(hash: Bytes -> Hash, s: State, step: Step, m: ModuleId)
    requires Silent(s, m) && StepOk(hash, s, step) && !RegistersAgain(step, m)
    ensures Silent(AfterStep(s, step), m)
  {
    if step.Register? || step.StoppedRegister? {
      if step.Register? { RegisteredIsPart(hash, s, step.result, step.m, step.acts, step.source); }
      forall id | id in step.result.actions && step.result.actions[id].enabled
        ensures !Under(m, step.result.actions[id].exe)
      {
        if FreshRecord(hash, step.m, step.acts, step.source, id, step.result.actions[id]) {
          FreshIsStructured(hash, step.m, step.acts, step.source, id, step.result.actions[id]);
        }
      }
    }
  }

  ghost predicate RunOk(hash: Bytes -> Hash, s: State, steps: seq<Step>)
    decreases |steps|
  {
    steps == [] || (StepOk(hash, s, steps[0]) && RunOk(hash, AfterStep(s, steps[0]), steps[1..]))
  }

  ghost function AfterRun(s: State, steps: seq<Step>): State
    decreases |steps|
  {
    if steps == [] then s else AfterRun(AfterStep(s, steps[0]), steps[1..])
  }

  ghost predicate StepsFit(hash: Bytes -> Hash, s: State, steps: seq<Step>)
    decreases |steps|
  {
    steps == []
    || (&& !steps[0].StoppedRegister? && StepFits(hash, s, steps[0])
        && StepsFit(hash, AfterStep(s, steps[0]), steps[1..]))
  }

  /**
   Whatever stops on the way and whatever files are dropped: a managed action that can be loaded is filed
   under its id, runs from its owner's folder, and hashes to what is there.
   */
  lemma {:induction false} RunsLoadOnlyAgreeing(hash: Bytes -> Hash, s: State, steps: seq<Step>, id: ActionId)
    requires Structured(s) && RunOk(hash, s, steps) && forall step <- steps :: HandSound(step)
    ensures Structured(AfterRun(s, steps))
    ensures Loadable(hash, AfterRun(s, steps), id) ==> AgreesAt(hash, AfterRun(s, steps), id)
    decreases |steps|
  {
    if steps == [] {
      if Loadable(hash, s, id) { LoadableAgrees(hash, s, id); }
    } else {
      assert steps[0] in steps && forall step <- steps[1..] :: step in steps;
      StepStructured(hash, s, steps[0]);
      RunsLoadOnlyAgreeing(hash, AfterStep(s, steps[0]), steps[1..], id);
    }
  }

  /** In every run whose steps fit and do not stop half-way, all managed records agree with the disk. */
  lemma {:induction false} RunsAgree(hash: Bytes -> Hash, s: State, steps: seq<Step>)
    requires Agrees(hash, s) && RunOk(hash, s, steps) && StepsFit(hash, s, steps)
    ensures Agrees(hash, AfterRun(s, steps))
    decreases |steps|
  {
    if steps != [] {
      StepAgrees(hash, s, steps[0]);
      RunsAgree(hash, AfterStep(s, steps[0]), steps[1..]);
    }
  }

  lemma {:induction false} RunsStaySilent(hash: Bytes -> Hash, s: State, steps: seq<Step>, m: ModuleId)
    requires Silent(s, m) && RunOk(hash, s, steps) && forall step <- steps :: !RegistersAgain(step, m)
    ensures Silent(AfterRun(s, steps), m)
    decreases |steps|
  {
    if steps != [] {
      assert steps[0] in steps && forall step <- steps[1..] :: step in steps;
      StepStaysSilent(hash, s, steps[0], m);
      RunsStaySilent(hash, AfterStep(s, steps[0]), steps[1..], m);
    }
  }

  /**
   Once a module is removed, no action with an executable under its folder can be loaded, whatever a
   later package puts there, until the module or such an action is registered again.
   */
  lemma RemovedModuleStaysUnloadable(hash: Bytes -> Hash, s: State, m: ModuleId, steps: seq<Step>, id: ActionId)
    requires Structured(s) && RunOk(hash, AfterUnregister(s, m), steps)
    requires forall step <- steps :: !RegistersAgain(step, m)
    ensures var end := AfterRun(AfterUnregister(s, m), steps);
      Loadable(hash, end, id) ==> !Under(m, end.actions[id].exe)
  {
    SilentExactly(s, m);
    RunsStaySilent(hash, AfterUnregister(s, m), steps, m);
  }
}
