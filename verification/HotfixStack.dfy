/**
 Module hotfixes: hash-bound overlays of installed module files, applied and rolled back last in first
 out, with the files put back when an apply fails part-way.
 */
module HotfixStack {
  import opened Common

  type Bytes = string
  type Hash = string
  type HotfixId = string

  datatype Component = Extension | Reportset
  datatype Key = Key(component: Component, path: string)

  /** A target row of a hotfix manifest; a field is None when its own check refuses it. */
  datatype RawRow = RawRow(
    component: Option<Component>, path: Option<string>, before: Option<Hash>, after: Option<Hash>)
  datatype Row = Row(key: Key, before: Hash, after: Hash)

  predicate WellFormed(r: RawRow) {
    r.component.Some? && r.path.Some? && r.before.Some? && r.after.Some?
  }

  function RowOf(r: RawRow): Row
    requires WellFormed(r)
  {
    Row(Key(r.component.value, r.path.value), r.before.value, r.after.value)
  }

  function KeysOf(rows: seq<Row>): set<Key> {
    set i | 0 <= i < |rows| :: rows[i].key
  }

  predicate DistinctKeys(rows: seq<Row>) {
    forall i, j :: 0 <= i < j < |rows| ==> rows[i].key != rows[j].key
  }

  /** A hotfix manifest; `identityOk` when module id, hotfix id and base version pass their checks. */
  datatype Manifest = Manifest(identityOk: bool, rows: seq<RawRow>)

  /** The rows a manifest declares, or None when `NormalizeTargets` refuses it. */
  function Normalized(m: Manifest): (r: Option<seq<Row>>)
    ensures r.Some? ==> DistinctKeys(r.value) && 1 <= |r.value| <= 64
  {
    var raw := m.rows;
    if !m.identityOk || !(1 <= |raw| <= 64) || exists r <- raw :: !WellFormed(r) then None
    else
      var rows := seq(|raw|, i requires 0 <= i < |raw| => RowOf(raw[i]));
      if DistinctKeys(rows) then Some(rows) else None
  }

  lemma DuplicateRefused(m: Manifest, i: nat, j: nat)
    requires i < j < |m.rows| && WellFormed(m.rows[i]) && WellFormed(m.rows[j])
    requires RowOf(m.rows[i]).key == RowOf(m.rows[j]).key
    ensures Normalized(m).None?
  {
    var raw := m.rows;
    if 1 <= |raw| <= 64 && forall r <- raw :: WellFormed(r) {
      var rows := seq(|raw|, i requires 0 <= i < |raw| => RowOf(raw[i]));
      assert rows[i].key == rows[j].key;
    }
  }

  /**
   A manifest is accepted by its identity, its number of rows, and rows that are complete and name
   different files.
   */
  lemma NormalizedMeans(m: Manifest)
    ensures Normalized(m).Some? <==>
      && m.identityOk && 1 <= |m.rows| <= 64
      && (forall r <- m.rows :: r.component.Some? && r.path.Some? && r.before.Some? && r.after.Some?)
      && (forall i, j :: 0 <= i < j < |m.rows| ==>
            m.rows[i].component != m.rows[j].component || m.rows[i].path != m.rows[j].path)
    ensures Normalized(m).Some? ==>
      && |Normalized(m).value| == |m.rows|
      && forall i :: 0 <= i < |m.rows| ==>
           var row := Normalized(m).value[i];
           && m.rows[i].component == Some(row.key.component) && m.rows[i].path == Some(row.key.path)
           && m.rows[i].before == Some(row.before) && m.rows[i].after == Some(row.after)
  {
    forall i, j | 0 <= i < j < |m.rows| && WellFormed(m.rows[i]) && WellFormed(m.rows[j])
      && m.rows[i].component == m.rows[j].component && m.rows[i].path == m.rows[j].path
      ensures Normalized(m).None?
    {
      DuplicateRefused(m, i, j);
    }
  }

  method NormalizeTargets(m: Manifest) returns (r: Option<seq<Row>>)
    ensures r == Normalized(m)
  {
    var raw := m.rows;
    if !m.identityOk { return None; }
    if raw == [] || |raw| > 64 { return None; }
    var rows: seq<Row> := [];
    var seen: set<Key> := {};
    for i := 0 to |raw|
      invariant |rows| == i
      invariant forall k :: 0 <= k < i ==> WellFormed(raw[k]) && rows[k] == RowOf(raw[k])
      invariant DistinctKeys(rows)
      invariant seen == KeysOf(rows)
    {
      if !WellFormed(raw[i]) { return None; }
      var row := RowOf(raw[i]);
      if row.key in seen {
        var j :| 0 <= j < |rows| && rows[j].key == row.key;
        assert RowOf(raw[j]).key == RowOf(raw[i]).key;
        DuplicateRefused(m, j, i);
        return None;
      }
      KeysOfAppend(rows, row);
      seen := seen + {row.key};
      rows := rows + [row];
    }
    assert rows == seq(|raw|, i requires 0 <= i < |raw| => RowOf(raw[i]));
    return Some(rows);
  }

  lemma KeysOfAppend(rows: seq<Row>, row: Row)
    ensures KeysOf(rows + [row]) == KeysOf(rows) + {row.key}
  {
    var more := rows + [row];
    assert more[|rows|] == row;
    assert forall i :: 0 <= i < |rows| ==> more[i] == rows[i];
  }

  // ----- The state of one module -----

  datatype Record = Record(id: HotfixId, base: string, appliedAt: int, rows: seq<Row>, job: string)

  /** Installed files, applied-record files, backup trees by hotfix and job, and the two manifest versions. */
  datatype State = State(
    files: map<Key, Bytes>,
    applied: map<HotfixId, Record>,
    backups: map<(HotfixId, string), map<Key, Bytes>>,
    extensionVersion: string,
    reportsetVersion: string)

  /**
   Where an apply stops: copying row i, re-reading row i after its copy, validating, syncing, writing its
   record, or removing the package and the staged files after that.
   */
  datatype Fault =
    NoFault | CopyFails(i: nat) | RereadFails(i: nat) | ValidateFails | SyncFails | RecordFails | TidyFails

  /** An apply job; `stuck` are the targets whose restoring copy would fail. */
  datatype Apply = Apply(
    id: HotfixId, base: string, job: string, manifest: Manifest, payload: map<Key, Bytes>,
    now: int, fault: Fault, stuck: set<Key>)

  datatype Outcome = Refused | Failed | Succeeded

  predicate RowReady(hash: Bytes -> Hash, files: map<Key, Bytes>, payload: map<Key, Bytes>, row: Row) {
    && row.key in payload && hash(payload[row.key]) == row.after
    && row.key in files && hash(files[row.key]) == row.before
  }

  predicate ApplyReady(hash: Bytes -> Hash, st: State, a: Apply) {
    && Normalized(a.manifest).Some?
    && st.extensionVersion == st.reportsetVersion == a.base
    && a.id !in st.applied
    && forall row <- Normalized(a.manifest).value :: RowReady(hash, st.files, a.payload, row)
  }

  /** `files` with the payload at the keys `ks`. */
  function Put(files: map<Key, Bytes>, payload: map<Key, Bytes>, ks: set<Key>): map<Key, Bytes> {
    map k | k in files :: if k in ks && k in payload then payload[k] else files[k]
  }

  function Pick(files: map<Key, Bytes>, ks: set<Key>): map<Key, Bytes> {
    map k | k in files && k in ks :: files[k]
  }

  predicate Strikes(fault: Fault, rows: seq<Row>) {
    match fault
    case NoFault => false
    case CopyFails(i) => i < |rows|
    case RereadFails(i) => i < |rows|
    case ValidateFails => true
    case SyncFails => true
    case RecordFails => true
    case TidyFails => true
  }

  /** The rows already recorded as mutated when the fault strikes. */
  function Mutated(fault: Fault, rows: seq<Row>): seq<Row> {
    match fault
    case CopyFails(i) => if i < |rows| then rows[..i] else rows
    case RereadFails(i) => if i < |rows| then rows[..i] else rows
    case _ => rows
  }

  /** The target replaced but not yet recorded as mutated: the row whose re-read failed. */
  function Unrecorded(fault: Fault, rows: seq<Row>): set<Key> {
    if fault.RereadFails? && fault.i < |rows| then {rows[fault.i].key} else {}
  }

  /** A failure after the files were synced is not undone. */
  predicate Late(fault: Fault) {
    fault.RecordFails? || fault.TidyFails?
  }

  /** The targets a failed apply leaves holding the payload. */
  function LeftBehind(fault: Fault, rows: seq<Row>, stuck: set<Key>): set<Key> {
    if Late(fault) then KeysOf(rows) else (KeysOf(Mutated(fault, rows)) * stuck) + Unrecorded(fault, rows)
  }

  function AfterApply(hash: Bytes -> Hash, st: State, a: Apply): (State, Outcome) {
    if !ApplyReady(hash, st, a) then (st, Refused)
    else
      var rows := Normalized(a.manifest).value;
      var backed := st.(backups := st.backups[(a.id, a.job) := Pick(st.files, KeysOf(rows))]);
      var recorded := st.applied[a.id := Record(a.id, a.base, a.now, rows, a.job)];
      if Strikes(a.fault, rows) then
        (backed.(files := Put(st.files, a.payload, LeftBehind(a.fault, rows, a.stuck)),
                 applied := if a.fault.TidyFails? then recorded else st.applied), Failed)
      else (backed.(files := Put(st.files, a.payload, KeysOf(rows)), applied := recorded), Succeeded)
  }

  /** How an apply ends: refused unless every row is bound on both sides, and successful only when nothing strikes. */
  lemma ApplyEnds(hash: Bytes -> Hash, st: State, a: Apply)
    ensures AfterApply(hash, st, a).1 == Refused <==>
      || Normalized(a.manifest).None?
      || st.extensionVersion != a.base || st.reportsetVersion != a.base || a.id in st.applied
      || exists row <- Normalized(a.manifest).value ::
           || row.key !in a.payload || hash(a.payload[row.key]) != row.after
           || row.key !in st.files || hash(st.files[row.key]) != row.before
    ensures AfterApply(hash, st, a).1 == Succeeded ==>
      match a.fault
      case NoFault => true
      case CopyFails(i) => |Normalized(a.manifest).value| <= i
      case RereadFails(i) => |Normalized(a.manifest).value| <= i
      case _ => false
    ensures AfterApply(hash, st, a).1 == Failed ==> a.fault != NoFault
    ensures AfterApply(hash, st, a).1 == Refused ==> AfterApply(hash, st, a).0 == st
  {
    if Normalized(a.manifest).Some? {
      forall row | row in Normalized(a.manifest).value
        ensures RowReady(hash, st.files, a.payload, row) <==>
          && row.key in a.payload && hash(a.payload[row.key]) == row.after
          && row.key in st.files && hash(st.files[row.key]) == row.before
      {
      }
    }
  }

  /** When a rollback is refused: not the latest, another version, or a row not bound on both sides. */
  lemma RollbackEnds(hash: Bytes -> Hash, st: State, rb: Rollback)
    requires Lists(st, rb.listing)
    ensures
      var latest := LatestIn(st.applied, rb.listing);
      AfterRollback(hash, st, rb).1 == Succeeded <==>
        && latest.Some? && latest.value.id == rb.id
        && st.extensionVersion == latest.value.base && st.reportsetVersion == latest.value.base
        && var key := (latest.value.id, latest.value.job);
           forall row <- latest.value.rows ::
             && row.key in st.files && hash(st.files[row.key]) == row.after
             && key in st.backups && row.key in st.backups[key] && hash(st.backups[key][row.key]) == row.before
    ensures AfterRollback(hash, st, rb).1 != Succeeded ==> AfterRollback(hash, st, rb) == (st, Refused)
  {
  }

  /** The apply leaves its record: it succeeds, or fails only in tidying up. */
  predicate LeavesRecord(hash: Bytes -> Hash, st: State, a: Apply) {
    AfterApply(hash, st, a).1.Succeeded? || (AfterApply(hash, st, a).1.Failed? && a.fault.TidyFails?)
  }

  lemma RecordedState(hash: Bytes -> Hash, st: State, a: Apply)
    requires LeavesRecord(hash, st, a)
    ensures ApplyReady(hash, st, a)
    ensures var rows := Normalized(a.manifest).value;
      AfterApply(hash, st, a).0 == st.(
        backups := st.backups[(a.id, a.job) := Pick(st.files, KeysOf(rows))],
        files := Put(st.files, a.payload, KeysOf(rows)),
        applied := st.applied[a.id := Record(a.id, a.base, a.now, rows, a.job)])
  {
  }

  /** The last record of the directory listing among those with the greatest `appliedAt`. */
  function LatestIn(applied: map<HotfixId, Record>, listing: seq<HotfixId>): Option<Record>
    requires forall id <- listing :: id in applied
  {
    if listing == [] then None
    else
      var rest := LatestIn(applied, listing[..|listing| - 1]);
      var last := applied[listing[|listing| - 1]];
      if rest.None? || rest.value.appliedAt <= last.appliedAt then Some(last) else rest
  }

  /** A rollback job; `listing` is the order in which the directory yields the applied records. */
  datatype Rollback = Rollback(id: HotfixId, listing: seq<HotfixId>)

  predicate Lists(st: State, listing: seq<HotfixId>) {
    (forall id <- listing :: id in st.applied) && (forall id <- st.applied :: id in listing)
  }

  predicate RowRevertible(hash: Bytes -> Hash, st: State, record: Record, row: Row) {
    && (record.id, record.job) in st.backups
    && row.key in st.files && hash(st.files[row.key]) == row.after
    && row.key in st.backups[(record.id, record.job)]
    && hash(st.backups[(record.id, record.job)][row.key]) == row.before
  }

  predicate RollbackReady(hash: Bytes -> Hash, st: State, rb: Rollback)
    requires Lists(st, rb.listing)
  {
    var latest := LatestIn(st.applied, rb.listing);
    && latest.Some? && latest.value.id == rb.id
    && st.extensionVersion == latest.value.base && st.reportsetVersion == latest.value.base
    && forall row <- latest.value.rows :: RowRevertible(hash, st, latest.value, row)
  }

  function AfterRollback(hash: Bytes -> Hash, st: State, rb: Rollback): (State, Outcome)
    requires Lists(st, rb.listing)
  {
    if !RollbackReady(hash, st, rb) then (st, Refused)
    else
      var record := LatestIn(st.applied, rb.listing).value;
      var backup := if (record.id, record.job) in st.backups then st.backups[(record.id, record.job)] else map[];
      (st.(files := Put(st.files, backup, KeysOf(record.rows)), applied := st.applied - {rb.id}), Succeeded)
  }

  // ----- The worker -----

  lemma PutStep(files: map<Key, Bytes>, payload: map<Key, Bytes>, ks: set<Key>, k: Key)
    requires k in files && k in payload
    ensures Put(files, payload, ks)[k := payload[k]] == Put(files, payload, ks + {k})
  {
  }

  lemma UnputStep(files: map<Key, Bytes>, payload: map<Key, Bytes>, ks: set<Key>, k: Key)
    requires k in files
    ensures Put(files, payload, ks + {k})[k := files[k]] == Put(files, payload, ks - {k})
  {
  }

  lemma KeysOfPrefix(rows: seq<Row>, i: nat)
    requires i < |rows|
    ensures KeysOf(rows[..i + 1]) == KeysOf(rows[..i]) + {rows[i].key}
    ensures DistinctKeys(rows) ==> rows[i].key !in KeysOf(rows[..i])
  {
    assert rows[..i + 1] == rows[..i] + [rows[i]];
    KeysOfAppend(rows[..i], rows[i]);
  }

  lemma CopyStep(files: map<Key, Bytes>, payload: map<Key, Bytes>, rows: seq<Row>, i: nat)
    requires i < |rows| && rows[i].key in files && rows[i].key in payload
    ensures var k := rows[i].key;
      Put(files, payload, KeysOf(rows[..i]))[k := payload[k]] == Put(files, payload, KeysOf(rows[..i]) + {k})
    ensures KeysOf(rows[..i] + [rows[i]]) == KeysOf(rows[..i]) + {rows[i].key} && rows[..i] + [rows[i]] == rows[..i + 1]
  {
    PutStep(files, payload, KeysOf(rows[..i]), rows[i].key);
    KeysOfAppend(rows[..i], rows[i]);
  }

  lemma AllRecorded(fault: Fault, rows: seq<Row>, ks: set<Key>)
    requires !fault.RereadFails? || |rows| <= fault.i
    ensures ks + Unrecorded(fault, rows) == ks
  {
  }

  lemma KeysOfIn(rows: seq<Row>, row: Row)
    requires row in rows
    ensures row.key in KeysOf(rows)
  {
    var i :| 0 <= i < |rows| && rows[i] == row;
  }

  class Module {
    var files: map<Key, Bytes>
    var applied: map<HotfixId, Record>
    var backups: map<(HotfixId, string), map<Key, Bytes>>
    var extensionVersion: string
    var reportsetVersion: string

    function Current(): State
      reads this
    {
      State(files, applied, backups, extensionVersion, reportsetVersion)
    }

    /** Copies the payload over the targets row by row, up to the row where the fault strikes. */
    method CopyPayload(rows: seq<Row>, payload: map<Key, Bytes>, fault: Fault) returns (mutated: seq<Row>)
      requires forall row <- rows :: row.key in payload && row.key in files
      modifies this`files
      ensures mutated == Mutated(fault, rows)
      ensures files == Put(old(files), payload, KeysOf(mutated) + Unrecorded(fault, rows))
    {
      mutated := [];
      assert files == Put(files, payload, {});
      for i := 0 to |rows|
        invariant fault.CopyFails? || fault.RereadFails? ==> i <= fault.i
        invariant mutated == rows[..i]
        invariant files == Put(old(files), payload, KeysOf(mutated))
      {
        if fault == CopyFails(i) {
          AllRecorded(fault, rows, KeysOf(mutated));
          return;
        }
        var row := rows[i];
        assert row in rows;
        CopyStep(old(files), payload, rows, i);
        files := files[row.key := payload[row.key]];
        if fault == RereadFails(i) { return; }
        mutated := mutated + [row];
      }
      assert mutated == rows;
      AllRecorded(fault, rows, KeysOf(mutated));
    }

    /** Walks the mutated rows backwards and copies each backup over its target, except where the copy fails. */
    method RestoreMutated(
      rows: seq<Row>, backup: map<Key, Bytes>, ghost before: map<Key, Bytes>, ghost payload: map<Key, Bytes>,
      ghost extra: set<Key>, stuck: set<Key>
    )
      requires DistinctKeys(rows)
      requires forall row <- rows ::
        row.key in backup && row.key in before && backup[row.key] == before[row.key] && row.key !in extra
      requires files == Put(before, payload, KeysOf(rows) + extra)
      modifies this`files
      ensures files == Put(before, payload, (KeysOf(rows) * stuck) + extra)
    {
      var j := |rows|;
      assert rows[..j] == rows;
      ghost var left: set<Key> := {};
      assert KeysOf(rows) + left + extra == KeysOf(rows) + extra;
      while j > 0
        invariant 0 <= j <= |rows|
        invariant left == (KeysOf(rows) - KeysOf(rows[..j])) * stuck
        invariant files == Put(before, payload, KeysOf(rows[..j]) + left + extra)
      {
        j := j - 1;
        var k := rows[j].key;
        assert rows[j] in rows;
        KeysOfIn(rows, rows[j]);
        KeysOfPrefix(rows, j);
        ghost var others := KeysOf(rows[..j]) + left + extra;
        assert KeysOf(rows[..j + 1]) + left + extra == others + {k};
        if k !in stuck {
          UnputStep(before, payload, others, k);
          files := files[k := backup[k]];
          assert others - {k} == others;
        } else {
          left := left + {k};
          assert KeysOf(rows[..j]) + left + extra == others + {k};
        }
      }
      assert (KeysOf(rows) * stuck) + extra == KeysOf(rows[..0]) + left + extra;
    }

    method ApplyJob(hash: Bytes -> Hash, a: Apply) returns (out: Outcome)
      modifies this
      ensures (Current(), out) == AfterApply(hash, old(Current()), a)
    {
      var normalized := NormalizeTargets(a.manifest);
      if normalized.None? { return Refused; }
      var rows := normalized.value;
      if extensionVersion != reportsetVersion || extensionVersion != a.base || a.id in applied { return Refused; }
      for i := 0 to |rows|
        invariant forall k :: 0 <= k < i ==> RowReady(hash, files, a.payload, rows[k])
      {
        if !RowReady(hash, files, a.payload, rows[i]) { return Refused; }
      }
      ghost var before := files;
      var backup := Pick(files, KeysOf(rows));
      backups := backups[(a.id, a.job) := backup];
      var mutated := CopyPayload(rows, a.payload, a.fault);
      if Strikes(a.fault, rows) && !Late(a.fault) {
        MutatedRows(a.fault, rows);
        RestoreMutated(mutated, backup, before, a.payload, Unrecorded(a.fault, rows), a.stuck);
        return Failed;
      }
      AllRecorded(a.fault, rows, KeysOf(rows));
      if a.fault.RecordFails? { return Failed; }
      applied := applied[a.id := Record(a.id, a.base, a.now, rows, a.job)];
      return if a.fault.TidyFails? then Failed else Succeeded;
    }

    method LatestRecord(listing: seq<HotfixId>) returns (latest: Option<Record>)
      requires Lists(Current(), listing)
      ensures latest == LatestIn(applied, listing)
    {
      latest := None;
      for i := 0 to |listing|
        invariant latest == LatestIn(applied, listing[..i])
      {
        assert listing[..i + 1][..i] == listing[..i];
        var record := applied[listing[i]];
        if latest.None? || latest.value.appliedAt <= record.appliedAt { latest := Some(record); }
      }
      assert listing[..|listing|] == listing;
    }

    method RollbackJob(hash: Bytes -> Hash, rb: Rollback) returns (out: Outcome)
      requires Lists(Current(), rb.listing)
      modifies this
      ensures (Current(), out) == AfterRollback(hash, old(Current()), rb)
    {
      var latest := LatestRecord(rb.listing);
      if latest.None? || latest.value.id != rb.id { return Refused; }
      var record := latest.value;
      if extensionVersion != record.base || reportsetVersion != record.base { return Refused; }
      for i := 0 to |record.rows|
        invariant forall k :: 0 <= k < i ==> RowRevertible(hash, Current(), record, record.rows[k])
      {
        if !RowRevertible(hash, Current(), record, record.rows[i]) { return Refused; }
      }
      var backup := if (record.id, record.job) in backups then backups[(record.id, record.job)] else map[];
      CopyBackups(record.rows, backup);
      applied := applied - {rb.id};
      return Succeeded;
    }

    method CopyBackups(rows: seq<Row>, backup: map<Key, Bytes>)
      requires forall row <- rows :: row.key in backup && row.key in files
      modifies this`files
      ensures files == Put(old(files), backup, KeysOf(rows))
    {
      var j := |rows|;
      ghost var done: set<Key> := {};
      assert files == Put(files, backup, {});
      assert rows[..j] == rows;
      while j > 0
        invariant 0 <= j <= |rows|
        invariant done + KeysOf(rows[..j]) == KeysOf(rows)
        invariant files == Put(old(files), backup, done)
      {
        j := j - 1;
        var k := rows[j].key;
        assert rows[j] in rows;
        KeysOfPrefix(rows, j);
        PutStep(old(files), backup, done, k);
        files := files[k := backup[k]];
        done := done + {k};
      }
      assert done == KeysOf(rows);
    }

    /** A module upgrade replaces the files and moves every applied record to the history. */
    method Supersede(newFiles: map<Key, Bytes>, version: string)
      modifies this
      ensures Current() == AfterUpgrade(old(Current()), newFiles, version)
    {
      files, extensionVersion, reportsetVersion := newFiles, version, version;
      while applied != map[]
        invariant Current() == AfterUpgrade(old(Current()), newFiles, version).(applied := applied)
        decreases applied.Keys
      {
        var id :| id in applied;
        applied := applied - {id};
      }
    }
  }

  function AfterUpgrade(st: State, newFiles: map<Key, Bytes>, version: string): State {
    State(newFiles, map[], st.backups, version, version)
  }

  // ----- One failed apply -----

  /**
   An apply that stops at any point leaves every target as it was exactly when no target is left behind
   with other bytes: with working restores that is every fault except a failed re-read of a row whose
   payload differs from the file it replaced, and a failure to write the record or to tidy up after it.
   Only the last of these leaves a record of the failed apply.
   */
  lemma FailedApplyRestores(hash: Bytes -> Hash, st: State, a: Apply)
    requires AfterApply(hash, st, a).1 == Failed
    ensures var rows := Normalized(a.manifest).value;
      AfterApply(hash, st, a).0.files == st.files
      <==> forall k <- LeftBehind(a.fault, rows, a.stuck) ::
           k in st.files && k in a.payload && a.payload[k] == st.files[k]
    ensures a.stuck == {} && !a.fault.RereadFails? && !Late(a.fault) ==>
      AfterApply(hash, st, a).0.files == st.files
    ensures AfterApply(hash, st, a).0.applied == st.applied <==> !a.fault.TidyFails?
  {
    var rows := Normalized(a.manifest).value;
    var left := LeftBehind(a.fault, rows, a.stuck);
    MutatedRows(a.fault, rows);
    forall k | k in left ensures k in st.files && k in a.payload {
      var row :| row in rows && row.key == k;
    }
    var put := Put(st.files, a.payload, left);
    assert forall k <- left :: put[k] == a.payload[k];
    assert (forall k <- left :: a.payload[k] == st.files[k]) ==> put == st.files;
    if a.stuck == {} && !a.fault.RereadFails? && !Late(a.fault) {
      assert left == {};
      assert Put(st.files, a.payload, {}) == st.files;
    }
  }

  /** One file replaced, and then its re-read, the record write or the tidying up fails: the new bytes stay. */
  lemma FailedApplyLeavesPayload(fault: Fault)
    requires fault == RereadFails(0) || fault == RecordFails || fault == TidyFails
    ensures
      var key := Key(Extension, "a.py");
      var hash := (b: Bytes) => b;
      var st := State(map[key := "old"], map[], map[], "1.0.0", "1.0.0");
      var raw := [RawRow(Some(Extension), Some("a.py"), Some("old"), Some("new"))];
      var a := Apply("h", "1.0.0", "j", Manifest(true, raw), map[key := "new"], 0, fault, {});
      && AfterApply(hash, st, a).1 == Failed
      && ("h" in AfterApply(hash, st, a).0.applied <==> fault == TidyFails)
      && AfterApply(hash, st, a).0.files == map[key := "new"]
  {
    var key := Key(Extension, "a.py");
    var hash := (b: Bytes) => b;
    var st := State(map[key := "old"], map[], map[], "1.0.0", "1.0.0");
    var raw := [RawRow(Some(Extension), Some("a.py"), Some("old"), Some("new"))];
    var a := Apply("h", "1.0.0", "j", Manifest(true, raw), map[key := "new"], 0, fault, {});
    assert |raw| == 1 && WellFormed(raw[0]) && RowOf(raw[0]) == Row(key, "old", "new");
    assert Normalized(a.manifest).Some?;
    var rows := Normalized(a.manifest).value;
    assert |rows| == 1 && rows[0] == Row(key, "old", "new");
    assert rows[0].key in KeysOf(rows);
    assert ApplyReady(hash, st, a);
    assert key in LeftBehind(fault, rows, {});
  }

  lemma MutatedRows(fault: Fault, rows: seq<Row>)
    requires DistinctKeys(rows)
    ensures DistinctKeys(Mutated(fault, rows))
    ensures forall row <- Mutated(fault, rows) ::
      row in rows && row.key in KeysOf(rows) && row.key !in Unrecorded(fault, rows)
  {
    forall row | row in Mutated(fault, rows) ensures row in rows && row.key in KeysOf(rows) { KeysOfIn(rows, row); }
  }
}
