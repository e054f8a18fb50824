/** Whole runs of hotfix jobs: the module files are always the base files under the applied stack. */
module HotfixRuns {
  import opened Common
  import opened HotfixStack

  /** An applied hotfix together with the bytes it put in place. */
  datatype Layer = Layer(record: Record, overlay: map<Key, Bytes>)

  ghost function Overlaid(base: map<Key, Bytes>, stack: seq<Layer>): map<Key, Bytes> {
    if stack == [] then base
    else
      var top := stack[|stack| - 1];
      Put(Overlaid(base, stack[..|stack| - 1]), top.overlay, KeysOf(top.record.rows))
  }

  /** Layer `i` is recorded, its backup holds what lay below it, and its hashes bind both sides. */
  ghost predicate LayerOk(hash: Bytes -> Hash, base: map<Key, Bytes>, stack: seq<Layer>, st: State, i: int)
    requires 0 <= i < |stack|
  {
    var r, below := stack[i].record, Overlaid(base, stack[..i]);
    && r.base == st.extensionVersion && r.base == st.reportsetVersion
    && r.id in st.applied && st.applied[r.id] == r
    && (r.id, r.job) in st.backups && st.backups[(r.id, r.job)] == Pick(below, KeysOf(r.rows))
    && forall row <- r.rows :: RowReady(hash, below, stack[i].overlay, row)
  }

  ghost predicate Ordered(stack: seq<Layer>) {
    forall i, j :: 0 <= i < j < |stack| ==>
      stack[i].record.appliedAt < stack[j].record.appliedAt && stack[i].record.id != stack[j].record.id
  }

  ghost predicate InStack(stack: seq<Layer>, id: HotfixId) {
    exists i :: 0 <= i < |stack| && stack[i].record.id == id
  }

  /** The state is the base files under exactly the layers of `stack`. */
  ghost predicate Stacked(hash: Bytes -> Hash, base: map<Key, Bytes>, stack: seq<Layer>, st: State) {
    && st.files == Overlaid(base, stack)
    && Ordered(stack)
    && (forall id <- st.applied :: InStack(stack, id))
    && (forall i :: 0 <= i < |stack| ==> LayerOk(hash, base, stack, st, i))
  }

  // ----- The steps of a run -----

  datatype Step =
    | ApplyStep(a: Apply)
    | RollbackStep(rb: Rollback)
    | UpgradeStep(newFiles: map<Key, Bytes>, version: string)

  ghost predicate Newest(st: State, now: int) {
    forall id <- st.applied :: st.applied[id].appliedAt < now
  }

  /**
   Copies and re-reads are faithful, restores and record writes work, the clock moves forward and
   listings show the directory.
   */
  ghost predicate StepOk(st: State, step: Step) {
    match step
    case ApplyStep(a) => Newest(st, a.now) && a.stuck == {} && !a.fault.RereadFails? && !a.fault.RecordFails?
    case RollbackStep(rb) => Lists(st, rb.listing)
    case UpgradeStep(_, _) => true
  }

  ghost function AfterStep(hash: Bytes -> Hash, st: State, step: Step): State
    requires StepOk(st, step)
  {
    match step
    case ApplyStep(a) => AfterApply(hash, st, a).0
    case RollbackStep(rb) => AfterRollback(hash, st, rb).0
    case UpgradeStep(newFiles, version) => AfterUpgrade(st, newFiles, version)
  }

  ghost function BaseAfter(base: map<Key, Bytes>, step: Step): map<Key, Bytes> {
    if step.UpgradeStep? then step.newFiles else base
  }

  ghost function LayerOf(a: Apply): Layer {
    Layer(Record(a.id, a.base, a.now, Normalized(a.manifest).GetOr([]), a.job), a.payload)
  }

  ghost function StackAfter(hash: Bytes -> Hash, st: State, stack: seq<Layer>, step: Step): seq<Layer>
    requires StepOk(st, step)
  {
    match step
    case ApplyStep(a) =>
      if LeavesRecord(hash, st, a)
      then stack + [LayerOf(a)] else stack
    case RollbackStep(rb) =>
      if AfterRollback(hash, st, rb).1 == Succeeded && stack != [] then stack[..|stack| - 1] else stack
    case UpgradeStep(_, _) => []
  }

  // ----- Each step keeps the stack -----

  lemma LayerOkBelow(hash: Bytes -> Hash, base: map<Key, Bytes>, stack: seq<Layer>, st: State, n: nat, i: nat)
    requires i < n <= |stack| && LayerOk(hash, base, stack, st, i)
    ensures LayerOk(hash, base, stack[..n], st, i)
  {
    assert stack[..n][..i] == stack[..i];
  }

  lemma ApplyKeepsLayer(hash: Bytes -> Hash, base: map<Key, Bytes>, stack: seq<Layer>, st: State, a: Apply, i: nat)
    requires Stacked(hash, base, stack, st) && i < |stack|
    requires LeavesRecord(hash, st, a)
    ensures LayerOk(hash, base, stack + [LayerOf(a)], AfterApply(hash, st, a).0, i)
    ensures stack[i].record.id in st.applied && st.applied[stack[i].record.id] == stack[i].record
    ensures stack[i].record.id != a.id
  {
    assert LayerOk(hash, base, stack, st, i);
    assert (stack + [LayerOf(a)])[..i] == stack[..i];
  }

  lemma ApplyAddsLayer(hash: Bytes -> Hash, base: map<Key, Bytes>, stack: seq<Layer>, st: State, a: Apply)
    requires Stacked(hash, base, stack, st)
    requires LeavesRecord(hash, st, a)
    ensures LayerOk(hash, base, stack + [LayerOf(a)], AfterApply(hash, st, a).0, |stack|)
    ensures AfterApply(hash, st, a).0.files == Overlaid(base, stack + [LayerOf(a)])
  {
    RecordedState(hash, st, a);
    assert (stack + [LayerOf(a)])[..|stack|] == stack;
  }

  lemma InStackPush(stack: seq<Layer>, layer: Layer, id: HotfixId)
    ensures InStack(stack + [layer], id) <==> InStack(stack, id) || id == layer.record.id
  {
    var stack' := stack + [layer];
    assert stack'[|stack|] == layer;
    assert forall i :: 0 <= i < |stack| ==> stack'[i] == stack[i];
  }

  lemma PushLayer(hash: Bytes -> Hash, base: map<Key, Bytes>, stack: seq<Layer>, st: State, st': State, layer: Layer)
    requires Stacked(hash, base, stack, st) && Newest(st, layer.record.appliedAt) && layer.record.id !in st.applied
    requires st'.files == Overlaid(base, stack + [layer])
    requires st'.applied == st.applied[layer.record.id := layer.record]
    requires forall i :: 0 <= i <= |stack| ==> LayerOk(hash, base, stack + [layer], st', i)
    ensures Stacked(hash, base, stack + [layer], st')
  {
    forall i | 0 <= i < |stack|
      ensures stack[i].record.appliedAt < layer.record.appliedAt && stack[i].record.id != layer.record.id
    {
      assert LayerOk(hash, base, stack, st, i);
    }
    forall id | id in st'.applied ensures InStack(stack + [layer], id) {
      InStackPush(stack, layer, id);
    }
  }

  lemma ApplyPushes(hash: Bytes -> Hash, base: map<Key, Bytes>, stack: seq<Layer>, st: State, a: Apply)
    requires Stacked(hash, base, stack, st) && Newest(st, a.now)
    requires LeavesRecord(hash, st, a)
    ensures Stacked(hash, base, stack + [LayerOf(a)], AfterApply(hash, st, a).0)
  {
    var st' := AfterApply(hash, st, a).0;
    ApplyAddsLayer(hash, base, stack, st, a);
    forall i | 0 <= i < |stack| ensures LayerOk(hash, base, stack + [LayerOf(a)], st', i) {
      ApplyKeepsLayer(hash, base, stack, st, a, i);
    }
    PushLayer(hash, base, stack, st, st', LayerOf(a));
  }

  lemma FailedApplyKeeps(hash: Bytes -> Hash, base: map<Key, Bytes>, stack: seq<Layer>, st: State, a: Apply)
    requires Stacked(hash, base, stack, st) && StepOk(st, ApplyStep(a))
    requires !LeavesRecord(hash, st, a)
    ensures Stacked(hash, base, stack, AfterApply(hash, st, a).0)
  {
    if AfterApply(hash, st, a).1 == Failed {
      FailedApplyRestores(hash, st, a);
      forall i | 0 <= i < |stack| ensures LayerOk(hash, base, stack, AfterApply(hash, st, a).0, i) {
        assert LayerOk(hash, base, stack, st, i);
      }
    }
  }

  lemma {:induction false} LatestIsGreatest(applied: map<HotfixId, Record>, listing: seq<HotfixId>)
    requires forall id <- listing :: id in applied
    ensures LatestIn(applied, listing).None? <==> listing == []
    ensures listing != [] ==>
      && (exists id <- listing :: applied[id] == LatestIn(applied, listing).value)
      && (forall id <- listing :: applied[id].appliedAt <= LatestIn(applied, listing).value.appliedAt)
  {
    if listing != [] {
      var n := |listing| - 1;
      LatestIsGreatest(applied, listing[..n]);
      assert listing == listing[..n] + [listing[n]];
      assert listing[n] in listing;
    }
  }

  /** The next record listed is the latest when its time is no earlier. */
  lemma LatestOnTie(applied: map<HotfixId, Record>, listing: seq<HotfixId>, id: HotfixId)
    requires id in applied && forall x <- listing :: x in applied
    ensures
      var latest := LatestIn(applied, listing);
      LatestIn(applied, listing + [id]) ==
        if latest.Some? && applied[id].appliedAt < latest.value.appliedAt then latest else Some(applied[id])
  {
    assert (listing + [id])[..|listing|] == listing;
  }

  /** Whatever order the directory lists its files in, the latest record is the top of the stack. */
  lemma LatestIsTop(hash: Bytes -> Hash, base: map<Key, Bytes>, stack: seq<Layer>, st: State, listing: seq<HotfixId>)
    requires Stacked(hash, base, stack, st) && Lists(st, listing)
    ensures LatestIn(st.applied, listing) == if stack == [] then None else Some(stack[|stack| - 1].record)
  {
    LatestIsGreatest(st.applied, listing);
    if stack == [] {
      assert st.applied.Keys == {};
    } else {
      var n := |stack| - 1;
      var top := stack[n].record;
      assert LayerOk(hash, base, stack, st, n);
      assert top.id in listing;
      var id :| id in listing && st.applied[id] == LatestIn(st.applied, listing).value;
      var i :| 0 <= i < |stack| && stack[i].record.id == id;
      assert LayerOk(hash, base, stack, st, i);
    }
  }

  lemma RevertTop(below: map<Key, Bytes>, overlay: map<Key, Bytes>, ks: set<Key>)
    requires ks <= below.Keys
    ensures Put(Put(below, overlay, ks), Pick(below, ks), ks) == below
  {
  }

  /**
   A rollback succeeds exactly when it names the top of the stack, and then the files are those of the
   stack without it.
   */
  lemma RollbackOnlyTop(hash: Bytes -> Hash, base: map<Key, Bytes>, stack: seq<Layer>, st: State, rb: Rollback)
    requires Stacked(hash, base, stack, st) && Lists(st, rb.listing)
    ensures AfterRollback(hash, st, rb).1 == Succeeded <==> stack != [] && stack[|stack| - 1].record.id == rb.id
    ensures AfterRollback(hash, st, rb).1 == Succeeded ==>
      Stacked(hash, base, stack[..|stack| - 1], AfterRollback(hash, st, rb).0)
    ensures AfterRollback(hash, st, rb).1 != Succeeded ==> AfterRollback(hash, st, rb).0 == st
  {
    LatestIsTop(hash, base, stack, st, rb.listing);
    if stack != [] && stack[|stack| - 1].record.id == rb.id {
      TopRevertible(hash, base, stack, st);
      var n := |stack| - 1;
      var st' := AfterRollback(hash, st, rb).0;
      forall i | 0 <= i < n ensures LayerOk(hash, base, stack[..n], st', i) {
        assert LayerOk(hash, base, stack, st, i);
        LayerOkBelow(hash, base, stack, st, n, i);
      }
      forall id | id in st'.applied ensures InStack(stack[..n], id) {
        var i :| 0 <= i < |stack| && stack[i].record.id == id;
        assert stack[..n][i].record.id == id;
      }
    }
  }

  lemma TopRevertible(hash: Bytes -> Hash, base: map<Key, Bytes>, stack: seq<Layer>, st: State)
    requires Stacked(hash, base, stack, st) && stack != []
    ensures
      var n := |stack| - 1;
      var r := stack[n].record;
      && r.base == st.extensionVersion && r.base == st.reportsetVersion
      && (forall row <- r.rows :: RowRevertible(hash, st, r, row))
      && (r.id, r.job) in st.backups
      && Put(st.files, st.backups[(r.id, r.job)], KeysOf(r.rows)) == Overlaid(base, stack[..n])
  {
    var n := |stack| - 1;
    var r, below := stack[n].record, Overlaid(base, stack[..n]);
    assert LayerOk(hash, base, stack, st, n);
    forall row | row in r.rows ensures RowRevertible(hash, st, r, row) {
      KeysOfIn(r.rows, row);
      assert RowReady(hash, below, stack[n].overlay, row);
    }
    assert KeysOf(r.rows) <= below.Keys by {
      forall k | k in KeysOf(r.rows) ensures k in below {
        var row :| row in r.rows && row.key == k;
        assert RowReady(hash, below, stack[n].overlay, row);
      }
    }
    RevertTop(below, stack[n].overlay, KeysOf(r.rows));
  }

  lemma StepKeepsStack(hash: Bytes -> Hash, base: map<Key, Bytes>, stack: seq<Layer>, st: State, step: Step)
    requires Stacked(hash, base, stack, st) && StepOk(st, step)
    ensures Stacked(hash, BaseAfter(base, step), StackAfter(hash, st, stack, step), AfterStep(hash, st, step))
  {
    match step
    case ApplyStep(a) =>
      if LeavesRecord(hash, st, a) { ApplyPushes(hash, base, stack, st, a); }
      else { FailedApplyKeeps(hash, base, stack, st, a); }
    case RollbackStep(rb) => RollbackOnlyTop(hash, base, stack, st, rb);
    case UpgradeStep(_, _) =>
  }

  // ----- Whole runs -----

  ghost predicate RunOk(hash: Bytes -> Hash, st: State, steps: seq<Step>)
    decreases |steps|
  {
    steps == [] || (StepOk(st, steps[0]) && RunOk(hash, AfterStep(hash, st, steps[0]), steps[1..]))
  }

  ghost function AfterRun(hash: Bytes -> Hash, st: State, steps: seq<Step>): State
    requires RunOk(hash, st, steps)
    decreases |steps|
  {
    if steps == [] then st else AfterRun(hash, AfterStep(hash, st, steps[0]), steps[1..])
  }

  ghost function BaseAfterRun(base: map<Key, Bytes>, steps: seq<Step>): map<Key, Bytes>
    decreases |steps|
  {
    if steps == [] then base else BaseAfterRun(BaseAfter(base, steps[0]), steps[1..])
  }

  ghost function StackAfterRun(hash: Bytes -> Hash, st: State, stack: seq<Layer>, steps: seq<Step>): seq<Layer>
    requires RunOk(hash, st, steps)
    decreases |steps|
  {
    if steps == [] then stack
    else StackAfterRun(hash, AfterStep(hash, st, steps[0]), StackAfter(hash, st, stack, steps[0]), steps[1..])
  }

  /**
   After any run of applies, failed applies, rollbacks, refusals and upgrades the files are the base
   under the stack.
   */
  lemma {:induction false} RunsKeepStack(
    hash: Bytes -> Hash, base: map<Key, Bytes>, stack: seq<Layer>, st: State, steps: seq<Step>
  )
    requires Stacked(hash, base, stack, st) && RunOk(hash, st, steps)
    ensures Stacked(hash, BaseAfterRun(base, steps), StackAfterRun(hash, st, stack, steps), AfterRun(hash, st, steps))
    decreases |steps|
  {
    if steps != [] {
      StepKeepsStack(hash, base, stack, st, steps[0]);
      RunsKeepStack(hash, BaseAfter(base, steps[0]), StackAfter(hash, st, stack, steps[0]),
        AfterStep(hash, st, steps[0]), steps[1..]);
    }
  }

  /** Rolls the layers above `k` back, top first; `list` gives the directory order at each moment. */
  ghost function Unwind(hash: Bytes -> Hash, st: State, stack: seq<Layer>, k: nat, list: State -> seq<HotfixId>): State
    requires k <= |stack|
    requires forall s: State :: Lists(s, list(s))
    decreases |stack| - k
  {
    if |stack| == k then st
    else
      var rb := Rollback(stack[|stack| - 1].record.id, list(st));
      Unwind(hash, AfterRollback(hash, st, rb).0, stack[..|stack| - 1], k, list)
  }

  /** Rolling back every layer above `k` in reverse order puts the files and records of the lower stack back. */
  lemma {:induction false} UnwindRestores(
    hash: Bytes -> Hash, base: map<Key, Bytes>, stack: seq<Layer>, st: State, k: nat,
    list: State -> seq<HotfixId>
  )
    requires Stacked(hash, base, stack, st) && k <= |stack|
    requires forall s: State :: Lists(s, list(s))
    ensures Stacked(hash, base, stack[..k], Unwind(hash, st, stack, k, list))
    decreases |stack| - k
  {
    if |stack| == k {
      assert stack[..k] == stack;
    } else {
      var n := |stack| - 1;
      var rb := Rollback(stack[n].record.id, list(st));
      RollbackOnlyTop(hash, base, stack, st, rb);
      UnwindRestores(hash, base, stack[..n], AfterRollback(hash, st, rb).0, k, list);
      assert stack[..n][..k] == stack[..k];
    }
  }

  /** Two states over one base and stack hold the same files and the same applied records. */
  lemma StackDecides(hash: Bytes -> Hash, base: map<Key, Bytes>, stack: seq<Layer>, s: State, t: State)
    requires Stacked(hash, base, stack, s) && Stacked(hash, base, stack, t)
    ensures s.files == t.files && s.applied == t.applied
  {
    forall id | InStack(stack, id) ensures id in s.applied && id in t.applied && s.applied[id] == t.applied[id] {
      var i :| 0 <= i < |stack| && stack[i].record.id == id;
      assert LayerOk(hash, base, stack, s, i) && LayerOk(hash, base, stack, t, i);
    }
  }

  ghost predicate AllApplied(hash: Bytes -> Hash, st: State, steps: seq<Step>)
    decreases |steps|
  {
    steps == [] || (&& steps[0].ApplyStep? && StepOk(st, steps[0])
                    && AfterApply(hash, st, steps[0].a).1 == Succeeded
                    && AllApplied(hash, AfterStep(hash, st, steps[0]), steps[1..]))
  }

  lemma {:induction false} AppliesStack(
    hash: Bytes -> Hash, base: map<Key, Bytes>, stack: seq<Layer>, st: State, steps: seq<Step>
  )
    requires Stacked(hash, base, stack, st) && AllApplied(hash, st, steps)
    ensures RunOk(hash, st, steps) && BaseAfterRun(base, steps) == base
    ensures var stack' := StackAfterRun(hash, st, stack, steps);
      |stack'| == |stack| + |steps| && stack'[..|stack|] == stack
    decreases |steps|
  {
    if steps != [] {
      StepKeepsStack(hash, base, stack, st, steps[0]);
      var next := StackAfter(hash, st, stack, steps[0]);
      assert next[..|stack|] == stack;
      AppliesStack(hash, base, next, AfterStep(hash, st, steps[0]), steps[1..]);
      var stack' := StackAfterRun(hash, st, stack, steps);
      assert stack'[..|stack|] == stack'[..|next|][..|stack|];
    }
  }

  /** n successful applies followed by the n rollbacks in reverse order give back the original bytes and records. */
  lemma AppliesThenRollbacks(
    hash: Bytes -> Hash, base: map<Key, Bytes>, stack: seq<Layer>, st: State, steps: seq<Step>,
    list: State -> seq<HotfixId>
  )
    requires Stacked(hash, base, stack, st) && AllApplied(hash, st, steps)
    requires forall s: State :: Lists(s, list(s))
    ensures RunOk(hash, st, steps) && |stack| <= |StackAfterRun(hash, st, stack, steps)|
    ensures var back := Unwind(hash, AfterRun(hash, st, steps), StackAfterRun(hash, st, stack, steps), |stack|, list);
      back.files == st.files && back.applied == st.applied
  {
    AppliesStack(hash, base, stack, st, steps);
    RunsKeepStack(hash, base, stack, st, steps);
    var top, stack' := AfterRun(hash, st, steps), StackAfterRun(hash, st, stack, steps);
    UnwindRestores(hash, base, stack', top, |stack|, list);
    StackDecides(hash, base, stack, st, Unwind(hash, top, stack', |stack|, list));
  }
}
