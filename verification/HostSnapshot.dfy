/**
 The host-path rollback of a restore: a list of live paths is reduced to its minimal members, their
 subtrees are captured, and later put back, whatever happened to the file tree in between.
 */
module HostSnapshot {
  import opened Common

  /** A path below the root, part by part; a prefix of a path is one of its ancestors. */
  type Path = seq<string>

  datatype Node = Dir(meta: string) | File(bytes: string, meta: string) | Link(target: string, meta: string)
  type Tree = map<Path, Node>

  /** A directory made for a missing parent: root-owned, mode 0755. */
  const NEW_DIR := Dir("root:root 0755")

  function Lookup(t: Tree, q: Path): Option<Node> {
    if q in t then Some(t[q]) else None
  }

  /** The entry at `p` and everything below it. */
  function Subtree(t: Tree, p: Path): Tree {
    map q | q in t && p <= q :: t[q]
  }

  function Cut(t: Tree, p: Path): Tree {
    map q | q in t && !(p <= q) :: t[q]
  }

  predicate IsParent(q: Path, p: Path) {
    q != [] && q < p
  }

  /** Every parent of `p` that exists is a real directory. */
  predicate SafeChain(t: Tree, p: Path) {
    forall k :: 0 < k < |p| && p[..k] in t ==> t[p[..k]].Dir?
  }

  function Parents(p: Path): set<Path> {
    set k | 0 < k < |p| :: p[..k]
  }

  function WithParents(t: Tree, p: Path): Tree {
    map q | q in t.Keys + Parents(p) :: if q in t then t[q] else NEW_DIR
  }

  /** Parents of an entry exist and are directories. */
  ghost predicate WellFormed(t: Tree) {
    forall q, k :: q in t && 0 < k < |q| ==> q[..k] in t && t[q[..k]].Dir?
  }

  // ----- Canonical targets -----

  /** A requested path as split on slashes. */
  datatype RawPath = RawPath(absolute: bool, parts: seq<string>)

  /** os.path.normpath on the parts of an absolute path: `..` at the root stays at the root. */
  function Normalize(parts: seq<string>): Path {
    if parts == [] then []
    else
      var front := Normalize(parts[..|parts| - 1]);
      var part := parts[|parts| - 1];
      if part == "" || part == "." then front
      else if part == ".." then (if front == [] then [] else front[..|front| - 1])
      else front + [part]
  }

  /** A name is appended; a climb takes the last name away and stays at the root; blanks and dots do nothing. */
  lemma NormalizeStep(parts: seq<string>, name: string)
    requires name != "" && name != "." && name != ".."
    ensures Normalize([]) == [] && Normalize(parts + [name]) == Normalize(parts) + [name]
    ensures Normalize(parts + [""]) == Normalize(parts) && Normalize(parts + ["."]) == Normalize(parts)
    ensures Normalize(parts + [name] + [".."]) == Normalize(parts)
    ensures Normalize(parts) == [] ==> Normalize(parts + [".."]) == []
  {
    assert (parts + [name])[..|parts|] == parts && (parts + [""])[..|parts|] == parts;
    assert (parts + ["."])[..|parts|] == parts && (parts + [".."])[..|parts|] == parts;
    assert (parts + [name] + [".."])[..|parts| + 1] == parts + [name];
    assert (Normalize(parts) + [name])[..|Normalize(parts)|] == Normalize(parts);
  }

  predicate SafeTarget(raw: RawPath) {
    raw.absolute && Normalize(raw.parts) != []
  }

  ghost function Inputs(raws: seq<RawPath>): set<Path> {
    set i | 0 <= i < |raws| :: Normalize(raws[i].parts)
  }

  function Text(p: Path): string {
    if p == [] then "" else "/" + p[0] + Text(p[1..])
  }

  predicate Before(a: Path, b: Path) {
    |a| < |b| || (|a| == |b| && Leq(Text(a), Text(b)))
  }

  /** Shorter paths come first. */
  predicate Shallow(q: seq<Path>) {
    q == [] || (AtLeast(q[1..], |q[0]|) && Shallow(q[1..]))
  }

  predicate AtLeast(q: seq<Path>, n: nat) {
    forall p <- q :: n <= |p|
  }

  function Insert(p: Path, q: seq<Path>): (r: seq<Path>)
    ensures forall x :: x in r <==> x == p || x in q
    ensures Shallow(q) ==> Shallow(r)
  {
    if q == [] then [p]
    else if Before(p, q[0]) then
      assert ([p] + q)[1..] == q;
      [p] + q
    else
      var r := [q[0]] + Insert(p, q[1..]);
      assert r[1..] == Insert(p, q[1..]);
      r
  }

  function SortPaths(q: seq<Path>): (r: seq<Path>)
    ensures forall x :: x in r <==> x in q
    ensures Shallow(r)
  {
    if q == [] then [] else Insert(q[0], SortPaths(q[1..]))
  }

  lemma {:induction false} ShallowIndexed(q: seq<Path>, i: nat, j: nat)
    requires Shallow(q) && i < j < |q|
    ensures |q[i]| <= |q[j]|
  {
    if i == 0 {
      assert q[1..][j - 1] == q[j];
    } else {
      ShallowIndexed(q[1..], i - 1, j - 1);
    }
  }

  ghost predicate DepthOrdered(q: seq<Path>) {
    forall i, j :: 0 <= i < j < |q| ==> |q[i]| <= |q[j]|
  }

  lemma ShallowIsOrdered(q: seq<Path>)
    requires Shallow(q)
    ensures DepthOrdered(q)
  {
    forall i, j | 0 <= i < j < |q| ensures |q[i]| <= |q[j]| { ShallowIndexed(q, i, j); }
  }

  ghost predicate Minimal(p: Path, s: set<Path>) {
    p in s && forall q <- s :: q <= p ==> q == p
  }

  predicate Antichain(q: seq<Path>) {
    forall i, j :: 0 <= i < |q| && 0 <= j < |q| && i != j ==> !(q[i] <= q[j])
  }

  predicate Within(q: seq<Path>, all: seq<Path>) {
    forall p <- q :: p in all
  }

  predicate CoversUpTo(q: seq<Path>, sorted: seq<Path>, i: nat)
    requires i <= |sorted|
  {
    forall k :: 0 <= k < i ==> Covered(q, sorted[k])
  }

  ghost predicate Kept(sorted: seq<Path>, i: nat, result: seq<Path>)
    requires i <= |sorted|
  {
    Antichain(result) && Within(result, sorted[..i]) && CoversUpTo(result, sorted, i)
  }

  lemma WithinMore(q: seq<Path>, sorted: seq<Path>, i: nat)
    requires i < |sorted| && Within(q, sorted[..i])
    ensures Within(q, sorted[..i + 1]) && Within(q + [sorted[i]], sorted[..i + 1])
  {
    var more := sorted[..i + 1];
    assert more == sorted[..i] + [sorted[i]];
    forall p | p in q + [sorted[i]] ensures p in more {
      assert p in q || p == sorted[i];
    }
  }

  lemma CoversMore(q: seq<Path>, sorted: seq<Path>, i: nat)
    requires i < |sorted| && CoversUpTo(q, sorted, i)
    ensures CoversUpTo(q + [sorted[i]], sorted, i + 1)
  {
    forall k | 0 <= k < i + 1 ensures Covered(q + [sorted[i]], sorted[k]) {
      CoveredMore(q, sorted[i], sorted[k]);
    }
  }

  lemma KeptStep(sorted: seq<Path>, i: nat, result: seq<Path>)
    requires DepthOrdered(sorted) && i < |sorted| && Kept(sorted, i, result)
    ensures Kept(sorted, i + 1, if Covered(result, sorted[i]) then result else result + [sorted[i]])
  {
    WithinMore(result, sorted, i);
    if !Covered(result, sorted[i]) {
      NewIsApart(sorted, i, result);
      AntichainPush(result, sorted[i]);
      CoversMore(result, sorted, i);
    }
  }

  /** Keeps a path unless one kept before it covers it. */
  method DropCovered(sorted: seq<Path>) returns (result: seq<Path>)
    requires Shallow(sorted)
    ensures Antichain(result)
    ensures forall p <- result :: p in sorted
    ensures forall p <- sorted :: Covered(result, p)
  {
    result := [];
    ShallowIsOrdered(sorted);
    for i := 0 to |sorted|
      invariant Kept(sorted, i, result)
    {
      KeptStep(sorted, i, result);
      if !Covered(result, sorted[i]) { result := result + [sorted[i]]; }
    }
  }

  predicate Covered(q: seq<Path>, p: Path) {
    exists c <- q :: c <= p
  }

  lemma NewIsApart(sorted: seq<Path>, i: nat, result: seq<Path>)
    requires DepthOrdered(sorted) && i < |sorted| && !Covered(result, sorted[i]) && Within(result, sorted[..i])
    ensures Apart(result, sorted[i])
  {
    forall c | c in result ensures !(c <= sorted[i]) && !(sorted[i] <= c) {
      var k :| 0 <= k < i && sorted[k] == c;
      assert |sorted[k]| <= |sorted[i]|;
    }
  }

  /** Neither above nor below any path of the list. */
  ghost predicate Apart(q: seq<Path>, p: Path) {
    forall c <- q :: !(c <= p) && !(p <= c)
  }

  lemma AntichainPush(q: seq<Path>, p: Path)
    requires Antichain(q) && Apart(q, p)
    ensures Antichain(q + [p])
  {
    var r := q + [p];
    forall i, j | 0 <= i < |r| && 0 <= j < |r| && i != j ensures !(r[i] <= r[j]) {
      if i < |q| { assert r[i] in q; }
      if j < |q| { assert r[j] in q; }
    }
  }

  lemma CoveredMore(q: seq<Path>, p: Path, x: Path)
    requires Covered(q, x) || x == p
    ensures Covered(q + [p], x)
  {
    assert p in q + [p] && forall c <- q :: c in q + [p];
  }

  /** The rollback targets: exactly the minimal input paths, each once; None when an input is unsafe. */
  method CanonicalTargets(raws: seq<RawPath>) returns (r: Option<seq<Path>>)
    ensures r.Some? <==> forall raw <- raws :: raw.absolute && Normalize(raw.parts) != []
    ensures r.Some? ==> Antichain(r.value) && [] !in r.value
    ensures r.Some? ==> forall p :: p in r.value <==> Minimal(p, Inputs(raws))
  {
    var normalized: seq<Path> := [];
    for i := 0 to |raws|
      invariant forall k :: 0 <= k < i ==> SafeTarget(raws[k])
      invariant forall p :: p in normalized <==> p in Inputs(raws[..i])
      invariant [] !in normalized
    {
      if !SafeTarget(raws[i]) { return None; }
      var p := Normalize(raws[i].parts);
      InputsStep(raws, i);
      if p !in normalized { normalized := normalized + [p]; }
    }
    assert raws[..|raws|] == raws;
    var result := DropCovered(SortPaths(normalized));
    MinimalOnes(result, Inputs(raws));
    return Some(result);
  }

  lemma InputsStep(raws: seq<RawPath>, i: nat)
    requires i < |raws|
    ensures Inputs(raws[..i + 1]) == Inputs(raws[..i]) + {Normalize(raws[i].parts)}
  {
    assert forall k :: 0 <= k < i ==> raws[..i + 1][k] == raws[..i][k];
    assert raws[..i + 1][i] == raws[i];
  }

  lemma AntichainUnique(q: seq<Path>, a: Path, b: Path)
    requires Antichain(q) && a in q && b in q && a <= b
    ensures a == b
  {
    var i :| 0 <= i < |q| && q[i] == a;
    var j :| 0 <= j < |q| && q[j] == b;
  }

  /** A covering antichain of members is the set of minimal members. */
  lemma MinimalOnes(chosen: seq<Path>, s: set<Path>)
    requires Antichain(chosen)
    requires forall p <- chosen :: p in s
    requires forall p <- s :: Covered(chosen, p)
    ensures forall p :: p in chosen <==> Minimal(p, s)
  {
    forall p | p in chosen ensures Minimal(p, s) {
      forall q | q in s && q <= p ensures q == p {
        var c :| c in chosen && c <= q;
        AntichainUnique(chosen, c, p);
      }
    }
    forall p | Minimal(p, s) ensures p in chosen {
      var c :| c in chosen && c <= p;
    }
  }

  // ----- Capture and restore -----

  datatype Slot = Slot(path: Path, existed: bool, captured: Tree)

  function PathsOf(slots: seq<Slot>): seq<Path> {
    seq(|slots|, i requires 0 <= i < |slots| => slots[i].path)
  }

  /** The slots hold what `t0` had at pairwise incomparable paths. */
  ghost predicate Captures(slots: seq<Slot>, t0: Tree) {
    && (forall a <- slots, b <- slots :: a.path <= b.path ==> a == b)
    && (forall s <- slots :: s.path != [] && s == SlotOf(t0, s.path))
  }

  function SlotOf(t: Tree, p: Path): Slot {
    Slot(p, p in t, if p in t then Subtree(t, p) else map[])
  }

  /** A slot's path lies at or above `q`. */
  ghost predicate Under(slots: seq<Slot>, q: Path) {
    exists s <- slots :: s.path <= q
  }

  /** `q` is a parent of a slot's path. */
  ghost predicate Above(slots: seq<Slot>, q: Path) {
    exists s <- slots :: IsParent(q, s.path)
  }

  /** What lies at `q` once the slots are restored over `t1`. */
  ghost function Expected(slots: seq<Slot>, t0: Tree, t1: Tree, q: Path): Option<Node> {
    if Under(slots, q) then Lookup(t0, q)
    else if q in t1 then Some(t1[q])
    else if Above(slots, q) then Some(NEW_DIR)
    else None
  }

  lemma ParentIsPrefix(q: Path, p: Path)
    ensures IsParent(q, p) <==> exists k :: 0 < k < |p| && p[..k] == q
  {
    if IsParent(q, p) { assert p[..|q|] == q; }
  }

  function PutBack(t: Tree, slot: Slot): Tree {
    var cut := Cut(WithParents(t, slot.path), slot.path);
    if slot.existed then cut + slot.captured else cut
  }

  /** Restoring one slot: its subtree as captured, its missing parents made, all else untouched. */
  lemma PutBackAt(t: Tree, t0: Tree, p: Path, q: Path)
    requires WellFormed(t0) && p != []
    ensures Lookup(PutBack(t, SlotOf(t0, p)), q) ==
      if p <= q then Lookup(t0, q)
      else if q in t then Some(t[q])
      else if IsParent(q, p) then Some(NEW_DIR) else None
  {
    ParentIsPrefix(q, p);
    SubtreeNeedsRoot(t0, p);
    assert q in t0 && p <= q ==> q in Subtree(t0, p);
  }

  lemma SubtreeNeedsRoot(t: Tree, p: Path)
    requires WellFormed(t) && p != []
    ensures p in t || Subtree(t, p) == map[]
  {
    forall x | x in t && p <= x ensures p in t {
      assert x[..|p|] == p;
      assert |p| < |x| || x == p;
    }
  }

  lemma WithParentsStep(t: Tree, p: Path, k: nat)
    requires 0 < k < |p|
    ensures p[..k] in WithParents(t, p[..k]) <==> p[..k] in t
    ensures WithParents(t, p[..k + 1]) ==
      if p[..k] in t then WithParents(t, p[..k]) else WithParents(t, p[..k])[p[..k] := NEW_DIR]
  {
    forall q ensures q in Parents(p[..k + 1]) <==> q in Parents(p[..k]) || q == p[..k] {
      if q in Parents(p[..k + 1]) {
        var i :| 0 < i < k + 1 && q == p[..k + 1][..i];
        assert i < k ==> q == p[..k][..i];
      }
      if q in Parents(p[..k]) {
        var i :| 0 < i < k && q == p[..k][..i];
        assert q == p[..k + 1][..i];
      }
      assert p[..k] == p[..k + 1][..k];
    }
  }

  lemma MissingParent(t: Tree, p: Path, k: nat)
    requires WellFormed(t) && 0 < k < |p| && p[..k] !in t
    ensures forall i :: k <= i < |p| ==> p[..i] !in t
  {
    forall i | k <= i < |p| ensures p[..i] !in t {
      assert p[..i][..k] == p[..k];
    }
  }

  lemma ExpectedStep(done: seq<Slot>, slot: Slot, t0: Tree, t1: Tree, t: Tree, q: Path)
    requires Captures(done + [slot], t0) && WellFormed(t0)
    requires Lookup(t, q) == Expected(done, t0, t1, q)
    ensures Lookup(PutBack(t, slot), q) == Expected(done + [slot], t0, t1, q)
  {
    assert slot in done + [slot] && forall s <- done :: s in done + [slot];
    PutBackAt(t, t0, slot.path, q);
    assert Under(done + [slot], q) <==> Under(done, q) || slot.path <= q;
    assert Above(done + [slot], q) <==> Above(done, q) || IsParent(q, slot.path);
  }

  /** `t` is `t1` with the slots restored. */
  ghost predicate Restored(slots: seq<Slot>, t0: Tree, t1: Tree, t: Tree) {
    forall q: Path :: Lookup(t, q) == Expected(slots, t0, t1, q)
  }

  lemma CapturesSome(slots: seq<Slot>, part: seq<Slot>, t0: Tree)
    requires Captures(slots, t0) && forall s <- part :: s in slots
    ensures Captures(part, t0)
  {
  }

  lemma SameSlots(a: seq<Slot>, b: seq<Slot>, t0: Tree, t1: Tree, t: Tree)
    requires Restored(a, t0, t1, t) && forall s :: s in a <==> s in b
    ensures Restored(b, t0, t1, t)
  {
    forall q: Path ensures Expected(a, t0, t1, q) == Expected(b, t0, t1, q) {
      assert Under(a, q) <==> Under(b, q);
      assert Above(a, q) <==> Above(b, q);
    }
  }

  lemma ExpectedSteps(done: seq<Slot>, slot: Slot, t0: Tree, t1: Tree, t: Tree)
    requires Captures(done + [slot], t0) && WellFormed(t0)
    requires Restored(done, t0, t1, t)
    ensures Restored(done + [slot], t0, t1, PutBack(t, slot))
  {
    forall q: Path ensures Lookup(PutBack(t, slot), q) == Expected(done + [slot], t0, t1, q) {
      ExpectedStep(done, slot, t0, t1, t, q);
    }
  }

  /** The parents of a slot lie outside every slot, so their safety depends on the later tree alone. */
  lemma ChainAtStep(done: seq<Slot>, slot: Slot, t0: Tree, t1: Tree, t: Tree)
    requires Captures(done + [slot], t0)
    requires Restored(done, t0, t1, t)
    ensures SafeChain(t, slot.path) <==> SafeChain(t1, slot.path)
  {
    var p := slot.path;
    assert slot in done + [slot] && forall s <- done :: s in done + [slot];
    forall k | 0 < k < |p| ensures p[..k] in t && !t[p[..k]].Dir? <==> p[..k] in t1 && !t1[p[..k]].Dir? {
      var q := p[..k];
      assert Lookup(t, q) == Expected(done, t0, t1, q);
      assert !Under(done, q) by {
        forall s | s in done ensures !(s.path <= q) {
          assert s.path <= q ==> s.path <= p && s == slot;
        }
      }
    }
  }

  /** One more slot put back. */
  lemma RestoreNext(sorted: seq<Slot>, n: nat, t0: Tree, t1: Tree, t: Tree)
    requires n < |sorted| && Captures(sorted, t0) && WellFormed(t0) && Restored(sorted[..n], t0, t1, t)
    ensures SafeChain(t, sorted[n].path) <==> SafeChain(t1, sorted[n].path)
    ensures Restored(sorted[..n + 1], t0, t1, PutBack(t, sorted[n]))
  {
    assert sorted[..n + 1] == sorted[..n] + [sorted[n]];
    CapturesSome(sorted, sorted[..n] + [sorted[n]], t0);
    ChainAtStep(sorted[..n], sorted[n], t0, t1, t);
    ExpectedSteps(sorted[..n], sorted[n], t0, t1, t);
  }

  /** The live file tree. */
  class Host {
    var tree: Tree

    method RequireSafeParentChain(p: Path, create: bool) returns (ok: bool)
      modifies this
      ensures !create ==> tree == old(tree)
      ensures create ==> (ok <==> SafeChain(old(tree), p)) && (ok ==> tree == WithParents(old(tree), p))
      ensures !create && WellFormed(tree) ==> (ok <==> SafeChain(tree, p))
    {
      var k := 1;
      while k < |p|
        invariant 1 <= k && (|p| > 0 ==> k <= |p|)
        invariant !create || |p| == 0 ==> tree == old(tree)
        invariant create && |p| > 0 ==> tree == WithParents(old(tree), p[..k])
        invariant forall i :: 0 < i < k && i < |p| && p[..i] in old(tree) ==> old(tree)[p[..i]].Dir?
      {
        var q := p[..k];
        WithParentsStep(old(tree), p, k);
        if q in tree {
          if !tree[q].Dir? { return false; }
        } else if create {
          tree := tree[q := NEW_DIR];
        } else {
          if WellFormed(tree) { MissingParent(tree, p, k); }
          return true;
        }
        k := k + 1;
      }
      assert |p| > 0 ==> p[..k] == p;
      assert |p| == 0 ==> WithParents(tree, p) == tree;
      return true;
    }

    /** Captures the canonical targets of `raws`; None when a target or a parent chain is unsafe. */
    method SnapshotHostPaths(raws: seq<RawPath>) returns (r: Option<seq<Slot>>)
      requires WellFormed(tree)
      modifies this
      ensures tree == old(tree)
      ensures r.Some? ==> Captures(r.value, tree) && (forall raw <- raws :: SafeTarget(raw))
      ensures r.Some? ==> forall p :: p in PathsOf(r.value) <==> Minimal(p, Inputs(raws))
      ensures r.Some? <==>
        (forall raw <- raws :: SafeTarget(raw)) && (forall p :: Minimal(p, Inputs(raws)) ==> SafeChain(tree, p))
    {
      var targets := CanonicalTargets(raws);
      if targets.None? { return None; }
      var slots: seq<Slot> := [];
      for i := 0 to |targets.value|
        invariant tree == old(tree)
        invariant |slots| == i
        invariant forall k :: 0 <= k < i ==>
          slots[k] == SlotOf(tree, targets.value[k]) && SafeChain(tree, targets.value[k])
      {
        var p := targets.value[i];
        assert p in targets.value;
        var ok := RequireSafeParentChain(p, false);
        if !ok { return None; }
        slots := slots + [SlotOf(tree, p)];
      }
      assert PathsOf(slots) == targets.value;
      forall a, b | a in slots && b in slots && a.path <= b.path ensures a == b {
        AntichainUnique(targets.value, a.path, b.path);
      }
      return Some(slots);
    }

    /**
     Puts every captured subtree back, deepest path first. Success depends on the parents alone, and
     decides the whole tree: captured subtrees as they were, missing parents made, nothing else touched.
     */
    method RestoreHostPaths(slots: seq<Slot>, ghost t0: Tree) returns (ok: bool)
      requires Captures(slots, t0) && WellFormed(t0)
      modifies this
      ensures ok <==> forall s <- slots :: SafeChain(old(tree), s.path)
      ensures ok ==> Restored(slots, t0, old(tree), tree)
    {
      var sorted := DeepestFirst(slots);
      CapturesSome(slots, sorted, t0);
      for n := 0 to |sorted|
        invariant Restored(sorted[..n], t0, old(tree), tree)
        invariant forall i :: 0 <= i < n ==> SafeChain(old(tree), sorted[i].path)
      {
        RestoreNext(sorted, n, t0, old(tree), tree);
        ok := RestoreOne(sorted[n]);
        if !ok {
          assert sorted[n] in slots;
          return;
        }
      }
      assert sorted[..|sorted|] == sorted;
      SameSlots(sorted, slots, t0, old(tree), tree);
      return true;
    }

    method RestoreOne(slot: Slot) returns (ok: bool)
      modifies this
      ensures ok <==> SafeChain(old(tree), slot.path)
      ensures ok ==> tree == PutBack(old(tree), slot)
    {
      ok := RequireSafeParentChain(slot.path, true);
      if !ok { return; }
      tree := Cut(tree, slot.path);
      if slot.existed { tree := tree + slot.captured; }
    }
  }

  /** Longer paths come first. */
  predicate Deep(slots: seq<Slot>) {
    slots == [] || ((forall s <- slots[1..] :: |s.path| <= |slots[0].path|) && Deep(slots[1..]))
  }

  function InsertDeep(slot: Slot, slots: seq<Slot>): (r: seq<Slot>)
    ensures forall x :: x in r <==> x == slot || x in slots
  {
    if slots == [] || |slots[0].path| <= |slot.path| then [slot] + slots
    else [slots[0]] + InsertDeep(slot, slots[1..])
  }

  function DeepestFirst(slots: seq<Slot>): (r: seq<Slot>)
    ensures forall x :: x in r <==> x in slots
  {
    if slots == [] then [] else InsertDeep(slots[0], DeepestFirst(slots[1..]))
  }

  lemma {:induction false} InsertedDeep(slot: Slot, slots: seq<Slot>)
    requires Deep(slots)
    ensures Deep(InsertDeep(slot, slots))
  {
    var r := InsertDeep(slot, slots);
    if slots == [] || |slots[0].path| <= |slot.path| {
      assert r[1..] == slots;
    } else {
      InsertedDeep(slot, slots[1..]);
      assert r[1..] == InsertDeep(slot, slots[1..]);
    }
  }

  /** The captured paths are put back deepest first. */
  lemma {:induction false} DeepestComeFirst(slots: seq<Slot>)
    ensures Deep(DeepestFirst(slots))
  {
    if slots != [] {
      DeepestComeFirst(slots[1..]);
      InsertedDeep(slots[0], DeepestFirst(slots[1..]));
    }
  }

  // ----- The promise -----

  /**
   After a capture of any requested paths and a successful restore over any later tree: the subtree of
   every requested path is as captured, absence included; outside them every entry of the later tree
   is untouched, and the only new entries are missing parents of a target.
   */
  lemma RestoreIsExact(raws: seq<RawPath>, slots: seq<Slot>, t0: Tree, t1: Tree, t2: Tree)
    requires Captures(slots, t0) && forall p :: p in PathsOf(slots) <==> Minimal(p, Inputs(raws))
    requires Restored(slots, t0, t1, t2)
    ensures forall p <- Inputs(raws) :: Subtree(t2, p) == Subtree(t0, p)
    ensures forall q <- t1 :: !Under(slots, q) ==> q in t2 && t2[q] == t1[q]
    ensures forall q <- t2 :: !Under(slots, q) && q !in t1 ==> Above(slots, q) && t2[q] == NEW_DIR
  {
    forall p | p in Inputs(raws) ensures Subtree(t2, p) == Subtree(t0, p) {
      MinimalBelow(p, Inputs(raws));
      var m :| Minimal(m, Inputs(raws)) && m <= p;
      var i :| 0 <= i < |slots| && PathsOf(slots)[i] == m;
      forall q: Path | p <= q ensures Lookup(t2, q) == Lookup(t0, q) {
        assert slots[i] in slots && slots[i].path <= q;
        assert Under(slots, q);
      }
      forall q: Path ensures Lookup(Subtree(t2, p), q) == Lookup(Subtree(t0, p), q) {
        assert p <= q ==> Lookup(t2, q) == Lookup(t0, q);
      }
      SameLookup(Subtree(t2, p), Subtree(t0, p));
    }
    forall q | q in t1 && !Under(slots, q) ensures q in t2 && t2[q] == t1[q] {
      assert Lookup(t2, q) == Expected(slots, t0, t1, q);
    }
    forall q | q in t2 && !Under(slots, q) && q !in t1 ensures Above(slots, q) && t2[q] == NEW_DIR {
      assert Lookup(t2, q) == Expected(slots, t0, t1, q);
    }
  }

  lemma SameLookup(a: Tree, b: Tree)
    requires forall q: Path :: Lookup(a, q) == Lookup(b, q)
    ensures a == b
  {
    forall q: Path ensures (q in a <==> q in b) && (q in a ==> a[q] == b[q]) {
      assert Lookup(a, q) == Lookup(b, q);
    }
  }

  lemma {:induction false} MinimalBelow(p: Path, s: set<Path>)
    requires p in s
    ensures exists m :: Minimal(m, s) && m <= p
    decreases |p|
  {
    if !Minimal(p, s) {
      var q :| q in s && q <= p && q != p;
      MinimalBelow(q, s);
      var m :| Minimal(m, s) && m <= q;
      assert m <= p;
    }
  }
}
