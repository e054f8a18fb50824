/**
 Staging a signed release tree: exactly the files the signed manifest lists are copied into a fresh
 root-owned tree, and the inventory of the result is the manifest's own list.
 */
module ReleaseStaging {
  import opened Common

  type Path = seq<string>
  type Bytes = string
  type Hash = string

  const MANIFEST := "tec-tac-release.json"
  const SIGNATURE := "tec-tac-release.json.sig"
  const MAX_FILES := 20000

  datatype Node = Dir | File(bytes: Bytes) | Special
  type Tree = map<Path, Node>

  predicate SafeRel(p: Path) {
    && p != []
    && (forall part <- p :: part != "" && part != "." && part != ".." && part != ".git")
    && (|p| == 1 ==> p[0] != MANIFEST && p[0] != SIGNATURE)
  }

  /** What a safe path is: names only, none of them Git metadata, and not one of the two signing outputs at the top. */
  lemma SafeRelMeans(p: Path, part: string)
    ensures SafeRel([part]) <==>
      && part != "" && part != "." && part != ".." && part != ".git"
      && part != "tec-tac-release.json" && part != "tec-tac-release.json.sig"
    ensures |p| > 1 ==>
      (SafeRel(p) <==> forall x <- p :: x != "" && x != "." && x != ".." && x != ".git")
    ensures !SafeRel([])
  {
    assert part in [part] && forall x <- [part] :: x == part;
  }

  /** The signing outputs and Git metadata at the top of a tree are not part of it. */
  predicate Skipped(p: Path) {
    p != [] && (p[0] == ".git" || p[0] == MANIFEST || p[0] == SIGNATURE)
  }

  predicate Visible(p: Path) { p != [] && !Skipped(p) }

  ghost predicate WellFormed(t: Tree) {
    && [] !in t
    && forall q, k :: q in t && 0 < k < |q| ==> q[..k] in t && t[q[..k]].Dir?
  }

  /** Path, size and hash of every visible regular file. */
  function Inventory(hash: Bytes -> Hash, t: Tree): map<Path, (nat, Hash)> {
    map p | p in t && Visible(p) && t[p].File? :: (|t[p].bytes|, hash(t[p].bytes))
  }

  predicate EntryOk(t: Tree, p: Path)
    requires p in t
  {
    SafeRel(p) && !t[p].Special?
  }

  predicate IsChild(d: Path, p: Path) {
    |p| == |d| + 1 && d < p
  }

  /** One directory: its files, its subdirectories, or None at the first unsafe or special entry. */
  method ScanDirectory(t: Tree, d: Path) returns (r: Option<(set<Path>, set<Path>)>)
    ensures r.Some? <==> forall p <- t :: IsChild(d, p) && Visible(p) ==> EntryOk(t, p)
    ensures r.Some? ==> r.value.0 == set p | p in t && IsChild(d, p) && Visible(p) && t[p].File?
    ensures r.Some? ==> r.value.1 == set p | p in t && IsChild(d, p) && Visible(p) && t[p].Dir?
  {
    var left := set p | p in t && IsChild(d, p);
    var files: set<Path>, dirs: set<Path> := {}, {};
    while left != {}
      invariant left <= set p | p in t && IsChild(d, p)
      invariant forall p <- t :: IsChild(d, p) && Visible(p) && p !in left ==> EntryOk(t, p)
      invariant files == set p | p in t && IsChild(d, p) && Visible(p) && t[p].File? && p !in left
      invariant dirs == set p | p in t && IsChild(d, p) && Visible(p) && t[p].Dir? && p !in left
      decreases left
    {
      var p :| p in left;
      left := left - {p};
      if Visible(p) {
        if !EntryOk(t, p) { return None; }
        if t[p].Dir? { dirs := dirs + {p}; } else { files := files + {p}; }
      }
    }
    return Some((files, dirs));
  }

  // ----- The walk -----

  predicate Antichain(q: seq<Path>) {
    forall i, j :: 0 <= i < |q| && 0 <= j < |q| && i != j ==> !(q[i] <= q[j])
  }

  predicate UnderAny(q: seq<Path>, p: Path) {
    exists d <- q :: d <= p
  }

  /** The entries still to be visited. */
  ghost function Todo(t: Tree, pending: seq<Path>): set<Path> {
    set p | p in t.Keys + {[]} && UnderAny(pending, p)
  }

  function Listed(hash: Bytes -> Hash, t: Tree, fs: set<Path>): map<Path, (nat, Hash)> {
    map p | p in fs && p in t && t[p].File? :: (|t[p].bytes|, hash(t[p].bytes))
  }

  ghost function DoneFiles(t: Tree, pending: seq<Path>): set<Path> {
    set p | p in t && Visible(p) && t[p].File? && !UnderAny(pending, p)
  }

  ghost predicate Walking(t: Tree, pending: seq<Path>) {
    && Antichain(pending)
    && (forall d <- pending :: d == [] || (d in t && Visible(d) && t[d].Dir? && SafeRel(d)))
    && (forall p <- t :: Visible(p) && !UnderAny(pending, p) ==> EntryOk(t, p))
  }

  /** A visible entry below `d` is a child of it or lies below a child directory. */
  lemma BelowChild(t: Tree, d: Path, p: Path)
    requires WellFormed(t) && p in t && Visible(p) && d < p
    ensures var c := p[..|d| + 1];
      c in t && IsChild(d, c) && Visible(c) && c <= p && (c != p ==> t[c].Dir?)
  {
    var c := p[..|d| + 1];
    assert c[0] == p[0];
    assert |c| == |p| ==> c == p;
  }

  /** Replacing a pending directory by its subdirectories visits exactly it and its child files. */
  lemma UnderAfterScan(t: Tree, rest: seq<Path>, d: Path, dirs: seq<Path>, p: Path)
    requires WellFormed(t) && p in t && Visible(p)
    requires forall c :: c in dirs <==> c in t && IsChild(d, c) && Visible(c) && t[c].Dir?
    requires forall x <- rest + [d] :: x == [] || (x in t && t[x].Dir?)
    requires Antichain(rest + [d])
    ensures UnderAny(rest + dirs, p) <==> UnderAny(rest + [d], p) && p != d && !(IsChild(d, p) && !t[p].Dir?)
  {
    assert d in rest + [d];
    assert forall x <- rest :: x in rest + [d] && x in rest + dirs;
    assert forall x <- dirs :: x in rest + dirs;
    if UnderAny(rest + dirs, p) {
      var x :| x in rest + dirs && x <= p;
      if IsChild(d, p) { PrefixOfChild(d, p, x); }
      if x in rest { RestApart(rest, d, x); }
    }
    if UnderAny(rest + [d], p) && p != d && !(IsChild(d, p) && !t[p].Dir?) {
      var x :| x in rest + [d] && x <= p;
      if x == d {
        BelowChild(t, d, p);
        assert p[..|d| + 1] in dirs;
      }
    }
  }

  lemma PrefixOfChild(d: Path, p: Path, x: Path)
    requires IsChild(d, p)
    ensures x <= p ==> x <= d || x == p
  {
    assert x <= p && |x| == |p| ==> x == p;
  }

  lemma RestApart(rest: seq<Path>, d: Path, x: Path)
    requires Antichain(rest + [d]) && x in rest
    ensures !(x <= d) && !(d <= x)
  {
    var i :| 0 <= i < |rest| && rest[i] == x;
    assert (rest + [d])[i] == x && (rest + [d])[|rest|] == d;
  }

  lemma AntichainAfterScan(t: Tree, rest: seq<Path>, d: Path, dirs: seq<Path>)
    requires Antichain(rest + [d])
    requires forall c <- dirs :: IsChild(d, c)
    requires forall i, j :: 0 <= i < j < |dirs| ==> dirs[i] != dirs[j]
    ensures Antichain(rest + dirs)
  {
    var q := rest + dirs;
    forall i, j | 0 <= i < |q| && 0 <= j < |q| && i != j ensures !(q[i] <= q[j]) {
      if i < |rest| { assert q[i] in rest; RestApart(rest, d, q[i]); } else { assert q[i] in dirs; }
      if j < |rest| { assert q[j] in rest; RestApart(rest, d, q[j]); } else { assert q[j] in dirs; }
      if i < |rest| && j < |rest| {
        assert (rest + [d])[i] == q[i] && (rest + [d])[j] == q[j];
      } else if i >= |rest| && j >= |rest| {
        assert q[i] == dirs[i - |rest|] && q[j] == dirs[j - |rest|];
        assert |q[i]| == |q[j]|;
      } else if j >= |rest| {
        PrefixOfChild(d, q[j], q[i]);
      }
    }
  }

  method Enumerate(s: set<Path>) returns (q: seq<Path>)
    ensures forall p :: p in q <==> p in s
    ensures forall i, j :: 0 <= i < j < |q| ==> q[i] != q[j]
  {
    q := [];
    var left := s;
    while left != {}
      invariant left <= s && forall p :: p in q <==> p in s && p !in left
      invariant forall i, j :: 0 <= i < j < |q| ==> q[i] != q[j]
      decreases left
    {
      var p :| p in left;
      left := left - {p};
      q := q + [p];
    }
  }

  lemma WalkStep(hash: Bytes -> Hash, t: Tree, rest: seq<Path>, d: Path, files: set<Path>, dirs: seq<Path>)
    requires WellFormed(t) && Walking(t, rest + [d])
    requires forall p <- t :: IsChild(d, p) && Visible(p) ==> EntryOk(t, p)
    requires files == set p | p in t && IsChild(d, p) && Visible(p) && t[p].File?
    requires forall c :: c in dirs <==> c in t && IsChild(d, c) && Visible(c) && t[c].Dir?
    requires forall i, j :: 0 <= i < j < |dirs| ==> dirs[i] != dirs[j]
    ensures Walking(t, rest + dirs)
    ensures DoneFiles(t, rest + dirs) == DoneFiles(t, rest + [d]) + files
    ensures Todo(t, rest + dirs) < Todo(t, rest + [d])
  {
    AntichainAfterScan(t, rest, d, dirs);
    forall p | p in t && Visible(p)
      ensures UnderAny(rest + dirs, p) <==> UnderAny(rest + [d], p) && p != d && !(IsChild(d, p) && !t[p].Dir?)
    {
      UnderAfterScan(t, rest, d, dirs, p);
    }
    assert d in rest + [d];
    TodoShrinks(t, rest, d, dirs);
    forall p | p in files ensures UnderAny(rest + [d], p) { assert d <= p; }
  }

  lemma TodoShrinks(t: Tree, rest: seq<Path>, d: Path, dirs: seq<Path>)
    requires Antichain(rest + [d]) && (d == [] || d in t)
    requires forall c <- dirs :: IsChild(d, c)
    ensures Todo(t, rest + dirs) < Todo(t, rest + [d])
  {
    assert d in rest + [d] && forall x <- rest :: x in rest + [d];
    forall p | p in Todo(t, rest + dirs) ensures p in Todo(t, rest + [d]) {
      var x :| x in rest + dirs && x <= p;
      assert x in dirs ==> d <= p;
    }
    assert d in Todo(t, rest + [d]);
    assert !UnderAny(rest + dirs, d) by {
      forall x | x in rest + dirs ensures !(x <= d) {
        if x in rest { RestApart(rest, d, x); }
      }
    }
  }

  lemma WalkDone(hash: Bytes -> Hash, t: Tree)
    ensures Listed(hash, t, DoneFiles(t, [])) == Inventory(hash, t)
  {
    assert forall p <- t :: !UnderAny([], p);
  }

  lemma ListedMore(hash: Bytes -> Hash, t: Tree, a: set<Path>, b: set<Path>)
    ensures Listed(hash, t, a) + Listed(hash, t, b) == Listed(hash, t, a + b)
  {
  }

  lemma WalkStart(hash: Bytes -> Hash, t: Tree)
    ensures Walking(t, [[]]) && Listed(hash, t, DoneFiles(t, [[]])) == map[]
  {
    var top: seq<Path> := [[]];
    assert forall p <- t :: UnderAny(top, p) by { assert top[0] in top; }
  }

  /** The directory walk: None on an unsafe name, a special file or too many files, else the inventory. */
  method TreeInventory(hash: Bytes -> Hash, t: Tree) returns (r: Option<map<Path, (nat, Hash)>>)
    requires WellFormed(t)
    ensures r.Some? <==> |Inventory(hash, t)| <= MAX_FILES && forall p <- t :: Visible(p) ==> EntryOk(t, p)
    ensures r.Some? ==> r.value == Inventory(hash, t)
    ensures r.Some? ==> forall p <- t :: Visible(p) ==> SafeRel(p) && t[p] != Special
  {
    var pending: seq<Path> := [[]];
    var found: map<Path, (nat, Hash)> := map[];
    WalkStart(hash, t);
    while pending != []
      invariant Walking(t, pending)
      invariant found == Listed(hash, t, DoneFiles(t, pending))
      decreases Todo(t, pending)
    {
      var n := |pending| - 1;
      var d, rest := pending[n], pending[..n];
      assert pending == rest + [d];
      var scan := ScanDirectory(t, d);
      if scan.None? { return None; }
      var dirs := Enumerate(scan.value.1);
      WalkStep(hash, t, rest, d, scan.value.0, dirs);
      ListedMore(hash, t, DoneFiles(t, pending), scan.value.0);
      found := found + Listed(hash, t, scan.value.0);
      pending := rest + dirs;
    }
    WalkDone(hash, t);
    if |found| > MAX_FILES { return None; }
    return Some(found);
  }

  // ----- Staging -----

  /** A file entry of the signed manifest; size and digest are None when malformed. */
  datatype RawEntry = RawEntry(path: Path, size: Option<nat>, digest: Option<Hash>)
  datatype Entry = Entry(path: Path, size: nat, digest: Hash)

  /** A release manifest; `schema2` when it parses as a schema-2 manifest of the component. */
  datatype Manifest = Manifest(schema2: bool, files: seq<RawEntry>, bytes: Bytes)

  predicate RawOk(e: RawEntry) {
    SafeRel(e.path) && e.size.Some? && e.digest.Some?
  }

  ghost predicate ManifestOk(m: Manifest) {
    && m.schema2 && 1 <= |m.files| <= MAX_FILES
    && (forall e <- m.files :: RawOk(e))
    && (forall i, j :: 0 <= i < j < |m.files| ==> m.files[i].path != m.files[j].path)
  }

  function EntryOf(e: RawEntry): Entry {
    Entry(e.path, e.size.GetOr(0), e.digest.GetOr(""))
  }

  function EntriesOf(m: Manifest): seq<Entry> {
    seq(|m.files|, i requires 0 <= i < |m.files| => EntryOf(m.files[i]))
  }

  /** The declared path, size and hash map of a manifest. */
  ghost function Declared(es: seq<Entry>): map<Path, (nat, Hash)> {
    if es == [] then map[]
    else Declared(es[..|es| - 1])[es[|es| - 1].path := (es[|es| - 1].size, es[|es| - 1].digest)]
  }

  /** An entry needs a safe path, a size and a digest. */
  lemma EntryNeeds(m: Manifest, e: RawEntry)
    requires ManifestOk(m) && e in m.files
    ensures SafeRel(e.path) && e.size.Some? && e.digest.Some? && m.schema2 && 1 <= |m.files| <= 20000
    ensures forall i, j :: 0 <= i < |m.files| && 0 <= j < |m.files| && m.files[i].path == m.files[j].path ==> i == j
  {
  }

  method SignedFileEntries(m: Manifest) returns (r: Option<seq<Entry>>)
    ensures r.Some? <==> ManifestOk(m)
    ensures r.Some? ==> r.value == EntriesOf(m) && forall e <- r.value :: SafeRel(e.path)
  {
    if !m.schema2 || m.files == [] || |m.files| > MAX_FILES { return None; }
    var es: seq<Entry> := [];
    var seen: set<Path> := {};
    for i := 0 to |m.files|
      invariant |es| == i
      invariant forall k :: 0 <= k < i ==> RawOk(m.files[k]) && es[k] == EntryOf(m.files[k])
      invariant forall j, k :: 0 <= j < k < i ==> m.files[j].path != m.files[k].path
      invariant forall p :: p in seen <==> exists k :: 0 <= k < i && m.files[k].path == p
    {
      var e := m.files[i];
      if !RawOk(e) || e.path in seen { return None; }
      seen := seen + {e.path};
      es := es + [EntryOf(e)];
    }
    return Some(es);
  }

  /** The file is reached through real directories, is regular, and is the one the manifest signs. */
  predicate SourceMatches(hash: Bytes -> Hash, source: Tree, e: Entry) {
    && (forall k :: 0 < k < |e.path| ==> e.path[..k] in source && source[e.path[..k]].Dir?)
    && e.path in source && source[e.path].File?
    && |source[e.path].bytes| == e.size && hash(source[e.path].bytes) == e.digest
  }

  /**
   What a copied file must be: a regular file of the signed size and digest, with real directories all
   the way to it.
   */
  lemma SourceMatchesMeans(hash: Bytes -> Hash, source: Tree, e: Entry)
    ensures SourceMatches(hash, source, e) ==>
      && e.path in source && source[e.path].File?
      && source[e.path] == File(source[e.path].bytes) && |source[e.path].bytes| == e.size
      && hash(source[e.path].bytes) == e.digest
      && forall k :: 1 <= k <= |e.path| - 1 ==> e.path[..k] in source && source[e.path[..k]] == Dir
  {
  }

  function Parents(p: Path): set<Path> {
    set k | 0 < k < |p| :: p[..k]
  }

  lemma InParents(q: Path, p: Path)
    ensures q in Parents(p) <==> q != [] && q < p
  {
    if q != [] && q < p { assert p[..|q|] == q; }
  }

  function PutFile(t: Tree, p: Path, bytes: Bytes): Tree {
    (map q | q in t.Keys + Parents(p) :: if q in t then t[q] else Dir)[p := File(bytes)]
  }

  predicate CanPut(t: Tree, p: Path) {
    p !in t && forall k :: 0 < k < |p| && p[..k] in t ==> t[p[..k]].Dir?
  }

  ghost predicate Comparable(es: seq<Entry>, p: Path) {
    exists e <- es :: e.path <= p || p <= e.path
  }

  ghost predicate AtOrAbove(es: seq<Entry>, q: Path) {
    exists e <- es :: q <= e.path
  }

  ghost predicate IsEntry(es: seq<Entry>, q: Path) {
    exists e <- es :: q == e.path
  }

  lemma EntriesPush(es: seq<Entry>, e: Entry, q: Path)
    ensures AtOrAbove(es + [e], q) <==> AtOrAbove(es, q) || q <= e.path
    ensures IsEntry(es + [e], q) <==> IsEntry(es, q) || q == e.path
  {
    assert e in es + [e] && forall x <- es :: x in es + [e];
  }

  /** Nothing but the entries and their parents, the entries as files and the parents as directories. */
  ghost predicate ShapeAt(t: Tree, es: seq<Entry>, q: Path) {
    && (q in t <==> q != [] && AtOrAbove(es, q))
    && (q in t ==> !t[q].Special? && (t[q].File? <==> IsEntry(es, q)))
  }

  ghost predicate BytesAt(hash: Bytes -> Hash, t: Tree, e: Entry) {
    e.path in t && t[e.path].File? && (|t[e.path].bytes|, hash(t[e.path].bytes)) == (e.size, e.digest)
  }

  /** What a staging directory holds after the entries `es`: their files, their parents, nothing else. */
  ghost predicate Holds(hash: Bytes -> Hash, t: Tree, es: seq<Entry>) {
    && (forall q: Path :: ShapeAt(t, es, q))
    && (forall e <- es :: BytesAt(hash, t, e))
  }

  lemma CanPutOnlyIf(t: Tree, es: seq<Entry>, p: Path, e: Entry)
    requires ShapeAt(t, es, p) && ShapeAt(t, es, e.path) && p != []
    requires e in es && e.path != [] && (e.path <= p || p <= e.path)
    ensures !CanPut(t, p)
  {
    if p <= e.path {
      assert AtOrAbove(es, p);
    } else {
      assert p[..|e.path|] == e.path;
      assert IsEntry(es, e.path) && AtOrAbove(es, e.path);
    }
  }

  lemma CanPutIff(hash: Bytes -> Hash, t: Tree, es: seq<Entry>, p: Path)
    requires Holds(hash, t, es) && p != [] && forall e <- es :: e.path != []
    ensures CanPut(t, p) <==> !Comparable(es, p)
  {
    assert ShapeAt(t, es, p);
    if Comparable(es, p) {
      var e :| e in es && (e.path <= p || p <= e.path);
      assert ShapeAt(t, es, e.path);
      CanPutOnlyIf(t, es, p, e);
    } else {
      forall k | 0 < k < |p| && p[..k] in t ensures t[p[..k]].Dir? {
        assert ShapeAt(t, es, p[..k]);
        assert p[..k] <= p;
      }
    }
  }

  lemma PutShape(t: Tree, es: seq<Entry>, e: Entry, bytes: Bytes, q: Path)
    requires ShapeAt(t, es, q) && ShapeAt(t, es, e.path) && e.path != [] && CanPut(t, e.path)
    ensures ShapeAt(PutFile(t, e.path, bytes), es + [e], q)
  {
    InParents(q, e.path);
    EntriesPush(es, e, q);
    assert q <= e.path ==> q == e.path || q < e.path;
    assert IsEntry(es, q) ==> AtOrAbove(es, q);
    assert q in Parents(e.path) ==> exists k :: 0 < k < |e.path| && e.path[..k] == q;
  }

  lemma PutKeepsHolds(hash: Bytes -> Hash, t: Tree, es: seq<Entry>, e: Entry, bytes: Bytes)
    requires Holds(hash, t, es) && e.path != [] && CanPut(t, e.path) && (|bytes|, hash(bytes)) == (e.size, e.digest)
    ensures Holds(hash, PutFile(t, e.path, bytes), es + [e])
  {
    var t' := PutFile(t, e.path, bytes);
    assert ShapeAt(t, es, e.path);
    forall q: Path ensures ShapeAt(t', es + [e], q) {
      assert ShapeAt(t, es, q);
      PutShape(t, es, e, bytes, q);
    }
    forall x | x in es + [e] ensures BytesAt(hash, t', x) {
      if x in es { assert BytesAt(hash, t, x); }
    }
  }

  ghost predicate Incomparable(es: seq<Entry>) {
    forall i, j :: 0 <= i < j < |es| ==> !(es[i].path <= es[j].path) && !(es[j].path <= es[i].path)
  }

  /** No entry takes the place of a signing output or lies below it. */
  ghost predicate OutputsFree(es: seq<Entry>) {
    forall e <- es :: e.path != [] && e.path[0] != MANIFEST && e.path[0] != SIGNATURE
  }

  lemma IncomparablePrefix(es: seq<Entry>, i: nat)
    requires i < |es|
    ensures Comparable(es[..i], es[i].path) ==> !Incomparable(es)
    ensures !Comparable(es[..i], es[i].path) ==>
      forall k :: 0 <= k < i ==> !(es[k].path <= es[i].path) && !(es[i].path <= es[k].path)
  {
    if Comparable(es[..i], es[i].path) {
      var k :| 0 <= k < i && (es[..i][k].path <= es[i].path || es[i].path <= es[..i][k].path);
      assert es[k] == es[..i][k];
    } else {
      forall k | 0 <= k < i ensures !(es[k].path <= es[i].path) && !(es[i].path <= es[k].path) {
        assert es[k] in es[..i];
      }
    }
  }

  lemma {:induction false} DeclaredPaths(es: seq<Entry>, p: Path)
    ensures p in Declared(es) <==> IsEntry(es, p)
  {
    if es != [] {
      var n := |es| - 1;
      DeclaredPaths(es[..n], p);
      assert es == es[..n] + [es[n]];
      EntriesPush(es[..n], es[n], p);
    }
  }

  lemma {:induction false} DeclaredEntry(es: seq<Entry>, k: nat)
    requires Incomparable(es) && k < |es|
    ensures es[k].path in Declared(es) && Declared(es)[es[k].path] == (es[k].size, es[k].digest)
  {
    var n := |es| - 1;
    if k < n {
      DeclaredEntry(es[..n], k);
      assert es[..n][k] == es[k] && es[k].path != es[n].path;
    }
  }

  function WithOutputs(t: Tree, m: Manifest, signature: Bytes): Tree {
    t[[MANIFEST] := File(m.bytes)][[SIGNATURE] := File(signature)]
  }

  lemma OutputTaken(t: Tree, es: seq<Entry>, name: string)
    requires ShapeAt(t, es, [name])
    ensures [name] in t <==> exists e <- es :: e.path != [] && e.path[0] == name
  {
    assert forall e <- es :: [name] <= e.path <==> e.path != [] && e.path[0] == name;
  }

  lemma StagedWellFormed(hash: Bytes -> Hash, t: Tree, es: seq<Entry>, m: Manifest, signature: Bytes)
    requires Holds(hash, t, es) && Incomparable(es)
    ensures WellFormed(WithOutputs(t, m, signature)) || [MANIFEST] in t || [SIGNATURE] in t
  {
    var t' := WithOutputs(t, m, signature);
    assert ShapeAt(t, es, []);
    if [MANIFEST] !in t && [SIGNATURE] !in t {
      forall q, k | q in t' && 0 < k < |q| ensures q[..k] in t' && t'[q[..k]].Dir? {
        assert ShapeAt(t, es, q) && ShapeAt(t, es, q[..k]);
        var e :| e in es && q <= e.path;
        assert q[..k] <= e.path;
        ParentNotEntry(es, e, q[..k]);
      }
    }
  }

  lemma ParentNotEntry(es: seq<Entry>, e: Entry, q: Path)
    requires Incomparable(es) && e in es && q < e.path
    ensures !IsEntry(es, q)
  {
  }

  lemma StagedInventory(hash: Bytes -> Hash, t: Tree, es: seq<Entry>, m: Manifest, signature: Bytes)
    requires Holds(hash, t, es) && Incomparable(es) && OutputsFree(es) && forall e <- es :: SafeRel(e.path)
    ensures Inventory(hash, WithOutputs(t, m, signature)) == Declared(es)
  {
    var t' := WithOutputs(t, m, signature);
    var inv, decl := Inventory(hash, t'), Declared(es);
    forall p: Path ensures p in inv <==> p in decl {
      DeclaredPaths(es, p);
      assert ShapeAt(t, es, p);
      if IsEntry(es, p) {
        var e :| e in es && e.path == p;
        assert AtOrAbove(es, p) && p[0] in p;
      }
    }
    forall p | p in inv ensures inv[p] == decl[p] {
      DeclaredPaths(es, p);
      var k :| 0 <= k < |es| && es[k].path == p;
      DeclaredEntry(es, k);
      assert BytesAt(hash, t, es[k]);
    }
  }

  lemma {:induction false} DeclaredSize(es: seq<Entry>)
    ensures |Declared(es)| <= |es|
  {
    if es != [] {
      var n := |es| - 1;
      DeclaredSize(es[..n]);
      assert Declared(es).Keys == Declared(es[..n]).Keys + {es[n].path};
    }
  }

  /** The inventory walk finds nothing to refuse in a staged tree. */
  lemma StagedEntriesOk(hash: Bytes -> Hash, t: Tree, es: seq<Entry>, m: Manifest, signature: Bytes)
    requires Holds(hash, t, es) && OutputsFree(es) && forall e <- es :: SafeRel(e.path)
    ensures forall p <- WithOutputs(t, m, signature) :: Visible(p) ==> EntryOk(WithOutputs(t, m, signature), p)
  {
    var t' := WithOutputs(t, m, signature);
    forall p | p in t' && Visible(p) ensures EntryOk(t', p) {
      assert ShapeAt(t, es, p);
      var e :| e in es && p <= e.path;
      assert forall part <- p :: part in e.path;
      assert p[0] == e.path[0];
    }
  }

  lemma CopyNext(hash: Bytes -> Hash, source: Tree, dest: Tree, es: seq<Entry>, i: nat)
    requires i < |es| && Holds(hash, dest, es[..i]) && Incomparable(es[..i]) && forall e <- es :: SafeRel(e.path)
    ensures !CanPut(dest, es[i].path) ==> !Incomparable(es)
    ensures CanPut(dest, es[i].path) ==> Incomparable(es[..i + 1])
    ensures CanPut(dest, es[i].path) && SourceMatches(hash, source, es[i]) ==>
      Holds(hash, PutFile(dest, es[i].path, source[es[i].path].bytes), es[..i + 1])
  {
    assert es[i] in es && forall x <- es[..i] :: x in es;
    IncomparablePrefix(es, i);
    CanPutIff(hash, dest, es[..i], es[i].path);
    assert es[..i + 1] == es[..i] + [es[i]];
    if CanPut(dest, es[i].path) && SourceMatches(hash, source, es[i]) {
      PutKeepsHolds(hash, dest, es[..i], es[i], source[es[i].path].bytes);
    }
  }

  /** Copies the listed files one by one; each is compared with its entry while it is copied. */
  method CopySigned(hash: Bytes -> Hash, source: Tree, es: seq<Entry>) returns (r: Option<Tree>)
    requires forall e <- es :: SafeRel(e.path)
    ensures r.Some? <==> (forall e <- es :: SourceMatches(hash, source, e)) && Incomparable(es)
    ensures r.Some? ==> Holds(hash, r.value, es)
  {
    var dest: Tree := map[];
    for i := 0 to |es|
      invariant Holds(hash, dest, es[..i])
      invariant forall k :: 0 <= k < i ==> SourceMatches(hash, source, es[k])
      invariant Incomparable(es[..i])
    {
      var e := es[i];
      assert e in es;
      CopyNext(hash, source, dest, es, i);
      if !SourceMatches(hash, source, e) || !CanPut(dest, e.path) { return None; }
      dest := PutFile(dest, e.path, source[e.path].bytes);
    }
    assert es[..|es|] == es;
    return Some(dest);
  }

  /**
   Stages a signed tree. It succeeds exactly when the manifest is well formed, every listed file is in
   the source as signed, and the listed paths can stand side by side; then the inventory walk accepts the
   result and returns the declared map, whatever else the source held.
   */
  method StageSignedTree(hash: Bytes -> Hash, source: Tree, m: Manifest, signature: Bytes) returns (r: Option<Tree>)
    ensures r.Some? <==>
      && ManifestOk(m)
      && (forall e <- EntriesOf(m) :: SourceMatches(hash, source, e))
      && Incomparable(EntriesOf(m)) && OutputsFree(EntriesOf(m))
    ensures r.Some? ==> WellFormed(r.value) && Inventory(hash, r.value) == Declared(EntriesOf(m))
    ensures r.Some? ==>
      |Inventory(hash, r.value)| <= MAX_FILES && forall p <- r.value :: Visible(p) ==> EntryOk(r.value, p)
  {
    var entries := SignedFileEntries(m);
    if entries.None? { return None; }
    var es := entries.value;
    var copied := CopySigned(hash, source, es);
    if copied.None? { return None; }
    var dest := copied.value;
    assert ShapeAt(dest, es, [MANIFEST]) && ShapeAt(dest, es, [SIGNATURE]);
    OutputTaken(dest, es, MANIFEST);
    OutputTaken(dest, es, SIGNATURE);
    if [MANIFEST] in dest || [SIGNATURE] in dest { return None; }
    StagedWellFormed(hash, dest, es, m, signature);
    StagedInventory(hash, dest, es, m, signature);
    DeclaredSize(es);
    StagedEntriesOk(hash, dest, es, m, signature);
    return Some(WithOutputs(dest, m, signature));
  }
}
