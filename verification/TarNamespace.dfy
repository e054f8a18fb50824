/**
 Checking the members of a recovery archive inside the archive namespace, and where extracting an
 accepted archive writes.
 */
module TarNamespace {
  import opened Common

  type Path = seq<string>

  /** A name or link text split on slashes; `bad` when it is empty or holds a NUL. */
  datatype RawName = RawName(bad: bool, absolute: bool, parts: seq<string>)

  datatype Kind = Regular | Directory | Symlink(link: RawName) | Hardlink(link: RawName) | Unsupported
  datatype RawMember = RawMember(name: RawName, kind: Kind)

  /** No part is empty, `.` or `..`: the path stays below the root it is joined to. */
  predicate Clean(p: Path) {
    forall part <- p :: part != "" && part != "." && part != ".."
  }

  function Resolve(base: Path, parts: seq<string>): (r: Option<Path>)
    ensures Clean(base) && r.Some? ==> Clean(r.value)
  {
    if parts == [] then Some(base)
    else
      var front := Resolve(base, parts[..|parts| - 1]);
      var part := parts[|parts| - 1];
      if front.None? || part == "" || part == "." then front
      else if part == ".." then
        if front.value == [] then None
        else
          var up := front.value[..|front.value| - 1];
          assert forall x <- up :: x in front.value;
          Some(up)
      else Some(front.value + [part])
  }

  function Normalized(raw: RawName, base: Path): (r: Option<Path>)
    ensures Clean(base) && r.Some? ==> Clean(r.value)
  {
    if raw.bad || raw.absolute then None else Resolve(base, raw.parts)
  }

  /** Pushes and pops the parts of a name; None when it would leave the archive. */
  method NormalizeTarPath(raw: RawName, base: Path) returns (r: Option<Path>)
    ensures r == Normalized(raw, base)
  {
    if raw.bad || raw.absolute { return None; }
    var parts := base;
    for i := 0 to |raw.parts|
      invariant Resolve(base, raw.parts[..i]) == Some(parts)
    {
      assert raw.parts[..i + 1][..i] == raw.parts[..i];
      var part := raw.parts[i];
      if part == "" || part == "." { continue; }
      if part == ".." {
        if parts == [] {
          StuckStaysStuck(base, raw.parts, i + 1);
          return None;
        }
        parts := parts[..|parts| - 1];
      } else {
        parts := parts + [part];
      }
    }
    assert raw.parts[..|raw.parts|] == raw.parts;
    return Some(parts);
  }

  lemma {:induction false} StuckStaysStuck(base: Path, parts: seq<string>, i: nat)
    requires i <= |parts| && Resolve(base, parts[..i]).None?
    ensures Resolve(base, parts).None?
    decreases |parts| - i
  {
    if i == |parts| {
      assert parts[..i] == parts;
    } else {
      assert parts[..i + 1][..i] == parts[..i];
      StuckStaysStuck(base, parts, i + 1);
    }
  }

  // ----- What normalisation does -----

  predicate ProperName(part: string) { part != "" && part != "." && part != ".." }

  /** How many parts climb, and how many go down. */
  function Ups(parts: seq<string>): nat {
    if parts == [] then 0 else Ups(parts[..|parts| - 1]) + if parts[|parts| - 1] == ".." then 1 else 0
  }

  function Downs(parts: seq<string>): nat {
    if parts == [] then 0 else Downs(parts[..|parts| - 1]) + if ProperName(parts[|parts| - 1]) then 1 else 0
  }

  /** Some prefix climbs more often than it and the base go down. */
  ghost predicate Climbs(base: Path, parts: seq<string>) {
    exists k :: 0 <= k <= |parts| && Ups(parts[..k]) > |base| + Downs(parts[..k])
  }

  /**
   A text is refused exactly when some prefix of it climbs above the top; otherwise the depth is what
   the parts add up to.
   */
  lemma {:induction false} DepthLaw(base: Path, parts: seq<string>)
    ensures Resolve(base, parts).None? <==> Climbs(base, parts)
    ensures Resolve(base, parts).Some? ==> |Resolve(base, parts).value| == |base| + Downs(parts) - Ups(parts)
  {
    assert parts[..|parts|] == parts;
    if parts == [] {
      assert forall k :: 0 <= k <= |parts| ==> parts[..k] == [];
    } else {
      var n := |parts| - 1;
      var front := parts[..n];
      DepthLaw(base, front);
      assert forall k :: 0 <= k <= n ==> front[..k] == parts[..k];
      if Climbs(base, front) {
        var k :| 0 <= k <= n && Ups(front[..k]) > |base| + Downs(front[..k]);
        assert Ups(parts[..k]) > |base| + Downs(parts[..k]);
      } else {
        assert forall k :: 0 <= k <= n ==> Ups(parts[..k]) <= |base| + Downs(parts[..k]);
        assert Climbs(base, parts) <==> Ups(parts) > |base| + Downs(parts);
      }
    }
  }

  /** A name is appended, a climb takes it away again, and blanks and dots do nothing. */
  lemma StepLaw(base: Path, parts: seq<string>, name: string)
    requires ProperName(name)
    ensures Resolve(base, parts + ["."]) == Resolve(base, parts) && Resolve(base, parts + [""]) == Resolve(base, parts)
    ensures Resolve(base, parts).Some? ==> Resolve(base, parts + [name]) == Some(Resolve(base, parts).value + [name])
    ensures Resolve(base, parts + [name] + [".."]) == Resolve(base, parts)
  {
    assert (parts + ["."])[..|parts|] == parts && (parts + [""])[..|parts|] == parts;
    assert (parts + [name])[..|parts|] == parts;
    assert (parts + [name] + [".."])[..|parts| + 1] == parts + [name];
    if Resolve(base, parts).Some? {
      assert (Resolve(base, parts).value + [name])[..|Resolve(base, parts).value|] == Resolve(base, parts).value;
    }
  }

  // ----- Accepting a member list -----

  function Parent(p: Path): Path {
    if p == [] then [] else p[..|p| - 1]
  }

  function PathOf(m: RawMember): Option<Path> {
    Normalized(m.name, [])
  }

  ghost predicate Named(ms: seq<RawMember>) {
    forall m <- ms :: PathOf(m).Some? && !m.kind.Unsupported?
  }

  ghost predicate Unique(ms: seq<RawMember>) {
    forall i, j :: 0 <= i < j < |ms| ==> PathOf(ms[i]) != PathOf(ms[j])
  }

  predicate IsParent(q: Path, p: Path) {
    q != [] && q < p
  }

  ghost predicate SymlinkAt(ms: seq<RawMember>, q: Path) {
    exists m <- ms :: m.kind.Symlink? && PathOf(m) == Some(q)
  }

  ghost predicate MemberAt(ms: seq<RawMember>, q: Path) {
    exists m <- ms :: PathOf(m) == Some(q)
  }

  ghost predicate LinkStaysInside(ms: seq<RawMember>, m: RawMember) {
    match m.kind
    case Symlink(link) => Normalized(link, Parent(PathOf(m).GetOr([]))).Some?
    case Hardlink(link) => Normalized(link, []).Some? && MemberAt(ms, Normalized(link, []).value)
    case _ => true
  }

  ghost predicate NotBeneathSymlink(ms: seq<RawMember>, p: Path) {
    forall q :: IsParent(q, p) ==> !SymlinkAt(ms, q)
  }

  ghost predicate Accepted(ms: seq<RawMember>) {
    && Named(ms) && Unique(ms)
    && forall m <- ms :: NotBeneathSymlink(ms, PathOf(m).value) && LinkStaysInside(ms, m)
  }

  /** Members stand at different paths, and none beneath a symlink. */
  lemma SeparateMembers(ms: seq<RawMember>, m: RawMember)
    requires Accepted(ms) && m in ms
    ensures forall n <- ms :: n != m ==> PathOf(n) != PathOf(m)
    ensures forall n <- ms, k :: n.kind.Symlink? && 0 < k < |PathOf(m).value| ==>
      PathOf(n) != Some(PathOf(m).value[..k])
  {
    forall n | n in ms && n != m ensures PathOf(n) != PathOf(m) {
      var i :| 0 <= i < |ms| && ms[i] == n;
      var j :| 0 <= j < |ms| && ms[j] == m;
    }
    forall n, k | n in ms && n.kind.Symlink? && 0 < k < |PathOf(m).value|
      ensures PathOf(n) != Some(PathOf(m).value[..k])
    {
      assert IsParent(PathOf(m).value[..k], PathOf(m).value) && NotBeneathSymlink(ms, PathOf(m).value);
    }
  }

  /**
   A name, or a link text read from where its member stands, that is absolute or climbs above the
   archive is not accepted.
   */
  lemma ClimbingIsRefused(ms: seq<RawMember>, m: RawMember)
    requires Accepted(ms) && m in ms
    ensures m.kind != Unsupported && forall n <- ms :: n != m ==> PathOf(n) != PathOf(m)
    ensures forall n <- ms, k :: n.kind.Symlink? && 0 < k < |PathOf(m).value| ==>
      PathOf(n) != Some(PathOf(m).value[..k])
    ensures !m.name.bad && !m.name.absolute && !Climbs([], m.name.parts)
    ensures m.kind.Symlink? ==>
      && !m.kind.link.bad && !m.kind.link.absolute
      && var p := PathOf(m).value; !Climbs(if p == [] then [] else p[..|p| - 1], m.kind.link.parts)
    ensures m.kind.Hardlink? ==>
      && !m.kind.link.bad && !m.kind.link.absolute && !Climbs([], m.kind.link.parts)
      && exists n <- ms :: PathOf(n) == Resolve([], m.kind.link.parts)
  {
    DepthLaw([], m.name.parts);
    assert LinkStaysInside(ms, m);
    SeparateMembers(ms, m);
    if m.kind.Symlink? { DepthLaw(Parent(PathOf(m).value), m.kind.link.parts); }
    if m.kind.Hardlink? { DepthLaw([], m.kind.link.parts); }
  }

  /** Accepts exactly the lists whose members and links stay inside the archive, none beneath a symlink. */
  method SafeTarMembers(ms: seq<RawMember>) returns (ok: bool)
    ensures ok <==> Accepted(ms)
  {
    var keys: set<Path> := {};
    var symlinks: set<Path> := {};
    for i := 0 to |ms|
      invariant Named(ms[..i]) && Unique(ms[..i])
      invariant forall q :: q in keys <==> MemberAt(ms[..i], q)
      invariant forall q :: q in symlinks <==> SymlinkAt(ms[..i], q)
    {
      assert ms[..i + 1] == ms[..i] + [ms[i]];
      assert ms[i] in ms;
      var p := NormalizeTarPath(ms[i].name, []);
      if p.None? { return false; }
      if p.value in keys {
        var k :| 0 <= k < i && PathOf(ms[..i][k]) == p;
        assert PathOf(ms[k]) == PathOf(ms[i]);
        return false;
      }
      if ms[i].kind.Unsupported? { return false; }
      forall k | 0 <= k < i ensures PathOf(ms[k]) != p {
        assert ms[..i][k] in ms[..i];
      }
      MemberAtStep(ms, i);
      keys := keys + {p.value};
      if ms[i].kind.Symlink? { symlinks := symlinks + {p.value}; }
    }
    assert ms[..|ms|] == ms;
    for i := 0 to |ms|
      invariant forall k :: 0 <= k < i ==> NotBeneathSymlink(ms, PathOf(ms[k]).value) && LinkStaysInside(ms, ms[k])
    {
      assert ms[i] in ms;
      var p := PathOf(ms[i]).value;
      for k := 1 to if |p| == 0 then 1 else |p|
        invariant forall j :: 0 < j < k ==> !SymlinkAt(ms, p[..j])
      {
        if p[..k] in symlinks {
          assert IsParent(p[..k], p);
          return false;
        }
      }
      forall q | IsParent(q, p) ensures !SymlinkAt(ms, q) { assert q == p[..|q|]; }
      match ms[i].kind
      case Symlink(link) =>
        var target := NormalizeTarPath(link, Parent(p));
        if target.None? { return false; }
      case Hardlink(link) =>
        var target := NormalizeTarPath(link, []);
        if target.None? || target.value !in keys { return false; }
      case _ =>
    }
    return true;
  }

  lemma MemberAtStep(ms: seq<RawMember>, i: nat)
    requires i < |ms|
    ensures forall q :: MemberAt(ms[..i + 1], q) <==> MemberAt(ms[..i], q) || PathOf(ms[i]) == Some(q)
    ensures forall q ::
      SymlinkAt(ms[..i + 1], q) <==> SymlinkAt(ms[..i], q) || (ms[i].kind.Symlink? && PathOf(ms[i]) == Some(q))
  {
    assert ms[..i + 1] == ms[..i] + [ms[i]];
  }

  // ----- Extraction -----

  datatype Entry = EDir | EFile | ESym
  type Tree = map<Path, Entry>

  /** Some parent of `p` is a symlink, so the operating system would write elsewhere. */
  ghost predicate ThroughLink(t: Tree, p: Path) {
    exists q :: IsParent(q, p) && q in t && t[q].ESym?
  }

  ghost predicate Blocked(t: Tree, p: Path) {
    exists q :: IsParent(q, p) && q in t && !t[q].EDir?
  }

  /** What extracting a member puts at its path: a hard link shares the entry it names, if that is there. */
  function EntryFor(t: Tree, m: RawMember): Option<Entry> {
    match m.kind
    case Regular => Some(EFile)
    case Directory => Some(EDir)
    case Symlink(_) => Some(ESym)
    case Hardlink(link) =>
      var target := Normalized(link, []).GetOr([]);
      if target in t && !t[target].EDir? then Some(t[target]) else None
    case Unsupported => None
  }

  function Parents(p: Path): set<Path> {
    set k | 0 < k < |p| :: p[..k]
  }

  function WithParents(t: Tree, p: Path): Tree {
    map q | q in t.Keys + Parents(p) :: if q in t then t[q] else EDir
  }

  /** One member extracted into a tree; an existing entry at its own path is never replaced. */
  ghost function Extract(t: Tree, m: RawMember): Tree {
    var p := PathOf(m).GetOr([]);
    if p == [] || Blocked(t, p) then t
    else
      var made := WithParents(t, p);
      var entry := EntryFor(made, m);
      if p in made || entry.None? then made else made[p := entry.value]
  }

  ghost function ExtractAll(ms: seq<RawMember>): Tree {
    if ms == [] then map[] else Extract(ExtractAll(ms[..|ms| - 1]), ms[|ms| - 1])
  }

  /** The member a hard link names. */
  ghost predicate Hop(m: RawMember, n: RawMember) {
    m.kind.Hardlink? && Normalized(m.kind.link, []).Some? && Normalized(m.kind.link, []) == PathOf(n)
  }

  /** The path of `p` is neither that of a member of `chain` nor a directory above one. */
  ghost predicate ClearOf(p: Path, chain: seq<RawMember>) {
    forall n <- chain :: !(p <= PathOf(n).GetOr([]))
  }

  /** Hard links that lead to a symlink, none of them at or above a later one, so that all can stand side by side. */
  ghost predicate SymlinkChain(ms: seq<RawMember>, chain: seq<RawMember>)
    decreases |chain|
  {
    && chain != [] && chain[0] in ms && PathOf(chain[0]).Some? && PathOf(chain[0]).value != []
    && if |chain| == 1 then chain[0].kind.Symlink?
       else Hop(chain[0], chain[1]) && ClearOf(PathOf(chain[0]).value, chain[1..]) && SymlinkChain(ms, chain[1..])
  }

  /** No member lies beneath a chain of hard links to a symlink. */
  ghost predicate NotBeneathLinkedSymlink(ms: seq<RawMember>) {
    forall chain, m :: SymlinkChain(ms, chain) && m in ms ==> !IsParent(PathOf(chain[0]).value, PathOf(m).GetOr([]))
  }

  /** Every member of the chain stands in the tree. */
  ghost predicate Stands(t: Tree, chain: seq<RawMember>) {
    forall n <- chain :: PathOf(n).Some? && PathOf(n).value in t
  }

  /** Every entry stands at a member's own path, as that member made it, or is a directory above a member. */
  ghost predicate Explained(ms: seq<RawMember>, t: Tree, q: Path) {
    q in t && q != []
    && (|| (t[q].EDir? && exists m <- ms :: PathOf(m).Some? && q <= PathOf(m).value)
        || (exists m <- ms :: PathOf(m) == Some(q) && EntryMadeBy(ms, t, t[q], m)))
  }

  ghost predicate LinkedSymlink(ms: seq<RawMember>, t: Tree, m: RawMember) {
    exists chain :: SymlinkChain(ms, chain) && chain[0] == m && Stands(t, chain)
  }

  ghost predicate EntryMadeBy(ms: seq<RawMember>, t: Tree, e: Entry, m: RawMember) {
    match m.kind
    case Regular => e.EFile?
    case Directory => e.EDir?
    case Symlink(_) => e.ESym?
    case Hardlink(_) => e.EFile? || (e.ESym? && LinkedSymlink(ms, t, m))
    case Unsupported => false
  }

  /** With an entry, everything above it is there. */
  ghost predicate Closed(t: Tree) {
    forall q, k :: q in t && 0 < k < |q| ==> q[..k] in t
  }

  ghost predicate Placed(ms: seq<RawMember>, t: Tree) {
    (forall q <- t :: Explained(ms, t, q)) && Closed(t)
  }

  /** A larger tree with the same entry explains it the same way. */
  lemma StillExplained(ms: seq<RawMember>, t: Tree, t': Tree, q: Path)
    requires Explained(ms, t, q) && t.Keys <= t'.Keys && t'[q] == t[q]
    ensures Explained(ms, t', q)
  {
    if exists m <- ms :: PathOf(m) == Some(q) && EntryMadeBy(ms, t, t[q], m) {
      var m :| m in ms && PathOf(m) == Some(q) && EntryMadeBy(ms, t, t[q], m);
      if LinkedSymlink(ms, t, m) {
        var chain :| SymlinkChain(ms, chain) && chain[0] == m && Stands(t, chain);
        assert Stands(t', chain);
      }
      assert EntryMadeBy(ms, t', t'[q], m);
    }
  }

  lemma WithParentsPlaced(ms: seq<RawMember>, t: Tree, m: RawMember)
    requires Placed(ms, t) && m in ms && PathOf(m).Some?
    ensures Placed(ms, WithParents(t, PathOf(m).value))
    ensures forall k :: 0 < k < |PathOf(m).value| ==> PathOf(m).value[..k] in WithParents(t, PathOf(m).value)
  {
    var p := PathOf(m).value;
    var made := WithParents(t, p);
    forall q | q in made ensures Explained(ms, made, q) {
      if q in t { StillExplained(ms, t, made, q); } else { assert q <= p; }
    }
    forall q, k | q in made && 0 < k < |q| ensures q[..k] in made {
      if q !in t {
        var j :| 0 < j < |p| && q == p[..j];
        assert q[..k] == p[..k] && p[..k] in Parents(p);
      }
    }
  }

  lemma ParentPresent(t: Tree, q: Path, p: Path)
    requires Closed(t) && p in t && IsParent(q, p)
    ensures q in t
  {
    assert p[..|q|] == q;
  }

  /** The chain that explains a linked symlink, or the symlink itself. */
  lemma ChainOf(ms: seq<RawMember>, t: Tree, n: RawMember) returns (chain: seq<RawMember>)
    requires n in ms && PathOf(n).Some? && PathOf(n).value in t && PathOf(n).value != []
    requires t[PathOf(n).value].ESym? && EntryMadeBy(ms, t, t[PathOf(n).value], n)
    ensures SymlinkChain(ms, chain) && chain[0] == n && Stands(t, chain)
  {
    if n.kind.Symlink? {
      chain := [n];
    } else {
      chain :| SymlinkChain(ms, chain) && chain[0] == n && Stands(t, chain);
    }
  }

  /** What stands in the tree is clear of a path that does not. */
  lemma AbsentIsClear(t: Tree, p: Path, chain: seq<RawMember>)
    requires Closed(t) && Stands(t, chain) && p != [] && p !in t
    ensures ClearOf(p, chain)
  {
    forall n | n in chain ensures !(p <= PathOf(n).GetOr([])) {
      var q := PathOf(n).value;
      assert p <= q && |p| == |q| ==> p == q;
      if p < q { ParentPresent(t, p, q); }
    }
  }

  /** A hard link to the first member of a standing chain, at a path that is free, makes a longer one. */
  lemma LongerChain(ms: seq<RawMember>, t: Tree, m: RawMember, chain: seq<RawMember>, e: Entry)
    requires Closed(t) && SymlinkChain(ms, chain) && Stands(t, chain) && m in ms && Hop(m, chain[0])
    requires PathOf(m).Some? && PathOf(m).value != [] && PathOf(m).value !in t
    ensures LinkedSymlink(ms, t[PathOf(m).value := e], m)
  {
    AbsentIsClear(t, PathOf(m).value, chain);
    var longer := [m] + chain;
    assert longer[1..] == chain && SymlinkChain(ms, longer);
    assert Stands(t[PathOf(m).value := e], longer);
  }

  /** What a hard link shares with its target is explained by the target's own explanation. */
  lemma HardlinkEntry(ms: seq<RawMember>, t: Tree, m: RawMember)
    requires Accepted(ms) && Placed(ms, t) && m in ms && m.kind.Hardlink?
    requires PathOf(m).value != [] && PathOf(m).value !in t && EntryFor(t, m).Some?
    ensures EntryMadeBy(ms, t[PathOf(m).value := EntryFor(t, m).value], EntryFor(t, m).value, m)
  {
    var target := Normalized(m.kind.link, []).value;
    assert LinkStaysInside(ms, m) && Explained(ms, t, target);
    if t[target].ESym? {
      var n :| n in ms && PathOf(n) == Some(target) && EntryMadeBy(ms, t, t[target], n);
      var chain := ChainOf(ms, t, n);
      LongerChain(ms, t, m, chain, EntryFor(t, m).value);
    }
  }

  lemma InParents(q: Path, p: Path)
    ensures q in Parents(p) <==> IsParent(q, p)
  {
    if IsParent(q, p) { assert p[..|q|] == q; }
  }

  lemma ExtractPlaced(ms: seq<RawMember>, t: Tree, m: RawMember)
    requires Accepted(ms) && Placed(ms, t) && m in ms
    ensures Placed(ms, Extract(t, m))
  {
    var p := PathOf(m).value;
    if p != [] && !Blocked(t, p) {
      var made := WithParents(t, p);
      WithParentsPlaced(ms, t, m);
      var entry := EntryFor(made, m);
      if p !in made && entry.Some? {
        var after := made[p := entry.value];
        if m.kind.Hardlink? { HardlinkEntry(ms, made, m); }
        assert EntryMadeBy(ms, after, entry.value, m);
        forall q | q in after ensures Explained(ms, after, q) {
          if q != p { StillExplained(ms, made, after, q); }
        }
      }
    }
  }

  /** Whatever is extracted in whatever order, every entry stands where its own member puts it. */
  lemma {:induction false} ExtractAllPlaced(ms: seq<RawMember>, order: seq<RawMember>)
    requires Accepted(ms) && forall m <- order :: m in ms
    ensures Placed(ms, ExtractAll(order))
  {
    if order != [] {
      ExtractAllPlaced(ms, order[..|order| - 1]);
      ExtractPlaced(ms, ExtractAll(order[..|order| - 1]), order[|order| - 1]);
    }
  }

  /** In a placed tree a symlink above a member can only be a hard link that leads to a symlink. */
  lemma LinkAboveMember(ms: seq<RawMember>, t: Tree, m: RawMember)
    requires Accepted(ms) && Placed(ms, t) && m in ms
    requires ThroughLink(t, PathOf(m).value)
    ensures !NotBeneathLinkedSymlink(ms)
  {
    var p := PathOf(m).value;
    var q :| IsParent(q, p) && q in t && t[q].ESym?;
    assert Explained(ms, t, q);
    var n :| n in ms && PathOf(n) == Some(q) && EntryMadeBy(ms, t, t[q], n);
    var chain := ChainOf(ms, t, n);
    assert SymlinkChain(ms, chain) && IsParent(PathOf(chain[0]).value, PathOf(m).GetOr([]));
  }

  // ----- Every chain can be extracted -----

  /** Some selection of members, extracted in some order, leaves a link above `m`. */
  ghost predicate MayEscape(ms: seq<RawMember>, order: seq<RawMember>, m: RawMember) {
    (forall n <- order :: n in ms) && m in ms && ThroughLink(ExtractAll(order), PathOf(m).GetOr([]))
  }

  function Backwards(chain: seq<RawMember>): seq<RawMember> {
    if chain == [] then [] else Backwards(chain[1..]) + [chain[0]]
  }

  /** What stands at `q` is a member of the chain, or a directory above one. */
  ghost predicate HeldAt(t: Tree, chain: seq<RawMember>, q: Path)
    requires q in t
  {
    (exists n <- chain :: PathOf(n) == Some(q)) || (t[q].EDir? && exists n <- chain :: q < PathOf(n).GetOr([]))
  }

  /** The tree holds the chain, symlink entries all, and nothing but directories above them besides. */
  ghost predicate HoldsChain(t: Tree, chain: seq<RawMember>) {
    && (forall n <- chain :: PathOf(n).Some? && PathOf(n).value in t && t[PathOf(n).value].ESym?)
    && (forall q <- t :: HeldAt(t, chain, q))
  }

  lemma HeldLonger(t: Tree, t': Tree, chain: seq<RawMember>, m: RawMember, q: Path)
    requires q in t && q in t' && t'[q] == t[q] && HeldAt(t, chain, q)
    ensures HeldAt(t', [m] + chain, q)
  {
    assert forall n <- chain :: n in [m] + chain;
  }

  ghost predicate Escapes(ms: seq<RawMember>) {
    exists order: seq<RawMember>, m :: MayEscape(ms, order, m)
  }

  /** Adding one link to a held chain. */
  lemma ExtendHeld(t: Tree, chain: seq<RawMember>, m: RawMember, e: Entry)
    requires HoldsChain(t, chain) && PathOf(m).Some? && PathOf(m).value != [] && e.ESym?
    requires ClearOf(PathOf(m).value, chain) && !ThroughLink(t, PathOf(m).value)
    ensures PathOf(m).value !in WithParents(t, PathOf(m).value)
    ensures HoldsChain(WithParents(t, PathOf(m).value)[PathOf(m).value := e], [m] + chain)
  {
    var p := PathOf(m).value;
    var made := WithParents(t, p);
    InParents(p, p);
    assert p in t ==> HeldAt(t, chain, p);
    var after, longer := made[p := e], [m] + chain;
    assert m in longer;
    forall q | q in after ensures HeldAt(after, longer, q) {
      InParents(q, p);
      if q != p && q in t { HeldLonger(t, after, chain, m, q); }
    }
  }

  lemma NothingBlocks(t: Tree, chain: seq<RawMember>, p: Path)
    requires HoldsChain(t, chain) && !ThroughLink(t, p)
    ensures !Blocked(t, p)
  {
  }

  /** The next link of a chain, extracted beside the rest of it. */
  lemma NextLink(t: Tree, rest: seq<RawMember>, m: RawMember)
    requires HoldsChain(t, rest) && PathOf(m).Some? && PathOf(m).value != [] && ClearOf(PathOf(m).value, rest)
    requires if rest == [] then m.kind.Symlink? else Hop(m, rest[0])
    requires !ThroughLink(t, PathOf(m).value)
    ensures HoldsChain(Extract(t, m), [m] + rest)
  {
    var p := PathOf(m).value;
    NothingBlocks(t, rest, p);
    ExtendHeld(t, rest, m, ESym);
    if rest != [] { assert rest[0] in rest; }
    assert EntryFor(WithParents(t, p), m) == Some(ESym);
  }

  lemma Reextract(chain: seq<RawMember>)
    requires chain != []
    ensures ExtractAll(Backwards(chain)) == Extract(ExtractAll(Backwards(chain[1..])), chain[0])
  {
    var back := Backwards(chain);
    assert back[..|back| - 1] == Backwards(chain[1..]) && back[|back| - 1] == chain[0];
  }

  lemma {:induction false} ChainMembers(ms: seq<RawMember>, chain: seq<RawMember>)
    requires SymlinkChain(ms, chain)
    ensures forall n <- Backwards(chain) :: n in ms
    decreases |chain|
  {
    if |chain| == 1 {
      assert Backwards(chain[1..]) == [];
    } else {
      ChainMembers(ms, chain[1..]);
    }
  }

  /** Extracting a chain from its symlink backwards lays all of it out, unless some member escapes on the way. */
  lemma {:induction false} ChainExtracts(ms: seq<RawMember>, chain: seq<RawMember>)
    requires SymlinkChain(ms, chain) && !Escapes(ms)
    ensures HoldsChain(ExtractAll(Backwards(chain)), chain)
    decreases |chain|
  {
    var m, rest := chain[0], chain[1..];
    assert chain == [m] + rest;
    if |chain| == 1 {
      assert rest == [] && ExtractAll(Backwards(rest)) == map[];
    } else {
      ChainExtracts(ms, rest);
      ChainMembers(ms, rest);
    }
    assert !MayEscape(ms, Backwards(rest), m);
    Reextract(chain);
    NextLink(ExtractAll(Backwards(rest)), rest, m);
  }

  /** A member beneath the first link of a chain is extracted through it. */
  lemma LinkedSymlinkEscapes(ms: seq<RawMember>, chain: seq<RawMember>, m: RawMember)
    requires Accepted(ms) && SymlinkChain(ms, chain) && m in ms && IsParent(PathOf(chain[0]).value, PathOf(m).GetOr([]))
    ensures Escapes(ms)
  {
    if !Escapes(ms) {
      ChainExtracts(ms, chain);
      ChainMembers(ms, chain);
      assert chain[0] in chain;
      assert MayEscape(ms, Backwards(chain), m);
    }
  }

  lemma StaysInPlace(ms: seq<RawMember>, order: seq<RawMember>, m: RawMember)
    requires Accepted(ms) && NotBeneathLinkedSymlink(ms)
    requires (forall n <- order :: n in ms) && m in ms
    ensures !ThroughLink(ExtractAll(order), PathOf(m).value)
  {
    ExtractAllPlaced(ms, order);
    if ThroughLink(ExtractAll(order), PathOf(m).value) { LinkAboveMember(ms, ExtractAll(order), m); }
  }

  /**
   Extracting an accepted archive in any order and any selection never writes through a link made by
   another member, exactly when no member lies beneath a chain of hard links that leads to a symlink.
   */
  lemma ExtractionStaysInPlace(ms: seq<RawMember>)
    requires Accepted(ms)
    ensures NotBeneathLinkedSymlink(ms) <==> !Escapes(ms)
  {
    if NotBeneathLinkedSymlink(ms) {
      forall order: seq<RawMember>, m ensures !MayEscape(ms, order, m) {
        if (forall n <- order :: n in ms) && m in ms { StaysInPlace(ms, order, m); }
      }
    } else {
      var chain, m :| SymlinkChain(ms, chain) && m in ms && IsParent(PathOf(chain[0]).value, PathOf(m).GetOr([]));
      LinkedSymlinkEscapes(ms, chain, m);
    }
  }

  lemma SecondLink(ms: seq<RawMember>, chain: seq<RawMember>)
    requires SymlinkChain(ms, chain) && |chain| > 1
    ensures chain[0] in ms && chain[1] in ms && Hop(chain[0], chain[1]) && !chain[1].kind.Regular?
  {
    assert chain[1..][0] == chain[1];
  }

  /** With hard links that name regular members only, every extraction stays in place. */
  lemma RegularHardlinksStayInPlace(ms: seq<RawMember>, order: seq<RawMember>, m: RawMember)
    requires Accepted(ms)
    requires forall h <- ms, n <- ms :: h.kind.Hardlink? && Normalized(h.kind.link, []) == PathOf(n) ==> n.kind.Regular?
    requires (forall n <- order :: n in ms) && m in ms
    ensures !ThroughLink(ExtractAll(order), PathOf(m).value)
    ensures Clean(PathOf(m).value)
    ensures forall q <- ExtractAll(order) :: Explained(ms, ExtractAll(order), q)
  {
    forall chain, n | SymlinkChain(ms, chain) && n in ms
      ensures !IsParent(PathOf(chain[0]).value, PathOf(n).GetOr([]))
    {
      if |chain| > 1 { SecondLink(ms, chain); }
      assert NotBeneathSymlink(ms, PathOf(n).value) && SymlinkAt(ms, PathOf(chain[0]).value);
    }
    StaysInPlace(ms, order, m);
    ExtractAllPlaced(ms, order);
  }

  function Plain(parts: seq<string>): RawName {
    RawName(false, false, parts)
  }

  lemma {:induction false} PlainPath(parts: seq<string>)
    requires Clean(parts)
    ensures Normalized(Plain(parts), []) == Some(parts)
  {
    if parts != [] {
      var n := |parts| - 1;
      assert parts[n] in parts && forall part <- parts[..n] :: part in parts;
      PlainPath(parts[..n]);
      assert parts == parts[..n] + [parts[n]];
    }
  }

  // An archive with a symlink, a hard link to it, a hard link to that one, and a member beneath the last.
  const LINK := RawMember(Plain(["s"]), Symlink(Plain(["d"])))
  const NEAR := RawMember(Plain(["h"]), Hardlink(Plain(["s"])))
  const FAR := RawMember(Plain(["g"]), Hardlink(Plain(["h"])))
  const BENEATH := RawMember(Plain(["g", "x"]), Regular)
  const CHAINED := [LINK, NEAR, FAR, BENEATH]

  lemma ChainedPaths()
    ensures PathOf(LINK) == Some(["s"]) && PathOf(NEAR) == Some(["h"]) && PathOf(FAR) == Some(["g"])
    ensures PathOf(BENEATH) == Some(["g", "x"]) && Normalized(Plain(["d"]), []) == Some(["d"])
    ensures CHAINED[0] == LINK && CHAINED[1] == NEAR && CHAINED[2] == FAR && CHAINED[3] == BENEATH
  {
    PlainPath(["s"]);
    PlainPath(["h"]);
    PlainPath(["g"]);
    PlainPath(["d"]);
    PlainPath(["g", "x"]);
  }

  lemma ChainedNamed()
    ensures Named(CHAINED) && Unique(CHAINED)
  {
    ChainedPaths();
    assert |CHAINED| == 4;
    assert forall m <- CHAINED :: m == LINK || m == NEAR || m == FAR || m == BENEATH;
    assert ["s"][0] != ["h"][0] && ["s"][0] != ["g"][0] && ["h"][0] != ["g"][0];
    forall i, j | 0 <= i < j < 4 ensures PathOf(CHAINED[i]) != PathOf(CHAINED[j]) {
      assert j == 3 ==> |PathOf(CHAINED[j]).value| == 2 && |PathOf(CHAINED[i]).value| == 1;
    }
  }

  lemma ChainedLink(m: RawMember)
    requires m in CHAINED
    ensures LinkStaysInside(CHAINED, m)
  {
    ChainedPaths();
    assert LINK in CHAINED && NEAR in CHAINED && Parent(["s"]) == [];
    assert MemberAt(CHAINED, ["s"]) && MemberAt(CHAINED, ["h"]);
  }

  lemma ChainedBeneath(m: RawMember)
    requires m in CHAINED
    ensures PathOf(m).Some? && NotBeneathSymlink(CHAINED, PathOf(m).value)
  {
    ChainedPaths();
    assert !SymlinkAt(CHAINED, ["g"]);
    forall q | IsParent(q, PathOf(m).value) ensures !SymlinkAt(CHAINED, q) { assert q == ["g"]; }
  }

  lemma ChainedAccepted()
    ensures Accepted(CHAINED)
  {
    ChainedNamed();
    forall m | m in CHAINED ensures NotBeneathSymlink(CHAINED, PathOf(m).value) && LinkStaysInside(CHAINED, m) {
      ChainedLink(m);
      ChainedBeneath(m);
    }
  }

  lemma ChainedIsChain()
    ensures SymlinkChain(CHAINED, [FAR, NEAR, LINK])
  {
    ChainedPaths();
    assert [FAR, NEAR, LINK][1..] == [NEAR, LINK] && [NEAR, LINK][1..] == [LINK];
    assert SymlinkChain(CHAINED, [LINK]);
    assert !(["h"] <= ["s"]);
    assert SymlinkChain(CHAINED, [NEAR, LINK]);
    assert !(["g"] <= ["h"]) && !(["g"] <= ["s"]);
  }

  /** The archive is accepted, and its last member is extracted through both hard links. */
  lemma ChainedHardlinksEscape()
    ensures Accepted(CHAINED) && Escapes(CHAINED)
  {
    ChainedPaths();
    ChainedAccepted();
    ChainedIsChain();
    LinkedSymlinkEscapes(CHAINED, [FAR, NEAR, LINK], BENEATH);
  }
}
