/**
 Binding the mutable plan of an install job to the facts read from signed bytes, and resolving the
 file each module is installed from.
 */
module InstallPlan {
  import opened Common
  import opened Manifests
  import opened SignedBundles

  datatype Fact = Fact(version: string, previous: set<string>)
  datatype Package = Package(id: string, version: string, source: Archive)
  datatype PlanAction = PlanAction(id: string, version: string, previous: string)

  /** A staged artifact of a batch: a bundle or a single package; `hashOk` when it is the verified file. */
  datatype Artifact = Artifact(isBundle: bool, archive: Archive, hashOk: bool)

  predicate NoDuplicates<T(==)>(q: seq<T>) {
    forall i, j :: 0 <= i < j < |q| ==> q[i] != q[j]
  }

  lemma {:induction false} CountDistinct<T>(q: seq<T>)
    ensures |Elems(q)| <= |q|
    ensures |Elems(q)| == |q| <==> NoDuplicates(q)
  {
    if q != [] {
      var n := |q| - 1;
      CountDistinct(q[..n]);
      assert q == q[..n] + [q[n]];
      if q[n] in q[..n] {
        assert Elems(q) == Elems(q[..n]);
        var k :| 0 <= k < n && q[..n][k] == q[n];
        assert q[k] == q[n];
      } else {
        assert Elems(q) == Elems(q[..n]) + {q[n]};
        if NoDuplicates(q[..n]) {
          forall i, j | 0 <= i < j < |q| ensures q[i] != q[j] {
            assert q[i] == q[..n][i];
            if j < n { assert q[j] == q[..n][j]; } else { assert q[i] in q[..n]; }
          }
        } else {
          var i, j :| 0 <= i < j < n && q[..n][i] == q[..n][j];
          assert q[i] == q[j];
        }
      }
    }
  }

  // ----- Facts -----

  /** The authenticated rows agree with the fact table: same ids, each once, all of them module ids. */
  ghost predicate FactsOf(rows: seq<Row>, facts: map<string, Fact>) {
    && (forall i :: 0 <= i < |rows| ==>
          && PluginId(rows[i].id) && rows[i].id in facts
          && facts[rows[i].id] == Fact(rows[i].version, rows[i].previous))
    && (forall i, j :: 0 <= i < j < |rows| ==> rows[i].id != rows[j].id)
    && (forall id <- facts :: exists i :: 0 <= i < |rows| && rows[i].id == id)
  }

  /** All signed ids are module ids, and no two are the same. */
  ghost predicate RowsProper(rows: seq<Row>) {
    && (forall i :: 0 <= i < |rows| ==> PluginId(rows[i].id))
    && (forall i, j :: 0 <= i < j < |rows| ==> rows[i].id != rows[j].id)
  }

  method AuthenticatedFacts(rows: seq<Row>) returns (r: Option<map<string, Fact>>)
    ensures r.Some? ==> FactsOf(rows, r.value)
    ensures r.Some? <==> RowsProper(rows)
    ensures r.None? ==>
      exists i :: 0 <= i < |rows| && (!PluginId(rows[i].id) || exists k :: 0 <= k < i && rows[k].id == rows[i].id)
  {
    var facts: map<string, Fact> := map[];
    for i := 0 to |rows|
      invariant FactsOf(rows[..i], facts)
    {
      var row := rows[i];
      if !PluginId(row.id) { return None; }
      if row.id in facts {
        var k :| 0 <= k < i && rows[..i][k].id == row.id;
        assert rows[k].id == rows[i].id;
        return None;
      }
      FactsStep(rows, i, facts);
      facts := facts[row.id := Fact(row.version, row.previous)];
    }
    assert rows[..|rows|] == rows;
    return Some(facts);
  }

  lemma FactsStep(rows: seq<Row>, i: nat, facts: map<string, Fact>)
    requires i < |rows| && FactsOf(rows[..i], facts) && PluginId(rows[i].id) && rows[i].id !in facts
    ensures FactsOf(rows[..i + 1], facts[rows[i].id := Fact(rows[i].version, rows[i].previous)])
  {
    var more, next := rows[..i + 1], facts[rows[i].id := Fact(rows[i].version, rows[i].previous)];
    assert forall k :: 0 <= k < i ==> more[k] == rows[..i][k];
    assert more[i] == rows[i];
    forall id | id in next ensures exists k :: 0 <= k < |more| && more[k].id == id {
      if id == rows[i].id {
        assert more[i].id == id;
      } else {
        var k :| 0 <= k < i && rows[..i][k].id == id;
        assert more[k].id == id;
      }
    }
  }

  // ----- The plan -----

  function Ids(ps: seq<Package>): set<string> {
    set i | 0 <= i < |ps| :: ps[i].id
  }

  function ActionIds(actions: seq<PlanAction>): (q: seq<string>)
    ensures |q| == |actions|
  {
    seq(|actions|, i requires 0 <= i < |actions| => actions[i].id)
  }

  predicate VersionOk(facts: map<string, Fact>, id: string, version: string) {
    id in facts && (version == "" || version == facts[id].version)
  }

  /** The rename source is looked up without the blanks around it. */
  predicate ActionOk(nm: Naming, facts: map<string, Fact>, a: PlanAction) {
    && VersionOk(facts, a.id, a.version)
    && (nm.trim(a.previous) == "" || nm.trim(a.previous) in facts[a.id].previous)
  }

  ghost predicate PlanAccepted(
    nm: Naming, facts: map<string, Fact>, ps: seq<Package>, order: seq<string>, actions: seq<PlanAction>
  ) {
    && ps != [] && Ids(ps) == facts.Keys
    && (forall p <- ps :: VersionOk(facts, p.id, p.version))
    && NoDuplicates(order) && Elems(order) == facts.Keys
    && (forall a <- actions :: ActionOk(nm, facts, a))
    && Elems(ActionIds(actions)) == facts.Keys && |actions| == |facts|
  }

  /** Accepts a plan that names exactly the signed modules, and stamps the signed versions on it. */
  method ValidateInstallPlan(
    nm: Naming, facts: map<string, Fact>, ps: seq<Package>, order: seq<string>, actions: seq<PlanAction>
  ) returns (r: Option<(seq<Package>, seq<PlanAction>)>)
    ensures r.Some? <==> PlanAccepted(nm, facts, ps, order, actions)
    ensures r.Some? ==>
      && |r.value.0| == |ps| && |r.value.1| == |actions|
      && (forall i :: 0 <= i < |ps| ==> ps[i].id in facts && r.value.0[i] == ps[i].(version := facts[ps[i].id].version))
      && (forall i :: 0 <= i < |actions| ==>
            actions[i].id in facts && r.value.1[i] == actions[i].(version := facts[actions[i].id].version))
  {
    if ps == [] || Ids(ps) != facts.Keys { return None; }
    var stamped: seq<Package> := [];
    for i := 0 to |ps|
      invariant |stamped| == i
      invariant forall k :: 0 <= k < i ==>
        VersionOk(facts, ps[k].id, ps[k].version) && stamped[k] == ps[k].(version := facts[ps[k].id].version)
    {
      assert ps[i].id in Ids(ps);
      if !VersionOk(facts, ps[i].id, ps[i].version) { assert ps[i] in ps; return None; }
      stamped := stamped + [ps[i].(version := facts[ps[i].id].version)];
    }
    CountDistinct(order);
    if |order| != |Elems(order)| || Elems(order) != Ids(ps) { return None; }
    var bound: seq<PlanAction> := [];
    for i := 0 to |actions|
      invariant |bound| == i
      invariant forall k :: 0 <= k < i ==>
        ActionOk(nm, facts, actions[k]) && bound[k] == actions[k].(version := facts[actions[k].id].version)
    {
      if !ActionOk(nm, facts, actions[i]) { assert actions[i] in actions; return None; }
      bound := bound + [actions[i].(version := facts[actions[i].id].version)];
    }
    if Elems(ActionIds(actions)) != Ids(ps) || |actions| != |Ids(ps)| { return None; }
    assert |facts| == |facts.Keys|;
    return Some((stamped, bound));
  }

  // ----- The files -----

  /** The bytes a package installs declare its own id and version, and nothing else. */
  ghost predicate SelfDeclared(nm: Naming, p: Package) {
    var rows := ArtifactModules(nm, p.source);
    rows.Some? && |rows.value| == 1 && rows.value[0].id == p.id && rows.value[0].version == p.version && p.version != ""
  }

  function PackageOf(a: Archive, row: FileRow): Option<Package> {
    if !a.Zip? then None
    else
      var at := LastIndex(a.members, row.file);
      if at.None? then None else Some(Package(row.id, row.version, a.members[at.value].bytes))
  }

  lemma FileIsSelfDeclared(nm: Naming, a: Archive, rows: seq<FileRow>, i: nat)
    requires PackageFiles(nm, a, rows) && i < |rows|
    ensures PackageOf(a, rows[i]).Some? && SelfDeclared(nm, PackageOf(a, rows[i]).value)
  {
    assert Candidates(nm, a)[i] == Some(rows[i]);
    var at := LastIndex(a.members, rows[i].file);
    RowVersion(Leaves(nm, a.members[at.value].bytes).value);
  }

  lemma {:induction false} RowVersion(es: seq<Extension>)
    requires Rows(es).Some?
    ensures forall r <- Rows(es).value :: r.id != "" && r.version != ""
  {
    if es != [] { RowVersion(es[..|es| - 1]); }
  }

  ghost predicate DistinctIds(ps: seq<Package>) {
    forall i, j :: 0 <= i < j < |ps| ==> ps[i].id != ps[j].id
  }

  /** The packages stand for the signed rows, one for one and in order. */
  ghost predicate StandFor(ps: seq<Package>, rows: seq<Row>) {
    |ps| == |rows| && forall i :: 0 <= i < |ps| ==> ps[i].id == rows[i].id && ps[i].version == rows[i].version
  }

  function FlatRows(nm: Naming, artifacts: seq<Artifact>): Option<seq<Row>> {
    if artifacts == [] then Some([])
    else
      var front, last := FlatRows(nm, artifacts[..|artifacts| - 1]),
        ArtifactModules(nm, artifacts[|artifacts| - 1].archive);
      if front.None? || last.None? then None else Some(front.value + last.value)
  }

  /** No member name is an alias or a repetition of another; links are refused with the unsafe members. */
  ghost predicate Extractable(nm: Naming, a: Archive) {
    a.Zip? ==>
      && (forall m <- a.members :: nm.unaliased(m.name))
      && (forall i, j :: 0 <= i < j < |a.members| ==> a.members[i].name != a.members[j].name)
  }

  /** In a bundle that may be extracted every name is the name of one member only. */
  lemma ExtractableNames(nm: Naming, a: Archive, i: nat)
    requires a.Zip? && i < |a.members|
    ensures Extractable(nm, a) ==> nm.unaliased(a.members[i].name) && OnlyMember(a.members, a.members[i].name, i)
    ensures
      (forall k :: 0 <= k < |a.members| ==>
         nm.unaliased(a.members[k].name) && OnlyMember(a.members, a.members[k].name, k)) ==> Extractable(nm, a)
  {
  }

  /** The check that runs over every member before a verified bundle is extracted. */
  method CheckMembers(nm: Naming, a: Archive) returns (ok: bool)
    ensures ok <==> Extractable(nm, a)
  {
    if !a.Zip? { return true; }
    var seen: set<string> := {};
    for i := 0 to |a.members|
      invariant forall k :: 0 <= k < i ==> nm.unaliased(a.members[k].name)
      invariant forall j, k :: 0 <= j < k < i ==> a.members[j].name != a.members[k].name
      invariant forall x :: x in seen <==> exists k :: 0 <= k < i && a.members[k].name == x
    {
      var name := a.members[i].name;
      if !nm.unaliased(name) || name in seen { return false; }
      seen := seen + {name};
    }
    return true;
  }

  /** The entries resolve to at least one file, each a module with a proper id. */
  ghost predicate FilesProper(nm: Naming, a: Archive) {
    exists rows :: PackageFiles(nm, a, rows) && rows != [] && forall row <- rows :: PluginId(row.id) && row.file != ""
  }

  ghost predicate Expandable(nm: Naming, a: Archive) {
    Extractable(nm, a) && FilesProper(nm, a)
  }

  lemma FilesUnique(nm: Naming, a: Archive, rows: seq<FileRow>, rows': seq<FileRow>)
    requires PackageFiles(nm, a, rows) && PackageFiles(nm, a, rows')
    ensures rows == rows'
  {
    if a.Zip? && a.bundles != [] {
      forall i | 0 <= i < |rows| ensures rows[i] == rows'[i] {
        assert Candidates(nm, a)[i] == Some(rows[i]);
      }
    }
  }

  lemma NotExpandable(nm: Naming, a: Archive, rows: seq<FileRow>, i: nat)
    requires PackageFiles(nm, a, rows) && i < |rows| && (!PluginId(rows[i].id) || rows[i].file == "")
    ensures !FilesProper(nm, a)
  {
    assert rows[i] in rows;
    forall rows' | PackageFiles(nm, a, rows') ensures rows' == rows { FilesUnique(nm, a, rows, rows'); }
  }

  ghost predicate ArtifactOk(nm: Naming, artifact: Artifact) {
    artifact.hashOk
    && if artifact.isBundle then Expandable(nm, artifact.archive)
       else
         var rows := ArtifactModules(nm, artifact.archive);
         rows.Some? && |rows.value| == 1 && PluginId(rows.value[0].id)
  }

  /** An artifact is taken only as the file that was verified, a bundle only when its members may be extracted. */
  lemma ArtifactNeeds(nm: Naming, artifact: Artifact)
    requires ArtifactOk(nm, artifact)
    ensures artifact.hashOk && (artifact.isBundle ==> Extractable(nm, artifact.archive))
    ensures !artifact.isBundle ==>
      ArtifactModules(nm, artifact.archive).Some? && |ArtifactModules(nm, artifact.archive).value| == 1
  {
  }

  /** The packages of one bundle, from the mapping read out of its signed bytes. */
  method ExpandBundle(nm: Naming, a: Archive) returns (r: Option<seq<Package>>)
    ensures r.Some? <==> Expandable(nm, a)
    ensures r.Some? ==> r.value != [] && DistinctIds(r.value)
    ensures r.Some? ==> forall p <- r.value :: SelfDeclared(nm, p) && PluginId(p.id)
    ensures r.Some? && CanonicalEntries(nm, a) ==>
      ArtifactModules(nm, a).Some? && StandFor(r.value, ArtifactModules(nm, a).value)
  {
    var clean := CheckMembers(nm, a);
    if !clean { return None; }
    var files := ArtifactBundlePackageFiles(nm, a);
    if files.None? { return None; }
    if files.value == [] {
      forall rows | PackageFiles(nm, a, rows) ensures rows == [] { FilesUnique(nm, a, rows, []); }
      return None;
    }
    var rows := files.value;
    var ps: seq<Package> := [];
    for i := 0 to |rows|
      invariant |ps| == i
      invariant forall k :: 0 <= k < i ==> ps[k].id == rows[k].id && ps[k].version == rows[k].version
      invariant forall k :: 0 <= k < i ==> PluginId(rows[k].id) && rows[k].file != ""
      invariant forall p <- ps :: SelfDeclared(nm, p) && PluginId(p.id)
    {
      FileIsSelfDeclared(nm, a, rows, i);
      if !PluginId(rows[i].id) || rows[i].file == "" || rows[i].version == "" {
        NotExpandable(nm, a, rows, i);
        return None;
      }
      ps := ps + [PackageOf(a, rows[i]).value];
    }
    if CanonicalEntries(nm, a) { FilesMatchModules(nm, a, rows); }
    return Some(ps);
  }

  /** A standalone package must declare exactly one module. */
  method SinglePackage(nm: Naming, artifact: Artifact) returns (r: Option<Package>)
    requires !artifact.isBundle
    ensures r.Some? <==> ArtifactOk(nm, artifact)
    ensures r.Some? ==> SelfDeclared(nm, r.value) && PluginId(r.value.id)
    ensures r.Some? ==>
      StandFor([r.value], ArtifactModules(nm, artifact.archive).GetOr([]))
      && ArtifactModules(nm, artifact.archive).Some?
  {
    var rows := ArtifactModules(nm, artifact.archive);
    if rows.Some? { RowVersion(Leaves(nm, artifact.archive).value); }
    if rows.None? || |rows.value| != 1 || !PluginId(rows.value[0].id)
       || rows.value[0].version == "" || !artifact.hashOk { return None; }
    return Some(Package(rows.value[0].id, rows.value[0].version, artifact.archive));
  }

  /** The packages of one artifact. */
  method ResolveArtifact(nm: Naming, artifact: Artifact) returns (r: Option<seq<Package>>)
    ensures r.Some? <==> ArtifactOk(nm, artifact)
    ensures r.Some? ==> DistinctIds(r.value) && forall p <- r.value :: SelfDeclared(nm, p)
    ensures r.Some? && CanonicalEntries(nm, artifact.archive) ==>
      && ArtifactModules(nm, artifact.archive).Some?
      && StandFor(r.value, ArtifactModules(nm, artifact.archive).value)
  {
    if artifact.isBundle {
      if !artifact.hashOk { return None; }
      r := ExpandBundle(nm, artifact.archive);
    } else {
      var single := SinglePackage(nm, artifact);
      if single.None? { return None; }
      r := Some([single.value]);
    }
  }

  lemma StandForAppend(a: seq<Package>, x: seq<Row>, b: seq<Package>, y: seq<Row>)
    requires StandFor(a, x) && StandFor(b, y)
    ensures StandFor(a + b, x + y)
  {
  }

  lemma DistinctAppend(a: seq<Package>, b: seq<Package>)
    requires DistinctIds(a) && DistinctIds(b) && Ids(a) !! Ids(b)
    ensures DistinctIds(a + b) && Ids(a + b) == Ids(a) + Ids(b)
  {
    var c := a + b;
    assert forall i :: 0 <= i < |a| ==> c[i] == a[i] && a[i].id in Ids(a);
    assert forall i :: 0 <= i < |b| ==> c[|a| + i] == b[i] && b[i].id in Ids(b);
    forall id ensures id in Ids(c) <==> id in Ids(a) || id in Ids(b) {
      if id in Ids(a) { var i :| 0 <= i < |a| && a[i].id == id; assert c[i].id == id; }
      if id in Ids(b) { var i :| 0 <= i < |b| && b[i].id == id; assert c[|a| + i].id == id; }
    }
    forall i, j | 0 <= i < j < |c| ensures c[i].id != c[j].id {
      assert j >= |a| ==> c[j] == b[j - |a|];
      assert i >= |a| ==> c[i] == b[i - |a|];
    }
  }

  ghost predicate AllCanonical(nm: Naming, artifacts: seq<Artifact>) {
    forall artifact <- artifacts :: CanonicalEntries(nm, artifact.archive)
  }

  /** The signed module lists of these artifacts name one id twice. */
  ghost predicate Repeats(nm: Naming, artifacts: seq<Artifact>) {
    var rows := FlatRows(nm, artifacts);
    rows.Some? && exists i, j :: 0 <= i < j < |rows.value| && rows.value[i].id == rows.value[j].id
  }

  lemma SharedIdRepeats(nm: Naming, artifacts: seq<Artifact>, n: nat, ps: seq<Package>, more: seq<Package>)
    requires n < |artifacts| && !(Ids(more) !! Ids(ps))
    requires FlatRows(nm, artifacts[..n]).Some? && StandFor(ps, FlatRows(nm, artifacts[..n]).value)
    requires ArtifactModules(nm, artifacts[n].archive).Some?
    requires StandFor(more, ArtifactModules(nm, artifacts[n].archive).value)
    ensures Repeats(nm, artifacts[..n + 1])
  {
    assert artifacts[..n + 1][..n] == artifacts[..n];
    var id :| id in Ids(more) && id in Ids(ps);
    var i :| 0 <= i < |ps| && ps[i].id == id;
    var j :| 0 <= j < |more| && more[j].id == id;
    var rows := FlatRows(nm, artifacts[..n + 1]).value;
    assert rows[i].id == rows[|ps| + j].id;
  }

  /**
   Resolves every artifact of a batch to the files that will be installed. Each file declares the id
   it is installed under, ids are all different, and with canonical bundle names the packages stand
   for the signed module list, in order.
   */
  method BatchPackages(nm: Naming, artifacts: seq<Artifact>) returns (r: Option<seq<Package>>)
    ensures r.Some? ==> forall artifact <- artifacts :: ArtifactOk(nm, artifact)
    ensures r.None? && AllCanonical(nm, artifacts) ==>
      (exists artifact <- artifacts :: !ArtifactOk(nm, artifact))
      || exists n :: 0 <= n <= |artifacts| && Repeats(nm, artifacts[..n])
    ensures r.Some? ==> DistinctIds(r.value) && forall p <- r.value :: SelfDeclared(nm, p)
    ensures r.Some? && AllCanonical(nm, artifacts) ==>
      FlatRows(nm, artifacts).Some? && StandFor(r.value, FlatRows(nm, artifacts).value)
  {
    var ps: seq<Package> := [];
    for i := 0 to |artifacts|
      invariant DistinctIds(ps) && forall p <- ps :: SelfDeclared(nm, p)
      invariant forall k :: 0 <= k < i ==> ArtifactOk(nm, artifacts[k])
      invariant AllCanonical(nm, artifacts) ==>
        FlatRows(nm, artifacts[..i]).Some? && StandFor(ps, FlatRows(nm, artifacts[..i]).value)
    {
      var artifact := artifacts[i];
      assert artifact in artifacts;
      var resolved := ResolveArtifact(nm, artifact);
      if resolved.None? { return None; }
      var more := resolved.value;
      assert artifacts[..i + 1][..i] == artifacts[..i];
      if !(Ids(more) !! Ids(ps)) {
        if AllCanonical(nm, artifacts) { SharedIdRepeats(nm, artifacts, i, ps, more); }
        return None;
      }
      DistinctAppend(ps, more);
      if AllCanonical(nm, artifacts) {
        StandForAppend(ps, FlatRows(nm, artifacts[..i]).value, more, ArtifactModules(nm, artifact.archive).value);
      }
      ps := ps + more;
    }
    assert artifacts[..|artifacts|] == artifacts;
    return Some(ps);
  }

  /**
   After validation: the install order is a permutation of the signed ids, every module is installed
   from the one file whose own manifest declares it, at the signed version, and every rename source is
   signed for.
   */
  lemma ValidatedPlanIsSigned(
    nm: Naming, rows: seq<Row>, facts: map<string, Fact>, ps: seq<Package>, order: seq<string>,
    actions: seq<PlanAction>
  )
    requires FactsOf(rows, facts) && PlanAccepted(nm, facts, ps, order, actions)
    requires forall p <- ps :: SelfDeclared(nm, p)
    ensures NoDuplicates(order) && NoDuplicates(ActionIds(actions)) && |order| == |rows|
    ensures forall row <- rows :: row.id in order
    ensures forall id <- order :: exists row <- rows :: row.id == id
    ensures forall id <- order :: exists p <- ps :: p.id == id && SelfDeclared(nm, p) && p.version == facts[id].version
    ensures forall a <- actions ::
      nm.trim(a.previous) == "" || exists row <- rows :: row.id == a.id && nm.trim(a.previous) in row.previous
  {
    CountDistinct(ActionIds(actions));
    CountDistinct(order);
    RowIdsCount(rows, facts);
    forall row | row in rows ensures row.id in order {
      var i :| 0 <= i < |rows| && rows[i] == row;
      assert rows[i].id in facts.Keys;
      assert rows[i].id in Elems(order);
    }
    forall id | id in order
      ensures exists row <- rows :: row.id == id
      ensures exists p <- ps :: p.id == id && SelfDeclared(nm, p) && p.version == facts[id].version
    {
      assert id in Elems(order) && id in facts;
      var i :| 0 <= i < |rows| && rows[i].id == id;
      assert rows[i] in rows;
      assert id in Ids(ps);
      var k :| 0 <= k < |ps| && ps[k].id == id;
      assert ps[k] in ps;
    }
    forall a | a in actions && nm.trim(a.previous) != ""
      ensures exists row <- rows :: row.id == a.id && nm.trim(a.previous) in row.previous
    {
      assert ActionOk(nm, facts, a);
      var i :| 0 <= i < |rows| && rows[i].id == a.id;
      assert rows[i] in rows;
    }
  }

  lemma RowIdsCount(rows: seq<Row>, facts: map<string, Fact>)
    requires FactsOf(rows, facts)
    ensures |rows| == |facts.Keys|
  {
    var ids := seq(|rows|, i requires 0 <= i < |rows| => rows[i].id);
    CountDistinct(ids);
    forall id ensures id in Elems(ids) <==> id in facts.Keys {
      if id in facts {
        var i :| 0 <= i < |rows| && rows[i].id == id;
        assert ids[i] == id;
      }
    }
    assert Elems(ids) == facts.Keys;
  }

  // ----- From signed files to an install plan -----

  /**
   What the install loop may rely on: the order is a permutation of the ids signed in the artifacts, the
   packages are self-declared, one for each id at the signed version, and the actions carry signed
   versions and signed rename sources.
   */
  ghost predicate BoundPlan(
    nm: Naming, rows: seq<Row>, order: seq<string>, ps: seq<Package>, actions: seq<PlanAction>
  ) {
    && NoDuplicates(order) && |order| == |rows|
    && (forall row <- rows :: row.id in order && InstalledFrom(nm, ps, row))
    && (forall id <- order :: exists row <- rows :: row.id == id)
    && NoDuplicates(ActionIds(actions)) && (forall a <- actions :: SignedAction(nm, rows, a))
  }

  /** Exactly one package has the id, and its own bytes declare id and version as signed. */
  ghost predicate InstalledFrom(nm: Naming, ps: seq<Package>, row: Row) {
    exists k :: 0 <= k < |ps| && ps[k].id == row.id && ps[k].version == row.version && SelfDeclared(nm, ps[k])
      && forall j :: 0 <= j < |ps| && ps[j].id == row.id ==> j == k
  }

  ghost predicate SignedAction(nm: Naming, rows: seq<Row>, a: PlanAction) {
    exists row <- rows ::
      && row.id == a.id && row.version == a.version
      && (nm.trim(a.previous) == "" || nm.trim(a.previous) in row.previous)
  }

  lemma BoundRow(nm: Naming, rows: seq<Row>, facts: map<string, Fact>, ps: seq<Package>, stamped: seq<Package>, i: nat)
    requires FactsOf(rows, facts) && i < |rows| && Ids(ps) == facts.Keys && DistinctIds(ps)
    requires forall p <- ps :: SelfDeclared(nm, p) && VersionOk(facts, p.id, p.version)
    requires |stamped| == |ps| && forall k :: 0 <= k < |ps| ==>
      ps[k].id in facts && stamped[k] == ps[k].(version := facts[ps[k].id].version)
    ensures InstalledFrom(nm, stamped, rows[i])
  {
    assert rows[i].id in Ids(ps);
    var k :| 0 <= k < |ps| && ps[k].id == rows[i].id;
    assert ps[k] in ps && stamped[k] == ps[k];
    forall j | 0 <= j < |stamped| && stamped[j].id == rows[i].id ensures j == k {
      assert ps[j].id == ps[k].id;
    }
  }

  lemma BoundAction(nm: Naming, rows: seq<Row>, facts: map<string, Fact>, a: PlanAction)
    requires FactsOf(rows, facts) && ActionOk(nm, facts, a)
    ensures SignedAction(nm, rows, a.(version := facts[a.id].version))
  {
    var i :| 0 <= i < |rows| && rows[i].id == a.id;
    assert rows[i] in rows;
  }

  ghost predicate StampedPackages(facts: map<string, Fact>, ps: seq<Package>, stamped: seq<Package>) {
    && |stamped| == |ps|
    && forall k :: 0 <= k < |ps| ==> ps[k].id in facts && stamped[k] == ps[k].(version := facts[ps[k].id].version)
  }

  ghost predicate StampedActions(facts: map<string, Fact>, actions: seq<PlanAction>, signed: seq<PlanAction>) {
    && |signed| == |actions|
    && forall k :: 0 <= k < |actions| ==>
         actions[k].id in facts && signed[k] == actions[k].(version := facts[actions[k].id].version)
  }

  lemma BoundActions(
    nm: Naming, rows: seq<Row>, facts: map<string, Fact>, actions: seq<PlanAction>, signed: seq<PlanAction>
  )
    requires FactsOf(rows, facts) && StampedActions(facts, actions, signed)
    requires forall a <- actions :: ActionOk(nm, facts, a)
    ensures ActionIds(signed) == ActionIds(actions) && forall a <- signed :: SignedAction(nm, rows, a)
  {
    forall a | a in signed ensures SignedAction(nm, rows, a) {
      var k :| 0 <= k < |signed| && signed[k] == a;
      assert actions[k] in actions;
      BoundAction(nm, rows, facts, actions[k]);
    }
  }

  lemma BoundRows(nm: Naming, rows: seq<Row>, facts: map<string, Fact>, ps: seq<Package>, stamped: seq<Package>)
    requires FactsOf(rows, facts) && Ids(ps) == facts.Keys && DistinctIds(ps) && StampedPackages(facts, ps, stamped)
    requires forall p <- ps :: SelfDeclared(nm, p) && VersionOk(facts, p.id, p.version)
    ensures forall row <- rows :: InstalledFrom(nm, stamped, row)
  {
    forall row | row in rows ensures InstalledFrom(nm, stamped, row) {
      var i :| 0 <= i < |rows| && rows[i] == row;
      BoundRow(nm, rows, facts, ps, stamped, i);
    }
  }

  lemma Bound(
    nm: Naming, rows: seq<Row>, facts: map<string, Fact>, ps: seq<Package>, order: seq<string>,
    actions: seq<PlanAction>,
    stamped: seq<Package>, signed: seq<PlanAction>
  )
    requires FactsOf(rows, facts) && PlanAccepted(nm, facts, ps, order, actions) && DistinctIds(ps)
    requires forall p <- ps :: SelfDeclared(nm, p)
    requires StampedPackages(facts, ps, stamped) && StampedActions(facts, actions, signed)
    ensures BoundPlan(nm, rows, order, stamped, signed)
  {
    ValidatedPlanIsSigned(nm, rows, facts, ps, order, actions);
    BoundRows(nm, rows, facts, ps, stamped);
    BoundActions(nm, rows, facts, actions, signed);
  }

  method SignedRows(nm: Naming, artifacts: seq<Artifact>) returns (r: Option<seq<Row>>)
    ensures r == FlatRows(nm, artifacts)
  {
    var rows: seq<Row> := [];
    for i := 0 to |artifacts|
      invariant FlatRows(nm, artifacts[..i]) == Some(rows)
    {
      assert artifacts[..i + 1][..i] == artifacts[..i];
      var more := ArtifactModules(nm, artifacts[i].archive);
      if more.None? {
        FlatRowsStuck(nm, artifacts, i + 1);
        return None;
      }
      rows := rows + more.value;
    }
    assert artifacts[..|artifacts|] == artifacts;
    return Some(rows);
  }

  lemma {:induction false} FlatRowsStuck(nm: Naming, artifacts: seq<Artifact>, i: nat)
    requires i <= |artifacts| && FlatRows(nm, artifacts[..i]).None?
    ensures FlatRows(nm, artifacts).None?
    decreases |artifacts| - i
  {
    if i == |artifacts| {
      assert artifacts[..i] == artifacts;
    } else {
      assert artifacts[..i + 1][..i] == artifacts[..i];
      FlatRowsStuck(nm, artifacts, i + 1);
    }
  }

  function RowIds(rows: seq<Row>): set<string> {
    set i | 0 <= i < |rows| :: rows[i].id
  }

  /**
   The plan against the signed rows alone: the same ids, each once, and no version or rename source
   that is not signed.
   */
  ghost predicate PlanFits(nm: Naming, rows: seq<Row>, order: seq<string>, actions: seq<PlanAction>) {
    && rows != []
    && NoDuplicates(order) && Elems(order) == RowIds(rows)
    && NoDuplicates(ActionIds(actions)) && Elems(ActionIds(actions)) == RowIds(rows)
    && forall a <- actions :: FitsSomeRow(nm, rows, a)
  }

  ghost predicate FitsSomeRow(nm: Naming, rows: seq<Row>, a: PlanAction) {
    exists i :: 0 <= i < |rows| && rows[i].id == a.id && FitsRow(nm, rows[i], a)
  }

  ghost predicate FitsRow(nm: Naming, row: Row, a: PlanAction) {
    && (a.version == "" || a.version == row.version)
    && (nm.trim(a.previous) == "" || nm.trim(a.previous) in row.previous)
  }

  lemma FactsKeys(rows: seq<Row>, facts: map<string, Fact>)
    requires FactsOf(rows, facts)
    ensures facts.Keys == RowIds(rows) && |facts| == |rows|
  {
    RowIdsCount(rows, facts);
    assert |facts| == |facts.Keys|;
  }

  lemma FitsIff(nm: Naming, rows: seq<Row>, facts: map<string, Fact>, a: PlanAction)
    requires FactsOf(rows, facts)
    ensures ActionOk(nm, facts, a) <==> FitsSomeRow(nm, rows, a)
  {
    if a.id in facts {
      var i :| 0 <= i < |rows| && rows[i].id == a.id;
      assert ActionOk(nm, facts, a) <==> FitsRow(nm, rows[i], a);
    }
  }

  /** For packages that stand for the signed rows, the plan is accepted exactly when it fits the rows. */
  lemma AcceptedIff(
    nm: Naming, rows: seq<Row>, facts: map<string, Fact>, ps: seq<Package>, order: seq<string>, actions: seq<PlanAction>
  )
    requires FactsOf(rows, facts) && StandFor(ps, rows)
    ensures PlanAccepted(nm, facts, ps, order, actions) <==> PlanFits(nm, rows, order, actions)
  {
    FactsKeys(rows, facts);
    CountDistinct(ActionIds(actions));
    assert Ids(ps) == RowIds(rows) by { StandIds(ps, rows); }
    forall p | p in ps ensures VersionOk(facts, p.id, p.version) {
      var k :| 0 <= k < |ps| && ps[k] == p;
      assert rows[k].id in facts;
    }
    forall a | a in actions
      ensures ActionOk(nm, facts, a) <==> FitsSomeRow(nm, rows, a) { FitsIff(nm, rows, facts, a); }
  }

  lemma StandIds(ps: seq<Package>, rows: seq<Row>)
    requires StandFor(ps, rows)
    ensures Ids(ps) == RowIds(rows)
  {
    forall id ensures id in Ids(ps) <==> id in RowIds(rows) {
      if id in Ids(ps) { var k :| 0 <= k < |ps| && ps[k].id == id; assert rows[k].id == id; }
      if id in RowIds(rows) { var k :| 0 <= k < |rows| && rows[k].id == id; assert ps[k].id == id; }
    }
  }

  lemma {:induction false} FlatRowsPrefix(nm: Naming, artifacts: seq<Artifact>, n: nat)
    requires n <= |artifacts| && FlatRows(nm, artifacts).Some?
    ensures FlatRows(nm, artifacts[..n]).Some? && FlatRows(nm, artifacts[..n]).value <= FlatRows(nm, artifacts).value
  {
    if n == |artifacts| {
      assert artifacts[..n] == artifacts;
    } else {
      var last := |artifacts| - 1;
      FlatRowsPrefix(nm, artifacts[..last], n);
      assert artifacts[..last][..n] == artifacts[..n];
    }
  }

  lemma RepeatsMeansImproper(nm: Naming, artifacts: seq<Artifact>, n: nat)
    requires n <= |artifacts| && Repeats(nm, artifacts[..n]) && FlatRows(nm, artifacts).Some?
    ensures !RowsProper(FlatRows(nm, artifacts).value)
  {
    FlatRowsPrefix(nm, artifacts, n);
    var part, rows := FlatRows(nm, artifacts[..n]).value, FlatRows(nm, artifacts).value;
    var i, j :| 0 <= i < j < |part| && part[i].id == part[j].id;
    assert rows[i] == part[i] && rows[j] == part[j];
  }

  /** Packages that declare themselves, bound to the signed rows. */
  method BindPlan(nm: Naming, rows: seq<Row>, ps: seq<Package>, order: seq<string>, actions: seq<PlanAction>)
    returns (r: Option<(seq<Package>, seq<PlanAction>)>)
    requires DistinctIds(ps) && forall p <- ps :: SelfDeclared(nm, p)
    ensures r.Some? ==> BoundPlan(nm, rows, order, r.value.0, r.value.1)
    ensures StandFor(ps, rows) ==> (r.Some? <==> RowsProper(rows) && PlanFits(nm, rows, order, actions))
  {
    var facts := AuthenticatedFacts(rows);
    if facts.None? { return None; }
    if StandFor(ps, rows) { AcceptedIff(nm, rows, facts.value, ps, order, actions); }
    r := ValidateInstallPlan(nm, facts.value, ps, order, actions);
    if r.Some? { Bound(nm, rows, facts.value, ps, order, actions, r.value.0, r.value.1); }
  }

  /** What a batch must be, and its plan, to be accepted. */
  ghost predicate BatchFits(nm: Naming, artifacts: seq<Artifact>, order: seq<string>, actions: seq<PlanAction>) {
    && (forall artifact <- artifacts :: ArtifactOk(nm, artifact))
    && FlatRows(nm, artifacts).Some?
    && RowsProper(FlatRows(nm, artifacts).value) && PlanFits(nm, FlatRows(nm, artifacts).value, order, actions)
  }

  lemma RefusedBatch(nm: Naming, artifacts: seq<Artifact>, order: seq<string>, actions: seq<PlanAction>)
    requires FlatRows(nm, artifacts).Some?
    requires
      || (exists artifact <- artifacts :: !ArtifactOk(nm, artifact))
      || exists n :: 0 <= n <= |artifacts| && Repeats(nm, artifacts[..n])
    ensures !BatchFits(nm, artifacts, order, actions)
  {
    if n :| 0 <= n <= |artifacts| && Repeats(nm, artifacts[..n]) {
      RepeatsMeansImproper(nm, artifacts, n);
    }
  }

  /**
   From the staged artifacts and the mutable plan of a job to packages and actions bound to the signed
   bytes; with canonical bundle names it is accepted exactly when the artifacts are in order, their signed
   ids are proper and the plan fits them.
   */
  method PlanBatch(nm: Naming, artifacts: seq<Artifact>, order: seq<string>, actions: seq<PlanAction>)
    returns (r: Option<(seq<Package>, seq<PlanAction>)>)
    ensures r.Some? ==>
      && FlatRows(nm, artifacts).Some? && BoundPlan(nm, FlatRows(nm, artifacts).value, order, r.value.0, r.value.1)
      && forall artifact <- artifacts :: ArtifactOk(nm, artifact)
    ensures AllCanonical(nm, artifacts) ==> (r.Some? <==> BatchFits(nm, artifacts, order, actions))
  {
    var rows := SignedRows(nm, artifacts);
    if rows.None? { return None; }
    var packages := BatchPackages(nm, artifacts);
    if packages.None? {
      if AllCanonical(nm, artifacts) && FlatRows(nm, artifacts).Some? { RefusedBatch(nm, artifacts, order, actions); }
      return None;
    }
    r := BindPlan(nm, rows.value, packages.value, order, actions);
  }

  // ----- The rename source that is used -----

  /** The reader trims the signed rename sources. */
  ghost predicate TrimmedRow(nm: Naming, row: Row) {
    nm.trim("") == "" && forall v <- row.previous :: nm.trim(v) == v
  }

  /**
   The install loop uses the source as the plan wrote it: that is a signed one, or none, exactly when
   it has no blanks around it.
   */
  lemma RenameSourceExact(nm: Naming, row: Row, a: PlanAction)
    requires TrimmedRow(nm, row) && FitsRow(nm, row, a)
    ensures a.previous == "" || a.previous in row.previous <==> nm.trim(a.previous) == a.previous
  {
  }

  /** An accepted action whose source " old" is not the signed "old". */
  lemma PaddedSourceAccepted()
    ensures
      var trim := (v: string) => if v == " old" then "old" else v;
      var nm := Naming((base, name) => name, trim, name => Some(name), name => true);
      var row, a := Row("new", "1", {"old"}), PlanAction("new", "1", " old");
      TrimmedRow(nm, row) && PlanFits(nm, [row], ["new"], [a]) && a.previous !in row.previous
  {
    var trim := (v: string) => if v == " old" then "old" else v;
    var nm := Naming((base, name) => name, trim, name => Some(name), name => true);
    var row, a := Row("new", "1", {"old"}), PlanAction("new", "1", " old");
    assert [row][0] == row && FitsRow(nm, row, a);
    assert FitsSomeRow(nm, [row], a);
    assert RowIds([row]) == {"new"} && Elems(["new"]) == {"new"};
    assert ActionIds([a]) == ["new"];
  }
}
