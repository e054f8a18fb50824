/**
 What a signed package says about itself: the modules in a possibly nested bundle, the file that holds
 each of them, and the binding of the mutable install plan to those facts.
 */
module SignedBundles {
  import opened Common
  import opened Manifests

  /** An extension manifest inside an archive; `previous` and `permissions` are None when malformed. */
  datatype Extension = Extension(
    id: string, version: string, previous: Option<set<string>>, permissions: Option<set<string>>)

  datatype Entry = Entry(file: string, expectedId: string, expectedVersion: string)
  datatype Bundle = Bundle(base: string, typed: bool, entries: seq<Entry>)

  /** The bytes of a file as an archive. `safe` when every member name and type passes the member check. */
  datatype Archive =
    | NotArchive
    | Tar(safe: bool, extensions: seq<Extension>)
    | Zip(safe: bool, members: seq<Member>, bundles: seq<Bundle>, extensions: seq<Extension>)
  datatype Member = Member(name: string, bytes: Archive)

  /** Path handling of the host language: join below the bundle manifest, trim, and the two name checks. */
  datatype Naming = Naming(
    join: (string, string) -> string, trim: string -> string, safe: string -> Option<string>, unaliased: string -> bool)

  datatype Row = Row(id: string, version: string, previous: set<string>)
  datatype FileRow = FileRow(id: string, file: string, version: string)

  function RowOf(e: Extension): Option<Row> {
    if e.id == "" || e.version == "" || e.previous.None? then None else Some(Row(e.id, e.version, e.previous.value))
  }

  /** ZipFile.read(name): the last member of that name. */
  function LastIndex(members: seq<Member>, name: string): (r: Option<nat>)
    ensures r.Some? ==> r.value < |members| && members[r.value].name == name
    ensures r.None? <==> forall m <- members :: m.name != name
  {
    if members == [] then None
    else
      var n := |members| - 1;
      if members[n].name == name then Some(n)
      else
        assert members == members[..n] + [members[n]];
        LastIndex(members[..n], name)
  }

  // ----- The module list -----

  /** The extension manifests of an archive, in order, through nested bundles. */
  function Leaves(nm: Naming, a: Archive): Option<seq<Extension>>
    decreases a
  {
    match a
    case NotArchive => None
    case Tar(safe, extensions) => if safe && |extensions| == 1 then Some(extensions) else None
    case Zip(safe, members, bundles, extensions) =>
      if !safe || |bundles| > 1 then None
      else if |bundles| == 1 then
        if bundles[0].entries == [] then None else EntryLeaves(nm, a, bundles[0].entries)
      else if |extensions| == 1 then Some(extensions) else None
  }

  function EntryLeaves(nm: Naming, a: Archive, entries: seq<Entry>): Option<seq<Extension>>
    requires a.Zip? && |a.bundles| == 1
    decreases a, |entries|
  {
    if entries == [] then Some([])
    else
      var n := |entries| - 1;
      var front := EntryLeaves(nm, a, entries[..n]);
      if front.None? || entries[n].file == "" then None
      else
        var at := LastIndex(a.members, nm.join(a.bundles[0].base, entries[n].file));
        if at.None? then None
        else
          var child := Leaves(nm, a.members[at.value].bytes);
          if child.None? then None else Some(front.value + child.value)
  }

  function Rows(es: seq<Extension>): Option<seq<Row>> {
    if es == [] then Some([])
    else
      var front, last := Rows(es[..|es| - 1]), RowOf(es[|es| - 1]);
      if front.None? || last.None? then None else Some(front.value + [last.value])
  }

  /** Identity, version and rename sources of every module in signed bytes. */
  function ArtifactModules(nm: Naming, a: Archive): Option<seq<Row>> {
    var es := Leaves(nm, a);
    if es.None? then None else Rows(es.value)
  }

  // ----- The permissions a signer needs -----

  function Both(a: Option<set<string>>, b: Option<set<string>>): Option<set<string>> {
    if a.None? || b.None? then None else Some(a.value + b.value)
  }

  /** The walk of the archive that collects permissions, nested bundles included. */
  function Permissions(nm: Naming, a: Archive): Option<set<string>>
    decreases a
  {
    match a
    case NotArchive => None
    case Tar(safe, extensions) =>
      if safe && |extensions| == 1 then Both(Some({"module.install"}), extensions[0].permissions) else None
    case Zip(safe, members, bundles, extensions) =>
      if !safe || |bundles| > 1 then None
      else if |bundles| == 1 then
        if bundles[0].entries == [] then None else EntryPermissions(nm, a, bundles[0].entries)
      else if |extensions| == 1 then Both(Some({"module.install"}), extensions[0].permissions) else None
  }

  function EntryPermissions(nm: Naming, a: Archive, entries: seq<Entry>): Option<set<string>>
    requires a.Zip? && |a.bundles| == 1
    decreases a, |entries|
  {
    if entries == [] then Some({"module.install"})
    else
      var n := |entries| - 1;
      var front := EntryPermissions(nm, a, entries[..n]);
      if front.None? || entries[n].file == "" then None
      else
        var at := LastIndex(a.members, nm.join(a.bundles[0].base, entries[n].file));
        if at.None? then None else Both(front, Permissions(nm, a.members[at.value].bytes))
  }

  /** Installing, and whatever the manifests declare. */
  function Demanded(es: seq<Extension>): Option<set<string>> {
    if es == [] then Some({"module.install"}) else Both(Demanded(es[..|es| - 1]), es[|es| - 1].permissions)
  }

  function DemandedOf(es: Option<seq<Extension>>): Option<set<string>> {
    if es.None? then None else Demanded(es.value)
  }

  lemma {:induction false} DemandedSplit(xs: seq<Extension>, ys: seq<Extension>)
    ensures Demanded(xs + ys) == Both(Demanded(xs), Demanded(ys))
    ensures Demanded(xs).Some? ==> "module.install" in Demanded(xs).value
  {
    if xs != [] { DemandedSplit(xs[..|xs| - 1], []); }
    if ys == [] {
      assert xs + ys == xs;
      assert Demanded(xs).Some? ==> Demanded(xs).value + {"module.install"} == Demanded(xs).value;
    } else {
      var n := |ys| - 1;
      assert (xs + ys)[..|xs + ys| - 1] == xs + ys[..n];
      DemandedSplit(xs, ys[..n]);
      if Demanded(xs).Some? && Demanded(ys[..n]).Some? && ys[n].permissions.Some? {
        var x, y, z := Demanded(xs).value, Demanded(ys[..n]).value, ys[n].permissions.value;
        assert (x + y) + z == x + (y + z);
      }
    }
  }

  /**
   The permission walk and the module walk read the same manifests: a signer needs what the modules in
   the archive declare.
   */
  lemma {:induction false} PermissionsOfLeaves(nm: Naming, a: Archive)
    ensures Permissions(nm, a) == DemandedOf(Leaves(nm, a))
    decreases a
  {
    if a.Zip? && |a.bundles| == 1 {
      EntryPermissionsOfLeaves(nm, a, a.bundles[0].entries);
    } else if !a.NotArchive? && |a.extensions| == 1 {
      assert a.extensions[..0] == [];
      assert Demanded(a.extensions) == Both(Demanded([]), a.extensions[0].permissions);
    }
  }

  lemma {:induction false} EntryPermissionsOfLeaves(nm: Naming, a: Archive, entries: seq<Entry>)
    requires a.Zip? && |a.bundles| == 1
    ensures EntryPermissions(nm, a, entries) == DemandedOf(EntryLeaves(nm, a, entries))
    decreases a, |entries|
  {
    if entries != [] {
      var n := |entries| - 1;
      EntryPermissionsOfLeaves(nm, a, entries[..n]);
      var at := LastIndex(a.members, nm.join(a.bundles[0].base, entries[n].file));
      if at.Some? {
        var bytes := a.members[at.value].bytes;
        PermissionsOfLeaves(nm, bytes);
        var front, child := EntryLeaves(nm, a, entries[..n]), Leaves(nm, bytes);
        if front.Some? && child.Some? { DemandedSplit(front.value, child.value); }
      }
    }
  }

  /** One of these manifests declares the permission. */
  ghost predicate Declared(es: seq<Extension>, p: string) {
    exists e <- es :: e.permissions.Some? && p in e.permissions.value
  }

  lemma {:induction false} DemandedMeans(es: seq<Extension>, p: string)
    ensures Demanded(es).Some? <==> forall e <- es :: e.permissions.Some?
    ensures Demanded(es).Some? ==>
      (p in Demanded(es).value <==> p == "module.install" || Declared(es, p))
  {
    if es != [] {
      var n := |es| - 1;
      assert es == es[..n] + [es[n]];
      DemandedMeans(es[..n], p);
    }
  }

  /** A permission is asked of the signer exactly when it is module.install or some module inside declares it. */
  lemma SignerNeedsExactly(nm: Naming, a: Archive, p: string)
    ensures Permissions(nm, a).Some? <==> Leaves(nm, a).Some? && forall e <- Leaves(nm, a).value :: e.permissions.Some?
    ensures Permissions(nm, a).Some? ==>
      (p in Permissions(nm, a).value <==> p == "module.install" || Declared(Leaves(nm, a).value, p))
  {
    PermissionsOfLeaves(nm, a);
    if Leaves(nm, a).Some? { DemandedMeans(Leaves(nm, a).value, p); }
  }

  // ----- The file mapping of a bundle -----

  function CountNamed(members: seq<Member>, name: string): nat {
    if members == [] then 0
    else CountNamed(members[..|members| - 1], name) + (if members[|members| - 1].name == name then 1 else 0)
  }

  /** One bundle entry: the member it names and the single module that member declares. */
  function EntryFile(nm: Naming, a: Archive, e: Entry): Option<FileRow>
    requires a.Zip? && |a.bundles| == 1
  {
    var filename := nm.trim(e.file);
    var rel := nm.safe(filename);
    if filename == "" || rel.None? then None
    else
      var member := nm.join(a.bundles[0].base, rel.value);
      var at := LastIndex(a.members, member);
      if CountNamed(a.members, member) != 1 || at.None? then None
      else
        var child := ArtifactModules(nm, a.members[at.value].bytes);
        if child.None? || |child.value| != 1 then None
        else
          var row := child.value[0];
          if (nm.trim(e.expectedId) != "" && nm.trim(e.expectedId) != row.id)
             || (nm.trim(e.expectedVersion) != "" && nm.trim(e.expectedVersion) != row.version) then None
          else Some(FileRow(row.id, member, row.version))
  }

  lemma {:induction false} CountNamedMeans(members: seq<Member>, name: string, i: nat)
    requires i < |members| && members[i].name == name
    ensures CountNamed(members, name) >= 1
    ensures CountNamed(members, name) == 1 <==> forall j :: 0 <= j < |members| && members[j].name == name ==> j == i
  {
    var n := |members| - 1;
    if i < n {
      CountNamedMeans(members[..n], name, i);
    } else {
      CountNamedZero(members[..n], name);
    }
  }

  lemma {:induction false} CountNamedZero(members: seq<Member>, name: string)
    ensures CountNamed(members, name) == 0 <==> forall j :: 0 <= j < |members| ==> members[j].name != name
  {
    if members != [] { CountNamedZero(members[..|members| - 1], name); }
  }

  /** The one member with this name. */
  ghost predicate OnlyMember(members: seq<Member>, name: string, i: int) {
    && 0 <= i < |members| && members[i].name == name
    && forall j :: 0 <= j < |members| && members[j].name == name ==> j == i
  }

  /** The one module an archive declares is `row`'s, as the entry expects it where it says so. */
  ghost predicate DeclaresRow(nm: Naming, bytes: Archive, e: Entry, row: FileRow) {
    var child := ArtifactModules(nm, bytes);
    && child.Some? && |child.value| == 1 && row.id == child.value[0].id && row.version == child.value[0].version
    && (nm.trim(e.expectedId) == "" || nm.trim(e.expectedId) == row.id)
    && (nm.trim(e.expectedVersion) == "" || nm.trim(e.expectedVersion) == row.version)
  }

  /** What resolving an entry means: its name is that of one member only, and that declares the row's module. */
  lemma EntryFileMeans(nm: Naming, a: Archive, e: Entry, row: FileRow)
    requires a.Zip? && |a.bundles| == 1
    ensures EntryFile(nm, a, e) == Some(row) <==>
      && nm.trim(e.file) != "" && nm.safe(nm.trim(e.file)).Some?
      && row.file == nm.join(a.bundles[0].base, nm.safe(nm.trim(e.file)).value)
      && exists i :: OnlyMember(a.members, row.file, i) && DeclaresRow(nm, a.members[i].bytes, e, row)
  {
    if nm.safe(nm.trim(e.file)).Some? {
      var file := nm.join(a.bundles[0].base, nm.safe(nm.trim(e.file)).value);
      var at := LastIndex(a.members, file);
      if at.Some? {
        CountNamedMeans(a.members, file, at.value);
        assert CountNamed(a.members, file) == 1 <==> OnlyMember(a.members, file, at.value);
      }
    }
  }

  predicate DistinctFiles(rows: seq<FileRow>) {
    forall i, j :: 0 <= i < j < |rows| ==> rows[i].id != rows[j].id && rows[i].file != rows[j].file
  }

  /** Every bundle entry resolved on its own. */
  function Candidates(nm: Naming, a: Archive): (r: seq<Option<FileRow>>)
    requires a.Zip? && |a.bundles| == 1
    ensures |r| == |a.bundles[0].entries|
  {
    seq(|a.bundles[0].entries|, i requires 0 <= i < |a.bundles[0].entries| => EntryFile(nm, a, a.bundles[0].entries[i]))
  }

  ghost predicate Resolves(found: seq<Option<FileRow>>, rows: seq<FileRow>) {
    && |rows| == |found|
    && (forall i :: 0 <= i < |rows| ==> found[i] == Some(rows[i]))
    && DistinctFiles(rows)
  }

  /** The file and identity of every bundle child; empty for an archive that is no bundle. */
  ghost predicate PackageFiles(nm: Naming, a: Archive, rows: seq<FileRow>) {
    if !a.Zip? then rows == []
    else
      && a.safe && |a.bundles| <= 1
      && if a.bundles == [] then rows == []
         else a.bundles[0].typed && a.bundles[0].entries != [] && Resolves(Candidates(nm, a), rows)
  }

  /** A bundle has a file mapping exactly when every entry resolves and no two resolve to the same module. */
  lemma MappingExists(found: seq<Option<FileRow>>, rows: seq<FileRow>)
    requires |rows| == |found| && forall i :: 0 <= i < |found| ==> found[i] == Some(rows[i])
    requires forall i, j :: 0 <= i < j < |rows| ==> rows[i].id != rows[j].id && rows[i].file != rows[j].file
    ensures Resolves(found, rows)
  {
  }

  /** Accepts resolved entries whose files and ids are all different. */
  method CollectDistinct(found: seq<Option<FileRow>>) returns (r: Option<seq<FileRow>>)
    ensures r.Some? ==> Resolves(found, r.value)
    ensures r.None? ==> forall rows :: !Resolves(found, rows)
  {
    var rows: seq<FileRow> := [];
    var seenFiles: set<string>, seenIds: set<string> := {}, {};
    for i := 0 to |found|
      invariant |rows| == i
      invariant forall k :: 0 <= k < i ==> found[k] == Some(rows[k])
      invariant DistinctFiles(rows)
      invariant seenFiles == set k | 0 <= k < i :: rows[k].file
      invariant seenIds == set k | 0 <= k < i :: rows[k].id
    {
      if found[i].None? { return None; }
      var row := found[i].value;
      if row.file in seenFiles || row.id in seenIds {
        var k :| 0 <= k < i && (rows[k].file == row.file || rows[k].id == row.id);
        assert found[k] == Some(rows[k]);
        return None;
      }
      seenFiles, seenIds := seenFiles + {row.file}, seenIds + {row.id};
      rows := rows + [row];
    }
    return Some(rows);
  }

  method ArtifactBundlePackageFiles(nm: Naming, a: Archive) returns (r: Option<seq<FileRow>>)
    ensures r.Some? ==> PackageFiles(nm, a, r.value)
    ensures r.Some? ==> forall i, j :: 0 <= i < j < |r.value| ==>
      r.value[i].id != r.value[j].id && r.value[i].file != r.value[j].file
    ensures r.None? ==> forall rows :: !PackageFiles(nm, a, rows)
  {
    if !a.Zip? { return Some([]); }
    if !a.safe || |a.bundles| > 1 { return None; }
    if a.bundles == [] { return Some([]); }
    if !a.bundles[0].typed || a.bundles[0].entries == [] { return None; }
    r := CollectDistinct(Candidates(nm, a));
  }

  /** Entry names are written the one way both readings agree on. */
  ghost predicate CanonicalEntries(nm: Naming, a: Archive) {
    a.Zip? && |a.bundles| == 1 ==>
      forall e <- a.bundles[0].entries :: nm.trim(e.file) == e.file && nm.safe(e.file) == Some(e.file)
  }

  lemma {:induction false} RowsSplit(xs: seq<Extension>, ys: seq<Extension>)
    ensures Rows(xs + ys) == if Rows(xs).None? || Rows(ys).None? then None else Some(Rows(xs).value + Rows(ys).value)
  {
    if ys == [] {
      assert xs + ys == xs;
      assert Rows(xs).Some? ==> Rows(xs).value + [] == Rows(xs).value;
    } else {
      var n := |ys| - 1;
      assert (xs + ys)[..|xs + ys| - 1] == xs + ys[..n];
      RowsSplit(xs, ys[..n]);
      if Rows(xs).Some? && Rows(ys).Some? {
        assert Rows(ys).value == Rows(ys[..n]).value + [RowOf(ys[n]).value];
        assert Rows(xs).value + Rows(ys).value == (Rows(xs).value + Rows(ys[..n]).value) + [RowOf(ys[n]).value];
      }
    }
  }

  /** What a resolved entry adds to the module list: one module, the one its file row names. */
  lemma EntryAdds(nm: Naming, a: Archive, e: Entry, row: FileRow)
    requires a.Zip? && |a.bundles| == 1 && EntryFile(nm, a, e) == Some(row)
    requires nm.trim(e.file) == e.file && nm.safe(e.file) == Some(e.file)
    ensures row.file == nm.join(a.bundles[0].base, e.file) && e.file != ""
    ensures var at := LastIndex(a.members, row.file);
      && at.Some?
      && Leaves(nm, a.members[at.value].bytes).Some?
      && Rows(Leaves(nm, a.members[at.value].bytes).value).Some?
      && var signed := Rows(Leaves(nm, a.members[at.value].bytes).value).value;
         |signed| == 1 && signed[0].id == row.id && signed[0].version == row.version
  {
  }

  ghost predicate Matches(signed: Option<seq<Row>>, rows: seq<FileRow>) {
    && signed.Some? && |signed.value| == |rows|
    && forall i :: 0 <= i < |rows| ==> signed.value[i].id == rows[i].id && signed.value[i].version == rows[i].version
  }

  ghost predicate EntriesMatch(nm: Naming, a: Archive, entries: seq<Entry>, rows: seq<FileRow>)
    requires a.Zip? && |a.bundles| == 1
  {
    EntryLeaves(nm, a, entries).Some? && Matches(Rows(EntryLeaves(nm, a, entries).value), rows)
  }

  lemma EntryExtends(nm: Naming, a: Archive, entries: seq<Entry>, rows: seq<FileRow>, e: Entry, row: FileRow)
    requires a.Zip? && |a.bundles| == 1 && EntriesMatch(nm, a, entries, rows)
    requires EntryFile(nm, a, e) == Some(row) && nm.trim(e.file) == e.file && nm.safe(e.file) == Some(e.file)
    ensures EntriesMatch(nm, a, entries + [e], rows + [row])
  {
    EntryAdds(nm, a, e, row);
    assert (entries + [e])[..|entries|] == entries;
    var at := LastIndex(a.members, row.file).value;
    RowsSplit(EntryLeaves(nm, a, entries).value, Leaves(nm, a.members[at].bytes).value);
  }

  lemma {:induction false} EntriesCorrespond(nm: Naming, a: Archive, rows: seq<FileRow>, n: nat)
    requires a.Zip? && |a.bundles| == 1 && Resolves(Candidates(nm, a), rows) && n <= |rows|
    requires CanonicalEntries(nm, a)
    ensures EntriesMatch(nm, a, a.bundles[0].entries[..n], rows[..n])
  {
    if n > 0 {
      var entries := a.bundles[0].entries;
      EntriesCorrespond(nm, a, rows, n - 1);
      assert entries[n - 1] in entries && Candidates(nm, a)[n - 1] == Some(rows[n - 1]);
      EntryExtends(nm, a, entries[..n - 1], rows[..n - 1], entries[n - 1], rows[n - 1]);
      assert entries[..n] == entries[..n - 1] + [entries[n - 1]] && rows[..n] == rows[..n - 1] + [rows[n - 1]];
    }
  }

  /** For an accepted bundle with canonical names, files and modules correspond one to one, in order. */
  lemma FilesMatchModules(nm: Naming, a: Archive, rows: seq<FileRow>)
    requires PackageFiles(nm, a, rows) && rows != [] && CanonicalEntries(nm, a)
    ensures Matches(ArtifactModules(nm, a), rows)
  {
    EntriesCorrespond(nm, a, rows, |rows|);
    assert a.bundles[0].entries[..|rows|] == a.bundles[0].entries && rows[..|rows|] == rows;
  }
}
