/**
 Merging the trusted-publisher store of a restore target with the one from the backup. On the same
 installation the target decides; on a replacement server both survive, and revocation always wins.
 */
module PublisherMerge {
  import opened Common

  type Bytes = string

  datatype Key = Key(id: string, status: string, file: string)

  /** publisher.json: `keys` when the list form is present, `legacy` for the older single-key fields. */
  datatype Policy = Policy(status: string, keys: Option<seq<Key>>, legacy: Option<Key>)

  datatype Node = Regular(bytes: Bytes) | Other
  /** publisher.json on disk. */
  datatype PolicyJson = Missing | Unreadable | Readable(policy: Policy)
  /** A publisher directory; `files` are its entries other than publisher.json. */
  datatype Dir = Dir(json: PolicyJson, files: map<string, Node>)
  datatype Entry = Link | Plain(bytes: Bytes) | Publisher(dir: Dir)
  type Store = map<string, Entry>

  predicate Lower(c: char, d: char) {
    c == d || ('A' <= c <= 'Z' && d == (c as int + 32) as char)
  }

  /** `status.lower() == "revoked"`. */
  predicate Revoked(status: string) {
    |status| == 7 && forall i :: 0 <= i < 7 ==> Lower(status[i], "revoked"[i])
  }

  const NO_POLICY := Policy("", None, None)

  function PolicyOf(d: Dir): Policy {
    if d.json.Readable? then d.json.policy else NO_POLICY
  }

  function Keys(p: Policy): seq<Key> {
    if p.keys.Some? then Named(p.keys.value)
    else if p.legacy.Some? && p.legacy.value.id != "" then [p.legacy.value] else []
  }

  function Named(ks: seq<Key>): (r: seq<Key>)
    ensures forall k <- r :: k.id != ""
  {
    if ks == [] then [] else (if ks[0].id != "" then [ks[0]] else []) + Named(ks[1..])
  }

  /** The list form counts whenever it is there, records without an id left out; else the older single key does. */
  lemma KeysMeans(p: Policy, k: Key)
    ensures k in Keys(p) <==> k.id != "" && if p.keys.Some? then k in p.keys.value else p.legacy == Some(k)
  {
    if p.keys.Some? { NamedMeans(p.keys.value, k); }
  }

  lemma {:induction false} NamedMeans(ks: seq<Key>, k: Key)
    ensures k in Named(ks) <==> k in ks && k.id != ""
  {
    if ks != [] {
      NamedMeans(ks[1..], k);
      assert ks == [ks[0]] + ks[1..];
    }
  }

  predicate HasId(ks: seq<Key>, id: string) {
    exists k <- ks :: k.id == id
  }

  /** `{key_id: record}`: a repeated id keeps its last record. */
  function ById(ks: seq<Key>): (m: map<string, Key>)
    ensures forall id <- m :: m[id].id == id
    ensures forall id :: id in m <==> HasId(ks, id)
  {
    if ks == [] then map[]
    else
      var n := |ks| - 1;
      assert ks == ks[..n] + [ks[n]];
      ById(ks[..n])[ks[n].id := ks[n]]
  }

  predicate SafeName(name: string) {
    name != "" && name != "." && name != ".." && '/' !in name && '\\' !in name
  }

  /** A safe name is one path part that is not a dot or two. */
  lemma SafeNameMeans(name: string)
    ensures SafeName(name) <==> !(name == "" || name == "." || name == ".." || '/' in name || '\\' in name)
    ensures SafeName("public.key") && !SafeName("..")
  {
  }

  predicate SameRegular(a: map<string, Node>, b: map<string, Node>, name: string) {
    name in a && name in b && a[name].Regular? && a[name] == b[name]
  }

  /** A restored key survives when the target knows its id, or its file does not clash with the target's. */
  predicate Survives(
    current: map<string, Key>, currentFiles: map<string, Node>, restoredFiles: map<string, Node>, k: Key
  ) {
    k.id in current || k.file !in currentFiles || SameRegular(restoredFiles, currentFiles, k.file)
  }

  function MergedKey(current: map<string, Key>, restored: map<string, Key>, id: string): Key
    requires id in current || id in restored
  {
    if id in current then
      if id in restored && Revoked(restored[id].status) then current[id].(status := "revoked") else current[id]
    else restored[id]
  }

  ghost predicate UniqueIds(ks: seq<Key>) {
    forall i, j :: 0 <= i < j < |ks| ==> ks[i].id != ks[j].id
  }

  /** The merged key list: each id once, with the record the rules choose, and no other id. */
  ghost predicate MergesTo(cur: Dir, res: Dir, ks: seq<Key>)
  {
    var current, restored := ById(Keys(PolicyOf(cur))), ById(Keys(PolicyOf(res)));
    && UniqueIds(ks)
    && (forall k <- ks :: (k.id in current || k.id in restored) && k == MergedKey(current, restored, k.id))
    && (forall id :: HasId(ks, id) <==>
          id in current || (id in restored && Survives(current, cur.files, res.files, restored[id])))
  }

  /** Drops the restored-only keys whose file name the target uses for other bytes; None on an unsafe name. */
  method DropClashing(
    current: map<string, Key>, restored: map<string, Key>,
    currentFiles: map<string, Node>, restoredFiles: map<string, Node>
  ) returns (r: Option<map<string, Key>>)
    requires forall id <- restored :: restored[id].id == id
    ensures r.None? <==> exists id <- restored :: id !in current && !SafeName(restored[id].file)
    ensures r.Some? ==>
      r.value == map id | id in restored && Survives(current, currentFiles, restoredFiles, restored[id]) :: restored[id]
  {
    var kept := restored;
    var left := restored.Keys;
    while left != {}
      invariant left <= restored.Keys
      invariant forall id <- restored :: id !in left && id !in current ==> SafeName(restored[id].file)
      invariant kept == map id |
        id in restored && (id in left || Survives(current, currentFiles, restoredFiles, restored[id])) :: restored[id]
      decreases left
    {
      var id :| id in left;
      left := left - {id};
      if id !in current {
        var name := restored[id].file;
        if !SafeName(name) { return None; }
        if name in currentFiles && !SameRegular(restoredFiles, currentFiles, name) { kept := kept - {id}; }
      }
    }
    return Some(kept);
  }

  function Kept(current: map<string, Key>, restored: map<string, Key>, cur: Dir, res: Dir): map<string, Key> {
    map id | id in restored && Survives(current, cur.files, res.files, restored[id]) :: restored[id]
  }

  lemma KeptMergesTo(cur: Dir, res: Dir, current: map<string, Key>, restored: map<string, Key>, ks: seq<Key>)
    requires current == ById(Keys(PolicyOf(cur))) && restored == ById(Keys(PolicyOf(res)))
    requires UniqueIds(ks)
    requires var kept := Kept(current, restored, cur, res);
      && (forall k <- ks :: (k.id in current || k.id in kept) && k == MergedKey(current, kept, k.id))
      && (forall id :: HasId(ks, id) <==> id in current || id in kept)
    ensures MergesTo(cur, res, ks)
  {
    var kept := Kept(current, restored, cur, res);
    forall id | id in current || id in kept ensures MergedKey(current, kept, id) == MergedKey(current, restored, id) { }
  }

  lemma {:induction false} KeysNamed(p: Policy)
    ensures forall k <- Keys(p) :: k.id != ""
  {
  }

  /** A restored-only key names a file outside its directory. */
  ghost predicate UnsafeNewKey(cur: Dir, res: Dir)
  {
    var current, restored := ById(Keys(PolicyOf(cur))), ById(Keys(PolicyOf(res)));
    exists id <- restored :: id !in current && !SafeName(restored[id].file)
  }

  /** The merged publisher policy; None when a file is unreadable or a restored-only key names an unsafe file. */
  method MergePublisherJson(cur: Dir, res: Dir) returns (r: Option<Policy>)
    ensures r.Some? ==> MergesTo(cur, res, Keys(r.value))
    ensures r.Some? ==> (Revoked(r.value.status) <==> Revoked(PolicyOf(cur).status) || Revoked(PolicyOf(res).status))
    ensures r.None? <==> cur.json.Unreadable? || res.json.Unreadable? || UnsafeNewKey(cur, res)
  {
    if cur.json.Unreadable? || res.json.Unreadable? { return None; }
    var current, restored := ById(Keys(PolicyOf(cur))), ById(Keys(PolicyOf(res)));
    var dropped := DropClashing(current, restored, cur.files, res.files);
    if dropped.None? { return None; }
    KeysNamed(PolicyOf(cur));
    KeysNamed(PolicyOf(res));
    HasIdConcat(Keys(PolicyOf(cur)), Keys(PolicyOf(res)));
    var ks := MergeKeys(Keys(PolicyOf(cur)) + Keys(PolicyOf(res)), current, dropped.value);
    KeptMergesTo(cur, res, current, restored, ks);
    NamedIdentity(ks);
    var status := if Revoked(PolicyOf(res).status) || Revoked(PolicyOf(cur).status) then "revoked"
      else if PolicyOf(cur).status != "" then PolicyOf(cur).status else PolicyOf(res).status;
    return Some(Policy(status, if ks == [] then None else Some(ks), None));
  }

  lemma HasIdConcat(a: seq<Key>, b: seq<Key>)
    ensures forall id :: HasId(a, id) || HasId(b, id) ==> HasId(a + b, id)
  {
    assert (forall k <- a :: k in a + b) && (forall k <- b :: k in a + b);
  }

  lemma {:induction false} NamedIdentity(ks: seq<Key>)
    requires forall k <- ks :: k.id != ""
    ensures Named(ks) == ks
  {
    if ks != [] {
      NamedIdentity(ks[1..]);
      assert ks == [ks[0]] + ks[1..];
    }
  }

  /** Walks both key lists in order and keeps the first mention of each surviving id. */
  method MergeKeys(all: seq<Key>, current: map<string, Key>, kept: map<string, Key>) returns (ks: seq<Key>)
    requires forall k <- all :: k.id != ""
    requires forall id :: id in current || id in kept ==> HasId(all, id)
    requires (forall id <- current :: current[id].id == id) && (forall id <- kept :: kept[id].id == id)
    ensures UniqueIds(ks)
    ensures forall k <- ks :: k.id != "" && (k.id in current || k.id in kept) && k == MergedKey(current, kept, k.id)
    ensures forall id :: HasId(ks, id) <==> id in current || id in kept
  {
    ks := [];
    var seen: set<string> := {};
    for i := 0 to |all|
      invariant seen == set j | 0 <= j < i :: all[j].id
      invariant UniqueIds(ks)
      invariant forall k <- ks ::
        k.id != "" && k.id in seen && (k.id in current || k.id in kept) && k == MergedKey(current, kept, k.id)
      invariant forall id :: id in seen && (id in current || id in kept) ==> HasId(ks, id)
    {
      var id := all[i].id;
      assert all[i] in all;
      if id !in seen && (id in current || id in kept) {
        var k := MergedKey(current, kept, id);
        assert k.id == id;
        Appended(ks, k);
        ks := ks + [k];
      }
      seen := seen + {id};
    }
  }

  lemma Appended(ks: seq<Key>, k: Key)
    ensures forall id :: HasId(ks + [k], id) <==> HasId(ks, id) || id == k.id
    ensures UniqueIds(ks) && (forall x <- ks :: x.id != k.id) ==> UniqueIds(ks + [k])
  {
    assert k in ks + [k] && forall x <- ks :: x in ks + [k];
    if UniqueIds(ks) && forall x <- ks :: x.id != k.id {
      var r := ks + [k];
      forall i, j | 0 <= i < j < |r| ensures r[i].id != r[j].id {
        assert r[i] == ks[i] && ks[i] in ks;
      }
    }
  }

  // ----- Directories and the store -----

  /** A directory of a replacement server: merged policy, restored files overlaid by the target's. */
  ghost predicate MergedDir(cur: Dir, res: Dir, out: Dir) {
    && out.files == res.files + cur.files
    && if cur.json.Missing? then out.json == res.json
       else
         && out.json.Readable? && MergesTo(cur, res, Keys(out.json.policy))
         && (Revoked(out.json.policy.status) <==> Revoked(PolicyOf(cur).status) || Revoked(PolicyOf(res).status))
  }

  /** What the merge leaves under one name of the store. */
  ghost predicate MergedEntry(replacement: bool, cur: Option<Entry>, res: Option<Entry>, out: Option<Entry>) {
    if !replacement then out == cur
    else if cur.None? then out == res
    else if cur.value.Publisher? && res.Some? && res.value.Publisher? then
      out.Some? && out.value.Publisher? && MergedDir(cur.value.dir, res.value.dir, out.value.dir)
    else out == cur
  }

  function At(s: Store, name: string): Option<Entry> {
    if name in s then Some(s[name]) else None
  }

  /** The entries of a store that are not links; a merge does not look at the others. */
  function Unlinked(s: Store): Store {
    map name | name in s && !s[name].Link? :: s[name]
  }

  /** The policies of this directory cannot be merged. */
  ghost predicate Refuses(cur: Dir, res: Dir) {
    !cur.json.Missing? && (cur.json.Unreadable? || res.json.Unreadable? || UnsafeNewKey(cur, res))
  }

  ghost predicate RefusesEntry(current: Store, restored: Store, name: string) {
    && name in current && name in restored && current[name].Publisher? && restored[name].Publisher?
    && Refuses(current[name].dir, restored[name].dir)
  }

  class TrustStore {
    var store: Store

    /**
     Merges the target's store into the restored one, entry by entry; false when a policy is refused.
     A target that had no real store directory when it was captured has no say.
     */
    method MergeRestoreState(target: Store, authoritative: bool, replacement: bool) returns (ok: bool)
      modifies this
      ensures !authoritative ==> ok && store == old(store)
      ensures authoritative && ok ==>
        forall name: string ::
          MergedEntry(replacement, At(Unlinked(target), name), At(old(store), name), At(store, name))
      ensures !ok <==> authoritative && replacement && exists name <- target :: RefusesEntry(target, old(store), name)
    {
      if !authoritative { return true; }
      var current := Unlinked(target);
      if !replacement { store := map name | name in store && name in current :: store[name]; }
      var left := current.Keys;
      while left != {}
        invariant left <= current.Keys
        invariant forall name: string :: name !in left ==>
          MergedEntry(replacement, At(current, name), At(old(store), name), At(store, name))
        invariant replacement ==> forall name <- left :: At(store, name) == At(old(store), name)
        invariant replacement ==> forall name <- target :: name !in left ==> !RefusesEntry(target, old(store), name)
        decreases left
      {
        var name :| name in left;
        left := left - {name};
        if replacement && name in store && current[name].Publisher? && store[name].Publisher? {
          var merged := MergeDirectory(current[name].dir, store[name].dir);
          if merged.None? { return false; }
          store := store[name := Publisher(merged.value)];
        } else {
          store := store[name := current[name]];
        }
      }
      return true;
    }
  }

  method MergeDirectory(cur: Dir, res: Dir) returns (r: Option<Dir>)
    ensures r.Some? ==> MergedDir(cur, res, r.value)
    ensures r.None? <==> Refuses(cur, res)
  {
    var json := res.json;
    if !cur.json.Missing? {
      var policy := MergePublisherJson(cur, res);
      if policy.None? { return None; }
      json := Readable(policy.value);
    }
    var files := res.files;
    var left := cur.files.Keys;
    while left != {}
      invariant left <= cur.files.Keys
      invariant files == res.files + map n | n in cur.files && n !in left :: cur.files[n]
      decreases left
    {
      var n :| n in left;
      left := left - {n};
      files := files[n := cur.files[n]];
    }
    assert (map n | n in cur.files && n !in left :: cur.files[n]) == cur.files;
    return Some(Dir(json, files));
  }

  // ----- What the merge promises -----

  /** On the same installation the store ends as the target's own store. */
  lemma SameInstallationKeepsTarget(target: Store, restored: Store, merged: Store)
    requires forall name: string :: MergedEntry(false, At(Unlinked(target), name), At(restored, name), At(merged, name))
    ensures forall name <- merged :: name in target && merged[name] == target[name] && !merged[name].Link?
    ensures forall name <- target :: !target[name].Link? ==> name in merged
    ensures (forall name <- target :: !target[name].Link?) ==> merged == target
  {
    var current := Unlinked(target);
    forall name: string
      ensures (name in merged <==> name in current) && (name in merged ==> merged[name] == current[name])
    {
      assert MergedEntry(false, At(current, name), At(restored, name), At(merged, name));
    }
  }

  /** The record signature checking uses for a key id: the first one in the list. */
  function FirstOf(ks: seq<Key>, id: string): (r: Option<Key>)
    ensures r.Some? <==> HasId(ks, id)
    ensures r.Some? ==> r.value in ks && r.value.id == id
  {
    if ks == [] then None else if ks[0].id == id then Some(ks[0]) else FirstOf(ks[1..], id)
  }

  predicate RevokedIn(d: Dir, id: string) {
    var k := FirstOf(Keys(PolicyOf(d)), id);
    k.Some? && Revoked(k.value.status)
  }

  /** The last record of the id, the one the merge works with, is revoked. */
  predicate LastRevokedIn(d: Dir, id: string) {
    var ks := ById(Keys(PolicyOf(d)));
    id in ks && Revoked(ks[id].status)
  }

  /** The merge keeps this id. */
  predicate Retained(cur: Dir, res: Dir, id: string) {
    var current, restored := ById(Keys(PolicyOf(cur))), ById(Keys(PolicyOf(res)));
    id in current || (id in restored && Survives(current, cur.files, res.files, restored[id]))
  }

  /** A repeated id hides its revocation: revoked where checking looks, on neither side where the merge looks. */
  predicate HiddenRevocation(cur: Dir, res: Dir, id: string) {
    (RevokedIn(cur, id) || RevokedIn(res, id)) && !LastRevokedIn(cur, id) && !LastRevokedIn(res, id)
  }

  lemma {:induction false} FirstOfUnique(ks: seq<Key>, k: Key)
    requires UniqueIds(ks) && k in ks
    ensures FirstOf(ks, k.id) == Some(k)
  {
    if ks[0] != k {
      var i :| 0 < i < |ks| && ks[i] == k;
      assert ks[1..][i - 1] == k;
      FirstOfUnique(ks[1..], k);
    }
  }

  /** The merged record of a retained id, as checking finds it. */
  lemma MergedRecord(cur: Dir, res: Dir, out: Dir, id: string)
    requires MergedDir(cur, res, out) && !cur.json.Missing?
    ensures Retained(cur, res, id) <==> FirstOf(Keys(PolicyOf(out)), id).Some?
    ensures Retained(cur, res, id) ==>
      FirstOf(Keys(PolicyOf(out)), id) == Some(MergedKey(ById(Keys(PolicyOf(cur))), ById(Keys(PolicyOf(res))), id))
  {
    var ks := Keys(PolicyOf(out));
    if HasId(ks, id) {
      var k :| k in ks && k.id == id;
      FirstOfUnique(ks, k);
    }
  }

  /**
   An id that checking refuses as revoked on either side is revoked or gone after the merge, exactly
   when the merge does not retain it or a repeated id does not hide the revocation. The publisher's own
   status is revoked exactly when it was on a side, and merged ids are unique.
   */
  lemma RevokedNeverActive(cur: Dir, res: Dir, out: Dir, id: string)
    requires MergedDir(cur, res, out) && !cur.json.Missing?
    ensures
      (RevokedIn(cur, id) || RevokedIn(res, id) ==> RevokedIn(out, id) || FirstOf(Keys(PolicyOf(out)), id).None?)
      <==> !(Retained(cur, res, id) && HiddenRevocation(cur, res, id))
    ensures Revoked(PolicyOf(out).status) <==> Revoked(PolicyOf(cur).status) || Revoked(PolicyOf(res).status)
    ensures UniqueIds(Keys(PolicyOf(out)))
  {
    assert Revoked("revoked");
    MergedRecord(cur, res, out, id);
  }

  lemma {:induction false} ByIdIsFirst(ks: seq<Key>, id: string)
    requires UniqueIds(ks)
    ensures id in ById(ks) <==> FirstOf(ks, id).Some?
    ensures id in ById(ks) ==> FirstOf(ks, id) == Some(ById(ks)[id])
  {
    if id in ById(ks) {
      ByIdMember(ks, id);
      FirstOfUnique(ks, ById(ks)[id]);
    }
  }

  lemma {:induction false} ByIdMember(ks: seq<Key>, id: string)
    requires id in ById(ks)
    ensures ById(ks)[id] in ks
  {
    var n := |ks| - 1;
    assert ks == ks[..n] + [ks[n]];
    if ks[n].id != id { ByIdMember(ks[..n], id); }
  }

  /** Without repeated ids no revocation is hidden. */
  lemma UniqueIdsHideNothing(cur: Dir, res: Dir, id: string)
    requires UniqueIds(Keys(PolicyOf(cur))) && UniqueIds(Keys(PolicyOf(res)))
    ensures !HiddenRevocation(cur, res, id)
  {
    ByIdIsFirst(Keys(PolicyOf(cur)), id);
    ByIdIsFirst(Keys(PolicyOf(res)), id);
  }

  /**
   A target that lists a key as revoked and then as active treats it as revoked; merged, it is active
   with the other file.
   */
  lemma RepeatedIdRevives()
    ensures
      var listed := [Key("k", "revoked", "a"), Key("k", "active", "b")];
      var cur := Dir(Readable(Policy("trusted", Some(listed), None)), map[]);
      var res := Dir(Missing, map[]);
      && RevokedIn(cur, "k")
      && forall out :: MergedDir(cur, res, out) ==> FirstOf(Keys(PolicyOf(out)), "k") == Some(Key("k", "active", "b"))
  {
    var first, last := Key("k", "revoked", "a"), Key("k", "active", "b");
    var listed := [first, last];
    var cur := Dir(Readable(Policy("trusted", Some(listed), None)), map[]);
    var res := Dir(Missing, map[]);
    assert Named([]) == [] && listed[1..] == [last] && [last][1..] == [];
    assert Named([last]) == [last] && Keys(PolicyOf(cur)) == listed;
    assert listed[..1] == [first] && ById(listed)["k"] == last;
    forall out | MergedDir(cur, res, out) ensures FirstOf(Keys(PolicyOf(out)), "k") == Some(last) {
      MergedRecord(cur, res, out, "k");
    }
  }

  function RegularAt(files: map<string, Node>, name: string): Option<Bytes> {
    if name in files && files[name].Regular? then Some(files[name].bytes) else None
  }

  /** The key bytes signature checking finds for an id. */
  function KeyBytes(d: Dir, id: string): Option<Bytes> {
    var k := FirstOf(Keys(PolicyOf(d)), id);
    if k.None? then None else RegularAt(d.files, k.value.file)
  }

  /** The side a merged id comes from: the target when it knows the id. */
  function Side(cur: Dir, res: Dir, id: string): Dir {
    if id in ById(Keys(PolicyOf(cur))) then cur else res
  }

  /**
   The file named by the side's last record of the id holds `b` on that side; for an id of the target,
   on the restored side where the target lacks the file.
   */
  predicate LastFileHolds(cur: Dir, res: Dir, id: string, b: Bytes) {
    var current, restored := ById(Keys(PolicyOf(cur))), ById(Keys(PolicyOf(res)));
    if id in current then
      RegularAt(if current[id].file in cur.files then cur.files else res.files, current[id].file) == Some(b)
    else id in restored && RegularAt(res.files, restored[id].file) == Some(b)
  }

  /**
   Each retained id keeps the key bytes that checking found on the side it came from, exactly when the
   side's last record of it leads to those bytes too; without repeated ids that is always so, even where
   the two sides use one file name for different keys.
   */
  lemma KeysKeepTheirBytes(cur: Dir, res: Dir, out: Dir, id: string, b: Bytes)
    requires MergedDir(cur, res, out) && !cur.json.Missing? && Retained(cur, res, id)
    requires KeyBytes(Side(cur, res, id), id) == Some(b)
    ensures KeyBytes(out, id) == Some(b) <==> LastFileHolds(cur, res, id, b)
    ensures UniqueIds(Keys(PolicyOf(Side(cur, res, id)))) ==> KeyBytes(out, id) == Some(b)
  {
    MergedFile(cur, res, out, id);
    if UniqueIds(Keys(PolicyOf(Side(cur, res, id)))) { UniqueSideHolds(cur, res, id, b); }
  }

  lemma MergedFile(cur: Dir, res: Dir, out: Dir, id: string)
    requires MergedDir(cur, res, out) && !cur.json.Missing? && Retained(cur, res, id)
    ensures id in ById(Keys(PolicyOf(Side(cur, res, id))))
    ensures KeyBytes(out, id) == RegularAt(out.files, ById(Keys(PolicyOf(Side(cur, res, id))))[id].file)
  {
    MergedRecord(cur, res, out, id);
  }

  lemma UniqueSideHolds(cur: Dir, res: Dir, id: string, b: Bytes)
    requires Retained(cur, res, id) && KeyBytes(Side(cur, res, id), id) == Some(b)
    requires UniqueIds(Keys(PolicyOf(Side(cur, res, id))))
    ensures LastFileHolds(cur, res, id, b)
  {
    ByIdIsFirst(Keys(PolicyOf(Side(cur, res, id))), id);
  }

  /**
   Where the target has the directory but no publisher.json, no key is dropped: a restored id then keeps
   its bytes exactly when the target holds no other bytes under its file name.
   */
  lemma WithoutTargetPolicy(cur: Dir, res: Dir, out: Dir, id: string, b: Bytes)
    requires MergedDir(cur, res, out) && cur.json.Missing? && KeyBytes(res, id) == Some(b)
    ensures
      var file := FirstOf(Keys(PolicyOf(res)), id).value.file;
      KeyBytes(out, id) == Some(b) <==> file !in cur.files || RegularAt(cur.files, file) == Some(b)
  {
  }

  /** A restored key that ends on the bytes of another file the target left in the directory. */
  lemma LeftoverFileReplacesKey()
    ensures
      var cur := Dir(Missing, map["a" := Regular("old")]);
      var res := Dir(Readable(Policy("trusted", Some([Key("k", "active", "a")]), None)), map["a" := Regular("new")]);
      && KeyBytes(res, "k") == Some("new")
      && !Refuses(cur, res)
      && forall out :: MergedDir(cur, res, out) ==> KeyBytes(out, "k") == Some("old")
  {
    var k := Key("k", "active", "a");
    assert [k][1..] == [] && Named([]) == [] && Named([k]) == [k];
  }

  /**
   A restored-only id arrives when its file does not clash, as the restored side last records it; so
   does every id of the target.
   */
  lemma KeysArrive(cur: Dir, res: Dir, out: Dir, id: string)
    requires MergedDir(cur, res, out) && !cur.json.Missing?
    ensures HasId(Keys(PolicyOf(cur)), id) ==> HasId(Keys(PolicyOf(out)), id)
    ensures !HasId(Keys(PolicyOf(cur)), id) && HasId(Keys(PolicyOf(res)), id) ==>
      var k := ById(Keys(PolicyOf(res)))[id];
      (HasId(Keys(PolicyOf(out)), id) <==>
         || k.file !in cur.files
         || (k.file in res.files && res.files[k.file].Regular? && res.files[k.file] == cur.files[k.file]))
  {
    MergedRecord(cur, res, out, id);
  }

  /**
   When two directories cannot be merged: the target has a policy, and one is unreadable or a key new
   to the target names no plain file.
   */
  lemma RefusesMeans(cur: Dir, res: Dir)
    ensures Refuses(cur, res) <==>
      && cur.json != Missing
      && (|| cur.json == Unreadable || res.json == Unreadable
          || exists id <- ById(Keys(PolicyOf(res))) ::
               var name := ById(Keys(PolicyOf(res)))[id].file;
               && !HasId(Keys(PolicyOf(cur)), id)
               && (name == "" || name == "." || name == ".." || '/' in name || '\\' in name))
  {
  }

  predicate IsPublisher(s: Store, name: string) {
    name in s && s[name].Publisher?
  }

  /**
   On a replacement server: restored names the target lacks stay, target names the backup lacks arrive,
   and what are not two publishers is the target's.
   */
  lemma ReplacementStore(target: Store, restored: Store, merged: Store, name: string)
    requires MergedEntry(true, At(Unlinked(target), name), At(restored, name), At(merged, name))
    ensures (name !in target || target[name].Link?) && name in restored ==>
      name in merged && merged[name] == restored[name]
    ensures (name !in target || target[name].Link?) && name !in restored ==> name !in merged
    ensures name in target && (target[name].Plain? || (target[name].Publisher? && !IsPublisher(restored, name))) ==>
      name in merged && merged[name] == target[name]
    ensures name in target && name in restored && target[name].Publisher? && restored[name].Publisher? ==>
      && name in merged && merged[name].Publisher?
      && forall f <- target[name].dir.files ::
           f in merged[name].dir.files && merged[name].dir.files[f] == target[name].dir.files[f]
  {
  }

  /**
   A known id keeps the target's record but for a revocation on the restored side; a new one is the
   restored record.
   */
  lemma RecordsMerge(cur: Dir, res: Dir, out: Dir, id: string)
    requires MergedDir(cur, res, out) && !cur.json.Missing? && HasId(Keys(PolicyOf(out)), id)
    ensures
      var current, restored := ById(Keys(PolicyOf(cur))), ById(Keys(PolicyOf(res)));
      var k := FirstOf(Keys(PolicyOf(out)), id).value;
      && (id in current ==> k.id == id && k.file == current[id].file)
      && (id in current && !(id in restored && Revoked(restored[id].status)) ==> k.status == current[id].status)
      && (id in current && id in restored && Revoked(restored[id].status) ==> k.status == "revoked")
      && (id !in current ==> id in restored && k == restored[id])
  {
    MergedRecord(cur, res, out, id);
  }
}
