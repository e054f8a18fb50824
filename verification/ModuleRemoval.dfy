/**
 The uninstall worker's own reading of the hand-back rule. It reads manifests without the checks of
 `ManifestNode`, so the two implementations are compared over one set of extension folders.
 */
module ModuleRemoval {
  import opened Common
  import opened Manifests
  import opened ModuleFlags

  datatype LooseManifest = LooseManifest(category: Category, target: Option<Id>)

  /** A field as text, whatever its type; an absent one is empty. */
  function TextOf(f: Field<string>): string {
    match f
    case Absent => ""
    case Malformed(text) => text
    case Given(value) => value
  }

  /** The manifest of an extension folder, with nothing checked but that its id reads as the folder's name. */
  function InstalledManifest(folders: map<Id, RawManifest>, id: Id): Option<LooseManifest> {
    if !PluginId(id) || id !in folders || TextOf(folders[id].id) != id then None
    else
      var raw := folders[id];
      Some(LooseManifest(if raw.category.Given? then raw.category.value else Unstated,
                         if TextOf(raw.target) != "" then Some(TextOf(raw.target)) else None))
  }

  predicate Rival(folders: map<Id, RawManifest>, ms: Modules, p: Id, t: Id, o: Id) {
    && o != p && o != t && PluginId(o) && Enabled(ms, o)
    && InstalledManifest(folders, o).Some? && InstalledManifest(folders, o).value.target == Some(t)
  }

  predicate TargetAllowed(folders: map<Id, RawManifest>, ms: Modules, p: Id, removed: LooseManifest, t: Id) {
    && InstalledManifest(folders, t).Some?
    && t != p && Replaceable(InstalledManifest(folders, t).value.category)
    && removed.target == Some(t)
    && !Enabled(ms, t)
    && forall o <- folders :: !Rival(folders, ms, p, t, o)
  }

  ghost predicate RemoveHandBackAllowed(folders: map<Id, RawManifest>, ms: Modules, p: Id, wanted: seq<Id>) {
    wanted == []
    || (&& (forall t <- wanted :: PluginId(t))
        && InstalledManifest(folders, p).Some? && Enabled(ms, p)
        && forall t <- wanted :: TargetAllowed(folders, ms, p, InstalledManifest(folders, p).value, t))
  }

  /** The replaced modules an uninstall of `p` may switch back on, or None when a rule does not hold. */
  method PlanRemoveHandBack(folders: map<Id, RawManifest>, ms: Modules, p: Id, enable: seq<Id>)
    returns (r: Option<seq<Id>>)
    ensures r.Some? <==> RemoveHandBackAllowed(folders, ms, p, enable)
    ensures r.Some? ==> r.value == Sorted(Elems(enable))
  {
    var wanted := Sorted(Elems(enable));
    SameElems(wanted, enable);
    assert enable != [] ==> enable[0] in wanted;
    if wanted == [] {
      return Some([]);
    }
    for i := 0 to |wanted|
      invariant forall k :: 0 <= k < i ==> PluginId(wanted[k])
    {
      if !PluginId(wanted[i]) { return None; }
    }
    var removed := InstalledManifest(folders, p);
    if removed.None? || !Enabled(ms, p) { return None; }
    for i := 0 to |wanted|
      invariant forall k :: 0 <= k < i ==> TargetAllowed(folders, ms, p, removed.value, wanted[k])
    {
      var t := wanted[i];
      var target := InstalledManifest(folders, t);
      if target.None? || t == p || !Replaceable(target.value.category) { return None; }
      if removed.value.target != Some(t) || Enabled(ms, t) { return None; }
      var left := folders.Keys;
      while left != {}
        invariant left <= folders.Keys
        invariant forall o <- folders :: o !in left ==> !Rival(folders, ms, p, t, o)
        decreases left
      {
        var o :| o in left;
        if Rival(folders, ms, p, t, o) { return None; }
        left := left - {o};
      }
    }
    return Some(wanted);
  }

  /** Read without checks: `p` names `t` as the module it replaces, and `t` is a core or server module. */
  ghost predicate LoosePair(folders: map<Id, RawManifest>, p: Id, t: Id) {
    && p != t
    && InstalledManifest(folders, p).Some? && InstalledManifest(folders, p).value.target == Some(t)
    && InstalledManifest(folders, t).Some? && Replaceable(InstalledManifest(folders, t).value.category)
  }

  /** Whenever a folder reads as the replacement of a core or server module, both manifests pass the checks. */
  ghost predicate PairsValid(folders: map<Id, RawManifest>) {
    forall p: Id, t: Id :: LoosePair(folders, p, t) ==> p in ReadInstalled(folders) && t in ReadInstalled(folders)
  }

  /** A manifest that passes the checks reads the same without them. */
  lemma ValidReadsTheSame(folders: map<Id, RawManifest>, id: Id)
    requires id in ReadInstalled(folders)
    ensures InstalledManifest(folders, id) ==
      Some(LooseManifest(ReadInstalled(folders)[id].category, ReadInstalled(folders)[id].target))
    ensures PluginId(id) && id in folders
  {
  }

  /** What the uninstall worker asks of one target, the removed module included. */
  ghost predicate LooseAllowed(folders: map<Id, RawManifest>, ms: Modules, p: Id, t: Id) {
    && InstalledManifest(folders, p).Some? && Enabled(ms, p)
    && TargetAllowed(folders, ms, p, InstalledManifest(folders, p).value, t)
  }

  lemma RivalIsStrict(folders: map<Id, RawManifest>, ms: Modules, p: Id, t: Id, o: Id)
    requires PairsValid(folders) && t in ReadInstalled(folders) && Replaceable(ReadInstalled(folders)[t].category)
    requires Rival(folders, ms, p, t, o)
    ensures var m := ModelOf(ReadInstalled(folders), ms);
      o in m && m[o].enabled && m[o].manifest.target == Some(t) && o != p
  {
    ValidReadsTheSame(folders, t);
    assert LoosePair(folders, o, t);
    ValidReadsTheSame(folders, o);
  }

  lemma StrictMeansLoose(folders: map<Id, RawManifest>, ms: Modules, p: Id, t: Id)
    requires PairsValid(folders) && HandBackAllowed(ModelOf(ReadInstalled(folders), ms), [p], t)
    ensures LooseAllowed(folders, ms, p, t) && PluginId(t)
  {
    var m := ModelOf(ReadInstalled(folders), ms);
    var r :| r in [p] && Replaces(m, r, t) && m[r].enabled;
    ValidReadsTheSame(folders, p);
    ValidReadsTheSame(folders, t);
    forall o | o in folders ensures !Rival(folders, ms, p, t, o) {
      if Rival(folders, ms, p, t, o) { RivalIsStrict(folders, ms, p, t, o); }
    }
  }

  lemma LooseMeansStrict(folders: map<Id, RawManifest>, ms: Modules, p: Id, t: Id)
    requires PairsValid(folders) && LooseAllowed(folders, ms, p, t)
    ensures HandBackAllowed(ModelOf(ReadInstalled(folders), ms), [p], t)
  {
    var m := ModelOf(ReadInstalled(folders), ms);
    assert LoosePair(folders, p, t);
    ValidReadsTheSame(folders, p);
    ValidReadsTheSame(folders, t);
    assert p in [p] && Replaces(m, p, t);
    forall o | o in m && m[o].enabled && m[o].manifest.target == Some(t) ensures o in [p] {
      ValidReadsTheSame(folders, o);
      assert !Rival(folders, ms, p, t, o);
    }
  }

  ghost predicate TwinsAgreeOn(folders: map<Id, RawManifest>, ms: Modules, p: Id, wanted: seq<Id>) {
    RemoveHandBackAllowed(folders, ms, p, wanted) <==> DisableAllowed(ModelOf(ReadInstalled(folders), ms), [p], wanted)
  }

  lemma PairsValidAgree(folders: map<Id, RawManifest>, ms: Modules, p: Id, wanted: seq<Id>)
    requires PairsValid(folders)
    ensures TwinsAgreeOn(folders, ms, p, wanted)
  {
    forall t | t in wanted
      ensures HandBackAllowed(ModelOf(ReadInstalled(folders), ms), [p], t) <==>
        PluginId(t) && LooseAllowed(folders, ms, p, t)
    {
      if HandBackAllowed(ModelOf(ReadInstalled(folders), ms), [p], t) { StrictMeansLoose(folders, ms, p, t); }
      if LooseAllowed(folders, ms, p, t) { LooseMeansStrict(folders, ms, p, t); }
    }
    if wanted != [] { assert wanted[0] in wanted; }
  }

  /** Only `p` is on. */
  function OnlyOn(folders: map<Id, RawManifest>, p: Id): Modules {
    map id | id in folders :: Record(Some(id == p), map[])
  }

  lemma InvalidPairParts(folders: map<Id, RawManifest>, p: Id, t: Id)
    requires LoosePair(folders, p, t) && (p !in ReadInstalled(folders) || t !in ReadInstalled(folders))
    ensures !TwinsAgreeOn(folders, OnlyOn(folders, p), p, [t])
  {
    var ms := OnlyOn(folders, p);
    var m := ModelOf(ReadInstalled(folders), ms);
    assert TargetAllowed(folders, ms, p, InstalledManifest(folders, p).value, t);
    assert !HandBackAllowed(m, [p], t) by {
      assert forall r <- [p] :: r == p;
    }
    assert t in [t];
  }

  /**
   The two implementations of the hand-back rule accept the same requests, for every state, removed
   module and list, if and only if every folder that reads as the replacement of a core or server module
   holds a manifest that passes the checks, and so does its target.
   */
  lemma HandBackTwinsAgree(folders: map<Id, RawManifest>)
    ensures (forall ms: Modules, p: Id, wanted: seq<Id> :: TwinsAgreeOn(folders, ms, p, wanted)) <==>
      PairsValid(folders)
  {
    if PairsValid(folders) {
      forall ms: Modules, p: Id, wanted: seq<Id> ensures TwinsAgreeOn(folders, ms, p, wanted) {
        PairsValidAgree(folders, ms, p, wanted);
      }
    } else {
      var p: Id, t: Id :| LoosePair(folders, p, t) && !(p in ReadInstalled(folders) && t in ReadInstalled(folders));
      InvalidPairParts(folders, p, t);
    }
  }

  /** They part on a core module that names a target: one worker reads its manifest, the other refuses it. */
  lemma HandBackTwinsDiffer()
    ensures
      var folders := map[
        "t" := RawManifest(Given("t"), Given(Core), Absent, Absent),
        "r" := RawManifest(Given("r"), Given(Core), Given("t"), Absent)];
      var ms := map["t" := Record(Some(false), map[])];
      && RemoveHandBackAllowed(folders, ms, "r", ["t"])
      && !DisableAllowed(ModelOf(ReadInstalled(folders), ms), ["r"], ["t"])
  {
    var folders := map[
      "t" := RawManifest(Given("t"), Given(Core), Absent, Absent),
      "r" := RawManifest(Given("r"), Given(Core), Given("t"), Absent)];
    var ms := map["t" := Record(Some(false), map[])];
    var m := ModelOf(ReadInstalled(folders), ms);
    assert ManifestNode(folders["r"]).None?;
    assert "t" in ["t"] && !HandBackAllowed(m, ["r"], "t");
    assert InstalledManifest(folders, "r") == Some(LooseManifest(Core, Some("t")));
    assert InstalledManifest(folders, "t") == Some(LooseManifest(Core, None));
  }

  /** They also part on a premium module whose target is the number 5, beside a core module in the folder "5". */
  lemma NumberReadAsText()
    ensures
      var folders := map[
        "5" := RawManifest(Given("5"), Given(Core), Absent, Absent),
        "r" := RawManifest(Given("r"), Given(Premium), Malformed("5"), Absent)];
      !TwinsAgreeOn(folders, OnlyOn(folders, "r"), "r", ["5"])
  {
    var folders := map[
      "5" := RawManifest(Given("5"), Given(Core), Absent, Absent),
      "r" := RawManifest(Given("r"), Given(Premium), Malformed("5"), Absent)];
    assert "r" !in ReadInstalled(folders);
    InvalidPairParts(folders, "r", "5");
  }
}
