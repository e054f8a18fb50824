/**
 Module manifests as the root worker reads them, and the replacement rules over the installed set.
 A module may replace one core or server module; the rules decide when that is honoured.
 */
module Manifests {
  import opened Common

  type Id = string

  datatype Category = Unstated | Core | Server | Premium | Test

  predicate Replaceable(c: Category) { c.Core? || c.Server? }

  datatype Version = Version(major: nat, minor: nat, patch: nat)

  /** A module id: one or more letters, digits, underscores or hyphens. */
  predicate PluginId(s: string) {
    s != "" && forall c <- s :: 'a' <= c <= 'z' || 'A' <= c <= 'Z' || '0' <= c <= '9' || c == '_' || c == '-'
  }

  /** An id is made of letters, digits, underscores and hyphens, at least one; so no path separator or dot is in it. */
  lemma PluginIdMeans(s: string, c: char)
    ensures PluginId([c]) <==> ('a' <= c <= 'z') || ('A' <= c <= 'Z') || ('0' <= c <= '9') || c == '_' || c == '-'
    ensures !PluginId("") && (PluginId(s + [c]) <==> (s == "" || PluginId(s)) && PluginId([c]))
    ensures PluginId(s) ==> '/' !in s && '.' !in s && ' ' !in s
  {
    assert c in [c] && forall x <- [c] :: x == c;
    assert c in s + [c] && forall x <- s :: x in s + [c];
  }

  /**
   A manifest field as parsed: absent, present but of the wrong type or shape, or given. `text` is what a
   reader gets that turns any value into text, such as "5" for the number 5.
   */
  datatype Field<+T> = Absent | Malformed(text: string) | Given(value: T)

  /** A trusted `tec_tac.json`. A capability maps to None when its version text is not x.y.z. */
  datatype RawManifest = RawManifest(
    id: Field<Id>,
    category: Field<Category>,
    target: Field<Id>,
    capabilities: Field<map<string, Option<Version>>>)

  datatype Manifest = Manifest(
    id: Id,
    category: Category,
    target: Option<Id>,
    capabilities: Option<map<string, Version>>)

  /** A replacement is neither a core, server nor test module and never replaces itself. */
  predicate Layered(m: Manifest) {
    m.target.Some? ==> m.target.value != m.id && (m.category.Unstated? || m.category.Premium?)
  }

  predicate OwnCapabilities(m: Manifest) {
    Replaceable(m.category) && m.capabilities.Some? ==>
      forall c <- m.capabilities.value :: m.id + "." <= c
  }

  /** The facts the rules need from one manifest, or None when the manifest breaks the rules. */
  function ManifestNode(raw: RawManifest): (r: Option<Manifest>)
    ensures r.Some? ==> Layered(r.value) && OwnCapabilities(r.value) && PluginId(r.value.id)
  {
    if !raw.id.Given? || !PluginId(raw.id.value)
       || raw.category.Malformed? || raw.target.Malformed? || raw.capabilities.Malformed? then None
    else
      var id := raw.id.value;
      var category := if raw.category.Given? then raw.category.value else Unstated;
      if raw.target.Given? && (!PluginId(raw.target.value) || raw.target.value == id
         || Replaceable(category) || category.Test?) then None
      else
        var target := if raw.target.Given? then Some(raw.target.value) else None;
        if raw.capabilities.Absent? then Some(Manifest(id, category, target, None))
        else
          var caps := raw.capabilities.value;
          if |caps| > 200
             || (exists c <- caps :: caps[c].None?)
             || (Replaceable(category) && exists c <- caps :: !(id + "." <= c)) then None
          else Some(Manifest(id, category, target, Some(map c | c in caps :: caps[c].value)))
  }

  /** `m` holds the values the fields of `raw` give, with the absent ones at their defaults. */
  ghost predicate Reads(raw: RawManifest, m: Manifest) {
    && raw.id == Given(m.id)
    && (raw.category == Given(m.category) || (raw.category.Absent? && m.category.Unstated?))
    && raw.target == (if m.target.Some? then Given(m.target.value) else Absent)
    && match m.capabilities
       case None => raw.capabilities.Absent?
       case Some(caps) =>
         && raw.capabilities.Given? && raw.capabilities.value.Keys == caps.Keys
         && forall c <- caps :: raw.capabilities.value[c] == Some(caps[c])
  }

  predicate WellFormed(m: Manifest) {
    && PluginId(m.id) && Layered(m) && OwnCapabilities(m)
    && (m.target.Some? ==> PluginId(m.target.value))
    && (m.capabilities.Some? ==> |m.capabilities.value| <= 200)
  }

  lemma CapsKeys(caps: map<string, Option<Version>>)
    requires forall c <- caps :: caps[c].Some?
    ensures (map c | c in caps :: caps[c].value).Keys == caps.Keys
    ensures |map c | c in caps :: caps[c].value| == |caps|
  {
    var m := map c | c in caps :: caps[c].value;
    assert m.Keys == caps.Keys;
    assert |m| == |m.Keys| && |caps| == |caps.Keys|;
  }

  /** The worker accepts a manifest exactly when its fields read as a well-formed one, and then reads just that. */
  lemma NodeIsTheReading(raw: RawManifest, m: Manifest)
    ensures ManifestNode(raw) == Some(m) <==> Reads(raw, m) && WellFormed(m)
  {
    if raw.capabilities.Given? {
      var caps := raw.capabilities.value;
      assert |caps| == |caps.Keys|;
      if forall c <- caps :: caps[c].Some? {
        CapsKeys(caps);
        var read := map c | c in caps :: caps[c].value;
        assert m.capabilities.Some? && Reads(raw, m) ==> m.capabilities.value == read;
      }
    }
  }

  /** Every installed manifest sits in the folder named after its id and passed `ManifestNode`. */
  predicate ValidManifests(ms: map<Id, Manifest>) {
    forall id <- ms :: ms[id].id == id && Layered(ms[id])
  }

  /** The extension folders whose manifest is trusted, valid and named after its folder. */
  function ReadInstalled(folders: map<Id, RawManifest>): (ms: map<Id, Manifest>)
    ensures ValidManifests(ms)
  {
    map f | f in folders && ManifestNode(folders[f]).Some? && ManifestNode(folders[f]).value.id == f
      :: ManifestNode(folders[f]).value
  }

  /** A manifest together with the enabled flag of the module state. */
  datatype Node = Node(manifest: Manifest, enabled: bool)
  type Model = map<Id, Node>

  predicate ValidModel(m: Model) {
    forall id <- m :: m[id].manifest.id == id && Layered(m[id].manifest)
  }

  predicate Replaces(m: Model, r: Id, t: Id) {
    r in m && m[r].manifest.target == Some(t)
  }

  predicate On(m: Model, id: Id) {
    id in m && m[id].enabled
  }

  predicate ReplaceableIn(m: Model, id: Id) {
    id in m && Replaceable(m[id].manifest.category)
  }

  datatype Reason =
    | TargetMissing | ReplacementDisabled | ReplacementCategory | TargetNotCore | TargetEnabled
    | CompetingReplacement | CapabilitiesUndeclared
    | CapabilityMissing | CapabilityMajorMismatch | CapabilityVersionLower

  /** A premium module may replace; on a development server so may one without a category. */
  predicate ReplacementCategoryOk(c: Category, dev: bool) {
    c.Premium? || (c.Unstated? && dev)
  }

  predicate VersionLower(have: Version, want: Version) {
    have.minor < want.minor || (have.minor == want.minor && have.patch < want.patch)
  }

  function CapabilityCode(declared: map<string, Version>, offered: map<string, Version>, c: string): Option<Reason>
    requires c in declared
  {
    if c !in offered then Some(CapabilityMissing)
    else if offered[c].major != declared[c].major then Some(CapabilityMajorMismatch)
    else if VersionLower(offered[c], declared[c]) then Some(CapabilityVersionLower)
    else None
  }

  /** `order[i]` is the first capability that is not offered well enough, and `r` is its code. */
  predicate FirstFailing(
    declared: map<string, Version>, offered: map<string, Version>, order: seq<string>, r: Option<Reason>,
    i: int
  )
    requires forall c <- order :: c in declared
  {
    && 0 <= i < |order|
    && r.Some?
    && CapabilityCode(declared, offered, order[i]) == r
    && forall j :: 0 <= j < i ==> CapabilityCode(declared, offered, order[j]).None?
  }

  function FirstCode(
    declared: map<string, Version>, offered: map<string, Version>, order: seq<string>
  ): (r: Option<Reason>)
    requires forall c <- order :: c in declared
    ensures r.None? <==> forall c <- order :: CapabilityCode(declared, offered, c).None?
    ensures r.Some? ==> exists i :: FirstFailing(declared, offered, order, r, i)
  {
    if order == [] then None
    else
      var code := CapabilityCode(declared, offered, order[0]);
      if code.Some? then
        assert FirstFailing(declared, offered, order, code, 0);
        code
      else
        var rest := FirstCode(declared, offered, order[1..]);
        assert rest.Some? ==> exists i :: FirstFailing(declared, offered, order, rest, i) by {
          if rest.Some? {
            var i :| FirstFailing(declared, offered, order[1..], rest, i);
            assert forall j :: 1 <= j < |order| ==> order[j] == order[1..][j - 1];
            assert FirstFailing(declared, offered, order, rest, i + 1);
          }
        }
        rest
  }

  predicate Competing(m: Model, r: Id, t: Id) {
    exists o <- m :: o != r && m[o].enabled && m[o].manifest.target == Some(t)
  }

  /** None when the replacement would be honoured, else the reason code. */
  function ReplacementCheck(m: Model, dev: bool, r: Id, assumeEnabled: bool): (reason: Option<Reason>)
  {
    if r !in m || m[r].manifest.target.None? then Some(TargetMissing)
    else if !m[r].enabled && !assumeEnabled then Some(ReplacementDisabled)
    else if !ReplacementCategoryOk(m[r].manifest.category, dev) then Some(ReplacementCategory)
    else
      var t := m[r].manifest.target.value;
      if t !in m then Some(TargetMissing)
      else if !Replaceable(m[t].manifest.category) then Some(TargetNotCore)
      else if m[t].enabled then Some(TargetEnabled)
      else if Competing(m, r, t) then Some(CompetingReplacement)
      else if m[t].manifest.capabilities.None? then Some(CapabilitiesUndeclared)
      else
        var declared := m[t].manifest.capabilities.value;
        FirstCode(declared, m[r].manifest.capabilities.GetOr(map[]), Sorted(declared.Keys))
  }

  /** The module that switching `r` on would switch off first: its enabled core or server target. */
  function Displaced(m: Model, r: Id): set<Id>
    requires r in m
  {
    match m[r].manifest.target
    case None => {}
    case Some(t) => if ReplaceableIn(m, t) && m[t].enabled then {t} else {}
  }

  function WithOff(m: Model, off: set<Id>): Model {
    map id | id in m :: if id in off then m[id].(enabled := false) else m[id]
  }

  /** The enabled replacements that stand beside their enabled core or server target. */
  function Conflicted(m: Model): set<Id> {
    set r | r in m && m[r].enabled && m[r].manifest.target.Some?
         && On(m, m[r].manifest.target.value) && ReplaceableIn(m, m[r].manifest.target.value)
  }

  /** The offer covers the declaration: the same major, and no lower minor or patch. */
  ghost predicate Covers(offered: map<string, Version>, declared: map<string, Version>, c: string)
    requires c in declared
  {
    && c in offered
    && offered[c].major == declared[c].major
    && (|| declared[c].minor < offered[c].minor
        || (declared[c].minor == offered[c].minor && declared[c].patch <= offered[c].patch))
  }

  /** What an honoured replacement is: allowed, alone, its target off and the target's capability contract covered. */
  ghost predicate Honoured(m: Model, dev: bool, r: Id, assumeEnabled: bool) {
    && r in m && m[r].manifest.target.Some? && (m[r].enabled || assumeEnabled)
    && (m[r].manifest.category == Premium || (m[r].manifest.category == Unstated && dev))
    && var t := m[r].manifest.target.value;
       && t in m && !m[t].enabled && (m[t].manifest.category == Core || m[t].manifest.category == Server)
       && (forall o <- m :: m[o].enabled && m[o].manifest.target == Some(t) ==> o == r)
       && m[t].manifest.capabilities.Some?
       && forall c <- m[t].manifest.capabilities.value ::
            Covers(m[r].manifest.capabilities.GetOr(map[]), m[t].manifest.capabilities.value, c)
  }

  /** The rule check finds no reason to refuse exactly the replacements that keep their target's contract. */
  lemma HonouredMeansCovered(m: Model, dev: bool, r: Id, assumeEnabled: bool)
    ensures ReplacementCheck(m, dev, r, assumeEnabled).None? <==> Honoured(m, dev, r, assumeEnabled)
  {
    var t := if r in m then m[r].manifest.target.GetOr("") else "";
    if r in m && t in m && m[t].manifest.capabilities.Some? {
      AllCovered(m[t].manifest.capabilities.value, m[r].manifest.capabilities.GetOr(map[]));
    }
  }

  lemma AllCovered(declared: map<string, Version>, offered: map<string, Version>)
    ensures FirstCode(declared, offered, Sorted(declared.Keys)).None? <==>
      forall c <- declared :: Covers(offered, declared, c)
  {
    assert forall c <- declared :: c in Sorted(declared.Keys);
    assert forall c <- Sorted(declared.Keys) :: c in declared;
    forall c | c in declared ensures CapabilityCode(declared, offered, c).None? <==> Covers(offered, declared, c) {
      CapabilityCodeMeans(declared, offered, c);
    }
  }

  /** What each reason code says about the replacement it refuses; the earlier rules hold for the later codes. */
  lemma ReasonMeans(m: Model, dev: bool, r: Id, assumeEnabled: bool)
    ensures var reason := ReplacementCheck(m, dev, r, assumeEnabled);
      reason.Some? ==>
        var target := if r in m then m[r].manifest.target else None;
        match reason.value
        case TargetMissing => target.None? || target.value !in m
        case ReplacementDisabled => target.Some? && !m[r].enabled && !assumeEnabled
        case ReplacementCategory =>
          target.Some? && !m[r].manifest.category.Premium? && (dev ==> !m[r].manifest.category.Unstated?)
        case TargetNotCore =>
          && target.Some? && target.value in m
          && !m[target.value].manifest.category.Core? && !m[target.value].manifest.category.Server?
        case TargetEnabled => target.Some? && target.value in m && m[target.value].enabled
        case CompetingReplacement =>
          target.Some? && exists o <- m :: o != r && m[o].enabled && m[o].manifest.target == target
        case CapabilitiesUndeclared => target.Some? && target.value in m && m[target.value].manifest.capabilities.None?
        case _ => target.Some? && target.value in m && m[target.value].manifest.capabilities.Some?
  {
  }

  /** What each capability code says, and that a covered capability has none. */
  lemma CapabilityCodeMeans(declared: map<string, Version>, offered: map<string, Version>, c: string)
    requires c in declared
    ensures var code := CapabilityCode(declared, offered, c);
      && (code == Some(CapabilityMissing) <==> c !in offered)
      && (code == Some(CapabilityMajorMismatch) <==> c in offered && offered[c].major != declared[c].major)
      && (code == Some(CapabilityVersionLower) <==>
            && c in offered && offered[c].major == declared[c].major
            && (|| offered[c].minor < declared[c].minor
                || (offered[c].minor == declared[c].minor && offered[c].patch < declared[c].patch)))
      && (code.None? <==> Covers(offered, declared, c))
  {
  }
}
