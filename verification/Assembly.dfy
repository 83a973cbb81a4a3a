/** The merge of four native builds into one artifact inventory (assemble_kernel_rc.py) and the
    coverage the plan loader and the local verifier ask of it (publication.py).

    A build arrives with the outcome of the checks that look at file contents in `verified`; evidence
    paths arrive split into their directory, `package` or `logs`, and file name. */
module Assembly {
  import CommandLogs
  import opened Platforms
  import opened PythonText
  import opened Wrappers

  datatype Implementation = Bun | Rust | Shared | Other(name: string)

  datatype Kind = StandaloneArchive | NpmMeta | NpmPlatform | Unknown

  /** An artifact of a package manifest; the shared npm root has no platform. */
  datatype Artifact = Artifact(path: string, sha256: string, byteLength: int, kind: Kind, platform: Option<string>, implementation: Implementation)

  datatype Evidence = Evidence(inPackage: bool, name: string, sha256: string, byteLength: int)

  /** The report's evidence is a dictionary: no path occurs twice. */
  predicate KeysDiffer(evidence: seq<Evidence>) {
    forall i, j :: 0 <= i < j < |evidence| ==>
      evidence[i].inPackage != evidence[j].inPackage || evidence[i].name != evidence[j].name
  }

  type EvidenceTable = evidence: seq<Evidence> | KeysDiffer(evidence)

  datatype Build = Build(platform: string, version: string, source: string, artifacts: seq<Artifact>,
                         evidence: EvidenceTable, reportSha256: string, reportSize: int, verified: bool)

  datatype RecordKind = Standalone | Npm | EvidenceFile

  datatype Record = Record(name: string, sha256: string, size: int, kind: RecordKind, platform: string, implementation: Implementation)

  predicate IsNameChar(c: char) {
    'A' <= c <= 'Z' || 'a' <= c <= 'z' || '0' <= c <= '9'
  }

  /** `safe_name`. */
  predicate SafeName(name: string) {
    1 <= |name| <= 181 && IsNameChar(name[0]) && SafeTail(name)
  }

  /** Letters, digits, dots, underscores and dashes, but no two dots in a row. */
  predicate SafeTail(s: string) {
    s == [] ||
    ((IsNameChar(s[0]) || s[0] == '_' || s[0] == '-' || (s[0] == '.' && (|s| == 1 || s[1] != '.'))) && SafeTail(s[1..]))
  }

  function RecordOf(a: Artifact): Record {
    Record(a.path, a.sha256, a.byteLength, if a.kind.StandaloneArchive? then Standalone else Npm,
           if a.platform.Some? && a.platform.value != "" then a.platform.value else "all", a.implementation)
  }

  function ReportName(platform: string): string {
    platform + "-build-report.json"
  }

  function AssetName(platform: string, e: Evidence, names: set<string>): string {
    if !e.inPackage then platform + "-logs-" + e.name
    else if e.name in names then e.name
    else platform + "-" + e.name
  }

  function ArtifactNames(artifacts: seq<Artifact>): set<string> {
    set a | a in artifacts :: a.path
  }

  // ---------------------------------------------------------------- mandatory evidence

  const MANIFEST := "release-manifest.json"

  const CHECK_LOGS := ["built-bun.json", "built-rust.json", "installed-bun.json", "installed-rust.json", "installed-npm.json"]

  const PROBE_LOGS := [
    "installed-sdk-bun.json", "installed-sdk-tools-bun.json", "installed-sdk-rust.json", "installed-sdk-tools-rust.json",
    "installed-sdk-npm.json", "installed-sdk-tools-npm.json"]

  const BUNDLE_LOG := "producer-command-logs.json"
  const PAYLOAD_LOG := "installed-sdk-payloads.json"
  const MAC_LOGS := ["sdk-code-signatures.json", "sdk-collect.toc"]
  const LINUX_LOGS := ["sdk-linux-runtime.json"]

  /** The logs every build must retain, and those of the other kind of platform, which it may not. */
  function RequiredLogs(platform: string): seq<string> {
    CHECK_LOGS + PROBE_LOGS + [BUNDLE_LOG, PAYLOAD_LOG] + (if IsDarwin(platform) then MAC_LOGS else LINUX_LOGS)
  }

  function ForeignLogs(platform: string): seq<string> {
    if IsDarwin(platform) then LINUX_LOGS else MAC_LOGS
  }

  predicate HasEntry(evidence: seq<Evidence>, inPackage: bool, name: string) {
    exists i :: 0 <= i < |evidence| && evidence[i].inPackage == inPackage && evidence[i].name == name
  }

  /** The presence checks on a build's evidence: the manifest, all required logs, none of the other
      platform's, and none of the command logs that the bundle replaces. */
  predicate EvidenceComplete(platform: string, evidence: seq<Evidence>) {
    && HasEntry(evidence, true, MANIFEST)
    && (forall i :: 0 <= i < |RequiredLogs(platform)| ==> HasEntry(evidence, false, RequiredLogs(platform)[i]))
    && (forall i :: 0 <= i < |evidence| && !evidence[i].inPackage ==>
          evidence[i].name !in ForeignLogs(platform) && "logs/" + evidence[i].name !in CommandLogs.MembersOf(platform))
  }

  /** The identity checks that need no file: a full revision and a version. */
  predicate HeadersOk(b: Build) {
    IsHex(b.source, 40) && CommandLogs.IsVersion(b.version)
  }

  // ---------------------------------------------------------------- merging one build

  /** One manifest artifact: it is bound by the build's evidence, and its name is new or that of an
      identical npm root. */
  function AddArtifact(inventory: map<string, Record>, a: Artifact,
                       evidence: seq<Evidence>): Option<map<string, Record>> {
    if !SafeName(a.path) || Evidence(true, a.path, a.sha256, a.byteLength) !in evidence || a.kind.Unknown? then None
    else if a.path in inventory then
      if a.kind.NpmMeta? && inventory[a.path] == RecordOf(a) then Some(inventory) else None
    else Some(inventory[a.path := RecordOf(a)])
  }

  function AddArtifacts(inventory: map<string, Record>, artifacts: seq<Artifact>,
                        evidence: seq<Evidence>): Option<map<string, Record>> {
    if artifacts == [] then Some(inventory)
    else
      var n := |artifacts| - 1;
      var before := AddArtifacts(inventory, artifacts[..n], evidence);
      if before.None? then None else AddArtifact(before.value, artifacts[n], evidence)
  }

  function AddEvidence(inventory: map<string, Record>, platform: string, e: Evidence,
                       names: set<string>): Option<map<string, Record>> {
    if !SafeName(e.name) then None
    else if e.inPackage && e.name in names then Some(inventory)
    else
      var name := AssetName(platform, e, names);
      if !SafeName(name) || name in inventory then None
      else Some(inventory[name := Record(name, e.sha256, e.byteLength, EvidenceFile, platform, Shared)])
  }

  function AddAllEvidence(inventory: map<string, Record>, platform: string, evidence: seq<Evidence>,
                          names: set<string>): Option<map<string, Record>> {
    if evidence == [] then Some(inventory)
    else
      var n := |evidence| - 1;
      var before := AddAllEvidence(inventory, platform, evidence[..n], names);
      if before.None? then None else AddEvidence(before.value, platform, evidence[n], names)
  }

  function CountKind(artifacts: seq<Artifact>, kind: Kind, implementation: Implementation): nat {
    if artifacts == [] then 0
    else
      var n := |artifacts| - 1;
      CountKind(artifacts[..n], kind, implementation) +
      (if artifacts[n].kind == kind && artifacts[n].implementation == implementation then 1 else 0)
  }

  /** The artifact coverage `validate_native` asks of one build: four artifacts, one of each kind. */
  predicate NativeCoverage(artifacts: seq<Artifact>, platform: string) {
    && |artifacts| == 4
    && CountKind(artifacts, NpmMeta, Bun) == 1 && CountKind(artifacts, NpmPlatform, Bun) == 1
    && CountKind(artifacts, StandaloneArchive, Bun) == 1 && CountKind(artifacts, StandaloneArchive, Rust) == 1
    && forall i :: 0 <= i < |artifacts| ==> artifacts[i].platform == if artifacts[i].kind.NpmMeta? then None else Some(platform)
  }

  /** The native build report always takes its name, whatever stood there before. */
  function Merge(inventory: map<string, Record>, b: Build): Option<map<string, Record>> {
    if !b.verified || !HeadersOk(b) || !NativeCoverage(b.artifacts, b.platform) then None
    else if !EvidenceComplete(b.platform, b.evidence) then None
    else
      var artifacts := AddArtifacts(inventory, b.artifacts, b.evidence);
      if artifacts.None? then None
      else
        var all := AddAllEvidence(artifacts.value, b.platform, b.evidence, ArtifactNames(b.artifacts));
        if all.None? then None
        else Some(all.value[ReportName(b.platform) := Record(ReportName(b.platform), b.reportSha256, b.reportSize, EvidenceFile, b.platform, Shared)])
  }

  function PlatformsOf(builds: seq<Build>): set<string> {
    set b | b in builds :: b.platform
  }

  function MergeAll(builds: seq<Build>): Option<map<string, Record>> {
    if builds == [] then Some(map[])
    else
      var n := |builds| - 1;
      var b := builds[n];
      var before := MergeAll(builds[..n]);
      if before.None? || b.platform !in PLATFORMS || b.platform in PlatformsOf(builds[..n]) then None
      else if b.version != builds[0].version || b.source != builds[0].source then None
      else Merge(before.value, b)
  }

  function Archives(inventory: map<string, Record>): set<string> {
    set name | name in inventory && !inventory[name].kind.EvidenceFile?
  }

  /** The checks on the whole inventory.  `live` holds the names of the live evidence, if it was given. */
  predicate InventoryOk(inventory: map<string, Record>, live: Option<set<string>>) {
    && (match live
        case None => forall name :: name in inventory ==> !("live-bun-" <= name) && !("live-rust-" <= name)
        case Some(names) => names !! inventory.Keys && |names| == 16)
    && "SHA256SUMS" !in inventory && "kernel-rc-release-evidence.json" !in inventory
    && |inventory| + 2 + 16 <= 128
    && |Archives(inventory)| == 13
  }

  function Assembled(builds: seq<Build>, live: Option<set<string>>): Option<map<string, Record>> {
    if |builds| != 4 then None
    else
      var inventory := MergeAll(builds);
      if inventory.None? || !InventoryOk(inventory.value, live) then None else inventory
  }

  // ---------------------------------------------------------------- the program

  method MergeBuild(inventory0: map<string, Record>, b: Build) returns (r: Option<map<string, Record>>)
    ensures r == Merge(inventory0, b)
  {
    hide AddArtifact, AddEvidence, NativeCoverage, EvidenceComplete, HeadersOk;
    var inventory := inventory0;
    for i := 0 to |b.artifacts|
      invariant AddArtifacts(inventory0, b.artifacts[..i], b.evidence) == Some(inventory)
    {
      var added := AddArtifact(inventory, b.artifacts[i], b.evidence);
      assert b.artifacts[..i + 1][..i] == b.artifacts[..i];
      if added.None? {
        ArtifactsStayRefused(inventory0, b.artifacts, b.evidence, i + 1);
        return None;
      }
      inventory := added.value;
    }
    assert b.artifacts[..|b.artifacts|] == b.artifacts;
    if !b.verified || !HeadersOk(b) || !NativeCoverage(b.artifacts, b.platform) {
      return None;
    }
    if !EvidenceComplete(b.platform, b.evidence) {
      return None;
    }
    ghost var merged := inventory;
    var names := ArtifactNames(b.artifacts);
    for i := 0 to |b.evidence|
      invariant AddAllEvidence(merged, b.platform, b.evidence[..i], names) == Some(inventory)
    {
      var added := AddEvidence(inventory, b.platform, b.evidence[i], names);
      assert b.evidence[..i + 1][..i] == b.evidence[..i];
      if added.None? {
        EvidenceStaysRefused(merged, b.platform, b.evidence, names, i + 1);
        return None;
      }
      inventory := added.value;
    }
    assert b.evidence[..|b.evidence|] == b.evidence;
    var name := ReportName(b.platform);
    inventory := inventory[name := Record(name, b.reportSha256, b.reportSize, EvidenceFile, b.platform, Shared)];
    r := Some(inventory);
  }

  lemma {:induction false} ArtifactsStayRefused(inventory: map<string, Record>, artifacts: seq<Artifact>,
                                                evidence: seq<Evidence>, n: nat)
    requires n <= |artifacts| && AddArtifacts(inventory, artifacts[..n], evidence).None?
    ensures AddArtifacts(inventory, artifacts, evidence).None?
    decreases |artifacts| - n
  {
    hide AddArtifact;
    if n < |artifacts| {
      assert artifacts[..n + 1][..n] == artifacts[..n];
      ArtifactsStayRefused(inventory, artifacts, evidence, n + 1);
    } else {
      assert artifacts[..n] == artifacts;
    }
  }

  lemma {:induction false} EvidenceStaysRefused(inventory: map<string, Record>, platform: string,
                                                evidence: seq<Evidence>, names: set<string>, n: nat)
    requires n <= |evidence| && AddAllEvidence(inventory, platform, evidence[..n], names).None?
    ensures AddAllEvidence(inventory, platform, evidence, names).None?
    decreases |evidence| - n
  {
    hide AddEvidence;
    if n < |evidence| {
      assert evidence[..n + 1][..n] == evidence[..n];
      EvidenceStaysRefused(inventory, platform, evidence, names, n + 1);
    } else {
      assert evidence[..n] == evidence;
    }
  }

  lemma {:induction false} BuildsStayRefused(builds: seq<Build>, n: nat)
    requires n <= |builds| && MergeAll(builds[..n]).None?
    ensures MergeAll(builds).None?
    decreases |builds| - n
  {
    hide Merge;
    if n < |builds| {
      assert builds[..n + 1][..n] == builds[..n];
      BuildsStayRefused(builds, n + 1);
    } else {
      assert builds[..n] == builds;
    }
  }

  /** `assemble` up to the finished inventory. */
  method Assemble(builds: seq<Build>, live: Option<set<string>>) returns (r: Option<map<string, Record>>)
    ensures r == Assembled(builds, live)
    ensures r.Some? ==> Accounted(builds, r.value)
  {
    hide Merge, InventoryOk, PLATFORMS, Accounted;
    if |builds| != 4 {
      return None;
    }
    var inventory: map<string, Record> := map[];
    var reports: set<string> := {};
    for i := 0 to |builds|
      invariant MergeAll(builds[..i]) == Some(inventory)
      invariant reports == PlatformsOf(builds[..i])
    {
      var b := builds[i];
      assert builds[..i + 1][..i] == builds[..i];
      assert builds[..i + 1] == builds[..i] + [b];
      if b.platform !in PLATFORMS || b.platform in reports || b.version != builds[0].version || b.source != builds[0].source {
        BuildsStayRefused(builds, i + 1);
        return None;
      }
      var merged := MergeBuild(inventory, b);
      if merged.None? {
        BuildsStayRefused(builds, i + 1);
        return None;
      }
      inventory := merged.value;
      reports := reports + {b.platform};
    }
    assert builds[..|builds|] == builds;
    if !InventoryOk(inventory, live) {
      return None;
    }
    MergeAllAccounts(builds);
    r := Some(inventory);
  }

  // ---------------------------------------------------------------- what every merge keeps

  function AllArtifacts(builds: seq<Build>): seq<Artifact> {
    if builds == [] then [] else AllArtifacts(builds[..|builds| - 1]) + builds[|builds| - 1].artifacts
  }

  /** Only an identical npm root may share a name with an earlier artifact. */
  ghost predicate OnlyRootsShare(artifacts: seq<Artifact>) {
    forall i, j :: 0 <= i < j < |artifacts| && artifacts[i].path == artifacts[j].path ==>
      artifacts[j].kind.NpmMeta? && RecordOf(artifacts[i]) == RecordOf(artifacts[j])
  }

  /** The artifact's record is in the inventory, or the report of a build has taken its name. */
  predicate KeptOrReplaced(inventory: map<string, Record>, a: Artifact, platforms: set<string>) {
    && a.path in inventory
    && (inventory[a.path] == RecordOf(a) ||
        (inventory[a.path].kind.EvidenceFile? && exists p :: p in platforms && a.path == ReportName(p)))
  }

  predicate FromArtifact(record: Record, artifacts: seq<Artifact>) {
    record.kind.EvidenceFile? || exists i :: 0 <= i < |artifacts| && RecordOf(artifacts[i]) == record
  }

  ghost predicate Conserving(inventory: map<string, Record>, artifacts: seq<Artifact>, platforms: set<string>) {
    && (forall name :: name in inventory ==> inventory[name].name == name && FromArtifact(inventory[name], artifacts))
    && (forall i :: 0 <= i < |artifacts| ==> KeptOrReplaced(inventory, artifacts[i], platforms))
    && (forall p :: p in platforms ==> ReportName(p) in inventory && inventory[ReportName(p)].kind.EvidenceFile?)
    && OnlyRootsShare(artifacts)
  }

  lemma {:induction false} FromMore(record: Record, artifacts: seq<Artifact>, a: Artifact)
    requires FromArtifact(record, artifacts) || record == RecordOf(a)
    ensures FromArtifact(record, artifacts + [a])
  {
    if record == RecordOf(a) {
      assert (artifacts + [a])[|artifacts|] == a;
    } else if !record.kind.EvidenceFile? {
      var i :| 0 <= i < |artifacts| && RecordOf(artifacts[i]) == record;
      assert (artifacts + [a])[i] == artifacts[i];
    }
  }

  lemma {:induction false} ArtifactConserves(inventory: map<string, Record>, a: Artifact, evidence: seq<Evidence>,
                                             artifacts: seq<Artifact>, platforms: set<string>)
    requires Conserving(inventory, artifacts, platforms) && AddArtifact(inventory, a, evidence).Some?
    ensures Conserving(AddArtifact(inventory, a, evidence).value, artifacts + [a], platforms)
  {
    hide SafeName, FromArtifact, ReportName;
    var after := AddArtifact(inventory, a, evidence).value;
    var longer := artifacts + [a];
    forall name | name in after ensures after[name].name == name && FromArtifact(after[name], longer) {
      FromMore(after[name], artifacts, a);
    }
    forall i | 0 <= i < |longer| ensures KeptOrReplaced(after, longer[i], platforms) {
      if i < |artifacts| { assert KeptOrReplaced(inventory, artifacts[i], platforms); }
    }
    forall i, j | 0 <= i < j < |longer| && longer[i].path == longer[j].path
      ensures longer[j].kind.NpmMeta? && RecordOf(longer[i]) == RecordOf(longer[j])
    {
      assert KeptOrReplaced(inventory, artifacts[i], platforms);
      if j < |artifacts| { assert artifacts[i].path == artifacts[j].path; }
    }
  }

  lemma {:induction false} ArtifactsConserve(inventory: map<string, Record>, added: seq<Artifact>,
                                             evidence: seq<Evidence>,
                                             artifacts: seq<Artifact>, platforms: set<string>)
    requires Conserving(inventory, artifacts, platforms) && AddArtifacts(inventory, added, evidence).Some?
    ensures Conserving(AddArtifacts(inventory, added, evidence).value, artifacts + added, platforms)
  {
    hide Conserving, AddArtifact;
    if added == [] {
      assert artifacts + [] == artifacts;
    } else {
      var n := |added| - 1;
      ArtifactsConserve(inventory, added[..n], evidence, artifacts, platforms);
      ArtifactConserves(AddArtifacts(inventory, added[..n], evidence).value, added[n], evidence, artifacts + added[..n], platforms);
      assert artifacts + added == (artifacts + added[..n]) + [added[n]];
    }
  }

  lemma {:induction false} EvidenceConserves(inventory: map<string, Record>, platform: string,
                                             evidence: seq<Evidence>, names: set<string>,
                                             artifacts: seq<Artifact>, platforms: set<string>)
    requires Conserving(inventory, artifacts, platforms) && AddAllEvidence(inventory, platform, evidence, names).Some?
    ensures Conserving(AddAllEvidence(inventory, platform, evidence, names).value, artifacts, platforms)
  {
    hide SafeName, OnlyRootsShare, ReportName, AssetName;
    if evidence != [] {
      var n := |evidence| - 1;
      EvidenceConserves(inventory, platform, evidence[..n], names, artifacts, platforms);
      var before := AddAllEvidence(inventory, platform, evidence[..n], names).value;
      var after := AddEvidence(before, platform, evidence[n], names).value;
      forall i | 0 <= i < |artifacts| ensures KeptOrReplaced(after, artifacts[i], platforms) {
        assert KeptOrReplaced(before, artifacts[i], platforms);
      }
    }
  }

  lemma {:induction false} MergeConserves(inventory: map<string, Record>, b: Build, artifacts: seq<Artifact>,
                                          platforms: set<string>)
    requires Conserving(inventory, artifacts, platforms) && Merge(inventory, b).Some?
    ensures Conserving(Merge(inventory, b).value, artifacts + b.artifacts, platforms + {b.platform})
    ensures NativeCoverage(b.artifacts, b.platform)
  {
    hide OnlyRootsShare, AddArtifacts, AddAllEvidence, NativeCoverage, ReportName, EvidenceComplete, HeadersOk;
    var names := ArtifactNames(b.artifacts);
    var one := AddArtifacts(inventory, b.artifacts, b.evidence).value;
    ArtifactsConserve(inventory, b.artifacts, b.evidence, artifacts, platforms);
    EvidenceConserves(one, b.platform, b.evidence, names, artifacts + b.artifacts, platforms);
    var two := AddAllEvidence(one, b.platform, b.evidence, names).value;
    var all := artifacts + b.artifacts;
    var after := Merge(inventory, b).value;
    assert ReportName(b.platform) in after;
    forall i | 0 <= i < |all| ensures KeptOrReplaced(after, all[i], platforms + {b.platform}) {
      assert KeptOrReplaced(two, all[i], platforms);
      if all[i].path == ReportName(b.platform) { assert b.platform in platforms + {b.platform}; }
    }
  }

  /** What accepted builds and their merged inventory have in common with the builds. */
  ghost predicate Merged(builds: seq<Build>, inventory: map<string, Record>) {
    && Conserving(inventory, AllArtifacts(builds), PlatformsOf(builds))
    && (forall b, c :: b in builds && c in builds && b.platform == c.platform ==> b == c)
    && (forall b :: b in builds ==> RealPlatform(b.platform) && NativeCoverage(b.artifacts, b.platform))
  }

  /** No platform is named like the marker for all of them. */
  predicate RealPlatform(platform: string) {
    platform != "" && platform != "all"
  }

  lemma {:induction false} MergeAllConserves(builds: seq<Build>)
    requires MergeAll(builds).Some?
    ensures Merged(builds, MergeAll(builds).value)
    ensures |PlatformsOf(builds)| == |builds| && PlatformsOf(builds) <= PLATFORMS
  {
    hide Conserving, NativeCoverage, PLATFORMS, Merge, Merged, RealPlatform;
    if builds == [] {
      assert PlatformsOf(builds) == {};
      NothingMerged();
    } else {
      var n := |builds| - 1;
      MergeAllConserves(builds[..n]);
      assert builds == builds[..n] + [builds[n]];
      MergedExtends(builds[..n], MergeAll(builds[..n]).value, builds[n]);
    }
  }

  lemma {:induction false} NothingMerged()
    ensures Merged([], map[])
  {
    assert PlatformsOf([]) == {} && AllArtifacts([]) == [];
    NothingConserves();
  }

  lemma {:induction false} AllArtifactsAppend(builds: seq<Build>, b: Build)
    ensures AllArtifacts(builds + [b]) == AllArtifacts(builds) + b.artifacts
  {
    assert (builds + [b])[..|builds|] == builds;
  }

  lemma {:induction false} MergedExtends(builds: seq<Build>, inventory: map<string, Record>, b: Build)
    requires Merged(builds, inventory) && Merge(inventory, b).Some?
    requires b.platform in PLATFORMS && b.platform !in PlatformsOf(builds)
    ensures Merged(builds + [b], Merge(inventory, b).value)
    ensures PlatformsOf(builds + [b]) == PlatformsOf(builds) + {b.platform}
  {
    hide Conserving, NativeCoverage, PLATFORMS, Merge, RealPlatform, AllArtifacts;
    var longer := builds + [b];
    AllArtifactsAppend(builds, b);
    assert PlatformsOf(longer) == PlatformsOf(builds) + {b.platform};
    MergeConserves(inventory, b, AllArtifacts(builds), PlatformsOf(builds));
    PlatformsAreReal(b.platform);
    forall c | c in builds ensures c.platform != b.platform { assert c.platform in PlatformsOf(builds); }
  }

  lemma {:induction false} PlatformsAreReal(platform: string)
    requires platform in PLATFORMS
    ensures RealPlatform(platform)
  {
  }

  lemma {:induction false} NothingConserves()
    ensures Conserving(map[], [], {})
  {
  }

  // ---------------------------------------------------------------- conservation

  /** No artifact carries the name a build report takes. */
  predicate NoReportName(builds: seq<Build>) {
    forall i, b :: 0 <= i < |AllArtifacts(builds)| && b in builds ==> AllArtifacts(builds)[i].path != ReportName(b.platform)
  }

  /** Every artifact of every manifest is in the inventory with its own record. */
  predicate Conserved(builds: seq<Build>, inventory: map<string, Record>) {
    forall i :: 0 <= i < |AllArtifacts(builds)| ==>
      AllArtifacts(builds)[i].path in inventory && inventory[AllArtifacts(builds)[i].path] == RecordOf(AllArtifacts(builds)[i])
  }

  /** The merge loses no artifact exactly when none is named like a build report. */
  lemma {:induction false} ConservedUnlessReportName(builds: seq<Build>, inventory: map<string, Record>)
    requires Merged(builds, inventory)
    ensures Conserved(builds, inventory) <==> NoReportName(builds)
    ensures OnlyRootsShare(AllArtifacts(builds))
  {
    hide AllArtifacts, ReportName, RecordOf, FromArtifact, NativeCoverage;
    var all := AllArtifacts(builds);
    if NoReportName(builds) {
      forall i | 0 <= i < |all| ensures all[i].path in inventory && inventory[all[i].path] == RecordOf(all[i]) {
        assert KeptOrReplaced(inventory, all[i], PlatformsOf(builds));
      }
    }
    if Conserved(builds, inventory) {
      forall i, b | 0 <= i < |all| && b in builds ensures all[i].path != ReportName(b.platform) {
        assert b.platform in PlatformsOf(builds);
        ArchivesAreNoEvidence(all[i]);
      }
    }
  }

  lemma {:induction false} ArchivesAreNoEvidence(a: Artifact)
    ensures !RecordOf(a).kind.EvidenceFile? && RecordOf(a).name == a.path
  {
  }

  // ---------------------------------------------------------------- conservation of evidence

  /** An evidence entry that is one of the build's artifacts. */
  predicate Packaged(b: Build, e: Evidence) {
    e.inPackage && exists i :: 0 <= i < |b.artifacts| && b.artifacts[i].path == e.name
  }

  /** The record an evidence file has in the release. */
  function EvidenceRecord(b: Build, e: Evidence): Record {
    var name := (if e.inPackage then b.platform + "-" else b.platform + "-logs-") + e.name;
    Record(name, e.sha256, e.byteLength, EvidenceFile, b.platform, Shared)
  }

  function ReportRecord(b: Build): Record {
    Record(b.platform + "-build-report.json", b.reportSha256, b.reportSize, EvidenceFile, b.platform, Shared)
  }

  predicate Holds(inventory: map<string, Record>, record: Record) {
    record.name in inventory && inventory[record.name] == record
  }

  /** Every report is in the inventory, and so is every evidence file that is no artifact, unless it is
      called `build-report.json` in the package directory: then the report has taken its place. */
  ghost predicate EvidenceKept(inventory: map<string, Record>, b: Build) {
    && Holds(inventory, ReportRecord(b))
    && forall i :: 0 <= i < |b.evidence| && !Packaged(b, b.evidence[i]) ==>
         if b.evidence[i].inPackage && b.evidence[i].name == "build-report.json"
         then EvidenceRecord(b, b.evidence[i]).name == ReportRecord(b).name
         else Holds(inventory, EvidenceRecord(b, b.evidence[i]))
  }

  /** The record is a report, an evidence file or an artifact of one of the builds. */
  ghost predicate ComesFrom(record: Record, builds: seq<Build>) {
    exists b :: b in builds && OfBuild(record, b)
  }

  ghost predicate OfBuild(record: Record, b: Build) {
    || record == ReportRecord(b)
    || (exists i :: 0 <= i < |b.evidence| && !Packaged(b, b.evidence[i]) && record == EvidenceRecord(b, b.evidence[i]))
    || (exists i :: 0 <= i < |b.artifacts| && record == RecordOf(b.artifacts[i]))
  }

  /** The inventory holds what the builds bring, and nothing else. */
  ghost predicate Accounted(builds: seq<Build>, inventory: map<string, Record>) {
    && (forall b :: b in builds ==> EvidenceKept(inventory, b))
    && (forall name :: name in inventory ==> ComesFrom(inventory[name], builds))
  }

  lemma {:induction false} PackagedIsName(b: Build, e: Evidence)
    ensures Packaged(b, e) <==> e.inPackage && e.name in ArtifactNames(b.artifacts)
  {
    if e.name in ArtifactNames(b.artifacts) {
      var a :| a in b.artifacts && a.path == e.name;
      var i :| 0 <= i < |b.artifacts| && b.artifacts[i] == a;
    }
    if exists i :: 0 <= i < |b.artifacts| && b.artifacts[i].path == e.name {
      var i :| 0 <= i < |b.artifacts| && b.artifacts[i].path == e.name;
      assert b.artifacts[i] in b.artifacts;
    }
  }

  /** Adding artifacts leaves what is there. */
  lemma {:induction false} ArtifactsKeep(inventory: map<string, Record>, artifacts: seq<Artifact>, evidence: seq<Evidence>)
    requires AddArtifacts(inventory, artifacts, evidence).Some?
    ensures var after := AddArtifacts(inventory, artifacts, evidence).value;
            && (forall n :: n in inventory ==> n in after && after[n] == inventory[n])
            && (forall n :: n in after && n !in inventory ==>
                  exists i :: 0 <= i < |artifacts| && after[n] == RecordOf(artifacts[i]))
  {
    hide SafeName, RecordOf;
    if artifacts != [] {
      var n := |artifacts| - 1;
      ArtifactsKeep(inventory, artifacts[..n], evidence);
      var before, after := AddArtifacts(inventory, artifacts[..n], evidence).value, AddArtifacts(inventory, artifacts, evidence).value;
      forall m | m in after && m !in inventory ensures exists i :: 0 <= i < |artifacts| && after[m] == RecordOf(artifacts[i]) {
        if m in before {
          var i :| 0 <= i < n && before[m] == RecordOf(artifacts[..n][i]);
          assert artifacts[i] == artifacts[..n][i];
        }
      }
    }
  }

  /** Adding evidence leaves what is there and records every entry that is no artifact. */
  lemma {:induction false} EvidenceIsAdded(inventory: map<string, Record>, b: Build, n: nat)
    requires n <= |b.evidence|
    requires AddAllEvidence(inventory, b.platform, b.evidence[..n], ArtifactNames(b.artifacts)).Some?
    ensures var after := AddAllEvidence(inventory, b.platform, b.evidence[..n], ArtifactNames(b.artifacts)).value;
            && (forall m :: m in inventory ==> m in after && after[m] == inventory[m])
            && (forall i :: 0 <= i < n && !Packaged(b, b.evidence[i]) ==> Holds(after, EvidenceRecord(b, b.evidence[i])))
            && (forall m :: m in after && m !in inventory ==>
                  exists i :: 0 <= i < n && !Packaged(b, b.evidence[i]) && after[m] == EvidenceRecord(b, b.evidence[i]))
  {
    hide SafeName, ArtifactNames, Packaged, EvidenceRecord;
    if n > 0 {
      var e := b.evidence[n - 1];
      assert b.evidence[..n][..n - 1] == b.evidence[..n - 1] && b.evidence[..n][n - 1] == e;
      EvidenceIsAdded(inventory, b, n - 1);
      PackagedIsName(b, e);
      if !Packaged(b, e) { AssetIs(b, e); }
    }
  }

  lemma {:induction false} AssetIs(b: Build, e: Evidence)
    requires !(e.inPackage && e.name in ArtifactNames(b.artifacts))
    ensures var name := AssetName(b.platform, e, ArtifactNames(b.artifacts));
            EvidenceRecord(b, e) == Record(name, e.sha256, e.byteLength, EvidenceFile, b.platform, Shared)
  {
    hide ArtifactNames;
  }

  predicate Owned(name: string, platform: string) {
    platform + "-" <= name
  }

  lemma {:induction false} OwnedByOne(name: string, p: string, q: string)
    requires p in PLATFORMS && q in PLATFORMS && p != q && Owned(name, p)
    ensures !Owned(name, q)
  {
    OwnedFront(name, p);
    OwnedFront(name, q);
  }

  lemma {:induction false} OwnedFront(name: string, p: string)
    requires p in PLATFORMS
    ensures Owned(name, p) ==> |name| > 8 && name[0] == p[0] && name[6] == p[6] && name[7] == p[7]
  {
    var front := p + "-";
    assert front <= name ==> forall k :: 0 <= k < |front| ==> name[k] == front[k];
  }

  /** An evidence file's name begins with its platform, and is the report's only for a file of that name
      in the package directory. */
  lemma {:induction false} EvidenceNames(b: Build, e: Evidence)
    ensures Owned(EvidenceRecord(b, e).name, b.platform) && Owned(ReportRecord(b).name, b.platform)
    ensures EvidenceRecord(b, e).name == ReportRecord(b).name <==> e.inPackage && e.name == "build-report.json"
  {
    var front := b.platform + "-";
    var tail := "build-report.json";
    assert "-build-report.json" == "-" + tail;
    assert ReportRecord(b).name == front + tail;
    assert (front + tail)[|front|..] == tail && (front + tail)[|front|] == 'b';
    if e.inPackage {
      assert (front + e.name)[|front|..] == e.name;
    } else {
      var name := (b.platform + "-logs-") + e.name;
      assert name[|front|] == 'l' && name[..|front|] == front;
    }
  }

  lemma {:induction false} MergeAccounts(inventory: map<string, Record>, b: Build)
    requires Merge(inventory, b).Some?
    ensures var after := Merge(inventory, b).value;
            && EvidenceKept(after, b)
            && (forall n :: n in inventory && n != ReportRecord(b).name ==> n in after && after[n] == inventory[n])
            && (forall n :: n in after && (n !in inventory || n == ReportRecord(b).name) ==> OfBuild(after[n], b))
  {
    hide SafeName, ArtifactNames, Packaged, EvidenceRecord, AddArtifacts, AddAllEvidence, NativeCoverage, EvidenceComplete, HeadersOk, RecordOf;
    var one := AddArtifacts(inventory, b.artifacts, b.evidence).value;
    ArtifactsKeep(inventory, b.artifacts, b.evidence);
    assert b.evidence[..|b.evidence|] == b.evidence;
    EvidenceIsAdded(one, b, |b.evidence|);
    forall i | 0 <= i < |b.evidence|
      ensures EvidenceRecord(b, b.evidence[i]).name == ReportRecord(b).name <==>
                b.evidence[i].inPackage && b.evidence[i].name == "build-report.json"
    {
      EvidenceNames(b, b.evidence[i]);
    }
  }

  /** What a build has brought stays when builds of other platforms are merged. */
  lemma {:induction false} KeptOn(before: map<string, Record>, after: map<string, Record>, b: Build, c: Build)
    requires EvidenceKept(before, b) && b.platform in PLATFORMS && c.platform in PLATFORMS && b.platform != c.platform
    requires forall n :: n in before && n != ReportRecord(c).name ==> n in after && after[n] == before[n]
    ensures EvidenceKept(after, b)
  {
    hide Packaged, EvidenceRecord, ReportRecord, Owned, PLATFORMS;
    EvidenceNames(c, Evidence(true, "", "", 0));
    EvidenceNames(b, Evidence(true, "", "", 0));
    OwnedByOne(ReportRecord(b).name, b.platform, c.platform);
    forall i | 0 <= i < |b.evidence| && !Packaged(b, b.evidence[i]) &&
               !(b.evidence[i].inPackage && b.evidence[i].name == "build-report.json")
      ensures Holds(after, EvidenceRecord(b, b.evidence[i]))
    {
      EvidenceNames(b, b.evidence[i]);
      OwnedByOne(EvidenceRecord(b, b.evidence[i]).name, b.platform, c.platform);
    }
  }

  /** Whatever is merged: no evidence file and no report is lost, altered or invented. */
  lemma {:induction false} MergeAllAccounts(builds: seq<Build>)
    requires MergeAll(builds).Some?
    ensures Accounted(builds, MergeAll(builds).value)
    ensures forall b :: b in builds ==> b.platform in PLATFORMS
  {
    hide Merge, EvidenceKept, OfBuild, PLATFORMS;
    if builds != [] {
      var n := |builds| - 1;
      var before, after := MergeAll(builds[..n]).value, MergeAll(builds).value;
      MergeAllAccounts(builds[..n]);
      MergeAccounts(before, builds[n]);
      assert builds == builds[..n] + [builds[n]];
      forall b | b in builds ensures EvidenceKept(after, b) {
        if b in builds[..n] {
          assert b.platform in PlatformsOf(builds[..n]);
          KeptOn(before, after, b, builds[n]);
        }
      }
      forall name | name in after ensures ComesFrom(after[name], builds) {
        if name in before && name != ReportRecord(builds[n]).name {
          var b :| b in builds[..n] && OfBuild(before[name], b);
          assert b in builds;
        } else {
          assert builds[n] in builds;
        }
      }
    }
  }

  // ---------------------------------------------------------------- coverage

  /** The places of a release: both runners on each platform, an npm package for each platform, and
      the npm root. */
  datatype Slot = RunnerSlot(implementation: Implementation, platform: string) | PackageSlot(platform: string) | RootSlot

  function SlotOf(record: Record): Slot {
    if record.kind.Standalone? then RunnerSlot(record.implementation, record.platform)
    else if record.platform == "all" then RootSlot
    else PackageSlot(record.platform)
  }

  function Slots(platforms: set<string>): set<Slot> {
    RunnerSlots(Bun, platforms) + RunnerSlots(Rust, platforms) + PackageSlots(platforms) + {RootSlot}
  }

  /** What the plan loader asks of the standalone archives and the local verifier of the npm
      packages: each place is taken by exactly one archive and no archive is without a place. */
  ghost predicate Covers(inventory: map<string, Record>, platforms: set<string>) {
    && (forall name :: name in Archives(inventory) ==> SlotOf(inventory[name]) in Slots(platforms))
    && (forall slot :: slot in Slots(platforms) ==> exists name :: name in Archives(inventory) && SlotOf(inventory[name]) == slot)
    && (forall m, n :: m in Archives(inventory) && n in Archives(inventory) && SlotOf(inventory[m]) == SlotOf(inventory[n]) ==> m == n)
  }

  lemma {:induction false} KindIsThere(artifacts: seq<Artifact>, kind: Kind, implementation: Implementation)
    requires CountKind(artifacts, kind, implementation) > 0
    ensures exists i :: 0 <= i < |artifacts| && artifacts[i].kind == kind && artifacts[i].implementation == implementation
  {
    var n := |artifacts| - 1;
    if artifacts[n].kind != kind || artifacts[n].implementation != implementation {
      KindIsThere(artifacts[..n], kind, implementation);
      var i :| 0 <= i < n && artifacts[..n][i].kind == kind && artifacts[..n][i].implementation == implementation;
      assert artifacts[i] == artifacts[..n][i];
    }
  }

  predicate IsExpectedKind(a: Artifact) {
    (a.kind.NpmMeta? && a.implementation.Bun?) || (a.kind.NpmPlatform? && a.implementation.Bun?) ||
    (a.kind.StandaloneArchive? && (a.implementation.Bun? || a.implementation.Rust?))
  }

  /** When the four counts add up to all artifacts, there is no artifact of another kind. */
  lemma {:induction false} NoOtherKind(artifacts: seq<Artifact>)
    ensures var four := CountKind(artifacts, NpmMeta, Bun) + CountKind(artifacts, NpmPlatform, Bun) +
                        CountKind(artifacts, StandaloneArchive, Bun) + CountKind(artifacts, StandaloneArchive, Rust);
      four <= |artifacts| && (four == |artifacts| ==> forall i :: 0 <= i < |artifacts| ==> IsExpectedKind(artifacts[i]))
  {
    if artifacts != [] {
      var n := |artifacts| - 1;
      NoOtherKind(artifacts[..n]);
      forall i | 0 <= i < n ensures artifacts[i] == artifacts[..n][i] {}
    }
  }

  function OwnSlots(platform: string): set<Slot> {
    {RunnerSlot(Bun, platform), RunnerSlot(Rust, platform), PackageSlot(platform), RootSlot}
  }

  /** One build brings an archive for each of its four places, and nothing else. */
  lemma {:induction false} BuildFillsSlots(artifacts: seq<Artifact>, platform: string)
    requires NativeCoverage(artifacts, platform) && RealPlatform(platform)
    ensures forall i :: 0 <= i < |artifacts| ==> SlotOf(RecordOf(artifacts[i])) in OwnSlots(platform)
    ensures forall slot :: slot in OwnSlots(platform) ==> exists i :: 0 <= i < |artifacts| && SlotOf(RecordOf(artifacts[i])) == slot
  {
    hide CountKind;
    NoOtherKind(artifacts);
    KindIsThere(artifacts, NpmMeta, Bun);
    KindIsThere(artifacts, NpmPlatform, Bun);
    KindIsThere(artifacts, StandaloneArchive, Bun);
    KindIsThere(artifacts, StandaloneArchive, Rust);
  }

  lemma {:induction false} KindTwice(artifacts: seq<Artifact>, i: nat, j: nat)
    requires i < j < |artifacts| && artifacts[i].kind == artifacts[j].kind && artifacts[i].implementation == artifacts[j].implementation
    ensures CountKind(artifacts, artifacts[i].kind, artifacts[i].implementation) >= 2
  {
    var n := |artifacts| - 1;
    assert artifacts[i] == artifacts[..n][i];
    if j < n {
      assert artifacts[j] == artifacts[..n][j];
      KindTwice(artifacts[..n], i, j);
    } else {
      KindOnce(artifacts[..n], i);
    }
  }

  lemma {:induction false} KindOnce(artifacts: seq<Artifact>, i: nat)
    requires i < |artifacts|
    ensures CountKind(artifacts, artifacts[i].kind, artifacts[i].implementation) >= 1
  {
    var n := |artifacts| - 1;
    if i < n {
      assert artifacts[i] == artifacts[..n][i];
      KindOnce(artifacts[..n], i);
    }
  }

  /** Within a build no two artifacts have the same place. */
  lemma {:induction false} SlotsDifferWithin(artifacts: seq<Artifact>, platform: string, i: nat, j: nat)
    requires NativeCoverage(artifacts, platform) && RealPlatform(platform) && i < j < |artifacts|
    ensures SlotOf(RecordOf(artifacts[i])) != SlotOf(RecordOf(artifacts[j]))
  {
    hide CountKind;
    NoOtherKind(artifacts);
    if artifacts[i].kind == artifacts[j].kind && artifacts[i].implementation == artifacts[j].implementation {
      KindTwice(artifacts, i, j);
    }
  }

  lemma {:induction false} SlotTellsPlatform(slot: Slot, p: string, q: string)
    requires slot in OwnSlots(p) && slot in OwnSlots(q) && slot != RootSlot
    ensures p == q
  {
  }

  /** Across all builds only npm roots share a place. */
  lemma {:induction false} SlotsDiffer(builds: seq<Build>, inventory: map<string, Record>, a: Artifact, c: Artifact)
    requires Merged(builds, inventory) && a in AllArtifacts(builds) && c in AllArtifacts(builds)
    requires SlotOf(RecordOf(a)) == SlotOf(RecordOf(c)) != RootSlot
    ensures a == c
  {
    hide AllArtifacts, NativeCoverage, Conserving, SlotOf, RecordOf, RealPlatform, OwnSlots;
    BuildOfArtifact(builds, a);
    BuildOfArtifact(builds, c);
    var x :| x in builds && a in x.artifacts;
    var y :| y in builds && c in y.artifacts;
    BuildFillsSlots(x.artifacts, x.platform);
    BuildFillsSlots(y.artifacts, y.platform);
    SlotTellsPlatform(SlotOf(RecordOf(a)), x.platform, y.platform);
    assert x == y;
    var i :| 0 <= i < |x.artifacts| && x.artifacts[i] == a;
    var j :| 0 <= j < |x.artifacts| && x.artifacts[j] == c;
    if i < j { SlotsDifferWithin(x.artifacts, x.platform, i, j); }
    if j < i { SlotsDifferWithin(x.artifacts, x.platform, j, i); }
  }

  lemma {:induction false} ArtifactsOfBuild(builds: seq<Build>, b: Build, i: nat)
    requires b in builds && i < |b.artifacts|
    ensures b.artifacts[i] in AllArtifacts(builds)
  {
    var n := |builds| - 1;
    assert builds == builds[..n] + [builds[n]];
    if b != builds[n] { ArtifactsOfBuild(builds[..n], b, i); }
  }

  lemma {:induction false} BuildOfArtifact(builds: seq<Build>, a: Artifact)
    requires a in AllArtifacts(builds)
    ensures exists b :: b in builds && a in b.artifacts
  {
    var n := |builds| - 1;
    if a in builds[n].artifacts {
      assert builds[n] in builds;
    } else {
      BuildOfArtifact(builds[..n], a);
      var b :| b in builds[..n] && a in b.artifacts;
      assert b in builds;
    }
  }

  lemma {:induction false} OneToOneIsSmaller(names: set<string>, inventory: map<string, Record>, slots: set<Slot>)
    requires names <= inventory.Keys && forall name :: name in names ==> SlotOf(inventory[name]) in slots
    requires forall m, n :: m in names && n in names && SlotOf(inventory[m]) == SlotOf(inventory[n]) ==> m == n
    ensures |names| <= |slots|
    decreases names
  {
    if names != {} {
      var name :| name in names;
      OneToOneIsSmaller(names - {name}, inventory, slots - {SlotOf(inventory[name])});
    }
  }

  lemma {:induction false} OntoIsLarger(names: set<string>, inventory: map<string, Record>, slots: set<Slot>)
    requires names <= inventory.Keys
    requires forall slot :: slot in slots ==> exists name :: name in names && SlotOf(inventory[name]) == slot
    ensures |names| >= |slots|
    decreases slots
  {
    if slots != {} {
      var slot :| slot in slots;
      var name :| name in names && SlotOf(inventory[name]) == slot;
      forall other | other in slots - {slot} ensures exists n :: n in names - {name} && SlotOf(inventory[n]) == other {
        var n :| n in names && SlotOf(inventory[n]) == other;
        assert n in names - {name};
      }
      OntoIsLarger(names - {name}, inventory, slots - {slot});
    }
  }

  function RunnerSlots(implementation: Implementation, platforms: set<string>): set<Slot> {
    set p | p in platforms :: RunnerSlot(implementation, p)
  }

  function PackageSlots(platforms: set<string>): set<Slot> {
    set p | p in platforms :: PackageSlot(p)
  }

  lemma {:induction false} CountRunners(implementation: Implementation, platforms: set<string>)
    ensures |RunnerSlots(implementation, platforms)| == |platforms|
    decreases platforms
  {
    if platforms != {} {
      var p :| p in platforms;
      CountRunners(implementation, platforms - {p});
      assert RunnerSlots(implementation, platforms) == RunnerSlots(implementation, platforms - {p}) + {RunnerSlot(implementation, p)};
    }
  }

  lemma {:induction false} CountPackages(platforms: set<string>)
    ensures |PackageSlots(platforms)| == |platforms|
    decreases platforms
  {
    if platforms != {} {
      var p :| p in platforms;
      CountPackages(platforms - {p});
      assert PackageSlots(platforms) == PackageSlots(platforms - {p}) + {PackageSlot(p)};
    }
  }

  lemma {:induction false} CountSlots(platforms: set<string>)
    ensures RootSlot in Slots(platforms) && |Slots(platforms) - {RootSlot}| == 3 * |platforms|
  {
    var a, b, c := RunnerSlots(Bun, platforms), RunnerSlots(Rust, platforms), PackageSlots(platforms);
    CountRunners(Bun, platforms);
    CountRunners(Rust, platforms);
    CountPackages(platforms);
    assert a !! b && (a + b) !! c;
    assert Slots(platforms) - {RootSlot} == a + b + c;
  }

  lemma {:induction false} FourDiffer()
    ensures |PLATFORMS| == 4
    ensures var a, b, c, d := DARWIN_ARM64, DARWIN_X64, LINUX_ARM64, LINUX_X64;
      a != b && a != c && a != d && b != c && b != d && c != d
  {
    assert DARWIN_ARM64[7] != DARWIN_X64[7];
    assert LINUX_ARM64[6] != LINUX_X64[6];
    assert DARWIN_ARM64[0] != LINUX_ARM64[0];
  }

  /** No archive but an npm root carries the name a build report takes. */
  predicate ArchivesAvoidReports(builds: seq<Build>) {
    forall a, b :: a in AllArtifacts(builds) && b in builds && !a.kind.NpmMeta? ==> a.path != ReportName(b.platform)
  }

  /** Four accepted builds fill every place of a release exactly once (eight standalone archives,
      four npm packages and the one root they share) exactly when no standalone archive and no
      platform package is named like a build report. */
  lemma {:induction false} AssembledCovers(builds: seq<Build>, live: Option<set<string>>)
    requires Assembled(builds, live).Some?
    ensures Covers(Assembled(builds, live).value, PLATFORMS) <==> ArchivesAvoidReports(builds)
  {
    hide MergeAll, AllArtifacts, Covers, ArchivesAvoidReports, Merged;
    MergeAllConserves(builds);
    FourDiffer();
    AllPlatforms(PlatformsOf(builds));
    MergedCovers(builds, MergeAll(builds).value);
  }

  /** The same for any number of builds, when the archives are one more than three for each build. */
  lemma {:induction false} MergedCovers(builds: seq<Build>, inventory: map<string, Record>)
    requires Merged(builds, inventory) && |Archives(inventory)| == 3 * |PlatformsOf(builds)| + 1
    ensures Covers(inventory, PlatformsOf(builds)) <==> ArchivesAvoidReports(builds)
  {
    hide Covers, ArchivesAvoidReports, Merged, Archives;
    if ArchivesAvoidReports(builds) {
      AvoidingCovers(builds, inventory);
    } else {
      ReplacedLeavesGap(builds, inventory);
    }
  }

  lemma {:induction false} ArchiveComesFrom(builds: seq<Build>, inventory: map<string, Record>,
                                            name: string) returns (a: Artifact)
    requires Conserving(inventory, AllArtifacts(builds), PlatformsOf(builds)) && name in Archives(inventory)
    ensures a in AllArtifacts(builds) && RecordOf(a) == inventory[name] && a.path == name
  {
    hide AllArtifacts, KeptOrReplaced, OnlyRootsShare;
    assert FromArtifact(inventory[name], AllArtifacts(builds));
    var i :| 0 <= i < |AllArtifacts(builds)| && RecordOf(AllArtifacts(builds)[i]) == inventory[name];
    a := AllArtifacts(builds)[i];
  }

  lemma {:induction false} AvoidingCovers(builds: seq<Build>, inventory: map<string, Record>)
    requires Merged(builds, inventory) && |Archives(inventory)| == 3 * |PlatformsOf(builds)| + 1
    requires ArchivesAvoidReports(builds)
    ensures Covers(inventory, PlatformsOf(builds))
  {
    hide AllArtifacts, ReportName, RecordOf, SlotOf, NativeCoverage, Slots, KeptOrReplaced, Conserving, ArchivesAvoidReports, Archives, PlatformsOf;
    var names, platforms := Archives(inventory), PlatformsOf(builds);
    assert names <= inventory.Keys by { ArchivesAreKeys(inventory); }
    forall name | name in names ensures SlotOf(inventory[name]) in Slots(platforms) {
      var a := ArchiveComesFrom(builds, inventory, name);
      ArchiveHasSlot(builds, inventory, a);
    }
    forall slot | slot in Slots(platforms) && slot != RootSlot ensures exists name :: name in names && SlotOf(inventory[name]) == slot {
      SlotIsFilled(builds, inventory, slot);
    }
    forall m, n | m in names && n in names && SlotOf(inventory[m]) == SlotOf(inventory[n]) && SlotOf(inventory[m]) != RootSlot ensures m == n {
      var a := ArchiveComesFrom(builds, inventory, m);
      var c := ArchiveComesFrom(builds, inventory, n);
      SlotsDiffer(builds, inventory, a, c);
    }
    OneRoot(names, inventory, platforms);
  }

  lemma {:induction false} ArchivesAreKeys(inventory: map<string, Record>)
    ensures Archives(inventory) <= inventory.Keys
  {
  }

  /** The archives outside the root's place are as many as those places. */
  lemma {:induction false} CountOthers(names: set<string>, others: set<string>, inventory: map<string, Record>,
                                       platforms: set<string>)
    requires names <= inventory.Keys
    requires forall name :: name in others <==> name in names && SlotOf(inventory[name]) != RootSlot
    requires forall name :: name in names ==> SlotOf(inventory[name]) in Slots(platforms)
    requires forall slot :: slot in Slots(platforms) && slot != RootSlot ==> exists name :: name in names && SlotOf(inventory[name]) == slot
    requires forall m, n :: m in others && n in others && SlotOf(inventory[m]) == SlotOf(inventory[n]) ==> m == n
    ensures |others| == 3 * |platforms|
  {
    hide SlotOf, Slots;
    CountSlots(platforms);
    var rest := Slots(platforms) - {RootSlot};
    forall slot | slot in rest ensures exists name :: name in others && SlotOf(inventory[name]) == slot {
      var name :| name in names && SlotOf(inventory[name]) == slot;
      assert name in others;
    }
    OntoIsLarger(others, inventory, rest);
    OneToOneIsSmaller(others, inventory, rest);
  }

  lemma {:induction false} OneLeft(names: set<string>, others: set<string>) returns (root: string)
    requires others <= names && |names| == |others| + 1
    ensures root in names && root !in others && forall m :: m in names && m !in others ==> m == root
  {
    var roots := names - others;
    assert names == others + roots;
    assert |roots| == 1;
    root :| root in roots;
    assert |roots - {root}| == 0;
    forall m | m in names && m !in others ensures m == root {
      assert m in roots - {root} || m == root;
    }
  }

  /** Counting: with all other places filled once each, the one archive left is the root. */
  lemma {:induction false} OneRoot(names: set<string>, inventory: map<string, Record>, platforms: set<string>)
    requires names <= inventory.Keys && |names| == 3 * |platforms| + 1
    requires forall name :: name in names ==> SlotOf(inventory[name]) in Slots(platforms)
    requires forall slot :: slot in Slots(platforms) && slot != RootSlot ==> exists name :: name in names && SlotOf(inventory[name]) == slot
    requires forall m, n :: m in names && n in names && SlotOf(inventory[m]) == SlotOf(inventory[n]) && SlotOf(inventory[m]) != RootSlot ==> m == n
    ensures exists name :: name in names && SlotOf(inventory[name]) == RootSlot
    ensures forall m, n :: m in names && n in names && SlotOf(inventory[m]) == SlotOf(inventory[n]) ==> m == n
  {
    hide SlotOf, Slots;
    var others := set name | name in names && SlotOf(inventory[name]) != RootSlot;
    CountOthers(names, others, inventory, platforms);
    var root := OneLeft(names, others);
    assert SlotOf(inventory[root]) == RootSlot;
  }

  lemma {:induction false} ReplacedLeavesGap(builds: seq<Build>, inventory: map<string, Record>)
    requires Merged(builds, inventory) && !ArchivesAvoidReports(builds)
    ensures !Covers(inventory, PlatformsOf(builds))
  {
    hide AllArtifacts, ReportName, RecordOf, SlotOf, NativeCoverage, Slots, KeptOrReplaced, OnlyRootsShare, FromArtifact;
    var a, b :| a in AllArtifacts(builds) && b in builds && !a.kind.NpmMeta? && a.path == ReportName(b.platform);
    assert b.platform in PlatformsOf(builds);
    var slot := SlotOf(RecordOf(a));
    ArchiveHasSlot(builds, inventory, a);
    forall name | name in Archives(inventory) ensures SlotOf(inventory[name]) != slot {
      var c := ArchiveComesFrom(builds, inventory, name);
      if SlotOf(inventory[name]) == slot { SlotsDiffer(builds, inventory, a, c); }
    }
  }

  lemma {:induction false} AllPlatforms(platforms: set<string>)
    requires platforms <= PLATFORMS && |platforms| == |PLATFORMS|
    ensures platforms == PLATFORMS
  {
    var rest := PLATFORMS - platforms;
    assert PLATFORMS == platforms + rest;
    assert |rest| == 0;
  }

  lemma {:induction false} SlotIsFilled(builds: seq<Build>, inventory: map<string, Record>, slot: Slot)
    requires Merged(builds, inventory) && ArchivesAvoidReports(builds)
    requires slot in Slots(PlatformsOf(builds)) && slot != RootSlot
    ensures exists name :: name in Archives(inventory) && SlotOf(inventory[name]) == slot
  {
    hide AllArtifacts, RecordOf, SlotOf, NativeCoverage, ReportName, OnlyRootsShare, FromArtifact, RealPlatform;
    var platform := slot.platform;
    assert platform in PlatformsOf(builds);
    var b :| b in builds && b.platform == platform;
    BuildFillsSlots(b.artifacts, platform);
    assert slot in OwnSlots(platform);
    var i :| 0 <= i < |b.artifacts| && SlotOf(RecordOf(b.artifacts[i])) == slot;
    var a := b.artifacts[i];
    ArtifactsOfBuild(builds, b, i);
    var k :| 0 <= k < |AllArtifacts(builds)| && AllArtifacts(builds)[k] == a;
    assert KeptOrReplaced(inventory, AllArtifacts(builds)[k], PlatformsOf(builds));
    RootsHaveRootSlot(b.artifacts, platform, i);
    forall p | p in PlatformsOf(builds) ensures a.path != ReportName(p) {
      var c :| c in builds && c.platform == p;
      assert a.path != ReportName(c.platform);
    }
    ArchivesAreNoEvidence(a);
    assert a.path in Archives(inventory);
  }

  lemma {:induction false} RootsHaveRootSlot(artifacts: seq<Artifact>, platform: string, i: nat)
    requires NativeCoverage(artifacts, platform) && i < |artifacts|
    ensures artifacts[i].kind.NpmMeta? ==> SlotOf(RecordOf(artifacts[i])) == RootSlot
  {
    hide CountKind;
  }

  lemma {:induction false} ArchiveHasSlot(builds: seq<Build>, inventory: map<string, Record>, a: Artifact)
    requires Merged(builds, inventory) && a in AllArtifacts(builds)
    ensures SlotOf(RecordOf(a)) in Slots(PlatformsOf(builds))
    ensures !a.kind.NpmMeta? ==> SlotOf(RecordOf(a)) != RootSlot
  {
    hide AllArtifacts, NativeCoverage, SlotOf, RecordOf, Slots, Conserving, RealPlatform;
    BuildOfArtifact(builds, a);
    var b :| b in builds && a in b.artifacts;
    assert b.platform in PlatformsOf(builds);
    var i :| 0 <= i < |b.artifacts| && b.artifacts[i] == a;
    BuildFillsSlots(b.artifacts, b.platform);
    OwnInSlots(b.platform, PlatformsOf(builds));
    OthersHaveNoRootSlot(b.artifacts, b.platform, i);
  }

  lemma {:induction false} OwnInSlots(platform: string, platforms: set<string>)
    requires platform in platforms
    ensures OwnSlots(platform) <= Slots(platforms)
  {
  }

  lemma {:induction false} OthersHaveNoRootSlot(artifacts: seq<Artifact>, platform: string, i: nat)
    requires NativeCoverage(artifacts, platform) && RealPlatform(platform) && i < |artifacts|
    ensures !artifacts[i].kind.NpmMeta? ==> SlotOf(RecordOf(artifacts[i])) != RootSlot
  {
    hide CountKind;
  }
}
