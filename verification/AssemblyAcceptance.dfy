/** The assembly as a whole: exactly which builds are accepted, and the inventory as the entries of
    all builds filed in order, the last of a name winning. */
module AssemblyAcceptance {
  import CommandLogs
  import opened Assembly
  import opened Platforms
  import opened PythonText
  import opened Wrappers

  /** What a build puts into the inventory: a packaged artifact, a retained file, or its report. */
  datatype Entry = Archive(artifact: Artifact) | Retained(build: Build, evidence: Evidence) | Reported(build: Build) {
    function Filed(): Record {
      match this
      case Archive(a) => RecordOf(a)
      case Retained(b, e) => EvidenceRecord(b, e)
      case Reported(b) => ReportRecord(b)
    }
  }

  ghost function Archived(artifacts: seq<Artifact>): seq<Entry> {
    if artifacts == [] then [] else Archived(artifacts[..|artifacts| - 1]) + [Archive(artifacts[|artifacts| - 1])]
  }

  /** The evidence files that are no packaged artifacts. */
  ghost function RetainedOf(b: Build, evidence: seq<Evidence>): seq<Entry> {
    if evidence == [] then []
    else
      var n := |evidence| - 1;
      RetainedOf(b, evidence[..n]) + (if Packaged(b, evidence[n]) then [] else [Retained(b, evidence[n])])
  }

  ghost function EntriesOf(b: Build): seq<Entry> {
    (Archived(b.artifacts) + RetainedOf(b, b.evidence)) + [Reported(b)]
  }

  ghost function Entries(builds: seq<Build>): seq<Entry> {
    if builds == [] then [] else Entries(builds[..|builds| - 1]) + EntriesOf(builds[|builds| - 1])
  }

  /** The inventory of a list of entries. */
  ghost function Filing(entries: seq<Entry>): map<string, Record> {
    if entries == [] then map[]
    else
      var record := entries[|entries| - 1].Filed();
      Filing(entries[..|entries| - 1])[record.name := record]
  }

  /** An entry may take a name that an earlier one has: a report always, an npm root if it is the
      same as all of them. */
  ghost predicate MayFollow(earlier: Entry, later: Entry) {
    later.Reported? ||
    (earlier.Archive? && later.Archive? && later.artifact.kind.NpmMeta? && earlier.Filed() == later.Filed())
  }

  ghost predicate NoCollision(entries: seq<Entry>) {
    forall i, j :: 0 <= i < j < |entries| && entries[i].Filed().name == entries[j].Filed().name ==> MayFollow(entries[i], entries[j])
  }

  // ---------------------------------------------------------------- one build by itself

  /** Up to 181 letters, digits, dots, underscores and dashes, a letter or digit first, no two dots. */
  ghost predicate IsSafe(s: string) {
    && 1 <= |s| <= 181 && s[0] !in {'.', '_', '-'} && SafeChars(s) && SingleDots(s)
  }

  ghost predicate SafeChars(s: string) {
    forall c :: c in s ==> 'A' <= c <= 'Z' || 'a' <= c <= 'z' || '0' <= c <= '9' || c in {'.', '_', '-'}
  }

  ghost predicate SingleDots(s: string) {
    forall i :: 0 < i < |s| ==> s[i - 1] != '.' || s[i] != '.'
  }

  ghost predicate OnlyOne(artifacts: seq<Artifact>, kind: Kind, implementation: Implementation) {
    exists i :: 0 <= i < |artifacts| && Fits(artifacts[i], kind, implementation) &&
      forall j :: 0 <= j < |artifacts| && Fits(artifacts[j], kind, implementation) ==> j == i
  }

  predicate Fits(a: Artifact, kind: Kind, implementation: Implementation) {
    a.kind == kind && a.implementation == implementation
  }

  /** Two standalone archives, one npm package for the platform and one npm root for all. */
  ghost predicate FourArtifacts(b: Build) {
    && |b.artifacts| == 4
    && OnlyOne(b.artifacts, StandaloneArchive, Bun) && OnlyOne(b.artifacts, StandaloneArchive, Rust)
    && OnlyOne(b.artifacts, NpmPlatform, Bun) && OnlyOne(b.artifacts, NpmMeta, Bun)
    && forall a :: a in b.artifacts ==> if a.kind.NpmMeta? then a.platform == None else a.platform == Some(b.platform)
  }

  ghost function Mandatory(platform: string): seq<string> {
    ["built-bun.json", "built-rust.json", "installed-bun.json", "installed-rust.json", "installed-npm.json"] +
    ["installed-sdk-bun.json", "installed-sdk-tools-bun.json", "installed-sdk-rust.json", "installed-sdk-tools-rust.json",
     "installed-sdk-npm.json", "installed-sdk-tools-npm.json"] +
    ["producer-command-logs.json", "installed-sdk-payloads.json"] +
    (if "darwin-" <= platform then ["sdk-code-signatures.json", "sdk-collect.toc"] else ["sdk-linux-runtime.json"])
  }

  ghost function Forbidden(platform: string): seq<string> {
    if "darwin-" <= platform then ["sdk-linux-runtime.json"] else ["sdk-code-signatures.json", "sdk-collect.toc"]
  }

  ghost predicate EvidencePresent(b: Build) {
    && (exists e :: e in b.evidence && e.inPackage && e.name == "release-manifest.json")
    && (forall name :: name in Mandatory(b.platform) ==> exists e :: e in b.evidence && !e.inPackage && e.name == name)
    && (forall e :: e in b.evidence && !e.inPackage ==>
          e.name !in Forbidden(b.platform) && "logs/" + e.name !in CommandLogs.Originals(b.platform))
  }

  /** Everything asked of a build but that its names are free. */
  ghost predicate Genuine(b: Build) {
    && b.verified && FourArtifacts(b) && EvidencePresent(b)
    && CommandLogs.IsRevision(b.source) && CommandLogs.IsReleaseName(b.version)
    && (forall a :: a in b.artifacts ==> IsSafe(a.path) && Evidence(true, a.path, a.sha256, a.byteLength) in b.evidence)
    && (forall e :: e in b.evidence ==> IsSafe(e.name) && (!Packaged(b, e) ==> IsSafe(EvidenceRecord(b, e).name)))
  }

  // ---------------------------------------------------------------- all builds

  ghost predicate OneRelease(builds: seq<Build>) {
    && (forall b :: b in builds ==> b.platform in {"darwin-arm64", "darwin-x64", "linux-arm64-gnu", "linux-x64-gnu"})
    && (forall i, j :: 0 <= i < j < |builds| ==> builds[i].platform != builds[j].platform)
    && (forall b, c :: b in builds && c in builds ==> b.version == c.version && b.source == c.source)
  }

  /** The builds are those of one release, genuine and without collisions. */
  ghost predicate Mergeable(builds: seq<Build>) {
    OneRelease(builds) && (forall b :: b in builds ==> Genuine(b)) && NoCollision(Entries(builds))
  }

  ghost predicate Acceptable(builds: seq<Build>) {
    |builds| == 4 && Mergeable(builds)
  }

  /** Room for two more files and the sixteen of the live evidence, none of which is there, and
      thirteen archives. */
  ghost predicate Complete(inventory: map<string, Record>, live: Option<set<string>>) {
    && |inventory| <= 110 && |set name | name in inventory && inventory[name].kind != EvidenceFile| == 13
    && "SHA256SUMS" !in inventory && "kernel-rc-release-evidence.json" !in inventory
    && match live
       case None => forall name :: name in inventory ==> !("live-bun-" <= name || "live-rust-" <= name)
       case Some(names) => |names| == 16 && forall name :: name in names ==> name !in inventory
  }

  // ---------------------------------------------------------------- filing

  ghost predicate LastOf(entries: seq<Entry>, name: string, k: int) {
    0 <= k < |entries| && entries[k].Filed().name == name && forall j :: k < j < |entries| ==> entries[j].Filed().name != name
  }

  lemma {:induction false} FilingMeaning(entries: seq<Entry>, name: string)
    ensures name in Filing(entries) ==> exists k :: LastOf(entries, name, k) && Filing(entries)[name] == entries[k].Filed()
    ensures name !in Filing(entries) ==> forall k :: 0 <= k < |entries| ==> entries[k].Filed().name != name
  {
    if entries != [] {
      var n := |entries| - 1;
      FilingMeaning(entries[..n], name);
      if entries[n].Filed().name == name {
        assert LastOf(entries, name, n);
      } else if name in Filing(entries) {
        var k :| LastOf(entries[..n], name, k) && Filing(entries[..n])[name] == entries[..n][k].Filed();
        assert LastOf(entries, name, k);
      }
    }
  }

  lemma {:induction false} FilingMore(entries: seq<Entry>, x: Entry)
    ensures Filing(entries + [x]) == Filing(entries)[x.Filed().name := x.Filed()]
  {
    assert (entries + [x])[..|entries|] == entries;
  }

  lemma {:induction false} NoCollisionFront(entries: seq<Entry>, more: seq<Entry>)
    requires NoCollision(entries + more)
    ensures NoCollision(entries)
  {
    forall i, j | 0 <= i < j < |entries| && entries[i].Filed().name == entries[j].Filed().name
      ensures MayFollow(entries[i], entries[j])
    {
      assert (entries + more)[i] == entries[i] && (entries + more)[j] == entries[j];
    }
  }

  lemma {:induction false} NoCollisionMore(entries: seq<Entry>, x: Entry)
    requires NoCollision(entries)
    ensures NoCollision(entries + [x]) <==>
            forall i :: 0 <= i < |entries| && entries[i].Filed().name == x.Filed().name ==> MayFollow(entries[i], x)
  {
    var all := entries + [x];
    if NoCollision(all) {
      forall i | 0 <= i < |entries| && entries[i].Filed().name == x.Filed().name ensures MayFollow(entries[i], x) {
        assert all[i] == entries[i] && all[|entries|] == x;
      }
    }
  }

  /** When one more artifact may be filed. */
  lemma {:induction false} ArchiveFits(entries: seq<Entry>, a: Artifact)
    requires NoCollision(entries)
    ensures NoCollision(entries + [Archive(a)]) <==>
            (a.path in Filing(entries) ==> a.kind.NpmMeta? && Filing(entries)[a.path] == RecordOf(a))
  {
    hide Filing, EvidenceRecord, ReportRecord;
    var x := Archive(a);
    NoCollisionMore(entries, x);
    FilingMeaning(entries, a.path);
    if a.path in Filing(entries) {
      var k :| LastOf(entries, a.path, k) && Filing(entries)[a.path] == entries[k].Filed();
      if NoCollision(entries + [x]) { assert MayFollow(entries[k], x); }
      if a.kind.NpmMeta? && entries[k].Filed() == RecordOf(a) {
        assert entries[k].Archive? by { KindsDiffer(entries[k], a); }
        forall i | 0 <= i < |entries| && entries[i].Filed().name == a.path ensures MayFollow(entries[i], x) {
          if i < k { assert MayFollow(entries[i], entries[k]); }
        }
      }
    }
  }

  lemma {:induction false} KindsDiffer(x: Entry, a: Artifact)
    requires x.Filed() == RecordOf(a)
    ensures x.Archive?
  {
  }

  /** When one more file may be filed: only under a new name. */
  lemma {:induction false} RetainedFits(entries: seq<Entry>, b: Build, e: Evidence)
    requires NoCollision(entries)
    ensures NoCollision(entries + [Retained(b, e)]) <==> EvidenceRecord(b, e).name !in Filing(entries)
  {
    hide Filing, EvidenceRecord, ReportRecord;
    var name := EvidenceRecord(b, e).name;
    NoCollisionMore(entries, Retained(b, e));
    FilingMeaning(entries, name);
    if name in Filing(entries) {
      var k :| LastOf(entries, name, k) && Filing(entries)[name] == entries[k].Filed();
      assert !MayFollow(entries[k], Retained(b, e));
    }
  }

  // ---------------------------------------------------------------- the checks

  lemma {:induction false} SingleDotsMore(c: char, s: string)
    ensures SingleDots([c] + s) <==> SingleDots(s) && (s != [] ==> c != '.' || s[0] != '.')
  {
    var t := [c] + s;
    if SingleDots(t) {
      forall i | 0 < i < |s| ensures s[i - 1] != '.' || s[i] != '.' { assert t[i + 1 - 1] == s[i - 1] && t[i + 1] == s[i]; }
      if s != [] { assert t[1 - 1] == c && t[1] == s[0]; }
    }
    if SingleDots(s) && (s != [] ==> c != '.' || s[0] != '.') {
      forall i | 0 < i < |t| ensures t[i - 1] != '.' || t[i] != '.' {
        if i > 1 { assert s[i - 1 - 1] == t[i - 1] && s[i - 1] == t[i]; }
      }
    }
  }

  lemma {:induction false} SafeCharsMore(c: char, s: string)
    ensures SafeChars([c] + s) <==> SafeChars([c]) && SafeChars(s)
  {
    assert forall x :: x in [c] + s <==> x in [c] || x in s;
  }

  lemma {:induction false} SafeTailMeaning(s: string)
    ensures SafeTail(s) <==> SafeChars(s) && SingleDots(s)
  {
    if s != [] {
      SafeTailMeaning(s[1..]);
      SafeTailStep(s[0], s[1..]);
      assert s == [s[0]] + s[1..];
    }
  }

  lemma {:induction false} SafeTailStep(c: char, s: string)
    requires SafeTail(s) <==> SafeChars(s) && SingleDots(s)
    ensures SafeTail([c] + s) <==> SafeChars([c] + s) && SingleDots([c] + s)
  {
    hide SingleDots;
    SingleDotsMore(c, s);
    SafeCharsMore(c, s);
    assert ([c] + s)[1..] == s;
    assert c in [c];
    assert s != [] ==> ([c] + s)[1] == s[0];
  }

  lemma {:induction false} SafeMeaning(s: string)
    ensures SafeName(s) <==> IsSafe(s)
  {
    hide SafeTail;
    SafeTailMeaning(s);
    if s != [] { assert s[0] in s; }
  }

  lemma {:induction false} CountNone(artifacts: seq<Artifact>, kind: Kind, implementation: Implementation)
    ensures CountKind(artifacts, kind, implementation) == 0 <==>
            forall i :: 0 <= i < |artifacts| ==> !Fits(artifacts[i], kind, implementation)
  {
    if artifacts != [] {
      var n := |artifacts| - 1;
      CountNone(artifacts[..n], kind, implementation);
      assert forall i :: 0 <= i < n ==> artifacts[..n][i] == artifacts[i];
    }
  }

  lemma {:induction false} CountOne(artifacts: seq<Artifact>, kind: Kind, implementation: Implementation, i: nat)
    requires i < |artifacts| && Fits(artifacts[i], kind, implementation)
    requires forall j :: 0 <= j < |artifacts| && Fits(artifacts[j], kind, implementation) ==> j == i
    ensures CountKind(artifacts, kind, implementation) == 1
  {
    var n := |artifacts| - 1;
    var front := artifacts[..n];
    assert forall j :: 0 <= j < n ==> front[j] == artifacts[j];
    if i == n { CountNone(front, kind, implementation); } else { CountOne(front, kind, implementation, i); }
  }

  lemma {:induction false} CountMeaning(artifacts: seq<Artifact>, kind: Kind, implementation: Implementation)
    ensures CountKind(artifacts, kind, implementation) == 1 <==> OnlyOne(artifacts, kind, implementation)
  {
    hide CountKind;
    if CountKind(artifacts, kind, implementation) == 1 {
      KindIsThere(artifacts, kind, implementation);
      var i :| 0 <= i < |artifacts| && artifacts[i].kind == kind && artifacts[i].implementation == implementation;
      assert Fits(artifacts[i], kind, implementation);
      forall j | 0 <= j < |artifacts| && Fits(artifacts[j], kind, implementation) ensures j == i {
        if j < i { KindTwice(artifacts, j, i); }
        if i < j { KindTwice(artifacts, i, j); }
      }
    }
    if OnlyOne(artifacts, kind, implementation) {
      var i :| 0 <= i < |artifacts| && Fits(artifacts[i], kind, implementation) &&
        forall j :: 0 <= j < |artifacts| && Fits(artifacts[j], kind, implementation) ==> j == i;
      CountOne(artifacts, kind, implementation, i);
    }
  }

  lemma {:induction false} CoverageMeaning(b: Build)
    ensures NativeCoverage(b.artifacts, b.platform) <==> FourArtifacts(b)
  {
    hide CountKind, OnlyOne;
    var artifacts := b.artifacts;
    CountMeaning(artifacts, NpmMeta, Bun);
    CountMeaning(artifacts, NpmPlatform, Bun);
    CountMeaning(artifacts, StandaloneArchive, Bun);
    CountMeaning(artifacts, StandaloneArchive, Rust);
    if FourArtifacts(b) {
      forall i | 0 <= i < |artifacts| ensures artifacts[i].platform == if artifacts[i].kind.NpmMeta? then None else Some(b.platform) {
        assert artifacts[i] in artifacts;
      }
    }
  }

  lemma {:induction false} EntryMeaning(evidence: seq<Evidence>, inPackage: bool, name: string)
    ensures HasEntry(evidence, inPackage, name) <==> exists e :: e in evidence && e.inPackage == inPackage && e.name == name
  {
    if HasEntry(evidence, inPackage, name) {
      var i :| 0 <= i < |evidence| && evidence[i].inPackage == inPackage && evidence[i].name == name;
      assert evidence[i] in evidence;
    }
    if exists e :: e in evidence && e.inPackage == inPackage && e.name == name {
      var e :| e in evidence && e.inPackage == inPackage && e.name == name;
      var i :| 0 <= i < |evidence| && evidence[i] == e;
    }
  }

  lemma {:induction false} LogLists(platform: string)
    ensures RequiredLogs(platform) == Mandatory(platform) && ForeignLogs(platform) == Forbidden(platform)
  {
  }

  lemma {:induction false} PresenceMeaning(b: Build)
    ensures EvidenceComplete(b.platform, b.evidence) <==> EvidencePresent(b)
  {
    hide HasEntry, RequiredLogs, Mandatory, ForeignLogs, Forbidden, CommandLogs.MembersOf, CommandLogs.Originals;
    LogLists(b.platform);
    CommandLogs.MembersAreOriginals(b.platform);
    forall inPackage, name
      ensures HasEntry(b.evidence, inPackage, name) <==> exists e :: e in b.evidence && e.inPackage == inPackage && e.name == name
    {
      EntryMeaning(b.evidence, inPackage, name);
    }
    var required := RequiredLogs(b.platform);
    if forall i :: 0 <= i < |required| ==> HasEntry(b.evidence, false, required[i]) {
      forall name | name in required ensures HasEntry(b.evidence, false, name) {
        var i :| 0 <= i < |required| && required[i] == name;
      }
    }
    if EvidenceComplete(b.platform, b.evidence) {
      forall e | e in b.evidence && !e.inPackage
        ensures e.name !in ForeignLogs(b.platform) && "logs/" + e.name !in CommandLogs.MembersOf(b.platform)
      {
        var i :| 0 <= i < |b.evidence| && b.evidence[i] == e;
      }
    }
    if EvidencePresent(b) {
      forall i | 0 <= i < |required| ensures HasEntry(b.evidence, false, required[i]) {
        assert required[i] in required;
      }
      forall i | 0 <= i < |b.evidence| && !b.evidence[i].inPackage
        ensures b.evidence[i].name !in ForeignLogs(b.platform) && "logs/" + b.evidence[i].name !in CommandLogs.MembersOf(b.platform)
      {
        assert b.evidence[i] in b.evidence;
      }
    }
  }

  // ---------------------------------------------------------------- one build

  ghost predicate ArtifactOk(a: Artifact, evidence: seq<Evidence>) {
    IsSafe(a.path) && Evidence(true, a.path, a.sha256, a.byteLength) in evidence && !a.kind.Unknown?
  }

  ghost predicate EvidenceOk(b: Build, e: Evidence) {
    IsSafe(e.name) && (Packaged(b, e) || IsSafe(EvidenceRecord(b, e).name))
  }

  lemma {:induction false} AddArtifactMeaning(entries: seq<Entry>, a: Artifact, evidence: seq<Evidence>)
    requires NoCollision(entries)
    ensures AddArtifact(Filing(entries), a, evidence) ==
            if ArtifactOk(a, evidence) && NoCollision(entries + [Archive(a)]) then Some(Filing(entries + [Archive(a)])) else None
  {
    hide Filing, NoCollision, SafeName, IsSafe;
    SafeMeaning(a.path);
    ArchiveFits(entries, a);
    FilingMore(entries, Archive(a));
    var inventory := Filing(entries);
    if a.path in inventory && inventory[a.path] == RecordOf(a) { assert inventory[a.path := RecordOf(a)] == inventory; }
  }

  lemma {:induction false} AddArtifactsMeaning(entries: seq<Entry>, artifacts: seq<Artifact>, evidence: seq<Evidence>)
    requires NoCollision(entries)
    ensures AddArtifacts(Filing(entries), artifacts, evidence) ==
            var all := entries + Archived(artifacts);
            if (forall a :: a in artifacts ==> ArtifactOk(a, evidence)) && NoCollision(all) then Some(Filing(all)) else None
  {
    hide Filing, NoCollision, AddArtifact, ArtifactOk;
    if artifacts == [] {
      assert entries + [] == entries;
    } else {
      var n := |artifacts| - 1;
      var front, x := entries + Archived(artifacts[..n]), Archive(artifacts[n]);
      AddArtifactsMeaning(entries, artifacts[..n], evidence);
      assert entries + Archived(artifacts) == front + [x];
      assert artifacts == artifacts[..n] + [artifacts[n]];
      assert forall a :: a in artifacts <==> a in artifacts[..n] || a == artifacts[n];
      if NoCollision(front + [x]) { NoCollisionFront(front, [x]); }
      if NoCollision(front) { AddArtifactMeaning(front, artifacts[n], evidence); }
    }
  }

  lemma {:induction false} AddEvidenceMeaning(entries: seq<Entry>, b: Build, e: Evidence)
    requires NoCollision(entries)
    ensures var more := if Packaged(b, e) then [] else [Retained(b, e)];
      AddEvidence(Filing(entries), b.platform, e, ArtifactNames(b.artifacts)) ==
      if EvidenceOk(b, e) && NoCollision(entries + more) then Some(Filing(entries + more)) else None
  {
    hide Filing, NoCollision, SafeName, IsSafe, Packaged, EvidenceRecord, ArtifactNames;
    SafeMeaning(e.name);
    PackagedIsName(b, e);
    if Packaged(b, e) {
      assert entries + [] == entries;
    } else {
      AssetIs(b, e);
      SafeMeaning(EvidenceRecord(b, e).name);
      RetainedFits(entries, b, e);
      FilingMore(entries, Retained(b, e));
      RecordParts(b, e);
    }
  }

  lemma {:induction false} RecordParts(b: Build, e: Evidence)
    ensures EvidenceRecord(b, e) == Record(EvidenceRecord(b, e).name, e.sha256, e.byteLength, EvidenceFile, b.platform, Shared)
  {
  }

  lemma {:induction false} AddAllEvidenceMeaning(entries: seq<Entry>, b: Build, evidence: seq<Evidence>)
    requires NoCollision(entries)
    ensures AddAllEvidence(Filing(entries), b.platform, evidence, ArtifactNames(b.artifacts)) ==
            var all := entries + RetainedOf(b, evidence);
            if (forall e :: e in evidence ==> EvidenceOk(b, e)) && NoCollision(all) then Some(Filing(all)) else None
  {
    hide Filing, NoCollision, AddEvidence, EvidenceOk, Packaged, ArtifactNames;
    if evidence == [] {
      assert entries + [] == entries;
    } else {
      var n := |evidence| - 1;
      var e := evidence[n];
      var front, more := entries + RetainedOf(b, evidence[..n]), if Packaged(b, e) then [] else [Retained(b, e)];
      AddAllEvidenceMeaning(entries, b, evidence[..n]);
      assert entries + RetainedOf(b, evidence) == front + more;
      assert evidence == evidence[..n] + [e];
      assert forall x :: x in evidence <==> x in evidence[..n] || x == e;
      if NoCollision(front + more) { NoCollisionFront(front, more); }
      if NoCollision(front) { AddEvidenceMeaning(front, b, e); }
    }
  }

  /** A report never collides with what was filed before it. */
  lemma {:induction false} ReportedFits(entries: seq<Entry>, b: Build)
    requires NoCollision(entries)
    ensures NoCollision(entries + [Reported(b)])
  {
    NoCollisionMore(entries, Reported(b));
  }

  lemma {:induction false} KindsAreKnown(b: Build)
    requires FourArtifacts(b)
    ensures forall a :: a in b.artifacts ==> !a.kind.Unknown?
  {
    hide CountKind;
    CoverageMeaning(b);
    NoOtherKind(b.artifacts);
    forall a | a in b.artifacts ensures !a.kind.Unknown? {
      var i :| 0 <= i < |b.artifacts| && b.artifacts[i] == a;
    }
  }

  lemma {:induction false} GenuineParts(b: Build)
    ensures Genuine(b) <==>
            && b.verified && HeadersOk(b) && NativeCoverage(b.artifacts, b.platform) && EvidenceComplete(b.platform, b.evidence)
            && (forall a :: a in b.artifacts ==> ArtifactOk(a, b.evidence)) && (forall e :: e in b.evidence ==> EvidenceOk(b, e))
  {
    hide FourArtifacts, NativeCoverage, EvidenceComplete, EvidencePresent, IsHex, CommandLogs.IsVersion, CommandLogs.IsRevision,
      CommandLogs.IsReleaseName, IsSafe, Packaged, EvidenceRecord;
    CommandLogs.VersionMeaning(b.version);
    CommandLogs.RevisionMeaning(b.source);
    CoverageMeaning(b);
    PresenceMeaning(b);
    if FourArtifacts(b) { KindsAreKnown(b); }
  }

  /** One merge files the entries of a genuine build, and refuses every other build and collision. */
  lemma {:induction false} MergeMeaning(entries: seq<Entry>, b: Build)
    requires NoCollision(entries)
    ensures Merge(Filing(entries), b) ==
            var all := entries + EntriesOf(b);
            if Genuine(b) && NoCollision(all) then Some(Filing(all)) else None
  {
    hide Filing, NoCollision, Genuine, HeadersOk, NativeCoverage, EvidenceComplete, ArtifactOk, EvidenceOk, AddArtifacts,
      AddAllEvidence, ArtifactNames, Archived, RetainedOf;
    var archives, retained := Archived(b.artifacts), RetainedOf(b, b.evidence);
    var middle := entries + archives;
    var last := middle + retained;
    GenuineParts(b);
    assert entries + EntriesOf(b) == last + [Reported(b)];
    AddArtifactsMeaning(entries, b.artifacts, b.evidence);
    if NoCollision(last) {
      NoCollisionFront(middle, retained);
      ReportedFits(last, b);
    }
    if NoCollision(last + [Reported(b)]) { NoCollisionFront(last, [Reported(b)]); }
    if NoCollision(middle) { AddAllEvidenceMeaning(middle, b, b.evidence); }
    FilingMore(last, Reported(b));
    assert ReportName(b.platform) == ReportRecord(b).name;
  }

  // ---------------------------------------------------------------- the whole assembly

  lemma {:induction false} ReleaseMore(builds: seq<Build>, b: Build)
    ensures OneRelease(builds + [b]) <==>
            && OneRelease(builds) && b.platform in PLATFORMS && b.platform !in PlatformsOf(builds)
            && (builds != [] ==> b.version == builds[0].version && b.source == builds[0].source)
  {
    var all := builds + [b];
    assert all[|builds|] == b;
    assert forall c :: c in all <==> c in builds || c == b;
    assert builds != [] ==> builds[0] in builds;
    if OneRelease(all) {
      forall i, j | 0 <= i < j < |builds| ensures builds[i].platform != builds[j].platform {
        assert all[i] == builds[i] && all[j] == builds[j];
      }
      forall i | 0 <= i < |builds| ensures builds[i].platform != b.platform {
        assert all[i] == builds[i] && all[|builds|] == b;
      }
    }
    if OneRelease(builds) && b.platform !in PlatformsOf(builds) {
      forall i, j | 0 <= i < j < |all| ensures all[i].platform != all[j].platform {
        assert all[i] in builds;
      }
    }
  }

  lemma {:induction false} MergeableMore(builds: seq<Build>, b: Build)
    ensures Mergeable(builds + [b]) <==>
            && Mergeable(builds) && b.platform in PLATFORMS && b.platform !in PlatformsOf(builds)
            && (builds != [] ==> b.version == builds[0].version && b.source == builds[0].source)
            && Genuine(b) && NoCollision(Entries(builds) + EntriesOf(b))
    ensures Entries(builds + [b]) == Entries(builds) + EntriesOf(b)
  {
    hide NoCollision, Genuine, OneRelease, EntriesOf, PLATFORMS, PlatformsOf;
    var all := builds + [b];
    assert all[..|builds|] == builds && all[|builds|] == b;
    assert forall c :: c in all <==> c in builds || c == b;
    ReleaseMore(builds, b);
    if NoCollision(Entries(builds) + EntriesOf(b)) { NoCollisionFront(Entries(builds), EntriesOf(b)); }
  }

  lemma {:induction false} MergeAllStep(builds: seq<Build>, b: Build)
    requires MergeAll(builds) == if Mergeable(builds) then Some(Filing(Entries(builds))) else None
    ensures MergeAll(builds + [b]) == if Mergeable(builds + [b]) then Some(Filing(Entries(builds + [b]))) else None
  {
    hide Filing, NoCollision, Genuine, Merge, OneRelease, EntriesOf, Entries, PLATFORMS, PlatformsOf;
    var all := builds + [b];
    assert all[..|builds|] == builds && all[|builds|] == b;
    assert all[0] == if builds == [] then b else builds[0];
    MergeableMore(builds, b);
    if Mergeable(builds) { MergeMeaning(Entries(builds), b); }
  }

  lemma {:induction false} MergeAllMeaning(builds: seq<Build>)
    ensures MergeAll(builds) == if Mergeable(builds) then Some(Filing(Entries(builds))) else None
  {
    hide Filing, Mergeable, Merge, Entries, PLATFORMS, PlatformsOf;
    if builds == [] {
      NothingToMerge();
    } else {
      var n := |builds| - 1;
      assert builds == builds[..n] + [builds[n]];
      MergeAllMeaning(builds[..n]);
      MergeAllStep(builds[..n], builds[n]);
    }
  }

  lemma {:induction false} NothingToMerge()
    ensures Mergeable([]) && Filing(Entries([])) == map[]
  {
  }

  lemma {:induction false} CompleteMeaning(inventory: map<string, Record>, live: Option<set<string>>)
    ensures InventoryOk(inventory, live) <==> Complete(inventory, live)
  {
    assert Archives(inventory) == set name | name in inventory && inventory[name].kind != EvidenceFile;
    if live.Some? {
      assert live.value !! inventory.Keys <==> forall name :: name in live.value ==> name !in inventory;
    }
  }

  /** The assembly succeeds exactly for four genuine builds of one release without collisions whose
      entries make a complete inventory, and gives that inventory. */
  lemma {:induction false} AssembledMeaning(builds: seq<Build>, live: Option<set<string>>)
    ensures Assembled(builds, live) ==
            var inventory := Filing(Entries(builds));
            if Acceptable(builds) && Complete(inventory, live) then Some(inventory) else None
  {
    hide MergeAll, InventoryOk, Complete, Filing, Mergeable, Entries;
    MergeAllMeaning(builds);
    CompleteMeaning(Filing(Entries(builds)), live);
  }
}
