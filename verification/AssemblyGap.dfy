/** A concrete assembly that is accepted with thirteen archives although one runner is missing: the
    first build names a standalone archive like its own report, and the fourth brings an npm root of
    its own.  Every build has all mandatory evidence. */
module AssemblyGap {
  import opened Assembly
  import CommandLogs
  import opened Platforms
  import opened PythonText
  import opened Sequences
  import opened Wrappers

  // ---------------------------------------------------------------- the logs of a build

  /** All logs of both kinds of platform, by length and then by the eighth character from the end. */
  const ALL_LOGS := [
    "built-bun.json", "sdk-collect.toc", "built-rust.json", "installed-bun.json", "installed-npm.json",
    "installed-rust.json", "installed-sdk-bun.json", "sdk-linux-runtime.json", "installed-sdk-npm.json",
    "installed-sdk-rust.json", "sdk-code-signatures.json", "producer-command-logs.json", "installed-sdk-payloads.json",
    "installed-sdk-tools-bun.json", "installed-sdk-tools-npm.json", "installed-sdk-tools-rust.json"]

  function Without<T>(s: seq<T>, k: nat): seq<T>
    requires k < |s|
  {
    s[..k] + s[k + 1..]
  }

  function Logs(platform: string): seq<string> {
    if IsDarwin(platform) then Without(ALL_LOGS, 7) else Without(Without(ALL_LOGS, 10), 1)
  }

  function Key(s: string): int
    requires |s| >= 8
  {
    256 * |s| + s[|s| - 8] as int
  }

  lemma {:induction false} LogKeys()
    ensures |ALL_LOGS| == 16 && forall i :: 0 <= i < |ALL_LOGS| ==> |ALL_LOGS[i]| >= 8
    ensures forall i :: 0 < i < |ALL_LOGS| ==> Key(ALL_LOGS[i - 1]) < Key(ALL_LOGS[i])
  {
  }

  lemma {:induction false} KeysAscend(s: seq<string>, i: nat, j: nat)
    requires forall k :: 0 <= k < |s| ==> |s[k]| >= 8
    requires forall k :: 0 < k < |s| ==> Key(s[k - 1]) < Key(s[k])
    requires i < j < |s|
    ensures Key(s[i]) < Key(s[j])
  {
    hide Key;
    if i + 1 < j { KeysAscend(s, i, j - 1); }
  }

  lemma {:induction false} AllLogsDiffer()
    ensures Distinct(ALL_LOGS)
  {
    hide ALL_LOGS, Key;
    LogKeys();
    forall i, j | 0 <= i < j < |ALL_LOGS| ensures ALL_LOGS[i] != ALL_LOGS[j] { KeysAscend(ALL_LOGS, i, j); }
  }

  lemma {:induction false} WithoutHolds<T>(s: seq<T>, k: nat)
    requires k < |s| && Distinct(s)
    ensures Distinct(Without(s, k)) && s[k] !in Without(s, k)
    ensures forall x :: x in Without(s, k) <==> x in s && x != s[k]
  {
    var t := Without(s, k);
    assert forall i :: 0 <= i < |t| ==> t[i] == if i < k then s[i] else s[i + 1];
    forall x | x in s && x != s[k] ensures x in t {
      var i :| 0 <= i < |s| && s[i] == x;
      assert t[if i < k then i else i - 1] == x;
    }
  }

  lemma {:induction false} LogsHold(platform: string)
    ensures Distinct(Logs(platform))
    ensures forall x :: x in Logs(platform) <==> x in ALL_LOGS && x !in ForeignLogs(platform)
  {
    hide ALL_LOGS, IsDarwin;
    AllLogsDiffer();
    ForeignAre();
    LogKeys();
    if IsDarwin(platform) {
      WithoutHolds(ALL_LOGS, 7);
    } else {
      WithoutHolds(ALL_LOGS, 10);
      assert Without(ALL_LOGS, 10)[1] == ALL_LOGS[1];
      WithoutHolds(Without(ALL_LOGS, 10), 1);
    }
  }

  lemma {:induction false} ForeignAre()
    ensures |ALL_LOGS| == 16 && LINUX_LOGS == [ALL_LOGS[7]] && MAC_LOGS == [ALL_LOGS[10], ALL_LOGS[1]]
  {
  }

  lemma {:induction false} RequiredAreLogs(platform: string)
    ensures forall i :: 0 <= i < |RequiredLogs(platform)| ==> RequiredLogs(platform)[i] in ALL_LOGS
    ensures forall i :: 0 <= i < |RequiredLogs(platform)| ==> RequiredLogs(platform)[i] !in ForeignLogs(platform)
  {
    hide IsDarwin, ALL_LOGS, Key;
    LogPlaces();
    AllLogsDiffer();
    assert LINUX_LOGS == [ALL_LOGS[7]] && MAC_LOGS == [ALL_LOGS[10], ALL_LOGS[1]];
  }

  lemma {:induction false} LogPlaces()
    ensures |ALL_LOGS| == 16 && LINUX_LOGS == [ALL_LOGS[7]] && MAC_LOGS == [ALL_LOGS[10], ALL_LOGS[1]]
    ensures CHECK_LOGS == [ALL_LOGS[0], ALL_LOGS[2], ALL_LOGS[3], ALL_LOGS[5], ALL_LOGS[4]]
    ensures PROBE_LOGS == [ALL_LOGS[6], ALL_LOGS[13], ALL_LOGS[9], ALL_LOGS[15], ALL_LOGS[8], ALL_LOGS[14]]
    ensures BUNDLE_LOG == ALL_LOGS[11] && PAYLOAD_LOG == ALL_LOGS[12]
  {
  }

  // ---------------------------------------------------------------- safe names

  lemma {:induction false} SafeAppend(a: string, b: string)
    requires SafeTail(a) && SafeTail(b) && a != [] && a[|a| - 1] != '.'
    ensures SafeTail(a + b)
    decreases |a|
  {
    assert (a + b)[1..] == a[1..] + b;
    if |a| > 1 {
      SafeAppend(a[1..], b);
      assert (a + b)[1] == a[1];
    } else {
      assert a[1..] + b == b;
    }
  }

  /** Letters, digits and dashes. */
  predicate Word(s: string) {
    forall i :: 0 <= i < |s| ==> IsNameChar(s[i]) || s[i] == '-'
  }

  lemma {:induction false} WordIsSafe(s: string)
    requires Word(s)
    ensures SafeTail(s)
  {
    if s != [] { WordIsSafe(s[1..]); }
  }

  lemma {:induction false} WordEnd(s: string)
    requires Word(s) && s != []
    ensures s[|s| - 1] != '.'
  {
  }

  lemma {:induction false} WordJoin(a: string, b: string)
    requires Word(a) && Word(b)
    ensures Word(a + b)
  {
  }

  lemma {:induction false} FileIsSafe(base: string, extension: string)
    requires Word(base) && Word(extension) && base != [] && IsNameChar(base[0])
    requires extension != []
    ensures SafeTail(base + ("." + extension))
  {
    WordIsSafe(base);
    WordIsSafe(extension);
    assert ("." + extension)[1..] == extension;
    SafeAppend(base, "." + extension);
  }

  lemma {:induction false} JsonIsSafe(base: string, name: string)
    requires Word(base) && base != [] && IsNameChar(base[0]) && name == base + ".json"
    ensures SafeTail(name)
  {
    assert "." + "json" == ".json";
    FileIsSafe(base, "json");
  }

  lemma {:induction false} CheckLogsAreSafe()
    ensures SafeTail("built-bun.json") && SafeTail("built-rust.json") && SafeTail("installed-bun.json")
  {
    hide SafeTail;
    JsonIsSafe("built-bun", "built-bun.json");
    JsonIsSafe("built-rust", "built-rust.json");
    JsonIsSafe("installed-bun", "installed-bun.json");
  }

  lemma {:induction false} InstalledLogsAreSafe()
    ensures SafeTail("installed-npm.json") && SafeTail("installed-rust.json")
  {
    hide SafeTail;
    JsonIsSafe("installed-npm", "installed-npm.json");
    JsonIsSafe("installed-rust", "installed-rust.json");
  }

  lemma {:induction false} ProbeLogsAreSafe()
    ensures SafeTail("installed-sdk-bun.json") && SafeTail("installed-sdk-npm.json")
  {
    hide SafeTail;
    JsonIsSafe("installed-sdk-bun", "installed-sdk-bun.json");
    JsonIsSafe("installed-sdk-npm", "installed-sdk-npm.json");
  }

  lemma {:induction false} RustLogsAreSafe()
    ensures SafeTail("installed-sdk-rust.json")
  {
    hide SafeTail;
    JsonIsSafe("installed-sdk-rust", "installed-sdk-rust.json");
  }

  lemma {:induction false} ToolLogsAreSafe()
    ensures SafeTail("installed-sdk-tools-bun.json")
  {
    hide SafeTail;
    JsonIsSafe("installed-sdk-tools-bun", "installed-sdk-tools-bun.json");
  }

  lemma {:induction false} NpmToolLogsAreSafe()
    ensures SafeTail("installed-sdk-tools-npm.json")
  {
    hide SafeTail;
    JsonIsSafe("installed-sdk-tools-npm", "installed-sdk-tools-npm.json");
  }

  lemma {:induction false} RustToolLogsAreSafe()
    ensures SafeTail("installed-sdk-tools-rust.json")
  {
    hide SafeTail;
    JsonIsSafe("installed-sdk-tools-rust", "installed-sdk-tools-rust.json");
  }

  lemma {:induction false} PlatformLogsAreSafe()
    ensures SafeTail("sdk-linux-runtime.json")
  {
    hide SafeTail;
    JsonIsSafe("sdk-linux-runtime", "sdk-linux-runtime.json");
  }

  lemma {:induction false} SignatureLogsAreSafe()
    ensures SafeTail("sdk-code-signatures.json")
  {
    hide SafeTail;
    JsonIsSafe("sdk-code-signatures", "sdk-code-signatures.json");
  }

  lemma {:induction false} BundleLogsAreSafe()
    ensures SafeTail("producer-command-logs.json")
  {
    hide SafeTail;
    JsonIsSafe("producer-command-logs", "producer-command-logs.json");
  }

  lemma {:induction false} PayloadLogsAreSafe()
    ensures SafeTail("installed-sdk-payloads.json")
  {
    hide SafeTail;
    JsonIsSafe("installed-sdk-payloads", "installed-sdk-payloads.json");
  }

  lemma {:induction false} ManifestNameIsSafe()
    ensures SafeTail("release-manifest.json")
  {
    hide SafeTail;
    JsonIsSafe("release-manifest", "release-manifest.json");
  }

  lemma {:induction false} TableOfContentsIsSafe()
    ensures SafeTail("sdk-collect.toc")
  {
    hide SafeTail;
    FileIsSafe("sdk-collect", "toc");
    assert "sdk-collect" + ("." + "toc") == "sdk-collect.toc";
  }

  lemma {:induction false} LogsAreSafe()
    ensures forall i :: 0 <= i < |ALL_LOGS| ==> SafeTail(ALL_LOGS[i])
    ensures SafeTail(MANIFEST)
  {
    hide SafeTail;
    CheckLogsAreSafe();
    InstalledLogsAreSafe();
    ProbeLogsAreSafe();
    RustLogsAreSafe();
    ToolLogsAreSafe();
    NpmToolLogsAreSafe();
    RustToolLogsAreSafe();
    SignatureLogsAreSafe();
    ManifestNameIsSafe();
    PlatformLogsAreSafe();
    BundleLogsAreSafe();
    PayloadLogsAreSafe();
    TableOfContentsIsSafe();
  }

  /** First and last characters: no log is one of the raw command logs. */
  lemma {:induction false} LogEnds()
    ensures forall i :: 0 <= i < |ALL_LOGS| ==>
      8 <= |ALL_LOGS[i]| <= 29 && IsNameChar(ALL_LOGS[i][0]) && ALL_LOGS[i][|ALL_LOGS[i]| - 1] != 'g'
  {
  }

  lemma {:induction false} LogsAreNoCommandLogs(platform: string, name: string)
    requires name != [] && name[|name| - 1] != 'g'
    ensures "logs/" + name !in CommandLogs.MembersOf(platform)
  {
    var path := "logs/" + name;
    assert path[|path| - 1] == name[|name| - 1];
  }

  // ---------------------------------------------------------------- complete builds

  const SOURCE := "0123456789abcdef0123456789abcdef01234567"
  const VERSION := "1.0.0-rc.1"
  const HEX := "0123456789abcdef"

  /** A digest that begins with `tag`, so that different files have different ones. */
  function Digest(tag: char, fill: char): string {
    [tag] + seq(63, i => fill)
  }

  function Pack(a: Artifact): Evidence {
    Evidence(true, a.path, a.sha256, a.byteLength)
  }

  function Archive(name: string, kind: Kind, platform: Option<string>, implementation: Implementation): Artifact
    requires name != []
  {
    Artifact(name, Digest(name[0], 'f'), 1, kind, platform, implementation)
  }

  /** The four artifacts of a build; all but the Rust archive have names of one character. */
  function Artifacts(platform: string, root: char, package: char, bun: char, rust: string): seq<Artifact>
    requires rust != []
  {
    [Archive([root], NpmMeta, None, Bun), Archive([package], NpmPlatform, Some(platform), Bun),
     Archive([bun], StandaloneArchive, Some(platform), Bun), Archive(rust, StandaloneArchive, Some(platform), Rust)]
  }

  /** The retained logs, then the manifest, then the artifacts. */
  function LogEntries(names: seq<string>, fill: char): seq<Evidence> {
    seq(|names|, i requires 0 <= i < |names| => Evidence(false, names[i], Digest(HEX[i % 16], fill), 1))
  }

  function Entries(platform: string, fill: char, artifacts: seq<Artifact>): seq<Evidence>
    requires |artifacts| == 4
  {
    LogEntries(Logs(platform), fill) +
    [Evidence(true, MANIFEST, Digest('f', fill), 1),
     Pack(artifacts[0]), Pack(artifacts[1]), Pack(artifacts[2]), Pack(artifacts[3])]
  }

  predicate NamesDiffer(root: char, package: char, bun: char, rust: string) {
    && root != package && root != bun && package != bun
    && rust != [] && rust != [root] && rust != [package] && rust != [bun] && rust != MANIFEST
  }

  lemma {:induction false} EntriesDiffer(platform: string, fill: char, root: char, package: char, bun: char, rust: string)
    requires NamesDiffer(root, package, bun, rust)
    ensures KeysDiffer(Entries(platform, fill, Artifacts(platform, root, package, bun, rust)))
  {
    hide Logs, Digest;
    LogsHold(platform);
    var s := Artifacts(platform, root, package, bun, rust);
    var e := Entries(platform, fill, s);
    var n := |Logs(platform)|;
    assert |MANIFEST| == 21;
    forall i, j | 0 <= i < j < |e| ensures e[i].inPackage != e[j].inPackage || e[i].name != e[j].name {
      if j < n {
        assert e[i].name == Logs(platform)[i] && e[j].name == Logs(platform)[j];
      } else if i < n {
        assert !e[i].inPackage && e[j].inPackage;
      } else {
        assert e[n..] == [Evidence(true, MANIFEST, Digest('f', fill), 1), Pack(s[0]), Pack(s[1]), Pack(s[2]), Pack(s[3])];
        assert e[i] == e[n..][i - n] && e[j] == e[n..][j - n];
      }
    }
  }

  /** A build with all mandatory evidence, full digests and a full revision. */
  function Sample(platform: string, fill: char, root: char, package: char, bun: char, rust: string): Build
    requires NamesDiffer(root, package, bun, rust)
  {
    var artifacts := Artifacts(platform, root, package, bun, rust);
    EntriesDiffer(platform, fill, root, package, bun, rust);
    Build(platform, VERSION, SOURCE, artifacts, Entries(platform, fill, artifacts), Digest(fill, 'e'), 1, true)
  }

  /** All digests of a build are written out in full. */
  predicate DigestsOk(b: Build) {
    && IsHex(b.reportSha256, 64)
    && (forall i :: 0 <= i < |b.artifacts| ==> IsHex(b.artifacts[i].sha256, 64))
    && (forall i :: 0 <= i < |b.evidence| ==> IsHex(b.evidence[i].sha256, 64))
  }

  predicate HexDigit(c: char) {
    '0' <= c <= '9' || 'a' <= c <= 'f'
  }

  lemma {:induction false} SampleDigests(platform: string, fill: char, root: char, package: char, bun: char, rust: string)
    requires NamesDiffer(root, package, bun, rust) && HexDigit(fill)
    requires HexDigit(root) && HexDigit(package) && HexDigit(bun) && HexDigit(rust[0])
    ensures DigestsOk(Sample(platform, fill, root, package, bun, rust))
  {
    hide Logs, KeysDiffer;
    var b := Sample(platform, fill, root, package, bun, rust);
    var n := |Logs(platform)|;
    forall i | 0 <= i < |b.evidence| ensures IsHex(b.evidence[i].sha256, 64) {
      if i < n {
        assert b.evidence[i] == LogEntries(Logs(platform), fill)[i];
        assert HexDigit(HEX[i % 16]);
      }
    }
  }

  lemma {:induction false} EntryAt(platform: string, fill: char, artifacts: seq<Artifact>, i: nat)
    requires |artifacts| == 4 && i < |Entries(platform, fill, artifacts)|
    ensures var e := Entries(platform, fill, artifacts)[i];
            var n := |Logs(platform)|;
            (i < n && !e.inPackage && e.name == Logs(platform)[i]) || (i == n && e.inPackage && e.name == MANIFEST) ||
            (exists k :: 0 <= k < 4 && i == n + 1 + k && e == Pack(artifacts[k]))
  {
    hide Logs, Digest;
    var n := |Logs(platform)|;
    var k := i - n - 1;
    if k >= 0 { assert Entries(platform, fill, artifacts)[i] == Pack(artifacts[k]); }
  }

  lemma {:induction false} SampleComplete(platform: string, fill: char, artifacts: seq<Artifact>)
    requires |artifacts| == 4
    ensures EvidenceComplete(platform, Entries(platform, fill, artifacts))
    ensures forall k :: 0 <= k < 4 ==> Pack(artifacts[k]) in Entries(platform, fill, artifacts)
  {
    hide Logs, ALL_LOGS, RequiredLogs, ForeignLogs, CommandLogs.MembersOf, Digest, MANIFEST;
    var e := Entries(platform, fill, artifacts);
    var logs := Logs(platform);
    LogsHold(platform);
    RequiredAreLogs(platform);
    LogEnds();
    assert e[|logs|].inPackage && e[|logs|].name == MANIFEST;
    forall k | 0 <= k < 4 ensures Pack(artifacts[k]) in e {
      assert e[|logs| + 1 + k] == Pack(artifacts[k]);
    }
    forall i | 0 <= i < |RequiredLogs(platform)| ensures HasEntry(e, false, RequiredLogs(platform)[i]) {
      assert RequiredLogs(platform)[i] in logs;
      var k :| 0 <= k < |logs| && logs[k] == RequiredLogs(platform)[i];
      assert !e[k].inPackage && e[k].name == logs[k];
    }
    forall i | 0 <= i < |e| && !e[i].inPackage
      ensures e[i].name !in ForeignLogs(platform) && "logs/" + e[i].name !in CommandLogs.MembersOf(platform)
    {
      EntryAt(platform, fill, artifacts, i);
      assert e[i].name in logs;
      assert e[i].name in ALL_LOGS;
      LogsAreNoCommandLogs(platform, e[i].name);
    }
  }

  // ---------------------------------------------------------------- merging one of them

  function Put(inventory: map<string, Record>, a: Artifact): map<string, Record> {
    inventory[a.path := RecordOf(a)]
  }

  /** Four artifacts with different names; only the root may be there already. */
  predicate Addable(inventory: map<string, Record>, s: seq<Artifact>, evidence: seq<Evidence>) {
    && |s| == 4 && s[0].kind.NpmMeta?
    && (forall i :: 0 <= i < 4 ==> SafeName(s[i].path) && !s[i].kind.Unknown? && Pack(s[i]) in evidence)
    && (forall i, j :: 0 <= i < j < 4 ==> s[i].path != s[j].path)
    && (s[0].path in inventory ==> inventory[s[0].path] == RecordOf(s[0]))
    && (forall i :: 1 <= i < 4 ==> s[i].path !in inventory)
  }

  function AllPut(inventory: map<string, Record>, s: seq<Artifact>): map<string, Record>
    requires |s| == 4
  {
    Put(Put(Put(Put(inventory, s[0]), s[1]), s[2]), s[3])
  }

  lemma {:induction false} AddOne(inventory: map<string, Record>, s: seq<Artifact>, i: nat, evidence: seq<Evidence>)
    requires i < |s|
    ensures AddArtifacts(inventory, s[..i], evidence).Some? ==>
              AddArtifacts(inventory, s[..i + 1], evidence) ==
              AddArtifact(AddArtifacts(inventory, s[..i], evidence).value, s[i], evidence)
  {
    hide AddArtifact;
    assert s[..i + 1][..i] == s[..i];
  }

  lemma {:induction false} AddableAdds(inventory: map<string, Record>, s: seq<Artifact>, evidence: seq<Evidence>)
    requires Addable(inventory, s, evidence)
    ensures AddArtifacts(inventory, s, evidence) == Some(AllPut(inventory, s))
  {
    hide SafeName, RecordOf;
    AddOne(inventory, s, 0, evidence);
    AddOne(inventory, s, 1, evidence);
    AddOne(inventory, s, 2, evidence);
    AddOne(inventory, s, 3, evidence);
    assert s[..0] == [] && s[..4] == s;
    var i1 := Put(inventory, s[0]);
    if s[0].path in inventory { assert i1 == inventory; }
    assert AddArtifact(inventory, s[0], evidence) == Some(i1);
    assert AddArtifact(i1, s[1], evidence) == Some(Put(i1, s[1]));
    assert AddArtifact(Put(i1, s[1]), s[2], evidence) == Some(Put(Put(i1, s[1]), s[2]));
  }

  /** Names of one character. */
  function Names(letters: set<char>): set<string> {
    set c | c in letters :: [c]
  }

  /** The archives are those of one character, and all other names begin with one of the platforms. */
  ghost predicate Stage(inventory: map<string, Record>, letters: set<char>, platforms: set<string>, bound: nat) {
    && Archives(inventory) == Names(letters)
    && (forall n :: n in inventory ==> n in Names(letters) || exists p :: p in platforms && Owned(n, p))
    && |inventory| <= bound
  }

  /** An evidence file can be added: its own name is safe, and so is its new name, which is free. */
  predicate EntryOk(inventory: map<string, Record>, platform: string, e: Evidence, names: set<string>) {
    && SafeName(e.name)
    && (Skipped(e, names) || (SafeName(AssetName(platform, e, names)) && AssetName(platform, e, names) !in inventory &&
                              Owned(AssetName(platform, e, names), platform)))
  }

  predicate Skipped(e: Evidence, names: set<string>) {
    e.inPackage && e.name in names
  }

  lemma {:induction false} EvidenceAdds(inventory: map<string, Record>, platform: string, evidence: seq<Evidence>,
                                        names: set<string>) returns (after: map<string, Record>)
    requires forall i :: 0 <= i < |evidence| ==> EntryOk(inventory, platform, evidence[i], names)
    requires forall i, j :: 0 <= i < j < |evidence| && !Skipped(evidence[i], names) && !Skipped(evidence[j], names) ==>
               AssetName(platform, evidence[i], names) != AssetName(platform, evidence[j], names)
    ensures AddAllEvidence(inventory, platform, evidence, names) == Some(after)
    ensures Archives(after) == Archives(inventory) && |after| <= |inventory| + |evidence|
    ensures forall n :: n in inventory ==> n in after && after[n] == inventory[n]
    ensures forall n :: n in after && n !in inventory ==>
              Owned(n, platform) &&
              exists i :: 0 <= i < |evidence| && !Skipped(evidence[i], names) && n == AssetName(platform, evidence[i], names)
  {
    hide SafeName, AssetName, Owned, Archives;
    after := inventory;
    if evidence != [] {
      var n := |evidence| - 1;
      var before := EvidenceAdds(inventory, platform, evidence[..n], names);
      var e := evidence[n];
      assert EntryOk(inventory, platform, e, names);
      after := before;
      if !Skipped(e, names) {
        var name := AssetName(platform, e, names);
        assert name !in before;
        var record := Record(name, e.sha256, e.byteLength, EvidenceFile, platform, Shared);
        after := before[name := record];
        PutEvidence(before, name, record);
        forall m | m in after && m !in inventory
          ensures Owned(m, platform) && exists i :: 0 <= i < |evidence| && !Skipped(evidence[i], names) && m == AssetName(platform, evidence[i], names)
        {
          if m != name {
            var i :| 0 <= i < n && !Skipped(evidence[..n][i], names) && m == AssetName(platform, evidence[..n][i], names);
            assert evidence[i] == evidence[..n][i];
          }
        }
      } else {
        forall m | m in after && m !in inventory
          ensures Owned(m, platform) && exists i :: 0 <= i < |evidence| && !Skipped(evidence[i], names) && m == AssetName(platform, evidence[i], names)
        {
          var i :| 0 <= i < n && !Skipped(evidence[..n][i], names) && m == AssetName(platform, evidence[..n][i], names);
          assert evidence[i] == evidence[..n][i];
        }
      }
    }
  }

  lemma {:induction false} PutEvidence(inventory: map<string, Record>, name: string, record: Record)
    requires record.kind.EvidenceFile?
    ensures Archives(inventory[name := record]) == Archives(inventory) - {name}
    ensures name !in inventory ==> Archives(inventory[name := record]) == Archives(inventory)
    ensures |inventory[name := record]| <= |inventory| + 1
  {
    var after := inventory[name := record];
    assert after.Keys == inventory.Keys + {name};
    assert |after| == |after.Keys| && |inventory| == |inventory.Keys|;
  }

  lemma {:induction false} PutArchive(inventory: map<string, Record>, a: Artifact)
    ensures Archives(Put(inventory, a)) == Archives(inventory) + {a.path}
    ensures |Put(inventory, a)| <= |inventory| + 1
  {
    var after := Put(inventory, a);
    assert after.Keys == inventory.Keys + {a.path};
    assert |after| == |after.Keys| && |inventory| == |inventory.Keys|;
  }

  lemma {:induction false} PlatformIsSafe(platform: string)
    requires platform in PLATFORMS
    ensures Word(platform) && SafeTail(platform) && 10 <= |platform| <= 15 && IsNameChar(platform[0])
  {
    hide SafeTail;
    WordIsSafe(platform);
  }

  /** A platform's name in front of a safe one. */
  lemma {:induction false} PrefixedIsSafe(platform: string, middle: string, name: string)
    requires platform in PLATFORMS && Word(middle) && 0 < |middle| <= 6 && middle[0] == '-'
    requires SafeTail(name) && |name| <= 29
    ensures SafeName((platform + middle) + name) && Owned((platform + middle) + name, platform)
  {
    hide Word, SafeTail, PLATFORMS;
    PlatformIsSafe(platform);
    WordJoin(platform, middle);
    WordIsSafe(platform + middle);
    var front := platform + middle;
    assert front[|front| - 1] != '.' by { WordEnd(middle); }
    SafeAppend(front, name);
    assert (front + name)[0] == platform[0];
    assert front == (platform + "-") + middle[1..];
  }

  lemma {:induction false} ReportFileIsSafe()
    ensures SafeTail("build-report.json") && |"build-report.json"| == 17 && "build-report.json"[0] == 'b'
    ensures "-" + "build-report.json" == "-build-report.json"
  {
    hide SafeTail;
    JsonIsSafe("build-report", "build-report.json");
  }

  lemma {:induction false} ReportIsSafe(platform: string)
    requires platform in PLATFORMS
    ensures SafeName(ReportName(platform)) && Owned(ReportName(platform), platform) && |ReportName(platform)| > 21
    ensures ReportName(platform)[|platform| + 1] == 'b'
  {
    hide SafeTail, SafeName, Owned, Word;
    ReportFileIsSafe();
    var name := "build-report.json";
    assert Word("-") by { DashIsWord(); }
    PrefixedIsSafe(platform, "-", name);
    Associative(platform, "-", name);
    assert ReportName(platform) == (platform + "-") + name;
    PlatformIsSafe(platform);
    assert ((platform + "-") + name)[|platform| + 1] == name[0];
  }

  lemma {:induction false} DashIsWord()
    ensures Word("-")
  {
  }

  /** What may be there when a build is merged, its own artifacts included. */
  ghost predicate Occupied(inventory: map<string, Record>, platform: string) {
    forall n :: n in inventory ==>
      |n| == 1 || n == ReportName(platform) || exists p :: p in PLATFORMS && p != platform && Owned(n, p)
  }

  lemma {:induction false} NewNameIsFree(inventory: map<string, Record>, platform: string, name: string)
    requires Occupied(inventory, platform) && platform in PLATFORMS && Owned(name, platform)
    requires |name| > |platform| + 1 && name[|platform| + 1] != 'b'
    ensures name !in inventory
  {
    ReportIsSafe(platform);
    if name in inventory {
      forall p | p in PLATFORMS && p != platform ensures !Owned(name, p) { OwnedByOne(name, platform, p); }
    }
  }

  lemma {:induction false} EntryIsOk(inventory: map<string, Record>, platform: string, fill: char,
                                     s: seq<Artifact>, i: nat)
    requires platform in PLATFORMS && Occupied(inventory, platform) && |s| == 4
    requires forall k :: 0 <= k < 4 ==> SafeName(s[k].path)
    requires i < |Entries(platform, fill, s)|
    ensures EntryOk(inventory, platform, Entries(platform, fill, s)[i], ArtifactNames(s))
  {
    hide Occupied, SafeTail, Owned, Digest, PLATFORMS, Logs, ALL_LOGS;
    EntryAt(platform, fill, s, i);
    LogsAreSafe();
    LogEnds();
    LogsHold(platform);
    PlatformIsSafe(platform);
    var e := Entries(platform, fill, s)[i];
    var names := ArtifactNames(s);
    var name := AssetName(platform, e, names);
    if !e.inPackage {
      assert e.name in Logs(platform);
      assert e.name in ALL_LOGS;
      PrefixedIsSafe(platform, "-logs-", e.name);
      assert name[|platform| + 1] == 'l';
      NewNameIsFree(inventory, platform, name);
    } else if !Skipped(e, names) {
      PackIsSkipped(s);
      assert e.name == MANIFEST;
      PrefixedIsSafe(platform, "-", e.name);
      assert name[|platform| + 1] == 'r';
      NewNameIsFree(inventory, platform, name);
    } else {
      PackIsSkipped(s);
      ManifestIsSafe();
    }
  }

  lemma {:induction false} ManifestIsSafe()
    ensures SafeName(MANIFEST)
  {
    LogsAreSafe();
  }

  lemma {:induction false} PackIsSkipped(s: seq<Artifact>)
    ensures forall k :: 0 <= k < |s| ==> Skipped(Pack(s[k]), ArtifactNames(s))
  {
    forall k | 0 <= k < |s| ensures s[k].path in ArtifactNames(s) { assert s[k] in s; }
  }

  lemma {:induction false} AssetsDiffer(platform: string, fill: char, s: seq<Artifact>, i: nat, j: nat)
    requires |s| == 4 && i < j < |Entries(platform, fill, s)|
    requires !Skipped(Entries(platform, fill, s)[i], ArtifactNames(s))
    requires !Skipped(Entries(platform, fill, s)[j], ArtifactNames(s))
    ensures AssetName(platform, Entries(platform, fill, s)[i], ArtifactNames(s)) !=
            AssetName(platform, Entries(platform, fill, s)[j], ArtifactNames(s))
  {
    hide Digest, Logs, ALL_LOGS;
    EntryAt(platform, fill, s, i);
    EntryAt(platform, fill, s, j);
    PackIsSkipped(s);
    LogsHold(platform);
    var d, e := Entries(platform, fill, s)[i], Entries(platform, fill, s)[j];
    var front := platform + "-logs-";
    if !e.inPackage {
      assert (front + d.name)[|front|..] == d.name && (front + e.name)[|front|..] == e.name;
    } else {
      assert AssetName(platform, d, ArtifactNames(s))[|platform| + 1] == 'l';
      assert AssetName(platform, e, ArtifactNames(s))[|platform| + 1] == 'r';
    }
  }

  lemma {:induction false} CountOfFour(a: Artifact, b: Artifact, c: Artifact, d: Artifact, kind: Kind,
                                       implementation: Implementation)
    ensures CountKind([a, b, c, d], kind, implementation) == IsOne(a, kind, implementation) + IsOne(b, kind, implementation) +
                                                             IsOne(c, kind, implementation) + IsOne(d, kind, implementation)
  {
    assert [a, b, c, d][..3] == [a, b, c] && [a, b, c][..2] == [a, b] && [a, b][..1] == [a] && [a][..0] == [];
    assert CountKind([a], kind, implementation) == IsOne(a, kind, implementation);
    assert CountKind([a, b], kind, implementation) == IsOne(a, kind, implementation) + IsOne(b, kind, implementation);
  }

  function IsOne(a: Artifact, kind: Kind, implementation: Implementation): nat {
    if a.kind == kind && a.implementation == implementation then 1 else 0
  }

  lemma {:induction false} SampleKinds(platform: string, root: char, package: char, bun: char, rust: string)
    requires rust != []
    ensures NativeCoverage(Artifacts(platform, root, package, bun, rust), platform)
  {
    hide CountKind, Digest;
    var s := Artifacts(platform, root, package, bun, rust);
    CountOfFour(s[0], s[1], s[2], s[3], NpmMeta, Bun);
    CountOfFour(s[0], s[1], s[2], s[3], NpmPlatform, Bun);
    CountOfFour(s[0], s[1], s[2], s[3], StandaloneArchive, Bun);
    CountOfFour(s[0], s[1], s[2], s[3], StandaloneArchive, Rust);
    assert s == [s[0], s[1], s[2], s[3]];
  }

  lemma {:induction false} SampleHeaders()
    ensures IsHex(SOURCE, 40) && CommandLogs.IsVersion(VERSION)
  {
  }

  /** A name for the Rust archive: one character that is new, or the build report's. */
  predicate RustName(rust: string, platform: string, taken: set<char>) {
    rust == ReportName(platform) || (|rust| == 1 && rust[0] !in taken && HexDigit(rust[0]))
  }

  /** What a build adds to the names of one character. */
  function Letters(root: char, package: char, bun: char, rust: string): set<char> {
    {root, package, bun} + (if |rust| == 1 then {rust[0]} else {})
  }

  ghost predicate Mergeable(inventory: map<string, Record>, letters: set<char>, platforms: set<string>, bound: nat,
                            platform: string, root: char, package: char, bun: char, rust: string) {
    && Stage(inventory, letters, platforms, bound) && platforms <= PLATFORMS && platform in PLATFORMS - platforms
    && HexDigit(root) && HexDigit(package) && HexDigit(bun) && RustName(rust, platform, letters + {root, package, bun})
    && package !in letters && bun !in letters && root != package && root != bun && package != bun
    && (root in letters ==> [root] in inventory && inventory[[root]] == RecordOf(Archive([root], NpmMeta, None, Bun)))
  }

  lemma {:induction false} MergeableNames(inventory: map<string, Record>, letters: set<char>, platforms: set<string>,
                                          bound: nat, platform: string, root: char, package: char, bun: char, rust: string)
    requires Mergeable(inventory, letters, platforms, bound, platform, root, package, bun, rust)
    ensures NamesDiffer(root, package, bun, rust)
    ensures SafeName([root]) && SafeName([package]) && SafeName([bun]) && SafeName(rust)
    ensures |rust| == 1 || rust == ReportName(platform)
  {
    ReportIsSafe(platform);
    assert |MANIFEST| == 21 && [root][0] == root && [package][0] == package && [bun][0] == bun;
    LetterIsSafe([root]);
    LetterIsSafe([package]);
    LetterIsSafe([bun]);
    if |rust| == 1 { LetterIsSafe(rust); }
  }

  lemma {:induction false} MergeableStage(inventory: map<string, Record>, letters: set<char>, platforms: set<string>,
                                          bound: nat, platform: string, root: char, package: char, bun: char, rust: string)
    requires Mergeable(inventory, letters, platforms, bound, platform, root, package, bun, rust)
    ensures Stage(inventory, letters, platforms, bound) && rust != []
    ensures platforms <= PLATFORMS && platform in PLATFORMS - platforms
  {
    MergeableNames(inventory, letters, platforms, bound, platform, root, package, bun, rust);
  }

  lemma {:induction false} FourArtifacts(platform: string, root: char, package: char, bun: char, rust: string)
    requires rust != []
    ensures |Artifacts(platform, root, package, bun, rust)| == 4
  {
  }

  lemma {:induction false} LetterIsSafe(name: string)
    requires |name| == 1 && HexDigit(name[0])
    ensures SafeName(name)
  {
  }

  lemma {:induction false} NamesJoin(letters: set<char>, more: set<char>)
    ensures Names(letters + more) == Names(letters) + Names(more)
  {
  }

  lemma {:induction false} CountNames(letters: set<char>)
    ensures |Names(letters)| == |letters|
    decreases letters
  {
    if letters == {} {
      assert Names(letters) == {};
    } else {
      var c :| c in letters;
      CountNames(letters - {c});
      assert letters == (letters - {c}) + {c};
      NamesJoin(letters - {c}, {c});
      assert Names({c}) == {[c]};
      assert [c] !in Names(letters - {c}) by { NamesAreThere(letters - {c}, c); }
    }
  }

  lemma {:induction false} NamesAreThere(letters: set<char>, c: char)
    ensures [c] in Names(letters) <==> c in letters
  {
    if [c] in Names(letters) {
      var d :| d in letters && [d] == [c];
      assert [d][0] == [c][0];
    }
  }

  lemma {:induction false} AllPutHolds(inventory: map<string, Record>, s: seq<Artifact>)
    requires |s| == 4
    ensures Archives(AllPut(inventory, s)) == Archives(inventory) + {s[0].path, s[1].path, s[2].path, s[3].path}
    ensures |AllPut(inventory, s)| <= |inventory| + 4
    ensures AllPut(inventory, s).Keys == inventory.Keys + {s[0].path, s[1].path, s[2].path, s[3].path}
  {
    hide Archives, RecordOf;
    PutArchive(inventory, s[0]);
    PutArchive(Put(inventory, s[0]), s[1]);
    PutArchive(Put(Put(inventory, s[0]), s[1]), s[2]);
    PutArchive(Put(Put(Put(inventory, s[0]), s[1]), s[2]), s[3]);
  }

  lemma {:induction false} FirstIsPut(inventory: map<string, Record>, s: seq<Artifact>)
    requires |s| == 4 && s[0].path != s[1].path && s[0].path != s[2].path && s[0].path != s[3].path
    ensures s[0].path in AllPut(inventory, s) && AllPut(inventory, s)[s[0].path] == RecordOf(s[0])
  {
    hide RecordOf;
  }

  lemma {:induction false} SampleAddable(inventory: map<string, Record>, letters: set<char>, platforms: set<string>,
                                         bound: nat, platform: string, fill: char, root: char, package: char, bun: char,
                                         rust: string)
    requires Mergeable(inventory, letters, platforms, bound, platform, root, package, bun, rust)
    requires NamesDiffer(root, package, bun, rust)
    ensures var s := Artifacts(platform, root, package, bun, rust); Addable(inventory, s, Entries(platform, fill, s))
  {
    hide Archives, SafeName, Digest, Logs, Entries, HexDigit, PLATFORMS, ReportName, Stage;
    MergeableNames(inventory, letters, platforms, bound, platform, root, package, bun, rust);
    var s := Artifacts(platform, root, package, bun, rust);
    SampleComplete(platform, fill, s);
    NewNames(inventory, letters, platforms, bound, platform, root, package, bun, rust);
    assert [root][0] == root && [package][0] == package && [bun][0] == bun;
    forall i, j | 0 <= i < j < 4 ensures s[i].path != s[j].path {
    }
  }

  lemma {:induction false} ArtifactNamesAre(platform: string, root: char, package: char, bun: char, rust: string)
    requires rust != []
    ensures var s := Artifacts(platform, root, package, bun, rust);
            && |s| == 4 && s[0] == Archive([root], NpmMeta, None, Bun) && s[0].path == [root]
            && s[1].path == [package] && s[2].path == [bun] && s[3].path == rust
  {
    hide Digest;
  }

  lemma {:induction false} AddableDiffer(inventory: map<string, Record>, s: seq<Artifact>, evidence: seq<Evidence>)
    requires Addable(inventory, s, evidence)
    ensures s[0].path != s[1].path && s[0].path != s[2].path && s[0].path != s[3].path
  {
    hide SafeName, RecordOf;
  }

  lemma {:induction false} RoomStays(inventory: map<string, Record>, four: map<string, Record>, platform: string,
                                     more: set<string>)
    requires Occupied(inventory, platform)
    requires forall n :: n in four ==> n in inventory || n in more
    requires forall n :: n in more ==> |n| == 1 || n == ReportName(platform)
    ensures Occupied(four, platform)
  {
    hide Owned, PLATFORMS, ReportName;
  }

  /** The artifacts of a build fit into the inventory and leave room for its evidence. */
  lemma {:induction false} ArtifactsFit(inventory: map<string, Record>, letters: set<char>, platforms: set<string>,
                                        bound: nat, platform: string, fill: char, root: char, package: char, bun: char,
                                        rust: string) returns (four: map<string, Record>)
    requires Mergeable(inventory, letters, platforms, bound, platform, root, package, bun, rust)
    requires NamesDiffer(root, package, bun, rust)
    ensures var s := Artifacts(platform, root, package, bun, rust);
            && AddArtifacts(inventory, s, Entries(platform, fill, s)) == Some(four)
            && four == AllPut(inventory, s)
            && Archives(four) == Archives(inventory) + {[root], [package], [bun], rust}
            && |four| <= |inventory| + 4 && Occupied(four, platform)
            && [root] in four && four[[root]] == RecordOf(Archive([root], NpmMeta, None, Bun))
            && (forall n :: n in four ==> n in inventory || n in {[root], [package], [bun], rust})
            && forall i :: 0 <= i < 4 ==> SafeName(s[i].path)
  {
    hide Archives, Artifacts, SafeName, Digest, Logs, Entries, HexDigit, PLATFORMS, ReportName, Stage, AllPut, RecordOf,
         AddArtifacts, Addable, Mergeable, NamesDiffer, Archive, Occupied, Owned, Names, RustName;
    MergeableNames(inventory, letters, platforms, bound, platform, root, package, bun, rust);
    MergeableStage(inventory, letters, platforms, bound, platform, root, package, bun, rust);
    ArtifactNamesAre(platform, root, package, bun, rust);
    var s := Artifacts(platform, root, package, bun, rust);
    SampleAddable(inventory, letters, platforms, bound, platform, fill, root, package, bun, rust);
    AddableAdds(inventory, s, Entries(platform, fill, s));
    AddableDiffer(inventory, s, Entries(platform, fill, s));
    four := AllPut(inventory, s);
    AllPutHolds(inventory, s);
    FirstIsPut(inventory, s);
    StageLeavesRoom(inventory, letters, platforms, bound, platform);
    RoomStays(inventory, four, platform, {[root], [package], [bun], rust});
    FourSafe(s, root, package, bun, rust);
  }

  lemma {:induction false} FourSafe(s: seq<Artifact>, root: char, package: char, bun: char, rust: string)
    requires |s| == 4 && s[0].path == [root] && s[1].path == [package] && s[2].path == [bun] && s[3].path == rust
    requires SafeName([root]) && SafeName([package]) && SafeName([bun]) && SafeName(rust)
    ensures forall i :: 0 <= i < 4 ==> SafeName(s[i].path)
  {
    hide SafeName;
  }

  lemma {:induction false} StageLeavesRoom(inventory: map<string, Record>, letters: set<char>, platforms: set<string>,
                                           bound: nat, platform: string)
    requires Stage(inventory, letters, platforms, bound) && platforms <= PLATFORMS && platform !in platforms
    ensures Occupied(inventory, platform)
  {
    hide Archives, Owned, PLATFORMS, ReportName;
  }

  lemma {:induction false} NewNames(inventory: map<string, Record>, letters: set<char>, platforms: set<string>,
                                    bound: nat, platform: string, root: char, package: char, bun: char, rust: string)
    requires Mergeable(inventory, letters, platforms, bound, platform, root, package, bun, rust)
    ensures [package] !in inventory && [bun] !in inventory && rust !in inventory
    ensures [root] in inventory ==> root in letters
  {
    hide Archives, Names, HexDigit;
    ReportIsSafe(platform);
    NamesAreThere(letters, package);
    NamesAreThere(letters, bun);
    NamesAreThere(letters, root);
    if |rust| == 1 {
      NamesAreThere(letters, rust[0]);
      assert rust == [rust[0]];
    }
    forall p | p in platforms ensures !Owned([root], p) && !Owned([package], p) && !Owned([bun], p) && !Owned(rust, p) {
      OwnedFront([root], p);
      OwnedFront([package], p);
      OwnedFront([bun], p);
      OwnedFront(rust, p);
      if |rust| > 1 { OwnedByOne(rust, platform, p); }
    }
    LongNames(letters);
  }

  lemma {:induction false} LongNames(letters: set<char>)
    ensures forall n :: n in Names(letters) ==> |n| == 1
  {
  }

  /** The evidence of a build fits behind its artifacts. */
  lemma {:induction false} EvidenceFits(four: map<string, Record>, platform: string, fill: char, s: seq<Artifact>)
    returns (all: map<string, Record>)
    requires platform in PLATFORMS && Occupied(four, platform) && |s| == 4
    requires forall k :: 0 <= k < 4 ==> SafeName(s[k].path)
    ensures AddAllEvidence(four, platform, Entries(platform, fill, s), ArtifactNames(s)) == Some(all)
    ensures Archives(all) == Archives(four) && |all| <= |four| + 20
    ensures forall n :: n in four ==> n in all && all[n] == four[n]
    ensures forall n :: n in all && n !in four ==> Owned(n, platform)
  {
    hide Archives, SafeName, Entries, PLATFORMS, Occupied, AddAllEvidence, Owned, EntryOk, AssetName, ArtifactNames, Skipped;
    var entries := Entries(platform, fill, s);
    forall i | 0 <= i < |entries| ensures EntryOk(four, platform, entries[i], ArtifactNames(s)) {
      EntryIsOk(four, platform, fill, s, i);
    }
    forall i, j | 0 <= i < j < |entries| && !Skipped(entries[i], ArtifactNames(s)) && !Skipped(entries[j], ArtifactNames(s))
      ensures AssetName(platform, entries[i], ArtifactNames(s)) != AssetName(platform, entries[j], ArtifactNames(s))
    {
      AssetsDiffer(platform, fill, s, i, j);
    }
    all := EvidenceAdds(four, platform, entries, ArtifactNames(s));
    EntriesCount(platform, fill, s);
  }

  function WithReport(all: map<string, Record>, b: Build): map<string, Record> {
    all[ReportName(b.platform) := Record(ReportName(b.platform), b.reportSha256, b.reportSize, EvidenceFile, b.platform, Shared)]
  }

  lemma {:induction false} MergeIs(inventory: map<string, Record>, b: Build, four: map<string, Record>,
                                   all: map<string, Record>)
    requires b.verified && HeadersOk(b) && NativeCoverage(b.artifacts, b.platform) && EvidenceComplete(b.platform, b.evidence)
    requires AddArtifacts(inventory, b.artifacts, b.evidence) == Some(four)
    requires AddAllEvidence(four, b.platform, b.evidence, ArtifactNames(b.artifacts)) == Some(all)
    ensures Merge(inventory, b) == Some(WithReport(all, b))
  {
    hide HeadersOk, NativeCoverage, EvidenceComplete, AddArtifacts, AddAllEvidence, ArtifactNames, ReportName;
  }

  lemma {:induction false} ReportStage(letters: set<char>, platforms: set<string>, inventory: map<string, Record>,
                                       four: map<string, Record>, all: map<string, Record>, b: Build, bound: nat,
                                       root: char, package: char, bun: char, rust: string)
    requires Stage(inventory, letters, platforms, bound) && b.platform in PLATFORMS
    requires |rust| == 1 || rust == ReportName(b.platform)
    requires Archives(four) == Archives(inventory) + {[root], [package], [bun], rust} && |four| <= |inventory| + 4
    requires forall n :: n in four ==> n in inventory || n in {[root], [package], [bun], rust}
    requires Archives(all) == Archives(four) && |all| <= |four| + 20
    requires forall n :: n in all && n !in four ==> Owned(n, b.platform)
    ensures Stage(WithReport(all, b), letters + Letters(root, package, bun, rust), platforms + {b.platform}, bound + 25)
  {
    hide Archives, Owned, PLATFORMS, ReportName, SafeName, Names;
    ReportIsSafe(b.platform);
    var report := ReportName(b.platform);
    var after := WithReport(all, b);
    PutEvidence(all, report, after[report]);
    var more := Letters(root, package, bun, rust);
    NamesJoin(letters, more);
    LettersNames(root, package, bun, rust);
    LongNames(letters + more);
    assert report !in Names(letters + more);
    assert Archives(after) == Archives(all) - {report};
    assert Archives(after) == Names(letters + more);
    forall n | n in after ensures n in Names(letters + more) || exists p :: p in platforms + {b.platform} && Owned(n, p) {
      if n !in Names(letters + more) && n in all && n in four && n in inventory {
        var p :| p in platforms && Owned(n, p);
        assert p in platforms + {b.platform};
      }
    }
  }

  lemma {:induction false} LettersNames(root: char, package: char, bun: char, rust: string)
    ensures Names(Letters(root, package, bun, rust)) == {[root], [package], [bun]} + (if |rust| == 1 then {rust} else {})
  {
    if |rust| == 1 { assert rust == [rust[0]]; }
  }

  /** A complete build merges: its evidence takes names that begin with its platform, and its report
      takes the name of the Rust archive when that is what it is called. */
  lemma {:induction false} SampleMerges(inventory: map<string, Record>, letters: set<char>, platforms: set<string>,
                                        bound: nat, platform: string, fill: char, root: char, package: char, bun: char,
                                        rust: string) returns (after: map<string, Record>)
    requires Mergeable(inventory, letters, platforms, bound, platform, root, package, bun, rust)
    ensures NamesDiffer(root, package, bun, rust)
    ensures Merge(inventory, Sample(platform, fill, root, package, bun, rust)) == Some(after)
    ensures Stage(after, letters + Letters(root, package, bun, rust), platforms + {platform}, bound + 25)
    ensures [root] in after && after[[root]] == RecordOf(Archive([root], NpmMeta, None, Bun))
  {
    hide Archives, SafeName, Digest, Logs, Entries, HexDigit, PLATFORMS, ReportName, Occupied, AddArtifacts, AddAllEvidence,
         EvidenceComplete, HeadersOk, NativeCoverage, Stage, AllPut, RecordOf, Merge, Letters, ArtifactNames, Artifacts,
         Mergeable, NamesDiffer, Archive;
    MergeableNames(inventory, letters, platforms, bound, platform, root, package, bun, rust);
    MergeableStage(inventory, letters, platforms, bound, platform, root, package, bun, rust);
    assert |Artifacts(platform, root, package, bun, rust)| == 4 by { FourArtifacts(platform, root, package, bun, rust); }
    var s := Artifacts(platform, root, package, bun, rust);
    var four := ArtifactsFit(inventory, letters, platforms, bound, platform, fill, root, package, bun, rust);
    var all := EvidenceFits(four, platform, fill, s);
    SampleKinds(platform, root, package, bun, rust);
    SampleComplete(platform, fill, s);
    var b := Sample(platform, fill, root, package, bun, rust);
    HeadersAre(b);
    MergeIs(inventory, b, four, all);
    after := WithReport(all, b);
    ReportStage(letters, platforms, inventory, four, all, b, bound, root, package, bun, rust);
    assert [root] != ReportName(platform) by { ReportIsSafe(platform); }
  }

  lemma {:induction false} HeadersAre(b: Build)
    requires b.source == SOURCE && b.version == VERSION
    ensures HeadersOk(b)
  {
    SampleHeaders();
  }

  lemma {:induction false} EntriesCount(platform: string, fill: char, s: seq<Artifact>)
    requires |s| == 4
    ensures |Entries(platform, fill, s)| <= 20
  {
    hide ALL_LOGS;
    LogKeys();
  }

  // ---------------------------------------------------------------- the four builds

  /** The Rust archive of the first build is called like that build's own report; the last build
      has a root package of its own. */
  function RustArchive(k: nat): string {
    if k == 0 then ReportName(DARWIN_ARM64) else if k == 1 then "a" else if k == 2 then "b" else "c"
  }

  lemma {:induction false} RustNames()
    ensures NamesDiffer('0', '2', '6', RustArchive(0)) && NamesDiffer('0', '3', '7', RustArchive(1))
    ensures NamesDiffer('0', '4', '8', RustArchive(2)) && NamesDiffer('1', '5', '9', RustArchive(3))
    ensures HexDigit(RustArchive(0)[0])
  {
    ReportIsSafe(DARWIN_ARM64);
    assert |MANIFEST| == 21;
    assert "a"[0] != '0' && "a"[0] != '3' && "a"[0] != '7';
    assert "b"[0] != '0' && "b"[0] != '4' && "b"[0] != '8';
    assert "c"[0] != '1' && "c"[0] != '5' && "c"[0] != '9';
    assert RustArchive(0)[0] == 'd';
  }

  function B0(): Build { RustNames(); Sample(DARWIN_ARM64, '0', '0', '2', '6', RustArchive(0)) }
  function B1(): Build { RustNames(); Sample(DARWIN_X64, '1', '0', '3', '7', RustArchive(1)) }
  function B2(): Build { RustNames(); Sample(LINUX_ARM64, '2', '0', '4', '8', RustArchive(2)) }
  function B3(): Build { RustNames(); Sample(LINUX_X64, '3', '1', '5', '9', RustArchive(3)) }

  function Builds(): seq<Build> {
    [B0(), B1(), B2(), B3()]
  }

  lemma {:induction false} BuildsAreWritten(b: Build)
    requires b in Builds()
    ensures DigestsOk(b) && b.source == SOURCE && b.version == VERSION
  {
    hide Sample, DigestsOk, RustArchive;
    RustNames();
    LaterRustNames();
    SampleDigests(DARWIN_ARM64, '0', '0', '2', '6', RustArchive(0));
    SampleDigests(DARWIN_X64, '1', '0', '3', '7', RustArchive(1));
    SampleDigests(LINUX_ARM64, '2', '0', '4', '8', RustArchive(2));
    SampleDigests(LINUX_X64, '3', '1', '5', '9', RustArchive(3));
    SampleHead(DARWIN_ARM64, '0', '0', '2', '6', RustArchive(0));
    SampleHead(DARWIN_X64, '1', '0', '3', '7', RustArchive(1));
    SampleHead(LINUX_ARM64, '2', '0', '4', '8', RustArchive(2));
    SampleHead(LINUX_X64, '3', '1', '5', '9', RustArchive(3));
  }

  lemma {:induction false} LaterRustNames()
    ensures RustArchive(1) == "a" && RustArchive(2) == "b" && RustArchive(3) == "c"
  {
  }

  lemma {:induction false} SampleHead(platform: string, fill: char, root: char, package: char, bun: char, rust: string)
    requires NamesDiffer(root, package, bun, rust)
    ensures var b := Sample(platform, fill, root, package, bun, rust);
            b.platform == platform && b.source == SOURCE && b.version == VERSION
  {
    hide Entries, Artifacts, Digest;
  }

  lemma {:induction false} MergeOneMore(builds: seq<Build>, before: map<string, Record>, b: Build, after: map<string, Record>)
    requires MergeAll(builds) == Some(before) && Merge(before, b) == Some(after)
    requires b.platform in PLATFORMS && b.platform !in PlatformsOf(builds)
    requires builds != [] ==> b.version == builds[0].version && b.source == builds[0].source
    ensures MergeAll(builds + [b]) == Some(after)
    ensures PlatformsOf(builds + [b]) == PlatformsOf(builds) + {b.platform}
  {
    hide Merge, PLATFORMS;
    assert (builds + [b])[..|builds|] == builds;
  }

  lemma {:induction false} EmptyStage()
    ensures Stage(map[], {}, {}, 0)
  {
    assert Archives(map[]) == {} && Names({}) == {};
  }

  lemma {:induction false} NextBuild(builds: seq<Build>, inventory: map<string, Record>, letters: set<char>, bound: nat,
                                     platform: string, fill: char, root: char, package: char, bun: char, rust: string)
    returns (after: map<string, Record>)
    requires Mergeable(inventory, letters, PlatformsOf(builds), bound, platform, root, package, bun, rust)
    requires MergeAll(builds) == Some(inventory)
    requires builds != [] ==> builds[0].source == SOURCE && builds[0].version == VERSION
    ensures NamesDiffer(root, package, bun, rust)
    ensures var b := Sample(platform, fill, root, package, bun, rust);
            && MergeAll(builds + [b]) == Some(after) && PlatformsOf(builds + [b]) == PlatformsOf(builds) + {platform}
            && b.source == SOURCE && b.version == VERSION
    ensures Stage(after, letters + Letters(root, package, bun, rust), PlatformsOf(builds) + {platform}, bound + 25)
    ensures [root] in after && after[[root]] == RecordOf(Archive([root], NpmMeta, None, Bun))
  {
    hide Stage, Merge, MergeAll, Sample, Letters, PLATFORMS, PlatformsOf, RecordOf, Archive, RustName;
    after := SampleMerges(inventory, letters, PlatformsOf(builds), bound, platform, fill, root, package, bun, rust);
    SampleHead(platform, fill, root, package, bun, rust);
    MergeOneMore(builds, inventory, Sample(platform, fill, root, package, bun, rust), after);
  }

  /** What is so after the first builds: their merge, its stage, and the root they share. */
  ghost predicate Merging(builds: seq<Build>, m: map<string, Record>, letters: set<char>, platforms: set<string>, bound: nat) {
    && MergeAll(builds) == Some(m) && PlatformsOf(builds) == platforms && Stage(m, letters, platforms, bound)
    && (builds != [] ==> builds[0].source == SOURCE && builds[0].version == VERSION)
    && ('0' in letters ==> ['0'] in m && m[['0']] == RecordOf(Archive(['0'], NpmMeta, None, Bun)))
  }

  /** One more build with the shared root, or with its own. */
  lemma {:induction false} MergingMore(builds: seq<Build>, m: map<string, Record>, letters: set<char>,
                                       platforms: set<string>, bound: nat, platform: string, fill: char, root: char,
                                       package: char, bun: char, rust: string, more: set<char>)
    returns (after: map<string, Record>)
    requires Merging(builds, m, letters, platforms, bound) && platforms <= PLATFORMS && platform in PLATFORMS - platforms
    requires HexDigit(root) && HexDigit(package) && HexDigit(bun) && RustName(rust, platform, letters + {root, package, bun})
    requires package !in letters && bun !in letters && root != package && root != bun && package != bun
    requires root == '0' || (root !in letters && platforms + {platform} == PLATFORMS)
    requires more == letters + Letters(root, package, bun, rust)
    ensures NamesDiffer(root, package, bun, rust)
    ensures var longer := builds + [Sample(platform, fill, root, package, bun, rust)];
            && MergeAll(longer) == Some(after) && Stage(after, more, platforms + {platform}, bound + 25)
            && (root == '0' ==> Merging(longer, after, more, platforms + {platform}, bound + 25))
  {
    hide Stage, MergeAll, Sample, PlatformsOf, RecordOf, Archive, RustName, PLATFORMS, HexDigit;
    after := NextBuild(builds, m, letters, bound, platform, fill, root, package, bun, rust);
  }

  lemma {:induction false} FirstMerges() returns (m: map<string, Record>)
    ensures Merging([B0()], m, {'0', '2', '6'}, {DARWIN_ARM64}, 25)
  {
    hide Merging, Sample, NamesDiffer, RustArchive, RustName, Letters, B0, MergeAll, Stage;
    NothingMerging();
    FirstRustName();
    FirstBuild();
    m := MergingMore([], map[], {}, {}, 0, DARWIN_ARM64, '0', '0', '2', '6', RustArchive(0), {'0', '2', '6'});
    assert {} + {DARWIN_ARM64} == {DARWIN_ARM64};
  }

  lemma {:induction false} FirstBuild()
    ensures NamesDiffer('0', '2', '6', RustArchive(0))
    ensures [] + [Sample(DARWIN_ARM64, '0', '0', '2', '6', RustArchive(0))] == [B0()]
  {
    hide Sample, NamesDiffer, RustArchive;
    RustNames();
  }

  lemma {:induction false} SecondMerges() returns (m: map<string, Record>)
    ensures Merging([B0(), B1()], m, {'0', '2', '6', '3', '7', 'a'}, {DARWIN_ARM64, DARWIN_X64}, 50)
  {
    hide Merging, Sample, NamesDiffer, RustArchive, MergeAll, Stage;
    LaterRustNames();
    FourDiffer();
    var before := FirstMerges();
    m := MergingMore([B0()], before, {'0', '2', '6'}, {DARWIN_ARM64}, 25, DARWIN_X64, '1', '0', '3', '7', RustArchive(1),
                     {'0', '2', '6', '3', '7', 'a'});
    assert [B0()] + [B1()] == [B0(), B1()] && {DARWIN_ARM64} + {DARWIN_X64} == {DARWIN_ARM64, DARWIN_X64};
  }

  lemma {:induction false} ThirdMerges() returns (m: map<string, Record>)
    ensures Merging([B0(), B1(), B2()], m, {'0', '2', '6', '3', '7', 'a', '4', '8', 'b'},
                    {DARWIN_ARM64, DARWIN_X64, LINUX_ARM64}, 75)
  {
    hide Merging, Sample, NamesDiffer, RustArchive, MergeAll, Stage;
    LaterRustNames();
    FourDiffer();
    var before := SecondMerges();
    m := MergingMore([B0(), B1()], before, {'0', '2', '6', '3', '7', 'a'}, {DARWIN_ARM64, DARWIN_X64}, 50, LINUX_ARM64,
                     '2', '0', '4', '8', RustArchive(2), {'0', '2', '6', '3', '7', 'a', '4', '8', 'b'});
    assert [B0(), B1()] + [B2()] == [B0(), B1(), B2()];
    assert {DARWIN_ARM64, DARWIN_X64} + {LINUX_ARM64} == {DARWIN_ARM64, DARWIN_X64, LINUX_ARM64};
  }

  /** The names of one character at the end. */
  const LETTERS := {'0', '2', '6', '3', '7', 'a', '4', '8', 'b', '1', '5', '9', 'c'}

  lemma {:induction false} AllMerge() returns (m: map<string, Record>)
    ensures MergeAll(Builds()) == Some(m) && Stage(m, LETTERS, PLATFORMS, 100)
  {
    hide Merging, Sample, NamesDiffer, RustArchive, Stage, MergeAll;
    LaterRustNames();
    FourDiffer();
    var before := ThirdMerges();
    var three := {DARWIN_ARM64, DARWIN_X64, LINUX_ARM64};
    assert three + {LINUX_X64} == PLATFORMS;
    m := MergingMore([B0(), B1(), B2()], before, {'0', '2', '6', '3', '7', 'a', '4', '8', 'b'}, three, 75, LINUX_X64,
                     '3', '1', '5', '9', RustArchive(3), LETTERS);
    assert [B0(), B1(), B2()] + [B3()] == Builds();
  }

  lemma {:induction false} NothingMerging()
    ensures Merging([], map[], {}, {}, 0)
  {
    EmptyStage();
    NothingYet();
  }

  lemma {:induction false} ThirteenLetters()
    ensures |LETTERS| == 13
  {
  }

  lemma {:induction false} FirstRustName()
    ensures RustName(RustArchive(0), DARWIN_ARM64, {} + {'0', '2', '6'})
    ensures {'0', '2', '6'} == {} + Letters('0', '2', '6', RustArchive(0))
  {
    hide ReportName, SafeName, Owned;
    ReportIsSafe(DARWIN_ARM64);
  }

  lemma {:induction false} NothingYet()
    ensures MergeAll([]) == Some(map[]) && PlatformsOf([]) == {}
  {
  }

  // ---------------------------------------------------------------- the gap

  predicate NotReserved(name: string) {
    !("live-bun-" <= name) && !("live-rust-" <= name) && name != "SHA256SUMS" && name != "kernel-rc-release-evidence.json"
  }

  lemma {:induction false} ShortIsNotReserved(name: string)
    requires |name| == 1
    ensures NotReserved(name)
  {
  }

  lemma {:induction false} OwnedIsNotReserved(name: string, platform: string)
    requires platform in PLATFORMS && Owned(name, platform)
    ensures NotReserved(name)
  {
    var front := platform + "-";
    assert name[0] == front[0] && name[2] == front[2];
    assert "live-bun-"[2] == 'v' && "live-rust-"[2] == 'v' && "SHA256SUMS"[0] == 'S' && "kernel-rc-release-evidence.json"[0] == 'k';
  }

  lemma {:induction false} StageIsOk(inventory: map<string, Record>, letters: set<char>)
    requires Stage(inventory, letters, PLATFORMS, 100) && |letters| == 13
    ensures InventoryOk(inventory, None)
  {
    hide Archives, Owned, PLATFORMS, NotReserved, InventoryOk;
    CountNames(letters);
    LongNames(letters);
    forall name | name in inventory ensures NotReserved(name) {
      if name in Names(letters) {
        ShortIsNotReserved(name);
      } else {
        var p :| p in PLATFORMS && Owned(name, p);
        OwnedIsNotReserved(name, p);
      }
    }
    FewArchivesAreOk(inventory);
  }

  lemma {:induction false} FewArchivesAreOk(inventory: map<string, Record>)
    requires |Archives(inventory)| == 13 && |inventory| <= 100 && forall name :: name in inventory ==> NotReserved(name)
    ensures InventoryOk(inventory, None)
  {
    hide Archives;
  }

  /** Thirteen archives are counted, and still the Rust runner of the first platform is missing. */
  lemma {:induction false} ThirteenWithoutARunner()
    ensures Assembled(Builds(), None).Some? && forall b :: b in Builds() ==> DigestsOk(b)
    ensures !Covers(Assembled(Builds(), None).value, PLATFORMS)
  {
    hide MergeAll, Covers, ReportName, Sample, Stage, DigestsOk, PLATFORMS, ArchivesAvoidReports;
    forall b | b in Builds() ensures DigestsOk(b) { BuildsAreWritten(b); }
    var m := AllMerge();
    ThirteenLetters();
    StageIsOk(m, LETTERS);
    AssembledCovers(Builds(), None);
    RunnerIsReplaced();
  }

  lemma {:induction false} RunnerIsReplaced()
    ensures !ArchivesAvoidReports(Builds())
  {
    hide ReportName, Entries, Digest;
    RustNames();
    var a := B0().artifacts[3];
    assert a in B0().artifacts && B0() in Builds() by { assert Builds()[0] == B0(); }
    ArtifactsOfBuild(Builds(), B0(), 3);
    assert a.path == ReportName(B0().platform);
  }
}
