/** The bundle of opaque command logs: its producer (build_kernel_rc.py) and its independent
    validator (kernel_rc_evidence.py).

    SHA-256 and JSON are parameters: `sha` gives the hexadecimal digest, `dumps` writes a bundle and
    `loads` reads one back, None when the bytes are no JSON of exactly the expected shape. */
module CommandLogs {
  import opened Wrappers
  import opened Base64
  import opened NpmVersions
  import opened Platforms
  import opened PythonText

  const BUNDLE := "logs/producer-command-logs.json"
  const LOG_BYTES := 16 * 1024 * 1024

  const MAC_MEMBERS := [
    "logs/build-bun.log", "logs/build-rust.log", "logs/build-sdk.log", "logs/npm-install-cache.log",
    "logs/npm-install.log", "logs/package.log", "logs/rust-ad-hoc-sign.log", "logs/rust-ad-hoc-verify.log"]

  const LINUX_MEMBERS := [
    "logs/build-bun.log", "logs/build-rust.log", "logs/npm-install-cache.log", "logs/npm-install.log", "logs/package.log"]

  function MembersOf(platform: string): seq<string> {
    if IsDarwin(platform) then MAC_MEMBERS else LINUX_MEMBERS
  }

  datatype Identity = Identity(sha256: string, byteLength: int)

  datatype Report = Report(schema: string, platform: string, source: string, version: string, evidence: map<string, Identity>)

  datatype Manifest = Manifest(schema: string, mode: string, platform: string, version: string, source: string, verification: string)

  datatype Row = Row(path: string, sha256: string, byteLength: int, base64: string)

  datatype Bundle = Bundle(schema: string, platform: string, source: string, version: string, members: seq<Row>)

  /** The expression for versions. */
  predicate IsVersion(s: string) {
    1 <= |s| <= 128 && IsAlphanumeric(s[0]) &&
    forall i :: 0 < i < |s| ==> IsAlphanumeric(s[i]) || s[i] == '.' || s[i] == '+' || s[i] == '_' || s[i] == '-'
  }

  predicate IsAlphanumeric(c: char) {
    'A' <= c <= 'Z' || 'a' <= c <= 'z' || '0' <= c <= '9'
  }

  // ---------------------------------------------------------------- the validator

  /** The identities a bundle is validated under. */
  predicate HeaderOk(report: Report, manifest: Manifest) {
    && report.schema == "openprose.kernel-rc-build/1" && IsPlatform(report.platform)
    && IsHex(report.source, 40) && IsVersion(report.version)
    && manifest.schema == "openprose.local-release-manifest/1" && manifest.mode == "kernel-rc"
    && manifest.platform == report.platform && manifest.version == report.version
    && manifest.source == report.source && manifest.verification == "matched-product-doctor"
  }

  /** The form of a release's version: up to 128 characters, a letter or digit first. */
  ghost predicate IsReleaseName(s: string) {
    && 1 <= |s| <= 128 && s[0] !in {'.', '+', '_', '-'}
    && forall c :: c in s ==> 'A' <= c <= 'Z' || 'a' <= c <= 'z' || '0' <= c <= '9' || c in {'.', '+', '_', '-'}
  }

  /** A full revision. */
  ghost predicate IsRevision(s: string) {
    |s| == 40 && forall c :: c in s ==> '0' <= c <= '9' || 'a' <= c <= 'f'
  }

  lemma {:induction false} VersionMeaning(s: string)
    ensures IsVersion(s) <==> IsReleaseName(s)
  {
    if IsVersion(s) {
      forall c | c in s ensures IsAlphanumeric(c) || c in {'.', '+', '_', '-'} {
        var i :| 0 <= i < |s| && s[i] == c;
      }
    }
    if IsReleaseName(s) {
      forall i | 0 <= i < |s| ensures IsAlphanumeric(s[i]) || s[i] in {'.', '+', '_', '-'} {
        assert s[i] in s;
      }
    }
  }

  lemma {:induction false} RevisionMeaning(s: string)
    ensures IsHex(s, 40) <==> IsRevision(s)
  {
    if IsHex(s, 40) {
      forall c | c in s ensures '0' <= c <= '9' || 'a' <= c <= 'f' {
        var i :| 0 <= i < |s| && s[i] == c;
      }
    }
    if IsRevision(s) {
      forall i | 0 <= i < |s| ensures '0' <= s[i] <= '9' || 'a' <= s[i] <= 'f' {
        assert s[i] in s;
      }
    }
  }

  /** The identities, spelled out. */
  ghost predicate Identified(report: Report, manifest: Manifest) {
    && report.schema == "openprose.kernel-rc-build/1" && manifest.schema == "openprose.local-release-manifest/1"
    && manifest.mode == "kernel-rc" && manifest.verification == "matched-product-doctor"
    && report.platform == manifest.platform && IsPlatform(manifest.platform)
    && report.version == manifest.version && IsReleaseName(manifest.version)
    && report.source == manifest.source && IsRevision(manifest.source)
  }

  lemma {:induction false} HeaderMeaning(report: Report, manifest: Manifest)
    ensures HeaderOk(report, manifest) <==> Identified(report, manifest)
  {
    hide IsPlatform, IsVersion, IsHex, IsReleaseName, IsRevision;
    VersionMeaning(report.version);
    RevisionMeaning(report.source);
  }

  /** The bundle is recorded, bounded and present, and no original is recorded beside it. */
  predicate RecordOk(report: Report, raw: seq<byte>, sha: seq<byte> -> string) {
    && BUNDLE in report.evidence
    && (forall name :: name in MembersOf(report.platform) ==> name !in report.evidence)
    && var record := report.evidence[BUNDLE];
       IsHex(record.sha256, 64) && 0 < record.byteLength <= LOG_BYTES &&
       |raw| == record.byteLength && sha(raw) == record.sha256
  }

  /** The original logs a bundle stands for. */
  ghost function Originals(platform: string): seq<string> {
    if "darwin-" <= platform then
      ["logs/build-bun.log", "logs/build-rust.log", "logs/build-sdk.log", "logs/npm-install-cache.log",
       "logs/npm-install.log", "logs/package.log", "logs/rust-ad-hoc-sign.log", "logs/rust-ad-hoc-verify.log"]
    else
      ["logs/build-bun.log", "logs/build-rust.log", "logs/npm-install-cache.log", "logs/npm-install.log", "logs/package.log"]
  }

  ghost predicate Recorded(report: Report, raw: seq<byte>, sha: seq<byte> -> string) {
    var name := "logs/producer-command-logs.json";
    && name in report.evidence && report.evidence[name] == Identity(sha(raw), |raw|)
    && IsHex(sha(raw), 64) && 0 < |raw| <= 16777216
    && forall original :: original in Originals(report.platform) ==> original !in report.evidence
  }

  lemma {:induction false} RecordMeaning(report: Report, raw: seq<byte>, sha: seq<byte> -> string)
    ensures RecordOk(report, raw, sha) <==> Recorded(report, raw, sha)
  {
    hide IsHex;
    MembersAreOriginals(report.platform);
  }

  lemma {:induction false} MembersAreOriginals(platform: string)
    ensures MembersOf(platform) == Originals(platform)
  {
  }

  predicate BundleHeaderOk(bundle: Bundle, report: Report) {
    && bundle.schema == "openprose.kernel-rc-command-logs/1" && bundle.platform == report.platform
    && bundle.source == report.source && bundle.version == report.version
    && |bundle.members| == |MembersOf(report.platform)|
  }

  /** The bytes of one accepted row. */
  function RowData(expected: string, row: Row, sha: seq<byte> -> string): Option<seq<byte>> {
    if !(row.path == expected && IsHex(row.sha256, 64) && 0 <= row.byteLength <= LOG_BYTES) then None
    else if |row.base64| != 4 * ((row.byteLength + 2) / 3) then None
    else
      var data := Decode(row.base64);
      if data.None? then None
      else if Encode(data.value) != row.base64 || |data.value| != row.byteLength || sha(data.value) != row.sha256 then None
      else data
  }

  ghost predicate Digests(sha: seq<byte> -> string) {
    forall data: seq<byte> :: IsHex(sha(data), 64)
  }

  function RowFor(name: string, data: seq<byte>, sha: seq<byte> -> string): Row {
    Row(name, sha(data), |data|, Encode(data))
  }

  /** A row is accepted for some bytes exactly when it is the one row the producer writes for them,
      with the one canonical encoding. */
  lemma {:induction false} RowIsCanonical(name: string, row: Row, data: seq<byte>, sha: seq<byte> -> string)
    requires Digests(sha)
    ensures RowData(name, row, sha) == Some(data) <==> row == RowFor(name, data, sha) && |data| <= 16777216
    ensures RowData(name, row, sha) == Some(data) ==> |row.base64| == 4 * ((|data| + 2) / 3)
  {
    hide IsHex, Decode, Encode;
    DecodeEncode(data);
    EncodedLength(data);
    assert IsHex(sha(data), 64);
  }

  ghost predicate Valid(report: Report, manifest: Manifest, raw: seq<byte>, sha: seq<byte> -> string,
                        loads: seq<byte> -> Option<Bundle>) {
    && Identified(report, manifest) && Recorded(report, raw, sha) && loads(raw).Some?
    && BundleHeaderOk(loads(raw).value, report)
    && forall i :: 0 <= i < |MembersOf(report.platform)| ==>
                     RowData(MembersOf(report.platform)[i], loads(raw).value.members[i], sha).Some?
  }

  /** `validate_producer_command_logs`. */
  method ValidateProducerCommandLogs(report: Report, manifest: Manifest, raw: seq<byte>, sha: seq<byte> -> string,
                                     loads: seq<byte> -> Option<Bundle>)
    returns (r: Result<map<string, seq<byte>>>)
    ensures r.Ok? <==> Valid(report, manifest, raw, sha, loads)
    ensures r.Ok? ==> forall name :: name in r.value <==> name in MembersOf(report.platform)
    ensures r.Ok? ==> forall i :: 0 <= i < |MembersOf(report.platform)| ==>
              RowData(MembersOf(report.platform)[i], loads(raw).value.members[i], sha) == Some(r.value[MembersOf(report.platform)[i]])
  {
    hide HeaderOk, Identified, RecordOk, Recorded, RowData, MembersOf;
    HeaderMeaning(report, manifest);
    RecordMeaning(report, raw, sha);
    if !HeaderOk(report, manifest) {
      return Err("Command log report or manifest identity differs");
    }
    if !RecordOk(report, raw, sha) {
      return Err("Command log bundle differs from producer evidence");
    }
    var loaded := loads(raw);
    if loaded.None? {
      return Err("Invalid command log bundle JSON");
    }
    if !BundleHeaderOk(loaded.value, report) {
      return Err("Command log bundle header differs");
    }
    var names, members := MembersOf(report.platform), loaded.value.members;
    MembersAreDistinct(report.platform);
    var result: map<string, seq<byte>> := map[];
    for i := 0 to |names|
      invariant forall name :: name in result <==> name in names[..i]
      invariant forall j :: 0 <= j < i ==> names[j] in result && RowData(names[j], members[j], sha) == Some(result[names[j]])
    {
      var data := RowData(names[i], members[i], sha);
      if data.None? {
        return Err("Command log member differs");
      }
      result := result[names[i] := data.value];
      assert names[..i + 1] == names[..i] + [names[i]];
    }
    assert names[..|names|] == names;
    r := Ok(result);
  }

  lemma {:induction false} MembersAreDistinct(platform: string)
    ensures forall i, j :: 0 <= i < j < |MembersOf(platform)| ==> MembersOf(platform)[i] != MembersOf(platform)[j]
    ensures |MembersOf(platform)| == if IsDarwin(platform) then 8 else 5
    ensures BUNDLE !in MembersOf(platform)
  {
    var names := MembersOf(platform);
    forall i, j | 0 <= i < j < |names| ensures names[i] != names[j] {
      DistinctTexts(i, j, IsDarwin(platform));
    }
    forall i | 0 <= i < |names| ensures names[i] != BUNDLE {
      assert BUNDLE[5] == 'p' && BUNDLE[6] == 'r';
      assert names[i][5] != 'p' || names[i][6] != 'r';
    }
  }

  lemma {:induction false} DistinctTexts(i: nat, j: nat, mac: bool)
    requires i < j < |if mac then MAC_MEMBERS else LINUX_MEMBERS|
    ensures var names := if mac then MAC_MEMBERS else LINUX_MEMBERS; names[i] != names[j]
  {
    var names := if mac then MAC_MEMBERS else LINUX_MEMBERS;
    assert |names[i]| != |names[j]| || names[i][5] != names[j][5] || names[i][11] != names[j][11];
  }

  // ---------------------------------------------------------------- the producer

  function RawTotal(names: seq<string>, logs: map<string, seq<byte>>): nat {
    if names == [] then 0
    else
      var n := |names| - 1;
      RawTotal(names[..n], logs) + (if names[n] in logs then |logs[names[n]]| else 0)
  }

  function EncodedTotal(names: seq<string>, logs: map<string, seq<byte>>): nat {
    if names == [] then 0
    else
      var n := |names| - 1;
      EncodedTotal(names[..n], logs) + (if names[n] in logs then 4 * ((|logs[names[n]]| + 2) / 3) else 0)
  }

  /** The bytes of the logs one after the other, and their encodings. */
  ghost function AllBytes(names: seq<string>, logs: map<string, seq<byte>>): seq<byte> {
    if names == [] then []
    else
      var n := |names| - 1;
      AllBytes(names[..n], logs) + (if names[n] in logs then logs[names[n]] else [])
  }

  ghost function AllTexts(names: seq<string>, logs: map<string, seq<byte>>): string {
    if names == [] then []
    else
      var n := |names| - 1;
      AllTexts(names[..n], logs) + (if names[n] in logs then Encode(logs[names[n]]) else [])
  }

  /** The running totals are the lengths of both. */
  lemma {:induction false} TotalsMeaning(names: seq<string>, logs: map<string, seq<byte>>)
    ensures RawTotal(names, logs) == |AllBytes(names, logs)| && EncodedTotal(names, logs) == |AllTexts(names, logs)|
  {
    hide Encode;
    if names != [] {
      var n := |names| - 1;
      TotalsMeaning(names[..n], logs);
      if names[n] in logs { EncodedLength(logs[names[n]]); }
    }
  }

  /** The log is there, within the bound for reading, and recorded as it is. */
  ghost predicate Bound(name: string, logs: map<string, seq<byte>>, evidence: map<string, Identity>,
                  sha: seq<byte> -> string) {
    && name in logs && |logs[name]| <= 16777216
    && name in evidence && evidence[name] == Identity(sha(logs[name]), |logs[name]|)
  }

  function Rows(names: seq<string>, logs: map<string, seq<byte>>, sha: seq<byte> -> string): (rows: seq<Row>)
    requires forall i :: 0 <= i < |names| ==> names[i] in logs
    ensures |rows| == |names|
    ensures forall i :: 0 <= i < |names| ==> rows[i] == RowFor(names[i], logs[names[i]], sha)
  {
    if names == [] then []
    else
      var n := |names| - 1;
      Rows(names[..n], logs, sha) + [RowFor(names[n], logs[names[n]], sha)]
  }

  function BundleOf(report: Report, platform: string, rows: seq<Row>): Bundle {
    Bundle("openprose.kernel-rc-command-logs/1", platform, report.source, report.version, rows)
  }

  /** The evidence with the originals replaced by the bundle. */
  function Replaced(report: Report, names: seq<string>, encoded: seq<byte>,
                    sha: seq<byte> -> string): map<string, Identity> {
    (report.evidence - (set name | name in names))[BUNDLE := Identity(sha(encoded), |encoded|)]
  }

  /** All the producer itself asks for. */
  ghost predicate Producible(report: Report, manifest: Manifest, absent: bool, logs: map<string, seq<byte>>,
                             sha: seq<byte> -> string,
                             dumps: Bundle -> seq<byte>) {
    var names := MembersOf(manifest.platform);
    && IsPlatform(manifest.platform) && absent && BUNDLE !in report.evidence
    && (forall i :: 0 <= i < |names| ==> Bound(names[i], logs, report.evidence, sha))
    && |AllBytes(names, logs)| <= 16777216 && |AllTexts(names, logs)| <= 16777216
    && 0 < |dumps(BundleOf(report, manifest.platform, Rows(names, logs, sha)))| <= 16777216
  }

  /** JSON written by `dumps` is read back by `loads`. */
  ghost predicate ReadsBack(dumps: Bundle -> seq<byte>, loads: seq<byte> -> Option<Bundle>) {
    forall bundle: Bundle :: loads(dumps(bundle)) == Some(bundle)
  }

  /** `producer_command_log_evidence` while the files stay as they are: the new evidence and the
      bundle's bytes. */
  method ProducerCommandLogEvidence(report: Report, manifest: Manifest, absent: bool, logs: map<string, seq<byte>>,
                                    sha: seq<byte> -> string, dumps: Bundle -> seq<byte>, loads: seq<byte> -> Option<Bundle>)
    returns (r: Result<(map<string, Identity>, seq<byte>)>)
    requires Digests(sha) && ReadsBack(dumps, loads)
    ensures r.Ok? <==> Producible(report, manifest, absent, logs, sha, dumps) && Identified(report, manifest)
    ensures r.Ok? ==> r.value.1 == dumps(BundleOf(report, manifest.platform, Rows(MembersOf(manifest.platform), logs, sha)))
    ensures r.Ok? ==> r.value.0 == Replaced(report, MembersOf(manifest.platform), r.value.1, sha)
  {
    hide MembersOf, HeaderOk, Identified, RowData, Recorded, IsPlatform, Replaced, AllBytes, AllTexts;
    HeaderMeaning(report, manifest);
    if !IsPlatform(manifest.platform) {
      return Err("Unsupported command-log platform");
    }
    var names := MembersOf(manifest.platform);
    if !absent {
      return Err("Command-log bundle must be fresh");
    }
    if BUNDLE in report.evidence {
      return Err("Command-log bundle already recorded");
    }
    MembersAreDistinct(manifest.platform);
    var collected, rows, originals := CollectRows(names, report, logs, sha);
    if !collected {
      return Err("Command-log evidence changed or exceeds its bound");
    }
    var bundle := BundleOf(report, manifest.platform, rows);
    var encoded := dumps(bundle);
    if !(0 < |encoded| <= LOG_BYTES) {
      return Err("Command-log bundle exceeds evidence bound");
    }
    var evidence := Replaced(report, names, encoded, sha);
    var prospective := report.(evidence := evidence);
    var decoded := ValidateProducerCommandLogs(prospective, manifest, encoded, sha, loads);
    if Identified(report, manifest) {
      ProducedIsValid(report, manifest, logs, sha, dumps, loads);
    }
    SameHeader(report, evidence, manifest);
    if decoded.Err? {
      return Err(decoded.error);
    }
    SameLogs(prospective, manifest, names, logs, rows, originals, decoded.value, sha);
    if decoded.value != originals {
      return Err("Command-log bundle differs from original bytes");
    }
    r := Ok((evidence, encoded));
  }

  /** The collecting loop with its running totals. */
  method CollectRows(names: seq<string>, report: Report, logs: map<string, seq<byte>>, sha: seq<byte> -> string)
    returns (ok: bool, rows: seq<Row>, originals: map<string, seq<byte>>)
    requires forall i, j :: 0 <= i < j < |names| ==> names[i] != names[j]
    ensures ok <==> (forall i :: 0 <= i < |names| ==> Bound(names[i], logs, report.evidence, sha)) &&
                    |AllBytes(names, logs)| <= 16777216 && |AllTexts(names, logs)| <= 16777216
    ensures ok ==> (forall i :: 0 <= i < |names| ==> names[i] in logs) && rows == Rows(names, logs, sha)
    ensures ok ==> forall name :: name in originals <==> name in names
    ensures ok ==> forall i :: 0 <= i < |names| ==> originals[names[i]] == logs[names[i]]
  {
    hide RowFor, RawTotal, EncodedTotal, Bound, Rows, AllBytes, AllTexts;
    TotalsMeaning(names, logs);
    ok, rows, originals := true, [], map[];
    NothingCollected(names, logs, sha);
    var rawTotal, encodedTotal := 0, 0;
    for i := 0 to |names|
      invariant ok
      invariant forall j :: 0 <= j < i ==> names[j] in logs && Bound(names[j], logs, report.evidence, sha)
      invariant rawTotal == RawTotal(names[..i], logs) <= LOG_BYTES
      invariant encodedTotal == EncodedTotal(names[..i], logs) <= LOG_BYTES
      invariant rows == Rows(names[..i], logs, sha)
      invariant forall name :: name in originals <==> name in names[..i]
      invariant forall j :: 0 <= j < i ==> originals[names[j]] == logs[names[j]]
    {
      var name := names[i];
      BoundMeans(name, logs, report.evidence, sha);
      if name !in logs || |logs[name]| > LOG_BYTES {
        ok := false;
        return;
      }
      var data := logs[name];
      rawTotal := rawTotal + |data|;
      encodedTotal := encodedTotal + 4 * ((|data| + 2) / 3);
      OneMore(names, i, logs, sha);
      if rawTotal > LOG_BYTES || encodedTotal > LOG_BYTES {
        TotalsGrow(names, i + 1, logs);
        ok := false;
        return;
      }
      if name !in report.evidence || report.evidence[name] != Identity(sha(data), |data|) {
        ok := false;
        return;
      }
      rows := rows + [RowFor(name, data, sha)];
      originals := originals[name := data];
      assert names[..i + 1] == names[..i] + [name];
    }
    assert names[..|names|] == names;
  }

  lemma {:induction false} NothingCollected(names: seq<string>, logs: map<string, seq<byte>>, sha: seq<byte> -> string)
    ensures RawTotal(names[..0], logs) == 0 && EncodedTotal(names[..0], logs) == 0 && Rows(names[..0], logs, sha) == []
  {
  }

  lemma {:induction false} BoundMeans(name: string, logs: map<string, seq<byte>>, evidence: map<string, Identity>,
                                      sha: seq<byte> -> string)
    ensures Bound(name, logs, evidence, sha) <==>
              name in logs && |logs[name]| <= LOG_BYTES &&
              name in evidence && evidence[name] == Identity(sha(logs[name]), |logs[name]|)
  {
  }

  lemma {:induction false} OneMore(names: seq<string>, n: nat, logs: map<string, seq<byte>>, sha: seq<byte> -> string)
    requires n < |names| && forall i :: 0 <= i <= n ==> names[i] in logs
    ensures RawTotal(names[..n + 1], logs) == RawTotal(names[..n], logs) + |logs[names[n]]|
    ensures EncodedTotal(names[..n + 1], logs) == EncodedTotal(names[..n], logs) + 4 * ((|logs[names[n]]| + 2) / 3)
    ensures Rows(names[..n + 1], logs, sha) == Rows(names[..n], logs, sha) + [RowFor(names[n], logs[names[n]], sha)]
  {
    hide RowFor;
    assert names[..n + 1][..n] == names[..n];
  }

  lemma {:induction false} TotalsGrow(names: seq<string>, n: nat, logs: map<string, seq<byte>>)
    requires n <= |names|
    ensures RawTotal(names[..n], logs) <= RawTotal(names, logs) && EncodedTotal(names[..n], logs) <= EncodedTotal(names, logs)
    decreases |names| - n
  {
    if n < |names| {
      TotalsGrow(names, n + 1, logs);
      assert names[..n + 1][..n] == names[..n];
    } else {
      assert names[..n] == names;
    }
  }

  lemma {:induction false} SameHeader(report: Report, evidence: map<string, Identity>, manifest: Manifest)
    ensures Identified(report.(evidence := evidence), manifest) <==> Identified(report, manifest)
    ensures Identified(report, manifest) ==> report.platform == manifest.platform
  {
    hide IsPlatform;
  }

  /** What the validator decodes from the producer's own rows are the originals. */
  lemma {:induction false} SameLogs(prospective: Report, manifest: Manifest, names: seq<string>,
                                    logs: map<string, seq<byte>>, rows: seq<Row>,
                                    originals: map<string, seq<byte>>, decoded: map<string, seq<byte>>, sha: seq<byte> -> string)
    requires Digests(sha) && |rows| == |names|
    requires forall i :: 0 <= i < |names| ==> names[i] in logs && rows[i] == RowFor(names[i], logs[names[i]], sha)
    requires forall name :: name in originals <==> name in names
    requires forall i :: 0 <= i < |names| ==> originals[names[i]] == logs[names[i]]
    requires forall name :: name in decoded <==> name in names
    requires forall i :: 0 <= i < |names| ==> RowData(names[i], rows[i], sha) == Some(decoded[names[i]])
    ensures decoded == originals
  {
    hide RowData, Digests;
    forall name | name in names ensures decoded[name] == originals[name] {
      var i :| 0 <= i < |names| && names[i] == name;
      RowIsCanonical(name, rows[i], decoded[name], sha);
      DecodeEncode(decoded[name]);
      DecodeEncode(logs[name]);
    }
  }

  /** The producer's bundle always passes the independent validator. */
  lemma {:induction false} ProducedIsValid(report: Report, manifest: Manifest, logs: map<string, seq<byte>>,
                                           sha: seq<byte> -> string,
                                           dumps: Bundle -> seq<byte>, loads: seq<byte> -> Option<Bundle>)
    requires Digests(sha) && ReadsBack(dumps, loads)
    requires Producible(report, manifest, true, logs, sha, dumps) && Identified(report, manifest)
    ensures var names := MembersOf(manifest.platform);
      var raw := dumps(BundleOf(report, manifest.platform, Rows(names, logs, sha)));
      Valid(report.(evidence := Replaced(report, names, raw, sha)), manifest, raw, sha, loads)
  {
    hide MembersOf, Originals, RowData, IsHex, Identified, IsPlatform, AllBytes, AllTexts;
    var names := MembersOf(manifest.platform);
    MembersAreOriginals(manifest.platform);
    var rows := Rows(names, logs, sha);
    var bundle := BundleOf(report, manifest.platform, rows);
    var raw := dumps(bundle);
    var prospective := report.(evidence := Replaced(report, names, raw, sha));
    MembersAreDistinct(manifest.platform);
    SameHeader(report, prospective.evidence, manifest);
    assert loads(raw) == Some(bundle);
    assert IsHex(sha(raw), 64);
    forall i | 0 <= i < |names| ensures RowData(names[i], rows[i], sha).Some? {
      assert Bound(names[i], logs, report.evidence, sha);
      RowIsCanonical(names[i], rows[i], logs[names[i]], sha);
    }
  }

  /** Producer and validator undo each other: for every set of logs the producer accepts, validating
      its bundle under its evidence succeeds, and whatever validation returns are the original bytes. */
  lemma {:induction false} RoundTrip(report: Report, manifest: Manifest, logs: map<string, seq<byte>>,
                                     sha: seq<byte> -> string,
                                     dumps: Bundle -> seq<byte>, loads: seq<byte> -> Option<Bundle>)
    requires Digests(sha) && ReadsBack(dumps, loads)
    requires Producible(report, manifest, true, logs, sha, dumps) && Identified(report, manifest)
    ensures var names := MembersOf(manifest.platform);
      var raw := dumps(BundleOf(report, manifest.platform, Rows(names, logs, sha)));
      Valid(report.(evidence := Replaced(report, names, raw, sha)), manifest, raw, sha, loads) &&
      forall i :: 0 <= i < |names| ==> RowData(names[i], loads(raw).value.members[i], sha) == Some(logs[names[i]])
  {
    hide MembersOf, RowData, IsHex, Identified, IsPlatform, Valid, Digests, AllBytes, AllTexts;
    var names := MembersOf(manifest.platform);
    var bundle := BundleOf(report, manifest.platform, Rows(names, logs, sha));
    ProducedIsValid(report, manifest, logs, sha, dumps, loads);
    assert loads(dumps(bundle)) == Some(bundle);
    forall i | 0 <= i < |names| ensures RowData(names[i], bundle.members[i], sha) == Some(logs[names[i]]) {
      assert Bound(names[i], logs, report.evidence, sha);
      RowIsCanonical(names[i], bundle.members[i], logs[names[i]], sha);
    }
  }

  /** The converse: any bundle the validator accepts for this report and manifest, from whatever
      producer, holds exactly the rows this producer would write for the bytes it returns. */
  lemma {:induction false} AcceptedIsProduced(report: Report, manifest: Manifest, raw: seq<byte>,
                                              sha: seq<byte> -> string,
                                              loads: seq<byte> -> Option<Bundle>, logs: map<string, seq<byte>>)
    requires Digests(sha) && Valid(report, manifest, raw, sha, loads)
    requires forall i :: 0 <= i < |MembersOf(report.platform)| ==> MembersOf(report.platform)[i] in logs
    requires forall i :: 0 <= i < |MembersOf(report.platform)| ==>
               RowData(MembersOf(report.platform)[i], loads(raw).value.members[i], sha) == Some(logs[MembersOf(report.platform)[i]])
    ensures loads(raw).value == BundleOf(report, manifest.platform, Rows(MembersOf(report.platform), logs, sha))
  {
    hide MembersOf, RowData, IsHex, IsPlatform, Recorded, Digests;
    var names, bundle := MembersOf(report.platform), loads(raw).value;
    var rows := Rows(names, logs, sha);
    forall i | 0 <= i < |names| ensures bundle.members[i] == rows[i] {
      RowIsCanonical(names[i], bundle.members[i], logs[names[i]], sha);
    }
    assert bundle.members == rows;
  }
}
