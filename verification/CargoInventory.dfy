/** The Cargo half of the dependency inventory (dependency_evidence.py): which packages of a lockfile
    are shipped, and for which reasons.

    The regular expression of a dependency reference and the version expression are inputs: a
    reference arrives matched or malformed, and `validVersion` says which versions pass. */
module CargoInventory {
  import opened Limits
  import opened Wrappers
  import opened Ordering
  import opened PythonText
  import opened Reachability
  import opened Sequences

  datatype Reference = Malformed | Ref(name: string, version: Option<string>)

  /** A package table of the lockfile; a missing name or version is the empty string. */
  datatype RawPackage = RawPackage(name: string, version: string, source: Option<string>, checksum: Option<string>,
                                   dependencies: seq<Reference>)

  datatype Key = Key(name: string, version: string, source: Option<string>)

  /** One row of the inventory; `digest` is missing for a local package. */
  datatype Entry = Entry(name: string, version: string, source: string, digest: Option<string>, scopes: seq<string>)

  function KeyOf(raw: RawPackage): Key {
    Key(raw.name, raw.version, raw.source)
  }

  // ---------------------------------------------------------------- checks on one package

  predicate CrateName(name: string) {
    |name| <= 256 && name != "" &&
    forall i :: 0 <= i < |name| ==>
      'A' <= name[i] <= 'Z' || 'a' <= name[i] <= 'z' || '0' <= name[i] <= '9' || name[i] == '_' || name[i] == '-'
  }

  const REGISTRY := "registry+https://"

  predicate RegistrySource(source: string) {
    REGISTRY <= source && |source| <= 2048 && forall i :: 0 <= i < |source| ==> '\U{21}' <= source[i] <= '\U{7E}'
  }

  /** The code one package is refused with, if any. */
  function Fault(raw: RawPackage, locals: map<string, string>, validVersion: string -> bool): Option<string> {
    if raw.name == "" || raw.version == "" then Some("SOURCE_MALFORMED")
    else if !CrateName(raw.name) then Some("PACKAGE_UNSAFE")
    else if !validVersion(raw.version) then Some("PACKAGE_MALFORMED")
    else if raw.source.None? then
      if raw.name in locals && locals[raw.name] == raw.version && raw.checksum.None? then None
      else Some("PACKAGE_INTEGRITY_MISSING")
    else if !RegistrySource(raw.source.value) then Some("PACKAGE_SOURCE_UNSUPPORTED")
    else if raw.checksum.None? || !IsHex(raw.checksum.value, 64) then Some("PACKAGE_INTEGRITY_MISSING")
    else None
  }

  /** A name of 1 to 256 letters, digits, underscores and hyphens. */
  ghost predicate IsCrateName(name: string) {
    1 <= |name| <= 256 &&
    forall i :: 0 <= i < |name| ==>
      'A' <= name[i] <= 'Z' || 'a' <= name[i] <= 'z' || '0' <= name[i] <= '9' || name[i] == '_' || name[i] == '-'
  }

  /** A printable address of a registry, of at most 2048 characters. */
  ghost predicate IsRegistryAddress(source: string) {
    |"registry+https://"| <= |source| <= 2048 && source[..|"registry+https://"|] == "registry+https://" &&
    forall c :: c in source ==> 0x21 <= c as int <= 0x7E
  }

  /** The 64 lower-case hexadecimal digits of a SHA-256 digest. */
  ghost predicate IsSha256(digest: string) {
    |digest| == 64 && forall c :: c in digest ==> '0' <= c <= '9' || 'a' <= c <= 'f'
  }

  /** What a package must be: a local one of the version its manifest gives, without a digest, or one
      of a registry, with a digest. */
  ghost predicate Sound(raw: RawPackage, locals: map<string, string>, validVersion: string -> bool) {
    && IsCrateName(raw.name) && raw.version != "" && validVersion(raw.version)
    && (match raw.source
        case None => raw.checksum.None? && raw.name in locals && locals[raw.name] == raw.version
        case Some(source) => IsRegistryAddress(source) && raw.checksum.Some? && IsSha256(raw.checksum.value))
  }

  /** A package is refused exactly when it is not sound, and the code tells what is wrong with it. */
  lemma {:induction false} FaultMeaning(raw: RawPackage, locals: map<string, string>, validVersion: string -> bool)
    ensures Fault(raw, locals, validVersion).None? <==> Sound(raw, locals, validVersion)
    ensures Fault(raw, locals, validVersion) == Some("SOURCE_MALFORMED") <==> raw.name == "" || raw.version == ""
    ensures Fault(raw, locals, validVersion) == Some("PACKAGE_UNSAFE") <==>
              raw.name != "" && raw.version != "" && !IsCrateName(raw.name)
    ensures Fault(raw, locals, validVersion) == Some("PACKAGE_MALFORMED") <==>
              raw.version != "" && IsCrateName(raw.name) && !validVersion(raw.version)
    ensures Fault(raw, locals, validVersion) == Some("PACKAGE_SOURCE_UNSUPPORTED") <==>
              raw.version != "" && IsCrateName(raw.name) && validVersion(raw.version) &&
              raw.source.Some? && !IsRegistryAddress(raw.source.value)
    ensures Fault(raw, locals, validVersion).Some? ==>
              Fault(raw, locals, validVersion).value in
              {"SOURCE_MALFORMED", "PACKAGE_UNSAFE", "PACKAGE_MALFORMED", "PACKAGE_SOURCE_UNSUPPORTED", "PACKAGE_INTEGRITY_MISSING"}
  {
    assert raw.name != "" ==> (CrateName(raw.name) <==> IsCrateName(raw.name));
    if raw.source.Some? { RegistryMeaning(raw.source.value); }
    if raw.checksum.Some? { Sha256Meaning(raw.checksum.value); }
    CodesDiffer();
  }

  lemma {:induction false} CodesDiffer()
    ensures Distinct(["SOURCE_MALFORMED", "PACKAGE_UNSAFE", "PACKAGE_MALFORMED", "PACKAGE_SOURCE_UNSUPPORTED",
                      "PACKAGE_INTEGRITY_MISSING"])
  {
    assert "PACKAGE_UNSAFE"[8] == 'U' && "PACKAGE_MALFORMED"[8] == 'M' && "PACKAGE_SOURCE_UNSUPPORTED"[8] == 'S';
    assert "PACKAGE_INTEGRITY_MISSING"[8] == 'I' && "SOURCE_MALFORMED"[0] == 'S' && "PACKAGE_UNSAFE"[0] == 'P';
  }

  lemma {:induction false} RegistryMeaning(source: string)
    ensures RegistrySource(source) <==> IsRegistryAddress(source)
  {
    var front := "registry+https://";
    assert front <= source <==> |front| <= |source| && source[..|front|] == front;
    if RegistrySource(source) {
      forall c | c in source ensures 0x21 <= c as int <= 0x7E {
        var i :| 0 <= i < |source| && source[i] == c;
      }
    }
    if IsRegistryAddress(source) {
      forall i | 0 <= i < |source| ensures '\U{21}' <= source[i] <= '\U{7E}' {
        assert source[i] in source;
      }
    }
  }

  lemma {:induction false} Sha256Meaning(digest: string)
    ensures IsHex(digest, 64) <==> IsSha256(digest)
  {
    if IsSha256(digest) {
      forall i | 0 <= i < |digest| ensures '0' <= digest[i] <= '9' || 'a' <= digest[i] <= 'f' {
        assert digest[i] in digest;
      }
    }
  }

  function KeySet(raws: seq<RawPackage>): set<Key> {
    set raw | raw in raws :: KeyOf(raw)
  }

  ghost predicate DistinctKeys(raws: seq<RawPackage>) {
    forall i, j :: 0 <= i < j < |raws| ==> KeyOf(raws[i]) != KeyOf(raws[j])
  }

  /** The dictionary of packages. */
  function Table(raws: seq<RawPackage>): map<Key, RawPackage> {
    if raws == [] then map[] else Table(raws[..|raws| - 1])[KeyOf(raws[|raws| - 1]) := raws[|raws| - 1]]
  }

  /** The first refusal while the packages are entered one by one. */
  function FirstFault(raws: seq<RawPackage>, locals: map<string, string>,
                      validVersion: string -> bool): Option<string> {
    if raws == [] then None
    else
      var n := |raws| - 1;
      var earlier := FirstFault(raws[..n], locals, validVersion);
      if earlier.Some? then earlier
      else if Fault(raws[n], locals, validVersion).Some? then Fault(raws[n], locals, validVersion)
      else if KeyOf(raws[n]) in Table(raws[..n]) then Some("PACKAGE_DUPLICATE")
      else None
  }

  lemma {:induction false} TableHolds(raws: seq<RawPackage>)
    ensures Table(raws).Keys == KeySet(raws)
    ensures DistinctKeys(raws) ==> forall raw :: raw in raws ==> Table(raws)[KeyOf(raw)] == raw
  {
    if raws != [] {
      var n := |raws| - 1;
      TableHolds(raws[..n]);
      assert raws == raws[..n] + [raws[n]];
      assert KeySet(raws) == KeySet(raws[..n]) + {KeyOf(raws[n])};
      if DistinctKeys(raws) {
        assert DistinctKeys(raws[..n]);
        forall raw | raw in raws ensures Table(raws)[KeyOf(raw)] == raw {
          var i :| 0 <= i < |raws| && raws[i] == raw;
          if i < n { assert raws[..n][i] == raw; }
        }
      }
    }
  }

  /** No refusal means: every package is sound and no two share their identity. */
  lemma {:induction false} NoFault(raws: seq<RawPackage>, locals: map<string, string>, validVersion: string -> bool)
    ensures FirstFault(raws, locals, validVersion).None? <==>
              (forall raw :: raw in raws ==> Sound(raw, locals, validVersion)) && DistinctKeys(raws)
  {
    hide Fault, Sound, DistinctKeys, KeySet, Table;
    if raws == [] {
      assert DistinctKeys(raws) by { NoneAreDistinct(); }
    } else {
      var n := |raws| - 1;
      NoFault(raws[..n], locals, validVersion);
      TableHolds(raws[..n]);
      assert raws == raws[..n] + [raws[n]];
      DistinctLast(raws);
      FaultMeaning(raws[n], locals, validVersion);
    }
  }

  /** The packages are checked in order: the code is that of the first one that is refused on its own
      or has the identity of an earlier one. */
  lemma {:induction false} FirstFaultMeaning(raws: seq<RawPackage>, locals: map<string, string>,
                                             validVersion: string -> bool, code: string)
    ensures FirstFault(raws, locals, validVersion) == Some(code) <==>
              exists i :: 0 <= i < |raws| && RefusedAt(raws, i, locals, validVersion, code)
  {
    hide Fault, Sound, RefusedAt;
    if raws != [] {
      var n := |raws| - 1;
      FirstFaultMeaning(raws[..n], locals, validVersion, code);
      RefusedLast(raws, locals, validVersion, code);
      forall i | 0 <= i < n ensures RefusedAt(raws, i, locals, validVersion, code) <==> RefusedAt(raws[..n], i, locals, validVersion, code) {
        RefusedEarlier(raws, n, i, locals, validVersion, code);
      }
      if FirstFault(raws[..n], locals, validVersion).Some? {
        NoFault(raws[..n], locals, validVersion);
      }
    }
  }

  ghost predicate RefusedAt(raws: seq<RawPackage>, i: nat, locals: map<string, string>, validVersion: string -> bool,
                            code: string)
    requires i < |raws|
  {
    && (forall raw :: raw in raws[..i] ==> Sound(raw, locals, validVersion)) && DistinctKeys(raws[..i])
    && (if Sound(raws[i], locals, validVersion)
        then code == "PACKAGE_DUPLICATE" && exists earlier :: earlier in raws[..i] && KeyOf(earlier) == KeyOf(raws[i])
        else Fault(raws[i], locals, validVersion) == Some(code))
  }

  lemma {:induction false} RefusedEarlier(raws: seq<RawPackage>, n: nat, i: nat, locals: map<string, string>,
                                          validVersion: string -> bool, code: string)
    requires i < n <= |raws|
    ensures RefusedAt(raws, i, locals, validVersion, code) <==> RefusedAt(raws[..n], i, locals, validVersion, code)
  {
    hide Fault, Sound, DistinctKeys;
    assert raws[..n][..i] == raws[..i];
  }

  lemma {:induction false} RefusedLast(raws: seq<RawPackage>, locals: map<string, string>, validVersion: string -> bool,
                                       code: string)
    requires raws != []
    ensures RefusedAt(raws, |raws| - 1, locals, validVersion, code) <==>
              FirstFault(raws[..|raws| - 1], locals, validVersion).None? && FirstFault(raws, locals, validVersion) == Some(code)
  {
    hide Fault, Sound, DistinctKeys;
    var n := |raws| - 1;
    NoFault(raws[..n], locals, validVersion);
    FaultMeaning(raws[n], locals, validVersion);
    TableHolds(raws[..n]);
    assert KeyOf(raws[n]) in KeySet(raws[..n]) <==> exists earlier :: earlier in raws[..n] && KeyOf(earlier) == KeyOf(raws[n]);
  }

  lemma {:induction false} NoneAreDistinct()
    ensures DistinctKeys([])
  {
  }

  lemma {:induction false} DistinctLast(raws: seq<RawPackage>)
    requires raws != []
    ensures DistinctKeys(raws) <==>
              DistinctKeys(raws[..|raws| - 1]) && KeyOf(raws[|raws| - 1]) !in KeySet(raws[..|raws| - 1])
  {
    var n := |raws| - 1;
    var rest := raws[..n];
    if DistinctKeys(raws) {
      assert DistinctKeys(rest);
      forall raw | raw in rest ensures KeyOf(raw) != KeyOf(raws[n]) {
        var i :| 0 <= i < n && rest[i] == raw;
        assert raws[i] == raw;
      }
    }
    if DistinctKeys(rest) && KeyOf(raws[n]) !in KeySet(rest) {
      forall i, j | 0 <= i < j < |raws| ensures KeyOf(raws[i]) != KeyOf(raws[j]) {
        assert raws[i] == rest[i] && rest[i] in rest;
        if j < n { assert raws[j] == rest[j]; }
      }
    }
  }

  lemma {:induction false} FaultStays(raws: seq<RawPackage>, n: nat, locals: map<string, string>,
                                      validVersion: string -> bool)
    requires n <= |raws| && FirstFault(raws[..n], locals, validVersion).Some?
    ensures FirstFault(raws, locals, validVersion) == FirstFault(raws[..n], locals, validVersion)
  {
    if n == |raws| {
      assert raws[..n] == raws;
    } else {
      assert raws[..|raws| - 1][..n] == raws[..n];
      FaultStays(raws[..|raws| - 1], n, locals, validVersion);
    }
  }

  // ---------------------------------------------------------------- resolving a reference

  predicate Fits(key: Key, ref: Reference) {
    ref.Ref? && key.name == ref.name && (ref.version.None? || key.version == ref.version.value)
  }

  /** What a reference means: the only package that fits it. */
  ghost predicate Resolves(keys: set<Key>, ref: Reference, key: Key) {
    key in keys && Fits(key, ref) && forall other :: other in keys && Fits(other, ref) ==> other == key
  }

  ghost predicate CanResolve(keys: set<Key>, ref: Reference) {
    exists key :: Resolves(keys, ref, key)
  }

  /** The entries of `by_name` for one name. */
  function Versions(raws: seq<RawPackage>, name: string): seq<(string, Option<string>)> {
    if raws == [] then []
    else
      var last := raws[|raws| - 1];
      Versions(raws[..|raws| - 1], name) + (if last.name == name then [(last.version, last.source)] else [])
  }

  function Lookup(byName: map<string, seq<(string, Option<string>)>>, name: string): seq<(string, Option<string>)> {
    if name in byName then byName[name] else []
  }

  function Matching(candidates: seq<(string, Option<string>)>, version: Option<string>): seq<(string, Option<string>)> {
    if candidates == [] then []
    else
      var last := candidates[|candidates| - 1];
      Matching(candidates[..|candidates| - 1], version) +
      (if version.None? || last.0 == version.value then [last] else [])
  }

  /** `resolve_cargo_dependency`. */
  function Resolve(ref: Reference, byName: map<string, seq<(string, Option<string>)>>, keys: set<Key>): Result<Key> {
    if ref.Malformed? then Err("PACKAGE_MALFORMED")
    else
      var candidates := Matching(Lookup(byName, ref.name), ref.version);
      if |candidates| != 1 then Err("PACKAGE_UNRESOLVED")
      else
        var key := Key(ref.name, candidates[0].0, candidates[0].1);
        if key !in keys then Err("PACKAGE_UNRESOLVED") else Ok(key)
  }

  lemma {:induction false} MatchingVersions(raws: seq<RawPackage>, name: string, version: Option<string>)
    requires DistinctKeys(raws)
    ensures Distinct(Matching(Versions(raws, name), version))
    ensures forall c :: c in Matching(Versions(raws, name), version) <==>
              Key(name, c.0, c.1) in KeySet(raws) && Fits(Key(name, c.0, c.1), Ref(name, version))
  {
    hide Distinct;
    if raws == [] {
      assert Distinct(Matching(Versions(raws, name), version)) by { NothingRepeats<(string, Option<string>)>(); }
    } else {
      var n := |raws| - 1;
      var last := raws[n];
      var c := (last.version, last.source);
      assert DistinctKeys(raws[..n]);
      MatchingVersions(raws[..n], name, version);
      assert raws == raws[..n] + [last];
      assert KeySet(raws) == KeySet(raws[..n]) + {KeyOf(last)};
      assert KeyOf(last) !in KeySet(raws[..n]);
      var before := Versions(raws[..n], name);
      assert (before + [c])[..|before|] == before && before + [] == before;
      if last.name == name {
        var matched := Matching(before, version);
        assert Matching(before + [c], version) ==
               matched + (if version.None? || c.0 == version.value then [c] else []);
        assert matched + [] == matched;
        assert KeyOf(last) == Key(name, c.0, c.1);
        DistinctAppend(matched, c);
      }
    }
  }

  lemma {:induction false} OnlyElement<T>(s: seq<T>, x: T)
    requires Distinct(s) && x in s && forall y :: y in s ==> y == x
    ensures s == [x]
  {
    hide Distinct;
    var rest := s[1..];
    assert rest == [] || rest[0] in rest;
    DistinctTail(s);
    assert s == [s[0]] + rest;
  }

  ghost predicate Indexes(byName: map<string, seq<(string, Option<string>)>>, raws: seq<RawPackage>) {
    forall name :: Lookup(byName, name) == Versions(raws, name)
  }

  /** The code for a reference that means no package. */
  function CodeOf(ref: Reference): string {
    if ref.Malformed? then "PACKAGE_MALFORMED" else "PACKAGE_UNRESOLVED"
  }

  /** `error` is the code of the first of the references that means no package. */
  ghost predicate FirstRefused(keys: set<Key>, refs: seq<Reference>, error: string) {
    exists i :: 0 <= i < |refs| && !CanResolve(keys, refs[i]) && error == CodeOf(refs[i]) &&
      forall j :: 0 <= j < i ==> CanResolve(keys, refs[j])
  }

  /** Resolution finds the package a reference means, and fails exactly when it means none. */
  lemma {:induction false} ResolveMeaning(raws: seq<RawPackage>, byName: map<string, seq<(string, Option<string>)>>,
                                          ref: Reference)
    requires DistinctKeys(raws) && Indexes(byName, raws)
    ensures var r := Resolve(ref, byName, KeySet(raws));
            && (r.Ok? ==> Resolves(KeySet(raws), ref, r.value))
            && (r.Err? ==> !CanResolve(KeySet(raws), ref))
            && (r.Err? ==> r.error == CodeOf(ref))
  {
    hide Indexes, KeySet, Matching, Versions, Lookup;
    if ref.Ref? {
      assert Lookup(byName, ref.name) == Versions(raws, ref.name) by { IndexesAt(byName, raws, ref.name); }
      MatchingVersions(raws, ref.name, ref.version);
      var keys := KeySet(raws);
      var candidates := Matching(Lookup(byName, ref.name), ref.version);
      assert ref == Ref(ref.name, ref.version);
      if |candidates| == 1 {
        var key := Key(ref.name, candidates[0].0, candidates[0].1);
        assert candidates[0] in candidates;
        forall other | other in keys && Fits(other, ref) ensures other == key {
          assert (other.version, other.source) in candidates;
        }
      }
      if CanResolve(keys, ref) {
        var key :| Resolves(keys, ref, key);
        assert key == Key(ref.name, key.version, key.source);
        forall c | c in candidates ensures c == (key.version, key.source) {
          assert Key(ref.name, c.0, c.1) == key;
        }
        OnlyElement(candidates, (key.version, key.source));
      }
    }
  }

  lemma {:induction false} IndexesAt(byName: map<string, seq<(string, Option<string>)>>, raws: seq<RawPackage>,
                                     name: string)
    requires Indexes(byName, raws)
    ensures Lookup(byName, name) == Versions(raws, name)
  {
  }

  /** Local packages: the name stands for the manifest's version, without a source, and nothing else. */
  ghost predicate LocalsPresent(keys: set<Key>, locals: map<string, string>) {
    forall name :: name in locals ==> LocalPresent(keys, name, locals[name])
  }

  ghost predicate LocalPresent(keys: set<Key>, name: string, version: string) {
    Key(name, version, None) in keys && forall key :: key in keys && key.name == name ==> key == Key(name, version, None)
  }

  lemma {:induction false} LocalMeaning(raws: seq<RawPackage>, byName: map<string, seq<(string, Option<string>)>>,
                                        name: string, version: string)
    requires DistinctKeys(raws) && Indexes(byName, raws)
    ensures Lookup(byName, name) == [(version, None)] <==> LocalPresent(KeySet(raws), name, version)
  {
    hide Indexes, KeySet, Versions, Lookup, LocalPresent;
    VersionsFound(raws, byName, name);
    if Lookup(byName, name) == [(version, None)] {
      OnlyVersionIsLocal(KeySet(raws), Lookup(byName, name), name, version);
    }
    if LocalPresent(KeySet(raws), name, version) {
      LocalIsOnlyVersion(KeySet(raws), Lookup(byName, name), name, version);
    }
  }

  /** The index lists under a name exactly the packages that bear it, each once. */
  ghost predicate Lists(keys: set<Key>, found: seq<(string, Option<string>)>, name: string) {
    Distinct(found) && forall c :: c in found <==> Key(name, c.0, c.1) in keys
  }

  lemma {:induction false} VersionsFound(raws: seq<RawPackage>, byName: map<string, seq<(string, Option<string>)>>,
                                         name: string)
    requires DistinctKeys(raws) && Indexes(byName, raws)
    ensures Lists(KeySet(raws), Lookup(byName, name), name)
  {
    hide Indexes, KeySet, Versions, Lookup, Distinct;
    IndexesAt(byName, raws, name);
    MatchingVersions(raws, name, None);
    MatchingAll(Lookup(byName, name));
  }

  lemma {:induction false} OnlyVersionIsLocal(keys: set<Key>, found: seq<(string, Option<string>)>, name: string,
                                              version: string)
    requires Lists(keys, found, name) && found == [(version, None)]
    ensures LocalPresent(keys, name, version)
  {
    hide Distinct;
    assert (version, None) in found;
    forall key | key in keys && key.name == name ensures key == Key(name, version, None) {
      assert key == Key(name, key.version, key.source);
      assert (key.version, key.source) in found;
    }
  }

  lemma {:induction false} LocalIsOnlyVersion(keys: set<Key>, found: seq<(string, Option<string>)>, name: string,
                                              version: string)
    requires Lists(keys, found, name) && LocalPresent(keys, name, version)
    ensures found == [(version, None)]
  {
    hide Distinct;
    assert (version, None) in found;
    forall c | c in found ensures c == (version, None) {
      assert Key(name, c.0, c.1) in keys;
    }
    OnlyElement(found, (version, None));
  }

  lemma {:induction false} MatchingAll(candidates: seq<(string, Option<string>)>)
    ensures Matching(candidates, None) == candidates
  {
    if candidates != [] {
      var n := |candidates| - 1;
      MatchingAll(candidates[..n]);
      assert candidates == candidates[..n] + [candidates[n]];
    }
  }

  // ---------------------------------------------------------------- the dependency graph

  ghost function Targets(keys: set<Key>, refs: seq<Reference>): set<Key> {
    set key, ref | key in keys && ref in refs && Resolves(keys, ref, key) :: key
  }

  /** An edge leads from a package to every package one of its references means. */
  ghost function Graph(packages: map<Key, RawPackage>): map<Key, set<Key>> {
    map key | key in packages :: Targets(packages.Keys, packages[key].dependencies)
  }

  /** The packages the manifests name directly, each with its scope. */
  ghost function DirectStates(keys: set<Key>, direct: seq<(Reference, string)>): set<(Key, string)> {
    set key, d | key in keys && d in direct && Resolves(keys, d.0, key) :: (key, d.1)
  }

  /** Every reference that matters means a package: the direct ones, and those of every package
      reached from them. */
  ghost predicate Resolvable(packages: map<Key, RawPackage>, direct: seq<(Reference, string)>) {
    && (forall d :: d in direct ==> CanResolve(packages.Keys, d.0))
    && (forall state :: Reached(Graph(packages), DirectStates(packages.Keys, direct), state) && state.0 in packages ==>
          AllResolve(packages.Keys, packages[state.0].dependencies))
  }

  ghost predicate AllResolve(keys: set<Key>, refs: seq<Reference>) {
    forall ref :: ref in refs ==> CanResolve(keys, ref)
  }

  /** Why a package is in the inventory: it is local, or a direct dependency of the scope reaches it. */
  ghost predicate InScope(packages: map<Key, RawPackage>, locals: map<string, string>, direct: seq<(Reference, string)>,
                          localScope: string, key: Key, scope: string) {
    || (IsLocal(key, locals) && scope == localScope)
    || Reached(Graph(packages), DirectStates(packages.Keys, direct), (key, scope))
  }

  predicate IsLocal(key: Key, locals: map<string, string>) {
    key.source.None? && key.name in locals && key.version == locals[key.name]
  }

  /** Exactly the inputs an inventory is produced for. */
  ghost predicate Accepted(raws: seq<RawPackage>, locals: map<string, string>, direct: seq<(Reference, string)>,
                           localScope: string, validVersion: string -> bool) {
    && |raws| <= 16384
    && (forall raw :: raw in raws ==> Sound(raw, locals, validVersion)) && DistinctKeys(raws)
    && LocalsPresent(KeySet(raws), locals)
    && Resolvable(Table(raws), direct)
    && EveryPackageScoped(Table(raws), locals, direct, localScope)
  }

  ghost predicate EveryPackageScoped(packages: map<Key, RawPackage>, locals: map<string, string>,
                                     direct: seq<(Reference, string)>, localScope: string) {
    forall key :: key in packages ==> exists scope :: InScope(packages, locals, direct, localScope, key, scope)
  }

  function NormalizedSource(source: Option<string>, localScope: string): string {
    if source.Some? then source.value else if localScope == "workspace" then "workspace" else "component-local"
  }

  function SortKey(e: Entry): (string, string, string) {
    (e.name, e.version, e.source)
  }

  predicate EntryBefore(a: Entry, b: Entry) {
    TripleBefore(SortKey(a), SortKey(b))
  }

  /** The order of the rows: by name, then version, then source. */
  lemma {:induction false} RowOrder(a: Entry, b: Entry)
    ensures EntryBefore(a, b) <==>
            || ComesFirst(a.name, b.name)
            || (a.name == b.name && ComesFirst(a.version, b.version))
            || (a.name == b.name && a.version == b.version && ComesFirst(a.source, b.source))
  {
    hide Before, ComesFirst;
    BeforeMeaning(a.name, b.name);
    BeforeMeaning(a.version, b.version);
    BeforeMeaning(a.source, b.source);
  }

  /** The row of a package: its identity and digest, and its scopes in order. */
  ghost predicate Describes(e: Entry, raw: RawPackage, packages: map<Key, RawPackage>, locals: map<string, string>,
                            direct: seq<(Reference, string)>, localScope: string) {
    && e.name == raw.name && e.version == raw.version && e.source == NormalizedSource(raw.source, localScope)
    && e.digest == raw.checksum
    && Sorted(e.scopes, Before)
    && forall scope :: scope in e.scopes <==> InScope(packages, locals, direct, localScope, KeyOf(raw), scope)
  }

  /** The inventory of a lockfile: one row for each package, in order. */
  ghost predicate IsInventory(out: seq<Entry>, raws: seq<RawPackage>, locals: map<string, string>,
                              direct: seq<(Reference, string)>, localScope: string) {
    && Sorted(out, EntryBefore) && |out| == |raws|
    && (forall raw :: raw in raws ==> exists e :: e in out && Describes(e, raw, Table(raws), locals, direct, localScope))
    && (forall e :: e in out ==> exists raw :: raw in raws && Describes(e, raw, Table(raws), locals, direct, localScope))
  }

  // ---------------------------------------------------------------- the program

  /** The loop over the raw packages: the dictionary and the index by name. */
  method EnterPackages(raws: seq<RawPackage>, locals: map<string, string>, validVersion: string -> bool)
    returns (fault: Option<string>, packages: map<Key, RawPackage>, byName: map<string, seq<(string, Option<string>)>>)
    ensures fault == FirstFault(raws, locals, validVersion)
    ensures fault.None? ==> packages == Table(raws) && Indexes(byName, raws)
  {
    hide Fault;
    packages, byName := map[], map[];
    for i := 0 to |raws|
      invariant FirstFault(raws[..i], locals, validVersion).None?
      invariant packages == Table(raws[..i]) && Indexes(byName, raws[..i])
    {
      var raw := raws[i];
      assert raws[..i + 1][..i] == raws[..i];
      fault := Fault(raw, locals, validVersion);
      if fault.None? && KeyOf(raw) in packages {
        fault := Some("PACKAGE_DUPLICATE");
      }
      if fault.Some? {
        FaultStays(raws, i + 1, locals, validVersion);
        return;
      }
      packages := packages[KeyOf(raw) := raw];
      byName := byName[raw.name := Lookup(byName, raw.name) + [(raw.version, raw.source)]];
      IndexGrows(raws, i, byName);
    }
    assert raws[..|raws|] == raws;
    fault := None;
  }

  lemma {:induction false} IndexGrows(raws: seq<RawPackage>, i: nat, byName: map<string, seq<(string, Option<string>)>>)
    requires i < |raws|
    requires Lookup(byName, raws[i].name) == Versions(raws[..i], raws[i].name) + [(raws[i].version, raws[i].source)]
    requires forall name :: name != raws[i].name ==> Lookup(byName, name) == Versions(raws[..i], name)
    ensures Indexes(byName, raws[..i + 1])
  {
    assert raws[..i + 1][..i] == raws[..i];
    forall name ensures Lookup(byName, name) == Versions(raws[..i + 1], name) {
      assert Versions(raws[..i], name) + [] == Versions(raws[..i], name);
    }
  }

  /** The loop over the local packages, which gives each of them the local scope. */
  method ScopeLocals(raws: seq<RawPackage>, packages: map<Key, RawPackage>,
                     byName: map<string, seq<(string, Option<string>)>>,
                     locals: map<string, string>, localScope: string)
    returns (scopes: Option<map<Key, set<string>>>)
    requires DistinctKeys(raws) && packages == Table(raws) && Indexes(byName, raws)
    ensures scopes.Some? <==> LocalsPresent(KeySet(raws), locals)
    ensures scopes.Some? ==> scopes.value.Keys == packages.Keys
    ensures scopes.Some? ==> forall key, s :: key in packages ==> (s in scopes.value[key] <==> IsLocal(key, locals) && s == localScope)
  {
    hide Indexes, Table, KeySet, DistinctKeys;
    TableHolds(raws);
    var current: map<Key, set<string>> := map key | key in packages :: {};
    var left := locals.Keys;
    while left != {}
      invariant left <= locals.Keys
      invariant forall name :: name in locals && name !in left ==> LocalPresent(KeySet(raws), name, locals[name])
      invariant current.Keys == packages.Keys
      invariant forall key, s :: key in packages ==>
                  (s in current[key] <==> IsLocal(key, locals) && key.name !in left && s == localScope)
      decreases left
    {
      var name :| name in left;
      LocalMeaning(raws, byName, name, locals[name]);
      if Lookup(byName, name) != [(locals[name], None)] {
        return None;
      }
      var key := Key(name, locals[name], None);
      current := current[key := current[key] + {localScope}];
      left := left - {name};
    }
    scopes := Some(current);
  }

  /** Resolving is total on a list of references or stops at the first one that means no package. */
  method ScheduleDirect(raws: seq<RawPackage>, byName: map<string, seq<(string, Option<string>)>>, keys: set<Key>,
                        direct: seq<(Reference, string)>)
    returns (r: Result<seq<(Key, string)>>, scheduled: set<(Key, string)>)
    requires DistinctKeys(raws) && keys == KeySet(raws) && Indexes(byName, raws)
    ensures r.Ok? <==> forall d :: d in direct ==> CanResolve(keys, d.0)
    ensures r.Ok? ==> Distinct(r.value) && scheduled == DirectStates(keys, direct)
    ensures r.Ok? ==> forall state :: state in r.value <==> state in scheduled
    ensures r.Err? ==> FirstRefused(keys, References(direct), r.error)
  {
    hide Indexes, KeySet, DistinctKeys, Resolves, Resolve;
    var queue: seq<(Key, string)> := [];
    scheduled := {};
    for i := 0 to |direct|
      invariant forall j :: 0 <= j < i ==> CanResolve(keys, direct[j].0)
      invariant Distinct(queue) && scheduled == DirectStates(keys, direct[..i])
      invariant forall state :: state in queue <==> state in scheduled
    {
      var resolved := Resolve(direct[i].0, byName, keys);
      ResolveMeaning(raws, byName, direct[i].0);
      if resolved.Err? {
        assert direct[i] in direct;
        assert forall j :: 0 <= j <= i ==> References(direct)[j] == direct[j].0;
        return Err(resolved.error), scheduled;
      }
      var state := (resolved.value, direct[i].1);
      DirectStatesGrow(keys, direct, i, resolved.value);
      if state !in scheduled {
        DistinctAppend(queue, state);
        scheduled := scheduled + {state};
        queue := queue + [state];
      }
    }
    assert direct[..|direct|] == direct;
    r := Ok(queue);
  }

  function References(direct: seq<(Reference, string)>): seq<Reference> {
    seq(|direct|, i requires 0 <= i < |direct| => direct[i].0)
  }

  /** The first direct reference that means no package is reported; when all mean one, the first such
      reference of some reached package. */
  ghost predicate ResolutionError(packages: map<Key, RawPackage>, direct: seq<(Reference, string)>, error: string) {
    if exists d :: d in direct && !CanResolve(packages.Keys, d.0) then FirstRefused(packages.Keys, References(direct), error)
    else exists state :: Reached(Graph(packages), DirectStates(packages.Keys, direct), state) && state.0 in packages &&
           FirstRefused(packages.Keys, packages[state.0].dependencies, error)
  }

  lemma {:induction false} DirectStatesGrow(keys: set<Key>, direct: seq<(Reference, string)>, i: nat, key: Key)
    requires i < |direct| && Resolves(keys, direct[i].0, key)
    ensures DirectStates(keys, direct[..i + 1]) == DirectStates(keys, direct[..i]) + {(key, direct[i].1)}
  {
    assert direct[..i + 1] == direct[..i] + [direct[i]];
    forall other | Resolves(keys, direct[i].0, other) ensures other == key {}
  }

  lemma {:induction false} TargetsGrow(keys: set<Key>, refs: seq<Reference>, i: nat, key: Key)
    requires i < |refs| && Resolves(keys, refs[i], key)
    ensures Targets(keys, refs[..i + 1]) == Targets(keys, refs[..i]) + {key}
  {
    assert refs[..i + 1] == refs[..i] + [refs[i]];
    forall other | Resolves(keys, refs[i], other) ensures other == key {}
  }

  /** The inner loop of the worklist: schedules what one processed state leads to. */
  method Expand(raws: seq<RawPackage>, byName: map<string, seq<(string, Option<string>)>>,
                packages: map<Key, RawPackage>,
                ghost direct: set<(Key, string)>, ghost done: seq<(Key, string)>, current: (Key, string),
                scheduled0: set<(Key, string)>, queue0: seq<(Key, string)>)
    returns (error: Option<string>, scheduled: set<(Key, string)>, queue: seq<(Key, string)>)
    requires DistinctKeys(raws) && packages == Table(raws) && Indexes(byName, raws) && current.0 in packages
    requires Expanding(Graph(packages), direct, scheduled0, queue0, done, current, Graph(packages)[current.0])
    ensures error.None? <==> AllResolve(packages.Keys, packages[current.0].dependencies)
    ensures error.None? ==> Expanding(Graph(packages), direct, scheduled, queue, done, current, {})
    ensures error.Some? ==> FirstRefused(packages.Keys, packages[current.0].dependencies, error.value)
  {
    hide Indexes, Table, KeySet, DistinctKeys, Resolves, Resolve, Expanding, Targets;
    TableHolds(raws);
    ghost var graph := Graph(packages);
    var refs := packages[current.0].dependencies;
    scheduled, queue := scheduled0, queue0;
    NoTargets(packages.Keys, refs);
    assert graph[current.0] - {} == graph[current.0];
    for i := 0 to |refs|
      invariant forall j :: 0 <= j < i ==> CanResolve(packages.Keys, refs[j])
      invariant Expanding(graph, direct, scheduled, queue, done, current, graph[current.0] - Targets(packages.Keys, refs[..i]))
    {
      var resolved := Resolve(refs[i], byName, packages.Keys);
      ResolveMeaning(raws, byName, refs[i]);
      if resolved.Err? {
        assert refs[i] in refs;
        return Some(resolved.error), scheduled, queue;
      }
      var state := (resolved.value, current.1);
      TargetsGrow(packages.Keys, refs, i, resolved.value);
      IsTarget(packages.Keys, refs, refs[i], resolved.value);
      Schedule(graph, direct, scheduled, queue, done, current, graph[current.0] - Targets(packages.Keys, refs[..i]), resolved.value);
      assert graph[current.0] - Targets(packages.Keys, refs[..i]) - {resolved.value} ==
             graph[current.0] - Targets(packages.Keys, refs[..i + 1]);
      if state !in scheduled {
        scheduled := scheduled + {state};
        queue := queue + [state];
      }
    }
    assert refs[..|refs|] == refs;
    assert graph[current.0] - graph[current.0] == {};
    error := None;
  }

  lemma {:induction false} NoTargets(keys: set<Key>, refs: seq<Reference>)
    ensures Targets(keys, refs[..0]) == {}
  {
  }

  lemma {:induction false} IsTarget(keys: set<Key>, refs: seq<Reference>, ref: Reference, key: Key)
    requires ref in refs && Resolves(keys, ref, key)
    ensures key in Targets(keys, refs)
  {
  }

  ghost function Universe(packages: map<Key, RawPackage>, direct: set<(Key, string)>): set<(Key, string)> {
    set key, d | key in packages && d in direct :: (key, d.1)
  }

  lemma {:induction false} Start(packages: map<Key, RawPackage>, direct: seq<(Reference, string)>,
                                 queue: seq<(Key, string)>)
    requires Distinct(queue) && forall state :: state in queue <==> state in DirectStates(packages.Keys, direct)
    ensures Walking(Graph(packages), DirectStates(packages.Keys, direct), DirectStates(packages.Keys, direct), queue, [])
  {
    hide DirectStates, Reached, Distinct;
    var starts := DirectStates(packages.Keys, direct);
    assert Distinct<(Key, string)>([]) by { NothingRepeats<(Key, string)>(); }
    forall state | state in starts ensures Reached(Graph(packages), starts, state) {
      DirectIsReached(Graph(packages), starts, state);
    }
  }

  lemma {:induction false} UniverseBounds(packages: map<Key, RawPackage>, direct: seq<(Reference, string)>)
    ensures Bounds(Graph(packages), DirectStates(packages.Keys, direct), Universe(packages, DirectStates(packages.Keys, direct)))
  {
    var starts := DirectStates(packages.Keys, direct);
    forall state | state in starts ensures state in Universe(packages, starts) {
      assert state == (state.0, state.1) && state.0 in packages;
    }
  }

  lemma {:induction false} NextState(packages: map<Key, RawPackage>, direct: seq<(Reference, string)>,
                                     scheduled: set<(Key, string)>, queue: seq<(Key, string)>, order: seq<(Key, string)>)
    requires Walking(Graph(packages), DirectStates(packages.Keys, direct), scheduled, queue, order) && queue != []
    ensures queue[0].0 in packages && queue[0].0 in Graph(packages) && queue[0] !in order
    ensures queue[0] in Universe(packages, DirectStates(packages.Keys, direct))
    ensures Reached(Graph(packages), DirectStates(packages.Keys, direct), queue[0])
    ensures Resolvable(packages, direct) ==> AllResolve(packages.Keys, packages[queue[0].0].dependencies)
  {
    hide DirectStates, Reached, Distinct, Targets, AllResolve, CanResolve, Bounds;
    UniverseBounds(packages, direct);
    assert queue[0] in queue;
    WithinBounds(Graph(packages), DirectStates(packages.Keys, direct), Universe(packages, DirectStates(packages.Keys, direct)), queue[0]);
  }

  /** The worklist.  `order` lists the processed states: each reached state exactly once. */
  method Walk(raws: seq<RawPackage>, byName: map<string, seq<(string, Option<string>)>>, packages: map<Key, RawPackage>,
              direct: seq<(Reference, string)>, scopes0: map<Key, set<string>>)
    returns (error: Option<string>, scopes: map<Key, set<string>>, ghost order: seq<(Key, string)>)
    requires DistinctKeys(raws) && packages == Table(raws) && Indexes(byName, raws) && scopes0.Keys == packages.Keys
    ensures error.None? <==> Resolvable(packages, direct)
    ensures error.Some? ==> ResolutionError(packages, direct, error.value)
    ensures error.None? ==> scopes.Keys == packages.Keys
    ensures error.None? ==> forall key, s :: key in packages ==>
              (s in scopes[key] <==> s in scopes0[key] || Reached(Graph(packages), DirectStates(packages.Keys, direct), (key, s)))
    ensures error.None? ==> Distinct(order)
    ensures error.None? ==> forall state :: state in order <==> Reached(Graph(packages), DirectStates(packages.Keys, direct), state)
  {
    hide Indexes, Table, KeySet, DistinctKeys, DirectStates, Graph, Walking, Expanding, Reached, Targets;
    TableHolds(raws);
    ghost var graph, starts := Graph(packages), DirectStates(packages.Keys, direct);
    ghost var universe := Universe(packages, starts);
    scopes, order := scopes0, [];
    var initial, scheduled := ScheduleDirect(raws, byName, packages.Keys, direct);
    if initial.Err? {
      return Some(initial.error), scopes, order;
    }
    var queue := initial.value;
    var seen: set<(Key, string)> := {};
    Start(packages, direct, queue);
    while queue != []
      invariant Walking(graph, starts, scheduled, queue, order)
      invariant forall state :: state in seen <==> state in order
      invariant forall state :: state in order ==> state.0 in packages && AllResolve(packages.Keys, packages[state.0].dependencies)
      invariant scopes.Keys == packages.Keys
      invariant forall key, s :: key in packages ==> (s in scopes[key] <==> s in scopes0[key] || (key, s) in order)
      decreases universe - seen
    {
      var state := queue[0];
      NextState(packages, direct, scheduled, queue, order);
      Pop(graph, starts, scheduled, queue, order);
      queue := queue[1..];
      assert state !in seen;
      if state !in seen {
        seen := seen + {state};
        scopes := scopes[state.0 := scopes[state.0] + {state.1}];
        error, scheduled, queue := Expand(raws, byName, packages, starts, order, state, scheduled, queue);
        if error.Some? {
          return;
        }
        Finish(graph, starts, scheduled, queue, order, state);
        order := order + [state];
      }
    }
    WalkEnds(graph, starts, scheduled, order);
    error := None;
  }

  lemma {:induction false} EntriesOrder()
    ensures StrictOrder(EntryBefore)
  {
    hide TripleBefore;
    forall a: Entry, b: Entry | EntryBefore(a, b) ensures !EntryBefore(b, a) { TripleIsStrict(SortKey(a), SortKey(b)); }
    forall a: Entry, b: Entry, c: Entry | EntryBefore(a, b) && EntryBefore(b, c) ensures EntryBefore(a, c) {
      TripleIsTransitive(SortKey(a), SortKey(b), SortKey(c));
    }
  }

  /** A registry source never reads like the word for a local one, so rows of different packages
      never tie. */
  lemma {:induction false} SortKeysDiffer(a: RawPackage, b: RawPackage, locals: map<string, string>, localScope: string,
                                          validVersion: string -> bool)
    requires Sound(a, locals, validVersion) && Sound(b, locals, validVersion) && KeyOf(a) != KeyOf(b)
    ensures (a.name, a.version, NormalizedSource(a.source, localScope)) != (b.name, b.version, NormalizedSource(b.source, localScope))
  {
    if a.source.Some? { assert a.source.value[0] == 'r'; }
    if b.source.Some? { assert b.source.value[0] == 'r'; }
  }

  /** `output.sort(...)`. */
  method SortEntries(entries: seq<Entry>) returns (r: seq<Entry>)
    requires forall i, j :: 0 <= i < j < |entries| ==> SortKey(entries[i]) != SortKey(entries[j])
    ensures Sorted(r, EntryBefore) && |r| == |entries|
    ensures forall e :: e in r <==> e in entries
  {
    EntriesOrder();
    r := [];
    for i := 0 to |entries|
      invariant Sorted(r, EntryBefore) && |r| == i
      invariant forall e :: e in r <==> e in entries[..i]
    {
      forall e | e in r ensures EntryBefore(entries[i], e) || EntryBefore(e, entries[i]) {
        var j :| 0 <= j < i && entries[..i][j] == e;
        assert SortKey(entries[j]) != SortKey(entries[i]);
        TripleIsTotal(SortKey(entries[i]), SortKey(e));
      }
      r := Insert(r, entries[i], EntryBefore);
      assert entries[..i + 1] == entries[..i] + [entries[i]];
    }
    assert entries[..|entries|] == entries;
  }

  lemma {:induction false} RowDescribes(e: Entry, raw: RawPackage, packages: map<Key, RawPackage>,
                                        locals: map<string, string>,
                                        direct: seq<(Reference, string)>, localScope: string)
    requires e == Entry(raw.name, raw.version, NormalizedSource(raw.source, localScope), raw.checksum, e.scopes)
    requires Sorted(e.scopes, Before)
    requires forall scope :: scope in e.scopes <==> InScope(packages, locals, direct, localScope, KeyOf(raw), scope)
    ensures Describes(e, raw, packages, locals, direct, localScope)
  {
  }

  /** The loop that builds the rows; it stops at a package without a scope. */
  method BuildRows(raws: seq<RawPackage>, locals: map<string, string>, direct: seq<(Reference, string)>,
                   localScope: string,
                   scopes: map<Key, set<string>>)
    returns (rows: Option<seq<Entry>>)
    requires scopes.Keys == KeySet(raws)
    requires forall key, s :: key in scopes ==> (s in scopes[key] <==> InScope(Table(raws), locals, direct, localScope, key, s))
    ensures rows.Some? <==> EveryPackageScoped(Table(raws), locals, direct, localScope)
    ensures rows.Some? ==> |rows.value| == |raws|
    ensures rows.Some? ==>
              forall i :: 0 <= i < |raws| ==> Describes(rows.value[i], raws[i], Table(raws), locals, direct, localScope)
  {
    hide Table, InScope, NormalizedSource, Sorted, Describes;
    TableHolds(raws);
    var output: seq<Entry> := [];
    for i := 0 to |raws|
      invariant |output| == i
      invariant forall j :: 0 <= j < i ==> Describes(output[j], raws[j], Table(raws), locals, direct, localScope)
      invariant forall j :: 0 <= j < i ==> scopes[KeyOf(raws[j])] != {}
    {
      var raw := raws[i];
      if scopes[KeyOf(raw)] == {} {
        assert forall s :: !InScope(Table(raws), locals, direct, localScope, KeyOf(raw), s);
        return None;
      }
      var sorted := SortStrings(scopes[KeyOf(raw)]);
      var row := Entry(raw.name, raw.version, NormalizedSource(raw.source, localScope), raw.checksum, sorted);
      assert Describes(row, raw, Table(raws), locals, direct, localScope) by {
        RowDescribes(row, raw, Table(raws), locals, direct, localScope);
      }
      output := output + [row];
    }
    forall key | key in Table(raws) ensures exists s :: InScope(Table(raws), locals, direct, localScope, key, s) {
      var raw :| raw in raws && KeyOf(raw) == key;
      var s :| s in scopes[key];
    }
    rows := Some(output);
  }

  /** `resolved_cargo_component`: an inventory for exactly the accepted inputs, and for the others
      the code of the first phase that fails. */
  method ResolvedCargoComponent(raws: seq<RawPackage>, locals: map<string, string>, direct: seq<(Reference, string)>,
                                localScope: string, validVersion: string -> bool)
    returns (r: Result<seq<Entry>>)
    ensures r.Ok? <==> Accepted(raws, locals, direct, localScope, validVersion)
    ensures r.Ok? ==> IsInventory(r.value, raws, locals, direct, localScope)
    ensures r.Ok? ==> forall e :: e in r.value ==> RowSound(e, locals, localScope)
    ensures r.Err? ==> Explains(r.error, raws, locals, direct, validVersion)
  {
    hide Fault, Sound, DistinctKeys, Indexes, KeySet, Table, LocalsPresent, Resolvable, InScope, Reached, DirectStates, Graph,
         IsLocal, RowSound, IsInventory;
    if |raws| > MAX_PACKAGES {
      return Err("SOURCE_OVERSIZE");
    }
    NoFault(raws, locals, validVersion);
    var fault, packages, byName := EnterPackages(raws, locals, validVersion);
    if fault.Some? {
      return Err(fault.value);
    }
    TableHolds(raws);
    var localScopes := ScopeLocals(raws, packages, byName, locals, localScope);
    if localScopes.None? {
      return Err("MANIFEST_LOCK_MISMATCH");
    }
    var error, scopes, _ := Walk(raws, byName, packages, direct, localScopes.value);
    if error.Some? {
      return Err(error.value);
    }
    forall key, s | key in scopes ensures s in scopes[key] <==> InScope(packages, locals, direct, localScope, key, s) {
      ScopeMeaning(packages, locals, direct, localScope, key, s);
    }
    var rows := BuildRows(raws, locals, direct, localScope, scopes);
    if rows.None? {
      return Err("PACKAGE_UNREACHABLE");
    }
    RowsDiffer(raws, rows.value, locals, direct, localScope, validVersion);
    var output := SortEntries(rows.value);
    RowsAreInventory(raws, rows.value, output, locals, direct, localScope);
    RowsAreSound(output, raws, locals, direct, localScope, validVersion);
    r := Ok(output);
  }

  /** A row has a registry's address and a digest of 64 hexadecimal digits, or the label of a local
      source, no digest, and the version its manifest gives. */
  ghost predicate RowSound(e: Entry, locals: map<string, string>, localScope: string) {
    && 1 <= |e.name| <= 256 && e.version != ""
    && match e.digest
       case Some(digest) =>
         && |digest| == 64 && (forall c :: c in digest ==> '0' <= c <= '9' || 'a' <= c <= 'f')
         && |e.source| >= 17 && e.source[..17] == "registry+https://"
       case None =>
         && (localScope == "workspace" ==> e.source == "workspace")
         && (localScope != "workspace" ==> e.source == "component-local")
         && e.name in locals && locals[e.name] == e.version
  }

  lemma {:induction false} RowsAreSound(out: seq<Entry>, raws: seq<RawPackage>, locals: map<string, string>,
                                        direct: seq<(Reference, string)>, localScope: string,
                                        validVersion: string -> bool)
    requires IsInventory(out, raws, locals, direct, localScope)
    requires forall raw :: raw in raws ==> Sound(raw, locals, validVersion)
    ensures forall e :: e in out ==> RowSound(e, locals, localScope)
  {
    hide Sound, InScope, Sorted, NormalizedSource, IsInventory, Describes, RowSound;
    forall e | e in out ensures RowSound(e, locals, localScope) {
      RowHasPackage(out, e, raws, locals, direct, localScope);
      var raw :| raw in raws && Describes(e, raw, Table(raws), locals, direct, localScope);
      RowIsSound(e, raw, Table(raws), locals, direct, localScope, validVersion);
    }
  }

  lemma {:induction false} RowIsSound(e: Entry, raw: RawPackage, packages: map<Key, RawPackage>,
                                      locals: map<string, string>, direct: seq<(Reference, string)>,
                                      localScope: string, validVersion: string -> bool)
    requires Sound(raw, locals, validVersion) && Describes(e, raw, packages, locals, direct, localScope)
    ensures RowSound(e, locals, localScope)
  {
    hide InScope, Sorted;
    assert |"registry+https://"| == 17;
  }

  /** Which phase refuses an input, in the order the phases run. */
  ghost predicate Explains(error: string, raws: seq<RawPackage>, locals: map<string, string>,
                           direct: seq<(Reference, string)>,
                           validVersion: string -> bool) {
    if |raws| > 16384 then error == "SOURCE_OVERSIZE"
    else if FirstFault(raws, locals, validVersion).Some? then error == FirstFault(raws, locals, validVersion).value
    else if !LocalsPresent(KeySet(raws), locals) then error == "MANIFEST_LOCK_MISMATCH"
    else if !Resolvable(Table(raws), direct) then ResolutionError(Table(raws), direct, error)
    else error == "PACKAGE_UNREACHABLE"
  }

  lemma {:induction false} ScopeMeaning(packages: map<Key, RawPackage>, locals: map<string, string>,
                                        direct: seq<(Reference, string)>,
                                        localScope: string, key: Key, s: string)
    ensures InScope(packages, locals, direct, localScope, key, s) <==>
              (IsLocal(key, locals) && s == localScope) ||
              Reached(Graph(packages), DirectStates(packages.Keys, direct), (key, s))
  {
  }

  lemma {:induction false} RowsDiffer(raws: seq<RawPackage>, rows: seq<Entry>, locals: map<string, string>,
                                      direct: seq<(Reference, string)>,
                                      localScope: string, validVersion: string -> bool)
    requires DistinctKeys(raws) && forall raw :: raw in raws ==> Sound(raw, locals, validVersion)
    requires |rows| == |raws|
    requires forall i :: 0 <= i < |raws| ==> Describes(rows[i], raws[i], Table(raws), locals, direct, localScope)
    ensures forall i, j :: 0 <= i < j < |rows| ==> SortKey(rows[i]) != SortKey(rows[j])
  {
    hide Sound, InScope, NormalizedSource;
    forall i, j | 0 <= i < j < |rows| ensures SortKey(rows[i]) != SortKey(rows[j]) {
      assert raws[i] in raws && raws[j] in raws;
      SortKeysDiffer(raws[i], raws[j], locals, localScope, validVersion);
      assert Describes(rows[i], raws[i], Table(raws), locals, direct, localScope);
      assert Describes(rows[j], raws[j], Table(raws), locals, direct, localScope);
    }
  }

  lemma {:induction false} RowsAreInventory(raws: seq<RawPackage>, rows: seq<Entry>, out: seq<Entry>,
                                            locals: map<string, string>,
                                            direct: seq<(Reference, string)>, localScope: string)
    requires |rows| == |raws| == |out| && Sorted(out, EntryBefore) && forall e :: e in out <==> e in rows
    requires forall i :: 0 <= i < |raws| ==> Describes(rows[i], raws[i], Table(raws), locals, direct, localScope)
    ensures IsInventory(out, raws, locals, direct, localScope)
  {
    hide Describes, Sorted;
    forall raw | raw in raws ensures exists e :: e in out && Describes(e, raw, Table(raws), locals, direct, localScope) {
      var i :| 0 <= i < |raws| && raws[i] == raw;
      assert rows[i] in out;
    }
    forall e | e in out ensures exists raw :: raw in raws && Describes(e, raw, Table(raws), locals, direct, localScope) {
      var i :| 0 <= i < |rows| && rows[i] == e;
      assert raws[i] in raws;
    }
  }

  // ---------------------------------------------------------------- order independence

  lemma {:induction false} DistinctByCount(raws: seq<RawPackage>)
    ensures |KeySet(raws)| <= |raws|
    ensures |KeySet(raws)| == |raws| <==> DistinctKeys(raws)
  {
    hide DistinctKeys;
    if raws == [] {
      NoneAreDistinct();
    } else {
      var n := |raws| - 1;
      DistinctByCount(raws[..n]);
      DistinctLast(raws);
      assert raws == raws[..n] + [raws[n]];
      assert KeySet(raws) == KeySet(raws[..n]) + {KeyOf(raws[n])};
    }
  }

  /** Two lockfiles with the same packages in any order have the same dictionary. */
  lemma {:induction false} SameTable(one: seq<RawPackage>, two: seq<RawPackage>)
    requires |one| == |two| && (forall raw :: raw in one <==> raw in two)
    ensures KeySet(one) == KeySet(two)
    ensures DistinctKeys(one) <==> DistinctKeys(two)
    ensures DistinctKeys(one) ==> Table(one) == Table(two)
  {
    hide DistinctKeys, Table;
    assert KeySet(one) == KeySet(two);
    DistinctByCount(one);
    DistinctByCount(two);
    TableHolds(one);
    TableHolds(two);
    if DistinctKeys(one) {
      forall key | key in Table(one) ensures Table(one)[key] == Table(two)[key] {
        var raw :| raw in one && KeyOf(raw) == key;
        assert raw in two;
      }
      assert Table(one) == Table(two);
    }
  }

  /** Neither the order of the packages nor the order or repetition of the direct dependencies
      decides whether a lockfile is accepted, or any part of the inventory. */
  lemma {:induction false} OrderIndependent(raws1: seq<RawPackage>, raws2: seq<RawPackage>, locals: map<string, string>,
                                            direct1: seq<(Reference, string)>, direct2: seq<(Reference, string)>,
                                            localScope: string, validVersion: string -> bool)
    requires multiset(raws1) == multiset(raws2)
    requires forall d :: d in direct1 <==> d in direct2
    ensures Accepted(raws1, locals, direct1, localScope, validVersion) <==> Accepted(raws2, locals, direct2, localScope, validVersion)
    ensures Accepted(raws1, locals, direct1, localScope, validVersion) ==>
              forall out1, out2 ::
                (IsInventory(out1, raws1, locals, direct1, localScope) && IsInventory(out2, raws2, locals, direct2, localScope)
                 ==> out1 == out2)
  {
    hide Sound, DistinctKeys, Table, LocalsPresent, Resolvable, EveryPackageScoped, IsInventory;
    assert |raws1| == |multiset(raws1)| == |raws2|;
    assert forall raw :: raw in raws1 <==> raw in multiset(raws1);
    assert forall raw :: raw in raws2 <==> raw in multiset(raws2);
    SameTable(raws1, raws2);
    SameDirect(Table(raws1), direct1, direct2, locals, localScope);
    forall out1, out2 | Accepted(raws1, locals, direct1, localScope, validVersion) &&
        IsInventory(out1, raws1, locals, direct1, localScope) && IsInventory(out2, raws2, locals, direct2, localScope)
      ensures out1 == out2
    {
      SameRows(out1, out2, raws1, raws2, locals, direct1, direct2, localScope);
      SameRows(out2, out1, raws2, raws1, locals, direct2, direct1, localScope);
      EntriesOrder();
      InventoryIsSorted(out1, raws1, locals, direct1, localScope);
      InventoryIsSorted(out2, raws2, locals, direct2, localScope);
      SortedIsUnique(out1, out2, EntryBefore);
    }
  }

  lemma {:induction false} InventoryIsSorted(out: seq<Entry>, raws: seq<RawPackage>, locals: map<string, string>,
                                             direct: seq<(Reference, string)>, localScope: string)
    requires IsInventory(out, raws, locals, direct, localScope)
    ensures Sorted(out, EntryBefore)
  {
  }

  lemma {:induction false} SameDirect(packages: map<Key, RawPackage>, direct1: seq<(Reference, string)>,
                                      direct2: seq<(Reference, string)>,
                                      locals: map<string, string>, localScope: string)
    requires forall d :: d in direct1 <==> d in direct2
    ensures Resolvable(packages, direct1) <==> Resolvable(packages, direct2)
    ensures forall key, s :: InScope(packages, locals, direct1, localScope, key, s) <==> InScope(packages, locals, direct2, localScope, key, s)
    ensures EveryPackageScoped(packages, locals, direct1, localScope) <==> EveryPackageScoped(packages, locals, direct2, localScope)
  {
    hide Resolves, Reached, Graph, AllResolve, CanResolve;
    assert DirectStates(packages.Keys, direct1) == DirectStates(packages.Keys, direct2);
    forall key, s ensures InScope(packages, locals, direct1, localScope, key, s) <==> InScope(packages, locals, direct2, localScope, key, s) {}
    assert EveryPackageScoped(packages, locals, direct1, localScope) <==> EveryPackageScoped(packages, locals, direct2, localScope);
  }

  lemma {:induction false} SameRows(out1: seq<Entry>, out2: seq<Entry>, raws1: seq<RawPackage>, raws2: seq<RawPackage>,
                                    locals: map<string, string>, direct1: seq<(Reference, string)>, direct2: seq<(Reference, string)>,
                                    localScope: string)
    requires Table(raws1) == Table(raws2) && forall raw :: raw in raws1 <==> raw in raws2
    requires forall d :: d in direct1 <==> d in direct2
    requires IsInventory(out1, raws1, locals, direct1, localScope) && IsInventory(out2, raws2, locals, direct2, localScope)
    ensures forall e :: e in out1 ==> e in out2
  {
    hide Table, Describes, IsInventory;
    forall e | e in out1 ensures e in out2 {
      RowHasPackage(out1, e, raws1, locals, direct1, localScope);
      var raw :| raw in raws1 && Describes(e, raw, Table(raws1), locals, direct1, localScope);
      PackageHasRow(out2, raw, raws2, locals, direct2, localScope);
      var f :| f in out2 && Describes(f, raw, Table(raws2), locals, direct2, localScope);
      RowIsDetermined(e, f, raw, Table(raws1), locals, direct1, direct2, localScope);
    }
  }

  lemma {:induction false} RowHasPackage(out: seq<Entry>, e: Entry, raws: seq<RawPackage>, locals: map<string, string>,
                                         direct: seq<(Reference, string)>, localScope: string)
    requires IsInventory(out, raws, locals, direct, localScope) && e in out
    ensures exists raw :: raw in raws && Describes(e, raw, Table(raws), locals, direct, localScope)
  {
    hide Table, Describes, Sorted;
  }

  lemma {:induction false} PackageHasRow(out: seq<Entry>, raw: RawPackage, raws: seq<RawPackage>,
                                         locals: map<string, string>,
                                         direct: seq<(Reference, string)>, localScope: string)
    requires IsInventory(out, raws, locals, direct, localScope) && raw in raws
    ensures exists e :: e in out && Describes(e, raw, Table(raws), locals, direct, localScope)
  {
    hide Table, Describes, Sorted;
  }

  lemma {:induction false} RowIsDetermined(e: Entry, f: Entry, raw: RawPackage, packages: map<Key, RawPackage>,
                                           locals: map<string, string>,
                                           direct1: seq<(Reference, string)>, direct2: seq<(Reference, string)>, localScope: string)
    requires forall d :: d in direct1 <==> d in direct2
    requires Describes(e, raw, packages, locals, direct1, localScope) && Describes(f, raw, packages, locals, direct2, localScope)
    ensures e == f
  {
    hide InScope, Sorted, NormalizedSource, Resolvable, EveryPackageScoped, StrictOrder;
    SameDirect(packages, direct1, direct2, locals, localScope);
    StringsOrder();
    SortedIsUnique(e.scopes, f.scopes, Before);
  }
}
