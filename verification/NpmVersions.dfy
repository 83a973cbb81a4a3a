/** Versions of the same-name npm layout (package_local.py, publication.py): the payload version
    derived from a plan version and a platform, and its place in the precedence order of section
    11 of Semantic Versioning 2.0.0. */
module NpmVersions {
  import opened Ordering
  import opened Platforms
  import opened PythonText
  import opened Wrappers

  // ---------------------------------------------------------------- text

  predicate IsIdentifierChar(c: char) {
    IsDigit(c) || 'a' <= c <= 'z' || 'A' <= c <= 'Z' || c == '-'
  }

  function Digit(n: nat): char
    requires n < 10
  {
    '0' + n as char
  }

  /** Decimal text without leading zeros: what `(0|[1-9][0-9]*)` matches. */
  function Digits(n: nat): string {
    if n < 10 then [Digit(n)] else Digits(n / 10) + [Digit(n % 10)]
  }

  predicate AllIdentifierChars(s: string) {
    forall c :: c in s ==> IsIdentifierChar(c)
  }

  /** `s.partition(c)`: text before the first `c`, whether there is one, text after it. */
  function Partition(s: string, c: char): (string, bool, string) {
    if s == [] then ([], false, [])
    else if s[0] == c then ([], true, s[1..])
    else
      var (head, found, tail) := Partition(s[1..], c);
      ([s[0]] + head, found, tail)
  }

  // ---------------------------------------------------------------- Semantic Versioning 2.0.0

  datatype Identifier = Numeric(n: nat) | Alphanumeric(text: string)

  datatype SemVer = SemVer(major: nat, minor: nat, patch: nat, pre: seq<Identifier>)

  function ParseNumber(s: string): Option<nat> {
    if s != [] && AllDigits(s) && (|s| > 1 ==> s[0] != '0') then Some(Value(s)) else None
  }

  function ParseIdentifier(s: string): Option<Identifier> {
    if s == [] || !AllIdentifierChars(s) then None
    else if AllDigits(s) then
      var n := ParseNumber(s);
      if n.None? then None else Some(Numeric(n.value))
    else Some(Alphanumeric(s))
  }

  function ParseIdentifiers(parts: seq<string>): Option<seq<Identifier>> {
    if parts == [] then Some([])
    else
      var first := ParseIdentifier(parts[0]);
      var rest := ParseIdentifiers(parts[1..]);
      if first.None? || rest.None? then None else Some([first.value] + rest.value)
  }

  predicate ValidBuild(s: string) {
    forall part :: part in Split(s, '.') ==> part != [] && AllIdentifierChars(part)
  }

  /** The grammar of a SemVer text; build metadata is checked and, as precedence demands, dropped. */
  function ParseSemVer(s: string): Option<SemVer> {
    var (head, hasBuild, build) := Partition(s, '+');
    var (core, hasPre, pre) := Partition(head, '-');
    var parts := Split(core, '.');
    if (hasBuild && !ValidBuild(build)) || |parts| != 3 then None
    else
      var major := ParseNumber(parts[0]);
      var minor := ParseNumber(parts[1]);
      var patch := ParseNumber(parts[2]);
      var ids := if hasPre then ParseIdentifiers(Split(pre, '.')) else Some([]);
      if major.None? || minor.None? || patch.None? || ids.None? then None
      else Some(SemVer(major.value, minor.value, patch.value, ids.value))
  }

  predicate IdentifierBefore(a: Identifier, b: Identifier) {
    match (a, b)
    case (Numeric(m), Numeric(n)) => m < n
    case (Numeric(_), Alphanumeric(_)) => true
    case (Alphanumeric(_), Numeric(_)) => false
    case (Alphanumeric(s), Alphanumeric(t)) => Before(s, t)
  }

  /** Field by field from the left; when all common fields are equal the shorter list is lower. */
  predicate PreBefore(a: seq<Identifier>, b: seq<Identifier>) {
    b != [] && (a == [] || IdentifierBefore(a[0], b[0]) || (a[0] == b[0] && PreBefore(a[1..], b[1..])))
  }

  /** `a` has lower precedence than `b`. */
  predicate Precedes(a: SemVer, b: SemVer) {
    || a.major < b.major
    || (a.major == b.major && a.minor < b.minor)
    || (a.major == b.major && a.minor == b.minor && a.patch < b.patch)
    || (a.major == b.major && a.minor == b.minor && a.patch == b.patch &&
        (if b.pre == [] then a.pre != [] else a.pre != [] && PreBefore(a.pre, b.pre)))
  }

  /** Both texts are valid and the first has lower precedence. */
  predicate TextPrecedes(a: string, b: string) {
    ParseSemVer(a).Some? && ParseSemVer(b).Some? && Precedes(ParseSemVer(a).value, ParseSemVer(b).value)
  }

  // ---------------------------------------------------------------- plan and payload versions

  datatype Channel = Rc | Dev

  /** The versions the plan loader admits: `X.Y.Z`, `X.Y.Z-rc.N` and `X.Y.Z-dev.N`. */
  datatype PlanVersion = PlanVersion(major: nat, minor: nat, patch: nat, pre: Option<(Channel, nat)>)

  function ChannelText(c: Channel): string {
    if c.Rc? then "rc" else "dev"
  }

  function CoreText(v: PlanVersion): string {
    Digits(v.major) + ("." + (Digits(v.minor) + ("." + Digits(v.patch))))
  }

  function PreText(pre: (Channel, nat)): string {
    ChannelText(pre.0) + ("." + Digits(pre.1))
  }

  function VersionText(v: PlanVersion): string {
    if v.pre.None? then CoreText(v) else CoreText(v) + ("-" + PreText(v.pre.value))
  }

  predicate IsPlatform(platform: string) {
    platform in PLATFORMS
  }

  /** `npm_payload_version`. */
  function NpmPayloadVersion(version: string, platform: string): string {
    var (core, separator, prerelease) := Partition(version, '-');
    if separator then core + ("-0." + (prerelease + ("-" + platform)))
    else version + ("-" + platform)
  }

  function Payload(v: PlanVersion, platform: string): string {
    NpmPayloadVersion(VersionText(v), platform)
  }

  // ---------------------------------------------------------------- digits

  lemma {:induction false} DigitsShape(n: nat)
    ensures var s := Digits(n);
            s != [] && AllDigits(s) && (n > 0 ==> s[0] != '0') && (|s| > 1 ==> n > 0) && Value(s) == n
  {
    var s := Digits(n);
    if n < 10 {
      assert Value(s[..0]) == 0;
    } else {
      DigitsShape(n / 10);
      assert s[..|s| - 1] == Digits(n / 10);
      assert s[0] == Digits(n / 10)[0];
    }
  }

  lemma {:induction false} ParseDigits(n: nat)
    ensures ParseNumber(Digits(n)) == Some(n)
    ensures ParseIdentifier(Digits(n)) == Some(Numeric(n))
  {
    DigitsShape(n);
  }

  // ---------------------------------------------------------------- what the loader admits

  /** `0|[1-9][0-9]*`. */
  predicate Numeral(s: string) {
    s == "0" || (s != [] && s[0] != '0' && AllDigits(s))
  }

  /** `(?:-(?:rc|dev)\.(?:0|[1-9][0-9]*))?`. */
  ghost predicate ChannelTail(tail: string) {
    tail == "" || exists n :: Numeral(n) && (tail == "-rc." + n || tail == "-dev." + n)
  }

  /** The text the plan loader asks of a version: three numerals and an optional tail. */
  ghost predicate Admitted(s: string) {
    exists a, b, c, tail :: Numeral(a) && Numeral(b) && Numeral(c) && ChannelTail(tail) &&
      s == a + ("." + (b + ("." + (c + tail))))
  }

  lemma {:induction false} NumeralIsDigits(s: string)
    requires Numeral(s)
    ensures Digits(Value(s)) == s && (s[0] != '0' ==> Value(s) > 0)
  {
    hide Digits, Value, Numeral;
    var n := |s| - 1;
    NumeralParts(s);
    if n > 0 {
      NumeralIsDigits(s[..n]);
      AddDigit(Value(s[..n]), (s[n] - '0') as nat);
      assert s == s[..n] + [s[n]];
    }
  }

  /** A numeral without its last digit, unless that is its only one. */
  lemma {:induction false} NumeralParts(s: string)
    requires Numeral(s)
    ensures s != [] && IsDigit(s[|s| - 1])
    ensures |s| > 1 ==> Numeral(s[..|s| - 1]) && s[0] != '0' && s[..|s| - 1][0] == s[0]
    ensures |s| > 1 ==> Value(s) == 10 * Value(s[..|s| - 1]) + (s[|s| - 1] - '0') as nat
    ensures |s| == 1 ==> Digits(Value(s)) == s && (s[0] != '0' ==> Value(s) > 0)
  {
    var n := |s| - 1;
    assert s[n] in s;
    if n > 0 {
      assert forall c :: c in s[..n] ==> c in s;
    } else {
      assert Value(s[..0]) == 0;
      assert s == [s[0]];
    }
  }

  lemma {:induction false} AddDigit(m: nat, d: nat)
    requires m > 0 && d < 10
    ensures Digits(10 * m + d) == Digits(m) + [Digit(d)]
  {
    assert (10 * m + d) / 10 == m && (10 * m + d) % 10 == d;
  }

  /** The loader admits exactly the texts of plan versions. */
  lemma {:induction false} AdmittedIsPlanVersion(s: string)
    ensures Admitted(s) <==> exists v :: s == VersionText(v)
  {
    hide Digits, Numeral;
    if Admitted(s) {
      var a, b, c, tail :| Numeral(a) && Numeral(b) && Numeral(c) && ChannelTail(tail) &&
        s == a + ("." + (b + ("." + (c + tail))));
      var pre := TailIsPre(tail);
      NumeralIsDigits(a);
      NumeralIsDigits(b);
      NumeralIsDigits(c);
      var v := PlanVersion(Value(a), Value(b), Value(c), pre);
      TextParts(v);
      assert s == VersionText(v);
    }
    if exists v :: s == VersionText(v) {
      var v :| s == VersionText(v);
      DigitsAreNumeral(v.major);
      DigitsAreNumeral(v.minor);
      DigitsAreNumeral(v.patch);
      PreIsTail(v.pre);
      TextParts(v);
    }
  }

  function TailText(pre: Option<(Channel, nat)>): string {
    if pre.None? then "" else "-" + PreText(pre.value)
  }

  lemma {:induction false} TextParts(v: PlanVersion)
    ensures VersionText(v) == Digits(v.major) + ("." + (Digits(v.minor) + ("." + (Digits(v.patch) + TailText(v.pre)))))
  {
    hide Digits;
  }

  lemma {:induction false} DigitsAreNumeral(n: nat)
    ensures Numeral(Digits(n))
  {
    DigitsShape(n);
    if n == 0 { assert Digits(0) == "0"; }
  }

  lemma {:induction false} PreIsTail(pre: Option<(Channel, nat)>)
    ensures ChannelTail(TailText(pre))
  {
    hide Digits, Numeral;
    if pre.Some? {
      var (channel, n) := pre.value;
      DigitsAreNumeral(n);
      assert TailText(pre) == (if channel.Rc? then "-rc." else "-dev.") + Digits(n);
    }
  }

  lemma {:induction false} TailIsPre(tail: string) returns (pre: Option<(Channel, nat)>)
    requires ChannelTail(tail)
    ensures TailText(pre) == tail
  {
    hide Digits, Numeral;
    pre := None;
    if tail != "" {
      var n :| Numeral(n) && (tail == "-rc." + n || tail == "-dev." + n);
      NumeralIsDigits(n);
      pre := Some((if tail == "-rc." + n then Rc else Dev, Value(n)));
      assert "-rc." + n == "-" + ("rc" + ("." + n)) && "-dev." + n == "-" + ("dev" + ("." + n));
    }
  }

  // ---------------------------------------------------------------- cutting rendered texts

  lemma {:induction false} PartitionAt(a: string, c: char, b: string)
    requires c !in a
    ensures Partition(a + ([c] + b), c) == (a, true, b)
  {
    if a == [] {
      assert a + ([c] + b) == [c] + b;
    } else {
      assert (a + ([c] + b))[1..] == a[1..] + ([c] + b);
      PartitionAt(a[1..], c, b);
      assert [a[0]] + a[1..] == a;
    }
  }

  lemma {:induction false} PartitionNone(a: string, c: char)
    requires c !in a
    ensures Partition(a, c) == (a, false, [])
  {
    if a != [] {
      PartitionNone(a[1..], c);
      assert [a[0]] + a[1..] == a;
    }
  }

  lemma {:induction false} DigitsClean(n: nat, c: char)
    requires !IsDigit(c)
    ensures c !in Digits(n)
  {
    DigitsShape(n);
  }

  /** The core text: three numbers, no hyphen, no plus. */
  lemma {:induction false} CoreParts(v: PlanVersion)
    ensures Split(CoreText(v), '.') == [Digits(v.major), Digits(v.minor), Digits(v.patch)]
    ensures '-' !in CoreText(v) && '+' !in CoreText(v)
  {
    DigitsClean(v.major, '.'); DigitsClean(v.minor, '.'); DigitsClean(v.patch, '.');
    DigitsClean(v.major, '-'); DigitsClean(v.minor, '-'); DigitsClean(v.patch, '-');
    DigitsClean(v.major, '+'); DigitsClean(v.minor, '+'); DigitsClean(v.patch, '+');
    SplitAt(Digits(v.major), '.', Digits(v.minor) + ("." + Digits(v.patch)));
    SplitAt(Digits(v.minor), '.', Digits(v.patch));
    SplitNone(Digits(v.patch), '.');
  }

  /** A version text built from a core and prerelease parts parses to those parts. */
  lemma {:induction false} ParseWithPre(v: PlanVersion, pre: string, ids: seq<Identifier>)
    requires '+' !in pre && ParseIdentifiers(Split(pre, '.')) == Some(ids)
    ensures ParseSemVer(CoreText(v) + ("-" + pre)) == Some(SemVer(v.major, v.minor, v.patch, ids))
  {
    hide ParseIdentifiers, ParseNumber, Split, Digits, CoreText;
    CoreParts(v);
    var s := CoreText(v) + ("-" + pre);
    PartitionNone(s, '+');
    PartitionAt(CoreText(v), '-', pre);
    ParseDigits(v.major); ParseDigits(v.minor); ParseDigits(v.patch);
  }

  lemma {:induction false} ParseCore(v: PlanVersion)
    ensures ParseSemVer(CoreText(v)) == Some(SemVer(v.major, v.minor, v.patch, []))
  {
    hide ParseIdentifiers, ParseNumber, Split, Digits, CoreText;
    CoreParts(v);
    PartitionNone(CoreText(v), '+');
    PartitionNone(CoreText(v), '-');
    ParseDigits(v.major); ParseDigits(v.minor); ParseDigits(v.patch);
  }

  lemma {:induction false} ParseCons(first: string, rest: seq<string>)
    requires ParseIdentifier(first).Some? && ParseIdentifiers(rest).Some?
    ensures ParseIdentifiers([first] + rest) == Some([ParseIdentifier(first).value] + ParseIdentifiers(rest).value)
  {
    hide ParseIdentifier;
    assert ([first] + rest)[1..] == rest;
  }

  lemma {:induction false} ParseOne(a: string)
    requires '.' !in a && ParseIdentifier(a).Some?
    ensures ParseIdentifiers(Split(a, '.')) == Some([ParseIdentifier(a).value])
  {
    hide ParseIdentifier;
    SplitNone(a, '.');
    assert [a] == [a] + [];
    ParseCons(a, []);
    var x := ParseIdentifier(a).value;
    assert [x] + [] == [x];
  }

  lemma {:induction false} ParseTwo(a: string, b: string)
    requires '.' !in a && '.' !in b && ParseIdentifier(a).Some? && ParseIdentifier(b).Some?
    ensures ParseIdentifiers(Split(a + ("." + b), '.')) == Some([ParseIdentifier(a).value, ParseIdentifier(b).value])
  {
    hide ParseIdentifier, ParseIdentifiers;
    SplitAt(a, '.', b);
    ParseOne(b);
    ParseCons(a, Split(b, '.'));
    var x, y := ParseIdentifier(a).value, ParseIdentifier(b).value;
    assert [x] + [y] == [x, y];
  }

  lemma {:induction false} ParseThree(a: string, b: string, c: string)
    requires '.' !in a && '.' !in b && '.' !in c
    requires ParseIdentifier(a).Some? && ParseIdentifier(b).Some? && ParseIdentifier(c).Some?
    ensures ParseIdentifiers(Split(a + ("." + (b + ("." + c))), '.')) ==
            Some([ParseIdentifier(a).value, ParseIdentifier(b).value, ParseIdentifier(c).value])
  {
    hide ParseIdentifier, ParseIdentifiers;
    SplitAt(a, '.', b + ("." + c));
    ParseTwo(b, c);
    ParseCons(a, Split(b + ("." + c), '.'));
    var x, y, z := ParseIdentifier(a).value, ParseIdentifier(b).value, ParseIdentifier(c).value;
    assert [x] + [y, z] == [x, y, z];
  }

  lemma {:induction false} ChannelIdentifier(c: Channel)
    ensures ParseIdentifier(ChannelText(c)) == Some(Alphanumeric(ChannelText(c)))
    ensures '.' !in ChannelText(c) && '+' !in ChannelText(c) && '-' !in ChannelText(c)
  {
    assert ChannelText(c)[0] in ChannelText(c);
  }

  /** Every character of a platform name is an identifier character. */
  lemma {:induction false} PlatformChars(platform: string)
    requires IsPlatform(platform)
    ensures AllIdentifierChars(platform) && platform != [] && !IsDigit(platform[0])
  {
    AllJoin("darwin-", "arm64");
    AllJoin("darwin-", "x64");
    AllJoin("linux-", "arm64-gnu");
    AllJoin("linux-", "x64-gnu");
    assert "darwin-arm64" == "darwin-" + "arm64" && "darwin-x64" == "darwin-" + "x64";
    assert "linux-arm64-gnu" == "linux-" + "arm64-gnu" && "linux-x64-gnu" == "linux-" + "x64-gnu";
  }

  lemma {:induction false} AllJoin(a: string, b: string)
    requires AllIdentifierChars(a) && AllIdentifierChars(b)
    ensures AllIdentifierChars(a + b)
  {
  }

  lemma {:induction false} PlatformIdentifier(platform: string)
    requires IsPlatform(platform)
    ensures ParseIdentifier(platform) == Some(Alphanumeric(platform))
    ensures '.' !in platform && '+' !in platform
  {
    hide IsPlatform;
    PlatformChars(platform);
    assert platform[0] in platform;
  }

  lemma {:induction false} TaggedNumber(n: nat, platform: string)
    requires IsPlatform(platform)
    ensures var tag := Digits(n) + ("-" + platform);
            ParseIdentifier(tag) == Some(Alphanumeric(tag)) && '.' !in tag && '+' !in tag
  {
    var tag := Digits(n) + ("-" + platform);
    DigitsShape(n);
    PlatformIdentifier(platform);
    assert ("-" + platform)[0] in tag by { assert tag[|Digits(n)|] == '-'; }
  }

  // ---------------------------------------------------------------- parsed forms

  /** The parsed root version. */
  function RootSemVer(v: PlanVersion): SemVer {
    SemVer(v.major, v.minor, v.patch,
           if v.pre.None? then [] else [Alphanumeric(ChannelText(v.pre.value.0)), Numeric(v.pre.value.1)])
  }

  /** The parsed payload version. */
  function PayloadSemVer(v: PlanVersion, platform: string): SemVer {
    SemVer(v.major, v.minor, v.patch,
           if v.pre.None? then [Alphanumeric(platform)]
           else [Numeric(0), Alphanumeric(ChannelText(v.pre.value.0)),
                 Alphanumeric(Digits(v.pre.value.1) + ("-" + platform))])
  }

  lemma {:induction false} RootParses(v: PlanVersion)
    ensures ParseSemVer(VersionText(v)) == Some(RootSemVer(v))
  {
    hide ParseSemVer, CoreText, Digits, ParseIdentifier, ParseIdentifiers, Split;
    if v.pre.None? {
      ParseCore(v);
    } else {
      var (channel, n) := v.pre.value;
      ChannelIdentifier(channel);
      ParseDigits(n);
      DigitsClean(n, '.');
      DigitsClean(n, '+');
      ParseTwo(ChannelText(channel), Digits(n));
      ParseWithPre(v, PreText(v.pre.value), RootSemVer(v).pre);
    }
  }

  /** The payload text, put together from its parts. */
  lemma {:induction false} PayloadText(v: PlanVersion, platform: string)
    ensures Payload(v, platform) ==
            CoreText(v) + ("-" + (if v.pre.None? then platform
                                  else "0" + ("." + (ChannelText(v.pre.value.0) + ("." + (Digits(v.pre.value.1) + ("-" + platform)))))))
  {
    hide CoreText, Digits, Partition;
    CoreParts(v);
    if v.pre.None? {
      PartitionNone(CoreText(v), '-');
    } else {
      var (channel, n) := v.pre.value;
      PartitionAt(CoreText(v), '-', PreText(v.pre.value));
      var tail := "-" + platform;
      assert PreText(v.pre.value) + tail == ChannelText(channel) + ("." + (Digits(n) + tail));
      assert "-0." + (PreText(v.pre.value) + tail) == "-" + ("0" + ("." + (PreText(v.pre.value) + tail)));
    }
  }

  lemma {:induction false} PayloadParses(v: PlanVersion, platform: string)
    requires IsPlatform(platform)
    ensures ParseSemVer(Payload(v, platform)) == Some(PayloadSemVer(v, platform))
  {
    hide ParseSemVer, CoreText, Digits, ParseIdentifier, ParseIdentifiers, Split, Payload, IsPlatform;
    PayloadText(v, platform);
    if v.pre.None? {
      PlatformIdentifier(platform);
      ParseOne(platform);
      ParseWithPre(v, platform, [Alphanumeric(platform)]);
    } else {
      var (channel, n) := v.pre.value;
      var tag := Digits(n) + ("-" + platform);
      ZeroIdentifier();
      ChannelIdentifier(channel);
      TaggedNumber(n, platform);
      ParseThree("0", ChannelText(channel), tag);
      var pre := "0" + ("." + (ChannelText(channel) + ("." + tag)));
      assert '+' !in pre;
      ParseWithPre(v, pre, PayloadSemVer(v, platform).pre);
    }
  }

  lemma {:induction false} ZeroIdentifier()
    ensures ParseIdentifier("0") == Some(Numeric(0)) && '.' !in "0" && '+' !in "0"
  {
    ParseDigits(0);
  }

  // ---------------------------------------------------------------- the cohort theorems

  /** Every payload version of every admitted plan version is valid SemVer and strictly below its
      root version. */
  lemma {:induction false} PayloadPrecedesRoot(v: PlanVersion, platform: string)
    requires IsPlatform(platform)
    ensures TextPrecedes(Payload(v, platform), VersionText(v))
  {
    hide ParseSemVer, Payload, VersionText, IsPlatform;
    PayloadParses(v, platform);
    RootParses(v);
  }

  predicate SameCore(v: PlanVersion, w: PlanVersion) {
    v.major == w.major && v.minor == w.minor && v.patch == w.patch
  }

  /** Against any prerelease root `w` of the same core: the payloads of a prerelease root are
      always below it, so no range that starts at a prerelease root selects one of them.  The
      payloads of a release root are below every rc, and below a dev exactly on macOS. */
  lemma {:induction false} PayloadAgainstPrereleases(v: PlanVersion, platform: string, w: PlanVersion)
    requires IsPlatform(platform) && SameCore(v, w) && w.pre.Some?
    ensures TextPrecedes(Payload(v, platform), VersionText(w)) <==>
            v.pre.Some? || w.pre.value.0.Rc? || platform == DARWIN_ARM64 || platform == DARWIN_X64
  {
    hide ParseSemVer, Payload, VersionText, Digits, Before, IsPlatform;
    PayloadParses(v, platform);
    RootParses(w);
    PlatformBeforeChannel(platform, w.pre.value.0);
  }

  lemma {:induction false} PlatformBeforeChannel(platform: string, channel: Channel)
    requires IsPlatform(platform)
    ensures platform != ChannelText(channel)
    ensures Before(platform, ChannelText(channel)) <==>
            channel.Rc? || platform == DARWIN_ARM64 || platform == DARWIN_X64
  {
    assert platform[0] == 'd' || platform[0] == 'l';
    assert platform[0] == 'd' ==> platform[1] == 'a' && platform[1..][0] == 'a';
    assert "dev"[1..][0] == 'e';
  }

  /** The map from plan version and platform to payload version is injective. */
  lemma {:induction false} PayloadInjective(v: PlanVersion, p: string, w: PlanVersion, q: string)
    requires IsPlatform(p) && IsPlatform(q)
    requires Payload(v, p) == Payload(w, q)
    ensures v == w && p == q
  {
    hide ParseSemVer, Payload, Digits;
    PayloadParses(v, p);
    PayloadParses(w, q);
    var a, b := PayloadSemVer(v, p), PayloadSemVer(w, q);
    assert a == b;
    assert |a.pre| == |b.pre|;
    if v.pre.None? {
      assert a.pre[0] == b.pre[0];
    } else {
      assert a.pre[1] == b.pre[1] && a.pre[2] == b.pre[2];
      var m, n := v.pre.value.1, w.pre.value.1;
      DigitsClean(m, '-');
      DigitsClean(n, '-');
      PartitionAt(Digits(m), '-', p);
      PartitionAt(Digits(n), '-', q);
      ParseDigits(m);
      ParseDigits(n);
    }
  }

  /** No payload version is a root version of any plan. */
  lemma {:induction false} PayloadIsNoRoot(v: PlanVersion, platform: string, w: PlanVersion)
    requires IsPlatform(platform)
    ensures Payload(v, platform) != VersionText(w)
  {
    hide ParseSemVer, Payload, VersionText, Digits;
    PayloadParses(v, platform);
    RootParses(w);
  }

  // ---------------------------------------------------------------- the parser and the order themselves

  /** Text of an identifier that is no number. */
  ghost predicate IsWord(s: string) {
    && (forall c :: c in s ==> '0' <= c <= '9' || 'a' <= c <= 'z' || 'A' <= c <= 'Z' || c == '-')
    && exists c :: c in s && !('0' <= c <= '9')
  }

  /** An identifier is a number in its only decimal text, or a word that stands for itself. */
  lemma {:induction false} IdentifierMeaning(s: string, i: Identifier)
    ensures ParseIdentifier(s) == Some(i) <==>
            match i
            case Numeric(n) => s == Digits(n)
            case Alphanumeric(text) => s == text && IsWord(s)
  {
    hide Digits, Value;
    if i.Numeric? {
      ParseDigits(i.n);
      if ParseIdentifier(s) == Some(i) { NumeralIsDigits(s); }
    } else {
      assert AllDigits(s) <==> !exists c :: c in s && !('0' <= c <= '9');
    }
  }

  /** Non-empty identifiers with single dots between them. */
  ghost predicate IsBuild(s: string) {
    && s != [] && s[0] != '.' && s[|s| - 1] != '.'
    && (forall i :: 0 < i < |s| ==> s[i - 1] != '.' || s[i] != '.')
    && (forall c :: c in s ==> '0' <= c <= '9' || 'a' <= c <= 'z' || 'A' <= c <= 'Z' || c == '-' || c == '.')
  }

  ghost predicate ValidParts(parts: seq<string>) {
    forall part :: part in parts ==> part != [] && AllIdentifierChars(part)
  }

  lemma {:induction false} PartsJoin(a: string, parts: seq<string>)
    ensures ValidParts([a] + parts) <==> a != [] && AllIdentifierChars(a) && ValidParts(parts)
  {
    hide AllIdentifierChars;
    assert ([a] + parts)[0] == a;
    forall part ensures part in [a] + parts <==> part == a || part in parts {
    }
    if ValidParts([a] + parts) {
      assert a in [a] + parts;
      forall part | part in parts ensures part != [] && AllIdentifierChars(part) {
        assert part in [a] + parts;
      }
    }
  }

  lemma {:induction false} BuildParts(s: string)
    ensures ValidBuild(s) <==> IsBuild(s)
    decreases |s|
  {
    if '.' in s {
      var (a, found, b) := Partition(s, '.');
      PartitionCuts(s, '.');
      assert s == a + (['.'] + b);
      SplitAt(a, '.', b);
      BuildParts(b);
      PartsJoin(a, Split(b, '.'));
      BuildJoin(a, b);
    } else {
      SplitNone(s, '.');
      if s != [] { assert s[0] in s && s[|s| - 1] in s; }
      assert [s][0] in [s];
    }
  }

  lemma {:induction false} BuildJoin(a: string, b: string)
    requires '.' !in a
    ensures IsBuild(a + (['.'] + b)) <==> a != [] && AllIdentifierChars(a) && IsBuild(b)
  {
    var s := a + (['.'] + b);
    assert s[|a|] == '.';
    assert forall c :: c in s <==> c in a || c == '.' || c in b;
    assert a == [] ==> s[0] == '.';
    assert b == [] ==> s[|s| - 1] == '.';
    if IsBuild(s) {
      assert s[|a| + 1] == b[0] && s[|s| - 1] == b[|b| - 1];
      forall i | 0 < i < |b| ensures b[i - 1] != '.' || b[i] != '.' {
        assert s[|a| + 1 + i] == b[i] && s[|a| + 1 + (i - 1)] == b[i - 1];
      }
    }
    if a != [] && IsBuild(b) {
      assert s[0] == a[0] && a[0] in a && s[|s| - 1] == b[|b| - 1];
      forall i | 0 < i < |s| ensures s[i - 1] != '.' || s[i] != '.' {
        if i <= |a| {
          assert s[i - 1] == a[i - 1] && a[i - 1] in a;
        } else if i == |a| + 1 {
          assert s[i] == b[0];
        } else {
          assert s[i] == b[i - |a| - 1] && s[i - 1] == b[i - |a| - 2];
        }
      }
    }
  }

  lemma {:induction false} PartitionCuts(s: string, c: char)
    requires c in s
    ensures var (a, found, b) := Partition(s, c); found && c !in a && s == a + ([c] + b)
  {
    if s[0] != c {
      assert s == [s[0]] + s[1..];
      PartitionCuts(s[1..], c);
    }
  }

  /** Build metadata has no influence but must be well formed. */
  lemma {:induction false} BuildIsDropped(version: string, build: string)
    requires '+' !in version
    ensures ParseSemVer(version + (['+'] + build)) == if IsBuild(build) then ParseSemVer(version) else None
  {
    hide Partition, Split, ParseNumber, ParseIdentifiers, ValidBuild, IsBuild;
    PartitionAt(version, '+', build);
    PartitionNone(version, '+');
    BuildParts(build);
  }

  lemma {:induction false} IdentifiersAreOrdered()
    ensures StrictOrder(IdentifierBefore)
    ensures forall a, b :: IdentifierBefore(a, b) || a == b || IdentifierBefore(b, a)
  {
    hide Before;
    StringsOrder();
    forall a: Identifier, b: Identifier ensures IdentifierBefore(a, b) || a == b || IdentifierBefore(b, a) {
      if a.Alphanumeric? && b.Alphanumeric? { BeforeIsTotal(a.text, b.text); }
    }
    forall a: Identifier, b: Identifier | IdentifierBefore(a, b) ensures !IdentifierBefore(b, a) {
    }
    forall a: Identifier, b: Identifier, c: Identifier | IdentifierBefore(a, b) && IdentifierBefore(b, c)
      ensures IdentifierBefore(a, c)
    {
    }
  }

  lemma {:induction false} PreIsTotal(a: seq<Identifier>, b: seq<Identifier>)
    ensures PreBefore(a, b) || a == b || PreBefore(b, a)
  {
    hide IdentifierBefore;
    IdentifiersAreOrdered();
    if a != [] && b != [] && a[0] == b[0] {
      PreIsTotal(a[1..], b[1..]);
      assert a == [a[0]] + a[1..] && b == [b[0]] + b[1..];
    }
  }

  lemma {:induction false} PreIsStrict(a: seq<Identifier>, b: seq<Identifier>)
    requires PreBefore(a, b)
    ensures !PreBefore(b, a)
  {
    hide IdentifierBefore;
    IdentifiersAreOrdered();
    if a != [] && a[0] == b[0] {
      assert !IdentifierBefore(a[0], b[0]);
      PreIsStrict(a[1..], b[1..]);
    }
  }

  lemma {:induction false} PreIsTransitive(a: seq<Identifier>, b: seq<Identifier>, c: seq<Identifier>)
    requires PreBefore(a, b) && PreBefore(b, c)
    ensures PreBefore(a, c)
  {
    hide IdentifierBefore;
    IdentifiersAreOrdered();
    if a != [] {
      assert !IdentifierBefore(a[0], b[0]) ==> a[0] == b[0] && PreBefore(a[1..], b[1..]);
      assert !IdentifierBefore(b[0], c[0]) ==> b[0] == c[0] && PreBefore(b[1..], c[1..]);
      if a[0] == b[0] && b[0] == c[0] && PreBefore(a[1..], b[1..]) && PreBefore(b[1..], c[1..]) {
        PreIsTransitive(a[1..], b[1..], c[1..]);
      }
    }
  }

  /** Precedence is a strict order in which any two different versions are comparable. */
  lemma {:induction false} PrecedenceOrder()
    ensures StrictOrder(Precedes)
    ensures forall a, b :: Precedes(a, b) || a == b || Precedes(b, a)
  {
    hide PreBefore;
    forall a: SemVer, b: SemVer ensures Precedes(a, b) || a == b || Precedes(b, a) { PreIsTotal(a.pre, b.pre); }
    forall a: SemVer, b: SemVer | Precedes(a, b) ensures !Precedes(b, a) {
      if PreBefore(a.pre, b.pre) { PreIsStrict(a.pre, b.pre); }
    }
    forall a: SemVer, b: SemVer, c: SemVer | Precedes(a, b) && Precedes(b, c) ensures Precedes(a, c) {
      if PreBefore(a.pre, b.pre) && PreBefore(b.pre, c.pre) { PreIsTransitive(a.pre, b.pre, c.pre); }
    }
  }

  /** What fixes the order: the numbers of the core from the left, then any prerelease below the
      release; among prereleases the first identifier that differs, numbers below words, and a list
      below its extensions. */
  lemma {:induction false} PrecedenceSteps(a: SemVer, b: SemVer, front: seq<Identifier>, x: Identifier, y: Identifier,
                                           s: seq<Identifier>, t: seq<Identifier>)
    ensures a.major < b.major ==> Precedes(a, b)
    ensures a.major == b.major && a.minor < b.minor ==> Precedes(a, b)
    ensures a.major == b.major && a.minor == b.minor && a.patch < b.patch ==> Precedes(a, b)
    ensures s != [] ==> Precedes(a.(pre := s), a.(pre := []))
    ensures s < t && s != [] ==> Precedes(a.(pre := s), a.(pre := t))
    ensures (x.Numeric? && y.Numeric? && x.n < y.n) || (x.Numeric? && y.Alphanumeric?) ||
            (x.Alphanumeric? && y.Alphanumeric? && ComesFirst(x.text, y.text)) ==>
              Precedes(a.(pre := front + ([x] + s)), a.(pre := front + ([y] + t)))
  {
    hide Before, ComesFirst;
    if s < t { PreOfExtension(s, t); }
    if x.Alphanumeric? && y.Alphanumeric? { BeforeMeaning(x.text, y.text); }
    if IdentifierBefore(x, y) { PreOfDifference(front, x, y, s, t); }
  }

  lemma {:induction false} PreOfExtension(s: seq<Identifier>, t: seq<Identifier>)
    requires s < t
    ensures PreBefore(s, t)
  {
    if s != [] { PreOfExtension(s[1..], t[1..]); }
  }

  lemma {:induction false} PreOfDifference(front: seq<Identifier>, x: Identifier, y: Identifier, s: seq<Identifier>,
                                           t: seq<Identifier>)
    requires IdentifierBefore(x, y)
    ensures PreBefore(front + ([x] + s), front + ([y] + t))
  {
    if front == [] {
      assert front + ([x] + s) == [x] + s && front + ([y] + t) == [y] + t;
    } else {
      PreOfDifference(front[1..], x, y, s, t);
      assert (front + ([x] + s))[1..] == front[1..] + ([x] + s);
      assert (front + ([y] + t))[1..] == front[1..] + ([y] + t);
    }
  }
}
