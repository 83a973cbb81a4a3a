/** The public-documents preflight (check_alpha_public_docs.py): a report built step by step and the
    validator it must never trip.  Reading a document and judging its text are inputs. */
module PublicDocs {
  import opened PythonText
  import opened Sequences
  import opened Wrappers

  const MAX_DOCUMENT_BYTES := 1024 * 1024

  datatype Document =
    | RootReadme | RootRelease | RootContributing | RootPrivacy | RootTerms | RootLicense | CliReadme | CliReleaseReadme
    | CliContributing | CliSupport | CliChangelog | HarnessModelForm | BenchmarkForm

  const DOCUMENTS := [
    RootReadme, RootRelease, RootContributing, RootPrivacy, RootTerms, RootLicense, CliReadme, CliReleaseReadme,
    CliContributing, CliSupport, CliChangelog, HarnessModelForm, BenchmarkForm]

  datatype Check =
    | RepositoryRoot | Version | DocumentAuthentication | ChangelogSection | ReadmeSurfaces | ReleaseTrain | ContributionRoute
    | PrivacyBoundary | TermsScope | ContributionGovernance | LicenseIdentity | SupportRouting | IssueFormRouting
    | IssueFormPrivacy | StaleClaims

  datatype Code =
    | InputInvalid | RootUnsafe | DocumentUnavailable | DocumentUnsafe | DocumentMalformed | ChangelogSectionInvalid
    | ReadmeSurfacesMissing | ReleaseTrainMissing | ContributionRouteMissing | PrivacyBoundaryMissing | TermsScopeMissing
    | GovernanceDeclarationMissing | LicenseInvalid | SupportRoutingInvalid | IssueFormRoutingInvalid
    | IssueFormPrivacyInvalid | StaleClaim

  datatype CheckStatus = NotEvaluated | Pass | Fail

  datatype DocumentStatus = NotRead | Authenticated | Unavailable | Unsafe | Malformed

  datatype DocumentRecord = DocumentRecord(status: DocumentStatus, byteLength: Option<int>, sha256: Option<string>)

  /** A failure of one document, or of the release set. */
  datatype Failure = Failure(code: Code, document: Option<Document>, check: Check)

  /** What reading and decoding a document gave; `kind` is the error's, other kinds count as unsafe. */
  datatype Outcome = Read(byteLength: int, sha256: string, text: string) | Refused(kind: string)

  /** A semantic check: the document it judges, and the documents that must have been read. */
  datatype Semantic = Semantic(check: Check, document: Document, required: seq<Document>, code: Code)

  const SEMANTIC_CHECKS := [
    Semantic(ChangelogSection, CliChangelog, [CliChangelog], ChangelogSectionInvalid),
    Semantic(ReadmeSurfaces, RootReadme, [RootReadme, CliReadme], ReadmeSurfacesMissing),
    Semantic(ReleaseTrain, RootRelease, [RootRelease, CliReleaseReadme], ReleaseTrainMissing),
    Semantic(ContributionRoute, RootContributing, [RootContributing, CliContributing], ContributionRouteMissing),
    Semantic(PrivacyBoundary, RootPrivacy, [RootPrivacy], PrivacyBoundaryMissing),
    Semantic(TermsScope, RootTerms, [RootTerms], TermsScopeMissing),
    Semantic(ContributionGovernance, RootContributing, [RootContributing], GovernanceDeclarationMissing),
    Semantic(LicenseIdentity, RootLicense, [RootLicense], LicenseInvalid),
    Semantic(SupportRouting, CliSupport, [CliSupport, HarnessModelForm, BenchmarkForm], SupportRoutingInvalid)]

  const FORMS := [HarnessModelForm, BenchmarkForm]
  const STALE_DOCUMENTS := [RootReadme, RootRelease, RootContributing, RootPrivacy]

  /** Everything the assessment is told: the version and root checks, what reading each document gave,
      and the judgement of each text. */
  datatype World = World(versionOk: bool, rootOk: bool, read: Document -> Outcome, ready: (Check, string) -> bool,
                         routing: (Document, string) -> bool, privacy: (Document, string) -> bool, current: (Document, string) -> bool)

  /** A document that was read is not empty and within the bound. */
  ghost predicate Sound(w: World) {
    forall d :: w.read(d).Read? ==> 0 < w.read(d).byteLength <= MAX_DOCUMENT_BYTES && IsHex(w.read(d).sha256, 64)
  }

  function StatusOf(kind: string): DocumentStatus {
    if kind == "unavailable" then Unavailable else if kind == "malformed" then Malformed else Unsafe
  }

  function CodeOf(status: DocumentStatus): Code {
    if status.Unavailable? then DocumentUnavailable else if status.Malformed? then DocumentMalformed else DocumentUnsafe
  }

  // ---------------------------------------------------------------- what the report should say

  predicate IsRead(w: World, d: Document) {
    w.read(d).Read?
  }

  predicate SemanticPasses(w: World, s: Semantic) {
    IsRead(w, s.document) && (forall d :: d in s.required ==> IsRead(w, d)) && w.ready(s.check, w.read(s.document).text)
  }

  predicate RoutingPasses(w: World, d: Document) {
    IsRead(w, d) && w.routing(d, w.read(d).text)
  }

  predicate PrivacyPasses(w: World, d: Document) {
    IsRead(w, d) && w.privacy(d, w.read(d).text)
  }

  predicate IsStale(w: World, d: Document) {
    IsRead(w, d) && !w.current(d, w.read(d).text)
  }

  /** The failure of each kind an item causes, if any. */
  function DocumentFailure(w: World, d: Document): Option<Failure> {
    if IsRead(w, d) then None else Some(Failure(CodeOf(StatusOf(w.read(d).kind)), Some(d), DocumentAuthentication))
  }

  function SemanticFailure(w: World, s: Semantic): Option<Failure> {
    if SemanticPasses(w, s) then None else Some(Failure(s.code, Some(s.document), s.check))
  }

  function RoutingFailure(w: World, d: Document): Option<Failure> {
    if RoutingPasses(w, d) then None else Some(Failure(IssueFormRoutingInvalid, Some(d), IssueFormRouting))
  }

  function PrivacyFailure(w: World, d: Document): Option<Failure> {
    if PrivacyPasses(w, d) then None else Some(Failure(IssueFormPrivacyInvalid, Some(d), IssueFormPrivacy))
  }

  function StaleFailure(w: World, d: Document): Option<Failure> {
    if IsStale(w, d) then Some(Failure(StaleClaim, Some(d), StaleClaims)) else None
  }

  // ---------------------------------------------------------------- what the run produces

  /** `_failure`, one item after the other: no failure is entered twice. */
  function Collect(items: seq<Option<Failure>>): seq<Failure> {
    if items == [] then []
    else
      var n := |items| - 1;
      var before := Collect(items[..n]);
      if items[n].None? || items[n].value in before then before else before + [items[n].value]
  }

  /** Collecting keeps every failure once. */
  lemma {:induction false} CollectHolds(items: seq<Option<Failure>>)
    ensures Distinct(Collect(items))
    ensures forall f :: f in Collect(items) <==> Some(f) in items
  {
    if items != [] {
      var n := |items| - 1;
      CollectHolds(items[..n]);
      assert items == items[..n] + [items[n]];
    }
  }

  lemma {:induction false} CollectEmpty(items: seq<Option<Failure>>)
    ensures Collect(items) == [] <==> forall x :: x in items ==> x.None?
  {
    if items != [] {
      var n := |items| - 1;
      CollectEmpty(items[..n]);
      assert items[n] in items;
      if Collect(items) == [] {
        forall x | x in items ensures x.None? { assert x in items[..n] || x == items[n]; }
      } else if items[n].None? {
        var x :| x in items[..n] && x.Some?;
        assert x in items;
      }
    }
  }

  function DocumentItems(w: World): (items: seq<Option<Failure>>)
    ensures |items| == |DOCUMENTS| && forall i :: 0 <= i < |items| ==> items[i] == DocumentFailure(w, DOCUMENTS[i])
  {
    seq(|DOCUMENTS|, i requires 0 <= i < |DOCUMENTS| => DocumentFailure(w, DOCUMENTS[i]))
  }

  function SemanticItems(w: World): (items: seq<Option<Failure>>)
    ensures |items| == |SEMANTIC_CHECKS| && forall i :: 0 <= i < |items| ==> items[i] == SemanticFailure(w, SEMANTIC_CHECKS[i])
  {
    seq(|SEMANTIC_CHECKS|, i requires 0 <= i < |SEMANTIC_CHECKS| => SemanticFailure(w, SEMANTIC_CHECKS[i]))
  }

  function RoutingItems(w: World): (items: seq<Option<Failure>>)
    ensures |items| == |FORMS| && forall i :: 0 <= i < |items| ==> items[i] == RoutingFailure(w, FORMS[i])
  {
    seq(|FORMS|, i requires 0 <= i < |FORMS| => RoutingFailure(w, FORMS[i]))
  }

  function PrivacyItems(w: World): (items: seq<Option<Failure>>)
    ensures |items| == |FORMS| && forall i :: 0 <= i < |items| ==> items[i] == PrivacyFailure(w, FORMS[i])
  {
    seq(|FORMS|, i requires 0 <= i < |FORMS| => PrivacyFailure(w, FORMS[i]))
  }

  function StaleItems(w: World): (items: seq<Option<Failure>>)
    ensures |items| == |STALE_DOCUMENTS| && forall i :: 0 <= i < |items| ==> items[i] == StaleFailure(w, STALE_DOCUMENTS[i])
  {
    seq(|STALE_DOCUMENTS|, i requires 0 <= i < |STALE_DOCUMENTS| => StaleFailure(w, STALE_DOCUMENTS[i]))
  }

  /** Every failure of a run, in order. */
  function Items(w: World): seq<Option<Failure>> {
    if !w.versionOk then [Some(Failure(InputInvalid, None, Version))]
    else if !w.rootOk then [Some(Failure(RootUnsafe, None, RepositoryRoot))]
    else DocumentItems(w) + SemanticItems(w) + RoutingItems(w) + PrivacyItems(w) + StaleItems(w)
  }

  function RecordFor(outcome: Outcome): DocumentRecord {
    if outcome.Read? then DocumentRecord(Authenticated, Some(outcome.byteLength), Some(outcome.sha256))
    else DocumentRecord(StatusOf(outcome.kind), None, None)
  }

  /** The document records after the first `n` documents. */
  function RecordsAfter(w: World, start: map<Document, DocumentRecord>, n: nat): map<Document, DocumentRecord>
    requires n <= |DOCUMENTS|
  {
    if n == 0 then start else RecordsAfter(w, start, n - 1)[DOCUMENTS[n - 1] := RecordFor(w.read(DOCUMENTS[n - 1]))]
  }

  function TextsAfter(w: World, n: nat): map<Document, string>
    requires n <= |DOCUMENTS|
  {
    if n == 0 then map[]
    else
      var d := DOCUMENTS[n - 1];
      if IsRead(w, d) then TextsAfter(w, n - 1)[d := w.read(d).text] else TextsAfter(w, n - 1)
  }

  /** The check statuses after the first `n` semantic checks. */
  function JudgedAfter(w: World, start: map<Check, CheckStatus>, n: nat): map<Check, CheckStatus>
    requires n <= |SEMANTIC_CHECKS|
  {
    if n == 0 then start
    else JudgedAfter(w, start, n - 1)[SEMANTIC_CHECKS[n - 1].check := StatusIf(SemanticPasses(w, SEMANTIC_CHECKS[n - 1]))]
  }

  function StatusIf(ok: bool): CheckStatus {
    if ok then Pass else Fail
  }

  predicate AllRead(w: World) {
    forall i :: 0 <= i < |DOCUMENTS| ==> IsRead(w, DOCUMENTS[i])
  }

  /** All check statuses of a run that gets past version and root. */
  function FinalChecks(w: World, start: map<Check, CheckStatus>): map<Check, CheckStatus> {
    JudgedAfter(w, start[DocumentAuthentication := StatusIf(AllRead(w))], |SEMANTIC_CHECKS|)
      [IssueFormRouting := StatusIf(RoutingPasses(w, HarnessModelForm) && RoutingPasses(w, BenchmarkForm))]
      [IssueFormPrivacy := StatusIf(PrivacyPasses(w, HarnessModelForm) && PrivacyPasses(w, BenchmarkForm))]
      [StaleClaims := StatusIf(ClaimsFresh(w, |STALE_DOCUMENTS|))]
  }

  predicate ClaimsFresh(w: World, n: nat)
    requires n <= |STALE_DOCUMENTS|
  {
    n == 0 || (ClaimsFresh(w, n - 1) && IsRead(w, STALE_DOCUMENTS[n - 1]) && !IsStale(w, STALE_DOCUMENTS[n - 1]))
  }

  // ---------------------------------------------------------------- the documents

  lemma {:induction false} DocumentsDiffer(i: nat, j: nat)
    requires i < j < |DOCUMENTS|
    ensures DOCUMENTS[i] != DOCUMENTS[j]
  {
  }

  function PositionOf(d: Document): (i: nat)
    ensures i < |DOCUMENTS| && DOCUMENTS[i] == d
  {
    match d
    case RootReadme => 0 case RootRelease => 1 case RootContributing => 2 case RootPrivacy => 3 case RootTerms => 4
    case RootLicense => 5 case CliReadme => 6 case CliReleaseReadme => 7 case CliContributing => 8 case CliSupport => 9
    case CliChangelog => 10 case HarnessModelForm => 11 case BenchmarkForm => 12
  }

  lemma {:induction false} TextsHold(w: World, n: nat)
    requires n <= |DOCUMENTS|
    ensures forall d :: d in TextsAfter(w, n) <==> PositionOf(d) < n && IsRead(w, d)
    ensures forall d :: d in TextsAfter(w, n) ==> w.read(d).Read? && TextsAfter(w, n)[d] == w.read(d).text
  {
    hide PositionOf;
    if n > 0 {
      TextsHold(w, n - 1);
      var d := DOCUMENTS[n - 1];
      OnlyPosition(d, n - 1);
      forall e | PositionOf(e) == n - 1 ensures e == d {}
    }
  }

  /** As many texts as documents are kept exactly when all of them were read. */
  lemma {:induction false} TextsCount(w: World, n: nat)
    requires n <= |DOCUMENTS|
    ensures |TextsAfter(w, n)| <= n
    ensures |TextsAfter(w, n)| == n <==> forall i :: 0 <= i < n ==> IsRead(w, DOCUMENTS[i])
  {
    hide PositionOf;
    if n > 0 {
      TextsCount(w, n - 1);
      NotYetRead(w, n - 1);
      var before := TextsAfter(w, n - 1);
      assert IsRead(w, DOCUMENTS[n - 1]) ==> |TextsAfter(w, n)| == |before| + 1;
    }
  }

  lemma {:induction false} NotYetRead(w: World, n: nat)
    requires n < |DOCUMENTS|
    ensures DOCUMENTS[n] !in TextsAfter(w, n)
  {
    hide PositionOf, IsRead, TextsAfter;
    TextsHold(w, n);
    OnlyPosition(DOCUMENTS[n], n);
  }

  lemma {:induction false} OnlyPosition(d: Document, i: nat)
    requires i < |DOCUMENTS| && DOCUMENTS[i] == d
    ensures PositionOf(d) == i
  {
    var j := PositionOf(d);
    if i < j { DocumentsDiffer(i, j); }
    if j < i { DocumentsDiffer(j, i); }
  }

  predicate RecordSound(record: DocumentRecord) {
    if record.status.Authenticated? then
      record.byteLength.Some? && 0 < record.byteLength.value <= 1048576 && record.sha256.Some? && IsHex(record.sha256.value, 64)
    else record.byteLength.None? && record.sha256.None?
  }

  lemma {:induction false} RecordsAreSound(w: World, start: map<Document, DocumentRecord>, n: nat)
    requires Sound(w) && n <= |DOCUMENTS| && forall d :: d in start && RecordSound(start[d])
    ensures forall d :: d in RecordsAfter(w, start, n) && RecordSound(RecordsAfter(w, start, n)[d])
  {
    if n > 0 {
      RecordsAreSound(w, start, n - 1);
      KindsOfRefusal(w.read(DOCUMENTS[n - 1]));
    }
  }

  lemma {:induction false} KindsOfRefusal(outcome: Outcome)
    ensures outcome.Refused? ==> !StatusOf(outcome.kind).Authenticated? && !StatusOf(outcome.kind).NotRead?
  {
  }

  // ---------------------------------------------------------------- the report

  class Report {
    var versionGiven: bool
    var passed: bool
    var documents: map<Document, DocumentRecord>
    var checks: map<Check, CheckStatus>
    var failures: seq<Failure>

    /** `_report`. */
    constructor (versionGiven: bool)
      ensures this.versionGiven == versionGiven && !passed && failures == []
      ensures forall d :: d in documents && documents[d] == DocumentRecord(NotRead, None, None)
      ensures forall c :: c in checks && checks[c] == NotEvaluated
    {
      this.versionGiven, passed, failures := versionGiven, false, [];
      documents, checks := NOTHING_READ, NOTHING_CHECKED;
      new;
      NothingReadHolds();
    }

    /** `_validate_report`: every document and check is there, identities are well formed, failures
        are distinct, and the status is right. */
    ghost predicate Validates()
      reads this
    {
      && (forall d :: d in documents && RecordSound(documents[d]))
      && (forall c :: c in checks)
      && Distinct(failures)
      && (passed <==> failures == [] && forall c :: c in checks ==> checks[c] == Pass)
    }

    /** `_failure`. */
    method AddFailure(f: Failure, ghost items: seq<Option<Failure>>)
      requires failures == Collect(items)
      modifies this`failures
      ensures failures == Collect(items + [Some(f)])
    {
      assert (items + [Some(f)])[..|items|] == items;
      if f !in failures {
        failures := failures + [f];
      }
    }

    /** `_set_check`. */
    method SetCheck(name: Check, ok: bool)
      modifies this`checks
      ensures checks == old(checks)[name := StatusIf(ok)]
    {
      checks := checks[name := if ok then Pass else Fail];
    }

    /** The loop over the documents. */
    method ReadDocuments(w: World) returns (text: map<Document, string>)
      requires failures == []
      modifies this`documents, this`failures, this`checks
      ensures failures == Collect(DocumentItems(w))
      ensures documents == RecordsAfter(w, old(documents), |DOCUMENTS|)
      ensures text == TextsAfter(w, |DOCUMENTS|)
      ensures checks == old(checks)[DocumentAuthentication := StatusIf(AllRead(w))]
    {
      hide Collect, StatusOf, CodeOf;
      text := map[];
      ghost var items := DocumentItems(w);
      assert failures == Collect(items[..0]) by { NothingCollected(items); }
      for i := 0 to |DOCUMENTS|
        invariant failures == Collect(items[..i])
        invariant documents == RecordsAfter(w, old(documents), i)
        invariant text == TextsAfter(w, i)
        invariant checks == old(checks)
      {
        var name := DOCUMENTS[i];
        assert items[..i + 1] == items[..i] + [items[i]];
        var outcome := w.read(name);
        if outcome.Refused? {
          var status := StatusOf(outcome.kind);
          documents := documents[name := DocumentRecord(status, None, None)];
          AddFailure(Failure(CodeOf(status), Some(name), DocumentAuthentication), items[..i]);
          continue;
        }
        documents := documents[name := DocumentRecord(Authenticated, Some(outcome.byteLength), Some(outcome.sha256))];
        text := text[name := outcome.text];
        NoneCollectsNothing(items[..i]);
      }
      assert items[..|DOCUMENTS|] == items;
      TextsCount(w, |DOCUMENTS|);
      SetCheck(DocumentAuthentication, |text| == |DOCUMENTS|);
    }

    /** The loop over the semantic checks. */
    method JudgeTexts(w: World, text: map<Document, string>, ghost before: seq<Option<Failure>>)
      requires failures == Collect(before) && TextsOf(w, text)
      modifies this`failures, this`checks
      ensures failures == Collect(before + SemanticItems(w))
      ensures checks == JudgedAfter(w, old(checks), |SEMANTIC_CHECKS|)
    {
      hide Collect, TextsOf, SemanticPasses;
      ghost var items := SemanticItems(w);
      assert before + items[..0] == before;
      for i := 0 to |SEMANTIC_CHECKS|
        invariant failures == Collect(before + items[..i])
        invariant checks == JudgedAfter(w, old(checks), i)
      {
        var s := SEMANTIC_CHECKS[i];
        assert before + items[..i + 1] == (before + items[..i]) + [items[i]];
        TextMeaning(w, text, s);
        var ok := s.document in text && (forall d :: d in s.required ==> d in text) && w.ready(s.check, text[s.document]);
        SetCheck(s.check, ok);
        if !ok {
          AddFailure(Failure(s.code, Some(s.document), s.check), before + items[..i]);
        } else {
          NoneCollectsNothing(before + items[..i]);
        }
      }
      assert items[..|SEMANTIC_CHECKS|] == items;
    }

    /** The routing of the issue forms: one check for all of them, one failure for each. */
    method JudgeRouting(w: World, text: map<Document, string>, ghost before: seq<Option<Failure>>)
      requires failures == Collect(before) && TextsOf(w, text)
      modifies this`failures, this`checks
      ensures failures == Collect(before + RoutingItems(w))
      ensures checks == old(checks)[IssueFormRouting := StatusIf(RoutingPasses(w, HarnessModelForm) && RoutingPasses(w, BenchmarkForm))]
    {
      hide Collect;
      var results := [
        HarnessModelForm in text && w.routing(HarnessModelForm, text[HarnessModelForm]),
        BenchmarkForm in text && w.routing(BenchmarkForm, text[BenchmarkForm])];
      SetCheck(IssueFormRouting, results[0] && results[1]);
      ghost var judged := checks;
      ghost var items := RoutingItems(w);
      assert before + items[..0] == before;
      for i := 0 to |FORMS|
        invariant failures == Collect(before + items[..i]) && checks == judged
      {
        assert before + items[..i + 1] == (before + items[..i]) + [items[i]];
        if !results[i] {
          AddFailure(Failure(IssueFormRoutingInvalid, Some(FORMS[i]), IssueFormRouting), before + items[..i]);
        } else {
          NoneCollectsNothing(before + items[..i]);
        }
      }
      assert items[..|FORMS|] == items;
    }

    /** The privacy of the issue forms. */
    method JudgePrivacy(w: World, text: map<Document, string>, ghost before: seq<Option<Failure>>)
      requires failures == Collect(before) && TextsOf(w, text)
      modifies this`failures, this`checks
      ensures failures == Collect(before + PrivacyItems(w))
      ensures checks == old(checks)[IssueFormPrivacy := StatusIf(PrivacyPasses(w, HarnessModelForm) && PrivacyPasses(w, BenchmarkForm))]
    {
      hide Collect;
      var results := [
        HarnessModelForm in text && w.privacy(HarnessModelForm, text[HarnessModelForm]),
        BenchmarkForm in text && w.privacy(BenchmarkForm, text[BenchmarkForm])];
      SetCheck(IssueFormPrivacy, results[0] && results[1]);
      ghost var judged := checks;
      ghost var items := PrivacyItems(w);
      assert before + items[..0] == before;
      for i := 0 to |FORMS|
        invariant failures == Collect(before + items[..i]) && checks == judged
      {
        assert before + items[..i + 1] == (before + items[..i]) + [items[i]];
        if !results[i] {
          AddFailure(Failure(IssueFormPrivacyInvalid, Some(FORMS[i]), IssueFormPrivacy), before + items[..i]);
        } else {
          NoneCollectsNothing(before + items[..i]);
        }
      }
      assert items[..|FORMS|] == items;
    }

    /** Stale claims: an unread document makes the check fail without a failure of its own. */
    method JudgeClaims(w: World, text: map<Document, string>, ghost before: seq<Option<Failure>>)
      requires failures == Collect(before) && TextsOf(w, text)
      modifies this`failures, this`checks
      ensures failures == Collect(before + StaleItems(w))
      ensures checks == old(checks)[StaleClaims := StatusIf(ClaimsFresh(w, |STALE_DOCUMENTS|))]
    {
      hide Collect;
      var ok := true;
      ghost var items := StaleItems(w);
      assert before + items[..0] == before;
      for i := 0 to |STALE_DOCUMENTS|
        invariant failures == Collect(before + items[..i])
        invariant ok == ClaimsFresh(w, i)
        invariant checks == old(checks)
      {
        var d := STALE_DOCUMENTS[i];
        assert before + items[..i + 1] == (before + items[..i]) + [items[i]];
        if d !in text {
          ok := false;
          NoneCollectsNothing(before + items[..i]);
          continue;
        }
        if !w.current(d, text[d]) {
          ok := false;
          AddFailure(Failure(StaleClaim, Some(d), StaleClaims), before + items[..i]);
        } else {
          NoneCollectsNothing(before + items[..i]);
        }
      }
      assert items[..|STALE_DOCUMENTS|] == items;
      SetCheck(StaleClaims, ok);
    }
  }

  const NOT_READ := DocumentRecord(NotRead, None, None)

  const NOTHING_READ := map[
    RootReadme := NOT_READ, RootRelease := NOT_READ, RootContributing := NOT_READ, RootPrivacy := NOT_READ, RootTerms := NOT_READ,
    RootLicense := NOT_READ, CliReadme := NOT_READ, CliReleaseReadme := NOT_READ, CliContributing := NOT_READ,
    CliSupport := NOT_READ, CliChangelog := NOT_READ, HarnessModelForm := NOT_READ, BenchmarkForm := NOT_READ]

  const NOTHING_CHECKED := map[
    RepositoryRoot := NotEvaluated, Version := NotEvaluated, DocumentAuthentication := NotEvaluated,
    ChangelogSection := NotEvaluated, ReadmeSurfaces := NotEvaluated, ReleaseTrain := NotEvaluated,
    ContributionRoute := NotEvaluated, PrivacyBoundary := NotEvaluated, TermsScope := NotEvaluated,
    ContributionGovernance := NotEvaluated, LicenseIdentity := NotEvaluated, SupportRouting := NotEvaluated,
    IssueFormRouting := NotEvaluated, IssueFormPrivacy := NotEvaluated, StaleClaims := NotEvaluated]

  lemma {:induction false} NothingReadHolds()
    ensures forall d :: d in NOTHING_READ && NOTHING_READ[d] == NOT_READ
    ensures forall c :: c in NOTHING_CHECKED && NOTHING_CHECKED[c] == NotEvaluated
  {
    forall d: Document ensures d in NOTHING_READ && NOTHING_READ[d] == NOT_READ {
      match d {
        case RootReadme => case RootRelease => case RootContributing => case RootPrivacy => case RootTerms => case RootLicense =>
        case CliReadme => case CliReleaseReadme => case CliContributing => case CliSupport => case CliChangelog =>
        case HarnessModelForm => case BenchmarkForm =>
      }
    }
    forall c: Check ensures c in NOTHING_CHECKED && NOTHING_CHECKED[c] == NotEvaluated {
      match c {
        case RepositoryRoot => case Version => case DocumentAuthentication => case ChangelogSection => case ReadmeSurfaces =>
        case ReleaseTrain => case ContributionRoute => case PrivacyBoundary => case TermsScope => case ContributionGovernance =>
        case LicenseIdentity => case SupportRouting => case IssueFormRouting => case IssueFormPrivacy => case StaleClaims =>
      }
    }
  }

  lemma {:induction false} NothingCollected(items: seq<Option<Failure>>)
    ensures Collect(items[..0]) == []
  {
  }

  lemma {:induction false} NoneCollectsNothing(items: seq<Option<Failure>>)
    ensures Collect(items + [None]) == Collect(items)
  {
    assert (items + [None])[..|items|] == items;
  }

  ghost predicate TextsOf(w: World, text: map<Document, string>) {
    forall d :: (d in text <==> IsRead(w, d)) && (d in text && w.read(d).Read? ==> text[d] == w.read(d).text)
  }

  lemma {:induction false} TextMeaning(w: World, text: map<Document, string>, s: Semantic)
    requires TextsOf(w, text)
    ensures SemanticPasses(w, s) <==> s.document in text && (forall d :: d in s.required ==> d in text) && w.ready(s.check, text[s.document])
  {
  }

  // ---------------------------------------------------------------- the assessment

  /** When a check passes. */
  ghost predicate Passes(w: World, c: Check) {
    match c
    case Version => w.versionOk
    case RepositoryRoot => w.rootOk
    case DocumentAuthentication => forall d :: w.read(d).Read?
    case IssueFormRouting => FormRouted(w, HarnessModelForm) && FormRouted(w, BenchmarkForm)
    case IssueFormPrivacy => FormPrivate(w, HarnessModelForm) && FormPrivate(w, BenchmarkForm)
    case StaleClaims =>
      Fresh(w, RootReadme) && Fresh(w, RootRelease) && Fresh(w, RootContributing) && Fresh(w, RootPrivacy)
    case ChangelogSection => Judged(w, c, CliChangelog)
    case ReadmeSurfaces => Judged(w, c, RootReadme) && w.read(CliReadme).Read?
    case ReleaseTrain => Judged(w, c, RootRelease) && w.read(CliReleaseReadme).Read?
    case ContributionRoute => Judged(w, c, RootContributing) && w.read(CliContributing).Read?
    case PrivacyBoundary => Judged(w, c, RootPrivacy)
    case TermsScope => Judged(w, c, RootTerms)
    case ContributionGovernance => Judged(w, c, RootContributing)
    case LicenseIdentity => Judged(w, c, RootLicense)
    case SupportRouting => Judged(w, c, CliSupport) && w.read(HarnessModelForm).Read? && w.read(BenchmarkForm).Read?
  }

  ghost predicate FormRouted(w: World, d: Document) {
    w.read(d).Read? && w.routing(d, w.read(d).text)
  }

  ghost predicate FormPrivate(w: World, d: Document) {
    w.read(d).Read? && w.privacy(d, w.read(d).text)
  }

  /** The document was read and its text meets the check. */
  ghost predicate Judged(w: World, c: Check, d: Document) {
    w.read(d).Read? && w.ready(c, w.read(d).text)
  }

  ghost predicate Fresh(w: World, d: Document) {
    w.read(d).Read? && w.current(d, w.read(d).text)
  }

  /** The table of semantic checks says what the checks are for. */
  lemma {:induction false} SemanticMeaning(w: World, c: Check)
    requires IsSemantic(c)
    ensures SemanticPasses(w, SEMANTIC_CHECKS[IndexOfCheck(c)]) <==> Passes(w, c)
  {
    var s := SEMANTIC_CHECKS[IndexOfCheck(c)];
    if Passes(w, c) {
      forall d | d in s.required ensures IsRead(w, d) {}
    }
    if SemanticPasses(w, s) {
      forall i | 0 <= i < |s.required| ensures IsRead(w, s.required[i]) { assert s.required[i] in s.required; }
      assert |s.required| > 1 ==> IsRead(w, s.required[1]);
      assert |s.required| > 2 ==> IsRead(w, s.required[2]);
    }
  }

  lemma {:induction false} StaleMeaning(w: World)
    ensures Passes(w, StaleClaims) <==> forall d :: d in STALE_DOCUMENTS ==> IsRead(w, d) && !IsStale(w, d)
  {
    assert STALE_DOCUMENTS[0] in STALE_DOCUMENTS && STALE_DOCUMENTS[1] in STALE_DOCUMENTS;
    assert STALE_DOCUMENTS[2] in STALE_DOCUMENTS && STALE_DOCUMENTS[3] in STALE_DOCUMENTS;
  }

  ghost predicate AllGood(w: World) {
    w.versionOk && w.rootOk && forall c :: Passes(w, c)
  }

  predicate IsSemantic(c: Check) {
    !c.Version? && !c.RepositoryRoot? && !c.DocumentAuthentication? && !c.IssueFormRouting? && !c.IssueFormPrivacy? && !c.StaleClaims?
  }

  function IndexOfCheck(c: Check): (i: nat)
    requires IsSemantic(c)
    ensures i < |SEMANTIC_CHECKS| && SEMANTIC_CHECKS[i].check == c
  {
    match c
    case ChangelogSection => 0 case ReadmeSurfaces => 1 case ReleaseTrain => 2 case ContributionRoute => 3 case PrivacyBoundary => 4
    case TermsScope => 5 case ContributionGovernance => 6 case LicenseIdentity => 7 case SupportRouting => 8
  }

  lemma {:induction false} JudgedHolds(w: World, start: map<Check, CheckStatus>, n: nat, c: Check)
    requires n <= |SEMANTIC_CHECKS| && c in start
    ensures c in JudgedAfter(w, start, n)
    ensures JudgedAfter(w, start, n)[c] ==
            if IsSemantic(c) && IndexOfCheck(c) < n then StatusIf(SemanticPasses(w, SEMANTIC_CHECKS[IndexOfCheck(c)])) else start[c]
  {
    hide SemanticPasses;
    if n > 0 {
      JudgedHolds(w, start, n - 1, c);
      CheckPosition(n - 1);
    }
  }

  lemma {:induction false} CheckPosition(i: nat)
    requires i < |SEMANTIC_CHECKS|
    ensures IsSemantic(SEMANTIC_CHECKS[i].check) && IndexOfCheck(SEMANTIC_CHECKS[i].check) == i
  {
  }

  lemma {:induction false} ClaimsFreshMeans(w: World, n: nat)
    requires n <= |STALE_DOCUMENTS|
    ensures ClaimsFresh(w, n) <==> forall i :: 0 <= i < n ==> IsRead(w, STALE_DOCUMENTS[i]) && !IsStale(w, STALE_DOCUMENTS[i])
  {
    hide IsStale, IsRead;
    if n > 0 { ClaimsFreshMeans(w, n - 1); }
  }

  /** Every check of a run that gets past version and root is evaluated, and passes when it should. */
  lemma {:induction false} FinalChecksMean(w: World, start: map<Check, CheckStatus>, c: Check)
    requires forall k :: k in start
    requires w.versionOk && w.rootOk && start[Version] == Pass && start[RepositoryRoot] == Pass
    ensures c in FinalChecks(w, start) && FinalChecks(w, start)[c] == StatusIf(Passes(w, c))
  {
    hide SemanticPasses, IsStale, JudgedAfter, ClaimsFresh, Judged, Fresh, FormRouted, FormPrivate, Passes, AllRead, RoutingPasses, PrivacyPasses;
    JudgedHolds(w, start[DocumentAuthentication := StatusIf(AllRead(w))], |SEMANTIC_CHECKS|, c);
    if c.StaleClaims? {
      ClaimsFreshMeans(w, |STALE_DOCUMENTS|);
      StaleMeaning(w);
    } else if IsSemantic(c) {
      SemanticMeaning(w, c);
    } else {
      OtherMeaning(w, c);
    }
  }

  lemma {:induction false} OtherMeaning(w: World, c: Check)
    requires !IsSemantic(c) && !c.StaleClaims?
    ensures c.Version? ==> (Passes(w, c) <==> w.versionOk)
    ensures c.RepositoryRoot? ==> (Passes(w, c) <==> w.rootOk)
    ensures c.DocumentAuthentication? ==> (Passes(w, c) <==> AllRead(w))
    ensures c.IssueFormRouting? ==> (Passes(w, c) <==> RoutingPasses(w, HarnessModelForm) && RoutingPasses(w, BenchmarkForm))
    ensures c.IssueFormPrivacy? ==> (Passes(w, c) <==> PrivacyPasses(w, HarnessModelForm) && PrivacyPasses(w, BenchmarkForm))
  {
    if c.DocumentAuthentication? && AllRead(w) {
      forall d ensures w.read(d).Read? { assert IsRead(w, DOCUMENTS[PositionOf(d)]); }
    }
  }

  /** Which failures a run has, told from the outcomes alone. */
  ghost predicate Due(w: World, f: Failure) {
    if !w.versionOk then f == Failure(InputInvalid, None, Version)
    else if !w.rootOk then f == Failure(RootUnsafe, None, RepositoryRoot)
    else
      f.document.Some? &&
      var d := f.document.value;
      match f.check
      case Version => false
      case RepositoryRoot => false
      case DocumentAuthentication =>
        w.read(d).Refused? &&
        f.code == (if w.read(d).kind == "unavailable" then DocumentUnavailable
                   else if w.read(d).kind == "malformed" then DocumentMalformed else DocumentUnsafe)
      case IssueFormRouting =>
        (d == HarnessModelForm || d == BenchmarkForm) && f.code == IssueFormRoutingInvalid && !FormRouted(w, d)
      case IssueFormPrivacy =>
        (d == HarnessModelForm || d == BenchmarkForm) && f.code == IssueFormPrivacyInvalid && !FormPrivate(w, d)
      case StaleClaims =>
        (d == RootReadme || d == RootRelease || d == RootContributing || d == RootPrivacy) && f.code == StaleClaim &&
        w.read(d).Read? && !w.current(d, w.read(d).text)
      case ChangelogSection => d == CliChangelog && f.code == ChangelogSectionInvalid && !Passes(w, f.check)
      case ReadmeSurfaces => d == RootReadme && f.code == ReadmeSurfacesMissing && !Passes(w, f.check)
      case ReleaseTrain => d == RootRelease && f.code == ReleaseTrainMissing && !Passes(w, f.check)
      case ContributionRoute => d == RootContributing && f.code == ContributionRouteMissing && !Passes(w, f.check)
      case PrivacyBoundary => d == RootPrivacy && f.code == PrivacyBoundaryMissing && !Passes(w, f.check)
      case TermsScope => d == RootTerms && f.code == TermsScopeMissing && !Passes(w, f.check)
      case ContributionGovernance => d == RootContributing && f.code == GovernanceDeclarationMissing && !Passes(w, f.check)
      case LicenseIdentity => d == RootLicense && f.code == LicenseInvalid && !Passes(w, f.check)
      case SupportRouting => d == CliSupport && f.code == SupportRoutingInvalid && !Passes(w, f.check)
  }

  /** The failures of a run are exactly the ones that are due. */
  lemma {:induction false} FailuresMean(w: World, f: Failure)
    ensures f in Collect(Items(w)) <==> Due(w, f)
  {
    hide Collect, SemanticPasses, Passes, FormRouted, FormPrivate, RoutingPasses, PrivacyPasses, IsStale, DocumentFailure;
    CollectHolds(Items(w));
    if w.versionOk && w.rootOk {
      if Some(f) in Items(w) { ItemIsDue(w, f); }
      if Due(w, f) { DueIsItem(w, f); }
    } else {
      assert Items(w) == [Items(w)[0]];
      assert Some(f) in Items(w) <==> Some(f) == Items(w)[0];
    }
  }

  lemma {:induction false} SemanticItemIsDue(w: World, f: Failure)
    requires w.versionOk && w.rootOk && Some(f) in SemanticItems(w)
    ensures Due(w, f)
  {
    hide SemanticPasses, Passes, SEMANTIC_CHECKS;
    var i :| 0 <= i < |SEMANTIC_CHECKS| && SemanticItems(w)[i] == Some(f);
    CheckPosition(i);
    SemanticMeaning(w, SEMANTIC_CHECKS[i].check);
    CodesOfChecks(i);
  }

  lemma {:induction false} OtherItemIsDue(w: World, f: Failure)
    requires w.versionOk && w.rootOk && (Some(f) in DocumentItems(w) || Some(f) in StaleItems(w))
    ensures Due(w, f)
  {
    hide Passes;
    if Some(f) in DocumentItems(w) {
      var i :| 0 <= i < |DOCUMENTS| && DocumentItems(w)[i] == Some(f);
    } else {
      var i :| 0 <= i < |STALE_DOCUMENTS| && StaleItems(w)[i] == Some(f);
    }
  }

  lemma {:induction false} FormItemIsDue(w: World, f: Failure)
    requires w.versionOk && w.rootOk && (Some(f) in RoutingItems(w) || Some(f) in PrivacyItems(w))
    ensures Due(w, f)
  {
    hide Passes;
    if Some(f) in RoutingItems(w) {
      var i :| 0 <= i < |FORMS| && RoutingItems(w)[i] == Some(f);
    } else {
      var i :| 0 <= i < |FORMS| && PrivacyItems(w)[i] == Some(f);
    }
  }

  lemma {:induction false} ItemIsDue(w: World, f: Failure)
    requires w.versionOk && w.rootOk && Some(f) in Items(w)
    ensures Due(w, f)
  {
    hide Due, DocumentItems, SemanticItems, RoutingItems, PrivacyItems, StaleItems;
    if Some(f) in SemanticItems(w) {
      SemanticItemIsDue(w, f);
    } else if Some(f) in RoutingItems(w) || Some(f) in PrivacyItems(w) {
      FormItemIsDue(w, f);
    } else {
      OtherItemIsDue(w, f);
    }
  }

  /** The document and the code of each semantic check. */
  lemma {:induction false} CodesOfChecks(i: nat)
    requires i < |SEMANTIC_CHECKS|
    ensures var s := SEMANTIC_CHECKS[i];
            match s.check
            case ChangelogSection => s.document == CliChangelog && s.code == ChangelogSectionInvalid
            case ReadmeSurfaces => s.document == RootReadme && s.code == ReadmeSurfacesMissing
            case ReleaseTrain => s.document == RootRelease && s.code == ReleaseTrainMissing
            case ContributionRoute => s.document == RootContributing && s.code == ContributionRouteMissing
            case PrivacyBoundary => s.document == RootPrivacy && s.code == PrivacyBoundaryMissing
            case TermsScope => s.document == RootTerms && s.code == TermsScopeMissing
            case ContributionGovernance => s.document == RootContributing && s.code == GovernanceDeclarationMissing
            case LicenseIdentity => s.document == RootLicense && s.code == LicenseInvalid
            case SupportRouting => s.document == CliSupport && s.code == SupportRoutingInvalid
            case _ => false
  {
  }

  lemma {:induction false} DueIsItem(w: World, f: Failure)
    requires w.versionOk && w.rootOk && Due(w, f)
    ensures Some(f) in Items(w)
  {
    hide SemanticPasses, Passes, SEMANTIC_CHECKS;
    var d := f.document.value;
    if f.check.DocumentAuthentication? {
      assert DocumentItems(w)[PositionOf(d)] == Some(f);
    } else if IsSemantic(f.check) {
      var i := IndexOfCheck(f.check);
      SemanticMeaning(w, f.check);
      CodesOfChecks(i);
      assert SemanticItems(w)[i] == Some(f);
    } else if f.check.IssueFormRouting? {
      assert RoutingItems(w)[if d == HarnessModelForm then 0 else 1] == Some(f);
    } else if f.check.IssueFormPrivacy? {
      assert PrivacyItems(w)[if d == HarnessModelForm then 0 else 1] == Some(f);
    } else {
      assert StaleItems(w)[if d == RootReadme then 0 else if d == RootRelease then 1 else if d == RootContributing then 2 else 3] == Some(f);
    }
  }

  /** What the report says of a document. */
  ghost predicate Told(record: DocumentRecord, outcome: Outcome) {
    match outcome
    case Read(n, sha256, _) => record == DocumentRecord(Authenticated, Some(n), Some(sha256))
    case Refused(kind) =>
      record.byteLength.None? && record.sha256.None? &&
      record.status == (if kind == "unavailable" then Unavailable else if kind == "malformed" then Malformed else Unsafe)
  }

  lemma {:induction false} RecordsMean(w: World, start: map<Document, DocumentRecord>, n: nat, d: Document)
    requires n <= |DOCUMENTS| && d in start
    ensures d in RecordsAfter(w, start, n)
    ensures if PositionOf(d) < n then Told(RecordsAfter(w, start, n)[d], w.read(d)) else RecordsAfter(w, start, n)[d] == start[d]
  {
    hide PositionOf;
    if n > 0 {
      RecordsMean(w, start, n - 1, d);
      OnlyPosition(DOCUMENTS[n - 1], n - 1);
    }
  }

  /** Nothing is collected exactly when every check passes: in particular the stale-claims check, which
      can fail without a failure of its own, never is the only one to fail. */
  lemma {:induction false} NothingCollectedIsAllGood(w: World)
    requires w.versionOk && w.rootOk
    ensures Collect(Items(w)) == [] <==> AllGood(w)
  {
    hide SemanticPasses, RoutingPasses, PrivacyPasses, IsStale, StatusOf, CodeOf, Collect, Passes, SEMANTIC_CHECKS;
    var all := Items(w);
    CollectEmpty(all);
    if Collect(all) == [] {
      AllNone(w);
      forall d ensures IsRead(w, d) { assert DocumentFailure(w, DOCUMENTS[PositionOf(d)]).None?; }
      forall d | d in STALE_DOCUMENTS ensures !IsStale(w, d) {
        var i :| 0 <= i < |STALE_DOCUMENTS| && STALE_DOCUMENTS[i] == d;
        assert StaleFailure(w, STALE_DOCUMENTS[i]).None?;
      }
      assert RoutingFailure(w, FORMS[0]).None? && RoutingFailure(w, FORMS[1]).None?;
      assert PrivacyFailure(w, FORMS[0]).None? && PrivacyFailure(w, FORMS[1]).None?;
      StaleMeaning(w);
      forall c ensures Passes(w, c) {
        if IsSemantic(c) {
          assert SemanticFailure(w, SEMANTIC_CHECKS[IndexOfCheck(c)]).None?;
          SemanticMeaning(w, c);
        } else if !c.StaleClaims? {
          OtherMeaning(w, c);
        }
      }
    }
    if AllGood(w) { GoodHasNoItem(w); }
  }

  lemma {:induction false} AllNone(w: World)
    requires w.versionOk && w.rootOk && forall x :: x in Items(w) ==> x.None?
    ensures forall i :: 0 <= i < |DOCUMENTS| ==> DocumentFailure(w, DOCUMENTS[i]).None?
    ensures forall i :: 0 <= i < |SEMANTIC_CHECKS| ==> SemanticFailure(w, SEMANTIC_CHECKS[i]).None?
    ensures forall i :: 0 <= i < |FORMS| ==> RoutingFailure(w, FORMS[i]).None? && PrivacyFailure(w, FORMS[i]).None?
    ensures forall i :: 0 <= i < |STALE_DOCUMENTS| ==> StaleFailure(w, STALE_DOCUMENTS[i]).None?
  {
    hide DocumentFailure, SemanticFailure, RoutingFailure, PrivacyFailure, StaleFailure;
    forall i | 0 <= i < |DOCUMENTS| ensures DocumentFailure(w, DOCUMENTS[i]).None? { assert DocumentItems(w)[i] in Items(w); }
    forall i | 0 <= i < |SEMANTIC_CHECKS| ensures SemanticFailure(w, SEMANTIC_CHECKS[i]).None? { assert SemanticItems(w)[i] in Items(w); }
    forall i | 0 <= i < |FORMS| ensures RoutingFailure(w, FORMS[i]).None? && PrivacyFailure(w, FORMS[i]).None? {
      assert RoutingItems(w)[i] in Items(w);
      assert PrivacyItems(w)[i] in Items(w);
    }
    forall i | 0 <= i < |STALE_DOCUMENTS| ensures StaleFailure(w, STALE_DOCUMENTS[i]).None? { assert StaleItems(w)[i] in Items(w); }
  }

  lemma {:induction false} GoodHasNoItem(w: World)
    requires AllGood(w)
    ensures forall x :: x in Items(w) ==> x.None?
  {
    hide SemanticPasses, RoutingPasses, PrivacyPasses, IsStale, StatusOf, CodeOf, Passes;
    assert Passes(w, DocumentAuthentication) && Passes(w, IssueFormRouting) && Passes(w, IssueFormPrivacy) && Passes(w, StaleClaims);
    OtherMeaning(w, DocumentAuthentication);
    OtherMeaning(w, IssueFormRouting);
    OtherMeaning(w, IssueFormPrivacy);
    StaleMeaning(w);
    forall i | 0 <= i < |SEMANTIC_CHECKS| ensures SemanticFailure(w, SEMANTIC_CHECKS[i]).None? {
      CheckPosition(i);
      assert Passes(w, SEMANTIC_CHECKS[i].check);
      SemanticMeaning(w, SEMANTIC_CHECKS[i].check);
    }
    forall x | x in Items(w) ensures x.None? {
      if x in StaleItems(w) {
        var i :| 0 <= i < |STALE_DOCUMENTS| && StaleItems(w)[i] == x;
        assert STALE_DOCUMENTS[i] in STALE_DOCUMENTS;
      }
    }
  }

  /** The silent branch: when the stale-claims check fails without a failure of its own, a document
      was not read, and that document's failure is in the report. */
  lemma {:induction false} SilentStaleClaims(w: World)
    requires w.versionOk && w.rootOk && !Passes(w, StaleClaims)
    requires forall f :: f in Collect(Items(w)) ==> !f.check.StaleClaims?
    ensures exists d :: d in STALE_DOCUMENTS && DocumentFailure(w, d).Some? && DocumentFailure(w, d).value in Collect(Items(w))
  {
    hide SemanticPasses, RoutingPasses, PrivacyPasses, StatusOf, CodeOf, Collect, Passes;
    CollectHolds(Items(w));
    StaleMeaning(w);
    var d :| d in STALE_DOCUMENTS && !(IsRead(w, d) && !IsStale(w, d));
    var i :| 0 <= i < |STALE_DOCUMENTS| && STALE_DOCUMENTS[i] == d;
    assert StaleItems(w)[i] in Items(w);
    assert DocumentItems(w)[PositionOf(d)] in Items(w);
    assert IsStale(w, d) ==> Some(Failure(StaleClaim, Some(d), StaleClaims)) in Items(w);
  }

  /** `assess`: whatever the outcomes, the report passes its validator, its failures are those of the
      run, each once, and it passes exactly when every check does. */
  method Assess(w: World) returns (report: Report)
    requires Sound(w)
    ensures fresh(report) && report.Validates()
    ensures forall f :: f in report.failures <==> Due(w, f)
    ensures w.versionOk && w.rootOk ==>
              forall c :: c in report.checks && report.checks[c] == if Passes(w, c) then Pass else Fail
    ensures w.versionOk && w.rootOk ==> forall d :: d in report.documents && Told(report.documents[d], w.read(d))
    ensures !(w.versionOk && w.rootOk) ==>
              forall c :: c in report.checks &&
                report.checks[c] == if c.Version? then (if w.versionOk then Pass else Fail)
                                    else if c.RepositoryRoot? && w.versionOk then Fail else NotEvaluated
    ensures !(w.versionOk && w.rootOk) ==>
              forall d :: d in report.documents && report.documents[d] == DocumentRecord(NotRead, None, None)
    ensures report.passed <==> AllGood(w)
  {
    hide Sound, RecordSound, Due, Passes, Told;
    forall f ensures f in Collect(Items(w)) <==> Due(w, f) { FailuresMean(w, f); }
    report := new Report(w.versionOk);
    assert RecordSound(NOT_READ) by { NotReadIsSound(); }
    assert Collect([]) == [];
    if !w.versionOk {
      report.SetCheck(Version, false);
      report.AddFailure(Failure(InputInvalid, None, Version), []);
      assert [] + [Some(Failure(InputInvalid, None, Version))] == Items(w);
      CollectHolds(Items(w));
      assert Some(Failure(InputInvalid, None, Version)) in Items(w);
      return;
    }
    report.SetCheck(Version, true);
    if !w.rootOk {
      report.SetCheck(RepositoryRoot, false);
      report.AddFailure(Failure(RootUnsafe, None, RepositoryRoot), []);
      assert [] + [Some(Failure(RootUnsafe, None, RepositoryRoot))] == Items(w);
      CollectHolds(Items(w));
      assert Some(Failure(RootUnsafe, None, RepositoryRoot)) in Items(w);
      return;
    }
    report.SetCheck(RepositoryRoot, true);
    FillReport(w, report);
  }

  lemma {:induction false} TextsAreThere(w: World)
    ensures TextsOf(w, TextsAfter(w, |DOCUMENTS|))
  {
    hide PositionOf;
    TextsHold(w, |DOCUMENTS|);
  }

  lemma {:induction false} NotReadIsSound()
    ensures RecordSound(NOT_READ)
  {
  }

  /** The part of `assess` after version and root are known to be good. */
  method FillReport(w: World, report: Report)
    requires Sound(w) && w.versionOk && w.rootOk && report.failures == []
    requires forall d :: d in report.documents && RecordSound(report.documents[d])
    requires forall c :: c in report.checks
    requires report.checks[Version] == Pass && report.checks[RepositoryRoot] == Pass
    modifies report
    ensures report.Validates()
    ensures report.failures == Collect(Items(w))
    ensures forall c :: c in report.checks && report.checks[c] == if Passes(w, c) then Pass else Fail
    ensures forall d :: d in report.documents && Told(report.documents[d], w.read(d))
    ensures report.passed <==> AllGood(w)
  {
    hide Sound, RecordSound, Collect, Passes, Distinct, RecordsAfter, TextsAfter, JudgedAfter, AllRead, RoutingPasses, PrivacyPasses, ClaimsFresh,
      DocumentItems, SemanticItems, RoutingItems, PrivacyItems, StaleItems, IsRead, TextsOf, Told, PositionOf;
    ghost var start, records := report.checks, report.documents;
    var text := report.ReadDocuments(w);
    TextsAreThere(w);
    ghost var i1 := DocumentItems(w);
    report.JudgeTexts(w, text, i1);
    report.JudgeRouting(w, text, i1 + SemanticItems(w));
    report.JudgePrivacy(w, text, i1 + SemanticItems(w) + RoutingItems(w));
    report.JudgeClaims(w, text, i1 + SemanticItems(w) + RoutingItems(w) + PrivacyItems(w));
    report.passed := report.failures == [];
    assert report.checks == FinalChecks(w, start);
    forall c ensures c in report.checks && report.checks[c] == StatusIf(Passes(w, c)) { FinalChecksMean(w, start, c); }
    CollectHolds(Items(w));
    RecordsAreSound(w, records, |DOCUMENTS|);
    forall d ensures d in report.documents && Told(report.documents[d], w.read(d)) { RecordsMean(w, records, |DOCUMENTS|, d); }
    NothingCollectedIsAllGood(w);
  }
}
