/** Same-name npm publication (publication.py, schema 2): one package name, four platform payload
    versions and one root version, against a registry that accepts versions before it shows them.

    The registry is a state that other parties may change at any moment; the publisher may stop at
    any step and be started again.  `Step` is the protocol, a run is a list of events that
    `Replay` accepts, and the class `Publisher` below is the program, proved to produce only runs. */
module RegistryPublication {
  import opened NpmVersions
  import opened Platforms
  import opened Wrappers

  // ---------------------------------------------------------------- registry

  /** A version the registry has taken: not yet public, or public with its integrity. */
  datatype Slot = Accepted(integrity: string) | Visible(integrity: string)

  type Registry = map<string, Slot>

  predicate Shows(registry: Registry, version: string, integrity: string) {
    version in registry && registry[version] == Visible(integrity)
  }

  /** The one thing assumed of the registry and of everybody else who writes to it: a public
      version is never changed and never withdrawn. */
  predicate WriteOnce(before: Registry, after: Registry) {
    forall v :: v in before && before[v].Visible? ==> v in after && after[v] == before[v]
  }

  // ---------------------------------------------------------------- release

  const ROOT: nat := 4
  const COHORT: nat := 5

  /** What is to be published, in submission order: versions and exact integrities of the four
      payloads, then of the root. */
  datatype Release = Release(versions: seq<string>, expected: seq<string>)

  ghost predicate ValidRelease(rel: Release) {
    && |rel.versions| == COHORT && |rel.expected| == COHORT
    && forall a, b :: 0 <= a < b < COHORT ==> rel.versions[a] != rel.versions[b]
  }

  function PlatformName(a: nat): string
    requires a < ROOT
  {
    [DARWIN_ARM64, DARWIN_X64, LINUX_ARM64, LINUX_X64][a]
  }

  /** The versions `publish` derives from a plan. */
  function PlanVersions(v: PlanVersion): seq<string> {
    [Payload(v, PlatformName(0)), Payload(v, PlatformName(1)), Payload(v, PlatformName(2)), Payload(v, PlatformName(3)),
     VersionText(v)]
  }

  /** Every admitted plan version yields five different registry versions, so that the five
      packages of the one name never meet. */
  lemma {:induction false} PlanReleaseIsValid(v: PlanVersion, expected: seq<string>)
    requires |expected| == COHORT
    ensures ValidRelease(Release(PlanVersions(v), expected))
  {
    hide Payload, VersionText;
    forall a, b | 0 <= a < b < COHORT ensures PlanVersions(v)[a] != PlanVersions(v)[b] {
      if b == ROOT {
        PayloadIsNoRoot(v, PlatformName(a), v);
      } else if PlanVersions(v)[a] == PlanVersions(v)[b] {
        PayloadInjective(v, PlatformName(a), v, PlatformName(b));
      }
    }
  }

  // ---------------------------------------------------------------- protocol

  /** Where the publisher is.  `found` holds the preflight answers; `next` the alias to handle;
      `pending` the aliases of the last cohort whose integrity is still awaited. */
  datatype Client =
    | Idle
    | Preflight(found: seq<Option<string>>)
    | Submitting(found: seq<Option<string>>, next: nat)
    | Awaiting(found: seq<Option<string>>, next: nat, pending: set<nat>)
    | Done

  datatype World = World(registry: Registry, client: Client)

  /** Why a session stops early: a crash, a lookup without an answer, foreign bytes found in the
      preflight, a failed signature, a package changed on disk, or no visibility in time. */
  datatype Halt = Crashed | Unreachable | ForeignBytes | NotSigned | ChangedBytes | TimedOut

  datatype Event =
    | Environment(registry: Registry)
    | Start
    | Stop(why: Halt)
    | Look(alias: nat, answer: Option<string>)
    | Admit
    | Submit(alias: nat, lands: bool, ok: bool)
    | Skip(alias: nat)
    | Advance

  /** Every answer is missing or exactly the integrity to be published. */
  predicate Compatible(rel: Release, found: seq<Option<string>>)
    requires |rel.expected| == COHORT && |found| <= COHORT
  {
    forall a :: 0 <= a < |found| ==> found[a] == None || found[a] == Some(rel.expected[a])
  }

  /** Some answer is an integrity other than the one to be published. */
  ghost predicate Foreign(rel: Release, found: seq<Option<string>>)
    requires |rel.expected| == COHORT && |found| <= COHORT
  {
    exists a :: 0 <= a < |found| && found[a].Some? && found[a].value != rel.expected[a]
  }

  lemma {:induction false} CompatibleMeaning(rel: Release, found: seq<Option<string>>)
    requires |rel.expected| == COHORT && |found| <= COHORT
    ensures Compatible(rel, found) <==> !Foreign(rel, found)
  {
    if Compatible(rel, found) {
      forall a | 0 <= a < |found| && found[a].Some? ensures found[a].value == rel.expected[a] {
        assert found[a] == None || found[a] == Some(rel.expected[a]);
      }
    }
  }

  /** When a session may stop for a reason: only a crash comes at any moment. */
  predicate MayHalt(rel: Release, c: Client, why: Halt)
    requires |rel.expected| == COHORT
  {
    match why
    case Crashed => true
    case Unreachable => (c.Preflight? && |c.found| < COHORT) || (c.Awaiting? && c.pending != {})
    case ForeignBytes => c.Preflight? && |c.found| == COHORT && !Compatible(rel, c.found)
    case NotSigned => c.Preflight? && |c.found| == COHORT && Compatible(rel, c.found)
    case ChangedBytes => c.Submitting?
    case TimedOut => c.Awaiting? && c.pending != {}
  }

  function AfterHandled(found: seq<Option<string>>, next: nat): Client {
    if next == ROOT then Awaiting(found, ROOT, {0, 1, 2, 3})
    else if next == COHORT then Awaiting(found, COHORT, {ROOT})
    else Submitting(found, next)
  }

  /** What one event does, or None when the protocol does not allow it.  An answer may be stale,
      hence missing although the version is public, but it never invents an integrity. */
  function Step(rel: Release, w: World, e: Event): Option<World>
    requires ValidRelease(rel)
  {
    match e
    case Environment(registry) => if WriteOnce(w.registry, registry) then Some(World(registry, w.client)) else None
    case Start => if w.client.Idle? || w.client.Done? then Some(w.(client := Preflight([]))) else None
    case Stop(why) => if MayHalt(rel, w.client, why) then Some(w.(client := Idle)) else None
    case Look(a, answer) =>
      if a >= COHORT || (answer.Some? && !Shows(w.registry, rel.versions[a], answer.value)) then None
      else if w.client.Preflight? && a == |w.client.found| then Some(w.(client := Preflight(w.client.found + [answer])))
      else if w.client.Awaiting? && a in w.client.pending then
        if answer.None? then Some(w)
        else if answer.value == rel.expected[a] then Some(w.(client := w.client.(pending := w.client.pending - {a})))
        else Some(w.(client := Idle))
      else None
    case Admit =>
      if w.client.Preflight? && |w.client.found| == COHORT && Compatible(rel, w.client.found)
      then Some(w.(client := Submitting(w.client.found, 0))) else None
    case Submit(a, lands, ok) =>
      if w.client.Submitting? && a == w.client.next < |w.client.found| == COHORT && w.client.found[a].None? then
        var taken := lands && rel.versions[a] !in w.registry;
        Some(World(if taken then w.registry[rel.versions[a] := Accepted(rel.expected[a])] else w.registry,
                   if ok then AfterHandled(w.client.found, a + 1) else Idle))
      else None
    case Skip(a) =>
      if w.client.Submitting? && a == w.client.next < |w.client.found| == COHORT && w.client.found[a].Some?
      then Some(w.(client := AfterHandled(w.client.found, a + 1))) else None
    case Advance =>
      if w.client.Awaiting? && w.client.pending == {}
      then Some(w.(client := if w.client.next == ROOT then Submitting(w.client.found, ROOT) else Done)) else None
  }

  /** The world after a list of events, or None when some event was not allowed. */
  function Replay(rel: Release, start: World, events: seq<Event>): Option<World>
    requires ValidRelease(rel)
  {
    if events == [] then Some(start)
    else
      var before := Replay(rel, start, events[..|events| - 1]);
      if before.None? then None else Step(rel, before.value, events[|events| - 1])
  }

  /** A run: it starts from any registry with no publisher running. */
  ghost predicate IsRun(rel: Release, start: World, events: seq<Event>)
    requires ValidRelease(rel)
  {
    start.client.Idle? && Replay(rel, start, events).Some?
  }

  lemma {:induction false} RunPrefix(rel: Release, start: World, events: seq<Event>, k: nat)
    requires ValidRelease(rel) && IsRun(rel, start, events) && k <= |events|
    ensures IsRun(rel, start, events[..k])
    decreases |events| - k
  {
    if k < |events| {
      RunPrefix(rel, start, events, k + 1);
      assert events[..k + 1][..k] == events[..k];
    } else {
      assert events[..k] == events;
    }
  }

  // ---------------------------------------------------------------- what every step keeps

  predicate Published(rel: Release, registry: Registry, a: nat)
    requires |rel.versions| == |rel.expected| == COHORT && a < COHORT
  {
    Shows(registry, rel.versions[a], rel.expected[a])
  }

  predicate PayloadsPublished(rel: Release, registry: Registry)
    requires |rel.versions| == |rel.expected| == COHORT
  {
    forall a :: 0 <= a < ROOT ==> Published(rel, registry, a)
  }

  ghost predicate Inv(rel: Release, w: World)
    requires ValidRelease(rel)
  {
    match w.client
    case Idle => true
    case Preflight(found) => |found| <= COHORT
    case Submitting(found, next) =>
      && |found| == COHORT && Compatible(rel, found) && next <= ROOT
      && (next == ROOT ==> PayloadsPublished(rel, w.registry))
    case Awaiting(found, next, pending) =>
      && |found| == COHORT && Compatible(rel, found) && (next == ROOT || next == COHORT)
      && (next == ROOT ==> forall a :: 0 <= a < ROOT && a !in pending ==> Published(rel, w.registry, a))
      && (next == COHORT ==> PayloadsPublished(rel, w.registry))
      && (next == COHORT && ROOT !in pending ==> Published(rel, w.registry, ROOT))
    case Done => PayloadsPublished(rel, w.registry) && Published(rel, w.registry, ROOT)
  }

  lemma {:induction false} StepKeepsInv(rel: Release, w: World, e: Event)
    requires ValidRelease(rel) && Inv(rel, w) && Step(rel, w, e).Some?
    ensures Inv(rel, Step(rel, w, e).value)
    ensures WriteOnce(w.registry, Step(rel, w, e).value.registry)
  {
    var after := Step(rel, w, e).value;
    assert WriteOnce(w.registry, after.registry);
    forall a | 0 <= a < COHORT && Published(rel, w.registry, a) ensures Published(rel, after.registry, a) {
    }
  }

  lemma {:induction false} RunKeepsInv(rel: Release, start: World, events: seq<Event>)
    requires ValidRelease(rel) && IsRun(rel, start, events)
    ensures Inv(rel, Replay(rel, start, events).value)
  {
    if events != [] {
      var n := |events| - 1;
      RunPrefix(rel, start, events, n);
      RunKeepsInv(rel, start, events[..n]);
      StepKeepsInv(rel, Replay(rel, start, events[..n]).value, events[n]);
    }
  }

  // ---------------------------------------------------------------- safety of whole runs

  /** In every run, whenever the root is submitted, all four payloads are public at that moment
      with exactly the expected integrity. */
  lemma {:induction false} RootAfterPayloads(rel: Release, start: World, events: seq<Event>, k: nat)
    requires ValidRelease(rel) && IsRun(rel, start, events)
    requires k < |events| && events[k].Submit? && events[k].alias == ROOT
    ensures Replay(rel, start, events[..k]).Some?
    ensures PayloadsPublished(rel, Replay(rel, start, events[..k]).value.registry)
  {
    RunPrefix(rel, start, events, k);
    RunPrefix(rel, start, events, k + 1);
    assert events[..k + 1][..k] == events[..k];
    RunKeepsInv(rel, start, events[..k]);
  }

  /** A finished session means all five versions are public with exactly the expected integrity. */
  lemma {:induction false} DoneMeansPublished(rel: Release, start: World, events: seq<Event>)
    requires ValidRelease(rel) && IsRun(rel, start, events) && Replay(rel, start, events).value.client.Done?
    ensures forall a :: 0 <= a < COHORT ==> Published(rel, Replay(rel, start, events).value.registry, a)
  {
    RunKeepsInv(rel, start, events);
  }

  /** The preflight answers of the current session, read off the events alone. */
  function Answers(events: seq<Event>): seq<Option<string>> {
    if events == [] then []
    else
      var before := Answers(events[..|events| - 1]);
      match events[|events| - 1]
      case Start => []
      case Look(_, answer) => if |before| < COHORT then before + [answer] else before
      case _ => before
  }

  /** The aliases submitted in the current session, read off the events alone. */
  function Submitted(events: seq<Event>): set<nat> {
    if events == [] then {}
    else
      var before := Submitted(events[..|events| - 1]);
      match events[|events| - 1]
      case Start => {}
      case Submit(a, _, _) => before + {a}
      case _ => before
  }

  /** What the publisher knows is what the events say: its answers are the session's preflight
      answers, and it has submitted exactly the handled aliases whose answer was missing. */
  ghost predicate KnowsSession(c: Client, events: seq<Event>) {
    match c
    case Idle => true
    case Preflight(found) => found == Answers(events) && Submitted(events) == {}
    case Submitting(found, next) => found == Answers(events) && SubmittedUpTo(found, next, Submitted(events))
    case Awaiting(found, next, _) => found == Answers(events) && SubmittedUpTo(found, next, Submitted(events))
    case Done => |Answers(events)| == COHORT && SubmittedUpTo(Answers(events), COHORT, Submitted(events))
  }

  ghost predicate SubmittedUpTo(found: seq<Option<string>>, next: nat, submitted: set<nat>) {
    forall a: nat :: a in submitted <==> a < next && a < |found| && found[a].None?
  }

  lemma {:induction false} SessionFacts(rel: Release, start: World, events: seq<Event>)
    requires ValidRelease(rel) && IsRun(rel, start, events)
    ensures KnowsSession(Replay(rel, start, events).value.client, events)
  {
    if events != [] {
      var n := |events| - 1;
      RunPrefix(rel, start, events, n);
      SessionFacts(rel, start, events[..n]);
      RunKeepsInv(rel, start, events[..n]);
      SessionStep(rel, Replay(rel, start, events[..n]).value, events);
    }
  }

  lemma {:induction false} SessionStep(rel: Release, before: World, events: seq<Event>)
    requires ValidRelease(rel) && Inv(rel, before) && events != []
    requires KnowsSession(before.client, events[..|events| - 1])
    requires Step(rel, before, events[|events| - 1]).Some?
    ensures KnowsSession(Step(rel, before, events[|events| - 1]).value.client, events)
  {
    hide Compatible, PayloadsPublished, Published, Shows, WriteOnce, MayHalt;
    var e := events[|events| - 1];
    if e.Look? {
      SessionLook(rel, before, events);
    } else if e.Submit? || e.Skip? {
      SessionHandles(rel, before, events);
    }
  }

  lemma {:induction false} SessionLook(rel: Release, before: World, events: seq<Event>)
    requires ValidRelease(rel) && Inv(rel, before) && events != [] && events[|events| - 1].Look?
    requires KnowsSession(before.client, events[..|events| - 1])
    requires Step(rel, before, events[|events| - 1]).Some?
    ensures KnowsSession(Step(rel, before, events[|events| - 1]).value.client, events)
  {
    hide Compatible, PayloadsPublished, Published, Shows, WriteOnce, MayHalt;
  }

  lemma {:induction false} SessionHandles(rel: Release, before: World, events: seq<Event>)
    requires ValidRelease(rel) && Inv(rel, before) && events != []
    requires events[|events| - 1].Submit? || events[|events| - 1].Skip?
    requires KnowsSession(before.client, events[..|events| - 1])
    requires Step(rel, before, events[|events| - 1]).Some?
    ensures KnowsSession(Step(rel, before, events[|events| - 1]).value.client, events)
  {
    hide Compatible, PayloadsPublished, Published, Shows, WriteOnce, MayHalt;
  }

  /** Every submission is of a version that its session's preflight did not find, and comes after
      a preflight whose five answers were all missing or exactly as expected; no session submits a
      version twice. */
  lemma {:induction false} SubmissionsFollowPreflight(rel: Release, start: World, events: seq<Event>, k: nat)
    requires ValidRelease(rel) && IsRun(rel, start, events)
    requires k < |events| && events[k].Submit?
    ensures var answers := Answers(events[..k]);
            |answers| == COHORT && !Foreign(rel, answers) && events[k].alias < COHORT && answers[events[k].alias].None?
    ensures events[k].alias !in Submitted(events[..k])
  {
    RunPrefix(rel, start, events, k);
    RunPrefix(rel, start, events, k + 1);
    assert events[..k + 1][..k] == events[..k];
    RunKeepsInv(rel, start, events[..k]);
    SessionFacts(rel, start, events[..k]);
    CompatibleMeaning(rel, Answers(events[..k]));
  }

  /** A preflight that saw a foreign integrity for any version submits nothing. */
  lemma {:induction false} MismatchSubmitsNothing(rel: Release, start: World, events: seq<Event>)
    requires ValidRelease(rel) && IsRun(rel, start, events)
    requires |Answers(events)| <= COHORT && Foreign(rel, Answers(events))
    ensures Submitted(events) == {}
  {
    if events != [] {
      var n := |events| - 1;
      RunPrefix(rel, start, events, n);
      if events[n].Submit? {
        assert events[..n + 1] == events;
        SubmissionsFollowPreflight(rel, start, events, n);
      } else if !events[n].Start? {
        if |Answers(events[..n])| <= COHORT && Foreign(rel, Answers(events[..n])) {
          MismatchSubmitsNothing(rel, start, events[..n]);
        } else {
          SessionFacts(rel, start, events[..n]);
          AnswersOnlyGrowInPreflight(rel, start, events);
        }
      }
    }
  }

  /** Answers are collected only before the first submission. */
  lemma {:induction false} AnswersOnlyGrowInPreflight(rel: Release, start: World, events: seq<Event>)
    requires ValidRelease(rel) && IsRun(rel, start, events) && events != []
    requires Answers(events) != Answers(events[..|events| - 1]) && !events[|events| - 1].Start?
    ensures Submitted(events) == {}
  {
    var n := |events| - 1;
    RunPrefix(rel, start, events, n);
    SessionFacts(rel, start, events[..n]);
    RunKeepsInv(rel, start, events[..n]);
  }

  // ---------------------------------------------------------------- recovery

  /** No lookup is stale: a missing answer means the version was not public. */
  ghost predicate Fresh(rel: Release, start: World, events: seq<Event>)
    requires ValidRelease(rel) && IsRun(rel, start, events)
  {
    forall k :: 0 <= k < |events| && events[k].Look? && events[k].answer.None? ==>
      NotPublic(rel, start, events, k, events[k].alias)
  }

  ghost predicate NotPublic(rel: Release, start: World, events: seq<Event>, k: nat, a: nat)
    requires ValidRelease(rel) && k <= |events|
  {
    a < COHORT && Replay(rel, start, events[..k]).Some? &&
    (var r := Replay(rel, start, events[..k]).value.registry;
     rel.versions[a] in r ==> !r[rel.versions[a]].Visible?)
  }

  /** Position of the last `Start`. */
  function LastStart(events: seq<Event>): nat {
    if events == [] then 0
    else if events[|events| - 1].Start? then |events| - 1
    else LastStart(events[..|events| - 1])
  }

  /** The version of alias `a` is public, and the running session has found it if it looked. */
  predicate KnownPublic(rel: Release, w: World, a: nat)
    requires a < |rel.versions|
  {
    && rel.versions[a] in w.registry && w.registry[rel.versions[a]].Visible?
    && (w.client.Preflight? || w.client.Submitting? || w.client.Awaiting? ==>
          (a < |w.client.found| ==> w.client.found[a].Some?))
  }

  lemma {:induction false} StaysKnownPublic(rel: Release, w: World, e: Event, a: nat)
    requires ValidRelease(rel) && a < COHORT && Inv(rel, w) && KnownPublic(rel, w, a)
    requires Step(rel, w, e).Some? && (e.Look? && e.alias == a ==> e.answer.Some?)
    ensures KnownPublic(rel, Step(rel, w, e).value, a)
  {
    hide Compatible, PayloadsPublished, Published, Shows;
    StepKeepsInv(rel, w, e);
  }

  lemma {:induction false} PublicIsFound(rel: Release, start: World, events: seq<Event>, a: nat)
    requires ValidRelease(rel) && IsRun(rel, start, events) && Fresh(rel, start, events) && a < COHORT
    requires LastStart(events) <= |events| && !NotPublic(rel, start, events, LastStart(events), a)
    ensures KnownPublic(rel, Replay(rel, start, events).value, a)
  {
    hide Step, Inv, KnownPublic;
    if events == [] {
      assert events[..0] == events;
      NotPublicNow(rel, start, events, a);
    } else {
      var n := |events| - 1;
      RunPrefix(rel, start, events, n);
      RunKeepsInv(rel, start, events[..n]);
      var w := Replay(rel, start, events[..n]).value;
      if events[n].Start? {
        assert events[..n][..n] == events[..n];
        assert LastStart(events) == n;
        NotPublicNow(rel, start, events[..n], a);
        StartKnowsNothing(rel, w, a);
      } else {
        LastStartBound(events[..n]);
        assert events[..n][..LastStart(events)] == events[..LastStart(events)];
        FreshPrefix(rel, start, events, n);
        PublicIsFound(rel, start, events[..n], a);
        if events[n].Look? && events[n].alias == a && events[n].answer.None? {
          assert NotPublic(rel, start, events, n, a);
          PublicNow(rel, w, a);
        }
        StaysKnownPublic(rel, w, events[n], a);
      }
    }
  }

  lemma {:induction false} NotPublicNow(rel: Release, start: World, events: seq<Event>, a: nat)
    requires ValidRelease(rel) && IsRun(rel, start, events) && a < COHORT
    requires !NotPublic(rel, start, events, |events|, a)
    ensures var r := Replay(rel, start, events).value.registry;
            rel.versions[a] in r && r[rel.versions[a]].Visible?
    ensures Replay(rel, start, events).value.client.Idle? ==> KnownPublic(rel, Replay(rel, start, events).value, a)
  {
    assert events[..|events|] == events;
  }

  lemma {:induction false} StartKnowsNothing(rel: Release, w: World, a: nat)
    requires ValidRelease(rel) && a < COHORT && Step(rel, w, Start).Some?
    requires rel.versions[a] in w.registry && w.registry[rel.versions[a]].Visible?
    ensures KnownPublic(rel, Step(rel, w, Start).value, a)
  {
  }

  lemma {:induction false} PublicNow(rel: Release, w: World, a: nat)
    requires a < |rel.versions| && KnownPublic(rel, w, a)
    ensures rel.versions[a] in w.registry && w.registry[rel.versions[a]].Visible?
  {
  }

  lemma {:induction false} LastStartBound(events: seq<Event>)
    ensures LastStart(events) <= |events|
  {
    if events != [] && !events[|events| - 1].Start? { LastStartBound(events[..|events| - 1]); }
  }

  lemma {:induction false} FreshPrefix(rel: Release, start: World, events: seq<Event>, n: nat)
    requires ValidRelease(rel) && IsRun(rel, start, events) && Fresh(rel, start, events) && n <= |events|
    ensures IsRun(rel, start, events[..n]) && Fresh(rel, start, events[..n])
  {
    RunPrefix(rel, start, events, n);
    forall k | 0 <= k < n && events[..n][k].Look? && events[..n][k].answer.None?
      ensures NotPublic(rel, start, events[..n], k, events[..n][k].alias)
    {
      assert events[..n][..k] == events[..k];
      assert NotPublic(rel, start, events, k, events[k].alias);
    }
  }

  /** Recovery: when lookups are not stale, a session never submits a version that was public when
      it started, so a rerun after a partial publication only fills the gaps. */
  lemma {:induction false} RecoveryFillsGaps(rel: Release, start: World, events: seq<Event>, k: nat)
    requires ValidRelease(rel) && IsRun(rel, start, events) && Fresh(rel, start, events)
    requires k < |events| && events[k].Submit?
    ensures LastStart(events[..k]) <= k && NotPublic(rel, start, events, LastStart(events[..k]), events[k].alias)
  {
    hide Step, Fresh, Answers, Submitted, LastStart, Inv, NotPublic;
    FreshPrefix(rel, start, events, k);
    LastStartBound(events[..k]);
    var s := LastStart(events[..k]);
    RunPrefix(rel, start, events, k + 1);
    assert events[..k + 1][..k] == events[..k];
    SubmitsMissing(rel, Replay(rel, start, events[..k]).value, events[k]);
    NotPublicBefore(rel, start, events, k, s, events[k].alias);
    if !NotPublic(rel, start, events, s, events[k].alias) {
      PublicIsFound(rel, start, events[..k], events[k].alias);
    }
  }

  lemma {:induction false} NotPublicBefore(rel: Release, start: World, events: seq<Event>, k: nat, s: nat, a: nat)
    requires ValidRelease(rel) && s <= k <= |events|
    ensures NotPublic(rel, start, events, s, a) <==> NotPublic(rel, start, events[..k], s, a)
  {
    hide Replay;
    assert events[..k][..s] == events[..s];
  }

  lemma {:induction false} SubmitsMissing(rel: Release, w: World, e: Event)
    requires ValidRelease(rel) && e.Submit? && Step(rel, w, e).Some?
    ensures w.client.Submitting? && e.alias < |w.client.found| && w.client.found[e.alias].None? && e.alias < COHORT
  {
  }

  // ---------------------------------------------------------------- what is submitted again

  /** Where the running session looked the alias up before its first submission. */
  function LookPosition(events: seq<Event>, a: nat): Option<nat> {
    if events == [] then None
    else
      var n := |events| - 1;
      match events[n]
      case Start => None
      case Look(_, _) => if |Answers(events[..n])| == a < COHORT then Some(n) else LookPosition(events[..n], a)
      case _ => LookPosition(events[..n], a)
  }

  /** Each answer the session goes by was given to a lookup of that alias. */
  lemma {:induction false} AnswerAt(rel: Release, start: World, events: seq<Event>, a: nat)
    requires ValidRelease(rel) && IsRun(rel, start, events) && a < |Answers(events)|
    ensures var p := LookPosition(events, a);
            p.Some? && p.value < |events| && events[p.value] == Look(a, Answers(events)[a])
  {
    var n := |events| - 1;
    RunPrefix(rel, start, events, n);
    if a < |Answers(events[..n])| {
      AnswerAt(rel, start, events[..n], a);
    }
    RunKeepsInv(rel, start, events[..n]);
    SessionFacts(rel, start, events[..n]);
  }

  /** A fresh answer is missing exactly when the version was not public at the lookup. */
  lemma {:induction false} MissingMeansNotPublic(rel: Release, start: World, events: seq<Event>, p: nat)
    requires ValidRelease(rel) && IsRun(rel, start, events) && Fresh(rel, start, events)
    requires p < |events| && events[p].Look?
    ensures events[p].alias < COHORT
    ensures events[p].answer.None? <==> NotPublic(rel, start, events, p, events[p].alias)
  {
    RunPrefix(rel, start, events, p + 1);
    assert events[..p + 1][..p] == events[..p];
  }

  /** The session has submitted the alias or skipped it. */
  predicate Handled(c: Client, a: nat) {
    match c
    case Submitting(_, next) => a < next
    case Awaiting(_, next, _) => a < next
    case Done => a < COHORT
    case _ => false
  }

  /** In every run with fresh lookups, a session that has handled an alias has submitted it if and
      only if its version was not public when the session looked it up. */
  lemma {:induction false} SubmittedIffNotPublic(rel: Release, start: World, events: seq<Event>, a: nat)
    requires ValidRelease(rel) && IsRun(rel, start, events) && Fresh(rel, start, events)
    requires Handled(Replay(rel, start, events).value.client, a)
    ensures var p := LookPosition(events, a);
            p.Some? && p.value < |events| && events[p.value].Look? && events[p.value].alias == a &&
            (a in Submitted(events) <==> NotPublic(rel, start, events, p.value, a))
  {
    hide NotPublic, Replay, Fresh, LookPosition, Answers, Submitted;
    RunKeepsInv(rel, start, events);
    SessionFacts(rel, start, events);
    AnswerAt(rel, start, events, a);
    MissingMeansNotPublic(rel, start, events, LookPosition(events, a).value);
  }

  /** So a version that the registry had accepted and did not show at that lookup is always
      submitted again. */
  lemma {:induction false} AcceptedIsSubmittedAgain(rel: Release, start: World, events: seq<Event>, a: nat)
    requires ValidRelease(rel) && IsRun(rel, start, events) && Fresh(rel, start, events)
    requires a < COHORT && Handled(Replay(rel, start, events).value.client, a)
    ensures var p := LookPosition(events, a);
            p.Some? && p.value < |events| && Replay(rel, start, events[..p.value]).Some? &&
            (var r := Replay(rel, start, events[..p.value]).value.registry;
             rel.versions[a] in r && r[rel.versions[a]].Accepted? ==> a in Submitted(events))
  {
    SubmittedIffNotPublic(rel, start, events, a);
    RunPrefix(rel, start, events, LookPosition(events, a).value);
  }

  /** A session that submits the first payload, which is accepted, and then crashes. */
  const CRASHED: seq<Event> := [Start, Look(0, None), Look(1, None), Look(2, None), Look(3, None), Look(4, None), Admit,
                                Submit(0, true, true), Stop(Crashed)]

  /** The smallest such run: a crash between acceptance and visibility. */
  lemma {:induction false} AcceptedVersionSubmittedTwice(rel: Release)
    requires ValidRelease(rel)
    ensures var start := World(map[], Idle);
            && IsRun(rel, start, CRASHED + CRASHED)
            && Replay(rel, start, CRASHED).Some?
            && rel.versions[0] in Replay(rel, start, CRASHED).value.registry
            && Replay(rel, start, CRASHED).value.registry[rel.versions[0]] == Accepted(rel.expected[0])
  {
    hide Replay;
    var start := World(map[], Idle);
    SessionReplays(rel, start);
    var between := Replay(rel, start, CRASHED).value;
    SessionReplays(rel, between);
    ReplayJoin(rel, start, CRASHED, CRASHED);
  }

  lemma {:induction false} SessionReplays(rel: Release, start: World)
    requires ValidRelease(rel) && start.client.Idle?
    ensures Replay(rel, start, CRASHED).Some? && Replay(rel, start, CRASHED).value.client.Idle?
    ensures var r := Replay(rel, start, CRASHED).value.registry;
            rel.versions[0] in r &&
            (rel.versions[0] !in start.registry ==> r[rel.versions[0]] == Accepted(rel.expected[0]))
  {
    hide Replay;
    var none: seq<Option<string>> := [];
    var w1 := start.(client := Preflight(none));
    var w2 := start.(client := Preflight(none + [None]));
    var w3 := start.(client := Preflight(none + [None] + [None]));
    var w4 := start.(client := Preflight(none + [None] + [None] + [None]));
    var w5 := start.(client := Preflight(none + [None] + [None] + [None] + [None]));
    var w6 := start.(client := Preflight(none + [None] + [None] + [None] + [None] + [None]));
    var w7 := start.(client := Submitting(w6.client.found, 0));
    var w8 := Step(rel, w7, Submit(0, true, true)).value;
    var e1 := [Start];
    var e2 := e1 + [Look(0, None)];
    var e3 := e2 + [Look(1, None)];
    var e4 := e3 + [Look(2, None)];
    var e5 := e4 + [Look(3, None)];
    var e6 := e5 + [Look(4, None)];
    var e7 := e6 + [Admit];
    var e8 := e7 + [Submit(0, true, true)];
    assert [] + [Start] == e1;
    ReplayNothing(rel, start);
    Extend(rel, start, [], Start, start, w1);
    Extend(rel, start, e1, Look(0, None), w1, w2);
    Extend(rel, start, e2, Look(1, None), w2, w3);
    Extend(rel, start, e3, Look(2, None), w3, w4);
    Extend(rel, start, e4, Look(3, None), w4, w5);
    Extend(rel, start, e5, Look(4, None), w5, w6);
    Extend(rel, start, e6, Admit, w6, w7);
    Extend(rel, start, e7, Submit(0, true, true), w7, w8);
    Extend(rel, start, e8, Stop(Crashed), w8, w8.(client := Idle));
    assert e8 + [Stop(Crashed)] == CRASHED;
  }

  lemma {:induction false} ReplayNothing(rel: Release, start: World)
    requires ValidRelease(rel)
    ensures Replay(rel, start, []) == Some(start)
  {
  }

  lemma {:induction false} Extend(rel: Release, start: World, events: seq<Event>, e: Event, before: World, after: World)
    requires ValidRelease(rel) && Replay(rel, start, events) == Some(before) && Step(rel, before, e) == Some(after)
    ensures Replay(rel, start, events + [e]) == Some(after)
  {
    assert (events + [e])[..|events|] == events;
  }

  lemma {:induction false} ReplayJoin(rel: Release, start: World, first: seq<Event>, second: seq<Event>)
    requires ValidRelease(rel) && Replay(rel, start, first).Some?
    ensures Replay(rel, start, first + second) == Replay(rel, Replay(rel, start, first).value, second)
  {
    if second == [] {
      assert first + second == first;
    } else {
      var n := |second| - 1;
      ReplayJoin(rel, start, first, second[..n]);
      assert (first + second)[..|first + second| - 1] == first + second[..n];
    }
  }

  // ---------------------------------------------------------------- the program

  /** How the world answers the calls of a run, fixed before it: whether the n-th step's lookup gets an
      answer and whether that answer is stale at its time; what others make of the registry before the
      n-th step and how long the step takes; whether signing succeeds; and for each alias whether its
      package keeps its bytes, and whether its submission is reported as accepted and lands.  `due` is
      a time and `lag` a duration that `Favourable` speaks of. */
  datatype Script = Script(reachable: nat -> bool, stale: (nat, nat) -> bool,
                           others: (nat, nat, Registry) -> Registry, elapse: nat -> nat, signs: bool,
                           keepsBytes: nat -> bool, accepts: nat -> bool, lands: nat -> bool,
                           due: nat, lag: nat)

  /** Nobody has put anything else under one of the versions. */
  ghost predicate Ours(rel: Release, r: Registry)
    requires ValidRelease(rel)
  {
    forall a :: 0 <= a < COHORT && rel.versions[a] in r ==> r[rel.versions[a]].integrity == rel.expected[a]
  }

  /** No version of the release is lost. */
  ghost predicate Keeps(rel: Release, r: Registry, next: Registry)
    requires ValidRelease(rel)
  {
    forall a :: 0 <= a < COHORT && rel.versions[a] in r ==> rel.versions[a] in next
  }

  /** Every version that was there is shown now. */
  ghost predicate Shown(rel: Release, r: Registry, next: Registry)
    requires ValidRelease(rel)
  {
    forall a :: 0 <= a < COHORT && rel.versions[a] in r ==> Published(rel, next, a)
  }

  /** What others do to the registry keeps it ours, loses no version, and from the time `due` on shows
      every version that is there. */
  ghost predicate Benign(rel: Release, script: Script)
    requires ValidRelease(rel)
  {
    forall t, n, r :: Ours(rel, r) ==> BenignMove(rel, script, r, script.others(t, n, r), t)
  }

  ghost predicate BenignMove(rel: Release, script: Script, r: Registry, next: Registry, t: nat)
    requires ValidRelease(rel)
  {
    WriteOnce(r, next) && Ours(rel, next) && Keeps(rel, r, next) && (t >= script.due ==> Shown(rel, r, next))
  }

  /** Nothing goes wrong: lookups are answered, and from the time `due` on not stale; signing succeeds,
      bytes stay, submissions are accepted and land; others are benign; no step takes longer than `lag`. */
  ghost predicate Favourable(rel: Release, script: Script)
    requires ValidRelease(rel)
  {
    && (forall n :: script.reachable(n)) && (forall t, n :: t >= script.due ==> !script.stale(t, n)) && script.signs
    && (forall a :: 0 <= a < COHORT ==> script.keepsBytes(a) && script.accepts(a) && script.lands(a))
    && (forall n :: script.elapse(n) <= script.lag) && Benign(rel, script)
  }

  /** What an early end goes back to in the script: the last step's lookup had no answer, signing
      failed, a package did not keep its bytes, or the submission was not accepted; or the registry
      showed foreign bytes, or time was up. */
  ghost predicate Backed(rel: Release, script: Script, events: seq<Event>, step: nat)
    requires |rel.expected| == COHORT
  {
    events != [] &&
    match events[|events| - 1]
    case Stop(Unreachable) => !script.reachable(step)
    case Stop(ForeignBytes) => |Answers(events)| == COHORT && Foreign(rel, Answers(events))
    case Stop(NotSigned) => !script.signs
    case Stop(ChangedBytes) => exists a :: 0 <= a < COHORT && !script.keepsBytes(a)
    case Stop(TimedOut) => true
    case Submit(a, _, ok) => a < COHORT && !ok && !script.accepts(a)
    case Look(a, answer) => a < COHORT && answer.Some? && answer.value != rel.expected[a]
    case _ => false
  }

  predicate EndsInTimeout(events: seq<Event>) {
    events != [] && events[|events| - 1] == Stop(TimedOut)
  }

  /** Versions the preflight found are public. */
  ghost predicate FoundPublic(rel: Release, r: Registry, found: seq<Option<string>>)
    requires ValidRelease(rel)
  {
    |found| <= COHORT &&
    forall a :: 0 <= a < |found| && found[a].Some? ==> rel.versions[a] in r && r[rel.versions[a]].Visible?
  }

  /** The registry has taken the versions of a range of aliases. */
  ghost predicate Held(rel: Release, r: Registry, first: nat, last: nat)
    requires ValidRelease(rel)
  {
    forall a :: first <= a < last && a < COHORT ==> rel.versions[a] in r
  }

  lemma {:induction false} FoundStays(rel: Release, r: Registry, next: Registry, found: seq<Option<string>>)
    requires ValidRelease(rel) && FoundPublic(rel, r, found) && WriteOnce(r, next)
    ensures FoundPublic(rel, next, found)
  {
  }

  lemma {:induction false} HeldStays(rel: Release, r: Registry, next: Registry, first: nat, last: nat)
    requires ValidRelease(rel) && Held(rel, r, first, last) && Keeps(rel, r, next)
    ensures Held(rel, next, first, last)
  {
  }

  lemma {:induction false} KeepsOn(rel: Release, r: Registry, next: Registry, last: Registry)
    requires ValidRelease(rel) && Keeps(rel, r, next) && Keeps(rel, next, last)
    ensures Keeps(rel, r, last)
  {
  }

  lemma {:induction false} WriteOnceOn(r: Registry, next: Registry, last: Registry)
    requires WriteOnce(r, next) && WriteOnce(next, last)
    ensures WriteOnce(r, last)
  {
  }

  /** A submission that lands puts the version there. */
  lemma {:induction false} LandsThere(rel: Release, r: Registry, a: nat)
    requires ValidRelease(rel) && a < COHORT
    ensures var next := if rel.versions[a] !in r then r[rel.versions[a] := Accepted(rel.expected[a])] else r;
            WriteOnce(r, next) && Keeps(rel, r, next) && rel.versions[a] in next && (Ours(rel, r) ==> Ours(rel, next))
  {
  }

  /** The publisher and the registry it talks to.  `trace` records every event since creation, `step`
      counts the calls into the world. */
  class Publisher {
    const rel: Release
    const script: Script
    ghost const start: World
    var registry: Registry
    var clock: nat
    var step: nat
    ghost var client: Client
    ghost var trace: seq<Event>

    ghost predicate Valid()
      reads this
    {
      ValidRelease(rel) && IsRun(rel, start, trace) && Replay(rel, start, trace).value == World(registry, client)
    }

    /** The world is favourable and the registry is ours so far. */
    ghost predicate Fair()
      requires ValidRelease(rel)
      reads this
    {
      Favourable(rel, script) && Ours(rel, registry)
    }

    constructor (rel: Release, script: Script, registry: Registry)
      requires ValidRelease(rel)
      ensures Valid() && this.rel == rel && this.script == script && this.registry == registry
      ensures trace == [] && client == Idle && clock == 0 && step == 0
    {
      this.rel, this.script, this.registry, clock, step := rel, script, registry, 0, 0;
      client, trace, start := Idle, [], World(registry, Idle);
    }

    ghost method Record(e: Event, before: World)
      requires ValidRelease(rel) && IsRun(rel, start, trace)
      requires Replay(rel, start, trace) == Some(before) && Step(rel, before, e) == Some(World(registry, client))
      modifies this`trace
      ensures Valid() && trace == old(trace) + [e]
    {
      Extend(rel, start, trace, e, before, World(registry, client));
      trace := trace + [e];
    }

    /** Others move: the registry may change in any way that keeps public versions, time passes. */
    method Interfere()
      requires Valid()
      modifies this`registry, this`clock, this`step, this`trace
      ensures Valid() && old(trace) <= trace && WriteOnce(old(registry), registry)
      ensures Answers(trace) == Answers(old(trace)) && Submitted(trace) == Submitted(old(trace))
      ensures step == old(step) + 1 && clock == old(clock) + script.elapse(step)
      ensures old(Fair()) ==> Fair() && clock <= old(clock) + script.lag && Keeps(rel, old(registry), registry)
      ensures old(Fair()) && clock >= script.due ==> Shown(rel, old(registry), registry)
    {
      hide Replay, Ours, Keeps, Shown, WriteOnce;
      step := step + 1;
      clock := clock + script.elapse(step);
      var next := script.others(clock, step, registry);
      ghost var before := World(registry, client);
      if WriteOnce(registry, next) {
        registry := next;
        Record(Environment(next), before);
        assert trace[..|trace| - 1] == old(trace);
      } else {
        NothingChanges(registry);
      }
    }

    /** A failed requirement or an exception: this session ends here. */
    ghost method Abort(why: Halt)
      requires Valid() && MayHalt(rel, client, why)
      modifies this`client, this`trace
      ensures Valid() && client == Idle && trace == old(trace) + [Stop(why)]
      ensures Answers(trace) == Answers(old(trace))
    {
      hide MayHalt;
      ghost var before := World(registry, client);
      client := Idle;
      Record(Stop(why), before);
      assert trace[..|trace| - 1] == old(trace);
    }

    /** `registry_integrity`: a read whose answer may be stale or may fail. */
    method RegistryIntegrity(a: nat) returns (failed: bool, answer: Option<string>)
      requires Valid() && a < COHORT
      requires (client.Preflight? && a == |client.found|) || (client.Awaiting? && a in client.pending)
      modifies this
      ensures Valid() && old(trace) <= trace && old(clock) <= clock && step == old(step) + 1
      ensures failed <==> !script.reachable(step)
      ensures failed ==> client == Idle && trace != [] && trace[|trace| - 1] == Stop(Unreachable)
      ensures client == Idle ==> Backed(rel, script, trace, step) && !EndsInTimeout(trace)
      ensures !failed && answer.Some? ==> rel.versions[a] in registry && registry[rel.versions[a]] == Visible(answer.value)
      ensures !failed && old(client).Preflight? ==> client == Preflight(old(client.found) + [answer])
      ensures !failed && old(client).Awaiting? && answer.None? ==> client == old(client)
      ensures !failed && old(client).Awaiting? && answer.Some? ==>
                client == (if answer.value == rel.expected[a]
                           then Awaiting(old(client.found), old(client.next), old(client.pending) - {a}) else Idle)
      ensures WriteOnce(old(registry), registry)
      ensures old(Fair()) ==>
                Fair() && clock <= old(clock) + script.lag && !failed && (answer.Some? ==> answer.value == rel.expected[a])
                && Keeps(rel, old(registry), registry)
      ensures old(Fair()) && rel.versions[a] in old(registry) && clock >= script.due ==> answer.Some?
    {
      hide Replay, Benign, WriteOnce, Keeps, Answers, Submitted, Compatible;
      Interfere();
      if !script.reachable(step) {
        Abort(Unreachable);
        return true, None;
      }
      var version := rel.versions[a];
      answer := if !script.stale(clock, step) && version in registry && registry[version].Visible?
                then Some(registry[version].integrity) else None;
      failed := false;
      ghost var before := World(registry, client);
      client := Step(rel, before, Look(a, answer)).value.client;
      Record(Look(a, answer), before);
    }

    /** `publish_package`: one submission, which may land or not and may report success or not. */
    method PublishPackage(a: nat) returns (ok: bool)
      requires Valid() && client.Submitting? && a == client.next < |client.found| == COHORT && client.found[a].None?
      modifies this
      ensures Valid() && old(trace) <= trace && old(clock) <= clock && WriteOnce(old(registry), registry)
      ensures ok == script.accepts(a)
      ensures client == if ok then AfterHandled(old(client.found), a + 1) else Idle
      ensures !ok ==> Backed(rel, script, trace, step) && !EndsInTimeout(trace)
      ensures old(Fair()) ==> Fair() && ok && Keeps(rel, old(registry), registry) && rel.versions[a] in registry
    {
      hide Replay, Benign, WriteOnce, Keeps, Ours;
      Interfere();
      ghost var between := registry;
      var lands := script.lands(a);
      ok := script.accepts(a);
      ghost var before := World(registry, client);
      LandsThere(rel, registry, a);
      if lands && rel.versions[a] !in registry {
        registry := registry[rel.versions[a] := Accepted(rel.expected[a])];
      } else {
        NothingChanges(registry);
      }
      WriteOnceOn(old(registry), between, registry);
      client := if ok then AfterHandled(client.found, a + 1) else Idle;
      Record(Submit(a, lands, ok), before);
      if old(Fair()) {
        KeepsOn(rel, old(registry), between, registry);
      }
    }

    /** One round of lookups over everything that is awaited. */
    method PollRound(ghost first: nat, ghost last: nat, cohort: set<nat>, awaited: set<nat>)
      returns (ok: bool, pending: set<nat>)
      requires Valid() && client.Awaiting? && client.pending == awaited <= cohort
      requires forall a :: a in cohort <==> first <= a < last
      requires first <= last <= first + ROOT && last <= COHORT
      modifies this
      ensures Valid() && old(trace) <= trace && old(clock) <= clock && WriteOnce(old(registry), registry)
      ensures ok ==> pending <= awaited && client == Awaiting(old(client.found), old(client.next), pending)
      ensures !ok ==> client == Idle && Backed(rel, script, trace, step) && !EndsInTimeout(trace)
      ensures old(Fair()) ==> Fair() && ok && Keeps(rel, old(registry), registry) && clock <= old(clock) + ROOT * script.lag
      ensures old(Fair()) && Held(rel, old(registry), first, last) && old(clock) >= script.due ==> pending == {}
    {
      hide Favourable, Replay, IsRun, Backed, WriteOnce, Keeps, Ours, Step, Held, Compatible;
      pending := awaited;
      var round := awaited;
      NothingChanges(registry);
      CohortSize(cohort, first, last);
      SmallerSet(awaited, cohort);
      RoomForRound(|awaited|, script.lag);
      while round != {}
        invariant Valid() && old(trace) <= trace && clock >= old(clock)
        invariant client == Awaiting(old(client.found), old(client.next), pending)
        invariant round <= pending <= awaited
        invariant WriteOnce(old(registry), registry)
        invariant old(Fair()) ==> Fair() && Keeps(rel, old(registry), registry)
        invariant old(Fair()) ==> clock + |round| * script.lag <= old(clock) + ROOT * script.lag
        invariant old(Fair()) && Held(rel, old(registry), first, last) && old(clock) >= script.due ==> pending <= round
        decreases round
      {
        ghost var here := registry;
        var alias :| alias in round;
        LagShrinks(round, alias, script.lag);
        round := round - {alias};
        if old(Fair()) && Held(rel, old(registry), first, last) {
          HeldStays(rel, old(registry), registry, first, last);
          HeldAt(rel, registry, first, last, alias);
        }
        var failed, integrity := RegistryIntegrity(alias);
        WriteOnceOn(old(registry), here, registry);
        if old(Fair()) { KeepsOn(rel, old(registry), here, registry); }
        if failed {
          return false, pending;
        }
        if !(integrity.None? || integrity.value == rel.expected[alias]) {
          return false, pending;
        }
        if integrity.Some? {
          pending := pending - {alias};
        }
      }
      ok := true;
    }

    /** `await_registry_integrities`: poll reads until every version of the cohort shows exactly
        the expected integrity; stop on any other integrity or when time is up. */
    method AwaitRegistryIntegrities(ghost first: nat, ghost last: nat, cohort: set<nat>, timeout: nat, interval: nat)
      returns (ok: bool)
      requires Valid() && client.Awaiting? && client.pending == cohort && interval > 0
      requires forall a :: a in cohort <==> first <= a < last
      requires first <= last <= first + ROOT && last <= COHORT
      modifies this
      ensures Valid() && old(trace) <= trace && old(clock) <= clock && WriteOnce(old(registry), registry)
      ensures ok ==> client == Awaiting(old(client.found), old(client.next), {})
      ensures !ok ==> client == Idle && Backed(rel, script, trace, step)
      ensures !ok && EndsInTimeout(trace) ==> clock >= old(clock) + timeout
      ensures old(Fair()) ==> Fair() && Keeps(rel, old(registry), registry)
      ensures old(Fair()) && Held(rel, old(registry), first, last) && script.due + ROOT * script.lag < old(clock) + timeout ==> ok
    {
      hide Favourable, Replay, IsRun, Backed, WriteOnce, Keeps, Ours, Step, Held, Compatible;
      var deadline := clock + timeout;
      var pending := cohort;
      NothingChanges(registry);
      while pending != {}
        invariant Valid() && old(trace) <= trace && old(clock) <= clock
        invariant client == Awaiting(old(client.found), old(client.next), pending)
        invariant pending <= cohort
        invariant WriteOnce(old(registry), registry)
        invariant old(Fair()) ==> Fair() && Keeps(rel, old(registry), registry)
        decreases pending != {}, deadline - clock
      {
        ghost var here := registry;
        if old(Fair()) && Held(rel, old(registry), first, last) {
          HeldStays(rel, old(registry), registry, first, last);
        }
        var polled;
        polled, pending := PollRound(first, last, cohort, pending);
        WriteOnceOn(old(registry), here, registry);
        if old(Fair()) { KeepsOn(rel, old(registry), here, registry); }
        if !polled {
          return false;
        }
        if pending != {} {
          if deadline <= clock {
            Abort(TimedOut);
            TimeoutIsBacked(rel, script, trace, step);
            return false;
          }
          var remaining := deadline - clock;
          clock := clock + (if interval < remaining then interval else remaining);
        }
      }
      ok := true;
    }

    /** The publisher's own bookkeeping steps. */
    ghost method Move(e: Event, next: Client)
      requires Valid() && (e.Start? || e.Admit? || e.Skip? || e.Advance?)
      requires Step(rel, World(registry, client), e) == Some(World(registry, next))
      modifies this`client, this`trace
      ensures Valid() && client == next && trace == old(trace) + [e]
    {
      ghost var before := World(registry, client);
      client := next;
      Record(e, before);
    }

    /** The five preflight lookups. */
    method LookUpAll() returns (failed: bool, existing: seq<Option<string>>)
      requires Valid() && client == Preflight([])
      modifies this
      ensures Valid() && old(trace) <= trace && old(clock) <= clock
      ensures if failed then client == Idle && Backed(rel, script, trace, step) && !EndsInTimeout(trace)
              else |existing| == COHORT && client == Preflight(existing) && FoundPublic(rel, registry, existing)
      ensures old(Fair()) ==> Fair() && !failed && Compatible(rel, existing)
    {
      hide Replay, IsRun, Favourable, Backed, WriteOnce, Step, Keeps, Ours;
      existing := [];
      while |existing| < COHORT
        invariant Valid() && old(trace) <= trace && old(clock) <= clock
        invariant client == Preflight(existing) && |existing| <= COHORT && FoundPublic(rel, registry, existing)
        invariant old(Fair()) ==> Fair() && Compatible(rel, existing)
        decreases COHORT - |existing|
      {
        ghost var here := registry;
        var integrity;
        failed, integrity := RegistryIntegrity(|existing|);
        if failed {
          return;
        }
        FoundStays(rel, here, registry, existing);
        existing := existing + [integrity];
      }
      failed := false;
    }

    /** One package of a cohort: its digest is checked again, and it is submitted if it was missing. */
    method SubmitOne(existing: seq<Option<string>>, alias: nat) returns (ok: bool)
      requires Valid() && client == Submitting(existing, alias) && |existing| == COHORT && alias < COHORT
      requires FoundPublic(rel, registry, existing)
      modifies this
      ensures Valid() && old(trace) <= trace && old(clock) <= clock && WriteOnce(old(registry), registry)
      ensures ok == (script.keepsBytes(alias) && (existing[alias].Some? || script.accepts(alias)))
      ensures FoundPublic(rel, registry, existing)
      ensures !ok ==> client == Idle && Backed(rel, script, trace, step) && !EndsInTimeout(trace)
      ensures ok ==> client == AfterHandled(existing, alias + 1)
      ensures old(Fair()) ==> Fair() && ok && Keeps(rel, old(registry), registry) && rel.versions[alias] in registry
    {
      hide Replay, IsRun, WriteOnce, Keeps, Ours, FoundPublic, Benign, Answers, Submitted, Compatible;
      NothingChanges(registry);
      if !script.keepsBytes(alias) {
        Abort(ChangedBytes);
        return false;
      }
      if existing[alias].None? {
        ok := PublishPackage(alias);
        FoundStays(rel, old(registry), registry, existing);
      } else {
        FoundIsThere(rel, registry, existing, alias);
        Move(Skip(alias), AfterHandled(existing, alias + 1));
        ok := true;
      }
    }

    /** The submissions of one cohort, `first` up to `last`. */
    method SubmitCohort(existing: seq<Option<string>>, first: nat, last: nat, receipts0: map<nat, bool>)
      returns (ok: bool, receipts: map<nat, bool>)
      requires Valid() && client == Submitting(existing, first) && |existing| == COHORT
      requires (first == 0 && last == ROOT) || (first == ROOT && last == COHORT)
      requires forall a: nat :: a in receipts0 <==> a < first
      requires FoundPublic(rel, registry, existing)
      modifies this
      ensures Valid() && old(trace) <= trace && old(clock) <= clock && WriteOnce(old(registry), registry)
      ensures !ok ==> client == Idle && Backed(rel, script, trace, step) && !EndsInTimeout(trace)
      ensures ok ==> client == AfterHandled(existing, last)
      ensures ok ==> forall a: nat :: a in receipts <==> a < last
      ensures ok ==> forall a :: a in receipts ==> receipts[a] == if a < first then receipts0[a] else existing[a].Some?
      ensures old(Fair()) ==> Fair() && ok && Keeps(rel, old(registry), registry) && Held(rel, registry, first, last)
    {
      hide Replay, IsRun, WriteOnce, Keeps, Ours, FoundPublic, Benign, Answers, Submitted, Compatible;
      receipts := receipts0;
      NothingChanges(registry);
      for alias := first to last
        invariant Valid() && old(trace) <= trace && old(clock) <= clock && WriteOnce(old(registry), registry)
        invariant client == if alias == last then AfterHandled(existing, last) else Submitting(existing, alias)
        invariant forall a: nat :: a in receipts <==> a < alias
        invariant forall a :: a in receipts ==> receipts[a] == if a < first then receipts0[a] else existing[a].Some?
        invariant FoundPublic(rel, registry, existing)
        invariant old(Fair()) ==> Fair() && Keeps(rel, old(registry), registry) && Held(rel, registry, first, alias)
      {
        ghost var here := registry;
        var handled := SubmitOne(existing, alias);
        WriteOnceOn(old(registry), here, registry);
        if old(Fair()) {
          KeepsOn(rel, old(registry), here, registry);
          HeldStays(rel, here, registry, first, alias);
        }
        if !handled {
          return false, receipts;
        }
        receipts := receipts[alias := existing[alias].Some?];
      }
      ok := true;
    }

    /** One cohort: submit what is missing, then wait until every version shows its integrity. */
    method RunCohort(existing: seq<Option<string>>, first: nat, last: nat, receipts0: map<nat, bool>, timeout: nat,
                     interval: nat)
      returns (ok: bool, receipts: map<nat, bool>)
      requires Valid() && client == Submitting(existing, first) && |existing| == COHORT && interval > 0
      requires (first == 0 && last == ROOT) || (first == ROOT && last == COHORT)
      requires forall a: nat :: a in receipts0 <==> a < first
      requires FoundPublic(rel, registry, existing)
      modifies this
      ensures Valid() && old(trace) <= trace && old(clock) <= clock && FoundPublic(rel, registry, existing)
      ensures !ok ==> client == Idle && Backed(rel, script, trace, step)
      ensures !ok && EndsInTimeout(trace) ==> clock >= old(clock) + timeout
      ensures ok ==> client == Awaiting(existing, last, {})
      ensures ok ==> forall a: nat :: a in receipts <==> a < last
      ensures ok ==> forall a :: a in receipts ==> receipts[a] == if a < first then receipts0[a] else existing[a].Some?
      ensures old(Fair()) ==> Fair()
      ensures old(Fair()) && script.due + ROOT * script.lag < old(clock) + timeout ==> ok
    {
      hide Replay, IsRun, WriteOnce, Keeps, Ours, FoundPublic, Favourable, Backed, Held, Step;
      ok, receipts := SubmitCohort(existing, first, last, receipts0);
      FoundStays(rel, old(registry), registry, existing);
      if ok {
        ghost var here := registry;
        ok := AwaitRegistryIntegrities(first, last, if last == ROOT then {0, 1, 2, 3} else {ROOT}, timeout, interval);
        FoundStays(rel, here, registry, existing);
      }
    }

    /** The last step: everything is public, and the events name exactly what was submitted. */
    ghost method Finish()
      requires Valid() && client.Awaiting? && client.next == COHORT && client.pending == {}
      modifies this`client, this`trace
      ensures Valid() && client == Done && old(trace) <= trace
      ensures forall a :: 0 <= a < COHORT ==> Published(rel, registry, a)
      ensures |old(client.found)| == COHORT && SubmittedUpTo(old(client.found), COHORT, Submitted(trace))
      ensures Answers(trace) == old(client.found)
    {
      SessionFacts(rel, start, trace);
      RunKeepsInv(rel, start, trace);
      ghost var earlier := trace;
      Move(Advance, Done);
      assert trace[..|trace| - 1] == earlier;
      DoneMeansPublished(rel, start, trace);
    }

    /** From the five lookups to the signatures: no registry mutation before every version that exists
        has the exact bytes and everything is signed. */
    method PreparePublication() returns (ok: bool, existing: seq<Option<string>>)
      requires Valid() && (client.Idle? || client.Done?)
      modifies this
      ensures Valid() && old(trace) <= trace && old(clock) <= clock
      ensures !ok ==> client == Idle && Backed(rel, script, trace, step) && !EndsInTimeout(trace)
      ensures ok ==> |existing| == COHORT && client == Submitting(existing, 0) && FoundPublic(rel, registry, existing)
      ensures old(Fair()) ==> Fair() && ok
    {
      hide Replay, IsRun, Submitted, Answers, FoundPublic, Ours, Benign;
      Move(Start, Preflight([]));
      var failed;
      failed, existing := LookUpAll();
      if failed {
        return false, existing;
      }
      if !Compatible(rel, existing) || !script.signs {
        SessionFacts(rel, start, trace);
        Abort(if Compatible(rel, existing) then NotSigned else ForeignBytes);
        return false, existing;
      }
      Move(Admit, Submitting(existing, 0));
      ok := true;
    }

    /** `publish` for schema 2, from the preflight on.  `receipts` tells for each alias whether it
        was already published. */
    method Publish(timeout: nat, interval: nat) returns (ok: bool, receipts: map<nat, bool>)
      requires Valid() && (client.Idle? || client.Done?) && interval > 0
      modifies this
      ensures Valid() && old(trace) <= trace
      ensures !ok ==> client == Idle && Backed(rel, script, trace, step)
      ensures !ok && EndsInTimeout(trace) ==> clock >= old(clock) + timeout
      ensures ok ==> client == Done && forall a :: 0 <= a < COHORT ==> Published(rel, registry, a)
      ensures ok ==> forall a: nat :: a in receipts <==> a < COHORT
      ensures ok ==> forall a :: a in receipts ==> (receipts[a] <==> a !in Submitted(trace))
      ensures ok ==> |Answers(trace)| == COHORT && forall a: nat :: a in Submitted(trace) <==> a < COHORT && Answers(trace)[a].None?
      ensures old(Fair()) && script.due + 4 * script.lag < old(clock) + timeout ==> ok
    {
      hide Replay, IsRun, Submitted, Published, Answers, FoundPublic, Ours, Favourable, Backed, Compatible;
      receipts := map[];
      var existing;
      ok, existing := PreparePublication();
      if !ok {
        return;
      }
      ok, receipts := RunCohort(existing, 0, ROOT, receipts, timeout, interval);
      if !ok {
        return;
      }
      Move(Advance, Submitting(existing, ROOT));
      ok, receipts := RunCohort(existing, ROOT, COHORT, receipts, timeout, interval);
      if !ok {
        return;
      }
      Finish();
    }
  }

  lemma {:induction false} RoomForRound(n: nat, lag: nat)
    requires n <= ROOT
    ensures n * lag <= ROOT * lag
  {
  }

  lemma {:induction false} HeldAt(rel: Release, r: Registry, first: nat, last: nat, a: nat)
    requires ValidRelease(rel) && Held(rel, r, first, last) && first <= a < last <= COHORT
    ensures rel.versions[a] in r
  {
  }

  lemma {:induction false} NothingChanges(r: Registry)
    ensures WriteOnce(r, r) && forall rel :: ValidRelease(rel) ==> Keeps(rel, r, r)
  {
  }

  lemma {:induction false} FoundIsThere(rel: Release, r: Registry, found: seq<Option<string>>, a: nat)
    requires ValidRelease(rel) && FoundPublic(rel, r, found) && a < |found| && found[a].Some?
    ensures a < COHORT && rel.versions[a] in r
  {
  }

  lemma {:induction false} TimeoutIsBacked(rel: Release, script: Script, events: seq<Event>, step: nat)
    requires |rel.expected| == COHORT && EndsInTimeout(events)
    ensures Backed(rel, script, events, step)
  {
  }

  lemma {:induction false} CohortSize(cohort: set<nat>, first: nat, last: nat)
    requires first <= last <= first + ROOT && forall a :: a in cohort <==> first <= a < last
    ensures |cohort| <= ROOT
    decreases last - first
  {
    if first < last {
      CohortSizeExact(cohort, first, last);
    } else {
      assert cohort == {};
    }
  }

  lemma {:induction false} CohortSizeExact(cohort: set<nat>, first: nat, last: nat)
    requires first <= last && forall a :: a in cohort <==> first <= a < last
    ensures |cohort| == last - first
    decreases last - first
  {
    if first == last {
      assert cohort == {};
    } else {
      CohortSizeExact(cohort - {first}, first + 1, last);
    }
  }

  lemma {:induction false} SmallerSet(part: set<nat>, whole: set<nat>)
    requires part <= whole
    ensures |part| <= |whole|
    decreases whole
  {
    if x :| x in part {
      SmallerSet(part - {x}, whole - {x});
    }
  }

  lemma {:induction false} LagShrinks(round: set<nat>, a: nat, lag: nat)
    requires a in round
    ensures |round - {a}| == |round| - 1 && |round - {a}| * lag + lag == |round| * lag
  {
  }
}
