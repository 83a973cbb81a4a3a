/** Resumable upload of a reviewed plan's artifacts to a draft release (stage_upload.py).

    The draft is remote state that anybody may change between two calls; an upload may succeed,
    fail or time out, in each case with or without the asset having landed. */
module DraftUpload {
  import opened Wrappers

  datatype Artifact = Artifact(name: string, size: nat, sha256: string, isEvidence: bool)

  datatype Asset = Asset(name: string, uploaded: bool, size: nat, digest: string)

  /** Plan artifacts carry distinct names: `load_plan` refuses anything else. */
  ghost predicate ValidPlan(plan: seq<Artifact>) {
    forall i, j :: 0 <= i < j < |plan| ==> plan[i].name != plan[j].name
  }

  /** The non-empty artifacts by name. */
  function Wanted(plan: seq<Artifact>): map<string, Artifact> {
    if plan == [] then map[]
    else
      var n := |plan| - 1;
      var earlier := Wanted(plan[..n]);
      if plan[n].size > 0 then earlier[plan[n].name := plan[n]] else earlier
  }

  lemma {:induction false} WantedIs(plan: seq<Artifact>, i: nat)
    requires ValidPlan(plan) && i < |plan|
    ensures plan[i].name in Wanted(plan) <==> plan[i].size > 0
    ensures plan[i].size > 0 ==> Wanted(plan)[plan[i].name] == plan[i]
  {
    var n := |plan| - 1;
    WantedNames(plan[..n]);
    if i < n { WantedIs(plan[..n], i); }
  }

  lemma {:induction false} WantedNames(plan: seq<Artifact>)
    ensures forall name :: name in Wanted(plan) ==>
              exists i :: 0 <= i < |plan| && plan[i] == Wanted(plan)[name] && plan[i].name == name && plan[i].size > 0
  {
    if plan != [] {
      var n := |plan| - 1;
      WantedNames(plan[..n]);
      forall name | name in Wanted(plan)
        ensures exists i :: 0 <= i < |plan| && plan[i] == Wanted(plan)[name] && plan[i].name == name && plan[i].size > 0
      {
        if plan[n].size > 0 && plan[n].name == name {
          assert plan[n] == Wanted(plan)[name];
        } else {
          assert name in Wanted(plan[..n]);
          var i :| 0 <= i < n && plan[..n][i] == Wanted(plan[..n])[name] && plan[..n][i].name == name && plan[..n][i].size > 0;
          assert plan[i] == Wanted(plan)[name];
        }
      }
    }
  }

  /** An asset is the completed upload of exactly the planned bytes. */
  predicate Matches(asset: Asset, wanted: map<string, Artifact>) {
    && asset.name in wanted && asset.uploaded
    && asset.size == wanted[asset.name].size && asset.digest == "sha256:" + wanted[asset.name].sha256
  }

  /** The whole listing is made of distinct matching assets. */
  ghost predicate ListingMatches(assets: seq<Asset>, wanted: map<string, Artifact>) {
    && (forall i :: 0 <= i < |assets| ==> Matches(assets[i], wanted))
    && (forall i, j :: 0 <= i < j < |assets| ==> assets[i].name != assets[j].name)
  }

  function Names(assets: seq<Asset>): set<string> {
    set i | 0 <= i < |assets| :: assets[i].name
  }

  // ---------------------------------------------------------------- events of one run

  datatype Outcome = Succeeded | Transient | Permanent | TimedOut

  /** Why a call stops outside an upload: a failed lookup, a listing that is refused, local bytes that
      are not the planned ones, or an empty artifact that may not be empty. */
  datatype Reason = LookupFailed | BadListing(listing: seq<Asset>) | LocalBytes | BadEmptyArtifact(item: Artifact)

  /** A verified snapshot with the names it observed, one upload attempt, or a stop. */
  datatype Event = Snapshot(observed: set<string>) | Upload(name: string, outcome: Outcome) | Stopped(reason: Reason)

  /** Upload attempts for a name. */
  function Attempts(run: seq<Event>, name: string): nat {
    if run == [] then 0
    else
      var n := |run| - 1;
      Attempts(run[..n], name) + (if run[n].Upload? && run[n].name == name then 1 else 0)
  }

  /** Every earlier attempt for the name ended in a transient error. */
  predicate OnlyTransient(run: seq<Event>, name: string) {
    forall k :: 0 <= k < |run| && run[k].Upload? && run[k].name == name ==> run[k].outcome.Transient?
  }

  /** The rule every upload obeys: directly before it a snapshot did not observe the name, there
      were at most two attempts, and none of them succeeded, failed for good or timed out. */
  predicate MayUpload(before: seq<Event>, name: string) {
    && before != [] && before[|before| - 1].Snapshot? && name !in before[|before| - 1].observed
    && Attempts(before, name) < 3
    && OnlyTransient(before, name)
  }

  ghost predicate Disciplined(run: seq<Event>) {
    forall k :: 0 <= k < |run| && run[k].Upload? ==> MayUpload(run[..k], run[k].name)
  }

  /** The call gave up after an upload that did not show: the outcome was not transient, or it was the
      third attempt. */
  predicate GaveUp(run: seq<Event>) {
    var n := |run| - 1;
    n >= 1 && run[n].Snapshot? && run[n - 1].Upload? && run[n - 1].name !in run[n].observed &&
    (!run[n - 1].outcome.Transient? || Attempts(run, run[n - 1].name) == 3)
  }

  predicate SeenIn(run: seq<Event>, name: string) {
    exists k :: 0 <= k < |run| && run[k].Snapshot? && name in run[k].observed
  }

  /** All reasons a call has for not succeeding: the last one is a draft that lost something between
      the snapshot that showed it and the final one. */
  ghost predicate Justified(run: seq<Event>, plan: seq<Artifact>, emptySha256: string) {
    run != [] &&
    match run[|run| - 1]
    case Stopped(BadListing(listing)) => !ListingMatches(listing, Wanted(plan))
    case Stopped(BadEmptyArtifact(item)) => item in plan && item.size == 0 && (!item.isEvidence || item.sha256 != emptySha256)
    case Stopped(_) => true
    case Snapshot(observed) =>
      GaveUp(run) ||
      (observed != Wanted(plan).Keys && forall i :: 0 <= i < |plan| && plan[i].size > 0 ==> SeenIn(run, plan[i].name))
    case Upload(_, _) => false
  }

  lemma {:induction false} Extended(run: seq<Event>, e: Event)
    requires Disciplined(run) && (e.Upload? ==> MayUpload(run, e.name))
    ensures Disciplined(run + [e])
    ensures forall name :: Attempts(run + [e], name) == Attempts(run, name) + (if e.Upload? && e.name == name then 1 else 0)
  {
    var after := run + [e];
    assert after[..|run|] == run;
    forall k | 0 <= k < |after| && after[k].Upload? ensures MayUpload(after[..k], after[k].name) {
      if k < |run| { assert after[..k] == run[..k]; }
    }
  }

  /** Consequences for a whole run: at most three attempts for each name, and nothing after a
      success, a permanent error or a timeout. */
  lemma {:induction false} AtMostThreeAttempts(run: seq<Event>, name: string)
    requires Disciplined(run)
    ensures Attempts(run, name) <= 3
  {
    if run != [] {
      var n := |run| - 1;
      DisciplinedPrefix(run, n);
      AtMostThreeAttempts(run[..n], name);
      if run[n].Upload? && run[n].name == name {
        assert MayUpload(run[..n], name);
      }
    }
  }

  lemma {:induction false} DisciplinedPrefix(run: seq<Event>, n: nat)
    requires Disciplined(run) && n <= |run|
    ensures Disciplined(run[..n])
  {
    forall k | 0 <= k < n && run[..n][k].Upload? ensures MayUpload(run[..n][..k], run[..n][k].name) {
      assert run[..n][..k] == run[..k];
    }
  }

  lemma {:induction false} NothingAfterAnEnd(run: seq<Event>, i: nat, k: nat)
    requires Disciplined(run) && i < k < |run|
    requires run[i].Upload? && !run[i].outcome.Transient? && run[k].Upload?
    ensures run[k].name != run[i].name
  {
    assert MayUpload(run[..k], run[k].name);
    assert run[..k][i] == run[i];
  }

  /** Resumption: what the first snapshot of a run verified is never uploaded in that run, as long
      as later snapshots still show it. */
  lemma {:induction false} VerifiedIsNotUploaded(run: seq<Event>, name: string, k: nat)
    requires Disciplined(run) && k < |run| && run[k].Upload?
    requires forall i :: 0 <= i < k && run[i].Snapshot? ==> name in run[i].observed
    ensures run[k].name != name
  {
    assert MayUpload(run[..k], run[k].name);
    assert run[..k][k - 1] == run[k - 1];
  }

  // ---------------------------------------------------------------- how the world answers

  /** The answers of the world to one call, fixed before it: whether the n-th step's lookups succeed
      and what others make of the listing before it; whether the local check passes; and for each name
      and attempt whether the local bytes are the planned ones, how the upload ends, and whether the
      asset lands. */
  datatype Script = Script(answers: nat -> bool, others: (nat, seq<Asset>) -> seq<Asset>, verified: bool,
                           keepsBytes: (string, nat) -> bool, outcome: (string, nat) -> Outcome,
                           lands: (string, nat) -> bool)

  /** An attempt lands, and all before it, from `attempt` on, are transient errors. */
  ghost predicate LandsFrom(script: Script, name: string, attempt: nat) {
    exists k :: attempt <= k < 3 && script.lands(name, k) &&
      forall j :: attempt <= j < k ==> script.outcome(name, j).Transient?
  }

  /** Others only add completed uploads of planned bytes. */
  ghost predicate Benign(script: Script, wanted: map<string, Artifact>) {
    forall n, listing :: ListingMatches(listing, wanted) ==>
      ListingMatches(script.others(n, listing), wanted) && Names(listing) <= Names(script.others(n, listing))
  }

  /** Nothing goes wrong but transient errors, of which at most two in a row hit one artifact. */
  ghost predicate Favourable(script: Script, plan: seq<Artifact>, emptySha256: string) {
    && (forall n :: script.answers(n)) && script.verified && Benign(script, Wanted(plan))
    && (forall name, attempt :: script.keepsBytes(name, attempt))
    && (forall i :: 0 <= i < |plan| ==>
          if plan[i].size > 0 then LandsFrom(script, plan[i].name, 0)
          else plan[i].isEvidence && plan[i].sha256 == emptySha256)
  }

  /** Every upload ended the way the script says for that attempt. */
  ghost predicate Scripted(run: seq<Event>, script: Script) {
    forall k :: 0 <= k < |run| && run[k].Upload? ==>
      run[k].outcome == script.outcome(run[k].name, Attempts(run[..k], run[k].name))
  }

  /** What a stop goes back to in the script: the last step's lookups failed, or local bytes were not
      the planned ones. */
  ghost predicate Backed(run: seq<Event>, script: Script, plan: seq<Artifact>, step: nat) {
    run != [] &&
    match run[|run| - 1]
    case Stopped(LookupFailed) => !script.answers(step)
    case Stopped(LocalBytes) => !script.verified || BytesChanged(script, plan)
    case _ => true
  }

  ghost predicate BytesChanged(script: Script, plan: seq<Artifact>) {
    exists item, attempt :: item in plan && attempt < 3 && !script.keepsBytes(item.name, attempt)
  }

  lemma {:induction false} LandsNext(script: Script, name: string, attempt: nat)
    requires LandsFrom(script, name, attempt) && !script.lands(name, attempt)
    ensures attempt < 2 && script.outcome(name, attempt).Transient? && LandsFrom(script, name, attempt + 1)
  {
    var k :| attempt <= k < 3 && script.lands(name, k) && forall j :: attempt <= j < k ==> script.outcome(name, j).Transient?;
    assert attempt + 1 <= k;
  }

  lemma {:induction false} BenignStep(script: Script, wanted: map<string, Artifact>, n: nat, listing: seq<Asset>)
    requires Benign(script, wanted) && ListingMatches(listing, wanted)
    ensures ListingMatches(script.others(n, listing), wanted) && Names(listing) <= Names(script.others(n, listing))
  {
    hide ListingMatches, Names;
  }

  /** An upload of planned bytes extends a matching listing. */
  lemma {:induction false} LandedMatches(listing: seq<Asset>, plan: seq<Artifact>, item: Artifact)
    requires ValidPlan(plan) && item in plan && item.size > 0
    requires ListingMatches(listing, Wanted(plan)) && item.name !in Names(listing)
    ensures ListingMatches(listing + [Asset(item.name, true, item.size, "sha256:" + item.sha256)], Wanted(plan))
  {
    hide ListingMatches, Wanted;
    var i :| 0 <= i < |plan| && plan[i] == item;
    WantedIs(plan, i);
    ListingExtends(listing, Asset(item.name, true, item.size, "sha256:" + item.sha256), Wanted(plan));
  }

  lemma {:induction false} ScriptedExtends(run: seq<Event>, script: Script, e: Event)
    requires Scripted(run, script)
    requires e.Upload? ==> e.outcome == script.outcome(e.name, Attempts(run, e.name))
    ensures Scripted(run + [e], script)
  {
    hide Attempts;
    var after := run + [e];
    assert after[..|run|] == run;
    forall k | 0 <= k < |run| ensures after[..k] == run[..k] {}
  }

  /** With every wanted name there and nothing else, the names are the wanted ones. */
  lemma {:induction false} AllThere(plan: seq<Artifact>, listing: seq<Asset>)
    requires ListingMatches(listing, Wanted(plan))
    requires forall i :: 0 <= i < |plan| && plan[i].size > 0 ==> plan[i].name in Names(listing)
    ensures Names(listing) == Wanted(plan).Keys
  {
    WantedNames(plan);
    forall name | name in Names(listing) ensures name in Wanted(plan) {
      var i :| 0 <= i < |listing| && listing[i].name == name;
      assert Matches(listing[i], Wanted(plan));
    }
  }

  // ---------------------------------------------------------------- the program

  /** The loop of `snapshot` over the listed assets: it succeeds exactly on a matching listing. */
  method VerifyListing(listing: seq<Asset>, wanted: map<string, Artifact>) returns (observed: Option<set<string>>)
    ensures observed.Some? <==> ListingMatches(listing, wanted)
    ensures observed.Some? ==> observed.value == Names(listing)
  {
    var seen: set<string> := {};
    for i := 0 to |listing|
      invariant seen == Names(listing[..i])
      invariant ListingMatches(listing[..i], wanted)
    {
      var asset := listing[i];
      assert listing[..i + 1] == listing[..i] + [asset];
      NamesAppend(listing[..i], asset);
      if asset.name !in wanted || asset.name in seen {
        if asset.name in seen {
          var j :| 0 <= j < i && listing[..i][j].name == asset.name;
          assert listing[j].name == listing[i].name;
        } else {
          assert !Matches(listing[i], wanted);
        }
        return None;
      }
      var item := wanted[asset.name];
      if !asset.uploaded || asset.size != item.size || asset.digest != "sha256:" + item.sha256 {
        assert !Matches(listing[i], wanted);
        return None;
      }
      ListingExtends(listing[..i], asset, wanted);
      seen := seen + {asset.name};
    }
    assert listing[..|listing|] == listing;
    observed := Some(seen);
  }

  lemma {:induction false} ListingExtends(listing: seq<Asset>, asset: Asset, wanted: map<string, Artifact>)
    requires ListingMatches(listing, wanted) && Matches(asset, wanted) && asset.name !in Names(listing)
    ensures ListingMatches(listing + [asset], wanted)
  {
    forall i | 0 <= i < |listing| ensures listing[i].name != asset.name {
      assert listing[i].name in Names(listing);
    }
  }

  /** The draft release as the uploader reaches it.  `run` holds the events of the current call, `step`
      counts the calls into the world. */
  class Draft {
    const plan: seq<Artifact>
    const emptySha256: string
    const script: Script
    var assets: seq<Asset>
    var step: nat
    ghost var run: seq<Event>

    constructor (plan: seq<Artifact>, emptySha256: string, script: Script, assets: seq<Asset>)
      ensures this.plan == plan && this.emptySha256 == emptySha256 && this.script == script
      ensures this.assets == assets && run == [] && step == 0
    {
      this.plan, this.emptySha256, this.script, this.assets, run, step := plan, emptySha256, script, assets, [], 0;
    }

    ghost predicate Valid()
      reads this
    {
      Disciplined(run) && Scripted(run, script)
    }

    /** The world is favourable and the draft holds nothing foreign so far. */
    ghost predicate Fair()
      reads this
    {
      Favourable(script, plan, emptySha256) && ListingMatches(assets, Wanted(plan))
    }

    /** Anybody may have changed the draft in the meantime, in any way. */
    method Interfere()
      modifies this`assets, this`step
      ensures step == old(step) + 1
      ensures old(Fair()) ==> Fair() && Names(old(assets)) <= Names(assets)
    {
      hide ListingMatches, Names, Wanted;
      step := step + 1;
      if Fair() { BenignStep(script, Wanted(plan), step, assets); }
      assets := script.others(step, assets);
    }

    /** `snapshot`: None when a lookup fails or the listing is not made of distinct, completed
        uploads of planned bytes. */
    method TakeSnapshot() returns (observed: Option<set<string>>)
      requires Valid()
      modifies this
      ensures Valid()
      ensures observed.Some? ==> ListingMatches(assets, Wanted(plan)) && observed.value == Names(assets)
      ensures observed.Some? ==> run == old(run) + [Snapshot(observed.value)]
      ensures observed.None? ==> (run == old(run) + [Stopped(LookupFailed)] && !script.answers(step)) ||
                                 (run == old(run) + [Stopped(BadListing(assets))] && !ListingMatches(assets, Wanted(plan)))
      ensures forall name :: Attempts(run, name) == Attempts(old(run), name)
      ensures old(Fair()) ==> Fair() && Names(old(assets)) <= Names(assets) && observed.Some?
    {
      hide ListingMatches, Wanted, Attempts, Disciplined, Scripted, Names, Benign, LandsFrom;
      Interfere();
      if !script.answers(step) {
        Stop(LookupFailed);
        return None;
      }
      observed := VerifyListing(assets, Wanted(plan));
      if observed.Some? {
        Extended(run, Snapshot(observed.value));
        ScriptedExtends(run, script, Snapshot(observed.value));
        run := run + [Snapshot(observed.value)];
      } else {
        Stop(BadListing(assets));
      }
    }

    ghost method Stop(reason: Reason)
      requires Valid()
      modifies this`run
      ensures Valid() && run == old(run) + [Stopped(reason)]
      ensures forall name :: Attempts(run, name) == Attempts(old(run), name)
    {
      hide Disciplined, Scripted, Attempts;
      Extended(run, Stopped(reason));
      ScriptedExtends(run, script, Stopped(reason));
      run := run + [Stopped(reason)];
    }

    /** One `gh release upload`: any outcome, with or without the asset landing; a name that is there
        by now is not taken again. */
    method UploadAsset(item: Artifact, attempt: nat) returns (outcome: Outcome)
      requires Valid() && MayUpload(run, item.name) && Attempts(run, item.name) == attempt
      requires ValidPlan(plan) && item in plan && item.size > 0
      modifies this
      ensures Valid() && run == old(run) + [Upload(item.name, outcome)] && outcome == script.outcome(item.name, attempt)
      ensures forall name :: Attempts(run, name) == Attempts(old(run), name) + (if name == item.name then 1 else 0)
      ensures old(Fair()) ==> Fair() && Names(old(assets)) <= Names(assets)
      ensures old(Fair()) && script.lands(item.name, attempt) ==> item.name in Names(assets)
    {
      hide ListingMatches, Wanted, Attempts, Disciplined, Scripted, Names, Favourable, MayUpload;
      Interfere();
      outcome := script.outcome(item.name, attempt);
      var taken := VerifyName(assets, item.name);
      if script.lands(item.name, attempt) && !taken {
        var asset := Asset(item.name, true, item.size, "sha256:" + item.sha256);
        if old(Fair()) { LandedMatches(assets, plan, item); }
        NamesAppend(assets, asset);
        assets := assets + [asset];
      }
      Extended(run, Upload(item.name, outcome));
      ScriptedExtends(run, script, Upload(item.name, outcome));
      run := run + [Upload(item.name, outcome)];
    }

    /** The attempts for one artifact that the latest snapshot did not observe. */
    method StageArtifact(item: Artifact) returns (observed: Option<set<string>>)
      requires Valid() && MayUpload(run, item.name) && Attempts(run, item.name) == 0
      requires ValidPlan(plan) && item in plan && item.size > 0
      modifies this
      ensures Valid() && old(run) <= run
      ensures forall name :: name != item.name ==> Attempts(run, name) == Attempts(old(run), name)
      ensures observed.Some? ==> run != [] && run[|run| - 1] == Snapshot(observed.value) && item.name in observed.value
      ensures observed.Some? ==> observed.value == Names(assets)
      ensures observed.None? ==> Justified(run, plan, emptySha256) && Backed(run, script, plan, step)
      ensures old(Fair()) ==> Fair() && Names(old(assets)) <= Names(assets) && observed.Some?
    {
      hide Disciplined, Scripted, MayUpload, ListingMatches, Wanted, Justified, GaveUp, Attempts, SeenIn, Names, Favourable,
           LandsFrom, BytesChanged;
      var attempt := 0;
      if Fair() { StartsLanding(script, plan, emptySha256, item); }
      while true
        invariant 0 <= attempt < 3
        invariant Valid() && MayUpload(run, item.name) && Attempts(run, item.name) == attempt
        invariant forall name :: name != item.name ==> Attempts(run, name) == Attempts(old(run), name)
        invariant old(run) <= run
        invariant old(Fair()) ==> Fair() && Names(old(assets)) <= Names(assets) && LandsFrom(script, item.name, attempt)
        decreases 3 - attempt
      {
        ghost var before := run;
        if !script.keepsBytes(item.name, attempt) {
          Stop(LocalBytes);
          StopIsJustified(before, LocalBytes, plan, emptySha256);
          ChangedIsBacked(script, plan, emptySha256, item, attempt);
          return None;
        }
        var outcome := UploadAsset(item, attempt);
        ghost var uploaded := run;
        observed := TakeSnapshot();
        if observed.None? {
          StopIsJustified(uploaded, run[|uploaded|].reason, plan, emptySha256);
          return;
        }
        UploadIsJustified(before, item.name, outcome, observed.value, plan, emptySha256);
        if old(Fair()) && !script.lands(item.name, attempt) { LandsNext(script, item.name, attempt); }
        if outcome.TimedOut? {
          if item.name !in observed.value {
            return None;
          }
          return;
        }
        if item.name in observed.value {
          return;
        }
        if outcome.Succeeded? || outcome.Permanent? {
          return None;
        }
        if !(attempt < 2) {
          return None;
        }
        TransientMayRepeat(before, item.name, observed.value);
        attempt := attempt + 1;
      }
    }

    /** `stage`: success means the complete inventory, every other end has one of the reasons, and in a
        favourable world it succeeds. */
    method Stage() returns (ok: bool)
      requires ValidPlan(plan)
      modifies this
      ensures Valid()
      ensures ok ==> ListingMatches(assets, Wanted(plan)) && Names(assets) == Wanted(plan).Keys
      ensures !ok ==> Justified(run, plan, emptySha256) && Backed(run, script, plan, step)
      ensures old(Fair()) ==> ok
    {
      hide MayUpload, ListingMatches, Wanted, GaveUp, Justified, Disciplined, Scripted, Attempts, SeenIn, SeenUpTo, UntriedFrom,
           Names, Favourable, BytesChanged;
      run := [];
      NothingTried(plan);
      NothingScripted(script);
      if !script.verified {
        Stop(LocalBytes);
        StopIsJustified([], LocalBytes, plan, emptySha256);
        if old(Fair()) { FairIsVerified(script, plan, emptySha256); }
        return false;
      }
      var latest := TakeSnapshot();
      if latest.None? {
        StopIsJustified([], run[0].reason, plan, emptySha256);
        return false;
      }
      var observed := latest.value;
      UntriedStays([], run, plan, 0);
      NothingSeen(run, plan);
      for i := 0 to |plan|
        invariant Valid()
        invariant run != [] && run[|run| - 1] == Snapshot(observed) && observed == Names(assets)
        invariant UntriedFrom(run, plan, i) && SeenUpTo(run, plan, i)
        invariant old(Fair()) ==> Fair() && forall j :: 0 <= j < i && plan[j].size > 0 ==> plan[j].name in Names(assets)
      {
        var item := plan[i];
        ghost var before := run;
        UntriedNext(run, plan, i);
        if item.size == 0 {
          if !item.isEvidence || item.sha256 != emptySha256 {
            Stop(BadEmptyArtifact(item));
            BadEmptyIsJustified(before, item, plan, emptySha256);
            if old(Fair()) { FairEmpties(script, plan, emptySha256, i); }
            return false;
          }
          if !script.keepsBytes(item.name, 0) {
            Stop(LocalBytes);
            StopIsJustified(before, LocalBytes, plan, emptySha256);
            ChangedIsBacked(script, plan, emptySha256, item, 0);
            return false;
          }
          SeenNext(before, run, observed, plan, i);
          continue;
        }
        if item.name in observed {
          SeenNext(before, run, observed, plan, i);
          continue;
        }
        UnseenMayUpload(run, item.name);
        latest := StageArtifact(item);
        if latest.None? {
          return false;
        }
        observed := latest.value;
        OthersUntried(before, run, plan, i);
        SeenNext(before, run, observed, plan, i);
      }
      ghost var before := run;
      latest := TakeSnapshot();
      if latest.None? {
        StopIsJustified(before, run[|before|].reason, plan, emptySha256);
        return false;
      }
      ok := latest.value == Wanted(plan).Keys;
      if old(Fair()) { AllThere(plan, assets); }
      if !ok {
        LossIsJustified(before, latest.value, plan, emptySha256);
      }
    }
  }

  /** Whether an asset of the name is listed. */
  method VerifyName(listing: seq<Asset>, name: string) returns (there: bool)
    ensures there <==> name in Names(listing)
  {
    there := exists i :: 0 <= i < |listing| && listing[i].name == name;
  }

  lemma {:induction false} StartsLanding(script: Script, plan: seq<Artifact>, emptySha256: string, item: Artifact)
    requires Favourable(script, plan, emptySha256) && item in plan && item.size > 0
    ensures LandsFrom(script, item.name, 0)
  {
    hide LandsFrom, Benign;
  }

  lemma {:induction false} FairIsVerified(script: Script, plan: seq<Artifact>, emptySha256: string)
    requires Favourable(script, plan, emptySha256)
    ensures script.verified
  {
  }

  lemma {:induction false} FairEmpties(script: Script, plan: seq<Artifact>, emptySha256: string, i: nat)
    requires Favourable(script, plan, emptySha256) && i < |plan| && plan[i].size == 0
    ensures plan[i].isEvidence && plan[i].sha256 == emptySha256
  {
  }

  /** Changed local bytes are what the script says, so the world is not favourable. */
  lemma {:induction false} ChangedIsBacked(script: Script, plan: seq<Artifact>, emptySha256: string, item: Artifact, attempt: nat)
    requires item in plan && attempt < 3 && !script.keepsBytes(item.name, attempt)
    ensures BytesChanged(script, plan) && !Favourable(script, plan, emptySha256)
  {
  }

  lemma {:induction false} NothingScripted(script: Script)
    ensures Scripted([], script)
  {
  }

  lemma {:induction false} StopIsJustified(run: seq<Event>, reason: Reason, plan: seq<Artifact>, emptySha256: string)
    requires reason.LookupFailed? || reason.LocalBytes? || (reason.BadListing? && !ListingMatches(reason.listing, Wanted(plan)))
    ensures Justified(run + [Stopped(reason)], plan, emptySha256)
  {
    hide ListingMatches, Wanted;
  }

  lemma {:induction false} UploadIsJustified(before: seq<Event>, name: string, outcome: Outcome, observed: set<string>,
                                             plan: seq<Artifact>, emptySha256: string)
    ensures name !in observed && (!outcome.Transient? || Attempts(before, name) == 2) ==>
              Justified(before + [Upload(name, outcome)] + [Snapshot(observed)], plan, emptySha256)
  {
    hide Wanted;
    var uploaded := before + [Upload(name, outcome)];
    var after := uploaded + [Snapshot(observed)];
    assert uploaded[..|before|] == before && after[..|uploaded|] == uploaded;
    assert after[|before|] == Upload(name, outcome) && after[|before| + 1] == Snapshot(observed);
    assert Attempts(after, name) == Attempts(before, name) + 1;
  }

  lemma {:induction false} BadEmptyIsJustified(run: seq<Event>, item: Artifact, plan: seq<Artifact>, emptySha256: string)
    requires item in plan && item.size == 0 && (!item.isEvidence || item.sha256 != emptySha256)
    ensures Justified(run + [Stopped(BadEmptyArtifact(item))], plan, emptySha256)
  {
    hide ListingMatches, Wanted;
  }

  /** A final snapshot that misses something all earlier ones together have shown. */
  lemma {:induction false} LossIsJustified(run: seq<Event>, observed: set<string>, plan: seq<Artifact>, emptySha256: string)
    requires SeenUpTo(run, plan, |plan|) && observed != Wanted(plan).Keys
    ensures Justified(run + [Snapshot(observed)], plan, emptySha256)
  {
    hide ListingMatches, Wanted, GaveUp, SeenIn;
    var after := run + [Snapshot(observed)];
    forall i | 0 <= i < |plan| && plan[i].size > 0 ensures SeenIn(after, plan[i].name) { StillSeen(run, after, plan[i].name); }
  }

  /** The first `n` non-empty artifacts have each been in a snapshot. */
  ghost predicate SeenUpTo(run: seq<Event>, plan: seq<Artifact>, n: nat)
    requires n <= |plan|
  {
    forall j :: 0 <= j < n && plan[j].size > 0 ==> SeenIn(run, plan[j].name)
  }

  /** None of the artifacts from the `n`th on has been uploaded. */
  ghost predicate UntriedFrom(run: seq<Event>, plan: seq<Artifact>, n: nat)
    requires n <= |plan|
  {
    forall j :: n <= j < |plan| ==> Attempts(run, plan[j].name) == 0
  }

  lemma {:induction false} NothingTried(plan: seq<Artifact>)
    ensures UntriedFrom([], plan, 0) && Disciplined([])
  {
  }

  lemma {:induction false} NothingSeen(run: seq<Event>, plan: seq<Artifact>)
    ensures SeenUpTo(run, plan, 0)
  {
  }

  lemma {:induction false} UntriedStays(before: seq<Event>, run: seq<Event>, plan: seq<Artifact>, n: nat)
    requires n <= |plan| && UntriedFrom(before, plan, n)
    requires forall name :: Attempts(run, name) == Attempts(before, name)
    ensures UntriedFrom(run, plan, n)
  {
    hide Attempts;
  }

  lemma {:induction false} UntriedNext(run: seq<Event>, plan: seq<Artifact>, n: nat)
    requires n < |plan| && UntriedFrom(run, plan, n)
    ensures UntriedFrom(run, plan, n + 1) && Attempts(run, plan[n].name) == 0
  {
    hide Attempts;
  }

  lemma {:induction false} OthersUntried(before: seq<Event>, run: seq<Event>, plan: seq<Artifact>, n: nat)
    requires ValidPlan(plan) && n < |plan| && UntriedFrom(before, plan, n)
    requires forall name :: name != plan[n].name ==> Attempts(run, name) == Attempts(before, name)
    ensures UntriedFrom(run, plan, n + 1)
  {
    hide Attempts;
  }

  lemma {:induction false} SeenNext(before: seq<Event>, run: seq<Event>, observed: set<string>, plan: seq<Artifact>, n: nat)
    requires n < |plan| && before <= run && SeenUpTo(before, plan, n)
    requires run != [] && run[|run| - 1] == Snapshot(observed) && (plan[n].size > 0 ==> plan[n].name in observed)
    ensures SeenUpTo(run, plan, n + 1)
  {
    hide SeenIn;
    forall j | 0 <= j < n && plan[j].size > 0 ensures SeenIn(run, plan[j].name) { StillSeen(before, run, plan[j].name); }
    if plan[n].size > 0 { LastIsSeen(run, observed, plan[n].name); }
  }

  lemma {:induction false} LastIsSeen(run: seq<Event>, observed: set<string>, name: string)
    requires run != [] && run[|run| - 1] == Snapshot(observed) && name in observed
    ensures SeenIn(run, name)
  {
    assert run[|run| - 1].Snapshot?;
  }

  lemma {:induction false} StillSeen(before: seq<Event>, run: seq<Event>, name: string)
    requires before <= run && SeenIn(before, name)
    ensures SeenIn(run, name)
  {
    var k :| 0 <= k < |before| && before[k].Snapshot? && name in before[k].observed;
    assert run[k] == before[k];
  }

  lemma {:induction false} UnseenMayUpload(run: seq<Event>, name: string)
    requires run != [] && run[|run| - 1].Snapshot? && name !in run[|run| - 1].observed && Attempts(run, name) == 0
    ensures MayUpload(run, name)
  {
    NoAttemptsIsTransient(run, name);
  }

  /** After a transient error that did not land, another attempt obeys the rule while there were fewer
      than three. */
  lemma {:induction false} TransientMayRepeat(before: seq<Event>, name: string, observed: set<string>)
    requires MayUpload(before, name) && name !in observed && Attempts(before, name) < 2
    ensures MayUpload(before + [Upload(name, Transient)] + [Snapshot(observed)], name)
  {
    var uploaded := before + [Upload(name, Transient)];
    var after := uploaded + [Snapshot(observed)];
    assert uploaded[..|before|] == before && after[..|uploaded|] == uploaded;
    forall k | 0 <= k < |after| && after[k].Upload? && after[k].name == name ensures after[k].outcome.Transient? {
      if k < |before| { assert after[k] == before[k]; }
    }
  }

  lemma {:induction false} NamesAppend(assets: seq<Asset>, asset: Asset)
    ensures Names(assets + [asset]) == Names(assets) + {asset.name}
  {
    var all := assets + [asset];
    assert all[|assets|] == asset;
    forall name | name in Names(assets) + {asset.name} ensures name in Names(all) {
      if name != asset.name {
        var i :| 0 <= i < |assets| && assets[i].name == name;
        assert all[i].name == name;
      }
    }
  }

  lemma {:induction false} NoAttemptsIsTransient(run: seq<Event>, name: string)
    requires Attempts(run, name) == 0
    ensures OnlyTransient(run, name)
  {
    if run != [] { NoAttemptsIsTransient(run[..|run| - 1], name); }
  }

  /** What normal return says about the draft: every non-empty artifact is there exactly once,
      completely uploaded with its size and digest, and nothing else is. */
  lemma {:induction false} CompleteInventory(plan: seq<Artifact>, assets: seq<Asset>)
    requires ValidPlan(plan) && ListingMatches(assets, Wanted(plan)) && Names(assets) == Wanted(plan).Keys
    ensures forall i :: 0 <= i < |plan| && plan[i].size > 0 ==>
              exists k :: 0 <= k < |assets| && assets[k] == Asset(plan[i].name, true, plan[i].size, "sha256:" + plan[i].sha256)
    ensures forall k :: 0 <= k < |assets| ==>
              exists i :: 0 <= i < |plan| && plan[i].size > 0 &&
                assets[k] == Asset(plan[i].name, true, plan[i].size, "sha256:" + plan[i].sha256)
    ensures |assets| == |Wanted(plan)|
  {
    forall i | 0 <= i < |plan| && plan[i].size > 0
      ensures exists k :: 0 <= k < |assets| && assets[k] == Asset(plan[i].name, true, plan[i].size, "sha256:" + plan[i].sha256)
    {
      WantedIs(plan, i);
      assert plan[i].name in Names(assets);
      var k :| 0 <= k < |assets| && assets[k].name == plan[i].name;
      assert Matches(assets[k], Wanted(plan));
    }
    WantedNames(plan);
    forall k | 0 <= k < |assets|
      ensures exists i :: 0 <= i < |plan| && plan[i].size > 0 &&
                assets[k] == Asset(plan[i].name, true, plan[i].size, "sha256:" + plan[i].sha256)
    {
      assert Matches(assets[k], Wanted(plan));
      var i :| 0 <= i < |plan| && plan[i] == Wanted(plan)[assets[k].name] && plan[i].name == assets[k].name && plan[i].size > 0;
      assert assets[k] == Asset(plan[i].name, true, plan[i].size, "sha256:" + plan[i].sha256);
    }
    DistinctNames(assets);
  }

  lemma {:induction false} DistinctNames(assets: seq<Asset>)
    requires forall i, j :: 0 <= i < j < |assets| ==> assets[i].name != assets[j].name
    ensures |Names(assets)| == |assets|
  {
    if assets != [] {
      var n := |assets| - 1;
      DistinctNames(assets[..n]);
      NamesAppend(assets[..n], assets[n]);
      assert assets == assets[..n] + [assets[n]];
    }
  }
}
