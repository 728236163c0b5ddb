/** Any number of reviews on one store, one after the other, that starts empty: what the
    files remember, and when a review is stopped. */
module ManyReviews {
  import opened Wrappers
  import opened Findings
  import opened History
  import opened Oracle
  import opened FrontMatter
  import opened Assembly
  import opened Replay
  import opened Pipeline
  import opened Guarantees
  import LostUpdates

  /** One review: its inputs, what it came to, and the state files before and after. */
  datatype Event = Event(
    request: Request,
    world: World,
    tape: nat -> Reply,
    outcome: Outcome,
    calls: nat,
    before: map<string, string>,
    after: map<string, string>)

  ghost predicate IsReview(deps: Deps, codec: Codec, e: Event) {
    ReviewStep(deps, codec, e.request, e.world, e.tape, e.before, e.after, e.outcome, e.calls)
  }

  function FilesAfter(events: seq<Event>): map<string, string> {
    if events == [] then map[] else events[|events| - 1].after
  }

  /** Reviews that follow each other on a store that starts empty. Some may fail. */
  ghost predicate IsTrace(deps: Deps, codec: Codec, events: seq<Event>) {
    forall i | 0 <= i < |events| ::
      IsReview(deps, codec, events[i]) && events[i].before == FilesAfter(events[..i])
  }

  /** The findings of the reviews of one artifact that were saved, in order. */
  function RunsOf(events: seq<Event>, artifactId: string): seq<seq<Finding>> {
    if events == [] then []
    else
      var e := events[|events| - 1];
      RunsOf(events[..|events| - 1], artifactId)
      + (if e.request.artifactId == artifactId && !e.outcome.Failed? then [e.outcome.publication.findings] else [])
  }

  /** Every state that was saved can be dumped and parsed back. */
  ghost predicate FaithfullySaved(codec: Codec, events: seq<Event>) {
    forall i | 0 <= i < |events| && !events[i].outcome.Failed? ::
      Faithful(codec, events[i].outcome.publication.newState)
  }

  /** What the saved reviews of one artifact add up to: a fresh state, and for each of them
      one cycle and its own record: its cycle, its time, the mode and class it published, the
      hash of the text it reviewed, and its findings. */
  function SavedState(events: seq<Event>, artifactId: string): (state: ReviewState)
    ensures state.artifactId == artifactId
  {
    if events == [] then ReviewState(artifactId, 0, [])
    else
      var e := events[|events| - 1];
      var before := SavedState(events[..|events| - 1], artifactId);
      if e.request.artifactId == artifactId && !e.outcome.Failed? then
        before.(cycle := before.cycle + 1,
                history := before.history + [RecordOf(e.request, e.world, e.outcome.publication)])
      else before
  }

  /** The record of one saved review. */
  function RecordOf(request: Request, world: World, pub: Publication): CycleRecord {
    CycleRecord(pub.cycle, world.now, pub.mode, pub.artifactClass, world.sha(request.text),
                seq(|pub.findings|, i requires 0 <= i < |pub.findings| =>
                  HistoricalFinding(pub.findings[i].key, pub.findings[i].severity, Open, pub.findings[i].summary)))
  }

  lemma RecordIs(request: Request, world: World, pub: Publication)
    ensures NewRecord(request, world, pub) == RecordOf(request, world, pub)
  {
  }

  /** The files hold, for every artifact, the state its saved reviews add up to. */
  ghost predicate Remembers(codec: Codec, files: map<string, string>, events: seq<Event>) {
    forall id :: RemembersOf(codec, files, events, id)
  }

  ghost predicate RemembersOf(codec: Codec, files: map<string, string>, events: seq<Event>, id: string) {
    var stored := StoredIn(codec, files, id);
    && stored == Ok(SavedState(events, id))
    && IsStateAfter(stored.value, RunsOf(events, id)) && ValidRuns(RunsOf(events, id))
  }

  lemma OneMoreIsValid(runs: seq<seq<Finding>>, findings: seq<Finding>)
    requires ValidRuns(runs) && ValidKeys(findings)
    ensures ValidRuns(runs + [findings])
  {
    hide ValidKeys;
  }

  lemma OtherFilesStay(codec: Codec, before: map<string, string>, id: string, text: string, other: string)
    requires other != id
    ensures StoredIn(codec, before[id := text], other) == StoredIn(codec, before, other)
  {
    hide Decode;
  }

  lemma RunsStep(events: seq<Event>, e: Event, id: string)
    ensures RunsOf(events + [e], id)
         == RunsOf(events, id)
            + (if e.request.artifactId == id && !e.outcome.Failed? then [e.outcome.publication.findings] else [])
    ensures var before := SavedState(events, id);
      SavedState(events + [e], id)
      == if e.request.artifactId == id && !e.outcome.Failed? then
           before.(cycle := before.cycle + 1,
                   history := before.history + [RecordOf(e.request, e.world, e.outcome.publication)])
         else before
  {
    assert (events + [e])[..|events|] == events;
  }

  /** One review takes the files from what was saved to what is saved now. */
  lemma ReviewKeepsMemory(deps: Deps, codec: Codec, events: seq<Event>, e: Event)
    requires deps.oracle.Valid() && IsReview(deps, codec, e) && Remembers(codec, e.before, events)
    requires !e.outcome.Failed? ==> Faithful(codec, e.outcome.publication.newState)
    ensures Remembers(codec, e.after, events + [e])
  {
    forall id ensures RemembersOf(codec, e.after, events + [e], id) {
      RunsStep(events, e, id);
      assert RemembersOf(codec, e.before, events, id);
      if e.outcome.Failed? {
        FailedReviewKeepsMemory(deps, codec, e);
        assert RunsOf(events, id) + [] == RunsOf(events, id);
      } else {
        SavedReviewKeepsMemory(deps, codec, events, e, id);
      }
    }
  }

  lemma FailedReviewKeepsMemory(deps: Deps, codec: Codec, e: Event)
    requires IsReview(deps, codec, e) && e.outcome.Failed?
    ensures e.after == e.before
  {
    hide Reviewed, Refuses, CallLimit, SavedOutcome, StoredIn;
  }

  /** What a saved review is: a publication from the stored state, filed under its id. */
  lemma SavedReviewIs(deps: Deps, codec: Codec, e: Event) returns (state: ReviewState, text: string)
    requires IsReview(deps, codec, e) && !e.outcome.Failed?
    ensures StoredIn(codec, e.before, e.request.artifactId) == Ok(state)
    ensures Publishes(deps, e.request, e.world, state, e.tape, e.calls, e.outcome.publication)
    ensures e.after == e.before[state.artifactId := text]
    ensures Faithful(codec, e.outcome.publication.newState) ==>
      StoredIn(codec, e.after, state.artifactId) == Ok(e.outcome.publication.newState)
  {
    hide Reviewed, Refuses, CallLimit, SavedOutcome, StoredIn, Publishes, Faithful, Encode;
    state := StoredIn(codec, e.before, e.request.artifactId).value;
    var pub := e.outcome.publication;
    text := Encode(codec, pub.newState, e.world.render(pub));
  }

  lemma SavedReviewKeepsMemory(deps: Deps, codec: Codec, events: seq<Event>, e: Event, id: string)
    requires deps.oracle.Valid() && IsReview(deps, codec, e) && !e.outcome.Failed?
    requires RemembersOf(codec, e.before, events, id)
    requires RemembersOf(codec, e.before, events, e.request.artifactId)
    requires Faithful(codec, e.outcome.publication.newState)
    ensures RemembersOf(codec, e.after, events + [e], id)
  {
    hide IsReview, StoredIn, Publishes, Faithful, IsStateAfter, ValidRuns, ValidKeys, RunsOf, SavedState;
    var state, text := SavedReviewIs(deps, codec, e);
    RunsStep(events, e, id);
    if id == e.request.artifactId {
      var pub, runs := e.outcome.publication, RunsOf(events, id);
      PublishingExtendsTheRuns(deps, e.request, e.world, state, e.tape, e.calls, pub, runs);
      var record := PublishedRecord(deps, e.request, e.world, state, e.tape, e.calls, pub);
      RecordIs(e.request, e.world, pub);
      OneMoreIsValid(runs, pub.findings);
    } else {
      OtherFilesStay(codec, e.before, state.artifactId, text, id);
      assert RunsOf(events, id) + [] == RunsOf(events, id);
    }
  }

  lemma NothingSavedYet(codec: Codec)
    ensures Remembers(codec, map[], [])
  {
  }

  /** After any reviews of any artifacts, failed ones included, loading an artifact's state
      gives exactly the state its saved reviews add up to, record by record. */
  lemma {:induction false} StoreRemembersSavedReviews(deps: Deps, codec: Codec, events: seq<Event>)
    requires deps.oracle.Valid() && IsTrace(deps, codec, events) && FaithfullySaved(codec, events)
    ensures Remembers(codec, FilesAfter(events), events)
  {
    hide IsTrace, FaithfullySaved, Remembers, IsReview, OracleTable.Valid, Faithful;
    if events == [] {
      NothingSavedYet(codec);
    } else {
      var n := |events| - 1;
      var init, e := events[..n], events[n];
      assert events == init + [e];
      FaithfulBefore(codec, init, e);
      LastOfTrace(deps, codec, init, e);
      StoreRemembersSavedReviews(deps, codec, init);
      ReviewKeepsMemory(deps, codec, init, e);
    }
  }

  lemma FaithfulBefore(codec: Codec, events: seq<Event>, e: Event)
    requires FaithfullySaved(codec, events + [e])
    ensures FaithfullySaved(codec, events)
    ensures !e.outcome.Failed? ==> Faithful(codec, e.outcome.publication.newState)
  {
    hide Faithful;
    var all := events + [e];
    assert forall i | 0 <= i < |events| :: all[i] == events[i];
    assert all[|events|] == e;
  }

  /** So no review of the trace ever finds its state corrupt; the `n`-th saved review of an
      artifact is its cycle `n`; and it is stopped iff enough cycles have passed and some key
      of it has enough Major findings in the saved reviews before it, which is to say, when no
      review repeats a key, iff some key is Major for at least the threshold-th time. */
  lemma StopsOverTheTrace(deps: Deps, codec: Codec, events: seq<Event>, e: Event)
    requires deps.oracle.Valid() && IsTrace(deps, codec, events + [e]) && FaithfullySaved(codec, events)
    ensures e.outcome != Failed(StateCorrupt)
    ensures !e.outcome.Failed? ==>
      var prior, pub := RunsOf(events, e.request.artifactId), e.outcome.publication;
      && pub.cycle == |prior| + 1
      && (pub.escalation.Some? <==>
            exists key :: && HasMajor(pub.findings, key)
                          && MajorFindings(prior, key) + 1 >= deps.oracle.escalationCycle
                          && |prior| + 1 >= deps.oracle.escalationCycle)
      && (ProperRuns(prior) ==>
            (pub.escalation.Some? <==>
               exists key :: HasMajor(pub.findings, key) && MajorRuns(prior, key) + 1 >= deps.oracle.escalationCycle))
  {
    LastOfTrace(deps, codec, events, e);
    hide IsReview, IsTrace, FaithfullySaved, IsStateAfter, ValidRuns, StoredIn, Publishes, MajorFindings, MajorRuns,
      HasMajor, RunsOf, ProperRuns;
    StoreRemembersSavedReviews(deps, codec, events);
    assert RemembersOf(codec, e.before, events, e.request.artifactId);
    if e.outcome.Failed? {
      NeverCorrupt(deps, codec, e);
    } else {
      var prior, pub := RunsOf(events, e.request.artifactId), e.outcome.publication;
      var state, _ := SavedReviewIs(deps, codec, e);
      PublishingExtendsTheRuns(deps, e.request, e.world, state, e.tape, e.calls, pub, prior);
      EscalationOfPublication(deps, e.request, e.world, state, e.tape, e.calls, pub);
      CycleOfPublication(deps, e.request, e.world, state, e.tape, e.calls, pub);
      CyclesAreRuns(state, prior);
      if ProperRuns(prior) {
        StopsExactlyOnRecurrence(deps, e.request, e.world, state, e.tape, e.calls, pub, prior);
      }
      EscalationCounts(state, prior, pub.findings, deps.oracle.escalationCycle);
    }
  }

  lemma LastOfTrace(deps: Deps, codec: Codec, events: seq<Event>, e: Event)
    requires IsTrace(deps, codec, events + [e])
    ensures IsTrace(deps, codec, events) && IsReview(deps, codec, e) && e.before == FilesAfter(events)
  {
    hide IsReview;
    var all := events + [e];
    assert forall i | 0 <= i < |events| :: all[i] == events[i] && all[..i] == events[..i];
    assert all[|events|] == e && all[..|events|] == events;
  }

  lemma NeverCorrupt(deps: Deps, codec: Codec, e: Event)
    requires IsReview(deps, codec, e) && StoredIn(codec, e.before, e.request.artifactId).Ok?
    ensures e.outcome != Failed(StateCorrupt)
  {
    hide StoredIn, Refuses, Publishes, CallLimit, Encode;
    var state := StoredIn(codec, e.before, e.request.artifactId).value;
    ReviewedEnds(deps, e.request, e.world, state, e.tape);
  }

  lemma CycleOfPublication(deps: Deps, request: Request, world: World, state: ReviewState, tape: nat -> Reply,
                           calls: nat, pub: Publication)
    requires Publishes(deps, request, world, state, tape, calls, pub)
    ensures pub.cycle == state.cycle + 1
  {
    hide Clean, SweptFor, FromTape, WasAnswered, FindClass, ResolveMode, Escalation, AllEntries, Dispositions;
  }

  // ---- At the same time --------------------------------------------------

  /** What a review saves extends what it loaded by one record. So reviews of one artifact at
      the same time are reviews in the sense of module LostUpdates. */
  lemma SavedReviewExtends(deps: Deps, codec: Codec, request: Request, world: World, state: ReviewState,
                           tape: nat -> Reply, calls: nat, pub: Publication, read: Option<string>)
    requires Publishes(deps, request, world, state, tape, calls, pub) && Faithful(codec, pub.newState)
    requires if read.None? then state == ReviewState(request.artifactId, 0, [])
             else Decode(codec, read.value) == Ok(state)
    ensures LostUpdates.Extends(codec, Encode(codec, pub.newState, world.render(pub)), read)
  {
    hide Publishes, Faithful, Encode, Decode;
    var record := PublishedRecord(deps, request, world, state, tape, calls, pub);
    DecodeEncode(codec, pub.newState, world.render(pub));
    assert LostUpdates.HistoryIn(codec, read) == state.history;
  }
}
