/** The operator journal: events, the state they derive, and the disk that holds both
    (azure/cpu_production_orchestrator.py, lines 171-260 and 1095-1239). */
module Journal {
  import opened Outcomes
  import opened MachineWords

  // ---- Stages -------------------------------------------------------------------------

  datatype Stage =
    | Initialized
    | DeploymentInProgress | DeploymentFailed | Deployed
    | ChallengeInProgress | ChallengeFailed | ChallengeCreated
    | WorkerStageConfirmed
    | IngestionInProgress | IngestionFailed | PackageVerified
    | AppraisalInProgress | AppraisalFailed | AppraisalPrechecked
    | IssuanceInProgress | IssuanceFailed | ReceiptIssued
    | ReviewInProgress | ReviewFailed | ReviewGenerated

  /** The declared transition relation; a failed ingestion, appraisal or review has no successor. */
  predicate Allowed(from: Option<Stage>, to: Stage) {
    match to
    case Initialized => from == None
    case DeploymentInProgress => from == Some(Initialized)
    case DeploymentFailed => from == Some(DeploymentInProgress)
    case Deployed => from == Some(DeploymentInProgress) || from == Some(DeploymentFailed)
    case ChallengeInProgress => from == Some(Deployed)
    case ChallengeFailed => from == Some(ChallengeInProgress)
    case ChallengeCreated => from == Some(ChallengeInProgress) || from == Some(ChallengeFailed)
    case WorkerStageConfirmed => from == Some(ChallengeCreated)
    case IngestionInProgress => from == Some(WorkerStageConfirmed)
    case IngestionFailed => from == Some(IngestionInProgress)
    case PackageVerified => from == Some(IngestionInProgress)
    case AppraisalInProgress => from == Some(PackageVerified)
    case AppraisalFailed => from == Some(AppraisalInProgress)
    case AppraisalPrechecked => from == Some(AppraisalInProgress)
    case IssuanceInProgress => from == Some(AppraisalPrechecked)
    case IssuanceFailed => from == Some(IssuanceInProgress)
    case ReceiptIssued => from == Some(IssuanceInProgress) || from == Some(IssuanceFailed)
    case ReviewInProgress => from == Some(ReceiptIssued)
    case ReviewFailed => from == Some(ReviewInProgress)
    case ReviewGenerated => from == Some(ReviewInProgress)
  }

  /** The record a command files when it reaches a stage. */
  function RecordFor(to: Stage): Option<string> {
    match to
    case Deployed => Some("deployment_record_sha256")
    case ChallengeCreated => Some("retained_challenge_sha256")
    case WorkerStageConfirmed => Some("worker_stage_manifest_sha256")
    case PackageVerified => Some("transcript_report_sha256")
    case AppraisalPrechecked => Some("appraisal_report_sha256")
    case ReceiptIssued => Some("receipt_file_sha256")
    case ReviewGenerated => Some("review_candidates_sha256")
    case _ => None
  }

  function Rank(stage: Stage): nat {
    match stage
    case Initialized => 0
    case DeploymentInProgress => 1
    case DeploymentFailed => 2
    case Deployed => 3
    case ChallengeInProgress => 4
    case ChallengeFailed => 5
    case ChallengeCreated => 6
    case WorkerStageConfirmed => 7
    case IngestionInProgress => 8
    case IngestionFailed => 9
    case PackageVerified => 10
    case AppraisalInProgress => 11
    case AppraisalFailed => 12
    case AppraisalPrechecked => 13
    case IssuanceInProgress => 14
    case IssuanceFailed => 15
    case ReceiptIssued => 16
    case ReviewInProgress => 17
    case ReviewFailed => 18
    case ReviewGenerated => 19
  }

  /** The most events that can lead to a stage; the dead ends stand beside the stages they miss. */
  function Depth(stage: Stage): nat {
    match stage
    case Initialized => 0
    case DeploymentInProgress => 1
    case DeploymentFailed => 2
    case Deployed => 3
    case ChallengeInProgress => 4
    case ChallengeFailed => 5
    case ChallengeCreated => 6
    case WorkerStageConfirmed => 7
    case IngestionInProgress => 8
    case IngestionFailed => 9
    case PackageVerified => 9
    case AppraisalInProgress => 10
    case AppraisalFailed => 11
    case AppraisalPrechecked => 11
    case IssuanceInProgress => 12
    case IssuanceFailed => 13
    case ReceiptIssued => 14
    case ReviewInProgress => 15
    case ReviewFailed => 16
    case ReviewGenerated => 16
  }

  /** The stages every campaign that gets past them has passed. */
  predicate Gate(stage: Stage) {
    stage == Initialized || RecordFor(stage).Some?
  }

  /** The names on file at a stage: those of the gates up to it. */
  ghost predicate NamesAt(stage: Stage, names: set<string>) {
    forall name :: name in names <==> exists gate: Stage :: Rank(gate) <= Rank(stage) && RecordFor(gate) == Some(name)
  }

  // ---- Events and states -----------------------------------------------------------------

  datatype Campaign = Campaign(id: string, configHash: string)

  datatype Event = Event(
    at: string, campaign: Campaign, sequence: nat, from: Option<Stage>, to: Stage, previous: Option<string>,
    recordName: Option<string>, recordDigest: Option<string>)

  datatype State = State(
    campaign: Campaign, eventDigest: string, records: map<string, string>, sequence: nat, stage: Stage)

  predicate IsAlphanumeric(c: char) {
    'A' <= c <= 'Z' || 'a' <= c <= 'z' || '0' <= c <= '9'
  }

  predicate ValidName(name: string) {
    1 <= |name| <= 128 && IsAlphanumeric(name[0])
    && forall i | 1 <= i < |name| :: IsAlphanumeric(name[i]) || name[i] in "._:-"
  }

  /** What the events so far amount to. */
  datatype Fold = Fold(stage: Option<Stage>, records: map<string, string>, previous: Option<string>)

  /** The event extends the chain. */
  predicate Chains(campaign: Campaign, fold: Fold, sequence: nat, e: Event) {
    && e.sequence == sequence && e.campaign == campaign && e.previous == fold.previous
    && e.from == fold.stage && Allowed(e.from, e.to)
    && e.recordName.Some? == e.recordDigest.Some?
    && (e.recordName.Some? ==>
          ValidName(e.recordName.value) && e.recordName.value !in fold.records && IsHex256(e.recordDigest.value))
  }

  function Extend(hash: Event -> string, fold: Fold, e: Event): Fold
    requires e.recordName.Some? ==> e.recordDigest.Some?
  {
    Fold(
      Some(e.to),
      if e.recordName.Some? then fold.records[e.recordName.value := e.recordDigest.value] else fold.records,
      Some(hash(e)))
  }

  function Folded(campaign: Campaign, hash: Event -> string, events: seq<Event>): Option<Fold> {
    if events == [] then Some(Fold(None, map[], None))
    else
      var last := |events| - 1;
      var fold := Folded(campaign, hash, events[..last]);
      if fold.None? || !Chains(campaign, fold.value, last, events[last]) then None
      else Some(Extend(hash, fold.value, events[last]))
  }

  /** The state a journal derives, if it is one unbroken chain. */
  function Derived(campaign: Campaign, hash: Event -> string, events: seq<Event>): Option<State> {
    var fold := Folded(campaign, hash, events);
    if events == [] || fold.None? || fold.value.stage.None? || fold.value.previous.None? then None
    else
      var f := fold.value;
      Some(State(campaign, f.previous.value, f.records, |events| - 1, f.stage.value))
  }

  lemma DerivedIsFold(campaign: Campaign, hash: Event -> string, events: seq<Event>)
    requires events != []
    ensures Derived(campaign, hash, events).Some? <==> Folded(campaign, hash, events).Some?
    ensures Derived(campaign, hash, events).Some? ==>
      var s := Derived(campaign, hash, events).value;
      && Folded(campaign, hash, events) == Some(Fold(Some(s.stage), s.records, Some(s.eventDigest)))
      && s.campaign == campaign && s.sequence == |events| - 1 && s.stage == events[|events| - 1].to
      && s.eventDigest == hash(events[|events| - 1])
  {
  }

  lemma FoldedAppend(campaign: Campaign, hash: Event -> string, events: seq<Event>, e: Event)
    ensures Folded(campaign, hash, events + [e]) ==
      var fold := Folded(campaign, hash, events);
      if fold.Some? && Chains(campaign, fold.value, |events|, e) then Some(Extend(hash, fold.value, e)) else None
  {
    assert (events + [e])[..|events|] == events;
  }

  lemma {:induction false} PrefixFolds(campaign: Campaign, hash: Event -> string, events: seq<Event>, n: nat)
    requires Folded(campaign, hash, events).Some? && n <= |events|
    ensures Folded(campaign, hash, events[..n]).Some?
    ensures n < |events| ==> Chains(campaign, Folded(campaign, hash, events[..n]).value, n, events[n])
    decreases |events|
  {
    if n == |events| {
      assert events[..n] == events;
    } else {
      var last := |events| - 1;
      PrefixFolds(campaign, hash, events[..last], n);
      assert events[..last][..n] == events[..n];
      assert n < last ==> events[..last][n] == events[n];
    }
  }

  // ---- What every derivable journal satisfies ----------------------------------------------

  lemma RankRises(from: Stage, to: Stage)
    requires Allowed(Some(from), to)
    ensures Rank(from) < Rank(to)
    ensures forall gate: Stage | Gate(gate) && Rank(from) < Rank(gate) :: Rank(to) <= Rank(gate)
  {
  }

  lemma RankInjective(a: Stage, b: Stage)
    requires Rank(a) == Rank(b)
    ensures a == b
  {
  }

  /** Ranks rise along a derivable journal. */
  lemma {:induction false} RanksRise(campaign: Campaign, hash: Event -> string, events: seq<Event>, i: nat, j: nat)
    requires Folded(campaign, hash, events).Some? && i < j < |events|
    ensures Rank(events[i].to) < Rank(events[j].to)
    decreases j
  {
    var before := events[..j];
    PrefixFolds(campaign, hash, events, j);
    DerivedIsFold(campaign, hash, before);
    assert events[j].from == Some(before[j - 1].to);
    RankRises(events[j - 1].to, events[j].to);
    if i < j - 1 { RanksRise(campaign, hash, events, i, j - 1); }
  }

  lemma DepthRises(from: Stage, to: Stage)
    requires Allowed(Some(from), to)
    ensures Depth(from) < Depth(to) <= 16
  {
  }

  /** NO STAGE TWICE. A derivable journal never revisits a stage, and has at most seventeen events. */
  lemma NoStageTwice(campaign: Campaign, hash: Event -> string, events: seq<Event>)
    requires Folded(campaign, hash, events).Some?
    ensures forall i, j | 0 <= i < j < |events| :: events[i].to != events[j].to
    ensures |events| <= 17
  {
    forall i, j | 0 <= i < j < |events|
      ensures events[i].to != events[j].to
    {
      RanksRise(campaign, hash, events, i, j);
    }
    if |events| > 0 { DepthAtLeast(campaign, hash, events, |events| - 1); }
  }

  lemma {:induction false} DepthAtLeast(campaign: Campaign, hash: Event -> string, events: seq<Event>, i: nat)
    requires Folded(campaign, hash, events).Some? && i < |events|
    ensures i <= Depth(events[i].to) <= 16
  {
    if i == 0 {
    } else {
      DepthAtLeast(campaign, hash, events, i - 1);
      PrefixFolds(campaign, hash, events, i);
      DerivedIsFold(campaign, hash, events[..i]);
      assert events[i].from == Some(events[i - 1].to);
      DepthRises(events[i - 1].to, events[i].to);
    }
  }

  /** NO GATE SKIPPED. A campaign at or past a gate has an event that reached it: no receipt without an
      appraisal, no appraisal without a verified package, and so on. */
  lemma {:induction false} NoGateSkipped(campaign: Campaign, hash: Event -> string, events: seq<Event>, gate: Stage)
    requires events != [] && Folded(campaign, hash, events).Some? && Gate(gate)
    requires Rank(gate) <= Rank(events[|events| - 1].to)
    ensures exists i :: 0 <= i < |events| && events[i].to == gate
    decreases |events|
  {
    var last := |events| - 1;
    var before := events[..last];
    PrefixFolds(campaign, hash, events, last);
    if last == 0 {
      assert events[0].from == None;
      assert events[0].to == Initialized;
      RankInjective(gate, Initialized);
    } else {
      DerivedIsFold(campaign, hash, before);
      var from := before[last - 1].to;
      assert events[last].from == Some(from);
      RankRises(from, events[last].to);
      if Rank(gate) <= Rank(from) {
        NoGateSkipped(campaign, hash, before, gate);
        var i :| 0 <= i < |before| && before[i].to == gate;
        assert events[i].to == gate;
      } else {
        RankInjective(gate, events[last].to);
      }
    }
  }

  /** An event carries its place and campaign, and a record only with a proper name and digest. */
  predicate WellFormed(campaign: Campaign, e: Event, i: nat) {
    && e.sequence == i && e.campaign == campaign && e.recordName.Some? == e.recordDigest.Some?
    && (e.recordName.Some? ==> ValidName(e.recordName.value) && IsHex256(e.recordDigest.value))
  }

  predicate AllWellFormed(campaign: Campaign, events: seq<Event>) {
    forall i: nat | i < |events| :: WellFormed(campaign, events[i], i)
  }

  predicate NamesOnce(events: seq<Event>) {
    forall i, j | 0 <= i < j < |events| && events[i].recordName.Some? :: events[i].recordName != events[j].recordName
  }

  predicate OnFile(records: map<string, string>, e: Event) {
    e.recordName.Some? && e.recordDigest.Some? ==>
      e.recordName.value in records && records[e.recordName.value] == e.recordDigest.value
  }

  /** The records are those of the events: each event's record is on file, and nothing else is. */
  ghost predicate RecordsFrom(records: map<string, string>, events: seq<Event>) {
    && (forall i | 0 <= i < |events| :: OnFile(records, events[i]))
    && (forall name | name in records :: exists i :: 0 <= i < |events| && events[i].recordName == Some(name))
  }

  lemma NamesOnceStep(front: seq<Event>, e: Event, records: map<string, string>)
    requires NamesOnce(front) && RecordsFrom(records, front)
    requires forall i | 0 <= i < |front| :: front[i].recordName.Some? == front[i].recordDigest.Some?
    requires e.recordName.Some? ==> e.recordName.value !in records
    ensures NamesOnce(front + [e])
  {
    forall i | 0 <= i < |front| && front[i].recordName.Some?
      ensures front[i].recordName != e.recordName
    {
      assert OnFile(records, front[i]);
    }
  }

  lemma RecordsFromStep(front: seq<Event>, e: Event, records: map<string, string>, after: map<string, string>)
    requires RecordsFrom(records, front) && e.recordName.Some? == e.recordDigest.Some?
    requires e.recordName.Some? ==> e.recordName.value !in records
    requires after == if e.recordName.Some? then records[e.recordName.value := e.recordDigest.value] else records
    ensures RecordsFrom(after, front + [e])
  {
    var events := front + [e];
    forall i | 0 <= i < |events|
      ensures OnFile(after, events[i])
    {
      if i < |front| { assert OnFile(records, front[i]); }
    }
    forall name | name in after
      ensures exists i :: 0 <= i < |events| && events[i].recordName == Some(name)
    {
      if name in records {
        var i :| 0 <= i < |front| && front[i].recordName == Some(name);
        assert events[i].recordName == Some(name);
      } else {
        assert events[|front|].recordName == Some(name);
      }
    }
  }

  /** RECORDS ARE THE JOURNAL'S. In a derivable journal every event is well formed, no record name is used
      twice, and the records on file are exactly those of the events. */
  lemma {:induction false} RecordsOfEvents(campaign: Campaign, hash: Event -> string, events: seq<Event>)
    requires Folded(campaign, hash, events).Some?
    ensures AllWellFormed(campaign, events) && NamesOnce(events)
    ensures RecordsFrom(Folded(campaign, hash, events).value.records, events)
  {
    if events == [] {
    } else {
      var last := |events| - 1;
      var front, e := events[..last], events[last];
      PrefixFolds(campaign, hash, events, last);
      RecordsOfEvents(campaign, hash, front);
      var fold := Folded(campaign, hash, front).value;
      assert events == front + [e];
      assert forall i | 0 <= i < |front| :: WellFormed(campaign, front[i], i);
      NamesOnceStep(front, e, fold.records);
      RecordsFromStep(front, e, fold.records, Extend(hash, fold, e).records);
    }
  }

  ghost predicate Injective(hash: Event -> string) {
    forall a: Event, b: Event | hash(a) == hash(b) :: a == b
  }

  /** THE HEAD PINS THE JOURNAL. If the hash has no collisions, equal last digests mean equal histories. */
  lemma {:induction false} DigestPinsJournal(campaign: Campaign, hash: Event -> string, a: seq<Event>, b: seq<Event>)
    requires Injective(hash) && a != [] && b != []
    requires Folded(campaign, hash, a).Some? && Folded(campaign, hash, b).Some?
    requires hash(a[|a| - 1]) == hash(b[|b| - 1])
    ensures a == b
    decreases |a|
  {
    var last := |a| - 1;
    var front, other := a[..last], b[..|b| - 1];
    LastEvent(campaign, hash, a, front);
    LastEvent(campaign, hash, b, other);
    assert a[last] == b[|b| - 1];
    if last == 0 {
      assert front == other == [];
    } else {
      DigestPinsJournal(campaign, hash, front, other);
    }
    assert a == front + [a[last]] && b == other + [b[|b| - 1]];
  }

  /** The last event tells the length, and the digest of the event before it. */
  lemma LastEvent(campaign: Campaign, hash: Event -> string, events: seq<Event>, front: seq<Event>)
    requires events != [] && Folded(campaign, hash, events).Some? && front == events[..|events| - 1]
    ensures Folded(campaign, hash, front).Some? && events[|events| - 1].sequence == |front|
    ensures front != [] ==> events[|events| - 1].previous == Some(hash(front[|front| - 1]))
  {
    PrefixFolds(campaign, hash, events, |front|);
    if front != [] { DerivedIsFold(campaign, hash, front); }
  }

  // ---- The disk ----------------------------------------------------------------------------

  /** The journal directory, if it exists, and the cached head, if it exists. */
  datatype Disk = Disk(journal: Option<seq<Event>>, head: Option<State>)

  const BLANK: Disk := Disk(None, None)

  /** The head is the derivation of the journal. */
  predicate Current(campaign: Campaign, hash: Event -> string, d: Disk) {
    d.journal.Some? && d.head.Some? && d.head == Derived(campaign, hash, d.journal.value)
  }

  /** The head is the derivation of all events but the last, or absent after the first. */
  predicate Lagging(campaign: Campaign, hash: Event -> string, d: Disk) {
    && d.journal.Some? && d.journal.value != [] && Derived(campaign, hash, d.journal.value).Some?
    && d.head == Derived(campaign, hash, d.journal.value[..|d.journal.value| - 1])
  }

  /** The directory was made, its first event was not written. */
  predicate Stranded(d: Disk) {
    d.journal == Some([]) && d.head == None
  }

  /** The records on file are exactly those of the gates passed. */
  ghost predicate RecordsMatch(campaign: Campaign, hash: Event -> string, d: Disk) {
    d.journal.Some? && Derived(campaign, hash, d.journal.value).Some? ==>
      var s := Derived(campaign, hash, d.journal.value).value;
      NamesAt(s.stage, s.records.Keys)
  }

  /** JOURNAL SAFETY. Nothing yet, or a stranded directory, or a journal that derives with a head that is
      current or lags by one event. */
  ghost predicate Safe(campaign: Campaign, hash: Event -> string, d: Disk) {
    && (d == BLANK || Stranded(d) || Current(campaign, hash, d) || Lagging(campaign, hash, d))
    && RecordsMatch(campaign, hash, d)
  }

  /** The atomic writes: make the directory; write an event that chains, with its stage's record, when the
      head is current or the directory is empty; write the derived head. A crash is a stop between two. */
  ghost predicate Write(campaign: Campaign, hash: Event -> string, d: Disk, e: Disk) {
    || (d == BLANK && e == Disk(Some([]), None))
    || (exists event: Event ::
          && (Stranded(d) || Current(campaign, hash, d)) && event.recordName == RecordFor(event.to)
          && Folded(campaign, hash, d.journal.value + [event]).Some?
          && e == Disk(Some(d.journal.value + [event]), d.head))
    || (d.journal.Some? && Derived(campaign, hash, d.journal.value).Some?
        && e == Disk(d.journal, Derived(campaign, hash, d.journal.value)))
  }

  /** A step reaches no gate but its own target. */
  lemma GateReached(from: Stage, to: Stage, gate: Stage)
    requires Allowed(Some(from), to) && Gate(gate)
    ensures Rank(gate) <= Rank(to) <==> Rank(gate) <= Rank(from) || gate == to
  {
    RankRises(from, to);
    if Rank(gate) == Rank(to) { RankInjective(gate, to); }
  }

  lemma EventIsWrite(campaign: Campaign, hash: Event -> string, d: Disk, event: Event, e: Disk)
    requires (Stranded(d) || Current(campaign, hash, d)) && event.recordName == RecordFor(event.to)
    requires Folded(campaign, hash, d.journal.value + [event]).Some?
    requires e == Disk(Some(d.journal.value + [event]), d.head)
    ensures Write(campaign, hash, d, e)
  {
  }

  lemma NamesStep(from: Stage, to: Stage, names: set<string>)
    requires NamesAt(from, names) && Allowed(Some(from), to)
    ensures NamesAt(to, if RecordFor(to).Some? then names + {RecordFor(to).value} else names)
  {
    RankRises(from, to);
    forall gate: Stage | RecordFor(gate).Some?
      ensures Rank(gate) <= Rank(to) <==> Rank(gate) <= Rank(from) || gate == to
    {
      GateReached(from, to, gate);
    }
  }

  lemma NoNames()
    ensures NamesAt(Initialized, {})
  {
    forall gate: Stage | Rank(gate) <= Rank(Initialized)
      ensures RecordFor(gate) == None
    {
    }
  }

  lemma NextGate(from: Stage, middle: Stage, to: Stage, names: set<string>, name: string)
    requires NamesAt(from, names) && Allowed(Some(from), middle) && Allowed(Some(middle), to)
    requires RecordFor(middle).None? && RecordFor(to) == Some(name)
    ensures NamesAt(to, names + {name})
  {
    NamesStep(from, middle, names);
    NamesStep(middle, to, names);
  }

  /** The records on file after the first three gates. */
  lemma EarlyRecords()
    ensures NamesAt(Deployed, {"deployment_record_sha256"})
    ensures NamesAt(ChallengeCreated, {"deployment_record_sha256"} + {"retained_challenge_sha256"})
    ensures NamesAt(WorkerStageConfirmed,
      {"deployment_record_sha256"} + {"retained_challenge_sha256"} + {"worker_stage_manifest_sha256"})
  {
    NoNames();
    NextGate(Initialized, DeploymentInProgress, Deployed, {}, "deployment_record_sha256");
    assert {} + {"deployment_record_sha256"} == {"deployment_record_sha256"};
    var first := {"deployment_record_sha256"};
    NextGate(Deployed, ChallengeInProgress, ChallengeCreated, first, "retained_challenge_sha256");
    NamesStep(ChallengeCreated, WorkerStageConfirmed, first + {"retained_challenge_sha256"});
  }

  /** And after the other four, in the order in which a campaign files them. */
  lemma LateRecords(early: set<string>)
    requires NamesAt(WorkerStageConfirmed, early)
    ensures NamesAt(PackageVerified, early + {"transcript_report_sha256"})
    ensures NamesAt(AppraisalPrechecked, early + {"transcript_report_sha256"} + {"appraisal_report_sha256"})
    ensures NamesAt(ReceiptIssued,
      early + {"transcript_report_sha256"} + {"appraisal_report_sha256"} + {"receipt_file_sha256"})
    ensures NamesAt(ReviewGenerated,
      early + {"transcript_report_sha256"} + {"appraisal_report_sha256"} + {"receipt_file_sha256"}
      + {"review_candidates_sha256"})
  {
    var package := early + {"transcript_report_sha256"};
    var appraised := package + {"appraisal_report_sha256"};
    NextGate(WorkerStageConfirmed, IngestionInProgress, PackageVerified, early, "transcript_report_sha256");
    NextGate(PackageVerified, AppraisalInProgress, AppraisalPrechecked, package, "appraisal_report_sha256");
    NextGate(AppraisalPrechecked, IssuanceInProgress, ReceiptIssued, appraised, "receipt_file_sha256");
    var receipted := appraised + {"receipt_file_sha256"};
    NextGate(ReceiptIssued, ReviewInProgress, ReviewGenerated, receipted, "review_candidates_sha256");
  }

  lemma EventKeepsRecords(campaign: Campaign, hash: Event -> string, d: Disk, event: Event, e: Disk)
    requires Safe(campaign, hash, d) && (Stranded(d) || Current(campaign, hash, d))
    requires event.recordName == RecordFor(event.to)
    requires Folded(campaign, hash, d.journal.value + [event]).Some?
    requires e == Disk(Some(d.journal.value + [event]), d.head)
    ensures Lagging(campaign, hash, e) && RecordsMatch(campaign, hash, e)
  {
    var events := d.journal.value;
    FoldedAppend(campaign, hash, events, event);
    DerivedIsFold(campaign, hash, events + [event]);
    assert e.journal.value[..|events|] == events;
    var s := Derived(campaign, hash, events + [event]).value;
    if events == [] {
      assert s.stage == Initialized && s.records == map[];
      NoNames();
    } else {
      DerivedIsFold(campaign, hash, events);
      var before := Derived(campaign, hash, events).value;
      NamesStep(before.stage, event.to, before.records.Keys);
      assert s.records.Keys
        == if RecordFor(event.to).Some? then before.records.Keys + {RecordFor(event.to).value} else before.records.Keys;
    }
  }

  lemma WriteKeepsSafe(campaign: Campaign, hash: Event -> string, d: Disk, e: Disk)
    requires Safe(campaign, hash, d) && Write(campaign, hash, d, e)
    ensures Safe(campaign, hash, e)
  {
    if d == BLANK && e == Disk(Some([]), None) {
      assert Stranded(e);
    } else if d.journal.Some? && Derived(campaign, hash, d.journal.value).Some?
       && e == Disk(d.journal, Derived(campaign, hash, d.journal.value)) {
      assert Current(campaign, hash, e);
    } else {
      var event: Event :|
        && (Stranded(d) || Current(campaign, hash, d)) && event.recordName == RecordFor(event.to)
        && Folded(campaign, hash, d.journal.value + [event]).Some?
        && e == Disk(Some(d.journal.value + [event]), d.head);
      EventKeepsRecords(campaign, hash, d, event, e);
    }
  }

  /** A history of the disk, one atomic write at a time. */
  ghost predicate History(campaign: Campaign, hash: Event -> string, trace: seq<Disk>) {
    && trace != [] && trace[0] == BLANK
    && forall i: nat | i + 1 < |trace| :: Write(campaign, hash, trace[i], trace[i + 1])
  }

  lemma HistoryExtends(campaign: Campaign, hash: Event -> string, trace: seq<Disk>, e: Disk)
    requires History(campaign, hash, trace) && Write(campaign, hash, trace[|trace| - 1], e)
    ensures History(campaign, hash, trace + [e])
  {
  }

  predicate Prefix(d: Disk, e: Disk) {
    d.journal.Some? ==> e.journal.Some? && d.journal.value <= e.journal.value
  }

  /** SAFETY OVER ALL RUNS. Wherever the writes stop, the disk is safe, the head is never ahead of the
      journal, and the journal has only grown. */
  lemma {:induction false} HistorySafe(campaign: Campaign, hash: Event -> string, trace: seq<Disk>, i: nat, j: nat)
    requires History(campaign, hash, trace) && i <= j < |trace|
    ensures Safe(campaign, hash, trace[j]) && Prefix(trace[i], trace[j])
    decreases j
  {
    if j == 0 {
    } else {
      HistorySafe(campaign, hash, trace, if i < j then i else j - 1, j - 1);
      WriteKeepsSafe(campaign, hash, trace[j - 1], trace[j]);
    }
  }

  /** Head recovery. */
  function Recovered(campaign: Campaign, hash: Event -> string, d: Disk): Disk
    requires d.journal.Some?
  {
    Disk(d.journal, Derived(campaign, hash, d.journal.value))
  }

  /** RECOVERY. On a safe disk whose journal derives, recovery makes the head current and touches nothing
      else; after a crash between an event and its head it yields the disk of the run without the crash. */
  lemma RecoveryRestores(campaign: Campaign, hash: Event -> string, before: Disk, crashed: Disk, finished: Disk)
    requires Safe(campaign, hash, before) && before.journal.Some?
    requires Write(campaign, hash, before, crashed) && crashed.journal != before.journal
    requires Write(campaign, hash, crashed, finished)
    ensures Lagging(campaign, hash, crashed) && !Current(campaign, hash, crashed)
    ensures Recovered(campaign, hash, crashed) == finished && Current(campaign, hash, finished)
  {
    var event: Event :|
      && (Stranded(before) || Current(campaign, hash, before)) && event.recordName == RecordFor(event.to)
      && Folded(campaign, hash, before.journal.value + [event]).Some?
      && crashed == Disk(Some(before.journal.value + [event]), before.head);
    EventKeepsRecords(campaign, hash, before, event, crashed);
    LaggingNotCurrent(campaign, hash, crashed);
  }

  lemma LaggingNotCurrent(campaign: Campaign, hash: Event -> string, d: Disk)
    requires Lagging(campaign, hash, d)
    ensures !Current(campaign, hash, d)
  {
    var events := d.journal.value;
    DerivedIsFold(campaign, hash, events);
    if |events| > 1 && Derived(campaign, hash, events[..|events| - 1]).Some? {
      DerivedIsFold(campaign, hash, events[..|events| - 1]);
    }
  }
}
