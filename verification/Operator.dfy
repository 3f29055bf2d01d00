/** The operator's commands over the journal, with crashes at every write
    (azure/cpu_production_orchestrator.py, lines 1095-1239, 1665-1729, 1780-1864, 2013-2037 and 2218-2623). */
module Operator {
  import opened Outcomes
  import opened MachineWords
  import opened Journal

  // ---- Commands ----------------------------------------------------------------------------

  /** A command that brackets a child process between two transitions. */
  datatype Phase = Phase(start: Stage, inProgress: Stage, done: Stage, failed: Stage)

  datatype Command = Deploy | CreateChallenge | IngestReturned | Appraise | IssueReceipt | GenerateReview

  function PhaseOf(c: Command): Phase {
    match c
    case Deploy => Phase(Initialized, DeploymentInProgress, Deployed, DeploymentFailed)
    case CreateChallenge => Phase(Deployed, ChallengeInProgress, ChallengeCreated, ChallengeFailed)
    case IngestReturned => Phase(WorkerStageConfirmed, IngestionInProgress, PackageVerified, IngestionFailed)
    case Appraise => Phase(PackageVerified, AppraisalInProgress, AppraisalPrechecked, AppraisalFailed)
    case IssueReceipt => Phase(AppraisalPrechecked, IssuanceInProgress, ReceiptIssued, IssuanceFailed)
    case GenerateReview => Phase(ReceiptIssued, ReviewInProgress, ReviewGenerated, ReviewFailed)
  }

  /** A command that adopts something inspected outside, by one transition. */
  datatype Adoption = ReconcileDeployment | ReconcileChallenge | AcknowledgeWorkerStage | ReconcileReceipt

  function AdoptedFrom(a: Adoption): Stage {
    match a
    case ReconcileDeployment => DeploymentFailed
    case ReconcileChallenge => ChallengeFailed
    case AcknowledgeWorkerStage => ChallengeCreated
    case ReconcileReceipt => IssuanceFailed
  }

  function AdoptedTo(a: Adoption): Stage {
    match a
    case ReconcileDeployment => Deployed
    case ReconcileChallenge => ChallengeCreated
    case AcknowledgeWorkerStage => WorkerStageConfirmed
    case ReconcileReceipt => ReceiptIssued
  }

  /** Every transition a command attempts is allowed, and only the last files a record. */
  lemma CommandsAllowed(c: Command, a: Adoption)
    ensures var p := PhaseOf(c);
      && Allowed(Some(p.start), p.inProgress) && Allowed(Some(p.inProgress), p.done)
      && Allowed(Some(p.inProgress), p.failed)
      && RecordFor(p.inProgress) == RecordFor(p.failed) == None && RecordFor(p.done).Some?
    ensures Allowed(Some(AdoptedFrom(a)), AdoptedTo(a)) && RecordFor(AdoptedTo(a)).Some?
  {
  }

  // ---- The environment -----------------------------------------------------------------------

  /** Where the two writes of a transition stop. */
  datatype Stop = Completes | BeforeEvent | BeforeHead

  /** How a stretch of a command ends: normally, with an exception, or with the process. */
  datatype Ending = Returns | Raises | Killed

  /** Everything a command meets: its preliminary checks, its child, its writes, its closing checks. */
  datatype World = World(
    at: string, checks: bool, first: Stop, child: Ending, digest: string, second: Stop, secondKilled: bool,
    closing: Ending, third: Stop)

  /** The child returned and its result was recorded and rechecked. */
  predicate Smooth(w: World) {
    w.child == Returns && IsHex256(w.digest) && w.second == Completes && w.closing == Returns
  }

  /** The event that records the end was written. */
  predicate EndFiled(w: World) {
    w.child == Returns && IsHex256(w.digest) && w.second != BeforeEvent
  }

  /** The exception handler wrote the failure: the end was not recorded and the process lives. */
  predicate FailureFiled(w: World) {
    && !EndFiled(w) && w.third != BeforeEvent
    && (w.child == Raises || (w.child == Returns && !w.secondKilled))
  }

  /** The stages that the second half of a bracketed command adds to the journal. */
  function EndTrace(p: Phase, w: World): seq<Stage> {
    if EndFiled(w) then [p.done] else if FailureFiled(w) then [p.failed] else []
  }

  /** Whether it leaves the head current: the head is written after the last event. */
  predicate EndCurrent(w: World) {
    if EndFiled(w) then w.second == Completes else if FailureFiled(w) then w.third == Completes else true
  }

  /** The stages that a bracketed command adds, started where it may start. */
  function Trace(p: Phase, w: World): seq<Stage> {
    if !w.checks || w.first == BeforeEvent then []
    else if w.first == BeforeHead then [p.inProgress]
    else [p.inProgress] + EndTrace(p, w)
  }

  predicate TraceCurrent(w: World) {
    if !w.checks || w.first == BeforeEvent then true
    else if w.first == BeforeHead then false
    else EndCurrent(w)
  }

  // ---- Lemmas about the disk ------------------------------------------------------------------

  function NextEvent(at: string, s: State, to: Stage, digest: Option<string>): Event {
    Event(at, s.campaign, s.sequence + 1, Some(s.stage), to, Some(s.eventDigest), RecordFor(to), digest)
  }

  predicate PlainChar(c: char) {
    'a' <= c <= 'z' || '0' <= c <= '9' || c == '_'
  }

  predicate PlainName(name: string) {
    1 <= |name| <= 128 && 'a' <= name[0] <= 'z' && forall i | 0 <= i < |name| :: PlainChar(name[i])
  }

  lemma PlainNameValid(name: string)
    requires PlainName(name)
    ensures ValidName(name)
  {
    forall i | 1 <= i < |name|
      ensures IsAlphanumeric(name[i]) || name[i] in "._:-"
    {
      assert PlainChar(name[i]);
      assert "._:-"[1] == '_';
    }
  }

  lemma EarlyNames()
    ensures PlainName("deployment_record_sha256") && PlainName("retained_challenge_sha256")
  {
  }

  lemma MiddleNames()
    ensures PlainName("worker_stage_manifest_sha256") && PlainName("transcript_report_sha256")
  {
  }

  lemma LateNames()
    ensures PlainName("appraisal_report_sha256") && PlainName("receipt_file_sha256")
    ensures PlainName("review_candidates_sha256")
  {
  }

  lemma NamesValid(to: Stage)
    ensures RecordFor(to).Some? ==> ValidName(RecordFor(to).value)
  {
    EarlyNames();
    MiddleNames();
    LateNames();
    if RecordFor(to).Some? { PlainNameValid(RecordFor(to).value); }
  }

  lemma RecordForInjective(a: Stage, b: Stage)
    requires RecordFor(a).Some? && RecordFor(a) == RecordFor(b)
    ensures a == b
  {
    assert |RecordFor(a).value| == |RecordFor(b).value|;
    assert forall i | 0 <= i < |RecordFor(a).value| :: RecordFor(a).value[i] == RecordFor(b).value[i];
  }

  /** A stage's record is never on file before the stage is reached. */
  lemma RecordFresh(s: State, to: Stage)
    requires NamesAt(s.stage, s.records.Keys) && Allowed(Some(s.stage), to) && RecordFor(to).Some?
    ensures RecordFor(to).value !in s.records
  {
    if RecordFor(to).value in s.records.Keys {
      var gate: Stage :| Rank(gate) <= Rank(s.stage) && RecordFor(gate) == Some(RecordFor(to).value);
      RecordForInjective(gate, to);
      RankRises(s.stage, to);
      assert false;
    }
  }

  lemma NextEventChains(campaign: Campaign, hash: Event -> string, events: seq<Event>, s: State, e: Event)
    requires Derived(campaign, hash, events) == Some(s) && NamesAt(s.stage, s.records.Keys)
    requires e == NextEvent(e.at, s, e.to, e.recordDigest) && Allowed(Some(s.stage), e.to)
    requires RecordFor(e.to).Some? == e.recordDigest.Some?
    requires e.recordDigest.Some? ==> IsHex256(e.recordDigest.value)
    ensures var next := Derived(campaign, hash, events + [e]);
      && Folded(campaign, hash, events + [e]).Some? && next.Some?
      && next.value.stage == e.to && next.value.sequence == s.sequence + 1
      && next.value.records ==
           if e.recordName.Some? then s.records[e.recordName.value := e.recordDigest.value] else s.records
  {
    DerivedIsFold(campaign, hash, events);
    FoldedAppend(campaign, hash, events, e);
    NamesValid(e.to);
    if RecordFor(e.to).Some? { RecordFresh(s, e.to); }
    DerivedIsFold(campaign, hash, events + [e]);
  }

  /** What a transition does to the disk, stopping where it stops. */
  function AfterTransition(
    campaign: Campaign, hash: Event -> string, d: Disk, at: string, expected: Stage, to: Stage, digest: Option<string>,
    stop: Stop): Disk
  {
    if !Accepts(campaign, hash, d, expected, digest) || stop == BeforeEvent then d
    else
      var events := d.journal.value + [NextEvent(at, d.head.value, to, digest)];
      Disk(Some(events), if stop == BeforeHead then d.head else Derived(campaign, hash, events))
  }

  predicate Accepts(campaign: Campaign, hash: Event -> string, d: Disk, expected: Stage, digest: Option<string>) {
    Current(campaign, hash, d) && d.head.value.stage == expected && (digest.Some? ==> IsHex256(digest.value))
  }

  /** A completed transition advances the stage by one event and files its record; one stopped before the
      head leaves the head one event behind, where recovery yields the completed transition's disk. */
  lemma TransitionEffect(
    campaign: Campaign, hash: Event -> string, d: Disk, at: string, expected: Stage, to: Stage, digest: Option<string>)
    requires Accepts(campaign, hash, d, expected, digest) && NamesAt(expected, d.head.value.records.Keys)
    requires Allowed(Some(expected), to) && RecordFor(to).Some? == digest.Some?
    ensures var done := AfterTransition(campaign, hash, d, at, expected, to, digest, Completes);
      && Appended(d, done, [to]) && Current(campaign, hash, done) && done.head.value.stage == to
      && done.head.value.records == WithRecord(d.head.value.records, to, digest)
      && var written := done.journal.value[|d.journal.value|];
         written.at == at && written.recordName == RecordFor(to) && written.recordDigest == digest
    ensures var crashed := AfterTransition(campaign, hash, d, at, expected, to, digest, BeforeHead);
      && Appended(d, crashed, [to]) && Lagging(campaign, hash, crashed) && !Current(campaign, hash, crashed)
      && Recovered(campaign, hash, crashed) == AfterTransition(campaign, hash, d, at, expected, to, digest, Completes)
  {
    var s, events := d.head.value, d.journal.value;
    var e := NextEvent(at, s, to, digest);
    NextEventChains(campaign, hash, events, s, e);
    var crashed := AfterTransition(campaign, hash, d, at, expected, to, digest, BeforeHead);
    assert crashed.journal.value[..|events|] == events;
    LaggingNotCurrent(campaign, hash, crashed);
  }

  function WithRecord(records: map<string, string>, to: Stage, digest: Option<string>): map<string, string> {
    if RecordFor(to).Some? && digest.Some? then records[RecordFor(to).value := digest.value] else records
  }

  /** The longest way through: both reconciliations of a failure, and every record. */
  function LongWay(i: nat): Stage {
    match i
    case 0 => Initialized
    case 1 => DeploymentInProgress
    case 2 => DeploymentFailed
    case 3 => Deployed
    case 4 => ChallengeInProgress
    case 5 => ChallengeFailed
    case 6 => ChallengeCreated
    case 7 => WorkerStageConfirmed
    case 8 => IngestionInProgress
    case 9 => PackageVerified
    case 10 => AppraisalInProgress
    case 11 => AppraisalPrechecked
    case 12 => IssuanceInProgress
    case 13 => IssuanceFailed
    case 14 => ReceiptIssued
    case 15 => ReviewInProgress
    case _ => ReviewGenerated
  }

  predicate Follows(stages: seq<Stage>, i: nat)
    requires i < |stages|
  {
    Allowed(if i == 0 then None else Some(stages[i - 1]), stages[i])
  }

  predicate Route(stages: seq<Stage>) {
    forall i: nat | i < |stages| :: Follows(stages, i)
  }

  lemma RouteFront(stages: seq<Stage>)
    requires Route(stages) && stages != []
    ensures Route(stages[..|stages| - 1]) && Follows(stages, |stages| - 1)
  {
    var front := stages[..|stages| - 1];
    forall i: nat | i < |front|
      ensures Follows(front, i)
    {
      assert Follows(stages, i);
    }
  }

  /** Along any allowed route there is a journal that derives, filing each stage's record. */
  lemma {:induction false} RouteDerives(campaign: Campaign, hash: Event -> string, stages: seq<Stage>, digest: string)
    returns (events: seq<Event>)
    requires Route(stages) && stages != [] && IsHex256(digest)
    ensures |events| == |stages| && Derived(campaign, hash, events).Some?
    ensures var s := Derived(campaign, hash, events).value;
      s.stage == stages[|stages| - 1] && NamesAt(s.stage, s.records.Keys)
    decreases |stages|
  {
    var last := |stages| - 1;
    var to := stages[last];
    RouteFront(stages);
    if last == 0 {
      var e := Event("", campaign, 0, None, to, None, None, None);
      events := [e];
      assert stages[0] == Initialized;
      FoldedAppend(campaign, hash, [], e);
      assert [] + [e] == [e];
      DerivedIsFold(campaign, hash, [e]);
      NoNames();
    } else {
      var front := RouteDerives(campaign, hash, stages[..last], digest);
      var s := Derived(campaign, hash, front).value;
      var e := NextEvent("", s, to, if RecordFor(to).Some? then Some(digest) else None);
      assert Allowed(Some(stages[last - 1]), to);
      NextEventChains(campaign, hash, front, s, e);
      events := front + [e];
      RecordsGrow(s, Derived(campaign, hash, events).value, e);
    }
  }

  lemma RecordsGrow(s: State, next: State, e: Event)
    requires NamesAt(s.stage, s.records.Keys) && Allowed(Some(s.stage), e.to) && next.stage == e.to
    requires e.recordName == RecordFor(e.to) && e.recordName.Some? == e.recordDigest.Some?
    requires next.records ==
      if e.recordName.Some? then s.records[e.recordName.value := e.recordDigest.value] else s.records
    ensures NamesAt(next.stage, next.records.Keys)
  {
    NamesStep(s.stage, e.to, s.records.Keys);
    assert next.records.Keys
      == if e.recordName.Some? then s.records.Keys + {e.recordName.value} else s.records.Keys;
  }

  lemma LongWayAllowed(i: nat)
    requires i < 16
    ensures Allowed(Some(LongWay(i)), LongWay(i + 1))
  {
  }

  lemma LongestRoute(stages: seq<Stage>)
    requires |stages| == 17 && forall i: nat | i < 17 :: stages[i] == LongWay(i)
    ensures Route(stages)
  {
    forall i: nat | i < 17
      ensures Follows(stages, i)
    {
      if i > 0 { LongWayAllowed(i - 1); }
    }
  }

  /** SEVENTEEN IS ATTAINED. Some derivable journal has seventeen events and ends with the review generated. */
  lemma LongestJournal(campaign: Campaign, hash: Event -> string, digest: string) returns (events: seq<Event>)
    requires IsHex256(digest)
    ensures |events| == 17 && Derived(campaign, hash, events).Some?
    ensures Derived(campaign, hash, events).value.stage == ReviewGenerated
  {
    var stages := seq(17, i requires 0 <= i => LongWay(i));
    LongestRoute(stages);
    events := RouteDerives(campaign, hash, stages, digest);
  }

  /** The later journal is the earlier one and events that reached these stages. */
  predicate Appended(before: Disk, after: Disk, stages: seq<Stage>) {
    && before.journal.Some? && after.journal.Some? && before.journal.value <= after.journal.value
    && |after.journal.value| == |before.journal.value| + |stages|
    && forall k | 0 <= k < |stages| :: after.journal.value[|before.journal.value| + k].to == stages[k]
  }

  /** The four traces a bracketed command can leave. */
  predicate Bracketed(p: Phase, before: Disk, after: Disk) {
    || Appended(before, after, []) || Appended(before, after, [p.inProgress])
    || Appended(before, after, [p.inProgress, p.done]) || Appended(before, after, [p.inProgress, p.failed])
  }

  lemma TraceIsBracketed(p: Phase, w: World, before: Disk, after: Disk)
    requires Appended(before, after, Trace(p, w))
    ensures Bracketed(p, before, after)
  {
    assert [p.inProgress] + [] == [p.inProgress];
    assert [p.inProgress] + [p.done] == [p.inProgress, p.done];
    assert [p.inProgress] + [p.failed] == [p.inProgress, p.failed];
  }

  lemma NothingAppended(d: Disk)
    ensures d.journal.Some? ==> Appended(d, d, [])
  {
  }

  lemma AppendedTwice(a: Disk, b: Disk, c: Disk, first: seq<Stage>, second: seq<Stage>)
    requires Appended(a, b, first) && Appended(b, c, second)
    ensures Appended(a, c, first + second)
  {
    forall k | 0 <= k < |first + second|
      ensures c.journal.value[|a.journal.value| + k].to == (first + second)[k]
    {
      if k < |first| {
        assert c.journal.value[|a.journal.value| + k] == b.journal.value[|a.journal.value| + k];
      } else {
        assert c.journal.value[|b.journal.value| + (k - |first|)].to == second[k - |first|];
      }
    }
  }

  /** What recording the end of a bracketed command does. */
  lemma DoneEffect(campaign: Campaign, hash: Event -> string, start: Disk, p: Phase, w: World)
    requires Accepts(campaign, hash, start, p.inProgress, None) && NamesAt(p.inProgress, start.head.value.records.Keys)
    requires Allowed(Some(p.inProgress), p.done) && RecordFor(p.done).Some?
    ensures var after := AfterTransition(campaign, hash, start, w.at, p.inProgress, p.done, Some(w.digest), w.second);
      && (if IsHex256(w.digest) && w.second != BeforeEvent
          then Appended(start, after, [p.done]) && !Accepts(campaign, hash, after, p.inProgress, None)
          else after == start)
      && (IsHex256(w.digest) && w.second != BeforeEvent ==>
            (Current(campaign, hash, after) <==> w.second == Completes))
      && (IsHex256(w.digest) && w.second == Completes ==>
            && Current(campaign, hash, after) && after.head.value.stage == p.done
            && after.head.value.records == WithRecord(start.head.value.records, p.done, Some(w.digest)))
  {
    if IsHex256(w.digest) {
      TransitionEffect(campaign, hash, start, w.at, p.inProgress, p.done, Some(w.digest));
      RankRises(p.inProgress, p.done);
    }
  }

  /** The exception handler records the failure only if the end was not recorded first. */
  lemma HandlerEffect(campaign: Campaign, hash: Event -> string, start: Disk, second: Disk, p: Phase, w: World)
    requires Accepts(campaign, hash, start, p.inProgress, None) && NamesAt(p.inProgress, start.head.value.records.Keys)
    requires Allowed(Some(p.inProgress), p.failed) && RecordFor(p.failed).None?
    requires second == start
      || (Appended(start, second, [p.done]) && !Accepts(campaign, hash, second, p.inProgress, None))
    ensures var after := AfterTransition(campaign, hash, second, w.at, p.inProgress, p.failed, None, w.third);
      && (second != start ==> after == second)
      && (second == start ==>
            if w.third == BeforeEvent then after == start
            else Appended(start, after, [p.failed]) && (Current(campaign, hash, after) <==> w.third == Completes))
      && (second == start && w.third == Completes ==>
            Current(campaign, hash, after) && after.head.value.stage == p.failed)
  {
    TransitionEffect(campaign, hash, start, w.at, p.inProgress, p.failed, None);
  }

  // ---- The operator ------------------------------------------------------------------------------

  class Orchestrator {
    const campaign: Campaign
    const hash: Event -> string
    var journal: Option<seq<Event>>
    var head: Option<State>
    ghost var trace: seq<Disk>

    function OnDisk(): Disk
      reads this
    {
      Disk(journal, head)
    }

    /** The disk is the last of a history of atomic writes. */
    ghost predicate Valid()
      reads this
    {
      History(campaign, hash, trace) && trace[|trace| - 1] == OnDisk()
    }

    /** The head can be trusted. */
    predicate InOrder()
      reads this
    {
      Current(campaign, hash, OnDisk())
    }

    constructor (campaign: Campaign, hash: Event -> string)
      ensures Valid() && this.campaign == campaign && this.hash == hash && OnDisk() == BLANK
    {
      this.campaign := campaign;
      this.hash := hash;
      journal := None;
      head := None;
      trace := [BLANK];
    }

    /** Whatever the commands did and wherever they stopped, the disk is safe. */
    lemma ValidIsSafe()
      requires Valid()
      ensures Safe(campaign, hash, OnDisk())
      ensures InOrder() ==> NamesAt(head.value.stage, head.value.records.Keys)
    {
      HistorySafe(campaign, hash, trace, |trace| - 1, |trace| - 1);
    }

    /** Fold the journal from its first event. */
    method DeriveState() returns (state: Option<State>)
      ensures state == if journal.Some? then Derived(campaign, hash, journal.value) else None
    {
      if journal.None? || journal.value == [] {
        return None;
      }
      var events := journal.value;
      var fold := Fold(None, map[], None);
      for sequence := 0 to |events|
        invariant Folded(campaign, hash, events[..sequence]) == Some(fold)
      {
        var e := events[sequence];
        FoldedAppend(campaign, hash, events[..sequence], e);
        assert events[..sequence + 1] == events[..sequence] + [e];
        if !Chains(campaign, fold, sequence, e) {
          BrokenPrefix(campaign, hash, events, sequence + 1);
          return None;
        }
        fold := Extend(hash, fold, e);
      }
      assert events[..|events|] == events;
      DerivedIsFold(campaign, hash, events);
      state := Some(State(campaign, fold.previous.value, fold.records, |events| - 1, fold.stage.value));
    }

    /** The cached head, if it agrees with its journal. */
    method LoadState() returns (state: Option<State>)
      ensures state == if InOrder() then head else None
    {
      var expected := DeriveState();
      state := if expected.Some? && head == expected then head else None;
    }

    // The three atomic writes.

    method MakeDirectory()
      requires Valid() && OnDisk() == BLANK
      modifies this
      ensures Valid() && OnDisk() == Disk(Some([]), None)
    {
      journal := Some([]);
      trace := trace + [OnDisk()];
    }

    method WriteEvent(e: Event)
      requires Valid() && (Stranded(OnDisk()) || InOrder()) && e.recordName == RecordFor(e.to)
      requires Folded(campaign, hash, journal.value + [e]).Some?
      modifies this
      ensures Valid() && OnDisk() == Disk(Some(old(journal.value) + [e]), old(head))
      ensures Lagging(campaign, hash, OnDisk())
    {
      ghost var after := Disk(Some(journal.value + [e]), head);
      ValidIsSafe();
      EventIsWrite(campaign, hash, OnDisk(), e, after);
      EventKeepsRecords(campaign, hash, OnDisk(), e, after);
      HistoryExtends(campaign, hash, trace, after);
      journal := Some(journal.value + [e]);
      trace := trace + [OnDisk()];
    }

    method WriteHead(state: State)
      requires Valid() && journal.Some? && Derived(campaign, hash, journal.value) == Some(state)
      modifies this
      ensures Valid() && OnDisk() == Disk(old(journal), Some(state)) && InOrder()
    {
      head := Some(state);
      trace := trace + [OnDisk()];
    }

    /** The first command. A crash after the directory leaves it stranded; after the event, lagging. */
    method InitializeState(at: string, directoryOnly: bool, eventOnly: bool) returns (state: Option<State>)
      requires Valid()
      modifies this
      ensures Valid()
      ensures old(OnDisk()) != BLANK ==> OnDisk() == old(OnDisk()) && (state.Some? <==> InOrder())
      ensures old(OnDisk()) == BLANK ==>
        if directoryOnly then Stranded(OnDisk())
        else if eventOnly then Lagging(campaign, hash, OnDisk()) && |journal.value| == 1
        else InOrder() && head.value.stage == Initialized
      ensures old(OnDisk()) == BLANK ==> (state.Some? <==> !directoryOnly && !eventOnly)
      ensures old(OnDisk()) == BLANK && !directoryOnly ==> journal.value[0].at == at
      ensures state.Some? ==> InOrder() && state == head
    {
      if head.Some? || journal.Some? {
        state := LoadState();
        return;
      }
      MakeDirectory();
      if directoryOnly {
        return None;
      }
      var e := Event(at, campaign, 0, None, Initialized, None, None, None);
      FoldedAppend(campaign, hash, [], e);
      DerivedIsFold(campaign, hash, [e]);
      assert [] + [e] == [e];
      WriteEvent(e);
      if eventOnly {
        return None;
      }
      state := DeriveState();
      WriteHead(state.value);
    }

    /** Recovery makes the head current whenever there is an event, and changes nothing else. */
    method RecoverStateHead() returns (state: Option<State>)
      requires Valid()
      modifies this
      ensures Valid()
      ensures journal == old(journal)
      ensures journal.Some? && journal.value != [] ==>
        InOrder() && state == head && OnDisk() == Recovered(campaign, hash, old(OnDisk()))
      ensures !(journal.Some? && journal.value != []) ==> OnDisk() == old(OnDisk()) && state.None?
    {
      ValidIsSafe();
      state := DeriveState();
      if state.None? {
        return;
      }
      WriteHead(state.value);
    }

    /** One transition: load, check, write the event, write the head. */
    method Transition(at: string, expected: Stage, target: Stage, digest: Option<string>, stop: Stop)
      returns (ok: bool)
      requires Valid() && Allowed(Some(expected), target) && RecordFor(target).Some? == digest.Some?
      modifies this
      ensures Valid()
      ensures OnDisk() == AfterTransition(campaign, hash, old(OnDisk()), at, expected, target, digest, stop)
      ensures ok <==> Accepts(campaign, hash, old(OnDisk()), expected, digest) && stop == Completes
    {
      var accepted := Admit(expected, target, digest);
      if accepted.None? {
        return false;
      }
      ok := Commit(at, accepted.value, target, digest, stop);
    }

    /** Load the head and check the stage and the record. */
    method Admit(expected: Stage, target: Stage, digest: Option<string>) returns (state: Option<State>)
      requires Valid() && Allowed(Some(expected), target) && RecordFor(target).Some? == digest.Some?
      ensures state == if Accepts(campaign, hash, OnDisk(), expected, digest) then head else None
    {
      var loaded := LoadState();
      if loaded.None? || loaded.value.stage != expected {
        return None;
      }
      var acceptable := RecordAcceptable(loaded.value, target, digest);
      state := if acceptable then loaded else None;
    }

    /** The checks on the record; its name is always valid and new. */
    method RecordAcceptable(s: State, target: Stage, digest: Option<string>) returns (ok: bool)
      requires Valid() && InOrder() && head == Some(s)
      requires Allowed(Some(s.stage), target) && RecordFor(target).Some? == digest.Some?
      ensures ok <==> (digest.Some? ==> IsHex256(digest.value))
    {
      if digest.None? {
        return true;
      }
      ValidIsSafe();
      RecordFresh(s, target);
      NamesValid(target);
      if RecordFor(target).value in s.records || !ValidName(RecordFor(target).value) {
        assert false; // "state record is invalid or already exists"
      }
      ok := IsHex256(digest.value);
    }

    /** The two writes. */
    method Commit(at: string, s: State, target: Stage, digest: Option<string>, stop: Stop) returns (ok: bool)
      requires Valid() && head == Some(s) && Accepts(campaign, hash, OnDisk(), s.stage, digest)
      requires Allowed(Some(s.stage), target) && RecordFor(target).Some? == digest.Some?
      modifies this
      ensures Valid()
      ensures OnDisk() == AfterTransition(campaign, hash, old(OnDisk()), at, s.stage, target, digest, stop)
      ensures ok <==> stop == Completes
    {
      if stop == BeforeEvent {
        return false;
      }
      ValidIsSafe();
      var e := NextEvent(at, s, target, digest);
      NextEventChains(campaign, hash, journal.value, s, e);
      WriteEvent(e);
      if stop == BeforeHead {
        return false;
      }
      var next := DeriveState();
      WriteHead(next.value);
      ok := true;
    }

    /** A bracketed command. It does nothing unless the head is current and at its start; it reaches its
        end only with its record on file; and it leaves one of four traces in the journal. */
    method Run(c: Command, w: World) returns (ok: bool)
      requires Valid()
      modifies this
      ensures Valid()
      ensures !old(InOrder()) ==> !ok && OnDisk() == old(OnDisk())
      ensures old(InOrder()) && old(head.value.stage) != PhaseOf(c).start ==>
        OnDisk() == old(OnDisk()) && (ok <==> old(head.value.stage) == PhaseOf(c).done && w.checks)
      ensures old(InOrder()) && old(head.value.stage) == PhaseOf(c).start ==>
        && (ok <==> w.checks && w.first == Completes && Smooth(w))
        && Appended(old(OnDisk()), OnDisk(), Trace(PhaseOf(c), w)) && (InOrder() <==> TraceCurrent(w))
      ensures ok ==> InOrder() && head.value.stage == PhaseOf(c).done
      ensures old(InOrder()) && ok && OnDisk() != old(OnDisk()) ==>
        head.value.records == WithRecord(old(head.value.records), PhaseOf(c).done, Some(w.digest))
      ensures old(InOrder()) ==> Bracketed(PhaseOf(c), old(OnDisk()), OnDisk())
    {
      var p := PhaseOf(c);
      CommandsAllowed(c, ReconcileReceipt);
      ghost var start := OnDisk();
      var loaded := LoadState();
      NothingAppended(start);
      if loaded.None? {
        return false;
      }
      if loaded.value.stage == p.done {
        return w.checks;
      }
      if loaded.value.stage != p.start || !w.checks {
        return false;
      }
      ok := Bracket(p, w);
      TraceIsBracketed(p, w, start, OnDisk());
    }

    /** From its start, with the checks passed: the first transition and the second half. */
    method Bracket(p: Phase, w: World) returns (ok: bool)
      requires Valid() && InOrder() && head.value.stage == p.start && w.checks
      requires Allowed(Some(p.start), p.inProgress) && RecordFor(p.inProgress).None?
      requires Allowed(Some(p.inProgress), p.done) && Allowed(Some(p.inProgress), p.failed)
      requires RecordFor(p.done).Some? && RecordFor(p.failed).None?
      modifies this
      ensures Valid()
      ensures ok <==> w.first == Completes && Smooth(w)
      ensures Appended(old(OnDisk()), OnDisk(), Trace(p, w)) && (InOrder() <==> TraceCurrent(w))
      ensures ok ==>
        && InOrder() && head.value.stage == p.done
        && head.value.records == WithRecord(old(head.value.records), p.done, Some(w.digest))
    {
      ghost var start := OnDisk();
      NothingAppended(start);
      ValidIsSafe();
      TransitionEffect(campaign, hash, OnDisk(), w.at, p.start, p.inProgress, None);
      var began := Transition(w.at, p.start, p.inProgress, None, w.first);
      if !began {
        return false;
      }
      ghost var middle := OnDisk();
      ok := Finish(p, w);
      AppendedTwice(start, middle, OnDisk(), [p.inProgress], EndTrace(p, w));
    }

    /** The second half: the child, its record, and on an exception the attempt to record the failure. */
    method Finish(p: Phase, w: World) returns (ok: bool)
      requires Valid() && InOrder() && head.value.stage == p.inProgress
      requires Allowed(Some(p.inProgress), p.done) && Allowed(Some(p.inProgress), p.failed)
      requires RecordFor(p.done).Some? && RecordFor(p.failed).None?
      modifies this
      ensures Valid()
      ensures ok <==> Smooth(w)
      ensures Appended(old(OnDisk()), OnDisk(), EndTrace(p, w)) && (InOrder() <==> EndCurrent(w))
      ensures FailureFiled(w) && w.third == Completes ==> head.value.stage == p.failed
      ensures ok ==>
        && InOrder() && head.value.stage == p.done
        && head.value.records == WithRecord(old(head.value.records), p.done, Some(w.digest))
      ensures Appended(old(OnDisk()), OnDisk(), []) || Appended(old(OnDisk()), OnDisk(), [p.done])
        || Appended(old(OnDisk()), OnDisk(), [p.failed])
    {
      ghost var start := OnDisk();
      assert Appended(start, start, []);
      ValidIsSafe();
      if w.child == Killed {
        return false;
      }
      if w.child == Returns {
        DoneEffect(campaign, hash, start, p, w);
        var recorded := Transition(w.at, p.inProgress, p.done, Some(w.digest), w.second);
        if recorded && w.closing == Returns {
          return true;
        }
        if (recorded && w.closing == Killed) || (!recorded && w.secondKilled) {
          return false;
        }
      }
      HandlerEffect(campaign, hash, start, OnDisk(), p, w);
      var failureRecorded := Transition(w.at, p.inProgress, p.failed, None, w.third);
      ok := false;
    }

    /** Adoption by one transition; acknowledging a worker stage twice is harmless. */
    method Adopt(a: Adoption, at: string, checks: bool, digest: string, stop: Stop) returns (ok: bool)
      requires Valid()
      modifies this
      ensures Valid()
      ensures !old(InOrder()) ==> !ok && OnDisk() == old(OnDisk())
      ensures old(InOrder()) && old(head.value.stage) != AdoptedFrom(a) ==>
        && OnDisk() == old(OnDisk())
        && (ok <==> a == AcknowledgeWorkerStage && old(head.value.stage) == WorkerStageConfirmed && checks)
      ensures old(InOrder()) && old(head.value.stage) == AdoptedFrom(a) ==>
        && (ok <==> checks && IsHex256(digest) && stop == Completes)
        && (if checks && IsHex256(digest) && stop != BeforeEvent
            then Appended(old(OnDisk()), OnDisk(), [AdoptedTo(a)]) && (InOrder() <==> stop == Completes)
            else OnDisk() == old(OnDisk()))
      ensures ok ==> InOrder() && head.value.stage == AdoptedTo(a)
      ensures old(InOrder()) && ok && OnDisk() != old(OnDisk()) ==>
        head.value.records == WithRecord(old(head.value.records), AdoptedTo(a), Some(digest))
      ensures OnDisk() == old(OnDisk()) || Appended(old(OnDisk()), OnDisk(), [AdoptedTo(a)])
    {
      CommandsAllowed(Deploy, a);
      var loaded := LoadState();
      if loaded.None? {
        return false;
      }
      if a == AcknowledgeWorkerStage && loaded.value.stage == WorkerStageConfirmed {
        return checks;
      }
      if loaded.value.stage != AdoptedFrom(a) || !checks {
        return false;
      }
      ValidIsSafe();
      if IsHex256(digest) {
        TransitionEffect(campaign, hash, OnDisk(), at, AdoptedFrom(a), AdoptedTo(a), Some(digest));
      }
      ok := Transition(at, AdoptedFrom(a), AdoptedTo(a), Some(digest), stop);
    }
  }

  lemma BrokenPrefix(campaign: Campaign, hash: Event -> string, events: seq<Event>, n: nat)
    requires n <= |events| && Folded(campaign, hash, events[..n]).None?
    ensures Derived(campaign, hash, events).None?
  {
    if Folded(campaign, hash, events).Some? {
      PrefixFolds(campaign, hash, events, n);
    }
  }
}
