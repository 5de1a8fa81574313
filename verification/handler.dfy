/** The `swarm_hub` tool: argument validation and the per-action effect of
    `SwarmHubHandler::handle` on the hub state. Each call is one atomic step
    from a hub state to a reply and the next hub state. */
module HubHandler {
  import opened Wrappers
  import opened Bounded
  import opened Text
  import opened Paths
  import Hub
  import Registry
  import SwarmConfig

  datatype Action =
    | LoungeAppend(text: string)
    | LoungeRead(limit: Option<nat>)
    | LoungeClear
    | VoteCreate(topic: string, options: seq<string>)
    | VoteCast(voteId: string, option: string, weight: Option<i32>)
    | VoteStatus(statusId: Option<string>)
    | TimerStart(timerLabel: Option<string>, durationMs: Option<nat>)
    | TimerStop
    | TimerStatus
    | LeakTrackerSetPath(path: Path, loadExisting: Option<bool>)
    | LeakTrackerAdd(labelText: string, value: string, context: Option<string>,
                     severity: Option<string>)
    | LeakTrackerList(limit: Option<nat>)
    | LeakTrackerClear
    | TaskAdd(title: string, status: Option<string>, notes: Option<string>)
    | TaskList(limit: Option<nat>)
    | EvidenceAdd(summary: string, severity: Option<string>, source: Option<string>)
    | EvidenceList(limit: Option<nat>)
    | DecisionAdd(summary: string, rationale: Option<string>)
    | DecisionList(limit: Option<nat>)
    | ArtifactAdd(labelText: string, artifactPath: Option<string>)
    | ArtifactList(limit: Option<nat>)

  /** What the environment supplies to one call: the calling thread, the
      clock, a fresh UUID, and for `leak_tracker_set_path` the parsed
      contents of the named file when it could be read. */
  datatype Call = Call(
    caller: Registry.ThreadId,
    nowMs: nat,
    freshId: string,
    leakFile: Option<seq<Hub.LeakEntry>>)

  /** The JSON payload of a successful call. */
  datatype Reply =
    | Done
    | LoungeEntries(lounge: seq<Hub.LoungeEntry>)
    | VoteReply(vote: Hub.Vote)
    | Votes(votes: seq<Hub.Vote>)
    | TimerReply(timer: Hub.Timer)
    | LeakEntries(leaks: seq<Hub.LeakEntry>)
    | TaskReply(task: Hub.TaskEntry)
    | Tasks(tasks: seq<Hub.TaskEntry>)
    | EvidenceReply(evidence: Hub.EvidenceEntry)
    | EvidenceEntries(evidenceList: seq<Hub.EvidenceEntry>)
    | DecisionReply(decision: Hub.DecisionEntry)
    | Decisions(decisions: seq<Hub.DecisionEntry>)
    | ArtifactReply(artifact: Hub.ArtifactEntry)
    | Artifacts(artifacts: seq<Hub.ArtifactEntry>)

  datatype Outcome = Outcome(reply: Result<Reply, string>, hub: Hub.HubState)

  // ---------------------------------------------------------------------
  // Listing
  // ---------------------------------------------------------------------

  function Reverse<T>(xs: seq<T>): (r: seq<T>)
    ensures |r| == |xs|
    ensures forall i | 0 <= i < |xs| :: r[i] == xs[|xs| - 1 - i]
  {
    if |xs| == 0 then [] else [xs[|xs| - 1]] + Reverse(xs[..|xs| - 1])
  }

  /** `iter().rev().take(limit)`, the limit defaulting to the length. */
  function NewestFirst<T>(xs: seq<T>, limit: Option<nat>): (r: seq<T>)
    ensures |r| == Min(limit.GetOr(|xs|), |xs|)
    ensures forall i | 0 <= i < |r| :: r[i] == xs[|xs| - 1 - i]
  {
    var n := Min(limit.GetOr(|xs|), |xs|);
    Reverse(xs)[..n]
  }

  /** Without a limit a listing is the whole store reversed, and reversing
      it again gives the store in insertion order. */
  lemma NewestFirstUnlimited<T>(xs: seq<T>)
    ensures NewestFirst(xs, None) == Reverse(xs)
    ensures Reverse(NewestFirst(xs, None)) == xs
  {
  }

  /** The entry just appended is the first one a listing returns, and the
      rest of the listing is the listing before the append. */
  lemma NewestFirstAfterAppend<T>(xs: seq<T>, e: T, limit: nat)
    requires limit > 0
    ensures NewestFirst(xs + [e], Some(limit)) == [e] + NewestFirst(xs, Some(limit - 1))
  {
    var a := NewestFirst(xs + [e], Some(limit));
    var b := [e] + NewestFirst(xs, Some(limit - 1));
    assert |a| == |b|;
    forall i | 0 <= i < |a| ensures a[i] == b[i] {
      if i > 0 {
        assert (xs + [e])[|xs| - i] == xs[|xs| - 1 - (i - 1)];
      }
    }
  }

  // ---------------------------------------------------------------------
  // Votes
  // ---------------------------------------------------------------------

  /** `default_vote_weight`: 2 for a registered caller whose role is
      "scholar" in any ASCII case or whose tier is at least 2, else 1 (also
      for a caller the registry does not know). */
  function DefaultVoteWeight(reg: Registry.Registry, caller: Registry.ThreadId): (w: i32)
    ensures w == 1 || w == 2
    ensures w == 2 <==>
              && Registry.Get(reg, caller).Some?
              && (EqIgnoreAsciiCase(Registry.Get(reg, caller).value.role, "scholar")
                  || Registry.Get(reg, caller).value.tier >= 2)
  {
    match Registry.Get(reg, caller)
    case None => 1
    case Some(info) =>
      if EqIgnoreAsciiCase(info.role, "scholar") || info.tier >= 2 then 2 else 1
  }

  /** An agent registered under the default Scholar role weighs 2 and one
      registered as Scout weighs 1. */
  lemma DefaultVoteWeightByRole(reg: Registry.Registry, caller: Registry.ThreadId,
                                model: Option<string>)
    ensures DefaultVoteWeight(Registry.RegisterRoot(reg, caller,
              SwarmConfigDefaultRole(2), model), caller) == 2
    ensures DefaultVoteWeight(Registry.RegisterRoot(reg, caller,
              SwarmConfigDefaultRole(0), model), caller) == 1
  {
    var scout := SwarmConfigDefaultRole(0);
    var r := Registry.RegisterRoot(reg, caller, scout, model);
    assert Registry.Get(r, caller).value.role == "Scout";
    assert !EqIgnoreAsciiCase("Scout", "scholar") by {
      assert ToAsciiLower("Scout"[2]) != ToAsciiLower("scholar"[2]);
    }
  }

  function SwarmConfigDefaultRole(i: nat): SwarmConfig.Role
    requires i < 3
  {
    SwarmConfig.DefaultRoles()[i]
  }

  /** The `vote_cast` step: look the vote up, settle the weight, append one
      ballot and upsert the vote. */
  function CastVote(s: Hub.HubState, reg: Registry.Registry, call: Call, voteId: string,
                    option: string, weight: Option<i32>): (o: Outcome)
    ensures Hub.FindVote(s.votes, voteId).None? ==> o == Outcome(Failure("vote_id not found"), s)
    ensures Hub.FindVote(s.votes, voteId).Some? && weight.Some? && weight.value <= 0 ==>
              o == Outcome(Failure("vote weight must be positive"), s)
    ensures o.reply.Success? <==>
              Hub.FindVote(s.votes, voteId).Some? && (weight.None? || weight.value > 0)
    ensures o.reply.Success? ==>
              o.reply.value.VoteReply? && o.reply.value.vote.id == voteId &&
              o.reply.value.vote.casts ==
                Hub.FindVote(s.votes, voteId).value.casts +
                [Hub.VoteCast(option, weight.GetOr(DefaultVoteWeight(reg, call.caller)),
                              Some(call.caller))] &&
              Hub.FindVote(o.hub.votes, voteId) == Some(o.reply.value.vote)
    ensures o.reply.Success? ==> o.hub == Hub.UpsertVote(s, o.reply.value.vote)
  {
    match Hub.FindVote(s.votes, voteId)
    case None => Outcome(Failure("vote_id not found"), s)
    case Some(vote) =>
      if weight.Some? && weight.value <= 0 then
        Outcome(Failure("vote weight must be positive"), s)
      else
        var w := if weight.Some? then weight.value else DefaultVoteWeight(reg, call.caller);
        var updated := vote.(casts := vote.casts + [Hub.VoteCast(option, w, Some(call.caller))]);
        Hub.UpsertVoteLookup(s, updated, voteId);
        Outcome(Success(VoteReply(updated)), Hub.UpsertVote(s, updated))
  }

  // ---------------------------------------------------------------------
  // The handler
  // ---------------------------------------------------------------------

  /** `SwarmHubHandler::handle` for one parsed action. */
  function Handle(s: Hub.HubState, reg: Registry.Registry, call: Call, action: Action): Outcome
  {
    var author := Some(call.caller);
    match action
    case LoungeAppend(text) =>
      if IsBlank(text) then Outcome(Failure("lounge text must be non-empty"), s)
      else Outcome(Success(Done), Hub.LoungeAppend(s, Hub.LoungeEntry(text, author, call.nowMs)))
    case LoungeRead(limit) =>
      Outcome(Success(LoungeEntries(NewestFirst(s.lounge, limit))), s)
    case LoungeClear =>
      Outcome(Success(Done), Hub.LoungeClear(s))
    case VoteCreate(topic, options) =>
      if IsBlank(topic) || |options| == 0 then
        Outcome(Failure("vote topic and options are required"), s)
      else
        var vote := Hub.Vote(call.freshId, topic, options, call.nowMs, []);
        Outcome(Success(VoteReply(vote)), Hub.UpsertVote(s, vote))
    case VoteCast(voteId, option, weight) =>
      CastVote(s, reg, call, voteId, option, weight)
    case VoteStatus(statusId) =>
      var votes := if statusId.Some? then FilterVotes(s.votes, statusId.value) else s.votes;
      Outcome(Success(Votes(votes)), s)
    case TimerStart(timerLabel, durationMs) =>
      Outcome(Success(Done),
              Hub.SetTimer(s, Hub.Timer(timerLabel, durationMs, Some(call.nowMs), true)))
    case TimerStop =>
      var stopped := s.timer.(running := false, startedAtMs := None);
      Outcome(Success(TimerReply(stopped)), Hub.SetTimer(s, stopped))
    case TimerStatus =>
      Outcome(Success(TimerReply(s.timer)), s)
    case LeakTrackerSetPath(path, loadExisting) =>
      Outcome(Success(Done),
              Hub.LeakTrackerSetPath(s, path, loadExisting.GetOr(true), call.leakFile))
    case LeakTrackerAdd(labelText, value, context, severity) =>
      if IsBlank(labelText) || IsBlank(value) then
        Outcome(Failure("label and value are required"), s)
      else
        Outcome(Success(Done),
                Hub.LeakTrackerAdd(s, Hub.LeakEntry(call.freshId, labelText, value, context,
                                                    severity, call.nowMs, author)))
    case LeakTrackerList(limit) =>
      Outcome(Success(LeakEntries(NewestFirst(s.leakEntries, limit))), s)
    case LeakTrackerClear =>
      Outcome(Success(Done), Hub.LeakTrackerClear(s))
    case TaskAdd(title, status, notes) =>
      if IsBlank(title) then Outcome(Failure("task title is required"), s)
      else
        var task := Hub.TaskEntry(call.freshId, title, status.GetOr("pending"), author,
                                  notes, call.nowMs);
        Outcome(Success(TaskReply(task)), Hub.TaskAdd(s, task))
    case TaskList(limit) =>
      Outcome(Success(Tasks(NewestFirst(s.tasks, limit))), s)
    case EvidenceAdd(summary, severity, source) =>
      if IsBlank(summary) then Outcome(Failure("evidence summary is required"), s)
      else
        var entry := Hub.EvidenceEntry(call.freshId, summary, severity, source, call.nowMs);
        Outcome(Success(EvidenceReply(entry)), Hub.EvidenceAdd(s, entry))
    case EvidenceList(limit) =>
      Outcome(Success(EvidenceEntries(NewestFirst(s.evidence, limit))), s)
    case DecisionAdd(summary, rationale) =>
      if IsBlank(summary) then Outcome(Failure("decision summary is required"), s)
      else
        var entry := Hub.DecisionEntry(call.freshId, summary, rationale, call.nowMs);
        Outcome(Success(DecisionReply(entry)), Hub.DecisionAdd(s, entry))
    case DecisionList(limit) =>
      Outcome(Success(Decisions(NewestFirst(s.decisions, limit))), s)
    case ArtifactAdd(labelText, artifactPath) =>
      if IsBlank(labelText) then Outcome(Failure("artifact label is required"), s)
      else
        var entry := Hub.ArtifactEntry(call.freshId, labelText, artifactPath, call.nowMs);
        Outcome(Success(ArtifactReply(entry)), Hub.ArtifactAdd(s, entry))
    case ArtifactList(limit) =>
      Outcome(Success(Artifacts(NewestFirst(s.artifacts, limit))), s)
  }

  /** The votes carrying the given id, in order. */
  function FilterVotes(votes: seq<Hub.Vote>, id: string): (r: seq<Hub.Vote>)
    ensures forall v | v in r :: v.id == id && v in votes
    ensures forall i | 0 <= i < |votes| && votes[i].id == id :: votes[i] in r
  {
    if |votes| == 0 then []
    else
      var rest := FilterVotes(votes[1..], id);
      assert forall i | 1 <= i < |votes| :: votes[i] == votes[1..][i - 1];
      if votes[0].id == id then [votes[0]] + rest else rest
  }

  /** Filtering keeps order and multiplicity: it distributes over
      concatenation and keeps a single vote exactly when its id matches. */
  lemma {:induction false} FilterVotesAppend(a: seq<Hub.Vote>, b: seq<Hub.Vote>, id: string)
    ensures FilterVotes(a + b, id) == FilterVotes(a, id) + FilterVotes(b, id)
    ensures |a| == 1 ==> FilterVotes(a, id) == (if a[0].id == id then a else [])
  {
    if |a| > 0 {
      assert (a + b)[0] == a[0] && (a + b)[1..] == a[1..] + b;
      FilterVotesAppend(a[1..], b, id);
      var head := if a[0].id == id then [a[0]] else [];
      assert FilterVotes(a, id) == head + FilterVotes(a[1..], id);
      assert FilterVotes(a + b, id) == head + FilterVotes(a[1..] + b, id);
      assert head + (FilterVotes(a[1..], id) + FilterVotes(b, id)) ==
             (head + FilterVotes(a[1..], id)) + FilterVotes(b, id);
      if |a| == 1 {
        assert a == [a[0]] && a[1..] == [];
      }
    } else {
      assert a + b == b;
    }
  }

  /** With unique ids, as `upsert_vote` keeps them, the filter finds the
      same single vote as the hub's lookup, or nothing. */
  lemma {:induction false} FilterUniqueIsFind(votes: seq<Hub.Vote>, id: string)
    requires Hub.UniqueVoteIds(votes)
    ensures FilterVotes(votes, id) ==
            (if Hub.FindVote(votes, id).Some? then [Hub.FindVote(votes, id).value] else [])
  {
    if |votes| > 0 {
      var tail := votes[1..];
      assert Hub.UniqueVoteIds(tail) by {
        forall i, j | 0 <= i < j < |tail| ensures tail[i].id != tail[j].id {
          assert tail[i] == votes[i + 1] && tail[j] == votes[j + 1];
        }
      }
      FilterUniqueIsFind(tail, id);
      if votes[0].id == id {
        assert Hub.FindVote(tail, id).None?;
      } else {
        var r := Hub.VoteIndex(tail, id);
        assert Hub.VoteIndex(votes, id) == (if r.Some? then Some(r.value + 1) else None);
      }
    }
  }

  // ---------------------------------------------------------------------
  // Properties of the handler
  // ---------------------------------------------------------------------

  predicate IsRead(a: Action) {
    a.LoungeRead? || a.VoteStatus? || a.TimerStatus? || a.LeakTrackerList? ||
    a.TaskList? || a.EvidenceList? || a.DecisionList? || a.ArtifactList?
  }

  /** A rejected call leaves the hub untouched, and reads never change it. */
  lemma RejectedOrReadKeepsHub(s: Hub.HubState, reg: Registry.Registry, call: Call, a: Action)
    ensures Handle(s, reg, call, a).reply.Failure? ==> Handle(s, reg, call, a).hub == s
    ensures IsRead(a) ==> Handle(s, reg, call, a) .hub == s && Handle(s, reg, call, a).reply.Success?
  {
  }

  /** Only these actions can fail, and the add actions fail exactly when
      their required text is blank. */
  lemma FailsExactlyOnInvalidArguments(s: Hub.HubState, reg: Registry.Registry, call: Call, a: Action)
    ensures a.LoungeAppend? ==> (Handle(s, reg, call, a).reply.Failure? <==> IsBlank(a.text))
    ensures a.TaskAdd? ==> (Handle(s, reg, call, a).reply.Failure? <==> IsBlank(a.title))
    ensures a.EvidenceAdd? ==> (Handle(s, reg, call, a).reply.Failure? <==> IsBlank(a.summary))
    ensures a.DecisionAdd? ==> (Handle(s, reg, call, a).reply.Failure? <==> IsBlank(a.summary))
    ensures a.ArtifactAdd? ==> (Handle(s, reg, call, a).reply.Failure? <==> IsBlank(a.labelText))
    ensures a.LeakTrackerAdd? ==>
              (Handle(s, reg, call, a).reply.Failure? <==> IsBlank(a.labelText) || IsBlank(a.value))
    ensures a.VoteCreate? ==>
              (Handle(s, reg, call, a).reply.Failure? <==> IsBlank(a.topic) || |a.options| == 0)
    ensures a.VoteCast? ==>
              (Handle(s, reg, call, a).reply.Failure? <==>
                 Hub.FindVote(s.votes, a.voteId).None? ||
                 (a.weight.Some? && a.weight.value <= 0))
    ensures !(a.LoungeAppend? || a.TaskAdd? || a.EvidenceAdd? || a.DecisionAdd? ||
              a.ArtifactAdd? || a.LeakTrackerAdd? || a.VoteCreate? || a.VoteCast?) ==>
              Handle(s, reg, call, a).reply.Success?
  {
  }

  /** Every listing is newest first and at most `limit` long. */
  lemma ListingsAreNewestFirst(s: Hub.HubState, reg: Registry.Registry, call: Call, limit: Option<nat>)
    ensures Handle(s, reg, call, LoungeRead(limit)).reply ==
            Success(LoungeEntries(NewestFirst(s.lounge, limit)))
    ensures Handle(s, reg, call, TaskList(limit)).reply == Success(Tasks(NewestFirst(s.tasks, limit)))
    ensures Handle(s, reg, call, LeakTrackerList(limit)).reply ==
            Success(LeakEntries(NewestFirst(s.leakEntries, limit)))
    ensures Handle(s, reg, call, EvidenceList(limit)).reply ==
            Success(EvidenceEntries(NewestFirst(s.evidence, limit)))
    ensures Handle(s, reg, call, DecisionList(limit)).reply ==
            Success(Decisions(NewestFirst(s.decisions, limit)))
    ensures Handle(s, reg, call, ArtifactList(limit)).reply ==
            Success(Artifacts(NewestFirst(s.artifacts, limit)))
  {
    BoardListings(s, reg, call, limit);
    LeakListings(s, reg, call, limit);
    RecordListings(s, reg, call, limit);
  }

  lemma BoardListings(s: Hub.HubState, reg: Registry.Registry, call: Call, limit: Option<nat>)
    ensures Handle(s, reg, call, LoungeRead(limit)).reply ==
            Success(LoungeEntries(NewestFirst(s.lounge, limit)))
    ensures Handle(s, reg, call, TaskList(limit)).reply == Success(Tasks(NewestFirst(s.tasks, limit)))
  {
  }

  lemma LeakListings(s: Hub.HubState, reg: Registry.Registry, call: Call, limit: Option<nat>)
    ensures Handle(s, reg, call, LeakTrackerList(limit)).reply ==
            Success(LeakEntries(NewestFirst(s.leakEntries, limit)))
    ensures Handle(s, reg, call, EvidenceList(limit)).reply ==
            Success(EvidenceEntries(NewestFirst(s.evidence, limit)))
  {
  }

  lemma RecordListings(s: Hub.HubState, reg: Registry.Registry, call: Call, limit: Option<nat>)
    ensures Handle(s, reg, call, DecisionList(limit)).reply ==
            Success(Decisions(NewestFirst(s.decisions, limit)))
    ensures Handle(s, reg, call, ArtifactList(limit)).reply ==
            Success(Artifacts(NewestFirst(s.artifacts, limit)))
  {
  }

  /** A task added and then listed with limit 1 is what the add returned:
      pending unless a status was given, owned by the caller. */
  lemma TaskAddThenList(s: Hub.HubState, reg: Registry.Registry, call: Call,
                        title: string, notes: Option<string>)
    requires !IsBlank(title)
    ensures var o := Handle(s, reg, call, TaskAdd(title, None, notes));
            && o.reply.Success?
            && o.reply.value.task.status == "pending"
            && o.reply.value.task.owner == Some(call.caller)
            && Handle(o.hub, reg, call, TaskList(Some(1))).reply ==
               Success(Tasks([o.reply.value.task]))
  {
    var o := Handle(s, reg, call, TaskAdd(title, None, notes));
    NewestFirstAfterAppend(s.tasks, o.reply.value.task, 1);
  }

  /** A new vote has no ballots and, when its id is fresh, is appended. */
  lemma VoteCreateAppends(s: Hub.HubState, reg: Registry.Registry, call: Call,
                          topic: string, options: seq<string>)
    requires !IsBlank(topic) && |options| > 0
    requires Hub.FindVote(s.votes, call.freshId).None?
    ensures var o := Handle(s, reg, call, VoteCreate(topic, options));
            && o.reply == Success(VoteReply(Hub.Vote(call.freshId, topic, options, call.nowMs, [])))
            && o.hub.votes == s.votes + [o.reply.value.vote]
  {
  }

  /** Casting appends one ballot to the vote's list and keeps the ones
      before it, so the same voter casting twice leaves two ballots; the
      option is not checked against the vote's options. */
  lemma VoteCastAppendsBallot(s: Hub.HubState, reg: Registry.Registry, call: Call,
                              voteId: string, option: string, weight: Option<i32>)
    requires Hub.FindVote(s.votes, voteId).Some?
    requires weight.None? || weight.value > 0
    ensures var o := Handle(s, reg, call, VoteCast(voteId, option, weight));
            var before := Hub.FindVote(s.votes, voteId).value;
            var after := Hub.FindVote(o.hub.votes, voteId);
            && o.reply.Success?
            && after.Some?
            && after.value.casts ==
               before.casts + [Hub.VoteCast(option, weight.GetOr(DefaultVoteWeight(reg, call.caller)),
                                            Some(call.caller))]
            && after.value == before.(casts := after.value.casts)
  {
    var o := Handle(s, reg, call, VoteCast(voteId, option, weight));
    var before := Hub.FindVote(s.votes, voteId).value;
    Hub.UpsertVoteLookup(s, o.reply.value.vote, voteId);
  }

  /** Two casts by the same caller both count. */
  lemma RepeatedVoteCastAddsBallots(s: Hub.HubState, reg: Registry.Registry, call: Call,
                                    voteId: string, option: string)
    requires Hub.FindVote(s.votes, voteId).Some?
    ensures var o1 := Handle(s, reg, call, VoteCast(voteId, option, None));
            var o2 := Handle(o1.hub, reg, call, VoteCast(voteId, option, None));
            && o2.reply.Success?
            && Hub.FindVote(o2.hub.votes, voteId).Some?
            && |Hub.FindVote(o2.hub.votes, voteId).value.casts| ==
               |Hub.FindVote(s.votes, voteId).value.casts| + 2
  {
    VoteCastAppendsBallot(s, reg, call, voteId, option, None);
    var o1 := Handle(s, reg, call, VoteCast(voteId, option, None));
    VoteCastAppendsBallot(o1.hub, reg, call, voteId, option, None);
  }

  /** Stopping the timer keeps its label and duration and clears the start;
      starting it records the clock. */
  lemma TimerStartStop(s: Hub.HubState, reg: Registry.Registry, call: Call,
                       labelText: Option<string>, durationMs: Option<nat>)
    ensures var started := Handle(s, reg, call, TimerStart(labelText, durationMs)).hub;
            && started.timer == Hub.Timer(labelText, durationMs, Some(call.nowMs), true)
            && Handle(started, reg, call, TimerStop).hub.timer ==
               Hub.Timer(labelText, durationMs, None, false)
  {
  }

  /** The timer actions on any hub: a start replaces the timer with a
      running one started now; a stop clears the running flag and the start
      of whatever timer there is, keeping its label and duration, and replies
      with the stopped timer; a status query replies with the timer and
      changes nothing. No other part of the hub changes. */
  lemma TimerEffects(s: Hub.HubState, reg: Registry.Registry, call: Call,
                     labelText: Option<string>, durationMs: Option<nat>)
    ensures Handle(s, reg, call, TimerStart(labelText, durationMs)) ==
            Outcome(Success(Done), s.(timer := Hub.Timer(labelText, durationMs, Some(call.nowMs), true)))
    ensures var t := Hub.Timer(s.timer.labelText, s.timer.durationMs, None, false);
            Handle(s, reg, call, TimerStop) == Outcome(Success(TimerReply(t)), s.(timer := t))
    ensures Handle(s, reg, call, TimerStatus) == Outcome(Success(TimerReply(s.timer)), s)
  {
  }

  /** Task and vote writes on any hub: a task takes the given status or
      "pending", the caller as owner, the fresh id and the clock, and is
      appended to the tasks alone; a new vote is upserted under the fresh id
      and nothing else changes; a cast is exactly `CastVote`, whose contract
      gives its whole outcome. */
  lemma TaskVoteWriteEffects(s: Hub.HubState, reg: Registry.Registry, call: Call, title: string,
                             status: Option<string>, notes: Option<string>, topic: string,
                             options: seq<string>, voteId: string, option: string,
                             weight: Option<i32>)
    ensures !IsBlank(title) ==>
              var task := Hub.TaskEntry(call.freshId, title, status.GetOr("pending"),
                                        Some(call.caller), notes, call.nowMs);
              Handle(s, reg, call, TaskAdd(title, status, notes)) ==
              Outcome(Success(TaskReply(task)), s.(tasks := s.tasks + [task]))
    ensures !IsBlank(topic) && |options| > 0 ==>
              var vote := Hub.Vote(call.freshId, topic, options, call.nowMs, []);
              Handle(s, reg, call, VoteCreate(topic, options)) ==
              Outcome(Success(VoteReply(vote)), Hub.UpsertVote(s, vote))
    ensures Handle(s, reg, call, VoteCast(voteId, option, weight)) ==
            CastVote(s, reg, call, voteId, option, weight)
  {
  }

  /** With an id, a status query returns exactly the votes with that id. */
  lemma VoteStatusFilters(s: Hub.HubState, reg: Registry.Registry, call: Call, id: string)
    ensures var r := Handle(s, reg, call, VoteStatus(Some(id))).reply;
            && r.Success?
            && (forall v | v in r.value.votes :: v.id == id && v in s.votes)
            && (forall i | 0 <= i < |s.votes| && s.votes[i].id == id :: s.votes[i] in r.value.votes)
    ensures Hub.UniqueVoteIds(s.votes) ==>
              Handle(s, reg, call, VoteStatus(Some(id))).reply ==
              Success(Votes(if Hub.FindVote(s.votes, id).Some? then [Hub.FindVote(s.votes, id).value]
                            else []))
    ensures Handle(s, reg, call, VoteStatus(None)).reply == Success(Votes(s.votes))
  {
    if Hub.UniqueVoteIds(s.votes) {
      FilterUniqueIsFind(s.votes, id);
    }
  }

  /** A successful lounge write applies the hub's own mutator: the entry
      carries the caller as author and the clock's time. */
  lemma LoungeWriteEffects(s: Hub.HubState, reg: Registry.Registry, call: Call, text: string)
    ensures !IsBlank(text) ==>
              Handle(s, reg, call, LoungeAppend(text)) ==
              Outcome(Success(Done), Hub.LoungeAppend(s, Hub.LoungeEntry(text, Some(call.caller), call.nowMs)))
    ensures Handle(s, reg, call, LoungeClear) == Outcome(Success(Done), s.(lounge := []))
  {
  }

  /** Leak-tracker writes: setting the path loads the file unless told not
      to, an add records the fresh id, the clock and the caller, and a clear
      empties the entries and keeps the path. */
  lemma LeakWriteEffects(s: Hub.HubState, reg: Registry.Registry, call: Call, path: Path,
                         loadExisting: bool, labelText: string, value: string,
                         context: Option<string>, severity: Option<string>)
    ensures Handle(s, reg, call, LeakTrackerSetPath(path, None)) ==
            Outcome(Success(Done), Hub.LeakTrackerSetPath(s, path, true, call.leakFile))
    ensures Handle(s, reg, call, LeakTrackerSetPath(path, Some(loadExisting))) ==
            Outcome(Success(Done), Hub.LeakTrackerSetPath(s, path, loadExisting, call.leakFile))
    ensures call.leakFile.Some? ==>
              Handle(s, reg, call, LeakTrackerSetPath(path, None)).hub.leakEntries == call.leakFile.value
    ensures !IsBlank(labelText) && !IsBlank(value) ==>
              Handle(s, reg, call, LeakTrackerAdd(labelText, value, context, severity)) ==
              Outcome(Success(Done),
                      Hub.LeakTrackerAdd(s, Hub.LeakEntry(call.freshId, labelText, value, context,
                                                          severity, call.nowMs, Some(call.caller))))
    ensures Handle(s, reg, call, LeakTrackerClear) == Outcome(Success(Done), s.(leakEntries := []))
  {
  }

  /** Evidence, decision and artifact adds reply with the new entry, built
      from the fresh id and the clock, and append exactly that entry. */
  lemma RecordWriteEffects(s: Hub.HubState, reg: Registry.Registry, call: Call, summary: string,
                           severity: Option<string>, source: Option<string>,
                           rationale: Option<string>, labelText: string,
                           artifactPath: Option<string>)
    ensures !IsBlank(summary) ==>
              var e := Hub.EvidenceEntry(call.freshId, summary, severity, source, call.nowMs);
              Handle(s, reg, call, EvidenceAdd(summary, severity, source)) ==
              Outcome(Success(EvidenceReply(e)), s.(evidence := s.evidence + [e]))
    ensures !IsBlank(summary) ==>
              var e := Hub.DecisionEntry(call.freshId, summary, rationale, call.nowMs);
              Handle(s, reg, call, DecisionAdd(summary, rationale)) ==
              Outcome(Success(DecisionReply(e)), s.(decisions := s.decisions + [e]))
    ensures !IsBlank(labelText) ==>
              var e := Hub.ArtifactEntry(call.freshId, labelText, artifactPath, call.nowMs);
              Handle(s, reg, call, ArtifactAdd(labelText, artifactPath)) ==
              Outcome(Success(ArtifactReply(e)), s.(artifacts := s.artifacts + [e]))
  {
  }
}
