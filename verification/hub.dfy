/** The swarm hub: one immutable record holding every shared store, and one
    pure function per `SwarmHub` mutator giving the state it leaves behind.
    The file writes each mutator triggers afterwards are not modelled. */
module Hub {
  import opened Wrappers
  import opened Bounded
  import opened Paths
  import opened Storage
  import SwarmConfig

  /** The lounge keeps at most this many entries. */
  const LOUNGE_CAP: nat := 500

  datatype LoungeEntry = LoungeEntry(text: string, author: Option<string>, createdAtMs: nat)

  datatype VoteCast = VoteCast(option: string, weight: i32, voter: Option<string>)

  /** A vote and, in `casts`, the ballots cast on it (the source's `votes`). */
  datatype Vote = Vote(
    id: string,
    topic: string,
    options: seq<string>,
    createdAtMs: nat,
    casts: seq<VoteCast>)

  /** `labelText` is the source's `label` (a reserved word here). */
  datatype Timer = Timer(
    labelText: Option<string>,
    durationMs: Option<nat>,
    startedAtMs: Option<nat>,
    running: bool)

  datatype LeakEntry = LeakEntry(
    id: string,
    labelText: string,
    value: string,
    context: Option<string>,
    severity: Option<string>,
    createdAtMs: nat,
    sourceThread: Option<string>)

  datatype TaskEntry = TaskEntry(
    id: string,
    title: string,
    status: string,
    owner: Option<string>,
    notes: Option<string>,
    createdAtMs: nat)

  datatype EvidenceEntry = EvidenceEntry(
    id: string,
    summary: string,
    severity: Option<string>,
    source: Option<string>,
    createdAtMs: nat)

  datatype DecisionEntry = DecisionEntry(
    id: string,
    summary: string,
    rationale: Option<string>,
    createdAtMs: nat)

  datatype ArtifactEntry = ArtifactEntry(
    id: string,
    labelText: string,
    path: Option<string>,
    createdAtMs: nat)

  datatype HubState = HubState(
    lounge: seq<LoungeEntry>,
    votes: seq<Vote>,
    timer: Timer,
    leakEntries: seq<LeakEntry>,
    leakTrackerPath: Option<Path>,
    storageDir: Option<Path>,
    tasks: seq<TaskEntry>,
    evidence: seq<EvidenceEntry>,
    decisions: seq<DecisionEntry>,
    artifacts: seq<ArtifactEntry>)

  /** The hub: its state and the codex home it falls back to for storage. */
  datatype SwarmHub = SwarmHub(state: HubState, codexHome: Option<Path>)

  function StoppedTimer(): Timer {
    Timer(None, None, None, false)
  }

  /** `SwarmHubState::default`. */
  function DefaultState(): (s: HubState)
    ensures s.lounge == [] && s.votes == [] && s.leakEntries == [] && s.tasks == []
    ensures s.evidence == [] && s.decisions == [] && s.artifacts == []
    ensures s.leakTrackerPath.None? && s.storageDir.None?
    ensures s.timer == Timer(None, None, None, false)
  {
    HubState([], [], StoppedTimer(), [], None, None, [], [], [], [])
  }

  /** `SwarmHub::new`: the default state over the given home (kept even when
      empty, unlike the registry). */
  function NewHub(codexHome: Path): (h: SwarmHub)
    ensures h.state.lounge == [] && h.state.votes == [] && h.state.leakEntries == []
    ensures h.state.tasks == [] && h.state.evidence == [] && h.state.decisions == []
    ensures h.state.artifacts == []
    ensures h.state.leakTrackerPath.None? && h.state.storageDir.None?
    ensures !h.state.timer.running && h.state.timer.labelText.None?
    ensures h.state.timer.durationMs.None? && h.state.timer.startedAtMs.None?
    ensures h.codexHome == Some(codexHome)
  {
    SwarmHub(DefaultState(), Some(codexHome))
  }

  // ---------------------------------------------------------------------
  // Lounge
  // ---------------------------------------------------------------------

  /** `lounge_append`: push at the back, then drop the front entry if the
      lounge went over the cap. */
  function LoungeAppend(s: HubState, e: LoungeEntry): (r: HubState)
    ensures r == s.(lounge := r.lounge)
    ensures |r.lounge| > 0 && r.lounge[|r.lounge| - 1] == e
    ensures |s.lounge| < LOUNGE_CAP ==> r.lounge == s.lounge + [e]
    ensures |s.lounge| >= LOUNGE_CAP ==> r.lounge == s.lounge[1..] + [e]
    ensures |s.lounge| <= LOUNGE_CAP ==> |r.lounge| <= LOUNGE_CAP
  {
    var pushed := s.lounge + [e];
    s.(lounge := if |pushed| > LOUNGE_CAP then pushed[1..] else pushed)
  }

  /** The newest `n` entries of `xs`. */
  function Newest<T>(xs: seq<T>, n: nat): seq<T> {
    if |xs| <= n then xs else xs[|xs| - n..]
  }

  function LoungeAppendAll(s: HubState, es: seq<LoungeEntry>): HubState
  {
    if |es| == 0 then s else LoungeAppend(LoungeAppendAll(s, es[..|es| - 1]), es[|es| - 1])
  }

  /** Starting within the cap, any run of appends leaves exactly the newest
      500 of all entries ever held, oldest first: overflow evicts in FIFO
      order and nothing else. */
  lemma {:induction false} LoungeKeepsNewest(s: HubState, es: seq<LoungeEntry>)
    requires |s.lounge| <= LOUNGE_CAP
    ensures LoungeAppendAll(s, es).lounge == Newest(s.lounge + es, LOUNGE_CAP)
    ensures LoungeAppendAll(s, es) == s.(lounge := LoungeAppendAll(s, es).lounge)
    decreases |es|
  {
    if |es| == 0 {
      assert s.lounge + es == s.lounge;
    } else {
      var init := es[..|es| - 1];
      var e := es[|es| - 1];
      LoungeKeepsNewest(s, init);
      var before := LoungeAppendAll(s, init);
      var prev := Newest(s.lounge + init, LOUNGE_CAP);
      assert before.lounge == prev;
      var all := s.lounge + es;
      assert all == (s.lounge + init) + [e];
      NewestStep(s.lounge + init, e, LOUNGE_CAP);
    }
  }

  /** One more element at the back of a window of the newest `n`. */
  lemma NewestStep<T>(xs: seq<T>, e: T, n: nat)
    requires n > 0
    ensures var w := Newest(xs, n);
            (if |w + [e]| > n then (w + [e])[1..] else w + [e]) == Newest(xs + [e], n)
  {
    var w := Newest(xs, n);
    var all := xs + [e];
    if |xs| < n {
      assert w == xs;
    } else if |xs| == n {
      assert w == xs;
      assert (w + [e])[1..] == all[|all| - n..];
    } else {
      assert w == xs[|xs| - n..];
      assert (w + [e])[1..] == all[|all| - n..];
    }
  }

  /** `lounge_clear`. */
  function LoungeClear(s: HubState): (r: HubState)
    ensures r.lounge == []
    ensures r == s.(lounge := [])
  {
    s.(lounge := [])
  }

  // ---------------------------------------------------------------------
  // Votes
  // ---------------------------------------------------------------------

  /** Index of the first vote with the given id (`iter().find`). */
  function VoteIndex(votes: seq<Vote>, id: string): (r: Option<nat>)
    ensures r.Some? ==> r.value < |votes| && votes[r.value].id == id &&
                        forall j | 0 <= j < r.value :: votes[j].id != id
    ensures r.None? ==> forall j | 0 <= j < |votes| :: votes[j].id != id
  {
    if |votes| == 0 then None
    else if votes[0].id == id then Some(0)
    else
      var r := VoteIndex(votes[1..], id);
      if r.Some? then Some(r.value + 1) else None
  }

  function FindVote(votes: seq<Vote>, id: string): (r: Option<Vote>)
    ensures r.Some? ==> r.value.id == id && r.value in votes
    ensures r.None? <==> forall j | 0 <= j < |votes| :: votes[j].id != id
  {
    var i := VoteIndex(votes, id);
    if i.Some? then Some(votes[i.value]) else None
  }

  predicate UniqueVoteIds(votes: seq<Vote>) {
    forall i, j | 0 <= i < j < |votes| :: votes[i].id != votes[j].id
  }

  /** `upsert_vote`: replace the first vote with the same id in place, or
      append when there is none. */
  function UpsertVote(s: HubState, v: Vote): (r: HubState)
    ensures r == s.(votes := r.votes)
    ensures VoteIndex(s.votes, v.id).Some? ==>
              r.votes == s.votes[VoteIndex(s.votes, v.id).value := v]
    ensures VoteIndex(s.votes, v.id).None? ==> r.votes == s.votes + [v]
  {
    var i := VoteIndex(s.votes, v.id);
    if i.Some? then s.(votes := s.votes[i.value := v]) else s.(votes := s.votes + [v])
  }

  /** After an upsert, looking the id up finds the new vote, every other id
      finds what it found before, and unique ids stay unique. */
  lemma UpsertVoteLookup(s: HubState, v: Vote, other: string)
    ensures FindVote(UpsertVote(s, v).votes, v.id) == Some(v)
    ensures other != v.id ==> FindVote(UpsertVote(s, v).votes, other) == FindVote(s.votes, other)
    ensures UniqueVoteIds(s.votes) ==> UniqueVoteIds(UpsertVote(s, v).votes)
    ensures |UpsertVote(s, v).votes| == |s.votes| + (if FindVote(s.votes, v.id).None? then 1 else 0)
  {
    var r := UpsertVote(s, v).votes;
    var i := VoteIndex(s.votes, v.id);
    if i.None? {
      assert r[|s.votes|] == v;
      VoteIndexAppend(s.votes, v, v.id);
      VoteIndexAppend(s.votes, v, other);
    } else {
      VoteIndexReplace(s.votes, i.value, v, v.id);
      VoteIndexReplace(s.votes, i.value, v, other);
    }
  }

  lemma VoteIndexAppend(votes: seq<Vote>, v: Vote, id: string)
    requires VoteIndex(votes, v.id).None?
    ensures VoteIndex(votes + [v], id) ==
            (if VoteIndex(votes, id).Some? then VoteIndex(votes, id)
             else if id == v.id then Some(|votes|) else None)
  {
    var r := VoteIndex(votes + [v], id);
    var w := votes + [v];
    assert forall j | 0 <= j < |votes| :: w[j] == votes[j];
    if VoteIndex(votes, id).Some? {
      var k := VoteIndex(votes, id).value;
      assert w[k].id == id;
    } else if id == v.id {
      assert w[|votes|].id == id;
    }
  }

  lemma VoteIndexReplace(votes: seq<Vote>, i: nat, v: Vote, id: string)
    requires VoteIndex(votes, v.id) == Some(i)
    ensures VoteIndex(votes[i := v], id) == VoteIndex(votes, id)
  {
    var w := votes[i := v];
    var a := VoteIndex(w, id);
    var b := VoteIndex(votes, id);
    if b.Some? {
      assert w[b.value].id == id;
    }
    if a.Some? {
      assert votes[a.value].id == id;
    }
  }

  // ---------------------------------------------------------------------
  // Timer, leak tracker and the append-only logs
  // ---------------------------------------------------------------------

  /** `set_timer`: the timer is replaced wholesale. */
  function SetTimer(s: HubState, t: Timer): (r: HubState)
    ensures r.timer == t && r == s.(timer := t)
  {
    s.(timer := t)
  }

  /** `leak_tracker_set_path`: the path is always replaced; with
      `load_existing` the entries are replaced by the file's contents when
      that file could be read and parsed (`loaded`), and kept otherwise. */
  function LeakTrackerSetPath(s: HubState, path: Path, loadExisting: bool,
                              loaded: Option<seq<LeakEntry>>): (r: HubState)
    ensures r.leakTrackerPath == Some(path)
    ensures loadExisting && loaded.Some? ==> r.leakEntries == loaded.value
    ensures !loadExisting || loaded.None? ==> r.leakEntries == s.leakEntries
    ensures r == s.(leakTrackerPath := r.leakTrackerPath, leakEntries := r.leakEntries)
  {
    s.(leakTrackerPath := Some(path),
       leakEntries := if loadExisting && loaded.Some? then loaded.value else s.leakEntries)
  }

  /** `leak_tracker_add`: appended at the end. */
  function LeakTrackerAdd(s: HubState, e: LeakEntry): (r: HubState)
    ensures r.leakEntries == s.leakEntries + [e]
    ensures r == s.(leakEntries := r.leakEntries)
  {
    s.(leakEntries := s.leakEntries + [e])
  }

  /** `leak_tracker_clear`: entries gone, the export path kept. */
  function LeakTrackerClear(s: HubState): (r: HubState)
    ensures r.leakEntries == [] && r.leakTrackerPath == s.leakTrackerPath
    ensures r == s.(leakEntries := [])
  {
    s.(leakEntries := [])
  }

  function TaskAdd(s: HubState, e: TaskEntry): (r: HubState)
    ensures r.tasks == s.tasks + [e] && r == s.(tasks := r.tasks)
  {
    s.(tasks := s.tasks + [e])
  }

  function EvidenceAdd(s: HubState, e: EvidenceEntry): (r: HubState)
    ensures r.evidence == s.evidence + [e] && r == s.(evidence := r.evidence)
  {
    s.(evidence := s.evidence + [e])
  }

  function DecisionAdd(s: HubState, e: DecisionEntry): (r: HubState)
    ensures r.decisions == s.decisions + [e] && r == s.(decisions := r.decisions)
  {
    s.(decisions := s.decisions + [e])
  }

  function ArtifactAdd(s: HubState, e: ArtifactEntry): (r: HubState)
    ensures r.artifacts == s.artifacts + [e] && r == s.(artifacts := r.artifacts)
  {
    s.(artifacts := s.artifacts + [e])
  }

  /** The append-only logs only grow: each add keeps every earlier entry at
      its index, and the adds to different logs commute. */
  lemma AppendOnlyLogsCommute(s: HubState, t: TaskEntry, e: EvidenceEntry,
                              d: DecisionEntry, a: ArtifactEntry)
    ensures TaskAdd(EvidenceAdd(s, e), t) == EvidenceAdd(TaskAdd(s, t), e)
    ensures DecisionAdd(ArtifactAdd(s, a), d) == ArtifactAdd(DecisionAdd(s, d), a)
    ensures TaskAdd(s, t).tasks[..|s.tasks|] == s.tasks
    ensures EvidenceAdd(s, e).evidence[..|s.evidence|] == s.evidence
    ensures DecisionAdd(s, d).decisions[..|s.decisions|] == s.decisions
    ensures ArtifactAdd(s, a).artifacts[..|s.artifacts|] == s.artifacts
  {
  }

  // ---------------------------------------------------------------------
  // Configuration, paths and loading
  // ---------------------------------------------------------------------

  /** `apply_config`: a configured storage directory replaces the current
      one; a configured leak path wins, and otherwise a hub with no leak path
      gets `leak_tracker.json` in the configured storage directory. */
  function ApplyConfig(s: HubState, c: SwarmConfig.HubConfig): (r: HubState)
    ensures r == s.(storageDir := r.storageDir, leakTrackerPath := r.leakTrackerPath)
    ensures r.storageDir == (if c.storageDir.Some? then c.storageDir else s.storageDir)
    ensures c.leakTrackerPath.Some? ==> r.leakTrackerPath == c.leakTrackerPath
    ensures c.leakTrackerPath.None? && s.leakTrackerPath.None? && c.storageDir.Some? ==>
              r.leakTrackerPath == Some(Join(c.storageDir.value, "leak_tracker.json"))
    ensures c.leakTrackerPath.None? && (s.leakTrackerPath.Some? || c.storageDir.None?) ==>
              r.leakTrackerPath == s.leakTrackerPath
  {
    var dir := if c.storageDir.Some? then c.storageDir else s.storageDir;
    var leak :=
      if c.leakTrackerPath.Some? then c.leakTrackerPath
      else if s.leakTrackerPath.None? && c.storageDir.Some? then
        Some(Join(c.storageDir.value, "leak_tracker.json"))
      else s.leakTrackerPath;
    s.(storageDir := dir, leakTrackerPath := leak)
  }

  /** Applying the same configuration twice is the same as applying it once. */
  lemma ApplyConfigIdempotent(s: HubState, c: SwarmConfig.HubConfig)
    ensures ApplyConfig(ApplyConfig(s, c), c) == ApplyConfig(s, c)
  {
  }

  /** `hub_state_path`: `swarm_hub.json` in the storage directory, else in
      `swarm/` under the codex home, else no path. */
  function HubStatePath(s: HubState, codexHome: Option<Path>): (p: Option<Path>)
    ensures s.storageDir.Some? ==> p == Some(Join(s.storageDir.value, "swarm_hub.json"))
    ensures s.storageDir.None? && codexHome.Some? ==>
              p == Some(Join(Join(codexHome.value, "swarm"), "swarm_hub.json"))
    ensures s.storageDir.None? && codexHome.None? ==> p.None?
  {
    var base := if s.storageDir.Some? then s.storageDir
                else if codexHome.Some? then Some(Join(codexHome.value, "swarm"))
                else None;
    if base.Some? then Some(Join(base.value, "swarm_hub.json")) else None
  }

  /** The file `persist_leak_tracker` writes: the leak path, else
      `leak_tracker.json` in the storage directory, else
      `swarm_leak_tracker.json` in the codex home. */
  function LeakTrackerExportPath(s: HubState, codexHome: Option<Path>): (p: Option<Path>)
    ensures s.leakTrackerPath.Some? ==> p == s.leakTrackerPath
    ensures s.leakTrackerPath.None? && s.storageDir.Some? ==>
              p == Some(Join(s.storageDir.value, "leak_tracker.json"))
    ensures s.leakTrackerPath.None? && s.storageDir.None? && codexHome.Some? ==>
              p == Some(Join(codexHome.value, "swarm_leak_tracker.json"))
    ensures p.None? <==> s.leakTrackerPath.None? && s.storageDir.None? && codexHome.None?
  {
    if s.leakTrackerPath.Some? then s.leakTrackerPath
    else if s.storageDir.Some? then Some(Join(s.storageDir.value, "leak_tracker.json"))
    else if codexHome.Some? then Some(Join(codexHome.value, "swarm_leak_tracker.json"))
    else None
  }

  /** Once a storage directory is configured, the hub state and the leak
      tracker are both stored inside it unless a leak path was set, and
      neither depends on the codex home any more. */
  lemma ConfiguredStorageDirGovernsPaths(s: HubState, c: SwarmConfig.HubConfig,
                                         home1: Option<Path>, home2: Option<Path>)
    requires c.storageDir.Some?
    ensures HubStatePath(ApplyConfig(s, c), home1) ==
            Some(Join(c.storageDir.value, "swarm_hub.json"))
    ensures LeakTrackerExportPath(ApplyConfig(s, c), home1) ==
            LeakTrackerExportPath(ApplyConfig(s, c), home2)
    ensures c.leakTrackerPath.None? && s.leakTrackerPath.None? ==>
              LeakTrackerExportPath(ApplyConfig(s, c), home1) ==
              Some(Join(c.storageDir.value, "leak_tracker.json"))
  {
  }

  /** The loaded state, with the configured leak path and storage directory
      (when set) taking precedence over the ones stored in the file. */
  function MergeLoaded(current: HubState, loaded: HubState): (r: HubState)
    ensures r == loaded.(leakTrackerPath := r.leakTrackerPath, storageDir := r.storageDir)
    ensures r.leakTrackerPath ==
            (if current.leakTrackerPath.Some? then current.leakTrackerPath
             else loaded.leakTrackerPath)
    ensures r.storageDir ==
            (if current.storageDir.Some? then current.storageDir else loaded.storageDir)
  {
    loaded.(leakTrackerPath := current.leakTrackerPath.Or(loaded.leakTrackerPath),
            storageDir := current.storageDir.Or(loaded.storageDir))
  }

  /** `load_from_storage`: no path or no file keeps the state, an unreadable
      or unparseable file is an error that keeps the state, and a parsed file
      replaces the state except for the configured paths. */
  function LoadFromStorage(h: SwarmHub, fs: FileSystem<HubState>): (r: Result<SwarmHub, string>)
    ensures r.Success? ==> r.value.codexHome == h.codexHome
    ensures HubStatePath(h.state, h.codexHome).None? ==> r == Success(h)
    ensures (HubStatePath(h.state, h.codexHome).Some? &&
             HubStatePath(h.state, h.codexHome).value !in fs) ==> r == Success(h)
    ensures HubStatePath(h.state, h.codexHome).Some? &&
            HubStatePath(h.state, h.codexHome).value in fs ==>
              match fs[HubStatePath(h.state, h.codexHome).value]
              case Parsed(loaded) => r == Success(h.(state := MergeLoaded(h.state, loaded)))
              case Unreadable => r.Failure?
              case Malformed => r.Failure?
  {
    var path := HubStatePath(h.state, h.codexHome);
    if path.None? || path.value !in fs then Success(h)
    else
      match fs[path.value]
      case Parsed(loaded) => Success(h.(state := MergeLoaded(h.state, loaded)))
      case Unreadable => Failure("failed to read swarm hub state")
      case Malformed => Failure("failed to parse swarm hub state")
  }

  /** What `persist_state` leaves on disk: the whole state at its path. */
  function Persist(h: SwarmHub, fs: FileSystem<HubState>): (fs': FileSystem<HubState>)
    ensures HubStatePath(h.state, h.codexHome).Some? ==>
              HubStatePath(h.state, h.codexHome).value in fs' &&
              fs'[HubStatePath(h.state, h.codexHome).value] == Parsed(h.state)
    ensures forall p | p in fs && Some(p) != HubStatePath(h.state, h.codexHome) ::
              p in fs' && fs'[p] == fs[p]
    ensures forall p | p in fs' :: p in fs || Some(p) == HubStatePath(h.state, h.codexHome)
  {
    var path := HubStatePath(h.state, h.codexHome);
    if path.Some? then fs[path.value := Parsed(h.state)] else fs
  }

  /** Persist-then-load across a restart: a hub configured with the same
      storage directory and leak path as the saved one, or with none, gets
      back exactly the saved state. */
  lemma PersistThenLoad(saved: SwarmHub, restarted: SwarmHub, fs: FileSystem<HubState>)
    requires HubStatePath(saved.state, saved.codexHome).Some?
    requires HubStatePath(restarted.state, restarted.codexHome) ==
             HubStatePath(saved.state, saved.codexHome)
    requires restarted.state.storageDir.None? ||
             restarted.state.storageDir == saved.state.storageDir
    requires restarted.state.leakTrackerPath.None? ||
             restarted.state.leakTrackerPath == saved.state.leakTrackerPath
    ensures LoadFromStorage(restarted, Persist(saved, fs)) ==
            Success(restarted.(state := saved.state))
  {
  }
}
