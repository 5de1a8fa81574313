/** The swarm agent registry: a map from thread id to the agent's role, tier,
    model and parent, persisted as a list of agents and rebuilt from it. */
module Registry {
  import opened Wrappers
  import opened Bounded
  import opened Paths
  import opened Storage
  import SwarmConfig

  type ThreadId = string

  datatype AgentInfo = AgentInfo(
    threadId: ThreadId,
    role: string,
    model: Option<string>,
    tier: i32,
    parent: Option<ThreadId>)

  /** Every entry is filed under its own thread id. */
  predicate WellKeyed(m: map<ThreadId, AgentInfo>) {
    forall id | id in m :: m[id].threadId == id
  }

  type AgentMap = m: map<ThreadId, AgentInfo> | WellKeyed(m) witness map[]

  datatype Registry = Registry(
    agents: AgentMap,
    codexHome: Option<Path>,
    storageDir: Option<Path>)

  /** `SwarmRegistry::new`: an empty codex home counts as none. */
  function New(codexHome: Path): (r: Registry)
    ensures r.agents == map[] && r.storageDir.None?
    ensures r.codexHome.Some? <==> !IsEmpty(codexHome)
    ensures r.codexHome.Some? ==> r.codexHome.value == codexHome
  {
    Registry(map[], if IsEmpty(codexHome) then None else Some(codexHome), None)
  }

  /** `apply_storage_dir`: only a configured directory replaces the current
      one. */
  function ApplyStorageDir(r: Registry, dir: Option<Path>): (r': Registry)
    ensures dir.None? ==> r' == r
    ensures dir.Some? ==> r' == r.(storageDir := dir)
  {
    if dir.Some? then r.(storageDir := dir) else r
  }

  /** `registry_state_path`: `swarm_registry.json` in the storage directory,
      else in `swarm/` under the codex home, else no path. */
  function StatePath(r: Registry): (p: Option<Path>)
    ensures r.storageDir.Some? ==> p == Some(Join(r.storageDir.value, "swarm_registry.json"))
    ensures r.storageDir.None? && r.codexHome.Some? ==>
              p == Some(Join(Join(r.codexHome.value, "swarm"), "swarm_registry.json"))
    ensures r.storageDir.None? && r.codexHome.None? ==> p.None?
  {
    var base := if r.storageDir.Some? then r.storageDir
                else if r.codexHome.Some? then Some(Join(r.codexHome.value, "swarm"))
                else None;
    if base.Some? then Some(Join(base.value, "swarm_registry.json")) else None
  }

  /** Without a storage directory, a registry over an empty codex home has
      nowhere to persist; once a directory is applied the home no longer
      matters. */
  lemma StatePathPrecedence(home: Path, dir: Path)
    ensures IsEmpty(home) ==> StatePath(New(home)).None?
    ensures StatePath(ApplyStorageDir(New(home), Some(dir))) ==
            StatePath(ApplyStorageDir(New(Path([])), Some(dir)))
  {
  }

  /** `insert`: the entry is filed under its own id, replacing any earlier
      entry for that id; every other entry is left as it was. */
  function Insert(r: Registry, info: AgentInfo): (r': Registry)
    ensures info.threadId in r'.agents && r'.agents[info.threadId] == info
    ensures forall id | id != info.threadId ::
              (id in r'.agents <==> id in r.agents) &&
              (id in r.agents ==> r'.agents[id] == r.agents[id])
    ensures r'.codexHome == r.codexHome && r'.storageDir == r.storageDir
  {
    r.(agents := r.agents[info.threadId := info])
  }

  /** `get`. */
  function Get(r: Registry, id: ThreadId): (info: Option<AgentInfo>)
    ensures info.Some? <==> id in r.agents
    ensures info.Some? ==> info.value.threadId == id && info.value in r.agents.Values
  {
    if id in r.agents then Some(r.agents[id]) else None
  }

  /** `register_root`: a root has no parent and takes the role's name and
      tier. */
  function RegisterRoot(r: Registry, id: ThreadId, role: SwarmConfig.Role,
                        model: Option<string>): (r': Registry)
    ensures Get(r', id) == Some(AgentInfo(id, role.name, model, role.tier, None))
    ensures forall other | other != id :: Get(r', other) == Get(r, other)
  {
    Insert(r, AgentInfo(id, role.name, model, role.tier, None))
  }

  /** `register_child`: the parent is recorded but not checked against the
      registry. */
  function RegisterChild(r: Registry, id: ThreadId, parent: ThreadId,
                         role: SwarmConfig.Role, model: Option<string>): (r': Registry)
    ensures Get(r', id) == Some(AgentInfo(id, role.name, model, role.tier, Some(parent)))
    ensures forall other | other != id :: Get(r', other) == Get(r, other)
  {
    Insert(r, AgentInfo(id, role.name, model, role.tier, Some(parent)))
  }

  /** A run of `insert` calls, oldest first. */
  function InsertAll(r: Registry, infos: seq<AgentInfo>): Registry
  {
    if |infos| == 0 then r else Insert(InsertAll(r, infos[..|infos| - 1]), infos[|infos| - 1])
  }

  /** After any run of inserts, `get` returns the most recently inserted info
      for the id, or what the registry held before if the id was never
      inserted. */
  lemma {:induction false} GetAfterInserts(r: Registry, infos: seq<AgentInfo>, id: ThreadId)
    ensures LastIndexOf(infos, id).Some? ==>
              Get(InsertAll(r, infos), id) == Some(infos[LastIndexOf(infos, id).value])
    ensures LastIndexOf(infos, id).None? ==> Get(InsertAll(r, infos), id) == Get(r, id)
    decreases |infos|
  {
    if |infos| > 0 {
      GetAfterInserts(r, infos[..|infos| - 1], id);
    }
  }

  /** `agents` lists the values of `m`, each exactly once, in some order. */
  ghost predicate IsListingOf(agents: seq<AgentInfo>, m: AgentMap) {
    && |agents| == |m|
    && (forall i | 0 <= i < |agents| ::
          agents[i].threadId in m && m[agents[i].threadId] == agents[i])
    && (forall i, j | 0 <= i < j < |agents| :: agents[i].threadId != agents[j].threadId)
    && (forall id | id in m :: exists i | 0 <= i < |agents| :: agents[i].threadId == id)
  }

  /** `snapshot`: every registered agent exactly once, order unspecified. */
  method Snapshot(r: Registry) returns (agents: seq<AgentInfo>)
    ensures |agents| == |r.agents|
    ensures forall i | 0 <= i < |agents| ::
              agents[i].threadId in r.agents && r.agents[agents[i].threadId] == agents[i]
    ensures forall i, j | 0 <= i < j < |agents| :: agents[i].threadId != agents[j].threadId
    ensures forall id | id in r.agents :: exists i | 0 <= i < |agents| :: agents[i].threadId == id
  {
    agents := [];
    var remaining := r.agents.Keys;
    while remaining != {}
      invariant remaining <= r.agents.Keys
      invariant |agents| + |remaining| == |r.agents.Keys|
      invariant forall i | 0 <= i < |agents| ::
                  agents[i].threadId in r.agents.Keys - remaining &&
                  r.agents[agents[i].threadId] == agents[i]
      invariant forall i, j | 0 <= i < j < |agents| :: agents[i].threadId != agents[j].threadId
      invariant forall id | id in r.agents.Keys - remaining ::
                  exists i | 0 <= i < |agents| :: agents[i].threadId == id
      decreases remaining
    {
      var id :| id in remaining;
      ghost var before := agents;
      ghost var wasRemaining := remaining;
      agents := agents + [r.agents[id]];
      remaining := remaining - {id};
      forall other | other in r.agents.Keys - remaining
        ensures exists i | 0 <= i < |agents| :: agents[i].threadId == other
      {
        if other == id {
          assert agents[|agents| - 1].threadId == other;
        } else {
          assert other in r.agents.Keys - wasRemaining;
          var i :| 0 <= i < |before| && before[i].threadId == other;
          assert agents[i] == before[i];
        }
      }
    }
    assert r.agents.Keys - remaining == r.agents.Keys;
  }

  /** The map `load_from_storage` collects from a persisted list: each agent
      keyed by its own id, a later entry replacing an earlier one. */
  function Rebuild(agents: seq<AgentInfo>): (m: AgentMap)
    ensures |m| <= |agents|
  {
    if |agents| == 0 then map[]
    else
      var m := Rebuild(agents[..|agents| - 1]);
      var last := agents[|agents| - 1];
      m[last.threadId := last]
  }

  /** Index of the last entry of `agents` filed under `id`. */
  function LastIndexOf(agents: seq<AgentInfo>, id: ThreadId): (r: Option<nat>)
    ensures r.Some? ==> r.value < |agents| && agents[r.value].threadId == id &&
                        forall j | r.value < j < |agents| :: agents[j].threadId != id
    ensures r.None? ==> forall j | 0 <= j < |agents| :: agents[j].threadId != id
  {
    if |agents| == 0 then None
    else if agents[|agents| - 1].threadId == id then Some(|agents| - 1)
    else LastIndexOf(agents[..|agents| - 1], id)
  }

  /** The rebuilt map holds an id exactly when the list does, and maps it to
      the last entry listed for it. */
  lemma {:induction false} RebuildLastWins(agents: seq<AgentInfo>, id: ThreadId)
    ensures id in Rebuild(agents) <==> LastIndexOf(agents, id).Some?
    ensures id in Rebuild(agents) ==> Rebuild(agents)[id] == agents[LastIndexOf(agents, id).value]
    decreases |agents|
  {
    if |agents| > 0 {
      RebuildLastWins(agents[..|agents| - 1], id);
    }
  }

  /** Round trip: rebuilding from any listing of a registry's agents (in
      particular what `snapshot` and `persist_now` produce) gives back the
      registry's map. */
  lemma RebuildListing(agents: seq<AgentInfo>, m: AgentMap)
    requires IsListingOf(agents, m)
    ensures Rebuild(agents) == m
  {
    forall id
      ensures id in Rebuild(agents) <==> id in m
      ensures id in m ==> Rebuild(agents)[id] == m[id]
    {
      RebuildLastWins(agents, id);
      if id in m {
        var i :| 0 <= i < |agents| && agents[i].threadId == id;
        var k := LastIndexOf(agents, id).value;
        assert k == i;
      }
    }
  }

  /** `load_from_storage`: no path or no file leaves the registry as it is,
      an unreadable or unparseable file is an error, and a parsed list
      replaces the whole map. */
  function LoadFromStorage(r: Registry, fs: FileSystem<seq<AgentInfo>>): (res: Result<Registry, string>)
    ensures StatePath(r).None? || StatePath(r).value !in fs ==> res == Success(r)
    ensures StatePath(r).Some? && StatePath(r).value in fs ==>
              match fs[StatePath(r).value]
              case Parsed(list) => res == Success(r.(agents := Rebuild(list)))
              case Unreadable => res.Failure?
              case Malformed => res.Failure?
  {
    var path := StatePath(r);
    if path.None? || path.value !in fs then Success(r)
    else
      match fs[path.value]
      case Parsed(list) => Success(r.(agents := Rebuild(list)))
      case Unreadable => Failure("failed to read swarm registry")
      case Malformed => Failure("failed to parse swarm registry")
  }

  /** What `persist_state` leaves on disk: the listing at the state path. */
  function Persist(r: Registry, listing: seq<AgentInfo>, fs: FileSystem<seq<AgentInfo>>):
    (fs': FileSystem<seq<AgentInfo>>)
    ensures StatePath(r).Some? ==> StatePath(r).value in fs' && fs'[StatePath(r).value] == Parsed(listing)
    ensures forall p | p in fs && Some(p) != StatePath(r) :: p in fs' && fs'[p] == fs[p]
    ensures forall p | p in fs' :: p in fs || Some(p) == StatePath(r)
  {
    if StatePath(r).Some? then fs[StatePath(r).value := Parsed(listing)] else fs
  }

  /** Persist-then-load across a restart: a registry that resolves to the same
      state path and loads what another one persisted ends up with exactly the
      other's agents. */
  lemma PersistThenLoad(saved: Registry, listing: seq<AgentInfo>, restarted: Registry,
                        fs: FileSystem<seq<AgentInfo>>)
    requires IsListingOf(listing, saved.agents)
    requires StatePath(saved).Some? && StatePath(restarted) == StatePath(saved)
    ensures LoadFromStorage(restarted, Persist(saved, listing, fs)) ==
            Success(restarted.(agents := saved.agents))
  {
    RebuildListing(listing, saved.agents);
  }
}
