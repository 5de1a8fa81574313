/** Swarm configuration: the role table, the tier rule that decides which
    agent may call which, and the merge of the `[swarm]` TOML table over the
    built-in defaults. */
module SwarmConfig {
  import opened Wrappers
  import opened Bounded
  import opened Text
  import opened Paths

  datatype Role = Role(
    name: string,
    model: Option<string>,
    baseInstructions: Option<string>,
    tier: i32,
    description: Option<string>)

  datatype Hierarchy = Hierarchy(allowUpwardCalls: bool, allowSameTierCalls: bool)

  datatype HubConfig = HubConfig(leakTrackerPath: Option<Path>, storageDir: Option<Path>)

  datatype Config = Config(
    enabled: bool,
    rootRole: Option<string>,
    defaultSpawnRole: Option<string>,
    roles: seq<Role>,
    hierarchy: Hierarchy,
    hub: HubConfig)

  /** The TOML shapes, every field optional as in the configuration file. */
  datatype RoleToml = RoleToml(
    name: string,
    model: Option<string>,
    baseInstructions: Option<string>,
    tier: Option<i32>,
    description: Option<string>)

  datatype HierarchyToml = HierarchyToml(
    allowUpwardCalls: Option<bool>,
    allowSameTierCalls: Option<bool>)

  datatype HubToml = HubToml(leakTrackerPath: Option<Path>, storageDir: Option<Path>)

  datatype SwarmToml = SwarmToml(
    enabled: Option<bool>,
    rootRole: Option<string>,
    defaultSpawnRole: Option<string>,
    roles: Option<seq<RoleToml>>,
    hierarchy: Option<HierarchyToml>,
    hub: Option<HubToml>)

  function DefaultRoles(): seq<Role> {
    [ Role("Scout", Some("gpt-5.1-codex-mini"), None, 0,
           Some("High-throughput triage and acquisition.")),
      Role("Scribe", Some("gpt-5.1-codex-max"), None, 1,
           Some("Structural mapping and deep audit.")),
      Role("Scholar", Some("gpt-5.2-codex"), None, 2,
           Some("High-reasoning synthesis and strategy.")) ]
  }

  function DefaultHierarchy(): Hierarchy {
    Hierarchy(allowUpwardCalls := false, allowSameTierCalls := true)
  }

  function DefaultConfig(): Config {
    Config(
      enabled := false,
      rootRole := Some("Scholar"),
      defaultSpawnRole := Some("Scribe"),
      roles := DefaultRoles(),
      hierarchy := DefaultHierarchy(),
      hub := HubConfig(None, None))
  }

  // ---------------------------------------------------------------------
  // The tier rule
  // ---------------------------------------------------------------------

  /** `SwarmConfig::can_call`: calls down the tiers are always allowed,
      calls within a tier and up the tiers only when the matching flag is
      set. */
  function CanCall(c: Config, callerTier: int, targetTier: int): (r: bool)
    ensures callerTier > targetTier ==> r
    ensures callerTier == targetTier ==> (r <==> c.hierarchy.allowSameTierCalls)
    ensures callerTier < targetTier ==> (r <==> c.hierarchy.allowUpwardCalls)
  {
    if callerTier == targetTier then c.hierarchy.allowSameTierCalls
    else if callerTier > targetTier then true
    else c.hierarchy.allowUpwardCalls
  }

  /** Under the default hierarchy an agent may call exactly the agents whose
      tier is not above its own. */
  lemma DefaultHierarchyCallsDownOrLevel(c: Config, callerTier: int, targetTier: int)
    requires c.hierarchy == DefaultHierarchy()
    ensures CanCall(c, callerTier, targetTier) <==> callerTier >= targetTier
  {
  }

  /** The two flags in isolation: with both off only strictly downward calls
      pass, with both on every call passes. */
  lemma CanCallExtremes(c: Config, callerTier: int, targetTier: int)
    ensures !c.hierarchy.allowUpwardCalls && !c.hierarchy.allowSameTierCalls ==>
              (CanCall(c, callerTier, targetTier) <==> callerTier > targetTier)
    ensures c.hierarchy.allowUpwardCalls && c.hierarchy.allowSameTierCalls ==>
              CanCall(c, callerTier, targetTier)
  {
  }

  // ---------------------------------------------------------------------
  // Role lookup
  // ---------------------------------------------------------------------

  predicate NameMatches(role: Role, query: string) {
    EqIgnoreAsciiCase(role.name, query)
  }

  /** Index of the first role at or after `from` whose name matches `query`. */
  function FirstMatch(roles: seq<Role>, query: string, from: nat): (r: Option<nat>)
    requires from <= |roles|
    ensures r.Some? ==>
              && from <= r.value < |roles|
              && NameMatches(roles[r.value], query)
              && forall j | from <= j < r.value :: !NameMatches(roles[j], query)
    ensures r.None? ==> forall j | from <= j < |roles| :: !NameMatches(roles[j], query)
    decreases |roles| - from
  {
    if from == |roles| then None
    else if NameMatches(roles[from], query) then Some(from)
    else FirstMatch(roles, query, from + 1)
  }

  /** `SwarmConfig::role`: a blank query finds nothing; otherwise the first
      role whose name equals the trimmed query up to ASCII case. */
  function RoleNamed(c: Config, name: string): (r: Option<Role>)
    ensures IsBlank(name) ==> r.None?
    ensures !IsBlank(name) && r.Some? ==>
              exists i | 0 <= i < |c.roles| ::
                && c.roles[i] == r.value
                && NameMatches(c.roles[i], Trim(name))
                && forall j | 0 <= j < i :: !NameMatches(c.roles[j], Trim(name))
    ensures !IsBlank(name) && r.None? ==>
              forall i | 0 <= i < |c.roles| :: !NameMatches(c.roles[i], Trim(name))
  {
    var query := Trim(name);
    if query == [] then None
    else
      match FirstMatch(c.roles, query, 0)
      case Some(i) => Some(c.roles[i])
      case None => None
  }

  /** Index of the role Rust's `max_by_key(|r| r.tier)` returns among
      `roles[..n]`: a maximal tier, and the last one among equal maxima. */
  function LastMaxTier(roles: seq<Role>, n: nat): (k: nat)
    requires 0 < n <= |roles|
    ensures k < n
    ensures forall j | 0 <= j < n :: roles[j].tier <= roles[k].tier
    ensures forall j | k < j < n :: roles[j].tier < roles[k].tier
  {
    if n == 1 then 0
    else
      var k := LastMaxTier(roles, n - 1);
      if roles[n - 1].tier >= roles[k].tier then n - 1 else k
  }

  predicate Resolves(c: Config, name: Option<string>) {
    name.Some? && RoleNamed(c, name.value).Some?
  }

  /** `SwarmConfig::root_role_name`: the configured name when it resolves
      (as written, not the role's own spelling), else the name of the
      last maximal-tier role, else nothing. */
  function RootRoleName(c: Config): (r: Option<string>)
    ensures Resolves(c, c.rootRole) ==> r == c.rootRole
    ensures !Resolves(c, c.rootRole) && |c.roles| == 0 ==> r.None?
    ensures !Resolves(c, c.rootRole) && |c.roles| > 0 ==>
              exists k | 0 <= k < |c.roles| ::
                && r == Some(c.roles[k].name)
                && (forall j | 0 <= j < |c.roles| :: c.roles[j].tier <= c.roles[k].tier)
                && (forall j | k < j < |c.roles| :: c.roles[j].tier < c.roles[k].tier)
  {
    if Resolves(c, c.rootRole) then c.rootRole
    else if |c.roles| == 0 then None
    else Some(c.roles[LastMaxTier(c.roles, |c.roles|)].name)
  }

  /** `SwarmConfig::default_spawn_role_name`: the configured name when it
      resolves, else the first role's name, else nothing. */
  function DefaultSpawnRoleName(c: Config): (r: Option<string>)
    ensures Resolves(c, c.defaultSpawnRole) ==> r == c.defaultSpawnRole
    ensures !Resolves(c, c.defaultSpawnRole) ==>
              r == (if |c.roles| == 0 then None else Some(c.roles[0].name))
    ensures r.None? <==> |c.roles| == 0
  {
    if Resolves(c, c.defaultSpawnRole) then c.defaultSpawnRole
    else if |c.roles| == 0 then None
    else Some(c.roles[0].name)
  }

  // ---------------------------------------------------------------------
  // TOML merge
  // ---------------------------------------------------------------------

  /** The tier a role entry without one gets: its index in the TOML list,
      saturated at `i32::MAX` as `i32::try_from(idx).unwrap_or(i32::MAX)`. */
  function DefaultTier(idx: nat): i32 {
    if idx <= I32_MAX then idx else I32_MAX
  }

  function ToRole(entry: RoleToml, idx: nat): Role {
    Role(entry.name, entry.model, entry.baseInstructions,
         entry.tier.GetOr(DefaultTier(idx)), entry.description)
  }

  /** One entry at index `idx`: its role, or nothing when its name is blank. */
  function ConvertOne(entry: RoleToml, idx: nat): (r: seq<Role>)
    ensures r == [] <==> IsBlank(entry.name)
    ensures r != [] ==> r == [ToRole(entry, idx)]
  {
    if IsBlank(entry.name) then [] else [ToRole(entry, idx)]
  }

  /** The roles converted from `entries`, the first of which sits at index
      `offset` of the original list: blank names are skipped, but still
      count towards the index of the entries after them. */
  function ConvertRoles(entries: seq<RoleToml>, offset: nat): (r: seq<Role>)
    ensures |r| <= |entries|
  {
    if |entries| == 0 then []
    else ConvertOne(entries[0], offset) + ConvertRoles(entries[1..], offset + 1)
  }

  /** Converted roles never have blank names, and nothing is converted
      exactly when every name is blank. */
  lemma {:induction false} ConvertRolesNames(entries: seq<RoleToml>, offset: nat)
    ensures forall x | x in ConvertRoles(entries, offset) :: !IsBlank(x.name)
    ensures ConvertRoles(entries, offset) == [] <==>
            forall i | 0 <= i < |entries| :: IsBlank(entries[i].name)
    decreases |entries|
  {
    if |entries| > 0 {
      ConvertRolesNames(entries[1..], offset + 1);
      assert forall i | 1 <= i < |entries| :: entries[i] == entries[1..][i - 1];
    }
  }

  /** Conversion keeps the order of the list and converts each entry on
      its own, at its own index: it distributes over concatenation. */
  lemma {:induction false} ConvertRolesAppend(a: seq<RoleToml>, b: seq<RoleToml>, offset: nat)
    ensures ConvertRoles(a + b, offset) == ConvertRoles(a, offset) + ConvertRoles(b, offset + |a|)
  {
    if |a| > 0 {
      assert (a + b)[0] == a[0] && (a + b)[1..] == a[1..] + b;
      ConvertRolesAppend(a[1..], b, offset + 1);
      var head := ConvertOne(a[0], offset);
      assert head + (ConvertRoles(a[1..], offset + 1) + ConvertRoles(b, offset + |a|)) ==
             (head + ConvertRoles(a[1..], offset + 1)) + ConvertRoles(b, offset + |a|);
    } else {
      assert a + b == b;
    }
  }

  /** A single entry gives one role or, when its name is blank, none. */
  lemma ConvertRolesSingle(entry: RoleToml, offset: nat)
    ensures ConvertRoles([entry], offset) == ConvertOne(entry, offset)
  {
    assert [entry][1..] == [];
  }

  /** Every entry with a non-blank name is converted, with the tier taken
      from the entry or else from its index in the original list. */
  lemma {:induction false} ConvertRolesKeepsNamed(entries: seq<RoleToml>, offset: nat, i: nat)
    requires i < |entries| && !IsBlank(entries[i].name)
    ensures ToRole(entries[i], offset + i) in ConvertRoles(entries, offset)
    decreases i
  {
    if i == 0 {
      ConvertRolesHead(entries, offset);
    } else {
      var tail := entries[1..];
      var x := ToRole(entries[i], offset + i);
      assert tail[i - 1] == entries[i];
      assert x == ToRole(tail[i - 1], (offset + 1) + (i - 1));
      ConvertRolesKeepsNamed(tail, offset + 1, i - 1);
      ConvertRolesTail(entries, offset, x);
    }
  }

  lemma ConvertRolesHead(entries: seq<RoleToml>, offset: nat)
    requires |entries| > 0 && !IsBlank(entries[0].name)
    ensures ToRole(entries[0], offset) in ConvertRoles(entries, offset)
  {
    assert ConvertRoles(entries, offset)[0] == ToRole(entries[0], offset);
  }

  lemma ConvertRolesTail(entries: seq<RoleToml>, offset: nat, x: Role)
    requires |entries| > 0 && x in ConvertRoles(entries[1..], offset + 1)
    ensures x in ConvertRoles(entries, offset)
  {
  }

  /** Conversely, every converted role comes from a non-blank entry. */
  lemma {:induction false} ConvertRolesOnlyNamed(entries: seq<RoleToml>, offset: nat, x: Role)
    requires x in ConvertRoles(entries, offset)
    ensures exists i | 0 <= i < |entries| ::
              !IsBlank(entries[i].name) && x == ToRole(entries[i], offset + i)
    decreases |entries|
  {
    var rest := ConvertRoles(entries[1..], offset + 1);
    if !IsBlank(entries[0].name) && x == ToRole(entries[0], offset) {
    } else {
      assert x in rest;
      ConvertRolesOnlyNamed(entries[1..], offset + 1, x);
      var i :| 0 <= i < |entries[1..]| && !IsBlank(entries[1..][i].name)
                && x == ToRole(entries[1..][i], offset + 1 + i);
      assert entries[i + 1] == entries[1..][i];
    }
  }

  function MergeHierarchy(t: HierarchyToml, base: Hierarchy): Hierarchy {
    Hierarchy(t.allowUpwardCalls.GetOr(base.allowUpwardCalls),
              t.allowSameTierCalls.GetOr(base.allowSameTierCalls))
  }

  /** A non-blank override replaces the default; absent or blank keeps it. */
  function NonBlankOr(v: Option<string>, base: Option<string>): Option<string> {
    if v.Some? && !IsBlank(v.value) then v else base
  }

  /** `SwarmConfig::from_toml`: the TOML table merged field by field over
      the defaults. */
  function FromToml(toml: Option<SwarmToml>): (r: Config)
    ensures toml.None? ==> r == DefaultConfig()
    ensures toml.Some? ==> r.enabled == toml.value.enabled.GetOr(false)
    ensures toml.Some? ==>
              r.rootRole == NonBlankOr(toml.value.rootRole, Some("Scholar"))
    ensures toml.Some? ==>
              r.defaultSpawnRole == NonBlankOr(toml.value.defaultSpawnRole, Some("Scribe"))
    ensures toml.Some? && toml.value.hierarchy.None? ==> r.hierarchy == DefaultHierarchy()
    ensures toml.Some? && toml.value.hierarchy.Some? ==>
              && r.hierarchy.allowUpwardCalls ==
                   toml.value.hierarchy.value.allowUpwardCalls.GetOr(false)
              && r.hierarchy.allowSameTierCalls ==
                   toml.value.hierarchy.value.allowSameTierCalls.GetOr(true)
    ensures toml.Some? && toml.value.hub.None? ==> r.hub == HubConfig(None, None)
    ensures toml.Some? && toml.value.hub.Some? ==>
              r.hub == HubConfig(toml.value.hub.value.leakTrackerPath,
                                 toml.value.hub.value.storageDir)
    ensures toml.Some? && toml.value.roles.Some? &&
            (exists i | 0 <= i < |toml.value.roles.value| ::
               !IsBlank(toml.value.roles.value[i].name)) ==>
              r.roles == ConvertRoles(toml.value.roles.value, 0)
    ensures toml.None? || toml.value.roles.None? ||
            (forall i | 0 <= i < |toml.value.roles.value| ::
               IsBlank(toml.value.roles.value[i].name)) ==>
              r.roles == DefaultRoles()
  {
    var base := DefaultConfig();
    match toml
    case None => base
    case Some(t) =>
      var converted := if t.roles.Some? then ConvertRoles(t.roles.value, 0) else [];
      ConvertRolesNames(t.roles.GetOr([]), 0);
      Config(
        enabled := t.enabled.GetOr(base.enabled),
        rootRole := NonBlankOr(t.rootRole, base.rootRole),
        defaultSpawnRole := NonBlankOr(t.defaultSpawnRole, base.defaultSpawnRole),
        roles := if converted != [] then converted else base.roles,
        hierarchy := if t.hierarchy.Some? then MergeHierarchy(t.hierarchy.value, base.hierarchy)
                     else base.hierarchy,
        hub := if t.hub.Some? then HubConfig(t.hub.value.leakTrackerPath, t.hub.value.storageDir)
               else base.hub)
  }

  /** The defaults: swarm off, Scout/Scribe/Scholar on tiers 0/1/2, the
      root resolving to Scholar and new agents to Scribe. */
  lemma DefaultConfigFacts()
    ensures !DefaultConfig().enabled
    ensures |DefaultConfig().roles| == 3
    ensures DefaultConfig().roles[0].name == "Scout" && DefaultConfig().roles[0].tier == 0
    ensures DefaultConfig().roles[1].name == "Scribe" && DefaultConfig().roles[1].tier == 1
    ensures DefaultConfig().roles[2].name == "Scholar" && DefaultConfig().roles[2].tier == 2
    ensures RootRoleName(DefaultConfig()) == Some("Scholar")
    ensures DefaultSpawnRoleName(DefaultConfig()) == Some("Scribe")
  {
    var c := DefaultConfig();
    assert Trim("Scholar") == "Scholar";
    assert NameMatches(c.roles[2], "Scholar");
    assert Trim("Scribe") == "Scribe";
    assert NameMatches(c.roles[1], "Scribe");
  }

  /** Whatever the TOML says, the merged configuration has at least one role
      with a non-blank name, so both the root role and the default spawn role
      always resolve to a name. */
  lemma FromTomlAlwaysHasRoles(toml: Option<SwarmToml>)
    ensures |FromToml(toml).roles| > 0
    ensures RootRoleName(FromToml(toml)).Some?
    ensures DefaultSpawnRoleName(FromToml(toml)).Some?
  {
  }

  /** A TOML table whose every field is absent changes nothing. */
  lemma EmptyTomlIsDefault()
    ensures FromToml(Some(SwarmToml(None, None, None, None, None, None))) == DefaultConfig()
  {
  }
}
