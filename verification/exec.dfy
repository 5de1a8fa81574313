/** The pure helpers of `codex exec`'s swarm and review commands: timeout
    clamping, agent status text, the spawn configuration merge, review
    target selection, and the hierarchy guards run before spawn, send and
    close. */
module Exec {
  import opened Wrappers
  import opened Bounded
  import opened Text
  import SwarmConfig
  import Registry
  import PromptDecode
  import Utf8

  // ---------------------------------------------------------------------
  // Wait timeout
  // ---------------------------------------------------------------------

  /** The floor keeps a polling loop from spinning. */
  const MIN_WAIT_TIMEOUT_MS: i64 := 10_000
  const DEFAULT_WAIT_TIMEOUT_MS: i64 := 30_000
  const MAX_WAIT_TIMEOUT_MS: i64 := 300_000

  /** `resolve_wait_timeout`. */
  function ResolveWaitTimeout(timeoutMs: Option<i64>): (r: Result<i64, string>)
    ensures timeoutMs.None? ==> r == Success(DEFAULT_WAIT_TIMEOUT_MS)
    ensures timeoutMs.Some? ==> (r.Failure? <==> timeoutMs.value <= 0)
    ensures r.Success? ==> MIN_WAIT_TIMEOUT_MS <= r.value <= MAX_WAIT_TIMEOUT_MS
    ensures timeoutMs.Some? && MIN_WAIT_TIMEOUT_MS <= timeoutMs.value <= MAX_WAIT_TIMEOUT_MS ==>
              r == Success(timeoutMs.value)
    ensures timeoutMs.Some? && 0 < timeoutMs.value < MIN_WAIT_TIMEOUT_MS ==>
              r == Success(MIN_WAIT_TIMEOUT_MS)
    ensures timeoutMs.Some? && timeoutMs.value > MAX_WAIT_TIMEOUT_MS ==>
              r == Success(MAX_WAIT_TIMEOUT_MS)
  {
    match timeoutMs
    case None => Success(DEFAULT_WAIT_TIMEOUT_MS)
    case Some(t) =>
      if t <= 0 then Failure("timeout_ms must be positive")
      else Success(Min(Max(t, MIN_WAIT_TIMEOUT_MS), MAX_WAIT_TIMEOUT_MS))
  }

  /** A resolved timeout resolves to itself. */
  lemma ResolveWaitTimeoutIdempotent(timeoutMs: Option<i64>)
    requires ResolveWaitTimeout(timeoutMs).Success?
    ensures ResolveWaitTimeout(Some(ResolveWaitTimeout(timeoutMs).value)) ==
            ResolveWaitTimeout(timeoutMs)
  {
  }

  // ---------------------------------------------------------------------
  // Agent status
  // ---------------------------------------------------------------------

  datatype AgentStatus =
    | PendingInit
    | Running
    | Completed(message: Option<string>)
    | Errored(error: string)
    | Shutdown
    | NotFound

  /** `is_final_status`: a status that will not change again. */
  function IsFinalStatus(status: AgentStatus): (r: bool)
    ensures r <==> status.Completed? || status.Errored? || status.Shutdown? || status.NotFound?
  {
    !(status.PendingInit? || status.Running?)
  }

  const PREVIEW_CHARS: nat := 120

  /** The marker `truncate_preview` appends, as its literal is written: the
      three characters U+00E2 U+20AC U+00A6 ("â€¦"), which are the UTF-8
      bytes of U+2026 read back as Windows-1252. */
  const PREVIEW_MARKER: string := ['\U{E2}', '\U{20AC}', '\U{A6}']

  /** The single character the marker evidently stands for. */
  const ELLIPSIS: char := '\U{2026}'

  /** `truncate_preview` as written, counting Unicode scalar values. */
  function TruncatePreview(text: string, maxChars: nat): (r: string)
    ensures |text| <= maxChars ==> r == text
    ensures |text| > maxChars ==>
              && |r| == maxChars + |PREVIEW_MARKER|
              && r[..maxChars] == text[..maxChars]
              && r[maxChars..] == PREVIEW_MARKER
  {
    if |text| <= maxChars then text else text[..maxChars] + PREVIEW_MARKER
  }

  /** A preview keeps the first `maxChars` characters and is at most three
      longer than that; it is empty only for empty text. */
  lemma TruncatePreviewBounds(text: string, maxChars: nat)
    ensures |TruncatePreview(text, maxChars)| ==
            (if |text| <= maxChars then |text| else maxChars + 3)
    ensures |TruncatePreview(text, maxChars)| <= maxChars + 3
    ensures text[..Min(|text|, maxChars)] <= TruncatePreview(text, maxChars)
    ensures TruncatePreview(text, maxChars) == [] <==> text == []
  {
  }

  /** The marker in the source is the UTF-8 encoding of U+2026 decoded once
      more as Windows-1252 and encoded again, so the "truncated" preview of
      a text just over the limit is longer than the text itself. */
  lemma AsWrittenPreviewMarker(text: string, maxChars: nat)
    ensures Utf8.Encode([ELLIPSIS]) == [0xE2, 0x80, 0xA6]
    ensures Utf8.Encode(PREVIEW_MARKER) == [0xC3, 0xA2, 0xE2, 0x82, 0xAC, 0xC2, 0xA6]
    ensures PREVIEW_MARKER != [ELLIPSIS]
    ensures maxChars < |text| < maxChars + 3 ==> |TruncatePreview(text, maxChars)| > |text|
  {
    var m := PREVIEW_MARKER;
    assert m[1..] == ['\U{20AC}', '\U{A6}'] && m[1..][1..] == ['\U{A6}'] && m[1..][1..][1..] == [];
    assert [ELLIPSIS][1..] == [];
  }

  /** `truncate_preview` with the marker the source evidently means: the
      single character U+2026. */
  function TruncatePreviewIntended(text: string, maxChars: nat): (r: string)
    ensures |text| <= maxChars ==> r == text
    ensures |text| > maxChars ==>
              && |r| == maxChars + 1
              && r[..maxChars] == text[..maxChars]
              && r[maxChars] == ELLIPSIS
  {
    if |text| <= maxChars then text else text[..maxChars] + [ELLIPSIS]
  }

  /** With the intended marker a preview is never longer than the text nor
      than the limit plus one, and differs from the source's exactly when
      the text is cut. */
  lemma TruncatePreviewIntendedBounds(text: string, maxChars: nat)
    ensures |TruncatePreviewIntended(text, maxChars)| == Min(|text|, maxChars + 1)
    ensures |TruncatePreviewIntended(text, maxChars)| <= |text|
    ensures TruncatePreviewIntended(text, maxChars) == [] <==> text == []
    ensures TruncatePreviewIntended(text, maxChars) == TruncatePreview(text, maxChars) <==>
            |text| <= maxChars
  {
    if |text| > maxChars {
      assert |TruncatePreviewIntended(text, maxChars)| != |TruncatePreview(text, maxChars)|;
    }
  }

  /** `format_agent_status`: a fixed word, followed for completed and
      errored agents by a quoted preview of the trimmed message when that
      is not empty. */
  function FormatAgentStatus(status: AgentStatus): (r: string)
    ensures status.PendingInit? ==> r == "pending init"
    ensures status.Running? ==> r == "running"
    ensures status.Shutdown? ==> r == "shutdown"
    ensures status.NotFound? ==> r == "not found"
    ensures status.Completed? && (status.message.None? || IsBlank(status.message.value)) ==>
              r == "completed"
    ensures status.Completed? && status.message.Some? && !IsBlank(status.message.value) ==>
              r == "completed: \"" + TruncatePreview(Trim(status.message.value), PREVIEW_CHARS) + "\""
    ensures status.Errored? && IsBlank(status.error) ==> r == "errored"
    ensures status.Errored? && !IsBlank(status.error) ==>
              r == "errored: \"" + TruncatePreview(Trim(status.error), PREVIEW_CHARS) + "\""
    ensures |r| <= |"completed: \""| + PREVIEW_CHARS + 4
  {
    match status
    case PendingInit => "pending init"
    case Running => "running"
    case Completed(None) => "completed"
    case Completed(Some(message)) =>
      var preview := TruncatePreview(Trim(message), PREVIEW_CHARS);
      if preview == [] then "completed" else "completed: \"" + preview + "\""
    case Errored(message) =>
      var preview := TruncatePreview(Trim(message), PREVIEW_CHARS);
      if preview == [] then "errored" else "errored: \"" + preview + "\""
    case Shutdown => "shutdown"
    case NotFound => "not found"
  }

  /** The statuses `wait` keeps waiting on are exactly those printed as
      "pending init" or "running"; a final status never prints as either. */
  lemma NonFinalIffStillWorking(status: AgentStatus)
    ensures !IsFinalStatus(status) <==>
            FormatAgentStatus(status) == "pending init" || FormatAgentStatus(status) == "running"
  {
    if status.Completed? && status.message.Some? && !IsBlank(status.message.value) {
      var r := FormatAgentStatus(status);
      assert r[0] == 'c';
    }
    if status.Errored? && !IsBlank(status.error) {
      var r := FormatAgentStatus(status);
      assert r[0] == 'e';
    }
  }

  // ---------------------------------------------------------------------
  // Spawn configuration
  // ---------------------------------------------------------------------

  /** The two fields of the session configuration a spawn changes. */
  datatype SpawnConfig = SpawnConfig(model: Option<string>, baseInstructions: Option<string>)

  /** `build_spawn_config` for the swarm role; applying an agent type is
      not part of this model. */
  function BuildSpawnConfig(config: SpawnConfig, defaultModel: string,
                            role: Option<SwarmConfig.Role>): (r: SpawnConfig)
    ensures r.model.Some?
    ensures role.Some? && role.value.model.Some? ==> r.model == role.value.model
    ensures !(role.Some? && role.value.model.Some?) && config.model.Some? ==>
              r.model == config.model
    ensures !(role.Some? && role.value.model.Some?) && config.model.None? ==>
              r.model == Some(defaultModel)
    ensures (role.None? || role.value.baseInstructions.None? ||
             IsBlank(role.value.baseInstructions.value)) ==>
              r.baseInstructions == config.baseInstructions
  {
    var withRole :=
      if role.None? then config
      else
        var afterModel := if role.value.model.Some? then config.(model := role.value.model) else config;
        match role.value.baseInstructions
        case Some(ri) =>
          if IsBlank(ri) then afterModel
          else
            var merged := match config.baseInstructions
              case Some(current) => if IsBlank(current) then ri else current + "\n\n" + ri
              case None => ri;
            afterModel.(baseInstructions := Some(merged))
        case None => afterModel;
    if withRole.model.None? then withRole.(model := Some(defaultModel)) else withRole
  }

  /** Non-blank role instructions always end the merged instructions, and
      non-blank instructions already present come first, separated by a
      blank line; blank ones are replaced. */
  lemma SpawnInstructionsMerge(config: SpawnConfig, defaultModel: string, role: SwarmConfig.Role)
    requires role.baseInstructions.Some? && !IsBlank(role.baseInstructions.value)
    ensures var r := BuildSpawnConfig(config, defaultModel, Some(role));
            var ri := role.baseInstructions.value;
            && r.baseInstructions.Some?
            && |r.baseInstructions.value| >= |ri|
            && r.baseInstructions.value[|r.baseInstructions.value| - |ri|..] == ri
            && (config.baseInstructions.Some? && !IsBlank(config.baseInstructions.value) ==>
                  r.baseInstructions.value ==
                  config.baseInstructions.value + "\n\n" + ri)
            && (config.baseInstructions.None? || IsBlank(config.baseInstructions.value) ==>
                  r.baseInstructions.value == ri)
  {
  }

  // ---------------------------------------------------------------------
  // Review requests
  // ---------------------------------------------------------------------

  datatype ReviewArgs = ReviewArgs(
    uncommitted: bool,
    base: Option<string>,
    commit: Option<string>,
    commitTitle: Option<string>,
    prompt: Option<string>)

  datatype ReviewTarget =
    | UncommittedChanges
    | BaseBranch(branch: string)
    | Commit(sha: string, title: Option<string>)
    | Custom(instructions: string)

  datatype ReviewRequest = ReviewRequest(target: ReviewTarget, userFacingHint: Option<string>)

  /** `build_review_request`: the first selector given wins, in the order
      uncommitted, base, commit, custom prompt. */
  function BuildReviewRequest(args: ReviewArgs, stdin: PromptDecode.Stdin)
    : (r: Result<ReviewRequest, string>)
    ensures r.Success? ==> r.value.userFacingHint.None?
    ensures args.uncommitted ==> r == Success(ReviewRequest(UncommittedChanges, None))
    ensures !args.uncommitted && args.base.Some? ==>
              r == Success(ReviewRequest(BaseBranch(args.base.value), None))
    ensures !args.uncommitted && args.base.None? && args.commit.Some? ==>
              r == Success(ReviewRequest(Commit(args.commit.value, args.commitTitle), None))
    ensures !args.uncommitted && args.base.None? && args.commit.None? && args.prompt.None? ==>
              r.Failure?
    ensures !args.uncommitted && args.base.None? && args.commit.None? && args.prompt.Some? ==>
              && (r.Success? ==>
                    && r.value.target.Custom?
                    && !IsBlank(r.value.target.instructions)
                    && PromptDecode.ResolvePrompt(args.prompt, stdin).Success?
                    && r.value.target.instructions == Trim(PromptDecode.ResolvePrompt(args.prompt, stdin).value))
              && (args.prompt.value != "-" ==>
                    (r.Success? <==> !IsBlank(args.prompt.value)))
  {
    if args.uncommitted then Success(ReviewRequest(UncommittedChanges, None))
    else if args.base.Some? then Success(ReviewRequest(BaseBranch(args.base.value), None))
    else if args.commit.Some? then
      Success(ReviewRequest(Commit(args.commit.value, args.commitTitle), None))
    else if args.prompt.Some? then
      match PromptDecode.ResolvePrompt(args.prompt, stdin)
      case Failure(e) => Failure(e)
      case Success(text) =>
        var prompt := Trim(text);
        if prompt == [] then Failure("Review prompt cannot be empty")
        else
          assert !IsBlank(prompt) by { assert !IsWhitespace(prompt[0]); }
          Success(ReviewRequest(Custom(prompt), None))
    else Failure("Specify --uncommitted, --base, --commit, or provide custom review instructions")
  }

  // ---------------------------------------------------------------------
  // Hierarchy guards
  // ---------------------------------------------------------------------

  /** The guard shared by send and close: refused only when the swarm is
      enabled, both agents are registered, and the tier rule forbids it. */
  predicate HierarchyAllows(config: SwarmConfig.Config, reg: Registry.Registry,
                            sender: Registry.ThreadId, target: Registry.ThreadId)
  {
    !config.enabled
    || Registry.Get(reg, sender).None?
    || Registry.Get(reg, target).None?
    || SwarmConfig.CanCall(config, Registry.Get(reg, sender).value.tier,
                           Registry.Get(reg, target).value.tier)
  }

  /** The checks `send` makes before delivering a message. */
  function CheckSend(config: SwarmConfig.Config, reg: Registry.Registry, sender: Registry.ThreadId,
                     receiver: Registry.ThreadId, message: string): (r: Option<string>)
    ensures r.None? <==> !IsBlank(message) && HierarchyAllows(config, reg, sender, receiver)
  {
    if IsBlank(message) then Some("Empty message can't be sent to an agent.")
    else if !HierarchyAllows(config, reg, sender, receiver) then
      Some("Swarm hierarchy prevents sending input to a higher-tier agent.")
    else None
  }

  /** The check `close` makes before shutting an agent down. */
  function CheckClose(config: SwarmConfig.Config, reg: Registry.Registry, sender: Registry.ThreadId,
                      agent: Registry.ThreadId): (r: Option<string>)
    ensures r.None? <==> HierarchyAllows(config, reg, sender, agent)
  {
    if HierarchyAllows(config, reg, sender, agent) then None
    else Some("Swarm hierarchy prevents closing a higher-tier agent.")
  }

  /** With the default hierarchy, an enabled swarm blocks exactly the
      registered senders whose tier is below the registered target's. */
  lemma DefaultHierarchyBlocksUpward(config: SwarmConfig.Config, reg: Registry.Registry,
                                     sender: Registry.ThreadId, target: Registry.ThreadId)
    requires config.hierarchy == SwarmConfig.DefaultHierarchy()
    ensures !HierarchyAllows(config, reg, sender, target) <==>
              && config.enabled
              && Registry.Get(reg, sender).Some?
              && Registry.Get(reg, target).Some?
              && Registry.Get(reg, sender).value.tier < Registry.Get(reg, target).value.tier
  {
    if config.enabled && Registry.Get(reg, sender).Some? && Registry.Get(reg, target).Some? {
      SwarmConfig.DefaultHierarchyCallsDownOrLevel(config, Registry.Get(reg, sender).value.tier,
                                                   Registry.Get(reg, target).value.tier);
    }
  }

  /** The `--agent-type` choices; mapping them onto an agent role is not
      part of this model. */
  datatype AgentType = Default | Explorer | Worker | Orchestrator

  datatype SpawnArgs = SpawnArgs(message: string, agentType: Option<AgentType>,
                                 swarmRole: Option<string>)

  /** What a permitted spawn goes ahead with. */
  datatype SpawnPlan = SpawnPlan(prompt: string, role: Option<SwarmConfig.Role>)

  /** The role name a spawn asks for: the flag, else (when the swarm is
      enabled) the configured default spawn role. */
  function SpawnRoleName(config: SwarmConfig.Config, args: SpawnArgs): Option<string> {
    if args.swarmRole.Some? then args.swarmRole
    else if config.enabled then SwarmConfig.DefaultSpawnRoleName(config)
    else None
  }

  /** The checks `spawn` makes, in the source's order: exclusive flags, a
      non-blank prompt, a known role, the hierarchy guard against the
      role's tier. */
  function PlanSpawn(config: SwarmConfig.Config, reg: Registry.Registry, sender: Registry.ThreadId,
                     args: SpawnArgs, stdin: PromptDecode.Stdin): (r: Result<SpawnPlan, string>)
    ensures args.agentType.Some? && args.swarmRole.Some? ==> r.Failure?
    ensures r.Success? ==> !IsBlank(r.value.prompt)
    ensures r.Success? ==>
              r.value.role == (match SpawnRoleName(config, args)
                               case None => None
                               case Some(name) => SwarmConfig.RoleNamed(config, name))
    ensures (SpawnRoleName(config, args).Some? &&
             SwarmConfig.RoleNamed(config, SpawnRoleName(config, args).value).None?) ==> r.Failure?
    ensures r.Success? && config.enabled && r.value.role.Some? && Registry.Get(reg, sender).Some? ==>
              SwarmConfig.CanCall(config, Registry.Get(reg, sender).value.tier, r.value.role.value.tier)
  {
    if args.agentType.Some? && args.swarmRole.Some? then
      Failure("Specify only one of --agent-type or --swarm-role.")
    else
      match PromptDecode.ResolvePrompt(Some(args.message), stdin)
      case Failure(e) => Failure(e)
      case Success(prompt) =>
        if IsBlank(prompt) then Failure("Empty message can't be sent to an agent.")
        else
          var name := SpawnRoleName(config, args);
          var role := if name.Some? then SwarmConfig.RoleNamed(config, name.value) else None;
          if name.Some? && role.None? then Failure("Unknown swarm role '" + name.value + "'.")
          else if config.enabled && role.Some? && Registry.Get(reg, sender).Some?
                  && !SwarmConfig.CanCall(config, Registry.Get(reg, sender).value.tier, role.value.tier)
          then Failure("Swarm hierarchy prevents spawning a higher-tier agent.")
          else Success(SpawnPlan(prompt, role))
  }

  /** An otherwise valid spawn is refused by the hierarchy exactly when the
      swarm is enabled, the sender is registered, and the tier rule forbids
      calling the role's tier; an unregistered sender is never blocked. */
  lemma SpawnHierarchyGuard(config: SwarmConfig.Config, reg: Registry.Registry,
                            sender: Registry.ThreadId, args: SpawnArgs, stdin: PromptDecode.Stdin,
                            role: SwarmConfig.Role)
    requires args.agentType.None? || args.swarmRole.None?
    requires args.message != "-" && !IsBlank(args.message)
    requires SpawnRoleName(config, args).Some?
    requires SwarmConfig.RoleNamed(config, SpawnRoleName(config, args).value) == Some(role)
    ensures PlanSpawn(config, reg, sender, args, stdin).Failure? <==>
              && config.enabled
              && Registry.Get(reg, sender).Some?
              && !SwarmConfig.CanCall(config, Registry.Get(reg, sender).value.tier, role.tier)
    ensures PlanSpawn(config, reg, sender, args, stdin).Success? ==>
              PlanSpawn(config, reg, sender, args, stdin).value == SpawnPlan(args.message, Some(role))
  {
  }

  /** After the agent is created, an enabled swarm records it as a child of
      the sender with the role's name and tier; otherwise the registry is
      left alone. */
  function RecordSpawn(config: SwarmConfig.Config, reg: Registry.Registry, plan: SpawnPlan,
                       newId: Registry.ThreadId, sender: Registry.ThreadId,
                       model: Option<string>): (r: Registry.Registry)
    ensures config.enabled && plan.role.Some? ==>
              Registry.Get(r, newId) ==
              Some(Registry.AgentInfo(newId, plan.role.value.name, model, plan.role.value.tier,
                                      Some(sender)))
    ensures !(config.enabled && plan.role.Some?) ==> r == reg
    ensures forall other | other != newId :: Registry.Get(r, other) == Registry.Get(reg, other)
  {
    if config.enabled && plan.role.Some? then
      Registry.RegisterChild(reg, newId, sender, plan.role.value, model)
    else reg
  }

  /** A spawn that names no role, and whose configuration supplies none
      (always so in a disabled swarm), goes ahead with its prompt and no
      role once the flags and the prompt are valid. */
  lemma SpawnWithoutRole(config: SwarmConfig.Config, reg: Registry.Registry,
                         sender: Registry.ThreadId, args: SpawnArgs, stdin: PromptDecode.Stdin)
    requires args.agentType.None? || args.swarmRole.None?
    requires args.message != "-" && !IsBlank(args.message)
    requires SpawnRoleName(config, args).None?
    ensures PlanSpawn(config, reg, sender, args, stdin) == Success(SpawnPlan(args.message, None))
  {
  }

  /** A disabled swarm neither blocks nor records anything: sends and
      closes are allowed, a valid spawn without `--swarm-role` goes ahead
      with no role, one whose role resolves goes ahead with it, and nothing
      is registered. */
  lemma DisabledSwarmIsInert(config: SwarmConfig.Config, reg: Registry.Registry,
                             sender: Registry.ThreadId, target: Registry.ThreadId,
                             plan: SpawnPlan, model: Option<string>,
                             args: SpawnArgs, stdin: PromptDecode.Stdin)
    requires !config.enabled
    ensures HierarchyAllows(config, reg, sender, target)
    ensures RecordSpawn(config, reg, plan, target, sender, model) == reg
    ensures args.agentType.None? && args.swarmRole.None? && args.message != "-" &&
            !IsBlank(args.message) ==>
              PlanSpawn(config, reg, sender, args, stdin) == Success(SpawnPlan(args.message, None))
    ensures args.agentType.None? && args.swarmRole.Some? && args.message != "-" &&
            !IsBlank(args.message) && SwarmConfig.RoleNamed(config, args.swarmRole.value).Some? ==>
              PlanSpawn(config, reg, sender, args, stdin) ==
              Success(SpawnPlan(args.message, SwarmConfig.RoleNamed(config, args.swarmRole.value)))
  {
    if args.agentType.None? && args.swarmRole.None? && args.message != "-" && !IsBlank(args.message) {
      SpawnWithoutRole(config, reg, sender, args, stdin);
    }
  }

  /** A custom prompt is trimmed before use: whitespace padding around a
      prompt that neither starts nor ends with whitespace is removed, as in
      the source's test with "  custom review instructions  ". */
  lemma CustomReviewIsTrimmed(pre: string, core: string, post: string, stdin: PromptDecode.Stdin)
    requires forall i | 0 <= i < |pre| :: IsWhitespace(pre[i])
    requires forall i | 0 <= i < |post| :: IsWhitespace(post[i])
    requires |core| > 0 && !IsWhitespace(core[0]) && !IsWhitespace(core[|core| - 1])
    requires pre + core + post != "-"
    ensures BuildReviewRequest(ReviewArgs(false, None, None, None, Some(pre + core + post)), stdin) ==
            Success(ReviewRequest(Custom(core), None))
  {
    var prompt := pre + core + post;
    TrimPadded(pre, core, post);
    assert prompt[|pre|] == core[0];
    assert !IsBlank(prompt);
  }

  /** The source's review tests. */
  lemma ReviewExamples(stdin: PromptDecode.Stdin)
    ensures BuildReviewRequest(ReviewArgs(true, None, None, None, None), stdin) ==
            Success(ReviewRequest(UncommittedChanges, None))
    ensures BuildReviewRequest(ReviewArgs(false, None, Some("123456789"), Some("Add review command"), None), stdin) ==
            Success(ReviewRequest(Commit("123456789", Some("Add review command")), None))
  {
  }
}
