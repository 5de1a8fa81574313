# Swarm coordination core, modelled in Dafny

This project models the deterministic core of the agent "swarm" in the Codex
CLI. It covers six components:

- **Swarm configuration** (`SwarmConfig`): the role table, the tier rule
  `can_call` that decides which agent may address which, role lookup, and the
  merge of the `[swarm]` TOML table over the built-in defaults.
- **Agent registry** (`Registry`): a map from thread id to agent info, root and
  child registration, and the snapshot/rebuild round trip used for
  persistence.
- **Swarm hub** (`Hub`): one immutable `HubState` record, with one pure
  function per `SwarmHub` mutator. It covers the bounded lounge, votes, the
  timer, the leak tracker, and the task/evidence/decision/artifact logs. It
  also covers configuration, storage-path precedence and the load-time merge.
- **Hub tool handler** (`HubHandler`): `SwarmHubHandler::handle` as one atomic
  step from a hub state to a reply and the next hub state, plus the default
  vote weight.
- **`codex exec` helpers** (`Exec`, `PromptDecode`, `Utf8`, `Utf16`):
  - the byte-order-mark sniffing prompt decoder, with UTF-8 as defined in
    RFC 3629 and UTF-16 as defined in RFC 2781;
  - prompt resolution and wait-timeout clamping;
  - status text, the spawn configuration merge and review-target selection;
  - the hierarchy guards run before spawn, send and close.
- **Pager and swarm overlay arithmetic** (`Pager`, `Overlay`):
  - the pager's content area, scroll keys, bottom detection, render clamp
    and chunk visibility;
  - the overlay's three-pane width split, tab cycling and agent selection.

Support modules:

- `Wrappers`: `Option`/`Result`.
- `Bounded`: Rust's `u8`/`u16`/`usize`/`i32`/`i64` ranges and their
  saturating operations. `usize` is taken as 64 bits.
- `Text`: Rust's `str::trim` over the Unicode White_Space set, and
  `eq_ignore_ascii_case`.
- `Paths`: paths as component sequences. `Storage` models a file system as a
  map from path to an absent, unreadable, malformed or parsed file.

Where the source reads a clock, draws a UUID or reads a file, the model takes
the value as a parameter (`Call.nowMs`, `Call.freshId`, `Call.leakFile`,
`Stdin`, `FileSystem`).

Where the source does something its authors evidently did not intend (see
"## Findings"), the member named after the source function models the code
as written. A separate member models the corrected behaviour:
`Exec.TruncatePreviewIntended`, `Pager.EnsureChunkVisible` and
`Pager.RenderIntended`.

## Model

| member | source | states |
|---|---|---|
| SwarmConfig.CanCall | codex-rs/core/src/swarm/config.rs:143-151 | A caller may always address a lower tier; the same tier only when same-tier calls are allowed; a higher tier only when upward calls are allowed |
| SwarmConfig.DefaultHierarchyCallsDownOrLevel | codex-rs/core/src/swarm/config.rs:50-57 | Under the default hierarchy an agent may call exactly the agents whose tier is not above its own |
| SwarmConfig.CanCallExtremes | codex-rs/core/src/swarm/config.rs:143-151 | With both flags off only strictly downward calls pass; with both on every call passes |
| SwarmConfig.FirstMatch | codex-rs/core/src/swarm/config.rs:115-117 | The index found is the first role from the start position whose name equals the query up to ASCII case; none means no role there matches |
| SwarmConfig.RoleNamed | codex-rs/core/src/swarm/config.rs:110-118 | A blank query finds nothing; otherwise the result is the first role whose name equals the trimmed query up to ASCII case, and none means no role matches |
| SwarmConfig.LastMaxTier | codex-rs/core/src/swarm/config.rs:124-128 | The chosen role has a maximal tier and no later role has the same tier, which is what `max_by_key` returns |
| SwarmConfig.RootRoleName | codex-rs/core/src/swarm/config.rs:120-130 | The configured root name when it resolves to a role; otherwise the name of the last maximal-tier role; none only when there are no roles |
| SwarmConfig.DefaultSpawnRoleName | codex-rs/core/src/swarm/config.rs:132-141 | The configured spawn name when it resolves; otherwise the first role's name; none exactly when there are no roles |
| SwarmConfig.ConvertRoles | codex-rs/core/src/swarm/config.rs:79-99 | Conversion never yields more roles than there are entries |
| SwarmConfig.ConvertRolesNames | codex-rs/core/src/swarm/config.rs:79-99 | Converted roles never have blank names, and the result is empty exactly when every entry's name is blank |
| SwarmConfig.ConvertRolesAppend | codex-rs/core/src/swarm/config.rs:79-99 | Conversion keeps the list's order and converts each entry once, at its own index. Over a concatenation it is the two conversions joined. First-match lookup and "first role" spawning depend on this order |
| SwarmConfig.ConvertRolesSingle | codex-rs/core/src/swarm/config.rs:81-95 | One entry gives its own role, with its tier or its index, or nothing when its name is blank |
| SwarmConfig.ConvertRolesKeepsNamed | codex-rs/core/src/swarm/config.rs:79-99 | Every entry with a non-blank name is kept, with its own tier or else its index in the original list, skipped entries included |
| SwarmConfig.ConvertRolesOnlyNamed | codex-rs/core/src/swarm/config.rs:79-99 | Conversely, every converted role comes from a non-blank entry at the index its default tier records |
| SwarmConfig.FromToml | codex-rs/core/src/swarm/config.rs:60-108 | No table gives the defaults. Otherwise each field is merged over its default: blank root/spawn names keep Scholar/Scribe, absent hierarchy flags keep their defaults, a table without a hub section keeps the empty hub settings, and an all-blank role list keeps the default roles |
| SwarmConfig.DefaultConfigFacts | codex-rs/core/src/swarm/config.rs:37-48 | The swarm is off by default; the roles are Scout, Scribe and Scholar on tiers 0, 1 and 2; the root resolves to Scholar and new agents to Scribe |
| SwarmConfig.FromTomlAlwaysHasRoles | codex-rs/core/src/swarm/config.rs:177-201 | Whatever the TOML says, the merged configuration has at least one role, so the root and default spawn roles always resolve to a name |
| SwarmConfig.EmptyTomlIsDefault | codex-rs/core/src/swarm/config.rs:60-108 | A TOML table with every field absent changes nothing |
| Text.Trim | codex-rs/core/src/swarm/config.rs:111 | The trimmed text is empty exactly when the input is all whitespace, and otherwise neither starts nor ends with whitespace |
| Text.TrimPadded | codex-rs/exec/src/lib.rs:1345-1350 | Trimming removes exactly the whitespace padding around a core that neither starts nor ends with whitespace |
| Text.EqIgnoreAsciiCaseIsEquivalence | codex-rs/core/src/swarm/config.rs:115-117 | ASCII case-insensitive name equality is reflexive, symmetric and transitive |
| Paths.JoinInjective | codex-rs/core/src/swarm/registry.rs:161-170 | Two joined paths are equal exactly when their directories and names are, so distinct file names never collide |
| Registry.New | codex-rs/core/src/swarm/registry.rs:37-50 | A new registry is empty, has no storage directory, and treats an empty codex home as none |
| Registry.ApplyStorageDir | codex-rs/core/src/swarm/registry.rs:52-57 | Only a configured directory replaces the current one; none changes nothing |
| Registry.StatePath | codex-rs/core/src/swarm/registry.rs:161-170 | `swarm_registry.json` goes in the storage directory, else in `swarm/` under the codex home, else nowhere |
| Registry.StatePathPrecedence | codex-rs/core/src/swarm/registry.rs:37-42 | A registry over an empty home has nowhere to persist, and once a directory is applied the home no longer matters |
| Registry.Insert | codex-rs/core/src/swarm/registry.rs:133-142 | The entry is filed under its own thread id, overwriting any earlier entry for it; every other entry is unchanged |
| Registry.RegisterRoot | codex-rs/core/src/swarm/registry.rs:80-94 | A root is stored with no parent and the role's name and tier; no other agent changes |
| Registry.RegisterChild | codex-rs/core/src/swarm/registry.rs:96-111 | A child is stored with its parent and the role's name and tier, the parent unchecked; no other agent changes |
| Registry.Get | codex-rs/core/src/swarm/registry.rs:113-116 | `get` finds an agent exactly when one is registered under the id, and what it returns is filed under that same id; Registry.GetAfterInserts says which one it is after any run of inserts |
| Registry.GetAfterInserts | codex-rs/core/src/swarm/registry.rs:113-116 | After any run of inserts, `get` returns the most recently inserted info for the id, or what was there before if the id was never inserted |
| Registry.Snapshot | codex-rs/core/src/swarm/registry.rs:118-121 | The snapshot lists every registered agent exactly once and nothing else |
| Registry.LastIndexOf | codex-rs/core/src/swarm/registry.rs:72-76 | The index found holds the id and no later entry does; none means the id is absent |
| Registry.Rebuild | codex-rs/core/src/swarm/registry.rs:72-76 | Loading a list never yields more agents than the list holds, duplicate ids collapsing into one; Registry.RebuildLastWins says which entry survives |
| Registry.RebuildLastWins | codex-rs/core/src/swarm/registry.rs:72-76 | The rebuilt map holds an id exactly when the list does, and maps it to the last entry listed for it |
| Registry.RebuildListing | codex-rs/core/src/swarm/registry.rs:123-131 | Rebuilding from any listing of a registry's agents gives back the registry's map |
| Registry.LoadFromStorage | codex-rs/core/src/swarm/registry.rs:59-78 | No path or no file leaves the registry as it is; an unreadable or unparseable file is an error; a parsed list replaces the map |
| Registry.Persist | codex-rs/core/src/swarm/registry.rs:144-159 | With a state path, the snapshot is what the file at that path holds afterwards; every other file is untouched and no other file appears. Without a path nothing is written. Registry.PersistThenLoad is its inverse |
| Registry.PersistThenLoad | codex-rs/core/src/swarm/registry.rs:123-131 | A registry that loads what another persisted at the same path ends up with exactly the other's agents |
| Hub.DefaultState | codex-rs/core/src/swarm/hub.rs:107-127 | The default hub state has every collection empty, no storage directory or leak path, and a stopped timer with no label, duration or start |
| Hub.NewHub | codex-rs/core/src/swarm/hub.rs:141-148 | A new hub has every collection empty, no paths, and a stopped timer with no label, duration or start |
| Hub.LoungeAppend | codex-rs/core/src/swarm/hub.rs:204-214 | The entry goes at the back; under the cap nothing is dropped, at the cap exactly the oldest entry is; the lounge stays within 500; nothing else changes |
| Hub.LoungeKeepsNewest | codex-rs/core/src/swarm/hub.rs:204-214 | Any run of appends leaves exactly the newest 500 entries ever held, oldest first |
| Hub.LoungeClear | codex-rs/core/src/swarm/hub.rs:216-223 | The lounge is emptied and every other field is unchanged |
| Hub.VoteIndex | codex-rs/core/src/swarm/hub.rs:228 | The index found is the first vote with the id; none means no vote has it |
| Hub.UpsertVote | codex-rs/core/src/swarm/hub.rs:225-236 | A vote with the same id is replaced in place, otherwise the vote is appended; nothing else changes |
| Hub.UpsertVoteLookup | codex-rs/core/src/swarm/hub.rs:225-236 | After an upsert the id finds the new vote, other ids find what they found before, unique ids stay unique, and the count grows only for a new id |
| Hub.FindVote | codex-rs/core/src/swarm/hub.rs:228 | A lookup finds a vote exactly when some vote has the id, and the vote it finds is one of the stored votes with that id |
| Hub.SetTimer | codex-rs/core/src/swarm/hub.rs:238-245 | The timer is replaced wholesale and nothing else changes |
| Hub.LeakTrackerSetPath | codex-rs/core/src/swarm/hub.rs:247-261 | The path is always replaced; with loading asked for, a readable file's entries replace the list, and otherwise the list is kept |
| Hub.LeakTrackerAdd | codex-rs/core/src/swarm/hub.rs:263-271 | The entry is appended to the leak list and nothing else changes |
| Hub.LeakTrackerClear | codex-rs/core/src/swarm/hub.rs:273-281 | The leak list is emptied, and the leak path and everything else are kept |
| Hub.TaskAdd | codex-rs/core/src/swarm/hub.rs:283-290 | The task is appended to the task log only |
| Hub.EvidenceAdd | codex-rs/core/src/swarm/hub.rs:292-299 | The entry is appended to the evidence log only |
| Hub.DecisionAdd | codex-rs/core/src/swarm/hub.rs:301-308 | The entry is appended to the decision log only |
| Hub.ArtifactAdd | codex-rs/core/src/swarm/hub.rs:310-317 | The entry is appended to the artifact log only |
| Hub.AppendOnlyLogsCommute | codex-rs/core/src/swarm/hub.rs:283-317 | Each add keeps every earlier entry at its index, and adds to different logs commute |
| Hub.ApplyConfig | codex-rs/core/src/swarm/hub.rs:150-162 | A configured storage directory replaces the current one; a configured leak path wins; otherwise an unset leak path becomes `leak_tracker.json` in the configured directory |
| Hub.ApplyConfigIdempotent | codex-rs/core/src/swarm/hub.rs:150-162 | Applying the same configuration twice is the same as applying it once |
| Hub.HubStatePath | codex-rs/core/src/swarm/hub.rs:370-376 | `swarm_hub.json` goes in the storage directory, else in `swarm/` under the codex home, else nowhere |
| Hub.LeakTrackerExportPath | codex-rs/core/src/swarm/hub.rs:336-353 | The leak file is the leak path, else `leak_tracker.json` in the storage directory, else `swarm_leak_tracker.json` in the home; none exactly when all three are missing |
| Hub.ConfiguredStorageDirGovernsPaths | codex-rs/core/src/swarm/hub.rs:150-162 | Once a storage directory is configured, the hub state is stored in it and the leak file no longer depends on the home |
| Hub.MergeLoaded | codex-rs/core/src/swarm/hub.rs:183-188 | The loaded state wins, except that the current leak path and storage directory override the loaded ones when set |
| Hub.LoadFromStorage | codex-rs/core/src/swarm/hub.rs:164-192 | No path or no file keeps the state; an unreadable or unparseable file is an error; a parsed file replaces the state apart from the configured paths |
| Hub.PersistThenLoad | codex-rs/core/src/swarm/hub.rs:164-192 | A hub configured with the same paths as the saved one, or with none, gets back exactly the saved state across a restart |
| Hub.Persist | codex-rs/core/src/swarm/hub.rs:319-334 | With a state path, the whole state is what the file at that path holds afterwards; every other file is untouched and no other file appears. Without a path nothing is written. Hub.PersistThenLoad is its inverse |
| HubHandler.Reverse | codex-rs/core/src/tools/handlers/swarm.rs:143-147 | The result holds the same entries in the opposite order |
| HubHandler.NewestFirst | codex-rs/core/src/tools/handlers/swarm.rs:143-147 | A listing holds the newest entries first, and at most `limit` of them (all when there is no limit) |
| HubHandler.NewestFirstUnlimited | codex-rs/core/src/tools/handlers/swarm.rs:143-147 | Without a limit a listing is the whole store reversed, and reversing it again gives the store in insertion order |
| HubHandler.NewestFirstAfterAppend | codex-rs/core/src/tools/handlers/swarm.rs:324-328 | The entry just appended is the first one listed, followed by the listing from before the append |
| HubHandler.DefaultVoteWeight | codex-rs/core/src/tools/handlers/swarm.rs:402-416 | The weight is 2 exactly when the caller is registered with role "scholar" in any ASCII case or tier at least 2, and 1 otherwise, unregistered callers included |
| HubHandler.DefaultVoteWeightByRole | codex-rs/core/src/tools/handlers/swarm.rs:402-416 | An agent registered under the default Scholar role weighs 2 and one registered as Scout weighs 1 |
| HubHandler.CastVote | codex-rs/core/src/tools/handlers/swarm.rs:169-200 | An unknown vote id is refused first, then a non-positive weight, both leaving the hub as it was. Otherwise the cast succeeds: the vote keeps its id and gains one ballot at the end, with the given weight or the caller's default and the caller as voter. The hub afterwards is the old one with that vote upserted and nothing else changed, so the hub's lookup of the id finds the updated vote |
| HubHandler.FilterVotes | codex-rs/core/src/tools/handlers/swarm.rs:203-210 | The result holds exactly the votes with the given id |
| HubHandler.FilterVotesAppend | codex-rs/core/src/tools/handlers/swarm.rs:203-210 | Filtering keeps order and multiplicity. It distributes over concatenation, and keeps a single vote exactly when its id matches |
| HubHandler.FilterUniqueIsFind | codex-rs/core/src/tools/handlers/swarm.rs:203-210 | When vote ids are unique, as upserting keeps them, the filter returns the vote the hub's lookup finds, or nothing |
| HubHandler.RejectedOrReadKeepsHub | codex-rs/core/src/tools/handlers/swarm.rs:112-400 | A rejected call leaves the hub untouched, and read actions always succeed without changing it |
| HubHandler.LoungeWriteEffects | codex-rs/core/src/tools/handlers/swarm.rs:126-152 | `handle` for a non-blank lounge append replies ok and applies `lounge_append` to an entry that carries the text, the caller as author and the clock's time. A lounge clear replies ok and empties only the lounge |
| HubHandler.LeakWriteEffects | codex-rs/core/src/tools/handlers/swarm.rs:242-302 | `handle` for leak_tracker_set_path applies `leak_tracker_set_path` with the given flag, or with `true` when none is given, so by default the readable file's entries replace the current ones. An add with a non-blank label and value appends an entry carrying the fresh id, the clock and the caller. A clear empties the entries and keeps everything else |
| HubHandler.RecordWriteEffects | codex-rs/core/src/tools/handlers/swarm.rs:330-391 | `handle` for an evidence, decision or artifact add with its required text non-blank replies with the new entry, built from the fresh id and the clock. It appends exactly that entry to its own log and changes nothing else |
| HubHandler.TaskVoteWriteEffects | codex-rs/core/src/tools/handlers/swarm.rs:153-322 | `handle` for a non-blank task add replies with a task that carries the given status, or "pending" when none is given, the caller as owner, the fresh id and the clock. It appends that task to the tasks alone. A valid vote create upserts the new ballot-less vote under the fresh id and changes nothing else. A cast is exactly `CastVote` |
| HubHandler.TimerEffects | codex-rs/core/src/tools/handlers/swarm.rs:214-240 | On any hub, a start replaces the timer with a running one started now, and a stop clears the running flag and the start of whatever timer is there, keeping its label and duration, and replies with the stopped timer. A status query replies with the timer unchanged. No other part of the hub changes |
| HubHandler.FailsExactlyOnInvalidArguments | codex-rs/core/src/tools/handlers/swarm.rs:126-200 | Each add fails exactly when its required text is blank; a vote create fails exactly on a blank topic or no options; a vote cast fails exactly on an unknown id or a non-positive weight; every other action succeeds |
| HubHandler.ListingsAreNewestFirst | codex-rs/core/src/tools/handlers/swarm.rs:281-396 | Every list action replies with its store newest first and at most `limit` long |
| HubHandler.TaskAddThenList | codex-rs/core/src/tools/handlers/swarm.rs:303-329 | A task added without a status is pending and owned by the caller, and a listing of one returns it |
| HubHandler.VoteCreateAppends | codex-rs/core/src/tools/handlers/swarm.rs:153-167 | A new vote has no ballots and, with a fresh id, is appended to the votes |
| HubHandler.VoteCastAppendsBallot | codex-rs/core/src/tools/handlers/swarm.rs:169-200 | A cast appends one ballot (the given or default weight, the caller as voter), keeps the earlier ones and leaves the rest of the vote alone; the option is not checked |
| HubHandler.RepeatedVoteCastAddsBallots | codex-rs/core/src/tools/handlers/swarm.rs:169-200 | Two casts by the same caller both count |
| HubHandler.TimerStartStop | codex-rs/core/src/tools/handlers/swarm.rs:214-237 | Starting records the clock and sets running; stopping clears running and the start and keeps the label and duration |
| HubHandler.VoteStatusFilters | codex-rs/core/src/tools/handlers/swarm.rs:201-213 | With an id the status reply holds exactly the votes with that id, and with unique ids it is the single vote the lookup finds, or none; without an id it holds all votes |
| Utf8.CharLen | codex-rs/exec/src/lib.rs:1271-1275 | A well-formed character is at most 4 bytes, and its length is the one its lead byte announces |
| Utf8.EncodeCharWellFormed | codex-rs/exec/src/lib.rs:1271-1275 | The encoding of a character is one well-formed sequence that decodes back to it |
| Utf8.CharValueEncodes | codex-rs/exec/src/lib.rs:1271-1275 | A well-formed sequence is exactly the encoding of the character it decodes to |
| Utf8.Decode | codex-rs/exec/src/lib.rs:1271-1275 | A decoding error position lies inside the input |
| Utf8.DecodeEncode | codex-rs/exec/src/lib.rs:1271-1275 | Encoding text as UTF-8 and decoding it gives the text back |
| Utf8.EncodeDecode | codex-rs/exec/src/lib.rs:1271-1275 | Bytes that decode are exactly the encoding of what they decode to |
| Utf8.ValidUpTo | codex-rs/exec/src/lib.rs:1271-1275 | On an error, the bytes before the error position decode, and no character starts at that position |
| Utf8.ValidUpToIsLongest | codex-rs/exec/src/lib.rs:1271-1275 | No prefix longer than the error position decodes |
| Utf8.InvalidSecondByte | codex-rs/exec/src/lib.rs:1497-1505 | C3 28 fails at position 0 |
| Utf16.EncodeChar | codex-rs/exec/src/lib.rs:1292 | A character takes one code unit exactly when it lies below U+10000, and two otherwise |
| Utf16.DecodeEncode | codex-rs/exec/src/lib.rs:1292 | Encoding text as UTF-16 and decoding it gives the text back |
| Utf16.EncodeDecode | codex-rs/exec/src/lib.rs:1292 | Code units that decode are exactly the encoding of what they decode to |
| Utf16.UnpairedSurrogates | codex-rs/exec/src/lib.rs:1292 | A trailing high surrogate or a leading low surrogate makes decoding fail |
| Utf16.UnpairedHighAtEnd | codex-rs/exec/src/lib.rs:1292 | Whatever precedes it, a high surrogate at the end makes decoding fail |
| Utf16.Units | codex-rs/exec/src/lib.rs:1287-1290 | An even number of bytes gives half as many code units |
| Utf16.UnitsBytes | codex-rs/exec/src/lib.rs:1287-1290 | Serialising code units and reading them back in the same byte order gives the units |
| Utf16.BytesUnits | codex-rs/exec/src/lib.rs:1287-1290 | Reading an even number of bytes as units and serialising them again gives the bytes |
| PromptDecode.StripUtf8Bom | codex-rs/exec/src/lib.rs:1249 | Input starting with EF BB BF loses exactly those three bytes; other input is unchanged |
| PromptDecode.DecodeUtf16Bytes | codex-rs/exec/src/lib.rs:1278-1293 | An odd byte count fails; any failure names the encoding; a success is text whose UTF-16 encoding is the input's units |
| PromptDecode.DecodePromptBytes | codex-rs/exec/src/lib.rs:1248-1276 | After the UTF-8 mark is stripped, FF FE 00 00 is refused as UTF-32LE before the UTF-16 marks are tried, then 00 00 FE FF as UTF-32BE; unmarked input decodes to text whose UTF-8 encoding it is |
| PromptDecode.Utf8BytesBelowF5 | codex-rs/exec/src/lib.rs:1251-1269 | UTF-8 never uses a byte above F4, so never FE or FF |
| PromptDecode.Utf8NotOtherBom | codex-rs/exec/src/lib.rs:1251-1269 | UTF-8 text never starts with a UTF-16 or UTF-32 mark |
| PromptDecode.Utf8Branch | codex-rs/exec/src/lib.rs:1271-1275 | Unmarked input decodes as UTF-8, and a UTF-8 error reports its valid-up-to position |
| PromptDecode.Utf16LeBranch | codex-rs/exec/src/lib.rs:1251-1265 | After FF FE, two zero bytes mean UTF-32LE; anything else is decoded as little-endian UTF-16 |
| PromptDecode.Utf16BeBranch | codex-rs/exec/src/lib.rs:1267-1269 | After FE FF the rest is decoded as big-endian UTF-16 |
| PromptDecode.Utf16BytesRoundTrip | codex-rs/exec/src/lib.rs:1278-1293 | Serialised UTF-16 decodes back in either byte order |
| PromptDecode.Utf8WithBomRoundTrip | codex-rs/exec/src/lib.rs:1432-1439 | UTF-8 text after the UTF-8 mark always reads back |
| PromptDecode.Utf8BomIsFeff | codex-rs/exec/src/lib.rs:1249 | The UTF-8 mark is the encoding of U+FEFF |
| PromptDecode.Utf8StartsWithBom | codex-rs/exec/src/lib.rs:1249 | Encoded text starts with the UTF-8 mark exactly when the text starts with U+FEFF |
| PromptDecode.Utf8WithoutBomRoundTrip | codex-rs/exec/src/lib.rs:1248-1276 | Unmarked UTF-8 text reads back, except that a leading U+FEFF is taken for a mark and dropped |
| PromptDecode.Utf16BeRoundTrip | codex-rs/exec/src/lib.rs:1451-1459 | Big-endian UTF-16 after its mark always reads back |
| PromptDecode.Utf16LeLeadingZeros | codex-rs/exec/src/lib.rs:1251-1255 | Little-endian UTF-16 starts with two zero bytes exactly when the text starts with U+0000 |
| PromptDecode.Utf16LeRoundTrip | codex-rs/exec/src/lib.rs:1441-1449 | Little-endian UTF-16 after its mark reads back, except that text starting with U+0000 is taken for UTF-32LE |
| PromptDecode.OddUtf16IsInvalid | codex-rs/exec/src/lib.rs:1283-1285 | An odd number of bytes after a UTF-16 mark is an `InvalidUtf16` error for that encoding |
| PromptDecode.InvalidUtf8IsLongestValidPrefix | codex-rs/exec/src/lib.rs:1271-1275 | An `InvalidUtf8` error carries the length of the longest well-formed prefix |
| PromptDecode.Utf8BomExample | codex-rs/exec/src/lib.rs:1432-1439 | EF BB BF "hi\n" decodes to "hi\n" |
| PromptDecode.Utf16LeExample | codex-rs/exec/src/lib.rs:1441-1449 | FF FE followed by "hi\n" in little-endian UTF-16 decodes to "hi\n" |
| PromptDecode.Utf16BeExample | codex-rs/exec/src/lib.rs:1451-1459 | FE FF followed by "hi\n" in big-endian UTF-16 decodes to "hi\n" |
| PromptDecode.Utf32Examples | codex-rs/exec/src/lib.rs:1461-1495 | Both UTF-32 marks are refused as unsupported, naming the encoding |
| PromptDecode.InvalidUtf8Example | codex-rs/exec/src/lib.rs:1497-1505 | C3 28 is invalid UTF-8 with 0 valid bytes |
| PromptDecode.ResolvePrompt | codex-rs/exec/src/lib.rs:1295-1333 | An argument other than "-" is the prompt; otherwise a terminal without "-" is an error, and a success is non-blank text decoded from stdin |
| Exec.ResolveWaitTimeout | codex-rs/exec/src/lib.rs:1093-1101 | No timeout gives 30000 ms; a non-positive one is an error; any other is clamped into [10000, 300000] |
| Exec.ResolveWaitTimeoutIdempotent | codex-rs/exec/src/lib.rs:1093-1101 | A resolved timeout resolves to itself |
| Exec.TruncatePreview | codex-rs/exec/src/lib.rs:1166-1172 | Text within the limit is unchanged. Longer text keeps its first `max` characters followed by the literal's three characters U+00E2 U+20AC U+00A6 |
| Exec.TruncatePreviewBounds | codex-rs/exec/src/lib.rs:1166-1172 | A preview keeps the text's first `max` characters, is its full length or exactly `max + 3` long, and is empty only for empty text |
| Exec.AsWrittenPreviewMarker | codex-rs/exec/src/lib.rs:1171 | The marker's UTF-8 bytes are C3 A2 E2 82 AC C2 A6, which is U+2026 (E2 80 A6) read as Windows-1252. It is not U+2026, and a text one or two characters over the limit gets longer when "truncated" |
| Exec.TruncatePreviewIntended | codex-rs/exec/src/lib.rs:1166-1172 | With a single U+2026 as marker, longer text keeps its first `max` characters followed by that character |
| Exec.TruncatePreviewIntendedBounds | codex-rs/exec/src/lib.rs:1166-1172 | With the intended marker a preview is `min(len, max + 1)` long and never longer than the text. It equals the source's preview exactly when the text is not cut |
| Exec.FormatAgentStatus | codex-rs/exec/src/lib.rs:1140-1164 | Pending, running, shut-down and missing agents print fixed words. Completed and errored agents show a quoted preview of the trimmed message when it is not blank, else the bare word. The text is at most 12 + 120 + 4 characters |
| Exec.IsFinalStatus | codex-rs/exec/src/lib.rs:1125-1127 | Completed, errored, shut-down and missing agents are final; pending and running agents are not |
| Exec.NonFinalIffStillWorking | codex-rs/exec/src/lib.rs:1125-1127 | A status is not final exactly when it prints as "pending init" or "running" |
| Exec.BuildSpawnConfig | codex-rs/exec/src/lib.rs:1056-1079 | A role model overrides the configured model, a missing model becomes the default, and blank or absent role instructions leave the instructions alone |
| Exec.SpawnInstructionsMerge | codex-rs/exec/src/lib.rs:1056-1079 | Non-blank role instructions end the result, after non-blank existing instructions and a blank line, or alone |
| Exec.BuildReviewRequest | codex-rs/exec/src/lib.rs:1335-1363 | The first selector given wins, in the order uncommitted, base, commit, custom prompt; a custom prompt is trimmed and refused when blank; no selector is an error |
| Exec.CustomReviewIsTrimmed | codex-rs/exec/src/lib.rs:1345-1350 | A custom prompt padded with whitespace becomes a custom target with exactly the padding removed, as the source test with "  custom review instructions  " expects |
| Exec.ReviewExamples | codex-rs/exec/src/lib.rs:1370-1409 | The uncommitted flag and a commit with a title give the expected targets. The third test, a padded custom prompt, is covered in general by Exec.CustomReviewIsTrimmed |
| Exec.CheckSend | codex-rs/exec/src/lib.rs:846-857 | A send goes ahead exactly when the message is not blank and the hierarchy allows it |
| Exec.CheckClose | codex-rs/exec/src/lib.rs:932-940 | A close goes ahead exactly when the hierarchy allows it |
| Exec.DefaultHierarchyBlocksUpward | codex-rs/exec/src/lib.rs:849-857 | Under the default hierarchy an enabled swarm blocks exactly the registered senders whose tier is below the registered target's |
| Exec.PlanSpawn | codex-rs/exec/src/lib.rs:788-817 | Both agent type and role is an error, a spawn needs a non-blank prompt and a known role, and a permitted spawn never calls up the tiers when the swarm is enabled and the sender registered. Exec.SpawnHierarchyGuard and Exec.SpawnWithoutRole give its full outcome on valid arguments, with and without a role |
| Exec.SpawnHierarchyGuard | codex-rs/exec/src/lib.rs:811-817 | An otherwise valid spawn is refused exactly when the swarm is enabled, the sender is registered and the tier rule forbids the role's tier |
| Exec.SpawnWithoutRole | codex-rs/exec/src/lib.rs:788-817 | A valid spawn that names no role, and whose configuration supplies none (always so in a disabled swarm), goes ahead with its prompt and no role |
| Exec.RecordSpawn | codex-rs/exec/src/lib.rs:826-832 | An enabled swarm records the new agent as the sender's child with the role's name and tier; otherwise the registry is unchanged |
| Exec.DisabledSwarmIsInert | codex-rs/exec/src/lib.rs:788-832 | A disabled swarm neither blocks nor records anything. Sends and closes are allowed. A valid spawn goes ahead with no role, or with the named role when it resolves. Nothing is registered |
| Pager.ChunkStartMonotone | codex-rs/tui/src/pager_overlay.rs:372-378 | Chunks start no higher than the ones before them and end within the content |
| Pager.ContentArea | codex-rs/tui/src/pager_overlay.rs:334-339 | The content area is the frame less one header row and one bottom-bar row, saturating at zero height |
| Pager.ContentAreaInsideFrame | codex-rs/tui/src/pager_overlay.rs:334-339 | Away from the coordinate limit, the content area sits one row in from each edge of the frame |
| Pager.PageHeight | codex-rs/tui/src/pager_overlay.rs:325-328 | A page is the last rendered content height, else the viewport's content area |
| Pager.HalfPage | codex-rs/tui/src/pager_overlay.rs:295-303 | Half a page is half the content area's height rounded up: twice it is the height or one more |
| Pager.ScrollBy | codex-rs/tui/src/pager_overlay.rs:276-318 | The keys move the offset by a saturating one, page or half page; Home goes to 0 and End to `usize::MAX` |
| Pager.HandleKey | codex-rs/tui/src/pager_overlay.rs:276-318 | A key changes only the scroll offset |
| Pager.ScrollKeysUndo | codex-rs/tui/src/pager_overlay.rs:276-318 | A move and the opposite move by the same amount cancel unless the first one saturated |
| Pager.IsScrolledToBottom | codex-rs/tui/src/pager_overlay.rs:343-361 | The maximal offset is always at the bottom; before any render nothing else is; afterwards it is at the bottom exactly when the view reaches the last rendered row |
| Pager.ClampScroll | codex-rs/tui/src/pager_overlay.rs:191-193 | The clamp never scrolls down, leaves no empty space below a full page, and goes to the top when everything fits |
| Pager.Render | codex-rs/tui/src/pager_overlay.rs:179-198 | A render remembers the content and rendered heights. It consumes a pending chunk request: the offset becomes what the as-written `ensure_chunk_visible` chooses, clamped to the last full page. Without a request it only clamps the offset |
| Pager.RenderIntended | codex-rs/tui/src/pager_overlay.rs:179-198 | The same render with the corrected chunk scroll: a pending request's offset is the corrected choice, clamped. Without a pending request it is the source's render |
| Pager.EndThenRenderIsAtBottom | codex-rs/tui/src/pager_overlay.rs:343-361 | After End, and after End and a render, the view counts as scrolled to the bottom |
| Pager.EnsureChunkVisibleAsWritten | codex-rs/tui/src/pager_overlay.rs:368-386 | A zero-height view or an out-of-range chunk leaves the offset unchanged. A chunk starting above the view becomes the top. A chunk that ends before the view's last row leaves the offset unchanged. A chunk that ends lower puts the offset at its end minus `height - 1`, saturating at 0, so a chunk strictly shorter than the view ends up fully shown |
| Pager.AsWrittenHidesTopRow | codex-rs/tui/src/pager_overlay.rs:380-385 | A fully shown chunk as tall as the view is scrolled so that its top row is hidden, and the render clamp keeps it hidden. The source's render ends at offset 1 where the corrected render stays at 0 |
| Pager.EnsureChunkVisible | codex-rs/tui/src/pager_overlay.rs:1370-1389 | A chunk that fits in the view ends up fully shown; a chunk already shown leaves the offset unchanged; a zero-height view or an out-of-range chunk changes nothing |
| Pager.ClampKeepsChunkVisible | codex-rs/tui/src/pager_overlay.rs:191-193 | The render clamp keeps a shown chunk shown |
| Pager.RenderShowsPendingChunk | codex-rs/tui/src/pager_overlay.rs:179-198 | After the source's render, a pending chunk strictly shorter than the content area is fully shown |
| Pager.RenderIntendedShowsPendingChunk | codex-rs/tui/src/pager_overlay.rs:179-198 | After the corrected render, any pending chunk that fits in a non-empty content area is fully shown |
| Pager.SourceExamples | codex-rs/tui/src/pager_overlay.rs:1962-2014 | The third chunk of heights 1, 3, 3 is brought into a six-row view, and scrolling back to the first chunk returns to the top |
| Overlay.LayoutForWidth | codex-rs/tui/src/pager_overlay.rs:871-933 | Narrow widths give the centre pane only; middle widths give left and centre panes adding up to the width less a border, with their minimums; wide widths give three panes adding up to the width less two borders, each at its minimum or more |
| Overlay.ThreePanesFit | codex-rs/tui/src/pager_overlay.rs:900-932 | In the three-pane case the saturating percentages leave the centre its minimum, so the panes add up exactly |
| Overlay.HubWidth | codex-rs/tui/src/pager_overlay.rs:794-800 | The hub width is the right pane when it is shown, else the centre |
| Overlay.HubWidthOfLayout | codex-rs/tui/src/pager_overlay.rs:794-800 | Every layout gives the hub a visible width: the right pane, at least 20 wide, when three panes fit, else the centre |
| Overlay.Next | codex-rs/tui/src/pager_overlay.rs:819-825 | `next` always moves to a different tab. Overlay.TabCycle relates it to `prev` |
| Overlay.Prev | codex-rs/tui/src/pager_overlay.rs:827-833 | `prev` always moves to a different tab. Overlay.TabCycle relates it to `next` |
| Overlay.TabCycle | codex-rs/tui/src/pager_overlay.rs:819-833 | `next` and `prev` undo each other, and three steps either way visit every tab and return |
| Overlay.AdvanceTab | codex-rs/tui/src/pager_overlay.rs:1307-1315 | The tab moves one step in the given direction, the view follows the end, and the selection is kept |
| Overlay.StepAgent | codex-rs/tui/src/pager_overlay.rs:1317-1332 | Without agents nothing changes; otherwise the selection wraps around the list in either direction, stays in range, and the view follows the end |
| Overlay.StepAgentInverse | codex-rs/tui/src/pager_overlay.rs:1317-1332 | A step forward and a step back return to the same agent |
| Overlay.StepForward | codex-rs/tui/src/pager_overlay.rs:1317-1332 | Any number of forward steps keeps the selection within the list |
| Overlay.StepForwardWraps | codex-rs/tui/src/pager_overlay.rs:1321-1322 | Up to one lap, n forward steps move the selection n places, wrapping past the last agent to the first |
| Overlay.StepAgentFullCycle | codex-rs/tui/src/pager_overlay.rs:1321-1322 | One forward step per agent returns to the agent selected |
| Overlay.SyncSelection | codex-rs/tui/src/pager_overlay.rs:935-940 | A selection past the end of a non-empty list moves to the last agent; an in-range selection is kept |

## Left out

- File writes and JSON encoding: `persist_state`, `persist_now` and the leak-tracker writes. `Registry.Persist` and `Hub.Persist` only say what ends up at the state path.
- The persist errors of `leak_tracker_add` and `leak_tracker_clear`: in the model these mutators always succeed.
- Async locking (`RwLock`, `Arc`, tokio tasks). Each hub or registry call is one atomic step. In the source, VoteCast reads a snapshot and then upserts, so a concurrent cast can be lost; the atomic model does not show this.
- `now_unix_ms`, `Uuid::new_v4` and the session `conversation_id` are parameters (`Call.nowMs`, `Call.freshId`, `Call.caller`). `thread_id_string` is the identity, because thread ids are strings here.
- `parse_thread_id`: thread ids are taken as already parsed.
- The exec orchestration: `run_main`, the thread manager calls, the `Wait` polling loop and `JoinSet`, `wait_for_final_status`, `format_wait_output`, `emit_swarm_output` and `load_output_schema`.
- `AgentRole::apply_to_config`, used by `build_spawn_config` for `--agent-type`, is foreign code, so `Exec.BuildSpawnConfig` covers only the swarm role.
- PromptDecode.ResolvePrompt: the process exit where `resolve_prompt` fails is modelled as `Failure`, and reading stdin is the `Stdin` parameter.
- All TUI drawing, key-binding matching, the `f32` percentage in the bottom bar, and `SwarmOverlay`'s own `center_body_area`, `page_height`, `is_scrolled_to_bottom` and scroll-key handling. Only the `PagerView` versions are modelled.
- Pager.Render: requires the total content height to fit in `usize`, and so does `Pager.RenderIntended`. The source's sum would overflow there.
- Overlay.StepAgent: `selected_agent + 1` would overflow at `usize::MAX`. The model assumes a selection below the agent count, which `sync` keeps.
- `codex-rs/tui/src/app_event_sender.rs`: a channel wrapper with nothing to verify.

## Findings

| source | as written | input that shows it | evidently intended | confidence | as-written member | corrected member |
|---|---|---|---|---|---|---|
| codex-rs/tui/src/pager_overlay.rs:380-385 | When a chunk ends below the view, `PagerView::ensure_chunk_visible` scrolls to `last - (height - 1)`. `last` is already one past the chunk's final row, so the view starts one row too low. | Chunk heights [3, 5], offset 0, chunk 0, content height 3. Chunk 0 fills rows 0-2 and is already fully shown. The function moves the offset to 1, and the render clamp (lines 191-193) keeps 1, so row 0 is hidden. | Scroll to `last - height`, as `SwarmOverlay::ensure_chunk_visible` (lines 1370-1389) does, so that a chunk that fits is fully shown. | high; not executed | Pager.AsWrittenHidesTopRow | Pager.EnsureChunkVisible |
| codex-rs/exec/src/lib.rs:1171 | `truncate_preview` appends the literal "â€¦", three characters whose UTF-8 bytes are C3 A2 E2 82 AC C2 A6. That is "…" (U+2026, E2 80 A6) decoded once as Windows-1252 and saved again as UTF-8. | 121 × 'a' with the limit 120 gives 123 characters ending in "â€¦", longer than the input. `format_agent_status` then prints that text for a long completion message. | Append the single character U+2026, so a preview is at most `max + 1` characters and never longer than the text. | high; not executed | Exec.AsWrittenPreviewMarker | Exec.TruncatePreviewIntended |
