# Verified model of the Gerege platform kernel

A Dafny model of the parts of the platform whose rules are hardest to see from one function: the
module registry with its route gate, the self-updater, and three smaller algorithms (stored
client-secret hashes, one-time codes, the audit hash chain). `dafny verify dfyconfig.toml` checks it.

| files | what they model |
|---|---|
| `Prelude.dfy`, `GoStrings.dfy`, `Decimal.dfy` | optional values, 64-bit wrap-around, the string, `strconv` and `Sscanf` operations that the code calls |
| `Modules.dfy`, `DependencyGraph.dfy`, `CycleCheck.dfy`, `Lifecycle.dfy`, `RouteGate.dfy`, `Registry.dfy` | manifests, the dependency relation, the depth-first cycle check, the on/off state over runs, route ownership, and the registry object |
| `Semver.dfy`, `Updater.dfy`, `UpdaterSafety.dfy`, `UpdaterTrace.dfy`, `UpdaterInputs.dfy`, `UpdaterMachine.dfy` | versions, the update decision, the specified apply with health check and rollback, what holds over every run and its trace, inputs at which promises fail, and the updater object that does it |
| `Base64.dfy`, `SecretHash.dfy` | the four base64 forms with their dispatch, and printing and checking of stored hashes |
| `OneTimeCode.dfy`, `OneTimeCodeCounting.dfy` | the batched rejection sampler, and the count of byte strings behind each code |
| `CanonicalJson.dfy`, `AuditChain.dfy` | JSON text of an audit entry, the chain hash, append and verification of the log |

How the outside world enters:

- A Go string is the sequence of its code points; `len` counts UTF-8 bytes (`GoStrings.ByteLen`), and
  byte order is code-point order, which holds for valid UTF-8.
- Map iteration picks an arbitrary remaining key (`:|`), so results that do not depend on the order are
  proved not to.
- Each registry call is one atomic step, which the lock of the original provides.
- Manifest downloads, clocks, script results, cancellation, health probes and file writes are the fields of
  an `Updater.Tick`. Whether a write reports success and what the file holds afterwards, as later reads see
  it, are two independent fields, so that a failed write may leave anything and a successful one need not
  read back (`/dev/null`, a file without read permission). Apart from its writes the version file does not
  change. Under a cancelled context a rollback script is invoked and not started.
- How the database ends a transaction, and what it later gives back for an inserted entry, are fields of
  an `AuditChain.Request`. Nothing is assumed about what comes back.
- Argon2id, PBKDF2 and SHA-256 are function parameters. Nothing is assumed about them except that
  SHA-256 yields 32 bytes and, in one lemma, that Argon2id yields the length it was asked for. Tamper
  evidence is stated as "the same history, or these two texts are a collision", because no function
  from all texts to 32 bytes is free of collisions.
- `strings.ToLower` is a parameter of construction.

Where the code and its documentation differ, the model follows the code:

- kernel/module/module.go:42-47 says the prefixes of different modules do not overlap and that `New` checks
  it. `New` rejects identical texts only: it accepts `/x` for one module and `/x/` for another
  (`ModuleRegistry.TwinsAccepted`). Two prefixes overlap exactly when one, with a final slash, begins the
  other with a final slash (`RouteGate.PrefixesOverlapExactly`), and the rule holds for a table exactly when
  no such pair has two owners (`RouteGate.ModulesDisjointExactly`). A declared prefix owns some path exactly
  when it ends in a slash or its twin with the slash is not declared (`RouteGate.OwnsSomePathExactly`).
- kernel/update/semver.go:44-45 names the semver rule. Tags are compared as text, so `beta.10` comes before
  `beta.9` (`Semver.TenBeforeNine`), unlike section 11.4 of Semantic Versioning 2.0.0. Tags that differ in
  a final number are in numeric order exactly when the smaller number is at most the first digits of the
  larger one, as many as it has itself (`Semver.TagNumbersInOrderExactly`). The condition is for this family
  only: section 11.4 is also departed from elsewhere, as with `a.10.x` before `a.9.x`
  (`Semver.TenBeforeNine`).
- "Once per release" holds for a script and health check that succeed, under an unchanged manifest and in every
  run, exactly when the announced version is no allowed step up any more from whatever the writes leave to
  be read (`UpdaterSafety.AppliedOnceExactlyWhenRecorded`): it reads as at least that version, or as another
  major number without permission for major steps. It fails for a file that cannot be written and keeps its
  version; then no apply reports success (`UpdaterInputs.UnwritableFileRepeats`). It fails without a version
  file, or with one that reads back empty, and permission for major steps; then every apply reports success
  (`UpdaterInputs.UnreadRecordRepeats`). How often the same tick runs the update, and how often it
  reports success, is exactly `UpdaterSafety.RepeatedTickExactly`.
- The recorded version can go down, for `os.WriteFile` empties the file before it writes
  (`UpdaterInputs.EmptiedFileGoesDown`). It never does in a run exactly when no write leaves a lower version
  (`UpdaterSafety.NeverDownExactly`). Without permission for major steps the updater is then blocked for good
  while only other major numbers are announced (`UpdaterSafety.BlockedForGood`).
- kernel/update/updater.go:176-178 and docs/MODULES.md:91 promise the rollback after a failure. A context that is
  cancelled during the wait leaves an unhealthy release in place (`UpdaterInputs.CancelledWaitSkipsRollback`);
  a configured rollback is started exactly unless the context is cancelled
  (`UpdaterSafety.LeftUnrolledExactly`).
- pkg/audit/chain.go:35-43 cuts the time so that an undamaged log verifies. That suffices if storage changes
  nothing else (`AuditChain.CutTimesVerify`). An actor ID in upper case comes back from a uuid column in
  lower case and breaks its row (`AuditChain.UpperCaseActorBreaks`), and so does the number 2^53 + 1 in
  the metadata, which is read back as floating point (`AuditChain.LargeNumberBreaks`). A log that was only
  appended to verifies exactly when every event comes back as it was hashed, or as one with a colliding
  text (`AuditChain.HonestLogVerifiesExactly`).
- `VerifyChain` does not notice rows missing at the end of the log, and these are the only deletions that it
  does not notice, collisions aside (`AuditChain.DeletionPassesExactly`). The last hash has to be compared
  with a copy kept elsewhere (`AuditChain.CutLogStillVerifies`, `AuditChain.TamperEvident`).

## Model

| member | source | states |
|---|---|---|
| Modules.Validate | kernel/module/module.go:64-80 | no error exactly for a well-formed manifest; each error exactly when its rule is the first that is broken |
| Modules.SortedIds | kernel/module/module.go:83-90 | all keys, ascending, whatever order the map yields them in |
| Modules.AscendingUnique | kernel/module/module.go:82-90 | only one ascending list of the same keys exists, so the order is stable between calls |
| CycleCheck.Search.Visit | kernel/module/registry.go:82-97 | gray is exactly the current path, finished modules need only earlier finished ones; a reported list is a dependency walk that continues the path from its root and repeats a module |
| CycleCheck.CheckCycles | kernel/module/registry.go:74-104 | no error if and only if the transitive `DependsOn` relation has no cycle; an error is a genuine walk whose last ID occurs earlier |
| DependencyGraph.RepeatingWalkIsCyclic | kernel/module/registry.go:82-96 | a reported walk contains a cycle |
| DependencyGraph.TopoIsAcyclic | kernel/module/registry.go:98-103 | if every module can be finished after what it needs, there is no cycle |
| DependencyGraph.AcyclicHasTopo | kernel/module/registry.go:98-103 | without a cycle all modules can be ordered after what they need |
| ModuleRegistry.New | kernel/module/registry.go:27-61 | succeeds exactly for well-formed manifests with distinct IDs, registered acyclic dependencies and prefixes declared once; then everything is on; every error points at a real violation, and at the first one: a rejected manifest before an unlinked one before a cycle |
| ModuleRegistry.AcceptableExactly | kernel/module/registry.go:27-61 | what `New` accepts in terms of the manifests alone: names, kinds, ranks that every dependency lowers, and prefixes without repetition |
| DependencyGraph.AcyclicExactlyRanked | kernel/module/registry.go:74-104 | no cycle if and only if the modules can be given ranks that every dependency lowers |
| Lifecycle.DependenciesExactly | kernel/module/registry.go:90 | the relation that is searched for cycles is exactly `DependsOn` |
| ModuleRegistry.Collect | kernel/module/registry.go:33-42 | the manifests by ID, exactly when all are well-formed and no ID occurs twice |
| ModuleRegistry.Link | kernel/module/registry.go:43-56 | every dependency is registered and the prefix table has each declared prefix once with its module, or the error shows the missing dependency or the twice-declared prefix |
| ModuleRegistry.AddPrefixes | kernel/module/registry.go:50-55 | one module's prefixes enter the table exactly when none of them is taken, also not by the module itself |
| ModuleRegistry.Registry.Enabled | kernel/module/registry.go:115-119 | membership in the enabled set; an unregistered ID is off |
| ModuleRegistry.Registry.DisableModule | kernel/module/registry.go:141-166 | refused exactly for unregistered and core modules and while an enabled module needs it, naming the first such module in string order; otherwise this ID is off, and every other module is as before |
| ModuleRegistry.Registry.EnableModule | kernel/module/registry.go:169-183 | refused exactly for unregistered modules and while a dependency is off, naming the first such dependency; otherwise this ID is on, and every other module is as before |
| Lifecycle.DisableErrorExactly | kernel/module/registry.go:141-166 | each error of `Disable`, if and only if, with the named user the first in string order that is on and lists the ID |
| Lifecycle.EnableErrorExactly | kernel/module/registry.go:169-183 | each error of `Enable`, if and only if, with the named dependency the first of the list that is off |
| Lifecycle.StepKeepsLegal | kernel/module/registry.go:141-183 | each call keeps the enabled set closed under `DependsOn` with every core module in it |
| Lifecycle.RunKeepsLegal | kernel/module/registry.go:141-183 | so does every sequence of calls |
| Lifecycle.LegalStatesConnected | kernel/module/registry.go:141-183 | every such set is reached from every other by successful calls only |
| Lifecycle.ReachableExactlyLegal | kernel/module/registry.go:141-183 | the states of a fresh registry are exactly the sets closed under `DependsOn` that contain the core |
| Lifecycle.CoreNeedsAreOn | kernel/module/registry.go:148-163 | everything that an enabled module transitively needs is enabled |
| ModuleRegistry.Registry.DisableEach | kernel/module/registry.go:193-203 | one round: only listed business modules go off, what is not retried is off, and without progress nothing has changed |
| ModuleRegistry.Registry.RestoreDisabled | kernel/module/registry.go:189-207 | ends with the greatest disabled set inside the bound that contains all dependents of its members, and returns one error per listed occurrence that fails in that final state, in list order; without errors all listed modules are off, an empty list changes nothing |
| ModuleRegistry.ReadList | kernel/module/registry.go:213-219 | the loop returns the IDs that the four rows below characterise |
| ModuleRegistry.ListedIdsMembers | kernel/module/registry.go:214-218 | an ID is listed exactly when it is not blank and some item is trimmed to it |
| ModuleRegistry.ListedIdsOfItem | kernel/module/registry.go:214-218 | one item names what is left without the white space around it, and nothing if that is blank |
| ModuleRegistry.ListedIdsConcat | kernel/module/registry.go:214-218 | two lists joined by a comma name what the first names and then what the second names, with repetition |
| ModuleRegistry.ListedIdsInputs | kernel/module/registry.go:214-218 | the empty list and " , " name nothing, " sign , relay " names the two |
| GoStrings.TrimSpaceExactly | kernel/module/registry.go:215 | trimming removes exactly the white space around a text |
| GoStrings.SplitOnExactly | kernel/module/registry.go:214 | splitting yields the only parts without the separator that join to the text |
| ModuleRegistry.ListedIdsOfJoin | kernel/module/registry.go:213-219 | joining trimmed IDs with commas and reading the list gives the IDs back |
| ModuleRegistry.Registry.ApplyDisabledList | kernel/module/registry.go:212-241 | ends in the same greatest set; no error if and only if every listed ID is a business module and everything on that needs it is listed too; otherwise the last remaining error; a list of blank items is no error and changes nothing |
| Lifecycle.StuckIsGreatest | kernel/module/registry.go:201-203 | a state in which no listed module can be switched off is the greatest the list allows |
| Lifecycle.CompleteIffSelfContained | kernel/module/registry.go:209-211 | a list is switched off completely if and only if it contains only business modules and all enabled modules that need them |
| ModuleRegistry.ListOrderIrrelevant | kernel/module/registry.go:209-224 | the final state depends only on the state before and on which modules are listed, not on order or repetition, for either form |
| RouteGate.MatchesStem | kernel/module/gate.go:15-36 | a prefix matches its own stem and the sub-tree below it, with or without the final slash |
| RouteGate.EqualLengthsDisjoint | kernel/module/gate.go:22-27 | two different prefixes of equal length never match the same path |
| RouteGate.PrefixesLaminar | kernel/module/gate.go:31-36 | two prefixes match disjoint path sets, or the longer one's set lies inside the shorter one's |
| RouteGate.PrefixesOverlapExactly | kernel/module/gate.go:31-36 | two prefixes have a path in common exactly when one, with a final slash, begins the other with a final slash |
| RouteGate.ModulesDisjointExactly | kernel/module/module.go:42-47 | no path matches prefixes of two modules, exactly when no such pair has two owners |
| ModuleRegistry.TwinsAccepted | kernel/module/registry.go:50-55 | manifests for which `New` succeeds although the documented rule fails: `/x` and `/x/`, of two modules; the first then owns nothing |
| RouteGate.SlashTwinNeverWins | kernel/module/gate.go:22-36 | beside its twin with a slash, a prefix without one never owns a path |
| RouteGate.OwnsSomePathExactly | kernel/module/gate.go:18-36 | a declared prefix owns some path exactly when it ends in a slash or has no such twin in the table |
| RouteGate.FindOwner | kernel/module/gate.go:18-29 | the owner of the unique longest match for every iteration order, none if and only if nothing matches |
| RouteGate.OwnerExactly | kernel/module/gate.go:18-29 | a path belongs to a module exactly when one of its prefixes matches and no matching prefix has more characters |
| ModuleRegistry.Registry.ModuleForPath | kernel/module/gate.go:18-29 | the owner of the matching prefix with the most characters, none if and only if nothing matches |
| ModuleRegistry.Registry.Gate | kernel/module/gate.go:42-57 | a path that no prefix matches passes; any other exactly if the module of its longest matching prefix is on |
| RouteGate.DisableBlocksExactly | kernel/module/gate.go:38-57 | a successful `Disable` of an enabled module turns exactly its own paths from pass to 404 |
| RouteGate.EnableOpensExactly | kernel/module/gate.go:38-57 | a successful `Enable` of a disabled module turns exactly its own paths from 404 to pass |
| RouteGate.AlwaysOnExactly | kernel/module/registry.go:148-163 | the modules that are on in every reachable state are exactly the core and what it transitively needs |
| RouteGate.AlwaysPassesExactly | kernel/module/gate.go:42-57 | the paths that pass in every reachable state are exactly the unowned ones and those owned by such modules |
| Semver.ParseVersion | kernel/update/semver.go:23-42 | the loop computes the parse that the rows below characterise |
| Semver.ParsedExactly | kernel/update/semver.go:23-42 | a text parses to a version if and only if, trimmed, it is an optional "v", three numbers between dots and an optional tag after a dash, and these are the version |
| Semver.ParsedInputs | kernel/update/semver.go:23-42 | "v1.2.3" and "1.2.3" are the same version; "", "v1.2", "1.2.x" and "v-1.0.0" are none |
| Decimal.AtoiExactly | kernel/update/semver.go:35 | `Atoi` accepts exactly an optional sign and digits whose value fits 64 bits |
| Semver.ParsedExactlyCanonical | kernel/update/semver.go:23-42 | the versions that parsing can return are exactly those with numbers from 0 to 2^63-1 and a tag that does not end in white space |
| Semver.ParseOfShow | kernel/update/semver.go:70-76 | for each of them printing and parsing, also through the newline of the version file, is the identity |
| Semver.ShownInputs | kernel/update/semver.go:70-76 | v1.2.3 and v1.2.0-beta.1 are printed so |
| Semver.CompareIsBefore | kernel/update/semver.go:46-67 | on those versions no subtraction overflows and the sign is the order: numbers first, a prerelease before its release, tags as text |
| Semver.CompareByParts | kernel/update/semver.go:46-67 | the first number that differs decides; with equal numbers a prerelease is below its release, and two tags are ordered as text |
| Semver.CompareTotalOrder | kernel/update/semver.go:46-67 | antisymmetric, 0 only on equal versions, transitive |
| Semver.TagNumbersInOrderExactly | kernel/update/semver.go:46-67 | tags that end in two numbers m < n after the same text are in this order exactly when m is at most the first digits of n, as many as m has |
| Semver.TenBeforeNine | kernel/update/semver.go:46-67 | the tag beta.10 comes before beta.9, and a.10.x before a.9.x |
| Updater.RecordedIsCanonical | kernel/update/updater.go:94-104 | the current version is always one that parsing can return, v0.0.0 included |
| Updater.RecordedExactly | kernel/update/updater.go:94-104 | the current version is what the file parses to, and v0.0.0 without a configured file, without a file, or when it does not parse |
| Updater.WindowIsArc | kernel/update/updater.go:158-174 | a written window up to 24:00 is the half-open arc of the day between its ends, also over midnight; 00:00-24:00 is the whole day, equal ends are nothing |
| Updater.InWindowExactly | kernel/update/updater.go:158-174 | for every text: open without a window, closed when it does not begin with four numbers as in 03:00-05:00, and otherwise between its ends, also over midnight |
| Updater.DecisionExactly | kernel/update/updater.go:128-155 | all four decisions and the error case, each if and only if; an update only to a newer version, without a forbidden major step, inside the window |
| Updater.CheckExactly | kernel/update/updater.go:128-155 | each error of the check if and only if, by download, channel and version text; each decision by versions, permission and window |
| UpdaterInputs.FirstCheck | kernel/update/updater.go:94-98 | without a version file every announced version above v0.0.0 is a step from v0.0.0: blocked exactly for a positive major number without permission, then by the window |
| Updater.Probe | kernel/update/updater.go:214-247 | healthy exactly when some probe within the timeout, three minutes if none is set, answers 200 and nothing ended the wait earlier, or no URL is set; cancelled exactly when cancellation ended the wait first |
| UpdaterMachine.Machine.CurrentVersion | kernel/update/updater.go:94-104 | the version that the file records, v0.0.0 if there is no file or no version in it |
| UpdaterMachine.Machine.Check | kernel/update/updater.go:128-155 | the decision or error that `Updater.DecisionExactly` characterises, without changing anything |
| UpdaterMachine.Machine.Rollback | kernel/update/updater.go:204-211 | the rollback script is invoked once if configured, and started unless the context is cancelled; nothing otherwise |
| UpdaterMachine.Machine.WaitHealthy | kernel/update/updater.go:214-247 | the probe's answer, recorded in the trace, and whether cancellation ended the wait |
| UpdaterMachine.Machine.ApplyUpdate | kernel/update/updater.go:179-202 | version file, error and trace are those of the specified apply |
| UpdaterMachine.Machine.Turn | kernel/update/updater.go:254-268 | one check and, on that decision, one apply |
| UpdaterMachine.Machine.Run | kernel/update/updater.go:250-275 | file and trace after any number of ticks are those of the specified run; the trace stays justified and answered, and on ordinary storage the version does not go down and keeps its major number without permission |
| UpdaterSafety.FailedApplyRollsBack | kernel/update/updater.go:185-194 | after a failed script or health check the configured rollback is invoked exactly once, last, and started exactly if the context is not cancelled; nothing is written |
| UpdaterSafety.LeftUnrolledExactly | kernel/update/updater.go:81-87 | a failed apply with a configured rollback starts none exactly when the context is cancelled during the script, between two probes, or after the wait |
| UpdaterInputs.CancelledWaitSkipsRollback | kernel/update/updater.go:236-240 | one unhealthy answer and a cancellation: no rollback is started |
| UpdaterSafety.HealthyApplyWritesLast | kernel/update/updater.go:195-201 | otherwise no rollback ever, and the target's text is written last exactly when a version file is configured |
| UpdaterSafety.ApplyErrorExactly | kernel/update/updater.go:185-201 | which of the three errors an apply returns, and when none; one event for the script, one for a configured health check, one for the configured rollback or write |
| UpdaterSafety.TickDecidesOnce | kernel/update/updater.go:253-268 | one decision per tick, first in its events and only without an error; nothing else happens unless it is to apply |
| UpdaterSafety.WrittenReadsBack | kernel/update/updater.go:195-196 | the text that is written for a version is read as that version |
| UpdaterSafety.SuccessRecordsTarget | kernel/update/updater.go:195-199 | after a successful apply the recorded version is the target if and only if a version file is configured that reads back as the target, as one with the written text does |
| UpdaterSafety.RecordAfterTick | kernel/update/updater.go:179-202 | an update through script and health check either succeeds or loses its write, never both; only a write changes the record, to what reads see of it |
| UpdaterSafety.TickMovesForward | kernel/update/updater.go:128-202 | on ordinary storage one tick keeps the recorded version or moves it up to the announced one |
| UpdaterSafety.GoesDownExactly | kernel/update/updater.go:195-199 | one tick lowers the recorded version if and only if it writes and the file then reads as a lower version; an emptied file counts as v0.0.0 |
| UpdaterSafety.NeverDownExactly | kernel/update/updater.go:250-275 | in any run the version never goes down between two moments if and only if no single write falls |
| UpdaterInputs.EmptiedFileGoesDown | kernel/update/updater.go:195-199 | a failed write that empties the file takes v1.0.0 to v0.0.0, and the release is not applied again |
| UpdaterSafety.RunMovesForward | kernel/update/updater.go:250-275 | over any run on ordinary storage the recorded version never goes down, goes up with a recorded success, and keeps its major number without permission |
| UpdaterSafety.NeverDowngrades | kernel/update/updater.go:250-275 | the same between any two moments of such a run |
| UpdaterSafety.IdleRun | kernel/update/updater.go:144-153 | while no announced version is an allowed step up from the record, nothing is applied and the file stays |
| UpdaterSafety.BlockedForGood | kernel/update/updater.go:147-148 | without permission for major steps a run that announces only other major numbers than the recorded one applies nothing |
| UpdaterSafety.AtMostOneSuccess | kernel/update/updater.go:144-153 | with a version file whose successful writes leave no allowed step, an unchanged manifest is applied without error at most once, whatever failed writes leave |
| UpdaterSafety.CompletionsBounded | kernel/update/updater.go:144-153 | then it goes through script and health check at most once more often than a write fails |
| UpdaterSafety.CompletesAgainExactly | kernel/update/updater.go:128-202 | a tick that runs an update does so from another file if and only if the announced version is an allowed step up from it |
| UpdaterSafety.RepeatedTickExactly | kernel/update/updater.go:185-199 | in n equal ticks the update runs n times if what the file reads as after it leaves an allowed step, once otherwise; each time with success, or never if the write fails |
| UpdaterInputs.UnwritableFileRepeats | kernel/update/updater.go:195-199 | a file that keeps v1.0.0: v1.0.1 is applied in every tick and no apply reports success |
| UpdaterInputs.UnreadRecordRepeats | kernel/update/updater.go:94-104 | no file, or one that reads back empty, with permission for major steps: v1.0.1 is applied with success in every tick |
| UpdaterSafety.AppliedOnceExactlyWhenRecorded | kernel/update/updater.go:185-199 | where a tick goes through script and health check, an unchanged manifest does so at most once in every run if and only if nothing that the writes may leave to be read makes the announced version an allowed step; without a version file that fails, with the written text it holds |
| UpdaterTrace.RunIsJustified | kernel/update/updater.go:179-275 | in every run each script follows an apply decision inside the window, each write a successful script and health check, each rollback a failure of its own script or health check with the same versions |
| UpdaterTrace.RunIsAnswered | kernel/update/updater.go:179-275 | conversely each apply decision is directly followed by its script, each failed script or health check by the configured rollback with its versions, each healthy apply by its write |
| Base64.Unb64OfEncode | pkg/secrethash/secrethash.go:172-187 | whichever of the four encoders wrote a text, `unb64` returns the bytes, also where the alphabets coincide |
| Base64.Unb64AcceptsEncodings | pkg/secrethash/secrethash.go:174-187 | whatever `unb64` accepts is, line breaks aside, one of the four encodings of its result, up to the unused bits of a short last group |
| Base64.LineBreaksIgnored | pkg/secrethash/secrethash.go:174-187 | a line break inside a text changes nothing |
| Base64.SpareBitsInputs | pkg/secrethash/secrethash.go:174-187 | unused low bits of a short last group may be anything |
| Base64.Rfc4648Vectors | pkg/secrethash/secrethash.go:172 | the test vectors of section 10 of RFC 4648 |
| Base64.AlphabetExactly | pkg/secrethash/secrethash.go:172-187 | the two alphabets, character by character |
| SecretHash.ParsePBKDF2Params | pkg/secrethash/secrethash.go:110-133 | every item must have a positive value, the last of each key counts, the iteration bound holds |
| SecretHash.ParamsExactly | pkg/secrethash/secrethash.go:110-133 | accepted exactly when every item is a key with a positive number, the last "i" is at most a million and there is an "l"; these are the result |
| SecretHash.SplitArgonText | pkg/secrethash/secrethash.go:58-61 | a printed hash splits at "$" into exactly its six parts |
| SecretHash.ScanCostsOfText | pkg/secrethash/secrethash.go:146-150 | printed cost parameters are read back |
| SecretHash.ScanCostsExactly | pkg/secrethash/secrethash.go:146-150 | which texts are read as three costs, and as which |
| Decimal.ScanIntExactly | pkg/secrethash/secrethash.go:142-143 | what `%d` reads: blanks, a sign, digits that fit 64 bits, up to the next non-digit |
| SecretHash.VerifyArgonText | pkg/secrethash/secrethash.go:136-170 | any stored Argon2id hash with admissible parameters is checked without error against the KDF under its own salt and parameters |
| SecretHash.VerifyOfHash | pkg/secrethash/secrethash.go:52-75 | `Verify(Hash(s), s')` never errors, needs no rehash, and is true exactly when the KDF outputs agree |
| SecretHash.VerifyExactly | pkg/secrethash/secrethash.go:64-170 | for every stored text: an answer comes exactly from an Argon2id text of version 19 with positive costs, or a migrated text within its bounds, with a key of 16 to 64 bytes, and it says whether the KDF under the stored salt and costs gives that key; every other text is an error |
| SecretHash.VerifyAnyArgonText | pkg/secrethash/secrethash.go:136-170 | printed with any version, costs, salt and key: checked exactly for version 19, positive costs of their widths and 16 to 64 key bytes |
| SecretHash.UnknownFormatRejected | pkg/secrethash/secrethash.go:72-73 | a text with neither prefix is an error for every secret |
| SecretHash.HashedText | pkg/secrethash/secrethash.go:52-62 | a new hash begins with its version and costs; without random bytes there is none |
| SecretHash.MigratedNeedsRehash | pkg/secrethash/secrethash.go:77-81 | a migrated hash is to be replaced after a login |
| SecretHash.VerifyPbkdf2Text | pkg/secrethash/secrethash.go:84-107 | a migrated hash in any base64 form is checked with its own parameters, and is an error exactly for key lengths outside 16 to 64 |
| OneTimeCode.GenerateOTPCode | pkg/helpers/helper_otp_code_generator.go:9-36 | the code is the first digits of the stream of usable bytes whatever the buffer boundaries; no more buffers are read than needed, and only a failing one of those is an error |
| OneTimeCode.NeededExactly | pkg/helpers/helper_otp_code_generator.go:19-23 | read k is made exactly when the k full buffers before it hold too few digits |
| OneTimeCode.DigitsOfByte | pkg/helpers/helper_otp_code_generator.go:24-32 | a byte below 250 gives its last decimal digit, any other none |
| OneTimeCode.UseBuffer | pkg/helpers/helper_otp_code_generator.go:24-32 | one buffer continues the code with the digits of its bytes, in order |
| OneTimeCodeCounting.OutcomesAreTheSamplers | pkg/helpers/helper_otp_code_generator.go:19-35 | the counted byte strings are those from which the sampler reads the code |
| OneTimeCodeCounting.EveryCodeEquallyLikely | pkg/helpers/helper_otp_code_generator.go:11-13 | among the byte strings of any one length, all codes of equal length are equally frequent |
| OneTimeCodeCounting.PreimagesOfCode | pkg/helpers/helper_otp_code_generator.go:11-30 | exactly 25^n strings of n usable bytes map to each code of n digits |
| CanonicalJson.QuoteInjective | pkg/audit/chain.go:54-62 | a quoted string determines its content and where it ends |
| CanonicalJson.EscapeExactly | pkg/audit/chain.go:54-62 | how each character is written, with HTML escaping |
| AuditChain.CanonicalInjective | pkg/audit/chain.go:44-63 | two entries have the same canonical text exactly when they are the same event, times compared after truncation |
| AuditChain.CanonicalLayout | pkg/audit/chain.go:44-63 | the canonical text is a JSON object with seven named members in this order, each with its own field, the time cut to the microsecond |
| AuditChain.SameEventMicrosecond | pkg/audit/chain.go:35-43 | inside the 64-bit nanosecond range this is agreement on the microsecond and on every other field |
| AuditChain.HashedTextLayout | pkg/audit/chain.go:76-83 | what is hashed begins with the previous hash, and from its first brace on, at 0 or 64, it is the canonical text |
| AuditChain.ComputeChainHash | pkg/audit/chain.go:76-83 | the hexadecimal digest of the previous hash followed by the canonical text, an error exactly without one |
| AuditChain.HexEncodeAt | pkg/audit/chain.go:83 | two digits for each byte, the high half first |
| AuditChain.PreimageUnambiguous | pkg/audit/chain.go:67-82 | previous hash and entry can be told apart in the text that is hashed, without a separator |
| AuditChain.Log.Append | core/datasources/repositories/postgres/audit/audit_postgres.go:56-109 | exactly when the transaction is kept and the entry has a time and a canonical text, one row more, with the last row's hash and the digest of that hash and the canonical text; its hash is returned exactly when also the commit is confirmed, an error otherwise; an intact log stays intact exactly when the event comes back from storage |
| AuditChain.Log.VerifyChain | core/datasources/repositories/postgres/audit/audit_postgres.go:177-227 | valid exactly for an intact log; otherwise the first row that does not hold |
| AuditChain.RecomputesExactly | pkg/audit/chain.go:65-84 | what storage gives back has the same chain hash exactly when it is the same event or its text collides with the hashed one |
| AuditChain.AppendKeepsIntactExactly | core/datasources/repositories/postgres/audit/audit_postgres.go:84-103 | a log with one more row is intact exactly when it was intact and the new row's event comes back so |
| AuditChain.HonestLogVerifiesExactly | core/datasources/repositories/postgres/audit/audit_postgres.go:56-109 | after any sequence of appends, failed ones included, the log is intact exactly when it was and every added event comes back |
| AuditChain.CutTimesVerify | pkg/audit/chain.go:35-43 | with storage that only cuts times to the microsecond every appended log verifies |
| AuditChain.UpperCaseActorBreaks | core/datasources/repositories/postgres/audit/audit_postgres.go:90-103 | an actor ID that comes back in lower case breaks the row, or exhibits a collision |
| AuditChain.LargeNumberBreaks | core/datasources/repositories/postgres/audit/audit_postgres.go:249-256 | so does a metadata number that floating point cannot hold |
| AuditChain.TamperEvident | pkg/audit/chain.go:65-84 | two logs that verify and end in the same hash have the same length, events and hashes, or contain a SHA-256 collision |
| AuditChain.DeletionPassesExactly | core/datasources/repositories/postgres/audit/audit_postgres.go:196-226 | some rows of an intact log, in their order, verify if they are its first rows, and only then, or there is a SHA-256 collision |
| AuditChain.CutLogStillVerifies | core/datasources/repositories/postgres/audit/audit_postgres.go:196-226 | cutting rows off the end changes the last hash, or exhibits a collision |

## Left out

- AuditChain.TamperEvident: metadata is compared by its JSON text; `encoding/json` on maps is not modelled.
- AuditChain.Log.VerifyChain: database errors while reading, which end it without a verdict, are not modelled.
- OneTimeCode.GenerateOTPCode: termination is promised for streams that deliver enough usable bytes; on any other stream the original loops too.
- Updater.Probe: the sleep between probes and the length of a request are not modelled; the probes are those made until the clock passes the deadline.
- UpdaterMachine.Machine.Run: changes of the version file by other programs between ticks are not modelled.
- UpdaterMachine.Machine.ApplyUpdate: an empty apply command is a precondition violation here; the original panics on it.
- Invalid UTF-8 in strings, which `encoding/json` would replace.
- Locks and concurrent readers of the registry; `Get`, `List`, `MustNew` and the built-in module list, which add only easy members.
- HTTP, TLS and JSON transport, script execution, logging, and the texts of error messages apart from the IDs in them.
- Password hashing, JWT, TOTP, encryption and the other packages of the repository.
