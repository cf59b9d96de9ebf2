# jwxmigrate, modelled and verified

jwxmigrate upgrades Go programs from one major version of a JWT/JWK library to
the next. It scans a tree for uses of the old API, rewrites Go files by byte-range
edits, rewrites each `go.mod`, and reports what is left to a human. This project
models the four connected parts of that logic and proves what they promise.

* **The rewrite engine** (`Edits`, `Splicing`, `Overlap`, `Landing`, `FixFile`, `Pieces`,
  `CallRewrite`, `IfInitEdits`, `StatementEdits`, `TempNames`, `Absorb`, `AtomicWrite`). In-place
  splicing from right to left is proved to refine simultaneous substitution on the
  original bytes, for every outcome of the two unstable sorts. On top of it, the
  edits of a rewriter applied to a printed tree give the print of the rewritten tree.
  The write protocol is followed system call by system call, with a crash allowed
  after each.
* **Meaning** (`Lang`, `Weakening`, `GetRewrite`, `AssignRewrite`). A statement
  language with Go's block scopes, a store, a trace of external events and big-step
  semantics. A call that fills an out-pointer and the value-returning call that
  replaces it are compared on it.
* **The `go.mod` planner** (`Semver`, `Floors`, `GoMod`, `GoModFixpoint`, `GoModReport`,
  `Paths`, `FloorPass`). Swap, raise, drop and add over a path-to-version map; the floors;
  the gate and the diagnostic pass behind a cache.
* **The scan scheduler and the batch driver** (`WorkerPool`, `SourceTree`,
  `ScanPhases`, `Batch`).

`Sequences`, `Sorting` and `Options` hold shared facts. Versions are ordered as in
section 11 of Semantic Versioning 2.0.0. One character stands for one byte.

## What the code does where its comments or intent say more

Each of these is a proved statement about the code as it is, with the exact
condition under which the stronger claim holds.

* Overlap resolution keeps insertions that tie on their start, identical ones
  included, although a comment at `fix.go:750-751` says they collapse: every copy of an
  insertion survives, exactly unless a survivor encloses it
  (`Overlap.InsertionsSurviveIff`). A tie of an insertion with a non-empty range gives a
  result that depends on the unstable sort (`Splicing.ApplyIsFaithfulIff`), and it arises
  exactly where some collected non-empty edit starts at the insertion
  (`Landing.InsertionTieIff`). Two ways: an absorbed package's import is inserted in front
  of an unaliased import whose path is being rewritten (`Absorb.AnchorTieIff`); any other
  import is injected while the first import is removed with its line, or stands unindented
  and has its path rewritten (`Absorb.FirstImportTieIff`).
* `fixWithVerifyFalse` on `ParseString` with the option as the first argument emits
  two edits with one start, of which one is dropped: the removal when it is the longer,
  and either one, as the unstable sort has it, when the option is the sole argument. With
  the removal gone the option stays, wrapped (`CallRewrite.WithVerifyFaithfulIff`).
* The if-init rewrite checks neither the condition nor the assignment token
  (`GetRewrite.IfInitPreservedIff`); `err != nil || dst == nil` is one condition it
  rewrites wrongly (`GetRewrite.ReadingDstFails`). And its temporary may collide with the error
  variable's own name, which gives a statement that does not compile
  (`GetRewrite.SameNameSticks`).
* The plain-assignment rewrite overwrites the destination when the call fails, and its
  `:=` form declares a new variable unless the destination is in the same block
  (`AssignRewrite.StatementPreservedIff`).
* Step 2 of the planner computes its list once, so the last unmet floor of a path wins
  (`GoModFixpoint.LastFloorWins`, `GoModFixpoint.FloorsMetIff`). Step 1 writes over a
  higher target version that is already required (`GoModFixpoint.SwapCanLower`,
  `GoModFixpoint.NeverLowersIff`).
* The prescan prunes below a directory with any entry named `go.mod`, while only a file
  of that name makes a module root. Inside a module, files below a directory that holds
  an entry named `go.mod` which is no file are scanned by nobody
  (`ScanPhases.ScannedExactlyOnceIff`, `ScanPhases.OrphanedIff`,
  `ScanPhases.OrphanExists`).
* The import-removal guard sets out to leave no undefined reference behind, but looks at
  selectors on the deleted name only. A selector it lets be re-qualified ends up unbound
  when nothing binds the absorbed package's name: when that package is imported under an
  alias, since the check for it compares paths (`Absorb.AliasLeavesUse`), or when every
  import is deleted (`Absorb.NewNameIff`). A dot import is deleted whatever the file uses of
  it (`Absorb.DotImportGoes`). `Absorb.RemovalSafeIff` is the exact condition.
* The import of an absorbed package is added for the removal alone, though nothing may use
  it (`Absorb.AddedUsedIff`), and a second time when another import is being rewritten to
  its path (`Absorb.ImportedTwiceIff`).
* Removing an import takes the rest of its line, a second spec behind a semicolon
  included, although a comment at `fix_absorb.go:64-65` says the whole line goes only
  when nothing else shares it: only text in front is looked at
  (`Absorb.RemovalTakesIff`).
* The original's mode is promised on the backup as well (`fix.go:160-164`), but a `.bak`
  that is already there keeps its own (`AtomicWrite.BackUp`).
* A failed removal of the temporary file is ignored, so an error return can leave it
  behind: exactly when some call after its creation fails and its removal fails too
  (`AtomicWrite.WriteAtomicWithMode`).

## Model

| member | source | states |
|---|---|---|
| Edits.DeduplicateEdits | fix.go:1503-1524 | The array ends as some outcome of the unstable sort; the survivors are those the left-to-right rule keeps of that outcome. |
| Edits.ApplyEdits | fix.go:1478-1500 | The result is the edits spliced one after the other in some outcome of the descending unstable sort, skipping what the bounds guard refuses. |
| Splicing.SpliceIsSubstitute | fix.go:1478-1500 | Splicing non-overlapping in-bounds edits from last to first leaves the prefix alone, equals simultaneous substitution on the original bytes, and the guard never fires. |
| Splicing.ApplyIsSubstitution | fix.go:1478-1524 | Without a mixed tie every sort outcome gives the substitution of the survivors in some order of the tied insertions; with distinct starts there is one result. |
| Splicing.ApplyIsFaithfulIff | fix.go:1480-1482 | Every sort outcome is faithful on every source of that length exactly when no insertion is tied with a non-empty range. |
| Splicing.BadOrderIsUnfaithful | fix.go:1480-1497 | When such a tie is spliced insertion first, the result is the substitution of no arrangement of the survivors. |
| Splicing.SubstituteLength | fix.go:1484-1497 | The output is as long as the source plus, for each edit, its text less its range. |
| Splicing.GapsSurvive | fix.go:1492-1496 | The bytes between two neighbouring kept ranges, and before the first and after the last, come out unchanged and in order, moved by the edits to their left. |
| Splicing.TextsLand | fix.go:1492-1496 | Each edit's text stands where its range stood, moved likewise. |
| Overlap.KeptPlaced | fix.go:1514-1522 | Survivors of in-bounds edits are laid out left to right without overlap. |
| Overlap.KeptApart | fix.go:1514-1522 | Any earlier survivor ends by the start of any later one. |
| Overlap.KeptPartition | fix.go:1514-1522 | Survivors and dropped edits together are the input, nothing lost or duplicated. |
| Overlap.DroppedStartsInside | fix.go:1517-1519 | Maximality: every dropped edit starts inside a survivor's range. |
| Overlap.KeptRangesCanonical | fix.go:1503-1524 | The surviving byte ranges are the same for every permutation of the input and every outcome of the sort. |
| Overlap.KeptCanonical | fix.go:1503-1524 | So are the survivors themselves when edits of one range agree. |
| Overlap.SurvivesIff | fix.go:1516-1520 | A non-empty edit survives exactly when no other survivor covers its start. |
| Overlap.LoneSurvives | fix.go:1516-1520 | In particular one that no other collected edit overlaps is never dropped. |
| Overlap.InsertionsSurviveIff | fix.go:1516-1520 | An insertion survives with all its copies, ties included, exactly unless a survivor encloses it; then with none. |
| Landing.UntiedLands | fix.go:1480-1497 | A survivor in no mixed tie itself has its text where its range stood, moved by the edits spliced after it, whatever the sorts do and whatever is tied elsewhere. |
| Landing.InsertionTieIff | fix.go:1480-1524 | An insertion no collected edit encloses survives, and is in a mixed tie exactly when a collected non-empty edit starts at it; then some sort outcome is no substitution of the survivors, otherwise it lands in every one. |
| FixFile.ScanFile | ast_scanner.go:660-690 | The findings are the first structural match of every (rule, line), then the regex findings. |
| FixFile.FirstPerKeyExact | ast_scanner.go:660-690 | At most one structural finding per key, and one for the key of every match. |
| FixFile.FirstPerKeySelects | ast_scanner.go:660-690 | The structural findings are the matches at exactly the positions where a rule and line occur for the first time, in order, so the first match and its text survive. |
| FixFile.FixFileWithOptions | fix.go:95-147 | Whichever way the sorts fall, the file ends as the spliced survivors or untouched. A rule counts as applied exactly when some survivor carries its ID, on whatever line; what remains are exactly the findings no survivor with a line answers, in order; skip and write failure exactly when due. |
| FixFile.RemainingExact | fix.go:104-123 | A finding remains, as often as found, exactly when no survivor carries its rule and line. |
| FixFile.MatchesConserved | fix.go:104-123 | Every match is answered by a surviving edit or remains as exactly one finding. |
| FixFile.DroppedFixIsReported | fix.go:104-123 | A fix dropped for overlap started inside a survivor and is reported, unless a sibling edit with its key survived. |
| FixFile.FixIsSubstitution | fix.go:374-493 | From collected in-bounds edits to bytes: without a mixed tie the output is the simultaneous substitution of the survivors, with its length. |
| Pieces.SwapsApply | fix.go:1478-1524 | Edits emitted in any order for the swapped pieces of a printed fragment all survive and turn it, in any surrounding file, into the fresh print. |
| CallRewrite.FixWithVerifyFalse | fix.go:1013-1083 | The search loop and branches emit the edits of the first disabling option: rename, wrap, removal with its comma. Another function name is not claimed, and a call without such an option is claimed with no edit. |
| CallRewrite.VerifyIndexIsFirst | fix.go:1021-1030 | The index found is the first disabling option, and none comes before it. |
| CallRewrite.RewrittenArguments | fix.go:1013-1083 | The intended call is one of `ParseInsecure` with the receiver and the text around the arguments as before; every argument but the first disabling option stays in order with its separator, argument 0 wrapped for `ParseString`. |
| CallRewrite.WithVerifyPrints | fix.go:1013-1083 | Unless it is `ParseString` with the option in front, the emitted edits, however sorted, print the rewritten call in place of the call in any file. |
| CallRewrite.WithVerifyFaithfulIff | fix.go:1013-1083 | For any number of arguments, any file and any sort outcome the output is the print of the rewritten call, exactly when it is not `ParseString` with the option in front. |
| Weakening.ExecExtended | fix.go:945-976 | Running any statement with one extra variable it does not mention gives the same signal and events and the same scopes plus that variable. |
| GetRewrite.IfInitPreserved | fix.go:950-976 | For every call, body, store, answer and step budget, the rewritten if-init ends in the same signal, events and scopes, with the destination untouched on error. |
| GetRewrite.IfInitPreservedIff | fix.go:950-976 | For every condition whatever it mentions: that holds for all programs exactly when the init declares the error and the condition tells errors from nil in every store; with `=`, exactly when the original could never run. |
| GetRewrite.UsualIfRuns | fix.go:950-976 | What `if err := ..; err != nil { return err }` does before the rewrite, in full: on success the destination is set and the program goes on, on failure the error is returned and nothing is set. |
| GetRewrite.DeclinesIff | fix.go:950-956 | The fixer declines exactly the statements that are no if without an else whose init sets one name from an out-pointer call. |
| GetRewrite.WithoutDstIff | fix.go:950-976 | A condition that does not read the destination qualifies exactly when it agrees with `err != nil` wherever it is a boolean. |
| GetRewrite.ErrorTestIff | fix.go:950-976 | For a condition that tests the error alone two evaluations decide. |
| GetRewrite.ReadingDstFails | fix.go:950-976 | `err != nil` or a destination that is nil is a condition the rewrite gets wrong. |
| GetRewrite.SameNameSticks | fix.go:981-993 | With the error's own name as temporary the rewritten statement cannot run. |
| GetRewrite.DefinedInitCounterexample | fix.go:950-976 | Every store in which the condition does not tell errors from nil gives a run on which the rewrite differs. |
| GetRewrite.AssignFormSticks | fix.go:950-976 | With `=` in the init the temporary is never declared, so the rewrite cannot run wherever the original could. |
| AssignRewrite.StatementPreservedIff | fix.go:907-942 | The bare, `_ =`, `err =` and `err :=` rewrites end in the original's state exactly when a `:=` finds the destination in its own block and the call succeeds or the destination already holds the zero value. |
| AssignRewrite.CallStatementRuns | fix.go:1218-1249 | What the original statement does for every shape, and exactly when it can run. |
| StatementEdits.FixStatement | fix.go:907-942 | The emitted text is destination, error name (blank for a bare call), token and new call; whatever the sorts do, the edit turns the printed statement into the printed rewrite in any file, and other statements get no edit. |
| TempNames.TempName | fix.go:981-993 | The name is the base if that is free, else the first free of the candidates 2 to 99, else the base; it is taken only when all 99 names are. |
| TempNames.SomeCandidateFree | fix.go:1301-1316 | With fewer than 99 names in scope some candidate is free. |
| TempNames.CandidatesDiffer | fix.go:986-991 | The candidates differ from each other and from the base. |
| TempNames.DecimalReads | fix.go:987 | The suffix of candidate i is i in decimal. |
| IfInitEdits.EditsPrintRewrite | fix.go:950-976 | Deduplicated and spliced in any outcome of the sorts, the three edits turn the printed statement into the printed rewrite. |
| IfInitEdits.FixIfInitStatement | fix.go:950-993 | End to end: when one of the 99 names is free the temporary is; the three texts are the temporary before the error name, the new call, and the else block that copies back; the edits print the rewrite, and for a condition that tells errors it runs as the original did; with the error's name as temporary it never runs. |
| IfInitEdits.ExampleTexts | fix.go:899 | On an example, the text of the old call and of the new one, operand by operand. |
| IfInitEdits.ExampleExport | fix.go:1211 | The same for the export of a key. |
| Semver.VersionOrder | version_floor.go:88-103 | Precedence is antisymmetric and ties only equal versions, prerelease identifiers included. |
| Semver.VersionTransitive | version_floor.go:88-103 | Precedence is transitive, strictly where a step is strict. |
| Semver.CompareFollows | version_floor.go:88-103 | The comparison follows every rule of sections 11.2 to 11.4: major before minor before patch, a pre-release below its release, and identifiers left to right: numbers by value, numbers below the rest, the rest in ASCII order, a proper prefix below. |
| Semver.OnlyPrecedence | version_floor.go:88-103 | Any asymmetric relation that follows those rules is this comparison: they leave nothing open. |
| Semver.DirectiveInNumbers | version_floor.go:88-103 | A directive satisfies another exactly when both are there and it is not older component by component, a missing component being zero; more than three components are no version, met by every directive as a floor. |
| Floors.ModulePathOf | version_floor.go:34-49 | The right-to-left search returns the owning module of a path, and nothing for prose. |
| Floors.OwningModuleStable | version_floor.go:34-49 | The result is a prefix that ends in the last major-version element, and finding the module of a module changes nothing. |
| Floors.OwningModuleExact | version_floor.go:34-49 | A module is found exactly in a path of two or more elements without a space, tab, bracket, comma or quote, whose first element has a dot and in which a later one is a major version. |
| Floors.MajorSuffixes | version_floor.go:17-19 | A major version is v and a number without a leading zero. |
| Floors.RequiredVersionFor | version_floor.go:113-132 | The two loops return the highest of the target's minimum, for the target only, and of every version a fired rule's requires block asks for; nothing exactly when there is neither. |
| Floors.RequiredIsLeast | version_floor.go:113-132 | It is the least version meeting the baseline, for the target only, and every fired floor of the path; there is none exactly when nothing declares one. |
| Floors.RequiredMonotone | version_floor.go:113-132 | It does not depend on the order or repetition of fired rules and never goes down when more rules fire. |
| Floors.UnmetFloors | version_floor.go:138-161 | Rule by rule in declaration order; a floor is reported exactly when a fired rule declares it and the file requires the module at a version below it. |
| Floors.UnmetInNumbers | version_floor.go:138-161 | A declared release is reported as unmet exactly when the required version has a lower major, or an equal one and a lower minor, or both equal and a lower patch, or is a pre-release of it. |
| Floors.NoneUnmet | version_floor.go:138-161 | Nothing is reported exactly when every required module meets every fired floor of its path. |
| GoMod.ImportRewriteRules | fix_gomod.go:210-236 | One rewrite for exactly the mechanical, package-wide import rules with a source and a target whose first element has a dot, in rule order. |
| GoMod.AbsorbedModules | fix_absorb.go:121-132 | The absorbed modules with the last rule that absorbs each. |
| GoMod.AbsorbedExact | fix_absorb.go:121-132 | A module is absorbed exactly when some fired rule names it, and the last such rule is credited. |
| GoMod.CompanionRequirements | version_floor.go:194-216 | The companions with the rule and version the loops settle on. |
| GoModFixpoint.CompanionExact | version_floor.go:194-216 | A module is a companion exactly when a rule naming it declares a floor for it, at the highest such floor. |
| GoModReport.CompanionCredits | version_floor.go:194-216 | The rule credited with a companion is the first that declares its highest version. |
| GoMod.SwapRequire | fix_gomod.go:114-133 | Step 1 for one requirement: the first matching rewrite, or failure when no version is declared for its target. |
| GoMod.RewriteForFirst | fix_gomod.go:115-118 | The rewrite performed is the first that names the path. |
| GoMod.RaiseRequires | fix_gomod.go:139-144 | Step 2: each unmet floor is written in turn, so a later one overwrites an earlier one. |
| GoMod.DropAbsorbed | fix_gomod.go:150-158 | Step 3 in any map order: exactly the absorbed modules go, and the rules of those present count as applied. |
| GoMod.AddCompanionRequires | fix_gomod.go:163-171 | Step 4 in any map order: exactly the missing companions come, present requirements stay as they are. |
| GoMod.FixGoMod | fix_gomod.go:99-202 | Whatever the map iteration order, the file ends in the planned requirements with the planned rules applied, or the planned rule fails. |
| GoModReport.ReportExact | fix_gomod.go:99-202 | A run fails exactly when a requirement to swap has no version to swap to, naming the rule of the first such; otherwise the applied rules are exactly those that swap a requirement, need one higher, absorb one that is there, or bring in a companion that is missing. |
| GoModFixpoint.RaiseNeverLowers | fix_gomod.go:139-144 | Step 2 touches only requirements below some floor and leaves each strictly higher and on a fired floor. |
| GoModFixpoint.RaisedMeetsIff | fix_gomod.go:139-144 | A requirement meets all its floors after step 2 exactly when the last floor its own version misses is the highest. |
| GoModFixpoint.LastFloorWins | fix_gomod.go:139-144 | Two rules asking for 1.2 and then 1.1 raise 1.0 to 1.1 only, for any module. |
| GoModFixpoint.RisingFloorsSettle | fix_gomod.go:139-144 | It always is when per-path floors do not go down in rule order. |
| GoModFixpoint.SwappedIs | fix_gomod.go:114-133 | After step 1 exactly the non-source requirements and the swapped-to targets are there; a target meets its floors, the others are as they were. |
| GoModFixpoint.FloorsMetIff | fix_gomod.go:110-171 | In terms of the file as it was: the written file leaves no fired floor unmet exactly when each requirement kept as it was has its last missed floor highest, and the rules naming each added companion declare its highest floor. |
| GoModFixpoint.UnchangedIff | fix_gomod.go:110-175 | Nothing is written exactly when no requirement is a rewrite source, no floor is unmet, no absorbed module is required and every companion is; requirements then stay as they are. |
| GoModFixpoint.FixpointIff | fix_gomod.go:110-175 | A second run with the same fired rules changes nothing exactly when the floors are met as above, no absorbed module is a companion and no companion is a rewrite source. |
| GoModFixpoint.FixpointReached | fix_gomod.go:110-175 | With floors that do not go down in rule order and named companions, one run meets every fired floor, and a second run changes nothing. |
| GoModFixpoint.NeverLowersIff | fix_gomod.go:114-144 | Requirements that are not sources come out no lower exactly when every target already required was not above its required version. |
| GoModFixpoint.SwapCanLower | fix_gomod.go:128-130 | A target required at 1.3 when 1.1 is asked for is written down to 1.1. |
| Paths.ModuleStateFor | gomod_state.go:63-78 | The upward loop ends and returns the state of the owning module of the file's directory, or nothing. |
| Paths.OwnerIsNearest | gomod_state.go:63-78 | The owner is the deepest enclosing directory with a go.mod, and there is none exactly when none has one. |
| Paths.DiscoverModuleRootsForFiles | ast_scanner.go:279-306 | Exactly the owners of the given files, each once, sorted by their text. |
| FloorPass.ModuleStateCache.constructor | version_floor_pass.go:16-21 | A new cache is consistent and empty. |
| FloorPass.ModuleStateCache.ForFile | version_floor_pass.go:25-38 | Over any sequence of calls the answer is the direct lookup's, negative ones included; every root answered is in `byRoot`, which only grows. |
| FloorPass.IndexRules | version_floor_pass.go:54-62 | The rules by ID, a later one replacing an earlier one. |
| FloorPass.ByIDLast | version_floor_pass.go:54-62 | The rule found under an ID is the last of the rule set that has it. |
| FloorPass.Gate | version_floor_pass.go:63-93 | The kept prefix is the order-preserving filter of the gate; a rule is recorded for a root exactly when it has a surviving finding there. |
| FloorPass.FloorFindings | version_floor_pass.go:104-150 | Exactly the unmet floors of the fired rules of each root, each root and each rule once in sorted order, a rule's floors as often as it declares them. |
| FloorPass.ApplyVersionFloors | version_floor_pass.go:54-100 | The result is the findings that pass the gate, in order, followed by floor reports in sorted order of root and rule. A finding stays exactly when the last rule of its ID asks for no Go version, or the owning module has a directive not older, number by number; a floor is reported exactly when a finding that stays calls for it in that root: its rule declares the version, and the root requires the module below it. |
| FloorPass.OpenInNumbers | version_floor_pass.go:74-78 | A rule gated on 1.n or 1.n.0 lets a finding stay in a module at 1.m or 1.m.p exactly when m is at least n, and never without a module or directive. |
| FloorPass.RaisingKeeps | version_floor_pass.go:74-78 | Raising the directive of modules never drops a finding. |
| FloorPass.UnmetMembers | version_floor.go:138-161 | A floor is reported exactly when its rule is among the fired ones, declares it, and the module is required below it. |
| Batch.PartitionGoMods | main.go:251-260 | Sources and go.mod files, each group in input order. |
| Batch.PartitionExact | main.go:251-260 | Each file of the batch goes to one of the two groups by its base name, and each group keeps the order of the batch. |
| Batch.Summary.RecordFired | main.go:265-279 | Applied and remaining rules are added to the owning module and to no other. |
| Batch.Summary.Handle | main.go:168-193 | The file counts as handled; a failure is recorded and fires nothing; a result adds its rules to its module. |
| Batch.Summary.FiredRulesFor | main.go:282-298 | The rules recorded for the go.mod's own module, in rule-set order. |
| Batch.SelectedExact | main.go:291-297 | Exactly the rules of the set with a recorded ID, each at its place in the set. |
| Batch.FixBuildFile | fix_gomod.go:99-202 | One go.mod: an error exactly when it cannot be read, planned or written; nothing when no rule is applied; otherwise the planned requirements, with the planned rules applied and none remaining. Only then does anything change. |
| Batch.FixFiles | main.go:154-200 | For any batch: every file is handled once per mention despite failures, sources first, and the failures are exactly the files whose outcome is an error, in order. A rule is handed to a go.mod exactly when the rule set has it and a file handled before, in the same module, came to a result that lists it as applied or remaining; each go.mod is rewritten in its turn. |
| Batch.HandedOnce | main.go:191-200 | When each file is named once, a go.mod is handed what its module's sources fired and nothing else. |
| Batch.AfterTurn | main.go:194-196 | A go.mod named once is changed by its own turn only. |
| Batch.HandedExact | main.go:191-200 | A go.mod is handed exactly the rules of the set whose ID is among the applied or the remaining of the result of some source file with the same owner. |
| Batch.HandedIndependentOfOrder | main.go:154-200 | Every permutation of the files hands each go.mod the same rules in the same order. |
| Batch.ModuleFloorsMet | main.go:191-200 | End to end on the batch's own result: a go.mod it did not fail on requires each module no lower than any rule asked that fired in a source of its module. |
| WorkerPool.StepInv | ast_scanner.go:338-357 | Every step of producer, workers and mutex keeps: each index in one place, slots only hold their own job's findings, the map holds exactly what was published, first entry first. |
| WorkerPool.OneConditionOnly | ast_scanner.go:338-357 | Each index is in exactly one of pending, in flight at one worker, done. |
| WorkerPool.LockExcludes | ast_scanner.go:337-343 | While one worker holds the lock no other takes it or publishes, and only its own release frees it. |
| WorkerPool.FirstPublisherWins | check.go:299-329 | The map changes only when the holder of the lock publishes, and an entry once there is never replaced. |
| WorkerPool.NotStuck | ast_scanner.go:344-357 | Every reachable state but the final one has a step. |
| WorkerPool.MeasureDecreases | ast_scanner.go:344-357 | Every step lowers a measure, so every schedule ends. |
| WorkerPool.RunInv | ast_scanner.go:344-357 | The invariant holds along every run, and a run has no more steps than the initial measure. |
| WorkerPool.EntriesStay | ast_scanner.go:254-266 | Along a run an entry once seen is the one seen ever after. |
| WorkerPool.EveryRunCompletes | check.go:299-329 | Every partial run extends to a complete one. |
| WorkerPool.RunResult | check.go:299-333 | At the end of every run the merged findings are the jobs' findings in job order, and the shared map holds exactly the published files. |
| WorkerPool.ScheduleIrrelevant | ast_scanner.go:327-366 | Any two complete runs, on any numbers of workers, give the same findings and covered files, and the same cache when jobs agree on shared files. |
| WorkerPool.PlainSetsAgree | ast_scanner.go:330-337 | Jobs always agree when the map is a plain set, as the covered files are. |
| WorkerPool.DisjointJobsAgree | ast_scanner.go:254-266 | They agree when no two jobs publish one file. |
| SourceTree.WalkExact | ast_scanner.go:370-391 | A walk visits exactly the files it can reach without entering a pruned directory, each once. |
| SourceTree.WalkInOrder | ast_scanner.go:370-391 | The entries of a directory are walked in their order, each with all that is below it before the next. |
| SourceTree.SkipNames | ast_scanner.go:76-83 | Skipped are `vendor`, `node_modules` and every name that starts with a dot, and no others. |
| ScanPhases.FindModuleRoots | ast_scanner.go:370-391 | The directories of the visited go.mod files, in walk order. |
| ScanPhases.RootsExact | ast_scanner.go:370-391 | A directory is a root exactly when it holds a go.mod file and no skip-listed directory is above it, and it is listed once. |
| ScanPhases.PrescanModule | ast_scanner.go:421-476 | Listed, once each, are exactly the Go files below the root whose import clause can be read and names a jwx package, with no skipped directory and no go.mod entry in between; and one sorted package pattern for each directory that holds one. |
| ScanPhases.PatternText | ast_scanner.go:463-473 | The pattern of the root is a dot, that of a directory below it `./` and its path from there. |
| ScanPhases.PrescanExact | ast_scanner.go:421-476 | A file is listed, once, exactly when it imports jwx and no skip-listed or module-rooting directory lies between the root and it. |
| ScanPhases.CheckGoFiles | check.go:131-223 | The files scanned by the typed pass, phase 2a and phase 2b, in that order, and what each of them scans: what the loader covered; what a module lists besides and parses; the jwx files that parse outside every module. |
| ScanPhases.PhasesExact | check.go:131-223 | Each phase by itself scans each of these files once and no other. |
| ScanPhases.ScannedExactlyOnceIff | check.go:131-223 | Whatever the typed loader covers, a scannable file is scanned exactly once if reachable and not orphaned, and never otherwise. |
| ScanPhases.OrphanedIff | ast_scanner.go:430-440 | A reachable file is orphaned exactly when, inside a module, it lies below a directory that holds a directory named go.mod, with no module root in between. |
| ScanPhases.OrphanExists | ast_scanner.go:430-440 | A tree and a reachable file in it that no phase scans, whatever the loader covers. |
| ScanPhases.OrphanPhase | check.go:170-220 | Phase 2b scans a file exactly when no module root is above it and it is reachable. |
| ScanPhases.DownwardMeetsUpward | ast_scanner.go:421-476 | A reachable jwx-importing file is listed by a module's prescan exactly when the upward search from it stops at that module. |
| AtomicWrite.CrashSafeIff | fix.go:213-245 | A disk is safe exactly when every crash there finds the full old state or the full new bytes under the name. |
| AtomicWrite.WriteAtomicWithMode | fix.go:213-245 | The error names the first call that fails, in the order create, write, fsync, close, chmod, rename; on success these are the calls made. The disk is the result of the recorded system calls; before, between and after them a crash finds old or new and no other file differs. Success replaces bytes and mode and leaves no temporary; failure leaves the target as it was, and a temporary exactly when it was created and its removal failed. |
| AtomicWrite.WriteFormatted | fix.go:165-194 | The error names the first step that fails: format, stat, reading and writing the backup if one is asked for, then the calls of the write. A format error changes nothing; the recorded calls are crash-safe throughout, and with backup at every point the target still reads as before or `.bak` holds the original, the backup being the first call and the rename the last; success keeps the mode (0644 for a new file), and a backup has the original's bytes, with its mode unless a `.bak` was there; a temporary stays exactly when a call of the write after its creation fails and its removal does. |
| AtomicWrite.BackUp | fix.go:182-190 | It fails exactly when reading or writing does; otherwise the one call it makes leaves the original's bytes in `.bak`, with the mode given if the file is new and its own if it was there, and nothing else changes. |
| AtomicWrite.MoveReplaces | fix.go:240-243 | The rename of a synced temporary replaces the target and keeps it crash-safe. |
| AtomicWrite.MoveMayBeLost | fix.go:240-243 | The rename may be lost in a crash: whatever could be found before it still can, and the new bytes as well. |
| AtomicWrite.UnsyncedMoveUnsafe | fix.go:227-243 | Without the fsync it would not be crash-safe: the order of the calls is needed. |
| Absorb.AbsorbedReferences | fix_absorb.go:219-252 | Exactly the selectors with a wanted symbol on the name of the first import of the extension: its alias, or the last element of its path or the one before a version. |
| Absorb.VersionSuffixes | ast_scanner.go:31 | A version element is v and a number. |
| Absorb.RequalifiedText | fix_absorb.go:200-213 | A re-qualified selector reads the last element of the new path, or the one before a version, unless it does so already. |
| Absorb.PackageIsReferenced | fix_absorb.go:164-186 | Some selector on the name is not among the re-qualified ones. |
| Absorb.FixImportRemoval | fix_absorb.go:29-71 | No edit exactly when the range is out of bounds or a selector that is not re-qualified is on the import: on its alias, or without one on the last element of its path or the one before a version; otherwise the whole line, or the spec alone when other text shares it. |
| Absorb.NamedImportStays | fix_absorb.go:37-41 | An unaliased import whose path ends in a name, or in a name and a version, stays as long as a selector on that name is not re-qualified. |
| Absorb.BindsExact | fix_absorb.go:154-160 | What an import makes available: its alias, or the name its path is called by; nothing when it is blank; bare identifiers of its package when it is a dot import. |
| Absorb.RemovalTakesIff | fix_absorb.go:46-70 | A byte outside the spec is removed with it exactly when it is on the spec's line, before or behind, and no lower-case letter stands in front of the spec. |
| Absorb.RemovalSafeIff | fix_absorb.go:29-71 | The rewritten file is left with a use in place of the deleted import's that no import provides, exactly when some selector is re-qualified and the absorbed package's name is not bound, or a bare identifier of a dot import is provided by no other. |
| Absorb.NewNameIff | fix_absorb.go:256-281 | The absorbed package's name is bound whenever its path was not imported and an import is left to insert in front of; with its path imported, exactly when an import that stays or another injected one binds that name; with every import deleted, only by another injected one. |
| Absorb.AliasLeavesUse | fix.go:775-786 | A file that imports the absorbed package under an alias: the extension's import goes and its re-qualified selector is bound by nothing. |
| Absorb.DotImportGoes | fix_absorb.go:37-41 | The guard never holds back a dot import, whatever the file uses of it. |
| Absorb.DotImportLosesIff | fix_absorb.go:37-41 | Deleting the only dot import of a package leaves a use unbound exactly when the file has a bare identifier of it, or is left with an unbound re-qualified selector. |
| Absorb.UsesReadNewName | fix_absorb.go:200-213 | In the output bytes a selector on the deleted import's name reads the absorbed package's name, unless the two names are the same; given only that no other survivor covers that selector's start and none is tied with it. |
| Absorb.InsertAnchor | fix_absorb.go:288-304 | The first import that no pending edit with an empty text covers, or none when all are covered. |
| Absorb.EnsureAbsorbedImports | fix_absorb.go:256-281 | Every absorbed package that some edit now refers to is imported once, exactly when it was missing and an import is left to insert in front of; all go before the first import no edit deletes. |
| Absorb.AddedUsedIff | fix_absorb.go:254-281 | The removal alone has the import added; it is used exactly when some selector is re-qualified or was on that name already. |
| Absorb.ImportedTwiceIff | fix_absorb.go:273-278 | The output imports an added path twice exactly when an import that stays is rewritten to it. |
| Absorb.AnchorTieIff | fix_absorb.go:297-300 | From what the pass emits: a survivor ties with the inserted import exactly when it stands in front of an unaliased import whose path is rewritten; then some sort outcome is no substitution of the survivors, otherwise every insertion lands. |
| Absorb.AnchorTieCorrupts | fix_absorb.go:297-300 | Both edits survive there, and some sort outcome is no substitution of the survivors. |
| Absorb.AnchorLands | fix_absorb.go:297-300 | Otherwise every inserted import lands in front of that import for every source and every sort outcome. |
| Absorb.FirstImportTieIff | fix.go:752-771 | An import injected at the first import's line survives, and is in a mixed tie exactly when that import is removed with its line, or stands unindented and has its path rewritten; then some sort outcome is no substitution of the survivors, otherwise it lands in every one. |
| Absorb.FirstImportTieCorrupts | fix.go:757-770 | In particular, injecting an import while the guard lets the first one go with its line. |

## Left out

- Parsing, printing, formatting, type checking and package loading: trees with spans, scope sets and loader coverage are inputs.
- Regular expressions, matcher derivation and the rule files: `ast_derive.go` and the YAML tables are data here.
- `go.mod` syntax, comments and repeated requirements: only the path-to-version map is modelled, with the file's listing of paths kept for step 1.
- `go mod tidy`, its environment, command line, output, exit codes, symlink checks, `normalizeTarget`: process plumbing and single-branch facts.
- The other rewriters (`fixCall`, `fixImportChange`, `fixMoveToExtension`, `fixReadFileToParseFS`, `fixDeleteStatement`, `fixPointerToValue`): each is one edit from one node, and their splicing is covered by the engine's theorems.
- Which imports `ensureOsImport`, `ensureExtensionImports` and `ensureJWXImports` ask for: where they insert is modelled, and the names they bind are an input of `Absorb.RemovalSafeIff`.
- Idempotence of import rewriting: not a property of the code when the target path contains the source path.
- Sorted order of applied rule IDs: kept as a set, and the final sorting in `Check` is left to its caller.
- Spaces around a module path and import paths with empty elements: paths are trimmed and clean, as `strings.TrimSpace` and the Go parser leave them.
- Invalid version strings: versions are values of section 11 of Semantic Versioning 2.0.0, so the fallback of the comparison for malformed input is outside.
- Build-file scanning beyond its pool: `scanFile` is a job with a result.
- Sorting: `sort.Slice` is any outcome its comparator allows; the method that stands for it is one such outcome and its contract admits all.
- Lang: function calls, loops over ranges, closures, goroutines, short-circuit evaluation and address-taking outside the call being rewritten; a step budget bounds loops and both sides are compared on the same budget.
- GetRewrite.IfInitPreserved: the destination is an identifier, because a field or element destination evaluates again in the added else block.
- IfInitEdits.EditsPrintRewrite: the statement is in printed form, because other spacing changes only text that no edit touches.
- CallRewrite.FixWithVerifyFalse: whether an argument is the disabling option is a flag on it, because the check looks only at that argument's own tree.
- ScanPhases.ScannedExactlyOnceIff: the typed loader covers only files its module's prescan listed, because what `packages.Load` returns is not decided by this code.
- WorkerPool.ScheduleIrrelevant: the cache of typed files needs jobs that agree on shared files, because with overlapping modules the first publisher wins and schedules can differ.
- GoModFixpoint.FixpointReached: needs floors that do not go down in rule order and similar sanity of the rule set; `GoModFixpoint.FloorsMetIff` and `GoModFixpoint.FixpointIff` are the exact statements.
- GoModFixpoint.FloorsMetIff: with `GoModFixpoint.FixpointIff`, for rule sets in which no rewrite target is itself a source, because chains of rewrites depend on the order in which the file lists its requirements.
- Batch.ModuleFloorsMet: for a go.mod named once in the batch and a sane rule set, as `GoModFixpoint.FixpointReached`.
- Absorb.UsesReadNewName: needs that selector to be in no mixed tie and not covered by another survivor, because the engine then drops or corrupts its edit.
- Absorb.AnchorTieIff: needs the path edit to be the only non-empty one that starts at the import and none across it, because other rewriters do not touch import specs.
- Absorb.RemovalSafeIff: in terms of the collected edits, because which of them survive is the engine's matter.
- Absorb.FirstImportTieIff: needs nothing but the removal and the path edit of the first import to start at its line and nothing to run across, because other edits there do not come from import specs; `Landing.InsertionTieIff` has no such condition.
- AtomicWrite.BackUp: a process umask, because it is not in the code.
- AtomicWrite.WriteFormatted: the backup's own crash states are not promised, because the code does not sync it.
