# FIC device control: a verified model

The project models the device-control engine of FIC and three smaller protocols around it, and proves
what they promise over all inputs, all runs and all failures.

- **Policy.** A table of devices with explicit levels, children rules and categories is evaluated in three
  places: the daemon walks parent ids in the database, the tree snapshot walks in-memory indexes, and a
  compiler turns the table into an ordered udev program in which the last match wins. The model gives that
  program a small interpreter and proves what it decides for every table, that on plain values this is the
  decision by stored paths, that it is the daemon's decision on a coherent database, and that the snapshot
  refines the daemon.
- **Device tree.** Attach creates virtual ancestors recursively; disconnect clears a subtree and prunes
  emptied virtual ancestors in one transaction. Parent links are arbitrary and may be cyclic, but never become
  so by attaching and disconnecting managed devices.
- **Events and obligations.** A bounded coalescing queue, the obligation to reconcile after any loss, and
  the obligation to report a missing permanent device over a lossy link until the main daemon has it.
- **Database state.** Category epochs with the identities known at their start, and the desired and active
  policy revisions with the rules file published in between.
- **IPC and login gate.** Framing and reassembly of responses, the scheduling of connections from a client's
  request to the answer it gets, and the countdown of the pre-login controller.

Every external effect (SQL statements, sockets, processes, files, clocks, the screen) is an input of the
model: a nondeterministic failure in the database classes, which put down each statement that failed, or a
record of outcomes handed to the method.
Characters stand for bytes. Udev rules are a typed syntax tree; the FIC_* variables are its flags.

## Where the code does not keep what its surroundings suggest

Each of these is stated exactly, with the condition under which the code does what is expected.

- A device path or identity value with a bar or a control byte yields a rule that selects something else
  (UdevPattern.EscapedPatternExact, CompilerCorrectness.BarPathIsMissed).
- A block device with a WWN and a usable serial triple, a USB device whose raw serial contradicts its udev
  properties, or a USB interface below a parent with another usable identity can be exempted by the rules and
  still be unknown to the daemon (CompiledVsRuntime.ExemptionsAgreeExactly, CoherentExample.HubExemptsStick).
- A coalesced change is delivered before a removal of the same device that was reported earlier
  (EventQueue.CoalescedOrderExactly, EventQueue.ChangeOvertakesRemoval).
- Creating missing ancestors recurses forever when both root containers are missing
  (DevicePaths.CreationStopsExactly), and collecting descendants recurses forever on a cycle
  (PolicyOverride.RecursionEndsExactly).
- A failed attach leaves the ancestors it created behind, the last of them without a child
  (TreeRuns.AttachKeepsVirtualsExactly, TreeRuns.FailedAttachLeavesEmptyVirtual).
- Re-attaching a known device at another path strands its current children
  (TreeAttach.ReattachKeepsLinksExactly, TreeRuns.MovedHubLosesLinks).
- A failed reload after an unfaithful read of the previous rules replaces good rules while both revisions
  match (PolicyRevisions.RegenerationKeepsExactly, PolicyRevisions.UnexaminedRulesAreLost).
- A device with a path rule of its own that is attached at another path leaves both revisions matching over
  stale rules, because no trigger watches the path (MovedCarrier.MoveStaleExactly,
  MovedCarrier.MoveLeavesStaleRules), and so does a device with an identity rule that reports other identity
  terms (MovedCarrier.DescribeStaleExactly, MovedCarrier.NewIdentityLeavesStaleRules) and a device that takes
  over a virtual row whose rule then changes its place among the rules of its depth
  (MovedCarrier.TakeOverStaleExactly, MovedCarrier.TakenOverAncestorLeavesStaleRules). PolicyRevisions allows
  these changes where they leave the rules current; AttachRevisions.WriteStaleExactly says when a write does.
- The local audit of missing permanent devices uses an event type that the table's CHECK refuses, so none of
  it is stored (PermanentRetry.Monitor.RecordAudit).
- Removal by place is idempotent only when every current row at that path and subsystem hangs under the one
  removed (DeviceLifecycle.PlaceVacatedExactly, DeviceLifecycle.TwinStays).

## Layout

One file per module; each module follows one component.

- Tables and paths: Common, DeviceTable, TreePaths, RowOrder, DeviceStore, DevicePaths.
- Policy: UdevEscape, UdevPattern, UdevRules, CategoryPolicy, PolicyCompiler, CompilerCorrectness,
  IdentityMeaning, CompileAnswers, EffectivePolicy, PolicyMeaning, CompiledVsRuntime, CoherentExample, PolicyOverride,
  SnapshotPolicy, PermanentScan, PolicyView, IdentityRules, RuleOrder, RuleSources.
- Tree: DeviceSubtrees, DeviceLifecycle, TreeAttach, TreeRuns.
- Events: EventQueue, DaemonLoop, IncidentProtocol, PermanentRetry.
- State: CategoryEpochs, CategoryLoad, CategoryMeaning, PolicyRevisions, MovedCarrier, AttachRevisions.
- IPC and login: IpcWire, IpcTransport, ConnectionLives, Readiness, PreLogin.

## Model

| member | source | states |
|---|---|---|
| UdevEscape.EscapeUdevValue | fic-dick/src/policy/DevicePolicyCompiler.cpp:157-196 | fails exactly on a value with a NUL byte, and otherwise writes the escaped text that the lemmas below are about |
| UdevEscape.EscapeRoundTrip | fic-dick/src/policy/DevicePolicyCompiler.cpp:163-194 | a decoder gives back every NUL-free value from its escaped text |
| UdevEscape.EscapeInjective | fic-dick/src/policy/DevicePolicyCompiler.cpp:163-194 | two NUL-free values never share an escaped text |
| UdevEscape.EscapeSelfDelimiting | fic-dick/src/policy/DevicePolicyCompiler.cpp:163-194 | scanning the escaped text followed by a quote and any suffix finds the closing quote exactly at the end of the value |
| UdevEscape.EscapePrintable | fic-dick/src/policy/DevicePolicyCompiler.cpp:184-189 | no raw control byte reaches the rules file |
| UdevPattern.UdevPatternMatches | fic-common/fic-device-db/include/fic/device-db/DeviceCategoryPolicy.h:53-62 | the loop over alternatives accepts a value exactly when some bar-separated alternative matches it |
| UdevPattern.FirstAlternative | fic-common/fic-device-db/include/fic/device-db/DeviceCategoryPolicy.h:57-60 | an alternative without a bar in front adds exactly its own matches to those of the rest |
| UdevPattern.PlainMatchesExactly | fic-dick/src/policy/DevicePolicyCompiler.cpp:316-318 | the rule written for a glob-free value without bar or control byte selects that value and no other |
| UdevPattern.PlainMatchesBelow | fic-dick/src/policy/DevicePolicyCompiler.cpp:257-259 | the children rule written for such a path selects exactly the paths below it |
| UdevPattern.EscapedPatternExact | fic-dick/src/policy/DevicePolicyCompiler.cpp:33-36 | a rule for a glob-free value selects exactly that value if and only if the value holds no bar and no control byte, which the path check does not look at |
| UdevPattern.EscapedMatchesOnlyPlain | fic-dick/src/policy/DevicePolicyCompiler.cpp:64-73 | no string with a bar or control byte in it is ever selected by an escaped value |
| UdevPattern.EscapedPicks | fic-dick/src/policy/DevicePolicyCompiler.cpp:316-318 | for every glob-free value, with bars or control bytes too: its rule selects exactly the pieces between the bars, control bytes read as their escape letters |
| UdevPattern.EscapedPicksBelow | fic-dick/src/policy/DevicePolicyCompiler.cpp:257-259 | for every glob-free path: its children rule selects the pieces before the last bar and everything below the last piece |
| UdevPattern.EscapedBelowExact | fic-dick/src/policy/DevicePolicyCompiler.cpp:257-259 | a children rule selects exactly the paths below its own if and only if the path holds no bar and no control byte |
| UdevPattern.BarIsAnAlternative | fic-dick/src/policy/DevicePolicyCompiler.cpp:157-196 | a value with a bar between two plain pieces is missed by its own rule, which selects the two pieces |
| UdevPattern.LiteralMatchesExactly | fic-common/fic-device-db/include/fic/device-db/DeviceCategoryPolicy.h:16-51 | a pattern of plain characters matches itself and nothing else |
| CategoryPolicy.MatchAny | fic-common/fic-device-db/include/fic/device-db/DeviceCategoryPolicy.h:113-125 | the loop finds out whether any predicate of the right subsystem has all its patterns matched |
| CategoryPolicy.IsKnownAtEpoch | fic-common/fic-device-db/include/fic/device-db/DeviceCategoryPolicy.h:127-139 | known means that some captured identity of the subsystem has the same physical terms |
| CategoryPolicy.DecideCategoryDenial | fic-common/fic-device-db/include/fic/device-db/DeviceCategoryPolicy.h:142-155 | the loops decide the denial that CategoryMeaning.DenialExactly gives in closed form: the first denied category in name order, with every "all" before every "new" |
| CategoryMeaning.CategoryMatchesExactly | fic-common/fic-device-db/include/fic/device-db/DeviceCategoryPolicy.h:16-51 | what each category covers, property by property: CD attributes of block devices, interface classes 06 and 07 in any of four places, interface class 08, block devices on the USB bus or below a USB directory, and USB disks |
| CategoryMeaning.SafeExactly | fic-common/fic-device-db/include/fic/device-db/DeviceCategoryPolicy.h:97-101 | a value is usable exactly when it is not empty, a pattern only for itself, and free of quotes, substitutions and control bytes |
| CategoryMeaning.SamePhysicalExactly | fic-common/fic-device-db/include/fic/device-db/DeviceCategoryPolicy.h:67-103 | two sets of attributes prove one device exactly when vendor, product and serial agree, or the WWN does, or without one serial, vendor and model do, all usable |
| CategoryMeaning.KnownExactly | fic-common/fic-device-db/include/fic/device-db/DeviceCategoryPolicy.h:127-139 | known means that the category's own list holds an identity of the subsystem that is the same physical device |
| CategoryMeaning.DenialExactly | fic-common/fic-device-db/include/fic/device-db/DeviceCategoryPolicy.h:105-155 | the denial in closed form over the three fields: each field governs the devices of its own category, hard or new |
| CategoryMeaning.CapturedGoverns | fic-common/fic-device-db/src/DB.cpp:1088-1098 | after a capture and a load a category knows exactly the devices that the newest proof of some stored identity shows |
| CategoryMeaning.UpdateGoverns | fic-common/fic-device-db/src/DB.cpp:1069-1109 | after a successful update and a load, what is denied outright follows from the modes asked for, and a category that entered "new" knows exactly the devices of the inventory |
| CategoryMeaning.UpdateCounts | fic-common/fic-device-db/src/DB.cpp:1083-1107 | an update raises the desired revision exactly when the state loaded after it differs from the one before |
| RowOrder.PathLessOrder | fic-dick/src/policy/DevicePolicyCompiler.cpp:210-221 | the comparison of the sort is transitive and decides every pair of rows with different ids |
| RowOrder.SortSorted | fic-dick/src/policy/DevicePolicyCompiler.cpp:210-221 | the sorted list is in order and keeps ids distinct |
| RowOrder.SortedUnique | fic-dick/src/policy/DevicePolicyCompiler.cpp:210-221 | a sorted arrangement of given rows is unique |
| RowOrder.SortOrderIndependent | fic-dick/src/policy/DevicePolicyCompiler.cpp:324-326 | the sorted list does not depend on the order the rows were read in |
| UdevRules.RunConcat | fic-dick/src/policy/DevicePolicyCompiler.cpp:246-371 | rules without jumps run to their end before the rules after them |
| PolicyCompiler.EmitPathRules | fic-dick/src/policy/DevicePolicyCompiler.cpp:246-260 | one children or placement rule per carrier at a managed path, in order, or the id of the first carrier whose path holds a NUL |
| PolicyCompiler.EmitKnownRules | fic-dick/src/policy/DevicePolicyCompiler.cpp:268-293 | one exemption per usable captured identity and USB type, none twice |
| PolicyCompiler.EmitPredicateRules | fic-dick/src/policy/DevicePolicyCompiler.cpp:294-302 | one rule per predicate of the category, guarded by the exemption flag in "new" |
| PolicyCompiler.EmitCategoryRules | fic-dick/src/policy/DevicePolicyCompiler.cpp:262-303 | blocks of all enabled categories in name order |
| PolicyCompiler.EmitIdentityRules | fic-dick/src/policy/DevicePolicyCompiler.cpp:321-371 | identity rules in id order, skipping repeated identities and signatures; refusing unusable terms and contradicting levels |
| PolicyCompiler.Compile | fic-dick/src/policy/DevicePolicyCompiler.cpp:198-396 | the whole compilation with its error cases, as the program CompiledDecision speaks about |
| IdentityMeaning.UsbTermsExactly | fic-dick/src/policy/DevicePolicyCompiler.cpp:81-90 | a USB device has an identity exactly when vendor, product and serial are stored, not empty and glob-free, and it is these four properties |
| IdentityMeaning.DiskTermsExactly | fic-dick/src/policy/DevicePolicyCompiler.cpp:92-113 | a block device is identified by the first stored one of DM_UUID, WWN, partition UUID, filesystem UUID and serial, and by DEVTYPE where one is stored |
| IdentityMeaning.IdentifiedExactly | fic-dick/src/policy/DevicePolicyCompiler.cpp:75-118 | an identity exists exactly in these two cases |
| IdentityMeaning.SelectsExactly | fic-dick/src/policy/DevicePolicyCompiler.cpp:355-369 | the rule of a row selects an event exactly when subsystem and every named property of the event are what the stored values stand for |
| IdentityMeaning.ShownIsSame | fic-dick/src/policy/DevicePolicyCompiler.cpp:355-369 | which on values without bar or control byte means that they are equal, property by property |
| IdentityMeaning.IdentityRuleByName | fic-dick/src/policy/DevicePolicyCompiler.cpp:327-371 | every rule of a compiled program that names a row as identity source belongs to a row that carries one, selects exactly the events with its identity, and sets that row's level and nothing else |
| CompileAnswers.PathBlockAnswers | fic-dick/src/policy/DevicePolicyCompiler.cpp:246-256 | a block of path rules fails exactly on the first row in path order with a rule and a NUL in its path |
| CompileAnswers.FoldAnswers | fic-dick/src/policy/DevicePolicyCompiler.cpp:327-364 | the identity loop fails exactly at the smallest id that leads its identity and has no usable identity, a rival of another level, or a NUL in a value |
| CompileAnswers.CompilationAnswers | fic-dick/src/policy/DevicePolicyCompiler.cpp:198-396 | every answer of the compiler: which error comes first, and a program exactly when nothing stops it |
| CompileAnswers.OneAnswer | fic-dick/src/policy/DevicePolicyCompiler.cpp:198-396 | these answers leave no choice |
| CompileAnswers.UnsafeExactly | fic-dick/src/policy/DevicePolicyCompiler.cpp:332-339 | compilation refuses an identity as unusable exactly when that row leads it, lacks the properties named above, and no smaller id stops first |
| CompileAnswers.IdentityDecides | fic-dick/src/policy/DevicePolicyCompiler.cpp:321-371 | where no category denies an event outright and values stand for themselves, an identity decides exactly the events that show the identity of a leading row, with the level of such a row |
| CompileAnswers.HardCategoryByName | fic-dick/src/policy/DevicePolicyCompiler.cpp:262-303 | the category a program denies an event for outright, by the properties of the event and the three modes |
| CompileAnswers.NewCategoryByName | fic-dick/src/policy/DevicePolicyCompiler.cpp:262-303 | the same for the categories in "new", except for exempted events |
| CompilerCorrectness.LastApplying | fic-dick/src/policy/DevicePolicyCompiler.cpp:246-260 | the winner of a block of path rules is a carrier whose rule applies to the path |
| CompilerCorrectness.InheritedRun | fic-dick/src/policy/DevicePolicyCompiler.cpp:246-260 | running the children rules sets the inherited level and source of the last selecting row and touches nothing else |
| CompilerCorrectness.PlacementRun | fic-dick/src/policy/DevicePolicyCompiler.cpp:305-319 | running the placement rules sets level, source and direct match of the last selecting row and touches nothing else |
| CompilerCorrectness.LongestPrefixWins | fic-dick/src/policy/DevicePolicyCompiler.cpp:210-221 | ascending depth with last match wins is longest-prefix match among the carriers above a path |
| CompilerCorrectness.KnownBlockRun | fic-dick/src/policy/DevicePolicyCompiler.cpp:268-293 | the exemption flag is set exactly for events some captured identity exempts; an interface is exempted by the whole identity on any one of its parents |
| CompilerCorrectness.PredicateBlockRun | fic-dick/src/policy/DevicePolicyCompiler.cpp:294-302 | the first matching predicate claims the category flag unless the device is exempt or an earlier category holds it |
| CompilerCorrectness.CategoryBlocksRun | fic-dick/src/policy/DevicePolicyCompiler.cpp:262-303 | after all blocks the two flags name the first category denied under "all" and under "new" |
| CompilerCorrectness.IdentityRun | fic-dick/src/policy/DevicePolicyCompiler.cpp:321-371 | running the identity rules sets level, source and direct match of the last selecting emitted identity and touches nothing else |
| CompilerCorrectness.DecisionLevel | fic-dick/src/policy/DevicePolicyCompiler.cpp:373-382 | the decision tail orders hard category, direct match, new category, ancestor rule, allow, for level and source alike |
| CompilerCorrectness.DecisionConnection | fic-dick/src/policy/DevicePolicyCompiler.cpp:383-388 | permanent and ignored devices connect; enforcement is requested exactly on a denied connection |
| CompilerCorrectness.ProgramRun | fic-dick/src/policy/DevicePolicyCompiler.cpp:230-240 | how removals, other actions, foreign subsystems and events without a path pass the filter rules |
| CompilerCorrectness.CompiledDecision | fic-dick/src/policy/DevicePolicyCompiler.cpp:198-396 | compiler correctness: for every inventory that compiles and every event, the program leaves exactly the level, source, connection level and commands of the documented priority, each rule standing for what its value picks |
| CompilerCorrectness.PlainDecision | fic-dick/src/policy/DevicePolicyCompiler.cpp:198-396 | where no rule value holds a bar or a control byte, that is the decision by the stored paths and identities |
| CompilerCorrectness.BarPathIsMissed | fic-dick/src/policy/DevicePolicyCompiler.cpp:33-36 | for instance the rule of one managed path with a bar in it misses that path and selects the two pieces |
| CompilerCorrectness.CompileOrderIndependent | fic-dick/src/policy/DevicePolicyCompiler.cpp:206-221 | the compiled program does not depend on the order of the inventory |
| EffectivePolicy.DevicePathToRoot | fic-dick/src/daemon/DeviceControlDaemon.cpp:204-223 | the parent walk, ended by a root, a missing parent or the first repetition |
| EffectivePolicy.PathIsUp | fic-dick/src/daemon/DeviceControlDaemon.cpp:204-223 | row i of the walk is the i-th parent, with the override applied |
| EffectivePolicy.FindIdentityRule | fic-dick/src/daemon/DeviceControlDaemon.cpp:307-315 | the first explicit same-identity row with ignore_hierarchy |
| EffectivePolicy.IdentityRuleIsMinimal | fic-dick/src/daemon/DeviceControlDaemon.cpp:307-315 | that row is the one with the smallest id among all that qualify, and there is none exactly when no row qualifies |
| EffectivePolicy.FindNearestRule | fic-dick/src/daemon/DeviceControlDaemon.cpp:328-336 | the nearest strict ancestor with a children rule |
| EffectivePolicy.EvaluateEffective | fic-dick/src/daemon/DeviceControlDaemon.cpp:290-339 | the daemon's evaluator: hard category, identity, placement, new category, ancestor, default |
| PolicyMeaning.CarrierExact | fic-dick/src/daemon/DeviceControlDaemon.cpp:307-315 | the identity rule found is that of the smallest id among the explicit rows of the identity that ignore the hierarchy |
| PolicyMeaning.NearestExact | fic-dick/src/daemon/DeviceControlDaemon.cpp:328-336 | the ancestor rule found is that of the first ancestor with one, the row itself left out and parents that are missing or repeat ending the search |
| PolicyMeaning.EffectiveIsDecided | fic-dick/src/daemon/DeviceControlDaemon.cpp:290-339 | the evaluated policy is what the table says, decision by decision, without any walk |
| PolicyMeaning.DecisionIsUnique | fic-dick/src/daemon/DeviceControlDaemon.cpp:290-339 | and the table allows no other |
| CompiledVsRuntime.RuntimeKnownIsExempt | fic-common/fic-device-db/include/fic/device-db/DeviceCategoryPolicy.h:127-139 | whatever the daemon takes as known the rules exempt too, and on a device with one usable identity nothing more |
| CompiledVsRuntime.ExemptionsAgreeExactly | fic-dick/src/policy/DevicePolicyCompiler.cpp:272-291 | exemptions of the rules and of the daemon agree for every captured epoch if and only if the device offers one usable physical identity; for an interface: no parent has a usable one other than its own |
| CompiledVsRuntime.ParentExempts | fic-dick/src/collectors/USBInfoCollector.cpp:65-83 | an interface below a captured parent of another usable identity is exempt in the rules and unknown to the daemon |
| CompiledVsRuntime.CapturedHubDecides | fic-dick/src/policy/DevicePolicyCompiler.cpp:275-289 | and while the epoch holds just that parent, the daemon denies the interface and the rules do not |
| CompiledVsRuntime.FirstDeniedAgrees | fic-dick/src/policy/DevicePolicyCompiler.cpp:262-303 | then both deny the same category for the same reason |
| CompiledVsRuntime.SignatureInjective | fic-dick/src/policy/DevicePolicyCompiler.cpp:342-345 | on newline-free values the signature determines subsystem and terms |
| CompiledVsRuntime.IdentityWinner | fic-dick/src/policy/DevicePolicyCompiler.cpp:327-371 | the identity rule that wins in udev is the daemon's choice, the smallest id of the identity |
| CompiledVsRuntime.AncestorWinner | fic-dick/src/policy/DevicePolicyCompiler.cpp:246-260 | the deepest applying prefix and the nearest ancestor with a children rule are one row when links follow paths |
| CompiledVsRuntime.PlacementWinner | fic-dick/src/policy/DevicePolicyCompiler.cpp:305-319 | with one explicit row per path the placement rule that wins is the device's own |
| CompiledVsRuntime.ReferenceIsEffective | fic-dick/src/daemon/DeviceControlDaemon.cpp:290-339 | on a coherent database the path-based decision is the daemon's effective policy, level and source |
| CompiledVsRuntime.CompiledAgreesWithRuntime | fic-dick/src/policy/DevicePolicyCompiler.cpp:321-385 | a successful compilation of a coherent database gives the device the daemon's level, each of the four by name, and source, and denies the connection exactly when the daemon says "blocked" |
| CoherentExample.IsCoherent | fic-dick/src/daemon/DeviceControlDaemon.cpp:290-339 | the coherence the agreement rests on is met, for instance by a stick below a hub with a deny rule |
| CoherentExample.StickIsDenied | fic-dick/src/policy/DevicePolicyCompiler.cpp:246-260 | and there the compiled rules deny the stick with the hub as source, as the daemon's evaluation does |
| CoherentExample.HubExemptsStick | fic-dick/src/policy/DevicePolicyCompiler.cpp:275-289 | a concrete storage interface below a captured hub, denied by the daemon and exempt in the rules |
| PolicyOverride.Commit | fic-common/fic-device-db/src/DB.cpp:1340-1370 | the control write: the row has exactly the given level, explicit flag, hierarchy flag and children rule, its other columns, all other rows, the attributes and the categories stay |
| PolicyOverride.PreviewEqualsCommit | fic-dick/src/daemon/DeviceControlDaemon.cpp:194-202 | the policy previewed with an override is the policy after that write, for every device |
| PolicyOverride.UnaffectedKeepsPolicy | fic-dick/src/daemon/DeviceControlDaemon.cpp:554-573 | outside the target, its descendants and its identity no policy changes |
| PolicyOverride.GetDescendants | fic-common/fic-device-db/src/DB.cpp:1473-1481 | off a cycle the recursion finds exactly the rows below |
| PolicyOverride.CycleNests | fic-common/fic-device-db/src/DB.cpp:1473-1481 | from a row on a cycle there are nested calls of the recursion to every depth |
| PolicyOverride.RecursionEndsExactly | fic-common/fic-device-db/src/DB.cpp:1473-1481 | the depth of the recursion is bounded if and only if the row is not on a cycle |
| PolicyOverride.AffectedDevices | fic-dick/src/daemon/DeviceControlDaemon.cpp:554-573 | every affected device once and nothing else |
| PolicyOverride.ConnectedBlockers | fic-dick/src/daemon/DeviceControlDaemon.cpp:575-599 | the blockers are exactly the connected affected devices the written change blocks, with the reason they will have |
| PolicyMeaning.ChildrenRulePreview | fic-dick/src/daemon/DeviceControlDaemon.cpp:328-336 | a previewed children rule decides every row whose nearest ancestor with one becomes the target and that nothing earlier settles: blocked exactly when it denies |
| PolicyMeaning.DeniedChildBlocks | fic-dick/src/daemon/DeviceControlDaemon.cpp:575-599 | and such a row is affected and blocked with the target as reason, so it is among the blockers when connected |
| PolicyOverride.BlockersAreComplete | fic-dick/src/daemon/DeviceControlDaemon.cpp:575-599 | no device newly blocked by the write is outside the affected ones |
| SnapshotPolicy.IdentityKeyInjective | fic-dick/src/device/DeviceTreeSnapshot.cpp:28-30 | the index key tells identities apart for NUL-free hashes |
| SnapshotPolicy.BuildIndexes | fic-dick/src/device/DeviceTreeSnapshot.cpp:137-142 | the indexes hold every row by id and every identity's rows in id order |
| SnapshotPolicy.WalkParents | fic-dick/src/device/DeviceTreeSnapshot.cpp:69-88 | the guarded walk over the index, with its two failures |
| SnapshotPolicy.WalkIsNearest | fic-dick/src/device/DeviceTreeSnapshot.cpp:69-88 | where the walk succeeds it finds the daemon's nearest ancestor rule, or none as the daemon does |
| SnapshotPolicy.WalkFailsExactly | fic-dick/src/device/DeviceTreeSnapshot.cpp:71-80 | the walk fails exactly on a missing parent or a cycle reached before any ancestor with a children rule, and says which |
| SnapshotPolicy.SnapshotEffective | fic-dick/src/device/DeviceTreeSnapshot.cpp:32-90 | where it succeeds the snapshot gives the daemon's level, source and source id; it fails exactly when the hierarchy decides and the walk is stuck, with the reason |
| PermanentScan.CheckIdentityConnected | fic-dick/src/daemon/DeviceControlDaemon.cpp:499-515 | connected means a static container or a current-boot occurrence of the identity |
| PermanentScan.MissingExactly | fic-dick/src/daemon/DeviceControlDaemon.cpp:499-515 | a stored device is missing exactly when it is held permanent by a row that is no static container and of whose identity no row belongs to the current boot |
| PermanentScan.GetAllDevicesChecked | fic-common/fic-device-db/src/DB.cpp:1552-1603 | the complete inventory in id order, or nothing: rows read before a failing step are not handed out |
| PermanentScan.Candidates | fic-dick/src/daemon/DeviceControlDaemon.cpp:640-646 | the candidates of a partial check are the existing rows of the given ids |
| PermanentScan.ScanCandidates | fic-dick/src/daemon/DeviceControlDaemon.cpp:660-682 | every violation reports a missing obligation of a candidate, and every missing obligation is reported under its key once |
| PermanentScan.CollectMissing | fic-dick/src/daemon/DeviceControlDaemon.cpp:635-685 | a full scan runs over a fully read inventory or yields no result at all |
| PermanentScan.KeyIsIdentity | fic-dick/src/daemon/DeviceControlDaemon.cpp:675-678 | the obligation key tells identities apart for single-line subsystem names, whatever the hashes hold |
| PermanentScan.PermanentHasSource | fic-dick/src/daemon/DeviceControlDaemon.cpp:610-622 | a permanent level always comes from a permanent row of the device's own identity |
| PermanentScan.FoundSource | fic-dick/src/daemon/DeviceControlDaemon.cpp:660-682 | each violation names the device, the row that holds it permanent, its path and the reason |
| PermanentScan.FullScanExact | fic-dick/src/daemon/DeviceControlDaemon.cpp:635-685 | a full scan reports an identity exactly when a device held permanent by it has no current-boot occurrence |
| PermanentScan.FullScanDistinct | fic-dick/src/daemon/DeviceControlDaemon.cpp:675-681 | no identity is reported twice |
| PermanentScan.EmptyScanExactly | fic-dick/src/daemon/DeviceControlDaemon.cpp:635-685 | a full scan is empty exactly when no device held permanent is missing |
| DeviceStore.DeviceDb.BeginTransaction | fic-common/fic-device-db/src/DB.cpp:1874-1883 | a begun transaction remembers the content; a failed BEGIN changes nothing and is put down as failed, as every failing statement is |
| DeviceStore.DeviceDb.CommitTransaction | fic-common/fic-device-db/src/DB.cpp:1885-1894 | a failed COMMIT leaves the transaction open |
| DeviceStore.DeviceDb.RollbackTransaction | fic-common/fic-device-db/src/DB.cpp:1896-1905 | brings back the content the transaction began with |
| DeviceStore.DeviceDb.UpdateBootId | fic-common/fic-device-db/src/DB.cpp:1664-1702 | changes the boot id of one existing row or nothing |
| DeviceStore.DeviceDb.AddDeviceEvent | fic-common/fic-device-db/src/DB.cpp:1754-1779 | appends one event of an existing device with an admitted type and result, or nothing |
| DeviceStore.DeviceDb.AddDevice | fic-common/fic-device-db/src/DB.cpp:1135-1172 | inserts the row under a new positive id, or returns -1 and changes nothing |
| DeviceStore.DeviceDb.UpdateDevice | fic-common/fic-device-db/src/DB.cpp:1280-1314 | replaces one row, or succeeds without effect on an unknown id |
| DeviceStore.DeviceDb.AddDeviceAttribute | fic-common/fic-device-db/src/DB.cpp:1195-1219 | sets one attribute of one device or changes nothing |
| DeviceSubtrees.CycleReachesTop | fic-dick/src/device/DeviceLifecycle.cpp:9-38 | in a table with one parent per row a cycle below a row passes through that row |
| DeviceSubtrees.SiblingsShare | fic-dick/src/device/DeviceLifecycle.cpp:31-36 | two children of one row share a descendant only on a cycle |
| DeviceSubtrees.ChainIsMaximal | fic-dick/src/device/DeviceLifecycle.cpp:189-199 | the pruned chain is a run of consecutive virtual current parents, each without current children once those before it are gone, and the next row must stay |
| DeviceSubtrees.DisconnectKeepsAnchors | fic-dick/src/device/DeviceLifecycle.cpp:151-210 | disconnect keeps "each current row's parent is current or a static container" |
| DeviceSubtrees.DisconnectKeepsVirtuals | fic-dick/src/device/DeviceLifecycle.cpp:189-199 | disconnect keeps "each current virtual row has a current child" |
| DeviceSubtrees.DisconnectExact | fic-dick/src/device/DeviceLifecycle.cpp:181-199 | the rows changed are the subtree and the maximal chain, disjoint, and only their boot id becomes empty |
| DeviceSubtrees.ClearsExactly | fic-dick/src/device/DeviceLifecycle.cpp:181-199 | read off the table before: a disconnect clears exactly the current rows under the target and those virtual parents that all along hold nothing else |
| DeviceLifecycle.CollectCurrentSubtree | fic-dick/src/device/DeviceLifecycle.cpp:9-38 | the depth-first walk succeeds exactly when the target does not reach itself through current links, and then lists every row of the subtree once |
| DeviceLifecycle.Lifecycle.ClearBootIds | fic-dick/src/device/DeviceLifecycle.cpp:181-187 | clears the boot ids of the listed rows and changes nothing else; fails exactly when one of these statements does |
| DeviceLifecycle.Lifecycle.HasCurrentBootChild | fic-dick/src/device/DeviceLifecycle.cpp:40-46 | whether some child belongs to the current boot |
| DeviceLifecycle.Lifecycle.PruneEmptyVirtualParents | fic-dick/src/device/DeviceLifecycle.cpp:189-199 | clears exactly the pruned chain and ends, even on cyclic parents; fails exactly when one of these statements does |
| DeviceLifecycle.Lifecycle.DisconnectCurrentSubtreeInTransaction | fic-dick/src/device/DeviceLifecycle.cpp:151-210 | missing, already removed, cyclic and removed targets, each with its exact effect and answer, and success whenever no statement fails |
| DeviceLifecycle.Lifecycle.Finish | fic-dick/src/device/DeviceLifecycle.cpp:136-148 | a failed removal or a failed commit restores the content and clears the affected ids |
| DeviceLifecycle.Lifecycle.DisconnectCurrentSubtree | fic-dick/src/device/DeviceLifecycle.cpp:119-149 | succeeds exactly when no statement fails, the target exists and is not on a current cycle; all or nothing, with one event, and each error names the statement that failed, or the missing or cyclic target |
| DeviceLifecycle.RemovalWrites | fic-dick/src/device/DeviceLifecycle.cpp:181-207 | a removal writes one "disconnect" event of the target and empties boot ids, the target's among them; nothing else |
| DeviceLifecycle.Lifecycle.RemoveCurrentOccurrence | fic-dick/src/device/DeviceLifecycle.cpp:79-117 | removal by place, where a vacant place is already removed, with the answers of the removal otherwise |
| DeviceLifecycle.SecondRemovalIsNoOp | fic-dick/src/device/DeviceLifecycle.cpp:164-168 | corollary of the removal contract: removing a removed device again changes nothing and is reported as already removed |
| DeviceLifecycle.PlaceVacatedExactly | fic-dick/src/device/DeviceLifecycle.cpp:79-117 | removal by place leaves the place vacant if and only if every current row at that path and subsystem hangs under the removed one; at a virtual place, or is a parent of it holding nothing else |
| DeviceLifecycle.TwinStays | fic-dick/src/device/DeviceLifecycle.cpp:94-98 | for instance two siblings of different hash at one path: after the first removal the place is still taken |
| DevicePaths.LastSlash | fic-dick/src/collectors/UDEVInfoCollector.cpp:46-52 | the last separator past the first character, or none |
| DevicePaths.ParentOfJoin | fic-dick/src/collectors/UDEVInfoCollector.cpp:46-52 | the parent of a joined path is its first part |
| DevicePaths.ParentOfUnclassified | fic-dick/src/collectors/UDEVInfoCollector.cpp:46-52 | the two root containers are each other's fallback parent |
| DevicePaths.RootedStops | fic-dick/src/collectors/UDEVInfoCollector.cpp:153-172 | with a root container creation of missing ancestors stops within a bound read off the path |
| DevicePaths.CreationStopsExactly | fic-dick/src/collectors/UDEVInfoCollector.cpp:153-172 | creation stops for every missing path if and only if a root container row exists; without one the two roots call for each other forever |
| TreeAttach.WritesKeepAnchors | fic-dick/src/collectors/UDEVInfoCollector.cpp:284-401 | whatever an attach gets written, also before it fails, keeps every current row anchored |
| TreeAttach.WritesKeepPolicy | fic-dick/src/collectors/UDEVInfoCollector.cpp:313-328 | an attach changes no policy: known rows keep theirs, new rows have none |
| TreeAttach.EveryRunKeepsAnchors | fic-dick/src/collectors/UDEVInfoCollector.cpp:153-207 | in every run of attaches and disconnects each current row hangs on a current or static row |
| TreeAttach.ReattachKeepsLinksExactly | fic-dick/src/collectors/UDEVInfoCollector.cpp:289-305 | re-attaching a known row keeps links and paths together exactly when it keeps its path or carries no current child |
| TreeAttach.AttributesStored | fic-dick/src/collectors/UDEVInfoCollector.cpp:269-277 | non-empty reported values are stored, nothing else changes |
| TreeAttach.Collector.FindAncestor | fic-dick/src/collectors/UDEVInfoCollector.cpp:158-163 | the lookup that treats the two fixed containers as rows of no boot |
| TreeAttach.Collector.FindVirtual | fic-dick/src/collectors/UDEVInfoCollector.cpp:175-176 | a virtual row at the path, if there is one |
| TreeAttach.Collector.FindOccurrence | fic-dick/src/collectors/UDEVInfoCollector.cpp:289-291 | a row of the identity under the parent, if there is one |
| TreeAttach.Collector.CreateVirtual | fic-dick/src/collectors/UDEVInfoCollector.cpp:153-207 | creates or revives the virtual row of a missing path after exactly its missing ancestors, one below the other and none current before, and terminates; fails exactly when a statement does |
| TreeAttach.Collector.WriteVirtual | fic-dick/src/collectors/UDEVInfoCollector.cpp:175-206 | the virtual row of the path, the one there is or a new one, under the given parent in this boot; or nothing, when a statement fails |
| TreeAttach.Collector.AddAttributes | fic-dick/src/collectors/UDEVInfoCollector.cpp:269-277 | stores all reported attributes or fails |
| TreeAttach.Collector.WriteDevice | fic-dick/src/collectors/UDEVInfoCollector.cpp:289-399 | updates a known occurrence under the parent if there is one, otherwise a virtual row at the path if there is one, otherwise inserts a new row; fails exactly when a statement does |
| TreeAttach.Collector.StoreDevice | fic-dick/src/collectors/UDEVInfoCollector.cpp:284-401 | the device and its attributes in one transaction, or nothing; fails exactly when a statement does |
| TreeAttach.Collector.CreateDevice | fic-dick/src/collectors/UDEVInfoCollector.cpp:208-401 | succeeds exactly when the boot is known, no statement fails and the parent path is no missing container; then the device hangs at its path under its parent path with its attributes, in the row chosen as above; on failure device and attributes are as before and only created ancestors stay |
| TreeRuns.EveryRunIsAcyclic | fic-dick/src/collectors/UDEVInfoCollector.cpp:153-207 | in every run of attaches of managed devices and of disconnects each current row stays one path step below the row it hangs on, so no current row is on a cycle |
| TreeRuns.BootStartsSound | fic-common/fic-device-db/src/DB.cpp:183-196 | at the start of a boot a table with the fixed containers meets the invariant the runs begin with |
| TreeRuns.WriteKeepsSound | fic-dick/src/collectors/UDEVInfoCollector.cpp:284-328 | each write keeps anchors, path depth and the fixed containers |
| TreeRuns.DisconnectKeepsSound | fic-dick/src/device/DeviceLifecycle.cpp:151-210 | and so does each disconnect |
| TreeRuns.LaidIsManaged | fic-dick/src/collectors/UDEVInfoCollector.cpp:153-207 | what creating a managed path writes below existing containers are such writes |
| TreeRuns.ChainLeavesOneEmpty | fic-dick/src/collectors/UDEVInfoCollector.cpp:153-207 | created ancestors leave exactly the last of them without a current child |
| TreeRuns.AttachKeepsVirtualsExactly | fic-dick/src/collectors/UDEVInfoCollector.cpp:208-401 | a failed attach keeps "each current virtual row has a current child" if and only if it created no ancestor; a successful one if and only if its row was not the last child of a virtual row it leaves |
| TreeRuns.AttachKeepsVirtualsBefore | fic-dick/src/collectors/UDEVInfoCollector.cpp:243-266 | the same read off the table before: a failed attach that got its parent row keeps it if and only if the parent path already had a current row or is a container |
| TreeRuns.KnownDeviceKeepsControl | fic-dick/src/collectors/UDEVInfoCollector.cpp:289-328 | a device with a known occurrence under its parent is attached to such a row and keeps its control; every other row, a virtual one at the path too, stays as it was |
| TreeRuns.LaidAbove | fic-dick/src/collectors/UDEVInfoCollector.cpp:153-207 | the ancestors an attach creates lie above its path and form such a chain |
| TreeRuns.FailedAttachLeavesEmptyVirtual | fic-dick/src/collectors/UDEVInfoCollector.cpp:254-287 | for instance an attach that created an ancestor and then failed |
| TreeRuns.MovedHubLosesLinks | fic-dick/src/collectors/UDEVInfoCollector.cpp:289-305 | for instance a hub reported at another path while its stick is current strands the stick |
| EventQueue.KeyNamesDevice | fic-dick/src/daemon/DeviceControlDaemon.cpp:1549-1551 | for subsystem names without line break the key names one device |
| EventQueue.DeviceEventQueue.Enqueue | fic-dick/src/daemon/DeviceControlDaemon.cpp:1674-1695 | replace the pending change of the device, even in a full queue, refuse when full, or append, with counters, flag and an exact index |
| EventQueue.DeviceEventQueue.Pop | fic-dick/src/daemon/DeviceControlDaemon.cpp:1697-1705 | takes the front event and keeps the index exact |
| EventQueue.DeviceEventQueue.RebuildChangeIndex | fic-dick/src/daemon/DeviceControlDaemon.cpp:1728-1735 | the rebuilt index maps exactly the pending changes to their positions |
| EventQueue.EveryRunIsSound | fic-dick/src/daemon/DeviceControlDaemon.cpp:1672-1742 | in every run: at most 256 pending, one change per key, and calls equal pending, taken, coalesced and overflowed together |
| EventQueue.OthersLeaveInOrder | fic-dick/src/daemon/DeviceControlDaemon.cpp:1690-1705 | events other than changes leave unchanged in the order they were accepted |
| EventQueue.TakenChangeIsLatest | fic-dick/src/daemon/DeviceControlDaemon.cpp:1676-1684 | a change taken out is the latest change accepted for its device |
| EventQueue.CoalescedOrderExactly | fic-dick/src/daemon/DeviceControlDaemon.cpp:1676-1684 | a coalesced change is the last word on its device if and only if nothing about the device waits behind the replaced change |
| EventQueue.ChangeOvertakesRemoval | fic-dick/src/daemon/DeviceControlDaemon.cpp:1676-1684 | for instance a change reported after a removal is delivered before it |
| DaemonLoop.RunReconciliation | fic-dick/src/daemon/DeviceControlDaemon.cpp:1871-1952 | a pass succeeds exactly when every mandatory stage did, including the permanent check |
| DaemonLoop.OwedExactly | fic-dick/src/daemon/DeviceControlDaemon.cpp:2045-2063 | the obligation stands exactly when something was lost and no successful loop pass came after it |
| DaemonLoop.Daemon.constructor | fic-dick/src/daemon/DeviceControlDaemon.cpp:2007-2013 | a failed startup pass is the first obligation |
| DaemonLoop.Daemon.ReceiveDatagram | fic-dick/src/daemon/DeviceControlDaemon.cpp:1744-1797 | oversized and malformed datagrams and overflow raise the obligation, untrusted senders are ignored |
| DaemonLoop.Daemon.ReceiveDatagrams | fic-dick/src/daemon/DeviceControlDaemon.cpp:1744-1797 | every datagram leaves exactly one observation, in order, and the queue holds what these put in it |
| DaemonLoop.Daemon.CheckMarker | fic-dick/src/daemon/DeviceControlDaemon.cpp:2018-2044 | a marker file raises the obligation |
| DaemonLoop.Daemon.TryReconcile | fic-dick/src/daemon/DeviceControlDaemon.cpp:2045-2063 | attempts happen only when owed and due, only a successful one clears, and attempts stay five seconds apart |
| DaemonLoop.Daemon.ProcessQueuedEvent | fic-dick/src/daemon/DeviceControlDaemon.cpp:1799-1811 | the front event is processed and its failure raises the obligation |
| DaemonLoop.Daemon.ProcessEvents | fic-dick/src/daemon/DeviceControlDaemon.cpp:2064-2068 | up to eight events from the front, each accounted for |
| DaemonLoop.Daemon.Turn | fic-dick/src/daemon/DeviceControlDaemon.cpp:2015-2068 | a turn is exactly its datagrams, the marker, one attempt if owed and due, and up to eight events from the front; the flag equals the obligation, and it is cleared only by a pass with all stages successful |
| DaemonLoop.Daemon.RequestedReconciliation | fic-dick/src/daemon/DeviceControlDaemon.cpp:1871-1952 | a pass requested over the socket reports its result and leaves the obligation alone |
| IncidentProtocol.BuildRequest | fic-dick/src/daemon/PermanentDeviceIncident.cpp:18-34 | the id list is cut to 64 entries and the total stays truthful |
| IncidentProtocol.IsValidRequest | fic-dick/src/daemon/PermanentDeviceIncident.cpp:36-91 | the sender's check, field by field |
| IncidentProtocol.ValidateEvent | fic/src/main.cpp:720-759 | the main daemon's check, and the ids it takes |
| IncidentProtocol.RequestAcceptedByBothExactly | fic-dick/src/daemon/PermanentDeviceIncident.cpp:18-34 | both checks accept the request of exactly the non-empty batches of positive 32-bit ids |
| IncidentProtocol.OtherFieldsExactly | fic-dick/src/daemon/PermanentDeviceIncident.cpp:42-49 | an api version added to such a request is admitted by both checks, and no other field is |
| IncidentProtocol.ReplyUnderstoodExactly | fic/src/daemon/DeviceIncidentEvent.cpp:25-77 | every reply the main daemon builds is parsed, valid exactly with a known mode, and acknowledged exactly when ignored or persisted |
| IncidentProtocol.ResolveFailsClosed | fic/src/daemon/DeviceIncidentEvent.cpp:79-143 | the incident is passed over only by a proven switch or a proven NONE; anything unreadable isolates |
| IncidentProtocol.ReactionExactly | fic/src/daemon/DeviceIncidentEvent.cpp:79-143 | each severity is reacted with exactly when the setting is proven, switched on and names it |
| IncidentProtocol.ReplySaysExactly | fic/src/daemon/DeviceIncidentEvent.cpp:25-77 | the reply names reason, mode, requested and effective severity, runtime state, escalation and broken state, each in its own field |
| IncidentProtocol.ValidReplyExactly | fic-dick/src/daemon/PermanentDeviceIncident.cpp:93-180 | a reply of any shape is valid exactly when it names the command, makes its three statements in agreement and a known mode, with no optional field of another type; and what is read from it |
| IncidentProtocol.HandleEvent | fic/src/main.cpp:1150-1236 | untrusted or malformed events are refused; otherwise the reply reads as delivered exactly when the event was stored or passed over, and says the rest field by field |
| PermanentRetry.CallIncident | fic-dick/src/daemon/DeviceControlDaemon.cpp:450-489 | over a lossy link a report counts as delivered exactly when the link held and the main daemon stored or passed over the event |
| PermanentRetry.ObligationExactly | fic-dick/src/daemon/PermanentDeviceRetry.h:51-78 | the flag is up exactly when some proven pass left a violation undelivered and no later proven full pass was empty or delivered |
| PermanentRetry.Monitor.UpdateRetry | fic-dick/src/daemon/PermanentDeviceRetry.h:51-78 | the transition keeps the flag equal to that obligation |
| PermanentRetry.LostReplyIsReportedAgain | fic-dick/src/daemon/PermanentDeviceRetry.h:51-78 | a report whose reply was lost stays owed through an unproven pass and through an empty partial one |
| PermanentRetry.Monitor.RecordAudit | fic-dick/src/daemon/DeviceControlDaemon.cpp:758-771 | the local audit entries have an event type the table does not admit, so the database stays as it is |
| PermanentRetry.Monitor.CheckPermanentDevices | fic-dick/src/daemon/DeviceControlDaemon.cpp:710-786 | one check of the database; after a proven full one the obligation stands exactly when a device held permanent is missing and the report was not settled with the main daemon over an intact link |
| CategoryEpochs.JoinKeysDistinct | fic-common/fic-device-db/src/DB.cpp:1092-1097 | corollary of the join: the attribute capture joins one newest proof per identity, so no two rows share a key |
| CategoryEpochs.CaptureKeysFree | fic-common/fic-device-db/src/DB.cpp:1088-1098 | corollary of the deletions: after the deletions no insertion of the capture meets a taken primary key |
| CategoryEpochs.CapturedExactly | fic-common/fic-device-db/src/DB.cpp:1088-1098 | the capture stores exactly the identities present and the attributes of their newest proofs, and leaves other categories alone |
| CategoryEpochs.CapturedValue | fic-common/fic-device-db/src/DB.cpp:1092-1097 | the value captured under a name is that of the row with the greatest id among those of the identity with a non-empty short serial, WWN or physical serial, and of no other |
| CategoryEpochs.CategoryDb.constructor | fic-common/fic-device-db/src/DB.cpp:79-98 | a new database has every category disabled, at epoch 0, knowing nothing |
| CategoryEpochs.CategoryDb.Capture | fic-common/fic-device-db/src/DB.cpp:1088-1098 | the four statements of one capture |
| CategoryEpochs.CategoryDb.MoveCategory | fic-common/fic-device-db/src/DB.cpp:1083-1103 | one category moves with its epoch and knowledge, the others stay; fails exactly when a statement does |
| CategoryEpochs.CategoryDb.Update | fic-common/fic-device-db/src/DB.cpp:1069-1109 | succeeds exactly when the state could be read and no statement fails; then all three modes move as asked in one transaction with both revisions, otherwise nothing changes |
| CategoryEpochs.EpochHistory | fic-common/fic-device-db/src/DB.cpp:1069-1109 | over every history of updates, inventories and failures: epochs count the entries into "new", so "new" has a positive epoch |
| CategoryEpochs.KnownIsLastEntry | fic-common/fic-device-db/src/DB.cpp:1069-1109 | a category knows exactly the inventory of its last entry into "new", whatever happened since |
| CategoryEpochs.SameModesChangeNothing | fic-common/fic-device-db/src/DB.cpp:1083-1084 | asking for the modes in force changes nothing |
| CategoryLoad.LoadKnown | fic-common/fic-device-db/src/DB.cpp:1052-1066 | the grouping loop, comparing only with the identity added last |
| CategoryLoad.GroupingExact | fic-common/fic-device-db/src/DB.cpp:1056-1063 | over ordered rows each identity comes out once with exactly its attributes |
| CategoryLoad.LoadReturnsTables | fic-common/fic-device-db/src/DB.cpp:1052-1066 | the load returns exactly what the two tables hold |
| CategoryLoad.LoadReturnsCapture | fic-common/fic-device-db/src/DB.cpp:1052-1066 | after a capture the load returns the inventory of that moment |
| CategoryLoad.LoadState | fic-common/fic-device-db/src/DB.cpp:1016-1067 | the load fails exactly on a negative or missing epoch or a "new" without one, and otherwise puts each mode in its own field beside the grouped identities |
| PolicyView.CompileOfView | fic-dick/src/policy/DevicePolicyCompiler.cpp:246-371 | the program depends only on the rows that carry policy, without boot id and parent |
| PolicyView.SamePolicyCompilesAlike | fic-dick/src/policy/DevicePolicyCompiler.cpp:198-396 | two inventories with the same carriers and the same attributes of carriers compile alike |
| PolicyView.InsertingPlainRows | fic-dick/src/policy/DevicePolicyCompiler.cpp:247-250 | new rows without policy leave the compiled rules as they are |
| PolicyView.UnruledCompilesAlike | fic-dick/src/policy/DevicePolicyCompiler.cpp:246-260 | moving a row that carries a path rule neither before nor after leaves the compiled rules as they are |
| PolicyView.ViewOfSort | fic-dick/src/policy/DevicePolicyCompiler.cpp:210-221 | keeping some rows, or dropping what an order does not look at, commutes with sorting |
| IdentityRules.EmittedItems | fic-dick/src/policy/DevicePolicyCompiler.cpp:327-371 | the identity items are, one for one, the rules of the emitted rows |
| IdentityRules.EmittedAt | fic-dick/src/policy/DevicePolicyCompiler.cpp:327-371 | a row is emitted exactly when its own turn adds a rule |
| IdentityRules.DescribedCompilesExactly | fic-dick/src/policy/DevicePolicyCompiler.cpp:327-371 | for every inventory that compiles, every row and every new attributes: the program stays the same if and only if no identity rule is written for the row, its terms are the same, or an earlier row of the same level covers it both ways |
| RuleOrder.SortReplaced | fic-dick/src/policy/DevicePolicyCompiler.cpp:210-221 | a row replaced by one on the same side of every other row keeps its place in the sorted list |
| RuleOrder.BlockKeptExactly | fic-dick/src/policy/DevicePolicyCompiler.cpp:246-260 | a row with another hash and subsystem leaves a block of path rules as it is if and only if it has no rule there or stays on the same side of every other row with one |
| RuleOrder.VirtualHasNoIdentityRule | fic-dick/src/policy/DevicePolicyCompiler.cpp:327-340 | in an inventory that compiles no virtual row carries an identity rule |
| RuleOrder.TakenOverCompilesExactly | fic-dick/src/policy/DevicePolicyCompiler.cpp:198-396 | for every inventory that compiles, every virtual row, hash and subsystem: the program stays the same if and only if each rule of the row keeps its place among the rules of its kind |
| PolicyRevisions.ChangeKeepsConsistent | fic-common/fic-device-db/src/DB.cpp:135-146 | the triggers keep "matching revisions mean current rules" through every change of control, deletion, category or inventory, every move of a row without a path rule, every description that keeps the identity rule and every takeover that keeps the order of rules |
| PolicyRevisions.PolicyDaemon.Activate | fic-dick/src/policy/DevicePolicyCompiler.cpp:403-505 | publish, reload, and restore of what was read before |
| PolicyRevisions.PolicyDaemon.RegenerateDevicePolicy | fic-dick/src/daemon/DeviceControlDaemon.cpp:229-272 | compile, activate, enforce and record, each of which may fail |
| PolicyRevisions.RegenerationExactly | fic-dick/src/daemon/DeviceControlDaemon.cpp:229-272 | everything an attempt can end in: it succeeds exactly when no step fails, leaves no trace before the rules are in place, and the file and the active revision afterwards |
| PolicyRevisions.UnenforcedIsNotActive | fic-dick/src/daemon/DeviceControlDaemon.cpp:258-262 | rules that could not be enforced do not pass for active once that is marked |
| PolicyRevisions.PolicyDaemon.Change | fic-common/fic-device-db/src/DB.cpp:135-146 | a database change with its trigger |
| PolicyRevisions.SuccessEstablishes | fic-dick/src/daemon/DeviceControlDaemon.cpp:229-272 | corollary of the transition: a successful activation publishes the current rules and records the desired revision, from any state |
| PolicyRevisions.RegenerationKeepsExactly | fic-dick/src/policy/DevicePolicyCompiler.cpp:469-503 | corollary of the transition: an attempt keeps the promise if and only if it does not restore something other than the replaced file while the revisions match |
| PolicyRevisions.UnexaminedRulesAreLost | fic-dick/src/policy/DevicePolicyCompiler.cpp:418-425 | corollary, for instance an old file that could not be examined is deleted after a failed reload while the revisions match |
| PolicyRevisions.EveryRunStaysValid | fic-dick/src/daemon/DeviceControlDaemon.cpp:229-272 | along every run ids stay distinct and the active revision never passes the desired one |
| PolicyRevisions.EveryRunIsConsistent | fic-dick/src/daemon/DeviceControlDaemon.cpp:229-272 | from a successful activation on, through every failure and every change a run may contain, matching revisions mean that the published file is the compilation of the current policy |
| MovedCarrier.SingleDecides | fic-dick/src/policy/DevicePolicyCompiler.cpp:305-319 | the program of one blocked placement denies exactly its own path |
| MovedCarrier.MovedRuleChangesProgram | fic-dick/src/policy/DevicePolicyCompiler.cpp:305-319 | programs of one rule at two different paths differ |
| MovedCarrier.ProgramNames | fic-dick/src/policy/DevicePolicyCompiler.cpp:246-319 | the items of a program that name a row are its path rules and no others |
| MovedCarrier.MoveStaleExactly | fic-common/fic-device-db/src/DB.cpp:135-146 | for every policy with current rules, every row and every new path: the published rules stay current if and only if the path is the old one or the row carries a path rule neither before nor after |
| MovedCarrier.MoveLeavesStaleRules | fic-common/fic-device-db/src/DB.cpp:135-146 | for instance one blocked placement, for every pair of paths |
| MovedCarrier.DescribeStaleExactly | fic-common/fic-device-db/src/DB.cpp:111-146 | for every policy with current rules, every row and every set of attributes: the published rules stay current if and only if the row gets the identity rule it had |
| MovedCarrier.NewIdentityLeavesStaleRules | fic-common/fic-device-db/src/DB.cpp:1195-1219 | for instance one device with an identity rule that reports other identity terms |
| MovedCarrier.TakeOverStaleExactly | fic-common/fic-device-db/src/DB.cpp:135-142 | for every policy with current rules, every virtual row and every device that takes it over: the published rules stay current if and only if each rule of the row keeps its place among the rules of its kind |
| MovedCarrier.TakenOverAncestorLeavesStaleRules | fic-dick/src/collectors/UDEVInfoCollector.cpp:307-339 | for instance a virtual row with a children rule taken over by a USB device, next to a PCI device with one at the same depth |
| MovedCarrier.ChangeConsistentExactly | fic-common/fic-device-db/src/DB.cpp:135-146 | for every change of one row or of the categories: the promise survives if and only if the revisions did not match or a run may contain the change, so the changes runs leave out are exactly those that break it |
| AttachRevisions.WriteIsChange | fic-dick/src/collectors/UDEVInfoCollector.cpp:284-399 | every row write of an attach is one of the changes of a run: an observation, or a move or a takeover followed by one |
| AttachRevisions.ControlIsCommit | fic-common/fic-device-db/src/DB.cpp:135-142 | writing the control columns of a stored row raises the desired revision exactly when it changes the row |
| AttachRevisions.DeletionIsCounted | fic-common/fic-device-db/src/DB.cpp:143-146 | deleting a row raises it |
| AttachRevisions.ReportIsChange | fic-dick/src/collectors/UDEVInfoCollector.cpp:269-277 | storing the reported attributes of a row is nothing or a description of it |
| AttachRevisions.WriteStaleExactly | fic-dick/src/collectors/UDEVInfoCollector.cpp:284-399 | for every policy with current rules, every table and every row write of an attach, read off the table before: the rules stay current if and only if a row found again keeps its path or shows in no path rule, and the rules of a row taken over keep their place |
| AttachRevisions.DisconnectKeepsRules | fic-dick/src/device/DeviceLifecycle.cpp:151-210 | a disconnect never makes the published rules stale |
| AttachRevisions.EveryTreeRunKeepsRules | fic-dick/src/collectors/UDEVInfoCollector.cpp:153-401 | in every run of attaches and disconnects whose writes keep the rules, matching revisions mean current rules |
| IpcWire.WordRoundTrip | fic-common/fic-ipc/src/FicIpcWire.h:18-23 | a header word is read back modulo 2^32 |
| IpcWire.ParseHeader | fic-common/fic-ipc/src/FicIpcWire.h:30-55 | an accepted frame has the length its header declares |
| IpcWire.FrameRoundTrip | fic-common/fic-ipc/src/FicIpcWire.h:15-55 | reading a frame gives back total, offset, chunk and payload |
| IpcWire.HeaderIsInverse | fic-common/fic-ipc/src/FicIpcWire.h:30-55 | a header is read only off the bytes that would be written for it |
| IpcWire.Accept | fic-common/fic-ipc/src/FicIpcClient.cpp:175-189 | an accepted frame makes progress within the declared total, and the remaining length is never negative |
| IpcWire.AcceptExactly | fic-common/fic-ipc/src/FicIpcClient.cpp:175-189 | a frame is accepted exactly when it continues the same response: bounded total as before, the next offset, a chunk that is neither empty, too long nor past the end |
| IpcWire.Reassemble | fic-common/fic-ipc/src/FicIpcClient.cpp:146-191 | an accepted response has the declared total, between 1 byte and 1 MiB |
| IpcWire.TakeFrame | fic-common/fic-ipc/src/FicIpcClient.cpp:172-189 | the checks on one frame, in their order |
| IpcWire.ReceiveResponse | fic-common/fic-ipc/src/FicIpcClient.cpp:139-192 | the receive loop over retries, failures and frames |
| IpcWire.SentIsPrefix | fic-common/fic-ipc/src/FicIpcTransport.cpp:229-250 | however sends are retried or fail, what leaves is a beginning of the response's frames |
| IpcWire.ReassemblyExact | fic-common/fic-ipc/src/FicIpcClient.cpp:139-192 | for every response and every pattern of retries and failures on both sides the client gets exactly the response when all frames got through, and an error otherwise |
| IpcWire.DeclaredLength | fic-common/fic-ipc/src/FicIpcClient.cpp:179-191 | whatever frames arrive, an accepted result has the length an accepted frame declared |
| IpcWire.Bounded | fic-common/fic-ipc/src/FicIpcTransport.cpp:52-57 | an empty or oversized answer is replaced by an error text of admissible size |
| IpcTransport.Touch | fic-common/fic-ipc/src/FicIpcTransport.cpp:106-130 | what one poll does to one connection: identity kept, served stays served, a ready request changes only on a socket error |
| IpcTransport.PollKeeps | fic-common/fic-ipc/src/FicIpcTransport.cpp:70-156 | every poll keeps at most 32 open connections in order of acceptance, each with a sendable rest |
| IpcTransport.ExpiryKeepsReady | fic-common/fic-ipc/src/FicIpcTransport.cpp:252-263 | a ready request does not expire |
| IpcTransport.PollAdvances | fic-common/fic-ipc/src/FicIpcTransport.cpp:137-152 | a dispatching poll brings a ready connection an error, its turn, or one fewer unserved connection ahead of it |
| IpcTransport.OtherPollKeeps | fic-common/fic-ipc/src/FicIpcTransport.cpp:88-104 | a poll that does not dispatch leaves it ready with no more ahead |
| IpcTransport.BoundedOvertaking | fic-common/fic-ipc/src/FicIpcTransport.cpp:70-156 | a ready request is answered, or its socket fails, within 32 dispatching polls |
| IpcTransport.SeenStaysOnce | fic-common/fic-ipc/src/FicIpcTransport.cpp:137-152 | the handler sees each connection at most once |
| IpcTransport.Transport.EraseClosed | fic-common/fic-ipc/src/FicIpcTransport.cpp:132-135 | closed connections leave, the others keep their order |
| IpcTransport.Transport.ExpireConnections | fic-common/fic-ipc/src/FicIpcTransport.cpp:252-263 | connections past their deadline leave unless their request is ready |
| IpcTransport.Transport.AcceptClients | fic-common/fic-ipc/src/FicIpcTransport.cpp:163-193 | clients are taken in order while there is room |
| IpcTransport.Transport.HandleEvents | fic-common/fic-ipc/src/FicIpcTransport.cpp:106-130 | the connections that were polled meet their events, new ones do not; the frames sent are put down with their connection |
| IpcTransport.Transport.WriteChunk | fic-common/fic-ipc/src/FicIpcTransport.cpp:229-250 | one frame of the response at its offset leaves and is put down, or the connection stays as it is, or it is closed |
| IpcTransport.Transport.HandleConnection | fic-common/fic-ipc/src/FicIpcTransport.cpp:116-129 | one connection meets its events: an error, a request, a frame, a hangup |
| IpcTransport.Transport.FindReady | fic-common/fic-ipc/src/FicIpcTransport.cpp:137-140 | the first ready connection |
| IpcTransport.Transport.PollOnce | fic-common/fic-ipc/src/FicIpcTransport.cpp:70-156 | one whole poll with the invariants above; what it queues and sends, and for whom, is what ConnectionLives states |
| ConnectionLives.PollIsLife | fic-common/fic-ipc/src/FicIpcTransport.cpp:70-156 | the poll taken apart: what becomes of each connection and what is sent for it depends only on its own events and on whether it has the turn, which goes to one with a request |
| ConnectionLives.ExpiryExactly | fic-common/fic-ipc/src/FicIpcTransport.cpp:252-263 | a connection stays exactly unless its deadline has come and its request is not waiting for the handler |
| ConnectionLives.WhoIsClosed | fic-common/fic-ipc/src/FicIpcTransport.cpp:106-130 | every way a connection ends while events are handled, and no other |
| ConnectionLives.TakenExactly | fic-common/fic-ipc/src/FicIpcTransport.cpp:163-193 | as many clients are taken as there is room for, in order, each with a new serial and two seconds to send |
| ConnectionLives.HandledWasThere | fic-common/fic-ipc/src/FicIpcTransport.cpp:137-141 | whoever gets the turn was connected before the poll |
| ConnectionLives.TurnQueuesAnswer | fic-common/fic-ipc/src/FicIpcTransport.cpp:137-152 | after a poll that gave a connection its turn in time: it is in the list with the handler's answer to its own request, from the start, or the error text where the answer is empty or too long; every other response being written is the one it was |
| ConnectionLives.WritingRun | fic-common/fic-ipc/src/FicIpcTransport.cpp:229-250 | over every run the frames that leave for a response being written are a beginning of its own, whatever its socket does |
| ConnectionLives.UnservedRun | fic-common/fic-ipc/src/FicIpcTransport.cpp:70-156 | over every run a connection without a response sends nothing, or the frames of one response it was given, from the start |
| ConnectionLives.ToldWhenReady | fic-common/fic-ipc/src/FicIpcTransport.cpp:137-152 | a response given to a connection with a request is the handler's answer to that request at one of its turns |
| ConnectionLives.ToldWhenWaiting | fic-common/fic-ipc/src/FicIpcTransport.cpp:195-220 | a response given to a waiting connection answers the request that came for it, or says that it was too long |
| ConnectionLives.ClientGetsItsAnswer | fic-common/fic-ipc/src/FicIpcClient.cpp:139-192 | end to end over every run and every loss: the client gets the handler's answer to its request, in full, or an error |
| ConnectionLives.NewClientGetsItsAnswer | fic-common/fic-ipc/src/FicIpcClient.cpp:139-192 | the same from the moment the client is connected |
| Readiness.ValidBootId | fic-common/fic-ipc/src/FicReadinessStatus.cpp:62-69 | the loop accepts exactly lower-case 8-4-4-4-12 hexadecimal ids |
| Readiness.HandoffMeansLogin | fic-common/fic-ipc/src/FicReadinessStatus.cpp:94-98 | handoff is allowed exactly for a successful startup of this boot that ordinary login may follow |
| Readiness.ValidStatusFailsClosed | fic-common/fic-ipc/src/FicReadinessStatus.cpp:10-37 | without a proven mode, or in active mode without a proven mild state, no valid status allows login |
| Readiness.HandoffExactly | fic-common/fic-ipc/src/FicReadinessStatus.cpp:94-98 | the same for every status, consistent or not, with every condition by name |
| Readiness.ParsePreLogin | fic-common/fic-ipc/src/FicReadinessStatus.cpp:70-93 | an accepted status is valid, in range and consistent |
| Readiness.AccessRoundTrip | fic-common/fic-ipc/src/FicReadinessStatus.cpp:38-61 | what the gate serializes is parsed back, and refused exactly when inconsistent |
| Readiness.PreLoginRoundTrip | fic-common/fic-ipc/src/FicReadinessStatus.cpp:44-93 | the same for the pre-login status, whose diagnostic is cut to 4096 characters |
| Readiness.ParseIsInverse | fic-common/fic-ipc/src/FicReadinessStatus.cpp:70-93 | whatever object is accepted says, field by field, what the status read from it would write, except for the free text |
| Readiness.ParseAccessIsInverse | fic-common/fic-ipc/src/FicReadinessStatus.cpp:56-61 | the same for the gate's own status |
| Readiness.AcceptedExactly | fic-common/fic-ipc/src/FicReadinessStatus.cpp:10-88 | what a status has to be: known words, unproven mode as active, unproven state as isolation, login as these demand, a live daemon of a well-formed boot, phases in their order |
| PreLogin.Controller.constructor | fic-prelogin/src/PreLoginController.cpp:18-21 | a new controller has done nothing and would exit with failure |
| PreLogin.Controller.Request | fic-prelogin/src/PreLoginController.cpp:58-69 | the first request is the only one; exit code 0 means proven cleanup and, for power actions, success; the state shown follows the action |
| PreLogin.Controller.Track | fic-prelogin/src/PreLoginController.cpp:49-53 | the countdown runs from the first poll of the current stretch of eligible polls of one daemon |
| PreLogin.Controller.Poll | fic-prelogin/src/PreLoginController.cpp:22-57 | a poll hands off exactly when the polls so far justify it; otherwise the countdown shows five minus the whole seconds since the stretch began, or nothing |
| PreLogin.ShownExactly | fic-prelogin/src/PreLoginController.cpp:29-43 | which state is shown, each exactly when: the daemon's own word for this boot, systemd's otherwise |
| PreLogin.EligibleShowsSuccess | fic-prelogin/src/PreLoginController.cpp:37-39 | the countdown runs only while success is shown |
| PreLogin.JustifiedExactly | fic-prelogin/src/PreLoginController.cpp:45-56 | with a monotone clock five seconds since the start of the stretch is exactly five seconds of nothing but eligible polls of one daemon and boot |

## Left out

- Textual rendering of rules: the compiler emits a syntax tree, not the text of the rules file; escaping is modelled, the layout of lines is not.
- UdevEscape.EscapeSelfDelimiting: the scanner of a quoted value reads a backslash and the character after it as a pair; that udev's own parser does so too is an assumption, which matters for a value that ends in a backslash.
- Fnmatch: a '[' in a pattern is read as an ordinary character; values with brackets are refused before a rule is written for them.
- Reads of the database that fail silently: apart from the checked inventory read, a failing SELECT is not modelled where the code treats it as an empty result.
- DeviceStore.DeviceDb.RollbackTransaction: a failing ROLLBACK statement is taken as effective, because closing the connection discards an open transaction.
- Concurrent writers: no other connection changes policy between the compilation of rules and the recording of their revision.
- PolicyRevisions.EveryRunIsConsistent: a run holds no move of a row with a path rule, no report of attributes that changes an identity rule and no takeover of a virtual row that changes the order of path rules, because no trigger raises the desired revision then and the promise breaks, as MovedCarrier.ChangeConsistentExactly states exactly.
- Snapshot query: the recursive query behind the tree snapshot is taken as its result, the rows in id order.
- PermanentScan.FullScanExact: identities are told apart by a key that joins hash and subsystem with a line break, so subsystem names are taken as single lines, which kernel names are; hashes may hold line breaks.
- CompilerCorrectness.PlainDecision: the decision by stored paths and identities is promised where no rule value holds a bar or a control byte, because the rule written for any other value selects something else, as UdevPattern.EscapedPatternExact states exactly; CompilerCorrectness.CompiledDecision covers all values.
- CompileAnswers.IdentityDecides: which events an identity decides is stated on values without bar or control byte, for the same reason; IdentityMeaning.IdentityRuleByName covers all values, rule by rule.
- CategoryMeaning.UpdateCounts: two reads of unchanged tables are taken to return the same rows.
- IpcTransport.Transport.PollOnce: in each poll the handler is a function of descriptor and request; an exception counts as the error response made from it, and the error texts of the server are one input.
- SnapshotPolicy.BuildIndexes: hashes are NUL-free, as text read from the database is.
- PreLogin.Controller.Poll: the clock does not run backwards, as a steady clock promises.
- Category modes as text: modes are a datatype, so the refusal of unknown mode words is not modelled.
- Device hashes: how a collector derives a hash, and which attributes it collects, is an input.
- Restart of a daemon: the obligations are in memory only; the startup pass is modelled, a crash in the middle of a turn is not.
- Incident controller: one raise is known only by whether it was ignored by mode and whether its persistence was confirmed.
- Replies of a foreign main daemon whose optional fields have other types: the parser's exception is modelled, what its callers do then is not.
- Enforcement on sysfs, the audit log, the command line, the graphical programs, SSH, PAM and firewall modules: foreign calls and user interface.
- Counters, retry back-off, session resolution and id parsing: they would only add easy members.
