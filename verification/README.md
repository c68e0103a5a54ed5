# Control-plane proofs

A Dafny model of what the gateway's control plane decides from state and arithmetic alone, and proofs of what
it promises. Each module follows one component:

- `Documents`, `DocumentPaths`, `DocumentReplay`: configuration documents: the audit diff, migration and deep update,
  what the diff's rows show, and when they determine the new document.
- `ConfigMachine`, `ConfigPending`, `ConfigCalls`, `ConfigStore.dfy`: the transactional store. `ConfigMachine` is the
  protocol as a state machine over the running document, the candidate, the file on disk, the pending commit, the
  revision log and what each applier's subsystem last matched; `ConfigStores.ConfigStore` is the object itself, each
  method proved to be a step of it. Validators, preflights, appliers and health checks are the environment: any
  verdict, any result.
- `MacAddresses`, `InterfaceNames`, `BssSlots`, `BssPlan`: address derivation, netdev names, the persistent slot
  allocator, and the planner that ties them together; `BssOrdinals`, `BssPlacing`, `BssPlanProofs`, `BssClashes`,
  `BssStability`, `BssLive` and `BssMlds` hold what is proved of single plans, of all plans for given radios, and of
  runs of plans.
- `Channels`, `Interference`, `ChannelSelection`, `ChannelScores`, `ChannelRuns`: channel blocks and centres,
  interference accumulation, scoring, and switching over time. Scores are reals and rounding is any monotone function.
- `FanControl`: the hysteresis controller under any sequence of modes and readings.
- `Networks`, `AddressBits`, `WanPorts`, `WanAcceptance`: the validators that establish facts about a whole document,
  and the client database's subnet lookup that relies on them.
- `Firmware`: image inspection, and writing with read-back, on devices where writes may land anywhere.
- `Ledgers`, `Traffic`, `TrafficRuns`, `TrafficSummary`: traffic accounting, over events, runs and summaries.
- `Octets`, `InformCodec`: controller packets (padding as in section 6.3 of RFC 5652).
- `Wrappers`, `Texts`, `Division`: result shapes, code-point order of texts, replacement, quotients.

Code that changes things in place is modelled as classes, arrays and loops proved against functions; what the
component promises is proved about those functions and their runs. `dafny verify dfyconfig.toml` checks it all.

Some properties one would expect are false of the code. For each the condition under which the code does meet it is
proved, and an input that shows it fails is exhibited:

- A preflight or health verdict that refuses without a message is not seen (`InstalledIff`,
  `SilentRefusalIsInstalled`). No preflight and no health check of this repository refuses without one.
- A forced commit can change `running` without a revision (`InstalledIsRecordedIff`,
  `ForcedCommitCanChangeUnrecorded`).
- The rollback timer releases the lock between taking the pending commit out and restoring. What a commit in that gap
  made run is overwritten unless it is the very document being restored: while it is still reported pending, or after
  it was reported installed for good (`SplitTimeoutExact`, `SplitTimeoutBreaksPending`,
  `SplitTimeoutOverwritesSettledCommit`).
- An SSID can be refused while slots are free, once a limit was lowered under the slot it holds. Over all
  configurations that is impossible exactly when no radio that can host has a slot recorded at or above its limit
  (`RefusalsMeanFullIff`, `RefusedOverRunsMeansFull`, `TooHighIsRefusedThoughFree`,
  `HeldSlotRefusedThoughOthersFree`).
- A plan can overwrite a BSS. Over all configurations and slot maps that is impossible exactly when no two usable
  (radio, slot) places share a netdev name, as on discovered radios of at most sixteen BSSes
  (`NothingIsOverwrittenIff`, `DiscoveredRadiosApart`, `SlotTwentyIsOverwritten`; `FirstAndLaterRadioCollideIff` for
  the names).
- Two BSSes of a plan can share a BSSID, on radios whose MACs differ in the last octet or have many slots. Over all
  configurations and slot maps that is impossible exactly when no two usable places derive one
  (`BssidsAreDistinctIff`, `NeighbouringRadiosShareABssid`).
- The planner's own comment promises that MLDs declared by hand take precedence. Yet an SSID without one derives one
  under the id `mlo-` and its own, and overwrites what stands there (`ByHandIsHonouredIff`, `ByHandIsOverwritten`).
- A manual 28 percent writes raw duty 71, and a curve at level 1, also 28 percent, then leaves it there
  (`RawDutyMatchesLevelIff`, `ManualTwentyEightLatches`). A missing reading can make the fan hunt
  (`GapMovesTheFanIff`, `MissingReadingsHunt`).
- A channel switch is forgotten across a restart once 200 later ones have been recorded (`RestartRemembersIff`,
  `TwoHundredLaterSwitchesForget`).
- DHCP settings of a network without a subnet are not checked (`DhcpIsUncheckedIff`, `PoolsAreInsideIff`,
  `DhcpWithoutSubnetIsAccepted`).
- An image whose directory lacks the `sysupgrade-` prefix inspects clean and cannot be written
  (`CleanIsWritableIff`, `BareDirectoryIsCleanButUnwritable`).
- A traffic poll that stops at its limit leaves the line loop early; Python refuses to tell the position of a text
  file inside an unfinished line loop, so the offset stays and the next poll counts the same flows again
  (`SecondPollIsQuietIff`, `LimitedPollRepeats`).
- A GCM nonce of another length than sixteen gives packets the decoder misreads (`GcmRoundTripsIff`,
  `OtherNonceIsMisread`).
- Two rows of an audit diff can read alike. Exactly when they do not is said of the documents
  (`RowsShowDifferentPathsIff`); the input is `DottedKeyLooksNested`. Ids under `wifi.radios` are not checked for dots
  (gateway/sbegw/schema.py:951).
- An audit diff cannot always be replayed, since a removed key and one set to null give the same row
  (`RowsDetermineIff`, `RemovedAndNullLookAlike`).
- A 240 MHz block in 6 GHz does not always hold the channel's 160 MHz block (`Block160NestsIff`,
  `Block160OfChannel33SticksOut`). The block arithmetic answers for any width; a radio configured to 240 MHz is
  refused off 5 GHz (gateway/sbegw/schema.py:962-966).

## Model

| member | source | states |
|---|---|---|
| `Documents.DiffEmptyIffEqual` | gateway/sbegw/configd.py:62-79 | for all nested documents, the audit diff is empty exactly when the two are equal |
| `Documents.DiffPrefixFree` | gateway/sbegw/configd.py:62-79 | no reported key path is a prefix of another, and all lie under the path asked about |
| `DocumentPaths.RenderedAlikeIff` | gateway/sbegw/configd.py:66 | exactly when two key paths, with any keys, show as one dotted text: when their keys, split at dots, give the same parts after leading empty keys |
| `DocumentPaths.RenderedInjective` | gateway/sbegw/configd.py:66 | so joined with dots, paths without empty keys and dots in keys stay different from each other |
| `DocumentPaths.RowsAreAtRowPlaces` | gateway/sbegw/configd.py:62-79 | the diff has a row for a path exactly when the documents differ there, both leading to it through dictionaries and not both having one there |
| `DocumentPaths.RowsShowDifferentPathsIff` | gateway/sbegw/configd.py:62-79 | all rows show different dotted texts if and only if no two such places of the documents have the same parts |
| `DocumentPaths.RowsShowDifferentPaths` | gateway/sbegw/configd.py:62-79 | so on documents without empty keys and dots in keys, no two rows show the same text |
| `DocumentPaths.DottedKeyLooksNested` | gateway/sbegw/configd.py:66 | two documents whose diff has two rows that both read a.b |
| `Documents.DiffSound` | gateway/sbegw/configd.py:62-79 | every row carries what the two documents really hold at its path, and they differ there |
| `Documents.DiffComplete` | gateway/sbegw/configd.py:62-79 | wherever the documents differ, some row lies on the way to that place or at it |
| `DocumentReplay.RowsDetermineIff` | gateway/sbegw/configd.py:62-79 | the rows and the old document determine the new one if and only if no key with a value other than null was removed or set to null |
| `DocumentReplay.RemovedAndNullLookAlike` | gateway/sbegw/configd.py:62-79 | removing the only key of a document and setting it to null give the same rows |
| `Documents.MergeInto` | gateway/sbegw/configd.py:148-160 | the in-place key-by-key merge leaves what the recursion `Merge` says |
| `Documents.DeepUpdateInto` | gateway/sbegw/api.py:1350-1355 | the in-place deep update leaves what the recursion `DeepUpdate` says |
| `Documents.MergeIsDeepUpdate` | gateway/sbegw/configd.py:148-160 | filling defaults into a user document is patching the defaults with that document: two independent recursions agree |
| `Documents.MergeKeepsUserValues` | gateway/sbegw/configd.py:148-160 | no user leaf is lost or changed by the merge, at any depth |
| `Documents.MergeFillsDefaults` | gateway/sbegw/configd.py:148-160 | the merge has a value wherever the defaults do and no user leaf stands in front |
| `Documents.MergeIdempotent` | gateway/sbegw/configd.py:148-160 | merging the defaults a second time changes nothing |
| `Documents.MigrateKeepsUserLeaves` | gateway/sbegw/configd.py:148-164 | migration keeps every user leaf but the version stamp, which it brings up to date |
| `Documents.MigrateTwiceDiffsEmpty` | gateway/sbegw/configd.py:148-164 | migrating a migrated document reports no change at all |
| `ConfigMachine.ApplyFromResult` | gateway/sbegw/configd.py:284-297 | the applier loop gets to the end exactly when all succeed, and then all match the new document; otherwise it stops at a failing one |
| `ConfigMachine.ApplyFromCalls` | gateway/sbegw/configd.py:284-297 | the calls made are the appliers in order, up to and including the one that failed |
| `ConfigMachine.InstallResult` | gateway/sbegw/configd.py:272-362 | the exact condition and resulting state of each way a commit that passed its gates can end |
| `ConfigMachine.StepKeepsSync` | gateway/sbegw/configd.py:199-417 | no step separates the system, the file on disk and `running`, however it ends |
| `ConfigMachine.CommitEstablishesSync` | gateway/sbegw/configd.py:215-362 | the first commit that reaches the appliers establishes that match, whatever held before |
| `ConfigMachine.RunKeepsSync` | gateway/sbegw/configd.py:199-417 | the same at every step boundary of every run of stage, discard, commit, confirm, timeout and revision rollback |
| `ConfigMachine.EarlyRefusalTouchesNothing` | gateway/sbegw/configd.py:233-270 | refusals by the lock, the validator or a preflight call no applier and leave the whole state as it was; when the lock refuses and when there is nothing to commit, exactly |
| `ConfigMachine.ProblemsNeedMessages` | gateway/sbegw/configd.py:255-266 | a refusing verdict counts only if it brings a message |
| `ConfigMachine.InstalledIff` | gateway/sbegw/configd.py:215-362 | the exact condition under which a commit is installed, over all verdicts and applier results |
| `ConfigMachine.SilentRefusalIsInstalled` | gateway/sbegw/configd.py:255-327 | a preflight or a health check that refuses without a message stops nothing |
| `ConfigMachine.DifferenceDrivenAppliersDoNotRecover` | gateway/sbegw/configd.py:392-403 | the last calls carry the old document twice, so appliers that only act on a difference recover exactly when the first one failed and left its subsystem as it was |
| `ConfigPending.PendingFrozen` | gateway/sbegw/configd.py:233-236 | while a commit waits, over any steps that do not settle it, only the candidate may move |
| `ConfigPending.PendingRecordsPrevious` | gateway/sbegw/configd.py:330-347 | a waiting commit runs what it installed and records the document that ran before, its revision and its deadline |
| `ConfigPending.ExpiryRestoresConfirmKeeps` | gateway/sbegw/configd.py:364-403 | from any point of such a wait, expiry restores exactly the previous document everywhere, confirmation keeps exactly the new one |
| `ConfigPending.SettledAtMostOncePerCommit` | gateway/sbegw/configd.py:364-390 | over every run a transaction is confirmed or expired to any effect at most as often as it was committed |
| `ConfigPending.StaleTimersDoNothing` | gateway/sbegw/configd.py:364-390 | once settled, late timers and confirmations leave the state alone, after any further run |
| `ConfigPending.RunKeepsLogOk` | gateway/sbegw/configd.py:439-450 | over every run revision ids increase strictly and at most sixty are kept |
| `ConfigPending.InstalledIsRecordedIff` | gateway/sbegw/configd.py:272-335 | an installed commit is in the log as a checkpoint of its previous and a commit of its new document exactly when the candidate differed before validation |
| `ConfigPending.PendingPairStaysNewest` | gateway/sbegw/configd.py:272-346 | that pair stays the newest two revisions for as long as the commit is pending |
| `ConfigPending.ForcedCommitCanChangeUnrecorded` | gateway/sbegw/configd.py:238-281 | a forced commit that the validator completes changes `running` and leaves no revision |
| `ConfigPending.RunningIsLastRan` | gateway/sbegw/configd.py:215-403 | what runs after any steps is what their outcomes last made run, and a commit they leave pending is among them |
| `ConfigPending.SplitTimeoutExact` | gateway/sbegw/configd.py:378-390 | over every gap between the two lock regions: what it last made run survives the second exactly when it made nothing run or last made run the document being restored; log and pending commit stay either way, and with no gap the two are one timeout |
| `ConfigPending.SplitTimeoutBreaksPending` | gateway/sbegw/configd.py:378-390 | a trace for any three documents in which the unconfirmed one ends up running |
| `ConfigPending.SplitTimeoutOverwritesSettledCommit` | gateway/sbegw/configd.py:378-390 | one in which a commit reported installed for good is overwritten, nothing being pending and the log still naming it |
| `ConfigCalls.CommitTells` | gateway/sbegw/configd.py:284-315 | a commit that gets to the appliers leaves each of them last told the document that runs then, installed or rolled back; any other leaves everything as it was |
| `ConfigCalls.ExpiryCalls` | gateway/sbegw/configd.py:392-403 | a timeout calls every applier exactly once, in order, from the unconfirmed document to the recorded one |
| `ConfigCalls.RunKeepsTold` | gateway/sbegw/configd.py:199-417 | over every run, at every step boundary: once any applier was called, the last call to each asks for the document that runs, whatever the calls achieve |
| `ConfigCalls.TimeoutCallsBack` | gateway/sbegw/configd.py:378-403 | through any steps that do not settle a waiting commit, its timeout calls every applier from the document installed back to the one that ran before |
| `ConfigCalls.WaitsIff` | gateway/sbegw/configd.py:336-346 | an installed commit waits exactly when there is time to and the caller asks for it, or leaves it open and some applier asks |
| `ConfigCalls.RevertStagesTheRevision` | gateway/sbegw/configd.py:405-417 | going back to a logged id commits that revision's document, migrated; any other id is refused and changes nothing |
| `ConfigStores.ConfigStore.constructor` | gateway/sbegw/configd.py:85-164 | a fresh store runs the migrated file or the defaults, with nothing left to migrate |
| `ConfigStores.ConfigStore.Stage` | gateway/sbegw/configd.py:199-207 | a trial that validates replaces the candidate, one that does not changes nothing: a step of the machine |
| `ConfigStores.ConfigStore.DiscardCandidate` | gateway/sbegw/configd.py:191-197 | the candidate is `running` again: a step of the machine |
| `ConfigStores.ConfigStore.SaveNewRevision` | gateway/sbegw/configd.py:439-450 | appends a revision under the next id and drops all but the newest sixty |
| `ConfigStores.ConfigStore.Rollback` | gateway/sbegw/configd.py:392-403 | calls every applier in turn and makes the restored document running, candidate and file |
| `ConfigStores.ConfigStore.Commit` | gateway/sbegw/configd.py:215-270 | the whole commit, its gates included, ends in the state and outcome of the machine |
| `ConfigStores.ConfigStore.InstallCandidate` | gateway/sbegw/configd.py:272-362 | checkpoint, appliers, health checks and commit or rollback, as the machine says |
| `ConfigStores.ConfigStore.ApplyAll` | gateway/sbegw/configd.py:284-297 | the applier loop in place: same calls, same stop, same leftovers as the machine |
| `ConfigStores.ConfigStore.Confirm` | gateway/sbegw/configd.py:364-376 | succeeds exactly for the pending transaction, and clears it and its timer |
| `ConfigStores.ConfigStore.RollbackTimeout` | gateway/sbegw/configd.py:378-390 | a timer step of the machine: acts only on its own transaction |
| `ConfigStores.ConfigStore.RollbackToRevision` | gateway/sbegw/configd.py:405-417 | migrates the stored revision and commits it, or refuses an unknown one |
| `MacAddresses.DeriveMac` | gateway/sbegw/util.py:157-167 | the octet-by-octet derivation is base with the local bit, and the last octet shifted modulo 256 |
| `MacAddresses.DerivedCollideIff` | gateway/sbegw/util.py:157-167 | exactly when two derived addresses coincide |
| `MacAddresses.BssidsCollideIff` | gateway/sbegw/wifid.py:302-317 | exactly when two radios, of any MACs, get one BSSID: the congruence modulo 256 |
| `MacAddresses.SameMacBssidsDistinct` | gateway/sbegw/wifid.py:297-317 | on one MAC, ordinals and slots below sixteen give pairwise different BSSIDs |
| `MacAddresses.NeighbouringMacsCollide` | gateway/sbegw/wifid.py:302-317 | for every MAC with room above it, a radio three addresses up collides with slot three |
| `MacAddresses.BssidIsNotMldMac` | gateway/sbegw/wifid.py:302-326 | no BSSID is an MLD address of the same MAC, whatever the slot, ordinal and index |
| `MacAddresses.DerivedAreLocal` | gateway/sbegw/wifid.py:302-326 | derived addresses are locally administered and group addresses only if the radio's own is one |
| `MacAddresses.MldMacsCollideIff` | gateway/sbegw/wifid.py:320-326 | MLD addresses of one MAC coincide exactly when their indices agree modulo 256 |
| `MacAddresses.BssidIsOwnMacIff` | gateway/sbegw/wifid.py:302-317 | a BSSID is the MAC itself exactly when that is locally administered already and the index wraps to zero |
| `InterfaceNames.DecimalInjective` | gateway/sbegw/wifid.py:292-295 | decimal numerals tell numbers apart |
| `InterfaceNames.SameRadioNamesInjective` | gateway/sbegw/wifid.py:292-295 | on one radio, of any id, two slots never share a netdev name |
| `InterfaceNames.NamesInjective` | gateway/sbegw/wifid.py:292-295 | among radio-B and radio-B-k, slots below sixteen, no two (radio, slot) pairs share a name |
| `InterfaceNames.HighSlotsCollide` | gateway/sbegw/wifid.py:292-295 | radio-5g slot 20 and radio-5g-2 slot 0 do share one |
| `InterfaceNames.FirstAndLaterRadioCollideIff` | gateway/sbegw/wifid.py:292-295 | exactly when the names of a band's first and k-th radio coincide |
| `BssSlots.LowestFree` | gateway/sbegw/wifid.py:263-269 | the slot found is free and none below it is; none is found only when all are used |
| `BssSlots.GrantResult` | gateway/sbegw/wifid.py:257-269 | asking for a slot keeps slots injective, moves nobody and answers what is then recorded |
| `BssSlots.NewNetworkRefusedIff` | gateway/sbegw/wifid.py:257-269 | a new SSID is refused exactly when every slot below the limit is taken |
| `BssSlots.FewerEntriesThanLimitSucceeds` | gateway/sbegw/wifid.py:257-269 | pigeonhole: with fewer entries than the limit a new SSID always gets a slot |
| `BssSlots.HeldSlotRefusedThoughOthersFree` | gateway/sbegw/wifid.py:260-262 | an SSID holding slot five of a radio cut down to four is refused while all four are free |
| `BssSlots.PruneResult` | gateway/sbegw/wifid.py:271-285 | pruning keeps exactly the live assignments, each as it was |
| `BssSlots.PruneRow` | gateway/sbegw/wifid.py:280-283 | the inner loop keeps exactly the live entries of a radio |
| `BssSlots.SlotAllocator.Slot` | gateway/sbegw/wifid.py:257-269 | the allocator's map and answer are those of `Grant` |
| `BssSlots.SlotAllocator.PruneTo` | gateway/sbegw/wifid.py:271-285 | the two nested loops leave the map `Prune` describes |
| `BssPlan.ByBandLists` | gateway/sbegw/wifid.py:399-404 | sorting radios by band rank and id lists each once, in rank order |
| `BssPlan.AnchorIsLowestBand` | gateway/sbegw/wifid.py:696-708 | the anchor is one of the MLD's radios and of the lowest band among them |
| `BssPlan.AnchorBand` | gateway/sbegw/wifid.py:696-708 | so a 2.4 GHz radio if the MLD has one, else a 5 GHz one, else a 6 GHz one |
| `BssPlan.NumberInOrder` | gateway/sbegw/wifid.py:400-408 | the ordinal loop computes the numbering the lemmas are about |
| `BssPlan.OrdinalsDistinct` | gateway/sbegw/wifid.py:396-408 | every radio gets an ordinal, and radios that share a MAC get different ones |
| `BssPlan.DeclareMlds` | gateway/sbegw/wifid.py:425-440 | an SSID that asks for MLO and has no MLD declared gets one over the radios of its bands |
| `BssPlan.StartMlds` | gateway/sbegw/wifid.py:442-468 | the MLD loop starts exactly the MLDs the specification says, first one per network |
| `BssPlan.MldsServeTheirNetworks` | gateway/sbegw/wifid.py:442-468 | an MLD started has at least two radios and serves the network it is filed under |
| `BssMlds.DerivedMlds` | gateway/sbegw/wifid.py:425-440 | an SSID that asks for MLO and has no MLD declared gets one over exactly the radios of its bands; all else declared is by hand, or derived likewise |
| `BssMlds.ByHandIsHonouredIff` | gateway/sbegw/wifid.py:419-440 | MLDs declared by hand are all honoured if and only if no SSID without one of its own derives one under such an id |
| `BssMlds.ByHandIsOverwritten` | gateway/sbegw/wifid.py:419-440 | two SSIDs and a hand-declared MLD that is overwritten |
| `BssMlds.MldStartsIff` | gateway/sbegw/wifid.py:442-455 | an MLD is started exactly when it is enabled, two places of its list are present and the first radio present in id order has an address |
| `BssMlds.MldOfNetworkIsFirst` | gateway/sbegw/wifid.py:468 | of several MLDs started for one SSID its BSSes link to the first in id order |
| `BssMlds.LinksKeepDeclaredOrder` | gateway/sbegw/wifid.py:442-466 | a started MLD's radios, and so its link numbers, follow the order of the list it was declared with |
| `BssMlds.MldAddress` | gateway/sbegw/wifid.py:452-455 | a started MLD has the address given by hand, or the one derived from its primary radio and its place in id order |
| `BssMlds.MldAddressIsNoBssid` | gateway/sbegw/wifid.py:302-326 | no BSS on a radio of an MLD's primary address has that MLD's derived address |
| `BssMlds.MldAddressesCollideIff` | gateway/sbegw/wifid.py:320-326 | two derived MLD addresses of one primary address coincide exactly when the places in id order agree modulo 256 |
| `BssMlds.EntryLinks` | gateway/sbegw/wifid.py:510-569 | a BSS is a link exactly when the MLD of its SSID has its radio; the link number is the radio's place there, and the netdev is named after the anchor and the slot |
| `BssPlan.PlaceNetwork` | gateway/sbegw/wifid.py:488-573 | the inner loop over radios places one network as the specification says |
| `BssPlan.BuildPlan` | gateway/sbegw/wifid.py:385-575 | the whole planner computes `PlanFor` and the slot map left behind |
| `BssOrdinals.OrdinalIsCount` | gateway/sbegw/wifid.py:396-408 | a radio's ordinal is the number of radios that report its address and sort before it |
| `BssPlacing.PlaceAllKeepsEntries` | gateway/sbegw/wifid.py:481-573 | over any list of distinct pairs and any radios, every table entry is the BSS of an eligible pair on the slot recorded for it |
| `BssPlacing.PlaceAllKeepsRefusals` | gateway/sbegw/wifid.py:498-504 | over any list of distinct pairs and any radios, the pairs reported as refused are exactly the eligible ones visited that hold no usable slot, and one without a slot found all taken |
| `BssPlacing.NameIsFresh` | gateway/sbegw/wifid.py:506-570 | when names are apart, a new BSS never gets a name already on the table, so nothing is overwritten |
| `BssPlacing.PlaceAllOk` | gateway/sbegw/wifid.py:481-573 | the whole placement invariant holds after any list of distinct pairs whose names are apart |
| `BssPlanProofs.PlanRefusesExactly` | gateway/sbegw/wifid.py:498-504 | on any radios a plan refuses exactly the eligible pairs whose slot was not granted, and one with no slot recorded only when all below the limit are taken |
| `BssPlanProofs.PlanPlacesExactly` | gateway/sbegw/wifid.py:470-575 | when names are apart, exactly the eligible pairs whose slot was granted are placed, and all others are refused |
| `BssPlanProofs.PlacesExactlyIffNamesApart` | gateway/sbegw/wifid.py:470-575 | one plan, on any radios, places exactly those pairs if and only if no two of them get one netdev name |
| `BssClashes.NothingIsOverwrittenIff` | gateway/sbegw/wifid.py:470-575 | every plan for given radios, over all configurations and slot maps, places exactly those pairs if and only if no two usable (radio, slot) places of the radios get one netdev name |
| `BssClashes.OneNameLosesABss` | gateway/sbegw/wifid.py:470-575 | any two places of one name come with a configuration and a slot map whose plan loses a BSS |
| `BssClashes.SlotTwentyIsOverwritten` | gateway/sbegw/wifid.py:292-295 | the plan for radio-5g slot 20 and radio-5g-2 slot 0 loses one |
| `BssPlanProofs.DiscoveredRadiosApart` | gateway/sbegw/wifid.py:292-299 | no two places share a name on radios named radio-B or radio-B-k that host at most sixteen BSSes |
| `BssPlanProofs.DiscoveredNamesApart` | gateway/sbegw/wifid.py:292-299 | so on those radios names are apart in every plan |
| `BssPlanProofs.PlanIsPartition` | gateway/sbegw/wifid.py:570-575 | the per-radio lists partition the table of BSSes |
| `BssPlanProofs.PlanEntry` | gateway/sbegw/wifid.py:498-570 | each entry has the name, address, MLD link and netdev of its radio and slot, below the radio's limit |
| `BssPlanProofs.PlanBssidsCollideIff` | gateway/sbegw/wifid.py:506-509 | exactly when two entries, on radios of any addresses, get one BSSID |
| `BssPlanProofs.PlanBssidsDistinct` | gateway/sbegw/wifid.py:506-509 | so BSSes on radios of one MAC share a BSSID exactly when their indices agree modulo 256, never with ordinals and limits within sixteen |
| `BssClashes.BssidsAreDistinctIff` | gateway/sbegw/wifid.py:506-509 | all BSSIDs of every plan for given radios, over all configurations and slot maps, are distinct if and only if no two usable places of different names derive one |
| `BssClashes.BothArePlaced` | gateway/sbegw/wifid.py:470-509 | any two places of different names come with a plan that fills both, with one BSSID exactly when the places clash |
| `BssClashes.NeighbouringRadiosShareABssid` | gateway/sbegw/wifid.py:302-317 | a plan that gives slot three of a radio and slot zero of one three addresses up the same BSSID |
| `BssPlanProofs.PlanBssidsAvoidOthers` | gateway/sbegw/wifid.py:302-326 | none has an MLD address of its radio's MAC or, unless that is local, the MAC |
| `BssPlanProofs.MldLinksShareNetdevIff` | gateway/sbegw/wifid.py:557-569 | two links of one MLD share a netdev exactly when the SSID has the same slot on both radios |
| `BssPlacing.PlanKeepsLiveSlot` | gateway/sbegw/wifid.py:470-499 | planning keeps the slot of every SSID live on a radio |
| `BssStability.RunKeepsInjective` | gateway/sbegw/wifid.py:257-285 | slots stay injective on every radio over every run of plans |
| `BssStability.SlotStableOverRuns` | gateway/sbegw/wifid.py:257-285 | an SSID's slot survives every run of plans over changing configurations and radios in which it stays live |
| `BssStability.RefusalMeansFull` | gateway/sbegw/wifid.py:498-504 | while the slots recorded on its radio fit the limit, a pair is refused only when every slot below the limit is taken |
| `BssStability.RefusalsMeanFullIff` | gateway/sbegw/wifid.py:498-504 | for a slot map and radios, plans of all configurations refuse pairs only for lack of slots exactly when no radio that can host comes with a slot recorded at or above its limit |
| `BssStability.TooHighIsRefusedThoughFree` | gateway/sbegw/wifid.py:257-269 | a plan for any slot at or above a limit: the SSID that holds it is refused although it is the only one configured |
| `BssStability.RefusedOverRunsMeansFull` | gateway/sbegw/wifid.py:257-269 | from an empty map, over every run in which no limit is lowered, the same |
| `BssLive.PlannedSlotsAreSelected` | gateway/sbegw/wifid.py:470-480 | after a plan a network has a slot on a radio only if it is enabled and selects the radio's band; such a network keeps the slot it had |
| `BssLive.RefusedOnlyForSelected` | gateway/sbegw/wifid.py:470-504 | while recorded slots fit, a pair is refused only when such networks hold every slot below the limit |
| `BssLive.EnoughSlotsRefuseNone` | gateway/sbegw/wifid.py:470-504 | so a radio whose band at most as many enabled networks select as it can host refuses none |
| `BssStability.IdentityStableOverRuns` | gateway/sbegw/wifid.py:470-509 | the first and the last plan of a run give a live SSID one slot and one netdev, and one BSSID when its radio and those of its address before it are the same |
| `BssStability.StillPlaced` | gateway/sbegw/wifid.py:470-575 | and it is placed by the last plan, if still eligible there below the limit and names are apart |
| `BssStability.BssidKeptOnNewRadiosIff` | gateway/sbegw/wifid.py:396-408 | on an unchanged address the BSSID is kept exactly when the number of radios of that address before it is the same modulo sixteen |
| `Channels.BlockIsGroup` | gateway/sbegw/rf.py:111-138 | membership in a 6 GHz block is agreement on the group of subchannels |
| `Channels.Bonded6gIff` | gateway/sbegw/rf.py:141-169 | a 6 GHz channel can be bonded, and lies in its own block, exactly when it is 1 modulo 4 |
| `Channels.Bonded2gIs` | gateway/sbegw/rf.py:141-169 | a 40 MHz block of 2.4 GHz is the channel and the one four above, and exists exactly up to channel 10 |
| `Channels.BondedWithinOccupied` | gateway/sbegw/rf.py:111-169 | the channels a block needs are among those it is disturbed on, in every band and width |
| `Channels.Footprints2gShareIff` | gateway/sbegw/rf.py:111-126 | two 2.4 GHz channels disturb each other exactly within five channels at 20 MHz and nine when wider |
| `Channels.Blocks5gAreRuns` | gateway/sbegw/rf.py:94-108 | the 5 GHz blocks of 40, 80 and 160 MHz are runs of neighbouring channels |
| `Channels.Blocks5gAreHalves` | gateway/sbegw/rf.py:94-108 | each wider 5 GHz block up to 160 MHz, and the one of 320, is two of the next narrower |
| `Channels.Blocks6gPartition` | gateway/sbegw/rf.py:111-138 | 6 GHz blocks of one width contain their channel and are equal or disjoint |
| `Channels.Blocks6gNest` | gateway/sbegw/rf.py:111-138 | the 20, 40, 80, 160 and 320 MHz blocks of a channel nest |
| `Channels.Block160NestsIff` | gateway/sbegw/rf.py:111-138 | a 6 GHz 240 MHz block holds the channel's 160 MHz block exactly when that is not the middle one of three |
| `Channels.Block240NestsIff` | gateway/sbegw/rf.py:111-138 | a 320 MHz block holds the channel's 240 MHz block exactly when that is the first or last of four |
| `Channels.NarrowBlocksNestIn240` | gateway/sbegw/rf.py:111-138 | the 20, 40 and 80 MHz blocks always lie in the 240 MHz block |
| `Channels.Block160OfChannel33SticksOut` | gateway/sbegw/rf.py:111-138 | the 160 MHz block of channel 33 does not |
| `Channels.Centres6gAgree` | gateway/sbegw/adapters/hostapd.py:274-299 | the averaged centre frequency is that of hostapd's closed form, for every 6 GHz channel at 80, 160 and 320 MHz |
| `Channels.Centres5gAgree` | gateway/sbegw/adapters/hostapd.py:226-299 | the same for every channel of every 5 GHz block at 80, 160 and 320 MHz |
| `Channels.Centres5g240AgreeIff` | gateway/sbegw/adapters/hostapd.py:226-299 | at 240 MHz the two agree exactly outside the first block, whose channels are not contiguous |
| `Interference.OccupiedDistinct` | gateway/sbegw/rf.py:111-138 | no footprint lists a channel twice |
| `Interference.LouderWeighsMore` | gateway/sbegw/rf.py:423-441 | a louder neighbour weighs no less: nothing up to -95 dBm, in proportion above; an unknown level weighs as -81.5 dBm, an unknown width is 20 MHz |
| `Interference.Hear` | gateway/sbegw/rf.py:429-441 | one neighbour changes exactly the channels it covers, each once |
| `Interference.Accumulate` | gateway/sbegw/rf.py:423-441 | count, weight and strongest signal of each channel are those of exactly the neighbours that cover it |
| `Interference.NeighbourAddsWeight` | gateway/sbegw/rf.py:423-441 | a further neighbour, anywhere in the scan, never lowers a channel's weight |
| `ChannelSelection.ListChannels` | gateway/sbegw/rf.py:443-464 | the channel list is one entry per enabled channel, with that channel's load |
| `ChannelSelection.ScoreCandidates` | gateway/sbegw/rf.py:502-557 | the loop scores the specified candidates in scan order |
| `ChannelSelection.RankedResult` | gateway/sbegw/rf.py:559-560 | ranking is a permutation sorted by score down, then channel up |
| `ChannelSelection.ComputeRecommendation` | gateway/sbegw/rf.py:495-608 | score, rank, look up the current channel and decide, as `Recommend` says |
| `ChannelSelection.RecommendResult` | gateway/sbegw/rf.py:559-608 | the best is a candidate none is ahead of; the current channel is found exactly when it was scored |
| `ChannelSelection.MovingShiftsScores` | gateway/sbegw/rf.py:542-550 | moving raises no score but the new channel's and lowers none but the old one's |
| `ChannelSelection.OneMoveConverges` | gateway/sbegw/rf.py:495-608 | measurements frozen, the channel moved to is the one recommended from there, and no switch is |
| `ChannelSelection.SwitchIff` | gateway/sbegw/rf.py:572-600 | a switch is advised exactly when something can be scored and the radio is on no channel, or the best candidate is elsewhere and either the current channel has no score or the gain and the interval suffice |
| `ChannelScores.NeighbourNeverHelps` | gateway/sbegw/rf.py:423-557 | one more neighbour in the scan raises no candidate's score and changes no channel's candidacy |
| `ChannelScores.LouderNeighbourNeverHelps` | gateway/sbegw/rf.py:423-557 | nor does a neighbour heard louder |
| `ChannelScores.WorseScanNeverHelps` | gateway/sbegw/rf.py:518-557 | nor does more interference, utilisation or noise on any entry |
| `ChannelScores.EntriesAreOfDetails` | gateway/sbegw/rf.py:443-464 | the scan's entries are the enabled channels', each with its own flags, survey and covering neighbours |
| `ChannelScores.RecommendsWhatCanHost` | gateway/sbegw/rf.py:503-519 | what is recommended may transmit, is 1, 6 or 11 on 2.4 GHz, and has its whole block permitted; something is recommended exactly when such a channel exists |
| `ChannelScores.ScoresAreBounded` | gateway/sbegw/rf.py:527-550 | no score is below zero nor above a hundred, six more for the current channel |
| `ChannelScores.AvoidDfsCosts` | gateway/sbegw/rf.py:536-539 | avoiding DFS costs nineteen points where the block has a DFS channel and nothing elsewhere |
| `ChannelScores.PreferPscCosts` | gateway/sbegw/rf.py:540-541 | preferring the PSC costs four points on other 6 GHz channels and nothing elsewhere |
| `ChannelScores.SilentChannelScores` | gateway/sbegw/rf.py:527-539 | a 5 GHz channel in a silent block scores 100, with DFS in the block 94, and 75 when that is avoided |
| `ChannelScores.AvoidingDfs` | gateway/sbegw/rf.py:536-560 | turning DFS avoidance on raises no score, changes none whose block has no DFS channel, and leaves such a channel best if it was |
| `ChannelScores.PreferringPsc` | gateway/sbegw/rf.py:540-560 | the same of preferring the PSC and the channels it spares |
| `ChannelRuns.ChannelAnalyzer.constructor` | gateway/sbegw/rf.py:175-199 | the last switch of each radio is rebuilt from the stored history |
| `ChannelRuns.ChannelAnalyzer.RecordSwitch` | gateway/sbegw/rf.py:201-207 | a switch is appended, all but 200 dropped, and its time remembered |
| `ChannelRuns.ChannelAnalyzer.OptimiseRadio` | gateway/sbegw/rf.py:633-671 | one radio's turn moves it, and records it, exactly when `Moves` says |
| `ChannelRuns.ChannelAnalyzer.Optimise` | gateway/sbegw/rf.py:626-678 | one optimisation run is its radios' turns one after the other |
| `ChannelRuns.TurnMovesIff` | gateway/sbegw/rf.py:633-671 | a working turn that is no dry run moves the radio exactly when a switch is advised, or, being forced, when the best channel is another one |
| `ChannelRuns.DryRunsRecordNothing` | gateway/sbegw/rf.py:633-671 | dry runs and failing turns record nothing, over any run |
| `ChannelRuns.GovernedMovePays` | gateway/sbegw/rf.py:585-600 | an unforced switch away from a scorable channel gains the configured improvement and keeps the interval |
| `ChannelRuns.GovernedMovesAreSpaced` | gateway/sbegw/rf.py:585-600 | over any run in which the clock does not go back between a radio's turns, such switches of it are recorded at least the interval apart |
| `ChannelRuns.WindowHoldsFewMoves` | gateway/sbegw/rf.py:585-600 | any window of length T holds at most 1 + T/interval of them |
| `ChannelRuns.RestartRemembersIff` | gateway/sbegw/rf.py:193-207 | a radio that moves in a run is remembered across a restart exactly when fewer than 200 moves of the run come after its last one |
| `ChannelRuns.RestartRemembersTheTime` | gateway/sbegw/rf.py:193-207 | and then at the very time |
| `ChannelRuns.MoveIsRecorded` | gateway/sbegw/rf.py:201-207 | the newest history entry of a move has its radio, the channel left, the one it is on from then, and the time remembered |
| `ChannelRuns.TwoHundredLaterSwitchesForget` | gateway/sbegw/rf.py:193-207 | a radio that moved is remembered by the process and forgotten by a restart after it, when another moved two hundred times or more since, and not before |
| `ChannelRuns.OneChannelHasCandidate` | gateway/sbegw/rf.py:495-608 | one clear channel in scan range is enough for such a run |
| `ChannelRuns.FrozenRunSwitchesAtMostOnce` | gateway/sbegw/rf.py:612-680 | over any run that finds the radio on the channel it is on, its measurements frozen, the moves made include at most one of it, to the best channel |
| `ChannelRuns.ForcedTurnReachesTheBest` | gateway/sbegw/rf.py:612-680 | over such a run one forced turn that works, wherever it falls, leaves the radio on the best channel |
| `FanControl.ComputeCurveLevel` | gateway/sbegw/hwd.py:130-138 | the loop finds the level of the last threshold reached |
| `FanControl.HardwareManager.Target` | gateway/sbegw/hwd.py:205-257 | duty, level and raw duty aimed at are those of the controller function |
| `FanControl.HardwareManager.ApplyFan` | gateway/sbegw/hwd.py:259-303 | one tick writes, holds or releases as the controller function says |
| `FanControl.HardwareManager.ReleaseFan` | gateway/sbegw/hwd.py:305-331 | releasing applies the board's own trip table and forgets level and duty |
| `FanControl.CurveLevelMeaning` | gateway/sbegw/hwd.py:130-138 | the level is that of the interval the temperature lies in, for every curve |
| `FanControl.CurveAgainstBoardPolicy` | gateway/sbegw/hwd.py:79-108 | balanced and cool never ask for less than the board's trip policy; quiet does exactly from 50 to 90 degrees |
| `FanControl.HeldLevelCovers` | gateway/sbegw/hwd.py:237-303 | after any run without manual duty, a curve-mode reading leaves a level at least the curve's and the duty of that level |
| `FanControl.OneStepDownPerGap` | gateway/sbegw/hwd.py:141-151 | once all readings stay within the hysteresis of each other the level goes down at most once ever again, and once more for each missing reading |
| `FanControl.GapMovesTheFanIff` | gateway/sbegw/hwd.py:237-252 | what one missing reading does, exactly: it steps down exactly from level 3, and the reading after it exactly below level 2 and past its hysteresis |
| `FanControl.GapStepsDownBelow` | gateway/sbegw/hwd.py:237-252 | in temperatures: below 61, 46 and 76 degrees on the three curves |
| `FanControl.ControllerDoesNotHunt` | gateway/sbegw/hwd.py:237-303 | the same bound of the controller itself, after any run without manual duty |
| `FanControl.MissingReadingsHunt` | gateway/sbegw/hwd.py:237-240 | one missing reading at a constant temperature sends the fan up two levels and down again |
| `FanControl.RunKeepsRawOk` | gateway/sbegw/hwd.py:283-300 | after any run of any modes the raw duty belongs to the percentage in force |
| `FanControl.RawDutyMatchesLevelIff` | gateway/sbegw/hwd.py:283-300 | a curve tick leaves its level's own raw duty exactly unless a manual 28 percent is still in force at level 1 |
| `FanControl.ManualTwentyEightLatches` | gateway/sbegw/hwd.py:233-235 | and that does happen |
| `FanControl.HotReadingsRunFull` | gateway/sbegw/hwd.py:245-247 | after any run of any modes, a curve-mode reading at the hot trip or past it leaves the fan at full duty |
| `FanControl.HandBackFollowsBoard` | gateway/sbegw/hwd.py:305-332 | after any run, mode auto hands the fan back at the raw duty of the board's table, told in degrees, or leaves a fan handed back already as it is |
| `FanControl.HandedBackStays` | gateway/sbegw/hwd.py:259-269 | while the mode stays auto nothing more is written |
| `FanControl.FullIsFull` | gateway/sbegw/hwd.py:220-223 | after any run, mode max leaves the fan at 100 percent and raw 255 |
| `FanControl.NoFanNoWrite` | gateway/sbegw/hwd.py:271-283 | while no writable fan is found, or the fan is handed back without a reading, nothing is written |
| `FanControl.RunNeverStalls` | gateway/sbegw/hwd.py:224-235 | no run ever writes a duty at which the fan is powered but may not turn; only a manual duty of zero or less stops it |
| `Networks.OverlapsIffShare` | gateway/sbegw/schema.py:497-501 | the overlap test is true exactly when the two subnets share an address |
| `AddressBits.SubnetIsPrefix` | gateway/sbegw/schema.py:318-325 | a subnet holds exactly the addresses whose first bits, as many as the prefix says, are the gateway's; bits told by halving |
| `AddressBits.SubnetsShareIff` | gateway/sbegw/schema.py:496-501 | two subnets share an address exactly when the gateways agree on the bits both prefixes speak of |
| `Networks.ValidateDhcp` | gateway/sbegw/schema.py:512-535 | a DHCP section is accepted exactly when it is sound for its subnet, and comes back with its defaults |
| `Networks.JoinsIff` | gateway/sbegw/schema.py:487-502 | the two growing tables decide exactly whether a network can join those before it |
| `Networks.ValidateOne` | gateway/sbegw/schema.py:480-509 | one network is accepted exactly when it is sound and can join |
| `Networks.ValidateNetworks` | gateway/sbegw/schema.py:474-509 | accepts exactly the non-empty documents of sound networks with distinct VLANs and disjoint subnets; else names the first network that cannot join |
| `Networks.FillIdempotent` | gateway/sbegw/schema.py:503-535 | filling defaults twice is filling them once, and an accepted document stays acceptable |
| `Networks.ResolveClient` | gateway/sbegw/clientd.py:105-110 | the client database's index loop computes the first match in document order |
| `Networks.ResolveFinds` | gateway/sbegw/clientd.py:167-178 | an address resolves exactly when some subnet holds it, and then to such a network |
| `Networks.ResolveIgnoresOrder` | gateway/sbegw/clientd.py:167-178 | in an accepted document the answer is the same for every order of the networks |
| `Networks.SharingMakesOrderMatter` | gateway/sbegw/clientd.py:167-178 | two networks answer differently in the two orders exactly for the addresses they share |
| `Networks.PoolResolvesToItsNetwork` | gateway/sbegw/schema.py:516-528 | every address of an enabled pool lies in its subnet, is not the gateway, and resolves to its network |
| `Networks.ReservationsResolve` | gateway/sbegw/schema.py:530-535 | every reserved address of an enabled section lies in its subnet and resolves to its network |
| `Networks.DhcpIsUncheckedIff` | gateway/sbegw/schema.py:494-503 | in an accepted document every DHCP section of a network would be accepted exactly when it has no subnet |
| `Networks.PoolsAreInsideIff` | gateway/sbegw/schema.py:494-528 | every enabled pool of an accepted document is a non-empty range inside its subnet, without the gateway, exactly when none is enabled without one |
| `Networks.DhcpWithoutSubnetIsAccepted` | gateway/sbegw/schema.py:494-503 | one that is, and is accepted |
| `WanPorts.ValidateWans` | gateway/sbegw/schema.py:538-607 | the loop that rewrites ports while it walks computes `Walk`, refusals and reported moves included |
| `WanPorts.AcceptedWans` | gateway/sbegw/schema.py:554-589 | accepted WANs have distinct existing ports, enabled ones on WAN ports; only default flags and ports of demoted ones changed |
| `WanAcceptance.WalkDecidedOnDocument` | gateway/sbegw/schema.py:538-607 | the walk accepts exactly when nothing on the document speaks against any uplink, and else names the first that something speaks against, and what |
| `WanAcceptance.AcceptedIff` | gateway/sbegw/schema.py:554-589 | accepted exactly: fields sound and ports known, at most one enabled uplink off the WAN role, that one with a single vacant port that no later uplink sits on, ports distinct but for the one it leaves |
| `WanPorts.SecondWalkIsQuiet` | gateway/sbegw/schema.py:538-607 | validating the result again accepts it, changes nothing and reports no move |
| `WanPorts.AtMostOneMove` | gateway/sbegw/schema.py:571-588 | no document moves more than one uplink |
| `WanPorts.MovesAreReported` | gateway/sbegw/schema.py:579-582 | the reported moves are exactly the port changes made, each from a demoted port to a WAN port |
| `Firmware.Inspect` | gateway/sbegw/otad.py:101-176 | the checks find no problem exactly for a clean image, and then report its board and payload sizes |
| `Firmware.WriteChunks` | gateway/sbegw/otad.py:271-283 | chunks go to consecutive offsets; it succeeds exactly when the whole payload has the announced size and fits |
| `Firmware.SentFaithfully` | gateway/sbegw/otad.py:271-283 | when chunks land where they are sent, the payload replaces the front of the device and nothing else |
| `Firmware.ReadBack` | gateway/sbegw/otad.py:285-299 | the block-wise digest is the digest of the first `size` bytes of the device |
| `Firmware.WriteMember` | gateway/sbegw/otad.py:260-299 | writes one payload and returns the digest of what landed; fails without writing when it is not in the image |
| `Firmware.WriteVerified` | gateway/sbegw/otad.py:199-211 | success means the device starts with what has the payload's digest, however chunks landed |
| `Firmware.Apply` | gateway/sbegw/otad.py:180-224 | nothing is written unless inspection is clean; no kernel byte unless root verified; success means both verified; faithful writes spare the tails and succeed exactly on whole images |
| `Firmware.CleanIsWritableIff` | gateway/sbegw/otad.py:133-139 | of the images that inspect clean, those that can be written are exactly those whose directory is the prefix and the board |
| `Firmware.CleanImagesFit` | gateway/sbegw/otad.py:101-176 | a clean image, read in full, for partitions that were measured is whole and fits both |
| `Firmware.VerifiedBoots` | gateway/sbegw/otad.py:146-176 | a verified partition starts with the squashfs or device tree magic and has sixteen or one MiB of it |
| `Firmware.BareDirectoryIsCleanButUnwritable` | gateway/sbegw/otad.py:133-139 | the same two payloads inspect clean under both directories and can be written under one |
| `Traffic.DpiEngine.NameFlow` | gateway/sbegw/dpi.py:272-276 | the newest named flow goes last and only the oldest beyond 32768 are forgotten |
| `Traffic.DpiEngine.IngestEvent` | gateway/sbegw/dpi.py:257-327 | one event steps the engine as specified and reports exactly whether a flow was accepted |
| `Traffic.DpiEngine.PruneOld` | gateway/sbegw/dpi.py:354-357 | exactly the buckets last seen before the cutoff go |
| `Traffic.DpiEngine.Poll` | gateway/sbegw/dpi.py:329-352 | a poll is the run of its lines' events and a pruning; the offset moves only when the end was reached |
| `Traffic.FlowIsTheLocalEnd` | gateway/sbegw/dpi.py:288-313 | an accepted flow is booked to its one local end and to the client known under that end's own address: what that end sent is transmitted, what the other sent received |
| `Traffic.SecondPollIsQuietIff` | gateway/sbegw/dpi.py:329-352 | polling an unchanged file again accepts nothing exactly when fewer flows than the limit count before its last line; a poll stopped by its limit is repeated in full |
| `Traffic.LimitedPollRepeats` | gateway/sbegw/dpi.py:338-350 | a file of two flows polled with a limit of one |
| `Traffic.NextPollReadsOn` | gateway/sbegw/dpi.py:334-348 | a poll of a grown file starts behind the part read before, one of a replaced file at its first line |
| `Traffic.RunKeepsNoIpv6` | gateway/sbegw/dpi.py:283-285 | while IPv6 is left out no IPv6 address ever gets a bucket, over any run |
| `Traffic.RunConservesBytes` | gateway/sbegw/dpi.py:300-357 | over every run, bytes stored plus bytes pruned are bytes stored before plus the accepted flows' nonnegative bytes |
| `TrafficRuns.BucketOfFlow` | gateway/sbegw/dpi.py:311-325 | a flow belongs to the bucket of its client, its protocol and the full hour its time lies in |
| `TrafficRuns.BookKeepsExact` | gateway/sbegw/dpi.py:309-325 | booking a flow keeps every bucket the exact sum of its hour, client and protocol: bytes, packets, first and last time, first service, last address |
| `TrafficRuns.PruneKeepsExact` | gateway/sbegw/dpi.py:354-357 | so does pruning: a bucket goes whole, and only with flows from before the cutoff |
| `TrafficRuns.RunKeepsExact` | gateway/sbegw/dpi.py:257-357 | so does every run under a clock that does not go back |
| `TrafficRuns.RunCounts` | gateway/sbegw/dpi.py:257-327 | over every run the counters are the events taken in and the flows accepted |
| `TrafficRuns.BucketsAreHourlyTotals` | gateway/sbegw/dpi.py:257-357 | from an empty table: buckets sum up exactly the flows of their hour, client and protocol, every flow since the latest cutoff is in one, and none ends before it |
| `TrafficRuns.RunKeepsTable` | gateway/sbegw/dpi.py:272-276 | the flow-to-service table never exceeds 32768 entries and names each flow once |
| `TrafficRuns.NamedFlowIsBookedUnderItsService` | gateway/sbegw/dpi.py:272-304 | a flow whose service was named is booked under it when it ends, unless 32768 namings came between |
| `TrafficSummary.TallyIsExact` | gateway/sbegw/dpi.py:377-396 | accumulating into a dictionary gives each key the exact sum of its items |
| `TrafficSummary.RowsAreLargestTotals` | gateway/sbegw/dpi.py:359-371 | each row is the exact total of its client and protocol; pairs left out by the limit are behind rows at least as large |
| `TrafficSummary.RowsHaveCategories` | gateway/sbegw/dpi.py:361-369 | a (client, protocol) pair has a category exactly when it has buckets |
| `TrafficSummary.Summarise` | gateway/sbegw/dpi.py:373-396 | applications, categories and clients each list exact sums of the rows, largest first, and each total the rows' total |
| `TrafficSummary.RowsAccountForAllIff` | gateway/sbegw/dpi.py:359-396 | that total is the whole table's exactly when every pair the limit leaves out carried nothing |
| `TrafficSummary.TableTotalIsStored` | gateway/sbegw/dpi.py:359-371 | the table a summary reads totals what the engine has stored |
| `InformCodec.PadRoundTrip` | gateway/sbegw/unifi.py:76-77 | padding fills whole blocks and is undone by unpadding |
| `InformCodec.UnpadIsOnlyPad` | gateway/sbegw/unifi.py:104-105 | padding that is accepted is the one padding of what it yields |
| `InformCodec.HeaderFields` | gateway/sbegw/unifi.py:69-82 | magic, version, MAC, flags, nonce and length stand where a decoder looks for them, in a header of 24 bytes and the nonce |
| `InformCodec.HeaderPayloadVersion` | gateway/sbegw/unifi.py:69-82 | the payload version stands behind the nonce |
| `InformCodec.PacketFlags` | gateway/sbegw/unifi.py:63 | a packet says it is encrypted and deflated, whether in GCM mode, and never snappy |
| `InformCodec.EncodesIff` | gateway/sbegw/unifi.py:58-82 | encoding succeeds exactly for a six-byte MAC, an AES key, a nonce the mode takes and a length that fits |
| `InformCodec.PacketLength` | gateway/sbegw/unifi.py:58-82 | a packet carries magic, MAC and nonce in their places and is as long as its header says |
| `InformCodec.RoundTrip` | gateway/sbegw/unifi.py:58-116 | decoding what was encoded gives the payload back in either mode, with any bytes appended |
| `InformCodec.SealedDecodes` | gateway/sbegw/unifi.py:85-116 | a sealed packet of any flags: deflated bodies are inflated, snappy ones refused, and with neither flag the body is read as it is |
| `InformCodec.UncompressedRoundTrip` | gateway/sbegw/unifi.py:85-116 | a payload sent without compression comes back in either mode |
| `InformCodec.TailIsIgnored` | gateway/sbegw/unifi.py:85-94 | of any packet, bytes past the length in the header are never looked at |
| `InformCodec.PrefixesAreRefused` | gateway/sbegw/unifi.py:85-94 | every strict prefix of a packet is refused, before any key matters |
| `InformCodec.GcmRoundTripsIff` | gateway/sbegw/unifi.py:58-116 | of the nonce lengths GCM mode takes, sixteen is exactly the one at which every suite brings every packet back |
| `InformCodec.OtherNonceIsMisread` | gateway/sbegw/unifi.py:61-94 | at every other length, a packet that is refused |

## Left out

- Subprocesses, sysfs, sockets, HTTP, SQLite, hostapd and dnsmasq rendering, file locking and atomic file writes:
  their results are parameters, or they succeed.
- ConfigMachine.Next: a step is atomic. The appliers of a timed-out rollback run outside the lock, and a commit
  between two of those calls is not modelled; the gap before them is (`SplitTimeoutExact`).
- Write failures of the running file or the revision table in the middle of a commit: not modelled.
- The audit table and its redaction, event emission and message texts.
- In-place aliasing of nested documents: the merges return the document they leave behind; two names for one nested
  dictionary are not modelled.
- Python's equality of booleans and numbers: a document leaf is compared by kind and value.
- An applier that raises is an applier that fails; what it leaves behind is arbitrary either way.
- Parsing of MAC and CIDR texts: addresses are octets and numbers, a text that does not parse is a case of its own.
- Plain field checks of the validators (names, enums, ranges): one flag each before and after the modelled checks;
  whether the flag holds is up to the document.
- The radio registry: which ids discovery hands out is not modelled; results that need names to be apart say so, and
  `DiscoveredRadiosApart` gives it for ids radio-B and radio-B-k and at most sixteen BSSes on a radio.
- ConfigMachine.RunKeepsSync: assumes that the re-applies a failed commit or a timeout falls back on succeed;
  `DifferenceDrivenAppliersDoNotRecover` shows what that rests on.
- ChannelRuns.WindowHoldsFewMoves: forced switches, and switches away from a channel that cannot be scored, are not
  governed by the thresholds and not counted.
- ChannelRuns: a radio's turn reads its own last switch when its turn comes; in one optimisation run each radio has
  one turn, so that is what it was when the recommendations were made.
- FanControl.ControllerDoesNotHunt: for a curve mode that stays.
- Fans that are not controllable for one tick and the cooling-device view of the same fan: one controllable fan.
- Firmware.Apply: opening a device, short reads on read-back and a chunk written only in part at the end of a device
  are not modelled; the image file does not change between inspection and writing; no two byte strings share a digest
  where the payload itself is claimed.
- Traffic: the table of service names by domain suffix, client lookup beyond a map from address to MAC, rotation by
  inode, and the order of rows of equal size, which the query leaves open and the model fixes by first appearance.
- TrafficRuns.BucketsAreHourlyTotals: for a clock that does not go back and a retention of at least an hour, as the
  validator demands; `RunConservesBytes` needs neither.
- TrafficSummary: packet counts, first and last times and display names of a row; they follow the same grouping.
- InformCodec: ciphers, compression and JSON are functions assumed to undo each other on what they produced; discovery
  packets have no decoder in the repository.
- RBAC, password hashing, telemetry, the web interface, WAN event debounce, steering and health polling: they would
  add single-branch facts only.
