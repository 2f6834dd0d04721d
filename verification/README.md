# Verification models for the AAA management platform

The platform manages TACACS+/RADIUS policies, devices and administrators for network equipment, and installs, upgrades and
releases itself. This project models the parts of it that carry real state or real arithmetic and proves what they are for.
Every result holds for all inputs, all runs or all interleavings.

| part | modules |
|---|---|
| policy condition trees: payloads, relational rows, cascade deletion, the write requests, evaluation | `ConditionTrees`, `ConditionRows`, `ConditionTables`, `ConditionDeletion`, `ConditionRequests`, `ConditionSession`, `ConditionEngine`, `SourceAddresses`, `ReferenceIndex`, `Decisions` |
| the unique, deferred priority numbering of policies | `Priorities`, `PolicyList` |
| release versions and the concurrent release protocol | `Decimals`, `Versions`, `ReleaseProtocol` |
| the licence request codec | `Base64Url`, `LicenceRequest` |
| address blocks, their text, allowlists and the device inventory | `Networks`, `NetworkTexts`, `Allowlist`, `DeviceInventory` |
| selective directory removal | `Uninstall` |
| the additive schema migrator, the drift report and its repair | `SchemaMigration` |
| the login throttle and the last-superadmin rule | `LoginThrottle`, `AdminAccounts` |
| text emitted between delimiters | `EmittedText` |
| report aggregates that must agree | `FleetReport` |

`Wrappers` and `Texts` hold the outcome types and Python's string operations.

How the code's own form is kept: database sessions, tables of row objects, the file system, the live schema, the throttle and
the remote repository are classes whose methods change them step by step; each method is proved against a function of the old
state, and the main theorems are about that function and about runs of it. Python expressions and recursions are functions.

Library behaviour that the code calls but does not define is a parameter with a stated assumption: JSON and SHA-256
(`LicenceRequest.Faithful`), IPv6 text, which always holds a `:` (`NetworkTexts.Faithful`), whether a regular expression
compiles, whether an SQL statement or a schema inspection fails, the clock, and which requests the parts of a handler that are
not modelled refuse.

## Where the code and its documentation disagree

The model follows the code; each disagreement is proved and, where there is a condition under which the promise is kept, that
condition is exact.

- `app/services/condition_engine.py` promises that a missing field or malformed text never matches.
  - A missing field: no condition matches on it, and forgetting any facts of any request opens no tree whose conditions
    stand under an even number of NOT groups (`ForgettingIsMonotone`, `ForgettingOpensNoPolicy`). A NOT group does open
    (`ForgettingOpensNot`); on a request about which nothing is known that is decided by the operators alone
    (`EmptyContextExact`, `NotFreeFailsClosed`).
  - Malformed text: the save refuses a network it cannot read, but the policy simulator passes any source text on. A saved
    source condition matches an unreadable source exactly under `not_equal` and `is_not_in_cidr`
    (`UnreadableSourceExact`, `MalformedExact`, `GarbageIsAdmitted`); a saved tree without these operators treats it as no
    source at all (`UnreadableIsAbsent`).
- `installer/uninstall.py` promises to leave preserved paths in place. A preserved directory that is itself the target and is
  empty is removed; that is the only exception (`PromiseExact`, `EmptyPreservedGoes`). The targets the uninstaller really
  uses never meet it (`CheckoutKept`).
- `app/api/routes_devices.py` refuses overlapping devices, but never looks at the IPv6 network (`Ipv6Unchecked`,
  `SameIpv6Twice`): IPv6 networks that are pairwise apart stay so exactly when the submitted one is absent or shares no
  address with another device's (`Ipv6KeptExactly`, `Ipv6KeptOtherwise`).
- `_apply_one` checks before it contacts the device and inserts afterwards. An insert that is accepted in between other
  writes keeps the networks disjoint exactly when the same check would still pass (`LateInsertExact`), and so does every
  interleaving made of such inserts (`TimelyRunsKeepDisjoint`); two runs for one free network that both check before either
  inserts are both accepted and break it (`TwoRunsAtOnce`).
- The Groups page (`app/api/routes_tacacs_groups.py`) is meant to show which policies target a group. It omits none, but a
  policy with a tree is listed under the group of its flat column too, which is no longer read: that is one too many exactly
  when the tree does not refer to that group (`ListedExactly`, `SaveTreeLeavesOver`, `OnlyInForceDecides`).
- `app/schemas/policy.py` bounds the priority to 0..100000 in requests and in replies, but a creation shifts the stored numbers
  without a bound. They stay in range exactly when no policy holds 100000 yet; moves keep them in range (`PlacedInRange`,
  `TwoAtTheEnd`).
- `app/api/routes_policies.py` lets a reorder name only some policies; the commit accepts it exactly when no policy left out
  already has a number that is handed out (`ReorderExact`, `PartialReorderCanConflict`).
- `app/api/routes_admin_users.py` guards the last active superadmin against anybody. The guard can only ever stop that
  superadmin itself (`LastGuardIsForOneself`).

Two places where the documentation itself sets the limit. `docs/RELEASING.md` has ordinary commits change the VERSION file, so
a release is only sure to raise the version of the commit before it (`ReleasesAreSafe`); versions strictly increase along main
when others leave that file alone (`QuietRunIncreases`). `app/database.py` reports what it cannot add: a column stays missing
exactly when its type cannot be rendered or its statement fails (`DriftPerColumn`, `DriftClearedExactly`, `UnrenderableStays`).

## Model

| member | source | states |
|---|---|---|
| `ConditionTrees.FaultExact` | app/api/routes_policy_conditions.py:101-160 | the left-to-right traversal reports a fault exactly when some node, at whatever depth, is empty, has a forbidden operator, a missing, malformed or dangling reference, or bad address text |
| `ConditionTrees.ConditionExact` | app/api/routes_policy_conditions.py:101-142 | a condition is accepted exactly when its operator exists for its type and its reference is to a known row, or its text is a readable network or address; it is stored with the submitted type and operator, the row referred to under its display name, or the submitted text |
| `ConditionTrees.RefusalExact` | app/api/routes_policy_conditions.py:101-137 | which refusal each unacceptable condition gets, the operator being looked at first |
| `ConditionTrees.StoresExact` | app/api/routes_policy_conditions.py:145-160 | a payload is accepted exactly when some tree says what it says, operator by operator, condition by condition, at every depth, and that tree is the one stored |
| `ConditionTrees.FirstLeafFault` | app/api/routes_policy_conditions.py:155-156 | of a group's conditions the first unacceptable one is reported |
| `ConditionTrees.FirstForestFault` | app/api/routes_policy_conditions.py:157-158 | of its subgroups the first with a fault, by its own first fault |
| `ConditionTrees.ResubmissionKeeps` | app/api/routes_policy_conditions.py:73-98 | sending a tree back as it was read is accepted and stores the same tree |
| `ConditionTables.ReadBack` | app/api/routes_policy_conditions.py:73-98 | querying and sorting from a printed root rebuilds the same operators, condition sequence and child sequence at every depth, whatever else the tables hold |
| `ConditionTables.TopQueries` | app/api/routes_policy_conditions.py:74-82 | the two queries at a printed group return exactly its own conditions and its subgroups' rows, in payload order |
| `ConditionTables.AnyOrderReads` | app/api/routes_policy_conditions.py:74-82 | positions count up from 0 in every group, so the order in which the database returns the rows does not matter |
| `ConditionRows.SortSorted` | app/api/routes_policy_conditions.py:75-80 | sorting by position leaves rows alone that are already in position order |
| `ConditionRows.SortKeepsRows` | app/api/routes_policy_conditions.py:75-80 | sorting by position returns the same rows |
| `ConditionRows.RowsInRange` | app/api/routes_policy_conditions.py:145-160 | the group rows written for a tree carry the policy id at every depth, ids that are new, and parents created before their children |
| `ConditionDeletion.CascadeIsPolicy` | app/models/policy_condition_group.py:54-59 | in a well-formed store, cascading from a root deletes exactly the policy's group rows |
| `ConditionDeletion.NoOrphans` | app/services/condition_engine.py:63-79 | a policy without a root has no group rows at all, so the root query misses nothing |
| `ConditionDeletion.DeleteKeepsValid` | app/api/routes_policy_conditions.py:212-215 | deleting a policy's groups keeps the store well formed: one root a policy, parents of the same policy and older than their children, no stray condition |
| `ConditionDeletion.InsertKeepsValid` | app/api/routes_policy_conditions.py:145-160 | writing a tree for a policy without rows keeps the store well formed |
| `ConditionDeletion.InsertedReads` | app/api/routes_policy_conditions.py:217-219 | the tree read for the reply is the tree just written |
| `ConditionDeletion.DeleteAgrees` | app/api/routes_policy_conditions.py:212-215 | after deleting one policy's groups every query about another policy answers as before |
| `ConditionDeletion.InsertAgrees` | app/api/routes_policy_conditions.py:145-160 | after writing one policy's tree every query about another policy answers as before |
| `ConditionDeletion.ReadsAgree` | app/api/routes_policy_conditions.py:73-98 | stores whose queries agree about a policy read back the same tree for it |
| `ConditionRequests.ClearingAgrees` | app/api/routes_policies.py:229-231 | deleting every group of a policy and deleting its root with the cascade remove the same rows |
| `ConditionRequests.ReplacedRows` | app/api/routes_policy_conditions.py:208-218 | after a replacement the policy's rows are exactly the new tree's and no other policy's row is touched |
| `ConditionRequests.StepRefines` | app/api/routes_policy_conditions.py:189-239 | every write request keeps the store well formed and acts on its rows as it does on a plain map from policy to name, legacy columns and tree; a rejected one changes nothing |
| `ConditionRequests.Run` | app/api/routes_policies.py:192-252 | every run of requests keeps the store well formed: at most one root a policy, parents of the same policy and older than their children, no stray condition, no name twice |
| `ConditionRequests.RunRefines` | app/api/routes_policies.py:192-252 | every run of tree submissions, policy writes, migrations and deletions on the rows means the same run on that map |
| `ConditionSession.CascadeSet` | app/models/policy_condition_group.py:57-59 | one pass over the table collects exactly the groups that hang below a root |
| `ConditionSession.Session.BuildTree` | app/api/routes_policy_conditions.py:145-160 | appends exactly the rows of the tree, positions and parent pointers included, or stops with the first fault |
| `ConditionSession.Session.BuildChildren` | app/api/routes_policy_conditions.py:157-158 | writes all subgroups in order, or stops with the first fault among them |
| `ConditionSession.Session.AddConditions` | app/api/routes_policy_conditions.py:155-156 | adds all conditions in order with their display names, or stops with the first fault |
| `ConditionSession.Session.DeleteExisting` | app/api/routes_policy_conditions.py:212-215 | removes the existing root with everything below it |
| `ConditionSession.Session.ReplaceConditionTree` | app/api/routes_policy_conditions.py:190-219 | commits the whole new tree, which says what was submitted, and returns it, or reports the first fault and leaves the store as it was |
| `ConditionSession.Session.ReplaceScope` | app/api/routes_policies.py:229-233 | every group of the policy goes and the submitted tree, if any, comes in its place, or the first fault in it is reported |
| `ConditionSession.Session.MutatePolicy` | app/api/routes_policies.py:192-252 | the tree part of a policy write: all of it is committed exactly when it is admissible, otherwise nothing is |
| `ConditionSession.Session.RemovePolicy` | app/services/dependency_deletion.py:225-233 | a policy that nothing stands in the way of goes with exactly its own groups and conditions |
| `ConditionSession.Session.MigrateConditions` | app/api/routes_policy_conditions.py:223-239 | writes the equivalent tree, or refuses a policy that has one already or has no legacy columns |
| `ConditionSession.Session.MigrateLegacyPolicy` | app/services/condition_engine.py:276-304 | adds one AND root with one leaf per legacy column that is set, in order |
| `ConditionEngine.EngineFollowsTree` | app/services/condition_engine.py:170-220 | evaluating stored rows gives the verdict of the tree those rows read as |
| `ConditionEngine.ReferenceVerdict` | app/services/condition_engine.py:115-143 | a condition on a row matches under `equal` exactly the requests that carry that row, under `not_equal` exactly those that carry another; without a reference, or with any other operator, none |
| `ConditionEngine.SourceVerdict` | app/services/condition_engine.py:145-165 | a source condition compares texts or asks for membership; a request without a source matches none |
| `ConditionEngine.GroupVerdict` | app/services/condition_engine.py:170-220 | AND matches exactly when everything in the group is met, OR when something is, NOT when not everything is, and an empty group never |
| `ConditionEngine.ColumnsVerdict` | app/services/policy_engine.py:83-130 | without a tree a policy matches exactly the requests that carry every row its columns name |
| `ConditionEngine.SavedReference` | app/api/routes_policy_conditions.py:190-219 | a policy saved with one condition on a row decides by it, AND, OR or NOT |
| `ConditionEngine.PolicyMatchesMeaning` | app/services/policy_engine.py:284-294 | a policy is decided by its tree if it has one and by its legacy columns otherwise |
| `ConditionEngine.SaveTreeDecides` | app/api/routes_policy_conditions.py:190-219 | after a submission the policy decides every request as the submitted tree does, and every other policy as before |
| `ConditionEngine.SavePolicyDecides` | app/api/routes_policies.py:192-252 | after a policy write the policy decides as the submitted tree or columns, and every other policy as before; a refused write changes nothing |
| `ConditionEngine.DeletePolicyDecides` | app/services/dependency_deletion.py:225-233 | after a deletion every other policy decides as before |
| `ConditionEngine.LegacyTreeLossless` | app/services/condition_engine.py:234-304 | the migrated tree decides every request as the legacy columns did |
| `ConditionEngine.MigrationKeepsVerdicts` | app/services/condition_engine.py:234-304 | migrating one policy changes no policy's verdict on any request |
| `ConditionEngine.ForgettingIsMonotone` | app/services/condition_engine.py:97-104 | forgetting facts, of any kind, never opens a tree whose conditions all stand under an even number of NOT groups, and never shuts one where all stand under an odd number |
| `ConditionEngine.ForgettingOpensNoPolicy` | app/services/condition_engine.py:18-27 | so a policy with such a tree, or with none, matches no request it would refuse if more were known |
| `ConditionEngine.ForgettingOpensNot` | app/services/condition_engine.py:97-104 | a saved NOT group that refuses a device admits the same request without its device |
| `ConditionEngine.EmptyContextExact` | app/services/condition_engine.py:18-27 | a tree admits a request about which nothing is known exactly when its operators open it |
| `ConditionEngine.NotFreeFailsClosed` | app/services/condition_engine.py:18-27 | without NOT groups such a request is never admitted |
| `SourceAddresses.ReadableSourceExact` | app/services/condition_engine.py:145-163 | a readable source matches under `is_in_cidr` exactly when it lies between the first and the last address of the network, under `is_not_in_cidr` exactly when it does not; under `equal` exactly the condition's own text |
| `SourceAddresses.SavedBlock` | app/api/routes_policy_conditions.py:126-142 | a policy saved with one condition on a block, written with whatever host bits, matches exactly the sources that agree, or do not agree, on its leading bits |
| `SourceAddresses.UnreadableSourceExact` | app/services/condition_engine.py:144-163 | a saved source condition matches an unreadable source exactly under `not_equal` and `is_not_in_cidr` |
| `SourceAddresses.MalformedExact` | app/services/condition_engine.py:154-163 | when the network or the source given cannot be read, a CIDR condition matches exactly under `is_not_in_cidr` |
| `SourceAddresses.UnreadableIsAbsent` | app/services/condition_engine.py:18-27 | a saved tree without those two operators decides a request with an unreadable source as it does without a source |
| `SourceAddresses.GarbageIsAdmitted` | app/api/routes_policy_simulator.py:51-106 | a policy saved with one `is_not_in_cidr` condition on any readable network admits the source `abc` |
| `Decisions.Evaluate` | app/services/policy_engine.py:230-309 | returns the matching enabled policy with the smallest number, and none only if none matches |
| `Decisions.OneDecision` | app/services/policy_engine.py:230-309 | there is never more than one decision |
| `Decisions.MigrationKeepsDecision` | app/services/condition_engine.py:234-304 | migrating a policy changes no decision on any request |
| `Decisions.SaveTreeKeepsDecision` | app/api/routes_policy_conditions.py:190-219 | replacing a tree changes no decision on a request that neither the old scope nor the new tree matches |
| `ReferenceIndex.JoinFindsTree` | app/api/routes_tacacs_groups.py:76-85 | the join on stamped policy ids finds a group exactly when some leaf, at any depth of the policy's tree, refers to it |
| `ReferenceIndex.FlatNames` | app/api/routes_tacacs_groups.py:69-72 | lists exactly the policies whose flat column names a group, once each |
| `ReferenceIndex.TreeRows` | app/api/routes_tacacs_groups.py:76-85 | the joined rows are exactly the references in the stored trees |
| `ReferenceIndex.ReferencingPolicyNames` | app/api/routes_tacacs_groups.py:51-93 | lists a policy under a group exactly when its flat column or its tree refers to the group, and lists it once |
| `ReferenceIndex.ListedExactly` | app/api/routes_tacacs_groups.py:51-93 | the list omits no group that is in force for a policy, and adds one exactly where the flat column of a policy with a tree names a group the tree does not refer to |
| `ReferenceIndex.SaveTreeLeavesOver` | app/services/condition_engine.py:260-264 | saving a tree leaves the flat column's group listed but not in force exactly when the tree does not refer to it |
| `ReferenceIndex.OnlyInForceDecides` | app/services/policy_engine.py:284-294 | a policy decides alike for the members of any two groups that are not in force for it, whatever is listed |
| `Priorities.PlacedWell` | app/api/routes_policies.py:139-180 | after creating at or moving to any number all numbers are distinct, the policy has the number asked for and the others keep their order, for sparse numbering too |
| `Priorities.OthersByOne` | app/api/routes_policies.py:155-180 | who else is renumbered: only policies from the number asked for up to where the policy came from, or to the end, each by one in the direction that closes the gap |
| `Priorities.MidwayCollides` | app/api/routes_policies.py:149-174 | before the moved row is written, two rows hold the same number exactly when some row was next to it on the side it moves to |
| `Priorities.MoveBack` | app/api/routes_policies.py:155-174 | moving a policy away and back restores every number |
| `Priorities.PlacedDense` | app/api/routes_policies.py:139-180 | a list numbered 0..n-1 stays so exactly under moves inside the range and inserts at up to n |
| `Priorities.PlacedInRange` | app/schemas/policy.py:37 | from numbers in 0..100000, placing a policy keeps them there exactly if it is a move or no policy holds 100000 yet |
| `Priorities.TwoAtTheEnd` | app/api/routes_policies.py:175-180 | two creations at 100000 leave a policy numbered 100001 |
| `Priorities.ReorderExact` | app/api/routes_policies.py:381-397 | a reorder is committed exactly when no policy left out holds a number that is handed out |
| `Priorities.ReorderWithoutRepeats` | app/api/routes_policies.py:394-395 | without repeats: exactly when every policy left out is numbered beyond the list; the named ones are numbered in list order |
| `Priorities.FullReorder` | app/api/routes_policies.py:394-397 | a reorder naming every policy once numbers the list 0..n-1 in that order |
| `Priorities.PartialReorderCanConflict` | app/api/routes_policies.py:394-397 | a reorder naming some policies can be refused at commit |
| `Priorities.DecisionUnmoved` | app/services/policy_engine.py:65-80 | creating or moving a policy leaves the first match unchanged for every request the policy does not match |
| `PolicyList.Table.MakeRoom` | app/api/routes_policies.py:139-180 | shifts exactly the rows in the affected range by one, in place |
| `PolicyList.Table.Mutate` | app/api/routes_policies.py:192-252 | the numbering part of a policy write: distinct names and numbers are kept, a refused write restores every row |
| `PolicyList.Table.Number` | app/api/routes_policies.py:394-395 | numbers the named rows by position, the last one winning |
| `PolicyList.Table.Reorder` | app/api/routes_policies.py:381-398 | an unknown id changes nothing; otherwise the reorder is committed exactly when the final numbers are distinct, and undone if not |
| `Versions.ParsePrint` | scripts/release.py:13-19 | printing a version and parsing it gives it back |
| `Versions.PrintParse` | scripts/release.py:13-19 | an accepted text is the canonical print of the version it parses to |
| `Versions.BumpedLeast` | scripts/release.py:16-18 | each increment gives the least version above that differs in that part or an earlier one |
| `Versions.BumpOrder` | scripts/release.py:12-19 | the four increments are strictly ordered, and the revision increment is the immediate successor |
| `Versions.Bump` | scripts/release.py:12-19 | overwrites the slots in place and prints that version; refuses any text that is not four canonical numerals |
| `Versions.Latest` | scripts/release.py:42 | the maximum of the merged tags |
| `Versions.CheckPrepared` | scripts/release.py:33-46 | a prepared version is tagged exactly when it is new and one increment above the greatest merged tag, if there is one |
| `Versions.PreparedExceeds` | scripts/release.py:39-44 | such a version exceeds every merged tag |
| `Decimals.ValuePrint` | scripts/release.py:15-19 | a printed numeral is canonical and reads as its number |
| `Decimals.PrintValue` | scripts/release.py:13-15 | a canonical numeral is the print of its value |
| `ReleaseProtocol.TagsBehindMain` | docs/RELEASING.md:5-11 | where every tag is on main and main only ever rose, no release tag is ahead of the VERSION file |
| `ReleaseProtocol.HeadDecides` | scripts/release.py:59-71 | there the head check alone decides a push |
| `ReleaseProtocol.TagDecides` | scripts/release.py:59-71 | elsewhere the tag can decide: a tag off main, pushed by somebody else after the check, makes the push fail although main has not moved |
| `ReleaseProtocol.PushExact` | scripts/release.py:59-71 | in every reachable state the atomic push succeeds exactly when main is still the head that was checked and the tag is still free |
| `ReleaseProtocol.RunKeepsInv` | scripts/release.py:26-72 | every interleaving of publishers, ordinary pushes and foreign tags keeps the invariant, moves no tag and only extends main |
| `ReleaseProtocol.ReleasesAreSafe` | scripts/release.py:26-72 | from any history and tags, however the steps interleave: no tag moves, main only grows, each release raises the version of the commit before it, no two publishers release the same version, and each published version was new and tags the publisher's own commit on main |
| `ReleaseProtocol.QuietRunIncreases` | scripts/release.py:26-72 | when others leave the VERSION file alone, a release exceeds every version main has held since the run began |
| `ReleaseProtocol.OneWinnerPerHead` | scripts/release.py:69-71 | of two publishers that checked the same head at most one publishes |
| `ReleaseProtocol.ChecksAreMade` | scripts/release.py:26-64 | in every run a publisher goes only by a head that was main when it looked, and by a version, one increment above that head's, whose tag was free when it looked |
| `ReleaseProtocol.UninterruptedIsRun` | scripts/release.py:26-72 | a publisher left alone is one run of the protocol |
| `ReleaseProtocol.Repository.PushAtomic` | scripts/release.py:69-71 | both refs move or neither does |
| `ReleaseProtocol.Repository.Publish` | scripts/release.py:26-72 | the default and prepare modes are that run; they succeed exactly on a clean checkout of the remote head with a free tag, and publish both refs or neither |
| `Base64Url.DecodePadded` | collect_fingerprint.py:86-98 | the lenient decoder undoes the padded encoder, for every byte sequence |
| `Base64Url.RepadRestores` | collect_fingerprint.py:98 | `-len % 4` restores exactly the stripped padding; the unpadded length is never 1 mod 4; the text stays within the alphabet |
| `Base64Url.StripPadExact` | collect_fingerprint.py:86 | stripping removes the padding and nothing else |
| `Base64Url.ForeignIgnored` | collect_fingerprint.py:98 | characters outside the alphabet do not change what is decoded |
| `Base64Url.PaddedThen` | collect_fingerprint.py:98 | what follows the padding is never looked at; behind an encoding without padding the decoder reads on |
| `Base64Url.PadMeans` | collect_fingerprint.py:98 | where a pad is skipped, where it ends the text, and that a text must not end within a group |
| `Base64Url.UnpaddedReads` | collect_fingerprint.py:86-98 | without the padding put back only encodings that had none are read |
| `Base64Url.DecodesAlphabet` | collect_fingerprint.py:98 | which characters the decoder reads, and as what |
| `Base64Url.TestVectors` | collect_fingerprint.py:86 | the encoder's own output on test vectors of RFC 4648 |
| `LicenceRequest.AcceptedExactly` | collect_fingerprint.py:90-101 | a framed payload is accepted, with any space around it, exactly when its checksum field is the first sixteen characters of its digest and it is JSON |
| `LicenceRequest.WrittenFields` | collect_fingerprint.py:83-87 | a file written has three fields: the header, the first sixteen digits of the payload's digest, and the payload |
| `LicenceRequest.DecodeExact` | collect_fingerprint.py:90-101 | every text: read exactly when it has three fields, the first is the header, the third decodes, the second is sixteen digits of the digest of what it decodes to, and that is JSON; which error each other text gets |
| `LicenceRequest.RequestRoundTrip` | collect_fingerprint.py:83-101 | every request written is read back, with any space around it |
| `LicenceRequest.WebRequestAccepted` | app/api/routes_license.py:250-253 | the file the web page offers is accepted by the same decoder |
| `Texts.SplitJoin` | collect_fingerprint.py:94 | splitting undoes joining when no part holds the separator |
| `Texts.StripPadding` | collect_fingerprint.py:94 | stripping removes exactly the surrounding space |
| `Texts.StripExact` | collect_fingerprint.py:94 | any text is what stripping leaves of it with space around, and what is left begins and ends with none |
| `Networks.NetworkOfCanonical` | app/schemas/device.py:23-37 | masking an address gives an aligned block that contains it |
| `Networks.NetworkOfExact` | app/schemas/device.py:23-37 | that block has the prefix asked for and holds exactly the addresses of the version that agree with the given one on that many leading bits |
| `Networks.ContainsInterval` | app/security.py:146 | membership by masking is lying in the block's interval |
| `Networks.NestedOrDisjoint` | app/api/routes_devices.py:71 | of two aligned blocks the one with the longer prefix lies inside the other or shares no address with it |
| `Networks.OverlapExact` | app/api/routes_devices.py:71 | the four-clause overlap test is true exactly when the blocks share an address, and is symmetric |
| `NetworkTexts.ParsePrintV4` | app/schemas/device.py:30-37 | the printed dotted quad of an address reads as that address |
| `NetworkTexts.PrintParseV4` | app/schemas/device.py:30-37 | an address is read in its one spelling only: four numerals below 256 without leading zeros |
| `NetworkTexts.PrefixedExact` | app/schemas/device.py:27 | an address with a prefix, whatever its host bits, reads as the network of that prefix, of exactly the addresses that agree on that many bits |
| `NetworkTexts.BareExact` | app/services/condition_engine.py:156 | a bare address in place of a network reads as the network of itself alone |
| `NetworkTexts.MaskExact` | app/schemas/device.py:27 | a dotted text in place of a prefix reads as the prefix it is the netmask of, or else, zeros and ones apart, the hostmask of; any other is refused |
| `NetworkTexts.NetmaskReads` | app/schemas/device.py:27 | a network written with its netmask reads as it does with its prefix |
| `NetworkTexts.ParsedNetworkCanonical` | app/schemas/device.py:27 | whatever network text is accepted, prefix length, netmask or hostmask, denotes an aligned block |
| `NetworkTexts.NetTextReads` | app/schemas/device.py:37 | a printed network reads back as itself |
| `NetworkTexts.EntryMeans` | app/security.py:119-124 | a bare address stands for the network of itself alone |
| `NetworkTexts.NormalizeIdempotent` | app/schemas/device.py:23-37 | normalised text stands for the network the input stood for, of the version asked for, and normalising it again changes nothing |
| `NetworkTexts.NormalizeContains` | app/schemas/device.py:23-37 | the normalised network contains the address that was given |
| `NetworkTexts.NormalizeExact` | app/schemas/device.py:23-37 | normalising an address with a prefix, spaced in any way, clears the host bits and keeps the prefix; the other version is refused |
| `Allowlist.ParseAllowed` | app/security.py:99-126 | the loop reads all non-blank entries in order, or reports the first unreadable one |
| `Allowlist.CollectedExact` | app/security.py:117-126 | reading succeeds exactly when every entry is readable, and gives exactly the networks of the entries |
| `Allowlist.AnyContains` | app/security.py:146 | true exactly when some network holds the address |
| `Allowlist.IsSourceIpAllowed` | app/security.py:129-146 | allowed exactly when there are no entries or some entry's network holds the source; an unreadable source is refused |
| `Allowlist.PrefixAdmits` | app/security.py:129-146 | an entry that is an address with a prefix, whatever its host bits, admits exactly the sources that agree with it on that many bits |
| `Allowlist.EntriesOfJoin` | app/security.py:114-117 | joining parts with commas, spaced or blank in any way, has exactly their entries |
| `Allowlist.OnlyEntriesMatter` | app/security.py:129-146 | two lists with the same entries, in whatever order, give the same verdict |
| `DeviceInventory.LibrarySound` | app/schemas/device.py:23-57 | the schema hands on only text that reads as an aligned network of the right version |
| `DeviceInventory.ClashExact` | app/api/routes_devices.py:59-75 | the overlap check fires exactly when some address belongs to both devices |
| `DeviceInventory.AtMostOneMatches` | app/api/routes_devices.py:45-58 | with pairwise disjoint networks no source address has two devices to answer for it |
| `DeviceInventory.StepKeepsValid` | app/api/routes_devices.py:170-294 | each accepted or refused request keeps ids and names unique and networks pairwise disjoint |
| `DeviceInventory.RunKeepsDisjoint` | app/api/routes_devices.py:45-76 | so does every run of creations, updates, deletions and scan-and-apply runs, one at a time |
| `DeviceInventory.ValidatedExact` | app/schemas/device.py:40-73 | what the request schema makes of a payload: both networks as normalised, a blank IPv6 one as none |
| `DeviceInventory.CreateExact` | app/api/routes_devices.py:171-223 | a device is created exactly when its fields are valid, there is room for one more, its name is new and no device answers for any of its addresses; it has what was submitted and a new id |
| `DeviceInventory.UpdateExact` | app/api/routes_devices.py:249-284 | a device is changed exactly when its new name and addresses are no other device's; it then has what was submitted, in its place and under its id |
| `DeviceInventory.DeleteExact` | app/services/dependency_deletion.py:320-326 | a device is deleted exactly when it exists and nothing blocks that; it alone goes |
| `DeviceInventory.DiscoveredExact` | app/api/routes_network_scan.py:157-234 | a scan-and-apply run adds a device exactly when the device took the commands, there is room, no device answers for any of its addresses and its name, disambiguated if taken, is new |
| `DeviceInventory.ResaveIsFree` | app/api/routes_devices.py:66-67 | saving a device with what it already has is accepted and changes nothing |
| `DeviceInventory.Ipv6Unchecked` | app/api/routes_devices.py:170-294 | the IPv6 network plays no part in the reply to a creation or an update, nor in any other field of the row |
| `DeviceInventory.Ipv6KeptExactly` | app/api/routes_devices.py:170-294 | an accepted creation or update keeps the IPv6 networks pairwise apart exactly when the submitted one is absent or shares no address with another device's |
| `DeviceInventory.Ipv6KeptOtherwise` | app/api/routes_devices.py:170-294 | refusals, deletions and scan-and-apply runs keep them apart |
| `DeviceInventory.SameIpv6Twice` | app/api/routes_devices.py:45-76 | two devices can be created with any one IPv6 network |
| `DeviceInventory.LateInsertExact` | app/api/routes_network_scan.py:157-234 | whatever came since its check, a run's insert keeps the guarantee exactly when it is refused or the check would still pass |
| `DeviceInventory.TimelyRunsKeepDisjoint` | app/api/routes_network_scan.py:129-241 | every interleaving of the stages of any runs with any requests keeps the networks disjoint if each accepted insert comes while its check would still pass |
| `DeviceInventory.UninterruptedRun` | app/api/routes_network_scan.py:129-241 | a run whose stages follow each other does what the one request does |
| `DeviceInventory.BothAccepted` | app/api/routes_network_scan.py:157-234 | two runs for one free network that both check before either inserts both pass, take their names and are both accepted |
| `DeviceInventory.TwoRunsAtOnce` | app/api/routes_network_scan.py:157-234 | the table they leave has unique ids and names, but two devices with one network |
| `DeviceInventory.Inventory.CheckNoOverlap` | app/api/routes_devices.py:45-76 | finds the first clashing device, skipping the one excluded, rows that cannot be read and the other version |
| `DeviceInventory.Inventory.CreateDevice` | app/api/routes_devices.py:171-223 | adds the row or leaves the table as it was, with the reply of the first failing check |
| `DeviceInventory.Inventory.UpdateDevice` | app/api/routes_devices.py:249-284 | rewrites the row field by field, and restores it if the name is taken |
| `DeviceInventory.Inventory.DeleteDevice` | app/services/dependency_deletion.py:320-326 | removes exactly that row unless it is unknown or something depends on it |
| `DeviceInventory.Inventory.ApplyOne` | app/api/routes_network_scan.py:129-241 | a run without interference adds a device only if nothing clashes, the device took the commands, there is room and the disambiguated name is free |
| `Uninstall.FileSystem.RemovePreserving` | installer/uninstall.py:98-134 | leaves exactly the kept entries, what is inside them, and the directories that hold something kept or leading to it, for any preserved paths, existing or not |
| `Uninstall.FileSystem.HandleEntry` | installer/uninstall.py:116-129 | one entry is kept as it is, emptied by the same rule, or removed with all below it; it counts as kept in the first two cases |
| `Uninstall.EntrySurvives` | installer/uninstall.py:116-129 | what the three relationships decide for one entry is what the rule for the whole directory says |
| `Uninstall.SurvivorsExact` | installer/uninstall.py:98-134 | with existing preserved paths the survivors are exactly the ancestors, descendants and the paths themselves, but for an empty preserved target |
| `Uninstall.PromiseExact` | installer/uninstall.py:98-106 | the promise to leave preserved paths holds exactly when the target is not itself a preserved empty directory |
| `Uninstall.EmptyPreservedGoes` | installer/uninstall.py:131-134 | a preserved empty directory is removed |
| `Uninstall.FileSystem.RemoveDirectories` | installer/uninstall.py:137-161 | over all targets: each is emptied by its rule and nothing outside them is touched |
| `Uninstall.FileSystem.Uninstall` | installer/uninstall.py:137-161 | the same for the directories the installer creates |
| `Uninstall.TargetsSeparate` | installer/app_install.py:39-49 | none of those directories lies in another, and the checkout lies strictly inside the install root only |
| `Uninstall.CheckoutKept` | installer/uninstall.py:137-161 | after an uninstall that keeps the checkout, it and the way to it are as they were, nothing else of the installation is left and nothing outside was touched |
| `Uninstall.WhatIsLeft` | installer/uninstall.py:137-161 | without a checkout to keep, of the installation exactly the logs are left if they are to be kept and nothing if not, and nothing else was touched |
| `SchemaMigration.AnythingKept` | app/database.py:111-123 | whatever statements are run and whichever fail, no table, column, row or value is lost, no type changes, a NOT NULL goes only where it is dropped, and an added column holds its default or NULL in every row |
| `SchemaMigration.RowsStayValid` | app/database.py:118-122 | rows stay valid under every such run whose defaults are not NULL |
| `SchemaMigration.PlanExact` | app/database.py:143-225 | which statements are emitted, and why |
| `SchemaMigration.MigrationIsSafe` | app/database.py:99-225 | whatever fails: nothing is lost or retyped, every change is one the models ask for, every row stays valid |
| `SchemaMigration.AddedAsDeclared` | app/database.py:163-186 | an added column has its model's type and default, and is NOT NULL only if the model is |
| `SchemaMigration.AddedExactly` | app/database.py:163-186 | an added column that the model declares NOT NULL with a plain default is NOT NULL and every row holds that default; in every other case it is nullable and every row holds NULL |
| `SchemaMigration.ColumnAppears` | app/database.py:163-192 | an absent column is there afterwards exactly when some statement adding it has succeeded |
| `SchemaMigration.DriftPerColumn` | app/database.py:99-192 | whatever fails and whatever cannot be inspected, a missing column stays missing exactly when its type cannot be rendered or its own statement did not succeed |
| `SchemaMigration.MigratedDrift` | app/database.py:155-161 | with no failure exactly the columns whose type cannot be rendered stay missing |
| `SchemaMigration.UnrenderableStays` | app/database.py:155-161 | a column without a renderable type stays missing, and nothing is emitted for it |
| `SchemaMigration.DriftClearedExactly` | app/database.py:99-128 | the column drift is cleared exactly when every missing column has a renderable type |
| `SchemaMigration.SecondRunIsIdle` | app/database.py:123 | a second run emits no statement; in particular every NOT NULL the models no longer impose is gone |
| `SchemaMigration.Database.ApplyAdditiveColumnMigrations` | app/database.py:143-225 | the nested loops emit exactly the planned statements, in order, and leave what running them leaves |
| `SchemaMigration.Database.Attempt` | app/database.py:187-192 | a statement runs in its own transaction and a failure changes nothing |
| `SchemaMigration.CheckSchemaDrift` | installer/install_state.py:142-178 | reports exactly the absent tables and, for the others, the missing columns; it is empty exactly when nothing is missing |
| `SchemaMigration.AbsentExact` | installer/install_state.py:155-165 | the absent tables reported are the model tables that do not exist, each once |
| `SchemaMigration.AbsentInOrder` | installer/install_state.py:155-165 | in the order of the models |
| `SchemaMigration.GenerateMigrationSql` | installer/install_state.py:181-211 | one statement for every reported column and no others, none twice |
| `SchemaMigration.ProposedAsDeclared` | installer/install_state.py:181-211 | a column they add has its model's type, printed from the type object if it cannot be rendered, is nullable and holds NULL in every row |
| `SchemaMigration.ProposalClearsDrift` | installer/install_state.py:181-211 | running them, in whatever order, leaves no column missing and keeps every row, value and constraint |
| `LoginThrottle.Throttle.IsLockedOut` | app/api/routes_auth.py:35-39 | prunes the list to the recent failures and compares their number |
| `LoginThrottle.Throttle.Login` | app/api/routes_auth.py:51-85 | the verdict from the pruned list is the verdict from the full history, and the lists keep agreeing with it |
| `LoginThrottle.AfterRefines` | app/api/routes_auth.py:35-47 | every handled attempt keeps every list in agreement with the history and at most five long |
| `LoginThrottle.SixFailuresSpan` | app/api/routes_auth.py:30-47 | in every run any six failures in a row without a success span at least a minute |
| `LoginThrottle.LockoutExact` | app/api/routes_auth.py:30-39 | a user is locked out exactly when there are five failures since the last success and the fifth last of them is less than a minute old |
| `LoginThrottle.AttemptExact` | app/api/routes_auth.py:51-85 | every attempt of every run is turned away exactly while its user is locked out, and otherwise succeeds exactly when credentials, account and address are good |
| `LoginThrottle.FailuresExact` | app/api/routes_auth.py:42-47 | the failures that count are the user's own since the latest success, in order |
| `LoginThrottle.LockedAttemptsDoNotExtend` | app/api/routes_auth.py:52-56 | attempts during a lockout change no later verdict |
| `LoginThrottle.OthersDoNotCount` | app/api/routes_auth.py:30-47 | nobody else's attempts do either |
| `LoginThrottle.PruneEarly` | app/api/routes_auth.py:37-38 | pruning early does not change what is recent later |
| `EmittedText.TwoReplacesAreOne` | app/api/routes_radius_policies.py:101 | the two successive replacements are one character-by-character escaping |
| `EmittedText.QuoteCloses` | app/services/config_compiler.py:120-126 | a left-to-right reader of the quoted value stops at exactly the emitted quote, whatever follows |
| `EmittedText.UnescapeEach` | app/services/config_compiler.py:120-126 | unescaping gives the value back |
| `EmittedText.AttributeLineReads` | app/api/routes_radius_policies.py:100-102 | an emitted attribute line is read to its last character and gives the value back |
| `EmittedText.Preview` | app/api/routes_radius_policies.py:91-107 | every attribute has its line, in order and at the right depth, between the header and the footer |
| `EmittedText.ClosesExactly` | app/schemas/command_set.py:101-105 | behind a slash-free pattern the reader stops at the closing slash exactly when the trailing run of backslashes is even; otherwise it runs on to the next one |
| `EmittedText.AcceptedPatternCloses` | app/schemas/command_set.py:36-123 | every accepted pattern ends, where it is emitted, at its own closing slash |
| `EmittedText.RuleReads` | app/services/config_compiler.py:607 | in the line of a safe pattern, what opens a rule stands before the pattern, and behind its closing slash the rule's own action |
| `EmittedText.SafeExact` | app/services/config_compiler.py:151-158 | which patterns are safe: not blank, none of the characters that end the pattern, the rule or the line, no control character, no odd run of backslashes at the end |
| `EmittedText.RenderProfile` | app/services/config_compiler.py:565-612 | the profile permits the shell at the policy's privilege level, then has each rule on its own line in order, then the default action; the first unsafe pattern stops it |
| `EmittedText.SchemaAndCompilerAgree` | app/services/config_compiler.py:136-158 | the schema's check and the compiler's own differ only by the length bound and the regex library's verdicts |
| `EmittedText.LiteralCloses` | app/database.py:172-174 | an SQL default with doubled quotes ends at its closing quote and reads as the value |
| `FleetReport.VisitsEach` | app/api/routes_security.py:624-637 | visiting the findings run by run counts each once |
| `FleetReport.RowsExact` | app/api/routes_security.py:634-663 | each device row counts the findings of its own run and no others |
| `FleetReport.RowsAddUp` | app/api/routes_security.py:632-663 | the high counts of the rows add up to critical plus high, and medium and low to theirs |
| `FleetReport.GroupByRun` | app/api/routes_security.py:624-626 | groups every finding under its run, in order |
| `FleetReport.Summarise` | app/api/routes_security.py:628-690 | rows, severity totals and category counts all come from the same findings; the categories add up to the number of failed findings |
| `FleetReport.MovesAtMostOne` | app/api/routes_security.py:638-648 | a failed finding adds one to the counters of its run's row, of the severities and of the categories together, or nothing where its severity has no counter; one that has not failed moves nothing |
| `FleetReport.MovesItsOwn` | app/api/routes_security.py:638-648 | which counters a failed finding moves: its severity's total, the row's counter for that severity, and its category's count |
| `FleetReport.CountedUp` | app/api/routes_security.py:638-648 | counting up finding by finding gives every total, and category counts that add up to the failed findings |
| `FleetReport.OverviewCounts` | app/api/routes_security.py:968-973 | the overview shows exactly the controls with a result, each with its counts over all results |
| `FleetReport.Detail` | app/api/routes_security.py:1178-1200 | the detail view has the same counts and the same status as the overview |
| `FleetReport.FrameworkStatuses` | app/api/routes_security.py:975-994 | every control has the status of its counts, and the three tallies count them |
| `FleetReport.WorstWins` | app/api/routes_security.py:933-990 | that status is the worst one recorded: failed if any result is, otherwise due for review if any is, otherwise passed if any is, and `na` if none counts |
| `AdminAccounts.StepKeeps` | app/api/routes_admin_users.py:91-197 | after every request the account that made it is still there and active, names are unique and an active superadmin remains |
| `AdminAccounts.RunKeepsAGovernor` | app/api/routes_admin_users.py:9-22 | every run of requests keeps an active superadmin and unique names, and after each of its requests the account that made it is still there and active |
| `AdminAccounts.OnlySuperadmins` | app/api/routes_admin_users.py:91-197 | only an active superadmin can do anything |
| `AdminAccounts.CreateExact` | app/api/routes_admin_users.py:92-118 | a creation is accepted exactly when the role exists, the limit leaves room and the name is new; it adds just the account asked for |
| `AdminAccounts.UpdateExact` | app/api/routes_admin_users.py:133-176 | an update is accepted exactly when the account exists, the name is free, the role exists and the requester neither deactivates itself, gives up the last superadmin's rights nor shuts itself out; the account is then just what was asked for |
| `AdminAccounts.DeleteExact` | app/api/routes_admin_users.py:180-197 | a deletion is accepted exactly for an existing account that is not the requester's; it alone goes |
| `AdminAccounts.UpdateKeeps` | app/api/routes_admin_users.py:132-176 | an update, accepted or not, leaves an active superadmin and an active requester |
| `AdminAccounts.DeleteKeeps` | app/api/routes_admin_users.py:179-197 | so does a deletion |
| `AdminAccounts.LastGuardIsForOneself` | app/api/routes_admin_users.py:146-151 | the guard for the last superadmin can fire only for the requester, when it is the only one |
| `AdminAccounts.Accounts.ActiveSuperadminCount` | app/api/routes_admin_users.py:75-79 | counts the active superadmins other than the one excluded |
| `AdminAccounts.Accounts.CreateAdminUser` | app/api/routes_admin_users.py:92-118 | adds the account or leaves the table as it was |
| `AdminAccounts.Accounts.UpdateAdminUser` | app/api/routes_admin_users.py:133-176 | rewrites the account field by field, and restores it if the role is unknown or the name is taken |
| `AdminAccounts.Accounts.DeleteAdminUser` | app/api/routes_admin_users.py:180-197 | removes exactly that account, never the requester's own |

## Left out

- References to deleted rows: `app/services/dependency_deletion.py` deletes a row that a condition refers to only together with
  the policies that do, so no run here makes a reference dangle.
- Row ids: UUIDs are numbers issued in creation order. Condition row ids, timestamps, descriptions and the ids echoed in
  replies are not modelled.
- Evaluation traces, command rules and privilege levels of a decision; only whether a policy matches and which one decides.
- `_mutate_policy` is modelled in two halves, the tree and the numbering; what else it checks, such as command sets, scope
  deployability and version records, is one verdict passed in. So is what may block the deletion of a policy.
- ON DELETE SET NULL on the legacy columns: deleting a group or device does not clear them here.
- Priorities are unbounded integers; the database column has 32 bits.
- The order in which `_referencing_policy_names` lists the names of one group.
- PolicyList.Table.Reorder: a malformed UUID among the ids is not told apart from an unknown one.
- ReleaseProtocol.Repository.Publish: the automatic mode's early return publishes nothing and is only a publisher that
  stops; the prepared mode's tag push is one of the tags others make, without a publisher of its own.
- ReleaseProtocol.ReleasesAreSafe: a history is identified with its commits, so two different histories never share a hash.
- Versions.Bump: `\d` also accepts digits outside ASCII in Python; here only 0 to 9 are digits.
- JSON, SHA-256 and the IPv6 text format, including scope ids, are parameters with the assumptions named above.
- DeviceInventory.RunKeepsDisjoint: `quick_add_device` compares addresses as text only and is not among the requests; secrets,
  groups and descriptions are reduced to whether they are acceptable, and column lengths are not modelled.
- DeviceInventory.Inventory.DeleteDevice: what depends on a device is a verdict passed in.
- Symbolic links to directories, permissions and other errors in the uninstaller; the order of directory entries.
- SQL itself: a statement is its effect on the schema and rows, or a failure. Quoting of names, indexes, foreign keys and
  column defaults for later inserts are not modelled. The order of the column names in the drift report is not either.
- LoginThrottle.Throttle.IsLockedOut: the clock is read once per check, not once per entry, and requests do not overlap.
- Regular expression semantics: whether a pattern compiles or nests repetitions is a parameter.
- Averages, percentages, trend labels, the list of top findings and display orders of the reports.
- `restore_policy_version`, cookies, CSRF, cryptography, LDAP, SSH and the web framework.
