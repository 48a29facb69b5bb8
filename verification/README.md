# B2SHARE, modelled and proved in Dafny

This project models the stateful core of B2SHARE, the research data repository built on Invenio,
and proves what that core is for. `dafny verify dfyconfig.toml` checks all of it.

- **Upgrades.** `UpgradePath` is the breadth-first search for a chain of upgrade recipes, which has
  no visited set; `UpgradeRegistry` is how recipes and steps are registered; `UpgradeRun` runs the
  steps of one recipe and keeps its log; `UpgradeHistory` is a whole attempt, from reading the
  current version to the last recipe it runs; `UpgradeOnce` is about any number of attempts with any
  failures, and `UpgradeRetries` about what the table tells before the next one.
- **Deposits, records and version chains.** `VersionChains` says what one request leaves of the
  shared tables, or why it is refused, with publication committing the deposit a second time;
  `ChainInvariants` and `ChainHistory` are about all runs of requests, and `FixedWorkflow` about those
  in which each community keeps its workflow; `Repository` serves the requests in place, step by step,
  and does what `VersionChains` says. `SchemaUrls` is the rewriting of `$schema` between deposits and
  records.
- **External PIDs.** `ExternalPids` is how committing a list brings the bucket and the shared table
  of files into line with it; `ExternalPidList` is the list generated back from the bucket, and both
  in place. `KeyOrder` is the order of strings.
- **Schemas.** `Schemas` has the validators of drafts and of complete records, the schema built for
  a community, and the check of schemas that are to be registered.
- **Permissions.** `Needs` is the JSON text that identifies a need; `Permissions` evaluates the
  combined permissions of a deposit's update and runs them against the review workflow;
  `RoleNames` and `RoleRepair` are the roles of a community and the repair of their rows.
- **Embargoes.** `Embargo` follows deposits, records and index entries along the clock, with the
  daily run that opens records.
- `Options` and `Sequences` have what the others share about optional values and about sequences
  without repetitions.

The main results:

- The search stops if and only if some walk from the source reaches the target or a version that
  starts no recipe; what it answers is then the only right answer, the first shortest path in
  dictionary order, and searching again from any place of the path answers its rest.
- Whatever fails in whatever attempts, the rows of the migration table follow the path first
  answered, and no default step is applied twice exactly when no run gets past a default step that
  an earlier run got past and the newest failed row does not mark. The code does not always meet
  this: a retry that breaks before the place where the run before it failed forgets the marks, and
  the retry after it applies steps again (`UpgradeOnce.ForgottenMarks`). Whether the next attempt
  can do so is told by the table alone: no course of events repeats a default step if and only if
  every default step that some run of the next recipe got past is marked in the newest failed row.
  An attempt reports success if and only if it leaves the path done.
- In every run of requests each chain has at most one draft, at its end; published versions keep
  their order and are published once; all documents of a chain share a community and a schema URL
  up to the fragment; and a record is flagged as the last version exactly when it is the last live
  one of its chain.
- A commit that publishes is accepted by the nested commit as well, except when a submitted deposit
  meets direct publication; where every community keeps its workflow, that never comes up in any run,
  and a move is accepted if and only if the workflow allows it.
- After a list of external PIDs is committed, the list generated back is the committed one,
  normalised and sorted. A list can be committed if and only if its keys are distinct and start with
  no slash, its URIs belong to no file of another kind, and renaming never gives two files the same
  URI, not even on the way. Committing a list again works if and only if no older version of a listed
  key has another file. So a key can be blocked: where two files are under one key and under no
  other, no list with that key can be committed, and listing such a key with one file under the bare
  handle of its URI brings exactly that about. Files are shared, and another bucket keeps the URI it
  shows for a key if and only if the list wishes for no other one for that file.
- A value is valid in full if and only if it is valid as a draft and complete. What is left of a
  valid draft when fields and items are left out, at any depth, is a valid draft if and only if no
  array that must not repeat items repeats one now; two creators that lose their names are refused.
- At every moment of every run the index shows the keys of a record's files only if the record is
  open and its embargo over. The daily run opens exactly the closed records whose embargo is over,
  and leaves keys hidden exactly where an open record was last indexed under its embargo. No deposit
  is ever open under its embargo, and no record is, in a run and at its indexing, if and only if no
  update of a record asks for open access under its embargo. A record is open if and only if its
  publication or last update made it so or a daily run has come since, after its embargo.
- Needs are equal exactly when their names and arguments are; so a reviewed deposit is published
  only by a superuser or a holder of the need for that transition in that community, whoever owns it.
  For every patch of a deposit it is told exactly, from the sender, the owners and the rows, whether
  it is permitted.
- Repairing the roles of a community adds exactly what is missing, and once; it fails exactly when
  two rows allow its administrators to search accounts, which SQL's unique keys permit because the
  rows have no argument. What the two roles of a new community hold is given exactly.

Things the model takes from the code where its comments or documentation say something else: the
need factories mean to drop None arguments but look for None among the argument names, so None is
printed as null (b2share/modules/deposit/permissions.py:57-60); `build_upgrade_path` never returns
None, it fails or never ends instead (b2share/modules/upgrade/api.py:260-297); a PATCH that changes
nothing in an unpublished deposit is meant to be permitted but raises a KeyError
(b2share/modules/deposit/permissions.py:327-349); only superusers are meant to modify published
deposits, but a patch that leaves the state alone is judged as an edit there, which owners may make
(b2share/modules/deposit/permissions.py:318-349); and the listing of readable communities counts rows
that deny an action (b2share/modules/deposit/permissions.py:114-142).

## Model

| member | source | states |
|---|---|---|
| UpgradePath.SearchStopsIff | b2share/modules/upgrade/api.py:260-297 | the search ends within some number of turns if and only if some walk from the source reaches the target or a version that starts no recipe; on cyclic graphs too |
| UpgradePath.SearchAnswers | b2share/modules/upgrade/api.py:260-297 | whatever a search answers is right: a path is a walk to the target, shorter than every other or first in dictionary order among the shortest; an error means that the version is unknown or that a version without recipes is met first |
| UpgradePath.AnswerIsUnique | b2share/modules/upgrade/api.py:260-297 | for given recipes, source and target there is at most one right answer, so meaning and algorithm determine each other |
| UpgradePath.BuildUpgradePath | b2share/modules/upgrade/api.py:260-297 | the queue loop ends under that condition and returns the right answer |
| UpgradePath.ResumeIsStable | b2share/modules/upgrade/api.py:85-97 | if the answer is `u` and then `rest`, the search from where `u` leads ends and answers `rest` |
| UpgradePath.AnswerVisitsOnce | b2share/modules/upgrade/api.py:260-297 | an answer never comes back to a version |
| UpgradeRegistry.Registry.NewRecipe | b2share/modules/upgrade/api.py:138-154 | a recipe is added after those of its source if no other has its two versions, and refused otherwise; entries stay non-empty and without repeated targets |
| UpgradeRegistry.Registry.AddStep | b2share/modules/upgrade/api.py:156-179 | a step is appended to its recipe unless a step has its name; step names stay distinct |
| UpgradeRun.Database.Run | b2share/modules/upgrade/api.py:200-258 | a run adds one row, with an entry for each step up to the first failure and two for the failed one, and applies exactly the steps whose entries say success |
| UpgradeHistory.DefaultConditionReadsMarks | b2share/modules/upgrade/api.py:103-121 | the default condition, which reads the first entry of a step, holds exactly for the steps the failed run had not got past |
| UpgradeHistory.RunFollows | b2share/modules/upgrade/api.py:200-258 | a run leaves a row that follows from its recipe and the last failed row: skip marks carry over, and nothing is marked past the failure |
| UpgradeHistory.RunIs | b2share/modules/upgrade/api.py:218-258 | where a run ends and what each entry says, told from its events and the marks: it ends at the first step that breaks, or that applies and raises; before that, a step with its own condition succeeds exactly if that holds, a default one exactly if it is not marked |
| UpgradeHistory.RunApplies | b2share/modules/upgrade/api.py:200-258 | what a run applies, in order: those steps and no others |
| UpgradeHistory.GoodRun | b2share/modules/upgrade/api.py:200-258 | a run in which all goes well succeeds and applies every step with its own condition and every unmarked default one |
| UpgradeHistory.UpgradeToLastVersion | b2share/modules/upgrade/api.py:60-97 | an attempt leaves the rows and effects of running the right answer's recipes in turn until one fails, or reports why it ran none |
| UpgradeHistory.DoneIff | b2share/modules/upgrade/api.py:85-97 | recipes run in turn are done if and only if the last row they leave is a success, and that is then at the end of the path |
| UpgradeHistory.EndedIff | b2share/modules/upgrade/api.py:60-97 | an attempt that searches from below the target reports success if and only if the next one would find the table up to date; it reports a failed step otherwise, unless the search failed |
| UpgradeHistory.ReportIff | b2share/modules/upgrade/api.py:60-97 | on a table that follows a path an attempt reports up to date if and only if the path was done, success if and only if it is done now and was not, and a failed step if and only if it is not done |
| UpgradeHistory.DetectsPlace | b2share/modules/upgrade/api.py:60-97 | from a table that follows a path, also one with failures only, which counts from version 2.0.0, an attempt reads the version the path has reached and the last failure, if the newest row is one |
| UpgradeHistory.AttemptKeepsPhase | b2share/modules/upgrade/api.py:60-97 | an attempt, whatever fails in it, leaves a table that follows the path first answered |
| UpgradeHistory.AttemptRunsRest | b2share/modules/upgrade/api.py:60-97 | what an attempt does on such a table: it runs the rest of the path with the newest failed row, does nothing when the path is done, and fails on an empty table |
| UpgradeHistory.ResumesWithRest | b2share/modules/upgrade/api.py:85-97 | from any place of the path an attempt searches exactly the rest of it |
| UpgradeOnce.AttemptsApplyOnce | b2share/modules/upgrade/api.py:60-121 | after any attempts with any failures the successes are a beginning of the path; no default step is applied twice if and only if the rows are harmless; and then, once the path is done, each has been applied once, in order |
| UpgradeRetries.NextRunRepeatsNothingIff | b2share/modules/upgrade/api.py:103-121 | no events make the next run repeat a default step if and only if the default steps that were got past are marked in the newest failed row |
| UpgradeRetries.AttemptIsHarmlessIff | b2share/modules/upgrade/api.py:60-121 | the same of a whole attempt, told from the table before it |
| UpgradeRetries.UnsafeAttemptHarms | b2share/modules/upgrade/api.py:200-258 | from every other table, the attempt in which all goes well applies a default step again |
| UpgradeRetries.CheckedAttemptsAreHarmless | b2share/modules/upgrade/api.py:60-121 | attempts made only from safe tables never apply a default step twice |
| UpgradeOnce.AtMostOnceIff | b2share/modules/upgrade/api.py:103-121 | the exact condition for having applied each default step at most once, read from the rows afterwards |
| UpgradeOnce.SuccessesArePrefix | b2share/modules/upgrade/api.py:85-97 | the successful rows are a beginning of the path, in its order |
| UpgradeOnce.ExactlyOnceWhenDone | b2share/modules/upgrade/api.py:200-258 | a harmless history whose path is done has applied each default step of each recipe exactly once, in order |
| UpgradeOnce.NoSetbackIsHarmless | b2share/modules/upgrade/api.py:103-121 | if no retry fails earlier than the run before it, nothing is applied twice |
| UpgradeOnce.RetryPassesMarks | b2share/modules/upgrade/api.py:200-258 | a retry gets past the marked steps if they have the default condition and nothing outside the steps breaks |
| UpgradeOnce.ForgottenMarks | b2share/modules/upgrade/api.py:103-121 | for any two default steps, three runs in which the first step is applied twice |
| ChainInvariants.NestedWorkflowAcceptsIff | b2share/modules/communities/workflows.py:28-71 | if the outer workflow publishes, the nested one accepts, except for a submitted deposit under direct publication |
| ChainInvariants.PublishedIsFinal | b2share/modules/communities/workflows.py:28-71 | no workflow leads away from published |
| VersionChains.WorkflowIs | b2share/modules/communities/workflows.py:28-71 | the moves each workflow accepts, by rank of the states, and where they lead: under direct publication all but drafts are published |
| ChainInvariants.CommitIs | b2share/modules/deposit/api.py:361-405 | what an accepted commit leaves: the document in its new state and, if that is newly published, the registered PID, the record, the redirect of the parent, and the flags of the new and the previous version |
| ChainInvariants.CreateKeeps | b2share/modules/deposit/api.py:166-222 | a new deposit, first of a chain or next version, keeps the invariant |
| ChainInvariants.CommitKeeps | b2share/modules/deposit/api.py:361-405 | so does a commit, with or without publication |
| ChainInvariants.DeleteDepositKeeps | b2share/modules/deposit/api.py:420-440 | so does deleting a deposit: a draft leaves its chain, and a chain that was a single draft goes with its parent |
| ChainInvariants.DeleteRecordKeeps | b2share/modules/records/api.py:73-123 | so does deleting a record: the flag passes to the version that is now the last live one |
| ChainInvariants.ReindexKeeps | b2share/modules/records/indexer.py:54-95 | indexing a record again changes nothing in a reachable repository: no cached flag is stale |
| ChainInvariants.RequestKeeps | b2share/modules/deposit/api.py:166-222 | every request keeps the invariant: PIDs in one chain each, drafts last, parent and document statuses in agreement, flags as the chain says |
| ChainInvariants.RunKeeps | b2share/modules/deposit/api.py:361-405 | the invariant holds after every run from the empty repository |
| ChainInvariants.DeleteDepositIs | b2share/modules/deposit/api.py:420-440 | exactly what deleting a deposit leaves; a published one leaves the chain and the record alone |
| ChainInvariants.DeleteRecordIs | b2share/modules/records/api.py:73-123 | exactly what deleting a record leaves: the flag passes on, or the parent goes when no version and no draft is left |
| ChainHistory.CreateAcceptedIff | b2share/modules/deposit/api.py:535-561 | a new version can be made of exactly the records flagged as the last version, in their community, while their chain has no draft |
| ChainHistory.CommitAcceptedIff | b2share/modules/deposit/api.py:361-405 | exactly when a commit is accepted, the nested one included: the move is allowed, the fields stay, the document is valid and minting works, and it is not a submitted deposit under direct publication |
| ChainHistory.SubmittedThenDirect | b2share/modules/deposit/api.py:361-405 | for every deposit, the run that shows the exception: submitted under review, then committed under direct publication and refused |
| ChainHistory.NewVersionRefusedWhy | b2share/modules/deposit/api.py:535-561 | why a new version is refused, told from statuses, index flags and drafts |
| ChainHistory.CommitRefusedWhy | b2share/modules/deposit/api.py:361-405 | why a commit is refused, and in which order the checks come |
| ChainHistory.UpdateAcceptedIff | b2share/modules/records/triggers.py:54-76 | an update of a record is accepted if and only if community and schema stay and the document is valid, and changes no table |
| ChainHistory.DeletionAcceptedIff | b2share/modules/deposit/api.py:420-440 | every stored deposit and every record can be deleted, whatever its state |
| FixedWorkflow.RunLeavesNoneWaiting | b2share/modules/communities/workflows.py:28-71 | in every run in which each community keeps its workflow, no deposit of a community that publishes directly is stored as submitted |
| FixedWorkflow.NestedCommitAccepts | b2share/modules/deposit/api.py:361-405 | in such runs a commit is accepted exactly when the move is allowed and its fields, minting and validation allow it: the nested commit never refuses |
| FixedWorkflow.MoveAcceptedIff | b2share/modules/communities/workflows.py:28-71 | so asking for another state of a stored deposit is accepted if and only if the move is allowed: under review one step towards publication or one back from a state other than published, under direct publication any from draft; and the deposit then has the state the workflow gives |
| ChainHistory.RequestContinues | b2share/modules/records/api.py:73-123 | a request only adds published versions at the end of their chain; published PIDs stay in place and can only become deleted |
| ChainHistory.RunContinues | b2share/modules/deposit/api.py:361-405 | so do all later parts of a run |
| ChainHistory.PublishedOnce | b2share/modules/deposit/api.py:361-405 | a PID that was published is not published again in any continuation, and the two notions of published agree |
| ChainHistory.RunSharesMeta | b2share/modules/deposit/api.py:195-246 | in every run all documents of a chain have one community and one schema URL up to the fragment |
| ChainHistory.FlaggedIffLast | b2share/modules/records/indexer.py:80-87 | in every run a record is flagged as the last version exactly when no later version of its chain is live |
| ChainHistory.OneFlagPerChain | b2share/modules/records/indexer.py:80-87 | no chain has two flagged records |
| ChainHistory.OneDraftAndLast | b2share/modules/deposit/api.py:195-222 | in every run a chain has at most one reserved version and it is the last; a parent is reserved exactly when its chain is one draft |
| Repository.Tables.Serve | b2share/modules/deposit/api.py:304-405 | a request served in place leaves exactly the modelled repository, and the old one when it is refused |
| Repository.Tables.CreateDeposit | b2share/modules/deposit/api.py:166-222 | the checks, the minter's PIDs and the chain's new child, in place |
| Repository.Tables.CommitDeposit | b2share/modules/deposit/api.py:304-405 | the commit in place, calling the publication, which calls it again |
| Repository.Tables.DeleteDeposit | b2share/modules/deposit/api.py:420-440 | the deletion of a deposit in place |
| Repository.Tables.DeleteRecord | b2share/modules/records/api.py:73-123 | the deletion of a record, its deposit and perhaps its parent in place, and the indexing of the version that takes over |
| Repository.Tables.UpdateRecord | b2share/modules/records/triggers.py:54-76 | a record's community and schema cannot change, and an update indexes it |
| SchemaUrls.RewritesKeepBase | b2share/modules/deposit/api.py:100-114 | the rewrites of `$schema` for records and deposits keep all but the fragment and undo each other |
| SchemaUrls.KindsAreDisjoint | b2share/modules/records/utils.py:37-52 | nothing is both a publication and a deposit, and each rewrite makes what it is for |
| ExternalPids.ReleaseHeads | b2share/modules/deposit/api.py:325-341 | the first loop empties exactly the keys that hold external files and are not listed |
| ExternalPids.FinalUri | b2share/modules/deposit/api.py:325-341 | a file's URI afterwards is the last one its keys ask for, whichever buckets it is in |
| ExternalPids.HeadsAreTheList | b2share/modules/deposit/api.py:313-343 | after a committed list the external heads of the bucket are exactly the listed keys with normalised URIs, and keys that never held an external file keep their head |
| ExternalPids.SharedFileKeepsUriIff | b2share/modules/deposit/api.py:335-341 | a file shared with other buckets keeps its URI exactly when the list asks for none or the same |
| ExternalPids.OtherBucketKeepsUriIff | b2share/modules/deposit/api.py:335-341 | any other bucket goes on showing the same URI for a key exactly when the list asks for no other one for that file |
| ExternalPids.ReleaseDoneIff | b2share/modules/deposit/api.py:325-341 | the first loop meets no URI that is taken if and only if no two files have the same URI after any number of visited versions; where files end is given by the last key that asks |
| ExternalPids.ReconcileDoneIff | b2share/modules/deposit/api.py:313-343 | exactly which lists can be committed |
| ExternalPids.ReconcileFailsWhy | b2share/modules/deposit/api.py:313-343 | why a list is refused: for renaming if and only if two files meet, for repeated keys if and only if not for that, and else at the first entry with a slash or another kind of file |
| ExternalPids.TwoFilesBlockKey | b2share/modules/deposit/api.py:335-341 | while a key has versions of two external files that are under no other key, no list with the key can be committed |
| ExternalPids.SecondKeyMakesRoom | b2share/modules/deposit/api.py:335-341 | a file that is also under another listed key, visited in between, makes room: such a list is committed |
| ExternalPids.RepeatSucceedsIff | b2share/modules/deposit/api.py:488-532 | the normalised list can be committed again if and only if no older version of a listed key has another file, and then changes nothing |
| ExternalPids.BareHandleBlocksKey | b2share/modules/deposit/api.py:488-532 | for every key and handle, a commit of the bare handle that leaves two files under the key, after which its normalised list is refused |
| ExternalPids.BareHandleBlocksEveryList | b2share/modules/deposit/api.py:313-343 | and so is every list that has the key |
| ExternalPidList.GeneratedIsExact | b2share/modules/deposit/api.py:72-81 | the generated list has exactly the external heads |
| ExternalPidList.GeneratedIsCommitted | b2share/modules/deposit/api.py:72-81 | the list generated after a commit is the committed one, normalised and sorted |
| ExternalPidList.SortedIsUnique | b2share/modules/deposit/api.py:72-81 | a sorted list is determined by its elements |
| ExternalPidList.FileStore.CommitExternalPids | b2share/modules/deposit/api.py:313-343 | the two loops in place do what the specification says, and an integrity error leaves everything as it was |
| ExternalPidList.FileStore.AttachAll | b2share/modules/deposit/api.py:488-532 | the second loop in place: existing files are reused by URI, others are made |
| ExternalPidList.FileStore.ListExternalPids | b2share/modules/deposit/api.py:72-81 | the generated list in place |
| ExternalPidList.HasDistinctKeys | b2share/modules/deposit/api.py:488-532 | the check by set size refuses exactly the lists with repeated keys |
| Schemas.FullIffDraftAndComplete | b2share/modules/deposit/api.py:275-302 | for every schema and value, full validity is draft validity and every `required` and `minItems` that applies, at any depth |
| Schemas.DraftSurvivesOmissionIff | b2share/modules/deposit/api.py:292-301 | fields left out of objects and items left out of arrays, at any depth and inside items too, leave a valid draft if and only if no `uniqueItems` array repeats an item now |
| Schemas.DraftSurvivesWholeItems | b2share/modules/deposit/api.py:292-301 | whole items, and fields outside arrays, can always be left out |
| Schemas.NamelessCreatorsAreRefused | b2share/modules/schemas/root_schemas/root_schema_v0.json:9-24 | for any two creators, leaving out both names makes a draft that is refused |
| Schemas.RecordSchemaMeans | b2share/modules/schemas/api.py:637-659 | the built schema asks for an object valid by the root schema whose community part, if any, is valid by the community's |
| Schemas.ContentIsTheCommunitys | b2share/modules/schemas/api.py:643-647 | where the root schema declares the community field, its content answers to that declaration and to the community's schema, and to nothing else |
| Schemas.AcceptedIsSatisfiable | b2share/modules/schemas/helpers.py:63-95 | a schema without `minItems` and `allOf`, whose bounds for numbers leave room, that passes the check of required fields has a valid instance, though the check stops at objects without `required` |
| Schemas.AcceptsIff | b2share/modules/schemas/helpers.py:63-95 | the check accepts a schema if and only if every object it comes to, by the properties and array items of objects that require something, declares what it requires |
| Schemas.BoundsLeaveRoomIff | b2share/modules/deposit/api.py:275-302 | a schema for numbers or integers takes some number if and only if there is one of its kind between its bounds |
| Schemas.NumbersAre | b2share/modules/deposit/api.py:275-302 | and it takes exactly those between them |
| Schemas.ChoicesAre | b2share/modules/deposit/api.py:275-302 | a list of choices for strings takes exactly these |
| Schemas.LengthsAre | b2share/modules/deposit/api.py:275-302 | bounds of the length of an array are inclusive, and drafts have no least length |
| Schemas.ContradictoryBoundsPass | b2share/modules/schemas/helpers.py:63-95 | with `minItems` above `maxItems` a schema passes that nothing satisfies |
| Schemas.UndeclaredNeverCompletes | b2share/modules/schemas/helpers.py:77-80 | a closed object that requires an undeclared field fails the check; it would take drafts that can never be completed |
| Needs.ParseOfPrint | b2share/modules/deposit/permissions.py:51-66 | the JSON text of any arguments, escapes and nulls included, is read back as the same arguments (sections 4 and 7 of RFC 8259) |
| Needs.NeedsEqualIff | b2share/modules/deposit/permissions.py:51-66 | two needs are equal exactly when name and arguments are |
| Needs.EscapesAre | b2share/modules/deposit/permissions.py:51-66 | the escapes of single characters (section 7 of RFC 8259), in lower-case hexadecimal digits where there is no short one |
| Needs.PrintedThree | b2share/modules/deposit/permissions.py:51-66 | the text of an object with three plain strings: compact, and in the order of the keys |
| Permissions.TransitionText | b2share/modules/deposit/permissions.py:85-92 | the text of a transition's argument, for every community and pair of states |
| Permissions.ListReadableCommunities | b2share/modules/deposit/permissions.py:114-142 | the loop lists exactly the community and state pairs in the user's and their roles' rows, by whatever decoder, and fails exactly on a row it cannot decode |
| Permissions.DecodedIsGranted | b2share/modules/deposit/permissions.py:77-82 | a row granted for a community and a state, null included, is listed as that pair |
| Permissions.ListedIffNamed | b2share/modules/deposit/permissions.py:114-142 | where the rows for reading deposits have printed arguments, a pair is listed if and only if some row, allowing or denying, names the user or a role of theirs for the need of that pair |
| Permissions.EmptyAllowsNothing | b2share/modules/access/permissions.py:97-176 | an empty combination of permissions allows nothing, of either kind |
| Permissions.PermittedIff | b2share/modules/deposit/permissions.py:267-349 | a changing patch is permitted to those who pass as superusers or meet every permission its changes require |
| Permissions.PermittedExactly | b2share/modules/deposit/permissions.py:232-349 | for every patch: it is permitted if and only if it is not an empty one of an unpublished deposit, superuser access is not denied, and the sender has it or may make every change: moves, edits and changed external PIDs, each by ownership or a need that no row denies |
| Permissions.FilesIff | b2share/modules/files/permissions.py:105-165 | changing the files of a published deposit is permitted to nobody; of another one to those who may edit it, by the needs for its state and for no state |
| Permissions.PermittedMove | b2share/modules/deposit/permissions.py:295-319 | owners can only move between draft and submitted; every other move takes a superuser or the holder of the need for it |
| Permissions.StateOnlyIff | b2share/modules/deposit/permissions.py:295-319 | a patch of the state alone is permitted if and only if superuser access is not denied and the sender has it, or the need for the transition is not denied and the sender holds it or owns the deposit and submits or withdraws it |
| Permissions.OwnerWithoutRows | b2share/modules/deposit/permissions.py:232-349 | without any rows owners may submit, withdraw and edit; of a published deposit they may patch what is not its state |
| Permissions.BlanketRow | b2share/modules/access/permissions.py:43-120 | a row without argument grants a role every transition in every community, or denies it to owners as well |
| Permissions.PermittedEdit | b2share/modules/deposit/permissions.py:232-264 | whoever changes the metadata of an unpublished deposit is a superuser, an owner, or holds the metadata need of that community for the old or the new state |
| Permissions.NothingToDoFails | b2share/modules/deposit/permissions.py:327-349 | a patch that changes nothing is permitted at most for a published deposit |
| Permissions.GrantIsExact | b2share/modules/deposit/permissions.py:85-92 | a row for one transition in one community counts for that transition in that community only |
| Permissions.PublishedWasReviewed | b2share/modules/communities/workflows.py:28-47 | every run of patches that publishes a reviewed deposit has a submission and a later publication by a superuser or a holder of that community's need, owners or not |
| Permissions.PatchMovesIff | b2share/modules/communities/workflows.py:28-47 | a patch moves a deposit of a reviewing community if and only if the sender may, nothing else stops it, and the workflow allows the move |
| Permissions.SubmitAndPublish | b2share/modules/deposit/permissions.py:295-319 | a submission by an owner and a publication by a holder of the need publish every new deposit |
| RoleNames.RoleNameRoundTrip | b2share/modules/communities/api.py:313-354 | a printed role name gives back the 128-bit community id and has exactly its own kind (section 3 of RFC 4122) |
| RoleNames.OtherNames | b2share/modules/communities/api.py:313-354 | only names that begin with the prefix and go on have a community, and only those of three parts |
| RoleNames.RoleNamesEqualIff | b2share/modules/communities/models.py:82-89 | role names are equal exactly when community and kind are |
| RoleNames.UuidRoundTrip | b2share/modules/communities/api.py:344-354 | the dashed text of an id is read back as the id |
| RoleNames.HexDigitIs | b2share/modules/communities/models.py:82-89 | each hexadecimal digit of an id, the least one last |
| RoleNames.UuidShape | b2share/modules/communities/models.py:135-178 | the dashed text has groups of 8, 4, 4, 4 and 12 digits |
| RoleRepair.RepairSucceedsIff | b2share/utils.py:31-72 | adding rows that may exist fails exactly when a wanted row is there twice |
| RoleRepair.RepairCounts | b2share/utils.py:31-72 | it keeps all rows in order, leaves wanted rows once and others as often as before |
| RoleRepair.RepairIff | b2share/modules/communities/models.py:99-178 | repair fails exactly when two rows allow the administrators to search accounts |
| RoleRepair.TwoSearchRowsBlockRepair | b2share/modules/communities/models.py:99-178 | for every community, a consistent table on which repair fails |
| RoleRepair.RepairAdds | b2share/modules/communities/models.py:99-178 | repair adds exactly the missing roles and rows and keeps the unique keys |
| RoleRepair.RepairTwice | b2share/modules/communities/models.py:99-178 | a second repair changes nothing |
| RoleRepair.CreationIsRepair | b2share/modules/communities/models.py:92-178 | creating a new community's roles breaks no unique key and does what repair would do |
| RoleRepair.CreationSucceedsIff | b2share/modules/communities/models.py:92-178 | without repair, creation fails exactly when one of the two roles exists |
| RoleRepair.InsertSucceedsIff | b2share/utils.py:31-72 | a row is inserted exactly when the table with it keeps its unique key |
| RoleRepair.NewRolesHold | b2share/modules/communities/models.py:99-178 | for every need: the members of a new community hold it if and only if it is for creating drafts there; its administrators if and only if it is one of eight in that community or for searching accounts |
| RoleRepair.NewAdminsEdit | b2share/modules/communities/models.py:144-147 | the administrators may edit exactly the submissions of their community |
| RoleRepair.RolesOfNewCommunity | b2share/modules/communities/models.py:135-178 | in a new community the administrators may publish and send back submissions, there and nowhere else, and members may move nothing |
| RoleRepair.Session.CreateRolesAndPermissions | b2share/modules/communities/models.py:99-178 | the loops in place add what the specification says, or nothing |
| Embargo.RunKeeps | b2share/modules/records/indexer.py:70-73 | in every run with a clock that does not go back, each record has an index entry with its metadata, whose keys were right when it was made |
| Embargo.CommitStores | b2share/modules/deposit/api.py:348-405 | a commit stores the embargo asked for, and open access if and only if it was asked for and no embargo stands against it, and publishes the same |
| Embargo.DepositIs | b2share/modules/deposit/api.py:348-354 | in every run a deposit is what its last commit stored |
| Embargo.RecordIs | b2share/modules/records/tasks.py:45-79 | in every run a record has the embargo of its publication or last update, and is open if and only if that made it open or a daily run has come since, after its embargo |
| Embargo.EntryIs | b2share/modules/records/indexer.py:54-95 | in every run an entry was made by the last request that writes or indexes the record or opens it, and shows keys exactly if the files were public then |
| Embargo.NoKeyTooEarly | b2share/modules/access/policies.py:33-54 | at every moment an entry shows keys only if the record is open and not under embargo at that moment |
| Embargo.ExpiryOpensIff | b2share/modules/records/tasks.py:45-79 | after the daily run a record is open exactly if it was or its embargo was over strictly before |
| Embargo.StillHiddenIff | b2share/modules/records/tasks.py:45-79 | keys that are public now stay hidden exactly where the record was open already and was last indexed under its embargo |
| Embargo.OpenUnderEmbargoStaysHidden | b2share/modules/records/tasks.py:55-64 | for every embargo, a run that brings that about through an update of the record |
| Embargo.DepositsAreClosed | b2share/modules/deposit/api.py:348-354 | in every run, updates of records included, no deposit is open under its embargo |
| Embargo.NothingOpenEarlyIff | b2share/modules/records/tasks.py:45-79 | where nothing stored is open under its embargo and no open record was when it was indexed, a request leaves it so if and only if it is no update that asks for open access under its embargo |
| Embargo.NeverOpenEarlyIff | b2share/modules/records/tasks.py:45-79 | that holds after every request of a run if and only if no request asks for that, each judged by the site before it |
| Embargo.OpenMeansOver | b2share/modules/deposit/api.py:348-354 | in runs in which no update of a record asks for open access under its embargo, no deposit and no record is ever open under its embargo, and no open record was when it was indexed |
| Embargo.ShownIffOpenIff | b2share/modules/records/tasks.py:45-79 | after the daily run an entry shows keys exactly if its record is open, if and only if the record was not open already with an entry made under its embargo |
| Embargo.ShownIffOpen | b2share/modules/records/tasks.py:45-79 | in the runs of `OpenMeansOver` the index shows exactly the keys of open records after the daily run |
| Embargo.Publications.UpdateExpiredEmbargoes | b2share/modules/records/tasks.py:45-79 | the two loops of the daily run in place, for hits in any order |

## Left out

- UpgradeOnce.AttemptsApplyOnce: does not promise "at most once" without a condition, because the code does not keep it (UpgradeOnce.ForgottenMarks); the condition it states is exact, and UpgradeRetries.AttemptIsHarmlessIff gives the one that can be read before an attempt.
- UpgradePath.BuildUpgradePath: is called only where the search ends, because the loop of the source never ends elsewhere and a method must.
- ExternalPids.RepeatSucceedsIff: does not promise that every repeated list is accepted, because the code refuses some; the condition it states is exact.
- Schemas.AcceptedIsSatisfiable: speaks of schemas without `minItems` and `allOf`, whose bounds for numbers leave room, which the check of required fields does not look at and which can make a schema unsatisfiable (Schemas.ContradictoryBoundsPass).
- Needs.ParseOfPrint: strings are sequences of Unicode scalar values; Python strings with lone surrogates, which JSON can merge into one character, are not modelled.
- What JSON readers make of texts that the need factories do not print: `Needs.Parse` is only shown to read printed ones.
- RoleNames.RoleNameRoundTrip: ids are read from 32 hexadecimal digits with or without dashes; the other notations of Python's UUID reader (braces, URN prefixes) are not modelled.
- Recipes are known by their pair of versions and versions are numbers; a recipe object registered under no name of its own, `remove_step`, and loading recipes from entry points are not modelled.
- The process being killed between a step and the save of its log, fresh installations (the 'init' upgrade) and databases without a migration table.
- SQLAlchemy sessions: a refused request or a failed creation restores the tables as they were, and pending rows are visible to later lookups.
- The PID versioning library: its operations are modelled by their documented meaning (b2share/modules/records/__init__.py:98-160), and a handle made on a child stands for its chain.
- The permission library: a row grants an action for its own argument, or for all when it has none; superuser access is among the needs of every permission.
- The redirect target of a parent after a record is deleted, which the code does not update, and any claim that a chain without live versions has a deleted parent.
- Minting as network calls (handles, DOIs, OAI ids): it works or fails as a request says.
- Validation of deposits inside commits: a request says whether its document is valid; `Schemas` says what valid means.
- Patches in `Permissions`: a request says what it changes and whether anything but permission and workflow stops it; JSON Patch itself and immutable paths are not modelled.
- Malformed entries in `external_pids`, the check that the deposit's PID is registered, and the bucket lookup of a commit.
- The file filter of `copy_data_from_previous` and the default choice of a root schema, which do not do what their comments say.
- JSON Schema's `not`, `oneOf`, `anyOf`, `$ref`, `pattern` and `format`, and its comparison of numbers and booleans as equal in `uniqueItems`; `enum` holds strings, as in the restricted metaschema.
- Backward compatibility of schemas (`doschema`) and the check of presentation fields.
- Version numbers of root, block and community schemas, and the deprecation of block schemas.
- In `Embargo` every request, the daily run included, happens at one instant; the parsing of dates, failures of single records in the daily run, and the deletion of records are not part of it.
- The routing of documents to indexes in `record_to_index`, views, command line, mail, OAuth, search queries, file contents, WebDAV and the user interface.
- The creation, reading and deletion permissions of deposits, and those of records and users.
- The migration from version 1 and the loading of demonstration data.
