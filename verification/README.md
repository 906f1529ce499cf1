# Shoka storage: a verified model

Shoka keeps each project as a directory that is the truth, and lets everything else
follow it: a write-ahead log of operations, a background worker that turns log entries
into git commits, and derivatives (catalog, deleted-file log, reverse-link and bigram
index) that must agree with the directory. This project models that core and proves
what has to hold between its parts.

How the files fit together:

- **Git trees.** `GitTree` has trees as lists of named entries, where equality of values
  stands for equality of hashes; `ApplyToTree`, `BuildMoveTree` and `StoreTree` are the
  source's recursion. `GitIndex` is the walk that rebuilds the git index, `Recovery` the
  fold of tracked changes into HEAD. `ByteOrder` is Go's string order.
- **Write/commit protocol.** `Protocol` is the state machine of one project (files,
  catalog, log, history, deleted records, and whether the oldest entry is already
  committed), with what each operation promises its caller; `ProtocolRuns` has the steps,
  the runs and what every run keeps, `RecordRuns` what runs make of the deleted records.
  `Storage` is the imperative form, a class with those fields whose methods follow the
  source's step order and are proved to do exactly the protocol's transitions and to keep
  those promises. An operation can fail before it changes anything, when removing a file, or
  when appending to the log; the last two leave it halfway. `DeletedLog` has the live hook,
  the bounded repair walk and the search for a deletion commit. `PartialEdit` has the byte
  computations of append and patch. `Witnesses` has runs that reach the exceptional cases of
  the exact theorems.
- **Links.** `LinkScan` is the inline-link scanner and `LinkGrammar` the language it accepts,
  said on the text; `LinkRewrite` is resolving, rewriting and extracting, and `LinkWalk` says
  where a link leads. `FixLinks` is the repair after a move, `FixLinksRuns` a repair pass
  among any other steps of a run. `LinkTokens`, `LinkSubst` and `LinkMeaning` carry the proof
  that rewriting preserves meaning: a document is cut into tokens, scanning sees only a
  token's shape, and a rewrite replaces the text of a token without changing the shape.
  `LinkText` says for which new names a rewritten link still works. `SlashPath` is the path
  arithmetic (Clean, Join, Dir, Rel).
- **Special operations.** `SpecialOps` has project move, project rename and namespace
  rename as programs of durable effects, where a crash keeps a prefix; `OpRecovery` the
  crash-safety theorems; `OpServer` the imperative form.
- **Text and events.** `Diff` (hunks), `Search` (bigram-gated search), `Chunks` (chunk
  splitting) and `Notify` (the event ring and its fan-out).

A `char` stands for one byte, except in `Search`, where it stands for one code point.
The sha256 etag is taken as collision-free. Outside answers are parameters: whether a file
operation or log append fails (`Fault`), whether a rename or relocation fails, the Markdown parser's
protected ranges, URL parsing, lower-casing, space trimming, context snippets.

## What the proofs show about the code

Where a promise holds only in part, the exact condition is proved:

- A delete appends its log entry before it removes the file. If the removal then fails, the
  file stays on disk but out of the catalog, and HEAD plus log still agrees with the managed
  part of the working tree exactly when no managed file lies above or below the deleted path
  (`Protocol.FailedDeleteAgreement`, `Witnesses.FailedDeleteHappens`).
- A move writes the destination before it removes the source. If the removal then fails, the
  move reports failure, yet a destination that already held a file has been overwritten and
  neither catalog nor log knows. Agreement holds exactly when the destination was new or held
  the same bytes (`Protocol.FailedMoveAgreement`, `Witnesses.FailedMoveHappens`).
- When the log refuses an entry: a write leaves agreement exactly when the file was new or its
  bytes did not change, a delete exactly when the path held no file, a move never
  (`Protocol.UnloggedWriteAgreement`, `Protocol.UnloggedDeleteAgreement`,
  `Protocol.UnloggedMoveDisagrees`).
- A move holds only the locks of its two paths, and appends to the log after it has removed the
  source. A write in between is logged first; the move's commit then drops it from HEAD exactly
  when it lies above or below the moved path (`Protocol.WriteInMoveGap`).
- A crash between advancing HEAD and the deleted-file hook loses that update: the redo finds
  nothing to commit and skips the hook. Every record outside the interrupted entry's own paths
  stays true; a record becomes false exactly when the commit brought its path back
  (`ProtocolRuns.EveryRecordNamesItsDeletion`,
  `ProtocolRuns.LostUpdateHarm`, `Witnesses.StaleRecordHappens`).
- The live deleted-file hook and the repair walk agree on a path exactly when its last
  touch was not a move onto an existing file; for such a move the hook drops the source and
  the walk lists it (`DeletedLog.HookAgreesWithWalk`, `Witnesses.OverwritingMoveHappens`).
- A project's very first commit can be a delete. Its record has no parent to revive from
  (`ProtocolRuns.NamesDeletion`, the case of commit 0; `Witnesses.FirstDeleteHappens`).
- Renaming a project that has a directory but no registry record moves the directory and
  can then never re-key: the journal stays through every restart, until the next special
  operation overwrites it and leaves that project registered nowhere. This is the only way a
  recovery that runs to its end leaves the journal (`OpRecovery.RecoveryResolves`,
  `OpRecovery.UnlistedHappens`, `OpRecovery.NextOperationForgets`).
- The "inconsistent" branch of recovery is reached exactly when a managed namespace
  without a directory was being renamed (`OpRecovery.InconsistentIffMissing`).
- A complete rollback restores the registry exactly when the operation was no move or the
  source had been registered, the grants exactly when none named the target before, and the
  sibling databases exactly when no catalog or index lay at the target
  (`OpRecovery.RolledBackIsOld`).
- "Matches exactly once" in patch_file counts greedily without overlap. It means a unique
  occurrence exactly for needles that cannot overlap themselves (`PartialEdit.AcceptsIffUnique`),
  and patching back restores every file exactly for replacements of that kind
  (`PartialEdit.PatchBackRestoresIff`).
- A file moved to a name with white space, an unbalanced parenthesis or a leading angle bracket
  gets bare links the scanner no longer reads as those destinations; a name with `#`, a percent
  escape or a scheme gets links that lead elsewhere. Both conditions are exact
  (`LinkText.ReadBackIff`, `LinkText.NewPathResolvesIff`), so the rewriting keeps a link's
  meaning for some names only.
- The comment in `SearchFiles` (internal/storage/discovery.go:171-178) counts a failed index
  update among the files that are always read. The code reads only files without a record, and
  a failed put leaves the old one. Searches stay right for every query exactly when that record
  still covers the new content (`Search.GateIsSafeIffCovered`, `Search.Project.WriteFile`).
- The comment on `makeHunk` (internal/storage/diff.go:248-250) gives pure additions an old start
  of 0. Context lines prevent that unless the whole old side is empty, and then it is the only
  hunk (`Diff.NoOldLinesMeansAdded`).
- `Since` at the largest 64-bit number wraps and reports missed events for any non-empty
  ring (`Notify.Center.Since`).

## Model

| member | source | states |
|---|---|---|
| GitTree.StoredOrderIsForced | internal/storage/commit.go:318-337 | git's entry order has one outcome: any sorted rearrangement of entries with unique valid names is the stored list, whatever sort made it |
| GitTree.ApplyOneLevel | internal/storage/commit.go:265-295 | one level of the rebuild: what each name leads to after a write or delete, and that the level stays canonical |
| GitTree.ApplyGet | internal/storage/commit.go:265-295 | after a write or delete, the target reads the new blob or nothing, every path above or below it is gone, every other path reads as before |
| GitTree.ApplyCanonical | internal/storage/commit.go:265-330 | the rebuilt tree is in git order with unique names and no empty subdirectory, at every level |
| GitTree.FlatApply | internal/storage/commit.go:265-295 | flattened, the update keeps exactly the base paths unrelated to the target and adds the new blob on a write |
| GitTree.FlatMove | internal/storage/commit.go:228-242 | a move's tree flattens to the delete of the source followed by the write of the target |
| GitTree.FlatDetermines | internal/storage/commit.go:318-330 | canonical trees with the same files are the same tree, so equal content means equal hash |
| GitTree.ApplyIdempotent | internal/storage/commit.go:76-103 | applying a write or delete to a tree that already contains it yields the same tree, so a redo takes the no-change exit |
| GitTree.MoveIdempotent | internal/storage/commit.go:228-242 | the same for a move between paths that are not above or below each other |
| GitIndex.ResetIndexToTree | internal/storage/refwrite.go:98-124 | the rebuilt index holds every file of the tree with its content, nothing else, in strictly ascending byte order of full names |
| GitIndex.FilesAscending | internal/storage/commit.go:332-337 | a depth-first walk of stored trees lists full file names in strictly ascending byte order |
| GitIndex.EntryOrder | internal/storage/commit.go:332-337 | anything at or below an earlier entry sorts before anything at or below a later one |
| GitIndex.GetIsListed | internal/storage/refwrite.go:98-124 | no file of the tree is missing from the walk |
| GitIndex.ListedIsGet | internal/storage/refwrite.go:98-124 | everything the walk lists is a file of the tree at that name |
| Recovery.RepairTrackedChanges | internal/storage/recovery.go:129-159 | for every iteration order of the status map the loop builds a canonical tree that is HEAD with the tracked paths replaced or removed |
| Recovery.AdoptInOrderFlat | internal/storage/recovery.go:129-159 | stopped after any part of any iteration order, the fold is canonical and holds HEAD with exactly the visited paths replaced or removed |
| Recovery.RepairIsConfluent | internal/storage/recovery.go:129-159 | folding the status in any two orders builds the same tree |
| Recovery.OnlyTrackedPathsChange | internal/storage/recovery.go:129-159 | exactly the tracked paths differ from HEAD, and nothing untracked enters |
| DeletedLog.MarkAll | internal/storage/deletedlog_repair.go:63-105 | first decision wins: only undecided paths are marked, and recorded when deleted |
| DeletedLog.WalkCommit | internal/storage/deletedlog_repair.go:107-149 | one commit decides exactly the paths it touches, by its trailer when the difference confirms it and by the raw difference otherwise |
| DeletedLog.WalkDeletedNetState | internal/storage/deletedlog_repair.go:63-154 | the walk records exactly the paths whose newest touch, among the newest commits up to the depth (50 if unset), is a deletion, with that commit |
| DeletedLog.HookAfterTouch | internal/storage/deletedlog_store.go:163-206 | folded over a history, the live hook's verdict on a path is that of the newest commit that touched it |
| DeletedLog.HookKeepsRecords | internal/storage/deletedlog_store.go:183-200 | landing a commit keeps every record a genuine deletion: the parent holds the path, no later tree does |
| DeletedLog.HookIgnoresUntouched | internal/storage/deletedlog_store.go:183-200 | a commit leaves the records of paths it does not touch alone |
| DeletedLog.WalkRecordsOk | internal/storage/deletedlog_repair.go:63-154 | everything the walk lists is a genuine deletion and never the root commit |
| DeletedLog.HookAgreesWithWalk | internal/storage/deletedlog_repair.go:159-170 | hook and walk give the same record for every path touched in the window if and only if its last touch is not a move onto an existing file |
| DeletedLog.FullWalkIsHookLog | internal/storage/deletedlog_repair.go:26-47 | over a whole history without such moves, starting with no delete, a rebuild gives exactly the live log |
| DeletedLog.FindDeletionCommit | internal/storage/deletedlog_revive.go:141-185 | finds the newest commit that lacks the path while its parent has it, or none when there is none |
| DeletedLog.RecordRevivesLastContent | internal/storage/deletedlog_revive.go:110-135 | reading at a recorded deletion's parent gives the last content ever committed there, and the search by name finds the same commit |
| Protocol.CleanEntryEffect | internal/storage/commit.go:76-100 | replaying the entry of a successful operation is a plain map update that keeps files apart |
| Protocol.BuildTreeFlat | internal/storage/commit.go:76-100 | the tree built for a log entry is canonical and flattens to the replay of the entry |
| Protocol.WriteKeepsPromise | internal/storage/fs_git.go:688-775 | exactly when a write succeeds and what it then leaves in files, log and catalog; a stale etag is answered with the current one, a missing file required to exist and a rejected edit each with its own error |
| Protocol.DeleteKeepsPromise | internal/storage/fs_git.go:887-949 | exactly when a delete succeeds and what it leaves; under a stale etag nothing changes and the current etag is the answer |
| Protocol.MoveKeepsPromise | internal/storage/move.go:67-163 | exactly when a move succeeds and what it leaves; an existing destination is guarded by its own etag and a new one by that of the source, and each refusal has its answer |
| Protocol.InvAgreement | internal/storage/fs_git.go:688-775 | in any state of the invariant, replaying the pending entries onto HEAD gives exactly the catalog's paths with the working tree's bytes |
| Protocol.WriteKeeps | internal/storage/fs_git.go:688-775 | a write, append, patch or link repair that succeeds, or fails before the file is replaced, keeps the invariant |
| Protocol.DeleteKeeps | internal/storage/fs_git.go:887-949 | a delete that succeeds or is refused keeps the invariant |
| Protocol.MoveKeeps | internal/storage/move.go:67-163 | a move that succeeds, is refused, or fails to write the destination keeps the invariant |
| Protocol.FailedDeleteAgreement | internal/storage/fs_git.go:915-930 | after a delete whose removal failed, agreement holds if and only if no managed file is above or below the path |
| Protocol.FailedMoveAgreement | internal/storage/move.go:112-125 | after a move whose source could not be removed, agreement holds if and only if the destination was new or held the same bytes |
| Protocol.UnloggedWriteAgreement | internal/storage/fs_git.go:735-752 | after a write whose log append failed, agreement holds if and only if the file was new or its bytes are unchanged |
| Protocol.UnloggedDeleteAgreement | internal/storage/fs_git.go:915-928 | after a delete whose log append failed, agreement holds if and only if the path held no file |
| Protocol.UnloggedMoveDisagrees | internal/storage/move.go:145-161 | after a move whose log append failed there is never agreement |
| Protocol.WriteInMoveGap | internal/storage/move.go:112-161 | a write to another path between a move's effects and its log entry breaks agreement, and is gone from the replay, if and only if it is above or below the moved path |
| Protocol.ClashSeenByDelete | internal/storage/commit.go:265-295 | a delete entry removes more than its own path if and only if a managed file is above or below it |
| ProtocolRuns.CommitKeeps | internal/storage/commit.go:35-174 | committing the oldest entry keeps the invariant and leaves the entry landed |
| ProtocolRuns.RedoIsSilent | internal/storage/commit.go:100-103 | committing an entry that has already landed, as after a crash, changes nothing and makes no second commit |
| ProtocolRuns.RemoveKeeps | internal/storage/walworker/walworker.go:340-342 | removing the landed entry keeps the invariant |
| ProtocolRuns.NextKeeps | internal/storage/fs_git.go:688-775 | every step (write, delete, move, commit, commit cut by a crash before the hook, remove, revive, rebuild of the deleted log) that does not stop halfway keeps the invariant |
| ProtocolRuns.RunInv | internal/storage/commit.go:35-174 | the invariant holds at every moment of every run from the empty project |
| ProtocolRuns.HeadCatchesUp | internal/storage/fs_git.go:1275-1286 | at every moment of every run HEAD plus log is exactly the managed working tree, and with the log drained HEAD alone is |
| ProtocolRuns.HistoryGrows | internal/storage/commit.go:131-144 | history only grows |
| ProtocolRuns.EveryRecordNamesItsDeletion | internal/storage/deletedlog_revive.go:110-185 | in every run each deleted record, but for paths whose update a crash lost, names a commit whose parent holds the path and after which no tree does, and the search by name finds it, unless it is a first-ever delete |
| ProtocolRuns.NothingLags | internal/storage/commit.go:141-163 | in a run without such a crash no path is excepted |
| ProtocolRuns.LostUpdateHarm | internal/storage/commit.go:141-163 | when the hook is skipped for a commit, the records stay true if and only if the commit deletes or lands on a path without a record |
| RecordRuns.NewestCommitDecides | internal/storage/deletedlog_store.go:163-206 | in every run, between repairs, the record of a path is what the newest commit naming it says: deleted there or not deleted, and otherwise unchanged; only a path whose update a crash lost is excepted |
| RecordRuns.RecordsAreHookLog | internal/storage/commit.go:141-163 | without repairs and revivals the records are those of the whole history, but for paths whose update a crash lost |
| RecordRuns.WholeLogKept | internal/storage/commit.go:141-163 | without such a crash either, the two logs are equal |
| RecordRuns.RepairLeaves | internal/storage/deletedlog_repair.go:26-47 | a repair leaves exactly the paths deleted by their newest touch in its window, with that commit, and no lost update |
| RecordRuns.RevivalLeaves | internal/storage/deletedlog_revive.go:86-104 | a revival drops the one record, or none when its write is refused |
| RecordRuns.RevivalReads | internal/storage/deletedlog_revive.go:55-74 | the content comes from the parent of the given commit, else of the recorded one, else of the newest commit that removed the path |
| RecordRuns.ReviveKeepsPromise | internal/storage/deletedlog_revive.go:36-104 | exactly when a revival succeeds and what it leaves; with no content to read it answers divergence and leaves files, log and history alone |
| ProtocolRuns.RevivalRestoresLastContent | internal/storage/deletedlog_revive.go:36-104 | in every run reviving a recorded path writes back exactly the content its deletion removed and takes it off the deleted list |
| Witnesses.FailedDeleteHappens | internal/storage/fs_git.go:915-930 | a run in which a delete clashes with a managed file and its removal fails |
| Witnesses.FailedMoveHappens | internal/storage/move.go:112-125 | a run in which a failed source removal leaves an overwritten destination and no agreement |
| Witnesses.FirstDeleteHappens | internal/storage/commit.go:76-100 | a run whose first commit is a delete, recorded at commit 0 |
| Witnesses.StaleRecordHappens | internal/storage/commit.go:141-163 | a run after whose crash a record names a path that HEAD holds |
| Witnesses.OverwritingMoveHappens | internal/storage/deletedlog_repair.go:159-170 | a history whose last touch of a path is a move from it onto an existing file |
| ProtocolRuns.EditActsOnWhatItRead | internal/storage/fs_git.go:702-718 | an if_match write or delete is accepted only on exactly the bytes its client had read, and a refused one changes nothing |
| ProtocolRuns.AcceptedEditsCompose | internal/storage/fs_git.go:887-949 | among any steps, a file changed only by if_match writes and deletes of earlier reads is always the accepted edits composed in order, none lost |
| Storage.ProjectStorage.WriteTransformed | internal/storage/fs_git.go:688-775 | the locked read-modify-write does exactly the protocol's transition from any state, and from an invariant state leaves the invariant, or the exact agreement of a halfway failure |
| Storage.ProjectStorage.AppendToFile | internal/storage/partialedit.go:138-143 | edits an existing file only, and its new bytes are the splice of its own old bytes |
| Storage.ProjectStorage.PatchFile | internal/storage/partialedit.go:149-154 | the same for a patch |
| Storage.ProjectStorage.DeleteFile | internal/storage/fs_git.go:887-949 | catalog, log, then file: exactly the protocol's transition; keeps the promise that a stale etag changes nothing, and the exact agreement left by a failed append or removal |
| Storage.ProjectStorage.Move | internal/storage/move.go:31-178 | destination, source, catalog, log: exactly the protocol's transition, with the exact agreement left by a failed removal or append; a destination is overwritten only under an if_match naming its own content |
| Storage.ProjectStorage.CommitEntry | internal/storage/commit.go:35-174 | commits the oldest entry once: at most one commit, none on a redo, with or without a crash before the hook |
| Storage.ProjectStorage.DrainLog | internal/storage/walworker/walworker.go:318-345 | committing and removing until the log is empty leaves HEAD with exactly the working tree's files |
| Storage.ProjectStorage.RebuildDeletedLog | internal/storage/deletedlog_repair.go:26-47 | replaces the deleted records by the bounded walk's |
| Storage.ProjectStorage.ReviveFile | internal/storage/deletedlog_revive.go:36-104 | writes back the content at the deletion commit's parent and drops exactly that record, or changes at most the deleted records |
| PartialEdit.IndexIsLeftmost | internal/storage/partialedit.go:68-83 | the edited occurrence is the leftmost one |
| PartialEdit.PatchReplacesOneSpan | internal/storage/partialedit.go:68-83 | a patch is accepted if and only if the needle occurs and every occurrence overlaps the leftmost, and it replaces that span alone |
| PartialEdit.AcceptsIffUnique | internal/storage/partialedit.go:68-83 | acceptance means a unique occurrence, for all files, if and only if the needle cannot overlap itself |
| PartialEdit.PatchBack | internal/storage/partialedit.go:68-83 | patching back with a replacement that cannot overlap itself restores the file whenever it is accepted |
| PartialEdit.PatchBackRestoresIff | internal/storage/partialedit.go:68-83 | every accepted way back restores its file if and only if the replacement cannot overlap itself |
| PartialEdit.AppendInserts | internal/storage/partialedit.go:96-128 | an append inserts its content whole at the end or next to the anchor and keeps all other bytes |
| SlashPath.RelResolves | internal/storage/linkrewrite.go:379-414 | for in-project files, joining and cleaning undo the relative path, so a rewritten link leads to the file it was made for |
| SlashPath.RelSpelling | internal/storage/linkrewrite.go:379-414 | a relative path between in-project files is made of dots and the target's own names and is never rooted |
| LinkScan.InAnyRangeIsMembership | internal/storage/linkrewrite.go:128-138 | on sorted ranges the early-exit lookup is membership in some range |
| LinkScan.ClosingParenLoop | internal/storage/linkrewrite.go:242-273 | the title-and-parenthesis loop refines its recursive specification |
| LinkGrammar.ClosingParenIff | internal/storage/linkrewrite.go:242-273 | a link closes at a position if and only if the text up to there is white space, an optional title in double quotes, single quotes or parentheses without an unescaped closer, white space and a closing parenthesis |
| LinkGrammar.DestinationIff | internal/storage/linkrewrite.go:188-238 | a destination is read if and only if the text spells one: white space, a bare text with balanced parentheses and no white space or one between angle brackets, and the closing |
| LinkGrammar.ScanIff | internal/storage/linkrewrite.go:145-181 | the links found are exactly those of a reading of the document in which backslashes take the next byte along, unprotected brackets pair, and a link is a closing bracket with a destination spelled behind it |
| LinkScan.ParseInlineDestinationLoop | internal/storage/linkrewrite.go:188-238 | the destination loop refines its recursive specification |
| LinkScan.ScanOrdered | internal/storage/linkrewrite.go:145-181 | links come in order with disjoint destinations inside the document |
| LinkTokens.ScanTok | internal/storage/linkrewrite.go:145-273 | the scan of a document is the scan of its token shape carried to the tokens' positions, so neutral text never affects it |
| LinkSubst.ScanEdited | internal/storage/linkrewrite.go:52-70 | original and spliced document share one shape and hence the same links at corresponding places |
| LinkRewrite.ScanRewrites | internal/storage/linkrewrite.go:145-181 | the opener-stack scan collects exactly the rewrites of the scanned links |
| LinkRewrite.ScanOutboundLinks | internal/storage/linkrewrite.go:327-372 | the extractor returns exactly the files the scanned links resolve to |
| LinkRewrite.RewriteLinks | internal/storage/linkrewrite.go:52-70 | the output is the content with exactly the matching destinations replaced, and the count is theirs |
| LinkMeaning.RewrittenIffResolves | internal/storage/linkrewrite.go:285-306 | for in-project files a link is rewritten if and only if it resolves to the moved file |
| LinkMeaning.ScannersAgree | internal/storage/linkrewrite.go:313-372 | the rewriter changes a file if and only if the extractor lists the moved file among its links |
| LinkMeaning.NewPathResolves | internal/storage/linkrewrite.go:379-414 | the new destination resolves to the file's new place and keeps the anchor |
| LinkMeaning.RewritePreservesMeaning | internal/storage/linkrewrite.go:52-70 | after rewriting, the same links are found in the same order; those to the moved file lead to its new place with their anchors, all others are byte-identical |
| LinkMeaning.SecondRewriteIsIdle | internal/storage/linkrewrite.go:52-70 | a second rewrite for the same move changes nothing |
| LinkWalk.ResolvesByWalking | internal/storage/linkrewrite.go:285-306 | a link names a project file if and only if it is no URL and the walk along its components, from the referrer's directory or from the root, stays in the project and ends at that file |
| LinkWalk.RootedNeverClimbs | internal/storage/linkrewrite.go:302-306 | cleaning a rooted path never leaves the root |
| LinkText.UnescapeIff | internal/storage/linkrewrite.go:296-299 | percent-decoding yields a text if and only if it is given one of its percent-encodings, every byte as itself or as two hexadecimal digits in either case |
| LinkText.BrokenPercent | internal/storage/linkrewrite.go:296-299 | decoding fails if and only if a percent sign lacks its two digits, and the path is then taken as it stands |
| LinkText.ReadBackIff | internal/storage/linkrewrite.go:188-273 | the text put in a link is read back as that destination, with the same closing parenthesis, if and only if it can be one in that place |
| LinkText.NewPathResolvesIff | internal/storage/linkrewrite.go:379-414 | for a move to any name, the text put in a matching link leads to the new place if and only if it has no anchor sign, is its own decoding and has no scheme, or, once percent-encoded, has no scheme |
| LinkText.SpaceNeverRead | internal/storage/linkrewrite.go:217-238 | a bare destination with white space before any backslash is never read back |
| FixLinks.DiscoverReferrers | internal/storage/move.go:218-260 | the truth scan finds exactly the Markdown files that rewriting would change |
| FixLinks.IndexReferrers | internal/storage/index/index.go:345-375 | the reverse lookup finds exactly the records that list the target |
| FixLinks.FindReferrersForFix | internal/storage/fixlinks.go:92-101 | with current records, index lookup and truth scan name the same files to repair |
| FixLinks.MarkdownIsSuffix | internal/storage/linkrewrite.go:313-317 | a file counts as Markdown if and only if its name ends in .md in any letter case |
| FixLinks.FixLinks | internal/storage/fixlinks.go:64-85 | an undisturbed pass replaces each referrer whose write does not fail by its rewrite, and changes no other file |
| FixLinks.FixLinksRewriteReferrer | internal/storage/fixlinks.go:110-141 | a repaired file is the rewrite of its own bytes just before; any intervening change makes the repair a no-op |
| FixLinksRuns.PassLosesNothing | internal/storage/fixlinks.go:64-141 | whatever other steps run during a pass, each of its writes replaces exactly the bytes the pass read by their rewrite, or changes nothing |
| FixLinksRuns.PassFixes | internal/storage/fixlinks.go:64-141 | a referrer nobody else changes during the pass ends as its rewrite, whatever happens to other files |
| FixLinksRuns.PassLeavesNoLink | internal/storage/fixlinks.go:64-141 | after a pass over the referrers, no undisturbed, plainly spelled Markdown file other than the moved one has a link that resolves to the old place |
| FixLinksRuns.FixedHasNoLink | internal/storage/fixlinks.go:64-85 | the same for every file after an undisturbed pass |
| OpRecovery.RegistryStepRuns | internal/storage/nsregistry/nsregistry.go:281-424 | re-keying succeeds from every stage after the directory moved, is idempotent, and fails exactly for an unregistered project's rename |
| OpRecovery.RegrantIdle | internal/scopeclean/scopeclean.go:63-95 | rewriting grants changes nothing if and only if no grant names the source |
| OpRecovery.RewriteRuns | internal/scopeclean/scopeclean.go:63-95 | one store's rewriting settles that store, leaves the other store alone and undoes nothing, so a crash between the two stores is recovered |
| OpRecovery.RelocateRuns | internal/storage/projectmove.go:185-196 | relocating a sibling database never leaves it behind, and drops it only when the rename failed |
| OpRecovery.NewSideArrived | internal/storage/nsregistry/nsregistry.go:281-424 | after a completed project operation the target is registered, the source is not, every other project of every namespace is as before, and so are directories and databases; after a namespace rename each project, database and record is under the new name and nothing else changed |
| OpRecovery.RegrantedArrived | internal/scopeclean/scopeclean.go:63-95 | rewritten grants keep their holders: a holder has the target exactly if it had target or source, none names the source, all others stay |
| OpRecovery.RollbackRegistry | internal/storage/projectmove.go:295-326 | on any disk a rollback brings a record that reached the target back to the source, registers a moved project's source in any case, and touches no other entry |
| OpRecovery.BackStepKeeps | internal/storage/projectmove.go:295-326 | no step of a rollback leaves the old side |
| OpRecovery.RollbackRuns | internal/storage/projectmove.go:295-326 | a rollback that ends has cleared the journal, removed stray target catalog and index, re-added a moved project's record and returned its grants |
| OpRecovery.LiveRuns | internal/storage/projectmove.go:100-139 | an uninterrupted operation ends wholly on the new side, entry by entry, with the journal cleared, or, when the rename fails, exactly where it started |
| OpRecovery.LiveStage | internal/storage/projectrename.go:95-126 | every crash point of a live move or rename is one of the stages |
| OpRecovery.RecoveryStage | internal/storage/projectmove.go:229-289 | so is every crash point of a recovery |
| OpRecovery.RecoveryResolves | internal/storage/projectmove.go:229-326 | after any crash and any number of crashed recoveries, one recovery that ends leaves a complete rollback or the whole new side, entry by entry, by where the directory is, and clears the journal unless an unregistered project was renamed |
| OpRecovery.InconsistentIffMissing | internal/storage/projectrename.go:282-305 | the inconsistent branch is reached if and only if a namespace without a directory is being renamed |
| OpRecovery.MissingReachesInconsistent | internal/storage/projectrename.go:214-240 | a crash right after such a rename's journal entry does reach it |
| OpRecovery.RolledBackIsOld | internal/storage/projectmove.go:295-326 | after a complete rollback, exactly when registry, grants and sibling databases are those from before the operation |
| OpRecovery.NextOperationForgets | internal/storage/projectmove.go:200-207 | a later project operation overwrites the journal of an unfinishable rename, and that project stays at its new place unregistered through any crashes |
| OpRecovery.UnlistedHappens | internal/storage/projectrename.go:95-126 | an admitted rename that leaves its journal |
| OpServer.Server.Relabel | internal/storage/projectmove.go:61-139 | the three operations are accepted exactly with valid names, no write in progress and their registry and disk checks, and then perform exactly their program of effects, up to the moment the process dies |
| OpServer.Server.CompleteAfterRename | internal/storage/projectmove.go:146-179 | the remainder relocates siblings, re-keys and rewrites grants in that order |
| OpServer.Server.RollBack | internal/storage/projectmove.go:295-326 | the rollback performs exactly its program of effects |
| OpServer.Server.RecoverInterruptedOp | internal/storage/projectmove.go:229-289 | recovery chooses forward or back by where the directory is |
| OpServer.CrashAndRecover | internal/storage/projectmove.go:229-289 | a server that dies anywhere and one that lives through recovery end on one side with no journal, unless an unregistered project was renamed |
| Diff.SplitIsTheLines | internal/storage/diff.go:271-284 | splitting loses nothing and is the only way to cut a text into lines |
| Diff.Flatten | internal/storage/diff.go:177-213 | lines are numbered from 1 on each side, and the cap is hit exactly when there are more than 20000 |
| Diff.ChangedLines | internal/storage/diff.go:215-221 | exactly the changed lines, ascending |
| Diff.ClusterEnd | internal/storage/diff.go:228-234 | a cluster extends over every gap of at most six unchanged lines and no further |
| Diff.FoldIsHunk | internal/storage/diff.go:251-269 | a hunk's starts and counts are its window's positions and sizes on each side |
| Diff.EveryChangeOnce | internal/storage/diff.go:226-245 | each changed line is inside exactly one hunk, and hunks never touch |
| Diff.ShownIffNear | internal/storage/diff.go:223-245 | a line is in some hunk if and only if it or a line at most three away from it is changed |
| Diff.NoOldLinesMeansAdded | internal/storage/diff.go:248-250 | a hunk without lines on a side occurs if and only if that side is empty, and is then the only hunk |
| Diff.RoundTrip | internal/storage/diff.go:177-269 | applying the hunks at their recorded starts and counts turns the old lines into the new, and reversed the new into the old |
| Diff.ChunksToHunks | internal/storage/diff.go:177-246 | the emitted hunks are those of the change clusters and patch either side to the other |
| Diff.SidesAreTheFiles | internal/storage/diff.go:173-176 | for chunks of whole lines, each side of the numbered lines is that file's own lines |
| Search.WindowsAre | internal/storage/index/index.go:75-90 | a bigram list is sorted and holds exactly the two-character windows |
| Search.ContainsAllBigrams | internal/storage/index/index.go:98-106 | the lookup decides whether every wanted bigram is in the record |
| Search.MatchHoldsBigrams | internal/storage/index/index.go:70-74 | a text that contains the query holds every bigram of the query |
| Search.GateIsSafeIffCovered | internal/storage/discovery.go:225-241 | the gate hides no match of any query if and only if the record covers the file's content |
| Search.Project.WriteFile | internal/storage/index_store.go:92-109 | a write keeps records covering, except exactly when its put fails over a record that lacks a bigram of the new content |
| Search.Project.DeleteFile | internal/storage/index_store.go:113-126 | a delete keeps records covering whether or not its record goes |
| Search.Project.Reconcile | internal/storage/index_sweep.go:81-196 | a sweep of an unhealthy index replaces the records by those of the files' current content and sets the marker to HEAD |
| Search.Project.SearchFiles | internal/storage/discovery.go:151-268 | with covering records or no usable index, the matches are exactly the files whose name or content, as the mode asks, holds the query, once each in walk order, with the snippet exactly when the content matched; in any case every match is genuine and no name match is missed |
| Chunks.JoinedLines | internal/librariansrc/chunk.go:41 | splitting a text at newlines loses nothing: joining the lines gives it back |
| Chunks.Paragraphs | internal/librariansrc/chunk.go:59-87 | paragraphs are the maximal runs of non-blank lines, in order |
| Chunks.SplitLargeChunk | internal/librariansrc/chunk.go:109-141 | pieces tile the paragraph, are cut only where the next line no longer fits, and exceed the maximum only as one long line |
| Chunks.MergeSmallChunks | internal/librariansrc/chunk.go:143-158 | merging keeps the text and order, makes every chunk but the last reach the minimum, takes no more parts than that needs, and bounds the size |
| Chunks.Frontmatter | internal/librariansrc/chunk.go:41-57 | the body starts after the second fence if the first line is one, else at the top |
| Chunks.TilesCarryTheText | internal/librariansrc/chunk.go:31-36 | body chunks carry every non-blank body line once and in order |
| Chunks.RangesIncrease | internal/librariansrc/chunk.go:24-29 | line ranges strictly increase and are disjoint |
| Chunks.SplitChunks | internal/librariansrc/chunk.go:37-107 | frontmatter first, then body chunks that carry the body's text with the size bounds |
| Notify.RingPush | internal/notify/center.go:138-147 | one publish keeps the ring equal to the end of the log |
| Notify.MissedIsLost | internal/notify/center.go:242-247 | below the largest number, the oldest retained event tells exactly whether an event above the given one was overwritten; at it, the comparison says missed although nothing is |
| Notify.AboveIsSuffix | internal/notify/center.go:248-253 | before numbers wrap, the events above a number are a suffix of the log |
| Notify.OwedIsOthersEvents | internal/notify/center.go:153-162 | a subscriber is owed exactly the events after it joined that it did not send |
| Notify.Center.PublishFrom | internal/notify/center.go:134-164 | appends one event with the next number, keeps the last `count` in the ring, and delivers to everyone but the sender |
| Notify.Center.Snapshot | internal/notify/center.go:219-226 | the last `count` events of the log, oldest first |
| Notify.Center.Since | internal/notify/center.go:232-255 | exactly the retained events above the number, with the missed flag right except at the largest number |
| Notify.Center.Unsubscribe | internal/notify/center.go:209-213 | removes one subscriber and leaves every other's deliveries alone |
| Notify.Center.SubscribeAs | internal/notify/center.go:196-214 | a new subscriber is owed events from now on |

## Left out

- Locks, goroutines and timing: operations are atomic steps of one project, interleaved in any order, except where `Protocol.WriteInMoveGap` takes a move apart. That a writer and a project move exclude each other is not claimed: each side checks before it sets its mark.
- The writability gate (project states, namespace quiescing), path validation and symlink checks before an operation: paths are valid component lists.
- File modes other than file and directory, and directories left empty in the working tree: whether an operation fails there is an input.
- ProtocolRuns.NextKeeps: runs leave out operations that stop halfway; what those leave behind is stated for each of them, from any state of the invariant.
- Catalog and index updates that fail (other than in `Search`), and edits made outside Shoka.
- The deleted log's size cap with oldest-first eviction, timestamps and ordering of its listing.
- Recovery commits, restores and lost+found in the history: history is made of write, delete and move commits.
- `sort.Slice` inside tree storing is a function; `GitTree.StoredOrderIsForced` says why any sort gives the same list.
- Quarantine of entries that can never commit, and log entries of a project under its old name during a special operation: no entry for the old name is pending.
- Journal writes that fail, journals of the older single-operation format, and a sibling database whose relocation and removal both fail.
- The rules for valid names (an input of `OpServer.Server.Relabel`, like the write in progress); a leftover target directory without a repository only refuses the operation.
- OpRecovery.RecoveryResolves: grants are claimed on the new side only when a scope cleaner is wired into the recovery that finishes, because the server wires it after startup recovery.
- LinkMeaning.NewPathResolves: the step of the document theorems for names of neutral bytes; `LinkText.NewPathResolvesIff` has every name.
- LinkMeaning.RewritePreservesMeaning: the document theorem is for matched paths and new names without white space, brackets, quotes, backslashes, `#`, `%` and `:`. For other names it fails in general, and `LinkText` has the exact conditions link by link. Protected ranges are a parameter that shifts with the splice, because they depend on the Markdown parser.
- LinkMeaning.SecondRewriteIsIdle: the same restriction.
- FixLinksRuns.PassLeavesNoLink: the same restriction; what a pass writes (`FixLinksRuns.PassFixes`) is stated for all names.
- FixLinksRuns.FixedHasNoLink: the same restriction.
- Storage.ProjectStorage.DrainLog: the worker's pool, its back-off and the polling and time-out of waiting for it are not modelled.
- The Markdown parser's protected ranges and `url.Parse` are parameters; hidden project directories are not part of the file map.
- Match snippets, the vector index, metrics, and the search walk's errors.
- Nil receivers and nil callbacks of the notification center, wrap-around of subscription identifiers, and delivery order between concurrent publishers.
- Diff input sniffing (binary, byte caps, timeout) and the line-difference algorithm itself: chunks are the input.
- Snapshots, drift timers, namespace health, HTTP, WebSocket, command line and configuration.
