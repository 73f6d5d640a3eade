# Verified model of the agent edit review, sandbox grants, thread saves and thread deletion

This project models the parts of the editor's agent that keep state other code relies on, and
proves what they promise. `dafny verify dfyconfig.toml` verifies all of it.

**Edit review** (`packages/action_log/src/lib.rs`). A review keeps a base text (what the user has accepted), the current
snapshot, and a patch of unreviewed agent hunks between them. Texts are characters; rows,
row offsets and the clamped end of a text are defined from them (`RopeText`), so every
operation is modelled at the character offsets the code computes and then proved to be a
splice of rows. `Patches` says when a patch links two texts. `Conflicts`, `Rebase`, `Diamond`,
`Survivors`, `StandingEdits` and `RebaseLoop` treat the rebase of user edits past agent hunks;
`PointEdits`, `TouchedRows` and `SnapshotDiffs` the way from character edits to row edits;
`TextEdits`, `EditBatches`, `AnchorLaws` and `Reverts` simultaneous buffer edits and their undo;
`PatchParts`, `Folds` and `KeepLaws` accepting and rejecting part of a patch; `ReviewLog`,
`ReviewSteps` and `TrackedBuffers` the tracked buffer and its operations;
`EngineHunks` and `HunkShifts` the way from the hunks of the diff engine to those of a review;
`RevertRows`, `ReviewRuns` and `ShiftedReverts` how a review sees its own reverts over whole
runs; `UndoneRejects` and `UndoneReviews` how it sees the undo of a reject; `PatchReplay` the
law that replaying the hunks on the base gives the buffer.

**Sandbox grants** (`packages/agent/src/sandboxing.rs`). `MinimalSets` treats lists kept minimal under any covering preorder,
`HostPatterns` and `HostParsing` host patterns on strings, `SandboxGrants` the grant store,
`GrantLaws` the agreement of the covered check with what is enforced, `GrantRuns` whole runs.

**Saving threads** (`packages/agent/src/lib.rs`). `SaveWorker` is the state machine of the one-slot mailbox, the wake
channel (a version counter and a closed flag) and the worker, with storing and waking as two
steps; `SaveSessions` has the objects behind it and the release of a session. `Skills` treats
the two ways in which same-named skills are resolved.

**Deleting threads** (`packages/agent/src/db.rs`). `ThreadsDb` treats the worklist that collects a thread's descendants
and the deletion.

## When a reject changes the base

Rejecting hunks should leave the base alone: the revert comes back to the review as a user
edit, conflicts with the hunk it reverts, and is dropped. That fails for a hunk that slips.
The first branch of `point_to_row_edit` moves an edit one row down if it starts at a blank row
of both texts. Storing a hunk goes through it, and so does its revert: where another blank
row follows on both sides, the revert is moved again, off the stored hunk.

- `RevertRows.RevertConflicts` says exactly which hunks slip, by rows of base and snapshot, and
  `ShiftedReverts.RejectOneExact` exactly when rejecting one hunk of any patch leaves the base alone.
- `HunkShifts.SlipCause` traces a slip back to the hunks of the diff engine. If none of these
  starts at a blank row of both texts, or if the text first read has no two blank rows in a row
  and no hunk starts with a blank line common to both sides, nothing slips, and every run of
  edits and rejects of any number of hunks keeps the base (`ReviewRuns.SettledRunKeepsBase`,
  `ReviewRuns.PlainRunKeepsBase`).
- `ShiftedReverts.AlignmentDecides` shows that otherwise it depends on where the engine aligns
  repeated rows: the base has the rows "a", "", "", "x", "", "", "b" and the snapshot "a", "", "",
  "b". If rows 1 to 3 are reported as deleted, the hunk is stored as rows 2 to 4 and rejecting it
  changes the base; if rows 3 to 5 are, the base stays. The engine's placement of such hunks
  (`packages/buffer_diff/src/lib.rs`:1226-1232) is not part of this model.

The undo of a reject also comes back as a user edit. What it restores is free of the hunks that
are left, so it is folded into the base: rejecting and undoing restores the buffer and accepts
the hunks (`UndoneRejects.UndoneRejectIsAccept`, `UndoneReviews.RejectAllAndUndo`).

## How the source's outside world enters

- The diff engine is a parameter: a function that returns, for any two texts, character ranges of
  whole lines that link them, with a character kept between any two, and nothing for equal texts;
  or, for a buffer that is only a newline, the one hunk of the special case (`EngineHunks.Found`).
- `Patch::push` of the `text` crate is not part of this model; it is taken to extend the last edit
  of the patch if the pushed edit touches it (`EngineHunks.Push`).
- The edits a buffer reports since a snapshot are any character patch between the two texts
  with a character kept between any two edits.
- IDN conversion and the test for IP addresses are parameters of parsing (`NameRules`).
- The database answers each write as it likes, by the number of the snapshot (`SaveWorker.Database`).

## Model

| member | source | states |
|---|---|---|
| RopeText.ReplaceRowsSplices | packages/action_log/src/lib.rs:1181-1195 | Replacing a clamped row range by a clamped row range of another text, at character offsets, is a splice of the two lists of rows whenever both ranges start at an existing row and agree on reaching the end |
| Patches.SpliceSnoc | packages/action_log/src/lib.rs:1178-1196 | One more edit at the end of a patch is one replacement in the text so far, at the old rows shifted by the growth of the edits before: the running delta |
| Patches.SpliceLinks | packages/action_log/src/lib.rs:2555-2568 | Replacing all old ranges of a patch at once gives exactly the text the patch leads to |
| Patches.LinksInverse | packages/action_log/src/lib.rs:847-859 | The inverse of a patch leads back |
| Patches.AcceptLinks | packages/action_log/src/lib.rs:661-696 | For any set of hunks folded into the base, the other hunks, with shifted old ranges, still lead from the new base to the unchanged snapshot |
| Patches.RevertIsAcceptRest | packages/action_log/src/lib.rs:813-874 | Reverting any set of hunks in the snapshot gives the text that folding exactly the other hunks into the base gives |
| Conflicts.ConflictIffMeets | packages/action_log/src/lib.rs:1154-1162 | A user edit and a hunk conflict if and only if some row lies in both ranges, or the edit inserts strictly inside the hunk, or it touches the place where the hunk deleted rows |
| Conflicts.NextGroupCleared | packages/action_log/src/lib.rs:1153-1175 | Each group of hunks and edits is one hunk, one edit or a connected chain of conflicts, and no conflict crosses to a later group |
| Conflicts.ChainedConflicts | packages/action_log/src/lib.rs:1163-1173 | In a cluster every user edit conflicts with some hunk and every hunk with some user edit |
| Conflicts.ClusterCleared | packages/action_log/src/lib.rs:1164-1173 | The cluster grown from a conflict, by overlap with the next edit or conflict with the next hunk, is connected and clear of everything behind it |
| Rebase.ComposeLinks | packages/action_log/src/lib.rs:1149-1199 | Hunks and user edits composed group by group lead from the base directly to the new snapshot |
| Diamond.BetweenIsFree | packages/action_log/src/lib.rs:1153-1163 | An edit behind some hunks and in front of the others conflicts with none and is displaced by exactly the growth of the former |
| Diamond.UserOnlyIsApplied | packages/action_log/src/lib.rs:1177-1197 | The edits that conflict with no hunk of the whole patch, at their translated base rows, are exactly the groups without hunks of the composed patch |
| Diamond.RebaseDiamond | packages/action_log/src/lib.rs:1137-1201 | The diamond: the base with all conflict-free user edits applied at once is linked to the new snapshot by an ordered, non-overlapping patch |
| StandingEdits.UnmetStands | packages/action_log/src/lib.rs:1177-1196 | A user edit of any length that meets no hunk stands in the new base, with the rows the user wrote, moved by the hunks and the applied edits in front of it |
| StandingEdits.AppliedIsUnmet | packages/action_log/src/lib.rs:1145-1197 | The edits applied are exactly those that meet no hunk, in order, at their base rows |
| Survivors.ComposePartitions | packages/action_log/src/lib.rs:1149-1175 | The groups partition all hunks and all user edits, in order |
| Survivors.ComposeComponents | packages/action_log/src/lib.rs:1149-1175 | The groups are the connected components of the conflict relation, in order |
| Survivors.RebaseComponents | packages/action_log/src/lib.rs:1137-1201 | The k-th component with hunks is the k-th hunk of the rebased patch, moved on the old side by what was applied to the base in front of it; it covers the base rows of all its hunks and the new rows of all its edits, and starts and ends where one of them does |
| Survivors.UntouchedSurvives | packages/action_log/src/lib.rs:1137-1201 | A hunk no user edit conflicts with is in the rebased patch at computed shifts, with the same old rows and the same new rows |
| RebaseLoop.ApplyFree | packages/action_log/src/lib.rs:1178-1197 | Applying one conflict-free edit through the two running deltas stays inside both texts and extends the splice by that edit |
| RebaseLoop.ApplyNonConflictingEdits | packages/action_log/src/lib.rs:1137-1201 | The two-pointer loop terminates, every index stays inside the base, and its result is the declarative rebase: all edits free of the whole patch, replaced at once; every edit that meets no hunk, by rows, stands in it, and a change is reported exactly if there is such an edit |
| PointEdits.RowEditShape | packages/action_log/src/lib.rs:1227-1250 | All three branches start the row edit 0 or 1 rows behind the start point and end it 0 or 1 rows behind the end point, equally on both sides, at existing rows |
| TouchedRows.RowEditTouches | packages/action_log/src/lib.rs:1227-1250 | At any column the row edit has exactly the rows from the one the edit starts in to the one it ends in, counted in newlines: without the first if a newline stands where the edit starts before and after it, and else without the last if it runs from line start to line start, on both sides |
| TouchedRows.WholeRowsLeftOut | packages/action_log/src/lib.rs:1228-1238 | A row that ends in front of the edit, or whose newline stays where the edit starts, or that starts behind the edit, is not in the row edit, on either side |
| TouchedRows.RowInFrontLeftOut | packages/action_log/src/lib.rs:1228-1238 | A row of the old text left whole in front of the edit has a counterpart with the same characters in the new text, and neither is in the row edit |
| SnapshotDiffs.PointToRowEditSound | packages/action_log/src/lib.rs:1227-1250 | For any two texts and a character edit between them, replacing the computed rows, clamped, by the computed rows of the new text gives the new text |
| SnapshotDiffs.RowEditsGaps | packages/action_log/src/lib.rs:1207-1209 | The row edits of a character patch leave only gaps of equal rows |
| SnapshotDiffs.CoalesceLinks | packages/action_log/src/lib.rs:1211-1223 | Merging edits that touch keeps the old-to-new transformation, for edits with non-decreasing ends on both sides |
| SnapshotDiffs.CoalesceSeparated | packages/action_log/src/lib.rs:1211-1223 | After merging, some row lies between any two edits on both sides |
| SnapshotDiffs.CoalesceCovers | packages/action_log/src/lib.rs:1211-1223 | Merging only fills what is covered: a row touches a merged edit exactly if it touches one of the edits |
| SnapshotDiffs.DiffLinks | packages/action_log/src/lib.rs:1203-1225 | Row edits of a snapshot difference are an ordered, strictly separated row patch between the two texts, starting at existing rows |
| SnapshotDiffs.DiffSnapshots | packages/action_log/src/lib.rs:1203-1225 | The nested loop computes the merged row edits, an ordered and separated patch between the two texts: its rows are exactly those that some character edit touches, on both sides, each edit starts and ends where the rows of some character edit do, and rows that all edits leave whole are left out |
| TextEdits.UndoIsInverse | packages/action_log/src/lib.rs:825-831 | Anchors taken at the bounds of each reverted hunk, carried through the simultaneous edit, bound exactly the text that replaced it |
| TextEdits.UndoRestores | packages/action_log/src/lib.rs:861-872 | Any ordered batch of simultaneous edits followed by its recorded undo restores the text exactly |
| EditBatches.MergedDisjoint | packages/language/src/buffer/core.rs:1991-2020 | Turning round, skipping and merging makes disjoint edits in order out of any edits inside the text |
| EditBatches.MergedSame | packages/language/src/buffer/core.rs:1991-2020 | Ordered edits with a character kept between any two lead to the same text, and carry every anchor to the same place, as the batch made of them |
| EditBatches.MergedTexts | packages/language/src/buffer/core.rs:1994-2020 | Whatever the ranges, the batch writes what the edits write, in their order |
| EditBatches.MergedReplaces | packages/language/src/buffer/core.rs:1994-2020 | If the edits start in order, the batch replaces exactly the characters that some edit replaces |
| AnchorLaws.AnchorsFollow | packages/action_log/src/lib.rs:825-831 | When a batch is made, an anchor attached to a kept character stays at that character, and one attached to a replaced character lands at the end of what replaced it |
| ReviewLog.AnchorInText | packages/action_log/src/lib.rs:991-1000 | However a buffer was edited since, an anchor taken inside it resolves to a place inside it |
| ReviewLog.BatchReplays | packages/language/src/buffer/core.rs:1991-2020 | Each batch made extends the log so that it still leads from text to text |
| Reverts.RevertsSplice | packages/action_log/src/lib.rs:847-872 | Reverting hunks at character offsets, all at once, is the splice of their base rows into the rows of the buffer |
| Reverts.RevertsOrdered | packages/action_log/src/lib.rs:847-872 | The reverts of separated hunks are ordered and disjoint character edits |
| PatchParts.AcceptPatch | packages/action_log/src/lib.rs:661-696 | After a partial accept the remaining hunks are again a patch as the engine needs it: linked, separated, anchored |
| PatchParts.RejectLinks | packages/action_log/src/lib.rs:813-874 | After a partial reject the remaining hunks lead from the unchanged base to the new buffer |
| PatchParts.AcceptRejectCommute | packages/action_log/src/lib.rs:661-696 | For every split of the hunks, accepting one part and rejecting the other reach the same base and the same buffer in either order, and these are equal |
| PatchParts.AcceptTwice | packages/action_log/src/lib.rs:661-696 | Two accepts in succession are one accept of the union |
| Folds.FoldTake | packages/action_log/src/lib.rs:667-694 | Folding the next hunk through clamped offsets and the running delta extends the splice of the hunks taken |
| ReviewLog.MetricsBalance | packages/action_log/src/lib.rs:1103-1112 | Lines added minus lines removed is the total growth of the edits counted |
| ReviewLog.MetricsCountRows | packages/action_log/src/lib.rs:1103-1112 | Separated edits count every new row once as added and every old row once as removed |
| ReviewLog.ResolveRecorded | packages/action_log/src/lib.rs:825-866 | With no edit in between, the recorded anchors resolve to the bounds of the reverted text |
| ReviewLog.Buffer.Edit | packages/language/src/buffer/core.rs:1991-2023 | Whatever edits are given, in any order and overlapping, become one batch of disjoint edits made at once and logged; edits with a character kept between any two are made as they are |
| ReviewLog.Buffer.SetText | packages/action_log/src/lib.rs:799-801 | Replaces the whole text by one logged edit |
| ReviewSteps.Selected | packages/action_log/src/lib.rs:835-845 | A hunk picked is touched by a requested range; with ascending ranges, it is picked exactly if it is touched |
| ReviewLog.RejectTouchesIff | packages/action_log/src/lib.rs:832-845 | A range touches a hunk for a reject if and only if some existing row of the buffer is in the range and in the hunk, both closed at their ends |
| ReviewSteps.MaskByRows | packages/action_log/src/lib.rs:832-845 | The hunks picked have a row of the buffer in common with some range; with ascending ranges they are all of these |
| ReviewLog.KeepTouchesIff | packages/action_log/src/lib.rs:664-668 | A range touches a hunk for a keep if and only if some row is in both, closed at their ends |
| ReviewSteps.DropOne | packages/action_log/src/lib.rs:836-838 | A range dropped for ending before a hunk touches no later hunk either |
| ReviewSteps.MetAt | packages/action_log/src/lib.rs:415-441 | A hunk passed at a committed edit is in the commit exactly if that edit makes the same change |
| ReviewSteps.MetAll | packages/action_log/src/lib.rs:442-446 | A committed edit left behind matches no remaining hunk |
| ReviewSteps.SameChangeByRows | packages/action_log/src/lib.rs:415-441 | A committed edit makes the same change as a hunk if and only if the old rows are the same range and the new rows, clamped to the texts, read the same |
| TrackedBuffers.TrackedBuffer.Read | packages/action_log/src/lib.rs:185-197 | Tracks a buffer as it is, with nothing to review |
| TrackedBuffers.TrackedBuffer.Create | packages/action_log/src/lib.rs:168-184 | Tracks a created or overwritten file with one hunk that is a patch from the old content to the new |
| TrackedBuffers.TrackedBuffer.CreateAgain | packages/action_log/src/lib.rs:107-131 | Creating a file over a tracked buffer replaces the accepted text, unless the file was created in this review already |
| TrackedBuffers.CreateThenReject | packages/action_log/src/lib.rs:107-131 | Rejecting a file created over a tracked one gives the text the user had accepted before |
| TrackedBuffers.TrackedBuffer.TrackEdits | packages/action_log/src/lib.rs:327-373 | A user edit, as exactly the rows its characters touch, rebases the base past the hunks: every row edit that meets no hunk stands in the new base, and the diamond closes; an agent edit leaves the base; either way the hunks are those stored from what the diff engine finds between base and snapshot |
| TrackedBuffers.TrackedBuffer.KeepEditsInRange | packages/action_log/src/lib.rs:639-704 | Folds exactly the hunks that have a row in common with the range, both closed at their ends, into the base, keeps the others shifted and linked, counts exactly the folded lines, and promotes a fully accepted new file |
| TrackedBuffers.TrackedBuffer.KeepAllEdits | packages/action_log/src/lib.rs:894-917 | The snapshot becomes the base and nothing is left to review; a deleted file is untracked |
| TrackedBuffers.TrackedBuffer.KeepCommittedEdits | packages/action_log/src/lib.rs:375-467 | Folds exactly the hunks whose old rows and new text some committed edit has too; the others stay linked; the fast path for equal texts is the fold of every hunk |
| TrackedBuffers.TrackedBuffer.RejectEditsInRanges | packages/action_log/src/lib.rs:710-892 | Each status: overwritten content restored, new file deleted only if untouched, deleted file restored and re-read, and for a modified file the hunks that have a row of the buffer in common with some range, both closed at their ends, spliced back with an undo that restores the buffer |
| TrackedBuffers.UndoLastReject | packages/action_log/src/lib.rs:988-1002 | Right after a reject, the undo turns the buffer back into what it was; later, it makes one batch of what the anchors resolve to, even if these touch or overlap |
| TrackedBuffers.RejectThenUndo | packages/action_log/src/lib.rs:975-1002 | For the hunks of a modified file and for an overwritten file, a reject followed by its undo leaves the buffer exactly as it was |
| TrackedBuffers.WholeUndoRestores | packages/action_log/src/lib.rs:727-750 | Rejecting an overwritten file and undoing it restores the agent content |
| TrackedBuffers.PickedAll | packages/action_log/src/lib.rs:824-873 | The picked reverts splice the base rows back, and the undo recorded with them restores the buffer |
| TrackedBuffers.LeaveRest | packages/action_log/src/lib.rs:414-448 | Hunks behind the last committed edit are in no commit and stay |
| PatchReplay.ReplayPatch | packages/action_log/src/lib.rs:2553-2568 | The loop of the repository that replays the hunks on the base, each at the start of its new rows, reaches the buffer text, for every state whose hunks link base and buffer |
| KeepLaws.KeepTwice | packages/action_log/src/lib.rs:661-696 | Keeping one range and then another equals keeping every hunk either touches |
| KeepLaws.KeepEverything | packages/action_log/src/lib.rs:911-912 | A keep that touches every hunk makes the snapshot the base and leaves nothing, as keeping all does |
| KeepLaws.KeepBalance | packages/action_log/src/lib.rs:692-693 | The base grows by lines added less lines removed, and the hunks left account for the rest of the difference |
| EngineHunks.StoreHunks | packages/action_log/src/lib.rs:493-513 | The loop that widens the hunks of the engine and pushes them one by one stores the merged row edits, a linked, separated and anchored patch with exactly the rows the hunks touch |
| EngineHunks.CoalesceSnoc | packages/action_log/src/lib.rs:495-512 | Pushing onto the patch, where an edit that touches the last one extends it, is merging all edits that touch |
| HunkShifts.SlipCause | packages/action_log/src/lib.rs:1228-1238 | A stored hunk slips when rejected only if some hunk of the engine starts at two blank rows in a row of both texts, or with a blank line common to both sides |
| HunkShifts.SettledStays | packages/buffer_diff/src/lib.rs:1216-1241 | If no hunk of the engine starts at a blank row of both texts, no stored hunk slips |
| HunkShifts.NoTwoBlanksStays | packages/action_log/src/lib.rs:1228-1238 | If the base has no two blank rows in a row and the engine leaves no common blank line at the start of a hunk, no stored hunk slips |
| RevertRows.BatchIsEditsSince | packages/action_log/src/lib.rs:1207-1209 | A batch of simultaneous buffer edits is reported as a character patch between the two texts |
| RevertRows.RevertRowEdit | packages/action_log/src/lib.rs:1227-1250 | The rows a revert is widened to: those of its hunk, but for the one-row shift of the first branch and an empty last row |
| RevertRows.RevertAtLineEnd | packages/action_log/src/lib.rs:1228-1238 | A revert is moved one row down exactly if its hunk starts at a blank row of both texts that is not the last |
| RevertRows.RevertConflicts | packages/action_log/src/lib.rs:1153-1175 | A revert conflicts with its own hunk if and only if the hunk does not slip: it has at most one new row and starts at a blank row of both texts, or it is one new row that is the empty last row of both |
| ReviewRuns.RejectEnabled | packages/action_log/src/lib.rs:345-354 | Any hunks of a consistent session can be rejected, and rebasing the reverts is defined |
| ReviewRuns.RejectKeepsBase | packages/action_log/src/lib.rs:347-354 | A reject of any hunks of which none slips applies nothing to the base |
| ReviewRuns.RejectAllRestores | packages/action_log/src/lib.rs:847-872 | Rejecting all hunks puts the base text back into the buffer |
| ReviewRuns.RunKeepsBase | packages/action_log/src/lib.rs:347-354 | In every run of agent edits and partial rejects of hunks that do not slip, the base is the text first read and rejecting everything restores it |
| ReviewRuns.SettledRunKeepsBase | packages/buffer_diff/src/lib.rs:1216-1241 | If the engine leaves no hunk at a blank row of both texts, every run keeps the base, whatever is rejected |
| ReviewRuns.PlainRunKeepsBase | packages/action_log/src/lib.rs:347-354 | If the text first read has no two blank rows in a row, and the engine leaves no common blank line at the start of a hunk, every run keeps the base, whatever the agent writes and whatever is rejected |
| ReviewRuns.NothingReviewed | packages/action_log/src/lib.rs:347-354 | With nothing to review, a user edit of any shape makes the base the new text |
| ReviewRuns.UndoneRejectIsAccepted | packages/action_log/src/lib.rs:975-1002 | Rejecting everything and undoing it, with the updates in between, makes the agent text the base and leaves no hunk |
| UndoneRejects.UndoneRejectIsAccept | packages/action_log/src/lib.rs:975-1002 | Rejecting any hunks and undoing that, where the hunks left stay as they were, folds exactly those hunks into the base: an accept |
| UndoneReviews.RejectAllAndUndo | packages/action_log/src/lib.rs:975-1006 | The methods in turn, reject all, update, undo, update: the buffer is as before, its text is the base and nothing is left to review |
| ShiftedReverts.FreeRows | packages/action_log/src/lib.rs:1177-1180 | The rows a conflict-free edit replaces are the same in base and snapshot |
| ShiftedReverts.RejectOneExact | packages/action_log/src/lib.rs:1228-1238 | For any patch, rejecting one hunk leaves the base alone if and only if the hunk does not slip, or the next hunk is a deletion one row behind it, or it keeps the number of rows |
| ShiftedReverts.SingleRejectExact | packages/action_log/src/lib.rs:1228-1238 | With one hunk, rejecting it restores the buffer, and leaves the base alone if and only if the hunk does not slip or keeps the number of rows |
| ShiftedReverts.SlippedFree | packages/action_log/src/lib.rs:1153-1163 | A slipped revert is free of every hunk of the patch, unless the next hunk is a deletion one row behind |
| ShiftedReverts.OneFound | packages/action_log/src/lib.rs:497-512 | One hunk of whole rows is stored as it is, or one row further down exactly if it starts at a blank row of both texts |
| ShiftedReverts.AlignmentDecides | packages/buffer_diff/src/lib.rs:1226-1233 | Two texts with two alignments of the same deletion: with the upper one, rejecting the stored hunk changes the base, with the lower one it does not |
| HostPatterns.CoversPreorder | packages/http_proxy/src/allowlist.rs:189-212 | Covering is reflexive and transitive on all patterns |
| HostPatterns.CoversAntisymmetric | packages/http_proxy/src/allowlist.rs:189-212 | Patterns that cover each other are the same pattern |
| HostPatterns.CoversContains | packages/http_proxy/src/allowlist.rs:160-205 | A covering pattern matches every host the covered one matches, whatever its case and trailing dot |
| HostPatterns.ExactMatches | packages/http_proxy/src/allowlist.rs:160-166 | An exact pattern matches exactly the hosts that spell its name in any case, with or without one trailing dot |
| HostPatterns.WildcardMatches | packages/http_proxy/src/allowlist.rs:160-176 | A wildcard matches exactly the hosts that spell some text, a dot and the parent, in any case, with or without one trailing dot, and never the parent itself |
| HostPatterns.UnionContainsIffCovered | packages/http_proxy/src/allowlist.rs:178-205 | The hosts of a pattern lie inside those of a finite list of patterns if and only if one pattern of the list covers it |
| HostParsing.ParseName | packages/http_proxy/src/allowlist.rs:99-150 | An accepted name is lower case, has no empty label and is not local |
| HostParsing.Parse | packages/http_proxy/src/allowlist.rs:77-151 | Whatever is parsed has an accepted name, and is a wildcard exactly if the trimmed input starts with one |
| HostParsing.PrintParse | packages/http_proxy/src/allowlist.rs:33-45 | A pattern whose name parsing leaves alone is read back from its printed form |
| HostParsing.ParseNameIff | packages/http_proxy/src/allowlist.rs:99-150 | A name is accepted if and only if it converts, is no IP address, and its lower case form is a name that patterns may have |
| HostParsing.ParseIgnoresBlanks | packages/http_proxy/src/allowlist.rs:77-98 | Blanks around the input make no difference |
| HostParsing.ParseIgnoresDot | packages/http_proxy/src/allowlist.rs:77-98 | One trailing dot makes no difference |
| HostParsing.ParseWildcard | packages/http_proxy/src/allowlist.rs:77-98 | A wildcard is accepted if and only if the name behind it is, and has the same name |
| MinimalSets.InsertMinimal | packages/agent/src/sandboxing.rs:610-635 | Skips a covered element and otherwise drops what the new one covers, in order |
| MinimalSets.InsertAntichain | packages/agent/src/sandboxing.rs:610-635 | Insertion keeps an antichain |
| MinimalSets.InsertCovers | packages/agent/src/sandboxing.rs:610-635 | Insertion adds exactly what the new element covers |
| MinimalSets.MinimalCoverAll | packages/agent/src/sandboxing.rs:610-635 | Inserting a list into a minimal cover gives a minimal cover of everything |
| MinimalSets.MinimalCoverUnique | packages/agent/src/sandboxing.rs:610-635 | Minimal covers of the same elements agree up to equivalence |
| MinimalSets.ReinsertAntichain | packages/agent/src/sandboxing.rs:496-505 | Re-inserting an antichain gives it back, in order |
| MinimalSets.InsertAllFull | packages/agent/src/sandboxing.rs:496-505 | A list that loses no element while being inserted comes out unchanged |
| SandboxGrants.InsertEach | packages/agent/src/sandboxing.rs:523-531 | The insertion loop computes the fold of single insertions |
| SandboxGrants.ThreadSandboxGrants.constructor | packages/agent/src/sandboxing.rs:302-325 | Starts without grants |
| SandboxGrants.ThreadSandboxGrants.FromDb | packages/agent/src/sandboxing.rs:496-514 | Loads flags and paths as stored and re-inserts the host patterns that still parse |
| SandboxGrants.ThreadSandboxGrants.RecordFallback | packages/agent/src/sandboxing.rs:415-418 | Sets the fallback flag and nothing else |
| SandboxGrants.ThreadSandboxGrants.Record | packages/agent/src/sandboxing.rs:518-532 | Adds everything in the request, pruning what becomes redundant, and changes nothing else |
| SandboxGrants.ThreadSandboxGrants.EffectiveWithPersistent | packages/agent/src/sandboxing.rs:545-585 | Computes what is enforced: grants, settings and request together; unsandboxed exactly if this request asks for it |
| SandboxGrants.ParseHostsSnoc | packages/agent/src/sandboxing.rs:592-605 | Parsing a list of stored hosts drops exactly those that do not parse |
| GrantLaws.ContainsIsCovered | packages/setting/settings/src/granted_write_path.rs:25-61 | A path is inside a grant exactly if its bare grant is covered, comparing canonical targets |
| GrantLaws.EffectiveReaches | packages/agent/src/sandboxing.rs:550-572 | A host is reachable exactly if any-host is granted or grants, settings or request match it |
| GrantLaws.EffectiveWritable | packages/agent/src/sandboxing.rs:574-583 | A path is writable exactly if write-all is granted or grants, settings or request contain it |
| GrantLaws.EffectiveNetwork | packages/agent/src/sandboxing.rs:550-572 | No network is enforced exactly if no host is granted, set or asked for; the patterns enforced are a minimal cover of all of these |
| GrantLaws.GrantReaches | packages/setting/settings/src/granted_write_path.rs:57-61 | A grant reaches the paths under its resolved target, and only one without a target those under the requested path |
| GrantLaws.NetworkCoveredIffSame | packages/agent/src/sandboxing.rs:376-394 | The network part is covered exactly if it changes neither the any-host flag nor the reachable hosts |
| GrantLaws.WritesCoveredIffSame | packages/agent/src/sandboxing.rs:355-371 | The write part is covered exactly if it changes neither write-all nor the writable paths |
| GrantLaws.CoveredIffExtentUnchanged | packages/agent/src/sandboxing.rs:335-372 | A request that is not a full escape is covered if and only if adding it leaves the enforced extent unchanged: in the sandbox or not, paths and hosts; a full escape always changes it and is covered exactly if one was granted |
| GrantRuns.SaveLoadExact | packages/agent/src/sandboxing.rs:478-514 | Saving and loading gives the same grants if and only if the host patterns are an antichain and each reads back from its printed form |
| GrantRuns.LoadedSound | packages/agent/src/sandboxing.rs:496-514 | Freshly loaded grants are an antichain of hosts, whatever the row held |
| GrantRuns.RunSound | packages/agent/src/sandboxing.rs:518-532 | Every run keeps the host patterns an antichain that reads back |
| GrantRuns.RunSavesAndLoads | packages/agent/src/sandboxing.rs:478-514 | Every state of every run is saved and loaded without a change |
| GrantRuns.RunMinimal | packages/agent/src/sandboxing.rs:518-532 | After any run hosts and paths are the minimal cover of everything recorded and cover exactly its union |
| GrantRuns.OrderIrrelevant | packages/agent/src/sandboxing.rs:518-532 | Runs of the same events, in any order and with repetition, end with the same patterns, the same granted targets and the same flags |
| GrantRuns.RecordKeepsCovered | packages/agent/src/sandboxing.rs:518-532 | Recording another request never uncovers a covered one |
| GrantRuns.CoverageNeverLost | packages/agent/src/sandboxing.rs:335-372 | A request covered once stays covered through every later run |
| GrantRuns.EscapeCovered | packages/agent/src/sandboxing.rs:340-349 | A full escape is covered exactly after a full escape was recorded, whatever the settings grant |
| GrantRuns.RunEnforcedUnsandboxed | packages/agent/src/sandboxing.rs:579-584 | After every run and for all settings, what is enforced is unsandboxed if and only if this request asks for it |
| GrantRuns.RunFlags | packages/agent/src/sandboxing.rs:523-529 | After a run each flag is set exactly if it was set before or some event asked for it |
| GrantRuns.RecordedIsCovered | packages/agent/src/sandboxing.rs:335-372 | A recorded request is covered from then on |
| SaveWorker.StepKeepsHistory | packages/agent/src/lib.rs:1844-1868 | Writes happen in order, of stored snapshots, and the row is the last that succeeded |
| SaveWorker.StepKeepsMailbox | packages/agent/src/lib.rs:1829-1833 | The slot holds the newest snapshot or it has been taken; a filled slot is never without a wake to come |
| SaveWorker.StepKeepsLifetime | packages/agent/src/lib.rs:1788-1799 | The channel closes only after the worker was detached; the worker stops only with an empty slot |
| SaveWorker.RunKeepsInv | packages/agent/src/lib.rs:1811-1870 | Every interleaving of store, wake, release, notice, take and write keeps these invariants |
| SaveWorker.RunPersistsInOrder | packages/agent/src/lib.rs:1836-1870 | In every run persisted snapshots are an in-order subsequence of the stored ones, the row is the last of them, and no started write is cancelled |
| SaveWorker.QuietLosesNothing | packages/agent/src/lib.rs:1844-1868 | When the worker stopped, or waits with no wake outstanding, the last write attempted was of the last snapshot stored |
| SaveWorker.QuietRowIsLatest | packages/agent/src/lib.rs:1844-1868 | Whatever writes fail, a quiet worker leaves the last snapshot stored in the row exactly if the database accepted that one |
| SaveWorker.WorkerProgress | packages/agent/src/lib.rs:1844-1868 | The worker is never stuck while something is to be saved, and a measure of at most eight decreases with each of its steps |
| SaveWorker.Drained | packages/agent/src/lib.rs:1844-1868 | The worker running alone ends within that many steps |
| SaveWorker.LatestGetsPersisted | packages/agent/src/lib.rs:1788-1799 | From any state with no wake outstanding, whatever writes failed, at most eight worker steps put the last snapshot into the row if the database accepts it, and after a release the worker stops |
| SaveSessions.SessionSave.EnqueueSave | packages/agent/src/lib.rs:1829-1833 | Overwrites the slot, then wakes: the two steps of the protocol |
| SaveSessions.SessionSave.Release | packages/agent/src/lib.rs:1788-1799 | Last save if there is one, detach, drop: in that order |
| SaveSessions.SessionSave.Changed | packages/agent/src/lib.rs:1845 | The wait of the worker is the notice step |
| SaveSessions.SessionSave.TakePending | packages/agent/src/lib.rs:1846 | Empties the slot and returns what it held |
| SaveSessions.SessionSave.SaveThread | packages/agent/src/lib.rs:1856-1860 | The write step: the row changes exactly if the database accepts the snapshot, and the worker goes on either way |
| SaveSessions.SessionSave.RunSaveWorker | packages/agent/src/lib.rs:1844-1868 | The loop ends, for any answers of the database, in the one state where the worker alone can go no further |
| SaveSessions.NativeAgent.ReleaseSession | packages/agent/src/lib.rs:1774-1801 | Removes exactly the session that holds this thread, after its last save; closes its project exactly if no other session uses it; a stale release changes nothing |
| SaveSessions.ReleaseKeepsProjectsInUse | packages/agent/src/lib.rs:1795-1799 | If the open projects are those in use, they still are after a release |
| Skills.ApplySkillOverrides | packages/agent/src/lib.rs:3904-3924 | The loop with the index of names computes, for each name in first-appearance order, the skill the filter and reduce would pick: the first project-local one, else the first global one, else the first built-in one |
| Skills.SameResolution | packages/agent/src/lib.rs:3034-3044 | For every list and name the model view and the slash command agree: the first project-local skill, else the first global one, else the first built-in one, or none if no skill has the name |
| Skills.ResolvedWins | packages/agent_skills/src/lib.rs:120-126 | The skill resolved for a name is the one that wins by its source: project-local before global before built-in, and the first of these |
| Skills.BestIsFirstHighest | packages/agent_skills/src/lib.rs:107-127 | The reduction picks the first element of the highest precedence |
| Skills.FirstNamesOrdered | packages/agent/src/lib.rs:3904-3924 | Names appear once each, in order of first appearance |
| Skills.OverriddenUnique | packages/agent/src/lib.rs:3892-3903 | The overridden list has at most one entry per name |
| Skills.OverriddenResolves | packages/agent/src/lib.rs:3017-3029 | Looking a name up in the overridden list or the full list is the same |
| Skills.OverriddenTwice | packages/agent/src/lib.rs:3904-3924 | Applying the overrides twice changes nothing more |
| ThreadsDb.CollectRound | packages/agent/src/db.rs:703-710 | Popping a thread and pushing its children keeps the lists free of duplicates and inside the thread and its descendants |
| ThreadsDb.CollectThreads | packages/agent/src/db.rs:703-710 | Collects the thread and each transitive child exactly once, and ends, whenever the thread is not below itself |
| ThreadsDb.WorklistEndsIff | packages/agent/src/db.rs:703-710 | The worklist becomes empty if and only if the thread is not its own descendant |
| ThreadsDb.CycleNeverEnds | packages/agent/src/db.rs:703-710 | On a cycle some thread of it is always on the frontier |
| ThreadsDb.ThreadsDatabase.Delete | packages/agent/src/db.rs:717-719 | Deletes exactly the rows with the id |
| ThreadsDb.ThreadsDatabase.DeleteThread | packages/agent/src/db.rs:691-731 | Leaves exactly the rows that are neither the thread nor below it, in order |
| ThreadsDb.NoOrphans | packages/agent/src/db.rs:703-731 | No remaining thread has a deleted parent |

## Left out

- TrackedBuffers.TrackedBuffer.TrackEdits: reading the base, rebasing and publishing the result are one step; the code awaits in between, and nothing is claimed about a keep that runs there.
- TrackedBuffers.TrackedBuffer.RejectEditsInRanges: when the requested ranges do not ascend by start, it is only stated that every reverted hunk is touched by some range, since the loop drops ranges it has passed; and a reject of a modified file starts when the buffer equals the snapshot.
- TrackedBuffers.TrackedBuffer.KeepCommittedEdits: the line diff against the committed text is any list of edits with ordered, separated old ranges, since its line counts leave out an empty last row.
- ReviewRuns.RunKeepsBase: one-directional for rejects of several hunks at once, because slipped reverts can be merged with each other or meet other hunks; the exact condition is proved for rejecting one hunk.
- UndoneRejects.UndoneRejectIsAccept: on rows, with the hunks and the undo aligned as the reject left them; with the diff engine and the methods in between it is proved for rejecting everything (`UndoneReviews.RejectAllAndUndo`).
- TrackedBuffers.UndoLastReject: that the resolved anchors lie inside the text is required, and proved for every log that leads from text to text (`ReviewLog.AnchorInText`, `ReviewLog.BatchReplays`).
- ReviewLog.Buffer.Edit: a batch that comes out empty is logged, where the source starts no transaction; it changes no text and moves no anchor.
- ThreadsDb.ThreadsDatabase.DeleteThread: requires that the thread is not its own descendant, which is exactly when the source's loop ends (`ThreadsDb.WorklistEndsIff`).
- Machine integers: rows are unbounded; that no index becomes negative or passes the end is proved, 32-bit overflow is not treated.
- Anchors as a replicated data type: an anchor is a position carried through the edits made since.
- Concurrent edits arriving while an update is pending, linked action logs, read times, file events, the creation and deletion bookkeeping beyond what reject and keep do.
- Undo across several buffers and the guard against closed buffers.
- Telemetry, saving buffers to disk, notifications and subscriptions.
- Enforcing sandbox policies, capturing real paths and symlinks, and display of policies.
- Serialization, compression and SQL of thread rows; temporary directories removed with a thread.
- Skill scanning, prompts, and slash commands with an explicit scope or server.
