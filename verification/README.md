# Volvra: a verified model of undo, seals and the durable archive

pgVolvra records the row changes of chosen PostgreSQL tables, reverses them or makes them
again, shows a table as it was, seals its history with a hash chain, and ships the changes to
an archive through a companion process. This project models the three parts of it that are
hard to get right, and proves what they promise over every input and every run.

**A. The undo, replay and time-travel engine** (`sql/volvra.sql`). A table is a map from keys
to rows, a row a map from columns to JSON values. Rows have generated, identity, required and
ordinary columns. The files, from the bottom up:

- `Json`, `Tables`, `Statements`: values and `@>`, schemas and rows, and what each compensating
  statement does when it runs, guards, constraint errors and the apply loop included.
- `Capture`, `Plan`, `Refusals`: what the row trigger records, the statement `_plan` builds for it in
  either direction, and when it builds none.
- `Inverse`, `Redo`: undo of a run, and undo of an undo, on the tables they ended in.
- `Window`, `Conflicts`, `Exact`: undo of a run on whatever the tables have become since, when it
  goes through and what it then leaves.
- `Selections`: the same for the changes `undo` is asked for, which are rarely a whole run.
- `Preview`, `Reliable`, `Skips`: what the conflict flags say, and what `skip_conflicts` leaves alone.
- `Replay`, `Forward`: making changes again, on the tables a run began with and on others.
- `AsOf`, `AsOfKeys`, `AsOfRows`: a table as it was. `FullCapture`: what the capture mode means for it
  and for undo.
- `Store`: the same operations as a class that updates tables and log in place.
- `Locks`: concurrent undos and replays and their advisory locks.
- `Pitfalls`: where a promise stops holding, with the condition or an input that shows it.
- `Warning`: the triggers that notice a large statement.

**B. The seal chain and the ledgers of lawful loss** (`sql/volvra.sql`): `Text`, `Seals`,
`Tamper`, `Chain`, `Readings`, and `SealStore`, a class with the loops of `seal`, `verify`, `purge` and
`forget`.
SHA-256 is a function parameter; theorems about tampering assume that no two of the strings
actually hashed collide.

**C. The companion's durability protocol** (`companion/*.go`):

- `Machine`: WAL, slot, local archive, bucket and a process that may be killed between any two
  effects, as a transition system. `Conserve`, `Restart`, `Redelivery`, `Gaps` prove what every run
  keeps, and for which streams.
- `Companion`: the process as a class, with the loops and branches of the Go code. Each effect
  of each method is one step of the machine, so every point at which it may be killed is a state
  of a run.
- `Lsn`, `Archive`, `Verify`, `Altered`, `Built`: segment files, the chained manifest, `verify`, and
  what it says of an archive altered or as written.
- `ArchivePath`: tuples to text, text to history, and back into undo and replay.

`dafny verify dfyconfig.toml` checks the whole project.

## What turned out to need a condition

Each of these is a lemma, with the exact condition where one is proved.

- Undo of an update restores the tables if and only if the update left GENERATED ALWAYS identity
  columns alone; `SET id = DEFAULT` moves one and the reversing UPDATE cannot assign it
  (`Pitfalls.UndoRestoresIffIdentityKept`).
- A guard pins a captured value down if and only if the value is a scalar or null
  (`Json.GuardPinsValueIffFlat`, `Pitfalls.NestedChangeLost`); of an array it sees neither order nor
  number (`Json.RearrangedArrayPasses`).
- An undo notices a later change of another column only in capture mode full
  (`FullCapture.UndoGuards`).
- A flag in an undo preview is a refusal on all tables if and only if no row that is probed was moved
  to another key after the change probed (`Reliable.FlagsAreRefusalsIff`): else the preview looks for
  it where it no longer is, while the undo first moves it back. `Pitfalls.FlaggedAndUndone` is an
  input. A clear one means that the undo runs if and only if every place a row was moved from was
  written again, and every update that is the newest change of its place recorded every column the
  older ones guard, key columns apart (`Reliable.PreviewReliableIff`); `Pitfalls.ClearPreviewThenRefusal`
  is an input. In a replay every flag is a refusal, but for the delete of a row already absent
  (`Replay.ReplayFlagRefuses`), and the conditions are those of `Forward.ReplayFlagsAreRefusalsIff`
  and `Forward.ReplayPreviewReliableIff`.
- `skip_conflicts` leaves a row alone if and only if every selected change of it is in conflict with
  the row as it stands before the call; probing only the newest is not enough
  (`Skips.SkipsLeaveRowAloneIff`; `Pitfalls.SkippingStillReachesTheRow` is an input). In an undo this
  is about rows no selected change moved to another key (`Skips.UndoSkipsIff`), in a replay about
  every row (`Skips.ReplaySkipsIff`).
- The replay of a key change finds no row, on any tables, if and only if some key column's new value
  does not contain its old one (`Replay.NeverReplaysIff`), which for scalar keys is any key change. An
  array or object key that only grew is the exception: `Pitfalls.GrownKeyReplays` is an input.
- `as_of` is right about a key if and only if the oldest recorded write that put a row there or took
  one away kept its key, and, where the row was updated and then moved away, the columns those
  updates do not carry are shown alike by what came after (`AsOfKeys.AsOfRowIff`); with full old
  images the first half is all (`AsOfKeys.FullRowIff`). The rows it returns, whatever they are
  filed under, are those of the past if and only if grouping the log by new keys picks the same
  images as grouping it by old keys (`AsOfRows.AsOfRowsIff`), which it does when each row changed
  at most once (`AsOfRows.MovedOnceReturns`). `Pitfalls.AsOfLosesMovedRow` is an input where it
  does not. History loaded from an archive it does not join at all, unless keys are text
  (`ArchivePath.AsOfMissesRestored`).
- Undo of a redacted insert runs without a guard (`Pitfalls.RedactedInsertUndoneUnguarded`).
- Locking in name order is deadlock free if and only if the hash from names to lock keys keeps
  equal keys adjacent in that order (`Locks.DeadlockFreeIffConvex`).
- Conservation of the WAL holds for a stream if and only if every row change has a higher LSN than
  everything published before it; restarts are exact if and only if, besides, there is no truncate
  in the stream; and without care at start-up, if and only if there is no bucket either. The row
  changes alone are archived once if and only if they come in that order and every truncate comes
  after all of them and not below one in LSN: a truncate archived again can end the archive too low
  (`Redelivery`). The comment at companion/stream.go:151-157 promises no duplicates outright; the
  code is followed.
- An archive as written verifies if and only if adjacent segments' LSNs order as text, or a gap is
  recorded (`Built.BuiltIsCleanIff`): 0/10000000 sorts before 0/9FFFFFF.
- A seal that was intact stays so through a purge or erasure if and only if its span still reads the
  same; otherwise `verify` says it is explained if and only if the loss was recorded later than the
  seal, or an earlier entry explains it, and calls it tampering if not (`Tamper.LossVerdict`). After a
  row is captured under an unused id the seal is intact if and only if the id is outside its span
  (`Tamper.CaptureVerdict`). So honest histories can be called tampering: when a seal and a purge
  share a clock reading, or a lower id commits after a seal (`Tamper.SameInstantLooksTampered` and
  `Tamper.LateIdLooksTampered` are runs), or a seal is taken between the clock reading of a purge or
  erasure and its change (`Readings.SealInBetweenIff`). No other run is
  (`Readings.OrderlyNeverTampering`).
- `verify` accepts what is left of a seal list if and only if it is a first part of it: seals taken off
  the end, and a last seal forged whole, it cannot see without the head being kept elsewhere
  (`Chain.RearrangedIff`, `Chain.EditedIff`). The same holds of the companion's manifest
  (`Altered.RearrangedIff`).
- Two different rows can have one representation (`Tamper.DifferentRowsReadTheSame`); rows whose free
  text holds no `|` cannot (`Tamper.PlainRowIsDetermined`).

The comment on `Segment.Chain` (companion/archive.go:54) gives its input as prev and sha256
joined; the code puts a `|` between them, and the model does too. `verify` hashes the lines a
scanner delivers, not the bytes of the file, so a `\r` before a newline and a missing last newline
are not seen (`Altered.LineEndsUnseen`).

## Model

| member | source | states |
|---|---|---|
| Json.GuardPinsValueIffFlat | sql/volvra.sql:2142-2144 | a guard `row @> image` accepts only the captured value itself if and only if that value is a scalar or null |
| Json.RearrangedArrayPasses | sql/volvra.sql:2142-2144 | a guard sees neither the order nor the number of an array's elements |
| Json.OverlookedWithin | sql/volvra.sql:2142-2144 | what it overlooks about a value it overlooks at any depth, within an object and within an array |
| Json.ContainsTransitive | sql/volvra.sql:2142-2144 | a value that contains all of one a guard accepts is accepted too |
| Capture.TriggerIsFaithful | sql/volvra.sql:949-1076 | every legal row write is recorded with true images, an update as its mode asks: in full mode with both whole rows, else with exactly the columns that differ; one that changed nothing is recorded, whole, if and only if such updates are kept |
| Capture.EndIsValid | sql/volvra.sql:949-1076 | a whole run of captured writes keeps that |
| Capture.HistoryConcat | sql/volvra.sql:2303-2361 | a captured run can be cut anywhere: the rest is a run from where the first part ended |
| Statements.ApplyConcat | sql/volvra.sql:2823-2858 | applying two plans one after the other is applying their concatenation, refusals included |
| Statements.ApplyKeepsValid | sql/volvra.sql:2823-2858 | so does a whole plan |
| Refusals.PlanFailsIff | sql/volvra.sql:2362-2468 | there is no plan if and only if some selected change, wherever it stands, is an uncaptured truncate, names a table that is gone, has no primary key or not all columns of its present key, has no image to replay or one of another shape, or assigns nothing; the first such change gives the error, and its first fault in that order |
| Refusals.RefusedIff | sql/volvra.sql:2362-2468 | undo and replay, skipping or not and on any tables, refuse with that error exactly then, and for the cap exactly if there is a plan of more steps |
| Refusals.TruncateRefuses | sql/volvra.sql:2362-2371 | any selection that holds an uncaptured truncate is refused, in both directions, with or without skips |
| Plan.SelectedIs | sql/volvra.sql:2354-2361 | a selection holds every change that matches and no other |
| Plan.SelectedInOrder | sql/volvra.sql:2354-2361 | and in id order, if the log is |
| Plan.PlanConcat | sql/volvra.sql:2303-2543 | planning is step by step: one change that cannot be planned fails the whole selection |
| Plan.UndoNewest | sql/volvra.sql:2482-2509 | undoing a log runs its newest change first and then the rest |
| Plan.ReplayNewest | sql/volvra.sql:2454-2480 | replaying a log runs its newest change last |
| Inverse.UndoStepInverts | sql/volvra.sql:2482-2509 | right after any recorded insert, update (key changes included) or delete, its undo statement takes effect and restores the tables exactly |
| Inverse.UndoInvertsHistory | sql/volvra.sql:2823-2858 | undoing a whole run, newest first, meets no conflict, skips nothing and returns exactly the starting tables |
| Redo.WriteIsLegal | sql/volvra.sql:2482-2509 | a statement of a plan that takes effect is an ordinary captured write |
| Redo.RecordedRunIsHistory | sql/volvra.sql:2823-2858 | what an undo or replay itself logs is a history from the tables it found to the tables it left |
| Redo.UndoOfUndo | sql/volvra.sql:2823-2858 | undoing what any undo or replay of any selection logged, with or without skips, returns the tables it found |
| Window.RunsInStep | sql/volvra.sql:2823-2858 | one plan run on two databases leaves the cells it wrote equal and every other cell as it was in each |
| Window.WindowedUndo | sql/volvra.sql:2823-2858 | undoing a window on whatever the tables have become: the cells its plan assigns hold their value from before the window, all others their present one, key changes followed |
| Conflicts.UndoSucceedsIff | sql/volvra.sql:2823-2858 | without skips an undo of a run, key changes included, goes through if and only if every place the run took a row from or put one is occupied or free as it left it and the rows there still show the captured values |
| Exact.WindowedUndoIsExact | sql/volvra.sql:2454-2509 | if it goes through, each cell the run wrote still held what the run left, wherever it left the row, and is back at its value from before under the row's old key; every other cell keeps its present value; rows the run put somewhere new are gone from there |
| Preview.FlaggedMeansRefused | sql/volvra.sql:2511-2538 | in undo and replay, a flag is a step the run refuses on if no earlier step takes a row from the place probed or puts one there, but for a replayed delete of an absent row, whose step is satisfied |
| Reliable.UndoSucceedsByLog | sql/volvra.sql:2823-2858 | when an undo goes through, read off the log alone |
| Reliable.SelectionFlagRefuses | sql/volvra.sql:2511-2538 | in the undo of any selection of a run's changes, a flag is a refusal unless a selected newer change moved the row away from the place probed |
| Reliable.FlagsAreRefusalsIff | sql/volvra.sql:2511-2538 | on all tables every flag of a run's undo preview is a refusal, if and only if no row probed was moved to another key after the change probed |
| Reliable.PreviewDecidesUndo | sql/volvra.sql:2346-2360 | if no place was abandoned and the newest change of each tells all, no flag if and only if the undo goes through |
| Reliable.PreviewReliableIff | sql/volvra.sql:2511-2538 | on all tables a clear preview means that the undo goes through, if and only if every place a row was moved from was written again later and every update that is the newest change of its place recorded all columns the older changes guard, key columns apart |
| Preview.ReplayPreviewFlagsSatisfiedDelete | sql/volvra.sql:3008-3033 | that exception occurs: a replay preview flags a delete whose row is absent, and the replay goes through |
| Skips.SkipsLeaveRowAloneIff | sql/volvra.sql:2823-2858 | with skips, no step takes effect on a row that the others' statements keep off, and it stays as found, if and only if every selected change of it is in conflict with the row as it stands before the call |
| Skips.UndoSkipsIff | sql/volvra.sql:2823-2858 | so for any selection of a run's changes and any row none of them moved away |
| Skips.ReplaySkipsIff | sql/volvra.sql:2995-3056 | so for the replay of any selection of a run's changes and any row |
| Skips.UndoSkips | sql/volvra.sql:2836-2850 | in an undo, a step that does not take effect is skipped and counted as such |
| Skips.StatusIff | sql/volvra.sql:3020-3050 | in any run that goes through, each step is applied, satisfied or skipped exactly on its condition; a replayed delete of an absent row is satisfied whether or not conflicts are skipped |
| Skips.SkippingRefusesIff | sql/volvra.sql:2836-2850 | with conflicts skipped a step is refused if and only if it would leave a null in a key or move its row onto another: an occupied place or a row that moved on is skipped |
| Selections.SelectionIsHistory | sql/volvra.sql:2303-2361 | a selection contiguous place by place, key changes included, is a run of its own between the tables before its first changes and after its last; one transaction is such a selection |
| Selections.SelectionSucceedsIff | sql/volvra.sql:2823-2858 | its undo goes through if and only if each place is as the last selected change about it left it |
| Selections.SelectionIsExact | sql/volvra.sql:2454-2509 | and is exact: the cells the selected changes wrote go back to before them, no other cell changes |
| Selections.SelectionPreviewReliableIff | sql/volvra.sql:2346-2360 | its preview can be relied on, and its flags, under the conditions for whole runs, read off the selection |
| Selections.RunSucceedsIff | sql/volvra.sql:2723-2870 | what `undo` returns for such a selection, with its cap |
| Selections.WholeRows | sql/volvra.sql:2303-2361 | all changes of some rows that kept their keys are such a selection, and these rows begin and end as in the whole run |
| Selections.TablesAreHistory | sql/volvra.sql:2723-2740 | all changes of some tables are a run of their own from the same tables, key changes included |
| Selections.TablesSucceedIff | sql/volvra.sql:2823-2858 | undo of some tables goes through if and only if those tables are as the whole run left them, as far as the selected changes are about them |
| Selections.TablesAreExact | sql/volvra.sql:2454-2509 | and is exact |
| Selections.TablesPreviewReliableIff | sql/volvra.sql:2346-2360 | and its preview can be relied on under the same conditions |
| Replay.ReplayRedoesHistory | sql/volvra.sql:2995-3056 | replaying a run without key changes on the tables it began with applies every step and gives the tables it ended with |
| Replay.UndoThenReplay | sql/volvra.sql:2995-3056 | undo then replay is the identity |
| Replay.NeverReplaysIff | sql/volvra.sql:2477-2479 | the replay statement of an update finds no row, on any tables at all, if and only if some key column's new value does not contain its old one |
| Replay.FlatKeyNeverFinds | sql/volvra.sql:2477-2479 | which, for scalar keys, is so of every key change |
| Replay.KeyChangeRefusesReplay | sql/volvra.sql:2454-2480 | wherever an update whose replay finds no row stands in a log, replaying the log is refused |
| Replay.ReplayElsewhere | sql/volvra.sql:2995-3056 | replay on other tables, of a run whose key changes never replay: if it goes through, cells it writes end as the run left them and all others are untouched |
| Replay.ReplayFlagRefuses | sql/volvra.sql:3008-3033 | every flag of a replay preview, of any selection of a run's changes, is a refusal or the delete of an absent row |
| Forward.ReplaySucceedsIff | sql/volvra.sql:2995-3056 | replay of such a run goes through if and only if it has no key change and every place is occupied or free as the run found it, still showing the old values recorded, or gone where the run began by deleting it |
| Forward.ReplayPreviewReliableIff | sql/volvra.sql:3008-3033 | on all tables a clear replay preview means that the replay goes through, if and only if every update that is the oldest change of its place recorded all columns the later ones look at, key columns apart |
| Forward.ReplayFlagsAreRefusalsIff | sql/volvra.sql:3008-3033 | and every flag is a refusal if and only if no place is first written by a delete |
| Replay.ReplayAgain | test/backup-replay.sh:235-243 | replaying any plan that leaves rows under their keys a second time, wherever the first went through, refuses or changes nothing |
| Replay.NeverReplaysRefuses | sql/volvra.sql:2454-2480 | one change that never takes effect makes any selection with it refuse |
| Replay.ReplayTwice | test/backup-replay.sh:235-243 | so for any selection of any run's changes, on any tables: a second replay either refuses or changes nothing |
| AsOf.AsOfRowIsExact | sql/volvra.sql:1984-2019 | in any capture mode the per-column query returns a row as it stood, and none if there was none, if no recorded write moved a row to or from that place up to the first insert or delete there; other rows may have moved |
| AsOf.AsOfIsThePast | sql/volvra.sql:1924-2021 | `as_of` equals the past table, and equals what stepwise undo of everything since leaves, if that holds of every place of the table |
| AsOfKeys.AsOfRowIsWrong | sql/volvra.sql:1984-2019 | in any capture mode it is wrong about a place if the oldest recorded write there changed a key |
| AsOfKeys.AsOfRowIff | sql/volvra.sql:1984-2019 | in any capture mode it is right about a place if and only if the oldest recorded write there kept its key and, where updates in place were followed by a move away, the columns they do not carry are shown alike by what the query finds under the key since |
| AsOfKeys.FullRowIff | sql/volvra.sql:1984-2019 | with full old images, if and only if the oldest recorded write there kept its key |
| AsOfKeys.AsOfTableIff | sql/volvra.sql:1924-2021 | and about a whole table if and only if that holds of its every place |
| AsOfRows.FoundIsPast | sql/volvra.sql:1984-2019 | grouped by the keys the changes found, instead, the images give every place its past row |
| AsOfRows.AsOfRowsIff | sql/volvra.sql:1924-2021 | the rows returned, whatever key they are filed under, are exactly those of the past, each once, if and only if both ways of grouping pick the same images |
| AsOfRows.MovedOnceReturns | sql/volvra.sql:1924-2021 | they do if no place saw two changes, so a row that did nothing but move comes back right |
| FullCapture.FullModeIsWhole | sql/volvra.sql:1037-1045 | a run the row trigger captured in mode full carries the whole row it found with every update |
| FullCapture.FullModeAsOfIff | sql/volvra.sql:1924-2021 | so for such runs, with nothing assumed about images, `as_of` is right about a key if and only if the oldest write at it kept its key, and returns the rows of the past if and only if both ways of grouping agree |
| FullCapture.UndoGuards | sql/volvra.sql:1037-1045 | the undo of a captured update conflicts if and only if a column it compares no longer shows the captured value: in mode full any stored column, else only those that moved |
| Stores.Store.Record | sql/volvra.sql:949-1076 | the trigger's branches: whole images of inserts and deletes, and of an update what its mode asks for, or nothing if it changed nothing and such updates are not kept |
| Stores.Store.DoWrite | sql/volvra.sql:949-1076 | a write changes the tables and appends its record |
| Stores.Store.RecordRows | sql/volvra.sql:1155-1166 | a captured truncate is a run of recorded deletes of exactly those rows |
| Stores.Store.Truncate | sql/volvra.sql:1086-1180 | block, the row limit, capture and allow: what changes and what is logged in each case |
| Stores.Store.BuildPlan | sql/volvra.sql:2303-2543 | the loop builds exactly the plan; it stops if and only if a change is at fault, at the first, with its first fault |
| Stores.Store.RunStatement | sql/volvra.sql:2823-2858 | a statement's effect on the tables, and the trigger's record of it |
| Stores.Store.ApplyStep | sql/volvra.sql:2995-3056 | one turn of the loop: applied if and only if the statement took effect, satisfied if and only if it is a replayed delete of an absent row, else skipped or, without skips or on an error, refused |
| Stores.Store.ApplyPlan | sql/volvra.sql:2823-2858 | the loop is the apply function; a refusal leaves tables, log and ids unchanged |
| Stores.Store.Select | sql/volvra.sql:2303-2361 | every matching change and no other, newest first for undo, oldest first for replay |
| Stores.Store.ProbeConflicts | sql/volvra.sql:2511-2538 | conflict flags, each row probed once at its first change |
| Stores.Store.Run | sql/volvra.sql:2723-2870 | undo and replay end to end: plan, cap, then all or nothing, captured like any write; refused, with nothing changed, if a matching change is at fault, such as the marker of an uncaptured truncate |
| Pitfalls.UndoRestoresIffIdentityKept | sql/volvra.sql:2278-2300 | undo of a captured update restores the tables if and only if GENERATED ALWAYS identity columns kept their values |
| Pitfalls.RedactedInsertUndoneUnguarded | sql/volvra.sql:2482-2509 | undo of a redacted insert deletes whatever row now has the key |
| Pitfalls.RedactedOtherwiseRefused | sql/volvra.sql:2430-2452 | every other use of a redacted change is refused |
| Pitfalls.NestedChangeLost | sql/volvra.sql:2170-2171 | a later addition inside a nested value passes the guard and is lost |
| Locks.ReachableIsExclusive | sql/volvra.sql:2803-2810 | in every reachable state no lock is held twice |
| Locks.ConvexNeverStuck | sql/volvra.sql:2803-2810 | with sorted tables and keys that keep equal values adjacent, some session can always step |
| Locks.CrossedKeysDeadlock | sql/volvra.sql:2978-2982 | with any other keys two operations can wait for each other for ever |
| Locks.DeadlockFreeIffConvex | sql/volvra.sql:2780-2810 | no deadlock among any number of sessions if and only if the keys keep equal values adjacent |
| Locks.StepDoesWork | sql/volvra.sql:2803-2810 | every step leaves one unit less to do |
| Warnings.Server.StmtBegin | sql/volvra.sql:1257-1267 | the mark starts a new count for the transaction |
| Warnings.Server.StmtEnd | sql/volvra.sql:1269-1313 | over any interleaving, the early exit and the bounded count warn exactly when the transaction wrote more rows than the limit since its mark |
| Warnings.NestedStatementHides | sql/volvra.sql:1257-1267 | a statement inside a statement moves the mark, so the outer one's rows go uncounted |
| Seals.ActKeepsSound | sql/volvra.sql:3796-3862 | capture, seal, purge and forget each keep the chain linked, the spans contiguous and every difference accounted for |
| Seals.LawfulNeverTampering | sql/volvra.sql:3870-3959 | over any interleaving of them `verify` reports only ok or a recorded loss |
| Readings.OrderlyNeverTampering | sql/volvra.sql:3542-3575 | so too when ledger time and range are read before the changes commit, and rows logged since are changed with them, if no seal is taken in between and each reading is later than the seals there are |
| Readings.SealInBetweenIff | sql/volvra.sql:3925-3945 | a seal taken in between is called TAMPERED if and only if the change alters what it hashed |
| Readings.LoseErases | sql/volvra.sql:3562-3575 | when such a change commits, exactly its rows are gone or hold neither images nor author |
| Tamper.GlueIsUnambiguous | sql/volvra.sql:3765-3792 | gluing a digest to the next row without a separator is still unambiguous |
| Tamper.ReprJoins | sql/volvra.sql:3741-3756 | what is hashed of a row: its fields in this order, between bars, a missing image or redaction time empty |
| Text.DecIsDecimal | sql/volvra.sql:3741-3756 | and its numbers are their decimal digits |
| Tamper.FoldDetermines | sql/volvra.sql:3765-3792 | equal span hashes mean the same rows in the same order, as far as their representations go |
| Tamper.VerifySeesEveryChange | sql/volvra.sql:3889-3957 | for an intact chain the verdict is ok if and only if the span reads as sealed, and TAMPERED if and only if it does not and no later loss covers it |
| Tamper.DifferentRowsReadTheSame | sql/volvra.sql:3741-3756 | fields joined by a bar: two different rows with one representation |
| Tamper.PlainRowIsDetermined | sql/volvra.sql:3741-3756 | rows whose free text holds no bar, and whose images are not empty text, are determined by their representation |
| Tamper.FoldDeterminesPlainRows | sql/volvra.sql:3765-3792 | for such rows equal span hashes mean the very same rows |
| Tamper.SealCatchesUp | sql/volvra.sql:3815-3852 | k calls on a quiet log seal up to min(M, last + k*cap), or leave it at last where the newest sealed rows were purged |
| Tamper.CatchUpCalls | sql/volvra.sql:3815-3852 | all is sealed after k calls if and only if k is at least the backlog over the cap, rounded up |
| Tamper.LossVerdict | sql/volvra.sql:3889-3957 | after any purge or erasure a seal that was intact is ok if and only if its span reads the same, else explained if and only if the ledger time is later than the seal's or an earlier entry explains it, else TAMPERED |
| Tamper.CaptureVerdict | sql/volvra.sql:3889-3957 | after a row is captured under an unused id it is ok if and only if the id is outside its span, else explained if and only if an entry explains it, else TAMPERED |
| Chain.VerdictIff | sql/volvra.sql:3914-3950 | each verdict has its exact condition, on any state: CHAIN BROKEN if a seal does not name its predecessor's chain hash, else SEAL FORGED if its own is not the digest of its fields, else ok if its span hashes the same, else explained if a later loss meets its span, else TAMPERED |
| Chain.AcceptedIff | sql/volvra.sql:3914-3921 | no seal is found broken or forged if and only if every seal follows its predecessor and is its own digest |
| Chain.HeadDeterminesHistory | sql/volvra.sql:3842-3846 | two seal lists in which `verify` finds none broken or forged and that end in the same chain hash have the same spans, counts and content hashes |
| Chain.HeadDeterminesRows | sql/volvra.sql:3902-3923 | and therefore the same rows, span by span |
| Chain.RearrangedIff | sql/volvra.sql:3914-3918 | seals of an accepted list, some removed, reordered or repeated, are accepted if and only if they are a first part of it |
| Chain.RemovedIsFlagged | sql/volvra.sql:3914-3918 | with a seal removed the next is CHAIN BROKEN and every other verdict is as it was |
| Chain.EditedIff | sql/volvra.sql:3914-3921 | with one seal edited the list is accepted again if and only if no bound field changed, or it is the last seal with its digest made anew; fields edited under an old chain hash are SEAL FORGED |
| SealStores.SealStore.LogRowCaptured | sql/volvra.sql:949-1076 | a captured row above the sealed ids keeps the store sound |
| SealStores.SealStore.HashSpan | sql/volvra.sql:3765-3792 | the row-by-row loop computes the fold and the count of the span |
| SealStores.SealStore.MinMax | sql/volvra.sql:3542-3575 | the recorded range is the least and greatest id removed |
| SealStores.SealStore.SealNext | sql/volvra.sql:3796-3862 | one call seals the next batch of at most cap ids, right after the last, with the number of rows it covers, and answers whether there was one; `verify` finds the new seal ok |
| SealStores.SealStore.VerifyAll | sql/volvra.sql:3870-3959 | the loop gives each seal its verdict, on any state whatever: broken if and only if it does not follow its predecessor, forged if and only if it does but is not its own digest, and else by its span and the ledgers |
| SealStores.SealStore.CountLawful | sql/volvra.sql:3925-3945 | a seal is excused if and only if a later ledger entry overlaps it |
| SealStores.SealStore.RemoveRows | sql/volvra.sql:3364-3435 | exactly those rows go and the range they covered is recorded, keeping the store sound |
| SealStores.SealStore.PurgeOlder | sql/volvra.sql:3364-3435 | partition by partition, exactly the rows behind the cutoff are gone |
| SealStores.SealStore.PurgePolicy | sql/volvra.sql:3437-3481 | table by table, exactly the rows past their table's retention are gone |
| SealStores.SealStore.Forget | sql/volvra.sql:3524-3613 | the subject's rows of that table are gone when hard; else those not erased before have no images, the actor "erased" and the time, all other fields kept; every other row is as it was, the count is that of the rows, and their least and greatest id are recorded |
| SealStores.StoreNeverTampering | sql/volvra.sql:3870-3959 | a store only these methods touched never shows tampering |
| Machine.Confirmed | companion/archive.go:169-183 | the confirmed segments are uploaded and within what the bucket's manifest covers |
| Machine.FirstPending | companion/archive.go:359-382 | everything before the first pending segment is uploaded |
| Conserve.GoodStep | companion/archive.go:354-409 | every step keeps disk, memory and bucket in agreement, however uploads fail |
| Conserve.BucketIsReadable | companion/archive.go:326-352 | in every reachable state uploads form a prefix, the bucket's manifest names only objects with the sealed content, and ResumeLSN never passes what it covers |
| Conserve.ResumeCovered | companion/archive.go:169-190 | everything up to ResumeLSN is durable or in a recorded gap, even what commits later |
| Conserve.SoundStep | companion/stream.go:165-214 | every step keeps the archive, the slot and the filter in agreement with the stream |
| Conserve.NothingIsLost | companion/archive.go:155-190 | in every run with kills between any two effects, each row change is durable, beyond the slot, or in a gap sealed before the slot moved, and the filter drops none |
| Restart.RowsComeOnce | companion/stream.go:429-446 | after any number of kills and restarts, for a stream with its truncates last, the archive holds each row change read, in order and once, and besides only truncates |
| Restart.RestartsAreExact | companion/stream.go:151-163 | after any number of kills and restarts the archive is exactly a prefix of the stream and reaches as far as the process has read |
| Redelivery.LateChangeIsLost | companion/stream.go:429-446 | a row change not above one before it is skipped after a restart and lost |
| Redelivery.NothingIsLostIff | companion/stream.go:429-446 | conservation holds of a stream if and only if its row changes come in LSN order |
| Redelivery.TruncateComesTwice | companion/stream.go:311-327 | a truncate bypasses the filter and is archived again |
| Redelivery.RestartsAreExactIff | companion/stream.go:332-370 | careful restarts are exact for a stream if and only if it is ordered and has no truncate |
| Redelivery.RowComesTwice | companion/stream.go:311-327 | a truncate below an earlier row change ends the archive too low, and the row comes again |
| Redelivery.LaterRowComesTwice | companion/stream.go:311-327 | a truncate before a row change, archived again after it, does the same |
| Redelivery.RowsComeOnceIff | companion/stream.go:429-446 | careful restarts archive every row change of a stream just once if and only if the row changes come in LSN order and every truncate after all of them, not below one |
| Gaps.RowsComeOnceWithGapsIff | companion/safety.go:32-86 | so too with the valve free to open, a gap ending past all that is published: each row change read is archived once or in a recorded gap, and none twice |
| Redelivery.UnconfirmedComesTwice | companion/archive.go:102-104 | a failed push at start-up forgets what the bucket covers and archives changes twice |
| Redelivery.ExactWithoutConfirmationIff | companion/main.go:191-214 | without that push succeeding, restarts are exact if and only if there is no bucket and the stream is ordered and has no truncate |
| Companions.Companion.Open | companion/archive.go:121-153 | opening starts from what the directory's manifest holds |
| Companions.Companion.ResumeLSN | companion/archive.go:169-190 | the loop returns the end of the last durable segment |
| Companions.Companion.Append | companion/archive.go:242-269 | one line more, in the open segment or, if it is full, sealed |
| Companions.Companion.Rotate | companion/archive.go:272-316 | everything written is sealed, whatever the bucket does, and then either nothing is pending or a put failed |
| Companions.Companion.WriteManifest | companion/archive.go:206-226 | the manifest on disk becomes the one in memory |
| Companions.Companion.PutSegment | companion/remote.go:255-291 | success puts the sealed content in the bucket and marks it; failure marks nothing |
| Companions.Companion.RecordMarks | companion/archive.go:371-385 | marks made in memory reach the disk, if there are any |
| Companions.Companion.UploadNext | companion/archive.go:359-382 | one pending segment is put; a failure ends the round with the marks made so far recorded |
| Companions.Companion.UploadSegments | companion/archive.go:358-387 | the steps taken are one upload per segment marked, then, if and only if something is still pending, a put that failed, then the marks; success means nothing is pending |
| Companions.Companion.PutManifest | companion/remote.go:353-375 | the manifest on disk reaches the bucket and is counted as covered, or the put failed and may yet have landed |
| Companions.Companion.PushRemote | companion/archive.go:354-409 | segments first, the manifest last and only when due or forced; a forced success confirms everything, and a failure is that of a put tried in this call, the manifest's if all segments are up |
| Companions.Companion.Close | companion/archive.go:422-427 | a clean stop seals all; if it succeeds the bucket holds and names it all, and if not a put failed in it |
| Companions.Companion.Handle | companion/stream.go:254-330 | one change: dropped if replayed, else one line more; truncates are never dropped |
| Companions.Companion.Replayed | companion/stream.go:429-446 | the filter, and the message kinds that ask it |
| Companions.Companion.Check | companion/safety.go:32-86 | the slot moves only past a ceiling, only to the gap's end, and only after the gap is sealed |
| Companions.Companion.Acknowledge | companion/stream.go:191-203 | the acknowledged position is the furthest durable one and never goes back |
| Companions.Companion.Status | companion/stream.go:169-214 | the timer's part: sealed, pushed, acknowledged, checked, each a step of the machine; without a gap, nothing is pending after it unless a put failed in it |
| Companions.Companion.StartStreaming | companion/main.go:191-233 | what is pending is pushed, then streaming starts at the slot or the archive's end, whichever is further |
| Companions.Companion.Run | companion/stream.go:165-251 | the loop follows the stream message by message through reachable states |
| Companions.Companion.KilledAnywhere | companion/stream.go:165-251 | after a kill between any two effects of any method nothing is lost |
| Lsn.TextOrder | companion/verify.go:97-100 | LSNs of the same width order as text as they do as numbers |
| Lsn.LaterSortsFirstIff | companion/verify.go:97-100 | a later, wider LSN sorts first if and only if its leading digits are lower |
| Lsn.LaterSortsFirst | companion/verify.go:97-100 | 0/10000000 sorts before 0/9FFFFFF |
| Archives.ScanJoined | companion/verify.go:57-66 | scanning what was written line by line gives the lines back |
| Archives.JoinedInjective | companion/archive.go:242-254 | lines without newlines can be told from the bytes they make |
| Archives.ScanCrLf | companion/verify.go:57-66 | the same lines ended by a carriage return and a newline read the same |
| Archives.ScanUnended | companion/verify.go:57-66 | so do they with the last newline missing |
| Archives.Archive.Open | companion/archive.go:228-240 | what a killed run left in the next file is truncated |
| Archives.Archive.Append | companion/archive.go:242-269 | one line more in the open segment, sealed when it is full |
| Archives.Archive.CloseEntry | companion/archive.go:284-303 | the entry has the file's hash and continues the chain |
| Archives.Archive.Rotate | companion/archive.go:272-306 | the open lines become the next segment; an empty one is not recorded |
| Archives.Archive.Record | companion/archive.go:284-306 | manifest and files are those of one more batch |
| Verifying.FindGap | companion/verify.go:154-175 | whether this segment or the one before records a gap |
| Verifying.Rehash | companion/verify.go:52-66 | the scan computes hash input, line count and unparsable lines |
| Verifying.FindingIff | companion/verify.go:74-103 | a finding is made if and only if a segment of that number meets the verdict's own condition: file missing; else another hash; else another predecessor; else not its own link; else another number of lines; else an unparsable line; and, apart from these, a start before the end of the last readable segment with no gap recorded |
| Verifying.VerifySegment | companion/verify.go:74-103 | the findings of one readable segment, each exactly on its condition |
| Verifying.VerifyArchive | companion/verify.go:35-110 | the loop gives exactly the fatal findings, each exactly on its condition |
| Verifying.CleanSegments | companion/verify.go:74-103 | no findings if and only if every file is there with the recorded hash and number of lines, all of them records, and every entry names its predecessor's chain hash, is its own link and does not start early |
| Verifying.HeadDeterminesArchive | companion/archive.go:284-303 | two clean archives with the same last chain hash hold the same lines, segment by segment |
| Verifying.VerifySeesEveryLine | companion/verify.go:27-34 | changed files verify again if and only if every line of every segment is as it was |
| Altered.AlteredLines | companion/verify.go:79-81 | one file of an archive that verified rewritten: TAMPERED for its segment and, order apart, nothing else, or no finding if a reader gets the same lines |
| Altered.LineEndsUnseen | companion/verify.go:57-66 | a carriage return before each newline or a missing last newline is not seen |
| Altered.RemovedFile | companion/verify.go:45-50 | one file removed: MISSING for its segment and, order apart, nothing else |
| Altered.EditedEntryIff | companion/verify.go:78-94 | one manifest entry edited: exactly what is found, TAMPERED for the hash, else CHAIN BROKEN for prev, else MANIFEST FORGED for the chain hash, else TRUNCATED for the count, and CHAIN BROKEN for the next entry if the chain hash moved |
| Altered.RearrangedIff | companion/verify.go:82-85 | entries removed, reordered or repeated: nothing is found, order apart, if and only if they are the archive's first ones, and else some entry is CHAIN BROKEN |
| Altered.RemovedEntry | companion/verify.go:82-85 | one entry removed: the next is CHAIN BROKEN and, order apart, nothing else is found |
| Built.BuiltSealed | companion/archive.go:272-306 | every segment the writer made passes the content checks |
| Built.CorruptIff | companion/verify.go:92-94 | of an archive as written, whatever its lines hold, exactly the segments with an unparsable line are reported, order apart, as CORRUPT |
| Built.BuiltIsCleanIff | companion/verify.go:95-103 | an archive as written has no fatal finding if and only if adjacent LSNs order as text or a gap is recorded |
| Built.InOrderIsClean | companion/verify.go:95-103 | increasing LSNs without a change of width between segments verify |
| Built.InOrderIsFlagged | companion/verify.go:95-103 | increasing LSNs that cross 0/10000000 do not |
| ArchivePath.TupleToMap | companion/stream.go:379-404 | the loop maps each column to its text, null, or the fallback's value, and stops at the last known column |
| ArchivePath.UpdateImagesAreTrue | companion/stream.go:289-299 | with full old tuples both images are the true rows, unchanged TOAST values included |
| ArchivePath.ToastIsLostWithoutOldTuple | companion/stream.go:372-404 | without an old tuple exactly the unchanged TOAST values are missing from the archived row |
| ArchivePath.PopulatedAgrees | companion/restore.go:26-47 | loading gives every stored column back, and null for generated ones |
| ArchivePath.RestoredIsFaithful | companion/restore.go:72-112 | a loaded change is as good for undo and replay as the trigger's |
| ArchivePath.ArchivePathAgrees | sql/volvra.sql:2390-2397 | undoing a run from the archive gives the same tables as undoing it from the trigger's log |
| ArchivePath.LoadSegment | companion/restore.go:77-112 | gaps, truncates and unreadable lines are counted and skipped; a missing table stops the load, with what came before it loaded |
| ArchivePath.RestoreArchive | companion/restore.go:57-121 | all segments are loaded in order, with the counts; if a table is missing, everything before the first such line is |
| ArchivePath.ArchiveRecoversRun | companion/restore.go:12-21 | from what its archive loads a run can be undone and, if it moved no key, replayed |
| ArchivePath.AsOfMissesRestored | sql/volvra.sql:2014-2017 | over any window of loaded changes, whose keys are text, `as_of` shows a row with any other kind of key as it is now, so right if and only if it is as it was, and returns the oldest loaded image under each text key besides |

## Left out

- AsOfRowsIff: for full old images, as is `FoundIsPast`; the rows returned from changed-column images are characterised place by place, in `AsOfRowIff`.
- WholeRows: about rows that kept their keys; the changes logged under one key are not all that is about a row that moved. `SelectionIsHistory` covers those, if contiguous place by place.
- ReplayElsewhere: about runs whose key changes never replay; where a container key only grew, replay leaves a row under the new key and none is moved from the old one.
- ReplayPreviewReliableIff: about runs without key changes; with one that never replays every replay is refused.
- TriggerIsFaithful: columns a table excludes from capture are not modelled.
- Run: the scope and coverage checks before the plan and the undo_log row after it are not in it.
- LawfulNeverTampering: each call is one step; `Readings` takes purge and erasure apart. Hashing a span and reading the clock for its seal are one step there too.
- VerifyAll: the kind and row-count columns of the report are not in it.
- PurgeOlder: the undo_log rows it also deletes are not in it.
- RestoredIsFaithful: the loaded key is taken as already converted by the row type, while the loader stores it as text.
- RestartsAreExact: about runs in which the valve stays shut, as is `RowsComeOnce`; an open valve leaves row changes to a gap, and `RowsComeOnceWithGapsIff` says what then holds.
- VerifyArchive: only fatal findings; the UNRECORDED notice, lines beyond the scanner's limit and the unsigned manifest fields are not modelled.
- ArchiveRecoversRun: keys are taken as already converted by the row type, as the generated statements do; only `AsOfMissesRestored` looks at them as text.
- Selection by time, actor or predicate is an arbitrary predicate on changes; its SQL text is not modelled.
- The window of as_of is the log after T in id order; equal timestamps are not modelled.
- SQL text, quoting and name resolution: each generated statement is modelled by what it does to a table.
- Foreign keys, other unique indexes, deferrable keys, check constraints, user triggers and partitions: PostgreSQL's own behaviour; NOT NULL on keys and the primary key's uniqueness are modelled.
- Generated columns in a primary key: the model's keys consist of stored columns.
- jsonb numeric equality (1 and 1.0): values are compared as text.
- Excluded columns, privileges, row-level security, attribution and the append-only trigger: not part of this model.
- The retention and erasure ledgers: kept as one list of recorded ranges.
- File system failures: a failed write of manifest.json or of a segment file is a kill; writing the manifest is one atomic step.
- Network, S3, TLS and the wire protocol: an upload either puts the sealed content in place or fails and may leave anything there; messages are an abstract stream.
- The gap rows `companion_record_gap` writes to the database, reporting, status functions and the command line: they change nothing modelled here.
- The pglogrepl library, which renders an LSN as two hexadecimal halves, is not part of this model beyond that rendering.
