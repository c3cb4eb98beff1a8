# Collaborative notes: the text-operation engine, its bookkeeping and the editor's string helpers

This project models three parts of a collaborative note-taking web application and proves
properties of the model in Dafny.

* **The editing engine** (`src/crdt/utils.ts`, with the records of `src/crdt/types.ts`):
  * the prefix/suffix text diff;
  * the conversion of changes into operation records;
  * the pairwise transformation of concurrent operations;
  * the replay of a field's operations from the empty string;
  * the merge of two operation logs;
  * document creation, validation and statistics.
* **The bookkeeping of the notes hook** (`src/crdt/useCRDT.ts`), modelled as the class
  `NoteStore.Store`. It holds:
  * the notes;
  * the sequence counter;
  * the pending operations per note, as an insertion-ordered map;
  * the acknowledged ids;
  * the last-seen title and body per note.

  Each state update of the hook is one method, applied sequentially to the state the
  previous update left.
* **The pure helpers of the editor component** (`src/App.tsx`):
  * fuzzy matching;
  * the mention dropdown's key handling;
  * mention detection and insertion;
  * the note list's preview and display title.

Layout, one module per file:

| module | models |
|---|---|
| `Wrappers` | `Option` |
| `JsString` | ECMAScript `slice` index rules, truthiness, decimal rendering of integers |
| `StringOrder` | a fixed total order on strings, standing for `localeCompare` and `<` |
| `Types` | the records of `types.ts` |
| `TextDiff` | `calculateTextDiff` |
| `OperationFactory` | `generateOperationId` and `textChangesToOperations` |
| `Transformer` | `transformOperation` |
| `OpOrder` | the sort comparator and the stable sort |
| `Replay` | `applyOperations` |
| `Merger` | `mergeOperations` |
| `DocumentOps` | `createCRDTDocument`, `validateOperation` and `getDocumentStats` |
| `PendingMap` | the pending-operations map |
| `NoteStore` | the notes hook |
| `NoteStoreLaws` | laws of the hook's edits and of acknowledgement |
| `AppHelpers` | the editor helpers |
| `SourceExamples` | the scenarios of `src/crdt/test.ts`, as the code computes them |

Modelling conventions:

* **JavaScript values.**
  * Strings are `seq<char>` and numbers are unbounded integers. A `char` is a Unicode
    scalar value, so positions and lengths count characters where JavaScript counts
    UTF-16 code units (see "## Left out").
  * Optional record fields are `Option`.
  * `x || 0`, `x || ''` and `!!x` are written out explicitly.
* **JavaScript operators.**
  * `slice` clamps negative and large indices as ECMAScript does (`JsString.Slice`).
  * `%` truncates toward zero (`AppHelpers.JsRem`).
* **Sorting.** `Array.prototype.sort` is stable, so the sort is a stable insertion sort.
* **Clock and identities.** The clock is a parameter `now`, read once per call. Identities
  are parameters too (the client id, the note's numeric id and local id).
* **Loops.** Loops of the source are methods with loop invariants. Each method is proved
  equal to a specification function, and the properties are proved about that function.
* **`transformOperation`.** It only ever assigns to fresh copies of its arguments, so it is
  a function.

Where the code and the repository's test expectations disagree, the model follows the code.
`SourceExamples` states what the code computes:

* `SourceExamples.DiffOfInsertedWordIsOneOperation`: inserting a word is one insert
  operation, not the delete and insert the test asserts.
* `SourceExamples.ReplayStartsFromEmpty` and `SourceExamples.ConcurrentEditFromEmpty`:
  replay starts from the empty text, not from the document's current text.
* `SourceExamples.CollaborativeInserts`: the collaborative scenario renders
  `"beautiful amazing "`.

Two more behaviours follow from the code:

* **Shared ids.** Ids are `clientId-sequenceNumber-now`, and the delete and the insert of
  a replaced character carry the same counter value. The code reads `Date.now()` afresh for
  each id and each timestamp (src/crdt/utils.ts:7, called at line 76, and line 81). So the
  two ids collide whenever those readings fall in the same millisecond, and a merge then
  keeps only one of the two records. The model takes one clock reading `now` per call, so
  in the model they always collide (`SourceExamples.ReplacedCharacterMergesToOne`); the
  case of differing readings is listed under "## Left out".
* **The preview's placeholder.** A body of exactly `"Empty note"` gives the preview
  `"Empty note"`. So that preview value does not imply an empty body: the model proves the
  implication from an empty body only, and the exact preview otherwise.

## Model

| member | source | states |
|---|---|---|
| Types.ContentLength | src/crdt/utils.ts:131 | the length of the text, or 0 without one, as `op.content?.length` with the `or 0` default |
| Types.LengthOrZero | src/crdt/utils.ts:150 | the length, or 0 without one, as `op.length` with the `or 0` default |
| JsString.Truthy | src/crdt/utils.ts:92 | a string value is truthy when present and non-empty |
| JsString.TruthyNumber | src/crdt/utils.ts:233 | a number value is truthy when present and non-zero |
| JsString.RelativeIndex | src/App.tsx:400 | a `slice` index resolves to `0..len`: negatives count from the end and are floored at 0, and large indices are capped at the length |
| JsString.Slice | src/App.tsx:624-625 | `s.slice(start, end)` is the ordinary subsequence when the indices are in order and in range, and is never longer than `s` |
| JsString.SliceFrom | src/crdt/utils.ts:236 | `s.slice(start)` is the suffix from `start` when it is in range, counts from the end when negative, and is empty past the end |
| JsString.NatToString | src/crdt/utils.ts:6-8 | the decimal rendering of a count used in operation ids is never empty |
| JsString.IntToString | src/crdt/utils.ts:6-8 | the decimal rendering of a number used in operation ids is never empty |
| JsString.NatToStringReadsBack | src/crdt/utils.ts:6-8 | the rendering of a count is all decimal digits and reads back, most significant digit first, as that count |
| JsString.IntToStringReadsBack | src/crdt/utils.ts:6-8 | the rendering of a number starts with `-` exactly when it is negative, and the rest is digits reading back as its magnitude |
| JsString.IntToStringInjective | src/crdt/utils.ts:6-8 | different numbers render differently, so the counter and clock parts of an id determine the numbers |
| StringOrder.Less | src/crdt/utils.ts:223 | the fixed lexicographic order on strings standing for `localeCompare`, and for `<` on client ids at line 142; its laws are the four lemmas below |
| StringOrder.LessIrreflexive | src/crdt/utils.ts:223 | the fixed string order standing for `localeCompare` is irreflexive |
| StringOrder.LessAsymmetric | src/crdt/utils.ts:223 | the string order is asymmetric |
| StringOrder.LessTransitive | src/crdt/utils.ts:263 | the string order is transitive |
| StringOrder.LessTotal | src/crdt/utils.ts:142 | any two distinct strings are ordered one way or the other |
| TextDiff.CommonPrefix | src/crdt/utils.ts:20-23 | the prefix scan stops within both strings, at the first differing character |
| TextDiff.CommonSuffix | src/crdt/utils.ts:33-36 | the suffix scan never crosses the prefix and stops at the first differing character from the end |
| TextDiff.PrefixAgrees | src/crdt/utils.ts:20-23 | every character inside the common prefix agrees |
| TextDiff.SuffixAgrees | src/crdt/utils.ts:33-36 | every character inside the common suffix agrees |
| TextDiff.PrefixUnique | src/crdt/utils.ts:20-23 | an agreeing prefix that ends at a mismatch or at an end is the common prefix |
| TextDiff.SuffixUnique | src/crdt/utils.ts:33-36 | an agreeing suffix that ends at a mismatch or at the prefix is the common suffix |
| TextDiff.DeleteChangeAt | src/crdt/utils.ts:41-46 | the pushed delete record: position, deleted text and its length, no content |
| TextDiff.InsertChangeAt | src/crdt/utils.ts:51-55 | the pushed insert record: position and inserted text, no deleted text or length |
| TextDiff.Diff | src/crdt/utils.ts:13-59 | the diff of two snapshots, defined from the common prefix and the common suffix: nothing for equal texts, else an optional delete of the old window then an optional insert of the new window at the prefix length; its properties are `DiffEmptyIff`, `DiffShape` and `DiffRoundTrip` |
| TextDiff.CalculateTextDiff | src/crdt/utils.ts:13-59 | the loops and pushes of `calculateTextDiff` compute the diff function `Diff`, whose properties are the lemmas below |
| TextDiff.ScanPrefix | src/crdt/utils.ts:17-23 | the first loop stops at the common prefix length |
| TextDiff.ScanSuffix | src/crdt/utils.ts:29-36 | the second loop leaves both ends past the prefix, with equal remaining suffix lengths equal to the common suffix |
| TextDiff.DiffEmptyIff | src/crdt/utils.ts:25-27 | the diff is empty if and only if the two texts are equal |
| TextDiff.DiffWindows | src/crdt/utils.ts:13-59 | the prefix and suffix windows agree between the texts, never overlap, at least one changed window is non-empty for different texts, and the first changed characters differ |
| TextDiff.DiffShape | src/crdt/utils.ts:39-56 | for different texts the diff is an optional delete of the old window followed by an optional insert of the new window, at least one present, both at the prefix length; the delete has positive length and carries the deleted text, the insert has non-empty content, and no replace change is produced |
| TextDiff.PartsShape | src/crdt/utils.ts:39-56 | the delete part and insert part of a window have that shape, delete exactly the old window's length and insert exactly the new window's text |
| TextDiff.WindowSplice | src/crdt/utils.ts:13-59 | the shared prefix, the new window and the shared suffix spell the new text |
| TextDiff.DiffRoundTrip | src/crdt/utils.ts:20-56 | removing the deleted count at the prefix from the old text and splicing in the inserted text there gives exactly the new text, with the deleted count inside the old text |
| TextDiff.DiffInsertsWord | src/crdt/utils.ts:13-59 | inserting "beautiful " into "Hello world" gives one insert change at 6 and no delete |
| OperationFactory.OpKindOf | src/crdt/utils.ts:77 | a replace change becomes an insert; inserts and deletes keep their kind |
| OperationFactory.ChangeOperation | src/crdt/utils.ts:75-87 | the record for a change: its position, content and length, the call's stamps, the counter value and the id built from it |
| OperationFactory.ReplaceDeleteOperation | src/crdt/utils.ts:93-104 | the delete for a replacement: the deleted text and its length, the counter value plus one and the id built from that |
| OperationFactory.EmitsDelete | src/crdt/utils.ts:92 | a change produces the extra delete exactly when it is a replace with truthy deleted text |
| OperationFactory.OperationId | src/crdt/utils.ts:6-8 | the id `clientId-sequenceNumber-now`, with the clock reading passed in; `OperationsStamped` and `SameCounterSameId` state what it means for the records of one call |
| OperationFactory.AddChange | src/crdt/utils.ts:77-107 | one iteration of the loop: the change's record is pushed at the end, and for a replace change with deleted text the delete is then put at the front |
| OperationFactory.ToOperations | src/crdt/utils.ts:74-108 | the array after the loop has run over the given changes, one `AddChange` per change in input order; its layout is `ToOperationsLayout` |
| OperationFactory.TextChangesToOperations | src/crdt/utils.ts:64-111 | the push and unshift loop computes `ToOperations`, whose properties are the lemmas below |
| OperationFactory.OperationCount | src/crdt/utils.ts:74-108 | one operation per change, plus one per replace change with deleted text |
| OperationFactory.OperationsStamped | src/crdt/utils.ts:75-105 | every operation carries the note, field, client, author and clock reading given, the counter value or the one after it, and the id built from those |
| OperationFactory.SameCounterSameId | src/crdt/utils.ts:76 | two operations of one call with the same counter value have the same id |
| OperationFactory.PlainChangesOneToOne | src/crdt/utils.ts:74-89 | without replace changes, operation `i` copies change `i`'s kind, position, content and length, in input order, all with the given counter value and stamps |
| OperationFactory.ReplaceLayout | src/crdt/utils.ts:92-107 | a replace change with deleted text yields a delete at position 0 of the array, with the deleted text, its length and counter + 1, followed by an insert with the change's content and the counter |
| OperationFactory.ToOperationsLayout | src/crdt/utils.ts:74-108 | for any list of changes, the array is the replacement deletes, the one from the latest change first, followed by one record per change in input order |
| OperationFactory.ReplaceWithoutDeletedText | src/crdt/utils.ts:77-92 | a replace change without deleted text yields one insert with the counter |
| Transformer.Transform | src/crdt/utils.ts:116-211 | only position changes, and length only for two deletes marked as a conflict; pairs on different fields and pairs outside insert/delete come back unchanged with no conflict |
| Transformer.ConflictIffCollide | src/crdt/utils.ts:127-208 | the conflict flag is raised exactly for same-position inserts, overlapping deletes and an insert strictly inside a delete |
| Transformer.InsertInsertDistinct | src/crdt/utils.ts:127-135 | for inserts at distinct positions, the lower one is unchanged and the higher one moves right by the lower one's text length |
| Transformer.InsertInsertTie | src/crdt/utils.ts:138-147 | for inserts at one position a conflict is raised; if `own` is earlier by timestamp then client id, only `other` moves; otherwise both move, keeping the shift applied before the tie-break |
| Transformer.DeleteDeleteDisjoint | src/crdt/utils.ts:150-158 | a delete that ends before the other starts stays, and the other moves left by its length; symmetrically |
| Transformer.DeleteDeleteOverlap | src/crdt/utils.ts:159-177 | overlapping deletes conflict; with a positive overlap the later-starting one takes the earlier start and loses the overlap from its length (for equal starts, `other`); otherwise neither changes |
| Transformer.TransformKeepsNonNegative | src/crdt/utils.ts:148-177 | non-negative positions and lengths stay non-negative |
| Transformer.InsertDeleteCases | src/crdt/utils.ts:178-192 | insert at or before the delete's start pushes the delete right by its text; at or after the end moves left by the delete's length; strictly inside conflicts and moves to the delete's start |
| Transformer.InsertDeleteMirror | src/crdt/utils.ts:178-208 | transforming (insert, delete) and (delete, insert) give the same results with the roles swapped |
| OpOrder.Compare | src/crdt/utils.ts:220-224 | the comparator: the timestamp difference, else the sequence number difference, else the fixed string order on client ids; `CompareZeroIffSameKey`, `CompareAntisymmetric`, `KeyLeTotal` and `KeyLeTransitive` state its laws |
| OpOrder.KeyLe | src/crdt/utils.ts:220-224 | `a` may stay before `b`: the comparator is not positive |
| OpOrder.InsertOp | src/crdt/utils.ts:218-224 | one insertion step: `x` goes in front of the first element it may precede; `InsertOpKeyClass` states that it goes ahead of every element with its key |
| OpOrder.SortOps | src/crdt/utils.ts:218-224 | the stable sort as an insertion sort; `SortOpsCorrect` states that it returns an ordered permutation of its input and `SortOpsStable` that it is stable |
| OpOrder.CompareZeroIffSameKey | src/crdt/utils.ts:220-224 | the comparator returns 0 exactly for equal (timestamp, sequence number, client id) |
| OpOrder.CompareAntisymmetric | src/crdt/utils.ts:260-264 | swapping the comparator's arguments flips its sign |
| OpOrder.KeyLeTotal | src/crdt/utils.ts:220-224 | any two operations are ordered one way or the other |
| OpOrder.KeyLeTransitive | src/crdt/utils.ts:260-264 | the order is transitive |
| OpOrder.SortOpsCorrect | src/crdt/utils.ts:218-224 | the sort returns a permutation of its input in (timestamp, sequence number, client id) order |
| OpOrder.InsertOpKeyClass | src/crdt/utils.ts:218-224 | inserting an element keeps the elements of every key in the order they would have with the element prepended |
| OpOrder.SortOpsStable | src/crdt/utils.ts:218-224 | the sort is stable: for every key, the elements with that key come out in the order they went in |
| OpOrder.SortOpsOfSorted | src/crdt/utils.ts:260-264 | an input already in order comes back unchanged, as a stable sort leaves it |
| OpOrder.SortOpsMembers | src/crdt/utils.ts:218-224 | the sort keeps exactly the elements of its input |
| OpOrder.SortOpsAppend | src/crdt/utils.ts:218-224 | when every element of one part may precede every element of the other, sorting the concatenation sorts the parts on their own |
| Replay.Replay | src/crdt/utils.ts:228-241 | applying the operations one by one, in order, from a given text; `ReplayAppend` states it over a concatenation |
| Replay.FieldOps | src/crdt/utils.ts:219 | the field's operations in their original order, never more than the input; `FieldOpsMembers` states which are kept |
| Replay.Clamp | src/crdt/utils.ts:231-234 | `Math.max(0, Math.min(p, len))` lies in `0..len` and is `p` when `p` is in range |
| Replay.ApplyOp | src/crdt/utils.ts:229-237 | one replay step, with the position clamped; `ApplyInsert`, `ApplyDelete`, `ApplyNegativeDelete` and `ApplyNoOp` state its cases |
| Replay.Render | src/crdt/utils.ts:216-244 | the text of a field: its operations, sorted, replayed from the empty string; `RenderIgnoresOtherField`, `RenderAppendNewer` and `DiffOperationsReplay` state its properties |
| Replay.ApplyOperations | src/crdt/utils.ts:216-244 | the filter, sort and replay loop compute `Render`: the field's operations, sorted, replayed from the empty string |
| Replay.FilterField | src/crdt/utils.ts:219 | the filter loop keeps the field's operations in order |
| Replay.ReplayFromEmpty | src/crdt/utils.ts:226-243 | the replay loop applies the sorted operations one by one from the empty string |
| Replay.ApplyStep | src/crdt/utils.ts:229-237 | one loop iteration is one replay step |
| Replay.FieldOpsMembers | src/crdt/utils.ts:219 | the filter keeps exactly the operations of the field |
| Replay.RenderIgnoresOtherField | src/crdt/utils.ts:219 | operations of the other field do not change a field's text |
| Replay.ApplyInsert | src/crdt/utils.ts:230-232 | an insert with text grows the text by that text's length at the clamped position, keeping both sides |
| Replay.ApplyDelete | src/crdt/utils.ts:233-236 | a delete with positive length removes `min(length, len - pos)` characters at the clamped position |
| Replay.ApplyNegativeDelete | src/crdt/utils.ts:233-236 | a delete with negative length repeats the characters between end and start, so the text grows |
| Replay.ApplyNoOp | src/crdt/utils.ts:230-237 | inserts without text, deletes with no or zero length, and retains leave the text unchanged |
| Replay.ReplayAppend | src/crdt/utils.ts:228-241 | replaying a concatenation replays the parts one after the other |
| Replay.DiffOperationsReplay | src/crdt/utils.ts:13-111 | replaying the operations made from the diff of two texts onto the first text gives the second |
| Replay.EditOperationsSorted | src/crdt/utils.ts:64-111 | the operations of one edit are of its field, carry its clock reading, and are already in sort order |
| Replay.RenderAppendNewer | src/crdt/utils.ts:216-244 | appending a sorted batch newer than every existing operation of the field replays that batch after the existing text |
| Replay.LocalEditRendersNewText | src/crdt/useCRDT.ts:126-152 | when the log renders the last-seen text and is older than the edit, appending the edit's operations makes the log render the new text |
| Merger.Ids | src/crdt/utils.ts:254 | the ids of the processed operations, the content of `processedIds`; `IdsMembership` states it |
| Merger.TransformAgainst | src/crdt/utils.ts:273-278 | transforming against the accepted operations changes only position and length |
| Merger.Accepted | src/crdt/utils.ts:266-282 | the outer loop over the sorted operations: an operation whose id is already accepted is skipped, otherwise it is transformed against the accepted ones and appended; `AcceptedIsDedup` states the result |
| Merger.Merge | src/crdt/utils.ts:248-285 | the merged log: the accepted operations of the stably sorted concatenation of both inputs; `MergeProperties` states its properties |
| Merger.MergeOperations | src/crdt/utils.ts:249-285 | the nested loops with the processed-id set compute `Merge`: the first operation of each id in sort order, transformed against those accepted before it |
| Merger.IdsMembership | src/crdt/utils.ts:254-281 | an id is in the processed set exactly when some processed operation carries it |
| Merger.AcceptedIsDedup | src/crdt/utils.ts:267-282 | the accepted operations agree, except in position and length, with the first occurrence of every id in order |
| Merger.DedupDistinct | src/crdt/utils.ts:268 | the first occurrences have pairwise distinct ids |
| Merger.DedupCount | src/crdt/utils.ts:268 | there is one first occurrence per distinct id |
| Merger.MergeProperties | src/crdt/utils.ts:249-285 | the merged log has pairwise distinct ids, exactly the ids of the two inputs, agrees with the first sorted occurrence of each id except in placement, is sorted, and has one entry per distinct id, so at most the two input lengths together |
| Merger.MergeHeadUntransformed | src/crdt/utils.ts:267-282 | the first operation in sort order is accepted untransformed |
| Merger.MergeTwoDistinct | src/crdt/test.ts:97-131 | two operations with different ids both survive the merge |
| DocumentOps.CreateDocument | src/crdt/utils.ts:290-297 | a document with no operations, the given text, version 0 and the given clock reading; `CreatedDocumentRendersEmpty` states what its log renders |
| DocumentOps.ValidateOperation | src/crdt/utils.ts:302-316 | an insert is valid when its position is within the text and it has text; a delete when it has a length, starts inside the text, and its positive length ends within it; a retain never; `ValidOperationAppliesExactly` and `ValidDeleteNeedsLength` state what validity guarantees |
| DocumentOps.CreatedDocumentRendersEmpty | src/crdt/utils.ts:290-297 | a new document has no operations, the given text, version 0 and the clock reading, and its log renders the empty string |
| DocumentOps.ValidOperationAppliesExactly | src/crdt/utils.ts:302-316 | a valid insert is in range with non-empty text and replays without clamping; a valid delete removes exactly `length` characters at its position; a retain is never valid |
| DocumentOps.ValidDeleteNeedsLength | src/crdt/utils.ts:306-310 | a valid delete has a present positive length, starts inside the text and ends within it |
| DocumentOps.CountKind | src/crdt/utils.ts:334-337 | the number of operations of one kind; `CountsPartition` and `CountKindAppend` state its laws |
| DocumentOps.GetDocumentStats | src/crdt/utils.ts:321-340 | the stats are the operation count, the number of inserts and deletes, and the text length |
| DocumentOps.CountsPartition | src/crdt/utils.ts:334-337 | inserts, deletes and retains together account for every operation |
| DocumentOps.CountKindAppend | src/crdt/utils.ts:334-337 | counting over a concatenation adds the counts of the parts |
| PendingMap.Lookup | src/crdt/useCRDT.ts:159 | `Map.get`: the list of the first entry with the key, or none; `LookupMissing` states when it is absent |
| PendingMap.SetEntry | src/crdt/useCRDT.ts:162 | `Map.set`: an existing key's list is replaced in its place, a new key is added at the end; `SetEntryKeys`, `SetEntryLookup` and `SetEntryAt` state it |
| PendingMap.DeleteEntry | src/crdt/useCRDT.ts:326 | `Map.delete`: the key's entry is removed; `DeleteEntryKeys` and `SetEntryAt` state it |
| PendingMap.WithoutIds | src/crdt/useCRDT.ts:324 | the operations whose id is not among the given ids, in order; `WithoutIdsMembers` states which are kept |
| PendingMap.LookupMissing | src/crdt/useCRDT.ts:159 | `get` finds nothing exactly for keys absent from the map |
| PendingMap.SetEntryKeys | src/crdt/useCRDT.ts:162 | `set` adds its key to the key set and nothing else |
| PendingMap.SetEntryLookup | src/crdt/useCRDT.ts:159-162 | after `set` the key holds the new list, other keys keep theirs, and keys stay distinct |
| PendingMap.DeleteEntryKeys | src/crdt/useCRDT.ts:326 | `delete` removes just its key |
| PendingMap.SetEntryAt | src/crdt/useCRDT.ts:326-328 | `set` or `delete` of an entry's key touches only that entry, keeping its place |
| PendingMap.WithoutIdsMembers | src/crdt/useCRDT.ts:324 | the filter keeps exactly the operations whose id was not given |
| PendingMap.AckEntries | src/crdt/useCRDT.ts:320-333 | the pending map after acknowledgement has no more entries than before; `AckEntriesLookup` and `AckEntriesKeys` state its contents |
| PendingMap.AckEntriesLookup | src/crdt/useCRDT.ts:320-333 | after acknowledgement a key holds its old list without the given ids, or is absent when that is empty or the key was absent; keys stay distinct |
| PendingMap.AckEntriesKeys | src/crdt/useCRDT.ts:320-333 | acknowledgement adds no keys |
| PendingMap.UnacknowledgedMembers | src/crdt/useCRDT.ts:309 | the final filter keeps exactly the operations whose id is not acknowledged |
| PendingMap.Flatten | src/crdt/useCRDT.ts:303-307 | the pending lists concatenated in map order; `FlattenMembers` and `FlattenAppend` state its properties |
| PendingMap.Unacknowledged | src/crdt/useCRDT.ts:309 | the operations whose id is not acknowledged, in order; `UnacknowledgedMembers` states which are kept |
| PendingMap.FlattenAppend | src/crdt/useCRDT.ts:305-307 | concatenating the lists of two maps' entries is concatenating each |
| PendingMap.FlattenMembers | src/crdt/useCRDT.ts:305-307 | an operation is pending exactly when some entry's list holds it |
| NoteStore.NoteKey | src/crdt/useCRDT.ts:122 | the local id when truthy, else the numeric id in decimal, as `note.id.toString()` gives it |
| NoteStore.LastSeen | src/crdt/useCRDT.ts:125 | the last-seen text from the ref map, or the empty string when the key has none |
| NoteStore.AppendEdit | src/crdt/useCRDT.ts:147-153 | a field document after a local edit: operations appended, the new text, version plus one, the clock reading |
| NoteStore.EditedNote | src/crdt/useCRDT.ts:165-170 | the note with the edited field document, the new update time and the dirty mark; `EditedNoteFields` states it |
| NoteStore.EditNote | src/crdt/useCRDT.ts:121-170 | the map callback on a matching note: no change for an empty diff, else the edited note, the counter raised by the operation count, the operations appended to the key's pending list and the new last-seen text; `EditMatchingNote` computes it |
| NoteStore.NoteOps | src/crdt/useCRDT.ts:245 | the batch's operations addressed to the note, in order; `NoteOpsMembers` states which are kept |
| NoteStore.MergedDocument | src/crdt/useCRDT.ts:258-266 | a field document after a remote batch: the merged log, the text it renders, version raised by the incoming count, the clock reading |
| NoteStore.RemoteField | src/crdt/useCRDT.ts:250-286 | a field is merged only when the batch has operations for it; `RemoteFieldUpdate` computes it |
| NoteStore.RemoteNote | src/crdt/useCRDT.ts:243-293 | the map callback: a note without operations in the batch is kept, else both fields are updated with the update time and the conflict flag; `RemoteNoteFields` states it |
| NoteStore.RefStep | src/crdt/useCRDT.ts:269 | one note's update of the last-seen texts of a field: set to the rendered text when that field had incoming operations |
| NoteStore.RemoteRefs | src/crdt/useCRDT.ts:242-293 | the last-seen texts of a field after the batch, updated note by note in order; `ApplyToNotes` computes it |
| NoteStore.FirstKeyIndex | src/crdt/useCRDT.ts:122-123 | the index of the first note whose `localId` (or id as a string) is the key, or none when no note has it |
| NoteStore.EditedNoteFields | src/crdt/useCRDT.ts:147-170 | a local edit appends the operations after the existing ones, sets the text, raises the version by one, stamps the clock, marks the note dirty, and leaves the other field and the identity alone |
| NoteStore.NoteOpsMembers | src/crdt/useCRDT.ts:245 | the batch filter keeps exactly the operations addressed to the note |
| NoteStore.RemoteNotes | src/crdt/useCRDT.ts:242-298 | the notes under a remote batch, each note mapped on its own; `RemoteNotesPointwise` and `RemoteNoteFields` state the result |
| NoteStore.EditField | src/crdt/useCRDT.ts:120-175 | a local edit as a value: the first note whose key matches is edited, and with no match nothing changes; `EditUnchangedText`, `EditChangedText` and `EditKeepsLogInSync` state its effects |
| NoteStore.RemoteNotesPointwise | src/crdt/useCRDT.ts:243-294 | a remote batch maps each note on its own, keeping order and count |
| NoteStore.RemoteNoteFields | src/crdt/useCRDT.ts:244-293 | a note without operations in the batch is unchanged; a field with incoming operations gets the merged log, the text it renders and its version raised by the number of incoming operations; a field without any is untouched; an affected note is flagged for conflict resolution |
| NoteStore.ServerMatch | src/crdt/useCRDT.ts:364-369 | the `findIndex` condition: a numeric server id matches the note's id, a string one the note's id as a string, and either matches a present local id equal to the server's |
| NoteStore.FirstServerMatch | src/crdt/useCRDT.ts:364-369 | the first note matching the server note by id, local id or id as a string, or none |
| NoteStore.ReplaceOrAppend | src/crdt/useCRDT.ts:371-382 | the first matching note is replaced by the server note, or the server note is appended when none matches; `ReplaceOrAppendShape` states the result |
| NoteStore.ReplaceOrAppendShape | src/crdt/useCRDT.ts:371-382 | with a match the first match is replaced in place and the length is kept; without one the server note is appended and the length grows by one |
| NoteStore.MergeField | src/crdt/useCRDT.ts:257-267 | one field's update: merged log, rendered text, version raised by the incoming count |
| NoteStore.RemoteFieldUpdate | src/crdt/useCRDT.ts:250-287 | merges a field only when the batch has operations for it |
| NoteStore.ApplyToNote | src/crdt/useCRDT.ts:244-293 | the map callback of `applyRemoteOperations`, with the last-seen texts it updates |
| NoteStore.ApplyToNotes | src/crdt/useCRDT.ts:242-298 | the map over the notes, threading the last-seen texts in note order |
| NoteStore.AckPending | src/crdt/useCRDT.ts:320-333 | the walk over the map's entries computes the acknowledged map |
| NoteStore.EditMatchingNote | src/crdt/useCRDT.ts:122-170 | the callback on a matching note: an unchanged text leaves everything alone; afterwards the last-seen text is the new text and the pending keys stay distinct |
| NoteStore.EditNotes | src/crdt/useCRDT.ts:120-175 | the map over the notes computes `EditField`: only the first matching note can change, since a later match sees the new text as last seen |
| NoteStore.CollectPending | src/crdt/useCRDT.ts:303-307 | the loop concatenates the pending lists in map order |
| NoteStore.FilterUnacknowledged | src/crdt/useCRDT.ts:309 | the final filter drops acknowledged ids |
| NoteStore.FindServerMatch | src/crdt/useCRDT.ts:364-369 | `findIndex` returns the first match, or -1 when there is none |
| NoteStore.Store.constructor | src/crdt/useCRDT.ts:34-43 | the initial state: no notes, counter 0, nothing pending or acknowledged, no last-seen texts |
| NoteStore.Store.CreateNote | src/crdt/useCRDT.ts:90-116 | a new local note with empty documents goes in front of the others; nothing else changes |
| NoteStore.Store.UpdateNoteField | src/crdt/useCRDT.ts:119-236 | the new notes, counter, pending map and last-seen texts are those of `EditField` on the old state; the other field's texts and the acknowledged set are kept |
| NoteStore.Store.UpdateNoteTitle | src/crdt/useCRDT.ts:119-176 | `updateNoteTitle` is the edit of the title field |
| NoteStore.Store.UpdateNoteBody | src/crdt/useCRDT.ts:179-236 | `updateNoteBody` is the edit of the body field |
| NoteStore.Store.ApplyRemoteOperations | src/crdt/useCRDT.ts:239-299 | an empty batch changes nothing; otherwise notes and last-seen texts are those of the remote batch; counter, pending and acknowledged are kept |
| NoteStore.Store.GetPendingOperations | src/crdt/useCRDT.ts:302-310 | the pending lists concatenated in map order, minus acknowledged ids |
| NoteStore.Store.AcknowledgeOperations | src/crdt/useCRDT.ts:313-334 | the acknowledged set becomes the old set plus the given ids, and the pending map is the acknowledged map; nothing else changes |
| NoteStore.Store.MergeNoteFromServer | src/crdt/useCRDT.ts:363-383 | the notes become the replace-or-append of the server note; nothing else changes |
| NoteStoreLaws.EditUnchangedText | src/crdt/useCRDT.ts:121-128 | an edit to the last-seen text, or of a key no note has, leaves the notes, counter, pending map and last-seen texts unchanged |
| NoteStoreLaws.EditChangedText | src/crdt/useCRDT.ts:131-170 | a real edit changes only the matching note, records at least one operation appended to the key's pending list with other keys untouched, advances the counter by the operation count, and remembers the new text |
| NoteStoreLaws.EditKeepsLogInSync | src/crdt/useCRDT.ts:126-153 | when the field's log rendered the last-seen text, which the field stored, and is older than the edit, afterwards the log renders the new text and the field stores it |
| NoteStoreLaws.PendingReported | src/crdt/useCRDT.ts:302-310 | an operation is reported exactly when some pending list holds it and its id is not acknowledged |
| NoteStoreLaws.AckRemovesListed | src/crdt/useCRDT.ts:320-333 | after acknowledgement the pending operations are exactly the old ones whose ids were not given |
| AppHelpers.PrefixSlice | src/App.tsx:415 | `slice(0, n)` is the first `min(n, len)` elements |
| AppHelpers.SubsequenceEmbeds | src/App.tsx:505-517 | when the greedy scan succeeds it has matched the query at strictly increasing text positions |
| AppHelpers.EmbeddingIsSubsequence | src/App.tsx:505-517 | whenever the query embeds in the text, the greedy scan succeeds |
| AppHelpers.SubsequenceIffEmbedding | src/App.tsx:505-517 | the greedy scan accepts exactly when the query is a subsequence of the text |
| AppHelpers.SubsequenceNoLonger | src/App.tsx:505-517 | an accepted query is no longer than the text |
| AppHelpers.FuzzyMatch | src/App.tsx:505-517 | the two-cursor loop returns the greedy subsequence test; an empty query always matches and a query longer than the text never does |
| AppHelpers.JsRem | src/App.tsx:601-605 | JavaScript `%` with a positive divisor: the Euclidean remainder for non-negative dividends, and a non-positive remainder above `-n` for negative ones |
| AppHelpers.MentionDown | src/App.tsx:599-602 | ArrowDown keeps a non-negative index in `[0, n)`, moves to the next entry, and wraps from the last to the first |
| AppHelpers.MentionUp | src/App.tsx:603-606 | ArrowUp keeps the index in `[0, n)`, moves to the previous entry, and wraps from the first to the last |
| AppHelpers.MentionMovesInverse | src/App.tsx:599-606 | down then up, and up then down, restore the index |
| AppHelpers.MentionKeyEffect | src/App.tsx:596-615 | nothing happens unless the dropdown is shown with entries; only Enter and Tab choose, and they choose the current index |
| AppHelpers.MentionKeysStayInRange | src/App.tsx:596-615 | from an index in range, every key leaves the selection in range |
| AppHelpers.IsWordChar | src/App.tsx:401 | the character class `[a-zA-Z0-9_]` |
| AppHelpers.TrailingWordRun | src/App.tsx:401 | the maximal run of `[a-zA-Z0-9_]` at the end of the text |
| AppHelpers.DetectMention | src/App.tsx:399-406 | a detected mention's query is made of word characters and starts one `@` before its text, at `selectionStart - 1 - len(query)` |
| AppHelpers.DetectMentionIsPattern | src/App.tsx:399-501 | a mention is detected exactly when `@[a-zA-Z0-9_]*$` matches the text before the cursor, and every match gives the detected start and query |
| AppHelpers.EmptyQueryUsers | src/App.tsx:413-415 | with an empty query the first `min(20, len)` users are listed |
| AppHelpers.InsertMention | src/App.tsx:619-637 | for any mention start and cursor, the new cursor lies within the new body, just after `@`, the user name and a space, and the body continues with the text from the old cursor on |
| AppHelpers.InsertMentionSplice | src/App.tsx:624-637 | the new body is the text before the mention, `@`, the user name, a space and the text after the cursor; the cursor lands at `mentionStart + len(username) + 2`, right after the space |
| AppHelpers.ChosenMentionReplacesQuery | src/App.tsx:619-637 | choosing a user for a detected mention replaces exactly the `@` and the typed query, and no mention is open at the new cursor |
| AppHelpers.ReplaceNewlines | src/App.tsx:660 | every line break becomes a space and every other character is kept |
| AppHelpers.GetNotePreview | src/App.tsx:659-661 | the preview has no line break and 1 to 80 characters; an empty body gives "Empty note"; otherwise it is the first `min(80, len)` characters with line breaks as spaces |
| AppHelpers.GetNoteDisplayTitle | src/App.tsx:664-670 | a non-empty title other than "Untitled Note" is shown as is; otherwise the preview, kept when at most 30 characters, else its first 30 characters and "...", so at most 33 |
| SourceExamples.DiffOfInsertedWordIsOneOperation | src/crdt/test.ts:16-41 | inserting a word gives one insert change and one insert operation |
| SourceExamples.SamePositionInsertsConflict | src/crdt/test.ts:43-73 | two inserts at the same position conflict |
| SourceExamples.ReplayStartsFromEmpty | src/crdt/test.ts:75-95 | replaying one insert at 6 gives just the inserted word |
| SourceExamples.ConcurrentEditFromEmpty | src/crdt/test.ts:133-170 | an insert of "very " then a clamped delete past its end replays to "very " |
| SourceExamples.CollaborativeInserts | src/crdt/test.ts:212-259 | the earlier insert stays, the later moves past it, they conflict, and together they render "beautiful amazing " |
| SourceExamples.ValidationExamples | src/crdt/test.ts:172-206 | inserting "Hello" into "test" validates at 0 and not at 100 |
| SourceExamples.ReplacedCharacterOperations | src/crdt/utils.ts:13-111 | replacing one character gives a delete then an insert with the same id |
| SourceExamples.SameIdPairMergesToOne | src/crdt/utils.ts:267-268 | a log of two records with one id merges to one record |
| SourceExamples.ReplacedCharacterMergesToOne | src/crdt/utils.ts:6-8 | merging the log of a replaced character keeps one of its two records |

## Left out

- Rendering, effects, refs and timers in React: `useEffect`, `useCallback`, `setTimeout`,
  focus and resize. They are UI plumbing.
- The textarea-ref null guard in `insertMention` is left out for the same reason.
- Network and storage: `fetch`, the background save queue, and every localStorage load or
  save, including `saveNotesToLocal` in each update. They are I/O.
- `JSON.parse` of the server body and the construction of the server note in
  `mergeNoteFromServer`. This is deserialisation. `NoteStore.Store.MergeNoteFromServer`
  receives the note already built, with its server id taken as present. A missing server
  id, on which `serverNote.id.toString()` in the `findIndex` condition (src/crdt/useCRDT.ts:367)
  throws unless an earlier disjunct matched, has no model.
- The note list's `mergeNotesWithLocal`. It sorts by parsed date strings.
- `formatTime`. It uses date arithmetic and locale formatting.
- The dropdown's positioning. It uses floating-point style computations.
- The non-empty-query user filter, which works through `toLowerCase`, `includes` and
  `trim`. The model has no case folding.
- The relevance sort of users, which is left out with that filter.
- The submit shortcut and new-note actions of the key handler, and `handleChange`. They are
  component state and I/O.
- `reconstructNote` and the hook's `getDocumentStats`. They are lookups that call
  `applyOperations` and `getDocumentStats`, which are modelled.
- `loadNotesFromLocal` and `saveNotesToLocal` are I/O.
- `Date.now()`, `new Date().toISOString()` and `Math.random()` become the parameters `now`,
  `iso` and the note's `id`/`localId`.
- The client id is a constructor parameter.
- Strings are sequences of Unicode scalar values. JavaScript strings are UTF-16, so the
  model's positions and lengths count scalar values, not UTF-16 code units, and a lone
  surrogate cannot be represented. For text outside the Basic Multilingual Plane the
  source's positions differ, and `calculateTextDiff` can split a surrogate pair where the
  model compares whole characters.
- One clock reading is used per call, where the source reads the clock several times, so the
  model does not cover the case where those readings differ.
- `localeCompare` is replaced by one fixed total order on strings (`StringOrder.Less`).
- The same order stands for `<` on client ids.
- Numbers are unbounded integers. The model has no floating point, no `NaN` and no
  precision loss.
- `console.error`, the `try`/`catch` around each replay step, and the one in
  `validateOperation` have no model. On the modelled inputs nothing in those bodies can
  throw.
- `calculateTextDiff`'s unused `_position` parameter has no model.
- `PendingCRDTSave`, which no modelled code uses, has no model.
- React state updates are taken as applied one after the other. `crdtState` may be read
  from a stale closure, but the counter and the pending lists are modelled as the current
  state.
- Merge convergence and idempotence are not claimed. Already merged operations are
  transformed again, so merging a log with the empty log, or with itself, can move
  operations.
