/**
 * What the hook's state updates guarantee, stated over the functions its methods are
 * proved against (src/crdt/useCRDT.ts).
 */
module NoteStoreLaws {
  import opened Wrappers
  import opened Types
  import TextDiff
  import opened OperationFactory
  import opened Replay
  import opened PendingMap
  import opened NoteStore

  /** Typing the last-seen text again, or editing a note nobody has, changes nothing. */
  lemma EditUnchangedText(ns: seq<Note>, counter: int, pending: seq<PendingEntry>, refs: map<string, string>,
    noteId: string, f: FieldType, newText: string, clientId: string, author: string, now: int, iso: string)
    requires FirstKeyIndex(ns, noteId).None? || LastSeen(refs, noteId) == newText
    ensures EditField(ns, counter, pending, refs, noteId, f, newText, clientId, author, now, iso)
      == EditOutcome(ns, counter, pending, refs)
  {
    TextDiff.DiffEmptyIff(LastSeen(refs, noteId), newText);
  }

  /**
   * A real edit of a present note changes that note only, records at least one operation
   * under the note's key (appended to the pending ones, other keys untouched), raises the
   * counter by the number of operations, and remembers the new text.
   */
  lemma EditChangedText(ns: seq<Note>, counter: int, pending: seq<PendingEntry>, refs: map<string, string>,
    noteId: string, f: FieldType, newText: string, clientId: string, author: string, now: int, iso: string,
    other: string)
    requires FirstKeyIndex(ns, noteId).Some? && LastSeen(refs, noteId) != newText
    requires DistinctKeys(pending)
    ensures var e, i := EditField(ns, counter, pending, refs, noteId, f, newText, clientId, author, now, iso),
      FirstKeyIndex(ns, noteId).value;
      var ops := ToOperations(TextDiff.Diff(LastSeen(refs, noteId), newText),
        EditContext(noteId, f, clientId, counter, author, now));
      && |e.notes| == |ns|
      && (forall j :: 0 <= j < |ns| && j != i ==> e.notes[j] == ns[j])
      && e.notes[i] == EditedNote(ns[i], f, ops, newText, now, iso)
      && 1 <= |ops| && e.sequenceCounter == counter + |ops|
      && DistinctKeys(e.pending)
      && Lookup(e.pending, noteId) == Some(Lookup(pending, noteId).GetOr([]) + ops)
      && (other != noteId ==> Lookup(e.pending, other) == Lookup(pending, other))
      && LastSeen(e.refs, noteId) == newText
  {
    var before := LastSeen(refs, noteId);
    var cs := TextDiff.Diff(before, newText);
    var ops := ToOperations(cs, EditContext(noteId, f, clientId, counter, author, now));
    TextDiff.DiffEmptyIff(before, newText);
    OperationCount(cs, EditContext(noteId, f, clientId, counter, author, now));
    SetEntryLookup(pending, noteId, Lookup(pending, noteId).GetOr([]) + ops, other);
  }

  /**
   * The edit keeps a note's log consistent with its text: if the field's log rendered the
   * last-seen text, the field stored it, and every operation in the log is older than the
   * edit's clock reading, then after the edit the log renders the new text and the field
   * stores it.
   */
  lemma EditKeepsLogInSync(ns: seq<Note>, counter: int, pending: seq<PendingEntry>, refs: map<string, string>,
    noteId: string, f: FieldType, newText: string, clientId: string, author: string, now: int, iso: string)
    requires FirstKeyIndex(ns, noteId).Some?
    requires var d := FieldDocument(ns[FirstKeyIndex(ns, noteId).value], f);
      && Render(d.operations, f) == LastSeen(refs, noteId)
      && d.currentText == LastSeen(refs, noteId)
      && forall op :: op in d.operations && op.fieldType == f ==> op.timestamp < now
    ensures var e, i := EditField(ns, counter, pending, refs, noteId, f, newText, clientId, author, now, iso),
      FirstKeyIndex(ns, noteId).value;
      && Render(FieldDocument(e.notes[i], f).operations, f) == newText
      && FieldDocument(e.notes[i], f).currentText == newText
  {
    var i := FirstKeyIndex(ns, noteId).value;
    var last := LastSeen(refs, noteId);
    var e := EditField(ns, counter, pending, refs, noteId, f, newText, clientId, author, now, iso);
    if last == newText {
      EditUnchangedText(ns, counter, pending, refs, noteId, f, newText, clientId, author, now, iso);
    } else {
      var ctx := EditContext(noteId, f, clientId, counter, author, now);
      var ops := ToOperations(TextDiff.Diff(last, newText), ctx);
      TextDiff.DiffEmptyIff(last, newText);
      assert e.notes[i] == EditedNote(ns[i], f, ops, newText, now, iso);
      LocalEditRendersNewText(FieldDocument(ns[i], f).operations, last, newText, ctx);
      EditedNoteFields(ns[i], f, ops, newText, now, iso);
    }
  }

  /** Pending operations reported: those of every key, minus the acknowledged ids. */
  lemma PendingReported(pending: seq<PendingEntry>, acknowledged: set<string>, op: Operation)
    ensures op in Unacknowledged(Flatten(pending), acknowledged)
      <==> (exists e :: e in pending && op in e.operations) && op.id !in acknowledged
  {
    UnacknowledgedMembers(Flatten(pending), acknowledged);
    FlattenMembers(pending, op);
  }

  /** After acknowledging, the pending operations are exactly those whose ids were not listed. */
  lemma {:induction false} AckRemovesListed(p: seq<PendingEntry>, ids: seq<string>, op: Operation)
    ensures op in Flatten(AckEntries(p, ids)) <==> op in Flatten(p) && op.id !in ids
    decreases |p|
  {
    if |p| > 0 {
      var front, e := p[..|p| - 1], p[|p| - 1];
      var filtered := WithoutIds(e.operations, ids);
      AckRemovesListed(front, ids, op);
      WithoutIdsMembers(e.operations, ids);
      var tail := if |filtered| == 0 then [] else [PendingEntry(e.noteId, filtered)];
      assert AckEntries(p, ids) == AckEntries(front, ids) + tail;
      FlattenAppend(AckEntries(front, ids), tail);
      if |filtered| == 0 {
        assert Flatten(tail) == [];
        assert op !in filtered;
      } else {
        assert Flatten(tail) == filtered by {
          assert tail[..0] == [];
        }
      }
    }
  }
}
