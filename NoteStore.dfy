/**
 * The editing state kept by the notes hook (src/crdt/useCRDT.ts): the notes, the client's
 * sequence counter, the pending operations per note, the acknowledged ids, and the
 * last-seen title and body per note. Each state update of the hook is one method, run
 * sequentially on the state the previous one left.
 */
module NoteStore {
  import opened Wrappers
  import opened JsString
  import opened Types
  import TextDiff
  import opened OperationFactory
  import opened Replay
  import opened Merger
  import opened PendingMap
  import DocumentOps

  /** `note.localId || note.id.toString()`. */
  function NoteKey(n: Note): string {
    if Truthy(n.localId) then n.localId.value else IntToString(n.id)
  }

  /** The index of the first note with the given key. */
  function FirstKeyIndex(ns: seq<Note>, key: string): (r: Option<nat>)
    ensures r.Some? ==>
      && r.value < |ns| && NoteKey(ns[r.value]) == key
      && forall j :: 0 <= j < r.value ==> NoteKey(ns[j]) != key
    ensures r.None? ==> forall j :: 0 <= j < |ns| ==> NoteKey(ns[j]) != key
    decreases |ns|
  {
    if |ns| == 0 then None
    else if NoteKey(ns[0]) == key then Some(0)
    else match FirstKeyIndex(ns[1..], key)
      case None => None
      case Some(i) => Some(i + 1)
  }

  /** `ref.get(key) || ''`. */
  function LastSeen(refs: map<string, string>, key: string): string {
    if key in refs then refs[key] else ""
  }

  /** A field document after a local edit. */
  function AppendEdit(doc: Document, ops: seq<Operation>, newText: string, now: int): Document {
    doc.(operations := doc.operations + ops, currentText := newText, version := doc.version + 1,
      lastModified := now)
  }

  /** A note after a local edit of one field. */
  function EditedNote(n: Note, f: FieldType, ops: seq<Operation>, newText: string, now: int, iso: string): Note {
    WithFieldDocument(n, f, AppendEdit(FieldDocument(n, f), ops, newText, now))
      .(updatedAt := Some(iso), isDirty := Some(true))
  }

  /**
   * A local edit appends the operations after the existing ones, sets the text, bumps the
   * version by one, marks the note dirty, and leaves the other field and the identity alone.
   */
  lemma EditedNoteFields(n: Note, f: FieldType, ops: seq<Operation>, newText: string, now: int, iso: string)
    ensures var e := EditedNote(n, f, ops, newText, now, iso);
      var d, d0 := FieldDocument(e, f), FieldDocument(n, f);
      && d.operations == d0.operations + ops && d.operations[..|d0.operations|] == d0.operations
      && d.currentText == newText && d.version == d0.version + 1 && d.lastModified == now
      && e.isDirty == Some(true) && e.updatedAt == Some(iso)
      && FieldDocument(e, OtherField(f)) == FieldDocument(n, OtherField(f))
      && e.id == n.id && e.localId == n.localId && NoteKey(e) == NoteKey(n)
  {
  }

  function OtherField(f: FieldType): FieldType {
    if f == Title then Body else Title
  }

  /** Operations of a remote batch addressed to one note. */
  function NoteOps(ops: seq<Operation>, key: string): (r: seq<Operation>)
    decreases |ops|
  {
    if |ops| == 0 then []
    else
      var kept := if ops[|ops| - 1].noteId == key then [ops[|ops| - 1]] else [];
      NoteOps(ops[..|ops| - 1], key) + kept
  }

  /** The filter keeps exactly the operations addressed to the note. */
  lemma {:induction false} NoteOpsMembers(ops: seq<Operation>, key: string)
    ensures forall op :: op in NoteOps(ops, key) <==> op in ops && op.noteId == key
    decreases |ops|
  {
    if |ops| > 0 {
      var front := ops[..|ops| - 1];
      NoteOpsMembers(front, key);
      assert ops == front + [ops[|ops| - 1]];
    }
  }

  /** A field document after merging incoming operations into it. */
  function MergedDocument(doc: Document, incoming: seq<Operation>, f: FieldType, now: int): Document {
    var merged := Merge(doc.operations, incoming);
    doc.(operations := merged, currentText := Render(merged, f), version := doc.version + |incoming|,
      lastModified := now)
  }

  /** One field of a note under a remote batch: merged when it has incoming operations. */
  function RemoteField(n: Note, noteOps: seq<Operation>, f: FieldType, now: int): Document {
    var incoming := FieldOps(noteOps, f);
    if |incoming| > 0 then MergedDocument(FieldDocument(n, f), incoming, f, now) else FieldDocument(n, f)
  }

  /** A note under a remote batch. */
  function RemoteNote(n: Note, ops: seq<Operation>, now: int, iso: string): Note {
    var noteOps := NoteOps(ops, NoteKey(n));
    if |noteOps| == 0 then n
    else
      var titleOps, bodyOps := FieldOps(noteOps, Title), FieldOps(noteOps, Body);
      n.(titleDocument := RemoteField(n, noteOps, Title, now),
        bodyDocument := RemoteField(n, noteOps, Body, now),
        updatedAt := Some(iso),
        conflictResolutionNeeded := Some(|titleOps| > 0 || |bodyOps| > 0))
  }

  /** The notes under a remote batch, each mapped on its own. */
  function RemoteNotes(ns: seq<Note>, ops: seq<Operation>, now: int, iso: string): seq<Note>
    decreases |ns|
  {
    if |ns| == 0 then [] else RemoteNotes(ns[..|ns| - 1], ops, now, iso) + [RemoteNote(ns[|ns| - 1], ops, now, iso)]
  }

  /** The remote batch maps every note on its own and keeps the order and the count. */
  lemma {:induction false} RemoteNotesPointwise(ns: seq<Note>, ops: seq<Operation>, now: int, iso: string)
    ensures |RemoteNotes(ns, ops, now, iso)| == |ns|
    ensures forall i :: 0 <= i < |ns| ==> RemoteNotes(ns, ops, now, iso)[i] == RemoteNote(ns[i], ops, now, iso)
    decreases |ns|
  {
    if |ns| > 0 {
      var front := ns[..|ns| - 1];
      var r, rf := RemoteNotes(ns, ops, now, iso), RemoteNotes(front, ops, now, iso);
      RemoteNotesPointwise(front, ops, now, iso);
      assert r == rf + [RemoteNote(ns[|ns| - 1], ops, now, iso)];
      forall i | 0 <= i < |front| ensures r[i] == RemoteNote(ns[i], ops, now, iso) {
        assert r[i] == rf[i] && front[i] == ns[i];
      }
    }
  }

  /** The last-seen text of one field after a remote batch reaches note `n`. */
  function RefStep(before: map<string, string>, n: Note, ops: seq<Operation>, f: FieldType, now: int): map<string, string> {
    var noteOps := NoteOps(ops, NoteKey(n));
    if |FieldOps(noteOps, f)| > 0 then before[NoteKey(n) := RemoteField(n, noteOps, f, now).currentText]
    else before
  }

  /** The last-seen texts of one field after a remote batch, notes taken in order. */
  function RemoteRefs(ns: seq<Note>, ops: seq<Operation>, refs: map<string, string>, f: FieldType, now: int): map<string, string>
    decreases |ns|
  {
    if |ns| == 0 then refs
    else RefStep(RemoteRefs(ns[..|ns| - 1], ops, refs, f, now), ns[|ns| - 1], ops, f, now)
  }

  /** The notes up to `k + 1` under a remote batch extend those up to `k` by one. */
  lemma RemoteNotesSnoc(ns: seq<Note>, k: nat, ops: seq<Operation>, now: int, iso: string)
    requires k < |ns|
    ensures RemoteNotes(ns[..k + 1], ops, now, iso) == RemoteNotes(ns[..k], ops, now, iso) + [RemoteNote(ns[k], ops, now, iso)]
  {
    assert ns[..k + 1][..k] == ns[..k];
  }

  /** The last-seen texts after note `k` are those before it, stepped once. */
  lemma RemoteRefsSnoc(ns: seq<Note>, k: nat, ops: seq<Operation>, refs: map<string, string>, f: FieldType, now: int)
    requires k < |ns|
    ensures RemoteRefs(ns[..k + 1], ops, refs, f, now) == RefStep(RemoteRefs(ns[..k], ops, refs, f, now), ns[k], ops, f, now)
  {
    assert ns[..k + 1][..k] == ns[..k];
  }

  /**
   * A remote batch leaves a note without operations for it unchanged. Otherwise each field
   * with incoming operations gets the merged log, the text it renders, and its version
   * raised by the number of incoming operations; a field without any is untouched; and the
   * note is always flagged for conflict resolution.
   */
  lemma RemoteNoteFields(n: Note, ops: seq<Operation>, now: int, iso: string, f: FieldType)
    ensures var r, noteOps := RemoteNote(n, ops, now, iso), NoteOps(ops, NoteKey(n));
      var incoming, d0 := FieldOps(noteOps, f), FieldDocument(n, f);
      && (|noteOps| == 0 ==> r == n)
      && (|incoming| == 0 ==> FieldDocument(r, f) == d0)
      && (|incoming| > 0 ==>
            && FieldDocument(r, f).operations == Merge(d0.operations, incoming)
            && FieldDocument(r, f).currentText == Render(FieldDocument(r, f).operations, f)
            && FieldDocument(r, f).version == d0.version + |incoming|)
      && (|noteOps| > 0 ==> r.conflictResolutionNeeded == Some(true) && r.updatedAt == Some(iso))
      && r.id == n.id && r.localId == n.localId
  {
    var noteOps := NoteOps(ops, NoteKey(n));
    if |noteOps| > 0 {
      var op := noteOps[0];
      assert op in noteOps;
      FieldOpsMembers(noteOps, Title);
      FieldOpsMembers(noteOps, Body);
    }
  }

  /** The update a text edit makes, given the old state. */
  datatype EditOutcome = EditOutcome(
    notes: seq<Note>,
    sequenceCounter: int,
    pending: seq<PendingEntry>,
    refs: map<string, string>)

  /** What the map callback of `updateNoteTitle` / `updateNoteBody` does to a note whose key matches. */
  datatype NoteEdit = NoteEdit(
    note: Note,
    sequenceCounter: int,
    pending: seq<PendingEntry>,
    refs: map<string, string>)

  /**
   * A matching note is diffed against the last-seen text; an empty diff leaves everything
   * alone, otherwise the operations are appended to the note and to the pending ones, the
   * counter moves past them and the new text is remembered.
   */
  function EditNote(note: Note, counter: int, pending: seq<PendingEntry>, refs: map<string, string>,
    noteId: string, f: FieldType, newText: string, clientId: string, author: string, now: int, iso: string): NoteEdit
  {
    var changes := TextDiff.Diff(LastSeen(refs, noteId), newText);
    if changes == [] then NoteEdit(note, counter, pending, refs)
    else
      var ops := ToOperations(changes, EditContext(noteId, f, clientId, counter, author, now));
      NoteEdit(
        EditedNote(note, f, ops, newText, now, iso),
        counter + |ops|,
        SetEntry(pending, noteId, Lookup(pending, noteId).GetOr([]) + ops),
        refs[noteId := newText])
  }

  /**
   * The note whose key matches first is the only one that can change: a second match sees
   * the new text as its last-seen text, so its diff is empty.
   */
  function EditField(ns: seq<Note>, counter: int, pending: seq<PendingEntry>, refs: map<string, string>,
    noteId: string, f: FieldType, newText: string, clientId: string, author: string, now: int, iso: string): EditOutcome
  {
    match FirstKeyIndex(ns, noteId)
    case None => EditOutcome(ns, counter, pending, refs)
    case Some(i) =>
      var m := EditNote(ns[i], counter, pending, refs, noteId, f, newText, clientId, author, now, iso);
      EditOutcome(ns[i := m.note], m.sequenceCounter, m.pending, m.refs)
  }

  /** The `findIndex` condition of `mergeNoteFromServer`: whether a note is the server note. */
  function ServerMatch(n: Note, serverId: ServerId, serverLocalId: Option<string>): bool {
    match serverId
    case NumId(k) => n.id == k || (Truthy(n.localId) && serverLocalId == n.localId)
    case StrId(s) => (Truthy(n.localId) && serverLocalId == n.localId) || IntToString(n.id) == s
  }

  /** The server's id of a note: a number, or a string when it comes as one. */
  datatype ServerId = NumId(num: int) | StrId(str: string)

  function FirstServerMatch(ns: seq<Note>, serverId: ServerId, serverLocalId: Option<string>): (r: Option<nat>)
    ensures r.Some? ==>
      && r.value < |ns| && ServerMatch(ns[r.value], serverId, serverLocalId)
      && forall j :: 0 <= j < r.value ==> !ServerMatch(ns[j], serverId, serverLocalId)
    ensures r.None? ==> forall j :: 0 <= j < |ns| ==> !ServerMatch(ns[j], serverId, serverLocalId)
    decreases |ns|
  {
    if |ns| == 0 then None
    else if ServerMatch(ns[0], serverId, serverLocalId) then Some(0)
    else match FirstServerMatch(ns[1..], serverId, serverLocalId)
      case None => None
      case Some(i) => Some(i + 1)
  }

  /** Replace the first matching note, or append the server note when none matches. */
  function ReplaceOrAppend(ns: seq<Note>, incoming: Note, serverId: ServerId, serverLocalId: Option<string>): seq<Note> {
    match FirstServerMatch(ns, serverId, serverLocalId)
    case None => ns + [incoming]
    case Some(i) => ns[i := incoming]
  }

  /**
   * Merging a server note keeps the length when some note matches, replacing the first
   * match in place and nothing else, and otherwise appends the server note at the end.
   */
  lemma ReplaceOrAppendShape(ns: seq<Note>, incoming: Note, serverId: ServerId, serverLocalId: Option<string>)
    ensures var r, m := ReplaceOrAppend(ns, incoming, serverId, serverLocalId), FirstServerMatch(ns, serverId, serverLocalId);
      && (m.Some? ==>
            && |r| == |ns| && r[m.value] == incoming
            && forall j :: 0 <= j < |ns| && j != m.value ==> r[j] == ns[j])
      && (m.None? ==> |r| == |ns| + 1 && r[..|ns|] == ns && r[|ns|] == incoming)
  {
  }

  /** One field document under its incoming operations: merged, re-rendered, version raised. */
  method MergeField(doc: Document, incoming: seq<Operation>, f: FieldType, now: int) returns (d: Document)
    ensures d == MergedDocument(doc, incoming, f, now)
  {
    var mergedOps := MergeOperations(doc.operations, incoming);
    var newText := ApplyOperations(mergedOps, f);
    d := doc.(operations := mergedOps, currentText := newText, version := doc.version + |incoming|,
      lastModified := now);
  }

  /** One field of a note under a remote batch: merged when the batch has operations for it. */
  method RemoteFieldUpdate(note: Note, noteOps: seq<Operation>, f: FieldType, now: int) returns (d: Document)
    ensures d == RemoteField(note, noteOps, f, now)
  {
    var incoming := FieldOps(noteOps, f);
    d := FieldDocument(note, f);
    if |incoming| > 0 {
      d := MergeField(d, incoming, f, now);
    }
  }

  /** The step `applyRemoteOperations` takes on one note, with the last-seen texts so far. */
  method ApplyToNote(note: Note, operations: seq<Operation>, titles: map<string, string>,
    bodies: map<string, string>, now: int, iso: string)
    returns (r: Note, titles': map<string, string>, bodies': map<string, string>)
    ensures r == RemoteNote(note, operations, now, iso)
    ensures titles' == RefStep(titles, note, operations, Title, now)
    ensures bodies' == RefStep(bodies, note, operations, Body, now)
  {
    var noteId := NoteKey(note);
    var noteOps := NoteOps(operations, noteId);
    r, titles', bodies' := note, titles, bodies;
    if |noteOps| > 0 {
      var titleOps := FieldOps(noteOps, Title);
      var bodyOps := FieldOps(noteOps, Body);
      var title := RemoteFieldUpdate(note, noteOps, Title, now);
      var body := RemoteFieldUpdate(note, noteOps, Body, now);
      if |titleOps| > 0 {
        titles' := titles[noteId := title.currentText];
      }
      if |bodyOps| > 0 {
        bodies' := bodies[noteId := body.currentText];
      }
      r := note.(titleDocument := title, bodyDocument := body, updatedAt := Some(iso),
        conflictResolutionNeeded := Some(|titleOps| > 0 || |bodyOps| > 0));
    }
  }

  /** The map over the notes in `applyRemoteOperations`, threading the last-seen texts. */
  method ApplyToNotes(ns: seq<Note>, operations: seq<Operation>, titles: map<string, string>,
    bodies: map<string, string>, now: int, iso: string)
    returns (updated: seq<Note>, titles': map<string, string>, bodies': map<string, string>)
    ensures updated == RemoteNotes(ns, operations, now, iso)
    ensures titles' == RemoteRefs(ns, operations, titles, Title, now)
    ensures bodies' == RemoteRefs(ns, operations, bodies, Body, now)
  {
    updated, titles', bodies' := [], titles, bodies;
    for k := 0 to |ns|
      invariant updated == RemoteNotes(ns[..k], operations, now, iso)
      invariant titles' == RemoteRefs(ns[..k], operations, titles, Title, now)
      invariant bodies' == RemoteRefs(ns[..k], operations, bodies, Body, now)
    {
      RemoteNotesSnoc(ns, k, operations, now, iso);
      RemoteRefsSnoc(ns, k, operations, titles, Title, now);
      RemoteRefsSnoc(ns, k, operations, bodies, Body, now);
      var note;
      note, titles', bodies' := ApplyToNote(ns[k], operations, titles', bodies', now, iso);
      updated := updated + [note];
    }
    assert ns[..|ns|] == ns;
  }

  /** The walk of `acknowledgeOperations` over the map's original entries. */
  method AckPending(pending: seq<PendingEntry>, operationIds: seq<string>) returns (newPending: seq<PendingEntry>)
    requires DistinctKeys(pending)
    ensures newPending == AckEntries(pending, operationIds)
  {
    newPending := pending;
    for j := 0 to |pending|
      invariant newPending == AckEntries(pending[..j], operationIds) + pending[j..]
    {
      var entry := pending[j];
      var filtered := WithoutIds(entry.operations, operationIds);
      AckStep(pending, j, operationIds);
      if |filtered| == 0 {
        newPending := DeleteEntry(newPending, entry.noteId);
      } else {
        newPending := SetEntry(newPending, entry.noteId, filtered);
      }
    }
    assert pending[..|pending|] == pending;
  }

  /**
   * The step `updateNoteTitle` / `updateNoteBody` take on a note whose key matches: diff
   * the new text against the last-seen text and, when it changed, record the operations.
   * Afterwards the last-seen text is the new text, so a later match changes nothing.
   */
  method EditMatchingNote(note: Note, counter: int, pending: seq<PendingEntry>, refs: map<string, string>,
    noteId: string, f: FieldType, newText: string, clientId: string, author: string, now: int, iso: string)
    returns (m: NoteEdit)
    requires DistinctKeys(pending)
    ensures m == EditNote(note, counter, pending, refs, noteId, f, newText, clientId, author, now, iso)
    ensures LastSeen(refs, noteId) == newText ==> m == NoteEdit(note, counter, pending, refs)
    ensures DistinctKeys(m.pending) && LastSeen(m.refs, noteId) == newText
  {
    var lastText := LastSeen(refs, noteId);
    var changes := TextDiff.CalculateTextDiff(lastText, newText);
    TextDiff.DiffEmptyIff(lastText, newText);
    m := NoteEdit(note, counter, pending, refs);
    if |changes| > 0 {
      var operations := TextChangesToOperations(changes, EditContext(noteId, f, clientId, counter, author, now));
      var pendingOps := Lookup(pending, noteId).GetOr([]);
      SetEntryLookup(pending, noteId, pendingOps + operations, noteId);
      m := NoteEdit(EditedNote(note, f, operations, newText, now, iso), counter + |operations|,
        SetEntry(pending, noteId, pendingOps + operations), refs[noteId := newText]);
      assert changes != [];
      assert LastSeen(m.refs, noteId) == newText;
    } else {
      assert changes == [] && lastText == newText;
    }
  }

  /**
   * The state of the map in `updateNoteTitle` / `updateNoteBody` after `k` notes, when `at` is
   * the first matching index (`|ns|` if none) and `goal` what the callback does there.
   */
  ghost predicate EditProgress(ns: seq<Note>, k: nat, at: nat, goal: NoteEdit, start: EditOutcome, s: EditOutcome,
    noteId: string, newText: string)
    requires k <= |ns| && at <= |ns|
  {
    && (k <= at ==> s == start.(notes := ns[..k]))
    && (at < k ==>
          && s == EditOutcome(ns[..at] + [goal.note] + ns[at + 1..k], goal.sequenceCounter, goal.pending, goal.refs)
          && LastSeen(s.refs, noteId) == newText)
    && DistinctKeys(s.pending)
  }

  /** A note whose key does not match is copied, and nothing else changes. */
  lemma ProgressAfterSkip(ns: seq<Note>, k: nat, at: nat, goal: NoteEdit, start: EditOutcome, s: EditOutcome,
    noteId: string, newText: string)
    requires k < |ns| && at <= |ns| && k != at
    requires EditProgress(ns, k, at, goal, start, s, noteId, newText)
    ensures EditProgress(ns, k + 1, at, goal, start, s.(notes := s.notes + [ns[k]]), noteId, newText)
  {
    if k < at {
      assert ns[..k + 1] == ns[..k] + [ns[k]];
    } else {
      assert ns[at + 1..k + 1] == ns[at + 1..k] + [ns[k]];
    }
  }

  /**
   * At the first match the callback's result is the goal; at a later match it changes
   * nothing, and the note is copied.
   */
  lemma ProgressAfterMatch(ns: seq<Note>, k: nat, at: nat, goal: NoteEdit, start: EditOutcome, s: EditOutcome,
    step: NoteEdit, noteId: string, newText: string)
    requires at <= k < |ns|
    requires EditProgress(ns, k, at, goal, start, s, noteId, newText)
    requires k == at ==> step == goal
    requires at < k ==> step == NoteEdit(ns[k], s.sequenceCounter, s.pending, s.refs)
    requires DistinctKeys(step.pending) && LastSeen(step.refs, noteId) == newText
    ensures EditProgress(ns, k + 1, at, goal, start,
      EditOutcome(s.notes + [step.note], step.sequenceCounter, step.pending, step.refs), noteId, newText)
  {
    if k == at {
      assert ns[at + 1..k + 1] == [];
      assert ns[..at] + [goal.note] + ns[at + 1..k + 1] == s.notes + [step.note];
    } else {
      assert ns[at + 1..k + 1] == ns[at + 1..k] + [ns[k]];
    }
  }

  /** One call of the map callback. */
  method EditStep(ns: seq<Note>, k: nat, s: EditOutcome, noteId: string, f: FieldType, newText: string,
    clientId: string, author: string, now: int, iso: string, ghost at: nat, ghost goal: NoteEdit,
    ghost start: EditOutcome)
    returns (s': EditOutcome)
    requires k < |ns| && at <= |ns|
    requires forall j :: 0 <= j < at ==> NoteKey(ns[j]) != noteId
    requires at < |ns| ==>
      && NoteKey(ns[at]) == noteId
      && goal == EditNote(ns[at], start.sequenceCounter, start.pending, start.refs, noteId, f, newText, clientId,
        author, now, iso)
    requires EditProgress(ns, k, at, goal, start, s, noteId, newText)
    ensures EditProgress(ns, k + 1, at, goal, start, s', noteId, newText)
  {
    var note := ns[k];
    if NoteKey(note) == noteId {
      var step := EditMatchingNote(note, s.sequenceCounter, s.pending, s.refs, noteId, f, newText, clientId, author,
        now, iso);
      ProgressAfterMatch(ns, k, at, goal, start, s, step, noteId, newText);
      s' := EditOutcome(s.notes + [step.note], step.sequenceCounter, step.pending, step.refs);
    } else {
      ProgressAfterSkip(ns, k, at, goal, start, s, noteId, newText);
      s' := s.(notes := s.notes + [note]);
    }
  }

  /** The map over the notes in `updateNoteTitle` / `updateNoteBody`. */
  method EditNotes(ns: seq<Note>, counter: int, pending: seq<PendingEntry>, refs: map<string, string>,
    noteId: string, f: FieldType, newText: string, clientId: string, author: string, now: int, iso: string)
    returns (e: EditOutcome)
    requires DistinctKeys(pending)
    ensures e == EditField(ns, counter, pending, refs, noteId, f, newText, clientId, author, now, iso)
    ensures DistinctKeys(e.pending)
  {
    ghost var first := FirstKeyIndex(ns, noteId);
    ghost var at := if first.Some? then first.value else |ns|;
    ghost var goal := if first.Some? then EditNote(ns[at], counter, pending, refs, noteId, f, newText, clientId,
      author, now, iso) else NoteEdit(Note(0, None, DocumentOps.CreateDocument("", 0),
      DocumentOps.CreateDocument("", 0), None, None, None, None, None, None), counter, pending, refs);
    e := EditOutcome([], counter, pending, refs);
    ghost var start := e;
    for k := 0 to |ns|
      invariant EditProgress(ns, k, at, goal, start, e, noteId, newText)
    {
      e := EditStep(ns, k, e, noteId, f, newText, clientId, author, now, iso, at, goal, start);
    }
    assert ns[..|ns|] == ns;
    assert first.Some? ==> ns[..at] + [goal.note] + ns[at + 1..] == ns[at := goal.note];
  }

  /** The loop of `getPendingOperations` that concatenates the lists in map order. */
  method CollectPending(pending: seq<PendingEntry>) returns (allPending: seq<Operation>)
    ensures allPending == Flatten(pending)
  {
    allPending := [];
    for k := 0 to |pending|
      invariant allPending == Flatten(pending[..k])
    {
      assert pending[..k + 1][..k] == pending[..k];
      allPending := allPending + pending[k].operations;
    }
    assert pending[..|pending|] == pending;
  }

  /** The final filter of `getPendingOperations`. */
  method FilterUnacknowledged(allPending: seq<Operation>, acknowledged: set<string>) returns (result: seq<Operation>)
    ensures result == Unacknowledged(allPending, acknowledged)
  {
    result := [];
    for k := 0 to |allPending|
      invariant result == Unacknowledged(allPending[..k], acknowledged)
    {
      assert allPending[..k + 1][..k] == allPending[..k];
      if allPending[k].id !in acknowledged {
        result := result + [allPending[k]];
      }
    }
    assert allPending[..|allPending|] == allPending;
  }

  /** A match with no match before it is the first match. */
  lemma FirstServerMatchAt(ns: seq<Note>, serverId: ServerId, serverLocalId: Option<string>, k: nat)
    requires k < |ns| && ServerMatch(ns[k], serverId, serverLocalId)
    requires forall j :: 0 <= j < k ==> !ServerMatch(ns[j], serverId, serverLocalId)
    ensures FirstServerMatch(ns, serverId, serverLocalId) == Some(k)
  {
    var m := FirstServerMatch(ns, serverId, serverLocalId);
    assert m.Some?;
    assert !(m.value < k) && !(k < m.value);
  }

  /** The `findIndex` of `mergeNoteFromServer`: the first match, or -1. */
  method FindServerMatch(ns: seq<Note>, serverId: ServerId, serverLocalId: Option<string>) returns (index: int)
    ensures FirstServerMatch(ns, serverId, serverLocalId).None? ==> index == -1
    ensures FirstServerMatch(ns, serverId, serverLocalId).Some? ==>
      index == FirstServerMatch(ns, serverId, serverLocalId).value
  {
    index := -1;
    var k := 0;
    while k < |ns| && index == -1
      invariant 0 <= k <= |ns|
      invariant index == -1 ==> forall j :: 0 <= j < k ==> !ServerMatch(ns[j], serverId, serverLocalId)
      invariant index != -1 ==> FirstServerMatch(ns, serverId, serverLocalId) == Some(index)
    {
      if ServerMatch(ns[k], serverId, serverLocalId) {
        FirstServerMatchAt(ns, serverId, serverLocalId, k);
        index := k;
      }
      k := k + 1;
    }
  }

  class Store {
    var notes: seq<Note>
    const clientId: string
    const author: string
    var sequenceCounter: int
    var pending: seq<PendingEntry>
    var acknowledged: set<string>
    var lastTitle: map<string, string>
    var lastBody: map<string, string>

    ghost predicate Valid()
      reads this
    {
      DistinctKeys(pending)
    }

    function Refs(f: FieldType): map<string, string>
      reads this
    {
      if f == Title then lastTitle else lastBody
    }

    /** The initial state: no notes, counter 0, nothing pending or acknowledged. */
    constructor (clientId: string, author: string)
      ensures Valid()
      ensures this.clientId == clientId && this.author == author
      ensures notes == [] && sequenceCounter == 0 && pending == [] && acknowledged == {}
      ensures lastTitle == map[] && lastBody == map[]
    {
      this.clientId := clientId;
      this.author := author;
      notes := [];
      sequenceCounter := 0;
      pending := [];
      acknowledged := {};
      lastTitle := map[];
      lastBody := map[];
    }

    /** `createNote`: a fresh local note in front of the others. */
    method CreateNote(id: int, localId: string, now: int, iso: string) returns (note: Note)
      modifies this
      ensures note == Note(id, Some(localId), DocumentOps.CreateDocument("", now),
        DocumentOps.CreateDocument("", now), Some(iso), Some(iso), Some(false), Some(true), Some(0), Some(false))
      ensures notes == [note] + old(notes)
      ensures sequenceCounter == old(sequenceCounter) && pending == old(pending)
      ensures acknowledged == old(acknowledged) && lastTitle == old(lastTitle) && lastBody == old(lastBody)
    {
      note := Note(id, Some(localId), DocumentOps.CreateDocument("", now),
        DocumentOps.CreateDocument("", now), Some(iso), Some(iso), Some(false), Some(true), Some(0), Some(false));
      notes := [note] + notes;
    }

    /** Replace the last-seen texts of one field. */
    method SetRefs(f: FieldType, refs: map<string, string>)
      modifies this
      ensures Refs(f) == refs && Refs(OtherField(f)) == old(Refs(OtherField(f)))
      ensures notes == old(notes) && sequenceCounter == old(sequenceCounter) && pending == old(pending)
      ensures acknowledged == old(acknowledged)
    {
      if f == Title {
        lastTitle := refs;
      } else {
        lastBody := refs;
      }
    }

    /** `updateNoteTitle` / `updateNoteBody` for the given field. */
    method UpdateNoteField(noteId: string, f: FieldType, newText: string, now: int, iso: string)
      requires Valid()
      modifies this
      ensures Valid()
      ensures var e := EditField(old(notes), old(sequenceCounter), old(pending), old(Refs(f)),
        noteId, f, newText, clientId, author, now, iso);
        && notes == e.notes && sequenceCounter == e.sequenceCounter && pending == e.pending
        && Refs(f) == e.refs
      ensures Refs(OtherField(f)) == old(Refs(OtherField(f))) && acknowledged == old(acknowledged)
    {
      var e := EditNotes(notes, sequenceCounter, pending, Refs(f), noteId, f, newText, clientId, author, now, iso);
      notes, sequenceCounter, pending := e.notes, e.sequenceCounter, e.pending;
      SetRefs(f, e.refs);
    }

    method UpdateNoteTitle(noteId: string, newTitle: string, now: int, iso: string)
      requires Valid()
      modifies this
      ensures Valid()
      ensures var e := EditField(old(notes), old(sequenceCounter), old(pending), old(lastTitle),
        noteId, Title, newTitle, clientId, author, now, iso);
        && notes == e.notes && sequenceCounter == e.sequenceCounter && pending == e.pending
        && lastTitle == e.refs && lastBody == old(lastBody) && acknowledged == old(acknowledged)
    {
      UpdateNoteField(noteId, Title, newTitle, now, iso);
    }

    method UpdateNoteBody(noteId: string, newBody: string, now: int, iso: string)
      requires Valid()
      modifies this
      ensures Valid()
      ensures var e := EditField(old(notes), old(sequenceCounter), old(pending), old(lastBody),
        noteId, Body, newBody, clientId, author, now, iso);
        && notes == e.notes && sequenceCounter == e.sequenceCounter && pending == e.pending
        && lastBody == e.refs && lastTitle == old(lastTitle) && acknowledged == old(acknowledged)
    {
      UpdateNoteField(noteId, Body, newBody, now, iso);
    }

    /** `applyRemoteOperations`: merge each note's incoming operations field by field. */
    method ApplyRemoteOperations(operations: seq<Operation>, now: int, iso: string)
      requires Valid()
      modifies this
      ensures Valid()
      ensures |operations| == 0 ==> notes == old(notes) && lastTitle == old(lastTitle) && lastBody == old(lastBody)
      ensures |operations| > 0 ==>
        && notes == RemoteNotes(old(notes), operations, now, iso)
        && lastTitle == RemoteRefs(old(notes), operations, old(lastTitle), Title, now)
        && lastBody == RemoteRefs(old(notes), operations, old(lastBody), Body, now)
      ensures sequenceCounter == old(sequenceCounter) && pending == old(pending)
      ensures acknowledged == old(acknowledged)
    {
      if |operations| == 0 {
        return;
      }
      var updated, titles, bodies := ApplyToNotes(notes, operations, lastTitle, lastBody, now, iso);
      notes := updated;
      lastTitle := titles;
      lastBody := bodies;
    }

    /** `getPendingOperations`: the pending lists in map order, minus acknowledged ids. */
    method GetPendingOperations() returns (result: seq<Operation>)
      ensures result == Unacknowledged(Flatten(pending), acknowledged)
    {
      var allPending := CollectPending(pending);
      result := FilterUnacknowledged(allPending, acknowledged);
    }

    /**
     * `acknowledgeOperations`: add the ids to the acknowledged set, then walk the map in
     * order, dropping the ids from each list and deleting keys whose list becomes empty.
     * The walk visits the original entries: entries ahead of it are never changed.
     */
    method AcknowledgeOperations(operationIds: seq<string>)
      requires Valid()
      modifies this
      ensures Valid()
      ensures acknowledged == old(acknowledged) + (set id | id in operationIds)
      ensures pending == AckEntries(old(pending), operationIds)
      ensures notes == old(notes) && sequenceCounter == old(sequenceCounter)
      ensures lastTitle == old(lastTitle) && lastBody == old(lastBody)
    {
      acknowledged := acknowledged + (set id | id in operationIds);
      AckEntriesLookup(pending, operationIds, "");
      pending := AckPending(pending, operationIds);
    }

    /** The replace-or-append step of `mergeNoteFromServer`, given the server note already built. */
    method MergeNoteFromServer(serverNote: Note, serverId: ServerId, serverLocalId: Option<string>)
      modifies this
      ensures notes == ReplaceOrAppend(old(notes), serverNote, serverId, serverLocalId)
      ensures sequenceCounter == old(sequenceCounter) && pending == old(pending)
      ensures acknowledged == old(acknowledged) && lastTitle == old(lastTitle) && lastBody == old(lastBody)
    {
      var existingIndex := FindServerMatch(notes, serverId, serverLocalId);
      if existingIndex == -1 {
        notes := notes + [serverNote];
      } else {
        notes := notes[existingIndex := serverNote];
      }
    }
  }
}
