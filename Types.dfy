/** The record types of the editing engine (src/crdt/types.ts). */
module Types {
  import opened Wrappers

  datatype OpKind = Insert | Delete | Retain

  datatype FieldType = Title | Body

  /**
   * One edit record. `content` and `length` are optional in the source; numbers are
   * modelled as unbounded integers.
   */
  datatype Operation = Operation(
    id: string,
    kind: OpKind,
    position: int,
    content: Option<string>,
    length: Option<int>,
    timestamp: int,
    author: string,
    noteId: string,
    fieldType: FieldType,
    clientId: string,
    sequenceNumber: int)

  /** One field's operation log with its cached text. */
  datatype Document = Document(
    operations: seq<Operation>,
    currentText: string,
    version: int,
    lastModified: int)

  /** A note as the editing layer keeps it: one document per field. */
  datatype Note = Note(
    id: int,
    localId: Option<string>,
    titleDocument: Document,
    bodyDocument: Document,
    createdAt: Option<string>,
    updatedAt: Option<string>,
    isDirty: Option<bool>,
    isLocalOnly: Option<bool>,
    lastSyncedVersion: Option<int>,
    conflictResolutionNeeded: Option<bool>)

  datatype ChangeKind = InsertChange | DeleteChange | ReplaceChange

  /** A change reported by the diff, before it becomes an operation. */
  datatype TextChange = TextChange(
    kind: ChangeKind,
    position: int,
    content: Option<string>,
    deletedContent: Option<string>,
    length: Option<int>)

  datatype TransformResult = TransformResult(ownOp: Operation, otherOp: Operation, conflict: bool)

  /** `op.content?.length || 0`. */
  function ContentLength(op: Operation): nat {
    match op.content
    case Some(c) => |c|
    case None => 0
  }

  /** `op.length || 0`. */
  function LengthOrZero(op: Operation): int {
    op.length.GetOr(0)
  }

  /** The document for one field of a note. */
  function FieldDocument(n: Note, f: FieldType): Document {
    if f == Title then n.titleDocument else n.bodyDocument
  }

  function WithFieldDocument(n: Note, f: FieldType, d: Document): Note {
    if f == Title then n.(titleDocument := d) else n.(bodyDocument := d)
  }
}
