/**
 * Turning diff changes into operation records (`textChangesToOperations`,
 * src/crdt/utils.ts:64-111, with `generateOperationId` at lines 6-8).
 */
module OperationFactory {
  import opened Wrappers
  import opened JsString
  import opened Types

  /**
   * What the caller supplies for one conversion: the note, the field, the client, the
   * author, the counter value, and the one clock reading every record of the call carries.
   */
  datatype EditContext = EditContext(
    noteId: string,
    fieldType: FieldType,
    clientId: string,
    sequenceNumber: int,
    author: string,
    now: int)

  /** `clientId-sequenceNumber-now`, with the clock reading passed in. */
  function OperationId(clientId: string, sequenceNumber: int, now: int): string {
    clientId + "-" + IntToString(sequenceNumber) + "-" + IntToString(now)
  }

  /** A replace change becomes an insert; the other kinds keep their name. */
  function OpKindOf(k: ChangeKind): OpKind {
    match k
    case InsertChange => Insert
    case DeleteChange => Delete
    case ReplaceChange => Insert
  }

  /** The record built for a change itself, with the call's counter value. */
  function ChangeOperation(c: TextChange, ctx: EditContext): Operation {
    Operation(OperationId(ctx.clientId, ctx.sequenceNumber, ctx.now), OpKindOf(c.kind),
      c.position, c.content, c.length, ctx.now, ctx.author, ctx.noteId, ctx.fieldType,
      ctx.clientId, ctx.sequenceNumber)
  }

  /** The extra delete a replace change with deleted text produces, one counter value later. */
  function ReplaceDeleteOperation(c: TextChange, ctx: EditContext): Operation
    requires c.deletedContent.Some?
  {
    Operation(OperationId(ctx.clientId, ctx.sequenceNumber + 1, ctx.now), Delete,
      c.position, c.deletedContent, Some(|c.deletedContent.value|), ctx.now, ctx.author,
      ctx.noteId, ctx.fieldType, ctx.clientId, ctx.sequenceNumber + 1)
  }

  /** Whether a change also produces a leading delete. */
  predicate EmitsDelete(c: TextChange) {
    c.kind == ReplaceChange && Truthy(c.deletedContent)
  }

  /** One loop step: push the change's record, then put the replacement's delete in front. */
  function AddChange(ops: seq<Operation>, c: TextChange, ctx: EditContext): seq<Operation> {
    var pushed := ops + [ChangeOperation(c, ctx)];
    if EmitsDelete(c) then [ReplaceDeleteOperation(c, ctx)] + pushed else pushed
  }

  /** The array the loop has built after the given changes. */
  function ToOperations(changes: seq<TextChange>, ctx: EditContext): seq<Operation>
    decreases |changes|
  {
    if |changes| == 0 then []
    else AddChange(ToOperations(changes[..|changes| - 1], ctx), changes[|changes| - 1], ctx)
  }

  /** The number of changes that produce an extra delete. */
  function DeleteCount(changes: seq<TextChange>): nat
    decreases |changes|
  {
    if |changes| == 0 then 0
    else DeleteCount(changes[..|changes| - 1]) + (if EmitsDelete(changes[|changes| - 1]) then 1 else 0)
  }

  method TextChangesToOperations(changes: seq<TextChange>, ctx: EditContext)
    returns (operations: seq<Operation>)
    ensures operations == ToOperations(changes, ctx)
  {
    operations := [];
    for k := 0 to |changes|
      invariant operations == ToOperations(changes[..k], ctx)
    {
      assert changes[..k + 1][..k] == changes[..k];
      var change := changes[k];
      var operation := Operation(OperationId(ctx.clientId, ctx.sequenceNumber, ctx.now),
        OpKindOf(change.kind), change.position, change.content, change.length, ctx.now,
        ctx.author, ctx.noteId, ctx.fieldType, ctx.clientId, ctx.sequenceNumber);
      operations := operations + [operation];
      if change.kind == ReplaceChange && Truthy(change.deletedContent) {
        var deleted := change.deletedContent.value;
        var deleteOp := Operation(OperationId(ctx.clientId, ctx.sequenceNumber + 1, ctx.now),
          Delete, change.position, change.deletedContent, Some(|deleted|), ctx.now, ctx.author,
          ctx.noteId, ctx.fieldType, ctx.clientId, ctx.sequenceNumber + 1);
        operations := [deleteOp] + operations;
      }
    }
    assert changes[..|changes|] == changes;
  }

  /** One record per change, plus one per replacement with deleted text. */
  lemma {:induction false} OperationCount(changes: seq<TextChange>, ctx: EditContext)
    ensures |ToOperations(changes, ctx)| == |changes| + DeleteCount(changes)
    decreases |changes|
  {
    if |changes| > 0 {
      OperationCount(changes[..|changes| - 1], ctx);
    }
  }

  /**
   * Every record carries the call's note, field, client, author and clock reading, a
   * counter value of `sequenceNumber` or one more, and the id built from those; so two
   * records of one call with the same counter value have the same id.
   */
  lemma {:induction false} OperationsStamped(changes: seq<TextChange>, ctx: EditContext)
    ensures forall op :: op in ToOperations(changes, ctx) ==>
      && op.noteId == ctx.noteId && op.fieldType == ctx.fieldType
      && op.clientId == ctx.clientId && op.author == ctx.author && op.timestamp == ctx.now
      && (op.sequenceNumber == ctx.sequenceNumber || op.sequenceNumber == ctx.sequenceNumber + 1)
      && op.id == OperationId(ctx.clientId, op.sequenceNumber, ctx.now)
    decreases |changes|
  {
    if |changes| > 0 {
      OperationsStamped(changes[..|changes| - 1], ctx);
    }
  }

  /** Records of one call with equal counter values collide on their id. */
  lemma SameCounterSameId(changes: seq<TextChange>, ctx: EditContext, i: nat, j: nat)
    requires i < |ToOperations(changes, ctx)| && j < |ToOperations(changes, ctx)|
    requires ToOperations(changes, ctx)[i].sequenceNumber == ToOperations(changes, ctx)[j].sequenceNumber
    ensures ToOperations(changes, ctx)[i].id == ToOperations(changes, ctx)[j].id
  {
    var ops := ToOperations(changes, ctx);
    OperationsStamped(changes, ctx);
    assert ops[i] in ops && ops[j] in ops;
  }

  /** The conditions under which the record for a change copies that change. */
  predicate CopiesChange(op: Operation, c: TextChange, ctx: EditContext) {
    && op.kind == (if c.kind == DeleteChange then Delete else Insert)
    && op.position == c.position && op.content == c.content && op.length == c.length
    && op.noteId == ctx.noteId && op.fieldType == ctx.fieldType && op.clientId == ctx.clientId
    && op.author == ctx.author && op.timestamp == ctx.now
    && op.sequenceNumber == ctx.sequenceNumber
  }

  /**
   * Without replace changes the conversion is one record per change, in input order,
   * copying kind, position, content and length, all with the same counter value.
   */
  lemma {:induction false} PlainChangesOneToOne(changes: seq<TextChange>, ctx: EditContext)
    requires forall c :: c in changes ==> c.kind != ReplaceChange
    ensures |ToOperations(changes, ctx)| == |changes|
    ensures forall i :: 0 <= i < |changes| ==> CopiesChange(ToOperations(changes, ctx)[i], changes[i], ctx)
    decreases |changes|
  {
    if |changes| > 0 {
      var front := changes[..|changes| - 1];
      assert forall c :: c in front ==> c in changes;
      PlainChangesOneToOne(front, ctx);
      var ops := ToOperations(changes, ctx);
      assert ops == ToOperations(front, ctx) + [ChangeOperation(changes[|changes| - 1], ctx)];
      forall i | 0 <= i < |changes|
        ensures CopiesChange(ops[i], changes[i], ctx)
      {
        if i < |front| {
          assert ops[i] == ToOperations(front, ctx)[i] && changes[i] == front[i];
        }
      }
    }
  }

  /**
   * A replace change with deleted text `d` yields a delete of `|d|` characters with the
   * next counter value, carrying `d` as its content, in front of an insert with the
   * counter value itself.
   */
  lemma ReplaceLayout(c: TextChange, ctx: EditContext)
    requires c.kind == ReplaceChange && c.deletedContent.Some? && c.deletedContent.value != ""
    ensures var ops := ToOperations([c], ctx);
      && |ops| == 2
      && ops[0].kind == Delete && ops[0].position == c.position
      && ops[0].content == c.deletedContent && ops[0].length == Some(|c.deletedContent.value|)
      && ops[0].sequenceNumber == ctx.sequenceNumber + 1
      && ops[0].id == OperationId(ctx.clientId, ctx.sequenceNumber + 1, ctx.now)
      && ops[1].kind == Insert && ops[1].position == c.position
      && ops[1].content == c.content && ops[1].length == c.length
      && ops[1].sequenceNumber == ctx.sequenceNumber
  {
    assert [c][..0] == [];
  }

  /** A replace change without deleted text yields only the insert. */
  lemma ReplaceWithoutDeletedText(c: TextChange, ctx: EditContext)
    requires c.kind == ReplaceChange && !Truthy(c.deletedContent)
    ensures var ops := ToOperations([c], ctx);
      |ops| == 1 && ops[0].kind == Insert && ops[0].sequenceNumber == ctx.sequenceNumber
  {
    assert [c][..0] == [];
  }

  /** The records of the changes themselves, one per change, in input order. */
  function ChangeRecords(changes: seq<TextChange>, ctx: EditContext): (r: seq<Operation>)
    ensures |r| == |changes|
  {
    seq(|changes|, i requires 0 <= i < |changes| => ChangeOperation(changes[i], ctx))
  }

  /** The replacement deletes, the one for the latest change first. */
  function FrontDeletes(changes: seq<TextChange>, ctx: EditContext): seq<Operation>
    decreases |changes|
  {
    if |changes| == 0 then []
    else
      var last := changes[|changes| - 1];
      (if EmitsDelete(last) then [ReplaceDeleteOperation(last, ctx)] else [])
        + FrontDeletes(changes[..|changes| - 1], ctx)
  }

  /**
   * The whole array: because each delete is put in front with `unshift`, all replacement
   * deletes come first, latest change first, and then one record per change in input order.
   */
  lemma {:induction false} ToOperationsLayout(changes: seq<TextChange>, ctx: EditContext)
    ensures ToOperations(changes, ctx) == FrontDeletes(changes, ctx) + ChangeRecords(changes, ctx)
    decreases |changes|
  {
    if |changes| > 0 {
      var front := changes[..|changes| - 1];
      var last := changes[|changes| - 1];
      ToOperationsLayout(front, ctx);
      ChangeRecordsSnoc(changes, ctx);
      var a, b, x := FrontDeletes(front, ctx), ChangeRecords(front, ctx), ChangeOperation(last, ctx);
      var head := if EmitsDelete(last) then [ReplaceDeleteOperation(last, ctx)] else [];
      assert ToOperations(changes, ctx) == head + ((a + b) + [x]);
      assert FrontDeletes(changes, ctx) == head + a;
      SeqRegroup(head, a, b, [x]);
    }
  }

  lemma SeqRegroup(h: seq<Operation>, a: seq<Operation>, b: seq<Operation>, x: seq<Operation>)
    ensures h + ((a + b) + x) == (h + a) + (b + x)
  {
  }

  lemma ChangeRecordsSnoc(changes: seq<TextChange>, ctx: EditContext)
    requires |changes| > 0
    ensures ChangeRecords(changes, ctx)
      == ChangeRecords(changes[..|changes| - 1], ctx) + [ChangeOperation(changes[|changes| - 1], ctx)]
  {
    var front := changes[..|changes| - 1];
    var r, a := ChangeRecords(changes, ctx), ChangeRecords(front, ctx);
    var x := ChangeOperation(changes[|changes| - 1], ctx);
    forall i | 0 <= i < |front|
      ensures r[i] == a[i]
    {
      assert changes[i] == front[i];
    }
    assert r[|front|] == x;
    assert r == a + [x];
  }

}
