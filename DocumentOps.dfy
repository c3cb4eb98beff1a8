/**
 * Document construction, operation validation and document statistics
 * (`createCRDTDocument`, `validateOperation`, `getDocumentStats`,
 * src/crdt/utils.ts:290-340).
 */
module DocumentOps {
  import opened Wrappers
  import opened JsString
  import opened Types
  import opened Replay

  /** A fresh document: no operations, the given text, version 0, the given clock reading. */
  function CreateDocument(initialText: string, now: int): Document {
    Document([], initialText, 0, now)
  }

  /**
   * A fresh document's log renders as the empty string whatever text it was created with,
   * so its cached text and its log disagree unless that text is empty.
   */
  lemma CreatedDocumentRendersEmpty(initialText: string, now: int, f: FieldType)
    ensures var d := CreateDocument(initialText, now);
      d.operations == [] && d.version == 0 && d.currentText == initialText
      && Render(d.operations, f) == ""
      && (Render(d.operations, f) == d.currentText <==> initialText == "")
  {
  }

  /**
   * The checks of `validateOperation`. A delete without a length fails its `length > 0`
   * comparison; a retain is never valid.
   */
  predicate ValidateOperation(op: Operation, currentText: string) {
    match op.kind
    case Insert => 0 <= op.position <= |currentText| && Truthy(op.content)
    case Delete =>
      && op.length.Some?
      && 0 <= op.position < |currentText|
      && op.length.value > 0
      && op.position + op.length.value <= |currentText|
    case Retain => false
  }

  /**
   * A valid operation replays without clamping: an insert adds its text exactly at its
   * position, a delete removes exactly `length` characters from its position.
   */
  lemma ValidOperationAppliesExactly(op: Operation, text: string)
    requires ValidateOperation(op, text)
    ensures op.kind == Insert ==>
      ApplyOp(text, op) == text[..op.position] + op.content.value + text[op.position..]
      && |ApplyOp(text, op)| == |text| + |op.content.value|
    ensures op.kind == Delete ==>
      ApplyOp(text, op) == text[..op.position] + text[op.position + op.length.value..]
      && |ApplyOp(text, op)| == |text| - op.length.value
    ensures op.kind != Retain
  {
  }

  /** A delete validates only with a present, positive length inside the text. */
  lemma ValidDeleteNeedsLength(op: Operation, text: string)
    requires op.kind == Delete && ValidateOperation(op, text)
    ensures op.length.Some? && 0 < op.length.value <= |text| - op.position && op.position < |text|
  {
  }

  datatype Stats = Stats(totalOperations: nat, insertions: nat, deletions: nat, textLength: nat)

  /** The number of operations of one kind. */
  function CountKind(ops: seq<Operation>, k: OpKind): nat
    decreases |ops|
  {
    if |ops| == 0 then 0
    else CountKind(ops[..|ops| - 1], k) + (if ops[|ops| - 1].kind == k then 1 else 0)
  }

  method GetDocumentStats(doc: Document) returns (stats: Stats)
    ensures stats == Stats(|doc.operations|, CountKind(doc.operations, Insert),
      CountKind(doc.operations, Delete), |doc.currentText|)
  {
    var insertions, deletions := 0, 0;
    var ops := doc.operations;
    for k := 0 to |ops|
      invariant insertions == CountKind(ops[..k], Insert)
      invariant deletions == CountKind(ops[..k], Delete)
    {
      assert ops[..k + 1][..k] == ops[..k];
      if ops[k].kind == Insert {
        insertions := insertions + 1;
      } else if ops[k].kind == Delete {
        deletions := deletions + 1;
      }
    }
    assert ops[..|ops|] == ops;
    stats := Stats(|ops|, insertions, deletions, |doc.currentText|);
  }

  /** Every operation is counted under exactly one kind. */
  lemma {:induction false} CountsPartition(ops: seq<Operation>)
    ensures CountKind(ops, Insert) + CountKind(ops, Delete) + CountKind(ops, Retain) == |ops|
    decreases |ops|
  {
    if |ops| > 0 {
      CountsPartition(ops[..|ops| - 1]);
    }
  }

  /** Counting over a concatenation adds the counts of the parts. */
  lemma {:induction false} CountKindAppend(a: seq<Operation>, b: seq<Operation>, k: OpKind)
    ensures CountKind(a + b, k) == CountKind(a, k) + CountKind(b, k)
    decreases |b|
  {
    if |b| == 0 {
      assert a + b == a;
    } else {
      assert (a + b)[..|a + b| - 1] == a + b[..|b| - 1];
      CountKindAppend(a, b[..|b| - 1], k);
    }
  }
}
