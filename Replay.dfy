/**
 * Rebuilding a field's text from its operations (`applyOperations`,
 * src/crdt/utils.ts:216-244): keep the field's operations, sort them, and replay them one
 * by one starting from the empty string, clamping every position to the current text.
 */
module Replay {
  import opened Wrappers
  import opened JsString
  import opened Types
  import opened OpOrder
  import TextDiff
  import opened OperationFactory

  /** `Math.max(0, Math.min(p, len))`. */
  function Clamp(p: int, len: nat): (r: nat)
    ensures r <= len
    ensures 0 <= p <= len ==> r == p
    ensures p < 0 ==> r == 0
    ensures p > len ==> r == len
  {
    if p < 0 then 0 else if p > len then len else p
  }

  /** One replay step. Operations with no text or a zero length, and retains, do nothing. */
  function ApplyOp(text: string, op: Operation): string {
    if op.kind == Insert && Truthy(op.content) then
      var pos := Clamp(op.position, |text|);
      text[..pos] + op.content.value + text[pos..]
    else if op.kind == Delete && TruthyNumber(op.length) then
      var pos := Clamp(op.position, |text|);
      var endPos := if pos + op.length.value <= |text| then pos + op.length.value else |text|;
      text[..pos] + SliceFrom(text, endPos)
    else text
  }

  /** Replaying a sequence of operations in order, from a given text. */
  function Replay(text: string, ops: seq<Operation>): string
    decreases |ops|
  {
    if |ops| == 0 then text else ApplyOp(Replay(text, ops[..|ops| - 1]), ops[|ops| - 1])
  }

  /** The operations of one field, in their original order. */
  function FieldOps(ops: seq<Operation>, f: FieldType): (r: seq<Operation>)
    ensures |r| <= |ops|
    decreases |ops|
  {
    if |ops| == 0 then []
    else FieldOps(ops[..|ops| - 1], f) + (if ops[|ops| - 1].fieldType == f then [ops[|ops| - 1]] else [])
  }

  /** The filter keeps exactly the operations of the field. */
  lemma {:induction false} FieldOpsMembers(ops: seq<Operation>, f: FieldType)
    ensures forall op :: op in FieldOps(ops, f) <==> op in ops && op.fieldType == f
    decreases |ops|
  {
    if |ops| > 0 {
      var front := ops[..|ops| - 1];
      FieldOpsMembers(front, f);
      assert ops == front + [ops[|ops| - 1]];
    }
  }

  /** The text `applyOperations(ops, f)` returns. */
  function Render(ops: seq<Operation>, f: FieldType): string {
    Replay("", SortOps(FieldOps(ops, f)))
  }

  /** `applyOperations`: filter to the field, sort, replay from the empty string. */
  method ApplyOperations(operations: seq<Operation>, fieldType: FieldType) returns (text: string)
    ensures text == Render(operations, fieldType)
  {
    var filtered := FilterField(operations, fieldType);
    var sortedOps := SortOps(filtered);
    text := ReplayFromEmpty(sortedOps);
  }

  /** The filter loop of `applyOperations`. */
  method FilterField(operations: seq<Operation>, fieldType: FieldType) returns (filtered: seq<Operation>)
    ensures filtered == FieldOps(operations, fieldType)
  {
    filtered := [];
    for k := 0 to |operations|
      invariant filtered == FieldOps(operations[..k], fieldType)
    {
      assert operations[..k + 1][..k] == operations[..k];
      if operations[k].fieldType == fieldType {
        filtered := filtered + [operations[k]];
      }
    }
    assert operations[..|operations|] == operations;
  }

  /** The replay loop of `applyOperations`. */
  method ReplayFromEmpty(sortedOps: seq<Operation>) returns (text: string)
    ensures text == Replay("", sortedOps)
  {
    text := "";
    for k := 0 to |sortedOps|
      invariant text == Replay("", sortedOps[..k])
    {
      assert sortedOps[..k + 1][..k] == sortedOps[..k];
      text := ApplyStep(text, sortedOps[k]);
    }
    assert sortedOps[..|sortedOps|] == sortedOps;
  }

  /** One iteration of the replay loop. */
  method ApplyStep(text: string, op: Operation) returns (r: string)
    ensures r == ApplyOp(text, op)
  {
    r := text;
    if op.kind == Insert && Truthy(op.content) {
      var pos := if op.position < 0 then 0 else if op.position > |text| then |text| else op.position;
      r := text[..pos] + op.content.value + text[pos..];
    } else if op.kind == Delete && TruthyNumber(op.length) {
      var pos := if op.position < 0 then 0 else if op.position > |text| then |text| else op.position;
      var endPos := if pos + op.length.value <= |text| then pos + op.length.value else |text|;
      r := text[..pos] + SliceFrom(text, endPos);
    }
  }

  /** An insert with text puts that text at the clamped position and keeps both sides. */
  lemma ApplyInsert(text: string, op: Operation)
    requires op.kind == Insert && op.content.Some? && op.content.value != ""
    ensures var r, c, pos := ApplyOp(text, op), op.content.value, Clamp(op.position, |text|);
      && |r| == |text| + |c|
      && r[..pos] == text[..pos] && r[pos..pos + |c|] == c && r[pos + |c|..] == text[pos..]
  {
    var r, c, pos := ApplyOp(text, op), op.content.value, Clamp(op.position, |text|);
    assert r == text[..pos] + c + text[pos..];
    assert r[..pos] == text[..pos];
    assert r[pos..pos + |c|] == c;
    assert r[pos + |c|..] == text[pos..];
  }

  /**
   * A delete with a positive length removes `min(length, |text| - pos)` characters at the
   * clamped position and keeps both sides.
   */
  lemma ApplyDelete(text: string, op: Operation)
    requires op.kind == Delete && op.length.Some? && op.length.value > 0
    ensures var r, pos := ApplyOp(text, op), Clamp(op.position, |text|);
      var removed := if op.length.value <= |text| - pos then op.length.value else |text| - pos;
      && |r| == |text| - removed
      && r == text[..pos] + text[pos + removed..]
  {
  }

  /**
   * A negative length makes the end of the deleted range fall before its start, so the
   * characters between the two are repeated and the text grows.
   */
  lemma ApplyNegativeDelete(text: string, op: Operation)
    requires op.kind == Delete && op.length.Some? && op.length.value < 0
    requires 0 <= op.position <= |text| && op.position + op.length.value >= 0
    ensures var r := ApplyOp(text, op);
      r == text[..op.position] + text[op.position + op.length.value..]
      && |r| == |text| - op.length.value
  {
  }

  /** Inserts without text, deletes without a length, and retains leave the text alone. */
  lemma ApplyNoOp(text: string, op: Operation)
    requires (op.kind == Insert && !Truthy(op.content))
      || (op.kind == Delete && !TruthyNumber(op.length)) || op.kind == Retain
    ensures ApplyOp(text, op) == text
  {
  }

  lemma {:induction false} ReplayAppend(text: string, a: seq<Operation>, b: seq<Operation>)
    ensures Replay(text, a + b) == Replay(Replay(text, a), b)
    decreases |b|
  {
    if |b| == 0 {
      assert a + b == a;
    } else {
      assert (a + b)[..|a + b| - 1] == a + b[..|b| - 1];
      ReplayAppend(text, a, b[..|b| - 1]);
    }
  }

  lemma {:induction false} FieldOpsAppend(a: seq<Operation>, b: seq<Operation>, f: FieldType)
    ensures FieldOps(a + b, f) == FieldOps(a, f) + FieldOps(b, f)
    decreases |b|
  {
    if |b| == 0 {
      assert a + b == a;
    } else {
      assert (a + b)[..|a + b| - 1] == a + b[..|b| - 1];
      FieldOpsAppend(a, b[..|b| - 1], f);
    }
  }

  lemma {:induction false} FieldOpsAllOfField(ops: seq<Operation>, f: FieldType)
    requires forall op :: op in ops ==> op.fieldType == f
    ensures FieldOps(ops, f) == ops
    decreases |ops|
  {
    if |ops| > 0 {
      assert ops == ops[..|ops| - 1] + [ops[|ops| - 1]];
      FieldOpsAllOfField(ops[..|ops| - 1], f);
    }
  }

  lemma {:induction false} FieldOpsNoneOfField(ops: seq<Operation>, f: FieldType)
    requires forall op :: op in ops ==> op.fieldType != f
    ensures FieldOps(ops, f) == []
    decreases |ops|
  {
    if |ops| > 0 {
      assert ops[|ops| - 1] in ops;
      FieldOpsNoneOfField(ops[..|ops| - 1], f);
    }
  }

  /** Operations on the other field do not change a field's text. */
  lemma RenderIgnoresOtherField(ops: seq<Operation>, extra: seq<Operation>, f: FieldType)
    requires forall op :: op in extra ==> op.fieldType != f
    ensures Render(ops + extra, f) == Render(ops, f)
  {
    FieldOpsAppend(ops, extra, f);
    FieldOpsNoneOfField(extra, f);
    assert FieldOps(ops, f) + [] == FieldOps(ops, f);
  }

  lemma DeleteEffect(text: string, op: Operation, p: nat, e: nat)
    requires op.kind == Delete && op.position == p && op.length == Some(e - p) && p < e <= |text|
    ensures ApplyOp(text, op) == text[..p] + text[e..]
  {
  }

  lemma InsertEffect(text: string, op: Operation, p: nat, c: string)
    requires op.kind == Insert && op.position == p && op.content == Some(c) && c != "" && p <= |text|
    ensures ApplyOp(text, op) == text[..p] + c + text[p..]
  {
  }

  lemma ReplayPair(text: string, ops: seq<Operation>)
    requires |ops| == 2
    ensures Replay(text, ops) == ApplyOp(ApplyOp(text, ops[0]), ops[1])
  {
    assert ops[..1][..0] == [] && ops[..1][0] == ops[0];
    assert Replay(text, ops[..1]) == ApplyOp(Replay(text, []), ops[0]);
    assert Replay(text, ops) == ApplyOp(Replay(text, ops[..1]), ops[1]);
  }

  /** The delete window of the old snapshot, then the insert window of the new one. */
  predicate Windows(oldText: string, newText: string, p: nat, oldEnd: nat, newEnd: nat) {
    && p <= oldEnd <= |oldText| && p <= newEnd <= |newText|
    && oldText[..p] == newText[..p] && oldText[oldEnd..] == newText[newEnd..]
  }

  predicate DeleteAt(op: Operation, p: nat, e: nat) {
    op.kind == Delete && op.position == p && op.length == Some(e - p)
  }

  predicate InsertAt(op: Operation, p: nat, c: string) {
    op.kind == Insert && op.position == p && op.content == Some(c) && c != ""
  }

  lemma ReplayDeleteThenInsert(oldText: string, newText: string, p: nat, oldEnd: nat, newEnd: nat, ops: seq<Operation>)
    requires Windows(oldText, newText, p, oldEnd, newEnd) && p < oldEnd
    requires |ops| == 2 && DeleteAt(ops[0], p, oldEnd) && InsertAt(ops[1], p, newText[p..newEnd])
    ensures Replay(oldText, ops) == newText
  {
    var middle := oldText[..p] + oldText[oldEnd..];
    assert middle[..p] == oldText[..p] && middle[p..] == oldText[oldEnd..];
    DeleteEffect(oldText, ops[0], p, oldEnd);
    InsertEffect(middle, ops[1], p, newText[p..newEnd]);
    ReplayPair(oldText, ops);
    TextDiff.WindowSplice(oldText, newText, p, oldEnd, newEnd);
  }

  lemma ReplayDeleteOnly(oldText: string, newText: string, p: nat, oldEnd: nat, ops: seq<Operation>)
    requires Windows(oldText, newText, p, oldEnd, p) && p < oldEnd
    requires |ops| == 1 && DeleteAt(ops[0], p, oldEnd)
    ensures Replay(oldText, ops) == newText
  {
    DeleteEffect(oldText, ops[0], p, oldEnd);
    assert ops[..0] == [];
    assert newText == newText[..p] + newText[p..];
  }

  lemma ReplayInsertOnly(oldText: string, newText: string, p: nat, newEnd: nat, ops: seq<Operation>)
    requires Windows(oldText, newText, p, p, newEnd)
    requires |ops| == 1 && InsertAt(ops[0], p, newText[p..newEnd])
    ensures Replay(oldText, ops) == newText
  {
    InsertEffect(oldText, ops[0], p, newText[p..newEnd]);
    assert ops[..0] == [];
    TextDiff.WindowSplice(oldText, newText, p, p, newEnd);
  }

  /** Operations copied one to one from changes of a window's shape replay that window. */
  lemma ReplayCopiedWindow(oldText: string, newText: string, p: nat, oldEnd: nat, newEnd: nat,
    cs: seq<TextChange>, ops: seq<Operation>, ctx: EditContext)
    requires Windows(oldText, newText, p, oldEnd, newEnd)
    requires TextDiff.WindowShape(cs, oldText, newText, p, oldEnd, newEnd)
    requires |ops| == |cs| && forall i :: 0 <= i < |cs| ==> CopiesChange(ops[i], cs[i], ctx)
    ensures Replay(oldText, ops) == newText
  {
    assert CopiesChange(ops[0], cs[0], ctx);
    if |cs| == 2 {
      assert CopiesChange(ops[1], cs[1], ctx);
      ReplayDeleteThenInsert(oldText, newText, p, oldEnd, newEnd, ops);
    } else if oldEnd > p {
      ReplayDeleteOnly(oldText, newText, p, oldEnd, ops);
    } else {
      ReplayInsertOnly(oldText, newText, p, newEnd, ops);
    }
  }

  /**
   * Replaying the operations made from the diff of two snapshots, onto the first snapshot,
   * gives the second.
   */
  lemma DiffOperationsReplay(oldText: string, newText: string, ctx: EditContext)
    ensures Replay(oldText, ToOperations(TextDiff.Diff(oldText, newText), ctx)) == newText
  {
    var cs := TextDiff.Diff(oldText, newText);
    var ops := ToOperations(cs, ctx);
    if oldText == newText {
      TextDiff.DiffEmptyIff(oldText, newText);
      assert ops == [];
    } else {
      var p, oldEnd, newEnd := TextDiff.CommonPrefix(oldText, newText),
        TextDiff.OldEnd(oldText, newText), TextDiff.NewEnd(oldText, newText);
      TextDiff.DiffWindows(oldText, newText);
      TextDiff.DiffShape(oldText, newText);
      PlainChangesOneToOne(cs, ctx);
      ReplayCopiedWindow(oldText, newText, p, oldEnd, newEnd, cs, ops, ctx);
    }
  }

  /** The operations of one edit all belong to its field, carry its clock reading, and are sorted. */
  lemma EditOperationsSorted(oldText: string, newText: string, ctx: EditContext)
    ensures var edit := ToOperations(TextDiff.Diff(oldText, newText), ctx);
      && (forall op :: op in edit ==> op.fieldType == ctx.fieldType && op.timestamp == ctx.now)
      && Sorted(edit)
  {
    var cs := TextDiff.Diff(oldText, newText);
    var edit := ToOperations(cs, ctx);
    OperationsStamped(cs, ctx);
    assert forall c :: c in cs ==> c.kind != ReplaceChange by {
      if oldText != newText {
        TextDiff.DiffShape(oldText, newText);
      } else {
        TextDiff.DiffEmptyIff(oldText, newText);
      }
    }
    PlainChangesOneToOne(cs, ctx);
    forall i, j | 0 <= i < j < |edit| ensures KeyLe(edit[i], edit[j]) {
      assert CopiesChange(edit[i], cs[i], ctx) && CopiesChange(edit[j], cs[j], ctx);
    }
  }

  /**
   * Operations of the field that are all older than a sorted batch of newer operations of
   * the field sort before that batch.
   */
  lemma RenderAppendNewer(log: seq<Operation>, edit: seq<Operation>, f: FieldType, now: int)
    requires forall op :: op in log && op.fieldType == f ==> op.timestamp < now
    requires forall op :: op in edit ==> op.fieldType == f && op.timestamp == now
    requires Sorted(edit)
    ensures Render(log + edit, f) == Replay(Render(log, f), edit)
  {
    var before := FieldOps(log, f);
    FieldOpsMembers(log, f);
    FieldOpsAppend(log, edit, f);
    FieldOpsAllOfField(edit, f);
    SortOpsAppend(before, edit);
    SortOpsOfSorted(edit);
    ReplayAppend("", SortOps(before), edit);
  }

  /**
   * A local edit keeps the log consistent with the text: when the field's log renders the
   * last-seen text and every earlier operation of the field is older than the edit's clock
   * reading, the log with the edit's operations appended renders the new text.
   */
  lemma LocalEditRendersNewText(log: seq<Operation>, oldText: string, newText: string, ctx: EditContext)
    requires Render(log, ctx.fieldType) == oldText
    requires forall op :: op in log && op.fieldType == ctx.fieldType ==> op.timestamp < ctx.now
    ensures Render(log + ToOperations(TextDiff.Diff(oldText, newText), ctx), ctx.fieldType) == newText
  {
    EditOperationsSorted(oldText, newText, ctx);
    RenderAppendNewer(log, ToOperations(TextDiff.Diff(oldText, newText), ctx), ctx.fieldType, ctx.now);
    DiffOperationsReplay(oldText, newText, ctx);
  }
}
