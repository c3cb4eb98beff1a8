/**
 * The scenarios of the repository's own test file (src/crdt/test.ts), stated as lemmas
 * about the model. Where a scenario's printed expectation differs from what the code
 * computes, the lemma states what the code computes. The last lemma shows one
 * consequence of the id scheme on a small edit.
 */
module SourceExamples {
  import opened Wrappers
  import opened Types
  import opened OpOrder
  import opened Transformer
  import opened Replay
  import opened DocumentOps
  import opened OperationFactory
  import TextDiff
  import Merger

  /** An insert on the body of `note1`, in the shape the tests write them. */
  function BodyInsert(id: string, position: int, content: string, timestamp: int, clientId: string): Operation {
    Operation(id, Insert, position, Some(content), None, timestamp, "user", "note1", Body, clientId, 1)
  }

  /** A delete on the body of `note1`. */
  function BodyDelete(id: string, position: int, length: int, timestamp: int, clientId: string): Operation {
    Operation(id, Delete, position, None, Some(length), timestamp, "user", "note1", Body, clientId, 1)
  }

  /**
   * Test 1 and 2: inserting a word is one insert change and one operation, not the delete
   * and insert the test expects.
   */
  lemma DiffOfInsertedWordIsOneOperation(ctx: EditContext)
    ensures var cs := TextDiff.Diff("Hello world", "Hello beautiful world");
      && |cs| == 1 && cs[0].kind == InsertChange
      && |ToOperations(cs, ctx)| == 1 && ToOperations(cs, ctx)[0].kind == Insert
  {
    TextDiff.DiffInsertsWord();
    var cs := TextDiff.Diff("Hello world", "Hello beautiful world");
    OperationCount(cs, ctx);
    assert cs[..0] == [];
    assert DeleteCount(cs) == 0;
  }

  /** Test 3: two inserts at the same position are reported as a conflict. */
  lemma SamePositionInsertsConflict(now: int)
    ensures Transform(BodyInsert("op1", 5, "beautiful ", now, "client1"),
      BodyInsert("op2", 5, "amazing ", now + 1, "client2")).conflict
  {
  }

  /** A single operation of the field is rendered by replaying it on its own. */
  lemma RenderSingle(op: Operation, f: FieldType)
    requires op.fieldType == f
    ensures Render([op], f) == ApplyOp("", op)
  {
    assert [op][..0] == [];
    assert FieldOps([op], f) == [op];
    assert SortOps([op]) == [op];
    assert Replay.Replay("", [op]) == ApplyOp("", op);
  }

  /**
   * Test 4: the document created before the call plays no part; replay starts from the
   * empty text, so the result is the inserted word alone, not "Hello beautiful world".
   */
  lemma ReplayStartsFromEmpty(now: int)
    ensures Render([BodyInsert("op1", 6, "beautiful ", now, "client1")], Body) == "beautiful "
  {
    RenderSingle(BodyInsert("op1", 6, "beautiful ", now, "client1"), Body);
  }

  /** Two operations of the field whose keys are already in order are replayed in that order. */
  lemma RenderPair(a: Operation, b: Operation, f: FieldType)
    requires a.fieldType == f && b.fieldType == f && KeyLe(a, b)
    ensures Render([a, b], f) == ApplyOp(ApplyOp("", a), b)
  {
    assert [a, b][..1] == [a];
    assert [a][..0] == [];
    assert FieldOps([a], f) == [a];
    assert FieldOps([a, b], f) == [a, b];
    assert [a, b][1..] == [b];
    assert SortOps([b]) == [b];
    assert SortOps([a, b]) == [a, b];
    assert Replay.Replay("", [a]) == ApplyOp("", a);
  }

  /**
   * Test 6: an insert of "very " at 4 and a delete of 6 characters at 10, replayed from the
   * empty text: the delete is clamped to the end of "very " and removes nothing.
   */
  lemma ConcurrentEditFromEmpty(now: int)
    ensures Render([BodyInsert("user1-1", 4, "very ", now, "client1"),
      BodyDelete("user2-1", 10, 6, now + 5, "client2")], Body) == "very "
  {
    var a, b := BodyInsert("user1-1", 4, "very ", now, "client1"), BodyDelete("user2-1", 10, 6, now + 5, "client2");
    RenderPair(a, b, Body);
    assert ApplyOp("", a) == "very ";
  }

  /** The two inserts of the collaborative-editing scenario. */
  function UserA(): Operation { BodyInsert("userA-1", 6, "beautiful ", 1000, "clientA") }

  function UserB(): Operation { BodyInsert("userB-1", 6, "amazing ", 1005, "clientB") }

  /**
   * The collaborative-editing scenario: the earlier insert keeps its place, the later one
   * moves past it, the pair is flagged as a conflict, and the two replayed from the empty
   * text give "beautiful amazing " (the words in timestamp order, without the "Hello
   * world" the scenario prints around them).
   */
  lemma CollaborativeInserts()
    ensures var t := Transform(UserA(), UserB());
      && t.conflict
      && t.ownOp == UserA() && t.otherOp == UserB().(position := 16)
      && Render([t.ownOp, t.otherOp], Body) == "beautiful amazing "
  {
    var t := Transform(UserA(), UserB());
    assert t.ownOp == UserA() && t.otherOp == UserB().(position := 16);
    RenderPair(t.ownOp, t.otherOp, Body);
    assert ApplyOp("", t.ownOp) == "beautiful ";
  }

  /** Test 7: inserting "Hello" into "test" is valid at position 0 and invalid at 100. */
  lemma ValidationExamples()
    ensures ValidateOperation(BodyInsert("valid", 0, "Hello", 0, "client"), "test")
    ensures !ValidateOperation(BodyInsert("invalid", 100, "Hello", 0, "client"), "test")
  {
  }

  /** Replacing one character gives a delete and an insert with the same counter, hence the same id. */
  lemma ReplacedCharacterOperations(ctx: EditContext)
    ensures var ops := ToOperations(TextDiff.Diff("abc", "axc"), ctx);
      |ops| == 2 && ops[0].kind == Delete && ops[1].kind == Insert && ops[0].id == ops[1].id
  {
    var a, b := "abc", "axc";
    TextDiff.PrefixUnique(a, b, 1);
    TextDiff.SuffixUnique(a, b, 1, 1);
    TextDiff.DiffUnfold(a, b, 1, 2, 2);
    assert a[1..2] == "b" && b[1..2] == "x";
    var cs := TextDiff.Diff(a, b);
    assert cs == [TextDiff.DeleteChangeAt(1, "b"), TextDiff.InsertChangeAt(1, "x")];
    assert cs[..1] == [cs[0]] && cs[..1][..0] == [];
    assert ToOperations(cs[..1], ctx) == [ChangeOperation(cs[0], ctx)];
    assert ToOperations(cs, ctx) == [ChangeOperation(cs[0], ctx), ChangeOperation(cs[1], ctx)];
  }

  /** Merging a log of two records that share an id keeps one record. */
  lemma SameIdPairMergesToOne(x: Operation, y: Operation)
    requires x.id == y.id
    ensures |Merger.Merge([x, y], [])| == 1
  {
    var s := SortOps([x, y] + []);
    assert [x, y] + [] == [x, y];
    SortOpsLength([x, y]);
    SortOpsMembers([x, y]);
    assert s[0] in [x, y] && s[1] in [x, y];
    assert s[..1] == [s[0]] && s[..1][..0] == [];
    assert |s| == 2 && s[..|s| - 1] == s[..1] && s[..1][..|s[..1]| - 1] == [];
    assert Merger.Accepted([]) == [];
    var first := Merger.Accepted(s[..1]);
    assert first == [Merger.TransformAgainst(s[0], [])];
    assert first[..0] == [] && first[0].id == s[0].id;
    assert Merger.Ids(first) == {s[0].id};
    assert Merger.Accepted(s) == first;
  }

  /**
   * The id scheme in use: the two records of a replaced character collide on their id, so
   * merging that log with nothing keeps only one of them.
   */
  lemma ReplacedCharacterMergesToOne(ctx: EditContext)
    ensures |Merger.Merge(ToOperations(TextDiff.Diff("abc", "axc"), ctx), [])| == 1
  {
    ReplacedCharacterOperations(ctx);
    var ops := ToOperations(TextDiff.Diff("abc", "axc"), ctx);
    assert ops == [ops[0], ops[1]];
    SameIdPairMergesToOne(ops[0], ops[1]);
  }
}
