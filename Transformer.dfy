/**
 * Adjusting two concurrent operations against each other (`transformOperation`,
 * src/crdt/utils.ts:116-211). The source copies both records and assigns new positions
 * and lengths to the copies, so the model is a function from the two inputs to the pair
 * of adjusted copies and the conflict flag.
 */
module Transformer {
  import opened Wrappers
  import opened Types
  import StringOrder

  function Max(a: int, b: int): int { if a >= b then a else b }

  function Min(a: int, b: int): int { if a <= b then a else b }

  /** `position + (length || 0)`: the end of a delete's range. */
  function End(op: Operation): int {
    op.position + LengthOrZero(op)
  }

  /**
   * The tie-break at an equal insert position: `own` wins when its timestamp is smaller,
   * or equal with a smaller client id in the fixed string order.
   */
  predicate OwnFirst(own: Operation, other: Operation) {
    own.timestamp < other.timestamp
    || (own.timestamp == other.timestamp && StringOrder.Less(own.clientId, other.clientId))
  }

  /** Two records that agree on everything except position and length. */
  predicate SameExceptPlacement(a: Operation, b: Operation) {
    a == b.(position := a.position, length := a.length)
  }

  /** The source's handled pairs: both on one field, both inserts or deletes. */
  predicate Handled(own: Operation, other: Operation) {
    own.fieldType == other.fieldType && own.kind != Retain && other.kind != Retain
  }

  function Transform(own: Operation, other: Operation): (r: TransformResult)
    ensures SameExceptPlacement(r.ownOp, own) && SameExceptPlacement(r.otherOp, other)
    ensures !Handled(own, other) ==> r == TransformResult(own, other, false)
    ensures (r.ownOp.length != own.length || r.otherOp.length != other.length) ==>
      own.kind == Delete && other.kind == Delete && r.conflict
  {
    if own.fieldType != other.fieldType then TransformResult(own, other, false)
    else if own.kind == Insert && other.kind == Insert then
      var ownFirstPass := if own.position <= other.position then own
        else own.(position := own.position + ContentLength(other));
      var otherFirstPass := if own.position <= other.position
        then other.(position := other.position + ContentLength(own)) else other;
      if own.position == other.position then
        if OwnFirst(own, other) then
          TransformResult(ownFirstPass, other.(position := other.position + ContentLength(own)), true)
        else
          TransformResult(own.(position := own.position + ContentLength(other)), otherFirstPass, true)
      else TransformResult(ownFirstPass, otherFirstPass, false)
    else if own.kind == Delete && other.kind == Delete then
      if End(own) <= other.position then
        TransformResult(own, other.(position := other.position - LengthOrZero(own)), false)
      else if End(other) <= own.position then
        TransformResult(own.(position := own.position - LengthOrZero(other)), other, false)
      else
        var overlapStart := Max(own.position, other.position);
        var overlapEnd := Min(End(own), End(other));
        if overlapStart < overlapEnd then
          var overlapLength := overlapEnd - overlapStart;
          if own.position <= other.position then
            TransformResult(own,
              other.(position := own.position, length := Some(LengthOrZero(other) - overlapLength)), true)
          else
            TransformResult(
              own.(position := other.position, length := Some(LengthOrZero(own) - overlapLength)), other, true)
        else TransformResult(own, other, true)
    else if own.kind == Insert && other.kind == Delete then
      if own.position <= other.position then
        TransformResult(own, other.(position := other.position + ContentLength(own)), false)
      else if own.position >= End(other) then
        TransformResult(own.(position := own.position - LengthOrZero(other)), other, false)
      else TransformResult(own.(position := other.position), other, true)
    else if own.kind == Delete && other.kind == Insert then
      if other.position <= own.position then
        TransformResult(own.(position := own.position + ContentLength(other)), other, false)
      else if other.position >= End(own) then
        TransformResult(own, other.(position := other.position - LengthOrZero(own)), false)
      else TransformResult(own, other.(position := own.position), true)
    else TransformResult(own, other, false)
  }

  /** Whether the pair collides: same position for two inserts, overlapping ranges otherwise. */
  predicate Collide(own: Operation, other: Operation) {
    own.fieldType == other.fieldType &&
    match (own.kind, other.kind)
    case (Insert, Insert) => own.position == other.position
    case (Delete, Delete) => End(own) > other.position && End(other) > own.position
    case (Insert, Delete) => other.position < own.position < End(other)
    case (Delete, Insert) => own.position < other.position < End(own)
    case _ => false
  }

  /** The conflict flag is raised exactly for colliding pairs. */
  lemma ConflictIffCollide(own: Operation, other: Operation)
    ensures Transform(own, other).conflict <==> Collide(own, other)
  {
  }

  /** Inserts at distinct positions: the lower is kept, the higher moves right by the lower's text. */
  lemma InsertInsertDistinct(own: Operation, other: Operation)
    requires own.kind == Insert && other.kind == Insert && own.fieldType == other.fieldType
    requires own.position != other.position
    ensures var r := Transform(own, other);
      && !r.conflict
      && (own.position < other.position ==>
            r.ownOp == own && r.otherOp.position == other.position + ContentLength(own))
      && (other.position < own.position ==>
            r.otherOp == other && r.ownOp.position == own.position + ContentLength(other))
  {
  }

  /**
   * Inserts at one position conflict. When `own` is first by the tie-break it is kept and
   * `other` moves by `own`'s text; otherwise `own` moves by `other`'s text and `other`
   * keeps the shift by `own`'s text from the first comparison.
   */
  lemma InsertInsertTie(own: Operation, other: Operation)
    requires own.kind == Insert && other.kind == Insert && own.fieldType == other.fieldType
    requires own.position == other.position
    ensures var r := Transform(own, other);
      && r.conflict
      && (OwnFirst(own, other) ==>
            r.ownOp == own && r.otherOp.position == other.position + ContentLength(own))
      && (!OwnFirst(own, other) ==>
            r.ownOp.position == own.position + ContentLength(other)
            && r.otherOp.position == other.position + ContentLength(own))
  {
  }

  /** Deletes: a range wholly before the other pulls the other left by its length. */
  lemma DeleteDeleteDisjoint(own: Operation, other: Operation)
    requires own.kind == Delete && other.kind == Delete && own.fieldType == other.fieldType
    ensures var r := Transform(own, other);
      && (End(own) <= other.position ==>
            !r.conflict && r.ownOp == own && r.otherOp.position == other.position - LengthOrZero(own))
      && (End(own) > other.position && End(other) <= own.position ==>
            !r.conflict && r.otherOp == other && r.ownOp.position == own.position - LengthOrZero(other))
  {
  }

  /**
   * Overlapping deletes conflict; with a positive overlap the range starting later (or
   * `other` at an equal start) takes the earlier start and loses the overlap from its length.
   */
  lemma DeleteDeleteOverlap(own: Operation, other: Operation)
    requires own.kind == Delete && other.kind == Delete && own.fieldType == other.fieldType
    requires End(own) > other.position && End(other) > own.position
    ensures var r := Transform(own, other);
      var overlap := Min(End(own), End(other)) - Max(own.position, other.position);
      && r.conflict
      && (overlap > 0 && own.position <= other.position ==>
            r.ownOp == own && r.otherOp.position == own.position
            && r.otherOp.length == Some(LengthOrZero(other) - overlap))
      && (overlap > 0 && own.position > other.position ==>
            r.otherOp == other && r.ownOp.position == other.position
            && r.ownOp.length == Some(LengthOrZero(own) - overlap))
      && (overlap <= 0 ==> r.ownOp == own && r.otherOp == other)
  {
  }

  /** A position that is not negative and a length that is absent or not negative. */
  predicate NonNegative(op: Operation) {
    op.position >= 0 && (op.length.Some? ==> op.length.value >= 0)
  }

  /** Non-negative positions and lengths stay non-negative. */
  lemma TransformKeepsNonNegative(own: Operation, other: Operation)
    requires NonNegative(own) && NonNegative(other)
    ensures NonNegative(Transform(own, other).ownOp) && NonNegative(Transform(own, other).otherOp)
  {
  }

  /**
   * An insert against a delete: at or before the delete's start it pushes the delete right
   * by its text; at or after the delete's end it moves left by the delete's length; strictly
   * inside it conflicts and moves to the delete's start.
   */
  lemma InsertDeleteCases(ins: Operation, del: Operation)
    requires ins.kind == Insert && del.kind == Delete && ins.fieldType == del.fieldType
    ensures var r := Transform(ins, del);
      && (ins.position <= del.position ==>
            !r.conflict && r.ownOp == ins && r.otherOp.position == del.position + ContentLength(ins))
      && (del.position < ins.position && ins.position >= End(del) ==>
            !r.conflict && r.otherOp == del && r.ownOp.position == ins.position - LengthOrZero(del))
      && (del.position < ins.position < End(del) ==>
            r.conflict && r.otherOp == del && r.ownOp.position == del.position)
  {
  }

  /** The delete-against-insert branch is the exact mirror of the insert-against-delete one. */
  lemma InsertDeleteMirror(ins: Operation, del: Operation)
    requires ins.kind == Insert && del.kind == Delete
    ensures var r, m := Transform(ins, del), Transform(del, ins);
      r.ownOp == m.otherOp && r.otherOp == m.ownOp && r.conflict == m.conflict
  {
  }
}
