/**
 * Merging two operation logs (`mergeOperations`, src/crdt/utils.ts:249-285): sort the
 * concatenation, skip every operation whose id was already taken, and transform each new
 * one against the already accepted operations of its field before accepting it.
 */
module Merger {
  import opened Wrappers
  import opened Types
  import opened OpOrder
  import opened Transformer

  /** The set of ids in a log. */
  function Ids(s: seq<Operation>): set<string>
    decreases |s|
  {
    if |s| == 0 then {} else Ids(s[..|s| - 1]) + {s[|s| - 1].id}
  }

  /** The inner loop: transform `op` against each accepted operation of its field, in order. */
  function TransformAgainst(op: Operation, accepted: seq<Operation>): (r: Operation)
    ensures SameExceptPlacement(r, op)
    decreases |accepted|
  {
    if |accepted| == 0 then op
    else
      var t := TransformAgainst(op, accepted[..|accepted| - 1]);
      var existing := accepted[|accepted| - 1];
      if existing.fieldType == op.fieldType then Transform(t, existing).ownOp else t
  }

  /** The outer loop over the sorted operations. */
  function Accepted(s: seq<Operation>): seq<Operation>
    decreases |s|
  {
    if |s| == 0 then []
    else
      var accepted := Accepted(s[..|s| - 1]);
      var op := s[|s| - 1];
      if op.id in Ids(accepted) then accepted else accepted + [TransformAgainst(op, accepted)]
  }

  /** The log `mergeOperations(local, remote)` returns. */
  function Merge(local: seq<Operation>, remote: seq<Operation>): seq<Operation> {
    Accepted(SortOps(local + remote))
  }

  method MergeOperations(localOps: seq<Operation>, remoteOps: seq<Operation>)
    returns (mergedOps: seq<Operation>)
    ensures mergedOps == Merge(localOps, remoteOps)
  {
    mergedOps := [];
    var processedIds: set<string> := {};
    var allOps := SortOps(localOps + remoteOps);
    for k := 0 to |allOps|
      invariant mergedOps == Accepted(allOps[..k])
      invariant processedIds == Ids(mergedOps)
    {
      assert allOps[..k + 1][..k] == allOps[..k];
      var op := allOps[k];
      if op.id !in processedIds {
        var transformedOp := op;
        for m := 0 to |mergedOps|
          invariant transformedOp == TransformAgainst(op, mergedOps[..m])
        {
          assert mergedOps[..m + 1][..m] == mergedOps[..m];
          var existingOp := mergedOps[m];
          if existingOp.fieldType == op.fieldType {
            var result := Transform(transformedOp, existingOp);
            transformedOp := result.ownOp;
          }
        }
        assert mergedOps[..|mergedOps|] == mergedOps;
        mergedOps := mergedOps + [transformedOp];
        processedIds := processedIds + {op.id};
      }
    }
    assert allOps[..|allOps|] == allOps;
  }

  /** No earlier element of `s` has the id of `s[i]`. */
  predicate FirstOccurrence(s: seq<Operation>, i: nat)
    requires i < |s|
  {
    forall j :: 0 <= j < i ==> s[j].id != s[i].id
  }

  /** Reference definition: the elements of `s` whose id does not occur earlier, in order. */
  function Dedup(s: seq<Operation>): seq<Operation>
    decreases |s|
  {
    if |s| == 0 then []
    else Dedup(s[..|s| - 1]) + (if FirstOccurrence(s, |s| - 1) then [s[|s| - 1]] else [])
  }

  lemma {:induction false} IdsMembership(s: seq<Operation>, id: string)
    ensures id in Ids(s) <==> exists i :: 0 <= i < |s| && s[i].id == id
    decreases |s|
  {
    if |s| > 0 {
      var front := s[..|s| - 1];
      IdsMembership(front, id);
      if id in Ids(front) {
        var i :| 0 <= i < |front| && front[i].id == id;
        assert s[i].id == id;
      }
      if exists i :: 0 <= i < |s| && s[i].id == id {
        var i :| 0 <= i < |s| && s[i].id == id;
        if i < |front| {
          assert front[i].id == id;
        }
      }
    }
  }

  lemma FirstOccurrenceIffNew(s: seq<Operation>)
    requires |s| > 0
    ensures FirstOccurrence(s, |s| - 1) <==> s[|s| - 1].id !in Ids(s[..|s| - 1])
  {
    var front := s[..|s| - 1];
    IdsMembership(front, s[|s| - 1].id);
    if !FirstOccurrence(s, |s| - 1) {
      var j :| 0 <= j < |s| - 1 && s[j].id == s[|s| - 1].id;
      assert front[j].id == s[|s| - 1].id;
    }
  }

  /** Pointwise agreement except for placement. */
  predicate SamePlacedAs(a: seq<Operation>, b: seq<Operation>) {
    |a| == |b| && forall i :: 0 <= i < |a| ==> SameExceptPlacement(a[i], b[i])
  }

  lemma {:induction false} SamePlacedIds(a: seq<Operation>, b: seq<Operation>)
    requires SamePlacedAs(a, b)
    ensures Ids(a) == Ids(b)
    decreases |a|
  {
    if |a| > 0 {
      SamePlacedIds(a[..|a| - 1], b[..|b| - 1]);
    }
  }

  lemma IdsSnoc(t: seq<Operation>, x: Operation)
    ensures Ids(t + [x]) == Ids(t) + {x.id}
  {
    assert (t + [x])[..|t|] == t;
  }

  lemma {:induction false} DedupIds(s: seq<Operation>)
    ensures Ids(Dedup(s)) == Ids(s)
    decreases |s|
  {
    if |s| > 0 {
      var front := s[..|s| - 1];
      DedupIds(front);
      FirstOccurrenceIffNew(s);
      if FirstOccurrence(s, |s| - 1) {
        IdsSnoc(Dedup(front), s[|s| - 1]);
      } else {
        assert Dedup(s) == Dedup(front);
        assert Ids(s) == Ids(front) + {s[|s| - 1].id};
      }
    }
  }

  /**
   * The merged log is the first occurrence of every id, in sorted order, each adjusted
   * only in position and length.
   */
  lemma {:induction false} AcceptedIsDedup(s: seq<Operation>)
    ensures SamePlacedAs(Accepted(s), Dedup(s))
    decreases |s|
  {
    if |s| > 0 {
      var front := s[..|s| - 1];
      AcceptedIsDedup(front);
      SamePlacedIds(Accepted(front), Dedup(front));
      DedupIds(front);
      FirstOccurrenceIffNew(s);
    }
  }

  lemma {:induction false} DedupDistinct(s: seq<Operation>)
    ensures forall i, j :: 0 <= i < j < |Dedup(s)| ==> Dedup(s)[i].id != Dedup(s)[j].id
    decreases |s|
  {
    if |s| > 0 {
      var front := s[..|s| - 1];
      DedupDistinct(front);
      DedupIds(front);
      FirstOccurrenceIffNew(s);
      var d := Dedup(s);
      if FirstOccurrence(s, |s| - 1) {
        forall i | 0 <= i < |d| - 1 ensures d[i].id != d[|d| - 1].id {
          IdsMembership(Dedup(front), d[i].id);
          assert Dedup(front)[i] == d[i];
        }
      }
    }
  }

  lemma {:induction false} DedupCount(s: seq<Operation>)
    ensures |Dedup(s)| == |Ids(s)|
    decreases |s|
  {
    if |s| > 0 {
      var front := s[..|s| - 1];
      DedupCount(front);
      FirstOccurrenceIffNew(s);
      assert Ids(s) == Ids(front) + {s[|s| - 1].id};
      if !FirstOccurrence(s, |s| - 1) {
        assert Dedup(s) == Dedup(front);
        assert Ids(s) == Ids(front);
      } else {
        assert Dedup(s) == Dedup(front) + [s[|s| - 1]];
      }
    }
  }

  lemma {:induction false} IdsBound(s: seq<Operation>)
    ensures |Ids(s)| <= |s|
    decreases |s|
  {
    if |s| > 0 {
      IdsBound(s[..|s| - 1]);
    }
  }

  /** Members of Dedup(s) are members of s. */
  lemma {:induction false} DedupSubsequence(s: seq<Operation>)
    ensures forall x :: x in Dedup(s) ==> x in s
    decreases |s|
  {
    if |s| > 0 {
      DedupSubsequence(s[..|s| - 1]);
      forall x | x in Dedup(s[..|s| - 1]) ensures x in s {
        assert x in s[..|s| - 1];
      }
    }
  }

  lemma {:induction false} DedupSorted(s: seq<Operation>)
    requires Sorted(s)
    ensures Sorted(Dedup(s))
    decreases |s|
  {
    if |s| > 0 {
      var front := s[..|s| - 1];
      assert Sorted(front) by {
        forall i, j | 0 <= i < j < |front| ensures KeyLe(front[i], front[j]) {
          assert front[i] == s[i] && front[j] == s[j];
        }
      }
      DedupSorted(front);
      DedupSubsequence(front);
      var d := Dedup(s);
      forall i, j | 0 <= i < j < |d| ensures KeyLe(d[i], d[j]) {
        if j == |d| - 1 && FirstOccurrence(s, |s| - 1) {
          assert d[i] in Dedup(front);
          var k :| 0 <= k < |front| && front[k] == d[i];
          assert s[k] == d[i];
        } else {
          assert d[i] == Dedup(front)[i] && d[j] == Dedup(front)[j];
        }
      }
    }
  }

  /** The sort key does not involve position or length. */
  lemma SortedSamePlaced(a: seq<Operation>, b: seq<Operation>)
    requires SamePlacedAs(a, b) && Sorted(b)
    ensures Sorted(a)
  {
    forall i, j | 0 <= i < j < |a| ensures KeyLe(a[i], a[j]) {
      assert SameExceptPlacement(a[i], b[i]) && SameExceptPlacement(a[j], b[j]);
      assert KeyLe(b[i], b[j]);
    }
  }

  lemma IdsAppend(a: seq<Operation>, b: seq<Operation>)
    ensures Ids(a + b) == Ids(a) + Ids(b)
  {
    forall id | true ensures id in Ids(a + b) <==> id in Ids(a) + Ids(b) {
      IdsMembership(a + b, id);
      IdsMembership(a, id);
      IdsMembership(b, id);
      if id in Ids(a) {
        var i :| 0 <= i < |a| && a[i].id == id;
        assert (a + b)[i].id == id;
      }
      if id in Ids(b) {
        var i :| 0 <= i < |b| && b[i].id == id;
        assert (a + b)[|a| + i].id == id;
      }
    }
  }

  lemma IdsOfPermutation(a: seq<Operation>, b: seq<Operation>)
    requires multiset(a) == multiset(b)
    ensures Ids(a) == Ids(b)
  {
    forall id | true ensures id in Ids(a) <==> id in Ids(b) {
      IdsMembership(a, id);
      IdsMembership(b, id);
      if id in Ids(a) {
        var i :| 0 <= i < |a| && a[i].id == id;
        assert a[i] in multiset(b);
      }
      if id in Ids(b) {
        var i :| 0 <= i < |b| && b[i].id == id;
        assert b[i] in multiset(a);
      }
    }
  }

  /**
   * The merged log: its ids are pairwise distinct and are exactly the ids of the two
   * inputs; each entry agrees, except in position and length, with the first operation of
   * its id in sorted order; it is sorted; and it has one entry per distinct id, so at most
   * `|local| + |remote|`.
   */
  lemma MergeProperties(local: seq<Operation>, remote: seq<Operation>)
    ensures var m, sorted := Merge(local, remote), SortOps(local + remote);
      && SamePlacedAs(m, Dedup(sorted))
      && (forall i, j :: 0 <= i < j < |m| ==> m[i].id != m[j].id)
      && Ids(m) == Ids(local) + Ids(remote)
      && Sorted(m)
      && |m| == |Ids(local + remote)| <= |local| + |remote|
  {
    var sorted := SortOps(local + remote);
    var m := Accepted(sorted);
    AcceptedIsDedup(sorted);
    DedupDistinct(sorted);
    forall i, j | 0 <= i < j < |m| ensures m[i].id != m[j].id {
      assert SameExceptPlacement(m[i], Dedup(sorted)[i]) && SameExceptPlacement(m[j], Dedup(sorted)[j]);
    }
    SortOpsCorrect(local + remote);
    SamePlacedIds(m, Dedup(sorted));
    DedupIds(sorted);
    IdsOfPermutation(sorted, local + remote);
    IdsAppend(local, remote);
    DedupSorted(sorted);
    SortedSamePlaced(m, Dedup(sorted));
    DedupCount(sorted);
    IdsBound(local + remote);
  }

  lemma {:induction false} AcceptedHead(s: seq<Operation>)
    requires |s| > 0
    ensures |Accepted(s)| > 0 && Accepted(s)[0] == s[0]
    decreases |s|
  {
    if |s| > 1 {
      AcceptedHead(s[..|s| - 1]);
    } else {
      assert s[..0] == [];
    }
  }

  /** The first operation in sorted order is accepted as it is. */
  lemma MergeHeadUntransformed(local: seq<Operation>, remote: seq<Operation>)
    requires |local + remote| > 0
    ensures Merge(local, remote)[0] == SortOps(local + remote)[0]
  {
    SortOpsLength(local + remote);
    AcceptedHead(SortOps(local + remote));
  }

  /** Two operations with different ids both survive the merge. */
  lemma MergeTwoDistinct(a: Operation, b: Operation)
    requires a.id != b.id
    ensures |Merge([a], [b])| == 2
  {
    MergeProperties([a], [b]);
    assert [a] + [b] == [a, b];
    assert Ids([a, b]) == {a.id, b.id} by {
      assert [a, b][..1] == [a];
      assert Ids([a]) == {a.id} by { assert [a][..0] == []; }
    }
  }
}
