/**
 * The pending-operations map of the editing state (`CRDTState.pendingOperations`,
 * src/crdt/types.ts, used in src/crdt/useCRDT.ts:159-162, 219-222, 302-333). A JavaScript
 * `Map` iterates in insertion order and `set` on an existing key keeps its place, so the
 * map is an association list with distinct keys.
 */
module PendingMap {
  import opened Wrappers
  import opened Types

  datatype PendingEntry = PendingEntry(noteId: string, operations: seq<Operation>)

  predicate DistinctKeys(p: seq<PendingEntry>) {
    forall i, j :: 0 <= i < j < |p| ==> p[i].noteId != p[j].noteId
  }

  function KeySet(p: seq<PendingEntry>): set<string> {
    set e | e in p :: e.noteId
  }

  lemma NotInKeySet(t: seq<PendingEntry>, key: string)
    requires forall i :: 0 <= i < |t| ==> t[i].noteId != key
    ensures key !in KeySet(t)
  {
    forall e | e in t ensures e.noteId != key {
      var i :| 0 <= i < |t| && t[i] == e;
    }
  }

  /** `map.get(key)`. */
  function Lookup(p: seq<PendingEntry>, key: string): Option<seq<Operation>>
    decreases |p|
  {
    if |p| == 0 then None
    else if p[0].noteId == key then Some(p[0].operations)
    else Lookup(p[1..], key)
  }

  /** `map.set(key, ops)`: replace in place, or append a new key at the end. */
  function SetEntry(p: seq<PendingEntry>, key: string, ops: seq<Operation>): seq<PendingEntry>
    decreases |p|
  {
    if |p| == 0 then [PendingEntry(key, ops)]
    else if p[0].noteId == key then [PendingEntry(key, ops)] + p[1..]
    else [p[0]] + SetEntry(p[1..], key, ops)
  }

  /** `map.delete(key)`. */
  function DeleteEntry(p: seq<PendingEntry>, key: string): seq<PendingEntry>
    decreases |p|
  {
    if |p| == 0 then []
    else if p[0].noteId == key then p[1..]
    else [p[0]] + DeleteEntry(p[1..], key)
  }

  lemma {:induction false} LookupMissing(p: seq<PendingEntry>, key: string)
    ensures Lookup(p, key) == None <==> key !in KeySet(p)
    decreases |p|
  {
    if |p| > 0 {
      LookupMissing(p[1..], key);
      assert p == [p[0]] + p[1..];
      assert KeySet(p) == {p[0].noteId} + KeySet(p[1..]);
    }
  }

  lemma {:induction false} SetEntryKeys(p: seq<PendingEntry>, key: string, ops: seq<Operation>)
    ensures KeySet(SetEntry(p, key, ops)) == KeySet(p) + {key}
    decreases |p|
  {
    if |p| > 0 {
      assert p == [p[0]] + p[1..];
      assert KeySet(p) == {p[0].noteId} + KeySet(p[1..]);
      if p[0].noteId != key {
        SetEntryKeys(p[1..], key, ops);
        assert KeySet(SetEntry(p, key, ops)) == {p[0].noteId} + KeySet(SetEntry(p[1..], key, ops));
      } else {
        assert KeySet(SetEntry(p, key, ops)) == {key} + KeySet(p[1..]);
      }
    }
  }

  /**
   * After `set`, the key holds the new list, every other key keeps its list, and the keys
   * stay distinct.
   */
  lemma {:induction false} SetEntryLookup(p: seq<PendingEntry>, key: string, ops: seq<Operation>, other: string)
    requires DistinctKeys(p)
    ensures DistinctKeys(SetEntry(p, key, ops))
    ensures Lookup(SetEntry(p, key, ops), key) == Some(ops)
    ensures other != key ==> Lookup(SetEntry(p, key, ops), other) == Lookup(p, other)
    decreases |p|
  {
    if |p| > 0 {
      assert DistinctKeys(p[1..]) by {
        forall i, j | 0 <= i < j < |p[1..]| ensures p[1..][i].noteId != p[1..][j].noteId {
          assert p[1..][i] == p[i + 1] && p[1..][j] == p[j + 1];
        }
      }
      assert p[0].noteId !in KeySet(p[1..]) by {
        forall i | 0 <= i < |p[1..]| ensures p[1..][i].noteId != p[0].noteId {
          assert p[1..][i] == p[i + 1];
        }
        NotInKeySet(p[1..], p[0].noteId);
      }
      var r := SetEntry(p, key, ops);
      if p[0].noteId == key {
        forall i, j | 0 <= i < j < |r| ensures r[i].noteId != r[j].noteId {
          if i == 0 {
            assert r[j] == p[j];
          } else {
            assert r[i] == p[i] && r[j] == p[j];
          }
        }
      } else {
        SetEntryLookup(p[1..], key, ops, other);
        SetEntryKeys(p[1..], key, ops);
        var tail := SetEntry(p[1..], key, ops);
        assert r == [p[0]] + tail;
        forall i, j | 0 <= i < j < |r| ensures r[i].noteId != r[j].noteId {
          if i == 0 {
            assert r[j] == tail[j - 1];
            assert r[j] in tail;
            assert r[j].noteId in KeySet(tail);
          } else {
            assert r[i] == tail[i - 1] && r[j] == tail[j - 1];
          }
        }
      }
    }
  }

  /** Membership of a key after `delete`. */
  lemma {:induction false} DeleteEntryKeys(p: seq<PendingEntry>, key: string)
    requires DistinctKeys(p)
    ensures KeySet(DeleteEntry(p, key)) == KeySet(p) - {key}
    ensures forall x :: x in DeleteEntry(p, key) ==> x in p
    decreases |p|
  {
    if |p| > 0 {
      assert DistinctKeys(p[1..]) by {
        forall i, j | 0 <= i < j < |p[1..]| ensures p[1..][i].noteId != p[1..][j].noteId {
          assert p[1..][i] == p[i + 1] && p[1..][j] == p[j + 1];
        }
      }
      assert p == [p[0]] + p[1..];
      assert KeySet(p) == {p[0].noteId} + KeySet(p[1..]);
      if p[0].noteId == key {
        assert key !in KeySet(p[1..]) by {
          forall i | 0 <= i < |p[1..]| ensures p[1..][i].noteId != key {
            assert p[1..][i] == p[i + 1];
          }
          NotInKeySet(p[1..], key);
        }
      } else {
        DeleteEntryKeys(p[1..], key);
        assert KeySet(DeleteEntry(p, key)) == {p[0].noteId} + KeySet(DeleteEntry(p[1..], key));
      }
    }
  }

  /** Setting or deleting the key of an entry whose key occurs nowhere else touches only it. */
  lemma {:induction false} SetEntryAt(a: seq<PendingEntry>, e: PendingEntry, rest: seq<PendingEntry>, ops: seq<Operation>)
    requires e.noteId !in KeySet(a)
    ensures SetEntry(a + [e] + rest, e.noteId, ops) == a + [PendingEntry(e.noteId, ops)] + rest
    ensures DeleteEntry(a + [e] + rest, e.noteId) == a + rest
    decreases |a|
  {
    if |a| == 0 {
      assert a + [e] + rest == [e] + rest;
      assert ([e] + rest)[1..] == rest;
    } else {
      assert a[0] in a;
      assert (a + [e] + rest)[0] == a[0];
      assert (a + [e] + rest)[1..] == a[1..] + [e] + rest;
      assert KeySet(a[1..]) <= KeySet(a) by {
        forall x | x in KeySet(a[1..]) ensures x in KeySet(a) {
          var y :| y in a[1..] && y.noteId == x;
          assert y in a;
        }
      }
      SetEntryAt(a[1..], e, rest, ops);
      assert a + [PendingEntry(e.noteId, ops)] + rest == [a[0]] + (a[1..] + [PendingEntry(e.noteId, ops)] + rest);
      assert a + rest == [a[0]] + (a[1..] + rest);
    }
  }

  /** `ops.filter(op => !ids.includes(op.id))`. */
  function WithoutIds(ops: seq<Operation>, ids: seq<string>): (r: seq<Operation>)
    decreases |ops|
  {
    if |ops| == 0 then []
    else WithoutIds(ops[..|ops| - 1], ids) + (if ops[|ops| - 1].id in ids then [] else [ops[|ops| - 1]])
  }

  /** The filter keeps exactly the operations whose id is not listed. */
  lemma {:induction false} WithoutIdsMembers(ops: seq<Operation>, ids: seq<string>)
    ensures forall op :: op in WithoutIds(ops, ids) <==> op in ops && op.id !in ids
    decreases |ops|
  {
    if |ops| > 0 {
      var front := ops[..|ops| - 1];
      WithoutIdsMembers(front, ids);
      assert ops == front + [ops[|ops| - 1]];
    }
  }

  /**
   * The map after acknowledging `ids`: each key keeps its place and the rest of its list,
   * and keys whose list becomes empty are dropped.
   */
  function AckEntries(p: seq<PendingEntry>, ids: seq<string>): (r: seq<PendingEntry>)
    ensures |r| <= |p|
    decreases |p|
  {
    if |p| == 0 then []
    else
      var e := p[|p| - 1];
      var filtered := WithoutIds(e.operations, ids);
      AckEntries(p[..|p| - 1], ids) + (if |filtered| == 0 then [] else [PendingEntry(e.noteId, filtered)])
  }

  lemma {:induction false} AckEntriesKeys(p: seq<PendingEntry>, ids: seq<string>)
    ensures KeySet(AckEntries(p, ids)) <= KeySet(p)
    decreases |p|
  {
    if |p| > 0 {
      var front := p[..|p| - 1];
      AckEntriesKeys(front, ids);
      assert p == front + [p[|p| - 1]];
      forall x | x in KeySet(AckEntries(p, ids)) ensures x in KeySet(p) {
        var y :| y in AckEntries(p, ids) && y.noteId == x;
        if y in AckEntries(front, ids) {
          assert x in KeySet(front);
          var z :| z in front && z.noteId == x;
          assert z in p;
        } else {
          assert x == p[|p| - 1].noteId;
        }
      }
    }
  }

  /** An entry's key is not among the keys the walk has left behind it. */
  lemma AckEntriesFresh(p: seq<PendingEntry>, j: nat, ids: seq<string>)
    requires DistinctKeys(p) && j < |p|
    ensures p[j].noteId !in KeySet(AckEntries(p[..j], ids))
  {
    AckEntriesKeys(p[..j], ids);
    forall i | 0 <= i < |p[..j]| ensures p[..j][i].noteId != p[j].noteId {
      assert p[..j][i] == p[i];
    }
    NotInKeySet(p[..j], p[j].noteId);
  }

  /**
   * One step of the in-order walk: with the entries before `j` already acknowledged,
   * acknowledging entry `j` in place yields the walk up to `j + 1`.
   */
  lemma AckStep(p: seq<PendingEntry>, j: nat, ids: seq<string>)
    requires DistinctKeys(p) && j < |p|
    ensures var done, key, filtered := AckEntries(p[..j], ids), p[j].noteId, WithoutIds(p[j].operations, ids);
      && (|filtered| == 0 ==> DeleteEntry(done + p[j..], key) == AckEntries(p[..j + 1], ids) + p[j + 1..])
      && (|filtered| > 0 ==> SetEntry(done + p[j..], key, filtered) == AckEntries(p[..j + 1], ids) + p[j + 1..])
  {
    var done, e, filtered := AckEntries(p[..j], ids), p[j], WithoutIds(p[j].operations, ids);
    AckEntriesFresh(p, j, ids);
    assert done + p[j..] == done + [e] + p[j + 1..];
    SetEntryAt(done, e, p[j + 1..], filtered);
    assert p[..j + 1][..j] == p[..j];
    assert AckEntries(p[..j + 1], ids) == done + (if |filtered| == 0 then [] else [PendingEntry(e.noteId, filtered)]);
  }

  /**
   * What acknowledging does to one key: a key holds its old list without the acknowledged
   * ids, or is absent when that list is empty or the key was absent.
   */
  lemma {:induction false} AckEntriesLookup(p: seq<PendingEntry>, ids: seq<string>, key: string)
    requires DistinctKeys(p)
    ensures DistinctKeys(AckEntries(p, ids))
    ensures Lookup(AckEntries(p, ids), key) ==
      match Lookup(p, key)
      case None => None
      case Some(ops) => if |WithoutIds(ops, ids)| == 0 then None else Some(WithoutIds(ops, ids))
    decreases |p|
  {
    if |p| > 0 {
      var front, e := p[..|p| - 1], p[|p| - 1];
      assert p == front + [e];
      assert DistinctKeys(front) by {
        forall i, j | 0 <= i < j < |front| ensures front[i].noteId != front[j].noteId {
          assert front[i] == p[i] && front[j] == p[j];
        }
      }
      assert e.noteId !in KeySet(front) by {
        forall i | 0 <= i < |front| ensures front[i].noteId != e.noteId {
          assert front[i] == p[i];
        }
        NotInKeySet(front, e.noteId);
      }
      AckEntriesLookup(front, ids, key);
      AckEntriesKeys(front, ids);
      var a := AckEntries(front, ids);
      var filtered := WithoutIds(e.operations, ids);
      LookupAppend(front, e, key);
      if |filtered| > 0 {
        LookupAppend(a, PendingEntry(e.noteId, filtered), key);
        forall i, j | 0 <= i < j < |a| + 1 ensures (a + [PendingEntry(e.noteId, filtered)])[i].noteId != (a + [PendingEntry(e.noteId, filtered)])[j].noteId {
          if j == |a| {
            assert (a + [PendingEntry(e.noteId, filtered)])[i] == a[i];
            assert a[i] in a;
          } else {
            assert (a + [PendingEntry(e.noteId, filtered)])[i] == a[i];
            assert (a + [PendingEntry(e.noteId, filtered)])[j] == a[j];
          }
        }
        if key == e.noteId {
          LookupMissing(a, key);
          LookupMissing(front, key);
        }
      } else {
        assert AckEntries(p, ids) == a;
        if key == e.noteId {
          LookupMissing(a, key);
          LookupMissing(front, key);
        }
      }
    }
  }

  /** Looking a key up in a list with one more entry at the end. */
  lemma {:induction false} LookupAppend(p: seq<PendingEntry>, e: PendingEntry, key: string)
    ensures Lookup(p + [e], key) ==
      if Lookup(p, key).Some? then Lookup(p, key) else if e.noteId == key then Some(e.operations) else None
    decreases |p|
  {
    if |p| > 0 {
      assert (p + [e])[1..] == p[1..] + [e];
      LookupAppend(p[1..], e, key);
    }
  }

  /** The pending lists concatenated in map order. */
  function Flatten(p: seq<PendingEntry>): seq<Operation>
    decreases |p|
  {
    if |p| == 0 then [] else Flatten(p[..|p| - 1]) + p[|p| - 1].operations
  }

  /** `all.filter(op => !acknowledged.has(op.id))`. */
  function Unacknowledged(ops: seq<Operation>, acknowledged: set<string>): (r: seq<Operation>)
    decreases |ops|
  {
    if |ops| == 0 then []
    else
      var kept := if ops[|ops| - 1].id in acknowledged then [] else [ops[|ops| - 1]];
      Unacknowledged(ops[..|ops| - 1], acknowledged) + kept
  }

  /** The filter keeps exactly the operations not yet acknowledged. */
  lemma {:induction false} UnacknowledgedMembers(ops: seq<Operation>, acknowledged: set<string>)
    ensures forall op :: op in Unacknowledged(ops, acknowledged) <==> op in ops && op.id !in acknowledged
    decreases |ops|
  {
    if |ops| > 0 {
      var front := ops[..|ops| - 1];
      UnacknowledgedMembers(front, acknowledged);
      assert ops == front + [ops[|ops| - 1]];
    }
  }

  /** Flattening a concatenation concatenates the flattened parts. */
  lemma {:induction false} FlattenAppend(a: seq<PendingEntry>, b: seq<PendingEntry>)
    ensures Flatten(a + b) == Flatten(a) + Flatten(b)
    decreases |b|
  {
    if |b| == 0 {
      assert a + b == a;
    } else {
      var ab, front, last := a + b, b[..|b| - 1], b[|b| - 1];
      assert ab[..|ab| - 1] == a + front;
      assert ab[|ab| - 1] == last;
      FlattenAppend(a, front);
      calc {
        Flatten(ab);
        Flatten(a + front) + last.operations;
        Flatten(a) + Flatten(front) + last.operations;
        Flatten(a) + Flatten(b);
      }
    }
  }

  lemma {:induction false} FlattenMembers(p: seq<PendingEntry>, op: Operation)
    ensures op in Flatten(p) <==> exists e :: e in p && op in e.operations
    decreases |p|
  {
    if |p| > 0 {
      var front := p[..|p| - 1];
      FlattenMembers(front, op);
      if exists e :: e in front && op in e.operations {
        var e :| e in front && op in e.operations;
        assert e in p;
      }
      if exists e :: e in p && op in e.operations {
        var e :| e in p && op in e.operations;
        if e != p[|p| - 1] {
          var k :| 0 <= k < |p| && p[k] == e;
          assert front[k] == e;
        }
      }
    }
  }
}
