/**
 * The order both replay and merge sort by (src/crdt/utils.ts:220-224 and 260-264):
 * timestamp, then sequence number, then client id. `localeCompare` is replaced by the
 * fixed lexicographic order of StringOrder. `Array.prototype.sort` is stable, so the
 * sort is modelled as a stable insertion sort.
 */
module OpOrder {
  import opened Types
  import StringOrder

  /** A fixed three-way comparison of strings standing for `localeCompare`. */
  function CompareStrings(a: string, b: string): int {
    if a == b then 0 else if StringOrder.Less(a, b) then -1 else 1
  }

  /** The comparator passed to `sort`: negative when `a` goes first, zero for a tie. */
  function Compare(a: Operation, b: Operation): int {
    if a.timestamp != b.timestamp then a.timestamp - b.timestamp
    else if a.sequenceNumber != b.sequenceNumber then a.sequenceNumber - b.sequenceNumber
    else CompareStrings(a.clientId, b.clientId)
  }

  /** `a` may stay before `b`. */
  predicate KeyLe(a: Operation, b: Operation) {
    Compare(a, b) <= 0
  }

  /** Equal sort keys. */
  predicate SameKey(a: Operation, b: Operation) {
    a.timestamp == b.timestamp && a.sequenceNumber == b.sequenceNumber && a.clientId == b.clientId
  }

  lemma CompareZeroIffSameKey(a: Operation, b: Operation)
    ensures Compare(a, b) == 0 <==> SameKey(a, b)
  {
    if a.clientId != b.clientId {
      StringOrder.LessTotal(a.clientId, b.clientId);
    }
  }

  /** The comparator is antisymmetric: swapping the arguments flips its sign. */
  lemma CompareAntisymmetric(a: Operation, b: Operation)
    ensures Compare(a, b) < 0 <==> Compare(b, a) > 0
  {
    if a.clientId != b.clientId {
      StringOrder.LessTotal(a.clientId, b.clientId);
      if StringOrder.Less(a.clientId, b.clientId) {
        StringOrder.LessAsymmetric(a.clientId, b.clientId);
      }
    }
  }

  lemma KeyLeTotal(a: Operation, b: Operation)
    ensures KeyLe(a, b) || KeyLe(b, a)
  {
    CompareAntisymmetric(a, b);
  }

  lemma CompareStringsTransitive(x: string, y: string, z: string)
    requires CompareStrings(x, y) <= 0 && CompareStrings(y, z) <= 0
    ensures CompareStrings(x, z) <= 0
  {
    if x != y && y != z {
      StringOrder.LessTransitive(x, y, z);
    }
  }

  lemma KeyLeTransitive(a: Operation, b: Operation, c: Operation)
    requires KeyLe(a, b) && KeyLe(b, c)
    ensures KeyLe(a, c)
  {
    if a.timestamp == b.timestamp == c.timestamp && a.sequenceNumber == b.sequenceNumber == c.sequenceNumber {
      CompareStringsTransitive(a.clientId, b.clientId, c.clientId);
    }
  }

  predicate Sorted(s: seq<Operation>) {
    forall i, j :: 0 <= i < j < |s| ==> KeyLe(s[i], s[j])
  }

  /** Put `x` in front of the first element it may precede. */
  function InsertOp(x: Operation, t: seq<Operation>): seq<Operation>
    decreases |t|
  {
    if |t| == 0 then [x]
    else if KeyLe(x, t[0]) then [x] + t
    else [t[0]] + InsertOp(x, t[1..])
  }

  /** Stable sort: each element stays in front of the later elements with an equal key. */
  function SortOps(s: seq<Operation>): seq<Operation>
    decreases |s|
  {
    if |s| == 0 then [] else InsertOp(s[0], SortOps(s[1..]))
  }

  /** A head that may precede every element of a sorted tail gives a sorted sequence. */
  lemma SortedCons(h: Operation, r: seq<Operation>)
    requires forall y :: y in r ==> KeyLe(h, y)
    requires Sorted(r)
    ensures Sorted([h] + r)
  {
    var s := [h] + r;
    forall i, j | 0 <= i < j < |s| ensures KeyLe(s[i], s[j]) {
      assert s[j] == r[j - 1];
      if i > 0 {
        assert s[i] == r[i - 1];
      }
    }
  }

  lemma SortedTail(s: seq<Operation>)
    requires |s| > 0 && Sorted(s)
    ensures Sorted(s[1..]) && forall y :: y in s[1..] ==> KeyLe(s[0], y)
  {
    forall i, j | 0 <= i < j < |s[1..]| ensures KeyLe(s[1..][i], s[1..][j]) {
      assert s[1..][i] == s[i + 1] && s[1..][j] == s[j + 1];
    }
    forall y | y in s[1..] ensures KeyLe(s[0], y) {
      var k :| 0 <= k < |s[1..]| && s[1..][k] == y;
      assert s[k + 1] == y;
    }
  }

  lemma {:induction false} InsertOpMultiset(x: Operation, t: seq<Operation>)
    ensures multiset(InsertOp(x, t)) == multiset{x} + multiset(t)
    decreases |t|
  {
    if |t| > 0 && !KeyLe(x, t[0]) {
      InsertOpMultiset(x, t[1..]);
      assert t == [t[0]] + t[1..];
    }
  }

  lemma InsertOpMembers(x: Operation, t: seq<Operation>)
    ensures forall y :: y in InsertOp(x, t) ==> y == x || y in t
  {
    InsertOpMultiset(x, t);
    forall y | y in InsertOp(x, t) ensures y == x || y in t {
      assert y in multiset(InsertOp(x, t));
    }
  }

  lemma {:induction false} InsertOpSorted(x: Operation, t: seq<Operation>)
    requires Sorted(t)
    ensures Sorted(InsertOp(x, t))
    decreases |t|
  {
    if |t| > 0 {
      SortedTail(t);
      if KeyLe(x, t[0]) {
        forall y | y in t ensures KeyLe(x, y) {
          if y != t[0] {
            assert y in t[1..] by { assert t == [t[0]] + t[1..]; }
            KeyLeTransitive(x, t[0], y);
          }
        }
        SortedCons(x, t);
      } else {
        KeyLeTotal(x, t[0]);
        InsertOpSorted(x, t[1..]);
        InsertOpMembers(x, t[1..]);
        SortedCons(t[0], InsertOp(x, t[1..]));
      }
    }
  }

  /** `e` when it carries the key of `o`, else nothing. */
  function KeyPart(e: Operation, o: Operation): seq<Operation> {
    if SameKey(e, o) then [e] else []
  }

  /** The elements of `s` whose sort key is that of `o`, in their order in `s`. */
  function KeyClass(s: seq<Operation>, o: Operation): seq<Operation>
    decreases |s|
  {
    if |s| == 0 then [] else KeyPart(s[0], o) + KeyClass(s[1..], o)
  }

  lemma KeyClassCons(e: Operation, t: seq<Operation>, o: Operation)
    ensures KeyClass([e] + t, o) == KeyPart(e, o) + KeyClass(t, o)
  {
    assert ([e] + t)[1..] == t;
  }

  /** Inserting `x` puts it in front of every element with its key, as if it were prepended. */
  lemma {:induction false} InsertOpKeyClass(x: Operation, t: seq<Operation>, o: Operation)
    ensures KeyClass(InsertOp(x, t), o) == KeyClass([x] + t, o)
    decreases |t|
  {
    if |t| > 0 && !KeyLe(x, t[0]) {
      var h, rest := t[0], t[1..];
      var r := InsertOp(x, rest);
      assert InsertOp(x, t) == [h] + r;
      assert t == [h] + rest;
      InsertOpKeyClass(x, rest, o);
      KeyClassCons(h, r, o);
      KeyClassCons(x, rest, o);
      KeyClassCons(x, t, o);
      KeyClassCons(h, rest, o);
      // `x` and `h` cannot both carry the key of `o`, since `x` does not precede `h`.
      assert !(SameKey(x, o) && SameKey(h, o));
      var a, b, c := KeyPart(h, o), KeyPart(x, o), KeyClass(rest, o);
      assert a + (b + c) == b + (a + c);
    }
  }

  /**
   * The sort is stable: for every key, the elements carrying it come out in the order they
   * went in.
   */
  lemma {:induction false} SortOpsStable(s: seq<Operation>, o: Operation)
    ensures KeyClass(SortOps(s), o) == KeyClass(s, o)
    decreases |s|
  {
    if |s| > 0 {
      var t := SortOps(s[1..]);
      SortOpsStable(s[1..], o);
      InsertOpKeyClass(s[0], t, o);
      assert ([s[0]] + t)[1..] == t;
    }
  }

  /** The sort returns its input, ordered. */
  lemma {:induction false} SortOpsCorrect(s: seq<Operation>)
    ensures Sorted(SortOps(s))
    ensures multiset(SortOps(s)) == multiset(s)
    decreases |s|
  {
    if |s| > 0 {
      SortOpsCorrect(s[1..]);
      InsertOpSorted(s[0], SortOps(s[1..]));
      InsertOpMultiset(s[0], SortOps(s[1..]));
      assert s == [s[0]] + s[1..];
    }
  }

  lemma SortOpsLength(s: seq<Operation>)
    ensures |SortOps(s)| == |s|
  {
    SortOpsCorrect(s);
    assert |multiset(SortOps(s))| == |multiset(s)|;
  }

  /** An input already in order comes back unchanged. */
  lemma {:induction false} SortOpsOfSorted(s: seq<Operation>)
    requires Sorted(s)
    ensures SortOps(s) == s
    decreases |s|
  {
    if |s| > 0 {
      assert Sorted(s[1..]) by {
        forall i, j | 0 <= i < j < |s[1..]| ensures KeyLe(s[1..][i], s[1..][j]) {
          assert s[1..][i] == s[i + 1] && s[1..][j] == s[j + 1];
        }
      }
      SortOpsOfSorted(s[1..]);
      if |s| > 1 {
        assert KeyLe(s[0], s[1]);
      }
      assert s == [s[0]] + s[1..];
    }
  }

  /** Inserting an element that may precede all of `u` never reaches into `u`. */
  lemma {:induction false} InsertOpBeforeTail(x: Operation, t: seq<Operation>, u: seq<Operation>)
    requires forall y :: y in u ==> KeyLe(x, y)
    ensures InsertOp(x, t + u) == InsertOp(x, t) + u
    decreases |t|
  {
    if |t| == 0 {
      assert t + u == u;
      if |u| > 0 {
        assert KeyLe(x, u[0]);
      }
    } else {
      assert (t + u)[0] == t[0] && (t + u)[1..] == t[1..] + u;
      if !KeyLe(x, t[0]) {
        InsertOpBeforeTail(x, t[1..], u);
      }
    }
  }

  /** The sort keeps exactly the elements of its input. */
  lemma SortOpsMembers(s: seq<Operation>)
    ensures forall y :: y in SortOps(s) <==> y in s
  {
    SortOpsCorrect(s);
    forall y ensures y in SortOps(s) <==> y in s {
      assert y in SortOps(s) <==> y in multiset(SortOps(s));
      assert y in s <==> y in multiset(s);
    }
  }

  /**
   * When every element of `a` may precede every element of `b`, sorting the
   * concatenation sorts the two parts on their own.
   */
  lemma {:induction false} SortOpsAppend(a: seq<Operation>, b: seq<Operation>)
    requires forall x, y :: x in a && y in b ==> KeyLe(x, y)
    ensures SortOps(a + b) == SortOps(a) + SortOps(b)
    decreases |a|
  {
    if |a| == 0 {
      assert a + b == b;
    } else {
      var x, rest := a[0], a[1..];
      assert (a + b)[0] == x && (a + b)[1..] == rest + b;
      assert SortOps(a + b) == InsertOp(x, SortOps(rest + b));
      assert forall u, v :: u in rest && v in b ==> KeyLe(u, v) by {
        forall u | u in rest ensures u in a {
          var k :| 0 <= k < |rest| && rest[k] == u;
          assert a[k + 1] == u;
        }
      }
      SortOpsAppend(rest, b);
      assert forall y :: y in SortOps(b) ==> KeyLe(x, y) by {
        SortOpsMembers(b);
        assert x in a;
      }
      InsertOpBeforeTail(x, SortOps(rest), SortOps(b));
    }
  }
}
