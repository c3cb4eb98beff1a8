/**
 * The diff engine (calculateTextDiff): trims the common prefix and the common suffix of
 * two snapshots and reports the changed middle as at most one delete and one insert.
 */
module TextDiff {
  import opened Wrappers
  import opened Types

  /** Length of the longest common prefix of `a` and `b`. */
  function CommonPrefix(a: string, b: string): (p: nat)
    ensures p <= |a| && p <= |b|
    ensures p < |a| && p < |b| ==> a[p] != b[p]
  {
    if |a| == 0 || |b| == 0 || a[0] != b[0] then 0
    else 1 + CommonPrefix(a[1..], b[1..])
  }

  /**
   * Length of the longest common suffix of `a` and `b` that leaves both of them at
   * least `lo` characters long, so that it never overlaps a prefix of length `lo`.
   */
  function CommonSuffix(a: string, b: string, lo: nat): (s: nat)
    requires lo <= |a| && lo <= |b|
    ensures lo + s <= |a| && lo + s <= |b|
    ensures lo + s < |a| && lo + s < |b| ==> a[|a| - s - 1] != b[|b| - s - 1]
    decreases |a|
  {
    if |a| <= lo || |b| <= lo || a[|a| - 1] != b[|b| - 1] then 0
    else 1 + CommonSuffix(a[..|a| - 1], b[..|b| - 1], lo)
  }

  /** The first `CommonPrefix(a, b)` characters of `a` and `b` agree. */
  lemma {:induction false} PrefixAgrees(a: string, b: string)
    ensures forall k :: 0 <= k < CommonPrefix(a, b) ==> a[k] == b[k]
    decreases |a|
  {
    if !(|a| == 0 || |b| == 0 || a[0] != b[0]) {
      PrefixAgrees(a[1..], b[1..]);
      forall k | 1 <= k < CommonPrefix(a, b) ensures a[k] == b[k] {
        assert a[k] == a[1..][k - 1] && b[k] == b[1..][k - 1];
      }
    }
  }

  /** The last `CommonSuffix(a, b, lo)` characters of `a` and `b` agree. */
  lemma {:induction false} SuffixAgrees(a: string, b: string, lo: nat)
    requires lo <= |a| && lo <= |b|
    ensures forall k :: |a| - CommonSuffix(a, b, lo) <= k < |a| ==> a[k] == b[k - |a| + |b|]
    decreases |a|
  {
    if !(|a| <= lo || |b| <= lo || a[|a| - 1] != b[|b| - 1]) {
      var a', b' := a[..|a| - 1], b[..|b| - 1];
      SuffixAgrees(a', b', lo);
      forall k | |a| - CommonSuffix(a, b, lo) <= k < |a| - 1 ensures a[k] == b[k - |a| + |b|] {
        assert a[k] == a'[k] && b[k - |a| + |b|] == b'[k - |a'| + |b'|];
      }
    }
  }

  lemma {:induction false} PrefixUnique(a: string, b: string, i: nat)
    requires i <= |a| && i <= |b| && forall k :: 0 <= k < i ==> a[k] == b[k]
    requires i == |a| || i == |b| || a[i] != b[i]
    ensures CommonPrefix(a, b) == i
    decreases i
  {
    if i > 0 {
      assert a[0] == b[0];
      forall k | 0 <= k < i - 1 ensures a[1..][k] == b[1..][k] {
        assert a[1..][k] == a[k + 1] && b[1..][k] == b[k + 1];
      }
      PrefixUnique(a[1..], b[1..], i - 1);
    }
  }

  lemma {:induction false} SuffixUnique(a: string, b: string, lo: nat, s: nat)
    requires lo + s <= |a| && lo + s <= |b|
    requires forall k :: |a| - s <= k < |a| ==> a[k] == b[k - |a| + |b|]
    requires lo + s == |a| || lo + s == |b| || a[|a| - s - 1] != b[|b| - s - 1]
    ensures CommonSuffix(a, b, lo) == s
    decreases s
  {
    if s > 0 {
      var a', b' := a[..|a| - 1], b[..|b| - 1];
      assert a[|a| - 1] == b[|b| - 1];
      forall k | |a'| - (s - 1) <= k < |a'| ensures a'[k] == b'[k - |a'| + |b'|] {
        assert a'[k] == a[k] && b'[k - |a'| + |b'|] == b[k - |a| + |b|];
      }
      assert lo + s == |a| || lo + s == |b| || a'[|a'| - (s - 1) - 1] != b'[|b'| - (s - 1) - 1];
      SuffixUnique(a', b', lo, s - 1);
    }
  }

  /** Equal characters at every index make equal slices. */
  lemma SlicesEqual(a: string, i: nat, b: string, j: nat)
    requires i <= |a| && j <= |b| && |a| - i == |b| - j
    requires forall k :: i <= k < |a| ==> a[k] == b[k - i + j]
    ensures a[i..] == b[j..]
  {
    assert forall k :: 0 <= k < |a| - i ==> a[i..][k] == b[j..][k];
  }

  function DeleteChangeAt(p: nat, deleted: string): TextChange {
    TextChange(DeleteChange, p, None, Some(deleted), Some(|deleted|))
  }

  function InsertChangeAt(p: nat, inserted: string): TextChange {
    TextChange(InsertChange, p, Some(inserted), None, None)
  }

  /** The delete a diff reports for `t[p..end]`: none when that span is empty. */
  function DeletePart(t: string, p: nat, end: nat): seq<TextChange>
    requires p <= end <= |t|
  {
    if end > p then [DeleteChangeAt(p, t[p..end])] else []
  }

  /** The insert a diff reports for `t[p..end]`: none when that span is empty. */
  function InsertPart(t: string, p: nat, end: nat): seq<TextChange>
    requires p <= end <= |t|
  {
    if end > p then [InsertChangeAt(p, t[p..end])] else []
  }

  /** What calculateTextDiff returns for two snapshots. */
  function Diff(oldText: string, newText: string): seq<TextChange> {
    var p := CommonPrefix(oldText, newText);
    if p == |oldText| && p == |newText| then []
    else
      var s := CommonSuffix(oldText, newText, p);
      DeletePart(oldText, p, |oldText| - s) + InsertPart(newText, p, |newText| - s)
  }

  lemma DiffUnfold(oldText: string, newText: string, p: nat, oldEnd: nat, newEnd: nat)
    requires p == CommonPrefix(oldText, newText) && !(p == |oldText| && p == |newText|)
    requires oldEnd <= |oldText| && newEnd <= |newText| && |oldText| - oldEnd == |newText| - newEnd
    requires |oldText| - oldEnd == CommonSuffix(oldText, newText, p)
    ensures p <= oldEnd && p <= newEnd
    ensures Diff(oldText, newText) == DeletePart(oldText, p, oldEnd) + InsertPart(newText, p, newEnd)
  {
  }

  /** `calculateTextDiff`: the prefix loop, the suffix loop, then the two pushes. */
  method CalculateTextDiff(oldText: string, newText: string) returns (changes: seq<TextChange>)
    ensures changes == Diff(oldText, newText)
  {
    changes := [];
    var i := ScanPrefix(oldText, newText);
    var j := i;
    if i == |oldText| && j == |newText| {
      return;
    }
    var oldEnd, newEnd := ScanSuffix(oldText, newText, i);
    DiffUnfold(oldText, newText, i, oldEnd, newEnd);
    if oldEnd > i {
      changes := changes + [DeleteChangeAt(i, oldText[i..oldEnd])];
    }
    if newEnd > j {
      changes := changes + [InsertChangeAt(i, newText[j..newEnd])];
    }
  }

  /** The first loop: advance while the characters agree. */
  method ScanPrefix(oldText: string, newText: string) returns (i: nat)
    ensures i == CommonPrefix(oldText, newText)
  {
    i := 0;
    while i < |oldText| && i < |newText| && oldText[i] == newText[i]
      invariant i <= |oldText| && i <= |newText|
      invariant forall k :: 0 <= k < i ==> oldText[k] == newText[k]
    {
      i := i + 1;
    }
    PrefixUnique(oldText, newText, i);
  }

  /** The second loop: step both ends back while the characters agree, never past `i`. */
  method ScanSuffix(oldText: string, newText: string, i: nat) returns (oldEnd: nat, newEnd: nat)
    requires i <= |oldText| && i <= |newText|
    ensures i <= oldEnd <= |oldText| && i <= newEnd <= |newText|
    ensures |oldText| - oldEnd == |newText| - newEnd == CommonSuffix(oldText, newText, i)
  {
    oldEnd, newEnd := |oldText|, |newText|;
    while oldEnd > i && newEnd > i && oldText[oldEnd - 1] == newText[newEnd - 1]
      invariant i <= oldEnd <= |oldText| && i <= newEnd <= |newText|
      invariant |oldText| - oldEnd == |newText| - newEnd
      invariant forall k :: oldEnd <= k < |oldText| ==> oldText[k] == newText[k - |oldText| + |newText|]
    {
      oldEnd, newEnd := oldEnd - 1, newEnd - 1;
    }
    SuffixUnique(oldText, newText, i, |oldText| - oldEnd);
  }

  /** Length removed by a diff: that of its delete, or 0 when it has none. */
  function DeletedCount(cs: seq<TextChange>): int {
    if |cs| > 0 && cs[0].kind == DeleteChange then cs[0].length.GetOr(0) else 0
  }

  /** Text added by a diff: the content of its insert, or "" when it has none. */
  function InsertedText(cs: seq<TextChange>): string {
    if |cs| > 0 && cs[|cs| - 1].kind == InsertChange then cs[|cs| - 1].content.GetOr("") else ""
  }

  /** The diff is empty exactly when the snapshots are equal. */
  lemma DiffEmptyIff(oldText: string, newText: string)
    ensures Diff(oldText, newText) == [] <==> oldText == newText
  {
    var p := CommonPrefix(oldText, newText);
    if oldText == newText {
      PrefixUnique(oldText, newText, |oldText|);
    }
    if Diff(oldText, newText) == [] {
      var s := if p == |oldText| && p == |newText| then 0 else CommonSuffix(oldText, newText, p);
      assert |oldText| - s == p == |newText| - s;
      PrefixAgrees(oldText, newText);
      if !(p == |oldText| && p == |newText|) {
        SuffixAgrees(oldText, newText, p);
      }
      SlicesEqual(oldText, p, newText, p);
      assert oldText[..p] == newText[..p];
      assert oldText == oldText[..p] + oldText[p..];
      assert newText == newText[..p] + newText[p..];
    }
  }

  /** End of the changed window in the old snapshot (`oldEnd` after the suffix loop). */
  function OldEnd(oldText: string, newText: string): (e: nat)
    ensures CommonPrefix(oldText, newText) <= e <= |oldText|
  {
    var p := CommonPrefix(oldText, newText);
    if p == |oldText| && p == |newText| then p else |oldText| - CommonSuffix(oldText, newText, p)
  }

  /** End of the changed window in the new snapshot (`newEnd` after the suffix loop). */
  function NewEnd(oldText: string, newText: string): (e: nat)
    ensures CommonPrefix(oldText, newText) <= e <= |newText|
    ensures |oldText| - OldEnd(oldText, newText) == |newText| - e
  {
    var p := CommonPrefix(oldText, newText);
    if p == |oldText| && p == |newText| then p else |newText| - CommonSuffix(oldText, newText, p)
  }

  lemma PrefixWindow(oldText: string, newText: string)
    ensures var p := CommonPrefix(oldText, newText); oldText[..p] == newText[..p]
  {
    var p := CommonPrefix(oldText, newText);
    PrefixAgrees(oldText, newText);
    assert forall k :: 0 <= k < p ==> oldText[..p][k] == newText[..p][k];
  }

  lemma SuffixWindow(oldText: string, newText: string)
    ensures oldText[OldEnd(oldText, newText)..] == newText[NewEnd(oldText, newText)..]
  {
    var p := CommonPrefix(oldText, newText);
    if !(p == |oldText| && p == |newText|) {
      var s := CommonSuffix(oldText, newText, p);
      SuffixAgrees(oldText, newText, p);
      SlicesEqual(oldText, |oldText| - s, newText, |newText| - s);
    }
  }

  lemma WindowNonEmpty(oldText: string, newText: string)
    requires oldText != newText
    ensures OldEnd(oldText, newText) > CommonPrefix(oldText, newText)
      || NewEnd(oldText, newText) > CommonPrefix(oldText, newText)
  {
    DiffEmptyIff(oldText, newText);
  }

  /**
   * The windows of a diff: the common prefix ends at p, the common suffixes start at
   * oldEnd and newEnd, and they never overlap the prefix.
   */
  lemma DiffWindows(oldText: string, newText: string)
    ensures var p, oldEnd, newEnd := CommonPrefix(oldText, newText), OldEnd(oldText, newText), NewEnd(oldText, newText);
      && oldText[..p] == newText[..p]
      && oldText[oldEnd..] == newText[newEnd..]
      && (oldText != newText ==> oldEnd > p || newEnd > p)
      && (p < oldEnd && p < newEnd ==> oldText[p] != newText[p])
  {
    PrefixWindow(oldText, newText);
    SuffixWindow(oldText, newText);
    if oldText != newText {
      WindowNonEmpty(oldText, newText);
    }
  }

  /**
   * One or two changes, never a replace, all at p; a delete first exactly when the old
   * window is non-empty, removing `oldText[p..oldEnd]`; an insert last exactly when the new
   * window is non-empty, adding `newText[p..newEnd]`.
   */
  predicate WindowShape(cs: seq<TextChange>, oldText: string, newText: string, p: nat, oldEnd: nat, newEnd: nat)
    requires p <= oldEnd <= |oldText| && p <= newEnd <= |newText|
  {
    && 1 <= |cs| <= 2
    && (forall c :: c in cs ==> c.position == p && c.kind != ReplaceChange)
    && (cs[0].kind == DeleteChange <==> oldEnd > p)
    && (cs[0].kind == DeleteChange ==>
          cs[0].length == Some(oldEnd - p) && cs[0].deletedContent == Some(oldText[p..oldEnd])
          && cs[0].content == None)
    && (cs[|cs| - 1].kind == InsertChange <==> newEnd > p)
    && (cs[|cs| - 1].kind == InsertChange ==>
          cs[|cs| - 1].content == Some(newText[p..newEnd]) && newText[p..newEnd] != []
          && cs[|cs| - 1].length == None && cs[|cs| - 1].deletedContent == None)
    && (|cs| == 2 ==> cs[0].kind == DeleteChange && cs[1].kind == InsertChange)
  }

  /** The shape of a delete part followed by an insert part over one window. */
  lemma PartsShape(oldText: string, newText: string, p: nat, oldEnd: nat, newEnd: nat)
    requires p <= oldEnd <= |oldText| && p <= newEnd <= |newText| && (oldEnd > p || newEnd > p)
    ensures var cs := DeletePart(oldText, p, oldEnd) + InsertPart(newText, p, newEnd);
      && WindowShape(cs, oldText, newText, p, oldEnd, newEnd)
      && DeletedCount(cs) == oldEnd - p
      && InsertedText(cs) == newText[p..newEnd]
  {
  }

  /** The shape of a non-empty diff over its windows. */
  lemma DiffShape(oldText: string, newText: string)
    requires oldText != newText
    ensures WindowShape(Diff(oldText, newText), oldText, newText,
      CommonPrefix(oldText, newText), OldEnd(oldText, newText), NewEnd(oldText, newText))
  {
    var p, oldEnd, newEnd := CommonPrefix(oldText, newText), OldEnd(oldText, newText), NewEnd(oldText, newText);
    WindowNonEmpty(oldText, newText);
    DiffUnfold(oldText, newText, p, oldEnd, newEnd);
    PartsShape(oldText, newText, p, oldEnd, newEnd);
  }

  /** Splicing the new window into the old text between the shared prefix and suffix. */
  lemma WindowSplice(oldText: string, newText: string, p: nat, oldEnd: nat, newEnd: nat)
    requires p <= oldEnd <= |oldText| && p <= newEnd <= |newText|
    requires oldText[..p] == newText[..p] && oldText[oldEnd..] == newText[newEnd..]
    ensures oldText[..p] + newText[p..newEnd] + oldText[oldEnd..] == newText
  {
    assert newText == newText[..p] + newText[p..newEnd] + newText[newEnd..];
  }

  /** A diff with no changes leaves the snapshot alone. */
  lemma EmptyDiffRoundTrip(oldText: string, newText: string)
    requires Diff(oldText, newText) == []
    ensures var p := CommonPrefix(oldText, newText);
      oldText[..p] + InsertedText([]) + oldText[p + DeletedCount([])..] == newText
  {
    DiffEmptyIff(oldText, newText);
    assert oldText == oldText[..CommonPrefix(oldText, newText)] + oldText[CommonPrefix(oldText, newText)..];
  }

  /**
   * Round trip: removing the deleted span at p from the old snapshot, then splicing the
   * inserted text in at p, gives the new snapshot (for equal snapshots both are empty).
   */
  lemma DiffRoundTrip(oldText: string, newText: string)
    ensures var cs, p := Diff(oldText, newText), CommonPrefix(oldText, newText);
      && 0 <= DeletedCount(cs) <= |oldText| - p
      && oldText[..p] + InsertedText(cs) + oldText[p + DeletedCount(cs)..] == newText
  {
    var p, oldEnd, newEnd := CommonPrefix(oldText, newText), OldEnd(oldText, newText), NewEnd(oldText, newText);
    var cs := Diff(oldText, newText);
    if cs == [] {
      EmptyDiffRoundTrip(oldText, newText);
    } else {
      assert DeletedCount(cs) == oldEnd - p && InsertedText(cs) == newText[p..newEnd] by {
        DiffEmptyIff(oldText, newText);
        DiffShape(oldText, newText);
        assert oldEnd > p || newEnd > p by { DiffWindows(oldText, newText); }
        assert !(p == |oldText| && p == |newText|);
        DiffUnfold(oldText, newText, p, oldEnd, newEnd);
        PartsShape(oldText, newText, p, oldEnd, newEnd);
      }
      assert oldText[..p] + newText[p..newEnd] + oldText[oldEnd..] == newText by {
        DiffWindows(oldText, newText);
        WindowSplice(oldText, newText, p, oldEnd, newEnd);
      }
    }
  }

  lemma ExamplePrefix()
    ensures CommonPrefix("Hello world", "Hello beautiful world") == 6
  {
    PrefixUnique("Hello world", "Hello beautiful world", 6);
  }

  lemma ExampleSuffix()
    ensures CommonSuffix("Hello world", "Hello beautiful world", 6) == 5
  {
    SuffixUnique("Hello world", "Hello beautiful world", 6, 5);
  }

  lemma ExampleWindow()
    ensures "Hello beautiful world"[6..16] == "beautiful "
  {
  }

  /** The example the source's own test prints: one insert of "beautiful " at 6. */
  lemma DiffInsertsWord()
    ensures Diff("Hello world", "Hello beautiful world") == [InsertChangeAt(6, "beautiful ")]
  {
    var a, b := "Hello world", "Hello beautiful world";
    ExamplePrefix();
    ExampleSuffix();
    DiffUnfold(a, b, 6, 6, 16);
    assert b[6..16] == "beautiful " by { ExampleWindow(); }
  }
}
