/**
 * The pure helpers of the editor component (src/App.tsx): fuzzy matching, the mention
 * dropdown's keyboard navigation, mention detection and insertion, and the note list's
 * preview and title text.
 */
module AppHelpers {
  import opened Wrappers
  import opened JsString

  function Min(a: int, b: int): int {
    if a <= b then a else b
  }

  function Max(a: int, b: int): int {
    if a >= b then a else b
  }

  /** `s.slice(0, n)` for a non-negative `n` is the first `min(n, |s|)` elements. */
  lemma PrefixSlice<T>(s: seq<T>, n: int)
    requires 0 <= n
    ensures Slice(s, 0, n) == s[..Min(n, |s|)]
  {
    assert RelativeIndex(n, |s|) == Min(n, |s|);
  }

  // ----- fuzzyMatch -----

  /** `query` is read off `text` left to right, skipping characters of `text` that do not match. */
  predicate IsSubsequence(query: string, text: string)
    decreases |text|
  {
    if |query| == 0 then true
    else if |text| == 0 then false
    else if text[0] == query[0] then IsSubsequence(query[1..], text[1..])
    else IsSubsequence(query, text[1..])
  }

  /** `idx` lists strictly increasing positions of `text` that spell `query`. */
  ghost predicate Embedding(idx: seq<int>, query: string, text: string) {
    && |idx| == |query|
    && (forall k :: 0 <= k < |idx| ==> 0 <= idx[k] < |text| && text[idx[k]] == query[k])
    && (forall j, k :: 0 <= j < k < |idx| ==> idx[j] < idx[k])
  }

  /** Every position moved by `d`. */
  function Shift(idx: seq<int>, d: int): (r: seq<int>)
    ensures |r| == |idx| && forall k :: 0 <= k < |idx| ==> r[k] == idx[k] + d
  {
    seq(|idx|, k requires 0 <= k < |idx| => idx[k] + d)
  }

  /** When the greedy scan succeeds, the characters it matched are an embedding. */
  lemma {:induction false} SubsequenceEmbeds(query: string, text: string) returns (idx: seq<int>)
    requires IsSubsequence(query, text)
    ensures Embedding(idx, query, text)
    decreases |text|
  {
    if |query| == 0 {
      idx := [];
    } else if text[0] == query[0] {
      var rest := SubsequenceEmbeds(query[1..], text[1..]);
      idx := [0] + Shift(rest, 1);
      assert forall k :: 1 <= k < |idx| ==> idx[k] == rest[k - 1] + 1 && text[idx[k]] == text[1..][rest[k - 1]];
    } else {
      var rest := SubsequenceEmbeds(query, text[1..]);
      idx := Shift(rest, 1);
      assert forall k :: 0 <= k < |idx| ==> text[idx[k]] == text[1..][rest[k]];
    }
  }

  /** Whenever some embedding exists, the greedy scan succeeds. */
  lemma {:induction false} EmbeddingIsSubsequence(idx: seq<int>, query: string, text: string)
    requires Embedding(idx, query, text)
    ensures IsSubsequence(query, text)
    decreases |text|
  {
    if |query| > 0 {
      assert 0 <= idx[0] < |text|;
      if text[0] == query[0] {
        var rest := Shift(idx[1..], -1);
        assert forall k :: 0 <= k < |rest| ==> idx[0] < idx[k + 1] && text[1..][rest[k]] == text[idx[k + 1]];
        EmbeddingIsSubsequence(rest, query[1..], text[1..]);
      } else {
        assert idx[0] != 0;
        var rest := Shift(idx, -1);
        assert forall k :: 0 <= k < |rest| ==> idx[0] <= idx[k] && text[1..][rest[k]] == text[idx[k]];
        EmbeddingIsSubsequence(rest, query, text[1..]);
      }
    }
  }

  /** The greedy scan decides whether an embedding exists. */
  lemma SubsequenceIffEmbedding(query: string, text: string)
    ensures IsSubsequence(query, text) <==> exists idx :: Embedding(idx, query, text)
  {
    if IsSubsequence(query, text) {
      var idx := SubsequenceEmbeds(query, text);
    }
    if idx :| Embedding(idx, query, text) {
      EmbeddingIsSubsequence(idx, query, text);
    }
  }

  /** A query never embeds in a shorter text. */
  lemma {:induction false} SubsequenceNoLonger(query: string, text: string)
    requires IsSubsequence(query, text)
    ensures |query| <= |text|
    decreases |text|
  {
    if |query| > 0 {
      if text[0] == query[0] {
        SubsequenceNoLonger(query[1..], text[1..]);
      } else {
        SubsequenceNoLonger(query, text[1..]);
      }
    }
  }

  /** `fuzzyMatch(text, query)`: two cursors; the query cursor moves only on a match. */
  method FuzzyMatch(text: string, query: string) returns (matched: bool)
    ensures matched == IsSubsequence(query, text)
    ensures |query| == 0 ==> matched
    ensures |query| > |text| ==> !matched
  {
    var textIndex, queryIndex := 0, 0;
    while textIndex < |text| && queryIndex < |query|
      invariant 0 <= textIndex <= |text| && 0 <= queryIndex <= |query|
      invariant IsSubsequence(query, text) == IsSubsequence(query[queryIndex..], text[textIndex..])
      decreases |text| - textIndex
    {
      assert text[textIndex..][1..] == text[textIndex + 1..];
      assert query[queryIndex..][1..] == query[queryIndex + 1..];
      if text[textIndex] == query[queryIndex] {
        queryIndex := queryIndex + 1;
      }
      textIndex := textIndex + 1;
    }
    matched := queryIndex == |query|;
    if matched {
      assert query[queryIndex..] == [];
    } else {
      assert text[textIndex..] == [];
    }
    if IsSubsequence(query, text) {
      SubsequenceNoLonger(query, text);
    }
  }

  // ----- mention dropdown keyboard navigation -----

  /** ECMAScript's `%`: the remainder has the sign of the dividend. */
  function JsRem(a: int, n: int): (r: int)
    requires n > 0
    ensures 0 <= a ==> 0 <= r < n && r == a % n
    ensures a < 0 ==> -n < r <= 0
  {
    if a >= 0 then a % n else -((-a) % n)
  }

  /** ArrowDown: the next entry, wrapping from the last to the first. */
  function MentionDown(index: int, count: int): (r: int)
    requires count > 0
    ensures 0 <= index ==> 0 <= r < count
    ensures 0 <= index < count - 1 ==> r == index + 1
    ensures index == count - 1 ==> r == 0
  {
    JsRem(index + 1, count)
  }

  /** ArrowUp: the previous entry, wrapping from the first to the last. */
  function MentionUp(index: int, count: int): (r: int)
    requires count > 0
    ensures 1 - count <= index ==> 0 <= r < count
    ensures 0 < index < count ==> r == index - 1
    ensures index == 0 ==> r == count - 1
  {
    JsRem(index - 1 + count, count)
  }

  /** Moving down then up, or up then down, returns to the same entry. */
  lemma MentionMovesInverse(index: int, count: int)
    requires 0 <= index < count
    ensures MentionUp(MentionDown(index, count), count) == index
    ensures MentionDown(MentionUp(index, count), count) == index
  {
  }

  datatype MentionKey = ArrowDown | ArrowUp | Enter | Tab | Escape | OtherKey

  /** What a key press does to the open dropdown. */
  datatype KeyEffect = Ignored | Move(index: int) | Choose(index: int) | Close

  /**
   * The part of the key handler after the submit shortcut: nothing happens unless the
   * dropdown is shown with at least one entry.
   */
  function MentionKeyEffect(key: MentionKey, showMentions: bool, index: int, count: nat): (r: KeyEffect)
    ensures !showMentions || count == 0 ==> r == Ignored
    ensures r.Choose? ==> r.index == index && (key == Enter || key == Tab)
  {
    if !showMentions || count == 0 then Ignored
    else match key
      case ArrowDown => Move(MentionDown(index, count))
      case ArrowUp => Move(MentionUp(index, count))
      case Enter => Choose(index)
      case Tab => Choose(index)
      case Escape => Close
      case OtherKey => Ignored
  }

  /** From an entry in range, every key keeps the selection in range. */
  lemma MentionKeysStayInRange(key: MentionKey, showMentions: bool, index: int, count: nat)
    requires 0 <= index < count
    ensures var r := MentionKeyEffect(key, showMentions, index, count);
      && (r.Move? ==> 0 <= r.index < count)
      && (r.Choose? ==> 0 <= r.index < count)
  {
  }

  // ----- mention detection -----

  /** The characters of `[a-zA-Z0-9_]`. */
  predicate IsWordChar(c: char) {
    ('a' <= c <= 'z') || ('A' <= c <= 'Z') || ('0' <= c <= '9') || c == '_'
  }

  /** The length of the longest suffix of `s` made of word characters. */
  function TrailingWordRun(s: string): (r: nat)
    ensures r <= |s|
    ensures forall k :: |s| - r <= k < |s| ==> IsWordChar(s[k])
    ensures r < |s| ==> !IsWordChar(s[|s| - r - 1])
    decreases |s|
  {
    if |s| == 0 || !IsWordChar(s[|s| - 1]) then 0
    else TrailingWordRun(s[..|s| - 1]) + 1
  }

  /** An open mention: where its `@` is and what was typed after it. */
  datatype Mention = Mention(start: int, query: string)

  /**
   * `detectMention`: the text before the cursor is tested against `/@([a-zA-Z0-9_]*)$/`;
   * `None` is the branch that hides the dropdown.
   */
  function DetectMention(value: string, selectionStart: int): (r: Option<Mention>)
    ensures r.Some? ==>
      && r.value.start == selectionStart - 1 - |r.value.query|
      && forall k :: 0 <= k < |r.value.query| ==> IsWordChar(r.value.query[k])
  {
    var before := Slice(value, 0, selectionStart);
    var run := TrailingWordRun(before);
    if run < |before| && before[|before| - run - 1] == '@' then
      Some(Mention(selectionStart - (run + 1), before[|before| - run..]))
    else None
  }

  /** The pattern `@[a-zA-Z0-9_]*$` matches `s` from position `i`. */
  ghost predicate PatternMatchesAt(s: string, i: int) {
    0 <= i < |s| && s[i] == '@' && forall k :: i < k < |s| ==> IsWordChar(s[k])
  }

  /**
   * Detection agrees with the pattern: a mention is found exactly when the pattern matches
   * the text before the cursor somewhere, and every match gives the same start and query,
   * so the leftmost match the regular expression reports is the one modelled.
   */
  lemma DetectMentionIsPattern(value: string, selectionStart: int)
    ensures var before, r := Slice(value, 0, selectionStart), DetectMention(value, selectionStart);
      && (r.Some? <==> exists i :: PatternMatchesAt(before, i))
      && forall i :: PatternMatchesAt(before, i) ==>
        r == Some(Mention(selectionStart - (|before| - i), before[i + 1..]))
  {
    var before := Slice(value, 0, selectionStart);
    var run := TrailingWordRun(before);
    forall i | PatternMatchesAt(before, i)
      ensures DetectMention(value, selectionStart) == Some(Mention(selectionStart - (|before| - i), before[i + 1..]))
    {
      assert !IsWordChar(before[i]);
      assert i < |before| - run;
      assert |before| - run - 1 <= i by {
        assert !IsWordChar(before[|before| - run - 1]);
      }
    }
    if DetectMention(value, selectionStart).Some? {
      assert PatternMatchesAt(before, |before| - run - 1);
    }
  }

  /** With an empty query the dropdown lists the first `min(20, |users|)` users. */
  function EmptyQueryUsers<T>(users: seq<T>): (r: seq<T>)
    ensures r == users[..Min(20, |users|)]
  {
    PrefixSlice(users, Max(5, Min(20, |users|)));
    Slice(users, 0, Max(5, Min(20, |users|)))
  }

  // ----- mention insertion -----

  /** The body after inserting a mention, and where the cursor goes. */
  datatype Insertion = Insertion(body: string, cursor: int)

  /** `insertMention`: the typed `@query` is replaced by `@username` and a space. */
  function InsertMention(body: string, mentionStart: int, currentPos: int, username: string): (r: Insertion)
    ensures |username| + 2 <= r.cursor <= |r.body|
    ensures r.body[r.cursor - |username| - 2..r.cursor] == "@" + username + " "
    ensures r.body[r.cursor..] == SliceFrom(body, currentPos)
  {
    var before := Slice(body, 0, mentionStart);
    var after := SliceFrom(body, currentPos);
    var mentionText := "@" + username;
    Insertion(before + mentionText + " " + after, |before| + |mentionText| + 1)
  }

  /**
   * With the mention start and the cursor inside the body, the text before the mention and
   * after the cursor is kept, and the cursor lands just after the inserted space.
   */
  lemma InsertMentionSplice(body: string, mentionStart: int, currentPos: int, username: string)
    requires 0 <= mentionStart <= currentPos <= |body|
    ensures var r := InsertMention(body, mentionStart, currentPos, username);
      && r.body == body[..mentionStart] + "@" + username + " " + body[currentPos..]
      && r.cursor == mentionStart + |username| + 2
      && r.body[..r.cursor] == body[..mentionStart] + "@" + username + " "
      && r.body[r.cursor..] == body[currentPos..]
  {
    var r := InsertMention(body, mentionStart, currentPos, username);
    var head := body[..mentionStart] + "@" + username + " ";
    assert r.body == head + body[currentPos..];
  }

  /**
   * Choosing a user for a detected mention replaces exactly the `@` and the typed query,
   * and at the new cursor no mention is open any more.
   */
  lemma ChosenMentionReplacesQuery(value: string, selectionStart: int, username: string)
    requires 0 <= selectionStart <= |value|
    requires DetectMention(value, selectionStart).Some?
    ensures var m := DetectMention(value, selectionStart).value;
      var r := InsertMention(value, m.start, selectionStart, username);
      && 0 <= m.start < selectionStart
      && value[m.start..selectionStart] == "@" + m.query
      && r.body == value[..m.start] + "@" + username + " " + value[selectionStart..]
      && DetectMention(r.body, r.cursor).None?
  {
    var m := DetectMention(value, selectionStart).value;
    var before := Slice(value, 0, selectionStart);
    assert before == value[..selectionStart];
    assert value[m.start..selectionStart] == before[m.start..];
    InsertMentionSplice(value, m.start, selectionStart, username);
    var r := InsertMention(value, m.start, selectionStart, username);
    var typed := Slice(r.body, 0, r.cursor);
    assert typed == r.body[..r.cursor];
    assert typed[|typed| - 1] == ' ';
    assert TrailingWordRun(typed) == 0;
  }

  // ----- note list text -----

  /** `replace(/\n/g, ' ')`. */
  function ReplaceNewlines(s: string): (r: string)
    ensures |r| == |s|
    ensures forall k :: 0 <= k < |s| ==> r[k] == if s[k] == '\n' then ' ' else s[k]
    decreases |s|
  {
    if |s| == 0 then []
    else ReplaceNewlines(s[..|s| - 1]) + [if s[|s| - 1] == '\n' then ' ' else s[|s| - 1]]
  }

  /**
   * `getNotePreview`: the first 80 characters with line breaks as spaces, or "Empty note"
   * for an empty body.
   */
  function GetNotePreview(body: string): (r: string)
    ensures '\n' !in r
    ensures 0 < |r| <= 80
    ensures body == [] ==> r == "Empty note"
    ensures body != [] ==>
      && |r| == Min(80, |body|)
      && forall k :: 0 <= k < |r| ==> r[k] == if body[k] == '\n' then ' ' else body[k]
  {
    PrefixSlice(body, 80);
    var preview := ReplaceNewlines(Slice(body, 0, 80));
    if |preview| > 0 then preview else "Empty note"
  }

  /**
   * `getNoteDisplayTitle`: a real title is shown as is; otherwise the preview, cut to 30
   * characters and an ellipsis when longer. The final "Untitled Note" fallback is never
   * reached, because a preview is never empty.
   */
  function GetNoteDisplayTitle(title: string, body: string): (r: string)
    ensures |title| > 0 && title != "Untitled Note" ==> r == title
    ensures (|title| == 0 || title == "Untitled Note") ==>
      var preview := GetNotePreview(body);
      && 0 < |r| <= 33
      && (|preview| <= 30 ==> r == preview)
      && (|preview| > 30 ==> |r| == 33 && r[..30] == preview[..30] && r[30..] == "...")
  {
    if |title| > 0 && title != "Untitled Note" then title
    else
      var preview := GetNotePreview(body);
      if |preview| > 30 then preview[..30] + "..."
      else if |preview| > 0 then preview
      else "Untitled Note"
  }
}
