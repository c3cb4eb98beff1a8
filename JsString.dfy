/** The few ECMAScript string and array primitives the engine relies on. */
module JsString {
  import opened Wrappers

  /** Resolves a relative `slice` index: negative counts from the end, then clamp to `[0, len]`. */
  function RelativeIndex(k: int, len: nat): (r: nat)
    ensures r <= len
    ensures 0 <= k <= len ==> r == k
    ensures k < 0 ==> r == if len + k < 0 then 0 else len + k
    ensures k > len ==> r == len
  {
    if k < 0 then (if len + k < 0 then 0 else len + k)
    else if k < len then k else len
  }

  /** `s.slice(start, end)` for strings and arrays alike. */
  function Slice<T>(s: seq<T>, start: int, end: int): (r: seq<T>)
    ensures 0 <= start <= end <= |s| ==> r == s[start..end]
    ensures |r| <= |s|
  {
    var from := RelativeIndex(start, |s|);
    var to := RelativeIndex(end, |s|);
    if from < to then s[from..to] else []
  }

  /** `s.slice(start)`. */
  function SliceFrom<T>(s: seq<T>, start: int): (r: seq<T>)
    ensures 0 <= start <= |s| ==> r == s[start..]
    ensures start < 0 ==> r == s[RelativeIndex(start, |s|)..]
    ensures start > |s| ==> r == []
  {
    Slice(s, start, |s|)
  }

  /** Truthiness of an optional string: present and non-empty. */
  predicate Truthy(s: Option<string>) {
    s.Some? && s.value != []
  }

  /** Truthiness of an optional number: present and non-zero. */
  predicate TruthyNumber(n: Option<int>) {
    n.Some? && n.value != 0
  }

  function DigitChar(d: nat): (c: char)
    requires d < 10
    ensures '0' <= c <= '9' && DigitValue(c) == d
  {
    "0123456789"[d]
  }

  /** The value of a decimal digit character. */
  function DigitValue(c: char): nat
    requires '0' <= c <= '9'
  {
    c as int - '0' as int
  }

  predicate IsDigits(s: string) {
    forall k :: 0 <= k < |s| ==> '0' <= s[k] <= '9'
  }

  /** The number a string of decimal digits denotes, read most significant digit first. */
  function DigitsValue(s: string): nat
    requires IsDigits(s)
    decreases |s|
  {
    if |s| == 0 then 0 else DigitsValue(s[..|s| - 1]) * 10 + DigitValue(s[|s| - 1])
  }

  /** Decimal rendering of a natural number, as `Number.prototype.toString` gives it. */
  function NatToString(n: nat): (r: string)
    ensures |r| > 0
    decreases n
  {
    if n < 10 then [DigitChar(n)] else NatToString(n / 10) + [DigitChar(n % 10)]
  }

  /** Decimal rendering of an integer, with a leading `-` for negative values. */
  function IntToString(n: int): (r: string)
    ensures |r| > 0
  {
    if n < 0 then "-" + NatToString(-n) else NatToString(n)
  }

  /** The rendering of a natural number is all digits and reads back as that number. */
  lemma {:induction false} NatToStringReadsBack(n: nat)
    ensures IsDigits(NatToString(n)) && DigitsValue(NatToString(n)) == n
    decreases n
  {
    if n >= 10 {
      NatToStringReadsBack(n / 10);
      var r := NatToString(n);
      assert r[..|r| - 1] == NatToString(n / 10);
    }
  }

  /**
   * The rendering of an integer starts with `-` exactly when it is negative, and the rest
   * reads back as its magnitude; so different integers render differently.
   */
  lemma IntToStringReadsBack(n: int)
    ensures var r := IntToString(n);
      && (r[0] == '-' <==> n < 0)
      && (n < 0 ==> IsDigits(r[1..]) && DigitsValue(r[1..]) == -n)
      && (n >= 0 ==> IsDigits(r) && DigitsValue(r) == n)
  {
    var r := IntToString(n);
    if n < 0 {
      var digits := NatToString(-n);
      NatToStringReadsBack(-n);
      assert r == "-" + digits;
      assert r[1..] == digits;
    } else {
      NatToStringReadsBack(n);
      assert r == NatToString(n);
      assert '0' <= r[0] <= '9';
    }
  }

  lemma IntToStringInjective(m: int, n: int)
    requires IntToString(m) == IntToString(n)
    ensures m == n
  {
    IntToStringReadsBack(m);
    IntToStringReadsBack(n);
  }
}
