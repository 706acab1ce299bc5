/**
 * The string handling the handlers rely on: `String.prototype.trim` for
 * titles, and the text-to-integer coercion the engine applies when a path
 * id (always a string) is compared with the integer `id` column.
 */
module Text {
  import opened Wrappers

  /** ECMAScript's WhiteSpace and LineTerminator code points, the set `trim` strips. */
  predicate IsWhitespace(c: char) {
    var n := c as int;
    n == 0x09 || n == 0x0A || n == 0x0B || n == 0x0C || n == 0x0D || n == 0x20 || n == 0xA0
    || n == 0x1680 || (0x2000 <= n <= 0x200A) || n == 0x2028 || n == 0x2029
    || n == 0x202F || n == 0x205F || n == 0x3000 || n == 0xFEFF
  }

  ghost predicate AllWhitespace(s: string) {
    forall i :: 0 <= i < |s| ==> IsWhitespace(s[i])
  }

  /** The first index at or after i that does not hold whitespace (|s| when there is none). */
  function SkipLeading(s: string, i: nat): (j: nat)
    requires i <= |s|
    ensures i <= j <= |s|
    ensures forall k :: i <= k < j ==> IsWhitespace(s[k])
    ensures j < |s| ==> !IsWhitespace(s[j])
    decreases |s| - i
  {
    if i < |s| && IsWhitespace(s[i]) then SkipLeading(s, i + 1) else i
  }

  /** The end of s[lo..j] once its trailing whitespace is dropped. */
  function SkipTrailing(s: string, lo: nat, j: nat): (e: nat)
    requires lo <= j <= |s|
    ensures lo <= e <= j
    ensures forall k :: e <= k < j ==> IsWhitespace(s[k])
    ensures lo < e ==> !IsWhitespace(s[e - 1])
  {
    if lo < j && IsWhitespace(s[j - 1]) then SkipTrailing(s, lo, j - 1) else j
  }

  /** `s.trim()`: neither end of the result is whitespace, and it is empty exactly when s is all whitespace. */
  function Trim(s: string): (r: string)
    ensures |r| <= |s|
    ensures r != [] ==> !IsWhitespace(r[0]) && !IsWhitespace(r[|r| - 1])
    ensures r == [] <==> AllWhitespace(s)
  {
    var a := SkipLeading(s, 0);
    var b := SkipTrailing(s, a, |s|);
    assert a == b ==> AllWhitespace(s);
    s[a..b]
  }

  /** s is the whitespace Trim removed, then Trim(s), then more whitespace. */
  lemma TrimSplit(s: string) returns (i: nat)
    ensures i + |Trim(s)| <= |s|
    ensures s[i..i + |Trim(s)|] == Trim(s)
    ensures forall k :: 0 <= k < i ==> IsWhitespace(s[k])
    ensures forall k :: i + |Trim(s)| <= k < |s| ==> IsWhitespace(s[k])
  {
    i := SkipLeading(s, 0);
  }

  /** A run of whitespace from i that ends at a non-whitespace character (or the end) is exactly what SkipLeading skips. */
  lemma {:induction false} SkipLeadingRun(s: string, i: nat, j: nat)
    requires i <= j <= |s|
    requires forall k :: i <= k < j ==> IsWhitespace(s[k])
    requires j < |s| ==> !IsWhitespace(s[j])
    ensures SkipLeading(s, i) == j
    decreases j - i
  {
    if i < j {
      SkipLeadingRun(s, i + 1, j);
    }
  }

  /** A run of whitespace before j that starts after a non-whitespace character (or at lo) is exactly what SkipTrailing drops. */
  lemma {:induction false} SkipTrailingRun(s: string, lo: nat, e: nat, j: nat)
    requires lo <= e <= j <= |s|
    requires forall k :: e <= k < j ==> IsWhitespace(s[k])
    requires lo < e ==> !IsWhitespace(s[e - 1])
    ensures SkipTrailing(s, lo, j) == e
    decreases j - e
  {
    if e < j {
      SkipTrailingRun(s, lo, e, j - 1);
    }
  }

  /** Trim is determined by its contract: whitespace, then m with non-whitespace ends, then whitespace, trims to m. */
  lemma TrimPadded(w1: string, m: string, w2: string)
    requires AllWhitespace(w1) && AllWhitespace(w2)
    requires m != [] ==> !IsWhitespace(m[0]) && !IsWhitespace(m[|m| - 1])
    ensures Trim(w1 + m + w2) == m
  {
    var s := w1 + m + w2;
    var e := |w1| + |m|;
    forall k | 0 <= k < |w1| ensures IsWhitespace(s[k]) {
      assert s[k] == w1[k];
    }
    forall k | e <= k < |s| ensures IsWhitespace(s[k]) {
      assert s[k] == w2[k - e];
    }
    if m == [] {
      assert AllWhitespace(s);
    } else {
      assert s[|w1|] == m[0];
      assert s[e - 1] == m[|m| - 1];
      SkipLeadingRun(s, 0, |w1|);
      SkipTrailingRun(s, |w1|, e, |s|);
      assert s[|w1|..e] == m;
    }
  }

  /** Trimming twice is trimming once. */
  lemma TrimIdempotent(s: string)
    ensures Trim(Trim(s)) == Trim(s)
  {
    var r := Trim(s);
    if r != [] {
      assert SkipLeading(r, 0) == 0;
      assert SkipTrailing(r, 0, |r|) == |r|;
    }
  }

  predicate IsDigit(c: char) {
    '0' <= c <= '9'
  }

  ghost predicate AllDigits(s: string) {
    forall i :: 0 <= i < |s| ==> IsDigit(s[i])
  }

  /** The value of a string of decimal digits, most significant first. */
  function DigitsValue(s: string): nat
    requires AllDigits(s)
  {
    if s == [] then 0
    else DigitsValue(s[..|s| - 1]) * 10 + (s[|s| - 1] as int - '0' as int)
  }

  /**
   * The integer a path id stands for when the engine compares it with the `id`
   * column: a non-empty run of decimal digits; any other text matches no row.
   */
  function ParseId(s: string): (r: Option<int>)
    ensures r.Some? <==> s != [] && AllDigits(s)
    ensures r.Some? ==> r.value >= 0
  {
    if s != [] && forall i :: 0 <= i < |s| ==> IsDigit(s[i]) then Some(DigitsValue(s)) else None
  }

  function Digit(d: nat): (c: char)
    requires d < 10
    ensures IsDigit(c) && c as int - '0' as int == d
  {
    ('0' as int + d) as char
  }

  /** How a client writes an id into a path: its decimal digits. */
  function Decimal(n: nat): (s: string)
    ensures s != [] && AllDigits(s)
  {
    if n < 10 then [Digit(n)] else Decimal(n / 10) + [Digit(n % 10)]
  }

  /** An id written in decimal parses back to itself. */
  lemma {:induction false} ParseDecimal(n: nat)
    ensures ParseId(Decimal(n)) == Some(n)
  {
    var s := Decimal(n);
    if n >= 10 {
      ParseDecimal(n / 10);
      assert s[..|s| - 1] == Decimal(n / 10);
      assert DigitsValue(s[..|s| - 1]) == n / 10;
      assert s[|s| - 1] as int - '0' as int == n % 10;
      assert DigitsValue(s) == n / 10 * 10 + n % 10;
    } else {
      assert s[..|s| - 1] == [];
    }
  }
}
