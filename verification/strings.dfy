/** Python string primitives the relay relies on: the whitespace class and `str.strip()`. */
module Strings {

  /** Python's `str.isspace()` on one character. The same class is what `\s`
      matches in a `str` regular expression, so one definition serves both. */
  predicate IsSpace(c: char) {
    var n := c as int;
    || (0x09 <= n <= 0x0D)
    || (0x1C <= n <= 0x20)
    || n == 0x85 || n == 0xA0 || n == 0x1680
    || (0x2000 <= n <= 0x200A)
    || n == 0x2028 || n == 0x2029 || n == 0x202F || n == 0x205F || n == 0x3000
  }

  /** Among ASCII characters the class is space, the C whitespace controls
      and the four information separators; the no-break and ideographic
      spaces also belong to it. */
  lemma SpaceClass(c: char)
    ensures c as int < 0x80 ==>
      (IsSpace(c) <==> c in " \t\n\r\U{000B}\U{000C}\U{001C}\U{001D}\U{001E}\U{001F}")
    ensures c == '\U{00A0}' || c == '\U{3000}' ==> IsSpace(c)
  {
  }

  predicate AllSpace(s: string) {
    forall k :: 0 <= k < |s| ==> IsSpace(s[k])
  }

  predicate HasPrefix(s: string, prefix: string) {
    |prefix| <= |s| && s[..|prefix|] == prefix
  }

  /** Index of the first non-whitespace character of `s` at or after `i`,
      or `|s|` when there is none. */
  function SkipSpace(s: string, i: nat): (k: nat)
    requires i <= |s|
    decreases |s| - i
    ensures i <= k <= |s|
    ensures forall m :: i <= m < k ==> IsSpace(s[m])
    ensures k < |s| ==> !IsSpace(s[k])
  {
    if i < |s| && IsSpace(s[i]) then SkipSpace(s, i + 1) else i
  }

  /** Index just after the last non-whitespace character of `s[lo..j]`, or
      `lo` when there is none. */
  function SkipSpaceBack(s: string, lo: nat, j: nat): (k: nat)
    requires lo <= j <= |s|
    decreases j
    ensures lo <= k <= j
    ensures forall m :: k <= m < j ==> IsSpace(s[m])
    ensures lo < k ==> !IsSpace(s[k - 1])
  {
    if lo < j && IsSpace(s[j - 1]) then SkipSpaceBack(s, lo, j - 1) else j
  }

  /** `s[i..j]` is what stripping `s` must leave: everything outside it is
      whitespace and, unless it is empty, it starts and ends with a
      non-whitespace character. */
  predicate StrippedAt(s: string, i: int, j: int) {
    && 0 <= i <= j <= |s|
    && (forall k :: 0 <= k < i ==> IsSpace(s[k]))
    && (forall k :: j <= k < |s| ==> IsSpace(s[k]))
    && (i < j ==> !IsSpace(s[i]) && !IsSpace(s[j - 1]))
  }

  /** Python's `str.strip()` with no argument. */
  function Strip(s: string): (r: string)
    ensures |r| <= |s|
    ensures r == [] || (!IsSpace(r[0]) && !IsSpace(r[|r| - 1]))
    ensures StrippedAt(s, SkipSpace(s, 0), SkipSpace(s, 0) + |r|)
    ensures r == s[SkipSpace(s, 0)..SkipSpace(s, 0) + |r|]
  {
    var i := SkipSpace(s, 0);
    var j := SkipSpaceBack(s, i, |s|);
    s[i..j]
  }

  /** `StrippedAt` pins down `Strip` completely: any split of `s` into
      whitespace, a core without whitespace ends, and whitespace gives the
      core as the stripped string. */
  lemma StripIsUnique(s: string, i: int, j: int)
    requires StrippedAt(s, i, j)
    ensures Strip(s) == s[i..j]
  {
    var l := SkipSpace(s, 0);
    if i < j {
      assert l == i;
      assert SkipSpaceBack(s, i, |s|) == j;
    } else {
      // the whole of s is whitespace, so nothing survives
      assert forall k :: 0 <= k < |s| ==> IsSpace(s[k]);
      assert l == |s|;
    }
  }

  /** Stripping twice is stripping once. */
  lemma StripIdempotent(s: string)
    ensures Strip(Strip(s)) == Strip(s)
  {
    var r := Strip(s);
    StripIsUnique(r, 0, |r|);
  }

  /** A string without whitespace at either end is left alone. */
  lemma StripKeepsTrimmed(s: string)
    requires s == [] || (!IsSpace(s[0]) && !IsSpace(s[|s| - 1]))
    ensures Strip(s) == s
  {
    StripIsUnique(s, 0, |s|);
  }
}
