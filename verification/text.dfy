/** The two string primitives the swarm code leans on: Rust's `str::trim`,
    which strips characters with the Unicode White_Space property from both
    ends, and `eq_ignore_ascii_case`, which folds only `A`-`Z`. */
module Text {

  /** The Unicode White_Space property, which `char::is_whitespace` and
      therefore `str::trim` use. */
  predicate IsWhitespace(c: char) {
    var n := c as int;
    || (0x09 <= n <= 0x0D)
    || n == 0x20
    || n == 0x85
    || n == 0xA0
    || n == 0x1680
    || (0x2000 <= n <= 0x200A)
    || n == 0x2028
    || n == 0x2029
    || n == 0x202F
    || n == 0x205F
    || n == 0x3000
  }

  /** The first index at or after `i` that holds a non-whitespace character,
      or `|s|` when there is none. */
  function SkipLeading(s: string, i: nat): (k: nat)
    requires i <= |s|
    ensures i <= k <= |s|
    ensures forall m | i <= m < k :: IsWhitespace(s[m])
    ensures k < |s| ==> !IsWhitespace(s[k])
    decreases |s| - i
  {
    if i < |s| && IsWhitespace(s[i]) then SkipLeading(s, i + 1) else i
  }

  /** The largest end `k` in `[lo, j]` such that `s[lo..k]` does not end with
      whitespace. */
  function SkipTrailing(s: string, lo: nat, j: nat): (k: nat)
    requires lo <= j <= |s|
    ensures lo <= k <= j
    ensures forall m | k <= m < j :: IsWhitespace(s[m])
    ensures k > lo ==> !IsWhitespace(s[k - 1])
    decreases j
  {
    if j > lo && IsWhitespace(s[j - 1]) then SkipTrailing(s, lo, j - 1) else j
  }

  /** Rust's `str::trim`. */
  function Trim(s: string): (r: string)
    ensures |r| <= |s|
    ensures |r| > 0 ==> !IsWhitespace(r[0]) && !IsWhitespace(r[|r| - 1])
    ensures r == [] <==> forall m | 0 <= m < |s| :: IsWhitespace(s[m])
  {
    var lo := SkipLeading(s, 0);
    var hi := SkipTrailing(s, lo, |s|);
    s[lo..hi]
  }

  /** `s.trim().is_empty()`: the string holds nothing but whitespace (the
      last postcondition of `Trim` shows the two agree). */
  predicate IsBlank(s: string) {
    forall m | 0 <= m < |s| :: IsWhitespace(s[m])
  }

  function ToAsciiLower(c: char): char {
    if 'A' <= c <= 'Z' then (c as int + 32) as char else c
  }

  /** Rust's `eq_ignore_ascii_case`, stated per character: equal lengths and
      equal characters once `A`-`Z` are mapped to `a`-`z`. */
  predicate EqIgnoreAsciiCase(a: string, b: string) {
    && |a| == |b|
    && forall i | 0 <= i < |a| :: ToAsciiLower(a[i]) == ToAsciiLower(b[i])
  }

  /** ASCII case-insensitive equality is an equivalence relation, so a lookup
      by name does not depend on which side is the query. */
  lemma EqIgnoreAsciiCaseIsEquivalence(a: string, b: string, c: string)
    ensures EqIgnoreAsciiCase(a, a)
    ensures EqIgnoreAsciiCase(a, b) ==> EqIgnoreAsciiCase(b, a)
    ensures EqIgnoreAsciiCase(a, b) && EqIgnoreAsciiCase(b, c) ==> EqIgnoreAsciiCase(a, c)
  {
  }

  /** Trimming removes exactly the whitespace padding around a core that
      neither starts nor ends with whitespace, so `Trim` is idempotent. */
  lemma TrimPadded(pre: string, core: string, post: string)
    requires forall i | 0 <= i < |pre| :: IsWhitespace(pre[i])
    requires forall i | 0 <= i < |post| :: IsWhitespace(post[i])
    requires |core| > 0 && !IsWhitespace(core[0]) && !IsWhitespace(core[|core| - 1])
    ensures Trim(pre + core + post) == core
  {
    var s := pre + core + post;
    var lo := SkipLeading(s, 0);
    assert s[|pre|] == core[0];
    assert lo == |pre|;
    var hi := SkipTrailing(s, lo, |s|);
    assert s[|pre| + |core| - 1] == core[|core| - 1];
    assert hi == |pre| + |core|;
    assert s[lo..hi] == core;
  }
}
