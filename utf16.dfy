/**
  .NET strings as sequences of UTF-16 code units, and `string.Trim()`.

  A C# `char` is a 16-bit code unit (lone surrogates included), which Dafny's
  `char` cannot hold, so code units are numbers below 0x10000.
 */
module Utf16 {

  type CodeUnit = c: int | 0 <= c < 0x1_0000

  type Utf16String = seq<CodeUnit>

  /** `char.IsWhiteSpace`: the code units `string.Trim()` removes. */
  predicate IsWhiteSpace(c: CodeUnit) {
    || 0x09 <= c <= 0x0D
    || c == 0x20
    || c == 0x85
    || c == 0xA0
    || c == 0x1680
    || 0x2000 <= c <= 0x200A
    || c == 0x2028
    || c == 0x2029
    || c == 0x202F
    || c == 0x205F
    || c == 0x3000
  }

  predicate AllWhiteSpace(s: Utf16String) {
    forall k :: 0 <= k < |s| ==> IsWhiteSpace(s[k])
  }

  /** Every code unit of s[lo..hi] is white space. */
  predicate WhiteSpaceBetween(s: Utf16String, lo: int, hi: int) {
    forall k :: lo <= k < hi && 0 <= k < |s| ==> IsWhiteSpace(s[k])
  }

  /** No white space at either end. */
  predicate IsTrimmed(s: Utf16String) {
    s == [] || (!IsWhiteSpace(s[0]) && !IsWhiteSpace(s[|s| - 1]))
  }

  /** The forward scan: the first index at or after i that is not white space (|s| if none). */
  function SkipWhiteSpace(s: Utf16String, i: nat): (k: nat)
    requires i <= |s|
    ensures i <= k <= |s|
    ensures WhiteSpaceBetween(s, i, k)
    ensures k < |s| ==> !IsWhiteSpace(s[k])
    decreases |s| - i
  {
    if i == |s| || !IsWhiteSpace(s[i]) then i else SkipWhiteSpace(s, i + 1)
  }

  /** The backward scan, never below lo: the end of the last non-white code unit at or after lo. */
  function SkipWhiteSpaceBack(s: Utf16String, lo: nat, j: nat): (k: nat)
    requires lo <= j <= |s|
    ensures lo <= k <= j
    ensures WhiteSpaceBetween(s, k, j)
    ensures k > lo ==> !IsWhiteSpace(s[k - 1])
    decreases j
  {
    if j == lo || !IsWhiteSpace(s[j - 1]) then j else SkipWhiteSpaceBack(s, lo, j - 1)
  }

  /** Where the trimmed text starts. */
  function TrimStartIndex(s: Utf16String): nat {
    SkipWhiteSpace(s, 0)
  }

  /**
    `string.Trim()`: scan forward over leading white space, then backward over
    trailing white space down to where the first scan stopped, and keep what
    lies between.
   */
  function Trim(s: Utf16String): (r: Utf16String)
    ensures IsTrimmed(r)
    ensures var i := TrimStartIndex(s);
      && i + |r| <= |s|
      && r == s[i..i + |r|]
      && WhiteSpaceBetween(s, 0, i)
      && WhiteSpaceBetween(s, i + |r|, |s|)
  {
    var i := SkipWhiteSpace(s, 0);
    var j := SkipWhiteSpaceBack(s, i, |s|);
    s[i..j]
  }

  /** Trim leaves nothing exactly when everything was white space. */
  lemma TrimEmpty(s: Utf16String)
    ensures Trim(s) == [] <==> AllWhiteSpace(s)
  {
  }

  /**
    Trim is determined by what it promises: whatever white space surrounds a
    trimmed core, trimming returns exactly that core.
   */
  lemma TrimCharacterization(a: Utf16String, m: Utf16String, b: Utf16String)
    requires AllWhiteSpace(a) && AllWhiteSpace(b) && IsTrimmed(m)
    ensures Trim(a + m + b) == m
  {
    var s := a + m + b;
    assert forall k :: 0 <= k < |a| ==> s[k] == a[k];
    assert forall k :: |a| <= k < |a| + |m| ==> s[k] == m[k - |a|];
    assert forall k :: |a| + |m| <= k < |s| ==> s[k] == b[k - |a| - |m|];
    var i := SkipWhiteSpace(s, 0);
    if m == [] {
      assert i == |s|;
    } else {
      assert s[|a|] == m[0] && s[|a| + |m| - 1] == m[|m| - 1];
      assert i == |a|;
      assert SkipWhiteSpaceBack(s, i, |s|) == |a| + |m|;
      assert s[|a|..|a| + |m|] == m;
    }
  }

  /** Trimming twice is trimming once. */
  lemma TrimIdempotent(s: Utf16String)
    ensures Trim(Trim(s)) == Trim(s)
  {
    var r := Trim(s);
    var empty: Utf16String := [];
    assert empty + r + empty == r;
    TrimCharacterization(empty, r, empty);
  }
}
