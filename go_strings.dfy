/**
 * The three functions of Go's `strings` package that the domain-list code
 * calls: HasSuffix, Count (with a one-character separator) and TrimSpace.
 * Strings are modelled as sequences of Unicode scalar values; Go works on
 * UTF-8 bytes. For valid UTF-8 input the two agree: a suffix of the bytes
 * that is itself valid UTF-8 is a suffix of the characters, the dot and the
 * '*' are single ASCII bytes, and White_Space is decoded the same way.
 */
module GoStrings {

  /** `strings.HasSuffix`: `suffix` is the tail of `s`. */
  predicate HasSuffix(s: string, suffix: string) {
    |suffix| <= |s| && s[|s| - |suffix|..] == suffix
  }

  /** `strings.Count(s, string(c))`: the number of occurrences of `c` in `s`. */
  function Count(s: string, c: char): (n: nat)
    ensures n <= |s|
  {
    if s == [] then 0 else Count(s[..|s| - 1], c) + (if s[|s| - 1] == c then 1 else 0)
  }

  /** Count agrees with the multiplicity of `c` in the multiset of `s`'s characters. */
  lemma {:induction false} CountMultiplicity(s: string, c: char)
    ensures Count(s, c) == multiset(s)[c]
  {
    if s != [] {
      CountMultiplicity(s[..|s| - 1], c);
      assert s == s[..|s| - 1] + [s[|s| - 1]];
    }
  }

  /** Counting over a concatenation adds the counts of its parts. */
  lemma CountAppend(a: string, b: string, c: char)
    ensures Count(a + b, c) == Count(a, c) + Count(b, c)
  {
    CountMultiplicity(a + b, c);
    CountMultiplicity(a, c);
    CountMultiplicity(b, c);
    assert multiset(a + b) == multiset(a) + multiset(b);
  }

  /**
   * `unicode.IsSpace`, the predicate `strings.TrimSpace` trims by: the
   * characters with the Unicode White_Space property.
   */
  predicate IsSpace(c: char) {
    || ('\t' <= c <= '\r')
    || c == ' '
    || c == '\U{0085}'
    || c == '\U{00A0}'
    || c == '\U{1680}'
    || ('\U{2000}' <= c <= '\U{200A}')
    || c == '\U{2028}'
    || c == '\U{2029}'
    || c == '\U{202F}'
    || c == '\U{205F}'
    || c == '\U{3000}'
  }

  /** The number of white-space characters `s` starts with. */
  function LeadingSpaces(s: string): (i: nat)
    ensures i <= |s|
    ensures forall k :: 0 <= k < i ==> IsSpace(s[k])
    ensures i == |s| || !IsSpace(s[i])
  {
    if s == [] || !IsSpace(s[0]) then 0 else 1 + LeadingSpaces(s[1..])
  }

  /** Where the white space that `s` ends with begins, looking no further left than `from`. */
  function TrailingStart(s: string, from: nat): (j: nat)
    requires from <= |s|
    ensures from <= j <= |s|
    ensures forall k :: j <= k < |s| ==> IsSpace(s[k])
    ensures j == from || !IsSpace(s[j - 1])
  {
    if |s| == from || !IsSpace(s[|s| - 1]) then |s| else TrailingStart(s[..|s| - 1], from)
  }

  /**
   * `strings.TrimSpace`: the slice of `s` left after cutting off its leading
   * and its trailing white space.
   */
  function TrimSpace(s: string): (r: string)
    ensures r == [] || (!IsSpace(r[0]) && !IsSpace(r[|r| - 1]))
  {
    var i := LeadingSpaces(s);
    s[i..TrailingStart(s, i)]
  }

  /**
   * What trimming keeps: a contiguous run of `s` with only white space before
   * and after it, which is empty exactly when `s` is all white space.
   */
  lemma TrimSpaceSlice(s: string)
    ensures var r, i := TrimSpace(s), LeadingSpaces(s);
      && i + |r| <= |s| && r == s[i..i + |r|]
      && (forall k :: 0 <= k < i ==> IsSpace(s[k]))
      && (forall k :: i + |r| <= k < |s| ==> IsSpace(s[k]))
      && (r == [] <==> forall k :: 0 <= k < |s| ==> IsSpace(s[k]))
  {
  }
}
