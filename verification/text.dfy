/**
 Character-level helpers shared by the typing session and the saved-text
 store: Python's `str.strip()` with no arguments, and the test for the
 Arabic Unicode block that drives script detection.
 */
module Text {

  /** Python's `str.isspace()`: the code points whose bidirectional type is
      WS, B or S, or whose general category is Zs. */
  predicate IsSpace(c: char) {
    var n := c as int;
    || n == 0x20
    || (0x09 <= n <= 0x0D)
    || (0x1C <= n <= 0x1F)
    || n == 0x85
    || n == 0xA0
    || n == 0x1680
    || (0x2000 <= n <= 0x200A)
    || n == 0x2028
    || n == 0x2029
    || n == 0x202F
    || n == 0x205F
    || n == 0x3000
  }

  ghost predicate AllSpace(s: string) {
    forall i :: 0 <= i < |s| ==> IsSpace(s[i])
  }

  /** The code point lies in the Arabic block U+0600..U+06FF. */
  predicate IsArabic(c: char) {
    0x0600 <= c as int <= 0x06FF
  }

  /** Some character of `s` lies in the Arabic block. */
  function AnyArabic(s: string): (r: bool)
    ensures r <==> exists i :: 0 <= i < |s| && IsArabic(s[i])
  {
    if s == [] then false
    else if IsArabic(s[0]) then true
    else
      var rest := AnyArabic(s[1..]);
      assert forall i :: 1 <= i < |s| ==> s[i] == s[1..][i - 1];
      rest
  }

  /** Number of whitespace characters at the front of `s`. */
  function LeadingSpaces(s: string): (k: nat)
    ensures k <= |s|
    ensures forall i :: 0 <= i < k ==> IsSpace(s[i])
    ensures k < |s| ==> !IsSpace(s[k])
  {
    if s != [] && IsSpace(s[0]) then 1 + LeadingSpaces(s[1..]) else 0
  }

  /** Number of whitespace characters at the back of `s`, not reaching
      below index `lo`. */
  function TrailingSpaces(s: string, lo: nat): (k: nat)
    requires lo <= |s|
    ensures k <= |s| - lo
    ensures forall i :: |s| - k <= i < |s| ==> IsSpace(s[i])
    ensures lo < |s| - k ==> !IsSpace(s[|s| - k - 1])
  {
    if lo < |s| && IsSpace(s[|s| - 1]) then 1 + TrailingSpaces(s[..|s| - 1], lo) else 0
  }

  /** Python's `s.strip()`: what is left of `s` once whitespace is cut from
      both ends. It is empty exactly when `s` is all whitespace, and otherwise
      it neither starts nor ends with whitespace. */
  function Strip(s: string): (r: string)
    ensures |r| <= |s|
    ensures r == [] <==> AllSpace(s)
    ensures r != [] ==> !IsSpace(r[0]) && !IsSpace(r[|r| - 1])
    ensures var lead := LeadingSpaces(s);
            && lead + |r| <= |s| && s[lead..lead + |r|] == r
            && AllSpace(s[..lead]) && AllSpace(s[lead + |r|..])
  {
    var lead := LeadingSpaces(s);
    s[lead..|s| - TrailingSpaces(s, lead)]
  }

  /** Stripping is idempotent: a stripped text (what the store keeps and what
      the worker types) is left unchanged by a second strip. */
  lemma StripIdempotent(s: string)
    ensures Strip(Strip(s)) == Strip(s)
  {
    var r := Strip(s);
    if r != [] {
      assert LeadingSpaces(r) == 0;
      assert TrailingSpaces(r, 0) == 0;
    }
  }

  /** A non-empty text that neither starts nor ends with whitespace. */
  predicate Unpadded(s: string) {
    s != [] && !IsSpace(s[0]) && !IsSpace(s[|s| - 1])
  }

  /** A text is its own strip exactly when it is empty or unpadded. */
  lemma StripKeeps(s: string)
    ensures Strip(s) == s <==> s == [] || Unpadded(s)
  {
    if Unpadded(s) {
      assert LeadingSpaces(s) == 0;
      assert TrailingSpaces(s, 0) == 0;
      assert s[0..|s|] == s;
    }
  }
}
