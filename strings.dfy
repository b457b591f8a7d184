/** The string tests the validators use (Apache Commons StringUtils.isNotBlank). */
module Strings {

  /**
   * java.lang.Character.isWhitespace: the ASCII controls \t \n \u000B \f \r and
   * \u001C-\u001F, and the Unicode space, line and paragraph separators other
   * than the non-breaking ones (U+00A0, U+2007, U+202F).
   */
  predicate IsWhitespace(c: char) {
    var k := c as int;
    (9 <= k <= 13) || (0x1C <= k <= 0x20) || k == 0x1680
    || (0x2000 <= k <= 0x2006) || (0x2008 <= k <= 0x200A)
    || k == 0x2028 || k == 0x2029 || k == 0x205F || k == 0x3000
  }

  /** StringUtils.isBlank: empty (or null) or whitespace only. */
  predicate IsBlank(s: string) {
    forall i :: 0 <= i < |s| ==> IsWhitespace(s[i])
  }

  /** StringUtils.isNotBlank. */
  predicate IsNotBlank(s: string) {
    !IsBlank(s)
  }

  lemma NotBlankHasVisibleChar(s: string)
    ensures IsNotBlank(s) <==> exists i :: 0 <= i < |s| && !IsWhitespace(s[i])
    ensures IsNotBlank(s) ==> |s| > 0
  {
  }

  lemma BlankExamples()
    ensures IsBlank("") && IsBlank(" \t\n") && IsNotBlank(" a ")
    ensures IsNotBlank("\U{00A0}")
  {
    assert !IsWhitespace(" a "[1]);
    assert !IsWhitespace("\U{00A0}"[0]);
  }
}
