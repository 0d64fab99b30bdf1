/** Bytes, line numbers and the plain substring test `str::contains` performs. */
module Text {

  /** One byte of raw diff content. */
  type Byte = bv8

  /** A line number as git2 hands it out (`u32`). */
  newtype U32 = x: int | 0 <= x < 0x1_0000_0000

  /** `pat` occurs in `text` starting at position `i`. */
  ghost predicate OccursAt(pat: string, text: string, i: int)
  {
    0 <= i && i + |pat| <= |text| && text[i..i + |pat|] == pat
  }

  /** `pat` is a contiguous piece of `text` (the empty string is a piece of every text). */
  ghost predicate IsSubstringOf(pat: string, text: string)
  {
    exists i :: OccursAt(pat, text, i)
  }

  /** Dropping the first character of `text` keeps every occurrence except one at 0. */
  lemma SubstringOfTail(pat: string, text: string)
    requires |text| > 0 && !OccursAt(pat, text, 0)
    ensures IsSubstringOf(pat, text) <==> IsSubstringOf(pat, text[1..])
  {
    if IsSubstringOf(pat, text) {
      var i :| OccursAt(pat, text, i);
      assert text[1..][i - 1..i - 1 + |pat|] == text[i..i + |pat|];
      assert OccursAt(pat, text[1..], i - 1);
    }
    if IsSubstringOf(pat, text[1..]) {
      var i :| OccursAt(pat, text[1..], i);
      assert text[1..][i..i + |pat|] == text[i + 1..i + 1 + |pat|];
      assert OccursAt(pat, text, i + 1);
    }
  }

  /**
   * `text.contains(pat)` for a plain string pattern: a left-to-right scan
   * that succeeds at the first position where `pat` occurs.
   */
  function Contains(text: string, pat: string): (r: bool)
    ensures r <==> IsSubstringOf(pat, text)
    decreases |text|
  {
    if |pat| > |text| then
      false
    else if text[..|pat|] == pat then
      assert OccursAt(pat, text, 0);
      true
    else
      SubstringOfTail(pat, text);
      Contains(text[1..], pat)
  }

  /** The empty pattern occurs in every text. */
  lemma EmptyPatternEverywhere(text: string)
    ensures Contains(text, "")
  {
    assert OccursAt("", text, 0);
  }
}
