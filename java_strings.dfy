/** The few pieces of Java's string library that the converter's decisions
    depend on: blank tests, case-insensitive comparison and the conversion of a
    possibly-null reference when it is concatenated. */
module JavaStrings {
  import opened Wrappers

  /** `Character.isWhitespace`: the Unicode space, line and paragraph
      separators except the three non-breaking spaces (U+00A0, U+2007, U+202F),
      plus U+0009..U+000D and U+001C..U+001F. */
  predicate IsWhitespace(c: char) {
    || ('\t' <= c <= '\r')
    || ('\U{001C}' <= c <= ' ')
    || c == '\U{1680}'
    || ('\U{2000}' <= c <= '\U{2006}')
    || ('\U{2008}' <= c <= '\U{200A}')
    || c == '\U{2028}'
    || c == '\U{2029}'
    || c == '\U{205F}'
    || c == '\U{3000}'
  }

  /** `StringUtils.isBlank` on a non-null string: empty or whitespace only. */
  predicate IsBlankText(s: string) {
    forall i :: 0 <= i < |s| ==> IsWhitespace(s[i])
  }

  /** `StringUtils.isBlank`: null, empty or whitespace only. */
  predicate IsBlank(s: Option<string>): (r: bool)
    ensures s.None? || s == Some("") ==> r
    ensures s.Some? && (exists i :: 0 <= i < |s.value| && !IsWhitespace(s.value[i])) ==> !r
  {
    s.None? || IsBlankText(s.value)
  }

  /** The case folding under which Java's `String.equalsIgnoreCase` identifies two
      characters when one of them is ASCII: ASCII letters ignoring case, plus the
      four non-ASCII characters whose Java upper or lower case is an ASCII letter
      (dotted and dotless I, the Kelvin sign and the long s). */
  function FoldCase(c: char): char {
    if 'A' <= c <= 'Z' then (c as int + 32) as char
    else if c == '\U{0130}' || c == '\U{0131}' then 'i'
    else if c == '\U{212A}' then 'k'
    else if c == '\U{017F}' then 's'
    else c
  }

  /** `String.equalsIgnoreCase`, exact whenever one side is ASCII, as every
      comparison in the converter is (a MIME type name or "attachment"
      against the message's text). */
  predicate EqualsIgnoreCase(a: string, b: string): (r: bool)
    ensures a == b ==> r
    ensures r ==> |a| == |b|
  {
    |a| == |b| && forall i :: 0 <= i < |a| ==> FoldCase(a[i]) == FoldCase(b[i])
  }

  /** Examples the commons-lang documentation gives for `isBlank`. */
  lemma IsBlankExamples()
    ensures IsBlank(None) && IsBlank(Some("")) && IsBlank(Some(" "))
    ensures !IsBlank(Some("bob")) && !IsBlank(Some("  bob  "))
  {
    assert "bob"[0] == 'b';
    assert "  bob  "[2] == 'b';
  }

  /** `"attachment".equalsIgnoreCase` accepts the disposition in any case and
      nothing of another length. */
  lemma AttachmentInAnyCase()
    ensures EqualsIgnoreCase("attachment", "ATTACHMENT") && EqualsIgnoreCase("attachment", "Attachment")
    ensures !EqualsIgnoreCase("attachment", "inline")
  {
    assert forall i :: 0 <= i < 10 ==> FoldCase("ATTACHMENT"[i]) == "attachment"[i];
    assert forall i :: 0 <= i < 10 ==> FoldCase("Attachment"[i]) == "attachment"[i];
  }

  /** The text Java's `+` appends for a possibly-null string reference. */
  function JavaString(s: Option<string>): string {
    s.GetOr("null")
  }
}
