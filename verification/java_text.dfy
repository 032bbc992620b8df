/**
 * The part of `java.lang.String` the key providers rely on: `isBlank()`,
 * which is true of the empty string and of strings made only of characters
 * that `Character.isWhitespace` accepts.
 */
module JavaText {

  /**
   * `Character.isWhitespace`: the Unicode space, line and paragraph separators
   * except the three non-breaking spaces (U+00A0, U+2007, U+202F), plus the
   * control characters U+0009..U+000D and U+001C..U+001F.
   */
  predicate IsWhitespace(c: char) {
    || ('\t' <= c <= '\r')
    || ('\U{1C}' <= c <= ' ')
    || c == '\U{1680}'
    || ('\U{2000}' <= c <= '\U{2006}')
    || ('\U{2008}' <= c <= '\U{200A}')
    || c == '\U{2028}'
    || c == '\U{2029}'
    || c == '\U{205F}'
    || c == '\U{3000}'
  }

  /** `String.isBlank()`. */
  predicate IsBlank(s: string) {
    forall i | 0 <= i < |s| :: IsWhitespace(s[i])
  }

  /**
   * What the blank checks accept: the empty string and runs of ASCII
   * whitespace are blank; a letter is not, and neither is a non-breaking
   * space, which `Character.isWhitespace` excludes. Blankness of a
   * concatenation is blankness of both parts.
   */
  lemma BlankCharacters(s: string, t: string)
    ensures IsBlank("") && IsBlank(" \t\r\n")
    ensures !IsBlank("a") && !IsBlank("\U{A0}") && !IsBlank(" \U{202F} ")
    ensures IsBlank(s + t) <==> IsBlank(s) && IsBlank(t)
  {
    var blank := " \t\r\n";
    assert forall i | 0 <= i < |blank| :: IsWhitespace(blank[i]) by {
      assert blank == [' ', '\t', '\r', '\n'];
    }
    assert !IsWhitespace(("a")[0]);
    assert !IsWhitespace(("\U{A0}")[0]);
    assert !IsWhitespace((" \U{202F} ")[1]);
    if IsBlank(s + t) {
      forall i | 0 <= i < |s|
        ensures IsWhitespace(s[i])
      {
        assert s[i] == (s + t)[i];
      }
      forall i | 0 <= i < |t|
        ensures IsWhitespace(t[i])
      {
        assert t[i] == (s + t)[|s| + i];
      }
    }
    if IsBlank(s) && IsBlank(t) {
      forall i | 0 <= i < |s + t|
        ensures IsWhitespace((s + t)[i])
      {
        if i < |s| {
          assert (s + t)[i] == s[i];
        } else {
          assert (s + t)[i] == t[i - |s|];
        }
      }
    }
  }
}
