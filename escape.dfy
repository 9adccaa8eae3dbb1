/**
 * The character escaping of the `by-author` diff view (GitAdapter.FormatChar):
 * carriage return, line feed and tab are shown as a backslash followed by a
 * letter, every other character is shown as itself.
 */
module Escape {

  /** The three characters that FormatChar turns into two-character escapes. */
  predicate IsEscaped(c: char) {
    c == '\r' || c == '\n' || c == '\t'
  }

  /** FormatChar: a total function from a character to its printable form. */
  function FormatChar(c: char): (s: string)
    ensures 1 <= |s| <= 2
    ensures |s| == 2 <==> IsEscaped(c)
    ensures IsEscaped(c) ==> s[0] == '\\'
    ensures !IsEscaped(c) ==> s == [c]
  {
    if c == '\r' then "\\r"
    else if c == '\n' then "\\n"
    else if c == '\t' then "\\t"
    else [c]
  }

  /** The three escapes spelled out. */
  lemma FormatCharEscapes()
    ensures FormatChar('\r') == "\\r"
    ensures FormatChar('\n') == "\\n"
    ensures FormatChar('\t') == "\\t"
  {
  }

  /** Distinct characters are shown differently. */
  lemma FormatCharInjective(c: char, d: char)
    requires FormatChar(c) == FormatChar(d)
    ensures c == d
  {
  }

  /** The text a whole line is shown as: each character formatted, in order. */
  function Escaped(s: string): (t: string)
    ensures |s| <= |t| <= 2 * |s|
  {
    if s == [] then [] else FormatChar(s[0]) + Escaped(s[1..])
  }

  /** Reads shown text back: the inverse of Escaped on lines without a backslash. */
  function Unescape(t: string): string
    decreases |t|
  {
    if |t| >= 2 && t[0] == '\\' && t[1] == 'r' then ['\r'] + Unescape(t[2..])
    else if |t| >= 2 && t[0] == '\\' && t[1] == 'n' then ['\n'] + Unescape(t[2..])
    else if |t| >= 2 && t[0] == '\\' && t[1] == 't' then ['\t'] + Unescape(t[2..])
    else if t == [] then []
    else [t[0]] + Unescape(t[1..])
  }

  /** A line without a backslash can be recovered from the way it is shown. */
  lemma {:induction false} UnescapeEscaped(s: string)
    requires '\\' !in s
    ensures Unescape(Escaped(s)) == s
  {
    if s != [] {
      var rest := Escaped(s[1..]);
      assert '\\' !in s[1..];
      UnescapeEscaped(s[1..]);
      var t := FormatChar(s[0]) + rest;
      assert Escaped(s) == t;
      if IsEscaped(s[0]) {
        assert t[..2] == FormatChar(s[0]) && t[2..] == rest;
        assert Unescape(t) == [s[0]] + Unescape(rest);
      } else {
        assert t[0] == s[0] && t[1..] == rest;
        assert Unescape(t) == [s[0]] + Unescape(rest);
      }
    }
  }

  /**
   * Without that restriction the shown text is ambiguous: a backslash followed
   * by `n` looks exactly like a line feed.
   */
  lemma EscapedAmbiguous()
    ensures "\\n" != "\n" && Escaped("\\n") == Escaped("\n")
  {
    assert Escaped("\\n") == FormatChar('\\') + Escaped("n");
    assert Escaped("n") == FormatChar('n') + Escaped("");
  }
}
