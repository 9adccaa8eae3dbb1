/**
 * What the diff view writes to the console, as a sequence of tokens: styled
 * text, plain line breaks and the two summary lines. The four StyleSheet
 * colours of the source become a closed enumeration.
 */
module Render {
  import opened Escape

  /** Cyan, Green, Red and Brown in the source, in this order. */
  datatype Style = AddedSame | AddedDiff | DeletedSame | DeletedDiff

  /** One character of a line with the style it is to be shown in. */
  type StyledChar = (char, Style)

  datatype Token =
    | Styled(text: string, style: Style)             // Console.WriteStyled
    | Newline                                        // Console.Write("\n")
    | CommitLine(title: string)                      // "<when> <short message>"
    | PathLine(path: string, added: nat, deleted: nat) // "<path> = <a+d> (<a>+ and <d>-)"

  lemma AppendAssoc<T>(a: seq<T>, b: seq<T>, c: seq<T>)
    ensures a + (b + c) == (a + b) + c
  {
  }

  /** The token written for one styled character: its FormatChar text in its style. */
  function CharToken(c: StyledChar): Token {
    Styled(FormatChar(c.0), c.1)
  }

  /** The tokens a list of styled characters is written as, one per character, in order. */
  function RenderChars(cs: seq<StyledChar>): (r: seq<Token>)
    ensures |r| == |cs|
    ensures forall k :: 0 <= k < |cs| ==> r[k] == Styled(FormatChar(cs[k].0), cs[k].1)
  {
    if cs == [] then [] else [CharToken(cs[0])] + RenderChars(cs[1..])
  }

  /** Writing a list and then one more character is writing the longer list. */
  lemma RenderCharsSnoc(cs: seq<StyledChar>, c: StyledChar)
    ensures RenderChars(cs + [c]) == RenderChars(cs) + [CharToken(c)]
  {
    assert |RenderChars(cs + [c])| == |RenderChars(cs) + [CharToken(c)]|;
    forall k | 0 <= k < |cs| + 1
      ensures RenderChars(cs + [c])[k] == (RenderChars(cs) + [CharToken(c)])[k]
    {
      if k < |cs| {
        assert (cs + [c])[k] == cs[k];
      }
    }
  }

  /** Every character of a line in one style: how pure additions and deletions are shown. */
  function Uniform(s: string, st: Style): (r: seq<StyledChar>)
    ensures |r| == |s|
    ensures forall k :: 0 <= k < |s| ==> r[k].0 == s[k] && r[k].1 == st
  {
    if s == [] then [] else [(s[0], st)] + Uniform(s[1..], st)
  }

  /** The characters of a styled list, styles dropped. */
  function CharsOf(cs: seq<StyledChar>): (s: string)
    ensures |s| == |cs|
    ensures forall k :: 0 <= k < |cs| ==> s[k] == cs[k].0
  {
    if cs == [] then [] else [cs[0].0] + CharsOf(cs[1..])
  }

  function TokenText(t: Token): string {
    match t
    case Styled(s, _) => s
    case Newline => "\n"
    case CommitLine(title) => title + "\n"
    case PathLine(path, _, _) => path + "\n"
  }

  /**
   * The text that reaches the terminal once colours are ignored, except that
   * the two summary lines are shortened: a commit line to its title and a
   * path line to its path, without the date and the line counts.
   */
  function TextOf(ts: seq<Token>): string {
    if ts == [] then [] else TokenText(ts[0]) + TextOf(ts[1..])
  }

  lemma {:induction false} TextOfAppend(a: seq<Token>, b: seq<Token>)
    ensures TextOf(a + b) == TextOf(a) + TextOf(b)
  {
    if a == [] {
      assert a + b == b;
    } else {
      assert (a + b)[0] == a[0] && (a + b)[1..] == a[1..] + b;
      TextOfAppend(a[1..], b);
    }
  }

  /** The text of a written list is the escaped text of its characters. */
  lemma {:induction false} TextOfRenderChars(cs: seq<StyledChar>)
    ensures TextOf(RenderChars(cs)) == Escaped(CharsOf(cs))
  {
    if cs != [] {
      TextOfRenderChars(cs[1..]);
      assert CharsOf(cs)[1..] == CharsOf(cs[1..]);
    }
  }
}
