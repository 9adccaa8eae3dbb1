/**
 * The positional line-pair alignment of GitAdapter.Diff2Lines: the added and
 * the deleted version of a line are compared character by character at equal
 * indices (no longest-common-subsequence alignment), and each character is
 * tagged as unchanged or changed on its own side.
 */
module Align {
  import opened Escape
  import opened Render

  /** A diff line record: its line number in its file version and its content. */
  datatype Line = Line(lineNumber: int, content: string)

  /** The style of the k-th added character: same when the deleted line has the same character there. */
  function AddedStyle(a: string, d: string, k: nat): Style
    requires k < |a|
  {
    if k < |d| && a[k] == d[k] then AddedSame else AddedDiff
  }

  /** The style of the k-th deleted character: same when the added line has the same character there. */
  function DeletedStyle(a: string, d: string, k: nat): Style
    requires k < |d|
  {
    if k < |a| && a[k] == d[k] then DeletedSame else DeletedDiff
  }

  /**
   * Reference definition of the alignment, walking both lines from the front
   * with the four cases of the source in the same order: deleted side only,
   * added side only, equal characters, different characters. Returns the added
   * list and the deleted list.
   */
  function Alignment(a: string, d: string): (r: (seq<StyledChar>, seq<StyledChar>))
    ensures |r.0| == |a| && |r.1| == |d|
    decreases |a| + |d|
  {
    if a == [] && d == [] then ([], [])
    else if a == [] then
      var (x, y) := Alignment([], d[1..]); (x, [(d[0], DeletedDiff)] + y)
    else if d == [] then
      var (x, y) := Alignment(a[1..], []); ([(a[0], AddedDiff)] + x, y)
    else if d[0] == a[0] then
      var (x, y) := Alignment(a[1..], d[1..]); ([(a[0], AddedSame)] + x, [(d[0], DeletedSame)] + y)
    else
      var (x, y) := Alignment(a[1..], d[1..]); ([(a[0], AddedDiff)] + x, [(d[0], DeletedDiff)] + y)
  }

  /**
   * Each list is as long as its input, carries the input's characters in order,
   * and tags the character at index k by comparing both lines at index k only.
   */
  lemma {:induction false} AlignAt(a: string, d: string)
    ensures forall k :: 0 <= k < |a| ==> Alignment(a, d).0[k] == (a[k], AddedStyle(a, d, k))
    ensures forall k :: 0 <= k < |d| ==> Alignment(a, d).1[k] == (d[k], DeletedStyle(a, d, k))
    decreases |a| + |d|
  {
    if a == [] && d == [] {
    } else if a == [] {
      AlignAt([], d[1..]);
      forall k | 1 <= k < |d| ensures DeletedStyle([], d[1..], k - 1) == DeletedStyle(a, d, k) { }
    } else if d == [] {
      AlignAt(a[1..], []);
      forall k | 1 <= k < |a| ensures AddedStyle(a[1..], [], k - 1) == AddedStyle(a, d, k) { }
    } else {
      AlignAt(a[1..], d[1..]);
      forall k | 1 <= k < |a| ensures AddedStyle(a[1..], d[1..], k - 1) == AddedStyle(a, d, k) { }
      forall k | 1 <= k < |d| ensures DeletedStyle(a[1..], d[1..], k - 1) == DeletedStyle(a, d, k) { }
    }
  }

  /**
   * At an index both lines have, the two sides agree: both say same exactly
   * when the characters are equal, and both say changed otherwise.
   */
  lemma AlignSidesAgree(a: string, d: string, k: nat)
    requires k < |a| && k < |d|
    ensures Alignment(a, d).0[k].1 == AddedSame <==> a[k] == d[k]
    ensures Alignment(a, d).1[k].1 == DeletedSame <==> a[k] == d[k]
    ensures Alignment(a, d).0[k].1 == AddedDiff <==> Alignment(a, d).1[k].1 == DeletedDiff
  {
    AlignAt(a, d);
  }

  /** Past the end of the shorter line only the longer line's list has entries, all changed. */
  lemma AlignPastShorter(a: string, d: string)
    ensures forall k :: |d| <= k < |a| ==> Alignment(a, d).0[k] == (a[k], AddedDiff)
    ensures forall k :: |a| <= k < |d| ==> Alignment(a, d).1[k] == (d[k], DeletedDiff)
    ensures |Alignment(a, d).0| == |a| && |Alignment(a, d).1| == |d|
  {
    AlignAt(a, d);
  }

  /** The added list only uses the added styles and the deleted list only the deleted ones. */
  lemma AlignSideStyles(a: string, d: string)
    ensures forall k :: 0 <= k < |Alignment(a, d).0| ==> Alignment(a, d).0[k].1 == AddedSame || Alignment(a, d).0[k].1 == AddedDiff
    ensures forall k :: 0 <= k < |Alignment(a, d).1| ==> Alignment(a, d).1[k].1 == DeletedSame || Alignment(a, d).1[k].1 == DeletedDiff
  {
    AlignAt(a, d);
  }

  /** An unchanged line is shown as unchanged throughout, on both sides. */
  lemma AlignIdentical(s: string)
    ensures Alignment(s, s).0 == Uniform(s, AddedSame)
    ensures Alignment(s, s).1 == Uniform(s, DeletedSame)
  {
    AlignAt(s, s);
  }

  /** Against an empty line every character is changed: the same list a pure addition or deletion shows. */
  lemma AlignAgainstEmpty(s: string)
    ensures Alignment(s, []).0 == Uniform(s, AddedDiff) && Alignment(s, []).1 == []
    ensures Alignment([], s).1 == Uniform(s, DeletedDiff) && Alignment([], s).0 == []
  {
    AlignAt(s, []);
    AlignAt([], s);
  }

  /** Two lists with Align's entries at every index are Align's lists. */
  lemma AlignByIndex(a: string, d: string, xs: seq<StyledChar>, ys: seq<StyledChar>)
    requires |xs| == |a| && |ys| == |d|
    requires forall k :: 0 <= k < |a| ==> xs[k] == (a[k], AddedStyle(a, d, k))
    requires forall k :: 0 <= k < |d| ==> ys[k] == (d[k], DeletedStyle(a, d, k))
    ensures (xs, ys) == Alignment(a, d)
  {
    AlignAt(a, d);
    assert xs == Alignment(a, d).0;
    assert ys == Alignment(a, d).1;
  }

  /** The console output of Diff2Lines: deleted list, line break, added list, two line breaks. */
  function PairOutput(a: string, d: string): seq<Token> {
    RenderChars(Alignment(a, d).1) + [Newline] + RenderChars(Alignment(a, d).0) + [Newline, Newline]
  }

  /** One token per character of either line, and three line breaks. */
  lemma PairOutputLength(a: string, d: string)
    ensures |PairOutput(a, d)| == |a| + |d| + 3
  {
  }

  /** As text, the paired output is the escaped deleted line, then the escaped added line, then an empty line. */
  lemma PairOutputText(a: string, d: string)
    ensures TextOf(PairOutput(a, d)) == Escaped(d) + "\n" + Escaped(a) + "\n" + "\n"
  {
    var (x, y) := Alignment(a, d);
    AlignAt(a, d);
    assert CharsOf(x) == a;
    assert CharsOf(y) == d;
    TextOfRenderChars(x);
    TextOfRenderChars(y);
    assert TextOf([Newline]) == "\n";
    assert TextOf([Newline, Newline]) == "\n\n";
    TextOfAppend(RenderChars(y), [Newline]);
    TextOfAppend(RenderChars(y) + [Newline], RenderChars(x));
    TextOfAppend(RenderChars(y) + [Newline] + RenderChars(x), [Newline, Newline]);
  }

  /** One ForEach over a list of styled characters, each written with its FormatChar text. */
  method EmitChars(prefix: seq<Token>, cs: seq<StyledChar>) returns (out: seq<Token>)
    ensures out == prefix + RenderChars(cs)
  {
    out := prefix;
    var j := 0;
    while j < |cs|
      invariant 0 <= j <= |cs|
      invariant out == prefix + RenderChars(cs[..j])
    {
      assert cs[..j + 1] == cs[..j] + [cs[j]];
      RenderCharsSnoc(cs[..j], cs[j]);
      out := out + [Styled(FormatChar(cs[j].0), cs[j].1)];
      j := j + 1;
    }
    assert cs[..j] == cs;
  }

  /**
   * Diff2Lines: the index loop up to the longer length, filling the two lists,
   * then writing them out deleted first. Returns both lists and the tokens written.
   */
  method Diff2Lines(added: Line, deleted: Line)
    returns (addedChars: seq<StyledChar>, deletedChars: seq<StyledChar>, out: seq<Token>)
    ensures (addedChars, deletedChars) == Alignment(added.content, deleted.content)
    ensures out == PairOutput(added.content, deleted.content)
  {
    var a, d := added.content, deleted.content;
    var longest := if |a| >= |d| then |a| else |d|;
    addedChars, deletedChars := [], [];
    var i := 0;
    while i < longest
      invariant 0 <= i <= longest
      invariant |addedChars| == (if i <= |a| then i else |a|)
      invariant |deletedChars| == (if i <= |d| then i else |d|)
      invariant forall k :: 0 <= k < |addedChars| ==> addedChars[k] == (a[k], AddedStyle(a, d, k))
      invariant forall k :: 0 <= k < |deletedChars| ==> deletedChars[k] == (d[k], DeletedStyle(a, d, k))
    {
      if i >= |a| {
        deletedChars := deletedChars + [(d[i], DeletedDiff)];
      } else if i >= |d| {
        addedChars := addedChars + [(a[i], AddedDiff)];
      } else if d[i] == a[i] {
        addedChars := addedChars + [(a[i], AddedSame)];
        deletedChars := deletedChars + [(d[i], DeletedSame)];
      } else {
        addedChars := addedChars + [(a[i], AddedDiff)];
        deletedChars := deletedChars + [(d[i], DeletedDiff)];
      }
      i := i + 1;
    }
    AlignByIndex(a, d, addedChars, deletedChars);

    out := EmitChars([], deletedChars);
    out := out + [Newline];
    out := EmitChars(out, addedChars);
    out := out + [Newline];
    out := out + [Newline];
    AppendAssoc(RenderChars(deletedChars) + [Newline] + RenderChars(addedChars), [Newline], [Newline]);
  }
}
