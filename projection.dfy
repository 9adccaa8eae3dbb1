/**
 * The change-set projection inside `by-author` (Program.Main): the line numbers
 * of one file's added and deleted records are merged into a distinct ascending
 * list, and each number is shown as a paired change, a pure addition or a pure
 * deletion.
 */
module Projection {
  import opened Wrappers
  import opened Escape
  import opened Render
  import opened Align

  predicate StrictlyIncreasing(s: seq<int>) {
    forall i, j :: 0 <= i < j < |s| ==> s[i] < s[j]
  }

  /** `lines.Select(l => l.LineNumber)`. */
  function Numbers(lines: seq<Line>): (r: seq<int>)
    ensures |r| == |lines|
    ensures forall k :: 0 <= k < |lines| ==> r[k] == lines[k].lineNumber
  {
    if lines == [] then [] else [lines[0].lineNumber] + Numbers(lines[1..])
  }

  /** Some record of `lines` has line number n: `lines.Where(l => l.LineNumber == n).Any()`. */
  predicate HasLine(lines: seq<Line>, n: int) {
    exists k :: 0 <= k < |lines| && lines[k].lineNumber == n
  }

  /** Adds x to a strictly increasing list, keeping it strictly increasing and free of repeats. */
  function InsertSorted(x: int, s: seq<int>): (r: seq<int>)
    requires StrictlyIncreasing(s)
    ensures StrictlyIncreasing(r)
    ensures forall y :: y in r <==> y == x || y in s
  {
    if s == [] then [x]
    else if x < s[0] then [x] + s
    else if x == s[0] then s
    else
      var t := InsertSorted(x, s[1..]);
      assert forall k :: 0 <= k < |t| ==> s[0] < t[k] by {
        forall k | 0 <= k < |t| ensures s[0] < t[k] {
          assert t[k] in t;
        }
      }
      [s[0]] + t
  }

  /** `xs.Distinct().OrderBy(d => d)`: the distinct values of xs, ascending. */
  function SortDistinct(xs: seq<int>): (r: seq<int>)
    ensures StrictlyIncreasing(r)
    ensures forall y :: y in r <==> y in xs
  {
    if xs == [] then [] else InsertSorted(xs[0], SortDistinct(xs[1..]))
  }

  /** The line numbers a file's rendering walks through. */
  function LineNumbers(added: seq<Line>, deleted: seq<Line>): (r: seq<int>)
    ensures StrictlyIncreasing(r)
    ensures forall n :: n in r <==> HasLine(added, n) || HasLine(deleted, n)
  {
    var all := Numbers(added) + Numbers(deleted);
    assert forall n :: n in all <==> HasLine(added, n) || HasLine(deleted, n) by {
      forall n ensures n in all <==> HasLine(added, n) || HasLine(deleted, n) {
        if HasLine(added, n) {
          var k :| 0 <= k < |added| && added[k].lineNumber == n;
          assert all[k] == n;
        }
        if HasLine(deleted, n) {
          var k :| 0 <= k < |deleted| && deleted[k].lineNumber == n;
          assert all[|added| + k] == n;
        }
        if n in all {
          var k :| 0 <= k < |all| && all[k] == n;
          if k < |added| {
            assert added[k].lineNumber == n;
          } else {
            assert deleted[k - |added|].lineNumber == n;
          }
        }
      }
    }
    SortDistinct(all)
  }

  /** Two strictly increasing lists with the same members are the same list. */
  lemma {:induction false} StrictlyIncreasingUnique(s: seq<int>, t: seq<int>)
    requires StrictlyIncreasing(s) && StrictlyIncreasing(t)
    requires forall y :: y in s <==> y in t
    ensures s == t
  {
    if s != [] {
      assert s[0] in s;
    }
    if t != [] {
      assert t[0] in t;
    }
    if s != [] && t != [] {
      assert t[0] in s && s[0] in t;
      assert s[0] == t[0];
      forall y ensures y in s[1..] <==> y in t[1..] {
        if y in s[1..] {
          var k :| 1 <= k < |s| && s[k] == y;
          assert y in t && y != t[0];
        }
        if y in t[1..] {
          var k :| 1 <= k < |t| && t[k] == y;
          assert y in s && y != s[0];
        }
      }
      StrictlyIncreasingUnique(s[1..], t[1..]);
    }
  }

  /**
   * The enumeration depends only on which line numbers occur on each side, not
   * on the order or repetition of the records.
   */
  lemma LineNumbersOrderFree(added: seq<Line>, deleted: seq<Line>, added': seq<Line>, deleted': seq<Line>)
    requires forall n :: HasLine(added, n) <==> HasLine(added', n)
    requires forall n :: HasLine(deleted, n) <==> HasLine(deleted', n)
    ensures LineNumbers(added, deleted) == LineNumbers(added', deleted')
  {
    StrictlyIncreasingUnique(LineNumbers(added, deleted), LineNumbers(added', deleted'));
  }

  /** The index of `lines.Where(l => l.LineNumber == n).First()`, if there is one. */
  function FirstIndex(lines: seq<Line>, n: int): (r: Option<nat>)
    ensures r.None? <==> !HasLine(lines, n)
    ensures r.Some? ==> r.value < |lines| && lines[r.value].lineNumber == n
    ensures r.Some? ==> forall j :: 0 <= j < r.value ==> lines[j].lineNumber != n
  {
    if lines == [] then None
    else if lines[0].lineNumber == n then Some(0)
    else
      match FirstIndex(lines[1..], n)
      case None =>
        assert forall k :: 1 <= k < |lines| ==> lines[k] == lines[1..][k - 1];
        None
      case Some(i) => Some(i + 1)
  }

  /** l is the first record of `lines` with line number n. */
  ghost predicate IsFirstWith(lines: seq<Line>, n: int, l: Line) {
    exists i :: 0 <= i < |lines| && lines[i] == l && l.lineNumber == n &&
      forall j :: 0 <= j < i ==> lines[j].lineNumber != n
  }

  /** The three ways one line number is shown. */
  datatype Entry =
    | Paired(added: Line, deleted: Line)
    | AddedOnly(added: Line)
    | DeletedOnly(deleted: Line)

  /**
   * The if / else-if chain for one line number: paired when both sides have a
   * record, otherwise the side that has one; nothing when neither has.
   */
  function Dispatch(added: seq<Line>, deleted: seq<Line>, n: int): (r: Option<Entry>)
    ensures r.None? <==> !HasLine(added, n) && !HasLine(deleted, n)
    ensures r.Some? && r.value.Paired? <==> HasLine(added, n) && HasLine(deleted, n)
    ensures r.Some? && r.value.AddedOnly? <==> HasLine(added, n) && !HasLine(deleted, n)
    ensures r.Some? && r.value.DeletedOnly? <==> !HasLine(added, n) && HasLine(deleted, n)
    ensures r.Some? && !r.value.DeletedOnly? ==> IsFirstWith(added, n, r.value.added)
    ensures r.Some? && !r.value.AddedOnly? ==> IsFirstWith(deleted, n, r.value.deleted)
  {
    var a, d := FirstIndex(added, n), FirstIndex(deleted, n);
    if a.Some? && d.Some? then Some(Paired(added[a.value], deleted[d.value]))
    else if a.Some? then Some(AddedOnly(added[a.value]))
    else if d.Some? then Some(DeletedOnly(deleted[d.value]))
    else None
  }

  /** Every enumerated line number takes exactly one of the three branches. */
  lemma EnumeratedDispatched(added: seq<Line>, deleted: seq<Line>, n: int)
    requires n in LineNumbers(added, deleted)
    ensures Dispatch(added, deleted, n).Some?
  {
  }

  /** What is written for one line number. */
  function LineOutput(added: seq<Line>, deleted: seq<Line>, n: int): seq<Token> {
    match Dispatch(added, deleted, n)
    case None => []
    case Some(Paired(a, d)) => PairOutput(a.content, d.content)
    case Some(AddedOnly(a)) => RenderChars(Uniform(a.content, AddedDiff)) + [Newline]
    case Some(DeletedOnly(d)) => RenderChars(Uniform(d.content, DeletedDiff)) + [Newline]
  }

  /** What is written for a list of line numbers, in list order. */
  function OutputFor(added: seq<Line>, deleted: seq<Line>, ns: seq<int>): seq<Token> {
    if ns == [] then []
    else OutputFor(added, deleted, ns[..|ns| - 1]) + LineOutput(added, deleted, ns[|ns| - 1])
  }

  /** What is written for one file's records. */
  function FileOutput(added: seq<Line>, deleted: seq<Line>): seq<Token> {
    OutputFor(added, deleted, LineNumbers(added, deleted))
  }

  /** Writing two lists of numbers one after the other writes their outputs one after the other. */
  lemma {:induction false} OutputForAppend(added: seq<Line>, deleted: seq<Line>, ns: seq<int>, ms: seq<int>)
    ensures OutputFor(added, deleted, ns + ms) == OutputFor(added, deleted, ns) + OutputFor(added, deleted, ms)
    decreases |ms|
  {
    if ms == [] {
      assert ns + ms == ns;
    } else {
      var m, last := ms[..|ms| - 1], ms[|ms| - 1];
      assert (ns + ms)[..|ns + ms| - 1] == ns + m;
      assert (ns + ms)[|ns + ms| - 1] == last;
      OutputForAppend(added, deleted, ns, m);
      AppendAssoc(OutputFor(added, deleted, ns), OutputFor(added, deleted, m), LineOutput(added, deleted, last));
    }
  }

  /** Walking one more line number appends that number's output. */
  lemma OutputForStep(added: seq<Line>, deleted: seq<Line>, ns: seq<int>, i: nat)
    requires i < |ns|
    ensures OutputFor(added, deleted, ns[..i + 1]) == OutputFor(added, deleted, ns[..i]) + LineOutput(added, deleted, ns[i])
  {
    assert ns[..i + 1][..i] == ns[..i];
  }

  /** A file with at least one record has at least one line number to walk through. */
  lemma LineNumbersNonEmpty(added: seq<Line>, deleted: seq<Line>)
    requires |added| + |deleted| > 0
    ensures |LineNumbers(added, deleted)| > 0
  {
    if |added| > 0 {
      assert HasLine(added, added[0].lineNumber);
    } else {
      assert HasLine(deleted, deleted[0].lineNumber);
    }
  }

  /** A file's output is that of its smallest changed line number followed by that of the rest. */
  lemma FileOutputFirst(added: seq<Line>, deleted: seq<Line>)
    requires |added| + |deleted| > 0
    ensures var ns := LineNumbers(added, deleted);
      |ns| > 0 && FileOutput(added, deleted) == LineOutput(added, deleted, ns[0]) + OutputFor(added, deleted, ns[1..])
  {
    LineNumbersNonEmpty(added, deleted);
    var ns := LineNumbers(added, deleted);
    assert ns == [ns[0]] + ns[1..];
    OutputForAppend(added, deleted, [ns[0]], ns[1..]);
    assert OutputFor(added, deleted, [ns[0]]) == LineOutput(added, deleted, ns[0]) by {
      assert [ns[0]][..0] == [];
    }
  }

  /** A file without added or deleted records writes nothing. */
  lemma FileOutputEmpty()
    ensures FileOutput([], []) == []
  {

  }

  /**
   * As text: a paired line shows the deleted then the added content and an empty
   * line; a pure addition or deletion shows its content and one line break.
   */
  lemma LineOutputText(added: seq<Line>, deleted: seq<Line>, n: int)
    ensures match Dispatch(added, deleted, n)
      case None => TextOf(LineOutput(added, deleted, n)) == []
      case Some(Paired(a, d)) =>
        TextOf(LineOutput(added, deleted, n)) == Escaped(d.content) + "\n" + Escaped(a.content) + "\n" + "\n"
      case Some(AddedOnly(a)) => TextOf(LineOutput(added, deleted, n)) == Escaped(a.content) + "\n"
      case Some(DeletedOnly(d)) => TextOf(LineOutput(added, deleted, n)) == Escaped(d.content) + "\n"
  {
    match Dispatch(added, deleted, n)
    case None =>
    case Some(Paired(a, d)) =>
      PairOutputText(a.content, d.content);
    case Some(AddedOnly(a)) =>
      UniformText(a.content, AddedDiff);
    case Some(DeletedOnly(d)) =>
      UniformText(d.content, DeletedDiff);
  }

  lemma UniformText(s: string, st: Style)
    ensures TextOf(RenderChars(Uniform(s, st)) + [Newline]) == Escaped(s) + "\n"
  {
    TextOfRenderChars(Uniform(s, st));
    assert CharsOf(Uniform(s, st)) == s;
    TextOfAppend(RenderChars(Uniform(s, st)), [Newline]);
    assert TextOf([Newline]) == "\n";
  }

  /** LineOutput in terms of the two first-record lookups, as the loop below performs them. */
  lemma LineOutputByLookup(added: seq<Line>, deleted: seq<Line>, n: int)
    ensures var a, d := FirstIndex(added, n), FirstIndex(deleted, n);
      LineOutput(added, deleted, n) ==
        if a.Some? && d.Some? then PairOutput(added[a.value].content, deleted[d.value].content)
        else if a.Some? then RenderChars(Uniform(added[a.value].content, AddedDiff)) + [Newline]
        else if d.Some? then RenderChars(Uniform(deleted[d.value].content, DeletedDiff)) + [Newline]
        else []
  {
  }
}
