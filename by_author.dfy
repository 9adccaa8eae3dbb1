/**
 * The `by-author` command as it runs: the foreach loops of Program.Main over
 * the retained commits, their changed files and each file's line numbers,
 * writing tokens step by step.
 */
module ByAuthor {
  import opened Wrappers
  import opened Render
  import opened Align
  import opened Projection
  import opened Authors

  /**
   * The body of the foreach for one line number: looks up the first added and
   * the first deleted record with that number and writes the paired,
   * added-only or deleted-only rendering.
   */
  method RenderLineNumber(added: seq<Line>, deleted: seq<Line>, n: int) returns (written: seq<Token>)
    ensures written == LineOutput(added, deleted, n)
  {
    var a, d := FirstIndex(added, n), FirstIndex(deleted, n);
    LineOutputByLookup(added, deleted, n);
    if a.Some? && d.Some? {
      var _, _, pair := Diff2Lines(added[a.value], deleted[d.value]);
      written := pair;
    } else if a.Some? {
      written := EmitChars([], Uniform(added[a.value].content, AddedDiff));
      written := written + [Newline];
    } else if d.Some? {
      written := EmitChars([], Uniform(deleted[d.value].content, DeletedDiff));
      written := written + [Newline];
    } else {
      written := [];
    }
  }

  /** The foreach over one file's distinct, ascending line numbers. */
  method RenderFile(added: seq<Line>, deleted: seq<Line>) returns (out: seq<Token>)
    ensures out == FileOutput(added, deleted)
  {
    var lineNumbers := LineNumbers(added, deleted);
    out := [];
    var i := 0;
    while i < |lineNumbers|
      invariant 0 <= i <= |lineNumbers|
      invariant out == OutputFor(added, deleted, lineNumbers[..i])
    {
      var written := RenderLineNumber(added, deleted, lineNumbers[i]);
      OutputForStep(added, deleted, lineNumbers, i);
      out := out + written;
      i := i + 1;
    }
    assert lineNumbers[..i] == lineNumbers;
  }

  /** What is written for one changed file: its summary line, then its line-by-line rendering. */
  function FileChangeOutput(f: FileChange): seq<Token> {
    [PathLine(f.path, |f.added|, |f.deleted|)] + FileOutput(f.added, f.deleted)
  }

  /** What is written for a commit's changed files, in diff order. */
  function ChangesOutput(fs: seq<FileChange>): seq<Token> {
    if fs == [] then [] else ChangesOutput(fs[..|fs| - 1]) + FileChangeOutput(fs[|fs| - 1])
  }

  /** Writing one more file appends that file's output. */
  lemma ChangesOutputStep(fs: seq<FileChange>, j: nat)
    requires j < |fs|
    ensures ChangesOutput(fs[..j + 1]) == ChangesOutput(fs[..j]) + FileChangeOutput(fs[j])
  {
    assert fs[..j + 1][..j] == fs[..j];
  }

  /** What is written for one retained commit: its summary line, then its changed files. */
  function CommitOutput(c: Commit): seq<Token> {
    [CommitLine(c.title)] + ChangesOutput(c.changes)
  }

  /** What is written for a list of retained commits, in history order. */
  function ScanOutput(cs: seq<Commit>): seq<Token> {
    if cs == [] then [] else ScanOutput(cs[..|cs| - 1]) + CommitOutput(cs[|cs| - 1])
  }

  /**
   * Commits by other authors write nothing: adding one to the history leaves
   * the retained list and the output of the scan as they were.
   */
  lemma OtherAuthorIgnored(history: seq<Commit>, c: Commit, target: string)
    requires !Matches(c, target)
    ensures Retained(history + [c], target) == Retained(history, target)
    ensures ScanOutput(Retained(history + [c], target)) == ScanOutput(Retained(history, target))
  {
    RetainedAppend(history, [c], target);
    RetainedSingle(c, target);
    assert Retained(history, target) + [] == Retained(history, target);
  }

  /** The result of one `by-author` run: the retained commits and everything written. */
  datatype Scan = Scan(commits: seq<Commit>, output: seq<Token>)

  /** The foreach over one retained commit's changed files. */
  method RenderCommit(c: Commit) returns (out: seq<Token>)
    ensures out == CommitOutput(c)
  {
    out := [CommitLine(c.title)];
    var j := 0;
    while j < |c.changes|
      invariant 0 <= j <= |c.changes|
      invariant out == [CommitLine(c.title)] + ChangesOutput(c.changes[..j])
    {
      var f := c.changes[j];
      var lines := RenderFile(f.added, f.deleted);
      ChangesOutputStep(c.changes, j);
      AppendAssoc([CommitLine(c.title)], ChangesOutput(c.changes[..j]), FileChangeOutput(f));
      out := out + ([PathLine(f.path, |f.added|, |f.deleted|)] + lines);
      j := j + 1;
    }
    assert c.changes[..j] == c.changes;
  }

  /** Writing one more retained commit appends that commit's output. */
  lemma ScanOutputStep(cs: seq<Commit>, c: Commit)
    ensures ScanOutput(cs + [c]) == ScanOutput(cs) + CommitOutput(c)
  {
    assert (cs + [c])[..|cs|] == cs;
  }

  /**
   * The foreach over the history (most recent first, as the history walk
   * yields it): keeps the commits whose author e-mail matches the target
   * ignoring case, in order, and writes each of them.
   */
  method ScanHistory(history: seq<Commit>, target: string) returns (commits: seq<Commit>, out: seq<Token>)
    ensures commits == Retained(history, target)
    ensures out == ScanOutput(commits)
  {
    commits, out := [], [];
    var i := 0;
    while i < |history|
      invariant 0 <= i <= |history|
      invariant commits == Retained(history[..i], target)
      invariant out == ScanOutput(commits)
    {
      var c := history[i];
      RetainedStep(history, i, target);
      if Matches(c, target) {
        var written := RenderCommit(c);
        ScanOutputStep(commits, c);
        commits := commits + [c];
        out := out + written;
      }
      i := i + 1;
    }
    assert history[..i] == history;
  }

  /**
   * The `by-author` command: resolves the target e-mail, failing when `-e` is
   * blank and no e-mail is configured, then scans the history for it.
   */
  method Run(history: seq<Commit>, email: string, config: Option<string>) returns (r: Result<Scan, ScanError>)
    ensures r.Err? <==> IsNullOrWhiteSpace(email) && config.None?
    ensures r.Ok? ==> TargetEmail(email, config).Ok?
    ensures r.Ok? ==> r.value.commits == Retained(history, TargetEmail(email, config).value)
    ensures r.Ok? ==> r.value.output == ScanOutput(r.value.commits)
  {
    var target := TargetEmail(email, config);
    if target.Err? {
      return Err(target.error);
    }
    var commits, out := ScanHistory(history, target.value);
    r := Ok(Scan(commits, out));
  }
}
