/**
 * Which commits `by-author` looks at: the target e-mail (the `-e` value, or the
 * local `user.email` configuration when that is blank) and the
 * case-insensitive filter over the commit history.
 */
module Authors {
  import opened Wrappers
  import opened Align

  /** One changed file of a commit's diff against HEAD: its path and its line records. */
  datatype FileChange = FileChange(path: string, added: seq<Line>, deleted: seq<Line>)

  /**
   * A commit of the history as the scan sees it: the summary title
   * (`When` and `MessageShort`), the author's e-mail, and its changed files
   * against HEAD's tree.
   */
  datatype Commit = Commit(title: string, email: string, changes: seq<FileChange>)

  /** The local configuration has no `user.email` entry while no e-mail was given. */
  datatype ScanError = MissingEmailConfig

  /** .NET's Char.IsWhiteSpace: the Unicode space separators, line and paragraph separators, and U+0009 to U+000D, U+0085. */
  predicate IsWhiteSpace(c: char) {
    c == ' ' || ('\t' <= c <= '\r') || c == '\U{85}' || c == '\U{A0}' || c == '\U{1680}' ||
    ('\U{2000}' <= c <= '\U{200A}') || c == '\U{2028}' || c == '\U{2029}' ||
    c == '\U{202F}' || c == '\U{205F}' || c == '\U{3000}'
  }

  /** String.IsNullOrWhiteSpace for a string that is never null: empty or only white space. */
  predicate IsNullOrWhiteSpace(s: string) {
    forall k :: 0 <= k < |s| ==> IsWhiteSpace(s[k])
  }

  /** The target e-mail: the given one unless it is blank, else the configured one. */
  function TargetEmail(email: string, config: Option<string>): (r: Result<string, ScanError>)
    ensures r.Err? <==> IsNullOrWhiteSpace(email) && config.None?
    ensures r.Ok? && !IsNullOrWhiteSpace(email) ==> r.value == email
    ensures r.Ok? && IsNullOrWhiteSpace(email) ==> config == Some(r.value)
  {
    if !IsNullOrWhiteSpace(email) then Ok(email)
    else if config.Some? then Ok(config.value)
    else Err(MissingEmailConfig)
  }

  /** Case folding of one character, ASCII letters only. */
  function FoldCase(c: char): (f: char)
    ensures !('A' <= f <= 'Z')
    ensures f == c || SameLetterOtherCase(c, f)
  {
    if 'A' <= c <= 'Z' then (c as int + 32) as char else c
  }

  /** c and d are one ASCII letter in its two cases, in either order. */
  predicate SameLetterOtherCase(c: char, d: char) {
    ('A' <= c <= 'Z' && d as int == c as int + 32) ||
    ('A' <= d <= 'Z' && c as int == d as int + 32)
  }

  /** Two characters fold alike exactly when they are equal or one letter in its two cases. */
  lemma FoldCaseEqual(c: char, d: char)
    ensures FoldCase(c) == FoldCase(d) <==> c == d || SameLetterOtherCase(c, d)
  {
  }

  /** The e-mail comparison: equal lengths and equal characters after folding. */
  predicate EqualsIgnoreCase(a: string, b: string) {
    |a| == |b| && forall k :: 0 <= k < |a| ==> FoldCase(a[k]) == FoldCase(b[k])
  }

  /** A string with every character folded. */
  function Lower(s: string): (r: string)
    ensures |r| == |s|
    ensures forall k :: 0 <= k < |s| ==> r[k] == FoldCase(s[k])
  {
    if s == [] then [] else [FoldCase(s[0])] + Lower(s[1..])
  }

  /** Two e-mails are equal ignoring case exactly when they have the same length and agree at
      every index up to the case of an ASCII letter. */
  lemma EqualsIgnoreCaseByLetter(a: string, b: string)
    ensures EqualsIgnoreCase(a, b) <==>
      |a| == |b| && forall k :: 0 <= k < |a| ==> a[k] == b[k] || SameLetterOtherCase(a[k], b[k])
  {
    forall k | 0 <= k < |a| && k < |b| {
      FoldCaseEqual(a[k], b[k]);
    }
  }

  /** Two e-mails are equal ignoring case exactly when their folded forms are equal. */
  lemma {:induction false} EqualsIgnoreCaseLower(a: string, b: string)
    ensures EqualsIgnoreCase(a, b) <==> Lower(a) == Lower(b)
  {
    if a != [] && b != [] {
      EqualsIgnoreCaseLower(a[1..], b[1..]);
      assert Lower(a) == [FoldCase(a[0])] + Lower(a[1..]);
      assert Lower(b) == [FoldCase(b[0])] + Lower(b[1..]);
      if EqualsIgnoreCase(a, b) {
        assert FoldCase(a[0]) == FoldCase(b[0]);
        assert EqualsIgnoreCase(a[1..], b[1..]) by {
          forall k | 0 <= k < |a| - 1 ensures FoldCase(a[1..][k]) == FoldCase(b[1..][k]) {
            assert FoldCase(a[k + 1]) == FoldCase(b[k + 1]);
          }
        }
      }
      if Lower(a) == Lower(b) {
        assert Lower(a)[0] == Lower(b)[0];
        assert Lower(a)[1..] == Lower(b)[1..];
        forall k | 0 <= k < |a| ensures FoldCase(a[k]) == FoldCase(b[k]) {
          if k > 0 {
            assert FoldCase(a[1..][k - 1]) == FoldCase(b[1..][k - 1]);
          }
        }
      }
    }
  }

  /** Ignoring case is an equivalence: reflexive, symmetric and transitive. */
  lemma EqualsIgnoreCaseEquivalence(a: string, b: string, c: string)
    ensures EqualsIgnoreCase(a, a)
    ensures EqualsIgnoreCase(a, b) ==> EqualsIgnoreCase(b, a)
    ensures EqualsIgnoreCase(a, b) && EqualsIgnoreCase(b, c) ==> EqualsIgnoreCase(a, c)
  {
  }

  /** A commit by `Alice@Example.com` matches the target `alice@example.com`. */
  lemma MixedCaseAuthorMatches()
    ensures EqualsIgnoreCase("Alice@Example.com", "alice@example.com")
  {
    var a, b := "Alice@Example.com", "alice@example.com";
    forall k | 0 <= k < |a| ensures FoldCase(a[k]) == FoldCase(b[k]) {
      if k != 0 && k != 6 {
        assert a[k] == b[k];
      }
    }
  }

  /** The commit's author e-mail equals the target ignoring case. */
  predicate Matches(c: Commit, target: string) {
    EqualsIgnoreCase(c.email, target)
  }

  /** `history.Where(c => c.Author.Email.Equals(target, IgnoreCase))`. */
  function Retained(history: seq<Commit>, target: string): (r: seq<Commit>)
    ensures |r| <= |history|
    ensures forall c :: c in r ==> c in history && Matches(c, target)
    ensures forall c :: c in history && Matches(c, target) ==> c in r
  {
    if history == [] then []
    else
      var last := history[|history| - 1];
      var front := history[..|history| - 1];
      assert history == front + [last];
      Retained(front, target) + (if Matches(last, target) then [last] else [])
  }

  /** The filter keeps history order: filtering a concatenation concatenates the filtered parts. */
  lemma {:induction false} RetainedAppend(xs: seq<Commit>, ys: seq<Commit>, target: string)
    ensures Retained(xs + ys, target) == Retained(xs, target) + Retained(ys, target)
    decreases |ys|
  {
    if ys == [] {
      assert xs + ys == xs;
    } else {
      var front := ys[..|ys| - 1];
      assert (xs + ys)[..|xs + ys| - 1] == xs + front;
      assert (xs + ys)[|xs + ys| - 1] == ys[|ys| - 1];
      RetainedAppend(xs, front, target);
    }
  }

  /** Walking one more commit of the history keeps it exactly when it matches. */
  lemma RetainedStep(history: seq<Commit>, i: nat, target: string)
    requires i < |history|
    ensures Retained(history[..i + 1], target) ==
      Retained(history[..i], target) + if Matches(history[i], target) then [history[i]] else []
  {
    assert history[..i + 1] == history[..i] + [history[i]];
    RetainedAppend(history[..i], [history[i]], target);
    RetainedSingle(history[i], target);
  }

  /** A single commit is kept exactly when it matches. */
  lemma RetainedSingle(c: Commit, target: string)
    ensures Retained([c], target) == if Matches(c, target) then [c] else []
  {
    assert [c][..0] == [];
  }
}
