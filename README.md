# gitty `by-author`: character-level line diff, modelled in Dafny

`gitty` is a small command-line tool built on LibGit2Sharp. Its `by-author`
command walks the commit history and keeps the commits whose author e-mail
matches a target e-mail, ignoring case. For each kept commit it diffs the
commit's tree against HEAD. For every changed file it then shows the changed
lines one line number at a time, coloured character by character:

- **Character escaping** (`GitAdapter.FormatChar`): carriage return, line feed
  and tab are shown as `\r`, `\n` and `\t`. Every other character is shown as
  itself.
- **Positional line-pair alignment** (`GitAdapter.Diff2Lines`): an added line
  and a deleted line with the same line number are compared at equal indices
  only. There is no common-subsequence alignment. Each character is tagged
  unchanged or changed on its own side, with the four styles `AddedSame`
  (cyan), `AddedDiff` (green), `DeletedSame` (red) and `DeletedDiff` (brown).
  The deleted side is written first, then the added side, then an empty line.
- **Change-set projection** (the per-file block of `Program.Main`): the line
  numbers of a file's added and deleted records are merged into a distinct,
  ascending list. Each number is shown in one of three ways: as a paired
  change (the first record on each side goes through `Diff2Lines`), as a pure
  addition (every character `AddedDiff`) or as a pure deletion (every
  character `DeletedDiff`).
- **Author filter**: the `-e` e-mail, or the local `user.email` configuration
  when that e-mail is empty or white space, is compared with each commit's
  author e-mail, ignoring case. History order is kept.

The library's results become plain inputs. A diff line record is a
`Line(lineNumber, content)`. A commit is its summary title, its author e-mail
and its changed files against HEAD, each a path with added and deleted
records. The local configuration value is an `Option<string>`. Console output
becomes a returned sequence of `Token`s:

- `Styled(text, style)` for `Console.WriteStyled`;
- `Newline` for `Console.Write("\n")`;
- `CommitLine` and `PathLine` for the two summary `WriteLine`s.

Files (one module each): `wrappers.dfy` (Option, Result), `escape.dfy`
(FormatChar), `render.dfy` (styles, tokens, writing styled characters),
`align.dfy` (Diff2Lines), `projection.dfy` (line numbers, lookup, dispatch,
the specification of a file's output), `authors.dfy` (target e-mail,
case-insensitive filter), `by_author.dfy` (the loops of `Main` as methods).

Two behaviours of the code are easy to misread:

- The help text calls `-n` the "Number of commits" (gitty/Program.cs:36).
  The code only prints the number (gitty/Program.cs:43) and scans the whole
  history.
- The help text says `-e` defaults to the local user (gitty/Program.cs:38).
  The code reads `authorConfig.Value` only when `-e` is blank. A missing
  configuration entry then fails with a null reference, which the model gives
  as `Err(MissingEmailConfig)`. A present but blank value is used as the
  target as it is (gitty/Program.cs:47-48).

## Model

| member | source | states |
|---|---|---|
| Escape.FormatChar | gitty/Program.cs:120-134 | The result is 1 or 2 characters long. It is 2 long exactly for `\r`, `\n`, `\t`, and then begins with a backslash. Any other character maps to the string of itself. |
| Escape.FormatCharEscapes | gitty/Program.cs:121-131 | `\r`, `\n`, `\t` map to the two-character strings `\\r`, `\\n`, `\\t`. |
| Escape.FormatCharInjective | gitty/Program.cs:120-134 | Different characters are never shown the same way. |
| Escape.Escaped | gitty/Program.cs:199-205 | The text a whole line is shown as (each character through FormatChar) is at least as long as the line and at most twice as long. |
| Escape.UnescapeEscaped | gitty/Program.cs:120-134 | A line without a backslash can be read back from how it is shown (round trip with Unescape). |
| Escape.EscapedAmbiguous | gitty/Program.cs:120-134 | With a backslash the shown text is ambiguous: backslash followed by `n` looks exactly like a line feed. |
| Render.RenderChars | gitty/Program.cs:199-205 | One token per styled character, in order: its FormatChar text in its own style. |
| Render.RenderCharsSnoc | gitty/Program.cs:199-205 | Writing the list one character at a time builds up the same tokens (used by the writing loop). |
| Render.Uniform | gitty/Program.cs:88-95 | Every character of a line in one style, in order, same length. |
| Render.CharsOf | gitty/Program.cs:199-205 | The characters of a styled list, in order, same length. |
| Render.TextOfAppend | gitty/Program.cs:199-208 | The text of consecutive writes is the concatenation of their texts. |
| Render.TextOfRenderChars | gitty/Program.cs:199-205 | The text written for a styled list is the escaped text of its characters. |
| Align.Alignment | gitty/Program.cs:182-196 | Reference definition of the alignment with the loop's four cases in order. The added list is as long as the added line and the deleted list as long as the deleted line. |
| Align.AddedStyle | gitty/Program.cs:183-191 | The tag of the k-th added character: `AddedSame` when the deleted line has an index k holding the same character, else `AddedDiff`. |
| Align.DeletedStyle | gitty/Program.cs:183-195 | The tag of the k-th deleted character: `DeletedSame` when the added line has an index k holding the same character, else `DeletedDiff`. |
| Align.AlignAt | gitty/Program.cs:177-196 | The k-th entry of each list carries the k-th input character. Its tag is `*Same` iff the other line also has an index k holding the same character, else `*Diff`. |
| Align.AlignByIndex | gitty/Program.cs:182-196 | Two lists that have Alignment's entry at every index, and the right lengths, are exactly Alignment's two lists. |
| Align.AlignSidesAgree | gitty/Program.cs:189-195 | At an index both lines have, the added entry is `AddedSame` iff the characters are equal. The deleted entry is `DeletedSame` iff they are equal. The two sides always agree. |
| Align.AlignPastShorter | gitty/Program.cs:183-188 | Past the shorter line's end only the longer side has entries, each tagged `*Diff`. The shorter side's list stays as long as its line. |
| Align.AlignSideStyles | gitty/Program.cs:185-194 | Added entries only carry `AddedSame`/`AddedDiff`. Deleted entries only carry `DeletedSame`/`DeletedDiff`. |
| Align.AlignIdentical | gitty/Program.cs:189-191 | Two identical lines are tagged `AddedSame`/`DeletedSame` throughout. |
| Align.AlignAgainstEmpty | gitty/Program.cs:183-188 | Against an empty line every character is `*Diff`, which is the list a pure addition or deletion shows. |
| Align.PairOutputText | gitty/Program.cs:199-208 | As text, the paired output is the escaped deleted line, a line break, the escaped added line, two line breaks. |
| Align.PairOutput | gitty/Program.cs:199-208 | The tokens of a paired line: the deleted list written, `Newline`, the added list written, `Newline`, `Newline`. One token per character plus three line breaks. |
| Align.PairOutputLength | gitty/Program.cs:199-208 | A paired line writes one token per character of either line and three line breaks. |
| Align.EmitChars | gitty/Program.cs:199-205 | The ForEach loop appends exactly the tokens of RenderChars to what was written before. |
| Align.Diff2Lines | gitty/Program.cs:168-212 | The index loop up to the longer length builds exactly the two lists of Alignment. The tokens written are the deleted list, `Newline`, the added list, `Newline`, `Newline`. |
| Projection.Numbers | gitty/Program.cs:72-73 | The line numbers of the records, one per record, in order. |
| Projection.HasLine | gitty/Program.cs:82-85 | Some record of the list has the line number (the `Where(...).Any()` test). |
| Projection.InsertSorted | gitty/Program.cs:74-75 | Inserting into a strictly ascending list keeps it strictly ascending, and adds exactly the new value. |
| Projection.SortDistinct | gitty/Program.cs:74-75 | `Distinct().OrderBy(d => d)`: strictly ascending, with exactly the input's values. |
| Projection.LineNumbers | gitty/Program.cs:72-75 | The enumerated numbers are strictly ascending (so distinct). A number is in the list iff some added or some deleted record has it. |
| Projection.LineNumbersOrderFree | gitty/Program.cs:72-75 | The enumeration depends only on which numbers occur on each side, not on record order or repetition. |
| Projection.LineNumbersNonEmpty | gitty/Program.cs:72-75 | A file with at least one record has at least one line number to walk. |
| Projection.FirstIndex | gitty/Program.cs:82-86 | `Where(...).Any()` / `.First()`: the index of the first record with the number, or none iff no record has it. |
| Projection.Dispatch | gitty/Program.cs:81-97 | Paired iff both sides have the number, added-only iff only the added side, deleted-only iff only the deleted side, nothing iff neither. The records used are the first with that number. |
| Projection.EnumeratedDispatched | gitty/Program.cs:81-97 | Every enumerated line number takes one of the three branches. |
| Projection.LineOutput | gitty/Program.cs:81-97 | The tokens for one line number, by its dispatch: the paired output, the added content all `AddedDiff` and a line break, the deleted content all `DeletedDiff` and a line break, or nothing. |
| Projection.OutputFor | gitty/Program.cs:81-99 | The tokens for a list of line numbers: each number's output, in list order. |
| Projection.FileOutput | gitty/Program.cs:72-99 | The tokens for one file: the output for its enumerated line numbers, ascending. |
| Projection.OutputForAppend | gitty/Program.cs:81-99 | The output for consecutive runs of line numbers is their outputs one after the other. |
| Projection.OutputForStep | gitty/Program.cs:81-99 | Walking one more line number appends exactly that number's output. |
| Projection.FileOutputFirst | gitty/Program.cs:81-99 | A file's output starts with that of its smallest line number, followed by that of the rest. |
| Projection.FileOutputEmpty | gitty/Program.cs:72-99 | A file with no added and no deleted records writes nothing. |
| Projection.LineOutputText | gitty/Program.cs:85-97 | As text, a paired line is the deleted, then the added content, then an empty line. A pure addition or deletion is its escaped content and one line break. |
| Projection.UniformText | gitty/Program.cs:87-96 | As text, a pure addition or deletion is its escaped content followed by one line break. |
| Projection.LineOutputByLookup | gitty/Program.cs:82-97 | A line number's output, in terms of the two first-record lookups. |
| ByAuthor.RenderLineNumber | gitty/Program.cs:82-97 | The body of the foreach writes exactly the line number's output. |
| ByAuthor.RenderFile | gitty/Program.cs:72-99 | The foreach over a file's line numbers writes exactly the file's output, in ascending line-number order. |
| ByAuthor.FileChangeOutput | gitty/Program.cs:55-99 | The tokens for one changed file: its summary line with path and record counts, then its rendering. |
| ByAuthor.ChangesOutput | gitty/Program.cs:55-99 | The tokens for a commit's changed files, each file's output in diff order. |
| ByAuthor.ChangesOutputStep | gitty/Program.cs:55-99 | One more changed file appends that file's summary line and rendering. |
| ByAuthor.CommitOutput | gitty/Program.cs:52-99 | The tokens for one retained commit: its summary line, then its changed files' output. |
| ByAuthor.ScanOutput | gitty/Program.cs:50-99 | The tokens for the retained commits, each commit's output in history order. |
| ByAuthor.ScanOutputStep | gitty/Program.cs:50-99 | One more retained commit appends exactly that commit's output. |
| ByAuthor.RenderCommit | gitty/Program.cs:52-99 | A retained commit writes its summary line, then for each changed file in order its summary line and rendering. |
| ByAuthor.OtherAuthorIgnored | gitty/Program.cs:50-51 | A commit by another author changes neither the retained list nor the output. |
| ByAuthor.ScanHistory | gitty/Program.cs:50-99 | The foreach over the history keeps exactly the filtered history, in order, and writes exactly its output. |
| ByAuthor.Run | gitty/Program.cs:46-99 | Fails iff `-e` is blank and no e-mail is configured. Otherwise the retained commits are exactly the filtered history, in order, and the output is theirs. |
| Authors.TargetEmail | gitty/Program.cs:47-48 | A non-blank `-e` e-mail is the target. A blank one falls back to the configured value. A blank one with no configuration is an error. |
| Authors.IsWhiteSpace | gitty/Program.cs:48 | The characters `Char.IsWhiteSpace` accepts: space, tab to carriage return, U+0085, U+00A0, U+1680, U+2000 to U+200A, U+2028, U+2029, U+202F, U+205F and U+3000. |
| Authors.IsNullOrWhiteSpace | gitty/Program.cs:48 | `String.IsNullOrWhiteSpace` on a string that is never null: every character is white space, so the empty string is blank. |
| Authors.FoldCase | gitty/Program.cs:50-51 | The folded character is never an upper-case ASCII letter. It is the character itself or the same letter in the other case. |
| Authors.SameLetterOtherCase | gitty/Program.cs:50-51 | Two characters are one ASCII letter in upper and lower case, in either order. |
| Authors.FoldCaseEqual | gitty/Program.cs:50-51 | Two characters fold alike iff they are equal or one ASCII letter in its two cases. |
| Authors.EqualsIgnoreCase | gitty/Program.cs:51 | The e-mail comparison: equal lengths and equal characters after folding, index by index. |
| Authors.EqualsIgnoreCaseByLetter | gitty/Program.cs:51 | Two e-mails are equal ignoring case iff they have the same length and at every index the characters are equal or one ASCII letter in its two cases. |
| Authors.Lower | gitty/Program.cs:50-51 | A string with every character folded keeps its length, and its k-th character is the folded k-th character. |
| Authors.EqualsIgnoreCaseLower | gitty/Program.cs:50-51 | Two e-mails are equal ignoring case iff their folded forms are equal. |
| Authors.EqualsIgnoreCaseEquivalence | gitty/Program.cs:50-51 | Equality ignoring case is reflexive, symmetric and transitive. |
| Authors.Matches | gitty/Program.cs:51 | The `Where` test: the commit's author e-mail equals the target ignoring case. |
| Authors.MixedCaseAuthorMatches | gitty/Program.cs:50-51 | `Alice@Example.com` matches the target `alice@example.com`. |
| Authors.Retained | gitty/Program.cs:50-51 | Every kept commit is in the history and matches. Every matching commit of the history is kept. |
| Authors.RetainedAppend | gitty/Program.cs:50-51 | The filter keeps history order: filtering a concatenation concatenates the filtered parts. |
| Authors.RetainedStep | gitty/Program.cs:50-51 | Walking one more commit of the history keeps it iff its e-mail matches, after the ones kept so far. |
| Authors.RetainedSingle | gitty/Program.cs:50-51 | A single commit is kept iff its e-mail matches. |

## Left out

- Opening the repository, `repo.Commits`, `repo.Diff.Compare<Patch>`, `repo.Head` and `repo.Config.Get` are LibGit2Sharp calls. Their results are inputs: the commit sequence (in the order the history walk yields), each commit's changed files against HEAD, and the configured `user.email`. Releasing the repository handle (`using`) is not modelled.
- Failures inside the library (an unreadable blob, a path that is not a repository) are not modelled.
- Option parsing with Mono.Options and the `OptionException` message are left out, because the parser is a foreign library. So are the `args` echo, the "Hello World!" and "Nothing to do." lines, the three lines written after parsing (the commit count, the repository location and the comma-joined extra arguments, gitty/Program.cs:43-45), and the empty `line-endings` branch.
- The `-n` number is only printed and never limits the scan. The `-c` value is never used. Neither is modelled.
- The text formatting of the summary lines is left out. `CommitLine` carries the commit's title, which stands for `When` and `MessageShort`. `PathLine` carries the path and the added and deleted counts, taken as the number of records on each side.
- The tree-entry dump after each commit (gitty/Program.cs:102-108) is left out. So are the unused `lines` intersection (gitty/Program.cs:70-71) and the empty loop at gitty/Program.cs:210-211.
- Terminal colours are replaced by the four-value `Style` enumeration.
- `GetUnmergedFiles`, `GitCatFile`, the `GitDiff*` methods, `ListFilesChangedVsHead`, `Scratch`, `ListRoot`, `GetLatestCommit`, `GetCommit`, `GetCommits` and `GetBranches` are thin library and stream wrappers with no logic of their own, so they are left out. `FetchAllRemotesUsingAuth` and `GitFetchOrigin` use the network and credentials, so they are left out too.
- Authors.EqualsIgnoreCase: matches only e-mails of equal length that agree at every index up to ASCII case. The code compares with `StringComparison.InvariantCultureIgnoreCase` (gitty/Program.cs:51), the invariant culture's linguistic comparison ignoring case. That comparison also skips ignorable characters and treats canonically equivalent strings as equal, so e-mails of different lengths can match: `ab@x.org` matches `a` U+00AD `b@x.org` (a soft hyphen), and U+00C5 matches `A` U+030A. It also folds case beyond ASCII. The model therefore keeps a subset of the commits the code keeps, and the two agree on e-mails made only of ASCII letters, digits, `.` and `@`.
- Characters are Unicode scalar values in the model, which never include surrogates. A C# `char` is a UTF-16 code unit, and `Diff2Lines` compares code units. The model agrees with the code only on lines with no character outside the Basic Multilingual Plane. Such a character is two code units in the code, so it takes two positions in the alignment and produces two `FormatChar` tokens, where the model has one. For example, for the added line "😀a" and the deleted line "xa" the model tags both `a`s as unchanged. In the code the deleted `a` meets the emoji's second code unit and is tagged `DeletedDiff`, and the added `a` lies past the end of the deleted line and is tagged `AddedDiff`.
