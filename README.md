# git-branch-grep: the diff line filter and its driver

`git-branch-grep` searches the content of the diff between `master` and `HEAD` for a
search string. After git2 has computed the diff, the program's own logic is small:

- a per-line closure (`src/main.rs`, lines 45-61) that looks at each line event of the
  patch-format diff. It skips lines that are neither added (`'+'`) nor removed (`'-'`).
  It decodes the line's bytes as UTF-8 and fails on invalid input. It skips the line when
  the delta has no new-file path. It prints `added`, the text, the new-side line number
  and the path when the text contains the search string;
- `process_diff` (lines 66-79), which adapts that fallible closure to git2's
  "continue?" callback. It stores the closure's error, stops the iteration at the first
  error, and returns the stored result unless git2's iteration returns its own error first.

The model is six modules:

- `Wrappers` (wrappers.dfy): Rust's `Option` and `Result`.
- `Text` (text.dfy): bytes, `u32` line numbers, and `str::contains` as a recursive scan
  proved equal to "the pattern occurs at some position".
- `Diff` (diff.dfy): the line event, the printed record, the error type, and the
  outcome of one callback call: `Skip`, `Report(record)` or `Fail(error)`.
- `Driver` (driver.dfy): `process_diff`, for any per-line callback (it is generic over
  the callback only, as in the source).
  A `while` loop stands for git2's iteration. `Reports` and `FirstFailure` specify
  what the method prints and where it stops.
- `LineFilter` (line_filter.dfy): the closure as the function `Classify`.
- `Grep` (grep.dfy): `main` from line 45 on, as the method `SearchDiff`, and lemmas about
  whole runs.

Inputs that the program gets from outside are parameters:
- the diff is a `seq<LineEvent>` in diff order;
- UTF-8 decoding (`str::from_utf8`) is a `Decoder`, a function from bytes to
  `Option<string>`;
- what git2's `diff.print` itself returns is `printError`.

The `dbg!` output becomes the returned sequence of records.

The source this models is an early revision of the tool. It has no whitespace trimming,
no cancellation of moved lines, no base-commit resolution (it always diffs `master`
against `HEAD`), no regular expressions and no colour. Later designs of the tool
describe these, and they differ from the code in the following ways. The model follows
the code:
- the content is reported as decoded, with no trimming;
- the line number is the new-side one only, as an `Option` (absent for removed lines);
- the path always comes from the delta's new file, also for removed lines;
- a binary-file check does not exist.

## Model

| member | source | states |
|---|---|---|
| Text.Contains | src/main.rs:57 | `content.contains(search)` holds exactly when `search` occurs at some position of `content` |
| Text.EmptyPatternEverywhere | src/main.rs:57 | the empty search string is contained in every text |
| LineFilter.Classify | src/main.rs:45-61 | lines neither `'+'` nor `'-'` are skipped; the closure fails, with the line's bytes, exactly on a change line whose bytes are not UTF-8; it reports exactly the decodable change lines that have a new-file path and whose text contains `search`; the report carries `added == (origin == '+')`, the decoded text unaltered, the new-side line number and the new-file path |
| LineFilter.ContextLineNeverDecoded | src/main.rs:46-51 | a line that is neither added nor removed is skipped whatever the decoder, so its bytes are never decoded |
| LineFilter.UndecodableFailsWithoutPath | src/main.rs:51-56 | the UTF-8 check comes before the path check: an undecodable change line fails even when the delta has no new-file path |
| LineFilter.RemovedLineWithoutNewPathSkipped | src/main.rs:53-56 | a decodable removed line of a delta without a new-file path is skipped without error |
| LineFilter.EmptySearchReportsEveryChange | src/main.rs:57-59 | with an empty search string every decodable change line with a path is reported, with its fields unaltered |
| Driver.Reports | src/main.rs:71-72 | the records a run prints are at most one per event, each one reported by the callback for some event of the diff |
| Driver.ReportsAppend | src/main.rs:71-72 | the callback sees events in diff order: what two consecutive stretches print is what the first prints followed by what the second prints |
| Driver.PrefixReportsArePrefix | src/main.rs:71-76 | what a run cut short after some events prints is a prefix of what a full run would print; the full run prints that prefix followed by what the remaining events print |
| Driver.FirstFailure | src/main.rs:73-76 | the stop position: the callback succeeds on every event before it and fails on the event at it, if that event exists |
| Driver.ProcessDiff | src/main.rs:66-79 | the callback is called on the events up to and including the first failing one and on no later one; the output is the reports of the events before that one; the result is git2's own error if it returns one, otherwise the first callback error, otherwise `Ok(())` |
| Grep.ReportedLinesMatch | src/main.rs:51-59 | every printed record contains `search` and comes, unaltered, from a change line of the diff |
| Grep.SameOutcome | src/main.rs:46-51 | the closure's outcome on a line depends on the decoder only if the line is a change line |
| Grep.ContextContentIrrelevant | src/main.rs:46-51 | over a whole diff, decoders that agree on the change lines give the same output and stop at the same line: invalid UTF-8 on context lines is harmless |
| Grep.SearchDiff | src/main.rs:45-63 | the run stops at the first change line that is not UTF-8; the output is the matching lines before it; the result is git2's error if there is one, else that line's decoding error, else `Ok(())`; the result is `Ok` exactly when git2 succeeds and every change line decodes |
| Grep.AbortScenario | src/main.rs:45-79 | on a diff with an undecodable context line, a matching added line, an undecodable removed line and another matching added line, the run stops at the third line and prints only the first added line |

## Left out

- Opening the repository, resolving `master` and `HEAD`, peeling them to trees and
  computing the diff with its options (src/main.rs:27-42) are git2 calls; the diff is an input.
- Command-line parsing with argh (src/main.rs:18-25) is left out; `search` is a parameter.
- `diff.stats()` and the `dbg!` formatting (src/main.rs:44, 58) are debug output. A printed line
  is modelled only as a record appended to the output.
- UTF-8 decoding is not re-implemented. It is the `Decoder` parameter, and nothing is
  assumed about it.
- Driver.ProcessDiff: git2's iteration is modelled as visiting every event until the
  callback fails. An error that git2 raises part-way is modelled only as the final
  `printError`, and the model does not say which events git2 would still deliver then.
  When the callback aborts, git2 may itself report an error, which the `?` returns instead
  of the stored one. Which one it is depends on git2, so the model takes that as the
  `printError` input and does not decide it.
- File paths are modelled as strings, not as byte paths that may not be UTF-8.
