/** The values that pass between git2's diff iteration and the per-line callback. */
module Diff {
  import opened Wrappers
  import opened Text

  /**
   * One line event of a patch-format diff, as the callback sees it:
   * the line's origin marker, its raw bytes, its line number on the new
   * side (absent for removed lines) and the path of the delta's new file
   * (absent when git2 has none).
   */
  datatype LineEvent = LineEvent(
    origin: char,
    content: seq<Byte>,
    newLineno: Option<U32>,
    newFile: Option<string>)

  /** The fields `main` prints for a matching line. */
  datatype Record = Record(added: bool, content: string, lineno: Option<U32>, file: string)

  /** Errors that end a run: undecodable line content, or an error from git2 itself. */
  datatype Failure = InvalidUtf8(bytes: seq<Byte>) | GitError(message: string)

  /** What `process_diff` and `main` return: `Ok(())` or the error that ended the run. */
  type Status = Result<(), Failure>

  /**
   * What one call of the per-line callback amounts to: it returned `Ok(())`
   * having printed nothing, returned `Ok(())` after printing `record`, or
   * returned `Err(error)`.
   */
  datatype Outcome = Skip | Report(record: Record) | Fail(error: Failure)
}
