/**
 * The per-line closure that `main` hands to `process_diff`: it keeps added
 * and removed lines of the new file whose text contains the search string.
 */
module LineFilter {
  import opened Wrappers
  import opened Text
  import opened Diff

  /**
   * A UTF-8 decoder: `Some(text)` for valid input, `None` otherwise
   * (`str::from_utf8`, treated as given).
   */
  type Decoder = seq<Byte> -> Option<string>

  /** The origin markers of added (`'+'`) and removed (`'-'`) lines. */
  predicate IsChange(origin: char)
  {
    origin == '+' || origin == '-'
  }

  /** A change line whose content `decode` rejects: the one case in which the callback fails. */
  predicate Undecodable(ev: LineEvent, decode: Decoder)
  {
    IsChange(ev.origin) && decode(ev.content).None?
  }

  /**
   * The closure: skip lines that are neither added nor removed; decode the
   * content, failing if it is not UTF-8; skip lines whose delta has no
   * new-file path; report the line when its text contains `search`.
   */
  function Classify(ev: LineEvent, search: string, decode: Decoder): (r: Outcome)
    ensures !IsChange(ev.origin) ==> r == Skip
    ensures r.Fail? <==> Undecodable(ev, decode)
    ensures r.Fail? ==> r.error == InvalidUtf8(ev.content)
    ensures r.Report? <==>
      && IsChange(ev.origin)
      && decode(ev.content).Some?
      && ev.newFile.Some?
      && IsSubstringOf(search, decode(ev.content).value)
    ensures r.Report? ==>
      r.record == Record(ev.origin == '+', decode(ev.content).value, ev.newLineno, ev.newFile.value)
  {
    if !IsChange(ev.origin) then
      Skip
    else
      var added := ev.origin == '+';
      match decode(ev.content)
      case None => Fail(InvalidUtf8(ev.content))
      case Some(content) =>
        match ev.newFile
        case None => Skip
        case Some(file) =>
          if Contains(content, search) then Report(Record(added, content, ev.newLineno, file))
          else Skip
  }

  /** The closure as the callback `process_diff` receives. */
  function Filter(search: string, decode: Decoder): LineEvent -> Outcome
  {
    ev => Classify(ev, search, decode)
  }

  /** Content of a line that is neither added nor removed is never decoded: no decoder changes its outcome. */
  lemma ContextLineNeverDecoded(ev: LineEvent, search: string, d1: Decoder, d2: Decoder)
    requires !IsChange(ev.origin)
    ensures Classify(ev, search, d1) == Classify(ev, search, d2) == Skip
  {
  }

  /** Decoding comes before the path lookup: undecodable content fails even when there is no path. */
  lemma UndecodableFailsWithoutPath(ev: LineEvent, search: string, decode: Decoder)
    requires IsChange(ev.origin) && ev.newFile.None? && decode(ev.content).None?
    ensures Classify(ev, search, decode) == Fail(InvalidUtf8(ev.content))
  {
  }

  /**
   * The path always comes from the new side of the delta, so a decodable
   * removed line of a delta without a new-file path is skipped, not failed.
   */
  lemma RemovedLineWithoutNewPathSkipped(ev: LineEvent, search: string, decode: Decoder)
    requires ev.origin == '-' && ev.newFile.None? && decode(ev.content).Some?
    ensures Classify(ev, search, decode) == Skip
  {
  }

  /** An empty search string reports every decodable change line that has a path, unchanged. */
  lemma EmptySearchReportsEveryChange(ev: LineEvent, decode: Decoder)
    requires IsChange(ev.origin) && decode(ev.content).Some? && ev.newFile.Some?
    ensures Classify(ev, "", decode)
      == Report(Record(ev.origin == '+', decode(ev.content).value, ev.newLineno, ev.newFile.value))
  {
    EmptyPatternEverywhere(decode(ev.content).value);
  }
}
