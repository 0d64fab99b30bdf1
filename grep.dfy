/**
 * `main` once the diff has been computed: feed every line event of the
 * diff to the line filter through `process_diff`, and return its result.
 */
module Grep {
  import opened Wrappers
  import opened Text
  import opened Diff
  import opened Driver
  import opened LineFilter

  /** Every reported record is a change line of the diff, taken over unaltered, whose text contains `search`. */
  lemma ReportedLinesMatch(events: seq<LineEvent>, search: string, decode: Decoder)
    ensures forall r :: r in Reports(events, Filter(search, decode)) ==>
      && IsSubstringOf(search, r.content)
      && exists i :: 0 <= i < |events| && ReportedFrom(r, events[i], decode)
  {
    var cb := Filter(search, decode);
    forall r: Record | r in Reports(events, cb)
      ensures IsSubstringOf(search, r.content)
      ensures exists i :: 0 <= i < |events| && ReportedFrom(r, events[i], decode)
    {
      var i :| 0 <= i < |events| && cb(events[i]) == Report(r);
      assert Classify(events[i], search, decode) == Report(r);
      assert ReportedFrom(r, events[i], decode);
    }
  }

  /** `r` is what the filter reports for `ev`: same side, decoded text, new line number and new-file path. */
  ghost predicate ReportedFrom(r: Record, ev: LineEvent, decode: Decoder)
  {
    && IsChange(ev.origin)
    && r.added == (ev.origin == '+')
    && decode(ev.content) == Some(r.content)
    && r.lineno == ev.newLineno
    && ev.newFile == Some(r.file)
  }

  /** A line's outcome depends on its decoded content only when it is a change line. */
  lemma SameOutcome(ev: LineEvent, search: string, d1: Decoder, d2: Decoder)
    requires IsChange(ev.origin) ==> d1(ev.content) == d2(ev.content)
    ensures Filter(search, d1)(ev) == Filter(search, d2)(ev)
  {
  }

  /**
   * Only the content of change lines is ever decoded: two decoders that
   * agree on those give the same reports and fail at the same line.
   */
  lemma {:induction false} ContextContentIrrelevant(events: seq<LineEvent>, search: string, d1: Decoder, d2: Decoder)
    requires forall i :: 0 <= i < |events| && IsChange(events[i].origin) ==> d1(events[i].content) == d2(events[i].content)
    ensures Reports(events, Filter(search, d1)) == Reports(events, Filter(search, d2))
    ensures FirstFailure(events, Filter(search, d1)) == FirstFailure(events, Filter(search, d2))
  {
    if events != [] {
      var last := |events| - 1;
      SameOutcome(events[last], search, d1, d2);
      ContextContentIrrelevant(events[..last], search, d1, d2);
      SameOutcome(events[0], search, d1, d2);
      ContextContentIrrelevant(events[1..], search, d1, d2);
    }
  }

  /**
   * `main` from line 45 on: run the line filter over the diff through
   * `process_diff` and return what it returns. `reported` is what the
   * filter printed, in order. The run stops at the first change line that
   * is not UTF-8; without one, and without an error from git2's iteration,
   * it succeeds.
   */
  method SearchDiff(diff: seq<LineEvent>, search: string, decode: Decoder, printError: Option<Failure>)
    returns (status: Status, reported: seq<Record>)
    ensures forall j :: 0 <= j < FirstFailure(diff, Filter(search, decode)) ==> !Undecodable(diff[j], decode)
    ensures FirstFailure(diff, Filter(search, decode)) < |diff| ==>
      Undecodable(diff[FirstFailure(diff, Filter(search, decode))], decode)
    ensures reported == Reports(diff[..FirstFailure(diff, Filter(search, decode))], Filter(search, decode))
    ensures printError.Some? ==> status == Err(printError.value)
    ensures printError.None? && FirstFailure(diff, Filter(search, decode)) < |diff| ==>
      status == Err(InvalidUtf8(diff[FirstFailure(diff, Filter(search, decode))].content))
    ensures status.Ok? <==> printError.None? && forall j :: 0 <= j < |diff| ==> !Undecodable(diff[j], decode)
    ensures forall r :: r in reported ==> IsSubstringOf(search, r.content)
  {
    var invoked;
    status, reported, invoked := ProcessDiff(diff, Filter(search, decode), printError);
    var k := FirstFailure(diff, Filter(search, decode));
    assert forall j :: 0 <= j < |diff| ==> (Filter(search, decode)(diff[j]).Fail? <==> Undecodable(diff[j], decode));
    ReportedLinesMatch(diff[..k], search, decode);
  }

  /**
   * A worked run: an undecodable context line, a matching added line, an
   * undecodable removed line and a second matching added line. The context
   * line is passed over, the first added line is reported, the removed line
   * stops the run, and the second added line is never looked at.
   */
  lemma AbortScenario(ctx: seq<Byte>, bad: seq<Byte>, good: seq<Byte>, decode: Decoder)
    requires decode(ctx).None? && decode(bad).None?
    requires decode(good) == Some("needle here\n")
    ensures var events := [
        LineEvent(' ', ctx, Some(1), Some("file.txt")),
        LineEvent('+', good, Some(2), Some("file.txt")),
        LineEvent('-', bad, None, Some("file.txt")),
        LineEvent('+', good, Some(3), Some("file.txt"))];
      var cb := Filter("needle", decode);
      && FirstFailure(events, cb) == 2
      && Reports(events[..2], cb) == [Record(true, "needle here\n", Some(2), "file.txt")]
  {
    var events := [
        LineEvent(' ', ctx, Some(1), Some("file.txt")),
        LineEvent('+', good, Some(2), Some("file.txt")),
        LineEvent('-', bad, None, Some("file.txt")),
        LineEvent('+', good, Some(3), Some("file.txt"))];
    var cb := Filter("needle", decode);
    assert OccursAt("needle", "needle here\n", 0);
    assert cb(events[1]) == Report(Record(true, "needle here\n", Some(2), "file.txt"));
    assert cb(events[2]).Fail?;
    assert events[1..][1..] == events[2..];
    assert FirstFailure(events[2..], cb) == 0;
    assert events[..2][..1] == [events[0]];
    assert [events[0]][..0] == [];
  }
}
