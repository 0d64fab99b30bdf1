/**
 * `process_diff`: runs a fallible per-line callback over a diff's line
 * events, in diff order, and stops at the first error, which it keeps.
 */
module Driver {
  import opened Wrappers
  import opened Diff

  /** The records one callback outcome adds to the output. */
  function Emitted(o: Outcome): seq<Record>
  {
    if o.Report? then [o.record] else []
  }

  /** The records the callback reports, in order, when it is called on every event of `events`. */
  function Reports(events: seq<LineEvent>, cb: LineEvent -> Outcome): (out: seq<Record>)
    ensures |out| <= |events|
    ensures forall r :: r in out ==> exists i :: 0 <= i < |events| && cb(events[i]) == Report(r)
  {
    if events == [] then []
    else
      var last := |events| - 1;
      assert forall i :: 0 <= i < last ==> events[..last][i] == events[i];
      Reports(events[..last], cb) + Emitted(cb(events[last]))
  }

  /** Reporting over two stretches of a diff is reporting over each in turn. */
  lemma {:induction false} ReportsAppend(a: seq<LineEvent>, b: seq<LineEvent>, cb: LineEvent -> Outcome)
    ensures Reports(a + b, cb) == Reports(a, cb) + Reports(b, cb)
    decreases |b|
  {
    if b == [] {
      assert a + b == a;
    } else {
      var last := |b| - 1;
      assert (a + b)[..|a + b| - 1] == a + b[..last];
      ReportsAppend(a, b[..last], cb);
    }
  }

  /**
   * What a run cut short after `cut` events prints is a prefix of what the
   * full run would print; the rest is what the remaining events print.
   */
  lemma PrefixReportsArePrefix(events: seq<LineEvent>, cut: nat, cb: LineEvent -> Outcome)
    requires cut <= |events|
    ensures Reports(events, cb) == Reports(events[..cut], cb) + Reports(events[cut..], cb)
  {
    assert events == events[..cut] + events[cut..];
    ReportsAppend(events[..cut], events[cut..], cb);
  }

  /** The position of the first event on which the callback fails, or `|events|` when there is none. */
  function FirstFailure(events: seq<LineEvent>, cb: LineEvent -> Outcome): (k: nat)
    ensures k <= |events|
    ensures forall j :: 0 <= j < k ==> !cb(events[j]).Fail?
    ensures k < |events| ==> cb(events[k]).Fail?
  {
    if events == [] then 0
    else if cb(events[0]).Fail? then 0
    else 1 + FirstFailure(events[1..], cb)
  }

  /**
   * `process_diff`. The loop stands for the library's iteration (`diff.print`),
   * which hands the events to the callback in diff order and stops as soon as
   * the callback answers `false`; the callback answers `false` exactly when the
   * wrapped per-line function fails, after storing that error. `printError` is
   * what the library's iteration itself returns; when it is an error, the `?`
   * returns it instead of the stored one.
   *
   * `output` is what the per-line function reported; `invoked` counts its calls.
   */
  method ProcessDiff(events: seq<LineEvent>, cb: LineEvent -> Outcome, printError: Option<Failure>)
    returns (status: Status, output: seq<Record>, invoked: nat)
    ensures output == Reports(events[..FirstFailure(events, cb)], cb)
    ensures invoked == if FirstFailure(events, cb) < |events| then FirstFailure(events, cb) + 1 else |events|
    ensures printError.Some? ==> status == Err(printError.value)
    ensures printError.None? && FirstFailure(events, cb) < |events| ==>
      status == Err(cb(events[FirstFailure(events, cb)]).error)
    ensures printError.None? && FirstFailure(events, cb) == |events| ==> status.Ok?
  {
    var stored: Status := Ok(());
    output := [];
    invoked := 0;
    var i := 0;
    while i < |events|
      invariant 0 <= i <= |events|
      invariant invoked == i && stored == Ok(())
      invariant forall j :: 0 <= j < i ==> !cb(events[j]).Fail?
      invariant output == Reports(events[..i], cb)
    {
      var outcome := cb(events[i]);
      invoked := invoked + 1;
      match outcome {
        case Fail(error) =>
          stored := Err(error);
          break;
        case Report(record) =>
          output := output + [record];
        case Skip =>
      }
      assert events[..i + 1][..i] == events[..i];
      i := i + 1;
    }
    assert FirstFailure(events, cb) == i;
    if printError.Some? {
      status := Err(printError.value);
    } else {
      status := stored;
    }
  }
}
