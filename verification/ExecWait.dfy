/**
 Waiting for a run: never past its time limit, stopping as soon as it is asked to, and telling a
 watcher the latest remark no more often than the watcher asked to be told.
 */
module ExecWait {
  import opened Bytes
  import opened Exec
  import opened Wrappers

  /** What one wait for the outcome came back with. */
  datatype Received = Finished | StillRunning | Disconnected

  /**
   One look around the loop: whether the run has been asked to stop, how many bytes of what it says
   about itself have been read by then, the instant a report was considered, the instant it was noted
   as made, and what the wait that follows came back with.
   */
  datatype Look = Look(stopped: bool, read: nat, considered: int, noted: int, received: Received)

  datatype Outcome = Ended | TimedOut | Stopped | Lost

  /** The bounds a run is under; `interval` is there when somebody is watching. */
  datatype Bounds = Bounds(timeLimit: nat, stoppable: bool, interval: Option<nat>)

  /** A report made: which of the published remarks it was, when it was considered and when it was noted. */
  datatype Report = Report(which: nat, considered: int, noted: int)

  function Shorter(a: nat, b: nat): nat {
    if a <= b then a else b
  }

  ghost predicate Forwards(looks: nat -> Look) {
    forall k: nat ::
      && looks(k).considered <= looks(k).noted <= looks(k + 1).considered
      && looks(k).read <= looks(k + 1).read
  }

  /** What is left of the time limit after `k` waits. */
  function LeftAfter(timeLimit: nat, k: nat): nat {
    if k * STOP_CHECK >= timeLimit then 0 else timeLimit - k * STOP_CHECK
  }

  /** The wait is not settled at this look: nobody asked it to stop, there is time left, and nothing came of waiting. */
  predicate GoesOn(bounds: Bounds, looks: nat -> Look, k: nat) {
    !(bounds.stoppable && looks(k).stopped) && LeftAfter(bounds.timeLimit, k) > 0 && looks(k).received.StillRunning?
  }

  /** How the wait is settled at this look, if it is. Being asked to stop comes before all else. */
  function Verdict(bounds: Bounds, looks: nat -> Look, k: nat): Outcome
    requires !GoesOn(bounds, looks, k)
  {
    if bounds.stoppable && looks(k).stopped then Stopped
    else if LeftAfter(bounds.timeLimit, k) == 0 then TimedOut
    else if looks(k).received.Finished? then Ended
    else Lost
  }

  // ---------------------------------------------------------------- reports

  /** Each report is of a published remark, and each remark is reported at most once and in its turn. */
  predicate InTurn(reports: seq<Report>, published: nat) {
    && (forall i | 0 <= i < |reports| :: reports[i].which < published)
    && (forall i, j | 0 <= i < j < |reports| :: reports[i].which < reports[j].which)
  }

  /** No report is considered until an interval has passed since the one before was noted. */
  predicate Spaced(reports: seq<Report>, interval: nat) {
    && (forall i | 0 <= i < |reports| :: reports[i].considered <= reports[i].noted)
    && (forall i | 0 < i < |reports| :: reports[i].considered - reports[i - 1].noted >= interval)
  }

  function Times(n: nat, interval: nat): nat {
    if n == 0 then 0 else interval + Times(n - 1, interval)
  }

  /** So many reports take at least one interval fewer to make. */
  lemma {:induction false} ReportsTakeTime(reports: seq<Report>, interval: nat)
    requires Spaced(reports, interval) && reports != []
    ensures reports[|reports| - 1].noted - reports[0].noted >= Times(|reports| - 1, interval)
    decreases |reports|
  {
    if |reports| > 1 {
      var front := reports[..|reports| - 1];
      assert forall i | 0 <= i < |front| :: front[i] == reports[i];
      ReportsTakeTime(front, interval);
    }
  }

  /** How many published remarks have been reported or superseded. */
  function Settled(reports: seq<Report>): nat {
    if reports == [] then 0 else reports[|reports| - 1].which + 1
  }

  /** The slot holds a remark exactly when something has been said since the last report. */
  ghost predicate Unheard(latest: Latest, reports: seq<Report>)
    reads latest
  {
    && latest.Valid()
    && InTurn(reports, |latest.published|)
    && Settled(reports) <= |latest.published|
    && (latest.slot.Some? <==> Settled(reports) < |latest.published|)
  }

  /** How far into a stream of `length` bytes the collector has read by the end of `k` looks. */
  function ReadBy(looks: nat -> Look, k: nat, length: nat): (at: nat)
    ensures at <= length
  {
    if k == 0 then 0 else Shorter(looks(k - 1).read, length)
  }

  /** The collector has read the stream as far as `at`, and published what it says as far as that. */
  ghost predicate Collected(latest: Latest, stream: seq<byte>, at: nat, remark: seq<byte>)
    reads latest
  {
    at <= |stream| && ProgressOf(stream[..at]) == Progress(remark, latest.published) && |remark| <= REMARK_LIMIT
  }

  /** The collector reads on, publishing each remark that ends. */
  method Collect(latest: Latest, stream: seq<byte>, at: nat, to: nat, remark: seq<byte>, ghost reports: seq<Report>,
                 ghost heard: seq<Remark>)
    returns (next: seq<byte>)
    requires Handed(latest, reports, heard) && Collected(latest, stream, at, remark) && at <= to <= |stream|
    modifies latest
    ensures Handed(latest, reports, heard) && Collected(latest, stream, to, next)
  {
    ghost var said := latest.published;
    assert [] + said == said;
    assert stream[..at] + stream[at..to] == stream[..to];
    next := Watch(stream[at..to], stream[..at], [], remark, latest);
    assert latest.published == ProgressOf(stream[..to]).said;
    HeardStays(reports, said, latest.published);
  }

  /** What the observer has been handed. */
  function Heard(reports: seq<Report>, published: seq<Remark>): seq<Remark>
    requires InTurn(reports, |published|)
  {
    seq(|reports|, i requires 0 <= i < |reports| => published[reports[i].which])
  }

  lemma HeardStays(reports: seq<Report>, had: seq<Remark>, now: seq<Remark>)
    requires InTurn(reports, |had|) && had <= now
    ensures Heard(reports, now) == Heard(reports, had)
  {
  }

  function LastNoted(reports: seq<Report>): Option<int> {
    if reports == [] then None else Some(reports[|reports| - 1].noted)
  }

  lemma ReportNext(reports: seq<Report>, published: seq<Remark>, report: Report)
    requires InTurn(reports, |published|) && Settled(reports) <= report.which == |published| - 1
    ensures InTurn(reports + [report], |published|) && Settled(reports + [report]) == |published|
    ensures Heard(reports + [report], published) == Heard(reports, published) + [published[|published| - 1]]
  {
  }

  lemma SpacedNext(reports: seq<Report>, report: Report, interval: nat)
    requires Spaced(reports, interval) && report.considered <= report.noted
    requires reports != [] ==> report.considered - reports[|reports| - 1].noted >= interval
    ensures Spaced(reports + [report], interval)
  {
  }

  /** What the watcher has been handed is what was reported, and the slot holds what is still to be. */
  ghost predicate Handed(latest: Latest, reports: seq<Report>, heard: seq<Remark>)
    reads latest
  {
    Unheard(latest, reports) && heard == Heard(reports, latest.published)
  }

  /** Reports the latest of what has not been heard, if an interval has passed since the last report. */
  method Consider(interval: nat, look: Look, latest: Latest, reported: Option<int>, heardBefore: seq<Remark>,
                  ghost before: seq<Report>)
    returns (noted: Option<int>, heard: seq<Remark>, ghost reports: seq<Report>)
    requires Handed(latest, before, heardBefore)
    requires Spaced(before, interval) && reported == LastNoted(before)
    requires look.considered <= look.noted
    modifies latest`slot
    ensures Handed(latest, reports, heard)
    ensures Spaced(reports, interval) && noted == LastNoted(reports)
    ensures var due := reported.None? || look.considered - reported.value >= interval;
            if due && old(latest.slot).Some? then heard == heardBefore + [old(latest.slot).value] && latest.slot == None
            else heard == heardBefore && latest.slot == old(latest.slot)
  {
    heard, noted, reports := heardBefore, reported, before;
    var due := reported.None? || look.considered - reported.value >= interval;
    if due {
      var taken := latest.TakeLatest();
      if taken.Some? {
        ghost var report := Report(|latest.published| - 1, look.considered, look.noted);
        ReportNext(reports, latest.published, report);
        SpacedNext(reports, report, interval);
        heard := heard + [taken.value];
        reports := reports + [report];
        noted := Some(look.noted);
      }
    }
  }

  /** Everything about the reporting, between one look and the next. */
  ghost predicate Watching(latest: Latest, stream: seq<byte>, at: nat, remark: seq<byte>, interval: Option<nat>,
                           reported: Option<int>, heard: seq<Remark>, reports: seq<Report>)
    reads latest
  {
    && Collected(latest, stream, at, remark)
    && Handed(latest, reports, heard) && reported == LastNoted(reports)
    && match interval case Some(least) => Spaced(reports, least) case None => reports == []
  }

  /** One look's worth of watching: the collector reads as far as it has by then, and what is due is reported. */
  method LookOnce(interval: nat, look: Look, stream: seq<byte>, latest: Latest, at: nat, remark: seq<byte>,
                  reported: Option<int>, heardBefore: seq<Remark>, ghost before: seq<Report>)
    returns (to: nat, next: seq<byte>, noted: Option<int>, heard: seq<Remark>, ghost reports: seq<Report>)
    requires Watching(latest, stream, at, remark, Some(interval), reported, heardBefore, before)
    requires at <= look.read && look.considered <= look.noted
    modifies latest
    ensures to == Shorter(look.read, |stream|)
    ensures Watching(latest, stream, to, next, Some(interval), noted, heard, reports)
  {
    to := Shorter(look.read, |stream|);
    next := Collect(latest, stream, at, to, remark, before, heardBefore);
    noted, heard, reports := Consider(interval, look, latest, reported, heardBefore, before);
  }

  /**
   Waits for the outcome in short steps. The wait is settled at the first look that settles it, in
   the way that look settles it; a watcher is handed published remarks in their turn, each at most
   once, an interval apart.
   */
  method WaitWatching(bounds: Bounds, looks: nat -> Look, stream: seq<byte>, latest: Latest)
    returns (outcome: Outcome, heard: seq<Remark>, last: nat, waited: nat, at: nat, remark: seq<byte>,
             ghost reports: seq<Report>)
    requires Forwards(looks)
    requires latest.Valid() && latest.published == [] && latest.slot == None
    modifies latest
    ensures !GoesOn(bounds, looks, last) && outcome == Verdict(bounds, looks, last)
    ensures forall k: nat | k < last :: GoesOn(bounds, looks, k)
    ensures waited + LeftAfter(bounds.timeLimit, last) == bounds.timeLimit
    ensures outcome == TimedOut ==> waited == bounds.timeLimit
    ensures exists reported :: Watching(latest, stream, at, remark, bounds.interval, reported, heard, reports)
    ensures bounds.interval.Some? ==>
              at == ReadBy(looks, if outcome == Stopped then last else last + 1, |stream|)
  {
    var left := bounds.timeLimit;
    var reported: Option<int> := None;
    heard, reports, last, waited := [], [], 0, 0;
    at, remark := 0, [];
    while true
      invariant forall k: nat | k < last :: GoesOn(bounds, looks, k)
      invariant left == LeftAfter(bounds.timeLimit, last) && waited + left == bounds.timeLimit
      invariant Watching(latest, stream, at, remark, bounds.interval, reported, heard, reports)
      invariant bounds.interval.Some? ==> at == ReadBy(looks, last, |stream|)
      decreases left
    {
      var look := looks(last);
      if bounds.stoppable && look.stopped {
        outcome := Stopped;
        return;
      }
      if bounds.interval.Some? {
        assert looks(last).considered <= looks(last).noted;
        assert last > 0 ==> looks(last - 1).read <= looks(last - 1 + 1).read;
        at, remark, reported, heard, reports :=
          LookOnce(bounds.interval.value, look, stream, latest, at, remark, reported, heard, reports);
      }
      if left == 0 {
        outcome := TimedOut;
        return;
      }
      var step := if left <= STOP_CHECK then left else STOP_CHECK;
      match look.received {
        case Finished =>
          outcome := Ended;
          return;
        case Disconnected =>
          outcome := Lost;
          return;
        case StillRunning =>
          left := left - step;
          waited := waited + step;
          last := last + 1;
      }
    }
  }

  /** However long a run is waited for, it is looked at no more often than its time limit has steps, and once more. */
  lemma LooksAreBounded(bounds: Bounds, looks: nat -> Look, last: nat)
    requires forall k: nat | k < last :: GoesOn(bounds, looks, k)
    ensures last * STOP_CHECK < bounds.timeLimit + STOP_CHECK
  {
    if last > 0 {
      assert GoesOn(bounds, looks, last - 1);
    }
  }

  /** When the run's end reaches the waiter, and as what. */
  datatype Arrival = Arrival(at: nat, lost: bool)

  /** What waiting from one instant for so long comes back with. */
  function Receive(arrival: Option<Arrival>, from: nat, wait: nat): Received {
    if arrival.None? || arrival.value.at > from + wait then StillRunning
    else if arrival.value.lost then Disconnected
    else Finished
  }

  /** One receive over the whole time limit. */
  method WaitOnce(timeLimit: nat, arrival: Option<Arrival>) returns (outcome: Outcome)
    ensures outcome == AtOnce(timeLimit, arrival)
  {
    match Receive(arrival, 0, timeLimit) {
      case Finished => outcome := Ended;
      case StillRunning => outcome := TimedOut;
      case Disconnected => outcome := Lost;
    }
  }

  function AtOnce(timeLimit: nat, arrival: Option<Arrival>): Outcome {
    match Receive(arrival, 0, timeLimit)
    case Finished => Ended
    case StillRunning => TimedOut
    case Disconnected => Lost
  }

  /** Each look's wait is one step of the same waiting, from where the look before left off. */
  ghost predicate StepsThrough(timeLimit: nat, looks: nat -> Look, arrival: Option<Arrival>) {
    forall k: nat :: looks(k).received == Receive(arrival, k * STOP_CHECK, Shorter(LeftAfter(timeLimit, k), STOP_CHECK))
  }

  /**
   Waiting in short steps for a run nobody asks to stop comes to what waiting all at once comes to,
   exactly when there is any time to wait at all or nothing is there yet: with no time, the steps
   never look.
   */
  lemma StepsComeToOneWait(bounds: Bounds, looks: nat -> Look, arrival: Option<Arrival>, last: nat)
    requires StepsThrough(bounds.timeLimit, looks, arrival)
    requires forall k: nat | k < last :: GoesOn(bounds, looks, k)
    requires !GoesOn(bounds, looks, last) && !(bounds.stoppable && looks(last).stopped)
    ensures Verdict(bounds, looks, last) == AtOnce(bounds.timeLimit, arrival)
            <==> bounds.timeLimit > 0 || arrival.None? || arrival.value.at > 0
  {
    var left := LeftAfter(bounds.timeLimit, last);
    assert looks(last).received == Receive(arrival, last * STOP_CHECK, Shorter(left, STOP_CHECK));
    if last > 0 {
      var before := LeftAfter(bounds.timeLimit, last - 1);
      assert GoesOn(bounds, looks, last - 1);
      assert looks(last - 1).received == Receive(arrival, (last - 1) * STOP_CHECK, Shorter(before, STOP_CHECK));
    }
  }

  datatype RunResult = Output(output: seq<byte>) | OverLimit | OutOfTime | WasStopped | NoOutcome

  /** Reads the stream to its end and hands over the last remark it ended, whenever the last report was. */
  method Flush(latest: Latest, stream: seq<byte>, at: nat, remark: seq<byte>, heardBefore: seq<Remark>,
               ghost before: seq<Report>)
    returns (heard: seq<Remark>, ghost reports: seq<Report>)
    requires Handed(latest, before, heardBefore)
    requires Collected(latest, stream, at, remark)
    modifies latest
    ensures latest.published == Remarks(stream)
    ensures InTurn(reports, |latest.published|) && heard == Heard(reports, latest.published)
    ensures Settled(reports) == |latest.published|
    ensures reports == before || (reports != [] && reports[..|reports| - 1] == before)
  {
    var _ := Collect(latest, stream, at, |stream|, remark, before, heardBefore);
    assert stream[..|stream|] == stream;
    ProgressIsRemarks(stream);
    heard, reports := HearTheLast(latest, heardBefore, before);
  }

  method HearTheLast(latest: Latest, heardBefore: seq<Remark>, ghost before: seq<Report>)
    returns (heard: seq<Remark>, ghost reports: seq<Report>)
    requires Handed(latest, before, heardBefore)
    modifies latest`slot
    ensures InTurn(reports, |latest.published|) && heard == Heard(reports, latest.published)
    ensures Settled(reports) == |latest.published|
    ensures reports == before || (reports != [] && reports[..|reports| - 1] == before)
  {
    heard, reports := heardBefore, before;
    var taken := latest.TakeLatest();
    if taken.Some? {
      ghost var flushed := Report(|latest.published| - 1, 0, 0);
      ReportNext(before, latest.published, flushed);
      heard := heard + [taken.value];
      reports := before + [flushed];
    }
  }

  /** Reading `stdout` fails after `breaks` bytes: before its end, and before it is seen to cross the ceiling. */
  predicate BreaksOff(stdout: seq<byte>, breaks: Option<nat>, outputLimit: nat) {
    breaks.Some? && breaks.value < |stdout| && breaks.value <= outputLimit
  }

  /** The bytes read: those before the failure, or as many as tell whether the ceiling was crossed. */
  function Captured(stdout: seq<byte>, breaks: Option<nat>, outputLimit: nat): seq<byte> {
    if BreaksOff(stdout, breaks, outputLimit) then stdout[..breaks.value]
    else stdout[..Shorter(|stdout|, outputLimit + 1)]
  }

  function Judged(outcome: Outcome, captured: seq<byte>, outputLimit: nat): RunResult {
    match outcome
    case Ended => if |captured| > outputLimit then OverLimit else Output(captured)
    case TimedOut => OutOfTime
    case Stopped => WasStopped
    case Lost => NoOutcome
  }

  /**
   A run that ended comes back with output exactly when it stayed within the ceiling or reading it
   broke off first, and the output is all it printed exactly when reading it did not break off.
   */
  lemma OutputIsWholeIff(outcome: Outcome, stdout: seq<byte>, breaks: Option<nat>, outputLimit: nat)
    ensures var r := Judged(outcome, Captured(stdout, breaks, outputLimit), outputLimit);
            var broke := breaks.Some? && breaks.value < |stdout| && breaks.value <= outputLimit;
            && (r.Output? <==> outcome == Ended && (broke || |stdout| <= outputLimit))
            && (r.Output? ==> r.output <= stdout && (r.output == stdout <==> !broke))
            && (r.Output? && broke ==> |r.output| == breaks.value)
            && (r == OverLimit <==> outcome == Ended && !broke && |stdout| > outputLimit)
            && (r == OutOfTime <==> outcome == TimedOut)
            && (r == WasStopped <==> outcome == Stopped)
            && (r == NoOutcome <==> outcome == Lost)
  {
    assert stdout[..|stdout|] == stdout;
  }

  /** The wait is settled at this look, and at none before it. */
  ghost predicate SettledAt(bounds: Bounds, looks: nat -> Look, last: nat) {
    !GoesOn(bounds, looks, last) && forall k: nat | k < last :: GoesOn(bounds, looks, k)
  }

  /** What a watcher hears of a run: the remarks its stream ends, in their turn, and the last of them last. */
  ghost predicate HeardOut(heard: seq<Remark>, reports: seq<Report>, published: seq<Remark>, interval: nat) {
    && InTurn(reports, |published|) && heard == Heard(reports, published)
    && (published != [] ==> heard != [] && heard[|heard| - 1] == published[|published| - 1])
    && (Spaced(reports, interval) || (reports != [] && Spaced(reports[..|reports| - 1], interval)))
  }

  /** Waits for the run and then hears it out. */
  method WatchToTheEnd(bounds: Bounds, looks: nat -> Look, stream: seq<byte>)
    returns (outcome: Outcome, heard: seq<Remark>, ghost reports: seq<Report>, ghost published: seq<Remark>)
    requires Forwards(looks) && bounds.interval.Some?
    ensures exists last :: SettledAt(bounds, looks, last) && outcome == Verdict(bounds, looks, last)
    ensures published == Remarks(stream)
    ensures HeardOut(heard, reports, published, bounds.interval.value)
  {
    var latest := new Latest();
    var last, waited, at, remark;
    outcome, heard, last, waited, at, remark, reports := WaitWatching(bounds, looks, stream, latest);
    heard, reports := Flush(latest, stream, at, remark, heard, reports);
    published := latest.published;
    LastWordIsHeard(reports, published, heard);
    assert SettledAt(bounds, looks, last);
  }

  /**
   A watched run from its start to its last word. `chunks` are the reads its account of itself came
   in, `stdout` is everything it printed. Whichever way it went and whenever it was looked at, what is
   published is the remarks the whole stream ends; what is heard is some of those, in order, nothing
   twice, the last of them last; and but for that last one nothing is heard sooner than an interval
   after what was heard before. What is said after the last ending is never heard, so what is
   published is everything said exactly when nothing is.
   */
  method RunWatched(bounds: Bounds, looks: nat -> Look, askedBefore: bool, chunks: seq<seq<byte>>,
                    stdout: seq<byte>, breaks: Option<nat>, outputLimit: nat)
    returns (result: RunResult, heard: seq<Remark>, ghost reports: seq<Report>, ghost published: seq<Remark>)
    requires Forwards(looks) && bounds.interval.Some?
    ensures published == if bounds.stoppable && askedBefore then [] else Remarks(Stream(chunks))
    ensures !(bounds.stoppable && askedBefore) ==>
              (published == AllSaid(Stream(chunks)) <==> Said(Unended(Stream(chunks))) == [])
    ensures HeardOut(heard, reports, published, bounds.interval.value)
    ensures if bounds.stoppable && askedBefore then result == WasStopped
            else
              exists last :: SettledAt(bounds, looks, last)
                && result == Judged(Verdict(bounds, looks, last), Captured(stdout, breaks, outputLimit), outputLimit)
    ensures result.Output? ==>
              result.output <= stdout && (result.output == stdout <==> !BreaksOff(stdout, breaks, outputLimit))
    ensures result == OverLimit ==> |stdout| > outputLimit
  {
    if bounds.stoppable && askedBefore {
      result, heard, reports, published := WasStopped, [], [], [];
      return;
    }
    var outcome;
    outcome, heard, reports, published := WatchToTheEnd(bounds, looks, Stream(chunks));
    AllIsEndedIff(Stream(chunks));
    OutputIsWholeIff(outcome, stdout, breaks, outputLimit);
    result := Judged(outcome, Captured(stdout, breaks, outputLimit), outputLimit);
  }

  /** When everything published has been settled, the last of it was heard last. */
  lemma LastWordIsHeard(reports: seq<Report>, published: seq<Remark>, heard: seq<Remark>)
    requires InTurn(reports, |published|) && Settled(reports) == |published|
    requires heard == Heard(reports, published)
    ensures published != [] ==> heard != [] && heard[|heard| - 1] == published[|published| - 1]
  {
  }
}
