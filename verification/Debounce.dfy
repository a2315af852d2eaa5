/** A quiet-window debouncer: collapsing a burst of triggers into one action, with or without a ceiling. */
module Debounce {
  import opened Wrappers

  datatype State = State(
    quiet: nat,
    ceiling: Option<nat>,
    burstBegan: Option<int>,
    lastTrigger: Option<int>,
    pending: bool)

  function Quiet(quiet: nat, ceiling: Option<nat>): State {
    State(quiet, ceiling, None, None, false)
  }

  /** A trigger restarts the quiet window, and starts the ceiling if it begins a burst. */
  function Triggered(s: State, now: int): State {
    s.(burstBegan := if s.pending && s.burstBegan.Some? then s.burstBegan else Some(now),
       lastTrigger := Some(now),
       pending := true)
  }

  function DueAt(s: State): Option<int> {
    if !s.pending || s.lastTrigger.None? then None
    else
      var quietAt := s.lastTrigger.value + s.quiet;
      if s.ceiling.Some? && s.burstBegan.Some? then
        var ceilingAt := s.burstBegan.value + s.ceiling.value;
        Some(if ceilingAt < quietAt then ceilingAt else quietAt)
      else Some(quietAt)
  }

  predicate Fires(s: State, now: int) {
    DueAt(s).Some? && now >= DueAt(s).value
  }

  function Polled(s: State, now: int): State {
    if Fires(s, now) then s.(pending := false) else s
  }

  class Debouncer {
    const quiet: nat
    const ceiling: Option<nat>
    var burstBegan: Option<int>
    var lastTrigger: Option<int>
    var pending: bool

    function View(): State
      reads this
    {
      State(quiet, ceiling, burstBegan, lastTrigger, pending)
    }

    constructor Unbounded(quiet: nat)
      ensures View() == Quiet(quiet, None)
    {
      this.quiet := quiet;
      this.ceiling := None;
      burstBegan, lastTrigger, pending := None, None, false;
    }

    constructor Bounded(quiet: nat, ceiling: nat)
      ensures View() == Quiet(quiet, Some(ceiling))
    {
      this.quiet := quiet;
      this.ceiling := Some(ceiling);
      burstBegan, lastTrigger, pending := None, None, false;
    }

    method Trigger(now: int)
      modifies this
      ensures View() == Triggered(old(View()), now)
    {
      var kept := if pending then burstBegan else None;
      burstBegan := if kept.Some? then kept else Some(now);
      lastTrigger := Some(now);
      pending := true;
    }

    function NextDue(): Option<int>
      reads this
    {
      DueAt(View())
    }

    method TakeIfDue(now: int) returns (fired: bool)
      modifies this
      ensures fired == Fires(old(View()), now)
      ensures View() == Polled(old(View()), now)
    {
      var due := NextDue();
      fired := due.Some? && now >= due.value;
      if fired {
        pending := false;
      }
    }
  }

  // ---------------------------------------------------------------- whole runs

  datatype Event = Trigger(at: int) | Poll(at: int)

  function Run(start: State, events: seq<Event>): State
    decreases |events|
  {
    if events == [] then start
    else
      var s := Run(start, events[..|events| - 1]);
      match events[|events| - 1]
      case Trigger(at) => Triggered(s, at)
      case Poll(at) => Polled(s, at)
  }

  /** Whether the poll at `i` took the action. */
  predicate FiredAt(start: State, events: seq<Event>, i: nat)
    requires i < |events|
  {
    events[i].Poll? && Fires(Run(start, events[..i]), events[i].at)
  }

  predicate Ordered(events: seq<Event>) {
    forall i, j | 0 <= i <= j < |events| :: events[i].at <= events[j].at
  }

  /** What a debouncer is for, told from the triggers since it last acted and nothing else. */
  predicate Due(quiet: nat, ceiling: Option<nat>, burst: seq<int>, now: int) {
    burst != [] && (now >= burst[|burst| - 1] + quiet || (ceiling.Some? && now >= burst[0] + ceiling.value))
  }

  /** The triggers since it last acted. */
  function Burst(quiet: nat, ceiling: Option<nat>, events: seq<Event>): seq<int>
    decreases |events|
  {
    if events == [] then []
    else
      var burst := Burst(quiet, ceiling, events[..|events| - 1]);
      match events[|events| - 1]
      case Trigger(at) => burst + [at]
      case Poll(at) => if Due(quiet, ceiling, burst, at) then [] else burst
  }

  ghost predicate Tracks(s: State, quiet: nat, ceiling: Option<nat>, burst: seq<int>) {
    && s.quiet == quiet && s.ceiling == ceiling
    && (s.pending <==> burst != [])
    && (s.pending ==> s.burstBegan == Some(burst[0]) && s.lastTrigger == Some(burst[|burst| - 1]))
  }

  /** The machine keeps two instants and a flag, and they are enough: it acts exactly when the triggers say to. */
  lemma {:induction false} RunTracksBurst(quiet: nat, ceiling: Option<nat>, events: seq<Event>)
    ensures Tracks(Run(Quiet(quiet, ceiling), events), quiet, ceiling, Burst(quiet, ceiling, events))
    ensures forall now :: Fires(Run(Quiet(quiet, ceiling), events), now)
                          <==> Due(quiet, ceiling, Burst(quiet, ceiling, events), now)
    decreases |events|
  {
    if events != [] {
      RunTracksBurst(quiet, ceiling, events[..|events| - 1]);
    }
  }

  predicate Ascending(burst: seq<int>) {
    forall i, j | 0 <= i <= j < |burst| :: burst[i] <= burst[j]
  }

  predicate NoneAfter(burst: seq<int>, at: int) {
    forall i | 0 <= i < |burst| :: burst[i] <= at
  }

  predicate NoneBefore(burst: seq<int>, at: int) {
    forall i | 0 <= i < |burst| :: burst[i] >= at
  }

  lemma {:induction false} BurstIsWithin(quiet: nat, ceiling: Option<nat>, events: seq<Event>)
    requires Ordered(events)
    ensures Ascending(Burst(quiet, ceiling, events))
    ensures events != [] ==> NoneAfter(Burst(quiet, ceiling, events), events[|events| - 1].at)
    decreases |events|
  {
    if events != [] {
      var front, last := events[..|events| - 1], events[|events| - 1];
      BurstIsWithin(quiet, ceiling, front);
      var before := Burst(quiet, ceiling, front);
      if front != [] {
        assert front[|front| - 1].at <= last.at;
      }
      assert NoneAfter(before, last.at);
    }
  }

  /**
   While a burst lasts its action is only ever put off, and never past the ceiling measured from its
   first trigger.
   */
  lemma PutOffButNotPastTheCeiling(quiet: nat, ceiling: Option<nat>, events: seq<Event>, at: int)
    requires Ordered(events + [Trigger(at)])
    requires Burst(quiet, ceiling, events) != []
    ensures var before := Run(Quiet(quiet, ceiling), events);
            var after := Run(Quiet(quiet, ceiling), events + [Trigger(at)]);
            && DueAt(before).Some? && DueAt(after).Some?
            && DueAt(before).value <= DueAt(after).value
            && (ceiling.Some? ==> DueAt(after).value <= Burst(quiet, ceiling, events)[0] + ceiling.value)
  {
    assert (events + [Trigger(at)])[..|events|] == events;
    assert forall i | 0 <= i < |events| :: events[i] == (events + [Trigger(at)])[i];
    RunTracksBurst(quiet, ceiling, events);
    BurstIsWithin(quiet, ceiling, events);
    assert events != [] ==> events[|events| - 1].at <= (events + [Trigger(at)])[|events|].at;
  }

  /** Having acted, it does not act again until it is triggered again. */
  lemma {:induction false} ActsOnce(start: State, events: seq<Event>, i: nat, j: nat)
    requires i < j <= |events| && FiredAt(start, events, i)
    requires forall k | i < k < j :: events[k].Poll?
    ensures !Run(start, events[..j]).pending
    ensures forall k | i < k < j :: !FiredAt(start, events, k)
    decreases j
  {
    assert events[..i + 1][..i] == events[..i];
    if j > i + 1 {
      ActsOnce(start, events, i, j - 1);
      assert events[..j][..j - 1] == events[..j - 1];
    }
  }

  /** Every trigger pending after an action came at or after it. */
  lemma {:induction false} BurstSince(quiet: nat, ceiling: Option<nat>, events: seq<Event>, i: nat, j: nat)
    requires Ordered(events) && i < j <= |events|
    requires FiredAt(Quiet(quiet, ceiling), events, i)
    ensures NoneBefore(Burst(quiet, ceiling, events[..j]), events[i].at)
    decreases j
  {
    RunTracksBurst(quiet, ceiling, events[..i]);
    assert events[..i + 1][..i] == events[..i];
    if j > i + 1 {
      BurstSince(quiet, ceiling, events, i, j - 1);
      assert events[..j][..j - 1] == events[..j - 1];
      assert events[i].at <= events[j - 1].at;
    }
  }

  function ShortestGap(quiet: nat, ceiling: Option<nat>): nat {
    if ceiling.Some? && ceiling.value < quiet then ceiling.value else quiet
  }

  /** Two actions are never closer than the quiet window, or the ceiling where that is shorter. */
  lemma ActionsAreApart(quiet: nat, ceiling: Option<nat>, events: seq<Event>, i: nat, j: nat)
    requires Ordered(events) && i < j < |events|
    requires FiredAt(Quiet(quiet, ceiling), events, i) && FiredAt(Quiet(quiet, ceiling), events, j)
    ensures events[j].at - events[i].at >= ShortestGap(quiet, ceiling)
  {
    BurstSince(quiet, ceiling, events, i, j);
    RunTracksBurst(quiet, ceiling, events[..j]);
    assert Due(quiet, ceiling, Burst(quiet, ceiling, events[..j]), events[j].at);
  }

  function Triggers(events: seq<Event>): nat
    decreases |events|
  {
    if events == [] then 0
    else Triggers(events[..|events| - 1]) + (if events[|events| - 1].Trigger? then 1 else 0)
  }

  function Actions(start: State, events: seq<Event>): nat
    decreases |events|
  {
    if events == [] then 0
    else
      var n := |events| - 1;
      Actions(start, events[..n]) + (if FiredAt(start, events, n) then 1 else 0)
  }

  /** Every action answers a trigger no other action did, and a pending one is yet to be answered. */
  lemma {:induction false} ActionsAnswerTriggers(quiet: nat, ceiling: Option<nat>, events: seq<Event>)
    ensures Actions(Quiet(quiet, ceiling), events)
            + (if Run(Quiet(quiet, ceiling), events).pending then 1 else 0) <= Triggers(events)
    decreases |events|
  {
    if events != [] {
      ActionsAnswerTriggers(quiet, ceiling, events[..|events| - 1]);
    }
  }

  /** From the ceiling on any poll fires, however recent the latest trigger. */
  lemma NeverQuietIsStillActedOn(quiet: nat, ceiling: nat, events: seq<Event>, now: int)
    requires Burst(quiet, Some(ceiling), events) != []
    requires now >= Burst(quiet, Some(ceiling), events)[0] + ceiling
    ensures FiredAt(Quiet(quiet, Some(ceiling)), events + [Poll(now)], |events|)
  {
    RunTracksBurst(quiet, Some(ceiling), events);
    assert (events + [Poll(now)])[..|events|] == events;
  }
}
