/**
 Per-process terminal output: a bounded scrollback and a live stream that every launch of a process
 writes to, and viewers that are handed both at once.

 What the locks make atomic is one step here. A channel's buffers and live sender, which the registry
 and the recorders share, are named by the channel's place in a list.
 */
module Terminal {
  import opened Bytes
  import opened Wrappers

  type ProcessId = nat
  type Chunk = seq<byte>

  const RAW_SCROLLBACK_BYTES: nat := 256 * 1024

  /** `──────────` */
  const RULE: seq<byte> :=
    [0xE2, 0x94, 0x80, 0xE2, 0x94, 0x80, 0xE2, 0x94, 0x80, 0xE2, 0x94, 0x80, 0xE2, 0x94, 0x80,
     0xE2, 0x94, 0x80, 0xE2, 0x94, 0x80, 0xE2, 0x94, 0x80, 0xE2, 0x94, 0x80, 0xE2, 0x94, 0x80]

  /** A dim rule with `restarted` in the middle, on a line of its own. */
  const RESTART_BANNER: seq<byte> :=
    [CR, LF, 0x1B, 91, 50, 109] + RULE
    + [SPACE, SPACE, 114, 101, 115, 116, 97, 114, 116, 101, 100, SPACE, SPACE]
    + RULE + [0x1B, 91, 48, 109, CR, LF]

  /** A channel's retained bytes, and everything ever published on its live stream. */
  datatype Channel = Channel(raw: seq<byte>, sent: seq<Chunk>)

  const NEW_CHANNEL := Channel([], [])

  function DropFront(s: seq<byte>, n: nat): seq<byte> {
    if n <= |s| then s[n..] else []
  }

  /** What is kept once `data` is added: no more than the cap, and less by what all channels together are over. */
  function Retained(raw: seq<byte>, data: seq<byte>, overflow: nat): seq<byte> {
    var all := raw + data;
    var own := if |all| > RAW_SCROLLBACK_BYTES then all[|all| - RAW_SCROLLBACK_BYTES..] else all;
    DropFront(own, overflow)
  }

  function Recorded(c: Channel, chunk: Chunk, overflow: nat): Channel {
    Channel(Retained(c.raw, chunk, overflow), c.sent + [chunk])
  }

  /** A restart is marked only when there is something to separate it from. */
  function Marked(c: Channel, overflow: nat): Channel {
    if c.raw == [] then c else Recorded(c, RESTART_BANNER, overflow)
  }

  function Cleared(c: Channel): Channel {
    c.(raw := [])
  }

  // ---------------------------------------------------------------- the registry

  datatype World = World(inner: map<ProcessId, nat>, channels: seq<Channel>)

  /** Which process a viewer watches, what it was handed to replay, and where on the live stream it came in. */
  datatype Viewer = Viewer(id: ProcessId, channel: nat, scrollback: seq<byte>, from: nat)

  predicate Named(w: World) {
    forall id <- w.inner :: w.inner[id] < |w.channels|
  }

  ghost predicate WellFormed(w: World) {
    && Named(w)
    && (forall a, b | a in w.inner && b in w.inner && w.inner[a] == w.inner[b] :: a == b)
  }

  /** A first launch opens a channel; a relaunch is handed the one already there. */
  function Opened(w: World, id: ProcessId): (World, nat) {
    if id in w.inner then (w, w.inner[id])
    else (World(w.inner[id := |w.channels|], w.channels + [NEW_CHANNEL]), |w.channels|)
  }

  function Changed(w: World, channel: nat, c: Channel): World
    requires channel < |w.channels|
  {
    w.(channels := w.channels[channel := c])
  }

  function Attached(w: World, id: ProcessId): Option<Viewer>
    requires Named(w)
  {
    if id !in w.inner then None
    else
      var c := w.channels[w.inner[id]];
      Some(Viewer(id, w.inner[id], c.raw, |c.sent|))
  }

  class Terminals {
    var inner: map<ProcessId, nat>
    var channels: seq<Channel>

    ghost function View(): World
      reads this
    {
      World(inner, channels)
    }

    ghost predicate Valid()
      reads this
    {
      WellFormed(View())
    }

    constructor ()
      ensures Valid() && View() == World(map[], [])
    {
      inner, channels := map[], [];
    }

    method Open(id: ProcessId) returns (recorder: nat)
      requires Valid()
      modifies this
      ensures Valid() && recorder < |channels|
      ensures (View(), recorder) == Opened(old(View()), id)
    {
      if id in inner {
        recorder := inner[id];
      } else {
        recorder := |channels|;
        channels := channels + [NEW_CHANNEL];
      }
      inner := inner[id := recorder];
      assert id in old(inner) ==> inner == old(inner);
    }

    method Record(recorder: nat, chunk: Chunk, overflow: nat)
      requires Valid() && recorder < |channels|
      modifies this`channels
      ensures Valid()
      ensures View() == Changed(old(View()), recorder, Recorded(old(channels[recorder]), chunk, overflow))
    {
      var c := channels[recorder];
      var raw := c.raw + chunk;
      if |raw| > RAW_SCROLLBACK_BYTES {
        raw := raw[|raw| - RAW_SCROLLBACK_BYTES..];
      }
      var shed := if overflow <= |raw| then overflow else |raw|;
      if shed > 0 {
        raw := raw[shed..];
      }
      assert raw == Retained(c.raw, chunk, overflow);
      channels := channels[recorder := Channel(raw, c.sent + [chunk])];
    }

    method MarkRestart(recorder: nat, overflow: nat)
      requires Valid() && recorder < |channels|
      modifies this`channels
      ensures Valid()
      ensures View() == Changed(old(View()), recorder, Marked(old(channels[recorder]), overflow))
    {
      if |channels[recorder].raw| == 0 {
        return;
      }
      Record(recorder, RESTART_BANNER, overflow);
    }

    method Clear(id: ProcessId) returns (cleared: bool)
      requires Valid()
      modifies this`channels
      ensures Valid() && cleared == (id in inner)
      ensures View() == if cleared then Changed(old(View()), inner[id], Cleared(old(channels[inner[id]])))
                        else old(View())
    {
      cleared := id in inner;
      if cleared {
        channels := channels[inner[id] := channels[inner[id]].(raw := [])];
      }
    }

    method Attach(id: ProcessId) returns (viewer: Option<Viewer>)
      requires Valid()
      ensures viewer == Attached(View(), id)
    {
      if id !in inner {
        return None;
      }
      var c := channels[inner[id]];
      return Some(Viewer(id, inner[id], c.raw, |c.sent|));
    }
  }

  // ---------------------------------------------------------------- every interleaving

  /** One atomic step by anybody. A recorder is named by how many were handed out before it. */
  datatype Event =
    | Open(id: ProcessId)
    | Record(recorder: nat, chunk: Chunk, overflow: nat)
    | MarkRestart(recorder: nat, overflow: nat)
    | Clear(id: ProcessId)
    | Attach(id: ProcessId)

  datatype Machine = Machine(world: World, recorders: seq<nat>, viewers: seq<Viewer>)

  predicate Pointing(m: Machine) {
    Named(m.world) && forall i | 0 <= i < |m.recorders| :: m.recorders[i] < |m.world.channels|
  }

  ghost predicate Sound(m: Machine) {
    WellFormed(m.world) && Pointing(m)
  }

  function Step(m: Machine, e: Event): Machine
    requires Pointing(m)
  {
    match e
    case Open(id) =>
      var (w, recorder) := Opened(m.world, id);
      Machine(w, m.recorders + [recorder], m.viewers)
    case Record(r, chunk, overflow) =>
      if r >= |m.recorders| then m
      else
        var c := m.world.channels[m.recorders[r]];
        m.(world := Changed(m.world, m.recorders[r], Recorded(c, chunk, overflow)))
    case MarkRestart(r, overflow) =>
      if r >= |m.recorders| then m
      else
        var c := m.world.channels[m.recorders[r]];
        m.(world := Changed(m.world, m.recorders[r], Marked(c, overflow)))
    case Clear(id) =>
      if id !in m.world.inner then m
      else
        var channel := m.world.inner[id];
        m.(world := Changed(m.world, channel, Cleared(m.world.channels[channel])))
    case Attach(id) =>
      match Attached(m.world, id)
      case None => m
      case Some(v) => m.(viewers := m.viewers + [v])
  }

  lemma StepIsSound(m: Machine, e: Event)
    requires Sound(m)
    ensures Sound(Step(m, e))
  {
  }

  function Run(events: seq<Event>): (m: Machine)
    ensures Sound(m)
    decreases |events|
  {
    if events == [] then Machine(World(map[], []), [], [])
    else
      var m := Run(events[..|events| - 1]);
      StepIsSound(m, events[|events| - 1]);
      Step(m, events[|events| - 1])
  }

  // ---------------------------------------------------------------- the same, one process at a time

  /** Which process each recorder handed out belongs to. */
  function Owners(events: seq<Event>): seq<ProcessId>
    decreases |events|
  {
    if events == [] then []
    else
      var owners := Owners(events[..|events| - 1]);
      var last := events[|events| - 1];
      if last.Open? then owners + [last.id] else owners
  }

  predicate OwnedBy(owners: seq<ProcessId>, recorder: nat, id: ProcessId) {
    recorder < |owners| && owners[recorder] == id
  }

  /**
   What one process's terminal holds, told from its own launches, output and clearing alone: no
   registry, nothing shared, nothing another process does.
   */
  function Alone(events: seq<Event>, id: ProcessId): Option<Channel>
    decreases |events|
  {
    if events == [] then None
    else
      var front, last := events[..|events| - 1], events[|events| - 1];
      match Alone(front, id)
      case None => if last == Open(id) then Some(NEW_CHANNEL) else None
      case Some(c) =>
        match last
        case Record(r, chunk, overflow) =>
          Some(if OwnedBy(Owners(front), r, id) then Recorded(c, chunk, overflow) else c)
        case MarkRestart(r, overflow) =>
          Some(if OwnedBy(Owners(front), r, id) then Marked(c, overflow) else c)
        case Clear(other) => Some(if other == id then Cleared(c) else c)
        case _ => Some(c)
  }

  ghost predicate Agrees(m: Machine, owners: seq<ProcessId>) {
    && |m.recorders| == |owners|
    && forall r | 0 <= r < |owners| :: owners[r] in m.world.inner && m.recorders[r] == m.world.inner[owners[r]]
  }

  ghost predicate Holds(m: Machine, id: ProcessId, c: Option<Channel>) {
    if id in m.world.inner then m.world.inner[id] < |m.world.channels| && c == Some(m.world.channels[m.world.inner[id]])
    else c == None
  }

  lemma {:induction false} RecordersAgree(events: seq<Event>)
    ensures Agrees(Run(events), Owners(events))
    decreases |events|
  {
    if events != [] {
      RecordersAgree(events[..|events| - 1]);
    }
  }

  /**
   Sharing changes nothing: over every interleaving, what the registry holds for a process is what
   that process's own launches and output make, so a relaunch goes on with the same terminal and no
   process ever writes to another's.
   */
  lemma {:induction false} EachProcessAlone(events: seq<Event>, id: ProcessId)
    ensures Holds(Run(events), id, Alone(events, id))
    decreases |events|
  {
    if events != [] {
      var front, last := events[..|events| - 1], events[|events| - 1];
      EachProcessAlone(front, id);
      RecordersAgree(front);
      var m := Run(front);
      match last {
        case Record(r, _, _) =>
          if r < |m.recorders| { OtherChannel(m, Owners(front), r, id); }
        case MarkRestart(r, _) =>
          if r < |m.recorders| { OtherChannel(m, Owners(front), r, id); }
        case _ =>
      }
    }
  }

  lemma OtherChannel(m: Machine, owners: seq<ProcessId>, r: nat, id: ProcessId)
    requires Sound(m) && Agrees(m, owners) && r < |owners|
    ensures id in m.world.inner && m.recorders[r] == m.world.inner[id] ==> owners[r] == id
    ensures owners[r] == id ==> id in m.world.inner && m.recorders[r] == m.world.inner[id]
  {
  }

  // ---------------------------------------------------------------- what a viewer sees

  predicate SuffixOf(s: seq<byte>, whole: seq<byte>) {
    |s| <= |whole| && whole[|whole| - |s|..] == s
  }

  lemma RecordedIsSuffix(c: Channel, chunk: Chunk, overflow: nat)
    requires SuffixOf(c.raw, Concat(c.sent))
    ensures SuffixOf(Recorded(c, chunk, overflow).raw, Concat(Recorded(c, chunk, overflow).sent))
  {
    ConcatSnoc(c.sent, chunk);
    var whole := Concat(c.sent);
    assert (whole + chunk)[|whole| - |c.raw|..] == c.raw + chunk;
  }

  lemma {:induction false} ScrollbackIsSuffix(events: seq<Event>, id: ProcessId)
    ensures Alone(events, id).Some? ==> SuffixOf(Alone(events, id).value.raw, Concat(Alone(events, id).value.sent))
    decreases |events|
  {
    if events != [] {
      var front, last := events[..|events| - 1], events[|events| - 1];
      ScrollbackIsSuffix(front, id);
      if Alone(front, id).Some? {
        var c := Alone(front, id).value;
        match last {
          case Record(_, chunk, overflow) => RecordedIsSuffix(c, chunk, overflow);
          case MarkRestart(_, overflow) => RecordedIsSuffix(c, RESTART_BANNER, overflow);
          case _ =>
        }
      }
    }
  }

  lemma AloneNext(events: seq<Event>, e: Event, id: ProcessId)
    requires Alone(events, id).Some?
    ensures var c, now := Alone(events, id).value, Alone(events + [e], id);
            && now.Some?
            && (e.Record? && OwnedBy(Owners(events), e.recorder, id) ==> now.value == Recorded(c, e.chunk, e.overflow))
            && (e.MarkRestart? && OwnedBy(Owners(events), e.recorder, id) ==> now.value == Marked(c, e.overflow))
            && (e == Clear(id) ==> now.value == Cleared(c))
  {
    assert (events + [e])[..|events|] == events;
  }

  /** So many bytes at the end, and no others. */
  predicate LastOf(kept: seq<byte>, whole: seq<byte>, n: int) {
    0 <= n <= |whole| && kept == whole[|whole| - n..]
  }

  /** What is kept of so many bytes when so many are to be shed: no more than the cap, less those. */
  function Kept(n: nat, shed: nat): nat {
    var own := if n <= 262144 then n else 262144;
    if shed <= own then own - shed else 0
  }

  /**
   A chunk is published and joins the end of what its process's terminal keeps: the last bytes of the
   two, 256 KiB at most, less what had to be shed.
   */
  lemma RecordIsKeptAndSent(events: seq<Event>, r: nat, chunk: Chunk, overflow: nat, id: ProcessId)
    requires Alone(events, id).Some? && OwnedBy(Owners(events), r, id)
    ensures var c, now := Alone(events, id).value, Alone(events + [Record(r, chunk, overflow)], id);
            && now.Some? && now.value.sent == c.sent + [chunk]
            && LastOf(now.value.raw, c.raw + chunk, Kept(|c.raw + chunk|, overflow))
  {
    AloneNext(events, Record(r, chunk, overflow), id);
  }

  /**
   A launch is marked off from what came before it exactly when the terminal keeps something of that:
   the mark is then published once and joins the end of what is kept, and otherwise nothing happens.
   */
  lemma RestartIsMarkedIff(events: seq<Event>, r: nat, overflow: nat, id: ProcessId)
    requires Alone(events, id).Some? && OwnedBy(Owners(events), r, id)
    ensures var c, now := Alone(events, id).value, Alone(events + [MarkRestart(r, overflow)], id);
            && now.Some?
            && (c.raw == [] ==> now.value == c)
            && (c.raw != [] ==>
                  && now.value.sent == c.sent + [RESTART_BANNER]
                  && LastOf(now.value.raw, c.raw + RESTART_BANNER, Kept(|c.raw + RESTART_BANNER|, overflow)))
  {
    AloneNext(events, MarkRestart(r, overflow), id);
  }

  /** Clearing leaves nothing to replay, and takes nothing back from the stream. */
  lemma ClearingEmpties(events: seq<Event>, id: ProcessId)
    requires Alone(events, id).Some?
    ensures var now := Alone(events + [Clear(id)], id);
            now.Some? && now.value.raw == [] && now.value.sent == Alone(events, id).value.sent
  {
    AloneNext(events, Clear(id), id);
  }

  /** No terminal ever keeps more than 256 KiB to replay. */
  lemma {:induction false} ScrollbackIsBounded(events: seq<Event>, id: ProcessId)
    ensures Alone(events, id).Some? ==> |Alone(events, id).value.raw| <= 262144
    decreases |events|
  {
    if events != [] {
      ScrollbackIsBounded(events[..|events| - 1], id);
    }
  }

  /** A process's stream only ever grows. */
  lemma {:induction false} StreamGrows(events: seq<Event>, id: ProcessId, n: nat)
    requires n <= |events| && Alone(events[..n], id).Some?
    ensures Alone(events, id).Some? && Alone(events[..n], id).value.sent <= Alone(events, id).value.sent
    decreases |events|
  {
    if n == |events| {
      assert events[..n] == events;
    } else {
      var front := events[..|events| - 1];
      assert front[..n] == events[..n];
      StreamGrows(front, id, n);
    }
  }

  /** A viewer came in after some of the events, and was handed what its process's terminal then held. */
  ghost predicate CameIn(events: seq<Event>, v: Viewer, n: nat) {
    && n <= |events|
    && Alone(events[..n], v.id).Some?
    && v.scrollback == Alone(events[..n], v.id).value.raw
    && v.from == |Alone(events[..n], v.id).value.sent|
  }

  predicate AtItsTerminal(w: World, v: Viewer) {
    v.id in w.inner && w.inner[v.id] == v.channel
  }

  lemma {:induction false} ViewersCameIn(events: seq<Event>, i: nat) returns (n: nat)
    requires i < |Run(events).viewers|
    ensures CameIn(events, Run(events).viewers[i], n)
    ensures AtItsTerminal(Run(events).world, Run(events).viewers[i])
    decreases |events|
  {
    var front, last := events[..|events| - 1], events[|events| - 1];
    StepKeepsViewers(Run(front), last);
    var v := Step(Run(front), last).viewers[i];
    if i < |Run(front).viewers| {
      n := ViewersCameIn(front, i);
      assert v == Run(front).viewers[i];
    } else {
      n := |front|;
      ComesIn(front, last);
    }
    StillCameIn(events, v, n);
  }

  lemma StillCameIn(events: seq<Event>, v: Viewer, n: nat)
    requires events != [] && CameIn(events[..|events| - 1], v, n)
    ensures CameIn(events, v, n)
  {
    assert events[..|events| - 1][..n] == events[..n];
  }

  /** A step adds a viewer or none, and moves nobody's terminal. */
  lemma StepKeepsViewers(m: Machine, e: Event)
    requires Sound(m)
    ensures var after := Step(m, e);
            && m.viewers <= after.viewers && |after.viewers| <= |m.viewers| + 1
            && forall v: Viewer :: AtItsTerminal(m.world, v) ==> AtItsTerminal(after.world, v)
  {
  }

  /** A step that adds a viewer hands it what its process's terminal holds at that moment. */
  lemma ComesIn(front: seq<Event>, last: Event)
    requires |Step(Run(front), last).viewers| > |Run(front).viewers|
    ensures var m := Step(Run(front), last);
            var v := m.viewers[|Run(front).viewers|];
            && |m.viewers| == |Run(front).viewers| + 1
            && CameIn(front, v, |front|) && AtItsTerminal(m.world, v)
  {
    assert front[..|front|] == front;
    EachProcessAlone(front, last.id);
  }

  /** Everything published on a viewer's receiver since it attached. */
  function Received(m: Machine, v: Viewer): seq<Chunk>
    requires v.channel < |m.world.channels| && v.from <= |m.world.channels[v.channel].sent|
  {
    m.world.channels[v.channel].sent[v.from..]
  }

  /**
   Over every interleaving, what a viewer was handed followed by everything since published to it is
   its process's output from some byte on, to the end: each later chunk once and in order, none
   missing between the two, and none in both. What precedes that byte is exactly what the scrollback
   no longer held.
   */
  lemma NoGapNoDuplicate(events: seq<Event>, i: nat)
    requires i < |Run(events).viewers|
    ensures var m := Run(events);
            var v := m.viewers[i];
            && Alone(events, v.id).Some?
            && v.channel < |m.world.channels| && v.from <= |m.world.channels[v.channel].sent|
            && v.from <= |Alone(events, v.id).value.sent|
            && var sent := Alone(events, v.id).value.sent;
               var lost := |Concat(sent[..v.from])| - |v.scrollback|;
               && 0 <= lost <= |Concat(sent)|
               && Received(m, v) == sent[v.from..]
               && v.scrollback + Concat(Received(m, v)) == Concat(sent)[lost..]
  {
    var m := Run(events);
    var v := m.viewers[i];
    var n := ViewersCameIn(events, i);
    EachProcessAlone(events, v.id);
    StreamGrows(events, v.id, n);
    ScrollbackIsSuffix(events[..n], v.id);
    FromThenOn(Alone(events[..n], v.id).value.sent, Alone(events, v.id).value.sent, v.scrollback);
  }

  /** A suffix of what a stream was, with all it became since, is a suffix of it now. */
  lemma FromThenOn(before: seq<Chunk>, sent: seq<Chunk>, scrollback: seq<byte>)
    requires before <= sent && SuffixOf(scrollback, Concat(before))
    ensures var lost := |Concat(sent[..|before|])| - |scrollback|;
            && 0 <= lost <= |Concat(sent)|
            && scrollback + Concat(sent[|before|..]) == Concat(sent)[lost..]
  {
    var since := sent[|before|..];
    assert sent[..|before|] == before && sent == before + since;
    ConcatAppend(before, since);
    SuffixThenRest(scrollback, Concat(before), Concat(since));
  }

  lemma SuffixThenRest(s: seq<byte>, a: seq<byte>, b: seq<byte>)
    requires SuffixOf(s, a)
    ensures s + b == (a + b)[|a| - |s|..]
  {
  }

  // ---------------------------------------------------------------- when nothing is lost

  /** The event sheds some of a process's output, or clears it. */
  predicate Disturbs(owners: seq<ProcessId>, e: Event, id: ProcessId) {
    || e == Clear(id)
    || ((e.Record? || e.MarkRestart?) && OwnedBy(owners, e.recorder, id) && e.overflow > 0)
  }

  /** Nothing of a process's own output was shed to make room, and nobody cleared it, whatever others met. */
  predicate Undisturbed(events: seq<Event>, id: ProcessId)
    decreases |events|
  {
    events == []
    || (var front, last := events[..|events| - 1], events[|events| - 1];
        Undisturbed(front, id) && !Disturbs(Owners(front), last, id))
  }

  lemma {:induction false} UndisturbedBefore(events: seq<Event>, id: ProcessId, n: nat)
    requires n <= |events| && Undisturbed(events, id)
    ensures Undisturbed(events[..n], id)
    decreases |events|
  {
    if n == |events| {
      assert events[..n] == events;
    } else {
      var front := events[..|events| - 1];
      UndisturbedBefore(front, id, n);
      assert front[..n] == events[..n];
    }
  }

  lemma {:induction false} NothingShed(events: seq<Event>, id: ProcessId)
    requires Undisturbed(events, id) && Alone(events, id).Some?
    requires |Concat(Alone(events, id).value.sent)| <= RAW_SCROLLBACK_BYTES
    ensures Alone(events, id).value.raw == Concat(Alone(events, id).value.sent)
    decreases |events|
  {
    var front, last := events[..|events| - 1], events[|events| - 1];
    if Alone(front, id).Some? {
      var c := Alone(front, id).value;
      match last {
        case Record(_, chunk, _) => ConcatSnoc(c.sent, chunk);
        case MarkRestart(_, _) => ConcatSnoc(c.sent, RESTART_BANNER);
        case _ =>
      }
      NothingShed(front, id);
    }
  }

  /** While a process's output fits and is left alone, a viewer sees all of it, from the first byte. */
  lemma ViewerSeesEverything(events: seq<Event>, i: nat)
    requires i < |Run(events).viewers|
    requires Undisturbed(events, Run(events).viewers[i].id)
    requires Alone(events, Run(events).viewers[i].id).Some?
    requires |Concat(Alone(events, Run(events).viewers[i].id).value.sent)| <= RAW_SCROLLBACK_BYTES
    ensures var m := Run(events);
            var v := m.viewers[i];
            && v.channel < |m.world.channels| && v.from <= |m.world.channels[v.channel].sent|
            && v.scrollback + Concat(Received(m, v)) == Concat(Alone(events, v.id).value.sent)
  {
    var v := Run(events).viewers[i];
    NoGapNoDuplicate(events, i);
    var n := ViewersCameIn(events, i);
    StreamGrows(events, v.id, n);
    var sent := Alone(events, v.id).value.sent;
    assert Alone(events[..n], v.id).value.sent == sent[..v.from];
    FrontFits(sent, v.from);
    UndisturbedBefore(events, v.id, n);
    NothingShed(events[..n], v.id);
  }

  lemma FrontFits(sent: seq<Chunk>, from: nat)
    requires from <= |sent|
    ensures |Concat(sent[..from])| <= |Concat(sent)|
  {
    ConcatAppend(sent[..from], sent[from..]);
    assert sent == sent[..from] + sent[from..];
  }
}
