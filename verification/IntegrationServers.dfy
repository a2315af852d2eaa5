/**
 Two servers that follow their settings until both are shut down. A run is its number: of what it
 does, only that it was spawned, and later cancelled and waited for, is modelled.
 */
module IntegrationServers {
  import opened Wrappers

  datatype Event = Started(run: nat) | Drained(run: nat)

  /** The run going now, how many there have been, and what was done to them in order. */
  datatype Server = Server(running: Option<nat>, spawned: nat, events: seq<Event>)

  function Toggled(s: Server, enabled: bool): Server {
    if enabled == s.running.Some? then s
    else if enabled then Server(Some(s.spawned), s.spawned + 1, s.events + [Started(s.spawned)])
    else Server(None, s.spawned, s.events + [Drained(s.running.value)])
  }

  class ToggleableServer {
    var running: Option<nat>
    var spawned: nat
    var events: seq<Event>

    function State(): Server
      reads this
    {
      Server(running, spawned, events)
    }

    constructor ()
      ensures State() == Server(None, 0, [])
    {
      running, spawned, events := None, 0, [];
    }

    method Toggle(enabled: bool)
      modifies this
      ensures State() == Toggled(old(State()), enabled)
    {
      var run := running;
      running := None;
      if enabled {
        if run.None? {
          events := events + [Started(spawned)];
          run := Some(spawned);
          spawned := spawned + 1;
        }
        running := run;
      } else if run.Some? {
        events := events + [Drained(run.value)];
      }
    }
  }

  class IntegrationServers {
    var stopped: bool
    const mcp: ToggleableServer
    const http: ToggleableServer

    ghost predicate Valid() {
      mcp != http
    }

    constructor (mcp: ToggleableServer, http: ToggleableServer)
      requires mcp != http
      ensures Valid() && !stopped && this.mcp == mcp && this.http == http
    {
      stopped := false;
      this.mcp := mcp;
      this.http := http;
    }

    method Apply(mcpEnabled: bool, httpEnabled: bool)
      requires Valid()
      modifies mcp, http
      ensures (stopped, mcp.State()) == Step((stopped, old(mcp.State())), Some(mcpEnabled))
      ensures (stopped, http.State()) == Step((stopped, old(http.State())), Some(httpEnabled))
    {
      if !stopped {
        mcp.Toggle(mcpEnabled);
        http.Toggle(httpEnabled);
      }
    }

    method Shutdown()
      requires Valid()
      modifies this, mcp, http
      ensures (stopped, mcp.State()) == Step((old(stopped), old(mcp.State())), None)
      ensures (stopped, http.State()) == Step((old(stopped), old(http.State())), None)
    {
      if !stopped {
        stopped := true;
        mcp.Toggle(false);
        http.Toggle(false);
      }
    }
  }

  /** One server under one setting applied to it, or under the shutdown of them all. */
  function Step(s: (bool, Server), op: Option<bool>): (bool, Server) {
    if s.0 then s else (op.None?, Toggled(s.1, op == Some(true)))
  }

  // ---------------------------------------------------------------- whole runs

  function Run(ops: seq<Option<bool>>): (bool, Server) {
    if ops == [] then (false, Server(None, 0, [])) else Step(Run(ops[..|ops| - 1]), ops[|ops| - 1])
  }

  /** So many runs one after another, each drained before the next, the last drained or still going. */
  function OneAtATime(runs: nat, going: bool): seq<Event> {
    if runs == 0 then []
    else OneAtATime(runs - 1, false) + [Started(runs - 1)] + (if going then [] else [Drained(runs - 1)])
  }

  /** How often the setting went on while it was being followed: never again once everything is shut down. */
  function TurnedOn(ops: seq<Option<bool>>): nat {
    if ops == [] then 0
    else
      var front := ops[..|ops| - 1];
      TurnedOn(front)
      + (if None !in front && ops[|ops| - 1] == Some(true) && (front == [] || front[|front| - 1] != Some(true))
         then 1 else 0)
  }

  /**
   However the setting is toggled and whenever the app goes: runs never overlap, there is a run for
   each time the setting went on before the shutdown, and one is going exactly while the setting last
   applied says so and nothing has been shut down.
   */
  lemma {:induction false} RunsNeverOverlap(ops: seq<Option<bool>>)
    ensures var (stopped, s) := Run(ops);
            && (stopped <==> None in ops)
            && s.events == OneAtATime(s.spawned, s.running.Some?)
            && s.spawned == TurnedOn(ops)
            && (s.running.Some? ==> s.spawned > 0 && s.running.value == s.spawned - 1)
            && (s.running.Some? <==> ops != [] && None !in ops && ops[|ops| - 1] == Some(true))
  {
    if ops != [] {
      var front, op := ops[..|ops| - 1], ops[|ops| - 1];
      RunsNeverOverlap(front);
      assert ops == front + [op];
      var s := Run(front).1;
      OneMore(s.spawned);
    }
  }

  lemma OneMore(runs: nat)
    ensures OneAtATime(runs + 1, true) == OneAtATime(runs, false) + [Started(runs)]
    ensures OneAtATime(runs + 1, false) == OneAtATime(runs + 1, true) + [Drained(runs)]
    ensures runs > 0 ==> OneAtATime(runs, false) == OneAtATime(runs, true) + [Drained(runs - 1)]
  {
  }

  /** Nothing that comes after the shutdown does anything at all, another shutdown included. */
  lemma {:induction false} StoppedForGood(before: seq<Option<bool>>, after: seq<Option<bool>>)
    ensures Run(before + [None] + after) == Run(before + [None])
    ensures Run(before + [None]).1.running == None
  {
    RunsNeverOverlap(before + [None]);
    if after == [] {
      assert before + [None] + after == before + [None];
    } else {
      var front := after[..|after| - 1];
      StoppedForGood(before, front);
      assert (before + [None] + after)[..|before| + |after|] == before + [None] + front;
    }
  }
}
