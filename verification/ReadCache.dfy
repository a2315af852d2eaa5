/** A cached value and the instants it was computed and asked for: what is served, and how often it is computed. */
module ReadCache {
  import opened Wrappers

  datatype Cached<T> = Cached(value: T, at: int)

  class ReadCache<T, E> {
    const ttl: nat
    var cached: Option<Cached<T>>

    constructor (ttl: nat)
      ensures this.ttl == ttl && cached == None
    {
      this.ttl := ttl;
      cached := None;
    }

    /**
     Serves what is cached while it is fresh at `lookedAt`, and what computing comes to otherwise,
     which replaces what is cached, as of `computedAt`, when it is a success.
     */
    method GetOrTryInit(lookedAt: int, compute: () -> Result<T, E>, computedAt: int) returns (r: Result<T, E>)
      modifies this
      ensures r == Answer(ttl, old(cached), Get(lookedAt, compute(), computedAt))
      ensures cached == After(ttl, old(cached), Get(lookedAt, compute(), computedAt))
    {
      if cached.Some? {
        if Since(lookedAt, cached.value.at) < ttl {
          return Ok(cached.value.value);
        }
      }
      var value := compute();
      if value.Err? {
        return value;
      }
      cached := Some(Cached(value.value, computedAt));
      return value;
    }

    method Invalidate()
      modifies this
      ensures cached == None
    {
      cached := None;
    }
  }

  /** How long it is since `at`, and nothing when that is yet to come. */
  function Since(now: int, at: int): nat {
    if now >= at then now - at else 0
  }

  // ---------------------------------------------------------------- whole runs

  datatype Event<T, E> =
    | Get(lookedAt: int, outcome: Result<T, E>, computedAt: int)
    | Invalidate

  predicate Fresh<T>(ttl: nat, cached: Option<Cached<T>>, now: int) {
    cached.Some? && Since(now, cached.value.at) < ttl
  }

  function Answer<T, E>(ttl: nat, cached: Option<Cached<T>>, get: Event<T, E>): Result<T, E>
    requires get.Get?
  {
    if Fresh(ttl, cached, get.lookedAt) then Ok(cached.value.value) else get.outcome
  }

  function After<T, E>(ttl: nat, cached: Option<Cached<T>>, e: Event<T, E>): Option<Cached<T>> {
    match e
    case Invalidate => None
    case Get(lookedAt, outcome, computedAt) =>
      if Fresh(ttl, cached, lookedAt) || outcome.Err? then cached else Some(Cached(outcome.value, computedAt))
  }

  function Run<T, E>(ttl: nat, events: seq<Event<T, E>>): Option<Cached<T>>
    decreases |events|
  {
    if events == [] then None else After(ttl, Run(ttl, events[..|events| - 1]), events[|events| - 1])
  }

  /**
   A clock that never goes back: a computation ends no sooner than it was looked for, and nothing
   starts sooner than the last thing ended.
   */
  predicate Ordered<T, E>(events: seq<Event<T, E>>) {
    && (forall i | 0 <= i < |events| :: events[i].Get? ==> events[i].lookedAt <= events[i].computedAt)
    && (forall i, j | 0 <= i < j < |events| ::
          events[i].Get? && events[j].Get? ==> events[i].computedAt <= events[j].lookedAt)
  }

  /** The get at `i` found nothing fresh, so it computed. */
  predicate Computed<T, E>(ttl: nat, events: seq<Event<T, E>>, i: nat)
    requires i < |events|
  {
    events[i].Get? && !Fresh(ttl, Run(ttl, events[..i]), events[i].lookedAt)
  }

  predicate ComputedOk<T, E>(ttl: nat, events: seq<Event<T, E>>, i: nat)
    requires i < |events|
  {
    Computed(ttl, events, i) && events[i].outcome.Ok?
  }

  function Served<T, E>(ttl: nat, events: seq<Event<T, E>>, i: nat): Result<T, E>
    requires i < |events| && events[i].Get?
  {
    Answer(ttl, Run(ttl, events[..i]), events[i])
  }

  /** Where what is cached after `n` events came from: the last success, with nothing invalidated since. */
  ghost predicate CameFrom<T, E>(ttl: nat, events: seq<Event<T, E>>, n: nat, c: nat)
    requires n <= |events|
  {
    && c < n && ComputedOk(ttl, events, c)
    && Run(ttl, events[..n]) == Some(Cached(events[c].outcome.value, events[c].computedAt))
    && (forall k | c < k < n :: !events[k].Invalidate? && !ComputedOk(ttl, events, k))
  }

  lemma RunNext<T, E>(ttl: nat, events: seq<Event<T, E>>, n: nat)
    requires n < |events|
    ensures Run(ttl, events[..n + 1]) == After(ttl, Run(ttl, events[..n]), events[n])
  {
    assert events[..n + 1][..n] == events[..n];
  }

  lemma {:induction false} Provenance<T, E>(ttl: nat, events: seq<Event<T, E>>, n: nat) returns (c: nat)
    requires n <= |events|
    ensures Run(ttl, events[..n]).Some? ==> CameFrom(ttl, events, n, c)
    decreases n
  {
    c := 0;
    if n == 0 {
      assert events[..0] == [];
    } else {
      c := Provenance(ttl, events, n - 1);
      RunNext(ttl, events, n - 1);
      if ComputedOk(ttl, events, n - 1) {
        c := n - 1;
      }
    }
  }

  /**
   A value served was computed successfully: by this very read, or less than the time to live ago and
   with nothing invalidated since. A failure is only ever the reader's own.
   */
  lemma ServedIsFresh<T, E>(ttl: nat, events: seq<Event<T, E>>, i: nat)
    requires Ordered(events) && i < |events| && events[i].Get?
    ensures Served(ttl, events, i).Err? ==> Computed(ttl, events, i) && Served(ttl, events, i) == events[i].outcome
    ensures Served(ttl, events, i).Ok? ==>
              exists c :: 0 <= c <= i && ComputedOk(ttl, events, c) && events[c].outcome == Served(ttl, events, i)
                          && (c < i ==> events[i].lookedAt - events[c].computedAt < ttl)
                          && forall k | c < k < i :: !events[k].Invalidate?
  {
    if !Computed(ttl, events, i) {
      var c := Provenance(ttl, events, i);
      assert ComputedOk(ttl, events, c) && events[c].outcome == Served(ttl, events, i);
    } else if Served(ttl, events, i).Ok? {
      assert ComputedOk(ttl, events, i) && events[i].outcome == Served(ttl, events, i);
    }
  }

  /** With nothing invalidated between them, a computation after a success comes at least the time to live later. */
  lemma ComputesAreApart<T, E>(ttl: nat, events: seq<Event<T, E>>, i: nat, j: nat)
    requires Ordered(events) && i < j < |events|
    requires ComputedOk(ttl, events, i) && Computed(ttl, events, j)
    requires forall k | i < k < j :: !events[k].Invalidate?
    ensures events[j].lookedAt - events[i].computedAt >= ttl
  {
    var c := Provenance(ttl, events, j);
    StillCached(ttl, events, i, j);
    assert forall k | c < k < j :: !ComputedOk(ttl, events, k);
    assert events[i].computedAt <= events[c].computedAt;
    assert events[c].computedAt <= events[j].lookedAt;
  }

  lemma {:induction false} StillCached<T, E>(ttl: nat, events: seq<Event<T, E>>, i: nat, j: nat)
    requires i < j <= |events| && ComputedOk(ttl, events, i)
    requires forall k | i < k < j :: !events[k].Invalidate?
    ensures Run(ttl, events[..j]).Some?
    decreases j
  {
    RunNext(ttl, events, j - 1);
    if j > i + 1 {
      StillCached(ttl, events, i, j - 1);
    }
  }
}
