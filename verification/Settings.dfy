/**
 The settings aggregate: one locked read-modify-write over a stored document.

 What the store behind it does is an input: each load and each save may fail, and a save that fails
 has changed nothing. Several calls run at once, each a step at a time.
 */
module Settings {
  import opened Wrappers

  datatype Failure<+E> = StoreFailed | Rejected(error: E)

  /** A change asked for: the record it is to, and the new document or the reason there is none. */
  datatype Change<!K, !D, !E> = Change(key: K, mutator: D -> Result<D, E>)

  /** The record under a key, or the defaults where none has been stored. */
  function Current<K, D>(records: map<K, D>, defaults: D, key: K): D {
    if key in records then records[key] else defaults
  }

  function Updated<K, D, E>(records: map<K, D>, defaults: D, change: Change<K, D, E>, loads: bool, saves: bool)
    : (map<K, D>, Result<D, Failure<E>>)
  {
    if !loads then (records, Err(StoreFailed))
    else
      match change.mutator(Current(records, defaults, change.key))
      case Err(e) => (records, Err(Rejected(e)))
      case Ok(value) => if saves then (records[change.key := value], Ok(value)) else (records, Err(StoreFailed))
  }

  class SettingsStore<K(==), D> {
    var records: map<K, D>
    const defaults: D

    constructor (defaults: D)
      ensures records == map[] && this.defaults == defaults
    {
      records := map[];
      this.defaults := defaults;
    }

    method Get(key: K, loads: bool) returns (r: Result<D, Failure<()>>)
      ensures r == if loads then Ok(Current(records, defaults, key)) else Err(StoreFailed)
    {
      if !loads {
        return Err(StoreFailed);
      }
      return Ok(if key in records then records[key] else defaults);
    }

    method TryUpdate<E>(change: Change<K, D, E>, loads: bool, saves: bool) returns (r: Result<D, Failure<E>>)
      modifies this
      ensures (records, r) == Updated(old(records), defaults, change, loads, saves)
    {
      var loaded := Get(change.key, loads);
      if loaded.Err? {
        return Err(StoreFailed);
      }
      var changed := change.mutator(loaded.value);
      if changed.Err? {
        return Err(Rejected(changed.error));
      }
      if !saves {
        return Err(StoreFailed);
      }
      records := records[change.key := changed.value];
      return Ok(changed.value);
    }

    /** The infallible form: a mutator that rejects nothing. */
    method Update(key: K, mutator: D -> D, loads: bool, saves: bool) returns (r: Result<D, Failure<()>>)
      modifies this
      ensures (records, r) == Updated(old(records), defaults, Change(key, d => Ok(mutator(d))), loads, saves)
    {
      var loaded := Get(key, loads);
      if loaded.Err? {
        return Err(StoreFailed);
      }
      var value := mutator(loaded.value);
      if !saves {
        return Err(StoreFailed);
      }
      records := records[key := value];
      return Ok(value);
    }
  }

  // ---------------------------------------------------------------- calls at once

  /** How far a call has come. */
  datatype Phase<+D, +E> =
    | Waiting
    | Locked
    | Loaded(value: D)
    | Changed(value: D)
    | Leaving(result: Result<D, Failure<E>>)

  datatype Call<!K, !D, !E> = Call(change: Change<K, D, E>, phase: Phase<D, E>)

  datatype Finished<!K, !D, !E> = Finished(change: Change<K, D, E>, result: Result<D, Failure<E>>)

  datatype Commit<!K, !D, !E> = Commit(id: nat, change: Change<K, D, E>)

  /** The stored records and the lock; the calls running and the calls that came to an end; the saves made, in order. */
  datatype System<!K, !D, !E> = System(
    records: map<K, D>,
    lock: Option<nat>,
    arrived: set<nat>,
    running: map<nat, Call<K, D, E>>,
    finished: map<nat, Finished<K, D, E>>,
    commits: seq<Commit<K, D, E>>)

  datatype Action<!K, !D, !E> =
    | Arrive(id: nat, change: Change<K, D, E>)
    | Acquire(id: nat)
    | Load(id: nat, loads: bool)
    | Mutate(id: nat, panics: bool)
    | Save(id: nat, saves: bool)
    | Return(id: nat)

  predicate Enabled<K, D, E>(s: System<K, D, E>, a: Action<K, D, E>) {
    if a.Arrive? then a.id !in s.arrived
    else
      && a.id in s.running
      && var phase := s.running[a.id].phase;
         match a
         case Acquire(_) => phase.Waiting? && s.lock.None?
         case Load(_, _) => phase.Locked?
         case Mutate(_, _) => phase.Loaded?
         case Save(_, _) => phase.Changed?
         case Return(_) => phase.Leaving?
  }

  function At<K, D, E>(s: System<K, D, E>, id: nat, phase: Phase<D, E>): System<K, D, E>
    requires id in s.running
  {
    s.(running := s.running[id := s.running[id].(phase := phase)])
  }

  function AfterMutator<D, E>(r: Result<D, E>): Phase<D, E> {
    match r
    case Ok(value) => Changed(value)
    case Err(e) => Leaving(Err(Rejected(e)))
  }

  function Saved<K, D, E>(s: System<K, D, E>, id: nat, value: D): System<K, D, E>
    requires id in s.running
  {
    var change := s.running[id].change;
    At(s, id, Leaving(Ok(value)))
    .(records := s.records[change.key := value], commits := s.commits + [Commit(id, change)])
  }

  /** One step of one call. A mutator that panics gives the lock back, poisoned or not, and its call nothing. */
  function Step<K, D, E>(s: System<K, D, E>, defaults: D, a: Action<K, D, E>): System<K, D, E>
    requires Enabled(s, a)
  {
    match a
    case Arrive(id, change) =>
      s.(arrived := s.arrived + {id}, running := s.running[id := Call(change, Waiting)])
    case Acquire(id) =>
      At(s, id, Locked).(lock := Some(id))
    case Load(id, loads) =>
      var key := s.running[id].change.key;
      At(s, id, if loads then Loaded(Current(s.records, defaults, key)) else Leaving(Err(StoreFailed)))
    case Mutate(id, panics) =>
      if panics then s.(lock := None, running := s.running - {id})
      else At(s, id, AfterMutator(s.running[id].change.mutator(s.running[id].phase.value)))
    case Save(id, saves) =>
      if saves then Saved(s, id, s.running[id].phase.value) else At(s, id, Leaving(Err(StoreFailed)))
    case Return(id) =>
      s.(lock := None, running := s.running - {id},
         finished := s.finished[id := Finished(s.running[id].change, s.running[id].phase.result)])
  }

  /** What the changes committed so far make of a record, one after another from the defaults. */
  ghost function Replay<K, D, E>(commits: seq<Commit<K, D, E>>, defaults: D, key: K): D {
    if commits == [] then defaults
    else
      var before, last := Replay(commits[..|commits| - 1], defaults, key), commits[|commits| - 1].change;
      if last.key != key then before
      else
        match last.mutator(before)
        case Ok(value) => value
        case Err(_) => before
  }

  lemma ReplayNext<K, D, E>(commits: seq<Commit<K, D, E>>, c: Commit<K, D, E>, defaults: D, key: K)
    ensures c.change.key != key ==> Replay(commits + [c], defaults, key) == Replay(commits, defaults, key)
    ensures c.change.key == key && c.change.mutator(Replay(commits, defaults, key)).Ok? ==>
              Replay(commits + [c], defaults, key) == c.change.mutator(Replay(commits, defaults, key)).value
  {
    assert (commits + [c])[..|commits|] == commits;
  }

  ghost predicate NotCommitted<K, D, E>(commits: seq<Commit<K, D, E>>, id: nat) {
    forall i | 0 <= i < |commits| :: commits[i].id != id
  }

  /** The change was committed once, and its answer is what it makes of everything committed before it. */
  ghost predicate CommittedAs<K, D, E>(
      commits: seq<Commit<K, D, E>>, defaults: D, id: nat, change: Change<K, D, E>, value: D, i: int)
  {
    && 0 <= i < |commits|
    && commits[i] == Commit(id, change)
    && NotCommitted(commits[..i], id) && NotCommitted(commits[i + 1..], id)
    && change.mutator(Replay(commits[..i], defaults, change.key)) == Ok(value)
    && Replay(commits[..i + 1], defaults, change.key) == value
  }

  /** A call that answers with a document has committed exactly its change; one that fails has committed none. */
  ghost predicate Accounted<K, D, E>(
      commits: seq<Commit<K, D, E>>, defaults: D, id: nat, change: Change<K, D, E>, result: Result<D, Failure<E>>)
  {
    match result
    case Ok(value) => exists i :: CommittedAs(commits, defaults, id, change, value, i)
    case Err(_) => NotCommitted(commits, id)
  }

  ghost predicate CallHolds<K, D, E>(s: System<K, D, E>, defaults: D, id: nat)
    requires id in s.running
  {
    var change := s.running[id].change;
    match s.running[id].phase
    case Waiting => NotCommitted(s.commits, id)
    case Locked => NotCommitted(s.commits, id)
    case Loaded(value) => NotCommitted(s.commits, id) && value == Current(s.records, defaults, change.key)
    case Changed(value) =>
      NotCommitted(s.commits, id) && change.mutator(Current(s.records, defaults, change.key)) == Ok(value)
    case Leaving(result) => Accounted(s.commits, defaults, id, change, result)
  }

  /** One call at most is past the lock, and the lock is held exactly for it. */
  ghost predicate Exclusive<K, D, E>(s: System<K, D, E>) {
    && (forall id <- s.running :: s.running[id].phase.Waiting? || s.lock == Some(id))
    && (s.lock.Some? ==> s.lock.value in s.running && !s.running[s.lock.value].phase.Waiting?)
  }

  ghost predicate Known<K, D, E>(s: System<K, D, E>) {
    && s.running.Keys <= s.arrived && s.finished.Keys <= s.arrived
    && s.running.Keys !! s.finished.Keys
    && forall i | 0 <= i < |s.commits| :: s.commits[i].id in s.arrived
  }

  ghost predicate Recorded<K(!new), D, E>(s: System<K, D, E>, defaults: D) {
    forall key :: Current(s.records, defaults, key) == Replay(s.commits, defaults, key)
  }

  ghost predicate Holds<K(!new), D, E>(s: System<K, D, E>, defaults: D) {
    && Exclusive(s) && Known(s) && Recorded(s, defaults)
    && (forall id <- s.running :: CallHolds(s, defaults, id))
    && (forall id <- s.finished :: Accounted(s.commits, defaults, id, s.finished[id].change, s.finished[id].result))
  }

  lemma AccountGrows<K, D, E>(
      commits: seq<Commit<K, D, E>>, c: Commit<K, D, E>, defaults: D,
      id: nat, change: Change<K, D, E>, result: Result<D, Failure<E>>)
    requires c.id != id && Accounted(commits, defaults, id, change, result)
    ensures Accounted(commits + [c], defaults, id, change, result)
  {
    if result.Ok? {
      var i :| CommittedAs(commits, defaults, id, change, result.value, i);
      var now := commits + [c];
      assert now[..i] == commits[..i] && now[..i + 1] == commits[..i + 1] && now[i + 1..] == commits[i + 1..] + [c];
      assert CommittedAs(now, defaults, id, change, result.value, i);
    }
  }

  /** The one step that commits and changes a record: it saves the change applied to what is there. */
  lemma SaveKeeps<K(!new), D, E>(s: System<K, D, E>, defaults: D, id: nat)
    requires Holds(s, defaults) && id in s.running && s.running[id].phase.Changed?
    ensures Holds(Saved(s, id, s.running[id].phase.value), defaults)
  {
    var change, value := s.running[id].change, s.running[id].phase.value;
    var c := Commit(id, change);
    var after := Saved(s, id, value);
    assert s.lock == Some(id) && CallHolds(s, defaults, id);
    forall key
      ensures Current(after.records, defaults, key) == Replay(after.commits, defaults, key)
    {
      ReplayNext(s.commits, c, defaults, key);
    }
    var n := |s.commits|;
    assert after.commits[..n] == s.commits && after.commits[..n + 1] == after.commits && after.commits[n + 1..] == [];
    assert CommittedAs(after.commits, defaults, id, change, value, n);
    forall other | other in after.running && other != id
      ensures CallHolds(after, defaults, other)
    {
      assert CallHolds(s, defaults, other);
      assert s.running[other].phase.Waiting?;
    }
    forall other | other in after.finished
      ensures Accounted(after.commits, defaults, other, after.finished[other].change, after.finished[other].result)
    {
      AccountGrows(s.commits, c, defaults, other, s.finished[other].change, s.finished[other].result);
    }
  }

  lemma StepKeeps<K(!new), D, E>(s: System<K, D, E>, defaults: D, a: Action<K, D, E>)
    requires Holds(s, defaults) && Enabled(s, a)
    ensures Holds(Step(s, defaults, a), defaults)
  {
    if a.Save? && a.saves {
      SaveKeeps(s, defaults, a.id);
    } else {
      var after := Step(s, defaults, a);
      assert after.records == s.records && after.commits == s.commits;
      assert a.id in s.running ==> CallHolds(s, defaults, a.id);
      forall id | id in after.running
        ensures CallHolds(after, defaults, id)
      {
        if id != a.id {
          assert CallHolds(s, defaults, id);
        }
      }
    }
  }

  // ---------------------------------------------------------------- whole runs

  function Initial<K, D, E>(): System<K, D, E> {
    System(map[], None, {}, map[], map[], [])
  }

  /** Where so many steps lead, or nowhere when one of them could not be taken. */
  ghost function Run<K, D, E>(actions: seq<Action<K, D, E>>, defaults: D): Option<System<K, D, E>> {
    if actions == [] then Some(Initial())
    else
      var before, last := Run(actions[..|actions| - 1], defaults), actions[|actions| - 1];
      if before.Some? && Enabled(before.value, last) then Some(Step(before.value, defaults, last)) else None
  }

  /**
   However calls interleave and whichever of them fail, every record is its committed changes applied
   one after another, none of them lost; a call that answered committed its change exactly once, its
   answer being that change applied to all before it; and a call that failed or was rejected committed nothing.
   */
  lemma {:induction false} UpdatesAreSerial<K(!new), D, E>(actions: seq<Action<K, D, E>>, defaults: D)
    requires Run(actions, defaults).Some?
    ensures Holds(Run(actions, defaults).value, defaults)
  {
    if actions != [] {
      UpdatesAreSerial(actions[..|actions| - 1], defaults);
      StepKeeps(Run(actions[..|actions| - 1], defaults).value, defaults, actions[|actions| - 1]);
    }
  }

  lemma {:induction false} Earlier<K, D, E>(actions: seq<Action<K, D, E>>, defaults: D, n: nat)
    requires n <= |actions| && Run(actions, defaults).Some?
    ensures Run(actions[..n], defaults).Some?
    ensures Run(actions[..n], defaults).value.commits <= Run(actions, defaults).value.commits
    decreases |actions|
  {
    if n == |actions| {
      assert actions[..n] == actions;
    } else {
      var front := actions[..|actions| - 1];
      Earlier(front, defaults, n);
      assert front[..n] == actions[..n];
    }
  }

  /** The order of commits is one their callers could have seen: what was there before a call came is before it. */
  lemma CommittedInRealTime<K(!new), D, E>(actions: seq<Action<K, D, E>>, defaults: D, n: nat, i: nat, j: nat)
    requires n <= |actions| && Run(actions, defaults).Some? && Run(actions[..n], defaults).Some?
    requires var early, late := Run(actions[..n], defaults).value, Run(actions, defaults).value;
             i < |early.commits| && j < |late.commits| && late.commits[j].id !in early.arrived
    ensures i < j
  {
    Earlier(actions, defaults, n);
    UpdatesAreSerial(actions[..n], defaults);
  }

  /** While any call is running, one of them can take its next step: nothing waits on a lock nobody will give back. */
  lemma NeverStuck<K(!new), D, E>(s: System<K, D, E>, defaults: D) returns (a: Action<K, D, E>)
    requires Holds(s, defaults) && s.running != map[]
    ensures !a.Arrive? && Enabled(s, a)
  {
    var id :| id in s.running;
    if s.lock.Some? {
      id := s.lock.value;
    }
    a := match s.running[id].phase
      case Waiting => Acquire(id)
      case Locked => Load(id, true)
      case Loaded(_) => Mutate(id, false)
      case Changed(_) => Save(id, true)
      case Leaving(_) => Return(id);
  }

  ghost function Drive<K, D, E>(s: System<K, D, E>, defaults: D, id: nat, loads: bool, saves: bool): System<K, D, E>
    requires id in s.running && s.running[id].phase.Locked?
  {
    var s1 := Step(s, defaults, Load(id, loads));
    var s2 := if s1.running[id].phase.Loaded? then Step(s1, defaults, Mutate(id, false)) else s1;
    var s3 := if s2.running[id].phase.Changed? then Step(s2, defaults, Save(id, saves)) else s2;
    Step(s3, defaults, Return(id))
  }

  /** From the lock to its answer a call's steps are one whole update. */
  lemma CallIsOneUpdate<K, D, E>(s: System<K, D, E>, defaults: D, id: nat, loads: bool, saves: bool)
    requires id in s.running && s.running[id].phase.Locked?
    ensures var after := Drive(s, defaults, id, loads, saves);
            && id in after.finished
            && (after.records, after.finished[id].result)
               == Updated(s.records, defaults, s.running[id].change, loads, saves)
  {
  }
}
