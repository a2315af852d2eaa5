/**
 The bounded pool of terminal forwarders. Each is held under the token its install returned, and
 installing past the ceiling reclaims the forwarder under the smallest token.
 */
module PtyBridge {

  const MAX_FORWARDERS: nat := 16

  datatype Stopped<+H> = Stopped(token: nat, handle: H)

  /** The tokens given out, the forwarders held, and those aborted so far in order. */
  datatype Slots<+H> = Slots(next: nat, live: map<nat, H>, aborted: seq<Stopped<H>>)

  datatype Op<+H> = Install(handle: H) | Clear(token: nat)

  ghost function Smallest(tokens: set<nat>): (least: nat)
    requires tokens != {}
    ensures least in tokens && forall t <- tokens :: least <= t
  {
    var t :| t in tokens;
    if forall u <- tokens :: t <= u then t
    else
      var u :| u in tokens && u < t;
      assert u in tokens - {t};
      var least := Smallest(tokens - {t});
      assert tokens == (tokens - {t}) + {t};
      if least <= t then least else t
  }

  /** Stops the forwarder under `token`, if there is one. */
  function Stopping<H>(s: Slots<H>, token: nat): Slots<H> {
    if token in s.live then Slots(s.next, s.live - {token}, s.aborted + [Stopped(token, s.live[token])]) else s
  }

  function Put<H>(s: Slots<H>, handle: H): Slots<H> {
    Slots(s.next + 1, s.live[s.next + 1 := handle], s.aborted)
  }

  ghost function Reclaimed<H>(s: Slots<H>): Slots<H>
    decreases |s.live.Keys|
  {
    if |s.live.Keys| <= MAX_FORWARDERS then s
    else
      var oldest := Smallest(s.live.Keys);
      StoppingShrinks(s, oldest);
      Reclaimed(Stopping(s, oldest))
  }

  lemma StoppingShrinks<H>(s: Slots<H>, token: nat)
    requires token in s.live
    ensures Stopping(s, token).live.Keys == s.live.Keys - {token}
    ensures |Stopping(s, token).live.Keys| == |s.live.Keys| - 1
  {
    assert Stopping(s, token).live.Keys == s.live.Keys - {token};
  }

  ghost function Step<H>(s: Slots<H>, op: Op<H>): Slots<H> {
    match op
    case Install(handle) => Reclaimed(Put(s, handle))
    case Clear(token) => Stopping(s, token)
  }

  class PtyBridge<H> {
    var nextToken: nat
    var forwarders: map<nat, H>
    var aborted: seq<Stopped<H>>

    function State(): Slots<H>
      reads this
    {
      Slots(nextToken, forwarders, aborted)
    }

    constructor ()
      ensures State() == Slots(0, map[], [])
    {
      nextToken, forwarders, aborted := 0, map[], [];
    }

    /** The smallest token held. */
    method Oldest() returns (oldest: nat)
      requires forwarders != map[]
      ensures oldest == Smallest(forwarders.Keys)
    {
      var left := forwarders.Keys;
      oldest :| oldest in left;
      left := left - {oldest};
      while left != {}
        invariant oldest in forwarders.Keys && left <= forwarders.Keys
        invariant forall t: nat | t in forwarders.Keys && t !in left :: oldest <= t
        decreases |left|
      {
        var t :| t in left;
        if t < oldest {
          oldest := t;
        }
        left := left - {t};
      }
      assert Smallest(forwarders.Keys) in forwarders.Keys;
    }

    method Abort(token: nat)
      modifies this
      ensures State() == Stopping(old(State()), token)
    {
      if token in forwarders {
        aborted := aborted + [Stopped(token, forwarders[token])];
        forwarders := forwarders - {token};
      }
    }

    method Install(handle: H) returns (token: nat)
      modifies this
      ensures State() == Step(old(State()), Op.Install(handle))
      ensures token == nextToken
    {
      nextToken := nextToken + 1;
      token := nextToken;
      forwarders := forwarders[token := handle];
      while |forwarders.Keys| > MAX_FORWARDERS
        invariant nextToken == token == old(nextToken) + 1
        invariant Reclaimed(State()) == Step(old(State()), Op.Install(handle))
        decreases |forwarders.Keys|
      {
        var oldest := Oldest();
        StoppingShrinks(State(), oldest);
        Abort(oldest);
      }
    }

    method Clear(token: nat)
      modifies this
      ensures State() == Step(old(State()), Op.Clear(token))
    {
      Abort(token);
    }
  }

  // ---------------------------------------------------------------- whole runs

  ghost function Run<H>(ops: seq<Op<H>>): Slots<H> {
    if ops == [] then Slots(0, map[], []) else Step(Run(ops[..|ops| - 1]), ops[|ops| - 1])
  }

  /** The handles installed: the one under token `t` is the `t - 1`-th. */
  function Handles<H>(ops: seq<Op<H>>): seq<H> {
    if ops == [] then []
    else
      var op := ops[|ops| - 1];
      Handles(ops[..|ops| - 1]) + (if op.Install? then [op.handle] else [])
  }

  /** The tokens given out whose holder has not cleared them. */
  function Uncleared<H>(ops: seq<Op<H>>): set<nat> {
    if ops == [] then {}
    else
      var before := Uncleared(ops[..|ops| - 1]);
      match ops[|ops| - 1]
      case Install(_) => before + {|Handles(ops)|}
      case Clear(token) => before - {token}
  }

  ghost predicate IsHandle<H>(handles: seq<H>, token: nat, handle: H) {
    1 <= token <= |handles| && handles[token - 1] == handle
  }

  /** The tokens given out so far are the live ones and the stopped ones, none of them both. */
  ghost predicate Partition(live: set<nat>, stopped: set<nat>, next: nat) {
    live !! stopped && forall t: nat :: (t in live || t in stopped) <==> 1 <= t <= next
  }

  ghost function StoppedTokens<H>(aborted: seq<Stopped<H>>): set<nat> {
    set a <- aborted :: a.token
  }

  /** Every token given out is live or has been stopped, and as many stops as stopped tokens is once each. */
  ghost predicate TokensAccounted<H>(s: Slots<H>) {
    && Partition(s.live.Keys, StoppedTokens(s.aborted), s.next)
    && |StoppedTokens(s.aborted)| == |s.aborted|
  }

  /** What is live under a token, and what was stopped under it, is the handle installed for it. */
  ghost predicate HandlesAccounted<H>(s: Slots<H>, handles: seq<H>) {
    && (forall t <- s.live :: IsHandle(handles, t, s.live[t]))
    && (forall a <- s.aborted :: IsHandle(handles, a.token, a.handle))
  }

  ghost predicate Accounted<H>(s: Slots<H>, handles: seq<H>) {
    s.next == |handles| && TokensAccounted(s) && HandlesAccounted(s, handles)
  }

  lemma StoppedTokensAppend<H>(aborted: seq<Stopped<H>>, one: Stopped<H>)
    ensures StoppedTokens(aborted + [one]) == StoppedTokens(aborted) + {one.token}
    ensures forall a <- aborted :: a.token in StoppedTokens(aborted)
  {
    assert forall a <- aborted :: a in aborted + [one];
    assert one in aborted + [one];
  }

  lemma StoppingKeepsAccount<H>(s: Slots<H>, token: nat, handles: seq<H>)
    requires Accounted(s, handles)
    ensures Accounted(Stopping(s, token), handles)
  {
    if token in s.live {
      var live, gone := s.live.Keys, StoppedTokens(s.aborted);
      StoppingShrinks(s, token);
      StoppedTokensAppend(s.aborted, Stopped(token, s.live[token]));
      assert Partition(live - {token}, gone + {token}, s.next);
    }
  }

  /** What is held at any time fits, under tokens that have been given out. */
  ghost predicate Fits<H>(s: Slots<H>) {
    |s.live.Keys| <= MAX_FORWARDERS && forall t <- s.live :: 1 <= t <= s.next
  }

  /** Installing when there is room adds the new one; when there is none, the smallest token goes for it. */
  lemma InstallReclaimsTheOldest<H>(s: Slots<H>, handle: H)
    requires Fits(s)
    ensures var put := Put(s, handle);
            && s.next + 1 !in s.live
            && put.live.Keys == s.live.Keys + {s.next + 1}
            && Step(s, Install(handle))
               == (if |s.live.Keys| < MAX_FORWARDERS then put else Stopping(put, Smallest(put.live.Keys)))
            && (s.live.Keys != {} ==> Smallest(put.live.Keys) == Smallest(s.live.Keys))
  {
    var put := Put(s, handle);
    assert put.live.Keys == s.live.Keys + {s.next + 1};
    if s.live.Keys != {} {
      var oldest := Smallest(s.live.Keys);
      assert oldest == Smallest(put.live.Keys);
      StoppingShrinks(put, oldest);
      assert |s.live.Keys| == MAX_FORWARDERS ==> Reclaimed(Stopping(put, oldest)) == Stopping(put, oldest);
    }
  }

  lemma StepFits<H>(s: Slots<H>, op: Op<H>)
    requires Fits(s)
    ensures Fits(Step(s, op))
  {
    match op {
      case Install(handle) =>
        InstallReclaimsTheOldest(s, handle);
        if |s.live.Keys| == MAX_FORWARDERS {
          StoppingShrinks(Put(s, handle), Smallest(s.live.Keys));
        }
      case Clear(token) =>
        if token in s.live {
          StoppingShrinks(s, token);
        }
    }
  }

  lemma PutKeepsTokens<H>(s: Slots<H>, handle: H)
    requires TokensAccounted(s)
    ensures TokensAccounted(Put(s, handle))
  {
    var live := s.live.Keys + {s.next + 1};
    assert Put(s, handle).live.Keys == live;
    assert Partition(live, StoppedTokens(s.aborted), s.next + 1);
  }

  lemma PutKeepsHandles<H>(s: Slots<H>, handle: H, handles: seq<H>)
    requires s.next == |handles| && HandlesAccounted(s, handles)
    ensures HandlesAccounted(Put(s, handle), handles + [handle])
  {
    assert forall t: nat, h: H :: IsHandle(handles, t, h) ==> IsHandle(handles + [handle], t, h);
  }

  lemma StepKeepsAccount<H(!new)>(s: Slots<H>, op: Op<H>, handles: seq<H>)
    requires Fits(s) && Accounted(s, handles)
    ensures Accounted(Step(s, op), handles + (if op.Install? then [op.handle] else []))
  {
    match op {
      case Install(handle) =>
        InstallReclaimsTheOldest(s, handle);
        PutKeepsTokens(s, handle);
        PutKeepsHandles(s, handle, handles);
        StoppingKeepsAccount(Put(s, handle), Smallest(Put(s, handle).live.Keys), handles + [handle]);
      case Clear(token) =>
        assert handles + [] == handles;
        StoppingKeepsAccount(s, token, handles);
    }
  }

  /**
   Over any run, no more are live than the ceiling, and every handle installed is live under its
   own token or has been aborted exactly once.
   */
  lemma {:induction false} BoundedAndAccounted<H(!new)>(ops: seq<Op<H>>)
    ensures Fits(Run(ops))
    ensures Accounted(Run(ops), Handles(ops))
  {
    if ops != [] {
      var front, op := ops[..|ops| - 1], ops[|ops| - 1];
      BoundedAndAccounted(front);
      StepFits(Run(front), op);
      StepKeepsAccount(Run(front), op, Handles(front));
    }
  }

  /** A token nobody holds clears nothing. */
  lemma StaleClearIsNothing<H>(ops: seq<Op<H>>, token: nat)
    requires token !in Run(ops).live
    ensures Run(ops + [Clear(token)]) == Run(ops)
  {
    assert (ops + [Op.Clear(token)])[..|ops|] == ops;
  }

  lemma {:induction false} AtMostTheRange(tokens: set<nat>, low: nat, high: nat)
    requires low <= high && forall t <- tokens :: low < t <= high
    ensures |tokens| <= high - low
    decreases high - low
  {
    if tokens != {} {
      var t :| t in tokens;
      AtMostTheRange(tokens - {high}, low, high - 1);
      assert |tokens - {high}| >= |tokens| - 1;
    }
  }

  lemma RunNext<H>(front: seq<Op<H>>, op: Op<H>)
    ensures Run(front + [op]) == Step(Run(front), op)
    ensures Handles(front + [op]) == Handles(front) + (if op.Install? then [op.handle] else [])
    ensures Uncleared(front + [op])
            == if op.Clear? then Uncleared(front) - {op.token} else Uncleared(front) + {|Handles(front)| + 1}
  {
    assert (front + [op])[..|front|] == front;
  }

  /** What is live after one more operation. */
  lemma LiveNext<H>(s: Slots<H>, op: Op<H>)
    requires Fits(s)
    ensures op.Install? ==>
              Step(s, op).live.Keys == s.live.Keys + {s.next + 1}
                - (if |s.live.Keys| == MAX_FORWARDERS then {Smallest(s.live.Keys)} else {})
    ensures op.Clear? ==> Step(s, op).live.Keys == s.live.Keys - {op.token}
  {
    match op {
      case Install(handle) =>
        InstallReclaimsTheOldest(s, handle);
        StoppingShrinks(Put(s, handle), Smallest(Put(s, handle).live.Keys));
      case Clear(token) =>
        if token in s.live {
          StoppingShrinks(s, token);
        }
    }
  }

  /** The smallest token of a full set of live ones is that far behind the last one given out. */
  lemma OldestIsFarBehind<H>(s: Slots<H>)
    requires Fits(s) && |s.live.Keys| == MAX_FORWARDERS
    ensures Smallest(s.live.Keys) + MAX_FORWARDERS <= s.next + 1
  {
    var oldest := Smallest(s.live.Keys);
    AtMostTheRange(s.live.Keys - {oldest}, oldest, s.next);
  }

  /** What is live was given out and not cleared. */
  lemma {:induction false} LiveIsUncleared<H(!new)>(ops: seq<Op<H>>)
    ensures Run(ops).live.Keys <= Uncleared(ops)
    ensures Run(ops).next == |Handles(ops)|
  {
    if ops != [] {
      var front, op := ops[..|ops| - 1], ops[|ops| - 1];
      assert ops == front + [op];
      LiveIsUncleared(front);
      BoundedAndAccounted(front);
      RunNext(front, op);
      LiveNext(Run(front), op);
      BoundedAndAccounted(ops);
    }
  }

  /** A token lost without being cleared had at least as many installs after its own as the ceiling. */
  lemma {:induction false} LostOnlyToLaterInstalls<H(!new)>(ops: seq<Op<H>>, t: nat)
    requires t in Uncleared(ops)
    ensures t in Run(ops).live.Keys || t + MAX_FORWARDERS <= |Handles(ops)|
  {
    var front, op := ops[..|ops| - 1], ops[|ops| - 1];
    assert ops == front + [op];
    LiveIsUncleared(front);
    BoundedAndAccounted(front);
    RunNext(front, op);
    LiveNext(Run(front), op);
    if t in Uncleared(front) {
      LostOnlyToLaterInstalls(front, t);
      if |Run(front).live.Keys| == MAX_FORWARDERS {
        OldestIsFarBehind(Run(front));
      }
    }
  }

  predicate NeverOverTheCeiling<H>(ops: seq<Op<H>>) {
    forall n: nat | n <= |ops| :: |Uncleared(ops[..n])| <= MAX_FORWARDERS
  }

  ghost predicate NothingReclaimed<H>(ops: seq<Op<H>>) {
    forall n: nat | n <= |ops| :: Run(ops[..n]).live.Keys == Uncleared(ops[..n])
  }

  /** The ceiling takes nothing from anybody exactly while no more tokens are held than it allows. */
  lemma NothingReclaimedIff<H(!new)>(ops: seq<Op<H>>)
    ensures NothingReclaimed(ops) <==> NeverOverTheCeiling(ops)
  {
    forall n: nat | n <= |ops|
      ensures NothingReclaimed(ops) ==> |Uncleared(ops[..n])| <= MAX_FORWARDERS
      ensures NeverOverTheCeiling(ops) ==> Run(ops[..n]).live.Keys == Uncleared(ops[..n])
    {
      BoundedAndAccounted(ops[..n]);
      if NeverOverTheCeiling(ops) {
        UnderTheCeiling(ops, n);
      }
    }
  }

  lemma {:induction false} UnderTheCeiling<H(!new)>(ops: seq<Op<H>>, n: nat)
    requires n <= |ops| && NeverOverTheCeiling(ops)
    ensures Run(ops[..n]).live.Keys == Uncleared(ops[..n])
  {
    if n > 0 {
      var front, op := ops[..n - 1], ops[n - 1];
      assert ops[..n] == front + [op];
      UnderTheCeiling(ops, n - 1);
      BoundedAndAccounted(front);
      RunNext(front, op);
      assert |Uncleared(front + [op])| <= MAX_FORWARDERS;
      StepUnderTheCeiling(Run(front), op);
    }
  }

  /** A step that leaves no more uncleared than the ceiling reclaims nothing. */
  lemma StepUnderTheCeiling<H>(s: Slots<H>, op: Op<H>)
    requires Fits(s)
    requires op.Install? ==> |s.live.Keys + {s.next + 1}| <= MAX_FORWARDERS
    ensures Step(s, op).live.Keys == if op.Clear? then s.live.Keys - {op.token} else s.live.Keys + {s.next + 1}
  {
    LiveNext(s, op);
    assert |s.live.Keys + {s.next + 1}| == |s.live.Keys| + 1;
  }

  /** A token not cleared since, with fewer later installs than the ceiling, still has its own handle. */
  lemma StillLive<H(!new)>(ops: seq<Op<H>>, i: nat)
    requires i < |ops| && ops[i].Install?
    requires forall j | i < j < |ops| :: ops[j] != Clear(|Handles(ops[..i])| + 1)
    requires |Handles(ops)| <= |Handles(ops[..i])| + MAX_FORWARDERS
    ensures |Handles(ops[..i])| + 1 in Run(ops).live
    ensures Run(ops).live[|Handles(ops[..i])| + 1] == ops[i].handle
  {
    assert ops[..|ops|] == ops;
    StaysUncleared(ops, i, |ops|);
    LostOnlyToLaterInstalls(ops, |Handles(ops[..i])| + 1);
    BoundedAndAccounted(ops);
  }

  lemma {:induction false} StaysUncleared<H(!new)>(ops: seq<Op<H>>, i: nat, n: nat)
    requires i < n <= |ops| && ops[i].Install?
    requires forall j | i < j < n :: ops[j] != Clear(|Handles(ops[..i])| + 1)
    ensures |Handles(ops[..i])| + 1 in Uncleared(ops[..n])
    ensures |Handles(ops[..i])| < |Handles(ops[..n])|
    ensures Handles(ops[..n])[|Handles(ops[..i])|] == ops[i].handle
  {
    assert ops[..n][..n - 1] == ops[..n - 1];
    if n > i + 1 {
      StaysUncleared(ops, i, n - 1);
    }
  }
}
