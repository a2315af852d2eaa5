/**
 One connection to the app, from its server's end: requests answered in turn, with remarks along
 the way, and what anybody reading the frames can make of them.

 What a connection meets is an input: for each turn, whether the server had been told to stop, what
 was read, what the request had to say while it ran, its answer, and which writes the peer took.
 */
module IpcServer {
  import opened Bytes
  import opened Frame
  import opened Wrappers

  datatype Reply<+A> = Progress(note: seq<byte>) | Done(answer: A)

  datatype Remark = Remark(note: seq<byte>, taken: bool)

  datatype Incoming<+Q> = Request(request: Q) | PeerClosed | ReadFailed

  datatype Turn<+Q, +A> = Turn(
    stopped: bool,
    incoming: Incoming<Q>,
    remarks: seq<Remark>,
    answer: A,
    answerTaken: bool)

  /** What the server does, in order. */
  datatype Act<+Q, +A> =
    | SessionOpened
    | Took(request: Q)
    | Wrote(reply: Reply<A>)
    | WriteFailed
    | Answered(answer: A)
    | SessionClosed

  /** Nothing is read for this turn: the server was told to stop, or there was no request to read. */
  predicate Ends<Q, A>(t: Turn<Q, A>) {
    t.stopped || !t.incoming.Request?
  }

  /** The remarks written before one was not taken. */
  function NotesTaken(remarks: seq<Remark>): seq<seq<byte>> {
    if remarks == [] || !remarks[0].taken then [] else [remarks[0].note] + NotesTaken(remarks[1..])
  }

  predicate AllTaken(remarks: seq<Remark>) {
    forall r <- remarks :: r.taken
  }

  /** Every frame of the turn was taken, its answer last. */
  predicate Completes<Q, A>(t: Turn<Q, A>) {
    AllTaken(t.remarks) && t.answerTaken
  }

  function Notes<Q, A>(notes: seq<seq<byte>>): seq<Act<Q, A>> {
    if notes == [] then [] else [Wrote(Progress(notes[0]))] + Notes(notes[1..])
  }

  /** One request from being read to its answer, which it runs to whether or not anybody is there to take it. */
  function TurnActs<Q, A>(t: Turn<Q, A>): seq<Act<Q, A>>
    requires t.incoming.Request?
  {
    [Took(t.incoming.request)] + Notes(NotesTaken(t.remarks))
    + (if !AllTaken(t.remarks) then [WriteFailed, Answered(t.answer)]
       else [Answered(t.answer)] + (if t.answerTaken then [Wrote(Done(t.answer))] else [WriteFailed]))
  }

  function Serving<Q, A>(turns: seq<Turn<Q, A>>): seq<Act<Q, A>> {
    if turns == [] || Ends(turns[0]) then []
    else TurnActs(turns[0]) + (if Completes(turns[0]) then Serving(turns[1..]) else [])
  }

  function Connection<Q, A>(accepted: bool, turns: seq<Turn<Q, A>>): seq<Act<Q, A>> {
    if accepted then [SessionOpened] + Serving(turns) + [SessionClosed] else []
  }

  lemma NotesAppend<Q, A>(a: seq<seq<byte>>, last: seq<byte>)
    ensures Notes<Q, A>(a + [last]) == Notes<Q, A>(a) + [Wrote(Progress(last))]
  {
    if a == [] {
      assert a + [last] == [last];
      assert Notes<Q, A>([last]) == [Wrote(Progress(last))] + Notes<Q, A>([last][1..]);
    } else {
      assert (a + [last])[1..] == a[1..] + [last];
      NotesAppend<Q, A>(a[1..], last);
    }
  }

  lemma {:induction false} NotesTakenFront(remarks: seq<Remark>, i: nat)
    requires i <= |remarks| && AllTaken(remarks[..i])
    ensures i < |remarks| && remarks[i].taken ==>
              NotesTaken(remarks[..i + 1]) == NotesTaken(remarks[..i]) + [remarks[i].note]
    ensures i < |remarks| && !remarks[i].taken ==> NotesTaken(remarks) == NotesTaken(remarks[..i])
    decreases i
  {
    if i > 0 {
      assert remarks[..i][0].taken by { assert remarks[..i][0] in remarks[..i]; }
      var rest := remarks[1..];
      assert remarks[..i][1..] == rest[..i - 1];
      assert forall r | r in rest[..i - 1] :: r in remarks[..i];
      NotesTakenFront(rest, i - 1);
      if i < |remarks| {
        assert remarks[..i + 1][1..] == rest[..i];
      }
    } else if |remarks| > 0 {
      assert remarks[..1][1..] == [];
      assert remarks[..0] == [];
    }
  }

  /** One turn: frames for its remarks while they are taken, its answer made whatever became of them. */
  method ServeRequest<Q, A>(turn: Turn<Q, A>) returns (acts: seq<Act<Q, A>>, completed: bool)
    requires turn.incoming.Request?
    ensures acts == TurnActs(turn) && completed == Completes(turn)
  {
    acts := [Took(turn.incoming.request)];
    ghost var took := acts;
    var written, i := true, 0;
    while i < |turn.remarks| && written
      invariant i <= |turn.remarks|
      invariant if written then AllTaken(turn.remarks[..i]) && acts == took + Notes(NotesTaken(turn.remarks[..i]))
                else !AllTaken(turn.remarks) && acts == took + Notes(NotesTaken(turn.remarks)) + [WriteFailed]
    {
      var remark := turn.remarks[i];
      NotesTakenFront(turn.remarks, i);
      NotesAppend<Q, A>(NotesTaken(turn.remarks[..i]), remark.note);
      assert turn.remarks[..i + 1] == turn.remarks[..i] + [remark];
      written := remark.taken;
      if written {
        acts := acts + [Wrote(Progress(remark.note))];
      } else {
        acts := acts + [WriteFailed];
        assert remark in turn.remarks;
      }
      i := i + 1;
    }
    assert written ==> turn.remarks[..i] == turn.remarks;
    acts := acts + [Answered(turn.answer)];
    if !written {
      return acts, false;
    }
    if turn.answerTaken {
      acts := acts + [Wrote(Done(turn.answer))];
    } else {
      acts := acts + [WriteFailed];
    }
    completed := turn.answerTaken;
  }

  /** Serves one client connection. */
  method HandleConnection<Q, A>(accepted: bool, turns: seq<Turn<Q, A>>) returns (acts: seq<Act<Q, A>>)
    ensures acts == Connection(accepted, turns)
  {
    if !accepted {
      return [];
    }
    acts := [SessionOpened];
    var at, open := 0, true;
    assert turns[0..] == turns;
    while open && at < |turns|
      invariant at <= |turns|
      invariant acts + (if open then Serving(turns[at..]) else []) == [SessionOpened] + Serving(turns)
      decreases |turns| - at, open
    {
      var turn := turns[at];
      assert turns[at..][1..] == turns[at + 1..];
      if turn.stopped {
        open := false;
      } else if !turn.incoming.Request? {
        open := false;
      } else {
        var served, completed := ServeRequest(turn);
        TurnServed(acts, turns[at..]);
        acts := acts + served;
        open := completed;
        at := at + 1;
      }
    }
    assert acts + [] == acts;
    acts := acts + [SessionClosed];
  }

  lemma TurnServed<Q, A>(before: seq<Act<Q, A>>, turns: seq<Turn<Q, A>>)
    requires turns != [] && !Ends(turns[0])
    ensures before + Serving(turns)
            == before + TurnActs(turns[0]) + (if Completes(turns[0]) then Serving(turns[1..]) else [])
  {
    Assoc(before, TurnActs(turns[0]), if Completes(turns[0]) then Serving(turns[1..]) else []);
  }

  // ---------------------------------------------------------------- the reply discipline

  function Written<Q, A>(acts: seq<Act<Q, A>>): seq<Reply<A>> {
    if acts == [] then []
    else (if acts[0].Wrote? then [acts[0].reply] else []) + Written(acts[1..])
  }

  function Requests<Q, A>(acts: seq<Act<Q, A>>): seq<Q> {
    if acts == [] then []
    else (if acts[0].Took? then [acts[0].request] else []) + Requests(acts[1..])
  }

  function Answers<Q, A>(acts: seq<Act<Q, A>>): seq<A> {
    if acts == [] then []
    else (if acts[0].Answered? then [acts[0].answer] else []) + Answers(acts[1..])
  }

  lemma {:induction false} ActsAppend<Q, A>(a: seq<Act<Q, A>>, b: seq<Act<Q, A>>)
    ensures Written(a + b) == Written(a) + Written(b)
    ensures Requests(a + b) == Requests(a) + Requests(b)
    ensures Answers(a + b) == Answers(a) + Answers(b)
  {
    if a == [] {
      assert a + b == b;
    } else {
      assert (a + b)[1..] == a[1..] + b;
      ActsAppend(a[1..], b);
      Assoc(if a[0].Wrote? then [a[0].reply] else [], Written(a[1..]), Written(b));
      Assoc(if a[0].Took? then [a[0].request] else [], Requests(a[1..]), Requests(b));
      Assoc(if a[0].Answered? then [a[0].answer] else [], Answers(a[1..]), Answers(b));
    }
  }

  /** A reply's frames: what it said, then its answer. */
  datatype Group<+A> = Group(notes: seq<seq<byte>>, answer: A)

  /**
   Reads frames the way anybody on the other end must: remarks until an answer, over and over. What
   is left over is remarks whose answer never came.
   */
  function Grouped<A>(frames: seq<Reply<A>>): (seq<Group<A>>, seq<seq<byte>>) {
    if frames == [] then ([], [])
    else
      var (groups, over) := Grouped(frames[1..]);
      match frames[0]
      case Done(answer) => ([Group([], answer)] + groups, over)
      case Progress(note) =>
        if groups == [] then ([], [note] + over)
        else ([groups[0].(notes := [note] + groups[0].notes)] + groups[1..], over)
  }

  /** How many turns are served: those before the first that ends the loop, or up to one that does not complete. */
  function ServedCount<Q, A>(turns: seq<Turn<Q, A>>): (n: nat)
    ensures n <= |turns|
    ensures forall i | 0 <= i < n :: !Ends(turns[i])
    ensures forall i | 0 <= i < n - 1 :: Completes(turns[i])
    ensures n < |turns| ==> Ends(turns[n]) || (n > 0 && !Completes(turns[n - 1]))
  {
    if turns == [] || Ends(turns[0]) then 0
    else if !Completes(turns[0]) then 1
    else 1 + ServedCount(turns[1..])
  }

  /** The groups a client is owed: one for each turn that completes. */
  function Owed<Q, A>(turns: seq<Turn<Q, A>>): seq<Group<A>> {
    if turns == [] || Ends(turns[0]) || !Completes(turns[0]) then []
    else [Group(NotesTaken(turns[0].remarks), turns[0].answer)] + Owed(turns[1..])
  }

  /** The remarks that went out for a request whose answer did not. */
  function Unanswered<Q, A>(turns: seq<Turn<Q, A>>): seq<seq<byte>> {
    if turns == [] || Ends(turns[0]) then []
    else if !Completes(turns[0]) then NotesTaken(turns[0].remarks)
    else Unanswered(turns[1..])
  }

  function Remarks<A>(notes: seq<seq<byte>>): seq<Reply<A>> {
    if notes == [] then [] else [Progress(notes[0])] + Remarks(notes[1..])
  }

  lemma {:induction false} ActsOfNotes<Q, A>(notes: seq<seq<byte>>)
    ensures Written(Notes<Q, A>(notes)) == Remarks(notes)
    ensures Requests(Notes<Q, A>(notes)) == [] && Answers(Notes<Q, A>(notes)) == []
  {
    if notes != [] {
      ActsOfNotes<Q, A>(notes[1..]);
      assert Notes<Q, A>(notes)[1..] == Notes<Q, A>(notes[1..]);
    }
  }

  /** What has been grouped, with more remarks before it: they belong to the first answer still to come. */
  function Preceded<A>(notes: seq<seq<byte>>, g: (seq<Group<A>>, seq<seq<byte>>)): (seq<Group<A>>, seq<seq<byte>>) {
    if g.0 == [] then ([], notes + g.1)
    else ([g.0[0].(notes := notes + g.0[0].notes)] + g.0[1..], g.1)
  }

  lemma PrecededTwice<A>(a: seq<seq<byte>>, b: seq<seq<byte>>, g: (seq<Group<A>>, seq<seq<byte>>))
    ensures Preceded(a, Preceded(b, g)) == Preceded(a + b, g)
    ensures Preceded([], g) == g
  {
    if g.0 == [] {
      Assoc(a, b, g.1);
      assert [] + g.1 == g.1;
    } else {
      Assoc(a, b, g.0[0].notes);
      assert [] + g.0[0].notes == g.0[0].notes;
      assert [g.0[0]] + g.0[1..] == g.0;
    }
  }

  lemma GroupedProgress<A>(note: seq<byte>, rest: seq<Reply<A>>)
    ensures Grouped([Progress(note)] + rest) == Preceded([note], Grouped(rest))
  {
    assert ([Progress(note)] + rest)[1..] == rest;
  }

  lemma {:induction false} GroupedNotes<A>(notes: seq<seq<byte>>, rest: seq<Reply<A>>)
    ensures Grouped(Remarks(notes) + rest) == Preceded(notes, Grouped(rest))
  {
    if notes == [] {
      assert Remarks(notes) + rest == rest;
      PrecededTwice([], [], Grouped(rest));
    } else {
      Assoc([Progress(notes[0])], Remarks(notes[1..]), rest);
      GroupedProgress(notes[0], Remarks(notes[1..]) + rest);
      GroupedNotes(notes[1..], rest);
      PrecededTwice([notes[0]], notes[1..], Grouped(rest));
      assert [notes[0]] + notes[1..] == notes;
    }
  }

  /** What one turn writes, asks and answers. */
  lemma TurnWrites<Q, A>(t: Turn<Q, A>)
    requires t.incoming.Request?
    ensures Written(TurnActs(t)) == Remarks(NotesTaken(t.remarks)) + (if Completes(t) then [Done(t.answer)] else [])
    ensures Requests(TurnActs(t)) == [t.incoming.request]
    ensures Answers(TurnActs(t)) == [t.answer]
  {
    var took: seq<Act<Q, A>> := [Took(t.incoming.request)];
    var notes: seq<Act<Q, A>> := Notes(NotesTaken(t.remarks));
    var end: seq<Act<Q, A>> :=
      if !AllTaken(t.remarks) then [WriteFailed, Answered(t.answer)]
      else [Answered(t.answer)] + (if t.answerTaken then [Wrote(Done(t.answer))] else [WriteFailed]);
    ActsAppend(took + notes, end);
    ActsAppend(took, notes);
    ActsOfNotes<Q, A>(NotesTaken(t.remarks));
    assert took[1..] == [];
    assert end[1..][1..] == [];
  }

  /**
   The frames written are a group for each request that completed, in the order they were asked, each
   its remarks and then the answer to that very request; after the last group there may be remarks of
   one more request, the last one read, and only when a write to the peer failed while it was served.
   */
  lemma {:induction false} ReplyDiscipline<Q, A>(turns: seq<Turn<Q, A>>)
    ensures Grouped(Written(Serving(turns))) == (Owed(turns), Unanswered(turns))
    ensures Unanswered(turns) != [] ==>
              ServedCount(turns) > 0 && !Completes(turns[ServedCount(turns) - 1])
  {
    if turns != [] && !Ends(turns[0]) {
      var t, rest := turns[0], turns[1..];
      TurnWrites(t);
      if Completes(t) {
        ReplyDiscipline(rest);
        ActsAppend(TurnActs(t), Serving(rest));
        Assoc(Remarks<A>(NotesTaken(t.remarks)), [Done(t.answer)], Written(Serving(rest)));
        GroupedNotes(NotesTaken(t.remarks), [Done(t.answer)] + Written(Serving(rest)));
        GroupedDone(t.answer, Written(Serving(rest)));
        assert NotesTaken(t.remarks) + [] == NotesTaken(t.remarks);
      } else {
        assert TurnActs(t) + [] == TurnActs(t);
        assert Written(Serving(turns)) == Remarks(NotesTaken(t.remarks)) + [];
        GroupedNotes<A>(NotesTaken(t.remarks), []);
        assert NotesTaken(t.remarks) + [] == NotesTaken(t.remarks);
        assert t in turns;
      }
    }
  }

  lemma GroupedDone<A>(answer: A, rest: seq<Reply<A>>)
    ensures Grouped([Done(answer)] + rest) == ([Group([], answer)] + Grouped(rest).0, Grouped(rest).1)
  {
    assert ([Done(answer)] + rest)[1..] == rest;
  }

  function RequestsOf<Q, A>(turns: seq<Turn<Q, A>>): seq<Q>
    requires forall i | 0 <= i < |turns| :: turns[i].incoming.Request?
  {
    if turns == [] then [] else [turns[0].incoming.request] + RequestsOf(turns[1..])
  }

  function AnswersOf<Q, A>(turns: seq<Turn<Q, A>>): seq<A> {
    if turns == [] then [] else [turns[0].answer] + AnswersOf(turns[1..])
  }

  /** What the opening and the closing of the session leave out of a connection: nothing read or answered. */
  lemma ConnectionReads<Q, A>(turns: seq<Turn<Q, A>>)
    ensures Requests(Connection(true, turns)) == Requests(Serving(turns))
    ensures Answers(Connection(true, turns)) == Answers(Serving(turns))
  {
    var first: seq<Act<Q, A>> := [SessionOpened];
    var last: seq<Act<Q, A>> := [SessionClosed];
    ActsAppend(first + Serving(turns), last);
    ActsAppend(first, Serving(turns));
    assert first[1..] == [] && last[1..] == [];
  }

  /** Every request read runs to its own answer, and none is read once the server has been told to stop. */
  lemma EveryRequestIsAnswered<Q, A>(turns: seq<Turn<Q, A>>)
    ensures Requests(Connection(true, turns)) == RequestsOf(turns[..ServedCount(turns)])
    ensures Answers(Connection(true, turns)) == AnswersOf(turns[..ServedCount(turns)])
    ensures forall k | 0 <= k < |turns| && turns[k].stopped :: ServedCount(turns) <= k
  {
    ServingAnswers(turns);
    ConnectionReads(turns);
  }

  /** A session is opened and closed once, first and last, and not at all by a peer that is not accepted. */
  lemma SessionIsOpenedAndClosedOnce<Q, A>(turns: seq<Turn<Q, A>>)
    ensures var acts := Connection(true, turns);
            && |acts| >= 2 && acts[0] == SessionOpened && acts[|acts| - 1] == SessionClosed
            && WithinSession(acts[1..|acts| - 1])
    ensures Connection(false, turns) == []
  {
    ServingStaysOpen(turns);
    var acts := Connection(true, turns);
    assert acts[1..|acts| - 1] == Serving(turns);
  }

  lemma {:induction false} ServingAnswers<Q, A>(turns: seq<Turn<Q, A>>)
    ensures Requests(Serving(turns)) == RequestsOf(turns[..ServedCount(turns)])
    ensures Answers(Serving(turns)) == AnswersOf(turns[..ServedCount(turns)])
  {
    if turns != [] && !Ends(turns[0]) {
      var t, rest := turns[0], turns[1..];
      TurnWrites(t);
      if Completes(t) {
        ServingAnswers(rest);
        ActsAppend(TurnActs(t), Serving(rest));
        var n := ServedCount(rest);
        assert turns[..n + 1][0] == t && turns[..n + 1][1..] == rest[..n];
      } else {
        assert TurnActs(t) + [] == TurnActs(t);
        assert turns[..1] == [t];
      }
    }
  }

  predicate WithinSession<Q, A>(acts: seq<Act<Q, A>>) {
    forall i | 0 <= i < |acts| :: !acts[i].SessionOpened? && !acts[i].SessionClosed?
  }

  lemma {:induction false} NotesWithinSession<Q, A>(notes: seq<seq<byte>>)
    ensures WithinSession(Notes<Q, A>(notes))
  {
    if notes != [] {
      NotesWithinSession<Q, A>(notes[1..]);
    }
  }

  lemma {:induction false} ServingStaysOpen<Q, A>(turns: seq<Turn<Q, A>>)
    ensures WithinSession(Serving(turns))
  {
    if turns != [] && !Ends(turns[0]) {
      ServingStaysOpen(turns[1..]);
      NotesWithinSession<Q, A>(NotesTaken(turns[0].remarks));
      assert WithinSession(TurnActs(turns[0]));
    }
  }
}
