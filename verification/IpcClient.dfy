/** The client's end of a connection: an exchange takes frames off the stream as far as an answer. */
module IpcClient {
  import opened Bytes
  import opened Frame
  import opened IpcServer
  import opened Wrappers

  datatype ClientError = Transport

  /** What one exchange comes to: its answer or why there is none, and the remarks handed over on the way. */
  datatype Exchanged<+A> = Exchanged(result: Result<A, ClientError>, notes: seq<seq<byte>>)

  /** A message takes at least its prefix from the stream. */
  lemma ReadingAdvances<T>(decode: seq<byte> -> Option<T>, data: seq<byte>)
    ensures ReadOne(decode, data).0.Message? ==> |ReadOne(decode, data).1| < |data|
  {
  }

  /** The answer, the remarks before it and the stream after it; a failure where the next frame is neither. */
  function ExchangeOn<A>(decode: seq<byte> -> Option<Reply<A>>, data: seq<byte>, reporting: bool)
    : (Exchanged<A>, seq<byte>)
    decreases |data|
  {
    var read: (Read<Reply<A>>, seq<byte>) := ReadOne(decode, data);
    if !read.0.Message? then (Exchanged(Err(Transport), []), read.1)
    else
      match read.0.message
      case Done(answer) => (Exchanged(Ok(answer), []), read.1)
      case Progress(note) =>
        if !reporting then (Exchanged(Err(Transport), []), read.1)
        else
          var (more, left) := ExchangeOn(decode, read.1, reporting);
          (more.(notes := [note] + more.notes), left)
  }

  method Exchange<A>(stream: Pipe, decode: seq<byte> -> Option<Reply<A>>, reporting: bool) returns (x: Exchanged<A>)
    modifies stream
    ensures (x, stream.data) == ExchangeOn(decode, old(stream.data), reporting)
  {
    var notes: seq<seq<byte>> := [];
    ghost var all := ExchangeOn(decode, stream.data, reporting).0.notes;
    assert notes + all == all;
    while true
      invariant var (more, left) := ExchangeOn(decode, stream.data, reporting);
                ExchangeOn(decode, old(stream.data), reporting) == (more.(notes := notes + more.notes), left)
      decreases |stream.data|
    {
      ReadingAdvances(decode, stream.data);
      var frame: Read<Reply<A>>, _ := ReadFrame(stream, decode, None);
      assert notes + [] == notes;
      if !frame.Message? {
        return Exchanged(Err(Transport), notes);
      }
      match frame.message {
        case Done(answer) =>
          return Exchanged(Ok(answer), notes);
        case Progress(note) =>
          if !reporting {
            return Exchanged(Err(Transport), notes);
          }
          Assoc(notes, [note], ExchangeOn(decode, stream.data, reporting).0.notes);
          notes := notes + [note];
      }
    }
  }

  /**
   Exchanges one after another on the same stream, each asking to be told of remarks or not; one that
   fails gives the stream up.
   */
  function Session<A>(decode: seq<byte> -> Option<Reply<A>>, data: seq<byte>, asked: seq<bool>): seq<Exchanged<A>>
    decreases |asked|
  {
    if asked == [] then []
    else
      var (x, rest) := ExchangeOn(decode, data, asked[0]);
      [x] + (if x.result.Ok? then Session(decode, rest, asked[1..]) else [])
  }

  ghost predicate Codec<A(!new)>(
      encode: Reply<A> -> seq<byte>, decode: seq<byte> -> Option<Reply<A>>, frames: seq<Reply<A>>)
  {
    forall f <- frames :: |encode(f)| <= MAX_FRAME && decode(encode(f)) == Some(f)
  }

  /** The bytes the server's frames are on the stream. */
  function Encoded<A>(encode: Reply<A> -> seq<byte>, frames: seq<Reply<A>>): seq<byte>
    requires forall f <- frames :: |encode(f)| <= MAX_FRAME
  {
    if frames == [] then []
    else
      assert frames[0] in frames;
      FrameOf(encode(frames[0])) + Encoded(encode, frames[1..])
  }

  /** The front of a frame whose writing failed before its end. */
  ghost predicate IsCutFrame(part: seq<byte>) {
    exists body: seq<byte> :: |body| <= MAX_FRAME && part < FrameOf(body)
  }

  /** An exchange that asks for remarks is handed the first group, leaving `after`, or fails after what is left over. */
  ghost predicate TakesFirst<A>(decode: seq<byte> -> Option<Reply<A>>, data: seq<byte>,
                                g: (seq<Group<A>>, seq<seq<byte>>), after: seq<byte>)
  {
    ExchangeOn(decode, data, true)
    == if g.0 == [] then (Exchanged(Err(Transport), g.1), [])
       else (Exchanged(Ok(g.0[0].answer), g.0[0].notes), after)
  }

  /** An exchange takes the first group of frames there is, or fails having taken them all and what was left of one. */
  lemma {:induction false} ExchangeTakesAGroup<A(!new)>(
      encode: Reply<A> -> seq<byte>, decode: seq<byte> -> Option<Reply<A>>, frames: seq<Reply<A>>, part: seq<byte>)
    returns (rest: seq<Reply<A>>)
    requires Codec(encode, decode, frames) && IsCutFrame(part)
    ensures Codec(encode, decode, rest)
    ensures TakesFirst(decode, Encoded(encode, frames) + part, Grouped(frames), Encoded(encode, rest) + part)
    ensures Grouped(frames).0 != [] ==> Grouped(rest) == (Grouped(frames).0[1..], Grouped(frames).1)
  {
    rest := [];
    if frames == [] {
      CutFrameFails(decode, part);
      assert Encoded(encode, frames) + part == part;
    } else {
      var tail := frames[1..];
      assert forall f | f in tail :: f in frames;
      FirstFrame(encode, decode, frames, part);
      GroupedFirst(frames);
      match frames[0] {
        case Done(answer) =>
          rest := tail;
        case Progress(note) =>
          rest := ExchangeTakesAGroup(encode, decode, tail, part);
          RemarkFirst(decode, Encoded(encode, frames) + part, Encoded(encode, tail) + part, note, Grouped(tail),
                      Encoded(encode, rest) + part);
      }
    }
  }

  lemma GroupedFirst<A>(frames: seq<Reply<A>>)
    requires frames != []
    ensures Grouped(frames)
            == match frames[0]
               case Done(answer) => ([Group([], answer)] + Grouped(frames[1..]).0, Grouped(frames[1..]).1)
               case Progress(note) => Preceded([note], Grouped(frames[1..]))
  {
    assert frames == [frames[0]] + frames[1..];
    match frames[0] {
      case Done(answer) => GroupedDone(answer, frames[1..]);
      case Progress(note) => GroupedProgress(note, frames[1..]);
    }
  }

  lemma RemarkFirst<A>(decode: seq<byte> -> Option<Reply<A>>, data: seq<byte>, more: seq<byte>, note: seq<byte>,
                       g: (seq<Group<A>>, seq<seq<byte>>), after: seq<byte>)
    requires TakesFirst(decode, more, g, after)
    requires var (x, left) := ExchangeOn(decode, more, true);
             ExchangeOn(decode, data, true) == (x.(notes := [note] + x.notes), left)
    ensures TakesFirst(decode, data, Preceded([note], g), after)
  {
  }

  /** What an exchange makes of the first frame, given what it makes of the rest. */
  lemma FirstFrame<A(!new)>(
      encode: Reply<A> -> seq<byte>, decode: seq<byte> -> Option<Reply<A>>, frames: seq<Reply<A>>, part: seq<byte>)
    requires Codec(encode, decode, frames) && frames != []
    requires forall f <- frames[1..] :: |encode(f)| <= MAX_FRAME
    ensures var after := Encoded(encode, frames[1..]) + part;
            ExchangeOn(decode, Encoded(encode, frames) + part, true)
            == match frames[0]
               case Done(answer) => (Exchanged(Ok(answer), []), after)
               case Progress(note) =>
                 var (more, left) := ExchangeOn(decode, after, true);
                 (more.(notes := [note] + more.notes), left)
  {
    assert frames[0] in frames;
    Assoc(FrameOf(encode(frames[0])), Encoded(encode, frames[1..]), part);
    ReadWholeFrame(decode, encode(frames[0]), Encoded(encode, frames[1..]) + part);
  }

  lemma CutFrameFails<A>(decode: seq<byte> -> Option<Reply<A>>, part: seq<byte>)
    requires IsCutFrame(part)
    ensures forall reporting :: ExchangeOn(decode, part, reporting) == (Exchanged(Err(Transport), []), [])
  {
    var body: seq<byte> :| |body| <= MAX_FRAME && part < FrameOf(body);
    if |part| >= PREFIX {
      assert part[..PREFIX] == FrameOf(body)[..PREFIX] == BigEndian(|body|);
      BigEndianRoundTrip(|body|);
    }
  }

  /**
   An exchange that asks for no remarks: answered by the first frame when that is an answer, the rest of
   the stream left as it was; a failure, with nothing handed over, when it is a remark or there is none.
   */
  lemma UnaskedExchange<A(!new)>(
      encode: Reply<A> -> seq<byte>, decode: seq<byte> -> Option<Reply<A>>, frames: seq<Reply<A>>, part: seq<byte>)
    requires Codec(encode, decode, frames) && IsCutFrame(part)
    ensures forall f <- frames[if frames == [] then 0 else 1..] :: |encode(f)| <= MAX_FRAME
    ensures var got := ExchangeOn(decode, Encoded(encode, frames) + part, false);
            if frames == [] then got == (Exchanged(Err(Transport), []), [])
            else
              && got.1 == Encoded(encode, frames[1..]) + part
              && got.0 == match frames[0]
                          case Done(answer) => Exchanged(Ok(answer), [])
                          case Progress(_) => Exchanged(Err(Transport), [])
  {
    if frames == [] {
      CutFrameFails(decode, part);
      assert Encoded(encode, frames) + part == part;
    } else {
      var tail := frames[1..];
      assert frames[0] in frames && forall f | f in tail :: f in frames;
      Assoc(FrameOf(encode(frames[0])), Encoded(encode, tail), part);
      ReadWholeFrame(decode, encode(frames[0]), Encoded(encode, tail) + part);
    }
  }

  /**
   What exchanges come to on a stream of these groups: the remarks and the answer of each in turn, as far
   as one that fails, for want of a group or because it was told something it had not asked for.
   */
  function HandedOver<A>(groups: seq<Group<A>>, over: seq<seq<byte>>, asked: seq<bool>): seq<Exchanged<A>> {
    if asked == [] then []
    else if groups == [] then [Exchanged(Err(Transport), if asked[0] then over else [])]
    else if asked[0] || groups[0].notes == [] then
      [Exchanged(Ok(groups[0].answer), groups[0].notes)] + HandedOver(groups[1..], over, asked[1..])
    else [Exchanged(Err(Transport), [])]
  }

  /** The frames past the first, where the first answers, are the groups past the first. */
  lemma AnsweredAtOnce<A>(frames: seq<Reply<A>>)
    ensures var (groups, over) := Grouped(frames);
            if frames != [] && frames[0].Done? then
              && groups != [] && groups[0] == Group([], frames[0].answer)
              && Grouped(frames[1..]) == (groups[1..], over)
            else groups != [] ==> groups[0].notes != []
  {
    if frames != [] {
      GroupedFirst(frames);
    }
  }

  lemma {:induction false} SessionTakesTheGroups<A(!new)>(
      encode: Reply<A> -> seq<byte>, decode: seq<byte> -> Option<Reply<A>>, frames: seq<Reply<A>>, part: seq<byte>,
      groups: seq<Group<A>>, over: seq<seq<byte>>, asked: seq<bool>)
    requires Codec(encode, decode, frames) && IsCutFrame(part) && Grouped(frames) == (groups, over)
    ensures Session(decode, Encoded(encode, frames) + part, asked) == HandedOver(groups, over, asked)
    decreases |asked|
  {
    if asked != [] {
      if asked[0] {
        var rest := ExchangeTakesAGroup(encode, decode, frames, part);
        if groups != [] {
          SessionTakesTheGroups(encode, decode, rest, part, groups[1..], over, asked[1..]);
        }
      } else {
        UnaskedExchange(encode, decode, frames, part);
        AnsweredAtOnce(frames);
        if frames != [] && frames[0].Done? {
          assert forall f | f in frames[1..] :: f in frames;
          SessionTakesTheGroups(encode, decode, frames[1..], part, groups[1..], over, asked[1..]);
        }
      }
    }
  }

  /**
   From one end to the other, through the bytes between: the client's exchanges are handed exactly the
   remarks and the answers of the requests the server completed, the i-th exchange those of the i-th
   request. One that asked for no remarks fails where there is one; and the exchange after the last
   request fails rather than being handed another's answer, however much of a frame a failing write left
   on the stream.
   */
  lemma EachExchangeGetsItsOwnAnswer<Q(!new), A(!new)>(
      turns: seq<Turn<Q, A>>, encode: Reply<A> -> seq<byte>, decode: seq<byte> -> Option<Reply<A>>, part: seq<byte>,
      asked: seq<bool>)
    requires Codec(encode, decode, Written(Serving(turns))) && IsCutFrame(part)
    ensures Session(decode, Encoded(encode, Written(Serving(turns))) + part, asked)
            == HandedOver(Owed(turns), Unanswered(turns), asked)
  {
    ReplyDiscipline(turns);
    SessionTakesTheGroups(encode, decode, Written(Serving(turns)), part, Owed(turns), Unanswered(turns), asked);
  }

  /** Where every exchange asks for remarks, or nothing was remarked, each gets the answer of its own request. */
  lemma {:induction false} OwnAnswers<A>(groups: seq<Group<A>>, over: seq<seq<byte>>, asked: seq<bool>, i: nat)
    requires i < |asked| && i < |groups|
    requires forall k | 0 <= k <= i :: asked[k] || groups[k].notes == []
    ensures i < |HandedOver(groups, over, asked)|
    ensures HandedOver(groups, over, asked)[i] == Exchanged(Ok(groups[i].answer), groups[i].notes)
  {
    if i > 0 {
      OwnAnswers(groups[1..], over, asked[1..], i - 1);
    }
  }
}
