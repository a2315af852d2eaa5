/**
 Length-prefixed framing over a byte stream: a 4-byte big-endian count, then that many bytes.

 The codec of what is inside a frame is a parameter.
 */
module Frame {
  import opened Bytes
  import opened Wrappers

  const MAX_FRAME: nat := 8 * 1024 * 1024
  const PREFIX: nat := 4

  datatype FrameError = Io | UnexpectedEof | TooLarge | Malformed

  /** What one read comes to: a message, the peer having closed the stream, or a failure. */
  datatype Read<+T> = Message(message: T) | Closed | Failed(error: FrameError)

  function BigEndian(n: nat): (s: seq<byte>)
    requires n < 0x1_0000_0000
    ensures |s| == PREFIX
  {
    [(n / 0x100_0000) as byte, (n / 0x1_0000 % 0x100) as byte, (n / 0x100 % 0x100) as byte, (n % 0x100) as byte]
  }

  function FromBigEndian(s: seq<byte>): (n: nat)
    requires |s| == PREFIX
    ensures n < 0x1_0000_0000
  {
    s[0] as nat * 0x100_0000 + s[1] as nat * 0x1_0000 + s[2] as nat * 0x100 + s[3] as nat
  }

  /** The prefix is the count it was written from, and no other count has it. */
  lemma BigEndianRoundTrip(n: nat)
    requires n < 0x1_0000_0000
    ensures FromBigEndian(BigEndian(n)) == n
  {
    assert n / 0x1_0000 % 0x100 == n / 0x1_0000 - n / 0x100_0000 * 0x100;
    assert n / 0x100 % 0x100 == n / 0x100 - n / 0x1_0000 * 0x100;
    assert n % 0x100 == n - n / 0x100 * 0x100;
  }

  function FrameOf(body: seq<byte>): seq<byte>
    requires |body| <= MAX_FRAME
  {
    BigEndian(|body|) + body
  }

  function ReadOne<T>(decode: seq<byte> -> Option<T>, data: seq<byte>): (Read<T>, seq<byte>) {
    if |data| < PREFIX then (Closed, [])
    else
      var len := FromBigEndian(data[..PREFIX]);
      var rest := data[PREFIX..];
      if len > MAX_FRAME then (Failed(TooLarge), rest)
      else if |rest| < len then (Failed(UnexpectedEof), [])
      else
        match decode(rest[..len])
        case Some(m) => (Message(m), rest[len..])
        case None => (Failed(Malformed), rest[len..])
  }

  /** How many bytes reading one frame asks for. */
  function Wanted(data: seq<byte>): nat {
    if |data| < PREFIX || FromBigEndian(data[..PREFIX]) > MAX_FRAME then PREFIX
    else PREFIX + FromBigEndian(data[..PREFIX])
  }

  /** What came of filling a buffer: its bytes, the stream's end before there were enough, or the stream failing. */
  datatype Filled = Bytes(bytes: seq<byte>) | Ended | Broken

  function Spent(room: Option<nat>, n: nat): Option<nat>
    requires room.Some? ==> n <= room.value
  {
    match room case None => None case Some(m) => Some(m - n)
  }

  /**
   A byte stream between two ends: what has been written to it and not yet read. Where it fails is an
   input of each use: `room` is how many more bytes it carries before it does, if it does.
   */
  class Pipe {
    var data: seq<byte>

    constructor ()
      ensures data == []
    {
      data := [];
    }

    /** Writes it all, or as much of it as the stream carries before it fails. */
    method WriteAll(bytes: seq<byte>, room: Option<nat>) returns (carried: bool)
      modifies this
      ensures carried <==> room.None? || |bytes| <= room.value
      ensures data == old(data) + if carried then bytes else bytes[..room.value]
    {
      carried := room.None? || |bytes| <= room.value;
      data := data + if carried then bytes else bytes[..room.value];
    }

    /** Fills a buffer of `n` bytes, or takes what there is and fails when the stream ends or breaks first. */
    method ReadExact(n: nat, room: Option<nat>) returns (buffer: Filled)
      modifies this
      ensures room.Some? && room.value < n ==> buffer == Broken && data == []
      ensures (room.None? || n <= room.value) && |old(data)| >= n ==>
                buffer == Bytes(old(data)[..n]) && data == old(data)[n..]
      ensures (room.None? || n <= room.value) && |old(data)| < n ==> buffer == Ended && data == []
    {
      if room.Some? && room.value < n {
        data := [];
        return Broken;
      }
      if |data| < n {
        data := [];
        return Ended;
      }
      buffer := Bytes(data[..n]);
      data := data[n..];
    }
  }

  /**
   Writes one frame, or nothing at all when the message is too large for one. Where the stream fails
   first, what it carried is a proper front of the frame.
   */
  method WriteFrame(writer: Pipe, body: seq<byte>, room: Option<nat>) returns (failed: Option<FrameError>)
    modifies writer
    ensures |body| > MAX_FRAME ==> failed == Some(TooLarge) && writer.data == old(writer.data)
    ensures |body| <= MAX_FRAME ==>
              if room.Some? && room.value < |FrameOf(body)|
              then failed == Some(Io) && writer.data == old(writer.data) + FrameOf(body)[..room.value]
              else failed == None && writer.data == old(writer.data) + FrameOf(body)
  {
    if |body| > MAX_FRAME {
      return Some(TooLarge);
    }
    var carried := writer.WriteAll(BigEndian(|body|), room);
    if !carried {
      assert BigEndian(|body|)[..room.value] == FrameOf(body)[..room.value];
      return Some(Io);
    }
    carried := writer.WriteAll(body, Spent(room, PREFIX));
    if !carried {
      assert BigEndian(|body|) + body[..room.value - PREFIX] == FrameOf(body)[..room.value];
      Assoc(old(writer.data), BigEndian(|body|), body[..room.value - PREFIX]);
      return Some(Io);
    }
    Assoc(old(writer.data), BigEndian(|body|), body);
    return None;
  }

  /**
   Reads one frame, or fails having asked for more than the stream carried before it broke. No buffer it
   fills is larger than a frame may be.
   */
  method ReadFrame<T>(reader: Pipe, decode: seq<byte> -> Option<T>, room: Option<nat>)
    returns (r: Read<T>, ghost largestBuffer: nat)
    requires room.Some? ==> room.value <= |reader.data|
    modifies reader
    ensures r == Failed(Io) <==> room.Some? && room.value < Wanted(old(reader.data))
    ensures r != Failed(Io) ==> (r, reader.data) == ReadOne(decode, old(reader.data))
    ensures largestBuffer <= MAX_FRAME
  {
    largestBuffer := PREFIX;
    var prefix := reader.ReadExact(PREFIX, room);
    match prefix {
      case Ended => return Closed, largestBuffer;
      case Broken => return Failed(Io), largestBuffer;
      case Bytes(_) =>
    }
    var len := FromBigEndian(prefix.bytes);
    if len > MAX_FRAME {
      return Failed(TooLarge), largestBuffer;
    }
    if len > largestBuffer {
      largestBuffer := len;
    }
    var body := reader.ReadExact(len, Spent(room, PREFIX));
    match body {
      case Ended => return Failed(UnexpectedEof), largestBuffer;
      case Broken => return Failed(Io), largestBuffer;
      case Bytes(_) =>
    }
    var message := decode(body.bytes);
    if message.None? {
      return Failed(Malformed), largestBuffer;
    }
    return Message(message.value), largestBuffer;
  }

  // ---------------------------------------------------------------- streams of frames

  function Frames(bodies: seq<seq<byte>>): seq<byte>
    requires forall b <- bodies :: |b| <= MAX_FRAME
  {
    if bodies == [] then []
    else
      assert bodies[0] in bodies;
      FrameOf(bodies[0]) + Frames(bodies[1..])
  }

  /** Reading until there is no message to read: the messages, and what ended them. */
  function ReadAll<T>(decode: seq<byte> -> Option<T>, data: seq<byte>): (seq<T>, Read<T>)
    decreases |data|
  {
    var (r, rest) := ReadOne(decode, data);
    match r
    case Message(m) =>
      var (more, end) := ReadAll(decode, rest);
      ([m] + more, end)
    case _ => ([], r)
  }

  lemma ReadWholeFrame<T>(decode: seq<byte> -> Option<T>, body: seq<byte>, rest: seq<byte>)
    requires |body| <= MAX_FRAME && decode(body).Some?
    ensures ReadOne(decode, FrameOf(body) + rest) == (Message(decode(body).value), rest)
  {
    var data := FrameOf(body) + rest;
    assert data[..PREFIX] == BigEndian(|body|);
    assert data[PREFIX..] == body + rest;
    BigEndianRoundTrip(|body|);
    CutAppend(body, rest);
  }

  /** A prefix past the limit is refused, and only it is taken. */
  lemma OversizedIsRefused<T>(decode: seq<byte> -> Option<T>, n: nat, rest: seq<byte>)
    requires 8 * 1024 * 1024 < n < 0x1_0000_0000
    ensures ReadOne(decode, BigEndian(n) + rest) == (Failed(TooLarge), rest)
  {
    BigEndianRoundTrip(n);
    CutAppend(BigEndian(n), rest);
  }

  /** A whole frame that does not decode is taken, and is malformed. */
  lemma UndecodableIsMalformed<T>(decode: seq<byte> -> Option<T>, body: seq<byte>, rest: seq<byte>)
    requires |body| <= MAX_FRAME && decode(body).None?
    ensures ReadOne(decode, FrameOf(body) + rest) == (Failed(Malformed), rest)
  {
    var data := FrameOf(body) + rest;
    assert data[..PREFIX] == BigEndian(|body|);
    assert data[PREFIX..] == body + rest;
    BigEndianRoundTrip(|body|);
    CutAppend(body, rest);
  }

  /** What reading makes of a frame cut short: nothing was there, or it ended too soon. */
  function CutEnd<T>(part: seq<byte>): Read<T> {
    if |part| < PREFIX then Closed else Failed(UnexpectedEof)
  }

  lemma ReadCutFrame<T>(decode: seq<byte> -> Option<T>, body: seq<byte>, part: seq<byte>)
    requires |body| <= MAX_FRAME && part < FrameOf(body)
    ensures ReadOne(decode, part).0 == CutEnd(part)
  {
    if |part| >= PREFIX {
      assert part[..PREFIX] == FrameOf(body)[..PREFIX] == BigEndian(|body|);
      BigEndianRoundTrip(|body|);
    }
  }

  function Decoded<T>(decode: seq<byte> -> Option<T>, bodies: seq<seq<byte>>): seq<T>
    requires forall b <- bodies :: decode(b).Some?
  {
    if bodies == [] then []
    else
      assert bodies[0] in bodies;
      [decode(bodies[0]).value] + Decoded(decode, bodies[1..])
  }

  lemma {:induction false} ReadThrough<T>(decode: seq<byte> -> Option<T>, bodies: seq<seq<byte>>, part: seq<byte>)
    requires forall b <- bodies :: |b| <= MAX_FRAME && decode(b).Some?
    ensures ReadAll(decode, Frames(bodies) + part)
            == (Decoded(decode, bodies) + ReadAll(decode, part).0, ReadAll(decode, part).1)
  {
    if bodies == [] {
      assert Frames(bodies) + part == part;
      assert [] + ReadAll(decode, part).0 == ReadAll(decode, part).0;
    } else {
      var body, rest := bodies[0], bodies[1..];
      assert body in bodies;
      Assoc(FrameOf(body), Frames(rest), part);
      ReadWholeFrame(decode, body, Frames(rest) + part);
      ReadThrough(decode, rest, part);
      Assoc([decode(body).value], Decoded(decode, rest), ReadAll(decode, part).0);
    }
  }

  /** The messages written are the messages read, in order, and then the stream is found closed. */
  lemma FramesRoundTrip<T>(decode: seq<byte> -> Option<T>, bodies: seq<seq<byte>>)
    requires forall b <- bodies :: |b| <= MAX_FRAME && decode(b).Some?
    ensures ReadAll(decode, Frames(bodies)) == (Decoded(decode, bodies), Closed)
  {
    ReadThrough(decode, bodies, []);
    assert Frames(bodies) + [] == Frames(bodies);
    assert Decoded(decode, bodies) + [] == Decoded(decode, bodies);
  }

  /** Where a stream of frames is when it is cut after `n` bytes: past so many whole frames, and part of the next. */
  lemma {:induction false} CutWithin(bodies: seq<seq<byte>>, n: nat) returns (whole: nat, part: seq<byte>)
    requires (forall b <- bodies :: |b| <= MAX_FRAME) && n <= |Frames(bodies)|
    ensures whole <= |bodies| && (whole == |bodies| ==> part == [])
    ensures forall b <- bodies[..whole] :: |b| <= MAX_FRAME
    ensures whole < |bodies| ==> |bodies[whole]| <= MAX_FRAME && part < FrameOf(bodies[whole])
    ensures Frames(bodies)[..n] == Frames(bodies[..whole]) + part
  {
    if bodies == [] {
      whole, part := 0, [];
    } else {
      var first, rest := bodies[0], bodies[1..];
      assert first in bodies;
      var frame := FrameOf(first);
      if n < |frame| {
        whole, part := 0, frame[..n];
        assert bodies[..0] == [];
      } else {
        var more;
        more, part := CutWithin(rest, n - |frame|);
        whole := more + 1;
        assert bodies[..whole] == [first] + rest[..more];
        assert bodies[..whole][1..] == rest[..more];
        assert Frames(bodies)[..n] == frame + Frames(rest)[..n - |frame|];
        Assoc(frame, Frames(rest[..more]), part);
      }
    }
  }

  /**
   Cut anywhere, a stream yields exactly the messages whose frames are whole and never a different
   one. What it is found to be then depends on the cut: closed when less than a prefix of the next
   frame arrived, ended too soon when a prefix did.
   */
  lemma FramesCutAnywhere<T>(decode: seq<byte> -> Option<T>, bodies: seq<seq<byte>>, n: nat)
    returns (whole: nat, part: seq<byte>)
    requires (forall b <- bodies :: |b| <= MAX_FRAME && decode(b).Some?) && n <= |Frames(bodies)|
    ensures whole <= |bodies| && (whole == |bodies| ==> part == [])
    ensures forall b <- bodies[..whole] :: |b| <= MAX_FRAME && decode(b).Some?
    ensures whole < |bodies| ==> |bodies[whole]| <= MAX_FRAME && part < FrameOf(bodies[whole])
    ensures Frames(bodies)[..n] == Frames(bodies[..whole]) + part
    ensures ReadAll(decode, Frames(bodies)[..n]) == (Decoded(decode, bodies[..whole]), CutEnd(part))
  {
    whole, part := CutWithin(bodies, n);
    assert forall b | b in bodies[..whole] :: b in bodies;
    ReadThrough(decode, bodies[..whole], part);
    if whole < |bodies| {
      ReadCutFrame(decode, bodies[whole], part);
    }
    assert ReadAll(decode, part) == ([], CutEnd(part));
    assert Decoded(decode, bodies[..whole]) + [] == Decoded(decode, bodies[..whole]);
  }
}
