/**
 Running a command under containment: collecting what it says about itself as it says it, waiting
 for it within its time limit, and reporting on it no more often than asked.

 Processes, pipes and clocks are inputs: the pieces a pipe was read in, what each look at the
 world finds, and the instants it is looked at.
 */
module Exec {
  import opened Bytes
  import opened Utf8
  import opened Wrappers

  /** Milliseconds. */
  const STOP_CHECK: nat := 25
  const REMARK_LIMIT: nat := 512

  type Remark = seq<byte>

  // ---------------------------------------------------------------- what a stream says

  /** The two bytes a stream is cut into pieces at. */
  predicate EndsRemark(b: byte) {
    b == CR || b == LF
  }

  predicate NothingEnds(s: seq<byte>) {
    forall b <- s :: !EndsRemark(b)
  }

  /** What has been said since the last remark ended. */
  function Unended(s: seq<byte>): seq<byte>
    decreases |s|
  {
    if s == [] || EndsRemark(s[|s| - 1]) then [] else Unended(s[..|s| - 1]) + [s[|s| - 1]]
  }

  /** The pieces of the stream that were ended, without what ended them. */
  function Ended(s: seq<byte>): seq<seq<byte>>
    decreases |s|
  {
    if s == [] then []
    else
      var front := s[..|s| - 1];
      if EndsRemark(s[|s| - 1]) then Ended(front) + [Unended(front)] else Ended(front)
  }

  /** The bytes that ended them, in order. */
  function Endings(s: seq<byte>): seq<byte>
    decreases |s|
  {
    if s == [] then []
    else Endings(s[..|s| - 1]) + (if EndsRemark(s[|s| - 1]) then [s[|s| - 1]] else [])
  }

  function Rejoined(pieces: seq<seq<byte>>, endings: seq<byte>): seq<byte>
    requires |pieces| == |endings|
    decreases |pieces|
  {
    if pieces == [] then []
    else
      var n := |pieces| - 1;
      Rejoined(pieces[..n], endings[..n]) + pieces[n] + [endings[n]]
  }

  lemma RejoinedNext(pieces: seq<seq<byte>>, piece: seq<byte>, endings: seq<byte>, ending: byte)
    requires |pieces| == |endings|
    ensures Rejoined(pieces + [piece], endings + [ending]) == Rejoined(pieces, endings) + piece + [ending]
  {
    assert (pieces + [piece])[..|pieces|] == pieces && (endings + [ending])[..|pieces|] == endings;
  }

  /** Cutting a stream into remarks loses nothing and leaves no ending inside one. */
  lemma {:induction false} EndedIsTheStream(s: seq<byte>)
    ensures Cuts(s, Ended(s), Endings(s), Unended(s))
    decreases |s|
  {
    if s != [] {
      var front, last := s[..|s| - 1], s[|s| - 1];
      EndedIsTheStream(front);
      assert s == front + [last];
      SaidNext(front, last);
      CutsNext(front, Ended(front), Endings(front), Unended(front), last);
    }
  }

  /** The pieces and what ended them, with what follows the last of them, are the stream. */
  ghost predicate Cuts(s: seq<byte>, pieces: seq<seq<byte>>, endings: seq<byte>, rest: seq<byte>) {
    && |pieces| == |endings| && Rejoined(pieces, endings) + rest == s
    && (forall p <- pieces :: NothingEnds(p)) && NothingEnds(rest) && forall b <- endings :: EndsRemark(b)
  }

  lemma CutsNext(s: seq<byte>, pieces: seq<seq<byte>>, endings: seq<byte>, rest: seq<byte>, b: byte)
    requires Cuts(s, pieces, endings, rest)
    ensures if EndsRemark(b) then Cuts(s + [b], pieces + [rest], endings + [b], [])
            else Cuts(s + [b], pieces, endings, rest + [b])
  {
    if EndsRemark(b) {
      RejoinedNext(pieces, rest, endings, b);
      assert s + [b] + [] == s + [b];
    } else {
      Assoc(Rejoined(pieces, endings), rest, [b]);
    }
  }

  /** A piece holds neither of the two bytes pieces end at. */
  predicate IsPiece(p: seq<byte>) {
    13 !in p && 10 !in p
  }

  lemma {:induction false} SaidOn(s: seq<byte>, p: seq<byte>)
    requires IsPiece(p)
    ensures Ended(s + p) == Ended(s) && Unended(s + p) == Unended(s) + p
    decreases |p|
  {
    if p == [] {
      assert s + p == s && Unended(s) + p == Unended(s);
    } else {
      var front, last := p[..|p| - 1], p[|p| - 1];
      assert p == front + [last] && last in p;
      SaidOn(s, front);
      Assoc(s, front, [last]);
      SaidNext(s + front, last);
      Assoc(Unended(s), front, [last]);
    }
  }

  /** Pieces put together with a carriage return or a newline after each come apart as they were. */
  lemma {:induction false} EndedTakesApart(pieces: seq<seq<byte>>, endings: seq<byte>, rest: seq<byte>)
    requires |pieces| == |endings| && IsPiece(rest)
    requires forall i | 0 <= i < |pieces| :: IsPiece(pieces[i]) && (endings[i] == 13 || endings[i] == 10)
    ensures Ended(Rejoined(pieces, endings) + rest) == pieces && Unended(Rejoined(pieces, endings) + rest) == rest
    decreases |pieces|
  {
    var whole := Rejoined(pieces, endings);
    if pieces == [] {
      assert Ended([]) == [] && Unended([]) == [];
    } else {
      var n := |pieces| - 1;
      var front := Rejoined(pieces[..n], endings[..n]);
      EndedTakesApart(pieces[..n], endings[..n], pieces[n]);
      SaidNext(front + pieces[n], endings[n]);
      assert pieces[..n] + [pieces[n]] == pieces;
    }
    SaidOn(whole, rest);
    assert [] + rest == rest;
  }

  /** What a stream of such pieces says: the text of each, cut to the limit, but for those with none. */
  lemma {:induction false} RemarksOfPieces(
      pieces: seq<seq<byte>>, endings: seq<byte>, rest: seq<byte>, texts: seq<seq<byte>>)
    requires |pieces| == |endings| == |texts| && IsPiece(rest)
    requires forall i | 0 <= i < |pieces| :: IsPiece(pieces[i]) && (endings[i] == 13 || endings[i] == 10)
    requires forall i | 0 <= i < |pieces| :: PaddedWithin(pieces[i], 512, texts[i])
    ensures Remarks(Rejoined(pieces, endings) + rest) == Spoken(texts)
  {
    EndedTakesApart(pieces, endings, rest);
    SpokenPieces(pieces, texts);
  }

  /** The texts there is anything of, in order. */
  function Spoken(texts: seq<seq<byte>>): seq<Remark>
    decreases |texts|
  {
    if texts == [] then []
    else
      var last := texts[|texts| - 1];
      Spoken(texts[..|texts| - 1]) + (if last == [] then [] else [last])
  }

  lemma {:induction false} SpokenPieces(pieces: seq<seq<byte>>, texts: seq<seq<byte>>)
    requires |pieces| == |texts|
    requires forall i | 0 <= i < |pieces| :: PaddedWithin(pieces[i], 512, texts[i])
    ensures RemarksOf(pieces) == Spoken(texts)
    decreases |pieces|
  {
    if pieces != [] {
      var n := |pieces| - 1;
      SpokenPieces(pieces[..n], texts[..n]);
      SaidIsTheText(pieces[n], texts[n]);
    }
  }

  lemma SaidIsTheText(piece: seq<byte>, text: seq<byte>)
    requires PaddedWithin(piece, 512, text)
    ensures Said(piece) == if text == [] then [] else [text]
  {
    PaddingComesOff(Front(piece, 512), text);
  }

  lemma SaidNext(s: seq<byte>, b: byte)
    ensures Unended(s + [b]) == if EndsRemark(b) then [] else Unended(s) + [b]
    ensures Ended(s + [b]) == if EndsRemark(b) then Ended(s) + [Unended(s)] else Ended(s)
    ensures Endings(s + [b]) == if EndsRemark(b) then Endings(s) + [b] else Endings(s)
  {
    assert (s + [b])[..|s|] == s;
    assert Endings(s) + [] == Endings(s);
  }

  function Front(s: seq<byte>, n: nat): seq<byte> {
    if |s| <= n then s else s[..n]
  }

  /** A piece as a watcher is handed it. */
  function RemarkOf(piece: seq<byte>): Remark {
    Trim(Lossy(Front(piece, REMARK_LIMIT)))
  }

  /** The remarks one piece makes: one, or none when trimming leaves nothing of it. */
  function Said(piece: seq<byte>): seq<Remark> {
    if RemarkOf(piece) == [] then [] else [RemarkOf(piece)]
  }

  function RemarksOf(pieces: seq<seq<byte>>): seq<Remark>
    decreases |pieces|
  {
    if pieces == [] then [] else RemarksOf(pieces[..|pieces| - 1]) + Said(pieces[|pieces| - 1])
  }

  /** The remarks a stream ends, in order. */
  function Remarks(stream: seq<byte>): seq<Remark> {
    RemarksOf(Ended(stream))
  }

  /** Everything a stream says, in order: what follows the last ending is said too. */
  function AllSaid(stream: seq<byte>): seq<Remark> {
    RemarksOf(Ended(stream) + [Unended(stream)])
  }

  /** The remarks a stream ends are everything it says exactly when nothing is said after the last ending. */
  lemma AllIsEndedIff(stream: seq<byte>)
    ensures AllSaid(stream) == Remarks(stream) + Said(Unended(stream))
    ensures AllSaid(stream) == Remarks(stream) <==> Said(Unended(stream)) == []
  {
    var pieces := Ended(stream) + [Unended(stream)];
    assert pieces[..|pieces| - 1] == Ended(stream);
  }

  /** A stream with no ending in it ends no remark, whatever it says. */
  lemma {:induction false} NothingEndedNothingMade(stream: seq<byte>)
    requires NothingEnds(stream)
    ensures Remarks(stream) == [] && Unended(stream) == stream && AllSaid(stream) == Said(stream)
    decreases |stream|
  {
    EndlessIsUnended(stream);
    AllIsEndedIff(stream);
    assert [] + Said(stream) == Said(stream);
  }

  lemma {:induction false} EndlessIsUnended(stream: seq<byte>)
    requires NothingEnds(stream)
    ensures Ended(stream) == [] && Unended(stream) == stream
    decreases |stream|
  {
    if stream != [] {
      var front, last := stream[..|stream| - 1], stream[|stream| - 1];
      assert stream == front + [last] && last in stream;
      EndlessIsUnended(front);
    }
  }

  /** What is carried back of a stream: its first `limit` bytes, as text. */
  function Account(stream: seq<byte>, limit: nat): seq<byte> {
    Trim(Lossy(Front(stream, limit)))
  }

  /** As much of a stream as is kept is this text with white space around it. */
  ghost predicate PaddedWithin(stream: seq<byte>, limit: nat, text: seq<byte>) {
    if |stream| <= limit then Padded(stream, text) else Padded(stream[..limit], text)
  }

  lemma AccountIsTheText(stream: seq<byte>, limit: nat)
    ensures forall text :: PaddedWithin(stream, limit, text) ==> Account(stream, limit) == text
  {
    forall text | PaddedWithin(stream, limit, text) ensures Account(stream, limit) == text {
      PaddingComesOff(Front(stream, limit), text);
    }
  }

  /** What reading in these pieces chunks: a read of nothing is the end. */
  function Stream(chunks: seq<seq<byte>>): seq<byte> {
    if chunks == [] || chunks[0] == [] then [] else chunks[0] + Stream(chunks[1..])
  }

  // ---------------------------------------------------------------- the one remark nobody has read

  class Latest {
    var slot: Option<Remark>
    /** Everything ever made the latest, in order. */
    ghost var published: seq<Remark>

    /** What the slot holds, if anything, is what was published last. */
    ghost predicate Valid()
      reads this
    {
      slot.Some? ==> published != [] && slot.value == published[|published| - 1]
    }

    constructor ()
      ensures Valid() && slot == None && published == []
    {
      slot := None;
      published := [];
    }

    /** Makes `said` the latest remark, whether or not the one before it was read. */
    method Put(said: Remark)
      modifies this
      ensures Valid() && slot == Some(said) && published == old(published) + [said]
    {
      slot := Some(said);
      published := published + [said];
    }

    /** Empties the slot. */
    method TakeLatest() returns (taken: Option<Remark>)
      modifies this`slot
      ensures Valid() && taken == old(slot) && slot == None
    {
      taken := slot;
      slot := None;
    }
  }

  /** What the slot holds once these have been published, one after another. */
  function SlotAfter(slot: Option<Remark>, said: seq<Remark>): Option<Remark> {
    if said == [] then slot else Some(said[|said| - 1])
  }

  lemma SlotAfterBoth(slot: Option<Remark>, had: seq<Remark>, now: seq<Remark>, n: nat)
    requires n <= |had| && had <= now
    ensures SlotAfter(slot, now[n..]) == SlotAfter(SlotAfter(slot, had[n..]), now[|had|..])
  {
  }

  /** Publishes what `remark` says, over whatever nobody has read, and starts the next one. */
  method Publish(latest: Latest, remark: seq<byte>) returns (next: seq<byte>)
    requires latest.Valid() && |remark| <= REMARK_LIMIT
    modifies latest
    ensures latest.Valid() && next == []
    ensures latest.published == old(latest.published) + Said(remark)
    ensures latest.slot == SlotAfter(old(latest.slot), Said(remark))
    ensures forall text :: Padded(remark, text) ==>
              latest.slot == if text == [] then old(latest.slot) else Some(text)
  {
    var said := Trim(Lossy(remark));
    assert said == RemarkOf(remark);
    next := [];
    if said != [] {
      latest.Put(said);
    }
    forall text | Padded(remark, text) ensures said == text {
      PaddingComesOff(remark, text);
    }
  }

  lemma SaidOfFront(piece: seq<byte>)
    ensures Said(Front(piece, REMARK_LIMIT)) == Said(piece)
  {
    assert Front(Front(piece, REMARK_LIMIT), REMARK_LIMIT) == Front(piece, REMARK_LIMIT);
  }

  /** What one more byte adds to what a stream says. */
  lemma HeardNext(s: seq<byte>, b: byte)
    ensures Remarks(s + [b])
            == if EndsRemark(b) then Remarks(s) + Said(Front(Unended(s), REMARK_LIMIT)) else Remarks(s)
  {
    SaidNext(s, b);
    SaidOfFront(Unended(s));
    var pieces := Ended(s) + [Unended(s)];
    assert pieces[..|pieces| - 1] == Ended(s);
  }

  /** What one more byte adds to what a stream is in the middle of saying. */
  lemma BegunNext(s: seq<byte>, b: byte)
    ensures var next := Front(Unended(s), REMARK_LIMIT);
            Front(Unended(s + [b]), REMARK_LIMIT)
            == if EndsRemark(b) then [] else if |next| < REMARK_LIMIT then next + [b] else next
  {
    SaidNext(s, b);
  }

  /** A collector in the middle of a stream: the remark it has begun, and those it has made. */
  datatype Progress = Progress(begun: seq<byte>, said: seq<Remark>)

  function Advanced(p: Progress, b: byte): Progress {
    if EndsRemark(b) then Progress([], p.said + Said(p.begun))
    else if |p.begun| < REMARK_LIMIT then Progress(p.begun + [b], p.said)
    else p
  }

  function ProgressOf(s: seq<byte>): Progress
    decreases |s|
  {
    if s == [] then Progress([], []) else Advanced(ProgressOf(s[..|s| - 1]), s[|s| - 1])
  }

  lemma ProgressNext(s: seq<byte>, b: byte)
    ensures ProgressOf(s + [b]) == Advanced(ProgressOf(s), b)
  {
    assert (s + [b])[..|s|] == s;
  }

  function Made(s: seq<byte>): Progress {
    Progress(Front(Unended(s), REMARK_LIMIT), Remarks(s))
  }

  /** As far as every byte of it, a collector has made every remark the stream makes and begun the next. */
  ghost predicate MadeThroughout(s: seq<byte>)
    decreases |s|
  {
    ProgressOf(s) == Made(s) && (s == [] || MadeThroughout(s[..|s| - 1]))
  }

  lemma MadeNext(front: seq<byte>, b: byte)
    requires MadeThroughout(front)
    ensures MadeThroughout(front + [b])
  {
    assert (front + [b])[..|front|] == front;
    ProgressNext(front, b);
    HeardNext(front, b);
    BegunNext(front, b);
  }

  lemma {:induction false} ProgressIsRemarks(s: seq<byte>)
    ensures MadeThroughout(s)
    decreases |s|
  {
    if s != [] {
      var front, last := s[..|s| - 1], s[|s| - 1];
      assert s == front + [last];
      ProgressIsRemarks(front);
      MadeNext(front, last);
    }
  }

  /** Reads one chunk's bytes, publishing each remark they end after those the stream had already made. */
  method Watch(chunk: seq<byte>, ghost before: seq<byte>, ghost base: seq<Remark>, remark: seq<byte>, latest: Latest)
    returns (next: seq<byte>)
    requires latest.Valid() && remark == ProgressOf(before).begun && |remark| <= REMARK_LIMIT
    requires latest.published == base + ProgressOf(before).said
    modifies latest
    ensures latest.Valid() && next == ProgressOf(before + chunk).begun && |next| <= REMARK_LIMIT
    ensures latest.published == base + ProgressOf(before + chunk).said
    ensures old(latest.published) <= latest.published
    ensures latest.slot == SlotAfter(old(latest.slot), latest.published[|old(latest.published)|..])
  {
    next := remark;
    TakeAll(before, chunk);
    for i := 0 to |chunk|
      invariant latest.Valid() && |next| <= REMARK_LIMIT
      invariant next == ProgressOf(before + chunk[..i]).begun
      invariant latest.published == base + ProgressOf(before + chunk[..i]).said
      invariant old(latest.published) <= latest.published
      invariant latest.slot == SlotAfter(old(latest.slot), latest.published[|old(latest.published)|..])
    {
      ghost var had := latest.published;
      SlotAfterBoth(old(latest.slot), had, had + Said(next), |old(latest.published)|);
      assert (had + Said(next))[|had|..] == Said(next);
      ghost var so := before + chunk[..i];
      TakeNext(before, chunk, i);
      ProgressNext(so, chunk[i]);
      if chunk[i] == CR || chunk[i] == LF {
        Assoc(base, ProgressOf(so).said, Said(next));
        next := Publish(latest, next);
      } else if |next| < REMARK_LIMIT {
        next := next + [chunk[i]];
      }
    }
  }

  lemma FrontNext(before: seq<byte>, chunk: seq<byte>, limit: nat)
    ensures var written := Front(before, limit);
            var left := if |written| <= limit then limit - |written| else 0;
            var room := if left <= |chunk| then left else |chunk|;
            written + chunk[..room] == Front(before + chunk, limit)
  {
  }

  /** Reading the next chunk moves it from what is left of the stream to what has been read. */
  lemma StreamNext(before: seq<byte>, chunks: seq<seq<byte>>, i: nat)
    requires i < |chunks|
    ensures before + Stream(chunks[i..])
            == if chunks[i] == [] then before else (before + chunks[i]) + Stream(chunks[i + 1..])
  {
    assert chunks[i..][1..] == chunks[i + 1..];
  }

  /**
   Collects a watched run's account of itself. However the stream was cut into reads, what is kept
   is what an unwatched run keeps, and what is published is what the whole stream says.
   */
  method ReadDiagnosticsWatched(chunks: seq<seq<byte>>, limit: nat, latest: Latest) returns (account: seq<byte>)
    requires latest.Valid()
    modifies latest
    ensures latest.Valid()
    ensures account == Account(Stream(chunks), limit)
    ensures forall text :: PaddedWithin(Stream(chunks), limit, text) ==> account == text
    ensures latest.published == old(latest.published) + Remarks(Stream(chunks))
    ensures latest.slot == SlotAfter(old(latest.slot), Remarks(Stream(chunks)))
  {
    var written: seq<byte> := [];
    var remark: seq<byte> := [];
    ghost var before: seq<byte> := [];
    var i := 0;
    assert chunks[0..] == chunks;
    while i < |chunks|
      invariant i <= |chunks| && latest.Valid()
      invariant before + Stream(chunks[i..]) == Stream(chunks)
      invariant written == Front(before, limit)
      invariant remark == ProgressOf(before).begun && |remark| <= REMARK_LIMIT
      invariant latest.published == old(latest.published) + ProgressOf(before).said
      invariant latest.slot == SlotAfter(old(latest.slot), latest.published[|old(latest.published)|..])
    {
      var chunk := chunks[i];
      StreamNext(before, chunks, i);
      if |chunk| == 0 {
        break;
      }
      var left := if |written| <= limit then limit - |written| else 0;
      var room := if left <= |chunk| then left else |chunk|;
      FrontNext(before, chunk, limit);
      written := written + chunk[..room];
      ghost var had, n := latest.published, |old(latest.published)|;
      remark := Watch(chunk, before, old(latest.published), remark, latest);
      SlotAfterBoth(old(latest.slot), had, latest.published, n);
      before := before + chunk;
      i := i + 1;
    }
    assert before == Stream(chunks);
    ProgressIsRemarks(before);
    assert latest.published[|old(latest.published)|..] == Remarks(before);
    account := Trim(Lossy(written));
    AccountIsTheText(Stream(chunks), limit);
  }

  /** The unwatched collector: it stops reading once it has `limit` bytes. */
  method ReadDiagnostics(chunks: seq<seq<byte>>, limit: nat) returns (account: seq<byte>)
    ensures account == Account(Stream(chunks), limit)
    ensures forall text :: PaddedWithin(Stream(chunks), limit, text) ==> account == text
  {
    var written: seq<byte> := [];
    var i := 0;
    ghost var before: seq<byte> := [];
    assert chunks[0..] == chunks;
    while i < |chunks| && |written| < limit
      invariant i <= |chunks|
      invariant before + Stream(chunks[i..]) == Stream(chunks)
      invariant written == Front(before, limit)
    {
      var chunk := chunks[i];
      StreamNext(before, chunks, i);
      if |chunk| == 0 {
        break;
      }
      var room := if limit - |written| <= |chunk| then limit - |written| else |chunk|;
      FrontNext(before, chunk, limit);
      written := written + chunk[..room];
      before := before + chunk;
      i := i + 1;
    }
    assert written == Front(Stream(chunks), limit);
    account := Trim(Lossy(written));
    AccountIsTheText(Stream(chunks), limit);
  }
}
