/** The end of a failing check's log: so many bytes of it as text, from a line boundary. */
module LogTail {
  import opened Bytes
  import opened Utf8

  function BoundaryFrom(text: seq<byte>, i: nat): (from: nat)
    requires i <= |text|
    ensures i <= from <= |text| && (from == |text| || !IsContinuation(text[from]))
    ensures forall k | i <= k < from :: IsContinuation(text[k])
    decreases |text| - i
  {
    if i < |text| && IsContinuation(text[i]) then BoundaryFrom(text, i + 1) else i
  }

  /** Past the first line ending from there on, or there when no line ends. */
  function PastLine(text: seq<byte>, from: nat): (at: nat)
    requires from <= |text|
    ensures from <= at <= |text|
    ensures if LF in text[from..] then from < at && text[at - 1] == LF && LF !in text[from..at - 1] else at == from
  {
    if LF in text[from..] then
      var newline := IndexOf(text[from..], LF);
      assert text[from..][..newline] == text[from..from + newline];
      from + newline + 1
    else from
  }

  /** Where in the text what is handed over begins. */
  function StartOfTail(text: seq<byte>, limit: nat): (at: nat)
    ensures at <= |text|
  {
    if |text| <= limit then 0
    else PastLine(text, BoundaryFrom(text, |text| - limit))
  }

  function TailOf(text: seq<byte>, limit: nat): seq<byte> {
    text[StartOfTail(text, limit)..]
  }

  function WithoutFirstLine(kept: seq<byte>): seq<byte> {
    if LF in kept then kept[IndexOf(kept, LF) + 1..] else kept
  }

  method Tail(output: seq<byte>, limit: nat) returns (kept: seq<byte>)
    ensures kept == TailOf(Lossy(output), limit)
  {
    var text := Lossy(output);
    if |text| <= limit {
      return text;
    }
    var from := |text| - limit;
    while from < |text| && IsContinuation(text[from])
      invariant |text| - limit <= from <= |text|
      invariant BoundaryFrom(text, |text| - limit) == BoundaryFrom(text, from)
      decreases |text| - from
    {
      from := from + 1;
    }
    kept := WithoutFirstLine(text[from..]);
    KeptPastLine(text, from);
  }

  lemma KeptPastLine(text: seq<byte>, from: nat)
    requires from <= |text|
    ensures text[PastLine(text, from)..] == WithoutFirstLine(text[from..])
  {
    if LF in text[from..] {
      CutTwice(text, from, from + IndexOf(text[from..], LF) + 1);
    }
  }

  predicate StartsLine(text: seq<byte>, at: nat)
    requires at <= |text|
  {
    at == 0 || text[at - 1] == LF
  }

  /** Of any output, what is handed over is text and fits. */
  lemma TailIsText(output: seq<byte>, limit: nat)
    ensures Valid(TailOf(Lossy(output), limit)) && |TailOf(Lossy(output), limit)| <= limit
  {
    LossyIsValid(output);
    TailIsTheEnd(Lossy(output), limit);
  }

  /** Of text, what is handed over is its very end, byte for byte. */
  lemma TailIsTheEnd(text: seq<byte>, limit: nat)
    requires Valid(text)
    ensures Valid(TailOf(text, limit)) && |TailOf(text, limit)| <= limit
    ensures exists at :: 0 <= at <= |text| && TailOf(text, limit) == text[at..]
  {
    StartsAtBoundary(text, limit);
    CutAtBoundary(text, StartOfTail(text, limit));
  }

  lemma StartsAtBoundary(text: seq<byte>, limit: nat)
    requires Valid(text)
    ensures IsBoundary(text, StartOfTail(text, limit)) && |text| - StartOfTail(text, limit) <= limit
  {
    if |text| > limit {
      var from := BoundaryFrom(text, |text| - limit);
      if PastLine(text, from) > from {
        AfterAscii(text, PastLine(text, from));
      }
    }
  }

  /** A log that fits is handed over whole. */
  lemma WhatFitsIsWhole(text: seq<byte>, limit: nat)
    ensures |text| <= limit ==> TailOf(text, limit) == text
  {
  }

  /**
   What is handed over of a log that does not fit: from the first line to begin after a character begins
   in its last bytes, or from that character on when no line ends there.
   */
  lemma TailBegins(text: seq<byte>, limit: nat, from: nat)
    requires 0 < |text| - limit <= from <= |text|
    requires from == |text| || !IsContinuation(text[from])
    requires forall k | |text| - limit <= k < from :: IsContinuation(text[k])
    ensures 10 !in text[from..] ==> TailOf(text, limit) == text[from..]
    ensures forall p | from <= p < |text| && text[p] == 10 && 10 !in text[from..p] ::
              TailOf(text, limit) == text[p + 1..]
  {
    assert BoundaryFrom(text, |text| - limit) == from;
    forall p | from <= p < |text| && text[p] == 10 && 10 !in text[from..p]
      ensures TailOf(text, limit) == text[p + 1..]
    {
      assert text[from..][p - from] == 10;
      FirstLineEnd(text, from, p);
    }
  }

  lemma FirstLineEnd(text: seq<byte>, from: nat, p: nat)
    requires from <= p < |text| && text[p] == LF && LF !in text[from..p]
    ensures PastLine(text, from) == p + 1
  {
    assert text[from..][p - from] == LF;
  }

  /** Whatever follows a line's end among the last bytes there is room for is kept. */
  lemma EveryLaterLineIsKept(text: seq<byte>, limit: nat, p: nat)
    requires |text| > limit && |text| - limit <= p < |text| && text[p] == LF
    ensures StartOfTail(text, limit) <= p + 1
  {
    var from := BoundaryFrom(text, |text| - limit);
    assert p >= from && text[from..][p - from] == LF;
  }

  /** In text, a character begins after every ASCII byte. */
  lemma {:induction false} AfterAscii(text: seq<byte>, i: nat)
    requires Valid(text) && 0 < i <= |text| && IsAscii(text[i - 1])
    ensures IsBoundary(text, i)
  {
    var n := ScanChar(text).used;
    if i == n && n < |text| {
      assert ScanChar(text[n..]).whole;
    } else if i > n {
      AfterAscii(text[n..], i - n);
    }
  }

  /**
   What is handed over begins a line exactly when the log fits, or a line ends among the last bytes
   of it, one more of them than the limit. Otherwise it begins inside the one line there is room for.
   */
  lemma WholeLinesIff(output: seq<byte>, limit: nat)
    ensures var text := Lossy(output);
            StartsLine(text, StartOfTail(text, limit))
            <==> |text| <= limit || LF in text[|text| - limit - 1..]
  {
    LossyIsValid(output);
    if |Lossy(output)| > limit {
      CutStartsLineIff(Lossy(output), |Lossy(output)| - limit, limit);
    }
  }

  lemma CutStartsLineIff(text: seq<byte>, first: nat, limit: nat)
    requires Valid(text) && 0 < first == |text| - limit
    ensures StartsLine(text, StartOfTail(text, limit)) <==> LF in text[first - 1..]
  {
    if text[first - 1] == LF {
      AfterAscii(text, first);
    }
    LineEndsSince(text, first, BoundaryFrom(text, first));
  }

  lemma LineEndsSince(text: seq<byte>, first: nat, from: nat)
    requires 0 < first <= from <= |text|
    requires (forall k | first <= k < from :: text[k] != LF) && (text[first - 1] == LF ==> from == first)
    ensures StartsLine(text, PastLine(text, from)) <==> LF in text[first - 1..]
  {
    assert text[first - 1..] == text[first - 1..from] + text[from..];
    if text[first - 1] == LF {
      assert text[first - 1..][0] == LF;
    } else {
      assert LF !in text[first - 1..from];
    }
  }
}
