/**
 UTF-8 as the adapters meet it (section 3 of RFC 3629): which byte strings are text, and what
 reading bytes as text lossily makes of the ones that are not.
 */
module Utf8 {
  import opened Bytes

  /** U+FFFD, which stands in for what could not be decoded. */
  const REPLACEMENT: seq<byte> := [0xEF, 0xBF, 0xBD]

  /** How far decoding one character got: all of it, or the bytes consumed before it broke off. */
  datatype Scan = Scan(whole: bool, used: nat)

  predicate IsAscii(b: byte) { b < 0x80 }

  predicate IsContinuation(b: byte) { 0x80 <= b <= 0xBF }

  predicate ContinuesAt(s: seq<byte>, i: nat) {
    i < |s| && IsContinuation(s[i])
  }

  /** The second byte a three- or four-byte character may have, which rules out overlong forms and surrogates. */
  predicate SecondByte(lead: byte, b: byte) {
    if lead == 0xE0 then 0xA0 <= b <= 0xBF
    else if lead == 0xED then 0x80 <= b <= 0x9F
    else if lead == 0xF0 then 0x90 <= b <= 0xBF
    else if lead == 0xF4 then 0x80 <= b <= 0x8F
    else IsContinuation(b)
  }

  function ScanChar(s: seq<byte>): (r: Scan)
    requires s != []
    ensures 1 <= r.used <= |s|
    ensures r.used <= 4
    ensures forall i | 1 <= i < r.used :: IsContinuation(s[i])
    ensures IsAscii(s[0]) ==> r == Scan(true, 1)
    ensures r.whole && r.used == 1 ==> IsAscii(s[0])
  {
    var lead := s[0];
    if lead < 0x80 then Scan(true, 1)
    else if 0xC2 <= lead <= 0xDF then
      if ContinuesAt(s, 1) then Scan(true, 2) else Scan(false, 1)
    else if 0xE0 <= lead <= 0xEF then
      if !(1 < |s| && SecondByte(lead, s[1])) then Scan(false, 1)
      else if !ContinuesAt(s, 2) then Scan(false, 2)
      else Scan(true, 3)
    else if 0xF0 <= lead <= 0xF4 then
      if !(1 < |s| && SecondByte(lead, s[1])) then Scan(false, 1)
      else if !ContinuesAt(s, 2) then Scan(false, 2)
      else if !ContinuesAt(s, 3) then Scan(false, 3)
      else Scan(true, 4)
    else Scan(false, 1)
  }

  predicate Valid(s: seq<byte>) {
    s == [] || (ScanChar(s).whole && Valid(s[ScanChar(s).used..]))
  }

  /** Bytes as text, each undecodable stretch replaced. */
  function Lossy(s: seq<byte>): seq<byte> {
    if s == [] then []
    else
      var c := ScanChar(s);
      (if c.whole then s[..c.used] else REPLACEMENT) + Lossy(s[c.used..])
  }

  /** A whole character is recognised whatever follows it. */
  lemma ScanWhole(s: seq<byte>, rest: seq<byte>)
    requires s != [] && ScanChar(s).whole
    ensures ScanChar(s[..ScanChar(s).used] + rest) == ScanChar(s)
  {
    var c := s[..ScanChar(s).used];
    assert forall i | 0 <= i < |c| :: (c + rest)[i] == s[i];
  }

  predicate IsChar(c: seq<byte>) {
    c != [] && ScanChar(c) == Scan(true, |c|)
  }

  lemma ValidCons(c: seq<byte>, rest: seq<byte>)
    requires IsChar(c)
    ensures Valid(c + rest) <==> Valid(rest)
    ensures Lossy(c + rest) == c + Lossy(rest)
  {
    assert c[..|c|] == c;
    ScanWhole(c, rest);
    CutAppend(c, rest);
  }

  lemma FirstChar(s: seq<byte>)
    requires s != [] && ScanChar(s).whole
    ensures IsChar(s[..ScanChar(s).used])
    ensures s == s[..ScanChar(s).used] + s[ScanChar(s).used..]
  {
    ScanWhole(s, []);
    assert s[..ScanChar(s).used] + [] == s[..ScanChar(s).used];
  }

  lemma {:induction false} ValidAppend(a: seq<byte>, b: seq<byte>)
    requires Valid(a) && Valid(b)
    ensures Valid(a + b)
  {
    if a == [] {
      assert a + b == b;
    } else {
      var n := ScanChar(a).used;
      FirstChar(a);
      ValidAppend(a[n..], b);
      Assoc(a[..n], a[n..], b);
      ValidCons(a[..n], a[n..] + b);
    }
  }

  /** What lossy reading produces is always text. */
  lemma {:induction false} LossyIsValid(s: seq<byte>)
    ensures Valid(Lossy(s))
  {
    if s != [] {
      var c := ScanChar(s);
      LossyIsValid(s[c.used..]);
      if c.whole {
        FirstChar(s);
        ValidCons(s[..c.used], Lossy(s[c.used..]));
      } else {
        assert IsChar(REPLACEMENT);
        ValidCons(REPLACEMENT, Lossy(s[c.used..]));
      }
    }
  }

  lemma {:induction false} ValidIsKept(s: seq<byte>)
    requires Valid(s)
    ensures Lossy(s) == s
  {
    if s != [] {
      var n := ScanChar(s).used;
      ValidIsKept(s[n..]);
      FirstChar(s);
    }
  }

  /** Reading as text loses nothing exactly when the bytes were text. */
  lemma KeptIffValid(s: seq<byte>)
    ensures Lossy(s) == s <==> Valid(s)
  {
    LossyIsValid(s);
    if Valid(s) {
      ValidIsKept(s);
    }
  }

  lemma LossyTwice(s: seq<byte>)
    ensures Lossy(Lossy(s)) == Lossy(s)
  {
    LossyIsValid(s);
    ValidIsKept(Lossy(s));
  }

  /** Decoding never reaches across an ASCII byte, so it never reaches past a string that ends in one. */
  lemma ScanStopsAtAscii(a: seq<byte>, b: seq<byte>)
    requires a != [] && IsAscii(a[|a| - 1])
    ensures ScanChar(a + b) == ScanChar(a)
  {
    var s := a + b;
    assert forall i | 0 <= i < |a| :: s[i] == a[i];
    assert !IsContinuation(s[|a| - 1]);
  }

  /** Lossy reading distributes over a boundary that follows an ASCII byte. */
  lemma {:induction false} LossyAfterAscii(a: seq<byte>, b: seq<byte>)
    requires a == [] || IsAscii(a[|a| - 1])
    ensures Lossy(a + b) == Lossy(a) + Lossy(b)
    ensures Valid(a + b) <==> Valid(a) && Valid(b)
  {
    if a == [] {
      assert a + b == b;
    } else {
      ScanStopsAtAscii(a, b);
      var n := ScanChar(a).used;
      assert (a + b)[n..] == a[n..] + b;
      assert (a + b)[..n] == a[..n];
      LossyAfterAscii(a[n..], b);
      Assoc(if ScanChar(a).whole then a[..n] else REPLACEMENT, Lossy(a[n..]), Lossy(b));
    }
  }

  lemma {:induction false} AsciiIsValid(s: seq<byte>)
    requires forall b <- s :: IsAscii(b)
    ensures Valid(s) && Lossy(s) == s
  {
    if s != [] {
      assert s[0] in s;
      AsciiIsValid(s[1..]);
    }
    ValidIsKept(s);
  }

  /** An ASCII prefix survives lossy reading, and lossy reading never makes one up. */
  lemma {:induction false} AsciiPrefix(p: seq<byte>, s: seq<byte>)
    requires forall b <- p :: IsAscii(b)
    ensures p <= Lossy(s) <==> p <= s
  {
    if p != [] {
      assert p[0] in p;
      if s != [] {
        var c := ScanChar(s);
        if c.whole {
          assert Lossy(s)[0] == s[0];
        } else {
          assert Lossy(s)[0] == 0xEF;
        }
        if s[0] == p[0] {
          assert Lossy(s) == [s[0]] + Lossy(s[1..]);
          assert Lossy(s)[1..] == Lossy(s[1..]);
          AsciiPrefix(p[1..], s[1..]);
          assert p <= s <==> p[1..] <= s[1..] by { PrefixTail(p, s); }
          assert p <= Lossy(s) <==> p[1..] <= Lossy(s)[1..] by { PrefixTail(p, Lossy(s)); }
        }
      }
    }
  }

  lemma PrefixTail(p: seq<byte>, s: seq<byte>)
    requires p != [] && s != [] && p[0] == s[0]
    ensures p <= s <==> p[1..] <= s[1..]
  {
    if p[1..] <= s[1..] {
      assert forall i | 1 <= i < |p| :: p[i] == p[1..][i - 1] && s[i] == s[1..][i - 1];
    }
    if p <= s {
      assert s[1..][..|p| - 1] == s[..|p|][1..] == p[1..];
    }
  }

  lemma {:induction false} LossyInventsNoAscii(s: seq<byte>, b: byte)
    requires IsAscii(b) && b !in s
    ensures b !in Lossy(s)
  {
    if s != [] {
      var n := ScanChar(s).used;
      LossyInventsNoAscii(s[n..], b);
    }
  }

  /** A line is still one line once it is read as text. */
  lemma LossyLine(l: seq<byte>)
    requires IsLine(l)
    ensures IsLine(Lossy(l))
    ensures EndsLine(Lossy(l)) <==> EndsLine(l)
  {
    var body := l[..|l| - 1];
    if EndsLine(l) {
      assert l == body + [LF];
      LossyBeforeAscii(body, LF);
      LossyInventsNoAscii(body, LF);
      assert Lossy(l)[..|Lossy(l)| - 1] == Lossy(body);
    } else {
      assert LF !in l by {
        forall i | 0 <= i < |l| ensures l[i] != LF {
          if i < |l| - 1 { assert l[i] == body[i]; }
        }
      }
      LossyInventsNoAscii(l, LF);
      LossyNonEmpty(l);
    }
  }

  lemma LossyNonEmpty(s: seq<byte>)
    requires s != []
    ensures Lossy(s) != []
  {
  }

  lemma {:induction false} LossyBeforeAscii(s: seq<byte>, b: byte)
    requires IsAscii(b)
    ensures Lossy(s + [b]) == Lossy(s) + [b]
  {
    if s == [] {
      assert s + [b] == [b];
      assert [b][1..] == [];
      assert Lossy([b]) == [b] + Lossy([]);
    } else {
      var t := s + [b];
      var c := ScanChar(s);
      assert ScanChar(t) == c by { ScanBeforeAscii(s, b); }
      assert t[c.used..] == s[c.used..] + [b];
      assert t[..c.used] == s[..c.used];
      LossyBeforeAscii(s[c.used..], b);
    }
  }

  lemma ScanBeforeAscii(s: seq<byte>, b: byte)
    requires s != [] && IsAscii(b)
    ensures ScanChar(s + [b]) == ScanChar(s)
  {
    var t := s + [b];
    assert forall i | 0 <= i < |s| :: t[i] == s[i];
    assert t[|s|] == b;
    assert ContinuesAt(t, 1) == ContinuesAt(s, 1);
    assert ContinuesAt(t, 2) == ContinuesAt(s, 2);
    assert ContinuesAt(t, 3) == ContinuesAt(s, 3);
  }

  /** Where text may be cut without going through a character. */
  predicate IsBoundary(s: seq<byte>, i: nat) {
    i == 0 || i == |s| || (i < |s| && !IsContinuation(s[i]))
  }

  lemma {:induction false} CutAtBoundary(s: seq<byte>, i: nat)
    requires Valid(s) && i <= |s| && IsBoundary(s, i)
    ensures Valid(s[..i]) && Valid(s[i..])
  {
    if i == 0 {
      assert s[i..] == s;
    } else {
      var n := ScanChar(s).used;
      FirstChar(s);
      CharBeforeBoundary(s, i);
      CutTwice(s, n, i);
      CutAtBoundary(s[n..], i - n);
      ValidCons(s[..n], s[n..][..i - n]);
    }
  }

  lemma CharBeforeBoundary(s: seq<byte>, i: nat)
    requires 0 < i <= |s| && IsBoundary(s, i)
    ensures ScanChar(s).used <= i
    ensures IsBoundary(s[ScanChar(s).used..], i - ScanChar(s).used)
  {
  }

  // ---------------------------------------------------------------- the characters there are

  /** The numbers characters have: all up to 0x10FFFF but the surrogates. */
  predicate IsScalar(n: nat) {
    n < 0xD800 || 0xE000 <= n < 0x11_0000
  }

  /** A character's number in the table of section 3 of RFC 3629: six bits to a byte after the first. */
  function Encode(n: nat): seq<byte>
    requires IsScalar(n)
  {
    if n < 0x80 then [n as byte]
    else if n < 0x800 then [(0xC0 + n / 0x40) as byte, Six(n)]
    else if n < 0x1_0000 then [(0xE0 + n / 0x1000) as byte, Six(n / 0x40), Six(n)]
    else [(0xF0 + n / 0x4_0000) as byte, Six(n / 0x1000), Six(n / 0x40), Six(n)]
  }

  function Six(n: nat): byte {
    (0x80 + n % 0x40) as byte
  }

  lemma SixParts(n: nat, high: nat, low: nat)
    requires n == high * 0x40 + low && low < 0x40
    ensures n / 0x40 == high && Six(n) as nat == 0x80 + low
  {
  }

  /** Every number a character may have is encoded as one character. */
  lemma ScalarIsChar(n: nat)
    requires IsScalar(n)
    ensures IsChar(Encode(n))
  {
    var a, b := n / 0x40, n / 0x1000;
    assert a / 0x40 == b;
    assert b / 0x40 == n / 0x4_0000;
  }

  /** Every character is the encoding of such a number. */
  lemma CharIsScalar(c: seq<byte>) returns (n: nat)
    requires IsChar(c)
    ensures IsScalar(n) && c == Encode(n)
  {
    if |c| == 1 {
      n := c[0] as nat;
    } else {
      var last := c[|c| - 1] as nat - 0x80;
      if |c| == 2 {
        n := (c[0] as nat - 0xC0) * 0x40 + last;
        SixParts(n, c[0] as nat - 0xC0, last);
      } else if |c| == 3 {
        var high := (c[0] as nat - 0xE0) * 0x40 + (c[1] as nat - 0x80);
        n := high * 0x40 + last;
        SixParts(n, high, last);
        SixParts(high, c[0] as nat - 0xE0, c[1] as nat - 0x80);
        assert n / 0x1000 == n / 0x40 / 0x40;
      } else {
        var top := (c[0] as nat - 0xF0) * 0x40 + (c[1] as nat - 0x80);
        var high := top * 0x40 + (c[2] as nat - 0x80);
        n := high * 0x40 + last;
        SixParts(n, high, last);
        SixParts(high, top, c[2] as nat - 0x80);
        SixParts(top, c[0] as nat - 0xF0, c[1] as nat - 0x80);
        assert n / 0x1000 == n / 0x40 / 0x40 && n / 0x4_0000 == n / 0x1000 / 0x40;
      }
    }
  }

  /** Bytes a character begins with, and does not end with. */
  ghost predicate IsFront(p: seq<byte>) {
    exists c :: IsChar(c) && p < c
  }

  /** Decoding breaks off after the longest front of a character there is, or after one byte when there is none. */
  lemma BrokenIsMaximal(s: seq<byte>)
    requires s != [] && !ScanChar(s).whole
    ensures var n := ScanChar(s).used;
            && (n > 1 ==> IsFront(s[..n]))
            && (n < |s| ==> !IsFront(s[..n + 1]) && !IsChar(s[..n + 1]))
  {
    var n := ScanChar(s).used;
    if n > 1 {
      var c := Completed(s[..n]);
      assert IsChar(c) && s[..n] < c;
    }
    if n < |s| {
      assert forall c | IsChar(c) && s[..n + 1] <= c :: c[0] == s[0] && (n >= 1 ==> c[1] == s[1]);
    }
  }

  /** The front of a three- or four-byte character with the rest of one after it. */
  function Completed(p: seq<byte>): (c: seq<byte>)
    requires 2 <= |p| <= 3
  {
    if p[0] < 0xF0 then p[..2] + [0x80] else if |p| == 2 then p + [0x80, 0x80] else p + [0x80]
  }

  // ---------------------------------------------------------------- white space

  /** The encodings of the characters with the Unicode property White_Space. */
  predicate IsSpaceChar(c: seq<byte>) {
    || (|c| == 1 && (9 <= c[0] <= 13 || c[0] == 32))
    || c == [0xC2, 0x85]
    || c == [0xC2, 0xA0]
    || c == [0xE1, 0x9A, 0x80]
    || (|c| == 3 && c[..2] == [0xE2, 0x80] && (0x80 <= c[2] <= 0x8A || c[2] == 0xA8 || c[2] == 0xA9 || c[2] == 0xAF))
    || c == [0xE2, 0x81, 0x9F]
    || c == [0xE3, 0x80, 0x80]
  }

  /** How many bytes of white space `s` ends with one character of; 0 for none. */
  function SpaceAtEnd(s: seq<byte>): (n: nat)
    ensures n <= |s|
  {
    if |s| >= 1 && IsSpaceChar(s[|s| - 1..]) then 1
    else if |s| >= 2 && IsSpaceChar(s[|s| - 2..]) then 2
    else if |s| >= 3 && IsSpaceChar(s[|s| - 3..]) then 3
    else 0
  }

  function SpaceAtStart(s: seq<byte>): (n: nat)
    ensures n <= |s|
  {
    if |s| >= 1 && IsSpaceChar(s[..1]) then 1
    else if |s| >= 2 && IsSpaceChar(s[..2]) then 2
    else if |s| >= 3 && IsSpaceChar(s[..3]) then 3
    else 0
  }

  function TrimEnd(s: seq<byte>): (t: seq<byte>)
    ensures t <= s
    ensures SpaceAtEnd(t) == 0
    decreases |s|
  {
    if SpaceAtEnd(s) == 0 then s else TrimEnd(s[..|s| - SpaceAtEnd(s)])
  }

  function TrimStart(s: seq<byte>): (t: seq<byte>)
    ensures |t| <= |s| && SpaceAtStart(t) == 0
    decreases |s|
  {
    if SpaceAtStart(s) == 0 then s else TrimStart(s[SpaceAtStart(s)..])
  }

  function Trim(s: seq<byte>): seq<byte> {
    TrimStart(TrimEnd(s))
  }

  predicate BeginsWithSpace(s: seq<byte>) {
    exists n :: 0 < n <= |s| && IsSpaceChar(s[..n])
  }

  predicate EndsWithSpace(s: seq<byte>) {
    exists n :: 0 <= n < |s| && IsSpaceChar(s[n..])
  }

  predicate AllSpaces(chars: seq<seq<byte>>) {
    forall c <- chars :: IsSpaceChar(c)
  }

  lemma SpaceIsShort(c: seq<byte>)
    requires IsSpaceChar(c)
    ensures 1 <= |c| <= 3
    ensures forall i | 1 <= i < |c| :: IsContinuation(c[i])
    ensures |c| > 1 ==> c[0] >= 0xC2
  {
  }

  lemma NoSpaceAtEnd(s: seq<byte>)
    ensures SpaceAtEnd(s) == 0 <==> !EndsWithSpace(s)
  {
    var k := SpaceAtEnd(s);
    if k > 0 {
      assert IsSpaceChar(s[|s| - k..]);
    }
    if EndsWithSpace(s) {
      var n :| 0 <= n < |s| && IsSpaceChar(s[n..]);
      SpaceIsShort(s[n..]);
      assert s[|s| - (|s| - n)..] == s[n..];
    }
  }

  lemma NoSpaceAtStart(s: seq<byte>)
    ensures SpaceAtStart(s) == 0 <==> !BeginsWithSpace(s)
  {
    var k := SpaceAtStart(s);
    if k > 0 {
      assert IsSpaceChar(s[..k]);
    }
    if BeginsWithSpace(s) {
      var n :| 0 < n <= |s| && IsSpaceChar(s[..n]);
      SpaceIsShort(s[..n]);
    }
  }

  lemma TrimmedEnds(s: seq<byte>)
    ensures !EndsWithSpace(TrimEnd(s)) && !BeginsWithSpace(TrimStart(s))
  {
    NoSpaceAtEnd(TrimEnd(s));
    NoSpaceAtStart(TrimStart(s));
  }

  lemma Halves(s: seq<byte>, n: nat)
    requires n <= |s|
    ensures s == s[..n] + s[n..]
  {
  }

  lemma TrimEndStep(s: seq<byte>) returns (front: seq<byte>, c: seq<byte>)
    requires SpaceAtEnd(s) > 0
    ensures s == front + c && IsSpaceChar(c) && |front| < |s| && TrimEnd(s) == TrimEnd(front)
  {
    front, c := s[..|s| - SpaceAtEnd(s)], s[|s| - SpaceAtEnd(s)..];
    Halves(s, |front|);
  }

  /** What trimming takes off an end is whole white space characters. */
  lemma {:induction false} TrimEndTakesSpace(s: seq<byte>) returns (taken: seq<seq<byte>>)
    ensures s == TrimEnd(s) + Concat(taken) && AllSpaces(taken)
    decreases |s|
  {
    if SpaceAtEnd(s) == 0 {
      taken := [];
      assert s + Concat(taken) == s;
    } else {
      var front, c := TrimEndStep(s);
      var before := TrimEndTakesSpace(front);
      taken := before + [c];
      ConcatSnoc(before, c);
      Assoc(TrimEnd(front), Concat(before), c);
    }
  }

  lemma {:induction false} TrimStartTakesSpace(s: seq<byte>) returns (taken: seq<seq<byte>>)
    ensures s == Concat(taken) + TrimStart(s) && AllSpaces(taken)
    decreases |s|
  {
    var n := SpaceAtStart(s);
    if n == 0 {
      taken := [];
    } else {
      Halves(s, n);
      var after := TrimStartTakesSpace(s[n..]);
      taken := [s[..n]] + after;
      ConcatCons(s[..n], after);
      Assoc(s[..n], Concat(after), TrimStart(s));
    }
  }

  /** Text that neither begins nor ends with white space, which may be none at all. */
  predicate Plain(text: seq<byte>) {
    Valid(text) && !BeginsWithSpace(text) && !EndsWithSpace(text)
  }

  /** A white space character at the end is found whole, and nothing before it taken for part of it. */
  lemma SpaceFoundAtEnd(s: seq<byte>, c: seq<byte>)
    requires IsSpaceChar(c)
    ensures SpaceAtEnd(s + c) == |c|
  {
    var t := s + c;
    SpaceIsShort(c);
    assert t[|t| - |c|..] == c;
    if |c| > 1 {
      assert t[|t| - 1..] == [c[|c| - 1]];
    }
    if |c| > 2 {
      assert t[|t| - 2..] == [c[1], c[2]];
    }
  }

  lemma SpaceFoundAtStart(c: seq<byte>, s: seq<byte>)
    requires IsSpaceChar(c)
    ensures SpaceAtStart(c + s) == |c|
  {
    var t := c + s;
    SpaceIsShort(c);
    assert t[..|c|] == c;
    if |c| > 1 {
      assert t[..1] == [c[0]];
    }
    if |c| > 2 {
      assert t[..2] == [c[0], c[1]];
    }
  }

  lemma TrimEndOne(s: seq<byte>, c: seq<byte>)
    requires IsSpaceChar(c)
    ensures TrimEnd(s + c) == TrimEnd(s)
  {
    SpaceFoundAtEnd(s, c);
    CutAppend(s, c);
  }

  lemma {:induction false} TrimEndDrops(s: seq<byte>, tail: seq<seq<byte>>)
    requires AllSpaces(tail)
    ensures TrimEnd(s + Concat(tail)) == TrimEnd(s)
    decreases |tail|
  {
    if tail == [] {
      assert s + Concat(tail) == s;
    } else {
      var front, c := tail[..|tail| - 1], tail[|tail| - 1];
      assert tail == front + [c] && c in tail;
      ConcatSnoc(front, c);
      Assoc(s, Concat(front), c);
      TrimEndOne(s + Concat(front), c);
      TrimEndDrops(s, front);
    }
  }

  lemma {:induction false} TrimStartDrops(lead: seq<seq<byte>>, s: seq<byte>)
    requires AllSpaces(lead)
    ensures TrimStart(Concat(lead) + s) == TrimStart(s)
  {
    if lead == [] {
      assert Concat(lead) + s == s;
    } else {
      var c, rest := lead[0], lead[1..];
      assert c in lead;
      Assoc(c, Concat(rest), s);
      SpaceFoundAtStart(c, Concat(rest) + s);
      CutAppend(c, Concat(rest) + s);
      TrimStartDrops(rest, s);
    }
  }

  /** Text begins with a character, so no white space character reaches into it from before. */
  lemma TextEndsItself(before: seq<byte>, text: seq<byte>)
    requires Valid(text) && text != [] && !EndsWithSpace(text)
    ensures SpaceAtEnd(before + text) == 0
  {
    var t := before + text;
    BeginsWithALead(text);
    NoSpaceAtEnd(t);
    forall n | 0 <= n < |t| ensures !IsSpaceChar(t[n..]) {
      var c := t[n..];
      if |before| <= n {
        assert c == text[n - |before|..];
      } else {
        assert c[|before| - n] == text[0];
        if IsSpaceChar(c) {
          SpaceIsShort(c);
        }
      }
    }
  }

  lemma BeginsWithALead(text: seq<byte>)
    requires Valid(text) && text != []
    ensures !IsContinuation(text[0])
  {
  }

  /** Trimming gives plain text back from whatever white space is put around it. */
  lemma TrimGivesBack(lead: seq<seq<byte>>, text: seq<byte>, tail: seq<seq<byte>>)
    requires Plain(text) && AllSpaces(lead) && AllSpaces(tail)
    ensures Trim(Concat(lead) + text + Concat(tail)) == text
  {
    var front := Concat(lead) + text;
    TrimEndDrops(front, tail);
    if text == [] {
      assert front == [] + Concat(lead);
      TrimEndDrops([], lead);
      assert TrimEnd([]) == [] && TrimStart([]) == [];
    } else {
      TextEndsItself(Concat(lead), text);
      TrimStartDrops(lead, text);
      NoSpaceAtStart(text);
    }
  }

  /** Plain text with white space around it. */
  ghost predicate Padded(s: seq<byte>, text: seq<byte>) {
    Plain(text)
    && exists lead, tail :: AllSpaces(lead) && AllSpaces(tail) && s == Concat(lead) + text + Concat(tail)
  }

  lemma {:induction false} SpacesAreText(chars: seq<seq<byte>>)
    requires AllSpaces(chars)
    ensures Valid(Concat(chars))
  {
    if chars != [] {
      assert chars[0] in chars;
      SpaceIsChar(chars[0]);
      SpacesAreText(chars[1..]);
      ValidCons(chars[0], Concat(chars[1..]));
    }
  }

  lemma SpaceIsChar(c: seq<byte>)
    requires IsSpaceChar(c)
    ensures IsChar(c)
  {
  }

  /** Read as text and trimmed, padded text is what was padded. */
  lemma PaddingComesOff(s: seq<byte>, text: seq<byte>)
    requires Padded(s, text)
    ensures Trim(Lossy(s)) == text
  {
    var lead, tail :| AllSpaces(lead) && AllSpaces(tail) && s == Concat(lead) + text + Concat(tail);
    SpacesAreText(lead);
    SpacesAreText(tail);
    ValidAppend(Concat(lead), text);
    ValidAppend(Concat(lead) + text, Concat(tail));
    ValidIsKept(s);
    TrimGivesBack(lead, text, tail);
  }

  /** Plain text on a line of its own. */
  lemma LineIsPadded(text: seq<byte>)
    requires Plain(text)
    ensures Padded(text + [LF], text) && Padded(text, text)
  {
    var none: seq<seq<byte>>, one: seq<seq<byte>> := [], [[LF]];
    assert Concat(one) == [LF] by { ConcatOne([LF]); }
    assert text + [LF] == Concat(none) + text + Concat(one);
    assert text == Concat(none) + text + Concat(none);
  }
}
