/** Hex digests, and the length-prefixed encoding that is fed to the digest. */
module Hash {
  import opened Bytes
  import opened Wrappers

  const DIGEST_BYTES: nat := 32

  datatype HashParseError = BadLength(length: nat) | BadChar

  function HexDigit(n: nat): byte
    requires n < 16
  {
    if n < 10 then (48 + n) as byte else (87 + n) as byte
  }

  function HexVal(c: byte): (v: Option<nat>)
    ensures v.Some? ==> v.value < 16
  {
    if 48 <= c <= 57 then Some(c as nat - 48)
    else if 97 <= c <= 102 then Some(c as nat - 87)
    else if 65 <= c <= 70 then Some(c as nat - 55)
    else None
  }

  predicate IsHexChar(c: byte) {
    HexVal(c).Some?
  }

  predicate AllHex(s: seq<byte>) {
    forall c <- s :: IsHexChar(c)
  }

  function ByteOf(hi: nat, lo: nat): byte
    requires hi < 16 && lo < 16
  {
    (hi * 16 + lo) as byte
  }

  function Lower(c: byte): byte {
    if 65 <= c <= 90 then c + 32 else c
  }

  function Lowered(s: seq<byte>): seq<byte> {
    seq(|s|, i requires 0 <= i < |s| => Lower(s[i]))
  }

  function Hex(bytes: seq<byte>): (s: seq<byte>)
    ensures |s| == 2 * |bytes|
  {
    if bytes == [] then []
    else
      var n := |bytes| - 1;
      Hex(bytes[..n]) + [HexDigit(bytes[n] as nat / 16), HexDigit(bytes[n] as nat % 16)]
  }

  method ToHex(digest: array<byte>) returns (s: seq<byte>)
    ensures s == Hex(digest[..])
  {
    s := [];
    for i := 0 to digest.Length
      invariant s == Hex(digest[..i])
    {
      var b := digest[i];
      assert digest[..i + 1][..i] == digest[..i];
      s := s + [HexDigit(b as nat / 16)];
      s := s + [HexDigit(b as nat % 16)];
    }
    assert digest[..digest.Length] == digest[..];
  }

  /** Fills a digest from 64 hex characters of either case, or says what is wrong with them. */
  method FromHex(s: seq<byte>) returns (r: Result<array<byte>, HashParseError>)
    ensures |s| != 2 * DIGEST_BYTES ==> r == Err(BadLength(|s|))
    ensures |s| == 2 * DIGEST_BYTES && !AllHex(s) ==> r == Err(BadChar)
    ensures |s| == 2 * DIGEST_BYTES && AllHex(s) ==>
              r.Ok? && fresh(r.value) && r.value.Length == DIGEST_BYTES && Hex(r.value[..]) == Lowered(s)
  {
    if |s| != 2 * DIGEST_BYTES {
      return Err(BadLength(|s|));
    }
    var buffer := new byte[DIGEST_BYTES](_ => 0);
    for i := 0 to DIGEST_BYTES
      invariant Decodes(buffer[..i], s[..2 * i])
    {
      var hi, lo := HexVal(s[2 * i]), HexVal(s[2 * i + 1]);
      if hi.None? || lo.None? {
        assert s[2 * i] in s && s[2 * i + 1] in s;
        return Err(BadChar);
      }
      var b := ByteOf(hi.value, lo.value);
      ghost var before := buffer[..i];
      buffer[i] := b;
      assert buffer[..i + 1] == before + [b];
      TwoMore(s, 2 * i);
      PairDecoded(before, s[..2 * i], s[2 * i], s[2 * i + 1]);
    }
    assert s[..2 * DIGEST_BYTES] == s;
    assert buffer[..DIGEST_BYTES] == buffer[..];
    return Ok(buffer);
  }

  lemma TwoMore(s: seq<byte>, n: nat)
    requires n + 2 <= |s|
    ensures s[..n + 2] == s[..n] + [s[n], s[n + 1]]
  {
  }

  ghost predicate Decodes(bytes: seq<byte>, s: seq<byte>) {
    AllHex(s) && Hex(bytes) == Lowered(s)
  }

  lemma PairDecoded(bytes: seq<byte>, s: seq<byte>, a: byte, b: byte)
    requires Decodes(bytes, s) && IsHexChar(a) && IsHexChar(b)
    ensures Decodes(bytes + [ByteOf(HexVal(a).value, HexVal(b).value)], s + [a, b])
  {
    PairRoundTrip(a, b);
    var v := ByteOf(HexVal(a).value, HexVal(b).value);
    assert (bytes + [v])[..|bytes|] == bytes;
    assert Lowered(s + [a, b]) == Lowered(s) + [Lower(a), Lower(b)];
  }

  lemma PairRoundTrip(a: byte, b: byte)
    requires IsHexChar(a) && IsHexChar(b)
    ensures var v := ByteOf(HexVal(a).value, HexVal(b).value) as nat;
            HexDigit(v / 16) == Lower(a) && HexDigit(v % 16) == Lower(b)
  {
  }

  /** Two digests with one encoding are one digest: decoding can only be what encoding came from. */
  lemma {:induction false} HexIsInjective(a: seq<byte>, b: seq<byte>)
    requires Hex(a) == Hex(b)
    ensures a == b
    decreases |a|
  {
    if a != [] {
      assert |a| == |b|;
      var n := |a| - 1;
      LastTwoApart(
        Hex(a[..n]), HexDigit(a[n] as nat / 16), HexDigit(a[n] as nat % 16),
        Hex(b[..n]), HexDigit(b[n] as nat / 16), HexDigit(b[n] as nat % 16));
      HexIsInjective(a[..n], b[..n]);
      DigitsOfByte(a[n]);
      DigitsOfByte(b[n]);
      assert a == a[..n] + [a[n]] && b == b[..n] + [b[n]];
    }
  }

  lemma LastTwoApart(x: seq<byte>, p: byte, q: byte, y: seq<byte>, r: byte, t: byte)
    requires x + [p, q] == y + [r, t]
    ensures x == y && p == r && q == t
  {
    var s := x + [p, q];
    assert s[|x|] == p && s[|x| + 1] == q && s[|y|] == r && s[|y| + 1] == t;
    assert x == s[..|x|] && y == s[..|y|];
  }

  lemma DigitsOfByte(b: byte)
    ensures HexVal(HexDigit(b as nat / 16)) == Some(b as nat / 16)
    ensures HexVal(HexDigit(b as nat % 16)) == Some(b as nat % 16)
    ensures IsHexChar(HexDigit(b as nat / 16)) && Lower(HexDigit(b as nat / 16)) == HexDigit(b as nat / 16)
    ensures IsHexChar(HexDigit(b as nat % 16)) && Lower(HexDigit(b as nat % 16)) == HexDigit(b as nat % 16)
  {
  }

  /** An encoding is hex characters throughout, in lower case. */
  lemma {:induction false} HexIsLowerHex(bytes: seq<byte>)
    ensures AllHex(Hex(bytes))
    ensures Lowered(Hex(bytes)) == Hex(bytes)
    decreases |bytes|
  {
    if bytes != [] {
      var n := |bytes| - 1;
      HexIsLowerHex(bytes[..n]);
      DigitsOfByte(bytes[n]);
      var front := Hex(bytes[..n]);
      var last := [HexDigit(bytes[n] as nat / 16), HexDigit(bytes[n] as nat % 16)];
      assert Lowered(front + last) == Lowered(front) + last;
    }
  }

  /** Encoding a digest and decoding it gives the digest back. */
  method HexRoundTrip(digest: array<byte>) returns (back: array<byte>)
    requires digest.Length == DIGEST_BYTES
    ensures back[..] == digest[..]
  {
    var s := ToHex(digest);
    HexIsLowerHex(digest[..]);
    var r := FromHex(s);
    HexIsInjective(r.value[..], digest[..]);
    back := r.value;
  }

  // ---------------------------------------------------------------- fields

  const LENGTH_BYTES: nat := 8

  /** A length as eight bytes, the low one first. */
  function LittleEndian(n: nat, width: nat): (s: seq<byte>)
    ensures |s| == width
  {
    if width == 0 then [] else [(n % 256) as byte] + LittleEndian(n / 256, width - 1)
  }

  /** The byte at each place is that many times 256 worth: the first the units, the last the most. */
  lemma {:induction false} LittleEndianIsWorth(n: nat, width: nat)
    requires n < Power256(width)
    ensures Worth(LittleEndian(n, width)) == n
  {
    if width > 0 {
      LittleEndianIsWorth(n / 256, width - 1);
      assert LittleEndian(n, width)[1..] == LittleEndian(n / 256, width - 1);
    }
  }

  function Worth(s: seq<byte>): nat {
    if s == [] then 0 else s[0] as nat + 256 * Worth(s[1..])
  }

  function Power256(width: nat): (p: nat)
    ensures p >= 1
  {
    if width == 0 then 1 else 256 * Power256(width - 1)
  }

  lemma {:induction false} LittleEndianIsInjective(a: nat, b: nat, width: nat)
    requires a < Power256(width) && b < Power256(width)
    requires LittleEndian(a, width) == LittleEndian(b, width)
    ensures a == b
  {
    if width > 0 {
      var x, y := LittleEndian(a, width), LittleEndian(b, width);
      assert x[0] == y[0] && x[1..] == LittleEndian(a / 256, width - 1) && y[1..] == LittleEndian(b / 256, width - 1);
      LittleEndianIsInjective(a / 256, b / 256, width - 1);
    }
  }

  /** What a list of fields feeds the digest. */
  function Fed(fields: seq<seq<byte>>): seq<byte> {
    if fields == [] then []
    else Fed(fields[..|fields| - 1]) + (LittleEndian(|fields[|fields| - 1]|, LENGTH_BYTES) + fields[|fields| - 1])
  }

  class Hasher {
    /** The bytes fed to the digest so far. */
    var fed: seq<byte>
    /** The fields they came from. */
    ghost var fields: seq<seq<byte>>

    ghost predicate Valid()
      reads this
    {
      fed == Fed(fields)
    }

    constructor ()
      ensures Valid() && fields == []
    {
      fed, fields := [], [];
    }

    method Field(bytes: seq<byte>)
      requires Valid()
      modifies this
      ensures Valid() && fields == old(fields) + [bytes]
    {
      Assoc(fed, LittleEndian(|bytes|, LENGTH_BYTES), bytes);
      fed := fed + LittleEndian(|bytes|, LENGTH_BYTES);
      fed := fed + bytes;
      fields := fields + [bytes];
      assert fields[..|fields| - 1] == old(fields);
    }
  }

  function FedForwards(fields: seq<seq<byte>>): seq<byte> {
    if fields == [] then [] else LittleEndian(|fields[0]|, LENGTH_BYTES) + fields[0] + FedForwards(fields[1..])
  }

  lemma {:induction false} FedForwardsAppend(a: seq<seq<byte>>, last: seq<byte>)
    ensures FedForwards(a + [last]) == FedForwards(a) + (LittleEndian(|last|, LENGTH_BYTES) + last)
  {
    if a == [] {
      assert a + [last] == [last];
      assert [last][1..] == [];
      assert FedForwards([last]) == LittleEndian(|last|, LENGTH_BYTES) + last + FedForwards([]);
    } else {
      assert (a + [last])[1..] == a[1..] + [last];
      FedForwardsAppend(a[1..], last);
      Assoc(LittleEndian(|a[0]|, LENGTH_BYTES) + a[0], FedForwards(a[1..]), LittleEndian(|last|, LENGTH_BYTES) + last);
    }
  }

  lemma {:induction false} FedEitherWay(fields: seq<seq<byte>>)
    ensures Fed(fields) == FedForwards(fields)
    decreases |fields|
  {
    if fields != [] {
      var front, last := fields[..|fields| - 1], fields[|fields| - 1];
      FedEitherWay(front);
      FedForwardsAppend(front, last);
      assert fields == front + [last];
    }
  }

  predicate Sizes(fields: seq<seq<byte>>) {
    forall f <- fields :: |f| < Power256(LENGTH_BYTES)
  }

  lemma {:induction false} FedForwardsIsInjective(a: seq<seq<byte>>, b: seq<seq<byte>>)
    requires Sizes(a) && Sizes(b) && FedForwards(a) == FedForwards(b)
    ensures a == b
  {
    assert a != [] ==> |FedForwards(a)| > 0;
    assert b != [] ==> |FedForwards(b)| > 0;
    if a != [] && b != [] {
      FirstFields(a[0], FedForwards(a[1..]), b[0], FedForwards(b[1..]));
      FedForwardsIsInjective(a[1..], b[1..]);
      assert a == [a[0]] + a[1..] && b == [b[0]] + b[1..];
    }
  }

  lemma FirstFields(f: seq<byte>, fRest: seq<byte>, g: seq<byte>, gRest: seq<byte>)
    requires |f| < Power256(LENGTH_BYTES) && |g| < Power256(LENGTH_BYTES)
    requires LittleEndian(|f|, LENGTH_BYTES) + f + fRest == LittleEndian(|g|, LENGTH_BYTES) + g + gRest
    ensures f == g && fRest == gRest
  {
    var x, y := LittleEndian(|f|, LENGTH_BYTES), LittleEndian(|g|, LENGTH_BYTES);
    CutAppend(x, f + fRest);
    CutAppend(y, g + gRest);
    Assoc(x, f, fRest);
    Assoc(y, g, gRest);
    LittleEndianIsInjective(|f|, |g|, LENGTH_BYTES);
    CutAppend(f, fRest);
    CutAppend(g, gRest);
  }

  /**
   Two lists of fields that feed the digest the same bytes are the same fields: a boundary moved from
   one field to the next, or a field split in two, feeds it something else.
   */
  lemma FieldsAreUnambiguous(a: seq<seq<byte>>, b: seq<seq<byte>>)
    requires Sizes(a) && Sizes(b)
    ensures Fed(a) == Fed(b) <==> a == b
  {
    FedEitherWay(a);
    FedEitherWay(b);
    if Fed(a) == Fed(b) {
      FedForwardsIsInjective(a, b);
    }
  }
}
