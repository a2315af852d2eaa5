/** Numbers as the tools print them and the adapters read them back. */
module Decimal {
  import opened Bytes
  import opened Wrappers

  const PLUS: byte := 43
  const MINUS: byte := 45

  const U32_MAX: int := 0xFFFF_FFFF
  const USIZE_MAX: int := 0xFFFF_FFFF_FFFF_FFFF
  const I64_MAX: int := 0x7FFF_FFFF_FFFF_FFFF

  predicate IsDigit(b: byte) { 48 <= b <= 57 }

  predicate AllDigits(s: seq<byte>) {
    forall b <- s :: IsDigit(b)
  }

  function Value(s: seq<byte>): nat
    requires AllDigits(s)
  {
    if s == [] then 0
    else
      var last := s[|s| - 1];
      assert last in s;
      Value(s[..|s| - 1]) * 10 + (last as int - 48)
  }

  function Digits(n: nat): (s: seq<byte>)
    ensures s != [] && AllDigits(s)
  {
    var last := [(48 + n % 10) as byte];
    if n < 10 then last else Digits(n / 10) + last
  }

  lemma {:induction false} ValueOfDigits(n: nat)
    ensures Value(Digits(n)) == n
  {
    var s := Digits(n);
    if n < 10 {
      assert s[..0] == [];
    } else {
      ValueOfDigits(n / 10);
      assert s[..|s| - 1] == Digits(n / 10);
    }
  }

  /** An unsigned number no larger than `max`. One leading `+` is accepted, nothing else but digits is. */
  function ParseUnsigned(s: seq<byte>, max: int): (r: Option<nat>)
    ensures r.Some? ==> r.value <= max
  {
    var body := if s != [] && s[0] == PLUS then s[1..] else s;
    if body != [] && AllDigits(body) && Value(body) <= max then Some(Value(body)) else None
  }

  /** A signed 64-bit number. */
  function ParseI64(s: seq<byte>): (r: Option<int>)
    ensures r.Some? ==> -I64_MAX - 1 <= r.value <= I64_MAX
  {
    if s != [] && s[0] == MINUS then
      var body := s[1..];
      if body != [] && AllDigits(body) && Value(body) <= I64_MAX + 1 then Some(0 - Value(body)) else None
    else
      match ParseUnsigned(s, I64_MAX)
      case Some(n) => Some(n)
      case None => None
  }

  function Signed(n: int): seq<byte> {
    if n < 0 then [MINUS] + Digits(-n) else Digits(n)
  }

  /** A printed number reads back as itself, or as nothing when it is past the reader's ceiling. */
  lemma UnsignedRoundTrip(n: nat, max: int)
    ensures ParseUnsigned(Digits(n), max) == if n <= max then Some(n) else None
  {
    ValueOfDigits(n);
    assert Digits(n)[0] in Digits(n);
  }

  lemma SignedRoundTrip(n: int)
    ensures ParseI64(Signed(n)) == if -I64_MAX - 1 <= n <= I64_MAX then Some(n) else None
  {
    if n < 0 {
      ValueOfDigits(-n);
      assert Signed(n)[1..] == Digits(-n);
    } else {
      UnsignedRoundTrip(n, I64_MAX);
      assert Digits(n)[0] in Digits(n);
    }
  }
}
