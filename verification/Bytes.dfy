/**
 Byte strings, and the three ways the adapters cut them up: at a separator, at the first
 few separators, and after each newline.
 */
module Bytes {

  newtype byte = x: int | 0 <= x < 256

  const NUL: byte := 0
  const TAB: byte := 9
  const LF: byte := 10
  const CR: byte := 13
  const SPACE: byte := 32

  lemma Assoc<T>(a: seq<T>, b: seq<T>, c: seq<T>)
    ensures (a + b) + c == a + (b + c)
  {
  }

  lemma CutAppend<T>(a: seq<T>, b: seq<T>)
    ensures (a + b)[..|a|] == a && (a + b)[|a|..] == b
  {
  }

  lemma TakeNext<T>(before: seq<T>, s: seq<T>, i: nat)
    requires i < |s|
    ensures before + s[..i + 1] == (before + s[..i]) + [s[i]]
  {
  }

  lemma TakeAll<T>(before: seq<T>, s: seq<T>)
    ensures before + s[..0] == before && before + s[..|s|] == before + s
  {
  }

  lemma LastApart<T>(x: seq<T>, t: seq<T>)
    requires x != []
    ensures x + t == x[..|x| - 1] + ([x[|x| - 1]] + t)
  {
  }

  lemma CutTwice<T>(s: seq<T>, n: nat, i: nat)
    requires n <= i <= |s|
    ensures s[n..][i - n..] == s[i..] && s[..n] + s[n..][..i - n] == s[..i]
  {
  }

  function Concat<T>(parts: seq<seq<T>>): seq<T> {
    if parts == [] then [] else parts[0] + Concat(parts[1..])
  }

  lemma {:induction false} ConcatAppend<T>(a: seq<seq<T>>, b: seq<seq<T>>)
    ensures Concat(a + b) == Concat(a) + Concat(b)
  {
    if a == [] {
      assert a + b == b;
    } else {
      assert (a + b)[1..] == a[1..] + b;
      ConcatAppend(a[1..], b);
      Assoc(a[0], Concat(a[1..]), Concat(b));
    }
  }

  lemma ConcatOne<T>(s: seq<T>)
    ensures Concat([s]) == s
  {
    assert Concat([s]) == s + Concat([]);
  }

  lemma ConcatSnoc<T>(a: seq<seq<T>>, last: seq<T>)
    ensures Concat(a + [last]) == Concat(a) + last
  {
    ConcatAppend(a, [last]);
    ConcatOne(last);
  }

  // ---------------------------------------------------------------- separators

  /** The pieces between separators: one more than there are separators. */
  function Split(s: seq<byte>, sep: byte): (pieces: seq<seq<byte>>)
    ensures |pieces| >= 1
    ensures forall p <- pieces :: sep !in p
  {
    if s == [] then [[]]
    else
      var rest := Split(s[1..], sep);
      if s[0] == sep then [[]] + rest
      else
        assert forall i | 1 <= i < |rest| :: rest[i] in rest;
        [[s[0]] + rest[0]] + rest[1..]
  }

  lemma {:induction false} SplitWhole(p: seq<byte>, sep: byte)
    requires sep !in p
    ensures Split(p, sep) == [p]
  {
    if p != [] {
      SplitWhole(p[1..], sep);
      assert [p[0]] + p[1..] == p;
    }
  }

  lemma {:induction false} SplitFirst(p: seq<byte>, sep: byte, rest: seq<byte>)
    requires sep !in p
    ensures Split(p + [sep] + rest, sep) == [p] + Split(rest, sep)
  {
    if p == [] {
      assert ([sep] + rest)[1..] == rest;
      assert p + [sep] + rest == [sep] + rest;
    } else {
      SplitFirst(p[1..], sep, rest);
      assert (p + [sep] + rest)[1..] == p[1..] + [sep] + rest;
      assert [p[0]] + p[1..] == p;
    }
  }

  /** Each piece followed by the separator. */
  function Terminated(pieces: seq<seq<byte>>, sep: byte): seq<byte> {
    if pieces == [] then [] else pieces[0] + [sep] + Terminated(pieces[1..], sep)
  }

  lemma {:induction false} TerminatedAppend(a: seq<seq<byte>>, b: seq<seq<byte>>, sep: byte)
    ensures Terminated(a + b, sep) == Terminated(a, sep) + Terminated(b, sep)
  {
    if a == [] {
      assert a + b == b;
    } else {
      assert (a + b)[1..] == a[1..] + b;
      TerminatedAppend(a[1..], b, sep);
    }
  }

  /** Splitting takes back what terminating put together, with whatever follows the last separator. */
  lemma {:induction false} SplitTerminated(pieces: seq<seq<byte>>, sep: byte, tail: seq<byte>)
    requires forall p <- pieces :: sep !in p
    requires sep !in tail
    ensures Split(Terminated(pieces, sep) + tail, sep) == pieces + [tail]
  {
    if pieces == [] {
      SplitWhole(tail, sep);
      assert [] + tail == tail;
    } else {
      var first, more := pieces[0], pieces[1..];
      assert first in pieces && forall p | p in more :: p in pieces;
      SplitTerminated(more, sep, tail);
      SplitFirst(first, sep, Terminated(more, sep) + tail);
      Assoc(first + [sep], Terminated(more, sep), tail);
      assert [first] + (more + [tail]) == pieces + [tail];
    }
  }

  /** The position of the first separator. */
  function IndexOf(s: seq<byte>, sep: byte): (i: nat)
    requires sep in s
    ensures i < |s| && s[i] == sep && sep !in s[..i]
  {
    if s[0] == sep then 0
    else
      var i := IndexOf(s[1..], sep);
      assert s[..i + 1] == [s[0]] + s[1..][..i];
      i + 1
  }

  lemma IndexOfFirst(p: seq<byte>, sep: byte, rest: seq<byte>)
    requires sep !in p
    ensures sep in p + [sep] + rest
    ensures IndexOf(p + [sep] + rest, sep) == |p|
  {
    var s := p + [sep] + rest;
    assert s[|p|] == sep;
    var i := IndexOf(s, sep);
    assert forall j | 0 <= j < |p| :: s[j] == p[j];
    assert forall j | 0 <= j < i :: s[..i][j] == s[j];
  }

  /** At most `n` pieces, the last holding everything the first `n - 1` separators leave. */
  function SplitN(s: seq<byte>, sep: byte, n: nat): (pieces: seq<seq<byte>>)
    requires n >= 1
    ensures 1 <= |pieces| <= n
    decreases |s|
  {
    if n == 1 || s == [] then [s]
    else if s[0] == sep then [[]] + SplitN(s[1..], sep, n - 1)
    else
      var rest := SplitN(s[1..], sep, n);
      [[s[0]] + rest[0]] + rest[1..]
  }

  lemma {:induction false} SplitNWhole(p: seq<byte>, sep: byte, n: nat)
    requires sep !in p && n >= 1
    ensures SplitN(p, sep, n) == [p]
  {
    if p != [] && n > 1 {
      assert p[0] in p;
      SplitNWhole(p[1..], sep, n);
      assert [p[0]] + p[1..] == p;
    }
  }

  lemma {:induction false} SplitNFirst(p: seq<byte>, sep: byte, rest: seq<byte>, n: nat)
    requires sep !in p && n > 1
    ensures SplitN(p + [sep] + rest, sep, n) == [p] + SplitN(rest, sep, n - 1)
  {
    if p == [] {
      assert ([sep] + rest)[1..] == rest;
      assert p + [sep] + rest == [sep] + rest;
    } else {
      SplitNFirst(p[1..], sep, rest, n);
      assert (p + [sep] + rest)[1..] == p[1..] + [sep] + rest;
      assert [p[0]] + p[1..] == p;
    }
  }

  /** A bounded split takes back what terminating put together; only its last piece may hold the separator. */
  lemma {:induction false} SplitNTerminated(front: seq<seq<byte>>, last: seq<byte>, sep: byte)
    requires forall p <- front :: sep !in p
    ensures SplitN(Terminated(front, sep) + last, sep, |front| + 1) == front + [last]
  {
    if front == [] {
      assert [] + last == last;
    } else {
      var first, more := front[0], front[1..];
      assert first in front && forall p | p in more :: p in front;
      SplitNTerminated(more, last, sep);
      SplitNFirst(first, sep, Terminated(more, sep) + last, |front| + 1);
      Assoc(first + [sep], Terminated(more, sep), last);
      assert [first] + (more + [last]) == front + [last];
    }
  }

  lemma {:induction false} NotInTerminated(pieces: seq<seq<byte>>, sep: byte, b: byte)
    requires b != sep && forall p <- pieces :: b !in p
    ensures b !in Terminated(pieces, sep)
  {
    if pieces != [] {
      NotInTerminated(pieces[1..], sep, b);
    }
  }

  // ---------------------------------------------------------------- lines

  /** The lines of `s`, each keeping the newline that ends it. */
  function Lines(s: seq<byte>): seq<seq<byte>> {
    if s == [] then []
    else
      var rest := Lines(s[1..]);
      if s[0] == LF || rest == [] then [[s[0]]] + rest
      else [[s[0]] + rest[0]] + rest[1..]
  }

  predicate EndsLine(l: seq<byte>) {
    l != [] && l[|l| - 1] == LF
  }

  predicate IsLine(l: seq<byte>) {
    l != [] && forall i | 0 <= i < |l| - 1 :: l[i] != LF
  }

  /** What a byte string's lines look like: only the last may want its newline. */
  predicate AreLines(ls: seq<seq<byte>>) {
    forall i | 0 <= i < |ls| :: IsLine(ls[i]) && (i < |ls| - 1 ==> EndsLine(ls[i]))
  }

  lemma AreLinesCons(l: seq<byte>, ls: seq<seq<byte>>)
    requires IsLine(l) && AreLines(ls) && (EndsLine(l) || ls == [])
    ensures AreLines([l] + ls)
  {
    var all := [l] + ls;
    forall i | 0 <= i < |all| ensures IsLine(all[i]) && (i < |all| - 1 ==> EndsLine(all[i])) {
      if i > 0 { assert all[i] == ls[i - 1]; }
    }
  }

  lemma AreLinesAppend(a: seq<seq<byte>>, b: seq<seq<byte>>)
    requires AreLines(a) && AreLines(b)
    requires a == [] || b == [] || EndsLine(a[|a| - 1])
    ensures AreLines(a + b)
  {
    var all := a + b;
    forall i | 0 <= i < |all| ensures IsLine(all[i]) && (i < |all| - 1 ==> EndsLine(all[i])) {
      if i >= |a| { assert all[i] == b[i - |a|]; }
    }
  }

  lemma AreLinesSlice(ls: seq<seq<byte>>, lo: nat, hi: nat)
    requires AreLines(ls) && lo <= hi <= |ls|
    ensures AreLines(ls[lo..hi])
    ensures lo < hi < |ls| ==> EndsLine(ls[lo..hi][hi - lo - 1])
  {
    forall i | 0 <= i < hi - lo
      ensures IsLine(ls[lo..hi][i]) && (i < hi - lo - 1 ==> EndsLine(ls[lo..hi][i]))
    {
      assert ls[lo..hi][i] == ls[lo + i];
    }
  }

  lemma ConcatCons<T>(first: seq<T>, rest: seq<seq<T>>)
    ensures Concat([first] + rest) == first + Concat(rest)
  {
    assert ([first] + rest)[1..] == rest;
  }

  lemma AreLinesSplit(a: seq<seq<byte>>, b: seq<seq<byte>>)
    requires AreLines(a + b)
    ensures AreLines(a) && AreLines(b)
    ensures a != [] && b != [] ==> EndsLine(a[|a| - 1])
  {
    var all := a + b;
    forall i | 0 <= i < |a| ensures IsLine(a[i]) && (i < |a| - 1 ==> EndsLine(a[i])) {
      assert a[i] == all[i];
    }
    forall i | 0 <= i < |b| ensures IsLine(b[i]) && (i < |b| - 1 ==> EndsLine(b[i])) {
      assert b[i] == all[|a| + i];
    }
    assert a != [] ==> a[|a| - 1] == all[|a| - 1];
  }

  lemma {:induction false} LinesConcat(s: seq<byte>)
    ensures Concat(Lines(s)) == s
  {
    if s != [] {
      LinesConcat(s[1..]);
      var rest := Lines(s[1..]);
      assert [s[0]] + s[1..] == s;
      if s[0] == LF || rest == [] {
        ConcatCons([s[0]], rest);
      } else {
        ConcatCons([s[0]] + rest[0], rest[1..]);
        Assoc([s[0]], rest[0], Concat(rest[1..]));
      }
    }
  }

  lemma {:induction false} LinesAreLines(s: seq<byte>)
    ensures AreLines(Lines(s))
  {
    if s != [] {
      LinesAreLines(s[1..]);
      var rest := Lines(s[1..]);
      if s[0] == LF || rest == [] {
        AreLinesCons([s[0]], rest);
      } else {
        var first := [s[0]] + rest[0];
        assert forall i | 1 <= i < |first| :: first[i] == rest[0][i - 1];
        AreLinesSlice(rest, 1, |rest|);
        AreLinesCons(first, rest[1..]);
      }
    }
  }

  lemma {:induction false} LinesAfterLine(l: seq<byte>, rest: seq<byte>)
    requires IsLine(l) && (EndsLine(l) || rest == [])
    ensures Lines(l + rest) == [l] + Lines(rest)
  {
    assert (l + rest)[1..] == l[1..] + rest;
    if |l| == 1 {
      assert l == [l[0]];
    } else {
      assert forall i | 0 <= i < |l[1..]| :: l[1..][i] == l[i + 1];
      LinesAfterLine(l[1..], rest);
      assert [l[0]] + l[1..] == l;
    }
  }

  /** A list of lines is the only one that concatenates to what it does. */
  lemma {:induction false} LinesUnique(ls: seq<seq<byte>>)
    requires AreLines(ls)
    ensures Lines(Concat(ls)) == ls
  {
    if ls != [] {
      AreLinesSlice(ls, 1, |ls|);
      LinesUnique(ls[1..]);
      LinesAfterLine(ls[0], Concat(ls[1..]));
    }
  }
}
