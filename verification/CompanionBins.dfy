/**
 Whether an exported companion binary is already the one bundled: two files read side by side, each
 through a buffer filled a different stretch at a time.

 How much each read brings and which reads fail are inputs.
 */
module CompanionBins {
  import opened Bytes
  import opened Wrappers

  datatype IoError = IoError

  /**
   A file as the comparison meets it: its reported length, if there is one, what it holds, how far each
   read reaches, and where reading it fails, if it does.
   */
  datatype File = File(
    length: Option<nat>, openable: bool, bytes: seq<byte>, reach: nat -> nat, breaks: Option<nat>)

  /** Reading the file fails no later than after `n` bytes. */
  predicate BreaksBy(f: File, n: nat) {
    f.breaks.Some? && f.breaks.value <= n
  }

  /** How many bytes two strings begin with alike. */
  function Alike(a: seq<byte>, b: seq<byte>): (n: nat)
    ensures n <= |a| && n <= |b| && a[..n] == b[..n]
    ensures n < |a| && n < |b| ==> a[n] != b[n]
  {
    if a == [] || b == [] || a[0] != b[0] then 0 else 1 + Alike(a[1..], b[1..])
  }

  class BufReader {
    const file: File
    var buffer: seq<byte>
    var unread: seq<byte>
    var fills: nat

    /** How many bytes have been consumed. */
    function At(): int
      reads this
    {
      |file.bytes| - |buffer| - |unread|
    }

    /** What is left is the file from there on, and no read has gone past where reading fails. */
    ghost predicate Valid()
      reads this
    {
      && 0 <= At() && buffer + unread == file.bytes[At()..]
      && (file.breaks.Some? ==> At() + |buffer| <= file.breaks.value)
    }

    constructor (file: File)
      ensures this.file == file && Valid() && At() == 0
    {
      this.file := file;
      buffer, unread, fills := [], file.bytes, 0;
    }

    /** Reads more only when nothing is buffered; what is buffered is empty only at the end of the file. */
    method FillBuf() returns (r: Result<seq<byte>, IoError>)
      requires Valid()
      modifies this
      ensures Valid() && At() == old(At())
      ensures r.Err? <==> old(buffer) == [] && file.breaks == Some(At())
      ensures r.Ok? ==> r.value == buffer && (buffer == [] ==> unread == [])
      ensures r.Ok? ==> !BreaksBy(file, if buffer == [] then At() else At() + |buffer| - 1)
    {
      if buffer == [] {
        fills := fills + 1;
        var at := |file.bytes| - |unread|;
        if file.breaks == Some(at) {
          return Err(IoError);
        }
        var most := |unread|;
        if file.breaks.Some? && file.breaks.value - at < most {
          most := file.breaks.value - at;
        }
        var n := if file.reach(fills) < most then file.reach(fills) + 1 else most;
        buffer, unread := unread[..n], unread[n..];
      }
      return Ok(buffer);
    }

    method Consume(n: nat)
      requires Valid() && n <= |buffer|
      modifies this
      ensures Valid() && At() == old(At()) + n
    {
      buffer := buffer[n..];
    }
  }

  /** What comparing comes to once both files are open: an error where one fails before they differ or end. */
  function Compared(src: File, dest: File): Result<bool, IoError> {
    var alike := Alike(src.bytes, dest.bytes);
    if BreaksBy(src, alike) || BreaksBy(dest, alike) then Err(IoError) else Ok(src.bytes == dest.bytes)
  }

  /**
   However the reads divide the two files: different where a length is missing or they differ, or `dest`
   will not open; an error where `src` will not, or where either fails to be read no later than the first
   byte they differ in, or their end; and otherwise whether they are the same.
   */
  method SameContents(src: File, dest: File) returns (same: Result<bool, IoError>)
    ensures same == if src.length.None? || dest.length.None? || src.length != dest.length then Ok(false)
                    else if !src.openable then Err(IoError)
                    else if !dest.openable then Ok(false)
                    else Compared(src, dest)
  {
    if src.length.None? || dest.length.None? {
      return Ok(false);
    }
    if src.length != dest.length {
      return Ok(false);
    }
    if !src.openable {
      return Err(IoError);
    }
    var a := new BufReader(src);
    if !dest.openable {
      return Ok(false);
    }
    var b := new BufReader(dest);
    while true
      invariant a.file == src && b.file == dest && Abreast(a, b)
      decreases |src.bytes| - a.At()
    {
      var found := CompareChunks(a, b);
      if found.Some? {
        return found.value;
      }
    }
  }

  /** Both readers have come equally far, and the files are alike that far. */
  ghost predicate Abreast(a: BufReader, b: BufReader)
    reads a, b
  {
    a != b && a.Valid() && b.Valid() && a.At() == b.At() <= Alike(a.file.bytes, b.file.bytes)
  }

  /** Compares as much as both readers have buffered: the outcome, or both moved on past it. */
  method CompareChunks(a: BufReader, b: BufReader) returns (found: Option<Result<bool, IoError>>)
    requires Abreast(a, b)
    modifies a, b
    ensures found.Some? ==> found.value == Compared(a.file, b.file)
    ensures found.None? ==> Abreast(a, b) && a.At() > old(a.At())
  {
    ghost var at := a.At();
    var chunkA := a.FillBuf();
    if chunkA.Err? {
      assert BreaksBy(a.file, at);
      return Some(Err(IoError));
    }
    var chunkB := b.FillBuf();
    if chunkB.Err? {
      assert BreaksBy(b.file, at);
      return Some(Err(IoError));
    }
    if chunkA.value == [] && chunkB.value == [] {
      BothEnded(a.file.bytes, b.file.bytes, at);
      return Some(Ok(true));
    }
    var len := if |chunkA.value| < |chunkB.value| then |chunkA.value| else |chunkB.value|;
    ChunksAlike(a.file.bytes, b.file.bytes, at, chunkA.value, a.unread, chunkB.value, b.unread, len);
    if len == 0 || chunkA.value[..len] != chunkB.value[..len] {
      return Some(Ok(false));
    }
    a.Consume(len);
    b.Consume(len);
    return None;
  }

  lemma BothEnded(a: seq<byte>, b: seq<byte>, at: nat)
    requires at <= Alike(a, b) && at == |a| && at == |b|
    ensures Alike(a, b) == at && a == b
  {
    assert a[..at] == a && b[..at] == b;
  }

  /** Comparing the shorter of two chunks says whether the files are alike as far as it goes. */
  lemma ChunksAlike(a: seq<byte>, b: seq<byte>, at: nat, x: seq<byte>, moreX: seq<byte>, y: seq<byte>,
                    moreY: seq<byte>, n: nat)
    requires at <= Alike(a, b) && x + moreX == a[at..] && y + moreY == b[at..]
    requires (x == [] ==> moreX == []) && (y == [] ==> moreY == [])
    requires n == (if |x| < |y| then |x| else |y|) && (x != [] || y != [])
    ensures n > 0 && x[..n] == y[..n] ==> at + n <= Alike(a, b)
    ensures n == 0 ==> Alike(a, b) == at && a != b
    ensures n > 0 && x[..n] != y[..n] ==> Alike(a, b) < at + n && a != b
  {
    var d := Alike(a, b);
    assert forall i | 0 <= i < n :: x[i] == a[at..][i] == a[at + i];
    assert forall i | 0 <= i < n :: y[i] == b[at..][i] == b[at + i];
    assert |a| == at + |x| + |moreX| && |b| == at + |y| + |moreY|;
    if d < at + n {
      assert a[d] != b[d];
      assert x[d - at] != y[d - at];
    } else {
      forall i | 0 <= i < n ensures x[i] == y[i] {
        assert a[..d][at + i] == b[..d][at + i];
      }
    }
  }

  /** They are found the same only when they are. */
  lemma SameIsSame(src: File, dest: File)
    ensures Compared(src, dest) == Ok(true) <==>
            src.bytes == dest.bytes && !BreaksBy(src, |src.bytes|) && !BreaksBy(dest, |dest.bytes|)
  {
    if src.bytes == dest.bytes {
      AlikeItself(src.bytes);
    }
  }

  lemma {:induction false} AlikeItself(s: seq<byte>)
    ensures Alike(s, s) == |s|
  {
    if s != [] {
      AlikeItself(s[1..]);
    }
  }
}
