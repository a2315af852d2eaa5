/** When a diff is reported binary: from the counted records before its patch, as they are printed. */
module DiffBinary {
  import opened Bytes
  import opened Decimal
  import opened DiffLaws
  import opened DiffParse
  import opened Utf8
  import opened Wrappers

  /** A counted record's two columns, whatever is in them, and the rest of its line. */
  datatype Record = Record(added: seq<byte>, deleted: seq<byte>, rest: seq<byte>)

  /** The columns hold no tab, the record is one line, and it is not the beginning of the patch. */
  predicate Printable(r: Record) {
    && TAB !in r.added && TAB !in r.deleted
    && LF !in r.added && LF !in r.deleted && LF !in r.rest
    && !(FILE <= r.added)
  }

  function Print(r: Record): Line {
    r.added + [TAB] + (r.deleted + [TAB] + (r.rest + [LF]))
  }

  function PrintAll(records: seq<Record>): seq<byte> {
    if records == [] then [] else Print(records[0]) + PrintAll(records[1..])
  }

  function PrintedLines(records: seq<Record>): seq<Line> {
    if records == [] then [] else [Print(records[0])] + PrintedLines(records[1..])
  }

  /** Both columns are a dash. */
  predicate Dashed(r: Record) {
    r.added == [45] && r.deleted == [45]
  }

  lemma RecordIsALine(r: Record)
    requires Printable(r)
    ensures IsLine(Print(r)) && EndsLine(Print(r)) && !IsFile(Print(r))
  {
    var l := Print(r);
    var front := r.added + [TAB] + (r.deleted + [TAB] + r.rest);
    assert l == front + [LF];
    assert LF !in front;
    assert forall i | 0 <= i < |l| - 1 :: l[i] == front[i];
    if |r.added| < |FILE| {
      assert l[|r.added|] == TAB;
      assert FILE[|r.added|] != TAB;
    } else {
      assert l[..|FILE|] == r.added[..|FILE|];
    }
  }

  lemma RecordIsBinaryIff(r: Record)
    requires Printable(r)
    ensures IsBinaryRecord(Print(r)) <==> Dashed(r)
  {
    SplitFirst(r.added, TAB, r.deleted + [TAB] + (r.rest + [LF]));
    SplitFirst(r.deleted, TAB, r.rest + [LF]);
  }

  lemma {:induction false} LinesOfRecords(records: seq<Record>, patch: seq<byte>)
    requires forall r <- records :: Printable(r)
    ensures Lines(PrintAll(records) + patch) == PrintedLines(records) + Lines(patch)
  {
    if records == [] {
      assert PrintAll(records) + patch == patch;
      assert [] + Lines(patch) == Lines(patch);
    } else {
      assert Printable(records[0]);
      RecordIsALine(records[0]);
      LinesOfRecords(records[1..], patch);
      Assoc(Print(records[0]), PrintAll(records[1..]), patch);
      LinesAfterLine(Print(records[0]), PrintAll(records[1..]) + patch);
      Assoc([Print(records[0])], PrintedLines(records[1..]), Lines(patch));
    }
  }

  lemma {:induction false} CountedOfRecords(records: seq<Record>, ls: seq<Line>)
    requires (forall r <- records :: Printable(r)) && (ls == [] || IsFile(ls[0]))
    ensures CountedLines(PrintedLines(records) + ls) == PrintedLines(records)
  {
    if records == [] {
      assert PrintedLines(records) + ls == ls;
    } else {
      assert Printable(records[0]);
      RecordIsALine(records[0]);
      CountedOfRecords(records[1..], ls);
      Assoc([Print(records[0])], PrintedLines(records[1..]), ls);
      CountedFirst(Print(records[0]), PrintedLines(records[1..]) + ls);
    }
  }

  lemma CountedFirst(l: Line, rest: seq<Line>)
    requires !IsFile(l)
    ensures CountedLines([l] + rest) == [l] + CountedLines(rest)
  {
    assert ([l] + rest)[1..] == rest;
  }

  lemma {:induction false} HoldsBinaryIff(records: seq<Record>)
    requires forall r <- records :: Printable(r)
    ensures HoldsBinary(PrintedLines(records)) <==> exists r <- records :: Dashed(r)
  {
    if records != [] {
      var r, rest := records[0], records[1..];
      assert Printable(r);
      RecordIsBinaryIff(r);
      HoldsBinaryIff(rest);
      assert forall l | l in PrintedLines(records) :: l == Print(r) || l in PrintedLines(rest);
      assert Print(r) in PrintedLines(records) && forall l | l in PrintedLines(rest) :: l in PrintedLines(records);
      assert forall x | x in records :: x == r || x in rest;
    }
  }

  /**
   A diff is binary exactly when one of the records printed before its patch has a dash for each of
   its counts: nothing in the patch, and no other record, makes it so.
   */
  lemma BinaryIffDashed(records: seq<Record>, patch: seq<byte>)
    requires forall r <- records :: Printable(r)
    requires patch == [] || FILE <= patch
    ensures Parsed(PrintAll(records) + patch).binary <==> exists r <- records :: r.added == [45] && r.deleted == [45]
  {
    LinesOfRecords(records, patch);
    PatchLinesFirst(patch);
    CountedOfRecords(records, Lines(patch));
    HoldsBinaryIff(records);
    BinaryIffCounted(Lines(PrintAll(records) + patch));
    assert forall r <- records :: Dashed(r) <==> r.added == [45] && r.deleted == [45];
  }

  lemma PatchLinesFirst(patch: seq<byte>)
    requires patch == [] || FILE <= patch
    ensures Lines(patch) == [] || IsFile(Lines(patch)[0])
  {
    if patch != [] {
      LinesConcat(patch);
      LinesAreLines(patch);
      var ls := Lines(patch);
      AreLinesSlice(ls, 1, |ls|);
      assert ls[0] + Concat(ls[1..]) == patch;
      FileWithinLine(ls[0], Concat(ls[1..]));
    }
  }

  /** The record is a dash, a tab and a dash, with nothing after them or another tab. */
  predicate TwoDashes(l: Line) {
    l == [45, 9, 45] || [45, 9, 45, 9] <= l
  }

  /** Splitting takes off the front as far as the first separator, and splits what follows it. */
  lemma {:induction false} SplitOff(s: seq<byte>, sep: byte)
    ensures var p := Split(s, sep)[0];
            && p <= s && (|p| < |s| ==> s[|p|] == sep)
            && Split(s, sep)[1..] == if |p| < |s| then Split(s[|p| + 1..], sep) else []
  {
    if s != [] && s[0] != sep {
      SplitOff(s[1..], sep);
      var p := Split(s[1..], sep)[0];
      assert s == [s[0]] + s[1..];
      assert |p| < |s[1..]| ==> s[1..][|p| + 1..] == s[|p| + 2..];
    }
  }

  lemma BinaryIffTwoDashes(l: Line)
    ensures IsBinaryRecord(l) <==> TwoDashes(l)
  {
    SplitOff(l, TAB);
    if [45, 9] <= l {
      SplitOff(l[2..], TAB);
      FirstIsDash(l);
      FirstIsDash(l[2..]);
      assert [45, 9, 45, 9] <= l <==> [45, 9] <= l[2..];
      assert l == [45, 9, 45] <==> l[2..] == [45];
    } else {
      FirstIsDash(l);
    }
  }

  lemma FirstIsDash(l: seq<byte>)
    ensures Split(l, TAB)[0] == [45] <==> l == [45] || [45, 9] <= l
  {
    SplitOff(l, TAB);
    if l == [45] {
      SplitWhole(l, TAB);
    } else if [45, 9] <= l {
      SplitFirst([45], TAB, l[2..]);
      assert l == [45] + [TAB] + l[2..];
    }
  }

  /** Of any output, the diff is binary exactly when some line before its patch is such a record. */
  lemma BinaryIffLine(output: seq<byte>)
    ensures Parsed(output).binary <==> exists l <- CountedLines(Lines(output)) :: TwoDashes(l)
  {
    BinaryIffCounted(Lines(output));
    forall l | l in CountedLines(Lines(output)) ensures IsBinaryRecord(l) <==> TwoDashes(l) {
      BinaryIffTwoDashes(l);
    }
  }

  /** What version control prints for one path: two counts, or that it keeps bytes rather than lines. */
  datatype Entry = Counted(added: nat, deleted: nat, path: seq<byte>) | Kept(path: seq<byte>)

  function RecordOf(e: Entry): Record {
    match e
    case Counted(a, d, path) => Record(Digits(a), Digits(d), path)
    case Kept(path) => Record([45], [45], path)
  }

  function RecordsOf(entries: seq<Entry>): seq<Record> {
    seq(|entries|, i requires 0 <= i < |entries| => RecordOf(entries[i]))
  }

  /** So of what version control prints, a diff is binary exactly when a path is kept as bytes: no counts make it so. */
  lemma BinaryIffKept(entries: seq<Entry>, patch: seq<byte>)
    requires forall e <- entries :: LF !in e.path
    requires patch == [] || FILE <= patch
    ensures Parsed(PrintAll(RecordsOf(entries)) + patch).binary <==> exists e <- entries :: e.Kept?
  {
    var records := RecordsOf(entries);
    forall i | 0 <= i < |entries|
      ensures Printable(records[i]) && (Dashed(records[i]) <==> entries[i].Kept?)
    {
      assert entries[i] in entries;
      EntryIsPrintable(entries[i]);
    }
    BinaryIffDashed(records, patch);
    if r :| r in records && Dashed(r) {
      var i :| 0 <= i < |records| && records[i] == r;
      assert entries[i] in entries;
    }
    if e :| e in entries && e.Kept? {
      var i :| 0 <= i < |entries| && entries[i] == e;
      assert records[i] in records;
    }
  }

  lemma EntryIsPrintable(e: Entry)
    requires LF !in e.path
    ensures Printable(RecordOf(e)) && (Dashed(RecordOf(e)) <==> e.Kept?)
  {
    if e.Counted? {
      assert Digits(e.added)[0] in Digits(e.added) && Digits(e.deleted)[0] in Digits(e.deleted);
      assert FILE[0] == 100;
    }
  }
}
