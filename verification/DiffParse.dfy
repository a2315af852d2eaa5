/**
 A specification and a loop for the splitter of counted, unified diffs: a header, then hunks with a range each.

 The parser is three layers, each of which has the printer that undoes it: bytes into lines,
 lines into a header and blocks, blocks into groups that each state one range.
 */
module DiffParse {
  import opened Bytes
  import opened Decimal
  import opened Utf8
  import opened Wrappers

  type Line = seq<byte>

  /** `@@ ` */
  const HUNK: seq<byte> := [64, 64, 32]

  /** `diff --git ` */
  const FILE: seq<byte> := [100, 105, 102, 102, 32, 45, 45, 103, 105, 116, 32]

  const OLD_SIDE: byte := 45
  const NEW_SIDE: byte := 43
  const COMMA: byte := 44
  const BINARY_COUNT: seq<byte> := [45]
  const IMPLIED_COUNT: nat := 1

  datatype HunkRange = HunkRange(oldStart: nat, oldLines: nat, newStart: nat, newLines: nat)

  datatype RawHunk = RawHunk(range: HunkRange, text: seq<byte>)

  datatype RawFileDiff = RawFileDiff(binary: bool, header: seq<byte>, hunks: seq<RawHunk>)

  // ---------------------------------------------------------------- one line

  /** A start and a count from `-s,n` or `-s`, where the absent count is one; nothing from anything else. */
  function Side(field: seq<byte>, marker: byte): Option<(nat, nat)> {
    if field == [] || field[0] != marker then None
    else
      var parts := Split(field[1..], COMMA);
      var start :- ParseUnsigned(parts[0], U32_MAX);
      if |parts| == 1 then Some((start, IMPLIED_COUNT))
      else
        var lines :- ParseUnsigned(parts[1], U32_MAX);
        Some((start, lines))
  }

  /** The two sides of an `@@` line as a range; nothing when either is unreadable or the line is not UTF-8. */
  function ParseHunkRange(line: Line): Option<HunkRange> {
    if !Valid(line) || !(HUNK <= line) then None
    else
      var sides := Split(line[|HUNK|..], SPACE);
      var oldSide :- Side(sides[0], OLD_SIDE);
      if |sides| == 1 then None
      else
        var newSide :- Side(sides[1], NEW_SIDE);
        Some(HunkRange(oldSide.0, oldSide.1, newSide.0, newSide.1))
  }

  function LineRange(line: Line): Option<HunkRange> {
    if HUNK <= line then ParseHunkRange(line) else None
  }

  predicate IsRanged(line: Line) { LineRange(line).Some? }

  predicate IsFile(line: Line) { FILE <= line }

  lemma FileIsNotRanged(line: Line)
    requires IsFile(line)
    ensures !(HUNK <= line)
  {
    assert line[0] == FILE[0] != HUNK[0];
  }

  /** Both of a counted record's counts are a dash. */
  predicate IsBinaryRecord(record: Line) {
    var counts := Split(record, TAB);
    counts[0] == BINARY_COUNT && |counts| > 1 && counts[1] == BINARY_COUNT
  }

  /** A side as version control prints it, with its count or without. */
  function PrintSide(marker: byte, start: nat, lines: nat, short: bool): seq<byte>
    requires short ==> lines == IMPLIED_COUNT
  {
    [marker] + Digits(start) + (if short then [] else [COMMA] + Digits(lines))
  }

  function PrintHunkLine(r: HunkRange, shortOld: bool, shortNew: bool, rest: seq<byte>): Line
    requires shortOld ==> r.oldLines == IMPLIED_COUNT
    requires shortNew ==> r.newLines == IMPLIED_COUNT
  {
    HUNK + PrintSide(OLD_SIDE, r.oldStart, r.oldLines, shortOld) + [SPACE]
    + PrintSide(NEW_SIDE, r.newStart, r.newLines, shortNew) + [SPACE] + rest
  }

  predicate FitsU32(r: HunkRange) {
    r.oldStart <= U32_MAX && r.oldLines <= U32_MAX && r.newStart <= U32_MAX && r.newLines <= U32_MAX
  }

  lemma SideOf(marker: byte, a: seq<byte>, b: seq<byte>)
    requires AllDigits(a) && AllDigits(b)
    ensures Side([marker] + a, marker)
            == match ParseUnsigned(a, U32_MAX) case Some(n) => Some((n, IMPLIED_COUNT)) case None => None
    ensures Side([marker] + a + [COMMA] + b, marker)
            == match (ParseUnsigned(a, U32_MAX), ParseUnsigned(b, U32_MAX))
               case (Some(n), Some(m)) => Some((n, m))
               case _ => None
  {
    assert COMMA !in a && COMMA !in b;
    assert ([marker] + a)[1..] == a;
    SplitWhole(a, COMMA);
    assert ([marker] + a + [COMMA] + b)[1..] == a + [COMMA] + b;
    SplitFirst(a, COMMA, b);
    SplitWhole(b, COMMA);
  }

  lemma SideRoundTrip(marker: byte, start: nat, lines: nat, short: bool)
    requires short ==> lines == IMPLIED_COUNT
    ensures Side(PrintSide(marker, start, lines, short), marker)
            == if start <= U32_MAX && lines <= U32_MAX then Some((start, lines)) else None
  {
    UnsignedRoundTrip(start, U32_MAX);
    UnsignedRoundTrip(lines, U32_MAX);
    SideOf(marker, Digits(start), Digits(lines));
    assert [marker] + Digits(start) + [] == [marker] + Digits(start);
    Assoc([marker] + Digits(start), [COMMA], Digits(lines));
  }

  lemma SideIsField(marker: byte, start: nat, lines: nat, short: bool)
    requires short ==> lines == IMPLIED_COUNT
    requires IsAscii(marker) && marker != SPACE
    ensures IsField(PrintSide(marker, start, lines, short))
  {
    forall b | b in PrintSide(marker, start, lines, short) ensures IsAscii(b) && b != SPACE {
      assert b == marker || b in Digits(start) || b == COMMA || b in Digits(lines);
    }
  }

  /**
   A hunk's line states the range it was printed with, whatever text follows it and whether or
   not a one-line side leaves out its count; it states none when a number is past 32 bits.
   */
  lemma HunkLineRoundTrip(r: HunkRange, shortOld: bool, shortNew: bool, rest: seq<byte>)
    requires shortOld ==> r.oldLines == IMPLIED_COUNT
    requires shortNew ==> r.newLines == IMPLIED_COUNT
    ensures LineRange(PrintHunkLine(r, shortOld, shortNew, rest))
            == if Valid(rest) && FitsU32(r) then Some(r) else None
  {
    SideRoundTrip(OLD_SIDE, r.oldStart, r.oldLines, shortOld);
    SideRoundTrip(NEW_SIDE, r.newStart, r.newLines, shortNew);
    SideIsField(OLD_SIDE, r.oldStart, r.oldLines, shortOld);
    SideIsField(NEW_SIDE, r.newStart, r.newLines, shortNew);
    FieldsOfHunkLine(PrintSide(OLD_SIDE, r.oldStart, r.oldLines, shortOld),
                     PrintSide(NEW_SIDE, r.newStart, r.newLines, shortNew), rest);
  }

  predicate IsField(s: seq<byte>) {
    forall b <- s :: IsAscii(b) && b != SPACE
  }

  lemma FieldsOfHunkLine(a: seq<byte>, b: seq<byte>, rest: seq<byte>)
    requires IsField(a) && IsField(b)
    ensures var line := HUNK + a + [SPACE] + b + [SPACE] + rest;
            && HUNK <= line
            && (Valid(line) <==> Valid(rest))
            && Split(line[|HUNK|..], SPACE) == [a, b] + Split(rest, SPACE)
  {
    var line := HUNK + a + [SPACE] + b + [SPACE] + rest;
    assert line[|HUNK|..] == a + [SPACE] + (b + [SPACE] + rest);
    SplitFirst(a, SPACE, b + [SPACE] + rest);
    SplitFirst(b, SPACE, rest);
    assert [a] + ([b] + Split(rest, SPACE)) == [a, b] + Split(rest, SPACE);
    ValidAfterFields(a, b, rest);
  }

  lemma ValidAfterFields(a: seq<byte>, b: seq<byte>, rest: seq<byte>)
    requires IsField(a) && IsField(b)
    ensures Valid(HUNK + a + [SPACE] + b + [SPACE] + rest) <==> Valid(rest)
  {
    var front := HUNK + a + [SPACE] + b + [SPACE];
    forall x | x in front ensures IsAscii(x) {
      assert x in HUNK || x in a || x == SPACE || x in b;
    }
    AsciiIsValid(front);
    LossyAfterAscii(front, rest);
  }

  // ---------------------------------------------------------------- lines into blocks

  /** A stretch of the patch that opens on a hunk, or on a later path's first line. */
  datatype Block = Block(range: Option<HunkRange>, lines: seq<Line>)

  datatype State = State(binary: bool, inPatch: bool, header: seq<Line>, blocks: seq<Block>)

  const START := State(false, false, [], [])

  function Extend(blocks: seq<Block>, line: Line): seq<Block>
    requires blocks != []
  {
    var last := blocks[|blocks| - 1];
    blocks[..|blocks| - 1] + [last.(lines := last.lines + [line])]
  }

  function Step(st: State, line: Line): State {
    if !st.inPatch && !IsFile(line) then
      st.(binary := st.binary || IsBinaryRecord(line))
    else
      var range := LineRange(line);
      var opens := range.Some? || (IsFile(line) && st.blocks != []);
      var entered := st.(inPatch := true);
      if opens then entered.(blocks := st.blocks + [Block(range, [line])])
      else if st.blocks != [] then entered.(blocks := Extend(st.blocks, line))
      else entered.(header := st.header + [line])
  }

  function Scanned(lines: seq<Line>): State
    decreases |lines|
  {
    if lines == [] then START else Step(Scanned(lines[..|lines| - 1]), lines[|lines| - 1])
  }

  function LinesIn(blocks: seq<Block>): seq<Line> {
    if blocks == [] then [] else blocks[0].lines + LinesIn(blocks[1..])
  }

  lemma {:induction false} LinesInAppend(a: seq<Block>, b: seq<Block>)
    ensures LinesIn(a + b) == LinesIn(a) + LinesIn(b)
  {
    if a == [] {
      assert a + b == b;
    } else {
      assert (a + b)[1..] == a[1..] + b;
      LinesInAppend(a[1..], b);
      Assoc(a[0].lines, LinesIn(a[1..]), LinesIn(b));
    }
  }

  lemma LinesInSnoc(a: seq<Block>, b: Block)
    ensures LinesIn(a + [b]) == LinesIn(a) + b.lines
  {
    LinesInAppend(a, [b]);
    assert LinesIn([b]) == b.lines + LinesIn([]);
  }

  predicate HeaderShape(header: seq<Line>) {
    header != [] && IsFile(header[0]) && forall i | 1 <= i < |header| :: !IsRanged(header[i])
  }

  predicate BlockShape(b: Block) {
    && b.lines != []
    && b.range == LineRange(b.lines[0])
    && (b.range.None? ==> IsFile(b.lines[0]))
    && forall i | 1 <= i < |b.lines| :: !IsRanged(b.lines[i]) && !IsFile(b.lines[i])
  }

  predicate BlocksShape(blocks: seq<Block>) {
    && (forall b <- blocks :: BlockShape(b))
    && (blocks != [] ==> blocks[0].range.Some?)
  }

  predicate Shape(st: State) {
    if st.inPatch then HeaderShape(st.header) && BlocksShape(st.blocks)
    else st.header == [] && st.blocks == []
  }

  /** The lines from the first path's block on. */
  function PatchLines(lines: seq<Line>): seq<Line> {
    if lines == [] || IsFile(lines[0]) then lines else PatchLines(lines[1..])
  }

  lemma {:induction false} PatchLinesSnoc(lines: seq<Line>, line: Line)
    ensures PatchLines(lines + [line])
            == if PatchLines(lines) != [] || IsFile(line) then PatchLines(lines) + [line] else []
  {
    if lines == [] {
      assert lines + [line] == [line];
      assert [line][1..] == [];
    } else {
      assert (lines + [line])[1..] == lines[1..] + [line];
      PatchLinesSnoc(lines[1..], line);
    }
  }

  predicate Opens(st: State, line: Line) {
    IsRanged(line) || (IsFile(line) && st.blocks != [])
  }

  lemma ExtendSnoc(front: seq<Block>, b: Block, line: Line)
    ensures Extend(front + [b], line) == front + [Block(b.range, b.lines + [line])]
  {
    var blocks := front + [b];
    assert blocks[..|blocks| - 1] == front;
  }

  lemma OpeningKeepsShape(st: State, line: Line)
    requires Shape(st) && (st.inPatch || IsFile(line)) && Opens(st, line)
    ensures Shape(Step(st, line))
    ensures Step(st, line).header + LinesIn(Step(st, line).blocks) == st.header + LinesIn(st.blocks) + [line]
  {
    if IsFile(line) {
      FileIsNotRanged(line);
    }
    LinesInSnoc(st.blocks, Block(LineRange(line), [line]));
  }

  lemma ExtendingKeepsShape(st: State, line: Line)
    requires Shape(st) && st.blocks != [] && !IsRanged(line) && !IsFile(line)
    ensures BlocksShape(Extend(st.blocks, line))
    ensures LinesIn(Extend(st.blocks, line)) == LinesIn(st.blocks) + [line]
  {
    var front, last := st.blocks[..|st.blocks| - 1], st.blocks[|st.blocks| - 1];
    assert last in st.blocks && st.blocks == front + [last];
    ExtendSnoc(front, last, line);
    LinesInSnoc(front, last);
    LinesInSnoc(front, Block(last.range, last.lines + [line]));
    Assoc(LinesIn(front), last.lines, [line]);
    assert front != [] ==> front[0] == st.blocks[0];
  }

  lemma StepKeepsShape(st: State, line: Line)
    requires Shape(st)
    ensures Shape(Step(st, line))
    ensures Step(st, line).inPatch <==> st.inPatch || IsFile(line)
    ensures Step(st, line).inPatch ==>
              Step(st, line).header + LinesIn(Step(st, line).blocks)
              == st.header + LinesIn(st.blocks) + [line]
  {
    if st.inPatch || IsFile(line) {
      if Opens(st, line) {
        OpeningKeepsShape(st, line);
      } else if st.blocks != [] {
        ExtendingKeepsShape(st, line);
        Assoc(st.header, LinesIn(st.blocks), [line]);
      } else {
        assert LinesIn([]) == [];
        assert st.header + [] == st.header;
      }
    }
  }

  /** What scanning keeps: every line of the patch, in order, cut where a hunk or a later path begins. */
  lemma {:induction false} ScannedShape(lines: seq<Line>)
    ensures Shape(Scanned(lines))
    ensures Scanned(lines).inPatch <==> PatchLines(lines) != []
    ensures Scanned(lines).header + LinesIn(Scanned(lines).blocks) == PatchLines(lines)
    decreases |lines|
  {
    if lines != [] {
      var front, line := lines[..|lines| - 1], lines[|lines| - 1];
      ScannedShape(front);
      assert lines == front + [line];
      PatchLinesSnoc(front, line);
      StepKeepsShape(Scanned(front), line);
    }
  }

  lemma {:induction false} PatchLinesIsSuffix(lines: seq<Line>)
    ensures |PatchLines(lines)| <= |lines|
    ensures PatchLines(lines) == lines[|lines| - |PatchLines(lines)|..]
    ensures PatchLines(lines) != [] ==> IsFile(PatchLines(lines)[0])
    ensures forall i | 0 <= i < |lines| - |PatchLines(lines)| :: !IsFile(lines[i])
  {
    if lines == [] || IsFile(lines[0]) {
    } else {
      PatchLinesIsSuffix(lines[1..]);
      var p := PatchLines(lines[1..]);
      forall i | 0 <= i < |lines| - |p| ensures !IsFile(lines[i]) {
        if i > 0 { assert lines[i] == lines[1..][i - 1]; }
      }
    }
  }

  /** The lines before the patch. */
  function CountedLines(lines: seq<Line>): seq<Line> {
    if lines == [] || IsFile(lines[0]) then [] else [lines[0]] + CountedLines(lines[1..])
  }

  lemma {:induction false} CountedLinesSnoc(lines: seq<Line>, line: Line)
    ensures CountedLines(lines + [line])
            == if PatchLines(lines) != [] || IsFile(line) then CountedLines(lines) else CountedLines(lines) + [line]
  {
    if lines == [] {
      assert lines + [line] == [line];
      assert [line][1..] == [];
    } else {
      assert (lines + [line])[1..] == lines[1..] + [line];
      CountedLinesSnoc(lines[1..], line);
    }
  }

  predicate HoldsBinary(records: seq<Line>) {
    exists l <- records :: IsBinaryRecord(l)
  }

  lemma HoldsBinarySnoc(records: seq<Line>, last: Line)
    ensures HoldsBinary(records + [last]) <==> HoldsBinary(records) || IsBinaryRecord(last)
  {
    assert last in records + [last] && forall l <- records :: l in records + [last];
  }

  /** A path is binary exactly when a counted record before the patch says so. */
  lemma {:induction false} BinaryIffCounted(lines: seq<Line>)
    ensures Scanned(lines).binary <==> HoldsBinary(CountedLines(lines))
    decreases |lines|
  {
    if lines != [] {
      var front, line := lines[..|lines| - 1], lines[|lines| - 1];
      BinaryIffCounted(front);
      ScannedShape(front);
      assert lines == front + [line];
      CountedLinesSnoc(front, line);
      HoldsBinarySnoc(CountedLines(front), line);
    }
  }

  /** Scanning takes back what laying a header out put together. */
  lemma {:induction false} RescanHeader(header: seq<Line>)
    requires HeaderShape(header)
    ensures Scanned(header) == State(false, true, header, [])
    decreases |header|
  {
    var front, line := header[..|header| - 1], header[|header| - 1];
    assert front + [line] == header;
    if front == [] {
      FileIsNotRanged(line);
    } else {
      RescanHeader(front);
    }
  }

  lemma ScannedSnoc(lines: seq<Line>, line: Line)
    ensures Scanned(lines + [line]) == Step(Scanned(lines), line)
  {
    assert (lines + [line])[..|lines|] == lines;
  }

  /** Scanning takes back what laying a header and its blocks out put together. */
  lemma {:induction false} Rescan(header: seq<Line>, blocks: seq<Block>)
    requires HeaderShape(header) && BlocksShape(blocks)
    ensures Scanned(header + LinesIn(blocks)) == State(false, true, header, blocks)
    decreases |blocks|, if blocks == [] then 0 else |blocks[|blocks| - 1].lines|
  {
    if blocks == [] {
      assert header + LinesIn(blocks) == header;
      RescanHeader(header);
    } else {
      var front, last := blocks[..|blocks| - 1], blocks[|blocks| - 1];
      assert last in blocks && blocks == front + [last];
      RescanBlock(header, front, last);
    }
  }

  lemma {:induction false} RescanBlock(header: seq<Line>, front: seq<Block>, last: Block)
    requires HeaderShape(header) && BlocksShape(front + [last])
    ensures Scanned(header + LinesIn(front + [last])) == State(false, true, header, front + [last])
    decreases |front| + 1, |last.lines|, 0
  {
    assert last in front + [last];
    var rest, line := last.lines[..|last.lines| - 1], last.lines[|last.lines| - 1];
    assert rest + [line] == last.lines;
    LinesInSnoc(front, last);
    if rest == [] {
      assert BlocksShape(front) by {
        forall b | b in front ensures BlockShape(b) { assert b in front + [last]; }
        assert front != [] ==> front[0] == (front + [last])[0];
      }
      Rescan(header, front);
      Assoc(header, LinesIn(front), [line]);
      ScannedSnoc(header + LinesIn(front), line);
      assert last == Block(LineRange(line), [line]);
    } else {
      var shorter := Block(last.range, rest);
      ShorterKeepsShape(front, last);
      RescanBlock(header, front, shorter);
      LinesInSnoc(front, shorter);
      Assoc(LinesIn(front), rest, [line]);
      Assoc(header, LinesIn(front + [shorter]), [line]);
      ScannedSnoc(header + LinesIn(front + [shorter]), line);
      ExtendSnoc(front, shorter, line);
    }
  }

  lemma ShorterKeepsShape(front: seq<Block>, last: Block)
    requires BlocksShape(front + [last]) && |last.lines| > 1
    ensures BlocksShape(front + [Block(last.range, last.lines[..|last.lines| - 1])])
  {
    var shorter := Block(last.range, last.lines[..|last.lines| - 1]);
    assert last in front + [last];
    forall b | b in front + [shorter] ensures BlockShape(b) {
      if b in front { assert b in front + [last]; }
    }
    assert front != [] ==> front[0] == (front + [last])[0] == (front + [shorter])[0];
    assert front == [] ==> last == (front + [last])[0];
  }

  // ---------------------------------------------------------------- blocks into groups

  /** Rangeless blocks carried with the ranged one they precede, and those left over at the end. */
  datatype Grouping = Grouping(groups: seq<seq<Block>>, pending: seq<Block>)

  function Group(blocks: seq<Block>): Grouping
    decreases |blocks|
  {
    if blocks == [] then Grouping([], [])
    else
      var g := Group(blocks[..|blocks| - 1]);
      var last := blocks[|blocks| - 1];
      if last.range.Some? then Grouping(g.groups + [g.pending + [last]], [])
      else Grouping(g.groups, g.pending + [last])
  }

  predicate Rangeless(blocks: seq<Block>) {
    forall b <- blocks :: b.range.None?
  }

  predicate GroupShape(g: seq<Block>) {
    g != [] && g[|g| - 1].range.Some? && Rangeless(g[..|g| - 1])
  }

  predicate GroupingShape(g: Grouping) {
    (forall x <- g.groups :: GroupShape(x)) && Rangeless(g.pending)
  }

  lemma {:induction false} GroupIsShaped(blocks: seq<Block>)
    ensures GroupingShape(Group(blocks))
    ensures Concat(Group(blocks).groups) + Group(blocks).pending == blocks
    ensures blocks != [] && blocks[0].range.Some? ==> Group(blocks).groups != []
    decreases |blocks|
  {
    if blocks != [] {
      var front, last := blocks[..|blocks| - 1], blocks[|blocks| - 1];
      GroupIsShaped(front);
      var g := Group(front);
      assert blocks == front + [last];
      if last.range.Some? {
        var x := g.pending + [last];
        assert x[..|x| - 1] == g.pending;
        ConcatSnoc(g.groups, x);
        Assoc(Concat(g.groups), g.pending, [last]);
      } else {
        Assoc(Concat(g.groups), g.pending, [last]);
      }
    }
  }

  lemma GroupNext(front: seq<Block>, last: Block)
    ensures var g := Group(front);
            Group(front + [last])
            == if last.range.Some? then Grouping(g.groups + [g.pending + [last]], [])
               else Grouping(g.groups, g.pending + [last])
  {
    assert (front + [last])[..|front|] == front;
  }

  /** Grouping takes back what laying groups out in order put together. */
  lemma {:induction false} Regroup(g: Grouping)
    requires GroupingShape(g)
    ensures Group(Concat(g.groups) + g.pending) == g
    decreases |g.groups|, |g.pending|
  {
    if g.pending != [] {
      var front, last := g.pending[..|g.pending| - 1], g.pending[|g.pending| - 1];
      assert last in g.pending && front + [last] == g.pending;
      Assoc(Concat(g.groups), front, [last]);
      Regroup(Grouping(g.groups, front));
      GroupNext(Concat(g.groups) + front, last);
    } else if g.groups != [] {
      var gs, x := g.groups[..|g.groups| - 1], g.groups[|g.groups| - 1];
      assert x in g.groups && gs + [x] == g.groups;
      ConcatSnoc(gs, x);
      var front, last := x[..|x| - 1], x[|x| - 1];
      assert front + [last] == x;
      Assoc(Concat(gs), front, [last]);
      assert Concat(g.groups) + [] == Concat(g.groups);
      Regroup(Grouping(gs, front));
      GroupNext(Concat(gs) + front, last);
    }
  }

  // ---------------------------------------------------------------- the whole reader

  function BytesIn(blocks: seq<Block>): seq<byte> {
    Concat(LinesIn(blocks))
  }

  function RangeOf(g: seq<Block>): HunkRange
    requires GroupShape(g)
  {
    g[|g| - 1].range.value
  }

  function BareHunks(groups: seq<seq<Block>>): seq<RawHunk>
    requires forall g <- groups :: GroupShape(g)
  {
    seq(|groups|, i requires 0 <= i < |groups| => RawHunk(RangeOf(groups[i]), Lossy(BytesIn(groups[i]))))
  }

  /** The hunks of a grouping, the last of them carrying whatever block follows it. */
  function RawHunks(g: Grouping): seq<RawHunk>
    requires GroupingShape(g)
  {
    var hunks := BareHunks(g.groups);
    if hunks == [] then []
    else
      var last := hunks[|hunks| - 1];
      hunks[..|hunks| - 1] + [last.(text := last.text + Lossy(BytesIn(g.pending)))]
  }

  function Rendered(binary: bool, header: seq<Line>, g: Grouping): RawFileDiff
    requires GroupingShape(g)
  {
    RawFileDiff(binary, Lossy(Concat(header)), RawHunks(g))
  }

  function Parsed(output: seq<byte>): RawFileDiff {
    var st := Scanned(Lines(output));
    GroupIsShaped(st.blocks);
    Rendered(st.binary, st.header, Group(st.blocks))
  }

  datatype Segment = Segment(range: Option<HunkRange>, bytes: seq<byte>)

  ghost predicate Match(segments: seq<Segment>, blocks: seq<Block>) {
    && |segments| == |blocks|
    && forall i | 0 <= i < |segments| :: segments[i] == Segment(blocks[i].range, Concat(blocks[i].lines))
  }

  lemma MatchExtended(segments: seq<Segment>, blocks: seq<Block>, line: Line)
    requires Match(segments, blocks) && blocks != []
    ensures var last := segments[|segments| - 1];
            Match(segments[|segments| - 1 := last.(bytes := last.bytes + line)], Extend(blocks, line))
  {
    ConcatSnoc(blocks[|blocks| - 1].lines, line);
  }

  lemma MatchOpened(segments: seq<Segment>, blocks: seq<Block>, range: Option<HunkRange>, line: Line)
    requires Match(segments, blocks)
    ensures Match(segments + [Segment(range, line)], blocks + [Block(range, [line])])
  {
    ConcatOne(line);
  }

  lemma EntersFirst(lines: seq<Line>)
    ensures var st := Scanned(lines); st.blocks != [] ==> st.inPatch
  {
    ScannedShape(lines);
  }

  /** What the loop has made of the lines so far, against what scanning makes of them. */
  ghost predicate Tracks(binary: bool, inPatch: bool, header: seq<byte>, segments: seq<Segment>, st: State) {
    binary == st.binary && inPatch == st.inPatch && header == Concat(st.header) && Match(segments, st.blocks)
  }

  lemma TracksNext(
      binary: bool, inPatch: bool, header: seq<byte>, segments: seq<Segment>, st: State, line: Line)
    requires Tracks(binary, inPatch, header, segments, st) && (st.blocks != [] ==> st.inPatch)
    ensures var next := Step(st, line);
            var range := LineRange(line);
            if !inPatch && !IsFile(line) then
              Tracks(binary || IsBinaryRecord(line), inPatch, header, segments, next)
            else if range.Some? || (IsFile(line) && segments != []) then
              Tracks(binary, true, header, segments + [Segment(range, line)], next)
            else if segments != [] then
              var last := segments[|segments| - 1];
              Tracks(binary, true, header, segments[|segments| - 1 := last.(bytes := last.bytes + line)], next)
            else
              Tracks(binary, true, header + line, segments, next)
  {
    MatchOpened(segments, st.blocks, LineRange(line), line);
    ConcatSnoc(st.header, line);
    if st.blocks != [] {
      MatchExtended(segments, st.blocks, line);
    }
  }

  method Parse(output: seq<byte>) returns (diff: RawFileDiff)
    ensures diff == Parsed(output)
  {
    var binary := false;
    var header: seq<byte> := [];
    var segments: seq<Segment> := [];
    var inPatch := false;
    var lines := Lines(output);
    for i := 0 to |lines|
      invariant Tracks(binary, inPatch, header, segments, Scanned(lines[..i]))
    {
      var line := lines[i];
      assert lines[..i + 1] == lines[..i] + [line];
      ScannedSnoc(lines[..i], line);
      EntersFirst(lines[..i]);
      TracksNext(binary, inPatch, header, segments, Scanned(lines[..i]), line);
      if !inPatch {
        if !(FILE <= line) {
          binary := binary || IsBinaryRecord(line);
          continue;
        }
        inPatch := true;
      }
      var range := if HUNK <= line then ParseHunkRange(line) else None;
      var opensSegment := range.Some? || (FILE <= line && segments != []);
      if segments != [] && !opensSegment {
        var last := segments[|segments| - 1];
        segments := segments[|segments| - 1 := last.(bytes := last.bytes + line)];
      } else if opensSegment {
        segments := segments + [Segment(range, line)];
      } else {
        header := header + line;
      }
    }
    assert lines[..|lines|] == lines;
    var hunks := Joined(segments, Scanned(lines).blocks);
    diff := RawFileDiff(binary, Lossy(header), hunks);
  }

  /** What joining has made of the segments so far, against how their blocks group. */
  ghost predicate Joins(hunks: seq<RawHunk>, pending: seq<byte>, g: Grouping) {
    GroupingShape(g) && pending == BytesIn(g.pending) && hunks == BareHunks(g.groups)
  }

  lemma JoinsNext(hunks: seq<RawHunk>, pending: seq<byte>, blocks: seq<Block>, last: Block)
    requires Joins(hunks, pending, Group(blocks))
    ensures var carried := pending + Concat(last.lines);
            if last.range.Some? then
              Joins(hunks + [RawHunk(last.range.value, Lossy(carried))], [], Group(blocks + [last]))
            else Joins(hunks, carried, Group(blocks + [last]))
  {
    GroupIsShaped(blocks + [last]);
    assert (blocks + [last])[..|blocks|] == blocks;
    LinesInSnoc(Group(blocks).pending, last);
    ConcatAppend(LinesIn(Group(blocks).pending), last.lines);
  }

  method Joined(segments: seq<Segment>, ghost blocks: seq<Block>) returns (hunks: seq<RawHunk>)
    requires Match(segments, blocks)
    ensures GroupingShape(Group(blocks)) && hunks == RawHunks(Group(blocks))
  {
    hunks := [];
    var pending: seq<byte> := [];
    GroupIsShaped([]);
    for i := 0 to |segments|
      invariant Joins(hunks, pending, Group(blocks[..i]))
    {
      JoinsNext(hunks, pending, blocks[..i], blocks[i]);
      assert blocks[..i + 1] == blocks[..i] + [blocks[i]];
      pending := pending + segments[i].bytes;
      if segments[i].range.Some? {
        hunks := hunks + [RawHunk(segments[i].range.value, Lossy(pending))];
        pending := [];
      }
    }
    assert blocks[..|segments|] == blocks;
    if hunks != [] {
      var last := hunks[|hunks| - 1];
      hunks := hunks[|hunks| - 1 := last.(text := last.text + Lossy(pending))];
    }
  }
}
