/** What the patch splitter keeps: every byte, every range in order, and a patch wherever it is cut. */
module DiffLaws {
  import opened Bytes
  import opened Decimal
  import opened DiffParse
  import opened Utf8
  import opened Wrappers

  function Texts(hunks: seq<RawHunk>): seq<seq<byte>> {
    seq(|hunks|, i requires 0 <= i < |hunks| => hunks[i].text)
  }

  function Ranges(hunks: seq<RawHunk>): seq<HunkRange> {
    seq(|hunks|, i requires 0 <= i < |hunks| => hunks[i].range)
  }

  /** A diff joined back into the patch it was split from. */
  function Text(d: RawFileDiff): seq<byte> {
    d.header + Concat(Texts(d.hunks))
  }

  /** The diff as far as its first `k` hunks. */
  function Cut(d: RawFileDiff, k: nat): RawFileDiff
    requires k <= |d.hunks|
  {
    RawFileDiff(false, d.header, d.hunks[..k])
  }

  function PatchOf(output: seq<byte>): seq<Line> {
    PatchLines(Lines(output))
  }

  // ---------------------------------------------------------------- lossy text, line by line

  function LossyLines(ls: seq<Line>): seq<Line> {
    seq(|ls|, i requires 0 <= i < |ls| => Lossy(ls[i]))
  }

  lemma {:induction false} LossyOfLines(ls: seq<Line>)
    requires AreLines(ls)
    ensures Lossy(Concat(ls)) == Concat(LossyLines(ls))
  {
    if ls != [] {
      AreLinesSlice(ls, 1, |ls|);
      LossyOfLines(ls[1..]);
      assert LossyLines(ls) == [Lossy(ls[0])] + LossyLines(ls[1..]);
      ConcatCons(Lossy(ls[0]), LossyLines(ls[1..]));
      if |ls| > 1 {
        LossyAfterAscii(ls[0], Concat(ls[1..]));
      } else {
        ConcatOne(ls[0]);
      }
    }
  }

  lemma LossyLinesAreLines(ls: seq<Line>)
    requires AreLines(ls)
    ensures AreLines(LossyLines(ls))
  {
    forall i | 0 <= i < |ls|
      ensures IsLine(Lossy(ls[i])) && (i < |ls| - 1 ==> EndsLine(Lossy(ls[i])))
    {
      LossyLine(ls[i]);
    }
  }

  lemma LinesOfLossy(ls: seq<Line>)
    requires AreLines(ls)
    ensures Lines(Lossy(Concat(ls))) == LossyLines(ls)
  {
    LossyOfLines(ls);
    LossyLinesAreLines(ls);
    LinesUnique(LossyLines(ls));
  }

  lemma LossyLinesAppend(a: seq<Line>, b: seq<Line>)
    ensures LossyLines(a + b) == LossyLines(a) + LossyLines(b)
  {
  }

  lemma LossySplit(a: seq<Line>, b: seq<Line>)
    requires AreLines(a + b)
    ensures Lossy(Concat(a + b)) == Lossy(Concat(a)) + Lossy(Concat(b))
  {
    AreLinesSplit(a, b);
    LossyOfLines(a + b);
    LossyOfLines(a);
    LossyOfLines(b);
    LossyLinesAppend(a, b);
    ConcatAppend(LossyLines(a), LossyLines(b));
  }

  lemma LossyLinesTwice(ls: seq<Line>)
    requires AreLines(ls)
    ensures Lossy(Concat(LossyLines(ls))) == Lossy(Concat(ls))
  {
    LossyOfLines(ls);
    LossyTwice(Concat(ls));
  }

  // ---------------------------------------------------------------- nothing is lost

  lemma {:induction false} TextOfGroups(groups: seq<seq<Block>>)
    requires forall g <- groups :: GroupShape(g)
    requires AreLines(LinesIn(Concat(groups)))
    ensures Concat(Texts(BareHunks(groups))) == Lossy(BytesIn(Concat(groups)))
  {
    if groups != [] {
      var first, rest := groups[0], groups[1..];
      BytesOfTwo(first, Concat(rest));
      TextOfGroups(rest);
      BareTextsCons(groups);
      ConcatCons(Lossy(BytesIn(first)), Texts(BareHunks(rest)));
    }
  }

  lemma BytesOfTwo(a: seq<Block>, b: seq<Block>)
    requires AreLines(LinesIn(a + b))
    ensures AreLines(LinesIn(b)) && Lossy(BytesIn(a + b)) == Lossy(BytesIn(a)) + Lossy(BytesIn(b))
  {
    LinesInAppend(a, b);
    LossySplit(LinesIn(a), LinesIn(b));
    AreLinesSplit(LinesIn(a), LinesIn(b));
  }

  lemma BareTextsCons(groups: seq<seq<Block>>)
    requires groups != [] && forall g <- groups :: GroupShape(g)
    ensures Texts(BareHunks(groups)) == [Lossy(BytesIn(groups[0]))] + Texts(BareHunks(groups[1..]))
  {
  }

  lemma NoLoneRangeless(blocks: seq<Block>)
    ensures BlocksShape(blocks) && Rangeless(blocks) ==> blocks == []
  {
    assert blocks != [] ==> blocks[0] in blocks;
  }

  lemma TrailingText(g: Grouping)
    requires GroupingShape(g)
    ensures Concat(Texts(RawHunks(g)))
            == if g.groups == [] then [] else Concat(Texts(BareHunks(g.groups))) + Lossy(BytesIn(g.pending))
    ensures Ranges(RawHunks(g)) == Ranges(BareHunks(g.groups))
  {
    if g.groups != [] {
      LastTextGrows(BareHunks(g.groups), Lossy(BytesIn(g.pending)));
    }
  }

  lemma LastTextGrows(hunks: seq<RawHunk>, tail: seq<byte>)
    requires hunks != []
    ensures var n := |hunks| - 1;
            var grown := hunks[..n] + [hunks[n].(text := hunks[n].text + tail)];
            Concat(Texts(grown)) == Concat(Texts(hunks)) + tail && Ranges(grown) == Ranges(hunks)
  {
    var n := |hunks| - 1;
    var front, last := hunks[..n], hunks[n];
    var grown := front + [last.(text := last.text + tail)];
    assert Texts(hunks) == Texts(front) + [last.text];
    assert Texts(grown) == Texts(front) + [last.text + tail];
    ConcatSnoc(Texts(front), last.text);
    ConcatSnoc(Texts(front), last.text + tail);
    Assoc(Concat(Texts(front)), last.text, tail);
  }

  /** The text of a grouping is the text of its lines: the trailing block is not dropped. */
  lemma TextOfGrouping(g: Grouping)
    requires GroupingShape(g)
    requires BlocksShape(Concat(g.groups) + g.pending)
    requires AreLines(LinesIn(Concat(g.groups) + g.pending))
    ensures Concat(Texts(RawHunks(g))) == Lossy(BytesIn(Concat(g.groups) + g.pending))
  {
    var front := Concat(g.groups);
    LinesInAppend(front, g.pending);
    LossySplit(LinesIn(front), LinesIn(g.pending));
    AreLinesSplit(LinesIn(front), LinesIn(g.pending));
    TextOfGroups(g.groups);
    TrailingText(g);
    if g.groups == [] {
      assert front == [] && front + g.pending == g.pending;
      NoLoneRangeless(g.pending);
    }
  }

  lemma TextOfRendered(binary: bool, header: seq<Line>, g: Grouping)
    requires GroupingShape(g)
    requires BlocksShape(Concat(g.groups) + g.pending)
    requires AreLines(header + LinesIn(Concat(g.groups) + g.pending))
    ensures Text(Rendered(binary, header, g)) == Lossy(Concat(header + LinesIn(Concat(g.groups) + g.pending)))
  {
    var body := LinesIn(Concat(g.groups) + g.pending);
    LossySplit(header, body);
    AreLinesSplit(header, body);
    TextOfGrouping(g);
  }

  lemma PatchLinesAreLines(output: seq<byte>)
    ensures AreLines(PatchOf(output))
  {
    LinesAreLines(output);
    PatchLinesIsSuffix(Lines(output));
    AreLinesSlice(Lines(output), |Lines(output)| - |PatchOf(output)|, |Lines(output)|);
  }

  /** Everything the theorems below rest on, about one output. */
  lemma ShapeOf(output: seq<byte>)
    ensures var st := Scanned(Lines(output));
            && Shape(st)
            && GroupingShape(Group(st.blocks))
            && Concat(Group(st.blocks).groups) + Group(st.blocks).pending == st.blocks
            && st.header + LinesIn(st.blocks) == PatchOf(output)
            && AreLines(PatchOf(output))
            && (st.inPatch <==> PatchOf(output) != [])
            && (Group(st.blocks).groups == [] ==> st.blocks == [])
  {
    ScannedShape(Lines(output));
    GroupIsShaped(Scanned(Lines(output)).blocks);
    PatchLinesAreLines(output);
  }

  /** At this byte a line begins that names a path. */
  predicate FileAt(output: seq<byte>, n: nat) {
    n <= |output| && (n == 0 || output[n - 1] == LF) && FILE <= output[n..]
  }

  /** Where the patch begins in the output: at the first line that names a path, or past it all when none does. */
  ghost predicate PatchAt(output: seq<byte>, n: nat) {
    n <= |output| && (FileAt(output, n) || n == |output|) && forall m: nat | m < n :: !FileAt(output, m)
  }

  lemma FileAtLine(l: Line, rest: seq<byte>, m: nat)
    requires IsLine(l) && (EndsLine(l) || rest == [])
    ensures m < |l| ==> (FileAt(l + rest, m) <==> m == 0 && IsFile(l))
    ensures |l| <= m && rest != [] ==> (FileAt(l + rest, m) <==> FileAt(rest, m - |l|))
    ensures |l| <= m && rest == [] ==> !FileAt(l + rest, m)
  {
    var s := l + rest;
    if m == 0 {
      FileWithinLine(l, rest);
    } else if m < |l| {
      assert s[m - 1] == l[m - 1];
    } else if m <= |s| {
      assert s[m..] == rest[m - |l|..];
      assert m > |l| ==> s[m - 1] == rest[m - |l| - 1];
      assert m == |l| ==> s[m - 1] == l[|l| - 1];
    }
  }

  lemma FileWithinLine(l: Line, rest: seq<byte>)
    requires IsLine(l) && (EndsLine(l) || rest == [])
    ensures FILE <= l + rest <==> IsFile(l)
  {
    var s := l + rest;
    assert s[|l| - 1] == l[|l| - 1];
    if |FILE| <= |l| {
      assert s[..|FILE|] == l[..|FILE|];
    }
  }

  lemma {:induction false} PatchLinesAt(ls: seq<Line>) returns (n: nat)
    requires AreLines(ls)
    ensures PatchAt(Concat(ls), n) && Concat(ls)[n..] == Concat(PatchLines(ls))
    ensures n == |Concat(ls)| <==> PatchLines(ls) == []
  {
    if ls == [] {
      n := 0;
    } else {
      var l, rest := ls[0], ls[1..];
      AreLinesSlice(ls, 1, |ls|);
      assert EndsLine(l) || Concat(rest) == [];
      FileAtLine(l, Concat(rest), 0);
      if IsFile(l) {
        n := 0;
      } else {
        var k := PatchLinesAt(rest);
        n := |l| + k;
        assert Concat(ls)[n..] == Concat(rest)[k..];
        FileAtLine(l, Concat(rest), n);
        forall m: nat | m < n ensures !FileAt(Concat(ls), m) {
          FileAtLine(l, Concat(rest), m);
        }
      }
    }
  }

  /** The patch is the rest of the output from the first line on that names a path. */
  lemma PatchIsTheRest(output: seq<byte>) returns (n: nat)
    ensures PatchAt(output, n) && output[n..] == Concat(PatchOf(output))
    ensures n == |output| <==> PatchOf(output) == []
  {
    LinesConcat(output);
    LinesAreLines(output);
    n := PatchLinesAt(Lines(output));
  }

  /**
   Joined back in order, the header and the hunks are the output from the first line on that names a
   path, read as text; those very bytes exactly when they are UTF-8.
   */
  lemma NothingIsLost(output: seq<byte>) returns (n: nat)
    ensures PatchAt(output, n)
    ensures Text(Parsed(output)) == Lossy(output[n..])
    ensures Text(Parsed(output)) == output[n..] <==> Valid(output[n..])
    ensures n == |output| ==> Parsed(output).header == [] && Parsed(output).hunks == []
  {
    n := PatchIsTheRest(output);
    TextOfPatch(output);
    KeptIffValid(output[n..]);
  }

  lemma TextOfPatch(output: seq<byte>)
    ensures Text(Parsed(output)) == Lossy(Concat(PatchOf(output)))
    ensures PatchOf(output) == [] ==> Parsed(output).header == [] && Parsed(output).hunks == []
  {
    ShapeOf(output);
    var st := Scanned(Lines(output));
    if st.inPatch {
      TextOfRendered(st.binary, st.header, Group(st.blocks));
    } else {
      assert LinesIn([]) == [];
    }
  }

  // ---------------------------------------------------------------- the ranges

  /** The ranges stated on `@@` lines, in order. */
  function RangesIn(ls: seq<Line>): seq<HunkRange> {
    if ls == [] then []
    else if IsRanged(ls[0]) then [LineRange(ls[0]).value] + RangesIn(ls[1..])
    else RangesIn(ls[1..])
  }

  lemma {:induction false} RangesInAppend(a: seq<Line>, b: seq<Line>)
    ensures RangesIn(a + b) == RangesIn(a) + RangesIn(b)
  {
    if a == [] {
      assert a + b == b;
    } else {
      assert (a + b)[1..] == a[1..] + b;
      RangesInAppend(a[1..], b);
    }
  }

  lemma {:induction false} NoRangesIn(ls: seq<Line>)
    requires forall l <- ls :: !IsRanged(l)
    ensures RangesIn(ls) == []
  {
    if ls != [] {
      assert ls[0] in ls;
      NoRangesIn(ls[1..]);
    }
  }

  lemma RangesInHeader(header: seq<Line>)
    requires HeaderShape(header)
    ensures RangesIn(header) == []
  {
    FileIsNotRanged(header[0]);
    NoRangesIn(header);
  }

  lemma RangesInBlock(b: Block)
    requires BlockShape(b)
    ensures RangesIn(b.lines) == if b.range.Some? then [b.range.value] else []
  {
    NoRangesIn(b.lines[1..]);
  }

  lemma RangesSnoc(hunks: seq<RawHunk>, last: Block)
    ensures last.range.Some? ==>
              forall text :: Ranges(hunks + [RawHunk(last.range.value, text)]) == Ranges(hunks) + [last.range.value]
  {
  }

  lemma {:induction false} RangesInBlocks(blocks: seq<Block>)
    requires forall b <- blocks :: BlockShape(b)
    ensures GroupingShape(Group(blocks))
    ensures Ranges(BareHunks(Group(blocks).groups)) == RangesIn(LinesIn(blocks))
    decreases |blocks|
  {
    GroupIsShaped(blocks);
    if blocks != [] {
      var front, last := blocks[..|blocks| - 1], blocks[|blocks| - 1];
      assert blocks == front + [last] && last in blocks;
      RangesInBlocks(front);
      LinesInSnoc(front, last);
      RangesInAppend(LinesIn(front), last.lines);
      RangesInBlock(last);
      var g := Group(front);
      JoinsNext(BareHunks(g.groups), BytesIn(g.pending), front, last);
      RangesSnoc(BareHunks(Group(front).groups), last);
    }
  }

  /** The hunks are the patch's `@@` lines: the same ranges, in the same order, none made up and none left out. */
  lemma RangesInOrder(output: seq<byte>)
    ensures Ranges(Parsed(output).hunks) == RangesIn(PatchOf(output))
  {
    ShapeOf(output);
    var st := Scanned(Lines(output));
    var g := Group(st.blocks);
    if st.inPatch {
      RangesInHeader(st.header);
      RangesInAppend(st.header, LinesIn(st.blocks));
    } else {
      assert LinesIn([]) == [];
    }
    RangesInBlocks(st.blocks);
    TrailingText(g);
  }

  // ---------------------------------------------------------------- parsing what was split again

  /** A line that is an `@@` line only once its undecodable bytes are replaced. */
  predicate HiddenHunk(l: Line) {
    !Valid(l) && IsRanged(Lossy(l))
  }

  predicate NoneHidden(ls: seq<Line>) {
    forall l <- ls :: !HiddenHunk(l)
  }

  lemma SameKind(l: Line)
    ensures IsFile(Lossy(l)) <==> IsFile(l)
    ensures !HiddenHunk(l) ==> LineRange(Lossy(l)) == LineRange(l)
  {
    AsciiPrefix(FILE, l);
    KeptIffValid(l);
  }

  function LossyBlock(b: Block): Block {
    Block(b.range, LossyLines(b.lines))
  }

  function LossyBlocks(blocks: seq<Block>): seq<Block> {
    seq(|blocks|, i requires 0 <= i < |blocks| => LossyBlock(blocks[i]))
  }

  lemma {:induction false} LinesInLossy(blocks: seq<Block>)
    ensures LinesIn(LossyBlocks(blocks)) == LossyLines(LinesIn(blocks))
  {
    if blocks != [] {
      LinesInLossy(blocks[1..]);
      assert LossyBlocks(blocks)[1..] == LossyBlocks(blocks[1..]);
      assert LossyLines(blocks[0].lines + LinesIn(blocks[1..]))
          == LossyLines(blocks[0].lines) + LossyLines(LinesIn(blocks[1..]));
    }
  }

  lemma LossyBlockShape(b: Block)
    requires BlockShape(b) && NoneHidden(b.lines)
    ensures BlockShape(LossyBlock(b))
  {
    forall i | 0 <= i < |b.lines|
      ensures LineRange(Lossy(b.lines[i])) == LineRange(b.lines[i])
      ensures IsFile(Lossy(b.lines[i])) <==> IsFile(b.lines[i])
    {
      assert b.lines[i] in b.lines;
      SameKind(b.lines[i]);
    }
  }

  lemma LossyHeaderShape(header: seq<Line>)
    requires HeaderShape(header) && NoneHidden(header)
    ensures HeaderShape(LossyLines(header))
  {
    forall i | 0 <= i < |header|
      ensures LineRange(Lossy(header[i])) == LineRange(header[i])
      ensures IsFile(Lossy(header[i])) <==> IsFile(header[i])
    {
      assert header[i] in header;
      SameKind(header[i]);
    }
  }

  lemma {:induction false} LineOfBlock(blocks: seq<Block>, b: Block, l: Line)
    requires b in blocks && l in b.lines
    ensures l in LinesIn(blocks)
  {
    if blocks[0] != b {
      LineOfBlock(blocks[1..], b, l);
    }
  }

  lemma LossyBlocksShape(blocks: seq<Block>)
    requires BlocksShape(blocks) && NoneHidden(LinesIn(blocks))
    ensures BlocksShape(LossyBlocks(blocks))
  {
    forall i | 0 <= i < |blocks| ensures BlockShape(LossyBlocks(blocks)[i]) {
      assert blocks[i] in blocks;
      forall l | l in blocks[i].lines ensures !HiddenHunk(l) {
        LineOfBlock(blocks, blocks[i], l);
      }
      LossyBlockShape(blocks[i]);
    }
  }

  function LossyGroups(groups: seq<seq<Block>>): seq<seq<Block>> {
    seq(|groups|, i requires 0 <= i < |groups| => LossyBlocks(groups[i]))
  }

  function LossyGrouping(g: Grouping): Grouping {
    Grouping(LossyGroups(g.groups), LossyBlocks(g.pending))
  }

  lemma {:induction false} ConcatLossyGroups(groups: seq<seq<Block>>)
    ensures Concat(LossyGroups(groups)) == LossyBlocks(Concat(groups))
  {
    if groups != [] {
      ConcatLossyGroups(groups[1..]);
      assert LossyGroups(groups)[1..] == LossyGroups(groups[1..]);
      assert LossyBlocks(groups[0] + Concat(groups[1..])) == LossyBlocks(groups[0]) + LossyBlocks(Concat(groups[1..]));
    }
  }

  lemma LossyGroupingShape(g: Grouping)
    requires GroupingShape(g)
    ensures GroupingShape(LossyGrouping(g))
    ensures Concat(LossyGrouping(g).groups) + LossyGrouping(g).pending
            == LossyBlocks(Concat(g.groups) + g.pending)
  {
    ConcatLossyGroups(g.groups);
    forall x: seq<Block> | x in LossyGroups(g.groups) ensures GroupShape(x) {
      var i :| 0 <= i < |g.groups| && x == LossyBlocks(g.groups[i]);
      assert g.groups[i] in g.groups;
      var y := g.groups[i];
      forall b: Block | b in x[..|x| - 1] ensures b.range.None? {
        var j :| 0 <= j < |x| - 1 && b == x[j];
        assert y[j] in y[..|y| - 1];
      }
    }
    forall b: Block | b in LossyBlocks(g.pending) ensures b.range.None? {
      var j :| 0 <= j < |g.pending| && b == LossyBlock(g.pending[j]);
      assert g.pending[j] in g.pending;
    }
  }

  lemma BlocksBytesLossy(blocks: seq<Block>)
    requires AreLines(LinesIn(blocks))
    ensures Lossy(BytesIn(LossyBlocks(blocks))) == Lossy(BytesIn(blocks))
  {
    LinesInLossy(blocks);
    LossyLinesTwice(LinesIn(blocks));
  }

  lemma {:induction false} LinesOfGroup(groups: seq<seq<Block>>, i: nat)
    requires i < |groups| && AreLines(LinesIn(Concat(groups)))
    ensures AreLines(LinesIn(groups[i]))
  {
    LinesInAppend(groups[0], Concat(groups[1..]));
    AreLinesSplit(LinesIn(groups[0]), LinesIn(Concat(groups[1..])));
    if i > 0 {
      LinesOfGroup(groups[1..], i - 1);
    }
  }

  lemma PartsAreLines(header: seq<Line>, g: Grouping)
    requires AreLines(header + LinesIn(Concat(g.groups) + g.pending))
    ensures AreLines(header) && AreLines(LinesIn(Concat(g.groups))) && AreLines(LinesIn(g.pending))
  {
    LinesInAppend(Concat(g.groups), g.pending);
    AreLinesSplit(header, LinesIn(Concat(g.groups) + g.pending));
    AreLinesSplit(LinesIn(Concat(g.groups)), LinesIn(g.pending));
  }

  lemma LossyBareHunks(groups: seq<seq<Block>>)
    requires forall g <- groups :: GroupShape(g)
    requires forall g <- LossyGroups(groups) :: GroupShape(g)
    requires AreLines(LinesIn(Concat(groups)))
    ensures BareHunks(LossyGroups(groups)) == BareHunks(groups)
  {
    forall i | 0 <= i < |groups| ensures BareHunks(LossyGroups(groups))[i] == BareHunks(groups)[i] {
      LinesOfGroup(groups, i);
      BlocksBytesLossy(groups[i]);
      assert LossyGroups(groups)[i] == LossyBlocks(groups[i]);
    }
  }

  lemma RenderedLossy(binary: bool, header: seq<Line>, g: Grouping)
    requires GroupingShape(g)
    requires AreLines(header + LinesIn(Concat(g.groups) + g.pending))
    ensures GroupingShape(LossyGrouping(g))
    ensures Rendered(binary, LossyLines(header), LossyGrouping(g)) == Rendered(binary, header, g)
  {
    LossyGroupingShape(g);
    PartsAreLines(header, g);
    LossyLinesTwice(header);
    BlocksBytesLossy(g.pending);
    LossyBareHunks(g.groups);
  }

  lemma RescanLossy(header: seq<Line>, blocks: seq<Block>)
    requires HeaderShape(header) && BlocksShape(blocks)
    requires AreLines(header + LinesIn(blocks)) && NoneHidden(header + LinesIn(blocks))
    ensures Scanned(Lines(Lossy(Concat(header + LinesIn(blocks)))))
            == State(false, true, LossyLines(header), LossyBlocks(blocks))
  {
    LinesOfLossy(header + LinesIn(blocks));
    LinesInLossy(blocks);
    LossyLinesAppend(header, LinesIn(blocks));
    LossyHeaderShape(header);
    LossyBlocksShape(blocks);
    Rescan(LossyLines(header), LossyBlocks(blocks));
  }

  /** Parsing the text of a rendered diff gives the diff back, provided no hunk line was hidden in it. */
  lemma Reparse(binary: bool, header: seq<Line>, g: Grouping)
    requires HeaderShape(header) && GroupingShape(g)
    requires BlocksShape(Concat(g.groups) + g.pending)
    requires AreLines(header + LinesIn(Concat(g.groups) + g.pending))
    requires NoneHidden(header + LinesIn(Concat(g.groups) + g.pending))
    ensures Parsed(Text(Rendered(binary, header, g))) == Rendered(false, header, g)
  {
    TextOfRendered(binary, header, g);
    RescanLossy(header, Concat(g.groups) + g.pending);
    LossyGroupingShape(g);
    Regroup(LossyGrouping(g));
    RenderedLossy(false, header, g);
  }

  // ---------------------------------------------------------------- cutting

  lemma {:induction false} ConcatSplit<T>(xs: seq<seq<T>>, k: nat)
    requires k <= |xs|
    ensures Concat(xs) == Concat(xs[..k]) + Concat(xs[k..])
  {
    assert xs == xs[..k] + xs[k..];
    ConcatAppend(xs[..k], xs[k..]);
  }

  lemma FrontShape(a: seq<Block>, b: seq<Block>)
    requires BlocksShape(a + b)
    ensures BlocksShape(a)
  {
    forall x | x in a ensures BlockShape(x) { assert x in a + b; }
    assert a != [] ==> a[0] == (a + b)[0];
  }

  /** The grouping as far as its first `k` groups; the trailing block stays with the last of them all. */
  function CutGroups(g: Grouping, k: nat): Grouping
    requires k <= |g.groups|
  {
    Grouping(g.groups[..k], if k == |g.groups| then g.pending else [])
  }

  lemma WithoutTrailing(groups: seq<seq<Block>>)
    requires forall g <- groups :: GroupShape(g)
    ensures RawHunks(Grouping(groups, [])) == BareHunks(groups)
  {
    assert Lossy(BytesIn([])) == [];
    var hunks := BareHunks(groups);
    if hunks != [] {
      var last := hunks[|hunks| - 1];
      assert last.text + [] == last.text;
      assert hunks[..|hunks| - 1] + [last] == hunks;
    }
  }

  lemma CutGroupsHunks(g: Grouping, k: nat)
    requires GroupingShape(g) && k <= |g.groups|
    ensures GroupingShape(CutGroups(g, k))
    ensures RawHunks(CutGroups(g, k)) == RawHunks(g)[..k]
  {
    if k == |g.groups| {
      assert g.groups[..k] == g.groups;
    } else {
      forall x | x in g.groups[..k] ensures GroupShape(x) { assert x in g.groups; }
      WithoutTrailing(g.groups[..k]);
      assert BareHunks(g.groups[..k]) == BareHunks(g.groups)[..k];
      assert RawHunks(g)[..k] == BareHunks(g.groups)[..k];
    }
  }

  lemma CutGroupsPrefix(g: Grouping, k: nat) returns (rest: seq<Block>)
    requires k <= |g.groups|
    ensures (Concat(CutGroups(g, k).groups) + CutGroups(g, k).pending) + rest == Concat(g.groups) + g.pending
  {
    if k == |g.groups| {
      assert g.groups[..k] == g.groups;
      rest := [];
    } else {
      ConcatSplit(g.groups, k);
      Assoc(Concat(g.groups[..k]), Concat(g.groups[k..]), g.pending);
      rest := Concat(g.groups[k..]) + g.pending;
      assert Concat(g.groups[..k]) + [] == Concat(g.groups[..k]);
    }
  }

  /** The lines of the output that a cut after `k` hunks keeps. */
  function LinesOfCut(output: seq<byte>, k: nat): seq<Line>
    requires k <= |Parsed(output).hunks|
  {
    var st := Scanned(Lines(output));
    GroupIsShaped(st.blocks);
    var c := CutGroups(Group(st.blocks), k);
    st.header + LinesIn(Concat(c.groups) + c.pending)
  }

  /** A cut keeps lines from the patch's front, and the last cut keeps them all. */
  lemma CutKeepsTheFront(output: seq<byte>, k: nat)
    requires k <= |Parsed(output).hunks|
    ensures LinesOfCut(output, k) <= PatchOf(output)
    ensures k == |Parsed(output).hunks| ==> LinesOfCut(output, k) == PatchOf(output)
  {
    ShapeOf(output);
    var st := Scanned(Lines(output));
    var g := Group(st.blocks);
    var kept := Concat(CutGroups(g, k).groups) + CutGroups(g, k).pending;
    var rest := CutGroupsPrefix(g, k);
    LinesInAppend(kept, rest);
    Assoc(st.header, LinesIn(kept), LinesIn(rest));
    assert g.groups[..|g.groups|] == g.groups;
  }

  /** The ranges of a rendered diff are those on its lines. */
  lemma RangesOfRendered(header: seq<Line>, g: Grouping)
    requires GroupingShape(g) && forall b <- Concat(g.groups) + g.pending :: BlockShape(b)
    requires header == [] || HeaderShape(header)
    ensures RangesIn(header + LinesIn(Concat(g.groups) + g.pending)) == Ranges(RawHunks(g))
  {
    var blocks := Concat(g.groups) + g.pending;
    if header != [] {
      RangesInHeader(header);
    }
    RangesInAppend(header, LinesIn(blocks));
    Regroup(g);
    RangesInBlocks(blocks);
    TrailingText(g);
  }

  /** What reading a patch's own text makes of it: the same text, and a range for each line that then states one. */
  lemma TextReparsed(ls: seq<Line>)
    requires AreLines(ls) && ls != [] && IsFile(ls[0])
    ensures var p := Lossy(Concat(ls));
            && PatchOf(p) == LossyLines(ls) && Text(Parsed(p)) == p
            && Ranges(Parsed(p).hunks) == RangesIn(LossyLines(ls))
  {
    LinesOfLossy(ls);
    SameKind(ls[0]);
    var p := Lossy(Concat(ls));
    TextOfPatch(p);
    LossyLinesTwice(ls);
    RangesInOrder(p);
  }

  lemma NothingParsed()
    ensures Parsed([]) == RawFileDiff(false, [], [])
  {
    assert Lines([]) == [];
    assert Scanned([]) == START;
    assert Group([]) == Grouping([], []);
  }

  /** A cut, laid out: its lines are whole, its text is theirs, and its ranges are on them. */
  lemma CutLaidOut(output: seq<byte>, k: nat)
    requires k <= |Parsed(output).hunks| && PatchOf(output) != []
    ensures var ls := LinesOfCut(output, k);
            var c := Cut(Parsed(output), k);
            && AreLines(ls) && ls != [] && IsFile(ls[0])
            && Text(c) == Lossy(Concat(ls)) && Ranges(c.hunks) == RangesIn(ls)
            && (NoneHidden(ls) ==> Parsed(Text(c)) == c)
  {
    ShapeOf(output);
    var st := Scanned(Lines(output));
    var g := Group(st.blocks);
    var c := CutGroups(g, k);
    CutGroupsHunks(g, k);
    var kept := Concat(c.groups) + c.pending;
    var rest := CutGroupsPrefix(g, k);
    FrontShape(kept, rest);
    LinesInAppend(kept, rest);
    Assoc(st.header, LinesIn(kept), LinesIn(rest));
    AreLinesSplit(st.header + LinesIn(kept), LinesIn(rest));
    TextOfRendered(false, st.header, c);
    RangesOfRendered(st.header, c);
    if NoneHidden(st.header + LinesIn(kept)) {
      Reparse(false, st.header, c);
    }
  }

  /**
   Cut after any of its hunks, a diff's text parses to exactly those hunks, and even to no more than
   their ranges, exactly when none of the lines the cut keeps hides a hunk line.
   */
  lemma CutReparsesIff(output: seq<byte>, k: nat)
    requires k <= |Parsed(output).hunks|
    ensures var c := Cut(Parsed(output), k);
            && (Parsed(Text(c)) == c <==> NoneHidden(LinesOfCut(output, k)))
            && (Ranges(Parsed(Text(c)).hunks) == Ranges(c.hunks) <==> NoneHidden(LinesOfCut(output, k)))
  {
    var c := Cut(Parsed(output), k);
    if PatchOf(output) == [] {
      TextOfPatch(output);
      NothingParsed();
      CutKeepsTheFront(output, k);
    } else {
      CutLaidOut(output, k);
      TextReparsed(LinesOfCut(output, k));
      HiddenAddRanges(LinesOfCut(output, k));
    }
  }

  lemma {:induction false} HiddenAddRanges(ls: seq<Line>)
    ensures |RangesIn(LossyLines(ls))| >= |RangesIn(ls)|
    ensures !NoneHidden(ls) ==> |RangesIn(LossyLines(ls))| > |RangesIn(ls)|
  {
    if ls != [] {
      HiddenAddRanges(ls[1..]);
      assert LossyLines(ls)[1..] == LossyLines(ls[1..]);
      SameKind(ls[0]);
      KeptIffValid(ls[0]);
      if !HiddenHunk(ls[0]) && NoneHidden(ls[1..]) {
        assert forall l | l in ls :: l == ls[0] || l in ls[1..];
      }
    }
  }

  lemma HiddenHunkResurfaces(output: seq<byte>)
    requires !NoneHidden(PatchOf(output))
    ensures var d := Parsed(output); Parsed(Text(Cut(d, |d.hunks|))) != Cut(d, |d.hunks|)
  {
    CutReparsesIff(output, |Parsed(output).hunks|);
    CutKeepsTheFront(output, |Parsed(output).hunks|);
  }

  /**
   Every cut of a diff re-parses to itself exactly when no line of the patch is an `@@` line
   only once its undecodable bytes are replaced.
   */
  lemma CutIsSafeIff(output: seq<byte>)
    ensures var d := Parsed(output);
            (forall k: nat | k <= |d.hunks| :: Parsed(Text(Cut(d, k))) == Cut(d, k)) <==> NoneHidden(PatchOf(output))
  {
    var d := Parsed(output);
    if NoneHidden(PatchOf(output)) {
      forall k: nat | k <= |d.hunks| ensures Parsed(Text(Cut(d, k))) == Cut(d, k) {
        CutKeepsTheFront(output, k);
        assert forall l | l in LinesOfCut(output, k) :: l in PatchOf(output);
        CutReparsesIff(output, k);
      }
    } else {
      HiddenHunkResurfaces(output);
    }
  }

  /** Text hides nothing, so a patch that is UTF-8 throughout can be cut anywhere. */
  lemma {:induction false} TextHidesNothing(ls: seq<Line>)
    requires AreLines(ls) && Valid(Concat(ls))
    ensures NoneHidden(ls)
  {
    if ls != [] {
      AreLinesSlice(ls, 1, |ls|);
      if |ls| == 1 {
        ConcatOne(ls[0]);
        assert ls == [ls[0]];
      } else {
        LossyAfterAscii(ls[0], Concat(ls[1..]));
        TextHidesNothing(ls[1..]);
      }
    }
  }
}
