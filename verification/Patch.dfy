/** The patch built from one hunk of a diff: when it parses to that hunk, and when it is the output's own bytes. */
module Patch {
  import opened Bytes
  import opened DiffParse
  import opened DiffLaws
  import opened Utf8
  import opened Wrappers

  function Find(hunks: seq<RawHunk>, range: HunkRange): Option<RawHunk> {
    if hunks == [] then None
    else if hunks[0].range == range then Some(hunks[0])
    else Find(hunks[1..], range)
  }

  /** A hunk's text, under the diff's header unless it begins with a path's header itself. */
  function PatchFor(diff: RawFileDiff, found: RawHunk): seq<byte> {
    if FILE <= found.text then found.text else diff.header + found.text
  }

  /** The patch for the first hunk whose range is `hunk`. */
  function OneHunk(diff: RawFileDiff, hunk: HunkRange): Option<seq<byte>> {
    var found :- Find(diff.hunks, hunk);
    Some(PatchFor(diff, found))
  }

  /** A range is found exactly when a hunk states it, and the first hunk to state it is the one found. */
  lemma {:induction false} FindsFirst(hunks: seq<RawHunk>, range: HunkRange)
    ensures match Find(hunks, range)
            case None => range !in Ranges(hunks)
            case Some(h) => exists i :: 0 <= i < |hunks| && hunks[i] == h && h.range == range
                                        && range !in Ranges(hunks[..i])
  {
    if hunks != [] {
      if hunks[0].range == range {
        assert hunks[0] == Find(hunks, range).value && Ranges(hunks[..0]) == [];
      } else {
        FindsFirst(hunks[1..], range);
        assert Ranges(hunks) == [hunks[0].range] + Ranges(hunks[1..]);
        if Find(hunks, range).Some? {
          var h := Find(hunks, range).value;
          var i :| 0 <= i < |hunks[1..]| && hunks[1..][i] == h && h.range == range && range !in Ranges(hunks[1..][..i]);
          assert hunks[i + 1] == h;
          assert Ranges(hunks[..i + 1]) == [hunks[0].range] + Ranges(hunks[1..][..i]);
        }
      }
    }
  }

  /** A request finds nothing in an output, its own or a later one, exactly when no hunk line states its range. */
  lemma RequestFindsNothingIff(later: seq<byte>, range: HunkRange)
    ensures OneHunk(Parsed(later), range) == None <==> range !in RangesIn(PatchOf(later))
  {
    var hunks := Parsed(later).hunks;
    FindsFirst(hunks, range);
    RangesInOrder(later);
    if Find(hunks, range).Some? {
      var i :| 0 <= i < |hunks| && hunks[i].range == range;
      assert Ranges(hunks)[i] == range;
    }
  }

  // ---------------------------------------------------------------- what the patch parses to

  /** What follows the hunk of group `i` within its own text. */
  function Trailing(g: Grouping, i: nat): seq<Block> {
    if i + 1 == |g.groups| then g.pending else []
  }

  lemma HunkText(g: Grouping, i: nat)
    requires GroupingShape(g) && i < |g.groups|
    ensures GroupShape(g.groups[i]) && GroupingShape(Grouping([g.groups[i]], Trailing(g, i)))
    ensures RawHunks(g)[i].range == RangeOf(g.groups[i])
    ensures RawHunks(g)[i].text == Lossy(BytesIn(g.groups[i])) + Lossy(BytesIn(Trailing(g, i)))
    ensures RawHunks(Grouping([g.groups[i]], Trailing(g, i))) == [RawHunks(g)[i]]
  {
    NothingTrails();
    assert g.groups[i] in g.groups;
    OneRawHunk(g.groups[i], Trailing(g, i));
  }

  lemma NothingTrails()
    ensures Lossy(BytesIn([])) == []
  {
  }

  lemma OneRawHunk(x: seq<Block>, trailing: seq<Block>)
    requires GroupShape(x) && Rangeless(trailing)
    ensures GroupingShape(Grouping([x], trailing))
    ensures RawHunks(Grouping([x], trailing))
            == [RawHunk(RangeOf(x), Lossy(BytesIn(x)) + Lossy(BytesIn(trailing)))]
  {
  }

  /** Where group `i` lies among the blocks. */
  lemma {:induction false} AroundGroup(g: Grouping, i: nat) returns (before: seq<Block>, after: seq<Block>)
    requires i < |g.groups|
    ensures Concat(g.groups) + g.pending == before + (g.groups[i] + Trailing(g, i)) + after
    ensures before == Concat(g.groups[..i])
  {
    before := Concat(g.groups[..i]);
    ConcatSplit(g.groups, i);
    assert g.groups[i..] == [g.groups[i]] + g.groups[i + 1..];
    ConcatCons(g.groups[i], g.groups[i + 1..]);
    if i + 1 == |g.groups| {
      after := [];
      assert Concat(g.groups[i + 1..]) == [];
    } else {
      after := Concat(g.groups[i + 1..]) + g.pending;
    }
  }

  /** A header and blocks laid out as lines, as scanning an output finds them. */
  predicate Layout(header: seq<Line>, blocks: seq<Block>) {
    && HeaderShape(header)
    && (forall b <- blocks :: BlockShape(b))
    && AreLines(header + LinesIn(blocks))
  }

  predicate InPatch(header: seq<Line>, blocks: seq<Block>) {
    Layout(header, blocks) && NoneHidden(header + LinesIn(blocks))
  }

  /** A stretch of a patch's blocks, put straight under its header, is laid out as a patch is. */
  lemma StretchLayout(header: seq<Line>, before: seq<Block>, mid: seq<Block>, after: seq<Block>)
    requires Layout(header, before + mid + after) && mid != []
    ensures Layout(header, mid) && AreLines(LinesIn(mid))
    ensures header + LinesIn(before + mid + after) == header + LinesIn(before) + LinesIn(mid) + LinesIn(after)
  {
    forall b | b in mid ensures BlockShape(b) { assert b in before + mid + after; }
    var a, m, z := LinesIn(before), LinesIn(mid), LinesIn(after);
    LinesInAppend(before + mid, after);
    LinesInAppend(before, mid);
    Assoc(header, a + m, z);
    AreLinesSplit(header + (a + m), z);
    Assoc(header, a, m);
    AreLinesSplit(header + a, m);
    LinesOfBlocks(mid);
    AreLinesSplit(header, a + m);
    AreLinesAppend(header, m);
  }

  lemma LinesOfBlocks(blocks: seq<Block>)
    requires blocks != [] && forall b <- blocks :: BlockShape(b)
    ensures BlockShape(blocks[0])
    ensures LinesIn(blocks) != [] && LinesIn(blocks)[0] == blocks[0].lines[0]
  {
    assert blocks[0] in blocks;
  }

  /** A hunk that no later path's block precedes, under the patch's header, is a patch of that hunk alone. */
  lemma BareHunkReparses(binary: bool, header: seq<Line>, x: seq<Block>, trailing: seq<Block>)
    requires InPatch(header, x + trailing)
    requires GroupShape(x) && |x| == 1 && Rangeless(trailing)
    ensures var g := Grouping([x], trailing);
            Parsed(Text(Rendered(binary, header, g))) == Rendered(false, header, g)
  {
    ConcatOne(x);
    Reparse(binary, header, Grouping([x], trailing));
  }

  /** A hunk carrying later paths' own headers is a patch of its own, those lines being its header. */
  lemma CarriedHunkReparses(front: seq<Block>, last: Block, trailing: seq<Block>)
    requires front != [] && Rangeless(front) && Rangeless(trailing) && last.range.Some?
    requires forall b <- front + ([last] + trailing) :: BlockShape(b)
    requires AreLines(LinesIn(front + ([last] + trailing))) && NoneHidden(LinesIn(front + ([last] + trailing)))
    ensures IsPatchOf(Lossy(BytesIn(front + ([last] + trailing))), last.range.value)
  {
    var g := Grouping([[last]], trailing);
    ConcatOne([last]);
    LinesInAppend(front, [last] + trailing);
    RangelessLines(front);
    TextOfRendered(false, LinesIn(front), g);
    Reparse(false, LinesIn(front), g);
    FirstLineOfText(LinesIn(front));
    TrailingText(g);
    assert Ranges(BareHunks(g.groups)) == [last.range.value];
  }

  /** Bytes that are a patch of one hunk, naming a file of their own. */
  predicate IsPatchOf(p: seq<byte>, range: HunkRange) {
    var q := Parsed(p);
    Text(q) == p && FILE <= q.header && !q.binary && Ranges(q.hunks) == [range]
  }

  lemma FirstLineOfText(ls: seq<Line>)
    requires ls != [] && IsFile(ls[0])
    ensures FILE <= Lossy(Concat(ls))
  {
    assert FILE <= ls[0] <= Concat(ls);
    AsciiPrefix(FILE, Concat(ls));
  }

  lemma {:induction false} RangelessLines(blocks: seq<Block>)
    requires Rangeless(blocks) && forall b <- blocks :: BlockShape(b)
    ensures forall l <- LinesIn(blocks) :: !IsRanged(l)
    ensures blocks != [] ==> HeaderShape(LinesIn(blocks))
  {
    if blocks != [] {
      assert blocks[0] in blocks;
      RangelessBlock(blocks[0]);
      RangelessLines(blocks[1..]);
      RangelessHeader(blocks[0].lines, LinesIn(blocks[1..]));
    }
  }

  lemma RangelessBlock(b: Block)
    requires BlockShape(b) && b.range.None?
    ensures b.lines != [] && IsFile(b.lines[0]) && forall l <- b.lines :: !IsRanged(l)
  {
  }

  lemma RangelessHeader(a: seq<Line>, b: seq<Line>)
    requires a != [] && IsFile(a[0]) && (forall l <- a :: !IsRanged(l)) && forall l <- b :: !IsRanged(l)
    ensures HeaderShape(a + b) && forall l <- a + b :: !IsRanged(l)
  {
    assert forall l <- a + b :: l in a || l in b;
    assert forall i | 0 <= i < |a + b| :: (a + b)[i] in a + b;
  }

  /** The text of a hunk, one whole stretch of the patch's lines. */
  lemma TextOfHunk(g: Grouping, i: nat)
    requires GroupingShape(g) && i < |g.groups|
    requires AreLines(LinesIn(g.groups[i] + Trailing(g, i)))
    ensures RawHunks(g)[i].text == Lossy(BytesIn(g.groups[i] + Trailing(g, i)))
  {
    HunkText(g, i);
    LinesInAppend(g.groups[i], Trailing(g, i));
    LossySplit(LinesIn(g.groups[i]), LinesIn(Trailing(g, i)));
  }

  lemma TextStartsWithFile(blocks: seq<Block>)
    requires blocks != [] && forall b <- blocks :: BlockShape(b)
    ensures FILE <= Lossy(BytesIn(blocks)) <==> blocks[0].range.None?
  {
    LinesOfBlocks(blocks);
    var line := blocks[0].lines[0];
    var text := BytesIn(blocks);
    assert line <= text;
    AsciiPrefix(FILE, text);
    if blocks[0].range.Some? {
      assert HUNK <= line <= text;
      assert text[0] == HUNK[0] != FILE[0];
    } else {
      assert FILE <= line;
    }
  }

  lemma BareGroupReparses(binary: bool, header: seq<Line>, g: Grouping, i: nat)
    requires GroupingShape(g) && i < |g.groups|
    requires InPatch(header, g.groups[i] + Trailing(g, i))
    requires |g.groups[i]| == 1
    ensures var d := Rendered(binary, header, g);
            Parsed(d.header + d.hunks[i].text) == RawFileDiff(false, d.header, [d.hunks[i]])
  {
    HunkText(g, i);
    BareHunkReparses(binary, header, g.groups[i], Trailing(g, i));
    TextOfOne(Lossy(Concat(header)), RawHunks(g)[i]);
  }

  lemma TextOfOne(header: seq<byte>, h: RawHunk)
    ensures forall binary :: Text(RawFileDiff(binary, header, [h])) == header + h.text
  {
    ConcatOne(h.text);
    assert Texts([h]) == [h.text];
  }

  lemma CarriedGroupReparses(g: Grouping, i: nat)
    requires GroupingShape(g) && i < |g.groups|
    requires forall b <- g.groups[i] + Trailing(g, i) :: BlockShape(b)
    requires AreLines(LinesIn(g.groups[i] + Trailing(g, i))) && NoneHidden(LinesIn(g.groups[i] + Trailing(g, i)))
    requires |g.groups[i]| > 1
    ensures IsPatchOf(RawHunks(g)[i].text, RawHunks(g)[i].range)
  {
    HunkText(g, i);
    TextOfHunk(g, i);
    var x := g.groups[i];
    var front, last := x[..|x| - 1], x[|x| - 1];
    LastApart(x, Trailing(g, i));
    CarriedHunkReparses(front, last, Trailing(g, i));
  }

  lemma HunkStartsWithFile(g: Grouping, i: nat)
    requires GroupingShape(g) && i < |g.groups|
    requires forall b <- g.groups[i] + Trailing(g, i) :: BlockShape(b)
    requires AreLines(LinesIn(g.groups[i] + Trailing(g, i)))
    ensures FILE <= RawHunks(g)[i].text <==> |g.groups[i]| > 1
  {
    var x := g.groups[i];
    TextOfHunk(g, i);
    HunkText(g, i);
    TextStartsWithFile(x + Trailing(g, i));
    assert |x| > 1 ==> x[..|x| - 1][0] in x[..|x| - 1];
  }

  // ---------------------------------------------------------------- the lines of a patch

  /** The output's lines that the patch for group `i` is made of: the group's, under the header's if it has none. */
  function LinesForGroup(header: seq<Line>, g: Grouping, i: nat): seq<Line>
    requires i < |g.groups|
  {
    (if |g.groups[i]| == 1 then header else []) + LinesIn(g.groups[i] + Trailing(g, i))
  }

  function LinesOfHunk(output: seq<byte>, i: nat): seq<Line>
    requires i < |Parsed(output).hunks|
  {
    var g := Group(Scanned(Lines(output)).blocks);
    GroupIsShaped(Scanned(Lines(output)).blocks);
    LinesIn(g.groups[i] + Trailing(g, i))
  }

  function LinesOfPatch(output: seq<byte>, i: nat): seq<Line>
    requires i < |Parsed(output).hunks|
  {
    var st := Scanned(Lines(output));
    GroupIsShaped(st.blocks);
    LinesForGroup(st.header, Group(st.blocks), i)
  }

  /** What keeping one more hunk keeps: that hunk's lines, and all of them. */
  lemma LinesBetweenCuts(output: seq<byte>, i: nat)
    requires i < |Parsed(output).hunks|
    ensures LinesOfCut(output, i + 1) == LinesOfCut(output, i) + LinesOfHunk(output, i)
    ensures LinesOfCut(output, 0) == Scanned(Lines(output)).header
  {
    var st := Scanned(Lines(output));
    GroupIsShaped(st.blocks);
    var g := Group(st.blocks);
    BlocksBetweenCuts(g, i);
    LinesInAppend(KeptBlocks(g, i), g.groups[i] + Trailing(g, i));
    Assoc(st.header, LinesIn(KeptBlocks(g, i)), LinesOfHunk(output, i));
    assert st.header + LinesIn([]) == st.header;
  }

  function KeptBlocks(g: Grouping, k: nat): seq<Block>
    requires k <= |g.groups|
  {
    Concat(CutGroups(g, k).groups) + CutGroups(g, k).pending
  }

  lemma BlocksBetweenCuts(g: Grouping, i: nat)
    requires i < |g.groups|
    ensures KeptBlocks(g, i + 1) == KeptBlocks(g, i) + (g.groups[i] + Trailing(g, i))
    ensures KeptBlocks(g, 0) == []
  {
    var earlier := Concat(g.groups[..i]);
    assert g.groups[..i + 1] == g.groups[..i] + [g.groups[i]];
    ConcatSnoc(g.groups[..i], g.groups[i]);
    assert earlier + [] == earlier;
    Assoc(earlier, g.groups[i], Trailing(g, i));
  }

  lemma GroupLaidOut(header: seq<Line>, g: Grouping, i: nat)
    requires GroupingShape(g) && i < |g.groups|
    requires Layout(header, Concat(g.groups) + g.pending)
    ensures Layout(header, g.groups[i] + Trailing(g, i)) && AreLines(LinesIn(g.groups[i] + Trailing(g, i)))
    ensures GroupShape(g.groups[i]) && Rangeless(Trailing(g, i))
    ensures RawHunks(g)[i].range == RangeOf(g.groups[i])
    ensures FILE <= RawHunks(g)[i].text <==> |g.groups[i]| > 1
  {
    var before, after := AroundGroup(g, i);
    HunkText(g, i);
    StretchLayout(header, before, g.groups[i] + Trailing(g, i), after);
    HunkStartsWithFile(g, i);
  }

  /** The patch for a group, laid out: its lines are whole, its text is theirs, and its one range is on them. */
  lemma PatchLaidOut(binary: bool, header: seq<Line>, g: Grouping, i: nat)
    requires GroupingShape(g) && i < |g.groups|
    requires Layout(header, Concat(g.groups) + g.pending)
    ensures var ls := LinesForGroup(header, g, i);
            var d := Rendered(binary, header, g);
            && AreLines(ls) && ls != [] && IsFile(ls[0])
            && PatchFor(d, d.hunks[i]) == Lossy(Concat(ls)) && RangesIn(ls) == [d.hunks[i].range]
  {
    var x, trailing := g.groups[i], Trailing(g, i);
    GroupLaidOut(header, g, i);
    TextOfHunk(g, i);
    RangesOfOne(if |x| == 1 then header else [], x, trailing);
    if |x| == 1 {
      LossySplit(header, LinesIn(x + trailing));
    } else {
      CarriesItsHeader(x, trailing);
    }
  }

  lemma CarriesItsHeader(x: seq<Block>, trailing: seq<Block>)
    requires GroupShape(x) && |x| > 1 && forall b <- x + trailing :: BlockShape(b)
    ensures [] + LinesIn(x + trailing) == LinesIn(x + trailing)
    ensures LinesIn(x + trailing) != [] && IsFile(LinesIn(x + trailing)[0])
  {
    LinesOfBlocks(x + trailing);
    assert x[..|x| - 1][0] in x[..|x| - 1];
  }

  lemma RangesOfOne(header: seq<Line>, x: seq<Block>, trailing: seq<Block>)
    requires GroupShape(x) && Rangeless(trailing) && forall b <- x + trailing :: BlockShape(b)
    requires header == [] || HeaderShape(header)
    ensures RangesIn(header + LinesIn(x + trailing)) == [RangeOf(x)]
  {
    var g := Grouping([x], trailing);
    ConcatOne(x);
    RangesOfRendered(header, g);
    TrailingText(g);
  }

  /** What the patch built for `h` means: that hunk and nothing else, in its own bytes. */
  predicate ParsesToHunk(d: RawFileDiff, h: RawHunk) {
    if FILE <= h.text then PatchFor(d, h) == h.text && IsPatchOf(h.text, h.range)
    else Parsed(PatchFor(d, h)) == RawFileDiff(false, d.header, [h])
  }

  lemma GroupReparses(binary: bool, header: seq<Line>, g: Grouping, i: nat)
    requires GroupingShape(g) && i < |g.groups|
    requires Layout(header, Concat(g.groups) + g.pending)
    requires NoneHidden(LinesForGroup(header, g, i))
    ensures var d := Rendered(binary, header, g); ParsesToHunk(d, d.hunks[i])
  {
    GroupLaidOut(header, g, i);
    if |g.groups[i]| == 1 {
      BareGroupReparses(binary, header, g, i);
    } else {
      assert LinesForGroup(header, g, i) == LinesIn(g.groups[i] + Trailing(g, i));
      CarriedGroupReparses(g, i);
    }
  }

  lemma OneRange(d: RawFileDiff, h: RawHunk)
    requires ParsesToHunk(d, h)
    ensures Ranges(Parsed(PatchFor(d, h)).hunks) == [h.range]
  {
  }

  /**
   The patch built for a hunk parses to that hunk exactly when none of the lines it is made of hides
   a hunk line; what the rest of the output holds makes no difference.
   */
  lemma HunkReparsesIff(output: seq<byte>, i: nat)
    requires i < |Parsed(output).hunks|
    ensures ParsesToHunk(Parsed(output), Parsed(output).hunks[i]) <==> NoneHidden(LinesOfPatch(output, i))
  {
    ShapeOf(output);
    var st := Scanned(Lines(output));
    var ls := LinesOfPatch(output, i);
    PatchLaidOut(st.binary, st.header, Group(st.blocks), i);
    if NoneHidden(ls) {
      GroupReparses(st.binary, st.header, Group(st.blocks), i);
    } else {
      TextReparsed(ls);
      HiddenAddRanges(ls);
      if ParsesToHunk(Parsed(output), Parsed(output).hunks[i]) {
        OneRange(Parsed(output), Parsed(output).hunks[i]);
      }
    }
  }

  /**
   The patch built for a hunk is the output's own bytes, so its context lines are the file's, exactly
   when those bytes are UTF-8.
   */
  lemma OwnBytesIff(output: seq<byte>, i: nat)
    requires i < |Parsed(output).hunks|
    ensures var p := PatchFor(Parsed(output), Parsed(output).hunks[i]);
            var own := Concat(LinesOfPatch(output, i));
            p == Lossy(own) && (p == own <==> Valid(own))
  {
    ShapeOf(output);
    var st := Scanned(Lines(output));
    PatchLaidOut(st.binary, st.header, Group(st.blocks), i);
    KeptIffValid(Concat(LinesOfPatch(output, i)));
  }

  /**
   For any output and any range: a patch is built exactly when some hunk states the range, and from
   the first that does. It parses to that hunk alone, and is the output's own bytes, each exactly
   when a condition on the lines it is made of says so.
   */
  lemma OneHunkReparses(output: seq<byte>, range: HunkRange)
    ensures var d := Parsed(output);
            match OneHunk(d, range)
            case None => range !in Ranges(d.hunks)
            case Some(p) => exists i :: IsFirstAt(d.hunks, range, i) && IsPatchFrom(output, p, i)
  {
    var d := Parsed(output);
    FindsFirst(d.hunks, range);
    if Find(d.hunks, range).Some? {
      var h := Find(d.hunks, range).value;
      var i :| 0 <= i < |d.hunks| && d.hunks[i] == h && h.range == range && range !in Ranges(d.hunks[..i]);
      HunkReparsesIff(output, i);
      OwnBytesIff(output, i);
      assert IsFirstAt(d.hunks, range, i) && IsPatchFrom(output, PatchFor(d, h), i);
    }
  }

  predicate IsFirstAt(hunks: seq<RawHunk>, range: HunkRange, i: int) {
    0 <= i < |hunks| && hunks[i].range == range && range !in Ranges(hunks[..i])
  }

  /** `p` is the patch for hunk `i`: what it parses to, and whose bytes it is. */
  predicate IsPatchFrom(output: seq<byte>, p: seq<byte>, i: nat)
    requires i < |Parsed(output).hunks|
  {
    var d, ls := Parsed(output), LinesOfPatch(output, i);
    && p == PatchFor(d, d.hunks[i])
    && (ParsesToHunk(d, d.hunks[i]) <==> NoneHidden(ls))
    && (p == Concat(ls) <==> Valid(Concat(ls)))
  }

  /** A hunk's line that `git` prints is hidden exactly when its section heading is not UTF-8 and its numbers fit. */
  lemma HiddenByItsHeading(r: HunkRange, shortOld: bool, shortNew: bool, heading: seq<byte>)
    requires shortOld ==> r.oldLines == IMPLIED_COUNT
    requires shortNew ==> r.newLines == IMPLIED_COUNT
    ensures HiddenHunk(PrintHunkLine(r, shortOld, shortNew, heading)) <==> !Valid(heading) && FitsU32(r)
  {
    var front := PrintHunkLine(r, shortOld, shortNew, []);
    HeadingApart(r, shortOld, shortNew, heading);
    HeadingApart(r, shortOld, shortNew, Lossy(heading));
    ValidIsKept(front);
    LossyAfterAscii(front, heading);
    LossyIsValid(heading);
    HunkLineRoundTrip(r, shortOld, shortNew, Lossy(heading));
  }

  lemma HeadingApart(r: HunkRange, shortOld: bool, shortNew: bool, heading: seq<byte>)
    requires shortOld ==> r.oldLines == IMPLIED_COUNT
    requires shortNew ==> r.newLines == IMPLIED_COUNT
    ensures var front := PrintHunkLine(r, shortOld, shortNew, []);
            && PrintHunkLine(r, shortOld, shortNew, heading) == front + heading
            && front != [] && front[|front| - 1] == SPACE && Valid(front)
  {
    var a := PrintSide(OLD_SIDE, r.oldStart, r.oldLines, shortOld);
    var b := PrintSide(NEW_SIDE, r.newStart, r.newLines, shortNew);
    SideIsField(OLD_SIDE, r.oldStart, r.oldLines, shortOld);
    SideIsField(NEW_SIDE, r.newStart, r.newLines, shortNew);
    AsciiLine(a, b);
    assert HUNK + a + [SPACE] + b + [SPACE] + [] == HUNK + a + [SPACE] + b + [SPACE];
  }

  lemma AsciiLine(a: seq<byte>, b: seq<byte>)
    requires IsField(a) && IsField(b)
    ensures Valid(HUNK + a + [SPACE] + b + [SPACE])
  {
    forall x | x in HUNK + a + [SPACE] + b + [SPACE] ensures IsAscii(x) {
      assert x in HUNK || x in a || x == SPACE || x in b;
    }
    AsciiIsValid(HUNK + a + [SPACE] + b + [SPACE]);
  }
}
