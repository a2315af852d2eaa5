/** Which paths a one-hunk patch names: when it names one, and when that is the path the hunk came from. */
module PatchNames {
  import opened Bytes
  import opened Decimal
  import opened DiffParse
  import opened DiffLaws
  import opened Patch
  import opened Utf8
  import opened Wrappers

  // ---------------------------------------------------------------- counting paths

  function Files(ls: seq<Line>): nat {
    if ls == [] then 0 else (if IsFile(ls[0]) then 1 else 0) + Files(ls[1..])
  }

  lemma {:induction false} FilesAppend(a: seq<Line>, b: seq<Line>)
    ensures Files(a + b) == Files(a) + Files(b)
  {
    if a == [] {
      assert a + b == b;
    } else {
      assert (a + b)[1..] == a[1..] + b;
      FilesAppend(a[1..], b);
    }
  }

  lemma {:induction false} NoFiles(ls: seq<Line>)
    ensures Files(ls) == 0 <==> forall l <- ls :: !IsFile(l)
  {
    if ls != [] {
      NoFiles(ls[1..]);
      assert forall l | l in ls :: l == ls[0] || l in ls[1..];
    }
  }

  lemma {:induction false} FilesLossy(ls: seq<Line>)
    ensures Files(LossyLines(ls)) == Files(ls)
  {
    if ls != [] {
      FilesLossy(ls[1..]);
      assert LossyLines(ls)[1..] == LossyLines(ls[1..]);
      SameKind(ls[0]);
    }
  }

  lemma FilesInBlock(b: Block)
    requires BlockShape(b)
    ensures Files(b.lines) == if b.range.None? then 1 else 0
  {
    NoFiles(b.lines[1..]);
    if IsFile(b.lines[0]) {
      FileIsNotRanged(b.lines[0]);
    }
  }

  lemma {:induction false} FilesInRangeless(blocks: seq<Block>)
    requires Rangeless(blocks) && forall b <- blocks :: BlockShape(b)
    ensures Files(LinesIn(blocks)) == |blocks|
  {
    if blocks != [] {
      assert blocks[0] in blocks;
      FilesAppend(blocks[0].lines, LinesIn(blocks[1..]));
      FilesInBlock(blocks[0]);
      FilesInRangeless(blocks[1..]);
    }
  }

  lemma FilesInSnoc(front: seq<Block>, last: Block)
    requires Rangeless(front) && last.range.Some?
    requires BlockShape(last) && forall b <- front :: BlockShape(b)
    ensures Files(LinesIn(front + [last])) == |front|
  {
    LinesInSnoc(front, last);
    FilesAppend(LinesIn(front), last.lines);
    FilesInRangeless(front);
    FilesInBlock(last);
  }

  lemma FilesInGroup(x: seq<Block>)
    requires GroupShape(x) && forall b <- x :: BlockShape(b)
    ensures Files(LinesIn(x)) == |x| - 1
  {
    var front, last := x[..|x| - 1], x[|x| - 1];
    GroupParts(x, front, last);
    FilesInSnoc(front, last);
  }

  lemma GroupParts(x: seq<Block>, front: seq<Block>, last: Block)
    requires GroupShape(x) && (forall b <- x :: BlockShape(b)) && front == x[..|x| - 1] && last == x[|x| - 1]
    ensures x == front + [last] && Rangeless(front) && last.range.Some? && BlockShape(last)
    ensures forall b <- front :: BlockShape(b)
  {
    assert last in x && forall b <- front :: b in x;
  }

  /** How many paths a patch names. */
  function FilesNamed(patch: seq<byte>): nat {
    Files(Lines(patch))
  }

  lemma FilesOfText(ls: seq<Line>)
    requires AreLines(ls)
    ensures FilesNamed(Lossy(Concat(ls))) == Files(ls)
  {
    LinesOfLossy(ls);
    FilesLossy(ls);
  }

  /** The paths the patch for hunk `i` names: those whose headers it carries, and those left after it. */
  lemma FilesOfPatch(binary: bool, header: seq<Line>, g: Grouping, i: nat)
    requires GroupingShape(g) && i < |g.groups|
    requires Layout(header, Concat(g.groups) + g.pending)
    ensures var d := Rendered(binary, header, g);
            FilesNamed(PatchFor(d, d.hunks[i]))
            == (if |g.groups[i]| > 1 then |g.groups[i]| - 1 else Files(header)) + |Trailing(g, i)|
  {
    var x, trailing := g.groups[i], Trailing(g, i);
    var before, after := AroundGroup(g, i);
    HunkText(g, i);
    StretchLayout(header, before, x + trailing, after);
    HunkStartsWithFile(g, i);
    TextOfHunk(g, i);
    var body := LinesIn(x + trailing);
    LinesInAppend(x, trailing);
    FilesAppend(LinesIn(x), LinesIn(trailing));
    assert forall b | b in x || b in trailing :: b in x + trailing;
    FilesInGroup(x);
    FilesInRangeless(trailing);
    if |x| > 1 {
      FilesOfText(body);
    } else {
      LossySplit(header, body);
      FilesOfText(header + body);
      FilesAppend(header, body);
    }
  }

  // ---------------------------------------------------------------- when a patch names one file

  /**
   Reads down a patch, minding whether the last path named still wants a hunk: none when a path
   is named while another wants one.
   */
  function Named(ls: seq<Line>, wanting: bool): Option<bool> {
    if ls == [] then Some(wanting)
    else if IsFile(ls[0]) then (if wanting then None else Named(ls[1..], true))
    else if IsRanged(ls[0]) then Named(ls[1..], false)
    else Named(ls[1..], wanting)
  }

  /** Every path the patch names has a hunk before the next path, or the end. */
  predicate EveryFileHasAHunk(ls: seq<Line>) {
    Named(ls, false) == Some(false)
  }

  lemma {:induction false} NamedAppend(a: seq<Line>, b: seq<Line>, wanting: bool)
    ensures Named(a + b, wanting) == match Named(a, wanting) case None => None case Some(w) => Named(b, w)
  {
    if a == [] {
      assert a + b == b;
    } else {
      assert (a + b)[1..] == a[1..] + b;
      NamedAppend(a[1..], b, if IsFile(a[0]) then true else if IsRanged(a[0]) then false else wanting);
    }
  }

  lemma {:induction false} NamedWithoutHunks(ls: seq<Line>, wanting: bool)
    requires forall l <- ls :: !IsRanged(l)
    ensures Named(ls, wanting)
            == if Files(ls) + (if wanting then 1 else 0) > 1 then None else Some(wanting || Files(ls) == 1)
  {
    if ls != [] {
      assert ls[0] in ls;
      NamedWithoutHunks(ls[1..], wanting || IsFile(ls[0]));
    }
  }

  lemma NamedGroup(x: seq<Block>, wanting: bool)
    requires GroupShape(x) && forall b <- x :: BlockShape(b)
    ensures Named(LinesIn(x), wanting) == if |x| + (if wanting then 1 else 0) > 2 then None else Some(false)
  {
    var front, last := x[..|x| - 1], x[|x| - 1];
    assert x == front + [last] && last in x;
    assert forall b | b in front :: b in x;
    LinesInSnoc(front, last);
    NamedAppend(LinesIn(front), last.lines, wanting);
    RangelessLines(front);
    FilesInRangeless(front);
    NamedWithoutHunks(LinesIn(front), wanting);
    NamedBlock(last, true);
    NamedBlock(last, false);
  }

  lemma NamedBlock(b: Block, wanting: bool)
    requires BlockShape(b) && b.range.Some?
    ensures Named(b.lines, wanting) == Some(false)
  {
    if IsFile(b.lines[0]) {
      FileIsNotRanged(b.lines[0]);
    }
    NoFiles(b.lines[1..]);
    NamedWithoutHunks(b.lines[1..], false);
  }

  lemma {:induction false} NamedGroups(groups: seq<seq<Block>>)
    requires forall x <- groups :: GroupShape(x)
    requires forall b <- Concat(groups) :: BlockShape(b)
    ensures Named(LinesIn(Concat(groups)), false)
            == if forall x <- groups :: |x| <= 2 then Some(false) else None
  {
    if groups != [] {
      var x, rest := groups[0], groups[1..];
      assert x in groups;
      assert forall b | b in x || b in Concat(rest) :: b in Concat(groups);
      LinesInAppend(x, Concat(rest));
      NamedAppend(LinesIn(x), LinesIn(Concat(rest)), false);
      NamedGroup(x, false);
      NamedGroups(rest);
      assert forall y | y in groups :: y == x || y in rest;
    }
  }

  lemma NamedPatch(header: seq<Line>, g: Grouping)
    requires GroupingShape(g) && g.groups != [] && |g.groups[0]| == 1
    requires Layout(header, Concat(g.groups) + g.pending)
    ensures EveryFileHasAHunk(header + LinesIn(Concat(g.groups) + g.pending))
            <==> Files(header) == 1 && (forall x <- g.groups :: |x| <= 2) && g.pending == []
  {
    var x, rest := g.groups[0], g.groups[1..];
    var mid := LinesIn(Concat(rest));
    LinesInAppend(Concat(g.groups), g.pending);
    LinesInAppend(x, Concat(rest));
    assert forall b | b in x || b in Concat(rest) || b in g.pending :: b in Concat(g.groups) + g.pending;
    NamedAppend(header, LinesIn(x) + mid + LinesIn(g.pending), false);
    NamedAppend(LinesIn(x) + mid, LinesIn(g.pending), true);
    NamedAppend(LinesIn(x), mid, true);
    FileIsNotRanged(header[0]);
    NamedWithoutHunks(header, false);
    NamedGroup(x, true);
    NamedGroups(rest);
    RangelessLines(g.pending);
    FilesInRangeless(g.pending);
    NamedWithoutHunks(LinesIn(g.pending), false);
    assert Files(header) >= 1;
    assert forall y | y in g.groups :: y == x || y in rest;
  }

  lemma OpensOnAHunk(x: seq<Block>)
    requires GroupShape(x)
    ensures x[0].range.Some? <==> |x| == 1
  {
    assert |x| > 1 ==> x[..|x| - 1][0] in x[..|x| - 1];
  }

  /** The first group is a single block: the lines before the first hunk are the header's. */
  lemma FirstGroupIsBare(g: Grouping)
    requires GroupingShape(g) && g.groups != []
    requires BlocksShape(Concat(g.groups) + g.pending)
    ensures |g.groups[0]| == 1
  {
    assert g.groups[0] in g.groups;
    OpensOnAHunk(g.groups[0]);
    assert (Concat(g.groups) + g.pending)[0] == g.groups[0][0];
  }

  /** How many paths the patch for hunk `i` names, given how many the header does. */
  function NamedBy(g: Grouping, i: nat, inHeader: nat): int
    requires i < |g.groups|
  {
    (if |g.groups[i]| > 1 then |g.groups[i]| - 1 else inHeader) + |Trailing(g, i)|
  }

  lemma AllNameOne(g: Grouping, inHeader: nat)
    requires g.groups != [] && |g.groups[0]| == 1 && inHeader >= 1
    requires forall x <- g.groups :: |x| >= 1
    ensures (forall i | 0 <= i < |g.groups| :: NamedBy(g, i, inHeader) == 1)
            <==> inHeader == 1 && (forall x <- g.groups :: |x| <= 2) && g.pending == []
  {
    if forall i | 0 <= i < |g.groups| :: NamedBy(g, i, inHeader) == 1 {
      assert NamedBy(g, 0, inHeader) == 1;
      assert NamedBy(g, |g.groups| - 1, inHeader) == 1;
      forall x | x in g.groups ensures |x| <= 2 {
        var i :| 0 <= i < |g.groups| && g.groups[i] == x;
        assert NamedBy(g, i, inHeader) == 1;
      }
    }
  }

  /**
   Every patch built from one hunk of the diff names one file exactly when every path the output
   names has a hunk of its own.
   */
  lemma NamesOneFileIff(output: seq<byte>)
    requires Parsed(output).hunks != []
    ensures EachNamesOne(Parsed(output)) <==> EveryFileHasAHunk(PatchOf(output))
  {
    ShapeOf(output);
    var st := Scanned(Lines(output));
    RenderedNamesOneIff(st.binary, st.header, Group(st.blocks));
  }

  predicate EachNamesOne(d: RawFileDiff) {
    forall i | 0 <= i < |d.hunks| :: FilesNamed(PatchFor(d, d.hunks[i])) == 1
  }

  lemma RenderedNamesOneIff(binary: bool, header: seq<Line>, g: Grouping)
    requires GroupingShape(g) && g.groups != []
    requires Layout(header, Concat(g.groups) + g.pending) && BlocksShape(Concat(g.groups) + g.pending)
    ensures EachNamesOne(Rendered(binary, header, g))
            <==> EveryFileHasAHunk(header + LinesIn(Concat(g.groups) + g.pending))
  {
    FirstGroupIsBare(g);
    NamedPatch(header, g);
    AllNameOne(g, Files(header));
    var d := Rendered(binary, header, g);
    forall i | 0 <= i < |d.hunks|
      ensures FilesNamed(PatchFor(d, d.hunks[i])) == NamedBy(g, i, Files(header))
    {
      FilesOfPatch(binary, header, g, i);
    }
  }

  /** When the whole patch names one path, no hunk carries a path's header, before it or after. */
  lemma OnePathIsBare(header: seq<Line>, g: Grouping, i: nat)
    requires GroupingShape(g) && i < |g.groups|
    requires Layout(header, Concat(g.groups) + g.pending)
    requires Files(header + LinesIn(Concat(g.groups) + g.pending)) == 1
    ensures Files(header) == 1 && |g.groups[i]| == 1 && Trailing(g, i) == []
  {
    var before, after := AroundGroup(g, i);
    HunkText(g, i);
    var mid := g.groups[i] + Trailing(g, i);
    StretchLayout(header, before, mid, after);
    FilesAppend(header + LinesIn(before) + LinesIn(mid), LinesIn(after));
    FilesAppend(header + LinesIn(before), LinesIn(mid));
    FilesAppend(header, LinesIn(before));
    LinesInAppend(g.groups[i], Trailing(g, i));
    FilesAppend(LinesIn(g.groups[i]), LinesIn(Trailing(g, i)));
    assert forall b | b in g.groups[i] || b in Trailing(g, i) :: b in mid;
    FilesInGroup(g.groups[i]);
    FilesInRangeless(Trailing(g, i));
    assert Files(header) >= 1;
  }

  /**
   In a diff of one path every hunk's patch is the diff's header and the hunk's own lines, naming that
   one path. It parses to that header and that hunk exactly when none of those lines hides a hunk
   line, and is byte for byte the output's exactly when they are UTF-8.
   */
  lemma OnePathOneHunk(output: seq<byte>, i: nat)
    requires Files(PatchOf(output)) == 1
    requires i < |Parsed(output).hunks|
    ensures var d := Parsed(output);
            var p, ls := PatchFor(d, d.hunks[i]), LinesOfCut(output, 0) + LinesOfHunk(output, i);
            && FilesNamed(p) == 1
            && (Parsed(p) == RawFileDiff(false, d.header, [d.hunks[i]]) <==> NoneHidden(ls))
            && (p == Concat(ls) <==> Valid(Concat(ls)))
  {
    ShapeOf(output);
    var st := Scanned(Lines(output));
    OnePathIsBare(st.header, Group(st.blocks), i);
    LinesBetweenCuts(output, i);
    HunkReparsesIff(output, i);
    OwnBytesIff(output, i);
    HunksStartWithFile(output, i);
    FilesOfPatch(st.binary, st.header, Group(st.blocks), i);
  }

  // ---------------------------------------------------------------- which file a hunk goes under

  /** The path named last. */
  function LastFile(ls: seq<Line>): Option<Line>
    decreases |ls|
  {
    if ls == [] then None
    else if IsFile(ls[|ls| - 1]) then Some(ls[|ls| - 1])
    else LastFile(ls[..|ls| - 1])
  }

  predicate DistinctFiles(ls: seq<Line>) {
    forall i, j | 0 <= i < j < |ls| && IsFile(ls[i]) && IsFile(ls[j]) :: ls[i] != ls[j]
  }

  lemma {:induction false} LastFileAppend(a: seq<Line>, b: seq<Line>)
    ensures LastFile(a + b) == if Files(b) == 0 then LastFile(a) else LastFile(b)
    ensures LastFile(b).Some? <==> Files(b) > 0
    decreases |b|
  {
    if b == [] {
      assert a + b == a;
    } else {
      var front, last := b[..|b| - 1], b[|b| - 1];
      assert b == front + [last];
      assert (a + b)[..|a + b| - 1] == a + front;
      LastFileAppend(a, front);
      FilesAppend(front, [last]);
      assert Files([last]) == (if IsFile(last) then 1 else 0) + Files([]);
    }
  }

  lemma {:induction false} LastFileIn(ls: seq<Line>)
    requires LastFile(ls).Some?
    ensures exists i :: 0 <= i < |ls| && IsFile(ls[i]) && LastFile(ls) == Some(ls[i])
    decreases |ls|
  {
    if !IsFile(ls[|ls| - 1]) {
      var front := ls[..|ls| - 1];
      LastFileIn(front);
      var i :| 0 <= i < |front| && IsFile(front[i]) && LastFile(front) == Some(front[i]);
      assert ls[i] == front[i];
    }
  }

  lemma {:induction false} FilesInGroups(groups: seq<seq<Block>>)
    requires forall x <- groups :: GroupShape(x)
    requires forall b <- Concat(groups) :: BlockShape(b)
    ensures Files(LinesIn(Concat(groups))) == 0 <==> forall x <- groups :: |x| == 1
  {
    if groups != [] {
      var x, rest := groups[0], groups[1..];
      assert x in groups;
      assert forall b | b in x || b in Concat(rest) :: b in Concat(groups);
      LinesInAppend(x, Concat(rest));
      FilesAppend(LinesIn(x), LinesIn(Concat(rest)));
      FilesInGroup(x);
      FilesInGroups(rest);
      assert forall y | y in groups :: y == x || y in rest;
    }
  }

  /** The lines of a diff cut before hunk `i`: its header's, then those of the hunks before. */
  lemma LinesBefore(output: seq<byte>, i: nat)
    requires i < |Parsed(output).hunks|
    ensures var d := Parsed(output);
            var st := Scanned(Lines(output));
            var before := LinesIn(Concat(Group(st.blocks).groups[..i]));
            && Lines(Text(Cut(d, i))) == LossyLines(st.header) + LossyLines(before)
            && Lines(d.header) == LossyLines(st.header)
  {
    ShapeOf(output);
    var d := Parsed(output);
    var st := Scanned(Lines(output));
    var g := Group(st.blocks);
    var c := CutGroups(g, i);
    CutGroupsHunks(g, i);
    var rest := CutGroupsPrefix(g, i);
    var kept := Concat(c.groups) + c.pending;
    assert kept == Concat(g.groups[..i]);
    FrontShape(kept, rest);
    LinesInAppend(kept, rest);
    Assoc(st.header, LinesIn(kept), LinesIn(rest));
    AreLinesSplit(st.header + LinesIn(kept), LinesIn(rest));
    AreLinesSplit(st.header, LinesIn(kept));
    TextOfRendered(false, st.header, c);
    LinesOfLossy(st.header + LinesIn(kept));
    LinesOfLossy(st.header);
    LossyLinesAppend(st.header, LinesIn(kept));
  }

  lemma HunksStartWithFile(output: seq<byte>, i: nat)
    requires i < |Parsed(output).hunks|
    ensures i < |Group(Scanned(Lines(output)).blocks).groups|
    ensures FILE <= Parsed(output).hunks[i].text <==> |Group(Scanned(Lines(output)).blocks).groups[i]| > 1
  {
    ShapeOf(output);
    var st := Scanned(Lines(output));
    var g := Group(st.blocks);
    var before, after := AroundGroup(g, i);
    HunkText(g, i);
    StretchLayout(st.header, before, g.groups[i] + Trailing(g, i), after);
    HunkStartsWithFile(g, i);
  }

  /** No earlier hunk carries a path's header exactly when no path is named between the header and the hunk. */
  lemma EarlierHunks(output: seq<byte>, i: nat)
    requires i < |Parsed(output).hunks|
    ensures var g := Group(Scanned(Lines(output)).blocks);
            && i < |g.groups|
            && (Files(LinesIn(Concat(g.groups[..i]))) == 0
                <==> forall j | 0 <= j < i :: !(FILE <= Parsed(output).hunks[j].text))
  {
    ShapeOf(output);
    var g := Group(Scanned(Lines(output)).blocks);
    EarlierBlocks(g, i);
    FilesInGroups(g.groups[..i]);
    forall j | 0 <= j < i
      ensures FILE <= Parsed(output).hunks[j].text <==> |g.groups[..i][j]| > 1
      ensures |g.groups[..i][j]| >= 1
    {
      HunksStartWithFile(output, j);
      assert g.groups[..i][j] in g.groups[..i];
    }
  }

  /**
   A hunk that carries no path's header goes under the diff's own header. No path is named between the
   two, so that they belong together, exactly when no hunk before it carries a later path's header.
   */
  lemma GoesUnderItsOwnFileIff(output: seq<byte>, i: nat)
    requires i < |Parsed(output).hunks|
    ensures var d := Parsed(output);
            FilesNamed(Text(Cut(d, i))) == FilesNamed(d.header)
            <==> forall j | 0 <= j < i :: !(FILE <= d.hunks[j].text)
  {
    var st := Scanned(Lines(output));
    EarlierHunks(output, i);
    LinesBefore(output, i);
    var before := LinesIn(Concat(Group(st.blocks).groups[..i]));
    FilesLossy(before);
    FilesAppend(LossyLines(st.header), LossyLines(before));
  }

  /** Where no two headers before a hunk are alike, the diff's header is the last of them exactly then. */
  lemma HeaderIsTheLastIff(output: seq<byte>, i: nat)
    requires i < |Parsed(output).hunks|
    requires DistinctFiles(Lines(Text(Cut(Parsed(output), i))))
    ensures var d := Parsed(output);
            LastFile(Lines(d.header)) == LastFile(Lines(Text(Cut(d, i))))
            <==> forall j | 0 <= j < i :: !(FILE <= d.hunks[j].text)
  {
    var st := Scanned(Lines(output));
    EarlierHunks(output, i);
    LinesBefore(output, i);
    var before := LinesIn(Concat(Group(st.blocks).groups[..i]));
    FilesLossy(before);
    HeaderNamesAFile(output);
    LastFileAppend([], LossyLines(st.header));
    assert [] + LossyLines(st.header) == LossyLines(st.header);
    LastOfTwo(LossyLines(st.header), LossyLines(before));
  }

  lemma HeaderNamesAFile(output: seq<byte>)
    requires Parsed(output).hunks != []
    ensures Files(LossyLines(Scanned(Lines(output)).header)) > 0
  {
    ShapeOf(output);
    FilesLossy(Scanned(Lines(output)).header);
  }

  lemma LastOfTwo(a: seq<Line>, b: seq<Line>)
    requires DistinctFiles(a + b)
    requires LastFile(a).Some?
    ensures LastFile(a) == LastFile(a + b) <==> Files(b) == 0
  {
    LastFileAppend(a, b);
    if Files(b) > 0 {
      DifferentFiles(a, b);
    }
  }

  lemma EarlierBlocks(g: Grouping, i: nat)
    requires i <= |g.groups| && forall b <- Concat(g.groups) + g.pending :: BlockShape(b)
    requires GroupingShape(g)
    ensures forall x <- g.groups[..i] :: GroupShape(x)
    ensures forall b <- Concat(g.groups[..i]) :: BlockShape(b)
  {
    ConcatSplit(g.groups, i);
    assert forall b | b in Concat(g.groups[..i]) :: b in Concat(g.groups) + g.pending;
    assert forall x | x in g.groups[..i] :: x in g.groups;
  }

  lemma DifferentFiles(a: seq<Line>, b: seq<Line>)
    requires DistinctFiles(a + b)
    requires LastFile(a).Some? && LastFile(b).Some?
    ensures LastFile(a) != LastFile(b)
  {
    LastFileIn(a);
    LastFileIn(b);
    var i :| 0 <= i < |a| && IsFile(a[i]) && LastFile(a) == Some(a[i]);
    var j :| 0 <= j < |b| && IsFile(b[j]) && LastFile(b) == Some(b[j]);
    assert (a + b)[i] == a[i] && (a + b)[|a| + j] == b[j];
  }

  // ---------------------------------------------------------------- a diff that shows both

  predicate TextLine(l: Line) {
    IsLine(l) && EndsLine(l) && Valid(l)
  }

  predicate FileLine(l: Line) { TextLine(l) && IsFile(l) }

  predicate HunkLine(l: Line) { TextLine(l) && IsRanged(l) && !IsFile(l) }

  function HunkBlock(l: Line): Block {
    Block(LineRange(l), [l])
  }

  lemma FileBlock(l: Line)
    requires IsFile(l)
    ensures LineRange(l) == None
  {
    FileIsNotRanged(l);
  }

  lemma HunkOfTwoLines(a: Line, h: Line, c: Line)
    requires FileLine(a) && HunkLine(h) && IsLine(c) && !IsRanged(c) && !IsFile(c)
    ensures Lines(Concat([a, h, c])) == [a, h, c]
    ensures Scanned([a, h, c]) == State(false, true, [a], [Block(LineRange(h), [h, c])])
  {
    LinesUnique([a, h, c]);
    FileBlock(a);
    ScannedStep([], a, [a], State(false, true, [a], []));
    ScannedStep([a], h, [a, h], State(false, true, [a], [HunkBlock(h)]));
    assert [h] + [c] == [h, c];
    ScannedStep([a, h], c, [a, h, c], State(false, true, [a], [Block(LineRange(h), [h, c])]));
  }

  /**
   A content line that is not UTF-8: the patch built for its hunk is not the output's bytes, and it does
   not even parse to that hunk when the line is a hidden hunk line.
   */
  lemma UndecodableLineMisleads(a: Line, h: Line, c: Line)
    requires FileLine(a) && HunkLine(h) && IsLine(c) && !Valid(c) && !IsFile(c)
    ensures var output := Concat([a, h, c]);
            var d := Parsed(output);
            && |d.hunks| == 1
            && PatchFor(d, d.hunks[0]) != output
            && (ParsesToHunk(d, d.hunks[0]) <==> !HiddenHunk(c))
  {
    var output := Concat([a, h, c]);
    var b := Block(LineRange(h), [h, c]);
    HunkOfTwoLines(a, h, c);
    GroupStep([], b, [b], Grouping([[b]], []));
    assert LinesIn([b] + []) == [h, c];
    assert LinesOfPatch(output, 0) == [a, h, c];
    HunkReparsesIff(output, 0);
    OwnBytesIff(output, 0);
    NotTextThroughout(a, h, c);
  }

  /** The one hunk of two lines, and the patch built for it. */
  lemma PatchOfTwoLines(a: Line, h: Line, c: Line)
    requires FileLine(a) && HunkLine(h) && TextLine(c) && !IsRanged(c) && !IsFile(c)
    ensures OneHunk(Parsed(Concat([a, h, c])), LineRange(h).value) == Some(Concat([a, h, c]))
  {
    var output := Concat([a, h, c]);
    var b := Block(LineRange(h), [h, c]);
    HunkOfTwoLines(a, h, c);
    GroupStep([], b, [b], Grouping([[b]], []));
    assert LinesIn([b] + []) == [h, c];
    assert LinesOfPatch(output, 0) == [a, h, c];
    OwnBytesIff(output, 0);
    TextThroughout(a, h, c);
    assert Parsed(output).hunks[0].range == LineRange(h).value;
  }

  lemma TextThroughout(a: Line, h: Line, c: Line)
    requires TextLine(a) && TextLine(h) && TextLine(c)
    ensures Valid(Concat([a, h, c]))
  {
    ConcatCons(a, [h, c]);
    ConcatCons(h, [c]);
    ConcatOne(c);
    LossyAfterAscii(a, h + c);
    LossyAfterAscii(h, c);
  }

  /**
   A request built against one diff finds a hunk in a later one that has changed what it changes: where
   only the content of a hunk differs, the same range names both, and the patches are different.
   */
  lemma StaleRequestFinds(a: Line, h: Line, before: Line, now: Line)
    requires FileLine(a) && HunkLine(h) && TextLine(before) && TextLine(now) && before != now
    requires !IsRanged(before) && !IsFile(before) && !IsRanged(now) && !IsFile(now)
    ensures var asked, found := Parsed(Concat([a, h, before])), Parsed(Concat([a, h, now]));
            var range := LineRange(h).value;
            && OneHunk(asked, range).Some? && OneHunk(found, range).Some?
            && OneHunk(asked, range) != OneHunk(found, range)
  {
    PatchOfTwoLines(a, h, before);
    PatchOfTwoLines(a, h, now);
    TextsDiffer(a, h, before, now);
  }

  lemma TextsDiffer(a: Line, h: Line, before: Line, now: Line)
    requires TextLine(a) && TextLine(h) && TextLine(before) && TextLine(now) && before != now
    ensures Concat([a, h, before]) != Concat([a, h, now])
  {
    LinesUnique([a, h, before]);
    LinesUnique([a, h, now]);
    assert [a, h, before][2] != [a, h, now][2];
  }

  /** A changed line with one byte of Latin-1 in it. */
  const LATIN_LINE: Line := [43, 0xE9, LF]

  /** `@@ -5,3 +5,3 @@ caf\xe9()`: a hunk's line whose section heading is Latin-1. */
  const LATIN_HEADING: Line :=
    [64, 64, 32, 45, 53, 44, 51, 32, 43, 53, 44, 51, 32, 64, 64, 32, 99, 97, 102, 0xE9, 40, 41, LF]

  /** Two such outputs: one whose patch is not its bytes, and one whose patch is not its hunk either. */
  lemma LatinMisleads(a: Line, h: Line)
    requires FileLine(a) && HunkLine(h)
    ensures var output := Concat([a, h, LATIN_LINE]);
            |Parsed(output).hunks| == 1 && PatchFor(Parsed(output), Parsed(output).hunks[0]) != output
    ensures var output := Concat([a, h, LATIN_HEADING]);
            |Parsed(output).hunks| == 1 && !ParsesToHunk(Parsed(output), Parsed(output).hunks[0])
  {
    LatinLine();
    UndecodableLineMisleads(a, h, LATIN_LINE);
    LatinHeading();
    UndecodableLineMisleads(a, h, LATIN_HEADING);
  }

  lemma LatinLine()
    ensures IsLine(LATIN_LINE) && !Valid(LATIN_LINE) && !IsFile(LATIN_LINE)
  {
    assert !Valid(LATIN_LINE[1..]);
  }

  lemma LatinHeading()
    ensures IsLine(LATIN_HEADING) && !Valid(LATIN_HEADING) && !IsFile(LATIN_HEADING)
    ensures HiddenHunk(LATIN_HEADING)
  {
    LatinHeadingIsHidden();
    LatinHeadingIsALine(LATIN_HEADING);
  }

  lemma LatinHeadingIsALine(l: Line)
    requires l == LATIN_HEADING
    ensures IsLine(l) && !IsFile(l)
  {
    assert l[0] != FILE[0];
  }

  lemma LatinHeadingIsHidden()
    ensures HiddenHunk(LATIN_HEADING)
  {
    var heading := LATIN_HEADING[13..];
    LatinTail(heading);
    PrintedAs(heading);
    HiddenByItsHeading(HunkRange(5, 3, 5, 3), false, false, heading);
  }

  lemma PrintedAs(heading: seq<byte>)
    requires heading == LATIN_HEADING[13..]
    ensures PrintHunkLine(HunkRange(5, 3, 5, 3), false, false, heading) == LATIN_HEADING
  {
    assert Digits(5) == [53] && Digits(3) == [51];
  }

  lemma LatinTail(heading: seq<byte>)
    requires heading == LATIN_HEADING[13..]
    ensures !Valid(heading)
  {
    NotTextFrom(heading, 6);
  }

  /** A lead byte with no continuation after it, straight after ASCII. */
  lemma NotTextFrom(s: seq<byte>, n: nat)
    requires 0 < n < |s| - 1 && IsAscii(s[n - 1]) && s[n] == 0xE9 && IsAscii(s[n + 1])
    ensures !Valid(s)
  {
    assert s == s[..n] + s[n..];
    NotTextAtLead(s[n..]);
    LossyAfterAscii(s[..n], s[n..]);
  }

  lemma NotTextAtLead(s: seq<byte>)
    requires |s| > 1 && s[0] == 0xE9 && IsAscii(s[1])
    ensures !Valid(s)
  {
  }

  lemma NotTextThroughout(a: Line, h: Line, c: Line)
    requires EndsLine(a) && EndsLine(h) && !Valid(c)
    ensures !Valid(Concat([a, h, c]))
  {
    assert Concat([a, h, c]) == a + (h + c) by {
      ConcatCons(a, [h, c]);
      ConcatCons(h, [c]);
      ConcatOne(c);
    }
    LossyAfterAscii(a, h + c);
    LossyAfterAscii(h, c);
  }

  lemma ThreeLinesScanned(a: Line, h1: Line, b: Line)
    requires FileLine(a) && FileLine(b) && HunkLine(h1)
    ensures Scanned([a, h1, b]) == State(false, true, [a], [HunkBlock(h1), HunkBlock(b)])
  {
    FileBlock(a);
    FileBlock(b);
    ScannedStep([], a, [a], State(false, true, [a], []));
    ScannedStep([a], h1, [a, h1], State(false, true, [a], [HunkBlock(h1)]));
    ScannedStep([a, h1], b, [a, h1, b], State(false, true, [a], [HunkBlock(h1), HunkBlock(b)]));
  }

  /** A path with a hunk, a path that only moved, and a path with two hunks. */
  lemma SixLinesScanned(a: Line, h1: Line, b: Line, c: Line, h2: Line, h3: Line)
    requires FileLine(a) && FileLine(b) && FileLine(c) && HunkLine(h1) && HunkLine(h2) && HunkLine(h3)
    ensures Scanned([a, h1, b, c, h2, h3])
            == State(false, true, [a], [HunkBlock(h1), HunkBlock(b), HunkBlock(c), HunkBlock(h2), HunkBlock(h3)])
  {
    FileBlock(c);
    var x1, xb, xc, x2, x3 := HunkBlock(h1), HunkBlock(b), HunkBlock(c), HunkBlock(h2), HunkBlock(h3);
    ThreeLinesScanned(a, h1, b);
    ScannedStep([a, h1, b], c, [a, h1, b, c], State(false, true, [a], [x1, xb, xc]));
    ScannedStep([a, h1, b, c], h2, [a, h1, b, c, h2], State(false, true, [a], [x1, xb, xc, x2]));
    ScannedStep([a, h1, b, c, h2], h3, [a, h1, b, c, h2, h3], State(false, true, [a], [x1, xb, xc, x2, x3]));
  }

  lemma ScannedStep(front: seq<Line>, line: Line, lines: seq<Line>, st: State)
    requires lines == front + [line] && Step(Scanned(front), line) == st
    ensures Scanned(lines) == st
  {
    ScannedSnoc(front, line);
  }

  lemma GroupStep(front: seq<Block>, last: Block, blocks: seq<Block>, after: Grouping)
    requires blocks == front + [last]
    requires var g := Group(front);
             var carried := g.pending + [last];
             if last.range.Some? then after.groups == g.groups + [carried] && after.pending == []
             else after.groups == g.groups && after.pending == carried
    ensures Group(blocks) == after
  {
    assert blocks[..|blocks| - 1] == front;
  }

  lemma FiveBlocksGrouped(b1: Block, b2: Block, b3: Block, b4: Block, b5: Block)
    requires b1.range.Some? && b2.range.None? && b3.range.None? && b4.range.Some? && b5.range.Some?
    ensures Group([b1, b2, b3, b4, b5]) == Grouping([[b1], [b2, b3, b4], [b5]], [])
  {
    GroupStep([], b1, [b1], Grouping([[b1]], []));
    GroupStep([b1], b2, [b1, b2], Grouping([[b1]], [b2]));
    GroupStep([b1, b2], b3, [b1, b2, b3], Grouping([[b1]], [b2, b3]));
    assert [b2, b3] + [b4] == [b2, b3, b4] && [] + [b5] == [b5] && [] + [b1] == [b1];
    GroupStep([b1, b2, b3], b4, [b1, b2, b3, b4], Grouping([[b1], [b2, b3, b4]], []));
    GroupStep([b1, b2, b3, b4], b5, [b1, b2, b3, b4, b5], Grouping([[b1], [b2, b3, b4], [b5]], []));
  }

  lemma SixLinesParsed(a: Line, h1: Line, b: Line, c: Line, h2: Line, h3: Line)
    requires FileLine(a) && FileLine(b) && FileLine(c) && HunkLine(h1) && HunkLine(h2) && HunkLine(h3)
    ensures var ls := [a, h1, b, c, h2, h3];
            var st := Scanned(Lines(Concat(ls)));
            && Lines(Concat(ls)) == ls && PatchLines(ls) == ls && st.header == [a]
            && Group(st.blocks).pending == []
            && var groups := Group(st.blocks).groups;
               |groups| == 3 && |groups[0]| == 1 && |groups[1]| == 3 && |groups[2]| == 1
  {
    FileBlock(b);
    FileBlock(c);
    var ls := [a, h1, b, c, h2, h3];
    LinesOfText(ls);
    SixLinesScanned(a, h1, b, c, h2, h3);
    assert PatchLines(ls) == ls;
    FiveBlocksGrouped(HunkBlock(h1), HunkBlock(b), HunkBlock(c), HunkBlock(h2), HunkBlock(h3));
  }

  lemma LinesOfText(ls: seq<Line>)
    requires forall l <- ls :: TextLine(l)
    ensures AreLines(ls) && Lines(Lossy(Concat(ls))) == ls && Lines(Concat(ls)) == ls
  {
    forall i | 0 <= i < |ls| ensures TextLine(ls[i]) && Lossy(ls[i]) == ls[i] {
      assert ls[i] in ls;
      ValidIsKept(ls[i]);
    }
    LinesOfLossy(ls);
    LinesUnique(ls);
    assert LossyLines(ls) == ls;
  }

  /**
   In a diff of several paths, a patch built from one hunk may name two files, and may go under a
   file the hunk did not come from: the second hunk's does the one, the third's the other.
   */
  lemma SeveralPathsMislead(a: Line, h1: Line, b: Line, c: Line, h2: Line, h3: Line)
    requires FileLine(a) && FileLine(b) && FileLine(c) && HunkLine(h1) && HunkLine(h2) && HunkLine(h3)
    requires a != b && b != c && a != c
    ensures var d := Parsed(Concat([a, h1, b, c, h2, h3]));
            && |d.hunks| == 3
            && FilesNamed(PatchFor(d, d.hunks[1])) == 2
            && !(FILE <= d.hunks[2].text)
            && LastFile(Lines(d.header)) != LastFile(Lines(Text(Cut(d, 2))))
  {
    var ls := [a, h1, b, c, h2, h3];
    var output := Concat(ls);
    SixLinesText(a, h1, b, c, h2, h3);
    SixLinesParsed(a, h1, b, c, h2, h3);
    ShapeOf(output);
    var st := Scanned(Lines(output));
    FilesOfPatch(st.binary, st.header, Group(st.blocks), 1);
    HunksStartWithFile(output, 1);
    HunksStartWithFile(output, 2);
    CutIsDistinct(output, 2);
    HeaderIsTheLastIff(output, 2);
  }

  lemma CutIsDistinct(output: seq<byte>, k: nat)
    requires k <= |Parsed(output).hunks| && PatchOf(output) != []
    requires DistinctFiles(Lines(Text(Parsed(output))))
    ensures DistinctFiles(Lines(Text(Cut(Parsed(output), k))))
  {
    CutLaidOut(output, k);
    CutKeepsTheFront(output, k);
    TextOfPatch(output);
    PatchLinesAreLines(output);
    LinesOfLossy(LinesOfCut(output, k));
    LinesOfLossy(PatchOf(output));
    var front, all := LossyLines(LinesOfCut(output, k)), LossyLines(PatchOf(output));
    assert forall i | 0 <= i < |front| :: front[i] == all[i];
  }

  lemma SixLinesText(a: Line, h1: Line, b: Line, c: Line, h2: Line, h3: Line)
    requires FileLine(a) && FileLine(b) && FileLine(c) && HunkLine(h1) && HunkLine(h2) && HunkLine(h3)
    requires a != b && b != c && a != c
    ensures DistinctFiles(Lines(Text(Parsed(Concat([a, h1, b, c, h2, h3])))))
  {
    var ls := [a, h1, b, c, h2, h3];
    TextLinesKept(ls);
    ThreeDistinct(ls);
  }

  /** A patch whose lines are text keeps them. */
  lemma TextLinesKept(ls: seq<Line>)
    requires (forall l <- ls :: TextLine(l)) && ls != [] && IsFile(ls[0])
    ensures Lines(Text(Parsed(Concat(ls)))) == ls
  {
    LinesOfText(ls);
    assert PatchLines(ls) == ls;
    TextOfPatch(Concat(ls));
  }

  lemma ThreeDistinct(ls: seq<Line>)
    requires |ls| == 6 && !IsFile(ls[1]) && !IsFile(ls[4]) && !IsFile(ls[5])
    requires ls[0] != ls[2] && ls[2] != ls[3] && ls[0] != ls[3]
    ensures DistinctFiles(ls)
  {
    forall i, j | 0 <= i < j < |ls| && IsFile(ls[i]) && IsFile(ls[j]) ensures ls[i] != ls[j] {
      assert i == 0 || i == 2 || i == 3;
      assert j == 2 || j == 3;
    }
  }
}
