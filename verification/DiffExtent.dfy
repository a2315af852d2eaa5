/** Which of a diff's first hunks are handed over together, and what that text parses to. */
module DiffExtent {
  import opened Bytes
  import opened DiffParse
  import opened DiffLaws
  import opened Patch
  import opened Wrappers

  const DIFF_LIMIT: nat := 256 * 1024

  datatype Extent = Capped | Full

  datatype Carried = Carried(patch: seq<byte>, hunks: seq<HunkRange>, truncated: bool)

  /**
   A reader is handed the diff's first `k` hunks: all of them when it asked for all, otherwise as
   many as fit, and the first one whether it fits or not.
   */
  predicate CarriesFirst(raw: RawFileDiff, extent: Extent, c: Carried, k: nat) {
    && k <= |raw.hunks|
    && c.patch == Text(Cut(raw, k))
    && c.hunks == Ranges(raw.hunks[..k])
    && (c.truncated <==> k < |raw.hunks|)
    && (raw.hunks != [] ==> k >= 1)
    && (extent.Full? ==> k == |raw.hunks|)
    && (extent.Capped? && k > 1 ==> |c.patch| <= DIFF_LIMIT)
    && (k < |raw.hunks| ==> |Text(Cut(raw, k + 1))| > DIFF_LIMIT)
  }

  lemma TextOfNext(raw: RawFileDiff, k: nat)
    requires k < |raw.hunks|
    ensures Text(Cut(raw, k + 1)) == Text(Cut(raw, k)) + raw.hunks[k].text
    ensures Ranges(raw.hunks[..k + 1]) == Ranges(raw.hunks[..k]) + [raw.hunks[k].range]
  {
    assert raw.hunks[..k + 1] == raw.hunks[..k] + [raw.hunks[k]];
    assert Texts(raw.hunks[..k + 1]) == Texts(raw.hunks[..k]) + [raw.hunks[k].text];
    ConcatSnoc(Texts(raw.hunks[..k]), raw.hunks[k].text);
  }

  method Assemble(raw: RawFileDiff, extent: Extent) returns (c: Carried)
    ensures raw.binary ==> c == Carried([], [], false)
    ensures !raw.binary ==> exists k :: CarriesFirst(raw, extent, c, k)
  {
    if raw.binary {
      return Carried([], [], false);
    }
    var patch := raw.header;
    var hunks: seq<HunkRange> := [];
    for index := 0 to |raw.hunks|
      invariant patch == Text(Cut(raw, index))
      invariant hunks == Ranges(raw.hunks[..index])
      invariant extent.Capped? && index > 1 ==> |patch| <= DIFF_LIMIT
    {
      var hunk := raw.hunks[index];
      TextOfNext(raw, index);
      var over := |patch| + |hunk.text| > DIFF_LIMIT;
      if index > 0 && over && extent.Capped? {
        c := Carried(patch, hunks, true);
        assert CarriesFirst(raw, extent, c, index);
        return;
      }
      patch := patch + hunk.text;
      hunks := hunks + [hunk.range];
    }
    c := Carried(patch, hunks, false);
    assert CarriesFirst(raw, extent, c, |raw.hunks|);
  }

  /**
   However much is carried, parsing it gives the same bytes back, and each range listed beside it
   names one of the hunks carried, in the diff it was taken from. Parsing it gives just those ranges
   exactly when none of the lines carried hides a hunk line.
   */
  lemma CarriedIsAPatch(output: seq<byte>, extent: Extent, c: Carried, k: nat)
    requires CarriesFirst(Parsed(output), extent, c, k)
    ensures Text(Parsed(c.patch)) == c.patch
    ensures Ranges(Parsed(c.patch).hunks) == c.hunks <==> NoneHidden(LinesOfCut(output, k))
    ensures forall r <- c.hunks :: FoundAmong(Parsed(output), k, r)
  {
    CutReparsesIff(output, k);
    CutKeepsItsText(output, k);
    CutIsKept(Parsed(output), k);
    forall r | r in c.hunks ensures FoundAmong(Parsed(output), k, r) {
      ShownIsFound(Parsed(output), k, r);
    }
  }

  lemma CutKeepsItsText(output: seq<byte>, k: nat)
    requires k <= |Parsed(output).hunks|
    ensures var p := Text(Cut(Parsed(output), k)); Text(Parsed(p)) == p
  {
    if PatchOf(output) == [] {
      TextOfPatch(output);
      NothingParsed();
    } else {
      CutLaidOut(output, k);
      TextReparsed(LinesOfCut(output, k));
    }
  }

  lemma CutIsKept(d: RawFileDiff, k: nat)
    requires k <= |d.hunks|
    ensures Cut(d, k).hunks == d.hunks[..k]
  {
  }

  /** Of hunks with one range, the one an action finds is never after one that was handed over. */
  lemma ShownIsFound(d: RawFileDiff, k: nat, range: HunkRange)
    requires k <= |d.hunks| && range in Ranges(d.hunks[..k])
    ensures FoundAmong(d, k, range)
  {
    FindsFirst(d.hunks, range);
    var shown :| 0 <= shown < k && Ranges(d.hunks[..k])[shown] == range;
    assert Ranges(d.hunks)[shown] == range;
    var h := Find(d.hunks, range).value;
    var i :| 0 <= i < |d.hunks| && d.hunks[i] == h && h.range == range && range !in Ranges(d.hunks[..i]);
    if shown < i {
      RangeAmong(d.hunks, i, shown);
    }
    assert OneHunk(d, range) == Some(PatchFor(d, d.hunks[i]));
  }

  lemma RangeAmong(hunks: seq<RawHunk>, i: nat, shown: nat)
    requires shown < i <= |hunks|
    ensures hunks[shown].range in Ranges(hunks[..i])
  {
    assert Ranges(hunks[..i])[shown] == hunks[shown].range;
  }

  /** The hunk an action naming `range` is taken on is one of the first `k`. */
  predicate FoundAmong(d: RawFileDiff, k: nat, range: HunkRange)
    requires k <= |d.hunks|
  {
    exists i :: 0 <= i < k && d.hunks[i].range == range && OneHunk(d, range) == Some(PatchFor(d, d.hunks[i]))
  }
}
