/**
 The porcelain v2 report, NUL-terminated: header records describe what is checked out, the others a
 change each, and a rename takes the record after it as well.
 */
module StatusParse {
  import opened Bytes
  import opened Decimal
  import opened Utf8
  import opened Wrappers

  /** `# ` */
  const HEADER: seq<byte> := [35, 32]
  /** `1 ` */
  const ORDINARY: seq<byte> := [49, 32]
  /** `2 ` */
  const RENAMED: seq<byte> := [50, 32]
  /** `u ` */
  const UNMERGED: seq<byte> := [117, 32]
  /** `? ` */
  const UNTRACKED: seq<byte> := [63, 32]
  /** `! ` */
  const IGNORED: seq<byte> := [33, 32]

  /** `# branch.head ` */
  const BRANCH_HEAD: seq<byte> := [35, 32, 98, 114, 97, 110, 99, 104, 46, 104, 101, 97, 100, 32]
  /** `# branch.upstream ` */
  const BRANCH_UPSTREAM: seq<byte> := [35, 32, 98, 114, 97, 110, 99, 104, 46, 117, 112, 115, 116, 114, 101, 97, 109, 32]
  /** `# branch.ab ` */
  const BRANCH_AB: seq<byte> := [35, 32, 98, 114, 97, 110, 99, 104, 46, 97, 98, 32]
  /** `# branch.oid `, which names the commit and is not read. */
  const BRANCH_OID: seq<byte> := [35, 32, 98, 114, 97, 110, 99, 104, 46, 111, 105, 100, 32]
  /** `(detached)` */
  const DETACHED: seq<byte> := [40, 100, 101, 116, 97, 99, 104, 101, 100, 41]

  const ORDINARY_FIELDS: nat := 9
  const RENAMED_FIELDS: nat := 10
  const UNMERGED_FIELDS: nat := 11

  datatype ChangeKind = Modified | TypeChanged | Added | Deleted | Renamed | Copied | Untracked | Conflicted

  datatype FileStatus = FileStatus(staged: Option<ChangeKind>, unstaged: Option<ChangeKind>)

  datatype FileChange = FileChange(path: seq<byte>, status: FileStatus, originalPath: Option<seq<byte>>)

  datatype SyncState =
    | Unknown
    | UpToDate
    | Ahead(ahead: nat)
    | Behind(behind: nat)
    | Diverged(ahead: nat, behind: nat)

  datatype BranchInfo = BranchInfo(name: Option<seq<byte>>, upstream: Option<seq<byte>>, sync: SyncState)

  /** The branch and the changes a status is made from. */
  datatype Report = Report(branch: BranchInfo, changes: seq<FileChange>)

  // ---------------------------------------------------------------- one record

  function FromCounts(ahead: nat, behind: nat): SyncState {
    match (ahead, behind)
    case (0, 0) => UpToDate
    case (_, 0) => Ahead(ahead)
    case (0, _) => Behind(behind)
    case _ => Diverged(ahead, behind)
  }

  /** What a letter of a status pair means: a kind of change, no change, or nothing documented. */
  function KindOf(letter: byte): Option<Option<ChangeKind>> {
    if letter == 46 then Some(None)
    else if letter == 77 then Some(Some(Modified))
    else if letter == 84 then Some(Some(TypeChanged))
    else if letter == 65 then Some(Some(Added))
    else if letter == 68 then Some(Some(Deleted))
    else if letter == 82 then Some(Some(Renamed))
    else if letter == 67 then Some(Some(Copied))
    else None
  }

  function FileStatusOf(pair: seq<byte>): Option<FileStatus> {
    if |pair| != 2 then None
    else
      var staged :- KindOf(pair[0]);
      var unstaged :- KindOf(pair[1]);
      Some(FileStatus(staged, unstaged))
  }

  /** A record's status pair and its path, the last of its fields and the only one that may hold a space. */
  function SplitRecord(record: seq<byte>, fields: nat): Option<(seq<byte>, seq<byte>)>
    requires fields >= 3
  {
    var parts := SplitN(record, SPACE, fields);
    if |parts| == fields then Some((parts[1], Lossy(parts[fields - 1]))) else None
  }

  function Tracked(record: seq<byte>, fields: nat, original: Option<seq<byte>>): Option<FileChange>
    requires fields >= 3
  {
    var split :- SplitRecord(record, fields);
    var status :- FileStatusOf(split.0);
    Some(FileChange(split.1, status, original))
  }

  function UnmergedChange(record: seq<byte>): Option<FileChange> {
    var split :- SplitRecord(record, UNMERGED_FIELDS);
    Some(FileChange(split.1, FileStatus(None, Some(Conflicted)), None))
  }

  function UntrackedChange(record: seq<byte>): FileChange
    requires UNTRACKED <= record
  {
    FileChange(Lossy(record[|UNTRACKED|..]), FileStatus(None, Some(Untracked)), None)
  }

  /** `+<ahead> -<behind>` */
  function AheadBehind(field: seq<byte>): Option<(nat, nat)> {
    if SPACE !in field then None
    else
      var i := IndexOf(field, SPACE);
      var ahead, behind := field[..i], field[i + 1..];
      if !([PLUS] <= ahead) || !([MINUS] <= behind) then None
      else
        var a :- ParseUnsigned(ahead[1..], U32_MAX);
        var b :- ParseUnsigned(behind[1..], U32_MAX);
        Some((a, b))
  }

  // ---------------------------------------------------------------- all the records

  datatype Reading = Reading(
    name: Option<seq<byte>>,
    upstream: Option<seq<byte>>,
    counts: Option<(nat, nat)>,
    changes: seq<FileChange>)

  const NOTHING_READ := Reading(None, None, None, [])

  function ReadHeader(record: seq<byte>, st: Reading): Option<Reading> {
    if !Valid(record) then None
    else if BRANCH_HEAD <= record then
      var head := record[|BRANCH_HEAD|..];
      Some(st.(name := if head == DETACHED then None else Some(head)))
    else if BRANCH_UPSTREAM <= record then
      Some(st.(upstream := Some(record[|BRANCH_UPSTREAM|..])))
    else if BRANCH_AB <= record then
      var counts :- AheadBehind(record[|BRANCH_AB|..]);
      Some(st.(counts := Some(counts)))
    else Some(st)
  }

  function Changed(st: Reading, change: FileChange): Reading {
    st.(changes := st.changes + [change])
  }

  /** Reads records from the front, a rename and the path it came from together. */
  function ReadAll(records: seq<seq<byte>>, st: Reading): Option<Reading>
    decreases |records|
  {
    if records == [] then Some(st)
    else
      var record := records[0];
      if HEADER <= record then
        var next :- ReadHeader(record, st);
        ReadAll(records[1..], next)
      else if ORDINARY <= record then
        var change :- Tracked(record, ORDINARY_FIELDS, None);
        ReadAll(records[1..], Changed(st, change))
      else if RENAMED <= record then
        if |records| < 2 then None
        else
          var change :- Tracked(record, RENAMED_FIELDS, Some(Lossy(records[1])));
          ReadAll(records[2..], Changed(st, change))
      else if UNMERGED <= record then
        var change :- UnmergedChange(record);
        ReadAll(records[1..], Changed(st, change))
      else if UNTRACKED <= record then
        ReadAll(records[1..], Changed(st, UntrackedChange(record)))
      else if IGNORED <= record then
        ReadAll(records[1..], st)
      else None
  }

  function NonEmpty(pieces: seq<seq<byte>>): seq<seq<byte>> {
    if pieces == [] then []
    else (if pieces[0] == [] then [] else [pieces[0]]) + NonEmpty(pieces[1..])
  }

  function Reported(st: Reading): Report {
    var sync := match st.counts case None => Unknown case Some(c) => FromCounts(c.0, c.1);
    Report(BranchInfo(st.name, st.upstream, sync), st.changes)
  }

  function Parsed(output: seq<byte>): Option<Report> {
    var st :- ReadAll(NonEmpty(Split(output, NUL)), NOTHING_READ);
    Some(Reported(st))
  }

  /** Having come to record `at` with `st`, what is left decides the whole. */
  ghost predicate CameTo(records: seq<seq<byte>>, at: nat, st: Reading) {
    at <= |records| && ReadAll(records, NOTHING_READ) == ReadAll(records[at..], st)
  }

  ghost function ChangeIn(records: seq<seq<byte>>, at: nat): Option<FileChange>
    requires at < |records|
  {
    var record := records[at];
    if ORDINARY <= record then Tracked(record, ORDINARY_FIELDS, None)
    else if RENAMED <= record then
      if at + 1 < |records| then Tracked(record, RENAMED_FIELDS, Some(Lossy(records[at + 1]))) else None
    else if UNMERGED <= record then UnmergedChange(record)
    else if UNTRACKED <= record then Some(UntrackedChange(record))
    else None
  }

  /** What the next record, with the one after it where that belongs to it, makes of a reading. */
  lemma ComesToNext(records: seq<seq<byte>>, at: nat, st: Reading)
    requires CameTo(records, at, st) && at < |records|
    ensures var record := records[at];
            if HEADER <= record then
              match ReadHeader(record, st)
              case None => ReadAll(records, NOTHING_READ) == None
              case Some(next) => CameTo(records, at + 1, next)
            else
              match ChangeIn(records, at)
              case Some(change) =>
                if !(ORDINARY <= record) && RENAMED <= record then CameTo(records, at + 2, Changed(st, change))
                else CameTo(records, at + 1, Changed(st, change))
              case None =>
                if IGNORED <= record then CameTo(records, at + 1, st) else ReadAll(records, NOTHING_READ) == None
  {
    var left := records[at..];
    assert left[1..] == records[at + 1..];
    if at + 1 < |records| {
      assert left[2..] == records[at + 2..];
    }
  }

  /** Reads one header record over what the ones before it stated. */
  method TakeHeader(record: seq<byte>, name: Option<seq<byte>>, upstream: Option<seq<byte>>,
                    counts: Option<(nat, nat)>, ghost changes: seq<FileChange>)
    returns (text: bool, newName: Option<seq<byte>>, newUpstream: Option<seq<byte>>, newCounts: Option<(nat, nat)>)
    ensures ReadHeader(record, Reading(name, upstream, counts, changes))
            == if text then Some(Reading(newName, newUpstream, newCounts, changes)) else None
  {
    text, newName, newUpstream, newCounts := true, name, upstream, counts;
    if !Valid(record) {
      text := false;
    } else if BRANCH_HEAD <= record {
      var head := record[|BRANCH_HEAD|..];
      newName := if head == DETACHED then None else Some(head);
    } else if BRANCH_UPSTREAM <= record {
      newUpstream := Some(record[|BRANCH_UPSTREAM|..]);
    } else if BRANCH_AB <= record {
      newCounts := AheadBehind(record[|BRANCH_AB|..]);
      text := newCounts.Some?;
    }
  }

  method Parse(output: seq<byte>) returns (report: Option<Report>)
    ensures report == Parsed(output)
  {
    var records := NonEmpty(Split(output, NUL));
    var name: Option<seq<byte>> := None;
    var upstream: Option<seq<byte>> := None;
    var counts: Option<(nat, nat)> := None;
    var changes: seq<FileChange> := [];
    var at := 0;
    assert records[0..] == records;
    while at < |records|
      invariant CameTo(records, at, Reading(name, upstream, counts, changes))
    {
      var record := records[at];
      ComesToNext(records, at, Reading(name, upstream, counts, changes));
      at := at + 1;
      if HEADER <= record {
        var text;
        text, name, upstream, counts := TakeHeader(record, name, upstream, counts, changes);
        if !text {
          return None;
        }
      } else if ORDINARY <= record {
        var change := Tracked(record, ORDINARY_FIELDS, None);
        if change.None? {
          return None;
        }
        changes := changes + [change.value];
      } else if RENAMED <= record {
        if at >= |records| {
          return None;
        }
        var original := records[at];
        at := at + 1;
        var change := Tracked(record, RENAMED_FIELDS, Some(Lossy(original)));
        if change.None? {
          return None;
        }
        changes := changes + [change.value];
      } else if UNMERGED <= record {
        var change := UnmergedChange(record);
        if change.None? {
          return None;
        }
        changes := changes + [change.value];
      } else if UNTRACKED <= record {
        changes := changes + [UntrackedChange(record)];
      } else if !(IGNORED <= record) {
        return None;
      }
    }
    return Some(Reported(Reading(name, upstream, counts, changes)));
  }

  // ---------------------------------------------------------------- what version control prints

  /** What is checked out, as the header records state it. */
  datatype Checkout = Checkout(
    oid: seq<byte>,
    head: Option<seq<byte>>,
    upstream: Option<seq<byte>>,
    counts: Option<(nat, nat)>)

  /** One changed path. `fields` are the columns between the status pair and the path. */
  datatype Entry =
    | Ordinary(pair: seq<byte>, fields: seq<seq<byte>>, path: seq<byte>)
    | Moved(pair: seq<byte>, fields: seq<seq<byte>>, path: seq<byte>, original: seq<byte>)
    | Unresolved(pair: seq<byte>, fields: seq<seq<byte>>, path: seq<byte>)
    | NotTracked(path: seq<byte>)
    | NotWanted(path: seq<byte>)

  function Columns(marker: byte, pair: seq<byte>, fields: seq<seq<byte>>, path: seq<byte>): seq<byte> {
    Terminated([[marker], pair] + fields, SPACE) + path
  }

  function EntryRecords(e: Entry): seq<seq<byte>> {
    match e
    case Ordinary(pair, fields, path) => [Columns(49, pair, fields, path)]
    case Moved(pair, fields, path, original) => [Columns(50, pair, fields, path), original]
    case Unresolved(pair, fields, path) => [Columns(117, pair, fields, path)]
    case NotTracked(path) => [UNTRACKED + path]
    case NotWanted(path) => [IGNORED + path]
  }

  function AllRecords(entries: seq<Entry>): seq<seq<byte>> {
    if entries == [] then [] else EntryRecords(entries[0]) + AllRecords(entries[1..])
  }

  function HeadText(c: Checkout): seq<byte> {
    match c.head case Some(name) => name case None => DETACHED
  }

  function CountsText(n: (nat, nat)): seq<byte> {
    [PLUS] + Digits(n.0) + [SPACE] + ([MINUS] + Digits(n.1))
  }

  function TrackingRecords(c: Checkout): seq<seq<byte>> {
    (match c.upstream case Some(u) => [BRANCH_UPSTREAM + u] case None => [])
    + (match c.counts case Some(n) => [BRANCH_AB + CountsText(n)] case None => [])
  }

  function CheckoutRecords(c: Checkout): seq<seq<byte>> {
    [BRANCH_OID + c.oid, BRANCH_HEAD + HeadText(c)] + TrackingRecords(c)
  }

  function Print(c: Checkout, entries: seq<Entry>): seq<byte> {
    Terminated(CheckoutRecords(c) + AllRecords(entries), NUL)
  }

  predicate IsColumn(f: seq<byte>) {
    NUL !in f && SPACE !in f
  }

  predicate IsPath(p: seq<byte>) {
    p != [] && NUL !in p
  }

  /** Columns hold no space, paths hold anything but a NUL, and each kind has its own number of columns. */
  predicate Printable(e: Entry) {
    match e
    case Ordinary(pair, fields, path) =>
      IsColumn(pair) && |fields| == 6 && (forall f <- fields :: IsColumn(f)) && IsPath(path)
    case Moved(pair, fields, path, original) =>
      IsColumn(pair) && |fields| == 7 && (forall f <- fields :: IsColumn(f)) && IsPath(path) && IsPath(original)
    case Unresolved(pair, fields, path) =>
      IsColumn(pair) && |fields| == 8 && (forall f <- fields :: IsColumn(f)) && IsPath(path)
    case NotTracked(path) => NUL !in path
    case NotWanted(path) => NUL !in path
  }

  predicate PrintableCheckout(c: Checkout) {
    && NUL !in c.oid
    && (c.head.Some? ==> NUL !in c.head.value)
    && (c.upstream.Some? ==> NUL !in c.upstream.value)
  }

  /** The letters of a tracked change are ones the format documents. */
  predicate Documented(e: Entry) {
    (e.Ordinary? || e.Moved?) ==> FileStatusOf(e.pair).Some?
  }

  /** The change an entry describes; an ignored path is none. */
  function ChangeOf(e: Entry): seq<FileChange>
    requires Documented(e)
  {
    match e
    case Ordinary(pair, _, path) => [FileChange(Lossy(path), FileStatusOf(pair).value, None)]
    case Moved(pair, _, path, original) => [FileChange(Lossy(path), FileStatusOf(pair).value, Some(Lossy(original)))]
    case Unresolved(_, _, path) => [FileChange(Lossy(path), FileStatus(None, Some(Conflicted)), None)]
    case NotTracked(path) => [FileChange(Lossy(path), FileStatus(None, Some(Untracked)), None)]
    case NotWanted(_) => []
  }

  /** The changes the entries describe, in order. */
  function Changes(entries: seq<Entry>): seq<FileChange>
    requires forall e <- entries :: Documented(e)
  {
    if entries == [] then []
    else
      assert Documented(entries[0]);
      ChangeOf(entries[0]) + Changes(entries[1..])
  }

  /** The headers are text, and their counts fit 32 bits. */
  predicate Readable(c: Checkout) {
    && Valid(c.oid)
    && (c.head.Some? ==> Valid(c.head.value))
    && (c.upstream.Some? ==> Valid(c.upstream.value))
    && (c.counts.Some? ==> c.counts.value.0 <= U32_MAX && c.counts.value.1 <= U32_MAX)
  }

  /** What the headers say. A branch whose name is the word for having none reads as having none. */
  function BranchOf(c: Checkout): BranchInfo {
    BranchInfo(
      if c.head == Some(DETACHED) then None else c.head,
      c.upstream,
      match c.counts case None => Unknown case Some(n) => FromCounts(n.0, n.1))
  }

  // ---------------------------------------------------------------- reading back what was printed

  function Letter(kind: Option<ChangeKind>): byte
    requires kind != Some(Untracked) && kind != Some(Conflicted)
  {
    match kind
    case None => 46
    case Some(Modified) => 77
    case Some(TypeChanged) => 84
    case Some(Added) => 65
    case Some(Deleted) => 68
    case Some(Renamed) => 82
    case Some(Copied) => 67
  }

  /** The documented letters and the kinds a tracked path may have name each other, and nothing else parses. */
  lemma LettersAreKinds(letter: byte, kind: Option<ChangeKind>)
    ensures KindOf(letter) == Some(kind)
            <==> kind != Some(Untracked) && kind != Some(Conflicted) && letter == Letter(kind)
  {
  }

  lemma ColumnsRead(marker: byte, pair: seq<byte>, fields: seq<seq<byte>>, path: seq<byte>)
    requires marker != SPACE && IsColumn(pair) && forall f <- fields :: IsColumn(f)
    ensures [marker, SPACE] <= Columns(marker, pair, fields, path)
    ensures SplitRecord(Columns(marker, pair, fields, path), |fields| + 3) == Some((pair, Lossy(path)))
  {
    var front := [[marker], pair] + fields;
    forall p | p in front ensures SPACE !in p {
      assert p == [marker] || p == pair || p in fields;
    }
    SplitNTerminated(front, path, SPACE);
    assert (front + [path])[1] == pair;
    assert Terminated(front, SPACE) == [marker] + [SPACE] + Terminated(front[1..], SPACE);
  }

  lemma ColumnsHoldNoNul(marker: byte, pair: seq<byte>, fields: seq<seq<byte>>, path: seq<byte>)
    requires marker != NUL && IsColumn(pair) && (forall f <- fields :: IsColumn(f)) && NUL !in path
    ensures NUL !in Columns(marker, pair, fields, path)
  {
    var front := [[marker], pair] + fields;
    forall p | p in front ensures NUL !in p {
      assert p == [marker] || p == pair || p in fields;
    }
    NotInTerminated(front, SPACE, NUL);
  }

  lemma EntryHoldsNoNul(e: Entry)
    requires Printable(e)
    ensures forall r <- EntryRecords(e) :: r != [] && NUL !in r
  {
    match e {
      case Ordinary(pair, fields, path) => ColumnsHoldNoNul(49, pair, fields, path);
      case Moved(pair, fields, path, original) => ColumnsHoldNoNul(50, pair, fields, path);
      case Unresolved(pair, fields, path) => ColumnsHoldNoNul(117, pair, fields, path);
      case NotTracked(path) =>
      case NotWanted(path) =>
    }
  }

  lemma {:induction false} EntriesHoldNoNul(entries: seq<Entry>)
    requires forall e <- entries :: Printable(e)
    ensures forall r <- AllRecords(entries) :: r != [] && NUL !in r
  {
    if entries != [] {
      EntryHoldsNoNul(entries[0]);
      EntriesHoldNoNul(entries[1..]);
    }
  }

  lemma ReadUnmerged(record: seq<byte>, rest: seq<seq<byte>>, st: Reading)
    requires UNMERGED <= record
    ensures ReadAll([record] + rest, st)
            == match UnmergedChange(record) case None => None case Some(c) => ReadAll(rest, Changed(st, c))
  {
    assert record[0] == 117;
    assert ([record] + rest)[1..] == rest;
  }

  lemma ReadOrdinary(record: seq<byte>, rest: seq<seq<byte>>, st: Reading)
    requires ORDINARY <= record
    ensures ReadAll([record] + rest, st)
            == match Tracked(record, ORDINARY_FIELDS, None)
               case None => None
               case Some(c) => ReadAll(rest, Changed(st, c))
  {
    assert record[0] == 49;
    assert ([record] + rest)[1..] == rest;
  }

  lemma ReadRenamed(record: seq<byte>, original: seq<byte>, rest: seq<seq<byte>>, st: Reading)
    requires RENAMED <= record
    ensures ReadAll([record, original] + rest, st)
            == match Tracked(record, RENAMED_FIELDS, Some(Lossy(original)))
               case None => None
               case Some(c) => ReadAll(rest, Changed(st, c))
  {
    assert record[0] == 50;
    assert ([record, original] + rest)[2..] == rest;
  }

  lemma ReadUntracked(path: seq<byte>, rest: seq<seq<byte>>, st: Reading)
    ensures ReadAll([UNTRACKED + path] + rest, st)
            == ReadAll(rest, Changed(st, FileChange(Lossy(path), FileStatus(None, Some(Untracked)), None)))
  {
    assert (UNTRACKED + path)[0] == 63;
    assert (UNTRACKED + path)[|UNTRACKED|..] == path;
    assert ([UNTRACKED + path] + rest)[1..] == rest;
  }

  lemma ReadIgnored(path: seq<byte>, rest: seq<seq<byte>>, st: Reading)
    ensures ReadAll([IGNORED + path] + rest, st) == ReadAll(rest, st)
  {
    assert (IGNORED + path)[0] == 33;
    assert ([IGNORED + path] + rest)[1..] == rest;
  }

  /** What one entry adds to what has been read. */
  function After(e: Entry, st: Reading): Reading
    requires Documented(e)
  {
    st.(changes := st.changes + ChangeOf(e))
  }

  /** One entry's records are read as that entry and no more, whatever comes after them. */
  lemma ReadEntry(e: Entry, rest: seq<seq<byte>>, st: Reading)
    requires Printable(e)
    ensures ReadAll(EntryRecords(e) + rest, st)
            == if Documented(e) then ReadAll(rest, After(e, st)) else None
  {
    match e {
      case Ordinary(pair, fields, path) =>
        ColumnsRead(49, pair, fields, path);
        ReadOrdinary(Columns(49, pair, fields, path), rest, st);
      case Moved(pair, fields, path, original) =>
        ColumnsRead(50, pair, fields, path);
        ReadRenamed(Columns(50, pair, fields, path), original, rest, st);
      case Unresolved(pair, fields, path) =>
        ColumnsRead(117, pair, fields, path);
        ReadUnmerged(Columns(117, pair, fields, path), rest, st);
      case NotTracked(path) => ReadUntracked(path, rest, st);
      case NotWanted(path) =>
        ReadIgnored(path, rest, st);
        assert After(e, st) == st;
    }
  }

  lemma {:induction false} ReadEntries(entries: seq<Entry>, st: Reading)
    requires forall e <- entries :: Printable(e)
    ensures ReadAll(AllRecords(entries), st)
            == if forall e <- entries :: Documented(e)
               then Some(st.(changes := st.changes + Changes(entries)))
               else None
  {
    if entries == [] {
      assert st.changes + [] == st.changes;
    } else {
      var e, rest := entries[0], entries[1..];
      ReadEntry(e, AllRecords(rest), st);
      assert (forall x <- entries :: Documented(x)) <==> Documented(e) && forall x <- rest :: Documented(x);
      if Documented(e) {
        ReadEntries(rest, After(e, st));
        if forall x <- rest :: Documented(x) {
          Assoc(st.changes, ChangeOf(e), Changes(rest));
        }
      }
    }
  }

  // ---------------------------------------------------------------- the headers

  lemma AheadBehindRoundTrip(a: nat, b: nat)
    ensures AheadBehind(CountsText((a, b)))
            == if a <= U32_MAX && b <= U32_MAX then Some((a, b)) else None
  {
    var ahead, behind := [PLUS] + Digits(a), [MINUS] + Digits(b);
    var field := ahead + [SPACE] + behind;
    forall x | x in ahead ensures x != SPACE { assert x == PLUS || x in Digits(a); }
    IndexOfFirst(ahead, SPACE, behind);
    assert field[..|ahead|] == ahead && field[|ahead| + 1..] == behind;
    assert ahead[1..] == Digits(a) && behind[1..] == Digits(b);
    UnsignedRoundTrip(a, U32_MAX);
    UnsignedRoundTrip(b, U32_MAX);
  }

  /** A header of ASCII followed by a value is text exactly when the value is. */
  lemma HeaderIsText(marker: seq<byte>, value: seq<byte>)
    requires marker != [] && forall b <- marker :: IsAscii(b)
    ensures Valid(marker + value) <==> Valid(value)
    ensures (marker + value)[|marker|..] == value
  {
    AsciiIsValid(marker);
    LossyAfterAscii(marker, value);
  }

  lemma ReadOid(value: seq<byte>, st: Reading)
    ensures ReadHeader(BRANCH_OID + value, st) == if Valid(value) then Some(st) else None
  {
    HeaderIsText(BRANCH_OID, value);
    var r := BRANCH_OID + value;
    assert r[9] == 111;
    assert BRANCH_HEAD[9] == 104 && BRANCH_UPSTREAM[9] == 117 && BRANCH_AB[9] == 97;
  }

  lemma ReadHead(value: seq<byte>, st: Reading)
    ensures ReadHeader(BRANCH_HEAD + value, st)
            == if Valid(value) then Some(st.(name := if value == DETACHED then None else Some(value))) else None
  {
    HeaderIsText(BRANCH_HEAD, value);
  }

  lemma ReadUpstream(value: seq<byte>, st: Reading)
    ensures ReadHeader(BRANCH_UPSTREAM + value, st) == if Valid(value) then Some(st.(upstream := Some(value))) else None
  {
    HeaderIsText(BRANCH_UPSTREAM, value);
    assert (BRANCH_UPSTREAM + value)[9] == 117 && BRANCH_HEAD[9] == 104;
  }

  lemma ReadCounts(a: nat, b: nat, st: Reading)
    ensures ReadHeader(BRANCH_AB + CountsText((a, b)), st)
            == if a <= U32_MAX && b <= U32_MAX then Some(st.(counts := Some((a, b)))) else None
  {
    CountsAreText(a, b);
    ReadAheadBehind(CountsText((a, b)), st);
    AheadBehindRoundTrip(a, b);
  }

  lemma CountsAreText(a: nat, b: nat)
    ensures Valid(CountsText((a, b)))
  {
    var value := CountsText((a, b));
    forall x | x in value ensures IsAscii(x) {
      assert x == PLUS || x in Digits(a) || x == SPACE || x == MINUS || x in Digits(b);
    }
    AsciiIsValid(value);
  }

  lemma ReadAheadBehind(value: seq<byte>, st: Reading)
    requires Valid(value)
    ensures ReadHeader(BRANCH_AB + value, st)
            == match AheadBehind(value) case None => None case Some(c) => Some(st.(counts := Some(c)))
  {
    var r := BRANCH_AB + value;
    HeaderIsText(BRANCH_AB, value);
    assert r[9] == 97;
    assert !(BRANCH_HEAD <= r) by { assert BRANCH_HEAD[9] == 104; }
    assert !(BRANCH_UPSTREAM <= r) by { assert BRANCH_UPSTREAM[9] == 117; }
  }

  lemma ReadOne(record: seq<byte>, rest: seq<seq<byte>>, st: Reading)
    requires HEADER <= record
    ensures ReadAll([record] + rest, st)
            == match ReadHeader(record, st) case None => None case Some(next) => ReadAll(rest, next)
  {
    assert ([record] + rest)[1..] == rest;
  }

  /** Everything read from the headers. */
  function CheckoutReading(c: Checkout): Reading {
    Reading(WithHead(c).name, c.upstream, c.counts, [])
  }

  function WithHead(c: Checkout): Reading {
    NOTHING_READ.(name := if c.head == Some(DETACHED) then None else c.head)
  }

  lemma ReadCheckout(c: Checkout, rest: seq<seq<byte>>)
    ensures ReadAll(CheckoutRecords(c) + rest, NOTHING_READ)
            == if Readable(c) then ReadAll(rest, CheckoutReading(c)) else None
  {
    var oid, head, tail := BRANCH_OID + c.oid, BRANCH_HEAD + HeadText(c), TrackingRecords(c) + rest;
    assert CheckoutRecords(c) + rest == [oid] + ([head] + tail);
    ReadOidRecord(c, [head] + tail);
    ReadHeadRecord(c, tail);
    ReadTracking(c, rest);
  }

  lemma ReadOidRecord(c: Checkout, tail: seq<seq<byte>>)
    ensures ReadAll([BRANCH_OID + c.oid] + tail, NOTHING_READ)
            == if Valid(c.oid) then ReadAll(tail, NOTHING_READ) else None
  {
    ReadOne(BRANCH_OID + c.oid, tail, NOTHING_READ);
    ReadOid(c.oid, NOTHING_READ);
  }

  lemma ReadHeadRecord(c: Checkout, tail: seq<seq<byte>>)
    ensures ReadAll([BRANCH_HEAD + HeadText(c)] + tail, NOTHING_READ)
            == if c.head.Some? ==> Valid(c.head.value) then ReadAll(tail, WithHead(c)) else None
  {
    ReadOne(BRANCH_HEAD + HeadText(c), tail, NOTHING_READ);
    ReadHead(HeadText(c), NOTHING_READ);
    AsciiIsValid(DETACHED);
  }

  lemma ReadTracking(c: Checkout, rest: seq<seq<byte>>)
    ensures ReadAll(TrackingRecords(c) + rest, WithHead(c))
            == if (c.upstream.Some? ==> Valid(c.upstream.value))
                  && (c.counts.Some? ==> c.counts.value.0 <= U32_MAX && c.counts.value.1 <= U32_MAX)
               then ReadAll(rest, CheckoutReading(c))
               else None
  {
    var ab := match c.counts case Some(n) => [BRANCH_AB + CountsText(n)] case None => [];
    var st := WithHead(c).(upstream := c.upstream);
    if c.upstream.Some? {
      assert TrackingRecords(c) + rest == [BRANCH_UPSTREAM + c.upstream.value] + (ab + rest);
      ReadOne(BRANCH_UPSTREAM + c.upstream.value, ab + rest, WithHead(c));
      ReadUpstream(c.upstream.value, WithHead(c));
    } else {
      assert TrackingRecords(c) + rest == ab + rest;
    }
    if c.counts.Some? {
      ReadOne(ab[0], rest, st);
      ReadCounts(c.counts.value.0, c.counts.value.1, st);
    } else {
      assert ab + rest == rest;
    }
  }

  lemma CountsHoldNoNul(n: (nat, nat))
    ensures NUL !in CountsText(n)
  {
    forall x | x in CountsText(n) ensures x != NUL {
      assert x == PLUS || x in Digits(n.0) || x == SPACE || x == MINUS || x in Digits(n.1);
    }
  }

  predicate IsRecord(r: seq<byte>) {
    r != [] && NUL !in r
  }

  lemma HeaderHoldsNoNul(marker: seq<byte>, value: seq<byte>)
    requires IsRecord(marker) && NUL !in value
    ensures IsRecord(marker + value)
  {
  }

  lemma CheckoutHoldsNoNul(c: Checkout)
    requires PrintableCheckout(c)
    ensures forall r <- CheckoutRecords(c) :: IsRecord(r)
  {
    HeaderHoldsNoNul(BRANCH_OID, c.oid);
    HeaderHoldsNoNul(BRANCH_HEAD, HeadText(c));
    if c.upstream.Some? {
      HeaderHoldsNoNul(BRANCH_UPSTREAM, c.upstream.value);
    }
    if c.counts.Some? {
      CountsHoldNoNul(c.counts.value);
      HeaderHoldsNoNul(BRANCH_AB, CountsText(c.counts.value));
    }
  }

  lemma {:induction false} NothingEmpty(pieces: seq<seq<byte>>)
    requires forall i | 0 <= i < |pieces| :: pieces[i] != []
    ensures NonEmpty(pieces + [[]]) == pieces
  {
    var all := pieces + [[]];
    if pieces == [] {
      assert all[1..] == [];
    } else {
      assert all[1..] == pieces[1..] + [[]] && all[0] == pieces[0];
      NothingEmpty(pieces[1..]);
      assert pieces == [pieces[0]] + pieces[1..];
    }
  }

  lemma RecordsOfPrinted(c: Checkout, entries: seq<Entry>)
    requires PrintableCheckout(c) && forall e <- entries :: Printable(e)
    ensures NonEmpty(Split(Print(c, entries), NUL)) == CheckoutRecords(c) + AllRecords(entries)
  {
    var records := CheckoutRecords(c) + AllRecords(entries);
    CheckoutHoldsNoNul(c);
    EntriesHoldNoNul(entries);
    forall r | r in records ensures IsRecord(r) {
      assert r in CheckoutRecords(c) || r in AllRecords(entries);
    }
    SplitTerminated(records, NUL, []);
    assert Terminated(records, NUL) + [] == Terminated(records, NUL);
    NothingEmpty(records);
  }

  lemma ReportedBranch(c: Checkout)
    ensures forall changes :: Reported(CheckoutReading(c).(changes := [] + changes)) == Report(BranchOf(c), changes)
  {
    assert forall changes: seq<FileChange> :: [] + changes == changes;
  }

  /**
   What version control prints is what is read back: the same branch, the same standing against its
   upstream, and the same changes in order, with paths that hold spaces and originals that look like
   records taken whole. There is no report exactly when a header is not text or its counts are past
   32 bits, or a tracked change carries an undocumented letter.
   */
  lemma StatusRoundTrip(c: Checkout, entries: seq<Entry>)
    requires PrintableCheckout(c) && forall e <- entries :: Printable(e)
    ensures Parsed(Print(c, entries))
            == if Readable(c) && forall e <- entries :: Documented(e)
               then Some(Report(BranchOf(c), Changes(entries)))
               else None
  {
    RecordsOfPrinted(c, entries);
    ReadCheckout(c, AllRecords(entries));
    ReadEntries(entries, CheckoutReading(c));
    ReportedBranch(c);
  }

  /** The standing reported is the one the counts printed say, the first of them the branch's own lead. */
  lemma SyncIsTheCounts(c: Checkout, entries: seq<Entry>, a: nat, b: nat)
    requires PrintableCheckout(c) && Readable(c) && forall e <- entries :: Printable(e) && Documented(e)
    ensures Parsed(Print(c, entries)).Some?
    ensures var sync := Parsed(Print(c, entries)).value.branch.sync;
            && (sync == Unknown <==> c.counts == None)
            && (sync == UpToDate <==> c.counts == Some((0, 0)))
            && (sync == Ahead(a) <==> c.counts == Some((a, 0)) && a > 0)
            && (sync == Behind(b) <==> c.counts == Some((0, b)) && b > 0)
            && (sync == Diverged(a, b) <==> c.counts == Some((a, b)) && a > 0 && b > 0)
  {
    StatusRoundTrip(c, entries);
  }

  /** A tracked change, renamed or not, reports the kind its first letter names as staged and its second as not. */
  lemma HalvesAreTheLetters(c: Checkout, e: Entry, staged: Option<ChangeKind>, unstaged: Option<ChangeKind>)
    requires PrintableCheckout(c) && Readable(c) && Printable(e) && (e.Ordinary? || e.Moved?)
    requires staged != Some(Untracked) && staged != Some(Conflicted)
    requires unstaged != Some(Untracked) && unstaged != Some(Conflicted)
    requires e.pair == [Letter(staged), Letter(unstaged)]
    ensures Parsed(Print(c, [e])).Some?
    ensures Parsed(Print(c, [e])).value.changes
            == [FileChange(Lossy(e.path), FileStatus(staged, unstaged),
                           if e.Moved? then Some(Lossy(e.original)) else None)]
  {
    LettersAreKinds(e.pair[0], staged);
    LettersAreKinds(e.pair[1], unstaged);
    StatusRoundTrip(c, [e]);
    assert Changes([e]) == ChangeOf(e) + Changes([e][1..]);
    assert [e][1..] == [] && ChangeOf(e) + [] == ChangeOf(e);
  }

  /** The branch comes back as it was named exactly when it is not named by the word for having none. */
  lemma BranchNameKeptIff(c: Checkout)
    requires PrintableCheckout(c) && Readable(c)
    ensures Parsed(Print(c, [])).Some?
    ensures Parsed(Print(c, [])).value.branch.name == c.head <==> c.head != Some(DETACHED)
  {
    StatusRoundTrip(c, []);
  }
}
