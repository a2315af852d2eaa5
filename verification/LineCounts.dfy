/** Totals over a NUL-separated numstat stream and over untracked files, and when they are exact. */
module LineCounts {
  import opened Bytes
  import opened Decimal
  import opened Wrappers
  import StatusParse

  const FILE_LIMIT: nat := 1024 * 1024
  const BINARY_SNIFF: nat := 8000
  const UNTRACKED_TOTAL_LIMIT: nat := 8 * FILE_LIMIT
  const BINARY_COUNT: seq<byte> := [45]

  datatype Counts = Counts(additions: nat, deletions: nat, complete: bool)

  /** What a count that would not fit is held at. */
  function Capped(n: nat): nat {
    if n <= USIZE_MAX then n else USIZE_MAX
  }

  // ---------------------------------------------------------------- counted records

  /** What one record of the stream amounts to. `whole` is whether both of a rename's paths followed it. */
  datatype Item =
    | Nothing
    | Broken
    | Binary(whole: bool)
    | Counted(additions: nat, deletions: nat, whole: bool)

  /** A record's item, and how many pieces of the stream it takes: a rename takes its two paths as well. */
  function Take(pieces: seq<seq<byte>>): (r: (Item, nat))
    requires pieces != []
    ensures 1 <= r.1 <= |pieces|
  {
    var fields := SplitN(pieces[0], TAB, 3);
    if pieces[0] == [] then (Nothing, 1)
    else if |fields| < 3 then (Broken, 1)
    else
      var moved := fields[2] == [];
      var whole := !moved || |pieces| >= 3;
      var used := if !moved then 1 else if |pieces| >= 3 then 3 else |pieces|;
      if fields[0] == BINARY_COUNT && fields[1] == BINARY_COUNT then (Binary(whole), used)
      else
        match (ParseUnsigned(fields[0], USIZE_MAX), ParseUnsigned(fields[1], USIZE_MAX))
        case (Some(a), Some(d)) => (Counted(a, d, whole), used)
        case _ => (Broken, used)
  }

  function Items(pieces: seq<seq<byte>>): seq<Item>
    decreases |pieces|
  {
    if pieces == [] then []
    else
      var (item, used) := Take(pieces);
      [item] + Items(pieces[used..])
  }

  function Additions(items: seq<Item>): nat {
    if items == [] then 0
    else (if items[0].Counted? then items[0].additions else 0) + Additions(items[1..])
  }

  function Deletions(items: seq<Item>): nat {
    if items == [] then 0
    else (if items[0].Counted? then items[0].deletions else 0) + Deletions(items[1..])
  }

  predicate IsWhole(item: Item) {
    match item
    case Nothing => true
    case Broken => false
    case Binary(whole) => whole
    case Counted(_, _, whole) => whole
  }

  predicate AllWhole(items: seq<Item>) {
    forall item <- items :: IsWhole(item)
  }

  /**
   The totals over a stream of records: the true sums, each held at the largest count there is, and
   complete exactly when every record was read and neither sum passed it.
   */
  function Totals(items: seq<Item>): Counts {
    var a, d := Additions(items), Deletions(items);
    Counts(Capped(a), Capped(d), AllWhole(items) && a <= USIZE_MAX && d <= USIZE_MAX)
  }

  lemma {:induction false} ItemsAppend(a: seq<Item>, b: seq<Item>)
    ensures Additions(a + b) == Additions(a) + Additions(b)
    ensures Deletions(a + b) == Deletions(a) + Deletions(b)
    ensures AllWhole(a + b) <==> AllWhole(a) && AllWhole(b)
  {
    if a == [] {
      assert a + b == b;
    } else {
      assert (a + b)[1..] == a[1..] + b;
      ItemsAppend(a[1..], b);
      assert forall x | x in a + b :: x in a || x in b;
      assert forall x | x in a || x in b :: x in a + b;
    }
  }

  /** Adding a count that may not fit: what the total becomes, and whether it fitted. */
  function CheckedAdd(total: nat, n: nat): (nat, bool) {
    if total + n <= USIZE_MAX then (total + n, true) else (USIZE_MAX, false)
  }

  lemma TotalsSnoc(items: seq<Item>, item: Item)
    ensures var before := Totals(items);
            var after := Totals(items + [item]);
            match item
            case Counted(a, d, whole) =>
              && after.additions == CheckedAdd(before.additions, a).0
              && after.deletions == CheckedAdd(before.deletions, d).0
              && (after.complete <==> before.complete && whole
                                      && CheckedAdd(before.additions, a).1 && CheckedAdd(before.deletions, d).1)
            case _ => after == before.(complete := before.complete && IsWhole(item))
  {
    ItemsAppend(items, [item]);
    assert [item][1..] == [];
    assert AllWhole([item]) <==> IsWhole(item) by { assert item in [item]; }
    assert Additions([item]) == (if item.Counted? then item.additions else 0) + Additions([]);
    assert Deletions([item]) == (if item.Counted? then item.deletions else 0) + Deletions([]);
  }

  method Parse(output: seq<byte>) returns (counts: Counts)
    ensures counts == Totals(Items(Split(output, NUL)))
  {
    counts := Counts(0, 0, true);
    var records := Split(output, NUL);
    ghost var done: seq<Item> := [];
    while records != []
      invariant counts == Totals(done)
      invariant done + Items(records) == Items(Split(output, NUL))
      decreases |records|
    {
      var record := records[0];
      ghost var (item, used) := Take(records);
      ghost var before := done;
      TotalsSnoc(done, item);
      Assoc(done, [item], Items(records[used..]));
      done := done + [item];
      ghost var left := records[used..];
      records := records[1..];
      if record == [] {
        continue;
      }
      var fields := SplitN(record, TAB, 3);
      if |fields| < 3 {
        counts := counts.(complete := false);
        continue;
      }
      var path := fields[2];
      if path == [] {
        if |records| < 2 {
          records := [];
          counts := counts.(complete := false);
        } else {
          records := records[2..];
        }
      }
      assert records == left;
      if fields[0] == BINARY_COUNT && fields[1] == BINARY_COUNT {
        continue;
      }
      var a, d := ParseUnsigned(fields[0], USIZE_MAX), ParseUnsigned(fields[1], USIZE_MAX);
      if a.None? || d.None? {
        counts := counts.(complete := false);
        continue;
      }
      var added := CheckedAdd(counts.additions, a.value);
      var deleted := CheckedAdd(counts.deletions, d.value);
      counts := Counts(added.0, deleted.0, counts.complete && added.1 && deleted.1);
    }
    assert done + [] == done;
  }

  // ---------------------------------------------------------------- what version control prints

  datatype Numstat =
    | Changed(additions: nat, deletions: nat, path: seq<byte>)
    | Moved(additions: nat, deletions: nat, from: seq<byte>, to: seq<byte>)
    | BinaryChanged(path: seq<byte>)
    | BinaryMoved(from: seq<byte>, to: seq<byte>)

  predicate Printable(e: Numstat) {
    match e
    case Changed(_, _, path) => path != [] && NUL !in path
    case Moved(_, _, from, to) => NUL !in from && NUL !in to
    case BinaryChanged(path) => path != [] && NUL !in path
    case BinaryMoved(from, to) => NUL !in from && NUL !in to
  }

  function Columns(a: seq<byte>, d: seq<byte>, path: seq<byte>): seq<byte> {
    Terminated([a, d], TAB) + path
  }

  /** A record's pieces. A rename leaves the path column empty and its two paths follow. */
  function Pieces(e: Numstat): seq<seq<byte>> {
    match e
    case Changed(a, d, path) => [Columns(Digits(a), Digits(d), path)]
    case Moved(a, d, from, to) => [Columns(Digits(a), Digits(d), []), from, to]
    case BinaryChanged(path) => [Columns(BINARY_COUNT, BINARY_COUNT, path)]
    case BinaryMoved(from, to) => [Columns(BINARY_COUNT, BINARY_COUNT, []), from, to]
  }

  function AllPieces(entries: seq<Numstat>): seq<seq<byte>> {
    if entries == [] then [] else Pieces(entries[0]) + AllPieces(entries[1..])
  }

  function Print(entries: seq<Numstat>): seq<byte> {
    Terminated(AllPieces(entries), NUL)
  }

  function AddedIn(e: Numstat): nat {
    match e case Changed(a, _, _) => a case Moved(a, _, _, _) => a case _ => 0
  }

  function DeletedIn(e: Numstat): nat {
    match e case Changed(_, d, _) => d case Moved(_, d, _, _) => d case _ => 0
  }

  function TotalAdded(entries: seq<Numstat>): nat {
    if entries == [] then 0 else AddedIn(entries[0]) + TotalAdded(entries[1..])
  }

  function TotalDeleted(entries: seq<Numstat>): nat {
    if entries == [] then 0 else DeletedIn(entries[0]) + TotalDeleted(entries[1..])
  }

  function ItemOf(e: Numstat): Item {
    match e
    case BinaryChanged(_) => Binary(true)
    case BinaryMoved(_, _) => Binary(true)
    case _ =>
      if AddedIn(e) <= USIZE_MAX && DeletedIn(e) <= USIZE_MAX then Counted(AddedIn(e), DeletedIn(e), true)
      else Broken
  }

  lemma ColumnsRead(a: seq<byte>, d: seq<byte>, path: seq<byte>)
    requires TAB !in a && TAB !in d
    ensures Columns(a, d, path) != []
    ensures SplitN(Columns(a, d, path), TAB, 3) == [a, d, path]
  {
    assert forall p | p in [a, d] :: TAB !in p;
    SplitNTerminated([a, d], path, TAB);
  }

  lemma NoTabIn(n: nat)
    ensures TAB !in Digits(n) && NUL !in Digits(n) && Digits(n) != BINARY_COUNT
  {
    assert Digits(n)[0] in Digits(n);
  }

  lemma TakeEntry(e: Numstat, rest: seq<seq<byte>>)
    requires Printable(e)
    ensures Take(Pieces(e) + rest) == (ItemOf(e), |Pieces(e)|)
    ensures Items(Pieces(e) + rest) == [ItemOf(e)] + Items(rest)
  {
    CutAppend(Pieces(e), rest);
    match e {
      case Changed(a, d, path) =>
        ColumnsOfNumbers(a, d, path);
      case Moved(a, d, from, to) =>
        ColumnsOfNumbers(a, d, []);
      case BinaryChanged(path) =>
        ColumnsRead(BINARY_COUNT, BINARY_COUNT, path);
      case BinaryMoved(from, to) =>
        ColumnsRead(BINARY_COUNT, BINARY_COUNT, []);
    }
  }

  lemma ColumnsOfNumbers(a: nat, d: nat, path: seq<byte>)
    ensures var c := Columns(Digits(a), Digits(d), path);
            c != [] && SplitN(c, TAB, 3) == [Digits(a), Digits(d), path]
    ensures ParseUnsigned(Digits(a), USIZE_MAX) == if a <= USIZE_MAX then Some(a) else None
    ensures ParseUnsigned(Digits(d), USIZE_MAX) == if d <= USIZE_MAX then Some(d) else None
    ensures Digits(a) != BINARY_COUNT
  {
    NoTabIn(a);
    NoTabIn(d);
    ColumnsRead(Digits(a), Digits(d), path);
    UnsignedRoundTrip(a, USIZE_MAX);
    UnsignedRoundTrip(d, USIZE_MAX);
  }

  function ItemsOf(entries: seq<Numstat>): seq<Item> {
    if entries == [] then [] else [ItemOf(entries[0])] + ItemsOf(entries[1..])
  }

  lemma {:induction false} ItemsOfEntries(entries: seq<Numstat>, rest: seq<seq<byte>>)
    requires forall e <- entries :: Printable(e)
    ensures Items(AllPieces(entries) + rest) == ItemsOf(entries) + Items(rest)
  {
    if entries == [] {
      assert [] + rest == rest;
    } else {
      ItemsOfEntries(entries[1..], rest);
      Assoc(Pieces(entries[0]), AllPieces(entries[1..]), rest);
      TakeEntry(entries[0], AllPieces(entries[1..]) + rest);
      Assoc([ItemOf(entries[0])], ItemsOf(entries[1..]), Items(rest));
    }
  }

  lemma ColumnsHoldNoNul(a: seq<byte>, d: seq<byte>, path: seq<byte>)
    requires NUL !in a && NUL !in d && NUL !in path
    ensures NUL !in Columns(a, d, path)
  {
    assert forall p | p in [a, d] :: NUL !in p;
    NotInTerminated([a, d], TAB, NUL);
  }

  lemma {:induction false} PiecesHoldNoNul(entries: seq<Numstat>)
    requires forall e <- entries :: Printable(e)
    ensures forall p <- AllPieces(entries) :: NUL !in p
  {
    if entries != [] {
      var e := entries[0];
      assert Printable(e);
      PiecesHoldNoNul(entries[1..]);
      match e {
        case Changed(a, d, path) => NoTabIn(a); NoTabIn(d); ColumnsHoldNoNul(Digits(a), Digits(d), path);
        case Moved(a, d, from, to) => NoTabIn(a); NoTabIn(d); ColumnsHoldNoNul(Digits(a), Digits(d), []);
        case BinaryChanged(path) => ColumnsHoldNoNul(BINARY_COUNT, BINARY_COUNT, path);
        case BinaryMoved(from, to) => ColumnsHoldNoNul(BINARY_COUNT, BINARY_COUNT, []);
      }
    }
  }

  lemma {:induction false} TotalsOfEntries(entries: seq<Numstat>)
    ensures var items := ItemsOf(entries);
            && Additions(items) <= TotalAdded(entries)
            && Deletions(items) <= TotalDeleted(entries)
            && (AllWhole(items) ==>
                  Additions(items) == TotalAdded(entries) && Deletions(items) == TotalDeleted(entries))
            && (TotalAdded(entries) <= USIZE_MAX && TotalDeleted(entries) <= USIZE_MAX ==> AllWhole(items))
  {
    if entries != [] {
      TotalsOfEntries(entries[1..]);
      ItemsAppend([ItemOf(entries[0])], ItemsOf(entries[1..]));
      assert ItemOf(entries[0]) in [ItemOf(entries[0])];
    }
  }

  /**
   Reading back what was printed: the counts are reported complete exactly when the true totals fit,
   and are then those totals, renames realigned and binary paths left out.
   */
  lemma NumstatRoundTrip(entries: seq<Numstat>)
    requires forall e <- entries :: Printable(e)
    ensures var c := Totals(Items(Split(Print(entries), NUL)));
            && (c.complete <==> TotalAdded(entries) <= USIZE_MAX && TotalDeleted(entries) <= USIZE_MAX)
            && (c.complete ==> c == Counts(TotalAdded(entries), TotalDeleted(entries), true))
  {
    PiecesHoldNoNul(entries);
    SplitTerminated(AllPieces(entries), NUL, []);
    assert Print(entries) + [] == Print(entries);
    ItemsOfEntries(entries, [[]]);
    TrailingPiece();
    TotalsSnoc(ItemsOf(entries), Nothing);
    TotalsOfEntries(entries);
  }

  /** The counts of a record, as they are printed. */
  function CountsOf(e: Numstat): (seq<byte>, seq<byte>) {
    match e
    case Changed(a, d, _) => (Digits(a), Digits(d))
    case Moved(a, d, _, _) => (Digits(a), Digits(d))
    case _ => (BINARY_COUNT, BINARY_COUNT)
  }

  /** As much of a record came as is read for all of it: its path begun, or for a rename its second path reached. */
  predicate Reaches(e: Numstat, whole: nat, part: seq<byte>) {
    whole == 2 || (whole == 0 && |part| > |Columns(CountsOf(e).0, CountsOf(e).1, [])|)
  }

  lemma ColumnsCut(a: seq<byte>, d: seq<byte>, path: seq<byte>, part: seq<byte>)
    requires TAB !in a && TAB !in d && part <= Columns(a, d, path)
    ensures |part| < |Columns(a, d, [])| ==> |SplitN(part, TAB, 3)| < 3
    ensures |part| >= |Columns(a, d, [])| ==> part == Columns(a, d, path[..|part| - |Columns(a, d, [])|])
  {
    assert Columns(a, d, path) == a + [TAB] + (d + [TAB] + path) by { TwoColumns(a, d, path); }
    assert Columns(a, d, []) == a + [TAB] + (d + [TAB] + []) by { TwoColumns(a, d, []); }
    var n := |part| - |Columns(a, d, [])|;
    if n >= 0 {
      TwoColumns(a, d, path[..n]);
    } else if |part| <= |a| {
      assert part == a[..|part|];
      assert TAB !in part;
      SplitNWhole(part, TAB, 3);
    } else {
      var rest := part[|a| + 1..];
      assert part == a + [TAB] + rest && rest == d[..|rest|];
      assert TAB !in rest;
      SplitNWhole(rest, TAB, 2);
      SplitNFirst(a, TAB, rest, 3);
    }
  }

  lemma TwoColumns(a: seq<byte>, d: seq<byte>, path: seq<byte>)
    ensures Columns(a, d, path) == a + [TAB] + (d + [TAB] + path)
  {
    assert [a, d][1..] == [d] && [d][1..] == [];
    assert Terminated([d], TAB) == d + [TAB] + Terminated([], TAB);
    assert Terminated([a, d], TAB) == a + [TAB] + Terminated([d], TAB);
  }

  /** What a record that was cut off is read as. */
  lemma CutRecord(e: Numstat, whole: nat, part: seq<byte>)
    requires Printable(e) && whole < |Pieces(e)| && part <= Pieces(e)[whole] && (whole > 0 || part != [])
    ensures var item := Take(Pieces(e)[..whole] + [part]).0;
            && Items(Pieces(e)[..whole] + [part]) == [item]
            && (IsWhole(item) <==> Reaches(e, whole, part) && ItemOf(e) != Broken)
            && (IsWhole(item) ==> item == ItemOf(e))
  {
    var (a, d) := CountsOf(e);
    var pieces := Pieces(e)[..whole] + [part];
    CountsRead(e);
    assert Items([]) == [];
    if whole == 0 {
      assert pieces == [part];
      var path := if e.Changed? || e.BinaryChanged? then e.path else [];
      ColumnsCut(a, d, path, part);
      if |part| >= |Columns(a, d, [])| {
        ColumnsRead(a, d, path[..|part| - |Columns(a, d, [])|]);
      }
    } else {
      ColumnsRead(a, d, []);
    }
  }

  /**
   Whole records, then one cut off somewhere. The counts are reported complete exactly when nothing of
   the cut record came, or enough of it to be read for all of it, and the true totals fit; and are then
   those totals, its own counts among them: what is not complete is only a path, and paths are not counted.
   */
  lemma NumstatCutAnywhere(entries: seq<Numstat>, next: Numstat, whole: nat, part: seq<byte>)
    requires (forall e <- entries :: Printable(e)) && Printable(next)
    requires whole < |Pieces(next)| && part <= Pieces(next)[whole]
    ensures var c := Totals(Items(Split(Print(entries) + (Terminated(Pieces(next)[..whole], NUL) + part), NUL)));
            var nothing := whole == 0 && part == [];
            var seen := if nothing then entries else entries + [next];
            && (c.complete <==> (nothing || Reaches(next, whole, part))
                                && TotalAdded(seen) <= USIZE_MAX && TotalDeleted(seen) <= USIZE_MAX)
            && (c.complete ==> c == Counts(TotalAdded(seen), TotalDeleted(seen), true))
  {
    PiecesOfCut(entries, next, whole, part);
    ItemsOfEntries(entries, Pieces(next)[..whole] + [part]);
    if whole == 0 && part == [] {
      assert Pieces(next)[..0] + [part] == [[]];
      TrailingPiece();
      TotalsSnoc(ItemsOf(entries), Nothing);
      TotalsOfEntries(entries);
    } else {
      CutRecord(next, whole, part);
      OneMoreItem(entries, next, Take(Pieces(next)[..whole] + [part]).0, Reaches(next, whole, part));
    }
  }

  /** The totals of whole records and of one more, read for all of it or not. */
  lemma OneMoreItem(entries: seq<Numstat>, next: Numstat, item: Item, reached: bool)
    requires IsWhole(item) <==> reached && ItemOf(next) != Broken
    requires IsWhole(item) ==> item == ItemOf(next)
    ensures var c := Totals(ItemsOf(entries) + [item]);
            var seen := entries + [next];
            && (c.complete <==> reached && TotalAdded(seen) <= USIZE_MAX && TotalDeleted(seen) <= USIZE_MAX)
            && (c.complete ==> c == Counts(TotalAdded(seen), TotalDeleted(seen), true))
  {
    TotalsOfEntries(entries);
    TotalsSnoc(ItemsOf(entries), item);
    TotalsAppend(entries, next);
  }

  lemma {:induction false} TotalsAppend(entries: seq<Numstat>, next: Numstat)
    ensures TotalAdded(entries + [next]) == TotalAdded(entries) + AddedIn(next)
    ensures TotalDeleted(entries + [next]) == TotalDeleted(entries) + DeletedIn(next)
  {
    if entries == [] {
      assert entries + [next] == [next] && [next][1..] == [];
    } else {
      assert (entries + [next])[1..] == entries[1..] + [next];
      TotalsAppend(entries[1..], next);
    }
  }

  lemma CutHoldsNoNul(e: Numstat, whole: nat, part: seq<byte>)
    requires Printable(e) && whole < |Pieces(e)| && part <= Pieces(e)[whole]
    ensures NUL !in part && forall p <- Pieces(e)[..whole] :: NUL !in p
  {
    var one := [e];
    PiecesHoldNoNul(one);
    assert AllPieces(one) == Pieces(e) + AllPieces(one[1..]);
    assert Pieces(e) + [] == Pieces(e);
    HoldsNoByte(Pieces(e), whole, part, NUL);
  }

  lemma HoldsNoByte(pieces: seq<seq<byte>>, whole: nat, part: seq<byte>, b: byte)
    requires (forall p <- pieces :: b !in p) && whole < |pieces| && part <= pieces[whole]
    ensures b !in part && forall p <- pieces[..whole] :: b !in p
  {
    assert b !in pieces[whole];
    assert forall i | 0 <= i < |part| :: part[i] == pieces[whole][i];
    assert forall p <- pieces[..whole] :: p in pieces;
  }

  lemma PiecesOfCut(entries: seq<Numstat>, next: Numstat, whole: nat, part: seq<byte>)
    requires (forall e <- entries :: Printable(e)) && Printable(next)
    requires whole < |Pieces(next)| && part <= Pieces(next)[whole]
    ensures Split(Print(entries) + (Terminated(Pieces(next)[..whole], NUL) + part), NUL)
            == AllPieces(entries) + (Pieces(next)[..whole] + [part])
  {
    var begun := Pieces(next)[..whole];
    PiecesHoldNoNul(entries);
    CutHoldsNoNul(next, whole, part);
    TerminatedAppend(AllPieces(entries), begun, NUL);
    Assoc(Print(entries), Terminated(begun, NUL), part);
    SplitTerminated(AllPieces(entries) + begun, NUL, part);
    Assoc(AllPieces(entries), begun, [part]);
  }

  lemma CountsRead(e: Numstat)
    ensures var (a, d) := CountsOf(e);
            && TAB !in a && TAB !in d
            && match e
               case Changed(n, m, _) => CountsAre(a, d, n, m)
               case Moved(n, m, _, _) => CountsAre(a, d, n, m)
               case _ => a == d == BINARY_COUNT
  {
    match e {
      case Changed(n, m, _) => ColumnsOfNumbers(n, m, []); NoTabIn(n); NoTabIn(m);
      case Moved(n, m, _, _) => ColumnsOfNumbers(n, m, []); NoTabIn(n); NoTabIn(m);
      case _ =>
    }
  }

  predicate CountsAre(a: seq<byte>, d: seq<byte>, n: nat, m: nat) {
    && a != BINARY_COUNT
    && ParseUnsigned(a, USIZE_MAX) == (if n <= USIZE_MAX then Some(n) else None)
    && ParseUnsigned(d, USIZE_MAX) == (if m <= USIZE_MAX then Some(m) else None)
  }

  /**
   One record of any two columns: read as binary, and whole, exactly when both are a single dash; as
   numbers when both are ones that fit; and otherwise not at all, which is not complete.
   */
  lemma OneRecord(a: seq<byte>, d: seq<byte>, path: seq<byte>)
    requires TAB !in a && TAB !in d && NUL !in a && NUL !in d && NUL !in path && path != []
    ensures var c := Totals(Items(Split(a + [9] + (d + [9] + path) + [0], NUL)));
            var added, deleted := ParseUnsigned(a, USIZE_MAX), ParseUnsigned(d, USIZE_MAX);
            if a == [45] && d == [45] then c == Counts(0, 0, true)
            else if added.Some? && deleted.Some? then c == Counts(added.value, deleted.value, true)
            else c == Counts(0, 0, false)
  {
    var record := Columns(a, d, path);
    TwoColumns(a, d, path);
    ColumnsRead(a, d, path);
    ColumnsHoldNoNul(a, d, path);
    SplitFirst(record, NUL, []);
    assert record + [NUL] + [] == record + [NUL];
    SplitWhole([], NUL);
    var pieces := [record] + [[]];
    assert Split(record + [NUL], NUL) == pieces;
    assert pieces[1..] == [[]];
    TrailingPiece();
    var item := Take(pieces).0;
    assert Items(pieces) == [item] + [Nothing];
    TotalsSnoc([item], Nothing);
    TotalsSnoc([], item);
    assert [] + [item] == [item];
  }

  lemma TrailingPiece()
    ensures Items([[]]) == [Nothing]
  {
    var last: seq<seq<byte>> := [[]];
    assert last[1..] == [];
    assert Items(last) == [Nothing] + Items(last[1..]);
  }

  // ---------------------------------------------------------------- untracked files

  /** Newlines, and one more for a last line that wants its own. */
  function LineCount(bytes: seq<byte>): nat {
    Newlines(bytes) + (if bytes != [] && bytes[|bytes| - 1] != LF then 1 else 0)
  }

  function Newlines(bytes: seq<byte>): nat {
    if bytes == [] then 0 else (if bytes[0] == LF then 1 else 0) + Newlines(bytes[1..])
  }

  /** The count is the number of lines, and never more than the number of bytes. */
  lemma {:induction false} LineCountIsLines(bytes: seq<byte>)
    ensures LineCount(bytes) == |Lines(bytes)| <= |bytes|
  {
    if bytes != [] {
      LineCountIsLines(bytes[1..]);
    }
  }

  /**
   What looking for a file finds: nothing, something that is not a regular file, or one whose size
   was stated before it was opened and whose reading may fail after some of its content.
   */
  datatype File =
    | Missing
    | Other
    | Regular(size: nat, opens: bool, content: seq<byte>, failsAt: Option<nat>)

  /** The bytes a read of at most `n` gets, and whether it got to their end without failing. */
  function ReadUpTo(f: File, n: nat): (r: (seq<byte>, bool))
    requires f.Regular?
    ensures |r.0| <= n && r.0 <= f.content
  {
    var m := if |f.content| <= n then |f.content| else n;
    if f.failsAt.Some? && f.failsAt.value <= m && f.failsAt.value < n then (f.content[..f.failsAt.value], false)
    else (f.content[..m], true)
  }

  predicate IsUntracked(change: StatusParse.FileChange) {
    change.status.unstaged == Some(StatusParse.Untracked)
  }

  predicate IsBinary(bytes: seq<byte>) {
    NUL in bytes[..if |bytes| <= BINARY_SNIFF then |bytes| else BINARY_SNIFF]
  }

  function LinesOfFile(f: File): nat {
    if f.Regular? && !IsBinary(f.content) then LineCount(f.content) else 0
  }

  /** The lines of the untracked text files, however large. */
  function TrueLines(changes: seq<StatusParse.FileChange>, disk: seq<byte> -> File): nat {
    if changes == [] then 0
    else (if IsUntracked(changes[0]) then LinesOfFile(disk(changes[0].path)) else 0) + TrueLines(changes[1..], disk)
  }

  lemma {:induction false} TrueLinesAppend(
      a: seq<StatusParse.FileChange>, b: seq<StatusParse.FileChange>, disk: seq<byte> -> File)
    ensures TrueLines(a + b, disk) == TrueLines(a, disk) + TrueLines(b, disk)
  {
    if a == [] {
      assert a + b == b;
    } else {
      assert (a + b)[1..] == a[1..] + b;
      TrueLinesAppend(a[1..], b, disk);
    }
  }

  lemma TrueLinesNext(changes: seq<StatusParse.FileChange>, i: nat, disk: seq<byte> -> File)
    requires i < |changes|
    ensures TrueLines(changes[..i + 1], disk)
            == TrueLines(changes[..i], disk)
               + (if IsUntracked(changes[i]) then LinesOfFile(disk(changes[i].path)) else 0)
  {
    assert changes[..i + 1] == changes[..i] + [changes[i]];
    TrueLinesAppend(changes[..i], [changes[i]], disk);
    assert [changes[i]][1..] == [];
  }

  /** A file that can be read whole, and is what its size said. */
  predicate Readable(f: File) {
    f.Regular? && f.opens && f.failsAt.None? && f.size == |f.content|
  }

  /**
   Every untracked path can be settled: there is still budget when it is reached, and it is either
   not a regular file or one that can be read within the limits.
   */
  predicate WithinLimits(changes: seq<StatusParse.FileChange>, disk: seq<byte> -> File, budget: nat)
    decreases |changes|
  {
    if changes == [] then true
    else if !IsUntracked(changes[0]) then WithinLimits(changes[1..], disk, budget)
    else
      var f := disk(changes[0].path);
      if f.Other? then budget > 0 && WithinLimits(changes[1..], disk, budget)
      else
        && Readable(f)
        && 0 < budget && |f.content| <= budget && |f.content| <= FILE_LIMIT
        && WithinLimits(changes[1..], disk, budget - |f.content|)
  }

  function SaturatingAdd(a: nat, b: nat): nat {
    Capped(a + b)
  }

  /** The running total against what has been read, what is left to read and what there was to count. */
  ghost predicate Accounted(additions: nat, complete: bool, bytesRead: nat, budget: nat, lines: nat) {
    && (if budget > 0 then bytesRead + budget == UNTRACKED_TOTAL_LIMIT
        else UNTRACKED_TOTAL_LIMIT <= bytesRead <= UNTRACKED_TOTAL_LIMIT + 1)
    && additions <= bytesRead && additions <= lines && (complete ==> additions == lines)
  }

  /** Reads one untracked file within what is left to read, and counts its lines if all of it is text. */
  method Inspect(file: File, budget: nat) returns (lines: nat, whole: bool, got: nat)
    requires budget > 0
    ensures got <= budget + 1 && lines <= got && lines <= LinesOfFile(file)
    ensures whole ==> lines == LinesOfFile(file)
    ensures whole && file.Regular? ==>
              lines == if HoldsNulBefore(file.content, 8000) then 0 else |Lines(file.content)|
    ensures file.Other? ==> whole && got == 0
    ensures Readable(file) && |file.content| <= budget && |file.content| <= FILE_LIMIT ==>
              whole && got == |file.content|
  {
    lines, whole, got := 0, false, 0;
    if !file.Regular? {
      whole := file.Other?;
      return;
    }
    if file.size > FILE_LIMIT {
      return;
    }
    var allowance := if budget <= FILE_LIMIT then budget else FILE_LIMIT;
    if file.size > allowance || !file.opens {
      return;
    }
    var (bytes, read) := ReadUpTo(file, allowance + 1);
    got := |bytes|;
    if !read || |bytes| > allowance {
      return;
    }
    assert bytes == file.content;
    whole := true;
    BinaryIffNul(bytes);
    LineCountIsLines(bytes);
    if !IsBinary(bytes) {
      lines := LineCount(bytes);
    }
  }

  /** One of the first `n` bytes is zero. */
  predicate HoldsNulBefore(bytes: seq<byte>, n: nat) {
    exists i :: 0 <= i < n && i < |bytes| && bytes[i] == 0
  }

  lemma BinaryIffNul(bytes: seq<byte>)
    ensures IsBinary(bytes) <==> HoldsNulBefore(bytes, 8000)
  {
    var sniffed := bytes[..if |bytes| <= BINARY_SNIFF then |bytes| else BINARY_SNIFF];
    if i :| 0 <= i < 8000 && i < |bytes| && bytes[i] == 0 {
      assert sniffed[i] == NUL;
    }
  }

  /**
   Counts the untracked text lines within the budget. The total never saturates, because no more
   than one byte past the budget is ever read and lines never outnumber bytes; reported complete,
   it is the true count; and it is complete whenever every untracked path is within the limits.
   */
  method UntrackedAdditions(changes: seq<StatusParse.FileChange>, disk: seq<byte> -> File)
    returns (additions: nat, complete: bool, ghost bytesRead: nat)
    ensures bytesRead <= UNTRACKED_TOTAL_LIMIT + 1
    ensures additions <= bytesRead
    ensures additions <= TrueLines(changes, disk)
    ensures complete ==> additions == TrueLines(changes, disk)
    ensures WithinLimits(changes, disk, UNTRACKED_TOTAL_LIMIT) ==> complete
  {
    var budget: nat := UNTRACKED_TOTAL_LIMIT;
    additions, complete, bytesRead := 0, true, 0;
    for i := 0 to |changes|
      invariant Accounted(additions, complete, bytesRead, budget, TrueLines(changes[..i], disk))
      invariant WithinLimits(changes, disk, UNTRACKED_TOTAL_LIMIT) ==>
                  complete && WithinLimits(changes[i..], disk, budget)
    {
      var change := changes[i];
      assert changes[i..][1..] == changes[i + 1..];
      TrueLinesNext(changes, i, disk);
      TrueLinesOfFront(changes, i + 1, disk);
      if change.status.unstaged != Some(StatusParse.Untracked) {
        continue;
      }
      if budget == 0 {
        complete := false;
        break;
      }
      var lines, whole, got := Inspect(disk(change.path), budget);
      bytesRead := bytesRead + got;
      budget := if got <= budget then budget - got else 0;
      complete := complete && whole;
      additions := SaturatingAdd(additions, lines);
    }
    TrueLinesOfFront(changes, |changes|, disk);
    assert changes[..|changes|] == changes;
  }

  lemma TrueLinesOfFront(changes: seq<StatusParse.FileChange>, i: nat, disk: seq<byte> -> File)
    requires i <= |changes|
    ensures TrueLines(changes[..i], disk) <= TrueLines(changes, disk)
  {
    assert changes == changes[..i] + changes[i..];
    TrueLinesAppend(changes[..i], changes[i..], disk);
  }

  // ---------------------------------------------------------------- both together

  /** The counts a status read reports, from version control's own totals when it gave any. */
  method Read(tracked: Option<seq<byte>>, changes: seq<StatusParse.FileChange>, disk: seq<byte> -> File)
    returns (counts: Counts)
    ensures counts.complete ==>
              && tracked.Some?
              && var t := Totals(Items(Split(tracked.value, NUL)));
                 t.complete
                 && counts == Counts(t.additions + TrueLines(changes, disk), t.deletions, true)
    ensures tracked.Some? && Totals(Items(Split(tracked.value, NUL))).complete
            && WithinLimits(changes, disk, UNTRACKED_TOTAL_LIMIT)
            && Totals(Items(Split(tracked.value, NUL))).additions + TrueLines(changes, disk) <= USIZE_MAX
            ==> counts.complete
  {
    if tracked.Some? {
      counts := Parse(tracked.value);
    } else {
      counts := Counts(0, 0, false);
    }
    var untracked, complete, _ := UntrackedAdditions(changes, disk);
    var (total, fits) := CheckedAdd(counts.additions, untracked);
    counts := Counts(total, counts.deletions, counts.complete && fits && complete);
  }
}
