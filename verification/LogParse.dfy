/** Reading `git log -z`: a flat stream of NUL-terminated fields, six to a commit. */
module LogParse {
  import opened Bytes
  import opened Decimal
  import opened Utf8
  import opened Wrappers

  const FIELDS: nat := 6
  const COMMIT_BODY_LIMIT: nat := 8 * 1024

  datatype CommitEntry = CommitEntry(
    id: seq<byte>,
    subject: seq<byte>,
    body: seq<byte>,
    author: seq<byte>,
    authoredAt: int,
    merge: bool)

  /** How many words white space separates. */
  function Words(s: seq<byte>, inWord: bool): nat
    decreases |s|
  {
    if s == [] then 0
    else if SpaceAtStart(s) > 0 then Words(s[SpaceAtStart(s)..], false)
    else (if inWord then 0 else 1) + Words(s[ScanChar(s).used..], true)
  }

  /** All of a body, or none of one past the limit. */
  function Fitting(body: seq<byte>): seq<byte> {
    if |body| <= COMMIT_BODY_LIMIT then body else []
  }

  /** The entry six fields make, unless the third is not a 64-bit number. */
  function Entry(record: seq<seq<byte>>): Option<CommitEntry>
    requires |record| == FIELDS
  {
    var at :- ParseI64(record[2]);
    Some(CommitEntry(record[0], record[4], Fitting(TrimEnd(record[5])), record[1], at, Words(record[3], false) > 1))
  }

  function One(record: seq<seq<byte>>): seq<CommitEntry>
    requires |record| == FIELDS
  {
    match Entry(record) case Some(e) => [e] case None => []
  }

  /** The fields six at a time; what is left at the end is not a record. */
  function Entries(fields: seq<seq<byte>>): seq<CommitEntry>
    decreases |fields|
  {
    if |fields| < FIELDS then [] else One(fields[..FIELDS]) + Entries(fields[FIELDS..])
  }

  function Parsed(output: seq<byte>): seq<CommitEntry> {
    Entries(Split(Lossy(output), NUL))
  }

  // ---------------------------------------------------------------- what version control prints

  predicate IsRecord(record: seq<seq<byte>>) {
    |record| == FIELDS && forall f <- record :: NUL !in f
  }

  /** Every record's fields, each followed by a NUL. */
  function Print(records: seq<seq<seq<byte>>>): seq<byte> {
    Terminated(Concat(records), NUL)
  }

  function LossyFields(fields: seq<seq<byte>>): seq<seq<byte>> {
    seq(|fields|, i requires 0 <= i < |fields| => Lossy(fields[i]))
  }

  /** The records whose dates are numbers, in order. */
  function Dated(records: seq<seq<seq<byte>>>): seq<CommitEntry>
    requires forall r <- records :: IsRecord(r)
  {
    if records == [] then []
    else
      assert IsRecord(records[0]);
      One(LossyFields(records[0])) + Dated(records[1..])
  }

  lemma LossyField(field: seq<byte>, rest: seq<byte>)
    ensures Lossy(field + [NUL] + rest) == Lossy(field) + [NUL] + Lossy(rest)
  {
    LossyAfterAscii(field + [NUL], rest);
    LossyBeforeAscii(field, NUL);
  }

  lemma {:induction false} LossyTerminated(fields: seq<seq<byte>>, tail: seq<byte>)
    ensures Lossy(Terminated(fields, NUL) + tail) == Terminated(LossyFields(fields), NUL) + Lossy(tail)
  {
    if fields == [] {
      assert [] + tail == tail && [] + Lossy(tail) == Lossy(tail);
    } else {
      LossyTerminated(fields[1..], tail);
      LossyField(fields[0], Terminated(fields[1..], NUL) + tail);
      Assoc(fields[0] + [NUL], Terminated(fields[1..], NUL), tail);
      assert LossyFields(fields)[1..] == LossyFields(fields[1..]);
      Assoc(Lossy(fields[0]) + [NUL], Terminated(LossyFields(fields[1..]), NUL), Lossy(tail));
    }
  }

  /** The pieces of a stream of whole fields and a last one that was cut off. */
  lemma FieldsOf(fields: seq<seq<byte>>, tail: seq<byte>)
    requires (forall f <- fields :: NUL !in f) && NUL !in tail
    ensures Split(Lossy(Terminated(fields, NUL) + tail), NUL) == LossyFields(fields) + [Lossy(tail)]
  {
    LossyTerminated(fields, tail);
    forall f | f in LossyFields(fields) ensures NUL !in f {
      var i :| 0 <= i < |fields| && f == Lossy(fields[i]);
      assert fields[i] in fields;
      LossyInventsNoAscii(fields[i], NUL);
    }
    LossyInventsNoAscii(tail, NUL);
    SplitTerminated(LossyFields(fields), NUL, Lossy(tail));
  }

  lemma EntriesCons(record: seq<seq<byte>>, rest: seq<seq<byte>>)
    requires |record| == FIELDS
    ensures Entries(record + rest) == One(record) + Entries(rest)
  {
    CutAppend(record, rest);
  }

  lemma {:induction false} EntriesOf(records: seq<seq<seq<byte>>>, rest: seq<seq<byte>>)
    requires forall r <- records :: IsRecord(r)
    ensures Entries(LossyFields(Concat(records)) + rest) == Dated(records) + Entries(rest)
  {
    if records == [] {
      assert LossyFields(Concat(records)) + rest == rest;
    } else {
      assert IsRecord(records[0]);
      EntriesOf(records[1..], rest);
      var first, more := LossyFields(records[0]), LossyFields(Concat(records[1..]));
      LossyFieldsAppend(records[0], Concat(records[1..]));
      Assoc(first, more, rest);
      EntriesCons(first, more + rest);
      Assoc(One(first), Dated(records[1..]), Entries(rest));
    }
  }

  lemma {:induction false} FieldsHoldNoNul(records: seq<seq<seq<byte>>>)
    requires forall r <- records :: IsRecord(r)
    ensures forall f <- Concat(records) :: NUL !in f
  {
    if records != [] {
      assert IsRecord(records[0]);
      FieldsHoldNoNul(records[1..]);
    }
  }

  lemma LossyFieldsAppend(a: seq<seq<byte>>, b: seq<seq<byte>>)
    ensures LossyFields(a + b) == LossyFields(a) + LossyFields(b)
  {
  }

  lemma PiecesOfCut(records: seq<seq<seq<byte>>>, begun: seq<seq<byte>>, part: seq<byte>)
    requires forall r <- records :: IsRecord(r)
    requires (forall f <- begun :: NUL !in f) && NUL !in part
    ensures Split(Lossy(Print(records) + (Terminated(begun, NUL) + part)), NUL)
            == LossyFields(Concat(records)) + LossyFields(begun + [part])
  {
    var fields := Concat(records) + begun;
    FieldsHoldNoNul(records);
    forall f | f in fields ensures NUL !in f { assert f in Concat(records) || f in begun; }
    TerminatedAppend(Concat(records), begun, NUL);
    Assoc(Print(records), Terminated(begun, NUL), part);
    FieldsOf(fields, part);
    LossyFieldsAppend(Concat(records), begun);
    LossyFieldsAppend(begun, [part]);
    assert LossyFields([part]) == [Lossy(part)];
    Assoc(LossyFields(Concat(records)), LossyFields(begun), [Lossy(part)]);
  }

  /**
   A stream of whole records, then part of another: every whole record with a date is read, in
   order, a bad date costing that record alone. A cut record is dropped exactly when its last field
   had not begun; from there on it is read with whatever had arrived of its body.
   */
  lemma LogCutAnywhere(records: seq<seq<seq<byte>>>, next: seq<seq<byte>>, whole: nat, part: seq<byte>)
    requires (forall r <- records :: IsRecord(r)) && IsRecord(next)
    requires whole < FIELDS && part <= next[whole]
    ensures Parsed(Print(records) + (Terminated(next[..whole], NUL) + part))
            == Dated(records) + (if whole == 5 then One(LossyFields(next[..5] + [part])) else [])
  {
    assert next[whole] in next;
    assert forall b | b in part :: b in next[whole];
    assert forall f | f in next[..whole] :: f in next;
    PiecesOfCut(records, next[..whole], part);
    var tail := LossyFields(next[..whole] + [part]);
    EntriesOf(records, tail);
    if whole == 5 {
      EntriesCons(tail, []);
      assert tail + [] == tail;
      assert One(tail) + [] == One(tail);
    }
  }

  /** What version control prints is read back, one entry for each record with a date. */
  lemma LogRoundTrip(records: seq<seq<seq<byte>>>)
    requires forall r <- records :: IsRecord(r)
    ensures Parsed(Print(records)) == Dated(records)
  {
    var empty: seq<seq<byte>> := [[], [], [], [], [], []];
    LogCutAnywhere(records, empty, 0, []);
    assert empty[..0] == [];
    assert Print(records) + (Terminated([], NUL) + []) == Print(records);
    assert Dated(records) + [] == Dated(records);
  }

  // ---------------------------------------------------------------- commits

  datatype Commit = Commit(
    id: seq<byte>,
    author: seq<byte>,
    at: int,
    parents: seq<seq<byte>>,
    subject: seq<byte>,
    body: seq<byte>)

  predicate IsHex(b: byte) {
    48 <= b <= 57 || 97 <= b <= 102
  }

  predicate IsName(s: seq<byte>) {
    s != [] && forall b <- s :: IsHex(b)
  }

  /** The parents' names with a space between them. */
  function Parents(names: seq<seq<byte>>): seq<byte> {
    if names == [] then []
    else if |names| == 1 then names[0]
    else names[0] + [SPACE] + Parents(names[1..])
  }

  predicate IsCommit(c: Commit) {
    && NUL !in c.id && NUL !in c.author && NUL !in c.subject && NUL !in c.body
    && -I64_MAX - 1 <= c.at <= I64_MAX
    && forall p <- c.parents :: IsName(p)
  }

  function RecordOf(c: Commit): seq<seq<byte>> {
    [c.id, c.author, Signed(c.at), Parents(c.parents), c.subject, c.body]
  }

  /** The entry a commit is read as: what a person wrote, as text. */
  function EntryOf(c: Commit): CommitEntry {
    CommitEntry(Lossy(c.id), Lossy(c.subject), Fitting(TrimEnd(Lossy(c.body))), Lossy(c.author), c.at,
                |c.parents| > 1)
  }

  lemma {:induction false} WordsOfName(name: seq<byte>, rest: seq<byte>, inWord: bool)
    requires name != [] && forall b <- name :: IsHex(b)
    ensures Words(name + rest, inWord) == (if inWord then 0 else 1) + Words(rest, true)
  {
    var s := name + rest;
    assert s[0] == name[0] && IsHex(s[0]) by { assert name[0] in name; }
    assert SpaceAtStart(s) == 0;
    assert ScanChar(s) == Scan(true, 1);
    assert s[1..] == name[1..] + rest;
    if |name| > 1 {
      WordsOfName(name[1..], rest, true);
    } else {
      assert s[1..] == rest;
    }
  }

  /** Counting words counts parents. */
  lemma {:induction false} WordsOfParents(names: seq<seq<byte>>)
    requires forall p <- names :: IsName(p)
    ensures Words(Parents(names), false) == |names|
  {
    if names != [] {
      assert IsName(names[0]);
      if |names| == 1 {
        WordsOfName(names[0], [], false);
        assert names[0] + [] == names[0];
      } else {
        var rest := Parents(names[1..]);
        WordsOfParents(names[1..]);
        Assoc(names[0], [SPACE], rest);
        WordsOfName(names[0], [SPACE] + rest, false);
        var s := [SPACE] + rest;
        assert s[..1] == [SPACE] && IsSpaceChar([SPACE]);
        assert SpaceAtStart(s) == 1;
        assert s[1..] == rest;
      }
    }
  }

  lemma {:induction false} ParentsAreAscii(names: seq<seq<byte>>)
    requires forall p <- names :: IsName(p)
    ensures forall b <- Parents(names) :: IsAscii(b) && b != NUL
  {
    if names != [] {
      assert IsName(names[0]);
      if |names| > 1 {
        ParentsAreAscii(names[1..]);
      }
    }
  }

  lemma SignedIsAscii(n: int)
    ensures forall b <- Signed(n) :: IsAscii(b) && b != NUL
  {
    forall b | b in Signed(n) ensures IsAscii(b) && b != NUL {
      assert b == MINUS || (n < 0 && b in Digits(-n)) || (n >= 0 && b in Digits(n));
    }
  }

  /** The two fields that are not free text are kept as they are. */
  lemma KeptFields(c: Commit)
    requires IsCommit(c)
    ensures Lossy(Signed(c.at)) == Signed(c.at) && Lossy(Parents(c.parents)) == Parents(c.parents)
    ensures NUL !in Signed(c.at) && NUL !in Parents(c.parents)
  {
    SignedIsAscii(c.at);
    ParentsAreAscii(c.parents);
    AsciiIsValid(Signed(c.at));
    AsciiIsValid(Parents(c.parents));
    ValidIsKept(Signed(c.at));
    ValidIsKept(Parents(c.parents));
  }

  lemma CommitIsRead(c: Commit)
    requires IsCommit(c)
    ensures IsRecord(RecordOf(c))
    ensures One(LossyFields(RecordOf(c))) == [EntryOf(c)]
  {
    KeptFields(c);
    RecordHoldsNoNul(c.id, c.author, Signed(c.at), Parents(c.parents), c.subject, c.body);
    var at, parents := Signed(c.at), Parents(c.parents);
    LossySix(c.id, c.author, at, parents, c.subject, c.body);
    FieldsAreRead([Lossy(c.id), Lossy(c.author), at, parents, Lossy(c.subject), Lossy(c.body)], c.at, c.parents);
  }

  lemma RecordHoldsNoNul(
      a: seq<byte>, b: seq<byte>, c: seq<byte>, d: seq<byte>, e: seq<byte>, f: seq<byte>)
    requires NUL !in a && NUL !in b && NUL !in c && NUL !in d && NUL !in e && NUL !in f
    ensures IsRecord([a, b, c, d, e, f])
  {
  }

  lemma LossySix(a: seq<byte>, b: seq<byte>, c: seq<byte>, d: seq<byte>, e: seq<byte>, f: seq<byte>)
    ensures LossyFields([a, b, c, d, e, f]) == [Lossy(a), Lossy(b), Lossy(c), Lossy(d), Lossy(e), Lossy(f)]
  {
  }

  lemma FieldsAreRead(fields: seq<seq<byte>>, at: int, parents: seq<seq<byte>>)
    requires |fields| == FIELDS && fields[2] == Signed(at) && fields[3] == Parents(parents)
    requires -I64_MAX - 1 <= at <= I64_MAX && forall p <- parents :: IsName(p)
    ensures One(fields)
            == [CommitEntry(fields[0], fields[4], Fitting(TrimEnd(fields[5])), fields[1], at, |parents| > 1)]
  {
    SignedRoundTrip(at);
    WordsOfParents(parents);
  }

  function RecordsOf(commits: seq<Commit>): seq<seq<seq<byte>>> {
    if commits == [] then [] else [RecordOf(commits[0])] + RecordsOf(commits[1..])
  }

  function EntriesOfCommits(commits: seq<Commit>): seq<CommitEntry> {
    if commits == [] then [] else [EntryOf(commits[0])] + EntriesOfCommits(commits[1..])
  }

  lemma DatedCons(record: seq<seq<byte>>, rest: seq<seq<seq<byte>>>)
    requires IsRecord(record) && forall r <- rest :: IsRecord(r)
    ensures forall r <- [record] + rest :: IsRecord(r)
    ensures Dated([record] + rest) == One(LossyFields(record)) + Dated(rest)
  {
    assert ([record] + rest)[1..] == rest;
  }

  lemma {:induction false} CommitsAreDated(commits: seq<Commit>)
    requires forall c <- commits :: IsCommit(c)
    ensures forall r <- RecordsOf(commits) :: IsRecord(r)
    ensures Dated(RecordsOf(commits)) == EntriesOfCommits(commits)
  {
    if commits != [] {
      CommitsAreDated(commits[1..]);
      CommitIsRead(commits[0]);
      DatedCons(RecordOf(commits[0]), RecordsOf(commits[1..]));
    }
  }

  /**
   Any history reads back commit for commit, in order, what was written in it as text: a merge exactly
   when it has more than one parent, its body without the white space it ended in, or none when that
   is past the ceiling.
   */
  lemma HistoryRoundTrip(commits: seq<Commit>)
    requires forall c <- commits :: IsCommit(c)
    ensures Parsed(Print(RecordsOf(commits))) == EntriesOfCommits(commits)
  {
    CommitsAreDated(commits);
    LogRoundTrip(RecordsOf(commits));
  }

  lemma {:induction false} EntriesAt(commits: seq<Commit>, i: nat)
    requires i < |commits|
    ensures |EntriesOfCommits(commits)| == |commits| && EntriesOfCommits(commits)[i] == EntryOf(commits[i])
  {
    if i == 0 {
      if |commits| > 1 {
        EntriesAt(commits[1..], 0);
      }
    } else {
      EntriesAt(commits[1..], i - 1);
    }
  }

  /**
   A message's body reads back without the white space after it, and with any before it: the text
   itself where it is no longer than 8 KiB, and nothing of it where it is.
   */
  lemma BodyReadsBack(commits: seq<Commit>, i: nat, text: seq<byte>, tail: seq<seq<byte>>)
    requires (forall c <- commits :: IsCommit(c)) && i < |commits|
    requires Valid(text) && !EndsWithSpace(text) && AllSpaces(tail) && commits[i].body == text + Concat(tail)
    ensures var entries := Parsed(Print(RecordsOf(commits)));
            |entries| == |commits| && entries[i].body == if |text| <= 8192 then text else []
  {
    HistoryRoundTrip(commits);
    EntriesAt(commits, i);
    SpacesAreText(tail);
    ValidAppend(text, Concat(tail));
    ValidIsKept(commits[i].body);
    TrimEndDrops(text, tail);
    NoSpaceAtEnd(text);
  }
}
