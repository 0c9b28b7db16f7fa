/** Pages: the ledger read from its newest record back, a few records at a time. */
module Paging {
  import opened Wrappers
  import opened Text
  import opened Records
  import opened LogLines
  import opened BackwardLines

  /** What a line holds, if it is a record. */
  type Parser = seq<Byte> -> Option<Record>

  datatype ReadError = CorruptAt(offset: nat) | BadCursor | Shrunk(len: nat, read: nat)

  /** A place to go on from: a record's number, and its line's offset. */
  datatype Cursor = Cursor(seqNo: nat, offset: nat)

  /** A cursor as its text: `<seq>.<offset>`. */
  function ShowCursor(c: Cursor): string { Decimal(c.seqNo) + ['.'] + Decimal(c.offset) }

  /** The cursor a text is; `None` for anything else. */
  function ParseCursor(text: string): Option<Cursor> {
    match SplitOnce(text, '.')
    case None => None
    case Some((seqNo, offset)) =>
      match (ParseU64(seqNo), ParseU64(offset))
      case (Some(s), Some(o)) => Some(Cursor(s, o))
      case _ => None
  }

  /** A cursor handed back is the cursor given. */
  lemma {:induction false} CursorRoundTrip(c: Cursor)
    requires c.seqNo <= MAX_U64 && c.offset <= MAX_U64
    ensures ParseCursor(ShowCursor(c)) == Some(c)
  {
    hide Decimal, ParseDecimal;
    ParseOfDecimal(c.seqNo);
    ParseOfDecimal(c.offset);
    var text := ShowCursor(c);
    var i := IndexOf(text, '.');
    assert text[|Decimal(c.seqNo)|] == '.';
    assert forall k :: 0 <= k < |Decimal(c.seqNo)| ==> IsDigit(text[k]);
    assert i == |Decimal(c.seqNo)|;
    assert text[..i] == Decimal(c.seqNo) && text[i + 1..] == Decimal(c.offset);
  }

  datatype Page = Page(records: seq<Record>, next: Option<Cursor>, scanned: nat)

  /** The plain view: the records of `ls` that `filter` wants, newest first. */
  function Wanted(parse: Parser, filter: Filter, ls: seq<Line>): seq<Record> {
    if ls == [] then []
    else
      (match parse(ls[|ls| - 1].text)
       case Some(r) => if filter.Matches(r) then [r] else []
       case None => []) + Wanted(parse, filter, ls[..|ls| - 1])
  }

  ghost predicate AllParse(parse: Parser, ls: seq<Line>) {
    forall i :: 0 <= i < |ls| ==> parse(ls[i].text).Some?
  }

  ghost predicate TooOldLine(parse: Parser, filter: Filter, l: Line) {
    parse(l.text).Some? && filter.TooOld(parse(l.text).value)
  }

  /** Whether a page that has read `n` of the newest lines reads one more. */
  ghost predicate ReadsOn(parse: Parser, ls: seq<Line>, limit: nat, filter: Filter, budget: nat, n: nat)
    requires n <= |ls|
  {
    && |Wanted(parse, filter, ls[|ls| - n..])| < limit
    && n < budget
    && (n > 0 ==> !TooOldLine(parse, filter, ls[|ls| - n]))
  }

  /** The `k` newest of the lines `ls` have been read, each because the page did
    * not have enough before it, and `records` are those the filter wants. */
  ghost predicate HasRead(
      parse: Parser, ls: seq<Line>, limit: nat, filter: Filter, budget: nat, records: seq<Record>, k: nat)
  {
    && k <= |ls|
    && AllParse(parse, ls[|ls| - k..])
    && records == Wanted(parse, filter, ls[|ls| - k..])
    && (forall n :: 0 <= n < k ==> ReadsOn(parse, ls, limit, filter, budget, n))
  }

  /** The cursor of the oldest of the `k` newest lines. */
  ghost predicate CursorAt(parse: Parser, ls: seq<Line>, k: nat, c: Cursor) {
    && 0 < k <= |ls|
    && parse(ls[|ls| - k].text).Some?
    && c == Cursor(parse(ls[|ls| - k].text).value.seqNo, ls[|ls| - k].at)
  }

  /** A page of the lines `ls`, read back from their end: it reads on until it has
    * enough, and gives a cursor unless no older line can be wanted. */
  ghost predicate PageOf(parse: Parser, ls: seq<Line>, limit: nat, filter: Filter, budget: nat, page: Page) {
    var k := page.scanned;
    && HasRead(parse, ls, limit, filter, budget, page.records, k)
    && (k < |ls| ==> !ReadsOn(parse, ls, limit, filter, budget, k))
    && (page.next.None? ==> k == |ls| || k == 0 || TooOldLine(parse, filter, ls[|ls| - k]))
    && (page.next.Some? ==>
          CursorAt(parse, ls, k, page.next.value) && !TooOldLine(parse, filter, ls[|ls| - k]))
  }

  lemma {:induction false} ReadNone(parse: Parser, ls: seq<Line>, limit: nat, filter: Filter, budget: nat)
    ensures HasRead(parse, ls, limit, filter, budget, [], 0)
  {
    assert ls[|ls| - 0..] == [];
  }

  lemma {:induction false} ReadOneMore(
      parse: Parser, ls: seq<Line>, limit: nat, filter: Filter, budget: nat, records: seq<Record>, k: nat)
    requires HasRead(parse, ls, limit, filter, budget, records, k) && k < |ls|
    requires |records| < limit && k < budget && (k > 0 ==> !TooOldLine(parse, filter, ls[|ls| - k]))
    requires parse(ls[|ls| - k - 1].text).Some?
    ensures var record := parse(ls[|ls| - k - 1].text).value;
            HasRead(parse, ls, limit, filter, budget,
                    if filter.Matches(record) then records + [record] else records, k + 1)
  {
    hide Wanted, ReadsOn, TooOldLine;
    assert ReadsOn(parse, ls, limit, filter, budget, k) by { StillReads(parse, ls, limit, filter, budget, records, k); }
    var at := |ls| - k - 1;
    assert ls[at..] == [ls[at]] + ls[at + 1..];
    WantedOlder(parse, filter, ls[at], ls[at + 1..]);
    WantedOne(parse, filter, ls[at]);
  }

  lemma {:induction false} StillReads(
      parse: Parser, ls: seq<Line>, limit: nat, filter: Filter, budget: nat, records: seq<Record>, k: nat)
    requires HasRead(parse, ls, limit, filter, budget, records, k)
    ensures ReadsOn(parse, ls, limit, filter, budget, k) <==>
            |records| < limit && k < budget && (k > 0 ==> !TooOldLine(parse, filter, ls[|ls| - k]))
  {
    hide Wanted, TooOldLine;
  }

  lemma {:induction false} WantedOlder(parse: Parser, filter: Filter, l: Line, ls: seq<Line>)
    ensures Wanted(parse, filter, [l] + ls) ==
            Wanted(parse, filter, ls) + Wanted(parse, filter, [l])
    decreases |ls|
  {
    if ls == [] {
      assert [l] + ls == [l];
    } else {
      var all := [l] + ls;
      assert all[..|all| - 1] == [l] + ls[..|ls| - 1];
      WantedOlder(parse, filter, l, ls[..|ls| - 1]);
    }
  }

  lemma {:induction false} WantedConcat(parse: Parser, filter: Filter, a: seq<Line>, b: seq<Line>)
    ensures Wanted(parse, filter, a + b) == Wanted(parse, filter, b) + Wanted(parse, filter, a)
    decreases |b|
  {
    if b == [] {
      assert a + b == a;
    } else {
      assert (a + b)[..|a + b| - 1] == a + b[..|b| - 1];
      WantedConcat(parse, filter, a, b[..|b| - 1]);
    }
  }

  lemma {:induction false} WantedOne(parse: Parser, filter: Filter, l: Line)
    ensures Wanted(parse, filter, [l]) ==
            if parse(l.text).Some? && filter.Matches(parse(l.text).value) then [parse(l.text).value] else []
  {
    assert [l][..0] == [];
  }

  /** Lets an offset by only when it is a line's start. */
  predicate AtLine(f: seq<Byte>, offset: nat)
    ensures AtLine(f, offset) <==> LineStart(f, offset)
  {
    offset == 0 || (offset <= |f| && f[offset - 1] == NEWLINE)
  }

  /** Where a page's reading starts. */
  function Boundary(f: seq<Byte>, before: Option<Cursor>): nat {
    match before
    case None => CompleteEnd(f)
    case Some(c) => c.offset
  }

  /** The cursor is stale: the record before it is not the older one it was given with. */
  ghost predicate Stale(parse: Parser, ls: seq<Line>, before: Option<Cursor>) {
    && before.Some? && ls != []
    && parse(ls[|ls| - 1].text).Some?
    && parse(ls[|ls| - 1].text).value.seqNo >= before.value.seqNo
  }

  /** A page that has read `k` of the newest lines reads on, and the next is no record. */
  ghost predicate CorruptNext(parse: Parser, ls: seq<Line>, limit: nat, filter: Filter, budget: nat, at: nat, k: nat) {
    && k < |ls|
    && HasRead(parse, ls, limit, filter, budget, Wanted(parse, filter, ls[|ls| - k..]), k)
    && ReadsOn(parse, ls, limit, filter, budget, k)
    && ls[|ls| - k - 1].at == at && parse(ls[|ls| - k - 1].text).None?
  }

  ghost predicate CorruptAhead(parse: Parser, ls: seq<Line>, limit: nat, filter: Filter, budget: nat, at: nat) {
    exists k: nat :: CorruptNext(parse, ls, limit, filter, budget, at, k)
  }

  /** Reads one page, below the cursor given or else from the newest line on: at most
    * `limit` records, out of at most `budget` looked at. A cursor is refused exactly
    * when it points at no line's start or is stale, and a corrupt line stops a page
    * exactly when the page gets to it. */
  method ReadPage(
      parse: Parser, file: seq<Byte>, before: Option<Cursor>, limit: nat, filter: Filter, budget: nat, chunk: nat)
    returns (r: Result<Page, ReadError>)
    requires chunk > 0
    ensures r.Ok? ==> PageOf(parse, LinesIn(file, 0, Boundary(file, before)), limit, filter, budget, r.value)
    ensures r == Err(BadCursor) <==>
              && before.Some?
              && (!LineStart(file, before.value.offset) ||
                  (limit > 0 && budget > 0 && Stale(parse, LinesIn(file, 0, before.value.offset), before)))
    ensures r.Err? && r.error != BadCursor <==>
              && r != Err(BadCursor)
              && exists at: nat ::
                CorruptAhead(parse, LinesIn(file, 0, Boundary(file, before)), limit, filter, budget, at)
    ensures r.Err? && r.error != BadCursor ==>
              && r.error.CorruptAt?
              && CorruptAhead(parse, LinesIn(file, 0, Boundary(file, before)), limit, filter, budget, r.error.offset)
  {
    hide LinesIn, CompleteEnd, Wanted, HasRead, AllParse, CursorAt, PageOf, NextIs, LineStart, Stale, CorruptNext,
         CorruptAhead, TooOldLine, Filter.TooOld, Filter.Matches;
    var lines: Backward;
    if before.Some? {
      if !AtLine(file, before.value.offset) {
        return Err(BadCursor);
      }
      lines := new Backward.At(file, before.value.offset, chunk);
    } else {
      lines := new Backward.AtEnd(file, chunk);
    }
    ghost var ls := LinesIn(file, 0, Boundary(file, before));
    var records, next, scanned: nat := [], None, 0;
    ReadNone(parse, ls, limit, filter, budget);
    NextAtFirst(parse, ls);
    assert ls[..|ls| - 0] == ls;
    while |records| < limit && scanned < budget
      invariant lines.Valid() && lines.file == file && fresh(lines)
      invariant HasRead(parse, ls, limit, filter, budget, records, scanned)
      invariant scanned <= |ls| && ls[..|ls| - scanned] == LinesIn(file, 0, lines.end)
      invariant scanned > 0 ==> !TooOldLine(parse, filter, ls[|ls| - scanned])
      invariant NextIs(parse, ls, scanned, next)
      invariant if scanned == 0 then records == [] else !Stale(parse, ls, before)
    {
      var line := lines.Prev();
      if line.None? {
        if scanned == 0 { NothingIsStale(parse, ls, before); }
        NoneOlder(parse, ls, limit, filter, budget, records, scanned);
        PageMeetsNoCorrupt(parse, ls, limit, filter, budget, Page(records, None, scanned));
        return Ok(Page(records, None, scanned));
      }
      LastOf(ls, |ls| - scanned, LinesIn(file, 0, lines.end), line.value);
      var record := parse(line.value.text);
      if scanned == 0 { StaleIs(parse, ls, before, line.value); }
      if record.None? {
        CorruptHere(parse, ls, limit, filter, budget, records, scanned);
        return Err(CorruptAt(line.value.at));
      }
      if scanned == 0 && before.Some? && record.value.seqNo >= before.value.seqNo {
        return Err(BadCursor);
      }
      ReadOneMore(parse, ls, limit, filter, budget, records, scanned);
      scanned := scanned + 1;
      TooOldIs(parse, filter, ls[|ls| - scanned], record.value);
      if filter.TooOld(record.value) {
        TooOldEnds(parse, ls, limit, filter, budget, records, scanned);
        PageMeetsNoCorrupt(parse, ls, limit, filter, budget, Page(records, None, scanned));
        return Ok(Page(records, None, scanned));
      }
      if line.value.at == 0 { NothingAtStart(file); }
      NextFits(parse, ls, scanned, record.value, line.value);
      next := if line.value.at > 0 then Some(Cursor(record.value.seqNo, line.value.at)) else None;
      if filter.Matches(record.value) {
        records := records + [record.value];
      }
    }
    PageIsFull(parse, ls, limit, filter, budget, records, scanned, next);
    PageMeetsNoCorrupt(parse, ls, limit, filter, budget, Page(records, next, scanned));
    return Ok(Page(records, next, scanned));
  }

  lemma {:induction false} NothingIsStale(parse: Parser, ls: seq<Line>, before: Option<Cursor>)
    ensures ls == [] ==> !Stale(parse, ls, before)
  {
  }

  lemma {:induction false} TooOldIs(parse: Parser, filter: Filter, line: Line, record: Record)
    requires parse(line.text) == Some(record)
    ensures TooOldLine(parse, filter, line) <==> filter.TooOld(record)
    ensures filter.TooOld(record) ==> !filter.Matches(record)
  {
  }

  lemma {:induction false} StaleIs(parse: Parser, ls: seq<Line>, before: Option<Cursor>, newest: Line)
    requires ls != [] && ls[|ls| - 1] == newest
    ensures Stale(parse, ls, before) <==>
              before.Some? && parse(newest.text).Some? && parse(newest.text).value.seqNo >= before.value.seqNo
  {
  }

  lemma {:induction false} CorruptHere(
      parse: Parser, ls: seq<Line>, limit: nat, filter: Filter, budget: nat, records: seq<Record>, k: nat)
    requires HasRead(parse, ls, limit, filter, budget, records, k) && k < |ls| && parse(ls[|ls| - k - 1].text).None?
    requires |records| < limit && k < budget && (k > 0 ==> !TooOldLine(parse, filter, ls[|ls| - k]))
    ensures CorruptAhead(parse, ls, limit, filter, budget, ls[|ls| - k - 1].at)
  {
    hide Wanted, TooOldLine, ReadsOn;
    StillReads(parse, ls, limit, filter, budget, records, k);
    assert CorruptNext(parse, ls, limit, filter, budget, ls[|ls| - k - 1].at, k);
  }

  /** A page that was read through met no corrupt line: it never got to one. */
  lemma {:induction false} PageMeetsNoCorrupt(
      parse: Parser, ls: seq<Line>, limit: nat, filter: Filter, budget: nat, page: Page)
    requires PageOf(parse, ls, limit, filter, budget, page)
    ensures forall at: nat :: !CorruptAhead(parse, ls, limit, filter, budget, at)
  {
    hide Wanted, TooOldLine, ReadsOn, CursorAt;
    forall at: nat, k: nat ensures !CorruptNext(parse, ls, limit, filter, budget, at, k) {
      var n := page.scanned;
      if k < n && n <= |ls| {
        assert ls[|ls| - n..][n - k - 1] == ls[|ls| - k - 1];
      }
    }
  }

  lemma {:induction false} LastOf(ls: seq<Line>, n: nat, init: seq<Line>, last: Line)
    requires n <= |ls| && ls[..n] == init + [last]
    ensures n > 0 && ls[n - 1] == last && ls[..n - 1] == init
  {
    assert ls[..n][n - 1] == ls[n - 1];
    assert ls[..n][..n - 1] == ls[..n - 1];
  }

  /** Where the next page goes on from, once `k` lines have been read. */
  ghost predicate NextIs(parse: Parser, ls: seq<Line>, k: nat, next: Option<Cursor>) {
    if next.None? then k == 0 || k == |ls| else CursorAt(parse, ls, k, next.value)
  }

  lemma {:induction false} NextAtFirst(parse: Parser, ls: seq<Line>)
    ensures NextIs(parse, ls, 0, None)
  {
  }

  lemma {:induction false} NextFits(parse: Parser, ls: seq<Line>, k: nat, record: Record, line: Line)
    requires 0 < k <= |ls| && ls[|ls| - k] == line && parse(line.text) == Some(record)
    requires line.at == 0 ==> k == |ls|
    ensures NextIs(parse, ls, k, if line.at > 0 then Some(Cursor(record.seqNo, line.at)) else None)
  {
  }

  lemma {:induction false} NoneOlder(
      parse: Parser, ls: seq<Line>, limit: nat, filter: Filter, budget: nat, records: seq<Record>, k: nat)
    requires HasRead(parse, ls, limit, filter, budget, records, k) && k == |ls|
    ensures PageOf(parse, ls, limit, filter, budget, Page(records, None, k))
  {
    hide HasRead;
  }

  lemma {:induction false} TooOldEnds(
      parse: Parser, ls: seq<Line>, limit: nat, filter: Filter, budget: nat, records: seq<Record>, k: nat)
    requires HasRead(parse, ls, limit, filter, budget, records, k)
    requires 0 < k <= |ls| && TooOldLine(parse, filter, ls[|ls| - k])
    ensures PageOf(parse, ls, limit, filter, budget, Page(records, None, k))
  {
    hide HasRead, TooOldLine;
  }

  lemma {:induction false} PageIsFull(
      parse: Parser, ls: seq<Line>, limit: nat, filter: Filter, budget: nat, records: seq<Record>, k: nat,
      next: Option<Cursor>)
    requires HasRead(parse, ls, limit, filter, budget, records, k) && NextIs(parse, ls, k, next)
    requires (|records| >= limit || k >= budget) && k <= |ls| && (k > 0 ==> !TooOldLine(parse, filter, ls[|ls| - k]))
    ensures PageOf(parse, ls, limit, filter, budget, Page(records, next, k))
  {
    hide HasRead, TooOldLine, ReadsOn;
    StillReads(parse, ls, limit, filter, budget, records, k);
  }
}
