/** Whole runs of paging: a client follows cursors while the file grows. */
module PagingRuns {
  import opened Wrappers
  import opened Records
  import opened LogLines
  import opened Paging

  /** One page read: the file as it was then, what was asked, and what came back. */
  datatype Turn = Turn(file: seq<Byte>, limit: nat, budget: nat, page: Page)

  ghost predicate PageRead(parse: Parser, filter: Filter, before: Option<Cursor>, t: Turn) {
    && t.limit > 0 && t.budget > 0
    && LineStart(t.file, Boundary(t.file, before))
    && PageOf(parse, LinesIn(t.file, 0, Boundary(t.file, before)), t.limit, filter, t.budget, t.page)
  }

  /** Each page from the cursor the one before it gave, the file only growing
    * between them, until one gives no cursor. */
  ghost predicate Drains(parse: Parser, filter: Filter, before: Option<Cursor>, turns: seq<Turn>)
    decreases |turns|
  {
    && turns != []
    && PageRead(parse, filter, before, turns[0])
    && if turns[0].page.next.None? then |turns| == 1
       else |turns| > 1 && turns[0].file <= turns[1].file && Drains(parse, filter, turns[0].page.next, turns[1..])
  }

  function AllRecords(turns: seq<Turn>): seq<Record> {
    if turns == [] then [] else turns[0].page.records + AllRecords(turns[1..])
  }

  ghost predicate InTimeOrder(parse: Parser, ls: seq<Line>) {
    forall i, j :: 0 <= i < j < |ls| && parse(ls[i].text).Some? && parse(ls[j].text).Some? ==>
      parse(ls[i].text).value.tsUnixMs <= parse(ls[j].text).value.tsUnixMs
  }

  ghost predicate InSeqOrder(parse: Parser, ls: seq<Line>) {
    forall i, j :: 0 <= i < j < |ls| && parse(ls[i].text).Some? && parse(ls[j].text).Some? ==>
      parse(ls[i].text).value.seqNo < parse(ls[j].text).value.seqNo
  }

  lemma {:induction false} AllTooOld(parse: Parser, filter: Filter, ls: seq<Line>)
    requires forall i :: 0 <= i < |ls| && parse(ls[i].text).Some? ==> filter.TooOld(parse(ls[i].text).value)
    ensures Wanted(parse, filter, ls) == []
    decreases |ls|
  {
    if ls != [] {
      AllTooOld(parse, filter, ls[..|ls| - 1]);
    }
  }

  lemma {:induction false} AlwaysReadsOne(parse: Parser, ls: seq<Line>, limit: nat, filter: Filter, budget: nat)
    requires limit > 0 && budget > 0
    ensures ReadsOn(parse, ls, limit, filter, budget, 0)
  {
    assert ls[|ls| - 0..] == [];
  }

  lemma {:induction false} OlderIsTooOld(parse: Parser, filter: Filter, ls: seq<Line>, at: nat)
    requires at < |ls| && TooOldLine(parse, filter, ls[at]) && InTimeOrder(parse, ls)
    ensures Wanted(parse, filter, ls[..at]) == []
  {
    AllTooOld(parse, filter, ls[..at]);
  }

  /** A page leaves only what its cursor still reaches: with none, nothing wanted
    * is older. */
  lemma {:induction false} PageLeaves(parse: Parser, ls: seq<Line>, limit: nat, filter: Filter, budget: nat, page: Page)
    requires limit > 0 && budget > 0
    requires PageOf(parse, ls, limit, filter, budget, page)
    requires filter.since.Some? ==> InTimeOrder(parse, ls)
    ensures page.scanned <= |ls|
    ensures Wanted(parse, filter, ls) == page.records + Wanted(parse, filter, ls[..|ls| - page.scanned])
    ensures page.next.None? ==> Wanted(parse, filter, ls[..|ls| - page.scanned]) == []
  {
    hide Wanted, ReadsOn, AllParse, InTimeOrder;
    var k := page.scanned;
    assert ls == ls[..|ls| - k] + ls[|ls| - k..];
    WantedConcat(parse, filter, ls[..|ls| - k], ls[|ls| - k..]);
    AlwaysReadsOne(parse, ls, limit, filter, budget);
    if page.next.None? {
      if k == |ls| {
        AllTooOld(parse, filter, ls[..|ls| - k]);
      } else {
        OlderIsTooOld(parse, filter, ls, |ls| - k);
      }
    }
  }

  /** A page's cursor is below where the page began, past at least one line. */
  lemma {:induction false} CursorGoesBack(parse: Parser, filter: Filter, before: Option<Cursor>, t: Turn)
    requires PageRead(parse, filter, before, t) && t.page.next.Some?
    ensures t.page.scanned > 0 && t.page.next.value.offset < Boundary(t.file, before)
  {
    hide LinesIn, HasRead;
    var end := Boundary(t.file, before);
    LinesBefore(t.file, end, |LinesIn(t.file, 0, end)| - t.page.scanned);
  }

  /** Pages in turn, each from the cursor the one before it gave; it may be gone on with. */
  ghost predicate Chained(parse: Parser, filter: Filter, before: Option<Cursor>, turns: seq<Turn>)
    decreases |turns|
  {
    turns != [] ==>
      && PageRead(parse, filter, before, turns[0])
      && (|turns| > 1 ==>
            && turns[0].page.next.Some? && turns[0].file <= turns[1].file
            && Chained(parse, filter, turns[0].page.next, turns[1..]))
  }

  /** Following cursors comes to an end: no run has more pages than the first one had
    * lines before it, and one more, however the file grows. */
  lemma {:induction false} PagingEnds(parse: Parser, filter: Filter, before: Option<Cursor>, turns: seq<Turn>)
    requires Chained(parse, filter, before, turns) && turns != []
    ensures |turns| <= |LinesIn(turns[0].file, 0, Boundary(turns[0].file, before))| + 1
    decreases |turns|
  {
    hide LinesIn, PageOf;
    if |turns| > 1 {
      var t, f' := turns[0], turns[1].file;
      CursorGoesBack(parse, filter, before, t);
      assert f' == t.file + f'[|t.file|..];
      CursorStaysGood(parse, filter, before, t, f'[|t.file|..]);
      assert turns[1..][0] == turns[1];
      PagingEnds(parse, filter, t.page.next, turns[1..]);
    }
  }

  /** A cursor a page gave still points into the file, however it has grown, and
    * at the same older lines: the next page never refuses it. */
  lemma {:induction false} CursorStaysGood(
      parse: Parser, filter: Filter, before: Option<Cursor>, t: Turn, more: seq<Byte>)
    requires PageRead(parse, filter, before, t) && t.page.next.Some?
    ensures var c := t.page.next.value;
            var ls := LinesIn(t.file, 0, Boundary(t.file, before));
            var older := LinesIn(t.file + more, 0, c.offset);
            && LineStart(t.file + more, c.offset)
            && t.page.scanned <= |ls|
            && older == ls[..|ls| - t.page.scanned]
            && (older != [] && InSeqOrder(parse, ls) && parse(older[|older| - 1].text).Some? ==>
                  parse(older[|older| - 1].text).value.seqNo < c.seqNo)
  {
    hide LinesIn, HasRead;
    var end := Boundary(t.file, before);
    var ls := LinesIn(t.file, 0, end);
    LinesBefore(t.file, end, |ls| - t.page.scanned);
    LinesGrow(t.file, more, 0, t.page.next.value.offset);
  }

  lemma {:induction false} OlderInTimeOrder(parse: Parser, ls: seq<Line>, n: nat)
    requires n <= |ls|
    ensures InTimeOrder(parse, ls) ==> InTimeOrder(parse, ls[..n])
  {
  }

  /** The lines before where a page began. */
  function LinesUnder(before: Option<Cursor>, t: Turn): seq<Line> { LinesIn(t.file, 0, Boundary(t.file, before)) }

  /** One page of a run, and what the next one starts from. */
  lemma {:induction false} OnePage(parse: Parser, filter: Filter, before: Option<Cursor>, turns: seq<Turn>)
    requires Drains(parse, filter, before, turns)
    requires filter.since.Some? ==> InTimeOrder(parse, LinesUnder(before, turns[0]))
    ensures var t, ls := turns[0], LinesUnder(before, turns[0]);
            if t.page.next.None? then |turns| == 1 && Wanted(parse, filter, ls) == t.page.records
            else
              && |turns| > 1 && Drains(parse, filter, t.page.next, turns[1..])
              && (filter.since.Some? ==> InTimeOrder(parse, LinesUnder(t.page.next, turns[1])))
              && Wanted(parse, filter, ls) == t.page.records + Wanted(parse, filter, LinesUnder(t.page.next, turns[1]))
  {
    hide LinesIn, Wanted, PageOf, InTimeOrder, LineStart;
    var t := turns[0];
    var ls := LinesUnder(before, t);
    PageLeaves(parse, ls, t.limit, filter, t.budget, t.page);
    if t.page.next.Some? {
      var f' := turns[1].file;
      assert f' == t.file + f'[|t.file|..];
      CursorStaysGood(parse, filter, before, t, f'[|t.file|..]);
      OlderInTimeOrder(parse, ls, |ls| - t.page.scanned);
    }
  }

  /** Following cursors yields each wanted record of the first page's snapshot
    * exactly once, newest first, whatever is appended meanwhile. */
  lemma {:induction false} PagingIsReverseAndFilter(
      parse: Parser, filter: Filter, before: Option<Cursor>, turns: seq<Turn>)
    requires Drains(parse, filter, before, turns)
    requires turns != [] && (filter.since.Some? ==> InTimeOrder(parse, LinesUnder(before, turns[0])))
    ensures AllRecords(turns) == Wanted(parse, filter, LinesUnder(before, turns[0]))
    decreases |turns|
  {
    hide Drains, LinesUnder, Wanted, InTimeOrder;
    OnePage(parse, filter, before, turns);
    if turns[0].page.next.None? {
      assert turns[1..] == [];
    } else {
      assert turns[1..][0] == turns[1];
      PagingIsReverseAndFilter(parse, filter, turns[0].page.next, turns[1..]);
    }
  }
}
