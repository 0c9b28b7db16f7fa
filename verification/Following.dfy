/** Following a ledger: one process appends to it while another reads on. */
module Following {
  import opened Wrappers
  import opened Text
  import opened Records
  import opened LogLines
  import opened BackwardLines
  import opened Paging
  import opened LogSearch

  /** A ledger file as processes share it: it only grows. */
  class LogFile {
    var data: seq<Byte>

    constructor ()
      ensures data == []
    {
      data := [];
    }

    method Append(bytes: seq<Byte>)
      modifies this
      ensures data == old(data) + bytes
    {
      data := data + bytes;
    }
  }

  /** What is read: each record with its line as written. */
  datatype Entry = Entry(record: Record, text: seq<Byte>)

  ghost predicate EntriesOf(parse: Parser, out: seq<Entry>, ls: seq<Line>) {
    && |out| == |ls|
    && forall i :: 0 <= i < |ls| ==> out[i].text == ls[i].text && parse(ls[i].text) == Some(out[i].record)
  }

  /** One successful read from a line's start: exactly the next lines, fewer than
    * asked only where no line is complete. */
  ghost predicate Reads(f: seq<Byte>, from: nat, max: nat, taken: seq<Line>, to: nat) {
    && from <= to && LineStart(f, to)
    && taken == LinesIn(f, from, to)
    && |taken| <= max
    && (|taken| < max ==> forall i :: to <= i < |f| ==> f[i] != NEWLINE)
  }

  /** A read that fails: it has passed the lines up to the first that is no record, and gives none. */
  ghost predicate Fails(parse: Parser, f: seq<Byte>, from: nat, max: nat, taken: seq<Line>, to: nat) {
    && from <= to && LineStart(f, to)
    && taken == LinesIn(f, from, to)
    && 0 < |taken| <= max
    && parse(taken[|taken| - 1].text).None?
    && forall i :: 0 <= i < |taken| - 1 ==> parse(taken[i].text).Some?
  }

  /** Among the lines to come, one of the next `max` is no record. */
  ghost predicate BadWithin(parse: Parser, f: seq<Byte>, from: nat, max: nat) {
    from <= |f| && exists k :: 0 <= k < max && k < |LinesIn(f, from, |f|)| && parse(LinesIn(f, from, |f|)[k].text).None?
  }

  class Follow {
    const file: LogFile
    const parse: Parser
    /** How far it has read: a line's start. */
    var offset: nat

    /** From the ledger's first record on. */
    constructor Start(file: LogFile, parse: Parser)
      ensures this.file == file && this.parse == parse && offset == 0
    {
      this.file, this.parse, this.offset := file, parse, 0;
    }

    constructor From(file: LogFile, parse: Parser, offset: nat)
      ensures this.file == file && this.parse == parse && this.offset == offset
    {
      this.file, this.parse, this.offset := file, parse, offset;
    }

    /** Begins past the record with the number given; with no number, or the last
      * one a `u64` has, past everything complete. */
    static method After(file: LogFile, parse: Parser, seqNo: Option<nat>, chunk: nat)
      returns (r: Result<Follow, ReadError>)
      requires chunk > 0
      ensures r.Ok? ==> fresh(r.value) && r.value.file == file && r.value.parse == parse
      ensures r.Ok? ==> LineStart(file.data, r.value.offset)
      ensures r.Ok? && seqNo.GetOr(MAX_U64) >= MAX_U64 ==> r.value.offset == CompleteEnd(file.data)
      ensures r.Ok? && seqNo.GetOr(MAX_U64) < MAX_U64 && Numbered(parse, file.data, CompleteEnd(file.data)) ==>
                FirstAtLeast(parse, file.data, CompleteEnd(file.data), seqNo.value + 1, r.value.offset)
      ensures r.Err? ==> r.error.CorruptAt? && exists l ::
                IsLine(file.data, CompleteEnd(file.data), l) && l.at == r.error.offset && parse(l.text).None?
    {
      var end := FindCompleteEnd(file.data, chunk);
      var offset := end;
      if seqNo.Some? && seqNo.value < MAX_U64 {
        var first := FirstFrom(parse, file.data, end, seqNo.value + 1);
        if first.Err? {
          return Err(first.error);
        }
        offset := first.value;
      }
      var f := new Follow.From(file, parse, offset);
      return Ok(f);
    }

    /** One read. From a line's start it takes exactly the next lines, and stops
      * before `max` of them only where no line is complete. It fails exactly when one
      * of the next `max` is no record, and has then passed that line for good. */
    method Read(max: nat) returns (r: Result<seq<Entry>, ReadError>)
      modifies this`offset
      ensures old(offset) <= offset
      ensures |file.data| < old(offset) ==> r == Err(Shrunk(|file.data|, old(offset))) && offset == old(offset)
      ensures LineStart(file.data, old(offset)) ==>
                && LineStart(file.data, offset)
                && !(r.Err? && r.error.Shrunk?)
                && (r.Err? <==> BadWithin(parse, file.data, old(offset), max))
                && var taken := LinesIn(file.data, old(offset), offset);
                   match r
                   case Ok(out) =>
                     && EntriesOf(parse, out, taken)
                     && Reads(file.data, old(offset), max, taken, offset)
                   case Err(e) =>
                     && Fails(parse, file.data, old(offset), max, taken, offset)
                     && e == CorruptAt(taken[|taken| - 1].at)
    {
      hide LinesIn, LineEnd, BadWithin;
      var f := file.data;
      if |f| < offset {
        return Err(Shrunk(|f|, offset));
      }
      var from := offset;
      var out: seq<Entry> := [];
      NoLines(f, from);
      while |out| < max
        invariant from <= offset <= |f| && |out| <= max
        invariant LineStart(f, from) ==> LineStart(f, offset) && EntriesOf(parse, out, LinesIn(f, from, offset))
        decreases |f| - offset
      {
        var (stop, newline) := ReadUntil(f, offset);
        NextLineStart(f, offset);
        ReadUntilStays(f, offset);
        if !newline {
          break;
        }
        var at := offset;
        offset := stop;
        var line := f[at..stop - 1];
        if LineStart(f, from) { OneLine(f, from, at, stop); }
        if Blank(line) {
          continue;
        }
        var record := parse(line);
        if record.None? {
          if LineStart(f, from) { FailedOnBad(parse, f, from, max, LinesIn(f, from, offset), offset); }
          return Err(CorruptAt(at));
        }
        out := out + [Entry(record.value, line)];
      }
      if LineStart(f, from) { ReadNoBad(parse, f, from, max, out, LinesIn(f, from, offset), offset); }
      return Ok(out);
    }
  }

  lemma {:induction false} NoLines(f: seq<Byte>, at: nat)
    requires at <= |f|
    ensures LinesIn(f, at, at) == []
  {
  }

  lemma {:induction false} ReadUntilStays(f: seq<Byte>, at: nat)
    requires at <= |f|
    ensures ReadUntil(f, at).0 <= |f|
    ensures !ReadUntil(f, at).1 ==> forall i :: at <= i < |f| ==> f[i] != NEWLINE
  {
  }

  /** The line just read follows those read before it. */
  lemma {:induction false} OneLine(f: seq<Byte>, from: nat, at: nat, stop: nat)
    requires from <= at < stop && LineStart(f, at) && LineStart(f, stop) && LineEnd(f, at) == stop - 1
    ensures LinesIn(f, from, stop) ==
            LinesIn(f, from, at) + (if Blank(f[at..stop - 1]) then [] else [Line(at, f[at..stop - 1])])
  {
    SplitAt(f, from, at, stop);
    NoLines(f, stop);
  }

  lemma {:induction false} FailedOnBad(parse: Parser, f: seq<Byte>, from: nat, max: nat, taken: seq<Line>, to: nat)
    requires LineStart(f, from) && Fails(parse, f, from, max, taken, to)
    ensures BadWithin(parse, f, from, max)
  {
    hide LinesIn;
    SplitAt(f, from, to, |f|);
    var k := |taken| - 1;
    assert LinesIn(f, from, |f|)[k] == taken[k];
  }

  lemma {:induction false} ReadNoBad(
      parse: Parser, f: seq<Byte>, from: nat, max: nat, out: seq<Entry>, taken: seq<Line>, to: nat)
    requires LineStart(f, from) && Reads(f, from, max, taken, to) && EntriesOf(parse, out, taken)
    ensures !BadWithin(parse, f, from, max)
  {
    hide LinesIn;
    if |taken| < max { ShortReadIsAll(f, from, max, taken, to); }
    SplitAt(f, from, to, |f|);
    var ls := LinesIn(f, from, |f|);
    forall k | 0 <= k < max && k < |ls| ensures parse(ls[k].text).Some? {
      assert k < |taken| && ls[k] == taken[k];
      assert parse(taken[k].text) == Some(out[k].record);
    }
  }

  // ----- Whole runs: appends and reads, in any order

  datatype Event =
    | Grew(more: seq<Byte>)
    | WasRead(max: nat, taken: seq<Line>, to: nat)
    | ReadFailed(max: nat, taken: seq<Line>, to: nat)

  /** The file after the appends among `events`. */
  function Grown(f: seq<Byte>, events: seq<Event>): seq<Byte>
    decreases |events|
  {
    if events == [] then f
    else Grown(if events[0].Grew? then f + events[0].more else f, events[1..])
  }

  /** A run of appends and reads, those that fail among them. */
  ghost predicate Run(parse: Parser, f: seq<Byte>, from: nat, events: seq<Event>)
    decreases |events|
  {
    events != [] ==>
      match events[0]
      case Grew(more) => Run(parse, f + more, from, events[1..])
      case WasRead(max, taken, to) => Reads(f, from, max, taken, to) && Run(parse, f, to, events[1..])
      case ReadFailed(max, taken, to) => Fails(parse, f, from, max, taken, to) && Run(parse, f, to, events[1..])
  }

  function Offset(from: nat, events: seq<Event>): nat
    decreases |events|
  {
    if events == [] then from
    else Offset(if events[0].Grew? then from else events[0].to, events[1..])
  }

  /** The lines whose records were given. */
  function AllTaken(events: seq<Event>): seq<Line> {
    if events == [] then []
    else (if events[0].WasRead? then events[0].taken else []) + AllTaken(events[1..])
  }

  /** The lines passed, given or not. */
  function AllPassed(events: seq<Event>): seq<Line> {
    if events == [] then []
    else (if events[0].Grew? then [] else events[0].taken) + AllPassed(events[1..])
  }

  predicate NoneFailed(events: seq<Event>) {
    forall i :: 0 <= i < |events| ==> !events[i].ReadFailed?
  }

  /** Whatever fails, the lines passed are exactly those from where following began
    * to where it stands, in the file as it is now. */
  lemma {:induction false} PassedIsExact(parse: Parser, f: seq<Byte>, from: nat, events: seq<Event>)
    requires LineStart(f, from) && Run(parse, f, from, events)
    ensures from <= Offset(from, events) && LineStart(Grown(f, events), Offset(from, events))
    ensures AllPassed(events) == LinesIn(Grown(f, events), from, Offset(from, events))
    decreases |events|
  {
    hide LinesIn;
    if events == [] {
      NoLines(f, from);
    } else if events[0].Grew? {
      LinesGrow(f, events[0].more, from, from);
      PassedIsExact(parse, f + events[0].more, from, events[1..]);
    } else {
      var to := events[0].to;
      PassedIsExact(parse, f, to, events[1..]);
      GrownExtends(f, events[1..]);
      var g := Grown(f, events[1..]);
      LinesGrow(f, g[|f|..], from, to);
      assert f + g[|f|..] == g;
      SplitAt(g, from, to, Offset(to, events[1..]));
    }
  }

  /** A failed read is the one way to lose a line. */
  lemma {:induction false} LostByFailing(parse: Parser, f: seq<Byte>, from: nat, events: seq<Event>)
    requires Run(parse, f, from, events)
    ensures |AllTaken(events)| <= |AllPassed(events)|
    ensures |AllTaken(events)| == |AllPassed(events)| <==> NoneFailed(events)
    ensures NoneFailed(events) ==> AllTaken(events) == AllPassed(events)
    decreases |events|
  {
    hide LinesIn;
    if events != [] {
      LostByFailing(
        parse, if events[0].Grew? then f + events[0].more else f,
        if events[0].Grew? then from else events[0].to, events[1..]);
      assert NoneFailed(events) <==> !events[0].ReadFailed? && NoneFailed(events[1..]) by {
        if NoneFailed(events) {
          forall i | 0 <= i < |events[1..]| ensures !events[1..][i].ReadFailed? { assert !events[i + 1].ReadFailed?; }
        }
      }
    }
  }

  /** Over any interleaving of appends and reads, what was given is exactly the lines
    * from where following began to where it stands, none skipped and none twice, if
    * and only if no read failed. */
  lemma {:induction false} FollowingIsExact(parse: Parser, f: seq<Byte>, from: nat, events: seq<Event>)
    requires LineStart(f, from) && Run(parse, f, from, events)
    ensures from <= Offset(from, events) && LineStart(Grown(f, events), Offset(from, events))
    ensures AllTaken(events) == LinesIn(Grown(f, events), from, Offset(from, events)) <==> NoneFailed(events)
  {
    hide LinesIn, AllTaken, AllPassed, NoneFailed, Run;
    PassedIsExact(parse, f, from, events);
    LostByFailing(parse, f, from, events);
  }

  const GOOD: seq<Byte> := [123]
  const BAD: seq<Byte> := [120]

  /** A good line, then a bad one: the read fails, and the good one's record is never
    * given, however often the ledger is read again. */
  lemma {:induction false} GoodLineIsLost(rec: Record, max: nat)
    requires max >= 2
    ensures var parse := (text: seq<Byte>) => if text == GOOD then Some(rec) else None;
            var f := GOOD + [NEWLINE] + BAD + [NEWLINE];
            var events := [ReadFailed(max, [Line(0, GOOD), Line(2, BAD)], 4)];
            && BadWithin(parse, f, 0, max)
            && Run(parse, f, 0, events) && Offset(0, events) == |f|
            && Line(0, GOOD) in LinesIn(f, 0, |f|) && AllTaken(events) == []
  {
    var parse := (text: seq<Byte>) => if text == GOOD then Some(rec) else None;
    var f := GOOD + [NEWLINE] + BAD + [NEWLINE];
    var taken := [Line(0, GOOD), Line(2, BAD)];
    TwoLines(f);
    assert Fails(parse, f, 0, max, taken, 4);
    FailedOnBad(parse, f, 0, max, taken, 4);
    hide LinesIn;
    var events := [ReadFailed(max, taken, 4)];
    assert events[1..] == [];
    assert Run(parse, f, 4, []);
  }

  lemma {:induction false} TwoLines(f: seq<Byte>)
    requires f == GOOD + [NEWLINE] + BAD + [NEWLINE]
    ensures LineStart(f, 4) && LinesIn(f, 0, 4) == [Line(0, GOOD), Line(2, BAD)]
  {
    assert |f| == 4 && f[0] == 123 && f[1] == NEWLINE && f[2] == 120 && f[3] == NEWLINE;
    assert f[0..1] == GOOD && f[2..3] == BAD;
    NoLines(f, 0);
    OneLine(f, 0, 0, 2);
    OneLine(f, 0, 2, 4);
  }

  lemma {:induction false} GrownExtends(f: seq<Byte>, events: seq<Event>)
    ensures f <= Grown(f, events)
    decreases |events|
  {
    if events != [] {
      GrownExtends(if events[0].Grew? then f + events[0].more else f, events[1..]);
    }
  }

  /** And a read that came back short has left nothing complete behind. */
  lemma {:induction false} ShortReadIsAll(f: seq<Byte>, from: nat, max: nat, taken: seq<Line>, to: nat)
    requires LineStart(f, from) && Reads(f, from, max, taken, to) && |taken| < max
    ensures taken == LinesIn(f, from, |f|)
  {
    SplitAt(f, from, to, |f|);
    NothingAfter(f, to, |f|);
  }
}
