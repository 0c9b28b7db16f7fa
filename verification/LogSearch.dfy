/** Finding a record by its number: a binary search over a line file's bytes. */
module LogSearch {
  import opened Wrappers
  import opened Records
  import opened LogLines
  import opened BackwardLines
  import opened Paging

  /** What reading up to and including the next newline reaches: where it stops,
    * and whether the newline was there. */
  function ReadUntil(f: seq<Byte>, at: nat): (nat, bool) {
    if at >= |f| then (at, false)
    else
      var e := LineEnd(f, at);
      if e < |f| then (e + 1, true) else (|f|, false)
  }

  datatype Found = Found(line: Line, next: nat)

  /** From a byte anywhere in the file, forward to a line: the nearest that begins
    * no earlier than `pos`, is whole and is not blank, paired with the start after it. */
  method LineFrom(f: seq<Byte>, pos: nat, end: nat) returns (r: Option<Found>)
    ensures r.None? ==> forall l :: IsLine(f, end, l) ==> l.at < pos
    ensures r.Some? ==>
              var Found(line, next) := r.value;
              && IsLine(f, end, line) && pos <= line.at < next
              && (forall l :: IsLine(f, end, l) && pos <= l.at ==> line.at <= l.at)
              && (forall l :: IsLine(f, end, l) && line.at < l.at ==> next <= l.at)
  {
    hide LineEnd, LineStart;
    LineStartsFile(f);
    var at := if pos == 0 then 0 else pos - 1;
    if pos > 0 {
      var (stop, newline) := ReadUntil(f, at);
      NextLineStart(f, at);
      if !newline {
        return None;
      }
      at := stop;
    }
    while true
      invariant LineStart(f, at) && pos <= at
      invariant forall l :: IsLine(f, end, l) && pos <= l.at ==> at <= l.at
      decreases |f| - at
    {
      if at >= end {
        return None;
      }
      var (next, newline) := ReadUntil(f, at);
      NextLineStart(f, at);
      if !newline {
        return None;
      }
      var line := f[at..next - 1];
      if !Blank(line) {
        return Some(Found(Line(at, line), next));
      }
      at := next;
    }
  }

  lemma {:induction false} LineStartsFile(f: seq<Byte>)
    ensures LineStart(f, 0)
  {
  }

  /** No line starts within the one being read. */
  lemma {:induction false} NextLineStart(f: seq<Byte>, at: nat)
    ensures var (stop, newline) := ReadUntil(f, at);
            if newline then at < stop && LineStart(f, stop) && stop - 1 == LineEnd(f, at) &&
                            forall l, end: nat :: IsLine(f, end, l) && at < l.at ==> stop <= l.at
            else forall l, end: nat :: IsLine(f, end, l) ==> l.at < at || (at == l.at && LineEnd(f, at) < |f|)
  {
    if at < |f| {
      forall l, end: nat | IsLine(f, end, l) && at < l.at ensures LineEnd(f, at) + 1 <= l.at {
        assert f[l.at - 1] == NEWLINE;
      }
    }
  }

  ghost predicate Numbered(parse: Parser, f: seq<Byte>, end: nat) {
    && (forall l :: IsLine(f, end, l) ==> parse(l.text).Some?)
    && (forall a, b :: IsLine(f, end, a) && IsLine(f, end, b) && a.at < b.at ==>
          parse(a.text).Some? && parse(b.text).Some? && parse(a.text).value.seqNo < parse(b.text).value.seqNo)
  }

  /** `at` is where the first line numbered `seq` or later starts, or `end` when
    * there is none. */
  ghost predicate FirstAtLeast(parse: Parser, f: seq<Byte>, end: nat, seqNo: nat, at: nat) {
    && (at == end || exists l :: IsLine(f, end, l) && l.at == at)
    && forall l :: IsLine(f, end, l) && parse(l.text).Some? ==>
         if l.at < at then parse(l.text).value.seqNo < seqNo else parse(l.text).value.seqNo >= seqNo
  }

  lemma {:induction false} OneLineAtAPlace(f: seq<Byte>, end: nat)
    ensures forall l, m :: IsLine(f, end, l) && IsLine(f, end, m) && l.at == m.at ==> l == m
    ensures forall l :: IsLine(f, end, l) ==> l.at < end
  {
  }

  /** Bisects the bytes below `end` for the least offset whose record is numbered
    * `seqNo` or more, which is `end` when all of them are numbered less. */
  method FirstFrom(parse: Parser, f: seq<Byte>, end: nat, seqNo: nat) returns (r: Result<nat, ReadError>)
    ensures r.Err? ==>
            r.error.CorruptAt? && exists l :: IsLine(f, end, l) && l.at == r.error.offset && parse(l.text).None?
    ensures r.Ok? && Numbered(parse, f, end) ==> FirstAtLeast(parse, f, end, seqNo, r.value)
    ensures r.Ok? ==> r.value == end || exists l :: IsLine(f, end, l) && l.at == r.value
  {
    hide IsLine;
    OneLineAtAPlace(f, end);
    var lo: nat, hi: nat, found: nat := 0, end, end;
    while lo < hi
      invariant hi <= end
      invariant
        found == end ||
        exists l :: IsLine(f, end, l) && l.at == found && parse(l.text).Some? && parse(l.text).value.seqNo >= seqNo
      invariant forall l :: IsLine(f, end, l) && hi <= l.at ==> found <= l.at
      invariant Numbered(parse, f, end) ==>
                  forall l :: IsLine(f, end, l) && l.at < lo ==>
                    parse(l.text).Some? && parse(l.text).value.seqNo < seqNo
    {
      var mid := lo + (hi - lo) / 2;
      var here := LineFrom(f, mid, end);
      if here.Some? && here.value.line.at < hi {
        var record := parse(here.value.line.text);
        if record.None? {
          return Err(CorruptAt(here.value.line.at));
        }
        if record.value.seqNo >= seqNo {
          found := here.value.line.at;
          hi := mid;
        } else {
          lo := here.value.next;
        }
      } else {
        hi := mid;
      }
    }
    return Ok(found);
  }

  /** The record numbered `seqNo`, if the ledger holds it. */
  method FindRecord(parse: Parser, f: seq<Byte>, seqNo: nat, chunk: nat) returns (r: Result<Option<Record>, ReadError>)
    requires chunk > 0
    ensures r.Err? ==> r.error.CorruptAt? && exists l :: l in LinesIn(f, 0, |f|) && parse(l.text).None?
    ensures r.Ok? && r.value.Some? ==>
              r.value.value.seqNo == seqNo && exists l :: l in LinesIn(f, 0, |f|) && parse(l.text) == r.value
    ensures r.Ok? && Numbered(parse, f, |f|) ==>
              (r.value.Some? <==>
                exists l :: l in LinesIn(f, 0, |f|) && parse(l.text).Some? && parse(l.text).value.seqNo == seqNo)
  {
    hide LinesIn, CompleteEnd, LineEnd;
    var end := FindCompleteEnd(f, chunk);
    LinesToEnd(f);
    var offset := FirstFrom(parse, f, end, seqNo);
    if offset.Err? {
      return Err(offset.error);
    }
    var here := LineFrom(f, offset.value, end);
    if here.None? {
      return Ok(None);
    }
    var record := parse(here.value.line.text);
    if record.None? {
      return Err(CorruptAt(here.value.line.at));
    }
    return Ok(if record.value.seqNo == seqNo then record else None);
  }

  lemma {:induction false} LinesToEnd(f: seq<Byte>)
    ensures forall l :: l in LinesIn(f, 0, |f|) <==> IsLine(f, CompleteEnd(f), l)
    ensures forall l :: IsLine(f, |f|, l) <==> IsLine(f, CompleteEnd(f), l)
  {
    AllLinesAreComplete(f, 0);
    forall l ensures l in LinesIn(f, 0, |f|) <==> IsLine(f, CompleteEnd(f), l)
             ensures IsLine(f, |f|, l) <==> IsLine(f, CompleteEnd(f), l)
    {
      MemberIsLine(f, 0, CompleteEnd(f), l);
      MemberIsLine(f, 0, |f|, l);
    }
  }
}
