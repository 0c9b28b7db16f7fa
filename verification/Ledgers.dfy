/** The ledger: appending to it, verifying it, and what a seal pins. */
module Ledgers {
  import opened Wrappers
  import opened Text
  import Utf8
  import opened Records
  import opened Preimage
  import opened LogLines
  import opened Paging

  /** SHA-256 in hex: only that it gives hash-like text is ever used of it. */
  type Hasher = string -> string

  function Zeros(n: nat): (s: string)
    ensures |s| == n && forall i :: 0 <= i < n ==> s[i] == '0'
  {
    if n == 0 then "" else ['0'] + Zeros(n - 1)
  }

  /** What a first record's link must be. */
  const GENESIS: string := Zeros(64)

  // ----- The records of a file

  /** The bytes after the last newline. */
  function Tail(f: seq<Byte>): seq<Byte> { f[CompleteEnd(f)..] }

  function TextsOf(ls: seq<Line>): (ts: seq<seq<Byte>>)
    ensures |ts| == |ls| && forall i :: 0 <= i < |ls| ==> ts[i] == ls[i].text
  {
    seq(|ls|, i requires 0 <= i < |ls| => ls[i].text)
  }

  /** What Unicode calls white space: what trimming a text takes off its ends. */
  predicate WhiteChar(c: char) {
    var u := c as int;
    || 9 <= u <= 13 || u == 32
    || u in {0x85, 0xA0, 0x1680, 0x2028, 0x2029, 0x202F, 0x205F, 0x3000} || 0x2000 <= u <= 0x200A
  }

  /** The characters of Unicode's property White_Space. */
  lemma {:induction false} WhiteCharsAre(c: char)
    ensures WhiteChar(c) <==>
            || c in "\t\n\r \U{000B}\U{000C}\U{0085}\U{00A0}\U{1680}\U{2028}\U{2029}\U{202F}\U{205F}\U{3000}"
            || c in "\U{2000}\U{2001}\U{2002}\U{2003}\U{2004}\U{2005}\U{2006}\U{2007}\U{2008}\U{2009}\U{200A}"
  {
  }

  predicate AllWhite(s: string) { forall i :: 0 <= i < |s| ==> WhiteChar(s[i]) }

  /** A line that trims to nothing: the reader by lines skips more than the ones
    * blank in ASCII, which are all that the reader by bytes skips. */
  predicate White(text: seq<Byte>) {
    Utf8.Decode(text).Some? && AllWhite(Utf8.Decode(text).value)
  }

  function Inked(texts: seq<seq<Byte>>): seq<seq<Byte>> {
    if texts == [] then []
    else (if White(texts[0]) then [] else [texts[0]]) + Inked(texts[1..])
  }

  /** The lines that are not white, as a whole-file reader sees them: the last one
    * counts whether or not its newline is there. */
  function Texts(f: seq<Byte>): seq<seq<Byte>> {
    Inked(TextsOf(LinesIn(f, 0, |f|)) + [Tail(f)])
  }

  lemma {:induction false} InkedConcat(a: seq<seq<Byte>>, b: seq<seq<Byte>>)
    ensures Inked(a + b) == Inked(a) + Inked(b)
  {
    hide White;
    if a == [] {
      assert a + b == b;
    } else {
      assert (a + b)[1..] == a[1..] + b;
      InkedConcat(a[1..], b);
    }
  }

  lemma {:induction false} InkedOne(text: seq<Byte>)
    ensures Inked([text]) == if White(text) then [] else [text]
  {
    hide White;
    assert Inked([text][1..]) == [];
  }

  /** A line blank in ASCII is white: what the lines leave out, trimming would too. */
  lemma {:induction false} BlankIsWhite(text: seq<Byte>)
    requires Blank(text)
    ensures White(text)
  {
    if text != [] {
      assert Space(text[0]) && Utf8.FirstChar(text) == Some(text[0] as char);
      assert forall i :: 0 <= i < |text[1..]| ==> text[1..][i] == text[i + 1];
      BlankIsWhite(text[1..]);
      var rest := Utf8.Decode(text[1..]).value;
      assert Utf8.Decode(text) == Some([text[0] as char] + rest);
    }
  }

  /** An ASCII character of a white text is white space itself. */
  lemma {:induction false} WhiteInAscii(text: seq<Byte>, i: nat)
    requires White(text) && i < |text| && text[i] < 0x80
    ensures 9 <= text[i] <= 13 || text[i] == 32
    decreases |text|
  {
    hide Utf8.Spelled, Utf8.Proper;
    var n := Utf8.Width(text[0]);
    var s := Utf8.Decode(text).value;
    var c := Utf8.FirstChar(text).value;
    var rest := text[n..];
    assert s == [c] + Utf8.Decode(rest).value;
    assert WhiteChar(s[0]);
    if i >= n {
      assert forall k :: 0 <= k < |s| - 1 ==> s[1..][k] == s[k + 1];
      assert Utf8.Decode(rest).value == s[1..];
      WhiteInAscii(rest, i - n);
    } else if n == 1 {
      FirstInAscii(text);
    }
  }

  lemma {:induction false} FirstInAscii(text: seq<Byte>)
    requires text != [] && text[0] < 0x80
    ensures Utf8.FirstChar(text) == Some(text[0] as char)
  {
  }

  ghost predicate RecordsOf(parse: Parser, texts: seq<seq<Byte>>, recs: seq<Record>) {
    |recs| == |texts| && forall i :: 0 <= i < |texts| ==> parse(texts[i]) == Some(recs[i])
  }

  /** Every line is a record's. */
  ghost predicate Readable(parse: Parser, texts: seq<seq<Byte>>) {
    forall i :: 0 <= i < |texts| ==> parse(texts[i]).Some?
  }

  /** The records the lines are. */
  function RecordsIn(parse: Parser, texts: seq<seq<Byte>>): (recs: seq<Record>)
    requires forall i :: 0 <= i < |texts| ==> parse(texts[i]).Some?
    ensures |recs| == |texts| && forall i :: 0 <= i < |texts| ==> Some(recs[i]) == parse(texts[i])
  {
    seq(|texts|, i requires 0 <= i < |texts| => parse(texts[i]).value)
  }

  lemma {:induction false} RecordsAre(parse: Parser, texts: seq<seq<Byte>>, recs: seq<Record>)
    requires RecordsOf(parse, texts, recs)
    ensures Readable(parse, texts) && recs == RecordsIn(parse, texts)
  {
    forall i | 0 <= i < |texts| ensures recs[i] == RecordsIn(parse, texts)[i] {
      assert parse(texts[i]) == Some(recs[i]);
    }
  }

  /** The first line that is no record. */
  ghost predicate FirstUnread(parse: Parser, texts: seq<seq<Byte>>, i: nat) {
    i < |texts| && parse(texts[i]).None? && forall k :: 0 <= k < i ==> parse(texts[k]).Some?
  }

  lemma {:induction false} UnreadAt(parse: Parser, texts: seq<seq<Byte>>, i: nat, recs: seq<Record>)
    requires i < |texts| && RecordsOf(parse, texts[..i], recs) && parse(texts[i]).None?
    ensures FirstUnread(parse, texts, i) && !Readable(parse, texts)
  {
    forall k | 0 <= k < i ensures parse(texts[k]).Some? { assert texts[..i][k] == texts[k]; }
  }

  // ----- The chain

  function Head(recs: seq<Record>): string {
    if recs == [] then GENESIS else recs[|recs| - 1].hash
  }

  /** Whether a record recomputes, names the one before it, and follows it. */
  predicate Links(h: Hasher, before: seq<Record>, rec: Record) {
    && h(Encoding(rec)) == rec.hash
    && rec.prevHash == Head(before)
    && rec.seqNo == (if before == [] then 0 else before[|before| - 1].seqNo + 1)
    && rec.seqNo < MAX_U64
  }

  predicate ChainOk(h: Hasher, recs: seq<Record>) {
    recs == [] || (ChainOk(h, recs[..|recs| - 1]) && Links(h, recs[..|recs| - 1], recs[|recs| - 1]))
  }

  /** The numbers of the records whose fields hold the separator. */
  function Ambiguous(recs: seq<Record>): seq<nat> {
    if recs == [] then []
    else Ambiguous(recs[..|recs| - 1]) +
         (if HasSeparator(recs[|recs| - 1]) then [recs[|recs| - 1].seqNo] else [])
  }

  datatype VerifyReport = VerifyReport(records: nat, head: string, brokenAt: Option<nat>, ambiguous: seq<nat>)

  ghost predicate FirstBroken(h: Hasher, recs: seq<Record>, i: nat) {
    i < |recs| && ChainOk(h, recs[..i]) && !Links(h, recs[..i], recs[i])
  }

  ghost predicate BrokenAt(h: Hasher, recs: seq<Record>, at: Option<nat>) {
    if at.None? then ChainOk(h, recs)
    else exists i: nat :: FirstBroken(h, recs, i) && recs[i].seqNo == at.value
  }

  ghost predicate ReportOf(h: Hasher, recs: seq<Record>, report: VerifyReport) {
    && report.records == |recs|
    && report.head == Head(recs)
    && BrokenAt(h, recs, report.brokenAt)
    && report.ambiguous == Ambiguous(recs)
  }

  ghost predicate FirstMarked(recs: seq<Record>, mark: Option<nat>, i: nat) {
    && i < |recs| && mark == Some(recs[i].seqNo)
    && forall k :: 0 <= k < i ==> mark != Some(recs[k].seqNo)
  }

  ghost predicate MarkedOf(recs: seq<Record>, mark: Option<nat>, marked: Option<string>) {
    if marked.None? then forall i :: 0 <= i < |recs| ==> mark != Some(recs[i].seqNo)
    else exists i: nat :: FirstMarked(recs, mark, i) && recs[i].hash == marked.value
  }

  /** One pass over the file: every record recomputed, linked and numbered. */
  method VerifyMarked(h: Hasher, parse: Parser, f: seq<Byte>, mark: Option<nat>)
    returns (r: Result<VerifyReport, nat>, marked: Option<string>)
    ensures r.Ok? <==> Readable(parse, Texts(f))
    ensures r.Ok? ==> var recs := RecordsIn(parse, Texts(f)); ReportOf(h, recs, r.value) && MarkedOf(recs, mark, marked)
    ensures r.Err? ==> FirstUnread(parse, Texts(f), r.error)
  {
    hide Readable, FirstUnread, RecordsIn, Texts, Encoding, ChainOk, HasSeparator, MarkedOf, BrokenAt, RecordsOf,
         Ambiguous;
    var texts := Texts(f);
    marked := None;
    var prev, expected, head, brokenAt, ambiguous := GENESIS, 0, GENESIS, None, [];
    var records := 0;
    ghost var recs: seq<Record> := [];
    NothingYet(h, parse, mark, texts);
    for i := 0 to |texts|
      invariant RecordsOf(parse, texts[..i], recs) && records == |recs|
      invariant prev == head == Head(recs) && ambiguous == Ambiguous(recs)
      invariant BrokenAt(h, recs, brokenAt)
      invariant brokenAt.None? ==> expected == if recs == [] then 0 else recs[|recs| - 1].seqNo + 1
      invariant MarkedOf(recs, mark, marked)
    {
      var parsed := parse(texts[i]);
      if parsed.None? {
        UnreadAt(parse, texts, i, recs);
        return Err(i), None;
      }
      var rec := parsed.value;
      ghost var before := recs;
      recs := recs + [rec];
      OneMore(parse, texts, i, before, rec);
      BrokenStays(h, before, rec, brokenAt);
      MarkedStays(before, rec, mark, marked);
      var intact := h(Encoding(rec)) == rec.hash && rec.prevHash == prev && rec.seqNo == expected;
      if !intact && brokenAt.None? {
        brokenAt := Some(rec.seqNo);
      }
      if HasSeparator(rec) {
        ambiguous := ambiguous + [rec.seqNo];
      }
      if marked.None? && mark == Some(rec.seqNo) {
        marked := Some(rec.hash);
      }
      prev, head := rec.hash, rec.hash;
      if rec.seqNo < MAX_U64 {
        expected := rec.seqNo + 1;
      } else {
        if brokenAt.None? {
          brokenAt := Some(rec.seqNo);
        }
        expected := rec.seqNo;
      }
      records := records + 1;
    }
    assert texts[..|texts|] == texts;
    RecordsAre(parse, texts, recs);
    r := Ok(VerifyReport(records, head, brokenAt, ambiguous));
  }

  lemma {:induction false} NothingYet(h: Hasher, parse: Parser, mark: Option<nat>, texts: seq<seq<Byte>>)
    ensures BrokenAt(h, [], None) && MarkedOf([], mark, None) && RecordsOf(parse, texts[..0], []) && Ambiguous([]) == []
  {
  }

  lemma {:induction false} OneMore(parse: Parser, texts: seq<seq<Byte>>, i: nat, before: seq<Record>, rec: Record)
    requires i < |texts| && RecordsOf(parse, texts[..i], before) && parse(texts[i]) == Some(rec)
    ensures RecordsOf(parse, texts[..i + 1], before + [rec])
    ensures |before| == i && Head(before + [rec]) == rec.hash
    ensures Ambiguous(before + [rec]) == Ambiguous(before) + (if HasSeparator(rec) then [rec.seqNo] else [])
  {
    hide HasSeparator;
    assert (before + [rec])[..i] == before;
  }

  /** One more record: a chain goes on if it links, and is broken there if not;
    * one already broken stays broken where it was. */
  lemma {:induction false} BrokenStays(h: Hasher, before: seq<Record>, rec: Record, at: Option<nat>)
    requires BrokenAt(h, before, at)
    ensures at.Some? ==> BrokenAt(h, before + [rec], at)
    ensures at.None? ==> BrokenAt(h, before + [rec], if Links(h, before, rec) then None else Some(rec.seqNo))
  {
    hide Links;
    var recs := before + [rec];
    assert recs[..|before|] == before;
    if at.None? {
      if !Links(h, before, rec) { assert FirstBroken(h, recs, |before|); }
    } else {
      var i: nat :| FirstBroken(h, before, i) && before[i].seqNo == at.value;
      assert recs[..i] == before[..i];
      assert FirstBroken(h, recs, i);
    }
  }

  lemma {:induction false} MarkedStays(before: seq<Record>, rec: Record, mark: Option<nat>, marked: Option<string>)
    requires MarkedOf(before, mark, marked)
    ensures MarkedOf(before + [rec], mark,
                     if marked.None? && mark == Some(rec.seqNo) then Some(rec.hash) else marked)
  {
    var recs := before + [rec];
    if marked.None? {
      if mark == Some(rec.seqNo) { assert FirstMarked(recs, mark, |before|); }
    } else {
      var i: nat :| FirstMarked(before, mark, i) && before[i].hash == marked.value;
      assert FirstMarked(recs, mark, i);
    }
  }

  /** The chain, and that it is still the one sealed as this head and count. */
  method VerifyAgainst(h: Hasher, parse: Parser, f: seq<Byte>, expectedHead: string, expectedCount: nat)
    returns (r: Result<VerifyReport, nat>)
    ensures r.Ok? <==> Readable(parse, Texts(f))
    ensures r.Ok? ==>
              var recs := RecordsIn(parse, Texts(f));
              && r.value.records == |recs| && r.value.head == Head(recs) && r.value.ambiguous == Ambiguous(recs)
              && (r.value.brokenAt.None? <==> Sealed(h, recs, expectedHead, expectedCount))
              && (ChainOk(h, recs) && r.value.brokenAt.Some? ==>
                    r.value.brokenAt.value == if |recs| < expectedCount then |recs| else expectedCount)
              && (!ChainOk(h, recs) ==> BrokenAt(h, recs, r.value.brokenAt))
    ensures r.Err? ==> FirstUnread(parse, Texts(f), r.error)
  {
    hide Texts, Ambiguous, Links, ChainOk, RecordsIn, FirstUnread;
    var marked;
    r, marked := VerifyMarked(h, parse, f, None);
    if r.Ok? {
      ghost var recs := RecordsIn(parse, Texts(f));
      var report := r.value;
      ChainOrBroken(h, recs, report.brokenAt);
      if report.brokenAt.None? && (report.records != expectedCount || report.head != expectedHead) {
        r := Ok(report.(brokenAt := Some(if report.records < expectedCount then report.records else expectedCount)));
      }
    }
  }

  ghost predicate Sealed(h: Hasher, recs: seq<Record>, head: string, count: nat) {
    ChainOk(h, recs) && Head(recs) == head && |recs| == count
  }

  lemma {:induction false} ChainPrefix(h: Hasher, recs: seq<Record>, n: nat)
    requires n < |recs| && ChainOk(h, recs)
    ensures ChainOk(h, recs[..n]) && Links(h, recs[..n], recs[n])
    decreases |recs|
  {
    hide Links;
    var last := |recs| - 1;
    if n < last {
      ChainPrefix(h, recs[..last], n);
      assert recs[..last][..n] == recs[..n] && recs[..last][n] == recs[n];
    }
  }

  lemma {:induction false} ChainOrBroken(h: Hasher, recs: seq<Record>, at: Option<nat>)
    requires BrokenAt(h, recs, at)
    ensures at.None? <==> ChainOk(h, recs)
  {
    hide Links, ChainOk;
    if at.Some? && ChainOk(h, recs) {
      var i: nat :| FirstBroken(h, recs, i) && recs[i].seqNo == at.value;
      ChainPrefix(h, recs, i);
    }
  }

  // ----- A seal pins the history

  /** What `append` writes: no field holds the separator. */
  predicate Stamped(r: Record) { !HasSeparator(r) && Free(r.decision) && ExtraApart(r) }

  /** What any file's records are: members apart, and a `u64` latency. */
  ghost predicate Parsed(r: Record) { ExtraApart(r) && r.latencyMs <= MAX_U64 }

  /** Nobody has found two of these records' encodings that hash alike. */
  ghost predicate NoCollision(h: Hasher, a: seq<Record>, b: seq<Record>) {
    forall i, j :: 0 <= i < |a| && 0 <= j < |b| && h(Encoding(a[i])) == h(Encoding(b[j])) ==>
      Encoding(a[i]) == Encoding(b[j])
  }

  lemma {:induction false} HeadIsHash(h: Hasher, recs: seq<Record>)
    requires forall s :: HashText(h(s))
    requires ChainOk(h, recs)
    ensures HashText(Head(recs))
  {
    hide Encoding;
  }

  lemma {:induction false} HashIsLong(s: string)
    requires HashText(s)
    ensures |s| == 64 && Free(s)
  {
  }

  lemma {:induction false} LastPins(h: Hasher, a: seq<Record>, b: seq<Record>)
    requires a != [] && b != [] && ChainOk(h, a) && ChainOk(h, b) && Head(a) == Head(b)
    requires forall s :: HashText(h(s))
    requires Stamped(a[|a| - 1]) && Parsed(b[|b| - 1]) && NoCollision(h, a, b)
    ensures SameRecord(a[|a| - 1], b[|b| - 1])
    ensures a[|a| - 1].prevHash == Head(a[..|a| - 1]) && b[|b| - 1].prevHash == Head(b[..|b| - 1])
  {
    hide Encoding, SameRecord, HasSeparator, ExtraApart, HashText;
    var r, s := a[|a| - 1], b[|b| - 1];
    HeadIsHash(h, a[..|a| - 1]);
    HeadIsHash(h, b[..|b| - 1]);
    assert h(Encoding(r)) == h(Encoding(s));
    HashIsLong(r.prevHash);
    EncodingIsInjective(r, s);
  }

  lemma {:induction false} SameLink(r: Record, s: Record)
    requires SameRecord(r, s)
    ensures r.prevHash == s.prevHash
  {
  }

  /** A seal, the head and the count, pins every record: of a ledger `append`
    * wrote, any file whatever that verifies with the same head and count holds
    * the same records, one by one. */
  lemma {:induction false} SealPinsHistory(h: Hasher, a: seq<Record>, b: seq<Record>)
    requires ChainOk(h, a) && ChainOk(h, b)
    requires |a| == |b| && Head(a) == Head(b)
    requires forall s :: HashText(h(s))
    requires NoCollision(h, a, b)
    requires forall i :: 0 <= i < |a| ==> Stamped(a[i]) && Parsed(b[i])
    ensures forall i :: 0 <= i < |a| ==> SameRecord(a[i], b[i]) && a[i].hash == b[i].hash
    decreases |a|
  {
    hide Encoding, SameRecord, HashText, Stamped, Parsed, Links;
    if a != [] {
      var n := |a| - 1;
      LastPins(h, a, b);
      SameLink(a[n], b[n]);
      var a', b' := a[..n], b[..n];
      assert forall i :: 0 <= i < n ==> a'[i] == a[i] && b'[i] == b[i];
      SealPinsHistory(h, a', b');
      assert forall i :: 0 <= i < n ==> SameRecord(a'[i], b'[i]) && a'[i].hash == b'[i].hash;
    }
  }

  /** The same records under the same hashes, one by one. */
  ghost predicate SameLedger(a: seq<Record>, b: seq<Record>) {
    |a| == |b| && forall i :: 0 <= i < |a| ==> SameRecord(a[i], b[i]) && a[i].hash == b[i].hash
  }

  /** What the seal accepts is exactly the ledger that was sealed: its records, up
    * to what no hash can tell apart, under its hashes. */
  lemma {:induction false} SealAcceptsExactly(h: Hasher, a: seq<Record>, b: seq<Record>)
    requires ChainOk(h, a)
    requires forall s :: HashText(h(s))
    requires NoCollision(h, a, b)
    requires forall i :: 0 <= i < |a| ==> Stamped(a[i])
    requires forall i :: 0 <= i < |b| ==> Parsed(b[i])
    ensures Sealed(h, b, Head(a), |a|) <==> SameLedger(a, b)
  {
    hide Stamped, Parsed, ChainOk, SameRecord, HashText;
    if Sealed(h, b, Head(a), |a|) {
      SealPinsHistory(h, a, b);
    } else if SameLedger(a, b) {
      StampedApart(a);
      ParsedApart(b);
      SameLedgerVerifies(h, a, b);
    }
  }

  lemma {:induction false} StampedApart(a: seq<Record>)
    requires forall i :: 0 <= i < |a| ==> Stamped(a[i])
    ensures forall i :: 0 <= i < |a| ==> ExtraApart(a[i])
  {
    hide HasSeparator, ExtraApart;
  }

  lemma {:induction false} ParsedApart(b: seq<Record>)
    requires forall i :: 0 <= i < |b| ==> Parsed(b[i])
    ensures forall i :: 0 <= i < |b| ==> ExtraApart(b[i])
  {
    hide ExtraApart;
  }

  /** A ledger of the same records verifies, with the same head. */
  lemma {:induction false} SameLedgerVerifies(h: Hasher, a: seq<Record>, b: seq<Record>)
    requires ChainOk(h, a) && SameLedger(a, b)
    requires forall i :: 0 <= i < |a| ==> ExtraApart(a[i]) && ExtraApart(b[i])
    ensures ChainOk(h, b) && Head(b) == Head(a)
    decreases |a|
  {
    hide SameRecord, ExtraApart, Links;
    if a != [] {
      var n := |a| - 1;
      assert forall i :: 0 <= i < n ==> a[..n][i] == a[i] && b[..n][i] == b[i];
      SameLedgerVerifies(h, a[..n], b[..n]);
      SameEncoding(a[n], b[n]);
      if n > 0 { assert a[..n][n - 1] == a[n - 1] && b[..n][n - 1] == b[n - 1]; SameNumber(a[n - 1], b[n - 1]); }
      SameNumber(a[n], b[n]);
      LinksAlike(h, a[..n], a[n], b[..n], b[n]);
    }
  }

  lemma {:induction false} SameNumber(r: Record, s: Record)
    requires SameRecord(r, s)
    ensures r.seqNo == s.seqNo && r.prevHash == s.prevHash
  {
  }

  lemma {:induction false} LinksAlike(h: Hasher, before: seq<Record>, r: Record, others: seq<Record>, s: Record)
    requires Links(h, before, r) && |before| == |others| && Head(before) == Head(others)
    requires before != [] ==> before[|before| - 1].seqNo == others[|others| - 1].seqNo
    requires Encoding(r) == Encoding(s) && r.hash == s.hash && r.seqNo == s.seqNo && r.prevHash == s.prevHash
    ensures Links(h, others, s)
  {
    hide Encoding;
  }
}
