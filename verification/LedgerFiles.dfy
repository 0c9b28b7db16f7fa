/** The ledger as a file one gateway appends to. */
module LedgerFiles {
  import opened Wrappers
  import opened Text
  import opened Records
  import opened Preimage
  import opened LogLines
  import opened Paging
  import opened Following
  import opened Ledgers

  /** How a record is written on a line. */
  type Printer = Record -> seq<Byte>

  /** A record of this release: every member known, every number a `u64`. */
  ghost predicate Writable(r: Record) {
    r.extra == [] && r.seqNo <= MAX_U64 && r.tsUnixMs <= MAX_U64 && r.latencyMs <= MAX_U64
  }

  /** A line is one record's, and reads back as it: what serde promises. */
  ghost predicate Codec(parse: Parser, show: Printer) {
    forall r :: Writable(r) ==> OneLine(show(r)) && parse(show(r)) == Some(r)
  }

  /** Some character in ASCII that prints. */
  predicate HasInk(text: seq<Byte>) { exists i :: 0 <= i < |text| && 32 < text[i] < 127 }

  /** A line with something on it, and no newline within. */
  predicate OneLine(text: seq<Byte>) {
    HasInk(text) && forall i :: 0 <= i < |text| ==> text[i] != NEWLINE
  }

  // ----- What appending a line does to a file

  lemma {:induction false} AppendLine(f: seq<Byte>, text: seq<Byte>)
    requires OneLine(Tail(f) + text)
    ensures Texts(f + text + [NEWLINE]) == Inked(TextsOf(LinesIn(f, 0, |f|))) + [Tail(f) + text]
    ensures LineStart(f + text + [NEWLINE], |f + text + [NEWLINE]|)
  {
    hide *;
    var g := f + text + [NEWLINE];
    AppendedLines(f, text);
    EndIsComplete(g);
    assert Tail(g) == [];
    InkedConcat(TextsOf(LinesIn(f, 0, |f|)) + [Tail(f) + text], [Tail(g)]);
    InkedConcat(TextsOf(LinesIn(f, 0, |f|)), [Tail(f) + text]);
    InkShows(Tail(f) + text);
    InkedOne(Tail(f) + text);
    InkedOne([]);
    NothingIsWhite();
    TextsAre(g);
  }

  lemma {:induction false} NothingIsWhite()
    ensures White([])
  {
    BlankIsWhite([]);
  }

  lemma {:induction false} TextsAre(g: seq<Byte>)
    ensures Texts(g) == Inked(TextsOf(LinesIn(g, 0, |g|)) + [Tail(g)])
  {
  }

  lemma {:induction false} AppendedLines(f: seq<Byte>, text: seq<Byte>)
    requires OneLine(Tail(f) + text)
    ensures var g := f + text + [NEWLINE];
            && TextsOf(LinesIn(g, 0, |g|)) == TextsOf(LinesIn(f, 0, |f|)) + [Tail(f) + text]
            && LineStart(g, |g|)
  {
    hide LinesIn, CompleteEnd, LineEnd, Blank;
    var e := CompleteEnd(f);
    var more := text + [NEWLINE];
    var g := f + more;
    assert f + text + [NEWLINE] == g;
    AllLinesAreComplete(f, 0);
    LinesGrow(f, more, 0, e);
    assert g[e..|g| - 1] == Tail(f) + text;
    forall i | e <= i < |g| - 1 ensures g[i] != NEWLINE {
      assert g[i] == (Tail(f) + text)[i - e];
    }
    InkShows(Tail(f) + text);
    LastLine(g, e, |g|);
  }

  lemma {:induction false} InkShows(text: seq<Byte>)
    requires OneLine(text)
    ensures !White(text) && !Blank(text)
  {
    hide White;
    var i :| 0 <= i < |text| && 32 < text[i] < 127;
    if White(text) { WhiteInAscii(text, i); }
    assert !Space(text[i]);
  }

  lemma {:induction false} EndIsComplete(g: seq<Byte>)
    requires LineStart(g, |g|)
    ensures CompleteEnd(g) == |g| && Tail(g) == []
  {
  }

  lemma {:induction false} NoTail(f: seq<Byte>)
    requires LineStart(f, |f|)
    ensures Tail(f) == [] && Texts(f) == Inked(TextsOf(LinesIn(f, 0, |f|)))
  {
    hide LinesIn, White, CompleteEnd;
    EndIsComplete(f);
    InkedConcat(TextsOf(LinesIn(f, 0, |f|)), [Tail(f)]);
    BlankIsWhite([]);
    InkedOne([]);
  }

  /** Appending adds one line to those a whole-file reader counts, exactly when
    * what followed the last newline was white. On a file whose last line had lost
    * its newline, the line appended runs on from it, and the two count once. */
  lemma {:induction false} AppendCountsOne(f: seq<Byte>, text: seq<Byte>)
    requires OneLine(text)
    ensures |Texts(f + text + [NEWLINE])| == |Texts(f)| + 1 <==> White(Tail(f))
  {
    hide LinesIn, CompleteEnd, White, Tail;
    TailIsOneLine(f, text);
    AppendLine(f, text);
    InkedConcat(TextsOf(LinesIn(f, 0, |f|)), [Tail(f)]);
    InkedOne(Tail(f));
  }

  lemma {:induction false} TailIsOneLine(f: seq<Byte>, text: seq<Byte>)
    requires OneLine(text)
    ensures OneLine(Tail(f) + text)
  {
    hide CompleteEnd;
    var i :| 0 <= i < |text| && 32 < text[i] < 127;
    assert (Tail(f) + text)[|Tail(f)| + i] == text[i];
  }

  /** Such a file: one record's line, cut short of its newline. The next record is
    * written onto it, and a reader still counts one line. */
  lemma {:induction false} RunsOnTheTail()
    ensures var f, text := [123, 125], [123, 125];
            OneLine(text) && |Texts(f)| == 1 && Texts(f + text + [NEWLINE]) == [[123, 125, 123, 125]]
  {
    hide LinesIn, White;
    var f: seq<Byte>, text: seq<Byte> := [123, 125], [123, 125];
    assert 32 < text[0] < 127;
    assert CompleteEnd(f) == 0 && Tail(f) == f by { assert f[..1] == [123] && f[..1][..0] == []; }
    NothingAfter(f, 0, |f|);
    InkShows(f);
    InkedOne(f);
    assert TextsOf([]) + [Tail(f)] == [f];
    TailIsOneLine(f, text);
    AppendLine(f, text);
    assert Texts(f + text + [NEWLINE]) == Inked(TextsOf([])) + [Tail(f) + text];
    assert Inked(TextsOf([])) == [] && Tail(f) + text == [123, 125, 123, 125];
  }

  // ----- What a record is made of

  datatype Decision = Allow | Deny(rule: string)

  datatype Kind = Call | Admin | Reload | Upstream {
    function Name(): string {
      match this
      case Call => "call"
      case Admin => "admin"
      case Reload => "reload"
      case Upstream => "upstream"
    }
  }

  datatype Attrs = Attrs(
    kind: Kind,
    uri: Option<string>,
    transforms: seq<string>,
    actor: Option<string>,
    peer: Option<string>,
    configFrom: Option<string>,
    configTo: Option<string>,
    rule: Option<string>,
    toolChanges: Option<ToolChanges>)

  datatype Asked = Asked(
    agent: string,
    server: string,
    methodName: Option<string>,
    tool: Option<string>,
    decision: Decision,
    latencyMs: U64,
    attrs: Attrs)

  /** A field made safe to join: each separator gives way to a symbol one can see. */
  function WithoutSeparator(s: string): (t: string)
    ensures |t| == |s| && Free(t)
    ensures forall i :: 0 <= i < |s| ==> t[i] == if s[i] == US then '\U{241F}' else s[i]
  {
    seq(|s|, i requires 0 <= i < |s| => if s[i] == US then '\U{241F}' else s[i])
  }

  function Stored(s: Option<string>): Option<string> {
    if s.Some? then Some(WithoutSeparator(s.value)) else None
  }

  /** The record an append stamps, before its hash. */
  function Draft(e: Asked, seqNo: nat, now: nat, head: string): Record {
    var rule := if e.decision.Allow? then e.attrs.rule else Some(e.decision.rule);
    Record(
      seqNo, now, WithoutSeparator(e.agent), WithoutSeparator(e.server), Stored(e.methodName), Stored(e.tool),
      if e.decision.Allow? then "allow" else "deny", Stored(rule), e.latencyMs,
      if e.attrs.kind.Call? then None else Some(e.attrs.kind.Name()), e.attrs.uri,
      if e.attrs.transforms == [] then None else Some(e.attrs.transforms),
      e.attrs.actor, e.attrs.peer, e.attrs.configFrom, e.attrs.configTo, e.attrs.toolChanges,
      [], head, "")
  }

  lemma {:induction false} DraftIsStamped(e: Asked, seqNo: nat, now: nat, head: string, hash: string)
    ensures Stamped(Draft(e, seqNo, now, head).(hash := hash))
  {
    assert "allow" == ['a', 'l', 'l', 'o', 'w'] && "deny" == ['d', 'e', 'n', 'y'];
  }

  /** `t` is `s` with a visible symbol for each separator: `s` itself where it has none. */
  ghost predicate Kept(s: string, t: string) {
    && |t| == |s|
    && forall i :: 0 <= i < |s| ==> if s[i] == '\U{001F}' then t[i] == '\U{241F}' else t[i] == s[i]
  }

  ghost predicate KeptIfAny(s: Option<string>, t: Option<string>) {
    if s.None? then t.None? else t.Some? && Kept(s.value, t.value)
  }

  /** The record says what was asked and what was decided, and when. */
  ghost predicate Tells(rec: Record, e: Asked, now: nat) {
    && (match e.decision
        case Allow => rec.decision == "allow" && KeptIfAny(e.attrs.rule, rec.rule)
        case Deny(rule) => rec.decision == "deny" && KeptIfAny(Some(rule), rec.rule))
    && Kept(e.agent, rec.agent) && Kept(e.server, rec.server)
    && KeptIfAny(e.methodName, rec.methodName) && KeptIfAny(e.tool, rec.tool)
    && rec.tsUnixMs == now && rec.latencyMs == e.latencyMs
    && (match e.attrs.kind
        case Call => rec.kind == None
        case Admin => rec.kind == Some("admin")
        case Reload => rec.kind == Some("reload")
        case Upstream => rec.kind == Some("upstream"))
    && rec.uri == e.attrs.uri && rec.actor == e.attrs.actor && rec.peer == e.attrs.peer
    && rec.configFrom == e.attrs.configFrom && rec.configTo == e.attrs.configTo
    && rec.toolChanges == e.attrs.toolChanges
    && (if e.attrs.transforms == [] then rec.transforms == None else rec.transforms == Some(e.attrs.transforms))
    && rec.extra == []
  }

  /** What a record stamps is what was asked. */
  lemma {:induction false} DraftTells(e: Asked, seqNo: nat, now: nat, head: string, hash: string)
    ensures Tells(Draft(e, seqNo, now, head).(hash := hash), e, now)
  {
    hide WithoutSeparator;
    KeepsText(e.agent);
    KeepsText(e.server);
    if e.methodName.Some? { KeepsText(e.methodName.value); }
    if e.tool.Some? { KeepsText(e.tool.value); }
    if e.decision.Deny? { KeepsText(e.decision.rule); }
    if e.attrs.rule.Some? { KeepsText(e.attrs.rule.value); }
  }

  lemma {:induction false} KeepsText(s: string)
    ensures Kept(s, WithoutSeparator(s))
  {
  }

  /** A field without a separator is stored as it is. */
  lemma {:induction false} KeptAsIs(s: string, t: string)
    requires Kept(s, t) && forall i :: 0 <= i < |s| ==> s[i] != '\U{001F}'
    ensures t == s
  {
  }

  lemma {:induction false} DraftIsWritable(e: Asked, seqNo: nat, now: U64, head: string, hash: string)
    requires seqNo <= MAX_U64
    ensures Writable(Draft(e, seqNo, now, head).(hash := hash))
  {
  }

  lemma {:induction false} HashLeavesItself(r: Record, hash: string)
    ensures Encoding(r.(hash := hash)) == Encoding(r)
  {
    hide Join, Decimal;
    assert LaterMembers(r.(hash := hash)) == LaterMembers(r) by { NamedAlike(r, r.(hash := hash), NAMES); }
  }

  lemma {:induction false} NamedAlike(r: Record, s: Record, names: seq<string>)
    requires s == r.(hash := s.hash)
    ensures NamedMembers(r, names) == NamedMembers(s, names)
  {
    if names != [] { NamedAlike(r, s, names[1..]); }
  }

  class Ledger {
    const file: LogFile
    const hash: Hasher
    const show: Printer
    var head: string
    var nextSeq: nat

    constructor (file: LogFile, hash: Hasher, show: Printer, head: string, nextSeq: nat)
      ensures this.file == file && this.hash == hash && this.show == show
      ensures this.head == head && this.nextSeq == nextSeq
    {
      this.file, this.hash, this.show, this.head, this.nextSeq := file, hash, show, head, nextSeq;
    }

    /** The ledger resumes the chain: its head is the last record's hash, and its
      * next number how many records the file holds. */
    ghost predicate Resumes(recs: seq<Record>)
      reads this
    {
      head == Head(recs) && nextSeq == |recs|
    }

    /** Takes the chain up where the file leaves it. */
    static method Open(file: LogFile, parse: Parser, hash: Hasher, show: Printer)
      returns (r: Result<Ledger, nat>)
      ensures r.Ok? <==> Readable(parse, Texts(file.data))
      ensures r.Ok? ==>
                && fresh(r.value) && r.value.file == file && r.value.hash == hash && r.value.show == show
                && r.value.Resumes(RecordsIn(parse, Texts(file.data)))
      ensures r.Err? ==> FirstUnread(parse, Texts(file.data), r.error)
    {
      hide Texts;
      var texts := Texts(file.data);
      var head, count := GENESIS, 0;
      ghost var recs: seq<Record> := [];
      for i := 0 to |texts|
        invariant RecordsOf(parse, texts[..i], recs) && head == Head(recs) && count == |recs|
      {
        var rec := parse(texts[i]);
        if rec.None? {
          UnreadAt(parse, texts, i, recs);
          return Err(i);
        }
        recs := recs + [rec.value];
        assert texts[..i + 1] == texts[..i] + [texts[i]];
        head, count := rec.value.hash, count + 1;
      }
      assert texts[..|texts|] == texts;
      RecordsAre(parse, texts, recs);
      var ledger := new Ledger(file, hash, show, head, count);
      r := Ok(ledger);
    }

    /** Append one entry: the record it stamps, linked to the head, on a line. */
    method Append(e: Asked, now: U64) returns (rec: Record)
      modifies this, file
      ensures rec.seqNo == old(nextSeq) && rec.prevHash == old(head)
      ensures rec == Draft(e, old(nextSeq), now, old(head)).(hash := hash(Encoding(rec)))
      ensures Stamped(rec) && Tells(rec, e, now)
      ensures file.data == old(file.data) + show(rec) + [NEWLINE]
      ensures head == rec.hash && nextSeq == old(nextSeq) + 1
    {
      hide Draft, Stamped, Tells, Encoding;
      DraftLinks(e, nextSeq, now, head);
      rec := Draft(e, nextSeq, now, head);
      HashLeavesItself(rec, hash(Encoding(rec)));
      rec := rec.(hash := hash(Encoding(rec)));
      DraftIsStamped(e, nextSeq, now, head, rec.hash);
      DraftTells(e, nextSeq, now, head, rec.hash);
      file.Append(show(rec) + [NEWLINE]);
      assert old(file.data) + (show(rec) + [NEWLINE]) == old(file.data) + show(rec) + [NEWLINE];
      head := rec.hash;
      nextSeq := nextSeq + 1;
    }
  }

  /** One append, from a file that ends a line: its records are those before and
    * the new one, and a chain stays a chain. */
  lemma {:induction false} AppendExtends(
      h: Hasher, parse: Parser, show: Printer, f: seq<Byte>, recs: seq<Record>, e: Asked, now: U64, rec: Record)
    requires Codec(parse, show) && LineStart(f, |f|) && RecordsOf(parse, Texts(f), recs)
    requires |recs| <= MAX_U64
    requires rec == Draft(e, |recs|, now, Head(recs)).(hash := h(Encoding(rec)))
    ensures var f' := f + show(rec) + [NEWLINE];
            && LineStart(f', |f'|)
            && RecordsOf(parse, Texts(f'), recs + [rec])
            && (ChainOk(h, recs) && |recs| < MAX_U64 ==> ChainOk(h, recs + [rec]))
  {
    hide *;
    NoTail(f);
    var text := show(rec);
    DraftIsWritable(e, |recs|, now, Head(recs), rec.hash);
    PrintedIsALine(parse, show, rec);
    assert [] + text == text;
    AppendLine(f, text);
    RecordsOfSnoc(parse, Texts(f), recs, text, rec);
    if ChainOk(h, recs) && |recs| < MAX_U64 {
      DraftLinks(e, |recs|, now, Head(recs));
      ChainSnoc(h, recs, rec);
    }
  }

  lemma {:induction false} PrintedIsALine(parse: Parser, show: Printer, rec: Record)
    requires Codec(parse, show) && Writable(rec)
    ensures OneLine(show(rec)) && parse(show(rec)) == Some(rec)
  {
  }

  lemma {:induction false} RecordsOfSnoc(
      parse: Parser, texts: seq<seq<Byte>>, recs: seq<Record>, text: seq<Byte>, rec: Record)
    requires RecordsOf(parse, texts, recs) && parse(text) == Some(rec)
    ensures RecordsOf(parse, texts + [text], recs + [rec])
  {
  }

  lemma {:induction false} ChainSnoc(h: Hasher, recs: seq<Record>, rec: Record)
    requires ChainOk(h, recs) && |recs| < MAX_U64
    requires rec.seqNo == |recs| && rec.prevHash == Head(recs) && rec.hash == h(Encoding(rec))
    ensures ChainOk(h, recs + [rec])
  {
    hide ChainOk, Encoding;
    ChainNumbers(h, recs);
    assert Links(h, recs, rec);
    ChainOneMore(h, recs, rec);
  }

  lemma {:induction false} ChainOneMore(h: Hasher, recs: seq<Record>, rec: Record)
    requires ChainOk(h, recs) && Links(h, recs, rec)
    ensures ChainOk(h, recs + [rec])
  {
    hide Links;
    assert (recs + [rec])[..|recs|] == recs;
  }

  lemma {:induction false} DraftLinks(e: Asked, seqNo: nat, now: nat, head: string)
    ensures Draft(e, seqNo, now, head).seqNo == seqNo && Draft(e, seqNo, now, head).prevHash == head
  {
  }

  lemma {:induction false} ChainNumbers(h: Hasher, recs: seq<Record>)
    requires ChainOk(h, recs)
    ensures recs != [] ==> recs[|recs| - 1].seqNo == |recs| - 1
  {
    hide Encoding;
    if recs != [] { ChainNumbers(h, recs[..|recs| - 1]); }
  }

  // ----- Whole runs of appends

  /** One append of a run, and the time it was made. */
  datatype Turn = Turn(asked: Asked, now: U64)

  function StampedBy(h: Hasher, recs: seq<Record>, t: Turn): Record {
    var draft := Draft(t.asked, |recs|, t.now, Head(recs));
    draft.(hash := h(Encoding(draft)))
  }

  function RecordsAfter(h: Hasher, recs: seq<Record>, turns: seq<Turn>): seq<Record>
    decreases |turns|
  {
    if turns == [] then recs else RecordsAfter(h, recs + [StampedBy(h, recs, turns[0])], turns[1..])
  }

  function FileAfter(h: Hasher, show: Printer, f: seq<Byte>, recs: seq<Record>, turns: seq<Turn>): seq<Byte>
    decreases |turns|
  {
    if turns == [] then f
    else
      var rec := StampedBy(h, recs, turns[0]);
      FileAfter(h, show, f + show(rec) + [NEWLINE], recs + [rec], turns[1..])
  }

  /** Whatever is appended, in any number: the file holds those records, the chain
    * verifies, and none of them is ambiguous or could be read as another. */
  lemma {:induction false} AppendedLedgerVerifies(
      h: Hasher, parse: Parser, show: Printer, f: seq<Byte>, recs: seq<Record>, turns: seq<Turn>)
    requires Codec(parse, show) && LineStart(f, |f|) && RecordsOf(parse, Texts(f), recs)
    requires ChainOk(h, recs) && |recs| + |turns| <= MAX_U64
    requires forall i :: 0 <= i < |recs| ==> Stamped(recs[i])
    ensures var f', recs' := FileAfter(h, show, f, recs, turns), RecordsAfter(h, recs, turns);
            && LineStart(f', |f'|)
            && RecordsOf(parse, Texts(f'), recs')
            && ChainOk(h, recs')
            && |recs'| == |recs| + |turns| && recs <= recs'
            && (forall i :: 0 <= i < |turns| ==> Tells(recs'[|recs| + i], turns[i].asked, turns[i].now))
            && forall i :: 0 <= i < |recs'| ==> Stamped(recs'[i])
    decreases |turns|
  {
    hide Codec, Texts, Encoding, ChainOk, LineStart, RecordsOf, Draft, Stamped, Tells;
    if turns != [] {
      var rec := StampedBy(h, recs, turns[0]);
      StampIsStamped(h, recs, turns[0]);
      AppendExtends(h, parse, show, f, recs, turns[0].asked, turns[0].now, rec);
      AppendedLedgerVerifies(h, parse, show, f + show(rec) + [NEWLINE], recs + [rec], turns[1..]);
    }
  }

  lemma {:induction false} StampIsStamped(h: Hasher, recs: seq<Record>, t: Turn)
    ensures var rec := StampedBy(h, recs, t);
            && Stamped(rec) && Tells(rec, t.asked, t.now)
            && rec == Draft(t.asked, |recs|, t.now, Head(recs)).(hash := h(Encoding(rec)))
  {
    hide Encoding, Draft, Stamped, Tells;
    var draft := Draft(t.asked, |recs|, t.now, Head(recs));
    HashLeavesItself(draft, h(Encoding(draft)));
    DraftIsStamped(t.asked, |recs|, t.now, Head(recs), h(Encoding(draft)));
    DraftTells(t.asked, |recs|, t.now, Head(recs), h(Encoding(draft)));
  }
}
