/** What a rule does to a result: its edits, in order, and the mirrors after them. */
module ResultEdits {
  import opened Wrappers
  import opened Text
  import opened Json
  import opened Schemas
  import opened Changes
  import opened Places
  import opened Redaction
  import opened RedactedTrees
  import opened Results
  import opened Apartness
  import opened ResultBlocks
  import opened ResultRedaction
  import opened PathEdits
  import opened CleanResults
  import Utf8

  // ----- One edit

  /** What every edit keeps to: the mirrors' texts are left, the changes are those made
    * to the structure, and an edit that reports no change made none. */
  ghost predicate EditKept(mirrors: seq<Block>, before: Value, after: Value, changes: seq<Change>, changed: bool) {
    && Storable(after, MAX_DEPTH)
    && (forall b :: b in mirrors ==> TextAt(after, b) == TextAt(before, b))
    && StructureFollows(before, after, changes)
    && (changes != [] ==> changed)
    && (!changed ==> after == before)
  }

  ghost predicate StructureFollows(before: Value, after: Value, changes: seq<Change>) {
    match At(before, STRUCTURE)
    case None => At(after, STRUCTURE).None? && changes == []
    case Some(s) => AllApply(s, changes) && At(after, STRUCTURE) == Some(Applied(s, changes))
  }

  lemma {:induction false} RedactKeeps(
      det: Detector, strict: bool, c: Codec, mirrors: seq<Block>, before: Value, after: Value,
      changes: seq<Change>, changed: bool)
    requires Done(det, strict, c, mirrors, before, after, changes) && Storable(before, MAX_DEPTH) &&
             Storable(after, MAX_DEPTH)
    requires (changed <==> after != before) && (changes != [] ==> changed)
    requires forall b :: b in mirrors ==> TextAt(before, b).Some?
    ensures EditKept(mirrors, before, after, changes, changed)
  {
    hide Storable, At, TextAt, Outside, Strings, AllKeys, Follows, ChangesOf, AllApply, Applied;
    forall b | b in mirrors ensures TextAt(after, b) == TextAt(before, b) {
      assert BlockLeft(BlockDoing(det, strict, c), mirrors, b, TextAt(before, b), TextAt(after, b));
    }
    if At(before, STRUCTURE).Some? {
      StructureIsStorable(before);
      ChangesAreMade(Rewriting(det, strict), At(before, STRUCTURE).value, At(after, STRUCTURE).value, [], NoSkip());
    }
  }

  // ----- A path edit

  /** An edit at every place a path names, once done. */
  ghost predicate EditDone(op: Op, steps: seq<string>, v: Value, w: Value) {
    exists changes :: EditSoFar(op, PlacesIn(v, steps, []), |PlacesIn(v, steps, [])|, v, w, changes)
  }

  /** A block's text, once edited: in the JSON it holds, if it holds any. */
  ghost predicate BlockEdited(c: Codec, steps: seq<string>, op: Op, before: string, after: string) {
    match JsonIn(c, before)
    case None => after == before
    case Some(v) => JsonIn(c, after).Some? && EditDone(op, steps, v, JsonIn(c, after).value)
  }

  ghost predicate BlockCanEdit(c: Codec, steps: seq<string>, op: Op, text: string) {
    match JsonIn(c, text)
    case None => true
    case Some(v) => CanEdit(op, PlacesIn(v, steps, []), v)
  }

  ghost function Editing(c: Codec, steps: seq<string>, op: Op): Judge { (s, t) => BlockEdited(c, steps, op, s, t) }

  ghost function Editable(c: Codec, steps: seq<string>, op: Op): string -> bool { s => BlockCanEdit(c, steps, op, s) }

  method EditBlock(c: Codec, text: string, steps: seq<string>, op: Op) returns (r: Result<(string, bool), Fault>)
    requires Faithful(c) && steps != []
    ensures r.Ok? <==> BlockCanEdit(c, steps, op, text)
    ensures r.Ok? ==> BlockEdited(c, steps, op, text, r.value.0) && (r.value.1 <==> r.value.0 != text)
  {
    hide EditSoFar, PlacesIn, CanEdit, Faithful, Storable;
    var held := JsonIn(c, text);
    if held.None? {
      return Ok((text, false));
    }
    HeldIsStorable(c, text);
    var after, changes := EditAt(held.value, steps, op);
    if after.Err? {
      return Err(after.error);
    }
    var places := PlacesIn(held.value, steps, []);
    assert EditDone(op, steps, held.value, after.value);
    if changes == [] {
      return Ok((text, false));
    }
    EditIsDone(op, steps, held.value, after.value, changes);
    AppliedIsStorable(held.value, changes, MAX_DEPTH);
    ReadsBack(c, text, after.value);
    return Ok((JsonText(c, text, after.value), true));
  }

  method EditBlocks(c: Codec, result: Value, mirrors: seq<Block>, steps: seq<string>, op: Op)
    returns (r: Result<Value, Fault>, changed: bool)
    requires Faithful(c) && Storable(result, MAX_DEPTH) && steps != []
    ensures r.Ok? <==> BlocksCan(Editable(c, steps, op), mirrors, result)
    ensures r.Ok? ==>
              && BlocksDone(Editing(c, steps, op), mirrors, result, r.value)
              && At(r.value, STRUCTURE) == At(result, STRUCTURE)
              && ElseSame(result, r.value) && Storable(r.value, MAX_DEPTH)
              && (if changed then SomeTextDiffers(result, r.value) else r.value == result)
  {
    hide SoFar, CanSoFar, BlocksDone, BlocksCan, BlockEdited, BlockCanEdit, ElseSame, At, Put, TextAt, SomeTextDiffers,
         Storable, Faithful;
    ghost var done, can := Editing(c, steps, op), Editable(c, steps, op);
    var blocks := Blocks(result);
    var now := result;
    changed := false;
    SoFarNone(done, mirrors, blocks, result);
    CanNone(can, mirrors, blocks, result);
    for i := 0 to |blocks|
      invariant SoFar(done, mirrors, blocks, i, result, now, changed)
      invariant CanSoFar(can, mirrors, blocks, i, result) && Storable(now, MAX_DEPTH)
    {
      var b := blocks[i];
      assert b in blocks;
      SoFarHere(done, mirrors, blocks, i, result, now, changed);
      CanMore(can, mirrors, blocks, i, result);
      if b in mirrors {
        SoFarLeft(done, mirrors, blocks, i, result, now, changed);
        continue;
      }
      var text := TextAt(now, b);
      var edited := EditBlock(c, text.value, steps, op);
      if edited.Err? {
        return Err(edited.error), false;
      }
      if edited.value.1 {
        SoFarWritten(done, mirrors, blocks, i, result, now, changed, edited.value.0);
        PutStrIsStorable(now, b.Where(), edited.value.0, MAX_DEPTH);
        now := Put(now, b.Where(), Str(edited.value.0));
        changed := true;
      } else {
        SoFarLeft(done, mirrors, blocks, i, result, now, changed);
      }
    }
    SoFarAll(done, mirrors, blocks, result, now, changed);
    CanAll(can, mirrors, blocks, result);
    r := Ok(now);
  }

  /** What a path edit leaves: the structure, and the JSON in each block that is no
    * mirror, edited at every place the path names, and nothing else changed. */
  ghost predicate PathDone(
      c: Codec, mirrors: seq<Block>, steps: seq<string>, op: Op, before: Value, after: Value, changes: seq<Change>)
  {
    && PathDoneAt(op, steps, At(before, STRUCTURE), At(after, STRUCTURE), changes)
    && BlocksDone(Editing(c, steps, op), mirrors, before, after)
    && ElseSame(before, after)
  }

  ghost predicate PathDoneAt(
      op: Op, steps: seq<string>, before: Option<Value>, after: Option<Value>, changes: seq<Change>)
  {
    match before
    case None => after.None? && changes == []
    case Some(v) =>
      && after.Some?
      && EditSoFar(op, PlacesIn(v, steps, []), |PlacesIn(v, steps, [])|, v, after.value, changes)
  }

  ghost predicate PathCan(c: Codec, mirrors: seq<Block>, steps: seq<string>, op: Op, result: Value) {
    && (At(result, STRUCTURE).Some? ==>
          CanEdit(op, PlacesIn(At(result, STRUCTURE).value, steps, []), At(result, STRUCTURE).value))
    && BlocksCan(Editable(c, steps, op), mirrors, result)
  }

  /** Edits the places a path names, in the structure and in each block of JSON that is no mirror. */
  method EditPath(c: Codec, result: Value, mirrors: seq<Block>, path: string, op: Op)
    returns (r: Result<Value, Fault>, changed: bool, changes: seq<Change>)
    requires Faithful(c) && Storable(result, MAX_DEPTH)
    requires forall b :: b in mirrors ==> TextAt(result, b).Some?
    ensures r.Ok? <==> PathCan(c, mirrors, Split(path, '.'), op, result)
    ensures r.Ok? ==> PathDone(c, mirrors, Split(path, '.'), op, result, r.value, changes)
    ensures r.Ok? ==> EditKept(mirrors, result, r.value, changes, changed) && (changed <==> r.value != result)
  {
    hide EditSoFar, EditDone, PlacesIn, CanEdit, BlocksDone, BlocksCan, ElseSame, SomeTextDiffers, At, Put, TextAt,
         Storable, Faithful, AllApply, Applied;
    var steps := Split(path, '.');
    SplitIsSome(path);
    var one := result;
    changed, changes := false, [];
    SameElse(result);
    var structured := At(result, STRUCTURE);
    if structured.Some? {
      StructureIsStorable(result);
      var edited;
      edited, changes := EditAt(structured.value, steps, op);
      if edited.Err? {
        return Err(edited.error), false, [];
      }
      EditIsDone(op, steps, structured.value, edited.value, changes);
      AppliedIsStorable(structured.value, changes, MAX_DEPTH - 1);
      one := Put(result, STRUCTURE, edited.value);
      StructurePut(result, edited.value);
      if changes == [] { PutBack(result, STRUCTURE); }
      changed := changes != [];
    }
    assert forall b :: TextAt(one, b) == TextAt(result, b);
    var blocks, texts := EditBlocks(c, one, mirrors, steps, op);
    SameTexts(Editable(c, steps, op), mirrors, result, one);
    if blocks.Err? {
      return Err(blocks.error), false, [];
    }
    changed := changed || texts;
    if texts { TextsDiffer(result, one, blocks.value); }
    ElseStays(result, one, blocks.value);
    TextsDone(Editing(c, steps, op), mirrors, result, one, blocks.value);
    r := blocks;
  }

  lemma {:induction false} SplitIsSome(path: string)
    ensures Split(path, '.') != []
  {
  }

  lemma {:induction false} EditIsDone(op: Op, steps: seq<string>, v: Value, w: Value, changes: seq<Change>)
    requires EditSoFar(op, PlacesIn(v, steps, []), |PlacesIn(v, steps, [])|, v, w, changes)
    ensures EditDone(op, steps, v, w) && AllApply(v, changes) && w == Applied(v, changes)
  {
    hide PlacesIn, At, AllApply, Applied, WellFormed, Part, Edited, AtPlace, ToChange;
  }

  lemma {:induction false} StructurePut(result: Value, x: Value)
    requires Storable(result, MAX_DEPTH) && Storable(x, MAX_DEPTH - 1) && At(result, STRUCTURE).Some?
    ensures var one := Put(result, STRUCTURE, x);
            && Storable(one, MAX_DEPTH) && At(one, STRUCTURE) == Some(x) && ElseSame(result, one)
            && forall b :: TextAt(one, b) == TextAt(result, b)
  {
    hide At, Put, TextAt, Storable, Outside;
    PutIsStorable(result, STRUCTURE, x, MAX_DEPTH);
    PutThere(result, STRUCTURE, x);
    StructureIsWritten();
    PutOutside(result, STRUCTURE, x, []);
    forall b ensures TextAt(Put(result, STRUCTURE, x), b) == TextAt(result, b) { StructureWritten(result, x, b); }
  }

  lemma {:induction false} SameTexts(can: string -> bool, mirrors: seq<Block>, result: Value, one: Value)
    requires forall b :: TextAt(one, b) == TextAt(result, b)
    ensures BlocksCan(can, mirrors, one) <==> BlocksCan(can, mirrors, result)
  {
    hide TextAt;
  }

  lemma {:induction false} TextsDiffer(result: Value, one: Value, two: Value)
    requires (forall b :: TextAt(one, b) == TextAt(result, b)) && SomeTextDiffers(one, two)
    ensures two != result
  {
    hide TextAt;
  }

  lemma {:induction false} TextsDone(done: Judge, mirrors: seq<Block>, result: Value, one: Value, two: Value)
    requires (forall b :: TextAt(one, b) == TextAt(result, b)) && BlocksDone(done, mirrors, one, two)
    ensures BlocksDone(done, mirrors, result, two)
    ensures (forall b :: b in mirrors ==> TextAt(result, b).Some?) ==>
              forall b :: b in mirrors ==> TextAt(two, b) == TextAt(result, b)
  {
    hide TextAt;
    forall b ensures BlockLeft(done, mirrors, b, TextAt(result, b), TextAt(two, b)) {
      assert BlockLeft(done, mirrors, b, TextAt(one, b), TextAt(two, b));
    }
  }

  lemma {:induction false} ElseStays(u: Value, v: Value, w: Value)
    requires ElseSame(u, v) && ElseSame(v, w)
    ensures ElseSame(u, w)
  {
    hide Outside;
    OutsideStays(u, v, w, []);
  }

  // ----- Masks and cuts

  predicate IsControl(ch: char) { ch as int < 0x20 || 0x7f <= ch as int < 0xa0 }

  /** The characters of a rule's name that a JSON string can hold as they are. */
  function Plain(rule: string): (r: string)
    ensures forall i :: 0 <= i < |r| ==> Shown(r[i])
    ensures (forall i :: 0 <= i < |rule| ==> Shown(rule[i])) ==> r == rule
  {
    if rule == "" then ""
    else
      assert rule == [rule[0]] + rule[1..];
      (if Shown(rule[0]) then [rule[0]] else "") + Plain(rule[1..])
  }

  predicate Shown(ch: char) { ch != '"' && ch != '\\' && !IsControl(ch) }

  /** Every other character stays, and in its order: what two stretches of a name show
    * is what each of them does, one after the other. */
  lemma {:induction false} PlainKeepsOrder(a: string, b: string)
    ensures Plain(a + b) == Plain(a) + Plain(b)
  {
    if a == "" {
      assert a + b == b;
    } else {
      assert (a + b)[1..] == a[1..] + b;
      PlainKeepsOrder(a[1..], b);
    }
  }

  /** One character stays exactly when it is no quote, backslash or control character. */
  lemma {:induction false} PlainOfOne(ch: char)
    ensures Plain([ch]) ==
            if ch == '"' || ch == '\\' || ch as int < 0x20 || 0x7f <= ch as int <= 0x9f then "" else [ch]
  {
  }

  /** A mask looks like what a redaction puts in a secret's place. */
  lemma {:induction false} MaskIsToken(rule: string)
    ensures MaskToken(rule) == Redaction.Token(Plain(rule))
  {
  }

  /** The token for a masked string: it names the rule. */
  function MaskToken(rule: string): string { "[REDACTED:" + Plain(rule) + "]" }

  function Bytes(text: string): nat { |Utf8.Encode(text)| }

  /** How many characters of a text fit in so many bytes. */
  function Fitting(text: string, max: nat): (k: nat)
    ensures k <= |text|
  {
    if text == "" || |Utf8.EncodeChar(text[0])| > max then 0
    else 1 + Fitting(text[1..], max - |Utf8.EncodeChar(text[0])|)
  }

  /** What a cut leaves: a text that fits as it is; of any other as much of its front as
    * fits, and the two lengths in bytes. */
  lemma {:induction false} CutTextIs(text: string, max: nat)
    ensures |Utf8.Encode(text)| <= max ==> CutText(text, max) == text
    ensures |Utf8.Encode(text)| > max ==>
              var k := Fitting(text, max);
              && k < |text| && |Utf8.Encode(text[..k])| <= max < |Utf8.Encode(text[..k + 1])|
              && CutText(text, max) ==
                 text[..k] + ("\n[MCPdef cut this text from " + Decimal(|Utf8.Encode(text)|) + " bytes to "
                              + Decimal(|Utf8.Encode(text[..k])|) + "]")
  {
    hide Utf8.Encode, Decimal, Fitting;
    FittingIsMost(text, max);
    assert text[..|text|] == text;
  }

  /** As many as fit, and no fewer. */
  lemma {:induction false} FittingIsMost(text: string, max: nat)
    ensures var k := Fitting(text, max);
            Bytes(text[..k]) <= max && (k < |text| ==> Bytes(text[..k + 1]) > max)
  {
    hide Utf8.EncodeChar;
    var k := Fitting(text, max);
    if k > 0 {
      FittingIsMost(text[1..], max - |Utf8.EncodeChar(text[0])|);
      assert text[..k][1..] == text[1..][..k - 1];
      if k < |text| { assert text[..k + 1][1..] == text[1..][..k]; }
    } else if text != "" {
      assert text[..1][1..] == "" && text[..1][0] == text[0];
      assert Utf8.Encode("") == [];
    }
  }

  /** A text cut to at most `max` bytes, saying so, when it has more. */
  function CutText(text: string, max: nat): string {
    if Bytes(text) <= max then text
    else
      var kept := text[..Fitting(text, max)];
      kept + (CUT_FROM + Decimal(Bytes(text)) + CUT_TO + Decimal(Bytes(kept)) + "]")
  }

  ghost function Cutting(max: nat): Judge { (s, t) => t == CutText(s, max) }

  /** Some block that is no mirror has more than `max` bytes. */
  ghost predicate SomeOver(result: Value, mirrors: seq<Block>, max: nat) {
    exists b :: IsOver(result, mirrors, max, b)
  }

  ghost predicate IsOver(result: Value, mirrors: seq<Block>, max: nat, b: Block) {
    b !in mirrors && TextAt(result, b).Some? && Bytes(TextAt(result, b).value) > max
  }

  /** Some block that is no mirror is not its own cut. */
  ghost predicate SomeCut(result: Value, mirrors: seq<Block>, max: nat) {
    exists b :: IsCut(result, mirrors, max, b)
  }

  ghost predicate IsCut(result: Value, mirrors: seq<Block>, max: nat, b: Block) {
    b !in mirrors && TextAt(result, b).Some? && CutText(TextAt(result, b).value, max) != TextAt(result, b).value
  }

  /** Cuts down to `max` bytes every text block that is no mirror. It reports a change when
    * a block is over; nothing has changed, for all that, exactly when each of those
    * over is the very text its cut would be. */
  method Truncate(result: Value, mirrors: seq<Block>, max: nat) returns (after: Value, changed: bool)
    requires Storable(result, MAX_DEPTH)
    ensures BlocksDone(Cutting(max), mirrors, result, after)
    ensures At(after, STRUCTURE) == At(result, STRUCTURE) && ElseSame(result, after) && Storable(after, MAX_DEPTH)
    ensures changed <==> SomeOver(result, mirrors, max)
    ensures after != result <==> SomeCut(result, mirrors, max)
  {
    hide SoFar, BlocksDone, ElseSame, At, Put, TextAt, SomeTextDiffers, SomeCut, Storable, CutText, Bytes;
    ghost var done := Cutting(max);
    ghost var differs := false;
    var blocks := Blocks(result);
    after, changed := result, false;
    SoFarNone(done, mirrors, blocks, result);
    for i := 0 to |blocks|
      invariant SoFar(done, mirrors, blocks, i, result, after, differs) && Storable(after, MAX_DEPTH)
      invariant changed ==> SomeOver(result, mirrors, max)
      invariant !changed ==> forall k :: 0 <= k < i ==> !IsOver(result, mirrors, max, blocks[k])
    {
      var b := blocks[i];
      assert b in blocks;
      SoFarHere(done, mirrors, blocks, i, result, after, differs);
      if b in mirrors {
        SoFarLeft(done, mirrors, blocks, i, result, after, differs);
        continue;
      }
      var text := TextAt(after, b).value;
      if Bytes(text) > max {
        assert IsOver(result, mirrors, max, b);
        var cut := CutText(text, max);
        if cut != text {
          SoFarWritten(done, mirrors, blocks, i, result, after, differs, cut);
          PutStrIsStorable(after, b.Where(), cut, MAX_DEPTH);
          after, differs := Put(after, b.Where(), Str(cut)), true;
        } else {
          SoFarLeft(done, mirrors, blocks, i, result, after, differs);
        }
        changed := true;
      } else {
        NotCut(text, max);
        SoFarLeft(done, mirrors, blocks, i, result, after, differs);
      }
    }
    SoFarAll(done, mirrors, blocks, result, after, differs);
    CutsDiffer(result, mirrors, max, after, differs);
    if !changed { NoneOver(result, mirrors, max, blocks); }
  }

  lemma {:induction false} NoneOver(result: Value, mirrors: seq<Block>, max: nat, blocks: seq<Block>)
    requires forall b :: b in blocks <==> TextAt(result, b).Some?
    requires forall k :: 0 <= k < |blocks| ==> !IsOver(result, mirrors, max, blocks[k])
    ensures !SomeOver(result, mirrors, max)
  {
    hide TextAt, Bytes;
    forall b ensures !IsOver(result, mirrors, max, b) {
      if b in blocks { var k :| 0 <= k < |blocks| && blocks[k] == b; }
    }
  }

  lemma {:induction false} CutsDiffer(result: Value, mirrors: seq<Block>, max: nat, after: Value, differs: bool)
    requires BlocksDone(Cutting(max), mirrors, result, after)
    requires if differs then SomeTextDiffers(result, after) else after == result
    ensures after != result <==> SomeCut(result, mirrors, max)
  {
    hide TextAt, CutText;
    if differs {
      var b :| TextAt(after, b) != TextAt(result, b);
      assert BlockLeft(Cutting(max), mirrors, b, TextAt(result, b), TextAt(after, b));
      assert IsCut(result, mirrors, max, b);
    }
    if b :| IsCut(result, mirrors, max, b) {
      assert BlockLeft(Cutting(max), mirrors, b, TextAt(result, b), TextAt(after, b));
    }
  }

  predicate Ascii(text: string) { forall i :: 0 <= i < |text| ==> text[i] as int < 0x80 }

  lemma {:induction false} AsciiBytes(text: string)
    requires Ascii(text)
    ensures Bytes(text) == |text|
  {
    if text != "" { AsciiBytes(text[1..]); }
  }

  const CUT_FROM: string := "\n[MCPdef cut this text from "
  const CUT_TO: string := " bytes to "
  const OWN_CUT: string := CUT_FROM + "42" + CUT_TO + "0" + "]"

  /** A text that is over, and is its own cut: reported as changed, it is not. */
  lemma {:induction false} OwnCutIsReported()
    ensures Bytes(OWN_CUT) > 0 && CutText(OWN_CUT, 0) == OWN_CUT
  {
    OwnCutIsAscii();
    AsciiBytes(OWN_CUT);
    hide CUT_FROM, CUT_TO, Bytes, Utf8.Encode;
    FittingNone(OWN_CUT);
    FortyTwo();
  }

  lemma {:induction false} OwnCutIsAscii()
    ensures Ascii(OWN_CUT) && |OWN_CUT| == 42
  {
    CutFromIsAscii();
    CutToIsAscii();
    hide CUT_FROM, CUT_TO;
  }

  lemma {:induction false} CutFromIsAscii()
    ensures Ascii(CUT_FROM) && |CUT_FROM| == 28
  {
  }

  lemma {:induction false} CutToIsAscii()
    ensures Ascii(CUT_TO) && |CUT_TO| == 10
  {
  }

  lemma {:induction false} FortyTwo()
    ensures Decimal(42) == "42" && Decimal(0) == "0"
  {
  }

  lemma {:induction false} FittingNone(text: string)
    ensures Fitting(text, 0) == 0 && Bytes(text[..0]) == 0
  {
    hide Utf8.EncodeChar;
  }

  lemma {:induction false} NotCut(text: string, max: nat)
    requires Bytes(text) <= max
    ensures CutText(text, max) == text
  {
  }

  lemma {:induction false} TruncateKeeps(done: Judge, mirrors: seq<Block>, before: Value, after: Value, changed: bool)
    requires BlocksDone(done, mirrors, before, after) && Storable(after, MAX_DEPTH) &&
             At(after, STRUCTURE) == At(before, STRUCTURE)
    requires (forall b :: b in mirrors ==> TextAt(before, b).Some?) && (!changed ==> after == before)
    ensures EditKept(mirrors, before, after, [], changed)
  {
    hide TextAt, At, Storable;
    forall b | b in mirrors ensures TextAt(after, b) == TextAt(before, b) {
      assert BlockLeft(done, mirrors, b, TextAt(before, b), TextAt(after, b));
    }
  }

  // ----- A rule's edits, in order

  datatype ResultEdit = RedactSecrets | MaskAt(path: string) | RemoveAt(path: string) | TruncateTexts(max: nat)

  datatype Failure = NoDetector | Failed(fault: Fault) | AgainstSchema

  /** When one edit can be made. */
  ghost predicate OneCan(
      c: Codec, edit: ResultEdit, rule: string, det: Option<Detector>, mirrors: seq<Block>, before: Value)
  {
    match edit
    case RedactSecrets => det.Some? && Can(det.value, false, c, mirrors, before)
    case MaskAt(path) => PathCan(c, mirrors, Split(path, '.'), Mask(MaskToken(rule)), before)
    case RemoveAt(path) => PathCan(c, mirrors, Split(path, '.'), Take, before)
    case TruncateTexts(_) => true
  }

  /** What one edit leaves, and whether it reports a change. */
  ghost predicate OneDone(
      c: Codec, edit: ResultEdit, rule: string, det: Option<Detector>, mirrors: seq<Block>,
      before: Value, after: Value, changes: seq<Change>, changed: bool)
  {
    && (if edit.TruncateTexts? then changed <==> SomeOver(before, mirrors, edit.max) else changed <==> after != before)
    && match edit
       case RedactSecrets => det.Some? && Done(det.value, false, c, mirrors, before, after, changes)
       case MaskAt(path) => PathDone(c, mirrors, Split(path, '.'), Mask(MaskToken(rule)), before, after, changes)
       case RemoveAt(path) => PathDone(c, mirrors, Split(path, '.'), Take, before, after, changes)
       case TruncateTexts(max) =>
         && BlocksDone(Cutting(max), mirrors, before, after)
         && At(after, STRUCTURE) == At(before, STRUCTURE) && ElseSame(before, after) && changes == []
  }

  /** The structure's changes pass the schema check, if there is a schema. */
  ghost predicate Allowed(schema: Option<Value>, after: Value, changes: seq<Change>) {
    schema.Some? && At(after, STRUCTURE).Some? ==> AllAllowed(schema.value, At(after, STRUCTURE).value, changes)
  }

  /** Makes one edit to a result, and checks what it did to the structure. */
  method ApplyOne(
      c: Codec, edit: ResultEdit, rule: string, result: Value, mirrors: seq<Block>, schema: Option<Value>,
      det: Option<Detector>)
    returns (r: Result<Value, Failure>, changed: bool, changes: seq<Change>, ghost made: Value)
    requires Faithful(c) && Storable(result, MAX_DEPTH)
    requires forall b :: b in mirrors ==> TextAt(result, b).Some?
    ensures OneCan(c, edit, rule, det, mirrors, result) ==>
              && EditKept(mirrors, result, made, changes, changed)
              && OneDone(c, edit, rule, det, mirrors, result, made, changes, changed)
    ensures r.Ok? <==> OneCan(c, edit, rule, det, mirrors, result) && Allowed(schema, made, changes)
    ensures r.Ok? ==> r.value == made
    ensures r.Err? ==>
              match r.error
              case NoDetector => edit.RedactSecrets? && det.None?
              case Failed(_) => !OneCan(c, edit, rule, det, mirrors, result) && (edit.RedactSecrets? ==> det.Some?)
              case AgainstSchema => OneCan(c, edit, rule, det, mirrors, result)
  {
    hide EditKept, Done, PathDone, PathCan, Can, BlocksDone, ElseSame, SomeOver, SomeCut, Storable, Faithful,
         AllAllowed, TextAt, At, MaskToken, Split;
    var after := result;
    changed, changes, made := false, [], result;
    match edit {
      case RedactSecrets =>
        if det.None? {
          r := Err(NoDetector);
          return;
        }
        var redacted;
        redacted, changed, changes := ResultRedaction.Redact(det.value, false, c, result, mirrors);
        if redacted.Err? {
          r := Err(Failed(redacted.error));
          return;
        }
        after := redacted.value;
        RedactKeeps(det.value, false, c, mirrors, result, after, changes, changed);
      case MaskAt(path) =>
        var masked;
        masked, changed, changes := EditPath(c, result, mirrors, path, Mask(MaskToken(rule)));
        if masked.Err? {
          r := Err(Failed(masked.error));
          return;
        }
        after := masked.value;
      case RemoveAt(path) =>
        var taken;
        taken, changed, changes := EditPath(c, result, mirrors, path, Take);
        if taken.Err? {
          r := Err(Failed(taken.error));
          return;
        }
        after := taken.value;
      case TruncateTexts(max) =>
        after, changed := Truncate(result, mirrors, max);
        CutIsOver(result, mirrors, max);
        TruncateKeeps(Cutting(max), mirrors, result, after, changed);
    }
    made := after;
    KeptStructure(mirrors, result, after, changes, changed);
    if At(after, STRUCTURE).Some? {
      var ok := Checked(schema, At(after, STRUCTURE).value, changes);
      if !ok {
        r := Err(AgainstSchema);
        return;
      }
    }
    r := Ok(after);
  }

  lemma {:induction false} CutIsOver(result: Value, mirrors: seq<Block>, max: nat)
    ensures SomeCut(result, mirrors, max) ==> SomeOver(result, mirrors, max)
  {
    hide TextAt;
    if b :| IsCut(result, mirrors, max, b) {
      assert IsOver(result, mirrors, max, b);
    }
  }

  lemma {:induction false} KeptStructure(
      mirrors: seq<Block>, before: Value, after: Value, changes: seq<Change>, changed: bool)
    requires EditKept(mirrors, before, after, changes, changed)
    ensures At(after, STRUCTURE).Some? <==> At(before, STRUCTURE).Some?
    ensures At(before, STRUCTURE).None? ==> changes == []
    ensures Storable(after, MAX_DEPTH) && forall b :: b in mirrors ==> TextAt(after, b) == TextAt(before, b)
    ensures !changed ==> after == before
    ensures changes == [] ==> At(after, STRUCTURE) == At(before, STRUCTURE)
    ensures changes != [] ==> changed
  {
    hide At, TextAt, Storable, Applies, Apply;
  }

  /** A value that keeps to its schema. */
  ghost predicate Fits(more: Scalars, schema: Option<Value>, v: Value) {
    schema.Some? && Neutral(more) && Validates(more, schema.value, v)
  }

  /** The unions that a structure's changes meet are firm, and have room for its removals
    * when each is made. */
  ghost predicate HasRoom(schema: Value, before: Value, changes: seq<Change>) {
    At(before, STRUCTURE).Some? ==>
      AllApply(At(before, STRUCTURE).value, changes) && RoomAlong(schema, At(before, STRUCTURE).value, changes)
  }

  /** An edit keeps a structure that fits its schema fitting it, so long as the unions
    * its changes meet are firm and have room. */
  lemma {:induction false} EditKeepsFit(
      more: Scalars, schema: Option<Value>, mirrors: seq<Block>, before: Value, after: Value,
      changes: seq<Change>, changed: bool)
    requires EditKept(mirrors, before, after, changes, changed) && Storable(before, MAX_DEPTH)
    requires At(before, STRUCTURE).Some? && Fits(more, schema, At(before, STRUCTURE).value)
    requires Allowed(schema, after, changes) && HasRoom(schema.value, before, changes)
    ensures At(after, STRUCTURE).Some? && Fits(more, schema, At(after, STRUCTURE).value)
  {
    hide At, TextAt, Storable, Neutral, Validates, AllAllowed, AllApply, Applied, RoomAlong;
    StructureIsStorable(before);
    CheckedEditKeepsValid(
      more, schema.value, At(before, STRUCTURE).value, changes, At(after, STRUCTURE).value);
  }

  /** An edit has room whose removals meet no union and its other changes none but firm ones. */
  lemma {:induction false} EditWithoutUnionsHasRoom(
      schema: Option<Value>, mirrors: seq<Block>, before: Value, after: Value, changes: seq<Change>, changed: bool)
    requires EditKept(mirrors, before, after, changes, changed) && Storable(before, MAX_DEPTH) && schema.Some?
    requires Allowed(schema, after, changes) && NoUnionsMet(schema.value, changes)
    ensures HasRoom(schema.value, before, changes)
  {
    hide At, TextAt, Storable, AllAllowed, NoUnionsMet, AllApply, Applied, RoomAlong;
    if At(before, STRUCTURE).Some? {
      StructureIsStorable(before);
      RoomWithoutUnionsMet(
        schema.value, At(before, STRUCTURE).value, changes, At(after, STRUCTURE).value);
    }
  }

  /** What a run of edits did: what it left after each, the changes each made to the
    * structure, and what each reported. */
  datatype Trace = Trace(values: seq<Value>, changes: seq<seq<Change>>, flags: seq<bool>)

  /** A run of edits, as it went: one from another, and the schema check passed by all. */
  ghost predicate Ran(
      c: Codec, edits: seq<ResultEdit>, rule: string, det: Option<Detector>, mirrors: seq<Block>,
      schema: Option<Value>, t: Trace)
  {
    && |t.values| == |edits| + 1 && |t.changes| == |edits| && |t.flags| == |edits|
    && forall i :: 0 <= i < |edits| ==>
         && OneDone(c, edits[i], rule, det, mirrors, t.values[i], t.values[i + 1], t.changes[i], t.flags[i])
         && Allowed(schema, t.values[i + 1], t.changes[i])
  }

  function TraceOn(t: Trace, after: Value, changes: seq<Change>, flag: bool): Trace {
    Trace(t.values + [after], t.changes + [changes], t.flags + [flag])
  }

  lemma {:induction false} RanOn(
      c: Codec, edits: seq<ResultEdit>, rule: string, det: Option<Detector>, mirrors: seq<Block>,
      schema: Option<Value>, t: Trace, k: nat, after: Value, changes: seq<Change>, flag: bool)
    requires k < |edits| && Ran(c, edits[..k], rule, det, mirrors, schema, t)
    requires OneDone(c, edits[k], rule, det, mirrors, t.values[k], after, changes, flag) &&
             Allowed(schema, after, changes)
    ensures Ran(c, edits[..k + 1], rule, det, mirrors, schema, TraceOn(t, after, changes, flag))
  {
    hide OneDone, Allowed;
  }

  /** The edit a run stops at: it cannot be made, or the schema does not allow what it did. */
  ghost predicate StopsAt(
      c: Codec, edit: ResultEdit, rule: string, det: Option<Detector>, mirrors: seq<Block>,
      schema: Option<Value>, before: Value)
  {
    || !OneCan(c, edit, rule, det, mirrors, before)
    || exists after, changes, flag ::
         && OneDone(c, edit, rule, det, mirrors, before, after, changes, flag)
         && EditKept(mirrors, before, after, changes, flag)
         && !Allowed(schema, after, changes)
  }

  /** Every edit of a run has room for its removals. */
  ghost predicate RoomThroughout(schema: Value, t: Trace) {
    |t.values| > |t.changes| && forall i :: 0 <= i < |t.changes| ==> HasRoom(schema, t.values[i], t.changes[i])
  }

  /** The mirrors are written again when the structure changed, and only then. */
  ghost predicate MirrorsFollow(c: Codec, mirrors: seq<Block>, all: seq<seq<Change>>, last: Value, after: Value) {
    if forall i :: 0 <= i < |all| ==> all[i] == [] then after == last else MirrorsWritten(c, mirrors, last, after)
  }

  /** Every mirror there was holds the structure there is. */
  ghost predicate MirrorsHold(c: Codec, result: Value, after: Value) {
    forall b :: IsMirror(c, result, b) ==>
      At(after, STRUCTURE).Some? && TextAt(after, b).Some? && c.parse(TextAt(after, b).value) == At(after, STRUCTURE)
  }

  /** Makes a rule's edits, in order. */
  method ApplyEdits(
      c: Codec, edits: seq<ResultEdit>, rule: string, result: Value, schema: Option<Value>, det: Option<Detector>,
      ghost more: Scalars)
    returns (r: Result<(Value, bool), Failure>, ghost mirrors: seq<Block>, ghost t: Trace)
    requires Faithful(c) && Storable(result, MAX_DEPTH)
    ensures forall b :: b in mirrors <==> IsMirror(c, result, b)
    ensures |t.changes| <= |edits| && Ran(c, edits[..|t.changes|], rule, det, mirrors, schema, t) &&
            t.values[0] == result
    ensures r.Ok? <==> |t.changes| == |edits|
    ensures r.Err? ==> StopsAt(c, edits[|t.changes|], rule, det, mirrors, schema, t.values[|t.changes|])
    ensures r.Ok? ==>
              MirrorsFollow(c, mirrors, t.changes, t.values[|edits|], r.value.0) && MirrorsHold(c, result, r.value.0)
    ensures r.Ok? ==> (r.value.1 <==> true in t.flags) && (!r.value.1 ==> r.value.0 == result)
    ensures r.Ok? && schema.Some? && At(result, STRUCTURE).Some? && Fits(more, schema, At(result, STRUCTURE).value) &&
            RoomThroughout(schema.value, t) ==>
              At(r.value.0, STRUCTURE).Some? && Fits(more, schema, At(r.value.0, STRUCTURE).value)
  {
    hide EditKept, Allowed, TextAt, At, Storable, Faithful, IsMirror, MirrorsWritten, Fits, HasRoom, RoomThroughout,
         ElseSame, OneDone, OneCan, Ran, StopsAt, MirrorsFollow, MirrorsHold;
    t := Trace([result], [], []);
    var written := Mirrors(c, result);
    mirrors := written;
    RanNone(c, edits, rule, det, mirrors, schema, result);
    MirrorTexts(c, result, mirrors);
    var now := result;
    var changed, restructured := false, false;
    ghost var fits := schema.Some? && At(result, STRUCTURE).Some? && Fits(more, schema, At(result, STRUCTURE).value);
    for i := 0 to |edits|
      invariant |t.values| == i + 1 && |t.changes| == i && t.values[0] == result && t.values[i] == now
      invariant Storable(now, MAX_DEPTH)
      invariant Ran(c, edits[..i], rule, det, mirrors, schema, t)
      invariant changed <==> true in t.flags
      invariant restructured <==> !forall k :: 0 <= k < |t.changes| ==> t.changes[k] == []
      invariant forall b :: b in mirrors ==> TextAt(now, b) == TextAt(result, b)
      invariant At(now, STRUCTURE).Some? <==> At(result, STRUCTURE).Some?
      invariant !restructured ==> At(now, STRUCTURE) == At(result, STRUCTURE)
      invariant (!changed ==> now == result) && (restructured ==> changed && At(result, STRUCTURE).Some?)
      invariant fits && RoomThroughout(schema.value, t) ==> Fits(more, schema, At(now, STRUCTURE).value)
    {
      var edited, one, changes, made := ApplyOne(c, edits[i], rule, now, written, schema, det);
      if edited.Err? {
        r := Err(edited.error);
        StoppedAt(c, edits[i], rule, det, mirrors, schema, now, made, changes, one);
        return;
      }
      KeptStructure(mirrors, now, made, changes, one);
      if fits && RoomThroughout(schema.value, TraceOn(t, made, changes, one)) {
        RoomSplit(schema.value, t, made, changes, one);
        EditKeepsFit(more, schema, mirrors, now, made, changes, one);
      }
      RanOn(c, edits, rule, det, mirrors, schema, t, i, made, changes, one);
      AnyChanged(t.changes, changes);
      t := TraceOn(t, made, changes, one);
      changed := changed || one;
      now := edited.value;
      restructured := restructured || changes != [];
    }
    assert edits[..|edits|] == edits;
    FollowsNow(c, mirrors, t.changes, now);
    if restructured {
      var after := WriteMirrors(c, now, written);
      MirrorsAfter(c, result, mirrors, now, after);
      now := after;
    } else {
      MirrorsLeft(c, result, mirrors, now);
    }
    r := Ok((now, changed));
  }

  lemma {:induction false} RanNone(
      c: Codec, edits: seq<ResultEdit>, rule: string, det: Option<Detector>, mirrors: seq<Block>,
      schema: Option<Value>, result: Value)
    ensures Ran(c, edits[..0], rule, det, mirrors, schema, Trace([result], [], []))
  {
  }

  lemma {:induction false} StoppedAt(
      c: Codec, edit: ResultEdit, rule: string, det: Option<Detector>, mirrors: seq<Block>,
      schema: Option<Value>, before: Value, made: Value, changes: seq<Change>, flag: bool)
    requires OneCan(c, edit, rule, det, mirrors, before) ==>
               && EditKept(mirrors, before, made, changes, flag)
               && OneDone(c, edit, rule, det, mirrors, before, made, changes, flag)
               && !Allowed(schema, made, changes)
    ensures StopsAt(c, edit, rule, det, mirrors, schema, before)
  {
    hide OneCan, EditKept, OneDone, Allowed;
  }

  lemma {:induction false} RoomSplit(schema: Value, t: Trace, after: Value, changes: seq<Change>, flag: bool)
    requires |t.values| == |t.changes| + 1 && RoomThroughout(schema, TraceOn(t, after, changes, flag))
    ensures RoomThroughout(schema, t) && HasRoom(schema, t.values[|t.changes|], changes)
  {
    hide HasRoom;
    var u := TraceOn(t, after, changes, flag);
    forall i | 0 <= i < |t.changes| ensures HasRoom(schema, t.values[i], t.changes[i]) {
      assert u.values[i] == t.values[i] && u.changes[i] == t.changes[i];
    }
    assert u.values[|t.changes|] == t.values[|t.changes|] && u.changes[|t.changes|] == changes;
  }

  lemma {:induction false} AnyChanged(all: seq<seq<Change>>, changes: seq<Change>)
    ensures (forall k :: 0 <= k < |all + [changes]| ==> (all + [changes])[k] == []) <==>
            (forall k :: 0 <= k < |all| ==> all[k] == []) && changes == []
  {
    var more := all + [changes];
    if forall k :: 0 <= k < |more| ==> more[k] == [] {
      assert more[|all|] == changes;
      forall k | 0 <= k < |all| ensures all[k] == [] { assert more[k] == all[k]; }
    }
  }

  lemma {:induction false} FollowsNow(c: Codec, mirrors: seq<Block>, all: seq<seq<Change>>, last: Value)
    ensures if forall k :: 0 <= k < |all| ==> all[k] == [] then MirrorsFollow(c, mirrors, all, last, last)
            else forall after :: MirrorsWritten(c, mirrors, last, after) ==> MirrorsFollow(c, mirrors, all, last, after)
  {
    hide MirrorsWritten;
  }

  lemma {:induction false} MirrorTexts(c: Codec, result: Value, mirrors: seq<Block>)
    requires forall b :: b in mirrors <==> IsMirror(c, result, b)
    ensures forall b :: b in mirrors ==> TextAt(result, b).Some?
  {
    hide TextAt, At;
  }

  lemma {:induction false} MirrorsAfter(c: Codec, result: Value, mirrors: seq<Block>, now: Value, after: Value)
    requires forall b :: b in mirrors <==> IsMirror(c, result, b)
    requires forall b :: b in mirrors ==> TextAt(now, b) == TextAt(result, b)
    requires At(now, STRUCTURE).Some? && MirrorsWritten(c, mirrors, now, after)
    ensures MirrorsHold(c, result, after) && At(after, STRUCTURE) == At(now, STRUCTURE)
  {
    hide TextAt, At, ElseSame;
  }

  lemma {:induction false} MirrorsLeft(c: Codec, result: Value, mirrors: seq<Block>, now: Value)
    requires forall b :: b in mirrors <==> IsMirror(c, result, b)
    requires forall b :: b in mirrors ==> TextAt(now, b) == TextAt(result, b)
    requires At(now, STRUCTURE) == At(result, STRUCTURE)
    ensures MirrorsHold(c, result, now)
  {
    hide TextAt, At;
  }

  // ----- Redacting a whole result

  datatype Unredacted = UnsafeFound(rule: string) | SecretKept

  /** What a clean block is: free of hits in every key and string of its JSON, or in its text. */
  ghost predicate BlockClean(det: Detector, c: Codec, before: string, after: string) {
    match JsonIn(c, before)
    case None => Clean(det, true, after)
    case Some(_) =>
      && JsonIn(c, after).Some?
      && AllKeys(Cleaning(det, true), JsonIn(c, after).value)
      && Strings(Cleaning(det, true), JsonIn(c, after).value, [], NoSkip())
  }

  /** Nothing the detector finds is left: in a key, in the structure, in a block, in
    * another string, or in the result written out. */
  ghost predicate NothingLeft(det: Detector, c: Codec, result: Value, after: Value) {
    && (result.Obj? ==> AllKeys(Cleaning(det, true), after))
    && (At(after, STRUCTURE).Some? ==> Strings(Cleaning(det, true), At(after, STRUCTURE).value, [], NoSkip()))
    && MirrorsHold(c, result, after)
    && (forall b :: TextAt(result, b).Some? && !IsMirror(c, result, b) ==>
          TextAt(after, b).Some? && BlockClean(det, c, TextAt(result, b).value, TextAt(after, b).value))
    && Strings(Cleaning(det, true), after, [], ApartFrom())
    && det(c.show(after, false)) == []
  }

  /** What fitted the schema still does, when what was changed has room there. */
  ghost predicate KeepsFit(schema: Option<Value>, result: Value, changes: seq<Change>, after: Value) {
    schema.Some? && At(result, STRUCTURE).Some? && HasRoom(schema.value, result, changes) ==>
      && At(after, STRUCTURE).Some?
      && forall more :: Fits(more, schema, At(result, STRUCTURE).value) ==>
        Fits(more, schema, At(after, STRUCTURE).value)
  }

  lemma {:induction false} FitIsKept(
      schema: Option<Value>, mirrors: seq<Block>, result: Value, made: Value, changes: seq<Change>,
      changed: bool, after: Value)
    requires EditKept(mirrors, result, made, changes, changed) && Storable(result, MAX_DEPTH) &&
             Allowed(schema, made, changes)
    requires At(after, STRUCTURE) == At(made, STRUCTURE)
    ensures KeepsFit(schema, result, changes, after)
  {
    hide EditKept, At, Storable, Allowed, HasRoom, Fits;
    if schema.Some? && At(result, STRUCTURE).Some? && HasRoom(schema.value, result, changes) {
      KeptStructure(mirrors, result, made, changes, changed);
      forall more | Fits(more, schema, At(result, STRUCTURE).value)
        ensures Fits(more, schema, At(after, STRUCTURE).value)
      {
        EditKeepsFit(more, schema, mirrors, result, made, changes, changed);
      }
    }
  }

  /** Redacts every secret in a result, or refuses it. `made` is what the redaction left,
    * and `written` that with its mirrors written again. */
  method RedactResult(c: Codec, result: Value, schema: Option<Value>, det: Detector)
    returns (
      r: Result<Value, Unredacted>,
      ghost mirrors: seq<Block>, ghost made: Value, ghost changes: seq<Change>, ghost written: Value)
    requires Faithful(c) && Storable(result, MAX_DEPTH)
    ensures forall b :: b in mirrors <==> IsMirror(c, result, b)
    ensures Can(det, true, c, mirrors, result) ==> Done(det, true, c, mirrors, result, made, changes)
    ensures Can(det, true, c, mirrors, result) && Allowed(schema, made, changes) ==>
              MirrorsFollow(c, mirrors, [changes], made, written)
    ensures r.Ok? <==>
              Can(det, true, c, mirrors, result) && Allowed(schema, made, changes) && det(c.show(written, false)) == []
    ensures r.Ok? ==> r.value == written && NothingLeft(det, c, result, written)
    ensures r.Ok? ==> FoundNowhere(det, c, result, written)
    ensures r.Ok? ==> KeepsFit(schema, result, changes, written)
    ensures r.Err? && Can(det, true, c, mirrors, result) && Allowed(schema, made, changes) ==>
              (r.error.UnsafeFound? <==> exists h :: h in det(c.show(written, false)) && !h.secret)
  {
    hide Done, Can, TextAt, At, Storable, Faithful, IsMirror, MirrorsWritten, NothingLeft, AllKeys, Strings,
         MirrorsHold, AllAllowed, KeepsFit, EditKept;
    made, changes, written := result, [], result;
    var found := Mirrors(c, result);
    mirrors := found;
    MirrorTexts(c, result, mirrors);
    var redacted, changed, did := ResultRedaction.Redact(det, true, c, result, found);
    if redacted.Err? {
      r := Err(if redacted.error.Unsafe? then UnsafeFound(redacted.error.rule) else SecretKept);
      return;
    }
    var after := redacted.value;
    made, changes := after, did;
    RedactKeeps(det, true, c, mirrors, result, after, changes, changed);
    KeptStructure(mirrors, result, after, changes, changed);
    if At(after, STRUCTURE).Some? {
      var ok := Checked(schema, At(after, STRUCTURE).value, did);
      if !ok {
        r := Err(SecretKept);
        return;
      }
    }
    var last := after;
    if did != [] {
      last := WriteMirrors(c, after, found);
      MirrorsAfter(c, result, mirrors, after, last);
    } else {
      MirrorsLeft(c, result, mirrors, after);
      SameElse(after);
    }
    written := last;
    assert [changes][0] == changes;
    var left := det(c.show(last, false));
    var bad := FirstUnsafe(left);
    if bad.Some? {
      r := Err(UnsafeFound(bad.value.rule));
      return;
    }
    if left != [] {
      r := Err(SecretKept);
      return;
    }
    assert ElseSame(after, last) && (forall b :: b !in mirrors ==> TextAt(last, b) == TextAt(after, b)) by {
      if changes != [] { WrittenElse(c, mirrors, after, last); }
    }
    LeftNothing(det, c, mirrors, result, after, changes, last);
    LeftIsNowhere(det, c, result, last);
    FitIsKept(schema, mirrors, result, after, changes, changed, last);
    r := Ok(last);
  }

  lemma {:induction false} LeftIsNowhere(det: Detector, c: Codec, result: Value, after: Value)
    requires NothingLeft(det, c, result, after)
    ensures FoundNowhere(det, c, result, after)
  {
    hide At, AllKeys, Strings, CleanKeys, CleanStrings, CleanElsewhere, BlockClean, CleanBlock, MirrorsHold;
    if result.Obj? { KeysAreClean(det, after); }
    if At(after, STRUCTURE).Some? { StringsAreClean(det, At(after, STRUCTURE).value, []); }
    ElsewhereIsClean(det, after);
    forall at, s | IsBlockPath(at) && At(result, at) == Some(Str(s))
      ensures
        && At(after, at).Some? && At(after, at).value.Str?
        && if Mirroring(c, result, at) then c.parse(At(after, at).value.s) == At(after, [Key("structuredContent")])
           else CleanBlock(det, c, s, At(after, at).value.s)
    {
      BlockIsNowhere(det, c, result, after, at, s);
    }
  }

  lemma {:induction false} BlockIsNowhere(det: Detector, c: Codec, result: Value, after: Value, at: Path, s: string)
    requires NothingLeft(det, c, result, after) && IsBlockPath(at) && At(result, at) == Some(Str(s))
    ensures At(after, at).Some? && At(after, at).value.Str?
    ensures if Mirroring(c, result, at) then c.parse(At(after, at).value.s) == At(after, [Key("structuredContent")])
            else CleanBlock(det, c, s, At(after, at).value.s)
  {
    hide At, AllKeys, Strings, CleanElsewhere, BlockClean, CleanBlock;
    var i: nat :|
      at in {[Key("content"), Index(i), Key("text")], [Key("contents"), Index(i), Key("text")],
             [Key("content"), Index(i), Key("resource"), Key("text")]};
    var b := if |at| == 4 then Embedded(i) else if at[0].key == "content" then Content(i) else Read(i);
    assert at == b.Where();
    assert TextAt(result, b) == Some(s);
    MirrorsAlike(c, result, b, i, at);
    if !IsMirror(c, result, b) { CleanBlocks(det, c, s, TextAt(after, b).value); }
  }

  lemma {:induction false} MirrorsAlike(c: Codec, result: Value, b: Block, i: nat, at: Path)
    requires b.i == i && at == b.Where() && TextAt(result, b).Some?
    ensures IsMirror(c, result, b) <==> Mirroring(c, result, at)
  {
    hide At;
    if b.Content? { assert at == [Key("content"), Index(i), Key("text")]; }
    assert b.Read? ==> at[0].key == "contents";
    assert b.Embedded? ==> |at| == 4;
    assert |"content"| == 7 && |"contents"| == 8;
  }

  lemma {:induction false} CleanBlocks(det: Detector, c: Codec, before: string, after: string)
    requires BlockClean(det, c, before, after)
    ensures CleanBlock(det, c, before, after)
  {
    hide AllKeys, Strings, CleanKeys, CleanStrings, Clean;
    if JsonIn(c, before).Some? {
      StringsAreClean(det, JsonIn(c, after).value, []);
      KeysAreClean(det, JsonIn(c, after).value);
    } else {
      CleanIsNone(det, after);
    }
  }

  lemma {:induction false} WrittenElse(c: Codec, mirrors: seq<Block>, result: Value, after: Value)
    requires MirrorsWritten(c, mirrors, result, after)
    ensures ElseSame(result, after) && forall b :: b !in mirrors ==> TextAt(after, b) == TextAt(result, b)
  {
    hide ElseSame, TextAt, At;
  }

  lemma {:induction false} LeftNothing(
      det: Detector, c: Codec, mirrors: seq<Block>, result: Value, after: Value, changes: seq<Change>, written: Value)
    requires forall b :: b in mirrors <==> IsMirror(c, result, b)
    requires Done(det, true, c, mirrors, result, after, changes)
    requires At(written, STRUCTURE) == At(after, STRUCTURE) && ElseSame(after, written)
    requires forall b :: b !in mirrors ==> TextAt(written, b) == TextAt(after, b)
    requires AllKeys(Cleaning(det, true), after) ==> AllKeys(Cleaning(det, true), written)
    requires MirrorsHold(c, result, written) && det(c.show(written, false)) == []
    ensures NothingLeft(det, c, result, written)
  {
    hide TextAt, At, AllKeys, Strings, Follows, IsMirror, Outside, ChangesOf, BlockDone, BlockClean;
    StringsOutside(Cleaning(det, true), after, written, []);
    if At(after, STRUCTURE).Some? {
      FollowsIsClean(det, true, At(result, STRUCTURE).value, At(after, STRUCTURE).value, [], NoSkip());
    }
    forall b | TextAt(result, b).Some? && !IsMirror(c, result, b)
      ensures TextAt(written, b).Some? && BlockClean(det, c, TextAt(result, b).value, TextAt(written, b).value)
    {
      assert BlockLeft(BlockDoing(det, true, c), mirrors, b, TextAt(result, b), TextAt(after, b));
      BlockDoneIsClean(det, c, TextAt(result, b).value, TextAt(after, b).value);
    }
  }

  lemma {:induction false} BlockDoneIsClean(det: Detector, c: Codec, before: string, after: string)
    requires BlockDone(det, true, c, before, after)
    ensures BlockClean(det, c, before, after)
  {
    hide AllKeys, Strings, Follows;
    if JsonIn(c, before).Some? {
      var v, w := JsonIn(c, before).value, JsonIn(c, after).value;
      FollowsIsClean(det, true, v, w, [], NoSkip());
      FollowsKeepsKeys(Rewriting(det, true), Cleaning(det, true), v, w, [], NoSkip());
    }
  }
}
