/** Redacting a result: its structure, its text blocks, and every other string but base64. */
module ResultRedaction {
  import opened Wrappers
  import opened Ordering
  import opened Json
  import opened Changes
  import opened Places
  import opened Redaction
  import opened RedactedTrees
  import opened Results
  import opened Apartness
  import opened ResultBlocks

  // ----- A text block

  /** A block's text, once redacted: in its JSON's strings, when it holds JSON. */
  ghost predicate BlockDone(det: Detector, strict: bool, c: Codec, before: string, after: string) {
    match JsonIn(c, before)
    case None => Redacted(det, strict, before) == Ok(after)
    case Some(v) =>
      && AllKeys(Cleaning(det, strict), v)
      && JsonIn(c, after).Some?
      && Follows(Rewriting(det, strict), v, JsonIn(c, after).value, [], NoSkip())
  }

  ghost predicate BlockCan(det: Detector, strict: bool, c: Codec, text: string) {
    match JsonIn(c, text)
    case None => Redactable(det, strict, text)
    case Some(v) => AllKeys(Cleaning(det, strict), v) && Strings(Working(det, strict), v, [], NoSkip())
  }

  ghost function BlockDoing(det: Detector, strict: bool, c: Codec): Judge { (s, t) => BlockDone(det, strict, c, s, t) }

  ghost function BlockWorking(det: Detector, strict: bool, c: Codec): string -> bool {
    s => BlockCan(det, strict, c, s)
  }

  method RedactBlock(det: Detector, strict: bool, c: Codec, text: string) returns (r: Result<(string, bool), Fault>)
    requires Faithful(c)
    ensures r.Ok? <==> BlockCan(det, strict, c, text)
    ensures r.Ok? ==> BlockDone(det, strict, c, text, r.value.0) && (r.value.1 <==> r.value.0 != text)
  {
    hide AllKeys, Strings, Redacted, ChangesOf, Faithful;
    var held := JsonIn(c, text);
    if held.None? {
      r := RedactText(det, strict, text);
      return;
    }
    var fault := EachKey(det, strict, held.value);
    if fault.Some? {
      return Err(fault.value);
    }
    var after, changes := EachString(det, strict, held.value, [], NoSkip());
    if after.Err? {
      return Err(after.error);
    }
    if changes == [] {
      NoneReported(Rewriting(det, strict), held.value, after.value, [], NoSkip());
      return Ok((text, false));
    }
    NoChanges(held.value);
    HeldIsStorable(c, text);
    FollowsIsStorable(Rewriting(det, strict), held.value, after.value, [], NoSkip(), MAX_DEPTH);
    ReadsBack(c, text, after.value);
    return Ok((JsonText(c, text, after.value), true));
  }

  // ----- The structure

  ghost predicate StructureDone(det: Detector, strict: bool, result: Value, after: Value, changes: seq<Change>) {
    match At(result, STRUCTURE)
    case None => At(after, STRUCTURE).None? && changes == []
    case Some(s) =>
      && At(after, STRUCTURE).Some?
      && Follows(Rewriting(det, strict), s, At(after, STRUCTURE).value, [], NoSkip())
      && changes == ChangesOf(s, At(after, STRUCTURE).value)
  }

  ghost predicate StructureCan(det: Detector, strict: bool, result: Value) {
    At(result, STRUCTURE).Some? ==> Strings(Working(det, strict), At(result, STRUCTURE).value, [], NoSkip())
  }

  method RedactStructure(
      det: Detector, strict: bool, result: Value) returns (r: Result<Value, Fault>, changes: seq<Change>)
    requires Storable(result, MAX_DEPTH)
    ensures r.Ok? <==> StructureCan(det, strict, result)
    ensures r.Ok? ==>
              && StructureDone(det, strict, result, r.value, changes)
              && (forall b :: TextAt(r.value, b) == TextAt(result, b))
              && ElseSame(result, r.value) && Storable(r.value, MAX_DEPTH)
              && (changes == [] ==> r.value == result)
              && (AllKeys(Cleaning(det, strict), result) ==> AllKeys(Cleaning(det, strict), r.value))
  {
    hide Strings, Follows, ChangesOf, Outside, AllKeys, At, Put, TextAt, Storable;
    var structured := At(result, STRUCTURE);
    if structured.None? {
      OutsideSame(result, []);
      return Ok(result), [];
    }
    var after;
    after, changes := EachString(det, strict, structured.value, [], NoSkip());
    if after.Err? {
      return Err(after.error), [];
    }
    r := Ok(Put(result, STRUCTURE, after.value));
    StructureIsStorable(result);
    FollowsIsStorable(Rewriting(det, strict), structured.value, after.value, [], NoSkip(), MAX_DEPTH - 1);
    PutIsStorable(result, STRUCTURE, after.value, MAX_DEPTH);
    PutThere(result, STRUCTURE, after.value);
    forall b ensures TextAt(r.value, b) == TextAt(result, b) { StructureWritten(result, after.value, b); }
    StructureIsWritten();
    PutOutside(result, STRUCTURE, after.value, []);
    if changes == [] {
      NoneReported(Rewriting(det, strict), structured.value, after.value, [], NoSkip());
      PutBack(result, STRUCTURE);
    }
    if AllKeys(Cleaning(det, strict), result) {
      AtKeepsKeys(Cleaning(det, strict), result, STRUCTURE);
      FollowsKeepsKeys(Rewriting(det, strict), Cleaning(det, strict), structured.value, after.value, [], NoSkip());
      PutKeepsKeys(Cleaning(det, strict), result, STRUCTURE, after.value);
    }
  }

  lemma {:induction false} PutBack(v: Value, path: Path)
    requires At(v, path).Some?
    ensures Put(v, path, At(v, path).value) == v
    decreases |path|
  {
    hide StepInto, Replace;
    if path != [] {
      PutBack(StepInto(v, path[0]).value, path[1..]);
      ReplaceSame(v, path[0]);
    }
  }

  lemma {:induction false} AtKeepsKeys(p: string -> bool, v: Value, path: Path)
    requires AllKeys(p, v) && At(v, path).Some?
    ensures AllKeys(p, At(v, path).value)
    decreases |path|
  {
    if path != [] {
      StepKeepsKeys(p, v, path[0]);
      AtKeepsKeys(p, StepInto(v, path[0]).value, path[1..]);
    }
  }

  // ----- The text blocks

  method RedactBlocks(det: Detector, strict: bool, c: Codec, result: Value, mirrors: seq<Block>)
    returns (r: Result<Value, Fault>, changed: bool)
    requires Faithful(c) && Storable(result, MAX_DEPTH)
    ensures r.Ok? <==> BlocksCan(BlockWorking(det, strict, c), mirrors, result)
    ensures r.Ok? ==>
              && BlocksDone(BlockDoing(det, strict, c), mirrors, result, r.value)
              && At(r.value, STRUCTURE) == At(result, STRUCTURE)
              && ElseSame(result, r.value) && Storable(r.value, MAX_DEPTH)
              && (if changed then SomeTextDiffers(result, r.value) else r.value == result)
              && (AllKeys(Cleaning(det, strict), result) ==> AllKeys(Cleaning(det, strict), r.value))
  {
    hide SoFar, CanSoFar, BlocksDone, BlocksCan, BlockDone, BlockCan, ElseSame, AllKeys, At, Put, TextAt,
         SomeTextDiffers, Storable, Faithful;
    ghost var done, can := BlockDoing(det, strict, c), BlockWorking(det, strict, c);
    var blocks := Blocks(result);
    var now := result;
    changed := false;
    SoFarNone(done, mirrors, blocks, result);
    assert CanSoFar(can, mirrors, blocks, 0, result) by { CanNone(can, mirrors, blocks, result); }
    for i := 0 to |blocks|
      invariant SoFar(done, mirrors, blocks, i, result, now, changed)
      invariant CanSoFar(can, mirrors, blocks, i, result) && Storable(now, MAX_DEPTH)
      invariant AllKeys(Cleaning(det, strict), result) ==> AllKeys(Cleaning(det, strict), now)
    {
      var b := blocks[i];
      assert b in blocks;
      SoFarHere(done, mirrors, blocks, i, result, now, changed);
      CanMore(can, mirrors, blocks, i, result);
      if b in mirrors {
        SoFarLeft(done, mirrors, blocks, i, result, now, changed);
        continue;
      }
      var text := TextAt(now, b);
      var redacted := RedactBlock(det, strict, c, text.value);
      if redacted.Err? {
        return Err(redacted.error), false;
      }
      if redacted.value.1 {
        SoFarWritten(done, mirrors, blocks, i, result, now, changed, redacted.value.0);
        if AllKeys(Cleaning(det, strict), now) { WritesNoKeys(Cleaning(det, strict), now, b, redacted.value.0); }
        PutStrIsStorable(now, b.Where(), redacted.value.0, MAX_DEPTH);
        now := Put(now, b.Where(), Str(redacted.value.0));
        changed := true;
      } else {
        SoFarLeft(done, mirrors, blocks, i, result, now, changed);
      }
    }
    SoFarAll(done, mirrors, blocks, result, now, changed);
    CanAll(can, mirrors, blocks, result);
    r := Ok(now);
  }

  // ----- The whole

  /** When a result can be redacted: no key holds anything, and every string that is
    * redacted comes clean. */
  ghost predicate Can(det: Detector, strict: bool, c: Codec, mirrors: seq<Block>, result: Value) {
    && (result.Obj? ==> AllKeys(Cleaning(det, strict), result))
    && StructureCan(det, strict, result)
    && BlocksCan(BlockWorking(det, strict, c), mirrors, result)
    && Strings(Working(det, strict), result, [], ApartFrom())
  }

  /** A result redacted: the structure, the blocks but for the mirrors, and every other
    * string but base64, each as its own redaction leaves it; and nothing else changed. */
  ghost predicate Done(
      det: Detector, strict: bool, c: Codec, mirrors: seq<Block>, result: Value, after: Value, changes: seq<Change>)
  {
    && (result.Obj? ==> AllKeys(Cleaning(det, strict), after))
    && StructureDone(det, strict, result, after, changes)
    && BlocksDone(BlockDoing(det, strict, c), mirrors, result, after)
    && Outside(Rewriting(det, strict), result, after, [])
    && Strings(Cleaning(det, strict), after, [], ApartFrom())
  }

  /** Redacts every secret in a result's strings; mirrors are left for the structure to be written to. */
  method Redact(det: Detector, strict: bool, c: Codec, result: Value, mirrors: seq<Block>)
    returns (r: Result<Value, Fault>, changed: bool, changes: seq<Change>)
    requires Faithful(c) && Storable(result, MAX_DEPTH)
    ensures r.Ok? <==> Can(det, strict, c, mirrors, result)
    ensures r.Ok? ==> Done(det, strict, c, mirrors, result, r.value, changes) && Storable(r.value, MAX_DEPTH)
    ensures r.Ok? ==> (changed <==> r.value != result) && (changes != [] ==> changed)
  {
    hide StructureDone, StructureCan, BlocksDone, BlocksCan, ElseSame, AllKeys, Strings, Follows, SomeTextDiffers,
         ChangesOf, At, TextAt, Storable, Faithful;
    changed, changes := false, [];
    if result.Obj? {
      var fault := EachKey(det, strict, result);
      if fault.Some? {
        return Err(fault.value), false, [];
      }
    }
    var structured;
    structured, changes := RedactStructure(det, strict, result);
    if structured.Err? {
      return Err(structured.error), false, [];
    }
    var one := structured.value;
    var blocks, texts := RedactBlocks(det, strict, c, one, mirrors);
    BlocksSame(det, strict, c, mirrors, result, one);
    if blocks.Err? {
      return Err(blocks.error), false, [];
    }
    var two := blocks.value;
    var rest, others := EachString(det, strict, two, [], ApartFrom());
    StringsSame(det, strict, result, one, two);
    if rest.Err? {
      return Err(rest.error), false, [];
    }
    r := rest;
    FollowsIsStorable(Rewriting(det, strict), two, rest.value, [], ApartFrom(), MAX_DEPTH);
    changed := changes != [] || texts || others != [];
    RestDone(det, strict, c, mirrors, result, one, two, rest.value, changes);
    Changed(det, strict, result, one, two, rest.value, changes, texts, others);
  }

  lemma {:induction false} BlocksSame(
      det: Detector, strict: bool, c: Codec, mirrors: seq<Block>, result: Value, one: Value)
    requires forall b :: TextAt(one, b) == TextAt(result, b)
    ensures BlocksCan(BlockWorking(det, strict, c), mirrors, one) <==>
            BlocksCan(BlockWorking(det, strict, c), mirrors, result)
  {
    hide BlockCan, TextAt;
  }

  lemma {:induction false} StringsSame(det: Detector, strict: bool, result: Value, one: Value, two: Value)
    requires ElseSame(result, one) && ElseSame(one, two)
    ensures ElseSame(result, two)
    ensures Strings(Working(det, strict), two, [], ApartFrom()) <==>
            Strings(Working(det, strict), result, [], ApartFrom())
  {
    hide Outside, Strings;
    OutsideStays(result, one, two, []);
    StringsOutside(Working(det, strict), result, two, []);
  }

  lemma {:induction false} ApartStays(f: Rewrite, two: Value, after: Value)
    requires Follows(f, two, after, [], ApartFrom())
    ensures At(after, STRUCTURE) == At(two, STRUCTURE)
    ensures forall b :: TextAt(after, b) == TextAt(two, b)
  {
    hide Follows, At, Block.Where, Shape;
    StructureIsWritten();
    FollowsKeepsApart(f, two, after, [], STRUCTURE);
    forall b ensures TextAt(after, b) == TextAt(two, b) {
      BlockIsWritten(b);
      WhereIsSome(b);
      FollowsKeepsApart(f, two, after, [], b.Where());
    }
  }

  lemma {:induction false} RestDone(
      det: Detector, strict: bool, c: Codec, mirrors: seq<Block>, result: Value, one: Value, two: Value,
      after: Value, changes: seq<Change>)
    requires StructureDone(det, strict, result, one, changes) && (forall b :: TextAt(one, b) == TextAt(result, b))
    requires BlocksDone(BlockDoing(det, strict, c), mirrors, one, two) && At(two, STRUCTURE) == At(one, STRUCTURE)
    requires ElseSame(result, two) && Follows(Rewriting(det, strict), two, after, [], ApartFrom())
    requires result.Obj? ==> AllKeys(Cleaning(det, strict), two)
    ensures Done(det, strict, c, mirrors, result, after, changes)
  {
    hide AllKeys, Strings, Follows, Outside, BlockLeft, At, TextAt, ChangesOf;
    ApartStays(Rewriting(det, strict), two, after);
    OutsideThen(Rewriting(det, strict), result, two, after, []);
    FollowsIsClean(det, strict, two, after, [], ApartFrom());
    if result.Obj? {
      FollowsKeepsKeys(Rewriting(det, strict), Cleaning(det, strict), two, after, [], ApartFrom());
    }
  }

  lemma {:induction false} Changed(
      det: Detector, strict: bool, result: Value, one: Value, two: Value, after: Value,
      changes: seq<Change>, texts: bool, others: seq<Change>)
    requires StructureDone(det, strict, result, one, changes) && (changes == [] ==> one == result)
    requires forall b :: TextAt(one, b) == TextAt(result, b)
    requires At(two, STRUCTURE) == At(one, STRUCTURE) && (if texts then SomeTextDiffers(one, two) else two == one)
    requires Follows(Rewriting(det, strict), two, after, [], ApartFrom()) && others == ChangesOf(two, after)
    ensures after != result <==> changes != [] || texts || others != []
  {
    hide Follows, At, TextAt, ChangesOf;
    ApartStays(Rewriting(det, strict), two, after);
    NoChanges(two);
    if At(result, STRUCTURE).Some? { NoChanges(At(result, STRUCTURE).value); }
    if others == [] { NoneReported(Rewriting(det, strict), two, after, [], ApartFrom()); }
  }

  // ----- Keys of what is no object

  /** An array is redacted whatever its objects' keys hold: this one comes through as it
    * was, with its key. */
  lemma {:induction false} ArrayKeysAreLeft(det: Detector, strict: bool, c: Codec, key: string)
    requires !Clean(det, strict, key)
    ensures var result := Arr([Obj([Entry(key, Null)])]);
            && Can(det, strict, c, [], result) && Done(det, strict, c, [], result, result, [])
            && !AllKeys(Cleaning(det, strict), result)
  {
    hide Clean;
    var inner := Obj([Entry(key, Null)]);
    var result := Arr([inner]);
    assert inner.members[0].name == key && !AllKeys(Cleaning(det, strict), inner);
    assert result.items[0] == inner;
    forall b ensures TextAt(result, b).None? { NothingInArray(result, b); }
    assert At(result, STRUCTURE).None?;
    NoStringsHere(Working(det, strict), Rewriting(det, strict), key, [Index(0)]);
    NoStringsHere(Cleaning(det, strict), Rewriting(det, strict), key, [Index(0)]);
    assert [] + [Index(0)] == [Index(0)];
  }

  lemma {:induction false} NothingInArray(result: Value, b: Block)
    requires result.Arr?
    ensures TextAt(result, b).None?
  {
  }

  lemma {:induction false} NoStringsHere(p: string -> bool, f: Rewrite, key: string, at: Path)
    ensures var v := Obj([Entry(key, Null)]); StringsAt(p, v, at, ApartFrom()) && OutsideAt(f, v, v, at)
  {
    hide Written, Apart, ApartFrom;
    var v := Obj([Entry(key, Null)]);
    var inside := at + [Found(key)];
    assert StringsAt(p, Null, inside, ApartFrom()) && OutsideAt(f, Null, Null, inside);
    assert Strings(p, v, at, ApartFrom());
    assert Outside(f, v, v, at);
  }
}
