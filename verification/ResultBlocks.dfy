/** Going through a result's text blocks, all but the mirrors. */
module ResultBlocks {
  import opened Wrappers
  import opened Json
  import opened RedactedTrees
  import opened Results
  import opened Apartness

  /** What a pass may make of a block's text. */
  type Judge = (string, string) -> bool

  ghost predicate BlockLeft(done: Judge, mirrors: seq<Block>, b: Block, before: Option<string>, after: Option<string>) {
    match (before, after)
    case (None, None) => true
    case (Some(s), Some(t)) => if b in mirrors then t == s else done(s, t)
    case _ => false
  }

  /** The pass is done on every block that is no mirror, and every mirror is left. */
  ghost predicate BlocksDone(done: Judge, mirrors: seq<Block>, result: Value, after: Value) {
    forall b :: BlockLeft(done, mirrors, b, TextAt(result, b), TextAt(after, b))
  }

  ghost predicate BlocksCan(can: string -> bool, mirrors: seq<Block>, result: Value) {
    forall b :: TextAt(result, b).Some? && b !in mirrors ==> can(TextAt(result, b).value)
  }

  /** Some block's text is not what it was. */
  ghost predicate SomeTextDiffers(result: Value, after: Value) {
    exists b :: TextAt(after, b) != TextAt(result, b)
  }

  // ----- Part of the way through

  /** The first `i` blocks are done, and every other text is as it was. */
  ghost predicate Partly(done: Judge, mirrors: seq<Block>, blocks: seq<Block>, i: nat, result: Value, now: Value) {
    && i <= |blocks|
    && (forall k :: 0 <= k < i ==>
      BlockLeft(done, mirrors, blocks[k], TextAt(result, blocks[k]), TextAt(now, blocks[k])))
    && (forall k :: i <= k < |blocks| ==> TextAt(now, blocks[k]) == TextAt(result, blocks[k]))
    && (forall b :: b !in blocks ==> TextAt(now, b) == TextAt(result, b))
  }

  ghost predicate SomeDiffers(blocks: seq<Block>, i: nat, result: Value, now: Value) {
    exists k :: 0 <= k < i && k < |blocks| && TextAt(now, blocks[k]) != TextAt(result, blocks[k])
  }

  /** The pass so far: it has kept to the texts of the blocks it has been through. */
  ghost predicate SoFar(
      done: Judge, mirrors: seq<Block>, blocks: seq<Block>, i: nat, result: Value, now: Value, changed: bool)
  {
    && Partly(done, mirrors, blocks, i, result, now)
    && (if changed then SomeDiffers(blocks, i, result, now) else now == result)
    && At(now, STRUCTURE) == At(result, STRUCTURE)
    && ElseSame(result, now)
  }

  lemma {:induction false} SoFarNone(done: Judge, mirrors: seq<Block>, blocks: seq<Block>, result: Value)
    ensures SoFar(done, mirrors, blocks, 0, result, result, false)
  {
    hide ElseSame;
    SameElse(result);
  }

  /** The block next is as it was. */
  lemma {:induction false} SoFarHere(
      done: Judge, mirrors: seq<Block>, blocks: seq<Block>, i: nat, result: Value, now: Value, changed: bool)
    requires SoFar(done, mirrors, blocks, i, result, now, changed) && i < |blocks|
    ensures TextAt(now, blocks[i]) == TextAt(result, blocks[i])
  {
    hide TextAt, BlockLeft, ElseSame;
  }

  /** A mirror, or a block the pass leaves as it was. */
  lemma {:induction false} SoFarLeft(
      done: Judge, mirrors: seq<Block>, blocks: seq<Block>, i: nat, result: Value, now: Value, changed: bool)
    requires SoFar(done, mirrors, blocks, i, result, now, changed) && i < |blocks| && TextAt(result, blocks[i]).Some?
    requires blocks[i] in mirrors || done(TextAt(result, blocks[i]).value, TextAt(result, blocks[i]).value)
    ensures SoFar(done, mirrors, blocks, i + 1, result, now, changed)
  {
    hide TextAt, ElseSame;
  }

  /** A block the pass writes. */
  lemma {:induction false} SoFarWritten(
      done: Judge, mirrors: seq<Block>, blocks: seq<Block>, i: nat, result: Value, now: Value, changed: bool,
      text: string)
    requires SoFar(done, mirrors, blocks, i, result, now, changed) && i < |blocks| && TextAt(result, blocks[i]).Some?
    requires forall j, k :: 0 <= j < k < |blocks| ==> blocks[j] != blocks[k]
    requires blocks[i] !in mirrors && done(TextAt(result, blocks[i]).value, text) &&
             text != TextAt(result, blocks[i]).value
    ensures At(now, blocks[i].Where()).Some?
    ensures SoFar(done, mirrors, blocks, i + 1, result, Put(now, blocks[i].Where(), Str(text)), true)
  {
    hide TextAt, At, Put, Block.Where, ElseSame;
    WritesBlock(now, blocks[i], text);
    WritesApart(result, now, blocks[i], text);
    var after := Put(now, blocks[i].Where(), Str(text));
    assert forall k :: 0 <= k < |blocks| && k != i ==> TextAt(after, blocks[k]) == TextAt(now, blocks[k]);
    assert TextAt(after, blocks[i]) != TextAt(result, blocks[i]);
  }

  lemma {:induction false} WritesApart(result: Value, now: Value, b: Block, text: string)
    requires At(now, b.Where()).Some? && ElseSame(result, now)
    ensures ElseSame(result, Put(now, b.Where(), Str(text)))
  {
    hide Outside, At, Put, Block.Where, OnlyAtTheEnd;
    BlockIsWritten(b);
    WhereIsSome(b);
    PutOutside(now, b.Where(), Str(text), []);
    OutsideStays(result, now, Put(now, b.Where(), Str(text)), []);
  }

  lemma {:induction false} WritesNoKeys(p: string -> bool, now: Value, b: Block, text: string)
    requires At(now, b.Where()).Some? && AllKeys(p, now)
    ensures AllKeys(p, Put(now, b.Where(), Str(text)))
  {
    hide At, Put, Block.Where;
    PutKeepsKeys(p, now, b.Where(), Str(text));
  }

  lemma {:induction false} SoFarAll(
      done: Judge, mirrors: seq<Block>, blocks: seq<Block>, result: Value, now: Value, changed: bool)
    requires SoFar(done, mirrors, blocks, |blocks|, result, now, changed)
    requires forall b :: b in blocks <==> TextAt(result, b).Some?
    ensures BlocksDone(done, mirrors, result, now)
    ensures if changed then SomeTextDiffers(result, now) else now == result
    ensures At(now, STRUCTURE) == At(result, STRUCTURE) && ElseSame(result, now)
  {
    hide TextAt, ElseSame;
    forall b ensures BlockLeft(done, mirrors, b, TextAt(result, b), TextAt(now, b)) {
      if b in blocks {
        var k :| 0 <= k < |blocks| && blocks[k] == b;
      }
    }
  }

  /** Those of the first `i` blocks that are no mirrors can be done. */
  ghost predicate CanSoFar(can: string -> bool, mirrors: seq<Block>, blocks: seq<Block>, i: nat, result: Value) {
    forall k :: 0 <= k < i && k < |blocks| && blocks[k] !in mirrors ==>
      TextAt(result, blocks[k]).Some? && can(TextAt(result, blocks[k]).value)
  }

  lemma {:induction false} CanNone(can: string -> bool, mirrors: seq<Block>, blocks: seq<Block>, result: Value)
    ensures CanSoFar(can, mirrors, blocks, 0, result)
  {
  }

  lemma {:induction false} CanMore(can: string -> bool, mirrors: seq<Block>, blocks: seq<Block>, i: nat, result: Value)
    requires i < |blocks| && TextAt(result, blocks[i]).Some?
    ensures CanSoFar(can, mirrors, blocks, i, result) &&
            (blocks[i] in mirrors || can(TextAt(result, blocks[i]).value)) ==>
              CanSoFar(can, mirrors, blocks, i + 1, result)
    ensures blocks[i] !in mirrors && !can(TextAt(result, blocks[i]).value) ==> !BlocksCan(can, mirrors, result)
  {
    hide TextAt;
  }

  lemma {:induction false} CanAll(can: string -> bool, mirrors: seq<Block>, blocks: seq<Block>, result: Value)
    requires CanSoFar(can, mirrors, blocks, |blocks|, result)
    requires forall b :: b in blocks <==> TextAt(result, b).Some?
    ensures BlocksCan(can, mirrors, result)
  {
    hide TextAt;
    forall b | TextAt(result, b).Some? && b !in mirrors ensures can(TextAt(result, b).value) {
      var k :| 0 <= k < |blocks| && blocks[k] == b;
    }
  }

  // ----- Writing the mirrors

  /** Each mirror holds the structure now, and every other text is as it was. */
  ghost predicate MirrorsWritten(c: Codec, mirrors: seq<Block>, result: Value, after: Value) {
    && At(after, STRUCTURE) == At(result, STRUCTURE)
    && (forall b :: b !in mirrors ==> TextAt(after, b) == TextAt(result, b))
    && ((forall b :: b in mirrors ==> TextAt(result, b).Some?) && At(result, STRUCTURE).Some? ==>
      MirrorsAgree(c, mirrors, after))
    && ElseSame(result, after)
  }

  /** Of the first `i` mirrors. */
  ghost predicate WrittenSoFar(c: Codec, mirrors: seq<Block>, i: nat, result: Value, now: Value) {
    && i <= |mirrors|
    && At(now, STRUCTURE) == At(result, STRUCTURE)
    && (forall b :: b !in mirrors ==> TextAt(now, b) == TextAt(result, b))
    && (forall b :: TextAt(now, b).Some? <==> TextAt(result, b).Some?)
    && (forall k :: 0 <= k < i && TextAt(result, mirrors[k]).Some? ==>
          c.parse(TextAt(now, mirrors[k]).value) == At(result, STRUCTURE))
    && ElseSame(result, now)
  }

  lemma {:induction false} WrittenMore(c: Codec, mirrors: seq<Block>, i: nat, result: Value, now: Value, text: string)
    requires WrittenSoFar(c, mirrors, i, result, now) && i < |mirrors| && TextAt(now, mirrors[i]).Some?
    requires c.parse(text) == At(result, STRUCTURE)
    ensures At(now, mirrors[i].Where()).Some?
    ensures WrittenSoFar(c, mirrors, i + 1, result, Put(now, mirrors[i].Where(), Str(text)))
  {
    hide TextAt, At, Put, Block.Where, ElseSame;
    WritesBlock(now, mirrors[i], text);
    WritesApart(result, now, mirrors[i], text);
    assert mirrors[i] in mirrors;
  }

  lemma {:induction false} WrittenAll(c: Codec, mirrors: seq<Block>, result: Value, now: Value)
    requires WrittenSoFar(c, mirrors, |mirrors|, result, now)
    ensures MirrorsWritten(c, mirrors, result, now)
  {
    hide TextAt, At, ElseSame;
    if (forall b :: b in mirrors ==> TextAt(result, b).Some?) && At(result, STRUCTURE).Some? {
      forall b | b in mirrors ensures TextAt(now, b).Some? && c.parse(TextAt(now, b).value) == At(now, STRUCTURE) {
        var k :| 0 <= k < |mirrors| && mirrors[k] == b;
      }
    }
  }

  /** Writes each mirror again from the structure. */
  method WriteMirrors(c: Codec, result: Value, mirrors: seq<Block>) returns (after: Value)
    requires Faithful(c) && Storable(result, MAX_DEPTH)
    ensures MirrorsWritten(c, mirrors, result, after) && Storable(after, MAX_DEPTH)
    ensures forall p: string -> bool :: AllKeys(p, result) ==> AllKeys(p, after)
  {
    hide TextAt, At, Put, JsonText, Block.Where, ElseSame, AllKeys, WrittenSoFar, MirrorsWritten, Storable, Faithful;
    after := result;
    var structured := At(result, STRUCTURE);
    SameElse(result);
    if structured.None? {
      assert MirrorsWritten(c, mirrors, result, result) by { NoneWritten(c, mirrors, result); }
      return;
    }
    StructureIsStorable(result);
    assert WrittenSoFar(c, mirrors, 0, result, result) by { NotYetWritten(c, mirrors, result); }
    for i := 0 to |mirrors|
      invariant WrittenSoFar(c, mirrors, i, result, after) && Storable(after, MAX_DEPTH)
      invariant forall p: string -> bool :: AllKeys(p, result) ==> AllKeys(p, after)
    {
      var text := TextAt(after, mirrors[i]);
      if text.Some? {
        var now := JsonText(c, text.value, structured.value);
        ReadsBack(c, text.value, structured.value);
        WrittenMore(c, mirrors, i, result, after, now);
        forall p: string -> bool | AllKeys(p, after) ensures AllKeys(p, Put(after, mirrors[i].Where(), Str(now))) {
          WritesNoKeys(p, after, mirrors[i], now);
        }
        PutStrIsStorable(after, mirrors[i].Where(), now, MAX_DEPTH);
        after := Put(after, mirrors[i].Where(), Str(now));
      } else {
        WrittenNot(c, mirrors, i, result, after);
      }
    }
    WrittenAll(c, mirrors, result, after);
  }

  lemma {:induction false} NoneWritten(c: Codec, mirrors: seq<Block>, result: Value)
    requires At(result, STRUCTURE).None? && ElseSame(result, result)
    ensures MirrorsWritten(c, mirrors, result, result)
  {
  }

  lemma {:induction false} NotYetWritten(c: Codec, mirrors: seq<Block>, result: Value)
    requires ElseSame(result, result)
    ensures WrittenSoFar(c, mirrors, 0, result, result)
  {
  }

  lemma {:induction false} WrittenNot(c: Codec, mirrors: seq<Block>, i: nat, result: Value, now: Value)
    requires WrittenSoFar(c, mirrors, i, result, now) && i < |mirrors| && TextAt(now, mirrors[i]).None?
    ensures WrittenSoFar(c, mirrors, i + 1, result, now)
  {
    hide TextAt, At, ElseSame;
  }
}
