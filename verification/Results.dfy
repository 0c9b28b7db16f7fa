/** A result: its structure, its text blocks, and which of them mirror the structure. */
module Results {
  import opened Wrappers
  import opened Json
  import opened Changes
  import opened Places

  /** Reading JSON text, and writing it, spread over lines or not. */
  datatype Codec = Codec(parse: string -> Option<Value>, show: (Value, bool) -> string)

  /** What the source's JSON type can hold reads back when written, and nothing else is read. */
  ghost predicate Faithful(c: Codec) {
    && (forall v, pretty :: Storable(v, MAX_DEPTH) ==> c.parse(c.show(v, pretty)) == Some(v))
    && (forall text :: c.parse(text).Some? ==> Storable(c.parse(text).value, MAX_DEPTH))
  }

  /** The JSON object or array a text holds. */
  function JsonIn(c: Codec, text: string): Option<Value> {
    match c.parse(text)
    case Some(v) => if v.Obj? || v.Arr? then Some(v) else None
    case None => None
  }

  /** JSON text, laid out as the text it replaces was. */
  function JsonText(c: Codec, was: string, v: Value): string { c.show(v, '\n' in was) }

  // ----- Where things are

  const STRUCTURE: Path := [Key("structuredContent")]

  datatype Block = Content(i: nat) | Embedded(i: nat) | Read(i: nat) {
    function Where(): Path {
      match this
      case Content(i) => [Key("content"), Index(i), Key("text")]
      case Embedded(i) => [Key("content"), Index(i), Key("resource"), Key("text")]
      case Read(i) => [Key("contents"), Index(i), Key("text")]
    }
  }

  function StringOf(v: Option<Value>): Option<string> {
    match v
    case Some(Str(s)) => Some(s)
    case _ => None
  }

  function TextAt(result: Value, b: Block): Option<string> { StringOf(At(result, b.Where())) }

  function ItemsUnder(result: Value, key: string): nat {
    match Get(result, key)
    case Some(Arr(items)) => |items|
    case _ => 0
  }

  lemma {:induction false} BlockIsUnder(result: Value, b: Block)
    requires TextAt(result, b).Some?
    ensures b.i < ItemsUnder(result, if b.Read? then "contents" else "content")
  {
    var path := b.Where();
    hide At;
    AtStep(result, path);
    if StepInto(result, path[0]).Some? { AtStep(StepInto(result, path[0]).value, path[1..]); }
  }

  lemma {:induction false} AtStep(v: Value, path: Path)
    requires path != []
    ensures At(v, path) == if StepInto(v, path[0]).None? then None else At(StepInto(v, path[0]).value, path[1..])
  {
  }

  /** Where each kind of block has its text. */
  lemma {:induction false} TextAtIs(result: Value, b: Block, text: string)
    ensures TextAt(result, b) == Some(text) <==>
            Some(Str(text)) ==
            match b
            case Content(i) => At(result, [Key("content"), Index(i), Key("text")])
            case Embedded(i) => At(result, [Key("content"), Index(i), Key("resource"), Key("text")])
            case Read(i) => At(result, [Key("contents"), Index(i), Key("text")])
  {
    hide At;
  }

  /** What is written in a text's place goes over several lines exactly when that did. */
  lemma {:induction false} LaidOutAlike(c: Codec, was: string, v: Value)
    ensures JsonText(c, was, v) == c.show(v, exists i :: 0 <= i < |was| && was[i] == '\n')
  {
  }

  /** Every text block of a result, once each. */
  method Blocks(result: Value) returns (blocks: seq<Block>)
    ensures forall b :: b in blocks <==> TextAt(result, b).Some?
    ensures forall i, j :: 0 <= i < j < |blocks| ==> blocks[i] != blocks[j]
  {
    hide TextAt, ItemsUnder;
    blocks := [];
    for i := 0 to ItemsUnder(result, "content")
      invariant forall b :: b in blocks <==> !b.Read? && b.i < i && TextAt(result, b).Some?
      invariant forall j, k :: 0 <= j < k < |blocks| ==> blocks[j] != blocks[k]
    {
      if TextAt(result, Content(i)).Some? { blocks := blocks + [Content(i)]; }
      if TextAt(result, Embedded(i)).Some? { blocks := blocks + [Embedded(i)]; }
    }
    for i := 0 to ItemsUnder(result, "contents")
      invariant forall b :: b in blocks <==>
                  (if b.Read? then b.i < i else b.i < ItemsUnder(result, "content")) && TextAt(result, b).Some?
      invariant forall j, k :: 0 <= j < k < |blocks| ==> blocks[j] != blocks[k]
    {
      if TextAt(result, Read(i)).Some? { blocks := blocks + [Read(i)]; }
    }
    forall b | TextAt(result, b).Some? ensures b in blocks { BlockIsUnder(result, b); }
  }

  /** A content block whose text reads as the structure. */
  ghost predicate IsMirror(c: Codec, result: Value, b: Block) {
    && b.Content?
    && At(result, STRUCTURE).Some?
    && TextAt(result, b).Some?
    && c.parse(TextAt(result, b).value) == At(result, STRUCTURE)
  }

  method Mirrors(c: Codec, result: Value) returns (mirrors: seq<Block>)
    ensures forall b :: b in mirrors <==> IsMirror(c, result, b)
  {
    hide TextAt;
    mirrors := [];
    var structured := At(result, STRUCTURE);
    if structured.None? {
      return;
    }
    var blocks := Blocks(result);
    for i := 0 to |blocks|
      invariant forall b :: b in mirrors <==> b in blocks[..i] && IsMirror(c, result, b)
    {
      assert blocks[..i + 1] == blocks[..i] + [blocks[i]];
      assert blocks[i] in blocks;
      if blocks[i].Content? && c.parse(TextAt(result, blocks[i]).value) == structured {
        mirrors := mirrors + [blocks[i]];
      }
    }
    assert blocks[..|blocks|] == blocks;
  }

  // ----- The places stand apart

  lemma {:induction false} PartAt0(p: Path, q: Path)
    requires p != [] && q != [] && !SameSlot(p[0], q[0])
    ensures Part(p, q)
  {
  }

  lemma {:induction false} PartAt1(p: Path, q: Path)
    requires |p| > 1 && |q| > 1 && !SameSlot(p[1], q[1])
    ensures Part(p, q)
  {
    assert p[1..][0] == p[1] && q[1..][0] == q[1];
    PartAt0(p[1..], q[1..]);
  }

  lemma {:induction false} PartAt2(p: Path, q: Path)
    requires |p| > 2 && |q| > 2 && !SameSlot(p[2], q[2])
    ensures Part(p, q)
  {
    assert p[1..][1] == p[2] && q[1..][1] == q[2];
    PartAt1(p[1..], q[1..]);
  }

  lemma {:induction false} KeysPart()
    ensures "content" != "contents" && "text" != "resource"
    ensures "structuredContent" != "content" && "structuredContent" != "contents"
  {
    assert |"content"| != |"contents"| && |"text"| != |"resource"|;
    assert |"structuredContent"| != |"content"| && |"structuredContent"| != |"contents"|;
  }

  lemma {:induction false} BlocksPart(a: Block, b: Block)
    requires a != b
    ensures Part(a.Where(), b.Where())
  {
    KeysPart();
    var p, q := a.Where(), b.Where();
    if a.Read? != b.Read? {
      PartAt0(p, q);
    } else if a.i != b.i {
      PartAt1(p, q);
    } else {
      PartAt2(p, q);
    }
  }

  lemma {:induction false} StructureParts(b: Block)
    ensures Part(STRUCTURE, b.Where()) && Part(b.Where(), STRUCTURE)
  {
    KeysPart();
    PartAt0(STRUCTURE, b.Where());
    PartAt0(b.Where(), STRUCTURE);
  }

  // ----- Mirrors

  /** Each of the mirrors holds the structure as it is. */
  ghost predicate MirrorsAgree(c: Codec, mirrors: seq<Block>, result: Value) {
    forall b :: b in mirrors ==>
      TextAt(result, b).Some? && At(result, STRUCTURE).Some? &&
        c.parse(TextAt(result, b).value) == At(result, STRUCTURE)
  }

  lemma {:induction false} ReadsBack(c: Codec, was: string, v: Value)
    requires Faithful(c) && Storable(v, MAX_DEPTH)
    ensures c.parse(JsonText(c, was, v)) == Some(v)
  {
  }

  lemma {:induction false} HeldIsStorable(c: Codec, text: string)
    requires Faithful(c) && JsonIn(c, text).Some?
    ensures Storable(JsonIn(c, text).value, MAX_DEPTH) && WellFormed(JsonIn(c, text).value)
  {
    hide Storable, WellFormed;
    StorableIsWellFormed(JsonIn(c, text).value, MAX_DEPTH);
  }

  lemma {:induction false} StructureIsStorable(result: Value)
    requires Storable(result, MAX_DEPTH) && At(result, STRUCTURE).Some?
    ensures var s := At(result, STRUCTURE).value;
            Storable(s, MAX_DEPTH - 1) && Storable(s, MAX_DEPTH) && WellFormed(s)
  {
    hide Storable, WellFormed, At;
    AtIsStorable(result, STRUCTURE, MAX_DEPTH);
    StorableDeeper(At(result, STRUCTURE).value, MAX_DEPTH - 1, MAX_DEPTH);
    StorableIsWellFormed(At(result, STRUCTURE).value, MAX_DEPTH);
  }

  lemma {:induction false} TextIsThere(result: Value, b: Block)
    requires TextAt(result, b).Some?
    ensures At(result, b.Where()) == Some(Str(TextAt(result, b).value))
  {
  }

  /** Writing a block's text leaves every other, and the structure, as they were. */
  lemma {:induction false} WritesBlock(result: Value, b: Block, text: string)
    requires TextAt(result, b).Some?
    ensures At(result, b.Where()).Some?
    ensures var after := Put(result, b.Where(), Str(text));
            && TextAt(after, b) == Some(text)
            && At(after, STRUCTURE) == At(result, STRUCTURE)
            && forall other :: other != b ==> TextAt(after, other) == TextAt(result, other)
  {
    hide Part, At, Put, Block.Where;
    TextIsThere(result, b);
    PutThere(result, b.Where(), Str(text));
    StructureParts(b);
    PutElsewhere(result, b.Where(), Str(text), STRUCTURE);
    forall other | other != b ensures TextAt(Put(result, b.Where(), Str(text)), other) == TextAt(result, other) {
      BlocksPart(b, other);
      PutElsewhere(result, b.Where(), Str(text), other.Where());
    }
  }
}
