/** Which strings of a result are left to a pass of their own, and what a pass over
  * the others leaves as it was. */
module Apartness {
  import opened Wrappers
  import opened Json
  import opened SchemaSoundness
  import opened Changes
  import opened Places
  import opened RedactedTrees
  import opened Results

  // ----- Which paths are left to a pass of their own

  /** A path by its keys alone: an index is an index. */
  function Shape(at: Path): (names: seq<Option<string>>)
    ensures |names| == |at|
  {
    seq(|at|, i requires 0 <= i < |at| => if at[i].IsKey() then Some(at[i].key) else None)
  }

  /** The structure, and the texts of the blocks. */
  const WRITTEN: seq<seq<Option<string>>> := [
    [Some("structuredContent")],
    [Some("content"), None, Some("text")],
    [Some("contents"), None, Some("text")],
    [Some("content"), None, Some("resource"), Some("text")]
  ]

  /** Bytes spelled out: the `data` or `blob` of a content item. */
  const BASE64: seq<seq<Option<string>>> := [
    [Some("content"), None, Some("data")],
    [Some("contents"), None, Some("blob")],
    [Some("content"), None, Some("resource"), Some("blob")],
    [Some("messages"), None, Some("content"), Some("data")],
    [Some("messages"), None, Some("content"), Some("resource"), Some("blob")]
  ]

  predicate Written(at: Path) { Shape(at) in WRITTEN }

  /** The places the pass over the other strings stays out of: those with their own pass, and bytes. */
  predicate Apart(at: Path) { Shape(at) in WRITTEN || Shape(at) in BASE64 }

  function ApartFrom(): Skip { at => Apart(at) }

  // ----- What stays, outside what is written

  /** `w` is `v` but for what is written apart, with each other string rewritten. */
  ghost predicate Outside(f: Rewrite, v: Value, w: Value, at: Path)
    decreases v, 0
  {
    match v
    case Str(s) => w.Str? && f(s) == Ok(w.s)
    case Arr(items) =>
      && w.Arr? && |w.items| == |items|
      && forall i :: 0 <= i < |items| ==> OutsideAt(f, items[i], w.items[i], at + [Index(i)])
    case Obj(members) =>
      && w.Obj? && |w.members| == |members|
      && forall i :: 0 <= i < |members| ==>
           w.members[i].name == members[i].name &&
           OutsideAt(f, members[i].value, w.members[i].value, at + [Found(members[i].name)])
    case _ => w == v
  }

  ghost predicate OutsideAt(f: Rewrite, v: Value, w: Value, at: Path)
    decreases v, 1
  {
    Written(at) || (if Apart(at) then w == v else Outside(f, v, w, at))
  }

  /** Leaving a text as it is. */
  function Keeping(): Rewrite { s => Ok(s) }

  lemma {:induction false} OutsideSame(v: Value, at: Path)
    ensures Outside(Keeping(), v, v, at)
    decreases v
  {
    match v
    case Arr(items) =>
      forall i | 0 <= i < |items| ensures OutsideAt(Keeping(), items[i], items[i], at + [Index(i)]) {
        OutsideSame(items[i], at + [Index(i)]);
      }
    case Obj(members) =>
      forall i | 0 <= i < |members|
        ensures OutsideAt(Keeping(), members[i].value, members[i].value, at + [Found(members[i].name)])
      {
        MemberIsBelow(v, members[i]);
        OutsideSame(members[i].value, at + [Found(members[i].name)]);
      }
    case _ =>
  }

  lemma {:induction false} OutsideStays(u: Value, v: Value, w: Value, at: Path)
    requires Outside(Keeping(), u, v, at) && Outside(Keeping(), v, w, at)
    ensures Outside(Keeping(), u, w, at)
    decreases u
  {
    match u
    case Arr(items) =>
      forall i | 0 <= i < |items| ensures OutsideAt(Keeping(), items[i], w.items[i], at + [Index(i)]) {
        assert OutsideAt(Keeping(), items[i], v.items[i], at + [Index(i)]);
        assert OutsideAt(Keeping(), v.items[i], w.items[i], at + [Index(i)]);
        if !Written(at + [Index(i)]) && !Apart(at + [Index(i)]) {
          OutsideStays(items[i], v.items[i], w.items[i], at + [Index(i)]);
        }
      }
    case Obj(members) =>
      forall i | 0 <= i < |members|
        ensures OutsideAt(Keeping(), members[i].value, w.members[i].value, at + [Found(members[i].name)])
      {
        MemberIsBelow(u, members[i]);
        var inside := at + [Found(members[i].name)];
        assert OutsideAt(Keeping(), members[i].value, v.members[i].value, inside);
        assert OutsideAt(Keeping(), v.members[i].value, w.members[i].value, at + [Found(v.members[i].name)]);
        if !Written(inside) && !Apart(inside) {
          OutsideStays(members[i].value, v.members[i].value, w.members[i].value, inside);
        }
      }
    case _ =>
  }

  /** After the passes of their own, the pass over every other string. */
  lemma {:induction false} OutsideThen(f: Rewrite, u: Value, v: Value, w: Value, at: Path)
    requires Outside(Keeping(), u, v, at) && Follows(f, v, w, at, ApartFrom())
    ensures Outside(f, u, w, at)
    decreases u
  {
    match u
    case Arr(items) =>
      forall i | 0 <= i < |items| ensures OutsideAt(f, items[i], w.items[i], at + [Index(i)]) {
        assert OutsideAt(Keeping(), items[i], v.items[i], at + [Index(i)]);
        assert FollowsAt(f, v.items[i], w.items[i], at + [Index(i)], ApartFrom());
        if !Written(at + [Index(i)]) && !Apart(at + [Index(i)]) {
          OutsideThen(f, items[i], v.items[i], w.items[i], at + [Index(i)]);
        }
      }
    case Obj(members) =>
      forall i | 0 <= i < |members|
        ensures OutsideAt(f, members[i].value, w.members[i].value, at + [Found(members[i].name)])
      {
        MemberIsBelow(u, members[i]);
        var inside := at + [Found(members[i].name)];
        assert OutsideAt(Keeping(), members[i].value, v.members[i].value, inside);
        assert FollowsAt(f, v.members[i].value, w.members[i].value, at + [Found(v.members[i].name)], ApartFrom());
        if !Written(inside) && !Apart(inside) {
          OutsideThen(f, members[i].value, v.members[i].value, w.members[i].value, inside);
        }
      }
    case _ =>
  }

  /** Whether the strings elsewhere have a property does not depend on what is written apart. */
  lemma {:induction false} StringsOutside(p: string -> bool, v: Value, w: Value, at: Path)
    requires Outside(Keeping(), v, w, at)
    ensures Strings(p, v, at, ApartFrom()) <==> Strings(p, w, at, ApartFrom())
    decreases v
  {
    match v
    case Arr(items) =>
      forall i | 0 <= i < |items|
        ensures StringsAt(p, items[i], at + [Index(i)], ApartFrom()) <==>
                StringsAt(p, w.items[i], at + [Index(i)], ApartFrom())
      {
        assert OutsideAt(Keeping(), items[i], w.items[i], at + [Index(i)]);
        if !Apart(at + [Index(i)]) { StringsOutside(p, items[i], w.items[i], at + [Index(i)]); }
      }
    case Obj(members) =>
      forall i | 0 <= i < |members|
        ensures StringsAt(p, members[i].value, at + [Found(members[i].name)], ApartFrom()) <==>
                StringsAt(p, w.members[i].value, at + [Found(w.members[i].name)], ApartFrom())
      {
        MemberIsBelow(v, members[i]);
        var inside := at + [Found(members[i].name)];
        assert OutsideAt(Keeping(), members[i].value, w.members[i].value, inside);
        if !Apart(inside) { StringsOutside(p, members[i].value, w.members[i].value, inside); }
      }
    case _ =>
  }

  // ----- Writing one of those places

  lemma {:induction false} ShapeOnward(at: Path, a: Step, b: Step, rest: Path)
    requires SameSlot(a, b)
    ensures Shape(at + [a]) == Shape(at + [b])
    ensures Shape(at + ([a] + rest)) == Shape((at + [b]) + rest)
  {
    assert |at + ([a] + rest)| == |(at + [b]) + rest|;
    forall i | 0 <= i < |at + ([a] + rest)| ensures Shape(at + ([a] + rest))[i] == Shape((at + [b]) + rest)[i] {
    }
  }

  /** No path on the way to one that is written is apart itself. */
  predicate OnlyAtTheEnd(at: Path, path: Path) {
    Written(at + path) && forall k :: 0 < k < |path| ==> !Apart(at + path[..k])
  }

  lemma {:induction false} OnwardAtTheEnd(at: Path, path: Path, b: Step)
    requires |path| > 1 && OnlyAtTheEnd(at, path) && SameSlot(path[0], b)
    ensures OnlyAtTheEnd(at + [b], path[1..]) && !Apart(at + [b])
  {
    hide Shape;
    assert path == [path[0]] + path[1..];
    ShapeOnward(at, path[0], b, path[1..]);
    assert path[..1] == [path[0]];
    forall k | 0 < k < |path[1..]| ensures !Apart((at + [b]) + path[1..][..k]) {
      assert path[..k + 1] == [path[0]] + path[1..][..k];
      ShapeOnward(at, path[0], b, path[1..][..k]);
    }
  }

  lemma {:induction false} PutOutside(v: Value, path: Path, x: Value, at: Path)
    requires path != [] && At(v, path).Some? && OnlyAtTheEnd(at, path)
    ensures Outside(Keeping(), v, Put(v, path, x), at)
    decreases |path|
  {
    hide Shape, OnlyAtTheEnd;
    var inner := StepInto(v, path[0]).value;
    var y := Put(inner, path[1..], x);
    var slot := if path[0].IsKey() then Found(path[0].key) else path[0];
    if |path| > 1 {
      OnwardAtTheEnd(at, path, slot);
      PutOutside(inner, path[1..], x, at + [slot]);
    } else {
      WrittenHere(at, path, slot);
    }
    StepOutside(v, path[0], y, at, slot);
  }

  lemma {:induction false} WrittenHere(at: Path, path: Path, slot: Step)
    requires |path| == 1 && OnlyAtTheEnd(at, path) && SameSlot(path[0], slot)
    ensures Written(at + [slot])
  {
    hide Shape;
    assert path == [path[0]];
    ShapeOnward(at, path[0], slot, []);
  }

  lemma {:induction false} StepOutside(v: Value, step: Step, y: Value, at: Path, slot: Step)
    requires StepInto(v, step).Some? && slot == (if step.IsKey() then Found(step.key) else step)
    requires OutsideAt(Keeping(), StepInto(v, step).value, y, at + [slot])
    ensures Outside(Keeping(), v, Replace(v, step, y), at)
  {
    hide Written, Apart;
    if step.IsKey() {
      var members := v.members;
      forall i | 0 <= i < |members| && i != MemberAt(members, step.key).value
        ensures OutsideAt(Keeping(), members[i].value, members[i].value, at + [Found(members[i].name)])
      {
        OutsideSame(members[i].value, at + [Found(members[i].name)]);
      }
    } else {
      forall i | 0 <= i < |v.items| ensures OutsideAt(Keeping(), v.items[i], v.items[i], at + [Index(i)]) {
        OutsideSame(v.items[i], at + [Index(i)]);
      }
    }
  }

  lemma {:induction false} BlockIsWritten(b: Block)
    ensures OnlyAtTheEnd([], b.Where())
  {
    var path := b.Where();
    assert [] + path == path;
    if b.Content? { assert Shape(path) == WRITTEN[1]; }
    if b.Read? { assert Shape(path) == WRITTEN[2]; }
    if b.Embedded? { assert Shape(path) == WRITTEN[3]; }
    forall k | 0 < k < |path| ensures !Apart([] + path[..k]) { NotYet(path, k); }
  }

  lemma {:induction false} StructureIsWritten()
    ensures OnlyAtTheEnd([], STRUCTURE)
  {
    assert [] + STRUCTURE == STRUCTURE;
    assert Shape(STRUCTURE) == WRITTEN[0];
  }

  lemma {:induction false} NotYet(path: Path, k: nat)
    requires 0 < k < |path|
    requires |path| == 3 || |path| == 4
    requires Shape(path)[0] in {Some("content"), Some("contents")} && Shape(path)[1] == None
    requires |path| == 4 ==> Shape(path)[2] == Some("resource")
    ensures !Apart([] + path[..k])
  {
    var at := [] + path[..k];
    var shape := Shape(at);
    assert at == path[..k];
    assert shape[0] == Shape(path)[0];
    ShapeLengths();
    KeysPart();
    assert |"structuredContent"| != |"content"| && |"structuredContent"| != |"contents"|;
    if k == 3 {
      assert shape[2] == Some("resource");
      assert |"resource"| == 8 && |"text"| == 4 && |"data"| == 4 && |"blob"| == 4;
    }
  }

  lemma {:induction false} ShapeLengths()
    ensures forall s :: s in WRITTEN || s in BASE64 ==>
              |s| in {1, 3, 4, 5} && (|s| == 1 ==> s == WRITTEN[0]) &&
                (|s| == 3 ==> s[2] in {Some("text"), Some("data"), Some("blob")})
  {
  }

  // ----- Reading what is apart, after the pass over the rest

  lemma {:induction false} FollowsKeepsApart(f: Rewrite, v: Value, w: Value, at: Path, path: Path)
    requires Follows(f, v, w, at, ApartFrom()) && path != [] && Apart(at + path)
    ensures At(w, path) == At(v, path)
    decreases |path|
  {
    hide Shape, Apart, Follows;
    var slot := if path[0].IsKey() then Found(path[0].key) else path[0];
    FollowsStep(f, v, w, at, path[0], slot);
    if StepInto(v, path[0]).Some? && !Apart(at + [slot]) {
      FollowsKeepsApartOnward(at, path, slot);
      FollowsKeepsApart(f, StepInto(v, path[0]).value, StepInto(w, path[0]).value, at + [slot], path[1..]);
    }
  }

  lemma {:induction false} FollowsKeepsApartOnward(at: Path, path: Path, slot: Step)
    requires path != [] && Apart(at + path) && SameSlot(path[0], slot) && !Apart(at + [slot])
    ensures |path| > 1 && Apart((at + [slot]) + path[1..])
  {
    hide Shape;
    assert path == [path[0]] + path[1..];
    ShapeOnward(at, path[0], slot, path[1..]);
    NothingMore(at + [slot], path[1..]);
  }

  lemma {:induction false} NothingMore(p: Path, tail: Path)
    ensures tail == [] ==> p + tail == p
  {
  }

  lemma {:induction false} FollowsStep(f: Rewrite, v: Value, w: Value, at: Path, step: Step, slot: Step)
    requires Follows(f, v, w, at, ApartFrom()) && slot == (if step.IsKey() then Found(step.key) else step)
    ensures StepInto(w, step).Some? <==> StepInto(v, step).Some?
    ensures StepInto(v, step).Some? ==>
              if Apart(at + [slot]) then StepInto(w, step) == StepInto(v, step)
              else Follows(f, StepInto(v, step).value, StepInto(w, step).value, at + [slot], ApartFrom())
  {
    hide Apart;
    if step.IsKey() {
      if v.Obj? {
        NameStays(v.members, w.members, step.key);
        if MemberAt(v.members, step.key).Some? {
          var i := MemberAt(v.members, step.key).value;
          assert FollowsAt(f, v.members[i].value, w.members[i].value, at + [slot], ApartFrom());
        }
      }
    } else if v.Arr? && step.index < |v.items| {
      assert FollowsAt(f, v.items[step.index], w.items[step.index], at + [slot], ApartFrom());
    }
  }

  lemma {:induction false} PutKeepsKeys(p: string -> bool, v: Value, path: Path, x: Value)
    requires AllKeys(p, v) && AllKeys(p, x) && At(v, path).Some?
    ensures AllKeys(p, Put(v, path, x))
    decreases |path|
  {
    if path != [] {
      StepKeepsKeys(p, v, path[0]);
      PutKeepsKeys(p, StepInto(v, path[0]).value, path[1..], x);
      ReplaceKeepsAllKeys(p, v, path[0], Put(StepInto(v, path[0]).value, path[1..], x));
    }
  }

  lemma {:induction false} StepKeepsKeys(p: string -> bool, v: Value, step: Step)
    requires AllKeys(p, v) && StepInto(v, step).Some?
    ensures AllKeys(p, StepInto(v, step).value)
  {
  }

  lemma {:induction false} ReplaceKeepsAllKeys(p: string -> bool, v: Value, step: Step, x: Value)
    requires AllKeys(p, v) && AllKeys(p, x) && StepInto(v, step).Some?
    ensures AllKeys(p, Replace(v, step, x))
  {
  }

  lemma {:induction false} WhereIsSome(b: Block)
    ensures b.Where() != []
  {
  }

  /** But for what is written apart, nothing has changed. */
  ghost predicate ElseSame(result: Value, after: Value) { Outside(Keeping(), result, after, []) }

  lemma {:induction false} SameElse(result: Value)
    ensures ElseSame(result, result)
  {
    hide Outside;
    OutsideSame(result, []);
  }

  lemma {:induction false} StructureWritten(result: Value, x: Value, b: Block)
    requires At(result, STRUCTURE).Some?
    ensures TextAt(Put(result, STRUCTURE, x), b) == TextAt(result, b)
  {
    hide At, Put, Part, Block.Where;
    StructureParts(b);
    PutElsewhere(result, STRUCTURE, x, b.Where());
  }
}
