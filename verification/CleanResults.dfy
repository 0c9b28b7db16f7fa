/** What it means that a detector finds nothing in a result, said of its strings and keys
  * where they stand. */
module CleanResults {
  import opened Wrappers
  import opened Json
  import opened Redaction
  import opened RedactedTrees
  import opened Results
  import opened Apartness

  /** Nothing is found in any string of a value. */
  ghost predicate CleanStrings(det: Detector, v: Value) {
    match v
    case Str(s) => det(s) == []
    case Arr(items) => forall i :: 0 <= i < |items| ==> CleanStrings(det, items[i])
    case Obj(members) => forall i :: 0 <= i < |members| ==> CleanStrings(det, members[i].value)
    case _ => true
  }

  /** Nor in any key. */
  ghost predicate CleanKeys(det: Detector, v: Value) {
    match v
    case Arr(items) => forall i :: 0 <= i < |items| ==> CleanKeys(det, items[i])
    case Obj(members) =>
      forall i :: 0 <= i < |members| ==> det(members[i].name) == [] && CleanKeys(det, members[i].value)
    case _ => true
  }

  lemma {:induction false} CleanIsNone(det: Detector, text: string)
    ensures Clean(det, true, text) <==> det(text) == []
  {
    if det(text) != [] { assert det(text)[0] in det(text); }
  }

  lemma {:induction false} StringsAreClean(det: Detector, v: Value, at: Path)
    requires Strings(Cleaning(det, true), v, at, NoSkip())
    ensures CleanStrings(det, v)
  {
    hide Clean;
    match v
    case Str(s) => CleanIsNone(det, s);
    case Arr(items) =>
      forall i | 0 <= i < |items| ensures CleanStrings(det, items[i]) {
        assert StringsAt(Cleaning(det, true), items[i], at + [Index(i)], NoSkip());
        StringsAreClean(det, items[i], at + [Index(i)]);
      }
    case Obj(members) =>
      forall i | 0 <= i < |members| ensures CleanStrings(det, members[i].value) {
        MemberIsBelow(v, members[i]);
        var inside := at + [Found(members[i].name)];
        assert StringsAt(Cleaning(det, true), members[i].value, inside, NoSkip());
        StringsAreClean(det, members[i].value, inside);
      }
    case _ =>
  }

  lemma {:induction false} KeysAreClean(det: Detector, v: Value)
    requires AllKeys(Cleaning(det, true), v)
    ensures CleanKeys(det, v)
  {
    hide Clean;
    match v
    case Arr(items) =>
      forall i | 0 <= i < |items| ensures CleanKeys(det, items[i]) { KeysAreClean(det, items[i]); }
    case Obj(members) =>
      forall i | 0 <= i < |members| ensures det(members[i].name) == [] && CleanKeys(det, members[i].value) {
        MemberIsBelow(v, members[i]);
        CleanIsNone(det, members[i].name);
        KeysAreClean(det, members[i].value);
      }
    case _ =>
  }

  // ----- Places

  ghost predicate KeyIs(step: Step, names: set<string>) { step.IsKey() && step.key in names }

  /** The structure, a block's text, or bytes in base64: what the pass over a result's
    * other strings leaves alone. */
  ghost predicate LeftAlone(at: Path) {
    || (|at| == 1 && KeyIs(at[0], {"structuredContent"}))
    || (|at| == 3 && at[1].Index? &&
        ((KeyIs(at[0], {"content"}) && KeyIs(at[2], {"text", "data"})) ||
         (KeyIs(at[0], {"contents"}) && KeyIs(at[2], {"text", "blob"}))))
    || (|at| == 4 && at[1].Index? &&
        ((KeyIs(at[0], {"content"}) && KeyIs(at[2], {"resource"}) && KeyIs(at[3], {"text", "blob"})) ||
         (KeyIs(at[0], {"messages"}) && KeyIs(at[2], {"content"}) && KeyIs(at[3], {"data"}))))
    || (|at| == 5 && at[1].Index? &&
        KeyIs(at[0], {"messages"}) && KeyIs(at[2], {"content"}) && KeyIs(at[3], {"resource"}) && KeyIs(at[4], {"blob"}))
  }

  lemma {:induction false} ApartIsLeftAlone(at: Path)
    ensures Apart(at) <==> LeftAlone(at)
  {
    var s := Shape(at);
    forall i | 0 <= i < |at| ensures s[i] == if at[i].IsKey() then Some(at[i].key) else None {}
    if |at| == 1 { assert s == [s[0]]; }
    if |at| == 3 { assert s == [s[0], s[1], s[2]]; }
    if |at| == 4 { assert s == [s[0], s[1], s[2], s[3]]; }
    if |at| == 5 { assert s == [s[0], s[1], s[2], s[3], s[4]]; }
  }

  /** Nothing is found in a string at a path that the pass does not leave alone on the way. */
  ghost predicate CleanElsewhere(det: Detector, v: Value) {
    forall q: Path, s: string ::
      At(v, q) == Some(Str(s)) && (forall k :: 0 < k <= |q| ==> !LeftAlone(q[..k])) ==> det(s) == []
  }

  lemma {:induction false} ElsewhereIsClean(det: Detector, v: Value)
    requires Strings(Cleaning(det, true), v, [], ApartFrom())
    ensures CleanElsewhere(det, v)
  {
    hide Strings, At, LeftAlone, Clean, Apart;
    forall q: Path, s: string
      | At(v, q) == Some(Str(s)) && (forall k :: 0 < k <= |q| ==> !LeftAlone(q[..k]))
      ensures det(s) == []
    {
      forall k | 0 < k <= |q| ensures !Apart([] + q[..k]) {
        assert [] + q[..k] == q[..k];
        ApartIsLeftAlone(q[..k]);
      }
      StringByPath(Cleaning(det, true), v, [], q, s);
      CleanIsNone(det, s);
    }
  }

  lemma {:induction false} StringByPath(p: string -> bool, v: Value, at: Path, q: Path, s: string)
    requires Strings(p, v, at, ApartFrom()) && At(v, q) == Some(Str(s))
    requires forall k :: 0 < k <= |q| ==> !Apart(at + q[..k])
    ensures p(s)
    decreases |q|
  {
    hide Apart;
    if q != [] {
      var x, inside := StepOn(p, v, at, q[0]);
      assert q[..1] == [q[0]];
      SameShapes(inside, at + [q[0]]);
      assert !Apart(at + q[..1]);
      forall k | 0 < k <= |q[1..]| ensures !Apart(inside + q[1..][..k]) {
        assert q[..k + 1] == [q[0]] + q[1..][..k];
        assert at + q[..k + 1] == (at + [q[0]]) + q[1..][..k];
        ShapesJoin(inside, at + [q[0]], q[1..][..k]);
        SameShapes(inside + q[1..][..k], at + q[..k + 1]);
        assert !Apart(at + q[..k + 1]);
      }
      StringByPath(p, x, inside, q[1..], s);
    }
  }

  lemma {:induction false} StepOn(p: string -> bool, v: Value, at: Path, step: Step) returns (x: Value, inside: Path)
    requires Strings(p, v, at, ApartFrom()) && StepInto(v, step).Some?
    ensures x == StepInto(v, step).value && StringsAt(p, x, inside, ApartFrom())
    ensures Shape(inside) == Shape(at + [step])
  {
    hide Apart;
    x := StepInto(v, step).value;
    if step.Index? {
      inside := at + [step];
      assert StringsAt(p, v.items[step.index], at + [Index(step.index)], ApartFrom());
    } else {
      var i := MemberAt(v.members, step.key).value;
      inside := at + [Found(v.members[i].name)];
      assert StringsAt(p, v.members[i].value, inside, ApartFrom());
    }
  }

  lemma {:induction false} SameShapes(a: Path, b: Path)
    requires Shape(a) == Shape(b)
    ensures Apart(a) <==> Apart(b)
  {
    hide Shape;
  }

  lemma {:induction false} ShapesJoin(a: Path, b: Path, more: Path)
    requires Shape(a) == Shape(b)
    ensures Shape(a + more) == Shape(b + more)
  {
    forall i | 0 <= i < |a| ensures Shape(a + more)[i] == Shape(b + more)[i] {
      assert Shape(a)[i] == Shape(b)[i];
    }
  }

  // ----- A whole result

  /** A block that held an object or an array still does, and nothing is found in it; in
    * the text of any other, nothing is. */
  ghost predicate CleanBlock(det: Detector, c: Codec, before: string, after: string) {
    if c.parse(before).Some? && (c.parse(before).value.Obj? || c.parse(before).value.Arr?) then
      && c.parse(after).Some? && (c.parse(after).value.Obj? || c.parse(after).value.Arr?)
      && CleanStrings(det, c.parse(after).value) && CleanKeys(det, c.parse(after).value)
    else det(after) == []
  }

  /** Where a text block of a result is. */
  ghost predicate IsBlockPath(at: Path) {
    exists i: nat ::
      at in {[Key("content"), Index(i), Key("text")], [Key("contents"), Index(i), Key("text")],
             [Key("content"), Index(i), Key("resource"), Key("text")]}
  }

  /** The text of a content block that reads as the structure does. */
  ghost predicate Mirroring(c: Codec, result: Value, at: Path) {
    && (exists i: nat :: at in {[Key("content"), Index(i), Key("text")]})
    && At(result, at).Some? && At(result, at).value.Str?
    && At(result, [Key("structuredContent")]).Some?
    && c.parse(At(result, at).value.s) == At(result, [Key("structuredContent")])
  }

  /** Nothing is found in `after`: not in the structure, a block, another string, a key, or
    * all of it written out; and what mirrored the structure of `result` still does. */
  ghost predicate FoundNowhere(det: Detector, c: Codec, result: Value, after: Value) {
    && (result.Obj? ==> CleanKeys(det, after))
    && (At(after, [Key("structuredContent")]).Some? ==> CleanStrings(det, At(after, [Key("structuredContent")]).value))
    && (forall at, s :: IsBlockPath(at) && At(result, at) == Some(Str(s)) ==>
          && At(after, at).Some? && At(after, at).value.Str?
          && if Mirroring(c, result, at) then c.parse(At(after, at).value.s) == At(after, [Key("structuredContent")])
             else CleanBlock(det, c, s, At(after, at).value.s))
    && CleanElsewhere(det, after)
    && det(c.show(after, false)) == []
  }
}
