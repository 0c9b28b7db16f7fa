/** The check is exact where a schema is plain: it refuses an edit there only if the
  * edit breaks the schema. */
module PlainSchemas {
  import opened Wrappers
  import opened Json
  import opened Schemas
  import opened SchemaSoundness
  import opened Changes

  // ----- Plain schemas

  /** Keywords that take a schema out of the plain ones. */
  const INVOLVED: seq<string> :=
    ["$ref", "anyOf", "oneOf", "allOf", "not", "if", "then", "else", "dependentSchemas", "$dynamicRef",
     "$recursiveRef", "unevaluatedProperties", "unevaluatedItems", "patternProperties"]

  /** Keywords that ask more of a string than its length. */
  const TEXTUAL: seq<string> :=
    ["enum", "const", "pattern", "format", "contentEncoding", "contentMediaType", "contentSchema"]

  /** Keywords by which one key asks for another. */
  const DEPENDENT: seq<string> := ["dependentRequired", "dependencies"]

  /** What a schema asks of the value a step reaches. */
  ghost function Asks(schema: Value, step: Step): Value {
    (if step.Index? then OfItem(schema, step.index) else OfMember(schema, step.key)).GetOr(Bool(true))
  }

  /** The schemas down a path are plain, and the last of them has none of `last` either. */
  ghost predicate PlainDown(schema: Value, path: Path, last: seq<string>)
    decreases |path|
  {
    && !HasAny(schema, INVOLVED)
    && if path == [] then !HasAny(schema, last) else PlainDown(Asks(schema, path[0]), path[1..], last)
  }

  /** The schemas that a change has to do with are plain. */
  ghost predicate PlainChange(root: Value, c: Change) {
    match c
    case Replaced(path, _) => PlainDown(root, path, TEXTUAL)
    case Removed(path) => path != [] ==> PlainDown(root, path[..|path| - 1], DEPENDENT)
  }

  /** After the whole edit the change can still be seen: the text is where it was put,
    * or the key is gone from an object that is there. */
  ghost predicate Stands(structured: Value, c: Change) {
    match c
    case Replaced(path, text) => At(structured, path) == Some(Str(text))
    case Removed(path) =>
      && path != [] && path[|path| - 1].IsKey()
      && At(structured, path).None?
      && At(structured, path[..|path| - 1]).Some? && At(structured, path[..|path| - 1]).value.Obj?
  }

  // ----- The code follows a plain schema as it is meant

  lemma {:induction false} NoneOf(schema: Value, keys: seq<string>, key: string)
    requires !HasAny(schema, keys) && key in keys
    ensures Get(schema, key).None?
  {
    hide Get;
    var i :| 0 <= i < |keys| && keys[i] == key;
    assert !Has(schema, keys[i]);
  }

  lemma {:induction false} PlainHasNone(schema: Value)
    requires !HasAny(schema, INVOLVED)
    ensures Union(schema).None? && !HasAny(schema, UNFOLLOWED) && !Has(schema, "patternProperties")
    ensures GetArr(schema, "anyOf").None? && GetArr(schema, "oneOf").None?
  {
    hide Get, HasAny;
    UnfollowedIsInvolved();
    assert INVOLVED[1] == "anyOf" && INVOLVED[2] == "oneOf" && INVOLVED[13] == "patternProperties";
    NoneOf(schema, INVOLVED, "anyOf");
    NoneOf(schema, INVOLVED, "oneOf");
    NoneOf(schema, INVOLVED, "patternProperties");
    forall i | 0 <= i < |UNFOLLOWED| ensures !Has(schema, UNFOLLOWED[i]) { NoneOf(schema, INVOLVED, UNFOLLOWED[i]); }
    NoneHas(schema, UNFOLLOWED);
  }

  lemma {:induction false} UnfollowedIsInvolved()
    ensures forall i :: 0 <= i < |UNFOLLOWED| ==> UNFOLLOWED[i] in INVOLVED
  {
    forall i | 0 <= i < |UNFOLLOWED| ensures UNFOLLOWED[i] in INVOLVED { assert UNFOLLOWED[i] == INVOLVED[i + 3]; }
  }

  lemma {:induction false} NoneHas(schema: Value, keys: seq<string>)
    requires forall i :: 0 <= i < |keys| ==> !Has(schema, keys[i])
    ensures !HasAny(schema, keys)
  {
    hide Has;
  }

  lemma {:induction false} PlainContainer(schema: Value, step: Step)
    requires !HasAny(schema, INVOLVED) && (schema.Obj? || schema.Bool?)
    ensures Container(schema, step, 0) == Some(schema)
  {
    hide HasAny, Union, Get;
    PlainHasNone(schema);
  }

  /** What the code follows is what the schema asks. */
  lemma {:induction false} PlainChild(schema: Value, step: Step)
    requires !HasAny(schema, INVOLVED) && (schema.Obj? || schema == Bool(true))
    ensures Asks(schema, step) != Bool(false) ==> Child(schema, step) == Some(Asks(schema, step))
    ensures Child(schema, step).Some? ==> Child(schema, step).value == Asks(schema, step)
  {
    hide HasAny, Get;
    PlainHasNone(schema);
    if schema.Bool? { NothingIn(schema); }
  }

  lemma {:induction false} NothingIn(schema: Value)
    requires schema.Bool?
    ensures forall key :: Get(schema, key).None?
  {
  }

  lemma {:induction false} StepIsAsked(more: Scalars, schema: Value, v: Value, step: Step)
    requires Validates(more, schema, v) && StepInto(v, step).Some?
    ensures Validates(more, Asks(schema, step), StepInto(v, step).value)
  {
    hide OfItem, OfMember, KeysOk, TypeOk;
    if schema.Bool? {
      NothingIn(schema);
      assert Asks(schema, step) == Bool(true) by { NothingAsked(schema, step); }
    } else if step.IsKey() {
      var i := MemberAt(v.members, step.key).value;
      assert v.members[i].name == step.key;
    }
  }

  lemma {:induction false} NothingAsked(schema: Value, step: Step)
    requires schema.Bool?
    ensures Asks(schema, step) == Bool(true)
  {
    hide Get;
    NothingIn(schema);
  }

  lemma {:induction false} ValidIsSchema(more: Scalars, schema: Value, v: Value)
    requires Validates(more, schema, v)
    ensures schema.Obj? || schema == Bool(true)
  {
  }

  /** The schema found at a plain path is one that what is there keeps to. */
  lemma {:induction false} PlainPlace(more: Scalars, root: Value, w: Value, path: Path, last: seq<string>)
    requires Validates(more, root, w) && At(w, path).Some? && PlainDown(root, path, last)
    ensures SchemaAt(root, path).Some?
    ensures var s := SchemaAt(root, path).value;
            Validates(more, s, At(w, path).value) && !HasAny(s, INVOLVED) && !HasAny(s, last)
    decreases |path|
  {
    hide Validates, HasAny, Container, Child, Asks, StepInto;
    if path != [] {
      var x := StepInto(w, path[0]).value;
      ValidIsSchema(more, root, w);
      StepIsAsked(more, root, w, path[0]);
      ValidIsSchema(more, Asks(root, path[0]), x);
      PlainContainer(root, path[0]);
      PlainChild(root, path[0]);
      PlainPlace(more, Asks(root, path[0]), x, path[1..], last);
    }
  }

  // ----- A valid structure's changes are allowed

  lemma {:induction false} TextualIsValued()
    ensures VALUED == TEXTUAL
  {
  }

  lemma {:induction false} PlainVerdict(schema: Value, text: string)
    requires !HasAny(schema, INVOLVED) && !HasAny(schema, TEXTUAL) && (schema.Obj? || schema.Bool?)
    ensures Frank(schema, 0) && AllowsString(schema, text, 0).Some?
  {
    hide HasAny, Get, Typed, Bound;
    TextualIsValued();
    PlainHasNone(schema);
  }

  lemma {:induction false} StringStands(more: Scalars, root: Value, w: Value, path: Path, text: string)
    requires Neutral(more) && Validates(more, root, w) && PlainDown(root, path, TEXTUAL)
    requires At(w, path) == Some(Str(text))
    ensures StringAt(root, path, text) == Some(true)
  {
    hide Validates, HasAny, PlainDown, Frank, AllowsString, SchemaAt, At, Neutral;
    PlainPlace(more, root, w, path, TEXTUAL);
    var s := SchemaAt(root, path).value;
    ValidIsSchema(more, s, Str(text));
    PlainVerdict(s, text);
    VerdictIsExact(more, s, text, 0);
  }

  lemma {:induction false} GoneIsAllowed(more: Scalars, s: Value, ms: seq<Member>, step: Step)
    requires Validates(more, s, Obj(ms)) && !HasAny(s, INVOLVED) && !HasAny(s, DEPENDENT)
    requires step.IsKey() && MemberAt(ms, step.key).None?
    ensures RemovalFrom(s, step, |ms|) == Some(true)
  {
    hide HasAny, Container, Get, Bound;
    ValidIsSchema(more, s, Obj(ms));
    PlainContainer(s, step);
    assert DEPENDENT[0] == "dependentRequired" && DEPENDENT[1] == "dependencies";
    NoneOf(s, DEPENDENT, "dependentRequired");
    NoneOf(s, DEPENDENT, "dependencies");
    if s.Obj? {
      ValidatesKeys(more, s, Obj(ms));
    }
  }

  lemma {:induction false} RemovalStands(more: Scalars, root: Value, w: Value, path: Path)
    requires Validates(more, root, w) && Stands(w, Removed(path))
    requires PlainDown(root, path[..|path| - 1], DEPENDENT)
    ensures RemovalAt(root, path, KeysAt(w, path[..|path| - 1])) == Some(true)
  {
    hide Validates, HasAny, PlainDown, SchemaAt, RemovalFrom, At;
    var parent, step := path[..|path| - 1], path[|path| - 1];
    var ms := At(w, parent).value.members;
    PlainPlace(more, root, w, parent, DEPENDENT);
    assert path == parent + [step];
    AtThen(w, parent, step);
    GoneIsAllowed(more, SchemaAt(root, parent).value, ms, step);
  }

  lemma {:induction false} AtThen(w: Value, parent: Path, step: Step)
    requires At(w, parent).Some?
    ensures At(w, parent + [step]) == StepInto(At(w, parent).value, step)
    ensures At(w, parent).value.Obj? && step.IsKey() && At(w, parent + [step]).None? ==>
              MemberAt(At(w, parent).value.members, step.key).None?
    decreases |parent|
  {
    hide StepInto;
    if parent == [] {
      assert [] + [step] == [step] && [step][1..] == [];
      if w.Obj? && step.IsKey() { KeyNotThere(w, step); }
    } else {
      assert (parent + [step])[1..] == parent[1..] + [step];
      AtThen(StepInto(w, parent[0]).value, parent[1..], step);
    }
  }

  lemma {:induction false} KeyNotThere(w: Value, step: Step)
    requires step.IsKey() && w.Obj?
    ensures StepInto(w, step).None? ==> MemberAt(w.members, step.key).None?
  {
  }

  // ----- A plain change meets no union

  lemma {:induction false} PlainIsFirm(schema: Value, step: Step, depth: nat)
    requires !HasAny(schema, INVOLVED)
    ensures Firm(schema, step, depth) && !Escapes(schema, step, depth)
  {
    hide HasAny, Get;
    PlainHasNone(schema);
  }

  lemma {:induction false} PlainSettles(root: Value, path: Path)
    requires PlainDown(root, path, TEXTUAL)
    ensures Settled(root, path, true)
    decreases |path|
  {
    hide HasAny, Container, Child, Asks, Firm, Escapes;
    if path == [] {
      PlainHasNone(root);
    } else {
      PlainIsFirm(root, path[0], 0);
      PlainSettles(Asks(root, path[0]), path[1..]);
      FollowedIsAsked(root, path[0]);
    }
  }

  /** Wherever the code gets to from a plain schema, it is what that asks. */
  lemma {:induction false} FollowedIsAsked(schema: Value, step: Step)
    requires !HasAny(schema, INVOLVED)
    ensures Container(schema, step, 0).Some? && Child(Container(schema, step, 0).value, step).Some? ==>
              Child(Container(schema, step, 0).value, step).value == Asks(schema, step)
  {
    hide HasAny, Child, Asks;
    if schema.Obj? || schema.Bool? {
      PlainContainer(schema, step);
      if schema == Bool(false) { FalseHasNoChild(step); } else { PlainChild(schema, step); }
    }
  }

  lemma {:induction false} FalseHasNoChild(step: Step)
    ensures Child(Bool(false), step).None?
  {
  }

  lemma {:induction false} PlainMeetsNoUnion(root: Value, path: Path)
    requires path != [] && PlainDown(root, path[..|path| - 1], DEPENDENT)
    ensures NoUnions(root, path)
    decreases |path|
  {
    hide HasAny, Container, Child, Asks;
    PlainHasNone(root);
    if |path| > 1 {
      assert path[..|path| - 1][1..] == path[1..][..|path[1..]| - 1];
      PlainMeetsNoUnion(Asks(root, path[0]), path[1..]);
      FollowedIsAsked(root, path[0]);
    }
  }

  // ----- The whole

  /** On plain schemas the check is exact: an edit of a valid structure whose changes can
    * all still be seen is allowed if and only if the structure it leaves is valid. */
  lemma {:induction false} PlainEditIsExact(
      more: Scalars, root: Value, v: Value, changes: seq<Change>, structured: Value)
    requires Neutral(more) && WellFormed(v) && Validates(more, root, v)
    requires AllApply(v, changes) && structured == Applied(v, changes)
    requires forall i :: 0 <= i < |changes| ==> PlainChange(root, changes[i]) && Stands(structured, changes[i])
    ensures AllAllowed(root, structured, changes) <==> Validates(more, root, structured)
  {
    hide Neutral, Validates, WellFormed, AllApply, Applied, StringAt, RemovalAt, RoomAlong, PlainDown, At;
    if Validates(more, root, structured) {
      forall i | 0 <= i < |changes| ensures Verdict(root, structured, changes[i]) == Some(true) {
        assert PlainChange(root, changes[i]) && Stands(structured, changes[i]);
        match changes[i]
        case Replaced(path, text) => StringStands(more, root, structured, path, text);
        case Removed(path) => RemovalStands(more, root, structured, path);
      }
    }
    if AllAllowed(root, structured, changes) {
      forall i | 0 <= i < |changes|
        ensures if changes[i].Removed? then NoUnions(root, changes[i].path) else Settled(root, changes[i].path, true)
      {
        assert PlainChange(root, changes[i]) && Stands(structured, changes[i]);
        match changes[i]
        case Replaced(path, text) => PlainSettles(root, path);
        case Removed(path) => PlainMeetsNoUnion(root, path);
      }
      RoomWithoutUnionsMet(root, v, changes, structured);
      CheckedEditKeepsValid(more, root, v, changes, structured);
    }
  }
}
