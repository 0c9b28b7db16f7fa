/** Where a schema is plain, an edit of a result is refused only for breaking it. */
module ExactEdits {
  import opened Wrappers
  import opened Json
  import opened SchemaSoundness
  import opened Schemas
  import opened Changes
  import opened Places
  import opened PlainSchemas
  import opened Redaction
  import opened RedactedTrees
  import opened Results
  import opened PathEdits
  import ResultRedaction
  import ResultEdits
  import Text

  // ----- Objects that stay

  ghost predicate HoldsObject(v: Value, p: Path) { At(v, p).Some? && At(v, p).value.Obj? }

  lemma {:induction false} ObjectStep(v: Value, p: Path)
    requires p != []
    ensures HoldsObject(v, p) <==> StepInto(v, p[0]).Some? && HoldsObject(StepInto(v, p[0]).value, p[1..])
  {
    hide StepInto;
  }

  lemma {:induction false} ReplaceKeepsKind(v: Value, step: Step, x: Value)
    requires StepInto(v, step).Some?
    ensures HoldsObject(Replace(v, step, x), []) <==> HoldsObject(v, [])
  {
  }

  /** A string replaced is no object, and holds none. */
  lemma {:induction false} PutKeepsObject(v: Value, q: Path, text: string, p: Path)
    requires At(v, q).Some? && At(v, q).value.Str? && HoldsObject(v, p)
    ensures HoldsObject(Put(v, q, Str(text)), p)
    decreases |q|
  {
    hide StepInto, Replace, HoldsObject;
    if q == [] {
      NoObjectInString(v, p);
    } else {
      var x := StepInto(v, q[0]).value;
      var x' := Put(x, q[1..], Str(text));
      if p == [] {
        ReplaceKeepsKind(v, q[0], x');
      } else {
        ObjectStep(v, p);
        ObjectStep(Replace(v, q[0], x'), p);
        if SameSlot(q[0], p[0]) {
          StepSame(v, q[0], p[0], x');
          PutKeepsObject(x, q[1..], text, p[1..]);
        } else {
          StepOther(v, q[0], p[0], x');
        }
      }
    }
  }

  lemma {:induction false} NoObjectInString(v: Value, p: Path)
    requires v.Str?
    ensures !HoldsObject(v, p)
  {
  }

  /** A key taken out further in leaves the object. */
  lemma {:induction false} TakenOutKeepsObject(v: Value, q: Path, p: Path)
    requires WellFormed(v) && |p| < |q| && q[|q| - 1].IsKey() && At(v, q).Some? && HoldsObject(v, p)
    ensures HoldsObject(TakenOut(v, q), p)
    decreases |q|
  {
    hide StepInto, Replace, HoldsObject, Without;
    if |q| == 1 {
      WithoutIsObject(v, q[0]);
    } else {
      var x := StepInto(v, q[0]).value;
      var x' := TakenOut(x, q[1..]);
      StepIsWellFormed(v, q[0]);
      if p == [] {
        ReplaceKeepsKind(v, q[0], x');
      } else {
        ObjectStep(v, p);
        ObjectStep(Replace(v, q[0], x'), p);
        if SameSlot(q[0], p[0]) {
          StepSame(v, q[0], p[0], x');
          TakenOutKeepsObject(x, q[1..], p[1..]);
        } else {
          StepOther(v, q[0], p[0], x');
        }
      }
    }
  }

  lemma {:induction false} WithoutIsObject(v: Value, step: Step)
    requires step.IsKey() && StepInto(v, step).Some?
    ensures HoldsObject(Without(v, step.key), [])
  {
  }

  lemma {:induction false} ObjectsStay(v: Value, changes: seq<Change>, p: Path)
    requires WellFormed(v) && AllApply(v, changes) && HoldsObject(v, p)
    requires forall c :: c in changes ==> |p| < |c.path|
    ensures HoldsObject(Applied(v, changes), p)
    decreases |changes|
  {
    hide WellFormed, HoldsObject;
    if changes != [] {
      assert changes[0] in changes;
      ApplyIsWellFormed(v, changes[0]);
      match changes[0] {
        case Replaced(q, text) => PutKeepsObject(v, q, text, p);
        case Removed(q) => TakenOutKeepsObject(v, q, p);
      }
      ObjectsStay(Apply(v, changes[0]), changes[1..], p);
    }
  }

  lemma {:induction false} RemovalsAreOfKeys(v: Value, changes: seq<Change>)
    requires AllApply(v, changes)
    ensures forall c :: c in changes && c.Removed? ==> c.path != [] && c.path[|c.path| - 1].IsKey()
    decreases |changes|
  {
    if changes != [] { RemovalsAreOfKeys(Apply(v, changes[0]), changes[1..]); }
  }

  // ----- Every change an edit reports can still be seen

  lemma {:induction false} PathEditStands(
      op: Op, steps: seq<string>, v: Value, now: Value, changes: seq<Change>)
    requires WellFormed(v) && EditSoFar(op, PlacesIn(v, steps, []), |PlacesIn(v, steps, [])|, v, now, changes)
    ensures forall c :: c in changes ==> Stands(now, c)
  {
    hide PlacesIn, WellFormed, Part, AllApply, Applied, At, Stands;
    var places := PlacesIn(v, steps, []);
    PlacesAreLong(v, steps);
    RemovalsAreOfKeys(v, changes);
    forall c | c in changes ensures Stands(now, c) {
      var i :| 0 <= i < |places| && places[i] == c.path;
      assert Edited(op, places[i], At(now, places[i])) && AtPlace(op, At(v, places[i]), At(now, places[i]));
      match op
      case Mask(token) => TextStands(now, c.path, token);
      case Take =>
        var parent := c.path[..|c.path| - 1];
        assert c.path == parent + [c.path[|c.path| - 1]];
        ParentHolds(v, parent, c.path[|c.path| - 1]);
        ObjectsStay(v, changes, parent);
        GoneStands(now, c.path);
    }
  }

  lemma {:induction false} TextStands(now: Value, path: Path, text: string)
    requires At(now, path) == Some(Str(text))
    ensures Stands(now, Replaced(path, text))
  {
    hide At;
  }

  lemma {:induction false} GoneStands(now: Value, path: Path)
    requires path != [] && path[|path| - 1].IsKey() && At(now, path).None? && HoldsObject(now, path[..|path| - 1])
    ensures Stands(now, Removed(path))
  {
    hide At;
  }

  lemma {:induction false} ParentHolds(v: Value, parent: Path, step: Step)
    requires At(v, parent + [step]).Some? && step.IsKey()
    ensures HoldsObject(v, parent)
    decreases |parent|
  {
    hide StepInto;
    if parent == [] {
      assert [] + [step] == [step];
      KeyIsOfObject(v, step);
    } else {
      assert (parent + [step])[1..] == parent[1..] + [step];
      ParentHolds(StepInto(v, parent[0]).value, parent[1..], step);
    }
  }

  lemma {:induction false} KeyIsOfObject(v: Value, step: Step)
    requires step.IsKey() && StepInto(v, step).Some?
    ensures v.Obj?
  {
  }

  /** Further in. */
  lemma {:induction false} StandsUnder(w: Value, step: Step, c: Change)
    requires c.Replaced? && StepInto(w, step).Some? && Stands(StepInto(w, step).value, c)
    ensures Stands(w, Under(step, c)) && Under(step, c).Replaced?
  {
    hide StepInto;
    assert ([step] + c.path)[1..] == c.path;
  }

  ghost predicate AllStand(w: Value, cs: seq<Change>) {
    forall i :: 0 <= i < |cs| ==> cs[i].Replaced? && Stands(w, cs[i])
  }

  lemma {:induction false} AllStandUnder(w: Value, step: Step, cs: seq<Change>)
    requires StepInto(w, step).Some? && AllStand(StepInto(w, step).value, cs)
    ensures AllStand(w, AllUnder(step, cs))
  {
    hide StepInto, Stands;
    forall i | 0 <= i < |cs| ensures Stands(w, Under(step, cs[i])) { StandsUnder(w, step, cs[i]); }
  }

  lemma {:induction false} RedactionStands(v: Value, w: Value)
    requires WellFormed(w) && SameNames(v, w)
    ensures AllStand(w, ChangesOf(v, w))
    decreases v, 1, 0
  {
    match (v, w)
    case (Arr(items), Arr(others)) => ItemsStand(v, w, |items|);
    case (Obj(members), Obj(others)) => MembersStand(v, w, |members|);
    case _ =>
  }

  /** The two have the same keys in the same order, all the way down. */
  ghost predicate SameNames(v: Value, w: Value) {
    match (v, w)
    case (Arr(items), Arr(others)) =>
      |items| == |others| && forall i :: 0 <= i < |items| ==> SameNames(items[i], others[i])
    case (Obj(members), Obj(others)) =>
      |members| == |others| &&
      forall i :: 0 <= i < |members| ==>
        members[i].name == others[i].name && SameNames(members[i].value, others[i].value)
    case _ => true
  }

  lemma {:induction false} ItemsStand(v: Value, w: Value, n: nat)
    requires v.Arr? && w.Arr? && WellFormed(w) && SameNames(v, w) && n <= |v.items|
    ensures AllStand(w, ItemChanges(v, w, n))
    decreases v, 0, n
  {
    hide ChangesOf, Stands;
    if n > 0 {
      ItemsStand(v, w, n - 1);
      RedactionStands(v.items[n - 1], w.items[n - 1]);
      AllStandUnder(w, Index(n - 1), ChangesOf(v.items[n - 1], w.items[n - 1]));
    }
  }

  lemma {:induction false} MembersStand(v: Value, w: Value, n: nat)
    requires v.Obj? && w.Obj? && WellFormed(w) && SameNames(v, w) && n <= |v.members|
    ensures AllStand(w, MemberChanges(v, w, n))
    decreases v, 0, n
  {
    hide ChangesOf, Stands;
    if n > 0 {
      MembersStand(v, w, n - 1);
      MemberIsBelow(v, v.members[n - 1]);
      RedactionStands(v.members[n - 1].value, w.members[n - 1].value);
      MemberAtIs(w.members, n - 1);
      AllStandUnder(w, Found(v.members[n - 1].name), ChangesOf(v.members[n - 1].value, w.members[n - 1].value));
    }
  }

  lemma {:induction false} FollowsNames(f: Rewrite, v: Value, w: Value, at: Path, skip: Skip)
    requires Follows(f, v, w, at, skip)
    ensures SameNames(v, w)
    decreases v
  {
    match v
    case Arr(items) =>
      forall i | 0 <= i < |items| ensures SameNames(items[i], w.items[i]) {
        var inside := at + [Index(i)];
        assert FollowsAt(f, items[i], w.items[i], inside, skip);
        if skip(inside) { OwnNames(items[i]); } else { FollowsNames(f, items[i], w.items[i], inside, skip); }
      }
    case Obj(members) =>
      forall i | 0 <= i < |members| ensures SameNames(members[i].value, w.members[i].value) {
        MemberIsBelow(v, members[i]);
        var inside := at + [Found(members[i].name)];
        assert FollowsAt(f, members[i].value, w.members[i].value, inside, skip);
        if skip(inside) {
          OwnNames(members[i].value);
        } else {
          FollowsNames(f, members[i].value, w.members[i].value, inside, skip);
        }
      }
    case _ =>
  }

  lemma {:induction false} OwnNames(v: Value)
    ensures SameNames(v, v)
  {
    match v
    case Arr(items) =>
      forall i | 0 <= i < |items| ensures SameNames(items[i], items[i]) { OwnNames(items[i]); }
    case Obj(members) =>
      forall i | 0 <= i < |members| ensures SameNames(members[i].value, members[i].value) {
        MemberIsBelow(v, members[i]);
        OwnNames(members[i].value);
      }
    case _ =>
  }

  // ----- The check of an edit, exactly

  ghost predicate AllPlain(schema: Value, changes: seq<Change>) {
    forall i :: 0 <= i < |changes| ==> PlainChange(schema, changes[i])
  }

  lemma {:induction false} StandingIsExact(
      more: Scalars, schema: Value, mirrors: seq<Block>, before: Value, after: Value, changes: seq<Change>,
      changed: bool)
    requires ResultEdits.EditKept(mirrors, before, after, changes, changed) && Storable(before, MAX_DEPTH)
    requires At(before, STRUCTURE).Some? && ResultEdits.Fits(more, Some(schema), At(before, STRUCTURE).value)
    requires AllPlain(schema, changes) && At(after, STRUCTURE).Some?
    requires forall c :: c in changes ==> Stands(At(after, STRUCTURE).value, c)
    ensures ResultEdits.Allowed(Some(schema), after, changes) <==>
            ResultEdits.Fits(more, Some(schema), At(after, STRUCTURE).value)
  {
    hide At, TextAt, Storable, Neutral, Validates, AllAllowed, AllApply, Applied, PlainChange, Stands;
    StructureIsStorable(before);
    PlainEditIsExact(more, schema, At(before, STRUCTURE).value, changes, At(after, STRUCTURE).value);
  }

  /** A structure that fits a schema, plain where an edit changes it: the edit is allowed
    * if and only if what it leaves fits. */
  lemma {:induction false} AllowedIsFitting(
      c: Codec, edit: ResultEdits.ResultEdit, rule: string, det: Option<Detector>, mirrors: seq<Block>,
      more: Scalars, schema: Value, before: Value, after: Value, changes: seq<Change>, changed: bool)
    requires ResultEdits.OneDone(c, edit, rule, det, mirrors, before, after, changes, changed)
    requires ResultEdits.EditKept(mirrors, before, after, changes, changed) && Storable(before, MAX_DEPTH)
    requires At(before, STRUCTURE).Some? && ResultEdits.Fits(more, Some(schema), At(before, STRUCTURE).value)
    requires AllPlain(schema, changes)
    ensures At(after, STRUCTURE).Some?
    ensures ResultEdits.Allowed(Some(schema), after, changes) <==>
            ResultEdits.Fits(more, Some(schema), At(after, STRUCTURE).value)
  {
    hide ResultEdits.EditKept, ResultEdits.Fits, ResultEdits.Allowed, ResultEdits.PathDone, ResultRedaction.Done,
         AllPlain, Stands, At, Storable;
    ResultEdits.KeptStructure(mirrors, before, after, changes, changed);
    match edit {
      case RedactSecrets => RedactedStands(c, det.value, false, mirrors, before, after, changes);
      case MaskAt(path) => PathStands(c, mirrors, path, Mask(ResultEdits.MaskToken(rule)), before, after, changes);
      case RemoveAt(path) => PathStands(c, mirrors, path, Take, before, after, changes);
      case TruncateTexts(_) =>
    }
    StandingIsExact(more, schema, mirrors, before, after, changes, changed);
  }

  lemma {:induction false} PathStands(
      c: Codec, mirrors: seq<Block>, path: string, op: Op, before: Value, after: Value, changes: seq<Change>)
    requires ResultEdits.PathDone(c, mirrors, Text.Split(path, '.'), op, before, after, changes)
    requires Storable(before, MAX_DEPTH) && At(before, STRUCTURE).Some? && At(after, STRUCTURE).Some?
    ensures forall change :: change in changes ==> Stands(At(after, STRUCTURE).value, change)
  {
    hide At, TextAt, Storable, EditSoFar, Stands;
    StructureIsStorable(before);
    PathEditStands(
      op, Text.Split(path, '.'), At(before, STRUCTURE).value, At(after, STRUCTURE).value, changes);
  }

  lemma {:induction false} RedactedStands(
      c: Codec, det: Detector, strict: bool, mirrors: seq<Block>, before: Value, after: Value, changes: seq<Change>)
    requires ResultRedaction.Done(det, strict, c, mirrors, before, after, changes)
    requires Storable(after, MAX_DEPTH) && At(before, STRUCTURE).Some? && At(after, STRUCTURE).Some?
    ensures forall change :: change in changes ==> Stands(At(after, STRUCTURE).value, change)
  {
    hide At, TextAt, Storable, Stands, Follows, ChangesOf;
    StructureIsStorable(after);
    FollowsNames(Rewriting(det, strict), At(before, STRUCTURE).value, At(after, STRUCTURE).value, [], NoSkip());
    RedactionStands(At(before, STRUCTURE).value, At(after, STRUCTURE).value);
  }

  /** So with the redaction of a whole result. */
  lemma {:induction false} RedactionIsExact(
      c: Codec, det: Detector, mirrors: seq<Block>,
      more: Scalars, schema: Value, before: Value, after: Value, changes: seq<Change>, changed: bool)
    requires ResultRedaction.Done(det, true, c, mirrors, before, after, changes)
    requires ResultEdits.EditKept(mirrors, before, after, changes, changed) && Storable(before, MAX_DEPTH)
    requires At(before, STRUCTURE).Some? && ResultEdits.Fits(more, Some(schema), At(before, STRUCTURE).value)
    requires AllPlain(schema, changes)
    ensures At(after, STRUCTURE).Some?
    ensures ResultEdits.Allowed(Some(schema), after, changes) <==>
            ResultEdits.Fits(more, Some(schema), At(after, STRUCTURE).value)
  {
    hide ResultEdits.EditKept, ResultEdits.Fits, ResultEdits.Allowed, ResultRedaction.Done, AllPlain, Stands, At,
         Storable;
    ResultEdits.KeptStructure(mirrors, before, after, changes, changed);
    RedactedStands(c, det, true, mirrors, before, after, changes);
    StandingIsExact(more, schema, mirrors, before, after, changes, changed);
  }
}
