/** What an edit did to a value, change by change, and its check against a schema. */
module Changes {
  import opened Wrappers
  import opened Ordering
  import opened Json
  import opened Schemas
  import opened SchemaSoundness

  /** The string at a path is now this one, or the key at its end was taken out. */
  datatype Change = Replaced(path: Path, text: string) | Removed(path: Path)

  ghost predicate Applies(v: Value, c: Change) {
    match c
    case Replaced(path, _) => At(v, path).Some? && At(v, path).value.Str?
    case Removed(path) => path != [] && path[|path| - 1].IsKey() && At(v, path).Some?
  }

  ghost function Apply(v: Value, c: Change): Value
    requires Applies(v, c)
  {
    match c
    case Replaced(path, text) => Put(v, path, Str(text))
    case Removed(path) => TakenOut(v, path)
  }

  ghost predicate AllApply(v: Value, changes: seq<Change>)
    decreases |changes|
  {
    changes == [] || (Applies(v, changes[0]) && AllApply(Apply(v, changes[0]), changes[1..]))
  }

  ghost function Applied(v: Value, changes: seq<Change>): Value
    requires AllApply(v, changes)
    decreases |changes|
  {
    if changes == [] then v else Applied(Apply(v, changes[0]), changes[1..])
  }

  lemma {:induction false} AppliedConcat(v: Value, a: seq<Change>, b: seq<Change>)
    requires AllApply(v, a) && AllApply(Applied(v, a), b)
    ensures AllApply(v, a + b) && Applied(v, a + b) == Applied(Applied(v, a), b)
    decreases |a|
  {
    hide Applies, Apply;
    if a == [] {
      assert a + b == b;
    } else {
      AppliedConcat(Apply(v, a[0]), a[1..], b);
      assert (a + b)[1..] == a[1..] + b;
    }
  }

  lemma {:induction false} AppliedOne(v: Value, c: Change)
    requires Applies(v, c)
    ensures AllApply(v, [c]) && Applied(v, [c]) == Apply(v, c)
  {
    hide Applies, Apply;
    assert [c][1..] == [];
    assert AllApply(Apply(v, c), []) && Applied(Apply(v, c), []) == Apply(v, c);
  }

  // ----- Two paths

  /** The two steps are to one place. */
  predicate SameSlot(a: Step, b: Step) {
    if a.IsKey() then b.IsKey() && a.key == b.key else a == b
  }

  lemma {:induction false} StepSame(v: Value, a: Step, b: Step, x: Value)
    requires StepInto(v, a).Some? && SameSlot(a, b)
    ensures StepInto(v, b) == StepInto(v, a) && StepInto(Replace(v, a, x), b) == Some(x)
  {
    StepBack(v, a, x);
  }

  lemma {:induction false} StepOther(v: Value, a: Step, b: Step, x: Value)
    requires StepInto(v, a).Some? && !SameSlot(a, b)
    ensures StepInto(Replace(v, a, x), b) == StepInto(v, b)
  {
    if a.IsKey() && b.IsKey() {
      OtherStays(v.members, MemberAt(v.members, a.key).value, a.key, x, b.key);
    }
  }

  lemma {:induction false} OtherStays(ms: seq<Member>, i: nat, key: string, x: Value, other: string)
    requires MemberAt(ms, key) == Some(i) && other != key
    ensures MemberAt(ms[i := Entry(key, x)], other) == MemberAt(ms, other)
    ensures MemberAt(ms, other).Some? ==> MemberAt(ms, other).value != i
  {
    var ns := ms[i := Entry(key, x)];
    if i > 0 {
      OtherStays(ms[1..], i - 1, key, x, other);
      assert ns[1..] == ms[1..][i - 1 := Entry(key, x)];
    } else {
      assert ns[1..] == ms[1..];
    }
  }

  // ----- An edit only takes keys away

  lemma {:induction false} WithoutGets(v: Value, key: string, other: Step)
    requires v.Obj? && Distinct(v.members) && Get(v, key).Some?
    ensures StepInto(Without(v, key), other) ==
            if other.IsKey() && other.key != key then StepInto(v, other) else None
  {
    if other.IsKey() {
      var i := MemberAt(v.members, key).value;
      var rest := v.members[..i] + v.members[i + 1..];
      NamesWithout(v.members, key, i, other.key);
      if other.key != key && MemberAt(v.members, other.key).Some? {
        var j := MemberAt(v.members, other.key).value;
        var k := if j < i then j else j - 1;
        assert rest[k] == v.members[j];
        WithoutDistinct(v.members, i);
        MemberAtIs(rest, k);
      }
    }
  }

  lemma {:induction false} WithoutDistinct(ms: seq<Member>, i: nat)
    requires Distinct(ms) && i < |ms|
    ensures Distinct(ms[..i] + ms[i + 1..])
  {
    var rest := ms[..i] + ms[i + 1..];
    forall j, k | 0 <= j < k < |rest| ensures rest[j].name != rest[k].name {
      var j', k' := if j < i then j else j + 1, if k < i then k else k + 1;
      assert rest[j] == ms[j'] && rest[k] == ms[k'];
    }
  }

  lemma {:induction false} TakenOutIsWellFormed(v: Value, path: Path)
    requires WellFormed(v) && path != [] && path[|path| - 1].IsKey() && At(v, path).Some?
    ensures WellFormed(TakenOut(v, path))
    decreases |path|
  {
    hide Replace, StepInto;
    if |path| == 1 {
      WithoutIsWellFormed(v, path[0]);
    } else {
      StepIsWellFormed(v, path[0]);
      TakenOutIsWellFormed(StepInto(v, path[0]).value, path[1..]);
      ReplaceIsWellFormed(v, path[0], TakenOut(StepInto(v, path[0]).value, path[1..]));
    }
  }

  lemma {:induction false} WithoutIsWellFormed(v: Value, step: Step)
    requires WellFormed(v) && step.IsKey() && StepInto(v, step).Some?
    ensures v.Obj? && Get(v, step.key).Some? && WellFormed(Without(v, step.key))
  {
    var i := MemberAt(v.members, step.key).value;
    WithoutDistinct(v.members, i);
    var rest := v.members[..i] + v.members[i + 1..];
    forall k | 0 <= k < |rest| ensures WellFormed(rest[k].value) {
      assert rest[k] == v.members[if k < i then k else k + 1];
    }
  }

  lemma {:induction false} WithoutIsStorable(v: Value, step: Step, depth: nat)
    requires Storable(v, depth) && step.IsKey() && StepInto(v, step).Some?
    ensures v.Obj? && Get(v, step.key).Some? && Storable(Without(v, step.key), depth)
  {
    var i := MemberAt(v.members, step.key).value;
    var rest := v.members[..i] + v.members[i + 1..];
    forall k | 0 <= k < |rest| ensures Storable(rest[k].value, depth - 1) {
      assert rest[k] == v.members[if k < i then k else k + 1];
    }
    forall j, k | 0 <= j < k < |rest| ensures Before(rest[j].name, rest[k].name) {
      assert rest[j] == v.members[if j < i then j else j + 1] && rest[k] == v.members[if k < i then k else k + 1];
    }
  }

  lemma {:induction false} TakenOutIsStorable(v: Value, path: Path, depth: nat)
    requires Storable(v, depth) && path != [] && path[|path| - 1].IsKey() && At(v, path).Some?
    ensures Storable(TakenOut(v, path), depth)
    decreases |path|
  {
    hide Replace, StepInto, Storable, Without;
    if |path| == 1 {
      WithoutIsStorable(v, path[0], depth);
    } else {
      StepIsStorable(v, path[0], depth);
      TakenOutIsStorable(StepInto(v, path[0]).value, path[1..], depth - 1);
      ReplaceIsStorable(v, path[0], TakenOut(StepInto(v, path[0]).value, path[1..]), depth);
    }
  }

  /** No edit puts a value beyond what the source can hold. */
  lemma {:induction false} AppliedIsStorable(v: Value, changes: seq<Change>, depth: nat)
    requires Storable(v, depth) && AllApply(v, changes)
    ensures Storable(Applied(v, changes), depth)
    decreases |changes|
  {
    hide Storable, At, Put, TakenOut;
    if changes != [] {
      match changes[0] {
        case Replaced(path, text) => PutStrIsStorable(v, path, text, depth);
        case Removed(path) => TakenOutIsStorable(v, path, depth);
      }
      AppliedIsStorable(Apply(v, changes[0]), changes[1..], depth);
    }
  }

  lemma {:induction false} ApplyIsWellFormed(v: Value, c: Change)
    requires WellFormed(v) && Applies(v, c)
    ensures WellFormed(Apply(v, c))
  {
    match c
    case Replaced(path, text) => PutIsWellFormed(v, path, Str(text));
    case Removed(path) => TakenOutIsWellFormed(v, path);
  }

  lemma {:induction false} KeysStep(v: Value, p: Path)
    requires p != []
    ensures KeysAt(v, p) == if StepInto(v, p[0]).Some? then KeysAt(StepInto(v, p[0]).value, p[1..]) else 0
  {
  }

  lemma {:induction false} ReplaceKeepsKeys(v: Value, step: Step, x: Value)
    requires StepInto(v, step).Some?
    ensures KeysAt(Replace(v, step, x), []) == KeysAt(v, [])
  {
  }

  lemma {:induction false} PutShrinks(v: Value, q: Path, text: string, p: Path)
    requires At(v, q).Some? && At(v, q).value.Str?
    ensures KeysAt(Put(v, q, Str(text)), p) <= KeysAt(v, p)
    decreases |q|
  {
    hide StepInto, Replace, KeysAt;
    if q == [] {
      KeysOfStr(v, p);
      KeysOfStr(Str(text), p);
    } else {
      var x := StepInto(v, q[0]).value;
      var x' := Put(x, q[1..], Str(text));
      if p == [] {
        ReplaceKeepsKeys(v, q[0], x');
      } else {
        KeysStep(v, p);
        KeysStep(Replace(v, q[0], x'), p);
        if SameSlot(q[0], p[0]) {
          StepSame(v, q[0], p[0], x');
          PutShrinks(x, q[1..], text, p[1..]);
        } else {
          StepOther(v, q[0], p[0], x');
        }
      }
    }
  }

  lemma {:induction false} KeysOfStr(v: Value, p: Path)
    requires v.Str?
    ensures KeysAt(v, p) == 0
  {
  }

  lemma {:induction false} TakenOutShrinks(v: Value, q: Path, p: Path)
    requires WellFormed(v) && q != [] && q[|q| - 1].IsKey() && At(v, q).Some?
    ensures KeysAt(TakenOut(v, q), p) <= KeysAt(v, p)
    decreases |q|
  {
    hide StepInto, Replace, KeysAt, Without;
    if |q| == 1 {
      WithoutShrinks(v, q[0], p);
    } else {
      var x := StepInto(v, q[0]).value;
      var x' := TakenOut(x, q[1..]);
      StepIsWellFormed(v, q[0]);
      if p == [] {
        ReplaceKeepsKeys(v, q[0], x');
      } else {
        KeysStep(v, p);
        KeysStep(Replace(v, q[0], x'), p);
        if SameSlot(q[0], p[0]) {
          StepSame(v, q[0], p[0], x');
          TakenOutShrinks(x, q[1..], p[1..]);
        } else {
          StepOther(v, q[0], p[0], x');
        }
      }
    }
  }

  lemma {:induction false} WithoutShrinks(v: Value, step: Step, p: Path)
    requires WellFormed(v) && step.IsKey() && StepInto(v, step).Some?
    ensures KeysAt(Without(v, step.key), p) <= KeysAt(v, p)
  {
    if p == [] {
    } else {
      WithoutGets(v, step.key, p[0]);
      hide StepInto, Without, KeysAt;
      KeysStep(v, p);
      KeysStep(Without(v, step.key), p);
    }
  }

  /** What is left of an object at the end of an edit is no more than there was on the way. */
  lemma {:induction false} KeysShrink(v: Value, changes: seq<Change>, p: Path)
    requires WellFormed(v) && AllApply(v, changes)
    ensures KeysAt(Applied(v, changes), p) <= KeysAt(v, p)
    decreases |changes|
  {
    hide WellFormed, KeysAt;
    if changes != [] {
      ApplyIsWellFormed(v, changes[0]);
      match changes[0] {
        case Replaced(q, text) => PutShrinks(v, q, text, p);
        case Removed(q) => TakenOutShrinks(v, q, p);
      }
      KeysShrink(Apply(v, changes[0]), changes[1..], p);
    }
  }

  // ----- The check

  /** What the schema says of one change, `structured` being what the edit left. */
  function Verdict(root: Value, structured: Value, c: Change): Option<bool> {
    match c
    case Replaced(path, text) => StringAt(root, path, text)
    case Removed(path) => RemovalAt(root, path, if path == [] then 0 else KeysAt(structured, path[..|path| - 1]))
  }

  ghost predicate AllAllowed(root: Value, structured: Value, changes: seq<Change>) {
    forall i :: 0 <= i < |changes| ==> Verdict(root, structured, changes[i]) == Some(true)
  }

  /** Whether an edit's changes keep to the schema, at every place they touched. */
  method Checked(root: Option<Value>, structured: Value, changes: seq<Change>) returns (ok: bool)
    ensures ok <==> root.None? || AllAllowed(root.value, structured, changes)
  {
    hide Verdict;
    if root.None? {
      return true;
    }
    for i := 0 to |changes|
      invariant forall k :: 0 <= k < i ==> Verdict(root.value, structured, changes[k]) == Some(true)
    {
      if Verdict(root.value, structured, changes[i]) != Some(true) {
        return false;
      }
    }
    return true;
  }

  /** The unions that a change meets are firm, and each has room for a removal when
    * it is made. */
  ghost predicate RoomAlong(root: Value, v: Value, changes: seq<Change>)
    requires AllApply(v, changes)
    decreases |changes|
  {
    changes != [] ==>
      && Settled(root, changes[0].path, changes[0].Replaced?)
      && (changes[0].Removed? ==> RemovalHasRoom(root, changes[0].path, KeysLeft(v, changes[0].path)))
      && RoomAlong(root, Apply(v, changes[0]), changes[1..])
  }

  /** More keys left is no worse. */
  lemma {:induction false} MoreLeftIsAllowed(root: Value, path: Path, less: nat, more: nat)
    requires RemovalAt(root, path, less) == Some(true) && less <= more
    ensures RemovalAt(root, path, more) == Some(true)
  {
    hide SchemaAt, Container;
  }

  /** An edit whose changes are all allowed keeps a valid structure valid, so long as
    * the unions its removals meet have room: the check looks only at what the edit
    * left, once it was done, and that is enough. */
  lemma {:induction false} CheckedEditKeepsValid(
      more: Scalars, root: Value, v: Value, changes: seq<Change>, structured: Value)
    requires Neutral(more) && WellFormed(v) && Validates(more, root, v)
    requires AllApply(v, changes) && structured == Applied(v, changes)
    requires AllAllowed(root, structured, changes) && RoomAlong(root, v, changes)
    ensures WellFormed(structured) && Validates(more, root, structured)
    decreases |changes|
  {
    hide Neutral, WellFormed, Validates, StringAt, RemovalAt, RemovalHasRoom, KeysLeft, Settled;
    if changes != [] {
      var c := changes[0];
      assert Verdict(root, structured, c) == Some(true);
      ApplyIsWellFormed(v, c);
      match c {
        case Replaced(path, text) =>
          ReplacementKeepsValid(more, root, v, path, text);
        case Removed(path) =>
          var parent := path[..|path| - 1];
          KeysShrink(TakenOut(v, path), changes[1..], parent);
          KeysLeftIs(v, path);
          MoreLeftIsAllowed(root, path, KeysAt(structured, parent), KeysLeft(v, path));
          RemovalIsExact(more, root, v, path);
      }
      forall i | 0 <= i < |changes[1..]| ensures Verdict(root, structured, changes[1..][i]) == Some(true) {
        assert changes[1..][i] == changes[i + 1];
      }
      CheckedEditKeepsValid(more, root, Apply(v, c), changes[1..], structured);
    }
  }

  lemma {:induction false} KeysLeftIs(v: Value, path: Path)
    requires path != [] && path[|path| - 1].IsKey() && At(v, path).Some?
    ensures KeysLeft(v, path) == KeysAt(TakenOut(v, path), path[..|path| - 1])
  {
  }

  /** No removal meets a union, and no other change one that is not firm. */
  ghost predicate NoUnionsMet(root: Value, changes: seq<Change>) {
    forall i :: 0 <= i < |changes| ==>
      if changes[i].Removed? then NoUnions(root, changes[i].path) else Settled(root, changes[i].path, true)
  }

  /** Without unions, the check is enough on its own. */
  lemma {:induction false} RoomWithoutUnionsMet(root: Value, v: Value, changes: seq<Change>, structured: Value)
    requires WellFormed(v) && AllApply(v, changes) && structured == Applied(v, changes)
    requires AllAllowed(root, structured, changes) && NoUnionsMet(root, changes)
    ensures RoomAlong(root, v, changes)
    decreases |changes|
  {
    hide WellFormed, StringAt, RemovalAt, RemovalHasRoom, KeysLeft, NoUnions, Settled;
    if changes != [] {
      var c := changes[0];
      assert Verdict(root, structured, c) == Some(true);
      ApplyIsWellFormed(v, c);
      if c.Removed? {
        var parent := c.path[..|c.path| - 1];
        KeysShrink(TakenOut(v, c.path), changes[1..], parent);
        KeysLeftIs(v, c.path);
        MoreLeftIsAllowed(root, c.path, KeysAt(structured, parent), KeysLeft(v, c.path));
        RoomWithoutUnions(root, c.path, KeysLeft(v, c.path));
        NoUnionsSettles(root, c.path);
      }
      forall i | 0 <= i < |changes[1..]|
        ensures Verdict(root, structured, changes[1..][i]) == Some(true)
        ensures if changes[1..][i].Removed? then NoUnions(root, changes[1..][i].path)
                else Settled(root, changes[1..][i].path, true)
      {
        assert changes[1..][i] == changes[i + 1];
      }
      RoomWithoutUnionsMet(root, Apply(v, c), changes[1..], structured);
    }
  }
}
