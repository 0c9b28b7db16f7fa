/** Editing a value at every place a path names. */
module PathEdits {
  import opened Wrappers
  import opened Json
  import opened Changes
  import opened Places
  import opened Redaction

  const EACH: string := "*"

  // ----- The places a path names

  /** `p` is there, and each of its steps is the key the path has, or any at a `*`. */
  ghost predicate Names(steps: seq<string>, v: Value, p: Path) {
    && |p| == |steps|
    && At(v, p).Some?
    && forall i :: 0 <= i < |p| ==> steps[i] == "*" || (p[i].IsKey() && p[i].key == steps[i])
  }

  /** The places `steps` names in `v`, as paths from `at`. */
  function PlacesIn(v: Value, steps: seq<string>, at: Path): seq<Path>
    decreases |steps|, 0
  {
    if steps == [] then [at]
    else if steps[0] == EACH && v.Arr? then ItemPlaces(v.items, 0, steps, at)
    else if steps[0] == EACH && v.Obj? then MemberPlaces(v.members, 0, steps, at)
    else
      match Get(v, steps[0])
      case None => []
      case Some(x) => PlacesIn(x, steps[1..], at + [Key(steps[0])])
  }

  function ItemPlaces(items: seq<Value>, i: nat, steps: seq<string>, at: Path): seq<Path>
    requires steps != [] && i <= |items|
    decreases |steps| - 1, 1, |items| - i
  {
    if i == |items| then []
    else PlacesIn(items[i], steps[1..], at + [Index(i)]) + ItemPlaces(items, i + 1, steps, at)
  }

  function MemberPlaces(members: seq<Member>, i: nat, steps: seq<string>, at: Path): seq<Path>
    requires steps != [] && i <= |members|
    decreases |steps| - 1, 1, |members| - i
  {
    if i == |members| then []
    else PlacesIn(members[i].value, steps[1..], at + [Found(members[i].name)]) + MemberPlaces(members, i + 1, steps, at)
  }

  ghost predicate NamesFrom(steps: seq<string>, v: Value, at: Path, place: Path) {
    |place| >= |at| && place[..|at|] == at && Names(steps, v, place[|at|..])
  }

  /** One step further in. */
  lemma {:induction false} NamesOnward(steps: seq<string>, v: Value, at: Path, step: Step, place: Path)
    requires steps != [] && StepInto(v, step).Some?
    requires steps[0] == EACH || (step.IsKey() && step.key == steps[0])
    requires NamesFrom(steps[1..], StepInto(v, step).value, at + [step], place)
    ensures NamesFrom(steps, v, at, place)
  {
    hide StepInto;
    assert place[..|at|] == place[..|at| + 1][..|at|] == at;
    assert place[|at|] == place[..|at| + 1][|at|] == step;
    var p := place[|at|..];
    assert p[0] == step && p[1..] == place[|at| + 1..];
    forall i | 0 <= i < |p| ensures steps[i] == EACH || (p[i].IsKey() && p[i].key == steps[i]) {
      if i > 0 { assert p[i] == p[1..][i - 1] && steps[i] == steps[1..][i - 1]; }
    }
  }

  /** Only places the path names. */
  lemma {:induction false} PlacesAreNamed(v: Value, steps: seq<string>, at: Path, place: Path)
    requires WellFormed(v) && place in PlacesIn(v, steps, at)
    ensures NamesFrom(steps, v, at, place)
    decreases |steps|, 0
  {
    hide NamesFrom;
    if steps == [] {
      NamedHere(v, at);
    } else if steps[0] == EACH && v.Arr? {
      var i := WhichItem(v.items, 0, steps, at, place);
      PlacesAreNamed(v.items[i], steps[1..], at + [Index(i)], place);
      NamesOnward(steps, v, at, Index(i), place);
    } else if steps[0] == EACH && v.Obj? {
      var i := WhichMember(v.members, 0, steps, at, place);
      PlacesAreNamed(v.members[i].value, steps[1..], at + [Found(v.members[i].name)], place);
      MemberIsThere(v, i);
      NamesOnward(steps, v, at, Found(v.members[i].name), place);
    } else {
      var x := Get(v, steps[0]).value;
      GetIsWellFormed(v, steps[0]);
      PlacesAreNamed(x, steps[1..], at + [Key(steps[0])], place);
      NamesOnward(steps, v, at, Key(steps[0]), place);
    }
  }

  lemma {:induction false} NamedHere(v: Value, at: Path)
    ensures NamesFrom([], v, at, at)
  {
    assert at[|at|..] == [];
  }

  lemma {:induction false} GetIsWellFormed(v: Value, key: string)
    requires WellFormed(v) && Get(v, key).Some?
    ensures WellFormed(Get(v, key).value) && StepInto(v, Key(key)) == Get(v, key)
  {
  }

  lemma {:induction false} MemberIsThere(v: Value, i: nat)
    requires v.Obj? && WellFormed(v) && i < |v.members|
    ensures StepInto(v, Found(v.members[i].name)) == Some(v.members[i].value) && WellFormed(v.members[i].value)
  {
  }

  lemma {:induction false} WhichItem(
      items: seq<Value>, k: nat, steps: seq<string>, at: Path, place: Path) returns (i: nat)
    requires steps != [] && k <= |items| && place in ItemPlaces(items, k, steps, at)
    ensures i < |items| && place in PlacesIn(items[i], steps[1..], at + [Index(i)])
    decreases |items| - k
  {
    hide PlacesIn;
    if place in PlacesIn(items[k], steps[1..], at + [Index(k)]) {
      i := k;
    } else {
      i := WhichItem(items, k + 1, steps, at, place);
    }
  }

  lemma {:induction false} WhichMember(
      members: seq<Member>, k: nat, steps: seq<string>, at: Path, place: Path) returns (i: nat)
    requires steps != [] && k <= |members| && place in MemberPlaces(members, k, steps, at)
    ensures i < |members| && place in PlacesIn(members[i].value, steps[1..], at + [Found(members[i].name)])
    decreases |members| - k
  {
    hide PlacesIn;
    if place in PlacesIn(members[k].value, steps[1..], at + [Found(members[k].name)]) {
      i := k;
    } else {
      i := WhichMember(members, k + 1, steps, at, place);
    }
  }

  lemma {:induction false} ItemIsListed(items: seq<Value>, k: nat, steps: seq<string>, at: Path, i: nat, place: Path)
    requires steps != [] && k <= i < |items| && place in PlacesIn(items[i], steps[1..], at + [Index(i)])
    ensures place in ItemPlaces(items, k, steps, at)
    decreases i - k
  {
    hide PlacesIn;
    if k < i { ItemIsListed(items, k + 1, steps, at, i, place); }
  }

  lemma {:induction false} MemberIsListed(
      members: seq<Member>, k: nat, steps: seq<string>, at: Path, i: nat, place: Path)
    requires steps != [] && k <= i < |members| &&
             place in PlacesIn(members[i].value, steps[1..], at + [Found(members[i].name)])
    ensures place in MemberPlaces(members, k, steps, at)
    decreases i - k
  {
    hide PlacesIn;
    if k < i { MemberIsListed(members, k + 1, steps, at, i, place); }
  }

  lemma {:induction false} NamesTail(steps: seq<string>, v: Value, p: Path)
    requires steps != [] && Names(steps, v, p)
    ensures p != [] && StepInto(v, p[0]).Some? && Names(steps[1..], StepInto(v, p[0]).value, p[1..])
    ensures steps[0] == EACH || (p[0].IsKey() && p[0].key == steps[0])
    ensures v.Arr? ==> p[0].Index? && p[0].index < |v.items| && StepInto(v, p[0]).value == v.items[p[0].index]
    ensures v.Obj? ==> p[0].IsKey()
  {
  }

  /** Every place the path names, whichever way its steps are written. */
  lemma {:induction false} NamedAreListed(v: Value, steps: seq<string>, at: Path, p: Path) returns (place: Path)
    requires Names(steps, v, p)
    ensures place in PlacesIn(v, steps, at)
    ensures |place| == |at| + |p| && place[..|at|] == at && SamePlace(place[|at|..], p)
    decreases |steps|
  {
    if steps == [] {
      place := at;
    } else {
      var step := p[0];
      var x := StepInto(v, step).value;
      NamesTail(steps, v, p);
      hide Names;
      if steps[0] == EACH && v.Arr? {
        place := NamedAreListed(x, steps[1..], at + [Index(step.index)], p[1..]);
        ItemIsListed(v.items, 0, steps, at, step.index, place);
        Onward(at, Index(step.index), p, place);
      } else if steps[0] == EACH && v.Obj? {
        var i := MemberAt(v.members, step.key).value;
        place := NamedAreListed(x, steps[1..], at + [Found(step.key)], p[1..]);
        MemberIsListed(v.members, 0, steps, at, i, place);
        Onward(at, Found(step.key), p, place);
      } else {
        place := NamedAreListed(x, steps[1..], at + [Key(steps[0])], p[1..]);
        Onward(at, Key(steps[0]), p, place);
      }
    }
  }

  lemma {:induction false} Onward(at: Path, step: Step, p: Path, place: Path)
    requires p != [] && SameSlot(step, p[0])
    requires |place| == |at| + 1 + |p[1..]| && place[..|at| + 1] == at + [step] && SamePlace(place[|at| + 1..], p[1..])
    ensures |place| == |at| + |p| && place[..|at|] == at && SamePlace(place[|at|..], p)
  {
    assert place[..|at|] == place[..|at| + 1][..|at|];
    assert place[|at|] == place[..|at| + 1][|at|];
    forall i | 0 <= i < |p| ensures SameSlot(place[|at|..][i], p[i]) {
      if i > 0 { assert place[|at|..][i] == place[|at| + 1..][i - 1] && p[i] == p[1..][i - 1]; }
    }
  }

  // ----- The edit

  /** The two path edits: a token for a string, or a key gone. */
  datatype Op = Mask(token: string) | Take

  /** What a place holds once it is edited. */
  ghost predicate Edited(op: Op, place: Path, held: Option<Value>) {
    match op
    case Mask(token) => held.None? || held == Some(Null) || held == Some(Str(token))
    case Take => place != [] && place[|place| - 1].IsKey() ==> held.None?
  }

  /** What a mask can be asked of: a string, a null, or nothing at all. */
  predicate Maskable(held: Option<Value>) { held.None? || held.value.Null? || held.value.Str? }

  ghost predicate CanEdit(op: Op, places: seq<Path>, v: Value) {
    op.Mask? ==> forall i :: 0 <= i < |places| ==> Maskable(At(v, places[i]))
  }

  /** The edit part of the way: made in turn, its changes turn `v` into `now`, all of
    * them at places named, and the first `k` places are edited. */
  ghost predicate EditSoFar(op: Op, places: seq<Path>, k: nat, v: Value, now: Value, changes: seq<Change>) {
    && k <= |places|
    && AllApply(v, changes) && now == Applied(v, changes) && WellFormed(now)
    && (forall c :: c in changes ==> c.path in places && ToChange(op, c, At(v, c.path)))
    && (forall i :: 0 <= i < k ==> Edited(op, places[i], At(now, places[i])))
    && (forall i :: 0 <= i < |places| ==> AtPlace(op, At(v, places[i]), At(now, places[i])))
    && (forall q: Path :: (forall i :: 0 <= i < |places| ==> Part(places[i], q)) ==> At(now, q) == At(v, q))
  }

  /** A change the edit has to make: a string that is not the token yet, or a key that is there. */
  ghost predicate ToChange(op: Op, c: Change, was: Option<Value>) {
    match op
    case Mask(token) => c.Replaced? && c.text == token && was.Some? && was.value.Str? && was.value.s != token
    case Take => c.Removed? && was.Some?
  }

  /** What a place holds, part of the way: what it did, or what it is edited to. */
  ghost predicate AtPlace(op: Op, was: Option<Value>, held: Option<Value>) {
    op.Mask? ==> held == was || (was.Some? && was.value.Str? && held == Some(Str(op.token)))
  }

  lemma {:induction false} EditNone(op: Op, places: seq<Path>, v: Value)
    requires WellFormed(v)
    ensures EditSoFar(op, places, 0, v, v, [])
  {
  }

  /** The place next is as the edit wants it already. */
  lemma {:induction false} EditLeft(op: Op, places: seq<Path>, k: nat, v: Value, now: Value, changes: seq<Change>)
    requires EditSoFar(op, places, k, v, now, changes) && k < |places| && Edited(op, places[k], At(now, places[k]))
    ensures EditSoFar(op, places, k + 1, v, now, changes)
  {
    hide Edited, AtPlace, At, Part, WellFormed, AllApply, Applied;
  }

  lemma {:induction false} EditMade(
      op: Op, places: seq<Path>, k: nat, v: Value, now: Value, changes: seq<Change>, c: Change)
    requires EditSoFar(op, places, k, v, now, changes) && k < |places|
    requires forall i, j :: 0 <= i < |places| && 0 <= j < |places| ==> |places[i]| == |places[j]|
    requires ToChange(op, c, At(v, places[k]))
    requires c == (if op.Mask? then Replaced(places[k], op.token) else Removed(places[k])) && Applies(now, c)
    ensures EditSoFar(op, places, k + 1, v, Apply(now, c), changes + [c])
  {
    hide Edited, AtPlace, ToChange, At, Part, SamePlace, WellFormed, Put, TakenOut, AllApply, Applied, Applies, Apply;
    var place, after := places[k], Apply(now, c);
    AppliedOne(now, c);
    AppliedConcat(v, changes, [c]);
    ApplyIsWellFormed(now, c);
    forall i | 0 <= i < |places|
      ensures i <= k ==> Edited(op, places[i], At(after, places[i]))
      ensures AtPlace(op, At(v, places[i]), At(after, places[i]))
    {
      PlaceAfter(op, place, now, c, places[i], At(v, places[i]));
      if i == k { SelfPlace(place); }
    }
    forall q: Path | (forall i :: 0 <= i < |places| ==> Part(places[i], q)) ensures At(after, q) == At(v, q) {
      assert Part(places[k], q);
      AppliedElsewhere(now, c, q);
    }
  }

  lemma {:induction false} SelfPlace(p: Path)
    ensures SamePlace(p, p)
  {
  }

  lemma {:induction false} PlaceAfter(op: Op, place: Path, now: Value, c: Change, p: Path, was: Option<Value>)
    requires WellFormed(now) && Applies(now, c) && |place| == |p|
    requires c == (if op.Mask? then Replaced(place, op.token) else Removed(place))
    requires AtPlace(op, was, At(now, p))
    ensures AtPlace(op, was, At(Apply(now, c), p))
    ensures Edited(op, p, At(now, p)) || SamePlace(place, p) ==> Edited(op, p, At(Apply(now, c), p))
  {
    hide SamePlace, Part, WellFormed, At, Applies, Apply, Edited, AtPlace;
    SameOrPart(place, p);
    if SamePlace(place, p) {
      AppliedThere(op, place, now, c, p, was);
    } else {
      AppliedElsewhere(now, c, p);
    }
  }

  lemma {:induction false} AppliedThere(op: Op, place: Path, now: Value, c: Change, p: Path, was: Option<Value>)
    requires WellFormed(now) && Applies(now, c) && SamePlace(place, p)
    requires c == (if op.Mask? then Replaced(place, op.token) else Removed(place))
    requires AtPlace(op, was, At(now, p))
    ensures Edited(op, p, At(Apply(now, c), p)) && AtPlace(op, was, At(Apply(now, c), p))
  {
    hide SamePlace, Put, TakenOut, WellFormed, At;
    AtSame(now, place, p);
    AtSame(Apply(now, c), place, p);
    if op.Mask? {
      PutThere(now, place, Str(op.token));
    } else {
      TakenFromThere(now, place, p);
    }
  }

  lemma {:induction false} AppliedElsewhere(now: Value, c: Change, q: Path)
    requires WellFormed(now) && Applies(now, c) && Part(c.path, q)
    ensures At(Apply(now, c), q) == At(now, q)
  {
    hide Part, Put, TakenOut, WellFormed, At;
    if c.Replaced? {
      PutElsewhere(now, c.path, Str(c.text), q);
    } else {
      TakenFromElsewhere(now, c.path, q);
    }
  }

  lemma {:induction false} PlacesAreLong(v: Value, steps: seq<string>)
    requires WellFormed(v)
    ensures forall i :: 0 <= i < |PlacesIn(v, steps, [])| ==>
              |PlacesIn(v, steps, [])[i]| == |steps| && At(v, PlacesIn(v, steps, [])[i]).Some?
  {
    hide PlacesIn, WellFormed, At;
    var places := PlacesIn(v, steps, []);
    forall i | 0 <= i < |places| ensures |places[i]| == |steps| && At(v, places[i]).Some? {
      assert places[i] in places;
      PlacesAreNamed(v, steps, [], places[i]);
      assert places[i][0..] == places[i];
    }
  }

  /** The mask's place holds what it cannot do, and did to begin with. */
  lemma {:induction false} CannotMask(op: Op, places: seq<Path>, k: nat, v: Value, now: Value, changes: seq<Change>)
    requires EditSoFar(op, places, k, v, now, changes) && k < |places| && op.Mask?
    ensures Maskable(At(now, places[k])) <==> Maskable(At(v, places[k]))
  {
    hide EditSoFar, At;
    PlaceSoFar(op, places, k, v, now, changes, k);
  }

  /** Goes through the places the path names in `v`, one after another. */
  method EditAt(v: Value, steps: seq<string>, op: Op) returns (r: Result<Value, Fault>, changes: seq<Change>)
    requires WellFormed(v) && steps != []
    ensures r.Ok? <==> CanEdit(op, PlacesIn(v, steps, []), v)
    ensures r.Ok? ==> EditSoFar(op, PlacesIn(v, steps, []), |PlacesIn(v, steps, [])|, v, r.value, changes)
    ensures r.Ok? ==> (changes == [] <==> r.value == v)
    ensures r.Ok? ==> r.value.Obj? == v.Obj? && r.value.Arr? == v.Arr?
  {
    hide EditSoFar, PlacesIn, WellFormed, At, AllApply, Applied, Apply, Applies;
    var places := PlacesIn(v, steps, []);
    PlacesAreLong(v, steps);
    var now := v;
    changes := [];
    EditNone(op, places, v);
    for k := 0 to |places|
      invariant EditSoFar(op, places, k, v, now, changes)
      invariant op.Mask? ==> forall i :: 0 <= i < k ==> Maskable(At(v, places[i]))
      invariant changes == [] <==> now == v
      invariant now.Obj? == v.Obj? && now.Arr? == v.Arr?
    {
      var place := places[k];
      var held := At(now, place);
      EditKeeps(op, places, k, v, now, changes);
      match op {
        case Mask(token) =>
          CannotMask(op, places, k, v, now, changes);
          if held.Some? && held.value.Str? {
            if held.value.s != token {
              MaskApplies(now, place, token);
              PlaceSoFar(op, places, k, v, now, changes, k);
              EditMade(op, places, k, v, now, changes, Replaced(place, token));
              EditDiffers(op, places, k, v, now, changes, Replaced(place, token));
              KindStays(now, Replaced(place, token));
              now := Put(now, place, Str(token));
              changes := changes + [Replaced(place, token)];
            } else {
              EditLeft(op, places, k, v, now, changes);
            }
          } else if held.None? || held.value.Null? {
            EditLeft(op, places, k, v, now, changes);
          } else {
            return Err(Cannot), [];
          }
        case Take =>
          if place[|place| - 1].IsKey() && held.Some? {
            TakeApplies(now, place);
            EditMade(op, places, k, v, now, changes, Removed(place));
            EditDiffers(op, places, k, v, now, changes, Removed(place));
            KindStays(now, Removed(place));
            now := TakenOut(now, place);
            changes := changes + [Removed(place)];
          } else {
            EditLeft(op, places, k, v, now, changes);
          }
      }
    }
    r := Ok(now);
  }

  lemma {:induction false} EditKeeps(op: Op, places: seq<Path>, k: nat, v: Value, now: Value, changes: seq<Change>)
    requires EditSoFar(op, places, k, v, now, changes)
    ensures WellFormed(now)
  {
  }

  lemma {:induction false} KindStays(now: Value, c: Change)
    requires Applies(now, c) && c.path != []
    ensures Apply(now, c).Obj? == now.Obj? && Apply(now, c).Arr? == now.Arr?
  {
  }

  lemma {:induction false} MaskApplies(now: Value, place: Path, token: string)
    requires At(now, place).Some? && At(now, place).value.Str?
    ensures Applies(now, Replaced(place, token)) && Apply(now, Replaced(place, token)) == Put(now, place, Str(token))
  {
  }

  lemma {:induction false} TakeApplies(now: Value, place: Path)
    requires place != [] && place[|place| - 1].IsKey() && At(now, place).Some?
    ensures Applies(now, Removed(place)) && Apply(now, Removed(place)) == TakenOut(now, place)
  {
  }

  /** A change made is not undone: the place it was made at is no longer what it was. */
  lemma {:induction false} EditDiffers(
      op: Op, places: seq<Path>, k: nat, v: Value, now: Value, changes: seq<Change>, c: Change)
    requires EditSoFar(op, places, k, v, now, changes) && k < |places| && Applies(now, c)
    requires c == (if op.Mask? then Replaced(places[k], op.token) else Removed(places[k]))
    requires op.Mask? ==>
             At(now, places[k]).Some? && At(now, places[k]).value.Str? && At(now, places[k]).value.s != op.token
    requires EditSoFar(op, places, k + 1, v, Apply(now, c), changes + [c]) && At(v, places[k]).Some?
    ensures Apply(now, c) != v
  {
    hide EditSoFar, At, Apply;
    PlaceSoFar(op, places, k + 1, v, Apply(now, c), changes + [c], k);
    PlaceSoFar(op, places, k, v, now, changes, k);
  }

  lemma {:induction false} PlaceSoFar(
      op: Op, places: seq<Path>, k: nat, v: Value, now: Value, changes: seq<Change>, i: nat)
    requires EditSoFar(op, places, k, v, now, changes) && i < |places|
    ensures i < k ==> Edited(op, places[i], At(now, places[i]))
    ensures AtPlace(op, At(v, places[i]), At(now, places[i]))
  {
    hide At, Part, WellFormed, AllApply, Applied, Edited, AtPlace;
  }
}
