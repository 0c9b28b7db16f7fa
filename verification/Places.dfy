/** Reading one place of a value after another has been written. */
module Places {
  import opened Wrappers
  import opened Json
  import opened Changes

  /** The two paths part: neither leads into the other. */
  predicate Part(p: Path, q: Path) {
    p != [] && q != [] && (SameSlot(p[0], q[0]) ==> Part(p[1..], q[1..]))
  }

  /** The two paths lead to one place. */
  predicate SamePlace(p: Path, q: Path) {
    |p| == |q| && forall i :: 0 <= i < |p| ==> SameSlot(p[i], q[i])
  }

  lemma {:induction false} SameOrPart(p: Path, q: Path)
    requires |p| == |q|
    ensures SamePlace(p, q) || Part(p, q)
  {
    if p != [] && SameSlot(p[0], q[0]) { SameOrPart(p[1..], q[1..]); }
  }

  lemma {:induction false} AtSame(v: Value, p: Path, q: Path)
    requires SamePlace(p, q)
    ensures At(v, p) == At(v, q)
  {
    if p != [] {
      assert SameSlot(p[0], q[0]);
      if StepInto(v, p[0]).Some? { AtSame(StepInto(v, p[0]).value, p[1..], q[1..]); }
    }
  }

  lemma {:induction false} PutThere(v: Value, p: Path, x: Value)
    requires At(v, p).Some?
    ensures At(Put(v, p, x), p) == Some(x)
    decreases |p|
  {
    hide StepInto, Replace;
    if p != [] {
      PutThere(StepInto(v, p[0]).value, p[1..], x);
      StepBack(v, p[0], Put(StepInto(v, p[0]).value, p[1..], x));
    }
  }

  lemma {:induction false} PutElsewhere(v: Value, p: Path, x: Value, q: Path)
    requires At(v, p).Some? && Part(p, q)
    ensures At(Put(v, p, x), q) == At(v, q)
    decreases |p|
  {
    hide StepInto, Replace;
    var inner := StepInto(v, p[0]).value;
    var x' := Put(inner, p[1..], x);
    if SameSlot(p[0], q[0]) {
      StepSame(v, p[0], q[0], x');
      PutElsewhere(inner, p[1..], x, q[1..]);
    } else {
      StepOther(v, p[0], q[0], x');
    }
  }

  lemma {:induction false} TakenFromThere(v: Value, p: Path, q: Path)
    requires WellFormed(v) && p != [] && p[|p| - 1].IsKey() && At(v, p).Some? && SamePlace(p, q)
    ensures At(TakenOut(v, p), q).None?
    decreases |p|
  {
    hide StepInto, Replace, Without;
    assert SameSlot(p[0], q[0]);
    if |p| == 1 {
      WithoutIsWellFormed(v, p[0]);
      WithoutGets(v, p[0].key, q[0]);
    } else {
      var inner := StepInto(v, p[0]).value;
      StepIsWellFormed(v, p[0]);
      StepSame(v, p[0], q[0], TakenOut(inner, p[1..]));
      TakenFromThere(inner, p[1..], q[1..]);
    }
  }

  lemma {:induction false} TakenFromElsewhere(v: Value, p: Path, q: Path)
    requires WellFormed(v) && p != [] && p[|p| - 1].IsKey() && At(v, p).Some? && Part(p, q)
    ensures At(TakenOut(v, p), q) == At(v, q)
    decreases |p|
  {
    hide StepInto, Replace, Without;
    if |p| == 1 {
      WithoutIsWellFormed(v, p[0]);
      WithoutGets(v, p[0].key, q[0]);
      NoneInto(v, q[0], p[0].key);
    } else {
      var inner := StepInto(v, p[0]).value;
      var x' := TakenOut(inner, p[1..]);
      StepIsWellFormed(v, p[0]);
      if SameSlot(p[0], q[0]) {
        StepSame(v, p[0], q[0], x');
        TakenFromElsewhere(inner, p[1..], q[1..]);
      } else {
        StepOther(v, p[0], q[0], x');
      }
    }
  }

  /** An index leads nowhere in an object. */
  lemma {:induction false} NoneInto(v: Value, step: Step, key: string)
    requires v.Obj?
    ensures !step.IsKey() ==> StepInto(v, step).None?
  {
  }
}
