/** Redacting every string of a JSON value, and checking its keys. */
module RedactedTrees {
  import opened Wrappers
  import opened Ordering
  import opened Json
  import opened SchemaSoundness
  import opened Changes
  import opened Redaction

  /** Which paths are not to be entered. */
  type Skip = Path -> bool

  function NoSkip(): Skip { _ => false }

  /** Every string of `v` the walk enters has the property. */
  ghost predicate Strings(p: string -> bool, v: Value, at: Path, skip: Skip)
    decreases v, 0
  {
    match v
    case Str(s) => p(s)
    case Arr(items) =>
      forall i :: 0 <= i < |items| ==> StringsAt(p, items[i], at + [Index(i)], skip)
    case Obj(members) =>
      forall i :: 0 <= i < |members| ==> StringsAt(p, members[i].value, at + [Found(members[i].name)], skip)
    case _ => true
  }

  ghost predicate StringsAt(p: string -> bool, v: Value, at: Path, skip: Skip)
    decreases v, 1
  {
    skip(at) || Strings(p, v, at, skip)
  }

  /** What a pass makes of a text. */
  type Rewrite = string -> Result<string, Fault>

  /** `w` is `v` with each string the walk enters rewritten, and all else as it was. */
  ghost predicate Follows(f: Rewrite, v: Value, w: Value, at: Path, skip: Skip)
    decreases v, 0
  {
    match v
    case Str(s) => w.Str? && f(s) == Ok(w.s)
    case Arr(items) =>
      && w.Arr? && |w.items| == |items|
      && forall i :: 0 <= i < |items| ==> FollowsAt(f, items[i], w.items[i], at + [Index(i)], skip)
    case Obj(members) =>
      && w.Obj? && |w.members| == |members|
      && forall i :: 0 <= i < |members| ==>
           w.members[i].name == members[i].name &&
           FollowsAt(f, members[i].value, w.members[i].value, at + [Found(members[i].name)], skip)
    case _ => w == v
  }

  ghost predicate FollowsAt(f: Rewrite, v: Value, w: Value, at: Path, skip: Skip)
    decreases v, 1
  {
    if skip(at) then w == v else Follows(f, v, w, at, skip)
  }

  // ----- What changed

  /** A path further in. */
  function Under(step: Step, c: Change): Change { c.(path := [step] + c.path) }

  function AllUnder(step: Step, cs: seq<Change>): (r: seq<Change>)
    ensures |r| == |cs| && forall i :: 0 <= i < |cs| ==> r[i] == Under(step, cs[i])
  {
    seq(|cs|, i requires 0 <= i < |cs| => Under(step, cs[i]))
  }

  /** The strings that differ between two values of one shape, in order. */
  function ChangesOf(v: Value, w: Value): seq<Change>
    decreases v, 1, 0
  {
    match (v, w)
    case (Str(s), Str(t)) => if s == t then [] else [Replaced([], t)]
    case (Arr(items), Arr(others)) => if |items| == |others| then ItemChanges(v, w, |items|) else []
    case (Obj(members), Obj(others)) => if |members| == |others| then MemberChanges(v, w, |members|) else []
    case _ => []
  }

  /** Those of the first `n` items. */
  function ItemChanges(v: Value, w: Value, n: nat): seq<Change>
    requires v.Arr? && w.Arr? && |v.items| == |w.items| && n <= |v.items|
    decreases v, 0, n
  {
    if n == 0 then []
    else ItemChanges(v, w, n - 1) + AllUnder(Index(n - 1), ChangesOf(v.items[n - 1], w.items[n - 1]))
  }

  function MemberChanges(v: Value, w: Value, n: nat): seq<Change>
    requires v.Obj? && w.Obj? && |v.members| == |w.members| && n <= |v.members|
    decreases v, 0, n
  {
    if n == 0 then []
    else
      MemberIsBelow(v, v.members[n - 1]);
      MemberChanges(v, w, n - 1) +
      AllUnder(Found(v.members[n - 1].name), ChangesOf(v.members[n - 1].value, w.members[n - 1].value))
  }

  lemma {:induction false} NoChanges(v: Value)
    ensures ChangesOf(v, v) == []
    decreases v, 1, 0
  {
    match v
    case Arr(items) => NoItemChanges(v, |items|);
    case Obj(members) => NoMemberChanges(v, |members|);
    case _ =>
  }

  lemma {:induction false} NoItemChanges(v: Value, n: nat)
    requires v.Arr? && n <= |v.items|
    ensures ItemChanges(v, v, n) == []
    decreases v, 0, n
  {
    if n > 0 {
      NoItemChanges(v, n - 1);
      NoChanges(v.items[n - 1]);
    }
  }

  lemma {:induction false} NoMemberChanges(v: Value, n: nat)
    requires v.Obj? && n <= |v.members|
    ensures MemberChanges(v, v, n) == []
    decreases v, 0, n
  {
    if n > 0 {
      NoMemberChanges(v, n - 1);
      MemberIsBelow(v, v.members[n - 1]);
      NoChanges(v.members[n - 1].value);
    }
  }

  // ----- Every string

  predicate Redactable(det: Detector, strict: bool, s: string) { Redacted(det, strict, s).Ok? }

  function Rewriting(det: Detector, strict: bool): Rewrite { s => Redacted(det, strict, s) }

  function Working(det: Detector, strict: bool): string -> bool { s => Redactable(det, strict, s) }

  /** Redacts every string in `v` the walk enters, from `at`; each one changed is reported, with its path. */
  method EachString(det: Detector, strict: bool, v: Value, at: Path, skip: Skip)
    returns (r: Result<Value, Fault>, changes: seq<Change>)
    ensures r.Ok? <==> Strings(Working(det, strict), v, at, skip)
    ensures r.Ok? ==> Follows(Rewriting(det, strict), v, r.value, at, skip) && changes == ChangesOf(v, r.value)
    decreases v, 1
  {
    hide Redacted, ItemChanges, MemberChanges;
    changes := [];
    match v {
      case Str(s) =>
        var redacted := RedactText(det, strict, s);
        if redacted.Err? {
          return Err(redacted.error), [];
        }
        if redacted.value.1 {
          changes := [Replaced([], redacted.value.0)];
        }
        r := Ok(Str(redacted.value.0));
      case Arr(items) =>
        r, changes := EachItem(det, strict, v, at, skip);
      case Obj(members) =>
        r, changes := EachMember(det, strict, v, at, skip);
      case _ =>
        NoChanges(v);
        r := Ok(v);
    }
  }

  method EachItem(det: Detector, strict: bool, v: Value, at: Path, skip: Skip)
    returns (r: Result<Value, Fault>, changes: seq<Change>)
    requires v.Arr?
    ensures r.Ok? <==> Strings(Working(det, strict), v, at, skip)
    ensures r.Ok? ==> Follows(Rewriting(det, strict), v, r.value, at, skip) && changes == ChangesOf(v, r.value)
    decreases v, 0
  {
    hide Redacted, ChangesOf, Strings, Follows;
    var after: seq<Value> := [];
    changes := [];
    for i := 0 to |v.items|
      invariant |after| == i
      invariant forall k :: 0 <= k < i ==>
                  StringsAt(Working(det, strict), v.items[k], at + [Index(k)], skip)
      invariant forall k :: 0 <= k < i ==>
                FollowsAt(Rewriting(det, strict), v.items[k], after[k], at + [Index(k)], skip)
      invariant changes == ItemChanges(v, Arr(after + v.items[i..]), i)
    {
      var item, within := v.items[i], [];
      if !skip(at + [Index(i)]) {
        var one;
        one, within := EachString(det, strict, v.items[i], at + [Index(i)], skip);
        if one.Err? {
          StringsOfItems(Working(det, strict), v, at, skip);
          return Err(one.error), [];
        }
        item := one.value;
      } else {
        NoChanges(item);
      }
      ItemMore(v, after + v.items[i..], i, item);
      assert (after + v.items[i..])[i := item] == after + [item] + v.items[i + 1..];
      changes := changes + AllUnder(Index(i), within);
      after := after + [item];
    }
    assert after + v.items[|v.items|..] == after;
    r := Ok(Arr(after));
    ItemsAll(v, Arr(after));
    StringsOfItems(Working(det, strict), v, at, skip);
    FollowsInItems(Rewriting(det, strict), v, Arr(after), at, skip);
  }

  lemma {:induction false} StringsOfItems(p: string -> bool, v: Value, at: Path, skip: Skip)
    requires v.Arr?
    ensures Strings(p, v, at, skip) <==>
            forall i :: 0 <= i < |v.items| ==> StringsAt(p, v.items[i], at + [Index(i)], skip)
  {
  }

  lemma {:induction false} StringsOfMembers(p: string -> bool, v: Value, at: Path, skip: Skip)
    requires v.Obj?
    ensures Strings(p, v, at, skip) <==>
            forall i :: 0 <= i < |v.members| ==>
              StringsAt(p, v.members[i].value, at + [Found(v.members[i].name)], skip)
  {
  }

  lemma {:induction false} FollowsInItems(f: Rewrite, v: Value, w: Value, at: Path, skip: Skip)
    requires v.Arr? && w.Arr? && |w.items| == |v.items|
    requires forall i :: 0 <= i < |v.items| ==> FollowsAt(f, v.items[i], w.items[i], at + [Index(i)], skip)
    ensures Follows(f, v, w, at, skip)
  {
  }

  lemma {:induction false} FollowsInMembers(f: Rewrite, v: Value, w: Value, at: Path, skip: Skip)
    requires v.Obj? && w.Obj? && |w.members| == |v.members|
    requires forall i :: 0 <= i < |v.members| ==>
               w.members[i].name == v.members[i].name &&
               FollowsAt(f, v.members[i].value, w.members[i].value, at + [Found(v.members[i].name)], skip)
    ensures Follows(f, v, w, at, skip)
  {
  }

  lemma {:induction false} ItemsAll(v: Value, w: Value)
    requires v.Arr? && w.Arr? && |v.items| == |w.items|
    ensures ChangesOf(v, w) == ItemChanges(v, w, |v.items|)
  {
  }

  lemma {:induction false} ItemsUpTo(v: Value, a: seq<Value>, b: seq<Value>, n: nat)
    requires v.Arr? && |a| == |b| == |v.items| && n <= |a| && a[..n] == b[..n]
    ensures ItemChanges(v, Arr(a), n) == ItemChanges(v, Arr(b), n)
    decreases n
  {
    hide ChangesOf;
    if n > 0 {
      assert a[..n - 1] == a[..n][..n - 1] && b[..n - 1] == b[..n][..n - 1] && a[..n][n - 1] == b[..n][n - 1];
      ItemsUpTo(v, a, b, n - 1);
    }
  }

  lemma {:induction false} ItemMore(v: Value, a: seq<Value>, i: nat, item: Value)
    requires v.Arr? && |a| == |v.items| && i < |a|
    ensures ItemChanges(v, Arr(a[i := item]), i + 1) ==
            ItemChanges(v, Arr(a), i) + AllUnder(Index(i), ChangesOf(v.items[i], item))
  {
    hide ChangesOf;
    ItemsUpTo(v, a, a[i := item], i);
  }

  method EachMember(det: Detector, strict: bool, v: Value, at: Path, skip: Skip)
    returns (r: Result<Value, Fault>, changes: seq<Change>)
    requires v.Obj?
    ensures r.Ok? <==> Strings(Working(det, strict), v, at, skip)
    ensures r.Ok? ==> Follows(Rewriting(det, strict), v, r.value, at, skip) && changes == ChangesOf(v, r.value)
    decreases v, 0
  {
    hide Redacted, ChangesOf, Strings, Follows;
    var after: seq<Member> := [];
    changes := [];
    for i := 0 to |v.members|
      invariant |after| == i
      invariant forall k :: 0 <= k < i ==>
                  StringsAt(Working(det, strict), v.members[k].value, at + [Found(v.members[k].name)], skip)
      invariant forall k :: 0 <= k < i ==>
                  after[k].name == v.members[k].name &&
                  FollowsAt(
                    Rewriting(det, strict), v.members[k].value, after[k].value, at + [Found(v.members[k].name)], skip)
      invariant changes == MemberChanges(v, Obj(after + v.members[i..]), i)
    {
      var member, within := v.members[i], [];
      MemberIsBelow(v, member);
      if !skip(at + [Found(member.name)]) {
        var one;
        one, within := EachString(det, strict, v.members[i].value, at + [Found(member.name)], skip);
        if one.Err? {
          StringsOfMembers(Working(det, strict), v, at, skip);
          return Err(one.error), [];
        }
        member := Entry(member.name, one.value);
      } else {
        NoChanges(member.value);
      }
      MemberMore(v, after + v.members[i..], i, member);
      assert (after + v.members[i..])[i := member] == after + [member] + v.members[i + 1..];
      changes := changes + AllUnder(Found(member.name), within);
      after := after + [member];
    }
    assert after + v.members[|v.members|..] == after;
    r := Ok(Obj(after));
    MembersAll(v, Obj(after));
    StringsOfMembers(Working(det, strict), v, at, skip);
    FollowsInMembers(Rewriting(det, strict), v, Obj(after), at, skip);
  }

  lemma {:induction false} MembersAll(v: Value, w: Value)
    requires v.Obj? && w.Obj? && |v.members| == |w.members|
    ensures ChangesOf(v, w) == MemberChanges(v, w, |v.members|)
  {
  }

  lemma {:induction false} MembersUpTo(v: Value, a: seq<Member>, b: seq<Member>, n: nat)
    requires v.Obj? && |a| == |b| == |v.members| && n <= |a| && a[..n] == b[..n]
    ensures MemberChanges(v, Obj(a), n) == MemberChanges(v, Obj(b), n)
    decreases n
  {
    hide ChangesOf;
    if n > 0 {
      assert a[..n - 1] == a[..n][..n - 1] && b[..n - 1] == b[..n][..n - 1] && a[..n][n - 1] == b[..n][n - 1];
      MembersUpTo(v, a, b, n - 1);
    }
  }

  lemma {:induction false} MemberMore(v: Value, a: seq<Member>, i: nat, m: Member)
    requires v.Obj? && |a| == |v.members| && i < |a|
    ensures MemberChanges(v, Obj(a[i := m]), i + 1) ==
            MemberChanges(v, Obj(a), i) + AllUnder(Found(v.members[i].name), ChangesOf(v.members[i].value, m.value))
  {
    hide ChangesOf;
    MembersUpTo(v, a, a[i := m], i);
  }

  // ----- What the pass leaves

  function Cleaning(det: Detector, strict: bool): string -> bool { s => Clean(det, strict, s) }

  /** No string the walk entered still holds anything. */
  lemma {:induction false} FollowsIsClean(det: Detector, strict: bool, v: Value, w: Value, at: Path, skip: Skip)
    requires Follows(Rewriting(det, strict), v, w, at, skip)
    ensures Strings(Cleaning(det, strict), w, at, skip)
    decreases v
  {
    match v
    case Arr(items) =>
      forall i | 0 <= i < |items| ensures StringsAt(Cleaning(det, strict), w.items[i], at + [Index(i)], skip) {
        assert FollowsAt(Rewriting(det, strict), items[i], w.items[i], at + [Index(i)], skip);
        if !skip(at + [Index(i)]) { FollowsIsClean(det, strict, items[i], w.items[i], at + [Index(i)], skip); }
      }
    case Obj(members) =>
      forall i | 0 <= i < |members|
        ensures StringsAt(Cleaning(det, strict), w.members[i].value, at + [Found(w.members[i].name)], skip)
      {
        MemberIsBelow(v, members[i]);
        var inside := at + [Found(members[i].name)];
        assert FollowsAt(Rewriting(det, strict), members[i].value, w.members[i].value, inside, skip);
        if !skip(inside) { FollowsIsClean(det, strict, members[i].value, w.members[i].value, inside, skip); }
      }
    case _ =>
  }

  ghost predicate AllKeys(p: string -> bool, v: Value) {
    match v
    case Arr(items) => forall i :: 0 <= i < |items| ==> AllKeys(p, items[i])
    case Obj(members) => forall i :: 0 <= i < |members| ==> p(members[i].name) && AllKeys(p, members[i].value)
    case _ => true
  }

  /** The pass leaves every key as it was. */
  lemma {:induction false} FollowsKeepsKeys(f: Rewrite, p: string -> bool, v: Value, w: Value, at: Path, skip: Skip)
    requires Follows(f, v, w, at, skip) && AllKeys(p, v)
    ensures AllKeys(p, w)
    decreases v
  {
    match v
    case Arr(items) =>
      forall i | 0 <= i < |items| ensures AllKeys(p, w.items[i]) {
        assert FollowsAt(f, items[i], w.items[i], at + [Index(i)], skip);
        if !skip(at + [Index(i)]) { FollowsKeepsKeys(f, p, items[i], w.items[i], at + [Index(i)], skip); }
      }
    case Obj(members) =>
      forall i | 0 <= i < |members| ensures p(w.members[i].name) && AllKeys(p, w.members[i].value) {
        MemberIsBelow(v, members[i]);
        var inside := at + [Found(members[i].name)];
        assert FollowsAt(f, members[i].value, w.members[i].value, inside, skip);
        if !skip(inside) { FollowsKeepsKeys(f, p, members[i].value, w.members[i].value, inside, skip); }
      }
    case _ =>
  }

  lemma {:induction false} FollowsIsStorable(f: Rewrite, v: Value, w: Value, at: Path, skip: Skip, depth: nat)
    requires Storable(v, depth) && Follows(f, v, w, at, skip)
    ensures Storable(w, depth)
    decreases v
  {
    match v
    case Arr(items) =>
      forall i | 0 <= i < |items| ensures Storable(w.items[i], depth - 1) {
        assert FollowsAt(f, items[i], w.items[i], at + [Index(i)], skip);
        if !skip(at + [Index(i)]) { FollowsIsStorable(f, items[i], w.items[i], at + [Index(i)], skip, depth - 1); }
      }
    case Obj(members) =>
      forall i | 0 <= i < |members| ensures Storable(w.members[i].value, depth - 1) {
        MemberIsBelow(v, members[i]);
        var inside := at + [Found(members[i].name)];
        assert FollowsAt(f, members[i].value, w.members[i].value, inside, skip);
        if !skip(inside) { FollowsIsStorable(f, members[i].value, w.members[i].value, inside, skip, depth - 1); }
      }
    case _ =>
  }

  // ----- The changes reported are the changes made

  lemma {:induction false} ReplaceSame(v: Value, step: Step)
    requires StepInto(v, step).Some?
    ensures Replace(v, step, StepInto(v, step).value) == v
  {
    if step.IsKey() {
      var i := MemberAt(v.members, step.key).value;
      assert v.members[i := Entry(step.key, StepInto(v, step).value)] == v.members;
    } else {
      assert v.items[step.index := v.items[step.index]] == v.items;
    }
  }

  lemma {:induction false} ReplaceTwice(v: Value, step: Step, x: Value, y: Value)
    requires StepInto(v, step).Some?
    ensures StepInto(Replace(v, step, x), step) == Some(x)
    ensures Replace(Replace(v, step, x), step, y) == Replace(v, step, y)
  {
    StepBack(v, step, x);
    if step.IsKey() {
      var i := MemberAt(v.members, step.key).value;
      FirstStays(v.members, i, step.key, x);
      assert v.members[i := Entry(step.key, x)][i := Entry(step.key, y)] == v.members[i := Entry(step.key, y)];
    } else {
      assert v.items[step.index := x][step.index := y] == v.items[step.index := y];
    }
  }

  lemma {:induction false} ApplyUnder(v: Value, step: Step, c: Change)
    requires StepInto(v, step).Some? && Applies(StepInto(v, step).value, c)
    ensures Applies(v, Under(step, c)) &&
            Apply(v, Under(step, c)) == Replace(v, step, Apply(StepInto(v, step).value, c))
  {
    hide StepInto, Replace;
    var path := [step] + c.path;
    assert path[1..] == c.path && path[0] == step;
    if c.Removed? { assert path[|path| - 1] == c.path[|c.path| - 1]; }
  }

  lemma {:induction false} AppliedUnder(v: Value, step: Step, cs: seq<Change>)
    requires StepInto(v, step).Some? && AllApply(StepInto(v, step).value, cs)
    ensures AllApply(v, AllUnder(step, cs))
    ensures Applied(v, AllUnder(step, cs)) == Replace(v, step, Applied(StepInto(v, step).value, cs))
    decreases |cs|
  {
    hide StepInto, Replace, Applies, Apply, Under;
    var x := StepInto(v, step).value;
    if cs == [] {
      ReplaceSame(v, step);
    } else {
      ApplyUnder(v, step, cs[0]);
      var x' := Apply(x, cs[0]);
      ReplaceTwice(v, step, x', Applied(x', cs[1..]));
      AppliedUnder(Replace(v, step, x'), step, cs[1..]);
      assert AllUnder(step, cs)[1..] == AllUnder(step, cs[1..]);
    }
  }

  /** Made in turn, the changes reported turn the one value into the other. */
  lemma {:induction false} ChangesAreMade(f: Rewrite, v: Value, w: Value, at: Path, skip: Skip)
    requires WellFormed(v) && Follows(f, v, w, at, skip)
    ensures AllApply(v, ChangesOf(v, w)) && Applied(v, ChangesOf(v, w)) == w
    decreases v, 1, 0
  {
    match v
    case Str(s) =>
      if s != w.s { AppliedOne(v, Replaced([], w.s)); }
    case Arr(items) =>
      ItemsAreMade(f, v, w, at, skip, |items|);
      assert w.items[..|items|] + v.items[|items|..] == w.items;
    case Obj(members) =>
      MembersAreMade(f, v, w, at, skip, |members|);
      assert w.members[..|members|] + v.members[|members|..] == w.members;
    case _ =>
  }

  lemma {:induction false} ChangesAreMadeAt(f: Rewrite, v: Value, w: Value, at: Path, skip: Skip)
    requires WellFormed(v) && FollowsAt(f, v, w, at, skip)
    ensures AllApply(v, ChangesOf(v, w)) && Applied(v, ChangesOf(v, w)) == w
    decreases v, 1, 1
  {
    hide ChangesOf;
    if skip(at) {
      NoChanges(v);
    } else {
      ChangesAreMade(f, v, w, at, skip);
    }
  }

  lemma {:induction false} ItemsAreMade(f: Rewrite, v: Value, w: Value, at: Path, skip: Skip, n: nat)
    requires WellFormed(v) && v.Arr? && w.Arr? && |v.items| == |w.items| && n <= |v.items|
    requires forall i :: 0 <= i < |v.items| ==> FollowsAt(f, v.items[i], w.items[i], at + [Index(i)], skip)
    ensures AllApply(v, ItemChanges(v, w, n))
    ensures Applied(v, ItemChanges(v, w, n)) == Arr(w.items[..n] + v.items[n..])
    decreases v, 0, n
  {
    hide ChangesOf, Applied, AllApply, Follows;
    if n == 0 {
      assert w.items[..0] + v.items[0..] == v.items;
      NothingApplied(v);
    } else {
      ItemsAreMade(f, v, w, at, skip, n - 1);
      var mid := w.items[..n - 1] + v.items[n - 1..];
      ChangesAreMadeAt(f, v.items[n - 1], w.items[n - 1], at + [Index(n - 1)], skip);
      var cs := ChangesOf(v.items[n - 1], w.items[n - 1]);
      assert mid[n - 1] == v.items[n - 1];
      AppliedUnder(Arr(mid), Index(n - 1), cs);
      AppliedConcat(v, ItemChanges(v, w, n - 1), AllUnder(Index(n - 1), cs));
      assert mid[n - 1 := w.items[n - 1]] == w.items[..n] + v.items[n..];
    }
  }

  lemma {:induction false} NothingApplied(v: Value)
    ensures AllApply(v, []) && Applied(v, []) == v
  {
  }

  lemma {:induction false} MembersAreMade(f: Rewrite, v: Value, w: Value, at: Path, skip: Skip, n: nat)
    requires WellFormed(v) && v.Obj? && w.Obj? && |v.members| == |w.members| && n <= |v.members|
    requires forall i :: 0 <= i < |v.members| ==>
               w.members[i].name == v.members[i].name &&
               FollowsAt(f, v.members[i].value, w.members[i].value, at + [Found(v.members[i].name)], skip)
    ensures AllApply(v, MemberChanges(v, w, n))
    ensures Applied(v, MemberChanges(v, w, n)) == Obj(w.members[..n] + v.members[n..])
    decreases v, 0, n
  {
    hide ChangesOf, Applied, AllApply, Follows, FollowsAt, StepInto, Replace;
    if n == 0 {
      assert w.members[..0] + v.members[0..] == v.members;
      NothingApplied(v);
    } else {
      MembersAreMade(f, v, w, at, skip, n - 1);
      var mid := w.members[..n - 1] + v.members[n - 1..];
      var m := v.members[n - 1];
      MemberIsBelow(v, m);
      ChangesAreMadeAt(f, m.value, w.members[n - 1].value, at + [Found(m.name)], skip);
      var cs := ChangesOf(m.value, w.members[n - 1].value);
      MidMember(v, w, n, mid);
      AppliedUnder(Obj(mid), Found(m.name), cs);
      AppliedConcat(v, MemberChanges(v, w, n - 1), AllUnder(Found(m.name), cs));
    }
  }

  /** Part of the way, a member's name still leads to it. */
  lemma {:induction false} MidMember(v: Value, w: Value, n: nat, mid: seq<Member>)
    requires v.Obj? && w.Obj? && Distinct(v.members) && |v.members| == |w.members| && 0 < n <= |v.members|
    requires forall i :: 0 <= i < |v.members| ==> w.members[i].name == v.members[i].name
    requires mid == w.members[..n - 1] + v.members[n - 1..]
    ensures var m := v.members[n - 1];
            && StepInto(Obj(mid), Found(m.name)) == Some(m.value)
            && Replace(Obj(mid), Found(m.name), w.members[n - 1].value) == Obj(w.members[..n] + v.members[n..])
  {
    var m := v.members[n - 1];
    assert Distinct(mid) by { assert forall i :: 0 <= i < |mid| ==> mid[i].name == v.members[i].name; }
    MemberAtIs(mid, n - 1);
    hide Distinct, MemberAt;
    assert mid[n - 1] == m && w.members[n - 1] == Entry(m.name, w.members[n - 1].value);
    assert mid[n - 1 := w.members[n - 1]] == w.members[..n] + v.members[n..];
  }

  /** No change reported is no change. */
  lemma {:induction false} NoneReported(f: Rewrite, v: Value, w: Value, at: Path, skip: Skip)
    requires Follows(f, v, w, at, skip) && ChangesOf(v, w) == []
    ensures w == v
    decreases v, 1, 0
  {
    match v
    case Arr(items) =>
      forall i | 0 <= i < |items| ensures w.items[i] == items[i] {
        assert FollowsAt(f, items[i], w.items[i], at + [Index(i)], skip);
        NoItemReported(v, w, |items|, i);
        if !skip(at + [Index(i)]) { NoneReported(f, items[i], w.items[i], at + [Index(i)], skip); }
      }
    case Obj(members) =>
      forall i | 0 <= i < |members| ensures w.members[i] == members[i] {
        MemberIsBelow(v, members[i]);
        var inside := at + [Found(members[i].name)];
        assert FollowsAt(f, members[i].value, w.members[i].value, inside, skip);
        NoMemberReported(v, w, |members|, i);
        if !skip(inside) { NoneReported(f, members[i].value, w.members[i].value, inside, skip); }
      }
    case _ =>
  }

  lemma {:induction false} NoItemReported(v: Value, w: Value, n: nat, i: nat)
    requires v.Arr? && w.Arr? && |v.items| == |w.items| && i < n <= |v.items| && ItemChanges(v, w, n) == []
    ensures ChangesOf(v.items[i], w.items[i]) == []
    decreases n
  {
    hide ChangesOf;
    if i < n - 1 { NoItemReported(v, w, n - 1, i); }
  }

  lemma {:induction false} NoMemberReported(v: Value, w: Value, n: nat, i: nat)
    requires v.Obj? && w.Obj? && |v.members| == |w.members| && i < n <= |v.members| && MemberChanges(v, w, n) == []
    ensures ChangesOf(v.members[i].value, w.members[i].value) == []
    decreases n
  {
    hide ChangesOf;
    if i < n - 1 { NoMemberReported(v, w, n - 1, i); }
  }

  // ----- Keys

  /** The fault a key is refused for, if the detector finds anything there. */
  function KeyFault(det: Detector, strict: bool, key: string): (r: Option<Fault>)
    ensures r.None? <==> Clean(det, strict, key)
  {
    var hits := Hits(det, strict, key);
    match FirstUnsafe(hits)
    case Some(h) => Some(Unsafe(h.rule))
    case None => if hits == [] then None else Some(Kept(hits[0].rule))
  }

  /** Looks for a fault in the keys of `v`, all the way down. */
  method EachKey(det: Detector, strict: bool, v: Value) returns (fault: Option<Fault>)
    ensures fault.None? <==> AllKeys(Cleaning(det, strict), v)
    decreases v
  {
    hide KeyFault, Clean;
    match v {
      case Arr(items) =>
        for i := 0 to |items|
          invariant forall k :: 0 <= k < i ==> AllKeys(Cleaning(det, strict), items[k])
        {
          fault := EachKey(det, strict, items[i]);
          if fault.Some? { return; }
        }
      case Obj(members) =>
        for i := 0 to |members|
          invariant forall k :: 0 <= k < i ==>
                      Clean(det, strict, members[k].name) && AllKeys(Cleaning(det, strict), members[k].value)
        {
          MemberIsBelow(v, members[i]);
          fault := KeyFault(det, strict, members[i].name);
          if fault.Some? { return; }
          fault := EachKey(det, strict, members[i].value);
          if fault.Some? { return; }
        }
      case _ =>
    }
    return None;
  }
}
