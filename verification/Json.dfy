/** JSON values. Numbers are integers; an object's members are listed in order. */
module Json {
  import opened Wrappers
  import opened Text
  import opened Ordering

  datatype Value =
    | Null
    | Bool(b: bool)
    | Num(n: int)
    | Str(s: string)
    | Arr(items: seq<Value>)
    | Obj(members: seq<Member>)

  type Member = Entry<Value>

  /** No object names a member twice, at any depth. */
  predicate WellFormed(v: Value) {
    match v
    case Arr(items) => forall i :: 0 <= i < |items| ==> WellFormed(items[i])
    case Obj(members) => Distinct(members) && forall i :: 0 <= i < |members| ==> WellFormed(members[i].value)
    case _ => true
  }

  /** How deep the source's JSON parser goes. */
  const MAX_DEPTH: nat := 127

  /** A value as the source's own JSON type holds it, no deeper than `depth`: each
    * object's members in the order of their names, each integer an `i64` or a `u64`. */
  predicate Storable(v: Value, depth: nat)
    decreases v
  {
    match v
    case Num(n) => MIN_I64 <= n <= MAX_U64
    case Arr(items) => depth > 0 && forall i :: 0 <= i < |items| ==> Storable(items[i], depth - 1)
    case Obj(members) =>
      depth > 0 && Ascending(members) && forall i :: 0 <= i < |members| ==> Storable(members[i].value, depth - 1)
    case _ => true
  }

  lemma {:induction false} AscendingIsDistinct(ms: seq<Member>)
    requires Ascending(ms)
    ensures Distinct(ms)
  {
    forall i, j | 0 <= i < j < |ms| ensures ms[i].name != ms[j].name {
      BeforeTotal(ms[i].name, ms[j].name);
    }
  }

  lemma {:induction false} StorableIsWellFormed(v: Value, depth: nat)
    requires Storable(v, depth)
    ensures WellFormed(v)
    decreases v
  {
    match v
    case Arr(items) =>
      forall i | 0 <= i < |items| ensures WellFormed(items[i]) { StorableIsWellFormed(items[i], depth - 1); }
    case Obj(members) =>
      AscendingIsDistinct(members);
      forall i | 0 <= i < |members| ensures WellFormed(members[i].value) {
        MemberIsBelow(v, members[i]);
        StorableIsWellFormed(members[i].value, depth - 1);
      }
    case _ =>
  }

  lemma {:induction false} StorableDeeper(v: Value, depth: nat, more: nat)
    requires Storable(v, depth) && depth <= more
    ensures Storable(v, more)
    decreases v
  {
    match v
    case Arr(items) =>
      forall i | 0 <= i < |items|
        ensures Storable(items[i], more - 1)
      {
        StorableDeeper(items[i], depth - 1, more - 1);
      }
    case Obj(members) =>
      forall i | 0 <= i < |members| ensures Storable(members[i].value, more - 1) {
        MemberIsBelow(v, members[i]);
        StorableDeeper(members[i].value, depth - 1, more - 1);
      }
    case _ =>
  }

  /** The same JSON value, whatever order each object lists its members in. */
  ghost predicate Same(v: Value, w: Value)
    decreases v, 0
  {
    match (v, w)
    case (Arr(items), Arr(others)) =>
      |items| == |others| && forall i :: 0 <= i < |items| ==> Same(items[i], others[i])
    case (Obj(members), Obj(others)) =>
      && (forall i :: 0 <= i < |members| ==> HasPair(members[i], others))
      && (forall j :: 0 <= j < |others| ==> Named(others[j].name, members))
    case _ => v == w && !v.Arr? && !v.Obj?
  }

  /** `others` holds a member of the same name and value. */
  ghost predicate HasPair(m: Member, others: seq<Member>)
    decreases m.value, 1
  {
    exists j :: 0 <= j < |others| && m.name == others[j].name && Same(m.value, others[j].value)
  }

  /** `others` holds, at `j`, a member of the same name and value. */
  ghost predicate Paired(m: Member, others: seq<Member>, j: nat) {
    j < |others| && m.name == others[j].name && Same(m.value, others[j].value)
  }

  ghost predicate Named(name: string, members: seq<Member>) {
    exists i :: 0 <= i < |members| && members[i].name == name
  }

  lemma {:induction false} ItemIsBelow(v: Value, x: Value)
    requires v.Arr? && x in v.items
    ensures v decreases to x
  {
    var i :| 0 <= i < |v.items| && v.items[i] == x;
    assert v.items[i] < v;
  }

  lemma {:induction false} MemberIsBelow(v: Value, m: Member)
    requires v.Obj? && m in v.members
    ensures v decreases to m.value
  {
    var i :| 0 <= i < |v.members| && v.members[i] == m;
    assert v.members[i] < v && m.value < m;
  }

  // ----- Reading a value

  /** The first member named `key`. */
  function MemberAt(ms: seq<Member>, key: string): (r: Option<nat>)
    ensures r.Some? ==> r.value < |ms| && ms[r.value].name == key
    ensures r.None? ==> forall i :: 0 <= i < |ms| ==> ms[i].name != key
  {
    if ms == [] then None
    else if ms[0].name == key then Some(0)
    else
      match MemberAt(ms[1..], key)
      case None => None
      case Some(i) => Some(i + 1)
  }

  /** What an object holds under `key`. */
  function Get(v: Value, key: string): (r: Option<Value>)
    ensures r.Some? ==> v.Obj? && (v decreases to r.value)
  {
    if v.Obj? && MemberAt(v.members, key).Some? then
      var m := v.members[MemberAt(v.members, key).value];
      MemberIsBelow(v, m);
      Some(m.value)
    else None
  }

  /** The array an object holds under `key`. */
  function GetArr(v: Value, key: string): (r: Option<seq<Value>>)
    ensures r.Some? ==> forall x :: x in r.value ==> (v decreases to x)
  {
    match Get(v, key)
    case Some(Arr(items)) =>
      assert forall x :: x in items ==> (v decreases to x) by {
        forall x | x in items ensures (v decreases to x) {
          ItemIsBelow(Arr(items), x);
        }
      }
      Some(items)
    case _ => None
  }

  predicate Has(v: Value, key: string) { Get(v, key).Some? }

  predicate HasAny(v: Value, keys: seq<string>) { exists i :: 0 <= i < |keys| && Has(v, keys[i]) }

  /** A step of a path: a key or an index. */
  datatype Step = Key(key: string) | Found(key: string) | Index(index: nat) {
    predicate IsKey() { !Index? }
  }

  type Path = seq<Step>

  /** What a step reaches. */
  function StepInto(v: Value, step: Step): (r: Option<Value>)
    ensures r.Some? ==> (v decreases to r.value)
  {
    match step
    case Index(i) =>
      if v.Arr? && i < |v.items| then
        ItemIsBelow(v, v.items[i]);
        Some(v.items[i])
      else None
    case _ => Get(v, step.key)
  }

  /** The value at `path`. */
  function At(v: Value, path: Path): Option<Value> {
    if path == [] then Some(v)
    else
      match StepInto(v, path[0])
      case None => None
      case Some(x) => At(x, path[1..])
  }

  /** `v` with what a step reaches replaced. */
  function Replace(v: Value, step: Step, x: Value): (r: Value)
    requires StepInto(v, step).Some?
  {
    match step
    case Index(i) => Arr(v.items[i := x])
    case _ =>
      var i := MemberAt(v.members, step.key).value;
      Obj(v.members[i := Entry(step.key, x)])
  }

  /** `v` with what is at `path` replaced. */
  function Put(v: Value, path: Path, x: Value): Value
    requires At(v, path).Some?
  {
    if path == [] then x
    else Replace(v, path[0], Put(StepInto(v, path[0]).value, path[1..], x))
  }

  /** An object with what it holds under `key` taken out. */
  function Without(v: Value, key: string): Value
    requires Get(v, key).Some?
  {
    var i := MemberAt(v.members, key).value;
    Obj(v.members[..i] + v.members[i + 1..])
  }

  /** `v` less the member `path` leads to. */
  function TakenOut(v: Value, path: Path): Value
    requires path != [] && path[|path| - 1].IsKey() && At(v, path).Some?
    decreases |path|
  {
    if |path| == 1 then Without(v, path[0].key)
    else Replace(v, path[0], TakenOut(StepInto(v, path[0]).value, path[1..]))
  }

  lemma {:induction false} PutIsWellFormed(v: Value, path: Path, x: Value)
    requires WellFormed(v) && WellFormed(x) && At(v, path).Some?
    ensures WellFormed(Put(v, path, x))
    decreases |path|
  {
    if path != [] {
      StepIsWellFormed(v, path[0]);
      PutIsWellFormed(StepInto(v, path[0]).value, path[1..], x);
      ReplaceIsWellFormed(v, path[0], Put(StepInto(v, path[0]).value, path[1..], x));
    }
  }

  lemma {:induction false} StepIsWellFormed(v: Value, step: Step)
    requires WellFormed(v) && StepInto(v, step).Some?
    ensures WellFormed(StepInto(v, step).value)
  {
  }

  lemma {:induction false} ReplaceIsWellFormed(v: Value, step: Step, x: Value)
    requires WellFormed(v) && WellFormed(x) && StepInto(v, step).Some?
    ensures WellFormed(Replace(v, step, x))
  {
  }

  lemma {:induction false} StepIsStorable(v: Value, step: Step, depth: nat)
    requires Storable(v, depth) && StepInto(v, step).Some?
    ensures depth > 0 && Storable(StepInto(v, step).value, depth - 1)
  {
  }

  lemma {:induction false} ReplaceIsStorable(v: Value, step: Step, x: Value, depth: nat)
    requires Storable(v, depth) && depth > 0 && Storable(x, depth - 1) && StepInto(v, step).Some?
    ensures Storable(Replace(v, step, x), depth)
  {
  }

  lemma {:induction false} AtIsStorable(v: Value, path: Path, depth: nat)
    requires Storable(v, depth) && At(v, path).Some?
    ensures |path| <= depth && Storable(At(v, path).value, depth - |path|)
    decreases |path|
  {
    hide StepInto, Storable;
    if path != [] {
      StepIsStorable(v, path[0], depth);
      AtIsStorable(StepInto(v, path[0]).value, path[1..], depth - 1);
    }
  }

  lemma {:induction false} PutIsStorable(v: Value, path: Path, x: Value, depth: nat)
    requires Storable(v, depth) && At(v, path).Some? && |path| <= depth && Storable(x, depth - |path|)
    ensures Storable(Put(v, path, x), depth)
    decreases |path|
  {
    hide StepInto, Replace, Storable;
    if path != [] {
      StepIsStorable(v, path[0], depth);
      PutIsStorable(StepInto(v, path[0]).value, path[1..], x, depth - 1);
      ReplaceIsStorable(v, path[0], Put(StepInto(v, path[0]).value, path[1..], x), depth);
    }
  }

  lemma {:induction false} PutStrIsStorable(v: Value, path: Path, text: string, depth: nat)
    requires Storable(v, depth) && At(v, path).Some?
    ensures Storable(Put(v, path, Str(text)), depth)
  {
    AtIsStorable(v, path, depth);
    PutIsStorable(v, path, Str(text), depth);
  }

  /** How many keys the object at `path` has; none when there is no object. */
  function KeysAt(v: Value, path: Path): nat {
    match At(v, path)
    case Some(Obj(ms)) => |ms|
    case _ => 0
  }

  /** Reading back a step that was replaced. */
  lemma {:induction false} StepBack(v: Value, step: Step, x: Value)
    requires StepInto(v, step).Some?
    ensures StepInto(Replace(v, step, x), step) == Some(x)
  {
    if step.IsKey() {
      var i := MemberAt(v.members, step.key).value;
      FirstStays(v.members, i, step.key, x);
    }
  }

  lemma {:induction false} FirstStays(ms: seq<Member>, i: nat, key: string, x: Value)
    requires MemberAt(ms, key) == Some(i)
    ensures MemberAt(ms[i := Entry(key, x)], key) == Some(i)
  {
    var ns := ms[i := Entry(key, x)];
    if i > 0 {
      FirstStays(ms[1..], i - 1, key, x);
      assert ns[1..] == ms[1..][i - 1 := Entry(key, x)];
    }
  }
}
