/** An edit the check allows keeps the value valid; when a removal does not. */
module SchemaSoundness {
  import opened Wrappers
  import opened Ordering
  import opened Json
  import opened Schemas

  // ----- Strings

  /** What the check refuses a string for under this schema, JSON Schema refuses too:
    * no keyword here or in a branch asks more of a string than the check reads. */
  ghost predicate Frank(schema: Value, depth: nat)
    decreases DEPTH + 1 - depth
  {
    depth <= DEPTH && schema.Obj? ==>
      && !HasAny(schema, VALUED)
      && (GetArr(schema, "anyOf").Some? ==> forall b :: b in GetArr(schema, "anyOf").value ==> Frank(b, depth + 1))
      && (GetArr(schema, "oneOf").Some? ==> forall b :: b in GetArr(schema, "oneOf").value ==> Frank(b, depth + 1))
  }

  /** The branches of each `oneOf` are frank: a string the check refuses for one of
    * them is then one that branch refuses. */
  ghost predicate FrankOnes(schema: Value, depth: nat)
    decreases DEPTH + 1 - depth
  {
    depth <= DEPTH ==>
      && (GetArr(schema, "anyOf").Some? ==> forall b :: b in GetArr(schema, "anyOf").value ==> FrankOnes(b, depth + 1))
      && (GetArr(schema, "oneOf").Some? ==> forall b :: b in GetArr(schema, "oneOf").value ==> Frank(b, depth + 1))
  }

  lemma {:induction false} FrankBranches(schema: Value, depth: nat)
    requires depth <= DEPTH && schema.Obj? && Frank(schema, depth)
    ensures !HasAny(schema, VALUED)
    ensures GetArr(schema, "anyOf").Some? ==> forall b :: b in GetArr(schema, "anyOf").value ==> Frank(b, depth + 1)
    ensures GetArr(schema, "oneOf").Some? ==> forall b :: b in GetArr(schema, "oneOf").value ==> Frank(b, depth + 1)
  {
  }

  lemma {:induction false} FrankOnesBranches(schema: Value, depth: nat)
    requires depth <= DEPTH && FrankOnes(schema, depth)
    ensures GetArr(schema, "anyOf").Some? ==> forall b :: b in GetArr(schema, "anyOf").value ==> FrankOnes(b, depth + 1)
    ensures GetArr(schema, "oneOf").Some? ==> forall b :: b in GetArr(schema, "oneOf").value ==> Frank(b, depth + 1)
  {
  }

  lemma {:induction false} FrankIsFrankOnes(schema: Value, depth: nat)
    requires Frank(schema, depth)
    ensures FrankOnes(schema, depth)
    decreases DEPTH + 1 - depth
  {
    if depth <= DEPTH && schema.Obj? {
      FrankBranches(schema, depth);
      if GetArr(schema, "anyOf").Some? {
        forall b | b in GetArr(schema, "anyOf").value ensures FrankOnes(b, depth + 1) {
          FrankIsFrankOnes(b, depth + 1);
        }
      }
    }
  }

  /** The check's verdict on a string, by its parts. */
  lemma {:induction false} VerdictMeans(schema: Value, text: string, depth: nat)
    requires schema.Obj? && depth <= DEPTH && AllowsString(schema, text, depth).Some?
    ensures var any, one := GetArr(schema, "anyOf"), GetArr(schema, "oneOf");
            var anyVs := if any.Some? then Verdicts(schema, any.value, text, depth) else [];
            var oneVs := if one.Some? then Verdicts(schema, one.value, text, depth) else [];
            && (any.Some? ==> Some(true) in anyVs || None !in anyVs)
            && (one.Some? && (any.Some? ==> Some(true) in anyVs) ==> None !in oneVs)
            && (AllowsString(schema, text, depth) == Some(true) <==>
                  && (any.Some? ==> Some(true) in anyVs)
                  && (one.Some? ==> CountTrue(oneVs) == 1)
                  && Typed(schema, "string") && !HasAny(schema, VALUED) && LengthOk(schema, text))
  {
    hide Typed, Verdicts, CountTrue, HasAny;
    LengthIsBounds(schema, text);
  }

  /** Where a schema is frank, the check's verdict on a string is JSON Schema's. */
  lemma {:induction false} VerdictIsExact(more: Scalars, schema: Value, text: string, depth: nat)
    requires Neutral(more) && Frank(schema, depth) && AllowsString(schema, text, depth).Some?
    ensures Validates(more, schema, Str(text)) <==> AllowsString(schema, text, depth) == Some(true)
    decreases DEPTH + 1 - depth, 2
  {
    if schema.Obj? {
      ObjVerdictIsExact(more, schema, text, depth);
    }
  }

  lemma {:induction false} ObjVerdictIsExact(more: Scalars, schema: Value, text: string, depth: nat)
    requires schema.Obj? && depth <= DEPTH
    requires Neutral(more) && Frank(schema, depth) && AllowsString(schema, text, depth).Some?
    ensures Validates(more, schema, Str(text)) <==> AllowsString(schema, text, depth) == Some(true)
    decreases DEPTH + 1 - depth, 1
  {
    hide Validates, AllowsString, Verdicts, Typed, TypeOk, LengthOk, HasAny, Get, CountTrue, OneBranch, Frank,
         FrankOnes;
    TypedMeans(schema, Str(text), "string");
    StringMeans(more, schema, text);
    VerdictMeans(schema, text, depth);
    FrankBranches(schema, depth);
    var any, one := GetArr(schema, "anyOf"), GetArr(schema, "oneOf");
    if any.Some? {
      SomeAreExact(more, schema, any.value, text, depth);
    }
    if one.Some? && None !in Verdicts(schema, one.value, text, depth) {
      BranchesExact(more, schema, one.value, text, depth);
      OneIsCounted(more, schema, one.value, Str(text), Verdicts(schema, one.value, text, depth));
    }
  }

  lemma {:induction false} SomeAreExact(more: Scalars, schema: Value, branches: seq<Value>, text: string, depth: nat)
    requires Neutral(more) && depth <= DEPTH && forall b :: b in branches ==> Frank(b, depth + 1)
    requires var vs := Verdicts(schema, branches, text, depth); Some(true) in vs || None !in vs
    ensures Some(true) in Verdicts(schema, branches, text, depth) <==>
            exists b :: b in branches && Validates(more, b, Str(text))
    decreases DEPTH + 1 - depth, 0, 1
  {
    hide *;
    var vs := Verdicts(schema, branches, text, depth);
    if Some(true) in vs {
      forall b | b in branches ensures FrankOnes(b, depth + 1) { FrankIsFrankOnes(b, depth + 1); }
      AllowedBranch(more, schema, branches, text, depth);
    } else {
      BranchesExact(more, schema, branches, text, depth);
      forall b | b in branches ensures !Validates(more, b, Str(text)) {
        var i :| 0 <= i < |branches| && branches[i] == b;
        assert vs[i] in vs;
      }
    }
  }

  lemma {:induction false} BranchesExact(more: Scalars, schema: Value, branches: seq<Value>, text: string, depth: nat)
    requires Neutral(more) && depth <= DEPTH && None !in Verdicts(schema, branches, text, depth)
    requires forall b :: b in branches ==> Frank(b, depth + 1)
    ensures var vs := Verdicts(schema, branches, text, depth);
            forall i :: 0 <= i < |vs| ==> (Validates(more, branches[i], Str(text)) <==> vs[i] == Some(true))
    decreases DEPTH + 1 - depth, 0, 0
  {
    hide *;
    var vs := Verdicts(schema, branches, text, depth);
    forall i | 0 <= i < |vs| ensures Validates(more, branches[i], Str(text)) <==> vs[i] == Some(true) {
      assert branches[i] in branches && vs[i] in vs;
      VerdictIsExact(more, branches[i], text, depth + 1);
    }
  }

  lemma {:induction false} AllowedBranch(more: Scalars, schema: Value, branches: seq<Value>, text: string, depth: nat)
    requires Neutral(more) && depth <= DEPTH && Some(true) in Verdicts(schema, branches, text, depth)
    requires forall b :: b in branches ==> FrankOnes(b, depth + 1)
    ensures exists b :: b in branches && Validates(more, b, Str(text))
    decreases DEPTH + 1 - depth, 0, 0
  {
    hide *;
    var vs := Verdicts(schema, branches, text, depth);
    var i :| 0 <= i < |vs| && vs[i] == Some(true);
    assert branches[i] in branches;
    AllowedIsValid(more, branches[i], text, depth + 1);
  }

  /** One branch is kept to exactly when one verdict says so. */
  lemma {:induction false} OneIsCounted(
      more: Scalars, schema: Value, branches: seq<Value>, v: Value, vs: seq<Option<bool>>)
    requires forall b :: b in branches ==> (schema decreases to b)
    requires |vs| == |branches|
    requires forall i :: 0 <= i < |vs| ==> (Validates(more, branches[i], v) <==> vs[i] == Some(true))
    ensures OneBranch(more, schema, branches, v) <==> CountTrue(vs) == 1
  {
    hide Validates, CountTrue, OnlyBranch;
    if CountTrue(vs) == 1 {
      var i := TheOne(vs);
      OnlyIs(more, schema, branches, v, vs, i);
    }
    if i :| 0 <= i < |branches| && OnlyBranch(more, schema, branches, v, i) {
      OnlyIs(more, schema, branches, v, vs, i);
      OnlyOne(vs, i);
    }
  }

  lemma {:induction false} OnlyIs(
      more: Scalars, schema: Value, branches: seq<Value>, v: Value, vs: seq<Option<bool>>, i: nat)
    requires forall b :: b in branches ==> (schema decreases to b)
    requires i < |vs| == |branches|
    requires forall i :: 0 <= i < |vs| ==> (Validates(more, branches[i], v) <==> vs[i] == Some(true))
    ensures OnlyBranch(more, schema, branches, v, i) <==>
            vs[i] == Some(true) && forall j :: 0 <= j < |vs| && j != i ==> vs[j] != Some(true)
  {
    hide Validates;
    assert OnlyBranch(more, schema, branches, v, i) <==>
      Validates(more, branches[i], v) && forall j :: 0 <= j < |branches| && j != i ==> !Validates(more, branches[j], v);
  }

  lemma {:induction false} NoneTrue(vs: seq<Option<bool>>)
    ensures CountTrue(vs) == 0 <==> Some(true) !in vs
  {
    if vs != [] { NoneTrue(vs[1..]); }
  }

  lemma {:induction false} TheOne(vs: seq<Option<bool>>) returns (i: nat)
    requires CountTrue(vs) == 1
    ensures i < |vs| && vs[i] == Some(true) && forall j :: 0 <= j < |vs| && j != i ==> vs[j] != Some(true)
  {
    if vs[0] == Some(true) {
      i := 0;
      NoneTrue(vs[1..]);
      assert forall j :: 0 < j < |vs| ==> vs[j] == vs[1..][j - 1] && vs[j] in vs[1..];
    } else {
      var k := TheOne(vs[1..]);
      i := k + 1;
      assert forall j :: 0 < j < |vs| ==> vs[j] == vs[1..][j - 1];
    }
  }

  lemma {:induction false} OnlyOne(vs: seq<Option<bool>>, i: nat)
    requires i < |vs| && vs[i] == Some(true) && forall j :: 0 <= j < |vs| && j != i ==> vs[j] != Some(true)
    ensures CountTrue(vs) == 1
  {
    assert forall j :: 0 < j < |vs| ==> vs[j] == vs[1..][j - 1];
    if i == 0 { NoneTrue(vs[1..]); } else { OnlyOne(vs[1..], i - 1); }
  }

  lemma {:induction false} LengthIsBounds(schema: Value, text: string)
    ensures LengthOk(schema, text) <==>
              && !(Bound(schema, "minLength").Some? && |text| < Bound(schema, "minLength").value)
              && !(Bound(schema, "maxLength").Some? && |text| > Bound(schema, "maxLength").value)
  {
  }

  /** What a schema asks of a string. */
  lemma {:induction false} StringMeans(more: Scalars, schema: Value, text: string)
    requires schema.Obj?
    ensures var any, one := GetArr(schema, "anyOf"), GetArr(schema, "oneOf");
            Validates(more, schema, Str(text)) <==>
              && TypeOk(schema, Str(text)) && LengthOk(schema, text) && more(schema, Str(text))
              && (any.Some? ==> exists b :: b in any.value && Validates(more, b, Str(text)))
              && (one.Some? ==> OneBranch(more, schema, one.value, Str(text)))
  {
    hide TypeOk, LengthOk, OneBranch;
  }

  /** A string the check allows is one the schema validates, so long as what it
    * refuses for a branch of a `oneOf` that branch does refuse. */
  lemma {:induction false} AllowedIsValid(more: Scalars, schema: Value, text: string, depth: nat)
    requires Neutral(more) && FrankOnes(schema, depth) && AllowsString(schema, text, depth) == Some(true)
    ensures Validates(more, schema, Str(text))
    decreases DEPTH + 1 - depth, 2
  {
    if schema.Obj? {
      ObjAllowedIsValid(more, schema, text, depth);
    }
  }

  lemma {:induction false} ObjAllowedIsValid(more: Scalars, schema: Value, text: string, depth: nat)
    requires schema.Obj? && depth <= DEPTH
    requires Neutral(more) && FrankOnes(schema, depth) && AllowsString(schema, text, depth) == Some(true)
    ensures Validates(more, schema, Str(text))
    decreases DEPTH + 1 - depth, 1
  {
    hide Validates, AllowsString, Verdicts, Typed, TypeOk, LengthOk, HasAny, Get, CountTrue, OneBranch, Frank,
         FrankOnes;
    TypedMeans(schema, Str(text), "string");
    StringMeans(more, schema, text);
    VerdictMeans(schema, text, depth);
    FrankOnesBranches(schema, depth);
    var any, one := GetArr(schema, "anyOf"), GetArr(schema, "oneOf");
    if any.Some? { AllowedBranch(more, schema, any.value, text, depth); }
    if one.Some? {
      BranchesExact(more, schema, one.value, text, depth);
      OneIsCounted(more, schema, one.value, Str(text), Verdicts(schema, one.value, text, depth));
    }
  }

  /** What `type` lets through by its kind is what it says of a value of that kind. */
  lemma {:induction false} TypedMeans(schema: Value, v: Value, kind: string)
    requires (v.Str? && kind == "string") || (v.Obj? && kind == "object") || (v.Arr? && kind == "array")
    ensures Typed(schema, kind) <==> TypeOk(schema, v)
  {
    match Get(schema, "type")
    case Some(Arr(ts)) =>
      if i :| 0 <= i < |ts| && ts[i].Str? && IsOfType(v, ts[i].s) {
        assert ts[i] == Str(kind);
      }
      if i :| 0 <= i < |ts| && ts[i] == Str(kind) {
        assert IsOfType(v, ts[i].s);
      }
    case _ =>
  }

  // ----- One step into a value, replaced

  /** Some union on the way in has a branch that allows anything. */
  ghost predicate Escapes(schema: Value, step: Step, depth: nat)
    decreases DEPTH + 1 - depth
  {
    && depth <= DEPTH
    && Branches(schema).Some?
    && var branches := Branches(schema).value;
       || ANYTHING in branches
       || (|Fits(branches, KindOf(step))| == 1 && Escapes(Fits(branches, KindOf(step))[0], step, depth + 1))
  }

  /** Each union on the way in is one the check reads for what it is: no `oneOf`
    * stands beside an `anyOf`, or has a branch that allows anything, unless an `anyOf`
    * before it lets everything through. */
  ghost predicate Firm(schema: Value, step: Step, depth: nat)
    decreases DEPTH + 1 - depth
  {
    depth <= DEPTH && Branches(schema).Some? ==>
      var branches := Branches(schema).value;
      && FirmHere(schema)
      && (ANYTHING in branches ||
          (|Fits(branches, KindOf(step))| == 1 ==> Firm(Fits(branches, KindOf(step))[0], step, depth + 1)))
  }

  predicate FirmHere(schema: Value)
    requires Branches(schema).Some?
  {
    if Has(schema, "anyOf") then !Has(schema, "oneOf") else ANYTHING !in Branches(schema).value
  }

  /** What of a schema says nothing of the values held: the same for both. */
  lemma {:induction false} KeysStay(schema: Value, v: Value, step: Step, x: Value)
    requires StepInto(v, step).Some?
    ensures var v' := Replace(v, step, x);
            && (v.Obj? <==> v'.Obj?) && (v.Arr? <==> v'.Arr?)
            && (v.Obj? || v.Arr?)
            && TypeOk(schema, v') == TypeOk(schema, v)
            && (v.Obj? ==> |v'.members| == |v.members| && KeysOk(schema, v'.members) == KeysOk(schema, v.members))
  {
    var v' := Replace(v, step, x);
    if v.Obj? {
      NamesStay(v.members, v'.members);
    }
  }

  lemma {:induction false} NamesStay(ms: seq<Member>, ns: seq<Member>)
    requires |ms| == |ns| && forall i :: 0 <= i < |ms| ==> ms[i].name == ns[i].name
    ensures forall key :: MemberAt(ms, key) == MemberAt(ns, key)
  {
    forall key ensures MemberAt(ms, key) == MemberAt(ns, key) {
      NameStays(ms, ns, key);
    }
  }

  lemma {:induction false} NameStays(ms: seq<Member>, ns: seq<Member>, key: string)
    requires |ms| == |ns| && forall i :: 0 <= i < |ms| ==> ms[i].name == ns[i].name
    ensures MemberAt(ms, key) == MemberAt(ns, key)
  {
    if ms != [] { NameStays(ms[1..], ns[1..], key); }
  }

  lemma {:induction false} MemberAtIs(ms: seq<Member>, i: nat)
    requires Distinct(ms) && i < |ms|
    ensures MemberAt(ms, ms[i].name) == Some(i)
  {
  }

  /** The schema the code follows is the one the value must keep to. */
  lemma {:induction false} ChildGoverns(more: Scalars, schema: Value, step: Step, sub: Value, x: Value)
    requires schema.Obj? && Child(schema, step) == Some(sub)
    ensures var governs := if step.Index? then OfItem(schema, step.index) else OfMember(schema, step.key);
            Validates(more, sub, x) <==> governs.None? || Validates(more, governs.value, x)
  {
  }

  lemma {:induction false} ReplaceInObject(more: Scalars, schema: Value, v: Value, step: Step, x': Value)
    requires schema.Obj? && v.Obj? && Union(schema).None? && StepInto(v, step).Some? && Distinct(v.members)
    requires Validates(more, schema, v)
    ensures var governs := OfMember(schema, step.key);
            && (governs.Some? ==> Validates(more, governs.value, StepInto(v, step).value))
            && (Validates(more, schema, Replace(v, step, x')) <==> governs.None? || Validates(more, governs.value, x'))
  {
    hide OfMember, KeysOk, TypeOk;
    KeysStay(schema, v, step, x');
    var v' := Replace(v, step, x');
    var at := MemberAt(v.members, step.key).value;
    assert v'.members[at] == Entry(step.key, x');
    assert forall i :: 0 <= i < |v.members| && i != at ==> v'.members[i] == v.members[i];
    MemberAtIs(v.members, at);
  }

  lemma {:induction false} ReplaceInArray(more: Scalars, schema: Value, v: Value, step: Step, x': Value)
    requires schema.Obj? && v.Arr? && Union(schema).None? && StepInto(v, step).Some?
    requires Validates(more, schema, v)
    ensures step.Index?
    ensures var governs := OfItem(schema, step.index);
            && (governs.Some? ==> Validates(more, governs.value, StepInto(v, step).value))
            && (Validates(more, schema, Replace(v, step, x')) <==> governs.None? || Validates(more, governs.value, x'))
  {
    hide OfItem, TypeOk;
    KeysStay(schema, v, step, x');
    var v' := Replace(v, step, x');
    assert v'.items[step.index] == x';
    assert forall i :: 0 <= i < |v.items| && i != step.index ==> v'.items[i] == v.items[i];
  }

  /** A union's other keywords say nothing of what is held. */
  lemma {:induction false} UnionIsItsBranches(more: Scalars, schema: Value, v: Value, v': Value, step: Step)
    requires schema.Obj? && !HasAny(schema, SHAPED) && Validates(more, schema, v)
    requires if step.IsKey() then v.Obj? && v'.Obj? else v.Arr? && v'.Arr?
    requires TypeOk(schema, v') && (v.Obj? ==> KeysOk(schema, v'.members))
    requires Branches(schema).Some? && FirmHere(schema) && |Fits(Branches(schema).value, KindOf(step))| == 1
    ensures Validates(more, schema, v') <==> exists b :: b in Branches(schema).value && Validates(more, b, v')
    ensures exists b :: b in Branches(schema).value && Validates(more, b, v)
  {
    hide KeysOk, TypeOk, Fits, OneBranch;
    NotShaped(schema);
    UnionMeans(more, schema, v);
    UnionMeans(more, schema, v');
    if !Has(schema, "anyOf") {
      OneIsSome(more, schema, Branches(schema).value, v, step);
      OneIsSome(more, schema, Branches(schema).value, v', step);
    }
  }

  lemma {:induction false} NotShaped(schema: Value)
    requires !HasAny(schema, SHAPED)
    ensures !Has(schema, "properties") && !Has(schema, "additionalProperties") && !Has(schema, "items") &&
            !Has(schema, "prefixItems")
  {
    assert forall i :: 0 <= i < |SHAPED| ==> !Has(schema, SHAPED[i]);
    assert SHAPED[0] == "properties" && SHAPED[1] == "additionalProperties" && SHAPED[3] == "items" &&
      SHAPED[4] == "prefixItems";
  }

  lemma {:induction false} UnionMeans(more: Scalars, schema: Value, v: Value)
    requires schema.Obj? && (v.Obj? || v.Arr?)
    requires !Has(schema, "properties") && !Has(schema, "additionalProperties") && !Has(schema, "items") &&
             !Has(schema, "prefixItems")
    ensures var any, one := GetArr(schema, "anyOf"), GetArr(schema, "oneOf");
            Validates(more, schema, v) <==>
              && TypeOk(schema, v) && (v.Obj? ==> KeysOk(schema, v.members))
              && (any.Some? ==> exists b :: b in any.value && Validates(more, b, v))
              && (one.Some? ==> OneBranch(more, schema, one.value, v))
  {
    hide KeysOk, TypeOk, OneBranch;
  }

  /** Where one branch fits, no two can be kept to: one is kept to if any is. */
  lemma {:induction false} OneIsSome(more: Scalars, schema: Value, branches: seq<Value>, v: Value, step: Step)
    requires forall b :: b in branches ==> (schema decreases to b)
    requires ANYTHING !in branches && |Fits(branches, KindOf(step))| == 1
    requires if step.IsKey() then v.Obj? else v.Arr?
    ensures OneBranch(more, schema, branches, v) <==> exists b :: b in branches && Validates(more, b, v)
  {
    hide Validates, Fits, Typed, TypeOk;
    if b :| b in branches && Validates(more, b, v) {
      var i :| 0 <= i < |branches| && branches[i] == b;
      forall j | 0 <= j < |branches| && j != i ensures !Validates(more, branches[j], v) {
        if Validates(more, branches[j], v) {
          TypedBranch(more, branches[i], v, step);
          TypedBranch(more, branches[j], v, step);
          FitsTwice(branches, KindOf(step), if i < j then i else j, if i < j then j else i);
        }
      }
      assert OnlyBranch(more, schema, branches, v, i);
    }
    if i :| 0 <= i < |branches| && OnlyBranch(more, schema, branches, v, i) {
      assert branches[i] in branches && Validates(more, branches[i], v);
    }
  }

  lemma {:induction false} TypedBranch(more: Scalars, b: Value, v: Value, step: Step)
    requires b != ANYTHING && Validates(more, b, v)
    requires if step.IsKey() then v.Obj? else v.Arr?
    ensures b.Obj? && Typed(b, KindOf(step))
  {
    if b.Obj? { TypedMeans(b, v, KindOf(step)); }
  }

  lemma {:induction false} FitsTwice(branches: seq<Value>, kind: string, i: nat, j: nat)
    requires i < j < |branches|
    requires branches[i].Obj? && Typed(branches[i], kind) && branches[j].Obj? && Typed(branches[j], kind)
    ensures |Fits(branches, kind)| >= 2
  {
    hide Typed;
    if i == 0 {
      assert branches[j] == branches[1..][j - 1];
      assert branches[j] in Fits(branches[1..], kind);
    } else {
      FitsTwice(branches[1..], kind, i - 1, j - 1);
    }
  }

  /** A branch the value keeps to is the one that fits, or one that allows anything. */
  lemma {:induction false} BranchFits(more: Scalars, branches: seq<Value>, b: Value, v: Value, step: Step)
    requires b in branches && Validates(more, b, v) && |Fits(branches, KindOf(step))| == 1
    requires if step.IsKey() then v.Obj? else v.Arr?
    ensures b == ANYTHING || b == Fits(branches, KindOf(step))[0]
  {
    if b != ANYTHING {
      TypedBranch(more, b, v, step);
      assert b in Fits(branches, KindOf(step));
    }
  }

  /** One step: what replaces what the step reaches keeps the value valid exactly
    * when some union lets anything through, or it keeps to the schema the code
    * followed; and what is there now keeps to it unless a union lets it through. */
  lemma {:induction false} StepReplace(
      more: Scalars, schema: Value, v: Value, step: Step, x': Value, depth: nat, c: Value, sub: Value)
    requires Validates(more, schema, v) && StepInto(v, step).Some? && (v.Obj? ==> Distinct(v.members))
    requires Container(schema, step, depth) == Some(c) && Child(c, step) == Some(sub) && Firm(schema, step, depth)
    ensures Validates(more, schema, Replace(v, step, x')) <==>
            Escapes(schema, step, depth) || Validates(more, sub, x')
    ensures !Escapes(schema, step, depth) ==> Validates(more, sub, StepInto(v, step).value)
    decreases DEPTH + 1 - depth
  {
    hide Validates, Child, KeysOk, TypeOk, OfItem, OfMember, FirmHere;
    var v' := Replace(v, step, x');
    KeysStay(schema, v, step, x');
    match Union(schema)
    case None =>
      if schema.Bool? {
        BoolValidates(more, schema, v);
        BoolValidates(more, schema, v');
        BoolChild(more, schema, step, x');
        BoolChild(more, schema, step, StepInto(v, step).value);
      } else {
        ChildGoverns(more, schema, step, sub, x');
        ChildGoverns(more, schema, step, sub, StepInto(v, step).value);
        if v.Obj? { ReplaceInObject(more, schema, v, step, x'); } else { ReplaceInArray(more, schema, v, step, x'); }
      }
    case Some(branches) =>
      ValidatesKeys(more, schema, v);
      UnionIsItsBranches(more, schema, v, v', step);
      var bs := Branches(schema).value;
      var one := Fits(bs, KindOf(step))[0];
      assert one in Fits(bs, KindOf(step));
      BoolValidates(more, ANYTHING, v');
      if ANYTHING !in bs {
        var b :| b in bs && Validates(more, b, v);
        BranchFits(more, bs, b, v, step);
        StepReplace(more, one, v, step, x', depth + 1, c, sub);
        if b' :| b' in bs && Validates(more, b', v') {
          BranchFits(more, bs, b', v', step);
        }
      }
  }

  lemma {:induction false} BoolValidates(more: Scalars, schema: Value, v: Value)
    requires schema.Bool?
    ensures Validates(more, schema, v) <==> schema.b
  {
  }

  lemma {:induction false} BoolChild(more: Scalars, schema: Value, step: Step, x: Value)
    requires schema.Bool? && Child(schema, step).Some?
    ensures Validates(more, Child(schema, step).value, x)
  {
  }

  lemma {:induction false} ValidatesKeys(more: Scalars, schema: Value, v: Value)
    requires schema.Obj? && Validates(more, schema, v)
    ensures TypeOk(schema, v) && (v.Obj? ==> KeysOk(schema, v.members))
  {
  }

  // ----- A string replaced, wherever it is

  /** On the way down a path each union is firm, until one lets everything through;
    * and what stands at its end, where that is asked, is frank in its `oneOf`s. */
  ghost predicate Settled(schema: Value, path: Path, whole: bool)
    decreases |path|
  {
    if path == [] then whole ==> FrankOnes(schema, 0)
    else
      && Firm(schema, path[0], 0)
      && (Escapes(schema, path[0], 0) ||
          (Container(schema, path[0], 0).Some? && Child(Container(schema, path[0], 0).value, path[0]).Some? ==>
             Settled(Child(Container(schema, path[0], 0).value, path[0]).value, path[1..], whole)))
  }

  /** A change of a string the check allows keeps the whole value valid. */
  lemma {:induction false} ReplacementKeepsValid(more: Scalars, root: Value, v: Value, path: Path, text: string)
    requires Neutral(more) && WellFormed(v) && Validates(more, root, v) && Settled(root, path, true)
    requires At(v, path).Some? && At(v, path).value.Str?
    requires StringAt(root, path, text) == Some(true)
    ensures Validates(more, root, Put(v, path, Str(text)))
    decreases |path|
  {
    hide Validates, Container, Child, AllowsString, StepInto, Replace, Firm, Escapes, FrankOnes;
    if path == [] {
      AllowedIsValid(more, root, text, 0);
    } else {
      var c := Container(root, path[0], 0).value;
      var sub := Child(c, path[0]).value;
      var x := StepInto(v, path[0]).value;
      StepIsWellFormed(v, path[0]);
      StepReplace(more, root, v, path[0], Put(x, path[1..], Str(text)), 0, c, sub);
      if !Escapes(root, path[0], 0) {
        ReplacementKeepsValid(more, sub, x, path[1..], text);
      }
    }
  }

  // ----- A key taken out

  predicate RoomFor(schema: Value, left: nat) {
    Bound(schema, "minProperties").Some? ==> Bound(schema, "minProperties").value <= left
  }

  /** Whether each union on the way to the schema the code judged by has room for
    * `left` keys itself, or for a branch that allows anything. */
  ghost predicate UnionsHaveRoom(schema: Value, step: Step, left: nat, depth: nat)
    decreases DEPTH + 1 - depth
  {
    depth <= DEPTH && Branches(schema).Some? ==>
      var branches := Branches(schema).value;
      && RoomFor(schema, left)
      && (ANYTHING in branches ||
          (|Fits(branches, KindOf(step))| == 1 &&
           UnionsHaveRoom(Fits(branches, KindOf(step))[0], step, left, depth + 1)))
  }

  lemma {:induction false} NamesWithout(ms: seq<Member>, key: string, i: nat, name: string)
    requires Distinct(ms) && MemberAt(ms, key) == Some(i)
    ensures var rest := ms[..i] + ms[i + 1..];
            MemberAt(rest, name).Some? <==> MemberAt(ms, name).Some? && name != key
  {
    var rest := ms[..i] + ms[i + 1..];
    if MemberAt(ms, name).Some? && name != key {
      var j := MemberAt(ms, name).value;
      assert rest[if j < i then j else j - 1] == ms[j];
    }
    if MemberAt(rest, name).Some? {
      var j := MemberAt(rest, name).value;
      assert ms[if j < i then j else j + 1] == rest[j];
    }
  }

  lemma {:induction false} RemoveFromPlain(more: Scalars, schema: Value, v: Value, step: Step)
    requires schema.Obj? && Union(schema).None? && step.IsKey() && v.Obj? && Distinct(v.members)
    requires Get(v, step.key).Some? && Validates(more, schema, v)
    requires RoomFor(schema, |v.members| - 1)
    requires GetArr(schema, "required").Some? ==> Str(step.key) !in GetArr(schema, "required").value
    ensures Validates(more, schema, Without(v, step.key))
  {
    hide OfMember;
    var i := MemberAt(v.members, step.key).value;
    var rest := Without(v, step.key).members;
    forall name ensures MemberAt(rest, name).Some? <==> MemberAt(v.members, name).Some? && name != step.key {
      NamesWithout(v.members, step.key, i, name);
    }
    assert forall j :: 0 <= j < |rest| ==> rest[j] == v.members[if j < i then j else j + 1];
  }

  /** What the check found of the schema it judged a removal by. */
  predicate RemovalAllowed(c: Value, step: Step, left: nat)
    requires step.IsKey()
  {
    c == ANYTHING ||
    (RoomFor(c, left) && (GetArr(c, "required").Some? ==> Str(step.key) !in GetArr(c, "required").value))
  }

  /** Taking a key out of an object, when the check allows it, keeps it valid
    * exactly when the unions have room. */
  lemma {:induction false} RemoveStep(more: Scalars, schema: Value, v: Value, step: Step, depth: nat, c: Value)
    requires Validates(more, schema, v) && step.IsKey() && v.Obj? && Distinct(v.members) && Get(v, step.key).Some?
    requires Container(schema, step, depth) == Some(c) && RemovalAllowed(c, step, |v.members| - 1)
    requires Firm(schema, step, depth)
    ensures Validates(more, schema, Without(v, step.key)) <==>
            UnionsHaveRoom(schema, step, |v.members| - 1, depth)
    decreases DEPTH + 1 - depth
  {
    hide Validates, TypeOk, OfMember, FirmHere;
    var v' := Without(v, step.key);
    match Union(schema)
    case None =>
      if schema.Bool? {
        BoolValidates(more, schema, v);
        BoolValidates(more, schema, v');
      } else {
        RemoveFromPlain(more, schema, v, step);
      }
    case Some(branches) =>
      ValidatesKeys(more, schema, v);
      TypeStays(schema, v, v');
      NoRequired(schema, v', v);
      if RoomFor(schema, |v'.members|) {
        UnionIsItsBranches(more, schema, v, v', step);
        var bs := Branches(schema).value;
        var one := Fits(bs, KindOf(step))[0];
        assert one in Fits(bs, KindOf(step));
        BoolValidates(more, ANYTHING, v');
        if ANYTHING !in bs {
          var b :| b in bs && Validates(more, b, v);
          BranchFits(more, bs, b, v, step);
          RemoveStep(more, one, v, step, depth + 1, c);
          if b' :| b' in bs && Validates(more, b', v') {
            BranchFits(more, bs, b', v', step);
          }
        }
      } else if Validates(more, schema, v') {
        ValidatesKeys(more, schema, v');
      }
  }

  lemma {:induction false} TypeStays(schema: Value, v: Value, v': Value)
    requires v.Obj? && v'.Obj?
    ensures TypeOk(schema, v) == TypeOk(schema, v')
  {
    TypedMeans(schema, v, "object");
    TypedMeans(schema, v', "object");
  }

  lemma {:induction false} NoRequired(schema: Value, v': Value, v: Value)
    requires schema.Obj? && !HasAny(schema, SHAPED) && v'.Obj? && v.Obj?
    ensures KeysOk(schema, v'.members) <==> RoomFor(schema, |v'.members|)
  {
    assert SHAPED[2] == "required";
    assert !Has(schema, SHAPED[2]);
  }

  /** The condition for a removal, by the unions on the way to the key: one of them
    * lets everything through, or those around the key's own object have room. */
  ghost predicate RemovalHasRoom(schema: Value, path: Path, left: nat)
    requires path != []
    decreases |path|
  {
    if |path| == 1 then UnionsHaveRoom(schema, path[0], left, 0)
    else
      || Escapes(schema, path[0], 0)
      || (Container(schema, path[0], 0).Some? && Child(Container(schema, path[0], 0).value, path[0]).Some? &&
          RemovalHasRoom(Child(Container(schema, path[0], 0).value, path[0]).value, path[1..], left))
  }

  /** How many keys the object that held the key has once it is out. */
  function KeysLeft(v: Value, path: Path): nat
    requires path != [] && path[|path| - 1].IsKey() && At(v, path).Some?
  {
    KeysAt(TakenOut(v, path), path[..|path| - 1])
  }

  lemma {:induction false} KeysLeftTail(v: Value, path: Path)
    requires |path| > 1 && path[|path| - 1].IsKey() && At(v, path).Some?
    ensures KeysLeft(v, path) == KeysLeft(StepInto(v, path[0]).value, path[1..])
  {
    hide StepInto, Replace;
    var x := StepInto(v, path[0]).value;
    StepBack(v, path[0], TakenOut(x, path[1..]));
    assert path[..|path| - 1][1..] == path[1..][..|path[1..]| - 1];
  }

  lemma {:induction false} KeysLeftHere(v: Value, path: Path)
    requires |path| == 1 && path[0].IsKey() && At(v, path).Some?
    ensures v.Obj? && KeysLeft(v, path) == |v.members| - 1
  {
  }

  lemma {:induction false} RemovalAtTail(root: Value, path: Path, left: nat)
    requires |path| > 1 && RemovalAt(root, path, left) == Some(true)
    ensures Container(root, path[0], 0).Some? && Child(Container(root, path[0], 0).value, path[0]).Some?
    ensures RemovalAt(Child(Container(root, path[0], 0).value, path[0]).value, path[1..], left) == Some(true)
  {
    hide Container, Child;
    assert path[..|path| - 1][1..] == path[1..][..|path[1..]| - 1];
  }

  lemma {:induction false} RemovalAtHere(root: Value, step: Step, left: nat)
    requires RemovalAt(root, [step], left) == Some(true)
    ensures step.IsKey() && Container(root, step, 0).Some? && RemovalAllowed(Container(root, step, 0).value, step, left)
  {
    hide Container;
    assert [step][..0] == [];
  }

  /** A removal the check allows keeps the whole value valid exactly when the
    * unions on the way have room for it. */
  lemma {:induction false} RemovalIsExact(more: Scalars, root: Value, v: Value, path: Path)
    requires WellFormed(v) && Validates(more, root, v) && Settled(root, path, false)
    requires path != [] && path[|path| - 1].IsKey() && At(v, path).Some?
    requires RemovalAt(root, path, KeysLeft(v, path)) == Some(true)
    ensures Validates(more, root, TakenOut(v, path)) <==> RemovalHasRoom(root, path, KeysLeft(v, path))
    decreases |path|
  {
    hide Validates, Container, Child, StepInto, Replace, RemovalAt, Escapes, Firm, UnionsHaveRoom, KeysLeft, Without;
    if |path| == 1 {
      KeysLeftHere(v, path);
      assert path == [path[0]];
      RemovalAtHere(root, path[0], KeysLeft(v, path));
      StepGets(v, path[0]);
      RemoveStep(more, root, v, path[0], 0, Container(root, path[0], 0).value);
    } else {
      RemovalAtTail(root, path, KeysLeft(v, path));
      KeysLeftTail(v, path);
      var c := Container(root, path[0], 0).value;
      var sub := Child(c, path[0]).value;
      var x := StepInto(v, path[0]).value;
      StepIsWellFormed(v, path[0]);
      StepReplace(more, root, v, path[0], TakenOut(x, path[1..]), 0, c, sub);
      if !Escapes(root, path[0], 0) {
        RemovalIsExact(more, sub, x, path[1..]);
      }
    }
  }

  lemma {:induction false} StepGets(v: Value, step: Step)
    requires step.IsKey()
    ensures StepInto(v, step) == Get(v, step.key)
  {
  }

  /** No union stands on the way. */
  ghost predicate NoUnions(schema: Value, path: Path)
    decreases |path|
  {
    path != [] ==>
      && Union(schema).None?
      && (Container(schema, path[0], 0).Some? && Child(Container(schema, path[0], 0).value, path[0]).Some? ==>
            NoUnions(Child(Container(schema, path[0], 0).value, path[0]).value, path[1..]))
  }

  /** Without unions, a removal the check allows always keeps the value valid. */
  lemma {:induction false} RemovalWithoutUnions(more: Scalars, root: Value, v: Value, path: Path)
    requires WellFormed(v) && Validates(more, root, v) && NoUnions(root, path)
    requires path != [] && path[|path| - 1].IsKey() && At(v, path).Some?
    requires RemovalAt(root, path, KeysLeft(v, path)) == Some(true)
    ensures Validates(more, root, TakenOut(v, path))
  {
    hide Validates, RemovalAt, KeysLeft, TakenOut;
    NoUnionsSettles(root, path);
    RemovalIsExact(more, root, v, path);
    RoomWithoutUnions(root, path, KeysLeft(v, path));
  }

  lemma {:induction false} NoUnionsSettles(root: Value, path: Path)
    requires NoUnions(root, path)
    ensures Settled(root, path, false)
    decreases |path|
  {
    hide Container, Child;
    if path != [] && Container(root, path[0], 0).Some? && Child(Container(root, path[0], 0).value, path[0]).Some? {
      NoUnionsSettles(Child(Container(root, path[0], 0).value, path[0]).value, path[1..]);
    }
  }

  lemma {:induction false} RoomWithoutUnions(root: Value, path: Path, left: nat)
    requires path != [] && NoUnions(root, path) && RemovalAt(root, path, left) == Some(true)
    ensures RemovalHasRoom(root, path, left)
    decreases |path|
  {
    hide RemovalAt, Container, Child;
    if |path| > 1 {
      RemovalAtTail(root, path, left);
      RoomWithoutUnions(Child(Container(root, path[0], 0).value, path[0]).value, path[1..], left);
    }
  }

  // ----- With a union, it need not

  const BRANCH := Obj([Entry("type", Str("object"))])
  const WANTS_ONE := Obj([Entry("anyOf", Arr([BRANCH])), Entry("minProperties", Num(1))])
  const HAS_ONE := Obj([Entry("a", Str(""))])

  lemma {:induction false} LookUpBranch(key: string)
    ensures Get(BRANCH, key) == if key == "type" then Some(Str("object")) else None
  {
    assert BRANCH.members[1..] == [];
  }

  lemma {:induction false} LookUpWants(key: string)
    ensures Get(WANTS_ONE, key) ==
            if key == "anyOf" then Some(Arr([BRANCH])) else if key == "minProperties" then Some(Num(1)) else None
  {
    var ms := WANTS_ONE.members;
    var rest := [Entry("minProperties", Num(1))];
    assert ms[1..] == rest && rest[1..] == [];
    assert |"anyOf"| == 5 && |"minProperties"| == 13;
    assert MemberAt(rest[1..], key) == None;
    assert MemberAt(rest, key) == if key == "minProperties" then Some(0) else None;
    assert MemberAt(ms, key) == if key == "anyOf" then Some(0) else if key == "minProperties" then Some(1) else None;
    assert ms[0].value == Arr([BRANCH]) && ms[1].value == Num(1);
  }

  /** None of these keywords is one of the example's. */
  lemma {:induction false} KeywordsDiffer()
    ensures forall i :: 0 <= i < |UNFOLLOWED| ==> UNFOLLOWED[i] !in ["type", "anyOf", "minProperties"]
    ensures forall i :: 0 <= i < |SHAPED| ==> SHAPED[i] !in ["type", "anyOf", "minProperties"]
  {
    assert "allOf"[1] == 'l' && "anyOf"[1] == 'n';
    assert "then"[1] == 'h' && "else"[0] == 'e' && "type"[0] == 't' && "type"[1] == 'y';
    assert "$recursiveRef"[0] == '$' && "minProperties"[0] == 'm';
    assert "items"[0] == 'i' && "anyOf"[0] == 'a';
  }

  lemma {:induction false} ExampleContainer()
    ensures Container(WANTS_ONE, Found("a"), 0) == Some(BRANCH)
  {
    hide Get;
    KeywordsDiffer();
    forall i | 0 <= i < |UNFOLLOWED| ensures !Has(WANTS_ONE, UNFOLLOWED[i]) && !Has(BRANCH, UNFOLLOWED[i]) {
      LookUpWants(UNFOLLOWED[i]);
      LookUpBranch(UNFOLLOWED[i]);
    }
    forall i | 0 <= i < |SHAPED| ensures !Has(WANTS_ONE, SHAPED[i]) {
      LookUpWants(SHAPED[i]);
    }
    LookUpWants("anyOf");
    LookUpBranch("anyOf");
    LookUpBranch("oneOf");
    LookUpBranch("type");
    assert |"type"| == 4 && |"anyOf"| == 5 && |"oneOf"| == 5;
    assert Fits([BRANCH], "object") == [BRANCH] by { assert [BRANCH][1..] == []; }
  }

  lemma {:induction false} ExampleValidates(more: Scalars, ms: seq<Member>)
    requires |ms| <= 1 && forall i :: 0 <= i < |ms| ==> ms[i].value.Str?
    ensures Validates(more, WANTS_ONE, Obj(ms)) <==> |ms| == 1
  {
    hide Get;
    LookUpWants("type");
    LookUpWants("anyOf");
    LookUpWants("oneOf");
    LookUpWants("minProperties");
    LookUpWants("required");
    LookUpWants("properties");
    LookUpWants("additionalProperties");
    LookUpBranch("type");
    LookUpBranch("anyOf");
    LookUpBranch("oneOf");
    LookUpBranch("minProperties");
    LookUpBranch("required");
    LookUpBranch("properties");
    LookUpBranch("additionalProperties");
    assert |"type"| == 4 && |"anyOf"| == 5 && |"minProperties"| == 13 && |"required"| == 8;
    assert |"properties"| == 10 && |"additionalProperties"| == 20;
    assert Validates(more, BRANCH, Obj(ms));
    assert BRANCH in [BRANCH];
  }

  /** The check looks only at the branch it follows, and the union itself may want
    * more keys: it lets the one key of this value go, which leaves too few. */
  lemma {:induction false} UnionsCanRefuse(more: Scalars)
    ensures var path := [Found("a")];
            && WellFormed(HAS_ONE) && Validates(more, WANTS_ONE, HAS_ONE)
            && At(HAS_ONE, path).Some?
            && RemovalAt(WANTS_ONE, path, KeysLeft(HAS_ONE, path)) == Some(true)
            && !Validates(more, WANTS_ONE, TakenOut(HAS_ONE, path))
  {
    hide Validates, Container, Get;
    var step := Found("a");
    HasA();
    ExampleContainer();
    ExampleValidates(more, HAS_ONE.members);
    ExampleValidates(more, []);
    LookUpBranch("dependentRequired");
    LookUpBranch("dependencies");
    LookUpBranch("required");
    LookUpBranch("minProperties");
    assert |"type"| == 4 && |"dependentRequired"| == 17 && |"dependencies"| == 12;
    assert |"required"| == 8 && |"minProperties"| == 13;
    assert [step][..0] == [];
  }

  lemma {:induction false} HasA()
    ensures WellFormed(HAS_ONE) && Get(HAS_ONE, "a") == Some(Str(""))
    ensures At(HAS_ONE, [Found("a")]).Some? && TakenOut(HAS_ONE, [Found("a")]) == Obj([])
    ensures KeysLeft(HAS_ONE, [Found("a")]) == 0
  {
    var path := [Found("a")];
    assert path[1..] == [] && path[..0] == [];
    assert MemberAt(HAS_ONE.members, "a") == Some(0);
    assert HAS_ONE.members[..0] + HAS_ONE.members[1..] == [];
  }

  // ----- With a `oneOf`, neither need be

  const EMPTY := Obj([Entry("type", Str("object")), Entry("additionalProperties", Bool(false))])
  const TRUE_OR_EMPTY := Obj([Entry("oneOf", Arr([ANYTHING, EMPTY]))])

  lemma {:induction false} LookUpEmpty(key: string)
    ensures Get(EMPTY, key) ==
            if key == "type" then Some(Str("object"))
            else if key == "additionalProperties" then Some(Bool(false)) else None
  {
    var ms := EMPTY.members;
    var rest := [Entry("additionalProperties", Bool(false))];
    assert ms[1..] == rest && rest[1..] == [];
    assert |"type"| == 4 && |"additionalProperties"| == 20;
    assert MemberAt(rest[1..], key) == None;
    assert MemberAt(rest, key) == if key == "additionalProperties" then Some(0) else None;
  }

  lemma {:induction false} LookUpOneOf(branches: seq<Value>, key: string)
    ensures Get(Obj([Entry("oneOf", Arr(branches))]), key) == if key == "oneOf" then Some(Arr(branches)) else None
  {
    var ms := [Entry("oneOf", Arr(branches))];
    assert ms[1..] == [];
  }

  /** None of the keywords the check stops at is one of these. */
  lemma {:induction false} OthersDiffer()
    ensures forall i :: 0 <= i < |UNFOLLOWED| ==> UNFOLLOWED[i] !in ["type", "oneOf", "additionalProperties", "enum"]
    ensures forall i :: 0 <= i < |SHAPED| ==> SHAPED[i] !in ["oneOf"]
    ensures forall i :: 0 <= i < |VALUED| ==> VALUED[i] !in ["type", "oneOf"]
  {
    assert "then"[1] == 'h' && "else"[1] == 'l' && "type"[0] == 't' && "type"[1] == 'y' && "enum"[0] == 'e' &&
      "enum"[1] == 'n';
    assert "oneOf"[0] == 'o' && "allOf"[0] == 'a' && "items"[0] == 'i' && "const"[0] == 'c';
    assert "additionalProperties"[2] == 'd' && "unevaluatedItems"[0] == 'u' && "dependentSchemas"[0] == 'd';
    assert "$dynamicRef"[0] == '$' && "$recursiveRef"[0] == '$' && "unevaluatedProperties"[0] == 'u';
  }

  lemma {:induction false} OneOfContainer()
    ensures Container(TRUE_OR_EMPTY, Found("a"), 0) == Some(EMPTY)
  {
    hide Get;
    OthersDiffer();
    var branches := [ANYTHING, EMPTY];
    forall i | 0 <= i < |UNFOLLOWED| ensures !Has(TRUE_OR_EMPTY, UNFOLLOWED[i]) && !Has(EMPTY, UNFOLLOWED[i]) {
      LookUpOneOf(branches, UNFOLLOWED[i]);
      LookUpEmpty(UNFOLLOWED[i]);
    }
    forall i | 0 <= i < |SHAPED| ensures !Has(TRUE_OR_EMPTY, SHAPED[i]) {
      LookUpOneOf(branches, SHAPED[i]);
    }
    LookUpOneOf(branches, "anyOf");
    LookUpOneOf(branches, "oneOf");
    LookUpEmpty("anyOf");
    LookUpEmpty("oneOf");
    LookUpEmpty("type");
    assert |"type"| == 4 && |"oneOf"| == 5 && "anyOf"[0] == 'a' && "oneOf"[0] == 'o' && |"additionalProperties"| == 20;
    assert branches[1..] == [EMPTY] && [EMPTY][1..] == [];
    assert Fits([EMPTY], "object") == [EMPTY];
    assert Fits(branches, "object") == [EMPTY];
  }

  lemma {:induction false} EmptyValidates(more: Scalars, ms: seq<Member>)
    ensures Validates(more, EMPTY, Obj(ms)) <==> ms == []
  {
    hide Get;
    LookUpEmpty("type");
    LookUpEmpty("anyOf");
    LookUpEmpty("oneOf");
    LookUpEmpty("minProperties");
    LookUpEmpty("required");
    LookUpEmpty("properties");
    LookUpEmpty("additionalProperties");
    assert |"type"| == 4 && |"anyOf"| == 5 && |"oneOf"| == 5 && |"minProperties"| == 13 && |"required"| == 8;
    assert |"properties"| == 10 && |"additionalProperties"| == 20;
    if ms != [] {
      assert OfMember(EMPTY, ms[0].name) == Some(Bool(false));
      BoolValidates(more, Bool(false), ms[0].value);
    }
  }

  lemma {:induction false} OneOfValidates(more: Scalars, branches: seq<Value>, v: Value)
    requires |branches| == 2
    ensures Validates(more, Obj([Entry("oneOf", Arr(branches))]), v) <==>
              && (v.Str? ==> more(Obj([Entry("oneOf", Arr(branches))]), v))
              && (!v.Arr? && !v.Obj? && !v.Str? ==> more(Obj([Entry("oneOf", Arr(branches))]), v))
              && (Validates(more, branches[0], v) <==> !Validates(more, branches[1], v))
  {
    hide Get;
    var schema := Obj([Entry("oneOf", Arr(branches))]);
    LookUpOneOf(branches, "type");
    LookUpOneOf(branches, "anyOf");
    LookUpOneOf(branches, "oneOf");
    LookUpOneOf(branches, "minProperties");
    LookUpOneOf(branches, "required");
    LookUpOneOf(branches, "properties");
    LookUpOneOf(branches, "additionalProperties");
    LookUpOneOf(branches, "prefixItems");
    LookUpOneOf(branches, "items");
    LookUpOneOf(branches, "minLength");
    LookUpOneOf(branches, "maxLength");
    assert "oneOf"[0] == 'o' && "anyOf"[0] == 'a' && |"oneOf"| == 5 && "items"[0] == 'i';
    assert GetArr(schema, "oneOf") == Some(branches);
    OneOfTwo(more, schema, branches, v);
  }

  lemma {:induction false} OneOfTwo(more: Scalars, schema: Value, branches: seq<Value>, v: Value)
    requires |branches| == 2 && forall b :: b in branches ==> (schema decreases to b)
    ensures OneBranch(more, schema, branches, v) <==>
            (Validates(more, branches[0], v) <==> !Validates(more, branches[1], v))
  {
    hide Validates;
    if Validates(more, branches[0], v) && !Validates(more, branches[1], v) {
      assert OnlyBranch(more, schema, branches, v, 0);
    }
    if !Validates(more, branches[0], v) && Validates(more, branches[1], v) {
      assert OnlyBranch(more, schema, branches, v, 1);
    }
  }

  /** A `oneOf` that lets anything through, but not what its other branch does too:
    * the check follows that other branch, which this value does not keep to. Without
    * its one key it does, and the schema refuses it. */
  lemma {:induction false} OneOfCanRefuse(more: Scalars)
    ensures var path := [Found("a")];
            && WellFormed(HAS_ONE) && Validates(more, TRUE_OR_EMPTY, HAS_ONE)
            && At(HAS_ONE, path).Some?
            && RemovalAt(TRUE_OR_EMPTY, path, KeysLeft(HAS_ONE, path)) == Some(true)
            && !Validates(more, TRUE_OR_EMPTY, TakenOut(HAS_ONE, path))
  {
    hide Validates, Container, Get;
    var step := Found("a");
    HasA();
    OneOfContainer();
    EmptyValidates(more, HAS_ONE.members);
    EmptyValidates(more, []);
    BoolValidates(more, ANYTHING, HAS_ONE);
    BoolValidates(more, ANYTHING, Obj([]));
    OneOfValidates(more, [ANYTHING, EMPTY], HAS_ONE);
    OneOfValidates(more, [ANYTHING, EMPTY], Obj([]));
    LookUpEmpty("dependentRequired");
    LookUpEmpty("dependencies");
    LookUpEmpty("required");
    LookUpEmpty("minProperties");
    assert |"type"| == 4 && |"dependentRequired"| == 17 && |"dependencies"| == 12;
    assert |"required"| == 8 && |"minProperties"| == 13 && |"additionalProperties"| == 20;
    assert [step][..0] == [];
  }

  const STRING := Obj([Entry("type", Str("string"))])
  const LISTED := Obj([Entry("enum", Arr([Str("x")]))])
  const STRING_OR_LISTED := Obj([Entry("oneOf", Arr([STRING, LISTED]))])

  lemma {:induction false} LookUpString(key: string)
    ensures Get(STRING, key) == if key == "type" then Some(Str("string")) else None
  {
    assert STRING.members[1..] == [];
  }

  lemma {:induction false} LookUpListed(key: string)
    ensures Get(LISTED, key) == if key == "enum" then Some(Arr([Str("x")])) else None
  {
    assert LISTED.members[1..] == [];
  }

  lemma {:induction false} PlainString(more: Scalars, text: string)
    requires Neutral(more)
    ensures AllowsString(STRING, text, 1) == Some(true) && Validates(more, STRING, Str(text))
  {
    hide Get;
    OthersDiffer();
    forall i | 0 <= i < |UNFOLLOWED| ensures !Has(STRING, UNFOLLOWED[i]) { LookUpString(UNFOLLOWED[i]); }
    forall i | 0 <= i < |VALUED| ensures !Has(STRING, VALUED[i]) { LookUpString(VALUED[i]); }
    LookUpString("type");
    LookUpString("anyOf");
    LookUpString("oneOf");
    LookUpString("minLength");
    LookUpString("maxLength");
    assert |"type"| == 4 && |"anyOf"| == 5 && |"oneOf"| == 5 && |"minLength"| == 9 && |"maxLength"| == 9;
  }

  lemma {:induction false} ListedString(more: Scalars, text: string)
    ensures AllowsString(LISTED, text, 1) == Some(false)
    ensures Validates(more, LISTED, Str(text)) <==> more(LISTED, Str(text))
  {
    hide Get;
    OthersDiffer();
    forall i | 0 <= i < |UNFOLLOWED| ensures !Has(LISTED, UNFOLLOWED[i]) { LookUpListed(UNFOLLOWED[i]); }
    LookUpListed(VALUED[0]);
    assert Has(LISTED, VALUED[0]);
    LookUpListed("type");
    LookUpListed("anyOf");
    LookUpListed("oneOf");
    LookUpListed("minLength");
    LookUpListed("maxLength");
    assert "type"[0] == 't' && "enum"[0] == 'e';
    assert |"enum"| == 4 && |"anyOf"| == 5 && |"oneOf"| == 5 && |"minLength"| == 9 && |"maxLength"| == 9;
  }

  /** A branch with an `enum` is one the check refuses every string for. A string it
    * lists keeps to it all the same, and then to two branches of this `oneOf`: the check
    * lets it through, and the schema does not. */
  lemma {:induction false} ListedCanRefuse(more: Scalars, text: string)
    requires Neutral(more) && more(LISTED, Str(text))
    ensures StringAt(STRING_OR_LISTED, [], text) == Some(true)
    ensures !Validates(more, STRING_OR_LISTED, Str(text))
  {
    hide Get, Validates, AllowsString;
    PlainString(more, text);
    ListedString(more, text);
    OneOfValidates(more, [STRING, LISTED], Str(text));
    OneOfIsCounted(text);
  }

  lemma {:induction false} OneOfIsCounted(text: string)
    requires AllowsString(STRING, text, 1) == Some(true) && AllowsString(LISTED, text, 1) == Some(false)
    ensures AllowsString(STRING_OR_LISTED, text, 0) == Some(true)
  {
    hide AllowsString, Get, HasAny, Typed, CountTrue;
    var branches := [STRING, LISTED];
    var vs := Verdicts(STRING_OR_LISTED, branches, text, 0);
    assert vs == [Some(true), Some(false)];
    OnlyOne(vs, 0);
    OneOfReads(branches);
    AllowsByOneOf(STRING_OR_LISTED, branches, text);
  }

  /** What the check reads of a schema that is a `oneOf` and no more. */
  lemma {:induction false} OneOfReads(branches: seq<Value>)
    ensures var schema := Obj([Entry("oneOf", Arr(branches))]);
            && !HasAny(schema, UNFOLLOWED) && !HasAny(schema, VALUED)
            && GetArr(schema, "anyOf").None? && GetArr(schema, "oneOf") == Some(branches)
            && Typed(schema, "string")
            && Bound(schema, "minLength").None? && Bound(schema, "maxLength").None?
  {
    hide Get;
    var schema := Obj([Entry("oneOf", Arr(branches))]);
    OthersDiffer();
    forall i | 0 <= i < |UNFOLLOWED|
      ensures !Has(schema, UNFOLLOWED[i])
    {
      LookUpOneOf(branches, UNFOLLOWED[i]);
    }
    forall i | 0 <= i < |VALUED| ensures !Has(schema, VALUED[i]) { LookUpOneOf(branches, VALUED[i]); }
    LookUpOneOf(branches, "type");
    LookUpOneOf(branches, "anyOf");
    LookUpOneOf(branches, "oneOf");
    LookUpOneOf(branches, "minLength");
    LookUpOneOf(branches, "maxLength");
    assert "oneOf"[0] == 'o' && "anyOf"[0] == 'a' && |"oneOf"| == 5;
  }

  lemma {:induction false} AllowsByOneOf(schema: Value, branches: seq<Value>, text: string)
    requires schema.Obj? && !HasAny(schema, UNFOLLOWED) && !HasAny(schema, VALUED)
    requires GetArr(schema, "anyOf").None? && GetArr(schema, "oneOf") == Some(branches) && Typed(schema, "string")
    requires Bound(schema, "minLength").None? && Bound(schema, "maxLength").None?
    requires None !in Verdicts(schema, branches, text, 0) && CountTrue(Verdicts(schema, branches, text, 0)) == 1
    ensures AllowsString(schema, text, 0) == Some(true)
  {
    hide HasAny, Typed, CountTrue, Verdicts;
  }
}
