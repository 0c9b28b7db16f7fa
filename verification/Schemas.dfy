/** The check of an edit against a tool's outputSchema, and what it promises.
  *
  * A schema is JSON. `Validates` reads these keywords as JSON Schema does: `type`,
  * `properties`, `additionalProperties`, `required`, `minProperties`, `items`,
  * `prefixItems` (and a list under `items`, as older drafts have it), `minLength`,
  * `maxLength`, `anyOf` and `oneOf`. Whatever a schema says further of a value that is no
  * object or array is an argument, `more`.
  */
module Schemas {
  import opened Wrappers
  import opened Json

  // ----- What a schema means

  /** What a schema says of a scalar by its other keywords. */
  type Scalars = (Value, Value) -> bool

  const VALUED: seq<string> :=
    ["enum", "const", "pattern", "format", "contentEncoding", "contentMediaType", "contentSchema"]

  /** A schema without those keywords says nothing further of a string. */
  ghost predicate Neutral(more: Scalars) {
    forall schema, s :: !HasAny(schema, VALUED) ==> more(schema, Str(s))
  }

  ghost predicate IsOfType(v: Value, t: string) {
    match v
    case Null => t == "null"
    case Bool(_) => t == "boolean"
    case Num(_) => t == "integer" || t == "number"
    case Str(_) => t == "string"
    case Arr(_) => t == "array"
    case Obj(_) => t == "object"
  }

  ghost predicate TypeOk(schema: Value, v: Value) {
    match Get(schema, "type")
    case None => true
    case Some(Str(t)) => IsOfType(v, t)
    case Some(Arr(ts)) => exists i :: 0 <= i < |ts| && ts[i].Str? && IsOfType(v, ts[i].s)
    case _ => false
  }

  /** A bound under `key`, if it is one. */
  function Bound(schema: Value, key: string): Option<nat> {
    match Get(schema, key)
    case Some(Num(n)) => if n >= 0 then Some(n) else None
    case _ => None
  }

  ghost predicate LengthOk(schema: Value, s: string) {
    && (Bound(schema, "minLength").Some? ==> Bound(schema, "minLength").value <= |s|)
    && (Bound(schema, "maxLength").Some? ==> |s| <= Bound(schema, "maxLength").value)
  }

  ghost predicate KeysOk(schema: Value, ms: seq<Member>) {
    && (Bound(schema, "minProperties").Some? ==> Bound(schema, "minProperties").value <= |ms|)
    && (GetArr(schema, "required").Some? ==>
          forall i :: 0 <= i < |GetArr(schema, "required").value| && GetArr(schema, "required").value[i].Str? ==>
            MemberAt(ms, GetArr(schema, "required").value[i].s).Some?)
  }

  /** The schema a member named `key` must keep to, if any. */
  ghost function OfMember(schema: Value, key: string): Option<Value> {
    match Get(schema, "properties")
    case Some(props) =>
      (match Get(props, key)
       case Some(sub) => Some(sub)
       case None => Get(schema, "additionalProperties"))
    case None => Get(schema, "additionalProperties")
  }

  /** The schema the item at `i` must keep to, if any. */
  ghost function OfItem(schema: Value, i: nat): Option<Value> {
    match GetArr(schema, "prefixItems")
    case Some(prefix) => if i < |prefix| then Some(prefix[i]) else OfLaterItem(schema, i)
    case None => OfLaterItem(schema, i)
  }

  ghost function OfLaterItem(schema: Value, i: nat): Option<Value> {
    match Get(schema, "items")
    case Some(Arr(tuple)) => if i < |tuple| then Some(tuple[i]) else Get(schema, "additionalItems")
    case other => other
  }

  /** Whether `v` keeps to `schema`. */
  ghost predicate Validates(more: Scalars, schema: Value, v: Value)
    decreases v, schema, 2
  {
    match schema
    case Bool(allowed) => allowed
    case Obj(_) =>
      && TypeOk(schema, v)
      && (GetArr(schema, "anyOf").Some? ==> SomeBranch(more, schema, GetArr(schema, "anyOf").value, v))
      && (GetArr(schema, "oneOf").Some? ==> OneBranch(more, schema, GetArr(schema, "oneOf").value, v))
      && (match v
          case Arr(items) =>
            forall i :: 0 <= i < |items| && OfItem(schema, i).Some? ==>
              Validates(more, OfItem(schema, i).value, items[i])
          case Obj(ms) =>
            && KeysOk(schema, ms)
            && forall i :: 0 <= i < |ms| && OfMember(schema, ms[i].name).Some? ==>
                 Validates(more, OfMember(schema, ms[i].name).value, ms[i].value)
          case Str(s) => LengthOk(schema, s) && more(schema, v)
          case _ => more(schema, v))
    case _ => false
  }

  ghost predicate SomeBranch(more: Scalars, schema: Value, branches: seq<Value>, v: Value)
    requires forall b :: b in branches ==> (schema decreases to b)
    decreases v, schema, 0
  {
    exists b :: b in branches && Validates(more, b, v)
  }

  /** `v` keeps to the branch at `i` and to no other. */
  ghost predicate OnlyBranch(more: Scalars, schema: Value, branches: seq<Value>, v: Value, i: nat)
    requires i < |branches| && forall b :: b in branches ==> (schema decreases to b)
    decreases v, schema, 0
  {
    assert forall j :: 0 <= j < |branches| ==> branches[j] in branches;
    Validates(more, branches[i], v) && forall j :: 0 <= j < |branches| && j != i ==> !Validates(more, branches[j], v)
  }

  /** `v` keeps to one of the branches, and to no other. */
  ghost predicate OneBranch(more: Scalars, schema: Value, branches: seq<Value>, v: Value)
    requires forall b :: b in branches ==> (schema decreases to b)
    decreases v, schema, 1
  {
    exists i :: 0 <= i < |branches| && OnlyBranch(more, schema, branches, v, i)
  }

  // ----- The check, as the code makes it

  const DEPTH: nat := 16

  const UNFOLLOWED: seq<string> :=
    ["allOf", "not", "if", "then", "else", "dependentSchemas", "$dynamicRef", "$recursiveRef",
     "unevaluatedProperties", "unevaluatedItems"]

  const SHAPED: seq<string> := ["properties", "additionalProperties", "required", "items", "prefixItems"]

  const ANYTHING: Value := Bool(true)

  /** The keyword `type` names `kind`, or is not there. */
  predicate Typed(schema: Value, kind: string) {
    match Get(schema, "type")
    case None => true
    case Some(Str(t)) => t == kind || (kind == "integer" && t == "number")
    case Some(Arr(ts)) => exists i :: 0 <= i < |ts| && ts[i] == Str(kind)
    case _ => false
  }

  function KindOf(step: Step): string { if step.IsKey() then "object" else "array" }

  function Fits(branches: seq<Value>, kind: string): (fits: seq<Value>)
    ensures forall b :: b in fits <==> b in branches && b.Obj? && Typed(b, kind)
  {
    if branches == [] then []
    else (if branches[0].Obj? && Typed(branches[0], kind) then [branches[0]] else []) + Fits(branches[1..], kind)
  }

  function Union(schema: Value): Option<Value> {
    match Get(schema, "anyOf")
    case Some(u) => Some(u)
    case None => Get(schema, "oneOf")
  }

  /** The branches of the union the check follows. */
  function Branches(schema: Value): Option<seq<Value>> {
    match Union(schema)
    case Some(Arr(branches)) => Some(branches)
    case _ => None
  }

  /** Through unions to a plain schema, for a value that has the step: each union must
    * have a single branch of the step's kind. `None` is no verdict. */
  function Container(schema: Value, step: Step, depth: nat): (r: Option<Value>)
    decreases DEPTH + 1 - depth
  {
    if !(schema.Obj? || schema.Bool?) || depth > DEPTH || HasAny(schema, UNFOLLOWED) then None
    else
      match Union(schema)
      case None => Some(schema)
      case Some(branches) =>
        if HasAny(schema, SHAPED) || !branches.Arr? then None
        else
          var fits := Fits(branches.items, KindOf(step));
          if |fits| != 1 then None else Container(fits[0], step, depth + 1)
  }

  function Rest(schema: Value, key: string): Option<Value> {
    match Get(schema, key)
    case None => Some(ANYTHING)
    case Some(Bool(b)) => if b then Some(ANYTHING) else None
    case other => other
  }

  /** One step down in a schema, as in the values it is for. */
  function Child(schema: Value, step: Step): Option<Value> {
    if schema == Bool(true) then Some(ANYTHING)
    else if schema == Bool(false) then None
    else
      match step
      case Index(i) =>
        var prefix := GetArr(schema, "prefixItems");
        if prefix.Some? && i < |prefix.value| then Some(prefix.value[i])
        else
          (match Get(schema, "items")
           case Some(Arr(tuple)) => if i < |tuple| then Some(tuple[i]) else Rest(schema, "additionalItems")
           case _ => Rest(schema, "items"))
      case _ =>
        var props := Get(schema, "properties");
        var sub := if props.Some? then Get(props.value, step.key) else None;
        if sub.Some? then sub
        else if Has(schema, "patternProperties") then None
        else Rest(schema, "additionalProperties")
  }

  /** The schema at `path`. */
  function SchemaAt(root: Value, path: Path): Option<Value>
    decreases |path|
  {
    if path == [] then Some(root)
    else
      match Container(root, path[0], 0)
      case None => None
      case Some(c) =>
        match Child(c, path[0])
        case None => None
        case Some(sub) => SchemaAt(sub, path[1..])
  }

  function Verdicts(schema: Value, branches: seq<Value>, text: string, depth: nat): (r: seq<Option<bool>>)
    requires depth <= DEPTH
    ensures |r| == |branches|
    ensures forall i :: 0 <= i < |branches| ==> r[i] == AllowsString(branches[i], text, depth + 1)
    decreases DEPTH + 1 - depth, 0, |branches|
  {
    if branches == [] then []
    else [AllowsString(branches[0], text, depth + 1)] + Verdicts(schema, branches[1..], text, depth)
  }

  function CountTrue(vs: seq<Option<bool>>): nat {
    if vs == [] then 0 else (if vs[0] == Some(true) then 1 else 0) + CountTrue(vs[1..])
  }

  /** The verdict on a string under a schema; `None` is none. */
  function AllowsString(schema: Value, text: string, depth: nat): Option<bool>
    decreases DEPTH + 1 - depth, 1
  {
    if schema.Bool? then Some(schema.b)
    else if !schema.Obj? || depth > DEPTH || HasAny(schema, UNFOLLOWED) then None
    else
      var any := GetArr(schema, "anyOf");
      var anyVs := if any.Some? then Verdicts(schema, any.value, text, depth) else [];
      var one := GetArr(schema, "oneOf");
      var oneVs := if one.Some? then Verdicts(schema, one.value, text, depth) else [];
      if any.Some? && Some(true) !in anyVs then (if None in anyVs then None else Some(false))
      else if one.Some? && None in oneVs then None
      else if one.Some? && CountTrue(oneVs) != 1 then Some(false)
      else if !Typed(schema, "string") || HasAny(schema, VALUED) then Some(false)
      else
        var below := Bound(schema, "minLength").Some? && |text| < Bound(schema, "minLength").value;
        var above := Bound(schema, "maxLength").Some? && |text| > Bound(schema, "maxLength").value;
        Some(!below && !above)
  }

  /** The verdict on a string to be written at `path`. */
  function StringAt(root: Value, path: Path, text: string): Option<bool> {
    match SchemaAt(root, path)
    case None => None
    case Some(schema) => AllowsString(schema, text, 0)
  }

  /** The verdict on the removal of the member `path` leads to, `left` being how many
    * its object is left with. */
  function RemovalAt(root: Value, path: Path, left: nat): Option<bool> {
    if path == [] || path[|path| - 1].Index? then None
    else
      var step := path[|path| - 1];
      match SchemaAt(root, path[..|path| - 1])
      case None => None
      case Some(at) => RemovalFrom(at, step, left)
  }

  function RemovalFrom(at: Value, step: Step, left: nat): Option<bool>
    requires step.IsKey()
  {
    match Container(at, step, 0)
    case None => None
    case Some(schema) =>
      if schema == ANYTHING then Some(true)
      else if Has(schema, "dependentRequired") || Has(schema, "dependencies") then None
      else
        var names := GetArr(schema, "required");
        var required := names.Some? && Str(step.key) in names.value;
        var tooFew := Bound(schema, "minProperties").Some? && left < Bound(schema, "minProperties").value;
        Some(!required && !tooFew)
  }

  /** The check gives up past sixteen unions within one another, and no sooner. */
  lemma {:induction false} SixteenDeep(schema: Value, step: Step, text: string)
    ensures schema.Obj? ==> AllowsString(schema, text, 17) == None
    ensures Container(schema, step, 17) == None
    ensures AllowsString(Obj([]), text, 16) == Some(true) && Container(Obj([]), step, 16) == Some(Obj([]))
  {
    forall key ensures Get(Obj([]), key) == None { assert MemberAt([], key) == None; }
  }
}
