/** Reading a tool's annotations out of its input schema. */
module ParamSchemas {
  import opened Wrappers
  import opened Text
  import opened Ordering
  import opened Json
  import opened ParamHeaders

  datatype SchemaError =
    | NotAName(path: seq<string>)
    | NotAToken(path: seq<string>, name: string)
    | Duplicate(name: string)
    | NotPrimitive(path: seq<string>, name: string, found: string)
    | NotStaticallyReachable(path: seq<string>, name: string)

  const INSTANCE_KEYWORDS: seq<string> := ["const", "default", "enum", "examples", "dependentRequired"]

  const SCHEMA_MAP_KEYWORDS: seq<string> := ["$defs", "definitions", "patternProperties", "dependentSchemas"]

  // ----- The subschemas the walk visits

  /** A step of the walk: down a property, which keeps its place reachable, or any other way. */
  datatype Hop = Hop(schema: Value, prop: Option<string>)

  ghost predicate HopsBelow(v: Value, hops: seq<Hop>) {
    forall i :: 0 <= i < |hops| ==> (v decreases to hops[i].schema)
  }

  function MembersAsHops(v: Value, props: bool): (hops: seq<Hop>)
    requires v.Obj?
    ensures |hops| == |v.members|
    ensures forall i :: 0 <= i < |hops| ==>
              hops[i] == Hop(v.members[i].value, if props then Some(v.members[i].name) else None)
  {
    seq(|v.members|, i requires 0 <= i < |v.members| =>
      Hop(v.members[i].value, if props then Some(v.members[i].name) else None))
  }

  /** Where one keyword of a schema leads. */
  function KeywordHops(m: Member): (hops: seq<Hop>) {
    if m.name in INSTANCE_KEYWORDS then []
    else if m.name == "properties" then (if m.value.Obj? then MembersAsHops(m.value, true) else [])
    else if m.name in SCHEMA_MAP_KEYWORDS then (if m.value.Obj? then MembersAsHops(m.value, false) else [])
    else
      match m.value
      case Obj(_) => [Hop(m.value, None)]
      case Arr(items) => seq(|items|, i requires 0 <= i < |items| => Hop(items[i], None))
      case _ => []
  }

  lemma {:induction false} KeywordHopsBelow(v: Value, m: Member)
    requires v.Obj? && m in v.members
    ensures HopsBelow(v, KeywordHops(m))
  {
    MemberIsBelow(v, m);
    forall i | 0 <= i < |KeywordHops(m)| ensures (v decreases to KeywordHops(m)[i].schema) {
      if m.value.Obj? && KeywordHops(m) != [Hop(m.value, None)] {
        MemberIsBelow(m.value, m.value.members[i]);
      } else if m.value.Arr? {
        ItemIsBelow(m.value, m.value.items[i]);
      }
    }
  }

  function HopsFrom(v: Value, members: seq<Member>): (hops: seq<Hop>)
    requires v.Obj? && forall m :: m in members ==> m in v.members
    ensures HopsBelow(v, hops)
  {
    if members == [] then []
    else
      KeywordHopsBelow(v, members[0]);
      KeywordHops(members[0]) + HopsFrom(v, members[1..])
  }

  /** A subschema the walk visits: how it got there, and whether by properties alone. */
  datatype Site = Site(schema: Value, path: seq<string>, reachable: bool)

  function Sites(v: Value, path: seq<string>, reachable: bool): seq<Site>
    decreases v, 1, 0
  {
    if v.Obj? then [Site(v, path, reachable)] + SitesUnder(v, HopsFrom(v, v.members), path, reachable) else []
  }

  function Onward(path: seq<string>, hop: Hop): seq<string> { if hop.prop.Some? then path + [hop.prop.value] else path }

  function SitesUnder(v: Value, hops: seq<Hop>, path: seq<string>, reachable: bool): seq<Site>
    requires HopsBelow(v, hops)
    decreases v, 0, |hops|
  {
    if hops == [] then []
    else
      Sites(hops[0].schema, Onward(path, hops[0]), reachable && hops[0].prop.Some?) +
      SitesUnder(v, hops[1..], path, reachable)
  }

  // ----- Judging one

  predicate TokenChar(c: char) { IsAlnum(c) || c in "!#$%&'*+-.^_`|~" }

  /** A field name (`token`, section 5.1 of RFC 9110). */
  predicate IsFieldToken(v: string) { v != "" && forall i :: 0 <= i < |v| ==> TokenChar(v[i]) }

  /** The one type a schema declares, if it declares one. */
  function Declared(schema: Value): Option<string> {
    match Get(schema, "type")
    case Some(Arr(types)) => if |types| == 1 && types[0].Str? then Some(types[0].s) else None
    case Some(Str(s)) => Some(s)
    case _ => None
  }

  predicate Mirrorable(declared: Option<string>) {
    declared in {Some("string"), Some("integer"), Some("boolean")}
  }

  /** The annotation at a site, if it has one and may have it. */
  function Judge(site: Site): Result<Option<ParamHeader>, SchemaError> {
    match Get(site.schema, ANNOTATION)
    case None => Ok(None)
    case Some(Str(name)) =>
      if name == "" then Err(NotAName(site.path))
      else if !IsFieldToken(name) then Err(NotAToken(site.path, name))
      else if !site.reachable || site.path == [] then Err(NotStaticallyReachable(site.path, name))
      else
        var declared := Declared(site.schema);
        if Mirrorable(declared) then Ok(Some(ParamHeader(name, site.path)))
        else Err(NotPrimitive(site.path, name, if declared.Some? then declared.value else "untyped"))
    case _ => Err(NotAName(site.path))
  }

  type Walked = Result<seq<ParamHeader>, SchemaError>

  /** The sites judged in turn: the annotations, or what the first bad one is. */
  function JudgeAll(sites: seq<Site>, found: seq<ParamHeader>): Walked {
    if sites == [] then Ok(found)
    else
      match Judge(sites[0])
      case Err(e) => Err(e)
      case Ok(None) => JudgeAll(sites[1..], found)
      case Ok(Some(h)) => JudgeAll(sites[1..], found + [h])
  }

  lemma {:induction false} JudgeInTurn(a: seq<Site>, b: seq<Site>, found: seq<ParamHeader>)
    ensures JudgeAll(a + b, found) ==
            match JudgeAll(a, found) case Err(e) => Err(e) case Ok(out) => JudgeAll(b, out)
    decreases |a|
  {
    hide Judge;
    if a == [] {
      assert a + b == b;
    } else {
      assert (a + b)[0] == a[0] && (a + b)[1..] == a[1..] + b;
      match Judge(a[0])
      case Err(_) =>
      case Ok(None) => JudgeInTurn(a[1..], b, found);
      case Ok(Some(h)) => JudgeInTurn(a[1..], b, found + [h]);
    }
  }

  // ----- The walk

  /** Recurses into a schema, adding the annotations in it to `found`. */
  method WalkSchema(schema: Value, path: seq<string>, reachable: bool, found: seq<ParamHeader>) returns (r: Walked)
    ensures r == JudgeAll(Sites(schema, path, reachable), found)
    decreases schema
  {
    hide Judge, KeywordHops, HopsFrom;
    if !schema.Obj? {
      return Ok(found);
    }
    var site := Site(schema, path, reachable);
    var hops := HopsFrom(schema, schema.members);
    ghost var all := Sites(schema, path, reachable);
    assert all[0] == site && all[1..] == SitesUnder(schema, hops, path, reachable);
    var out := found;
    var judged := Judge(site);
    if judged.Err? {
      return Err(judged.error);
    }
    if judged.value.Some? {
      out := out + [judged.value.value];
    }
    for i := 0 to |hops|
      invariant HopsBelow(schema, hops[i..])
      invariant JudgeAll(all, found) == JudgeAll(SitesUnder(schema, hops[i..], path, reachable), out)
    {
      var hop := hops[i];
      assert hops[i..][0] == hop && hops[i..][1..] == hops[i + 1..];
      JudgeInTurn(Sites(hop.schema, Onward(path, hop), reachable && hop.prop.Some?),
                  SitesUnder(schema, hops[i + 1..], path, reachable), out);
      var walked := WalkSchema(hop.schema, Onward(path, hop), reachable && hop.prop.Some?, out);
      if walked.Err? {
        return walked;
      }
      out := walked.value;
    }
    return Ok(out);
  }

  ghost predicate Repeats(found: seq<ParamHeader>, name: string) {
    exists i, j :: 0 <= i < j < |found| && found[i].HeaderName() == found[j].HeaderName() && found[j].name == name
  }

  /** Every annotation in a tool's input schema; an error means the tool is unusable. */
  method ParamHeadersOf(schema: Value) returns (r: Walked)
    ensures var all := JudgeAll(Sites(schema, [], true), []);
            if all.Ok? && !DistinctNames(all.value)
            then r.Err? && r.error.Duplicate? && Repeats(all.value, r.error.name)
            else r == all
  {
    hide JudgeAll, Sites;
    r := WalkSchema(schema, [], true, []);
    if r.Err? {
      return;
    }
    var found := r.value;
    var seen: seq<string> := [];
    for i := 0 to |found|
      invariant |seen| == i && forall k :: 0 <= k < i ==> seen[k] == Lower(found[k].name)
      invariant forall j, k :: 0 <= j < k < i ==> found[j].HeaderName() != found[k].HeaderName()
    {
      var folded := Lower(found[i].name);
      if folded in seen {
        var j :| 0 <= j < i && seen[j] == folded;
        NamesFold(found[j], found[i]);
        return Err(Duplicate(found[i].name));
      }
      forall j | 0 <= j < i ensures found[j].HeaderName() != found[i].HeaderName() {
        assert seen[j] in seen;
        NamesFold(found[j], found[i]);
      }
      seen := seen + [folded];
    }
  }

  lemma {:induction false} NamesFold(a: ParamHeader, b: ParamHeader)
    ensures a.HeaderName() == b.HeaderName() <==> Lower(a.name) == Lower(b.name)
  {
    hide Lower;
    assert a.HeaderName()[|PARAM_PREFIX|..] == Lower(a.name) && b.HeaderName()[|PARAM_PREFIX|..] == Lower(b.name);
  }

  // ----- What the walk finds

  /** The subschema down a chain of `properties` keys. */
  function PropAt(v: Value, path: seq<string>): Option<Value>
    decreases |path|
  {
    if path == [] then Some(v)
    else
      match Get(v, "properties")
      case None => None
      case Some(props) =>
        match Get(props, path[0])
        case None => None
        case Some(x) => PropAt(x, path[1..])
  }

  /** A tool's parameter, down a chain of properties, that asks for a header of this name. */
  ghost predicate IsAnnotation(schema: Value, h: ParamHeader) {
    && h.path != []
    && PropAt(schema, h.path).Some?
    && Get(PropAt(schema, h.path).value, ANNOTATION) == Some(Str(h.name))
  }

  lemma {:induction false} GetMember(v: Value, i: nat)
    requires v.Obj? && Distinct(v.members) && i < |v.members|
    ensures Get(v, v.members[i].name) == Some(v.members[i].value)
  {
  }

  /** A hop down a property is to what `properties` holds under its name. */
  lemma {:induction false} PropHop(v: Value, members: seq<Member>, k: nat)
    requires v.Obj? && WellFormed(v) && forall m :: m in members ==> m in v.members
    requires k < |HopsFrom(v, members)| && HopsFrom(v, members)[k].prop.Some?
    ensures var hop := HopsFrom(v, members)[k];
            PropAt(v, [hop.prop.value]) == Some(hop.schema) && WellFormed(hop.schema)
  {
    var hops := KeywordHops(members[0]);
    if k < |hops| {
      var m := members[0];
      assert m in v.members;
      var i :| 0 <= i < |v.members| && v.members[i] == m;
      GetMember(v, i);
      GetMember(m.value, k);
      assert PropAt(hops[k].schema, []) == Some(hops[k].schema);
    } else {
      PropHop(v, members[1..], k - |hops|);
    }
  }

  lemma {:induction false} HopIsWellFormed(v: Value, members: seq<Member>, k: nat)
    requires v.Obj? && WellFormed(v) && forall m :: m in members ==> m in v.members
    requires k < |HopsFrom(v, members)|
    ensures WellFormed(HopsFrom(v, members)[k].schema)
  {
    var hops := KeywordHops(members[0]);
    if k < |hops| {
      assert members[0] in v.members;
      var i :| 0 <= i < |v.members| && v.members[i] == members[0];
      assert WellFormed(members[0].value);
    } else {
      HopIsWellFormed(v, members[1..], k - |hops|);
    }
  }

  lemma {:induction false} PropAtHop(v: Value, prop: string, x: Value, rest: seq<string>)
    requires PropAt(v, [prop]) == Some(x)
    ensures PropAt(v, [prop] + rest) == PropAt(x, rest)
  {
    assert [prop][1..] == [] && ([prop] + rest)[1..] == rest;
    var props := Get(v, "properties").value;
    assert PropAt(Get(props, prop).value, []) == Some(Get(props, prop).value);
  }

  /** A reachable site is a property of a property, from where the walk began. */
  lemma {:induction false} SiteIsProp(
      v: Value, path: seq<string>, reachable: bool, site: Site) returns (rest: seq<string>)
    requires WellFormed(v) && site in Sites(v, path, reachable) && site.reachable
    ensures reachable && site.path == path + rest && PropAt(v, rest) == Some(site.schema)
    decreases v, 1, 0
  {
    hide WellFormed, HopsFrom, Sites, SitesUnder, PropAt;
    SitesOf(v, path, reachable, site);
    PropAtNone(v);
    var hops := HopsFrom(v, v.members);
    if site == Site(v, path, reachable) {
      rest := [];
      assert path + [] == path;
    } else {
      var k := WhichHop(v, hops, path, reachable, site);
      var hop := hops[k];
      HopIsWellFormed(v, v.members, k);
      var more := SiteIsProp(hop.schema, Onward(path, hop), reachable && hop.prop.Some?, site);
      PropHop(v, v.members, k);
      PropAtHop(v, hop.prop.value, hop.schema, more);
      rest := [hop.prop.value] + more;
      assert path + rest == (path + [hop.prop.value]) + more;
    }
  }

  lemma {:induction false} SitesOf(v: Value, path: seq<string>, reachable: bool, site: Site)
    ensures site in Sites(v, path, reachable) <==>
            v.Obj? && (site == Site(v, path, reachable) ||
              site in SitesUnder(v, HopsFrom(v, v.members), path, reachable))
  {
    hide HopsFrom, SitesUnder;
  }

  lemma {:induction false} PropAtNone(v: Value)
    ensures PropAt(v, []) == Some(v)
  {
  }

  lemma {:induction false} WhichHop(
      v: Value, hops: seq<Hop>, path: seq<string>, reachable: bool, site: Site) returns (k: nat)
    requires HopsBelow(v, hops) && site in SitesUnder(v, hops, path, reachable)
    ensures k < |hops| && site in Sites(hops[k].schema, Onward(path, hops[k]), reachable && hops[k].prop.Some?)
  {
    hide Sites;
    if site in Sites(hops[0].schema, Onward(path, hops[0]), reachable && hops[0].prop.Some?) {
      k := 0;
    } else {
      var rest := WhichHop(v, hops[1..], path, reachable, site);
      k := rest + 1;
    }
  }

  lemma {:induction false} UnderHop(v: Value, hops: seq<Hop>, path: seq<string>, reachable: bool, k: nat, site: Site)
    requires HopsBelow(v, hops) && k < |hops|
    requires site in Sites(hops[k].schema, Onward(path, hops[k]), reachable && hops[k].prop.Some?)
    ensures site in SitesUnder(v, hops, path, reachable)
  {
    hide Sites;
    if k > 0 {
      UnderHop(v, hops[1..], path, reachable, k - 1, site);
    }
  }

  /** `properties` leads to each of its members. */
  lemma {:induction false} HopToProp(v: Value, members: seq<Member>, props: Member, i: nat) returns (k: nat)
    requires v.Obj? && (forall m :: m in members ==> m in v.members) && props in members
    requires props.name == "properties" && props.value.Obj? && i < |props.value.members|
    ensures k < |HopsFrom(v, members)|
    ensures HopsFrom(v, members)[k] == Hop(props.value.members[i].value, Some(props.value.members[i].name))
  {
    if members[0] == props {
      NotInstance();
      k := i;
    } else {
      var rest := HopToProp(v, members[1..], props, i);
      k := |KeywordHops(members[0])| + rest;
    }
  }

  lemma {:induction false} NotInstance()
    ensures "properties" !in INSTANCE_KEYWORDS
  {
    forall i | 0 <= i < |INSTANCE_KEYWORDS| ensures INSTANCE_KEYWORDS[i] != "properties" {
      assert |INSTANCE_KEYWORDS[i]| != |"properties"|;
    }
  }

  /** Every schema down a chain of properties is a reachable site. */
  lemma {:induction false} PropIsSite(v: Value, path: seq<string>, rest: seq<string>, x: Value)
    requires PropAt(v, rest) == Some(x) && x.Obj?
    ensures Site(x, path + rest, true) in Sites(v, path, true)
    decreases |rest|
  {
    hide HopsFrom;
    if rest == [] {
      assert path + [] == path;
    } else {
      var props := Entry("properties", Get(v, "properties").value);
      var i := MemberAt(props.value.members, rest[0]).value;
      var k := HopToProp(v, v.members, v.members[MemberAt(v.members, "properties").value], i);
      var hop := HopsFrom(v, v.members)[k];
      PropIsSite(hop.schema, path + [rest[0]], rest[1..], x);
      assert path + rest == (path + [rest[0]]) + rest[1..];
      UnderHop(v, HopsFrom(v, v.members), path, true, k, Site(x, path + rest, true));
    }
  }

  /** Judging every site finds exactly the annotations they have. */
  lemma {:induction false} JudgedIs(sites: seq<Site>, found: seq<ParamHeader>)
    ensures JudgeAll(sites, found).Ok? <==> forall s :: s in sites ==> Judge(s).Ok?
    ensures JudgeAll(sites, found).Ok? ==>
              forall h :: h in JudgeAll(sites, found).value <==>
                h in found || exists s :: s in sites && Judge(s) == Ok(Some(h))
  {
    hide Judge;
    if sites != [] && Judge(sites[0]).Ok? {
      assert forall s :: s in sites <==> s == sites[0] || s in sites[1..];
      var judged := Judge(sites[0]).value;
      JudgedIs(sites[1..], if judged.None? then found else found + [judged.value]);
    } else if sites != [] {
      assert sites[0] in sites;
    }
  }

  /** An accepted schema's annotations are exactly those down its properties, each
    * a field name on a parameter a header can carry, and it has none anywhere else
    * the walk goes. */
  lemma {:induction false} AnnotationsAreExact(schema: Value, found: seq<ParamHeader>)
    requires WellFormed(schema) && JudgeAll(Sites(schema, [], true), []) == Ok(found)
    ensures forall h :: h in found <==> IsAnnotation(schema, h)
    ensures forall h :: h in found ==>
              IsFieldToken(h.name) && PropAt(schema, h.path).Some? && Mirrorable(Declared(PropAt(schema, h.path).value))
    ensures forall s :: s in Sites(schema, [], true) && Has(s.schema, ANNOTATION) ==> s.reachable && s.path != []
  {
    hide WellFormed, Sites, JudgeAll, IsFieldToken, Declared, Mirrorable;
    var sites := Sites(schema, [], true);
    JudgedIs(sites, []);
    forall h ensures h in found <==> IsAnnotation(schema, h)
             ensures h in found ==>
               IsFieldToken(h.name) && PropAt(schema, h.path).Some? &&
                 Mirrorable(Declared(PropAt(schema, h.path).value))
    {
      if h in found {
        var s :| s in sites && Judge(s) == Ok(Some(h));
        var rest := SiteIsProp(schema, [], true, s);
        assert [] + rest == rest;
      }
      if IsAnnotation(schema, h) {
        var x := PropAt(schema, h.path).value;
        PropIsSite(schema, [], h.path, x);
        assert [] + h.path == h.path;
        assert Judge(Site(x, h.path, true)).Ok?;
      }
    }
  }

  // ----- The walk and its judgement, in plain terms

  /** From a schema to one within it: down a property, which has a name, or any other
    * way; never into a keyword that holds instances. */
  ghost predicate Leads(v: Value, w: Value, prop: Option<string>) {
    v.Obj? && exists m :: m in v.members && LeadsBy(m, w, prop)
  }

  ghost predicate LeadsBy(m: Member, w: Value, prop: Option<string>) {
    if m.name in {"const", "default", "enum", "examples", "dependentRequired"} then false
    else if m.name == "properties" then
      m.value.Obj? && prop.Some? && Entry(prop.value, w) in m.value.members
    else if m.name in {"$defs", "definitions", "patternProperties", "dependentSchemas"} then
      m.value.Obj? && prop.None? && exists name :: Entry(name, w) in m.value.members
    else
      prop.None? && ((m.value.Obj? && w == m.value) || (m.value.Arr? && w in m.value.items))
  }

  lemma {:induction false} KeywordsAre(name: string)
    ensures name in INSTANCE_KEYWORDS <==> name in {"const", "default", "enum", "examples", "dependentRequired"}
    ensures name in SCHEMA_MAP_KEYWORDS <==>
            name in {"$defs", "definitions", "patternProperties", "dependentSchemas"}
  {
  }

  lemma {:induction false} HopIsLead(m: Member, hop: Hop)
    ensures hop in KeywordHops(m) <==> LeadsBy(m, hop.schema, hop.prop)
  {
    hide INSTANCE_KEYWORDS, SCHEMA_MAP_KEYWORDS;
    KeywordsAre(m.name);
    var hops := KeywordHops(m);
    if hop in hops {
      var i :| 0 <= i < |hops| && hops[i] == hop;
      if m.value.Obj? && hops != [Hop(m.value, None)] { assert m.value.members[i] in m.value.members; }
    }
    if LeadsBy(m, hop.schema, hop.prop) {
      if m.name == "properties" {
        var i :| 0 <= i < |m.value.members| && m.value.members[i] == Entry(hop.prop.value, hop.schema);
        assert hops[i] == hop;
      } else if m.name in SCHEMA_MAP_KEYWORDS {
        var name :| Entry(name, hop.schema) in m.value.members;
        var i :| 0 <= i < |m.value.members| && m.value.members[i] == Entry(name, hop.schema);
        assert hops[i] == hop;
      } else if m.value.Arr? {
        var i :| 0 <= i < |m.value.items| && m.value.items[i] == hop.schema;
        assert hops[i] == hop;
      }
    }
  }

  lemma {:induction false} HopsAreLeads(v: Value, members: seq<Member>, hop: Hop)
    requires v.Obj? && forall m :: m in members ==> m in v.members
    ensures hop in HopsFrom(v, members) <==> exists m :: m in members && LeadsBy(m, hop.schema, hop.prop)
  {
    hide KeywordHops, LeadsBy;
    if members != [] {
      HopIsLead(members[0], hop);
      HopsAreLeads(v, members[1..], hop);
      if m :| m in members && LeadsBy(m, hop.schema, hop.prop) {
        assert m == members[0] || m in members[1..];
      }
    }
  }

  /** The walk visits a schema that is an object, and then all that it leads to. */
  lemma {:induction false} WalkGoes(v: Value, path: seq<string>, reachable: bool, site: Site)
    ensures site in Sites(v, path, reachable) <==>
            v.Obj? &&
            (|| site == Site(v, path, reachable)
             || exists w, prop :: VisitedBy(v, w, prop, path, reachable, site))
  {
    hide HopsFrom, LeadsBy, Sites, SitesUnder;
    SitesOf(v, path, reachable, site);
    if v.Obj? {
      var hops := HopsFrom(v, v.members);
      if site in SitesUnder(v, hops, path, reachable) {
        var k := WhichHop(v, hops, path, reachable, site);
        HopsAreLeads(v, v.members, hops[k]);
        assert VisitedBy(v, hops[k].schema, hops[k].prop, path, reachable, site);
      }
      if w, prop :| VisitedBy(v, w, prop, path, reachable, site) {
        HopsAreLeads(v, v.members, Hop(w, prop));
        var k :| 0 <= k < |hops| && hops[k] == Hop(w, prop);
        UnderHop(v, hops, path, reachable, k, site);
      }
    }
  }

  ghost predicate VisitedBy(v: Value, w: Value, prop: Option<string>, path: seq<string>, reachable: bool, site: Site) {
    && Leads(v, w, prop)
    && site in Sites(w, if prop.Some? then path + [prop.value] else path, reachable && prop.Some?)
  }

  /** A `token` of section 5.6.2 of RFC 9110. */
  ghost predicate PlainToken(v: string) {
    v != "" && forall i :: 0 <= i < |v| ==>
      'a' <= v[i] <= 'z' || 'A' <= v[i] <= 'Z' || '0' <= v[i] <= '9' || v[i] in "!#$%&'*+-.^_`|~"
  }

  /** A schema says of what it is for that it is of this one type. */
  ghost predicate OneType(schema: Value, t: string) {
    Get(schema, "type") == Some(Str(t)) || Get(schema, "type") == Some(Arr([Str(t)]))
  }

  /** A schema without an annotation is passed over; one with it passes exactly when its
    * name is a token, it is down properties alone, and it is of a type a header carries. */
  lemma {:induction false} JudgeMeans(site: Site, h: ParamHeader)
    ensures Judge(site) == Ok(None) <==> Get(site.schema, "x-mcp-header").None?
    ensures Judge(site) == Ok(Some(h)) <==>
            && Get(site.schema, "x-mcp-header") == Some(Str(h.name)) && h.path == site.path
            && PlainToken(h.name)
            && site.reachable && site.path != []
            && (OneType(site.schema, "string") || OneType(site.schema, "integer") || OneType(site.schema, "boolean"))
  {
    hide Get;
    assert ANNOTATION == "x-mcp-header";
    TokenIsPlain(h.name);
    TypeIsDeclared(site.schema);
    match Get(site.schema, ANNOTATION)
    case Some(Str(name)) => TokenIsPlain(name);
    case _ =>
  }

  lemma {:induction false} TokenIsPlain(v: string)
    ensures IsFieldToken(v) <==> PlainToken(v)
  {
  }

  lemma {:induction false} TypeIsDeclared(schema: Value)
    ensures forall t :: Declared(schema) == Some(t) <==> OneType(schema, t)
  {
    hide Get;
    forall t ensures Declared(schema) == Some(t) <==> OneType(schema, t) {
      match Get(schema, "type")
      case Some(Arr(types)) =>
        if |types| == 1 && types[0] == Str(t) { assert types == [Str(t)]; }
      case _ =>
    }
  }

  /** The walk passes exactly when each schema it visits that has an annotation may. */
  lemma {:induction false} WalkPasses(schema: Value)
    ensures JudgeAll(Sites(schema, [], true), []).Ok? <==>
            forall s :: s in Sites(schema, [], true) && Get(s.schema, "x-mcp-header").Some? ==>
              && s.reachable && s.path != []
              && (exists name :: Get(s.schema, "x-mcp-header") == Some(Str(name)) && PlainToken(name))
              && (OneType(s.schema, "string") || OneType(s.schema, "integer") || OneType(s.schema, "boolean"))
  {
    hide Sites, Judge, Get, OneType, PlainToken;
    JudgedIs(Sites(schema, [], true), []);
    forall s | s in Sites(schema, [], true)
      ensures Judge(s).Ok? <==>
              (Get(s.schema, "x-mcp-header").Some? ==>
                 && s.reachable && s.path != []
                 && (exists name :: Get(s.schema, "x-mcp-header") == Some(Str(name)) && PlainToken(name))
                 && (OneType(s.schema, "string") || OneType(s.schema, "integer") || OneType(s.schema, "boolean")))
    {
      JudgedOne(s);
    }
  }

  lemma {:induction false} JudgedOne(s: Site)
    ensures Judge(s).Ok? <==>
            (Get(s.schema, "x-mcp-header").Some? ==>
               && s.reachable && s.path != []
               && (exists name :: Get(s.schema, "x-mcp-header") == Some(Str(name)) && PlainToken(name))
               && (OneType(s.schema, "string") || OneType(s.schema, "integer") || OneType(s.schema, "boolean")))
  {
    hide Judge, Get, OneType, PlainToken;
    JudgeMeans(s, ParamHeader("", []));
    if Judge(s).Ok? && Judge(s).value.Some? { JudgeMeans(s, Judge(s).value.value); }
    if name :| Get(s.schema, "x-mcp-header") == Some(Str(name)) && PlainToken(name) {
      JudgeMeans(s, ParamHeader(name, s.path));
    }
  }
}
