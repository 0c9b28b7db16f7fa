/** Whole resource-URI patterns. A URI is taken here in normal form: what comes
  * before the path, the path's segments (at least one), a query and a fragment. */
module UriGlobs {
  import opened Wrappers
  import opened Globs
  import opened GlobNames
  import opened GlobOverlap
  import opened GlobPaths

  datatype Uri = Uri(prefix: string, segments: seq<Segment>, query: Option<string>, fragment: Option<string>)

  /** A compiled pattern: any URI, or the parts of one with the path as runs. */
  datatype Shape =
    | AnyUri
    | UriShape(prefix: string, runs: seq<seq<Segment>>, query: Option<string>, fragment: Option<string>)

  predicate NoSlash(s: Segment) { '/' !in s }

  /** A path is one segment or more, and a slash ends a segment. */
  ghost predicate IsUri(u: Uri) { u.segments != [] && forall s :: s in u.segments ==> NoSlash(s) }

  /** A pattern compiled from a URI is one segment or more, or a `**`. */
  ghost predicate Compiled(shape: Shape) {
    shape.UriShape? ==> Flat(shape.runs) != [] && NoSlashes(Flat(shape.runs))
  }

  ghost predicate NoSlashes(p: Path) { forall t :: t in p && t.One? ==> NoSlash(t.pat) }

  predicate OptionTakes(pattern: Option<string>, part: Option<string>) {
    match (pattern, part)
    case (None, None) => true
    case (Some(p), Some(s)) => Matches(p, s)
    case _ => false
  }

  /** What a compiled pattern means. */
  ghost predicate UriTakes(shape: Shape, uri: Uri) {
    shape.UriShape? ==>
      && Matches(shape.prefix, uri.prefix)
      && (if shape.query.Some? then uri.query.Some? && Matches(shape.query.value, uri.query.value) else uri.query.None?)
      && (if shape.fragment.Some? then uri.fragment.Some? && Matches(shape.fragment.value, uri.fragment.value)
          else uri.fragment.None?)
      && Takes(SegTakes, Flat(shape.runs), uri.segments, 0)
  }

  /** Compile a pattern's parts: it means what the pattern as written means. */
  method Compile(parts: Uri) returns (shape: Shape)
    requires IsUri(parts)
    ensures Compiled(shape) && shape.UriShape?
    ensures forall uri :: UriTakes(shape, uri) <==>
              && Matches(parts.prefix, uri.prefix)
              && OptionTakes(parts.query, uri.query)
              && OptionTakes(parts.fragment, uri.fragment)
              && PathMatches(parts.segments, uri.segments)
  {
    var runs := Runs(parts.segments);
    assert |Flat(runs)| == |parts.segments|;
    SegToksHoldNoSlash(parts.segments);
    shape := UriShape(parts.prefix, runs, parts.query, parts.fragment);
  }

  lemma {:induction false} SegToksHoldNoSlash(segments: seq<Segment>)
    requires forall s :: s in segments ==> NoSlash(s)
    ensures NoSlashes(SegToks(segments))
  {
  }

  method OptionMatches(pattern: Option<string>, part: Option<string>) returns (r: bool)
    ensures r <==> OptionTakes(pattern, part)
  {
    if pattern.Some? && part.Some? {
      r := Names(pattern.value, part.value);
    } else {
      r := pattern.None? && part.None?;
    }
  }

  /** Whether `uri` matches. */
  method UriMatches(shape: Shape, uri: Uri) returns (r: bool)
    ensures r <==> UriTakes(shape, uri)
  {
    if shape.AnyUri? { return true; }
    r := Names(shape.prefix, uri.prefix);
    if !r { return; }
    r := OptionMatches(shape.query, uri.query);
    if !r { return; }
    r := OptionMatches(shape.fragment, uri.fragment);
    if !r { return; }
    r := PathRunsMatch(shape.runs, uri.segments);
  }

  // ----- Overlap

  ghost predicate OptionsMeet(a: Option<string>, b: Option<string>) {
    exists part :: OptionTakes(a, part) && OptionTakes(b, part)
  }

  method OptionsOverlap(a: Option<string>, b: Option<string>) returns (r: bool)
    ensures r <==> OptionsMeet(a, b)
  {
    if a.Some? && b.Some? {
      r := PatternsOverlap(a.value, b.value, false);
      if r {
        var s :| Matches(a.value, s) && Matches(b.value, s);
        assert OptionTakes(a, Some(s)) && OptionTakes(b, Some(s));
      }
    } else {
      r := a.None? && b.None?;
      assert r ==> OptionTakes(a, None) && OptionTakes(b, None);
    }
  }

  /** Some URI matches both patterns. */
  ghost predicate UrisMeet(a: Shape, b: Shape) {
    exists uri :: IsUri(uri) && UriTakes(a, uri) && UriTakes(b, uri)
  }

  /** The segments a path pattern names, one for each `**` among them. */
  ghost function Sample(p: Path): (s: seq<Segment>)
    ensures |s| == |p|
    ensures NoSlashes(p) ==> forall x :: x in s ==> NoSlash(x)
  {
    if p == [] then [] else [if p[0].One? then p[0].pat else ""] + Sample(p[1..])
  }

  lemma {:induction false} SampleIsTaken(p: Path, i: nat)
    requires i <= |p|
    ensures Takes(SegTakes, p[i..], Sample(p[i..]), 0)
    decreases |p| - i
  {
    if i < |p| {
      SampleIsTaken(p, i + 1);
      var s := Sample(p[i..]);
      assert p[i..][1..] == p[i + 1..];
      assert s[1..] == Sample(p[i + 1..]);
      if p[i].One? {
        SegTakesItself(p[i].pat);
        StepOne(SegTakes, p, i, s);
      } else {
        TakesFrom(SegTakes, p[i + 1..], s, 1, 0);
        AnyReaches(SegTakes, p[i + 1..], s, 0, 1);
        assert p[i..] == [Any] + p[i + 1..];
      }
    }
  }

  /** A pattern that takes no segments at all also takes one. */
  lemma {:induction false} EmptyOrOne(p: Path, i: nat, x: Segment)
    requires i < |p| && Takes(SegTakes, p[i..], [], 0)
    ensures Takes(SegTakes, p[i..], [x], 0)
    decreases |p| - i
  {
    assert p[i..][1..] == p[i + 1..];
    assert p[i..] == [Any] + p[i + 1..];
    TakesFrom(SegTakes, p[i + 1..], [x], 1, 0);
    assert [x][1..] == [];
    AnyReaches(SegTakes, p[i + 1..], [x], 0, 1);
  }

  /** Paths that meet at all meet in one a URI can have. */
  lemma {:induction false} PathsMeetInAUri(p: Path, q: Path) returns (s: seq<Segment>)
    requires p != [] && q != [] && PathsMeet(p, q)
    ensures s != [] && Takes(SegTakes, p, s, 0) && Takes(SegTakes, q, s, 0)
    ensures NoSlashes(p) && NoSlashes(q) ==> forall x :: x in s ==> NoSlash(x)
  {
    s :| Takes(SegTakes, p, s, 0) && Takes(SegTakes, q, s, 0);
    if s == [] {
      assert p[0..] == p && q[0..] == q;
      EmptyOrOne(p, 0, "");
      EmptyOrOne(q, 0, "");
      s := [""];
    } else if NoSlashes(p) && NoSlashes(q) {
      UnslashedPath(p, s);
      UnslashedPath(q, s);
      s := AllUnslashed(s);
    }
  }

  /** The text with something else for each slash. */
  function Unslashed(s: string): (t: string)
    ensures |t| == |s| && NoSlash(t)
    ensures forall i :: 0 <= i < |s| && s[i] != '/' ==> t[i] == s[i]
  {
    seq(|s|, i requires 0 <= i < |s| => if s[i] == '/' then '-' else s[i])
  }

  function AllUnslashed(s: seq<Segment>): (t: seq<Segment>)
    ensures |t| == |s| && forall i :: 0 <= i < |s| ==> t[i] == Unslashed(s[i])
    ensures forall x :: x in t ==> NoSlash(x)
  {
    seq(|s|, i requires 0 <= i < |s| => Unslashed(s[i]))
  }

  /** A pattern that names no slash cannot tell one from another character. */
  lemma {:induction false} UnslashedSegment(pattern: Segment, x: Segment)
    requires NoSlash(pattern) && SegTakes(pattern, x)
    ensures SegTakes(pattern, Unslashed(x))
  {
    hide Takes;
    if x != "" { TakesAlike(CharTakes, Toks(pattern), x, Unslashed(x), 0); }
  }

  lemma {:induction false} UnslashedPath(p: Path, s: seq<Segment>)
    requires NoSlashes(p) && Takes(SegTakes, p, s, 0)
    ensures Takes(SegTakes, p, AllUnslashed(s), 0)
  {
    hide Takes, SegTakes;
    forall t, k | t in p && t.One? && 0 <= k < |s| && SegTakes(t.pat, s[k])
      ensures SegTakes(t.pat, AllUnslashed(s)[k])
    {
      UnslashedSegment(t.pat, s[k]);
    }
    TakesAlike(SegTakes, p, s, AllUnslashed(s), 0);
  }

  lemma {:induction false} SomeUriMatches(shape: Shape) returns (uri: Uri)
    requires Compiled(shape)
    ensures IsUri(uri) && UriTakes(shape, uri)
  {
    match shape
    case AnyUri => uri := Uri("", [""], None, None);
    case UriShape(prefix, runs, query, fragment) =>
      uri := Uri(prefix, Sample(Flat(runs)), query, fragment);
      SampleIsTaken(Flat(runs), 0);
      assert Flat(runs)[0..] == Flat(runs);
      MatchesItself(prefix);
      if query.Some? { MatchesItself(query.value); }
      if fragment.Some? { MatchesItself(fragment.value); }
  }

  lemma {:induction false} MatchesItself(p: string)
    ensures Matches(p, p)
  {
    NameTakesItself(p, 0);
    assert Toks(p)[0..] == Toks(p);
  }

  /** Exact, not a guess: whether some URI matches both patterns. */
  method UriOverlaps(a: Shape, b: Shape) returns (r: bool)
    requires Compiled(a) && Compiled(b)
    ensures r <==> UrisMeet(a, b)
  {
    hide Takes, Flat, Matches, Sample;
    if a.AnyUri? || b.AnyUri? {
      var uri := SomeUriMatches(if a.AnyUri? then b else a);
      assert UriTakes(a, uri) && UriTakes(b, uri);
      return true;
    }
    var prefixes := PatternsOverlap(a.prefix, b.prefix, false);
    var queries := OptionsOverlap(a.query, b.query);
    var fragments := OptionsOverlap(a.fragment, b.fragment);
    var paths := PathsOverlap(Flat(a.runs), Flat(b.runs));
    r := prefixes && queries && fragments && paths;
    if uri :| IsUri(uri) && UriTakes(a, uri) && UriTakes(b, uri) {
      assert OptionTakes(a.query, uri.query) && OptionTakes(b.query, uri.query);
      assert OptionTakes(a.fragment, uri.fragment) && OptionTakes(b.fragment, uri.fragment);
    }
    if r {
      var prefix :| Matches(a.prefix, prefix) && Matches(b.prefix, prefix);
      var query :| OptionTakes(a.query, query) && OptionTakes(b.query, query);
      var fragment :| OptionTakes(a.fragment, fragment) && OptionTakes(b.fragment, fragment);
      var segments := PathsMeetInAUri(Flat(a.runs), Flat(b.runs));
      var uri := Uri(prefix, segments, query, fragment);
      assert UriTakes(a, uri) && UriTakes(b, uri);
    }
  }
}
