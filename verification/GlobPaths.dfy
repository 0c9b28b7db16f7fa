/** The path dialect and whole URI patterns: a segment that is `**` alone takes any
  * run of segments, and every other segment is matched by the names dialect. */
module GlobPaths {
  import opened Wrappers
  import opened Globs
  import opened GlobNames
  import opened GlobOverlap

  type Segment = string

  const DOUBLE_STAR: string := "**"

  /** What one segment of a pattern takes: itself a name pattern, but that no wildcard
    * in it takes the empty segment. */
  predicate SegTakes(pattern: Segment, segment: Segment) {
    if segment == "" then pattern == "" else Matches(pattern, segment)
  }

  function SegToks(pattern: seq<Segment>): (p: seq<Tok<Segment>>)
    ensures |p| == |pattern|
  {
    seq(|pattern|, i requires 0 <= i < |pattern| => if pattern[i] == "**" then Any else One(pattern[i]))
  }

  /** What a path pattern means: all of the segments are taken. */
  predicate PathMatches(pattern: seq<Segment>, segments: seq<Segment>) {
    Takes(SegTakes, SegToks(pattern), segments, 0)
  }

  // ----- Splitting a path pattern into runs

  lemma {:induction false} RestSnoc(runs: seq<seq<Segment>>, run: seq<Segment>, segment: Segment)
    ensures FlatRest(runs + [run + [segment]]) == FlatRest(runs + [run]) + [One(segment)]
    decreases |runs|
  {
    assert Ones(run + [segment]) == Ones(run) + [One(segment)];
    if runs == [] {
      assert FlatRest([run]) == [Any] + (Ones(run) + []);
      assert FlatRest([run + [segment]]) == [Any] + (Ones(run + [segment]) + []);
      assert runs + [run] == [run] && runs + [run + [segment]] == [run + [segment]];
    } else {
      RestSnoc(runs[1..], run, segment);
      FlatRestCons(runs, run);
      FlatRestCons(runs, run + [segment]);
    }
  }

  /** A segment pushed onto the last run follows the pattern so far. */
  lemma {:induction false} FlatSnoc(runs: seq<seq<Segment>>, run: seq<Segment>, segment: Segment)
    ensures Flat(runs + [run + [segment]]) == Flat(runs + [run]) + [One(segment)]
  {
    assert Ones(run + [segment]) == Ones(run) + [One(segment)];
    if runs == [] {
      assert (runs + [run])[1..] == [] && (runs + [run + [segment]])[1..] == [];
    } else {
      RestSnoc(runs[1..], run, segment);
      assert (runs + [run])[1..] == runs[1..] + [run];
      assert (runs + [run + [segment]])[1..] == runs[1..] + [run + [segment]];
    }
  }

  lemma {:induction false} RestNewRun(runs: seq<seq<Segment>>)
    ensures FlatRest(runs + [[]]) == FlatRest(runs) + [Any]
    decreases |runs|
  {
    if runs == [] {
      var none: seq<Segment> := [];
      assert FlatRest([none]) == [Any] + (Ones(none) + []);
      assert runs + [none] == [none];
    } else {
      RestNewRun(runs[1..]);
      assert (runs + [[]])[1..] == runs[1..] + [[]];
    }
  }

  /** A new run begins with a `**`. */
  lemma {:induction false} FlatNewRun(runs: seq<seq<Segment>>)
    requires runs != []
    ensures Flat(runs + [[]]) == Flat(runs) + [Any]
  {
    RestNewRun(runs[1..]);
    assert (runs + [[]])[1..] == runs[1..] + [[]];
  }

  lemma {:induction false} TokSnoc(segments: seq<Segment>, k: nat)
    requires k < |segments|
    ensures SegToks(segments[..k + 1]) ==
            SegToks(segments[..k]) + [if segments[k] == DOUBLE_STAR then Any else One(segments[k])]
  {
  }

  ghost predicate NoStars(run: seq<Segment>) { forall i :: 0 <= i < |run| ==> run[i] != "**" }

  lemma {:induction false} NoStarsSnoc(run: seq<Segment>, segment: Segment)
    requires NoStars(run) && segment != DOUBLE_STAR
    ensures NoStars(run + [segment])
  {
  }

  lemma {:induction false} FlatOfOneRun(segments: seq<Segment>)
    ensures Flat([[]]) == SegToks(segments[..0]) && NoStars([])
  {
    var none: seq<Segment> := [];
    assert [none][1..] == [];
    assert Flat([none]) == Ones(none) + FlatRest<Segment>([]);
  }

  /** Pattern segments split at each `**`; joined again, they are the pattern. */
  method Runs(segments: seq<Segment>) returns (runs: seq<seq<Segment>>)
    ensures runs != [] && Flat(runs) == SegToks(segments)
    ensures forall r :: 0 <= r < |runs| ==> NoStars(runs[r])
  {
    hide Flat, SegToks, NoStars;
    runs := [[]];
    FlatOfOneRun(segments);
    for k := 0 to |segments|
      invariant runs != [] && Flat(runs) == SegToks(segments[..k])
      invariant forall r :: 0 <= r < |runs| ==> NoStars(runs[r])
    {
      TokSnoc(segments, k);
      if segments[k] == DOUBLE_STAR {
        FlatNewRun(runs);
        runs := runs + [[]];
      } else {
        var last := |runs| - 1;
        FlatSnoc(runs[..last], runs[last], segments[k]);
        NoStarsSnoc(runs[last], segments[k]);
        assert runs == runs[..last] + [runs[last]];
        runs := runs[..last] + [runs[last] + [segments[k]]];
      }
    }
    assert segments[..|segments|] == segments;
  }

  // ----- The greedy path matcher

  method SegmentMatches(pattern: Segment, segment: Segment) returns (r: bool)
    ensures r <==> SegTakes(pattern, segment)
  {
    if segment == "" {
      return pattern == "";
    }
    r := Names(pattern, segment);
  }

  /** Compares `run` with as many segments from `start` on. */
  method RunMatchesAt(run: seq<Segment>, segments: seq<Segment>, start: nat) returns (r: bool)
    requires start + |run| <= |segments|
    ensures r <==> RunAt(SegTakes, run, segments, start)
  {
    for i := 0 to |run|
      invariant forall k :: 0 <= k < i ==> SegTakes(run[k], segments[start + k])
    {
      var one := SegmentMatches(run[i], segments[start + i]);
      if !one { return false; }
    }
    return true;
  }

  /** Tries `run` at each place in turn, as far as it fits below `until`. */
  method FindLeftmost(run: seq<Segment>, segments: seq<Segment>, from: nat, until: nat) returns (r: Option<nat>)
    requires from <= until <= |segments|
    ensures r == Leftmost(SegTakes, run, segments, from, until)
  {
    var start := from;
    while start + |run| <= until
      invariant from <= start <= until + 1
      invariant forall k :: from <= k < start && k + |run| <= until ==> !RunAt(SegTakes, run, segments, k)
    {
      var here := RunMatchesAt(run, segments, start);
      if here { return Some(start); }
      start := start + 1;
    }
    return None;
  }

  /** Matches a path against runs: checks the two ends, then goes through the runs
    * between them without ever going back. */
  method PathRunsMatch(runs: seq<seq<Segment>>, segments: seq<Segment>) returns (r: bool)
    ensures r <==> Takes(SegTakes, Flat(runs), segments, 0)
  {
    hide Takes, Flat, Leftmost, Greedy;
    if runs == [] {
      FlatOfNone(segments);
      return |segments| == 0;
    }
    var first := runs[0];
    if |runs| == 1 {
      FlatOfOne(runs, segments);
      if |first| != |segments| { return false; }
      r := RunMatchesAt(first, segments, 0);
      return;
    }
    var last, middle := runs[|runs| - 1], runs[1..|runs| - 1];
    assert runs == [first] + (middle + [last]);
    AnchoredGreedyIsRight(SegTakes, first, middle, last, segments);
    if |segments| < |first| + |last| { return false; }
    var atStart := RunMatchesAt(first, segments, 0);
    if !atStart { return false; }
    var tail := |segments| - |last|;
    var atEnd := RunMatchesAt(last, segments, tail);
    if !atEnd { return false; }
    var from := |first|;
    for i := 0 to |middle|
      invariant |first| <= from <= tail
      invariant Greedy(SegTakes, middle[i..], segments, from, tail) <==>
                Greedy(SegTakes, middle, segments, |first|, tail)
    {
      GreedyStep(SegTakes, middle, i, segments, from, tail);
      var found := FindLeftmost(middle[i], segments, from, tail);
      if found.None? { return false; }
      from := found.value + |middle[i]|;
    }
    GreedyEnds(SegTakes, middle, segments, from, tail);
    return true;
  }

  lemma {:induction false} FlatOfNone(segments: seq<Segment>)
    ensures Takes(SegTakes, Flat([]), segments, 0) <==> |segments| == 0
  {
  }

  lemma {:induction false} FlatOfOne(runs: seq<seq<Segment>>, segments: seq<Segment>)
    requires |runs| == 1
    ensures Takes(SegTakes, Flat(runs), segments, 0) <==>
            |runs[0]| == |segments| && RunAt(SegTakes, runs[0], segments, 0)
  {
    OnesTake(SegTakes, runs[0], [], segments, 0);
    assert FlatRest(runs[1..]) == [];
  }

  // ----- Segments both patterns could take

  ghost predicate SegmentsMeet(a: Segment, b: Segment) {
    exists x :: SegTakes(a, x) && SegTakes(b, x)
  }

  /** No segment pattern is void: it takes its own text. */
  lemma {:induction false} SegTakesItself(a: Segment)
    ensures SegTakes(a, a)
  {
    NameTakesItself(a, 0);
  }

  lemma {:induction false} NameTakesItself(a: string, i: nat)
    requires i <= |a|
    ensures Takes(CharTakes, Toks(a)[i..], a, i)
    decreases |a| - i
  {
    var p := Toks(a)[i..];
    if i < |a| {
      NameTakesItself(a, i + 1);
      assert p[1..] == Toks(a)[i + 1..];
      if p[0] == Any {
        AnyReaches(CharTakes, p[1..], a, i, i + 1);
        assert p == [Any] + p[1..];
      }
    }
  }

  method SegmentsOverlap(a: Segment, b: Segment) returns (r: bool)
    ensures r <==> SegmentsMeet(a, b)
  {
    if a == "" || b == "" {
      EmptyTakesEmpty(if a == "" then b else a);
      return a == "" && b == "";
    }
    r := PatternsOverlap(a, b, true);
    if r {
      var x :| Matches(a, x) && Matches(b, x) && x != "";
      assert SegTakes(a, x) && SegTakes(b, x);
    }
  }

  /** The empty pattern takes the empty segment and no other, which no other pattern takes. */
  lemma {:induction false} EmptyTakesEmpty(b: Segment)
    ensures SegmentsMeet("", b) <==> b == ""
    ensures SegmentsMeet(b, "") <==> b == ""
  {
    assert SegTakes("", "");
  }

  // ----- Paths both patterns could take

  type Path = seq<Tok<Segment>>

  ghost predicate PathCommon(p: Path, q: Path, i: nat, j: nat, s: seq<Segment>)
    requires i <= |p| && j <= |q|
  {
    Takes(SegTakes, p[i..], s, 0) && Takes(SegTakes, q[j..], s, 0)
  }

  ghost predicate PathsMeet(p: Path, q: Path) {
    exists s :: Takes(SegTakes, p, s, 0) && Takes(SegTakes, q, s, 0)
  }

  datatype Place = Place(i: nat, j: nat)

  ghost predicate PlaceIn(p: Path, q: Path, at: Place) { at.i <= |p| && at.j <= |q| }

  ghost function AllPlaces(p: Path, q: Path): set<Place> {
    set i, j | 0 <= i <= |p| && 0 <= j <= |q| :: Place(i, j)
  }

  ghost predicate PathAlive(p: Path, q: Path, at: Place) {
    PlaceIn(p, q, at) && exists s :: PathCommon(p, q, at.i, at.j, s)
  }

  /** What the search pushes from a place, in the order it pushes it. */
  ghost function PathNext(p: Path, q: Path, at: Place): (next: seq<Place>)
    requires PlaceIn(p, q, at)
    ensures forall n :: n in next ==> PlaceIn(p, q, n)
  {
    var a: Option<Tok<Segment>> := if at.i < |p| then Some(p[at.i]) else None;
    var b: Option<Tok<Segment>> := if at.j < |q| then Some(q[at.j]) else None;
    (if a == Some(Any) then [Place(at.i + 1, at.j)] else []) +
    (if b == Some(Any) then [Place(at.i, at.j + 1)] else []) +
    (if a.None? || b.None? || (a.value.Any? && b.value.Any?) then []
     else if a.value.Any? then [Place(at.i, at.j + 1)]
     else if b.value.Any? then [Place(at.i + 1, at.j)]
     else if SegmentsMeet(a.value.pat, b.value.pat) then [Place(at.i + 1, at.j + 1)]
     else [])
  }

  lemma {:induction false} PathAliveBackward(p: Path, q: Path, at: Place, n: Place)
    requires PlaceIn(p, q, at) && n in PathNext(p, q, at) && PathAlive(p, q, n)
    ensures PathAlive(p, q, at)
  {
    hide Takes;
    var s :| PathCommon(p, q, n.i, n.j, s);
    if at.i < |p| && p[at.i] == Any { StepAny(SegTakes, p, at.i, s); }
    if at.j < |q| && q[at.j] == Any { StepAny(SegTakes, q, at.j, s); }
    if PathCommon(p, q, at.i, at.j, s) {
      return;
    }
    var x: Segment;
    if p[at.i].One? && q[at.j].One? {
      x :| SegTakes(p[at.i].pat, x) && SegTakes(q[at.j].pat, x);
    } else {
      x := if p[at.i].One? then p[at.i].pat else q[at.j].pat;
      SegTakesItself(x);
    }
    var longer := [x] + s;
    assert longer[1..] == s;
    if p[at.i].One? { StepOne(SegTakes, p, at.i, longer); } else { StepAny(SegTakes, p, at.i, longer); }
    if q[at.j].One? { StepOne(SegTakes, q, at.j, longer); } else { StepAny(SegTakes, q, at.j, longer); }
    assert PathCommon(p, q, at.i, at.j, longer);
  }

  /** From a live place, either the search is done, or a next place is live on no
    * more segments, or this one is live on fewer: a segment two `**`s take is
    * dropped. */
  lemma {:induction false} PathStepForward(
      p: Path, q: Path, at: Place, s: seq<Segment>)
    returns (n: Place, rest: seq<Segment>)
    requires PlaceIn(p, q, at) && PathCommon(p, q, at.i, at.j, s)
    requires at != Place(|p|, |q|)
    ensures n == at || n in PathNext(p, q, at)
    ensures PlaceIn(p, q, n) && PathCommon(p, q, n.i, n.j, rest)
    ensures |rest| < |s| || (rest == s && |p| - n.i + |q| - n.j < |p| - at.i + |q| - at.j)
  {
    hide Takes;
    var anyP, anyQ := at.i < |p| && p[at.i] == Any, at.j < |q| && q[at.j] == Any;
    if anyP { StepAny(SegTakes, p, at.i, s); } else if at.i < |p| { StepOne(SegTakes, p, at.i, s); }
    if anyQ { StepAny(SegTakes, q, at.j, s); } else if at.j < |q| { StepOne(SegTakes, q, at.j, s); }
    if at.i == |p| { StepEnd(SegTakes, p, s); }
    if at.j == |q| { StepEnd(SegTakes, q, s); }
    if anyP && Takes(SegTakes, p[at.i + 1..], s, 0) {
      n, rest := Place(at.i + 1, at.j), s;
    } else if anyQ && Takes(SegTakes, q[at.j + 1..], s, 0) {
      n, rest := Place(at.i, at.j + 1), s;
    } else {
      n, rest := Place(if anyP then at.i else at.i + 1, if anyQ then at.j else at.j + 1), s[1..];
    }
  }

  ghost predicate PathClosed(p: Path, q: Path, seen: set<Place>) {
    forall at :: at in seen ==>
      && PlaceIn(p, q, at) && at != Place(|p|, |q|)
      && forall n :: n in PathNext(p, q, at) ==> n in seen
  }

  lemma {:induction false} PathClosedIsDead(p: Path, q: Path, seen: set<Place>, at: Place, s: seq<Segment>)
    requires PathClosed(p, q, seen) && at in seen
    requires PlaceIn(p, q, at) && PathCommon(p, q, at.i, at.j, s)
    ensures false
    decreases |s|, |p| - at.i + |q| - at.j
  {
    hide Takes, PathNext, PathCommon;
    var n, rest := PathStepForward(p, q, at, s);
    PathClosedIsDead(p, q, seen, n, rest);
  }

  ghost predicate PathTable(rows: nat, width: nat, table: array<bool>, seen: set<Place>)
    reads table
  {
    && table.Length == rows * width
    && forall i: nat, j: nat {:trigger Slot(width, i, j)} | i < rows && j < width ::
         Slot(width, i, j) < table.Length && (Place(i, j) in seen <==> table[Slot(width, i, j)])
  }

  /** Whether some path matches both. */
  method PathsOverlap(p: Path, q: Path) returns (r: bool)
    ensures r <==> PathsMeet(p, q)
  {
    hide Takes, PathNext;
    var rows, width := |p| + 1, |q| + 1;
    var table := new bool[rows * width](_ => false);
    var start := Place(0, 0);
    var todo := [start];
    ghost var seen: set<Place> := {};
    forall i: nat, j: nat {:trigger Slot(width, i, j)} | i < rows && j < width
      ensures Slot(width, i, j) < rows * width
    {
      SlotInTable(width, rows, i, j);
    }
    assert p[0..] == p && q[0..] == q;
    assert PathsMeet(p, q) <==> PathAlive(p, q, start) by {
      forall s ensures PathCommon(p, q, 0, 0, s) <==> Takes(SegTakes, p, s, 0) && Takes(SegTakes, q, s, 0) {}
    }
    while todo != []
      invariant PathTable(rows, width, table, seen)
      invariant start in seen || start in todo
      invariant seen <= AllPlaces(p, q)
      invariant forall at :: at in todo ==> PlaceIn(p, q, at)
      invariant forall at :: at in todo && PathAlive(p, q, at) ==> PathAlive(p, q, start)
      invariant forall at :: at in seen ==> PlaceIn(p, q, at) && at != Place(|p|, |q|)
      invariant forall at, n :: at in seen && n in PathNext(p, q, at) ==> n in seen || n in todo
      decreases AllPlaces(p, q) - seen, |todo|
    {
      var at := todo[|todo| - 1];
      ghost var before := todo;
      todo := todo[..|todo| - 1];
      assert before == todo + [at];
      assert PlaceIn(p, q, at) by { assert at in before; }
      SlotIsOwn(rows, width, State(at.i, at.j, false));
      if table[Slot(width, at.i, at.j)] {
        continue;
      }
      table[Slot(width, at.i, at.j)] := true;
      seen := seen + {at};
      if at.i == |p| && at.j == |q| {
        StepEnd(SegTakes, p, []);
        StepEnd(SegTakes, q, []);
        assert PathCommon(p, q, at.i, at.j, []);
        return true;
      }
      var next := Pushed(p, q, at);
      todo := todo + next;
      forall n | n in next && PathAlive(p, q, n) ensures PathAlive(p, q, start) {
        PathAliveBackward(p, q, at, n);
      }
    }
    if PathAlive(p, q, start) {
      var s :| PathCommon(p, q, 0, 0, s);
      PathClosedIsDead(p, q, seen, start, s);
    }
    return false;
  }

  /** The places one step of the search pushes. */
  method Pushed(p: Path, q: Path, at: Place) returns (next: seq<Place>)
    requires PlaceIn(p, q, at)
    ensures next == PathNext(p, q, at)
  {
    var a: Option<Tok<Segment>> := if at.i < |p| then Some(p[at.i]) else None;
    var b: Option<Tok<Segment>> := if at.j < |q| then Some(q[at.j]) else None;
    next := [];
    if a == Some(Any) { next := next + [Place(at.i + 1, at.j)]; }
    if b == Some(Any) { next := next + [Place(at.i, at.j + 1)]; }
    if a.Some? && b.Some? {
      match (a.value, b.value)
      case (Any, Any) =>
      case (Any, One(_)) => next := next + [Place(at.i, at.j + 1)];
      case (One(_), Any) => next := next + [Place(at.i + 1, at.j)];
      case (One(x), One(y)) =>
        var meet := SegmentsOverlap(x, y);
        if meet { next := next + [Place(at.i + 1, at.j + 1)]; }
    }
  }
}
