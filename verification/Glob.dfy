/** The glob engine's theory: what a pattern means, and why leftmost is never wrong.
  *
  * Both dialects are one language. A pattern is a sequence of tokens, each `Any`
  * (any run of elements) or `One(x)` (one element that `x` takes). In the names
  * dialect the elements are characters; in the path dialect they are segments.
  */
module Globs {
  import opened Wrappers

  datatype Tok<+P> = Any | One(pat: P)

  /** The meaning of a pattern: whether `p` takes `s` from `at` to its end.
    * `Any` takes nothing more, or one element and stays. */
  predicate Takes<P, S>(m: (P, S) -> bool, p: seq<Tok<P>>, s: seq<S>, at: nat)
    requires at <= |s|
    decreases |p| + |s| - at
  {
    if p == [] then at == |s|
    else match p[0]
      case Any => Takes(m, p[1..], s, at) || (at < |s| && Takes(m, p, s, at + 1))
      case One(x) => at < |s| && m(x, s[at]) && Takes(m, p[1..], s, at + 1)
  }

  function Ones<P>(run: seq<P>): (p: seq<Tok<P>>)
    ensures |p| == |run|
  {
    seq(|run|, i requires 0 <= i < |run| => One(run[i]))
  }

  /** Each run after the first, an `Any` before it. */
  function FlatRest<P>(runs: seq<seq<P>>): seq<Tok<P>> {
    if runs == [] then [] else [Any] + (Ones(runs[0]) + FlatRest(runs[1..]))
  }

  /** The runs as one pattern, an `Any` between each two. */
  function Flat<P>(runs: seq<seq<P>>): seq<Tok<P>> {
    if runs == [] then [] else Ones(runs[0]) + FlatRest(runs[1..])
  }

  // ----- What the two kinds of token take

  predicate RunAt<P, S>(m: (P, S) -> bool, run: seq<P>, s: seq<S>, at: nat) {
    at + |run| <= |s| && forall i :: 0 <= i < |run| ==> m(run[i], s[at + i])
  }

  lemma {:induction false} OnesTake<P, S>(m: (P, S) -> bool, run: seq<P>, rest: seq<Tok<P>>, s: seq<S>, at: nat)
    requires at <= |s|
    ensures Takes(m, Ones(run) + rest, s, at) <==> RunAt(m, run, s, at) && Takes(m, rest, s, at + |run|)
    decreases |run|
  {
    var p := Ones(run) + rest;
    if run == [] {
      assert p == rest;
    } else if at < |s| {
      assert p[1..] == Ones(run[1..]) + rest;
      OnesTake(m, run[1..], rest, s, at + 1);
      assert RunAt(m, run, s, at) <==> m(run[0], s[at]) && RunAt(m, run[1..], s, at + 1) by {
        if m(run[0], s[at]) && RunAt(m, run[1..], s, at + 1) {
          forall i | 0 <= i < |run| ensures m(run[i], s[at + i]) {
            if i > 0 { assert m(run[1..][i - 1], s[at + 1 + (i - 1)]); }
          }
        }
        if RunAt(m, run, s, at) {
          assert m(run[0], s[at + 0]);
          forall i | 0 <= i < |run| - 1 ensures m(run[1..][i], s[at + 1 + i]) {
            assert m(run[i + 1], s[at + (i + 1)]);
          }
        }
      }
    }
  }

  /** `Any` takes any run: what follows may be matched from any later place. */
  lemma {:induction false} AnyReaches<P, S>(m: (P, S) -> bool, rest: seq<Tok<P>>, s: seq<S>, at: nat, k: nat)
    requires at <= k <= |s| && Takes(m, rest, s, k)
    ensures Takes(m, [Any] + rest, s, at)
    decreases k - at
  {
    var p := [Any] + rest;
    assert p[0] == Any && p[1..] == rest;
    if at < k {
      AnyReaches(m, rest, s, at + 1, k);
    }
  }

  /** And it takes nothing else: what follows is matched from some later place. */
  lemma {:induction false} AnyStops<P, S>(m: (P, S) -> bool, rest: seq<Tok<P>>, s: seq<S>, at: nat) returns (k: nat)
    requires at <= |s| && Takes(m, [Any] + rest, s, at)
    ensures at <= k <= |s| && Takes(m, rest, s, k)
    decreases |s| - at
  {
    var p := [Any] + rest;
    assert p[0] == Any && p[1..] == rest;
    k := at;
    if !Takes(m, rest, s, at) {
      k := AnyStops(m, rest, s, at + 1);
    }
  }

  /** Matching from a position is matching the part from there. */
  lemma {:induction false} TakesFrom<P, S>(m: (P, S) -> bool, p: seq<Tok<P>>, s: seq<S>, at: nat, k: nat)
    requires at + k <= |s|
    ensures Takes(m, p, s, at + k) <==> Takes(m, p, s[at..], k)
    decreases |p| + |s| - k
  {
    if p != [] {
      TakesFrom(m, p[1..], s, at, k);
      if at + k < |s| {
        TakesFrom(m, p, s, at, k + 1);
        TakesFrom(m, p[1..], s, at, k + 1);
      }
    }
  }

  /** `Any` at the head of a pattern, by what it does to the first element. */
  lemma {:induction false} StepAny<P, S>(m: (P, S) -> bool, p: seq<Tok<P>>, i: nat, s: seq<S>)
    requires i < |p| && p[i] == Any
    ensures Takes(m, p[i..], s, 0) <==>
            Takes(m, p[i + 1..], s, 0) || (s != [] && Takes(m, p[i..], s[1..], 0))
  {
    assert p[i..][1..] == p[i + 1..] && p[i..][0] == Any;
    if s != [] { TakesFrom(m, p[i..], s, 1, 0); }
  }

  lemma {:induction false} StepOne<P, S>(m: (P, S) -> bool, p: seq<Tok<P>>, i: nat, s: seq<S>)
    requires i < |p| && p[i].One?
    ensures Takes(m, p[i..], s, 0) <==>
            s != [] && m(p[i].pat, s[0]) && Takes(m, p[i + 1..], s[1..], 0)
  {
    assert p[i..][1..] == p[i + 1..] && p[i..][0] == p[i];
    if s != [] { TakesFrom(m, p[i + 1..], s, 1, 0); }
  }

  /** A pattern at its end takes nothing more. */
  lemma {:induction false} StepEnd<P, S>(m: (P, S) -> bool, p: seq<Tok<P>>, s: seq<S>)
    ensures Takes(m, p[|p|..], s, 0) <==> s == []
  {
  }

  /** What a pattern took, it takes of elements each token takes as well. */
  lemma {:induction false} TakesAlike<P, S>(m: (P, S) -> bool, p: seq<Tok<P>>, s: seq<S>, s': seq<S>, at: nat)
    requires at <= |s| == |s'| && Takes(m, p, s, at)
    requires forall t, k :: t in p && t.One? && 0 <= k < |s| && m(t.pat, s[k]) ==> m(t.pat, s'[k])
    ensures Takes(m, p, s', at)
    decreases |p| + |s| - at
  {
    if p != [] {
      if p[0].Any? && !Takes(m, p[1..], s, at) {
        TakesAlike(m, p, s, s', at + 1);
      } else {
        assert p[0] in p;
        TakesAlike(m, p[1..], s, s', if p[0].Any? then at else at + 1);
      }
    }
  }

  // ----- The greedy matcher, as a specification

  /** The least place from which all of `run` fits below `until`. */
  function Leftmost<P, S>(m: (P, S) -> bool, run: seq<P>, s: seq<S>, from: nat, until: nat): (r: Option<nat>)
    requires until <= |s|
    ensures r.Some? ==> from <= r.value && r.value + |run| <= until && RunAt(m, run, s, r.value)
    ensures forall k :: from <= k && k + |run| <= until && RunAt(m, run, s, k) ==> r.Some? && r.value <= k
    decreases until - from
  {
    if from + |run| > until then None
    else if RunAt(m, run, s, from) then Some(from)
    else if from == until then None
    else Leftmost(m, run, s, from + 1, until)
  }

  /** The runs one after another, none looking back: each goes as far left as it can. */
  predicate Greedy<P, S>(m: (P, S) -> bool, runs: seq<seq<P>>, s: seq<S>, from: nat, until: nat)
    requires until <= |s|
  {
    if runs == [] then from <= until
    else match Leftmost(m, runs[0], s, from, until)
      case None => false
      case Some(k) => Greedy(m, runs[1..], s, k + |runs[0]|, until)
  }

  /** The `i`th run's turn. */
  lemma {:induction false} GreedyStep<P, S>(
      m: (P, S) -> bool, runs: seq<seq<P>>, i: nat, s: seq<S>, from: nat, until: nat)
    requires i < |runs| && until <= |s|
    ensures Greedy(m, runs[i..], s, from, until) <==>
            match Leftmost(m, runs[i], s, from, until)
            case None => false
            case Some(k) => Greedy(m, runs[i + 1..], s, k + |runs[i]|, until)
  {
    hide Leftmost;
    assert runs[i..][1..] == runs[i + 1..];
  }

  lemma {:induction false} GreedyEnds<P, S>(m: (P, S) -> bool, runs: seq<seq<P>>, s: seq<S>, from: nat, until: nat)
    requires until <= |s|
    ensures Greedy(m, runs[|runs|..], s, from, until) <==> from <= until
  {
  }

  lemma {:induction false} FlatRestCons<P>(middle: seq<seq<P>>, last: seq<P>)
    requires middle != []
    ensures FlatRest(middle + [last]) == [Any] + (Ones(middle[0]) + FlatRest(middle[1..] + [last]))
  {
    assert (middle + [last])[1..] == middle[1..] + [last];
  }

  /** Leftmost is never wrong: if what follows a `**` matches at all, taking each
    * middle run at its leftmost place succeeds. The exchange is in the
    * `AnyReaches` step: a place that works can be moved left to the first one,
    * since what follows the run starts with `Any`. */
  lemma {:induction false} LeftmostIsEnough<P, S>(
      m: (P, S) -> bool, middle: seq<seq<P>>, last: seq<P>, s: seq<S>, from: nat)
    requires from <= |s| && Takes(m, FlatRest(middle + [last]), s, from)
    ensures from + |last| <= |s| && RunAt(m, last, s, |s| - |last|)
    ensures Greedy(m, middle, s, from, |s| - |last|)
    decreases |middle|
  {
    if middle == [] {
      assert FlatRest([last]) == [Any] + (Ones(last) + []);
      var k := AnyStops(m, Ones(last) + [], s, from);
      OnesTake(m, last, [], s, k);
    } else {
      var rest := FlatRest(middle[1..] + [last]);
      FlatRestCons(middle, last);
      var k := AnyStops(m, Ones(middle[0]) + rest, s, from);
      OnesTake(m, middle[0], rest, s, k);
      LeftmostIsEnough(m, middle[1..], last, s, k + |middle[0]|);
      var first := Leftmost(m, middle[0], s, from, |s| - |last|).value;
      var after := Ones((middle[1..] + [last])[0]) + FlatRest((middle[1..] + [last])[1..]);
      assert rest == [Any] + after;
      var next := AnyStops(m, after, s, k + |middle[0]|);
      AnyReaches(m, after, s, first + |middle[0]|, next);
      LeftmostIsEnough(m, middle[1..], last, s, first + |middle[0]|);
    }
  }

  lemma {:induction false} GreedyIsSound<P, S>(
      m: (P, S) -> bool, middle: seq<seq<P>>, last: seq<P>, s: seq<S>, from: nat)
    requires |last| <= |s| && RunAt(m, last, s, |s| - |last|)
    requires Greedy(m, middle, s, from, |s| - |last|)
    ensures from <= |s| && Takes(m, FlatRest(middle + [last]), s, from)
    decreases |middle|
  {
    if middle == [] {
      assert FlatRest([last]) == [Any] + (Ones(last) + []);
      OnesTake(m, last, [], s, |s| - |last|);
      AnyReaches(m, Ones(last) + [], s, from, |s| - |last|);
    } else {
      var rest := FlatRest(middle[1..] + [last]);
      FlatRestCons(middle, last);
      var first := Leftmost(m, middle[0], s, from, |s| - |last|).value;
      GreedyIsSound(m, middle[1..], last, s, first + |middle[0]|);
      OnesTake(m, middle[0], rest, s, first);
      AnyReaches(m, Ones(middle[0]) + rest, s, from, first);
    }
  }

  /** The whole matcher's shape. Its first and last runs have their places given, at
    * the two ends and clear of each other; those between are taken greedily. */
  lemma {:induction false} AnchoredGreedyIsRight<P, S>(
      m: (P, S) -> bool, first: seq<P>, middle: seq<seq<P>>, last: seq<P>, s: seq<S>)
    ensures Takes(m, Flat([first] + (middle + [last])), s, 0) <==>
            && |first| + |last| <= |s|
            && RunAt(m, first, s, 0)
            && RunAt(m, last, s, |s| - |last|)
            && Greedy(m, middle, s, |first|, |s| - |last|)
  {
    var rest := FlatRest(middle + [last]);
    assert ([first] + (middle + [last]))[1..] == middle + [last];
    OnesTake(m, first, rest, s, 0);
    if |first| <= |s| && Takes(m, rest, s, |first|) {
      LeftmostIsEnough(m, middle, last, s, |first|);
    }
    if |first| + |last| <= |s| && RunAt(m, last, s, |s| - |last|) && Greedy(m, middle, s, |first|, |s| - |last|) {
      GreedyIsSound(m, middle, last, s, |first|);
    }
  }
}
