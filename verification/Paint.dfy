/** Overlapping rule spans painted into one cover: each place goes to the rule that is
  * tried first. */
module Painting {
  import opened Wrappers

  /** The rules; an earlier one is tried before a later. */
  datatype Rule =
    | PrivateKey | AwsAccessKey | SlackToken | GithubToken | StripeLiveKey | CustomSecret
    | IgnorePreviousInstructions | DisregardPreviousInstructions | ConcealFromUser | CustomInjection
  {
    /** A rule's place in `ALL`. */
    function Place(): (i: nat)
      ensures i < |ALL| && ALL[i] == this
    {
      match this
      case PrivateKey => 0
      case AwsAccessKey => 1
      case SlackToken => 2
      case GithubToken => 3
      case StripeLiveKey => 4
      case CustomSecret => 5
      case IgnorePreviousInstructions => 6
      case DisregardPreviousInstructions => 7
      case ConcealFromUser => 8
      case CustomInjection => 9
    }
  }

  const ALL: seq<Rule> :=
    [PrivateKey, AwsAccessKey, SlackToken, GithubToken, StripeLiveKey, CustomSecret,
     IgnorePreviousInstructions, DisregardPreviousInstructions, ConcealFromUser, CustomInjection]

  /** A stretch of text under a rule: a span a rule found, or a match painted. */
  datatype Stretch = Stretch(rule: Rule, start: nat, end: nat)

  predicate Holds(s: Stretch, rule: Rule, x: nat) { s.rule == rule && s.start <= x < s.end }

  /** Some stretch gives `x` to `rule`. */
  ghost predicate Covers(ss: seq<Stretch>, rule: Rule, x: nat) {
    exists i :: 0 <= i < |ss| && Holds(ss[i], rule, x)
  }

  /** Of the rules with a span that holds `x`, `rule` is tried first. */
  ghost predicate Earliest(spans: seq<Stretch>, rule: Rule, x: nat) {
    && Covers(spans, rule, x)
    && forall other: Rule :: other.Place() < rule.Place() ==> !Covers(spans, other, x)
  }

  /** Sorted, never empty, never overlapping, and none touching the next of its rule. */
  ghost predicate Tidy(painted: seq<Stretch>) {
    && (forall i :: 0 <= i < |painted| ==> painted[i].start < painted[i].end)
    && (forall i :: 0 <= i < |painted| - 1 ==>
          && painted[i].end <= painted[i + 1].start
          && (painted[i].end == painted[i + 1].start ==> painted[i].rule != painted[i + 1].rule))
  }

  // ----- The edges of the spans

  datatype Edge = Edge(at: nat, opens: bool, rule: Rule)

  /** By place, opening before closing at one. */
  predicate NotAfter(a: Edge, b: Edge) { a.at < b.at || (a.at == b.at && (a.opens || !b.opens)) }

  predicate InOrder(es: seq<Edge>) { forall i, j :: 0 <= i < j < |es| ==> NotAfter(es[i], es[j]) }

  function Step(e: Edge, rule: Rule): int { if e.rule != rule then 0 else if e.opens then 1 else -1 }

  /** Opened less closed, over all of the edges. */
  function Net(es: seq<Edge>, rule: Rule): int {
    if es == [] then 0 else Net(es[..|es| - 1], rule) + Step(es[|es| - 1], rule)
  }

  /** Opened less closed, over those at or before `x`. */
  function NetUpTo(es: seq<Edge>, rule: Rule, x: nat): int {
    if es == [] then 0
    else NetUpTo(es[..|es| - 1], rule, x) + (if es[|es| - 1].at <= x then Step(es[|es| - 1], rule) else 0)
  }

  function EdgesOf(spans: seq<Stretch>): seq<Edge> {
    if spans == [] then []
    else
      var s := spans[|spans| - 1];
      EdgesOf(spans[..|spans| - 1]) + [Edge(s.start, true, s.rule), Edge(s.end, false, s.rule)]
  }

  /** How many spans of the rule hold `x`. */
  function Holding(spans: seq<Stretch>, rule: Rule, x: nat): (n: nat)
    ensures n > 0 <==> Covers(spans, rule, x)
  {
    if spans == [] then 0
    else
      var n := Holding(spans[..|spans| - 1], rule, x) + (if Holds(spans[|spans| - 1], rule, x) then 1 else 0);
      assert spans == spans[..|spans| - 1] + [spans[|spans| - 1]];
      n
  }

  lemma {:induction false} NetIsHolding(spans: seq<Stretch>, rule: Rule, x: nat)
    requires forall i :: 0 <= i < |spans| ==> spans[i].start <= spans[i].end
    ensures NetUpTo(EdgesOf(spans), rule, x) == Holding(spans, rule, x)
  {
    if spans != [] {
      hide NetUpTo;
      var n := |spans| - 1;
      var s := spans[n];
      NetIsHolding(spans[..n], rule, x);
      NetOfTwo(EdgesOf(spans[..n]), Edge(s.start, true, s.rule), Edge(s.end, false, s.rule), rule, x);
    } else {
      assert NetUpTo([], rule, x) == 0;
    }
  }

  lemma {:induction false} NetOfTwo(es: seq<Edge>, a: Edge, b: Edge, rule: Rule, x: nat)
    ensures NetUpTo(es + [a, b], rule, x) ==
            NetUpTo(es, rule, x) + (if a.at <= x then Step(a, rule) else 0) + (if b.at <= x then Step(b, rule) else 0)
  {
    hide Step;
    assert (es + [a, b])[..|es| + 1] == es + [a];
    assert (es + [a])[..|es|] == es;
  }

  // ----- Sorting them

  function InsertEdge(e: Edge, es: seq<Edge>): (r: seq<Edge>)
    requires InOrder(es)
    ensures InOrder(r) && |r| == |es| + 1 && forall x :: x in r <==> x == e || x in es
  {
    if es == [] then [e]
    else
      var last := |es| - 1;
      if NotAfter(es[last], e) then
        assert forall x :: x in es + [e] <==> x == e || x in es;
        es + [e]
      else
        var r := InsertEdge(e, es[..last]);
        assert forall x :: x in es <==> x in es[..last] || x == es[last] by {
          assert es == es[..last] + [es[last]];
        }
        assert forall i :: 0 <= i < |r| ==> NotAfter(r[i], es[last]) by {
          forall i | 0 <= i < |r| ensures NotAfter(r[i], es[last]) { assert r[i] in r; }
        }
        r + [es[last]]
  }

  function SortedEdges(es: seq<Edge>): (r: seq<Edge>)
    ensures InOrder(r) && |r| == |es| && forall x :: x in r <==> x in es
  {
    if es == [] then []
    else
      assert es == es[..|es| - 1] + [es[|es| - 1]];
      InsertEdge(es[|es| - 1], SortedEdges(es[..|es| - 1]))
  }

  lemma {:induction false} InsertKeepsNet(e: Edge, es: seq<Edge>, rule: Rule, x: nat)
    requires InOrder(es)
    ensures NetUpTo(InsertEdge(e, es), rule, x) == NetUpTo(es, rule, x) + (if e.at <= x then Step(e, rule) else 0)
  {
    hide Step;
    if es != [] {
      var last := |es| - 1;
      if NotAfter(es[last], e) {
        assert (es + [e])[..|es|] == es;
      } else {
        InsertKeepsNet(e, es[..last], rule, x);
        var r := InsertEdge(e, es[..last]);
        assert (r + [es[last]])[..|r|] == r;
      }
    } else {
      assert [e][..0] == [];
    }
  }

  lemma {:induction false} SortKeepsNet(es: seq<Edge>, rule: Rule, x: nat)
    ensures NetUpTo(SortedEdges(es), rule, x) == NetUpTo(es, rule, x)
  {
    if es != [] {
      SortKeepsNet(es[..|es| - 1], rule, x);
      InsertKeepsNet(es[|es| - 1], SortedEdges(es[..|es| - 1]), rule, x);
    }
  }

  // ----- What the counts say, part of the way through

  /** Between two edges, the count so far is the number of spans open there. */
  lemma {:induction false} NetSoFar(es: seq<Edge>, k: nat, rule: Rule, x: nat)
    requires InOrder(es) && k <= |es|
    requires forall i :: 0 <= i < k ==> es[i].at <= x
    requires k < |es| ==> x < es[k].at
    ensures NetUpTo(es, rule, x) == Net(es[..k], rule)
    decreases |es|
  {
    if es != [] {
      var last := |es| - 1;
      if k == |es| {
        assert es[..k] == es;
        assert es[..k][..last] == es[..last];
        NetSoFar(es[..last], last, rule, x);
        assert es[..last][..last] == es[..last];
      } else {
        assert k < last ==> NotAfter(es[k], es[last]);
        NetSoFar(es[..last], k, rule, x);
        assert es[..last][..k] == es[..k];
      }
    }
  }

  /** Once an edge that closes has been counted, what is still to come at its
    * place only closes: so no count has gone below the number open there. */
  lemma {:induction false} ClosingIsLast(es: seq<Edge>, k: nat, rule: Rule)
    requires InOrder(es) && 0 < k <= |es| && !es[k - 1].opens
    ensures Net(es[..k], rule) >= NetUpTo(es, rule, es[k - 1].at)
    decreases |es|
  {
    var last := |es| - 1;
    var x := es[k - 1].at;
    if k == |es| {
      forall i | 0 <= i < k ensures es[i].at <= x {
        if i < k - 1 { assert NotAfter(es[i], es[k - 1]); }
      }
      NetSoFar(es, k, rule, x);
    } else {
      assert NotAfter(es[k - 1], es[last]);
      ClosingIsLast(es[..last], k, rule);
      assert es[..last][..k] == es[..k];
    }
  }

  // ----- Painting

  /** The cover is right below `bound`, and goes no further. */
  ghost predicate RightBelow(spans: seq<Stretch>, painted: seq<Stretch>, bound: nat) {
    && (forall i :: 0 <= i < |painted| ==> painted[i].end <= bound)
    && (forall x: nat, rule :: x < bound ==> (Covers(painted, rule, x) <==> Earliest(spans, rule, x)))
  }

  /** The cover with the places from `at` to `next` given to `first`, if any. */
  function Extended(painted: seq<Stretch>, first: Option<Rule>, at: nat, next: nat): seq<Stretch> {
    if first.None? then painted
    else if painted != [] && painted[|painted| - 1].rule == first.value && painted[|painted| - 1].end == at then
      painted[..|painted| - 1] + [painted[|painted| - 1].(end := next)]
    else painted + [Stretch(first.value, at, next)]
  }

  lemma {:induction false} ExtendedKeeps(
      painted: seq<Stretch>, first: Option<Rule>, at: nat, next: nat, rule: Rule, x: nat)
    requires Tidy(painted) && at < next
    ensures Covers(painted, rule, x) ==> Covers(Extended(painted, first, at, next), rule, x)
    ensures first == Some(rule) && at <= x < next ==> Covers(Extended(painted, first, at, next), rule, x)
  {
    var after := Extended(painted, first, at, next);
    if i :| 0 <= i < |painted| && Holds(painted[i], rule, x) {
      assert Holds(after[i], rule, x);
    }
    if first == Some(rule) && at <= x < next {
      assert Holds(after[|after| - 1], rule, x);
    }
  }

  lemma {:induction false} ExtendedAddsOnly(
      painted: seq<Stretch>, first: Option<Rule>, at: nat, next: nat, rule: Rule, x: nat)
    requires Tidy(painted) && at < next
    requires Covers(Extended(painted, first, at, next), rule, x) && !(first == Some(rule) && at <= x < next)
    ensures Covers(painted, rule, x)
  {
    hide Tidy;
    var after := Extended(painted, first, at, next);
    var i :| 0 <= i < |after| && Holds(after[i], rule, x);
    assert i < |painted| && Holds(painted[i], rule, x);
  }

  lemma {:induction false} ExtendedIsTidy(painted: seq<Stretch>, first: Option<Rule>, at: nat, next: nat)
    requires Tidy(painted) && at < next && forall i :: 0 <= i < |painted| ==> painted[i].end <= at
    ensures var after := Extended(painted, first, at, next);
            Tidy(after) && forall i :: 0 <= i < |after| ==> after[i].end <= next
  {
    if first.Some? {
      var last := |painted| - 1;
      if painted != [] && painted[last].rule == first.value && painted[last].end == at {
        LastIsLonger(painted, at, next);
      } else {
        OneIsAdded(painted, first.value, at, next);
      }
    }
  }

  lemma {:induction false} LastIsLonger(painted: seq<Stretch>, at: nat, next: nat)
    requires Tidy(painted) && painted != [] && painted[|painted| - 1].end == at < next
    requires forall i :: 0 <= i < |painted| ==> painted[i].end <= at
    ensures var last := |painted| - 1;
            var after := painted[..last] + [painted[last].(end := next)];
            Tidy(after) && forall i :: 0 <= i < |after| ==> after[i].end <= next
  {
  }

  lemma {:induction false} OneIsAdded(painted: seq<Stretch>, rule: Rule, at: nat, next: nat)
    requires Tidy(painted) && at < next && forall i :: 0 <= i < |painted| ==> painted[i].end <= at
    requires painted != [] && painted[|painted| - 1].end == at ==> painted[|painted| - 1].rule != rule
    ensures var after := painted + [Stretch(rule, at, next)];
            Tidy(after) && forall i :: 0 <= i < |after| ==> after[i].end <= next
  {
  }

  lemma {:induction false} ExtendedIsRight(
      spans: seq<Stretch>, painted: seq<Stretch>, first: Option<Rule>, at: nat, next: nat)
    requires Tidy(painted) && RightBelow(spans, painted, at) && at < next
    requires forall x: nat, rule :: at <= x < next ==> (Earliest(spans, rule, x) <==> first == Some(rule))
    ensures Tidy(Extended(painted, first, at, next)) && RightBelow(spans, Extended(painted, first, at, next), next)
  {
    hide Earliest, Covers, Extended, Tidy;
    var after := Extended(painted, first, at, next);
    ExtendedIsTidy(painted, first, at, next);
    forall x: nat, rule | x < next ensures Covers(after, rule, x) <==> Earliest(spans, rule, x) {
      ExtendedKeeps(painted, first, at, next, rule, x);
      if Covers(after, rule, x) && !(first == Some(rule) && at <= x < next) {
        ExtendedAddsOnly(painted, first, at, next, rule, x);
      }
      if at <= x { NotPast(painted, at, rule, x); }
    }
  }

  lemma {:induction false} NotPast(painted: seq<Stretch>, at: nat, rule: Rule, x: nat)
    requires (forall i :: 0 <= i < |painted| ==> painted[i].end <= at) && at <= x
    ensures !Covers(painted, rule, x)
  {
  }

  /** The first rule with a span open. */
  method FirstOpen(open: array<nat>) returns (first: Option<Rule>)
    requires open.Length == |ALL|
    ensures forall rule: Rule :: first == Some(rule) <==>
              open[rule.Place()] > 0 && forall other: Rule :: other.Place() < rule.Place() ==> open[other.Place()] == 0
  {
    for i := 0 to |ALL|
      invariant forall j :: 0 <= j < i ==> open[j] == 0
    {
      if open[i] > 0 {
        assert ALL[i].Place() == i;
        return Some(ALL[i]);
      }
    }
    return None;
  }

  ghost predicate Counts(open: seq<int>, es: seq<Edge>) {
    |open| == |ALL| && forall rule: Rule :: open[rule.Place()] == Net(es, rule)
  }

  lemma {:induction false} CountOne(open: seq<int>, es: seq<Edge>, k: nat)
    requires k < |es| && Counts(open, es[..k])
    ensures Counts(open[es[k].rule.Place() := open[es[k].rule.Place()] + (if es[k].opens then 1 else -1)], es[..k + 1])
  {
    assert es[..k + 1][..k] == es[..k] && es[..k + 1][k] == es[k];
  }

  /** Between two edges, the rule to paint is the first with a span open. */
  lemma {:induction false} OpenIsEarliest(spans: seq<Stretch>, es: seq<Edge>, k: nat, x: nat, rule: Rule)
    requires forall i :: 0 <= i < |spans| ==> spans[i].start <= spans[i].end
    requires es == SortedEdges(EdgesOf(spans)) && k <= |es|
    requires forall i :: 0 <= i < k ==> es[i].at <= x
    requires k < |es| ==> x < es[k].at
    ensures Net(es[..k], rule) > 0 <==> Covers(spans, rule, x)
    ensures Net(es[..k], rule) >= 0
  {
    hide Net, NetUpTo, EdgesOf, Holding, SortedEdges;
    NetSoFar(es, k, rule, x);
    SortKeepsNet(EdgesOf(spans), rule, x);
    NetIsHolding(spans, rule, x);
  }

  /** No count goes below zero. */
  lemma {:induction false} NeverNegative(spans: seq<Stretch>, es: seq<Edge>, k: nat)
    requires forall i :: 0 <= i < |spans| ==> spans[i].start <= spans[i].end
    requires es == SortedEdges(EdgesOf(spans)) && 0 < k <= |es| && !es[k - 1].opens
    ensures Net(es[..k], es[k - 1].rule) >= 0
  {
    hide Net, NetUpTo, EdgesOf, Holding, SortedEdges;
    var rule, x := es[k - 1].rule, es[k - 1].at;
    ClosingIsLast(es, k, rule);
    SortKeepsNet(EdgesOf(spans), rule, x);
    NetIsHolding(spans, rule, x);
  }

  lemma {:induction false} Passed(es: seq<Edge>, k: nat)
    requires InOrder(es) && 0 < k <= |es|
    ensures forall i :: 0 <= i < k ==> es[i].at <= es[k - 1].at
    ensures k < |es| ==> es[k - 1].at <= es[k].at
  {
    forall i | 0 <= i < k ensures es[i].at <= es[k - 1].at {
      if i < k - 1 { assert NotAfter(es[i], es[k - 1]); }
    }
    if k < |es| { assert NotAfter(es[k - 1], es[k]); }
  }

  lemma {:induction false} NothingBefore(spans: seq<Stretch>, es: seq<Edge>)
    requires forall i :: 0 <= i < |spans| ==> spans[i].start <= spans[i].end
    requires es == SortedEdges(EdgesOf(spans)) && es != []
    ensures RightBelow(spans, [], es[0].at)
  {
    hide SortedEdges, EdgesOf;
    forall x: nat, rule | x < es[0].at ensures !Covers(spans, rule, x) {
      OpenIsEarliest(spans, es, 0, x, rule);
      assert es[..0] == [];
    }
  }

  /** Past the last edge, no span holds anything. */
  lemma {:induction false} NothingAfter(spans: seq<Stretch>, es: seq<Edge>, x: nat, rule: Rule)
    requires forall i :: 0 <= i < |spans| ==> spans[i].start <= spans[i].end
    requires es == SortedEdges(EdgesOf(spans)) && forall i :: 0 <= i < |es| ==> es[i].at <= x
    ensures !Covers(spans, rule, x)
  {
    hide SortedEdges, EdgesOf;
    forall i | 0 <= i < |spans| ensures !Holds(spans[i], rule, x) {
      EdgeOf(spans, i);
      var k :| 0 <= k < |es| && es[k] == Edge(spans[i].end, false, spans[i].rule);
      assert es[k].at <= x;
    }
  }

  lemma {:induction false} EdgeOf(spans: seq<Stretch>, i: nat)
    requires i < |spans|
    ensures Edge(spans[i].end, false, spans[i].rule) in EdgesOf(spans)
  {
    if i < |spans| - 1 { EdgeOf(spans[..|spans| - 1], i); }
  }

  /** Each rule's spans, tagged with their rule. */
  method Paint(spans: seq<Stretch>) returns (painted: seq<Stretch>)
    requires forall i :: 0 <= i < |spans| ==> spans[i].start <= spans[i].end
    ensures Tidy(painted)
    ensures forall x: nat, rule :: Covers(painted, rule, x) <==> Earliest(spans, rule, x)
  {
    hide SortedEdges, EdgesOf, Net, Earliest, Covers, Extended, RightBelow, Tidy;
    var edges := SortedEdges(EdgesOf(spans));
    var open := new nat[|ALL|](_ => 0);
    painted := [];
    NothingIsTidy();
    if edges == [] {
      NoSpans(spans, edges);
      return;
    }
    var k := 0;
    ghost var bound: nat := edges[0].at;
    NothingBefore(spans, edges);
    CountsNone(edges);
    assert open[..] == seq(|ALL|, _ => 0);
    while k < |edges|
      invariant k <= |edges| && Counts(open[..], edges[..k])
      invariant Tidy(painted) && RightBelow(spans, painted, bound)
      invariant bound == edges[if k < |edges| then k else |edges| - 1].at
    {
      var edge := edges[k];
      CountOne(open[..], edges, k);
      k := k + 1;
      if edge.opens {
        open[edge.rule.Place()] := open[edge.rule.Place()] + 1;
      } else {
        NeverNegative(spans, edges, k);
        assert edges[..k][k - 1] == edge;
        open[edge.rule.Place()] := open[edge.rule.Place()] - 1;
      }
      Passed(edges, k);
      if k == |edges| {
        break;
      }
      var next := edges[k].at;
      if next == edge.at {
        continue;
      }
      var first := FirstOpen(open);
      PaintBetween(spans, edges, k, painted, open[..], first);
      ExtendedIs(painted, first, edge.at, next);
      bound := next;
      if first.None? {
        continue;
      }
      var last := |painted| - 1;
      if painted != [] && painted[last].rule == first.value && painted[last].end == edge.at {
        painted := painted[..last] + [painted[last].(end := next)];
      } else {
        painted := painted + [Stretch(first.value, edge.at, next)];
      }
    }
    RightThroughout(spans, edges, painted);
  }

  lemma {:induction false} RightThroughout(spans: seq<Stretch>, es: seq<Edge>, painted: seq<Stretch>)
    requires forall i :: 0 <= i < |spans| ==> spans[i].start <= spans[i].end
    requires es == SortedEdges(EdgesOf(spans)) && es != [] && RightBelow(spans, painted, es[|es| - 1].at)
    ensures forall x: nat, rule :: Covers(painted, rule, x) <==> Earliest(spans, rule, x)
  {
    hide SortedEdges, EdgesOf, Earliest, Covers;
    var bound := es[|es| - 1].at;
    forall x: nat, rule ensures Covers(painted, rule, x) <==> Earliest(spans, rule, x) {
      if bound <= x {
        Passed(es, |es|);
        NothingAfter(spans, es, x, rule);
        NotPast(painted, bound, rule, x);
        EarliestCovers(spans, rule, x);
      }
    }
  }

  lemma {:induction false} EarliestCovers(spans: seq<Stretch>, rule: Rule, x: nat)
    ensures Earliest(spans, rule, x) ==> Covers(spans, rule, x)
  {
  }

  /** Between the edges before `k` and the one at it, the cover may be extended. */
  lemma {:induction false} PaintBetween(
      spans: seq<Stretch>, es: seq<Edge>, k: nat, painted: seq<Stretch>, open: seq<nat>, first: Option<Rule>)
    requires forall i :: 0 <= i < |spans| ==> spans[i].start <= spans[i].end
    requires es == SortedEdges(EdgesOf(spans)) && 0 < k < |es| && es[k - 1].at < es[k].at
    requires Counts(open, es[..k]) && Tidy(painted) && RightBelow(spans, painted, es[k - 1].at)
    requires forall rule: Rule :: first == Some(rule) <==>
               open[rule.Place()] > 0 && forall other: Rule :: other.Place() < rule.Place() ==> open[other.Place()] == 0
    ensures var after := Extended(painted, first, es[k - 1].at, es[k].at);
            Tidy(after) && RightBelow(spans, after, es[k].at)
  {
    hide SortedEdges, EdgesOf, Earliest, RightBelow, Extended, Tidy, Net;
    var at, next := es[k - 1].at, es[k].at;
    forall x: nat, rule | at <= x < next ensures Earliest(spans, rule, x) <==> first == Some(rule) {
      FirstIsEarliest(spans, es, k, x, rule, open, first);
    }
    ExtendedIsRight(spans, painted, first, at, next);
  }

  lemma {:induction false} ExtendedIs(painted: seq<Stretch>, first: Option<Rule>, at: nat, next: nat)
    ensures var last := |painted| - 1;
            Extended(painted, first, at, next) ==
            if first.None? then painted
            else if painted != [] && painted[last].rule == first.value && painted[last].end == at then
              painted[..last] + [painted[last].(end := next)]
            else painted + [Stretch(first.value, at, next)]
  {
  }

  lemma {:induction false} NothingIsTidy()
    ensures Tidy([])
  {
  }

  lemma {:induction false} CountsNone(es: seq<Edge>)
    ensures Counts(seq(|ALL|, _ => 0), es[..0])
  {
  }

  lemma {:induction false} NoSpans(spans: seq<Stretch>, es: seq<Edge>)
    requires es == SortedEdges(EdgesOf(spans)) && es == []
    ensures forall x: nat, rule :: !Covers(spans, rule, x) && !Earliest(spans, rule, x) && !Covers([], rule, x)
  {
    assert spans == [];
  }

  lemma {:induction false} FirstIsEarliest(
      spans: seq<Stretch>, es: seq<Edge>, k: nat, x: nat, rule: Rule, open: seq<nat>, first: Option<Rule>)
    requires forall i :: 0 <= i < |spans| ==> spans[i].start <= spans[i].end
    requires es == SortedEdges(EdgesOf(spans)) && 0 < k < |es| && es[k - 1].at <= x < es[k].at
    requires Counts(open, es[..k])
    requires first == Some(rule) <==>
             open[rule.Place()] > 0 && forall other: Rule :: other.Place() < rule.Place() ==> open[other.Place()] == 0
    ensures Earliest(spans, rule, x) <==> first == Some(rule)
  {
    hide Net, SortedEdges, EdgesOf, Covers;
    Passed(es, k);
    forall other: Rule ensures open[other.Place()] > 0 <==> Covers(spans, other, x) {
      OpenIsEarliest(spans, es, k, x, other);
    }
  }
}
