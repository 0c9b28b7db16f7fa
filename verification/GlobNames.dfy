/** The names dialect: `*` takes any run of characters, every other character itself. */
module GlobNames {
  import opened Wrappers
  import opened Text
  import opened Globs

  const STAR: char := '*'

  function CharTakes(pattern: char, c: char): bool { pattern == c }

  function Toks(pattern: string): (p: seq<Tok<char>>)
    ensures |p| == |pattern|
  {
    seq(|pattern|, i requires 0 <= i < |pattern| => if pattern[i] == '*' then Any else One(pattern[i]))
  }

  /** What a pattern means: the whole of `name` is taken. */
  predicate Matches(pattern: string, name: string) { Takes(CharTakes, Toks(pattern), name, 0) }

  // ----- The string operations the matcher is written with

  function NonEmpty(pieces: seq<string>): seq<string> {
    if pieces == [] then []
    else (if pieces[0] == [] then [] else [pieces[0]]) + NonEmpty(pieces[1..])
  }

  /** `first` starts `name`, and `last` ends what follows it. */
  predicate Anchored(name: string, first: string, last: string) {
    first <= name && EndsWith(name[|first|..], last)
  }

  /** Where `piece` first stands in `s`. */
  function Find(s: string, piece: string): (r: Option<nat>)
    ensures r == Leftmost(CharTakes, piece, s, 0, |s|)
  {
    assert forall at: nat | at + |piece| <= |s| :: OccursAt(s, piece, at) <==> RunAt(CharTakes, piece, s, at) by {
      forall at: nat | at + |piece| <= |s| ensures OccursAt(s, piece, at) <==> RunAt(CharTakes, piece, s, at) {
        PieceAt(piece, s, at);
      }
    }
    FindFrom(s, piece, 0)
  }

  lemma {:induction false} PieceAt(piece: string, s: string, at: nat)
    requires at + |piece| <= |s|
    ensures s[at..at + |piece|] == piece <==> RunAt(CharTakes, piece, s, at)
  {
    if s[at..at + |piece|] == piece {
      forall i | 0 <= i < |piece| ensures CharTakes(piece[i], s[at + i]) {
        assert s[at..at + |piece|][i] == piece[i];
      }
    }
    if RunAt(CharTakes, piece, s, at) {
      forall i | 0 <= i < |piece| ensures s[at..at + |piece|][i] == piece[i] {
        assert CharTakes(piece[i], s[at + i]);
      }
    }
  }

  // ----- The pieces are the pattern

  lemma {:induction false} StarToks(s: string)
    ensures Toks([STAR] + s) == [Any] + Toks(s)
  {
  }

  lemma {:induction false} LiteralToks(literal: string, s: string)
    requires STAR !in literal
    ensures Toks(literal + s) == Ones(literal) + Toks(s)
  {
  }

  lemma {:induction false} SplitIsFlat(middle: string, last: string)
    requires STAR !in last
    ensures FlatRest(Split(middle, STAR) + [last]) == [Any] + Toks(middle + ([STAR] + last))
    decreases |middle|
  {
    hide FlatRest, Toks, Ones;
    var i := IndexOf(middle, STAR);
    var pieces := Split(middle, STAR);
    FlatRestCons(pieces, last);
    if i == |middle| {
      assert middle[..i] == middle && pieces[1..] + [last] == [last];
      LastIsFlat(last);
      LiteralToks(middle, [STAR] + last);
    } else {
      var after := middle[i + 1..];
      SplitIsFlat(after, last);
      assert pieces[1..] == Split(after, STAR) && pieces[0] == middle[..i];
      var tail := after + ([STAR] + last);
      ApartAtStar(middle, i, last);
      LiteralToks(middle[..i], [STAR] + tail);
      StarToks(tail);
    }
  }

  lemma {:induction false} ApartAtStar(middle: string, i: nat, last: string)
    requires i < |middle| && middle[i] == STAR
    ensures middle + ([STAR] + last) == middle[..i] + ([STAR] + (middle[i + 1..] + ([STAR] + last)))
  {
  }

  lemma {:induction false} LastIsFlat(last: string)
    requires STAR !in last
    ensures FlatRest([last]) == Toks([STAR] + last) == [Any] + Toks(last)
  {
    LiteralToks(last, []);
    StarToks(last);
    assert last + [] == last;
    assert FlatRest([last]) == [Any] + (Ones(last) + []);
  }

  /** What `Names` splits `pattern` into, joined again. */
  lemma {:induction false} PiecesAreThePattern(
      pattern: string, first: string, afterFirst: string, middle: seq<string>, last: string, name: string)
    requires pattern == first + ([STAR] + afterFirst) && STAR !in first
    requires FlatRest(middle + [last]) == [Any] + Toks(afterFirst)
    ensures Matches(pattern, name) <==> Takes(CharTakes, Flat([first] + (middle + [last])), name, 0)
  {
    LiteralToks(first, [STAR] + afterFirst);
    StarToks(afterFirst);
    assert ([first] + (middle + [last]))[1..] == middle + [last];
  }

  /** An empty piece is always taken where the search stands. */
  lemma {:induction false} EmptyPiecesAreFree(pieces: seq<string>, s: string, from: nat, until: nat)
    requires from <= until <= |s|
    ensures Greedy(CharTakes, NonEmpty(pieces), s, from, until) <==> Greedy(CharTakes, pieces, s, from, until)
    decreases |pieces|
  {
    hide RunAt;
    if pieces != [] {
      if pieces[0] == [] {
        NothingStands(s, from, until);
        assert NonEmpty(pieces) == NonEmpty(pieces[1..]);
        EmptyPiecesAreFree(pieces[1..], s, from, until);
      } else {
        assert NonEmpty(pieces) == [pieces[0]] + NonEmpty(pieces[1..]);
        assert NonEmpty(pieces)[1..] == NonEmpty(pieces[1..]);
        if Leftmost(CharTakes, pieces[0], s, from, until).Some? {
          EmptyPiecesAreFree(pieces[1..], s, Leftmost(CharTakes, pieces[0], s, from, until).value + |pieces[0]|, until);
        }
      }
    }
  }

  lemma {:induction false} NothingStands(s: string, from: nat, until: nat)
    requires from <= until <= |s|
    ensures Leftmost(CharTakes, [], s, from, until) == Some(from)
  {
  }

  lemma {:induction false} RunInSlice(piece: string, s: string, from: nat, until: nat, k: nat)
    requires from + k + |piece| <= until <= |s|
    ensures RunAt(CharTakes, piece, s[from..until], k) <==> RunAt(CharTakes, piece, s, from + k)
  {
    var slice := s[from..until];
    if RunAt(CharTakes, piece, slice, k) {
      forall i | 0 <= i < |piece| ensures CharTakes(piece[i], s[from + k + i]) {
        assert CharTakes(piece[i], slice[k + i]);
      }
    }
    if RunAt(CharTakes, piece, s, from + k) {
      forall i | 0 <= i < |piece| ensures CharTakes(piece[i], slice[k + i]) {
        assert CharTakes(piece[i], s[from + k + i]);
      }
    }
  }

  /** Searching the part that is left is searching the whole from there. */
  lemma {:induction false} LeftmostInSlice(piece: string, s: string, from: nat, until: nat)
    requires from <= until <= |s|
    ensures var inSlice := Leftmost(CharTakes, piece, s[from..until], 0, until - from);
            Leftmost(CharTakes, piece, s, from, until) ==
            match inSlice case None => None case Some(k) => Some(from + k)
  {
    hide Leftmost, RunAt;
    var inSlice := Leftmost(CharTakes, piece, s[from..until], 0, until - from);
    var whole := Leftmost(CharTakes, piece, s, from, until);
    if whole.Some? {
      RunInSlice(piece, s, from, until, whole.value - from);
    }
    if inSlice.Some? {
      RunInSlice(piece, s, from, until, inSlice.value);
    }
  }

  lemma {:induction false} ExactMatch(pattern: string, name: string)
    requires STAR !in pattern
    ensures Matches(pattern, name) <==> pattern == name
  {
    LiteralToks(pattern, []);
    assert pattern + [] == pattern;
    OnesTake(CharTakes, pattern, [], name, 0);
    if |pattern| == |name| {
      PieceAt(pattern, name, 0);
      assert name[0..0 + |pattern|] == name;
    }
  }

  /** A match, as `Names` looks for one: both ends, apart, and the rest between. */
  lemma {:induction false} MatchesByPieces(
      pattern: string, name: string, first: string, afterFirst: string, middle: seq<string>, last: string)
    requires pattern == first + ([STAR] + afterFirst) && STAR !in first
    requires FlatRest(middle + [last]) == [Any] + Toks(afterFirst)
    ensures Matches(pattern, name) <==>
            && |first| + |last| <= |name|
            && Anchored(name, first, last)
            && Greedy(CharTakes, NonEmpty(middle), name, |first|, |name| - |last|)
  {
    hide *;
    PiecesAreThePattern(pattern, first, afterFirst, middle, last, name);
    AnchoredGreedyIsRight(CharTakes, first, middle, last, name);
    if |first| + |last| <= |name| {
      EndsAreRuns(name, first, last);
      EmptyPiecesAreFree(middle, name, |first|, |name| - |last|);
    }
  }

  lemma {:induction false} EndsAreRuns(name: string, first: string, last: string)
    requires |first| + |last| <= |name|
    ensures Anchored(name, first, last) <==>
            RunAt(CharTakes, first, name, 0) && RunAt(CharTakes, last, name, |name| - |last|)
  {
    PieceAt(first, name, 0);
    PieceAt(last, name, |name| - |last|);
    assert name[0..0 + |first|] == name[..|first|];
    assert name[|first|..][|name| - |first| - |last|..] == name[|name| - |last|..|name| - |last| + |last|];
  }

  /** The middle pieces and the last one, as `Names` finds them after the first. */
  lemma {:induction false} AfterFirstIsFlat(afterFirst: string)
    returns (runs: seq<string>)
    ensures var (middle, last) := RSplitOnce(afterFirst, STAR).GetOr(("", afterFirst));
            NonEmpty(runs) == NonEmpty(Split(middle, STAR)) && FlatRest(runs + [last]) == [Any] + Toks(afterFirst)
  {
    match RSplitOnce(afterFirst, STAR)
    case Some((middle, last)) =>
      runs := Split(middle, STAR);
      SplitIsFlat(middle, last);
      assert middle + ([STAR] + last) == afterFirst;
    case None =>
      runs := [];
      LastIsFlat(afterFirst);
      assert [] + [afterFirst] == [afterFirst];
  }

  /** The matcher: anchored ends, then each middle piece at its leftmost place. */
  method Names(pattern: string, name: string) returns (r: bool)
    ensures r <==> Matches(pattern, name)
  {
    hide Takes, Greedy, Flat, FlatRest, Ones, Toks, RSplitOnce, Split, NonEmpty, Leftmost, RunAt, Matches;
    var once := SplitOnce(pattern, STAR);
    if once.None? {
      ExactMatch(pattern, name);
      return pattern == name;
    }
    var (first, afterFirst) := once.value;
    var (middle, last) := RSplitOnce(afterFirst, STAR).GetOr(("", afterFirst));
    ghost var runs := AfterFirstIsFlat(afterFirst);
    assert pattern == first + ([STAR] + afterFirst);
    MatchesByPieces(pattern, name, first, afterFirst, runs, last);
    if !(first <= name) {
      return false;
    }
    var rest := name[|first|..];
    if !EndsWith(rest, last) {
      return false;
    }
    rest := rest[..|rest| - |last|];
    r := InOrder(name, NonEmpty(Split(middle, STAR)), |first|, rest);
  }

  /** Looks the pieces up one by one, going on from where each was first found.
    * `rest` is what `name` has from `at` on. */
  method InOrder(ghost name: string, pieces: seq<string>, ghost at: nat, rest: string) returns (r: bool)
    requires at + |rest| <= |name| && rest == name[at..at + |rest|]
    ensures r <==> Greedy(CharTakes, pieces, name, at, at + |rest|)
  {
    hide Leftmost, Greedy;
    var left := rest;
    ghost var from, until := at, at + |rest|;
    for i := 0 to |pieces|
      invariant at <= from <= until && left == name[from..until]
      invariant Greedy(CharTakes, pieces[i..], name, from, until) <==> Greedy(CharTakes, pieces, name, at, until)
    {
      GreedyStep(CharTakes, pieces, i, name, from, until);
      LeftmostInSlice(pieces[i], name, from, until);
      var found := Find(left, pieces[i]);
      if found.None? {
        return false;
      }
      left := left[found.value + |pieces[i]|..];
      from := from + found.value + |pieces[i]|;
    }
    GreedyEnds(CharTakes, pieces, name, from, until);
    return true;
  }
}
