/** Overlap, decided: a name that two patterns both take is a way through the pairs of their positions. */
module GlobOverlap {
  import opened Wrappers
  import opened Globs
  import opened GlobNames

  /** Two name patterns, each from a position on, both take `s`. */
  ghost predicate Common(p: string, q: string, nonempty: bool, i: nat, j: nat, taken: bool, s: string)
    requires i <= |p| && j <= |q|
  {
    && Takes(CharTakes, Toks(p)[i..], s, 0)
    && Takes(CharTakes, Toks(q)[j..], s, 0)
    && (nonempty && !taken ==> s != "")
  }

  /** Some name, non-empty when asked, matches both patterns. */
  ghost predicate NamesMeet(p: string, q: string, nonempty: bool) {
    exists s :: Matches(p, s) && Matches(q, s) && (nonempty ==> s != "")
  }

  /** A search state: a position in each pattern, and whether a character has been taken. */
  datatype State = State(i: nat, j: nat, taken: bool)

  ghost predicate InRange(p: string, q: string, st: State) { st.i <= |p| && st.j <= |q| }

  ghost function AllStates(p: string, q: string): set<State> {
    set i, j, taken | 0 <= i <= |p| && 0 <= j <= |q| && taken in {false, true} :: State(i, j, taken)
  }

  ghost predicate Final(p: string, q: string, nonempty: bool, st: State) {
    st.i == |p| && st.j == |q| && (st.taken || !nonempty)
  }

  /** Some name takes both patterns to their ends from `st`. */
  ghost predicate Alive(p: string, q: string, nonempty: bool, st: State) {
    InRange(p, q, st) && exists s :: Common(p, q, nonempty, st.i, st.j, st.taken, s)
  }

  /** What the search pushes from `st`, in the order it pushes it. */
  function Next(p: string, q: string, st: State): (next: seq<State>)
    requires st.i <= |p| && st.j <= |q|
    ensures forall n :: n in next ==> n.i <= |p| && n.j <= |q|
  {
    var a := if st.i < |p| then Some(p[st.i]) else None;
    var b := if st.j < |q| then Some(q[st.j]) else None;
    (if a == Some(STAR) then [State(st.i + 1, st.j, st.taken)] else []) +
    (if b == Some(STAR) then [State(st.i, st.j + 1, st.taken)] else []) +
    (if a.None? || b.None? then []
     else if a.value == STAR && b.value == STAR then [State(st.i, st.j, true)]
     else if a.value == STAR then [State(st.i, st.j + 1, true)]
     else if b.value == STAR then [State(st.i + 1, st.j, true)]
     else if a.value == b.value then [State(st.i + 1, st.j + 1, true)]
     else [])
  }

  // ----- Soundness: what can be reached from a state can be taken from it

  lemma {:induction false} AliveBackward(p: string, q: string, nonempty: bool, st: State, n: State)
    requires InRange(p, q, st) && n in Next(p, q, st) && Alive(p, q, nonempty, n)
    ensures Alive(p, q, nonempty, st)
  {
    hide Takes, Alive;
    var s := Witness(p, q, nonempty, n);
    if n == State(st.i + 1, st.j, st.taken) && p[st.i] == STAR {
      StepAny(CharTakes, Toks(p), st.i, s);
      IsAlive(p, q, nonempty, st, s);
    } else if n == State(st.i, st.j + 1, st.taken) && q[st.j] == STAR {
      StepAny(CharTakes, Toks(q), st.j, s);
      IsAlive(p, q, nonempty, st, s);
    } else {
      var c := if p[st.i] == STAR then q[st.j] else p[st.i];
      var s' := [c] + s;
      assert s'[1..] == s;
      if p[st.i] == STAR { StepAny(CharTakes, Toks(p), st.i, s'); } else { StepOne(CharTakes, Toks(p), st.i, s'); }
      if q[st.j] == STAR { StepAny(CharTakes, Toks(q), st.j, s'); } else { StepOne(CharTakes, Toks(q), st.j, s'); }
      if p[st.i] == STAR && n.i == st.i + 1 { StepAny(CharTakes, Toks(p), st.i, s); }
      IsAlive(p, q, nonempty, st, s');
    }
  }

  lemma {:induction false} IsAlive(p: string, q: string, nonempty: bool, st: State, s: string)
    requires InRange(p, q, st) && Common(p, q, nonempty, st.i, st.j, st.taken, s)
    ensures Alive(p, q, nonempty, st)
  {
  }

  lemma {:induction false} Witness(p: string, q: string, nonempty: bool, st: State) returns (s: string)
    requires Alive(p, q, nonempty, st)
    ensures InRange(p, q, st) && Common(p, q, nonempty, st.i, st.j, st.taken, s)
  {
    s :| Common(p, q, nonempty, st.i, st.j, st.taken, s);
  }

  // ----- Completeness: a closed set without a final state holds no live one

  ghost predicate Closed(p: string, q: string, nonempty: bool, seen: set<State>) {
    forall st :: st in seen ==>
      && InRange(p, q, st)
      && !Final(p, q, nonempty, st)
      && forall n :: n in Next(p, q, st) ==> n in seen
  }

  lemma {:induction false} ClosedIsDead(p: string, q: string, nonempty: bool, seen: set<State>, st: State, s: string)
    requires Closed(p, q, nonempty, seen) && st in seen
    requires InRange(p, q, st) && Common(p, q, nonempty, st.i, st.j, st.taken, s)
    ensures false
    decreases |s|, |p| - st.i + |q| - st.j
  {
    hide Takes, Toks, Closed, Final;
    var next := StepForward(p, q, nonempty, st, s);
    InClosed(p, q, nonempty, seen, st);
    if next.None? {
      assert false;
    } else {
      var (n, s') := next.value;
      ClosedIsDead(p, q, nonempty, seen, n, s');
    }
  }

  lemma {:induction false} InClosed(p: string, q: string, nonempty: bool, seen: set<State>, st: State)
    requires Closed(p, q, nonempty, seen) && st in seen
    ensures InRange(p, q, st) && !Final(p, q, nonempty, st)
    ensures forall n :: n in Next(p, q, st) ==> n in seen
  {
  }

  /** A live state is final, or one of its next states is live on a name no
    * longer, from positions further on unless the name is shorter. */
  lemma {:induction false} StepForward(p: string, q: string, nonempty: bool, st: State, s: string)
    returns (next: Option<(State, string)>)
    requires InRange(p, q, st) && Common(p, q, nonempty, st.i, st.j, st.taken, s)
    ensures next.None? ==> Final(p, q, nonempty, st)
    ensures next.Some? ==>
              var (n, s') := next.value;
              && n in Next(p, q, st)
              && Common(p, q, nonempty, n.i, n.j, n.taken, s')
              && (|s'| < |s| || (s' == s && |p| - n.i + |q| - n.j < |p| - st.i + |q| - st.j))
  {
    hide Takes;
    var starP, starQ := st.i < |p| && p[st.i] == STAR, st.j < |q| && q[st.j] == STAR;
    if starP { StepAny(CharTakes, Toks(p), st.i, s); } else if st.i < |p| { StepOne(CharTakes, Toks(p), st.i, s); }
    if starQ { StepAny(CharTakes, Toks(q), st.j, s); } else if st.j < |q| { StepOne(CharTakes, Toks(q), st.j, s); }
    if st.i == |p| { StepEnd(CharTakes, Toks(p), s); }
    if st.j == |q| { StepEnd(CharTakes, Toks(q), s); }
    if starP && Takes(CharTakes, Toks(p)[st.i + 1..], s, 0) {
      next := Some((State(st.i + 1, st.j, st.taken), s));
    } else if starQ && Takes(CharTakes, Toks(q)[st.j + 1..], s, 0) {
      next := Some((State(st.i, st.j + 1, st.taken), s));
    } else if st.i == |p| && st.j == |q| {
      next := None;
    } else {
      next := Some((State(if starP then st.i else st.i + 1, if starQ then st.j else st.j + 1, true), s[1..]));
      if starP && !starQ { next := Some((State(st.i, st.j + 1, true), s[1..])); }
    }
  }

  // ----- The search

  /** Where the seen-table keeps a pair of positions. */
  function Slot(width: nat, i: nat, j: nat): nat { i * width + j }

  lemma {:induction false} LaterRowLaterSlot(width: nat, i: nat, j: nat, i': nat, j': nat)
    requires j < width && i < i'
    ensures Slot(width, i, j) < Slot(width, i', j')
  {
    assert (i + 1) * width <= i' * width;
  }

  lemma {:induction false} SlotsDiffer(width: nat, i: nat, j: nat, i': nat, j': nat)
    requires j < width && j' < width
    ensures i != i' || j != j' ==> Slot(width, i, j) != Slot(width, i', j')
  {
    if i < i' {
      LaterRowLaterSlot(width, i, j, i', j');
    } else if i' < i {
      LaterRowLaterSlot(width, i', j', i, j);
    }
  }

  lemma {:induction false} SlotInTable(width: nat, rows: nat, i: nat, j: nat)
    requires i < rows && j < width
    ensures Slot(width, i, j) < rows * width
  {
    assert (i + 1) * width <= rows * width;
  }

  /** The table of `rows` by `width` slots marks exactly the states in `seen`. */
  ghost predicate Table(rows: nat, width: nat, table: array2<bool>, seen: set<State>)
    reads table
  {
    && table.Length0 == rows * width && table.Length1 == 2
    && forall i: nat, j: nat {:trigger Slot(width, i, j)} | i < rows && j < width ::
         && Slot(width, i, j) < table.Length0
         && (State(i, j, false) in seen <==> table[Slot(width, i, j), 0])
         && (State(i, j, true) in seen <==> table[Slot(width, i, j), 1])
  }

  lemma {:induction false} SlotIsOwn(rows: nat, width: nat, st: State)
    requires st.i < rows && st.j < width
    ensures Slot(width, st.i, st.j) < rows * width
    ensures forall i: nat, j: nat {:trigger Slot(width, i, j)} | i < rows && j < width ::
              Slot(width, i, j) == Slot(width, st.i, st.j) ==> i == st.i && j == st.j
  {
    SlotInTable(width, rows, st.i, st.j);
    forall i: nat, j: nat {:trigger Slot(width, i, j)} | i < rows && j < width &&
      Slot(width, i, j) == Slot(width, st.i, st.j)
      ensures i == st.i && j == st.j
    {
      SlotsDiffer(width, i, j, st.i, st.j);
    }
  }

  lemma {:induction false} StateIsOne(p: string, q: string, st: State)
    requires InRange(p, q, st)
    ensures st in AllStates(p, q)
  {
  }

  /** Decides overlap: is there a name both take, and one that is not empty if that is asked? */
  method PatternsOverlap(p: string, q: string, nonempty: bool) returns (r: bool)
    ensures r <==> NamesMeet(p, q, nonempty)
  {
    hide NamesMeet, Alive, Next, Slot, AllStates;
    var width := |q| + 1;
    var rows := |p| + 1;
    var table := new bool[rows * width, 2]((_, _) => false);
    var start := State(0, 0, false);
    var todo := [start];
    ghost var seen: set<State> := {};
    forall i: nat, j: nat {:trigger Slot(width, i, j)} | i < rows && j < width
      ensures Slot(width, i, j) < rows * width
    {
      SlotInTable(width, rows, i, j);
    }
    MeetIsAlive(p, q, nonempty);
    while todo != []
      invariant Table(rows, width, table, seen)
      invariant start in seen || start in todo
      invariant seen <= AllStates(p, q)
      invariant forall st :: st in todo ==> InRange(p, q, st)
      invariant forall st :: st in todo && Alive(p, q, nonempty, st) ==> Alive(p, q, nonempty, start)
      invariant forall st :: st in seen ==> InRange(p, q, st) && !Final(p, q, nonempty, st)
      invariant forall st, n :: st in seen && n in Next(p, q, st) ==> n in seen || n in todo
      decreases AllStates(p, q) - seen, |todo|
    {
      var st := todo[|todo| - 1];
      ghost var before := todo;
      todo := todo[..|todo| - 1];
      assert before == todo + [st];
      StateIsOne(p, q, st) by { assert st in before; }
      SlotIsOwn(rows, width, st);
      var column := if st.taken then 1 else 0;
      if table[Slot(width, st.i, st.j), column] {
        continue;
      }
      table[Slot(width, st.i, st.j), column] := true;
      seen := seen + {st};
      if st.i == |p| && st.j == |q| && (st.taken || !nonempty) {
        FinalIsAlive(p, q, nonempty, st);
        return true;
      }
      todo := todo + Next(p, q, st);
      forall n | n in Next(p, q, st) && Alive(p, q, nonempty, n) ensures Alive(p, q, nonempty, start) {
        AliveBackward(p, q, nonempty, st, n);
      }
    }
    if Alive(p, q, nonempty, start) {
      var s := Witness(p, q, nonempty, start);
      ClosedIsDead(p, q, nonempty, seen, start, s);
    }
    return false;
  }

  lemma {:induction false} FinalIsAlive(p: string, q: string, nonempty: bool, st: State)
    requires Final(p, q, nonempty, st)
    ensures Alive(p, q, nonempty, st)
  {
    StepEnd(CharTakes, Toks(p), "");
    StepEnd(CharTakes, Toks(q), "");
    assert Common(p, q, nonempty, st.i, st.j, st.taken, "");
  }

  lemma {:induction false} MeetIsAlive(p: string, q: string, nonempty: bool)
    ensures NamesMeet(p, q, nonempty) <==> Alive(p, q, nonempty, State(0, 0, false))
  {
    assert Toks(p)[0..] == Toks(p) && Toks(q)[0..] == Toks(q);
    forall s
      ensures Common(p, q, nonempty, 0, 0, false, s) <==> Matches(p, s) && Matches(q, s) && (nonempty ==> s != "")
    {
    }
  }
}
