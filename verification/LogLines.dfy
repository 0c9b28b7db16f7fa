/** A line file: its bytes, and the complete, non-blank lines in them. */
module LogLines {

  type Byte = b: int | 0 <= b < 256

  const NEWLINE: Byte := 10

  /** A line: where it starts, and its bytes without the newline. */
  datatype Line = Line(at: nat, text: seq<Byte>)

  predicate Space(b: Byte) { b in {9, 10, 12, 13, 32} }

  /** White space in ASCII, but for the vertical tab; and a newline is the line feed. */
  lemma {:induction false} SpacesAre(b: Byte)
    ensures Space(b) <==> b as char in "\t\n\U{000C}\r "
    ensures b == NEWLINE <==> b as char == '\n'
  {
  }

  predicate Blank(text: seq<Byte>) { forall i :: 0 <= i < |text| ==> Space(text[i]) }

  /** Lines start at 0 and just past each newline. */
  predicate LineStart(f: seq<Byte>, at: nat) {
    at <= |f| && (at == 0 || f[at - 1] == NEWLINE)
  }

  /** Where the first newline at or after `at` is; `|f|` when there is none. */
  function LineEnd(f: seq<Byte>, at: nat): (e: nat)
    requires at <= |f|
    ensures at <= e <= |f| && (e < |f| ==> f[e] == NEWLINE)
    ensures forall i :: at <= i < e ==> f[i] != NEWLINE
    decreases |f| - at
  {
    if at == |f| || f[at] == NEWLINE then at else LineEnd(f, at + 1)
  }

  /** The complete, non-blank lines that start at or after `at` and before `end`,
    * when `at` starts a line. */
  function LinesIn(f: seq<Byte>, at: nat, end: nat): seq<Line>
    requires at <= |f|
    decreases |f| - at
  {
    if at >= end then []
    else
      var e := LineEnd(f, at);
      if e == |f| then []
      else (if Blank(f[at..e]) then [] else [Line(at, f[at..e])]) + LinesIn(f, e + 1, end)
  }

  /** Where the complete lines end: after the last newline. */
  function CompleteEnd(f: seq<Byte>): (e: nat)
    ensures LineStart(f, e) && forall i :: e <= i < |f| ==> f[i] != NEWLINE
  {
    if f == [] || f[|f| - 1] == NEWLINE then |f| else CompleteEnd(f[..|f| - 1])
  }

  /** A line of `f`, before `end`, said without splitting the file. */
  ghost predicate IsLine(f: seq<Byte>, end: nat, l: Line) {
    && l.at < end && l.at < |f|
    && LineStart(f, l.at)
    && LineEnd(f, l.at) < |f|
    && l.text == f[l.at..LineEnd(f, l.at)]
    && !Blank(l.text)
  }

  // ----- The lines as a sequence and as a set

  lemma {:induction false} MemberIsLine(f: seq<Byte>, at: nat, end: nat, l: Line)
    requires LineStart(f, at)
    ensures l in LinesIn(f, at, end) <==> at <= l.at && IsLine(f, end, l)
    decreases |f| - at
  {
    hide Blank, LinesIn, LineEnd;
    if at < end {
      var e := LineEnd(f, at);
      if at <= l.at <= e && LineStart(f, l.at) { OneStart(f, at, l.at); }
      if e < |f| {
        FirstLine(f, at, end);
        MemberIsLine(f, e + 1, end, l);
      } else {
        NothingAfter(f, at, end);
      }
    } else {
      NoLinesFrom(f, at, end);
    }
  }

  /** Up to a line's end, no other line starts. */
  lemma {:induction false} OneStart(f: seq<Byte>, at: nat, k: nat)
    requires at <= |f| && at <= k <= LineEnd(f, at) && LineStart(f, k)
    ensures k == at
  {
    hide LineEnd;
  }

  lemma {:induction false} LinesAscend(f: seq<Byte>, at: nat, end: nat)
    requires LineStart(f, at)
    ensures forall i, j :: 0 <= i < j < |LinesIn(f, at, end)| ==> LinesIn(f, at, end)[i].at < LinesIn(f, at, end)[j].at
    decreases |f| - at
  {
    if at < end && LineEnd(f, at) < |f| {
      var rest := LinesIn(f, LineEnd(f, at) + 1, end);
      LinesAscend(f, LineEnd(f, at) + 1, end);
      forall i | 0 <= i < |rest| ensures rest[i].at > at {
        MemberIsLine(f, LineEnd(f, at) + 1, end, rest[i]);
      }
    }
  }

  // ----- Splitting at a line's start, and growing the file

  lemma {:induction false} SplitAt(f: seq<Byte>, a: nat, b: nat, c: nat)
    requires a <= b <= c && LineStart(f, b)
    ensures LinesIn(f, a, c) == LinesIn(f, a, b) + LinesIn(f, b, c)
    decreases b - a
  {
    if a < b {
      var e := LineEnd(f, a);
      assert e < b by { assert f[b - 1] == NEWLINE; }
      SplitAt(f, e + 1, b, c);
    }
  }

  lemma {:induction false} LineEndGrows(f: seq<Byte>, more: seq<Byte>, at: nat)
    requires at <= |f| && LineEnd(f, at) < |f|
    ensures LineEnd(f + more, at) == LineEnd(f, at)
    decreases |f| - at
  {
    if f[at] != NEWLINE {
      LineEndGrows(f, more, at + 1);
    }
  }

  /** Appending leaves the lines before a line's start as they were. */
  lemma {:induction false} LinesGrow(f: seq<Byte>, more: seq<Byte>, a: nat, end: nat)
    requires a <= end && LineStart(f, end)
    ensures LinesIn(f + more, a, end) == LinesIn(f, a, end)
    ensures LineStart(f + more, end)
    decreases |f| - a
  {
    hide Blank, LinesIn, LineEnd;
    if a < end {
      var e := LineEnd(f, a);
      assert e < end by { assert f[end - 1] == NEWLINE; }
      LineEndGrows(f, more, a);
      assert (f + more)[a..e] == f[a..e];
      FirstLine(f, a, end);
      FirstLine(f + more, a, end);
      LinesGrow(f, more, e + 1, end);
    } else {
      NoLinesFrom(f, a, end);
      NoLinesFrom(f + more, a, end);
    }
  }

  lemma {:induction false} FirstLine(f: seq<Byte>, at: nat, end: nat)
    requires at < end && at <= |f| && LineEnd(f, at) < |f|
    ensures var e := LineEnd(f, at);
            LinesIn(f, at, end) == (if Blank(f[at..e]) then [] else [Line(at, f[at..e])]) + LinesIn(f, e + 1, end)
  {
    hide Blank, LineEnd;
  }

  lemma {:induction false} NoLinesFrom(f: seq<Byte>, at: nat, end: nat)
    requires end <= at <= |f|
    ensures LinesIn(f, at, end) == []
  {
  }

  /** Bytes after the last newline are no line yet. */
  lemma {:induction false} NothingAfter(f: seq<Byte>, at: nat, end: nat)
    requires at <= |f| && forall i :: at <= i < |f| ==> f[i] != NEWLINE
    ensures LinesIn(f, at, end) == []
  {
    if at < |f| {
      assert LineEnd(f, at) == |f|;
    }
  }

  lemma {:induction false} AllLinesAreComplete(f: seq<Byte>, a: nat)
    requires a <= CompleteEnd(f)
    ensures LinesIn(f, a, |f|) == LinesIn(f, a, CompleteEnd(f))
  {
    SplitAt(f, a, CompleteEnd(f), |f|);
    NothingAfter(f, CompleteEnd(f), |f|);
  }

  /** The line that ends where `end` starts one, as a step backward. */
  lemma {:induction false} LastLine(f: seq<Byte>, at: nat, end: nat)
    requires at < end && LineStart(f, at) && LineStart(f, end)
    requires forall i :: at <= i < end - 1 ==> f[i] != NEWLINE
    ensures LinesIn(f, 0, end) ==
            LinesIn(f, 0, at) + (if Blank(f[at..end - 1]) then [] else [Line(at, f[at..end - 1])])
  {
    SplitAt(f, 0, at, end);
    assert LineEnd(f, at) == end - 1;
    assert LinesIn(f, end, end) == [];
  }

  /** The lines before a line of the file are those listed before it. */
  lemma {:induction false} LinesBefore(f: seq<Byte>, end: nat, k: nat)
    requires k < |LinesIn(f, 0, end)|
    ensures LineStart(f, LinesIn(f, 0, end)[k].at) && LinesIn(f, 0, end)[k].at < end
    ensures LinesIn(f, 0, LinesIn(f, 0, end)[k].at) == LinesIn(f, 0, end)[..k]
  {
    hide LinesIn;
    var ls := LinesIn(f, 0, end);
    var at := ls[k].at;
    MemberIsLine(f, 0, end, ls[k]);
    SplitAt(f, 0, at, end);
    LinesAscend(f, 0, end);
    var before, after := LinesIn(f, 0, at), LinesIn(f, at, end);
    assert ls == before + after;
    forall i | 0 <= i < |before| ensures before[i].at < at {
      MemberIsLine(f, 0, at, before[i]);
    }
    forall i | 0 <= i < |after| ensures at <= after[i].at {
      MemberIsLine(f, at, end, after[i]);
    }
    assert forall i :: 0 <= i < |before| ==> ls[i] == before[i];
    assert |before| < |ls| ==> ls[|before|] == after[0];
    assert k == |before|;
  }
}
