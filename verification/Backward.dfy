/** Reading a file's lines backward, a chunk at a time. */
module BackwardLines {
  import opened Wrappers
  import opened LogLines

  /** Where the last newline in `s` is. */
  function LastNewline(s: seq<Byte>): (r: Option<nat>)
    ensures r.None? ==> forall i :: 0 <= i < |s| ==> s[i] != NEWLINE
    ensures r.Some? ==> r.value < |s| && s[r.value] == NEWLINE && forall i :: r.value < i < |s| ==> s[i] != NEWLINE
  {
    if s == [] then None
    else if s[|s| - 1] == NEWLINE then Some(|s| - 1)
    else LastNewline(s[..|s| - 1])
  }

  /** Looks back chunk by chunk for the last newline: what comes after it is no line yet. */
  method FindCompleteEnd(f: seq<Byte>, chunk: nat) returns (end: nat)
    requires chunk > 0
    ensures end == CompleteEnd(f)
  {
    var pos: nat := |f|;
    while pos > 0
      invariant pos <= |f|
      invariant forall i :: pos <= i < |f| ==> f[i] != NEWLINE
    {
      var take := if pos < chunk then pos else chunk;
      var from := pos - take;
      var last := LastNewline(f[from..pos]);
      if last.Some? {
        IsCompleteEnd(f, from + last.value + 1);
        return from + last.value + 1;
      }
      forall i | from <= i < pos ensures f[i] != NEWLINE {
        assert f[i] == f[from..pos][i - from];
      }
      pos := from;
    }
    IsCompleteEnd(f, 0);
    return 0;
  }

  lemma {:induction false} IsCompleteEnd(f: seq<Byte>, e: nat)
    requires LineStart(f, e) && forall i :: e <= i < |f| ==> f[i] != NEWLINE
    ensures e == CompleteEnd(f)
  {
  }

  class Backward {
    const file: seq<Byte>
    const chunk: nat
    /** Nothing from here on is left to give. */
    var end: nat
    /** How far back the file has been read; what lies between here and `end` is in `buf`. */
    var start: nat
    var buf: seq<Byte>

    ghost predicate Valid()
      reads this
    {
      && chunk > 0
      && start <= end && LineStart(file, end)
      && buf == file[start..end]
    }

    /** Begins below a line's start. */
    constructor At(file: seq<Byte>, end: nat, chunk: nat)
      requires chunk > 0 && LineStart(file, end)
      ensures Valid() && this.end == end && this.file == file
    {
      this.file, this.chunk := file, chunk;
      this.end, this.start, this.buf := end, end, [];
    }

    /** Begins at the last line that has its newline. */
    constructor AtEnd(file: seq<Byte>, chunk: nat)
      requires chunk > 0
      ensures Valid() && end == CompleteEnd(file) && this.file == file
    {
      this.file, this.chunk := file, chunk;
      this.end, this.start, this.buf := |file|, |file|, [];
      new;
      while true
        invariant start <= |file| && buf == file[start..] && end == |file|
        decreases start
      {
        var last := LastNewline(buf);
        if last.Some? {
          end := start + last.value + 1;
          IsCompleteEnd(file, end) by {
            forall i | end <= i < |file| ensures file[i] != NEWLINE {
              assert file[i] == buf[i - start];
            }
          }
          break;
        }
        if start == 0 {
          end := 0;
          IsCompleteEnd(file, 0);
          break;
        }
        Fill();
      }
      buf := buf[..end - start];
    }

    /** One more read: `buf` grows at its front, by a chunk or by what is left. */
    method Fill()
      requires chunk > 0 && 0 < start <= |file|
      modifies this`start, this`buf
      ensures start < old(start)
      ensures buf == file[start..old(start)] + old(buf)
      ensures forall e | old(start) <= e <= |file| && old(buf) == file[old(start)..e] :: buf == file[start..e]
    {
      var take := if start < chunk then start else chunk;
      var from := start - take;
      buf := file[from..start] + buf;
      start := from;
    }

    /** One line back: gives the nearest line below `end` that is not blank, with its
      * offset, and moves `end` there. At the file's start there is none to give. */
    method Prev() returns (r: Option<Line>)
      requires Valid()
      modifies this
      ensures Valid()
      ensures r.None? ==> end == 0 && LinesIn(file, 0, old(end)) == []
      ensures r.Some? ==> r.value.at == end && LinesIn(file, 0, old(end)) == LinesIn(file, 0, end) + [r.value]
    {
      hide LinesIn, LastNewline, Blank;
      while true
        invariant Valid() && end <= old(end)
        invariant LinesIn(file, 0, old(end)) == LinesIn(file, 0, end)
        decreases end, start
      {
        if end == 0 {
          NothingAtStart(file);
          return None;
        }
        if start == end {
          Fill();
        }
        var body := |buf| - 1;
        assert buf[..body] == file[start..end - 1];
        var newline := LastNewline(buf[..body]);
        var begins: nat;
        if newline.Some? {
          begins := newline.value + 1;
        } else if start == 0 {
          begins := 0;
        } else {
          Fill();
          continue;
        }
        var line := buf[begins..body];
        var at := start + begins;
        StepsBack(file, start, end, begins);
        buf := buf[..begins];
        end := at;
        if !Blank(line) {
          return Some(Line(at, line));
        }
      }
    }
  }

  lemma {:induction false} NothingAtStart(f: seq<Byte>)
    ensures LinesIn(f, 0, 0) == []
  {
  }

  /** The last line of `f[..end]` begins just after the last newline before its own. */
  lemma {:induction false} StepsBack(f: seq<Byte>, start: nat, end: nat, begins: nat)
    requires start < end && LineStart(f, end)
    requires var body := f[start..end - 1]; match LastNewline(body)
             case Some(i) => begins == i + 1
             case None => start == 0 && begins == 0
    ensures LineStart(f, start + begins) && start + begins < end
    ensures f[start..end][..begins] == f[start..start + begins]
    ensures f[start..end][begins..end - start - 1] == f[start + begins..end - 1]
    ensures LinesIn(f, 0, end) ==
            LinesIn(f, 0, start + begins) +
            (if Blank(f[start + begins..end - 1]) then [] else [Line(start + begins, f[start + begins..end - 1])])
  {
    hide LinesIn, Blank;
    var body := f[start..end - 1];
    forall i | start + begins <= i < end - 1 ensures f[i] != NEWLINE {
      assert f[i] == body[i - start];
    }
    if begins > 0 {
      assert f[start + begins - 1] == body[begins - 1];
    }
    LastLine(f, start + begins, end);
    SliceOfSlice(f, start, end, 0, begins);
    SliceOfSlice(f, start, end, begins, end - start - 1);
  }

  lemma {:induction false} SliceOfSlice<T>(f: seq<T>, start: nat, end: nat, a: nat, b: nat)
    requires a <= b <= end - start && start <= end <= |f|
    ensures f[start..end][a..b] == f[start + a..start + b]
  {
    forall i | 0 <= i < b - a ensures f[start..end][a..b][i] == f[start + a..start + b][i] {
      assert f[start..end][a + i] == f[start + a + i];
    }
  }
}
