/** Strings in code point order, and entries sorted by name. */
module Ordering {
  /** `a` comes before `b`, comparing code points. */
  predicate Before(a: string, b: string) {
    if b == "" then false
    else if a == "" then true
    else if a[0] != b[0] then a[0] < b[0]
    else Before(a[1..], b[1..])
  }

  lemma {:induction false} BeforeTransitive(a: string, b: string, c: string)
    requires Before(a, b) && Before(b, c)
    ensures Before(a, c)
  {
    if a != "" && a[0] == b[0] == c[0] {
      BeforeTransitive(a[1..], b[1..], c[1..]);
    }
  }

  lemma {:induction false} BeforeTotal(a: string, b: string)
    ensures Before(a, b) || a == b || Before(b, a)
    ensures !(Before(a, b) && Before(b, a)) && !Before(a, a)
  {
    if a != "" && b != "" && a[0] == b[0] {
      BeforeTotal(a[1..], b[1..]);
      assert a == [a[0]] + a[1..] && b == [b[0]] + b[1..];
    }
    if a != "" { BeforeTotal(a[1..], a[1..]); }
  }

  datatype Entry<+T> = Entry(name: string, value: T)

  predicate Distinct<T>(es: seq<Entry<T>>) {
    forall i, j :: 0 <= i < j < |es| ==> es[i].name != es[j].name
  }

  predicate Ascending<T>(es: seq<Entry<T>>) {
    forall i, j :: 0 <= i < j < |es| ==> Before(es[i].name, es[j].name)
  }

  function Insert<T(!new)>(e: Entry<T>, es: seq<Entry<T>>): (r: seq<Entry<T>>)
    ensures |r| == |es| + 1
    ensures forall x :: x in r <==> x == e || x in es
  {
    if es == [] then [e]
    else if Before(es[0].name, e.name) then [es[0]] + Insert(e, es[1..])
    else
      assert forall x :: x in [e] + es <==> x == e || x in es;
      [e] + es
  }

  /** The entries, sorted by name. */
  function Sorted<T(!new)>(es: seq<Entry<T>>): (r: seq<Entry<T>>)
    ensures |r| == |es|
    ensures forall x :: x in r <==> x in es
  {
    if es == [] then [] else Insert(es[0], Sorted(es[1..]))
  }

  lemma {:induction false} InsertAscends<T(!new)>(e: Entry<T>, es: seq<Entry<T>>)
    requires Ascending(es) && forall x :: x in es ==> x.name != e.name
    ensures Ascending(Insert(e, es))
  {
    if es != [] {
      BeforeTotal(es[0].name, e.name);
      if Before(es[0].name, e.name) {
        InsertAscends(e, es[1..]);
        var rest := Insert(e, es[1..]);
        forall i | 0 <= i < |rest| ensures Before(es[0].name, rest[i].name) {
          assert rest[i] in rest;
          if rest[i] != e {
            var k :| 0 <= k < |es[1..]| && es[1..][k] == rest[i];
            assert es[k + 1] == rest[i];
          }
        }
      } else {
        forall i | 0 <= i < |es| ensures Before(e.name, es[i].name) {
          if i > 0 { BeforeTransitive(e.name, es[0].name, es[i].name); }
        }
      }
    }
  }

  lemma {:induction false} SortedAscends<T(!new)>(es: seq<Entry<T>>)
    requires Distinct(es)
    ensures Ascending(Sorted(es))
  {
    if es != [] {
      SortedAscends(es[1..]);
      InsertAscends(es[0], Sorted(es[1..]));
    }
  }

  /** Sorting has one answer: two ascending lists of the same entries are equal. */
  lemma {:induction false} AscendingIsUnique<T(!new)>(a: seq<Entry<T>>, b: seq<Entry<T>>)
    requires Ascending(a) && Ascending(b)
    requires forall x :: x in a <==> x in b
    ensures a == b
  {
    if a == [] {
      SomeEntry(b);
    } else {
      assert a[0] in b && b != [];
      FirstIsLeast(a, b);
      FirstIsLeast(b, a);
      BeforeTotal(a[0].name, b[0].name);
      var i :| 0 <= i < |b| && b[i] == a[0];
      assert a[0] == b[0];
      forall x ensures x in a[1..] <==> x in b[1..] {
        InTail(a, x);
        InTail(b, x);
      }
      AscendingIsUnique(a[1..], b[1..]);
    }
  }

  lemma {:induction false} SomeEntry<T(!new)>(b: seq<Entry<T>>)
    ensures b != [] ==> exists x :: x in b
  {
    if b != [] { assert b[0] in b; }
  }

  lemma {:induction false} InTail<T(!new)>(a: seq<Entry<T>>, x: Entry<T>)
    requires Ascending(a) && a != []
    ensures x in a[1..] <==> x in a && x != a[0]
  {
    BeforeTotal(a[0].name, a[0].name);
    if x in a[1..] {
      var i :| 0 <= i < |a[1..]| && a[1..][i] == x;
      assert Before(a[0].name, a[i + 1].name);
    }
    if x in a && x != a[0] {
      var i :| 0 <= i < |a| && a[i] == x;
      assert a[1..][i - 1] == x;
    }
  }

  lemma {:induction false} FirstIsLeast<T(!new)>(a: seq<Entry<T>>, b: seq<Entry<T>>)
    requires Ascending(a) && a != [] && b != []
    requires forall x :: x in b ==> x in a
    ensures b[0] == a[0] || Before(a[0].name, b[0].name)
  {
    assert b[0] in b;
    var i :| 0 <= i < |a| && a[i] == b[0];
  }

  lemma {:induction false} NoneBefore(a: string, b: string)
    requires b == "" || (a != "" && a[0] > b[0])
    ensures forall k: nat :: k <= |a| && k < |b| && a[..k] == b[..k] ==> !(k == |a| || a[k] as int < b[k] as int)
  {
    forall k: nat | 0 < k <= |a| && k < |b| ensures a[..k] != b[..k] {
      assert a[..k][0] == a[0] && b[..k][0] == b[0];
    }
  }

  /** The order of code points: a text comes before those it starts, and else goes by
    * the first character that differs. */
  lemma {:induction false} BeforeIs(a: string, b: string)
    ensures Before(a, b) <==>
            exists k: nat ::
              && k <= |a| && k < |b| && a[..k] == b[..k]
              && (k == |a| || a[k] as int < b[k] as int)
  {
    if a != "" && b != "" && a[0] == b[0] {
      BeforeIs(a[1..], b[1..]);
      if k: nat :| k <= |a[1..]| && k < |b[1..]| && a[1..][..k] == b[1..][..k] &&
                   (k == |a[1..]| || a[1..][k] as int < b[1..][k] as int) {
        assert a[..k + 1] == [a[0]] + a[1..][..k] && b[..k + 1] == [b[0]] + b[1..][..k];
        assert k + 1 == |a| || a[k + 1] < b[k + 1];
      }
      if k: nat :| k <= |a| && k < |b| && a[..k] == b[..k] && (k == |a| || a[k] as int < b[k] as int) {
        assert k > 0;
        assert a[1..][..k - 1] == a[..k][1..] && b[1..][..k - 1] == b[..k][1..];
        assert k - 1 == |a[1..]| || a[1..][k - 1] < b[1..][k - 1];
      }
    } else if b != "" && Before(a, b) {
      assert a[..0] == b[..0];
    } else {
      NoneBefore(a, b);
    }
  }
}
