/** The canonical text of a JSON value: no white space, and the members of each
  * object in order of their names. One value has one text, and no other value has it. */
module Canonical {
  import opened Text
  import opened Ordering
  import opened Json

  const QUOTE: char := '\"'
  const BACKSLASH: char := '\\'

  function Hex(d: nat): (c: char)
    requires d < 16
  {
    if d < 10 then ('0' as int + d) as char else ('a' as int + d - 10) as char
  }

  /** One character inside a JSON string literal. */
  function Escape(c: char): (e: string)
    ensures e != ""
  {
    if c == QUOTE || c == BACKSLASH then [BACKSLASH, c]
    else if c == 8 as char then [BACKSLASH, 'b']
    else if c == 9 as char then [BACKSLASH, 't']
    else if c == 10 as char then [BACKSLASH, 'n']
    else if c == 12 as char then [BACKSLASH, 'f']
    else if c == 13 as char then [BACKSLASH, 'r']
    else if c < 32 as char then [BACKSLASH, 'u', '0', '0', Hex(c as int / 16), Hex(c as int % 16)]
    else [c]
  }

  function Escaped(s: string): string {
    if s == "" then "" else Escape(s[0]) + Escaped(s[1..])
  }

  /** A string between quotes, with its escapes. */
  function JsonStr(s: string): string { [QUOTE] + Escaped(s) + [QUOTE] }

  /** The canonical text. */
  function Canon(v: Value): string
    decreases v, 2, 0
  {
    match v
    case Null => "null"
    case Bool(b) => if b then "true" else "false"
    case Num(n) => IntText(n)
    case Str(s) => JsonStr(s)
    case Arr(items) => ['['] + CanonItems(v, items) + [']']
    case Obj(members) => ['{'] + CanonMembers(v, Sorted(members)) + ['}']
  }

  /** The items of `within`, commas between them. */
  function CanonItems(within: Value, items: seq<Value>): string
    requires within.Arr? && forall x :: x in items ==> x in within.items
    decreases within, 1, |items|
  {
    if items == [] then ""
    else
      ItemIsBelow(within, items[0]);
      Canon(items[0]) + (if |items| == 1 then "" else [','] + CanonItems(within, items[1..]))
  }

  /** The members of `within`, each its name and its value, commas between them. */
  function CanonMembers(within: Value, members: seq<Member>): string
    requires within.Obj? && forall x :: x in members ==> x in within.members
    decreases within, 1, |members|
  {
    if members == [] then ""
    else
      MemberIsBelow(within, members[0]);
      JsonStr(members[0].name) + [':'] + Canon(members[0].value) +
      (if |members| == 1 then "" else [','] + CanonMembers(within, members[1..]))
  }

  // ----- Literals and numbers pin what they say, whatever follows them

  lemma {:induction false} EscapePins(c: char, d: char, x: string, y: string)
    requires Escape(c) + x == Escape(d) + y
    ensures c == d && x == y
  {
    var e, f := Escape(c), Escape(d);
    assert e[0] == (e + x)[0] == (f + y)[0] == f[0];
    if |e| > 1 && |f| > 1 {
      assert e[1] == (e + x)[1] == (f + y)[1] == f[1];
      if |e| > 2 && |f| > 2 {
        assert e[4] == (e + x)[4] == (f + y)[4] == f[4];
        assert e[5] == (e + x)[5] == (f + y)[5] == f[5];
      }
    }
    assert x == (e + x)[|e|..] && y == (f + y)[|f|..];
  }

  lemma {:induction false} EscapedText(s: string, a: string)
    ensures Escaped(s) + ([QUOTE] + a) ==
            if s == "" then [QUOTE] + a else Escape(s[0]) + (Escaped(s[1..]) + ([QUOTE] + a))
  {
    hide Escape;
  }

  lemma {:induction false} NoBareQuote(c: char, x: string)
    ensures (Escape(c) + x)[0] != QUOTE
  {
  }

  lemma {:induction false} EscapedPins(s: string, t: string, a: string, b: string)
    requires Escaped(s) + ([QUOTE] + a) == Escaped(t) + ([QUOTE] + b)
    ensures s == t && a == b
    decreases |s|
  {
    hide Escape, Escaped;
    EscapedText(s, a);
    EscapedText(t, b);
    if s != "" { NoBareQuote(s[0], Escaped(s[1..]) + ([QUOTE] + a)); }
    if t != "" { NoBareQuote(t[0], Escaped(t[1..]) + ([QUOTE] + b)); }
    if s == "" {
      TailsAgree([QUOTE], a, b);
    } else {
      EscapePins(s[0], t[0], Escaped(s[1..]) + ([QUOTE] + a), Escaped(t[1..]) + ([QUOTE] + b));
      EscapedPins(s[1..], t[1..], a, b);
      assert s == [s[0]] + s[1..] && t == [t[0]] + t[1..];
    }
  }

  lemma {:induction false} StrText(s: string, a: string)
    ensures JsonStr(s) + a == [QUOTE] + (Escaped(s) + ([QUOTE] + a))
  {
    hide Escaped;
  }

  lemma {:induction false} StrPins(s: string, t: string, a: string, b: string)
    requires JsonStr(s) + a == JsonStr(t) + b
    ensures s == t && a == b
  {
    hide Escaped, JsonStr;
    StrText(s, a);
    StrText(t, b);
    var x, y := Escaped(s) + ([QUOTE] + a), Escaped(t) + ([QUOTE] + b);
    assert x == ([QUOTE] + x)[1..] && y == ([QUOTE] + y)[1..];
    EscapedPins(s, t, a, b);
  }

  /** What may follow a value: nothing, or a delimiter. */
  predicate Stops(a: string) { a == "" || a[0] in {',', ']', '}'} }

  lemma {:induction false} LongerReads(x: string, a: string, y: string, b: string)
    requires x + a == y + b && |x| < |y|
    ensures a != "" && a[0] == y[|x|]
  {
    assert (x + a)[|x|] == (y + b)[|x|];
  }

  lemma {:induction false} DigitsPin(x: string, y: string, a: string, b: string)
    requires AllDigits(x) && AllDigits(y) && Stops(a) && Stops(b)
    requires x + a == y + b
    ensures x == y && a == b
  {
    if |x| < |y| {
      LongerReads(x, a, y, b);
    } else if |y| < |x| {
      LongerReads(y, b, x, a);
    } else {
      assert x == (x + a)[..|x|] && y == (y + b)[..|y|];
      TailsAgree(x, a, b);
    }
  }

  lemma {:induction false} SignPins(m: int, n: int, a: string, b: string)
    requires IntText(m) + a == IntText(n) + b
    ensures (m < 0) == (n < 0)
    ensures m < 0 ==> Decimal(-m) + a == Decimal(-n) + b
  {
    hide Decimal, IntText;
    SignShows(m, a);
    SignShows(n, b);
  }

  lemma {:induction false} SignShows(m: int, a: string)
    ensures IntText(m) + a != "" && ((IntText(m) + a)[0] == '-' <==> m < 0)
    ensures m < 0 ==> (IntText(m) + a)[1..] == Decimal(-m) + a
  {
    hide Decimal;
  }

  lemma {:induction false} NumberPins(m: int, n: int, a: string, b: string)
    requires Stops(a) && Stops(b) && IntText(m) + a == IntText(n) + b
    ensures m == n && a == b
  {
    hide Decimal;
    SignPins(m, n, a, b);
    var x, y := if m < 0 then -m else m, if n < 0 then -n else n;
    DigitsPin(Decimal(x), Decimal(y), a, b);
    DecimalIsInjective(x, y);
  }

  // ----- A value's first character says what kind it is

  function Kind(c: char): nat {
    if c == 'n' then 0 else if c in {'t', 'f'} then 1 else if c == '-' || IsDigit(c) then 2
    else if c == QUOTE then 3 else if c == '[' then 4 else if c == '{' then 5 else 6
  }

  lemma {:induction false} FirstSaysKind(v: Value)
    ensures Canon(v) != ""
    ensures Kind(Canon(v)[0]) ==
            match v case Null => 0 case Bool(_) => 1 case Num(_) => 2 case Str(_) => 3 case Arr(_) => 4 case Obj(_) => 5
  {
    hide Decimal, Escaped, CanonItems, CanonMembers, Sorted;
  }

  // ----- The text pins the value

  /** Two values whose texts agree as far as they go are the same value. */
  lemma {:induction false} CanonPins(v: Value, w: Value, a: string, b: string)
    requires WellFormed(v) && WellFormed(w) && Stops(a) && Stops(b)
    requires Canon(v) + a == Canon(w) + b
    ensures Same(v, w) && a == b
    decreases v, 2, 0
  {
    hide CanonItems, CanonMembers, JsonStr, IntText;
    FirstSaysKind(v);
    FirstSaysKind(w);
    assert Canon(v)[0] == (Canon(v) + a)[0] == (Canon(w) + b)[0] == Canon(w)[0];
    match (v, w)
    case (Null, Null) => TailsAgree("null", a, b);
    case (Bool(x), Bool(y)) =>
      TailsAgree(if x then "true" else "false", a, b);
    case (Num(m), Num(n)) => NumberPins(m, n, a, b);
    case (Str(s), Str(t)) => StrPins(s, t, a, b);
    case (Arr(items), Arr(others)) =>
      var x, y := CanonItems(v, items) + ([']'] + a), CanonItems(w, others) + ([']'] + b);
      assert Canon(v) + a == ['['] + x && Canon(w) + b == ['['] + y;
      assert x == (['['] + x)[1..] && y == (['['] + y)[1..];
      ItemsPin(v, items, w, others, a, b);
    case (Obj(members), Obj(others)) =>
      var ms, ns := Sorted(members), Sorted(others);
      var x, y := CanonMembers(v, ms) + (['}'] + a), CanonMembers(w, ns) + (['}'] + b);
      assert Canon(v) + a == ['{'] + x && Canon(w) + b == ['{'] + y;
      assert x == (['{'] + x)[1..] && y == (['{'] + y)[1..];
      MembersPin(v, ms, w, ns, a, b);
      SortedPairsAreSame(v, w);
  }

  lemma {:induction false} TailsAgree(t: string, a: string, b: string)
    requires t + a == t + b
    ensures a == b
  {
    assert a == (t + a)[|t|..] && b == (t + b)[|t|..];
  }

  /** What follows the first item, or member, in its list's text. */
  function After(one: bool, rest: string, close: char, a: string): string {
    (if one then "" else [','] + rest) + ([close] + a)
  }

  lemma {:induction false} AfterPins(
      one: bool, rest: string, one': bool, rest': string, close: char, a: string, b: string)
    requires close != ',' && After(one, rest, close, a) == After(one', rest', close, b)
    ensures one == one'
    ensures one ==> a == b
    ensures !one ==> rest + ([close] + a) == rest' + ([close] + b)
  {
    hide After;
    AfterStarts(one, rest, close, a);
    AfterStarts(one', rest', close, b);
  }

  lemma {:induction false} AfterStarts(one: bool, rest: string, close: char, a: string)
    ensures var x := After(one, rest, close, a);
            x != "" && x[0] == (if one then close else ',') && x[1..] == (if one then a else rest + ([close] + a))
  {
  }

  lemma {:induction false} ItemsText(v: Value, items: seq<Value>, a: string)
    requires v.Arr? && forall x :: x in items ==> x in v.items
    ensures CanonItems(v, items) + ([']'] + a) ==
            if items == [] then [']'] + a
            else Canon(items[0]) + After(|items| == 1, CanonItems(v, items[1..]), ']', a)
  {
  }

  lemma {:induction false} ItemsPin(v: Value, items: seq<Value>, w: Value, others: seq<Value>, a: string, b: string)
    requires v.Arr? && w.Arr? && WellFormed(v) && WellFormed(w)
    requires forall x :: x in items ==> x in v.items
    requires forall x :: x in others ==> x in w.items
    requires CanonItems(v, items) + ([']'] + a) == CanonItems(w, others) + ([']'] + b)
    ensures |items| == |others| && forall i :: 0 <= i < |items| ==> Same(items[i], others[i])
    ensures a == b
    decreases v, 1, |items|
  {
    hide Canon, CanonItems, Same, After;
    ItemsText(v, items, a);
    ItemsText(w, others, b);
    EmptyOrNot(items, others, CanonItems(v, items) + ([']'] + a), CanonItems(w, others) + ([']'] + b));
    if items == [] {
      assert a == ([']'] + a)[1..] && b == ([']'] + b)[1..];
    } else {
      var x := After(|items| == 1, CanonItems(v, items[1..]), ']', a);
      var y := After(|others| == 1, CanonItems(w, others[1..]), ']', b);
      ItemIsBelow(v, items[0]);
      ItemIsWellFormed(v, items[0]);
      ItemIsWellFormed(w, others[0]);
      AfterStops(|items| == 1, CanonItems(v, items[1..]), ']', a);
      AfterStops(|others| == 1, CanonItems(w, others[1..]), ']', b);
      CanonPins(items[0], others[0], x, y);
      AfterPins(|items| == 1, CanonItems(v, items[1..]), |others| == 1, CanonItems(w, others[1..]), ']', a, b);
      if |items| > 1 {
        ItemsPin(v, items[1..], w, others[1..], a, b);
        assert forall i :: 0 < i < |items| ==> items[i] == items[1..][i - 1] && others[i] == others[1..][i - 1];
      }
    }
  }

  lemma {:induction false} AfterStops(one: bool, rest: string, close: char, a: string)
    requires close in {']', '}'}
    ensures Stops(After(one, rest, close, a))
  {
  }

  /** An item's text never starts as the closing bracket does. */
  lemma {:induction false} EmptyOrNot(items: seq<Value>, others: seq<Value>, x: string, y: string)
    requires x == y && x != ""
    requires items == [] ==> x[0] == ']'
    requires others == [] ==> y[0] == ']'
    requires items != [] ==> Canon(items[0]) <= x
    requires others != [] ==> Canon(others[0]) <= y
    ensures items == [] <==> others == []
  {
    hide Canon;
    if items != [] { FirstSaysKind(items[0]); }
    if others != [] { FirstSaysKind(others[0]); }
  }

  lemma {:induction false} ItemIsWellFormed(v: Value, x: Value)
    requires v.Arr? && WellFormed(v) && x in v.items
    ensures WellFormed(x)
  {
  }

  lemma {:induction false} MemberIsWellFormed(v: Value, m: Member)
    requires v.Obj? && WellFormed(v) && m in v.members
    ensures WellFormed(m.value)
  {
  }

  lemma {:induction false} MembersText(v: Value, members: seq<Member>, a: string)
    requires v.Obj? && forall x :: x in members ==> x in v.members
    ensures CanonMembers(v, members) + (['}'] + a) ==
            if members == [] then ['}'] + a
            else JsonStr(members[0].name) + ([':'] + (Canon(members[0].value) +
                   After(|members| == 1, CanonMembers(v, members[1..]), '}', a)))
  {
    hide Canon, JsonStr;
  }

  lemma {:induction false} MembersPin(
      v: Value, members: seq<Member>, w: Value, others: seq<Member>, a: string, b: string)
    requires v.Obj? && w.Obj? && WellFormed(v) && WellFormed(w)
    requires forall x :: x in members ==> x in v.members
    requires forall x :: x in others ==> x in w.members
    requires CanonMembers(v, members) + (['}'] + a) == CanonMembers(w, others) + (['}'] + b)
    ensures |members| == |others|
    ensures forall i :: 0 <= i < |members| ==> Paired(members[i], others, i)
    ensures a == b
    decreases v, 1, |members|
  {
    hide Canon, CanonMembers, Same, After, JsonStr, WellFormed, Paired;
    MembersStart(v, members, a);
    MembersStart(w, others, b);
    if members == [] {
      TailsAgree(['}'], a, b);
    } else {
      MembersText(v, members, a);
      MembersText(w, others, b);
      var x := After(|members| == 1, CanonMembers(v, members[1..]), '}', a);
      var y := After(|others| == 1, CanonMembers(w, others[1..]), '}', b);
      var s, t := Canon(members[0].value) + x, Canon(others[0].value) + y;
      StrPins(members[0].name, others[0].name, [':'] + s, [':'] + t);
      assert s == ([':'] + s)[1..] && t == ([':'] + t)[1..];
      MemberIsBelow(v, members[0]);
      MemberIsWellFormed(v, members[0]);
      MemberIsWellFormed(w, others[0]);
      AfterStops(|members| == 1, CanonMembers(v, members[1..]), '}', a);
      AfterStops(|others| == 1, CanonMembers(w, others[1..]), '}', b);
      CanonPins(members[0].value, others[0].value, x, y);
      AfterPins(|members| == 1, CanonMembers(v, members[1..]), |others| == 1, CanonMembers(w, others[1..]), '}', a, b);
      if |members| > 1 { MembersPin(v, members[1..], w, others[1..], a, b); }
      PairedAt(members[0], others, 0);
      PairedOnward(members, others);
    }
  }

  lemma {:induction false} MembersStart(v: Value, members: seq<Member>, a: string)
    requires v.Obj? && forall x :: x in members ==> x in v.members
    ensures var text := CanonMembers(v, members) + (['}'] + a);
            text != "" && (members == [] <==> text[0] == '}') && (members == [] ==> text == ['}'] + a)
  {
    hide CanonMembers, Canon, After, JsonStr;
    MembersText(v, members, a);
    if members != [] { StrStarts(members[0].name); }
  }

  lemma {:induction false} PairedOnward(members: seq<Member>, others: seq<Member>)
    requires |members| == |others| > 0
    requires forall i :: 0 <= i < |members| - 1 ==> Paired(members[1..][i], others[1..], i)
    ensures forall i :: 0 < i < |members| ==> Paired(members[i], others, i)
  {
    hide Same;
    forall i | 0 < i < |members| ensures Paired(members[i], others, i) {
      assert Paired(members[1..][i - 1], others[1..], i - 1);
    }
  }

  lemma {:induction false} StrStarts(s: string)
    ensures JsonStr(s) != "" && JsonStr(s)[0] == QUOTE
  {
  }

  lemma {:induction false} SortedPairsAreSame(v: Value, w: Value)
    requires v.Obj? && w.Obj?
    requires var ms, ns := Sorted(v.members), Sorted(w.members);
             |ms| == |ns| && forall i :: 0 <= i < |ms| ==> Paired(ms[i], ns, i)
    ensures Same(v, w)
  {
    hide Sorted;
    var ms, ns := Sorted(v.members), Sorted(w.members);
    forall i | 0 <= i < |v.members| ensures HasPair(v.members[i], w.members) {
      assert v.members[i] in ms;
      var k :| 0 <= k < |ms| && ms[k] == v.members[i];
      assert Paired(ms[k], ns, k) && ns[k] in w.members;
      var j :| 0 <= j < |w.members| && w.members[j] == ns[k];
    }
    forall j | 0 <= j < |w.members| ensures Named(w.members[j].name, v.members) {
      assert w.members[j] in ns;
      var k :| 0 <= k < |ns| && ns[k] == w.members[j];
      assert Paired(ms[k], ns, k) && ms[k] in v.members;
    }
  }

  // ----- The value pins the text

  /** Insertion order does not show: the same value has one text. */
  lemma {:induction false} SameTextForSame(v: Value, w: Value)
    requires WellFormed(v) && WellFormed(w) && Same(v, w)
    ensures Canon(v) == Canon(w)
    decreases v, 2, 0
  {
    hide CanonItems, CanonMembers, JsonStr, IntText, Sorted;
    match (v, w)
    case (Arr(items), Arr(others)) => SameItems(v, items, w, others);
    case (Obj(members), Obj(others)) =>
      SameMembersSorted(v, w);
      MembersSameText(v, Sorted(members), w, Sorted(others));
    case _ =>
  }

  lemma {:induction false} SameItems(v: Value, items: seq<Value>, w: Value, others: seq<Value>)
    requires v.Arr? && w.Arr? && WellFormed(v) && WellFormed(w)
    requires forall x :: x in items ==> x in v.items
    requires forall x :: x in others ==> x in w.items
    requires |items| == |others| && forall i :: 0 <= i < |items| ==> Same(items[i], others[i])
    ensures CanonItems(v, items) == CanonItems(w, others)
    decreases v, 1, |items|
  {
    hide Canon, Same;
    if items != [] {
      ItemIsBelow(v, items[0]);
      ItemIsWellFormed(v, items[0]);
      ItemIsWellFormed(w, others[0]);
      SameTextForSame(items[0], others[0]);
      SameItems(v, items[1..], w, others[1..]);
    }
  }

  /** The same object's members, sorted, stand side by side: put each of the
    * other's in the place of the one it is paired with, and they are in order. */
  lemma {:induction false} SameMembersSorted(v: Value, w: Value)
    requires v.Obj? && w.Obj? && WellFormed(v) && WellFormed(w) && Same(v, w)
    ensures var ms, ns := Sorted(v.members), Sorted(w.members);
            |ms| == |ns| && forall i :: 0 <= i < |ms| ==> Paired(ms[i], ns, i)
  {
    hide Sorted;
    var ms, ns := Sorted(v.members), Sorted(w.members);
    var placed := InPlace(v, w, ms);
    SortedAscends(v.members);
    SortedAscends(w.members);
    forall x | x in ns ensures x in placed { IsPlaced(v, w, ms, placed, x); }
    hide *;
    AscendingIsUnique(placed, ns);
    forall i | 0 <= i < |ms| ensures Paired(ms[i], ns, i) {
      PairedAt(ms[i], ns, i);
    }
  }

  lemma {:induction false} PairedAt(m: Member, ns: seq<Member>, i: nat)
    requires i < |ns| && m.name == ns[i].name && Same(m.value, ns[i].value)
    ensures Paired(m, ns, i)
  {
    hide Same;
  }

  /** Every member of `w` is one that some member of `v` is paired with. */
  lemma {:induction false} IsPlaced(v: Value, w: Value, ms: seq<Member>, placed: seq<Member>, x: Member)
    requires v.Obj? && w.Obj? && Distinct(w.members) && Same(v, w) && x in w.members
    requires forall y :: y in v.members ==> y in ms
    requires |placed| == |ms| && forall i :: 0 <= i < |ms| ==> placed[i] in w.members && placed[i].name == ms[i].name
    ensures x in placed
  {
    var j :| 0 <= j < |w.members| && w.members[j] == x;
    assert Named(w.members[j].name, v.members);
    var i :| 0 <= i < |v.members| && v.members[i].name == x.name;
    assert v.members[i] in ms;
    var k :| 0 <= k < |ms| && ms[k] == v.members[i];
    var l :| 0 <= l < |w.members| && w.members[l] == placed[k];
    assert placed[k] == x;
  }

  /** The member of `w` each of `ms`, members of `v`, is paired with. */
  lemma {:induction false} InPlace(v: Value, w: Value, ms: seq<Member>) returns (placed: seq<Member>)
    requires v.Obj? && w.Obj? && Same(v, w)
    requires forall x :: x in ms ==> x in v.members
    ensures |placed| == |ms|
    ensures forall i :: 0 <= i < |ms| ==>
              placed[i] in w.members && placed[i].name == ms[i].name && Same(ms[i].value, placed[i].value)
  {
    placed := [];
    for k := 0 to |ms|
      invariant |placed| == k
      invariant forall i :: 0 <= i < k ==>
                  placed[i] in w.members && placed[i].name == ms[i].name && Same(ms[i].value, placed[i].value)
    {
      assert ms[k] in v.members;
      var i :| 0 <= i < |v.members| && v.members[i] == ms[k];
      var j :| 0 <= j < |w.members| && ms[k].name == w.members[j].name && Same(ms[k].value, w.members[j].value);
      placed := placed + [w.members[j]];
    }
  }

  lemma {:induction false} MembersSameText(v: Value, members: seq<Member>, w: Value, others: seq<Member>)
    requires v.Obj? && w.Obj? && WellFormed(v) && WellFormed(w)
    requires forall x :: x in members ==> x in v.members
    requires forall x :: x in others ==> x in w.members
    requires |members| == |others| && forall i :: 0 <= i < |members| ==> Paired(members[i], others, i)
    ensures CanonMembers(v, members) == CanonMembers(w, others)
    decreases v, 1, |members|
  {
    hide Canon, Same, JsonStr;
    if members != [] {
      assert Paired(members[0], others, 0);
      MemberIsBelow(v, members[0]);
      MemberIsWellFormed(v, members[0]);
      MemberIsWellFormed(w, others[0]);
      SameTextForSame(members[0].value, others[0].value);
      forall i | 0 <= i < |members[1..]| ensures Paired(members[1..][i], others[1..], i) {
        assert Paired(members[i + 1], others, i + 1);
      }
      MembersSameText(v, members[1..], w, others[1..]);
    }
  }

  /** The canonical text is the value: equal exactly when the values are the same. */
  lemma {:induction false} CanonIsTheValue(v: Value, w: Value)
    requires WellFormed(v) && WellFormed(w)
    ensures Canon(v) == Canon(w) <==> Same(v, w)
  {
    if Canon(v) == Canon(w) {
      assert Canon(v) + "" == Canon(w) + "";
      CanonPins(v, w, "", "");
    }
    if Same(v, w) {
      SameTextForSame(v, w);
    }
  }

  // ----- The separator never shows

  /** No control character stands in a canonical text. */
  lemma {:induction false} CanonIsPlain(v: Value)
    ensures forall i :: 0 <= i < |Canon(v)| ==> Canon(v)[i] >= 32 as char
    decreases v, 2, 0
  {
    hide CanonItems, CanonMembers, Sorted;
    match v
    case Str(s) => EscapedIsPlain(s);
    case Arr(items) => ItemsArePlain(v, items);
    case Obj(members) => MembersArePlain(v, Sorted(members));
    case _ =>
  }

  lemma {:induction false} EscapedIsPlain(s: string)
    ensures forall i :: 0 <= i < |Escaped(s)| ==> Escaped(s)[i] >= 32 as char
  {
    if s != "" {
      EscapedIsPlain(s[1..]);
    }
  }

  lemma {:induction false} ItemsArePlain(v: Value, items: seq<Value>)
    requires v.Arr? && forall x :: x in items ==> x in v.items
    ensures forall i :: 0 <= i < |CanonItems(v, items)| ==> CanonItems(v, items)[i] >= 32 as char
    decreases v, 1, |items|
  {
    hide Canon;
    if items != [] {
      ItemIsBelow(v, items[0]);
      CanonIsPlain(items[0]);
      ItemsArePlain(v, items[1..]);
    }
  }

  lemma {:induction false} MembersArePlain(v: Value, members: seq<Member>)
    requires v.Obj? && forall x :: x in members ==> x in v.members
    ensures forall i :: 0 <= i < |CanonMembers(v, members)| ==> CanonMembers(v, members)[i] >= 32 as char
    decreases v, 1, |members|
  {
    hide Canon, Escaped;
    if members != [] {
      MemberIsBelow(v, members[0]);
      EscapedIsPlain(members[0].name);
      CanonIsPlain(members[0].value);
      MembersArePlain(v, members[1..]);
    }
  }

  // ----- The writer

  /** What is left to write of a list from its `i`th entry on. */
  function Left(i: nat, rest: string, count: nat): string {
    if i == count then "" else (if i > 0 then [','] else "") + rest
  }

  lemma {:induction false} LeftStep(r: string, i: nat, count: nat, here: string, rest: string)
    requires i < count
    ensures r + Left(i, here + Left(i + 1, rest, count), count) ==
            (if i > 0 then r + [','] else r) + here + Left(i + 1, rest, count)
  {
    hide Left;
    assert Left(i, here + Left(i + 1, rest, count), count) == (if i > 0 then [','] else "") + here +
      Left(i + 1, rest, count) by {
      LeftOf(i, here + Left(i + 1, rest, count), count);
    }
  }

  lemma {:induction false} LeftOf(i: nat, rest: string, count: nat)
    requires i < count
    ensures Left(i, rest, count) == (if i > 0 then [','] else "") + rest
  {
  }

  lemma {:induction false} LeftEnds(r: string, rest: string, count: nat)
    ensures r + Left(count, rest, count) == r
    ensures r + Left(0, rest, count) == if count == 0 then r else r + rest
  {
  }

  /** `value`'s canonical text, added to the buffer. */
  method WriteCanonical(v: Value, out: string) returns (r: string)
    ensures r == out + Canon(v)
    decreases v, 1
  {
    hide Canon, CanonItems, CanonMembers, JsonStr, IntText, Sorted;
    CanonText(v);
    match v
    case Arr(items) =>
      r := WriteItems(v, out + ['[']);
      r := r + [']'];
      assert r == out + (['['] + CanonItems(v, items) + [']']);
    case Obj(members) =>
      r := WriteMembers(v, Sorted(members), out + ['{']);
      r := r + ['}'];
      assert r == out + (['{'] + CanonMembers(v, Sorted(members)) + ['}']);
    case _ =>
      r := out + Scalar(v);
  }

  method WriteItems(v: Value, out: string) returns (r: string)
    requires v.Arr?
    ensures r == out + CanonItems(v, v.items)
    decreases v, 0
  {
    hide Canon, CanonItems, Left;
    CanonText(v);
    var items := v.items;
    r := out;
    LeftEnds(out, CanonItems(v, items), |items|);
    for i := 0 to |items|
      invariant r + Left(i, CanonItems(v, items[i..]), |items|) == out + CanonItems(v, items)
    {
      NextItem(v, items, i);
      LeftStep(r, i, |items|, Canon(items[i]), CanonItems(v, items[i + 1..]));
      if i > 0 { r := r + [',']; }
      ItemIsBelow(v, items[i]);
      r := WriteCanonical(items[i], r);
    }
    LeftEnds(r, CanonItems(v, items[|items|..]), |items|);
  }

  method WriteMembers(v: Value, sorted: seq<Member>, out: string) returns (r: string)
    requires v.Obj? && sorted == Sorted(v.members)
    ensures r == out + CanonMembers(v, sorted)
    decreases v, 0
  {
    hide Canon, CanonMembers, Sorted, JsonStr, Left;
    CanonText(v);
    r := out;
    LeftEnds(out, CanonMembers(v, sorted), |sorted|);
    for i := 0 to |sorted|
      invariant r + Left(i, CanonMembers(v, sorted[i..]), |sorted|) == out + CanonMembers(v, sorted)
    {
      NextMember(v, sorted, i);
      LeftStep(
        r, i, |sorted|, JsonStr(sorted[i].name) + [':'] + Canon(sorted[i].value), CanonMembers(v, sorted[i + 1..]));
      if i > 0 { r := r + [',']; }
      ghost var before := r;
      r := r + JsonStr(sorted[i].name) + [':'];
      MemberIsBelow(v, sorted[i]);
      r := WriteCanonical(sorted[i].value, r);
      assert r == before + (JsonStr(sorted[i].name) + [':'] + Canon(sorted[i].value));
    }
    LeftEnds(r, CanonMembers(v, sorted[|sorted|..]), |sorted|);
  }

  function Scalar(v: Value): string
    requires !v.Arr? && !v.Obj?
  {
    match v
    case Null => "null"
    case Bool(b) => if b then "true" else "false"
    case Num(n) => IntText(n)
    case Str(s) => JsonStr(s)
  }

  lemma {:induction false} CanonText(v: Value)
    ensures v.Arr? ==>
              && v.items[0..] == v.items
              && Canon(v) == ['['] + CanonItems(v, v.items) + [']']
              && (v.items == [] ==> CanonItems(v, v.items) == "")
    ensures v.Obj? ==>
              && Sorted(v.members)[0..] == Sorted(v.members)
              && Canon(v) == ['{'] + CanonMembers(v, Sorted(v.members)) + ['}']
              && (v.members == [] ==> CanonMembers(v, Sorted(v.members)) == "")
    ensures !v.Arr? && !v.Obj? ==> Canon(v) == Scalar(v)
  {
  }

  lemma {:induction false} NextItem(v: Value, items: seq<Value>, i: nat)
    requires v.Arr? && i < |items| && forall x :: x in items ==> x in v.items
    ensures CanonItems(v, items[i..]) == Canon(items[i]) + Left(i + 1, CanonItems(v, items[i + 1..]), |items|)
  {
    hide Canon;
    assert items[i..][1..] == items[i + 1..];
  }

  lemma {:induction false} NextMember(v: Value, ms: seq<Member>, i: nat)
    requires v.Obj? && i < |ms| && forall x :: x in ms ==> x in v.members
    ensures CanonMembers(v, ms[i..]) ==
            JsonStr(ms[i].name) + [':'] + Canon(ms[i].value) + Left(i + 1, CanonMembers(v, ms[i + 1..]), |ms|)
  {
    hide Canon, JsonStr;
    assert ms[i..][1..] == ms[i + 1..];
  }

  // ----- What the text is, piece by piece

  /** The literals, and integers. */
  lemma {:induction false} ScalarTexts(n: int)
    ensures Canon(Null) == "null" && Canon(Bool(true)) == "true" && Canon(Bool(false)) == "false"
    ensures Canon(Num(n)) == if n < 0 then "-" + Decimal(-n) else Decimal(n)
  {
  }

  const HEX_DIGITS: string := "0123456789abcdef"

  /** A character in a string, as section 7 of RFC 8259 has it: the two-character escapes
    * where there are any, and small hexadecimal digits where not. */
  lemma {:induction false} EscapeIs(c: char)
    ensures Escape(c) ==
            if c == '"' then "\\\"" else if c == '\\' then "\\\\"
            else if c == '\U{0008}' then "\\b" else if c == '\t' then "\\t" else if c == '\n' then "\\n"
            else if c == '\U{000C}' then "\\f" else if c == '\r' then "\\r"
            else if c as int < 32 then "\\u00" + [HEX_DIGITS[c as int / 16], HEX_DIGITS[c as int % 16]]
            else [c]
  {
    if c as int < 32 { HexIs(c as int / 16); HexIs(c as int % 16); }
  }

  lemma {:induction false} HexIs(d: nat)
    requires d < 16
    ensures Hex(d) == HEX_DIGITS[d]
  {
    assert HEX_DIGITS == ['0', '1', '2', '3', '4', '5', '6', '7', '8', '9', 'a', 'b', 'c', 'd', 'e', 'f'];
  }

  /** A string goes character by character, between quotes. */
  lemma {:induction false} EscapedConcat(a: string, b: string)
    ensures Escaped(a + b) == Escaped(a) + Escaped(b)
  {
    hide Escape;
    if a == "" {
      assert a + b == b;
    } else {
      assert (a + b)[1..] == a[1..] + b;
      EscapedConcat(a[1..], b);
    }
  }

  lemma {:induction false} StringText(s: string, c: char)
    ensures Canon(Str(s)) == "\"" + Escaped(s) + "\"" && Escaped([c]) == Escape(c) && Escaped("") == ""
  {
    hide Escape;
    assert [c][1..] == "";
  }

  /** Texts with a comma between each two. */
  function Commas(texts: seq<string>): string {
    if texts == [] then ""
    else if |texts| == 1 then texts[0]
    else texts[0] + "," + Commas(texts[1..])
  }

  lemma {:induction false} ArrayText(items: seq<Value>, texts: seq<string>)
    requires |texts| == |items| && forall i :: 0 <= i < |items| ==> texts[i] == Canon(items[i])
    ensures Canon(Arr(items)) == "[" + Commas(texts) + "]"
  {
    ItemsAreCommas(Arr(items), items, texts);
  }

  lemma {:induction false} ItemsAreCommas(v: Value, items: seq<Value>, texts: seq<string>)
    requires v.Arr? && forall x :: x in items ==> x in v.items
    requires |texts| == |items| && forall i :: 0 <= i < |items| ==> texts[i] == Canon(items[i])
    ensures CanonItems(v, items) == Commas(texts)
    decreases |items|
  {
    hide Canon;
    if items != [] { ItemsAreCommas(v, items[1..], texts[1..]); }
  }

  /** An object's members go in the order of their names, whatever order they have. */
  lemma {:induction false} ObjectText(members: seq<Member>, inOrder: seq<Member>, texts: seq<string>)
    requires Distinct(members) && Ascending(inOrder) && forall m :: m in members <==> m in inOrder
    requires |texts| == |inOrder|
    requires forall i :: 0 <= i < |inOrder| ==> texts[i] == JsonStr(inOrder[i].name) + ":" + Canon(inOrder[i].value)
    ensures Canon(Obj(members)) == "{" + Commas(texts) + "}"
  {
    hide Canon, CanonMembers, JsonStr, Commas;
    SortedAscends(members);
    AscendingIsUnique(Sorted(members), inOrder);
    MembersAreCommas(Obj(members), inOrder, texts);
    CanonText(Obj(members));
  }

  lemma {:induction false} MembersAreCommas(v: Value, members: seq<Member>, texts: seq<string>)
    requires v.Obj? && forall x :: x in members ==> x in v.members
    requires |texts| == |members|
    requires forall i :: 0 <= i < |members| ==> texts[i] == JsonStr(members[i].name) + ":" + Canon(members[i].value)
    ensures CanonMembers(v, members) == Commas(texts)
    decreases |members|
  {
    hide Canon, JsonStr;
    if members != [] {
      MembersAreCommas(v, members[1..], texts[1..]);
    }
  }
}
