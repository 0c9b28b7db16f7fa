/** The string operations the source takes from its standard library. */
module Text {
  import opened Wrappers

  /** Where `c` first stands in `s`; `|s|` when it does not. */
  function IndexOf(s: string, c: char): (i: nat)
    ensures i <= |s| && c !in s[..i] && (i < |s| ==> s[i] == c)
    ensures forall k :: 0 <= k < i ==> s[k] != c
  {
    if s == [] || s[0] == c then 0
    else
      var i := 1 + IndexOf(s[1..], c);
      assert s[..i] == [s[0]] + s[1..][..i - 1];
      i
  }

  function SplitOnce(s: string, c: char): Option<(string, string)> {
    var i := IndexOf(s, c);
    if i == |s| then None else Some((s[..i], s[i + 1..]))
  }

  function RSplitOnce(s: string, c: char): (r: Option<(string, string)>)
    ensures r.None? <==> c !in s
    ensures r.Some? ==> s == r.value.0 + [c] + r.value.1 && c !in r.value.1
  {
    if s == [] then None
    else if s[|s| - 1] == c then Some((s[..|s| - 1], []))
    else
      match RSplitOnce(s[..|s| - 1], c)
      case None => None
      case Some((a, b)) => Some((a, b + [s[|s| - 1]]))
  }

  /** The pieces between the `c`s: one more than there are of them. */
  function Split(s: string, c: char): (pieces: seq<string>)
    decreases |s|
  {
    var i := IndexOf(s, c);
    if i == |s| then [s] else [s[..i]] + Split(s[i + 1..], c)
  }

  predicate EndsWith(s: string, last: string) {
    |last| <= |s| && s[|s| - |last|..] == last
  }

  // ----- Characters and decimal numbers

  predicate IsDigit(c: char) { '0' <= c <= '9' }

  predicate IsUpper(c: char) { 'A' <= c <= 'Z' }

  predicate IsLower(c: char) { 'a' <= c <= 'z' }

  predicate IsAlnum(c: char) { IsUpper(c) || IsLower(c) || IsDigit(c) }

  /** The text with its capitals, in ASCII, made small. */
  function Lower(text: string): (r: string)
    ensures |r| == |text|
    ensures forall i :: 0 <= i < |text| ==>
              r[i] as int == text[i] as int + if 'A' <= text[i] <= 'Z' then 'a' as int - 'A' as int else 0
  {
    seq(|text|, i requires 0 <= i < |text| => if IsUpper(text[i]) then (text[i] as int + 32) as char else text[i])
  }

  predicate AllDigits(s: string) { forall i :: 0 <= i < |s| ==> IsDigit(s[i]) }

  function Digit(d: nat): (c: char)
    requires d < 10
    ensures IsDigit(c) && c as int - '0' as int == d
  {
    ('0' as int + d) as char
  }

  /** A number in decimal, without leading zeros. */
  function Decimal(n: nat): (s: string)
    ensures s != [] && AllDigits(s)
  {
    if n < 10 then [Digit(n)] else Decimal(n / 10) + [Digit(n % 10)]
  }

  /** What a run of digits reads as. */
  function ParseDecimal(s: string): nat
    requires AllDigits(s)
  {
    if s == [] then 0 else ParseDecimal(s[..|s| - 1]) * 10 + (s[|s| - 1] as int - '0' as int)
  }

  lemma {:induction false} ParseOfDecimal(n: nat)
    ensures ParseDecimal(Decimal(n)) == n
  {
    if n >= 10 {
      ParseOfDecimal(n / 10);
      assert Decimal(n)[..|Decimal(n)| - 1] == Decimal(n / 10);
    } else {
      assert Decimal(n)[..0] == [];
    }
  }

  lemma {:induction false} DecimalIsInjective(a: nat, b: nat)
    requires Decimal(a) == Decimal(b)
    ensures a == b
  {
    ParseOfDecimal(a);
    ParseOfDecimal(b);
  }

  function IntText(n: int): string {
    if n < 0 then ['-'] + Decimal(-n) else Decimal(n)
  }

  /** The least number an `i64` holds. */
  const MIN_I64: int := -0x8000_0000_0000_0000

  /** The largest number a `u64` holds. */
  const MAX_U64: nat := 0xffff_ffff_ffff_ffff

  type U64 = n: nat | n <= MAX_U64

  type U32 = n: nat | n <= 0xffff_ffff

  /** Reading a `u64`: digits, a `+` before them or not, and no more than it holds. */
  function ParseU64(s: string): Option<nat> {
    var digits := if s != [] && s[0] == '+' then s[1..] else s;
    if digits == [] || !AllDigits(digits) || ParseDecimal(digits) > MAX_U64 then None else Some(ParseDecimal(digits))
  }

  /** It takes exactly the digits of a number that fits 64 bits, alone or after a plus. */
  lemma {:induction false} ParseU64Is(s: string, n: nat)
    ensures ParseU64(s) == Some(n) <==>
            && n <= 0xffff_ffff_ffff_ffff
            && exists digits ::
                 && (s == digits || s == "+" + digits)
                 && digits != "" && AllDigits(digits) && ParseDecimal(digits) == n
  {
    hide ParseDecimal;
    if digits :| (s == digits || s == "+" + digits) && digits != "" && AllDigits(digits) && ParseDecimal(digits) == n {
      if s == digits { assert IsDigit(s[0]); } else { assert s[1..] == digits; }
    }
    if ParseU64(s) == Some(n) && s[0] == '+' { assert s == "+" + s[1..]; }
  }

  // ----- Searching

  /** `needle` starts at `at` in `text`. */
  predicate OccursAt(text: string, needle: string, at: nat) {
    at + |needle| <= |text| && text[at..at + |needle|] == needle
  }

  /** The first start of `needle` in `text`, none before `from` being looked at. */
  function FindFrom(text: string, needle: string, from: nat): (r: Option<nat>)
    ensures r.Some? ==> from <= r.value && OccursAt(text, needle, r.value)
    ensures forall at: nat :: from <= at && OccursAt(text, needle, at) ==> r.Some? && r.value <= at
    decreases |text| - from
  {
    if from + |needle| > |text| then None
    else if text[from..from + |needle|] == needle then Some(from)
    else if from == |text| then None
    else FindFrom(text, needle, from + 1)
  }

  function Contains(text: string, needle: string): (r: bool)
    ensures r <==> exists at: nat :: OccursAt(text, needle, at)
  {
    FindFrom(text, needle, 0).Some?
  }
}
