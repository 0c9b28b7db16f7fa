/** UTF-8: the encoding of a text, and the strict decoding of bytes. */
module Utf8 {
  import opened Wrappers
  import opened LogLines

  function EncodeChar(c: char): (b: seq<Byte>)
    ensures 1 <= |b| <= 4
  {
    var u := c as int;
    if u < 0x80 then [u]
    else if u < 0x800 then [0xC0 + u / 64, 0x80 + u % 64]
    else if u < 0x10000 then [0xE0 + u / 4096, 0x80 + u / 64 % 64, 0x80 + u % 64]
    else [0xF0 + u / 262144, 0x80 + u / 4096 % 64, 0x80 + u / 64 % 64, 0x80 + u % 64]
  }

  function Encode(s: string): seq<Byte> {
    if s == "" then [] else EncodeChar(s[0]) + Encode(s[1..])
  }

  predicate Continues(b: Byte) { 0x80 <= b < 0xC0 }

  /** How many bytes a character that starts with `b` takes; 0 when none does. */
  function Width(b: Byte): (n: nat)
    ensures n <= 4
  {
    if b < 0x80 then 1
    else if 0xC0 <= b < 0xE0 then 2
    else if 0xE0 <= b < 0xF0 then 3
    else if 0xF0 <= b < 0xF8 then 4
    else 0
  }

  /** The `n` bytes of a character are there, and all but the first continue it. */
  predicate Whole(b: seq<Byte>, n: nat) {
    && n <= |b|
    && (n > 1 ==> Continues(b[1]))
    && (n > 2 ==> Continues(b[2]))
    && (n > 3 ==> Continues(b[3]))
  }

  /** The code point `n` bytes spell. */
  function Spelled(b: seq<Byte>, n: nat): int
    requires 1 <= n <= 4 && n <= |b|
  {
    match n
    case 1 => b[0] as int
    case 2 => (b[0] as int - 0xC0) * 64 + (b[1] as int - 0x80)
    case 3 => (b[0] as int - 0xE0) * 4096 + (b[1] as int - 0x80) * 64 + (b[2] as int - 0x80)
    case _ =>
      (b[0] as int - 0xF0) * 262144 + (b[1] as int - 0x80) * 4096 + (b[2] as int - 0x80) * 64 + (b[3] as int - 0x80)
  }

  /** A code point that is a scalar value, and takes `n` bytes and no fewer. */
  predicate Proper(u: int, n: nat) {
    && (if n == 2 then 0x80 else if n == 3 then 0x800 else if n == 4 then 0x10000 else 0) <= u < 0x110000
    && !(0xD800 <= u < 0xE000)
  }

  /** The first character of `b`. */
  function FirstChar(b: seq<Byte>): (r: Option<char>)
    requires b != []
  {
    var n := Width(b[0]);
    if n == 0 || !Whole(b, n) || !Proper(Spelled(b, n), n) then None else Some(Spelled(b, n) as char)
  }

  function Decode(b: seq<Byte>): (r: Option<string>)
    decreases |b|
  {
    if b == [] then Some("")
    else if FirstChar(b).None? then None
    else
      match Decode(b[Width(b[0])..])
      case None => None
      case Some(s) => Some([FirstChar(b).value] + s)
  }

  lemma {:induction false} CharRoundTrip(c: char, rest: seq<Byte>)
    ensures var b := EncodeChar(c) + rest;
            Width(b[0]) == |EncodeChar(c)| && FirstChar(b) == Some(c)
  {
    hide Spelled;
    CharSpelled(c, rest);
  }

  lemma {:induction false} CharSpelled(c: char, rest: seq<Byte>)
    ensures Spelled(EncodeChar(c) + rest, |EncodeChar(c)|) == c as int
  {
    var u := c as int;
    assert u / 4096 == u / 64 / 64 && u / 262144 == u / 64 / 64 / 64;
  }

  lemma {:induction false} CharIsCanonical(b: seq<Byte>)
    requires b != [] && FirstChar(b).Some?
    ensures 0 < Width(b[0]) <= |b| && b[..Width(b[0])] == EncodeChar(FirstChar(b).value)
  {
    if Width(b[0]) == 2 {
      TwoAreCanonical(b);
    } else if Width(b[0]) == 3 {
      ThreeAreCanonical(b);
    } else if Width(b[0]) == 4 {
      FourAreCanonical(b);
    }
  }

  lemma {:induction false} TwoAreCanonical(b: seq<Byte>)
    requires b != [] && Width(b[0]) == 2 && FirstChar(b).Some?
    ensures |b| >= 2 && b[..2] == EncodeChar(FirstChar(b).value)
  {
    Digits(b[0] as int - 0xC0, b[1] as int - 0x80);
  }

  lemma {:induction false} ThreeAreCanonical(b: seq<Byte>)
    requires b != [] && Width(b[0]) == 3 && FirstChar(b).Some?
    ensures |b| >= 3 && b[..3] == EncodeChar(FirstChar(b).value)
  {
    var u := Spelled(b, 3);
    var hi := (b[0] as int - 0xE0) * 64 + (b[1] as int - 0x80);
    Digits(hi, b[2] as int - 0x80);
    Digits(b[0] as int - 0xE0, b[1] as int - 0x80);
    assert u / 4096 == u / 64 / 64;
  }

  lemma {:induction false} FourAreCanonical(b: seq<Byte>)
    requires b != [] && Width(b[0]) == 4 && FirstChar(b).Some?
    ensures |b| >= 4 && b[..4] == EncodeChar(FirstChar(b).value)
  {
    var u := Spelled(b, 4);
    var top := (b[0] as int - 0xF0) * 64 + (b[1] as int - 0x80);
    var hi := top * 64 + (b[2] as int - 0x80);
    Digits(hi, b[3] as int - 0x80);
    Digits(top, b[2] as int - 0x80);
    Digits(b[0] as int - 0xF0, b[1] as int - 0x80);
    assert u / 4096 == u / 64 / 64 && u / 262144 == u / 64 / 64 / 64;
  }

  lemma {:induction false} Digits(hi: int, lo: int)
    requires 0 <= lo < 64
    ensures (hi * 64 + lo) / 64 == hi && (hi * 64 + lo) % 64 == lo
  {
  }

  lemma {:induction false} RoundTrip(s: string)
    ensures Decode(Encode(s)) == Some(s)
  {
    hide EncodeChar, FirstChar, Width;
    if s != "" {
      CharRoundTrip(s[0], Encode(s[1..]));
      RoundTrip(s[1..]);
      var b := EncodeChar(s[0]) + Encode(s[1..]);
      assert b[|EncodeChar(s[0])|..] == Encode(s[1..]);
      assert s == [s[0]] + s[1..];
    }
  }

  /** Only what the encoder writes decodes. */
  lemma {:induction false} IsCanonical(b: seq<Byte>)
    requires Decode(b).Some?
    ensures Encode(Decode(b).value) == b
    decreases |b|
  {
    hide EncodeChar, FirstChar, Width;
    if b != [] {
      CharIsCanonical(b);
      var n := Width(b[0]);
      IsCanonical(b[n..]);
      assert b == b[..n] + b[n..];
      var s := Decode(b[n..]).value;
      assert ([FirstChar(b).value] + s)[1..] == s;
    }
  }

  /** Examples of section 7 of RFC 3629. */
  lemma {:induction false} Examples()
    ensures Encode("A") == [0x41] && Encode("\U{2262}") == [0xE2, 0x89, 0xA2] && Encode("\U{0391}") == [0xCE, 0x91]
    ensures Encode("\U{233B4}") == [0xF0, 0xA3, 0x8E, 0xB4]
  {
    forall c: char ensures Encode([c]) == EncodeChar(c) { assert [c][1..] == []; }
    assert "A" == ['A'] && "\U{2262}" == ['\U{2262}'] && "\U{0391}" == ['\U{0391}'] && "\U{233B4}" == ['\U{233B4}'];
  }
}
