/** Base64 with padding (section 4 of RFC 4648), decoded strictly. */
module Base64 {
  import opened Wrappers
  import opened LogLines

  const PAD: char := '='

  /** The symbol for six bits. */
  function Symbol(n: int): (c: char)
    requires 0 <= n < 64
    ensures c as int < 128 && c != PAD && c != '?' && Value(c) == Some(n)
  {
    if n < 26 then ('A' as int + n) as char
    else if n < 52 then ('a' as int + n - 26) as char
    else if n < 62 then ('0' as int + n - 52) as char
    else if n == 62 then '+' else '/'
  }

  function Value(c: char): (r: Option<int>)
    ensures r.Some? ==> 0 <= r.value < 64
  {
    if 'A' <= c <= 'Z' then Some(c as int - 'A' as int)
    else if 'a' <= c <= 'z' then Some(c as int - 'a' as int + 26)
    else if '0' <= c <= '9' then Some(c as int - '0' as int + 52)
    else if c == '+' then Some(62)
    else if c == '/' then Some(63)
    else None
  }

  lemma {:induction false} ValueIsSymbol(c: char)
    requires Value(c).Some?
    ensures Symbol(Value(c).value) == c
  {
  }

  function Quad(a: Byte, b: Byte, c: Byte): (q: string)
    ensures |q| == 4
  {
    [Symbol(a / 4), Symbol(a % 4 * 16 + b / 16), Symbol(b % 16 * 4 + c / 64), Symbol(c % 64)]
  }

  function Encode(b: seq<Byte>): string {
    if b == [] then ""
    else if |b| == 1 then [Symbol(b[0] / 4), Symbol(b[0] % 4 * 16), PAD, PAD]
    else if |b| == 2 then [Symbol(b[0] / 4), Symbol(b[0] % 4 * 16 + b[1] / 16), Symbol(b[1] % 16 * 4), PAD]
    else Quad(b[0], b[1], b[2]) + Encode(b[3..])
  }

  /** Four symbols, none of them padding. */
  function FullQuad(t: string): (r: Option<seq<Byte>>)
    requires |t| >= 4
  {
    match (Value(t[0]), Value(t[1]), Value(t[2]), Value(t[3]))
    case (Some(w), Some(x), Some(y), Some(z)) =>
      Some([w * 4 + x / 16, x % 16 * 16 + y / 4, y % 4 * 64 + z])
    case _ => None
  }

  /** The last four symbols, where padding may stand for the last one or two, and
    * the bits it leaves over must be zero. */
  function LastQuad(t: string): Option<seq<Byte>>
    requires |t| == 4
  {
    if t[3] != PAD then FullQuad(t)
    else if t[2] != PAD then
      match (Value(t[0]), Value(t[1]), Value(t[2]))
      case (Some(w), Some(x), Some(y)) => if y % 4 == 0 then Some([w * 4 + x / 16, x % 16 * 16 + y / 4]) else None
      case _ => None
    else
      match (Value(t[0]), Value(t[1]))
      case (Some(w), Some(x)) => if x % 16 == 0 then Some([w * 4 + x / 16]) else None
      case _ => None
  }

  function Decode(t: string): Option<seq<Byte>> {
    if t == "" then Some([])
    else if |t| < 4 then None
    else if |t| == 4 then LastQuad(t)
    else
      match (FullQuad(t), Decode(t[4..]))
      case (Some(b), Some(rest)) => Some(b + rest)
      case _ => None
  }

  lemma {:induction false} QuadRoundTrip(a: Byte, b: Byte, c: Byte, rest: string)
    ensures FullQuad(Quad(a, b, c) + rest) == Some([a, b, c])
    ensures (Quad(a, b, c) + rest)[3] != PAD
  {
    hide Symbol, Value;
    Halves(a, 4);
    Halves(b, 16);
    Halves(c, 64);
    Joined(a % 4, 16, b / 16);
    Joined(b % 16, 4, c / 64);
  }

  lemma {:induction false} Halves(b: Byte, low: nat)
    requires low in {4, 16, 64}
    ensures b / low * low + b % low == b && 0 <= b / low < 256 / low
  {
  }

  lemma {:induction false} Joined(high: nat, size: nat, low: nat)
    requires size in {4, 16} && low < size
    ensures (high * size + low) / size == high && (high * size + low) % size == low
  {
  }

  lemma {:induction false} LastRoundTrip(b: seq<Byte>)
    requires 0 < |b| < 3
    ensures Decode(Encode(b)) == Some(b)
  {
    hide Symbol, Value;
    var t := Encode(b);
    if |b| == 1 {
      assert LastQuad(t) == Some([b[0]]) && b == [b[0]];
    } else {
      assert LastQuad(t) == Some([b[0], b[1]]) && b == [b[0], b[1]];
    }
  }

  lemma {:induction false} EncodeStep(b: seq<Byte>)
    requires |b| >= 3
    ensures Encode(b) == Quad(b[0], b[1], b[2]) + Encode(b[3..])
  {
    hide Quad;
  }

  lemma {:induction false} DecodeStep(t: string)
    requires |t| > 4 || (|t| == 4 && t[3] != PAD)
    ensures Decode(t) ==
            match (FullQuad(t), Decode(t[4..])) case (Some(b), Some(rest)) => Some(b + rest) case _ => None
  {
    hide FullQuad;
    if |t| == 4 {
      assert t[4..] == "";
      if FullQuad(t).Some? { assert FullQuad(t).value + [] == FullQuad(t).value; }
    }
  }

  lemma {:induction false} RoundTrip(b: seq<Byte>)
    ensures Decode(Encode(b)) == Some(b)
  {
    if 0 < |b| < 3 {
      LastRoundTrip(b);
    } else if b != [] {
      RoundTrip(b[3..]);
      QuadsRoundTrip(b);
    }
  }

  lemma {:induction false} QuadsRoundTrip(b: seq<Byte>)
    requires |b| >= 3 && Decode(Encode(b[3..])) == Some(b[3..])
    ensures Decode(Encode(b)) == Some(b)
  {
    hide Quad, FullQuad, Encode, Decode;
    var rest := Encode(b[3..]);
    var t := Quad(b[0], b[1], b[2]) + rest;
    EncodeStep(b);
    QuadRoundTrip(b[0], b[1], b[2], rest);
    assert t[4..] == rest && |t| == 4 + |rest|;
    if rest == "" { assert t[3] != PAD; }
    DecodeStep(t);
    assert b == [b[0], b[1], b[2]] + b[3..];
  }

  lemma {:induction false} FullQuadIsCanonical(t: string)
    requires |t| >= 4 && FullQuad(t).Some?
    ensures |FullQuad(t).value| == 3
    ensures var b := FullQuad(t).value; Quad(b[0], b[1], b[2]) == t[..4]
  {
    hide Symbol, Value;
    ValueIsSymbol(t[0]);
    ValueIsSymbol(t[1]);
    ValueIsSymbol(t[2]);
    ValueIsSymbol(t[3]);
  }

  lemma {:induction false} LastQuadIsCanonical(t: string)
    requires |t| == 4 && LastQuad(t).Some?
    ensures Encode(LastQuad(t).value) == t
  {
    hide Symbol, Value;
    if t[3] != PAD {
      FullQuadIsCanonical(t);
      assert Encode([]) == "";
    } else {
      ValueIsSymbol(t[0]);
      ValueIsSymbol(t[1]);
      if t[2] != PAD { ValueIsSymbol(t[2]); }
    }
  }

  /** Only what the encoder writes decodes. */
  lemma {:induction false} IsCanonical(t: string)
    requires Decode(t).Some?
    ensures Encode(Decode(t).value) == t
  {
    hide Quad, FullQuad, LastQuad;
    if |t| == 4 {
      LastQuadIsCanonical(t);
    } else if t != "" {
      FullQuadIsCanonical(t);
      IsCanonical(t[4..]);
      var b, rest := FullQuad(t).value, Decode(t[4..]).value;
      assert (b + rest)[3..] == rest;
      assert t == t[..4] + t[4..];
    }
  }

  predicate SymbolOrPad(c: char) { c == PAD || Value(c).Some? }

  /** What the encoder writes is symbols and padding. */
  lemma {:induction false} EncodeIsSymbols(b: seq<Byte>)
    ensures forall i :: 0 <= i < |Encode(b)| ==> SymbolOrPad(Encode(b)[i])
  {
    hide Value;
    if |b| >= 3 {
      EncodeIsSymbols(b[3..]);
    }
  }

  /** The test vectors of section 10 of RFC 4648, and one with its last two symbols. */
  lemma {:induction false} TestVectors()
    ensures Encode([]) == ""
    ensures Encode([102]) == "Zg==" && Encode([102, 111]) == "Zm8=" && Encode([102, 111, 111]) == "Zm9v"
    ensures Encode([251, 240]) == "+/A="
  {
    assert [102, 111, 111][3..] == [];
  }
}
