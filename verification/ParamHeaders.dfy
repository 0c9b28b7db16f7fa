/** Arguments of a tool call repeated in headers: an annotation on the tool says which,
  * the client sends them, and the server compares them with the body. */
module ParamHeaders {
  import opened Wrappers
  import opened Text
  import opened Json
  import opened Headers

  const PARAM_PREFIX: string := "mcp-param-"
  const ANNOTATION: string := "x-mcp-header"

  /** An annotation: the name it asks for, and the `properties` keys down to its parameter. */
  datatype ParamHeader = ParamHeader(name: string, path: seq<string>) {
    function HeaderName(): string { PARAM_PREFIX + Lower(name) }
  }

  predicate DistinctNames(annotations: seq<ParamHeader>) {
    forall i, j :: 0 <= i < j < |annotations| ==> annotations[i].HeaderName() != annotations[j].HeaderName()
  }

  // ----- A value in a header

  /** What an object holds along a chain of keys. */
  function Along(v: Value, path: seq<string>): Option<Value> {
    if path == [] then Some(v)
    else
      match Get(v, path[0])
      case None => None
      case Some(x) => Along(x, path[1..])
  }

  /** The value at an annotation's path; `null` is none. */
  function ValueIn(a: ParamHeader, arguments: Value): Option<Value> {
    match Along(arguments, a.path)
    case Some(Null) => None
    case v => v
  }

  /** The text of a value that can go out, still to be encoded. */
  function WireValue(v: Value): Option<string> {
    match v
    case Str(s) => Some(s)
    case Bool(b) => Some(if b then "true" else "false")
    case Num(n) => Some(IntText(n))
    case _ => None
  }

  /** The value at an annotation's path, when a header can carry it. */
  function Carried(a: ParamHeader, arguments: Value): (r: Option<Value>)
    ensures r.Some? ==> WireValue(r.value).Some?
  {
    match ValueIn(a, arguments)
    case None => None
    case Some(v) => if WireValue(v).Some? then Some(v) else None
  }

  function Arguments(msg: Message): Option<Value> {
    if msg.params.None? then None else Get(msg.params.value, "arguments")
  }

  /** The arguments a body has; null when it has none. */
  function BodyArguments(msg: Message): Value { Arguments(msg).GetOr(Null) }

  /** The headers a call's arguments ask for, by its tool's annotations. */
  function ParamHeaderValues(msg: Message, annotations: seq<ParamHeader>): Sent {
    if annotations == [] || msg.methodName != Some("tools/call") || ProtocolVersion(msg).None? then []
    else
      match Arguments(msg)
      case None => []
      case Some(arguments) => ValuesOf(arguments, annotations)
  }

  /** The header for a value, if one is carried. */
  function HeaderFor(a: ParamHeader, arguments: Value): Option<string> {
    match Carried(a, arguments)
    case None => None
    case Some(v) => Some(EncodeHeader(WireValue(v).value))
  }

  function ValuesOf(arguments: Value, annotations: seq<ParamHeader>): Sent {
    if annotations == [] then []
    else
      var header := HeaderFor(annotations[0], arguments);
      (if header.None? then [] else [(annotations[0].HeaderName(), header.value)]) +
        ValuesOf(arguments, annotations[1..])
  }

  // ----- Comparing

  const MAX_SAFE_INTEGER: int := 0x1f_ffff_ffff_ffff
  const MAX_I128: int := 0x7fff_ffff_ffff_ffff_ffff_ffff_ffff_ffff

  /** Reading an `i128`: digits, a sign before them or not, and in its range. */
  function ParseI128(s: string): Option<int> {
    var digits := if s != "" && s[0] in {'+', '-'} then s[1..] else s;
    if digits == "" || !AllDigits(digits) then None
    else
      var n: int := if s[0] == '-' then -(ParseDecimal(digits) as int) else ParseDecimal(digits);
      if -MAX_I128 - 1 <= n <= MAX_I128 then Some(n) else None
  }

  /** Reading a finite double: the number it stands for. */
  type Doubles = string -> Option<real>

  predicate SameNumber(double: Doubles, header: string, n: int) {
    match ParseI128(header)
    case Some(m) => n == m
    case None => -MAX_SAFE_INTEGER <= n <= MAX_SAFE_INTEGER && double(header) == Some(n as real)
  }

  /** Compares a header, decoded, with what the body holds. */
  predicate SameValue(double: Doubles, header: string, body: Value) {
    match body
    case Num(n) => SameNumber(double, header, n)
    case _ => WireValue(body) == Some(header)
  }

  /** The header and the body agree on one annotation: both carry the same value, or neither one. */
  predicate Agrees(double: Doubles, a: ParamHeader, arguments: Value, get: Getter) {
    match (Carried(a, arguments), get(a.HeaderName()))
    case (None, None) => true
    case (Some(body), Some(raw)) =>
      HeaderSafe(raw) && DecodeHeader(raw).Ok? && SameValue(double, DecodeHeader(raw).value, body)
    case _ => false
  }

  /** Reconciles a call's parameter headers with its body. */
  method ValidateParamHeaders(double: Doubles, msg: Message, get: Getter, annotations: seq<ParamHeader>)
    returns (r: Option<WireError>)
    ensures r.None? <==>
            forall i :: 0 <= i < |annotations| ==>
              MustSay(double, At(BodyArguments(msg), Down(annotations[i].path)),
                      get("mcp-param-" + Lower(annotations[i].name)))
    ensures r.Some? ==> r.value == HeaderMismatch
  {
    hide DecodeHeader, HeaderSafe, SameValue, Carried, MustSay;
    forall i | 0 <= i < |annotations|
      ensures Agrees(double, annotations[i], BodyArguments(msg), get) <==>
              MustSay(double, At(BodyArguments(msg), Down(annotations[i].path)),
                      get("mcp-param-" + Lower(annotations[i].name)))
    {
      AgreementMeans(double, annotations[i], BodyArguments(msg), get);
    }
    if annotations == [] {
      return None;
    }
    var arguments := BodyArguments(msg);
    for i := 0 to |annotations|
      invariant forall k :: 0 <= k < i ==> Agrees(double, annotations[k], arguments, get)
    {
      var a := annotations[i];
      var raw := get(a.HeaderName());
      var sent: Option<string> := None;
      if raw.Some? {
        if !HeaderSafe(raw.value) {
          return Some(HeaderMismatch);
        }
        var decoded := DecodeHeader(raw.value);
        if decoded.Err? {
          DecodeErr(_ => raw);
          return Some(decoded.error);
        }
        sent := Some(decoded.value);
      }
      var carried := Carried(a, arguments);
      if carried.Some? && sent.Some? {
        if !SameValue(double, sent.value, carried.value) {
          return Some(HeaderMismatch);
        }
      } else if carried.Some? || sent.Some? {
        return Some(HeaderMismatch);
      }
    }
    return None;
  }

  // ----- What is sent is accepted

  lemma {:induction false} IntRoundTrip(n: int)
    requires -MAX_I128 - 1 <= n <= MAX_I128
    ensures ParseI128(IntText(n)) == Some(n)
  {
    hide Decimal, ParseDecimal;
    var d := Decimal(if n < 0 then -n else n);
    ParseOfDecimal(if n < 0 then -n else n);
    assert (['-'] + d)[1..] == d;
    assert IsDigit(d[0]);
  }

  /** What goes out for a value comes back as the same value. */
  lemma {:induction false} SentIsSame(double: Doubles, v: Value)
    requires WireValue(v).Some?
    requires v.Num? ==> MIN_I64 <= v.n <= MAX_U64
    ensures var raw := EncodeHeader(WireValue(v).value);
            HeaderSafe(raw) && DecodeHeader(raw).Ok? && SameValue(double, DecodeHeader(raw).value, v)
  {
    hide EncodeHeader, DecodeHeader, HeaderSafe, ParseI128, IntText;
    CodecRoundTrip(WireValue(v).value);
    EncodingIsSafe(WireValue(v).value);
    if v.Num? { IntRoundTrip(v.n); }
  }

  lemma {:induction false} SentFor(arguments: Value, annotations: seq<ParamHeader>, i: nat)
    requires DistinctNames(annotations) && i < |annotations|
    ensures Lookup(ValuesOf(arguments, annotations), annotations[i].HeaderName()) ==
            HeaderFor(annotations[i], arguments)
  {
    hide HeaderFor, ParamHeader.HeaderName, Lookup;
    LookupFirst(arguments, annotations, annotations[i].HeaderName());
    var rest := annotations[1..];
    if i > 0 {
      assert annotations[i] == rest[i - 1];
      SentFor(arguments, rest, i - 1);
    } else {
      OthersSent(arguments, rest, annotations[0].HeaderName());
    }
  }

  lemma {:induction false} LookupFirst(arguments: Value, annotations: seq<ParamHeader>, name: string)
    requires annotations != []
    ensures Lookup(ValuesOf(arguments, annotations), name) ==
            if annotations[0].HeaderName() == name && HeaderFor(annotations[0], arguments).Some?
            then HeaderFor(annotations[0], arguments)
            else Lookup(ValuesOf(arguments, annotations[1..]), name)
  {
    hide HeaderFor, ParamHeader.HeaderName;
    var header, rest := HeaderFor(annotations[0], arguments), ValuesOf(arguments, annotations[1..]);
    if header.Some? {
      assert ([(annotations[0].HeaderName(), header.value)] + rest)[1..] == rest;
    } else {
      assert [] + rest == rest;
    }
  }

  lemma {:induction false} OthersSent(arguments: Value, annotations: seq<ParamHeader>, name: string)
    requires forall i :: 0 <= i < |annotations| ==> annotations[i].HeaderName() != name
    ensures Lookup(ValuesOf(arguments, annotations), name).None?
  {
    hide HeaderFor, ParamHeader.HeaderName;
    if annotations != [] {
      LookupFirst(arguments, annotations, name);
      OthersSent(arguments, annotations[1..], name);
    }
  }

  /** Every integer at an annotated path is one that JSON here can hold. */
  ghost predicate IntegersFit(arguments: Value, annotations: seq<ParamHeader>) {
    forall i :: 0 <= i < |annotations| ==>
      match Carried(annotations[i], arguments) case Some(Num(n)) => MIN_I64 <= n <= MAX_U64 case _ => true
  }

  /** A modern call's own parameter headers agree with its body. */
  lemma {:induction false} ParamsAreAccepted(double: Doubles, msg: Message, annotations: seq<ParamHeader>, i: nat)
    requires msg.methodName == Some("tools/call") && ProtocolVersion(msg).Some?
    requires DistinctNames(annotations) && i < |annotations|
    requires Arguments(msg).Some? ==> IntegersFit(Arguments(msg).value, annotations)
    ensures Agrees(double, annotations[i], BodyArguments(msg),
                   name => Lookup(ParamHeaderValues(msg, annotations), name))
  {
    hide EncodeHeader, DecodeHeader, HeaderSafe, SameValue, WireValue, ValuesOf;
    match Arguments(msg)
    case Some(arguments) =>
      SentFor(arguments, annotations, i);
      if Carried(annotations[i], arguments).Some? {
        SentIsSame(double, Carried(annotations[i], arguments).value);
      }
    case None =>
      NothingCarried(annotations[i]);
  }

  lemma {:induction false} NothingCarried(a: ParamHeader)
    ensures Carried(a, Null).None?
  {
  }

  // ----- What an agreement means

  /** The steps down these keys. */
  ghost function Down(path: seq<string>): (steps: Path)
    ensures |steps| == |path| && forall i :: 0 <= i < |path| ==> steps[i] == Key(path[i])
  {
    seq(|path|, i requires 0 <= i < |path| => Key(path[i]))
  }

  lemma {:induction false} AlongIsDown(v: Value, path: seq<string>)
    ensures Along(v, path) == At(v, Down(path))
  {
    hide Get;
    if path != [] {
      assert Down(path)[1..] == Down(path[1..]);
      if Get(v, path[0]).Some? { AlongIsDown(Get(v, path[0]).value, path[1..]); }
    }
  }

  /** A text that is an integer in digits, with a sign or not, and within 128 bits. */
  ghost predicate IsInt(s: string, n: int) {
    && -0x8000_0000_0000_0000_0000_0000_0000_0000 <= n <= 0x7fff_ffff_ffff_ffff_ffff_ffff_ffff_ffff
    && exists sign, digits :: SpellsInt(s, n, sign, digits)
  }

  ghost predicate SpellsInt(s: string, n: int, sign: string, digits: string) {
    && s == sign + digits && digits != "" && AllDigits(digits)
    && ((sign in {"", "+"} && n == ParseDecimal(digits)) || (sign == "-" && -n == ParseDecimal(digits)))
  }

  lemma {:induction false} ParsedIsInt(s: string, n: int)
    ensures ParseI128(s) == Some(n) <==> IsInt(s, n)
  {
    hide ParseDecimal, ParseI128, SpellsInt;
    if ParseI128(s) == Some(n) { ParsedIsSpelled(s, n); }
    if IsInt(s, n) {
      var sign, digits :| SpellsInt(s, n, sign, digits);
      SpelledIsParsed(s, n, sign, digits);
    }
  }

  lemma {:induction false} ParsedIsSpelled(s: string, n: int)
    requires ParseI128(s) == Some(n)
    ensures IsInt(s, n)
  {
    hide ParseDecimal, AllDigits;
    var signed := s[0] in {'+', '-'};
    var sign, digits := if signed then [s[0]] else "", if signed then s[1..] else s;
    assert s == sign + digits;
    assert SpellsInt(s, n, sign, digits);
  }

  lemma {:induction false} SpelledIsParsed(s: string, n: int, sign: string, digits: string)
    requires SpellsInt(s, n, sign, digits)
    requires -MAX_I128 - 1 <= n <= MAX_I128
    ensures ParseI128(s) == Some(n)
  {
    hide ParseDecimal;
    if sign == "" {
      assert s == digits && IsDigit(s[0]);
    } else {
      assert s[1..] == digits;
    }
  }

  /** A header says an integer: in digits, or as a double that is it exactly. */
  ghost predicate SaysInt(double: Doubles, raw: Option<string>, n: int) {
    && raw.Some?
    && exists text ::
         && Says(raw, text)
         && (IsInt(text, n) ||
             ((forall m :: !IsInt(text, m)) && -0x1f_ffff_ffff_ffff <= n <= 0x1f_ffff_ffff_ffff &&
              double(text) == Some(n as real)))
  }

  /** What a header must say of what the body holds at an annotation's place. */
  ghost predicate MustSay(double: Doubles, held: Option<Value>, raw: Option<string>) {
    match held
    case Some(Str(s)) => Says(raw, s)
    case Some(Bool(b)) => Says(raw, if b then "true" else "false")
    case Some(Num(n)) => SaysInt(double, raw, n)
    case _ => raw.None?
  }

  /** Header and body agree exactly when the header says the body's own string, the word
    * for its boolean, or its integer; and there is none for null, an array, an object,
    * or nothing at all. */
  lemma {:induction false} AgreementMeans(double: Doubles, a: ParamHeader, arguments: Value, get: Getter)
    ensures Agrees(double, a, arguments, get) <==>
            MustSay(double, At(arguments, Down(a.path)), get("mcp-param-" + Lower(a.name)))
  {
    hide DecodeHeader, HeaderSafe, Says, SaysInt, SameNumber, At, Along, Down, Lower;
    AlongIsDown(arguments, a.path);
    var raw := get(a.HeaderName());
    if raw.Some? && DecodeHeader(raw.value).Ok? { SaysIsRead(raw, DecodeHeader(raw.value).value); }
    match At(arguments, Down(a.path))
    case Some(Str(s)) => SaysIsRead(raw, s);
    case Some(Bool(b)) => SaysIsRead(raw, if b then "true" else "false");
    case Some(Num(n)) => NumberIsRead(double, raw, n);
    case _ =>
  }

  lemma {:induction false} NumberIsRead(double: Doubles, raw: Option<string>, n: int)
    ensures SaysInt(double, raw, n) <==>
            raw.Some? && HeaderSafe(raw.value) && DecodeHeader(raw.value).Ok? &&
            SameNumber(double, DecodeHeader(raw.value).value, n)
  {
    hide DecodeHeader, HeaderSafe, Says, IsInt, ParseI128;
    if raw.Some? && HeaderSafe(raw.value) && DecodeHeader(raw.value).Ok? {
      var text := DecodeHeader(raw.value).value;
      SaysIsRead(raw, text);
      NumberIsSame(double, text, n);
    }
    if raw.Some? {
      forall text | Says(raw, text) ensures DecodeHeader(raw.value) == Ok(text) && HeaderSafe(raw.value) {
        SaysIsRead(raw, text);
      }
    }
  }

  lemma {:induction false} NumberIsSame(double: Doubles, text: string, n: int)
    ensures SameNumber(double, text, n) <==>
            || IsInt(text, n)
            || ((forall m :: !IsInt(text, m)) && -0x1f_ffff_ffff_ffff <= n <= 0x1f_ffff_ffff_ffff &&
                double(text) == Some(n as real))
  {
    hide IsInt, ParseI128;
    forall m: int ensures ParseI128(text) == Some(m) <==> IsInt(text, m) { ParsedIsInt(text, m); }
    if ParseI128(text).Some? { assert IsInt(text, ParseI128(text).value); }
  }

  /** What goes out for what the body holds: its string, the word for its boolean, or
    * its integer in decimal, each in its encoding. */
  ghost function SentText(held: Option<Value>): Option<string> {
    match held
    case Some(Str(s)) => Some(EncodeHeader(s))
    case Some(Bool(b)) => Some(EncodeHeader(if b then "true" else "false"))
    case Some(Num(n)) => Some(EncodeHeader(IntText(n)))
    case _ => None
  }

  lemma {:induction false} HeaderForIs(a: ParamHeader, arguments: Value)
    ensures HeaderFor(a, arguments) == SentText(At(arguments, Down(a.path)))
  {
    hide EncodeHeader, At, Along, Down;
    AlongIsDown(arguments, a.path);
  }

  /** Of a call to a tool, with a version and arguments, each annotation's header goes
    * out and no other; of anything else, none. */
  lemma {:induction false} SentMeans(msg: Message, annotations: seq<ParamHeader>, name: string, value: string)
    ensures (name, value) in ParamHeaderValues(msg, annotations) <==>
            && msg.methodName == Some("tools/call") && ProtocolVersion(msg).Some?
            && msg.params.Some? && At(msg.params.value, [Key("arguments")]).Some?
            && exists i ::
                 && 0 <= i < |annotations|
                 && name == "mcp-param-" + Lower(annotations[i].name)
                 && Some(value) ==
                    SentText(At(At(msg.params.value, [Key("arguments")]).value, Down(annotations[i].path)))
  {
    hide ProtocolVersion, SentText, Down, Lower, ValuesOf, HeaderFor;
    if msg.params.Some? {
      assert [Key("arguments")][1..] == [];
      assert At(msg.params.value, [Key("arguments")]) == Get(msg.params.value, "arguments");
      if Arguments(msg).Some? {
        forall i | 0 <= i < |annotations|
          ensures HeaderFor(annotations[i], Arguments(msg).value) ==
                  SentText(At(Arguments(msg).value, Down(annotations[i].path)))
        {
          HeaderForIs(annotations[i], Arguments(msg).value);
        }
        ValuesAre(Arguments(msg).value, annotations, name, value);
      }
    }
  }

  lemma {:induction false} ValuesAre(arguments: Value, annotations: seq<ParamHeader>, name: string, value: string)
    ensures (name, value) in ValuesOf(arguments, annotations) <==>
            exists i :: 0 <= i < |annotations| && name == annotations[i].HeaderName() &&
                        HeaderFor(annotations[i], arguments) == Some(value)
  {
    hide HeaderFor, ParamHeader.HeaderName;
    if annotations != [] {
      ValuesAre(arguments, annotations[1..], name, value);
      if i :| 0 <= i < |annotations| && name == annotations[i].HeaderName() &&
              HeaderFor(annotations[i], arguments) == Some(value) {
        assert i > 0 ==> annotations[i] == annotations[1..][i - 1];
      }
      if i :| 0 <= i < |annotations[1..]| && name == annotations[1..][i].HeaderName() &&
              HeaderFor(annotations[1..][i], arguments) == Some(value) {
        assert annotations[1..][i] == annotations[i + 1];
      }
    }
  }

  /** An integer in decimal: no sign but a minus, and no zero before other digits. */
  lemma {:induction false} IntTextIsPlain(n: int)
    ensures var digits := if n < 0 then IntText(n)[1..] else IntText(n);
            && (n < 0 ==> IntText(n)[0] == '-')
            && digits != "" && AllDigits(digits) && (|digits| > 1 ==> digits[0] != '0')
            && ParseDecimal(digits) == if n < 0 then -n else n
  {
    hide Decimal, ParseDecimal;
    var m: nat := if n < 0 then -n else n;
    ParseOfDecimal(m);
    NoZeroFirst(m);
    assert n < 0 ==> IntText(n)[1..] == Decimal(m);
  }

  lemma {:induction false} NoZeroFirst(n: nat)
    ensures |Decimal(n)| > 1 ==> Decimal(n)[0] != '0'
    ensures n > 0 ==> Decimal(n)[0] != '0'
  {
    if n >= 10 { NoZeroFirst(n / 10); }
  }

  /** An accepted header says the body's string itself, letter for letter. */
  lemma {:induction false} AcceptedStringIsTheBodys(
      double: Doubles, a: ParamHeader, arguments: Value, get: Getter, s: string)
    requires Agrees(double, a, arguments, get) && Carried(a, arguments) == Some(Str(s))
    ensures Says(get(a.HeaderName()), s)
  {
    hide DecodeHeader, HeaderSafe, Carried, Says;
    SaysIsRead(get(a.HeaderName()), s);
  }
}
