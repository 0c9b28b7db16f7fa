/** The mirrored headers: the sentinel codec, the headers a client sends for a
  * request, and what a server lets through. */
module Headers {
  import opened Wrappers
  import opened Text
  import opened Ordering
  import opened Json
  import opened LogLines
  import Utf8
  import Base64

  const PROTOCOL_VERSION: string := "mcp-protocol-version"
  const METHOD: string := "mcp-method"
  const NAME: string := "mcp-name"
  const META_VERSION: string := "io.modelcontextprotocol/protocolVersion"

  const SENTINEL_OPEN: string := "=?base64?"
  const SENTINEL_CLOSE: string := "?="

  datatype WireError = HeaderMismatch | UnsupportedProtocolVersion(requested: string, supported: seq<string>)

  // ----- The codec

  predicate SafeChar(c: char) { 0x20 <= c as int <= 0x7e || c as int == 9 }

  /** A value a header field may carry. */
  predicate HeaderSafe(v: string) { forall i :: 0 <= i < |v| ==> SafeChar(v[i]) }

  predicate Whitespace(c: char) { c == ' ' || c == '\t' }

  /** No whitespace stands first or last, where it could be stripped. */
  predicate Firm(v: string) { v != "" ==> !Whitespace(v[0]) && !Whitespace(v[|v| - 1]) }

  predicate NeedsEncoding(v: string) {
    !HeaderSafe(v) || !Firm(v) || (SENTINEL_OPEN <= v && EndsWith(v, SENTINEL_CLOSE))
  }

  /** The sentinel around a value. */
  function Wrapped(v: string): string {
    SENTINEL_OPEN + Base64.Encode(Utf8.Encode(v)) + SENTINEL_CLOSE
  }

  function EncodeHeader(v: string): string { if NeedsEncoding(v) then Wrapped(v) else v }

  /** What is between the sentinel's marks, if both are there, one after the other. */
  function Inner(v: string): Option<string> {
    if SENTINEL_OPEN <= v && EndsWith(v[|SENTINEL_OPEN|..], SENTINEL_CLOSE) then
      Some(v[|SENTINEL_OPEN|..|v| - |SENTINEL_CLOSE|])
    else None
  }

  function DecodeHeader(v: string): Result<string, WireError> {
    match Inner(v)
    case None => Ok(v)
    case Some(inner) =>
      match Base64.Decode(inner)
      case None => Err(HeaderMismatch)
      case Some(bytes) =>
        match Utf8.Decode(bytes)
        case None => Err(HeaderMismatch)
        case Some(text) => Ok(text)
  }

  lemma {:induction false} InnerOfMarks(inner: string)
    ensures Inner(SENTINEL_OPEN + inner + SENTINEL_CLOSE) == Some(inner)
  {
    var v := SENTINEL_OPEN + inner + SENTINEL_CLOSE;
    assert v == SENTINEL_OPEN + (inner + SENTINEL_CLOSE);
    assert v[|SENTINEL_OPEN|..] == inner + SENTINEL_CLOSE;
    assert v[|SENTINEL_OPEN|..|v| - |SENTINEL_CLOSE|] == inner;
  }

  lemma {:induction false} MarksOfInner(v: string)
    requires Inner(v).Some?
    ensures v == SENTINEL_OPEN + Inner(v).value + SENTINEL_CLOSE
  {
    var n := |v| - |SENTINEL_CLOSE|;
    var rest := v[|SENTINEL_OPEN|..];
    assert v == SENTINEL_OPEN + rest;
    assert rest == rest[..|rest| - |SENTINEL_CLOSE|] + SENTINEL_CLOSE;
    assert rest[..|rest| - |SENTINEL_CLOSE|] == v[|SENTINEL_OPEN|..n];
  }

  /** A header decodes to a value exactly when it is the value, without marks, or
    * is the one encoding of it. */
  lemma {:induction false} DecodeIsExact(h: string, v: string)
    ensures DecodeHeader(h) == Ok(v) <==> (Inner(h).None? && h == v) || h == Wrapped(v)
  {
    hide Inner, Base64.Encode, Base64.Decode, Utf8.Encode, Utf8.Decode;
    var bytes := Utf8.Encode(v);
    InnerOfMarks(Base64.Encode(bytes));
    Base64.RoundTrip(bytes);
    Utf8.RoundTrip(v);
    if Inner(h).Some? {
      MarksOfInner(h);
      var inner := Inner(h).value;
      if Base64.Decode(inner).Some? {
        Base64.IsCanonical(inner);
        if Utf8.Decode(Base64.Decode(inner).value).Some? {
          Utf8.IsCanonical(Base64.Decode(inner).value);
        }
      }
    }
  }

  /** What is encoded decodes to itself. */
  lemma {:induction false} CodecRoundTrip(v: string)
    ensures DecodeHeader(EncodeHeader(v)) == Ok(v)
  {
    hide Wrapped, DecodeHeader;
    DecodeIsExact(EncodeHeader(v), v);
    if !NeedsEncoding(v) { NotMarked(v); }
  }

  lemma {:induction false} NotMarked(v: string)
    requires !(SENTINEL_OPEN <= v && EndsWith(v, SENTINEL_CLOSE))
    ensures Inner(v).None?
  {
    if |v| >= |SENTINEL_OPEN| + 2 {
      assert v[|SENTINEL_OPEN|..][|v| - |SENTINEL_OPEN| - 2..] == v[|v| - 2..];
    }
  }

  /** Every encoding may stand in a header, and nothing on the way may strip it. */
  lemma {:induction false} EncodingIsSafe(v: string)
    ensures HeaderSafe(EncodeHeader(v)) && Firm(EncodeHeader(v))
  {
    if NeedsEncoding(v) {
      hide Base64.Encode, Utf8.Encode;
      SymbolsAreSafe(Utf8.Encode(v));
      SafeBetween(Base64.Encode(Utf8.Encode(v)));
    }
  }

  lemma {:induction false} SymbolsAreSafe(b: seq<Byte>)
    ensures HeaderSafe(Base64.Encode(b))
  {
    hide Base64.Encode;
    Base64.EncodeIsSymbols(b);
  }

  lemma {:induction false} SafeBetween(inner: string)
    requires HeaderSafe(inner)
    ensures var h := SENTINEL_OPEN + inner + SENTINEL_CLOSE; HeaderSafe(h) && Firm(h)
  {
    var h := SENTINEL_OPEN + inner + SENTINEL_CLOSE;
    forall i | 0 <= i < |h| ensures SafeChar(h[i]) {
      if i < |SENTINEL_OPEN| {
        assert h[i] == SENTINEL_OPEN[i];
      } else if i < |SENTINEL_OPEN| + |inner| {
        assert h[i] == inner[i - |SENTINEL_OPEN|];
      } else {
        assert h[i] == SENTINEL_CLOSE[i - |SENTINEL_OPEN| - |inner|];
      }
    }
    assert h[0] == '=' && h[|h| - 1] == '=';
  }

  // ----- What a request says

  datatype Message = Message(methodName: Option<string>, params: Option<Value>)

  function GetStr(v: Value, key: string): Option<string> {
    match Get(v, key)
    case Some(Str(s)) => Some(s)
    case _ => None
  }

  /** The version under `_meta`, where a modern client says it. */
  function ProtocolVersion(msg: Message): Option<string> {
    if msg.params.None? then None
    else
      match Get(msg.params.value, "_meta")
      case None => None
      case Some(meta) => GetStr(meta, META_VERSION)
  }

  /** The field of `params` that `Mcp-Name` mirrors, if the method has one. */
  function NameField(methodName: string): Option<string> {
    if methodName == "tools/call" || methodName == "prompts/get" then Some("name")
    else if methodName == "resources/read" then Some("uri")
    else None
  }

  function NameValue(msg: Message): Option<string> {
    if msg.methodName.None? || NameField(msg.methodName.value).None? || msg.params.None? then None
    else GetStr(msg.params.value, NameField(msg.methodName.value).value)
  }

  // ----- The two ends

  type Sent = seq<(string, string)>

  /** The standard headers a client sends for a request; none for a legacy one. */
  function MirroredHeaders(msg: Message): Sent {
    match ProtocolVersion(msg)
    case None => []
    case Some(version) =>
      [(PROTOCOL_VERSION, version)] +
      (match msg.methodName
       case None => []
       case Some(m) =>
         [(METHOD, m)] +
         (if NameField(m).Some? && NameValue(msg).Some? then [(NAME, EncodeHeader(NameValue(msg).value))] else []))
  }

  /** What looking a header up gives: the first of its name. */
  function Lookup(sent: Sent, name: string): (r: Option<string>)
    ensures r.Some? ==> (name, r.value) in sent
  {
    if sent == [] then None else if sent[0].0 == name then Some(sent[0].1) else Lookup(sent[1..], name)
  }

  type Getter = string -> Option<string>

  /** What may be trusted of a request. */
  datatype Routing = Routing(version: string, methodName: string, name: Option<string>)

  function Required(get: Getter, name: string): Result<string, WireError> {
    match get(name)
    case None => Err(HeaderMismatch)
    case Some(v) => if HeaderSafe(v) then Ok(v) else Err(HeaderMismatch)
  }

  function ValidateHeaders(msg: Message, get: Getter, served: seq<string>): Result<Routing, WireError> {
    match ProtocolVersion(msg)
    case None => Err(HeaderMismatch)
    case Some(version) =>
      match Required(get, PROTOCOL_VERSION)
      case Err(e) => Err(e)
      case Ok(headerVersion) =>
        if headerVersion != version then Err(HeaderMismatch)
        else if version !in served then Err(UnsupportedProtocolVersion(version, served))
        else
          match msg.methodName
          case None => Err(HeaderMismatch)
          case Some(m) =>
            match Required(get, METHOD)
            case Err(e) => Err(e)
            case Ok(headerMethod) =>
              if headerMethod != m then Err(HeaderMismatch)
              else if NameField(m).None? then Ok(Routing(version, m, None))
              else
                match ValidateName(msg, get)
                case Err(e) => Err(e)
                case Ok(name) => Ok(Routing(version, m, Some(name)))
  }

  function ValidateName(msg: Message, get: Getter): Result<string, WireError> {
    match NameValue(msg)
    case None => Err(HeaderMismatch)
    case Some(name) =>
      match Required(get, NAME)
      case Err(e) => Err(e)
      case Ok(raw) =>
        match DecodeHeader(raw)
        case Err(e) => Err(e)
        case Ok(decoded) => if decoded != name then Err(HeaderMismatch) else Ok(name)
  }

  // ----- What a request gets through with

  /** Printing characters of ASCII, and tabs. */
  ghost predicate Printable(v: string) { forall i :: 0 <= i < |v| ==> ' ' <= v[i] <= '~' || v[i] == '\t' }

  /** Something stands between the marks of an encoding. */
  ghost predicate Marked(v: string) { exists inner :: v == "=?base64?" + inner + "?=" }

  lemma {:induction false} PrintableIsSafe(v: string)
    ensures HeaderSafe(v) <==> Printable(v)
  {
  }

  lemma {:induction false} InnerIsMarked(v: string)
    ensures Inner(v).Some? <==> Marked(v)
  {
    hide Inner;
    if Inner(v).Some? {
      MarksOfInner(v);
      assert v == "=?base64?" + Inner(v).value + "?=";
    }
    if inner :| v == "=?base64?" + inner + "?=" {
      InnerOfMarks(inner);
    }
  }

  /** The header says `v`, as itself or in its one encoding. */
  ghost predicate Says(raw: Option<string>, v: string) {
    && raw.Some? && Printable(raw.value)
    && ((raw.value == v && !Marked(v)) || raw.value == "=?base64?" + Base64.Encode(Utf8.Encode(v)) + "?=")
  }

  /** The text an object holds down these keys. */
  ghost predicate Holds(v: Option<Value>, path: Path, text: string) {
    v.Some? && At(v.value, path) == Some(Str(text))
  }

  /** What the body alone says. */
  ghost predicate BodySays(msg: Message, r: Routing) {
    && Holds(msg.params, [Key("_meta"), Key("io.modelcontextprotocol/protocolVersion")], r.version)
    && msg.methodName == Some(r.methodName)
    && (if r.methodName == "tools/call" || r.methodName == "prompts/get" then
          r.name.Some? && Holds(msg.params, [Key("name")], r.name.value)
        else if r.methodName == "resources/read" then
          r.name.Some? && Holds(msg.params, [Key("uri")], r.name.value)
        else r.name.None?)
  }

  lemma {:induction false} GetStrHolds(v: Value, key: string, text: string)
    ensures GetStr(v, key) == Some(text) <==> At(v, [Key(key)]) == Some(Str(text))
  {
    hide Get;
    assert [Key(key)][1..] == [];
  }

  lemma {:induction false} VersionHolds(msg: Message, version: string)
    ensures ProtocolVersion(msg) == Some(version) <==>
            Holds(msg.params, [Key("_meta"), Key("io.modelcontextprotocol/protocolVersion")], version)
  {
    hide Get;
    var path := [Key("_meta"), Key("io.modelcontextprotocol/protocolVersion")];
    assert path[1..] == [Key("io.modelcontextprotocol/protocolVersion")];
    if msg.params.Some? && Get(msg.params.value, "_meta").Some? {
      GetStrHolds(Get(msg.params.value, "_meta").value, META_VERSION, version);
    }
  }

  /** The body says exactly what the code takes from it. */
  lemma {:induction false} BodyIsRead(msg: Message, r: Routing)
    ensures BodySays(msg, r) <==>
            && ProtocolVersion(msg) == Some(r.version) && msg.methodName == Some(r.methodName)
            && if NameField(r.methodName).None? then r.name.None? else r.name.Some? && NameValue(msg) == r.name
  {
    hide ProtocolVersion, At;
    VersionHolds(msg, r.version);
    if r.name.Some? && msg.params.Some? {
      GetStrHolds(msg.params.value, "name", r.name.value);
      GetStrHolds(msg.params.value, "uri", r.name.value);
    }
  }

  /** A request gets through exactly when its headers say what its body does, and
    * what may then be trusted is what the body says. */
  lemma {:induction false} ValidateIsExact(msg: Message, get: Getter, served: seq<string>, r: Routing)
    ensures ValidateHeaders(msg, get, served) == Ok(r) <==>
            && BodySays(msg, r)
            && r.version in served
            && get("mcp-protocol-version") == Some(r.version) && Printable(r.version)
            && get("mcp-method") == Some(r.methodName) && Printable(r.methodName)
            && (r.name.Some? ==> Says(get("mcp-name"), r.name.value))
  {
    hide ValidateHeaders, BodySays, Says, Printable, HeaderSafe, DecodeHeader, NameField, ProtocolVersion, NameValue;
    BodyIsRead(msg, r);
    ValidateReads(msg, get, served, r);
    PrintableIsSafe(r.version);
    PrintableIsSafe(r.methodName);
    if r.name.Some? { SaysIsRead(get(NAME), r.name.value); }
  }

  /** The one error that is no mismatch: a version agreed on and not served. */
  lemma {:induction false} OtherErrorIs(msg: Message, get: Getter, served: seq<string>, version: string)
    ensures ValidateHeaders(msg, get, served) == Err(UnsupportedProtocolVersion(version, served)) <==>
            && Holds(msg.params, [Key("_meta"), Key("io.modelcontextprotocol/protocolVersion")], version)
            && get("mcp-protocol-version") == Some(version) && Printable(version) && version !in served
    ensures ValidateHeaders(msg, get, served).Err? ==>
              || ValidateHeaders(msg, get, served).error == HeaderMismatch
              || exists v :: ValidateHeaders(msg, get, served).error == UnsupportedProtocolVersion(v, served)
  {
    hide HeaderSafe, DecodeHeader, NameField, ProtocolVersion, NameValue, Holds, Printable;
    DecodeErr(get);
    VersionHolds(msg, version);
    PrintableIsSafe(version);
  }

  /** A decoded header says a value exactly when the header itself does. */
  lemma {:induction false} SaysIsRead(raw: Option<string>, v: string)
    ensures Says(raw, v) <==> raw.Some? && HeaderSafe(raw.value) && DecodeHeader(raw.value) == Ok(v)
  {
    hide HeaderSafe, Printable, DecodeHeader, Inner, Marked, Base64.Encode, Utf8.Encode;
    if raw.Some? {
      PrintableIsSafe(raw.value);
      DecodeIsExact(raw.value, v);
      InnerIsMarked(v);
    }
  }

  lemma {:induction false} ValidateReads(msg: Message, get: Getter, served: seq<string>, r: Routing)
    ensures ValidateHeaders(msg, get, served) == Ok(r) <==>
            && ProtocolVersion(msg) == Some(r.version) && msg.methodName == Some(r.methodName)
            && (if NameField(r.methodName).None? then r.name.None? else r.name.Some? && NameValue(msg) == r.name)
            && r.version in served
            && get(PROTOCOL_VERSION) == Some(r.version) && HeaderSafe(r.version)
            && get(METHOD) == Some(r.methodName) && HeaderSafe(r.methodName)
            && (r.name.Some? ==>
                  get(NAME).Some? && HeaderSafe(get(NAME).value) && DecodeHeader(get(NAME).value) == Ok(r.name.value))
  {
    hide HeaderSafe, DecodeHeader, NameField, ProtocolVersion, NameValue;
  }

  lemma {:induction false} DecodeErr(get: Getter)
    ensures get(NAME).Some? && DecodeHeader(get(NAME).value).Err? ==>
            DecodeHeader(get(NAME).value).error == HeaderMismatch
  {
    hide Inner, Base64.Decode, Utf8.Decode;
  }

  /** The headers a client mirrors for a request are accepted for it, exactly when
    * its version is served, it has a method, the two can stand in a header, and it
    * names what its method needs named. */
  lemma {:induction false} MirroredIsAccepted(msg: Message, served: seq<string>)
    requires ProtocolVersion(msg).Some?
    ensures var version := ProtocolVersion(msg).value;
            ValidateHeaders(msg, name => Lookup(MirroredHeaders(msg), name), served).Ok? <==>
            && version in served && HeaderSafe(version)
            && msg.methodName.Some? && HeaderSafe(msg.methodName.value)
            && (NameField(msg.methodName.value).Some? ==> NameValue(msg).Some?)
  {
    hide HeaderSafe, NameField, ProtocolVersion, EncodeHeader, DecodeHeader, NameValue;
    MirroredLookup(msg);
    if NameValue(msg).Some? {
      CodecRoundTrip(NameValue(msg).value);
      EncodingIsSafe(NameValue(msg).value);
    }
  }

  /** One that is not: a method named in no ASCII letter, whose header goes out as the
    * method is. */
  lemma {:induction false} MethodIsRefused(version: string, served: seq<string>)
    requires version in served && HeaderSafe(version)
    ensures var params := Obj([Entry("_meta", Obj([Entry(META_VERSION, Str(version))]))]);
            var msg := Message(Some(['\U{00E9}']), Some(params));
            && ProtocolVersion(msg) == Some(version)
            && ValidateHeaders(msg, name => Lookup(MirroredHeaders(msg), name), served).Err?
  {
    var methodName := ['\U{00E9}'];
    var params := Obj([Entry("_meta", Obj([Entry(META_VERSION, Str(version))]))]);
    var msg := Message(Some(methodName), Some(params));
    assert Get(params, "_meta") == Some(Obj([Entry(META_VERSION, Str(version))]));
    assert ProtocolVersion(msg) == Some(version);
    assert !SafeChar(methodName[0]);
    MirroredIsAccepted(msg, served);
  }

  /** What a value goes out as: itself, where nothing on the way can change it and it
    * does not look like an encoding; else in the one encoding it has. */
  lemma {:induction false} EncodingSpelled(v: string)
    ensures EncodeHeader(v) ==
            if && Printable(v)
               && (v != "" ==> v[0] !in {' ', '\t'} && v[|v| - 1] !in {' ', '\t'})
               && !("=?base64?" <= v && v[|v| - 2..] == "?=")
            then v
            else "=?base64?" + Base64.Encode(Utf8.Encode(v)) + "?="
  {
    hide Base64.Encode, Utf8.Encode, HeaderSafe;
    PrintableIsSafe(v);
  }

  /** The headers a client sends, and no others: none for a legacy request. */
  lemma {:induction false} MirroredMeans(msg: Message, name: string, value: string)
    ensures (name, value) in MirroredHeaders(msg) <==> ShouldSend(msg, name, value)
  {
    hide ProtocolVersion, EncodeHeader, Holds, NameOfBody, NameValue, NameField;
    NameIsRead(msg);
    if (name, value) in MirroredHeaders(msg) {
      MirroredOne(msg, name, value);
      VersionHolds(msg, ProtocolVersion(msg).value);
      if name == "mcp-name" { assert NameOfBody(msg, NameValue(msg).value); }
    }
    if ShouldSend(msg, name, value) {
      var version :| Holds(msg.params, [Key("_meta"), Key("io.modelcontextprotocol/protocolVersion")], version) &&
        (|| (name == "mcp-protocol-version" && value == version)
         || (name == "mcp-method" && msg.methodName == Some(value))
         || (name == "mcp-name" && exists n :: NameOfBody(msg, n) && value == EncodeHeader(n)));
      VersionHolds(msg, version);
      assert (PROTOCOL_VERSION, version) in MirroredHeaders(msg);
      if name == "mcp-name" {
        var n :| NameOfBody(msg, n) && value == EncodeHeader(n);
        MirroredName(msg, n);
      }
    }
  }

  ghost predicate ShouldSend(msg: Message, name: string, value: string) {
    exists version ::
      && Holds(msg.params, [Key("_meta"), Key("io.modelcontextprotocol/protocolVersion")], version)
      && (|| (name == "mcp-protocol-version" && value == version)
          || (name == "mcp-method" && msg.methodName == Some(value))
          || (name == "mcp-name" && exists n :: NameOfBody(msg, n) && value == EncodeHeader(n)))
  }

  /** The name a request's body has for its method. */
  ghost predicate NameOfBody(msg: Message, name: string) {
    || (msg.methodName in {Some("tools/call"), Some("prompts/get")} && Holds(msg.params, [Key("name")], name))
    || (msg.methodName == Some("resources/read") && Holds(msg.params, [Key("uri")], name))
  }

  lemma {:induction false} NameIsRead(msg: Message)
    ensures forall name :: NameOfBody(msg, name) <==> NameValue(msg) == Some(name)
  {
    hide At;
    forall name ensures NameOfBody(msg, name) <==> NameValue(msg) == Some(name) {
      if msg.params.Some? {
        GetStrHolds(msg.params.value, "name", name);
        GetStrHolds(msg.params.value, "uri", name);
      }
    }
  }

  lemma {:induction false} MirroredOne(msg: Message, name: string, value: string)
    requires (name, value) in MirroredHeaders(msg)
    ensures ProtocolVersion(msg).Some?
    ensures || (name == "mcp-protocol-version" && value == ProtocolVersion(msg).value)
            || (name == "mcp-method" && msg.methodName == Some(value))
            || (name == "mcp-name" && NameValue(msg).Some? && value == EncodeHeader(NameValue(msg).value))
  {
    hide ProtocolVersion, EncodeHeader;
  }

  lemma {:induction false} MirroredName(msg: Message, n: string)
    requires ProtocolVersion(msg).Some? && NameValue(msg) == Some(n)
    ensures ("mcp-name", EncodeHeader(n)) in MirroredHeaders(msg)
  {
    hide ProtocolVersion, EncodeHeader;
  }

  lemma {:induction false} MirroredLookup(msg: Message)
    requires ProtocolVersion(msg).Some?
    ensures var sent := MirroredHeaders(msg);
            && Lookup(sent, PROTOCOL_VERSION) == ProtocolVersion(msg)
            && Lookup(sent, METHOD) == msg.methodName
            && Lookup(sent, NAME) ==
               if msg.methodName.Some? && NameField(msg.methodName.value).Some? && NameValue(msg).Some?
               then Some(EncodeHeader(NameValue(msg).value)) else None
  {
    hide NameField, ProtocolVersion, EncodeHeader, NameValue;
    assert PROTOCOL_VERSION != METHOD by { assert |PROTOCOL_VERSION| != |METHOD|; }
    assert NAME != METHOD by { assert |NAME| != |METHOD|; }
    assert NAME != PROTOCOL_VERSION by { assert |NAME| != |PROTOCOL_VERSION|; }
    var sent := MirroredHeaders(msg);
    assert sent[0] == (PROTOCOL_VERSION, ProtocolVersion(msg).value);
    if msg.methodName.Some? {
      var m := msg.methodName.value;
      assert sent[1..][0] == (METHOD, m);
      assert sent[1..][1..] ==
        if NameField(m).Some? && NameValue(msg).Some? then [(NAME, EncodeHeader(NameValue(msg).value))] else [];
      assert Lookup(sent, NAME) == Lookup(sent[1..], NAME) == Lookup(sent[1..][1..], NAME);
    } else {
      assert sent[1..] == [];
    }
  }
}
