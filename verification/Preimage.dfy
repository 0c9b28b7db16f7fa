/** What a record's hash is taken of, and what that pins. */
module Preimage {
  import opened Wrappers
  import opened Text
  import opened Ordering
  import opened Json
  import opened Canonical
  import opened Records

  /** The unit separator, U+001F, which joins the fields a hash is taken of. */
  const US: char := 31 as char

  predicate Free(s: string) { forall i :: 0 <= i < |s| ==> s[i] != US }

  /** The v1 fields in order, an absent optional one as the empty string. */
  function Fields(r: Record): (fs: seq<string>)
    ensures |fs| == 10
  {
    [Decimal(r.seqNo), Decimal(r.tsUnixMs), r.agent, r.server, r.methodName.GetOr(""), r.tool.GetOr(""),
     r.decision, r.rule.GetOr(""), Decimal(r.latencyMs), r.prevHash]
  }

  /** The later members this release names. */
  const NAMES: seq<string> :=
    ["kind", "uri", "actor", "peer", "config_from", "config_to", "transforms", "tool_changes"]

  function OfString(s: Option<string>): Option<Value> {
    if s.Some? then Some(Str(s.value)) else None
  }

  function Strings(ss: seq<string>): (vs: seq<Value>)
    ensures |vs| == |ss| && forall i :: 0 <= i < |ss| ==> vs[i] == Str(ss[i])
  {
    seq(|ss|, i requires 0 <= i < |ss| => Str(ss[i]))
  }

  function ChangesValue(c: ToolChanges): Value {
    Obj([Entry("added", Num(c.added)), Entry("removed", Num(c.removed)),
         Entry("changed", Num(c.changed)), Entry("drifted", Num(c.drifted))])
  }

  /** The named member of a record, as JSON. */
  function NamedValue(r: Record, name: string): Option<Value> {
    if name == "kind" then OfString(r.kind)
    else if name == "uri" then OfString(r.uri)
    else if name == "actor" then OfString(r.actor)
    else if name == "peer" then OfString(r.peer)
    else if name == "config_from" then OfString(r.configFrom)
    else if name == "config_to" then OfString(r.configTo)
    else if name == "transforms" then
      if r.transforms.Some? then Some(Arr(Strings(r.transforms.value))) else None
    else if name == "tool_changes" then
      if r.toolChanges.Some? then Some(ChangesValue(r.toolChanges.value)) else None
    else None
  }

  function NamedMembers(r: Record, names: seq<string>): (ms: seq<Member>)
    ensures forall m :: m in ms <==> m.name in names && NamedValue(r, m.name) == Some(m.value)
  {
    if names == [] then []
    else
      (if NamedValue(r, names[0]).Some? then [Entry(names[0], NamedValue(r, names[0]).value)] else []) +
      NamedMembers(r, names[1..])
  }

  function NonNull(ms: seq<Member>): (r: seq<Member>)
    ensures forall m :: m in r <==> m in ms && !m.value.Null?
  {
    if ms == [] then []
    else (if ms[0].value.Null? then [] else [ms[0]]) + NonNull(ms[1..])
  }

  /** The members later than the v1 ones: those with a name here that are present, and the unknown. */
  function LaterMembers(r: Record): seq<Member> {
    NamedMembers(r, NAMES) + NonNull(r.extra)
  }

  /** The later members as the hash encodes them; `None` when there are none. */
  function LaterText(r: Record): Option<string> {
    if LaterMembers(r) == [] then None else Some(Canon(Obj(LaterMembers(r))))
  }

  function Join(fs: seq<string>): string
    requires fs != []
  {
    if |fs| == 1 then fs[0] else fs[0] + ([US] + Join(fs[1..]))
  }

  function AllFields(r: Record): (fs: seq<string>)
    ensures |fs| == if LaterText(r).Some? then 11 else 10
  {
    Fields(r) + (if LaterText(r).Some? then [LaterText(r).value] else [])
  }

  /** The bytes the hash is taken of. */
  function Encoding(r: Record): string { Join(AllFields(r)) }

  /** Whether a field holds the separator, as the verifier looks for it. */
  predicate HasSeparator(r: Record) {
    !Free(r.agent) || !Free(r.server) || !Free(r.methodName.GetOr("")) || !Free(r.tool.GetOr("")) ||
      !Free(r.rule.GetOr(""))
  }

  // ----- Splitting what was joined

  lemma {:induction false} FreeIsOnePiece(s: string)
    requires Free(s)
    ensures Split(s, US) == [s]
  {
  }

  lemma {:induction false} SplitStep(s: string)
    ensures var i := IndexOf(s, US);
            Split(s, US) == if i == |s| then [s] else [s[..i]] + Split(s[i + 1..], US)
  {
    hide IndexOf;
  }

  lemma {:induction false} SplitJoined(a: string, b: string)
    ensures Split(a + ([US] + b), US) == Split(a, US) + Split(b, US)
    decreases |a|
  {
    hide Split, IndexOf;
    var s := a + ([US] + b);
    var i := IndexOf(a, US);
    IndexBefore(a, b);
    SplitStep(a);
    SplitStep(s);
    if i == |a| {
      assert s[..i] == a && s[i + 1..] == b;
    } else {
      assert s[..i] == a[..i] && s[i + 1..] == a[i + 1..] + ([US] + b);
      SplitJoined(a[i + 1..], b);
    }
  }

  lemma {:induction false} IndexBefore(a: string, b: string)
    ensures IndexOf(a + ([US] + b), US) == IndexOf(a, US)
  {
    var s := a + ([US] + b);
    assert s[|a|] == US;
    var i, j := IndexOf(a, US), IndexOf(s, US);
    assert forall k :: 0 <= k < i ==> s[k] == a[k];
    assert s[i] == US;
    assert forall k :: 0 <= k < j && k < |a| ==> s[k] == a[k];
  }

  /** Each field's own pieces, in order. */
  function Pieces(fs: seq<string>): seq<string> {
    if fs == [] then [] else Split(fs[0], US) + Pieces(fs[1..])
  }

  lemma {:induction false} SplitJoin(fs: seq<string>)
    requires fs != []
    ensures Split(Join(fs), US) == Pieces(fs)
  {
    hide Split;
    if |fs| == 1 {
      assert fs[1..] == [];
    } else {
      SplitJoin(fs[1..]);
      SplitJoined(fs[0], Join(fs[1..]));
    }
  }

  lemma {:induction false} SplitIsSome(s: string)
    ensures Split(s, US) != []
    ensures |Split(s, US)| == 1 ==> Split(s, US) == [s]
  {
    if IndexOf(s, US) < |s| { SplitIsSome(s[IndexOf(s, US) + 1..]); }
  }

  /** Fields never join into fewer pieces than they are; into as many, only
    * whole. */
  lemma {:induction false} PiecesAreFields(fs: seq<string>)
    ensures |Pieces(fs)| >= |fs|
    ensures |Pieces(fs)| == |fs| ==> Pieces(fs) == fs
  {
    hide Split;
    if fs != [] {
      SplitIsSome(fs[0]);
      PiecesAreFields(fs[1..]);
    }
  }

  lemma {:induction false} FreePieces(fs: seq<string>)
    requires forall i :: 0 <= i < |fs| ==> Free(fs[i])
    ensures Pieces(fs) == fs
  {
    hide Split;
    if fs != [] {
      FreeIsOnePiece(fs[0]);
      FreePieces(fs[1..]);
    }
  }

  lemma {:induction false} PiecesConcat(a: seq<string>, b: seq<string>)
    ensures Pieces(a + b) == Pieces(a) + Pieces(b)
  {
    hide Split;
    if a == [] {
      assert a + b == b;
    } else {
      assert (a + b)[1..] == a[1..] + b;
      PiecesConcat(a[1..], b);
    }
  }

  // ----- The encoding pins the record

  lemma {:induction false} DigitsAreFree(n: nat)
    ensures Free(Decimal(n))
  {
    hide Decimal;
  }

  lemma {:induction false} LaterIsFree(r: Record)
    requires LaterText(r).Some?
    ensures Free(LaterText(r).value)
  {
    hide Canon;
    CanonIsPlain(Obj(LaterMembers(r)));
  }

  /** What a hash looks like here: 64 characters, none of them the separator. */
  predicate HashText(s: string) { |s| == 64 && Free(s) }

  /** No field of the record holds the separator: what `append` guarantees. */
  predicate Clean(r: Record) {
    !HasSeparator(r) && Free(r.decision) && Free(r.prevHash)
  }

  /** Of two records, the one is clean; and so is the other, or the links are as
    * long as hashes are and its latency is a `u64`. */
  predicate Telling(r: Record, s: Record) {
    Clean(r) && (Clean(s) || (|r.prevHash| == 64 && HashText(s.prevHash) && s.latencyMs <= MAX_U64))
  }

  lemma {:induction false} DecimalIsShort(n: nat, digits: nat)
    requires 0 < digits && n < Pow10(digits)
    ensures |Decimal(n)| <= digits
  {
    if n >= 10 {
      DecimalIsShort(n / 10, digits - 1);
    }
  }

  function Pow10(k: nat): (p: nat)
    ensures p > 0
  {
    if k == 0 then 1 else 10 * Pow10(k - 1)
  }

  lemma {:induction false} U64IsShort(n: nat)
    requires n <= MAX_U64
    ensures |Decimal(n)| <= 20
  {
    assert Pow10(10) == 1_00000_00000;
    assert Pow10(20) == 1_00000_00000 * 1_00000_00000;
    DecimalIsShort(n, 20);
  }

  /** A clean record's encoding is no other clean record's, and no record's with a
    * hash for its link however its fields are split: equal encodings mean equal
    * fields, and the other way about. */
  lemma {:induction false} EncodingPins(r: Record, s: Record)
    requires Telling(r, s)
    ensures Encoding(r) == Encoding(s) <==> AllFields(r) == AllFields(s)
  {
    if Encoding(r) == Encoding(s) { EqualFields(r, s); }
  }

  lemma {:induction false} EqualFields(r: Record, s: Record)
    requires Telling(r, s) && Encoding(r) == Encoding(s)
    ensures AllFields(r) == AllFields(s)
  {
    hide Split, Decimal, Join, Pieces, LaterText, LaterMembers, HashText, HasSeparator, Free, Fields;
    var fs, gs := AllFields(r), AllFields(s);
    SplitJoin(fs);
    SplitJoin(gs);
    CleanFields(r);
    FreePieces(fs);
    assert Pieces(gs) == fs;
    PiecesAreFields(gs);
    if Clean(s) {
      CleanFields(s);
      FreePieces(gs);
    } else if |fs| > |gs| {
      LastTwoAreWhole(s);
      U64IsShort(s.latencyMs);
    }
  }

  lemma {:induction false} CleanFields(r: Record)
    requires Clean(r)
    ensures forall i :: 0 <= i < |AllFields(r)| ==> Free(AllFields(r)[i])
    ensures AllFields(r)[9] == r.prevHash
  {
    hide Decimal, LaterText;
    DigitsAreFree(r.seqNo);
    DigitsAreFree(r.tsUnixMs);
    DigitsAreFree(r.latencyMs);
    if LaterText(r).Some? { LaterIsFree(r); }
  }

  /** The latency and the link are whole pieces, wherever the others fall. */
  lemma {:induction false} LastTwoAreWhole(s: Record)
    requires HashText(s.prevHash) && LaterText(s).None?
    ensures var ps := Pieces(AllFields(s)); |ps| >= 10 && ps[|ps| - 2] == Decimal(s.latencyMs)
  {
    hide Decimal, Split, LaterText;
    var fs := AllFields(s);
    DigitsAreFree(s.latencyMs);
    PiecesAreFields(fs);
    assert fs == fs[..8] + fs[8..];
    PiecesConcat(fs[..8], fs[8..]);
    FreePieces(fs[8..]);
  }

  // ----- Equal fields are equal records, up to what the encoding leaves out

  /** The same record, taking an absent method, tool or rule for an empty one, and
    * the later members as the JSON values they are, nulls left out. */
  ghost predicate SameRecord(r: Record, s: Record) {
    && r.seqNo == s.seqNo && r.tsUnixMs == s.tsUnixMs
    && r.agent == s.agent && r.server == s.server
    && r.methodName.GetOr("") == s.methodName.GetOr("") && r.tool.GetOr("") == s.tool.GetOr("")
    && r.decision == s.decision && r.rule.GetOr("") == s.rule.GetOr("")
    && r.latencyMs == s.latencyMs
    && r.kind == s.kind && r.uri == s.uri && r.actor == s.actor && r.peer == s.peer
    && r.configFrom == s.configFrom && r.configTo == s.configTo
    && r.transforms == s.transforms && r.toolChanges == s.toolChanges
    && Same(Obj(NonNull(r.extra)), Obj(NonNull(s.extra)))
    && r.prevHash == s.prevHash
  }

  /** The members a release does not know are named apart, and are JSON values. */
  predicate ExtraApart(r: Record) {
    WellFormed(Obj(r.extra)) && forall i :: 0 <= i < |r.extra| ==> r.extra[i].name !in NAMES
  }

  lemma {:induction false} NamedAreDistinct(r: Record, names: seq<string>)
    requires forall i, j :: 0 <= i < j < |names| ==> names[i] != names[j]
    ensures Distinct(NamedMembers(r, names))
    ensures forall m :: m in NamedMembers(r, names) ==> WellFormed(m.value)
  {
    hide WellFormed;
    if names != [] {
      NamedAreDistinct(r, names[1..]);
      NamedIsWellFormed(r, names[0]);
      var rest := NamedMembers(r, names[1..]);
      forall i | 0 <= i < |rest| ensures rest[i].name != names[0] {
        assert rest[i] in rest;
      }
    }
  }

  lemma {:induction false} NamedIsWellFormed(r: Record, name: string)
    ensures NamedValue(r, name).Some? ==> WellFormed(NamedValue(r, name).value)
  {
  }

  lemma {:induction false} NonNullIsDistinct(ms: seq<Member>)
    requires Distinct(ms)
    ensures Distinct(NonNull(ms))
  {
    if ms != [] {
      NonNullIsDistinct(ms[1..]);
      var rest := NonNull(ms[1..]);
      forall i | 0 <= i < |rest| ensures rest[i].name != ms[0].name {
        assert rest[i] in ms[1..];
      }
    }
  }

  lemma {:induction false} LaterIsWellFormed(r: Record)
    requires ExtraApart(r)
    ensures WellFormed(Obj(LaterMembers(r)))
  {
    hide NamedMembers, NonNull;
    var named, rest := NamedMembers(r, NAMES), NonNull(r.extra);
    NamedAreDistinct(r, NAMES);
    NonNullIsDistinct(r.extra);
    var ms := LaterMembers(r);
    forall i, j | 0 <= i < j < |ms| ensures ms[i].name != ms[j].name {
      if i < |named| <= j {
        assert named[i] in named && rest[j - |named|] in rest;
      }
    }
    forall i | 0 <= i < |ms| ensures WellFormed(ms[i].value) {
      if i < |named| { assert named[i] in named; } else { assert rest[i - |named|] in r.extra; }
    }
  }

  /** What the same object holds under a member's name. */
  lemma {:induction false} PairOf(ms: seq<Member>, ns: seq<Member>, m: Member) returns (n: Member)
    requires Same(Obj(ms), Obj(ns)) && m in ms
    ensures n in ns && n.name == m.name && Same(m.value, n.value)
  {
    var i :| 0 <= i < |ms| && ms[i] == m;
    assert HasPair(ms[i], ns);
    var j :| 0 <= j < |ns| && m.name == ns[j].name && Same(m.value, ns[j].value);
    n := ns[j];
  }

  lemma {:induction false} NameOf(ms: seq<Member>, ns: seq<Member>, n: Member) returns (m: Member)
    requires Same(Obj(ms), Obj(ns)) && n in ns
    ensures m in ms && m.name == n.name
  {
    var j :| 0 <= j < |ns| && ns[j] == n;
    assert Named(ns[j].name, ms);
    var i :| 0 <= i < |ms| && ms[i].name == n.name;
    m := ms[i];
  }

  lemma {:induction false} InLater(r: Record, m: Member)
    requires ExtraApart(r)
    ensures m in LaterMembers(r) <==>
            if m.name in NAMES then NamedValue(r, m.name) == Some(m.value) else m in NonNull(r.extra)
  {
    hide NamedMembers, NonNull, WellFormed, NamedValue;
  }

  lemma {:induction false} LaterUnder(r: Record, s: Record, name: string)
    requires ExtraApart(r) && ExtraApart(s) && name in NAMES
    requires Same(Obj(LaterMembers(r)), Obj(LaterMembers(s)))
    ensures NamedValue(r, name).Some? <==> NamedValue(s, name).Some?
    ensures NamedValue(r, name).Some? ==> Same(NamedValue(r, name).value, NamedValue(s, name).value)
  {
    hide *;
    if NamedValue(r, name).Some? {
      var m := Entry(name, NamedValue(r, name).value);
      InLater(r, m);
      var n := PairOf(LaterMembers(r), LaterMembers(s), m);
      InLater(s, n);
    }
    if NamedValue(s, name).Some? {
      var n := Entry(name, NamedValue(s, name).value);
      InLater(s, n);
      var m := NameOf(LaterMembers(r), LaterMembers(s), n);
      InLater(r, m);
    }
  }

  lemma {:induction false} ExtrasAreSame(r: Record, s: Record)
    requires ExtraApart(r) && ExtraApart(s)
    requires Same(Obj(LaterMembers(r)), Obj(LaterMembers(s)))
    ensures Same(Obj(NonNull(r.extra)), Obj(NonNull(s.extra)))
  {
    hide *;
    var a, b := NonNull(r.extra), NonNull(s.extra);
    forall i | 0 <= i < |a| ensures HasPair(a[i], b) {
      ExtraIsLater(r, a[i]);
      var n := PairOf(LaterMembers(r), LaterMembers(s), a[i]);
      InLater(s, n);
      MakePair(a[i], b, n);
    }
    forall j | 0 <= j < |b| ensures Named(b[j].name, a) {
      ExtraIsLater(s, b[j]);
      var m := NameOf(LaterMembers(r), LaterMembers(s), b[j]);
      InLater(r, m);
      MakeNamed(b[j], a, m);
    }
    PairsMakeSame(a, b);
  }

  lemma {:induction false} MakePair(m: Member, b: seq<Member>, n: Member)
    requires n in b && n.name == m.name && Same(m.value, n.value)
    ensures HasPair(m, b)
  {
    hide Same;
    var j :| 0 <= j < |b| && b[j] == n;
  }

  lemma {:induction false} MakeNamed(n: Member, a: seq<Member>, m: Member)
    requires m in a && m.name == n.name
    ensures Named(n.name, a)
  {
  }

  lemma {:induction false} PairsMakeSame(a: seq<Member>, b: seq<Member>)
    requires forall i :: 0 <= i < |a| ==> HasPair(a[i], b)
    requires forall j :: 0 <= j < |b| ==> Named(b[j].name, a)
    ensures Same(Obj(a), Obj(b))
  {
    hide HasPair, Named;
  }

  lemma {:induction false} ExtraIsLater(r: Record, m: Member)
    requires ExtraApart(r) && m in NonNull(r.extra)
    ensures m.name !in NAMES && m in LaterMembers(r)
  {
    hide NamedMembers, NonNull, WellFormed, NamedValue;
  }

  lemma {:induction false} StringsAreTheirs(a: Option<string>, b: Option<string>)
    requires OfString(a).Some? <==> OfString(b).Some?
    requires OfString(a).Some? ==> Same(OfString(a).value, OfString(b).value)
    ensures a == b
  {
  }

  lemma {:induction false} TransformsAreTheirs(a: seq<string>, b: seq<string>)
    requires Same(Arr(Strings(a)), Arr(Strings(b)))
    ensures a == b
  {
    forall i | 0 <= i < |a| ensures |a| == |b| && a[i] == b[i] {
      assert Same(Strings(a)[i], Strings(b)[i]);
    }
    assert |Strings(a)| == |Strings(b)|;
  }

  lemma {:induction false} ChangesAreTheirs(a: ToolChanges, b: ToolChanges)
    requires Same(ChangesValue(a), ChangesValue(b))
    ensures a == b
  {
    hide Same;
    var ms, ns := ChangesValue(a).members, ChangesValue(b).members;
    assert "added"[0] == 'a' && "removed"[0] == 'r' && "changed"[0] == 'c' && "drifted"[0] == 'd';
    forall k | 0 <= k < 4 ensures ms[k].value == ns[k].value {
      var n := PairOf(ms, ns, ms[k]);
      assert n == ns[0] || n == ns[1] || n == ns[2] || n == ns[3];
      assert n == ns[k];
      SameNumbers(ms[k].value, n.value);
    }
    assert ms[0].value == ns[0].value && ms[1].value == ns[1].value;
    assert ms[2].value == ns[2].value && ms[3].value == ns[3].value;
  }

  lemma {:induction false} SameNumbers(v: Value, w: Value)
    requires v.Num? && Same(v, w)
    ensures v == w
  {
  }

  lemma {:induction false} LaterAreTheirs(r: Record, s: Record)
    requires ExtraApart(r) && ExtraApart(s)
    requires Same(Obj(LaterMembers(r)), Obj(LaterMembers(s)))
    ensures r.kind == s.kind && r.uri == s.uri && r.actor == s.actor && r.peer == s.peer
    ensures r.configFrom == s.configFrom && r.configTo == s.configTo
    ensures r.transforms == s.transforms && r.toolChanges == s.toolChanges
  {
    hide LaterMembers, Same, OfString, ChangesValue;
    forall i | 0 <= i < |NAMES|
      ensures NamedValue(r, NAMES[i]).Some? <==> NamedValue(s, NAMES[i]).Some?
      ensures NamedValue(r, NAMES[i]).Some? ==> Same(NamedValue(r, NAMES[i]).value, NamedValue(s, NAMES[i]).value)
    {
      LaterUnder(r, s, NAMES[i]);
    }
    assert NAMES[0] == "kind" && NAMES[1] == "uri" && NAMES[2] == "actor" && NAMES[3] == "peer";
    assert NAMES[4] == "config_from" && NAMES[5] == "config_to";
    assert NAMES[6] == "transforms" && NAMES[7] == "tool_changes";
    StringsAreTheirs(r.kind, s.kind);
    StringsAreTheirs(r.uri, s.uri);
    StringsAreTheirs(r.actor, s.actor);
    StringsAreTheirs(r.peer, s.peer);
    StringsAreTheirs(r.configFrom, s.configFrom);
    StringsAreTheirs(r.configTo, s.configTo);
    if r.transforms.Some? { TransformsAreTheirs(r.transforms.value, s.transforms.value); }
    if r.toolChanges.Some? { ChangesAreTheirs(r.toolChanges.value, s.toolChanges.value); }
  }

  /** Equal encodings are the same record, and the same record has one encoding. */
  lemma {:induction false} EncodingIsInjective(r: Record, s: Record)
    requires Telling(r, s) && ExtraApart(r) && ExtraApart(s)
    ensures Encoding(r) == Encoding(s) <==> SameRecord(r, s)
  {
    hide *;
    if Encoding(r) == Encoding(s) {
      EqualIsSame(r, s);
    } else if SameRecord(r, s) {
      SameEncoding(r, s);
    }
  }

  /** Whatever its fields hold, the same record has one encoding. */
  lemma {:induction false} SameEncoding(r: Record, s: Record)
    requires ExtraApart(r) && ExtraApart(s) && SameRecord(r, s)
    ensures Encoding(r) == Encoding(s)
  {
    hide *;
    SameFields(r, s);
    SameLater(r, s);
    EncodingOfFields(r, s);
  }

  lemma {:induction false} EncodingOfFields(r: Record, s: Record)
    requires Fields(r) == Fields(s) && LaterText(r) == LaterText(s)
    ensures Encoding(r) == Encoding(s)
  {
  }

  lemma {:induction false} SameFields(r: Record, s: Record)
    requires SameRecord(r, s)
    ensures Fields(r) == Fields(s)
    ensures forall name :: NamedValue(r, name) == NamedValue(s, name)
    ensures Same(Obj(NonNull(r.extra)), Obj(NonNull(s.extra)))
  {
    hide Decimal, Same, NonNull;
  }

  lemma {:induction false} SameLater(r: Record, s: Record)
    requires ExtraApart(r) && ExtraApart(s)
    requires forall name :: NamedValue(r, name) == NamedValue(s, name)
    requires Same(Obj(NonNull(r.extra)), Obj(NonNull(s.extra)))
    ensures LaterText(r) == LaterText(s)
  {
    hide *;
    SameNamed(r, s, NAMES);
    LaterIsWellFormed(r);
    LaterIsWellFormed(s);
    var named := NamedMembers(r, NAMES);
    LaterInTwo(r);
    LaterInTwo(s);
    SameAdded(named, NonNull(r.extra), NonNull(s.extra));
    SameTextForSame(Obj(LaterMembers(r)), Obj(LaterMembers(s)));
    BothEmpty(LaterMembers(r), LaterMembers(s));
    LaterTexts(r, s);
  }

  lemma {:induction false} LaterInTwo(r: Record)
    ensures LaterMembers(r) == NamedMembers(r, NAMES) + NonNull(r.extra)
  {
  }

  lemma {:induction false} LaterTexts(r: Record, s: Record)
    requires LaterMembers(r) == [] <==> LaterMembers(s) == []
    requires Canon(Obj(LaterMembers(r))) == Canon(Obj(LaterMembers(s)))
    ensures LaterText(r) == LaterText(s)
  {
    hide LaterMembers, Canon;
  }

  lemma {:induction false} SameNamed(r: Record, s: Record, names: seq<string>)
    requires forall name :: NamedValue(r, name) == NamedValue(s, name)
    ensures NamedMembers(r, names) == NamedMembers(s, names)
  {
    hide NamedValue;
    if names != [] { SameNamed(r, s, names[1..]); }
  }

  lemma {:induction false} BothEmpty(a: seq<Member>, b: seq<Member>)
    requires Same(Obj(a), Obj(b))
    ensures a == [] <==> b == []
  {
    if a != [] { assert HasPair(a[0], b); }
    if b != [] { assert Named(b[0].name, a); }
  }

  /** Members before the others do not tell two objects apart. */
  lemma {:induction false} SameAdded(common: seq<Member>, a: seq<Member>, b: seq<Member>)
    requires Same(Obj(a), Obj(b))
    ensures Same(Obj(common + a), Obj(common + b))
  {
    hide Same, HasPair, Named;
    forall i | 0 <= i < |common + a| ensures HasPair((common + a)[i], common + b) {
      var m := (common + a)[i];
      if i < |common| {
        SameAsItself(m.value);
        MakePair(m, common + b, (common + b)[i]);
      } else {
        var n := PairOf(a, b, a[i - |common|]);
        MakePair(m, common + b, n);
      }
    }
    forall j | 0 <= j < |common + b| ensures Named((common + b)[j].name, common + a) {
      if j < |common| {
        MakeNamed((common + b)[j], common + a, (common + a)[j]);
      } else {
        var m := NameOf(a, b, b[j - |common|]);
        MakeNamed((common + b)[j], common + a, m);
      }
    }
    PairsMakeSame(common + a, common + b);
  }

  lemma {:induction false} SameAsItself(v: Value)
    ensures Same(v, v)
  {
    hide HasPair, Named;
    match v
    case Arr(items) =>
      forall i | 0 <= i < |items| ensures Same(items[i], items[i]) { SameAsItself(items[i]); }
    case Obj(members) =>
      forall i | 0 <= i < |members| ensures HasPair(members[i], members) && Named(members[i].name, members) {
        MemberIsBelow(v, members[i]);
        SameAsItself(members[i].value);
        MakePair(members[i], members, members[i]);
        MakeNamed(members[i], members, members[i]);
      }
    case _ =>
  }

  lemma {:induction false} EqualIsSame(r: Record, s: Record)
    requires Telling(r, s) && ExtraApart(r) && ExtraApart(s)
    requires Encoding(r) == Encoding(s)
    ensures SameRecord(r, s)
  {
    hide *;
    EqualFields(r, s);
    FieldsAgree(r, s);
    DecimalIsInjective(r.seqNo, s.seqNo);
    DecimalIsInjective(r.tsUnixMs, s.tsUnixMs);
    DecimalIsInjective(r.latencyMs, s.latencyMs);
    LaterAgree(r, s);
    LaterAreTheirs(r, s);
    ExtrasAreSame(r, s);
    AgreeIsSame(r, s);
  }

  /** The v1 fields agree. */
  ghost predicate V1Agree(r: Record, s: Record) {
    && r.agent == s.agent && r.server == s.server
    && r.methodName.GetOr("") == s.methodName.GetOr("") && r.tool.GetOr("") == s.tool.GetOr("")
    && r.decision == s.decision && r.rule.GetOr("") == s.rule.GetOr("")
    && r.prevHash == s.prevHash
  }

  lemma {:induction false} FieldsAgree(r: Record, s: Record)
    requires AllFields(r) == AllFields(s)
    ensures Decimal(r.seqNo) == Decimal(s.seqNo) && Decimal(r.tsUnixMs) == Decimal(s.tsUnixMs)
    ensures Decimal(r.latencyMs) == Decimal(s.latencyMs)
    ensures V1Agree(r, s)
    ensures LaterText(r) == LaterText(s)
  {
    hide Decimal, LaterText;
    var fs, gs := AllFields(r), AllFields(s);
    assert fs[0] == gs[0] && fs[1] == gs[1] && fs[2] == gs[2] && fs[3] == gs[3] && fs[4] == gs[4];
    assert fs[5] == gs[5] && fs[6] == gs[6] && fs[7] == gs[7] && fs[8] == gs[8] && fs[9] == gs[9];
    if LaterText(r).Some? {
      assert fs[10] == gs[10];
    }
  }

  lemma {:induction false} LaterAgree(r: Record, s: Record)
    requires ExtraApart(r) && ExtraApart(s) && LaterText(r) == LaterText(s)
    ensures Same(Obj(LaterMembers(r)), Obj(LaterMembers(s)))
  {
    hide LaterMembers, Same, Canon, ExtraApart, WellFormed;
    LaterIsWellFormed(r);
    LaterIsWellFormed(s);
    if LaterText(r).Some? {
      CanonIsTheValue(Obj(LaterMembers(r)), Obj(LaterMembers(s)));
    } else {
      NoneAreSame(LaterMembers(r), LaterMembers(s));
    }
  }

  lemma {:induction false} NoneAreSame(ms: seq<Member>, ns: seq<Member>)
    requires ms == [] && ns == []
    ensures Same(Obj(ms), Obj(ns))
  {
  }

  lemma {:induction false} AgreeIsSame(r: Record, s: Record)
    requires V1Agree(r, s) && r.seqNo == s.seqNo && r.tsUnixMs == s.tsUnixMs && r.latencyMs == s.latencyMs
    requires r.kind == s.kind && r.uri == s.uri && r.actor == s.actor && r.peer == s.peer
    requires r.configFrom == s.configFrom && r.configTo == s.configTo
    requires r.transforms == s.transforms && r.toolChanges == s.toolChanges
    requires Same(Obj(NonNull(r.extra)), Obj(NonNull(s.extra)))
    ensures SameRecord(r, s)
  {
  }

  // ----- With a separator in each, they can be confused

  /** A separator moved from one field to the next shows nowhere. */
  lemma {:induction false} SeparatorsConfuse(r: Record)
    ensures var a, b := r.(agent := ['a', US, 'b'], server := "c"), r.(agent := "a", server := ['b', US, 'c']);
            Encoding(a) == Encoding(b) && !SameRecord(a, b)
  {
    hide Join, Decimal, LaterMembers, Canon;
    var a, b := r.(agent := ['a', US, 'b'], server := "c"), r.(agent := "a", server := ['b', US, 'c']);
    SameMembers(a, b);
    var fs, gs := AllFields(a), AllFields(b);
    var rest := fs[4..];
    assert gs[4..] == rest;
    JoinStep(fs);
    JoinStep(gs);
    JoinStep(fs[1..]);
    JoinStep(gs[1..]);
    assert "a" + [US] + "b" == ['a', US, 'b'] && "b" + [US] + "c" == ['b', US, 'c'];
    assert fs[1..][1..] == [['a', US, 'b'], "c"] + rest && gs[1..][1..] == ["a", ['b', US, 'c']] + rest;
    assert fs[0] == gs[0] && fs[1..][0] == gs[1..][0];
    JoinShifts("a", "b", "c", rest);
  }

  lemma {:induction false} SameMembers(a: Record, b: Record)
    requires b == a.(agent := b.agent, server := b.server)
    ensures LaterText(a) == LaterText(b)
  {
    hide Canon, NamedMembers, NonNull;
    SameNamed(a, b, NAMES);
  }

  lemma {:induction false} JoinStep(fs: seq<string>)
    requires |fs| > 1
    ensures Join(fs) == fs[0] + ([US] + Join(fs[1..]))
  {
  }

  lemma {:induction false} JoinShifts(x: string, y: string, z: string, rest: seq<string>)
    requires rest != []
    ensures Join([x + [US] + y, z] + rest) == Join([x, y + [US] + z] + rest)
  {
    hide Join;
    JoinStep([x + [US] + y, z] + rest);
    JoinStep([x, y + [US] + z] + rest);
    assert ([x + [US] + y, z] + rest)[1..] == [z] + rest && ([x, y + [US] + z] + rest)[1..] == [y + [US] + z] + rest;
    JoinStep([z] + rest);
    JoinStep([y + [US] + z] + rest);
    assert ([z] + rest)[1..] == rest && ([y + [US] + z] + rest)[1..] == rest;
    var j := Join(rest);
    assert (x + [US] + y) + ([US] + (z + ([US] + j))) == x + ([US] + ((y + [US] + z) + ([US] + j)));
  }

  // ----- The encoding, spelled out

  /** A later member, under the name it is written by. */
  ghost predicate IsLater(r: Record, m: Member) {
    || (m.name == "kind" && r.kind.Some? && m.value == Str(r.kind.value))
    || (m.name == "uri" && r.uri.Some? && m.value == Str(r.uri.value))
    || (m.name == "actor" && r.actor.Some? && m.value == Str(r.actor.value))
    || (m.name == "peer" && r.peer.Some? && m.value == Str(r.peer.value))
    || (m.name == "config_from" && r.configFrom.Some? && m.value == Str(r.configFrom.value))
    || (m.name == "config_to" && r.configTo.Some? && m.value == Str(r.configTo.value))
    || (m.name == "transforms" && r.transforms.Some? && IsStrings(m.value, r.transforms.value))
    || (m.name == "tool_changes" && r.toolChanges.Some? && IsCounts(m.value, r.toolChanges.value))
    || (m in r.extra && m.value != Null)
  }

  ghost predicate IsStrings(v: Value, ss: seq<string>) {
    v.Arr? && |v.items| == |ss| && forall i :: 0 <= i < |ss| ==> v.items[i] == Str(ss[i])
  }

  ghost predicate IsCounts(v: Value, c: ToolChanges) {
    v == Obj([Entry("added", Num(c.added)), Entry("removed", Num(c.removed)),
              Entry("changed", Num(c.changed)), Entry("drifted", Num(c.drifted))])
  }

  function OrEmpty(s: Option<string>): string { if s.Some? then s.value else "" }

  const SEP: string := "\U{001F}"

  /** The ten fields every record has, in their order, the separator between each two;
    * then, if there are later members, one more and the canonical text of them all. */
  lemma {:induction false} EncodingSpelled(r: Record, later: seq<Member>)
    requires ExtraApart(r) && Distinct(later) && forall m :: m in later <==> IsLater(r, m)
    ensures Encoding(r) ==
            Decimal(r.seqNo) + SEP + Decimal(r.tsUnixMs) + SEP + r.agent + SEP + r.server + SEP
            + OrEmpty(r.methodName) + SEP + OrEmpty(r.tool) + SEP + r.decision + SEP + OrEmpty(r.rule) + SEP
            + Decimal(r.latencyMs) + SEP + r.prevHash
            + (if later == [] then "" else SEP + Canon(Obj(later)))
  {
    hide Decimal, Canon, LaterMembers, ExtraApart, WellFormed, IsLater;
    LaterIs(r);
    LaterIsWellFormed(r);
    ApartIsDistinct(LaterMembers(r));
    SameMembersSameText(LaterMembers(r), later);
    var f := AllFields(r);
    var tail := if later == [] then f[9..] else [r.prevHash, Canon(Obj(later))];
    assert f[9..] == tail;
    var end := r.prevHash + (if later == [] then "" else SEP + Canon(Obj(later)));
    JoinEnd(tail, end, later == []);
    JoinNine(f, end);
  }

  lemma {:induction false} JoinEnd(tail: seq<string>, end: string, alone: bool)
    requires if alone then |tail| == 1 && end == tail[0] else |tail| == 2 && end == tail[0] + (SEP + tail[1])
    ensures Join(tail) == end
  {
    if !alone { assert Join(tail[1..]) == tail[1]; }
  }

  lemma {:induction false} JoinNine(f: seq<string>, end: string)
    requires |f| >= 10 && Join(f[9..]) == end
    ensures Join(f) == f[0] + SEP + f[1] + SEP + f[2] + SEP + f[3] + SEP + f[4] + SEP + f[5] + SEP + f[6] + SEP + f[7]
                       + SEP + f[8] + SEP + end
  {
    hide Join;
    assert f[0..] == f && Join(f) == "" + Join(f[0..]);
    JoinOn("", f, 0);
    var p := f[0] + SEP;
    assert "" + f[0] + SEP == p;
    JoinOn(p, f, 1);
    JoinOn(p + f[1] + SEP, f, 2);
    JoinOn(p + f[1] + SEP + f[2] + SEP, f, 3);
    JoinOn(p + f[1] + SEP + f[2] + SEP + f[3] + SEP, f, 4);
    JoinOn(p + f[1] + SEP + f[2] + SEP + f[3] + SEP + f[4] + SEP, f, 5);
    JoinOn(p + f[1] + SEP + f[2] + SEP + f[3] + SEP + f[4] + SEP + f[5] + SEP, f, 6);
    JoinOn(p + f[1] + SEP + f[2] + SEP + f[3] + SEP + f[4] + SEP + f[5] + SEP + f[6] + SEP, f, 7);
    JoinOn(p + f[1] + SEP + f[2] + SEP + f[3] + SEP + f[4] + SEP + f[5] + SEP + f[6] + SEP + f[7] + SEP, f, 8);
  }

  lemma {:induction false} JoinOn(before: string, f: seq<string>, k: nat)
    requires k + 1 < |f|
    ensures before + Join(f[k..]) == (before + f[k] + SEP) + Join(f[k + 1..])
  {
    hide Join;
    JoinFrom(f, k);
  }

  lemma {:induction false} JoinFrom(f: seq<string>, k: nat)
    requires k + 1 < |f|
    ensures Join(f[k..]) == f[k] + SEP + Join(f[k + 1..])
  {
    hide Join;
    JoinStep(f[k..]);
    assert f[k..][1..] == f[k + 1..];
  }

  lemma {:induction false} LaterIs(r: Record)
    requires ExtraApart(r)
    ensures forall m :: m in LaterMembers(r) <==> IsLater(r, m)
  {
    hide LaterMembers, WellFormed, IsCounts, ChangesValue;
    forall m ensures m in LaterMembers(r) <==> IsLater(r, m) {
      InLater(r, m);
      NamesAre(m.name);
      if r.transforms.Some? { StringsAre(m.value, r.transforms.value); }
      if r.toolChanges.Some? { CountsAre(m.value, r.toolChanges.value); }
    }
  }

  lemma {:induction false} NamesAre(name: string)
    ensures name in NAMES <==>
            name in {"kind", "uri", "actor", "peer", "config_from", "config_to", "transforms", "tool_changes"}
  {
  }

  lemma {:induction false} StringsAre(v: Value, ss: seq<string>)
    ensures v == Arr(Strings(ss)) <==> IsStrings(v, ss)
  {
  }

  lemma {:induction false} CountsAre(v: Value, c: ToolChanges)
    ensures v == ChangesValue(c) <==> IsCounts(v, c)
  {
  }

  /** The text is that of the members, however they are listed. */
  lemma {:induction false} SameMembersSameText(a: seq<Member>, b: seq<Member>)
    requires Distinct(a) && Distinct(b) && forall m :: m in a <==> m in b
    ensures Canon(Obj(a)) == Canon(Obj(b)) && (a == [] <==> b == [])
  {
    hide Canon, JsonStr;
    SortedAscends(a);
    var inOrder := Sorted(a);
    var texts := seq(|inOrder|, i requires 0 <= i < |inOrder| =>
      JsonStr(inOrder[i].name) + ":" + Canon(inOrder[i].value));
    ObjectText(a, inOrder, texts);
    ObjectText(b, inOrder, texts);
    if a != [] { assert a[0] in b; }
    if b != [] { assert b[0] in a; }
  }

  lemma {:induction false} ApartIsDistinct(ms: seq<Member>)
    requires WellFormed(Obj(ms))
    ensures Distinct(ms)
  {
  }
}
