/** The scanner: where each rule's spans are in a text, the first finding, and all of them. */
module Scanning {
  import opened Wrappers
  import opened Text
  import opened Painting

  // ----- Occurrences and runs

  /** `needle`, which is not empty, starts at `at`. */
  predicate Starts(text: string, needle: string, at: nat) { needle != "" && OccursAt(text, needle, at) }

  /** The starts of `needle` in `text`, in order; two may overlap. */
  method Occurrences(text: string, needle: string) returns (places: seq<nat>)
    ensures forall at: nat :: at in places <==> Starts(text, needle, at)
    ensures forall i, j :: 0 <= i < j < |places| ==> places[i] < places[j]
  {
    places := [];
    if needle == "" || !Contains(text, needle) {
      return;
    }
    var from := 0;
    while true
      invariant forall at: nat :: at in places <==> at < from && OccursAt(text, needle, at)
      invariant forall i, j :: 0 <= i < j < |places| ==> places[i] < places[j]
      invariant forall i :: 0 <= i < |places| ==> places[i] < from
      decreases |text| - from
    {
      var next := FindFrom(text, needle, from);
      if next.None? {
        return;
      }
      places := places + [next.value];
      from := next.value + 1;
    }
  }

  /** The first place at or past `from` whose character `allowed` does not take. */
  function RunEnd(text: string, from: nat, allowed: char -> bool): (end: nat)
    requires from <= |text|
    ensures from <= end <= |text| && (end < |text| ==> !allowed(text[end]))
    ensures forall i :: from <= i < end ==> allowed(text[i])
    decreases |text| - from
  {
    if from < |text| && allowed(text[from]) then RunEnd(text, from + 1, allowed) else from
  }

  // ----- Characters

  predicate UpperAlnum(c: char) { IsUpper(c) || IsDigit(c) }

  predicate AlnumDash(c: char) { IsAlnum(c) || c == '-' }

  predicate Word(c: char) { IsAlnum(c) || c == '_' }

  /** The characters that carry a secret on past the substring it starts with. */
  predicate SecretTail(c: char) { IsAlnum(c) || c in {'-', '_', '.', '+', '/', '='} }

  predicate Label(c: char) { UpperAlnum(c) || c == ' ' }

  // ----- The rules' spans

  /** One kind of credential: its prefix, how many more characters it has at the
    * least, and which those can be. */
  datatype Token = Token(rule: Rule, prefix: string, least: nat, body: char -> bool)

  const TOKENS: seq<Token> := [
    Token(AwsAccessKey, "AKIA", 16, UpperAlnum),
    Token(AwsAccessKey, "ASIA", 16, UpperAlnum),
    Token(SlackToken, "xoxb-", 10, AlnumDash),
    Token(SlackToken, "xoxp-", 10, AlnumDash),
    Token(SlackToken, "xoxa-", 10, AlnumDash),
    Token(SlackToken, "xoxo-", 10, AlnumDash),
    Token(SlackToken, "xoxr-", 10, AlnumDash),
    Token(SlackToken, "xoxs-", 10, AlnumDash),
    Token(GithubToken, "ghp_", 20, IsAlnum),
    Token(GithubToken, "gho_", 20, IsAlnum),
    Token(GithubToken, "ghs_", 20, IsAlnum),
    Token(GithubToken, "ghu_", 20, IsAlnum),
    Token(GithubToken, "ghr_", 20, IsAlnum),
    Token(GithubToken, "github_pat_", 20, Word),
    Token(StripeLiveKey, "sk_live_", 16, IsAlnum)
  ]

  const INJECTION_PHRASES: seq<(string, Rule)> := [
    ("ignore previous instructions", IgnorePreviousInstructions),
    ("ignore all previous instructions", IgnorePreviousInstructions),
    ("ignore all prior instructions", IgnorePreviousInstructions),
    ("ignore the above instructions", IgnorePreviousInstructions),
    ("disregard previous instructions", DisregardPreviousInstructions),
    ("disregard all previous instructions", DisregardPreviousInstructions),
    ("disregard the above", DisregardPreviousInstructions),
    ("do not tell the user", ConcealFromUser),
    ("do not mention this to the user", ConcealFromUser),
    ("without telling the user", ConcealFromUser),
    ("without informing the user", ConcealFromUser)
  ]

  datatype Range = Range(start: nat, end: nat)

  ghost predicate TokenAt(text: string, token: Token, r: Range) {
    && Starts(text, token.prefix, r.start)
    && r.end == RunEnd(text, r.start + |token.prefix|, token.body)
    && r.end - (r.start + |token.prefix|) >= token.least
  }

  ghost predicate SecretAt(text: string, s: string, r: Range) {
    Starts(text, s, r.start) && r.end == RunEnd(text, r.start + |s|, SecretTail)
  }

  ghost predicate PhraseAt(text: string, phrase: string, r: Range) {
    Starts(Lower(text), phrase, r.start) && r.end == r.start + |phrase|
  }

  // ----- Private keys

  const PEM_BEGIN: string := "-----BEGIN"
  const PEM_END: string := "-----END"
  const PEM_DASHES: string := "-----"
  const PRIVATE_KEY: string := "PRIVATE KEY"

  /** The end of a trailer: past its tail, and past the dashes after that if there are any. */
  function TrailerEnd(text: string, at: nat): (end: nat)
    requires OccursAt(text, PEM_END, at)
    ensures at + |PEM_END| <= end <= |text|
  {
    var end := RunEnd(text, at + |PEM_END|, Label);
    if OccursAt(text, PEM_DASHES, end) then end + |PEM_DASHES| else end
  }

  /** Where the block whose header is at `at` ends. */
  function BlockEnd(text: string, at: nat): (end: nat)
    requires OccursAt(text, PEM_BEGIN, at)
    ensures at + |PEM_BEGIN| <= end <= |text|
    ensures forall next: nat :: at + |PEM_BEGIN| <= next && OccursAt(text, PEM_BEGIN, next) ==> end <= next
  {
    var body := at + |PEM_BEGIN|;
    var next := FindFrom(text, PEM_BEGIN, body);
    var trailer := FindFrom(text, PEM_END, body);
    if trailer.Some? && (next.None? || trailer.value < next.value) then
      var end := TrailerEnd(text, trailer.value);
      if next.Some? && next.value < end then next.value else end
    else if next.Some? then next.value
    else |text|
  }

  /** Where `needle` first stands at or past `from`; `|text|` when it does not. */
  ghost predicate FirstOf(text: string, needle: string, from: nat, at: nat) {
    && from <= at <= |text|
    && (at < |text| ==> OccursAt(text, needle, at))
    && forall k: nat :: from <= k < at ==> !OccursAt(text, needle, k)
  }

  /** From `from` to `to` all characters are `ok`, and there is none more. */
  ghost predicate RunTo(text: string, from: nat, to: nat, ok: char -> bool) {
    && from <= to <= |text|
    && (forall k :: from <= k < to ==> ok(text[k]))
    && (to < |text| ==> !ok(text[to]))
  }

  /** Capitals, digits and spaces. */
  ghost function LabelChars(): char -> bool { c => 'A' <= c <= 'Z' || '0' <= c <= '9' || c == ' ' }

  /** A block by what stands in the text: `next` is where the header after its own is,
    * `trailer` where a trailer first is, and `tail` where that trailer's label ends. */
  ghost predicate PemBlock(text: string, r: Range, next: nat, trailer: nat, tail: nat) {
    && OccursAt(text, "-----BEGIN", r.start)
    && FirstOf(text, "-----BEGIN", r.start + 10, next)
    && FirstOf(text, "-----END", r.start + 10, trailer)
    && if next <= trailer then r.end == next
       else
         && RunTo(text, trailer + 8, tail, LabelChars())
         && var end := if OccursAt(text, "-----", tail) then tail + 5 else tail;
            r.end == if next < end then next else end
  }

  /** A header and what it heads: through the first trailer after it, up to the next
    * header at most; and where no trailer comes before that, up to there. */
  ghost predicate IsBlock(text: string, r: Range) {
    exists next: nat, trailer: nat, tail: nat :: PemBlock(text, r, next, trailer, tail)
  }

  /** A header, and where the code has its block end. */
  predicate CutAt(text: string, r: Range) {
    OccursAt(text, PEM_BEGIN, r.start) && r.end == BlockEnd(text, r.start)
  }

  lemma {:induction false} FindsFirst(text: string, needle: string, from: nat)
    requires from <= |text| && needle != ""
    ensures var r := FindFrom(text, needle, from); FirstOf(text, needle, from, r.GetOr(|text|))
  {
  }

  lemma {:induction false} OneFirst(text: string, needle: string, from: nat, a: nat, b: nat)
    requires FirstOf(text, needle, from, a) && FirstOf(text, needle, from, b)
    ensures a == b
  {
    hide OccursAt;
  }

  lemma {:induction false} OneRun(text: string, from: nat, a: nat, b: nat, ok: char -> bool)
    requires RunTo(text, from, a, ok) && RunTo(text, from, b, ok)
    ensures a == b
  {
  }

  lemma {:induction false} LabelRuns(text: string, from: nat)
    requires from <= |text|
    ensures RunTo(text, from, RunEnd(text, from, Label), LabelChars())
  {
  }

  /** The code cuts each block where it ends. */
  lemma {:induction false} CutIsBlock(text: string, r: Range)
    ensures CutAt(text, r) <==> IsBlock(text, r)
  {
    hide OccursAt, RunTo, FirstOf, FindFrom;
    if OccursAt(text, PEM_BEGIN, r.start) {
      var next, trailer, tail := CutPoints(text, r.start);
      if other, t, l :| PemBlock(text, r, other, t, l) {
        OneFirst(text, "-----BEGIN", r.start + 10, next, other);
        OneFirst(text, "-----END", r.start + 10, trailer, t);
        if trailer < next { OneRun(text, trailer + 8, tail, l, LabelChars()); }
      }
    }
  }

  lemma {:induction false} CutPoints(text: string, at: nat) returns (next: nat, trailer: nat, tail: nat)
    requires OccursAt(text, PEM_BEGIN, at)
    ensures PemBlock(text, Range(at, BlockEnd(text, at)), next, trailer, tail)
  {
    hide FirstOf, RunTo, OccursAt, FindFrom, TrailerEnd;
    assert at + |PEM_BEGIN| <= BlockEnd(text, at) <= |text|;
    FindsFirst(text, PEM_BEGIN, at + |PEM_BEGIN|);
    FindsFirst(text, PEM_END, at + |PEM_BEGIN|);
    next := FindFrom(text, PEM_BEGIN, at + |PEM_BEGIN|).GetOr(|text|);
    trailer := FindFrom(text, PEM_END, at + |PEM_BEGIN|).GetOr(|text|);
    tail := 0;
    FirstIsWithin(text, PEM_BEGIN, at + |PEM_BEGIN|, next);
    FirstIsWithin(text, PEM_END, at + |PEM_BEGIN|, trailer);
    if trailer < next {
      tail := TrailerRuns(text, trailer);
    }
  }

  lemma {:induction false} FirstIsWithin(text: string, needle: string, from: nat, at: nat)
    requires FirstOf(text, needle, from, at)
    ensures at <= |text| && (at < |text| ==> OccursAt(text, needle, at))
  {
    hide OccursAt;
  }

  lemma {:induction false} TrailerRuns(text: string, at: nat) returns (tail: nat)
    requires OccursAt(text, PEM_END, at)
    ensures RunTo(text, at + 8, tail, LabelChars())
    ensures TrailerEnd(text, at) == if OccursAt(text, "-----", tail) then tail + 5 else tail
  {
    hide RunTo;
    tail := RunEnd(text, at + 8, Label);
    LabelRuns(text, at + 8);
  }

  /** No header starts within another: the marker has no border. */
  lemma {:induction false} HeadersApart(text: string, a: nat, b: nat)
    requires OccursAt(text, PEM_BEGIN, a) && OccursAt(text, PEM_BEGIN, b) && a < b
    ensures a + |PEM_BEGIN| <= b
  {
    hide OccursAt;
    CharOf(text, PEM_BEGIN, a, 9);
    if b <= a + 9 { CharOf(text, PEM_BEGIN, b, a + 9 - b); }
  }

  lemma {:induction false} CharOf(text: string, needle: string, at: nat, k: nat)
    requires OccursAt(text, needle, at) && k < |needle|
    ensures at + k < |text| && text[at + k] == needle[k]
  {
    assert text[at..at + |needle|][k] == text[at + k];
  }

  /** The blocks: one for each header, in order, none reaching the next. */
  method PemBlocks(text: string) returns (blocks: seq<Range>)
    ensures forall r :: r in blocks <==> IsBlock(text, r)
    ensures forall r :: IsBlock(text, r) <==> CutAt(text, r)
    ensures forall i, j :: 0 <= i < j < |blocks| ==> blocks[i].end <= blocks[j].start
    ensures forall at: nat :: OccursAt(text, PEM_BEGIN, at) ==> exists i :: 0 <= i < |blocks| && blocks[i].start == at
  {
    hide BlockEnd, OccursAt, IsBlock;
    blocks := [];
    var from := 0;
    while true
      invariant forall r :: r in blocks <==> CutAt(text, r) && r.start < from
      invariant forall i :: 0 <= i < |blocks| ==> blocks[i].end <= from
      invariant forall i, j :: 0 <= i < j < |blocks| ==> blocks[i].end <= blocks[j].start
      invariant from <= |text|
      decreases |text| - from
    {
      var at := FindFrom(text, PEM_BEGIN, from);
      if at.None? {
        break;
      }
      var end := BlockEnd(text, at.value);
      forall next: nat | at.value < next < end ensures !OccursAt(text, PEM_BEGIN, next) {
        if OccursAt(text, PEM_BEGIN, next) { HeadersApart(text, at.value, next); }
      }
      blocks := blocks + [Range(at.value, end)];
      from := end;
    }
    forall at: nat | OccursAt(text, PEM_BEGIN, at) ensures exists i :: 0 <= i < |blocks| && blocks[i].start == at {
      assert Range(at, BlockEnd(text, at)) in blocks;
    }
    forall r ensures IsBlock(text, r) <==> CutAt(text, r) { CutIsBlock(text, r); }
  }

  /** The words that make a block a key's stand from `from` to `to`. */
  ghost predicate WordsIn(text: string, from: nat, to: nat) {
    exists at: nat :: from <= at && at + 11 <= to && OccursAt(text, "PRIVATE KEY", at)
  }

  predicate HoldsKey(text: string, r: Range) {
    r.start <= r.end <= |text| && Contains(text[r.start..r.end], PRIVATE_KEY)
  }

  lemma {:induction false} HoldsWords(text: string, r: Range)
    requires r.start <= r.end <= |text|
    ensures HoldsKey(text, r) <==> WordsIn(text, r.start, r.end)
  {
    hide OccursAt;
    var part := text[r.start..r.end];
    if at: nat :| OccursAt(part, PRIVATE_KEY, at) {
      OccursWithin(text, PRIVATE_KEY, r, at);
    }
    if at: nat :| r.start <= at && at + 11 <= r.end && OccursAt(text, "PRIVATE KEY", at) {
      OccursWithin(text, PRIVATE_KEY, r, at - r.start);
    }
  }

  lemma {:induction false} OccursWithin(text: string, needle: string, r: Range, at: nat)
    requires r.start <= r.end <= |text|
    ensures OccursAt(text[r.start..r.end], needle, at) <==>
              r.start + at + |needle| <= r.end && OccursAt(text, needle, r.start + at)
  {
    var part, n := text[r.start..r.end], |needle|;
    if r.start + at + n <= r.end {
      var inner, outer := part[at..at + n], text[r.start + at..r.start + at + n];
      forall k | 0 <= k < n ensures inner[k] == outer[k] { assert part[at + k] == text[r.start + (at + k)]; }
      assert inner == outer;
    }
  }

  /** A block that holds the words, or any block when they stand outside all of them. */
  ghost predicate KeySpan(text: string, r: Range) {
    && IsBlock(text, r)
    && WordsIn(text, 0, |text|)
    && (|| WordsIn(text, r.start, r.end)
        || forall other :: IsBlock(text, other) ==> !WordsIn(text, other.start, other.end))
  }

  /** Which of the blocks are keys, as the code picks them. */
  lemma {:induction false} KeyIsPicked(text: string)
    requires forall r :: IsBlock(text, r) <==> CutAt(text, r)
    ensures Contains(text, PRIVATE_KEY) <==> WordsIn(text, 0, |text|)
    ensures forall r :: IsBlock(text, r) ==> (HoldsKey(text, r) <==> WordsIn(text, r.start, r.end))
  {
    hide IsBlock, HoldsKey, WordsIn, BlockEnd;
    assert text[0..|text|] == text;
    HoldsAll(text);
    HoldsWords(text, Range(0, |text|));
    forall r | IsBlock(text, r) ensures HoldsKey(text, r) <==> WordsIn(text, r.start, r.end) { HoldsWords(text, r); }
  }

  lemma {:induction false} HoldsAll(text: string)
    ensures HoldsKey(text, Range(0, |text|)) <==> Contains(text, PRIVATE_KEY)
  {
    hide Contains;
    assert text[0..|text|] == text;
  }

  /** What the rule for private keys finds. */
  method PrivateKeys(text: string) returns (keys: seq<Range>)
    ensures forall r :: r in keys <==> KeySpan(text, r)
    ensures keys != [] <==> Contains(text, PEM_BEGIN) && Contains(text, PRIVATE_KEY)
  {
    hide OccursAt, BlockEnd, HoldsKey, Contains, IsBlock, WordsIn;
    forall r ensures IsBlock(text, r) <==> CutAt(text, r) { CutIsBlock(text, r); }
    KeyIsPicked(text);
    if !Contains(text, PRIVATE_KEY) {
      return [];
    }
    var blocks := PemBlocks(text);
    keys := [];
    for i := 0 to |blocks|
      invariant forall r :: r in keys <==> r in blocks[..i] && HoldsKey(text, r)
    {
      assert blocks[..i + 1] == blocks[..i] + [blocks[i]];
      assert IsBlock(text, blocks[i]);
      if HoldsKey(text, blocks[i]) {
        keys := keys + [blocks[i]];
      }
    }
    assert blocks[..|blocks|] == blocks;
    if keys == [] {
      keys := blocks;
      forall other | IsBlock(text, other) ensures !HoldsKey(text, other) { assert other in blocks; }
    } else {
      assert keys[0] in keys;
      assert IsBlock(text, keys[0]) && HoldsKey(text, keys[0]);
    }
    if keys != [] { assert OccursAt(text, PEM_BEGIN, keys[0].start) by { assert keys[0] in keys; } }
  }

  /** The rule fires exactly when the text holds both markers. */
  lemma {:induction false} PrivateKeyFires(text: string)
    ensures (exists r :: KeySpan(text, r)) <==> Contains(text, PEM_BEGIN) && Contains(text, PRIVATE_KEY)
  {
    hide BlockEnd, HoldsKey, Contains, OccursAt, IsBlock, WordsIn;
    forall r ensures IsBlock(text, r) <==> CutAt(text, r) { CutIsBlock(text, r); }
    KeyIsPicked(text);
    if Contains(text, PEM_BEGIN) && Contains(text, PRIVATE_KEY) {
      var at: nat :| OccursAt(text, PEM_BEGIN, at);
      var block := Range(at, BlockEnd(text, at));
      assert IsBlock(text, block);
      if other :| IsBlock(text, other) && WordsIn(text, other.start, other.end) {
        assert KeySpan(text, other);
      } else {
        assert KeySpan(text, block);
      }
    }
  }

  // ----- Scanning

  /** What an operator adds: phrases, in small letters, and secret substrings. */
  datatype Scanner = Scanner(extraInjection: seq<string>, extraSecrets: seq<string>)

  /** A span of `rule` in `text`. */
  ghost predicate SpanOf(scanner: Scanner, rule: Rule, text: string, r: Range) {
    match rule
    case PrivateKey => KeySpan(text, r)
    case CustomSecret => AnySecretAt(text, scanner.extraSecrets, r)
    case CustomInjection => AnyPhraseAt(text, scanner.extraInjection, r)
    case IgnorePreviousInstructions => AnyPhraseAt(text, PhrasesOf(rule), r)
    case DisregardPreviousInstructions => AnyPhraseAt(text, PhrasesOf(rule), r)
    case ConcealFromUser => AnyPhraseAt(text, PhrasesOf(rule), r)
    case _ => exists i :: 0 <= i < |TOKENS| && TOKENS[i].rule == rule && TokenAt(text, TOKENS[i], r)
  }

  ghost predicate AnySecretAt(text: string, secrets: seq<string>, r: Range) {
    exists i :: 0 <= i < |secrets| && SecretAt(text, secrets[i], r)
  }

  ghost predicate AnyPhraseAt(text: string, phrases: seq<string>, r: Range) {
    exists i :: 0 <= i < |phrases| && PhraseAt(text, phrases[i], r)
  }

  function PhrasesFrom(rule: Rule, k: nat): (ps: seq<string>)
    requires k <= |INJECTION_PHRASES|
    ensures forall p :: p in ps <==> exists i :: k <= i < |INJECTION_PHRASES| && INJECTION_PHRASES[i] == (p, rule)
    decreases |INJECTION_PHRASES| - k
  {
    if k == |INJECTION_PHRASES| then []
    else (if INJECTION_PHRASES[k].1 == rule then [INJECTION_PHRASES[k].0] else []) + PhrasesFrom(rule, k + 1)
  }

  function PhrasesOf(rule: Rule): (ps: seq<string>)
    ensures forall p :: p in ps <==> (p, rule) in INJECTION_PHRASES
  {
    PhrasesFrom(rule, 0)
  }

  /** No span is empty, or runs past the text. */
  lemma {:induction false} SpanIsInText(scanner: Scanner, rule: Rule, text: string, r: Range)
    requires SpanOf(scanner, rule, text, r)
    ensures r.start < r.end <= |text|
  {
    hide RunEnd, BlockEnd, PhrasesOf, TOKENS;
  }

  method PhraseSpans(text: string, phrases: seq<string>) returns (spans: seq<Range>)
    ensures forall r :: r in spans <==> AnyPhraseAt(text, phrases, r)
  {
    hide Lower, OccursAt;
    var lower := Lower(text);
    spans := [];
    for i := 0 to |phrases|
      invariant forall r :: r in spans <==> AnyPhraseAt(text, phrases[..i], r)
    {
      var places := Occurrences(lower, phrases[i]);
      var some := seq(|places|, k requires 0 <= k < |places| => Range(places[k], places[k] + |phrases[i]|));
      forall r ensures r in some <==> PhraseAt(text, phrases[i], r) {
        if PhraseAt(text, phrases[i], r) {
          var k :| 0 <= k < |places| && places[k] == r.start;
          assert some[k] == r;
        }
      }
      PhraseMore(text, phrases, i);
      spans := spans + some;
    }
    assert phrases[..|phrases|] == phrases;
  }

  lemma {:induction false} PhraseMore(text: string, phrases: seq<string>, i: nat)
    requires i < |phrases|
    ensures forall r :: AnyPhraseAt(text, phrases[..i + 1], r) <==>
                        AnyPhraseAt(text, phrases[..i], r) || PhraseAt(text, phrases[i], r)
  {
    hide PhraseAt;
    var less, more := phrases[..i], phrases[..i + 1];
    forall r ensures AnyPhraseAt(text, phrases[..i + 1], r) <==>
                     AnyPhraseAt(text, phrases[..i], r) || PhraseAt(text, phrases[i], r) {
      if k :| 0 <= k < |less| && PhraseAt(text, less[k], r) { assert PhraseAt(text, more[k], r); }
      if PhraseAt(text, phrases[i], r) { assert PhraseAt(text, more[i], r); }
      if k :| 0 <= k < |more| && PhraseAt(text, more[k], r) { assert k < i ==> PhraseAt(text, less[k], r); }
    }
  }

  method SecretSpans(text: string, secrets: seq<string>) returns (spans: seq<Range>)
    ensures forall r :: r in spans <==> AnySecretAt(text, secrets, r)
  {
    hide OccursAt;
    spans := [];
    for i := 0 to |secrets|
      invariant forall r :: r in spans <==> AnySecretAt(text, secrets[..i], r)
    {
      var places := Occurrences(text, secrets[i]);
      StartsInText(text, secrets[i]);
      var some := seq(|places|, k requires 0 <= k < |places| =>
        assert places[k] in places;
        Range(places[k], RunEnd(text, places[k] + |secrets[i]|, SecretTail)));
      forall r ensures r in some <==> SecretAt(text, secrets[i], r) {
        if SecretAt(text, secrets[i], r) {
          var k :| 0 <= k < |places| && places[k] == r.start;
          assert some[k] == r;
        }
      }
      SecretMore(text, secrets, i);
      spans := spans + some;
    }
    assert secrets[..|secrets|] == secrets;
  }

  lemma {:induction false} StartsInText(text: string, needle: string)
    ensures forall at: nat :: Starts(text, needle, at) ==> at + |needle| <= |text|
  {
  }

  lemma {:induction false} SecretMore(text: string, secrets: seq<string>, i: nat)
    requires i < |secrets|
    ensures forall r :: AnySecretAt(text, secrets[..i + 1], r) <==>
                        AnySecretAt(text, secrets[..i], r) || SecretAt(text, secrets[i], r)
  {
    hide SecretAt;
    var less, more := secrets[..i], secrets[..i + 1];
    forall r ensures AnySecretAt(text, secrets[..i + 1], r) <==>
                     AnySecretAt(text, secrets[..i], r) || SecretAt(text, secrets[i], r) {
      if k :| 0 <= k < |less| && SecretAt(text, less[k], r) { assert SecretAt(text, more[k], r); }
      if SecretAt(text, secrets[i], r) { assert SecretAt(text, more[i], r); }
      if k :| 0 <= k < |more| && SecretAt(text, more[k], r) { assert k < i ==> SecretAt(text, less[k], r); }
    }
  }

  /** The spans of one token. */
  method TokenSpans(text: string, token: Token) returns (spans: seq<Range>)
    ensures forall r :: r in spans <==> TokenAt(text, token, r)
  {
    hide OccursAt;
    var places := Occurrences(text, token.prefix);
    StartsInText(text, token.prefix);
    spans := [];
    for i := 0 to |places|
      invariant forall r :: r in spans <==> r.start in places[..i] && TokenAt(text, token, r)
    {
      assert places[..i + 1] == places[..i] + [places[i]];
      assert places[i] in places;
      var body := places[i] + |token.prefix|;
      var end := RunEnd(text, body, token.body);
      if end - body >= token.least {
        spans := spans + [Range(places[i], end)];
      }
    }
    assert places[..|places|] == places;
  }

  /** All that one rule finds; its spans may overlap. */
  method Spans(scanner: Scanner, rule: Rule, text: string) returns (spans: seq<Range>)
    ensures forall r :: r in spans <==> SpanOf(scanner, rule, text, r)
  {
    hide TokenAt, SecretAt, PhraseAt, KeySpan, PhrasesFrom, AnyPhraseAt, AnySecretAt, TOKENS;
    match rule {
      case CustomSecret =>
        spans := SecretSpans(text, scanner.extraSecrets);
      case CustomInjection =>
        spans := PhraseSpans(text, scanner.extraInjection);
      case PrivateKey =>
        spans := PrivateKeys(text);
      case IgnorePreviousInstructions => spans := PhraseSpans(text, PhrasesOf(rule));
      case DisregardPreviousInstructions => spans := PhraseSpans(text, PhrasesOf(rule));
      case ConcealFromUser => spans := PhraseSpans(text, PhrasesOf(rule));
      case _ =>
        spans := [];
        for i := 0 to |TOKENS|
          invariant forall r :: r in spans <==>
                      exists k :: 0 <= k < i && TOKENS[k].rule == rule && TokenAt(text, TOKENS[k], r)
        {
          if TOKENS[i].rule == rule {
            var some := TokenSpans(text, TOKENS[i]);
            spans := spans + some;
          }
        }
    }
  }

  ghost predicate Fires(scanner: Scanner, rule: Rule, text: string) {
    exists r :: SpanOf(scanner, rule, text, r)
  }

  /** Goes through the rules in order and stops at the first that fires. */
  ghost predicate ScanOf(scanner: Scanner, text: string, found: Option<Rule>) {
    match found
    case None => forall rule :: !Fires(scanner, rule, text)
    case Some(first) =>
      && Fires(scanner, first, text)
      && forall rule: Rule :: rule.Place() < first.Place() ==> !Fires(scanner, rule, text)
  }

  method Scan(scanner: Scanner, text: string) returns (found: Option<Rule>)
    ensures ScanOf(scanner, text, found)
  {
    hide SpanOf;
    for i := 0 to |ALL|
      invariant forall rule: Rule :: rule.Place() < i ==> !Fires(scanner, rule, text)
    {
      var spans := Spans(scanner, ALL[i], text);
      assert forall rule: Rule :: rule.Place() == i ==> rule == ALL[i];
      if spans != [] {
        assert spans[0] in spans;
        return Some(ALL[i]);
      }
    }
    return None;
  }

  /** Some span of `rule` holds `x`. */
  ghost predicate Within(scanner: Scanner, rule: Rule, text: string, x: nat) {
    exists r :: SpanOf(scanner, rule, text, r) && r.start <= x < r.end
  }

  /** Every match: a tidy cover that gives each place of the text to the rule tried
    * first among those with a span that holds it. */
  ghost predicate MatchesOf(scanner: Scanner, text: string, matches: seq<Stretch>) {
    && Tidy(matches)
    && forall x: nat, rule: Rule :: Covers(matches, rule, x) <==>
         && Within(scanner, rule, text, x)
         && forall other: Rule :: other.Place() < rule.Place() ==> !Within(scanner, other, text, x)
  }

  method FindAll(scanner: Scanner, text: string) returns (matches: seq<Stretch>)
    ensures MatchesOf(scanner, text, matches)
  {
    hide SpanOf, Covers, Earliest, Tidy;
    var all: seq<Stretch> := [];
    for i := 0 to |ALL|
      invariant forall s :: s in all <==> s.rule.Place() < i && SpanOf(scanner, s.rule, text, Range(s.start, s.end))
    {
      var rule := ALL[i];
      assert forall other: Rule :: other.Place() == i ==> other == rule;
      var spans := Spans(scanner, rule, text);
      var some := seq(|spans|, k requires 0 <= k < |spans| => Stretch(rule, spans[k].start, spans[k].end));
      forall s: Stretch ensures s in some <==> s.rule == rule && SpanOf(scanner, rule, text, Range(s.start, s.end)) {
        AsStretch(spans, rule, some, s);
      }
      all := all + some;
    }
    forall i | 0 <= i < |all| ensures all[i].start <= all[i].end {
      assert all[i] in all;
      SpanIsInText(scanner, all[i].rule, text, Range(all[i].start, all[i].end));
    }
    matches := Paint(all);
    forall x: nat, rule ensures Covers(all, rule, x) <==> Within(scanner, rule, text, x) {
      CoversIsWithin(scanner, text, all, rule, x);
    }
    PaintedIsRight(scanner, text, all, matches);
  }

  lemma {:induction false} AsStretch(spans: seq<Range>, rule: Rule, some: seq<Stretch>, s: Stretch)
    requires |some| == |spans| && forall k :: 0 <= k < |spans| ==>
             some[k] == Stretch(rule, spans[k].start, spans[k].end)
    ensures s in some <==> s.rule == rule && Range(s.start, s.end) in spans
  {
    if s.rule == rule && Range(s.start, s.end) in spans {
      var k :| 0 <= k < |spans| && spans[k] == Range(s.start, s.end);
      assert some[k] == s;
    }
    if s in some {
      var k :| 0 <= k < |some| && some[k] == s;
      assert spans[k] == Range(s.start, s.end);
    }
  }

  lemma {:induction false} CoversIsWithin(scanner: Scanner, text: string, all: seq<Stretch>, rule: Rule, x: nat)
    requires forall s :: s in all <==> SpanOf(scanner, s.rule, text, Range(s.start, s.end))
    ensures Covers(all, rule, x) <==> Within(scanner, rule, text, x)
  {
    hide SpanOf;
    if i :| 0 <= i < |all| && Holds(all[i], rule, x) {
      assert all[i] in all;
      assert SpanOf(scanner, rule, text, Range(all[i].start, all[i].end));
    }
    if r :| SpanOf(scanner, rule, text, r) && r.start <= x < r.end {
      assert Range(r.start, r.end) == r;
      assert Stretch(rule, r.start, r.end) in all;
      var i :| 0 <= i < |all| && all[i] == Stretch(rule, r.start, r.end);
      assert Holds(all[i], rule, x);
    }
  }

  lemma {:induction false} PaintedIsRight(scanner: Scanner, text: string, all: seq<Stretch>, matches: seq<Stretch>)
    requires Tidy(matches)
    requires forall x: nat, rule :: Covers(matches, rule, x) <==> Earliest(all, rule, x)
    requires forall x: nat, rule :: Covers(all, rule, x) <==> Within(scanner, rule, text, x)
    ensures MatchesOf(scanner, text, matches)
  {
    hide Covers, Within, Tidy;
  }

  /** The fast scan is the full one's first: its rule is that of the match whose
    * rule is tried first, and it finds nothing exactly when there is no match. */
  lemma {:induction false} ScanIsFirstMatch(scanner: Scanner, text: string, found: Option<Rule>, matches: seq<Stretch>)
    requires ScanOf(scanner, text, found) && MatchesOf(scanner, text, matches)
    ensures found.None? <==> matches == []
    ensures found.Some? ==>
              && (exists i :: 0 <= i < |matches| && matches[i].rule == found.value)
              && forall i :: 0 <= i < |matches| ==> found.value.Place() <= matches[i].rule.Place()
  {
    hide SpanOf;
    forall i | 0 <= i < |matches| ensures Fires(scanner, matches[i].rule, text) {
      MatchFires(scanner, text, matches, i);
    }
    assert matches != [] ==> Fires(scanner, matches[0].rule, text);
    if found.Some? {
      var first := found.value;
      var r :| SpanOf(scanner, first, text, r);
      SpanIsInText(scanner, first, text, r);
      assert Within(scanner, first, text, r.start);
      NotWithin(scanner, text, first, r.start);
      assert Covers(matches, first, r.start);
    }
  }

  lemma {:induction false} NotWithin(scanner: Scanner, text: string, first: Rule, x: nat)
    requires ScanOf(scanner, text, Some(first))
    ensures forall other: Rule :: other.Place() < first.Place() ==> !Within(scanner, other, text, x)
  {
    hide SpanOf;
  }

  lemma {:induction false} MatchFires(scanner: Scanner, text: string, matches: seq<Stretch>, i: nat)
    requires MatchesOf(scanner, text, matches) && i < |matches|
    ensures Fires(scanner, matches[i].rule, text)
  {
    hide SpanOf;
    var m := matches[i];
    assert Holds(m, m.rule, m.start);
    assert Covers(matches, m.rule, m.start);
    assert Within(scanner, m.rule, text, m.start);
  }

  /** A redaction has hold of the keys: of every block that is a key, from its header to
    * its end, each place is in a match under the rule for keys, and no other place is. */
  lemma {:induction false} KeysAreCovered(scanner: Scanner, text: string, matches: seq<Stretch>, x: nat)
    requires MatchesOf(scanner, text, matches)
    ensures Covers(matches, PrivateKey, x) <==> exists r :: KeySpan(text, r) && r.start <= x < r.end
  {
    hide KeySpan, Covers;
    assert forall other: Rule :: !(other.Place() < PrivateKey.Place());
    if r :| KeySpan(text, r) && r.start <= x < r.end {
      assert SpanOf(scanner, PrivateKey, text, r);
    }
    if Covers(matches, PrivateKey, x) {
      var r :| SpanOf(scanner, PrivateKey, text, r) && r.start <= x < r.end;
      assert KeySpan(text, r);
    }
  }

  /** From `from` on there are `least` characters that are `ok`. */
  ghost predicate AtLeast(text: string, from: nat, least: nat, ok: char -> bool) {
    from + least <= |text| && forall k :: from <= k < from + least ==> ok(text[k])
  }

  /** Some `prefix` in the text has after it at least so many characters that are `ok`. */
  ghost predicate Shaped(text: string, prefix: string, least: nat, ok: char -> bool) {
    exists at: nat :: OccursAt(text, prefix, at) && AtLeast(text, at + |prefix|, least, ok)
  }

  lemma {:induction false} TokenFires(text: string, token: Token)
    requires token.prefix != ""
    ensures (exists r :: TokenAt(text, token, r)) <==> Shaped(text, token.prefix, token.least, token.body)
  {
    hide OccursAt;
    StartsInText(text, token.prefix);
    if r :| TokenAt(text, token, r) {
      assert AtLeast(text, r.start + |token.prefix|, token.least, token.body);
    }
    if at: nat :| OccursAt(text, token.prefix, at) && AtLeast(text, at + |token.prefix|, token.least, token.body) {
      assert Starts(text, token.prefix, at);
      assert TokenAt(text, token, Range(at, RunEnd(text, at + |token.prefix|, token.body)));
    }
  }

  ghost predicate ShapedAs(text: string, token: Token) { Shaped(text, token.prefix, token.least, token.body) }

  ghost predicate SomeShaped(rule: Rule, text: string) {
    exists i :: 0 <= i < |TOKENS| && TOKENS[i].rule == rule && ShapedAs(text, TOKENS[i])
  }

  predicate IsTokenRule(rule: Rule) { rule in {AwsAccessKey, SlackToken, GithubToken, StripeLiveKey} }

  lemma {:induction false} TokenRuleFires(scanner: Scanner, rule: Rule, text: string)
    requires IsTokenRule(rule)
    ensures Fires(scanner, rule, text) <==> SomeShaped(rule, text)
  {
    hide TokenAt, Shaped, TOKENS;
    PrefixesAreSome();
    if r :| SpanOf(scanner, rule, text, r) {
      var i :| 0 <= i < |TOKENS| && TOKENS[i].rule == rule && TokenAt(text, TOKENS[i], r);
      TokenFires(text, TOKENS[i]);
    }
    if i :| 0 <= i < |TOKENS| && TOKENS[i].rule == rule && ShapedAs(text, TOKENS[i]) {
      TokenFires(text, TOKENS[i]);
      var r :| TokenAt(text, TOKENS[i], r);
      assert SpanOf(scanner, rule, text, r);
    }
  }

  lemma {:induction false} PrefixesAreSome()
    ensures forall i :: 0 <= i < |TOKENS| ==> TOKENS[i].prefix != ""
  {
  }

  lemma {:induction false} SameShape(text: string, prefix: string, least: nat, p: char -> bool, q: char -> bool)
    requires forall c :: p(c) <==> q(c)
    ensures Shaped(text, prefix, least, p) <==> Shaped(text, prefix, least, q)
  {
    hide OccursAt;
    if at: nat :| OccursAt(text, prefix, at) && AtLeast(text, at + |prefix|, least, p) {
      assert AtLeast(text, at + |prefix|, least, q);
    }
    if at: nat :| OccursAt(text, prefix, at) && AtLeast(text, at + |prefix|, least, q) {
      assert AtLeast(text, at + |prefix|, least, p);
    }
  }

  predicate Letter(c: char) { 'a' <= c <= 'z' || 'A' <= c <= 'Z' || '0' <= c <= '9' }

  /** What each token rule looks for. */
  lemma {:induction false} AwsKeyFires(scanner: Scanner, text: string)
    ensures var ok := c => 'A' <= c <= 'Z' || '0' <= c <= '9';
            Fires(scanner, AwsAccessKey, text) <==> Shaped(text, "AKIA", 16, ok) || Shaped(text, "ASIA", 16, ok)
  {
    hide Shaped, Fires;
    var ok := c => 'A' <= c <= 'Z' || '0' <= c <= '9';
    TokenRuleFires(scanner, AwsAccessKey, text);
    SameShape(text, "AKIA", 16, UpperAlnum, ok);
    SameShape(text, "ASIA", 16, UpperAlnum, ok);
    if Shaped(text, "AKIA", 16, ok) { assert TOKENS[0].prefix == "AKIA"; }
    if Shaped(text, "ASIA", 16, ok) { assert TOKENS[1].prefix == "ASIA"; }
  }

  lemma {:induction false} SlackTokenFires(scanner: Scanner, text: string)
    ensures var ok := c => Letter(c) || c == '-';
            Fires(scanner, SlackToken, text) <==>
              exists kind: char :: kind in "bpaors" && Shaped(text, ['x', 'o', 'x', kind, '-'], 10, ok)
  {
    hide Shaped, Fires;
    var ok := c => Letter(c) || c == '-';
    TokenRuleFires(scanner, SlackToken, text);
    forall kind: char ensures Shaped(text, ['x', 'o', 'x', kind, '-'], 10, AlnumDash) <==>
                              Shaped(text, ['x', 'o', 'x', kind, '-'], 10, ok) {
      SameShape(text, ['x', 'o', 'x', kind, '-'], 10, AlnumDash, ok);
    }
    forall k | 0 <= k < 6
      ensures TOKENS[2 + k] == Token(SlackToken, ['x', 'o', 'x', "bpaors"[k], '-'], 10, AlnumDash)
    {
    }
    if SomeShaped(SlackToken, text) {
      var i :| 0 <= i < |TOKENS| && TOKENS[i].rule == SlackToken && ShapedAs(text, TOKENS[i]);
      assert 2 <= i < 8 && "bpaors"[i - 2] in "bpaors";
    }
    if kind: char :| kind in "bpaors" && Shaped(text, ['x', 'o', 'x', kind, '-'], 10, ok) {
      var k :| 0 <= k < 6 && "bpaors"[k] == kind;
      assert TOKENS[2 + k].rule == SlackToken;
    }
  }

  lemma {:induction false} StripeKeyFires(scanner: Scanner, text: string)
    ensures Fires(scanner, StripeLiveKey, text) <==> Shaped(text, "sk_live_", 16, Letter)
  {
    hide Shaped, Fires;
    TokenRuleFires(scanner, StripeLiveKey, text);
    SameShape(text, "sk_live_", 16, IsAlnum, Letter);
    if Shaped(text, "sk_live_", 16, Letter) { assert TOKENS[14].prefix == "sk_live_"; }
  }

  lemma {:induction false} GithubTokenFires(scanner: Scanner, text: string)
    ensures var ok := c => Letter(c) || c == '_';
            Fires(scanner, GithubToken, text) <==>
              || (exists kind: char :: kind in "posur" && Shaped(text, ['g', 'h', kind, '_'], 20, Letter))
              || Shaped(text, "github_pat_", 20, ok)
  {
    hide Shaped, Fires;
    var ok := c => Letter(c) || c == '_';
    TokenRuleFires(scanner, GithubToken, text);
    SameShape(text, "github_pat_", 20, Word, ok);
    forall kind: char ensures Shaped(text, ['g', 'h', kind, '_'], 20, IsAlnum) <==>
                              Shaped(text, ['g', 'h', kind, '_'], 20, Letter) {
      SameShape(text, ['g', 'h', kind, '_'], 20, IsAlnum, Letter);
    }
    forall k | 0 <= k < 5 ensures TOKENS[8 + k] == Token(GithubToken, ['g', 'h', "posur"[k], '_'], 20, IsAlnum) {}
    if SomeShaped(GithubToken, text) {
      var i :| 0 <= i < |TOKENS| && TOKENS[i].rule == GithubToken && ShapedAs(text, TOKENS[i]);
      if i < 13 { assert 8 <= i && "posur"[i - 8] in "posur"; } else { assert i == 13; }
    }
    if kind: char :| kind in "posur" && Shaped(text, ['g', 'h', kind, '_'], 20, Letter) {
      var k :| 0 <= k < 5 && "posur"[k] == kind;
      assert TOKENS[8 + k].rule == GithubToken;
    }
    if Shaped(text, "github_pat_", 20, ok) { assert TOKENS[13].prefix == "github_pat_"; }
  }

  /** An operator's secret is found with the rest of what it is the start of. */
  lemma {:induction false} SecretIsWhole(text: string, s: string, r: Range)
    ensures SecretAt(text, s, r) <==>
              && s != "" && OccursAt(text, s, r.start)
              && RunTo(text, r.start + |s|, r.end, c => Letter(c) || c in "-_.+/=")
  {
    hide OccursAt;
    StartsInText(text, s);
    if s != "" && OccursAt(text, s, r.start) {
      var ok := c => Letter(c) || c in "-_.+/=";
      assert Starts(text, s, r.start);
      assert forall c :: SecretTail(c) <==> ok(c);
      var end := RunEnd(text, r.start + |s|, SecretTail);
      assert RunTo(text, r.start + |s|, end, ok);
      if RunTo(text, r.start + |s|, r.end, ok) { OneRun(text, r.start + |s|, end, r.end, ok); }
    }
  }

  /** The injections a rule looks for stand in the text in small letters or capitals. */
  lemma {:induction false} InjectionFires(scanner: Scanner, rule: Rule, text: string)
    requires rule in {IgnorePreviousInstructions, DisregardPreviousInstructions, ConcealFromUser}
    ensures Fires(scanner, rule, text) <==>
              exists p :: p in Phrases(rule) && Contains(Lower(text), p)
  {
    hide SpanOf, Phrases, Lower, Contains, AnyPhraseAt;
    forall r ensures SpanOf(scanner, rule, text, r) <==> AnyPhraseAt(text, PhrasesOf(rule), r) {
      InjectionSpan(scanner, rule, text, r);
    }
    PhraseStands(text, rule);
  }

  lemma {:induction false} InjectionSpan(scanner: Scanner, rule: Rule, text: string, r: Range)
    requires rule in {IgnorePreviousInstructions, DisregardPreviousInstructions, ConcealFromUser}
    ensures SpanOf(scanner, rule, text, r) <==> AnyPhraseAt(text, PhrasesOf(rule), r)
  {
    hide PhrasesOf, AnyPhraseAt;
  }

  lemma {:induction false} PhraseStands(text: string, rule: Rule)
    ensures (exists r :: AnyPhraseAt(text, PhrasesOf(rule), r)) <==>
            exists p :: p in Phrases(rule) && Contains(Lower(text), p)
  {
    hide INJECTION_PHRASES, OccursAt, Lower, Phrases, PhrasesOf;
    forall p ensures p in PhrasesOf(rule) <==> p in Phrases(rule) { PhrasesAre(rule, p); }
    if r :| AnyPhraseAt(text, PhrasesOf(rule), r) {
      var i :| 0 <= i < |PhrasesOf(rule)| && PhraseAt(text, PhrasesOf(rule)[i], r);
      assert PhrasesOf(rule)[i] in PhrasesOf(rule);
    }
    if p :| p in Phrases(rule) && Contains(Lower(text), p) {
      PhraseIsSome(rule, p);
      var i :| 0 <= i < |PhrasesOf(rule)| && PhrasesOf(rule)[i] == p;
      var at: nat :| OccursAt(Lower(text), p, at);
      assert PhraseAt(text, PhrasesOf(rule)[i], Range(at, at + |p|));
      assert AnyPhraseAt(text, PhrasesOf(rule), Range(at, at + |p|));
    }
  }

  lemma {:induction false} PhraseIsSome(rule: Rule, p: string)
    requires p in Phrases(rule)
    ensures p != ""
  {
  }

  /** The built-in phrases, rule by rule. */
  ghost function Phrases(rule: Rule): set<string> {
    match rule
    case IgnorePreviousInstructions =>
      {"ignore previous instructions", "ignore all previous instructions", "ignore all prior instructions",
       "ignore the above instructions"}
    case DisregardPreviousInstructions =>
      {"disregard previous instructions", "disregard all previous instructions", "disregard the above"}
    case ConcealFromUser =>
      {"do not tell the user", "do not mention this to the user", "without telling the user",
       "without informing the user"}
    case _ => {}
  }

  lemma {:induction false} PhrasesAre(rule: Rule, p: string)
    ensures (p, rule) in INJECTION_PHRASES <==> p in Phrases(rule)
  {
    forall i | 0 <= i < |INJECTION_PHRASES| ensures INJECTION_PHRASES[i].0 in Phrases(INJECTION_PHRASES[i].1) {}
    if p in Phrases(rule) {
      assert exists i :: 0 <= i < |INJECTION_PHRASES| && INJECTION_PHRASES[i] == (p, rule) by {
        var i :=
          if rule == IgnorePreviousInstructions then 0 else if rule == DisregardPreviousInstructions then 4 else 7;
        assert INJECTION_PHRASES[i] == (p, rule) || INJECTION_PHRASES[i + 1] == (p, rule) ||
          INJECTION_PHRASES[i + 2] == (p, rule) || INJECTION_PHRASES[i + 3] == (p, rule);
      }
    }
  }

  /** What kind of pattern a rule is. */
  datatype Category = Secret | Injection

  function CategoryOf(rule: Rule): (c: Category)
    ensures c == Injection <==> rule.Place() >= 6
  {
    match rule
    case IgnorePreviousInstructions => Injection
    case DisregardPreviousInstructions => Injection
    case ConcealFromUser => Injection
    case CustomInjection => Injection
    case _ => Secret
  }

  /** An injection is found only in text that holds no secret. */
  lemma {:induction false} SecretsComeFirst(scanner: Scanner, text: string, found: Option<Rule>)
    requires ScanOf(scanner, text, found)
    ensures found.Some? && CategoryOf(found.value) == Injection ==>
              forall rule :: CategoryOf(rule) == Secret ==> !Fires(scanner, rule, text)
    ensures (exists rule :: CategoryOf(rule) == Secret && Fires(scanner, rule, text)) ==>
              found.Some? && CategoryOf(found.value) == Secret
  {
    hide Fires;
  }
}
