/** Redacting a text, and every string of a JSON value. */
module Redaction {
  import opened Wrappers

  /** A hit: its place in the text, the rule's name, and its kind. */
  datatype Detected = Detected(start: nat, end: nat, rule: string, secret: bool)

  type Detector = string -> seq<Detected>

  datatype Fault = Unsafe(rule: string) | Kept(rule: string) | Cannot

  /** The rounds a text may take to come clean. */
  const ROUNDS: nat := 3

  function Only(found: seq<Detected>, strict: bool): (hits: seq<Detected>)
    ensures forall h :: h in hits <==> h in found && (strict || h.secret)
  {
    if found == [] then []
    else (if strict || found[0].secret then [found[0]] else []) + Only(found[1..], strict)
  }

  /** What counts: the secrets, and when `strict`, anything. */
  function Hits(det: Detector, strict: bool, text: string): (hits: seq<Detected>)
    ensures hits == [] <==> Clean(det, strict, text)
  {
    var hits := Only(det(text), strict);
    assert hits != [] ==> hits[0] in hits;
    hits
  }

  /** Nothing that counts is found: nothing secret, and when `strict` nothing at all. */
  predicate Clean(det: Detector, strict: bool, text: string) {
    forall h :: h in det(text) ==> !strict && !h.secret
  }

  /** When strict, all that is found counts; else what is secret, in its order. */
  lemma {:induction false} HitsAre(det: Detector, text: string)
    ensures Hits(det, true, text) == det(text)
    ensures Hits(det, false, text) == Secrets(det(text))
  {
    OnlyStrict(det(text));
    OnlySecrets(det(text));
  }

  function Secrets(found: seq<Detected>): seq<Detected> {
    if found == [] then []
    else Secrets(found[..|found| - 1]) + (if found[|found| - 1].secret then [found[|found| - 1]] else [])
  }

  lemma {:induction false} OnlyStrict(found: seq<Detected>)
    ensures Only(found, true) == found
  {
    if found != [] { OnlyStrict(found[1..]); }
  }

  lemma {:induction false} OnlySecrets(found: seq<Detected>)
    ensures Only(found, false) == Secrets(found)
    decreases |found|
  {
    if found != [] {
      var last := |found| - 1;
      OnlySnoc(found[..last], found[last]);
      assert found == found[..last] + [found[last]];
      OnlySecrets(found[..last]);
    }
  }

  lemma {:induction false} OnlySnoc(found: seq<Detected>, h: Detected)
    ensures Only(found + [h], false) == Only(found, false) + (if h.secret then [h] else [])
  {
    hide Only;
    OnlyNone();
    var all, more := found + [h], if h.secret then [h] else [];
    OnlyStep(all, false);
    if found == [] {
      assert all == [h] && all[1..] == [];
    } else {
      OnlySnoc(found[1..], h);
      OnlyStep(found, false);
      assert all[1..] == found[1..] + [h] && all[0] == found[0];
      var first, rest := if found[0].secret then [found[0]] else [], Only(found[1..], false);
      assert first + (rest + more) == (first + rest) + more;
    }
  }

  lemma {:induction false} OnlyNone()
    ensures Only([], false) == []
  {
  }

  lemma {:induction false} OnlyStep(found: seq<Detected>, strict: bool)
    requires found != []
    ensures Only(found, strict) == (if strict || found[0].secret then [found[0]] else []) + Only(found[1..], strict)
  {
  }

  /** The first that is no secret. */
  function FirstUnsafe(hits: seq<Detected>): (r: Option<Detected>)
    ensures r.None? <==> forall h :: h in hits ==> h.secret
    ensures r.Some? ==> r.value in hits && !r.value.secret
  {
    if hits == [] then None else if !hits[0].secret then Some(hits[0]) else FirstUnsafe(hits[1..])
  }

  // ----- One text

  function Token(rule: string): string { "[REDACTED:" + rule + "]" }

  /** The hits replaced, from the last to the first. */
  function Masked(text: string, hits: seq<Detected>): Result<string, Fault>
    decreases |hits|
  {
    if hits == [] then Ok(text)
    else
      var h := hits[|hits| - 1];
      if !(h.start <= h.end <= |text|) then Err(Kept(h.rule))
      else Masked(text[..h.start] + Token(h.rule) + text[h.end..], hits[..|hits| - 1])
  }

  /** The text with a token in place of each hit and nothing else changed, said from
    * the first hit to the last. */
  ghost function Woven(text: string, hits: seq<Detected>, from: nat): string
    requires from <= |text| && InOrder(text, hits, from)
    decreases |hits|
  {
    if hits == [] then text[from..]
    else text[from..hits[0].start] + (Token(hits[0].rule) + Woven(text, hits[1..], hits[0].end))
  }

  /** The hits are in order of the text, in it, and never overlap. */
  ghost predicate InOrder(text: string, hits: seq<Detected>, from: nat)
    decreases |hits|
  {
    hits == [] ||
    (from <= hits[0].start <= hits[0].end <= |text| && InOrder(text, hits[1..], hits[0].end))
  }

  lemma {:induction false} WovenSnoc(text: string, hits: seq<Detected>, h: Detected, from: nat)
    requires from <= |text| && InOrder(text, hits + [h], from)
    ensures from <= h.start <= h.end <= |text| && InOrder(text[..h.start], hits, from)
    ensures Woven(text, hits + [h], from) == Woven(text[..h.start], hits, from) + (Token(h.rule) + text[h.end..])
    decreases |hits|
  {
    hide Token;
    var all := hits + [h];
    if hits == [] {
      assert all[1..] == [] && text[..h.start][from..] == text[from..h.start];
      assert all[0] == h && Woven(text, all[1..], h.end) == text[h.end..];
    } else {
      var g := hits[0];
      assert all[0] == g && all[1..] == hits[1..] + [h];
      WovenSnoc(text, hits[1..], h, g.end);
      assert text[..h.start][from..g.start] == text[from..g.start];
      Regroup(
        text[from..g.start], Token(g.rule), Woven(text[..h.start], hits[1..], g.end), Token(h.rule) + text[h.end..]);
    }
  }

  lemma {:induction false} Regroup(a: string, b: string, c: string, d: string)
    ensures a + (b + (c + d)) == (a + (b + c)) + d
  {
  }

  /** A text that agrees as far as `to` weaves the same there. */
  lemma {:induction false} WovenWithin(text: string, rest: string, hits: seq<Detected>, from: nat)
    requires from <= |text| && InOrder(text, hits, from)
    ensures InOrder(text + rest, hits, from)
    ensures Woven(text + rest, hits, from) == Woven(text, hits, from) + rest
    decreases |hits|
  {
    hide Token;
    if hits == [] {
      assert (text + rest)[from..] == text[from..] + rest;
    } else {
      var g := hits[0];
      WovenWithin(text, rest, hits[1..], g.end);
      assert (text + rest)[from..g.start] == text[from..g.start];
      Regroup(text[from..g.start], Token(g.rule), Woven(text, hits[1..], g.end), rest);
    }
  }

  /** Replacing from the back is weaving from the front. */
  lemma {:induction false} MaskedIsWoven(text: string, hits: seq<Detected>)
    requires InOrder(text, hits, 0)
    ensures Masked(text, hits) == Ok(Woven(text, hits, 0))
    decreases |hits|
  {
    hide Token;
    if hits == [] {
      assert text[0..] == text;
    } else {
      var last := |hits| - 1;
      var h, before := hits[last], hits[..last];
      assert hits == before + [h];
      WovenSnoc(text, before, h, 0);
      var tail := Token(h.rule) + text[h.end..];
      WovenWithin(text[..h.start], tail, before, 0);
      assert text[..h.start] + Token(h.rule) + text[h.end..] == text[..h.start] + tail;
      MaskedIsWoven(text[..h.start] + tail, before);
    }
  }

  function Round(det: Detector, strict: bool, text: string): Result<string, Fault> {
    var hits := Hits(det, strict, text);
    match FirstUnsafe(hits)
    case Some(h) => Err(Unsafe(h.rule))
    case None => Masked(text, hits)
  }

  /** The text once its secrets are replaced, searched again up to `n` times. */
  function Rounds(det: Detector, strict: bool, text: string, n: nat): (r: Result<string, Fault>)
    ensures r.Ok? ==> Clean(det, strict, r.value) && (r.value == text <==> Clean(det, strict, text))
    ensures r.Err? ==> !r.error.Cannot?
    decreases n
  {
    var hits := Hits(det, strict, text);
    if hits == [] then Ok(text)
    else if n == 0 then Err(Kept(hits[0].rule))
    else
      match Round(det, strict, text)
      case Err(e) => assert !e.Cannot? by { NotCannot(text, hits); } Err(e)
      case Ok(t) => Rounds(det, strict, t, n - 1)
  }

  lemma {:induction false} NotCannot(text: string, hits: seq<Detected>)
    ensures Masked(text, hits).Err? ==> !Masked(text, hits).error.Cannot?
    decreases |hits|
  {
    if hits != [] {
      var h := hits[|hits| - 1];
      if h.start <= h.end <= |text| {
        NotCannot(text[..h.start] + Token(h.rule) + text[h.end..], hits[..|hits| - 1]);
      }
    }
  }

  /** What redaction makes of a text. */
  function Redacted(det: Detector, strict: bool, text: string): Result<string, Fault> {
    Rounds(det, strict, text, ROUNDS)
  }

  /** Redacts what the detector finds in `text`, and says whether that changed it. */
  method RedactText(det: Detector, strict: bool, text: string) returns (r: Result<(string, bool), Fault>)
    ensures match r
            case Ok((after, changed)) => Redacted(det, strict, text) == Ok(after) && (changed <==> after != text)
            case Err(e) => Redacted(det, strict, text) == Err(e)
  {
    hide Hits, Masked;
    var now, changed := text, false;
    for round := 0 to ROUNDS
      invariant Rounds(det, strict, now, ROUNDS - round) == Redacted(det, strict, text)
      invariant if changed then !Clean(det, strict, text) else now == text
    {
      var hits := Hits(det, strict, now);
      if hits == [] {
        return Ok((now, changed));
      }
      var bad := FirstUnsafe(hits);
      if bad.Some? {
        return Err(Unsafe(bad.value.rule));
      }
      var i: nat, next := |hits|, now;
      MaskedAll(now, hits);
      while i > 0
        invariant i <= |hits| && Masked(next, hits[..i]) == Masked(now, hits)
      {
        i := i - 1;
        var hit := hits[i];
        MaskedStep(next, hits, i);
        if !(hit.start <= hit.end <= |next|) {
          return Err(Kept(hit.rule));
        }
        next := next[..hit.start] + Token(hit.rule) + next[hit.end..];
      }
      MaskedNone(next, hits);
      now, changed := next, true;
    }
    var hits := Hits(det, strict, now);
    if hits == [] {
      return Ok((now, changed));
    }
    return Err(Kept(hits[0].rule));
  }

  lemma {:induction false} MaskedAll(text: string, hits: seq<Detected>)
    ensures Masked(text, hits[..|hits|]) == Masked(text, hits)
  {
    assert hits[..|hits|] == hits;
  }

  lemma {:induction false} MaskedNone(text: string, hits: seq<Detected>)
    ensures Masked(text, hits[..0]) == Ok(text)
  {
  }

  lemma {:induction false} MaskedStep(text: string, hits: seq<Detected>, i: nat)
    requires i < |hits|
    ensures Masked(text, hits[..i + 1]) ==
            var h := hits[i];
            if !(h.start <= h.end <= |text|) then Err(Kept(h.rule))
            else Masked(text[..h.start] + Token(h.rule) + text[h.end..], hits[..i])
  {
    assert hits[..i + 1][..i] == hits[..i];
  }

  /** One round after another: each text but the last holds something, all of it secret,
    * and is the one before it with those replaced; the last holds nothing. */
  ghost predicate InRounds(det: Detector, strict: bool, texts: seq<string>) {
    && texts != []
    && Hits(det, strict, texts[|texts| - 1]) == []
    && forall i :: 0 <= i < |texts| - 1 ==>
         && Hits(det, strict, texts[i]) != []
         && (forall h :: h in Hits(det, strict, texts[i]) ==> h.secret)
         && Masked(texts[i], Hits(det, strict, texts[i])) == Ok(texts[i + 1])
  }

  /** A text is redacted to another exactly when that is where three rounds or fewer get. */
  lemma {:induction false} RedactedIs(det: Detector, strict: bool, text: string, after: string)
    ensures Redacted(det, strict, text) == Ok(after) <==>
            exists texts :: InRounds(det, strict, texts) && |texts| <= 4 && texts[0] == text &&
              texts[|texts| - 1] == after
  {
    RoundsAre(det, strict, text, 3, after);
  }

  lemma {:induction false} RoundsAre(det: Detector, strict: bool, text: string, n: nat, after: string)
    ensures Rounds(det, strict, text, n) == Ok(after) <==>
            exists texts :: InRounds(det, strict, texts) && |texts| <= n + 1 && texts[0] == text &&
              texts[|texts| - 1] == after
    decreases n
  {
    hide Hits, Masked;
    if Rounds(det, strict, text, n) == Ok(after) {
      var texts := RoundsMade(det, strict, text, n);
    }
    if texts :| InRounds(det, strict, texts) && |texts| <= n + 1 && texts[0] == text && texts[|texts| - 1] == after {
      RoundsFollow(det, strict, texts, n);
    }
  }

  lemma {:induction false} RoundsMade(det: Detector, strict: bool, text: string, n: nat) returns (texts: seq<string>)
    requires Rounds(det, strict, text, n).Ok?
    ensures InRounds(det, strict, texts) && |texts| <= n + 1 && texts[0] == text
    ensures texts[|texts| - 1] == Rounds(det, strict, text, n).value
    decreases n
  {
    hide Hits, Masked;
    if Hits(det, strict, text) == [] {
      texts := [text];
    } else {
      var next := Masked(text, Hits(det, strict, text)).value;
      var rest := RoundsMade(det, strict, next, n - 1);
      texts := [text] + rest;
      OneRoundMore(det, strict, text, rest);
    }
  }

  lemma {:induction false} OneRoundMore(det: Detector, strict: bool, text: string, rest: seq<string>)
    requires rest != [] && Hits(det, strict, text) != [] && Masked(text, Hits(det, strict, text)) == Ok(rest[0])
    requires forall h :: h in Hits(det, strict, text) ==> h.secret
    ensures InRounds(det, strict, [text] + rest) <==> InRounds(det, strict, rest)
  {
    hide Hits, Masked;
    var texts := [text] + rest;
    assert texts[|texts| - 1] == rest[|rest| - 1];
    assert forall i :: 0 < i < |texts| ==> texts[i] == rest[i - 1];
    if InRounds(det, strict, texts) {
      forall i | 0 <= i < |rest| - 1
        ensures Hits(det, strict, rest[i]) != [] && (forall h :: h in Hits(det, strict, rest[i]) ==> h.secret)
        ensures Masked(rest[i], Hits(det, strict, rest[i])) == Ok(rest[i + 1])
      {
        assert texts[i + 1] == rest[i] && texts[i + 2] == rest[i + 1];
      }
    }
  }

  lemma {:induction false} RoundsFollow(det: Detector, strict: bool, texts: seq<string>, n: nat)
    requires InRounds(det, strict, texts) && |texts| <= n + 1
    ensures Rounds(det, strict, texts[0], n) == Ok(texts[|texts| - 1])
    decreases n
  {
    hide Hits, Masked;
    if |texts| > 1 {
      var rest := texts[1..];
      assert texts == [texts[0]] + rest && texts[1] == rest[0];
      assert Hits(det, strict, texts[0]) != [];
      OneRoundMore(det, strict, texts[0], rest);
      RoundsFollow(det, strict, rest, n - 1);
    }
  }

  /** A token names the rule. */
  lemma {:induction false} TokenNames(rule: string)
    ensures Token(rule) == "[REDACTED:" + rule + "]"
  {
  }
}
