/** Token buckets, and a limiter that composes a global one with one per key.
  * Time and tokens are real numbers. */
module RateLimits {
  import opened Wrappers

  // ----- One bucket

  datatype Bucket = Bucket(capacity: real, tokens: real, rate: real, last: real) {
    predicate Valid() { 0.0 <= tokens <= capacity && 0.0 <= rate }
  }

  function Full(capacity: real, rate: real, now: real): Bucket { Bucket(capacity, capacity, rate, now) }

  function Min(a: real, b: real): real { if a < b then a else b }

  /** What the rate gives in a time. */
  function Gain(elapsed: real, rate: real): real { elapsed * rate }

  lemma {:induction false} GainAdds(a: real, b: real, rate: real)
    ensures Gain(a + b, rate) == Gain(a, rate) + Gain(b, rate)
    ensures Gain(0.0, rate) == 0.0 && Gain(1.0, rate) == rate
    ensures a >= 0.0 && rate >= 0.0 ==> Gain(a, rate) >= 0.0
  {
  }

  /** The tokens at `now`, before a call spends one. */
  function Refilled(b: Bucket, now: real): real {
    var elapsed := if now < b.last then 0.0 else now - b.last;
    Min(b.tokens + Gain(elapsed, b.rate), b.capacity)
  }

  /** One call: the refill it is due comes first, then a token if a whole one is there. */
  function Acquire(b: Bucket, now: real): (r: (Bucket, bool)) {
    var tokens := Refilled(b, now);
    if tokens >= 1.0 then (b.(tokens := tokens - 1.0, last := now), true)
    else (b.(tokens := tokens, last := now), false)
  }

  class TokenBucket {
    const capacity: real
    const rate: real
    var tokens: real
    var last: real

    function State(): Bucket
      reads this
    {
      Bucket(capacity, tokens, rate, last)
    }

    /** Starts out full. */
    constructor (capacity: real, rate: real, now: real)
      ensures State() == Full(capacity, rate, now)
    {
      this.capacity, this.rate := capacity, rate;
      this.tokens, this.last := capacity, now;
    }

    method TryAcquire(now: real) returns (allowed: bool)
      modifies this
      ensures (State(), allowed) == Acquire(old(State()), now)
      ensures old(State().Valid()) ==> State().Valid()
    {
      var elapsed := if now < last then 0.0 else now - last;
      TokensStay(State(), now);
      last := now;
      tokens := Min(tokens + Gain(elapsed, rate), capacity);
      if tokens >= 1.0 {
        tokens := tokens - 1.0;
        allowed := true;
      } else {
        allowed := false;
      }
    }
  }

  lemma {:induction false} TokensStay(b: Bucket, now: real)
    ensures b.Valid() ==> 0.0 <= Refilled(b, now) <= b.capacity && Acquire(b, now).0.Valid()
  {
    hide Gain;
    if b.Valid() {
      GainAdds(if now < b.last then 0.0 else now - b.last, 0.0, b.rate);
    }
  }

  // ----- A bucket's whole run

  /** The bucket after its first `n` calls. */
  function After(b: Bucket, times: seq<real>, n: nat): Bucket
    requires n <= |times|
  {
    if n == 0 then b else Acquire(After(b, times, n - 1), times[n - 1]).0
  }

  /** Whether the `n`th call is let through. */
  predicate Allows(b: Bucket, times: seq<real>, n: nat)
    requires n < |times|
  {
    Acquire(After(b, times, n), times[n]).1
  }

  /** How many of the calls from the `i`th up to the `n`th are let through. */
  function Allowed(b: Bucket, times: seq<real>, i: nat, n: nat): nat
    requires i <= n <= |times|
    decreases n - i
  {
    if i == n then 0 else Allowed(b, times, i, n - 1) + (if Allows(b, times, n - 1) then 1 else 0)
  }

  ghost predicate Ordered(b: Bucket, times: seq<real>) {
    && (forall i :: 0 <= i < |times| ==> b.last <= times[i])
    && (forall i, j :: 0 <= i <= j < |times| ==> times[i] <= times[j])
  }

  lemma {:induction false} AfterIsValid(b: Bucket, times: seq<real>, n: nat)
    requires b.Valid() && n <= |times|
    ensures After(b, times, n).Valid()
    ensures After(b, times, n).capacity == b.capacity && After(b, times, n).rate == b.rate
    ensures After(b, times, n).last == if n == 0 then b.last else times[n - 1]
  {
    if n > 0 {
      AfterIsValid(b, times, n - 1);
      TokensStay(After(b, times, n - 1), times[n - 1]);
    }
  }

  /** What a window from the `i`th call to `now` still has room for. */
  function Room(b: Bucket, times: seq<real>, i: nat, n: nat, now: real): real
    requires i < n <= |times|
  {
    b.capacity + Gain(now - times[i], b.rate) - Allowed(b, times, i, n) as real
  }

  /** The tokens at a later time, from those the `n`th call left. */
  lemma {:induction false} TokensLater(b: Bucket, times: seq<real>, n: nat, now: real)
    requires b.Valid() && Ordered(b, times) && 0 < n <= |times| && times[n - 1] <= now
    ensures var t := times[n - 1];
            var left := Refilled(After(b, times, n - 1), t) - (if Allows(b, times, n - 1) then 1.0 else 0.0);
            Refilled(After(b, times, n), now) == Min(left + Gain(now - t, b.rate), b.capacity)
  {
    hide Gain;
    AfterIsValid(b, times, n - 1);
    AfterIsValid(b, times, n);
  }

  /** A window's room, from what it was at its last call. */
  lemma {:induction false} RoomLater(b: Bucket, times: seq<real>, i: nat, n: nat, now: real)
    requires i < n <= |times|
    ensures var t := times[n - 1];
            var spent := if Allows(b, times, n - 1) then 1.0 else 0.0;
            Room(b, times, i, n, now) ==
            (if i == n - 1 then b.capacity else Room(b, times, i, n - 1, t)) - spent + Gain(now - t, b.rate)
  {
    hide Gain, Allows;
    var t := times[n - 1];
    GainAdds(t - times[i], now - t, b.rate);
    assert (t - times[i]) + (now - t) == now - times[i];
    assert Gain(now - times[i], b.rate) == Gain(t - times[i], b.rate) + Gain(now - t, b.rate);
    assert Allowed(b, times, i, n) == Allowed(b, times, i, n - 1) + (if Allows(b, times, n - 1) then 1 else 0);
    if i == n - 1 {
      assert t - times[i] == 0.0;
    }
  }

  /** The tokens at `now` are never more than any window up to then has room for. */
  lemma {:induction false} TokensWithinRoom(b: Bucket, times: seq<real>, i: nat, n: nat, now: real)
    requires b.Valid() && Ordered(b, times) && i < n <= |times| && times[n - 1] <= now
    ensures Refilled(After(b, times, n), now) <= Room(b, times, i, n, now)
    decreases n
  {
    hide Gain, After, Allows, Room, Refilled;
    TokensLater(b, times, n, now);
    RoomLater(b, times, i, n, now);
    if i < n - 1 {
      TokensWithinRoom(b, times, i, n - 1, times[n - 1]);
    } else {
      AtMostFull(b, times, n - 1, times[n - 1]);
    }
  }

  lemma {:induction false} AtMostFull(b: Bucket, times: seq<real>, n: nat, now: real)
    requires b.Valid() && n <= |times|
    ensures 0.0 <= Refilled(After(b, times, n), now) <= b.capacity
  {
    AfterIsValid(b, times, n);
    TokensStay(After(b, times, n), now);
  }

  /** From full, the tokens are exactly the least room any window has, if not full. */
  lemma {:induction false} TokensAreLeastRoom(b: Bucket, times: seq<real>, n: nat, now: real) returns (i: nat)
    requires b.Valid() && b.tokens == b.capacity && Ordered(b, times) && n <= |times|
    requires b.last <= now && (n > 0 ==> times[n - 1] <= now)
    ensures Refilled(After(b, times, n), now) == b.capacity ||
            (i < n && Refilled(After(b, times, n), now) == Room(b, times, i, n, now))
    decreases n
  {
    hide Gain, After, Allows, Room, Refilled;
    if n == 0 {
      i := 0;
      StaysFull(b, times, now);
    } else {
      var t := times[n - 1];
      i := TokensAreLeastRoom(b, times, n - 1, t);
      if Refilled(After(b, times, n - 1), t) == b.capacity {
        i := n - 1;
      }
      TokensLater(b, times, n, now);
      RoomLater(b, times, i, n, now);
    }
  }

  lemma {:induction false} StaysFull(b: Bucket, times: seq<real>, now: real)
    requires b.Valid() && b.tokens == b.capacity && b.last <= now
    ensures Refilled(After(b, times, 0), now) == b.capacity
  {
    hide Gain;
    GainAdds(now - b.last, 0.0, b.rate);
  }

  /** Between two calls: at most the burst, and what the rate gives in that time. */
  lemma {:induction false} CallToCallIsBounded(b: Bucket, times: seq<real>, i: nat, n: nat)
    requires b.Valid() && Ordered(b, times) && i < n <= |times|
    ensures Allowed(b, times, i, n) as real <= b.capacity + Gain(times[n - 1] - times[i], b.rate)
  {
    hide After, Refilled, Gain;
    AtMostFull(b, times, n, times[n - 1]);
    TokensWithinRoom(b, times, i, n, times[n - 1]);
  }

  /** What the bucket tells each call of a run. */
  function Told(b: Bucket, times: seq<real>): (told: seq<bool>)
    ensures |told| == |times| && forall k :: 0 <= k < |told| ==> told[k] == Allows(b, times, k)
  {
    seq(|times|, k requires 0 <= k < |times| => Allows(b, times, k))
  }

  /** How many of the first `n` calls were let through from `s` to `t`. */
  function Through(told: seq<bool>, times: seq<real>, s: real, t: real, n: nat): nat
    requires n <= |told| == |times|
  {
    if n == 0 then 0
    else Through(told, times, s, t, n - 1) + (if told[n - 1] && s <= times[n - 1] <= t then 1 else 0)
  }

  /** How many of the calls in order come before an instant, or at it if `with`. */
  ghost predicate CutAt(times: seq<real>, s: real, with: bool, i: nat) {
    && i <= |times|
    && (forall k :: 0 <= k < i ==> times[k] < s || (with && times[k] == s))
    && (forall k :: i <= k < |times| ==> s < times[k] || (!with && times[k] == s))
  }

  lemma {:induction false} Cut(times: seq<real>, s: real, with: bool) returns (i: nat)
    requires forall i, j :: 0 <= i <= j < |times| ==> times[i] <= times[j]
    ensures CutAt(times, s, with, i)
  {
    i := 0;
    while i < |times| && (times[i] < s || (with && times[i] == s))
      invariant i <= |times| && forall k :: 0 <= k < i ==> times[k] < s || (with && times[k] == s)
    {
      i := i + 1;
    }
  }

  /** The calls in a window are those from one cut to the other. */
  lemma {:induction false} ThroughIsAllowed(
      b: Bucket, times: seq<real>, s: real, t: real, i: nat, e: nat, n: nat)
    requires i <= e && n <= |times| && CutAt(times, s, false, i) && CutAt(times, t, true, e)
    ensures Through(Told(b, times), times, s, t, n) ==
            if n <= i then 0 else Allowed(b, times, i, if n <= e then n else e)
  {
    hide Allows;
    if n > 0 { ThroughIsAllowed(b, times, s, t, i, e, n - 1); }
  }

  /** The throughput bound: in any window whatever, at most the burst and what the
    * rate gives in that time. */
  lemma {:induction false} ThroughputIsBounded(b: Bucket, times: seq<real>, s: real, t: real)
    requires b.Valid() && Ordered(b, times) && s <= t
    ensures Through(Told(b, times), times, s, t, |times|) as real <= b.capacity + Gain(t - s, b.rate)
  {
    hide Gain, Told, Through, Allowed;
    var i := Cut(times, s, false);
    var e := Cut(times, t, true);
    if i < e {
      ThroughIsAllowed(b, times, s, t, i, e, |times|);
      CallToCallIsBounded(b, times, i, e);
      LongerGains(times[e - 1] - times[i], t - s, b.rate);
    } else {
      NoneThrough(Told(b, times), times, s, t, i, e, |times|);
      LongerGains(0.0, t - s, b.rate);
    }
  }

  lemma {:induction false} LongerGains(short: real, long: real, rate: real)
    requires short <= long && rate >= 0.0
    ensures Gain(short, rate) <= Gain(long, rate) && Gain(0.0, rate) == 0.0
  {
    hide Gain;
    GainAdds(short, long - short, rate);
    GainAdds(long - short, 0.0, rate);
    assert short + (long - short) == long;
  }

  lemma {:induction false} NoneThrough(told: seq<bool>, times: seq<real>, s: real, t: real, i: nat, e: nat, n: nat)
    requires e <= i && n <= |told| == |times| && CutAt(times, s, false, i) && CutAt(times, t, true, e)
    ensures Through(told, times, s, t, n) == 0
  {
    if n > 0 { NoneThrough(told, times, s, t, i, e, n - 1); }
  }

  /** And the bucket sheds no other calls: from full, a call is let through exactly
    * when the burst is one at least and the bound leaves room for it in every window
    * that ends with it. */
  lemma {:induction false} ShedsOnlyWhatBreaksTheBound(b: Bucket, times: seq<real>, n: nat)
    requires b.Valid() && b.tokens == b.capacity && Ordered(b, times) && n < |times|
    ensures Allows(b, times, n) <==>
              b.capacity >= 1.0 && forall i :: 0 <= i < n ==> 1.0 <= Room(b, times, i, n, times[n])
  {
    hide After, Refilled, Room;
    var now := times[n];
    AllowsIs(b, times, n);
    AtMostFull(b, times, n, now);
    if Allows(b, times, n) {
      forall i | 0 <= i < n ensures 1.0 <= Room(b, times, i, n, now) {
        TokensWithinRoom(b, times, i, n, now);
      }
    } else {
      var i := TokensAreLeastRoom(b, times, n, now);
    }
  }

  lemma {:induction false} AllowsIs(b: Bucket, times: seq<real>, n: nat)
    requires n < |times|
    ensures Allows(b, times, n) <==> Refilled(After(b, times, n), times[n]) >= 1.0
  {
  }

  // ----- The limiter: a global bucket, then one bucket for each key

  datatype Scope = Global | Tool | Reads | Prompts | Completions

  datatype Decision = Allow | Limited(scope: Scope)

  /** What a call spends from besides the global bucket: each kind of key apart. */
  datatype Key =
    | ToolKey(server: string, tool: string)
    | ReadsKey(server: string)
    | PromptsKey(server: string)
    | CompletionsKey(server: string)
  {
    function Scope(): (s: Scope)
      ensures s != Global
    {
      match this
      case ToolKey(_, _) => Tool
      case ReadsKey(_) => Reads
      case PromptsKey(_) => Prompts
      case CompletionsKey(_) => Completions
    }
  }

  /** The limiter's state: the buckets made so far, and how to make one. */
  datatype Limiter = Limiter(template: Option<(real, real)>, global: Option<Bucket>, buckets: map<Key, Bucket>)

  function PassGlobal(l: Limiter, now: real): (Limiter, bool) {
    match l.global
    case None => (l, true)
    case Some(g) => (l.(global := Some(Acquire(g, now).0)), Acquire(g, now).1)
  }

  /** The bucket a key spends from: its own, or a full one made now. */
  function BucketOf(l: Limiter, key: Key, now: real): Bucket
    requires l.template.Some?
  {
    if key in l.buckets then l.buckets[key] else Full(l.template.value.0, l.template.value.1, now)
  }

  /** One call: the global bucket first, and the key's only if that lets it by. */
  function Spend(l: Limiter, key: Key, now: real): (Limiter, Decision) {
    var (l1, passed) := PassGlobal(l, now);
    if !passed then (l1, Limited(Global))
    else if l1.template.None? then (l1, Allow)
    else
      var (bucket, allowed) := Acquire(BucketOf(l1, key, now), now);
      (l1.(buckets := l1.buckets[key := bucket]), if allowed then Allow else Limited(key.Scope()))
  }

  class RateLimiter {
    const template: Option<(real, real)>
    var global: Option<Bucket>
    var perTool: map<(string, string), Bucket>
    var readBuckets: map<string, Bucket>
    var prompts: map<string, Bucket>
    var completions: map<string, Bucket>
    /** The same state with the four kinds of key in one map. */
    ghost var model: Limiter

    /** From `(rate, burst)` settings for the two scopes. */
    constructor (perTool: Option<(real, real)>, global: Option<(real, real)>, now: real)
      requires perTool.Some? || global.Some?
      ensures Valid()
      ensures model == Limiter(
                if perTool.Some? then Some((perTool.value.1, perTool.value.0)) else None,
                if global.Some? then Some(Full(global.value.1, global.value.0, now)) else None,
                map[])
    {
      this.template := if perTool.Some? then Some((perTool.value.1, perTool.value.0)) else None;
      this.global := if global.Some? then Some(Full(global.value.1, global.value.0, now)) else None;
      this.perTool, this.readBuckets, this.prompts, this.completions := map[], map[], map[], map[];
      this.model := Limiter(
        if perTool.Some? then Some((perTool.value.1, perTool.value.0)) else None,
        if global.Some? then Some(Full(global.value.1, global.value.0, now)) else None,
        map[]);
    }

    /** The bucket made for a key, wherever its kind is kept. */
    function Held(key: Key): Option<Bucket>
      reads this
    {
      match key
      case ToolKey(s, t) => if (s, t) in perTool then Some(perTool[(s, t)]) else None
      case ReadsKey(s) => if s in readBuckets then Some(readBuckets[s]) else None
      case PromptsKey(s) => if s in prompts then Some(prompts[s]) else None
      case CompletionsKey(s) => if s in completions then Some(completions[s]) else None
    }

    ghost predicate Valid()
      reads this
    {
      && template == model.template && global == model.global
      && forall key :: Held(key) == if key in model.buckets then Some(model.buckets[key]) else None
    }

    /** Spend a global token, if there is a global bucket. */
    method SpendGlobal(now: real) returns (passed: bool)
      requires Valid()
      modifies this`global, this`model
      ensures Valid() && (model, passed) == PassGlobal(old(model), now)
    {
      passed := true;
      if global.Some? {
        var (bucket, allowed) := Acquire(global.value, now);
        global, passed := Some(bucket), allowed;
        model := model.(global := global);
      }
    }

    /** Spend from the bucket a map holds under a key, made full if there is none. */
    static method SpendKey<K(==)>(buckets: map<K, Bucket>, key: K, template: (real, real), now: real)
      returns (after: map<K, Bucket>, allowed: bool)
      ensures var b := if key in buckets then buckets[key] else Full(template.0, template.1, now);
              after == buckets[key := Acquire(b, now).0] && allowed == Acquire(b, now).1
    {
      var bucket := if key in buckets then buckets[key] else Full(template.0, template.1, now);
      var (spent, ok) := Acquire(bucket, now);
      after, allowed := buckets[key := spent], ok;
    }

    method Check(server: string, tool: string, now: real) returns (d: Decision)
      requires Valid()
      modifies this
      ensures Valid() && (model, d) == Spend(old(model), ToolKey(server, tool), now)
      ensures d in {Allow, Limited(Global), Limited(Tool)}
    {
      hide Acquire, Full;
      var passed := SpendGlobal(now);
      if !passed { return Limited(Global); }
      if template.Some? {
        var allowed;
        ghost var key := ToolKey(server, tool);
        ghost var bucket := BucketOf(model, key, now);
        perTool, allowed := SpendKey(perTool, (server, tool), template.value, now);
        model := model.(buckets := model.buckets[key := Acquire(bucket, now).0]);
        if !allowed { return Limited(Tool); }
      }
      return Allow;
    }

    method CheckRead(server: string, now: real) returns (d: Decision)
      requires Valid()
      modifies this
      ensures Valid() && (model, d) == Spend(old(model), ReadsKey(server), now)
      ensures d in {Allow, Limited(Global), Limited(Reads)}
    {
      hide Acquire, Full;
      var passed := SpendGlobal(now);
      if !passed { return Limited(Global); }
      if template.Some? {
        var allowed;
        ghost var key := ReadsKey(server);
        ghost var bucket := BucketOf(model, key, now);
        readBuckets, allowed := SpendKey(readBuckets, server, template.value, now);
        model := model.(buckets := model.buckets[key := Acquire(bucket, now).0]);
        if !allowed { return Limited(Reads); }
      }
      return Allow;
    }

    method CheckPrompt(server: string, now: real) returns (d: Decision)
      requires Valid()
      modifies this
      ensures Valid() && (model, d) == Spend(old(model), PromptsKey(server), now)
      ensures d in {Allow, Limited(Global), Limited(Prompts)}
    {
      hide Acquire, Full;
      var passed := SpendGlobal(now);
      if !passed { return Limited(Global); }
      if template.Some? {
        var allowed;
        ghost var key := PromptsKey(server);
        ghost var bucket := BucketOf(model, key, now);
        prompts, allowed := SpendKey(prompts, server, template.value, now);
        model := model.(buckets := model.buckets[key := Acquire(bucket, now).0]);
        if !allowed { return Limited(Prompts); }
      }
      return Allow;
    }

    method CheckCompletion(server: string, now: real) returns (d: Decision)
      requires Valid()
      modifies this
      ensures Valid() && (model, d) == Spend(old(model), CompletionsKey(server), now)
      ensures d in {Allow, Limited(Global), Limited(Completions)}
    {
      hide Acquire, Full;
      var passed := SpendGlobal(now);
      if !passed { return Limited(Global); }
      if template.Some? {
        var allowed;
        ghost var key := CompletionsKey(server);
        ghost var bucket := BucketOf(model, key, now);
        completions, allowed := SpendKey(completions, server, template.value, now);
        model := model.(buckets := model.buckets[key := Acquire(bucket, now).0]);
        if !allowed { return Limited(Completions); }
      }
      return Allow;
    }
  }

  // ----- Keys run alone

  datatype Call = Call(key: Key, now: real)

  /** The decisions of a run of calls. */
  function Decisions(l: Limiter, calls: seq<Call>): (ds: seq<Decision>)
    ensures |ds| == |calls|
    decreases |calls|
  {
    if calls == [] then []
    else
      var (next, d) := Spend(l, calls[0].key, calls[0].now);
      [d] + Decisions(next, calls[1..])
  }

  /** Of a run, what the key was told on its calls that the global bucket let by. */
  function ToldOf(key: Key, calls: seq<Call>, ds: seq<Decision>): seq<bool>
    requires |ds| == |calls|
  {
    if calls == [] then []
    else (if calls[0].key == key && ds[0] != Limited(Global) then [ds[0] == Allow] else []) +
         ToldOf(key, calls[1..], ds[1..])
  }

  /** When those calls were made. */
  function TimesOf(key: Key, calls: seq<Call>, ds: seq<Decision>): seq<real>
    requires |ds| == |calls|
  {
    if calls == [] then []
    else (if calls[0].key == key && ds[0] != Limited(Global) then [calls[0].now] else []) +
         TimesOf(key, calls[1..], ds[1..])
  }

  /** What one bucket tells a run of calls of its own. */
  function Alone(b: Bucket, times: seq<real>): seq<bool>
    decreases |times|
  {
    if times == [] then []
    else [Acquire(b, times[0]).1] + Alone(Acquire(b, times[0]).0, times[1..])
  }

  /** A bucket made full at the first call is one full from the start. */
  lemma {:induction false} LazyIsFull(capacity: real, rate: real, start: real, now: real)
    requires rate >= 0.0 && start <= now
    ensures Acquire(Full(capacity, rate, now), now) == Acquire(Full(capacity, rate, start), now)
  {
    hide Gain;
    GainAdds(now - start, 0.0, rate);
    GainAdds(0.0, 0.0, rate);
  }

  /** Isolation: in any interleaving, what each key is told is what a bucket of its
    * own, full from the start, tells its calls that passed the global bucket. No
    * other key's calls, and not when its bucket was made, can be seen. */
  lemma {:induction false} KeysRunAlone(l: Limiter, key: Key, calls: seq<Call>, b: Bucket, start: real)
    requires l.template.Some? && l.template.value.1 >= 0.0
    requires forall i :: 0 <= i < |calls| ==> start <= calls[i].now
    requires b == if key in l.buckets then l.buckets[key] else Full(l.template.value.0, l.template.value.1, start)
    ensures var ds := Decisions(l, calls);
            ToldOf(key, calls, ds) == Alone(b, TimesOf(key, calls, ds))
    decreases |calls|
  {
    hide Acquire;
    if calls != [] {
      var c := calls[0];
      var (next, d) := Spend(l, c.key, c.now);
      var ds := Decisions(l, calls);
      assert ds[0] == d && ds[1..] == Decisions(next, calls[1..]);
      if key !in l.buckets {
        LazyIsFull(l.template.value.0, l.template.value.1, start, c.now);
      }
      if c.key == key && d != Limited(Global) {
        var b' := Acquire(b, c.now).0;
        KeysRunAlone(next, key, calls[1..], b', start);
        assert TimesOf(key, calls, ds)[1..] == TimesOf(key, calls[1..], ds[1..]);
      } else {
        KeysRunAlone(next, key, calls[1..], b, start);
        assert TimesOf(key, calls, ds) == TimesOf(key, calls[1..], ds[1..]);
        assert ToldOf(key, calls, ds) == ToldOf(key, calls[1..], ds[1..]);
      }
    }
  }

  // ----- The bounds, of the limiter

  function Times(calls: seq<Call>): (times: seq<real>)
    ensures |times| == |calls| && forall i :: 0 <= i < |calls| ==> times[i] == calls[i].now
  {
    seq(|calls|, i requires 0 <= i < |calls| => calls[i].now)
  }

  lemma {:induction false} AfterFirst(b: Bucket, times: seq<real>, n: nat)
    requires n < |times|
    ensures After(b, times, n + 1) == After(Acquire(b, times[0]).0, times[1..], n)
  {
    hide Acquire;
    if n > 0 { AfterFirst(b, times, n - 1); }
  }

  lemma {:induction false} AloneIsTold(b: Bucket, times: seq<real>)
    ensures Alone(b, times) == Told(b, times)
    decreases |times|
  {
    hide Acquire;
    if times != [] {
      var b' := Acquire(b, times[0]).0;
      AloneIsTold(b', times[1..]);
      forall k | 0 <= k < |times| ensures Alone(b, times)[k] == Told(b, times)[k] {
        if k > 0 {
          AfterFirst(b, times, k - 1);
          assert Alone(b, times)[k] == Alone(b', times[1..])[k - 1];
          assert times[1..][k - 1] == times[k];
        }
      }
      assert |Alone(b, times)| == |times|;
    } else {
      assert Told(b, times) == [];
    }
  }

  /** Whether each call got past the global bucket. */
  function PastGlobal(ds: seq<Decision>): (told: seq<bool>)
    ensures |told| == |ds|
  {
    seq(|ds|, i requires 0 <= i < |ds| => ds[i] != Limited(Global))
  }

  /** The global bucket, too, is as if alone with all the calls. */
  lemma {:induction false} GlobalRunsAlone(l: Limiter, calls: seq<Call>)
    requires l.global.Some?
    ensures PastGlobal(Decisions(l, calls)) == Alone(l.global.value, Times(calls))
    decreases |calls|
  {
    hide Acquire;
    if calls != [] {
      var c := calls[0];
      var (next, d) := Spend(l, c.key, c.now);
      var ds := Decisions(l, calls);
      GlobalRunsAlone(next, calls[1..]);
      assert Times(calls)[1..] == Times(calls[1..]);
      assert PastGlobal(ds) == [d != Limited(Global)] + PastGlobal(ds[1..]);
    }
  }

  /** Whether each call was let through. */
  function LetBy(ds: seq<Decision>): (told: seq<bool>)
    ensures |told| == |ds| && forall i :: 0 <= i < |ds| ==> told[i] == (ds[i] == Allow)
  {
    seq(|ds|, i requires 0 <= i < |ds| => ds[i] == Allow)
  }

  lemma {:induction false} FewerThrough(told: seq<bool>, more: seq<bool>, times: seq<real>, s: real, t: real, n: nat)
    requires n <= |told| == |more| == |times| && forall k :: 0 <= k < |told| ==> told[k] ==> more[k]
    ensures Through(told, times, s, t, n) <= Through(more, times, s, t, n)
  {
    if n > 0 { FewerThrough(told, more, times, s, t, n - 1); }
  }

  /** All the calls let through, of every key together, in any window: at most the
    * global burst and what the global rate gives in that time. */
  lemma {:induction false} LimiterIsBounded(l: Limiter, calls: seq<Call>, s: real, t: real)
    requires l.global.Some? && l.global.value.Valid() && Ordered(l.global.value, Times(calls)) && s <= t
    ensures Through(LetBy(Decisions(l, calls)), Times(calls), s, t, |calls|) as real
            <= l.global.value.capacity + Gain(t - s, l.global.value.rate)
  {
    hide Gain, Through, Told, Alone, Decisions;
    var ds := Decisions(l, calls);
    GlobalRunsAlone(l, calls);
    AloneIsTold(l.global.value, Times(calls));
    ThroughputIsBounded(l.global.value, Times(calls), s, t);
    FewerThrough(LetBy(ds), PastGlobal(ds), Times(calls), s, t, |calls|);
  }

  lemma {:induction false} TimesOfAreOrdered(key: Key, calls: seq<Call>, ds: seq<Decision>, start: real)
    requires |ds| == |calls|
    requires forall i :: 0 <= i < |calls| ==> start <= calls[i].now
    requires forall i, j :: 0 <= i <= j < |calls| ==> calls[i].now <= calls[j].now
    ensures var times := TimesOf(key, calls, ds);
            && |times| == |ToldOf(key, calls, ds)|
            && (forall i :: 0 <= i < |times| ==> start <= times[i])
            && (forall i, j :: 0 <= i <= j < |times| ==> times[i] <= times[j])
    decreases |calls|
  {
    if calls != [] {
      TimesOfAreOrdered(key, calls[1..], ds[1..], start);
      TimesOfAreOrdered(key, calls[1..], ds[1..], calls[0].now);
    }
  }

  /** And under each key, whatever the other keys' calls, at most its own burst and
    * what its own rate gives in that time. */
  lemma {:induction false} EachKeyIsBounded(l: Limiter, key: Key, calls: seq<Call>, start: real, s: real, t: real)
    requires l.template.Some? && l.buckets == map[] && s <= t
    requires l.template.value.0 >= 0.0 && l.template.value.1 >= 0.0
    requires forall i :: 0 <= i < |calls| ==> start <= calls[i].now
    requires forall i, j :: 0 <= i <= j < |calls| ==> calls[i].now <= calls[j].now
    ensures var ds := Decisions(l, calls);
            var told, times := ToldOf(key, calls, ds), TimesOf(key, calls, ds);
            && |told| == |times|
            && Through(told, times, s, t, |told|) as real <= l.template.value.0 + Gain(t - s, l.template.value.1)
  {
    hide Gain, Through, Told, Alone, Decisions, ToldOf, TimesOf;
    var ds := Decisions(l, calls);
    var b := Full(l.template.value.0, l.template.value.1, start);
    TimesOfAreOrdered(key, calls, ds, start);
    KeysRunAlone(l, key, calls, b, start);
    AloneIsTold(b, TimesOf(key, calls, ds));
    ThroughputIsBounded(b, TimesOf(key, calls, ds), s, t);
  }

  // ----- Each decision, from those before it

  /** How many of the calls from the `i`th up to the `n`th were let by. */
  function Count(told: seq<bool>, i: nat, n: nat): nat
    requires i <= n <= |told|
    decreases n - i
  {
    if i == n then 0 else Count(told, i, n - 1) + (if told[n - 1] then 1 else 0)
  }

  /** One call more, at `now`, would stay within the burst and the rate in every window
    * that ends with it, after calls at `times` of which those `told` so were let by. */
  ghost predicate RoomForOne(capacity: real, rate: real, told: seq<bool>, times: seq<real>, now: real) {
    && |told| == |times| && capacity >= 1.0
    && forall i :: 0 <= i < |times| ==> 1.0 <= capacity + Gain(now - times[i], rate) - Count(told, i, |told|) as real
  }

  lemma {:induction false} AllowedIsCount(b: Bucket, times: seq<real>, i: nat, n: nat)
    requires i <= n <= |times|
    ensures Allowed(b, times, i, n) == Count(Told(b, times)[..n], i, n)
    decreases n - i
  {
    hide Allows;
    if i < n {
      AllowedIsCount(b, times, i, n - 1);
      CountOfMore(Told(b, times)[..n - 1], Told(b, times)[..n], i, n - 1);
    }
  }

  lemma {:induction false} CountOfMore(less: seq<bool>, more: seq<bool>, i: nat, n: nat)
    requires i <= n <= |less| && less <= more
    ensures Count(less, i, n) == Count(more, i, n)
    decreases n - i
  {
    if i < n { CountOfMore(less, more, i, n - 1); }
  }

  /** A bucket's answer, from its answers before. */
  lemma {:induction false} ToldIsRoom(b: Bucket, times: seq<real>, n: nat)
    requires b.Valid() && b.tokens == b.capacity && Ordered(b, times) && n < |times|
    ensures Told(b, times)[n] <==> RoomForOne(b.capacity, b.rate, Told(b, times)[..n], times[..n], times[n])
  {
    hide Allows, Told, Allowed, Gain, Count;
    ShedsOnlyWhatBreaksTheBound(b, times, n);
    forall i | 0 <= i < n
      ensures Room(b, times, i, n, times[n]) ==
              b.capacity + Gain(times[n] - times[..n][i], b.rate) - Count(Told(b, times)[..n], i, n) as real
    {
      AllowedIsCount(b, times, i, n);
    }
  }

  /** The limiter after its first `n` calls. */
  function LimiterAfter(l: Limiter, calls: seq<Call>, n: nat): Limiter
    requires n <= |calls|
  {
    if n == 0 then l
    else
      var c := calls[n - 1];
      Spend(LimiterAfter(l, calls, n - 1), c.key, c.now).0
  }

  lemma {:induction false} LaterStarts(l: Limiter, calls: seq<Call>, n: nat)
    requires 0 < n <= |calls|
    ensures LimiterAfter(l, calls, n) == LimiterAfter(Spend(l, calls[0].key, calls[0].now).0, calls[1..], n - 1)
  {
    hide Spend;
    if n > 1 { LaterStarts(l, calls, n - 1); }
  }

  lemma {:induction false} DecisionAt(l: Limiter, calls: seq<Call>, n: nat)
    requires n < |calls|
    ensures Decisions(l, calls)[n] == Spend(LimiterAfter(l, calls, n), calls[n].key, calls[n].now).1
    decreases n
  {
    hide Spend;
    if n > 0 {
      DecisionAt(Spend(l, calls[0].key, calls[0].now).0, calls[1..], n - 1);
      LaterStarts(l, calls, n);
    }
  }

  lemma {:induction false} SettingsStay(l: Limiter, calls: seq<Call>, n: nat)
    requires n <= |calls|
    ensures LimiterAfter(l, calls, n).template == l.template
    ensures LimiterAfter(l, calls, n).global.Some? <==> l.global.Some?
  {
    hide Acquire, Full;
    if n > 0 { SettingsStay(l, calls, n - 1); }
  }

  lemma {:induction false} DecisionsOfFirst(l: Limiter, calls: seq<Call>, n: nat)
    requires n <= |calls|
    ensures Decisions(l, calls[..n]) == Decisions(l, calls)[..n]
    decreases |calls|
  {
    hide Spend;
    if n > 0 {
      assert calls[..n][1..] == calls[1..][..n - 1];
      DecisionsOfFirst(Spend(l, calls[0].key, calls[0].now).0, calls[1..], n - 1);
    }
  }

  /** What a key has been told, with one call more. */
  lemma {:induction false} ToldOfMore(key: Key, calls: seq<Call>, ds: seq<Decision>, c: Call, d: Decision)
    requires |ds| == |calls|
    ensures var counts := c.key == key && d != Limited(Global);
            && ToldOf(key, calls + [c], ds + [d]) == ToldOf(key, calls, ds) + (if counts then [d == Allow] else [])
            && TimesOf(key, calls + [c], ds + [d]) == TimesOf(key, calls, ds) + (if counts then [c.now] else [])
    decreases |calls|
  {
    if calls == [] {
      assert (calls + [c])[1..] == [] && (ds + [d])[1..] == [];
    } else {
      hide ToldOf, TimesOf;
      assert (calls + [c])[1..] == calls[1..] + [c] && (ds + [d])[1..] == ds[1..] + [d];
      ToldOfMore(key, calls[1..], ds[1..], c, d);
      ToldStep(key, calls, ds);
      ToldStep(key, calls + [c], ds + [d]);
    }
  }

  lemma {:induction false} ToldStep(key: Key, calls: seq<Call>, ds: seq<Decision>)
    requires |ds| == |calls| > 0
    ensures var counts := calls[0].key == key && ds[0] != Limited(Global);
            && ToldOf(key, calls, ds) == (if counts then [ds[0] == Allow] else []) + ToldOf(key, calls[1..], ds[1..])
            && TimesOf(key, calls, ds) == (if counts then [calls[0].now] else []) + TimesOf(key, calls[1..], ds[1..])
  {
  }

  /** A limiter as it is made: the global bucket full, if there is one, and no other yet. */
  ghost predicate New(l: Limiter, start: real) {
    && l.buckets == map[]
    && (l.global.Some? ==>
          l.global.value.Valid() && l.global.value == Full(l.global.value.capacity, l.global.value.rate, start))
    && (l.template.Some? ==> l.template.value.0 >= 0.0 && l.template.value.1 >= 0.0)
  }

  ghost predicate InOrder(calls: seq<Call>, start: real) {
    && (forall i :: 0 <= i < |calls| ==> start <= calls[i].now)
    && forall i, j :: 0 <= i <= j < |calls| ==> calls[i].now <= calls[j].now
  }

  /** The decision on each call of any run: limited by the global bucket exactly when
    * there is one and the calls that got past it leave no room; then by the key's own
    * exactly when keys are limited and the calls under that key leave none; and let
    * through otherwise. */
  lemma {:induction false} EachDecision(l: Limiter, calls: seq<Call>, start: real, n: nat)
    requires New(l, start) && InOrder(calls, start) && n < |calls|
    ensures var ds, key, now := Decisions(l, calls), calls[n].key, calls[n].now;
            ds[n] ==
            if l.global.Some? && !RoomForOne(l.global.value.capacity, l.global.value.rate,
                                             PastGlobal(ds)[..n], Times(calls)[..n], now)
            then Limited(Global)
            else if l.template.Some? && !RoomForOne(l.template.value.0, l.template.value.1,
                                                    ToldOf(key, calls[..n], ds[..n]),
                                                    TimesOf(key, calls[..n], ds[..n]), now)
            then
              match key
              case ToolKey(_, _) => Limited(Tool)
              case ReadsKey(_) => Limited(Reads)
              case PromptsKey(_) => Limited(Prompts)
              case CompletionsKey(_) => Limited(Completions)
            else Allow
  {
    hide RoomForOne, Decisions, ToldOf, TimesOf, Acquire, BucketOf, Told, Full;
    DecisionAt(l, calls, n);
    SettingsStay(l, calls, n);
    var ds := Decisions(l, calls);
    assert PastGlobal(ds)[n] <==> ds[n] != Limited(Global);
    if l.global.Some? { PastGlobalIsRoom(l, calls, start, n); }
    if ds[n] != Limited(Global) && l.template.Some? { KeyIsRoom(l, calls, start, n); }
  }

  lemma {:induction false} PastGlobalIsRoom(l: Limiter, calls: seq<Call>, start: real, n: nat)
    requires New(l, start) && InOrder(calls, start) && n < |calls| && l.global.Some?
    ensures var ds, g := Decisions(l, calls), l.global.value;
            PastGlobal(ds)[n] <==> RoomForOne(g.capacity, g.rate, PastGlobal(ds)[..n], Times(calls)[..n], calls[n].now)
  {
    hide RoomForOne, Decisions, Told, Alone;
    GlobalRunsAlone(l, calls);
    AloneIsTold(l.global.value, Times(calls));
    ToldIsRoom(l.global.value, Times(calls), n);
  }

  lemma {:induction false} KeyIsRoom(l: Limiter, calls: seq<Call>, start: real, n: nat)
    requires New(l, start) && InOrder(calls, start) && n < |calls| && l.template.Some?
    requires Decisions(l, calls)[n] != Limited(Global)
    ensures var ds, key := Decisions(l, calls), calls[n].key;
            ds[n] == Allow <==>
            RoomForOne(l.template.value.0, l.template.value.1,
                       ToldOf(key, calls[..n], ds[..n]), TimesOf(key, calls[..n], ds[..n]), calls[n].now)
  {
    hide RoomForOne, Decisions, Told, Alone, ToldOf, TimesOf;
    var ds, key := Decisions(l, calls), calls[n].key;
    var b := Full(l.template.value.0, l.template.value.1, start);
    var first, answers := calls[..n + 1], ds[..n + 1];
    DecisionsOfFirst(l, calls, n + 1);
    KeysRunAlone(l, key, first, b, start);
    assert first == calls[..n] + [calls[n]] && answers == ds[..n] + [ds[n]];
    ToldOfMore(key, calls[..n], ds[..n], calls[n], ds[n]);
    var told, times := ToldOf(key, first, answers), TimesOf(key, first, answers);
    TimesOfAreOrdered(key, first, answers, start);
    TimesOfAreOrdered(key, calls[..n], ds[..n], start);
    AloneIsTold(b, times);
    var m := |times| - 1;
    assert told[..m] == ToldOf(key, calls[..n], ds[..n]) && times[..m] == TimesOf(key, calls[..n], ds[..n]);
    ToldIsRoom(b, times, m);
  }
}
