/** The in-memory token bucket: lazy refill on every call, one bucket per key. */
module RateLimit {

  datatype Bucket = Bucket(tokens: real, lastRefillMs: int)

  /** How long to wait after a denial; a bucket that never refills has no finite answer. */
  datatype Retry = Seconds(n: int) | Never

  datatype Outcome = Outcome(allowed: bool, retryAfter: Retry)

  /** The limit that applies to a key, the same for all its calls. */
  datatype Limit = Limit(capacity: real, rate: real)

  type Buckets = map<string, Bucket>

  function Min(a: real, b: real): real {
    if a < b then a else b
  }

  /** `Math.ceil`. */
  function Ceil(x: real): (n: int)
    ensures n as real - 1.0 < x <= n as real
  {
    if x.Floor as real == x then x.Floor else x.Floor + 1
  }

  /** The tokens refilled between two instants. */
  function Earned(fromMs: int, toMs: int, rate: real): real {
    (toMs - fromMs) as real / 1000.0 * rate
  }

  /** The level after topping up, never above the capacity. */
  function Refill(tokens: real, capacity: real, earned: real): real {
    Min(capacity, tokens + earned)
  }

  function RetryAfter(tokens: real, rate: real): Retry {
    if rate == 0.0 then Never
    else
      var n := Ceil((1.0 - tokens) / rate);
      Seconds(if n < 1 then 1 else n)
  }

  /** The level a call finds. */
  function Level(b: Bucket, l: Limit, now: int): real {
    Refill(b.tokens, l.capacity, Earned(b.lastRefillMs, now, l.rate))
  }

  predicate Allows(b: Bucket, l: Limit, now: int) {
    Level(b, l, now) >= 1.0
  }

  /** The bucket a call leaves behind. */
  function After(b: Bucket, l: Limit, now: int): Bucket {
    Bucket(if Allows(b, l, now) then Level(b, l, now) - 1.0 else Level(b, l, now), now)
  }

  function Reply(b: Bucket, l: Limit, now: int): Outcome {
    if Allows(b, l, now) then Outcome(true, Seconds(0)) else Outcome(false, RetryAfter(Level(b, l, now), l.rate))
  }

  function BucketFor(buckets: Buckets, key: string, capacity: real, now: int): Bucket {
    if key in buckets then buckets[key] else Bucket(capacity, now)
  }

  function Consumed(buckets: Buckets, key: string, l: Limit, now: int): (Buckets, Outcome) {
    var b := BucketFor(buckets, key, l.capacity, now);
    (buckets[key := After(b, l, now)], Reply(b, l, now))
  }

  class InMemoryRateLimitStore {
    var buckets: Buckets

    constructor ()
      ensures buckets == map[]
    {
      buckets := map[];
    }

    method Consume(key: string, capacityTokens: real, refillPerSecond: real, now: int) returns (outcome: Outcome)
      modifies this
      ensures (buckets, outcome) == Consumed(old(buckets), key, Limit(capacityTokens, refillPerSecond), now)
    {
      ghost var before := buckets;
      var bucket: Bucket;
      if key in buckets {
        bucket := buckets[key];
      } else {
        bucket := Bucket(capacityTokens, now);
        buckets := buckets[key := bucket];
      }
      var elapsedSeconds := (now - bucket.lastRefillMs) as real / 1000.0;
      bucket := bucket.(tokens := Min(capacityTokens, bucket.tokens + elapsedSeconds * refillPerSecond),
                        lastRefillMs := now);
      if bucket.tokens >= 1.0 {
        bucket := bucket.(tokens := bucket.tokens - 1.0);
        outcome := Outcome(true, Seconds(0));
      } else {
        outcome := Outcome(false, RetryAfter(bucket.tokens, refillPerSecond));
      }
      UpdateTwice(before, key, Bucket(capacityTokens, now), bucket);
      buckets := buckets[key := bucket];
    }
  }

  // ---------------------------------------------------------------------------
  // Runs over many keys
  // ---------------------------------------------------------------------------

  datatype Call = Call(key: string, now: int)

  /** State and outcomes after a run. */
  function Run(limits: string -> Limit, buckets: Buckets, calls: seq<Call>): (Buckets, seq<Outcome>)
  {
    if calls == [] then (buckets, [])
    else
      var (before, outcomes) := Run(limits, buckets, calls[..|calls| - 1]);
      var c := calls[|calls| - 1];
      var (after, o) := Consumed(before, c.key, limits(c.key), c.now);
      (after, outcomes + [o])
  }

  /** The calls on one key. */
  function CallsOn(key: string, calls: seq<Call>): seq<Call> {
    if calls == [] then []
    else
      var before := CallsOn(key, calls[..|calls| - 1]);
      if calls[|calls| - 1].key == key then before + [calls[|calls| - 1]] else before
  }

  /** The outcomes of the calls on one key. */
  function OutcomesOn(key: string, calls: seq<Call>, outcomes: seq<Outcome>): seq<Outcome>
    requires |calls| == |outcomes|
  {
    if calls == [] then []
    else
      var n := |calls| - 1;
      var before := OutcomesOn(key, calls[..n], outcomes[..n]);
      if calls[n].key == key then before + [outcomes[n]] else before
  }

  lemma {:induction false} RunLength(limits: string -> Limit, buckets: Buckets, calls: seq<Call>)
    ensures |Run(limits, buckets, calls).1| == |calls|
  {
    if calls == [] {
    } else {
      RunLength(limits, buckets, calls[..|calls| - 1]);
    }
  }

  predicate SameBucket(key: string, a: Buckets, b: Buckets) {
    (key in a <==> key in b) && (key in a ==> a[key] == b[key])
  }

  /** What a key is answered depends on the calls made on that key and on nothing else. */
  lemma {:induction false} KeysIndependent(limits: string -> Limit, buckets: Buckets, key: string, calls: seq<Call>)
    ensures |Run(limits, buckets, calls).1| == |calls|
    ensures OutcomesOn(key, calls, Run(limits, buckets, calls).1) == Run(limits, buckets, CallsOn(key, calls)).1
    ensures SameBucket(key, Run(limits, buckets, calls).0, Run(limits, buckets, CallsOn(key, calls)).0)
  {
    RunLength(limits, buckets, calls);
    if calls == [] {
    } else {
      var n := |calls| - 1;
      KeysIndependent(limits, buckets, key, calls[..n]);
      var outcomes := Run(limits, buckets, calls).1;
      assert outcomes[..n] == Run(limits, buckets, calls[..n]).1;
      if calls[n].key == key {
        var own := CallsOn(key, calls);
        assert own[..|own| - 1] == CallsOn(key, calls[..n]);
      }
    }
  }

  // ---------------------------------------------------------------------------
  // Runs on one key
  // ---------------------------------------------------------------------------

  /** The bucket after the first `n` of the calls made at the given instants. */
  function BucketAt(b: Bucket, l: Limit, times: seq<int>, n: nat): Bucket
    requires n <= |times|
  {
    if n == 0 then b
    else After(BucketAt(b, l, times, n - 1), l, times[n - 1])
  }

  /** Is call `i` allowed? */
  predicate AllowedAt(b: Bucket, l: Limit, times: seq<int>, i: nat)
    requires i < |times|
  {
    Allows(BucketAt(b, l, times, i), l, times[i])
  }

  /** How many of the calls `i..j` are allowed. */
  function AllowedBetween(b: Bucket, l: Limit, times: seq<int>, i: nat, j: nat): nat
    requires i <= j <= |times|
  {
    if i == j then 0
    else AllowedBetween(b, l, times, i, j - 1) + if AllowedAt(b, l, times, j - 1) then 1 else 0
  }

  /** The clock does not run backwards. */
  predicate Ordered(start: int, times: seq<int>) {
    && (forall i :: 0 <= i < |times| ==> start <= times[i])
    && forall i, j :: 0 <= i < j < |times| ==> times[i] <= times[j]
  }

  /** The instant of the last refill after `n` calls. */
  function Latest(start: int, times: seq<int>, n: nat): int
    requires n <= |times|
  {
    if n == 0 then start else times[n - 1]
  }

  function CallsAt(key: string, times: seq<int>, n: nat): seq<Call>
    requires n <= |times|
  {
    if n == 0 then [] else CallsAt(key, times, n - 1) + [Call(key, times[n - 1])]
  }

  lemma RunSnoc(limits: string -> Limit, buckets: Buckets, calls: seq<Call>, c: Call)
    ensures Run(limits, buckets, calls + [c]).0
            == Consumed(Run(limits, buckets, calls).0, c.key, limits(c.key), c.now).0
    ensures Run(limits, buckets, calls + [c]).1
            == Run(limits, buckets, calls).1 + [Consumed(Run(limits, buckets, calls).0, c.key, limits(c.key), c.now).1]
  {
    assert (calls + [c])[..|calls|] == calls;
  }

  /** A run of the store on one key is a run of that key's bucket. */
  lemma {:induction false} RunOnOneKey(limits: string -> Limit, buckets: Buckets, key: string, times: seq<int>, n: nat,
                                       b: Bucket)
    requires n < |times| && b == BucketFor(buckets, key, limits(key).capacity, times[0])
    ensures Run(limits, buckets, CallsAt(key, times, n + 1)).0 == buckets[key := BucketAt(b, limits(key), times, n + 1)]
    ensures Run(limits, buckets, CallsAt(key, times, n + 1)).1
            == Run(limits, buckets, CallsAt(key, times, n)).1
               + [Reply(BucketAt(b, limits(key), times, n), limits(key), times[n])]
  {
    RunSnoc(limits, buckets, CallsAt(key, times, n), Call(key, times[n]));
    if n == 0 {
    } else {
      RunOnOneKey(limits, buckets, key, times, n - 1, b);
      UpdateTwice(buckets, key, BucketAt(b, limits(key), times, n),
                  After(BucketAt(b, limits(key), times, n), limits(key), times[n]));
    }
  }

  lemma UpdateTwice(buckets: Buckets, key: string, first: Bucket, second: Bucket)
    ensures buckets[key := first][key := second] == buckets[key := second]
  {
  }

  lemma {:induction false} OutcomesOnOneKey(limits: string -> Limit, buckets: Buckets, key: string, times: seq<int>,
                                            n: nat, i: nat, b: Bucket)
    requires i < n <= |times| && b == BucketFor(buckets, key, limits(key).capacity, times[0])
    ensures |Run(limits, buckets, CallsAt(key, times, n)).1| == n
    ensures Run(limits, buckets, CallsAt(key, times, n)).1[i]
            == Reply(BucketAt(b, limits(key), times, i), limits(key), times[i])
  {
    RunLength(limits, buckets, CallsAt(key, times, n));
    CallsAtLength(key, times, n);
    RunOnOneKey(limits, buckets, key, times, n - 1, b);
    RunLength(limits, buckets, CallsAt(key, times, n - 1));
    CallsAtLength(key, times, n - 1);
    if i < n - 1 {
      OutcomesOnOneKey(limits, buckets, key, times, n - 1, i, b);
    }
  }

  lemma {:induction false} CallsAtLength(key: string, times: seq<int>, n: nat)
    requires n <= |times|
    ensures |CallsAt(key, times, n)| == n
  {
    if n == 0 {
    } else {
      CallsAtLength(key, times, n - 1);
    }
  }

  /** The instants of the calls on one key. */
  function TimesOn(key: string, calls: seq<Call>): seq<int> {
    if calls == [] then []
    else
      var before := TimesOn(key, calls[..|calls| - 1]);
      if calls[|calls| - 1].key == key then before + [calls[|calls| - 1].now] else before
  }

  lemma {:induction false} CallsAtPrefix(key: string, times: seq<int>, last: int, n: nat)
    requires n <= |times|
    ensures CallsAt(key, times + [last], n) == CallsAt(key, times, n)
  {
    if n == 0 {
    } else {
      CallsAtPrefix(key, times, last, n - 1);
    }
  }

  lemma {:induction false} CallsOnAtTimes(key: string, calls: seq<Call>)
    ensures CallsOn(key, calls) == CallsAt(key, TimesOn(key, calls), |TimesOn(key, calls)|)
  {
    if calls == [] {
    } else {
      var before, c := calls[..|calls| - 1], calls[|calls| - 1];
      CallsOnAtTimes(key, before);
      if c.key == key {
        CallsAtPrefix(key, TimesOn(key, before), c.now, |TimesOn(key, before)|);
      }
    }
  }

  /**
   * The store's `i`-th answer on a key, in any run over any keys, is the answer of that key's own
   * bucket to the calls on that key alone.
   */
  lemma StoreAnswers(limits: string -> Limit, buckets: Buckets, key: string, calls: seq<Call>, i: nat,
                     times: seq<int>, b: Bucket)
    requires times == TimesOn(key, calls) && i < |times|
    requires b == BucketFor(buckets, key, limits(key).capacity, times[0])
    ensures |Run(limits, buckets, calls).1| == |calls|
    ensures |OutcomesOn(key, calls, Run(limits, buckets, calls).1)| == |times|
    ensures OutcomesOn(key, calls, Run(limits, buckets, calls).1)[i]
            == Reply(BucketAt(b, limits(key), times, i), limits(key), times[i])
  {
    KeysIndependent(limits, buckets, key, calls);
    CallsOnAtTimes(key, calls);
    OutcomesOnOneKey(limits, buckets, key, times, |times|, i, b);
  }

  /** A bucket as the store keeps it: within its capacity. */
  predicate Sound(b: Bucket, l: Limit) {
    0.0 <= b.tokens <= l.capacity && l.rate >= 0.0
  }

  lemma EarnedNonNegative(fromMs: int, toMs: int, rate: real)
    requires fromMs <= toMs && rate >= 0.0
    ensures Earned(fromMs, toMs, rate) >= 0.0
  {
  }

  lemma EarnedAdds(a: int, b: int, c: int, rate: real)
    ensures Earned(a, b, rate) + Earned(b, c, rate) == Earned(a, c, rate)
  {
    Distribute((b - a) as real / 1000.0, (c - b) as real / 1000.0, rate);
  }

  lemma Distribute(x: real, y: real, z: real)
    ensures x * z + y * z == (x + y) * z
  {
  }

  /** One call spends what it is allowed out of the topped-up level, which is bounded in two ways. */
  lemma StepBalance(b: Bucket, l: Limit, now: int)
    requires Sound(b, l) && b.lastRefillMs <= now
    ensures Sound(After(b, l, now), l)
    ensures After(b, l, now).lastRefillMs == now
    ensures Spent(b, l, now) + After(b, l, now).tokens <= l.capacity
    ensures Spent(b, l, now) + After(b, l, now).tokens
            <= b.tokens + Earned(b.lastRefillMs, now, l.rate)
  {
    EarnedNonNegative(b.lastRefillMs, now, l.rate);
  }

  function Spent(b: Bucket, l: Limit, now: int): real {
    if Allows(b, l, now) then 1.0 else 0.0
  }

  /** Between calls the level stays within zero and the capacity. */
  lemma {:induction false} LevelBounded(b: Bucket, l: Limit, times: seq<int>, n: nat)
    requires Sound(b, l) && Ordered(b.lastRefillMs, times) && n <= |times|
    ensures Sound(BucketAt(b, l, times, n), l)
    ensures BucketAt(b, l, times, n).lastRefillMs == Latest(b.lastRefillMs, times, n)
  {
    if n == 0 {
    } else {
      LevelBounded(b, l, times, n - 1);
      StepBalance(BucketAt(b, l, times, n - 1), l, times[n - 1]);
    }
  }

  /**
   * In any window the calls allowed on a key number at most the capacity plus what is refilled
   * between the first and the last call of the window.
   */
  lemma {:induction false} WindowBound(b: Bucket, l: Limit, times: seq<int>, i: nat, j: nat)
    requires Sound(b, l) && Ordered(b.lastRefillMs, times) && i < j <= |times|
    ensures AllowedBetween(b, l, times, i, j) as real + BucketAt(b, l, times, j).tokens
            <= l.capacity + Earned(times[i], times[j - 1], l.rate)
    ensures AllowedBetween(b, l, times, i, j) as real <= l.capacity + Earned(times[i], times[j - 1], l.rate)
  {
    LevelBounded(b, l, times, j - 1);
    LevelBounded(b, l, times, j);
    StepBalance(BucketAt(b, l, times, j - 1), l, times[j - 1]);
    if i == j - 1 {
      EarnedNonNegative(times[i], times[i], l.rate);
    } else {
      WindowBound(b, l, times, i, j - 1);
      EarnedAdds(times[i], times[j - 2], times[j - 1], l.rate);
    }
  }

  // ---------------------------------------------------------------------------
  // Lazy refill is continuous refill
  // ---------------------------------------------------------------------------

  /** Topping up twice is topping up once for the whole time. */
  lemma RefillComposes(tokens: real, capacity: real, first: real, second: real)
    requires second >= 0.0
    ensures Refill(Refill(tokens, capacity, first), capacity, second) == Refill(tokens, capacity, first + second)
  {
  }

  datatype Event = Ask(now: int) | Tick(now: int)

  function Top(b: Bucket, l: Limit, now: int): Bucket {
    Bucket(Level(b, l, now), now)
  }

  /** A bucket that is also topped up at ticks, with the outcomes of its calls. */
  function EagerRun(b: Bucket, l: Limit, events: seq<Event>): (Bucket, seq<Outcome>) {
    if events == [] then (b, [])
    else
      var (before, outcomes) := EagerRun(b, l, events[..|events| - 1]);
      match events[|events| - 1]
      case Tick(now) => (Top(before, l, now), outcomes)
      case Ask(now) =>
        (After(before, l, now), outcomes + [Reply(before, l, now)])
  }

  /** The instants of the calls among the events. */
  function AskTimes(events: seq<Event>): seq<int> {
    if events == [] then []
    else
      var before := AskTimes(events[..|events| - 1]);
      if events[|events| - 1].Ask? then before + [events[|events| - 1].now] else before
  }

  predicate InOrder(start: int, events: seq<Event>) {
    && (forall i :: 0 <= i < |events| ==> start <= events[i].now)
    && forall i, j :: 0 <= i < j < |events| ==> events[i].now <= events[j].now
  }

  function LastInstant(start: int, events: seq<Event>): int {
    if events == [] then start else events[|events| - 1].now
  }

  lemma {:induction false} BucketAtPrefix(b: Bucket, l: Limit, times: seq<int>, last: int, n: nat)
    requires n <= |times|
    ensures BucketAt(b, l, times + [last], n) == BucketAt(b, l, times, n)
  {
    if n == 0 {
    } else {
      BucketAtPrefix(b, l, times, last, n - 1);
    }
  }

  /** The bucket is what the calls alone make it, topped up to the last instant. */
  lemma {:induction false} LazyLevel(b: Bucket, l: Limit, events: seq<Event>)
    requires l.rate >= 0.0 && b.tokens <= l.capacity && InOrder(b.lastRefillMs, events)
    ensures var lazy, now := BucketAt(b, l, AskTimes(events), |AskTimes(events)|), LastInstant(b.lastRefillMs, events);
            && lazy.lastRefillMs <= now && lazy.tokens <= l.capacity
            && EagerRun(b, l, events).0 == Top(lazy, l, now)
  {
    if events == [] {
      TopNow(b, l, b.lastRefillMs);
    } else {
      var n := |events| - 1;
      LazyLevel(b, l, events[..n]);
      var times := AskTimes(events[..n]);
      var lazy := BucketAt(b, l, times, |times|);
      var mid, now := LastInstant(b.lastRefillMs, events[..n]), events[n].now;
      assert mid <= now;
      TopTwice(lazy, l, mid, now);
      if events[n].Ask? {
        BucketAtPrefix(b, l, times, now, |times|);
        StepAfterTop(lazy, l, mid, now);
        TopNow(After(lazy, l, now), l, now);
      }
    }
  }

  /**
   * Refilling at any number of instants in between changes no answer: call `i` is answered as the lazy bucket
   * answers.
   */
  lemma {:induction false} LazyIsEager(b: Bucket, l: Limit, events: seq<Event>, i: nat)
    requires l.rate >= 0.0 && b.tokens <= l.capacity && InOrder(b.lastRefillMs, events)
    requires i < |AskTimes(events)|
    ensures |EagerRun(b, l, events).1| == |AskTimes(events)|
    ensures EagerRun(b, l, events).1[i] == Reply(BucketAt(b, l, AskTimes(events), i), l, AskTimes(events)[i])
  {
    var n := |events| - 1;
    var times := AskTimes(events[..n]);
    EagerCounts(b, l, events[..n]);
    if i < |times| {
      LazyIsEager(b, l, events[..n], i);
      BucketAtPrefix(b, l, times, events[n].now, i);
    } else {
      var mid, now := LastInstant(b.lastRefillMs, events[..n]), events[n].now;
      assert mid <= now;
      LazyLevel(b, l, events[..n]);
      BucketAtPrefix(b, l, times, now, |times|);
      StepAfterTop(BucketAt(b, l, times, |times|), l, mid, now);
    }
  }

  lemma {:induction false} EagerCounts(b: Bucket, l: Limit, events: seq<Event>)
    ensures |EagerRun(b, l, events).1| == |AskTimes(events)|
  {
    if events == [] {
    } else {
      EagerCounts(b, l, events[..|events| - 1]);
    }
  }

  lemma TopTwice(b: Bucket, l: Limit, mid: int, now: int)
    requires l.rate >= 0.0 && b.lastRefillMs <= mid <= now
    ensures Top(Top(b, l, mid), l, now) == Top(b, l, now)
  {
    EarnedNonNegative(mid, now, l.rate);
    RefillComposes(b.tokens, l.capacity, Earned(b.lastRefillMs, mid, l.rate), Earned(mid, now, l.rate));
    EarnedAdds(b.lastRefillMs, mid, now, l.rate);
  }

  lemma StepAfterTop(b: Bucket, l: Limit, mid: int, now: int)
    requires l.rate >= 0.0 && b.lastRefillMs <= mid <= now
    ensures After(Top(b, l, mid), l, now) == After(b, l, now)
    ensures Allows(Top(b, l, mid), l, now) == Allows(b, l, now)
    ensures Reply(Top(b, l, mid), l, now) == Reply(b, l, now)
    ensures After(b, l, now).tokens <= l.capacity
  {
    TopTwice(b, l, mid, now);
  }

  lemma TopNow(b: Bucket, l: Limit, now: int)
    requires b.lastRefillMs == now && b.tokens <= l.capacity
    ensures Top(b, l, now) == b
  {
    assert Earned(now, now, l.rate) == 0.0;
  }

  // ---------------------------------------------------------------------------
  // The advertised waiting time
  // ---------------------------------------------------------------------------

  /** Denied calls only top the bucket up. */
  lemma {:induction false} DeniedOnlyTops(b: Bucket, l: Limit, times: seq<int>, n: nat)
    requires l.rate >= 0.0 && b.tokens <= l.capacity && Ordered(b.lastRefillMs, times) && n <= |times|
    requires AllowedBetween(b, l, times, 0, n) == 0
    ensures BucketAt(b, l, times, n) == Top(b, l, Latest(b.lastRefillMs, times, n))
  {
    if n == 0 {
      TopNow(b, l, b.lastRefillMs);
    } else {
      DeniedOnlyTops(b, l, times, n - 1);
      TopTwice(b, l, Latest(b.lastRefillMs, times, n - 1), times[n - 1]);
    }
  }

  /** After a denial and further denied calls, a call is allowed exactly when the deficit has been refilled. */
  lemma AllowedExactlyWhenRefilled(b: Bucket, l: Limit, times: seq<int>, n: nat)
    requires l.rate >= 0.0 && l.capacity >= 1.0 && b.tokens <= l.capacity
    requires Ordered(b.lastRefillMs, times) && n < |times| && AllowedBetween(b, l, times, 0, n) == 0
    ensures AllowedAt(b, l, times, n) <==> b.tokens + Earned(b.lastRefillMs, times[n], l.rate) >= 1.0
  {
    DeniedOnlyTops(b, l, times, n);
    StepAfterTop(b, l, Latest(b.lastRefillMs, times, n), times[n]);
  }

  /**
   * `retryAfterSeconds` is enough, and one second less is not when more than one second is asked for.
   * `b` is the bucket a denied call leaves behind; all calls before call `n` are denied too.
   */
  lemma RetryAfterIsTight(b: Bucket, l: Limit, times: seq<int>, n: nat, wait: int)
    requires l.rate > 0.0 && l.capacity >= 1.0 && b.tokens < 1.0
    requires Ordered(b.lastRefillMs, times) && n < |times| && AllowedBetween(b, l, times, 0, n) == 0
    requires RetryAfter(b.tokens, l.rate) == Seconds(wait)
    ensures times[n] - b.lastRefillMs >= 1000 * wait ==> AllowedAt(b, l, times, n)
    ensures wait > 1 && times[n] - b.lastRefillMs <= 1000 * (wait - 1) ==> !AllowedAt(b, l, times, n)
  {
    AllowedExactlyWhenRefilled(b, l, times, n);
    EnoughWaiting(b.tokens, l.rate, b.lastRefillMs, times[n], wait);
  }

  lemma EnoughWaiting(tokens: real, rate: real, fromMs: int, toMs: int, wait: int)
    requires rate > 0.0 && RetryAfter(tokens, rate) == Seconds(wait)
    ensures toMs - fromMs >= 1000 * wait ==> tokens + Earned(fromMs, toMs, rate) >= 1.0
    ensures wait > 1 && toMs - fromMs <= 1000 * (wait - 1) ==> tokens + Earned(fromMs, toMs, rate) < 1.0
  {
    QuotientBounds(1.0 - tokens, rate, (toMs - fromMs) as real / 1000.0);
  }

  lemma QuotientBounds(deficit: real, rate: real, s: real)
    requires rate > 0.0
    ensures s >= deficit / rate <==> s * rate >= deficit
  {
    var q := deficit / rate;
    assert q * rate == deficit;
    if s >= q {
      assert (s - q) * rate >= 0.0;
    } else {
      assert (q - s) * rate > 0.0;
    }
  }

  /** The denied call itself: the bucket it leaves is short of one token, and its answer is computed from that. */
  lemma DenialLeavesDeficit(b: Bucket, l: Limit, now: int)
    requires !Reply(b, l, now).allowed
    ensures After(b, l, now).tokens < 1.0 && After(b, l, now).lastRefillMs == now
    ensures Reply(b, l, now).retryAfter == RetryAfter(After(b, l, now).tokens, l.rate)
  {
  }

  // ---------------------------------------------------------------------------
  // The same of the store's own answers, in runs over any keys
  // ---------------------------------------------------------------------------

  /** The answers of the store to the calls on one key, in a run over many. */
  function AnswersOn(limits: string -> Limit, buckets: Buckets, key: string, calls: seq<Call>): seq<Outcome> {
    RunLength(limits, buckets, calls);
    OutcomesOn(key, calls, Run(limits, buckets, calls).1)
  }

  /** How many of the answers `i..j` are allowed. */
  function CountAllowed(answers: seq<Outcome>, i: nat, j: nat): nat
    requires i <= j <= |answers|
  {
    if i == j then 0 else CountAllowed(answers, i, j - 1) + if answers[j - 1].allowed then 1 else 0
  }

  /** The bucket a key starts a run with: the one it has, or a full one at its first call. */
  function StartOf(limits: string -> Limit, buckets: Buckets, key: string, calls: seq<Call>): Bucket
    requires TimesOn(key, calls) != []
  {
    BucketFor(buckets, key, limits(key).capacity, TimesOn(key, calls)[0])
  }

  lemma {:induction false} StoreCounts(limits: string -> Limit, buckets: Buckets, key: string, calls: seq<Call>,
                                       i: nat, j: nat)
    requires i <= j <= |TimesOn(key, calls)| && TimesOn(key, calls) != []
    ensures |AnswersOn(limits, buckets, key, calls)| == |TimesOn(key, calls)|
    ensures CountAllowed(AnswersOn(limits, buckets, key, calls), i, j)
            == AllowedBetween(StartOf(limits, buckets, key, calls), limits(key), TimesOn(key, calls), i, j)
    decreases j
  {
    var times, b := TimesOn(key, calls), StartOf(limits, buckets, key, calls);
    StoreAnswers(limits, buckets, key, calls, 0, times, b);
    if i == j {
    } else {
      StoreCounts(limits, buckets, key, calls, i, j - 1);
      StoreAnswers(limits, buckets, key, calls, j - 1, times, b);
    }
  }

  /**
   * In any run over any keys the calls that the store allows on a key, from its i-th to its j-th, number at
   * most the capacity plus what is refilled between them.
   */
  lemma StoreWindowBound(limits: string -> Limit, buckets: Buckets, key: string, calls: seq<Call>, i: nat, j: nat)
    requires i < j <= |TimesOn(key, calls)|
    requires Sound(StartOf(limits, buckets, key, calls), limits(key))
    requires Ordered(StartOf(limits, buckets, key, calls).lastRefillMs, TimesOn(key, calls))
    ensures |AnswersOn(limits, buckets, key, calls)| == |TimesOn(key, calls)|
    ensures CountAllowed(AnswersOn(limits, buckets, key, calls), i, j) as real
            <= limits(key).capacity + Earned(TimesOn(key, calls)[i], TimesOn(key, calls)[j - 1], limits(key).rate)
  {
    StoreCounts(limits, buckets, key, calls, i, j);
    WindowBound(StartOf(limits, buckets, key, calls), limits(key), TimesOn(key, calls), i, j);
  }

  /** A bucket later in a run is the start of the rest of the run. */
  lemma {:induction false} BucketAtLater(b: Bucket, l: Limit, times: seq<int>, k: nat, n: nat)
    requires k + n <= |times|
    ensures BucketAt(BucketAt(b, l, times, k), l, times[k..], n) == BucketAt(b, l, times, k + n)
  {
    if n == 0 {
    } else {
      BucketAtLater(b, l, times, k, n - 1);
      assert times[k..][n - 1] == times[k + n - 1];
    }
  }

  lemma {:induction false} AllowedLater(b: Bucket, l: Limit, times: seq<int>, k: nat, n: nat)
    requires k + n <= |times|
    ensures AllowedBetween(BucketAt(b, l, times, k), l, times[k..], 0, n) == AllowedBetween(b, l, times, k, k + n)
  {
    if n == 0 {
    } else {
      AllowedLater(b, l, times, k, n - 1);
      BucketAtLater(b, l, times, k, n - 1);
      assert times[k..][n - 1] == times[k + n - 1];
    }
  }

  /**
   * After the store denies the i-th call on a key with `wait` seconds, and denies the calls before the j-th,
   * the j-th is allowed from `wait` seconds on, and denied at one second less when `wait` exceeds 1.
   */
  lemma StoreRetryAfter(limits: string -> Limit, buckets: Buckets, key: string, calls: seq<Call>, i: nat, j: nat,
                        wait: int)
    requires i < j < |TimesOn(key, calls)|
    requires limits(key).rate > 0.0 && limits(key).capacity >= 1.0
    requires Ordered(StartOf(limits, buckets, key, calls).lastRefillMs, TimesOn(key, calls))
    ensures |AnswersOn(limits, buckets, key, calls)| == |TimesOn(key, calls)|
    ensures var answers, times := AnswersOn(limits, buckets, key, calls), TimesOn(key, calls);
            answers[i] == Outcome(false, Seconds(wait)) && CountAllowed(answers, i, j) == 0 ==>
              && (times[j] - times[i] >= 1000 * wait ==> answers[j].allowed)
              && (wait > 1 && times[j] - times[i] <= 1000 * (wait - 1) ==> !answers[j].allowed)
  {
    var times, b, l := TimesOn(key, calls), StartOf(limits, buckets, key, calls), limits(key);
    StoreCounts(limits, buckets, key, calls, i, j);
    StoreAnswers(limits, buckets, key, calls, i, times, b);
    StoreAnswers(limits, buckets, key, calls, j, times, b);
    if Reply(BucketAt(b, l, times, i), l, times[i]) == Outcome(false, Seconds(wait))
       && AllowedBetween(b, l, times, i, j) == 0 {
      RetryOnOneKey(b, l, times, i, j, wait);
    }
  }

  lemma RestTimes(start: int, times: seq<int>, i: nat, j: nat)
    requires i < j < |times| && Ordered(start, times)
    ensures Ordered(times[i], times[i + 1..]) && times[i + 1..][j - i - 1] == times[j]
  {
  }

  /** The calls after the i-th are denied in a run of their own from the bucket the i-th leaves. */
  lemma RestDenied(b: Bucket, l: Limit, times: seq<int>, i: nat, j: nat)
    requires i < j < |times| && AllowedBetween(b, l, times, i, j) == 0
    ensures AllowedBetween(BucketAt(b, l, times, i + 1), l, times[i + 1..], 0, j - i - 1) == 0
  {
    AllowedTail(b, l, times, i, j);
    AllowedLater(b, l, times, i + 1, j - i - 1);
  }

  lemma RestAnswers(b: Bucket, l: Limit, times: seq<int>, i: nat, j: nat)
    requires i < j < |times|
    ensures AllowedAt(BucketAt(b, l, times, i + 1), l, times[i + 1..], j - i - 1) == AllowedAt(b, l, times, j)
  {
    BucketAtLater(b, l, times, i + 1, j - i - 1);
    assert times[i + 1..][j - i - 1] == times[j];
  }

  /** The advertised wait, seen from the call that is denied. */
  lemma TightAfterDenial(found: Bucket, l: Limit, denied: int, rest: seq<int>, n: nat, wait: int)
    requires l.rate > 0.0 && l.capacity >= 1.0 && Ordered(denied, rest) && n < |rest|
    requires Reply(found, l, denied) == Outcome(false, Seconds(wait))
    requires AllowedBetween(After(found, l, denied), l, rest, 0, n) == 0
    ensures rest[n] - denied >= 1000 * wait ==> AllowedAt(After(found, l, denied), l, rest, n)
    ensures wait > 1 && rest[n] - denied <= 1000 * (wait - 1) ==> !AllowedAt(After(found, l, denied), l, rest, n)
  {
    DenialLeavesDeficit(found, l, denied);
    RetryAfterIsTight(After(found, l, denied), l, rest, n, wait);
  }

  lemma RetryOnOneKey(b: Bucket, l: Limit, times: seq<int>, i: nat, j: nat, wait: int)
    requires i < j < |times| && l.rate > 0.0 && l.capacity >= 1.0 && Ordered(b.lastRefillMs, times)
    requires Reply(BucketAt(b, l, times, i), l, times[i]) == Outcome(false, Seconds(wait))
    requires AllowedBetween(b, l, times, i, j) == 0
    ensures times[j] - times[i] >= 1000 * wait ==> AllowedAt(b, l, times, j)
    ensures wait > 1 && times[j] - times[i] <= 1000 * (wait - 1) ==> !AllowedAt(b, l, times, j)
  {
    RestTimes(b.lastRefillMs, times, i, j);
    RestDenied(b, l, times, i, j);
    RestAnswers(b, l, times, i, j);
    TightAfterDenial(BucketAt(b, l, times, i), l, times[i], times[i + 1..], j - i - 1, wait);
  }

  lemma {:induction false} AllowedTail(b: Bucket, l: Limit, times: seq<int>, i: nat, j: nat)
    requires i < j <= |times| && AllowedBetween(b, l, times, i, j) == 0
    ensures AllowedBetween(b, l, times, i + 1, j) == 0
    decreases j
  {
    if j == i + 1 {
    } else {
      AllowedTail(b, l, times, i, j - 1);
    }
  }

  // ---------------------------------------------------------------------------
  // Exactly which calls are allowed
  // ---------------------------------------------------------------------------

  /** What a full bucket at call `k` would still hold at call `j`, were it never to overflow in between. */
  function Headroom(b: Bucket, l: Limit, times: seq<int>, k: nat, j: nat): real
    requires k <= j < |times|
  {
    l.capacity + Earned(times[k], times[j], l.rate) - AllowedBetween(b, l, times, k, j) as real
  }

  /** What the bucket the run starts with would still hold, were it never to overflow. */
  function OwnRoom(b: Bucket, l: Limit, times: seq<int>, j: nat): real
    requires j < |times|
  {
    b.tokens + Earned(b.lastRefillMs, times[j], l.rate) - AllowedBetween(b, l, times, 0, j) as real
  }

  /** There is room for `x` tokens at call `j`, in every window that ends there. */
  predicate RoomFor(b: Bucket, l: Limit, times: seq<int>, j: nat, x: real)
    requires j < |times|
  {
    x <= OwnRoom(b, l, times, j) && forall k: nat :: k <= j ==> x <= Headroom(b, l, times, k, j)
  }

  lemma NothingEarned(now: int, rate: real)
    ensures Earned(now, now, rate) == 0.0
  {
  }

  lemma RoomLater(b: Bucket, l: Limit, times: seq<int>, j: nat)
    requires j + 1 < |times|
    ensures var gain := Earned(times[j], times[j + 1], l.rate) - if AllowedAt(b, l, times, j) then 1.0 else 0.0;
            && OwnRoom(b, l, times, j + 1) == OwnRoom(b, l, times, j) + gain
            && (forall k: nat :: k <= j ==> Headroom(b, l, times, k, j + 1) == Headroom(b, l, times, k, j) + gain)
            && Headroom(b, l, times, j + 1, j + 1) == l.capacity
  {
    EarnedAdds(b.lastRefillMs, times[j], times[j + 1], l.rate);
    NothingEarned(times[j + 1], l.rate);
    forall k: nat | k <= j
      ensures Earned(times[k], times[j + 1], l.rate)
              == Earned(times[k], times[j], l.rate) + Earned(times[j], times[j + 1], l.rate)
    {
      EarnedAdds(times[k], times[j], times[j + 1], l.rate);
    }
  }

  /** One of the rooms is just the level. */
  ghost predicate SomeRoomIs(b: Bucket, l: Limit, times: seq<int>, j: nat, level: real)
    requires j < |times|
  {
    level == OwnRoom(b, l, times, j) || exists k: nat :: k <= j && level == Headroom(b, l, times, k, j)
  }

  lemma RoomsMove(b: Bucket, l: Limit, times: seq<int>, j: nat, level: real, next: real)
    requires j + 1 < |times| && RoomFor(b, l, times, j, level) && SomeRoomIs(b, l, times, j, level)
    requires next == Min(l.capacity, level + Earned(times[j], times[j + 1], l.rate)
                                     - if AllowedAt(b, l, times, j) then 1.0 else 0.0)
    ensures RoomFor(b, l, times, j + 1, next) && SomeRoomIs(b, l, times, j + 1, next)
  {
    var last := j + 1;
    RoomLater(b, l, times, j);
    forall k: nat | k <= last
      ensures next <= Headroom(b, l, times, k, last)
    {
      assert k <= j ==> level <= Headroom(b, l, times, k, j);
    }
    if next == l.capacity {
      assert next == Headroom(b, l, times, j + 1, j + 1);
    } else if level != OwnRoom(b, l, times, j) {
      var k: nat :| k <= j && level == Headroom(b, l, times, k, j);
      assert next == Headroom(b, l, times, k, j + 1);
    }
  }

  /** The level a call finds is the least room of all windows: every room is at least that, and one is just that. */
  lemma {:induction false} LevelIsLeastRoom(b: Bucket, l: Limit, times: seq<int>, j: nat)
    requires j < |times|
    ensures RoomFor(b, l, times, j, Level(BucketAt(b, l, times, j), l, times[j]))
    ensures SomeRoomIs(b, l, times, j, Level(BucketAt(b, l, times, j), l, times[j]))
  {
    if j == 0 {
      NothingEarned(times[0], l.rate);
      assert Headroom(b, l, times, 0, 0) == l.capacity;
    } else {
      LevelIsLeastRoom(b, l, times, j - 1);
      LevelLater(b, l, times, j - 1);
      RoomsMove(b, l, times, j - 1, Level(BucketAt(b, l, times, j - 1), l, times[j - 1]),
                Level(BucketAt(b, l, times, j), l, times[j]));
    }
  }

  lemma LevelLater(b: Bucket, l: Limit, times: seq<int>, j: nat)
    requires j + 1 < |times|
    ensures var gain := Earned(times[j], times[j + 1], l.rate) - if AllowedAt(b, l, times, j) then 1.0 else 0.0;
            Level(BucketAt(b, l, times, j + 1), l, times[j + 1])
            == Min(l.capacity, Level(BucketAt(b, l, times, j), l, times[j]) + gain)
  {
  }

  lemma RoomForExactly(b: Bucket, l: Limit, times: seq<int>, j: nat, x: real)
    requires j < |times|
    ensures RoomFor(b, l, times, j, x) <==> x <= Level(BucketAt(b, l, times, j), l, times[j])
  {
    LevelIsLeastRoom(b, l, times, j);
  }

  /**
   * Room for one more token at an instant, going by the answers before the j-th: in no window that starts with
   * one of the calls would it and the calls allowed exceed the capacity and what is refilled from then on.
   */
  predicate WindowsHaveRoom(l: Limit, times: seq<int>, answers: seq<Outcome>, j: nat, now: int)
    requires j < |times| == |answers|
  {
    forall k: nat :: k <= j ==> CountAllowed(answers, k, j) as real + 1.0 <= l.capacity + Earned(times[k], now, l.rate)
  }

  /** Nor would they exceed what a bucket already there held and has been refilled since. */
  predicate HeldHasRoom(held: Bucket, l: Limit, answers: seq<Outcome>, j: nat, now: int)
    requires j < |answers|
  {
    CountAllowed(answers, 0, j) as real + 1.0 <= held.tokens + Earned(held.lastRefillMs, now, l.rate)
  }

  predicate StoreHasRoom(limits: string -> Limit, buckets: Buckets, key: string, calls: seq<Call>, j: nat, now: int)
    requires j < |TimesOn(key, calls)| == |AnswersOn(limits, buckets, key, calls)|
  {
    var times, answers := TimesOn(key, calls), AnswersOn(limits, buckets, key, calls);
    && WindowsHaveRoom(limits(key), times, answers, j, now)
    && (key in buckets ==> HeldHasRoom(buckets[key], limits(key), answers, j, now))
  }

  /** A thousandth of the rate for each millisecond. */
  lemma EarnedPerMillisecond(fromMs: int, toMs: int, rate: real)
    ensures Earned(fromMs, toMs, rate) * 1000.0 == (toMs - fromMs) as real * rate
  {
  }

  lemma AnswersAsMany(limits: string -> Limit, buckets: Buckets, key: string, calls: seq<Call>)
    ensures |AnswersOn(limits, buckets, key, calls)| == |TimesOn(key, calls)|
  {
    if TimesOn(key, calls) == [] {
      KeysIndependent(limits, buckets, key, calls);
      CallsOnAtTimes(key, calls);
    } else {
      StoreCounts(limits, buckets, key, calls, 0, 0);
    }
  }

  lemma OneWindow(b: Bucket, l: Limit, times: seq<int>, answers: seq<Outcome>, k: nat, j: nat, now: int)
    requires k <= j < |times| == |answers|
    requires CountAllowed(answers, k, j) == AllowedBetween(b, l, times, k, j)
    ensures CountAllowed(answers, k, j) as real + 1.0 <= l.capacity + Earned(times[k], now, l.rate) <==>
            1.0 - Earned(times[j], now, l.rate) <= Headroom(b, l, times, k, j)
  {
    EarnedAdds(times[k], times[j], now, l.rate);
  }

  lemma RoomByAnswers(b: Bucket, l: Limit, times: seq<int>, answers: seq<Outcome>, j: nat, now: int)
    requires j < |times| == |answers|
    requires forall k: nat :: k <= j ==> CountAllowed(answers, k, j) == AllowedBetween(b, l, times, k, j)
    ensures var x := 1.0 - Earned(times[j], now, l.rate);
            && (WindowsHaveRoom(l, times, answers, j, now) <==>
                forall k: nat :: k <= j ==> x <= Headroom(b, l, times, k, j))
            && (HeldHasRoom(b, l, answers, j, now) <==> x <= OwnRoom(b, l, times, j))
  {
    var x := 1.0 - Earned(times[j], now, l.rate);
    forall k: nat | k <= j
      ensures CountAllowed(answers, k, j) as real + 1.0 <= l.capacity + Earned(times[k], now, l.rate) <==>
              x <= Headroom(b, l, times, k, j)
    {
      OneWindow(b, l, times, answers, k, j, now);
    }
    EarnedAdds(b.lastRefillMs, times[j], now, l.rate);
    assert CountAllowed(answers, 0, j) == AllowedBetween(b, l, times, 0, j);
  }

  /** There is room at an instant exactly when the level found, and what is refilled until then, make a token. */
  lemma StoreRoom(limits: string -> Limit, buckets: Buckets, key: string, calls: seq<Call>, j: nat, now: int)
    requires j < |TimesOn(key, calls)| == |AnswersOn(limits, buckets, key, calls)|
    ensures var b, times, l := StartOf(limits, buckets, key, calls), TimesOn(key, calls), limits(key);
            StoreHasRoom(limits, buckets, key, calls, j, now) <==>
            Level(BucketAt(b, l, times, j), l, times[j]) + Earned(times[j], now, l.rate) >= 1.0
  {
    var answers, times, l := AnswersOn(limits, buckets, key, calls), TimesOn(key, calls), limits(key);
    var b := StartOf(limits, buckets, key, calls);
    forall k: nat | k <= j
      ensures CountAllowed(answers, k, j) == AllowedBetween(b, l, times, k, j)
    {
      StoreCounts(limits, buckets, key, calls, k, j);
    }
    RoomByAnswers(b, l, times, answers, j, now);
    RoomForExactly(b, l, times, j, 1.0 - Earned(times[j], now, l.rate));
    if key !in buckets {
      FullAtFirst(l, times, b, j);
    }
  }

  /** A new bucket is full at its first call. */
  lemma FullAtFirst(l: Limit, times: seq<int>, b: Bucket, j: nat)
    requires j < |times| && b == Bucket(l.capacity, times[0])
    ensures OwnRoom(b, l, times, j) == Headroom(b, l, times, 0, j)
  {
  }

  predicate AnswersExactly(limits: string -> Limit, buckets: Buckets, key: string, calls: seq<Call>, j: nat)
    requires j < |TimesOn(key, calls)| == |AnswersOn(limits, buckets, key, calls)|
  {
    var answer, now := AnswersOn(limits, buckets, key, calls)[j], TimesOn(key, calls)[j];
    if StoreHasRoom(limits, buckets, key, calls, j, now) then answer == Outcome(true, Seconds(0))
    else if limits(key).rate == 0.0 then answer == Outcome(false, Never)
    else
      && !answer.allowed && answer.retryAfter.Seconds? && answer.retryAfter.n >= 1
      && StoreHasRoom(limits, buckets, key, calls, j, now + 1000 * answer.retryAfter.n)
      && (answer.retryAfter.n > 1 ==>
            !StoreHasRoom(limits, buckets, key, calls, j, now + 1000 * (answer.retryAfter.n - 1)))
  }

  /**
   * The store's answers in any run over any keys, exactly: a call is allowed if and only if there is room for one
   * token; a denied call is told the least whole number of seconds, at least one, after which there would be, or
   * `Never` when nothing is refilled.
   */
  lemma StoreAnswersExactly(limits: string -> Limit, buckets: Buckets, key: string, calls: seq<Call>, j: nat)
    requires j < |TimesOn(key, calls)| && limits(key).rate >= 0.0
    ensures |AnswersOn(limits, buckets, key, calls)| == |TimesOn(key, calls)|
    ensures AnswersExactly(limits, buckets, key, calls, j)
  {
    var times, b, l := TimesOn(key, calls), StartOf(limits, buckets, key, calls), limits(key);
    var level := Level(BucketAt(b, l, times, j), l, times[j]);
    AnswersAsMany(limits, buckets, key, calls);
    StoreAnswers(limits, buckets, key, calls, j, times, b);
    StoreRoom(limits, buckets, key, calls, j, times[j]);
    NothingEarned(times[j], l.rate);
    if level < 1.0 && l.rate > 0.0 {
      var n := RetryAfter(level, l.rate).n;
      LeastWait(level, l.rate, times[j]);
      StoreRoom(limits, buckets, key, calls, j, times[j] + 1000 * n);
      StoreRoom(limits, buckets, key, calls, j, times[j] + 1000 * (n - 1));
    }
  }

  lemma LeastWait(tokens: real, rate: real, now: int)
    requires tokens < 1.0 && rate > 0.0
    ensures var wait := RetryAfter(tokens, rate);
            && wait.Seconds? && wait.n >= 1
            && tokens + Earned(now, now + 1000 * wait.n, rate) >= 1.0
            && (wait.n > 1 ==> tokens + Earned(now, now + 1000 * (wait.n - 1), rate) < 1.0)
  {
    var n := RetryAfter(tokens, rate).n;
    EnoughWaiting(tokens, rate, now, now + 1000 * n, n);
    EnoughWaiting(tokens, rate, now, now + 1000 * (n - 1), n);
  }

  /** A burst: the first calls on a new key are all allowed, as many as the capacity holds. */
  lemma StoreBurst(limits: string -> Limit, buckets: Buckets, key: string, calls: seq<Call>, j: nat)
    requires key !in buckets && limits(key).rate >= 0.0 && j < |TimesOn(key, calls)|
    requires j as real + 1.0 <= limits(key).capacity && Ordered(TimesOn(key, calls)[0], TimesOn(key, calls))
    ensures |AnswersOn(limits, buckets, key, calls)| == |TimesOn(key, calls)|
    ensures AnswersOn(limits, buckets, key, calls)[j] == Outcome(true, Seconds(0))
  {
    AnswersAsMany(limits, buckets, key, calls);
    BurstHasRoom(limits(key), TimesOn(key, calls), AnswersOn(limits, buckets, key, calls), j);
    StoreAnswersExactly(limits, buckets, key, calls, j);
  }

  lemma BurstHasRoom(l: Limit, times: seq<int>, answers: seq<Outcome>, j: nat)
    requires j < |times| == |answers| && l.rate >= 0.0 && j as real + 1.0 <= l.capacity && Ordered(times[0], times)
    ensures WindowsHaveRoom(l, times, answers, j, times[j])
  {
    forall k: nat | k <= j
      ensures CountAllowed(answers, k, j) as real + 1.0 <= l.capacity + Earned(times[k], times[j], l.rate)
    {
      CountBounded(answers, k, j);
      EarnedNonNegative(times[k], times[j], l.rate);
    }
  }

  lemma {:induction false} CountBounded(answers: seq<Outcome>, i: nat, j: nat)
    requires i <= j <= |answers|
    ensures CountAllowed(answers, i, j) <= j - i
    decreases j
  {
    if i == j {
    } else {
      CountBounded(answers, i, j - 1);
    }
  }

  // ---------------------------------------------------------------------------
  // Nothing is spent but by allowed calls
  // ---------------------------------------------------------------------------

  /** The bucket the store keeps for a key after a run is the one its own calls make. */
  lemma StoreBucket(limits: string -> Limit, buckets: Buckets, key: string, calls: seq<Call>)
    requires TimesOn(key, calls) != []
    ensures key in Run(limits, buckets, calls).0
    ensures Run(limits, buckets, calls).0[key]
            == BucketAt(StartOf(limits, buckets, key, calls), limits(key), TimesOn(key, calls), |TimesOn(key, calls)|)
  {
    var times := TimesOn(key, calls);
    KeysIndependent(limits, buckets, key, calls);
    CallsOnAtTimes(key, calls);
    RunOnOneKey(limits, buckets, key, times, |times| - 1, StartOf(limits, buckets, key, calls));
  }

  /** No call from the `i`-th to the `j`-th finds the bucket overflowing. */
  predicate NeverOverflows(b: Bucket, l: Limit, times: seq<int>, i: nat, j: nat)
    requires i <= j <= |times|
  {
    forall k: nat :: i <= k < j ==>
      BucketAt(b, l, times, k).tokens + Earned(BucketAt(b, l, times, k).lastRefillMs, times[k], l.rate) <= l.capacity
  }

  /**
   * While the bucket does not overflow its tokens are conserved: those there were and those refilled are the calls
   * allowed and the tokens left. Where it does overflow the call finds it full.
   */
  lemma {:induction false} BalanceExactly(b: Bucket, l: Limit, times: seq<int>, i: nat, j: nat)
    requires i <= j <= |times| && NeverOverflows(b, l, times, i, j)
    ensures var before, after := BucketAt(b, l, times, i), BucketAt(b, l, times, j);
            before.tokens + Earned(before.lastRefillMs, after.lastRefillMs, l.rate)
            == AllowedBetween(b, l, times, i, j) as real + after.tokens
    decreases j
  {
    var before := BucketAt(b, l, times, i);
    if i == j {
      NothingEarned(before.lastRefillMs, l.rate);
    } else {
      BalanceExactly(b, l, times, i, j - 1);
      EarnedAdds(before.lastRefillMs, BucketAt(b, l, times, j - 1).lastRefillMs, times[j - 1], l.rate);
    }
  }

  lemma OverflowFills(b: Bucket, l: Limit, now: int)
    requires b.tokens + Earned(b.lastRefillMs, now, l.rate) > l.capacity
    ensures After(b, l, now).tokens == if l.capacity >= 1.0 then l.capacity - 1.0 else l.capacity
    ensures After(b, l, now).lastRefillMs == now
  {
  }
}
