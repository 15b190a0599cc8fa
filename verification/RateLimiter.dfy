// The sliding-window limiter for sign-in attempts: one bucket of accepted times per source.
module RateLimiter {
  import opened Wrappers

  datatype Config = Config(limit: nat, window: real, maxKeys: int)
  {
    predicate Valid() { limit >= 1 && window >= 1.0 }
  }

  type Hits = map<string, seq<real>>

  function Bucket(hits: Hits, key: string): seq<real> {
    if key in hits then hits[key] else []
  }

  function DropExpired(bucket: seq<real>, now: real, window: real): seq<real> {
    if bucket != [] && now - bucket[0] > window then DropExpired(bucket[1..], now, window) else bucket
  }

  predicate Idle(bucket: seq<real>, now: real, window: real) {
    bucket == [] || now - bucket[|bucket| - 1] > window
  }

  function Evicted(hits: Hits, now: real, window: real): Hits {
    map k | k in hits && !Idle(hits[k], now, window) :: hits[k]
  }

  datatype Outcome = Outcome(hits: Hits, wait: Option<real>)

  function Attempt(c: Config, hits: Hits, key: string, now: real): Outcome
    requires c.Valid()
  {
    var kept := if |hits| > c.maxKeys then Evicted(hits, now, c.window) else hits;
    var bucket := DropExpired(Bucket(kept, key), now, c.window);
    if |bucket| >= c.limit then
      var wait := c.window - (now - bucket[0]);
      Outcome(kept[key := bucket], Some(if wait > 0.0 then wait else 0.0))
    else Outcome(kept[key := bucket + [now]], None)
  }

  class Limiter {
    const config: Config
    var hits: Hits

    constructor (limit: int, windowSeconds: int, maxKeys: int)
      ensures config.Valid() && hits == map[]
      ensures config == Config(if limit > 1 then limit else 1, (if windowSeconds > 1 then windowSeconds else 1) as real,
                               maxKeys)
    {
      config := Config(if limit > 1 then limit else 1, (if windowSeconds > 1 then windowSeconds else 1) as real,
                       maxKeys);
      hits := map[];
    }

    // Registers an attempt; yields the seconds to wait when over the limit.
    method Check(key: string, now: real) returns (wait: Option<real>)
      requires config.Valid()
      modifies this
      ensures Outcome(hits, wait) == Attempt(config, old(hits), key, now)
    {
      if |hits| > config.maxKeys {
        Evict(now);
      }
      var bucket := Bucket(hits, key);
      ghost var start := bucket;
      while bucket != [] && now - bucket[0] > config.window
        invariant DropExpired(bucket, now, config.window) == DropExpired(start, now, config.window)
        decreases |bucket|
      {
        bucket := bucket[1..];
      }
      if |bucket| >= config.limit {
        hits := hits[key := bucket];
        var left := config.window - (now - bucket[0]);
        wait := Some(if left > 0.0 then left else 0.0);
      } else {
        hits := hits[key := bucket + [now]];
        wait := None;
      }
    }

    method Reset(key: string)
      modifies this
      ensures hits == old(hits) - {key}
    {
      hits := hits - {key};
    }

    method Evict(now: real)
      modifies this
      ensures hits == Evicted(old(hits), now, config.window)
    {
      var before, todo := hits, hits.Keys;
      while todo != {}
        invariant todo <= before.Keys
        invariant forall k :: k in hits <==> k in before && (k in todo || !Idle(before[k], now, config.window))
        invariant forall k :: k in hits ==> hits[k] == before[k]
        decreases todo
      {
        var key :| key in todo;
        todo := todo - {key};
        if Idle(before[key], now, config.window) {
          hits := hits - {key};
        }
      }
    }
  }

  // ---------------------------------------------------------------- runs

  datatype Event = Tried(key: string, now: real) | Cleared(key: string)

  function HitsAfter(c: Config, events: seq<Event>): Hits
    requires c.Valid()
  {
    if events == [] then map[]
    else
      var before := HitsAfter(c, events[..|events| - 1]);
      match events[|events| - 1]
      case Tried(key, now) => Attempt(c, before, key, now).hits
      case Cleared(key) => before - {key}
  }

  // The times at which attempts of one source were accepted, in order.
  function AcceptedTimes(c: Config, events: seq<Event>, key: string): seq<real>
    requires c.Valid()
  {
    if events == [] then []
    else
      var front := events[..|events| - 1];
      var last := events[|events| - 1];
      if last.Tried? && last.key == key && Attempt(c, HitsAfter(c, front), key, last.now).wait.None?
      then AcceptedTimes(c, front, key) + [last.now]
      else AcceptedTimes(c, front, key)
  }

  // The clock never runs backwards, and `last` is not before its last reading.
  predicate ClockRises(events: seq<Event>, last: real) {
    events == [] ||
    (var e := events[|events| - 1];
     if e.Tried? then e.now <= last && ClockRises(events[..|events| - 1], e.now)
     else ClockRises(events[..|events| - 1], last))
  }

  predicate NeverCleared(events: seq<Event>, key: string) {
    forall i :: 0 <= i < |events| ==> events[i] != Cleared(key)
  }

  predicate Ascending(s: seq<real>) {
    forall i, j :: 0 <= i < j < |s| ==> s[i] <= s[j]
  }

  // The bucket is the recent end of the accepted times; what it dropped is older than the window.
  predicate Remembers(c: Config, bucket: seq<real>, accepted: seq<real>, clock: real) {
    && |bucket| <= |accepted| && bucket == accepted[|accepted| - |bucket|..]
    && |bucket| <= c.limit
    && Ascending(accepted)
    && (forall i :: 0 <= i < |accepted| ==> accepted[i] <= clock)
    && (forall i :: 0 <= i < |accepted| - |bucket| ==> clock - accepted[i] > c.window)
  }

  // Any limit + 1 successive accepted times span more than the window.
  predicate Spaced(c: Config, accepted: seq<real>) {
    forall i :: 0 <= i && i + c.limit < |accepted| ==> accepted[i + c.limit] - accepted[i] > c.window
  }

  lemma {:induction false} LaterClock(c: Config, bucket: seq<real>, accepted: seq<real>, clock: real, later: real)
    requires Remembers(c, bucket, accepted, clock) && clock <= later
    ensures Remembers(c, bucket, accepted, later)
  {
  }

  lemma {:induction false} DroppingKeepsMemory(c: Config, bucket: seq<real>, accepted: seq<real>, now: real)
    requires Remembers(c, bucket, accepted, now)
    ensures Remembers(c, DropExpired(bucket, now, c.window), accepted, now)
    decreases |bucket|
  {
    if bucket != [] && now - bucket[0] > c.window {
      assert bucket[1..] == accepted[|accepted| - (|bucket| - 1)..];
      DroppingKeepsMemory(c, bucket[1..], accepted, now);
    }
  }

  lemma {:induction false} ForgettingAnIdleBucket(c: Config, bucket: seq<real>, accepted: seq<real>, now: real)
    requires Remembers(c, bucket, accepted, now) && Idle(bucket, now, c.window)
    ensures Remembers(c, [], accepted, now)
  {
    if bucket != [] {
      assert bucket[|bucket| - 1] == accepted[|accepted| - 1];
    }
  }

  lemma {:induction false} EvictionKeepsMemory(c: Config, hits: Hits, key: string, accepted: seq<real>, now: real)
    requires Remembers(c, Bucket(hits, key), accepted, now)
    ensures Remembers(c, Bucket(Evicted(hits, now, c.window), key), accepted, now)
  {
    if key in hits && Idle(hits[key], now, c.window) {
      ForgettingAnIdleBucket(c, hits[key], accepted, now);
    }
  }

  // Everything but the bucket has expired, so a bucket with room means the attempt `limit`
  // places back has expired too.
  lemma {:induction false} AcceptingKeepsMemory(c: Config, bucket: seq<real>, accepted: seq<real>, now: real)
    requires Remembers(c, bucket, accepted, now) && Spaced(c, accepted) && |bucket| < c.limit
    ensures Remembers(c, bucket + [now], accepted + [now], now) && Spaced(c, accepted + [now])
  {
    var after := accepted + [now];
    assert bucket + [now] == after[|after| - (|bucket| + 1)..];
  }

  lemma {:induction false} AttemptKeepsMemory(c: Config, hits: Hits, key: string, accepted: seq<real>, now: real)
    requires c.Valid() && Remembers(c, Bucket(hits, key), accepted, now) && Spaced(c, accepted)
    ensures var o := Attempt(c, hits, key, now);
            var after := if o.wait.None? then accepted + [now] else accepted;
            Remembers(c, Bucket(o.hits, key), after, now) && Spaced(c, after)
  {
    var kept := if |hits| > c.maxKeys then Evicted(hits, now, c.window) else hits;
    EvictionKeepsMemory(c, hits, key, accepted, now);
    DroppingKeepsMemory(c, Bucket(kept, key), accepted, now);
    var bucket := DropExpired(Bucket(kept, key), now, c.window);
    if |bucket| < c.limit {
      AcceptingKeepsMemory(c, bucket, accepted, now);
    }
  }

  lemma {:induction false} OtherAttemptKeepsMemory(c: Config, hits: Hits, key: string, other: string,
                                                   accepted: seq<real>, now: real)
    requires c.Valid() && key != other && Remembers(c, Bucket(hits, key), accepted, now)
    ensures Remembers(c, Bucket(Attempt(c, hits, other, now).hits, key), accepted, now)
  {
    EvictionKeepsMemory(c, hits, key, accepted, now);
  }

  // Over any run with a rising clock, eviction included, and no reset of the source: at most
  // `limit` attempts are remembered, and any limit + 1 successive accepted attempts are more
  // than a window apart.
  lemma {:induction false} SlidingWindowGuarantee(c: Config, events: seq<Event>, key: string, clock: real)
    requires c.Valid() && ClockRises(events, clock) && NeverCleared(events, key)
    ensures Remembers(c, Bucket(HitsAfter(c, events), key), AcceptedTimes(c, events, key), clock)
    ensures Spaced(c, AcceptedTimes(c, events, key))
    decreases |events|
  {
    if events != [] {
      var front := events[..|events| - 1];
      var last := events[|events| - 1];
      var hits, accepted := HitsAfter(c, front), AcceptedTimes(c, front, key);
      match last
      case Cleared(other) =>
        SlidingWindowGuarantee(c, front, key, clock);
        assert other != key;
      case Tried(other, now) =>
        SlidingWindowGuarantee(c, front, key, now);
        if other == key {
          AttemptKeepsMemory(c, hits, key, accepted, now);
        } else {
          OtherAttemptKeepsMemory(c, hits, key, other, accepted, now);
        }
        LaterClock(c, Bucket(HitsAfter(c, events), key), AcceptedTimes(c, events, key), now, clock);
    }
  }

  // ---------------------------------------------------------------- waiting after a refusal

  // The source was refused and its oldest remembered attempt was at `oldest`: either that is
  // still so, or the bucket was evicted after everything in it expired.
  predicate Blocked(c: Config, bucket: seq<real>, oldest: real, clock: real) {
    || (bucket != [] && |bucket| == c.limit && bucket[0] == oldest && Ascending(bucket))
    || (bucket == [] && clock - oldest > c.window)
  }

  lemma {:induction false} BlockedUntil(c: Config, hits: Hits, key: string, oldest: real, now: real)
    requires c.Valid() && Blocked(c, Bucket(hits, key), oldest, now)
    ensures Attempt(c, hits, key, now).wait.None? <==> now > oldest + c.window
  {
    var bucket := Bucket(hits, key);
    if bucket != [] {
      var rest := DropExpired(bucket, now, c.window);
      DropExpiredShrinks(bucket[1..], now, c.window);
      if |hits| > c.maxKeys && Idle(bucket, now, c.window) {
        assert bucket[0] <= bucket[|bucket| - 1];
      }
    }
  }

  lemma {:induction false} DropExpiredShrinks(bucket: seq<real>, now: real, window: real)
    ensures |DropExpired(bucket, now, window)| <= |bucket|
    decreases |bucket|
  {
    if bucket != [] && now - bucket[0] > window {
      DropExpiredShrinks(bucket[1..], now, window);
    }
  }

  lemma {:induction false} OthersLeaveBlocked(c: Config, hits: Hits, key: string, other: string, oldest: real,
                                              now: real)
    requires c.Valid() && key != other && Blocked(c, Bucket(hits, key), oldest, now)
    ensures Blocked(c, Bucket(Attempt(c, hits, other, now).hits, key), oldest, now)
  {
    var bucket := Bucket(hits, key);
    if bucket != [] && Idle(bucket, now, c.window) {
      assert bucket[0] <= bucket[|bucket| - 1];
    }
  }

  // What follows a refusal of `key` without touching it.
  predicate Untouched(events: seq<Event>, from: nat, key: string)
    requires from <= |events|
  {
    forall i :: from <= i < |events| ==> events[i].key != key
  }

  lemma {:induction false} StaysBlocked(c: Config, events: seq<Event>, from: nat, key: string, oldest: real,
                                        clock: real)
    requires c.Valid() && from <= |events| && ClockRises(events, clock) && Untouched(events, from, key)
    requires forall t :: ClockRises(events[..from], t) ==>
               Blocked(c, Bucket(HitsAfter(c, events[..from]), key), oldest, t)
    ensures Blocked(c, Bucket(HitsAfter(c, events), key), oldest, clock)
    decreases |events|
  {
    if from == |events| {
      assert events[..from] == events;
    } else {
      var front := events[..|events| - 1];
      assert front[..from] == events[..from];
      match events[|events| - 1]
      case Cleared(_) =>
        StaysBlocked(c, front, from, key, oldest, clock);
      case Tried(other, now) =>
        StaysBlocked(c, front, from, key, oldest, now);
        OthersLeaveBlocked(c, HitsAfter(c, front), key, other, oldest, now);
    }
  }

  // A refused source that makes no attempt in between is accepted exactly when it waits longer
  // than it was told to - waiting exactly that long is refused again.
  lemma {:induction false} AcceptedIffWaitedLonger(c: Config, before: seq<Event>, key: string, refusedAt: real,
                                                   between: seq<Event>, retryAt: real)
    requires c.Valid()
    requires var refused := before + [Tried(key, refusedAt)];
             && ClockRises(refused + between, retryAt) && NeverCleared(before, key)
             && Untouched(refused + between, |refused|, key)
    requires Attempt(c, HitsAfter(c, before), key, refusedAt).wait.Some?
    ensures var refused := before + [Tried(key, refusedAt)];
            Attempt(c, HitsAfter(c, refused + between), key, retryAt).wait.None?
            <==> retryAt > refusedAt + Attempt(c, HitsAfter(c, before), key, refusedAt).wait.value
  {
    var refused := before + [Tried(key, refusedAt)];
    var events := refused + between;
    ClockPrefix(refused, between, retryAt);
    assert refused[..|refused| - 1] == before;
    SlidingWindowGuarantee(c, before, key, refusedAt);
    var oldest := RefusedState(c, HitsAfter(c, before), key, AcceptedTimes(c, before, key), refusedAt);
    assert events[..|refused|] == refused;
    forall t | ClockRises(refused, t)
      ensures Blocked(c, Bucket(HitsAfter(c, refused), key), oldest, t)
    {
    }
    StaysBlocked(c, events, |refused|, key, oldest, retryAt);
    BlockedUntil(c, HitsAfter(c, events), key, oldest, retryAt);
  }

  lemma {:induction false} RefusedState(c: Config, hits: Hits, key: string, accepted: seq<real>, now: real)
    returns (oldest: real)
    requires c.Valid() && Remembers(c, Bucket(hits, key), accepted, now) && Attempt(c, hits, key, now).wait.Some?
    ensures var bucket := Bucket(Attempt(c, hits, key, now).hits, key);
            bucket != [] && |bucket| == c.limit && bucket[0] == oldest && Ascending(bucket)
    ensures Attempt(c, hits, key, now).wait == Some(oldest + c.window - now)
  {
    var kept := if |hits| > c.maxKeys then Evicted(hits, now, c.window) else hits;
    var bucket := DropExpired(Bucket(kept, key), now, c.window);
    TrimmedRemembers(c, hits, key, accepted, now, kept, bucket);
    AttemptOn(c, hits, key, now, kept, bucket);
    oldest := RefusingBucket(c, kept, key, bucket, accepted, now);
  }

  lemma {:induction false} TrimmedRemembers(c: Config, hits: Hits, key: string, accepted: seq<real>, now: real,
                                            kept: Hits, bucket: seq<real>)
    requires Remembers(c, Bucket(hits, key), accepted, now)
    requires kept == if |hits| > c.maxKeys then Evicted(hits, now, c.window) else hits
    requires bucket == DropExpired(Bucket(kept, key), now, c.window)
    ensures Remembers(c, bucket, accepted, now) && (bucket != [] ==> now - bucket[0] <= c.window)
  {
    EvictionKeepsMemory(c, hits, key, accepted, now);
    DroppingKeepsMemory(c, Bucket(kept, key), accepted, now);
    FrontNotExpired(Bucket(kept, key), now, c.window);
  }

  lemma {:induction false} AttemptOn(c: Config, hits: Hits, key: string, now: real, kept: Hits, bucket: seq<real>)
    requires c.Valid() && kept == if |hits| > c.maxKeys then Evicted(hits, now, c.window) else hits
    requires bucket == DropExpired(Bucket(kept, key), now, c.window)
    ensures Attempt(c, hits, key, now).wait.Some? <==> |bucket| >= c.limit
    ensures Attempt(c, hits, key, now).wait.Some? ==>
              Attempt(c, hits, key, now) == Outcome(kept[key := bucket],
                Some(if c.window - (now - bucket[0]) > 0.0 then c.window - (now - bucket[0]) else 0.0))
  {
  }

  lemma {:induction false} RefusingBucket(c: Config, kept: Hits, key: string, bucket: seq<real>, accepted: seq<real>,
                                          now: real)
    returns (oldest: real)
    requires c.Valid() && Remembers(c, bucket, accepted, now) && |bucket| >= c.limit
    requires now - bucket[0] <= c.window
    ensures Bucket(kept[key := bucket], key) == bucket
    ensures bucket != [] && |bucket| == c.limit && bucket[0] == oldest && Ascending(bucket)
    ensures (if c.window - (now - bucket[0]) > 0.0 then c.window - (now - bucket[0]) else 0.0)
            == oldest + c.window - now
  {
    oldest := bucket[0];
  }

  lemma {:induction false} FrontNotExpired(bucket: seq<real>, now: real, window: real)
    ensures var rest := DropExpired(bucket, now, window); rest != [] ==> now - rest[0] <= window
    decreases |bucket|
  {
    if bucket != [] && now - bucket[0] > window {
      FrontNotExpired(bucket[1..], now, window);
    }
  }

  lemma {:induction false} ClockPrefix(a: seq<Event>, b: seq<Event>, last: real)
    requires ClockRises(a + b, last)
    ensures ClockRises(a, last)
    decreases |b|
  {
    if b == [] {
      assert a + b == a;
    } else {
      var front := b[..|b| - 1];
      assert (a + b)[..|a + b| - 1] == a + front;
      var e := b[|b| - 1];
      if e.Tried? {
        ClockPrefix(a, front, e.now);
        LaterReading(a, e.now, last);
      } else {
        ClockPrefix(a, front, last);
      }
    }
  }

  lemma {:induction false} LaterReading(a: seq<Event>, t: real, last: real)
    requires ClockRises(a, t) && t <= last
    ensures ClockRises(a, last)
    decreases |a|
  {
    if a != [] && a[|a| - 1].Cleared? {
      LaterReading(a[..|a| - 1], t, last);
    }
  }

  // One attempt a second: refused at 0.5 and told to wait 0.5, a source that comes back at 1.0 is
  // refused again.
  lemma {:induction false} WaitingExactlyIsRefused(key: string)
    ensures var c := Config(1, 1.0, 10);
            var events := [Tried(key, 0.0), Tried(key, 0.5)];
            && Attempt(c, HitsAfter(c, events[..1]), key, 0.5).wait == Some(0.5)
            && Attempt(c, HitsAfter(c, events), key, 1.0).wait.Some?
  {
    var c := Config(1, 1.0, 10);
    var events := [Tried(key, 0.0), Tried(key, 0.5)];
    var none: Hits, hits: Hits := map[], map[key := [0.0]];
    assert events[..1] == [Tried(key, 0.0)] && events[..1][..0] == [] && HitsAfter(c, []) == none;
    AttemptOn(c, none, key, 0.0, none, []);
    var times: seq<real> := [];
    assert times + [0.0] == [0.0];
    assert Attempt(c, none, key, 0.0).hits == none[key := times + [0.0]] == hits;
    assert HitsAfter(c, events[..1]) == hits;
    assert |hits| == 1 && DropExpired([0.0], 0.5, 1.0) == DropExpired([0.0], 1.0, 1.0) == [0.0];
    assert Attempt(c, hits, key, 0.5) == Outcome(hits[key := [0.0]], Some(0.5));
    assert HitsAfter(c, events) == hits[key := [0.0]] == hits;
  }

  // Eviction forgets exactly the sources that have been quiet for longer than the window.
  lemma {:induction false} EvictionForgetsTheQuiet(hits: Hits, now: real, window: real, key: string)
    requires key in hits
    ensures key in Evicted(hits, now, window)
            <==> hits[key] != [] && now - hits[key][|hits[key]| - 1] <= window
    ensures key in Evicted(hits, now, window) ==> Evicted(hits, now, window)[key] == hits[key]
  {
  }

  // Over any run: an attempt is accepted exactly when the source has made fewer accepted attempts
  // than the limit, or the one `limit` places back lies more than a window back.
  lemma {:induction false} AcceptedIffRoom(c: Config, events: seq<Event>, key: string, now: real)
    requires c.Valid() && ClockRises(events, now) && NeverCleared(events, key)
    ensures var accepted := AcceptedTimes(c, events, key);
            Attempt(c, HitsAfter(c, events), key, now).wait.None?
            <==> |accepted| < c.limit || now - accepted[|accepted| - c.limit] > c.window
  {
    SlidingWindowGuarantee(c, events, key, now);
    AttemptIffRoom(c, HitsAfter(c, events), key, AcceptedTimes(c, events, key), now);
  }

  lemma {:induction false} AttemptIffRoom(c: Config, hits: Hits, key: string, accepted: seq<real>, now: real)
    requires c.Valid() && Remembers(c, Bucket(hits, key), accepted, now)
    ensures Attempt(c, hits, key, now).wait.None?
            <==> |accepted| < c.limit || now - accepted[|accepted| - c.limit] > c.window
  {
    var kept := if |hits| > c.maxKeys then Evicted(hits, now, c.window) else hits;
    var bucket := DropExpired(Bucket(kept, key), now, c.window);
    TrimmedRemembers(c, hits, key, accepted, now, kept, bucket);
    AttemptOn(c, hits, key, now, kept, bucket);
    RoomInBucket(c, bucket, accepted, now);
  }

  lemma {:induction false} RoomInBucket(c: Config, bucket: seq<real>, accepted: seq<real>, now: real)
    requires c.Valid() && Remembers(c, bucket, accepted, now) && (bucket != [] ==> now - bucket[0] <= c.window)
    ensures |bucket| < c.limit <==> |accepted| < c.limit || now - accepted[|accepted| - c.limit] > c.window
  {
    if |bucket| < c.limit <= |accepted| {
      assert now - accepted[|accepted| - c.limit] > c.window;
    }
  }
}
