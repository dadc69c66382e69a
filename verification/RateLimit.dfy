/** The sliding-window limiter (crates/patchhive-product-core/src/rate_limit.rs). */
module RateLimit {
  import opened Wrappers

  /** Monotonic time in nanoseconds. */
  type Instant = nat

  const NANOS := 1_000_000_000
  const DEFAULT_WINDOW_SECS := 60

  datatype Config = Config(windowSecs: nat, standardMax: nat, sensitiveMax: nat) {
    function Window(): nat { windowSecs * NANOS }

    function MaxFor(sensitive: bool): nat {
      if sensitive then sensitiveMax else standardMax
    }
  }

  type Buckets = map<string, seq<Instant>>

  /** `Instant::duration_since`, which saturates at zero. */
  function Age(now: Instant, seen: Instant): nat {
    if now >= seen then now - seen else 0
  }

  function Pruned(bucket: seq<Instant>, now: Instant, window: nat): seq<Instant> {
    if bucket != [] && Age(now, bucket[0]) >= window then Pruned(bucket[1..], now, window) else bucket
  }

  function Swept(buckets: Buckets, now: Instant, window: nat): Buckets {
    map key | key in buckets && Pruned(buckets[key], now, window) != [] :: Pruned(buckets[key], now, window)
  }

  /** The sweep runs when the number of buckets is a positive multiple of one hundred. */
  predicate SweepDue(size: nat) {
    size >= 100 && size % 100 == 0
  }

  function Bucket(buckets: Buckets, key: string): seq<Instant> {
    if key in buckets then buckets[key] else []
  }

  /** The seconds advertised to a refused caller. */
  function RetryAfter(bucket: seq<Instant>, now: Instant, window: nat): nat {
    if bucket == [] then DEFAULT_WINDOW_SECS
    else
      var left := if window >= Age(now, bucket[0]) then window - Age(now, bucket[0]) else 0;
      if left / NANOS >= 1 then left / NANOS else 1
  }

  datatype Step = Step(buckets: Buckets, outcome: Result<(), nat>)

  /** One call, for any rule `due` about when to sweep. */
  function Checked(
    config: Config, due: nat -> bool, buckets: Buckets, key: string, sensitive: bool, now: Instant): Step {
    var window := config.Window();
    var swept := if due(|buckets|) then Swept(buckets, now, window) else buckets;
    var bucket := Pruned(Bucket(swept, key), now, window);
    if |bucket| >= config.MaxFor(sensitive) then Step(swept[key := bucket], Err(RetryAfter(bucket, now, window)))
    else Step(swept[key := bucket + [now]], Ok(()))
  }

  class RateLimiter {
    const config: Config
    var buckets: Buckets
    var poisoned: bool

    constructor (config: Config)
      ensures this.config == config && buckets == map[] && !poisoned
    {
      this.config := config;
      buckets, poisoned := map[], false;
    }

    method PopExpired(bucket: seq<Instant>, now: Instant) returns (rest: seq<Instant>)
      ensures rest == Pruned(bucket, now, config.Window())
    {
      rest := bucket;
      while rest != [] && Age(now, rest[0]) >= config.Window()
        invariant Pruned(rest, now, config.Window()) == Pruned(bucket, now, config.Window())
        decreases |rest|
      {
        rest := rest[1..];
      }
    }

    /** `HashMap::retain`: prunes every bucket and drops the empty ones. */
    method Sweep(now: Instant)
      modifies this`buckets
      ensures buckets == Swept(old(buckets), now, config.Window())
    {
      ghost var done := Swept(buckets, now, config.Window());
      var pending := buckets.Keys;
      while pending != {}
        invariant pending <= old(buckets).Keys
        invariant forall key :: key in pending ==> key in buckets && buckets[key] == old(buckets)[key]
        invariant forall key :: key in buckets && key !in pending ==> key in done && buckets[key] == done[key]
        invariant forall key :: key in done ==> key in buckets
        decreases pending
      {
        var key :| key in pending;
        var rest := PopExpired(buckets[key], now);
        buckets := if rest == [] then buckets - {key} else buckets[key := rest];
        pending := pending - {key};
      }
    }

    /** `Ok` admits the call; `Err` carries the advertised wait in seconds. */
    method Check(key: string, sensitive: bool, now: Instant) returns (r: Result<(), nat>)
      modifies this`buckets
      ensures poisoned ==> buckets == old(buckets) && r == Err(if config.windowSecs >= 1 then config.windowSecs else 1)
      ensures !poisoned ==> Step(buckets, r) == Checked(config, SweepDue, old(buckets), key, sensitive, now)
    {
      hide Pruned, Swept, RetryAfter, Age, Config.Window, Config.MaxFor;
      var limit := config.MaxFor(sensitive);
      if poisoned {
        return Err(if config.windowSecs >= 1 then config.windowSecs else 1);
      }
      if |buckets| >= 100 && |buckets| % 100 == 0 {
        Sweep(now);
      }
      ghost var swept := buckets;
      var bucket := PopExpired(Bucket(buckets, key), now);
      buckets := buckets[key := bucket];
      if |bucket| >= limit {
        return Err(RetryAfter(bucket, now, config.Window()));
      }
      buckets := buckets[key := bucket + [now]];
      assert swept[key := bucket][key := bucket + [now]] == swept[key := bucket + [now]];
      return Ok(());
    }
  }

  // ---------------------------------------------------------------------------------------
  // Requests as the middleware makes them.

  datatype Request = Request(identity: string, sensitive: bool, at: Instant) {
    function Key(): string {
      identity + ":" + if sensitive then "sensitive" else "standard"
    }
  }

  /** Two requests that share a bucket share a limit. */
  lemma SameKeySameLimit(a: Request, b: Request)
    requires a.Key() == b.Key()
    ensures a.sensitive == b.sensitive
  {
    assert a.Key()[|a.Key()| - 1] == if a.sensitive then 'e' else 'd';
    assert b.Key()[|b.Key()| - 1] == if b.sensitive then 'e' else 'd';
  }

  ghost predicate Chronological(requests: seq<Request>) {
    forall i, j :: 0 <= i < j < |requests| ==> requests[i].at <= requests[j].at
  }

  // ---------------------------------------------------------------------------------------
  // The specification: the full log of admitted requests, never pruned.

  /** The times of the admitted requests on `key` that are still within the window at `now`, oldest first. */
  function Recent(log: seq<Request>, key: string, now: Instant, window: nat): seq<Instant> {
    if log == [] then []
    else
      var last := log[|log| - 1];
      Recent(log[..|log| - 1], key, now, window)
      + if last.Key() == key && Age(now, last.at) < window then [last.at] else []
  }

  predicate Admits(config: Config, log: seq<Request>, request: Request) {
    |Recent(log, request.Key(), request.at, config.Window())| < config.MaxFor(request.sensitive)
  }

  /** The admitted requests. */
  function Log(config: Config, requests: seq<Request>): seq<Request> {
    if requests == [] then []
    else
      var init, last := requests[..|requests| - 1], requests[|requests| - 1];
      if Admits(config, Log(config, init), last) then Log(config, init) + [last] else Log(config, init)
  }

  /** What the log says to the last request. */
  function Expected(config: Config, requests: seq<Request>): Result<(), nat>
    requires requests != []
  {
    var last := requests[|requests| - 1];
    var log := Log(config, requests[..|requests| - 1]);
    if Admits(config, log, last) then Ok(())
    else Err(RetryAfter(Recent(log, last.Key(), last.at, config.Window()), last.at, config.Window()))
  }

  // ---------------------------------------------------------------------------------------
  // Refinement.

  function Run(config: Config, due: nat -> bool, requests: seq<Request>): Buckets {
    if requests == [] then map[]
    else
      var last := requests[|requests| - 1];
      Checked(config, due, Run(config, due, requests[..|requests| - 1]), last.Key(), last.sensitive, last.at).buckets
  }

  /** What the limiter says to the last request. */
  function Answer(config: Config, due: nat -> bool, requests: seq<Request>): Result<(), nat>
    requires requests != []
  {
    var last := requests[|requests| - 1];
    Checked(config, due, Run(config, due, requests[..|requests| - 1]), last.Key(), last.sensitive, last.at).outcome
  }

  /** From `now` on, every bucket prunes to what the log holds of its key. */
  ghost predicate Represents(buckets: Buckets, log: seq<Request>, now: Instant, window: nat) {
    && (forall key, i :: key in buckets && 0 <= i < |buckets[key]| ==> buckets[key][i] <= now)
    && forall key, later :: later >= now ==>
      Pruned(Bucket(buckets, key), later, window) == Recent(log, key, later, window)
  }

  lemma {:induction false} PruneTwice(bucket: seq<Instant>, now: Instant, later: Instant, window: nat)
    requires now <= later
    ensures Pruned(Pruned(bucket, now, window), later, window) == Pruned(bucket, later, window)
  {
    if bucket == [] {
    } else if Age(now, bucket[0]) >= window {
      PruneTwice(bucket[1..], now, later, window);
    }
  }

  lemma {:induction false} PruneIsSuffix(bucket: seq<Instant>, now: Instant, window: nat)
    ensures forall t :: t in Pruned(bucket, now, window) ==> t in bucket
  {
    if bucket == [] {
    } else if Age(now, bucket[0]) >= window {
      PruneIsSuffix(bucket[1..], now, window);
    }
  }

  /** A new entry at least as late as the others outlives them. */
  lemma {:induction false} PruneAppend(bucket: seq<Instant>, t: Instant, later: Instant, window: nat)
    requires forall i :: 0 <= i < |bucket| ==> bucket[i] <= t
    requires t <= later
    ensures Pruned(bucket + [t], later, window)
      == Pruned(bucket, later, window) + if Age(later, t) < window then [t] else []
  {
    if bucket == [] {
      assert bucket + [t] == [t];
    } else {
      assert (bucket + [t])[1..] == bucket[1..] + [t];
      if Age(later, bucket[0]) >= window {
        PruneAppend(bucket[1..], t, later, window);
      }
    }
  }

  lemma SweptBucket(buckets: Buckets, key: string, now: Instant, window: nat)
    ensures Bucket(Swept(buckets, now, window), key) == Pruned(Bucket(buckets, key), now, window)
  {}

  lemma SweepRepresents(buckets: Buckets, log: seq<Request>, now: Instant, window: nat)
    requires Represents(buckets, log, now, window)
    ensures Represents(Swept(buckets, now, window), log, now, window)
  {
    var swept := Swept(buckets, now, window);
    forall key, i | key in swept && 0 <= i < |swept[key]|
      ensures swept[key][i] <= now
    {
      PruneIsSuffix(buckets[key], now, window);
      assert swept[key][i] in buckets[key];
    }
    forall key, later | later >= now
      ensures Pruned(Bucket(swept, key), later, window) == Recent(log, key, later, window)
    {
      SweptBucket(buckets, key, now, window);
      PruneTwice(Bucket(buckets, key), now, later, window);
    }
  }

  lemma RepresentsLater(buckets: Buckets, log: seq<Request>, now: Instant, later: Instant, window: nat)
    requires Represents(buckets, log, now, window) && now <= later
    ensures Represents(buckets, log, later, window)
  {}

  /** Writing back a pruned bucket changes nothing that can be observed. */
  lemma PruneRepresents(buckets: Buckets, log: seq<Request>, key: string, now: Instant, window: nat)
    requires Represents(buckets, log, now, window)
    ensures Represents(buckets[key := Pruned(Bucket(buckets, key), now, window)], log, now, window)
  {
    var bucket := Pruned(Bucket(buckets, key), now, window);
    PruneIsSuffix(Bucket(buckets, key), now, window);
    assert forall i :: 0 <= i < |bucket| ==> bucket[i] in bucket;
    forall later | later >= now {
      PruneTwice(Bucket(buckets, key), now, later, window);
    }
  }

  /** Pushing the time of an admitted request keeps up with the log. */
  lemma PushRepresents(buckets: Buckets, log: seq<Request>, request: Request, window: nat)
    requires Represents(buckets, log, request.at, window)
    ensures Represents(
              buckets[request.Key() := Bucket(buckets, request.Key()) + [request.at]],
              log + [request], request.at, window)
  {
    hide Pruned;
    var bucket := Bucket(buckets, request.Key());
    assert (log + [request])[..|log|] == log;
    var after := buckets[request.Key() := bucket + [request.at]];
    forall key, later | later >= request.at
      ensures Pruned(Bucket(after, key), later, window) == Recent(log + [request], key, later, window)
    {
      if key == request.Key() {
        PruneAppend(bucket, request.at, later, window);
      }
    }
  }

  lemma {:induction false} RunRepresents(config: Config, due: nat -> bool, requests: seq<Request>, now: Instant)
    requires Chronological(requests)
    requires requests != [] ==> requests[|requests| - 1].at <= now
    ensures Represents(Run(config, due, requests), Log(config, requests), now, config.Window())
    decreases |requests|
  {
    if requests == [] {
    } else {
      var init, last := requests[..|requests| - 1], requests[|requests| - 1];
      var window := config.Window();
      var buckets, log := Run(config, due, init), Log(config, init);
      RunRepresents(config, due, init, last.at);
      SweepRepresents(buckets, log, last.at, window);
      var swept := if due(|buckets|) then Swept(buckets, last.at, window) else buckets;
      var bucket := Pruned(Bucket(swept, last.Key()), last.at, window);
      PruneRepresents(swept, log, last.Key(), last.at, window);
      if Admits(config, log, last) {
        PushRepresents(swept[last.Key() := bucket], log, last, window);
        assert swept[last.Key() := bucket][last.Key() := bucket + [last.at]] == swept[last.Key() := bucket + [last.at]];
      }
      RepresentsLater(Run(config, due, requests), Log(config, requests), last.at, now, window);
    }
  }

  /**
    For calls in time order, whatever the rule for sweeping, every answer of the limiter (advertised
    wait included) is the one the full log of admitted requests gives.
   */
  lemma LimiterRefinesLog(config: Config, due: nat -> bool, requests: seq<Request>)
    requires requests != [] && Chronological(requests)
    ensures Answer(config, due, requests) == Expected(config, requests)
  {
    var init, last := requests[..|requests| - 1], requests[|requests| - 1];
    var window := config.Window();
    var buckets, log := Run(config, due, init), Log(config, init);
    RunRepresents(config, due, init, last.at);
    SweepRepresents(buckets, log, last.at, window);
  }

  // ---------------------------------------------------------------------------------------
  // The guarantee.

  /** How many admitted requests on `key` fall in the half-open interval of one window from `start`. */
  function CountFrom(log: seq<Request>, key: string, start: Instant, window: nat): nat {
    if log == [] then 0
    else
      var last := log[|log| - 1];
      CountFrom(log[..|log| - 1], key, start, window)
      + if last.Key() == key && start <= last.at < start + window then 1 else 0
  }

  ghost predicate NoLaterThan(log: seq<Request>, now: Instant) {
    forall i :: 0 <= i < |log| ==> log[i].at <= now
  }

  lemma {:induction false} LogNoLater(config: Config, requests: seq<Request>, now: Instant)
    requires forall i :: 0 <= i < |requests| ==> requests[i].at <= now
    ensures NoLaterThan(Log(config, requests), now)
  {
    if requests == [] {
    } else {
      LogNoLater(config, requests[..|requests| - 1], now);
    }
  }

  /** What an interval still open at `now` holds is recent at `now`. */
  lemma {:induction false} CountIsRecent(log: seq<Request>, key: string, start: Instant, now: Instant, window: nat)
    requires NoLaterThan(log, now) && now < start + window
    ensures CountFrom(log, key, start, window) <= |Recent(log, key, now, window)|
  {
    if log == [] {
    } else {
      CountIsRecent(log[..|log| - 1], key, start, now, window);
    }
  }

  /** Every half-open interval one window long holds at most the limit of admitted requests of a caller. */
  lemma {:induction false} WindowHoldsLimit(config: Config, requests: seq<Request>, caller: Request, start: Instant)
    requires Chronological(requests)
    ensures CountFrom(Log(config, requests), caller.Key(), start, config.Window()) <= config.MaxFor(caller.sensitive)
  {
    if requests == [] {
    } else {
      var init, last := requests[..|requests| - 1], requests[|requests| - 1];
      var log, window := Log(config, init), config.Window();
      WindowHoldsLimit(config, init, caller, start);
      if Admits(config, log, last) && last.Key() == caller.Key() && start <= last.at < start + window {
        SameKeySameLimit(last, caller);
        LogNoLater(config, init, last.at);
        CountIsRecent(log, caller.Key(), start, last.at, window);
        assert (log + [last])[..|log|] == log;
      } else if Admits(config, log, last) {
        assert (log + [last])[..|log|] == log;
      }
    }
  }

  // ---------------------------------------------------------------------------------------
  // The advertised wait.

  /** Nanoseconds until the oldest recent request leaves the window. */
  function TrueWait(recent: seq<Instant>, now: Instant, window: nat): nat
    requires recent != [] && Age(now, recent[0]) < window
  {
    window - Age(now, recent[0])
  }

  ghost predicate Ordered(times: seq<Instant>, now: Instant) {
    (forall i, j :: 0 <= i < j < |times| ==> times[i] <= times[j])
    && forall i :: 0 <= i < |times| ==> times[i] <= now
  }

  lemma RecentLast(log: seq<Request>, key: string, now: Instant, window: nat)
    requires log != []
    ensures var last := log[|log| - 1];
      Recent(log, key, now, window)
        == Recent(log[..|log| - 1], key, now, window)
           + if last.Key() == key && Age(now, last.at) < window then [last.at] else []
  {}

  /** What is recent was admitted no later than the last request, and lies within the window. */
  lemma {:induction false} RecentMembers(log: seq<Request>, key: string, now: Instant, window: nat, t: Instant)
    requires Chronological(log) && NoLaterThan(log, now) && t in Recent(log, key, now, window)
    ensures log != [] && t <= log[|log| - 1].at && t <= now && Age(now, t) < window
  {
    hide Request.Key, Age;
    if log == [] {
    } else {
      var init := log[..|log| - 1];
      if t in Recent(init, key, now, window) {
        RecentMembers(init, key, now, window, t);
      }
    }
  }

  lemma OrderedAppend(times: seq<Instant>, t: Instant, now: Instant)
    requires Ordered(times, now) && t <= now && forall x :: x in times ==> x <= t
    ensures Ordered(times + [t], now)
  {
    assert forall i :: 0 <= i < |times| ==> times[i] in times;
  }

  lemma {:induction false} RecentOrdered(log: seq<Request>, key: string, now: Instant, window: nat)
    requires Chronological(log) && NoLaterThan(log, now)
    ensures Ordered(Recent(log, key, now, window), now)
    ensures log != [] ==> forall t :: t in Recent(log, key, now, window) ==> t <= log[|log| - 1].at
    ensures forall t :: t in Recent(log, key, now, window) ==> Age(now, t) < window
  {
    forall t | t in Recent(log, key, now, window)
      ensures log != [] && t <= log[|log| - 1].at && Age(now, t) < window
    {
      RecentMembers(log, key, now, window, t);
    }
    if log == [] {
    } else {
      var init, last := log[..|log| - 1], log[|log| - 1];
      RecentOrdered(init, key, now, window);
      RecentLast(log, key, now, window);
      var r := Recent(init, key, now, window);
      forall t | t in r
        ensures t <= last.at
      {
        RecentMembers(init, key, now, window, t);
      }
      hide Recent, Age, Ordered, Request.Key;
      OrderedAppend(r, last.at, now);
      assert r + [] == r;
    }
  }

  lemma {:induction false} LogChronological(config: Config, requests: seq<Request>)
    requires Chronological(requests)
    ensures Chronological(Log(config, requests))
  {
    if requests == [] {
    } else {
      var init, last := requests[..|requests| - 1], requests[|requests| - 1];
      LogChronological(config, init);
      LogNoLater(config, init, last.at);
    }
  }

  lemma RecentBeforeLast(log: seq<Request>, key: string, now: Instant, window: nat)
    requires Chronological(log) && NoLaterThan(log, now) && log != []
    ensures var before := Recent(log[..|log| - 1], key, now, window);
      forall i :: 0 <= i < |before| ==> before[i] <= log[|log| - 1].at
  {
    RecentOrdered(log[..|log| - 1], key, now, window);
    var before := Recent(log[..|log| - 1], key, now, window);
    assert forall i :: 0 <= i < |before| ==> before[i] in before;
  }

  /** As time passes, requests only leave the window, oldest first. */
  lemma {:induction false} RecentLater(log: seq<Request>, key: string, now: Instant, later: Instant, window: nat)
    requires Chronological(log) && NoLaterThan(log, now) && now <= later
    ensures var recent := Recent(log, key, now, window);
      recent != [] ==>
        if Age(later, recent[0]) < window then Recent(log, key, later, window) == recent
        else |Recent(log, key, later, window)| < |recent|
    ensures |Recent(log, key, later, window)| <= |Recent(log, key, now, window)|
  {
    if log == [] {
    } else {
      var init, last := log[..|log| - 1], log[|log| - 1];
      RecentLater(init, key, now, later, window);
      RecentOrdered(init, key, now, window);
      hide Chronological, NoLaterThan, Recent;
      RecentLast(log, key, now, window);
      RecentLast(log, key, later, window);
      var before := Recent(init, key, now, window);
      if before != [] {
        assert before[0] <= last.at by { RecentBeforeLast(log, key, now, window); }
      }
    }
  }

  /** Requests on other keys are not recent on this one. */
  lemma {:induction false} RecentOfOthers(
    config: Config, requests: seq<Request>, others: seq<Request>, key: string, now: Instant, window: nat)
    requires forall i :: 0 <= i < |others| ==> others[i].Key() != key
    ensures Recent(Log(config, requests + others), key, now, window) == Recent(Log(config, requests), key, now, window)
  {
    if others == [] {
      assert requests + others == requests;
    } else {
      var init, last := others[..|others| - 1], others[|others| - 1];
      assert (requests + others)[..|requests + others| - 1] == requests + init;
      RecentOfOthers(config, requests, init, key, now, window);
      var log := Log(config, requests + init);
      assert (log + [last])[..|log|] == log;
    }
  }

  lemma AdmittedWithinLimit(config: Config, log: seq<Request>, last: Request, caller: Request, now: Instant)
    requires Admits(config, log, last)
    requires var window := config.Window();
      && |Recent(log, caller.Key(), now, window)| <= |Recent(log, caller.Key(), last.at, window)|
      && |Recent(log, caller.Key(), last.at, window)| <= config.MaxFor(caller.sensitive)
    ensures |Recent(log + [last], caller.Key(), now, config.Window())| <= config.MaxFor(caller.sensitive)
  {
    RecentLast(log + [last], caller.Key(), now, config.Window());
    hide Recent;
    assert (log + [last])[..|log|] == log;
    if last.Key() == caller.Key() {
      SameKeySameLimit(last, caller);
    }
  }

  /** A caller never has more than its limit of recent requests. */
  lemma {:induction false} RecentWithinLimit(config: Config, requests: seq<Request>, caller: Request, now: Instant)
    requires Chronological(requests)
    requires requests != [] ==> requests[|requests| - 1].at <= now
    ensures |Recent(Log(config, requests), caller.Key(), now, config.Window())| <= config.MaxFor(caller.sensitive)
  {
    if requests == [] {
    } else {
      var init, last := requests[..|requests| - 1], requests[|requests| - 1];
      var log, window := Log(config, init), config.Window();
      RecentWithinLimit(config, init, caller, last.at);
      LogChronological(config, init);
      LogNoLater(config, init, last.at);
      RecentLater(log, caller.Key(), last.at, now, window);
      if Admits(config, log, last) {
        AdmittedWithinLimit(config, log, last, caller, now);
      }
    }
  }

  ghost predicate ChronologicalParts(requests: seq<Request>, refused: Request, others: seq<Request>, retry: Request) {
    && Chronological(requests)
    && (requests != [] ==> requests[|requests| - 1].at <= refused.at)
    && (forall i :: 0 <= i < |requests| ==> requests[i].at <= refused.at)
    && refused.at <= retry.at
  }

  lemma PartsInOrder(requests: seq<Request>, refused: Request, others: seq<Request>, retry: Request)
    requires Chronological(requests + [refused] + others + [retry])
    ensures ChronologicalParts(requests, refused, others, retry)
  {
    var all := requests + [refused] + others + [retry];
    assert refused == all[|requests|] && retry == all[|all| - 1];
    assert forall i :: 0 <= i < |requests| ==> requests[i] == all[i];
  }

  lemma ExpectedOfLast(config: Config, requests: seq<Request>, last: Request)
    ensures Expected(config, requests + [last]) ==
      if Admits(config, Log(config, requests), last) then Ok(())
      else
        var recent := Recent(Log(config, requests), last.Key(), last.at, config.Window());
        Err(RetryAfter(recent, last.at, config.Window()))
    ensures !Admits(config, Log(config, requests), last) ==> Log(config, requests + [last]) == Log(config, requests)
  {
    assert (requests + [last])[..|requests|] == requests;
  }

  /** What a refused caller had in the window, and how much of it is left later. */
  lemma RefusedStayRecent(config: Config, requests: seq<Request>, refused: Request, later: Instant)
    requires Chronological(requests) && refused.at <= later
    requires forall i :: 0 <= i < |requests| ==> requests[i].at <= refused.at
    ensures var window, key, log := config.Window(), refused.Key(), Log(config, requests);
      var recent := Recent(log, key, refused.at, window);
      && Ordered(recent, refused.at)
      && (forall t :: t in recent ==> Age(refused.at, t) < window)
      && (recent != [] ==>
            if Age(later, recent[0]) < window then Recent(log, key, later, window) == recent
            else |Recent(log, key, later, window)| < |recent|)
  {
    LogChronological(config, requests);
    LogNoLater(config, requests, refused.at);
    RecentOrdered(Log(config, requests), refused.Key(), refused.at, config.Window());
    RecentLater(Log(config, requests), refused.Key(), refused.at, later, config.Window());
  }

  /**
    After a refusal, with any calls on other keys in between, the same caller is admitted exactly
    from the moment its oldest recent request leaves the window.
   */
  lemma RetryAdmittedExactlyWhen(
    config: Config, requests: seq<Request>, refused: Request, others: seq<Request>, retry: Request)
    requires Chronological(requests + [refused] + others + [retry])
    requires retry.Key() == refused.Key() && config.MaxFor(refused.sensitive) > 0
    requires forall i :: 0 <= i < |others| ==> others[i].Key() != refused.Key()
    requires Expected(config, requests + [refused]).Err?
    ensures var recent := Recent(Log(config, requests), refused.Key(), refused.at, config.Window());
      && recent != [] && Age(refused.at, recent[0]) < config.Window()
      && (Expected(config, requests + [refused] + others + [retry]).Ok?
          <==> retry.at >= refused.at + TrueWait(recent, refused.at, config.Window()))
  {
    var key, window := refused.Key(), config.Window();
    var before := requests + [refused] + others;
    assert ChronologicalParts(requests, refused, others, retry) by {
      PartsInOrder(requests, refused, others, retry);
    }
    SameKeySameLimit(retry, refused);
    ExpectedOfLast(config, requests, refused);
    ExpectedOfLast(config, before, retry);
    RecentOfOthers(config, requests + [refused], others, key, retry.at, window);
    hide Chronological, Recent, Log, Expected;
    var log := Log(config, requests);
    var recent := Recent(log, key, refused.at, window);
    RecentWithinLimit(config, requests, refused, refused.at);
    RefusedStayRecent(config, requests, refused, retry.at);
    assert recent[0] in recent;
  }

  /**
    The advertised seconds are less than one second away from the true wait, so waiting one second
    more than advertised is always enough; waiting exactly as long is enough only when the true wait
    is a whole number of seconds or below one.
   */
  lemma AdvertisedWait(recent: seq<Instant>, now: Instant, window: nat)
    requires recent != [] && Age(now, recent[0]) < window
    ensures var wait, advertised := TrueWait(recent, now, window), RetryAfter(recent, now, window);
      && advertised >= 1
      && (advertised - 1) * NANOS < wait < (advertised + 1) * NANOS
      && (wait <= advertised * NANOS <==> (wait % NANOS == 0 || wait < NANOS))
  {
    var wait := TrueWait(recent, now, window);
    assert wait == wait / NANOS * NANOS + wait % NANOS;
  }

  /** A caller that waits one second longer than it was told is admitted. */
  lemma RetryAfterOneMoreSecond(
    config: Config, requests: seq<Request>, refused: Request, others: seq<Request>, retry: Request)
    requires Chronological(requests + [refused] + others + [retry])
    requires retry.Key() == refused.Key() && config.MaxFor(refused.sensitive) > 0
    requires forall i :: 0 <= i < |others| ==> others[i].Key() != refused.Key()
    requires Expected(config, requests + [refused]).Err?
    requires retry.at >= refused.at + (Expected(config, requests + [refused]).error + 1) * NANOS
    ensures Expected(config, requests + [refused] + others + [retry]).Ok?
  {
    RetryAdmittedExactlyWhen(config, requests, refused, others, retry);
    ExpectedOfLast(config, requests, refused);
    hide Expected, Log, Recent, Chronological;
    var recent := Recent(Log(config, requests), refused.Key(), refused.at, config.Window());
    AdvertisedWait(recent, refused.at, config.Window());
  }

  /**
    A caller that waits exactly as long as it was told is admitted exactly when its true wait was a whole
    number of seconds, or below one.
   */
  lemma RetryAfterAsAdvertised(
    config: Config, requests: seq<Request>, refused: Request, others: seq<Request>, retry: Request)
    requires Chronological(requests + [refused] + others + [retry])
    requires retry.Key() == refused.Key() && config.MaxFor(refused.sensitive) > 0
    requires forall i :: 0 <= i < |others| ==> others[i].Key() != refused.Key()
    requires Expected(config, requests + [refused]).Err?
    requires retry.at == refused.at + Expected(config, requests + [refused]).error * NANOS
    ensures var recent := Recent(Log(config, requests), refused.Key(), refused.at, config.Window());
      && recent != [] && Age(refused.at, recent[0]) < config.Window()
      && var wait := TrueWait(recent, refused.at, config.Window());
         Expected(config, requests + [refused] + others + [retry]).Ok? <==> (wait % NANOS == 0 || wait < NANOS)
  {
    RetryAdmittedExactlyWhen(config, requests, refused, others, retry);
    ExpectedOfLast(config, requests, refused);
    hide Expected, Log, Recent, Chronological;
    var recent := Recent(Log(config, requests), refused.Key(), refused.at, config.Window());
    AdvertisedWait(recent, refused.at, config.Window());
  }

  lemma FirstIsLogged(config: Config, first: Request)
    requires config.MaxFor(first.sensitive) > 0
    ensures Log(config, [first]) == [first]
  {
    assert [first][..0] == [] && Log(config, []) == [];
  }

  /** One request per minute: refused after half a second and told 59, a caller that obeys is refused again. */
  lemma ObeyingRetryAfterCanFail(identity: string)
    ensures var config := Config(60, 1, 1);
      var first, refused := Request(identity, false, 0), Request(identity, false, NANOS / 2);
      var retry := Request(identity, false, refused.at + 59 * NANOS);
      Expected(config, [first] + [refused]) == Err(59) && Expected(config, [first] + [refused] + [] + [retry]).Err?
  {
    var config := Config(60, 1, 1);
    var first, refused := Request(identity, false, 0), Request(identity, false, NANOS / 2);
    var retry := Request(identity, false, refused.at + 59 * NANOS);
    FirstIsLogged(config, first);
    ExpectedOfLast(config, [first], refused);
    RecentLast([first], first.Key(), refused.at, config.Window());
    assert [first][..0] == [] && Recent([], first.Key(), refused.at, config.Window()) == [];
    assert [first] + [refused] + [] + [retry] == [first, refused, retry];
    hide Expected, Log, Recent;
    RetryAfterAsAdvertised(config, [first], refused, [], retry);
  }

  // ---------------------------------------------------------------------------------------
  // In terms of the configuration and the requests alone.

  /** The earlier request is of the same caller and kind, and still within the window. */
  predicate Sees(request: Request, earlier: Request, windowSecs: nat) {
    && earlier.identity == request.identity && earlier.sensitive == request.sensitive
    && request.at < earlier.at + windowSecs * 1_000_000_000
  }

  /** The admitted requests of this caller that `request` finds within the window. */
  ghost function InWindow(log: seq<Request>, request: Request, windowSecs: nat): set<nat> {
    set i | 0 <= i < |log| && Sees(request, log[i], windowSecs)
  }

  /** Callers with different names, and the two kinds of request of one caller, have buckets of their own. */
  lemma KeyExactlyWhen(a: Request, b: Request)
    ensures a.Key() == b.Key() <==> a.identity == b.identity && a.sensitive == b.sensitive
  {
    if a.Key() == b.Key() {
      SameKeySameLimit(a, b);
      var n := |a.identity|;
      assert |a.Key()| == |b.Key()|;
      assert a.Key()[..n] == a.identity && b.Key()[..n] == b.identity;
    }
  }

  lemma InWindowNext(log: seq<Request>, request: Request, windowSecs: nat)
    requires log != []
    ensures var n := |log| - 1;
      |InWindow(log, request, windowSecs)|
        == |InWindow(log[..n], request, windowSecs)| + if Sees(request, log[n], windowSecs) then 1 else 0
  {
    hide Sees;
    var n := |log| - 1;
    var before, after := InWindow(log[..n], request, windowSecs), InWindow(log, request, windowSecs);
    assert after == if Sees(request, log[n], windowSecs) then before + {n} else before;
  }

  lemma SeesRecent(config: Config, request: Request, earlier: Request)
    requires earlier.at <= request.at
    ensures Sees(request, earlier, config.windowSecs)
      <==> earlier.Key() == request.Key() && Age(request.at, earlier.at) < config.Window()
  {
    KeyExactlyWhen(earlier, request);
    hide Request.Key;
  }

  lemma {:induction false} RecentCount(config: Config, log: seq<Request>, request: Request)
    requires NoLaterThan(log, request.at)
    ensures |Recent(log, request.Key(), request.at, config.Window())| == |InWindow(log, request, config.windowSecs)|
  {
    hide Sees, Request.Key, Age, Config.Window;
    if log == [] {
      assert InWindow(log, request, config.windowSecs) == {};
    } else {
      var n := |log| - 1;
      RecentCount(config, log[..n], request);
      SeesRecent(config, request, log[n]);
      hide InWindow;
      InWindowNext(log, request, config.windowSecs);
    }
  }

  /**
    A sensitive request is admitted exactly when fewer than `sensitiveMax` admitted ones of its caller are in
    the window, a standard one exactly when fewer than `standardMax` are.
   */
  lemma AdmittedExactlyWhen(config: Config, due: nat -> bool, requests: seq<Request>, last: Request)
    requires Chronological(requests + [last])
    ensures Answer(config, due, requests + [last]).Ok? <==>
      |InWindow(Log(config, requests), last, config.windowSecs)|
        < if last.sensitive then config.sensitiveMax else config.standardMax
  {
    var all := requests + [last];
    LimiterRefinesLog(config, due, all);
    ExpectedOfLast(config, requests, last);
    assert forall i :: 0 <= i < |requests| ==> requests[i] == all[i] && all[i].at <= all[|requests|].at;
    LogNoLater(config, requests, last.at);
    RecentCount(config, Log(config, requests), last);
    hide Answer, Recent, Log, InWindow;
  }

  predicate FallsIn(r: Request, caller: Request, start: Instant, windowSecs: nat) {
    && r.identity == caller.identity && r.sensitive == caller.sensitive
    && start <= r.at < start + windowSecs * 1_000_000_000
  }

  /** The admitted requests of this caller from `start` on, for the length of one window. */
  ghost function InInterval(log: seq<Request>, caller: Request, start: Instant, windowSecs: nat): set<nat> {
    set i | 0 <= i < |log| && FallsIn(log[i], caller, start, windowSecs)
  }

  lemma InIntervalNext(log: seq<Request>, caller: Request, start: Instant, windowSecs: nat)
    requires log != []
    ensures var n := |log| - 1;
      |InInterval(log, caller, start, windowSecs)|
        == |InInterval(log[..n], caller, start, windowSecs)| + if FallsIn(log[n], caller, start, windowSecs) then 1
          else 0
  {
    hide FallsIn;
    var n := |log| - 1;
    var before, after := InInterval(log[..n], caller, start, windowSecs), InInterval(log, caller, start, windowSecs);
    assert after == if FallsIn(log[n], caller, start, windowSecs) then before + {n} else before;
  }

  lemma FallsInKey(config: Config, r: Request, caller: Request, start: Instant)
    ensures FallsIn(r, caller, start, config.windowSecs)
      <==> r.Key() == caller.Key() && start <= r.at < start + config.Window()
  {
    KeyExactlyWhen(r, caller);
    hide Request.Key;
  }

  lemma {:induction false} IntervalCount(config: Config, log: seq<Request>, caller: Request, start: Instant)
    ensures CountFrom(log, caller.Key(), start, config.Window()) == |InInterval(log, caller, start, config.windowSecs)|
  {
    hide FallsIn, Request.Key, Config.Window;
    if log == [] {
      assert InInterval(log, caller, start, config.windowSecs) == {};
    } else {
      var n := |log| - 1;
      IntervalCount(config, log[..n], caller, start);
      FallsInKey(config, log[n], caller, start);
      hide InInterval;
      InIntervalNext(log, caller, start, config.windowSecs);
    }
  }

  /** No window ever holds more admitted requests of one caller than the configuration allows for their kind. */
  lemma EveryWindowWithinLimit(config: Config, requests: seq<Request>, caller: Request, start: Instant)
    requires Chronological(requests)
    ensures |InInterval(Log(config, requests), caller, start, config.windowSecs)|
      <= if caller.sensitive then config.sensitiveMax else config.standardMax
  {
    WindowHoldsLimit(config, requests, caller, start);
    IntervalCount(config, Log(config, requests), caller, start);
    hide Log, InInterval, CountFrom;
  }

  /** With a limit of zero nothing is admitted, and the advertised wait is a minute. */
  lemma ZeroLimitRefuses(config: Config, log: seq<Request>, request: Request)
    requires if request.sensitive then config.sensitiveMax == 0 else config.standardMax == 0
    ensures !Admits(config, log, request)
    ensures RetryAfter([], request.at, config.Window()) == 60
  {
    hide Recent;
  }

  /** An entry from a later clock reading counts as brand new. */
  lemma LaterEntriesStay(bucket: seq<Instant>, now: Instant, window: nat)
    requires bucket != [] && now < bucket[0] && window > 0
    ensures Pruned(bucket, now, window) == bucket
    ensures RetryAfter(bucket, now, window) == if window < 1_000_000_000 then 1 else window / 1_000_000_000
  {}
}
