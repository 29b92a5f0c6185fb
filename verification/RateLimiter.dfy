/** The fixed-window counter that limits how often an ip address may call. */
module RateLimiter {
  import opened Prelude

  /** A Redis counter; without an expiry time it stays for ever. */
  datatype Counter = Counter(count: nat, expiresAt: Option<int>)

  datatype Fault = NoFault | IncrFails | ExpireFails

  /** A call, when Redis handled it and what went wrong there. */
  datatype Call = Call(ip: string, now: int, fault: Fault)

  datatype Config = Config(limit: int, windowSeconds: int)

  type Store = map<string, Counter>

  function RedisKey(ip: string): string {
    "rate_limit:" + ip
  }

  predicate Live(s: Store, key: string, now: int) {
    key in s && (s[key].expiresAt.None? || now < s[key].expiresAt.value)
  }

  function Incremented(s: Store, key: string, now: int): Counter {
    if Live(s, key, now) then Counter(s[key].count + 1, s[key].expiresAt) else Counter(1, None)
  }

  function Step(c: Config, s: Store, call: Call): Store {
    var key := RedisKey(call.ip);
    if call.fault.IncrFails? then s
    else
      var counter := Incremented(s, key, call.now);
      if counter.count == 1 && call.fault.NoFault? then s[key := Counter(1, Some(call.now + c.windowSeconds))]
      else s[key := counter]
  }

  predicate Admits(c: Config, s: Store, call: Call) {
    var current := Incremented(s, RedisKey(call.ip), call.now).count;
    call.fault.IncrFails? || (current == 1 && call.fault.ExpireFails?) || current <= c.limit
  }

  /** The counters after the first `n` calls. */
  function After(c: Config, calls: seq<Call>, n: nat): Store
    requires n <= |calls|
  {
    if n == 0 then map[] else Step(c, After(c, calls, n - 1), calls[n - 1])
  }

  predicate Admitted(c: Config, calls: seq<Call>, i: nat)
    requires i < |calls|
  {
    Admits(c, After(c, calls, i), calls[i])
  }

  class Redis {
    var counters: Store

    constructor ()
      ensures counters == map[]
    {
      counters := map[];
    }

    /** Starts from zero when the key is absent or has expired. */
    method Incr(key: string, now: int) returns (current: nat)
      modifies this
      ensures counters == old(counters)[key := Incremented(old(counters), key, now)]
      ensures current == counters[key].count
    {
      if key in counters && counters[key].expiresAt.Some? && now >= counters[key].expiresAt.value {
        counters := counters - {key};
      }
      if key !in counters {
        counters := counters[key := Counter(0, None)];
      }
      counters := counters[key := counters[key].(count := counters[key].count + 1)];
      return counters[key].count;
    }

    method Expire(key: string, at: int)
      requires key in counters
      modifies this
      ensures counters == old(counters)[key := Counter(old(counters)[key].count, Some(at))]
    {
      counters := counters[key := counters[key].(expiresAt := Some(at))];
    }
  }

  class Limiter {
    const config: Config
    const redisCli: Redis

    constructor (config: Config, redisCli: Redis)
      ensures this.config == config && this.redisCli == redisCli
    {
      this.config := config;
      this.redisCli := redisCli;
    }

    method CheckLimitsForRpc(ip: string, now: int, fault: Fault) returns (ok: bool)
      modifies redisCli
      ensures ok == Admits(config, old(redisCli.counters), Call(ip, now, fault))
      ensures redisCli.counters == Step(config, old(redisCli.counters), Call(ip, now, fault))
      ensures var before, key := old(redisCli.counters), "rate_limit:" + ip;
              var live := key in before && (before[key].expiresAt.None? || now < before[key].expiresAt.value);
              var count := if live then before[key].count + 1 else 1;
              match fault
              case IncrFails => ok && redisCli.counters == before
              case ExpireFails =>
                && (ok <==> count == 1 || count <= config.limit)
                && redisCli.counters == before[key := Counter(count, if live then before[key].expiresAt else None)]
              case NoFault =>
                && (ok <==> count <= config.limit)
                && redisCli.counters == before[key := Counter(count, if count > 1 then before[key].expiresAt else Some(now + config.windowSeconds))]
    {
      if fault.IncrFails? {
        return true;
      }
      var current := redisCli.Incr(RedisKey(ip), now);
      if current == 1 {
        if fault.ExpireFails? {
          return true;
        }
        redisCli.Expire(RedisKey(ip), now + config.windowSeconds);
      }
      return !(current > config.limit);
    }
  }

  /** Serves any sequence of calls and tells which ones were admitted. */
  method Drive(limiter: Limiter, calls: seq<Call>) returns (ok: seq<bool>)
    requires limiter.redisCli.counters == map[]
    modifies limiter.redisCli
    ensures |ok| == |calls| && forall i :: 0 <= i < |calls| ==> ok[i] == Admitted(limiter.config, calls, i)
  {
    ok := [];
    for i := 0 to |calls|
      invariant limiter.redisCli.counters == After(limiter.config, calls, i)
      invariant |ok| == i && forall k :: 0 <= k < i ==> ok[k] == Admitted(limiter.config, calls, k)
    {
      var admitted := limiter.CheckLimitsForRpc(calls[i].ip, calls[i].now, calls[i].fault);
      ok := ok + [admitted];
    }
  }

  /** A Redis that cannot count admits everything and changes nothing. */
  lemma FailedCountAdmits(c: Config, calls: seq<Call>, i: nat)
    requires i < |calls| && calls[i].fault.IncrFails?
    ensures Admitted(c, calls, i) && After(c, calls, i + 1) == After(c, calls, i)
  {}

  // ---------------------------------------------------------------- one window

  predicate Chronological(calls: seq<Call>) {
    forall i, j :: 0 <= i <= j < |calls| ==> calls[i].now <= calls[j].now
  }

  predicate NoFaults(calls: seq<Call>) {
    forall i :: 0 <= i < |calls| ==> calls[i].fault.NoFault?
  }

  lemma KeysDiffer(ip: string, other: string)
    ensures RedisKey(ip) == RedisKey(other) <==> ip == other
  {
    assert RedisKey(ip)[11..] == ip && RedisKey(other)[11..] == other;
  }

  /** How often `ip` called from call `a` up to call `n`. */
  function CallsOf(calls: seq<Call>, ip: string, a: nat, n: nat): nat
    requires n <= |calls|
  {
    if n <= a then 0 else CallsOf(calls, ip, a, n - 1) + if calls[n - 1].ip == ip then 1 else 0
  }

  /** The call finds no live counter, so it starts a window. */
  predicate Starts(c: Config, calls: seq<Call>, a: nat)
    requires a < |calls|
  {
    !Live(After(c, calls, a), RedisKey(calls[a].ip), calls[a].now)
  }

  /** After `n` calls the counter of `ip` is that of the window that call `a` started; it counts the calls since. */
  predicate InWindow(c: Config, calls: seq<Call>, ip: string, a: nat, n: nat)
    requires n <= |calls|
  {
    && a < n && calls[a].ip == ip && Starts(c, calls, a) && CallsOf(calls, ip, a, n) >= 1
    && RedisKey(ip) in After(c, calls, n)
    && After(c, calls, n)[RedisKey(ip)] == Counter(CallsOf(calls, ip, a, n), Some(calls[a].now + c.windowSeconds))
  }

  /** What the next call does to the window of `ip`, and when that call is admitted. */
  lemma WindowStep(c: Config, calls: seq<Call>, ip: string, a: nat, n: nat)
    requires n < |calls| && InWindow(c, calls, ip, a, n) && calls[n].fault.NoFault?
    ensures var inside := calls[n].ip != ip || calls[n].now < calls[a].now + c.windowSeconds;
            InWindow(c, calls, ip, if inside then a else n, n + 1)
    ensures calls[n].ip == ip && calls[n].now < calls[a].now + c.windowSeconds ==>
              (Admitted(c, calls, n) <==> CallsOf(calls, ip, a, n + 1) <= c.limit)
    ensures calls[n].ip == ip && calls[n].now >= calls[a].now + c.windowSeconds ==>
              Starts(c, calls, n) && (Admitted(c, calls, n) <==> 1 <= c.limit)
  {
    KeysDiffer(ip, calls[n].ip);
  }

  lemma WindowOpens(c: Config, calls: seq<Call>, n: nat)
    requires n < |calls| && Starts(c, calls, n) && calls[n].fault.NoFault?
    ensures InWindow(c, calls, calls[n].ip, n, n + 1)
    ensures Admitted(c, calls, n) <==> 1 <= c.limit
  {}

  lemma {:induction false} NoCounterYet(c: Config, calls: seq<Call>, ip: string, n: nat)
    requires n <= |calls| && CallsOf(calls, ip, 0, n) == 0
    ensures RedisKey(ip) !in After(c, calls, n)
  {
    if n > 0 {
      NoCounterYet(c, calls, ip, n - 1);
      KeysDiffer(ip, calls[n - 1].ip);
    }
  }

  /** Once `ip` has called, its counter belongs to exactly one window. */
  lemma {:induction false} CurrentWindow(c: Config, calls: seq<Call>, ip: string, n: nat) returns (a: nat)
    requires n <= |calls| && NoFaults(calls) && CallsOf(calls, ip, 0, n) > 0
    ensures InWindow(c, calls, ip, a, n)
  {
    if CallsOf(calls, ip, 0, n - 1) > 0 {
      a := CurrentWindow(c, calls, ip, n - 1);
      WindowStep(c, calls, ip, a, n - 1);
      if calls[n - 1].ip == ip && calls[n - 1].now >= calls[a].now + c.windowSeconds {
        a := n - 1;
      }
    } else {
      NoCounterYet(c, calls, ip, n - 1);
      a := n - 1;
      WindowOpens(c, calls, a);
    }
  }

  /**
   Every call belongs to the window of some call `a`, which is less than the window's length before it (or is
   the call itself), and it is admitted exactly when it is among the first `limit` calls of that window.
   */
  lemma WindowAdmitsFirstCalls(c: Config, calls: seq<Call>, i: nat) returns (a: nat)
    requires i < |calls| && NoFaults(calls)
    ensures a <= i && calls[a].ip == calls[i].ip && Starts(c, calls, a)
    ensures a == i || calls[i].now < calls[a].now + c.windowSeconds
    ensures Admitted(c, calls, i) <==> CallsOf(calls, calls[i].ip, a, i + 1) <= c.limit
  {
    var ip := calls[i].ip;
    if CallsOf(calls, ip, 0, i) > 0 {
      a := CurrentWindow(c, calls, ip, i);
      WindowStep(c, calls, ip, a, i);
      if calls[i].now >= calls[a].now + c.windowSeconds {
        a := i;
      }
    } else {
      NoCounterYet(c, calls, ip, i);
      a := i;
      WindowOpens(c, calls, a);
    }
    if a == i {
      assert CallsOf(calls, ip, i, i + 1) == CallsOf(calls, ip, i, i) + 1;
    }
  }

  // ---------------------------------------------------------------- any interval

  /** The admitted calls of `ip` among the first `n`, within a window's length from `t` on. */
  function AdmittedIn(c: Config, calls: seq<Call>, ip: string, t: int, n: nat): nat
    requires n <= |calls|
  {
    if n == 0 then 0
    else
      var call := calls[n - 1];
      AdmittedIn(c, calls, ip, t, n - 1) +
      if call.ip == ip && t <= call.now < t + c.windowSeconds && Admitted(c, calls, n - 1) then 1 else 0
  }

  lemma {:induction false} NoneAdmittedYet(c: Config, calls: seq<Call>, ip: string, t: int, n: nat)
    requires n <= |calls| && CallsOf(calls, ip, 0, n) == 0
    ensures AdmittedIn(c, calls, ip, t, n) == 0
  {
    if n > 0 {
      NoneAdmittedYet(c, calls, ip, t, n - 1);
    }
  }

  lemma {:induction false} NoneAdmittedBefore(c: Config, calls: seq<Call>, ip: string, t: int, n: nat)
    requires n <= |calls| && Chronological(calls) && (n > 0 ==> calls[n - 1].now < t)
    ensures AdmittedIn(c, calls, ip, t, n) == 0
  {
    if n > 1 {
      assert calls[n - 2].now <= calls[n - 1].now;
    }
    if n > 0 {
      NoneAdmittedBefore(c, calls, ip, t, n - 1);
    }
  }

  /** How many calls can have been admitted in the interval from `t`, when the current window began at `start`. */
  ghost predicate Bounded(c: Config, admitted: int, start: int, count: int, t: int) {
    if start < t then admitted <= Min(count, c.limit) - 1
    else if start < t + c.windowSeconds then admitted <= c.limit - 1 + Min(count, c.limit)
    else admitted <= 2 * c.limit - 1
  }

  lemma {:induction false} BoundedSoFar(c: Config, calls: seq<Call>, ip: string, t: int, n: nat) returns (a: nat)
    requires n <= |calls| && NoFaults(calls) && Chronological(calls) && c.limit >= 1
    requires CallsOf(calls, ip, 0, n) > 0
    ensures InWindow(c, calls, ip, a, n)
    ensures Bounded(c, AdmittedIn(c, calls, ip, t, n), calls[a].now, CallsOf(calls, ip, a, n), t)
  {
    if CallsOf(calls, ip, 0, n - 1) > 0 {
      a := BoundedSoFar(c, calls, ip, t, n - 1);
      WindowStep(c, calls, ip, a, n - 1);
      assert calls[a].now <= calls[n - 1].now;
      if calls[n - 1].ip == ip && calls[n - 1].now >= calls[a].now + c.windowSeconds {
        a := n - 1;
      }
      if calls[n - 1].now < t {
        NoneAdmittedBefore(c, calls, ip, t, n);
      }
    } else {
      NoCounterYet(c, calls, ip, n - 1);
      NoneAdmittedYet(c, calls, ip, t, n - 1);
      a := n - 1;
      WindowOpens(c, calls, a);
    }
  }

  /**
   Wherever an interval of the window's length is placed, at most `2 * limit - 1` calls of an ip address are
   admitted in it.
   */
  lemma AnyIntervalBound(c: Config, calls: seq<Call>, ip: string, t: int)
    requires NoFaults(calls) && Chronological(calls)
    ensures AdmittedIn(c, calls, ip, t, |calls|) <= if c.limit >= 1 then 2 * c.limit - 1 else 0
  {
    if c.limit < 1 {
      NothingAdmitted(c, calls, ip, t, |calls|);
    } else if CallsOf(calls, ip, 0, |calls|) > 0 {
      var a := BoundedSoFar(c, calls, ip, t, |calls|);
    } else {
      NoneAdmittedYet(c, calls, ip, t, |calls|);
    }
  }

  lemma {:induction false} NothingAdmitted(c: Config, calls: seq<Call>, ip: string, t: int, n: nat)
    requires n <= |calls| && NoFaults(calls) && c.limit < 1
    ensures AdmittedIn(c, calls, ip, t, n) == 0
  {
    if n > 0 {
      NothingAdmitted(c, calls, ip, t, n - 1);
      assert !Admitted(c, calls, n - 1);
    }
  }

  /** One call, then the rest of the limit at the end of its window, and the whole limit right after it. */
  function Worst(c: Config, ip: string): seq<Call>
    requires c.limit >= 1
  {
    seq(2 * c.limit, i => Call(ip, if i == 0 then 0 else if i < c.limit then c.windowSeconds - 1 else c.windowSeconds, NoFault))
  }

  lemma NothingLive(c: Config, calls: seq<Call>)
    requires calls != []
    ensures Starts(c, calls, 0)
  {}

  lemma {:induction false} WorstSoFar(c: Config, ip: string, n: nat)
    requires c.limit >= 1 && c.windowSeconds >= 2 && 1 <= n <= 2 * c.limit
    ensures var a := if n <= c.limit then 0 else c.limit;
            InWindow(c, Worst(c, ip), ip, a, n) && CallsOf(Worst(c, ip), ip, a, n) == n - a
    ensures AdmittedIn(c, Worst(c, ip), ip, 1, n) == n - 1
  {
    hide After, Starts, Admitted;
    var calls := Worst(c, ip);
    if n == 1 {
      NothingLive(c, calls);
      WindowOpens(c, calls, 0);
    } else {
      WorstSoFar(c, ip, n - 1);
      WindowStep(c, calls, ip, if n - 1 <= c.limit then 0 else c.limit, n - 1);
    }
  }

  /** That bound is reached, by calls that all carry on from one window into the next. */
  lemma IntervalBoundIsReached(c: Config, ip: string)
    requires c.limit >= 1 && c.windowSeconds >= 2
    ensures NoFaults(Worst(c, ip)) && Chronological(Worst(c, ip))
    ensures AdmittedIn(c, Worst(c, ip), ip, 1, |Worst(c, ip)|) == 2 * c.limit - 1
  {
    WorstSoFar(c, ip, 2 * c.limit);
  }

  // ---------------------------------------------------------------- other addresses and lost expiries

  /** The two sequences of calls differ only in what addresses other than `ip` do. */
  predicate SameFor(ip: string, calls: seq<Call>, others: seq<Call>) {
    |calls| == |others| && forall i :: 0 <= i < |calls| && (calls[i].ip == ip || others[i].ip == ip) ==> calls[i] == others[i]
  }

  lemma {:induction false} SameCounter(c: Config, ip: string, calls: seq<Call>, others: seq<Call>, n: nat)
    requires SameFor(ip, calls, others) && n <= |calls|
    ensures RedisKey(ip) in After(c, calls, n) <==> RedisKey(ip) in After(c, others, n)
    ensures RedisKey(ip) in After(c, calls, n) ==> After(c, calls, n)[RedisKey(ip)] == After(c, others, n)[RedisKey(ip)]
  {
    if n > 0 {
      SameCounter(c, ip, calls, others, n - 1);
      KeysDiffer(ip, calls[n - 1].ip);
      KeysDiffer(ip, others[n - 1].ip);
    }
  }

  /** What other addresses do makes no difference to which calls of an address are admitted. */
  lemma AddressesAreIndependent(c: Config, ip: string, calls: seq<Call>, others: seq<Call>, i: nat)
    requires SameFor(ip, calls, others) && i < |calls| && calls[i].ip == ip
    ensures Admitted(c, calls, i) <==> Admitted(c, others, i)
  {
    SameCounter(c, ip, calls, others, i);
  }

  /**
   When setting the expiry of a new counter fails, the counter never expires: from then on only the first
   `limit` calls are admitted, however late the others come.
   */
  lemma {:induction false} LostExpiryNeverHeals(c: Config, calls: seq<Call>, a: nat, n: nat)
    requires a < n <= |calls| && Starts(c, calls, a) && calls[a].fault.ExpireFails?
    requires forall i :: a < i < n ==> calls[i].fault.NoFault?
    ensures var ip := calls[a].ip;
            && RedisKey(ip) in After(c, calls, n)
            && After(c, calls, n)[RedisKey(ip)] == Counter(CallsOf(calls, ip, a, n), None)
            && CallsOf(calls, ip, a, n) >= 1
            && (n - 1 > a && calls[n - 1].ip == ip ==> (Admitted(c, calls, n - 1) <==> CallsOf(calls, ip, a, n) <= c.limit))
  {
    var ip := calls[a].ip;
    if n == a + 1 {
      assert CallsOf(calls, ip, a, n) == CallsOf(calls, ip, a, n - 1) + 1;
    } else {
      LostExpiryNeverHeals(c, calls, a, n - 1);
      KeysDiffer(ip, calls[n - 1].ip);
    }
  }
}
