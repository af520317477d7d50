/** The fixed-life limiter: the Redis script as one atomic step on a keyed store of
    counters, in whole nondecreasing seconds. */
module RateLimiter {
  import opened Numbers
  import opened Wrappers

  type Positive = n: nat | 0 < n witness 1

  /** `INCR` leaves no counter at zero. */
  datatype Counter = Counter(count: Positive, expiresAt: int)

  datatype Config = Config(enabled: bool, maxRequests: nat, windowSeconds: nat)

  datatype Action = Login | Register | PasswordReset | EmailVerification

  datatype Decision = Allowed | Denied(retryAfter: nat)

  const U32_SIZE: nat := 0x1_0000_0000

  // ---------- Keys ----------

  function ActionName(a: Action): string {
    match a
    case Login => "login"
    case Register => "register"
    case PasswordReset => "password_reset"
    case EmailVerification => "email_verification"
  }

  function RedisKey(ip: string, a: Action): string {
    "rate_limit:" + ip + ":" + ActionName(a)
  }

  lemma LastColon(x: string, a: string, y: string, b: string)
    requires ':' !in a && ':' !in b && x + ":" + a == y + ":" + b
    ensures x == y && a == b
  {
    var s := x + ":" + a;
    assert s[|x|] == ':' && s[|y|] == ':';
    assert |x| == |y|;
    assert s[..|x|] == x && s[..|x|] == y;
    assert s[|x| + 1..] == a && s[|x| + 1..] == b;
  }

  lemma ActionNames(a: Action, a': Action)
    ensures ':' !in ActionName(a) && (ActionName(a) == ActionName(a') <==> a == a')
  {
    assert |ActionName(a)| == |ActionName(a')| ==> a == a';
  }

  /** Two scopes share a counter only if they are the same address and the same action,
      although an IPv6 address contains colons itself. */
  lemma KeyInjective(ip: string, a: Action, ip': string, a': Action)
    ensures RedisKey(ip, Login) == "rate_limit:" + ip + ":" + "login"
    ensures RedisKey(ip, Register) == "rate_limit:" + ip + ":" + "register"
    ensures RedisKey(ip, PasswordReset) == "rate_limit:" + ip + ":" + "password_reset"
    ensures RedisKey(ip, EmailVerification) == "rate_limit:" + ip + ":" + "email_verification"
    ensures RedisKey(ip, a) == RedisKey(ip', a') <==> ip == ip' && a == a'
  {
    if RedisKey(ip, a) == RedisKey(ip', a') {
      var p := "rate_limit:";
      ActionNames(a, a');
      LastColon(p + ip, ActionName(a), p + ip', ActionName(a'));
      assert (p + ip)[|p|..] == ip && (p + ip')[|p|..] == ip';
    }
  }

  // ---------- The script ----------

  /** The counter a command finds: an expired one no longer exists. */
  function Live(store: map<string, Counter>, key: string, now: int): Option<Counter> {
    if key in store && now < store[key].expiresAt then Some(store[key]) else None
  }

  /** The counter after one call of the script; `None` when `EXPIRE` with 0 deleted it. */
  function Hit(c: Option<Counter>, now: int, life: nat): Option<Counter> {
    match c
    case Some(live) => Some(Counter(live.count + 1, live.expiresAt))
    case None => if life == 0 then None else Some(Counter(1, now + life))
  }

  function HitCount(c: Option<Counter>): nat {
    if c.Some? then c.value.count + 1 else 1
  }

  function Touch(store: map<string, Counter>, key: string, now: int, life: nat): map<string, Counter> {
    match Hit(Live(store, key, now), now, life)
    case Some(c) => store[key := c]
    case None => store - {key}
  }

  predicate Admits(store: map<string, Counter>, key: string, now: int, limit: nat) {
    HitCount(Live(store, key, now)) <= limit
  }

  /** The reply of `TTL`: the time left rounded to whole seconds, or -2 without a key. */
  function Ttl(store: map<string, Counter>, key: string, now: int): int {
    if key in store then (store[key].expiresAt - now + 500) / 1000 else -2
  }

  /** The seconds a denied caller is told to wait, with the cast to 32 bits. */
  function RetryAfter(ttl: int, windowSeconds: nat): nat {
    if ttl > 0 then ttl % U32_SIZE else windowSeconds % U32_SIZE
  }

  /** A configured window in milliseconds. */
  function Life(c: Config): nat {
    c.windowSeconds * 1000
  }

  function Decide(store: map<string, Counter>, key: string, now: int, c: Config): Decision {
    if Admits(store, key, now, c.maxRequests) then Allowed
    else Denied(RetryAfter(Ttl(Touch(store, key, now, Life(c)), key, now), c.windowSeconds))
  }

  class Limiter {
    const config: Config
    var store: map<string, Counter>

    constructor (config: Config)
      ensures this.config == config && store == map[]
    {
      this.config, store := config, map[];
    }

    /** The Lua script: INCR, EXPIRE on a fresh key, TTL when over the limit. */
    method Script(key: string, limit: nat, window: nat, now: int) returns (flag: int, ttl: int)
      modifies this`store
      ensures store == Touch(old(store), key, now, 1000 * window)
      ensures flag == if Admits(old(store), key, now, limit) then 1 else 0
      ensures flag == 0 ==> ttl == Ttl(store, key, now)
    {
      if key in store && store[key].expiresAt <= now {
        store := store - {key};
      }
      var current: nat := if key in store then store[key].count + 1 else 1;
      if current == 1 {
        if window == 0 {
          store := store - {key};
        } else {
          store := store[key := Counter(1, now + window * 1000)];
        }
      } else {
        store := store[key := store[key].(count := current)];
      }
      if current > limit {
        return 0, if key in store then (store[key].expiresAt - now + 500) / 1000 else -2;
      }
      return 1, 0;
    }

    method Check(ip: string, action: Action, now: int) returns (d: Decision)
      modifies this`store
      ensures !config.enabled ==> d == Allowed && store == old(store)
      ensures config.enabled ==> d == Decide(old(store), RedisKey(ip, action), now, config)
      ensures config.enabled ==> store == Touch(old(store), RedisKey(ip, action), now, 1000 * config.windowSeconds)
    {
      if !config.enabled {
        return Allowed;
      }
      var flag, ttl := Script(RedisKey(ip, action), config.maxRequests, config.windowSeconds, now);
      if flag == 1 {
        return Allowed;
      }
      var retryAfter := if ttl > 0 then ttl % U32_SIZE else config.windowSeconds % U32_SIZE;
      return Denied(retryAfter);
    }
  }

  // ---------- Traces ----------

  /** One script call for a key, at a millisecond. */
  datatype Event = Event(now: int, key: string)

  ghost predicate Ordered(events: seq<Event>) {
    forall i, j :: 0 <= i < j < |events| ==> events[i].now <= events[j].now
  }

  function StoreAfter(events: seq<Event>, life: nat): map<string, Counter> {
    if events == [] then map[]
    else
      var e := events[|events| - 1];
      Touch(StoreAfter(events[..|events| - 1], life), e.key, e.now, life)
  }

  /** How many calls for `key` fell in `[from, to)`. */
  function Requests(events: seq<Event>, key: string, from: int, to: int): nat {
    if events == [] then 0
    else
      var e := events[|events| - 1];
      Requests(events[..|events| - 1], key, from, to)
      + if e.key == key && from <= e.now < to then 1 else 0
  }

  /** How many of them were admitted. */
  function Admitted(events: seq<Event>, key: string, limit: nat, life: nat, from: int, to: int): nat {
    if events == [] then 0
    else
      var before, e := events[..|events| - 1], events[|events| - 1];
      Admitted(before, key, limit, life, from, to)
      + if e.key == key && from <= e.now < to && Admits(StoreAfter(before, life), key, e.now, limit) then 1 else 0
  }

  // ---------- One counter life ----------

  lemma TouchOther(store: map<string, Counter>, touched: string, now: int, life: nat, key: string)
    requires touched != key
    ensures key in Touch(store, touched, now, life) <==> key in store
    ensures key in store ==> Touch(store, touched, now, life)[key] == store[key]
  {
  }

  lemma TouchNew(store: map<string, Counter>, key: string, now: int, limit: nat, life: nat)
    requires life >= 1 && (key in store ==> store[key].expiresAt <= now)
    ensures Touch(store, key, now, life) == store[key := Counter(1, now + life)]
    ensures Admits(store, key, now, limit) <==> 1 <= limit
  {
  }

  lemma TouchInLife(store: map<string, Counter>, key: string, now: int, limit: nat, life: nat)
    requires key in store && now < store[key].expiresAt
    ensures Touch(store, key, now, life) == store[key := Counter(store[key].count + 1, store[key].expiresAt)]
    ensures Admits(store, key, now, limit) <==> store[key].count + 1 <= limit
  {
  }

  /** A counter lives for exactly one window from its first request, sees the requests of
      that time and no others, and admits exactly the first `limit` of them. */
  lemma {:induction false} LifeAdmits(events: seq<Event>, key: string, limit: nat, life: nat)
    requires Ordered(events) && life >= 1
    requires key in StoreAfter(events, life)
    ensures var c := StoreAfter(events, life)[key];
            var start := c.expiresAt - life;
            && (forall i :: 0 <= i < |events| && events[i].key == key ==> events[i].now < c.expiresAt)
            && (events != [] ==> start <= events[|events| - 1].now)
            && Requests(events, key, start, c.expiresAt) == c.count
            && Admitted(events, key, limit, life, start, c.expiresAt) == Min(c.count, limit)
  {
    hide Ordered, Touch, Admits;
    var before, e := events[..|events| - 1], events[|events| - 1];
    var store := StoreAfter(before, life);
    OrderedPrefix(events);
    if e.key != key {
      TouchOther(store, e.key, e.now, life, key);
      LifeAdmits(before, key, limit, life);
    } else if key in store && e.now < store[key].expiresAt {
      TouchInLife(store, key, e.now, limit, life);
      LifeAdmits(before, key, limit, life);
    } else {
      TouchNew(store, key, e.now, limit, life);
      NoRequests(before, key, limit, life, e.now, e.now + life);
    }
  }

  lemma OrderedPrefix(events: seq<Event>)
    requires Ordered(events) && events != []
    ensures Ordered(events[..|events| - 1])
    ensures forall e :: e in events ==> e.now <= events[|events| - 1].now
  {
  }

  /** A key without a counter, or with an expired one, has had no request from now on. */
  lemma {:induction false} NoRequests(events: seq<Event>, key: string, limit: nat, life: nat, now: int, to: int)
    requires Ordered(events) && life >= 1
    requires key in StoreAfter(events, life) ==> StoreAfter(events, life)[key].expiresAt <= now
    ensures Requests(events, key, now, to) == 0 && Admitted(events, key, limit, life, now, to) == 0
  {
    if events != [] {
      var before, e := events[..|events| - 1], events[|events| - 1];
      NoRequests(before, key, limit, life, now, to);
    }
  }

  /** A check is allowed if and only if the running window has seen fewer requests than the
      configured maximum; the first request of a window needs a maximum of at least one. */
  lemma CheckExact(events: seq<Event>, key: string, now: int, c: Config)
    requires c.windowSeconds >= 1 && Ordered(events + [Event(now, key)])
    ensures var life := 1000 * c.windowSeconds;
            var store := StoreAfter(events, life);
            Decide(store, key, now, c) == Allowed
            <==> if key in store && now < store[key].expiresAt
                 then Requests(events, key, store[key].expiresAt - life, store[key].expiresAt) < c.maxRequests
                 else 1 <= c.maxRequests
  {
    hide StoreAfter, Requests, Admitted, Touch;
    var life := 1000 * c.windowSeconds;
    assert Ordered(events) by { assert (events + [Event(now, key)])[..|events|] == events; }
    if key in StoreAfter(events, life) { LifeAdmits(events, key, c.maxRequests, life); }
  }

  /** Consecutive lives of a key start at least one window apart. */
  lemma LivesApart(events: seq<Event>, e: Event, life: nat)
    requires life >= 1 && e.key in StoreAfter(events, life)
    ensures var c := StoreAfter(events, life)[e.key];
            var c' := StoreAfter(events + [e], life)[e.key];
            c'.expiresAt != c.expiresAt
            ==> e.now == c'.expiresAt - life && (c'.expiresAt - life) - (c.expiresAt - life) >= life
  {
    assert (events + [e])[..|events|] == events;
  }

  // ---------- Any window of time ----------

  /** How many calls for `key` are admitted in the window starting at `t`. */
  function AdmittedIn(events: seq<Event>, key: string, limit: nat, life: nat, t: int): nat {
    Admitted(events, key, limit, life, t, t + life)
  }

  /** The bound that holds after every prefix of a trace, by where the current life lies. */
  lemma {:induction false} SlidingBound(events: seq<Event>, key: string, limit: nat, life: nat, t: int)
    requires Ordered(events) && life >= 1 && limit >= 1
    ensures var n := AdmittedIn(events, key, limit, life, t);
            var store := StoreAfter(events, life);
            if events == [] || key !in store then n == 0
            else
              var c, start := store[key], store[key].expiresAt - life;
              && start <= events[|events| - 1].now
              && (c.expiresAt <= t ==> n == 0)
              && (start < t ==> n <= Min(c.count, limit) - 1)
              && (start == t ==> n <= Min(c.count, limit))
              && (t < start < t + life ==> n <= limit - 1 + Min(c.count, limit))
              && n <= 2 * limit - 1
              && (life == 1 ==> n <= limit)
  {
    if events != [] {
      var before := events[..|events| - 1];
      SlidingBound(before, key, limit, life, t);
      assert before != [] ==> before[|before| - 1].now <= events[|events| - 1].now;
    }
  }

  /** In every trace, any window of time admits at most 2 * limit - 1 calls for one key, and
      at most `limit` if it lasts one unit of the clock. */
  lemma WindowBound(events: seq<Event>, key: string, limit: nat, life: nat, t: int)
    requires Ordered(events) && life >= 1 && limit >= 1
    ensures AdmittedIn(events, key, limit, life, t) <= if life == 1 then limit else 2 * limit - 1
  {
    SlidingBound(events, key, limit, life, t);
  }

  lemma {:induction false} NoneAdmitted(events: seq<Event>, key: string, limit: nat, life: nat, from: int, to: int)
    requires limit == 0 || to <= from
    ensures Admitted(events, key, limit, life, from, to) == 0
  {
    if events != [] { NoneAdmitted(events[..|events| - 1], key, limit, life, from, to); }
  }

  // ---------- The bound is attained ----------

  function Repeat(e: Event, times: nat): seq<Event> {
    if times == 0 then [] else Repeat(e, times - 1) + [e]
  }

  lemma OneMore(events: seq<Event>, e: Event, key: string, limit: nat, life: nat, from: int, to: int)
    ensures StoreAfter(events + [e], life) == Touch(StoreAfter(events, life), e.key, e.now, life)
    ensures Admitted(events + [e], key, limit, life, from, to)
         == Admitted(events, key, limit, life, from, to)
            + (if e.key == key && from <= e.now < to && Admits(StoreAfter(events, life), key, e.now, limit)
               then 1 else 0)
  {
    assert (events + [e])[..|events|] == events;
  }

  /** Repeating a request inside its counter's life counts every one and admits those that
      still fit under the limit. */
  lemma {:induction false} RepeatInLife(events: seq<Event>, e: Event, times: nat, limit: nat, life: nat,
      from: int, to: int)
    requires from <= e.now < to && e.key in StoreAfter(events, life)
    requires e.now < StoreAfter(events, life)[e.key].expiresAt
    ensures var c := StoreAfter(events, life)[e.key];
            var store := StoreAfter(events + Repeat(e, times), life);
            && e.key in store && store[e.key] == Counter(c.count + times, c.expiresAt)
            && (c.count + times <= limit ==>
                  Admitted(events + Repeat(e, times), e.key, limit, life, from, to)
                  == Admitted(events, e.key, limit, life, from, to) + times)
  {
    hide StoreAfter, Admitted, Touch, Admits;
    if times == 0 {
      assert events + Repeat(e, 0) == events;
    } else {
      var before := events + Repeat(e, times - 1);
      RepeatInLife(events, e, times - 1, limit, life, from, to);
      assert events + Repeat(e, times) == before + [e];
      OneMore(before, e, e.key, limit, life, from, to);
      TouchInLife(StoreAfter(before, life), e.key, e.now, limit, life);
    }
  }

  /** One request at time 0, the rest of the limit at the last moment of that life, and a
      full limit at the next. */
  function Burst(key: string, limit: nat, life: nat): seq<Event>
    requires limit >= 1 && life >= 1
  {
    [Event(0, key)] + Repeat(Event(life - 1, key), limit - 1)
    + [Event(life, key)] + Repeat(Event(life, key), limit - 1)
  }

  lemma {:induction false} RepeatIs(e: Event, times: nat)
    ensures |Repeat(e, times)| == times && forall i :: 0 <= i < times ==> Repeat(e, times)[i] == e
  {
    if times > 0 { RepeatIs(e, times - 1); }
  }

  lemma BurstOrdered(key: string, limit: nat, life: nat)
    requires limit >= 1 && life >= 1
    ensures Ordered(Burst(key, limit, life))
  {
    RepeatIs(Event(life - 1, key), limit - 1);
    RepeatIs(Event(life, key), limit - 1);
  }

  /** After its first part the burst has used up one life, and its first call lies before the
      measured window. */
  lemma BurstFirstLife(key: string, limit: nat, life: nat, from: int, to: int)
    requires limit >= 1 && life >= 2 && from == life - 1 && to == from + life
    ensures var half := [Event(0, key)] + Repeat(Event(life - 1, key), limit - 1);
            && key in StoreAfter(half, life) && StoreAfter(half, life)[key] == Counter(limit, life)
            && Admitted(half, key, limit, life, from, to) == limit - 1
  {
    OneMore([], Event(0, key), key, limit, life, from, to);
    assert [] + [Event(0, key)] == [Event(0, key)];
    RepeatInLife([Event(0, key)], Event(life - 1, key), limit - 1, limit, life, from, to);
  }

  /** A full limit more is admitted at the moment that life ends. */
  lemma BurstSecondLife(half: seq<Event>, key: string, limit: nat, life: nat, from: int, to: int)
    requires limit >= 1 && life >= 1 && from <= life < to
    requires key in StoreAfter(half, life) && StoreAfter(half, life)[key].expiresAt == life
    ensures Admitted(half + [Event(life, key)] + Repeat(Event(life, key), limit - 1), key, limit, life, from, to)
         == Admitted(half, key, limit, life, from, to) + limit
  {
    hide StoreAfter, Admitted, Repeat;
    OneMore(half, Event(life, key), key, limit, life, from, to);
    RepeatInLife(half + [Event(life, key)], Event(life, key), limit - 1, limit, life, from, to);
  }

  /** For every limit and every window of at least two units some trace attains the bound. */
  lemma BoundAttained(key: string, limit: nat, life: nat)
    requires limit >= 1 && life >= 2
    ensures Ordered(Burst(key, limit, life))
    ensures AdmittedIn(Burst(key, limit, life), key, limit, life, life - 1) == 2 * limit - 1
  {
    hide Ordered, StoreAfter, Admitted, Repeat;
    BurstOrdered(key, limit, life);
    var from, to := life - 1, (life - 1) + life;
    BurstFirstLife(key, limit, life, from, to);
    BurstSecondLife([Event(0, key)] + Repeat(Event(life - 1, key), limit - 1), key, limit, life, from, to);
  }

  /** What a caller expects of a limiter: no window of time admits more than the limit. */
  ghost predicate LimitsEveryWindow(key: string, limit: nat, life: nat) {
    forall events, t :: Ordered(events) ==> AdmittedIn(events, key, limit, life, t) <= limit
  }

  /** The limiter does so if and only if the limit is at most one or no window is longer than
      one unit of the clock. */
  lemma LimitExact(key: string, limit: nat, life: nat)
    ensures LimitsEveryWindow(key, limit, life) <==> limit <= 1 || life <= 1
  {
    hide AdmittedIn, Ordered;
    if limit <= 1 || life <= 1 {
      forall events, t | Ordered(events) ensures AdmittedIn(events, key, limit, life, t) <= limit {
        AtMostLimit(events, key, limit, life, t);
      }
    } else {
      BoundAttained(key, limit, life);
    }
  }

  lemma AtMostLimit(events: seq<Event>, key: string, limit: nat, life: nat, t: int)
    requires Ordered(events) && (limit <= 1 || life <= 1)
    ensures AdmittedIn(events, key, limit, life, t) <= limit
  {
    if limit == 0 || life == 0 {
      NoneAdmitted(events, key, limit, life, t, t + life);
    } else {
      WindowBound(events, key, limit, life, t);
    }
  }

  /** With a window in seconds only limits of zero and one remain. */
  lemma ConfiguredLimitExact(key: string, c: Config)
    requires c.windowSeconds >= 1
    ensures LimitsEveryWindow(key, c.maxRequests, 1000 * c.windowSeconds) <==> c.maxRequests <= 1
  {
    LimitExact(key, c.maxRequests, 1000 * c.windowSeconds);
  }

  // ---------- Keys do not interfere ----------

  function Only(events: seq<Event>, key: string): seq<Event> {
    if events == [] then []
    else
      var e := events[|events| - 1];
      Only(events[..|events| - 1], key) + if e.key == key then [e] else []
  }

  /** Two stores hold the same counter for a key. */
  ghost predicate SameFor(a: map<string, Counter>, b: map<string, Counter>, key: string) {
    (key in a <==> key in b) && (key in a ==> a[key] == b[key])
  }

  lemma TouchIsLocal(a: map<string, Counter>, b: map<string, Counter>, key: string, e: Event, limit: nat, life: nat)
    requires SameFor(a, b, key)
    ensures e.key == key ==> SameFor(Touch(a, key, e.now, life), Touch(b, key, e.now, life), key)
                             && (Admits(a, key, e.now, limit) <==> Admits(b, key, e.now, limit))
    ensures e.key != key ==> SameFor(Touch(a, e.key, e.now, life), b, key)
  {
  }

  /** What happens to one key depends on that key's own calls alone. */
  lemma {:induction false} KeysIndependent(events: seq<Event>, key: string, limit: nat, life: nat, from: int, to: int)
    ensures SameFor(StoreAfter(events, life), StoreAfter(Only(events, key), life), key)
    ensures Admitted(events, key, limit, life, from, to) == Admitted(Only(events, key), key, limit, life, from, to)
  {
    hide Touch, Admits;
    if events != [] {
      var before, e := events[..|events| - 1], events[|events| - 1];
      KeysIndependent(before, key, limit, life, from, to);
      var all, own := StoreAfter(before, life), StoreAfter(Only(before, key), life);
      TouchIsLocal(all, own, key, e, limit, life);
      assert events == before + [e];
      OneMore(before, e, key, limit, life, from, to);
      if e.key == key {
        OneMore(Only(before, key), e, key, limit, life, from, to);
      } else {
        assert Only(events, key) == Only(before, key);
      }
    }
  }

  // ---------- Retry-After ----------

  lemma {:induction false} LifePersists(store: map<string, Counter>, events: seq<Event>, more: seq<Event>,
      key: string, life: nat)
    requires store == StoreAfter(events, life) && key in store
    requires forall e :: e in more ==> e.now < store[key].expiresAt
    ensures var later := StoreAfter(events + more, life);
            key in later && later[key].expiresAt == store[key].expiresAt && later[key].count >= store[key].count
  {
    if more == [] {
      assert events + more == events;
    } else {
      var m := more[..|more| - 1];
      LifePersists(store, events, m, key, life);
      assert (events + more)[..|events + more| - 1] == events + m;
      assert more[|more| - 1] in more;
    }
  }

  /** The time from a call until the counter it leaves expires. */
  function Remaining(events: seq<Event>, e: Event, life: nat): int
    requires e.key in StoreAfter(events + [e], life)
  {
    StoreAfter(events + [e], life)[e.key].expiresAt - e.now
  }

  lemma DeniedLeavesCounter(events: seq<Event>, e: Event, limit: nat, life: nat)
    requires life >= 1 && limit >= 1 && Ordered(events + [e])
    requires !Admits(StoreAfter(events, life), e.key, e.now, limit)
    ensures e.key in StoreAfter(events + [e], life) && 1 <= Remaining(events, e, life) <= life
    ensures StoreAfter(events + [e], life)[e.key].count > limit
  {
    OneMore(events, e, e.key, limit, life, e.now, e.now);
    assert Ordered(events) by { assert (events + [e])[..|events|] == events; }
    LifeAdmits(events, e.key, limit, life);
    if events != [] { assert (events + [e])[|events| - 1].now <= (events + [e])[|events|].now; }
  }

  /** Whatever is called meanwhile, a denied key is refused until its counter expires, and its
      first call from then on is admitted. */
  lemma DeniedUntilExpiry(events: seq<Event>, e: Event, more: seq<Event>, later: int, limit: nat, life: nat)
    requires life >= 1 && limit >= 1 && Ordered(events + [e]) && e.now <= later
    requires !Admits(StoreAfter(events, life), e.key, e.now, limit)
    ensures e.key in StoreAfter(events + [e], life)
    ensures (forall x :: x in more ==> x.now < e.now + Remaining(events, e, life)) ==>
              (Admits(StoreAfter(events + [e] + more, life), e.key, later, limit)
               <==> e.now + Remaining(events, e, life) <= later)
  {
    DeniedLeavesCounter(events, e, limit, life);
    if forall x :: x in more ==> x.now < e.now + Remaining(events, e, life) {
      LifePersists(StoreAfter(events + [e], life), events + [e], more, e.key, life);
    }
  }

  /** The wait a denied caller is told is within half a second of the time left, unless less
      than half a second is left: then it is the whole window. A caller who waits exactly that
      long is admitted, nobody else having asked since the counter expired, if and only if the
      time left is in the upper half of its second, a whole number of seconds, or below half a
      second. */
  lemma RetryAfterExact(events: seq<Event>, e: Event, more: seq<Event>, c: Config)
    requires 1 <= c.windowSeconds < U32_SIZE && 1 <= c.maxRequests && Ordered(events + [e])
    requires Decide(StoreAfter(events, 1000 * c.windowSeconds), e.key, e.now, c).Denied?
    ensures e.key in StoreAfter(events + [e], 1000 * c.windowSeconds)
    ensures var wait := Decide(StoreAfter(events, 1000 * c.windowSeconds), e.key, e.now, c).retryAfter;
            var left := Remaining(events, e, 1000 * c.windowSeconds);
            var after := StoreAfter(events + [e] + more, 1000 * c.windowSeconds);
            && 1 <= wait <= c.windowSeconds && 1 <= left <= 1000 * c.windowSeconds
            && (left >= 500 ==> -500 < 1000 * wait - left <= 500)
            && (left < 500 ==> wait == c.windowSeconds)
            && ((forall x :: x in more ==> x.now < e.now + left) ==>
                  (Decide(after, e.key, e.now + 1000 * wait, c) == Allowed
                   <==> left < 500 || left % 1000 == 0 || left % 1000 >= 500))
  {
    var life := 1000 * c.windowSeconds;
    DeniedLeavesCounter(events, e, c.maxRequests, life);
    OneMore(events, e, e.key, c.maxRequests, life, e.now, e.now);
    var wait := Decide(StoreAfter(events, life), e.key, e.now, c).retryAfter;
    RoundedWait(Remaining(events, e, life), c.windowSeconds, wait);
    DeniedUntilExpiry(events, e, more, e.now + 1000 * wait, c.maxRequests, life);
  }

  lemma RoundedWait(left: int, windowSeconds: nat, wait: nat)
    requires 1 <= left <= 1000 * windowSeconds && windowSeconds < U32_SIZE
    requires wait == RetryAfter((left + 500) / 1000, windowSeconds)
    ensures 1 <= wait <= windowSeconds
    ensures left >= 500 ==> -500 < 1000 * wait - left <= 500
    ensures left < 500 ==> wait == windowSeconds
    ensures left <= 1000 * wait <==> left < 500 || left % 1000 == 0 || left % 1000 >= 500
  {
  }
}
