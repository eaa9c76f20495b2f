/**
The relay's token bucket per client address, over real numbers: refill at a steady rate up to a burst, a bounded map
of buckets, and a sweep of idle buckets when the map is full.
*/
module RateLimiter {
  import opened Common

  const MAX_BUCKETS: nat := 10_000
  const IDLE_SWEEP_SECS: int := 60

  type Ip = nat

  datatype Bucket = Bucket(tokens: real, last: real)

  datatype Config = Config(rps: real, burst: real)

  type Buckets = map<Ip, Bucket>

  datatype Answer = Granted | Limited | MapFull

  function Max(a: nat, b: nat): nat { if a < b then b else a }

  function New(rps: nat, burst: nat): (c: Config)
    ensures c.rps == rps as real && c.burst >= 1.0 && c.burst >= rps as real && c.burst >= burst as real
    ensures c.burst == 1.0 || c.burst == rps as real || c.burst == burst as real
  {
    Config(rps as real, Max(burst, Max(rps, 1)) as real)
  }

  /** `duration_since`, which saturates at zero. */
  function Elapsed(now: real, then_: real): real { if now < then_ then 0.0 else now - then_ }

  /** The tokens of a bucket at a later time. */
  function Refilled(c: Config, b: Bucket, now: real): real {
    var t := b.tokens + Elapsed(now, b.last) * c.rps;
    if t > c.burst then c.burst else t
  }

  /** The cost the limiter charges. */
  function Charge(cost: nat): real { Max(cost, 1) as real }

  predicate Busy(b: Bucket, now: real) { Elapsed(now, b.last).Floor < IDLE_SWEEP_SECS }

  function Swept(m: Buckets, now: real): Buckets {
    map ip | ip in m && Busy(m[ip], now) :: m[ip]
  }

  /** Refill and debit one bucket, a new client starting with a full one. */
  function Debit(c: Config, m: Buckets, ip: Ip, cost: nat, now: real): (Buckets, Answer) {
    var b := if ip in m then m[ip] else Bucket(c.burst, now);
    var tokens := Refilled(c, b, now);
    if tokens >= Charge(cost) then (m[ip := Bucket(tokens - Charge(cost), now)], Granted)
    else (m[ip := Bucket(tokens, now)], Limited)
  }

  function Serve(c: Config, m: Buckets, ip: Ip, cost: nat, now: real): (Buckets, Answer) {
    if c.rps <= 0.0 then (m, Granted)
    else if |m| >= MAX_BUCKETS && ip !in m then
      var m' := Swept(m, now);
      if |m'| >= MAX_BUCKETS then (m', MapFull) else Debit(c, m', ip, cost, now)
    else Debit(c, m, ip, cost, now)
  }

  class RateLimiter {
    const config: Config
    var buckets: Buckets

    constructor (rps: nat, burst: nat)
      ensures config == New(rps, burst) && buckets == map[]
    {
      config, buckets := New(rps, burst), map[];
    }

    method Allow(ip: Ip, cost: nat, now: real) returns (ok: bool)
      modifies this`buckets
      ensures buckets == Serve(config, old(buckets), ip, cost, now).0
      ensures ok <==> Serve(config, old(buckets), ip, cost, now).1 == Granted
    {
      if !(config.rps > 0.0) {
        return true;
      }
      var charge := Max(cost, 1) as real;
      if |buckets| >= MAX_BUCKETS && ip !in buckets {
        buckets := map x | x in buckets && Elapsed(now, buckets[x].last).Floor < IDLE_SWEEP_SECS :: buckets[x];
        assert buckets == Swept(old(buckets), now);
        if |buckets| >= MAX_BUCKETS {
          return false;
        }
      }
      if ip !in buckets {
        buckets := buckets[ip := Bucket(config.burst, now)];
      }
      var b := buckets[ip];
      var tokens := b.tokens + Elapsed(now, b.last) * config.rps;
      tokens := if tokens > config.burst then config.burst else tokens;
      if tokens >= charge {
        buckets := buckets[ip := Bucket(tokens - charge, now)];
        return true;
      }
      buckets := buckets[ip := Bucket(tokens, now)];
      return false;
    }
  }

  // ----- what every request keeps

  ghost predicate Valid(c: Config, m: Buckets, now: real) {
    && |m| <= 10_000 && c.burst >= 1.0 && c.rps >= 0.0
    && forall ip | ip in m :: 0.0 <= m[ip].tokens <= c.burst && m[ip].last <= now
  }

  lemma RefillBounds(c: Config, b: Bucket, now: real)
    requires c.rps >= 0.0 && 0.0 <= b.tokens <= c.burst
    ensures 0.0 <= Refilled(c, b, now) <= c.burst
  {
    assert Elapsed(now, b.last) * c.rps >= 0.0;
  }

  lemma DebitKeeps(c: Config, m: Buckets, ip: Ip, cost: nat, now: real)
    requires Valid(c, m, now) && (ip in m || |m| < MAX_BUCKETS)
    ensures Valid(c, Debit(c, m, ip, cost, now).0, now)
  {
    RefillBounds(c, if ip in m then m[ip] else Bucket(c.burst, now), now);
    var m' := Debit(c, m, ip, cost, now).0;
    assert m'.Keys == m.Keys + {ip};
  }

  lemma SweptSmaller(m: Buckets, now: real)
    ensures |Swept(m, now)| <= |m|
  {
    assert Swept(m, now).Keys <= m.Keys;
    SubsetSize(Swept(m, now).Keys, m.Keys);
  }

  /** The map never exceeds its bound and no bucket leaves the range from zero to the burst. */
  lemma ServeKeeps(c: Config, m: Buckets, ip: Ip, cost: nat, before: real, now: real)
    requires Valid(c, m, before) && before <= now
    ensures Valid(c, Serve(c, m, ip, cost, now).0, now)
  {
    SweptSmaller(m, now);
    if |m| >= MAX_BUCKETS && ip !in m {
      if |Swept(m, now)| < MAX_BUCKETS {
        DebitKeeps(c, Swept(m, now), ip, cost, now);
      }
    } else {
      DebitKeeps(c, m, ip, cost, now);
    }
  }

  // ----- tokens as a quantity of time

  /** What a client could spend at a time not before its last refill; an absent client has a full bucket. */
  function Tokens(c: Config, m: Buckets, ip: Ip, now: real): real {
    if ip in m then Refilled(c, m[ip], now) else c.burst
  }

  predicate SweepSafe(c: Config) { 60.0 * c.rps >= c.burst }

  lemma Idle(b: Bucket, now: real)
    requires b.last <= now
    ensures Busy(b, now) <==> now - b.last < 60.0
  {
  }

  /** An idle bucket is full again, so that forgetting it changes nothing. */
  lemma IdleIsFull(c: Config, b: Bucket, now: real)
    requires SweepSafe(c) && c.rps >= 0.0 && 0.0 <= b.tokens && b.last <= now && !Busy(b, now)
    ensures Refilled(c, b, now) == c.burst
  {
    Idle(b, now);
    assert (now - b.last) * c.rps >= 60.0 * c.rps;
  }

  lemma SweepKeepsTokens(c: Config, m: Buckets, ip: Ip, now: real)
    requires SweepSafe(c) && Valid(c, m, now)
    ensures Tokens(c, Swept(m, now), ip, now) == Tokens(c, m, ip, now)
  {
    if ip in m && !Busy(m[ip], now) {
      IdleIsFull(c, m[ip], now);
    }
  }

  /** A request takes what it is granted from its own client's tokens and touches nobody else's. */
  lemma DebitSpends(c: Config, m: Buckets, who: Ip, cost: nat, now: real, ip: Ip)
    requires Valid(c, m, now)
    ensures var (m', a) := Debit(c, m, who, cost, now);
            Tokens(c, m', ip, now) + (if who == ip && a == Granted then Charge(cost) else 0.0) == Tokens(c, m, ip, now)
  {
    var b := if who in m then m[who] else Bucket(c.burst, now);
    RefillBounds(c, b, now);
    var (m', a) := Debit(c, m, who, cost, now);
    if who == ip {
      assert m'[ip].last == now && Elapsed(now, now) * c.rps == 0.0;
    }
  }

  /** Sweeping takes nothing from a client of this request: a minute refills a burst, or nothing is swept. */
  predicate NothingLost(c: Config, m: Buckets, ip: Ip) { SweepSafe(c) || ip in m || |m| < 10_000 }

  lemma ServeSpends(c: Config, m: Buckets, who: Ip, cost: nat, now: real, ip: Ip)
    requires NothingLost(c, m, who) && c.rps > 0.0 && Valid(c, m, now)
    ensures var (m', a) := Serve(c, m, who, cost, now);
            var charge := if cost == 0 then 1.0 else cost as real;
            Tokens(c, m', ip, now) + (if who == ip && a == Granted then charge else 0.0) == Tokens(c, m, ip, now)
  {
    SweptSmaller(m, now);
    if |m| >= MAX_BUCKETS && who !in m {
      SweepKeepsTokens(c, m, ip, now);
      if |Swept(m, now)| < MAX_BUCKETS {
        DebitSpends(c, Swept(m, now), who, cost, now, ip);
      }
    } else {
      DebitSpends(c, m, who, cost, now, ip);
    }
  }

  /** The refill up to a time; the refill of an interval is a difference of these. */
  function Flow(c: Config, t: real): real { c.rps * t }

  lemma FlowGrows(c: Config, t: real, now: real)
    requires c.rps >= 0.0 && t <= now
    ensures Flow(c, t) <= Flow(c, now) && Flow(c, now) - Flow(c, t) == c.rps * (now - t) == (now - t) * c.rps
  {
    assert c.rps * (now - t) >= 0.0;
    assert c.rps * (now - t) == c.rps * now - c.rps * t;
  }

  lemma TokensGrow(c: Config, m: Buckets, ip: Ip, t: real, now: real)
    requires Valid(c, m, t) && t <= now
    ensures 0.0 <= Tokens(c, m, ip, t) <= c.burst
    ensures Tokens(c, m, ip, now) <= Tokens(c, m, ip, t) + Flow(c, now) - Flow(c, t)
  {
    FlowGrows(c, t, now);
    if ip in m {
      var b := m[ip];
      RefillBounds(c, b, t);
      FlowGrows(c, b.last, t);
      FlowGrows(c, b.last, now);
    }
  }

  /** The tokens of a client are a quantity of time: what it had, plus the flow since, up to the burst. */
  lemma TokensAt(c: Config, m: Buckets, ip: Ip, t: real, now: real)
    requires Valid(c, m, t) && t <= now
    ensures var grown := Tokens(c, m, ip, t) + Flow(c, now) - Flow(c, t);
            Tokens(c, m, ip, now) == if grown > c.burst then c.burst else grown
  {
    FlowGrows(c, t, now);
    if ip in m {
      var b := m[ip];
      FlowGrows(c, b.last, t);
      FlowGrows(c, b.last, now);
    }
  }

  lemma DebitGrants(c: Config, m: Buckets, ip: Ip, cost: nat, now: real)
    requires Valid(c, m, now)
    ensures Debit(c, m, ip, cost, now).1 ==
            if Tokens(c, m, ip, now) >= (if cost == 0 then 1.0 else cost as real) then Granted else Limited
  {
    assert Elapsed(now, now) * c.rps == 0.0;
    assert Refilled(c, Bucket(c.burst, now), now) == c.burst;
  }

  lemma SweptAre(m: Buckets, now: real)
    requires forall ip | ip in m :: m[ip].last <= now
    ensures Swept(m, now).Keys == set ip | ip in m && now - m[ip].last < 60.0
  {
    forall ip | ip in m
      ensures Busy(m[ip], now) <==> now - m[ip].last < 60.0
    {
      Idle(m[ip], now);
    }
  }

  /**
  A newcomer is turned away exactly when the map is full of clients seen within a minute. Any other request is granted
  exactly when its client has the tokens: a full burst at first, and then what was left plus the rate times the time
  since, up to the burst.
  */
  lemma GrantedExactlyWhen(c: Config, m: Buckets, ip: Ip, cost: nat, now: real)
    requires NothingLost(c, m, ip) && c.rps > 0.0 && Valid(c, m, now)
    ensures var a := Serve(c, m, ip, cost, now).1;
            var grown := if ip in m then m[ip].tokens + (now - m[ip].last) * c.rps else c.burst;
            && (a == MapFull <==>
                  ip !in m && |m| >= 10_000 && |set x | x in m && now - m[x].last < 60.0| >= 10_000)
            && (a != MapFull ==>
                  (a == Granted <==>
                     (if grown > c.burst then c.burst else grown) >= (if cost == 0 then 1.0 else cost as real)))
  {
    SweptSmaller(m, now);
    SweptAre(m, now);
    assert |Swept(m, now)| == |Swept(m, now).Keys|;
    if |m| >= MAX_BUCKETS && ip !in m {
      SweepKeepsTokens(c, m, ip, now);
      DebitGrants(c, Swept(m, now), ip, cost, now);
    } else {
      DebitGrants(c, m, ip, cost, now);
    }
  }

  // ----- runs

  datatype Request = Request(ip: Ip, cost: nat, now: real)

  /** A server of requests, bounded or not. */
  type Server = (Buckets, Request) -> (Buckets, Answer)

  function Bounded(c: Config): Server { (m, r: Request) => Serve(c, m, r.ip, r.cost, r.now) }

  ghost predicate Ordered(rs: seq<Request>) { forall i, j :: 0 <= i < j < |rs| ==> rs[i].now <= rs[j].now }

  ghost predicate Between(rs: seq<Request>, t: real, end: real) {
    t <= end && Ordered(rs) && forall i :: 0 <= i < |rs| ==> t <= rs[i].now <= end
  }

  function After(serve: Server, m: Buckets, rs: seq<Request>): Buckets
    decreases |rs|
  {
    if rs == [] then m else After(serve, serve(m, rs[0]).0, rs[1..])
  }

  /** A limiter of rate zero grants every request of every run, and keeps nothing. */
  lemma {:induction false} DisabledGrantsAll(burst: nat, m: Buckets, rs: seq<Request>)
    ensures After(Bounded(New(0, burst)), m, rs) == m
    ensures forall r: Request :: Serve(New(0, burst), m, r.ip, r.cost, r.now).1 == Granted
    decreases |rs|
  {
    if rs != [] {
      DisabledGrantsAll(burst, m, rs[1..]);
    }
  }

  function Grant(r: Request, a: Answer, ip: Ip): real {
    if r.ip == ip && a == Granted then Charge(r.cost) else 0.0
  }

  /** What the requests of one client are granted in all. */
  function Spent(serve: Server, m: Buckets, rs: seq<Request>, ip: Ip): real
    decreases |rs|
  {
    if rs == [] then 0.0 else Grant(rs[0], serve(m, rs[0]).1, ip) + Spent(serve, serve(m, rs[0]).0, rs[1..], ip)
  }

  /** `serve` grants a client no more than its `level` loses beyond the flow of the time between requests. */
  ghost predicate Metered(serve: Server, ip: Ip, valid: (Buckets, real) -> bool, level: (Buckets, real) -> real,
                          flow: real -> real) {
    && (forall m, t, r: Request {:trigger serve(m, r), valid(m, t)} | valid(m, t) && t <= r.now ::
          && valid(serve(m, r).0, r.now)
          && level(serve(m, r).0, r.now) + Grant(r, serve(m, r).1, ip) <= level(m, t) + flow(r.now) - flow(t))
    && (forall m, t | valid(m, t) :: level(m, t) >= 0.0)
    && (forall t, u | t <= u :: flow(t) <= flow(u))
  }

  lemma {:induction false} SpentWithin(serve: Server, ip: Ip, valid: (Buckets, real) -> bool,
                                       level: (Buckets, real) -> real, flow: real -> real,
                                       m: Buckets, rs: seq<Request>, t: real, end: real)
    requires Metered(serve, ip, valid, level, flow) && valid(m, t) && Between(rs, t, end)
    ensures Spent(serve, m, rs, ip) <= level(m, t) + flow(end) - flow(t)
    decreases |rs|
  {
    if rs != [] {
      SpentWithin(serve, ip, valid, level, flow, serve(m, rs[0]).0, rs[1..], rs[0].now, end);
    }
  }

  lemma {:induction false} AfterValid(serve: Server, valid: (Buckets, real) -> bool, m: Buckets, rs: seq<Request>,
                                      t: real, end: real)
    requires forall m, t, r: Request {:trigger serve(m, r), valid(m, t)} | valid(m, t) && t <= r.now ::
               valid(serve(m, r).0, r.now)
    requires forall m, t, u | valid(m, t) && t <= u :: valid(m, u)
    requires valid(m, t) && Between(rs, t, end)
    ensures valid(After(serve, m, rs), end)
    decreases |rs|
  {
    if rs != [] {
      AfterValid(serve, valid, serve(m, rs[0]).0, rs[1..], rs[0].now, end);
    }
  }

  lemma LimiterMetered(c: Config, ip: Ip)
    requires SweepSafe(c) && c.rps > 0.0
    ensures Metered(Bounded(c), ip, (m, t) => Valid(c, m, t), (m, t) => Tokens(c, m, ip, t), t => Flow(c, t))
  {
    forall m, t, r: Request {:trigger Bounded(c)(m, r), Valid(c, m, t)} | Valid(c, m, t) && t <= r.now
      ensures var (m', a) := Serve(c, m, r.ip, r.cost, r.now);
              && Valid(c, m', r.now)
              && Tokens(c, m', ip, r.now) + Grant(r, a, ip) <= Tokens(c, m, ip, t) + Flow(c, r.now) - Flow(c, t)
    {
      ServeKeeps(c, m, r.ip, r.cost, t, r.now);
      ServeSpends(c, m, r.ip, r.cost, r.now, ip);
      TokensGrow(c, m, ip, t, r.now);
    }
    forall m, t | Valid(c, m, t)
      ensures Tokens(c, m, ip, t) >= 0.0
    {
      TokensGrow(c, m, ip, t, t);
    }
    forall t, u | t <= u
      ensures Flow(c, t) <= Flow(c, u)
    {
      FlowGrows(c, t, u);
    }
  }

  /** From `before` on, requests `during` the time from t to end are granted the burst and the refill at most. */
  ghost predicate Obeys(serve: Server, c: Config, before: seq<Request>, during: seq<Request>, t: real, end: real, ip: Ip) {
    Spent(serve, After(serve, map[], before), during, ip) <= c.burst + c.rps * (end - t)
  }

  /** The requests `during` come after those `before`, in the time from t to end. */
  ghost predicate Follows(before: seq<Request>, during: seq<Request>, t: real, end: real) {
    Between(during, t, end) && Ordered(before) && forall i :: 0 <= i < |before| ==> before[i].now <= t
  }

  /** In any interval no client is granted more than the burst and the refill of the interval. */
  ghost predicate Rated(serve: Server, c: Config) {
    forall before, during, t, end, ip ::
      Follows(before, during, t, end) ==> Obeys(serve, c, before, during, t, end, ip)
  }

  ghost predicate RateBounded(c: Config) { Rated(Bounded(c), c) }

  lemma AfterIsValid(c: Config, before: seq<Request>, t: real, end: real)
    requires c.rps > 0.0 && c.burst >= 1.0 && Between(before, t, end)
    ensures Valid(c, After(Bounded(c), map[], before), end)
  {
    forall m, t, r: Request {:trigger Bounded(c)(m, r), Valid(c, m, t)} | Valid(c, m, t) && t <= r.now
      ensures Valid(c, Serve(c, m, r.ip, r.cost, r.now).0, r.now)
    {
      ServeKeeps(c, m, r.ip, r.cost, t, r.now);
    }
    AfterValid(Bounded(c), (m, t) => Valid(c, m, t), map[], before, t, end);
  }

  lemma SpentTokens(c: Config, ip: Ip, m: Buckets, rs: seq<Request>, t: real, end: real)
    requires SweepSafe(c) && c.rps > 0.0 && Valid(c, m, t) && Between(rs, t, end)
    ensures Spent(Bounded(c), m, rs, ip) <= Tokens(c, m, ip, t) + Flow(c, end) - Flow(c, t)
  {
    LimiterMetered(c, ip);
    SpentWithin(Bounded(c), ip, (m, t) => Valid(c, m, t), (m, t) => Tokens(c, m, ip, t), t => Flow(c, t), m, rs, t, end);
  }

  lemma SpentFrom(c: Config, m: Buckets, rs: seq<Request>, ip: Ip, t: real, end: real)
    requires SweepSafe(c) && c.rps > 0.0 && Valid(c, m, t) && Between(rs, t, end)
    ensures Spent(Bounded(c), m, rs, ip) <= c.burst + c.rps * (end - t)
  {
    SpentTokens(c, ip, m, rs, t, end);
    TokensGrow(c, m, ip, t, t);
    FlowGrows(c, t, end);
  }

  lemma SpentBound(c: Config, before: seq<Request>, during: seq<Request>, t: real, end: real, ip: Ip)
    requires SweepSafe(c) && c.rps > 0.0 && c.burst >= 1.0 && Follows(before, during, t, end)
    ensures Obeys(Bounded(c), c, before, during, t, end, ip)
  {
    AfterIsValid(c, before, if before == [] then t else before[0].now, t);
    SpentFrom(c, After(Bounded(c), map[], before), during, ip, t, end);
  }

  lemma SpentBoundAll(c: Config)
    requires SweepSafe(c) && c.rps > 0.0 && c.burst >= 1.0
    ensures RateBounded(c)
  {
    forall before, during, t, end, ip | Follows(before, during, t, end)
      ensures Obeys(Bounded(c), c, before, during, t, end, ip)
    {
      SpentBound(c, before, during, t, end, ip);
    }
  }

  lemma OverspentAt(serve: Server, c: Config, before: seq<Request>, rs: seq<Request>, t: real, end: real, ip: Ip)
    requires before == [] && Between(rs, t, end) && Spent(serve, map[], rs, ip) > c.burst + c.rps * (end - t)
    ensures Follows(before, rs, t, end) && !Obeys(serve, c, before, rs, t, end, ip)
  {
    assert After(serve, map[], before) == map[];
  }

  lemma Overspent(serve: Server, c: Config, rs: seq<Request>, t: real, end: real, ip: Ip)
    requires Between(rs, t, end) && Spent(serve, map[], rs, ip) > c.burst + c.rps * (end - t)
    ensures !Rated(serve, c)
  {
    OverspentAt(serve, c, [], rs, t, end, ip);
  }

  // ----- against a map without a bound

  /** The limiter beside one that never forgets a bucket, fed the same requests except those refused for a full map. */
  datatype Twin = Twin(bounded: Buckets, free: Buckets, same: bool)

  function PlayOne(c: Config, w: Twin, r: Request): Twin {
    var (m, a) := Serve(c, w.bounded, r.ip, r.cost, r.now);
    if a == MapFull then Twin(m, w.free, w.same)
    else
      var (u, b) := Debit(c, w.free, r.ip, r.cost, r.now);
      Twin(m, u, w.same && a == b)
  }

  function Play(c: Config, rs: seq<Request>): Twin {
    if rs == [] then Twin(map[], map[], true) else PlayOne(c, Play(c, rs[..|rs| - 1]), rs[|rs| - 1])
  }

  /** Sweeping never changes a decision. */
  ghost predicate SweepInvisible(c: Config) {
    forall rs: seq<Request> | Ordered(rs) :: Play(c, rs).same
  }

  /** Both hold the same buckets, except for forgotten ones, which are full. */
  ghost predicate Alike(c: Config, m: Buckets, u: Buckets, now: real) {
    forall ip: Ip ::
      && (ip in m ==> ip in u && u[ip] == m[ip])
      && (ip in u && ip !in m ==> u[ip].last <= now && Refilled(c, u[ip], now) == c.burst)
  }

  lemma FullStaysFull(c: Config, b: Bucket, t: real, now: real)
    requires c.rps >= 0.0 && b.last <= t <= now && Refilled(c, b, t) == c.burst
    ensures Refilled(c, b, now) == c.burst
  {
    FlowGrows(c, b.last, t);
    FlowGrows(c, b.last, now);
    FlowGrows(c, t, now);
  }

  lemma AlikeLater(c: Config, m: Buckets, u: Buckets, t: real, now: real)
    requires c.rps >= 0.0 && t <= now && Alike(c, m, u, t)
    ensures Alike(c, m, u, now)
  {
    forall ip: Ip | ip in u && ip !in m
      ensures u[ip].last <= now && Refilled(c, u[ip], now) == c.burst
    {
      FullStaysFull(c, u[ip], t, now);
    }
  }

  lemma AlikeSwept(c: Config, m: Buckets, u: Buckets, now: real)
    requires SweepSafe(c) && Valid(c, m, now) && Alike(c, m, u, now)
    ensures Alike(c, Swept(m, now), u, now)
  {
    forall ip: Ip | ip in u && ip !in Swept(m, now)
      ensures u[ip].last <= now && Refilled(c, u[ip], now) == c.burst
    {
      if ip in m {
        IdleIsFull(c, m[ip], now);
      }
    }
  }

  lemma DebitAlike(c: Config, m: Buckets, u: Buckets, r: Request)
    requires Alike(c, m, u, r.now)
    ensures var (m', a) := Debit(c, m, r.ip, r.cost, r.now);
            var (u', b) := Debit(c, u, r.ip, r.cost, r.now);
            a == b && Alike(c, m', u', r.now)
  {
    var fresh_ := Bucket(c.burst, r.now);
    assert Elapsed(r.now, r.now) * c.rps == 0.0;
    assert Refilled(c, fresh_, r.now) == c.burst;
    assert r.ip in m ==> u[r.ip] == m[r.ip];
  }

  lemma {:induction false} PlaySame(c: Config, rs: seq<Request>)
    requires SweepSafe(c) && c.rps > 0.0 && c.burst >= 1.0 && rs != [] && Ordered(rs)
    ensures var w, now := Play(c, rs), rs[|rs| - 1].now;
            w.same && Valid(c, w.bounded, now) && Alike(c, w.bounded, w.free, now)
  {
    var before, r := rs[..|rs| - 1], rs[|rs| - 1];
    var w := Play(c, before);
    var t := if before == [] then r.now else before[|before| - 1].now;
    if before != [] {
      PlaySame(c, before);
    }
    PlayStep(c, w, r, t);
  }

  lemma PlayStep(c: Config, w: Twin, r: Request, t: real)
    requires SweepSafe(c) && c.rps > 0.0 && t <= r.now && w.same && Valid(c, w.bounded, t)
    requires Alike(c, w.bounded, w.free, t)
    ensures var w' := PlayOne(c, w, r);
            w'.same && Valid(c, w'.bounded, r.now) && Alike(c, w'.bounded, w'.free, r.now)
  {
    ServeKeeps(c, w.bounded, r.ip, r.cost, t, r.now);
    AlikeLater(c, w.bounded, w.free, t, r.now);
    AlikeSwept(c, w.bounded, w.free, r.now);
    DebitAlike(c, w.bounded, w.free, r);
    DebitAlike(c, Swept(w.bounded, r.now), w.free, r);
  }

  // ----- when the sweep is too early

  /** The map after client 0 spent its whole burst and clients 1 to n one token each, all at time zero. */
  function Crowd(c: Config, n: nat): Buckets {
    if n == 0 then map[0 := Bucket(0.0, 0.0)] else Crowd(c, n - 1)[n := Bucket(c.burst - 1.0, 0.0)]
  }

  lemma {:induction false} CrowdSize(c: Config, n: nat)
    ensures |Crowd(c, n)| == n + 1 && 0 in Crowd(c, n) && Crowd(c, n)[0] == Bucket(0.0, 0.0)
    ensures forall i :: i in Crowd(c, n) <==> 0 <= i <= n
    ensures forall i | i in Crowd(c, n) :: Crowd(c, n)[i].last == 0.0
  {
    if n > 0 {
      CrowdSize(c, n - 1);
    }
  }

  function Newcomer(i: nat): Request { Request(i, 1, 0.0) }

  /** Client 0 empties its bucket and n others come, all at time zero. */
  function Rush(burst: nat, n: nat): seq<Request> {
    [Request(0, burst, 0.0)] + seq(n, i requires 0 <= i < n => Newcomer(i + 1))
  }

  lemma NewcomerServed(c: Config, n: nat)
    requires c.rps > 0.0 && c.burst >= 1.0 && n + 1 < MAX_BUCKETS
    ensures Serve(c, Crowd(c, n), n + 1, 1, 0.0) == (Crowd(c, n + 1), Granted)
    ensures Debit(c, Crowd(c, n), n + 1, 1, 0.0) == (Crowd(c, n + 1), Granted)
  {
    CrowdSize(c, n);
    var b := Bucket(c.burst, 0.0);
    assert Elapsed(0.0, 0.0) * c.rps == 0.0;
    assert Refilled(c, b, 0.0) == c.burst && Charge(1) == 1.0;
  }

  lemma FirstServed(c: Config, burst: nat)
    requires c.rps > 0.0 && burst >= 1 && c.burst == burst as real
    ensures Serve(c, map[], 0, burst, 0.0) == (Crowd(c, 0), Granted) == Debit(c, map[], 0, burst, 0.0)
  {
    assert Elapsed(0.0, 0.0) * c.rps == 0.0;
    var none: Buckets := map[];
    assert none[0 := Bucket(0.0, 0.0)] == Crowd(c, 0);
  }

  lemma RushSnoc(burst: nat, n: nat)
    ensures Rush(burst, n + 1) == Rush(burst, n) + [Newcomer(n + 1)]
  {
  }

  lemma PlaySnoc(c: Config, rs: seq<Request>, r: Request)
    ensures Play(c, rs + [r]) == PlayOne(c, Play(c, rs), r)
  {
    assert (rs + [r])[..|rs|] == rs;
  }

  lemma {:induction false} AfterSnoc(serve: Server, m: Buckets, rs: seq<Request>, r: Request, ip: Ip)
    ensures After(serve, m, rs + [r]) == serve(After(serve, m, rs), r).0
    ensures Spent(serve, m, rs + [r], ip) == Spent(serve, m, rs, ip) + Grant(r, serve(After(serve, m, rs), r).1, ip)
    decreases |rs|
  {
    if rs == [] {
      assert (rs + [r])[1..] == [];
    } else {
      assert (rs + [r])[1..] == rs[1..] + [r];
      AfterSnoc(serve, serve(m, rs[0]).0, rs[1..], r, ip);
    }
  }

  lemma {:induction false} RushFills(c: Config, burst: nat, n: nat)
    requires c.rps > 0.0 && burst >= 1 && c.burst == burst as real && n < MAX_BUCKETS
    ensures Play(c, Rush(burst, n)) == Twin(Crowd(c, n), Crowd(c, n), true)
    ensures After(Bounded(c), map[], Rush(burst, n)) == Crowd(c, n)
    ensures Spent(Bounded(c), map[], Rush(burst, n), 0) == c.burst
  {
    if n == 0 {
      FirstServed(c, burst);
      assert Rush(burst, 0) == [] + [Request(0, burst, 0.0)];
      PlaySnoc(c, [], Request(0, burst, 0.0));
      AfterSnoc(Bounded(c), map[], [], Request(0, burst, 0.0), 0);
    } else {
      RushFills(c, burst, n - 1);
      RushSnoc(burst, n - 1);
      NewcomerServed(c, n - 1);
      PlaySnoc(c, Rush(burst, n - 1), Newcomer(n));
      AfterSnoc(Bounded(c), map[], Rush(burst, n - 1), Newcomer(n), 0);
    }
  }

  /** A newcomer a minute later sweeps the whole crowd. */
  lemma LatecomerSweeps(c: Config, n: nat)
    requires c.rps > 0.0 && c.burst >= 1.0 && n == MAX_BUCKETS
    ensures Serve(c, Crowd(c, n - 1), n, 1, 60.0) == (map[n := Bucket(c.burst - 1.0, 60.0)], Granted)
    ensures Debit(c, Crowd(c, n - 1), n, 1, 60.0) == (Crowd(c, n - 1)[n := Bucket(c.burst - 1.0, 60.0)], Granted)
  {
    var m := Crowd(c, n - 1);
    CrowdSize(c, n - 1);
    assert Swept(m, 60.0) == map[];
    assert Elapsed(60.0, 60.0) * c.rps == 0.0;
  }

  /** And client 0 finds a full bucket, where only a minute's refill was due. */
  lemma DrainedReturns(c: Config, burst: nat, m: Buckets, u: Buckets, n: nat)
    requires c.rps > 0.0 && burst >= 1 && c.burst == burst as real && !SweepSafe(c) && n == MAX_BUCKETS
    requires m == map[n := Bucket(c.burst - 1.0, 60.0)] && u == Crowd(c, n - 1)[n := Bucket(c.burst - 1.0, 60.0)]
    ensures Serve(c, m, 0, burst, 60.0).1 == Granted && Debit(c, u, 0, burst, 60.0).1 == Limited
  {
    assert Elapsed(60.0, 60.0) * c.rps == 0.0;
    CrowdSize(c, n - 1);
    assert u[0] == Bucket(0.0, 0.0);
    assert |m| == 1;
  }

  function Comeback(burst: nat, n: nat): seq<Request>
    requires n > 0
  {
    Rush(burst, n - 1) + [Request(n, 1, 60.0)] + [Request(0, burst, 60.0)]
  }

  lemma ComebackRun(c: Config, burst: nat, n: nat)
    requires c.rps > 0.0 && burst >= 1 && c.burst == burst as real && !SweepSafe(c) && n == MAX_BUCKETS
    ensures !Play(c, Comeback(burst, n)).same
    ensures Spent(Bounded(c), map[], Comeback(burst, n), 0) == 2.0 * c.burst
  {
    var rush, late, back := Rush(burst, n - 1), Request(n, 1, 60.0), Request(0, burst, 60.0);
    RushFills(c, burst, n - 1);
    LatecomerSweeps(c, n);
    PlaySnoc(c, rush, late);
    AfterSnoc(Bounded(c), map[], rush, late, 0);
    DrainedReturns(c, burst, map[n := Bucket(c.burst - 1.0, 60.0)], Crowd(c, n - 1)[n := Bucket(c.burst - 1.0, 60.0)], n);
    PlaySnoc(c, rush + [late], back);
    AfterSnoc(Bounded(c), map[], rush + [late], back, 0);
  }

  lemma ComebackOrdered(burst: nat, n: nat, rs: seq<Request>)
    requires n > 0 && rs == Comeback(burst, n)
    ensures Between(rs, 0.0, 60.0)
  {
    assert forall i :: 0 <= i < n ==> rs[i].now == 0.0;
    assert |rs| == n + 2 && rs[n].now == 60.0 && rs[n + 1].now == 60.0;
  }

  lemma TooEarly(c: Config, burst: nat, n: nat, rs: seq<Request>)
    requires c.rps > 0.0 && burst >= 1 && c.burst == burst as real && !SweepSafe(c)
    requires n == MAX_BUCKETS && rs == Comeback(burst, n)
    ensures Between(rs, 0.0, 60.0) && !Play(c, rs).same
    ensures Spent(Bounded(c), map[], rs, 0) > c.burst + c.rps * (60.0 - 0.0)
  {
    ComebackRun(c, burst, n);
    ComebackOrdered(burst, n, rs);
  }

  /** The rate bound holds exactly when a minute refills a whole burst. */
  lemma BoundedExactlyWhen(rps: nat, burst: nat)
    requires rps > 0
    ensures RateBounded(New(rps, burst)) <==> 60.0 * New(rps, burst).rps >= New(rps, burst).burst
  {
    var c := New(rps, burst);
    if SweepSafe(c) {
      SpentBoundAll(c);
    } else {
      var cap, n := Max(burst, Max(rps, 1)), MAX_BUCKETS;
      var rs := Comeback(cap, n);
      TooEarly(c, cap, n, rs);
      Overspent(Bounded(c), c, rs, 0.0, 60.0, 0);
    }
  }

  /** And so does the sweep go unnoticed. */
  lemma InvisibleExactlyWhen(rps: nat, burst: nat)
    requires rps > 0
    ensures SweepInvisible(New(rps, burst)) <==> 60.0 * New(rps, burst).rps >= New(rps, burst).burst
  {
    var c := New(rps, burst);
    if SweepSafe(c) {
      forall rs: seq<Request> | Ordered(rs)
        ensures Play(c, rs).same
      {
        if rs != [] {
          PlaySame(c, rs);
        }
      }
    } else {
      var cap, n := Max(burst, Max(rps, 1)), MAX_BUCKETS;
      TooEarly(c, cap, n, Comeback(cap, n));
    }
  }
}
