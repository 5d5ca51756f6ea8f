/**
 The per-IP token bucket with background eviction (server/internal/httpapi/middleware.go).
 Times and durations are integer nanoseconds.
 */
module RateLimiter {
  import opened Common

  const FIVE_MINUTES := 5 * 60 * 1_000_000_000

  datatype Bucket = Bucket(tokens: int, lastSeen: int)
  datatype Result = Result(allowed: bool, remaining: int, resetAt: int)

  /** Go's integer division truncates toward zero. */
  function TruncDiv(a: int, b: int): int
    requires b > 0
  {
    if a >= 0 then a / b else -(-a / b)
  }

  /** allowWithInfo on one bucket: the bucket afterwards, and the answer. */
  function Allow(bucket: Option<Bucket>, limit: int, refill: int, now: int): (Bucket, Result)
    requires refill > 0
  {
    match bucket
    case None => (Bucket(limit - 1, now), Result(true, limit - 1, now + refill))
    case Some(b) =>
      var refilled := TruncDiv(now - b.lastSeen, refill);
      var filled := if refilled > 0 then Bucket(Min(b.tokens + refilled, limit), now) else b;
      if filled.tokens <= 0 then (filled, Result(false, 0, filled.lastSeen + refill))
      else (filled.(tokens := filled.tokens - 1), Result(true, filled.tokens - 1, now + refill))
  }

  function Min(a: int, b: int): int { if a <= b then a else b }

  function Find(buckets: map<string, Bucket>, ip: string): Option<Bucket> {
    if ip in buckets then Some(buckets[ip]) else None
  }

  function Evicted(buckets: map<string, Bucket>, now: int): map<string, Bucket> {
    map ip | ip in buckets && !(buckets[ip].lastSeen < now - FIVE_MINUTES) :: buckets[ip]
  }

  class RateLimiter {
    var buckets: map<string, Bucket>
    const limit: int
    const refill: int
    ghost var log: seq<Entry>  // the answers given so far

    ghost function View(): System
      reads this
    {
      System(buckets, log)
    }

    /** A window shorter than `limit` nanoseconds, or no limit, makes the source divide by zero. */
    constructor (limit: int, window: int)
      requires 0 < limit <= window
      ensures View() == START && this.limit == limit && this.refill == window / limit
      ensures refill > 0 && limit * refill <= window
    {
      buckets, log := map[], [];
      this.limit := limit;
      this.refill := window / limit;
      DivideEvenly(window, limit);
    }

    method AllowWithInfo(ip: string, now: int) returns (r: Result)
      requires limit > 0 && refill > 0
      modifies this
      ensures r == Allow(Find(old(buckets), ip), limit, refill, now).1
      ensures View() == Step(old(View()), Event.Request(ip, now), Config(limit, refill))
    {
      r := Take(ip, now);
      log := log + [Entry(ip, now, r)];
    }

    method Take(ip: string, now: int) returns (r: Result)
      requires refill > 0
      modifies this`buckets
      ensures buckets == old(buckets)[ip := Allow(Find(old(buckets), ip), limit, refill, now).0]
      ensures r == Allow(Find(old(buckets), ip), limit, refill, now).1
    {
      if ip !in buckets {
        buckets := buckets[ip := Bucket(limit - 1, now)];
        return Result(true, limit - 1, now + refill);
      }
      var b := buckets[ip];
      var elapsed := now - b.lastSeen;
      var refilled := TruncDiv(elapsed, refill);
      if refilled > 0 {
        b := b.(tokens := b.tokens + refilled);
        if b.tokens > limit { b := b.(tokens := limit); }
        b := b.(lastSeen := now);
      }
      if b.tokens <= 0 {
        buckets := buckets[ip := b];
        return Result(false, 0, b.lastSeen + refill);
      }
      b := b.(tokens := b.tokens - 1);
      buckets := buckets[ip := b];
      return Result(true, b.tokens, now + refill);
    }

    method Evict(now: int)
      modifies this`buckets
      ensures buckets == Evicted(old(buckets), now)
      ensures forall ip :: ip in buckets <==> ip in old(buckets) && now - old(buckets)[ip].lastSeen <= 300_000_000_000
      ensures forall ip | ip in buckets :: buckets[ip] == old(buckets)[ip]
      ensures limit > 0 && refill > 0 ==> View() == Step(old(View()), Event.Evict(now), Config(limit, refill))
    {
      var cutoff := now - FIVE_MINUTES;
      var ips := buckets.Keys;
      while ips != {}
        invariant ips <= old(buckets).Keys
        invariant forall ip :: ip in buckets <==> ip in old(buckets) && (ip in ips || !(old(buckets)[ip].lastSeen < cutoff))
        invariant forall ip | ip in buckets :: buckets[ip] == old(buckets)[ip]
        decreases |ips|
      {
        var ip :| ip in ips;
        ips := ips - {ip};
        if buckets[ip].lastSeen < cutoff { buckets := buckets - {ip}; }
      }
    }
  }

  lemma DivideEvenly(a: int, b: int)
    requires 0 < b <= a
    ensures a / b > 0 && b * (a / b) <= a
  {
  }

  // ---- Runs of one limiter ----

  datatype Event = Request(ip: string, at: int) | Evict(at: int)
  datatype Entry = Entry(ip: string, at: int, result: Result)
  datatype System = System(buckets: map<string, Bucket>, log: seq<Entry>)
  datatype Config = Config(limit: int, refill: int)

  type ValidConfig = c: Config | c.limit > 0 && c.refill > 0 witness Config(1, 1)

  const START := System(map[], [])

  function Step(s: System, e: Event, c: ValidConfig): System {
    match e
    case Request(ip, at) =>
      var r := Allow(Find(s.buckets, ip), c.limit, c.refill, at);
      System(s.buckets[ip := r.0], s.log + [Entry(ip, at, r.1)])
    case Evict(at) => s.(buckets := Evicted(s.buckets, at))
  }

  function Run(events: seq<Event>, c: ValidConfig): System {
    if events == [] then START else Step(Run(events[..|events| - 1], c), events[|events| - 1], c)
  }

  predicate Monotone(events: seq<Event>) {
    forall i, j | 0 <= i < j < |events| :: events[i].at <= events[j].at
  }

  function Last(events: seq<Event>): int
    requires events != []
  {
    events[|events| - 1].at
  }

  /** The same events without the background evictions. */
  function Requests(events: seq<Event>): seq<Event> {
    if events == [] then []
    else Requests(events[..|events| - 1]) + (if events[|events| - 1].Request? then [events[|events| - 1]] else [])
  }

  // ---- Rounding ----

  lemma FloorSum(a: int, b: int, r: int)
    requires a >= 0 && b >= 0 && r > 0
    ensures a / r + b / r <= (a + b) / r
    ensures b < r ==> (a + b) / r <= a / r + 1
    ensures a / r <= (a + b) / r
  {
    var q := a / r + b / r;
    assert (a + b) == r * q + (a % r + b % r);
    FloorAtLeast(a + b, q, a % r + b % r, r);
    if b < r {
      assert a + b == r * (a / r) + (a % r + b);
      FloorAtMost(a + b, a / r, a % r + b, r);
    }
  }

  lemma FloorAtLeast(n: int, q: int, rest: int, r: int)
    requires n == r * q + rest && rest >= 0 && r > 0
    ensures q <= n / r
  {
    assert r * (n / r) + n % r == n;
    if n / r < q {
      MulMonotone(r, n / r + 1, q);
    }
  }

  lemma FloorAtMost(n: int, q: int, rest: int, r: int)
    requires n == r * q + rest && rest < 2 * r && r > 0
    ensures n / r <= q + 1
  {
    assert r * (n / r) + n % r == n;
    if n / r > q + 1 {
      MulMonotone(r, q + 2, n / r);
    }
  }

  lemma MulMonotone(r: int, a: int, b: int)
    requires r > 0 && a <= b
    ensures r * a <= r * b
  {
  }

  // ---- The admission bound ----

  predicate InWindow(x: Entry, ip: string, s: int, e: int) { x.ip == ip && s <= x.at <= e }

  /** Requests of one IP admitted in [s, e]. */
  function Admitted(log: seq<Entry>, ip: string, s: int, e: int): nat {
    if log == [] then 0
    else Admitted(log[..|log| - 1], ip, s, e)
         + (if InWindow(log[|log| - 1], ip, s, e) && log[|log| - 1].result.allowed then 1 else 0)
  }

  predicate Seen(log: seq<Entry>, ip: string, s: int, e: int) {
    exists k :: 0 <= k < |log| && InWindow(log[k], ip, s, e)
  }

  /** Buckets rest between 0 and limit - 1 tokens, last touched in the past. */
  ghost predicate BucketsOK(buckets: map<string, Bucket>, now: int, c: ValidConfig) {
    forall ip | ip in buckets :: 0 <= buckets[ip].tokens < c.limit && buckets[ip].lastSeen <= now
  }

  /** Admissions so far plus tokens left never exceed the limit plus what was refilled since s. */
  predicate Potential(n: nat, b: Bucket, s: int, c: ValidConfig) {
    if b.lastSeen >= s then n + b.tokens <= c.limit + (b.lastSeen - s) / c.refill
    else n + b.tokens < c.limit && s - b.lastSeen < c.refill
  }

  /** A bucket was last touched by a logged request of its IP. */
  ghost predicate TouchLogged(st: System) {
    forall ip | ip in st.buckets :: TouchedAt(st.log, ip, st.buckets[ip].lastSeen)
  }

  predicate TouchedAt(log: seq<Entry>, ip: string, at: int) {
    exists k :: 0 <= k < |log| && log[k].ip == ip && log[k].at == at
  }

  ghost predicate WindowInv(st: System, now: int, ip: string, s: int, e: int, c: ValidConfig) {
    && BucketsOK(st.buckets, now, c)
    && (!Seen(st.log, ip, s, e) ==> Admitted(st.log, ip, s, e) == 0)
    && (Seen(st.log, ip, s, e) ==> ip in st.buckets)
    && (Seen(st.log, ip, s, e) && now <= e ==> Potential(Admitted(st.log, ip, s, e), st.buckets[ip], s, c))
    && Admitted(st.log, ip, s, e) <= c.limit + (e - s) / c.refill
  }

  /** One in-window request, from a bucket whose potential is known. */
  lemma PotentialStep(n: nat, seen: bool, bucket: Option<Bucket>, s: int, now: int, c: ValidConfig)
    requires s <= now
    requires bucket.Some? ==> 0 <= bucket.value.tokens < c.limit && bucket.value.lastSeen <= now
    requires seen ==> bucket.Some? && Potential(n, bucket.value, s, c)
    requires !seen ==> n == 0 && (bucket.Some? ==> bucket.value.lastSeen < s)
    ensures var r := Allow(bucket, c.limit, c.refill, now);
            Potential(n + (if r.1.allowed then 1 else 0), r.0, s, c) && 0 <= r.0.tokens < c.limit && r.0.lastSeen <= now
  {
    FloorSum(now - s, 0, c.refill);
    if bucket.Some? {
      var b := bucket.value;
      if b.lastSeen >= s {
        FloorSum(b.lastSeen - s, now - b.lastSeen, c.refill);
      } else if seen {
        FloorSum(now - s, s - b.lastSeen, c.refill);
      }
    }
  }

  lemma LogStep(log: seq<Entry>, x: Entry)
    ensures (log + [x])[..|log|] == log && (log + [x])[|log|] == x
    ensures forall ip, at :: TouchedAt(log + [x], ip, at) <==> TouchedAt(log, ip, at) || (x.ip == ip && x.at == at)
    ensures forall ip, s, e :: Seen(log + [x], ip, s, e) <==> Seen(log, ip, s, e) || InWindow(x, ip, s, e)
  {
    var more := log + [x];
    assert forall k | 0 <= k < |log| :: more[k] == log[k];
    assert more[|log|] == x;
    forall ip, at ensures TouchedAt(more, ip, at) <==> TouchedAt(log, ip, at) || (x.ip == ip && x.at == at) {
      if k :| 0 <= k < |log| && log[k].ip == ip && log[k].at == at { assert more[k].ip == ip; }
    }
    forall ip, s, e ensures Seen(more, ip, s, e) <==> Seen(log, ip, s, e) || InWindow(x, ip, s, e) {
      if k :| 0 <= k < |log| && InWindow(log[k], ip, s, e) { assert InWindow(more[k], ip, s, e); }
    }
  }

  /** Every run without evictions, or with evictions that change nothing, keeps these. */
  ghost predicate Basic(st: System, now: int, c: ValidConfig) {
    && BucketsOK(st.buckets, now, c)
    && TouchLogged(st)
    && (forall k | 0 <= k < |st.log| :: st.log[k].at <= now && st.log[k].ip in st.buckets)
  }

  lemma AllowBasic(bucket: Option<Bucket>, now: int, c: ValidConfig)
    requires bucket.Some? ==> 0 <= bucket.value.tokens < c.limit && bucket.value.lastSeen <= now
    ensures var b := Allow(bucket, c.limit, c.refill, now).0;
            0 <= b.tokens < c.limit && b.lastSeen <= now
            && (b.lastSeen == now || (bucket.Some? && b.lastSeen == bucket.value.lastSeen))
  {
  }

  lemma BasicStep(st: System, before: int, e: Event, c: ValidConfig)
    requires Basic(st, before, c) && e.Request? && before <= e.at
    ensures Basic(Step(st, e, c), e.at, c)
  {
    AllowBasic(Find(st.buckets, e.ip), e.at, c);
    LogStep(st.log, Entry(e.ip, e.at, Allow(Find(st.buckets, e.ip), c.limit, c.refill, e.at).1));
  }

  ghost predicate AllRequests(events: seq<Event>) { forall i | 0 <= i < |events| :: events[i].Request? }

  lemma {:induction false} RunBasic(events: seq<Event>, c: ValidConfig)
    requires Monotone(events) && AllRequests(events)
    ensures Basic(Run(events, c), if events == [] then 0 else Last(events), c)
  {
    if events != [] {
      var before, e := events[..|events| - 1], events[|events| - 1];
      assert forall i | 0 <= i < |before| :: before[i] == events[i];
      RunBasic(before, c);
      if before == [] {
        BasicStep(START, e.at, e, c);
      } else {
        BasicStep(Run(before, c), Last(before), e, c);
      }
    }
  }

  lemma WindowStep(st: System, before: int, r: Event, ip: string, s: int, e: int, c: ValidConfig)
    requires Basic(st, before, c) && WindowInv(st, before, ip, s, e, c) && r.Request? && before <= r.at && s <= e
    ensures WindowInv(Step(st, r, c), r.at, ip, s, e, c)
  {
    var x := Entry(r.ip, r.at, Allow(Find(st.buckets, r.ip), c.limit, c.refill, r.at).1);
    LogStep(st.log, x);
    BasicStep(st, before, r, c);
    if InWindow(x, ip, s, e) {
      WindowInside(st, before, r, ip, s, e, c);
    } else {
      assert Admitted(st.log + [x], ip, s, e) == Admitted(st.log, ip, s, e);
    }
  }

  lemma WindowInside(st: System, before: int, r: Event, ip: string, s: int, e: int, c: ValidConfig)
    requires Basic(st, before, c) && WindowInv(st, before, ip, s, e, c) && r.Request? && before <= r.at
    requires r.ip == ip && s <= r.at <= e
    ensures var answer, log := Allow(Find(st.buckets, ip), c.limit, c.refill, r.at), Step(st, r, c).log;
      && Potential(Admitted(log, ip, s, e), answer.0, s, c)
      && Admitted(log, ip, s, e) <= c.limit + (e - s) / c.refill
  {
    var answer := Allow(Find(st.buckets, ip), c.limit, c.refill, r.at);
    LogStep(st.log, Entry(ip, r.at, answer.1));
    var n, seen := Admitted(st.log, ip, s, e), Seen(st.log, ip, s, e);
    if !seen && ip in st.buckets {
      assert TouchedAt(st.log, ip, st.buckets[ip].lastSeen);
      var k :| 0 <= k < |st.log| && st.log[k].ip == ip && st.log[k].at == st.buckets[ip].lastSeen;
      assert !InWindow(st.log[k], ip, s, e);
    }
    PotentialStep(n, seen, Find(st.buckets, ip), s, r.at, c);
    PotentialBounds(n + (if answer.1.allowed then 1 else 0), answer.0, s, e, c);
  }

  lemma PotentialBounds(n: nat, b: Bucket, s: int, e: int, c: ValidConfig)
    requires Potential(n, b, s, c) && b.tokens >= 0 && b.lastSeen <= e && s <= e
    ensures n <= c.limit + (e - s) / c.refill
  {
    FloorSum(e - s, 0, c.refill);
    if b.lastSeen >= s { FloorSum(b.lastSeen - s, e - b.lastSeen, c.refill); }
  }

  lemma {:induction false} RunWindow(events: seq<Event>, ip: string, s: int, e: int, c: ValidConfig)
    requires Monotone(events) && AllRequests(events) && s <= e
    ensures WindowInv(Run(events, c), if events == [] then 0 else Last(events), ip, s, e, c)
  {
    FloorSum(e - s, 0, c.refill);
    if events != [] {
      var before, r := events[..|events| - 1], events[|events| - 1];
      assert forall i | 0 <= i < |before| :: before[i] == events[i];
      RunWindow(before, ip, s, e, c);
      RunBasic(before, c);
      if before == [] {
        WindowStep(START, r.at, r, ip, s, e, c);
      } else {
        WindowStep(Run(before, c), Last(before), r, ip, s, e, c);
      }
    }
  }

  // ---- Evictions cannot be observed ----

  /** `kept` never evicts. A bucket missing from `buckets` alone has been idle for over five minutes. */
  ghost predicate Similar(buckets: map<string, Bucket>, kept: map<string, Bucket>, now: int) {
    && (forall ip | ip in buckets :: ip in kept && kept[ip] == buckets[ip])
    && (forall ip | ip in kept && ip !in buckets :: kept[ip].lastSeen + FIVE_MINUTES < now)
  }

  /** An idle bucket answers as a new one, once five minutes refill it completely. */
  lemma IdleIsNew(b: Bucket, now: int, c: ValidConfig)
    requires b.lastSeen + FIVE_MINUTES < now && 0 <= b.tokens
    requires c.limit * c.refill <= FIVE_MINUTES + 1
    ensures Allow(Some(b), c.limit, c.refill, now) == Allow(None, c.limit, c.refill, now)
  {
    var elapsed := now - b.lastSeen;
    FloorAtLeast(elapsed, c.limit, elapsed - c.refill * c.limit, c.refill);
  }

  /** The requests of a run are a run in time order, ending no later. */
  lemma {:induction false} RequestsOrdered(events: seq<Event>)
    requires Monotone(events)
    ensures Monotone(Requests(events)) && AllRequests(Requests(events))
    ensures Requests(events) != [] ==> events != [] && Last(Requests(events)) <= Last(events)
    ensures |Requests(events)| <= |events|
  {
    if events != [] {
      RequestsOrdered(events[..|events| - 1]);
      RequestsExtend(events);
    }
  }

  lemma {:induction false} RunSimilar(events: seq<Event>, c: ValidConfig)
    requires Monotone(events) && c.limit * c.refill <= FIVE_MINUTES + 1
    ensures Run(events, c).log == Run(Requests(events), c).log
    ensures events != [] ==> Similar(Run(events, c).buckets, Run(Requests(events), c).buckets, Last(events))
    ensures events == [] ==> Run(events, c) == Run(Requests(events), c) == START
  {
    if events != [] {
      var before, e := events[..|events| - 1], events[|events| - 1];
      assert forall i | 0 <= i < |before| :: before[i] == events[i];
      RunSimilar(before, c);
      RequestsOrdered(before);
      RunBasic(Requests(before), c);
      assert events == before + [e];
      RunAppend(before, e, c);
      RequestsAppend(before, e);
      if e.Request? { RunAppend(Requests(before), e, c); } else { assert Requests(events) == Requests(before); }
      SimilarStep(Run(before, c), Run(Requests(before), c), if before == [] then e.at else Last(before), e, c);
    }
  }

  lemma RequestsExtend(events: seq<Event>)
    requires events != [] && Monotone(events)
    requires var before := Requests(events[..|events| - 1]);
             Monotone(before) && AllRequests(before) && (before != [] ==> |events| > 1 && Last(before) <= events[|events| - 2].at)
    ensures Monotone(Requests(events)) && AllRequests(Requests(events))
    ensures Requests(events) != [] ==> Last(Requests(events)) <= Last(events)
    ensures events[|events| - 1].Request? ==>
              Requests(events)[..|Requests(events)| - 1] == Requests(events[..|events| - 1])
              && Requests(events)[|Requests(events)| - 1] == events[|events| - 1]
  {
    var before, e := Requests(events[..|events| - 1]), events[|events| - 1];
    if before != [] {
      assert events[|events| - 2].at <= e.at;
      assert forall i | 0 <= i < |before| :: before[i].at <= Last(before);
    }
  }

  lemma SimilarStep(st: System, kept: System, before: int, e: Event, c: ValidConfig)
    requires st.log == kept.log && Similar(st.buckets, kept.buckets, before) && before <= e.at
    requires BucketsOK(kept.buckets, before, c) && c.limit * c.refill <= FIVE_MINUTES + 1
    ensures var kept' := if e.Request? then Step(kept, e, c) else kept;
            Step(st, e, c).log == kept'.log && Similar(Step(st, e, c).buckets, kept'.buckets, e.at)
  {
    if e.Request? && e.ip in kept.buckets && e.ip !in st.buckets {
      IdleIsNew(kept.buckets[e.ip], e.at, c);
    }
  }

  // ---- Main results ----

  /**
   However often evictions happen, the answers are those of a limiter that never evicts,
   exactly when a full refill takes no longer than the idle time eviction waits for.
   */
  lemma EvictionUnobservable(c: ValidConfig)
    ensures c.limit * c.refill <= FIVE_MINUTES + 1
       <==> forall events | Monotone(events) :: Run(events, c).log == Run(Requests(events), c).log
  {
    if c.limit * c.refill <= FIVE_MINUTES + 1 {
      forall events | Monotone(events) ensures Run(events, c).log == Run(Requests(events), c).log {
        RunSimilar(events, c);
      }
    } else {
      EvictionObserved(c);
    }
  }

  /** A limiter built for a window of at most five minutes is such a limiter. */
  lemma ShortWindow(limit: int, window: int, events: seq<Event>)
    requires 0 < limit <= window <= FIVE_MINUTES && Monotone(events)
    ensures window / limit > 0
    ensures var c := Config(limit, window / limit); Run(events, c).log == Run(Requests(events), c).log
  {
    DivideEvenly(window, limit);
    RunSimilar(events, Config(limit, window / limit));
  }

  /** At most limit + floor((e - s) / refill) requests of one IP are admitted in any interval [s, e]. */
  ghost predicate AdmissionBounded(events: seq<Event>, c: ValidConfig) {
    forall ip, s, e | s <= e :: Admitted(Run(events, c).log, ip, s, e) <= c.limit + (e - s) / c.refill
  }

  /** Without evictions the bound always holds. */
  lemma AdmissionBoundOfRequests(events: seq<Event>, c: ValidConfig)
    requires Monotone(events) && AllRequests(events)
    ensures AdmissionBounded(events, c)
  {
    forall ip, s, e | s <= e ensures Admitted(Run(events, c).log, ip, s, e) <= c.limit + (e - s) / c.refill {
      RunWindow(events, ip, s, e, c);
    }
  }

  /** With evictions anywhere it holds exactly when a full refill takes no longer than the idle time eviction waits for. */
  lemma AdmissionBound(c: ValidConfig)
    ensures c.limit * c.refill <= FIVE_MINUTES + 1 <==> forall events | Monotone(events) :: AdmissionBounded(events, c)
  {
    if c.limit * c.refill <= FIVE_MINUTES + 1 {
      forall events | Monotone(events) ensures AdmissionBounded(events, c) {
        RunSimilar(events, c);
        RequestsOrdered(events);
        AdmissionBoundOfRequests(Requests(events), c);
      }
    } else {
      TwoBursts(c);
    }
  }

  /** Between calls every bucket holds 0 to limit - 1 tokens, evictions or not. */
  lemma {:induction false} TokensInRange(events: seq<Event>, c: ValidConfig)
    requires Monotone(events)
    ensures events != [] ==> BucketsOK(Run(events, c).buckets, Last(events), c)
    ensures events == [] ==> Run(events, c).buckets == map[]
  {
    if events != [] {
      var before, e := events[..|events| - 1], events[|events| - 1];
      assert forall i | 0 <= i < |before| :: before[i] == events[i];
      TokensInRange(before, c);
      if e.Request? { AllowBasic(Find(Run(before, c).buckets, e.ip), e.at, c); }
    }
  }

  // ---- When a refusal ends ----

  /** Some request of the entry's IP came after it, at or past its resetAt. */
  predicate Reached(log: seq<Entry>, i: int)
    requires 0 <= i < |log|
  {
    exists k :: i < k < |log| && log[k].ip == log[i].ip && log[k].at >= log[i].result.resetAt
  }

  /** Until a refusal's resetAt is reached its bucket stays empty and untouched; if it was evicted, the time has come. */
  ghost predicate Waiting(st: System, now: int, c: ValidConfig) {
    forall i | 0 <= i < |st.log| && !st.log[i].result.allowed && !Reached(st.log, i) ::
      if st.log[i].ip in st.buckets then st.buckets[st.log[i].ip] == Bucket(0, st.log[i].result.resetAt - c.refill)
      else st.log[i].result.resetAt <= now
  }

  /** Nothing in the buckets or in the log lies in the future. */
  ghost predicate Past(st: System, now: int, c: ValidConfig) {
    BucketsOK(st.buckets, now, c) && forall k | 0 <= k < |st.log| :: st.log[k].at <= now
  }

  /** After a refusal the IP is refused before resetAt, and admitted by its first request from then on. */
  ghost predicate RefusedUntilReset(log: seq<Entry>) {
    forall i, j | 0 <= i < j < |log| && log[i].ip == log[j].ip && !log[i].result.allowed ::
      if log[j].at < log[i].result.resetAt then !log[j].result.allowed
      else !Reached(log[..j], i) ==> log[j].result.allowed
  }

  lemma ReachedAppend(log: seq<Entry>, x: Entry, i: int)
    requires 0 <= i < |log|
    ensures Reached(log + [x], i) <==> Reached(log, i) || (x.ip == log[i].ip && x.at >= log[i].result.resetAt)
  {
    var more := log + [x];
    assert more[|log|] == x;
    if k :| i < k < |log| && log[k].ip == log[i].ip && log[k].at >= log[i].result.resetAt {
      assert more[k] == log[k];
    }
  }

  lemma PastStep(st: System, now: int, e: Event, c: ValidConfig)
    requires Past(st, now, c) && now <= e.at
    ensures Past(Step(st, e, c), e.at, c)
  {
    if e.Request? { AllowBasic(Find(st.buckets, e.ip), e.at, c); }
  }

  lemma WaitingRequest(st: System, now: int, e: Event, c: ValidConfig)
    requires Past(st, now, c) && Waiting(st, now, c) && RefusedUntilReset(st.log) && e.Request? && now <= e.at
    ensures Waiting(Step(st, e, c), e.at, c) && RefusedUntilReset(Step(st, e, c).log)
  {
    var r := Allow(Find(st.buckets, e.ip), c.limit, c.refill, e.at);
    var x := Entry(e.ip, e.at, r.1);
    var st' := Step(st, e, c);
    forall i | 0 <= i < |st.log| ensures Reached(st'.log, i) <==> Reached(st.log, i) || (e.ip == st.log[i].ip && e.at >= st.log[i].result.resetAt) {
      ReachedAppend(st.log, x, i);
    }
    forall i | 0 <= i < |st.log| && st.log[i].ip == e.ip && !st.log[i].result.allowed
      ensures if e.at < st.log[i].result.resetAt
              then !x.result.allowed && (!Reached(st.log, i) ==> r.0 == Bucket(0, st.log[i].result.resetAt - c.refill))
              else !Reached(st.log, i) ==> x.result.allowed
    {
      WaitingAnswers(st, now, i, e, c);
    }
    if !x.result.allowed { RefusalKeeps(Find(st.buckets, e.ip), e.at, c); }
    RefusedAppend(st.log, x);
  }

  lemma WaitingAnswers(st: System, now: int, i: nat, e: Event, c: ValidConfig)
    requires Past(st, now, c) && Waiting(st, now, c) && e.Request? && now <= e.at
    requires i < |st.log| && st.log[i].ip == e.ip && !st.log[i].result.allowed
    ensures var r := Allow(Find(st.buckets, e.ip), c.limit, c.refill, e.at);
            if e.at < st.log[i].result.resetAt
            then !r.1.allowed && (!Reached(st.log, i) ==> r.0 == Bucket(0, st.log[i].result.resetAt - c.refill))
            else !Reached(st.log, i) ==> r.1.allowed
  {
    if Reached(st.log, i) {
      var k :| i < k < |st.log| && st.log[k].ip == st.log[i].ip && st.log[k].at >= st.log[i].result.resetAt;
      assert st.log[k].at <= now;
    } else if e.ip in st.buckets {
      EmptyBucket(st.log[i].result.resetAt, e.at, c);
    }
  }

  /** An empty bucket is not evicted before its refill is due, if a refill takes at most five minutes and a nanosecond. */
  lemma WaitingEviction(st: System, now: int, e: Event, c: ValidConfig)
    requires Waiting(st, now, c) && e.Evict? && now <= e.at && c.refill <= FIVE_MINUTES + 1
    ensures Waiting(Step(st, e, c), e.at, c)
  {
  }

  lemma EmptyBucket(resetAt: int, now: int, c: ValidConfig)
    requires resetAt - c.refill <= now
    ensures var r := Allow(Some(Bucket(0, resetAt - c.refill)), c.limit, c.refill, now);
            (r.1.allowed <==> resetAt <= now) && (now < resetAt ==> r.0 == Bucket(0, resetAt - c.refill))
  {
    var elapsed := now - (resetAt - c.refill);
    if elapsed >= c.refill { FloorAtLeast(elapsed, 1, elapsed - c.refill, c.refill); }
  }

  lemma RefusalKeeps(bucket: Option<Bucket>, now: int, c: ValidConfig)
    requires bucket.Some? ==> 0 <= bucket.value.tokens < c.limit && bucket.value.lastSeen <= now
    requires !Allow(bucket, c.limit, c.refill, now).1.allowed
    ensures var r := Allow(bucket, c.limit, c.refill, now);
            r.0 == Bucket(0, r.1.resetAt - c.refill) && now < r.1.resetAt
  {
    var elapsed := now - bucket.value.lastSeen;
    if elapsed >= c.refill { FloorAtLeast(elapsed, 1, elapsed - c.refill, c.refill); }
  }

  lemma RefusedAppend(log: seq<Entry>, x: Entry)
    requires RefusedUntilReset(log)
    requires forall i | 0 <= i < |log| && log[i].ip == x.ip && !log[i].result.allowed ::
               if x.at < log[i].result.resetAt then !x.result.allowed else !Reached(log, i) ==> x.result.allowed
    ensures RefusedUntilReset(log + [x])
  {
    var more := log + [x];
    forall i, j | 0 <= i < j < |more| && more[i].ip == more[j].ip && !more[i].result.allowed
      ensures if more[j].at < more[i].result.resetAt then !more[j].result.allowed
              else !Reached(more[..j], i) ==> more[j].result.allowed
    {
      if j < |log| { assert more[..j] == log[..j]; } else { assert more[..j] == log; }
    }
  }

  lemma {:induction false} RunWaiting(events: seq<Event>, c: ValidConfig)
    requires Monotone(events) && (AllRequests(events) || c.refill <= FIVE_MINUTES + 1)
    ensures var now := if events == [] then 0 else Last(events);
      Past(Run(events, c), now, c) && Waiting(Run(events, c), now, c) && RefusedUntilReset(Run(events, c).log)
  {
    if events != [] {
      var before, e := events[..|events| - 1], events[|events| - 1];
      assert forall i | 0 <= i < |before| :: before[i] == events[i];
      RunWaiting(before, c);
      var now := if before == [] then e.at else Last(before);
      assert Past(Run(before, c), now, c) && Waiting(Run(before, c), now, c);
      PastStep(Run(before, c), now, e, c);
      if e.Request? { WaitingRequest(Run(before, c), now, e, c); } else { WaitingEviction(Run(before, c), now, e, c); }
    }
  }

  /** Without evictions every refusal ends exactly at the time it announced, however many requests follow it. */
  lemma RefusalEndsForRequests(events: seq<Event>, c: ValidConfig)
    requires Monotone(events) && AllRequests(events)
    ensures RefusedUntilReset(Run(events, c).log)
  {
    RunWaiting(events, c);
  }

  /** With evictions anywhere that is so exactly when one refill takes at most five minutes and a nanosecond. */
  lemma RefusalEndsAtReset(c: ValidConfig)
    ensures c.refill <= FIVE_MINUTES + 1 <==> forall events | Monotone(events) :: RefusedUntilReset(Run(events, c).log)
  {
    if c.refill <= FIVE_MINUTES + 1 {
      forall events | Monotone(events) ensures RefusedUntilReset(Run(events, c).log) { RunWaiting(events, c); }
    } else {
      RefusalForgotten(c);
    }
  }

  /** No request of the same IP came less than one refill before. */
  predicate Spaced(log: seq<Entry>, j: int, c: ValidConfig)
    requires 0 <= j < |log|
  {
    forall i | 0 <= i < j && log[i].ip == log[j].ip :: log[i].at + c.refill <= log[j].at
  }

  /** Every spaced request in the log was admitted. */
  ghost predicate SpacedOK(log: seq<Entry>, c: ValidConfig) {
    forall j | 0 <= j < |log| && Spaced(log, j, c) :: log[j].result.allowed
  }

  /** Requests at least one refill apart are never refused, whatever is evicted when. */
  lemma {:induction false} SpacedNeverRefused(events: seq<Event>, c: ValidConfig)
    requires Monotone(events)
    ensures TouchLogged(Run(events, c))
    ensures SpacedOK(Run(events, c).log, c)
  {
    if events != [] {
      var before, e := events[..|events| - 1], events[|events| - 1];
      assert forall i | 0 <= i < |before| :: before[i] == events[i];
      SpacedNeverRefused(before, c);
      TokensInRange(before, c);
      if e.Request? { SpacedStep(Run(before, c), if before == [] then e.at else Last(before), e, c); }
    }
  }

  lemma SpacedStep(st: System, now: int, e: Event, c: ValidConfig)
    requires TouchLogged(st) && BucketsOK(st.buckets, now, c) && e.Request? && now <= e.at && SpacedOK(st.log, c)
    ensures TouchLogged(Step(st, e, c)) && SpacedOK(Step(st, e, c).log, c)
  {
    var r := Allow(Find(st.buckets, e.ip), c.limit, c.refill, e.at);
    var x := Entry(e.ip, e.at, r.1);
    AllowBasic(Find(st.buckets, e.ip), e.at, c);
    LogStep(st.log, x);
    SpacedAnswer(st, now, e, c);
    SpacedAppend(st.log, x, c);
  }

  lemma SpacedAnswer(st: System, now: int, e: Event, c: ValidConfig)
    requires TouchLogged(st) && BucketsOK(st.buckets, now, c) && e.Request? && now <= e.at
    ensures var x := Entry(e.ip, e.at, Allow(Find(st.buckets, e.ip), c.limit, c.refill, e.at).1);
      Spaced(st.log + [x], |st.log|, c) ==> x.result.allowed
  {
    var x := Entry(e.ip, e.at, Allow(Find(st.buckets, e.ip), c.limit, c.refill, e.at).1);
    var log := st.log + [x];
    if Spaced(log, |st.log|, c) && e.ip in st.buckets {
      var b := st.buckets[e.ip];
      assert TouchedAt(st.log, e.ip, b.lastSeen);
      var k :| 0 <= k < |st.log| && st.log[k].ip == e.ip && st.log[k].at == b.lastSeen;
      assert log[k] == st.log[k] && log[|st.log|] == x;
      FloorAtLeast(e.at - b.lastSeen, 1, e.at - b.lastSeen - c.refill, c.refill);
    }
  }

  lemma SpacedAppend(log: seq<Entry>, x: Entry, c: ValidConfig)
    requires SpacedOK(log, c) && (Spaced(log + [x], |log|, c) ==> x.result.allowed)
    ensures SpacedOK(log + [x], c)
  {
    var more := log + [x];
    forall j | 0 <= j < |more| && Spaced(more, j, c) ensures more[j].result.allowed {
      if j < |log| {
        assert forall i | 0 <= i <= j :: more[i] == log[i];
        assert Spaced(log, j, c);
      }
    }
  }

  // ---- When eviction shows ----

  function Repeated(ip: string, n: nat, at: int): (events: seq<Event>)
    ensures |events| == n && forall i | 0 <= i < n :: events[i] == Request(ip, at)
  {
    seq(n, _ => Request(ip, at))
  }

  /** Requests that drain a new bucket at one time. */
  function Burst(n: nat, at: int): (events: seq<Event>)
    ensures |events| == n && forall i | 0 <= i < n :: events[i] == Request("", at)
  {
    Repeated("", n, at)
  }

  lemma BurstMore(n: nat, at: int)
    requires n > 0
    ensures Burst(n, at) == Burst(n - 1, at) + [Request("", at)]
  {
  }

  lemma {:induction false} BurstRequests(n: nat, at: int)
    ensures Requests(Burst(n, at)) == Burst(n, at)
  {
    if n > 0 {
      BurstMore(n, at);
      BurstRequests(n - 1, at);
      RequestsAppend(Burst(n - 1, at), Request("", at));
    }
  }

  /** One request of a burst that is admitted. */
  lemma AdmitOne(st: System, tokens: int, at: int, s: int, e: int, c: ValidConfig)
    requires Find(st.buckets, "") == if tokens == c.limit then None else Some(Bucket(tokens, at))
    requires 0 < tokens <= c.limit && s <= at <= e
    ensures var after := Step(st, Request("", at), c);
      && Find(after.buckets, "") == Some(Bucket(tokens - 1, at))
      && Admitted(after.log, "", s, e) == Admitted(st.log, "", s, e) + 1
  {
    var x := Entry("", at, Allow(Find(st.buckets, ""), c.limit, c.refill, at).1);
    if tokens < c.limit { DrainOne(tokens, at, c); }
    assert (st.log + [x])[..|st.log|] == st.log;
  }

  /** A burst on a new bucket is admitted up to the limit. */
  lemma {:induction false} BurstAdmitted(prefix: seq<Event>, n: nat, at: int, s: int, e: int, c: ValidConfig)
    requires Find(Run(prefix, c).buckets, "") == None && n <= c.limit && s <= at <= e
    ensures var st := Run(prefix + Burst(n, at), c);
      && Find(st.buckets, "") == (if n == 0 then None else Some(Bucket(c.limit - n, at)))
      && Admitted(st.log, "", s, e) == Admitted(Run(prefix, c).log, "", s, e) + n
  {
    if n == 0 {
      assert prefix + Burst(n, at) == prefix;
    } else {
      BurstAdmitted(prefix, n - 1, at, s, e, c);
      BurstRun(prefix, n, at, c);
      AdmitOne(Run(prefix + Burst(n - 1, at), c), c.limit - n + 1, at, s, e, c);
    }
  }

  lemma BurstRun(prefix: seq<Event>, n: nat, at: int, c: ValidConfig)
    requires n > 0
    ensures Run(prefix + Burst(n, at), c) == Step(Run(prefix + Burst(n - 1, at), c), Request("", at), c)
  {
    BurstMore(n, at);
    assert prefix + Burst(n, at) == prefix + Burst(n - 1, at) + [Request("", at)];
    RunAppend(prefix + Burst(n - 1, at), Request("", at), c);
  }

  lemma DrainOne(tokens: int, at: int, c: ValidConfig)
    requires 0 < tokens < c.limit
    ensures var r := Allow(Some(Bucket(tokens, at)), c.limit, c.refill, at); r.0 == Bucket(tokens - 1, at) && r.1.allowed
  {
    assert 0 / c.refill == 0;
  }

  lemma RequestsAppend(events: seq<Event>, e: Event)
    ensures Requests(events + [e]) == Requests(events) + (if e.Request? then [e] else [])
  {
    assert (events + [e])[..|events|] == events;
  }

  lemma RunAppend(events: seq<Event>, e: Event, c: ValidConfig)
    ensures Run(events + [e], c) == Step(Run(events, c), e, c)
  {
    assert (events + [e])[..|events|] == events;
  }

  /** The limit's worth of requests at time 0, and then an eviction just after five minutes. */
  function Drained(c: ValidConfig): seq<Event> {
    Burst(c.limit, 0) + [Event.Evict(FIVE_MINUTES + 1)]
  }

  lemma DrainedState(c: ValidConfig)
    ensures var st := Run(Burst(c.limit, 0), c);
      && Find(st.buckets, "") == Some(Bucket(0, 0)) && Find(Run(Drained(c), c).buckets, "") == None
      && Run(Drained(c), c).log == st.log && Admitted(st.log, "", 0, FIVE_MINUTES + 1) == c.limit
  {
    BurstAdmitted([], c.limit, 0, 0, FIVE_MINUTES + 1, c);
    assert [] + Burst(c.limit, 0) == Burst(c.limit, 0);
    RunAppend(Burst(c.limit, 0), Event.Evict(FIVE_MINUTES + 1), c);
  }

  /** A drained bucket, idle for just over five minutes, is not full again: a new one answers differently. */
  lemma DrainedIsNotNew(t: int, c: ValidConfig)
    requires 0 < t < c.limit * c.refill
    ensures Allow(Some(Bucket(0, 0)), c.limit, c.refill, t).1 != Allow(None, c.limit, c.refill, t).1
  {
    NotFull(t, c);
  }

  lemma NotFull(t: int, c: ValidConfig)
    requires 0 <= t < c.limit * c.refill
    ensures t / c.refill < c.limit
  {
    if t / c.refill >= c.limit { MulMonotone(c.refill, c.limit, t / c.refill); }
  }

  lemma EvictionObserved(c: ValidConfig)
    requires c.limit * c.refill > FIVE_MINUTES + 1
    ensures exists events :: Monotone(events) && Run(events, c).log != Run(Requests(events), c).log
  {
    var t := FIVE_MINUTES + 1;
    var burst, again := Burst(c.limit, 0), Request("", t);
    var events := Drained(c) + [again];
    BurstRequests(c.limit, 0);
    assert Requests(events) == burst + [again] by {
      RequestsAppend(burst, Event.Evict(t));
      RequestsAppend(Drained(c), again);
    }
    LastAnswers(c);
    DrainedMonotone(c, [again]);
  }

  lemma DrainedMonotone(c: ValidConfig, tail: seq<Event>)
    requires forall i | 0 <= i < |tail| :: tail[i].at == FIVE_MINUTES + 1
    ensures Monotone(Drained(c) + tail)
  {
  }

  lemma LastAnswers(c: ValidConfig)
    requires c.limit * c.refill > FIVE_MINUTES + 1
    ensures var again := Request("", FIVE_MINUTES + 1);
      Run(Drained(c) + [again], c).log != Run(Burst(c.limit, 0) + [again], c).log
  {
    var t := FIVE_MINUTES + 1;
    var burst, again := Burst(c.limit, 0), Request("", t);
    var n := |Run(burst, c).log|;
    DrainedState(c);
    DrainedIsNotNew(t, c);
    RunAppend(Drained(c), again, c);
    RunAppend(burst, again, c);
    assert Run(Drained(c) + [again], c).log[n].result == Allow(None, c.limit, c.refill, t).1;
    assert Run(burst + [again], c).log[n].result == Allow(Some(Bucket(0, 0)), c.limit, c.refill, t).1;
  }

  /** A second burst right after the eviction is admitted in full: twice the limit within the window. */
  lemma TwoBursts(c: ValidConfig)
    requires c.limit * c.refill > FIVE_MINUTES + 1
    ensures exists events :: Monotone(events) && !AdmissionBounded(events, c)
  {
    var t := FIVE_MINUTES + 1;
    var events := Drained(c) + Burst(c.limit, t);
    DrainedState(c);
    BurstAdmitted(Drained(c), c.limit, t, 0, t, c);
    NotFull(t, c);
    assert Admitted(Run(events, c).log, "", 0, t) > c.limit + (t - 0) / c.refill;
    DrainedMonotone(c, Burst(c.limit, t));
  }

  /** A refused IP whose bucket was evicted meanwhile is admitted before the time its refusal announced. */
  lemma RefusalForgotten(c: ValidConfig)
    requires c.refill > FIVE_MINUTES + 1
    ensures exists events :: Monotone(events) && !RefusedUntilReset(Run(events, c).log)
  {
    var t := FIVE_MINUTES + 1;
    var burst := Burst(c.limit, 0);
    var events := burst + [Request("", 0)] + [Event.Evict(t)] + [Request("", t)];
    DrainedState(c);
    RefusedThenAdmitted(burst, t, c);
    assert Monotone(events);
  }

  lemma EarlyAdmission(log: seq<Entry>, x: Entry, y: Entry)
    requires x.ip == y.ip && !x.result.allowed && y.result.allowed && y.at < x.result.resetAt
    ensures !RefusedUntilReset(log + [x] + [y])
  {
    var all, n := log + [x] + [y], |log|;
    assert all[n] == x && all[n + 1] == y;
  }

  lemma RefusedThenAdmitted(burst: seq<Event>, t: int, c: ValidConfig)
    requires Find(Run(burst, c).buckets, "") == Some(Bucket(0, 0)) && FIVE_MINUTES < t < c.refill
    ensures !RefusedUntilReset(Run(burst + [Request("", 0)] + [Event.Evict(t)] + [Request("", t)], c).log)
  {
    var st := Run(burst, c);
    EmptyBucket(c.refill, 0, c);
    RunAppend(burst, Request("", 0), c);
    RunAppend(burst + [Request("", 0)], Event.Evict(t), c);
    RunAppend(burst + [Request("", 0)] + [Event.Evict(t)], Request("", t), c);
    EarlyAdmission(st.log, Entry("", 0, Result(false, 0, c.refill)), Entry("", t, Result(true, c.limit - 1, t + c.refill)));
  }

  // ---- What a bucket gives back ----

  /** n requests of one IP at one time. */
  function Requested(st: System, ip: string, n: nat, now: int, c: ValidConfig): System {
    if n == 0 then st else Step(Requested(st, ip, n - 1, now, c), Request(ip, now), c)
  }

  /** How many requests a bucket admits at `now`: one per token, and one per full refill since it was last touched. */
  function Capacity(bucket: Option<Bucket>, now: int, c: ValidConfig): int
    requires bucket.Some? ==> bucket.value.lastSeen <= now
  {
    if bucket == None then c.limit
    else Min(c.limit, bucket.value.tokens + (now - bucket.value.lastSeen) / c.refill)
  }

  /** What request number k of those finds answered, from a bucket that admits `capacity` of them. */
  predicate Counted(r: Result, k: nat, capacity: int, now: int, c: ValidConfig) {
    if k < capacity then r == Result(true, capacity - 1 - k, now + c.refill) else !r.allowed && r.remaining == 0
  }

  /** The answers since `before`: the first `capacity` requests are admitted, and no other. */
  ghost predicate CountedDown(before: seq<Entry>, log: seq<Entry>, ip: string, capacity: int, now: int, c: ValidConfig) {
    && before <= log
    && forall j | |before| <= j < |log| ::
         log[j].ip == ip && log[j].at == now && Counted(log[j].result, j - |before|, capacity, now, c)
  }

  lemma CountedMore(before: seq<Entry>, log: seq<Entry>, x: Entry, capacity: int, c: ValidConfig)
    requires CountedDown(before, log, x.ip, capacity, x.at, c) && Counted(x.result, |log| - |before|, capacity, x.at, c)
    ensures CountedDown(before, log + [x], x.ip, capacity, x.at, c)
  {
  }

  /**
   At one time a bucket admits exactly the first so many requests, counting down what remains, and
   refuses every later one.
   */
  lemma {:induction false} BurstExact(st: System, ip: string, n: nat, now: int, c: ValidConfig)
    requires ip in st.buckets ==> 0 <= st.buckets[ip].tokens < c.limit && st.buckets[ip].lastSeen <= now
    ensures var after := Requested(st, ip, n, now, c);
      && |after.log| == |st.log| + n
      && CountedDown(st.log, after.log, ip, Capacity(Find(st.buckets, ip), now, c), now, c)
      && (n > 0 ==> Drawn(Find(st.buckets, ip), n, now, Find(after.buckets, ip), c))
  {
    if n > 0 {
      BurstExact(st, ip, n - 1, now, c);
      var before := Requested(st, ip, n - 1, now, c);
      DrawOne(Find(st.buckets, ip), n, now, Find(before.buckets, ip), c);
      var r := Allow(Find(before.buckets, ip), c.limit, c.refill, now);
      CountedMore(st.log, before.log, Entry(ip, now, r.1), Capacity(Find(st.buckets, ip), now, c), c);
    }
  }

  /** `left` is what n requests at `now` leave of a bucket: it fills up at the first, if a refill is due at all. */
  predicate Drawn(bucket: Option<Bucket>, n: nat, now: int, left: Option<Bucket>, c: ValidConfig)
    requires bucket.Some? ==> bucket.value.lastSeen <= now
  {
    var capacity := Capacity(bucket, now, c);
    && left.Some? && left.value.tokens == (if n < capacity then capacity - n else 0)
    && left.value.lastSeen == if bucket.Some? && now - bucket.value.lastSeen < c.refill then bucket.value.lastSeen else now
  }

  lemma DrawOne(bucket: Option<Bucket>, n: nat, now: int, left: Option<Bucket>, c: ValidConfig)
    requires bucket.Some? ==> 0 <= bucket.value.tokens < c.limit && bucket.value.lastSeen <= now
    requires n > 0 && if n == 1 then left == bucket else Drawn(bucket, n - 1, now, left, c)
    ensures var r := Allow(left, c.limit, c.refill, now);
      Drawn(bucket, n, now, Some(r.0), c) && Counted(r.1, n - 1, Capacity(bucket, now, c), now, c)
  {
  }

  lemma TouchedStep(st: System, e: Event, before: int, c: ValidConfig)
    requires TouchLogged(st) && BucketsOK(st.buckets, before, c) && before <= e.at
    ensures TouchLogged(Step(st, e, c))
  {
    if e.Request? {
      AllowBasic(Find(st.buckets, e.ip), e.at, c);
      LogStep(st.log, Entry(e.ip, e.at, Allow(Find(st.buckets, e.ip), c.limit, c.refill, e.at).1));
    }
  }

  lemma {:induction false} RunTouched(events: seq<Event>, c: ValidConfig)
    requires Monotone(events)
    ensures TouchLogged(Run(events, c))
  {
    if events != [] {
      var before, e := events[..|events| - 1], events[|events| - 1];
      assert forall i | 0 <= i < |before| :: before[i] == events[i];
      RunTouched(before, c);
      TokensInRange(before, c);
      TouchedStep(Run(before, c), e, if before == [] then e.at else Last(before), c);
    }
  }

  lemma IdleCapacity(st: System, ip: string, n: nat, now: int, d: nat, c: ValidConfig)
    requires TouchLogged(st) && (ip in st.buckets ==> 0 <= st.buckets[ip].tokens)
    requires forall k | 0 <= k < |st.log| && st.log[k].ip == ip :: st.log[k].at + d <= now
    requires n <= c.limit && n <= d / c.refill
    ensures ip in st.buckets ==> st.buckets[ip].lastSeen <= now
    ensures n <= Capacity(Find(st.buckets, ip), now, c)
  {
    if ip in st.buckets {
      var k :| 0 <= k < |st.log| && st.log[k].ip == ip && st.log[k].at == st.buckets[ip].lastSeen;
      FloorSum(d, now - st.log[k].at - d, c.refill);
    }
  }

  lemma {:induction false} RunRepeated(events: seq<Event>, ip: string, n: nat, at: int, c: ValidConfig)
    ensures Run(events + Repeated(ip, n, at), c) == Requested(Run(events, c), ip, n, at, c)
  {
    if n == 0 {
      assert events + Repeated(ip, 0, at) == events;
    } else {
      RunRepeated(events, ip, n - 1, at, c);
      assert events + Repeated(ip, n, at) == events + Repeated(ip, n - 1, at) + [Request(ip, at)];
      RunAppend(events + Repeated(ip, n - 1, at), Request(ip, at), c);
    }
  }

  /**
   Whoever has been idle for a time d has one request admitted for every full refill in it, up to the limit: a
   burst of that many is admitted in full, whatever others asked and whatever was evicted when.
   */
  lemma IdleBurstAdmitted(events: seq<Event>, ip: string, n: nat, now: int, d: nat, c: ValidConfig)
    requires Monotone(events) && (events != [] ==> Last(events) <= now)
    requires forall k | 0 <= k < |Run(events, c).log| && Run(events, c).log[k].ip == ip :: Run(events, c).log[k].at + d <= now
    requires n <= c.limit && n <= d / c.refill
    ensures var before, after := Run(events, c).log, Run(events + Repeated(ip, n, now), c).log;
      |after| == |before| + n && forall j | |before| <= j < |after| :: after[j].ip == ip && after[j].result.allowed
  {
    var st := Run(events, c);
    RunRepeated(events, ip, n, now, c);
    TokensInRange(events, c);
    RunTouched(events, c);
    IdleCapacity(st, ip, n, now, d, c);
    BurstExact(st, ip, n, now, c);
  }
}
