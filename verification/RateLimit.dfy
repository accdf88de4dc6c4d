/** Per-key token bucket with idle eviction. Times are seconds, tokens are reals. */
module RateLimit {
  import opened Placement

  datatype Quota = Quota(rate: real, burst: real)

  function PerMinute(n: nat, burst: nat): Quota {
    Quota(n as real / 60.0, if burst < 1 then 1.0 else burst as real)
  }

  datatype Bucket = Bucket(tokens: real, last: real)

  type Shard = map<string, Bucket>

  const IDLE_SECS: real := 600.0

  datatype Verdict = Pass | Reject(seconds: nat)

  function Min(a: real, b: real): real { if a <= b then a else b }

  function Ceil(x: real): int {
    if x.Floor as real == x then x.Floor else x.Floor + 1
  }

  /** Seconds until one full token, rounded up and at least one. */
  function RetryAfter(tokens: real, rate: real): nat
    requires rate > 0.0
  {
    var s := Ceil((1.0 - tokens) / rate);
    if s < 1 then 1 else s
  }

  /** A quota as the bucket uses it: tokens gained in `d` seconds, the answer to a rejected caller,
      and the cap. */
  datatype Law = Law(gain: real -> real, retry: real -> nat, burst: real)

  function LawOf(q: Quota): Law
    requires q.rate > 0.0
  {
    Law(d => d * q.rate, tokens => RetryAfter(tokens, q.rate), q.burst)
  }

  function Elapsed(now: real, last: real): real {
    if now > last then now - last else 0.0
  }

  function Refilled(b: Bucket, l: Law, now: real): real {
    Min(b.tokens + l.gain(Elapsed(now, b.last)), l.burst)
  }

  function Evicted(g: Shard, now: real): Shard {
    map k | k in g && now - g[k].last < IDLE_SECS :: g[k]
  }

  /** Tokens `k` would find at time `t`; an absent key starts full. */
  function Potential(l: Law, g: Shard, k: string, t: real): real {
    if k in g then Refilled(g[k], l, t) else l.burst
  }

  /** Refill the key's bucket and spend a token if there is one. */
  function Spend(l: Law, g: Shard, key: string, now: real): (Shard, Verdict) {
    var tokens := Potential(l, g, key, now);
    if tokens >= 1.0 then (g[key := Bucket(tokens - 1.0, now)], Pass)
    else (g[key := Bucket(tokens, now)], Reject(l.retry(tokens)))
  }

  /** One check of `key` on its shard, which holds at most `cap` keys before a newcomer evicts. */
  function CheckShard(l: Law, cap: nat, g: Shard, key: string, now: real): (Shard, Verdict) {
    Spend(l, if key !in g && |g| >= cap then Evicted(g, now) else g, key, now)
  }

  class Limiter {
    var quota: Quota
    var shards: seq<Shard>
    const cap: nat
    /** Where a key is placed; any placement will do. */
    const place: string -> nat

    ghost predicate Valid()
      reads this
    {
      quota.rate > 0.0 && |shards| == SHARDS && forall k :: place(k) < SHARDS
    }

    constructor (quota: Quota, cap: nat, place: string -> nat)
      requires quota.rate > 0.0 && forall k :: place(k) < SHARDS
      ensures Valid() && this.quota == quota && this.cap == cap && this.place == place
      ensures forall s :: s in shards ==> s == map[]
    {
      this.quota := quota;
      this.cap := cap;
      this.place := place;
      shards := seq(SHARDS, i => map[]);
    }

    /** A sixteenth of the keys, and at least one. */
    function ShardCap(): (n: nat)
      ensures n >= 1 && (cap >= 16 ==> 16 * n <= cap < 16 * n + 16)
    {
      if cap / SHARDS < 1 then 1 else cap / SHARDS
    }

    method Check(key: string, now: real) returns (r: Verdict)
      requires Valid()
      modifies this`shards
      ensures Valid()
      ensures var (g, v) := CheckShard(LawOf(quota), ShardCap(), old(shards)[place(key)], key, now);
              shards == old(shards)[place(key) := g] && r == v
    {
      ghost var l := LawOf(quota);
      var g := shards[place(key)];
      if key !in g && |g| >= ShardCap() {
        g := Evicted(g, now);
      }
      ghost var kept := g;
      if key !in g {
        g := g[key := Bucket(quota.burst, now)];
        assert l.gain(0.0) == 0.0;
      }
      var b := g[key];
      var tokens := Min(b.tokens + Elapsed(now, b.last) * quota.rate, quota.burst);
      assert tokens == Potential(l, kept, key, now);
      if tokens >= 1.0 {
        g := g[key := Bucket(tokens - 1.0, now)];
        r := Pass;
      } else {
        g := g[key := Bucket(tokens, now)];
        r := Reject(RetryAfter(tokens, quota.rate));
      }
      assert g == Spend(l, kept, key, now).0;
      shards := shards[place(key) := g];
    }
  }

  /** A check keeps every other key and its bucket, unless a newcomer meets a full shard: then those idle for ten
      minutes go. */
  lemma WhoStays(l: Law, cap: nat, g: Shard, key: string, now: real, k: string)
    requires k != key
    ensures var g' := CheckShard(l, cap, g, key, now).0;
            && key in g' && g'[key].last == now
            && (k in g' <==> k in g && (key in g || |g| < cap || now - g[k].last < 600.0))
            && (k in g' ==> g'[k] == g[k])
  {}

  // ---------- Gains ----------

  predicate Adds(l: Law, a: real, b: real) {
    a >= 0.0 && b >= 0.0 ==> l.gain(a + b) == l.gain(a) + l.gain(b) && l.gain(a) >= 0.0
  }

  /** Gains add up over time and the bucket holds a token. */
  ghost predicate Additive(l: Law) {
    l.burst >= 1.0 && forall a, b :: Adds(l, a, b)
  }

  /** Moreover ten idle minutes fill the bucket. */
  ghost predicate Lawful(l: Law) {
    Additive(l) && l.burst <= l.gain(IDLE_SECS)
  }

  /** Ten idle minutes refill the whole burst. */
  predicate Fits(q: Quota) {
    q.burst <= IDLE_SECS * q.rate
  }

  /** For `per_minute(n, burst)` that is a burst of at most ten times the rate per minute. */
  lemma FitsPerMinute(n: nat, burst: nat)
    requires n >= 1
    ensures Fits(PerMinute(n, burst)) <==> (if burst < 1 then 1 else burst) <= 10 * n
  {
    assert IDLE_SECS * (n as real / 60.0) == (10 * n) as real;
  }

  lemma QuotaIsLawful(l: Law, q: Quota)
    requires Enforces(l, q) && q.burst >= 1.0
    ensures Additive(l) && (Lawful(l) <==> Fits(q))
  {
    assert l.gain(IDLE_SECS) == IDLE_SECS * q.rate;
    forall a, b ensures Adds(l, a, b) {
      assert l.gain(a + b) == (a + b) * q.rate && l.gain(a) == a * q.rate && l.gain(b) == b * q.rate;
    }
  }

  lemma MoreTime(l: Law, a: real, b: real, c: real)
    requires Additive(l) && a <= b <= c
    ensures l.gain(b - a) + l.gain(c - b) == l.gain(c - a)
    ensures 0.0 <= l.gain(b - a) <= l.gain(c - a) && 0.0 <= l.gain(c - b)
    ensures l.gain(0.0) == 0.0
  {
    assert Adds(l, b - a, c - b) && Adds(l, c - b, b - a) && Adds(l, 0.0, 0.0);
    assert (b - a) + (c - b) == c - a && (c - b) + (b - a) == c - a;
  }

  ghost predicate Sound(l: Law, g: Shard, now: real) {
    forall k :: k in g ==> 0.0 <= g[k].tokens <= l.burst && g[k].last <= now
  }

  lemma RefilledInRange(b: Bucket, l: Law, now: real)
    requires Additive(l) && 0.0 <= b.tokens <= l.burst && b.last <= now
    ensures 0.0 <= Refilled(b, l, now) <= l.burst
    ensures Refilled(b, l, now) == Min(b.tokens + l.gain(now - b.last), l.burst)
  {
    MoreTime(l, b.last, now, now);
  }

  /** Eviction leaves every key with the tokens it would have found. */
  lemma EvictionKeepsPotential(l: Law, g: Shard, now: real, k: string, t: real)
    requires Lawful(l) && Sound(l, g, now) && now <= t
    ensures Potential(l, Evicted(g, now), k, t) == Potential(l, g, k, t)
  {
    if k in g && k !in Evicted(g, now) {
      var last := g[k].last;
      MoreTime(l, last, last + IDLE_SECS, t);
      assert last + IDLE_SECS - last == IDLE_SECS;
      RefilledInRange(g[k], l, t);
    }
  }

  lemma PotentialInRange(l: Law, g: Shard, k: string, t: real)
    requires Additive(l) && Sound(l, g, t)
    ensures 0.0 <= Potential(l, g, k, t) <= l.burst
  {
    if k in g {
      RefilledInRange(g[k], l, t);
    }
  }

  /** Eviction does no harm: idle keys are full, or the shard has room for `n` more. */
  ghost predicate Harmless(l: Law, cap: nat, g: Shard, n: nat) {
    Lawful(l) || |g| + n <= cap
  }

  lemma CheckEffect(l: Law, cap: nat, g: Shard, key: string, now: real, k: string, t: real)
    requires Additive(l) && Harmless(l, cap, g, 1) && Sound(l, g, now) && now <= t
    ensures var (g', v) := CheckShard(l, cap, g, key, now);
            && Sound(l, g', now)
            && (v.Pass? <==> Potential(l, g, key, now) >= 1.0)
            && (v.Reject? ==> v.seconds == l.retry(Potential(l, g, key, now)))
            && Potential(l, g', k, t) ==
               if k == key then Min(Potential(l, g, k, now) - (if v.Pass? then 1.0 else 0.0) + l.gain(t - now), l.burst)
               else Potential(l, g, k, t)
  {
    if Lawful(l) {
      EvictionKeepsPotential(l, g, now, k, t);
      EvictionKeepsPotential(l, g, now, key, now);
    }
    PotentialInRange(l, g, key, now);
    var have := Potential(l, g, key, now);
    var left := if have >= 1.0 then have - 1.0 else have;
    RefilledInRange(Bucket(left, now), l, t);
  }

  lemma OneMoreKey(l: Law, cap: nat, g: Shard, key: string, now: real)
    requires |g| + 1 <= cap
    ensures |CheckShard(l, cap, g, key, now).0| <= |g| + 1
  {}

  // ---------- Runs on one shard ----------

  datatype Check = Check(key: string, at: real)

  function After(l: Law, cap: nat, g: Shard, run: seq<Check>): Shard {
    if run == [] then g
    else CheckShard(l, cap, After(l, cap, g, run[..|run| - 1]), run[|run| - 1].key, run[|run| - 1].at).0
  }

  function VerdictOf(l: Law, cap: nat, g: Shard, run: seq<Check>): Verdict
    requires run != []
  {
    CheckShard(l, cap, After(l, cap, g, run[..|run| - 1]), run[|run| - 1].key, run[|run| - 1].at).1
  }

  /** Requests of `k` that passed. */
  function Admitted(l: Law, cap: nat, g: Shard, run: seq<Check>, k: string): nat {
    if run == [] then 0
    else Admitted(l, cap, g, run[..|run| - 1], k)
         + (if run[|run| - 1].key == k && VerdictOf(l, cap, g, run).Pass? then 1 else 0)
  }

  function EndOf(run: seq<Check>, start: real): real {
    if run == [] then start else run[|run| - 1].at
  }

  /** Checks no earlier than `start`, in time order. */
  predicate InOrder(run: seq<Check>, start: real) {
    run == [] || (InOrder(run[..|run| - 1], start) && EndOf(run[..|run| - 1], start) <= run[|run| - 1].at)
  }

  // ---------- How much any window admits ----------

  lemma MinShift(a: real, d: real, top: real)
    requires d >= 0.0
    ensures Min(a + d, top) <= Min(a, top) + d
  {}

  lemma PotentialGrowth(l: Law, g: Shard, k: string, s: real, t: real)
    requires Additive(l) && Sound(l, g, s) && s <= t
    ensures Sound(l, g, t)
    ensures Potential(l, g, k, t) <= Potential(l, g, k, s) + l.gain(t - s)
  {
    MoreTime(l, s, t, t);
    if k in g {
      MoreTime(l, g[k].last, s, t);
      RefilledInRange(g[k], l, s);
      RefilledInRange(g[k], l, t);
      MinShift(g[k].tokens + l.gain(s - g[k].last), l.gain(t - s), l.burst);
    }
  }

  /** One check at `t`: what a key can spend from then on, and the token it spent, came from the refill. */
  lemma CheckGrowth(l: Law, cap: nat, g: Shard, key: string, k: string, s: real, t: real)
    requires Additive(l) && Harmless(l, cap, g, 1) && Sound(l, g, s) && s <= t
    ensures var (g', v) := CheckShard(l, cap, g, key, t);
            && Sound(l, g', t)
            && Potential(l, g', k, t) + (if key == k && v.Pass? then 1.0 else 0.0)
               <= Potential(l, g, k, s) + l.gain(t - s)
  {
    PotentialGrowth(l, g, k, s, t);
    CheckEffect(l, cap, g, key, t, k, t);
    PotentialInRange(l, g, k, t);
    MoreTime(l, s, t, t);
  }

  /** Tokens spent and left, after one more check, are still covered by the refill since `start`. */
  lemma AdmitStep(l: Law, cap: nat, g: Shard, c: Check, k: string, spent: nat, bound: real, start: real, now: real)
    requires Additive(l) && Harmless(l, cap, g, 1) && Sound(l, g, now) && start <= now <= c.at
    requires spent as real + Potential(l, g, k, now) <= bound + l.gain(now - start)
    ensures var (g', v) := CheckShard(l, cap, g, c.key, c.at);
            var spent' := spent + (if c.key == k && v.Pass? then 1 else 0);
            Sound(l, g', c.at) && spent' as real + Potential(l, g', k, c.at) <= bound + l.gain(c.at - start)
  {
    CheckGrowth(l, cap, g, c.key, k, now, c.at);
    MoreTime(l, start, now, c.at);
  }

  lemma {:induction false} RoomLeft(l: Law, cap: nat, g: Shard, run: seq<Check>)
    requires |g| + |run| <= cap
    ensures |After(l, cap, g, run)| <= |g| + |run|
  {
    if run != [] {
      var init, last := run[..|run| - 1], run[|run| - 1];
      RoomLeft(l, cap, g, init);
      OneMoreKey(l, cap, After(l, cap, g, init), last.key, last.at);
    }
  }

  /** What `k` spent in a run up to `end` and what it has left then are covered by the refill since `start`. */
  ghost predicate Paid(l: Law, cap: nat, g: Shard, run: seq<Check>, k: string, start: real, end: real) {
    && start <= end && Sound(l, After(l, cap, g, run), end)
    && Admitted(l, cap, g, run, k) as real + Potential(l, After(l, cap, g, run), k, end)
       <= Potential(l, g, k, start) + l.gain(end - start)
  }

  lemma PaidOneMore(l: Law, cap: nat, g: Shard, run: seq<Check>, c: Check, k: string, start: real, end: real)
    requires Additive(l) && Harmless(l, cap, After(l, cap, g, run), 1)
    requires Paid(l, cap, g, run, k, start, end) && end <= c.at
    ensures Paid(l, cap, g, run + [c], k, start, c.at)
  {
    OneMore(l, cap, g, run, c, k);
    AdmitStep(l, cap, After(l, cap, g, run), c, k, Admitted(l, cap, g, run, k), Potential(l, g, k, start), start, end);
  }

  lemma {:induction false} AdmitBound(l: Law, cap: nat, g: Shard, run: seq<Check>, k: string, start: real)
    requires Additive(l) && Harmless(l, cap, g, |run|) && Sound(l, g, start) && InOrder(run, start)
    ensures Paid(l, cap, g, run, k, start, EndOf(run, start))
    decreases |run|
  {
    if run == [] {
      MoreTime(l, start, start, start);
    } else {
      var init, last := run[..|run| - 1], run[|run| - 1];
      AdmitBound(l, cap, g, init, k, start);
      if !Lawful(l) {
        RoomLeft(l, cap, g, init);
      }
      assert run == init + [last];
      PaidOneMore(l, cap, g, init, last, k, start, EndOf(init, start));
    }
  }

  lemma PaidBound(l: Law, cap: nat, g: Shard, window: seq<Check>, k: string, first: real, last: real, end: real)
    requires Additive(l) && Sound(l, g, first) && Paid(l, cap, g, window, k, first, last) && last <= end
    ensures Admitted(l, cap, g, window, k) as real <= l.burst + l.gain(end - first)
  {
    PotentialInRange(l, g, k, first);
    PotentialInRange(l, After(l, cap, g, window), k, last);
    MoreTime(l, first, last, end);
  }

  /** On one shard, the checks made in [first, end] admit at most the burst plus the refill. */
  lemma ShardWindowBound(l: Law, cap: nat, before: seq<Check>, window: seq<Check>, k: string,
                         start: real, first: real, end: real)
    requires Lawful(l) && InOrder(before, start) && EndOf(before, start) <= first
    requires InOrder(window, first) && EndOf(window, first) <= end
    ensures Admitted(l, cap, After(l, cap, map[], before), window, k) as real <= l.burst + l.gain(end - first)
  {
    AdmitBound(l, cap, map[], before, k, start);
    var g := After(l, cap, map[], before);
    PotentialGrowth(l, g, k, EndOf(before, start), first);
    AdmitBound(l, cap, g, window, k, first);
    PaidBound(l, cap, g, window, k, first, EndOf(window, first), end);
  }

  /** `l` is the law of quota `q`. */
  ghost predicate Enforces(l: Law, q: Quota) {
    && q.rate > 0.0 && l.burst == q.burst
    && (forall d :: l.gain(d) == d * q.rate)
    && forall tokens :: l.retry(tokens) == RetryAfter(tokens, q.rate)
  }

  lemma LawOfEnforces(q: Quota)
    requires q.rate > 0.0
    ensures Enforces(LawOf(q), q)
  {}

  lemma GainOf(l: Law, q: Quota, d: real)
    requires Enforces(l, q)
    ensures l.gain(d) == d * q.rate
  {}

  // ---------- The whole limiter ----------

  /** All shards after a run, each check on the shard its key is placed on. */
  function AllAfter(l: Law, cap: nat, place: string -> nat, shards: seq<Shard>, run: seq<Check>): (r: seq<Shard>)
    requires forall k :: place(k) < |shards|
    ensures |r| == |shards|
  {
    if run == [] then shards
    else
      var c, before := run[|run| - 1], AllAfter(l, cap, place, shards, run[..|run| - 1]);
      before[place(c.key) := CheckShard(l, cap, before[place(c.key)], c.key, c.at).0]
  }

  /** `n` shards of a new limiter. */
  function Empty(n: nat): (shards: seq<Shard>)
    ensures |shards| == n && forall s :: 0 <= s < n ==> shards[s] == map[]
  {
    seq(n, _ => map[])
  }

  /** Requests of `k` that passed on the whole limiter. */
  function AllAdmitted(l: Law, cap: nat, place: string -> nat, shards: seq<Shard>, run: seq<Check>, k: string): nat
    requires forall j :: place(j) < |shards|
  {
    if run == [] then 0
    else
      var c, before := run[|run| - 1], AllAfter(l, cap, place, shards, run[..|run| - 1]);
      AllAdmitted(l, cap, place, shards, run[..|run| - 1], k)
      + (if c.key == k && CheckShard(l, cap, before[place(k)], k, c.at).1.Pass? then 1 else 0)
  }

  /** The checks a shard sees. */
  function Placed(place: string -> nat, run: seq<Check>, s: nat): seq<Check> {
    if run == [] then []
    else if place(run[|run| - 1].key) != s then Placed(place, run[..|run| - 1], s)
    else Placed(place, run[..|run| - 1], s) + [run[|run| - 1]]
  }

  lemma {:induction false} PlacedInOrder(place: string -> nat, run: seq<Check>, s: nat, start: real)
    requires InOrder(run, start)
    ensures InOrder(Placed(place, run, s), start) && start <= EndOf(Placed(place, run, s), start) <= EndOf(run, start)
  {
    if run != [] {
      var init, c := Placed(place, run[..|run| - 1], s), run[|run| - 1];
      PlacedInOrder(place, run[..|run| - 1], s, start);
      assert (init + [c])[..|init + [c]| - 1] == init;
    }
  }

  lemma OneMore(l: Law, cap: nat, g: Shard, run: seq<Check>, c: Check, k: string)
    ensures After(l, cap, g, run + [c]) == CheckShard(l, cap, After(l, cap, g, run), c.key, c.at).0
    ensures Admitted(l, cap, g, run + [c], k) == Admitted(l, cap, g, run, k)
            + if c.key == k && CheckShard(l, cap, After(l, cap, g, run), c.key, c.at).1.Pass? then 1 else 0
  {
    assert (run + [c])[..|run + [c]| - 1] == run;
  }

  /** Shards do not meet: each one's state and verdicts come from its own checks. */
  lemma {:induction false} ShardsAreApart(l: Law, cap: nat, place: string -> nat, shards: seq<Shard>, run: seq<Check>,
                                          s: nat, k: string)
    requires (forall j :: place(j) < |shards|) && s < |shards|
    ensures AllAfter(l, cap, place, shards, run)[s] == After(l, cap, shards[s], Placed(place, run, s))
    ensures s == place(k) ==>
      AllAdmitted(l, cap, place, shards, run, k) == Admitted(l, cap, shards[s], Placed(place, run, s), k)
  {
    if run != [] {
      var init, c := run[..|run| - 1], run[|run| - 1];
      ShardsAreApart(l, cap, place, shards, init, s, k);
      OneMore(l, cap, shards[s], Placed(place, init, s), c, k);
    }
  }

  /** Any window of any run of the limiter admits at most the burst plus the window's refill. */
  lemma LawWindowBound(l: Law, cap: nat, place: string -> nat, empty: seq<Shard>, before: seq<Check>,
                       window: seq<Check>, k: string, start: real, first: real, end: real)
    requires Lawful(l) && (forall j :: place(j) < |empty|) && (forall s :: 0 <= s < |empty| ==> empty[s] == map[])
    requires InOrder(before, start) && EndOf(before, start) <= first
    requires InOrder(window, first) && EndOf(window, first) <= end
    ensures AllAdmitted(l, cap, place, AllAfter(l, cap, place, empty, before), window, k) as real
            <= l.burst + l.gain(end - first)
  {
    var s := place(k);
    ShardsAreApart(l, cap, place, empty, before, s, k);
    ShardsAreApart(l, cap, place, AllAfter(l, cap, place, empty, before), window, s, k);
    PlacedInOrder(place, before, s, start);
    PlacedInOrder(place, window, s, first);
    ShardWindowBound(l, cap, Placed(place, before, s), Placed(place, window, s), k, start, first, end);
  }

  /** For a quota: any checks made in [first, end], after any others, admit at most burst + rate * (end - first). */
  lemma WindowBound(l: Law, q: Quota, cap: nat, place: string -> nat, empty: seq<Shard>,
                    before: seq<Check>, window: seq<Check>, k: string, start: real, first: real, end: real)
    requires Enforces(l, q) && q.burst >= 1.0 && Fits(q)
    requires (forall j :: place(j) < |empty|) && (forall s :: 0 <= s < |empty| ==> empty[s] == map[])
    requires InOrder(before, start) && EndOf(before, start) <= first
    requires InOrder(window, first) && EndOf(window, first) <= end
    ensures AllAdmitted(l, cap, place, AllAfter(l, cap, place, empty, before), window, k) as real
            <= q.burst + (end - first) * q.rate
  {
    QuotaIsLawful(l, q);
    LawWindowBound(l, cap, place, empty, before, window, k, start, first, end);
    GainOf(l, q, end - first);
  }

  /** The same for the law that `Limiter.Check` runs: checks made in [first, end] on a new limiter, after any
      others, admit at most burst + rate * (end - first). */
  lemma LimiterWindowBound(q: Quota, cap: nat, place: string -> nat, empty: seq<Shard>,
                           before: seq<Check>, window: seq<Check>, k: string, start: real, first: real, end: real)
    requires q.rate > 0.0 && q.burst >= 1.0 && Fits(q)
    requires (forall j :: place(j) < |empty|) && (forall s :: 0 <= s < |empty| ==> empty[s] == map[])
    requires InOrder(before, start) && EndOf(before, start) <= first
    requires InOrder(window, first) && EndOf(window, first) <= end
    ensures AllAdmitted(LawOf(q), cap, place, AllAfter(LawOf(q), cap, place, empty, before), window, k) as real
            <= q.burst + (end - first) * q.rate
  {
    LawOfEnforces(q);
    WindowBound(LawOf(q), q, cap, place, empty, before, window, k, start, first, end);
  }

  /** Requests of `k` that pass in the window, after `before`, under quota `q`. */
  function Passed(q: Quota, cap: nat, place: string -> nat, empty: seq<Shard>, before: seq<Check>,
                  window: seq<Check>, k: string): nat
    requires q.rate > 0.0 && forall j :: place(j) < |empty|
  {
    AllAdmitted(LawOf(q), cap, place, AllAfter(LawOf(q), cap, place, empty, before), window, k)
  }

  lemma PassedBound(q: Quota, cap: nat, place: string -> nat, empty: seq<Shard>,
                    before: seq<Check>, window: seq<Check>, k: string, start: real, first: real, end: real)
    requires q.rate > 0.0 && q.burst >= 1.0 && Fits(q)
    requires (forall j :: place(j) < |empty|) && (forall s :: 0 <= s < |empty| ==> empty[s] == map[])
    requires InOrder(before, start) && EndOf(before, start) <= first
    requires InOrder(window, first) && EndOf(window, first) <= end
    ensures Passed(q, cap, place, empty, before, window, k) as real <= q.burst + LawOf(q).gain(end - first)
  {
    LawOfEnforces(q);
    QuotaIsLawful(LawOf(q), q);
    LawWindowBound(LawOf(q), cap, place, empty, before, window, k, start, first, end);
  }

  lemma PerMinuteIs(n: nat, burst: nat) returns (q: Quota)
    requires 1 <= burst <= 10 * n
    ensures q == PerMinute(n, burst) && q.rate > 0.0 && q.burst == burst as real && q.burst >= 1.0 && Fits(q)
  {
    q := PerMinute(n, burst);
    FitsPerMinute(n, burst);
  }

  lemma SixtyGains(n: nat, burst: nat, d: real)
    requires n >= 1
    ensures PerMinute(n, burst).rate > 0.0
    ensures 60.0 * LawOf(PerMinute(n, burst)).gain(d) == n as real * d
  {
    assert d * (n as real / 60.0) * 60.0 == d * (n as real / 60.0 * 60.0);
  }

  /** For `per_minute(n, burst)` with a burst of at most ten times the rate: any window of checks in [first, end]
      admits at most burst + n * (end - first) / 60. */
  lemma PerMinuteBound(n: nat, burst: nat, cap: nat, place: string -> nat, empty: seq<Shard>,
                       before: seq<Check>, window: seq<Check>, k: string, start: real, first: real, end: real)
    requires 1 <= burst <= 10 * n
    requires (forall j :: place(j) < |empty|) && (forall s :: 0 <= s < |empty| ==> empty[s] == map[])
    requires InOrder(before, start) && EndOf(before, start) <= first
    requires InOrder(window, first) && EndOf(window, first) <= end
    ensures PerMinute(n, burst).rate > 0.0
    ensures 60.0 * Passed(PerMinute(n, burst), cap, place, empty, before, window, k) as real
            <= 60.0 * burst as real + n as real * (end - first)
  {
    var q := PerMinuteIs(n, burst);
    PassedBound(q, cap, place, empty, before, window, k, start, first, end);
    SixtyTimes(n, burst, q, Passed(q, cap, place, empty, before, window, k) as real, first, end);
  }

  lemma SixtyTimes(n: nat, burst: nat, q: Quota, admitted: real, first: real, end: real)
    requires q == PerMinute(n, burst) && n >= 1 && burst >= 1
    requires admitted <= q.burst + LawOf(q).gain(end - first)
    ensures 60.0 * admitted <= 60.0 * burst as real + n as real * (end - first)
  {
    SixtyGains(n, burst, end - first);
  }

  ghost predicate SamePotential(l: Law, g1: Shard, g2: Shard, from: real) {
    forall k, t :: from <= t ==> Potential(l, g1, k, t) == Potential(l, g2, k, t)
  }

  /** The same run on shards of any two capacities, one of which may never evict, gives the same verdicts. */
  lemma {:induction false} CapacityChangesNoVerdict(l: Law, cap1: nat, cap2: nat, run: seq<Check>, start: real)
    requires Lawful(l) && InOrder(run, start)
    ensures run != [] ==> VerdictOf(l, cap1, map[], run) == VerdictOf(l, cap2, map[], run)
    ensures Sound(l, After(l, cap1, map[], run), EndOf(run, start))
    ensures Sound(l, After(l, cap2, map[], run), EndOf(run, start))
    ensures SamePotential(l, After(l, cap1, map[], run), After(l, cap2, map[], run), EndOf(run, start))
    decreases |run|
  {
    if run != [] {
      var init, last := run[..|run| - 1], run[|run| - 1];
      CapacityChangesNoVerdict(l, cap1, cap2, init, start);
      var g1, g2 := After(l, cap1, map[], init), After(l, cap2, map[], init);
      forall k, t | last.at <= t
        ensures Potential(l, After(l, cap1, map[], run), k, t) == Potential(l, After(l, cap2, map[], run), k, t)
      {
        CheckEffect(l, cap1, g1, last.key, last.at, k, t);
        CheckEffect(l, cap2, g2, last.key, last.at, k, t);
      }
      CheckEffect(l, cap1, g1, last.key, last.at, last.key, last.at);
      CheckEffect(l, cap2, g2, last.key, last.at, last.key, last.at);
    }
  }

  // ---------- Retry-After ----------

  lemma RetryAfterBounds(tokens: real, rate: real)
    requires rate > 0.0 && tokens < 1.0
    ensures var s := RetryAfter(tokens, rate) as real;
            tokens + s * rate >= 1.0 && (s > 1.0 ==> tokens + (s - 1.0) * rate < 1.0)
  {
    var need, s := 1.0 - tokens, RetryAfter(tokens, rate) as real;
    assert s >= need / rate && (s > 1.0 ==> s - 1.0 < need / rate);
    DivideOut(need, rate, s);
    DivideOut(need, rate, s - 1.0);
  }

  lemma DivideOut(need: real, rate: real, s: real)
    requires rate > 0.0
    ensures s >= need / rate <==> s * rate >= need
  {
    assert need / rate * rate == need;
  }

  ghost predicate Foreign(run: seq<Check>, k: string) {
    forall i :: 0 <= i < |run| ==> run[i].key != k
  }

  /** Checks of other keys leave a bucket as it is, or evict it once it has idled. */
  lemma {:induction false} OthersKeepBucket(l: Law, cap: nat, g: Shard, run: seq<Check>, k: string, start: real)
    requires InOrder(run, start) && Foreign(run, k) && k in g && g[k].last == start
    ensures start <= EndOf(run, start)
    ensures var after := After(l, cap, g, run);
            if k in after then after[k] == g[k] else EndOf(run, start) - start >= IDLE_SECS
  {
    if run != [] {
      OthersKeepBucket(l, cap, g, run[..|run| - 1], k, start);
    }
  }

  lemma CheckKeepsSound(l: Law, cap: nat, g: Shard, key: string, now: real)
    requires Additive(l) && Sound(l, g, now)
    ensures Sound(l, CheckShard(l, cap, g, key, now).0, now)
  {
    PotentialInRange(l, g, key, now);
    PotentialInRange(l, Evicted(g, now), key, now);
  }

  lemma {:induction false} ShardStaysSound(l: Law, cap: nat, run: seq<Check>, start: real)
    requires Additive(l) && InOrder(run, start)
    ensures Sound(l, After(l, cap, map[], run), EndOf(run, start))
  {
    if run != [] {
      var init, last := run[..|run| - 1], run[|run| - 1];
      ShardStaysSound(l, cap, init, start);
      PotentialGrowth(l, After(l, cap, map[], init), last.key, EndOf(init, start), last.at);
      CheckKeepsSound(l, cap, After(l, cap, map[], init), last.key, last.at);
    }
  }

  /** Every shard of every state that a new limiter reaches is sound, whatever the quota. */
  lemma ReachedIsSound(l: Law, cap: nat, place: string -> nat, n: nat, run: seq<Check>, start: real, s: nat, t: real)
    requires Additive(l) && (forall j :: place(j) < n) && s < n && InOrder(run, start) && EndOf(run, start) <= t
    ensures Sound(l, AllAfter(l, cap, place, Empty(n), run)[s], t)
  {
    ShardsAreApart(l, cap, place, Empty(n), run, s, "");
    PlacedInOrder(place, run, s, start);
    ShardStaysSound(l, cap, Placed(place, run, s), start);
  }

  /** Only a key that has a bucket is rejected. */
  lemma RejectedHolds(l: Law, cap: nat, g: Shard, k: string, t: real)
    requires Additive(l) && Sound(l, g, t) && CheckShard(l, cap, g, k, t).1.Reject?
    ensures var tokens := Potential(l, g, k, t);
            && 0.0 <= tokens < 1.0 && k in g
            && CheckShard(l, cap, g, k, t) == (g[k := Bucket(tokens, t)], Reject(l.retry(tokens)))
  {
    PotentialInRange(l, g, k, t);
  }

  /** After a rejection a check at `u` passes exactly when the key was evicted meanwhile, which takes ten minutes,
      or the refill makes a full token. */
  lemma RetryAt(l: Law, cap: nat, g: Shard, k: string, t: real, others: seq<Check>, u: real)
    requires Additive(l) && Sound(l, g, t) && CheckShard(l, cap, g, k, t).1.Reject?
    requires InOrder(others, t) && Foreign(others, k) && EndOf(others, t) <= u
    ensures var after := After(l, cap, CheckShard(l, cap, g, k, t).0, others);
            && (k !in after ==> u - t >= IDLE_SECS)
            && (CheckShard(l, cap, after, k, u).1.Pass? <==>
                  k !in after || Potential(l, g, k, t) + l.gain(u - t) >= 1.0)
  {
    RejectedHolds(l, cap, g, k, t);
    var g1 := CheckShard(l, cap, g, k, t).0;
    OthersKeepBucket(l, cap, g1, others, k, t);
    RefilledInRange(g1[k], l, u);
  }

  lemma RetryGain(l: Law, q: Quota, tokens: real, d: real)
    requires Enforces(l, q) && tokens < 1.0
    ensures d == l.retry(tokens) as real ==> tokens + l.gain(d) >= 1.0
    ensures l.retry(tokens) > 1 && d == l.retry(tokens) as real - 1.0 ==> tokens + l.gain(d) < 1.0
  {
    RetryAfterBounds(tokens, q.rate);
  }

  /** The shard of `k` after a check of it at `t` and then `others` on the whole limiter. */
  function ShardLater(l: Law, cap: nat, place: string -> nat, shards: seq<Shard>, k: string, t: real,
                      others: seq<Check>): Shard
    requires forall j :: place(j) < |shards|
  {
    var s := place(k);
    AllAfter(l, cap, place, shards[s := CheckShard(l, cap, shards[s], k, t).0], others)[s]
  }

  lemma ShardLaterIs(l: Law, cap: nat, place: string -> nat, shards: seq<Shard>, k: string, t: real,
                     others: seq<Check>)
    requires (forall j :: place(j) < |shards|) && InOrder(others, t) && Foreign(others, k)
    ensures var own := Placed(place, others, place(k));
            && ShardLater(l, cap, place, shards, k, t, others)
               == After(l, cap, CheckShard(l, cap, shards[place(k)], k, t).0, own)
            && InOrder(own, t) && Foreign(own, k) && EndOf(own, t) <= EndOf(others, t)
  {
    var s := place(k);
    ShardsAreApart(l, cap, place, shards[s := CheckShard(l, cap, shards[s], k, t).0], others, s, k);
    PlacedInOrder(place, others, s, t);
    PlacedIsForeign(place, others, s, k);
  }

  lemma {:induction false} PlacedIsForeign(place: string -> nat, run: seq<Check>, s: nat, k: string)
    requires Foreign(run, k)
    ensures Foreign(Placed(place, run, s), k)
  {
    if run != [] {
      PlacedIsForeign(place, run[..|run| - 1], s, k);
    }
  }

  lemma {:induction false} PlacedIsShorter(place: string -> nat, run: seq<Check>, s: nat)
    ensures |Placed(place, run, s)| <= |run|
  {
    if run != [] {
      PlacedIsShorter(place, run[..|run| - 1], s);
    }
  }

  /** The retry law on the caller's own shard. */
  lemma ShardRetry(l: Law, q: Quota, cap: nat, g: Shard, k: string, t: real, others: seq<Check>, u: real)
    requires Enforces(l, q) && q.burst >= 1.0 && Sound(l, g, t) && CheckShard(l, cap, g, k, t).1.Reject?
    requires InOrder(others, t) && Foreign(others, k) && EndOf(others, t) <= u
    ensures var (g1, v) := CheckShard(l, cap, g, k, t);
            var again := CheckShard(l, cap, After(l, cap, g1, others), k, u).1;
            && (u == t + v.seconds as real ==> again.Pass?)
            && (v.seconds > 1 && u == t + v.seconds as real - 1.0 && (others == [] || v.seconds <= 600) ==>
                  again.Reject?)
  {
    QuotaIsLawful(l, q);
    RejectedHolds(l, cap, g, k, t);
    RetryAt(l, cap, g, k, t, others, u);
    RetryGain(l, q, Potential(l, g, k, t), u - t);
  }

  lemma LawRetry(l: Law, q: Quota, cap: nat, place: string -> nat, shards: seq<Shard>, k: string, t: real,
                 others: seq<Check>, u: real)
    requires Enforces(l, q) && q.burst >= 1.0 && (forall j :: place(j) < |shards|) && Sound(l, shards[place(k)], t)
    requires InOrder(others, t) && Foreign(others, k) && EndOf(others, t) <= u
    ensures var v := CheckShard(l, cap, shards[place(k)], k, t).1;
            var again := CheckShard(l, cap, ShardLater(l, cap, place, shards, k, t, others), k, u).1;
            v.Reject? ==>
              && (u == t + v.seconds as real ==> again.Pass?)
              && (v.seconds > 1 && u == t + v.seconds as real - 1.0 && (others == [] || v.seconds <= 600) ==>
                    again.Reject?)
  {
    if CheckShard(l, cap, shards[place(k)], k, t).1.Reject? {
      ShardLaterIs(l, cap, place, shards, k, t, others);
      ShardRetry(l, q, cap, shards[place(k)], k, t, Placed(place, others, place(k)), u);
    }
  }

  /** For any quota: a caller told `s` seconds passes after `s` seconds, whatever other keys do in between; and not
      one second earlier, unless others check in between and more than ten minutes were told. */
  lemma RetryAfterIsHonest(q: Quota, cap: nat, place: string -> nat, shards: seq<Shard>, k: string, t: real,
                           others: seq<Check>, u: real)
    requires q.rate > 0.0 && q.burst >= 1.0 && (forall j :: place(j) < |shards|) && Sound(LawOf(q), shards[place(k)], t)
    requires InOrder(others, t) && Foreign(others, k) && EndOf(others, t) <= u
    ensures var v := CheckShard(LawOf(q), cap, shards[place(k)], k, t).1;
            var again := CheckShard(LawOf(q), cap, ShardLater(LawOf(q), cap, place, shards, k, t, others), k, u).1;
            v.Reject? ==>
              && (u == t + v.seconds as real ==> again.Pass?)
              && (v.seconds > 1 && u == t + v.seconds as real - 1.0 && (others == [] || v.seconds <= 600) ==>
                    again.Reject?)
  {
    LawOfEnforces(q);
    LawRetry(LawOf(q), q, cap, place, shards, k, t, others, u);
  }

  /** No rejection tells more than ten minutes exactly when ten minutes refill a token. */
  lemma WaitsFitIff(rate: real)
    requires rate > 0.0
    ensures (forall tokens :: 0.0 <= tokens < 1.0 ==> RetryAfter(tokens, rate) <= 600) <==> IDLE_SECS * rate >= 1.0
  {
    DivideOut(1.0, rate, IDLE_SECS);
    if IDLE_SECS * rate >= 1.0 {
      forall tokens | 0.0 <= tokens < 1.0 ensures RetryAfter(tokens, rate) <= 600 {
        DivideOut(1.0 - tokens, rate, IDLE_SECS);
      }
    } else {
      assert RetryAfter(0.0, rate) > 600;
    }
  }

  /** Every per-minute quota is such: nobody is told more than a minute. */
  lemma WaitsPerMinute(n: nat, burst: nat, tokens: real)
    requires n >= 1 && 0.0 <= tokens < 1.0
    ensures RetryAfter(tokens, PerMinute(n, burst).rate) <= 60
  {
    var rate := PerMinute(n, burst).rate;
    assert 60.0 * rate == n as real;
    DivideOut(1.0 - tokens, rate, 60.0);
  }

  // ---------- Crowding a key out ----------

  ghost predicate AllOn(place: string -> nat, run: seq<Check>, s: nat) {
    forall i :: 0 <= i < |run| ==> place(run[i].key) == s
  }

  lemma OrderOneMore(run: seq<Check>, c: Check, start: real)
    requires InOrder(run, start) && EndOf(run, start) <= c.at
    ensures InOrder(run + [c], start) && EndOf(run + [c], start) == c.at
  {
    assert (run + [c])[..|run + [c]| - 1] == run;
  }

  /** `crowd` are keys of the shard touched at `t`. */
  ghost predicate Touched(g: Shard, crowd: set<string>, t: real) {
    forall j :: j in crowd ==> j in g && g[j].last == t
  }

  lemma NewcomerKeeps(l: Law, cap: nat, g: Shard, key: string, crowd: set<string>, t: real)
    requires Touched(g, crowd, t) && key !in g
    ensures var g' := CheckShard(l, cap, g, key, t).0;
            Touched(g', crowd + {key}, t) && forall j :: j in crowd ==> g'[j] == g[j]
  {}

  /** `n` newcomers at `t` all stay, beside a key touched then. */
  lemma {:induction false} Newcomers(l: Law, cap: nat, g: Shard, k: string, t: real, n: nat, place: string -> nat,
                                     s: nat) returns (run: seq<Check>, crowd: set<string>)
    requires k in g && g[k].last == t && Endless(place, s)
    ensures InOrder(run, t) && EndOf(run, t) == t && Foreign(run, k) && AllOn(place, run, s)
    ensures |crowd| == n + 1 && k in crowd && Touched(After(l, cap, g, run), crowd, t)
  {
    if n == 0 {
      run, crowd := [], {k};
    } else {
      var init, early := Newcomers(l, cap, g, k, t, n - 1, place, s);
      var after := After(l, cap, g, init);
      assert !Covers(place, s, after.Keys);
      var name :| Another(place, s, after.Keys, name);
      NewcomerKeeps(l, cap, after, name, early, t);
      OrderOneMore(init, Check(name, t), t);
      OneMore(l, cap, g, init, Check(name, t), k);
      run, crowd := init + [Check(name, t)], early + {name};
    }
  }

  lemma PartIsSmaller(a: set<string>, b: set<string>)
    requires a <= b
    ensures |a| <= |b|
  {
    assert b == a + (b - a);
  }

  /** Enough newcomers on its shard evict a key that has idled for ten minutes. */
  lemma CrowdOut(l: Law, cap: nat, g: Shard, k: string, t: real, u: real, place: string -> nat, s: nat)
    returns (run: seq<Check>)
    requires k in g && g[k].last == t && t + IDLE_SECS <= u && Endless(place, s)
    ensures InOrder(run, t) && EndOf(run, t) == u && Foreign(run, k) && AllOn(place, run, s)
    ensures k !in After(l, cap, g, run)
  {
    var early, crowd := Newcomers(l, cap, g, k, t, cap, place, s);
    var after := After(l, cap, g, early);
    PartIsSmaller(crowd, after.Keys);
    assert !Covers(place, s, after.Keys);
    var name :| Another(place, s, after.Keys, name);
    assert k in after && after[k].last == t;
    OrderOneMore(early, Check(name, u), t);
    OneMore(l, cap, g, early, Check(name, u), k);
    run := early + [Check(name, u)];
  }

  lemma {:induction false} PlacedAll(place: string -> nat, run: seq<Check>, s: nat)
    requires AllOn(place, run, s)
    ensures Placed(place, run, s) == run
  {
    if run != [] {
      PlacedAll(place, run[..|run| - 1], s);
    }
  }

  /** A caller who checks again at `u` is still rejected. */
  ghost predicate StillTold(l: Law, cap: nat, place: string -> nat, shards: seq<Shard>, k: string, t: real, u: real,
                            others: seq<Check>)
    requires forall j :: place(j) < |shards|
  {
    InOrder(others, t) && Foreign(others, k) && EndOf(others, t) <= u ==>
      CheckShard(l, cap, ShardLater(l, cap, place, shards, k, t, others), k, u).1.Reject?
  }

  /** Whatever other keys do in between. */
  ghost predicate AlwaysTold(l: Law, cap: nat, place: string -> nat, shards: seq<Shard>, k: string, t: real, u: real)
    requires forall j :: place(j) < |shards|
  {
    forall others :: StillTold(l, cap, place, shards, k, t, u, others)
  }

  /** One second before the told time a caller is rejected whatever other keys do, exactly when at most ten minutes
      were told. */
  lemma NotEarlierIff(l: Law, q: Quota, cap: nat, place: string -> nat, shards: seq<Shard>, k: string, t: real)
    requires Enforces(l, q) && q.burst >= 1.0 && (forall j :: place(j) < |shards|) && Endless(place, place(k))
    requires Sound(l, shards[place(k)], t) && CheckShard(l, cap, shards[place(k)], k, t).1.Reject?
    requires CheckShard(l, cap, shards[place(k)], k, t).1.seconds > 1
    ensures var s := CheckShard(l, cap, shards[place(k)], k, t).1.seconds;
            AlwaysTold(l, cap, place, shards, k, t, t + s as real - 1.0) <==> s <= 600
  {
    QuotaIsLawful(l, q);
    var g := shards[place(k)];
    RejectedHolds(l, cap, g, k, t);
    var s := CheckShard(l, cap, g, k, t).1.seconds;
    var u := t + s as real - 1.0;
    if s <= 600 {
      forall others ensures StillTold(l, cap, place, shards, k, t, u, others) {
        if InOrder(others, t) && Foreign(others, k) && EndOf(others, t) <= u {
          LawRetry(l, q, cap, place, shards, k, t, others, u);
        }
      }
    } else {
      var others := CrowdOut(l, cap, CheckShard(l, cap, g, k, t).0, k, t, u, place, place(k));
      ShardLaterIs(l, cap, place, shards, k, t, others);
      PlacedAll(place, others, place(k));
      RetryAt(l, cap, g, k, t, others, u);
      assert !StillTold(l, cap, place, shards, k, t, u, others);
    }
  }

  // ---------- When the burst does not fit, eviction breaks the bound ----------

  lemma {:induction false} Joined(l: Law, cap: nat, g: Shard, a: seq<Check>, b: seq<Check>, k: string)
    ensures After(l, cap, g, a + b) == After(l, cap, After(l, cap, g, a), b)
    ensures Admitted(l, cap, g, a + b, k) == Admitted(l, cap, g, a, k) + Admitted(l, cap, After(l, cap, g, a), b, k)
    decreases |b|
  {
    if b == [] {
      assert a + b == a;
    } else {
      var init, c := b[..|b| - 1], b[|b| - 1];
      assert b == init + [c] && a + b == (a + init) + [c];
      Joined(l, cap, g, a, init, k);
      OneMore(l, cap, g, a + init, c, k);
      OneMore(l, cap, After(l, cap, g, a), init, c, k);
    }
  }

  lemma {:induction false} OrderJoined(a: seq<Check>, b: seq<Check>, start: real, from: real)
    requires InOrder(a, start) && InOrder(b, from) && EndOf(a, start) <= from
    ensures InOrder(a + b, start) && EndOf(a + b, start) <= EndOf(b, from)
    decreases |b|
  {
    if b == [] {
      assert a + b == a;
    } else {
      var init, c := b[..|b| - 1], b[|b| - 1];
      OrderJoined(a, init, start, from);
      OrderOneMore(a + init, c, start);
      assert a + b == a + init + [c];
    }
  }

  /** `n` checks of `k` in one instant. */
  function Salvo(k: string, t: real, n: nat): seq<Check> {
    if n == 0 then [] else Salvo(k, t, n - 1) + [Check(k, t)]
  }

  /** `k` has spent `n` tokens of a full bucket at `t`. */
  predicate Spent(l: Law, g: Shard, k: string, t: real, n: nat) {
    if n == 0 then k !in g else k in g && g[k] == Bucket(l.burst - n as real, t)
  }

  lemma SpendOne(l: Law, cap: nat, g: Shard, k: string, t: real, n: nat)
    requires l.gain(0.0) == 0.0 && n as real + 1.0 <= l.burst && Spent(l, g, k, t, n)
    ensures CheckShard(l, cap, g, k, t).1.Pass? && Spent(l, CheckShard(l, cap, g, k, t).0, k, t, n + 1)
  {
    assert Potential(l, g, k, t) == l.burst - n as real;
  }

  lemma {:induction false} SalvoInOrder(k: string, t: real, n: nat)
    ensures InOrder(Salvo(k, t, n), t) && EndOf(Salvo(k, t, n), t) == t
  {
    if n > 0 {
      SalvoInOrder(k, t, n - 1);
      OrderOneMore(Salvo(k, t, n - 1), Check(k, t), t);
    }
  }

  lemma {:induction false} SalvoOn(place: string -> nat, k: string, t: real, n: nat)
    ensures AllOn(place, Salvo(k, t, n), place(k))
  {
    if n > 0 {
      SalvoOn(place, k, t, n - 1);
    }
  }

  lemma JoinedOn(place: string -> nat, a: seq<Check>, b: seq<Check>, s: nat)
    requires AllOn(place, a, s) && AllOn(place, b, s)
    ensures AllOn(place, a + b, s)
  {}

  /** All `n` requests of `k` in the run passed, and spent that much of a full bucket at `t`. */
  ghost predicate Drained(l: Law, cap: nat, g: Shard, run: seq<Check>, k: string, t: real, n: nat) {
    Admitted(l, cap, g, run, k) == n && Spent(l, After(l, cap, g, run), k, t, n)
  }

  lemma DrainStep(l: Law, cap: nat, g: Shard, run: seq<Check>, k: string, t: real, n: nat)
    requires l.gain(0.0) == 0.0 && n as real + 1.0 <= l.burst && Drained(l, cap, g, run, k, t, n)
    ensures Drained(l, cap, g, run + [Check(k, t)], k, t, n + 1)
  {
    OneMore(l, cap, g, run, Check(k, t), k);
    SpendOne(l, cap, After(l, cap, g, run), k, t, n);
  }

  /** A full bucket of `n` tokens passes `n` requests in one instant. */
  lemma {:induction false} Drain(l: Law, cap: nat, g: Shard, k: string, t: real, n: nat)
    requires l.gain(0.0) == 0.0 && n as real <= l.burst && k !in g
    ensures Drained(l, cap, g, Salvo(k, t, n), k, t, n)
  {
    if n > 0 {
      Drain(l, cap, g, k, t, n - 1);
      DrainStep(l, cap, g, Salvo(k, t, n - 1), k, t, n - 1);
    }
  }

  /** A drained key that is crowded out starts full again: twice the burst within ten minutes. */
  lemma Overrun(l: Law, cap: nat, k: string, burst: nat, place: string -> nat, s: nat) returns (run: seq<Check>)
    requires l.gain(0.0) == 0.0 && l.burst == burst as real && burst >= 1 && place(k) == s && Endless(place, s)
    ensures InOrder(run, 0.0) && EndOf(run, 0.0) <= IDLE_SECS && AllOn(place, run, s)
    ensures Admitted(l, cap, map[], run, k) >= 2 * burst
  {
    var first, second := Salvo(k, 0.0, burst), Salvo(k, IDLE_SECS, burst);
    SalvoInOrder(k, 0.0, burst);
    SalvoInOrder(k, IDLE_SECS, burst);
    Drain(l, cap, map[], k, 0.0, burst);
    var drained := After(l, cap, map[], first);
    var between := CrowdOut(l, cap, drained, k, 0.0, IDLE_SECS, place, s);
    Drain(l, cap, After(l, cap, drained, between), k, IDLE_SECS, burst);
    var early := first + between;
    Joined(l, cap, map[], first, between, k);
    Joined(l, cap, map[], early, second, k);
    OrderJoined(first, between, 0.0, 0.0);
    OrderJoined(early, second, 0.0, IDLE_SECS);
    SalvoOn(place, k, 0.0, burst);
    SalvoOn(place, k, IDLE_SECS, burst);
    JoinedOn(place, first, between, s);
    JoinedOn(place, early, second, s);
    run := early + second;
  }

  /** Checks made in [first, end] on a new limiter admit no more than the burst plus refill. */
  ghost predicate Within(l: Law, q: Quota, cap: nat, place: string -> nat, n: nat, run: seq<Check>, k: string,
                         first: real, end: real)
    requires forall j :: place(j) < n
  {
    InOrder(run, first) && EndOf(run, first) <= end ==>
      AllAdmitted(l, cap, place, Empty(n), run, k) as real <= q.burst + (end - first) * q.rate
  }

  ghost predicate Bounded(l: Law, q: Quota, cap: nat, place: string -> nat, n: nat)
    requires forall j :: place(j) < n
  {
    forall run, k, first, end :: Within(l, q, cap, place, n, run, k, first, end)
  }

  /** Wherever keys are placed, the rate bound holds exactly for the quotas whose burst refills within the idle
      time. */
  lemma BoundedIffFits(l: Law, q: Quota, cap: nat, place: string -> nat, n: nat, burst: nat)
    requires Enforces(l, q) && q.burst == burst as real && burst >= 1 && forall j :: place(j) < n
    ensures Bounded(l, q, cap, place, n) <==> Fits(q)
  {
    if Fits(q) {
      FitsBounds(l, q, cap, place, n);
    } else {
      var run, k := OverrunBreaks(l, q, cap, place, n, burst);
    }
  }

  lemma FitsBounds(l: Law, q: Quota, cap: nat, place: string -> nat, n: nat)
    requires Enforces(l, q) && q.burst >= 1.0 && Fits(q) && forall j :: place(j) < n
    ensures Bounded(l, q, cap, place, n)
  {
    forall run, k, first, end ensures Within(l, q, cap, place, n, run, k, first, end) {
      if InOrder(run, first) && EndOf(run, first) <= end {
        WindowBound(l, q, cap, place, Empty(n), [], run, k, first, first, end);
      }
    }
  }

  lemma OverrunBreaks(l: Law, q: Quota, cap: nat, place: string -> nat, n: nat, burst: nat)
    returns (run: seq<Check>, k: string)
    requires Enforces(l, q) && q.burst == burst as real && burst >= 1 && !Fits(q) && forall j :: place(j) < n
    ensures InOrder(run, 0.0) && !Within(l, q, cap, place, n, run, k, 0.0, IDLE_SECS)
  {
    GainOf(l, q, 0.0);
    var s := SomeShardIsEndless(place, n);
    assert !Covers(place, s, {});
    k :| Another(place, s, {}, k);
    run := Overrun(l, cap, k, burst, place, s);
    PlacedAll(place, run, s);
    ShardsAreApart(l, cap, place, Empty(n), run, s, k);
    assert AllAdmitted(l, cap, place, Empty(n), run, k) as real >= 2.0 * q.burst;
  }

  // ---------- Exactly when eviction never shows ----------

  /** What the last check of a run is answered. */
  function LastVerdict(l: Law, cap: nat, place: string -> nat, shards: seq<Shard>, run: seq<Check>): Verdict
    requires run != [] && forall j :: place(j) < |shards|
  {
    var c := run[|run| - 1];
    CheckShard(l, cap, AllAfter(l, cap, place, shards, run[..|run| - 1])[place(c.key)], c.key, c.at).1
  }

  ghost predicate SameVerdict(l: Law, place: string -> nat, n: nat, cap1: nat, cap2: nat, run: seq<Check>, start: real)
    requires forall j :: place(j) < n
  {
    cap1 >= 1 && cap2 >= 1 && run != [] && InOrder(run, start) ==>
      LastVerdict(l, cap1, place, Empty(n), run) == LastVerdict(l, cap2, place, Empty(n), run)
  }

  /** The last check of a run is answered alike at all capacities, and so with and without eviction. */
  ghost predicate EvictionNeverShows(l: Law, place: string -> nat, n: nat)
    requires forall j :: place(j) < n
  {
    forall cap1, cap2, run, start :: SameVerdict(l, place, n, cap1, cap2, run, start)
  }

  lemma {:induction false} SameAdmitted(l: Law, place: string -> nat, n: nat, cap1: nat, cap2: nat, run: seq<Check>,
                                        k: string, start: real)
    requires (forall j :: place(j) < n) && EvictionNeverShows(l, place, n) && InOrder(run, start)
    requires cap1 >= 1 && cap2 >= 1
    ensures AllAdmitted(l, cap1, place, Empty(n), run, k) == AllAdmitted(l, cap2, place, Empty(n), run, k)
  {
    if run != [] {
      assert SameVerdict(l, place, n, cap1, cap2, run, start);
      SameAdmitted(l, place, n, cap1, cap2, run[..|run| - 1], k, start);
    }
  }

  lemma ShardRoomyBound(l: Law, q: Quota, cap: nat, run: seq<Check>, k: string, first: real, end: real)
    requires Enforces(l, q) && q.burst >= 1.0 && |run| <= cap && InOrder(run, first) && EndOf(run, first) <= end
    ensures Admitted(l, cap, map[], run, k) as real <= q.burst + (end - first) * q.rate
  {
    QuotaIsLawful(l, q);
    AdmitBound(l, cap, map[], run, k, first);
    PaidBound(l, cap, map[], run, k, first, EndOf(run, first), end);
    GainOf(l, q, end - first);
  }

  /** With room for every check there is no eviction, and the bound holds for any quota. */
  lemma RoomyBound(l: Law, q: Quota, place: string -> nat, n: nat, run: seq<Check>, k: string, first: real, end: real)
    requires Enforces(l, q) && q.burst >= 1.0 && forall j :: place(j) < n
    ensures Within(l, q, |run| + 1, place, n, run, k, first, end)
  {
    if InOrder(run, first) && EndOf(run, first) <= end {
      var s, cap := place(k), |run| + 1;
      ShardsAreApart(l, cap, place, Empty(n), run, s, k);
      PlacedInOrder(place, run, s, first);
      PlacedIsShorter(place, run, s);
      ShardRoomyBound(l, q, cap, Placed(place, run, s), k, first, end);
    }
  }

  lemma LawfulNeverShows(l: Law, place: string -> nat, n: nat, cap1: nat, cap2: nat, run: seq<Check>, start: real)
    requires Lawful(l) && forall j :: place(j) < n
    ensures SameVerdict(l, place, n, cap1, cap2, run, start)
  {
    if run != [] && InOrder(run, start) {
      var init, c := run[..|run| - 1], run[|run| - 1];
      var s := place(c.key);
      ShardsAreApart(l, cap1, place, Empty(n), init, s, c.key);
      ShardsAreApart(l, cap2, place, Empty(n), init, s, c.key);
      PlacedInOrder(place, run, s, start);
      CapacityChangesNoVerdict(l, cap1, cap2, Placed(place, run, s), start);
      assert Placed(place, run, s)[..|Placed(place, run, s)| - 1] == Placed(place, init, s);
    }
  }

  /** Wherever keys are placed, no verdict of any run depends on the capacity, and so on eviction, exactly when ten
      minutes refill the burst. */
  lemma EvictionNeverShowsIff(l: Law, q: Quota, place: string -> nat, n: nat, burst: nat)
    requires Enforces(l, q) && q.burst == burst as real && burst >= 1 && forall j :: place(j) < n
    ensures EvictionNeverShows(l, place, n) <==> Fits(q)
  {
    QuotaIsLawful(l, q);
    if Fits(q) {
      forall cap1, cap2, run, start ensures SameVerdict(l, place, n, cap1, cap2, run, start) {
        LawfulNeverShows(l, place, n, cap1, cap2, run, start);
      }
    } else if EvictionNeverShows(l, place, n) {
      var run, k := OverrunBreaks(l, q, 1, place, n, burst);
      RoomyBound(l, q, place, n, run, k, 0.0, IDLE_SECS);
      SameAdmitted(l, place, n, 1, |run| + 1, run, k, 0.0);
      assert false;
    }
  }
}
