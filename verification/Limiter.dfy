/**
 The per-key token bucket with opportunistic eviction. Tokens and time are reals; time is in seconds.
 `Step` is one call of `Allow`; `Run` is any history of calls, with or without eviction.
*/
module Limiter {
  import opened Basics

  datatype Bucket = Bucket(tokens: real, lastSeen: real)

  type Buckets = map<string, Bucket>

  datatype Config = Config(rate: real, burst: int, staleAfter: real, sweepAtSize: int)

  const DEFAULT_STALE_AFTER := 600.0
  const DEFAULT_SWEEP_AT_SIZE := 1000

  /** Tokens earned over a stretch of time. */
  function Earned(cfg: Config, elapsed: real): real {
    elapsed * cfg.rate
  }

  function Capped(cfg: Config, tokens: real): real {
    if tokens > cfg.burst as real then cfg.burst as real else tokens
  }

  /** Tokens in a bucket when it is touched at a given time. */
  function Refill(cfg: Config, b: Bucket, now: real): real {
    Capped(cfg, b.tokens + Earned(cfg, now - b.lastSeen))
  }

  function Sweep(cfg: Config, bs: Buckets, now: real): Buckets {
    if |bs| < cfg.sweepAtSize then bs
    else map k | k in bs && now - bs[k].lastSeen <= cfg.staleAfter :: bs[k]
  }

  /** One call; `evicting` is false for the idealised limiter that never forgets a key. */
  function Step(cfg: Config, bs: Buckets, key: string, now: real, evicting: bool): (Buckets, bool) {
    if key !in bs then
      var kept := if evicting then Sweep(cfg, bs, now) else bs;
      (kept[key := Bucket(cfg.burst as real - 1.0, now)], true)
    else
      var t := Refill(cfg, bs[key], now);
      if t < 1.0 then (bs[key := Bucket(t, now)], false)
      else (bs[key := Bucket(t - 1.0, now)], true)
  }

  /** The configuration of a limiter as `New` builds it. */
  function NewConfig(rate: real, burst: int): Config {
    Config(rate, burst, DEFAULT_STALE_AFTER, DEFAULT_SWEEP_AT_SIZE)
  }

  class TokenBuckets {
    var buckets: Buckets
    const cfg: Config

    constructor New(rate: real, burst: int)
      ensures buckets == map[]
      ensures cfg == NewConfig(rate, burst)
    {
      buckets := map[];
      cfg := NewConfig(rate, burst);
    }

    method Allow(key: string, now: real) returns (ok: bool)
      modifies this
      ensures (buckets, ok) == Step(cfg, old(buckets), key, now, true)
    {
      if key !in buckets {
        SweepLocked(now);
        buckets := buckets[key := Bucket(cfg.burst as real - 1.0, now)];
        return true;
      }
      var b := buckets[key];
      var elapsed := now - b.lastSeen;
      b := b.(tokens := b.tokens + elapsed * cfg.rate);
      assert elapsed * cfg.rate == Earned(cfg, elapsed);
      if b.tokens > cfg.burst as real {
        b := b.(tokens := cfg.burst as real);
      }
      b := b.(lastSeen := now);
      buckets := buckets[key := b];
      if b.tokens < 1.0 {
        return false;
      }
      b := b.(tokens := b.tokens - 1.0);
      assert buckets[key := b] == old(buckets)[key := b];
      buckets := buckets[key := b];
      return true;
    }

    method SweepLocked(now: real)
      modifies this
      ensures buckets == Sweep(cfg, old(buckets), now)
    {
      if |buckets| < cfg.sweepAtSize {
        return;
      }
      var todo := buckets.Keys;
      while todo != {}
        invariant todo <= buckets.Keys <= old(buckets).Keys
        invariant forall k :: k in buckets ==> buckets[k] == old(buckets)[k]
        invariant forall k :: k in old(buckets) && k !in todo ==>
          (k in buckets <==> now - old(buckets)[k].lastSeen <= cfg.staleAfter)
        decreases todo
      {
        var k :| k in todo;
        if now - buckets[k].lastSeen > cfg.staleAfter {
          buckets := buckets - {k};
        }
        todo := todo - {k};
      }
    }
  }

  // ---- Histories

  datatype Request = Request(key: string, at: real)

  type History = seq<Request>

  predicate Ordered(hist: History) {
    forall i, j :: 0 <= i < j < |hist| ==> hist[i].at <= hist[j].at
  }

  /** The buckets after a history, and the answer to every request in it. */
  function Run(cfg: Config, hist: History, evicting: bool): (r: (Buckets, seq<bool>))
    ensures |r.1| == |hist|
  {
    if hist == [] then (map[], [])
    else
      var n := |hist| - 1;
      var (bs, outs) := Run(cfg, hist[..n], evicting);
      var (bs', ok) := Step(cfg, bs, hist[n].key, hist[n].at, evicting);
      (bs', outs + [ok])
  }

  /** How many requests for a key were admitted at or after a time. */
  function Admitted(hist: History, outs: seq<bool>, key: string, since: real): nat
    requires |outs| == |hist|
  {
    if hist == [] then 0
    else
      var n := |hist| - 1;
      Admitted(hist[..n], outs[..n], key, since)
      + if hist[n].key == key && hist[n].at >= since && outs[n] then 1 else 0
  }

  /** The same count over the closed window [since, until]. */
  function AdmittedIn(hist: History, outs: seq<bool>, key: string, since: real, until: real): nat
    requires |outs| == |hist|
  {
    if hist == [] then 0
    else
      var n := |hist| - 1;
      AdmittedIn(hist[..n], outs[..n], key, since, until)
      + if hist[n].key == key && since <= hist[n].at <= until && outs[n] then 1 else 0
  }

  /** What the bound burst + rate * (t - s) leaves for a key in the window from s to t. */
  function Budget(cfg: Config, hist: History, evicting: bool, key: string, s: real, t: real): real {
    cfg.burst as real + Earned(cfg, t - s) - Admitted(hist, Run(cfg, hist, evicting).1, key, s) as real
  }

  predicate Sane(cfg: Config) {
    cfg.rate >= 0.0 && cfg.burst >= 1
  }

  lemma RunSnoc(cfg: Config, hist: History, r: Request, evicting: bool)
    ensures var (bs, outs) := Run(cfg, hist, evicting);
            var (bs', ok) := Step(cfg, bs, r.key, r.at, evicting);
            Run(cfg, hist + [r], evicting) == (bs', outs + [ok])
  {
  }

  lemma AdmittedSnoc(hist: History, outs: seq<bool>, r: Request, ok: bool, key: string, since: real)
    requires |outs| == |hist|
    ensures Admitted(hist + [r], outs + [ok], key, since) ==
            Admitted(hist, outs, key, since) + if r.key == key && r.at >= since && ok then 1 else 0
  {
  }

  lemma EarnedAdds(cfg: Config, a: real, b: real, c: real)
    ensures Earned(cfg, b - a) + Earned(cfg, c - b) == Earned(cfg, c - a)
  {
  }

  lemma EarnedMonotone(cfg: Config, x: real, y: real)
    requires cfg.rate >= 0.0 && x <= y
    ensures Earned(cfg, x) <= Earned(cfg, y)
  {
    assert Earned(cfg, y) - Earned(cfg, x) == (y - x) * cfg.rate;
  }

  lemma EarnedNonNegative(cfg: Config, x: real)
    requires cfg.rate >= 0.0 && x >= 0.0
    ensures Earned(cfg, x) >= 0.0
  {
  }

  /** Buckets never look into the future, never go into debt, and never hold more than a full burst. */
  lemma {:induction false} BucketsInRange(cfg: Config, hist: History, evicting: bool, now: real)
    requires Sane(cfg) && Ordered(hist) && forall r :: r in hist ==> r.at <= now
    ensures forall k :: k in Run(cfg, hist, evicting).0 ==>
      var b := Run(cfg, hist, evicting).0[k]; b.lastSeen <= now && 0.0 <= b.tokens <= cfg.burst as real
  {
    if hist != [] {
      var n := |hist| - 1;
      var r := hist[n];
      assert r in hist;
      BucketsInRange(cfg, hist[..n], evicting, r.at);
      var bs := Run(cfg, hist[..n], evicting).0;
      if r.key in bs {
        EarnedNonNegative(cfg, r.at - bs[r.key].lastSeen);
      }
    }
  }

  /** For every window, the tokens in a bucket stay within what the window's bound still leaves. */
  lemma {:induction false} TokensWithinBudget(cfg: Config, hist: History, key: string, s: real)
    requires Sane(cfg) && Ordered(hist)
    ensures var (bs, outs) := Run(cfg, hist, false);
            if key in bs && s <= bs[key].lastSeen
            then bs[key].tokens <= Budget(cfg, hist, false, key, s, bs[key].lastSeen)
            else Admitted(hist, outs, key, s) == 0
    decreases |hist|, 0
  {
    if hist != [] {
      var n := |hist| - 1;
      var r := hist[n];
      var pre := hist[..n];
      TokensWithinBudget(cfg, pre, key, s);
      assert Run(cfg, hist, false).1[..n] == Run(cfg, pre, false).1;
      if r.key == key {
        BucketsInRange(cfg, pre, false, r.at);
        if s <= r.at {
          AvailableWithinBudget(cfg, pre, key, r.at, s);
        }
      }
    }
  }

  /** Some window's bound is met with equality: a bucket holds no less than the tightest window allows. */
  lemma {:induction false} TokensAttainBudget(cfg: Config, hist: History, key: string) returns (s: real)
    requires Sane(cfg) && Ordered(hist) && key in Run(cfg, hist, false).0
    ensures var b := Run(cfg, hist, false).0[key];
            s <= b.lastSeen && b.tokens == Budget(cfg, hist, false, key, s, b.lastSeen)
    decreases |hist|, 0
  {
    var n := |hist| - 1;
    var r := hist[n];
    var (bs, outs) := Run(cfg, hist[..n], false);
    assert Run(cfg, hist, false).1[..n] == outs;
    if r.key != key {
      s := TokensAttainBudget(cfg, hist[..n], key);
    } else if key !in bs {
      s := r.at;
      TokensWithinBudget(cfg, hist[..n], key, s);
    } else {
      s := AvailableAttained(cfg, hist[..n], key, r.at);
    }
  }

  /** The tokens a request finds; a key never seen finds a full bucket. */
  function Available(cfg: Config, bs: Buckets, key: string, now: real): real {
    if key in bs then Refill(cfg, bs[key], now) else cfg.burst as real
  }

  lemma {:induction false} AvailableAttained(cfg: Config, hist: History, key: string, now: real) returns (s: real)
    requires Sane(cfg) && Ordered(hist) && forall r :: r in hist ==> r.at <= now
    ensures s <= now && Available(cfg, Run(cfg, hist, false).0, key, now) == Budget(cfg, hist, false, key, s, now)
    decreases |hist|, 1
  {
    var bs := Run(cfg, hist, false).0;
    s := now;
    TokensWithinBudget(cfg, hist, key, now);
    if key in bs {
      BucketsInRange(cfg, hist, false, now);
      var b := bs[key];
      if b.lastSeen == now || Refill(cfg, b, now) < cfg.burst as real {
        s := TokensAttainBudget(cfg, hist, key);
        EarnedAdds(cfg, s, b.lastSeen, now);
      }
    }
  }

  lemma {:induction false} AvailableWithinBudget(cfg: Config, hist: History, key: string, now: real, s: real)
    requires Sane(cfg) && Ordered(hist) && s <= now && forall r :: r in hist ==> r.at <= now
    ensures Available(cfg, Run(cfg, hist, false).0, key, now) <= Budget(cfg, hist, false, key, s, now)
    decreases |hist|, 1
  {
    var bs := Run(cfg, hist, false).0;
    TokensWithinBudget(cfg, hist, key, s);
    EarnedNonNegative(cfg, now - s);
    if key in bs && s <= bs[key].lastSeen {
      EarnedAdds(cfg, s, bs[key].lastSeen, now);
    }
  }

  /** Admitting one more request at t would break the bound of the window that starts at s. */
  predicate WouldExceed(cfg: Config, hist: History, evicting: bool, r: Request, s: real) {
    s <= r.at
    && Admitted(hist, Run(cfg, hist, evicting).1, r.key, s) as real + 1.0 > cfg.burst as real + Earned(cfg, r.at - s)
  }

  /** The last request is denied exactly if some window would be exceeded. */
  ghost predicate LastAnswerExact(cfg: Config, hist: History, evicting: bool)
    requires hist != []
  {
    var n := |hist| - 1;
    !Run(cfg, hist, evicting).1[n] <==> exists s :: WouldExceed(cfg, hist[..n], evicting, hist[n], s)
  }

  /** Without eviction: a request is denied if and only if admitting it would overfill some window. */
  lemma DeniedIffWindowFull(cfg: Config, hist: History)
    requires Sane(cfg) && Ordered(hist) && hist != []
    ensures LastAnswerExact(cfg, hist, false)
  {
    var n := |hist| - 1;
    var pre, r := hist[..n], hist[n];
    var s0 := AvailableAttained(cfg, pre, r.key, r.at);
    ExceedsIffNoBudget(cfg, pre, r, s0);
    forall s | WouldExceed(cfg, pre, false, r, s) ensures Available(cfg, Run(cfg, pre, false).0, r.key, r.at) < 1.0 {
      AvailableWithinBudget(cfg, pre, r.key, r.at, s);
      ExceedsIffNoBudget(cfg, pre, r, s);
    }
    AnswerIsAvailability(cfg, hist);
  }

  lemma ExceedsIffNoBudget(cfg: Config, hist: History, r: Request, s: real)
    ensures WouldExceed(cfg, hist, false, r, s) <==> s <= r.at && Budget(cfg, hist, false, r.key, s, r.at) < 1.0
  {
  }

  lemma AnswerIsAvailability(cfg: Config, hist: History)
    requires cfg.burst >= 1 && hist != []
    ensures var n := |hist| - 1;
            Run(cfg, hist, false).1[n] <==> Available(cfg, Run(cfg, hist[..n], false).0, hist[n].key, hist[n].at) >= 1.0
  {
  }

  /** With a negative rate or no burst, a key's first request is admitted beyond the bound of some window. */
  lemma FirstRequestExceeds(cfg: Config, evicting: bool) returns (hist: History, s: real)
    requires !Sane(cfg)
    ensures Ordered(hist) && hist != [] && !LastAnswerExact(cfg, hist, evicting)
    ensures s <= 0.0
    ensures AdmittedIn(hist, Run(cfg, hist, evicting).1, "k", s, 0.0) as real > cfg.burst as real + Earned(cfg, 0.0 - s)
  {
    var r := Request("k", 0.0);
    hist := [r];
    assert hist[..0] == [];
    s := if cfg.burst < 1 then 0.0 else cfg.burst as real / cfg.rate;
    assert cfg.burst >= 1 ==> Earned(cfg, 0.0 - s) == -(cfg.burst as real);
    assert WouldExceed(cfg, hist[..0], evicting, r, s);
    assert Run(cfg, hist, evicting).1[0];
  }

  /** Without eviction the limiter is exact on all histories for just the configurations with rate >= 0, burst >= 1. */
  lemma ExactIffSane(cfg: Config)
    ensures (forall hist: History :: Ordered(hist) && hist != [] ==> LastAnswerExact(cfg, hist, false)) <==> Sane(cfg)
  {
    if Sane(cfg) {
      forall hist: History | Ordered(hist) && hist != [] ensures LastAnswerExact(cfg, hist, false) {
        DeniedIffWindowFull(cfg, hist);
      }
    } else {
      var hist, s := FirstRequestExceeds(cfg, false);
    }
  }

  /** Without eviction, in every closed window a key's admitted requests respect burst + rate * length. */
  lemma {:induction false} WindowBound(cfg: Config, hist: History, key: string, s: real, t: real)
    requires Sane(cfg) && Ordered(hist) && s <= t
    ensures AdmittedIn(hist, Run(cfg, hist, false).1, key, s, t) as real <= cfg.burst as real + Earned(cfg, t - s)
  {
    var outs := Run(cfg, hist, false).1;
    if hist == [] {
      EarnedNonNegative(cfg, t - s);
    } else if hist[|hist| - 1].at > t {
      assert outs[..|hist| - 1] == Run(cfg, hist[..|hist| - 1], false).1;
      WindowBound(cfg, hist[..|hist| - 1], key, s, t);
    } else {
      AdmittedInIsSince(hist, outs, key, s, t);
      AdmittedBound(cfg, hist, key, s, t);
    }
  }

  lemma AdmittedBound(cfg: Config, hist: History, key: string, s: real, t: real)
    requires Sane(cfg) && Ordered(hist) && s <= t && forall r :: r in hist ==> r.at <= t
    ensures Admitted(hist, Run(cfg, hist, false).1, key, s) as real <= cfg.burst as real + Earned(cfg, t - s)
  {
    AvailableWithinBudget(cfg, hist, key, t, s);
    BucketsInRange(cfg, hist, false, t);
    var bs := Run(cfg, hist, false).0;
    if key in bs {
      EarnedNonNegative(cfg, t - bs[key].lastSeen);
    }
  }

  lemma {:induction false} AdmittedInIsSince(hist: History, outs: seq<bool>, key: string, s: real, t: real)
    requires |outs| == |hist| && forall r :: r in hist ==> r.at <= t
    ensures AdmittedIn(hist, outs, key, s, t) == Admitted(hist, outs, key, s)
  {
    if hist != [] {
      AdmittedInIsSince(hist[..|hist| - 1], outs[..|hist| - 1], key, s, t);
      assert hist[|hist| - 1] in hist;
    }
  }

  // ---- Eviction

  /** The evicting limiter has forgotten only keys whose buckets would by now be full again. */
  predicate Forgets(cfg: Config, evicting: Buckets, keeping: Buckets, now: real) {
    && evicting.Keys <= keeping.Keys
    && (forall k :: k in evicting ==> evicting[k] == keeping[k])
    && (forall k :: k in keeping && k !in evicting ==> Refill(cfg, keeping[k], now) == cfg.burst as real)
  }

  lemma FullStaysFull(cfg: Config, b: Bucket, now: real, later: real)
    requires cfg.rate >= 0.0 && now <= later && Refill(cfg, b, now) == cfg.burst as real
    ensures Refill(cfg, b, later) == cfg.burst as real
  {
    EarnedMonotone(cfg, now - b.lastSeen, later - b.lastSeen);
  }

  lemma StaleIsFull(cfg: Config, b: Bucket, now: real)
    requires Sane(cfg) && RefillsBeforeEviction(cfg)
    requires b.tokens >= 0.0 && now - b.lastSeen > cfg.staleAfter
    ensures Refill(cfg, b, now) == cfg.burst as real
  {
    EarnedMonotone(cfg, cfg.staleAfter, now - b.lastSeen);
  }

  lemma {:induction false} EvictionSimulates(cfg: Config, hist: History, now: real)
    requires Sane(cfg) && RefillsBeforeEviction(cfg)
    requires Ordered(hist) && forall r :: r in hist ==> r.at <= now
    ensures Run(cfg, hist, true).1 == Run(cfg, hist, false).1
    ensures Forgets(cfg, Run(cfg, hist, true).0, Run(cfg, hist, false).0, now)
  {
    if hist != [] {
      var n := |hist| - 1;
      var r := hist[n];
      assert r in hist;
      EvictionSimulates(cfg, hist[..n], r.at);
      BucketsInRange(cfg, hist[..n], false, r.at);
      var e, k := Run(cfg, hist[..n], true).0, Run(cfg, hist[..n], false).0;
      var e', k' := Run(cfg, hist, true).0, Run(cfg, hist, false).0;
      forall x | x in k' && x !in e' ensures Refill(cfg, k'[x], now) == cfg.burst as real {
        if x in e {
          StaleIsFull(cfg, k[x], r.at);
        }
        FullStaysFull(cfg, k[x], r.at, now);
      }
    }
  }

  // ---- What eviction bounds

  /** The keys requested by request i - 1, or within the staleness limit before it. */
  function ActiveKeys(cfg: Config, hist: History, i: nat): set<string>
    requires i <= |hist|
  {
    set j: nat | j < i && (j == i - 1 || hist[i - 1].at - hist[j].at <= cfg.staleAfter) :: hist[j].key
  }

  /** The map holds no more than so many keys or, if larger, the number of keys that were active at i. */
  predicate MapWithin(cfg: Config, hist: History, i: nat, size: int)
    requires i <= |hist|
  {
    var active := |ActiveKeys(cfg, hist, i)|;
    |Run(cfg, hist, true).0| <= if active > size then active else size
  }

  /** A bucket was last seen at its key's last request. */
  lemma {:induction false} SeenAtRequest(cfg: Config, hist: History, key: string) returns (j: nat)
    requires key in Run(cfg, hist, true).0
    ensures j < |hist| && hist[j] == Request(key, Run(cfg, hist, true).0[key].lastSeen)
    ensures forall m :: j < m < |hist| ==> hist[m].key != key
  {
    var n := |hist| - 1;
    if hist[n].key == key {
      j := n;
    } else {
      j := SeenAtRequest(cfg, hist[..n], key);
    }
  }

  /** After a sweep only keys that were active then are left. */
  lemma SweepKeepsActive(cfg: Config, hist: History)
    requires hist != []
    requires var n := |hist| - 1; var bs := Run(cfg, hist[..n], true).0; hist[n].key !in bs && |bs| >= cfg.sweepAtSize
    ensures Run(cfg, hist, true).0.Keys <= ActiveKeys(cfg, hist, |hist|)
  {
    var n := |hist| - 1;
    var bs := Run(cfg, hist[..n], true).0;
    forall k | k in Run(cfg, hist, true).0 ensures k in ActiveKeys(cfg, hist, |hist|) {
      if k != hist[n].key {
        assert k in Sweep(cfg, bs, hist[n].at);
        var j := SeenAtRequest(cfg, hist[..n], k);
        assert hist[j] == hist[..n][j];
      } else {
        assert n < |hist|;
      }
    }
  }

  /**
   The map stays bounded: it never holds more keys than the sweep size or, if larger, the number of keys that were
   active at some moment of the history.
  */
  lemma {:induction false} MapIsBounded(cfg: Config, hist: History) returns (i: nat)
    ensures i <= |hist|
    ensures MapWithin(cfg, hist, i, cfg.sweepAtSize)
  {
    if hist == [] {
      return 0;
    }
    var n := |hist| - 1;
    var bs := Run(cfg, hist[..n], true).0;
    if hist[n].key in bs {
      i := MapIsBounded(cfg, hist[..n]);
      assert ActiveKeys(cfg, hist[..n], i) == ActiveKeys(cfg, hist, i);
      assert Run(cfg, hist, true).0.Keys == bs.Keys;
    } else if |bs| < cfg.sweepAtSize {
      assert Run(cfg, hist, true).0.Keys == bs.Keys + {hist[n].key};
      i := 0;
    } else {
      SweepKeepsActive(cfg, hist);
      SubsetSize(Run(cfg, hist, true).0.Keys, ActiveKeys(cfg, hist, |hist|));
      i := |hist|;
    }
  }

  predicate EvictionInvisible(cfg: Config, hist: History) {
    Run(cfg, hist, true).1 == Run(cfg, hist, false).1
  }

  /** An idle bucket is full again by the time it may be evicted. */
  predicate RefillsBeforeEviction(cfg: Config) {
    Earned(cfg, cfg.staleAfter) >= cfg.burst as real
  }

  lemma EvictionIsInvisible(cfg: Config, hist: History)
    requires Sane(cfg) && RefillsBeforeEviction(cfg) && Ordered(hist)
    ensures EvictionInvisible(cfg, hist)
  {
    EvictionSimulates(cfg, hist, if hist == [] then 0.0 else hist[|hist| - 1].at);
  }

  /** Eviction changes no answer in any run exactly if an idle bucket refills within the staleness limit. */
  lemma EvictionInvisibleIff(cfg: Config)
    requires Sane(cfg)
    ensures (forall hist: History :: Ordered(hist) ==> EvictionInvisible(cfg, hist)) <==> RefillsBeforeEviction(cfg)
  {
    if RefillsBeforeEviction(cfg) {
      forall hist: History | Ordered(hist) ensures EvictionInvisible(cfg, hist) {
        EvictionIsInvisible(cfg, hist);
      }
    } else {
      var hist, e := EarlyEviction(cfg);
      AdmittedBound(cfg, hist, KEY_A, 0.0, e);
    }
  }

  lemma EvictingDeniedIffWindowFull(cfg: Config, hist: History)
    requires Sane(cfg) && RefillsBeforeEviction(cfg) && Ordered(hist) && hist != []
    ensures LastAnswerExact(cfg, hist, true)
  {
    var n := |hist| - 1;
    EvictionIsInvisible(cfg, hist);
    EvictionIsInvisible(cfg, hist[..n]);
    DeniedIffWindowFull(cfg, hist);
    forall s ensures WouldExceed(cfg, hist[..n], true, hist[n], s) <==> WouldExceed(cfg, hist[..n], false, hist[n], s) {
    }
  }

  /**
   Exact token bucket: the limiter as it runs, evicting, denies a request if and only if admitting it would overfill
   some window, on every history, exactly if rate >= 0, burst >= 1 and idle buckets refill before they are evicted.
  */
  lemma EvictingExactIff(cfg: Config)
    ensures (forall hist: History :: Ordered(hist) && hist != [] ==> LastAnswerExact(cfg, hist, true))
            <==> Sane(cfg) && RefillsBeforeEviction(cfg)
  {
    if !Sane(cfg) {
      var hist, s := FirstRequestExceeds(cfg, true);
    } else if RefillsBeforeEviction(cfg) {
      forall hist: History | Ordered(hist) && hist != [] ensures LastAnswerExact(cfg, hist, true) {
        EvictingDeniedIffWindowFull(cfg, hist);
      }
    } else {
      var hist, e := EarlyEviction(cfg);
      var n := |hist| - 1;
      assert WouldExceed(cfg, hist[..n], true, hist[n], 0.0);
    }
  }

  /** The limiter as it runs admits no more than burst + rate * length of a key's requests in the window. */
  predicate BoundHolds(cfg: Config, hist: History, key: string, s: real, t: real) {
    AdmittedIn(hist, Run(cfg, hist, true).1, key, s, t) as real <= cfg.burst as real + Earned(cfg, t - s)
  }

  /** All windows of all histories respect the bound under exactly the same three conditions. */
  lemma EvictingWindowBoundIff(cfg: Config)
    ensures (forall hist: History, key, s, t :: Ordered(hist) && s <= t ==> BoundHolds(cfg, hist, key, s, t))
            <==> Sane(cfg) && RefillsBeforeEviction(cfg)
  {
    if !Sane(cfg) {
      var hist, s := FirstRequestExceeds(cfg, true);
      assert !BoundHolds(cfg, hist, "k", s, 0.0);
    } else if RefillsBeforeEviction(cfg) {
      forall hist: History, key, s, t | Ordered(hist) && s <= t ensures BoundHolds(cfg, hist, key, s, t) {
        EvictionIsInvisible(cfg, hist);
        WindowBound(cfg, hist, key, s, t);
      }
    } else {
      var hist, e := EarlyEviction(cfg);
      AdmittedInIsSince(hist, Run(cfg, hist, true).1, KEY_A, 0.0, e);
      assert !BoundHolds(cfg, hist, KEY_A, 0.0, e);
    }
  }

  // ---- The limiter as `New` builds it

  lemma NewMeetsConditionsIff(rate: real, burst: int)
    ensures Sane(NewConfig(rate, burst)) && RefillsBeforeEviction(NewConfig(rate, burst))
            <==> rate >= 0.0 && burst >= 1 && 600.0 * rate >= burst as real
  {
    assert Earned(NewConfig(rate, burst), 600.0) == 600.0 * rate;
  }

  /** It is exact on all histories exactly if ten minutes' tokens fill a bucket. */
  lemma NewExactIff(rate: real, burst: int)
    ensures (forall hist: History :: Ordered(hist) && hist != [] ==>
               LastAnswerExact(NewConfig(rate, burst), hist, true))
            <==> rate >= 0.0 && burst >= 1 && 600.0 * rate >= burst as real
  {
    EvictingExactIff(NewConfig(rate, burst));
    NewMeetsConditionsIff(rate, burst);
  }

  /** Its map holds more than a thousand keys only if so many were active within ten minutes. */
  lemma NewMapIsBounded(rate: real, burst: int, hist: History) returns (i: nat)
    ensures i <= |hist|
    ensures MapWithin(NewConfig(rate, burst), hist, i, 1000)
  {
    i := MapIsBounded(NewConfig(rate, burst), hist);
  }

  // A history on which a too-early eviction shows: drain a key, fill the map, wait just past the limit,
  // bring in a new key, and drain the first key again.

  predicate SeenAt(bs: Buckets, t: real) {
    forall k :: k in bs ==> bs[k].lastSeen == t
  }

  const KEY_A := "a"

  /** Key "a" has made exactly i of its burst's requests, all at one moment. */
  predicate Drained(cfg: Config, bs: Buckets, at: real, i: int) {
    if i == 0 then KEY_A !in bs
    else KEY_A in bs && bs[KEY_A] == Bucket((cfg.burst - i) as real, at)
  }

  lemma DrainStep(cfg: Config, bs: Buckets, at: real, i: int)
    requires 0 <= i < cfg.burst && Drained(cfg, bs, at, i)
    ensures var (bs', ok) := Step(cfg, bs, KEY_A, at, true);
            ok && Drained(cfg, bs', at, i + 1) && bs'.Keys <= bs.Keys + {KEY_A} && (SeenAt(bs, at) ==> SeenAt(bs', at))
  {
    assert Earned(cfg, at - at) == 0.0;
    if i > 0 {
      assert Refill(cfg, bs[KEY_A], at) == (cfg.burst - i) as real;
    }
  }

  /** Admits a whole burst for key "a" at one moment, if that key is unknown beforehand. */
  lemma {:induction false} Drain(cfg: Config, hist: History, at: real, n: int) returns (h: History)
    requires 0 <= n <= cfg.burst && at >= 0.0
    requires Ordered(hist) && forall r :: r in hist ==> r.at <= at
    requires KEY_A !in Run(cfg, hist, true).0
    ensures Ordered(h) && forall r :: r in h ==> r.at <= at
    ensures Drained(cfg, Run(cfg, h, true).0, at, n)
    ensures Run(cfg, h, true).0.Keys <= Run(cfg, hist, true).0.Keys + {KEY_A}
    ensures SeenAt(Run(cfg, hist, true).0, at) ==> SeenAt(Run(cfg, h, true).0, at)
    ensures Admitted(h, Run(cfg, h, true).1, KEY_A, 0.0) == Admitted(hist, Run(cfg, hist, true).1, KEY_A, 0.0) + n
    ensures n > 0 ==> h != [] && h[|h| - 1] == Request(KEY_A, at) && Run(cfg, h, true).1[|h| - 1]
    decreases n
  {
    if n == 0 {
      h := hist;
    } else {
      var g := Drain(cfg, hist, at, n - 1);
      var r := Request(KEY_A, at);
      DrainStep(cfg, Run(cfg, g, true).0, at, n - 1);
      RunSnoc(cfg, g, r, true);
      AdmittedSnoc(g, Run(cfg, g, true).1, r, true, KEY_A, 0.0);
      h := g + [r];
    }
  }

  function Filler(j: nat): string {
    seq(j + 1, _ => 'x')
  }

  /** Fills the map at time 0 until a sweep becomes possible, without losing or admitting anything for key "a". */
  lemma FillMap(cfg: Config, hist: History) returns (h: History)
    requires Ordered(hist) && forall r :: r in hist ==> r.at <= 0.0
    requires SeenAt(Run(cfg, hist, true).0, 0.0) && forall j :: Filler(j) !in Run(cfg, hist, true).0
    ensures Ordered(h) && forall r :: r in h ==> r.at <= 0.0
    ensures SeenAt(Run(cfg, h, true).0, 0.0) && |Run(cfg, h, true).0| >= cfg.sweepAtSize
    ensures Admitted(h, Run(cfg, h, true).1, KEY_A, 0.0) == Admitted(hist, Run(cfg, hist, true).1, KEY_A, 0.0)
    ensures forall k :: k in Run(cfg, h, true).0 ==> k in Run(cfg, hist, true).0 || exists j :: k == Filler(j)
  {
    h := hist;
    var i := 0;
    while |Run(cfg, h, true).0| < cfg.sweepAtSize
      invariant 0 <= i
      invariant Ordered(h) && forall r :: r in h ==> r.at <= 0.0
      invariant SeenAt(Run(cfg, h, true).0, 0.0)
      invariant forall j :: j >= i ==> Filler(j) !in Run(cfg, h, true).0
      invariant Admitted(h, Run(cfg, h, true).1, KEY_A, 0.0) == Admitted(hist, Run(cfg, hist, true).1, KEY_A, 0.0)
      invariant forall k :: k in Run(cfg, h, true).0 ==> k in Run(cfg, hist, true).0 || exists j :: k == Filler(j)
      decreases cfg.sweepAtSize - |Run(cfg, h, true).0|
    {
      var r := Request(Filler(i), 0.0);
      assert Filler(i)[0] == 'x';
      RunSnoc(cfg, h, r, true);
      AdmittedSnoc(h, Run(cfg, h, true).1, r, true, KEY_A, 0.0);
      forall j | j >= i + 1 ensures Filler(j) != Filler(i) {
        assert |Filler(j)| != |Filler(i)|;
      }
      h, i := h + [r], i + 1;
    }
  }

  /** A time past the limit by which an empty bucket has not refilled. */
  function TooEarly(cfg: Config): real {
    if cfg.staleAfter < 0.0 then 0.0
    else if cfg.rate == 0.0 then cfg.staleAfter + 1.0
    else (cfg.staleAfter + cfg.burst as real / cfg.rate) / 2.0
  }

  lemma TooEarlyIsPastLimit(cfg: Config)
    requires Sane(cfg) && !RefillsBeforeEviction(cfg)
    ensures TooEarly(cfg) >= 0.0 && TooEarly(cfg) > cfg.staleAfter && Earned(cfg, TooEarly(cfg)) < cfg.burst as real
  {
    if cfg.staleAfter >= 0.0 && cfg.rate > 0.0 {
      var full := cfg.burst as real / cfg.rate;
      assert Earned(cfg, full) == cfg.burst as real;
      if full <= cfg.staleAfter {
        EarnedMonotone(cfg, full, cfg.staleAfter);
      }
      assert Earned(cfg, TooEarly(cfg)) == (Earned(cfg, cfg.staleAfter) + Earned(cfg, full)) / 2.0;
    }
  }

  /** The evicting limiter admits two whole bursts for key "a" within a time that does not earn one. */
  lemma EarlyEviction(cfg: Config) returns (hist: History, e: real)
    requires Sane(cfg) && !RefillsBeforeEviction(cfg)
    ensures Ordered(hist) && (forall r :: r in hist ==> r.at <= e) && e >= 0.0 && Earned(cfg, e) < cfg.burst as real
    ensures Admitted(hist, Run(cfg, hist, true).1, KEY_A, 0.0) == 2 * cfg.burst
    ensures hist != []
    ensures var n := |hist| - 1;
            hist[n] == Request(KEY_A, e) && Run(cfg, hist, true).1[n]
            && Admitted(hist[..n], Run(cfg, hist[..n], true).1, KEY_A, 0.0) == 2 * cfg.burst - 1
  {
    TooEarlyIsPastLimit(cfg);
    e := TooEarly(cfg);
    var h := DrainAndFill(cfg);
    var g := EvictAll(cfg, h, e);
    hist := Drain(cfg, g, e, cfg.burst);
    var n := |hist| - 1;
    assert Run(cfg, hist, true).1[..n] == Run(cfg, hist[..n], true).1;
  }

  lemma DrainAndFill(cfg: Config) returns (h: History)
    requires Sane(cfg)
    ensures Ordered(h) && forall r :: r in h ==> r.at <= 0.0
    ensures SeenAt(Run(cfg, h, true).0, 0.0) && |Run(cfg, h, true).0| >= cfg.sweepAtSize
    ensures "g" !in Run(cfg, h, true).0
    ensures Admitted(h, Run(cfg, h, true).1, KEY_A, 0.0) == cfg.burst
  {
    h := Drain(cfg, [], 0.0, cfg.burst);
    forall j ensures Filler(j) !in Run(cfg, h, true).0 && Filler(j) != "g" {
      assert Filler(j)[0] == 'x' && KEY_A[0] == 'a' && "g"[0] == 'g';
    }
    assert "g"[0] != KEY_A[0];
    h := FillMap(cfg, h);
  }

  /** A new key's arrival past the limit evicts everything last seen at time 0. */
  lemma EvictAll(cfg: Config, h: History, e: real) returns (g: History)
    requires e > cfg.staleAfter && e >= 0.0
    requires Ordered(h) && forall r :: r in h ==> r.at <= 0.0
    requires SeenAt(Run(cfg, h, true).0, 0.0) && |Run(cfg, h, true).0| >= cfg.sweepAtSize
    requires "g" !in Run(cfg, h, true).0
    ensures Ordered(g) && forall r :: r in g ==> r.at <= e
    ensures KEY_A !in Run(cfg, g, true).0
    ensures Admitted(g, Run(cfg, g, true).1, KEY_A, 0.0) == Admitted(h, Run(cfg, h, true).1, KEY_A, 0.0)
  {
    var r := Request("g", e);
    assert "g"[0] != KEY_A[0];
    RunSnoc(cfg, h, r, true);
    AdmittedSnoc(h, Run(cfg, h, true).1, r, true, KEY_A, 0.0);
    g := h + [r];
  }
}
