// The token-bucket rate limiter: one atomic script that refills, caps, admits or
// denies, writes the bucket back and re-arms its time to live.
module TokenBucket {
  import opened Wrappers

  datatype Config = Config(maxTokens: real, windowSecs: real) {
    predicate Valid() { maxTokens >= 1.0 && windowSecs >= 1.0 }
  }

  // A stored hash, together with the instant at which Redis forgets it.
  datatype Bucket = Bucket(tokens: real, lastRefill: real, expiresAt: real)

  // A request carries the caller's clock; Redis expires keys by its own clock.
  datatype Request = Request(now: real, redisNow: real)

  datatype Verdict = Verdict(allowed: bool, retryAfter: int)

  function Min(a: real, b: real): real { if a <= b then a else b }

  function Ceil(x: real): int { -((-x).Floor) }

  function Refill(cfg: Config, elapsed: real): real
    requires cfg.Valid()
  {
    elapsed / cfg.windowSecs * cfg.maxTokens
  }

  // What reading the key returns.
  function Stored(b: Option<Bucket>, redisNow: real): Option<Bucket> {
    if b.Some? && redisNow < b.value.expiresAt then b else None
  }

  // The token count after refilling, before a token is taken.
  function Level(cfg: Config, b: Option<Bucket>, now: real): real
    requires cfg.Valid()
  {
    var tokens := if b.Some? then b.value.tokens else cfg.maxTokens;
    var lastRefill := if b.Some? then b.value.lastRefill else now;
    Min(cfg.maxTokens, tokens + Refill(cfg, now - lastRefill))
  }

  // One execution of the script on the bucket it read.
  function Serve(cfg: Config, b: Option<Bucket>, r: Request): (Bucket, Verdict)
    requires cfg.Valid()
  {
    var tokens := Level(cfg, b, r.now);
    var expiresAt := r.redisNow + cfg.windowSecs * 2.0;
    if tokens < 1.0 then
      (Bucket(tokens, r.now, expiresAt),
       Verdict(false, Ceil((1.0 - tokens) / (cfg.maxTokens / cfg.windowSecs))))
    else
      (Bucket(tokens - 1.0, r.now, expiresAt), Verdict(true, 0))
  }

  // The Redis database, as far as the rate limiter uses it.
  class RateLimitStore {
    var buckets: map<string, Bucket>

    constructor ()
      ensures buckets == map[]
    {
      buckets := map[];
    }

    function At(key: string): Option<Bucket>
      reads this
    {
      if key in buckets then Some(buckets[key]) else None
    }

    // The script, statement by statement. Only the bucket of the key changes.
    method Eval(key: string, cfg: Config, r: Request) returns (v: Verdict)
      requires cfg.Valid()
      modifies this
      ensures key in buckets
      ensures (buckets[key], v) == Serve(cfg, Stored(old(At(key)), r.redisNow), r)
      ensures buckets == old(buckets)[key := buckets[key]]
      ensures v.allowed ==> v.retryAfter == 0
      ensures buckets[key].lastRefill == r.now && buckets[key].expiresAt == r.redisNow + 2.0 * cfg.windowSecs
    {
      var found := key in buckets && r.redisNow < buckets[key].expiresAt;
      var tokens := if found then buckets[key].tokens else cfg.maxTokens;
      var lastRefill := if found then buckets[key].lastRefill else r.now;

      var elapsed := r.now - lastRefill;
      var refill := elapsed / cfg.windowSecs * cfg.maxTokens;
      tokens := Min(cfg.maxTokens, tokens + refill);

      assert tokens == Level(cfg, Stored(At(key), r.redisNow), r.now);

      if tokens < 1.0 {
        var waitFrac := (1.0 - tokens) / (cfg.maxTokens / cfg.windowSecs);
        buckets := buckets[key := Bucket(tokens, r.now, r.redisNow + cfg.windowSecs * 2.0)];
        return Verdict(false, Ceil(waitFrac));
      }

      tokens := tokens - 1.0;
      buckets := buckets[key := Bucket(tokens, r.now, r.redisNow + cfg.windowSecs * 2.0)];
      return Verdict(true, 0);
    }
  }
}
