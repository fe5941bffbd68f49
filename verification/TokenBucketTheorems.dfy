// What whole runs of the rate limiter guarantee.
module TokenBucketTheorems {
  import opened Wrappers
  import opened TokenBucket

  // ----- Runs -----

  datatype Trace = Trace(bucket: Option<Bucket>, verdicts: seq<Verdict>)

  // Serves the requests in order, starting from an absent key. Without `expiry`, Redis
  // never forgets the key.
  function Run(cfg: Config, expiry: bool, reqs: seq<Request>): (t: Trace)
    requires cfg.Valid()
    ensures |t.verdicts| == |reqs|
  {
    if |reqs| == 0 then Trace(None, [])
    else
      var before := Run(cfg, expiry, reqs[..|reqs| - 1]);
      var r := reqs[|reqs| - 1];
      var (b, v) := Serve(cfg, if expiry then Stored(before.bucket, r.redisNow) else before.bucket, r);
      Trace(Some(b), before.verdicts + [v])
  }

  // The caller and Redis share one clock that never runs backwards.
  ghost predicate SharedClock(reqs: seq<Request>) {
    && (forall i | 0 <= i < |reqs| :: reqs[i].now == reqs[i].redisNow)
    && (forall i, j | 0 <= i <= j < |reqs| :: reqs[i].now <= reqs[j].now)
  }

  function CountAllowed(vs: seq<Verdict>): nat {
    if |vs| == 0 then 0 else CountAllowed(vs[..|vs| - 1]) + if vs[|vs| - 1].allowed then 1 else 0
  }

  // The instants of the admitted requests.
  function Admitted(reqs: seq<Request>, vs: seq<Verdict>): seq<real>
    requires |reqs| == |vs|
  {
    if |reqs| == 0 then []
    else
      Admitted(reqs[..|reqs| - 1], vs[..|vs| - 1])
      + if vs[|vs| - 1].allowed then [reqs[|reqs| - 1].now] else []
  }

  lemma {:induction false} RunStep(cfg: Config, expiry: bool, reqs: seq<Request>, r: Request)
    requires cfg.Valid()
    ensures var before := Run(cfg, expiry, reqs);
            var (b, v) := Serve(cfg, if expiry then Stored(before.bucket, r.redisNow) else before.bucket, r);
            Run(cfg, expiry, reqs + [r]) == Trace(Some(b), before.verdicts + [v])
  {
  }

  lemma {:induction false} AdmittedStep(reqs: seq<Request>, vs: seq<Verdict>, r: Request, v: Verdict)
    requires |reqs| == |vs|
    ensures Admitted(reqs + [r], vs + [v]) == Admitted(reqs, vs) + if v.allowed then [r.now] else []
  {
  }

  lemma {:induction false} SharedClockPrefix(reqs: seq<Request>, more: seq<Request>)
    requires SharedClock(reqs + more)
    ensures SharedClock(reqs)
  {
    forall i | 0 <= i < |reqs| ensures reqs[i].now == reqs[i].redisNow {
      assert (reqs + more)[i] == reqs[i];
    }
    forall i, j | 0 <= i <= j < |reqs| ensures reqs[i].now <= reqs[j].now {
      assert (reqs + more)[i] == reqs[i] && (reqs + more)[j] == reqs[j];
    }
  }

  lemma {:induction false} ClockAdvances(reqs: seq<Request>, r: Request)
    requires |reqs| > 0 && SharedClock(reqs + [r])
    ensures reqs[|reqs| - 1].now <= r.now
  {
    assert (reqs + [r])[|reqs| - 1] == reqs[|reqs| - 1] && (reqs + [r])[|reqs|] == r;
  }

  // ----- Refills are linear in time -----

  lemma {:induction false} RefillAdds(cfg: Config, a: real, b: real)
    requires cfg.Valid()
    ensures Refill(cfg, a + b) == Refill(cfg, a) + Refill(cfg, b)
  {
  }

  lemma {:induction false} RefillGrows(cfg: Config, d: real)
    requires cfg.Valid()
    ensures d >= 0.0 ==> Refill(cfg, d) >= 0.0
    ensures d >= cfg.windowSecs ==> Refill(cfg, d) >= cfg.maxTokens
    ensures d == 0.0 ==> Refill(cfg, d) == 0.0
  {
  }

  // ----- Forgetting the key is invisible -----

  lemma {:induction false} BucketShape(cfg: Config, expiry: bool, reqs: seq<Request>)
    requires cfg.Valid() && SharedClock(reqs) && |reqs| > 0
    ensures var b := Run(cfg, expiry, reqs).bucket;
            var last := reqs[|reqs| - 1];
            && b.Some?
            && 0.0 <= b.value.tokens <= cfg.maxTokens
            && b.value.lastRefill == last.now
            && b.value.expiresAt == last.now + cfg.windowSecs * 2.0
  {
    var before := reqs[..|reqs| - 1];
    var last := reqs[|reqs| - 1];
    RefillGrows(cfg, 0.0);
    if |before| == 0 {
    } else {
      SharedClockPrefix(before, [last]);
      assert before + [last] == reqs;
      BucketShape(cfg, expiry, before);
      RefillGrows(cfg, last.now - before[|before| - 1].now);
    }
  }

  // Redis holds what a request has written for two windows, and not longer.
  lemma {:induction false} KeptForTwoWindows(cfg: Config, b: Option<Bucket>, r: Request, later: real)
    requires cfg.Valid()
    ensures Stored(Some(Serve(cfg, b, r).0), later).Some? <==> later - r.redisNow < 2.0 * cfg.windowSecs
  {
  }

  // Letting Redis forget the key two windows after the last write changes no decision, no
  // retry hint and no stored bucket: an idle bucket is full again well before that.
  lemma {:induction false} ExpiryIsInvisible(cfg: Config, reqs: seq<Request>)
    requires cfg.Valid() && SharedClock(reqs)
    ensures Run(cfg, true, reqs) == Run(cfg, false, reqs)
  {
    if |reqs| == 0 {
    } else {
      var before := reqs[..|reqs| - 1];
      var last := reqs[|reqs| - 1];
      assert before + [last] == reqs;
      SharedClockPrefix(before, [last]);
      ExpiryIsInvisible(cfg, before);
      RefillGrows(cfg, 0.0);
      if |before| > 0 {
        BucketShape(cfg, false, before);
        RefillGrows(cfg, last.now - before[|before| - 1].now);
      }
    }
  }

  // ----- The bucket is a quota over every window -----

  // How many of the instants lie at or after `start`.
  function CountSince(times: seq<real>, start: real): nat {
    if |times| == 0 then 0
    else CountSince(times[..|times| - 1], start) + if times[|times| - 1] >= start then 1 else 0
  }

  // The reference limiter: with a request at `now` added, no window that opens at an earlier
  // admission holds more than a full bucket plus what the window refills.
  ghost predicate Quota(cfg: Config, admitted: seq<real>, now: real)
    requires cfg.Valid()
  {
    forall i | 0 <= i < |admitted| :: WindowFits(cfg, admitted, admitted[i], now)
  }

  ghost predicate WindowFits(cfg: Config, admitted: seq<real>, start: real, now: real)
    requires cfg.Valid()
  {
    (CountSince(admitted, start) + 1) as real
    <= cfg.maxTokens + (now - start) * cfg.maxTokens / cfg.windowSecs
  }

  // `level` is what the windows of all admissions leave available at `now`.
  ghost predicate IsLevel(cfg: Config, level: real, admitted: seq<real>, now: real)
    requires cfg.Valid()
  {
    && level <= cfg.maxTokens
    && (forall i | 0 <= i < |admitted| :: level <= Allowance(cfg, admitted, i, now))
    && (level == cfg.maxTokens || exists i | 0 <= i < |admitted| :: level == Allowance(cfg, admitted, i, now))
  }

  function Allowance(cfg: Config, admitted: seq<real>, i: nat, now: real): real
    requires cfg.Valid() && i < |admitted|
  {
    cfg.maxTokens + Refill(cfg, now - admitted[i]) - (|admitted| - i) as real
  }

  lemma {:induction false} LevelRises(cfg: Config, level: real, admitted: seq<real>, t: real, now: real)
    requires cfg.Valid() && t <= now && IsLevel(cfg, level, admitted, t)
    ensures IsLevel(cfg, Min(cfg.maxTokens, level + Refill(cfg, now - t)), admitted, now)
  {
    RefillGrows(cfg, now - t);
    forall i | 0 <= i < |admitted|
      ensures Allowance(cfg, admitted, i, now) == Allowance(cfg, admitted, i, t) + Refill(cfg, now - t)
    {
      RefillAdds(cfg, now - t, t - admitted[i]);
    }
  }

  lemma {:induction false} LevelDrops(cfg: Config, level: real, admitted: seq<real>, now: real)
    requires cfg.Valid() && IsLevel(cfg, level, admitted, now)
    ensures IsLevel(cfg, level - 1.0, admitted + [now], now)
  {
    RefillGrows(cfg, 0.0);
    var after := admitted + [now];
    forall i | 0 <= i < |admitted|
      ensures Allowance(cfg, after, i, now) == Allowance(cfg, admitted, i, now) - 1.0
    {
      assert after[i] == admitted[i];
    }
    assert Allowance(cfg, after, |admitted|, now) == cfg.maxTokens - 1.0;
  }

  lemma {:induction false} ServeKeepsTheLevel(
      cfg: Config, b: Option<Bucket>, r: Request, admitted: seq<real>, now: real)
    requires cfg.Valid() && r.now <= now
    requires IsLevel(cfg, Level(cfg, b, r.now), admitted, r.now)
    ensures var (b', v) := Serve(cfg, b, r);
            IsLevel(cfg, Level(cfg, Some(b'), now), admitted + if v.allowed then [r.now] else [], now)
  {
    var (b', v) := Serve(cfg, b, r);
    if v.allowed {
      LevelDrops(cfg, Level(cfg, b, r.now), admitted, r.now);
      LevelRises(cfg, b'.tokens, admitted + [r.now], r.now, now);
    } else {
      assert admitted + [] == admitted;
      LevelRises(cfg, b'.tokens, admitted, r.now, now);
    }
  }

  lemma {:induction false} BucketHoldsTheLevel(cfg: Config, reqs: seq<Request>, now: real)
    requires cfg.Valid() && SharedClock(reqs)
    requires |reqs| > 0 ==> reqs[|reqs| - 1].now <= now
    ensures var t := Run(cfg, false, reqs);
            IsLevel(cfg, Level(cfg, t.bucket, now), Admitted(reqs, t.verdicts), now)
  {
    if |reqs| == 0 {
      RefillGrows(cfg, 0.0);
    } else {
      var before := reqs[..|reqs| - 1];
      var last := reqs[|reqs| - 1];
      assert before + [last] == reqs;
      SharedClockPrefix(before, [last]);
      BucketHoldsTheLevel(cfg, before, last.now);
      var t := Run(cfg, false, before);
      AdmittedStep(before, t.verdicts, last, Serve(cfg, t.bucket, last).1);
      ServeKeepsTheLevel(cfg, t.bucket, last, Admitted(before, t.verdicts), now);
    }
  }

  // ----- Windows by time and windows by position agree -----

  ghost predicate Ascending(times: seq<real>) {
    forall i, j | 0 <= i <= j < |times| :: times[i] <= times[j]
  }

  lemma {:induction false} AdmittedAscend(reqs: seq<Request>, vs: seq<Verdict>, now: real)
    requires |reqs| == |vs| && SharedClock(reqs)
    requires |reqs| > 0 ==> reqs[|reqs| - 1].now <= now
    ensures Ascending(Admitted(reqs, vs))
    ensures forall i | 0 <= i < |Admitted(reqs, vs)| :: Admitted(reqs, vs)[i] <= now
  {
    if |reqs| == 0 {
    } else {
      var before := reqs[..|reqs| - 1];
      var last := reqs[|reqs| - 1];
      assert before + [last] == reqs;
      SharedClockPrefix(before, [last]);
      AdmittedAscend(before, vs[..|vs| - 1], last.now);
    }
  }

  // In an ascending list the window that opens at position k holds everything from the first
  // entry of the same instant on.
  lemma {:induction false} CountSinceIsSuffix(times: seq<real>, k: nat, start: real)
    requires Ascending(times) && k <= |times|
    requires forall i | 0 <= i < k :: times[i] < start
    requires k < |times| ==> times[k] >= start
    ensures CountSince(times, start) == |times| - k
  {
    if |times| == 0 {
    } else {
      var front := times[..|times| - 1];
      if k == |times| {
        CountSinceIsSuffix(front, |front|, start);
      } else {
        CountSinceIsSuffix(front, k, start);
      }
    }
  }

  lemma {:induction false} FirstOf(times: seq<real>, i: nat) returns (k: nat)
    requires Ascending(times) && i < |times|
    ensures k <= i && times[k] == times[i]
    ensures forall j | 0 <= j < k :: times[j] < times[i]
  {
    k := i;
    while k > 0 && times[k - 1] == times[i]
      invariant k <= i && times[k] == times[i]
    {
      k := k - 1;
    }
    assert forall j | 0 <= j < k :: times[j] <= times[k - 1];
  }

  lemma {:induction false} RateForms(cfg: Config, d: real)
    requires cfg.Valid()
    ensures d * cfg.maxTokens / cfg.windowSecs == Refill(cfg, d)
  {
  }

  lemma {:induction false} QuotaAtPosition(cfg: Config, admitted: seq<real>, i: nat, now: real) returns (k: nat)
    requires cfg.Valid() && Ascending(admitted) && i < |admitted|
    ensures k <= i && Allowance(cfg, admitted, k, now) <= Allowance(cfg, admitted, i, now)
    ensures WindowFits(cfg, admitted, admitted[i], now) <==> Allowance(cfg, admitted, k, now) >= 1.0
  {
    RateForms(cfg, now - admitted[i]);
    k := FirstOf(admitted, i);
    CountSinceIsSuffix(admitted, k, admitted[i]);
  }

  lemma {:induction false} QuotaByPosition(cfg: Config, admitted: seq<real>, now: real)
    requires cfg.Valid() && Ascending(admitted)
    ensures Quota(cfg, admitted, now) <==>
            forall i | 0 <= i < |admitted| :: Allowance(cfg, admitted, i, now) >= 1.0
  {
    if Quota(cfg, admitted, now) {
      forall i | 0 <= i < |admitted| ensures Allowance(cfg, admitted, i, now) >= 1.0 {
        var k := QuotaAtPosition(cfg, admitted, i, now);
      }
    }
    if forall i | 0 <= i < |admitted| :: Allowance(cfg, admitted, i, now) >= 1.0 {
      forall i | 0 <= i < |admitted|
        ensures WindowFits(cfg, admitted, admitted[i], now)
      {
        var k := QuotaAtPosition(cfg, admitted, i, now);
      }
    }
  }

  lemma {:induction false} RefinementWithoutExpiry(cfg: Config, reqs: seq<Request>, r: Request)
    requires cfg.Valid() && SharedClock(reqs)
    requires |reqs| > 0 ==> reqs[|reqs| - 1].now <= r.now
    ensures var t := Run(cfg, false, reqs);
            Serve(cfg, t.bucket, r).1.allowed <==> Quota(cfg, Admitted(reqs, t.verdicts), r.now)
  {
    var t := Run(cfg, false, reqs);
    BucketHoldsTheLevel(cfg, reqs, r.now);
    AdmittedAscend(reqs, t.verdicts, r.now);
    QuotaByPosition(cfg, Admitted(reqs, t.verdicts), r.now);
  }

  lemma {:induction false} ExpiryServesAlike(cfg: Config, reqs: seq<Request>, r: Request)
    requires cfg.Valid() && SharedClock(reqs + [r])
    ensures Serve(cfg, Stored(Run(cfg, true, reqs).bucket, r.redisNow), r)
            == Serve(cfg, Run(cfg, false, reqs).bucket, r)
  {
    ExpiryIsInvisible(cfg, reqs + [r]);
    RunStep(cfg, true, reqs, r);
    RunStep(cfg, false, reqs, r);
    var kept := Serve(cfg, Run(cfg, false, reqs).bucket, r);
    assert Run(cfg, true, reqs + [r]).verdicts[|reqs|] == kept.1;
  }

  // The stored pair of numbers decides exactly as the reference limiter that remembers every
  // admission, on every run that starts from an absent key.
  lemma {:induction false} ExactRefinement(cfg: Config, reqs: seq<Request>, r: Request)
    requires cfg.Valid() && SharedClock(reqs) && r.now == r.redisNow
    requires |reqs| > 0 ==> reqs[|reqs| - 1].now <= r.now
    ensures var t := Run(cfg, true, reqs);
            Serve(cfg, Stored(t.bucket, r.redisNow), r).1.allowed
            <==> Quota(cfg, Admitted(reqs, t.verdicts), r.now)
  {
    SharedClockStep(reqs, r);
    ExpiryIsInvisible(cfg, reqs);
    ExpiryServesAlike(cfg, reqs, r);
    RefinementWithoutExpiry(cfg, reqs, r);
  }

  lemma {:induction false} SharedClockStep(reqs: seq<Request>, r: Request)
    requires SharedClock(reqs) && r.now == r.redisNow
    requires |reqs| > 0 ==> reqs[|reqs| - 1].now <= r.now
    ensures SharedClock(reqs + [r])
  {
  }

  // ----- Every window is bounded, whatever the callers' clocks do -----

  // The k-th request finds the key of its predecessor still alive.
  ghost predicate Remembered(cfg: Config, reqs: seq<Request>, k: nat)
    requires cfg.Valid() && k < |reqs|
  {
    var b := Run(cfg, true, reqs[..k]).bucket;
    b.Some? && reqs[k].redisNow < b.value.expiresAt
  }

  lemma {:induction false} VerdictsOfPrefix(cfg: Config, expiry: bool, reqs: seq<Request>, n: nat)
    requires cfg.Valid() && n <= |reqs|
    ensures Run(cfg, expiry, reqs[..n]).verdicts == Run(cfg, expiry, reqs).verdicts[..n]
  {
    if n < |reqs| {
      VerdictsOfPrefix(cfg, expiry, reqs[..|reqs| - 1], n);
      assert reqs[..|reqs| - 1][..n] == reqs[..n];
    } else {
      assert reqs[..n] == reqs;
    }
  }

  lemma {:induction false} SpentSince(cfg: Config, reqs: seq<Request>, i: nat)
    requires cfg.Valid() && i < |reqs|
    requires Run(cfg, true, reqs).verdicts[i].allowed
    requires forall k | i < k < |reqs| :: Remembered(cfg, reqs, k)
    ensures var t := Run(cfg, true, reqs);
            && t.bucket.Some?
            && t.bucket.value.lastRefill == reqs[|reqs| - 1].now
            && t.bucket.value.tokens <= cfg.maxTokens + Refill(cfg, reqs[|reqs| - 1].now - reqs[i].now)
                                        - CountAllowed(t.verdicts[i..]) as real
  {
    var n := |reqs| - 1;
    var vs := Run(cfg, true, reqs).verdicts;
    var earlier := Run(cfg, true, reqs[..n]).verdicts;
    if i == n {
      RefillGrows(cfg, 0.0);
      assert vs[i..] == [vs[i]];
    } else {
      forall k | i < k < n ensures Remembered(cfg, reqs[..n], k) {
        assert Remembered(cfg, reqs, k) && reqs[..n][..k] == reqs[..k];
      }
      SpentSince(cfg, reqs[..n], i);
      assert Remembered(cfg, reqs, n);
      RefillAdds(cfg, reqs[n - 1].now - reqs[i].now, reqs[n].now - reqs[n - 1].now);
      assert vs[i..][..n - i] == earlier[i..];
    }
  }

  // From any admission up to the one that ends the run, as long as Redis keeps the key in
  // between, no more requests are admitted than a full bucket plus the refill between their two
  // clocks, even when callers' clocks disagree or step back.
  lemma {:induction false} WindowBound(cfg: Config, reqs: seq<Request>, i: nat)
    requires cfg.Valid() && i < |reqs|
    requires var vs := Run(cfg, true, reqs).verdicts; vs[i].allowed && vs[|reqs| - 1].allowed
    requires forall k | i < k < |reqs| :: Remembered(cfg, reqs, k)
    ensures CountAllowed(Run(cfg, true, reqs).verdicts[i..]) as real
            <= cfg.maxTokens + Refill(cfg, reqs[|reqs| - 1].now - reqs[i].now)
  {
    SpentSince(cfg, reqs, i);
  }

  // ----- Denied requests leave no trace -----

  // Both buckets hold the same level at every instant from `start` on.
  ghost predicate SameFuture(cfg: Config, a: Option<Bucket>, b: Option<Bucket>, start: real)
    requires cfg.Valid()
  {
    forall now | now >= start :: Level(cfg, a, now) == Level(cfg, b, now)
  }

  lemma {:induction false} DenialKeepsTheFuture(cfg: Config, b: Option<Bucket>, r: Request)
    requires cfg.Valid() && !Serve(cfg, b, r).1.allowed
    ensures SameFuture(cfg, Some(Serve(cfg, b, r).0), b, r.now)
  {
    RefillGrows(cfg, 0.0);
    forall now | now >= r.now
      ensures Level(cfg, Some(Serve(cfg, b, r).0), now) == Level(cfg, b, now)
    {
      RefillGrows(cfg, now - r.now);
      RefillAdds(cfg, r.now - b.value.lastRefill, now - r.now);
    }
  }

  function Filter<T>(xs: seq<T>, keep: seq<bool>): seq<T>
    requires |xs| == |keep|
  {
    if |xs| == 0 then []
    else
      Filter(xs[..|xs| - 1], keep[..|keep| - 1]) + if keep[|keep| - 1] then [xs[|xs| - 1]] else []
  }

  lemma {:induction false} FilterKeepsTheClock(reqs: seq<Request>, keep: seq<bool>, now: real)
    requires |reqs| == |keep| && SharedClock(reqs)
    requires |reqs| > 0 ==> reqs[|reqs| - 1].now <= now
    ensures SharedClock(Filter(reqs, keep))
    ensures forall i | 0 <= i < |Filter(reqs, keep)| :: Filter(reqs, keep)[i].now <= now
  {
    if |reqs| == 0 {
    } else {
      var before := reqs[..|reqs| - 1];
      var last := reqs[|reqs| - 1];
      assert before + [last] == reqs;
      SharedClockPrefix(before, [last]);
      FilterKeepsTheClock(before, keep[..|keep| - 1], last.now);
    }
  }

  lemma {:induction false} FilteredStep(cfg: Config, a: Option<Bucket>, b: Option<Bucket>, r: Request)
    requires cfg.Valid() && Level(cfg, a, r.now) == Level(cfg, b, r.now)
    ensures Serve(cfg, a, r) == Serve(cfg, b, r)
    ensures !Serve(cfg, a, r).1.allowed && SameFuture(cfg, a, b, r.now)
            ==> SameFuture(cfg, Some(Serve(cfg, a, r).0), b, r.now)
  {
    if !Serve(cfg, a, r).1.allowed && SameFuture(cfg, a, b, r.now) {
      DenialKeepsTheFuture(cfg, a, r);
      var c := Some(Serve(cfg, a, r).0);
      forall now | now >= r.now ensures Level(cfg, c, now) == Level(cfg, b, now) {
        assert Level(cfg, c, now) == Level(cfg, a, now);
      }
    }
  }

  // The filtered run `part` has decided like the full run `full`, and will go on doing so.
  ghost predicate Filtered(cfg: Config, full: Trace, part: Trace, keep: seq<bool>, now: real)
    requires cfg.Valid()
  {
    && |full.verdicts| == |keep|
    && part.verdicts == Filter(full.verdicts, keep)
    && SameFuture(cfg, full.bucket, part.bucket, now)
  }

  lemma {:induction false} FilterStep<T>(xs: seq<T>, keep: seq<bool>, x: T, k: bool)
    requires |xs| == |keep|
    ensures Filter(xs + [x], keep + [k]) == if k then Filter(xs, keep) + [x] else Filter(xs, keep)
  {
  }

  lemma {:induction false} FilteredRun(cfg: Config, reqs: seq<Request>, keep: seq<bool>, now: real)
    requires cfg.Valid() && SharedClock(reqs) && |reqs| == |keep|
    requires |reqs| > 0 ==> reqs[|reqs| - 1].now <= now
    requires KeepsAdmissions(Run(cfg, false, reqs).verdicts, keep)
    ensures Filtered(cfg, Run(cfg, false, reqs), Run(cfg, false, Filter(reqs, keep)), keep, now)
  {
    if |reqs| == 0 {
    } else {
      var n := |reqs| - 1;
      assert reqs[..n] + [reqs[n]] == reqs && keep[..n] + [keep[n]] == keep;
      SharedClockPrefix(reqs[..n], [reqs[n]]);
      RunStep(cfg, false, reqs[..n], reqs[n]);
      var before := Run(cfg, false, reqs[..n]);
      KeepsEarlierAdmissions(before.verdicts, keep[..n], Serve(cfg, before.bucket, reqs[n]).1, keep[n]);
      FilteredRun(cfg, reqs[..n], keep[..n], reqs[n].now);
      FilteredRunStep(cfg, reqs[..n], keep[..n], reqs[n], keep[n], now);
    }
  }

  ghost predicate KeepsAdmissions(vs: seq<Verdict>, keep: seq<bool>) {
    |vs| == |keep| && forall i | 0 <= i < |vs| :: vs[i].allowed ==> keep[i]
  }

  lemma {:induction false} KeepsEarlierAdmissions(vs: seq<Verdict>, keep: seq<bool>, v: Verdict, k: bool)
    requires |vs| == |keep| && KeepsAdmissions(vs + [v], keep + [k])
    ensures KeepsAdmissions(vs, keep) && (v.allowed ==> k)
  {
    assert (vs + [v])[|vs|] == v && (keep + [k])[|vs|] == k;
    assert forall i | 0 <= i < |vs| :: (vs + [v])[i] == vs[i] && (keep + [k])[i] == keep[i];
  }

  lemma {:induction false} FilteredRunStep(
      cfg: Config, reqs: seq<Request>, keep: seq<bool>, r: Request, k: bool, now: real)
    requires cfg.Valid() && |reqs| == |keep| && r.now <= now
    requires Filtered(cfg, Run(cfg, false, reqs), Run(cfg, false, Filter(reqs, keep)), keep, r.now)
    requires Serve(cfg, Run(cfg, false, reqs).bucket, r).1.allowed ==> k
    ensures Filtered(cfg, Run(cfg, false, reqs + [r]), Run(cfg, false, Filter(reqs + [r], keep + [k])), keep + [k], now)
  {
    var full, part := Run(cfg, false, reqs), Run(cfg, false, Filter(reqs, keep));
    RunStep(cfg, false, reqs, r);
    RunStep(cfg, false, Filter(reqs, keep), r);
    FilterStep(reqs, keep, r, k);
    FilterStep(full.verdicts, keep, Serve(cfg, full.bucket, r).1, k);
    FilteredStep(cfg, full.bucket, part.bucket, r);
  }

  // Deleting any set of denied requests from a run changes no other decision or retry hint.
  lemma {:induction false} DeniedRequestsAreInvisible(cfg: Config, reqs: seq<Request>, keep: seq<bool>)
    requires cfg.Valid() && SharedClock(reqs) && |reqs| == |keep|
    requires KeepsAdmissions(Run(cfg, true, reqs).verdicts, keep)
    ensures Run(cfg, true, Filter(reqs, keep)).verdicts == Filter(Run(cfg, true, reqs).verdicts, keep)
  {
    var now := if |reqs| > 0 then reqs[|reqs| - 1].now else 0.0;
    ExpiryIsInvisible(cfg, reqs);
    FilteredRun(cfg, reqs, keep, now);
    FilterKeepsTheClock(reqs, keep, now);
    ExpiryIsInvisible(cfg, Filter(reqs, keep));
  }

  // ----- Retry-After is exact -----

  lemma {:induction false} CeilIsLeast(y: real, s: int)
    ensures s as real >= y <==> s >= Ceil(y)
  {
  }

  lemma {:induction false} ScaleOrder(x: real, y: real, rate: real)
    requires rate > 0.0
    ensures x * rate >= y * rate <==> x >= y
  {
  }

  lemma {:induction false} RateIsPositive(cfg: Config, d: real)
    requires cfg.Valid()
    ensures cfg.maxTokens / cfg.windowSecs > 0.0
    ensures Refill(cfg, d) == d * (cfg.maxTokens / cfg.windowSecs)
  {
  }

  lemma {:induction false} WaitIsExact(cfg: Config, tokens: real, s: nat)
    requires cfg.Valid() && tokens < 1.0
    ensures tokens + Refill(cfg, s as real) >= 1.0
            <==> s >= Ceil((1.0 - tokens) / (cfg.maxTokens / cfg.windowSecs))
  {
    var rate := cfg.maxTokens / cfg.windowSecs;
    RateIsPositive(cfg, s as real);
    var y := (1.0 - tokens) / rate;
    assert y * rate == 1.0 - tokens;
    ScaleOrder(s as real, y, rate);
    CeilIsLeast(y, s);
  }

  lemma {:induction false} PollsKeepTheFuture(cfg: Config, reqs: seq<Request>, polls: seq<Request>)
    requires cfg.Valid() && |reqs| > 0 && SharedClock(reqs + polls)
    requires forall i | |reqs| <= i < |reqs| + |polls| :: !Run(cfg, false, reqs + polls).verdicts[i].allowed
    ensures SameFuture(cfg, Run(cfg, false, reqs + polls).bucket, Run(cfg, false, reqs).bucket,
                       (reqs + polls)[|reqs| + |polls| - 1].now)
  {
    if |polls| == 0 {
      assert reqs + polls == reqs;
    } else {
      var front := polls[..|polls| - 1];
      var last := polls[|polls| - 1];
      assert (reqs + front) + [last] == reqs + polls;
      SharedClockPrefix(reqs + front, [last]);
      RunStep(cfg, false, reqs + front, last);
      var vs := Run(cfg, false, reqs + polls).verdicts;
      assert forall i | 0 <= i < |reqs + front| :: Run(cfg, false, reqs + front).verdicts[i] == vs[i];
      PollsKeepTheFuture(cfg, reqs, front);
      assert !vs[|reqs + front|].allowed;
      DenialKeepsTheFuture(cfg, Run(cfg, false, reqs + front).bucket, last);
      assert (reqs + front)[|reqs + front| - 1] == (reqs + polls)[|reqs + front| - 1];
    }
  }

  lemma {:induction false} RetryWithoutExpiry(
      cfg: Config, reqs: seq<Request>, denied: Request, polls: seq<Request>, s: nat)
    requires cfg.Valid()
    requires var again := Request(denied.now + s as real, denied.now + s as real);
             SharedClock(reqs + [denied] + polls + [again])
    requires var vs := Run(cfg, false, reqs + [denied] + polls).verdicts;
             forall i | |reqs| <= i < |vs| :: !vs[i].allowed
    ensures var again := Request(denied.now + s as real, denied.now + s as real);
            && Serve(cfg, Run(cfg, false, reqs).bucket, denied).1
               == Run(cfg, false, reqs + [denied] + polls).verdicts[|reqs|]
            && (Serve(cfg, Run(cfg, false, reqs + [denied] + polls).bucket, again).1.allowed
                <==> s >= Serve(cfg, Run(cfg, false, reqs).bucket, denied).1.retryAfter)
  {
    var now := denied.now + s as real;
    var upTo := reqs + [denied];
    var all := upTo + polls;
    SharedClockPrefix(all, [Request(now, now)]);
    ClockAdvances(all, Request(now, now));
    VerdictsOfPrefix(cfg, false, all, |upTo|);
    RunStep(cfg, false, reqs, denied);
    assert all[..|upTo|] == upTo;
    assert Run(cfg, false, all).verdicts[..|upTo|][|reqs|] == Run(cfg, false, upTo).verdicts[|reqs|];
    PollsKeepTheFuture(cfg, upTo, polls);
    LevelAfterDenial(cfg, Run(cfg, false, reqs).bucket, denied, s);
  }

  lemma {:induction false} LevelAfterDenial(cfg: Config, b: Option<Bucket>, denied: Request, s: nat)
    requires cfg.Valid() && !Serve(cfg, b, denied).1.allowed
    ensures Level(cfg, Some(Serve(cfg, b, denied).0), denied.now + s as real) >= 1.0
            <==> s >= Serve(cfg, b, denied).1.retryAfter
  {
    WaitIsExact(cfg, Serve(cfg, b, denied).0.tokens, s);
  }

  // After a denial at `t` that hints `retryAfter`, with any number of further denied polls in
  // between, a request a whole number of seconds later is admitted exactly from the hint on.
  lemma {:induction false} RetryAfterIsExact(
      cfg: Config, reqs: seq<Request>, denied: Request, polls: seq<Request>, s: nat)
    requires cfg.Valid()
    requires var again := Request(denied.now + s as real, denied.now + s as real);
             SharedClock(reqs + [denied] + polls + [again])
    requires var vs := Run(cfg, true, reqs + [denied] + polls).verdicts;
             forall i | |reqs| <= i < |vs| :: !vs[i].allowed
    ensures var again := Request(denied.now + s as real, denied.now + s as real);
            var vs := Run(cfg, true, reqs + [denied] + polls + [again]).verdicts;
            vs[|reqs| + 1 + |polls|].allowed <==> s >= vs[|reqs|].retryAfter
  {
    var again := Request(denied.now + s as real, denied.now + s as real);
    var all := reqs + [denied] + polls;
    SharedClockPrefix(all, [again]);
    ExpiryIsInvisible(cfg, all);
    ExpiryIsInvisible(cfg, all + [again]);
    RunStep(cfg, false, all, again);
    RetryWithoutExpiry(cfg, reqs, denied, polls, s);
  }
}
