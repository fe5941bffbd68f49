// The commands of different auth handlers in any interleaving.
module RefreshRuns {
  import opened Wrappers
  import opened RefreshTokens

  // Where a handler stands: it holds a new id it has not stored yet, it has checked an id and not
  // yet revoked it, it has revoked and not yet generated the next one, or it has ended.
  datatype Call = Storing(jti: Jti) | Checked(jti: Jti) | Revoked | Ended

  // `issued`: ids generated; `stored`: ids ever set; `redeemed` counts the refreshes that went
  // past the check and revoked the id.
  datatype State = State(db: Db, calls: seq<Call>, issued: set<Jti>, stored: set<Jti>, redeemed: multiset<Jti>)

  datatype Step =
    | Issue(jti: Jti)
    | Check(jti: Jti)
    | Revoke(p: nat)
    | Reissue(p: nat, jti: Jti)
    | Store(p: nat)
    | Logout(jti: Jti)
    | Pass(now: int)
    | Die(p: nat)

  predicate Enabled(s: State, step: Step) {
    match step
    case Issue(jti) => jti !in s.issued
    case Check(jti) => true
    case Revoke(p) => p < |s.calls| && s.calls[p].Checked?
    case Reissue(p, jti) => p < |s.calls| && s.calls[p].Revoked? && jti !in s.issued
    case Store(p) => p < |s.calls| && s.calls[p].Storing?
    case Logout(jti) => true
    case Pass(now) => now >= s.db.now
    case Die(p) => p < |s.calls|
  }

  function Apply(s: State, step: Step): State
    requires Enabled(s, step)
  {
    match step
    case Issue(jti) => s.(calls := s.calls + [Storing(jti)], issued := s.issued + {jti})
    case Check(jti) => if IsValidJti(s.db, jti) then s.(calls := s.calls + [Checked(jti)]) else s
    case Revoke(p) =>
      var jti := s.calls[p].jti;
      s.(db := RevokeJti(s.db, jti), calls := s.calls[p := Revoked], redeemed := s.redeemed + multiset{jti})
    case Reissue(p, jti) => s.(calls := s.calls[p := Storing(jti)], issued := s.issued + {jti})
    case Store(p) =>
      var jti := s.calls[p].jti;
      s.(db := StoreJti(s.db, jti), calls := s.calls[p := Ended], stored := s.stored + {jti})
    case Logout(jti) => s.(db := RevokeJti(s.db, jti))
    case Pass(now) => s.(db := Wait(s.db, now))
    case Die(p) => s.(calls := s.calls[p := Ended])
  }

  predicate IsRun(s: State, steps: seq<Step>)
    decreases |steps|
  {
    |steps| > 0 ==> Enabled(s, steps[0]) && IsRun(Apply(s, steps[0]), steps[1..])
  }

  function Exec(s: State, steps: seq<Step>): State
    requires IsRun(s, steps)
    decreases |steps|
  {
    if |steps| == 0 then s else Exec(Apply(s, steps[0]), steps[1..])
  }

  ghost predicate Init(s: State) {
    s.db.keys == map[] && s.calls == [] && s.issued == s.stored == {} && s.redeemed == multiset{}
  }

  // Every id is stored by one handler, once.
  ghost predicate IdsOk(s: State) {
    && s.db.keys.Keys <= s.stored <= s.issued
    && (forall p | 0 <= p < |s.calls| && s.calls[p].Storing? :: s.calls[p].jti in s.issued - s.stored)
    && (forall p | 0 <= p < |s.calls| && s.calls[p].Checked? :: s.calls[p].jti in s.stored)
    && (forall o, p | 0 <= o < p < |s.calls| && s.calls[o].Storing? && s.calls[p].Storing? ::
          s.calls[o].jti != s.calls[p].jti)
    && (forall jti :: s.redeemed[jti] > 0 ==> jti in s.stored && jti !in s.db.keys)
  }

  lemma {:induction false} InitIds(s: State)
    requires Init(s)
    ensures IdsOk(s)
  {
  }

  lemma {:induction false} IdsStep(s: State, step: Step)
    requires IdsOk(s) && Enabled(s, step)
    ensures IdsOk(Apply(s, step))
    ensures s.stored - s.db.keys.Keys <= Apply(s, step).stored - Apply(s, step).db.keys.Keys
  {
  }

  // However handlers interleave, an id that was deleted or whose time ran out never passes a check
  // again.
  lemma {:induction false} GoneForGood(s: State, steps: seq<Step>, jti: Jti)
    requires IdsOk(s) && IsRun(s, steps)
    requires jti in s.stored && !IsValidJti(s.db, jti)
    ensures IdsOk(Exec(s, steps)) && !IsValidJti(Exec(s, steps).db, jti)
    decreases |steps|
  {
    if |steps| == 0 {
    } else {
      IdsStep(s, steps[0]);
      assert jti in s.stored - s.db.keys.Keys;
      GoneForGood(Apply(s, steps[0]), steps[1..], jti);
    }
  }

  // ----- Redemption -----

  // How many handlers have checked the id and not yet revoked it.
  function Standing(calls: seq<Call>, jti: Jti): nat {
    if |calls| == 0 then 0 else Standing(calls[1..], jti) + if calls[0] == Checked(jti) then 1 else 0
  }

  lemma {:induction false} StandingAppend(calls: seq<Call>, c: Call, jti: Jti)
    ensures Standing(calls + [c], jti) == Standing(calls, jti) + if c == Checked(jti) then 1 else 0
  {
    if calls == [] {
      assert calls + [c] == [c] && [c][1..] == [];
    } else {
      StandingAppend(calls[1..], c, jti);
      assert (calls + [c])[1..] == calls[1..] + [c];
    }
  }

  lemma {:induction false} StandingUpdate(calls: seq<Call>, p: nat, c: Call, jti: Jti)
    requires p < |calls|
    ensures Standing(calls[p := c], jti) - (if c == Checked(jti) then 1 else 0)
            == Standing(calls, jti) - if calls[p] == Checked(jti) then 1 else 0
  {
    if p == 0 {
      assert calls[p := c][1..] == calls[1..];
    } else {
      StandingUpdate(calls[1..], p - 1, c, jti);
      assert calls[p := c][1..] == calls[1..][p - 1 := c];
    }
  }

  // At every state of the run at most `overlap` refreshes of the id stand between their check and
  // their revocation.
  ghost predicate OverlapAtMost(s: State, steps: seq<Step>, jti: Jti, overlap: nat)
    requires IsRun(s, steps)
    decreases |steps|
  {
    && Standing(s.calls, jti) <= overlap
    && (|steps| > 0 ==> OverlapAtMost(Apply(s, steps[0]), steps[1..], jti, overlap))
  }

  // A check passes only before the first revocation, so what has been redeemed and what may still
  // be redeemed never add up to more than the overlap.
  lemma {:induction false} UsesStep(s: State, step: Step, jti: Jti, overlap: nat)
    requires IdsOk(s) && Enabled(s, step)
    requires s.redeemed[jti] + Standing(s.calls, jti) <= overlap
    requires Standing(Apply(s, step).calls, jti) <= overlap
    ensures Apply(s, step).redeemed[jti] + Standing(Apply(s, step).calls, jti) <= overlap
  {
    match step
    case Issue(newJti) => StandingAppend(s.calls, Storing(newJti), jti);
    case Check(other) => StandingAppend(s.calls, Checked(other), jti);
    case Revoke(p) => StandingUpdate(s.calls, p, Revoked, jti);
    case Reissue(p, newJti) => StandingUpdate(s.calls, p, Storing(newJti), jti);
    case Store(p) => StandingUpdate(s.calls, p, Ended, jti);
    case Logout(_) =>
    case Pass(_) =>
    case Die(p) => StandingUpdate(s.calls, p, Ended, jti);
  }

  // An id is redeemed at most as often as its refreshes overlap, whatever else runs.
  lemma {:induction false} RedeemedWithinOverlap(s: State, steps: seq<Step>, jti: Jti, overlap: nat)
    requires IdsOk(s) && IsRun(s, steps) && OverlapAtMost(s, steps, jti, overlap)
    requires s.redeemed[jti] + Standing(s.calls, jti) <= overlap
    ensures Exec(s, steps).redeemed[jti] <= overlap
    decreases |steps|
  {
    if steps == [] {
    } else {
      IdsStep(s, steps[0]);
      UsesStep(s, steps[0], jti, overlap);
      RedeemedWithinOverlap(Apply(s, steps[0]), steps[1..], jti, overlap);
    }
  }

  lemma {:induction false} RunCons(s: State, step: Step, rest: seq<Step>, jti: Jti, overlap: nat)
    requires Enabled(s, step) && IsRun(Apply(s, step), rest) && Standing(s.calls, jti) <= overlap
    requires OverlapAtMost(Apply(s, step), rest, jti, overlap)
    ensures IsRun(s, [step] + rest) && Exec(s, [step] + rest) == Exec(Apply(s, step), rest)
    ensures OverlapAtMost(s, [step] + rest, jti, overlap)
  {
    assert ([step] + rest)[1..] == rest;
  }

  // After one handler has stored the id, `checked` refreshes have checked it and the first
  // `revoked` of them have revoked it.
  ghost predicate Raced(s: State, jti: Jti, checked: nat, revoked: nat) {
    && revoked <= checked && |s.calls| == 1 + checked && s.calls[0] == Ended
    && (forall p | 1 <= p <= checked :: s.calls[p] == if p <= revoked then Revoked else Checked(jti))
    && Standing(s.calls, jti) == checked - revoked
    && (revoked == 0 ==> IsValidJti(s.db, jti)) && s.redeemed[jti] == revoked
  }

  lemma {:induction false} Race(s: State, jti: Jti, overlap: nat, checked: nat, revoked: nat) returns (steps: seq<Step>)
    requires Raced(s, jti, checked, revoked) && checked <= overlap && (revoked > 0 ==> checked == overlap)
    ensures IsRun(s, steps) && OverlapAtMost(s, steps, jti, overlap)
    ensures Exec(s, steps).redeemed[jti] == overlap
    decreases overlap - checked, overlap - revoked
  {
    if checked < overlap {
      StandingAppend(s.calls, Checked(jti), jti);
      steps := Race(Apply(s, Check(jti)), jti, overlap, checked + 1, revoked);
      RunCons(s, Check(jti), steps, jti, overlap);
      steps := [Check(jti)] + steps;
    } else if revoked < overlap {
      StandingUpdate(s.calls, revoked + 1, Revoked, jti);
      steps := Race(Apply(s, Revoke(revoked + 1)), jti, overlap, checked, revoked + 1);
      RunCons(s, Revoke(revoked + 1), steps, jti, overlap);
      steps := [Revoke(revoked + 1)] + steps;
    } else {
      steps := [];
    }
  }

  // For every id and every overlap some run redeems the id that often: all refreshes check it, then
  // all revoke it.
  lemma {:induction false} OverlapCanBeRedeemed(jti: Jti, overlap: nat) returns (s: State, steps: seq<Step>)
    ensures Init(s) && IsRun(s, steps) && OverlapAtMost(s, steps, jti, overlap)
    ensures Exec(s, steps).redeemed[jti] == overlap
  {
    s := State(Db(0, map[]), [], {}, {}, multiset{});
    var s1 := Apply(s, Issue(jti));
    var s2 := Apply(s1, Store(0));
    assert s1.calls == [Storing(jti)] && s2.calls == [Ended];
    assert Standing(s1.calls, jti) == Standing(s2.calls, jti) == 0;
    steps := Race(s2, jti, overlap, 0, 0);
    RunCons(s1, Store(0), steps, jti, overlap);
    RunCons(s, Issue(jti), [Store(0)] + steps, jti, overlap);
    steps := [Issue(jti)] + ([Store(0)] + steps);
  }

  // With at most `overlap` refreshes of the id between check and revocation, no run redeems it more
  // than `most` times.
  ghost predicate NeverRedeemedMore(jti: Jti, overlap: nat, most: nat) {
    forall s, steps | Init(s) && IsRun(s, steps) && OverlapAtMost(s, steps, jti, overlap) ::
      Exec(s, steps).redeemed[jti] <= most
  }

  // The exact bound on redemptions is the overlap. With `most` one: an id is redeemed at most once
  // on all runs exactly when its refreshes do not overlap.
  lemma {:induction false} RedemptionBoundIsExact(jti: Jti, overlap: nat, most: nat)
    ensures NeverRedeemedMore(jti, overlap, most) <==> overlap <= most
  {
    if overlap <= most {
      forall s, steps | Init(s) && IsRun(s, steps) && OverlapAtMost(s, steps, jti, overlap)
        ensures Exec(s, steps).redeemed[jti] <= most
      {
        InitIds(s);
        RedeemedWithinOverlap(s, steps, jti, overlap);
      }
    } else {
      var s, steps := OverlapCanBeRedeemed(jti, overlap);
    }
  }

  // The serialized logout is the one step of the interleaved machine.
  lemma {:induction false} LogoutAsStep(s: State, jti: Jti, userExists: bool)
    ensures Apply(s, Logout(jti)).db == LogoutEffect(s.db, Cookie.Refresh(Some(jti), userExists))
    ensures Apply(s, Logout(jti)).db.keys == s.db.keys - {jti}
  {
  }

  // ----- A handler that nothing interrupts does what the serialized handler does -----

  lemma {:induction false} RefreshAsSteps(s: State, jti: Jti, newJti: Jti) returns (steps: seq<Step>)
    requires IsValidJti(s.db, jti) && newJti !in s.issued
    ensures IsRun(s, steps)
    ensures Exec(s, steps).db == RefreshEffect(s.db, Cookie.Refresh(Some(jti), true), newJti)
  {
    var p := |s.calls|;
    steps := [Check(jti), Revoke(p), Reissue(p, newJti), Store(p)];
    var s1 := Apply(s, steps[0]);
    var s2 := Apply(s1, steps[1]);
    var s3 := Apply(s2, steps[2]);
    var s4 := Apply(s3, steps[3]);
    assert steps[1..] == [Revoke(p), Reissue(p, newJti), Store(p)];
    assert steps[1..][1..] == [Reissue(p, newJti), Store(p)];
    assert steps[1..][1..][1..] == [Store(p)];
    assert steps[1..][1..][1..][1..] == [];
    assert IsRun(s4, []) && Exec(s4, []) == s4;
    assert IsRun(s3, [Store(p)]) && Exec(s3, [Store(p)]) == s4;
    assert IsRun(s2, steps[1..][1..]) && Exec(s2, steps[1..][1..]) == s4;
    assert IsRun(s1, steps[1..]) && Exec(s1, steps[1..]) == s4;
  }
}
