// Refresh tokens: the identifiers of live tokens (the jti claim, section 4.1.7 of RFC 7519) are
// keys in Redis, each with a time to live.
module RefreshTokens {
  import opened Wrappers

  type Jti = nat

  const REFRESH_TTL_SECONDS := 7 * 24 * 60 * 60

  // The keys that have not expired at `now`, with the instants at which they will.
  datatype Db = Db(now: int, keys: map<Jti, int>)

  // What the request's cookie turns out to hold. Verifying a JWT is not modelled.
  datatype Cookie =
    | Missing
    | Unverifiable
    | Access
    | Refresh(jti: Option<Jti>, userExists: bool)

  function StoreJti(db: Db, jti: Jti): Db {
    db.(keys := db.keys[jti := db.now + REFRESH_TTL_SECONDS])
  }

  predicate IsValidJti(db: Db, jti: Jti) { jti in db.keys }

  function RevokeJti(db: Db, jti: Jti): Db {
    db.(keys := db.keys - {jti})
  }

  // Time moves on and Redis drops what has expired.
  function Wait(db: Db, now: int): Db {
    Db(now, map jti | jti in db.keys && now < db.keys[jti] :: db.keys[jti])
  }

  // The token a refresh accepts, if it accepts any.
  function Redeemable(db: Db, c: Cookie): Option<Jti> {
    if c.Refresh? && c.jti.Some? && IsValidJti(db, c.jti.value) && c.userExists then c.jti else None
  }

  function RefreshEffect(db: Db, c: Cookie, newJti: Jti): Db {
    match Redeemable(db, c)
    case None => db
    case Some(jti) => StoreJti(RevokeJti(db, jti), newJti)
  }

  function LogoutEffect(db: Db, c: Cookie): Db {
    if c.Refresh? && c.jti.Some? then RevokeJti(db, c.jti.value) else db
  }

  class JtiStore {
    var now: int
    var keys: map<Jti, int>

    function Contents(): Db
      reads this
    {
      Db(now, keys)
    }

    constructor (now: int)
      ensures Contents() == Db(now, map[])
    {
      this.now := now;
      keys := map[];
    }

    method StoreRefreshJti(jti: Jti)
      modifies this`keys
      ensures Contents() == StoreJti(old(Contents()), jti)
    {
      keys := keys[jti := now + REFRESH_TTL_SECONDS];
    }

    method IsRefreshJtiValid(jti: Jti) returns (valid: bool)
      ensures valid == IsValidJti(Contents(), jti)
    {
      valid := jti in keys;
    }

    method RevokeRefreshJti(jti: Jti)
      modifies this`keys
      ensures Contents() == RevokeJti(old(Contents()), jti)
    {
      keys := keys - {jti};
    }

    // Registration and login end alike: a new token is issued and stored.
    method Login(newJti: Jti)
      modifies this`keys
      ensures Contents() == StoreJti(old(Contents()), newJti)
      ensures keys == old(keys)[newJti := now + 604_800]
    {
      StoreRefreshJti(newJti);
    }

    // False stands for the 401 answers, which change nothing.
    method Refresh(c: Cookie, newJti: Jti) returns (ok: bool)
      modifies this`keys
      ensures ok <==> exists jti :: c == Cookie.Refresh(Some(jti), true) && jti in old(keys)
      ensures keys == if ok then (old(keys) - {c.jti.value})[newJti := now + 604_800] else old(keys)
      ensures Contents() == RefreshEffect(old(Contents()), c, newJti)
    {
      if !c.Refresh? || c.jti.None? {
        return false;
      }
      assert c == Cookie.Refresh(Some(c.jti.value), c.userExists);
      var valid := IsRefreshJtiValid(c.jti.value);
      if !valid || !c.userExists {
        return false;
      }
      RevokeRefreshJti(c.jti.value);
      StoreRefreshJti(newJti);
      return true;
    }

    method Logout(c: Cookie)
      modifies this`keys
      ensures Contents() == LogoutEffect(old(Contents()), c)
      ensures forall jti, userExists | c == Cookie.Refresh(Some(jti), userExists) ::
                jti !in keys && keys == old(keys) - {jti}
      ensures (!c.Refresh? || c.jti == None) ==> keys == old(keys)
    {
      if c.Refresh? && c.jti.Some? {
        RevokeRefreshJti(c.jti.value);
      }
    }
  }

  // A stored id is valid for seven days and not longer.
  lemma {:induction false} LivesSevenDays(db: Db, jti: Jti, later: int)
    requires later >= db.now
    ensures IsValidJti(Wait(StoreJti(db, jti), later), jti) <==> later < db.now + 604_800
  {
  }

  // ----- Handlers one after the other -----

  datatype Op =
    | DoLogin(newJti: Jti)
    | DoRefresh(cookie: Cookie, newJti: Jti)
    | DoLogout(cookie: Cookie)
    | DoWait(now: int)

  // `issued` are all ids ever generated; the counters count logins, logouts that removed a live id,
  // and expiries; `redeemed` counts the successful refreshes of each id.
  datatype Ledger = Ledger(db: Db, issued: set<Jti>, redeemed: multiset<Jti>, logins: nat, logouts: nat, expiries: nat)

  predicate IsFresh(l: Ledger, op: Op) {
    match op
    case DoLogin(jti) => jti !in l.issued
    case DoRefresh(_, jti) => jti !in l.issued
    case DoLogout(_) => true
    case DoWait(now) => now >= l.db.now
  }

  function Do(l: Ledger, op: Op): Ledger {
    match op
    case DoLogin(jti) => l.(db := StoreJti(l.db, jti), issued := l.issued + {jti}, logins := l.logins + 1)
    case DoRefresh(c, jti) =>
      (match Redeemable(l.db, c)
       case None => l
       case Some(used) =>
         l.(db := RefreshEffect(l.db, c, jti), issued := l.issued + {jti}, redeemed := l.redeemed + multiset{used}))
    case DoLogout(c) =>
      l.(db := LogoutEffect(l.db, c),
         logouts := l.logouts + if LogoutEffect(l.db, c) != l.db then 1 else 0)
    case DoWait(now) =>
      var db := Wait(l.db, now);
      l.(db := db, expiries := l.expiries + |l.db.keys.Keys - db.keys.Keys|)
  }

  ghost predicate IsLedgerRun(l: Ledger, ops: seq<Op>)
    decreases |ops|
  {
    |ops| > 0 ==> IsFresh(l, ops[0]) && IsLedgerRun(Do(l, ops[0]), ops[1..])
  }

  function DoAll(l: Ledger, ops: seq<Op>): Ledger
    decreases |ops|
  {
    if |ops| == 0 then l else DoAll(Do(l, ops[0]), ops[1..])
  }

  ghost predicate LedgerOk(l: Ledger) {
    && l.db.keys.Keys <= l.issued
    && |l.db.keys.Keys| + l.logouts + l.expiries == l.logins
    && (forall jti :: l.redeemed[jti] + (if jti in l.db.keys then 1 else 0) <= 1)
    && (forall jti :: l.redeemed[jti] > 0 ==> jti in l.issued)
  }

  // Rotation swaps one live id for another.
  lemma {:induction false} RefreshKeepsLedger(l: Ledger, c: Cookie, jti: Jti)
    requires LedgerOk(l) && jti !in l.issued
    ensures LedgerOk(Do(l, DoRefresh(c, jti)))
    ensures |Do(l, DoRefresh(c, jti)).db.keys.Keys| == |l.db.keys.Keys|
  {
  }

  lemma {:induction false} LogoutKeepsLedger(l: Ledger, c: Cookie)
    requires LedgerOk(l)
    ensures LedgerOk(Do(l, DoLogout(c)))
  {
  }

  lemma {:induction false} LedgerStep(l: Ledger, op: Op)
    requires LedgerOk(l) && IsFresh(l, op)
    ensures LedgerOk(Do(l, op))
  {
    var l' := Do(l, op);
    match op
    case DoLogin(jti) => assert l'.db.keys.Keys == l.db.keys.Keys + {jti};
    case DoRefresh(c, jti) => RefreshKeepsLedger(l, c, jti);
    case DoLogout(c) => LogoutKeepsLedger(l, c);
    case DoWait(now) =>
      assert l'.db.keys.Keys <= l.db.keys.Keys;
      assert l.db.keys.Keys == l'.db.keys.Keys + (l.db.keys.Keys - l'.db.keys.Keys);
  }

  // With handlers serialized and ids fresh, every refresh token is redeemed at most once, and the
  // live ids are the logins less the logouts that removed one, less the expiries: refreshing
  // neither adds nor loses one.
  lemma {:induction false} TokensAreConserved(l: Ledger, ops: seq<Op>)
    requires LedgerOk(l) && IsLedgerRun(l, ops)
    ensures var l' := DoAll(l, ops);
            && LedgerOk(l')
            && |l'.db.keys.Keys| == l'.logins - l'.logouts - l'.expiries
            && forall jti :: l'.redeemed[jti] <= 1
    decreases |ops|
  {
    if |ops| == 0 {
    } else {
      LedgerStep(l, ops[0]);
      TokensAreConserved(Do(l, ops[0]), ops[1..]);
    }
  }

  lemma {:induction false} GoneStep(l: Ledger, op: Op, jti: Jti)
    requires IsFresh(l, op) && jti in l.issued && jti !in l.db.keys
    ensures jti in Do(l, op).issued && jti !in Do(l, op).db.keys && Do(l, op).redeemed[jti] == l.redeemed[jti]
  {
  }

  // An id that was issued and is not live is never redeemed from then on.
  lemma {:induction false} NeverRedeemedAgain(l: Ledger, ops: seq<Op>, jti: Jti)
    requires IsLedgerRun(l, ops) && jti in l.issued && jti !in l.db.keys
    ensures jti !in DoAll(l, ops).db.keys && DoAll(l, ops).redeemed[jti] == l.redeemed[jti]
    decreases |ops|
  {
    if ops == [] {
    } else {
      GoneStep(l, ops[0], jti);
      NeverRedeemedAgain(Do(l, ops[0]), ops[1..], jti);
    }
  }

  // After a logout with the token of an issued id no refresh of that id ever succeeds, whatever
  // handlers run in between.
  lemma {:induction false} LoggedOutForGood(l: Ledger, ops: seq<Op>, jti: Jti, userExists: bool)
    requires jti in l.issued
    requires IsLedgerRun(l, [DoLogout(Cookie.Refresh(Some(jti), userExists))] + ops)
    ensures var l' := DoAll(l, [DoLogout(Cookie.Refresh(Some(jti), userExists))] + ops);
            jti !in l'.db.keys && l'.redeemed[jti] == l.redeemed[jti]
  {
    var logout := DoLogout(Cookie.Refresh(Some(jti), userExists));
    assert ([logout] + ops)[1..] == ops;
    NeverRedeemedAgain(Do(l, logout), ops, jti);
  }

  lemma {:induction false} EmptyLedger(now: int)
    ensures LedgerOk(Ledger(Db(now, map[]), {}, multiset{}, 0, 0, 0))
  {
  }
}
