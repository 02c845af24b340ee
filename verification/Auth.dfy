/**
 * Sign-in with lockout and a second factor.  Calls are serialised; passwords, hashes
 * and codes are parameters.  The manager keeps the calls made so far as ghosts, so
 * that what Lockout and SecondFactor prove about runs is true of its tables.
 */
module Auth {
  import opened Arithmetic
  import opened Wrappers
  import opened Lockout
  import opened SecondFactor

  /**
   * fold: a username with its case folded; plausible: the shape check of credentials; verify:
   * a password against a stored hash.
   */
  datatype Passwords = Passwords(fold: string -> string, plausible: (string, string) -> bool,
                                 verify: (string, string) -> bool)

  /** Raised: comparing or hashing a code, or hashing a token, has thrown an exception. */
  datatype Outcome = Accepted(userId: int) | Wrong | LockedOut(retryAfter: int) | Expired | Raised

  const MAX_TOKEN_LEN: nat := 128

  class AuthManager {
    const pws: Passwords
    const c: Codes
    var accounts: map<int, Account>
    var names: map<string, int>
    var attempts: seq<Attempt>
    var enrolling: map<int, Enrolment>
    var recovery: seq<Recovery>
    var nextRecovery: int
    var logins: map<string, Pending>
    /** The calls so far, as the lockout and as the second factor see them. */
    ghost var calls: seq<Call>
    ghost var ops: seq<Op>

    ghost predicate AttemptsOk()
      reads this`attempts, this`calls
    {
      attempts == AfterAll(calls) && Timed(calls)
    }

    ghost predicate NamesOk()
      reads this`accounts, this`names
    {
      (forall id :: id in accounts ==> accounts[id].name in names && names[accounts[id].name] == id) &&
      (forall n :: n in names ==> names[n] in accounts && accounts[names[n]].name == n)
    }

    /** The tables of the second factor. */
    function Tables(): Factors
      reads this`accounts, this`enrolling, this`recovery, this`nextRecovery, this`logins
    {
      Factors(accounts, enrolling, recovery, nextRecovery, logins)
    }

    ghost predicate FactorsOk()
      reads this`accounts, this`enrolling, this`recovery, this`nextRecovery, this`logins, this`ops
    {
      Tables() == FactorsAfter(c, ops) && Distinct(ops)
    }

    ghost predicate Valid()
      reads this
    {
      AttemptsOk() && NamesOk() && FactorsOk()
    }

    /** Was the call the last one, and have the tables of the second factor taken its step? */
    twostate predicate Did(op: Op)
      reads this`accounts, this`enrolling, this`recovery, this`nextRecovery, this`logins, this`ops
    {
      Tables() == Next(c, old(Tables()), op) && ops == old(ops) + [op]
    }

    twostate lemma Follows(op: Op)
      requires old(FactorsOk()) && Did(op) && (op.SignIn? ==> !Issued(old(ops), op.token))
      ensures FactorsOk()
    {
      hide Next;
      assert ops[..|old(ops)|] == old(ops);
    }

    constructor (pws: Passwords, c: Codes)
      ensures Valid() && this.pws == pws && this.c == c && calls == [] && ops == []
      ensures accounts == map[] && attempts == [] && recovery == [] && logins == map[] && enrolling == map[]
    {
      this.pws, this.c := pws, c;
      accounts, names, attempts, recovery, nextRecovery, logins, enrolling := map[], map[], [], [], 1, map[], map[];
      calls, ops := [], [];
    }

    // ---- passwords --------------------------------------------------------------------------

    /** Writes the outcome of a checked attempt; a success for good clears the user's failures. */
    method RecordAttempt(user: string, ip: string, now: nat, ok: bool, clears: bool, logged: bool)
      requires AttemptsOk() && now > 0 && LockedUntil(attempts, user, ip, now) == 0
      modifies this`attempts, this`calls
      ensures AttemptsOk()
      ensures attempts == After(old(attempts), Try(user, ip, now, ok, clears, logged))
    {
      hide LockedUntil, Cleared, AfterAll, Timed;
      ghost var call := Try(user, ip, now, ok, clears, logged);
      PushCall(calls, call);
      if logged || !ok {
        attempts := attempts + [Attempt(user, ip, now, ok)];
      }
      if ok && clears {
        attempts := Cleared(attempts, user);
      }
      calls := calls + [call];
    }

    /** The password step.  A failure of an unlocked caller is recorded, whoever the user is. */
    method VerifyLogin(username: string, password: string, ip: string, now: nat) returns (r: Outcome)
      requires Valid() && now > 0
      modifies this`attempts, this`calls
      ensures Valid()
      ensures !pws.plausible(username, password) ==> r == Wrong && attempts == old(attempts)
      ensures pws.plausible(username, password) ==>
        var user := pws.fold(username);
        var until := LockedUntil(old(attempts), user, ip, now);
        var ok := PasswordOk(user, password);
        attempts == After(old(attempts), Try(user, ip, now, ok, ok && NoSecret(user), true)) &&
        r == if until != 0 then LockedOut(Max(1, until - now)) else if ok then Accepted(names[user]) else Wrong
      ensures r.Accepted? ==>
        r.userId in accounts && accounts[r.userId].name == pws.fold(username) &&
        pws.verify(password, accounts[r.userId].pw)
      ensures pws.plausible(username, password) && LockedUntil(old(attempts), pws.fold(username), ip, now) == 0 ==>
        (r == Wrong <==> !KnowsPassword(pws.fold(username), password)) && (r != Wrong ==> r.Accepted?) &&
        (r == Wrong ==> attempts == old(attempts) + [Attempt(pws.fold(username), ip, now, false)])
      ensures r.Accepted? && accounts[r.userId].secret.Some? ==>
        attempts == old(attempts) + [Attempt(pws.fold(username), ip, now, true)]
      ensures r.Accepted? && accounts[r.userId].secret.None? ==>
        FailuresGone(old(attempts) + [Attempt(pws.fold(username), ip, now, true)], attempts, pws.fold(username))
      ensures r.LockedOut? ==> attempts == old(attempts)
    {
      if !pws.plausible(username, password) {
        return Wrong;
      }
      ghost var knows := KnowsPassword(pws.fold(username), password);
      NameFound(pws.fold(username), password);
      TryExactly(attempts, pws.fold(username), ip, now, PasswordOk(pws.fold(username), password),
        PasswordOk(pws.fold(username), password) && NoSecret(pws.fold(username)), true);
      hide AfterAll, LockedUntil, Cleared, AttemptsOk, NamesOk, FactorsOk, FailuresGone, KnowsPassword;
      var user := pws.fold(username);
      var until := CheckLockout(attempts, user, ip, now);
      if until != 0 {
        return LockedOut(Max(1, until - now));
      }
      var ok := PasswordOk(user, password);
      RecordAttempt(user, ip, now, ok, ok && NoSecret(user), true);
      r := if ok then Accepted(names[user]) else Wrong;
    }

    /** Does the password belong to the account of that name, if there is one? */
    predicate PasswordOk(user: string, password: string)
      reads this`accounts, this`names
      ensures PasswordOk(user, password) ==> user in names
    {
      user in names && names[user] in accounts && pws.verify(password, accounts[names[user]].pw)
    }

    /** Is there an account of that name whose stored hash the password matches? */
    ghost predicate KnowsPassword(user: string, password: string)
      reads this`accounts
    {
      exists id :: id in accounts && accounts[id].name == user && pws.verify(password, accounts[id].pw)
    }

    lemma NameFound(user: string, password: string)
      requires NamesOk()
      ensures PasswordOk(user, password) <==> KnowsPassword(user, password)
      ensures user in names ==> names[user] in accounts && accounts[names[user]].name == user
    {
      if user in names {
        var id := names[user];
        assert id in accounts && accounts[id].name == user;
        assert pws.verify(password, accounts[id].pw) ==> KnowsPassword(user, password);
      }
      if KnowsPassword(user, password) {
        var id :| id in accounts && accounts[id].name == user && pws.verify(password, accounts[id].pw);
        assert names[accounts[id].name] == id;
      }
    }

    predicate NoSecret(user: string)
      reads this`accounts, this`names
    {
      user in names && names[user] in accounts && accounts[names[user]].secret.None?
    }

    /** A signed-in user's password asked for again: the same tiers, a success is not logged but clears. */
    method VerifyCurrentPassword(userId: int, password: string, ip: string, now: nat) returns (r: Outcome)
      requires Valid() && now > 0
      modifies this`attempts, this`calls
      ensures Valid()
      ensures userId !in accounts || !pws.plausible(accounts[userId].name, password) ==>
        r == Wrong && attempts == old(attempts)
      ensures userId in accounts && pws.plausible(accounts[userId].name, password) ==>
        var user := accounts[userId].name;
        var until := LockedUntil(old(attempts), user, ip, now);
        var ok := pws.verify(password, accounts[userId].pw);
        attempts == After(old(attempts), Try(user, ip, now, ok, true, false)) &&
        r == if until != 0 then LockedOut(Max(1, until - now)) else if ok then Accepted(userId) else Wrong
      ensures r.Accepted? ==>
        r.userId == userId && userId in accounts && pws.verify(password, accounts[userId].pw) &&
        FailuresGone(old(attempts), attempts, accounts[userId].name)
      ensures userId in accounts && pws.plausible(accounts[userId].name, password) ==>
        LockedUntil(old(attempts), accounts[userId].name, ip, now) == 0 ==>
        if pws.verify(password, accounts[userId].pw) then r == Accepted(userId)
        else r == Wrong && attempts == old(attempts) + [Attempt(accounts[userId].name, ip, now, false)]
      ensures r.LockedOut? ==> attempts == old(attempts)
    {
      if userId !in accounts || !pws.plausible(accounts[userId].name, password) {
        return Wrong;
      }
      TryExactly(attempts, accounts[userId].name, ip, now, pws.verify(password, accounts[userId].pw), true, false);
      assert attempts + [] == attempts;
      hide FailuresGone;
      hide AfterAll, LockedUntil, Cleared, AttemptsOk, NamesOk, FactorsOk;
      var user := accounts[userId].name;
      var until := CheckLockout(attempts, user, ip, now);
      if until != 0 {
        return LockedOut(Max(1, until - now));
      }
      var ok := pws.verify(password, accounts[userId].pw);
      RecordAttempt(user, ip, now, ok, true, false);
      r := if ok then Accepted(userId) else Wrong;
    }

    // ---- accounts -------------------------------------------------------------------------

    /** Usernames are unique up to case; the id is the next one of the table. */
    method CreateUser(id: int, username: string, pw: string) returns (ok: bool)
      requires Valid() && id !in accounts
      modifies this`accounts, this`names, this`ops
      ensures Valid() && ok == (pws.fold(username) !in old(names))
      ensures if ok then Did(Create(id, pws.fold(username), pw)) else accounts == old(accounts) && ops == old(ops)
      ensures ok ==> accounts == old(accounts)[id := Account(pws.fold(username), pw, None, None)]
    {
      hide AttemptsOk, FactorsAfter, EffectOf, Enrolled, Stripped, Renewed, Consume, Checked;
      ok := pws.fold(username) !in names;
      if ok {
        accounts := accounts[id := Account(pws.fold(username), pw, None, None)];
        names := names[pws.fold(username) := id];
        ops := ops + [Create(id, pws.fold(username), pw)];
        Follows(Create(id, pws.fold(username), pw));
      }
    }

    method DeleteUser(id: int) returns (ok: bool)
      requires Valid()
      modifies this`accounts, this`names, this`enrolling, this`recovery, this`logins, this`ops
      ensures Valid() && ok == (id in old(accounts)) && Did(Remove(id))
    {
      hide AttemptsOk, WithoutUser, FactorsAfter, EffectOf, Enrolled, Renewed, Consume, Checked;
      ok := id in accounts;
      if ok {
        RemoveName(id);
        enrolling := enrolling - {id};
        recovery := WithoutUser(recovery, id);
        logins := OtherLogins(logins, id);
      }
      ops := ops + [Remove(id)];
      Follows(Remove(id));
    }

    method RemoveName(id: int)
      requires NamesOk() && id in accounts
      modifies this`accounts, this`names
      ensures NamesOk() && accounts == old(accounts) - {id}
    {
      names := names - {accounts[id].name};
      accounts := accounts - {id};
    }

    /** A change of an account that keeps its name. */
    twostate lemma NamesStay(userId: int)
      requires old(NamesOk()) && names == old(names) && userId in old(accounts) && userId in accounts
      requires accounts == old(accounts)[userId := accounts[userId]]
      requires accounts[userId].name == old(accounts)[userId].name
      ensures NamesOk()
    {
    }

    // ---- enrolment ------------------------------------------------------------------------

    /** Keeps a fresh secret aside until the user proves the authenticator has it. */
    method TotpBegin(userId: int, secret: string, now: nat) returns (ok: bool)
      requires Valid()
      modifies this`enrolling, this`ops
      ensures Valid() && ok == (userId in accounts) && Did(Begin(userId, secret, now))
    {
      hide AttemptsOk, NamesOk, FactorsAfter, EffectOf, Enrolled, Stripped, Renewed, Consume, Checked;
      ok := userId in accounts;
      if ok {
        enrolling := enrolling[userId := Enrolment(secret, now)];
      }
      ops := ops + [Begin(userId, secret, now)];
      Follows(Begin(userId, secret, now));
    }

    /** Activates the pending secret; the step that proved it is burned, and fresh recovery codes replace old ones. */
    method TotpConfirm(userId: int, code: Text, now: nat, codes: seq<Text>) returns (r: Outcome)
      requires Valid()
      modifies this`accounts, this`enrolling, this`recovery, this`nextRecovery, this`ops
      ensures Valid() && Did(Confirm(userId, code, now, codes))
      ensures var u := EffectOf(c, old(Tables()), Confirm(userId, code, now, codes)).used;
        r == if u.Broke? then Raised else if u.Totp? then Accepted(userId) else Wrong
    {
      hide AttemptsOk, NamesOk, FactorsAfter, Renewed, Stripped, Consume, Checked, MatchStep;
      r := Wrong;
      if userId in enrolling && enrolling[userId].created >= now - TOTP_PENDING_TTL {
        var secret := enrolling[userId].secret;
        var m := TotpMatch(c, secret, code, now, None);
        if m == Raises {
          r := Raised;
        } else if m.At? && userId in accounts {
          accounts := accounts[userId := accounts[userId].(secret := Some(secret), lastStep := Some(m.step))];
          NamesStay(userId);
          enrolling := enrolling - {userId};
          ReplaceCodes(userId, codes);
          r := Accepted(userId);
        }
      }
      ops := ops + [Confirm(userId, code, now, codes)];
      Follows(Confirm(userId, code, now, codes));
    }

    /** Replaces a user's recovery codes, used or not. */
    method ReplaceCodes(userId: int, codes: seq<Text>)
      modifies this`recovery, this`nextRecovery
      ensures Tables() == Renewed(c, old(Tables()), userId, codes)
    {
      recovery := WithoutUser(recovery, userId) + FreshCodes(c, userId, codes, nextRecovery);
      nextRecovery := nextRecovery + |codes|;
    }

    /** Turns the second factor off: secret, codes, set-ups and pending sign-ins all go. */
    method TotpDisable(userId: int) returns (ok: bool)
      requires Valid()
      modifies this`accounts, this`enrolling, this`recovery, this`logins, this`ops
      ensures Valid() && ok == (userId in old(accounts)) && Did(Disable(userId))
      ensures !ok ==> Tables() == old(Tables())
    {
      hide AttemptsOk, NamesOk, FactorsAfter, WithoutUser, EffectOf, Enrolled, Renewed, Consume, Checked;
      ok := userId in accounts;
      if ok {
        accounts := accounts[userId := accounts[userId].(secret := None, lastStep := None)];
        NamesStay(userId);
        enrolling := enrolling - {userId};
        recovery := WithoutUser(recovery, userId);
        logins := OtherLogins(logins, userId);
      }
      ops := ops + [Disable(userId)];
      Follows(Disable(userId));
    }

    method NewRecoveryCodes(userId: int, codes: seq<Text>) returns (ok: bool)
      requires Valid()
      modifies this`recovery, this`nextRecovery, this`ops
      ensures Valid() && ok == (userId in accounts && accounts[userId].secret.Some?) && Did(Renew(userId, codes))
    {
      hide AttemptsOk, NamesOk, FactorsAfter, EffectOf, Enrolled, Stripped, Renewed, Consume, Checked;
      ok := userId in accounts && accounts[userId].secret.Some?;
      if ok {
        ReplaceCodes(userId, codes);
      }
      ops := ops + [Renew(userId, codes)];
      Follows(Renew(userId, codes));
    }

    // ---- the second factor -------------------------------------------------------------------

    /** The loop over a user's unused codes, without early exit. */
    method SearchRecovery(userId: int, h: string) returns (hit: int)
      ensures hit == FindRecovery(recovery, userId, h)
    {
      hit := -1;
      for i := 0 to |recovery|
        invariant hit == FindRecovery(recovery[..i], userId, h)
      {
        assert recovery[..i + 1][..i] == recovery[..i];
        if recovery[i].userId == userId && !recovery[i].used && recovery[i].hash == h {
          hit := i;
        }
      }
      assert recovery[..|recovery|] == recovery;
    }

    /** Burns the step of a right TOTP code, or uses up a recovery code. */
    method ConsumeSecondFactor(userId: int, code: Text, now: nat) returns (u: Used)
      requires NamesOk() && userId in accounts && accounts[userId].secret.Some?
      modifies this`accounts, this`recovery
      ensures NamesOk()
      ensures u == WhichFactor(c, old(accounts)[userId], old(recovery), userId, code, now)
      ensures Tables() == Consume(old(Tables()), userId, u)
    {
      hide NamesOk, MatchStep, FindRecovery, Encodable, Norm;
      u := Unused;
      if |code| == 0 || |code| > MAX_CODE_LEN {
        return;
      }
      var m := TotpMatch(c, accounts[userId].secret.value, code, now, accounts[userId].lastStep);
      if m == Raises {
        return Broke;
      }
      if m.At? {
        accounts := accounts[userId := accounts[userId].(lastStep := Some(m.step))];
        NamesStay(userId);
        return Totp(m.step, now);
      }
      if !Encodable(Norm(c, code)) {
        return Broke;
      }
      var hit := SearchRecovery(userId, c.hash(Norm(c, code)));
      if hit >= 0 {
        u := Row(hit, recovery[hit].id);
        recovery := recovery[hit := recovery[hit].(used := true)];
      }
    }

    /** A signed-in user's second factor for a sensitive action. */
    method VerifyTotpCode(userId: int, code: Text, now: nat) returns (r: Outcome)
      requires Valid()
      modifies this`accounts, this`recovery, this`ops
      ensures Valid() && Did(Verify(userId, code, now))
      ensures var u := EffectOf(c, old(Tables()), Verify(userId, code, now)).used;
        r == if u.Broke? then Raised else if Succeeds(u) then Accepted(userId) else Wrong
    {
      hide AttemptsOk, NamesOk, FactorsAfter, WhichFactor, Consume;
      r := Wrong;
      if userId in accounts && accounts[userId].secret.Some? {
        var u := ConsumeSecondFactor(userId, code, now);
        r := if u.Broke? then Raised else if Succeeds(u) then Accepted(userId) else Wrong;
      } else {
        NothingConsumed(Tables(), userId);
      }
      ops := ops + [Verify(userId, code, now)];
      Follows(Verify(userId, code, now));
    }

    /** After the password checked out: a token for the code, random and so never seen before. */
    method TotpLoginBegin(userId: int, token: Text, now: nat)
      requires Valid() && !Issued(ops, c.hash(token))
      modifies this`logins, this`ops
      ensures Valid() && Did(SignIn(c.hash(token), userId, now))
    {
      hide AttemptsOk, NamesOk, FactorsAfter;
      logins := logins[c.hash(token) := Pending(userId, now + TOTP_LOGIN_TTL, 0)];
      ops := ops + [SignIn(c.hash(token), userId, now)];
      Follows(SignIn(c.hash(token), userId, now));
    }

    /** The second step for a live pending sign-in of a caller who is not locked out. */
    method CheckCode(th: string, code: Text, ip: string, now: nat) returns (u: Used)
      requires AttemptsOk() && NamesOk() && now > 0 && Live(Tables(), th, now)
      requires LockedUntil(attempts, accounts[logins[th].userId].name, ip, now) == 0
      modifies this`attempts, this`calls, this`accounts, this`recovery, this`logins
      ensures AttemptsOk() && NamesOk()
      ensures u == EffectOf(c, old(Tables()), Finish(th, code, now, false)).used
      ensures Tables() == Next(c, old(Tables()), Finish(th, code, now, false))
      ensures attempts ==
        if u.Broke? then old(attempts)
        else
          var user := old(accounts)[old(logins)[th].userId].name;
          After(old(attempts), Try(user, ip, now, Succeeds(u), true, true))
      ensures !u.Broke? ==>
        var user := old(accounts)[old(logins)[th].userId].name;
        var logged := old(attempts) + [Attempt(user, ip, now, Succeeds(u))];
        if Succeeds(u) then th !in logins && FailuresGone(logged, attempts, user) else attempts == logged
    {
      hide AttemptsOk, NamesOk, WhichFactor, LockedUntil, After, Consume, FailuresGone;
      var userId := logins[th].userId;
      var user := accounts[userId].name;
      TryExactly(attempts, user, ip, now, true, true, true);
      TryExactly(attempts, user, ip, now, false, true, true);
      ghost var before := Tables();
      var n := logins[th].attempts + 1;
      logins := logins[th := logins[th].(attempts := n)];
      u := ConsumeSecondFactor(userId, code, now);
      ConsumeOnly(before, logins, userId, u);
      if u.Broke? {
        return;
      }
      RecordAttempt(user, ip, now, Succeeds(u), true, true);
      if Succeeds(u) || n >= TOTP_LOGIN_MAX_ATTEMPTS {
        logins := logins - {th};
        assert old(logins) - {th} == old(logins)[th := old(logins)[th].(attempts := n)] - {th};
      }
    }

    /**
     * The second step.  A dead token is deleted, a locked-out caller costs no check, a wrong code
     * is a failed sign-in; but when looking at the code raises, the check is spent and nothing is
     * recorded.  A token that cannot be hashed raises before anything happens.
     */
    method TotpLoginFinish(token: Text, code: Text, ip: string, now: nat) returns (r: Outcome)
      requires Valid() && now > 0
      modifies this`attempts, this`calls, this`accounts, this`recovery, this`logins, this`ops
      ensures Valid()
      ensures |token| == 0 || |token| > 128 ==>
        r == Expired && Tables() == old(Tables()) && ops == old(ops) && attempts == old(attempts)
      ensures 0 < |token| <= 128 && !Encodable(token) ==>
        r == Raised && Tables() == old(Tables()) && ops == old(ops) && attempts == old(attempts)
      ensures 0 < |token| <= 128 && Encodable(token) ==>
        var th, f := c.hash(token), old(Tables());
        var live := Live(f, th, now);
        var user := if live then f.accounts[f.logins[th].userId].name else "";
        var until := if live then LockedUntil(old(attempts), user, ip, now) else 0;
        var op := Finish(th, code, now, until != 0);
        var u := EffectOf(c, f, op).used;
        Did(op) &&
        r == (if !live then Expired
              else if until != 0 then LockedOut(Max(1, until - now))
              else if u.Broke? then Raised
              else if Succeeds(u) then Accepted(f.logins[th].userId)
              else Wrong) &&
        attempts == if !live || until != 0 || u.Broke? then old(attempts)
                    else After(old(attempts), Try(user, ip, now, Succeeds(u), true, true))
      ensures r.Accepted? || r == Wrong ==>
        var th := c.hash(token);
        th in old(logins) && old(logins)[th].userId in old(accounts) &&
        var user := old(accounts)[old(logins)[th].userId].name;
        var logged := old(attempts) + [Attempt(user, ip, now, r.Accepted?)];
        if r.Accepted? then r.userId == old(logins)[th].userId && th !in logins && FailuresGone(logged, attempts, user)
        else attempts == logged
      ensures r == Expired || r.LockedOut? || r == Raised ==> attempts == old(attempts)
    {
      hide AttemptsOk, NamesOk, WhichFactor, LockedUntil, After, FactorsAfter, Consume, Checked, Encodable,
        FailuresGone;
      if |token| == 0 || |token| > MAX_TOKEN_LEN {
        return Expired;
      }
      if !Encodable(token) {
        return Raised;
      }
      var th := c.hash(token);
      if !Live(Tables(), th, now) {
        logins := logins - {th};
        ops := ops + [Finish(th, code, now, false)];
        Follows(Finish(th, code, now, false));
        return Expired;
      }
      var userId := logins[th].userId;
      var until := CheckLockout(attempts, accounts[userId].name, ip, now);
      if until != 0 {
        ops := ops + [Finish(th, code, now, true)];
        Follows(Finish(th, code, now, true));
        return LockedOut(Max(1, until - now));
      }
      var u := CheckCode(th, code, ip, now);
      ops := ops + [Finish(th, code, now, false)];
      Follows(Finish(th, code, now, false));
      r := if u.Broke? then Raised else if Succeeds(u) then Accepted(userId) else Wrong;
    }

    // ---- housekeeping ----------------------------------------------------------------------------

    method ClearLockout(username: string)
      requires Valid()
      modifies this`attempts, this`calls
      ensures Valid() && attempts == After(old(attempts), Clear(pws.fold(username)))
      ensures FailuresGone(old(attempts), attempts, pws.fold(username))
    {
      ClearedExactly(attempts, pws.fold(username));
      hide FailuresGone;
      hide NamesOk, FactorsOk, AfterAll, Cleared, Timed;
      PushCall(calls, Clear(pws.fold(username)));
      attempts := Cleared(attempts, pws.fold(username));
      calls := calls + [Clear(pws.fold(username))];
    }

    method Prune(now: nat)
      requires Valid()
      modifies this`attempts, this`calls, this`logins, this`enrolling, this`ops
      ensures Valid() && Did(Purge(now))
      ensures attempts == After(old(attempts), Sweep(now))
      ensures OlderGone(old(attempts), attempts, now - 86400)
    {
      RetainedExactly(attempts, now - 86400);
      hide OlderGone;
      hide NamesOk, AfterAll, Retained, Timed, FactorsAfter, EffectOf, Enrolled, Stripped, Renewed, Consume, Checked,
        OpenLogins, OpenEnrolments;
      PushCall(calls, Sweep(now));
      attempts := Retained(attempts, now - ATTEMPT_RETENTION);
      calls := calls + [Sweep(now)];
      logins := OpenLogins(logins, now);
      enrolling := OpenEnrolments(enrolling, now);
      ops := ops + [Purge(now)];
      Follows(Purge(now));
    }

    // ---- what Valid means between any two calls -----------------------------------------------------

    /** The limits of the lockout hold of the table of attempts. */
    lemma AttemptsLimited()
      requires Valid()
      ensures Limited(attempts)
    {
      RunLimited(calls);
    }

    /**
     * A caller refused earlier, until time u, was locked by some tier; everyone that tier is about
     * is still refused at any time up to u, unless a call since has cleared a failure it counts.
     */
    lemma LockLasts(before: seq<Call>, user: string, ip: string, now: int)
      requires Valid() && before <= calls && LockedUntil(AfterAll(before), user, ip, now) != 0
      ensures var u := LockedUntil(AfterAll(before), user, ip, now);
        exists s :: Concerns(s, user, ip) && Locks(AfterAll(before), s, u) &&
          (HarmlessAll(before, calls[|before|..], s, u) ==> LockedNow(s, u))
    {
      var u, more := LockedUntil(AfterAll(before), user, ip, now), calls[|before|..];
      assert calls == before + more;
      assert Timed(before) && Timed(more);
      LockPersists(before, user, ip, now);
      hide LockedUntil, AfterAll, Concerns, HarmlessAll, Locks;
      var s :| Concerns(s, user, ip) && Locks(AfterAll(before), s, u) && Refuses(before, s, u);
      if HarmlessAll(before, more, s, u) {
        assert LockedNow(s, u);
      }
    }

    /** Would the lockout refuse every caller of tier s at every time up to u? */
    ghost predicate LockedNow(s: Scope, u: int)
      reads this`attempts
    {
      forall user, ip, later :: Concerns(s, user, ip) && later <= u ==> LockedUntil(attempts, user, ip, later) != 0
    }

    /** Every token ever issued has had at most five codes checked and one success. */
    lemma TokensBounded(th: string)
      requires Valid()
      ensures Checks(c, ops, th) <= 5 && Wins(c, ops, th) <= 1
    {
      TokenBounds(c, ops, th);
    }

    /** No factor was accepted twice: steps of one enrolment have risen, and recovery codes differ. */
    lemma FactorsOnce(i: nat, j: nat)
      requires Valid() && i < j < |ops|
      ensures var d, e := EffectAt(c, ops, i), EffectAt(c, ops, j);
        (d.used.Row? && e.used.Row? ==> d.used.id != e.used.id) &&
        (d.used.Totp? && e.used.Totp? && d.userId == e.userId && OneEnrolment(c, ops, i, j, d.userId) ==>
          d.used.step < e.used.step)
    {
      hide EffectAt, OneEnrolment;
      var d, e := EffectAt(c, ops, i), EffectAt(c, ops, j);
      if d.used.Row? && e.used.Row? {
        RowsOnce(c, ops, i, j);
      }
      if d.used.Totp? && e.used.Totp? && d.userId == e.userId && OneEnrolment(c, ops, i, j, d.userId) {
        StepsRise(c, ops, i, j);
      }
    }
  }

  lemma NothingConsumed(f: Factors, userId: int)
    ensures Consume(f, userId, Unused) == f
  {
  }

  /** Consuming a factor does not look at the pending sign-ins, nor touch them. */
  lemma ConsumeOnly(f: Factors, logins: map<string, Pending>, userId: int, u: Used)
    ensures Consume(f.(logins := logins), userId, u) == Consume(f, userId, u).(logins := logins)
  {
  }
}
