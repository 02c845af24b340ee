/**
 * What the calls of the second factor do, said of the rows of its tables, in
 * seconds and in digits.
 */
module FactorEffects {
  import opened Wrappers
  import opened SecondFactor

  // ---- which codes are accepted ---------------------------------------------------------------

  /**
   * An accepted code is the six-digit code of a step within half a minute of the clock that is
   * newer than the last one burned, or hashes like an unused recovery row of that user.
   */
  lemma AcceptedCode(c: Codes, a: Account, rows: seq<Recovery>, userId: int, code: Text, now: nat)
    ensures var u, x := WhichFactor(c, a, rows, userId, code, now), Clean(c, code);
      (Succeeds(u) ==> a.secret.Some? && 1 <= |code| <= 64) &&
      (u.Totp? ==>
        |x| == 6 && u.step >= 0 && c.code(a.secret.value, u.step) == x && u.at == now &&
        now / 30 - 1 <= u.step <= now / 30 + 1 && (a.lastStep.Some? ==> u.step > a.lastStep.value)) &&
      (u.Row? ==> u.index < |rows| && rows[u.index] == Recovery(u.id, userId, c.hash(Norm(c, code)), false))
  {
    hide Clean, Norm, Encodable, Ascii;
    FindRecoveryExactly(rows, userId, c.hash(Norm(c, code)));
  }

  /** The code of any unburned step within half a minute of the clock is accepted. */
  lemma RightCodeAccepted(c: Codes, a: Account, rows: seq<Recovery>, userId: int, code: Text, now: nat, s: nat)
    requires a.secret.Some? && 1 <= |code| <= 64 && now >= 30 && now / 30 - 1 <= s <= now / 30 + 1
    requires a.lastStep.Some? ==> s > a.lastStep.value
    requires var x := Clean(c, code);
      |x| == 6 && (forall i :: 0 <= i < 6 ==> x[i] < 128 && c.digit(x[i])) && c.code(a.secret.value, s) == x
    ensures var u := WhichFactor(c, a, rows, userId, code, now); u.Totp? && u.step <= s
  {
    hide Clean, Norm, Encodable;
  }

  /** So is text other than six digits that hashes like an unused recovery row of the user. */
  lemma RecoveryCodeAccepted(c: Codes, a: Account, rows: seq<Recovery>, userId: int, code: Text, now: nat, r: Recovery)
    requires a.secret.Some? && 1 <= |code| <= 64 && Encodable(Norm(c, code))
    requires var x := Clean(c, code); |x| != 6 || exists i :: 0 <= i < 6 && !c.digit(x[i])
    requires r in rows && r.userId == userId && !r.used && r.hash == c.hash(Norm(c, code))
    ensures WhichFactor(c, a, rows, userId, code, now).Row?
  {
    hide Clean, Norm, Encodable, Trips, Candidate;
    FindRecoveryExactly(rows, userId, c.hash(Norm(c, code)));
  }

  /** The code that a call of this kind brings. */
  function CodeOf(op: Op): Text {
    match op
    case Confirm(_, code, _, _) => code
    case Verify(_, code, _) => code
    case Finish(_, code, _, _) => code
    case _ => []
  }

  /**
   * A call that accepts a code has looked at the user it is for: at the secret of the set-up, or
   * at the account's secret or one of its own unused recovery rows, for the user signed in or the
   * one whose password opened the pending sign-in, if the caller is not locked out.
   */
  lemma AcceptedCall(c: Codes, f: Factors, op: Op)
    requires Succeeds(EffectOf(c, f, op).used)
    ensures var e, code := EffectOf(c, f, op), CodeOf(op);
      e.userId in f.accounts && (op.Confirm? || op.Verify? || op.Finish?) &&
      (op.Confirm? ==>
        e.userId == op.userId && e.userId in f.enrolling && e.used.Totp? && e.used.step >= 0 &&
        c.code(f.enrolling[e.userId].secret, e.used.step) == Clean(c, code)) &&
      (op.Verify? ==> e.userId == op.userId) &&
      (op.Finish? ==> op.token in f.logins && e.userId == f.logins[op.token].userId && !op.locked) &&
      (!op.Confirm? && e.used.Totp? ==>
        f.accounts[e.userId].secret.Some? && e.used.step >= 0 &&
        c.code(f.accounts[e.userId].secret.value, e.used.step) == Clean(c, code)) &&
      (e.used.Row? ==>
        e.used.index < |f.recovery| &&
        f.recovery[e.used.index] == Recovery(e.used.id, e.userId, c.hash(Norm(c, code)), false))
  {
    var e := EffectOf(c, f, op);
    if op.Confirm? {
      hide Clean, Norm, Encodable, WellFormed, Trips, FindRecovery;
    } else {
      hide Clean, Norm, WhichFactor, MatchStep;
      var now := if op.Verify? then op.now else if op.Finish? then op.now else 0;
      AcceptedCode(c, f.accounts[e.userId], f.recovery, e.userId, CodeOf(op), now);
    }
  }

  // ---- how a code may be typed ------------------------------------------------------------------

  lemma {:induction false} WithoutConcat(x: Text, y: Text, p: CodePoint)
    ensures Without(x + y, p) == Without(x, p) + Without(y, p)
  {
    if |y| == 0 {
      assert x + y == x;
    } else {
      WithoutConcat(x, y[..|y| - 1], p);
      assert (x + y)[..|x + y| - 1] == x + y[..|y| - 1];
    }
  }

  lemma {:induction false} WithoutNone(x: Text, p: CodePoint)
    ensures p !in Without(x, p) && (p !in x ==> Without(x, p) == x)
  {
    if |x| > 0 {
      WithoutNone(x[..|x| - 1], p);
      assert x == x[..|x| - 1] + [x[|x| - 1]];
    }
  }

  lemma {:induction false} StripLeading(c: Codes, pre: Text, x: Text)
    requires (forall p :: p in pre ==> c.blank(p)) && |x| > 0 && !c.blank(x[0])
    ensures StripLeft(c, pre + x) == x
  {
    if |pre| > 0 {
      assert (pre + x)[1..] == pre[1..] + x;
      StripLeading(c, pre[1..], x);
    } else {
      assert pre + x == x;
    }
  }

  lemma {:induction false} StripTrailing(c: Codes, x: Text, post: Text)
    requires (forall p :: p in post ==> c.blank(p)) && |x| > 0 && !c.blank(x[|x| - 1])
    ensures StripRight(c, x + post) == x
  {
    if |post| > 0 {
      var n := |post| - 1;
      assert (x + post)[..|x| + n] == x + post[..n];
      StripTrailing(c, x, post[..n]);
    } else {
      assert x + post == x;
    }
  }

  /** White space around a code does not matter, nor does a blank in its middle. */
  lemma TypedInHalves(c: Codes, pre: Text, a: Text, b: Text, post: Text)
    requires forall p :: p in pre || p in post ==> c.blank(p)
    requires |a| > 0 && |b| > 0 && c.blank(0x20) && forall p :: p in a || p in b ==> !c.blank(p)
    ensures Clean(c, pre + (a + [0x20] + b) + post) == a + b
    ensures Clean(c, pre + (a + b) + post) == a + b
  {
    hide Without, Strip;
    var whole, parted := a + b, a + [0x20] + b;
    assert !c.blank(whole[0]) && !c.blank(whole[|whole| - 1]) && parted[0] == a[0] && parted[|parted| - 1] in b;
    Trimmed(c, pre, parted, post);
    Trimmed(c, pre, whole, post);
    HalvesJoined(a, b);
  }

  lemma HalvesJoined(a: Text, b: Text)
    requires 0x20 !in a && 0x20 !in b
    ensures Without(a + [0x20] + b, 0x20) == a + b && Without(a + b, 0x20) == a + b
  {
    hide Without;
    WithoutConcat(a + [0x20], b, 0x20);
    WithoutConcat(a, [0x20], 0x20);
    WithoutConcat(a, b, 0x20);
    WithoutNone(a, 0x20);
    WithoutNone(b, 0x20);
    BlankGoes();
    assert a + [] == a;
  }

  lemma BlankGoes()
    ensures Without([0x20], 0x20) == []
  {
  }

  lemma Trimmed(c: Codes, pre: Text, x: Text, post: Text)
    requires (forall p :: p in pre || p in post ==> c.blank(p)) && |x| > 0 && !c.blank(x[0]) && !c.blank(x[|x| - 1])
    ensures Strip(c, pre + x + post) == x
  {
    assert pre + x + post == pre + (x + post);
    StripLeading(c, pre, x + post);
    StripTrailing(c, x, post);
  }

  /** A recovery code is compared without dashes and blanks. */
  lemma NormPlain(c: Codes, code: Text)
    ensures 0x2D !in Norm(c, code) && 0x20 !in Norm(c, code)
    ensures 0x2D !in c.lower(Strip(c, code)) && 0x20 !in c.lower(Strip(c, code)) ==>
      Norm(c, code) == c.lower(Strip(c, code))
  {
    var x := c.lower(Strip(c, code));
    WithoutNone(x, 0x2D);
    WithoutNone(Without(x, 0x2D), 0x20);
    WithoutFewer(Without(x, 0x2D), 0x20, 0x2D);
  }

  lemma {:induction false} WithoutFewer(x: Text, p: CodePoint, q: CodePoint)
    ensures q !in x ==> q !in Without(x, p)
  {
    if |x| > 0 {
      WithoutFewer(x[..|x| - 1], p, q);
      assert x == x[..|x| - 1] + [x[|x| - 1]];
    }
  }

  // ---- sign-ins and set-ups expire --------------------------------------------------------------

  /** A sign-in takes codes for five minutes, as long as the account has a second factor. */
  lemma SignInLives(c: Codes, f: Factors, token: string, userId: int, begun: nat, now: nat)
    ensures Live(Next(c, f, SignIn(token, userId, begun)), token, now) <==>
      now <= begun + 300 && userId in f.accounts && f.accounts[userId].secret.Some?
  {
  }

  /** A set-up can be confirmed for ten minutes. */
  lemma SetUpLives(c: Codes, f: Factors, userId: int, secret: string, begun: nat, now: nat)
    requires userId in f.accounts
    ensures Enrolling(Next(c, f, Begin(userId, secret, begun)), userId, now) <==> now <= begun + 600
  {
  }

  /** The first four wrong codes leave it, the fifth ends it. */
  lemma WrongCodeCounts(c: Codes, f: Factors, token: string, code: Text, now: nat)
    requires Live(f, token, now) && EffectOf(c, f, Finish(token, code, now, false)).used == Unused
    ensures var logins, n := Next(c, f, Finish(token, code, now, false)).logins, f.logins[token].attempts;
      if n < 4 then logins == f.logins[token := Pending(f.logins[token].userId, f.logins[token].expires, n + 1)]
      else logins == f.logins - {token}
  {
    hide WhichFactor;
  }

  /** A right one ends it at once. */
  lemma RightCodeEnds(c: Codes, f: Factors, token: string, code: Text, now: nat)
    requires Live(f, token, now) && Succeeds(EffectOf(c, f, Finish(token, code, now, false)).used)
    ensures Next(c, f, Finish(token, code, now, false)).logins == f.logins - {token}
  {
    hide WhichFactor;
  }

  /** Where a pending sign-in comes from. */
  ghost predicate BegunBy(ops: seq<Op>, token: string, p: Pending) {
    exists j :: 0 <= j < |ops| && ops[j].SignIn? && ops[j].token == token && ops[j].userId == p.userId &&
      p.expires == ops[j].now + 300
  }

  /** Where a set-up comes from. */
  ghost predicate SetUpBy(ops: seq<Op>, userId: int, e: Enrolment) {
    exists j :: 0 <= j < |ops| && ops[j].Begin? && ops[j].userId == userId && ops[j].secret == e.secret &&
      ops[j].now == e.created
  }

  ghost predicate AllBegun(ops: seq<Op>, f: Factors) {
    (forall th :: th in f.logins ==> BegunBy(ops, th, f.logins[th])) &&
    (forall u :: u in f.enrolling ==> SetUpBy(ops, u, f.enrolling[u]))
  }

  lemma StillBegun(ops: seq<Op>, op: Op, f: Factors)
    requires AllBegun(ops, f)
    ensures AllBegun(ops + [op], f)
  {
    forall th | th in f.logins
      ensures BegunBy(ops + [op], th, f.logins[th])
    {
      var p := f.logins[th];
      var j :| 0 <= j < |ops| && ops[j].SignIn? && ops[j].token == th && ops[j].userId == p.userId &&
        p.expires == ops[j].now + 300;
      assert (ops + [op])[j] == ops[j];
    }
    forall u | u in f.enrolling
      ensures SetUpBy(ops + [op], u, f.enrolling[u])
    {
      var e := f.enrolling[u];
      var j :| 0 <= j < |ops| && ops[j].Begin? && ops[j].userId == u && ops[j].secret == e.secret &&
        ops[j].now == e.created;
      assert (ops + [op])[j] == ops[j];
    }
  }

  /** A call leaves pending sign-ins and set-ups as they are, but for their checks, or makes the one it is about. */
  lemma NextBegun(c: Codes, f: Factors, op: Op)
    ensures var g := Next(c, f, op);
      (forall th :: th in g.logins ==>
        (th in f.logins && g.logins[th] == f.logins[th].(attempts := g.logins[th].attempts)) ||
        (op.SignIn? && op.token == th && g.logins[th] == Pending(op.userId, op.now + 300, 0))) &&
      (forall u :: u in g.enrolling ==>
        (u in f.enrolling && g.enrolling[u] == f.enrolling[u]) ||
        (op.Begin? && op.userId == u && g.enrolling[u] == Enrolment(op.secret, op.now)))
  {
    hide EffectOf, WithoutUser, FreshCodes;
  }

  lemma PushBegun(c: Codes, ops: seq<Op>, f: Factors, op: Op)
    requires AllBegun(ops, f)
    ensures AllBegun(ops + [op], Next(c, f, op))
  {
    hide Next;
    StillBegun(ops, op, f);
    NextBegun(c, f, op);
    var g, all := Next(c, f, op), ops + [op];
    assert all[|ops|] == op;
    forall th | th in g.logins
      ensures BegunBy(all, th, g.logins[th])
    {
      if th in f.logins && g.logins[th].userId == f.logins[th].userId && g.logins[th].expires == f.logins[th].expires {
        assert BegunBy(all, th, f.logins[th]);
      }
    }
    forall u | u in g.enrolling
      ensures SetUpBy(all, u, g.enrolling[u])
    {
      if u in f.enrolling && g.enrolling[u] == f.enrolling[u] {
        assert SetUpBy(all, u, f.enrolling[u]);
      }
    }
  }

  lemma {:induction false} RunBegun(c: Codes, ops: seq<Op>)
    ensures AllBegun(ops, FactorsAfter(c, ops))
  {
    if |ops| > 0 {
      hide AllBegun, Next;
      var rest := ops[..|ops| - 1];
      RunBegun(c, rest);
      PushBegun(c, rest, FactorsAfter(c, rest), ops[|ops| - 1]);
      assert ops == rest + [ops[|ops| - 1]];
    }
  }

  /** Over every run a code is checked only within five minutes of the sign-in it belongs to. */
  lemma CheckedInTime(c: Codes, ops: seq<Op>, i: nat)
    requires i < |ops| && EffectAt(c, ops, i).token.Some?
    ensures var e := EffectAt(c, ops, i);
      ops[i].Finish? && e.token == Some(ops[i].token) &&
      exists j :: 0 <= j < i && ops[j].SignIn? && ops[j].token == ops[i].token && ops[j].userId == e.userId &&
        ops[i].now <= ops[j].now + 300
  {
    hide WhichFactor, FactorsAfter, MatchStep;
    var f, token := FactorsAfter(c, ops[..i]), ops[i].token;
    RunBegun(c, ops[..i]);
    var j :| 0 <= j < i && ops[..i][j].SignIn? && ops[..i][j].token == token &&
      ops[..i][j].userId == f.logins[token].userId && f.logins[token].expires == ops[..i][j].now + 300;
    assert ops[j].token == token;
  }

  /** Over every run a second factor is turned on only within ten minutes of its set-up, by a code of that secret. */
  lemma ConfirmedInTime(c: Codes, ops: seq<Op>, i: nat)
    requires i < |ops| && ops[i].Confirm? && EffectAt(c, ops, i).used.Totp?
    ensures var step := EffectAt(c, ops, i).used.step;
      step >= 0 &&
      exists j :: 0 <= j < i && ops[j].Begin? && ops[j].userId == ops[i].userId && ops[i].now <= ops[j].now + 600 &&
        c.code(ops[j].secret, step) == Clean(c, ops[i].code)
  {
    hide WellFormed, FactorsAfter, Trips, Clean;
    var f, userId := FactorsAfter(c, ops[..i]), ops[i].userId;
    RunBegun(c, ops[..i]);
    var e := f.enrolling[userId];
    var j :| 0 <= j < i && ops[..i][j].Begin? && ops[..i][j].userId == userId && ops[..i][j].secret == e.secret &&
      ops[..i][j].now == e.created;
    assert ops[j].userId == userId;
  }

  // ---- what a call leaves of the tables ------------------------------------------------------------

  /** Nothing of anybody else has changed. */
  ghost predicate OthersKept(f: Factors, g: Factors, userId: int) {
    (forall u :: u != userId ==> (u in g.accounts <==> u in f.accounts)) &&
    (forall u :: u != userId && u in f.accounts && u in g.accounts ==> g.accounts[u] == f.accounts[u]) &&
    (forall u :: u != userId ==> (u in g.enrolling <==> u in f.enrolling)) &&
    (forall u :: u != userId && u in f.enrolling && u in g.enrolling ==> g.enrolling[u] == f.enrolling[u]) &&
    (forall r: Recovery :: r.userId != userId ==> (r in g.recovery <==> r in f.recovery)) &&
    (forall th :: th in f.logins && f.logins[th].userId != userId ==> th in g.logins && g.logins[th] == f.logins[th]) &&
    (forall th :: th in g.logins && g.logins[th].userId != userId ==> th in f.logins)
  }

  /** Nothing but the account itself is left of the user. */
  ghost predicate NothingPending(g: Factors, userId: int) {
    userId !in g.enrolling && (forall r :: r in g.recovery ==> r.userId != userId) &&
    (forall th :: th in g.logins ==> g.logins[th].userId != userId)
  }

  lemma StrippedExactly(f: Factors, userId: int)
    ensures NothingPending(Stripped(f, userId), userId) && OthersKept(f, Stripped(f, userId), userId)
    ensures Stripped(f, userId).accounts == f.accounts
  {
    forall r
      ensures r in WithoutUser(f.recovery, userId) <==> r in f.recovery && r.userId != userId
    {
      WithoutUserMember(f.recovery, userId, r);
    }
  }

  lemma RemovedExactly(c: Codes, f: Factors, userId: int)
    requires userId in f.accounts
    ensures var g := Next(c, f, Remove(userId));
      userId !in g.accounts && NothingPending(g, userId) && OthersKept(f, g, userId)
  {
    hide WithoutUser, NothingPending, OthersKept, OtherLogins;
    StrippedExactly(f.(accounts := f.accounts - {userId}), userId);
    KeptThrough(f, f.(accounts := f.accounts - {userId}), Next(c, f, Remove(userId)), userId);
  }

  lemma KeptThrough(f: Factors, h: Factors, g: Factors, userId: int)
    requires OthersKept(h, g, userId) && h.recovery == f.recovery && h.logins == f.logins
    requires h.accounts - {userId} == f.accounts - {userId} && h.enrolling - {userId} == f.enrolling - {userId}
    ensures OthersKept(f, g, userId)
  {
    forall u | u != userId
      ensures u in h.accounts <==> u in f.accounts
      ensures u in f.accounts && u in h.accounts ==> h.accounts[u] == f.accounts[u]
    {
      assert u in h.accounts - {userId} <==> u in f.accounts - {userId};
      assert u in f.accounts ==> (f.accounts - {userId})[u] == f.accounts[u];
      assert u in h.accounts ==> (h.accounts - {userId})[u] == h.accounts[u];
    }
    forall u | u != userId
      ensures u in h.enrolling <==> u in f.enrolling
      ensures u in f.enrolling && u in h.enrolling ==> h.enrolling[u] == f.enrolling[u]
    {
      assert u in h.enrolling - {userId} <==> u in f.enrolling - {userId};
      assert u in f.enrolling ==> (f.enrolling - {userId})[u] == f.enrolling[u];
      assert u in h.enrolling ==> (h.enrolling - {userId})[u] == h.enrolling[u];
    }
  }

  lemma DisabledExactly(c: Codes, f: Factors, userId: int)
    requires userId in f.accounts
    ensures var g, a := Next(c, f, Disable(userId)), f.accounts[userId];
      userId in g.accounts && g.accounts[userId] == Account(a.name, a.pw, None, None) &&
      NothingPending(g, userId) && OthersKept(f, g, userId)
  {
    hide WithoutUser, NothingPending, OthersKept, OtherLogins;
    var h := f.(accounts := f.accounts[userId := f.accounts[userId].(secret := None, lastStep := None)]);
    StrippedExactly(h, userId);
    KeptThrough(f, h, Next(c, f, Disable(userId)), userId);
  }

  /** Is it the unused row of one of these codes, with an id from next on? */
  predicate IsFresh(c: Codes, userId: int, codes: seq<Text>, next: int, r: Recovery) {
    0 <= r.id - next < |codes| && r == Recovery(r.id, userId, c.hash(Norm(c, codes[r.id - next])), false)
  }

  /** The user's recovery rows are unused ones of these codes, with new ids, and no others. */
  ghost predicate FreshRows(c: Codes, f: Factors, g: Factors, userId: int, codes: seq<Text>) {
    g.nextRecovery == f.nextRecovery + |codes| &&
    forall r :: r in g.recovery && r.userId == userId <==> IsFresh(c, userId, codes, f.nextRecovery, r)
  }

  lemma RowsRenewed(c: Codes, rows: seq<Recovery>, userId: int, codes: seq<Text>, next: int, r: Recovery)
    ensures r in WithoutUser(rows, userId) + FreshCodes(c, userId, codes, next) <==>
      (r.userId != userId && r in rows) || IsFresh(c, userId, codes, next, r)
  {
    var added := FreshCodes(c, userId, codes, next);
    hide Norm;
    WithoutUserMember(rows, userId, r);
    if IsFresh(c, userId, codes, next, r) {
      assert added[r.id - next] == r;
    }
  }

  lemma RowsReplaced(c: Codes, f: Factors, userId: int, codes: seq<Text>)
    ensures var g := Renewed(c, f, userId, codes);
      FreshRows(c, f, g, userId, codes) && OthersKept(f, g, userId)
  {
    hide WithoutUser, FreshCodes, IsFresh;
    forall r
      ensures r in Renewed(c, f, userId, codes).recovery <==>
        (r.userId != userId && r in f.recovery) || IsFresh(c, userId, codes, f.nextRecovery, r)
      ensures IsFresh(c, userId, codes, f.nextRecovery, r) ==> r.userId == userId
    {
      RowsRenewed(c, f.recovery, userId, codes, f.nextRecovery, r);
      FreshIsOwn(c, userId, codes, f.nextRecovery, r);
    }
  }

  lemma FreshIsOwn(c: Codes, userId: int, codes: seq<Text>, next: int, r: Recovery)
    ensures IsFresh(c, userId, codes, next, r) ==> r.userId == userId
  {
    hide Norm;
  }

  lemma RenewedExactly(c: Codes, f: Factors, userId: int, codes: seq<Text>)
    requires userId in f.accounts && f.accounts[userId].secret.Some?
    ensures var g := Next(c, f, Renew(userId, codes));
      FreshRows(c, f, g, userId, codes) && OthersKept(f, g, userId) &&
      g.accounts == f.accounts && g.enrolling == f.enrolling && g.logins == f.logins
  {
    RowsReplaced(c, f, userId, codes);
    hide WithoutUser, FreshCodes, FreshRows, OthersKept;
  }

  /** A set-up that succeeds turns the second factor on and burns the step that proved it. */
  lemma ConfirmedExactly(c: Codes, f: Factors, userId: int, code: Text, now: nat, codes: seq<Text>)
    requires EffectOf(c, f, Confirm(userId, code, now, codes)).used.Totp?
    ensures var g := Next(c, f, Confirm(userId, code, now, codes));
      var step := EffectOf(c, f, Confirm(userId, code, now, codes)).used.step;
      userId in f.accounts && userId in f.enrolling && userId in g.accounts && userId !in g.enrolling &&
      g.accounts[userId] ==
        Account(f.accounts[userId].name, f.accounts[userId].pw, Some(f.enrolling[userId].secret), Some(step)) &&
      FreshRows(c, f, g, userId, codes) && OthersKept(f, g, userId) && g.logins == f.logins
  {
    var step := EffectOf(c, f, Confirm(userId, code, now, codes)).used.step;
    assert userId in f.accounts && userId in f.enrolling by {
      hide MatchStep;
    }
    var a := f.accounts[userId].(secret := Some(f.enrolling[userId].secret), lastStep := Some(step));
    var h := f.(accounts := f.accounts[userId := a], enrolling := f.enrolling - {userId});
    RowsReplaced(c, h, userId, codes);
    hide WithoutUser, FreshCodes, MatchStep, OthersKept, IsFresh, EffectOf;
    KeptThrough(f, h, Next(c, f, Confirm(userId, code, now, codes)), userId);
  }

  /** Housekeeping takes out what has expired. */
  lemma PurgedExactly(c: Codes, f: Factors, now: nat)
    ensures var g := Next(c, f, Purge(now));
      (forall th :: th in g.logins <==> th in f.logins && now <= f.logins[th].expires) &&
      (forall th :: th in g.logins ==> g.logins[th] == f.logins[th]) &&
      (forall u :: u in g.enrolling <==> u in f.enrolling && now <= f.enrolling[u].created + 600) &&
      (forall u :: u in g.enrolling ==> g.enrolling[u] == f.enrolling[u]) &&
      g.accounts == f.accounts && g.recovery == f.recovery && g.nextRecovery == f.nextRecovery
  {
  }
}
