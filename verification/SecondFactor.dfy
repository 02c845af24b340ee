/**
 * The second factor as a machine: TOTP steps that are burned (section 5.2 of RFC
 * 6238), single-use recovery codes, and pending sign-ins with a bounded number of
 * checks.  What is promised is proved about every run of calls.
 */
module SecondFactor {
  import opened Wrappers

  /** Text as a client can send it: any code points, lone surrogates among them. */
  type CodePoint = n: nat | n < 0x11_0000
  type Text = seq<CodePoint>

  predicate Surrogate(p: CodePoint) {
    0xD800 <= p < 0xE000
  }

  /** Can the text be encoded as UTF-8?  Hashing anything else raises. */
  predicate Encodable(x: Text) {
    forall i :: 0 <= i < |x| ==> !Surrogate(x[i])
  }

  predicate Ascii(x: Text) {
    forall i :: 0 <= i < |x| ==> x[i] < 128
  }

  /**
   * hash: the stored form of a token; blank and digit: what Unicode calls white space and digits;
   * lower: text in lower case; code: the TOTP code of a secret at a step.
   */
  datatype Codes = Codes(hash: Text -> string, blank: CodePoint -> bool, digit: CodePoint -> bool,
                         lower: Text -> Text, code: (string, nat) -> Text)

  /** Surrogates are neither blanks nor digits, and have no lower case. */
  ghost predicate Unicode(c: Codes) {
    (forall p: CodePoint :: Surrogate(p) ==> !c.blank(p) && !c.digit(p)) &&
    (forall x :: Encodable(c.lower(x)) <==> Encodable(x))
  }

  function StripLeft(c: Codes, x: Text): Text {
    if |x| > 0 && c.blank(x[0]) then StripLeft(c, x[1..]) else x
  }

  function Strip(c: Codes, x: Text): Text {
    var y := StripLeft(c, x);
    StripRight(c, y)
  }

  function StripRight(c: Codes, x: Text): Text {
    if |x| > 0 && c.blank(x[|x| - 1]) then StripRight(c, x[..|x| - 1]) else x
  }

  /** The text without a character. */
  function Without(x: Text, p: CodePoint): Text {
    if |x| == 0 then [] else Without(x[..|x| - 1], p) + if x[|x| - 1] == p then [] else [x[|x| - 1]]
  }

  const BLANK: CodePoint := 0x20
  const DASH: CodePoint := 0x2D

  /** A typed code without blanks. */
  function Clean(c: Codes, code: Text): Text {
    Without(Strip(c, code), BLANK)
  }

  /** A recovery code without case, dashes and blanks. */
  function Norm(c: Codes, code: Text): Text {
    Without(Without(c.lower(Strip(c, code)), DASH), BLANK)
  }

  datatype Account = Account(name: string, pw: string, secret: Option<string>, lastStep: Option<int>)
  datatype Recovery = Recovery(id: int, userId: int, hash: string, used: bool)
  datatype Pending = Pending(userId: int, expires: int, attempts: nat)
  datatype Enrolment = Enrolment(secret: string, created: int)

  /** The tables of the second factor. */
  datatype Factors = Factors(accounts: map<int, Account>, enrolling: map<int, Enrolment>,
                             recovery: seq<Recovery>, nextRecovery: int, logins: map<string, Pending>)

  const TOTP_DIGITS: nat := 6
  const TOTP_PERIOD: nat := 30
  const TOTP_PENDING_TTL: nat := 600
  const TOTP_LOGIN_TTL: nat := 300
  const TOTP_LOGIN_MAX_ATTEMPTS: nat := 5
  const MAX_CODE_LEN: nat := 64

  // ---- matching a code ----------------------------------------------------------------------

  function StepAt(now: nat): int {
    now / TOTP_PERIOD
  }

  predicate WellFormed(c: Codes, x: Text) {
    |x| == TOTP_DIGITS && forall i :: 0 <= i < |x| ==> c.digit(x[i])
  }

  predicate Unburned(last: Option<int>, s: int) {
    last.None? || s > last.value
  }

  /** Does comparing with the code of step s raise?  So do a negative counter and text outside ASCII. */
  predicate Trips(x: Text, last: Option<int>, s: int) {
    Unburned(last, s) && (s < 0 || !Ascii(x))
  }

  /** Is the code the one of step s, and s not burned yet? */
  predicate Candidate(c: Codes, secret: string, x: Text, last: Option<int>, s: int) {
    s >= 0 && Unburned(last, s) && c.code(secret, s) == x
  }

  datatype Match = Raises | NoMatch | At(step: int)

  /** The step a code is accepted for: the earliest unburned one within a step of the clock. */
  function MatchStep(c: Codes, secret: string, code: Text, now: nat, last: Option<int>): Match {
    var x, k := Clean(c, code), StepAt(now);
    if !WellFormed(c, x) then NoMatch
    else if Trips(x, last, k - 1) || Trips(x, last, k) || Trips(x, last, k + 1) then Raises
    else if Candidate(c, secret, x, last, k - 1) then At(k - 1)
    else if Candidate(c, secret, x, last, k) then At(k)
    else if Candidate(c, secret, x, last, k + 1) then At(k + 1)
    else NoMatch
  }

  /** Every candidate step is computed and compared; the first hit stays. */
  method TotpMatch(c: Codes, secret: string, code: Text, now: nat, last: Option<int>) returns (m: Match)
    ensures m == MatchStep(c, secret, code, now, last)
    ensures m.At? ==> StepAt(now) - 1 <= m.step <= StepAt(now) + 1 && Unburned(last, m.step)
    ensures m.At? ==> m.step >= 0 && c.code(secret, m.step) == Clean(c, code)
  {
    var x := Clean(c, code);
    m := NoMatch;
    if !WellFormed(c, x) {
      return;
    }
    var step := StepAt(now);
    hide WellFormed, Ascii, StepAt;
    for delta := -1 to 2
      invariant m != Raises
      invariant forall s :: step - 1 <= s < step + delta ==> !Trips(x, last, s)
      invariant m.At? ==> step - 1 <= m.step < step + delta && Candidate(c, secret, x, last, m.step)
      invariant forall s :: step - 1 <= s < step + delta && Candidate(c, secret, x, last, s) ==>
        m.At? && m.step <= s
    {
      var s := step + delta;
      if last.Some? && s <= last.value {
        continue;
      }
      if s < 0 || !Ascii(x) {
        assert Trips(x, last, s);
        return Raises;
      }
      if c.code(secret, s) == x && m == NoMatch {
        m := At(s);
      }
    }
  }

  /** From the second half-minute of the epoch on: a code raises exactly when its six digits are not all ASCII. */
  lemma RaisesExactly(c: Codes, secret: string, code: Text, now: nat, last: Option<int>)
    requires now >= TOTP_PERIOD
    ensures MatchStep(c, secret, code, now, last) == Raises <==>
      WellFormed(c, Clean(c, code)) && !Ascii(Clean(c, code)) && Unburned(last, StepAt(now) + 1)
  {
    hide WellFormed, Ascii;
  }

  // ---- recovery codes -----------------------------------------------------------------------

  /** Unused recovery rows of a user with a given hash; the last one is the one consumed. */
  function FindRecovery(rows: seq<Recovery>, userId: int, h: string): (k: int)
    ensures -1 <= k < |rows|
  {
    if |rows| == 0 then -1
    else
      var r := rows[|rows| - 1];
      if r.userId == userId && !r.used && r.hash == h then |rows| - 1 else FindRecovery(rows[..|rows| - 1], userId, h)
  }

  lemma {:induction false} FindRecoveryExactly(rows: seq<Recovery>, userId: int, h: string)
    ensures var k := FindRecovery(rows, userId, h);
      if k >= 0 then rows[k].userId == userId && !rows[k].used && rows[k].hash == h
      else forall r :: r in rows && r.userId == userId && r.hash == h ==> r.used
  {
    if |rows| > 0 {
      FindRecoveryExactly(rows[..|rows| - 1], userId, h);
      assert rows == rows[..|rows| - 1] + [rows[|rows| - 1]];
    }
  }

  function WithoutUser(rows: seq<Recovery>, userId: int): seq<Recovery> {
    if |rows| == 0 then []
    else
      var r := rows[|rows| - 1];
      WithoutUser(rows[..|rows| - 1], userId) + if r.userId == userId then [] else [r]
  }

  function FreshCodes(c: Codes, userId: int, codes: seq<Text>, next: int): seq<Recovery> {
    seq(|codes|, i requires 0 <= i < |codes| => Recovery(next + i, userId, c.hash(Norm(c, codes[i])), false))
  }

  /** Row ids rise and stay below the next id. */
  ghost predicate RowsOk(rows: seq<Recovery>, next: int) {
    (forall r :: r in rows ==> r.id < next) && forall i, j :: 0 <= i < j < |rows| ==> rows[i].id < rows[j].id
  }

  lemma {:induction false} WithoutUserMember(rows: seq<Recovery>, userId: int, r: Recovery)
    ensures r in WithoutUser(rows, userId) <==> r in rows && r.userId != userId
  {
    if |rows| > 0 {
      WithoutUserMember(rows[..|rows| - 1], userId, r);
      assert rows == rows[..|rows| - 1] + [rows[|rows| - 1]];
    }
  }

  lemma {:induction false} WithoutUserOk(rows: seq<Recovery>, userId: int, next: int)
    requires RowsOk(rows, next)
    ensures RowsOk(WithoutUser(rows, userId), next)
  {
    if |rows| > 0 {
      var rest, last := rows[..|rows| - 1], rows[|rows| - 1];
      var kept := WithoutUser(rest, userId);
      WithoutUserOk(rest, userId, next);
      forall i | 0 <= i < |kept|
        ensures kept[i].id < last.id
      {
        WithoutUserMember(rest, userId, kept[i]);
        assert kept[i] in kept;
        var j :| 0 <= j < |rest| && rest[j] == kept[i];
      }
    }
  }

  lemma FreshCodesOk(c: Codes, rows: seq<Recovery>, userId: int, codes: seq<Text>, next: int)
    requires RowsOk(rows, next)
    ensures RowsOk(rows + FreshCodes(c, userId, codes, next), next + |codes|)
  {
    forall i | 0 <= i < |rows|
      ensures rows[i].id < next
    {
      assert rows[i] in rows;
    }
  }

  /** The pending sign-ins of everybody else. */
  function OtherLogins(logins: map<string, Pending>, userId: int): (others: map<string, Pending>)
    ensures forall th :: th in others <==> th in logins && logins[th].userId != userId
    ensures forall th :: th in others ==> others[th] == logins[th]
  {
    map th | th in logins && logins[th].userId != userId :: logins[th]
  }

  /** The pending sign-ins and set-ups that have not expired. */
  function OpenLogins(logins: map<string, Pending>, now: nat): (open: map<string, Pending>)
    ensures forall th :: th in open <==> th in logins && logins[th].expires >= now
    ensures forall th :: th in open ==> open[th] == logins[th]
  {
    map th | th in logins && logins[th].expires >= now :: logins[th]
  }

  function OpenEnrolments(enrolling: map<int, Enrolment>, now: nat): map<int, Enrolment> {
    map u | u in enrolling && enrolling[u].created >= now - TOTP_PENDING_TTL :: enrolling[u]
  }

  // ---- calls ------------------------------------------------------------------------------------

  /** A call; tokens are given by their hashes, locked tells whether the lockout refuses a check. */
  datatype Op =
    | Create(id: int, name: string, pw: string)
    | Remove(id: int)
    | Begin(userId: int, secret: string, now: nat)
    | Confirm(userId: int, code: Text, now: nat, codes: seq<Text>)
    | Disable(userId: int)
    | Renew(userId: int, codes: seq<Text>)
    | Verify(userId: int, code: Text, now: nat)
    | SignIn(token: string, userId: int, now: nat)
    | Finish(token: string, code: Text, now: nat, locked: bool)
    | Purge(now: nat)

  /** What a code was good for: nothing, an exception, a step, or a recovery row. */
  datatype Used = Unused | Broke | Totp(step: int, at: nat) | Row(index: nat, id: int)

  /** What a call did: whose factor it used, and which pending sign-in it checked a code for. */
  datatype Effect = Effect(userId: int, used: Used, token: Option<string>)

  const NO_EFFECT: Effect := Effect(0, Unused, None)

  predicate Succeeds(u: Used) {
    u.Totp? || u.Row?
  }

  function WhichFactor(c: Codes, a: Account, rows: seq<Recovery>, userId: int, code: Text, now: nat): Used {
    if a.secret.None? || |code| == 0 || |code| > MAX_CODE_LEN then Unused
    else
      match MatchStep(c, a.secret.value, code, now, a.lastStep)
      case Raises => Broke
      case At(s) => Totp(s, now)
      case NoMatch =>
        if !Encodable(Norm(c, code)) then Broke
        else
          var k := FindRecovery(rows, userId, c.hash(Norm(c, code)));
          if k >= 0 then Row(k, rows[k].id) else Unused
  }

  /** Is a set-up in progress that has not timed out? */
  predicate Enrolling(f: Factors, userId: int, now: nat) {
    userId in f.enrolling && f.enrolling[userId].created >= now - TOTP_PENDING_TTL
  }

  /** Can this pending sign-in still take a code? */
  predicate Live(f: Factors, token: string, now: nat) {
    token in f.logins && f.logins[token].expires >= now && f.logins[token].attempts < TOTP_LOGIN_MAX_ATTEMPTS &&
    f.logins[token].userId in f.accounts && f.accounts[f.logins[token].userId].secret.Some?
  }

  function EffectOf(c: Codes, f: Factors, op: Op): Effect {
    match op
    case Confirm(userId, code, now, _) =>
      if !Enrolling(f, userId, now) then NO_EFFECT
      else
        (match MatchStep(c, f.enrolling[userId].secret, code, now, None)
         case Raises => Effect(userId, Broke, None)
         case At(s) => if userId in f.accounts then Effect(userId, Totp(s, now), None) else NO_EFFECT
         case NoMatch => NO_EFFECT)
    case Verify(userId, code, now) =>
      if userId !in f.accounts || f.accounts[userId].secret.None? then NO_EFFECT
      else Effect(userId, WhichFactor(c, f.accounts[userId], f.recovery, userId, code, now), None)
    case Finish(token, code, now, locked) =>
      if !Live(f, token, now) || locked then NO_EFFECT
      else
        var userId := f.logins[token].userId;
        Effect(userId, WhichFactor(c, f.accounts[userId], f.recovery, userId, code, now), Some(token))
    case _ => NO_EFFECT
  }

  /** Burns the step, or uses up the row. */
  function Consume(f: Factors, userId: int, u: Used): Factors {
    match u
    case Totp(step, _) =>
      if userId !in f.accounts then f
      else f.(accounts := f.accounts[userId := f.accounts[userId].(lastStep := Some(step))])
    case Row(k, _) =>
      if k >= |f.recovery| then f
      else f.(recovery := f.recovery[k := f.recovery[k].(used := true)])
    case _ => f
  }

  /** Fresh codes replace a user's old ones, used or not. */
  function Renewed(c: Codes, f: Factors, userId: int, codes: seq<Text>): Factors {
    f.(recovery := WithoutUser(f.recovery, userId) + FreshCodes(c, userId, codes, f.nextRecovery),
       nextRecovery := f.nextRecovery + |codes|)
  }

  /** Set-up, codes and pending sign-ins of a user go. */
  function Stripped(f: Factors, userId: int): Factors {
    f.(enrolling := f.enrolling - {userId}, recovery := WithoutUser(f.recovery, userId),
       logins := OtherLogins(f.logins, userId))
  }

  function Enrolled(c: Codes, f: Factors, userId: int, step: int, codes: seq<Text>): Factors
    requires userId in f.accounts && userId in f.enrolling
  {
    var a := f.accounts[userId].(secret := Some(f.enrolling[userId].secret), lastStep := Some(step));
    Renewed(c, f.(accounts := f.accounts[userId := a], enrolling := f.enrolling - {userId}), userId, codes)
  }

  /** A check counts before its code is looked at; a success, or the fifth failure, ends the sign-in. */
  function Checked(f: Factors, token: string, u: Used): map<string, Pending>
    requires token in f.logins
  {
    var n := f.logins[token].attempts + 1;
    if Succeeds(u) || (!u.Broke? && n >= TOTP_LOGIN_MAX_ATTEMPTS) then f.logins - {token}
    else f.logins[token := f.logins[token].(attempts := n)]
  }

  function Next(c: Codes, f: Factors, op: Op): Factors {
    var e := EffectOf(c, f, op);
    match op
    case Create(id, name, pw) =>
      if id in f.accounts then f else f.(accounts := f.accounts[id := Account(name, pw, None, None)])
    case Remove(id) =>
      if id !in f.accounts then f else Stripped(f.(accounts := f.accounts - {id}), id)
    case Begin(userId, secret, now) =>
      if userId !in f.accounts then f else f.(enrolling := f.enrolling[userId := Enrolment(secret, now)])
    case Confirm(userId, _, _, codes) =>
      if e.used.Totp? then Enrolled(c, f, userId, e.used.step, codes) else f
    case Disable(userId) =>
      if userId !in f.accounts then f
      else
        var a := f.accounts[userId].(secret := None, lastStep := None);
        Stripped(f.(accounts := f.accounts[userId := a]), userId)
    case Renew(userId, codes) =>
      if userId !in f.accounts || f.accounts[userId].secret.None? then f else Renewed(c, f, userId, codes)
    case Verify(userId, _, _) => Consume(f, userId, e.used)
    case SignIn(token, userId, now) =>
      f.(logins := f.logins[token := Pending(userId, now + TOTP_LOGIN_TTL, 0)])
    case Finish(token, _, now, locked) =>
      if !Live(f, token, now) then f.(logins := f.logins - {token})
      else if locked then f
      else Consume(f, e.userId, e.used).(logins := Checked(f, token, e.used))
    case Purge(now) =>
      f.(logins := OpenLogins(f.logins, now), enrolling := OpenEnrolments(f.enrolling, now))
  }

  // ---- runs -------------------------------------------------------------------------------------

  function FactorsAfter(c: Codes, ops: seq<Op>): Factors {
    if |ops| == 0 then Factors(map[], map[], [], 1, map[])
    else Next(c, FactorsAfter(c, ops[..|ops| - 1]), ops[|ops| - 1])
  }

  /** What the i-th call of a run did. */
  function EffectAt(c: Codes, ops: seq<Op>, i: nat): Effect
    requires i < |ops|
  {
    EffectOf(c, FactorsAfter(c, ops[..i]), ops[i])
  }

  lemma AfterNext(c: Codes, ops: seq<Op>, n: nat)
    requires n < |ops|
    ensures FactorsAfter(c, ops[..n + 1]) == Next(c, FactorsAfter(c, ops[..n]), ops[n])
  {
    hide Next;
    assert ops[..n + 1][..n] == ops[..n];
  }

  // ---- steps rise -------------------------------------------------------------------------------

  lemma WhichFactorStep(c: Codes, a: Account, rows: seq<Recovery>, userId: int, code: Text, now: nat)
    ensures var u := WhichFactor(c, a, rows, userId, code, now);
      (u.Totp? ==> u.at == now && StepAt(now) - 1 <= u.step <= StepAt(now) + 1 && Unburned(a.lastStep, u.step)) &&
      (u.Row? ==> u.index < |rows| && rows[u.index].id == u.id && !rows[u.index].used)
  {
    hide WellFormed, Ascii, StepAt;
    FindRecoveryExactly(rows, userId, c.hash(Norm(c, code)));
  }

  /** An accepted step lies within one step of the clock. */
  lemma StepNearClock(c: Codes, ops: seq<Op>, i: nat)
    requires i < |ops| && EffectAt(c, ops, i).used.Totp?
    ensures var u := EffectAt(c, ops, i).used; StepAt(u.at) - 1 <= u.step <= StepAt(u.at) + 1
  {
    hide WhichFactor, FactorsAfter, StepAt, WellFormed, Ascii;
    var f := FactorsAfter(c, ops[..i]);
    match ops[i]
    case Verify(userId, code, now) => WhichFactorStep(c, f.accounts[userId], f.recovery, userId, code, now);
    case Finish(token, code, now, _) =>
      var userId := f.logins[token].userId;
      WhichFactorStep(c, f.accounts[userId], f.recovery, userId, code, now);
    case _ =>
  }

  /** Does the i-th call start or end an enrolment of the user? */
  ghost predicate Restarts(c: Codes, ops: seq<Op>, i: nat, userId: int)
    requires i < |ops|
  {
    RestartsBy(ops[i], EffectAt(c, ops, i), userId)
  }

  /** Does no call after the i-th, up to the j-th, start or end an enrolment of the user? */
  ghost predicate OneEnrolment(c: Codes, ops: seq<Op>, i: nat, j: nat, userId: int)
    requires j < |ops|
  {
    forall k :: i < k <= j ==> !Restarts(c, ops, k, userId)
  }

  /** The user's last burned step is at least s. */
  ghost predicate BurnedTo(f: Factors, userId: int, s: int) {
    userId in f.accounts && f.accounts[userId].secret.Some? &&
    f.accounts[userId].lastStep.Some? && f.accounts[userId].lastStep.value >= s
  }

  lemma UseBurns(c: Codes, f: Factors, op: Op)
    requires EffectOf(c, f, op).used.Totp?
    ensures var e := EffectOf(c, f, op); BurnedTo(Next(c, f, op), e.userId, e.used.step)
  {
    hide WhichFactor, MatchStep;
  }

  /** A step accepted after an earlier one, in one enrolment, is later. */
  lemma UseRises(c: Codes, f: Factors, op: Op, userId: int, s: int)
    requires BurnedTo(f, userId, s) && !op.Confirm?
    requires EffectOf(c, f, op).used.Totp? && EffectOf(c, f, op).userId == userId
    ensures EffectOf(c, f, op).used.step > s
  {
    hide WhichFactor, MatchStep;
    match op
    case Verify(_, code, now) => WhichFactorStep(c, f.accounts[userId], f.recovery, userId, code, now);
    case Finish(_, code, now, _) => WhichFactorStep(c, f.accounts[userId], f.recovery, userId, code, now);
  }

  lemma KeepsBurned(c: Codes, ops: seq<Op>, i: nat, userId: int, s: int)
    requires i < |ops| && BurnedTo(FactorsAfter(c, ops[..i]), userId, s) && !Restarts(c, ops, i, userId)
    ensures BurnedTo(FactorsAfter(c, ops[..i + 1]), userId, s)
  {
    hide FactorsAfter, Next, EffectOf, BurnedTo;
    AfterNext(c, ops, i);
    NextKeepsBurned(c, FactorsAfter(c, ops[..i]), ops[i], userId, s);
  }

  /** Does the call, with that effect, start or end an enrolment of the user? */
  ghost predicate RestartsBy(op: Op, e: Effect, userId: int) {
    match op
    case Confirm(u, _, _, _) => u == userId && e.used.Totp?
    case Disable(u) => u == userId
    case Remove(u) => u == userId
    case _ => false
  }

  lemma NextKeepsBurned(c: Codes, f: Factors, op: Op, userId: int, s: int)
    requires BurnedTo(f, userId, s) && !RestartsBy(op, EffectOf(c, f, op), userId)
    ensures BurnedTo(Next(c, f, op), userId, s)
  {
    hide WhichFactor, MatchStep, WithoutUser, FreshCodes, OtherLogins, Checked;
    var e := EffectOf(c, f, op);
    if e.used.Totp? && e.userId == userId && !op.Confirm? {
      UseRises(c, f, op, userId, s);
    }
  }

  lemma {:induction false} BurnLasts(c: Codes, ops: seq<Op>, i: nat, n: nat)
    requires i < n <= |ops| && EffectAt(c, ops, i).used.Totp?
    requires forall k :: i < k < n ==> !Restarts(c, ops, k, EffectAt(c, ops, i).userId)
    ensures var e := EffectAt(c, ops, i); BurnedTo(FactorsAfter(c, ops[..n]), e.userId, e.used.step)
  {
    hide BurnedTo, FactorsAfter, EffectOf, Next;
    if n == i + 1 {
      AfterNext(c, ops, i);
      UseBurns(c, FactorsAfter(c, ops[..i]), ops[i]);
    } else {
      BurnLasts(c, ops, i, n - 1);
      KeepsBurned(c, ops, n - 1, EffectAt(c, ops, i).userId, EffectAt(c, ops, i).used.step);
    }
  }

  /** Over every run of calls the steps accepted for one enrolment rise strictly. */
  lemma StepsRise(c: Codes, ops: seq<Op>, i: nat, j: nat)
    requires i < j < |ops| && EffectAt(c, ops, i).used.Totp? && EffectAt(c, ops, j).used.Totp?
    requires EffectAt(c, ops, i).userId == EffectAt(c, ops, j).userId
    requires OneEnrolment(c, ops, i, j, EffectAt(c, ops, i).userId)
    ensures EffectAt(c, ops, i).used.step < EffectAt(c, ops, j).used.step
  {
    var e := EffectAt(c, ops, i);
    BurnLasts(c, ops, i, j);
    assert !Restarts(c, ops, j, e.userId);
    assert ops[j].Confirm? ==> ops[j].userId == EffectAt(c, ops, j).userId by {
      hide FactorsAfter, WhichFactor, MatchStep;
    }
    hide BurnedTo, FactorsAfter, EffectOf;
    UseRises(c, FactorsAfter(c, ops[..j]), ops[j], e.userId, e.used.step);
  }

  // ---- recovery rows are spent once -----------------------------------------------------------------

  /** The row with this id is used, or gone for good. */
  ghost predicate Gone(rows: seq<Recovery>, next: int, id: int) {
    id < next && forall r :: r in rows && r.id == id ==> r.used
  }

  lemma NextRows(c: Codes, f: Factors, op: Op)
    requires RowsOk(f.recovery, f.nextRecovery)
    ensures RowsOk(Next(c, f, op).recovery, Next(c, f, op).nextRecovery)
  {
    hide WhichFactor, MatchStep, WithoutUser, FreshCodes, OtherLogins, Checked, RowsOk;
    match op
    case Confirm(userId, _, _, codes) => RenewedOk(c, f, userId, codes);
    case Renew(userId, codes) => RenewedOk(c, f, userId, codes);
    case Remove(userId) => WithoutUserOk(f.recovery, userId, f.nextRecovery);
    case Disable(userId) => WithoutUserOk(f.recovery, userId, f.nextRecovery);
    case Verify(userId, _, _) => ConsumeOk(f, userId, EffectOf(c, f, op).used);
    case Finish(_, _, _, _) => ConsumeOk(f, EffectOf(c, f, op).userId, EffectOf(c, f, op).used);
    case _ =>
  }

  lemma RenewedOk(c: Codes, f: Factors, userId: int, codes: seq<Text>)
    requires RowsOk(f.recovery, f.nextRecovery)
    ensures var rows := WithoutUser(f.recovery, userId) + FreshCodes(c, userId, codes, f.nextRecovery);
      RowsOk(rows, f.nextRecovery + |codes|)
  {
    hide RowsOk, WithoutUser, FreshCodes;
    WithoutUserOk(f.recovery, userId, f.nextRecovery);
    FreshCodesOk(c, WithoutUser(f.recovery, userId), userId, codes, f.nextRecovery);
  }

  lemma ConsumeOk(f: Factors, userId: int, u: Used)
    requires RowsOk(f.recovery, f.nextRecovery)
    ensures var g := Consume(f, userId, u); RowsOk(g.recovery, g.nextRecovery)
  {
    if u.Row? && u.index < |f.recovery| {
      var k := u.index;
      var rows := f.recovery[k := f.recovery[k].(used := true)];
      forall r | r in rows
        ensures r.id < f.nextRecovery
      {
        var i :| 0 <= i < |rows| && rows[i] == r;
        assert r.id == f.recovery[i].id && f.recovery[i] in f.recovery;
      }
    }
  }

  lemma {:induction false} RunRows(c: Codes, ops: seq<Op>)
    ensures RowsOk(FactorsAfter(c, ops).recovery, FactorsAfter(c, ops).nextRecovery)
  {
    if |ops| > 0 {
      hide RowsOk, Next;
      RunRows(c, ops[..|ops| - 1]);
      NextRows(c, FactorsAfter(c, ops[..|ops| - 1]), ops[|ops| - 1]);
    }
  }

  lemma UseSpends(c: Codes, f: Factors, op: Op)
    requires RowsOk(f.recovery, f.nextRecovery) && EffectOf(c, f, op).used.Row?
    ensures var g := Next(c, f, op); Gone(g.recovery, g.nextRecovery, EffectOf(c, f, op).used.id)
  {
    hide WhichFactor, MatchStep, Checked, OtherLogins, RowsOk, Gone;
    var e := EffectOf(c, f, op);
    match op
    case Verify(userId, code, now) =>
      WhichFactorStep(c, f.accounts[userId], f.recovery, userId, code, now);
      SpentGone(f.recovery, f.nextRecovery, e.used.index);
    case Finish(token, code, now, _) =>
      WhichFactorStep(c, f.accounts[e.userId], f.recovery, e.userId, code, now);
      SpentGone(f.recovery, f.nextRecovery, e.used.index);
  }

  lemma SpentGone(rows: seq<Recovery>, next: int, k: nat)
    requires RowsOk(rows, next) && k < |rows|
    ensures Gone(rows[k := rows[k].(used := true)], next, rows[k].id)
  {
    assert rows[k] in rows;
  }

  lemma NextKeepsGone(c: Codes, f: Factors, op: Op, id: int)
    requires Gone(f.recovery, f.nextRecovery, id)
    ensures var g := Next(c, f, op); Gone(g.recovery, g.nextRecovery, id)
  {
    hide WhichFactor, MatchStep, WithoutUser, FreshCodes, OtherLogins, Checked, Gone;
    match op
    case Confirm(userId, _, _, codes) => RenewedGone(c, f.recovery, userId, codes, f.nextRecovery, id);
    case Renew(userId, codes) => RenewedGone(c, f.recovery, userId, codes, f.nextRecovery, id);
    case Remove(userId) => FewerGone(f.recovery, userId, f.nextRecovery, id);
    case Disable(userId) => FewerGone(f.recovery, userId, f.nextRecovery, id);
    case Verify(userId, _, _) => ConsumeGone(f, userId, EffectOf(c, f, op).used, id);
    case Finish(_, _, _, _) => ConsumeGone(f, EffectOf(c, f, op).userId, EffectOf(c, f, op).used, id);
    case _ =>
  }

  lemma FewerGone(rows: seq<Recovery>, userId: int, next: int, id: int)
    requires Gone(rows, next, id)
    ensures Gone(WithoutUser(rows, userId), next, id)
  {
    forall r | r in WithoutUser(rows, userId) && r.id == id
      ensures r.used
    {
      WithoutUserMember(rows, userId, r);
    }
  }

  lemma RenewedGone(c: Codes, rows: seq<Recovery>, userId: int, codes: seq<Text>, next: int, id: int)
    requires Gone(rows, next, id)
    ensures Gone(WithoutUser(rows, userId) + FreshCodes(c, userId, codes, next), next + |codes|, id)
  {
    hide WithoutUser;
    FewerGone(rows, userId, next, id);
  }

  lemma ConsumeGone(f: Factors, userId: int, u: Used, id: int)
    requires Gone(f.recovery, f.nextRecovery, id)
    ensures var g := Consume(f, userId, u); Gone(g.recovery, g.nextRecovery, id)
  {
    if u.Row? && u.index < |f.recovery| {
      var k := u.index;
      var rows := f.recovery[k := f.recovery[k].(used := true)];
      forall r | r in rows && r.id == id
        ensures r.used
      {
        var i :| 0 <= i < |rows| && rows[i] == r;
        assert f.recovery[i] in f.recovery;
      }
    }
  }

  lemma {:induction false} GoneLasts(c: Codes, ops: seq<Op>, i: nat, n: nat)
    requires i < n <= |ops| && EffectAt(c, ops, i).used.Row?
    ensures var f := FactorsAfter(c, ops[..n]); Gone(f.recovery, f.nextRecovery, EffectAt(c, ops, i).used.id)
  {
    hide Gone, FactorsAfter, EffectOf, Next, RowsOk;
    AfterNext(c, ops, n - 1);
    if n == i + 1 {
      RunRows(c, ops[..i]);
      UseSpends(c, FactorsAfter(c, ops[..i]), ops[i]);
    } else {
      GoneLasts(c, ops, i, n - 1);
      NextKeepsGone(c, FactorsAfter(c, ops[..n - 1]), ops[n - 1], EffectAt(c, ops, i).used.id);
    }
  }

  lemma UseUnused(c: Codes, f: Factors, op: Op)
    requires EffectOf(c, f, op).used.Row?
    ensures !Gone(f.recovery, f.nextRecovery, EffectOf(c, f, op).used.id)
  {
    hide WhichFactor, MatchStep;
    var e := EffectOf(c, f, op);
    match op
    case Verify(userId, code, now) => WhichFactorStep(c, f.accounts[userId], f.recovery, userId, code, now);
    case Finish(_, code, now, _) => WhichFactorStep(c, f.accounts[e.userId], f.recovery, e.userId, code, now);
    assert f.recovery[e.used.index] in f.recovery;
  }

  /** Over every run of calls no recovery code is accepted twice. */
  lemma RowsOnce(c: Codes, ops: seq<Op>, i: nat, j: nat)
    requires i < j < |ops| && EffectAt(c, ops, i).used.Row? && EffectAt(c, ops, j).used.Row?
    ensures EffectAt(c, ops, i).used.id != EffectAt(c, ops, j).used.id
  {
    GoneLasts(c, ops, i, j);
    hide Gone, FactorsAfter, EffectOf;
    UseUnused(c, FactorsAfter(c, ops[..j]), ops[j]);
  }

  // ---- a pending sign-in ------------------------------------------------------------------------------

  /** Tokens are random: no two sign-ins get the same. */
  ghost predicate Distinct(ops: seq<Op>) {
    forall i, j :: 0 <= i < j < |ops| && ops[i].SignIn? && ops[j].SignIn? ==> ops[i].token != ops[j].token
  }

  ghost predicate Issued(ops: seq<Op>, token: string) {
    exists i :: 0 <= i < |ops| && ops[i].SignIn? && ops[i].token == token
  }

  /** How many codes a run has checked for a token. */
  function Checks(c: Codes, ops: seq<Op>, token: string): nat {
    if |ops| == 0 then 0
    else
      var e := EffectAt(c, ops, |ops| - 1);
      Checks(c, ops[..|ops| - 1], token) + if e.token == Some(token) then 1 else 0
  }

  /** How many of them were right. */
  function Wins(c: Codes, ops: seq<Op>, token: string): nat {
    if |ops| == 0 then 0
    else
      var e := EffectAt(c, ops, |ops| - 1);
      Wins(c, ops[..|ops| - 1], token) + if e.token == Some(token) && Succeeds(e.used) then 1 else 0
  }

  /** What the table knows about a token that had so many checks and right codes. */
  ghost predicate Counted(f: Factors, token: string, issued: bool, checks: nat, wins: nat) {
    checks <= TOTP_LOGIN_MAX_ATTEMPTS && wins <= 1 &&
    (!issued ==> token !in f.logins && checks == 0 && wins == 0) &&
    (token in f.logins ==> f.logins[token].attempts == checks && wins == 0)
  }

  lemma NextCounted(c: Codes, f: Factors, op: Op, token: string, issued: bool, checks: nat, wins: nat)
    requires Counted(f, token, issued, checks, wins)
    requires op.SignIn? && op.token == token ==> !issued
    ensures var e := EffectOf(c, f, op);
      Counted(Next(c, f, op), token, issued || (op.SignIn? && op.token == token),
              checks + (if e.token == Some(token) then 1 else 0),
              wins + if e.token == Some(token) && Succeeds(e.used) then 1 else 0)
  {
    hide WhichFactor, MatchStep, WithoutUser, FreshCodes;
  }

  lemma {:induction false} RunCounted(c: Codes, ops: seq<Op>, token: string)
    requires Distinct(ops)
    ensures Counted(FactorsAfter(c, ops), token, Issued(ops, token), Checks(c, ops, token), Wins(c, ops, token))
  {
    if |ops| > 0 {
      hide Counted, Next, EffectOf;
      var n := |ops| - 1;
      RunCounted(c, ops[..n], token);
      NextCounted(c, FactorsAfter(c, ops[..n]), ops[n], token, Issued(ops[..n], token), Checks(c, ops[..n], token),
                  Wins(c, ops[..n], token));
      IssuedLast(ops, token);
    }
  }

  lemma IssuedLast(ops: seq<Op>, token: string)
    requires |ops| > 0
    ensures var n := |ops| - 1;
      Issued(ops, token) <==> Issued(ops[..n], token) || (ops[n].SignIn? && ops[n].token == token)
  {
    var n := |ops| - 1;
    if i :| 0 <= i < n && ops[..n][i].SignIn? && ops[..n][i].token == token {
      assert ops[i].SignIn?;
    }
    if i :| 0 <= i < |ops| && ops[i].SignIn? && ops[i].token == token {
      assert i < n ==> ops[..n][i] == ops[i];
    }
  }

  /** Over every run of calls a sign-in token has at most five codes checked and at most one success. */
  lemma TokenBounds(c: Codes, ops: seq<Op>, token: string)
    requires Distinct(ops)
    ensures Checks(c, ops, token) <= 5 && Wins(c, ops, token) <= 1
  {
    RunCounted(c, ops, token);
  }

  /** After a success nothing is checked for that token any more. */
  lemma NoCheckAfterWin(c: Codes, ops: seq<Op>, i: nat, token: string)
    requires Distinct(ops) && i < |ops| && Wins(c, ops[..i], token) > 0
    ensures EffectAt(c, ops, i).token != Some(token)
  {
    RunCounted(c, ops[..i], token);
    hide WhichFactor, MatchStep, FactorsAfter;
  }

  // ---- text outside ASCII -------------------------------------------------------------------------------

  lemma {:induction false} WithoutEncodable(x: Text, p: CodePoint)
    requires !Surrogate(p)
    ensures Encodable(Without(x, p)) <==> Encodable(x)
  {
    if |x| > 0 {
      var rest, last := x[..|x| - 1], x[|x| - 1];
      WithoutEncodable(rest, p);
      PushEncodable(rest, last);
      PushEncodable(Without(rest, p), last);
      assert x == rest + [last];
      assert Without(rest, p) + [] == Without(rest, p);
    }
  }

  lemma PushEncodable(x: Text, p: CodePoint)
    ensures Encodable(x + [p]) <==> Encodable(x) && !Surrogate(p)
    ensures Encodable([p] + x) <==> Encodable(x) && !Surrogate(p)
  {
    if Encodable(x + [p]) {
      assert (x + [p])[|x|] == p;
      assert forall i :: 0 <= i < |x| ==> (x + [p])[i] == x[i];
    }
    if Encodable([p] + x) {
      assert ([p] + x)[0] == p;
      assert forall i :: 0 <= i < |x| ==> ([p] + x)[i + 1] == x[i];
    }
  }

  lemma {:induction false} StripLeftEncodable(c: Codes, x: Text)
    requires Unicode(c)
    ensures Encodable(StripLeft(c, x)) <==> Encodable(x)
  {
    if |x| > 0 && c.blank(x[0]) {
      hide Encodable;
      StripLeftEncodable(c, x[1..]);
      PushEncodable(x[1..], x[0]);
      assert x == [x[0]] + x[1..];
    }
  }

  lemma {:induction false} StripRightEncodable(c: Codes, x: Text)
    requires Unicode(c)
    ensures Encodable(StripRight(c, x)) <==> Encodable(x)
  {
    if |x| > 0 && c.blank(x[|x| - 1]) {
      hide Encodable;
      StripRightEncodable(c, x[..|x| - 1]);
      PushEncodable(x[..|x| - 1], x[|x| - 1]);
      assert x == x[..|x| - 1] + [x[|x| - 1]];
    }
  }

  /** Neither form of a code gains or loses a surrogate, and six digits have none. */
  lemma FormsEncodable(c: Codes, code: Text)
    requires Unicode(c)
    ensures Encodable(Clean(c, code)) <==> Encodable(code)
    ensures Encodable(Norm(c, code)) <==> Encodable(code)
    ensures WellFormed(c, Clean(c, code)) ==> Encodable(code)
  {
    assert WellFormed(c, Clean(c, code)) ==> Encodable(Clean(c, code));
    hide Encodable, WellFormed;
    StripLeftEncodable(c, code);
    StripRightEncodable(c, StripLeft(c, code));
    var x := Strip(c, code);
    WithoutEncodable(x, BLANK);
    WithoutEncodable(c.lower(x), DASH);
    WithoutEncodable(Without(c.lower(x), DASH), BLANK);
  }

  /**
   * The check of a live sign-in breaks off, spent and unrecorded, exactly for two kinds of codes of
   * 1 to 64 characters: six digits that are not all ASCII, while a candidate step is left to compare
   * them with; and text with a lone surrogate, which cannot be hashed.
   */
  lemma BreaksExactly(c: Codes, f: Factors, token: string, code: Text, now: nat)
    requires Unicode(c) && Live(f, token, now) && now >= TOTP_PERIOD
    ensures var x, a := Clean(c, code), f.accounts[f.logins[token].userId];
      EffectOf(c, f, Finish(token, code, now, false)).used == Broke <==>
      0 < |code| <= MAX_CODE_LEN &&
      ((WellFormed(c, x) && !Ascii(x) && Unburned(a.lastStep, StepAt(now) + 1)) || !Encodable(code))
  {
    var a := f.accounts[f.logins[token].userId];
    FormsEncodable(c, code);
    RaisesExactly(c, a.secret.value, code, now, a.lastStep);
    IllFormedNoMatch(c, a.secret.value, code, now, a.lastStep);
    hide MatchStep, FindRecovery, WellFormed, Ascii, StepAt, Unburned, Encodable, Clean, Norm;
  }

  lemma IllFormedNoMatch(c: Codes, secret: string, code: Text, now: nat, last: Option<int>)
    ensures !WellFormed(c, Clean(c, code)) ==> MatchStep(c, secret, code, now, last) == NoMatch
  {
    hide WellFormed, Trips, Candidate, Clean;
  }

  /** What an exception leaves behind: the sign-in with one attempt more, and nothing else. */
  ghost predicate SpentOnly(c: Codes, f: Factors, token: string, code: Text, now: nat)
    requires token in f.logins
  {
    var op := Finish(token, code, now, false);
    var row := f.logins[token];
    EffectOf(c, f, op) == Effect(row.userId, Broke, Some(token)) &&
    Next(c, f, op) == f.(logins := f.logins[token := row.(attempts := row.attempts + 1)])
  }

  /** Six full-width digits. */
  const WIDE: Text := [0xFF11, 0xFF12, 0xFF13, 0xFF14, 0xFF15, 0xFF16]

  /** They pass the shape check, and the comparison raises. */
  lemma WideDigitsBreak(c: Codes, f: Factors, token: string, now: nat)
    requires Clean(c, WIDE) == WIDE && forall i :: 0 <= i < 6 ==> c.digit(WIDE[i])
    requires Live(f, token, now) && Unburned(f.accounts[f.logins[token].userId].lastStep, StepAt(now) + 1)
    ensures SpentOnly(c, f, token, WIDE, now)
  {
    assert WIDE[0] >= 128;
    hide FindRecovery, Clean, Norm;
    var a := f.accounts[f.logins[token].userId];
    assert Trips(WIDE, a.lastStep, StepAt(now) + 1);
    assert MatchStep(c, a.secret.value, WIDE, now, a.lastStep) == Raises;
  }

  /** A single lone surrogate is a wrong code to the TOTP check, and hashing it as a recovery code raises. */
  lemma SurrogateBreaks(c: Codes, f: Factors, token: string, now: nat)
    requires Unicode(c) && Live(f, token, now)
    ensures SpentOnly(c, f, token, [0xD800], now)
  {
    var code: Text := [0xD800];
    var a := f.accounts[f.logins[token].userId];
    assert Surrogate(code[0]);
    FormsEncodable(c, code);
    IllFormedNoMatch(c, a.secret.value, code, now, a.lastStep);
    hide MatchStep, FindRecovery, WellFormed, Clean, Norm, Unicode;
  }
}
