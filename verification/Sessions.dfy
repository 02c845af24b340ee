/**
 * Dashboard sessions: an absolute cap and an optional idle timeout that slides
 * with activity.
 */
module Sessions {
  import opened Arithmetic
  import opened Wrappers

  datatype Session = Session(userId: int, csrf: string, created: int, expires: int)

  /** maxTtl is the absolute cap, idle the idle timeout; 0 turns the latter off. */
  datatype Config = Config(maxTtl: nat, idle: nat)

  function Open(cfg: Config, userId: int, csrf: string, now: int): Session {
    Session(userId, csrf, now, now + if cfg.idle > 0 then Min(cfg.idle, cfg.maxTtl) else cfg.maxTtl)
  }

  /** Does activity at this time still count? */
  predicate Alive(s: Session, now: int) {
    s.expires >= now
  }

  /** The deadline slides forward on activity, never past the cap and never back. */
  function Touched(cfg: Config, s: Session, now: int): Session {
    if cfg.idle == 0 || !Alive(s, now) then s
    else
      var expires := Min(now + cfg.idle, s.created + cfg.maxTtl);
      if expires > s.expires then s.(expires := expires) else s
  }

  // ---- the life of one session ------------------------------------------------------------

  /** A session after activity at the given times, and the last time that still counted. */
  function Life(cfg: Config, s: Session, times: seq<int>): (Session, int) {
    if |times| == 0 then (s, s.created)
    else
      var (before, last) := Life(cfg, s, times[..|times| - 1]);
      var now := times[|times| - 1];
      (Touched(cfg, before, now), if Alive(before, now) then now else last)
  }

  /** The clock does not run backwards after the session was opened. */
  ghost predicate Forward(start: int, times: seq<int>) {
    (forall i :: 0 <= i < |times| ==> start <= times[i]) &&
    forall i, j :: 0 <= i < j < |times| ==> times[i] <= times[j]
  }

  /** With an idle timeout the deadline is always the last activity plus the timeout, capped. */
  lemma {:induction false} DeadlineExact(cfg: Config, userId: int, csrf: string, start: int, times: seq<int>)
    requires cfg.idle > 0 && Forward(start, times)
    ensures var (s, last) := Life(cfg, Open(cfg, userId, csrf, start), times);
      s.created == start && s.userId == userId && s.csrf == csrf &&
      s.expires == Min(last + cfg.idle, start + cfg.maxTtl) &&
      start <= last <= (if |times| == 0 then start else times[|times| - 1])
  {
    if |times| > 0 {
      DeadlineExact(cfg, userId, csrf, start, times[..|times| - 1]);
    }
  }

  /** A deadline never moves back, and a session that was dead at some time is dead at every later one. */
  lemma {:induction false} DeadStaysDead(cfg: Config, s: Session, dead: int, times: seq<int>)
    requires !Alive(s, dead) && Forward(dead, times)
    ensures !Alive(Life(cfg, s, times).0, if |times| == 0 then dead else times[|times| - 1])
    ensures Life(cfg, s, times).0 == s
    ensures |times| > 0 ==> times[|times| - 1] >= dead
  {
    if |times| > 0 {
      DeadStaysDead(cfg, s, dead, times[..|times| - 1]);
    }
  }

  /** The deadline is the last activity plus the timeout, capped; or just the cap. */
  ghost predicate Exact(cfg: Config, s: Session, last: int) {
    s.created <= last &&
    s.expires == if cfg.idle > 0 then Min(last + cfg.idle, s.created + cfg.maxTtl) else s.created + cfg.maxTtl
  }

  lemma TouchedExact(cfg: Config, s: Session, last: int, now: int)
    requires Exact(cfg, s, last) && last <= now && cfg.idle > 0 && Alive(s, now)
    ensures Exact(cfg, Touched(cfg, s, now), now)
  {
  }

  /** Activity in time moves the deadline to the idle timeout from now, but not past the cap nor back. */
  lemma TouchedExactly(cfg: Config, s: Session, now: int)
    ensures var t := Touched(cfg, s, now);
      t.userId == s.userId && t.csrf == s.csrf && t.created == s.created &&
      t.expires == if cfg.idle == 0 || now > s.expires then s.expires
                   else Max(s.expires, Min(now + cfg.idle, s.created + cfg.maxTtl))
  {
  }

  // ---- the table -----------------------------------------------------------------------------

  class SessionStore {
    const cfg: Config
    const hash: string -> string
    var sessions: map<string, Session>
    /** The ids of the users there are, each with its name, and the next id: ids are never used again. */
    var users: map<int, string>
    var nextUser: int
    /** The latest time seen; for each row its last activity; and every token refused so far. */
    ghost var clock: int
    ghost var active: map<string, int>
    ghost var refused: set<string>

    /** Would a lookup at this time accept the row? */
    predicate Accepts(th: string, now: int)
      reads this`sessions, this`users
    {
      th in sessions && sessions[th].userId in users && Alive(sessions[th], now)
    }

    ghost predicate Valid()
      reads this
    {
      (forall th :: th in sessions ==> th in active && Exact(cfg, sessions[th], active[th]) && active[th] <= clock) &&
      (forall th :: th in sessions ==> sessions[th].userId < nextUser) &&
      (forall id :: id in users ==> id < nextUser) &&
      (forall th :: th in refused ==> !Accepts(th, clock))
    }

    constructor (cfg: Config, hash: string -> string)
      ensures Valid() && sessions == map[] && users == map[] && refused == {} && this.cfg == cfg && this.hash == hash
    {
      this.cfg, this.hash := cfg, hash;
      sessions, users, nextUser, clock, active, refused := map[], map[], 1, 0, map[], {};
    }

    method AddUser(name: string) returns (id: int)
      requires Valid()
      modifies this`users, this`nextUser
      ensures Valid() && id == old(nextUser) && id !in old(users) && nextUser == id + 1
      ensures users == old(users)[id := name]
    {
      hide Exact, Alive;
      id := nextUser;
      users := users[id := name];
      nextUser := id + 1;
    }

    /** A deleted user's sessions go with the account. */
    method DeleteUser(id: int)
      requires Valid()
      modifies this`users, this`sessions
      ensures Valid() && users == old(users) - {id}
      ensures sessions ==
        if id !in old(users) then old(sessions)
        else map th | th in old(sessions) && old(sessions)[th].userId != id :: old(sessions)[th]
    {
      hide Exact, Alive;
      if id in users {
        sessions := map th | th in sessions && sessions[th].userId != id :: sessions[th];
      }
      users := users - {id};
    }

    /** A new token is random: it was never refused before.  The user may be gone already, but had an id. */
    method CreateSession(token: string, userId: int, csrf: string, now: int)
      requires Valid() && now >= clock && hash(token) !in refused && userId < nextUser
      modifies this`sessions, this`active, this`clock
      ensures Valid() && clock == now
      ensures sessions == old(sessions)[hash(token) := Open(cfg, userId, csrf, now)]
      ensures var s := sessions[hash(token)];
        s.userId == userId && s.csrf == csrf && s.created == now &&
        (cfg.idle == 0 || cfg.maxTtl <= cfg.idle ==> s.expires == now + cfg.maxTtl) &&
        (0 < cfg.idle < cfg.maxTtl ==> s.expires == now + cfg.idle)
    {
      sessions := sessions[hash(token) := Open(cfg, userId, csrf, now)];
      active := active[hash(token) := now];
      clock := now;
    }

    method TouchSession(token: string, now: int)
      requires Valid() && now >= clock
      modifies this`sessions, this`active, this`clock
      ensures Valid() && clock == now
      ensures var th := hash(token);
        sessions == if |token| > 0 && th in old(sessions) then old(sessions)[th := Touched(cfg, old(sessions)[th], now)]
                    else old(sessions)
    {
      hide Exact;
      var th := hash(token);
      assert th in sessions ==> sessions == sessions[th := sessions[th]];
      clock := now;
      if cfg.idle == 0 || |token| == 0 {
        return;
      }
      if th !in sessions || sessions[th].expires < now {
        return;
      }
      var row := sessions[th];
      TouchedExact(cfg, row, active[th], now);
      var expires := Min(now + cfg.idle, row.created + cfg.maxTtl);
      active := active[th := now];
      if expires > row.expires {
        sessions := sessions[th := row.(expires := expires)];
      }
    }

    /**
     * The session of a token, or None; an expired row is deleted on the way.  Once a token
     * was refused, for whatever reason, it is never accepted again.
     */
    method GetSession(token: string, now: int) returns (r: Option<Session>)
      requires Valid() && now >= clock
      modifies this`sessions, this`clock, this`refused
      ensures Valid() && clock == now
      ensures var th := hash(token);
        r == if |token| > 0 && old(Accepts(th, now)) then Some(old(sessions)[th]) else None
      ensures var th, row := hash(token), old(sessions);
        r.Some? <==> |token| > 0 && th in row && row[th].userId in users && now <= row[th].expires
      ensures hash(token) in old(refused) ==> r.None?
      ensures refused == if |token| > 0 && r.None? then old(refused) + {hash(token)} else old(refused)
      ensures var th := hash(token);
        var row := old(sessions);
        sessions ==
          if |token| > 0 && th in row && row[th].userId in users && !Alive(row[th], now) then row - {th} else row
    {
      hide Exact;
      clock := now;
      if |token| == 0 {
        return None;
      }
      var th := hash(token);
      if th !in sessions || sessions[th].userId !in users {
        refused := refused + {th};
        return None;
      }
      if sessions[th].expires < now {
        refused := refused + {th};
        sessions := sessions - {th};
        return None;
      }
      return Some(sessions[th]);
    }

    method RevokeOtherSessions(userId: int, keepToken: string)
      requires Valid()
      modifies this`sessions
      ensures Valid()
      ensures var keep := if |keepToken| > 0 then hash(keepToken) else "";
        sessions ==
          map th | th in old(sessions) && (old(sessions)[th].userId != userId || th == keep) :: old(sessions)[th]
    {
      var keep := if |keepToken| > 0 then hash(keepToken) else "";
      sessions := map th | th in sessions && (sessions[th].userId != userId || th == keep) :: sessions[th];
    }

    method DeleteSession(token: string)
      requires Valid()
      modifies this`sessions
      ensures Valid() && sessions == if |token| > 0 then old(sessions) - {hash(token)} else old(sessions)
    {
      if |token| > 0 {
        sessions := sessions - {hash(token)};
      }
    }

    method Prune(now: int)
      requires Valid()
      modifies this`sessions
      ensures Valid()
      ensures sessions == map th | th in old(sessions) && old(sessions)[th].expires >= now :: old(sessions)[th]
    {
      sessions := map th | th in sessions && sessions[th].expires >= now :: sessions[th];
    }
  }
}
