/** Exactly which events of a run revoke a session. */
module SessionRevocation {
  import opened AuthTables
  import opened AuthSystem
  import SessionHistory

  /** The event revokes this session: its own logout, or all sessions or the deletion of its user, still live. */
  predicate Revokes(s: System, e: Event, token: string)
    requires token in s.db.sessions
  {
    var user := s.db.sessions[token].user;
    || e == Logout(token)
    || e == RevokeAll(user)
    || (e == Delete(user) && user in s.db.users && !s.db.users[user].deleted)
  }

  lemma RevocationStep(cfg: Config, s: System, e: Event, token: string)
    requires token in s.db.sessions && (e.Logout? || e.RevokeAll? || e.Delete?)
    ensures var later := Step(cfg, s, e).db.sessions;
            && later.Keys == s.db.sessions.Keys
            && later[token] == if Revokes(s, e, token) then s.db.sessions[token].(revoked := true)
                               else s.db.sessions[token]
  {
    hide AcceptNextStep, Suspend;
    match e
    case Logout(t) =>
    case RevokeAll(user) =>
    case Delete(user) =>
  }

  lemma OtherStep(cfg: Config, s: System, e: Event, token: string)
    requires token in s.db.sessions && !(e.Logout? || e.RevokeAll? || e.Delete?)
    ensures var later := Step(cfg, s, e).db.sessions;
            && token in later && later[token].user == s.db.sessions[token].user
            && later[token].revoked == s.db.sessions[token].revoked
  {
    if e.AcceptNext? {
      SessionHistory.AcceptsAreQuiet(s, e.pid);
      hide AcceptNextStep;
    } else if !(e.LoginLookup? || e.ChangeLookup? || e.LoginInsert? || e.Select? || e.Finish?) {
      SessionHistory.OthersAreQuiet(cfg, s, e);
      hide Step;
    } else {
      hide AcceptNextStep, NewSession, Slide;
    }
  }

  /** One event: the session is revoked after it exactly if it was before, or if this event revokes it. */
  lemma StepRevokesExactly(cfg: Config, s: System, e: Event, token: string)
    requires token in s.db.sessions
    ensures var later := Step(cfg, s, e).db.sessions;
            && token in later && later[token].user == s.db.sessions[token].user
            && (later[token].revoked <==> s.db.sessions[token].revoked || Revokes(s, e, token))
  {
    hide Step;
    if e.Logout? || e.RevokeAll? || e.Delete? {
      RevocationStep(cfg, s, e, token);
    } else {
      OtherStep(cfg, s, e, token);
    }
  }

  /** A session that is new after an event was inserted by it, unrevoked. */
  lemma OnlyInsertsAddSessions(cfg: Config, s: System, e: Event, token: string)
    requires token !in s.db.sessions && token in Step(cfg, s, e).db.sessions
    ensures e.LoginInsert? && e.token == token && !Step(cfg, s, e).db.sessions[token].revoked
  {
    if e.AcceptNext? {
      SessionHistory.AcceptsAreQuiet(s, e.pid);
      hide AcceptNextStep;
    } else if e.Logout? || e.RevokeAll? || e.Delete? {
      hide AcceptNextStep;
    } else if !(e.LoginLookup? || e.ChangeLookup? || e.LoginInsert? || e.Select? || e.Finish?) {
      SessionHistory.OthersAreQuiet(cfg, s, e);
      hide Step;
    } else {
      hide AcceptNextStep, Slide;
    }
  }

  /** Event k of the run inserts the session. */
  predicate InsertedAt(cfg: Config, roles: map<string, int>, run: seq<Event>, k: nat, token: string) {
    && k < |run| && run[k].LoginInsert? && run[k].token == token
    && token !in After(cfg, Fresh(roles), run[..k]).db.sessions
    && token in After(cfg, Fresh(roles), run[..k + 1]).db.sessions
  }

  /** Event m of the run revokes the session. */
  predicate RevokedAt(cfg: Config, roles: map<string, int>, run: seq<Event>, m: nat, token: string) {
    && m < |run| && token in After(cfg, Fresh(roles), run[..m]).db.sessions
    && Revokes(After(cfg, Fresh(roles), run[..m]), run[m], token)
  }

  lemma PrefixOfRun(cfg: Config, roles: map<string, int>, run: seq<Event>, m: nat, token: string)
    requires m + 1 < |run|
    ensures RevokedAt(cfg, roles, run, m, token) <==> RevokedAt(cfg, roles, run[..|run| - 1], m, token)
  {
    assert run[..|run| - 1][..m] == run[..m];
  }

  ghost predicate RevokedSince(cfg: Config, roles: map<string, int>, run: seq<Event>, k: nat, token: string) {
    exists m: nat :: k < m && RevokedAt(cfg, roles, run, m, token)
  }

  lemma RevokedSinceGrows(cfg: Config, roles: map<string, int>, run: seq<Event>, k: nat, token: string)
    requires k + 1 < |run| && token in After(cfg, Fresh(roles), run[..|run| - 1]).db.sessions
    ensures RevokedSince(cfg, roles, run, k, token)
            <==> || RevokedSince(cfg, roles, run[..|run| - 1], k, token)
                 || Revokes(After(cfg, Fresh(roles), run[..|run| - 1]), run[|run| - 1], token)
  {
    hide After, Revokes;
    var before, last: nat := run[..|run| - 1], |run| - 1;
    if m: nat :| k < m && RevokedAt(cfg, roles, before, m, token) {
      PrefixOfRun(cfg, roles, run, m, token);
    } else if Revokes(After(cfg, Fresh(roles), before), run[last], token) {
      assert RevokedAt(cfg, roles, run, last, token);
    } else if m: nat :| k < m && RevokedAt(cfg, roles, run, m, token) {
      if m < last {
        PrefixOfRun(cfg, roles, run, m, token);
      }
    }
  }

  /**
    In every run a stored session was inserted by one login, and is revoked if and only
    if some event since then is a logout with its token, a revocation of all sessions of
    its user, or the deletion of its user.
  */
  lemma {:induction false} RevokedExactlyWhen(cfg: Config, roles: map<string, int>, run: seq<Event>, token: string)
    returns (k: nat)
    requires token in After(cfg, Fresh(roles), run).db.sessions
    ensures InsertedAt(cfg, roles, run, k, token)
    ensures After(cfg, Fresh(roles), run).db.sessions[token].revoked
            <==> exists m: nat :: k < m && RevokedAt(cfg, roles, run, m, token)
  {
    hide Step, Revokes;
    var before, last: nat := run[..|run| - 1], |run| - 1;
    var s := After(cfg, Fresh(roles), before);
    assert run[..|run|] == run;
    if token !in s.db.sessions {
      OnlyInsertsAddSessions(cfg, s, run[last], token);
      k := last;
    } else {
      k := RevokedExactlyWhen(cfg, roles, before, token);
      StepRevokesExactly(cfg, s, run[last], token);
      assert run[..k] == before[..k] && run[..k + 1] == before[..k + 1];
      hide RevokedAt;
      RevokedSinceGrows(cfg, roles, run, k, token);
    }
  }
}
