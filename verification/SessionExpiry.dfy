/**
  What the stored expiry of a session is under any interleaving, when a validation is
  accepted, and when an UPDATE that comes late shortens the life of a session.
*/
module SessionExpiry {
  import opened Common
  import opened AuthTables
  import opened AuthSystem
  import opened OneUserRuns
  import SessionHistory

  /** The entry that renewed the session last; -1 if none did. */
  function LastRenewal(log: seq<Entry>, token: string): (j: int)
    ensures -1 <= j < |log|
    ensures j >= 0 ==> SessionHistory.Renews(log[j], token)
    ensures forall i :: j < i < |log| ==> !SessionHistory.Renews(log[i], token)
  {
    if |log| == 0 then -1
    else if SessionHistory.Renews(log[|log| - 1], token) then |log| - 1
    else LastRenewal(log[..|log| - 1], token)
  }

  /** The row's expiry is that of its last renewal, be it the login or an acceptance. */
  ghost predicate RowIsCurrent(cfg: Config, row: Session, log: seq<Entry>, token: string) {
    LastRenewal(log, token) >= 0 && row.expires == Slide(cfg, row.absolute, log[LastRenewal(log, token)].at)
  }

  ghost predicate Inv(cfg: Config, sessions: map<string, Session>, log: seq<Entry>) {
    forall t :: t in sessions && !sessions[t].revoked ==> RowIsCurrent(cfg, sessions[t], log, t)
  }

  // ----- Every step keeps it -----

  lemma {:induction false} CurrentStays(cfg: Config, row: Session, log: seq<Entry>, more: seq<Entry>, token: string)
    requires RowIsCurrent(cfg, row, log, token)
    requires forall k :: 0 <= k < |more| ==> !SessionHistory.Renews(more[k], token)
    ensures RowIsCurrent(cfg, row, log + more, token)
  {
    if |more| == 0 {
      assert log + more == log;
    } else {
      assert (log + more)[..|log + more| - 1] == log + more[..|more| - 1];
      CurrentStays(cfg, row, log, more[..|more| - 1], token);
    }
  }

  /** Rows keep their expiry, or are revoked, while nothing is renewed. */
  lemma NoRenewalKeeps(cfg: Config, s: System, s': System)
    requires Inv(cfg, s.db.sessions, s.log) && s.log <= s'.log
    requires forall n :: |s.log| <= n < |s'.log| ==> !s'.log[n].SessionCreated? && !s'.log[n].Validated?
    requires forall t :: t in s'.db.sessions && !s'.db.sessions[t].revoked ==>
               t in s.db.sessions && s'.db.sessions[t] == s.db.sessions[t]
    ensures Inv(cfg, s'.db.sessions, s'.log)
  {
    hide RowIsCurrent;
    var more := s'.log[|s.log|..];
    assert s'.log == s.log + more;
    forall t | t in s'.db.sessions && !s'.db.sessions[t].revoked
      ensures RowIsCurrent(cfg, s'.db.sessions[t], s'.log, t)
    {
      CurrentStays(cfg, s.db.sessions[t], s.log, more, t);
    }
  }

  /** A renewal of one session, whose row gets the expiry of the new entry unless it is revoked. */
  lemma RenewalKeeps(cfg: Config, s: System, s': System, token: string, e: Entry)
    requires Inv(cfg, s.db.sessions, s.log) && s'.log == s.log + [e] && SessionHistory.Renews(e, token)
    requires forall t :: t in s'.db.sessions && t != token ==>
               t in s.db.sessions && s'.db.sessions[t] == s.db.sessions[t]
    requires token in s'.db.sessions && !s'.db.sessions[token].revoked ==>
               s'.db.sessions[token].expires == Slide(cfg, s'.db.sessions[token].absolute, e.at)
    ensures Inv(cfg, s'.db.sessions, s'.log)
  {
    hide Slide;
    forall t | t in s'.db.sessions && !s'.db.sessions[t].revoked
      ensures RowIsCurrent(cfg, s'.db.sessions[t], s'.log, t)
    {
      if t != token {
        assert RowIsCurrent(cfg, s.db.sessions[t], s.log, t);
        CurrentStays(cfg, s.db.sessions[t], s.log, [e], t);
      }
    }
  }

  lemma InsertKeeps(cfg: Config, s: System, pid: nat, token: string, clock: int)
    requires Inv(cfg, s.db.sessions, s.log)
    ensures var s' := InsertSessionStep(cfg, s, pid, token, clock); Inv(cfg, s'.db.sessions, s'.log)
  {
    hide RowIsCurrent, Slide;
    var s' := InsertSessionStep(cfg, s, pid, token, clock);
    if s'.log != s.log {
      RenewalKeeps(cfg, s, s', token, s'.log[|s.log|]);
    }
  }

  lemma FinishKeeps(cfg: Config, s: System, pid: nat, clock: int)
    requires Inv(cfg, s.db.sessions, s.log) && SessionHistory.Inv(cfg, s)
    ensures var s' := FinishStep(cfg, s, pid, clock); Inv(cfg, s'.db.sessions, s'.log)
  {
    hide RowIsCurrent, Slide, SessionHistory.EffectsLast, SessionHistory.LogOk, SessionHistory.ChecksOk;
    hide SessionHistory.Created, SessionHistory.Renewed, SessionHistory.Untouched;
    var s' := FinishStep(cfg, s, pid, clock);
    if s'.log != s.log {
      var v := s.validations[pid];
      assert SessionHistory.ValidationOk(cfg, v, s.db.sessions, s.log, s.clock);
      RenewalKeeps(cfg, s, s', v.token, s'.log[|s.log|]);
    }
  }

  lemma RevocationsKeep(cfg: Config, s: System, e: Event)
    requires Inv(cfg, s.db.sessions, s.log) && (e.Logout? || e.RevokeAll? || e.Delete?)
    ensures Inv(cfg, Step(cfg, s, e).db.sessions, Step(cfg, s, e).log)
  {
    hide Inv;
    NoRenewalKeeps(cfg, s, Step(cfg, s, e));
  }

  lemma QuietKeeps(cfg: Config, s: System, s': System)
    requires Inv(cfg, s.db.sessions, s.log) && SessionHistory.Quiet(s, s')
    ensures Inv(cfg, s'.db.sessions, s'.log)
  {
    NoRenewalKeeps(cfg, s, s');
  }

  lemma StepKeepsInv(cfg: Config, s: System, e: Event)
    requires Inv(cfg, s.db.sessions, s.log) && SessionHistory.Inv(cfg, s)
    ensures Inv(cfg, Step(cfg, s, e).db.sessions, Step(cfg, s, e).log)
  {
    hide Inv, SessionHistory.Inv, SessionHistory.Quiet;
    match e
    case LoginLookup(_, _, _) => NoRenewalKeeps(cfg, s, Step(cfg, s, e));
    case ChangeLookup(_, _, _) => NoRenewalKeeps(cfg, s, Step(cfg, s, e));
    case LoginInsert(pid, token, clock) => InsertKeeps(cfg, s, pid, token, clock);
    case Select(_, _) =>
    case Finish(pid, clock) => FinishKeeps(cfg, s, pid, clock);
    case Logout(_) => RevocationsKeep(cfg, s, e);
    case RevokeAll(_) => RevocationsKeep(cfg, s, e);
    case Delete(_) => RevocationsKeep(cfg, s, e);
    case AcceptNext(pid) =>
      SessionHistory.AcceptsAreQuiet(s, pid);
      QuietKeeps(cfg, s, Step(cfg, s, e));
    case _ =>
      SessionHistory.OthersAreQuiet(cfg, s, e);
      QuietKeeps(cfg, s, Step(cfg, s, e));
  }

  lemma {:induction false} InvHolds(cfg: Config, roles: map<string, int>, run: seq<Event>)
    ensures var s := After(cfg, Fresh(roles), run); Inv(cfg, s.db.sessions, s.log)
  {
    if |run| > 0 {
      InvHolds(cfg, roles, run[..|run| - 1]);
      SessionHistory.InvHolds(cfg, roles, run[..|run| - 1]);
      StepKeepsInv(cfg, After(cfg, Fresh(roles), run[..|run| - 1]), run[|run| - 1]);
    }
  }

  // ----- What every run guarantees -----

  /**
    In every reachable state an unrevoked row expires the idle lifetime after its last
    renewal, or at its absolute expiry.
  */
  lemma ExpiryIsThatOfTheLastRenewal(cfg: Config, roles: map<string, int>, run: seq<Event>, token: string)
    requires var s := After(cfg, Fresh(roles), run); token in s.db.sessions && !s.db.sessions[token].revoked
    ensures var s := After(cfg, Fresh(roles), run);
            RowIsCurrent(cfg, s.db.sessions[token], s.log, token)
  {
    InvHolds(cfg, roles, run);
  }

  /** A SELECT and an UPDATE of one validation with nothing in between. */
  function ValidateNow(cfg: Config, s: System, pid: nat, token: string): System {
    FinishStep(cfg, SelectStep(s, pid, token), pid, s.clock)
  }

  /** The session's row lives on behalf of a live user. */
  predicate Live(s: System, token: string) {
    token in s.db.sessions && !s.db.sessions[token].revoked && Alive(s.db.users, s.db.sessions[token].user)
  }

  /** A renewal of the session that lasts beyond `now`, which is before its absolute expiry. */
  ghost predicate LastsBeyond(cfg: Config, s: System, token: string, i: int, now: int)
    requires token in s.db.sessions
  {
    && 0 <= i < |s.log| && SessionHistory.Renews(s.log[i], token)
    && now < s.log[i].at + cfg.idleTtl && now < s.db.sessions[token].absolute
  }

  /**
    In every reachable state a validation without interruption is accepted if and only if
    the session is live and its last renewal, in the order of the UPDATEs, lasts.
  */
  lemma ValidationIsAcceptedExactlyWhen(cfg: Config, roles: map<string, int>, run: seq<Event>, pid: nat, token: string)
    requires pid !in After(cfg, Fresh(roles), run).validations
    ensures var s := After(cfg, Fresh(roles), run);
            var s' := ValidateNow(cfg, s, pid, token);
            if Live(s, token) && LastsBeyond(cfg, s, token, LastRenewal(s.log, token), s.clock)
            then s'.log == s.log + [Validated(token, s.db.sessions[token].user, s.clock, |s.log|)]
            else s'.log == s.log
  {
    InvHolds(cfg, roles, run);
    SessionHistory.InvHolds(cfg, roles, run);
    AcceptedExactlyWhen(cfg, After(cfg, Fresh(roles), run), pid, token);
  }

  lemma AcceptedExactlyWhen(cfg: Config, s: System, pid: nat, token: string)
    requires pid !in s.validations && Inv(cfg, s.db.sessions, s.log)
    requires SessionHistory.RowsOk(cfg, s.db.sessions, s.log, s.clock)
    ensures var s' := ValidateNow(cfg, s, pid, token);
            if Live(s, token) && LastsBeyond(cfg, s, token, LastRenewal(s.log, token), s.clock)
            then s'.log == s.log + [Validated(token, s.db.sessions[token].user, s.clock, |s.log|)]
            else s'.log == s.log
  {
    if Live(s, token) {
      assert RowIsCurrent(cfg, s.db.sessions[token], s.log, token);
      assert s.db.sessions[token].expires <= s.db.sessions[token].absolute;
    }
  }

  // ----- When a session in use does not stay valid -----

  /** The session was renewed less than the idle lifetime before `now`, in whatever order the UPDATEs came. */
  ghost predicate InUse(cfg: Config, s: System, token: string, now: int)
    requires token in s.db.sessions
  {
    exists i :: LastsBeyond(cfg, s, token, i, now)
  }

  /** After `d` more, a session in use is accepted. */
  ghost predicate InUseIsAccepted(cfg: Config, s: System, pid: nat, token: string, d: nat)
    requires token in s.db.sessions
  {
    InUse(cfg, s, token, s.clock + d) ==> |ValidateNow(cfg, Step(cfg, s, Tick(d)), pid, token).log| > |s.log|
  }

  function Max(a: int, b: int): int {
    if a < b then b else a
  }

  /** Entry i outlasts the last renewal: an UPDATE with an older clock came after it and still matters. */
  ghost predicate Outlasts(cfg: Config, s: System, token: string, i: int)
    requires token in s.db.sessions && LastRenewal(s.log, token) >= 0
  {
    LastsBeyond(cfg, s, token, i, Max(s.clock, s.log[LastRenewal(s.log, token)].at + cfg.idleTtl))
  }

  lemma LiveIsRenewed(cfg: Config, roles: map<string, int>, run: seq<Event>, token: string)
    requires Live(After(cfg, Fresh(roles), run), token)
    ensures LastRenewal(After(cfg, Fresh(roles), run).log, token) >= 0
  {
    ExpiryIsThatOfTheLastRenewal(cfg, roles, run, token);
  }

  /** Waiting changes the clock and nothing else. */
  lemma AfterWaiting(cfg: Config, roles: map<string, int>, run: seq<Event>, pid: nat, token: string, d: nat)
    requires var s := After(cfg, Fresh(roles), run); pid !in s.validations && Live(s, token)
    ensures var s := After(cfg, Fresh(roles), run);
            |ValidateNow(cfg, Step(cfg, s, Tick(d)), pid, token).log| > |s.log|
            <==> LastsBeyond(cfg, s, token, LastRenewal(s.log, token), s.clock + d)
  {
    hide ValidateNow;
    assert (run + [Tick(d)])[..|run|] == run;
    ValidationIsAcceptedExactlyWhen(cfg, roles, run + [Tick(d)], pid, token);
  }

  /** If none outlasts the last renewal, that one lasts as long as any. */
  lemma LastLastsLongest(cfg: Config, s: System, token: string, now: int)
    requires token in s.db.sessions && LastRenewal(s.log, token) >= 0 && s.clock <= now
    requires forall i :: !Outlasts(cfg, s, token, i)
    ensures InUse(cfg, s, token, now) ==> LastsBeyond(cfg, s, token, LastRenewal(s.log, token), now)
  {
    hide LastRenewal;
    if InUse(cfg, s, token, now) {
      var i :| LastsBeyond(cfg, s, token, i, now);
      assert !Outlasts(cfg, s, token, i);
    }
  }

  /** If some renewal outlasts the last one, there is a moment when only the last one has run out. */
  lemma LastRunsOutFirst(cfg: Config, s: System, token: string, i: int) returns (d: nat)
    requires token in s.db.sessions && LastRenewal(s.log, token) >= 0 && Outlasts(cfg, s, token, i)
    ensures InUse(cfg, s, token, s.clock + d) && !LastsBeyond(cfg, s, token, LastRenewal(s.log, token), s.clock + d)
  {
    hide LastRenewal;
    d := Max(s.clock, s.log[LastRenewal(s.log, token)].at + cfg.idleTtl) - s.clock;
    assert LastsBeyond(cfg, s, token, i, s.clock + d);
  }

  /**
    From a reachable state on, a live session stays valid for the idle lifetime after
    each of its renewals if and only if none of them outlasts the last one.
  */
  lemma SessionInUseIsAcceptedExactlyWhen(
    cfg: Config, roles: map<string, int>, run: seq<Event>, pid: nat, token: string)
    requires var s := After(cfg, Fresh(roles), run); pid !in s.validations && Live(s, token)
    ensures var s := After(cfg, Fresh(roles), run);
            LastRenewal(s.log, token) >= 0 &&
            ((forall d: nat :: InUseIsAccepted(cfg, s, pid, token, d)) <==> !exists i :: Outlasts(cfg, s, token, i))
  {
    hide After, Step, ValidateNow, LastRenewal, InUse, LastsBeyond, Outlasts;
    LiveIsRenewed(cfg, roles, run, token);
    var s := After(cfg, Fresh(roles), run);
    if i :| Outlasts(cfg, s, token, i) {
      var d := LastRunsOutFirst(cfg, s, token, i);
      AfterWaiting(cfg, roles, run, pid, token, d);
      assert !InUseIsAccepted(cfg, s, pid, token, d);
    } else {
      forall d: nat ensures InUseIsAccepted(cfg, s, pid, token, d) {
        AfterWaiting(cfg, roles, run, pid, token, d);
        LastLastsLongest(cfg, s, token, s.clock + d);
      }
    }
  }

  /**
    An accepted UPDATE shortens the life of its session exactly if its clock was read before
    that of the last renewal, short of the cut.
  */
  lemma UpdateShortensExactlyWhen(cfg: Config, roles: map<string, int>, run: seq<Event>, pid: nat, clock: int)
    requires var s := After(cfg, Fresh(roles), run);
             && pid in s.validations && Live(s, s.validations[pid].token)
             && FinishStep(cfg, s, pid, clock).log != s.log
    ensures var s := After(cfg, Fresh(roles), run);
            var token, j := s.validations[pid].token, LastRenewal(s.log, s.validations[pid].token);
            && j >= 0 && token in FinishStep(cfg, s, pid, clock).db.sessions
            && (FinishStep(cfg, s, pid, clock).db.sessions[token].expires < s.db.sessions[token].expires
                <==> clock < s.log[j].at && clock + cfg.idleTtl < s.db.sessions[token].absolute)
  {
    var s := After(cfg, Fresh(roles), run);
    SessionHistory.InvHolds(cfg, roles, run);
    ExpiryIsThatOfTheLastRenewal(cfg, roles, run, s.validations[pid].token);
    hide After, Fresh;
    assert SessionHistory.ValidationOk(cfg, s.validations[pid], s.db.sessions, s.log, s.clock);
  }

  // ----- Late writes -----

  /** If this event writes a session, it does so at most `d` after its clock was read. */
  predicate WritesInTime(cfg: Config, s: System, e: Event, d: nat) {
    (e.Finish? || e.LoginInsert?) && Step(cfg, s, e).log != s.log ==> s.clock - e.clock <= d
  }

  /** Every INSERT and UPDATE of the run comes at most `d` late. */
  predicate LateByAtMost(cfg: Config, s: System, run: seq<Event>, d: nat) {
    |run| == 0 ||
    (LateByAtMost(cfg, s, run[..|run| - 1], d)
     && WritesInTime(cfg, After(cfg, s, run[..|run| - 1]), run[|run| - 1], d))
  }

  predicate IsRenewal(e: Entry) { e.SessionCreated? || e.Validated? }

  /** Renewals are from the past, and at most `d` older than any before them. */
  ghost predicate RenewalsOk(log: seq<Entry>, clock: int, d: nat) {
    && (forall i :: 0 <= i < |log| && IsRenewal(log[i]) ==> log[i].at <= clock)
    && (forall i, j :: 0 <= i < j < |log| && IsRenewal(log[i]) && IsRenewal(log[j]) ==> log[i].at - d <= log[j].at)
  }

  /** What a step adds to the log: at most one renewal, whose clock is that of the event, and alone. */
  lemma StepRenews(cfg: Config, s: System, e: Event)
    ensures var s' := Step(cfg, s, e);
            && s.log <= s'.log && s.clock <= s'.clock
            && (forall n :: |s.log| <= n < |s'.log| && IsRenewal(s'.log[n]) ==>
                  (e.Finish? || e.LoginInsert?) && s'.log == s.log + [s'.log[n]] && s'.log[n].at == e.clock <= s.clock)
  {
    hide IsRenewal;
    if e.AcceptNext? {
      SessionHistory.AcceptsAreQuiet(s, e.pid);
      hide Step;
      QuietRenewsNothing(s, AcceptNextStep(s, e.pid));
      assert Step(cfg, s, e) == AcceptNextStep(s, e.pid);
    } else if e.Finish? || e.LoginInsert? {
    } else if e.LoginLookup? || e.ChangeLookup? || e.Select? || e.Logout? || e.RevokeAll? || e.Delete? {
      ReadsRenewNothing(cfg, s, e);
    } else {
      SessionHistory.OthersAreQuiet(cfg, s, e);
      hide Step;
      QuietRenewsNothing(s, Step(cfg, s, e));
    }
  }

  lemma QuietRenewsNothing(s: System, s': System)
    requires SessionHistory.Quiet(s, s')
    ensures s.log <= s'.log && s.clock <= s'.clock
    ensures forall n :: |s.log| <= n < |s'.log| ==> !IsRenewal(s'.log[n])
  {
  }

  lemma ReadsRenewNothing(cfg: Config, s: System, e: Event)
    requires e.LoginLookup? || e.ChangeLookup? || e.Select? || e.Logout? || e.RevokeAll? || e.Delete?
    ensures var s' := Step(cfg, s, e);
            && s.log <= s'.log && s.clock <= s'.clock
            && (forall n :: |s.log| <= n < |s'.log| ==> !IsRenewal(s'.log[n]))
  {
    hide AcceptNextStep, IsLoginRow, IsPasswordRow, RevokeThese, SessionsOf, DeleteUser, SelectSession;
  }

  lemma {:induction false} RenewalsStayOk(cfg: Config, roles: map<string, int>, run: seq<Event>, d: nat)
    requires LateByAtMost(cfg, Fresh(roles), run, d)
    ensures var s := After(cfg, Fresh(roles), run); RenewalsOk(s.log, s.clock, d)
  {
    if |run| > 0 {
      var before, e := After(cfg, Fresh(roles), run[..|run| - 1]), run[|run| - 1];
      RenewalsStayOk(cfg, roles, run[..|run| - 1], d);
      StepRenews(cfg, before, e);
      hide Step;
      assert WritesInTime(cfg, before, e, d);
    }
  }

  /** A validation less than `span` after some renewal, and before the absolute expiry, is accepted. */
  ghost predicate KeptFor(cfg: Config, roles: map<string, int>, run: seq<Event>, pid: nat, token: string, span: int) {
    var s := After(cfg, Fresh(roles), run);
    pid !in s.validations && Live(s, token) && InUse(cfg.(idleTtl := span), s, token, s.clock) ==>
      |ValidateNow(cfg, s, pid, token).log| > |s.log|
  }

  lemma KeptForIdleLessLateness(
    cfg: Config, roles: map<string, int>, run: seq<Event>, pid: nat, token: string, d: nat, span: int)
    requires LateByAtMost(cfg, Fresh(roles), run, d) && span <= Max(0, cfg.idleTtl - d)
    ensures KeptFor(cfg, roles, run, pid, token, span)
  {
    var s := After(cfg, Fresh(roles), run);
    if pid !in s.validations && Live(s, token) && InUse(cfg.(idleTtl := span), s, token, s.clock) {
      RenewalsStayOk(cfg, roles, run, d);
      LiveIsRenewed(cfg, roles, run, token);
      ValidationIsAcceptedExactlyWhen(cfg, roles, run, pid, token);
      hide After, ValidateNow;
      var i :| LastsBeyond(cfg.(idleTtl := span), s, token, i, s.clock);
      assert IsRenewal(s.log[i]) && IsRenewal(s.log[LastRenewal(s.log, token)]);
    }
  }

  // ----- A stale UPDATE -----

  /** The system after a login at time 0, at a later clock, with this sliding expiry. */
  function LoggedIn(
    cfg: Config, clock: int, expires: int, validations: map<nat, Validation>, log: seq<Entry>): (s: System)
    ensures s.clock == clock
  {
    OneUser(clock, "hash", map["token" := Session(1, 0, expires, cfg.absTtl, false)], validations, map[], log)
  }

  lemma Waited(cfg: Config, clock: int, expires: int, vs: map<nat, Validation>, log: seq<Entry>, d: nat)
    ensures Step(cfg, LoggedIn(cfg, clock, expires, vs, log), Tick(d)) == LoggedIn(cfg, clock + d, expires, vs, log)
  {
  }

  lemma Selected(cfg: Config, clock: int, expires: int, vs: map<nat, Validation>, log: seq<Entry>, p: nat)
    ensures Step(cfg, LoggedIn(cfg, clock, expires, vs, log), Select(p, "token"))
            == LoggedIn(cfg, clock, expires,
                        vs[p := Validation("token", Session(1, 0, expires, cfg.absTtl, false), clock, |log|)], log)
  {
    Selects(cfg, LoggedIn(cfg, clock, expires, vs, log), p, "token");
  }

  lemma Finished(cfg: Config, clock: int, expires: int, vs: map<nat, Validation>, log: seq<Entry>, p: nat, at: int)
    requires p in vs && vs[p].token == "token" && vs[p].clock <= at <= clock && at < vs[p].row.expires
    requires vs[p].row == Session(1, 0, vs[p].row.expires, cfg.absTtl, false) && at < cfg.absTtl
    ensures Step(cfg, LoggedIn(cfg, clock, expires, vs, log), Finish(p, at))
            == LoggedIn(cfg, clock, Slide(cfg, cfg.absTtl, at), vs - {p},
                        log + [Validated("token", 1, at, vs[p].selected)])
  {
    Finishes(cfg, LoggedIn(cfg, clock, expires, vs, log), p, at);
  }

  lemma OneMoreInTime(cfg: Config, s: System, run: seq<Event>, e: Event, d: nat)
    requires LateByAtMost(cfg, s, run, d) && (e.Finish? || e.LoginInsert? ==> After(cfg, s, run).clock - e.clock <= d)
    ensures LateByAtMost(cfg, s, run + [e], d) && After(cfg, s, run + [e]) == Step(cfg, After(cfg, s, run), e)
  {
    assert (run + [e])[..|run|] == run;
  }

  /**
    A validation reads its clock at 0; others renew the session at m and at n; then the
    first does its UPDATE, and the session's idle lifetime is over as if it were alone.
  */
  function StaleRun(m: nat, n: nat, idle: nat): seq<Event>
    requires m <= n <= idle
  {
    LoginRun() + [Select(1, "token")]
    + [Tick(m)] + [Select(2, "token")] + [Finish(2, m)]
    + [Tick(n - m)] + [Select(2, "token")] + [Finish(2, n)] + [Finish(1, 0)] + [Tick(idle - n)]
  }

  /** A second validation, `d` later and without interruption, renews the session. */
  lemma RenewedLater(cfg: Config, run: seq<Event>, clock: int, expires: int, vs: map<nat, Validation>, log: seq<Entry>,
                     d: nat, late: nat)
    requires clock + d < expires && clock + d < cfg.absTtl && 2 !in vs
    requires LateByAtMost(cfg, Fresh(map[]), run, late)
    requires After(cfg, Fresh(map[]), run) == LoggedIn(cfg, clock, expires, vs, log)
    ensures var at := clock + d;
            var run' := run + [Tick(d)] + [Select(2, "token")] + [Finish(2, at)];
            && LateByAtMost(cfg, Fresh(map[]), run', late)
            && After(cfg, Fresh(map[]), run')
               == LoggedIn(cfg, at, Slide(cfg, cfg.absTtl, at), vs, log + [Validated("token", 1, at, |log|)])
  {
    hide After, Step, LateByAtMost, Slide, LoggedIn;
    var at := clock + d;
    var s0, e1, e2, e3 := Fresh(map[]), Tick(d), Select(2, "token"), Finish(2, at);
    OneMoreInTime(cfg, s0, run, e1, late);
    Waited(cfg, clock, expires, vs, log, d);
    OneMoreInTime(cfg, s0, run + [e1], e2, late);
    Selected(cfg, at, expires, vs, log, 2);
    OneMoreInTime(cfg, s0, run + [e1] + [e2], e3, late);
    var vs' := vs[2 := Validation("token", Session(1, 0, expires, cfg.absTtl, false), at, |log|)];
    Finished(cfg, at, expires, vs', log, 2, at);
    assert vs' - {2} == vs;
  }

  /** And then the stale UPDATE, and the end of the idle lifetime. */
  lemma StaleAfterN(cfg: Config, n: nat, run: seq<Event>, log: seq<Entry>, v: Validation)
    requires n <= cfg.idleTtl < cfg.absTtl && 0 < cfg.idleTtl
    requires LateByAtMost(cfg, Fresh(map[]), run, n)
    requires v == Validation("token", Session(1, 0, cfg.idleTtl, cfg.absTtl, false), 0, v.selected)
    requires After(cfg, Fresh(map[]), run) == LoggedIn(cfg, n, Slide(cfg, cfg.absTtl, n), map[1 := v], log)
    ensures var run' := run + [Finish(1, 0)] + [Tick(cfg.idleTtl - n)];
            && LateByAtMost(cfg, Fresh(map[]), run', n)
            && After(cfg, Fresh(map[]), run')
               == LoggedIn(cfg, cfg.idleTtl, cfg.idleTtl, map[], log + [Validated("token", 1, 0, v.selected)])
  {
    var s0, e4, e5 := Fresh(map[]), Finish(1, 0), Tick(cfg.idleTtl - n);
    hide After, Step, LateByAtMost, LoggedIn;
    OneMoreInTime(cfg, s0, run, e4, n);
    Finished(cfg, n, Slide(cfg, cfg.absTtl, n), map[1 := v], log, 1, 0);
    assert map[1 := v] - {1} == map[];
    OneMoreInTime(cfg, s0, run + [e4], e5, n);
    Waited(cfg, n, cfg.idleTtl, map[], log + [Validated("token", 1, 0, v.selected)], cfg.idleTtl - n);
  }

  lemma LoginIsInTime(cfg: Config)
    ensures LateByAtMost(cfg, Fresh(map[]), LoginRun(), 0)
  {
    var s0 := Fresh(map[]);
    var e1, e2, e3 := Register("a@b", "A", "hash"), LoginLookup(0, 1, "a@b"), LoginInsert(0, "token", 0);
    hide Step;
    OneMoreInTime(cfg, s0, [], e1, 0);
    OneMoreInTime(cfg, s0, [] + [e1], e2, 0);
    LooksUp(cfg, 0, Step(cfg, s0, e1), "hash", SignIn);
    OneMoreInTime(cfg, s0, [] + [e1] + [e2], e3, 0);
  }

  /**
    In that run no write is more than n late; the session was accepted at n, and is
    refused at the end of the idle lifetime that began with the login.
  */
  lemma StaleUpdateEndsASessionInUse(cfg: Config, m: nat, n: nat, pid: nat)
    requires m <= n && m < cfg.idleTtl && n <= cfg.idleTtl < cfg.absTtl && n < m + cfg.idleTtl
    ensures var run := StaleRun(m, n, cfg.idleTtl);
            var s := After(cfg, Fresh(map[]), run);
            && LateByAtMost(cfg, Fresh(map[]), run, n)
            && Live(s, "token") && s.clock == cfg.idleTtl < s.db.sessions["token"].absolute && pid !in s.validations
            && (exists i :: 0 <= i < |s.log| && s.log[i].Validated? && s.log[i].token == "token" && s.log[i].at == n)
            && ValidateNow(cfg, s, pid, "token").log == s.log
  {
    hide After, LateByAtMost, Step, LoginRun;
    var s0, e := Fresh(map[]), Select(1, "token");
    LoginIsInTime(cfg);
    AfterLogin(cfg);
    var log := [PasswordSet(1, "hash", None), LookedUp(1, "hash"), SessionCreated("token", 1, 0, 1)];
    OneMoreInTime(cfg, s0, LoginRun(), e, 0);
    Selected(cfg, 0, cfg.idleTtl, map[], log, 1);
    var v := Validation("token", Session(1, 0, cfg.idleTtl, cfg.absTtl, false), 0, 3);
    RenewedLater(cfg, LoginRun() + [e], 0, cfg.idleTtl, map[1 := v], log, m, 0);
    var run := LoginRun() + [e] + [Tick(m)] + [Select(2, "token")] + [Finish(2, m)];
    var log2 := log + [Validated("token", 1, m, 3)];
    LateByMore(cfg, s0, run, 0, n);
    RenewedLater(cfg, run, m, Slide(cfg, cfg.absTtl, m), map[1 := v], log2, n - m, n);
    var run2 := run + [Tick(n - m)] + [Select(2, "token")] + [Finish(2, n)];
    StaleAfterN(cfg, n, run2, log2 + [Validated("token", 1, n, 4)], v);
    assert (log2 + [Validated("token", 1, n, 4)] + [Validated("token", 1, 0, 3)])[4] == Validated("token", 1, n, 4);
  }

  lemma StaleRunBreaksLongerSpans(cfg: Config, d: nat, span: int) returns (run: seq<Event>)
    requires 2 <= cfg.idleTtl < cfg.absTtl && span > Max(0, cfg.idleTtl - d)
    ensures LateByAtMost(cfg, Fresh(map[]), run, d) && !KeptFor(cfg, map[], run, 0, "token", span)
  {
    hide After, LateByAtMost, ValidateNow;
    var n: nat := if d < cfg.idleTtl then d else cfg.idleTtl;
    var m: nat := if d < cfg.idleTtl then d else cfg.idleTtl - 1;
    run := StaleRun(m, n, cfg.idleTtl);
    StaleUpdateEndsASessionInUse(cfg, m, n, 0);
    LateByMore(cfg, Fresh(map[]), run, n, d);
    var s := After(cfg, Fresh(map[]), run);
    var i :| 0 <= i < |s.log| && s.log[i].Validated? && s.log[i].token == "token" && s.log[i].at == n;
    assert LastsBeyond(cfg.(idleTtl := span), s, "token", i, s.clock);
    assert InUse(cfg.(idleTtl := span), s, "token", s.clock);
  }

  lemma {:induction false} LateByMore(cfg: Config, s: System, run: seq<Event>, d: nat, more: nat)
    requires LateByAtMost(cfg, s, run, d) && d <= more
    ensures LateByAtMost(cfg, s, run, more)
  {
    if |run| > 0 {
      LateByMore(cfg, s, run[..|run| - 1], d, more);
    }
  }

  /**
    If writes come at most `d` late, each renewal keeps its session valid for the idle
    lifetime less `d`, up to the absolute expiry, in every run, and for no longer span.
  */
  lemma RenewalsLastForIdleLessLateness(cfg: Config, d: nat, span: int)
    requires 2 <= cfg.idleTtl < cfg.absTtl
    ensures (forall roles, run, pid: nat, token ::
               LateByAtMost(cfg, Fresh(roles), run, d) ==> KeptFor(cfg, roles, run, pid, token, span))
            <==> span <= Max(0, cfg.idleTtl - d)
  {
    hide After, LateByAtMost, KeptFor;
    if span <= Max(0, cfg.idleTtl - d) {
      forall roles, run, pid: nat, token | LateByAtMost(cfg, Fresh(roles), run, d)
        ensures KeptFor(cfg, roles, run, pid, token, span)
      {
        KeptForIdleLessLateness(cfg, roles, run, pid, token, d, span);
      }
    } else {
      var run := StaleRunBreaksLongerSpans(cfg, d, span);
      assert !KeptFor(cfg, map[], run, 0, "token", span);
    }
  }
}
