/** Runs of one user: what single steps do to a system in which little else happens. */
module OneUserRuns {
  import opened Common
  import opened AuthTables
  import opened AuthSystem

  /** One user, whose account has this password hash. */
  function OneUser(
    clock: int, hash: string, sessions: map<string, Session>,
    validations: map<nat, Validation>, checks: map<nat, PasswordCheck>, log: seq<Entry>): System
  {
    System(clock,
           Db(map[1 := User("A", false)], 2, map[1 := Account(1, "a@b", hash, true)], 2, map[], {}, sessions, map[]),
           validations, checks, map[], log)
  }

  lemma Registers(c: Config, hash: string)
    ensures Step(c, Fresh(map[]), Register("a@b", "A", hash))
            == OneUser(0, hash, map[], map[], map[], [PasswordSet(1, hash, None)])
  {
  }

  lemma LooksUp(c: Config, p: nat, s: System, hash: string, purpose: Purpose)
    requires s == OneUser(s.clock, hash, s.db.sessions, s.validations, s.checks, s.log)
    ensures Step(c, s, if purpose == SignIn then LoginLookup(p, 1, "a@b") else ChangeLookup(p, 1, 1))
            == s.(checks := s.checks[p := PasswordCheck(purpose, 1, |s.log|, s.clock)],
                  log := s.log + [LookedUp(1, hash)])
  {
    assert IsLoginRow(s.db, 1, "a@b") && IsPasswordRow(s.db, 1, 1);
  }

  lemma Updates(c: Config, p: nat, s: System, hash: string, to: string)
    requires s == OneUser(s.clock, hash, s.db.sessions, s.validations, s.checks, s.log)
    requires p in s.checks && s.checks[p].purpose == ChangePassword && s.checks[p].user == 1
    ensures Step(c, s, ChangeUpdate(p, to))
            == OneUser(s.clock, to, s.db.sessions, s.validations, s.checks - {p},
                       s.log + [PasswordSet(1, to, Some(s.checks[p].lookup))])
  {
    assert s.db.accounts[1].linkedUser == 1;
    assert SetHash(s.db.accounts, 1, to) == map[1 := Account(1, "a@b", to, true)];
  }

  lemma Revokes(c: Config, s: System)
    requires s.db.sessions == map[]
    ensures Step(c, s, RevokeAll(1)) == s.(log := s.log + [Revoked({})])
  {
    assert SessionsOf(map[], 1) == {};
    assert RevokeThese(map[], {}) == map[];
  }

  lemma Inserts(c: Config, p: nat, s: System, hash: string)
    requires s == OneUser(s.clock, hash, map[], s.validations, s.checks, s.log)
    requires p in s.checks && s.checks[p] == PasswordCheck(SignIn, 1, s.checks[p].lookup, s.clock)
    ensures Step(c, s, LoginInsert(p, "token", s.clock))
            == OneUser(s.clock, hash, map["token" := NewSession(c, 1, s.clock)], s.validations, s.checks - {p},
                       s.log + [SessionCreated("token", 1, s.clock, s.checks[p].lookup)])
  {
  }

  lemma Waits(c: Config, s: System, d: nat)
    ensures Step(c, s, Tick(d)) == s.(clock := s.clock + d)
  {
  }

  lemma Selects(c: Config, s: System, p: nat, token: string)
    requires SelectSession(s.db, token).Some? && !s.db.sessions[token].revoked
    ensures Step(c, s, Select(p, token))
            == s.(validations := s.validations[p := Validation(token, s.db.sessions[token], s.clock, |s.log|)])
  {
  }

  lemma Finishes(c: Config, s: System, p: nat, clock: int)
    requires p in s.validations && s.validations[p].clock <= clock <= s.clock
    requires clock < s.validations[p].row.expires && clock < s.validations[p].row.absolute
    ensures var v := s.validations[p];
            Step(c, s, Finish(p, clock))
            == s.(db := s.db.(sessions := UpdateExpiry(s.db.sessions, v.token, Slide(c, v.row.absolute, clock))),
                  validations := s.validations - {p},
                  log := s.log + [Validated(v.token, v.row.user, clock, v.selected)])
  {
  }

  /** The user registers, and logs in at time 0. */
  function LoginRun(): seq<Event> {
    [] + [Register("a@b", "A", "hash")] + [LoginLookup(0, 1, "a@b")] + [LoginInsert(0, "token", 0)]
  }

  lemma AfterLogin(c: Config)
    ensures After(c, Fresh(map[]), LoginRun())
            == OneUser(0, "hash", map["token" := NewSession(c, 1, 0)], map[], map[],
                       [PasswordSet(1, "hash", None), LookedUp(1, "hash"), SessionCreated("token", 1, 0, 1)])
  {
    var s0 := Fresh(map[]);
    var e1, e2, e3 := Register("a@b", "A", "hash"), LoginLookup(0, 1, "a@b"), LoginInsert(0, "token", 0);
    OneMore(c, s0, [], e1);
    OneMore(c, s0, [] + [e1], e2);
    OneMore(c, s0, [] + [e1] + [e2], e3);
    assert After(c, s0, []) == s0;
    hide After, Step;
    Registers(c, "hash");
    var s1 := Step(c, s0, e1);
    LooksUp(c, 0, s1, "hash", SignIn);
    var s2 := Step(c, s1, e2);
    Inserts(c, 0, s2, "hash");
    assert s2.checks - {0} == map[];
  }
}
