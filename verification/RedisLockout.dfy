/**
  The Redis form of the lockout, command by command.  An attempt sends TTL; after a wrong
  password INCR, then EXPIRE if the reply is one, or SET and DEL if it is five or more;
  after a right one DEL of both keys.  Commands of different attempts interleave freely.
*/
module RedisLockout {
  import opened Common
  import opened LoginLockout

  /** What an attempt sends next. */
  datatype Stage = Passed | OwesExpire | OwesLock | OwesDel | Over

  datatype Command =
    | Ttl(now: nat, pid: nat)
    | Incr(now: nat, pid: nat)
    | Expire(now: nat, pid: nat)
    | SetLock(now: nat, pid: nat)
    | DelFails(now: nat, pid: nat)
    | DelBoth(now: nat, pid: nat)

  /** The two keys of an email, and its attempts; a counter without an expiry lives forever. */
  datatype Keys = Keys(count: nat, expiry: Option<nat>, lockExpiry: nat, stages: map<nat, Stage>)

  const START := Keys(0, None, 0, map[])

  predicate CountLives(k: Keys, now: nat) {
    k.count > 0 && (k.expiry.None? || now < k.expiry.value)
  }

  predicate Locked(k: Keys, now: nat) { now < k.lockExpiry }

  /** The reply to INCR. */
  function Reply(k: Keys, now: nat): nat {
    if CountLives(k, now) then k.count + 1 else 1
  }

  function StageAfter(reply: nat): Stage {
    if reply == 1 then OwesExpire else if reply >= MAX_FAILURES then OwesLock else Over
  }

  /** Each attempt sends its commands in order. */
  predicate Allowed(k: Keys, c: Command) {
    match c
    case Ttl(_, p) => p !in k.stages
    case Incr(_, p) => p in k.stages && k.stages[p] == Passed
    case Expire(_, p) => p in k.stages && k.stages[p] == OwesExpire
    case SetLock(_, p) => p in k.stages && k.stages[p] == OwesLock
    case DelFails(_, p) => p in k.stages && k.stages[p] == OwesDel
    case DelBoth(_, p) => p in k.stages && k.stages[p] == Passed
  }

  function Step(k: Keys, c: Command): Keys {
    if !Allowed(k, c) then k
    else
      match c
      case Ttl(now, p) => k.(stages := k.stages[p := if Locked(k, now) then Over else Passed])
      case Incr(now, p) =>
        var n := Reply(k, now);
        Keys(n, if CountLives(k, now) then k.expiry else None, k.lockExpiry, k.stages[p := StageAfter(n)])
      case Expire(now, p) =>
        k.(expiry := if CountLives(k, now) then Some(now + FAIL_KEY_TTL) else k.expiry, stages := k.stages[p := Over])
      case SetLock(now, p) => k.(lockExpiry := now + LOCKOUT, stages := k.stages[p := OwesDel])
      case DelFails(_, p) => k.(count := 0, expiry := None, stages := k.stages[p := Over])
      case DelBoth(_, p) => Keys(0, None, 0, k.stages[p := Over])
  }

  function After(k: Keys, cs: seq<Command>): Keys {
    if |cs| == 0 then k else Step(After(k, cs[..|cs| - 1]), cs[|cs| - 1])
  }

  predicate InTimeOrder(cs: seq<Command>) {
    forall i, j :: 0 <= i < j < |cs| ==> cs[i].now <= cs[j].now
  }

  // ----- What holds in every order of commands -----

  ghost predicate SomeAt(k: Keys, stage: Stage) {
    exists p :: p in k.stages && k.stages[p] == stage
  }

  /** Five failures are on the counter only while some attempt is about to lock, or has just locked. */
  ghost predicate FiveLock(k: Keys) {
    k.count >= MAX_FAILURES ==> SomeAt(k, OwesLock) || SomeAt(k, OwesDel)
  }

  /** The counter has no expiry only while some attempt is about to set it. */
  ghost predicate CountsExpire(k: Keys) {
    k.count > 0 && k.expiry.None? ==> SomeAt(k, OwesExpire)
  }

  lemma StepKeepsFiveLock(k: Keys, c: Command)
    requires FiveLock(k)
    ensures FiveLock(Step(k, c))
  {
    var k' := Step(k, c);
    if Allowed(k, c) && k'.count >= MAX_FAILURES {
      if c.Incr? || c.SetLock? {
        assert k'.stages[c.pid] == OwesLock || k'.stages[c.pid] == OwesDel;
      } else {
        var p :| p in k.stages && (k.stages[p] == OwesLock || k.stages[p] == OwesDel);
        assert k'.stages[p] == k.stages[p];
      }
    }
  }

  lemma StepKeepsCountsExpire(k: Keys, c: Command)
    requires CountsExpire(k)
    ensures CountsExpire(Step(k, c))
  {
    var k' := Step(k, c);
    if Allowed(k, c) && k'.count > 0 && k'.expiry.None? {
      if c.Incr? && k'.count == 1 {
        assert k'.stages[c.pid] == OwesExpire;
      } else {
        var p :| p in k.stages && k.stages[p] == OwesExpire;
        assert k'.stages[p] == OwesExpire;
      }
    }
  }

  /**
    In every order of commands a counter at five or more has an attempt that is about to
    lock or has locked, and a counter without an expiry has one that is about to set it.
  */
  lemma {:induction false} NothingIsForgotten(cs: seq<Command>)
    ensures FiveLock(After(START, cs)) && CountsExpire(After(START, cs))
  {
    if |cs| > 0 {
      var before := After(START, cs[..|cs| - 1]);
      NothingIsForgotten(cs[..|cs| - 1]);
      StepKeepsFiveLock(before, cs[|cs| - 1]);
      StepKeepsCountsExpire(before, cs[|cs| - 1]);
    }
  }

  predicate LockedAt(cs: seq<Command>, i: nat)
    requires i < |cs|
  {
    Locked(After(START, cs[..i]), cs[i].now)
  }

  /** Step i sets the lock. */
  predicate LocksAt(cs: seq<Command>, i: nat)
    requires i < |cs|
  {
    cs[i].SetLock? && Allowed(After(START, cs[..i]), cs[i])
  }

  /** Between a moment without a lock and a later one with it lies the SET, as in memory. */
  lemma {:induction false} LockIsSetInBetween(cs: seq<Command>, i: nat, j: nat)
    requires InTimeOrder(cs) && i < j < |cs| && !LockedAt(cs, i) && LockedAt(cs, j)
    ensures exists k :: i <= k < j && LocksAt(cs, k)
  {
    assert cs[..j][..j - 1] == cs[..j - 1];
    if !LocksAt(cs, j - 1) {
      assert LockedAt(cs, j - 1);
      if j - 1 > i {
        LockIsSetInBetween(cs, i, j - 1);
      }
    }
  }

  lemma {:induction false} OnceIn(cs: seq<Command>, i: nat, j: nat, p: nat)
    requires i <= j <= |cs| && p in After(START, cs[..i]).stages
    ensures p in After(START, cs[..j]).stages
    ensures After(START, cs[..i]).stages[p] != Passed ==> After(START, cs[..j]).stages[p] != Passed
  {
    if i < j {
      assert cs[..j][..j - 1] == cs[..j - 1];
      OnceIn(cs, i, j - 1, p);
    }
  }

  /** A failure counted under a lock comes from an attempt that was checked before some SET. */
  lemma CountedUnderALock(cs: seq<Command>, j: nat)
    requires InTimeOrder(cs) && j < |cs| && cs[j].Incr? && Allowed(After(START, cs[..j]), cs[j]) && LockedAt(cs, j)
    ensures exists i, k :: && 0 <= i < k < j && cs[i].Ttl? && cs[i].pid == cs[j].pid
                           && !LockedAt(cs, i) && LocksAt(cs, k)
  {
    var i := CheckOf(cs, j, cs[j].pid);
    LockIsSetInBetween(cs, i, j);
    var k :| i <= k < j && LocksAt(cs, k);
  }

  /** An attempt that passed did so at its TTL, without a lock. */
  lemma {:induction false} CheckOf(cs: seq<Command>, j: nat, p: nat) returns (i: nat)
    requires j <= |cs| && p in After(START, cs[..j]).stages && After(START, cs[..j]).stages[p] == Passed
    ensures i < j && cs[i].Ttl? && cs[i].pid == p && !LockedAt(cs, i)
  {
    assert j > 0;
    assert cs[..j][..j - 1] == cs[..j - 1];
    var before := After(START, cs[..j - 1]);
    if p in before.stages && before.stages[p] == Passed {
      i := CheckOf(cs, j - 1, p);
    } else {
      i := j - 1;
    }
  }

  // ----- What does not -----

  /** `n` attempts pass their checks, and then count their failures, at the same moment. */
  function Crowd(n: nat, m: nat): (cs: seq<Command>)
    ensures |cs| == n + m
    ensures forall i :: 0 <= i < |cs| ==> cs[i].now == 0
  {
    if m > 0 then Crowd(n, m - 1) + [Incr(0, m - 1)]
    else if n > 0 then Crowd(n - 1, 0) + [Ttl(0, n - 1)]
    else []
  }

  lemma {:induction false} CrowdPasses(n: nat)
    ensures var k := After(START, Crowd(n, 0));
            && k.count == 0 && k.expiry.None? && k.lockExpiry == 0
            && (forall p :: p in k.stages ==> p < n)
            && (forall p :: 0 <= p < n ==> p in k.stages && k.stages[p] == Passed)
  {
    if n > 0 {
      assert Crowd(n, 0)[..n - 1] == Crowd(n - 1, 0);
      CrowdPasses(n - 1);
    }
  }

  /** Failures that INCR has counted. */
  function Counted(cs: seq<Command>): nat {
    if |cs| == 0 then 0
    else
      var c := cs[|cs| - 1];
      Counted(cs[..|cs| - 1]) + if c.Incr? && Allowed(After(START, cs[..|cs| - 1]), c) then 1 else 0
  }

  lemma {:induction false} CrowdCountsNothing(n: nat)
    ensures Counted(Crowd(n, 0)) == 0
  {
    if n > 0 {
      assert Crowd(n, 0)[..n - 1] == Crowd(n - 1, 0);
      CrowdCountsNothing(n - 1);
    }
  }

  lemma {:induction false} CrowdCounts(n: nat, m: nat)
    requires m <= n
    ensures var k := After(START, Crowd(n, m));
            && k.count == m && k.expiry.None? && k.lockExpiry == 0
            && (forall p :: m <= p < n ==> p in k.stages && k.stages[p] == Passed)
            && Counted(Crowd(n, m)) == m
  {
    if m == 0 {
      CrowdPasses(n);
      CrowdCountsNothing(n);
    } else {
      assert Crowd(n, m)[..n + m - 1] == Crowd(n, m - 1);
      CrowdCounts(n, m - 1);
    }
  }

  /** The bound of five does not survive: any number of failures can be counted at once, with no lock and no login. */
  lemma AnyNumberIsCounted(n: nat)
    ensures InTimeOrder(Crowd(n, n)) && Counted(Crowd(n, n)) == n
    ensures forall i :: 0 <= i < |Crowd(n, n)| ==> !Crowd(n, n)[i].SetLock? && !Crowd(n, n)[i].DelBoth?
  {
    CrowdCounts(n, n);
    OnlyChecksAndCounts(n, n);
  }

  lemma {:induction false} OnlyChecksAndCounts(n: nat, m: nat)
    ensures forall i :: 0 <= i < |Crowd(n, m)| ==> Crowd(n, m)[i].Ttl? || Crowd(n, m)[i].Incr?
  {
    if m > 0 {
      OnlyChecksAndCounts(n, m - 1);
    } else if n > 0 {
      OnlyChecksAndCounts(n - 1, 0);
    }
  }

  /** Nor does it that a login ends the lockout: a SET that was due before it comes after it. */
  lemma LoginCanBeFollowedByALateLock(k: Keys, p: nat, q: nat, now: nat)
    requires p in k.stages && k.stages[p] == OwesLock && q in k.stages && k.stages[q] == Passed
    ensures var k1 := Step(k, DelBoth(now, q));
            !Locked(k1, now) && k1.count == 0 && Locked(Step(k1, SetLock(now, p)), now)
  {
  }

  // ----- An attempt whose commands are not interrupted -----

  /** The commands of one attempt at one moment. */
  function InARow(k: Keys, p: nat, a: Attempt): seq<Command> {
    if Locked(k, a.now) then [Ttl(a.now, p)]
    else if a.correct then [Ttl(a.now, p), DelBoth(a.now, p)]
    else
      [Ttl(a.now, p), Incr(a.now, p)]
      + if Reply(k, a.now) == 1 then [Expire(a.now, p)]
        else if Reply(k, a.now) >= MAX_FAILURES then [SetLock(a.now, p), DelFails(a.now, p)]
        else []
  }

  /** The keys as the atomic form has them: an absent counter has no expiry. */
  predicate Same(k: Keys, r: Shared) {
    && k.count == r.count && k.lockExpiry == r.lockExpiry
    && (if r.count == 0 then k.expiry.None? else k.expiry == Some(r.failExpiry))
    && (r.count == 0 ==> r.failExpiry == 0)
  }

  /** Uninterrupted, the commands do to the keys what the atomic attempt does. */
  lemma AttemptInARow(k: Keys, r: Shared, p: nat, a: Attempt)
    requires Same(k, r) && p !in k.stages
    ensures Same(After(k, InARow(k, p, a)), SharedStep(r, a))
    ensures p in After(k, InARow(k, p, a)).stages && After(k, InARow(k, p, a)).stages[p] == Over
  {
    var t, i := Ttl(a.now, p), Incr(a.now, p);
    assert [] + [t] == [t] && After(k, []) == k;
    if !Locked(k, a.now) {
      if a.correct {
        assert [t] + [DelBoth(a.now, p)] == [t, DelBoth(a.now, p)];
      } else {
        assert [t] + [i] == [t, i];
        FailureInARow(k, r, p, a);
      }
    }
  }

  lemma FailureInARow(k: Keys, r: Shared, p: nat, a: Attempt)
    requires Same(k, r) && p !in k.stages && !Locked(k, a.now) && !a.correct
    requires After(k, [Ttl(a.now, p), Incr(a.now, p)]) == Step(Step(k, Ttl(a.now, p)), Incr(a.now, p))
    ensures Same(After(k, InARow(k, p, a)), SharedStep(r, a))
    ensures p in After(k, InARow(k, p, a)).stages && After(k, InARow(k, p, a)).stages[p] == Over
  {
    var two := [Ttl(a.now, p), Incr(a.now, p)];
    if Reply(k, a.now) == 1 {
      assert InARow(k, p, a) == two + [Expire(a.now, p)];
    } else if Reply(k, a.now) >= MAX_FAILURES {
      assert InARow(k, p, a) == two + [SetLock(a.now, p)] + [DelFails(a.now, p)];
    } else {
      assert InARow(k, p, a) == two;
    }
  }

  lemma {:induction false} AfterBoth(k: Keys, cs: seq<Command>, more: seq<Command>)
    ensures After(k, cs + more) == After(After(k, cs), more)
  {
    if |more| == 0 {
      assert cs + more == cs;
    } else {
      assert (cs + more)[..|cs + more| - 1] == cs + more[..|more| - 1];
      AfterBoth(k, cs, more[..|more| - 1]);
    }
  }

  /** The commands of a run of attempts, one attempt after the other. */
  function InRows(run: seq<Attempt>): seq<Command> {
    if |run| == 0 then []
    else
      var before := InRows(run[..|run| - 1]);
      before + InARow(After(START, before), |run| - 1, run[|run| - 1])
  }

  lemma {:induction false} OnlyOwnStage(k: Keys, cs: seq<Command>, p: nat, q: nat)
    requires forall i :: 0 <= i < |cs| ==> cs[i].pid == p
    ensures q != p ==> (q in After(k, cs).stages <==> q in k.stages)
  {
    if |cs| > 0 {
      OnlyOwnStage(k, cs[..|cs| - 1], p, q);
    }
  }

  /** Runs of uninterrupted attempts are the runs of atomic ones. */
  lemma {:induction false} UninterruptedRunsAreAtomic(run: seq<Attempt>)
    ensures Same(After(START, InRows(run)), SharedAfter(run))
    ensures forall p :: p in After(START, InRows(run)).stages ==> p < |run|
  {
    if |run| > 0 {
      hide Same, SharedStep, After;
      var before, a, p := InRows(run[..|run| - 1]), run[|run| - 1], |run| - 1;
      UninterruptedRunsAreAtomic(run[..|run| - 1]);
      var k := After(START, before);
      AfterBoth(START, before, InARow(k, p, a));
      AttemptInARow(k, SharedAfter(run[..|run| - 1]), p, a);
      forall q | q in After(k, InARow(k, p, a)).stages ensures q < |run| {
        assert forall i :: 0 <= i < |InARow(k, p, a)| ==> InARow(k, p, a)[i].pid == p;
        OnlyOwnStage(k, InARow(k, p, a), p, q);
      }
    }
  }
}
