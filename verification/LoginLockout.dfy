/**
  The per-email login lockout, in its in-memory form (a failure count and a deadline
  under a mutex) and its Redis form (a failure counter and a lock key, both with a
  time to live).  Emails do not share state, so runs are runs of one email.
*/
module LoginLockout {
  import opened Common

  const MINUTE: int := 60_000_000_000
  const MAX_FAILURES: nat := 5
  const LOCKOUT: int := 15 * MINUTE
  const FAIL_KEY_TTL: int := 60 * MINUTE

  // ----- The in-memory form -----

  /** An email without an entry has no failures and a deadline in the past. */
  datatype Memory = Memory(failures: nat, lockedUntil: nat)

  const NO_ENTRY := Memory(0, 0)

  predicate MemoryLocked(m: Memory, now: nat) { now < m.lockedUntil }

  /** Recording a failure; nothing is recorded while the lock holds. */
  function MemoryFail(m: Memory, now: nat): Memory {
    if MemoryLocked(m, now) then m
    else if m.failures + 1 >= MAX_FAILURES then Memory(0, now + LOCKOUT)
    else m.(failures := m.failures + 1)
  }

  // ----- The Redis form -----

  /** `count` failures until `failExpiry`, where an absent or expired key counts nothing. */
  datatype Shared = Shared(count: nat, failExpiry: nat, lockExpiry: nat)

  const NO_KEYS := Shared(0, 0, 0)

  predicate SharedLocked(r: Shared, now: nat) { now < r.lockExpiry }

  /** INCR on the failure key: the new count and when the key expires. */
  function Incremented(r: Shared, now: nat): Shared {
    if now < r.failExpiry then r.(count := r.count + 1) else r.(count := 1, failExpiry := now + FAIL_KEY_TTL)
  }

  /** INCR, EXPIRE for a new key, and at the fifth failure SET of the lock and DEL of the counter. */
  function SharedFail(r: Shared, now: nat): Shared {
    var i := Incremented(r, now);
    if i.count >= MAX_FAILURES then Shared(0, 0, now + LOCKOUT) else i
  }

  // ----- Runs of atomic login attempts -----

  /** A login attempt at a known email with a stored password. */
  datatype Attempt = Attempt(now: nat, correct: bool)

  datatype Outcome = Refused | WrongPassword | LoggedIn

  function Judge(locked: bool, a: Attempt): Outcome {
    if locked then Refused else if a.correct then LoggedIn else WrongPassword
  }

  function MemoryStep(m: Memory, a: Attempt): Memory {
    match Judge(MemoryLocked(m, a.now), a)
    case Refused => m
    case WrongPassword => MemoryFail(m, a.now)
    case LoggedIn => NO_ENTRY
  }

  function SharedStep(r: Shared, a: Attempt): Shared {
    match Judge(SharedLocked(r, a.now), a)
    case Refused => r
    case WrongPassword => SharedFail(r, a.now)
    case LoggedIn => NO_KEYS
  }

  function MemoryAfter(run: seq<Attempt>): Memory {
    if |run| == 0 then NO_ENTRY else MemoryStep(MemoryAfter(run[..|run| - 1]), run[|run| - 1])
  }

  function SharedAfter(run: seq<Attempt>): Shared {
    if |run| == 0 then NO_KEYS else SharedStep(SharedAfter(run[..|run| - 1]), run[|run| - 1])
  }

  function MemoryOutcomes(run: seq<Attempt>): (os: seq<Outcome>)
    ensures |os| == |run|
  {
    if |run| == 0 then []
    else
      var before, a := run[..|run| - 1], run[|run| - 1];
      MemoryOutcomes(before) + [Judge(MemoryLocked(MemoryAfter(before), a.now), a)]
  }

  function SharedOutcomes(run: seq<Attempt>): (os: seq<Outcome>)
    ensures |os| == |run|
  {
    if |run| == 0 then []
    else
      var before, a := run[..|run| - 1], run[|run| - 1];
      SharedOutcomes(before) + [Judge(SharedLocked(SharedAfter(before), a.now), a)]
  }

  predicate InOrder(run: seq<Attempt>) {
    forall i, j :: 0 <= i < j < |run| ==> run[i].now <= run[j].now
  }

  /** How many wrong passwords were evaluated at times `lo <= now < hi`. */
  function Evaluated(run: seq<Attempt>, os: seq<Outcome>, lo: int, hi: int): nat
    requires |os| == |run|
  {
    if |run| == 0 then 0
    else
      var a := run[|run| - 1];
      Evaluated(run[..|run| - 1], os[..|os| - 1], lo, hi)
      + if os[|os| - 1] == WrongPassword && lo <= a.now < hi then 1 else 0
  }

  predicate NoLoginIn(run: seq<Attempt>, os: seq<Outcome>, lo: int, hi: int)
    requires |os| == |run|
  {
    forall i :: 0 <= i < |run| && lo <= run[i].now < hi ==> os[i] != LoggedIn
  }

  // ----- In memory: five per quarter of an hour -----

  /** What the entry says about `n` failures counted at times from `lo` to `hi`, with no login among them. */
  ghost predicate MemoryTally(m: Memory, hi: int, n: nat) {
    && m.failures < MAX_FAILURES
    && (n <= m.failures || (n <= MAX_FAILURES && m.lockedUntil >= hi))
  }

  predicate EndsBefore(run: seq<Attempt>, t: int) {
    |run| == 0 || run[|run| - 1].now < t
  }

  /** While the run has not left the interval, its tally holds. */
  lemma {:induction false} MemoryInterval(run: seq<Attempt>, lo: int, hi: int)
    requires InOrder(run) && hi <= lo + LOCKOUT && NoLoginIn(run, MemoryOutcomes(run), lo, hi)
    ensures var m, n := MemoryAfter(run), Evaluated(run, MemoryOutcomes(run), lo, hi);
            && m.failures < MAX_FAILURES && n <= MAX_FAILURES
            && (EndsBefore(run, lo) ==> n == 0)
            && (EndsBefore(run, hi) ==> MemoryTally(m, hi, n))
  {
    if |run| > 0 {
      var before, a, os := run[..|run| - 1], run[|run| - 1], MemoryOutcomes(run);
      assert os[..|run| - 1] == MemoryOutcomes(before);
      MemoryInterval(before, lo, hi);
      assert |before| > 0 ==> run[|before| - 1].now <= a.now;
      if lo <= a.now < hi {
      }
    }
  }

  /** In memory, a half-open quarter of an hour without a login evaluates at most five wrong passwords. */
  lemma MemoryEvaluatesAtMostFive(run: seq<Attempt>, lo: int)
    requires InOrder(run) && NoLoginIn(run, MemoryOutcomes(run), lo, lo + LOCKOUT)
    ensures Evaluated(run, MemoryOutcomes(run), lo, lo + LOCKOUT) <= MAX_FAILURES
  {
    MemoryInterval(run, lo, lo + LOCKOUT);
  }

  /** Six wrong passwords at once, and one more when the lockout ends. */
  function FiveRun(now: nat, n: nat): (run: seq<Attempt>)
    ensures |run| == n
  {
    seq(n, i => Attempt(if i < 6 then now else now + LOCKOUT, false))
  }

  lemma {:induction false} FiveRunState(now: nat, n: nat)
    requires n <= 7
    ensures MemoryAfter(FiveRun(now, n)) ==
            if n < 5 then Memory(n, 0) else if n < 7 then Memory(0, now + LOCKOUT) else Memory(1, now + LOCKOUT)
    ensures forall i :: 0 <= i < n ==>
              MemoryOutcomes(FiveRun(now, n))[i] == if i == 5 then Refused else WrongPassword
    ensures Evaluated(FiveRun(now, n), MemoryOutcomes(FiveRun(now, n)), now, now + LOCKOUT) == if n < 5 then n else 5
  {
    if n > 0 {
      var run := FiveRun(now, n);
      assert run[..n - 1] == FiveRun(now, n - 1);
      FiveRunState(now, n - 1);
      assert MemoryOutcomes(run)[..n - 1] == MemoryOutcomes(FiveRun(now, n - 1));
    }
  }

  /** Five is reached from any time on: the sixth attempt is refused, one at the end of the lockout is not. */
  lemma FiveIsReached(now: nat)
    ensures var run := FiveRun(now, 7);
            var os := MemoryOutcomes(run);
            && InOrder(run) && NoLoginIn(run, os, now, now + LOCKOUT)
            && Evaluated(run, os, now, now + LOCKOUT) == MAX_FAILURES
            && os[5] == Refused && run[6].now == now + LOCKOUT && os[6] == WrongPassword
  {
    FiveRunState(now, 7);
  }

  lemma {:induction false} EvaluatedSplits(run: seq<Attempt>, os: seq<Outcome>, lo: int, mid: int, hi: int)
    requires |os| == |run| && lo <= mid <= hi
    ensures Evaluated(run, os, lo, hi) == Evaluated(run, os, lo, mid) + Evaluated(run, os, mid, hi)
    ensures lo == hi ==> Evaluated(run, os, lo, hi) == 0
  {
    if |run| > 0 {
      EvaluatedSplits(run[..|run| - 1], os[..|os| - 1], lo, mid, hi);
    }
  }

  /** Quarters of an hour begun in a span. */
  function Quarters(span: nat): nat {
    if span == 0 then 0 else if span <= LOCKOUT then 1 else 1 + Quarters(span - LOCKOUT)
  }

  lemma {:induction false} QuartersIsCeiling(span: nat)
    ensures Quarters(span) == (span + LOCKOUT - 1) / LOCKOUT
  {
    if span > LOCKOUT {
      QuartersIsCeiling(span - LOCKOUT);
    }
  }

  /** Where every interval of one lockout evaluates at most five, a span evaluates five per quarter begun. */
  lemma {:induction false} SpanByQuarters(run: seq<Attempt>, os: seq<Outcome>, lo: int, span: nat)
    requires |os| == |run|
    requires forall l, h :: lo <= l <= h <= lo + span && h <= l + LOCKOUT ==> Evaluated(run, os, l, h) <= MAX_FAILURES
    ensures Evaluated(run, os, lo, lo + span) <= MAX_FAILURES * Quarters(span)
    decreases span
  {
    if span == 0 {
      EvaluatedSplits(run, os, lo, lo, lo);
    } else if span > LOCKOUT {
      EvaluatedSplits(run, os, lo, lo + LOCKOUT, lo + span);
      SpanByQuarters(run, os, lo + LOCKOUT, span - LOCKOUT);
    }
  }

  /** A span without a login evaluates at most five wrong passwords per quarter of an hour begun. */
  lemma MemorySpan(run: seq<Attempt>, lo: int, span: nat)
    requires InOrder(run) && NoLoginIn(run, MemoryOutcomes(run), lo, lo + span)
    ensures Evaluated(run, MemoryOutcomes(run), lo, lo + span) <= MAX_FAILURES * ((span + LOCKOUT - 1) / LOCKOUT)
  {
    var os := MemoryOutcomes(run);
    forall l, h | lo <= l <= h <= lo + span && h <= l + LOCKOUT ensures Evaluated(run, os, l, h) <= MAX_FAILURES {
      MemoryInterval(run, l, h);
    }
    SpanByQuarters(run, os, lo, span);
    QuartersIsCeiling(span);
  }

  // ----- In memory: the steps of different attempts interleave -----

  /**
    The steps of concurrent attempts: looking for the entry of the email, and reading it
    under its mutex, which make up the lock check; finding or storing the entry to record
    a failure in; recording it under the entry's mutex; and dropping the entry after a
    login.  An attempt that found its entry before a login dropped it reads or records in
    an entry that nobody else will find.
  */
  datatype Op =
    | Peek(now: nat, pid: nat)
    | Read(now: nat, pid: nat)
    | Load(now: nat, pid: nat)
    | Fail(now: nat, pid: nat)
    | Clear(now: nat)

  /**
    All entries that the email ever had, of which the last may be in place; and which
    entry each attempt found in its check, if any, and then to record its failure in.
  */
  datatype Shelf = Shelf(entries: seq<Memory>, inPlace: bool, peeked: map<nat, Option<nat>>, found: map<nat, nat>)

  predicate InPlace(s: Shelf, g: nat) {
    s.inPlace && g == |s.entries| - 1
  }

  predicate SomeInPlace(s: Shelf) {
    s.inPlace && |s.entries| > 0
  }

  /** The entry in place; an absent one counts nothing. */
  function Entry(s: Shelf): Memory {
    if SomeInPlace(s) then s.entries[|s.entries| - 1] else NO_ENTRY
  }

  function OpStep(s: Shelf, op: Op): Shelf {
    match op
    case Peek(_, pid) =>
      s.(peeked := s.peeked[pid := if SomeInPlace(s) then Some(|s.entries| - 1) else None])
    case Read(_, _) => s
    case Load(_, pid) =>
      if SomeInPlace(s) then s.(found := s.found[pid := |s.entries| - 1])
      else Shelf(s.entries + [NO_ENTRY], true, s.peeked, s.found[pid := |s.entries|])
    case Fail(now, pid) =>
      if pid in s.found && s.found[pid] < |s.entries|
      then s.(entries := s.entries[s.found[pid] := MemoryFail(s.entries[s.found[pid]], now)]) else s
    case Clear(_) => s.(inPlace := false)
  }

  function OpsAfter(ops: seq<Op>): Shelf {
    if |ops| == 0 then Shelf([], false, map[], map[]) else OpStep(OpsAfter(ops[..|ops| - 1]), ops[|ops| - 1])
  }

  /** Step k meets a locked email. */
  predicate LockedAt(ops: seq<Op>, k: nat)
    requires k < |ops|
  {
    MemoryLocked(Entry(OpsAfter(ops[..k])), ops[k].now)
  }

  /** The check that ends with step k lets its attempt through: it found no entry, or read one that is not locked. */
  predicate PassesAt(ops: seq<Op>, k: nat)
    requires k < |ops| && ops[k].Read?
  {
    var s := OpsAfter(ops[..k]);
    && ops[k].pid in s.peeked
    && (s.peeked[ops[k].pid].Some? ==>
          s.peeked[ops[k].pid].value < |s.entries| && !MemoryLocked(s.entries[s.peeked[ops[k].pid].value], ops[k].now))
  }

  /** The failure of step k goes to the entry in place. */
  predicate ReachesEntry(ops: seq<Op>, k: nat)
    requires k < |ops| && ops[k].Fail?
  {
    var s := OpsAfter(ops[..k]);
    ops[k].pid in s.found && InPlace(s, s.found[ops[k].pid])
  }

  /** Step k is a counted failure. */
  predicate CountedAt(ops: seq<Op>, k: nat)
    requires k < |ops|
  {
    ops[k].Fail? && ReachesEntry(ops, k) && !LockedAt(ops, k)
  }

  /** Step k is the counted failure that sets the lock. */
  predicate LocksAt(ops: seq<Op>, k: nat)
    requires k < |ops|
  {
    CountedAt(ops, k) && Entry(OpsAfter(ops[..k])).failures == MAX_FAILURES - 1
  }

  predicate OpsInOrder(ops: seq<Op>) {
    forall i, j :: 0 <= i < j < |ops| ==> ops[i].now <= ops[j].now
  }

  /** Failures that were counted at times `lo <= now < hi`. */
  function Counted(ops: seq<Op>, lo: int, hi: int): nat {
    if |ops| == 0 then 0
    else
      var op := ops[|ops| - 1];
      Counted(ops[..|ops| - 1], lo, hi) + if lo <= op.now < hi && CountedAt(ops, |ops| - 1) then 1 else 0
  }

  predicate OpsEndBefore(ops: seq<Op>, t: int) {
    |ops| == 0 || ops[|ops| - 1].now < t
  }

  predicate NoClearIn(ops: seq<Op>, lo: int, hi: int) {
    forall i :: 0 <= i < |ops| && lo <= ops[i].now < hi ==> !ops[i].Clear?
  }

  lemma {:induction false} CountedInterval(ops: seq<Op>, lo: int)
    requires OpsInOrder(ops) && NoClearIn(ops, lo, lo + LOCKOUT)
    ensures var m, n := Entry(OpsAfter(ops)), Counted(ops, lo, lo + LOCKOUT);
            && m.failures < MAX_FAILURES && n <= MAX_FAILURES
            && (OpsEndBefore(ops, lo) ==> n == 0)
            && (OpsEndBefore(ops, lo + LOCKOUT) ==> MemoryTally(m, lo + LOCKOUT, n))
  {
    if |ops| > 0 {
      var before, op := ops[..|ops| - 1], ops[|ops| - 1];
      hide OpStep, Entry;
      CountedInterval(before, lo);
      assert |before| > 0 ==> ops[|before| - 1].now <= op.now;
      if lo <= op.now < lo + LOCKOUT {
      }
    }
  }

  /** However the steps interleave, a quarter of an hour without a dropped entry counts at most five failures. */
  lemma InterleavedCountsAtMostFive(ops: seq<Op>, lo: int)
    requires OpsInOrder(ops) && NoClearIn(ops, lo, lo + LOCKOUT)
    ensures Counted(ops, lo, lo + LOCKOUT) <= MAX_FAILURES
  {
    CountedInterval(ops, lo);
  }

  /** Between a check that passes and a later locked step lies the counted failure that set the lock. */
  lemma {:induction false} LockIsSetInBetween(ops: seq<Op>, i: nat, j: nat)
    requires OpsInOrder(ops) && i < j < |ops|
    requires !LockedAt(ops, i) && LockedAt(ops, j)
    ensures exists k :: i <= k < j && LocksAt(ops, k)
  {
    CountedInterval(ops[..j - 1], -LOCKOUT);
    assert ops[..j][..j - 1] == ops[..j - 1];
    if !LocksAt(ops, j - 1) {
      assert LockedAt(ops, j - 1);
      if j - 1 > i {
        LockIsSetInBetween(ops, i, j - 1);
      }
    }
  }

  /** An entry that was in place stays there until a login drops it. */
  lemma {:induction false} PlacedUntilDropped(ops: seq<Op>, l: nat, j: nat, g: nat)
    requires l < j <= |ops| && InPlace(OpsAfter(ops[..l + 1]), g)
    ensures !InPlace(OpsAfter(ops[..j]), g) ==> exists k :: l < k < j && ops[k].Clear?
  {
    if j - 1 > l {
      assert ops[..j][..j - 1] == ops[..j - 1];
      PlacedUntilDropped(ops, l, j - 1, g);
    }
  }

  /** The step of an attempt finds what is in place; steps of others leave its finds alone. */
  lemma StepFinds(s: Shelf, op: Op, pid: nat)
    ensures var s' := OpStep(s, op);
            && (op.Load? && op.pid == pid ==> pid in s'.found && InPlace(s', s'.found[pid]))
            && (op.Peek? && op.pid == pid ==>
                  pid in s'.peeked && if SomeInPlace(s) then s'.peeked[pid] == Some(|s'.entries| - 1) && s'.inPlace
                                      else s'.peeked[pid].None?)
            && (!(op.Load? && op.pid == pid) && pid in s.found ==> pid in s'.found && s'.found[pid] == s.found[pid])
            && (!(op.Peek? && op.pid == pid) && pid in s.peeked ==> pid in s'.peeked && s'.peeked[pid] == s.peeked[pid])
  {
  }

  /** What an attempt loads is in place at that moment, and is what it goes on with. */
  lemma {:induction false} LoadedStays(ops: seq<Op>, l: nat, j: nat, pid: nat)
    requires l < j <= |ops| && ops[l].Load? && ops[l].pid == pid
    requires forall k :: l < k < j && ops[k].Load? ==> ops[k].pid != pid
    ensures var s, s' := OpsAfter(ops[..l + 1]), OpsAfter(ops[..j]);
            pid in s.found && InPlace(s, s.found[pid]) && pid in s'.found && s'.found[pid] == s.found[pid]
  {
    hide OpStep;
    assert ops[..j][..j - 1] == ops[..j - 1];
    StepFinds(OpsAfter(ops[..j - 1]), ops[j - 1], pid);
    if j - 1 > l {
      LoadedStays(ops, l, j - 1, pid);
    }
  }

  /** What an attempt peeks at is in place at that moment, if anything is, and is what it reads. */
  lemma {:induction false} PeekedStays(ops: seq<Op>, p: nat, i: nat, pid: nat)
    requires p < i <= |ops| && ops[p].Peek? && ops[p].pid == pid
    requires forall k :: p < k < i && ops[k].Peek? ==> ops[k].pid != pid
    ensures var s, s' := OpsAfter(ops[..p + 1]), OpsAfter(ops[..i]);
            && pid in s.peeked && pid in s'.peeked && s'.peeked[pid] == s.peeked[pid]
            && (s.peeked[pid].Some? ==> InPlace(s, s.peeked[pid].value))
            && (s.peeked[pid].None? ==> !SomeInPlace(OpsAfter(ops[..p])))
  {
    hide OpStep;
    assert ops[..i][..i - 1] == ops[..i - 1];
    StepFinds(OpsAfter(ops[..i - 1]), ops[i - 1], pid);
    if i - 1 > p {
      PeekedStays(ops, p, i - 1, pid);
    }
  }

  /** An attempt whose failure misses the entry in place found its own before some login dropped it. */
  lemma EntryIsDroppedInBetween(ops: seq<Op>, l: nat, j: nat)
    requires l < j < |ops| && ops[l].Load? && ops[j].Fail? && ops[l].pid == ops[j].pid
    requires forall k :: l < k < j && ops[k].Load? ==> ops[k].pid != ops[j].pid
    ensures !ReachesEntry(ops, j) ==> exists k :: l < k < j && ops[k].Clear?
  {
    LoadedStays(ops, l, j, ops[j].pid);
    PlacedUntilDropped(ops, l, j, OpsAfter(ops[..l + 1]).found[ops[j].pid]);
  }

  /** A check that passes under a lock found no entry, or one that a login dropped before it was read. */
  lemma PassedUnderALock(ops: seq<Op>, p: nat, i: nat)
    requires p < i < |ops| && ops[p].Peek? && ops[i].Read? && ops[p].pid == ops[i].pid
    requires forall k :: p < k < i && ops[k].Peek? ==> ops[k].pid != ops[i].pid
    requires PassesAt(ops, i) && LockedAt(ops, i)
    ensures !SomeInPlace(OpsAfter(ops[..p])) || exists k :: p < k < i && ops[k].Clear?
  {
    PeekedStays(ops, p, i, ops[i].pid);
    var peeked := OpsAfter(ops[..p + 1]).peeked[ops[i].pid];
    if peeked.Some? {
      PlacedUntilDropped(ops, p, i, peeked.value);
    }
  }

  /**
    A failure that is not counted is one of four kinds.  The lock was set after its
    attempt was checked; or, where the check found no entry, after it looked; or the
    check read an entry that a login had just dropped; or its failure did.
  */
  lemma UncountedFailure(ops: seq<Op>, p: nat, i: nat, l: nat, j: nat)
    requires OpsInOrder(ops) && p < i < l < j < |ops|
    requires ops[p].Peek? && ops[i].Read? && ops[l].Load? && ops[j].Fail?
    requires ops[p].pid == ops[i].pid == ops[l].pid == ops[j].pid
    requires forall k :: p < k < i && ops[k].Peek? ==> ops[k].pid != ops[i].pid
    requires forall k :: l < k < j && ops[k].Load? ==> ops[k].pid != ops[j].pid
    requires PassesAt(ops, i) && !CountedAt(ops, j)
    ensures || (exists k :: i <= k < j && LocksAt(ops, k))
            || (!SomeInPlace(OpsAfter(ops[..p])) && exists k :: p <= k < i && LocksAt(ops, k))
            || (exists k :: p < k < i && ops[k].Clear?)
            || (exists k :: l < k < j && ops[k].Clear?)
  {
    if !LockedAt(ops, j) {
      EntryIsDroppedInBetween(ops, l, j);
    } else if !LockedAt(ops, i) {
      LockIsSetInBetween(ops, i, j);
    } else {
      PassedUnderALock(ops, p, i);
      if !SomeInPlace(OpsAfter(ops[..p])) {
        LockIsSetInBetween(ops, p, i);
      }
    }
  }

  // ----- Redis: eight per quarter of an hour -----

  /**
    Three cases for the failures `n` since `lo`: a lock was set since then; the failure
    key is older than the interval, so that its first count lies before it; or the key
    began in the interval, after at most three that an expired key took with it.
  */
  ghost predicate SharedTally(r: Shared, lo: int, n: nat) {
    && r.count < MAX_FAILURES
    && (r.count == 0 ==> r.failExpiry == 0)
    && n <= 8
    && (|| r.lockExpiry >= lo + LOCKOUT
        || (r.failExpiry < lo + FAIL_KEY_TTL && n <= 3 && n <= if r.count == 0 then 0 else r.count - 1)
        || (r.failExpiry >= lo + FAIL_KEY_TTL && n <= 3 + r.count))
  }

  /** The tally before any attempt of the interval. */
  ghost predicate SharedStart(r: Shared, lo: int) {
    && r.count < MAX_FAILURES
    && (r.count == 0 ==> r.failExpiry == 0)
    && (r.count == 0 || r.failExpiry < lo + FAIL_KEY_TTL)
  }

  lemma SharedStepBefore(r: Shared, lo: int, a: Attempt)
    requires SharedStart(r, lo) && a.now < lo
    ensures SharedStart(SharedStep(r, a), lo)
  {
  }

  lemma SharedStepTallies(r: Shared, lo: int, n: nat, a: Attempt)
    requires lo <= a.now < lo + LOCKOUT && SharedTally(r, lo, n)
    requires Judge(SharedLocked(r, a.now), a) != LoggedIn
    ensures SharedTally(SharedStep(r, a), lo, if Judge(SharedLocked(r, a.now), a) == WrongPassword then n + 1 else n)
  {
  }

  lemma {:induction false} SharedInterval(run: seq<Attempt>, lo: int)
    requires InOrder(run) && NoLoginIn(run, SharedOutcomes(run), lo, lo + LOCKOUT)
    ensures var r, n := SharedAfter(run), Evaluated(run, SharedOutcomes(run), lo, lo + LOCKOUT);
            && n <= 8
            && (EndsBefore(run, lo) ==> n == 0 && SharedStart(r, lo))
            && (EndsBefore(run, lo + LOCKOUT) ==> SharedTally(r, lo, n))
  {
    if |run| > 0 {
      var before, a, os := run[..|run| - 1], run[|run| - 1], SharedOutcomes(run);
      assert os[..|run| - 1] == SharedOutcomes(before);
      SharedInterval(before, lo);
      assert |before| > 0 ==> run[|before| - 1].now <= a.now;
      var n := Evaluated(before, SharedOutcomes(before), lo, lo + LOCKOUT);
      if a.now < lo {
        SharedStepBefore(SharedAfter(before), lo, a);
      } else if a.now < lo + LOCKOUT {
        SharedStepTallies(SharedAfter(before), lo, n, a);
      }
    }
  }

  /** In Redis, a half-open quarter of an hour without a login evaluates at most eight wrong passwords. */
  lemma SharedEvaluatesAtMostEight(run: seq<Attempt>, lo: int)
    requires InOrder(run) && NoLoginIn(run, SharedOutcomes(run), lo, lo + LOCKOUT)
    ensures Evaluated(run, SharedOutcomes(run), lo, lo + LOCKOUT) <= 8
  {
    SharedInterval(run, lo);
  }

  /** One failure opens the counter; three more come just before it expires, five right after. */
  function EightRun(n: nat): (run: seq<Attempt>)
    ensures |run| == n
  {
    seq(n, i => Attempt(if i == 0 then 0 else if i < 4 then FAIL_KEY_TTL - 1 else FAIL_KEY_TTL, false))
  }

  lemma {:induction false} EightRunState(n: nat)
    requires n <= 9
    ensures SharedAfter(EightRun(n)) ==
            if n == 0 then NO_KEYS
            else if n <= 4 then Shared(n, FAIL_KEY_TTL, 0)
            else if n <= 8 then Shared(n - 4, 2 * FAIL_KEY_TTL, 0)
            else Shared(0, 0, FAIL_KEY_TTL + LOCKOUT)
    ensures var os := SharedOutcomes(EightRun(n));
            && (forall i :: 0 <= i < n ==> os[i] == WrongPassword)
            && Evaluated(EightRun(n), os, FAIL_KEY_TTL - 1, FAIL_KEY_TTL - 1 + LOCKOUT) == if n == 0 then 0 else n - 1
  {
    if n > 0 {
      var run := EightRun(n);
      assert run[..n - 1] == EightRun(n - 1);
      EightRunState(n - 1);
      assert SharedOutcomes(run)[..n - 1] == SharedOutcomes(EightRun(n - 1));
    }
  }

  /** The run that reaches eight, in the quarter of an hour from just before the key expires. */
  lemma EightIsReached()
    ensures var run, lo := EightRun(9), FAIL_KEY_TTL - 1;
            && InOrder(run) && NoLoginIn(run, SharedOutcomes(run), lo, lo + LOCKOUT)
            && Evaluated(run, SharedOutcomes(run), lo, lo + LOCKOUT) == 8
  {
    EightRunState(9);
  }

  // ----- Redis: when five is enough -----

  /** Without a login in it, the quarter of an hour from `lo` evaluates at most five wrong passwords on Redis. */
  ghost predicate AtMostFive(run: seq<Attempt>, lo: int) {
    NoLoginIn(run, SharedOutcomes(run), lo, lo + LOCKOUT) ==>
      Evaluated(run, SharedOutcomes(run), lo, lo + LOCKOUT) <= MAX_FAILURES
  }

  /** A failure key with one to three failures expires inside the quarter of an hour from `lo`. */
  predicate KeyExpiresInside(r: Shared, lo: int) {
    1 <= r.count <= 3 && lo < r.failExpiry < lo + LOCKOUT
  }

  /** While a failure key counts anything, no lock is in force: what locked ended before the key began. */
  lemma {:induction false} CountingIsUnlocked(run: seq<Attempt>)
    requires InOrder(run)
    ensures var r := SharedAfter(run); r.count > 0 ==> |run| > 0 && r.lockExpiry <= run[|run| - 1].now
  {
    if |run| > 0 {
      var before := run[..|run| - 1];
      CountingIsUnlocked(before);
      assert |before| > 0 ==> before[|before| - 1].now <= run[|run| - 1].now;
    }
  }

  /**
    Three cases for the failures `n` since `lo`: a lock was set since then; the failure
    key outlives the interval and counts them all; or there are none, and the next one
    sets a lock or opens a new key.
  */
  ghost predicate FiveTally(r: Shared, lo: int, n: nat) {
    && r.count < MAX_FAILURES && (r.count == 0 ==> r.failExpiry == 0) && n <= MAX_FAILURES
    && (|| r.lockExpiry >= lo + LOCKOUT
        || (r.failExpiry >= lo + LOCKOUT && n <= r.count)
        || (n == 0 && (r.count == 0 || r.failExpiry <= lo || r.count == MAX_FAILURES - 1)))
  }

  lemma FiveStepTallies(r: Shared, lo: int, n: nat, a: Attempt)
    requires lo <= a.now < lo + LOCKOUT && FiveTally(r, lo, n)
    requires Judge(SharedLocked(r, a.now), a) != LoggedIn
    ensures FiveTally(SharedStep(r, a), lo, if Judge(SharedLocked(r, a.now), a) == WrongPassword then n + 1 else n)
  {
  }

  /** A run that goes on after `before`, with attempts from `lo` on. */
  predicate GoesOn(before: seq<Attempt>, run: seq<Attempt>, lo: int) {
    before <= run && InOrder(run) && forall i :: |before| <= i < |run| ==> lo <= run[i].now
  }

  lemma OneMoreAttempt(run: seq<Attempt>, a: Attempt)
    ensures SharedAfter(run + [a]) == SharedStep(SharedAfter(run), a)
    ensures SharedOutcomes(run + [a]) == SharedOutcomes(run) + [Judge(SharedLocked(SharedAfter(run), a.now), a)]
    ensures forall lo, hi :: Evaluated(run + [a], SharedOutcomes(run + [a]), lo, hi)
              == Evaluated(run, SharedOutcomes(run), lo, hi)
                 + if !SharedLocked(SharedAfter(run), a.now) && !a.correct && lo <= a.now < hi then 1 else 0
  {
    assert (run + [a])[..|run|] == run;
    assert SharedOutcomes(run + [a])[..|run|] == SharedOutcomes(run);
  }

  lemma OneLessGoesOn(before: seq<Attempt>, run: seq<Attempt>, lo: int)
    requires GoesOn(before, run, lo) && run != before
    ensures |run| > |before| && GoesOn(before, run[..|run| - 1], lo) && lo <= run[|run| - 1].now
    ensures EndsBefore(run, lo + LOCKOUT) ==> EndsBefore(run[..|run| - 1], lo + LOCKOUT)
    ensures run == run[..|run| - 1] + [run[|run| - 1]]
  {
    assert |run| > 1 ==> run[|run| - 2].now <= run[|run| - 1].now;
  }

  lemma OneMoreGoesOn(before: seq<Attempt>, run: seq<Attempt>, a: Attempt, lo: int)
    requires GoesOn(before, run, lo) && lo <= a.now && (|run| > 0 ==> run[|run| - 1].now <= a.now)
    ensures GoesOn(before, run + [a], lo)
  {
  }

  /** A run that ends before an interval has neither logins nor evaluations in it. */
  lemma NothingInside(run: seq<Attempt>, lo: int)
    requires InOrder(run) && EndsBefore(run, lo)
    ensures NoLoginIn(run, SharedOutcomes(run), lo, lo + LOCKOUT)
    ensures Evaluated(run, SharedOutcomes(run), lo, lo + LOCKOUT) == 0 && SharedStart(SharedAfter(run), lo)
  {
    assert forall i :: 0 <= i < |run| ==> run[i].now <= run[|run| - 1].now;
    SharedInterval(run, lo);
  }

  lemma {:induction false} FiveInterval(before: seq<Attempt>, run: seq<Attempt>, lo: int)
    requires InOrder(before) && GoesOn(before, run, lo) && EndsBefore(before, lo)
    requires !KeyExpiresInside(SharedAfter(before), lo)
    requires NoLoginIn(run, SharedOutcomes(run), lo, lo + LOCKOUT)
    ensures var n := Evaluated(run, SharedOutcomes(run), lo, lo + LOCKOUT);
            n <= MAX_FAILURES && (EndsBefore(run, lo + LOCKOUT) ==> FiveTally(SharedAfter(run), lo, n))
    decreases |run|
  {
    hide SharedAfter, SharedOutcomes, Evaluated, GoesOn, SharedStep;
    if run == before {
      NothingInside(before, lo);
    } else {
      OneLessGoesOn(before, run, lo);
      var shorter, a, os := run[..|run| - 1], run[|run| - 1], SharedOutcomes(run);
      OneMoreAttempt(shorter, a);
      FiveInterval(before, shorter, lo);
      if a.now < lo + LOCKOUT {
        FiveStepTallies(SharedAfter(shorter), lo, Evaluated(shorter, SharedOutcomes(shorter), lo, lo + LOCKOUT), a);
      }
    }
  }

  /** After `before`, a key that counts one to three reaches four just before it expires; then come five more. */
  function Burst(before: seq<Attempt>, n: nat): (run: seq<Attempt>)
    ensures |run| == |before| + n && before <= run
  {
    if n == 0 then before
    else
      var r := SharedAfter(before);
      var now: nat := if r.count + n <= 4 && r.failExpiry > 0 then r.failExpiry - 1 else r.failExpiry;
      Burst(before, n - 1) + [Attempt(now, false)]
  }

  /** The keys after n attempts of the burst. */
  function BurstKeys(r: Shared, n: nat): Shared {
    if r.count + n <= 4 then r.(count := r.count + n)
    else if r.count + n < 9 then Shared(r.count + n - 4, r.failExpiry + FAIL_KEY_TTL, r.lockExpiry)
    else Shared(0, 0, r.failExpiry + LOCKOUT)
  }

  lemma BurstStep(r: Shared, lo: nat, n: nat, a: Attempt)
    requires KeyExpiresInside(r, lo) && r.lockExpiry < lo && 0 < n <= 9 - r.count && !a.correct
    requires a.now == if r.count + n <= 4 then r.failExpiry - 1 else r.failExpiry
    ensures SharedStep(BurstKeys(r, n - 1), a) == BurstKeys(r, n) && !SharedLocked(BurstKeys(r, n - 1), a.now)
    ensures lo <= a.now < lo + LOCKOUT
  {
  }

  lemma {:induction false} BurstState(before: seq<Attempt>, lo: nat, n: nat)
    requires InOrder(before) && EndsBefore(before, lo) && KeyExpiresInside(SharedAfter(before), lo)
    requires n <= 9 - SharedAfter(before).count
    ensures var r, run := SharedAfter(before), Burst(before, n);
            && SharedAfter(run) == BurstKeys(r, n)
            && NoLoginIn(run, SharedOutcomes(run), lo, lo + LOCKOUT)
            && Evaluated(run, SharedOutcomes(run), lo, lo + LOCKOUT) == n
            && GoesOn(before, run, lo)
            && (n > 0 ==> run[|run| - 1].now == if r.count + n <= 4 then r.failExpiry - 1 else r.failExpiry)
  {
    hide SharedAfter, SharedOutcomes, Evaluated;
    CountingIsUnlocked(before);
    if n == 0 {
      NothingInside(before, lo);
      assert GoesOn(before, before, lo);
      assert BurstKeys(SharedAfter(before), 0) == SharedAfter(before);
    } else {
      BurstState(before, lo, n - 1);
      var shorter, a := Burst(before, n - 1), Burst(before, n)[|before| + n - 1];
      OneMoreAttempt(shorter, a);
      BurstStep(SharedAfter(before), lo, n, a);
      OneMoreGoesOn(before, shorter, a, lo);
    }
  }

  /** A key that expires inside with one to three failures lets six to eight wrong passwords through. */
  lemma BurstExceedsFive(before: seq<Attempt>, lo: nat)
    requires InOrder(before) && EndsBefore(before, lo) && KeyExpiresInside(SharedAfter(before), lo)
    ensures var run := Burst(before, 9 - SharedAfter(before).count);
            GoesOn(before, run, lo) && !AtMostFive(run, lo)
  {
    hide SharedAfter, SharedOutcomes, Evaluated, Burst, BurstKeys, GoesOn;
    BurstState(before, lo, 9 - SharedAfter(before).count);
  }

  /**
    Five is kept by every continuation of what happened before `lo` if and only if no
    failure key with one to three failures expires inside the quarter of an hour.
  */
  lemma RedisKeepsFiveExactlyWhen(before: seq<Attempt>, lo: nat)
    requires InOrder(before) && EndsBefore(before, lo)
    ensures (forall run :: GoesOn(before, run, lo) ==> AtMostFive(run, lo))
            <==> !KeyExpiresInside(SharedAfter(before), lo)
  {
    if KeyExpiresInside(SharedAfter(before), lo) {
      BurstExceedsFive(before, lo);
    } else {
      forall run | GoesOn(before, run, lo) ensures AtMostFive(run, lo) {
        if NoLoginIn(run, SharedOutcomes(run), lo, lo + LOCKOUT) {
          FiveInterval(before, run, lo);
        }
      }
    }
  }

  // ----- The two forms agree while no failure key expires -----

  /** No wrong password of the run meets a failure key that has reached its expiry. */
  predicate NoFailKeyExpires(run: seq<Attempt>) {
    |run| == 0 ||
    var before, a := run[..|run| - 1], run[|run| - 1];
    var r := SharedAfter(before);
    && NoFailKeyExpires(before)
    && (Judge(SharedLocked(r, a.now), a) == WrongPassword && r.count > 0 ==> a.now < r.failExpiry)
  }

  /** Without an expiry, the two forms refuse, reject and admit exactly the same attempts. */
  lemma {:induction false} StoresAgree(run: seq<Attempt>)
    requires NoFailKeyExpires(run)
    ensures SharedOutcomes(run) == MemoryOutcomes(run)
    ensures var m, r := MemoryAfter(run), SharedAfter(run);
            m.failures == r.count && m.lockedUntil == r.lockExpiry && (r.count == 0 ==> r.failExpiry == 0)
  {
    if |run| > 0 {
      StoresAgree(run[..|run| - 1]);
    }
  }

  /** All attempts of the run lie less than `d` apart. */
  predicate Short(run: seq<Attempt>, d: int) {
    forall i, j :: 0 <= i < |run| && 0 <= j < |run| ==> run[j].now - run[i].now < d
  }

  /** A counting key began with an attempt of the run. */
  lemma {:induction false} KeyBeganInTheRun(run: seq<Attempt>)
    ensures var r := SharedAfter(run);
            if r.count == 0 then r.failExpiry == 0
            else exists i :: 0 <= i < |run| && r.failExpiry == run[i].now + FAIL_KEY_TTL
  {
    if |run| > 0 {
      KeyBeganInTheRun(run[..|run| - 1]);
      var r := SharedAfter(run[..|run| - 1]);
      if r.count > 0 {
        var i :| 0 <= i < |run| - 1 && r.failExpiry == run[..|run| - 1][i].now + FAIL_KEY_TTL;
        assert run[i] == run[..|run| - 1][i];
      }
    }
  }

  lemma {:induction false} ShortRunsKeepTheirKey(run: seq<Attempt>)
    requires Short(run, FAIL_KEY_TTL)
    ensures NoFailKeyExpires(run)
  {
    if |run| > 0 {
      var before := run[..|run| - 1];
      ShortRunsKeepTheirKey(before);
      KeyBeganInTheRun(before);
      if SharedAfter(before).count > 0 {
        var i :| 0 <= i < |before| && SharedAfter(before).failExpiry == before[i].now + FAIL_KEY_TTL;
        assert run[i] == before[i];
      }
    }
  }

  /** One failure, four more after the key expired, then the fifth since: only Redis still answers. */
  function ExpiredRun(n: nat): (run: seq<Attempt>)
    ensures |run| == n
  {
    seq(n, i => Attempt(if i == 0 then 0 else FAIL_KEY_TTL, false))
  }

  lemma {:induction false} ExpiredRunState(n: nat)
    requires n <= 5
    ensures SharedAfter(ExpiredRun(n)) ==
            if n == 0 then NO_KEYS
            else if n == 1 then Shared(1, FAIL_KEY_TTL, 0)
            else Shared(n - 1, 2 * FAIL_KEY_TTL, 0)
    ensures MemoryAfter(ExpiredRun(n)) == if n < 5 then Memory(n, 0) else Memory(0, FAIL_KEY_TTL + LOCKOUT)
  {
    if n > 0 {
      assert ExpiredRun(n)[..n - 1] == ExpiredRun(n - 1);
      ExpiredRunState(n - 1);
    }
  }

  /** Six attempts over exactly the lifetime of a failure key, the last of which only Redis answers. */
  lemma ExpiryMakesThemDiffer()
    ensures InOrder(ExpiredRun(6)) && Short(ExpiredRun(6), FAIL_KEY_TTL + 1)
    ensures SharedOutcomes(ExpiredRun(6)) != MemoryOutcomes(ExpiredRun(6))
  {
    var run := ExpiredRun(6);
    assert run[..5] == ExpiredRun(5);
    ExpiredRunState(5);
    assert SharedOutcomes(run)[5] == WrongPassword && MemoryOutcomes(run)[5] == Refused;
  }

  /** The two forms agree on all runs shorter than `d` if and only if `d` is at most the lifetime of a failure key. */
  lemma StoresAgreeExactlyUpToOneHour(d: int)
    ensures (forall run :: InOrder(run) && Short(run, d) ==> SharedOutcomes(run) == MemoryOutcomes(run))
            <==> d <= FAIL_KEY_TTL
  {
    if d <= FAIL_KEY_TTL {
      forall run | InOrder(run) && Short(run, d) ensures SharedOutcomes(run) == MemoryOutcomes(run) {
        ShortRunsKeepTheirKey(run);
        StoresAgree(run);
      }
    } else {
      ExpiryMakesThemDiffer();
    }
  }

  /** "After 5 failed logins" holds on Redis for all runs shorter than `d` under exactly the same condition. */
  lemma RedisKeepsFiveExactlyUpToOneHour(d: int)
    ensures (forall run, lo :: InOrder(run) && Short(run, d) ==> AtMostFive(run, lo)) <==> d <= FAIL_KEY_TTL
  {
    if d <= FAIL_KEY_TTL {
      forall run, lo | InOrder(run) && Short(run, d) ensures AtMostFive(run, lo) {
        ShortRunsKeepTheirKey(run);
        StoresAgree(run);
        if NoLoginIn(run, SharedOutcomes(run), lo, lo + LOCKOUT) {
          MemoryEvaluatesAtMostFive(run, lo);
        }
      }
    } else {
      EightIsReached();
      assert Short(EightRun(9), d) && !AtMostFive(EightRun(9), FAIL_KEY_TTL - 1);
    }
  }

  // ----- The stores as they run -----

  /** The process-wide map from email to its entry. */
  class MemoryThrottle {
    var entries: map<string, Memory>

    constructor ()
      ensures forall email :: Entry(email) == NO_ENTRY
    {
      entries := map[];
    }

    ghost function Entry(email: string): Memory
      reads this
    {
      if email in entries then entries[email] else NO_ENTRY
    }

    method Locked(email: string, now: nat) returns (locked: bool, retryAfter: nat)
      ensures locked == MemoryLocked(Entry(email), now) == (now < Entry(email).lockedUntil)
      ensures retryAfter == if locked then Entry(email).lockedUntil - now else 0
    {
      if email !in entries {
        return false, 0;
      }
      if now < entries[email].lockedUntil {
        return true, entries[email].lockedUntil - now;
      }
      return false, 0;
    }

    method RecordFailure(email: string, now: nat)
      modifies this
      ensures Entry(email) == MemoryFail(old(Entry(email)), now)
      ensures var was := old(Entry(email));
              Entry(email) == if now < was.lockedUntil then was
                              else if was.failures + 1 >= 5 then Memory(0, now + 900_000_000_000)
                              else Memory(was.failures + 1, was.lockedUntil)
      ensures forall e :: e != email ==> Entry(e) == old(Entry(e))
    {
      if email !in entries {
        entries := entries[email := NO_ENTRY];
      }
      var st := entries[email];
      if now < st.lockedUntil {
        return;
      }
      st := st.(failures := st.failures + 1);
      if st.failures >= MAX_FAILURES {
        st := Memory(0, now + LOCKOUT);
      }
      entries := entries[email := st];
    }

    method ClearThrottle(email: string)
      modifies this
      ensures Entry(email) == NO_ENTRY
      ensures forall e :: e != email ==> Entry(e) == old(Entry(e))
    {
      entries := entries - {email};
    }

    /**
      The login handler around the store: the account looked up is absent, or has a stored
      hash against which the password is right or wrong.  An unknown account or an empty
      hash is refused like a wrong password but never recorded.
    */
    method Login(email: string, now: nat, known: bool, correct: bool) returns (outcome: Outcome)
      modifies this
      ensures outcome == Judge(MemoryLocked(old(Entry(email)), now), Attempt(now, known && correct))
      ensures outcome == if now < old(Entry(email)).lockedUntil then Refused
                         else if known && correct then LoggedIn else WrongPassword
      ensures outcome == LoggedIn ==> Entry(email) == Memory(0, 0)
      ensures outcome == Refused || !known ==> Entry(email) == old(Entry(email))
      ensures Entry(email) == if known then MemoryStep(old(Entry(email)), Attempt(now, correct)) else old(Entry(email))
      ensures forall e :: e != email ==> Entry(e) == old(Entry(e))
    {
      var locked, _ := Locked(email, now);
      if locked {
        return Refused;
      }
      if !known {
        return WrongPassword;
      }
      if !correct {
        RecordFailure(email, now);
        return WrongPassword;
      }
      ClearThrottle(email);
      return LoggedIn;
    }
  }

  /** The Redis keys of all emails; an absent key is one that counts nothing. */
  class SharedThrottle {
    const emailKey: string -> string        // the hashed form of an email that names its keys
    var fails: map<string, (nat, nat)>      // count and expiry
    var locks: map<string, nat>             // expiry

    constructor (key: string -> string)
      ensures emailKey == key && forall email :: Keys(email) == NO_KEYS
    {
      emailKey := key;
      fails := map[];
      locks := map[];
    }

    ghost function Keys(email: string): Shared
      reads this
    {
      var k := emailKey(email);
      var (count, expiry) := if k in fails then fails[k] else (0, 0);
      Shared(count, expiry, if k in locks then locks[k] else 0)
    }

    method Locked(email: string, now: nat) returns (locked: bool, ttl: nat)
      ensures locked == SharedLocked(Keys(email), now) == (now < Keys(email).lockExpiry)
      ensures ttl == if locked then Keys(email).lockExpiry - now else 0
    {
      var k := emailKey(email);
      if k in locks && now < locks[k] {
        return true, locks[k] - now;
      }
      return false, 0;
    }

    method RecordFailure(email: string, now: nat)
      modifies this
      ensures Keys(email) == SharedFail(old(Keys(email)), now)
      ensures var was := old(Keys(email));
              var n := if now < was.failExpiry then was.count + 1 else 1;
              Keys(email) == if n >= 5 then Shared(0, 0, now + 900_000_000_000)
                             else Shared(n, if now < was.failExpiry then was.failExpiry else now + 3_600_000_000_000,
                                         was.lockExpiry)
      ensures forall e :: emailKey(e) != emailKey(email) ==> Keys(e) == old(Keys(e))
    {
      var k := emailKey(email);
      var n := 1;
      if k in fails && now < fails[k].1 {
        n := fails[k].0 + 1;
        fails := fails[k := (n, fails[k].1)];
      } else {
        fails := fails[k := (1, now + FAIL_KEY_TTL)];
      }
      if n >= MAX_FAILURES {
        locks := locks[k := now + LOCKOUT];
        fails := fails - {k};
      }
    }

    method ClearThrottle(email: string)
      modifies this
      ensures Keys(email) == NO_KEYS
      ensures forall e :: emailKey(e) != emailKey(email) ==> Keys(e) == old(Keys(e))
    {
      fails := fails - {emailKey(email)};
      locks := locks - {emailKey(email)};
    }

    /** The same handler around the Redis form. */
    method Login(email: string, now: nat, known: bool, correct: bool) returns (outcome: Outcome)
      modifies this
      ensures outcome == Judge(SharedLocked(old(Keys(email)), now), Attempt(now, known && correct))
      ensures outcome == if now < old(Keys(email)).lockExpiry then Refused
                         else if known && correct then LoggedIn else WrongPassword
      ensures outcome == LoggedIn ==> Keys(email) == Shared(0, 0, 0)
      ensures outcome == Refused || !known ==> Keys(email) == old(Keys(email))
      ensures Keys(email) == if known then SharedStep(old(Keys(email)), Attempt(now, correct)) else old(Keys(email))
      ensures forall e :: emailKey(e) != emailKey(email) ==> Keys(e) == old(Keys(e))
    {
      var locked, _ := Locked(email, now);
      if locked {
        return Refused;
      }
      if !known {
        return WrongPassword;
      }
      if !correct {
        RecordFailure(email, now);
        return WrongPassword;
      }
      ClearThrottle(email);
      return LoggedIn;
    }
  }
}
