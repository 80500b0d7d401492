/**
  The per-process rate limiter: one fixed window per client address, held in a map
  that is swept of old entries.  `Step` is what one request does while it holds the
  mutex; a run is the sequence of requests in the order in which they get the mutex.
  The clock is read before the mutex is taken, so the `now` values of a run need not
  be sorted.
*/
module FixedWindowLimiter {

  const WINDOW: int := 60_000_000_000        // one minute in nanoseconds
  const SWEEP_AGE: int := 10 * WINDOW

  datatype Window = Window(start: int, count: nat)

  datatype Request = Request(now: int, ip: string)

  datatype Limiter = Limiter(byIp: map<string, Window>, lastSweep: int)

  /** The configured limit, with 30 standing in for a limit that is not positive. */
  function EffectiveRpm(rpm: int): (r: nat)
    ensures r >= 1
    ensures rpm > 0 ==> r == rpm
    ensures rpm <= 0 ==> r == 30
  {
    if rpm <= 0 then 30 else rpm
  }

  // ----- One request -----

  /** The window a request at `now` counts against. */
  function Current(byIp: map<string, Window>, r: Request): Window {
    if r.ip !in byIp || r.now - byIp[r.ip].start >= WINDOW then Window(r.now, 0) else byIp[r.ip]
  }

  function Admits(byIp: map<string, Window>, rpm: nat, r: Request): bool {
    Current(byIp, r).count < rpm
  }

  /** The map after a request, had nothing ever been swept. */
  function Count(byIp: map<string, Window>, rpm: nat, r: Request): map<string, Window> {
    var w := Current(byIp, r);
    byIp[r.ip := if w.count < rpm then Window(w.start, w.count + 1) else w]
  }

  function Sweep(byIp: map<string, Window>, now: int): map<string, Window> {
    map ip | ip in byIp && now - byIp[ip].start < SWEEP_AGE :: byIp[ip]
  }

  function Swept(l: Limiter, now: int): Limiter {
    if now - l.lastSweep >= WINDOW then Limiter(Sweep(l.byIp, now), now) else l
  }

  function Step(l: Limiter, rpm: nat, r: Request): Limiter {
    var s := Swept(l, r.now);
    s.(byIp := Count(s.byIp, rpm, r))
  }

  // ----- Runs -----

  /** The limiter after a run, starting empty at time `created`. */
  function After(created: int, rpm: nat, rs: seq<Request>): Limiter {
    if |rs| == 0 then Limiter(map[], created)
    else Step(After(created, rpm, rs[..|rs| - 1]), rpm, rs[|rs| - 1])
  }

  /** The decisions of a run: true for admitted, false for refused. */
  function Decisions(created: int, rpm: nat, rs: seq<Request>): (ds: seq<bool>)
    ensures |ds| == |rs|
  {
    if |rs| == 0 then []
    else
      var before, r := rs[..|rs| - 1], rs[|rs| - 1];
      Decisions(created, rpm, before) + [Admits(Swept(After(created, rpm, before), r.now).byIp, rpm, r)]
  }

  /** The same two for a limiter that is never swept. */
  function PlainAfter(rpm: nat, rs: seq<Request>): map<string, Window> {
    if |rs| == 0 then map[]
    else Count(PlainAfter(rpm, rs[..|rs| - 1]), rpm, rs[|rs| - 1])
  }

  function PlainDecisions(rpm: nat, rs: seq<Request>): (ds: seq<bool>)
    ensures |ds| == |rs|
  {
    if |rs| == 0 then []
    else
      var before, r := rs[..|rs| - 1], rs[|rs| - 1];
      PlainDecisions(rpm, before) + [Admits(PlainAfter(rpm, before), rpm, r)]
  }

  /** No request reaches the mutex with a clock reading more than `d` behind one that reached it earlier. */
  predicate LateByAtMost(rs: seq<Request>, d: int) {
    forall i, j :: 0 <= i < j < |rs| ==> rs[i].now - d <= rs[j].now
  }

  /** The clock readings of the run never decrease. */
  predicate InOrder(rs: seq<Request>) {
    LateByAtMost(rs, 0)
  }

  // ----- Sweeping is invisible -----

  /** Entries that only the unswept map holds are ten windows older than some request already served. */
  ghost predicate Agree(swept: map<string, Window>, plain: map<string, Window>, rs: seq<Request>) {
    && (forall ip :: ip in swept ==> ip in plain && swept[ip] == plain[ip])
    && (forall ip :: ip in plain && ip !in swept ==>
          exists i :: 0 <= i < |rs| && rs[i].now - plain[ip].start >= SWEEP_AGE)
  }

  lemma SweepKeepsAgree(created: int, rpm: nat, rs: seq<Request>, before: seq<Request>, r: Request)
    requires rs == before + [r] && LateByAtMost(rs, 9 * WINDOW)
    requires Agree(After(created, rpm, before).byIp, PlainAfter(rpm, before), before)
    ensures var s := Swept(After(created, rpm, before), r.now).byIp;
            var p := PlainAfter(rpm, before);
            && Agree(s, p, rs)
            && Current(s, r) == Current(p, r)
  {
    var l, p := After(created, rpm, before), PlainAfter(rpm, before);
    var s := Swept(l, r.now).byIp;
    forall ip | ip in p && ip !in s
      ensures exists i :: 0 <= i < |rs| && rs[i].now - p[ip].start >= SWEEP_AGE
    {
      if ip in l.byIp {
        assert rs[|before|].now - p[ip].start >= SWEEP_AGE;
      } else {
        var i :| 0 <= i < |before| && before[i].now - p[ip].start >= SWEEP_AGE;
        assert rs[i] == before[i];
      }
    }
    if r.ip in p && r.ip !in s {
      var i :| 0 <= i < |rs| && rs[i].now - p[r.ip].start >= SWEEP_AGE;
      assert rs[|before|] == r;
    }
  }

  lemma CountKeepsAgree(swept: map<string, Window>, plain: map<string, Window>, rs: seq<Request>, rpm: nat, r: Request)
    requires Agree(swept, plain, rs) && Current(swept, r) == Current(plain, r)
    ensures Agree(Count(swept, rpm, r), Count(plain, rpm, r), rs)
  {
  }

  lemma {:induction false} SweptRunAgrees(created: int, rpm: nat, rs: seq<Request>)
    requires LateByAtMost(rs, 9 * WINDOW)
    ensures Agree(After(created, rpm, rs).byIp, PlainAfter(rpm, rs), rs)
    ensures Decisions(created, rpm, rs) == PlainDecisions(rpm, rs)
  {
    if |rs| > 0 {
      var before, r := rs[..|rs| - 1], rs[|rs| - 1];
      assert rs == before + [r];
      SweptRunAgrees(created, rpm, before);
      SweepKeepsAgree(created, rpm, rs, before, r);
      CountKeepsAgree(Swept(After(created, rpm, before), r.now).byIp, PlainAfter(rpm, before), rs, rpm, r);
    }
  }

  /** Sweeping changes some decision for a lateness of just over nine windows. */
  function LateRun(): seq<Request> {
    [Request(0, "a"), Request(SWEEP_AGE, "b"), Request(WINDOW - 1, "a")]
  }

  lemma LateRunDecisions()
    ensures Decisions(0, 1, LateRun())[0] && Decisions(0, 1, LateRun())[2] && !PlainDecisions(1, LateRun())[2]
  {
    var a, b, c := Request(0, "a"), Request(SWEEP_AGE, "b"), Request(WINDOW - 1, "a");
    var rs := LateRun();
    assert rs[..2] == [a, b] && [a, b][..1] == [a] && [a][..0] == [];
    assert After(0, 1, [a]) == Step(After(0, 1, []), 1, a) == Limiter(map["a" := Window(0, 1)], 0);
    assert After(0, 1, [a, b]) == Step(After(0, 1, [a]), 1, b);
    assert "a" !in After(0, 1, [a, b]).byIp;
    assert Decisions(0, 1, rs)[2];
    assert Decisions(0, 1, [a])[0] && Decisions(0, 1, [a, b])[0] && Decisions(0, 1, rs)[0];
    assert PlainAfter(1, [a]) == Count(PlainAfter(1, []), 1, a) == map["a" := Window(0, 1)];
    assert PlainAfter(1, [a, b])["a"] == Window(0, 1);
    assert !PlainDecisions(1, rs)[2];
  }

  lemma LateRunDiffers()
    ensures LateByAtMost(LateRun(), 9 * WINDOW + 1)
    ensures Decisions(0, 1, LateRun()) != PlainDecisions(1, LateRun())
  {
    LateRunDecisions();
  }

  /**
    Sweeping is invisible exactly up to nine windows of lateness: every run that is at
    most `d` late gets the decisions of a limiter that is never swept if and only if
    `d` is at most nine windows.
  */
  lemma SweepInvisibleUpToNineWindows(d: nat)
    ensures (forall created: int, rpm: nat, rs: seq<Request> :: LateByAtMost(rs, d) ==>
               Decisions(created, rpm, rs) == PlainDecisions(rpm, rs))
            <==> d <= 9 * WINDOW
  {
    if d <= 9 * WINDOW {
      forall created: int, rpm: nat, rs: seq<Request> | LateByAtMost(rs, d)
        ensures Decisions(created, rpm, rs) == PlainDecisions(rpm, rs)
      {
        assert LateByAtMost(rs, 9 * WINDOW);
        SweptRunAgrees(created, rpm, rs);
      }
    } else {
      LateRunDiffers();
      assert LateByAtMost(LateRun(), d);
    }
  }

  /** Memory stays bounded in time: what a sweep leaves behind began less than eleven windows ago. */
  lemma {:induction false} SurvivorsBeganRecently(created: int, rpm: nat, rs: seq<Request>)
    requires InOrder(rs) && |rs| > 0 && created <= rs[0].now
    ensures var l := After(created, rpm, rs);
            var now := rs[|rs| - 1].now;
            && l.lastSweep <= now < l.lastSweep + WINDOW
            && forall ip :: ip in l.byIp ==> l.lastSweep - SWEEP_AGE < l.byIp[ip].start
    ensures var l := After(created, rpm, rs);
            forall ip :: ip in l.byIp ==> rs[|rs| - 1].now - l.byIp[ip].start < 11 * WINDOW
  {
    if |rs| > 1 {
      var before := rs[..|rs| - 1];
      assert before[|before| - 1].now <= rs[|rs| - 1].now;
      SurvivorsBeganRecently(created, rpm, before);
    } else {
      assert rs[..0] == [];
    }
  }

  // ----- Addresses do not disturb one another -----

  function Only(rs: seq<Request>, ip: string): (r: seq<Request>) {
    if |rs| == 0 then []
    else Only(rs[..|rs| - 1], ip) + if rs[|rs| - 1].ip == ip then [rs[|rs| - 1]] else []
  }

  /** The decisions, in order, on the requests of one address. */
  function DecisionsFor(rs: seq<Request>, ds: seq<bool>, ip: string): seq<bool>
    requires |ds| == |rs|
  {
    if |rs| == 0 then []
    else DecisionsFor(rs[..|rs| - 1], ds[..|ds| - 1], ip) + if rs[|rs| - 1].ip == ip then [ds[|ds| - 1]] else []
  }

  predicate SameAt(p: map<string, Window>, q: map<string, Window>, ip: string) {
    (ip in p <==> ip in q) && (ip in p ==> p[ip] == q[ip])
  }

  lemma CountIsLocal(p: map<string, Window>, q: map<string, Window>, rpm: nat, r: Request, ip: string)
    requires SameAt(p, q, ip)
    ensures r.ip == ip ==> SameAt(Count(p, rpm, r), Count(q, rpm, r), ip) && Admits(p, rpm, r) == Admits(q, rpm, r)
    ensures r.ip != ip ==> SameAt(Count(p, rpm, r), q, ip)
  {
  }

  lemma NothingIsSame(ip: string)
    ensures SameAt(map[], map[], ip)
  {
  }

  lemma {:induction false} PlainIsolated(rpm: nat, rs: seq<Request>, ip: string)
    ensures var own := Only(rs, ip);
            && DecisionsFor(rs, PlainDecisions(rpm, rs), ip) == PlainDecisions(rpm, own)
            && SameAt(PlainAfter(rpm, rs), PlainAfter(rpm, own), ip)
  {
    hide Count, Admits, SameAt;
    NothingIsSame(ip);
    if |rs| > 0 {
      var before, r := rs[..|rs| - 1], rs[|rs| - 1];
      PlainIsolated(rpm, before, ip);
      var own := Only(before, ip);
      CountIsLocal(PlainAfter(rpm, before), PlainAfter(rpm, own), rpm, r, ip);
      assert PlainDecisions(rpm, rs)[..|rs| - 1] == PlainDecisions(rpm, before);
      if r.ip == ip {
        assert (own + [r])[..|own + [r]| - 1] == own;
      } else {
        assert own + [] == own;
      }
    }
  }

  lemma {:induction false} OnlyIsNoLater(rs: seq<Request>, ip: string, d: int)
    requires LateByAtMost(rs, d)
    ensures LateByAtMost(Only(rs, ip), d)
    ensures forall r :: r in Only(rs, ip) ==> r in rs
  {
    if |rs| > 0 {
      var before := rs[..|rs| - 1];
      OnlyIsNoLater(before, ip, d);
      forall r | r in Only(before, ip) ensures r in rs && r.now - d <= rs[|rs| - 1].now {
        var k :| 0 <= k < |before| && before[k] == r;
        assert rs[k] == r;
      }
    }
  }

  lemma IsolatedWhenSweepingIsInvisible(created: int, rpm: nat, rs: seq<Request>, ip: string)
    requires LateByAtMost(rs, 9 * WINDOW)
    ensures DecisionsFor(rs, Decisions(created, rpm, rs), ip) == Decisions(created, rpm, Only(rs, ip))
  {
    SweptRunAgrees(created, rpm, rs);
    OnlyIsNoLater(rs, ip, 9 * WINDOW);
    SweptRunAgrees(created, rpm, Only(rs, ip));
    PlainIsolated(rpm, rs, ip);
  }

  /** In the late run, the sweep of the other address's request gains the first address an admission. */
  lemma LateRunIsNotIsolated()
    ensures DecisionsFor(LateRun(), Decisions(0, 1, LateRun()), "a") != Decisions(0, 1, Only(LateRun(), "a"))
  {
    var rs := LateRun();
    hide Decisions, PlainDecisions, After, PlainAfter, Only;
    LateRunDecisions();
    PlainIsolated(1, rs, "a");
    LateRunAlone();
    var ds, plain := Decisions(0, 1, rs), PlainDecisions(1, rs);
    assert DecisionsFor(rs, ds, "a")[|DecisionsFor(rs, ds, "a")| - 1] == ds[2];
    assert DecisionsFor(rs, plain, "a")[|DecisionsFor(rs, plain, "a")| - 1] == plain[2];
  }

  lemma OnlyOneMore(rs: seq<Request>, r: Request, ip: string)
    ensures Only(rs + [r], ip) == Only(rs, ip) + if r.ip == ip then [r] else []
  {
    assert (rs + [r])[..|rs|] == rs;
  }

  lemma LateRunAlone()
    ensures Decisions(0, 1, Only(LateRun(), "a")) == PlainDecisions(1, Only(LateRun(), "a"))
  {
    var a, b, c := Request(0, "a"), Request(SWEEP_AGE, "b"), Request(WINDOW - 1, "a");
    OnlyOneMore([], a, "a");
    OnlyOneMore([] + [a], b, "a");
    OnlyOneMore([] + [a] + [b], c, "a");
    assert Only([], "a") == [] && LateRun() == [] + [a] + [b] + [c];
    hide Decisions, PlainDecisions, After, PlainAfter, Only;
    assert Only(LateRun(), "a") == [a, c];
    SweptRunAgrees(0, 1, [a, c]);
  }

  /**
    Whatever the other addresses send, an address is served as if it were alone, exactly
    up to nine windows of lateness.
  */
  lemma AddressesAreIsolated(d: nat)
    ensures (forall created: int, rpm: nat, rs: seq<Request>, ip: string :: LateByAtMost(rs, d) ==>
               DecisionsFor(rs, Decisions(created, rpm, rs), ip) == Decisions(created, rpm, Only(rs, ip)))
            <==> d <= 9 * WINDOW
  {
    if d <= 9 * WINDOW {
      forall created: int, rpm: nat, rs: seq<Request>, ip: string | LateByAtMost(rs, d)
        ensures DecisionsFor(rs, Decisions(created, rpm, rs), ip) == Decisions(created, rpm, Only(rs, ip))
      {
        assert LateByAtMost(rs, 9 * WINDOW);
        IsolatedWhenSweepingIsInvisible(created, rpm, rs, ip);
      }
    } else {
      LateRunIsNotIsolated();
      LateRunDiffers();
      assert LateByAtMost(LateRun(), d);
    }
  }

  // ----- How many requests are admitted -----

  /** How many requests of `ip` with `lo <= now < hi` were admitted. */
  function Admitted(rs: seq<Request>, ds: seq<bool>, ip: string, lo: int, hi: int): nat
    requires |ds| == |rs|
  {
    if |rs| == 0 then 0
    else
      var r := rs[|rs| - 1];
      Admitted(rs[..|rs| - 1], ds[..|ds| - 1], ip, lo, hi)
      + if r.ip == ip && ds[|ds| - 1] && lo <= r.now < hi then 1 else 0
  }

  lemma {:induction false} NothingAfterTheLast(rs: seq<Request>, ds: seq<bool>, ip: string, lo: int, hi: int)
    requires |ds| == |rs|
    requires forall i :: 0 <= i < |rs| && rs[i].ip == ip ==> rs[i].now < lo
    ensures Admitted(rs, ds, ip, lo, hi) == 0
  {
    if |rs| > 0 {
      NothingAfterTheLast(rs[..|rs| - 1], ds[..|ds| - 1], ip, lo, hi);
    }
  }

  function PlainAdmitted(rpm: nat, rs: seq<Request>, ip: string, lo: int, hi: int): nat {
    Admitted(rs, PlainDecisions(rpm, rs), ip, lo, hi)
  }

  lemma OneMoreRequest(rpm: nat, before: seq<Request>, r: Request, ip: string, lo: int, hi: int)
    ensures PlainAfter(rpm, before + [r]) == Count(PlainAfter(rpm, before), rpm, r)
    ensures PlainAdmitted(rpm, before + [r], ip, lo, hi) ==
            PlainAdmitted(rpm, before, ip, lo, hi)
            + if r.ip == ip && Admits(PlainAfter(rpm, before), rpm, r) && lo <= r.now < hi then 1 else 0
  {
  }

  // ----- Any minute, at any lateness -----

  /** How many windows can have admissions in one minute when requests are at most `d` late. */
  function WindowsInReach(d: nat): (n: nat)
    ensures n >= 2
  {
    1 + (2 * WINDOW + d - 2) / WINDOW
  }

  /** All of them but one lose their first admission to the time before or after the minute. */
  function MinuteBound(rpm: nat, d: nat): nat
    requires rpm >= 1
  {
    Share(WindowsInReach(d), rpm) + 1
  }

  /** What n windows admit beyond their first requests. */
  function Share(n: nat, rpm: nat): nat
    requires rpm >= 1
  {
    n * (rpm - 1)
  }

  /** How many windows can come before one starting at `start` and after the start of the earliest in reach. */
  function Rank(start: int, lo: int): nat
    requires start > lo - WINDOW
  {
    (start - lo + WINDOW - 1) / WINDOW
  }

  lemma RankGrows(start: int, next: int, lo: int)
    requires lo - WINDOW < start && start + WINDOW <= next
    ensures Rank(start, lo) + 1 <= Rank(next, lo)
  {
  }

  lemma RankIsBounded(start: int, lo: int, d: nat)
    requires lo - WINDOW < start <= lo + WINDOW + d - 1
    ensures Rank(start, lo) + 1 <= WindowsInReach(d)
  {
  }

  lemma ShareGrows(a: nat, b: nat, rpm: nat)
    requires rpm >= 1 && a + 1 <= b
    ensures Share(a, rpm) + rpm - 1 <= Share(b, rpm)
  {
    assert (a + 1) * (rpm - 1) <= b * (rpm - 1);
  }

  /** The window of `ip` was opened by some request, and covers every request of `ip` so far. */
  ghost predicate Covers(w: Window, rs: seq<Request>, ip: string) {
    && (exists i :: 0 <= i < |rs| && rs[i].now == w.start)
    && (forall i :: 0 <= i < |rs| && rs[i].ip == ip ==> rs[i].now < w.start + WINDOW)
  }

  /** How the window of `ip` limits the admissions so far that lie in the minute from `lo` on. */
  ghost predicate Tallies(w: Window, rpm: nat, d: nat, lo: int, minute: nat)
    requires rpm >= 1
  {
    && 1 <= w.count <= rpm
    && minute <= MinuteBound(rpm, d)
    && (w.start <= lo - WINDOW ==> minute == 0)
    && (lo - WINDOW < w.start < lo ==> minute <= w.count - 1)
    && (lo <= w.start ==> w.start >= lo + WINDOW + d || minute <= Share(Rank(w.start, lo), rpm) + w.count)
  }

  ghost predicate Tally(rpm: nat, d: nat, rs: seq<Request>, ip: string, lo: int)
    requires rpm >= 1
  {
    var p, minute := PlainAfter(rpm, rs), PlainAdmitted(rpm, rs, ip, lo, lo + WINDOW);
    if ip !in p then minute == 0 && forall i :: 0 <= i < |rs| ==> rs[i].ip != ip
    else Covers(p[ip], rs, ip) && Tallies(p[ip], rpm, d, lo, minute)
  }

  /** A request that opens a window: the first of its address, or one after its window has passed. */
  lemma FirstTallies(now: int, rpm: nat, d: nat, lo: int, minute: nat)
    requires rpm >= 1 && minute == if lo <= now < lo + WINDOW then 1 else 0
    ensures Tallies(Window(now, 1), rpm, d, lo, minute)
  {
    hide Rank, WindowsInReach, Share;
  }

  lemma NextTallies(w: Window, now: int, rpm: nat, d: nat, lo: int, before: nat, minute: nat)
    requires rpm >= 1 && Tallies(w, rpm, d, lo, before) && w.start + WINDOW <= now
    requires minute == before + if lo <= now < lo + WINDOW then 1 else 0
    ensures Tallies(Window(now, 1), rpm, d, lo, minute)
  {
    hide Rank, WindowsInReach, Share;
    if w.start <= lo - WINDOW {
      FirstTallies(now, rpm, d, lo, minute);
    } else if lo <= now < lo + WINDOW + d {
      RankGrows(w.start, now, lo);
      ShareGrows(Rank(w.start, lo), Rank(now, lo), rpm);
      RankIsBounded(now, lo, d);
      ShareGrows(Rank(now, lo), WindowsInReach(d), rpm);
    }
  }

  /** One more request in the same window. */
  lemma SameTallies(w: Window, now: int, rpm: nat, d: nat, lo: int, before: nat, minute: nat)
    requires rpm >= 1 && Tallies(w, rpm, d, lo, before) && w.start - d <= now < w.start + WINDOW && w.count < rpm
    requires minute == before + if lo <= now < lo + WINDOW then 1 else 0
    ensures Tallies(Window(w.start, w.count + 1), rpm, d, lo, minute)
  {
    hide Rank, WindowsInReach, Share;
    if lo - WINDOW < w.start < lo + WINDOW + d {
      RankIsBounded(w.start, lo, d);
      ShareGrows(Rank(w.start, lo), WindowsInReach(d), rpm);
    }
  }

  lemma FreshCovers(before: seq<Request>, r: Request)
    requires forall i :: 0 <= i < |before| && before[i].ip == r.ip ==> before[i].now < r.now + WINDOW
    ensures Covers(Window(r.now, 1), before + [r], r.ip)
  {
    var rs := before + [r];
    assert rs[|before|] == r;
    assert forall i :: 0 <= i < |before| ==> rs[i] == before[i];
  }

  lemma StillCovers(w: Window, count: nat, before: seq<Request>, r: Request, ip: string)
    requires Covers(w, before, ip) && (r.ip == ip ==> r.now < w.start + WINDOW)
    ensures Covers(Window(w.start, count), before + [r], ip)
  {
    var i :| 0 <= i < |before| && before[i].now == w.start;
    assert (before + [r])[i].now == w.start;
  }

  /** What a request does to the window of its address. */
  lemma OneWindow(p: map<string, Window>, rpm: nat, r: Request)
    requires rpm >= 1
    ensures var p' := Count(p, rpm, r);
            && r.ip in p'
            && (r.ip !in p || r.now - p[r.ip].start >= WINDOW ==> Admits(p, rpm, r) && p'[r.ip] == Window(r.now, 1))
            && (r.ip in p && r.now - p[r.ip].start < WINDOW ==>
                  && Admits(p, rpm, r) == (p[r.ip].count < rpm)
                  && p'[r.ip] == if p[r.ip].count < rpm then Window(p[r.ip].start, p[r.ip].count + 1) else p[r.ip])
            && forall ip :: ip != r.ip ==> (ip in p' <==> ip in p) && (ip in p ==> p'[ip] == p[ip])
  {
  }

  lemma TallyOpens(rpm: nat, d: nat, before: seq<Request>, r: Request, lo: int)
    requires rpm >= 1 && Tally(rpm, d, before, r.ip, lo)
    requires r.ip in PlainAfter(rpm, before) ==> r.now - PlainAfter(rpm, before)[r.ip].start >= WINDOW
    ensures Tally(rpm, d, before + [r], r.ip, lo)
  {
    hide PlainAfter, PlainAdmitted, Tallies, Count, Admits, Current;
    var p := PlainAfter(rpm, before);
    var was := PlainAdmitted(rpm, before, r.ip, lo, lo + WINDOW);
    OneMoreRequest(rpm, before, r, r.ip, lo, lo + WINDOW);
    OneWindow(p, rpm, r);
    FreshCovers(before, r);
    var minute := PlainAdmitted(rpm, before + [r], r.ip, lo, lo + WINDOW);
    if r.ip in p {
      NextTallies(p[r.ip], r.now, rpm, d, lo, was, minute);
    } else {
      FirstTallies(r.now, rpm, d, lo, minute);
    }
  }

  lemma TallyCounts(rpm: nat, d: nat, before: seq<Request>, r: Request, lo: int)
    requires rpm >= 1 && Tally(rpm, d, before, r.ip, lo) && r.ip in PlainAfter(rpm, before)
    requires PlainAfter(rpm, before)[r.ip].start - d <= r.now < PlainAfter(rpm, before)[r.ip].start + WINDOW
    ensures Tally(rpm, d, before + [r], r.ip, lo)
  {
    hide PlainAfter, PlainAdmitted, Tallies, Count, Admits, Current, Covers;
    var w := PlainAfter(rpm, before)[r.ip];
    var was := PlainAdmitted(rpm, before, r.ip, lo, lo + WINDOW);
    OneMoreRequest(rpm, before, r, r.ip, lo, lo + WINDOW);
    OneWindow(PlainAfter(rpm, before), rpm, r);
    if w.count < rpm {
      StillCovers(w, w.count + 1, before, r, r.ip);
      SameTallies(w, r.now, rpm, d, lo, was, PlainAdmitted(rpm, before + [r], r.ip, lo, lo + WINDOW));
    } else {
      StillCovers(w, w.count, before, r, r.ip);
    }
  }

  lemma TallyOther(rpm: nat, d: nat, before: seq<Request>, r: Request, ip: string, lo: int)
    requires rpm >= 1 && Tally(rpm, d, before, ip, lo) && r.ip != ip
    ensures Tally(rpm, d, before + [r], ip, lo)
  {
    hide PlainAfter, PlainAdmitted, Tallies, Count, Admits, Current, Covers;
    OneMoreRequest(rpm, before, r, ip, lo, lo + WINDOW);
    OneWindow(PlainAfter(rpm, before), rpm, r);
    if ip in PlainAfter(rpm, before) {
      var w := PlainAfter(rpm, before)[ip];
      StillCovers(w, w.count, before, r, ip);
    }
  }

  lemma {:induction false} TallyHolds(rpm: nat, d: nat, rs: seq<Request>, ip: string, lo: int)
    requires rpm >= 1 && LateByAtMost(rs, d)
    ensures Tally(rpm, d, rs, ip, lo)
  {
    hide Tallies, PlainAdmitted;
    if |rs| > 0 {
      var before, r := rs[..|rs| - 1], rs[|rs| - 1];
      assert rs == before + [r];
      TallyHolds(rpm, d, before, ip, lo);
      var p := PlainAfter(rpm, before);
      if r.ip != ip {
        TallyOther(rpm, d, before, r, ip, lo);
      } else if ip !in p || r.now - p[ip].start >= WINDOW {
        TallyOpens(rpm, d, before, r, lo);
      } else {
        var i :| 0 <= i < |before| && before[i].now == p[ip].start;
        assert rs[i].now - d <= rs[|before|].now;
        TallyCounts(rpm, d, before, r, lo);
      }
    } else {
      NothingYet(rpm, ip, lo);
    }
  }

  lemma NothingYet(rpm: nat, ip: string, lo: int)
    ensures PlainAdmitted(rpm, [], ip, lo, lo + WINDOW) == 0
  {
  }

  /**
    In a run that is at most `d` late, up to nine windows, any half-open minute admits at
    most rpm - 1 requests of an address for each window in its reach, and one more.
  */
  lemma AnyMinuteAdmitsAtMost(created: int, rpm: nat, d: nat, rs: seq<Request>, ip: string, lo: int)
    requires rpm >= 1 && d <= 9 * WINDOW && LateByAtMost(rs, d)
    ensures Admitted(rs, Decisions(created, rpm, rs), ip, lo, lo + WINDOW) <= MinuteBound(rpm, d)
  {
    hide After, PlainAfter, Decisions, PlainDecisions, Admitted, Covers;
    assert LateByAtMost(rs, 9 * WINDOW);
    SweptRunAgrees(created, rpm, rs);
    TallyHolds(rpm, d, rs, ip, lo);
  }

  /** The late run admits two requests of one minute, with a limit of one. */
  lemma LateRunAdmitsTwo()
    ensures Admitted(LateRun(), Decisions(0, 1, LateRun()), "a", 0, WINDOW) == 2
  {
    LateRunDecisions();
    hide Decisions, PlainDecisions;
    var rs, ds := LateRun(), Decisions(0, 1, LateRun());
    assert Admitted(rs[..2][..1], ds[..2][..1], "a", 0, WINDOW) == 1;
  }

  /** The minute from `lo` on admits at most the bound for lateness `d`. */
  predicate WithinMinuteBound(created: int, rpm: nat, d: nat, rs: seq<Request>, ip: string, lo: int)
    requires rpm >= 1
  {
    Admitted(rs, Decisions(created, rpm, rs), ip, lo, lo + WINDOW) <= MinuteBound(rpm, d)
  }

  /**
    The bound on a minute holds for all limits and runs at most `d` late if and only if `d`
    is at most nine windows.
  */
  lemma MinuteBoundHoldsUpToNineWindows(d: nat)
    ensures (forall created: int, rpm: nat, rs: seq<Request>, ip: string, lo: int ::
               rpm >= 1 && LateByAtMost(rs, d) ==> WithinMinuteBound(created, rpm, d, rs, ip, lo))
            <==> d <= 9 * WINDOW
  {
    hide Decisions, Admitted, WindowsInReach;
    if d <= 9 * WINDOW {
      forall created: int, rpm: nat, rs: seq<Request>, ip: string, lo: int | rpm >= 1 && LateByAtMost(rs, d)
        ensures WithinMinuteBound(created, rpm, d, rs, ip, lo)
      {
        AnyMinuteAdmitsAtMost(created, rpm, d, rs, ip, lo);
      }
    } else {
      LateRunDiffers();
      LateRunAdmitsTwo();
      assert LateByAtMost(LateRun(), d) && MinuteBound(1, d) == 1;
      assert !WithinMinuteBound(0, 1, d, LateRun(), "a", 0);
    }
  }

  /** With a clock that never goes back that is twice the limit, less one. */
  lemma AnyMinuteAdmitsFewerThanTwiceTheLimit(created: int, rpm: nat, rs: seq<Request>, ip: string, lo: int)
    requires rpm >= 1 && InOrder(rs)
    ensures Admitted(rs, Decisions(created, rpm, rs), ip, lo, lo + WINDOW) <= 2 * rpm - 1
  {
    AnyMinuteAdmitsAtMost(created, rpm, 0, rs, ip, lo);
  }

  // ----- What a window has admitted -----

  /** Admissions of `ip` from position i of the run on. */
  function AdmittedSince(rs: seq<Request>, ds: seq<bool>, ip: string, i: nat): nat
    requires |ds| == |rs|
  {
    if |rs| <= i then 0
    else
      AdmittedSince(rs[..|rs| - 1], ds[..|ds| - 1], ip, i)
      + if rs[|rs| - 1].ip == ip && ds[|ds| - 1] then 1 else 0
  }

  /** The request at position i opened the window, which has since admitted what it counts. */
  ghost predicate OpenedAt(w: Window, rpm: nat, rs: seq<Request>, ds: seq<bool>, ip: string, i: nat)
    requires |ds| == |rs|
  {
    && i < |rs| && rs[i] == Request(w.start, ip)
    && AdmittedSince(rs, ds, ip, i) == w.count <= rpm
    && forall k :: i <= k < |rs| && rs[k].ip == ip ==> rs[k].now < w.start + WINDOW
  }

  /**
    In every run, however late its requests, a window in the map was opened by some
    request of its address, has admitted exactly `count` requests since then, at most
    rpm, and has seen none from after its end.
  */
  lemma {:induction false} EachWindowAdmitsAtMostTheLimit(created: int, rpm: nat, rs: seq<Request>, ip: string)
    requires rpm >= 1 && ip in After(created, rpm, rs).byIp
    ensures exists i: nat :: OpenedAt(After(created, rpm, rs).byIp[ip], rpm, rs, Decisions(created, rpm, rs), ip, i)
  {
    var before, r := rs[..|rs| - 1], rs[|rs| - 1];
    var ds, s := Decisions(created, rpm, rs), Swept(After(created, rpm, before), r.now);
    assert ds[..|rs| - 1] == Decisions(created, rpm, before);
    OneWindow(s.byIp, rpm, r);
    if r.ip == ip && (ip !in s.byIp || r.now - s.byIp[ip].start >= WINDOW) {
      assert AdmittedSince(before, ds[..|rs| - 1], ip, |before|) == 0;
      assert OpenedAt(Window(r.now, 1), rpm, rs, ds, ip, |before|);
    } else {
      EachWindowAdmitsAtMostTheLimit(created, rpm, before, ip);
      var w := After(created, rpm, before).byIp[ip];
      var i: nat :| OpenedAt(w, rpm, before, ds[..|rs| - 1], ip, i);
      assert s.byIp[ip] == w;
      assert OpenedAt(After(created, rpm, rs).byIp[ip], rpm, rs, ds, ip, i);
    }
  }

  // ----- The bound is reached -----

  /**
    Request m of window j: the windows start a minute apart, the first one just in reach
    of the minute from WINDOW on; their other requests read their clocks in that minute.
  */
  function WaveAt(j: nat, m: nat): Request {
    Request(if m == 0 then 1 + j * WINDOW else if j == 0 then WINDOW else 2 * WINDOW - 1, "a")
  }

  /** All of windows 0 to j - 1, and m requests of window j. */
  function Wave(rpm: nat, j: nat, m: nat): seq<Request>
    decreases j, m
  {
    if m > 0 then Wave(rpm, j, m - 1) + [WaveAt(j, m - 1)]
    else if j > 0 then Wave(rpm, j - 1, rpm)
    else []
  }

  /** What the wave has admitted in the minute from WINDOW on. */
  function WaveCount(rpm: nat, j: nat, m: nat): nat
    decreases j, m
  {
    if m > 0 then WaveCount(rpm, j, m - 1) + (if m == 1 && j != 1 then 0 else 1)
    else if j > 0 then WaveCount(rpm, j - 1, rpm)
    else 0
  }

  predicate WaveWindow(p: map<string, Window>, rpm: nat, j: nat, m: nat) {
    if m > 0 then "a" in p && p["a"] == Window(1 + j * WINDOW, m)
    else if j > 0 then "a" in p && p["a"] == Window(1 + (j - 1) * WINDOW, rpm)
    else "a" !in p
  }

  lemma WaveStep(p: map<string, Window>, rpm: nat, j: nat, m: nat)
    requires m < rpm && WaveWindow(p, rpm, j, m)
    ensures Admits(p, rpm, WaveAt(j, m)) && WaveWindow(Count(p, rpm, WaveAt(j, m)), rpm, j, m + 1)
    ensures WINDOW <= WaveAt(j, m).now < 2 * WINDOW <==> m > 0 || j == 1
  {
  }

  lemma {:induction false} WaveRun(rpm: nat, j: nat, m: nat)
    requires rpm >= 1 && m <= rpm
    ensures WaveWindow(PlainAfter(rpm, Wave(rpm, j, m)), rpm, j, m)
    ensures PlainAdmitted(rpm, Wave(rpm, j, m), "a", WINDOW, 2 * WINDOW) == WaveCount(rpm, j, m)
    decreases j, m
  {
    hide PlainAfter, PlainAdmitted, WaveAt, Count, Admits;
    if m > 0 {
      WaveRun(rpm, j, m - 1);
      WaveStep(PlainAfter(rpm, Wave(rpm, j, m - 1)), rpm, j, m - 1);
      OneMoreRequest(rpm, Wave(rpm, j, m - 1), WaveAt(j, m - 1), "a", WINDOW, WINDOW + WINDOW);
      WaveAddress(j, m - 1);
    } else if j > 0 {
      WaveRun(rpm, j - 1, rpm);
    } else {
      WaveIsEmpty(rpm);
    }
  }

  lemma WaveAddress(j: nat, m: nat)
    ensures WaveAt(j, m).ip == "a"
  {
  }

  lemma WaveIsEmpty(rpm: nat)
    ensures PlainAfter(rpm, []) == map[] && PlainAdmitted(rpm, [], "a", WINDOW, 2 * WINDOW) == 0
  {
  }

  lemma {:induction false} WaveCountInAll(rpm: nat, j: nat, m: nat)
    requires rpm >= 1 && 1 <= m <= rpm
    ensures WaveCount(rpm, j, m) == j * (rpm - 1) + m - if j == 0 then 1 else 0
    decreases j, m
  {
    if m > 1 {
      WaveCountInAll(rpm, j, m - 1);
    } else if j > 0 {
      WaveCountInAll(rpm, j - 1, rpm);
    }
  }

  /** Every request of the wave lies between the first window's start and the current one's. */
  lemma {:induction false} WaveIsLate(rpm: nat, j: nat, m: nat, d: nat)
    requires j < WindowsInReach(d)
    ensures LateByAtMost(Wave(rpm, j, m), d)
    ensures forall r :: r in Wave(rpm, j, m) ==> r.now <= if j == 0 then WINDOW else if j == 1 then 2 * WINDOW - 1
                                                       else 1 + j * WINDOW
    ensures m == 0 && j > 0 ==> forall r :: r in Wave(rpm, j, m) ==> r.now <= 1 + j * WINDOW
    decreases j, m
  {
    if m > 0 {
      WaveIsLate(rpm, j, m - 1, d);
      OneLater(Wave(rpm, j, m - 1), WaveAt(j, m - 1), d);
    } else if j > 0 {
      WaveIsLate(rpm, j - 1, rpm, d);
    }
  }

  lemma OneLater(rs: seq<Request>, r: Request, d: nat)
    requires LateByAtMost(rs, d) && forall x :: x in rs ==> x.now - d <= r.now
    ensures LateByAtMost(rs + [r], d)
  {
  }

  /** For every limit and every lateness up to nine windows, some run reaches the bound. */
  lemma BoundIsReached(rpm: nat, d: nat)
    requires rpm >= 1 && d <= 9 * WINDOW
    ensures exists rs :: LateByAtMost(rs, d)
              && Admitted(rs, Decisions(0, rpm, rs), "a", WINDOW, 2 * WINDOW) == MinuteBound(rpm, d)
  {
    hide Wave, WaveCount, WaveWindow, PlainAfter, Decisions, PlainDecisions, Admitted, WindowsInReach;
    var n := WindowsInReach(d);
    var rs := Wave(rpm, n - 1, rpm);
    WaveRun(rpm, n - 1, rpm);
    WaveCountInAll(rpm, n - 1, rpm);
    WaveIsLate(rpm, n - 1, rpm, d);
    SweptWave(rpm, rs, d);
    OneLess(n, rpm - 1);
    assert LateByAtMost(rs, d) && Admitted(rs, Decisions(0, rpm, rs), "a", WINDOW, 2 * WINDOW) == MinuteBound(rpm, d);
  }

  lemma SweptWave(rpm: nat, rs: seq<Request>, d: nat)
    requires d <= 9 * WINDOW && LateByAtMost(rs, d)
    ensures Decisions(0, rpm, rs) == PlainDecisions(rpm, rs)
  {
    assert LateByAtMost(rs, 9 * WINDOW);
    SweptRunAgrees(0, rpm, rs);
  }

  lemma OneLess(n: nat, x: nat)
    requires n > 0
    ensures (n - 1) * x + x == n * x
  {
  }

  // ----- The limiter as it runs -----

  class InProcessLimiter {
    const rpm: nat
    var byIp: map<string, Window>
    var lastSweep: int

    constructor (limit: int, now: int)
      ensures rpm == EffectiveRpm(limit) && State() == After(now, rpm, [])
      ensures rpm == (if limit > 0 then limit else 30) && byIp == map[] && lastSweep == now
    {
      rpm := EffectiveRpm(limit);
      byIp := map[];
      lastSweep := now;
    }

    ghost function State(): Limiter
      reads this
    {
      Limiter(byIp, lastSweep)
    }

    /** Visits the entries in no particular order and deletes the old ones. */
    method DropOldEntries(now: int)
      modifies this`byIp
      ensures byIp == Sweep(old(byIp), now)
      ensures forall ip :: ip in byIp <==> ip in old(byIp) && now - old(byIp)[ip].start < 600_000_000_000
      ensures forall ip :: ip in byIp ==> byIp[ip] == old(byIp)[ip]
    {
      var todo := byIp.Keys;
      while todo != {}
        invariant todo <= byIp.Keys
        invariant forall ip :: ip in byIp <==> ip in old(byIp) && (ip in todo || now - old(byIp)[ip].start < SWEEP_AGE)
        invariant forall ip :: ip in byIp ==> byIp[ip] == old(byIp)[ip]
        decreases |todo|
      {
        var ip :| ip in todo;
        todo := todo - {ip};
        if now - byIp[ip].start >= SWEEP_AGE {
          byIp := byIp - {ip};
        }
      }
    }

    /** What one request does while it holds the mutex. */
    method Allow(now: int, ip: string) returns (ok: bool)
      modifies this
      ensures State() == Step(old(State()), rpm, Request(now, ip))
      ensures ok == Admits(Swept(old(State()), now).byIp, rpm, Request(now, ip))
      ensures var sweeps := now - old(lastSweep) >= 60_000_000_000;
              var was := old(byIp);
              var known := && ip in was && (sweeps ==> now - was[ip].start < 600_000_000_000)
                           && now - was[ip].start < 60_000_000_000;
              && lastSweep == (if sweeps then now else old(lastSweep))
              && ok == (rpm > 0 && (known ==> was[ip].count < rpm))
              && ip in byIp
              && byIp[ip] == (if !known then Window(now, if ok then 1 else 0)
                              else if ok then Window(was[ip].start, was[ip].count + 1) else was[ip])
              && forall x :: x != ip ==>
                   && (x in byIp <==> x in was && (sweeps ==> now - was[x].start < 600_000_000_000))
                   && (x in byIp ==> byIp[x] == was[x])
    {
      if now - lastSweep >= WINDOW {
        DropOldEntries(now);
        lastSweep := now;
      }
      if ip !in byIp {
        byIp := byIp[ip := Window(now, 0)];
      }
      if now - byIp[ip].start >= WINDOW {
        byIp := byIp[ip := Window(now, 0)];
      }
      if byIp[ip].count >= rpm {
        return false;
      }
      byIp := byIp[ip := Window(byIp[ip].start, byIp[ip].count + 1)];
      return true;
    }

    /** A whole run through the object; up to nine windows of lateness it decides as if nothing were ever swept. */
    method Serve(rs: seq<Request>, ghost created: int) returns (ds: seq<bool>)
      requires State() == After(created, rpm, [])
      modifies this
      ensures State() == After(created, rpm, rs)
      ensures ds == Decisions(created, rpm, rs)
      ensures LateByAtMost(rs, 9 * WINDOW) ==> ds == PlainDecisions(rpm, rs)
    {
      ds := [];
      for k := 0 to |rs|
        invariant State() == After(created, rpm, rs[..k])
        invariant ds == Decisions(created, rpm, rs[..k])
      {
        assert rs[..k + 1][..k] == rs[..k];
        var ok := Allow(rs[k].now, rs[k].ip);
        ds := ds + [ok];
      }
      assert rs[..|rs|] == rs;
      if LateByAtMost(rs, 9 * WINDOW) {
        SweptRunAgrees(created, rpm, rs);
      }
    }
  }
}
