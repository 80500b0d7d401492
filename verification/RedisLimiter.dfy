/**
  The shared rate limiter: replicas count requests under one Redis key per scope,
  address and minute.  A request increments its key and, when it was the first, sets
  the key's expiry with a second command, so other commands can come in between.
  A run is the sequence of commands in the order in which Redis executes them.
*/
module RedisLimiter {
  import opened Common
  import opened Text

  const SECOND: int := 1_000_000_000
  const SLOT_SECONDS: int := 60
  const EXPIRY: int := 75 * SECOND

  // ----- Keys -----

  function Slot(clock: nat): nat {
    clock / SECOND / SLOT_SECONDS
  }

  /** Colons and percent signs of the address become underscores. */
  function SafeIp(ip: string): (s: string)
    ensures |s| == |ip| && ':' !in s && '%' !in s
    ensures forall i :: 0 <= i < |ip| && ip[i] != ':' && ip[i] != '%' ==> s[i] == ip[i]
    ensures forall i :: 0 <= i < |ip| && (ip[i] == ':' || ip[i] == '%') ==> s[i] == '_'
  {
    seq(|ip|, i requires 0 <= i < |ip| => if ip[i] == ':' || ip[i] == '%' then '_' else ip[i])
  }

  function Key(scope: string, ip: string, slot: nat): string {
    "ratelimit:" + scope + ":" + SafeIp(ip) + ":" + Decimal(slot)
  }

  /** A key names one scope and one minute, whatever characters the scope has. */
  lemma KeyDeterminesSlot(scope1: string, ip1: string, slot1: nat, scope2: string, ip2: string, slot2: nat)
    requires Key(scope1, ip1, slot1) == Key(scope2, ip2, slot2)
    ensures scope1 == scope2 && SafeIp(ip1) == SafeIp(ip2) && slot1 == slot2
  {
    var a, b := "ratelimit:" + scope1 + ":" + SafeIp(ip1), "ratelimit:" + scope2 + ":" + SafeIp(ip2);
    assert Key(scope1, ip1, slot1) == a + [':'] + Decimal(slot1);
    assert Key(scope2, ip2, slot2) == b + [':'] + Decimal(slot2);
    LastSeparator(a, Decimal(slot1), b, Decimal(slot2), ':');
    DecimalRoundTrip(slot1);
    DecimalRoundTrip(slot2);
    LastSeparator("ratelimit:" + scope1, SafeIp(ip1), "ratelimit:" + scope2, SafeIp(ip2), ':');
    assert ("ratelimit:" + scope1)[10..] == scope1 && ("ratelimit:" + scope2)[10..] == scope2;
  }

  // ----- Redis -----

  /** A counter key; without an expiry it lives forever. */
  datatype Counter = Counter(value: nat, expiry: Option<int>)

  /** `owed` holds the keys whose first request has not yet sent its EXPIRE. */
  datatype Redis = Redis(counters: map<string, Counter>, owed: set<string>)

  datatype Command =
    | Incr(at: int, scope: string, ip: string, clock: nat)   // `clock` was read on the replica, `at` is Redis time
    | Expire(at: int, key: string)

  function KeyOf(c: Command): string
    requires c.Incr?
  {
    Key(c.scope, c.ip, Slot(c.clock))
  }

  predicate Live(counters: map<string, Counter>, key: string, at: int) {
    key in counters && (counters[key].expiry.None? || at < counters[key].expiry.value)
  }

  /** The reply to INCR. */
  function Reply(r: Redis, c: Command): nat
    requires c.Incr?
  {
    if Live(r.counters, KeyOf(c), c.at) then r.counters[KeyOf(c)].value + 1 else 1
  }

  function Step(r: Redis, c: Command): Redis {
    match c
    case Incr(at, _, _, _) =>
      var key, n := KeyOf(c), Reply(r, c);
      var expiry := if Live(r.counters, key, at) then r.counters[key].expiry else None;
      Redis(r.counters[key := Counter(n, expiry)], if n == 1 then r.owed + {key} else r.owed)
    case Expire(at, key) =>
      if key !in r.owed then r
      else if Live(r.counters, key, at) then
        Redis(r.counters[key := r.counters[key].(expiry := Some(at + EXPIRY))], r.owed - {key})
      else r.(owed := r.owed - {key})
  }

  function After(cs: seq<Command>): Redis {
    if |cs| == 0 then Redis(map[], {}) else Step(After(cs[..|cs| - 1]), cs[|cs| - 1])
  }

  predicate Admits(cs: seq<Command>, limit: nat)
    requires |cs| > 0 && cs[|cs| - 1].Incr?
  {
    Reply(After(cs[..|cs| - 1]), cs[|cs| - 1]) <= limit
  }

  predicate InOrder(cs: seq<Command>) {
    forall i, j :: 0 <= i < j < |cs| ==> cs[i].at <= cs[j].at
  }

  /**
    How far the clock readings of two requests may lie apart, measured against Redis
    time: clock skew between replicas plus the delay between reading the clock and
    the INCR.
  */
  predicate SpreadAtMost(cs: seq<Command>, d: int) {
    forall i, j :: 0 <= i < |cs| && 0 <= j < |cs| && cs[i].Incr? && cs[j].Incr? ==>
      (cs[i].clock - cs[i].at) - (cs[j].clock - cs[j].at) <= d
  }

  // ----- Counting -----

  function Requests(cs: seq<Command>, key: string): nat {
    if |cs| == 0 then 0
    else Requests(cs[..|cs| - 1], key) + if cs[|cs| - 1].Incr? && KeyOf(cs[|cs| - 1]) == key then 1 else 0
  }

  function Admitted(cs: seq<Command>, key: string, limit: nat): nat {
    if |cs| == 0 then 0
    else
      Admitted(cs[..|cs| - 1], key, limit)
      + if cs[|cs| - 1].Incr? && KeyOf(cs[|cs| - 1]) == key && Admits(cs, limit) then 1 else 0
  }

  /** Admitted requests of an address whose replica read a clock in the minute from `lo` on. */
  function AdmittedInMinute(cs: seq<Command>, scope: string, ip: string, limit: nat, lo: int): nat {
    if |cs| == 0 then 0
    else
      var c := cs[|cs| - 1];
      AdmittedInMinute(cs[..|cs| - 1], scope, ip, limit, lo)
      + if c.Incr? && c.scope == scope && c.ip == ip && lo <= c.clock < lo + 60 * SECOND && Admits(cs, limit)
        then 1 else 0
  }

  // ----- A key is never counted twice -----

  /** The first request under `key` came at `first`; its counter lives for 75 seconds from then at least. */
  ghost predicate CountedOnce(cs: seq<Command>, key: string, first: nat) {
    var r := After(cs);
    && first < |cs| && cs[first].Incr? && KeyOf(cs[first]) == key
    && key in r.counters
    && r.counters[key].value == Requests(cs, key) >= 1
    && (r.counters[key].expiry.None? || cs[first].at + EXPIRY <= r.counters[key].expiry.value)
  }

  ghost predicate Unused(cs: seq<Command>, key: string) {
    Requests(cs, key) == 0 && key !in After(cs).counters && key !in After(cs).owed
  }

  lemma SameKeyWithin75Seconds(a: Command, b: Command)
    requires a.Incr? && b.Incr? && KeyOf(a) == KeyOf(b)
    requires (a.clock - a.at) - (b.clock - b.at) <= 15 * SECOND
    ensures b.at < a.at + EXPIRY
  {
    KeyDeterminesSlot(a.scope, a.ip, Slot(a.clock), b.scope, b.ip, Slot(b.clock));
  }

  lemma {:induction false} KeyIsCountedOnce(cs: seq<Command>, key: string, limit: nat)
    requires InOrder(cs) && SpreadAtMost(cs, 15 * SECOND)
    ensures Unused(cs, key) || exists first: nat :: CountedOnce(cs, key, first)
    ensures Admitted(cs, key, limit) == if Requests(cs, key) <= limit then Requests(cs, key) else limit
  {
    if |cs| > 0 {
      var before, c := cs[..|cs| - 1], cs[|cs| - 1];
      KeyIsCountedOnce(before, key, limit);
      if Unused(before, key) {
        if c.Incr? && KeyOf(c) == key {
          assert CountedOnce(cs, key, |cs| - 1);
        }
      } else {
        var first: nat :| CountedOnce(before, key, first);
        if c.Incr? && KeyOf(c) == key {
          SameKeyWithin75Seconds(cs[first], c);
        }
        assert cs[first].at <= cs[|cs| - 1].at;
        assert CountedOnce(cs, key, first);
      }
    }
  }

  /** Two requests under one key, 75 seconds of Redis time apart: the counter starts again. */
  function FarApart(): seq<Command> {
    [Incr(0, "s", "ip", 0), Expire(0, Key("s", "ip", 0)), Incr(EXPIRY, "s", "ip", 60 * SECOND - 1)]
  }

  lemma FarApartAdmitsTwo()
    ensures InOrder(FarApart()) && SpreadAtMost(FarApart(), 15 * SECOND + 1)
    ensures Admitted(FarApart(), Key("s", "ip", 0), 1) == 2
  {
    var k := Key("s", "ip", 0);
    var a, b, c := Incr(0, "s", "ip", 0), Expire(0, k), Incr(EXPIRY, "s", "ip", 60 * SECOND - 1);
    var cs := FarApart();
    assert KeyOf(a) == k && KeyOf(c) == k;
    assert cs[..2] == [a, b] && [a, b][..1] == [a] && [a][..0] == [];
    assert After([a]) == Step(After([]), a) == Redis(map[k := Counter(1, None)], {k});
    assert After([a, b]) == Step(After([a]), b);
    assert After([a, b]).counters == map[k := Counter(1, Some(EXPIRY))];
    assert Admitted([a], k, 1) == 1;
    assert Admitted([a, b], k, 1) == 1;
  }

  /**
    Over all replicas and in every order of commands, a key admits at most `limit`
    requests, if and only if clock readings never spread by more than 15 seconds.
  */
  lemma LimitHoldsUpToFifteenSeconds(d: nat)
    ensures (forall cs: seq<Command>, key: string, limit: nat ::
               InOrder(cs) && SpreadAtMost(cs, d) ==> Admitted(cs, key, limit) <= limit)
            <==> d <= 15 * SECOND
  {
    if d <= 15 * SECOND {
      forall cs: seq<Command>, key: string, limit: nat | InOrder(cs) && SpreadAtMost(cs, d)
        ensures Admitted(cs, key, limit) <= limit
      {
        assert SpreadAtMost(cs, 15 * SECOND);
        KeyIsCountedOnce(cs, key, limit);
      }
    } else {
      FarApartAdmitsTwo();
      assert SpreadAtMost(FarApart(), d);
    }
  }

  // ----- Any minute -----

  lemma {:induction false} MinuteSpansTwoSlots(cs: seq<Command>, scope: string, ip: string, limit: nat, lo: nat)
    ensures AdmittedInMinute(cs, scope, ip, limit, lo)
            <= Admitted(cs, Key(scope, ip, Slot(lo)), limit) + Admitted(cs, Key(scope, ip, Slot(lo) + 1), limit)
  {
    if |cs| > 0 {
      MinuteSpansTwoSlots(cs[..|cs| - 1], scope, ip, limit, lo);
      var c := cs[|cs| - 1];
      if c.Incr? && lo <= c.clock < lo + 60 * SECOND {
        assert Slot(c.clock) == Slot(lo) || Slot(c.clock) == Slot(lo) + 1;
      }
    }
  }

  /** Any half-open minute of clock readings admits at most twice the limit. */
  lemma AnyMinuteAdmitsAtMostTwiceTheLimit(cs: seq<Command>, scope: string, ip: string, limit: nat, lo: nat)
    requires InOrder(cs) && SpreadAtMost(cs, 15 * SECOND)
    ensures AdmittedInMinute(cs, scope, ip, limit, lo) <= 2 * limit
  {
    MinuteSpansTwoSlots(cs, scope, ip, limit, lo);
    KeyIsCountedOnce(cs, Key(scope, ip, Slot(lo)), limit);
    KeyIsCountedOnce(cs, Key(scope, ip, Slot(lo) + 1), limit);
  }

  // ----- Bursts of one command -----

  const MINUTE: int := 60 * SECOND

  /** `n` more of the same command. */
  function Burst(cs: seq<Command>, c: Command, n: nat): (burst: seq<Command>)
    ensures |burst| == |cs| + n
    ensures n > 0 ==> burst[|burst| - 1] == c
  {
    if n == 0 then cs else Burst(cs, c, n - 1) + [c]
  }

  /** Requests of this address at times up to `last`, with clocks from `low` to `high` ahead of Redis time. */
  ghost predicate Orderly(cs: seq<Command>, last: int, low: int, high: int) {
    && InOrder(cs) && (forall i :: 0 <= i < |cs| ==> cs[i].at <= last)
    && (forall i :: 0 <= i < |cs| && cs[i].Incr? ==> low <= cs[i].clock - cs[i].at <= high)
  }

  lemma {:induction false} BurstIsOrderly(cs: seq<Command>, c: Command, n: nat, last: int, low: int, high: int)
    requires Orderly(cs, last, low, high) && last <= c.at && (c.Incr? ==> low <= c.clock - c.at <= high)
    ensures Orderly(Burst(cs, c, n), c.at, low, high)
  {
    if n > 0 {
      BurstIsOrderly(cs, c, n - 1, last, low, high);
    }
  }

  lemma OneMoreCommand(cs: seq<Command>, c: Command, scope: string, ip: string, limit: nat, lo: int)
    ensures After(cs + [c]) == Step(After(cs), c)
    ensures AdmittedInMinute(cs + [c], scope, ip, limit, lo)
            == AdmittedInMinute(cs, scope, ip, limit, lo)
               + if c.Incr? && c.scope == scope && c.ip == ip && lo <= c.clock < lo + MINUTE
                    && Reply(After(cs), c) <= limit then 1 else 0
  {
    assert (cs + [c])[..|cs|] == cs;
  }

  /** What a key has counted so far. */
  function ValueOf(r: Redis, key: string, at: int): nat {
    if Live(r.counters, key, at) then r.counters[key].value else 0
  }

  /** Counting under one key leaves the others alone, and the expiry of a key that lives. */
  ghost predicate CountsMore(r: Redis, r': Redis, key: string, at: int, n: nat) {
    && ValueOf(r', key, at) == ValueOf(r, key, at) + n
    && (forall k :: k != key ==> (k in r.counters <==> k in r'.counters))
    && (Live(r.counters, key, at) ==> key in r'.counters && r'.counters[key].expiry == r.counters[key].expiry)
  }

  lemma IncrCountsOneMore(r: Redis, r': Redis, c: Command, n: nat)
    requires c.Incr? && CountsMore(r, r', KeyOf(c), c.at, n)
    ensures CountsMore(r, Step(r', c), KeyOf(c), c.at, n + 1)
    ensures Reply(r', c) == ValueOf(r, KeyOf(c), c.at) + n + 1
  {
    hide KeyOf;
  }

  lemma NothingMore(r: Redis, key: string, at: int)
    ensures CountsMore(r, r, key, at, 0)
  {
  }

  /** A burst within the limit is admitted, and counted under its key alone. */
  lemma {:induction false} BurstIsAdmitted(cs: seq<Command>, c: Command, n: nat, limit: nat, lo: int)
    requires c.Incr? && ValueOf(After(cs), KeyOf(c), c.at) + n <= limit
    ensures CountsMore(After(cs), After(Burst(cs, c, n)), KeyOf(c), c.at, n)
    ensures AdmittedInMinute(Burst(cs, c, n), c.scope, c.ip, limit, lo)
            == AdmittedInMinute(cs, c.scope, c.ip, limit, lo) + if lo <= c.clock < lo + MINUTE then n else 0
  {
    hide KeyOf, CountsMore, ValueOf, After, Step, Reply, AdmittedInMinute;
    NothingMore(After(cs), KeyOf(c), c.at);
    if n > 0 {
      BurstIsAdmitted(cs, c, n - 1, limit, lo);
      OneMoreCommand(Burst(cs, c, n - 1), c, c.scope, c.ip, limit, lo);
      IncrCountsOneMore(After(cs), After(Burst(cs, c, n - 1)), c, n - 1);
    }
  }

  lemma KeysDiffer(scope: string, ip: string)
    ensures Key(scope, ip, 0) != Key(scope, ip, 1)
  {
    if Key(scope, ip, 0) == Key(scope, ip, 1) {
      KeyDeterminesSlot(scope, ip, 0, scope, ip, 1);
    }
  }

  lemma KeyOfSlot(c: Command)
    requires c.Incr? && 0 <= c.clock <= MINUTE
    ensures KeyOf(c) == Key(c.scope, c.ip, if c.clock < MINUTE then 0 else 1)
  {
  }

  // ----- Twice the limit is reached, and when it is exceeded -----

  /** The limit at the end of one minute of the clock, and the limit at the start of the next. */
  function AcrossSlots(scope: string, ip: string, limit: nat): seq<Command> {
    Burst(Burst([], Incr(MINUTE - 1, scope, ip, MINUTE - 1), limit), Incr(MINUTE, scope, ip, MINUTE), limit)
  }

  lemma AcrossSlotsIsOrderly(scope: string, ip: string, limit: nat)
    ensures InOrder(AcrossSlots(scope, ip, limit)) && SpreadAtMost(AcrossSlots(scope, ip, limit), 0)
  {
    hide KeyOf;
    var a, b := Incr(MINUTE - 1, scope, ip, MINUTE - 1), Incr(MINUTE, scope, ip, MINUTE);
    var first := Burst([], a, limit);
    assert Orderly([], 0, 0, 0);
    hide Orderly, Burst;
    BurstIsOrderly([], a, limit, 0, 0, 0);
    BurstIsOrderly(first, b, limit, a.at, 0, 0);
  }

  /** Clocks that agree with Redis time can have twice the limit admitted within a minute. */
  lemma TwiceTheLimitIsReached(scope: string, ip: string, limit: nat)
    ensures InOrder(AcrossSlots(scope, ip, limit)) && SpreadAtMost(AcrossSlots(scope, ip, limit), 0)
    ensures AdmittedInMinute(AcrossSlots(scope, ip, limit), scope, ip, limit, MINUTE - 1) == 2 * limit
  {
    AcrossSlotsIsOrderly(scope, ip, limit);
    hide Key, Slot, KeyOf, Step, InOrder, SpreadAtMost;
    var a, b := Incr(MINUTE - 1, scope, ip, MINUTE - 1), Incr(MINUTE, scope, ip, MINUTE);
    KeyOfSlot(a);
    KeyOfSlot(b);
    KeysDiffer(scope, ip);
    assert After([]) == Redis(map[], {}) && AdmittedInMinute([], scope, ip, limit, MINUTE - 1) == 0;
    hide After, AdmittedInMinute, Burst;
    var first := Burst([], a, limit);
    BurstIsAdmitted([], a, limit, limit, MINUTE - 1);
    BurstIsAdmitted(first, b, limit, limit, MINUTE - 1);
  }

  /** The first request of a minute of the clock, and its EXPIRE. */
  function Begun(scope: string, ip: string): seq<Command> {
    [] + [Incr(0, scope, ip, 0)] + [Expire(0, Key(scope, ip, 0))]
  }

  /**
    That key expires when, on a clock 15 seconds and a nanosecond late, the last request
    of its minute comes; so it admits its limit twice, all but the first request in the
    minute from 1 on, and two more follow under the next key.
  */
  function Restarted(scope: string, ip: string, limit: nat): seq<Command>
    requires limit >= 2
  {
    var filled := Burst(Begun(scope, ip), Incr(1, scope, ip, 1), limit - 1);
    var again := Burst(filled, Incr(EXPIRY, scope, ip, MINUTE - 1), limit);
    Burst(again, Incr(EXPIRY, scope, ip, MINUTE), 2)
  }

  const LATEST: int := -15 * SECOND - 1

  lemma BegunKey(scope: string, ip: string, limit: nat)
    requires limit >= 2
    ensures After(Begun(scope, ip)).counters == map[Key(scope, ip, 0) := Counter(1, Some(EXPIRY))]
    ensures AdmittedInMinute(Begun(scope, ip), scope, ip, limit, 1) == 0
  {
    hide Key, Slot, KeyOf;
    var a, e := Incr(0, scope, ip, 0), Expire(0, Key(scope, ip, 0));
    KeyOfSlot(a);
    assert After([]) == Redis(map[], {}) && AdmittedInMinute([], scope, ip, limit, 1) == 0;
    hide After, AdmittedInMinute, Step, Reply;
    OneMoreCommand([], a, scope, ip, limit, 1);
    OneMoreCommand([] + [a], e, scope, ip, limit, 1);
  }

  lemma RestartedIsOrderly(scope: string, ip: string, limit: nat)
    requires limit >= 2
    ensures InOrder(Restarted(scope, ip, limit)) && SpreadAtMost(Restarted(scope, ip, limit), 15 * SECOND + 1)
  {
    hide Key, Slot, KeyOf, After, AdmittedInMinute;
    var b, c, d := Incr(1, scope, ip, 1), Incr(EXPIRY, scope, ip, MINUTE - 1), Incr(EXPIRY, scope, ip, MINUTE);
    hide Burst, Begun, Orderly;
    var filled := Burst(Begun(scope, ip), b, limit - 1);
    BurstIsOrderly(Begun(scope, ip), b, limit - 1, 0, LATEST, 0);
    var again := Burst(filled, c, limit);
    BurstIsOrderly(filled, c, limit, 1, LATEST, 0);
    BurstIsOrderly(again, d, 2, EXPIRY, LATEST, 0);
  }

  lemma RestartedExceedsTwice(scope: string, ip: string, limit: nat)
    requires limit >= 2
    ensures AdmittedInMinute(Restarted(scope, ip, limit), scope, ip, limit, 1) == 2 * limit + 1
  {
    hide Key, Slot, KeyOf, After, AdmittedInMinute;
    var b, c, d := Incr(1, scope, ip, 1), Incr(EXPIRY, scope, ip, MINUTE - 1), Incr(EXPIRY, scope, ip, MINUTE);
    KeyOfSlot(b);
    KeyOfSlot(c);
    KeyOfSlot(d);
    KeysDiffer(scope, ip);
    BegunKey(scope, ip, limit);
    hide Burst, Begun;
    var filled := Burst(Begun(scope, ip), b, limit - 1);
    BurstIsAdmitted(Begun(scope, ip), b, limit - 1, limit, 1);
    var again := Burst(filled, c, limit);
    BurstIsAdmitted(filled, c, limit, limit, 1);
    BurstIsAdmitted(again, d, 2, limit, 1);
  }

  /**
    For every limit from two on, no minute of clock readings admits more than twice the
    limit, over all runs, if and only if readings never spread by more than 15 seconds.
  */
  lemma TwiceTheLimitHoldsUpToFifteenSeconds(limit: nat, d: nat)
    requires limit >= 2
    ensures (forall cs: seq<Command>, scope: string, ip: string, lo: nat ::
               InOrder(cs) && SpreadAtMost(cs, d) ==> AdmittedInMinute(cs, scope, ip, limit, lo) <= 2 * limit)
            <==> d <= 15 * SECOND
  {
    hide AdmittedInMinute, Restarted, InOrder;
    if d <= 15 * SECOND {
      forall cs: seq<Command>, scope: string, ip: string, lo: nat | InOrder(cs) && SpreadAtMost(cs, d)
        ensures AdmittedInMinute(cs, scope, ip, limit, lo) <= 2 * limit
      {
        assert SpreadAtMost(cs, 15 * SECOND);
        AnyMinuteAdmitsAtMostTwiceTheLimit(cs, scope, ip, limit, lo);
      }
    } else {
      RestartedIsOrderly("scope", "ip", limit);
      RestartedExceedsTwice("scope", "ip", limit);
      assert SpreadAtMost(Restarted("scope", "ip", limit), d);
    }
  }

  // ----- The server and its client -----

  class Server {
    var counters: map<string, Counter>
    ghost var owed: set<string>

    constructor ()
      ensures State() == After([])
    {
      counters := map[];
      owed := {};
    }

    ghost function State(): Redis
      reads this
    {
      Redis(counters, owed)
    }

    /** The first command of a request; the caller owes EXPIRE when the reply is 1. */
    method IncrKey(at: int, scope: string, ip: string, clock: nat) returns (n: nat, key: string)
      modifies this
      ensures var c := Incr(at, scope, ip, clock);
              n == Reply(old(State()), c) && key == KeyOf(c) && State() == Step(old(State()), c)
      ensures key == "ratelimit:" + scope + ":" + SafeIp(ip) + ":" + Decimal(clock / 60_000_000_000)
      ensures var was := old(counters);
              var live := key in was && (was[key].expiry.Some? ==> at < was[key].expiry.value);
              && n == (if live then was[key].value + 1 else 1)
              && counters == was[key := Counter(n, if live then was[key].expiry else None)]
              && owed == if n == 1 then old(owed) + {key} else old(owed)
    {
      key := Key(scope, ip, clock / SECOND / SLOT_SECONDS);
      if key in counters && (counters[key].expiry.None? || at < counters[key].expiry.value) {
        n := counters[key].value + 1;
        counters := counters[key := counters[key].(value := n)];
      } else {
        n := 1;
        counters := counters[key := Counter(1, None)];
      }
      if n == 1 {
        owed := owed + {key};
      }
    }

    method ExpireKey(at: int, key: string)
      requires key in owed
      modifies this
      ensures State() == Step(old(State()), Expire(at, key))
      ensures var was := old(counters);
              var live := key in was && (was[key].expiry.Some? ==> at < was[key].expiry.value);
              && owed == old(owed) - {key}
              && counters == if live then was[key := Counter(was[key].value, Some(at + 75_000_000_000))] else was
    {
      if key in counters && (counters[key].expiry.None? || at < counters[key].expiry.value) {
        counters := counters[key := counters[key].(expiry := Some(at + EXPIRY))];
      }
      owed := owed - {key};
    }

    /** A request whose two commands are not interrupted. */
    method Allow(at: int, scope: string, ip: string, clock: nat, limit: nat) returns (ok: bool)
      modifies this
      ensures var c := Incr(at, scope, ip, clock);
              && ok == (Reply(old(State()), c) <= limit)
              && State() == if Reply(old(State()), c) == 1 then Step(Step(old(State()), c), Expire(at, KeyOf(c)))
                            else Step(old(State()), c)
      ensures var key := "ratelimit:" + scope + ":" + SafeIp(ip) + ":" + Decimal(clock / 60_000_000_000);
              var was := old(counters);
              var live := key in was && (was[key].expiry.Some? ==> at < was[key].expiry.value);
              if live && was[key].value > 0 then
                && ok == (was[key].value + 1 <= limit)
                && counters == was[key := Counter(was[key].value + 1, was[key].expiry)]
              else ok == (1 <= limit) && counters == was[key := Counter(1, Some(at + 75_000_000_000))]
    {
      var n, key := IncrKey(at, scope, ip, clock);
      if n == 1 {
        ExpireKey(at, key);
      }
      ok := n <= limit;
    }
  }
}
