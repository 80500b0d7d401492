/** What every started desktop code was started with, and how it is consumed. */
module DesktopStarts {
  import opened Text
  import opened Base64
  import opened DesktopExchange

  /**
    Event k of the run starts a code with this entry: for a valid user and lifetime, a
    session of 3 to 128 bytes, a challenge of 43 letters of the URL-safe alphabet, and no
    callback but a loopback one.
  */
  predicate StartedBy(c: Crypto, run: seq<Event>, k: nat, e: Entry)
    requires e.Started?
  {
    && k < |run| && run[k].Start?
    && c.codeHash(run[k].raw) == e.hash && run[k].user == e.user && e.user > 0 && run[k].ttl > 0
    && TrimSpace(run[k].session) == e.session && 3 <= Utf8Length(e.session) <= 128
    && TrimSpace(run[k].challenge) == e.challenge
    && |e.challenge| == 43 && (forall i :: 0 <= i < 43 ==> InAlphabet(e.challenge[i], Url))
    && e.expires == After(c, EMPTY, run[..k]).clock - run[k].late + run[k].ttl
    && (TrimSpace(run[k].callback) == "" || c.loopback(TrimSpace(run[k].callback)))
  }

  lemma StepStarts(c: Crypto, s: System, e: Event)
    ensures var s' := Step(c, s, e);
            && s.log <= s'.log
            && forall n :: |s.log| <= n < |s'.log| && s'.log[n].Started? ==>
                 e.Start? && StartAllowed(c, e) && n == |s.log|
                 && s'.log[n] == Started(c.codeHash(e.raw), e.user, TrimSpace(e.session), TrimSpace(e.challenge),
                                         s.clock - e.late + e.ttl)
  {
    hide TrimSpace, StartAllowed, Verified;
  }

  /** In every run each started code goes back to an event that was allowed to start it. */
  lemma {:induction false} EveryStartWasAllowed(c: Crypto, run: seq<Event>, n: nat) returns (k: nat)
    requires n < |After(c, EMPTY, run).log| && After(c, EMPTY, run).log[n].Started?
    ensures StartedBy(c, run, k, After(c, EMPTY, run).log[n])
  {
    var before, last: nat := run[..|run| - 1], |run| - 1;
    var s := After(c, EMPTY, before);
    StepStarts(c, s, run[last]);
    hide Step, TrimSpace, Utf8Length;
    if n < |s.log| {
      k := EveryStartWasAllowed(c, before, n);
      assert run[..k] == before[..k];
    } else {
      k := last;
      assert run[..k] == before;
    }
  }

  /**
    A redeemer's UPDATE decides its fate on the clock it read: it wins an unused, unexpired
    code, and else has lost.
  */
  lemma ConsumeDecides(s: System, pid: nat, clock: int)
    requires pid in s.redeemers && s.redeemers[pid].phase == Reading && s.redeemers[pid].clock <= clock <= s.clock
    ensures var r := s.redeemers[pid];
            var later := ConsumeStep(s, pid, clock);
            var wins := clock < r.row.expires && r.hash in s.codes && !s.codes[r.hash].consumed;
            && later.redeemers == s.redeemers[pid := r.(clock := clock, phase := if wins then Won else Lost)]
            && later.codes == if wins then s.codes[r.hash := s.codes[r.hash].(consumed := true)] else s.codes
  {
  }
}
