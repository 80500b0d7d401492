/** What the deletion of a user means for its desktop codes, which it leaves alone. */
module DesktopDeletion {
  import opened Text
  import opened Base64
  import opened DesktopCodes
  import opened DesktopExchange

  // ----- What can still become a token -----

  /** Some raw code has this hash, and some verifier matches the challenge. */
  ghost predicate Redeemable(c: Crypto, h: string, challenge: string) {
    && (exists raw :: OpaqueCode(raw) && c.codeHash(raw) == h)
    && (exists v :: Verifier(v) && PkceS256(c.sha256, v) == challenge)
  }

  /** An unused, unexpired code of the user that can be redeemed. */
  ghost predicate OpenCode(c: Crypto, s: System, user: int, h: string) {
    && h in s.codes && s.codes[h].user == user && !s.codes[h].consumed && s.clock < s.codes[h].expires
    && Redeemable(c, h, s.codes[h].challenge)
  }

  /** A redeemer past its SELECT that has a matching verifier, and that won or can still win. */
  predicate Redeeming(c: Crypto, s: System, user: int, p: nat) {
    && p in s.redeemers && s.redeemers[p].row.user == user && Verified(c, s.redeemers[p])
    && var r := s.redeemers[p];
       || r.phase == Won
       || (r.phase == Reading && r.clock < r.row.expires && r.hash in s.codes && !s.codes[r.hash].consumed)
  }

  ghost predicate Pays(c: Crypto, s: System, user: int) {
    (exists h :: OpenCode(c, s, user, h)) || (exists p :: Redeeming(c, s, user, p))
  }

  /** The user starts no further code. */
  predicate StartsNone(more: seq<Event>, user: int) {
    forall i :: 0 <= i < |more| && more[i].Start? ==> more[i].user != user
  }

  /** Entries from position `from` on hold a token of the user. */
  predicate TokenSince(s: System, from: nat, user: int) {
    exists n :: from <= n < |s.log| && s.log[n].Token? && s.log[n].user == user
  }

  // ----- Where nothing can, nothing will -----

  /** A redeemer of an unexpired code with a matching verifier shows that the code was open. */
  lemma SelectedWasOpen(c: Crypto, s: System, e: Event, user: int)
    requires e.Select? && CodesOk(s) && SelectStep(c, s, e) != s
    requires var r := SelectStep(c, s, e).redeemers[e.pid];
             r.row.user == user && Verified(c, r) && r.clock < r.row.expires
    ensures OpenCode(c, s, user, c.codeHash(TrimSpace(e.raw)))
  {
    hide OpaqueCode, Verifier, TrimSpace, PkceS256, CodesOk;
    assert OpaqueCode(TrimSpace(e.raw)) && Verifier(TrimSpace(e.verifier));
    StoredTextIsTrimmed(s, c.codeHash(TrimSpace(e.raw)));
  }

  lemma SelectOpensNothing(c: Crypto, s: System, e: Event, user: int)
    requires e.Select? && CodesOk(s) && !Pays(c, s, user)
    ensures !Pays(c, SelectStep(c, s, e), user)
  {
    var s' := SelectStep(c, s, e);
    hide OpaqueCode, Verifier, TrimSpace, PkceS256, CodesOk;
    forall h ensures !OpenCode(c, s', user, h) {
      assert !OpenCode(c, s, user, h);
    }
    forall p: nat ensures !Redeeming(c, s', user, p) {
      assert !Redeeming(c, s, user, p);
      if s' != s && p == e.pid && Redeeming(c, s', user, p) {
        SelectedWasOpen(c, s, e, user);
      }
    }
  }

  lemma ConsumeOpensNothing(c: Crypto, s: System, pid: nat, clock: int, user: int)
    requires RedeemersOk(s) && !Pays(c, s, user)
    ensures !Pays(c, ConsumeStep(s, pid, clock), user)
  {
    var s' := ConsumeStep(s, pid, clock);
    hide Redeemable, TrimSpace, PkceS256;
    forall h ensures !OpenCode(c, s', user, h) {
      assert !OpenCode(c, s, user, h);
    }
    forall p: nat ensures !Redeeming(c, s', user, p) {
      assert !Redeeming(c, s, user, p);
    }
  }

  lemma MintOpensNothing(c: Crypto, s: System, pid: nat, user: int)
    requires !Pays(c, s, user)
    ensures !Pays(c, MintStep(c, s, pid), user)
    ensures var s' := MintStep(c, s, pid); s.log <= s'.log && !TokenSince(s', |s.log|, user)
  {
    var s' := MintStep(c, s, pid);
    hide Redeemable, TrimSpace, PkceS256;
    forall h ensures !OpenCode(c, s', user, h) {
      assert !OpenCode(c, s, user, h);
    }
    forall p: nat ensures !Redeeming(c, s', user, p) {
      assert !Redeeming(c, s, user, p);
    }
    assert !Redeeming(c, s, user, pid);
  }

  lemma OthersOpenNothing(c: Crypto, s: System, e: Event, user: int)
    requires e.Tick? || e.Delete? || (e.Start? && e.user != user)
    requires RedeemersOk(s) && !Pays(c, s, user)
    ensures !Pays(c, Step(c, s, e), user)
  {
    var s' := Step(c, s, e);
    hide Redeemable, TrimSpace, PkceS256, Challenge;
    forall h ensures !OpenCode(c, s', user, h) {
      assert !OpenCode(c, s, user, h);
    }
    forall p: nat ensures !Redeeming(c, s', user, p) {
      assert !Redeeming(c, s, user, p);
    }
  }

  lemma OnlyMintsIssue(c: Crypto, s: System, e: Event, user: int)
    requires !e.Mint?
    ensures var s' := Step(c, s, e); s.log <= s'.log && !TokenSince(s', |s.log|, user)
  {
    hide TrimSpace, Challenge, OpaqueCode, Verifier;
  }

  lemma StepOpensNothing(c: Crypto, s: System, e: Event, user: int)
    requires Inv(c, s) && !Pays(c, s, user) && (e.Start? ==> e.user != user)
    ensures !Pays(c, Step(c, s, e), user)
    ensures var s' := Step(c, s, e); s.log <= s'.log && !TokenSince(s', |s.log|, user)
  {
    hide Pays, TokenSince, CodesOk, RedeemersOk, TokensOk, StartStep, SelectStep, ConsumeStep, MintStep;
    match e
    case Select(_, _, _) =>
      SelectOpensNothing(c, s, e, user);
      OnlyMintsIssue(c, s, e, user);
    case Consume(pid, clock) =>
      ConsumeOpensNothing(c, s, pid, clock, user);
      OnlyMintsIssue(c, s, e, user);
    case Mint(pid) => MintOpensNothing(c, s, pid, user);
    case _ =>
      OthersOpenNothing(c, s, e, user);
      OnlyMintsIssue(c, s, e, user);
  }

  lemma {:induction false} NothingIsPaid(c: Crypto, s: System, more: seq<Event>, user: int)
    requires Inv(c, s) && !Pays(c, s, user) && StartsNone(more, user)
    ensures var s' := After(c, s, more);
            Inv(c, s') && !Pays(c, s', user) && s.log <= s'.log && !TokenSince(s', |s.log|, user)
  {
    hide Step, Inv, Pays;
    if |more| > 0 {
      var before, e := After(c, s, more[..|more| - 1]), more[|more| - 1];
      NothingIsPaid(c, s, more[..|more| - 1], user);
      StepKeepsInv(c, before, e);
      StepOpensNothing(c, before, e, user);
      NoTokenOverall(before, Step(c, before, e), |s.log|, user);
    }
  }

  lemma NoTokenOverall(s: System, s': System, from: nat, user: int)
    requires s.log <= s'.log && !TokenSince(s, from, user) && !TokenSince(s', |s.log|, user)
    ensures !TokenSince(s', from, user)
  {
    forall n | from <= n < |s'.log| && s'.log[n].Token? ensures s'.log[n].user != user {
      if n < |s.log| {
        assert s'.log[n] == s.log[n];
      }
    }
  }

  // ----- Where something can, something may -----

  lemma WinnerIsPaid(c: Crypto, s: System, user: int, p: nat)
    requires CodesOk(s) && RedeemersOk(s) && Redeeming(c, s, user, p) && s.redeemers[p].phase == Won
    ensures TokenSince(Step(c, s, Mint(p)), |s.log|, user)
  {
    StoredTextIsTrimmed(s, s.redeemers[p].hash);
    assert MintStep(c, s, p).log[|s.log|].Token?;
  }

  lemma ReaderCanWin(c: Crypto, s: System, user: int, p: nat)
    requires RedeemersOk(s) && Redeeming(c, s, user, p) && s.redeemers[p].phase == Reading
    ensures var s' := Step(c, s, Consume(p, s.redeemers[p].clock));
            s'.log == s.log && Redeeming(c, s', user, p) && s'.redeemers[p].phase == Won
  {
    hide TrimSpace, PkceS256;
  }

  lemma LargerThanAll(pids: set<nat>) returns (p: nat)
    ensures forall q :: q in pids ==> q < p
    decreases |pids|
  {
    if pids == {} {
      p := 0;
    } else {
      var q :| q in pids;
      var r := LargerThanAll(pids - {q});
      p := if q < r then r else q + 1;
      assert forall x :: x in pids ==> x == q || x in pids - {q};
    }
  }

  lemma OpenCodeCanBeRead(c: Crypto, s: System, user: int, h: string) returns (e: Event)
    requires CodesOk(s) && OpenCode(c, s, user, h)
    ensures e.Select?
    ensures var s' := Step(c, s, e); s'.log == s.log && Redeeming(c, s', user, e.pid)
  {
    var p := LargerThanAll(s.redeemers.Keys);
    var raw :| OpaqueCode(raw) && c.codeHash(raw) == h;
    var v :| Verifier(v) && PkceS256(c.sha256, v) == s.codes[h].challenge;
    StoredTextIsTrimmed(s, h);
    hide TrimSpace, PkceS256, OpaqueCode, Verifier, CodesOk, Redeemable;
    e := Select(p, raw, v);
    assert Step(c, s, e) == s.(redeemers := s.redeemers[p := Redeemer(h, v, s.codes[h], s.clock, Reading)]);
  }

  lemma {:induction false} StepThen(c: Crypto, s: System, e: Event, rest: seq<Event>)
    ensures After(c, s, [e] + rest) == After(c, Step(c, s, e), rest)
  {
    if |rest| == 0 {
      assert [e] + rest == [e] && [e][..0] == [];
    } else {
      assert ([e] + rest)[..|rest|] == [e] + rest[..|rest| - 1];
      StepThen(c, s, e, rest[..|rest| - 1]);
    }
  }

  lemma NoneMore(e: Event, rest: seq<Event>, user: int)
    requires !e.Start? && StartsNone(rest, user)
    ensures StartsNone([e] + rest, user)
  {
  }

  lemma WinnerGetsToken(c: Crypto, s: System, user: int, p: nat) returns (more: seq<Event>)
    requires Inv(c, s) && Redeeming(c, s, user, p) && s.redeemers[p].phase == Won
    ensures StartsNone(more, user) && TokenSince(After(c, s, more), |s.log|, user)
  {
    WinnerIsPaid(c, s, user, p);
    hide After, Step;
    more := [Mint(p)];
    StepThen(c, s, Mint(p), []);
    assert [Mint(p)] + [] == [Mint(p)];
  }

  lemma ReaderGetsToken(c: Crypto, s: System, user: int, p: nat) returns (more: seq<Event>)
    requires Inv(c, s) && Redeeming(c, s, user, p)
    ensures StartsNone(more, user) && TokenSince(After(c, s, more), |s.log|, user)
  {
    assert p in s.redeemers && (s.redeemers[p].phase == Won || s.redeemers[p].phase == Reading);
    hide After, Step, Redeeming, CodesOk, RedeemersOk, TokensOk, TokenSince, StartsNone;
    if s.redeemers[p].phase == Won {
      more := WinnerGetsToken(c, s, user, p);
    } else {
      var e := Consume(p, s.redeemers[p].clock);
      ReaderCanWin(c, s, user, p);
      StepKeepsInv(c, s, e);
      var rest := WinnerGetsToken(c, Step(c, s, e), user, p);
      StepThen(c, s, e, rest);
      NoneMore(e, rest, user);
      more := [e] + rest;
    }
  }

  lemma PayingStateCanPay(c: Crypto, s: System, user: int) returns (more: seq<Event>)
    requires Inv(c, s) && Pays(c, s, user)
    ensures StartsNone(more, user) && TokenSince(After(c, s, more), |s.log|, user)
  {
    hide After, OpenCode, Redeeming, Step, StartsNone, TokenSince, CodesOk, RedeemersOk, TokensOk;
    if p: nat :| Redeeming(c, s, user, p) {
      more := ReaderGetsToken(c, s, user, p);
    } else {
      var h :| OpenCode(c, s, user, h);
      var e := OpenCodeCanBeRead(c, s, user, h);
      StepKeepsInv(c, s, e);
      var rest := ReaderGetsToken(c, Step(c, s, e), user, e.pid);
      StepThen(c, s, e, rest);
      NoneMore(e, rest, user);
      more := [e] + rest;
    }
  }

  lemma OneMoreStep(c: Crypto, s: System, more: seq<Event>, e: Event)
    ensures After(c, s, more + [e]) == Step(c, After(c, s, more), e)
  {
  }

  // ----- Deletion -----

  /**
    From any reachable state on, a user that starts no further code gets a token in some
    continuation exactly if the state pays.
  */
  lemma TokensComeExactlyFrom(c: Crypto, run: seq<Event>, user: int)
    ensures var s := After(c, EMPTY, run);
            (exists more :: StartsNone(more, user) && TokenSince(After(c, s, more), |s.log|, user))
            <==> Pays(c, s, user)
  {
    hide After, Inv, Pays, StartsNone, TokenSince;
    var s := After(c, EMPTY, run);
    EmptyIsFine(c);
    InvHolds(c, EMPTY, run);
    if Pays(c, s, user) {
      var more := PayingStateCanPay(c, s, user);
    } else {
      forall more | StartsNone(more, user) ensures !TokenSince(After(c, s, more), |s.log|, user) {
        NothingIsPaid(c, s, more, user);
      }
    }
  }

  /**
    After the deletion of a user who starts no further code, no token is minted for the
    user in any continuation if and only if, before it, the user had no unused,
    unexpired code that can be redeemed, and no redeemer past its SELECT that can win.
  */
  lemma DeletionEndsTokensExactlyWhen(c: Crypto, run: seq<Event>, user: int)
    ensures var s := After(c, EMPTY, run + [Delete(user)]);
            (forall more :: StartsNone(more, user) ==> !TokenSince(After(c, s, more), |s.log|, user))
            <==> !Pays(c, After(c, EMPTY, run), user)
  {
    TokensComeExactlyFrom(c, run + [Delete(user)], user);
    OneMoreStep(c, EMPTY, run, Delete(user));
    DeletionChangesNothing(c, After(c, EMPTY, run), user);
    hide After, Pays, StartsNone, TokenSince;
  }

  lemma DeletionChangesNothing(c: Crypto, s: System, user: int)
    ensures Pays(c, Step(c, s, Delete(user)), user) <==> Pays(c, s, user)
  {
    var s' := Step(c, s, Delete(user));
    forall h ensures OpenCode(c, s', user, h) <==> OpenCode(c, s, user, h) {
    }
    forall p: nat ensures Redeeming(c, s', user, p) <==> Redeeming(c, s, user, p) {
    }
  }
}
