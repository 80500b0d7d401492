/**
  One-time desktop codes with PKCE.  A redeemer reads the row of its code, decides on
  its own clock whether the code has expired, consumes the row with a conditional
  UPDATE and, in a further step, checks the verifier and mints a token.  The steps of
  different redeemers interleave freely: nothing here relies on the row lock that the
  first two steps hold in the database.
*/
module DesktopExchange {
  import opened Common
  import opened Text
  import opened Base64
  import opened DesktopCodes

  /** The hash of raw codes, SHA-256 of verifiers, and which callback URIs are loopback ones. */
  datatype Crypto = Crypto(codeHash: string -> string, sha256: string -> Bytes, loopback: string -> bool)

  datatype Code = Code(user: int, session: string, challenge: string, expires: int, consumed: bool)

  /** Reading, then Lost or Won; a winner has a token Issued or has Burned its code. */
  datatype Phase = Reading | Lost | Won | Issued | Burned

  datatype Redeemer = Redeemer(hash: string, verifier: string, row: Code, clock: int, phase: Phase)

  datatype Entry =
    | Started(hash: string, user: int, session: string, challenge: string, expires: int)
    | Token(pid: nat, hash: string, user: int, session: string, verifier: string, redeemedAt: int)
    | Deleted(user: int)

  datatype System = System(clock: int, codes: map<string, Code>, redeemers: map<nat, Redeemer>, log: seq<Entry>)

  datatype Event =
    | Tick(elapsed: nat)
    | Start(
        user: int, raw: string, session: string, challenge: string, callback: string, ttl: int,
        late: nat)                        // how long before the INSERT the clock was read
    | Select(pid: nat, raw: string, verifier: string)
    | Consume(pid: nat, clock: int)       // the clock as read between the SELECT and the UPDATE
    | Mint(pid: nat)
    | Delete(user: int)                   // a deletion leaves codes alone, and no step here looks at users

  const EMPTY := System(0, map[], map[], [])

  // ----- Steps -----

  predicate StartAllowed(c: Crypto, e: Event)
    requires e.Start?
  {
    && e.user > 0 && e.ttl > 0
    && 3 <= Utf8Length(TrimSpace(e.session)) <= 128
    && Challenge(TrimSpace(e.challenge))
    && (TrimSpace(e.callback) == "" || c.loopback(TrimSpace(e.callback)))
  }

  function StartStep(c: Crypto, s: System, e: Event): System
    requires e.Start?
  {
    var h := c.codeHash(e.raw);
    if !StartAllowed(c, e) || h in s.codes then s
    else
      var row := Code(e.user, TrimSpace(e.session), TrimSpace(e.challenge), s.clock - e.late + e.ttl, false);
      s.(codes := s.codes[h := row],
         log := s.log + [Started(h, row.user, row.session, row.challenge, row.expires)])
  }

  function SelectStep(c: Crypto, s: System, e: Event): System
    requires e.Select?
  {
    var raw, verifier := TrimSpace(e.raw), TrimSpace(e.verifier);
    var h := c.codeHash(raw);
    if e.pid in s.redeemers || !OpaqueCode(raw) || !Verifier(verifier) || h !in s.codes || s.codes[h].consumed then s
    else s.(redeemers := s.redeemers[e.pid := Redeemer(h, verifier, s.codes[h], s.clock, Reading)])
  }

  function ConsumeStep(s: System, pid: nat, clock: int): System {
    if pid !in s.redeemers || s.redeemers[pid].phase != Reading || !(s.redeemers[pid].clock <= clock <= s.clock) then s
    else
      var r := s.redeemers[pid];
      if clock >= r.row.expires || r.hash !in s.codes || s.codes[r.hash].consumed then
        s.(redeemers := s.redeemers[pid := r.(clock := clock, phase := Lost)])
      else
        s.(codes := s.codes[r.hash := s.codes[r.hash].(consumed := true)],
           redeemers := s.redeemers[pid := r.(clock := clock, phase := Won)])
  }

  predicate Verified(c: Crypto, r: Redeemer) {
    TrimSpace(r.row.challenge) != "" && TrimSpace(r.row.challenge) == PkceS256(c.sha256, r.verifier)
  }

  function MintStep(c: Crypto, s: System, pid: nat): System {
    if pid !in s.redeemers || s.redeemers[pid].phase != Won then s
    else
      var r := s.redeemers[pid];
      if !Verified(c, r) || TrimSpace(r.row.session) == "" then
        s.(redeemers := s.redeemers[pid := r.(phase := Burned)])
      else
        s.(redeemers := s.redeemers[pid := r.(phase := Issued)],
           log := s.log + [Token(pid, r.hash, r.row.user, TrimSpace(r.row.session), r.verifier, r.clock)])
  }

  function Step(c: Crypto, s: System, e: Event): System {
    match e
    case Tick(elapsed) => s.(clock := s.clock + elapsed)
    case Start(_, _, _, _, _, _, _) => StartStep(c, s, e)
    case Select(_, _, _) => SelectStep(c, s, e)
    case Consume(pid, clock) => ConsumeStep(s, pid, clock)
    case Mint(pid) => MintStep(c, s, pid)
    case Delete(user) => s.(log := s.log + [Deleted(user)])
  }

  function After(c: Crypto, s: System, run: seq<Event>): System {
    if |run| == 0 then s else Step(c, After(c, s, run[..|run| - 1]), run[|run| - 1])
  }

  // ----- The invariant -----

  predicate Winner(r: Redeemer) { r.phase == Won || r.phase == Issued || r.phase == Burned }

  ghost predicate CodesOk(s: System) {
    && (forall h :: h in s.codes ==>
          var k := s.codes[h];
          && Started(h, k.user, k.session, k.challenge, k.expires) in s.log
          && Challenge(k.challenge) && Trimmed(k.session) && k.session != "")
    && (forall e :: e in s.log && e.Started? ==> e.hash in s.codes)
    && (forall i, j :: 0 <= i < j < |s.log| && s.log[i].Started? && s.log[j].Started? ==>
          s.log[i].hash != s.log[j].hash)
  }

  ghost predicate RedeemersOk(s: System) {
    && (forall p :: p in s.redeemers ==>
          var r := s.redeemers[p];
          && r.hash in s.codes
          && r.row == s.codes[r.hash].(consumed := false)
          && r.clock <= s.clock
          && (Winner(r) ==> s.codes[r.hash].consumed && r.clock < r.row.expires))
    && (forall p, q :: p in s.redeemers && q in s.redeemers && p != q && Winner(s.redeemers[p]) ==>
          Winner(s.redeemers[q]) ==> s.redeemers[p].hash != s.redeemers[q].hash)
  }

  ghost predicate TokenOk(c: Crypto, s: System, n: nat)
    requires n < |s.log| && s.log[n].Token?
  {
    var t := s.log[n];
    && t.pid in s.redeemers
    && var r := s.redeemers[t.pid];
    && r.phase == Issued && r.hash == t.hash && r.row.user == t.user && r.row.session == t.session
    && r.verifier == t.verifier && r.clock == t.redeemedAt
    && PkceS256(c.sha256, t.verifier) == r.row.challenge
    && Started(t.hash, t.user, t.session, r.row.challenge, r.row.expires) in s.log[..n]
  }

  ghost predicate TokensOk(c: Crypto, s: System) {
    && (forall n :: 0 <= n < |s.log| && s.log[n].Token? ==> TokenOk(c, s, n))
    && (forall i, j :: 0 <= i < j < |s.log| && s.log[i].Token? && s.log[j].Token? ==> s.log[i].pid != s.log[j].pid)
  }

  ghost predicate Inv(c: Crypto, s: System) {
    CodesOk(s) && RedeemersOk(s) && TokensOk(c, s)
  }

  lemma TokensSurvive(c: Crypto, s: System, s': System)
    requires TokensOk(c, s) && s.log <= s'.log
    requires forall p :: p in s.redeemers && s.redeemers[p].phase == Issued ==>
               p in s'.redeemers && s'.redeemers[p] == s.redeemers[p]
    requires forall n :: |s.log| <= n < |s'.log| ==> !s'.log[n].Token?
    ensures TokensOk(c, s')
  {
  }

  lemma StartKeepsCodes(c: Crypto, s: System, e: Event)
    requires e.Start? && CodesOk(s)
    ensures CodesOk(StartStep(c, s, e))
  {
    hide TrimSpace, Trimmed, Challenge;
    var s' := StartStep(c, s, e);
    TrimSpaceIsTrimmed(e.session);
    if s' != s {
    }
  }

  lemma StartKeepsRedeemers(c: Crypto, s: System, e: Event)
    requires e.Start? && RedeemersOk(s)
    ensures RedeemersOk(StartStep(c, s, e))
  {
  }

  lemma StartKeepsTokens(c: Crypto, s: System, e: Event)
    requires e.Start? && TokensOk(c, s)
    ensures TokensOk(c, StartStep(c, s, e))
  {
    hide TrimSpace, Challenge, TokenOk;
    TokensSurvive(c, s, StartStep(c, s, e));
  }

  lemma ConsumeKeepsRedeemers(s: System, pid: nat, clock: int)
    requires RedeemersOk(s)
    ensures RedeemersOk(ConsumeStep(s, pid, clock))
  {
  }

  lemma MintKeepsRedeemers(c: Crypto, s: System, pid: nat)
    requires RedeemersOk(s)
    ensures RedeemersOk(MintStep(c, s, pid))
  {
  }

  lemma ConsumeKeepsCodes(s: System, pid: nat, clock: int)
    requires CodesOk(s)
    ensures CodesOk(ConsumeStep(s, pid, clock))
  {
  }

  lemma ConsumeKeepsTokens(c: Crypto, s: System, pid: nat, clock: int)
    requires TokensOk(c, s)
    ensures TokensOk(c, ConsumeStep(s, pid, clock))
  {
  }

  lemma MintKeepsCodes(c: Crypto, s: System, pid: nat)
    requires CodesOk(s)
    ensures CodesOk(MintStep(c, s, pid))
  {
  }

  /** A code that was started carries a challenge and a session that trimming leaves alone. */
  lemma StoredTextIsTrimmed(s: System, h: string)
    requires CodesOk(s) && h in s.codes
    ensures TrimSpace(s.codes[h].challenge) == s.codes[h].challenge != ""
    ensures TrimSpace(s.codes[h].session) == s.codes[h].session != ""
  {
  }

  lemma TokensWithOneMore(c: Crypto, s: System, pid: nat, s': System)
    requires TokensOk(c, s) && s.log <= s'.log && |s'.log| == |s.log| + 1
    requires s'.log[|s.log|].Token? && s'.log[|s.log|].pid == pid && TokenOk(c, s', |s.log|)
    requires forall k :: 0 <= k < |s.log| && s.log[k].Token? ==>
               s'.log[k].Token? && TokenOk(c, s', k) && s.log[k].pid != pid
    ensures TokensOk(c, s')
  {
    hide TokenOk;
  }

  lemma MintedTokensAreOk(c: Crypto, s: System, pid: nat, s': System)
    requires Inv(c, s) && s' == MintStep(c, s, pid) && s'.log != s.log
    ensures TokensOk(c, s')
  {
    assert s.log <= s'.log && pid in s.redeemers && s.redeemers[pid].phase == Won;
    hide TokenOk, MintStep, CodesOk, RedeemersOk;
    forall k | 0 <= k < |s.log| && s.log[k].Token?
      ensures s'.log[k].Token? && TokenOk(c, s', k) && s.log[k].pid != pid
    {
    }
    TokensWithOneMore(c, s, pid, s');
  }

  lemma MintKeepsTokens(c: Crypto, s: System, pid: nat)
    requires Inv(c, s)
    ensures TokensOk(c, MintStep(c, s, pid))
  {
    if MintStep(c, s, pid).log == s.log {
      TokensSurvive(c, s, MintStep(c, s, pid));
    } else {
      MintedTokensAreOk(c, s, pid, MintStep(c, s, pid));
    }
  }

  lemma TickKeeps(c: Crypto, s: System, elapsed: nat)
    requires Inv(c, s)
    ensures Inv(c, s.(clock := s.clock + elapsed))
  {
  }

  lemma DeleteKeeps(c: Crypto, s: System, user: int)
    requires Inv(c, s)
    ensures Inv(c, s.(log := s.log + [Deleted(user)]))
  {
    hide TokenOk, Challenge, Trimmed;
    TokensSurvive(c, s, s.(log := s.log + [Deleted(user)]));
  }

  lemma SelectKeepsRedeemers(c: Crypto, s: System, e: Event)
    requires e.Select? && RedeemersOk(s)
    ensures RedeemersOk(SelectStep(c, s, e))
  {
  }

  lemma SelectKeepsTokens(c: Crypto, s: System, e: Event)
    requires e.Select? && TokensOk(c, s) && CodesOk(s)
    ensures TokensOk(c, SelectStep(c, s, e)) && CodesOk(SelectStep(c, s, e))
  {
  }

  lemma StepKeepsInv(c: Crypto, s: System, e: Event)
    requires Inv(c, s)
    ensures Inv(c, Step(c, s, e))
  {
    hide CodesOk, RedeemersOk, TokensOk, StartStep, SelectStep, ConsumeStep, MintStep;
    match e
    case Tick(elapsed) => TickKeeps(c, s, elapsed);
    case Start(_, _, _, _, _, _, _) =>
      StartKeepsCodes(c, s, e);
      StartKeepsRedeemers(c, s, e);
      StartKeepsTokens(c, s, e);
    case Select(_, _, _) =>
      SelectKeepsRedeemers(c, s, e);
      SelectKeepsTokens(c, s, e);
    case Consume(pid, clock) =>
      ConsumeKeepsCodes(s, pid, clock);
      ConsumeKeepsRedeemers(s, pid, clock);
      ConsumeKeepsTokens(c, s, pid, clock);
    case Mint(pid) =>
      MintKeepsCodes(c, s, pid);
      MintKeepsRedeemers(c, s, pid);
      MintKeepsTokens(c, s, pid);
    case Delete(user) => DeleteKeeps(c, s, user);
  }

  lemma {:induction false} InvHolds(c: Crypto, s: System, run: seq<Event>)
    requires Inv(c, s)
    ensures Inv(c, After(c, s, run))
  {
    hide Step, Inv;
    if |run| > 0 {
      InvHolds(c, s, run[..|run| - 1]);
      StepKeepsInv(c, After(c, s, run[..|run| - 1]), run[|run| - 1]);
    }
  }

  lemma EmptyIsFine(c: Crypto)
    ensures Inv(c, EMPTY)
  {
  }

  // ----- What every run guarantees -----

  /** A code yields at most one token. */
  lemma AtMostOneToken(c: Crypto, run: seq<Event>, i: nat, j: nat)
    requires i < j < |After(c, EMPTY, run).log|
    requires After(c, EMPTY, run).log[i].Token? && After(c, EMPTY, run).log[j].Token?
    ensures After(c, EMPTY, run).log[i].hash != After(c, EMPTY, run).log[j].hash
  {
    EmptyIsFine(c);
    InvHolds(c, EMPTY, run);
    hide After;
    var s := After(c, EMPTY, run);
    assert TokenOk(c, s, i) && TokenOk(c, s, j);
  }

  /** What ties a token to the start at position i of the log. */
  ghost predicate StartOf(c: Crypto, log: seq<Entry>, i: int, t: Entry)
    requires t.Token?
  {
    && 0 <= i < |log| && log[i].Started?
    && log[i].hash == t.hash && log[i].user == t.user && log[i].session == t.session
    && PkceS256(c.sha256, t.verifier) == log[i].challenge
    && t.redeemedAt < log[i].expires
  }

  /**
    Every token goes back to exactly one earlier start, by the same user and for the same
    session; it was redeemed before that start expired, with a verifier whose S256 is
    that start's challenge.
  */
  lemma TokenHasItsStart(c: Crypto, run: seq<Event>, n: nat)
    requires n < |After(c, EMPTY, run).log| && After(c, EMPTY, run).log[n].Token?
    ensures var log := After(c, EMPTY, run).log;
            exists i :: i < n && StartOf(c, log, i, log[n])
              && forall k :: 0 <= k < |log| && log[k].Started? && log[k].hash == log[n].hash ==> k == i
  {
    EmptyIsFine(c);
    InvHolds(c, EMPTY, run);
    var s := After(c, EMPTY, run);
    var t := s.log[n];
    assert TokenOk(c, s, n);
    var r := s.redeemers[t.pid];
    var i :| 0 <= i < n && s.log[..n][i] == Started(t.hash, t.user, t.session, r.row.challenge, r.row.expires);
    assert s.log[i] == s.log[..n][i];
    assert StartOf(c, s.log, i, t);
  }

  lemma WinnerStaysOneStep(c: Crypto, s: System, e: Event, pid: nat)
    requires pid in s.redeemers && Winner(s.redeemers[pid])
    ensures var s' := Step(c, s, e);
            pid in s'.redeemers && Winner(s'.redeemers[pid])
            && s'.redeemers[pid].(phase := Won) == s.redeemers[pid].(phase := Won)
  {
  }

  lemma {:induction false} WinnersStay(c: Crypto, s: System, run: seq<Event>, pid: nat)
    requires pid in s.redeemers && Winner(s.redeemers[pid])
    ensures var s' := After(c, s, run);
            pid in s'.redeemers && Winner(s'.redeemers[pid])
            && s'.redeemers[pid].(phase := Won) == s.redeemers[pid].(phase := Won)
  {
    hide StartStep, SelectStep, ConsumeStep, MintStep;
    if |run| > 0 {
      WinnersStay(c, s, run[..|run| - 1], pid);
      WinnerStaysOneStep(c, After(c, s, run[..|run| - 1]), run[|run| - 1], pid);
    }
  }

  /** A code consumed with a wrong verifier is burned: no continuation ever issues a token for it. */
  lemma WrongVerifierBurnsTheCode(c: Crypto, run: seq<Event>, pid: nat, more: seq<Event>, n: nat)
    requires var s := After(c, EMPTY, run);
             pid in s.redeemers && Winner(s.redeemers[pid])
             && PkceS256(c.sha256, s.redeemers[pid].verifier) != s.redeemers[pid].row.challenge
    requires n < |After(c, After(c, EMPTY, run), more).log|
    ensures var t := After(c, After(c, EMPTY, run), more).log[n];
            t.Token? ==> t.hash != After(c, EMPTY, run).redeemers[pid].hash
  {
    hide After;
    var s := After(c, EMPTY, run);
    EmptyIsFine(c);
    InvHolds(c, EMPTY, run);
    InvHolds(c, s, more);
    WinnersStay(c, s, more, pid);
    var s' := After(c, s, more);
    if s'.log[n].Token? {
      assert TokenOk(c, s', n);
    }
  }

  /** Minting fails a winner only over its verifier: the stored session is never empty. */
  lemma WinnersWithTheRightVerifierGetTokens(c: Crypto, run: seq<Event>, pid: nat)
    requires pid in After(c, EMPTY, run).redeemers && After(c, EMPTY, run).redeemers[pid].phase == Won
    ensures var s := After(c, EMPTY, run);
            var r := s.redeemers[pid];
            (MintStep(c, s, pid).redeemers[pid].phase == Issued) <==> PkceS256(c.sha256, r.verifier) == r.row.challenge
  {
    EmptyIsFine(c);
    InvHolds(c, EMPTY, run);
    var s := After(c, EMPTY, run);
    StoredTextIsTrimmed(s, s.redeemers[pid].hash);
  }

  /** A start with a challenge that no S256 can produce is accepted, but never yields a token. */
  lemma UnmatchableChallengeNeverPays(c: Crypto, run: seq<Event>, i: nat, n: nat)
    requires forall v :: |c.sha256(v)| == 32
    requires var log := After(c, EMPTY, run).log;
             && i < |log| && log[i].Started? && Challenge(log[i].challenge) && !Matchable(log[i].challenge)
             && n < |log| && log[n].Token?
    ensures After(c, EMPTY, run).log[n].hash != After(c, EMPTY, run).log[i].hash
  {
    TokenHasItsStart(c, run, n);
    var log := After(c, EMPTY, run).log;
    if log[n].hash == log[i].hash {
      OnlyMatchableChallengesMatch(c.sha256, log[n].verifier, log[i].challenge);
    }
  }

  // ----- The handlers as they run -----

  datatype Failure = InvalidRequest | NotFound | Used | Expired | Mismatch | NoToken

  /** Which code is redeemed, or why none is. */
  function RedeemVerdict(c: Crypto, codes: map<string, Code>, now: int, raw: string): Result<Code, Failure> {
    var h := c.codeHash(raw);
    if h !in codes then Err(NotFound)
    else if codes[h].consumed then Err(Used)
    else if now >= codes[h].expires then Err(Expired)
    else Ok(codes[h])
  }

  class ExchangeStore {
    const crypto: Crypto
    var codes: map<string, Code>

    constructor (c: Crypto)
      ensures crypto == c && codes == map[]
    {
      crypto := c;
      codes := map[];
    }

    method StartExchange(
      now: int, user: int, raw: string, session: string, challenge: string, callback: string, ttl: int)
      returns (ok: bool)
      modifies this
      ensures ok == (StartAllowed(crypto, Start(user, raw, session, challenge, callback, ttl, 0))
                     && crypto.codeHash(raw) !in old(codes))
      ensures ok <==> && user > 0 && ttl > 0 && 3 <= Utf8Length(TrimSpace(session)) <= 128
                      && |TrimSpace(challenge)| == 43
                      && (forall i :: 0 <= i < 43 ==> InAlphabet(TrimSpace(challenge)[i], Url))
                      && (TrimSpace(callback) == "" || crypto.loopback(TrimSpace(callback)))
                      && crypto.codeHash(raw) !in old(codes)
      ensures codes == if !ok then old(codes) else old(codes)[crypto.codeHash(raw) :=
                Code(user, TrimSpace(session), TrimSpace(challenge), now + ttl, false)]
      ensures codes == StartStep(crypto, System(now, old(codes), map[], []),
                                 Start(user, raw, session, challenge, callback, ttl, 0)).codes
    {
      var sessionId, codeChallenge := TrimSpace(session), TrimSpace(challenge);
      if user <= 0 || Utf8Length(sessionId) < 3 || Utf8Length(sessionId) > 128 {
        return false;
      }
      var valid := IsValidCodeChallenge(codeChallenge);
      if !valid || ttl <= 0 {
        return false;
      }
      var callbackUri := TrimSpace(callback);
      if callbackUri != "" && !crypto.loopback(callbackUri) {
        return false;
      }
      var h := crypto.codeHash(raw);
      if h in codes {
        return false;
      }
      codes := codes[h := Code(user, sessionId, codeChallenge, now + ttl, false)];
      return true;
    }

    /** The transaction that consumes a code. */
    method Redeem(now: int, raw: string) returns (r: Result<Code, Failure>)
      modifies this
      ensures var h := crypto.codeHash(raw);
              && r == RedeemVerdict(crypto, old(codes), now, raw)
              && r == (if h !in old(codes) then Err(NotFound)
                       else if old(codes)[h].consumed then Err(Used)
                       else if old(codes)[h].expires <= now then Err(Expired)
                       else Ok(old(codes)[h]))
              && codes == if r.Ok? then old(codes)[h := old(codes)[h].(consumed := true)] else old(codes)
    {
      var h := crypto.codeHash(raw);
      if h !in codes {
        return Err(NotFound);
      }
      var row := codes[h];
      if row.consumed {
        return Err(Used);
      }
      if now >= row.expires {
        return Err(Expired);
      }
      codes := codes[h := row.(consumed := true)];
      return Ok(row);
    }

    /** The whole exchange without interruption: its three steps, and the token they log. */
    method Exchange(now: int, code: string, codeVerifier: string) returns (r: Result<(int, string), Failure>)
      modifies this
      ensures var s0 := System(now, old(codes), map[], []);
              var s := MintStep(crypto, ConsumeStep(SelectStep(crypto, s0, Select(0, code, codeVerifier)), 0, now), 0);
              && codes == s.codes
              && (r.Ok? ==> |s.log| == 1 && s.log[0].Token? && r.value == (s.log[0].user, s.log[0].session))
              && (r.Err? ==> s.log == [])
      ensures r == if !OpaqueCode(TrimSpace(code)) || !Verifier(TrimSpace(codeVerifier)) then Err(InvalidRequest)
                   else match RedeemVerdict(crypto, old(codes), now, TrimSpace(code))
                        case Err(f) => Err(f)
                        case Ok(row) =>
                          var h := crypto.codeHash(TrimSpace(code));
                          if !Verified(crypto, Redeemer(h, TrimSpace(codeVerifier), row, now, Won))
                          then Err(Mismatch)
                          else if TrimSpace(row.session) == "" then Err(NoToken)
                          else Ok((row.user, TrimSpace(row.session)))
      ensures var raw, v, h := TrimSpace(code), TrimSpace(codeVerifier), crypto.codeHash(TrimSpace(code));
              && (r.Ok? ==>
                    && |raw| == 64 && 43 <= |v| <= 128 && h in old(codes) && !old(codes)[h].consumed
                    && now < old(codes)[h].expires && r.value.0 == old(codes)[h].user
                    && TrimSpace(old(codes)[h].challenge) == Encode(crypto.sha256(v), Url))
              && (forall x :: x in codes <==> x in old(codes))
              && (forall x :: x in codes && codes[x] != old(codes)[x] ==>
                    && x == h && codes[x] == old(codes)[x].(consumed := true)
                    && (r.Ok? || r == Err(Mismatch) || r == Err(NoToken)))
    {
      var raw, verifier := TrimSpace(code), TrimSpace(codeVerifier);
      var validCode := IsValidOpaqueCode(raw);
      if !validCode {
        return Err(InvalidRequest);
      }
      var validVerifier := IsValidCodeVerifier(verifier);
      if !validVerifier {
        return Err(InvalidRequest);
      }
      var redeemed := Redeem(now, raw);
      if redeemed.Err? {
        return Err(redeemed.error);
      }
      var row := redeemed.value;
      var expected := TrimSpace(row.challenge);
      if expected == "" || expected != PkceS256(crypto.sha256, verifier) {
        return Err(Mismatch);
      }
      var session := TrimSpace(row.session);
      if session == "" {
        return Err(NoToken);
      }
      return Ok((row.user, session));
    }
  }
}
