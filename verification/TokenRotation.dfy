/**
  Access tokens signed with a shared secret, and a fleet of instances that changes the
  secret without a common moment: an instance goes from (old) to (new, old) to (new).
  A token is its claims with a tag; the tag function is a parameter.
*/
module TokenRotation {
  import opened Common
  import opened Text

  const SECOND: int := 1_000_000_000
  const MIN_SECRET: nat := 32

  datatype Claims = Claims(
    issuer: string, subject: string, audience: string,
    expiresAt: int, issuedAt: int, notBefore: int, id: string,     // times in whole seconds
    tokenUse: string, joinSession: string, session: string)

  datatype Token = Token(claims: Claims, alg: string, tag: string)

  /** The HS256 tag of claims under a secret. */
  type Mac = (string, Claims) -> string

  datatype Service = Service(secret: string, previous: Option<string>, issuer: string, audience: string, ttl: int)

  datatype Failure =
    | SecretTooShort | IssuerOrAudienceMissing | PreviousTooShort
    | SubjectMissing | SessionMissing | TtlNotPositive
    | BadAlgorithm | BadSignature | TokenExpired | NotYetValid | WrongIssuer | WrongAudience

  // ----- Building a service -----

  function NewService(
    secret: string, previous: string, issuer: string, audience: string, ttl: int): Result<Service, Failure>
  {
    if Utf8Length(secret) < MIN_SECRET then Err(SecretTooShort)
    else if issuer == "" || audience == "" then Err(IssuerOrAudienceMissing)
    else if TrimSpace(previous) == "" then Ok(Service(secret, None, issuer, audience, ttl))
    else if Utf8Length(previous) < MIN_SECRET then Err(PreviousTooShort)
    else Ok(Service(secret, Some(previous), issuer, audience, ttl))
  }

  /**
    A service is built exactly if its secrets are long enough, the previous one unless
    blank, and it has a name to check.
  */
  lemma ServiceExactlyWhen(secret: string, previous: string, issuer: string, audience: string, ttl: int)
    ensures var built := NewService(secret, previous, issuer, audience, ttl);
            && (built.Ok? <==> && Utf8Length(secret) >= 32 && issuer != "" && audience != ""
                               && (TrimSpace(previous) == "" || Utf8Length(previous) >= 32))
            && (built.Ok? ==> built.value == Service(
                  secret, if TrimSpace(previous) == "" then None else Some(previous), issuer, audience, ttl))
  {
  }

  // ----- Minting -----

  datatype Purpose = Access | Desktop(session: string) | Join(joinSession: string, ttl: int)

  function TtlOf(s: Service, p: Purpose): int {
    match p
    case Join(_, ttl) => ttl
    case _ => s.ttl
  }

  /** Times in a token are cut to whole seconds. */
  function Seconds(t: int): int { t / SECOND }

  function Mint(mac: Mac, s: Service, subject: string, p: Purpose, now: nat, id: string): Result<Token, Failure>
  {
    if subject == "" then Err(SubjectMissing)
    else if p.Desktop? && TrimSpace(p.session) == "" then Err(SessionMissing)
    else if p.Join? && TrimSpace(p.joinSession) == "" then Err(SessionMissing)
    else if p.Join? && p.ttl <= 0 then Err(TtlNotPositive)
    else
      var claims := Claims(
        s.issuer, subject, s.audience,
        Seconds(now + TtlOf(s, p)), Seconds(now), Seconds(now), id,
        match p { case Access => "" case Desktop(_) => "desktop_access" case Join(_, _) => "join" },
        if p.Join? then TrimSpace(p.joinSession) else "",
        if p.Desktop? then TrimSpace(p.session) else "");
      Ok(Token(claims, "HS256", mac(s.secret, claims)))
  }

  // ----- Parsing -----

  predicate Unexpired(c: Claims, now: nat) { now < c.expiresAt * SECOND }

  function ParseWith(mac: Mac, s: Service, secret: string, t: Token, now: nat): Result<Claims, Failure> {
    if t.alg != "HS256" then Err(BadAlgorithm)
    else if t.tag != mac(secret, t.claims) then Err(BadSignature)
    else if !Unexpired(t.claims, now) then Err(TokenExpired)
    else if now < t.claims.notBefore * SECOND then Err(NotYetValid)
    else if t.claims.issuer != s.issuer then Err(WrongIssuer)
    else if t.claims.audience != s.audience then Err(WrongAudience)
    else Ok(t.claims)
  }

  /** The current secret first, then the previous one; the error reported is that of the current one. */
  function Parse(mac: Mac, s: Service, t: Token, now: nat): Result<Claims, Failure> {
    var first := ParseWith(mac, s, s.secret, t, now);
    if first.Ok? || s.previous.None? || s.previous.value == "" then first
    else
      var second := ParseWith(mac, s, s.previous.value, t, now);
      if second.Ok? then second else first
  }

  /** Whoever the parser lets in carries a tag under one of the two secrets, and is not expired. */
  lemma ParseIsSound(mac: Mac, s: Service, t: Token, now: nat)
    ensures Parse(mac, s, t, now).Ok? <==>
            && t.alg == "HS256"
            && (t.tag == mac(s.secret, t.claims)
                || (s.previous.Some? && s.previous.value != "" && t.tag == mac(s.previous.value, t.claims)))
            && Unexpired(t.claims, now) && t.claims.notBefore * SECOND <= now
            && t.claims.issuer == s.issuer && t.claims.audience == s.audience
    ensures Parse(mac, s, t, now).Ok? ==> Parse(mac, s, t, now).value == t.claims
  {
  }

  /** A token that is refused is refused for what the current secret says about it. */
  lemma RefusalsNameTheCurrentSecret(mac: Mac, s: Service, t: Token, now: nat)
    requires Parse(mac, s, t, now).Err?
    ensures Parse(mac, s, t, now).error ==
            if t.alg != "HS256" then BadAlgorithm
            else if t.tag != mac(s.secret, t.claims) then BadSignature
            else if t.claims.expiresAt * 1_000_000_000 <= now then TokenExpired
            else if now < t.claims.notBefore * 1_000_000_000 then NotYetValid
            else if t.claims.issuer != s.issuer then WrongIssuer
            else WrongAudience
  {
  }

  // ----- A fleet under rotation -----

  datatype Stage = Old | Both | New

  datatype Rotation = Rotation(oldSecret: string, newSecret: string, issuer: string, audience: string, ttl: nat) {

    /** What an instance is built from at a stage of the rotation. */
    function Built(st: Stage): Result<Service, Failure> {
      match st
      case Old => NewService(oldSecret, "", issuer, audience, ttl)
      case Both => NewService(newSecret, oldSecret, issuer, audience, ttl)
      case New => NewService(newSecret, "", issuer, audience, ttl)
    }

    predicate Startable() {
      Built(Old).Ok? && Built(Both).Ok? && Built(New).Ok?
    }

    function At(st: Stage): Service
      requires Startable()
    {
      Built(st).value
    }
  }

  /**
    An old secret of blanks alone is accepted as the current secret, yet not kept as the
    previous one: exactly then does an instance that was given both hold only the new.
  */
  lemma BlankSecretIsNotKept(r: Rotation)
    requires r.Startable()
    ensures r.At(Both) == r.At(New) <==> TrimSpace(r.oldSecret) == ""
    ensures TrimSpace(r.oldSecret) != "" ==> r.At(Both) == r.At(New).(previous := Some(r.oldSecret))
  {
  }

  /** `lastOld` is the time of the last signature with the old secret so far. */
  datatype Fleet = Fleet(now: nat, stages: seq<Stage>, lastOld: Option<nat>, minted: set<Token>)

  datatype Event =
    | Tick(elapsed: nat)
    | Issue(instance: nat, subject: string, purpose: Purpose, id: string)
    | Adopt(instance: nat)      // (old) becomes (new, old)
    | Retire(instance: nat)     // (new, old) becomes (new)

  predicate KnowsNew(f: Fleet) {
    forall k :: 0 <= k < |f.stages| ==> f.stages[k] != Old
  }

  /** The longest lifetime that a token may have, and how long the old secret is kept after its last use. */
  datatype Rule = Rule(longest: nat, wait: nat)

  /**
    The rule of the rotation: no instance drops the old secret before every instance holds
    the new one, nor before the waiting time has passed since the last old signature.
  */
  predicate Allowed(f: Fleet, e: Event, rule: Rule) {
    match e
    case Tick(_) => true
    case Issue(k, _, p, _) => k < |f.stages| && (p.Join? ==> p.ttl <= rule.longest)
    case Adopt(k) => k < |f.stages| && f.stages[k] == Old
    case Retire(k) =>
      && k < |f.stages| && f.stages[k] == Both && KnowsNew(f)
      && (f.lastOld.Some? ==> f.lastOld.value + rule.wait <= f.now)
  }

  /** An event that the rule forbids does not happen. */
  function Step(mac: Mac, r: Rotation, rule: Rule, f: Fleet, e: Event): Fleet
    requires r.Startable()
  {
    if !Allowed(f, e, rule) then f
    else
      match e
      case Tick(elapsed) => f.(now := f.now + elapsed)
      case Adopt(k) => f.(stages := f.stages[k := Both])
      case Retire(k) => f.(stages := f.stages[k := New])
      case Issue(k, subject, p, id) =>
        var t := Mint(mac, r.At(f.stages[k]), subject, p, f.now, id);
        if t.Err? then f
        else f.(minted := f.minted + {t.value}, lastOld := if f.stages[k] == Old then Some(f.now) else f.lastOld)
  }

  /** A fleet of `size` instances that started out with the old secret at time 0. */
  function After(mac: Mac, r: Rotation, rule: Rule, size: nat, run: seq<Event>): Fleet
    requires r.Startable()
  {
    if |run| == 0 then Fleet(0, seq(size, _ => Old), None, {})
    else Step(mac, r, rule, After(mac, r, rule, size, run[..|run| - 1]), run[|run| - 1])
  }

  /** What every token in circulation is: of this issuer, not from the future, and signed with one of the secrets. */
  ghost predicate Genuine(mac: Mac, r: Rotation, rule: Rule, f: Fleet, t: Token) {
    && t.alg == "HS256" && t.claims.issuer == r.issuer && t.claims.audience == r.audience
    && t.claims.notBefore * SECOND <= f.now
    && (|| t.tag == mac(r.newSecret, t.claims)
        || (t.tag == mac(r.oldSecret, t.claims)
            && f.lastOld.Some? && t.claims.expiresAt * SECOND <= f.lastOld.value + rule.longest))
  }

  ghost predicate Inv(mac: Mac, r: Rotation, rule: Rule, f: Fleet) {
    && (forall t :: t in f.minted ==> Genuine(mac, r, rule, f, t))
    && (f.lastOld.Some? ==> f.lastOld.value <= f.now)
    && (New in f.stages ==> KnowsNew(f) && (f.lastOld.Some? ==> f.lastOld.value + rule.wait <= f.now))
  }

  /** A token that an instance mints is genuine from then on. */
  lemma MintedIsGenuine(mac: Mac, r: Rotation, rule: Rule, f: Fleet, e: Event)
    requires r.Startable() && r.ttl <= rule.longest && e.Issue? && Allowed(f, e, rule)
    requires f.lastOld.Some? ==> f.lastOld.value <= f.now
    ensures var t := Mint(mac, r.At(f.stages[e.instance]), e.subject, e.purpose, f.now, e.id);
            t.Ok? ==> Genuine(mac, r, rule, Step(mac, r, rule, f, e), t.value)
  {
  }

  lemma StepKeepsInv(mac: Mac, r: Rotation, rule: Rule, f: Fleet, e: Event)
    requires r.Startable() && r.ttl <= rule.longest && Inv(mac, r, rule, f)
    ensures Inv(mac, r, rule, Step(mac, r, rule, f, e))
  {
  }

  lemma {:induction false} InvHolds(mac: Mac, r: Rotation, rule: Rule, size: nat, run: seq<Event>)
    requires r.Startable() && r.ttl <= rule.longest
    ensures Inv(mac, r, rule, After(mac, r, rule, size, run))
    ensures |After(mac, r, rule, size, run).stages| == size
  {
    if |run| > 0 {
      InvHolds(mac, r, rule, size, run[..|run| - 1]);
      StepKeepsInv(mac, r, rule, After(mac, r, rule, size, run[..|run| - 1]), run[|run| - 1]);
    }
  }

  /**
    Once every instance holds the new secret, an unexpired token that some instance ever
    minted, with whichever secret, verifies at instance k with its claims unchanged.
  */
  ghost predicate Verifies(mac: Mac, r: Rotation, rule: Rule, size: nat, run: seq<Event>, t: Token, k: nat)
    requires r.Startable()
  {
    var f := After(mac, r, rule, size, run);
    k < |f.stages| && KnowsNew(f) && t in f.minted && Unexpired(t.claims, f.now) ==>
      Parse(mac, r.At(f.stages[k]), t, f.now) == Ok(t.claims)
  }

  lemma EveryTokenVerifiesEverywhere(mac: Mac, r: Rotation, rule: Rule, size: nat, run: seq<Event>, t: Token, k: nat)
    requires r.Startable() && TrimSpace(r.oldSecret) != "" && r.ttl <= rule.longest <= rule.wait
    ensures Verifies(mac, r, rule, size, run, t, k)
  {
    InvHolds(mac, r, rule, size, run);
    var f := After(mac, r, rule, size, run);
    if k < |f.stages| && KnowsNew(f) && t in f.minted && Unexpired(t.claims, f.now) {
      assert Genuine(mac, r, rule, f, t);
      BlankSecretIsNotKept(r);
      assert f.stages[k] in f.stages;
      ParseIsSound(mac, r.At(f.stages[k]), t, f.now);
    }
  }

  lemma OneMoreStep(mac: Mac, r: Rotation, rule: Rule, size: nat, run: seq<Event>, e: Event)
    requires r.Startable()
    ensures After(mac, r, rule, size, run + [e]) == Step(mac, r, rule, After(mac, r, rule, size, run), e)
  {
  }

  /** When a token of the longest lifetime expires exactly that long after it is minted. */
  function OnTheSecond(longest: nat): (t: nat)
    ensures Seconds(t + longest) * SECOND == t + longest
  {
    (SECOND - longest % SECOND) % SECOND
  }

  /** One instance signs a join token with the old secret, changes over, and drops the old secret after the wait. */
  function HastyRun(rule: Rule): seq<Event> {
    [] + [Tick(OnTheSecond(rule.longest))] + [Issue(0, "user:1", Join("session", rule.longest), "id")]
    + [Adopt(0)] + [Tick(rule.wait)] + [Retire(0)]
  }

  lemma HastyMint(mac: Mac, r: Rotation, rule: Rule) returns (t: Token)
    requires r.Startable() && rule.wait < rule.longest
    ensures Mint(mac, r.At(Old), "user:1", Join("session", rule.longest), OnTheSecond(rule.longest), "id") == Ok(t)
    ensures t.claims.expiresAt * SECOND == OnTheSecond(rule.longest) + rule.longest
    ensures t.tag == mac(r.oldSecret, t.claims)
  {
    TrimmedIsKept("session");
    t := Mint(mac, r.At(Old), "user:1", Join("session", rule.longest), OnTheSecond(rule.longest), "id").value;
  }

  lemma HastyFleet(mac: Mac, r: Rotation, rule: Rule, t: Token)
    requires r.Startable()
    requires Mint(mac, r.At(Old), "user:1", Join("session", rule.longest), OnTheSecond(rule.longest), "id") == Ok(t)
    ensures var f := After(mac, r, rule, 1, HastyRun(rule));
            f.stages == [New] && f.now == OnTheSecond(rule.longest) + rule.wait && t in f.minted
  {
    hide Mint, OnTheSecond;
    var start := OnTheSecond(rule.longest);
    var e1, e2, e3, e4, e5 := Tick(start), Issue(0, "user:1", Join("session", rule.longest), "id"), Adopt(0),
                              Tick(rule.wait), Retire(0);
    OneMoreStep(mac, r, rule, 1, [], e1);
    OneMoreStep(mac, r, rule, 1, [] + [e1], e2);
    OneMoreStep(mac, r, rule, 1, [] + [e1] + [e2], e3);
    OneMoreStep(mac, r, rule, 1, [] + [e1] + [e2] + [e3], e4);
    OneMoreStep(mac, r, rule, 1, [] + [e1] + [e2] + [e3] + [e4], e5);
    assert After(mac, r, rule, 1, []) == Fleet(0, [Old], None, {});
    hide After;
    assert Step(mac, r, rule, Fleet(0, [Old], None, {}), e1) == Fleet(start, [Old], None, {});
    assert Step(mac, r, rule, Fleet(start, [Old], None, {}), e2) == Fleet(start, [Old], Some(start), {t});
    assert Step(mac, r, rule, Fleet(start, [Old], Some(start), {t}), e3) == Fleet(start, [Both], Some(start), {t});
  }

  lemma HastyRunLosesAToken(mac: Mac, r: Rotation, rule: Rule)
    requires r.Startable() && rule.wait < rule.longest
    requires forall c :: mac(r.newSecret, c) != mac(r.oldSecret, c)
    ensures exists t :: !Verifies(mac, r, rule, 1, HastyRun(rule), t, 0)
  {
    hide After, HastyRun, OnTheSecond, Mint;
    var t := HastyMint(mac, r, rule);
    HastyFleet(mac, r, rule, t);
    assert !Verifies(mac, r, rule, 1, HastyRun(rule), t, 0);
  }

  /**
    The wait that the rotation needs is exactly the longest lifetime of any minted token:
    with that wait or a longer one every token verifies in every run, with a shorter one
    some token does not.
  */
  lemma TheWaitIsTheLongestLifetime(mac: Mac, r: Rotation, rule: Rule)
    requires r.Startable() && TrimSpace(r.oldSecret) != "" && r.ttl <= rule.longest
    requires forall c :: mac(r.newSecret, c) != mac(r.oldSecret, c)
    ensures (forall size, run, t, k: nat :: Verifies(mac, r, rule, size, run, t, k)) <==> rule.longest <= rule.wait
  {
    if rule.longest <= rule.wait {
      forall size, run, t, k: nat ensures Verifies(mac, r, rule, size, run, t, k) {
        EveryTokenVerifiesEverywhere(mac, r, rule, size, run, t, k);
      }
    } else {
      HastyRunLosesAToken(mac, r, rule);
    }
  }

  // ----- Whom a token is for -----

  /** The claims of a token for this purpose. */
  predicate Suits(c: Claims, p: Purpose) {
    match p
    case Access => c.tokenUse == "" && c.joinSession == "" && c.session == ""
    case Desktop(s) =>
      TrimSpace(s) != "" && c.tokenUse == "desktop_access" && c.session == TrimSpace(s) && c.joinSession == ""
    case Join(s, ttl) =>
      ttl > 0 && TrimSpace(s) != "" && c.tokenUse == "join" && c.joinSession == TrimSpace(s) && c.session == ""
  }

  /** An instance that signs with this secret issues the token for this subject, purpose and id, at this time. */
  predicate IssuedFor(
    mac: Mac, r: Rotation, secret: string, subject: string, p: Purpose, id: string, now: nat, t: Token)
  {
    && subject != "" && t.claims.subject == subject && t.claims.id == id && Suits(t.claims, p)
    && t.claims.issuer == r.issuer && t.claims.audience == r.audience
    && t.claims.issuedAt == t.claims.notBefore == now / SECOND
    && t.claims.expiresAt == (now + if p.Join? then p.ttl else r.ttl) / SECOND
    && t.alg == "HS256" && t.tag == mac(secret, t.claims)
  }

  /** Event k of the run issues the token, at an instance that signs with the secret of its stage. */
  predicate IssuedAt(mac: Mac, r: Rotation, rule: Rule, size: nat, run: seq<Event>, k: nat, t: Token)
    requires r.Startable()
  {
    && k < |run| && run[k].Issue?
    && var f, e := After(mac, r, rule, size, run[..k]), run[k];
       && e.instance < |f.stages| && (e.purpose.Join? ==> e.purpose.ttl <= rule.longest)
       && IssuedFor(mac, r, if f.stages[e.instance] == Old then r.oldSecret else r.newSecret,
                    e.subject, e.purpose, e.id, f.now, t)
  }

  /** What a service mints is issued for exactly what it was asked for; nothing is minted exactly if nothing can be. */
  lemma MintIssues(mac: Mac, r: Rotation, st: Stage, subject: string, p: Purpose, now: nat, id: string, t: Token)
    requires r.Startable()
    ensures Mint(mac, r.At(st), subject, p, now, id) == Ok(t)
            <==> IssuedFor(mac, r, if st == Old then r.oldSecret else r.newSecret, subject, p, id, now, t)
  {
  }

  lemma StepIssues(mac: Mac, r: Rotation, rule: Rule, f: Fleet, e: Event, t: Token)
    requires r.Startable()
    ensures t in Step(mac, r, rule, f, e).minted
            <==> || t in f.minted
                 || (e.Issue? && e.instance < |f.stages| && (e.purpose.Join? ==> e.purpose.ttl <= rule.longest)
                     && IssuedFor(mac, r, if f.stages[e.instance] == Old then r.oldSecret else r.newSecret,
                                  e.subject, e.purpose, e.id, f.now, t))
  {
    if e.Issue? && e.instance < |f.stages| {
      MintIssues(mac, r, f.stages[e.instance], e.subject, e.purpose, f.now, e.id, t);
      hide Mint, IssuedFor;
    }
  }

  ghost predicate Issued(mac: Mac, r: Rotation, rule: Rule, size: nat, run: seq<Event>, t: Token)
    requires r.Startable()
  {
    exists k: nat :: IssuedAt(mac, r, rule, size, run, k, t)
  }

  /** The last event of the run issues the token, or one before it does. */
  lemma IssuedBefore(mac: Mac, r: Rotation, rule: Rule, size: nat, run: seq<Event>, t: Token)
    requires r.Startable() && |run| > 0
    ensures Issued(mac, r, rule, size, run, t)
            <==> || Issued(mac, r, rule, size, run[..|run| - 1], t)
                 || IssuedAt(mac, r, rule, size, run, |run| - 1, t)
  {
    hide After, IssuedFor;
    var before := run[..|run| - 1];
    forall k: nat | k < |run| - 1
      ensures IssuedAt(mac, r, rule, size, run, k, t) <==> IssuedAt(mac, r, rule, size, before, k, t)
    {
      assert before[..k] == run[..k];
    }
    assert forall k: nat :: IssuedAt(mac, r, rule, size, before, k, t) ==> k < |run| - 1;
    assert forall k: nat :: IssuedAt(mac, r, rule, size, run, k, t) ==> k < |run|;
  }

  /**
    In every run the tokens in circulation are exactly those that some event issued: with
    that event's subject, id, purpose and session, at its time, for its lifetime.
  */
  lemma {:induction false} MintedExactlyWhenIssued(
    mac: Mac, r: Rotation, rule: Rule, size: nat, run: seq<Event>, t: Token)
    requires r.Startable()
    ensures t in After(mac, r, rule, size, run).minted
            <==> exists k: nat :: IssuedAt(mac, r, rule, size, run, k, t)
  {
    if |run| > 0 {
      var before := run[..|run| - 1];
      MintedExactlyWhenIssued(mac, r, rule, size, before, t);
      StepIssues(mac, r, rule, After(mac, r, rule, size, before), run[|run| - 1], t);
      hide Step, IssuedFor;
      IssuedBefore(mac, r, rule, size, run, t);
    }
  }

  /**
    Once every instance holds the new secret, parsing an unexpired token in circulation
    gives, at every instance, the subject, id and session of the event that issued it.
  */
  lemma ParsingNamesTheSubject(mac: Mac, r: Rotation, rule: Rule, size: nat, run: seq<Event>, t: Token, i: nat)
    returns (k: nat)
    requires r.Startable() && TrimSpace(r.oldSecret) != "" && r.ttl <= rule.longest <= rule.wait
    requires var f := After(mac, r, rule, size, run);
             i < |f.stages| && KnowsNew(f) && t in f.minted && Unexpired(t.claims, f.now)
    ensures k < |run| && run[k].Issue?
    ensures var f, e := After(mac, r, rule, size, run), run[k];
            var parsed := Parse(mac, r.At(f.stages[i]), t, f.now);
            && parsed.Ok? && parsed.value.subject == e.subject && parsed.value.id == e.id
            && Suits(parsed.value, e.purpose)
  {
    EveryTokenVerifiesEverywhere(mac, r, rule, size, run, t, i);
    MintedExactlyWhenIssued(mac, r, rule, size, run, t);
    hide After, Parse;
    k :| IssuedAt(mac, r, rule, size, run, k, t);
  }

  /** A rotation can start exactly if both secrets have 32 bytes or more, and issuer and audience are given. */
  lemma StartableExactlyWhen(r: Rotation)
    ensures r.Startable() <==> && Utf8Length(r.oldSecret) >= 32 && Utf8Length(r.newSecret) >= 32
                               && r.issuer != "" && r.audience != ""
  {
  }

  // ----- Where a token verifies -----

  /** Whether an instance at this stage of the rotation holds a secret that the token is tagged under. */
  predicate HoldsSecretOf(mac: Mac, r: Rotation, st: Stage, t: Token) {
    match st
    case Old => t.tag == mac(r.oldSecret, t.claims)
    case Both => t.tag == mac(r.newSecret, t.claims) || TrimSpace(r.oldSecret) != ""
    case New => t.tag == mac(r.newSecret, t.claims)
  }

  /**
    At any moment of any rotation, an unexpired token that was minted verifies at an
    instance exactly if that instance holds its secret.  Where the old secret is kept
    long enough, that is at every instance that holds the new secret, and at the others
    exactly for tokens under the old one.
  */
  lemma TokenVerifiesExactlyWhere(mac: Mac, r: Rotation, rule: Rule, size: nat, run: seq<Event>, t: Token, k: nat)
    requires r.Startable() && r.ttl <= rule.longest
    requires var f := After(mac, r, rule, size, run); k < |f.stages| && t in f.minted && Unexpired(t.claims, f.now)
    ensures var f := After(mac, r, rule, size, run);
            Parse(mac, r.At(f.stages[k]), t, f.now) == Ok(t.claims) <==> HoldsSecretOf(mac, r, f.stages[k], t)
    ensures var f := After(mac, r, rule, size, run);
            TrimSpace(r.oldSecret) != "" && rule.longest <= rule.wait ==>
              (Parse(mac, r.At(f.stages[k]), t, f.now) == Ok(t.claims)
               <==> f.stages[k] != Old || t.tag == mac(r.oldSecret, t.claims))
  {
    InvHolds(mac, r, rule, size, run);
    var f := After(mac, r, rule, size, run);
    assert Genuine(mac, r, rule, f, t);
    assert f.stages[k] in f.stages;
    BlankSecretIsNotKept(r);
    ParseIsSound(mac, r.At(f.stages[k]), t, f.now);
  }

  /** Before every instance holds the new secret, one with the old secret rejects a token of one with the new. */
  lemma TooEarlyTokensAreRejected(mac: Mac, r: Rotation, rule: Rule)
    requires r.Startable() && SECOND <= r.ttl <= rule.longest
    requires forall c :: mac(r.newSecret, c) != mac(r.oldSecret, c)
    ensures exists run: seq<Event>, t ::
              var f := After(mac, r, rule, 2, run);
              t in f.minted && Unexpired(t.claims, f.now) && Parse(mac, r.At(Old), t, f.now) == Err(BadSignature)
  {
    var a, b := Adopt(0), Issue(0, "user:1", Access, "id");
    OneMoreStep(mac, r, rule, 2, [], a);
    OneMoreStep(mac, r, rule, 2, [] + [a], b);
    var f0, f1 := After(mac, r, rule, 2, []), After(mac, r, rule, 2, [] + [a]);
    assert f0.stages[0] == Old && Allowed(f0, a, rule);
    assert f1.stages[0] == Both && f1.now == 0 && Allowed(f1, b, rule);
    var t := Mint(mac, r.At(Both), "user:1", Access, 0, "id").value;
    assert t in After(mac, r, rule, 2, [] + [a] + [b]).minted;
  }
}
