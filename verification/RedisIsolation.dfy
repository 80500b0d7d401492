/**
  Which requests the shared limiter counts together, in terms of the scope and the
  address as the client sends them.
*/
module RedisIsolation {
  import opened Text
  import opened RedisLimiter

  // ----- Which addresses share a key -----

  /** A colon or a percent sign, or what stands for them in a key. */
  predicate Blurred(c: char) {
    c == ':' || c == '%' || c == '_'
  }

  /** Two addresses differ at most in how they write their separators. */
  predicate Alike(a: string, b: string) {
    |a| == |b| && forall i :: 0 <= i < |a| ==> a[i] == b[i] || (Blurred(a[i]) && Blurred(b[i]))
  }

  lemma SafeAlike(a: string, b: string)
    ensures SafeIp(a) == SafeIp(b) <==> Alike(a, b)
  {
    if SafeIp(a) == SafeIp(b) {
      forall i | 0 <= i < |a| ensures a[i] == b[i] || (Blurred(a[i]) && Blurred(b[i])) {
        assert SafeIp(a)[i] == SafeIp(b)[i];
      }
    }
  }

  /** Requests share a counter exactly within one minute and scope, and for addresses that are alike. */
  lemma SharesCounterExactlyWhen(scope1: string, ip1: string, clock1: nat, scope2: string, ip2: string, clock2: nat)
    ensures Key(scope1, ip1, Slot(clock1)) == Key(scope2, ip2, Slot(clock2))
            <==> scope1 == scope2 && Alike(ip1, ip2) && clock1 / (60 * SECOND) == clock2 / (60 * SECOND)
  {
    SafeAlike(ip1, ip2);
    if Key(scope1, ip1, Slot(clock1)) == Key(scope2, ip2, Slot(clock2)) {
      KeyDeterminesSlot(scope1, ip1, Slot(clock1), scope2, ip2, Slot(clock2));
    }
  }

  /** Addresses without colons and percent signs share a counter only if they are equal. */
  lemma PlainAddressesAreCountedApart(scope: string, ip1: string, ip2: string, clock1: nat, clock2: nat)
    requires ':' !in ip1 && '%' !in ip1 && ':' !in ip2 && '%' !in ip2
    requires Key(scope, ip1, Slot(clock1)) == Key(scope, ip2, Slot(clock2))
    ensures ip1 == ip2
  {
    KeyDeterminesSlot(scope, ip1, Slot(clock1), scope, ip2, Slot(clock2));
    assert forall i :: 0 <= i < |ip1| ==> SafeIp(ip1)[i] == SafeIp(ip2)[i];
  }

  // ----- Runs with the other clients left out -----

  datatype Client = Client(scope: string, ip: string)

  predicate Sends(c: Command, who: Client) {
    c.Incr? && c.scope == who.scope && c.ip == who.ip
  }

  /** A key under which some request of the client is counted. */
  ghost predicate KeyOfClient(key: string, who: Client) {
    exists slot: nat :: key == Key(who.scope, who.ip, slot)
  }

  /** The run without the requests of all other clients, and without the expiries of other keys. */
  ghost function Only(cs: seq<Command>, who: Client): seq<Command> {
    if |cs| == 0 then []
    else
      var c := cs[|cs| - 1];
      Only(cs[..|cs| - 1], who) + if Sends(c, who) || (c.Expire? && KeyOfClient(c.key, who)) then [c] else []
  }

  /** The replies to the client's requests, in order. */
  function Replies(cs: seq<Command>, who: Client): seq<nat> {
    if |cs| == 0 then []
    else
      var c := cs[|cs| - 1];
      Replies(cs[..|cs| - 1], who) + if Sends(c, who) then [Reply(After(cs[..|cs| - 1]), c)] else []
  }

  /** All requests of the run are of these clients. */
  predicate From(cs: seq<Command>, clients: set<Client>) {
    forall i :: 0 <= i < |cs| && cs[i].Incr? ==> Client(cs[i].scope, cs[i].ip) in clients
  }

  /** Two different clients whose requests share counters. */
  predicate Collide(a: Client, b: Client) {
    a != b && a.scope == b.scope && Alike(a.ip, b.ip)
  }

  /** The states agree on the keys of the client. */
  ghost predicate AgreeFor(r: Redis, r': Redis, who: Client) {
    forall key :: KeyOfClient(key, who) ==>
      && (key in r.counters <==> key in r'.counters)
      && (key in r.counters ==> r.counters[key] == r'.counters[key])
      && (key in r.owed <==> key in r'.owed)
  }

  lemma OwnStepAgrees(r: Redis, r': Redis, c: Command, who: Client)
    requires AgreeFor(r, r', who) && (Sends(c, who) || (c.Expire? && KeyOfClient(c.key, who)))
    ensures AgreeFor(Step(r, c), Step(r', c), who)
    ensures Sends(c, who) ==> Reply(r, c) == Reply(r', c)
  {
    hide Key;
    if Sends(c, who) {
      assert KeyOfClient(KeyOf(c), who);
    }
  }

  lemma OthersStepAgrees(r: Redis, r': Redis, c: Command, who: Client)
    requires AgreeFor(r, r', who) && !Sends(c, who) && (c.Expire? ==> !KeyOfClient(c.key, who))
    requires c.Incr? ==> !Collide(who, Client(c.scope, c.ip))
    ensures AgreeFor(Step(r, c), r', who)
  {
    if c.Incr? {
      forall slot: nat ensures KeyOf(c) != Key(who.scope, who.ip, slot) {
        if KeyOf(c) == Key(who.scope, who.ip, slot) {
          KeyDeterminesSlot(c.scope, c.ip, Slot(c.clock), who.scope, who.ip, slot);
          SafeAlike(who.ip, c.ip);
        }
      }
      assert !KeyOfClient(KeyOf(c), who);
    }
    hide Key, KeyOf, KeyOfClient;
  }

  lemma {:induction false} IsolatedWithoutCollision(cs: seq<Command>, who: Client)
    requires forall i :: 0 <= i < |cs| && cs[i].Incr? ==> !Collide(who, Client(cs[i].scope, cs[i].ip))
    ensures Replies(cs, who) == Replies(Only(cs, who), who)
    ensures AgreeFor(After(cs), After(Only(cs, who)), who)
  {
    if |cs| > 0 {
      hide Key, KeyOf, KeyOfClient, AgreeFor, Collide, Step, Reply;
      var before, c := cs[..|cs| - 1], cs[|cs| - 1];
      assert forall i :: 0 <= i < |before| ==> before[i] == cs[i];
      IsolatedWithoutCollision(before, who);
      if Sends(c, who) || (c.Expire? && KeyOfClient(c.key, who)) {
        OwnStepAgrees(After(before), After(Only(before, who)), c, who);
      } else {
        OthersStepAgrees(After(before), After(Only(before, who)), c, who);
        assert Only(before, who) + [] == Only(before, who);
      }
    }
  }

  /** One request of each of two clients. */
  function BothOnce(other: Client, who: Client): seq<Command> {
    [] + [Incr(0, other.scope, other.ip, 0)] + [Incr(0, who.scope, who.ip, 0)]
  }

  lemma CollisionShows(other: Client, who: Client)
    requires Collide(who, other)
    ensures Replies(BothOnce(other, who), who) == [2]
    ensures Replies(Only(BothOnce(other, who), who), who) == [1]
  {
    var a, b := Incr(0, other.scope, other.ip, 0), Incr(0, who.scope, who.ip, 0);
    SafeAlike(who.ip, other.ip);
    assert KeyOf(a) == KeyOf(b);
    hide Key, KeyOf, Alike;
    assert After([]) == Redis(map[], {}) && Replies([], who) == [] && Only([], who) == [];
  }

  /**
    Whatever other clients send, in every order of commands, a client gets the replies,
    and so for every limit the decisions, of the run with their requests left out, if and
    only if none of them collides with it: uses its scope, and an address that differs
    from its own only in colons, percent signs and underscores.
  */
  lemma ClientsAreIsolatedExactlyWhen(who: Client, others: set<Client>)
    requires who !in others
    ensures (forall cs :: From(cs, others + {who}) ==> Replies(cs, who) == Replies(Only(cs, who), who))
            <==> forall o :: o in others ==> !Collide(who, o)
  {
    if o :| o in others && Collide(who, o) {
      CollisionShows(o, who);
      assert From(BothOnce(o, who), others + {who});
    } else {
      hide Replies, Only, Collide;
      forall cs | From(cs, others + {who}) ensures Replies(cs, who) == Replies(Only(cs, who), who) {
        assert !Collide(who, who);
        IsolatedWithoutCollision(cs, who);
      }
    }
  }

}
