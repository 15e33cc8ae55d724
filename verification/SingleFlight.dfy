/**
  Single-flight password verification for one credential: concurrent requests with the same
  password share one Argon2 computation, and a success is cached for a fixed time.

  Every access to the shared state happens in a critical section, so an execution is a
  sequence of the events below. Argon2 is a fixed predicate on passwords.
 */
module SingleFlight {
  import opened Base

  const SUCCESS_CACHE_TTL: nat := 300
  const MAX_IN_FLIGHT_PASSWORDS: nat := 256

  type Password = Bytes
  type Oracle = Password -> bool

  /** The HMAC tag of a password; distinct passwords have distinct tags. */
  datatype Digest = Tag(password: Password)

  datatype FlightResult = Pending | Complete(authorized: bool) | Abandoned

  /** One shared computation: the password it is for and what its followers can see. */
  datatype Flight = Flight(password: Password, result: FlightResult)

  /**
    How far a leader is: hashing, about to cache a success whose expiry is counted from `at`,
    done with the cache, published, or out of the registry.
   */
  datatype Phase =
    | Running
    | Stamped(at: int)
    | Verified(authorized: bool)
    | Published(authorized: bool)
    | Unregistered

  datatype Waiter = Waiter(flight: nat, password: Password)

  /** A cached success and when it expires. */
  datatype Success = Success(digest: Digest, expires: int)

  datatype State = State(
    now: int,
    success: Option<Success>,
    /** Weak references: the flight registered for each digest. */
    inFlight: map<Digest, nat>,
    flights: map<nat, Flight>,
    leaders: map<nat, Phase>,
    waiters: map<nat, Waiter>
  )

  datatype Verification = Cached | Leading(flight: nat) | Following(waiter: nat)

  // ----- the critical sections -----

  predicate Hit(s: State, password: Password) {
    s.success.Some? && s.now < s.success.value.expires && s.success.value.digest == Tag(password)
  }

  /** A flight is alive while its leader or a follower holds it. */
  function Held(leaders: map<nat, Phase>, waiters: map<nat, Waiter>): set<nat> {
    leaders.Keys + set w | w in waiters :: waiters[w].flight
  }

  function Retained(inFlight: map<Digest, nat>, held: set<nat>): map<Digest, nat> {
    map d | d in inFlight && inFlight[d] in held :: inFlight[d]
  }

  /** The state once `id` leads a new flight, registered or not. */
  function Led(s: State, password: Password, id: nat, registry: map<Digest, nat>): State {
    s.(inFlight := registry,
       flights := s.flights[id := Flight(password, Pending)],
       leaders := s.leaders[id := Running])
  }

  /** Join a flight or start one; `id` names the new waiter or flight. */
  function Begin(s: State, password: Password, id: nat): (r: (State, Verification))
    requires id !in s.flights && id !in s.waiters
  {
    if Hit(s, password) then (s, Cached) else
    var registry := Retained(s.inFlight, Held(s.leaders, s.waiters));
    var digest := Tag(password);
    if digest in registry then
      (s.(inFlight := registry, waiters := s.waiters[id := Waiter(registry[digest], password)]), Following(id))
    else
      (Led(s, password, id, if |registry| < MAX_IN_FLIGHT_PASSWORDS then registry[digest := id] else registry),
       Leading(id))
  }

  /** The leader's Argon2 run ends; a success is stamped with the time before the lock is taken. */
  function Verify(s: State, accepts: Oracle, f: nat): State
    requires f in s.leaders && f in s.flights
  {
    s.(leaders := s.leaders[f := if accepts(s.flights[f].password) then Stamped(s.now) else Verified(false)])
  }

  /** Under the lock, a stamped success replaces whatever was cached. */
  function Cache(s: State, f: nat): State
    requires f in s.leaders && s.leaders[f].Stamped? && f in s.flights
  {
    s.(success := Some(Success(Tag(s.flights[f].password), s.leaders[f].at + SUCCESS_CACHE_TTL)),
       leaders := s.leaders[f := Verified(true)])
  }

  function Publish(s: State, f: nat): State
    requires f in s.leaders && s.leaders[f].Verified? && f in s.flights
  {
    var authorized := s.leaders[f].authorized;
    s.(flights := s.flights[f := s.flights[f].(result := Complete(authorized))],
       leaders := s.leaders[f := Published(authorized)])
  }

  /** The locked part of dropping a leader: leave the registry, and give up if not completed. */
  function Unregister(s: State, f: nat): State
    requires f in s.leaders && f in s.flights
  {
    var digest := Tag(s.flights[f].password);
    var registry := if digest in s.inFlight && s.inFlight[digest] == f then s.inFlight - {digest} else s.inFlight;
    var flights := if s.leaders[f].Published? then s.flights
                   else s.flights[f := s.flights[f].(result := Abandoned)];
    s.(inFlight := registry, flights := flights, leaders := s.leaders[f := Unregistered])
  }

  /** What a follower gets: a verdict, a request to elect another leader, or nothing yet. */
  function Observed(s: State, w: nat): (r: Option<Option<bool>>)
    requires w in s.waiters && s.waiters[w].flight in s.flights
  {
    match s.flights[s.waiters[w].flight].result
    case Complete(authorized) => Some(Some(authorized))
    case Abandoned => Some(None)
    case Pending => None
  }

  // ----- events and their interleavings -----

  datatype Event =
    | Request(password: Password, id: nat)
    | Hash(flight: nat)
    | Store(flight: nat)
    | Announce(flight: nat)
    | Drop(flight: nat)
    | Release(flight: nat)
    | Poll(waiter: nat)
    | Cancel(waiter: nat)
    | Tick(seconds: nat)

  predicate Enabled(s: State, e: Event) {
    match e
    case Request(_, id) => id !in s.flights && id !in s.waiters
    case Hash(f) => f in s.flights && f in s.leaders && s.leaders[f].Running?
    case Store(f) => f in s.flights && f in s.leaders && s.leaders[f].Stamped?
    case Announce(f) => f in s.flights && f in s.leaders && s.leaders[f].Verified?
    case Drop(f) => f in s.flights && f in s.leaders && !s.leaders[f].Unregistered?
    case Release(f) => f in s.leaders && s.leaders[f].Unregistered?
    case Poll(w) => w in s.waiters && s.waiters[w].flight in s.flights
    case Cancel(w) => w in s.waiters
    case Tick(_) => true
  }

  function After(s: State, accepts: Oracle, e: Event): State
    requires Enabled(s, e)
  {
    match e
    case Request(password, id) => Begin(s, password, id).0
    case Hash(f) => Verify(s, accepts, f)
    case Store(f) => Cache(s, f)
    case Announce(f) => Publish(s, f)
    case Drop(f) => Unregister(s, f)
    case Release(f) => s.(leaders := s.leaders - {f})
    case Poll(w) => if Observed(s, w).Some? then s.(waiters := s.waiters - {w}) else s
    case Cancel(w) => s.(waiters := s.waiters - {w})
    case Tick(seconds) => s.(now := s.now + seconds)
  }

  // ----- what every interleaving keeps -----

  /** A registered flight has a leader that has not finished dropping, for that very password. */
  ghost predicate RegistryLed(s: State) {
    forall d :: d in s.inFlight ==>
      var f := s.inFlight[d];
      f in s.leaders && !s.leaders[f].Unregistered? && f in s.flights && Tag(s.flights[f].password) == d
  }

  /** A leader's phase, its flight's result and the password's true verdict fit together. */
  ghost predicate LeaderFits(phase: Phase, flight: Flight, accepts: Oracle) {
    match phase
    case Running => flight.result.Pending?
    case Stamped(_) => flight.result.Pending? && accepts(flight.password)
    case Verified(a) => flight.result.Pending? && a == accepts(flight.password)
    case Published(a) => flight.result == Complete(a) && a == accepts(flight.password)
    case Unregistered => !flight.result.Pending?
  }

  ghost predicate FlightsSound(s: State, accepts: Oracle) {
    && (forall f :: f in s.leaders ==> f in s.flights && LeaderFits(s.leaders[f], s.flights[f], accepts))
    && (forall f :: f in s.flights && s.flights[f].result.Pending? ==> f in s.leaders)
    && (forall f :: f in s.flights && s.flights[f].result.Complete? ==>
          s.flights[f].result.authorized == accepts(s.flights[f].password))
  }

  ghost predicate WaitersJoined(s: State) {
    forall w :: w in s.waiters ==>
      s.waiters[w].flight in s.flights && s.flights[s.waiters[w].flight].password == s.waiters[w].password
  }

  /** Only an accepted password is cached, and never for longer than the TTL; no stamp is in the future. */
  ghost predicate CacheTrue(s: State, accepts: Oracle) {
    && (s.success.Some? ==>
          accepts(s.success.value.digest.password) && s.success.value.expires <= s.now + SUCCESS_CACHE_TTL)
    && (forall f :: f in s.leaders && s.leaders[f].Stamped? ==> s.leaders[f].at <= s.now)
  }

  ghost predicate Invariant(s: State, accepts: Oracle) {
    && RegistryLed(s)
    && |s.inFlight| <= MAX_IN_FLIGHT_PASSWORDS
    && FlightsSound(s, accepts)
    && WaitersJoined(s)
    && CacheTrue(s, accepts)
  }

  /** Pruning dead references never removes anything: every registered flight is alive. */
  lemma RetainedIsAll(s: State)
    requires RegistryLed(s)
    ensures Retained(s.inFlight, Held(s.leaders, s.waiters)) == s.inFlight
  {
  }

  lemma JoinKeeps(s: State, accepts: Oracle, password: Password, id: nat)
    requires Invariant(s, accepts) && Enabled(s, Request(password, id))
    requires Tag(password) in s.inFlight
    ensures Invariant(s.(waiters := s.waiters[id := Waiter(s.inFlight[Tag(password)], password)]), accepts)
  {
  }

  lemma LeadKeepsRegistry(s: State, password: Password, id: nat, registry: map<Digest, nat>)
    requires RegistryLed(s) && id !in s.flights
    requires registry == s.inFlight || registry == s.inFlight[Tag(password) := id]
    ensures RegistryLed(Led(s, password, id, registry))
  {
  }

  lemma LeadKeepsFlights(s: State, accepts: Oracle, password: Password, id: nat, registry: map<Digest, nat>)
    requires FlightsSound(s, accepts) && WaitersJoined(s) && id !in s.flights
    ensures FlightsSound(Led(s, password, id, registry), accepts) && WaitersJoined(Led(s, password, id, registry))
  {
  }

  lemma LeadKeepsCache(s: State, accepts: Oracle, password: Password, id: nat, registry: map<Digest, nat>)
    requires CacheTrue(s, accepts)
    ensures CacheTrue(Led(s, password, id, registry), accepts)
  {
  }

  lemma LeadKeeps(s: State, accepts: Oracle, password: Password, id: nat, registry: map<Digest, nat>)
    requires Invariant(s, accepts) && id !in s.flights && |registry| <= MAX_IN_FLIGHT_PASSWORDS
    requires registry == s.inFlight || registry == s.inFlight[Tag(password) := id]
    ensures Invariant(Led(s, password, id, registry), accepts)
  {
    LeadKeepsRegistry(s, password, id, registry);
    LeadKeepsFlights(s, accepts, password, id, registry);
    LeadKeepsCache(s, accepts, password, id, registry);
  }

  /** Begin in a sound state, where pruning changes nothing. */
  lemma BeginUnpruned(s: State, password: Password, id: nat)
    requires RegistryLed(s) && id !in s.flights && id !in s.waiters && !Hit(s, password)
    ensures var digest := Tag(password);
            Begin(s, password, id).0 ==
            if digest in s.inFlight then s.(waiters := s.waiters[id := Waiter(s.inFlight[digest], password)])
            else Led(s, password, id,
                     if |s.inFlight| < MAX_IN_FLIGHT_PASSWORDS then s.inFlight[digest := id] else s.inFlight)
  {
    RetainedIsAll(s);
  }

  lemma BeginKeeps(s: State, accepts: Oracle, password: Password, id: nat)
    requires Invariant(s, accepts) && Enabled(s, Request(password, id))
    ensures Invariant(Begin(s, password, id).0, accepts)
  {
    if !Hit(s, password) {
      BeginUnpruned(s, password, id);
      if Tag(password) in s.inFlight {
        JoinKeeps(s, accepts, password, id);
      } else if |s.inFlight| < MAX_IN_FLIGHT_PASSWORDS {
        LeadKeeps(s, accepts, password, id, s.inFlight[Tag(password) := id]);
      } else {
        LeadKeeps(s, accepts, password, id, s.inFlight);
      }
    }
  }

  lemma VerifyKeeps(s: State, accepts: Oracle, f: nat)
    requires Invariant(s, accepts) && Enabled(s, Hash(f))
    ensures Invariant(Verify(s, accepts, f), accepts)
  {
  }

  lemma CacheKeeps(s: State, accepts: Oracle, f: nat)
    requires Invariant(s, accepts) && Enabled(s, Store(f))
    ensures Invariant(Cache(s, f), accepts)
  {
    assert LeaderFits(s.leaders[f], s.flights[f], accepts);
  }

  lemma PublishKeeps(s: State, accepts: Oracle, f: nat)
    requires Invariant(s, accepts) && Enabled(s, Announce(f))
    ensures Invariant(Publish(s, f), accepts)
  {
  }

  lemma RemovalShrinks(registry: map<Digest, nat>, digest: Digest)
    ensures |registry - {digest}| <= |registry|
  {
    assert (registry - {digest}).Keys == registry.Keys - {digest};
  }

  /** Leaving the registry takes out this leader's own entry and no other. */
  lemma DropRemovesOnlyItself(s: State, f: nat, d: Digest)
    requires RegistryLed(s) && Enabled(s, Drop(f))
    ensures d in Unregister(s, f).inFlight <==> d in s.inFlight && s.inFlight[d] != f
    ensures d in Unregister(s, f).inFlight ==> Unregister(s, f).inFlight[d] == s.inFlight[d]
  {
  }

  lemma DropKeepsRegistry(s: State, f: nat)
    requires RegistryLed(s) && Enabled(s, Drop(f))
    ensures RegistryLed(Unregister(s, f))
  {
    forall d | d in Unregister(s, f).inFlight {
      DropRemovesOnlyItself(s, f, d);
    }
  }

  lemma DropKeepsFlights(s: State, accepts: Oracle, f: nat)
    requires FlightsSound(s, accepts) && WaitersJoined(s) && Enabled(s, Drop(f))
    ensures FlightsSound(Unregister(s, f), accepts) && WaitersJoined(Unregister(s, f))
  {
  }

  lemma UnregisterKeeps(s: State, accepts: Oracle, f: nat)
    requires Invariant(s, accepts) && Enabled(s, Drop(f))
    ensures Invariant(Unregister(s, f), accepts)
  {
    RemovalShrinks(s.inFlight, Tag(s.flights[f].password));
    DropKeepsRegistry(s, f);
    DropKeepsFlights(s, accepts, f);
  }

  lemma StepKeeps(s: State, accepts: Oracle, e: Event)
    requires Invariant(s, accepts) && Enabled(s, e)
    ensures Invariant(After(s, accepts, e), accepts)
  {
    match e
    case Request(password, id) => BeginKeeps(s, accepts, password, id);
    case Hash(f) => VerifyKeeps(s, accepts, f);
    case Store(f) => CacheKeeps(s, accepts, f);
    case Announce(f) => PublishKeeps(s, accepts, f);
    case Drop(f) => UnregisterKeeps(s, accepts, f);
    case _ =>
  }

  // ----- whole runs -----

  ghost predicate Interleaving(s: State, accepts: Oracle, events: seq<Event>, t: State)
    decreases |events|
  {
    if events == [] then s == t
    else Enabled(s, events[0]) && Interleaving(After(s, accepts, events[0]), accepts, events[1..], t)
  }

  function Idle(now: int): State {
    State(now, None, map[], map[], map[], map[])
  }

  /** Every interleaving of requests, leaders, followers and the clock keeps the protocol sound. */
  lemma {:induction false} EveryInterleaving(s: State, accepts: Oracle, events: seq<Event>, t: State)
    requires Invariant(s, accepts) && Interleaving(s, accepts, events, t)
    ensures Invariant(t, accepts)
    decreases |events|
  {
    if events != [] {
      StepKeeps(s, accepts, events[0]);
      EveryInterleaving(After(s, accepts, events[0]), accepts, events[1..], t);
    }
  }

  /** A request is answered from the cache, by following or by leading, and each exactly when it should be. */
  lemma RequestOutcome(s: State, accepts: Oracle, password: Password, id: nat)
    requires Invariant(s, accepts) && Enabled(s, Request(password, id))
    ensures var v := Begin(s, password, id).1;
            && (v == Cached <==> Hit(s, password))
            && (v == Following(id) <==> !Hit(s, password) && Tag(password) in s.inFlight)
            && (v == Leading(id) <==> !Hit(s, password) && Tag(password) !in s.inFlight)
            && (v == Cached ==> accepts(password) && Begin(s, password, id).0 == s)
  {
    RetainedIsAll(s);
  }

  /** Following adds a follower of a live flight for its own password, and changes nothing else. */
  lemma FollowEffect(s: State, accepts: Oracle, password: Password, id: nat)
    requires Invariant(s, accepts) && Enabled(s, Request(password, id)) && Begin(s, password, id).1 == Following(id)
    ensures var t := Begin(s, password, id).0;
            && id in t.waiters && t == s.(waiters := s.waiters[id := t.waiters[id]])
            && var Waiter(f, of) := t.waiters[id];
            && of == password && f in s.leaders && f in s.flights && s.flights[f].password == password
  {
    RequestOutcome(s, accepts, password, id);
    BeginUnpruned(s, password, id);
  }

  /** Leading starts a flight for the password with a running leader, registered if there is room. */
  lemma LeadEffect(s: State, accepts: Oracle, password: Password, id: nat)
    requires Invariant(s, accepts) && Enabled(s, Request(password, id)) && Begin(s, password, id).1 == Leading(id)
    ensures var t := Begin(s, password, id).0;
            && t.flights == s.flights[id := Flight(password, Pending)] && t.leaders == s.leaders[id := Running]
            && t.waiters == s.waiters && t.success == s.success && t.now == s.now
            && t.inFlight == if |s.inFlight| < 256 then s.inFlight[Tag(password) := id] else s.inFlight
  {
    RequestOutcome(s, accepts, password, id);
    BeginUnpruned(s, password, id);
  }

  /** No follower is stranded: without a result yet, its leader is live and has not finished. */
  lemma NoFollowerStranded(s: State, accepts: Oracle, w: nat)
    requires Invariant(s, accepts) && w in s.waiters
    ensures var f := s.waiters[w].flight;
            && f in s.flights
            && (Observed(s, w) == None ==>
                  && f in s.leaders
                  && (s.leaders[f].Running? || s.leaders[f].Stamped? || s.leaders[f].Verified?)
                  && Enabled(s, Drop(f))
                  && Observed(After(s, accepts, Drop(f)), w) == Some(None))
            && (f !in s.leaders ==> Observed(s, w).Some?)
  {
  }

  /** A verdict a follower observes is the true one for the follower's own password. */
  lemma FollowerVerdict(s: State, accepts: Oracle, w: nat, verdict: bool)
    requires Invariant(s, accepts) && w in s.waiters
    requires s.waiters[w].flight in s.flights && Observed(s, w) == Some(Some(verdict))
    ensures verdict == accepts(s.waiters[w].password)
  {
  }

  /** A leader that runs to completion gives each of its followers the verdict on the follower's password. */
  lemma LeaderServesFollowers(s: State, accepts: Oracle, w: nat)
    requires Invariant(s, accepts) && w in s.waiters
    requires s.waiters[w].flight in s.leaders && s.leaders[s.waiters[w].flight].Running?
    ensures var f := s.waiters[w].flight;
            && Enabled(s, Hash(f))
            && var hashed := After(s, accepts, Hash(f));
            && (accepts(s.waiters[w].password) ==> Enabled(hashed, Store(f)))
            && var stored := if accepts(s.waiters[w].password) then After(hashed, accepts, Store(f)) else hashed;
            && Enabled(stored, Announce(f))
            && var told := After(stored, accepts, Announce(f));
            && told.waiters == s.waiters && f in told.flights
            && Observed(told, w) == Some(Some(accepts(s.waiters[w].password)))
  {
  }

  /** After every interleaving, each follower has the true verdict, a request to retry, or a live leader. */
  lemma FollowersServed(now: int, accepts: Oracle, events: seq<Event>, t: State)
    requires Interleaving(Idle(now), accepts, events, t)
    ensures |t.inFlight| <= MAX_IN_FLIGHT_PASSWORDS
    ensures forall w :: w in t.waiters ==>
              && t.waiters[w].flight in t.flights
              && match Observed(t, w)
                 case Some(Some(verdict)) => verdict == accepts(t.waiters[w].password)
                 case Some(None) => true
                 case None => t.waiters[w].flight in t.leaders && !t.leaders[t.waiters[w].flight].Unregistered?
  {
    assert Invariant(Idle(now), accepts);
    EveryInterleaving(Idle(now), accepts, events, t);
    forall w | w in t.waiters {
      NoFollowerStranded(t, accepts, w);
    }
  }

  lemma ResultsStay(s: State, accepts: Oracle, e: Event, f: nat)
    requires FlightsSound(s, accepts) && Enabled(s, e)
    requires f in s.flights && !s.flights[f].result.Pending?
    ensures f in After(s, accepts, e).flights && After(s, accepts, e).flights[f] == s.flights[f]
  {
    match e
    case Drop(g) =>
    case _ =>
  }

  /** A published result never changes, so followers that poll at different times agree. */
  lemma {:induction false} ResultsFinal(s: State, accepts: Oracle, events: seq<Event>, t: State, f: nat)
    requires Invariant(s, accepts) && Interleaving(s, accepts, events, t)
    requires f in s.flights && !s.flights[f].result.Pending?
    ensures f in t.flights && t.flights[f] == s.flights[f]
    decreases |events|
  {
    if events != [] {
      StepKeeps(s, accepts, events[0]);
      ResultsStay(s, accepts, events[0], f);
      ResultsFinal(After(s, accepts, events[0]), accepts, events[1..], t, f);
    }
  }

  lemma WaiterStays(s: State, accepts: Oracle, e: Event, w: nat)
    requires WaitersJoined(s) && RegistryLed(s) && Enabled(s, e) && w in s.waiters && e != Poll(w) && e != Cancel(w)
    ensures w in After(s, accepts, e).waiters && After(s, accepts, e).waiters[w] == s.waiters[w]
  {
    if e.Request? && !Hit(s, e.password) {
      BeginUnpruned(s, e.password, e.id);
    }
  }

  /**
    The follower's loop, from one look at the result to any later one: a result seen stays, a
    verdict is the true one, and with its leader gone there is a result to see.
   */
  lemma {:induction false} WaitLoop(s: State, accepts: Oracle, events: seq<Event>, t: State, w: nat)
    requires Invariant(s, accepts) && Interleaving(s, accepts, events, t) && w in s.waiters
    requires Poll(w) !in events && Cancel(w) !in events
    ensures Invariant(t, accepts) && w in t.waiters && t.waiters[w] == s.waiters[w]
    ensures Observed(s, w).Some? ==> Observed(t, w) == Observed(s, w)
    ensures Observed(t, w).Some? && Observed(t, w).value.Some? ==>
              Observed(t, w).value.value == accepts(s.waiters[w].password)
    ensures s.waiters[w].flight !in t.leaders ==> Observed(t, w).Some?
    decreases |events|
  {
    if events == [] {
      NoFollowerStranded(s, accepts, w);
    } else {
      var e := events[0];
      StepKeeps(s, accepts, e);
      WaiterStays(s, accepts, e, w);
      if Observed(s, w).Some? {
        ResultsStay(s, accepts, e, s.waiters[w].flight);
      }
      WaitLoop(After(s, accepts, e), accepts, events[1..], t, w);
    }
  }

  /** Every stamp a leader still carries is the time of its `Hash` event. */
  ghost predicate StampsKnown(s: State, hashed: map<nat, int>) {
    forall f :: f in s.leaders && s.leaders[f].Stamped? ==> f in hashed && hashed[f] == s.leaders[f].at
  }

  ghost function HashedBy(s: State, e: Event, hashed: map<nat, int>): map<nat, int> {
    if e.Hash? then hashed[e.flight := s.now] else hashed
  }

  lemma StampsStayKnown(s: State, accepts: Oracle, e: Event, hashed: map<nat, int>)
    requires Enabled(s, e) && StampsKnown(s, hashed)
    ensures StampsKnown(After(s, accepts, e), HashedBy(s, e, hashed))
  {
  }

  /**
    The last success a run stores: the password, and the time its hashing ended. `hashed` gives
    that time for the flights whose hashing ended before the run.
   */
  ghost function LastStored(s: State, accepts: Oracle, events: seq<Event>, hashed: map<nat, int>)
    : Option<(Password, int)>
    decreases |events|
  {
    if events == [] || !Enabled(s, events[0]) then None else
    var e := events[0];
    var later := LastStored(After(s, accepts, e), accepts, events[1..], HashedBy(s, e, hashed));
    if later.Some? then later
    else if e.Store? && e.flight in hashed then Some((s.flights[e.flight].password, hashed[e.flight]))
    else None
  }

  /** The cache holds the last success stored in the run and nothing else, dated from its hashing. */
  lemma {:induction false} CacheIsLastStored(
    s: State, accepts: Oracle, events: seq<Event>, t: State, hashed: map<nat, int>)
    requires Interleaving(s, accepts, events, t) && StampsKnown(s, hashed)
    ensures match LastStored(s, accepts, events, hashed)
            case Some((password, at)) => t.success == Some(Success(Tag(password), at + SUCCESS_CACHE_TTL))
            case None => t.success == s.success
    decreases |events|
  {
    if events != [] {
      StampsStayKnown(s, accepts, events[0], hashed);
      CacheIsLastStored(
        After(s, accepts, events[0]), accepts, events[1..], t, HashedBy(s, events[0], hashed));
    }
  }

  /** A password is answered from the cache exactly until the TTL after its hashing ended, unless overwritten. */
  lemma CachedForExactlyTheTtl(now: int, accepts: Oracle, events: seq<Event>, t: State, password: Password)
    requires Interleaving(Idle(now), accepts, events, t)
    ensures Hit(t, password) <==>
            match LastStored(Idle(now), accepts, events, map[])
            case Some((stored, at)) => stored == password && t.now < at + 300
            case None => false
  {
    CacheIsLastStored(Idle(now), accepts, events, t, map[]);
  }

  // ----- the credential object -----

  class Credential {
    const accepts: Oracle
    var success: Option<Success>
    var inFlight: map<Digest, nat>
    var flights: map<nat, Flight>
    var leaders: map<nat, Phase>
    var waiters: map<nat, Waiter>
    ghost var clock: int

    ghost function View(): State
      reads this
    {
      State(clock, success, inFlight, flights, leaders, waiters)
    }

    ghost predicate Valid()
      reads this
    {
      Invariant(View(), accepts)
    }

    constructor (accepts: Oracle, now: int)
      ensures Valid() && View() == Idle(now) && this.accepts == accepts
    {
      this.accepts := accepts;
      success, inFlight, flights, leaders, waiters := None, map[], map[], map[], map[];
      clock := now;
    }

    /** Whether the last success answers this password. */
    method Cached(password: Password, now: int) returns (hit: bool)
      requires Valid() && clock <= now
      ensures hit == Hit(View().(now := now), password)
      ensures hit ==> accepts(password)
    {
      hit := success.Some? && now < success.value.expires && success.value.digest == Tag(password);
    }

    method BeginVerification(password: Password, now: int, id: nat) returns (v: Verification)
      requires Valid() && clock <= now && id !in flights && id !in waiters
      modifies this
      ensures Valid()
      ensures (View(), v) == Begin(old(View()).(now := now), password, id)
    {
      clock := now;
      BeginKeeps(View(), accepts, password, id);
      var hit := Cached(password, now);
      if hit {
        return Verification.Cached;
      }
      v := JoinOrLead(password, id);
    }

    /** The part of `BeginVerification` after a cache miss. */
    method JoinOrLead(password: Password, id: nat) returns (v: Verification)
      requires id !in flights && id !in waiters && !Hit(View(), password)
      modifies this
      ensures (View(), v) == Begin(old(View()), password, id)
    {
      inFlight := Retained(inFlight, Held(leaders, waiters));
      if Tag(password) in inFlight {
        waiters := waiters[id := Waiter(inFlight[Tag(password)], password)];
        return Following(id);
      }
      if |inFlight| < MAX_IN_FLIGHT_PASSWORDS {
        inFlight := inFlight[Tag(password) := id];
      }
      flights := flights[id := Flight(password, Pending)];
      leaders := leaders[id := Running];
      return Leading(id);
    }

    /** Argon2 for one leader, outside the lock; a success is stamped with the clock. */
    method VerifyPassword(f: nat, now: int) returns (authorized: bool)
      requires Valid() && clock <= now && Enabled(View(), Hash(f))
      modifies this
      ensures Valid() && View() == Verify(old(View()).(now := now), accepts, f)
      ensures authorized == accepts(old(flights)[f].password)
      ensures authorized ==> leaders[f] == Stamped(now)
    {
      clock := now;
      ghost var was := View();
      VerifyKeeps(was, accepts, f);
      authorized := accepts(flights[f].password);
      leaders := leaders[f := if authorized then Stamped(now) else Verified(false)];
      assert View() == Verify(was, accepts, f);
    }

    /** The locked write of a stamped success. */
    method StoreSuccess(f: nat)
      requires Valid() && Enabled(View(), Store(f))
      modifies this
      ensures Valid() && View() == Cache(old(View()), f)
    {
      CacheKeeps(View(), accepts, f);
      success := Some(Success(Tag(flights[f].password), leaders[f].at + SUCCESS_CACHE_TTL));
      leaders := leaders[f := Verified(true)];
    }

    method Complete(f: nat)
      requires Valid() && Enabled(View(), Announce(f))
      modifies this
      ensures Valid() && View() == Publish(old(View()), f)
    {
      PublishKeeps(View(), accepts, f);
      var authorized := leaders[f].authorized;
      flights := flights[f := flights[f].(result := FlightResult.Complete(authorized))];
      leaders := leaders[f := Published(authorized)];
    }

    method DropLeader(f: nat)
      requires Valid() && Enabled(View(), Drop(f))
      modifies this
      ensures Valid() && View() == Unregister(old(View()), f)
      ensures forall d :: d in inFlight <==> d in old(inFlight) && old(inFlight)[d] != f
    {
      UnregisterKeeps(View(), accepts, f);
      forall d {
        DropRemovesOnlyItself(View(), f, d);
      }
      var digest := Tag(flights[f].password);
      if digest in inFlight && inFlight[digest] == f {
        inFlight := inFlight - {digest};
      }
      if !leaders[f].Published? {
        flights := flights[f := flights[f].(result := Abandoned)];
      }
      leaders := leaders[f := Unregistered];
    }

    /** One poll of a follower; a verdict or an abandonment consumes the follower. */
    method Wait(w: nat) returns (outcome: Option<Option<bool>>)
      requires Valid() && w in waiters
      modifies this
      ensures Valid() && View() == After(old(View()), accepts, Poll(w))
      ensures outcome == Observed(old(View()), w)
      ensures View() == old(View()).(waiters := if outcome.Some? then old(waiters) - {w} else old(waiters))
      ensures outcome.Some? && outcome.value.Some? ==> outcome.value.value == accepts(old(waiters)[w].password)
      ensures outcome.None? ==> old(waiters)[w].flight in leaders
    {
      StepKeeps(View(), accepts, Poll(w));
      match flights[waiters[w].flight].result {
        case Complete(authorized) =>
          waiters := waiters - {w};
          return Some(Some(authorized));
        case Abandoned =>
          waiters := waiters - {w};
          return Some(None);
        case Pending =>
          return None;
      }
    }
  }
}
