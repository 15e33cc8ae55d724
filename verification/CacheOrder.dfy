/**
  When cached successes of a credential replace each other in the order of their clock reads.
  A success is dated before the lock is taken, so two of them may be stored the other way
  round; whether that can happen depends on how many passwords the credential accepts and on
  how many verifications may be under way at once.
 */
module CacheOrder {
  import opened Base
  import opened SingleFlight

  /** A request starts only while fewer than `cap` leaders are alive. */
  ghost predicate Admitted(s: State, e: Event, cap: nat) {
    e.Request? ==> |s.leaders| < cap
  }

  /** An interleaving of at most `cap` verifications at a time. */
  ghost predicate CappedRun(s: State, accepts: Oracle, cap: nat, events: seq<Event>, t: State)
    decreases |events|
  {
    if events == [] then s == t
    else Enabled(s, events[0]) && Admitted(s, events[0], cap) &&
         CappedRun(After(s, accepts, events[0]), accepts, cap, events[1..], t)
  }

  /** The cached success is lost, or replaced by one that expires earlier. */
  ghost predicate MovesBack(s: State, t: State) {
    s.success.Some? && (t.success.Some? ==> t.success.value.expires < s.success.value.expires)
  }

  /** No step of any run moves the cached expiry back. */
  ghost predicate NeverBack(accepts: Oracle, cap: nat) {
    forall now: int, events: seq<Event>, t: State, e: Event ::
      CappedRun(Idle(now), accepts, cap, events, t) && Enabled(t, e) && Admitted(t, e, cap) ==>
        !MovesBack(t, After(t, accepts, e))
  }

  ghost predicate Nobody(accepts: Oracle) {
    forall a: Password :: !accepts(a)
  }

  ghost predicate AtMostOne(accepts: Oracle) {
    forall a: Password, b: Password :: accepts(a) && accepts(b) ==> a == b
  }

  // ----- one flight per password -----

  /** Every leader that has not left the registry is the flight registered for its password. */
  ghost predicate Covered(s: State) {
    forall f :: f in s.leaders && !s.leaders[f].Unregistered? ==>
      && f in s.flights
      && Tag(s.flights[f].password) in s.inFlight
      && s.inFlight[Tag(s.flights[f].password)] == f
  }

  /** Single flight: two leaders at work on one password are the same leader. */
  lemma OneLeaderPerPassword(s: State, f: nat, g: nat)
    requires Covered(s) && f in s.leaders && g in s.leaders
    requires !s.leaders[f].Unregistered? && !s.leaders[g].Unregistered?
    requires f in s.flights && g in s.flights && s.flights[f].password == s.flights[g].password
    ensures f == g
  {
  }

  lemma LedCovers(s: State, password: Password, id: nat)
    requires Covered(s) && id !in s.flights && Tag(password) !in s.inFlight
    ensures Covered(Led(s, password, id, s.inFlight[Tag(password) := id]))
  {
  }

  lemma BeginCovers(s: State, password: Password, id: nat)
    requires RegistryLed(s) && Covered(s) && id !in s.flights && id !in s.waiters
    requires |s.inFlight| < MAX_IN_FLIGHT_PASSWORDS
    ensures Covered(Begin(s, password, id).0)
  {
    if !Hit(s, password) {
      BeginUnpruned(s, password, id);
      if Tag(password) !in s.inFlight {
        LedCovers(s, password, id);
      }
    }
  }

  lemma DropCovers(s: State, f: nat)
    requires RegistryLed(s) && Covered(s) && Enabled(s, Drop(f))
    ensures Covered(Unregister(s, f))
  {
    var t := Unregister(s, f);
    forall g | g in t.leaders && !t.leaders[g].Unregistered?
      ensures g in t.flights && Tag(t.flights[g].password) in t.inFlight
      ensures t.inFlight[Tag(t.flights[g].password)] == g
    {
      DropRemovesOnlyItself(s, f, Tag(s.flights[g].password));
    }
  }

  /** Every step keeps this as long as no request meets a full registry. */
  lemma CoveredStep(s: State, accepts: Oracle, e: Event)
    requires Invariant(s, accepts) && Covered(s) && Enabled(s, e)
    requires e.Request? ==> |s.inFlight| < MAX_IN_FLIGHT_PASSWORDS
    ensures Covered(After(s, accepts, e))
  {
    match e
    case Request(password, id) => BeginCovers(s, password, id);
    case Drop(f) => DropCovers(s, f);
    case _ =>
  }

  lemma {:induction false} Injects(m: map<Digest, nat>, ids: set<nat>)
    requires forall d :: d in m ==> m[d] in ids
    requires forall d, c :: d in m && c in m && m[d] == m[c] ==> d == c
    ensures |m| <= |ids|
    decreases |m|
  {
    if m != map[] {
      var d :| d in m;
      Injects(m - {d}, ids - {m[d]});
    }
  }

  /** Every registered flight has its own live leader, so a cap on leaders bounds the registry. */
  lemma RegistryBelowLeaders(s: State)
    requires RegistryLed(s)
    ensures |s.inFlight| <= |s.leaders|
  {
    Injects(s.inFlight, s.leaders.Keys);
  }

  // ----- order under the condition -----

  ghost predicate OneStamp(s: State) {
    forall f, g :: f in s.leaders && g in s.leaders && s.leaders[f].Stamped? && s.leaders[g].Stamped? ==> f == g
  }

  /** A success about to be stored expires no earlier than the cached one. */
  ghost predicate InOrder(s: State) {
    s.success.Some? ==>
      forall f :: f in s.leaders && s.leaders[f].Stamped? ==>
        s.success.value.expires <= s.leaders[f].at + SUCCESS_CACHE_TTL
  }

  lemma HashOrder(s: State, accepts: Oracle, f: nat)
    requires CacheTrue(s, accepts) && InOrder(s) && Enabled(s, Hash(f))
    ensures InOrder(Verify(s, accepts, f))
  {
  }

  lemma StoreOrder(s: State, f: nat)
    requires OneStamp(s) && InOrder(s) && Enabled(s, Store(f))
    ensures InOrder(Cache(s, f)) && !MovesBack(s, Cache(s, f))
  {
  }

  lemma RequestOrder(s: State, password: Password, id: nat)
    requires RegistryLed(s) && InOrder(s) && Enabled(s, Request(password, id))
    ensures InOrder(Begin(s, password, id).0) && !MovesBack(s, Begin(s, password, id).0)
  {
    if !Hit(s, password) {
      BeginUnpruned(s, password, id);
    }
  }

  lemma QuietOrder(s: State, t: State)
    requires InOrder(s) && t.success == s.success
    requires forall f :: f in t.leaders && t.leaders[f].Stamped? ==> f in s.leaders && s.leaders[f] == t.leaders[f]
    ensures InOrder(t) && !MovesBack(s, t)
  {
  }

  lemma OrderStep(s: State, accepts: Oracle, e: Event)
    requires Invariant(s, accepts) && OneStamp(s) && InOrder(s) && Enabled(s, e)
    ensures InOrder(After(s, accepts, e)) && !MovesBack(s, After(s, accepts, e))
  {
    match e
    case Request(password, id) => RequestOrder(s, password, id);
    case Hash(f) => HashOrder(s, accepts, f);
    case Store(f) => StoreOrder(s, f);
    case Announce(f) => QuietOrder(s, Publish(s, f));
    case Drop(f) => QuietOrder(s, Unregister(s, f));
    case _ => QuietOrder(s, After(s, accepts, e));
  }

  /** The condition under which the cached expiry never moves back. */
  ghost predicate Orderly(accepts: Oracle, cap: nat) {
    Nobody(accepts) || cap <= 1 || (AtMostOne(accepts) && cap <= MAX_IN_FLIGHT_PASSWORDS)
  }

  ghost predicate Sound(s: State, accepts: Oracle, cap: nat) {
    && Invariant(s, accepts) && InOrder(s)
    && (cap <= 1 ==> |s.leaders| <= 1)
    && (cap <= MAX_IN_FLIGHT_PASSWORDS ==> Covered(s))
  }

  lemma SoundHasOneStamp(s: State, accepts: Oracle, cap: nat)
    requires Orderly(accepts, cap) && Sound(s, accepts, cap)
    ensures OneStamp(s)
  {
    forall f, g | f in s.leaders && g in s.leaders && s.leaders[f].Stamped? && s.leaders[g].Stamped?
      ensures f == g
    {
      assert accepts(s.flights[f].password) && accepts(s.flights[g].password);
      if cap <= 1 {
        OnlyLeader(s.leaders, f, g);
      } else {
        OneLeaderPerPassword(s, f, g);
      }
    }
  }

  lemma OnlyLeader(leaders: map<nat, Phase>, f: nat, g: nat)
    requires |leaders| <= 1 && f in leaders && g in leaders
    ensures f == g
  {
    SubsetSize({f, g}, leaders.Keys);
  }

  lemma FewLeaders(s: State, accepts: Oracle, e: Event)
    requires Invariant(s, accepts) && Enabled(s, e) && |s.leaders| <= 1 && Admitted(s, e, 1)
    ensures |After(s, accepts, e).leaders| <= 1
  {
    match e
    case Request(password, id) =>
      if !Hit(s, password) {
        BeginUnpruned(s, password, id);
      }
    case Release(f) => SubsetSize((s.leaders - {f}).Keys, s.leaders.Keys);
    case Hash(f) => assert After(s, accepts, e).leaders.Keys == s.leaders.Keys;
    case Store(f) => assert After(s, accepts, e).leaders.Keys == s.leaders.Keys;
    case Announce(f) => assert After(s, accepts, e).leaders.Keys == s.leaders.Keys;
    case Drop(f) => assert After(s, accepts, e).leaders.Keys == s.leaders.Keys;
    case _ =>
  }

  lemma SoundStep(s: State, accepts: Oracle, cap: nat, e: Event)
    requires Orderly(accepts, cap) && Sound(s, accepts, cap) && Enabled(s, e) && Admitted(s, e, cap)
    ensures Sound(After(s, accepts, e), accepts, cap) && !MovesBack(s, After(s, accepts, e))
  {
    SoundHasOneStamp(s, accepts, cap);
    StepKeeps(s, accepts, e);
    OrderStep(s, accepts, e);
    if cap <= 1 {
      FewLeaders(s, accepts, e);
    }
    if cap <= MAX_IN_FLIGHT_PASSWORDS {
      RegistryBelowLeaders(s);
      CoveredStep(s, accepts, e);
    }
  }

  lemma {:induction false} SoundRun(s: State, accepts: Oracle, cap: nat, events: seq<Event>, t: State)
    requires Orderly(accepts, cap) && Sound(s, accepts, cap) && CappedRun(s, accepts, cap, events, t)
    ensures Sound(t, accepts, cap)
    decreases |events|
  {
    if events != [] {
      SoundStep(s, accepts, cap, events[0]);
      SoundRun(After(s, accepts, events[0]), accepts, cap, events[1..], t);
    }
  }

  // ----- runs that break the order otherwise -----

  lemma {:induction false} RunOn(
    s: State, accepts: Oracle, cap: nat, events: seq<Event>, t: State, e: Event)
    requires CappedRun(s, accepts, cap, events, t) && Enabled(t, e) && Admitted(t, e, cap)
    ensures CappedRun(s, accepts, cap, events + [e], After(t, accepts, e))
    decreases |events|
  {
    if events == [] {
      assert [] + [e] == [e] && [e][1..] == [];
    } else {
      RunOn(After(s, accepts, events[0]), accepts, cap, events[1..], t, e);
      assert (events + [e])[0] == events[0] && (events + [e])[1..] == events[1..] + [e];
    }
  }

  /** What is known of a state reached on the way: it is sound, and nothing is cached yet. */
  ghost predicate Reached(accepts: Oracle, cap: nat, events: seq<Event>, t: State) {
    CappedRun(Idle(0), accepts, cap, events, t) && Invariant(t, accepts) && t.success == None
  }

  lemma ReachedOn(accepts: Oracle, cap: nat, events: seq<Event>, t: State, e: Event)
    requires Reached(accepts, cap, events, t) && Enabled(t, e) && Admitted(t, e, cap) && !e.Store?
    ensures Reached(accepts, cap, events + [e], After(t, accepts, e))
  {
    RunOn(Idle(0), accepts, cap, events, t, e);
    StepKeeps(t, accepts, e);
  }

  /** Two accepted leaders at work can hash one second apart. */
  lemma HashBoth(accepts: Oracle, cap: nat, events: seq<Event>, t: State, f: nat, g: nat)
    returns (more: seq<Event>, t': State)
    requires Reached(accepts, cap, events, t) && f != g
    requires f in t.leaders && t.leaders[f] == Running && g in t.leaders && t.leaders[g] == Running
    requires f in t.flights && accepts(t.flights[f].password) && g in t.flights && accepts(t.flights[g].password)
    ensures Reached(accepts, cap, more, t')
    ensures f in t'.leaders && t'.leaders[f] == Stamped(t.now) && g in t'.leaders && t'.leaders[g] == Stamped(t.now + 1)
  {
    ReachedOn(accepts, cap, events, t, Hash(f));
    more, t' := events + [Hash(f)], Verify(t, accepts, f);
    ReachedOn(accepts, cap, more, t', Tick(1));
    more, t' := more + [Tick(1)], t'.(now := t'.now + 1);
    ReachedOn(accepts, cap, more, t', Hash(g));
    more, t' := more + [Hash(g)], Verify(t', accepts, g);
  }

  /** Stored the other way round, they move the cached expiry back. */
  lemma TwoAtWorkMoveBack(accepts: Oracle, cap: nat, events: seq<Event>, t: State, f: nat, g: nat)
    requires Reached(accepts, cap, events, t) && f != g
    requires f in t.leaders && t.leaders[f] == Running && g in t.leaders && t.leaders[g] == Running
    requires f in t.flights && accepts(t.flights[f].password) && g in t.flights && accepts(t.flights[g].password)
    ensures !NeverBack(accepts, cap)
  {
    var more, t' := HashBoth(accepts, cap, events, t, f, g);
    LeaderHasFlight(t', accepts, f);
    LeaderHasFlight(t', accepts, g);
    EarlierStampWins(t', accepts, f, g);
    RunOn(Idle(0), accepts, cap, more, t', Store(g));
    assert CappedRun(Idle(0), accepts, cap, more + [Store(g)], Cache(t', g)) && Enabled(Cache(t', g), Store(f));
  }

  lemma LeaderHasFlight(t: State, accepts: Oracle, f: nat)
    requires FlightsSound(t, accepts) && f in t.leaders
    ensures f in t.flights
  {
  }

  /** Of two stamped successes the later one stored first is replaced by one that expires earlier. */
  lemma EarlierStampWins(s: State, accepts: Oracle, early: nat, late: nat)
    requires early != late && Enabled(s, Store(early)) && Enabled(s, Store(late))
    requires s.leaders[early].at < s.leaders[late].at
    ensures Enabled(Cache(s, late), Store(early))
    ensures MovesBack(Cache(s, late), After(Cache(s, late), accepts, Store(early)))
  {
  }

  lemma LeadsAt(s: State, accepts: Oracle, password: Password, id: nat)
    requires Invariant(s, accepts) && Enabled(s, Request(password, id))
    requires s.success == None && Tag(password) !in s.inFlight
    ensures After(s, accepts, Request(password, id)) ==
            Led(s, password, id,
                if |s.inFlight| < MAX_IN_FLIGHT_PASSWORDS then s.inFlight[Tag(password) := id] else s.inFlight)
  {
    BeginUnpruned(s, password, id);
  }

  /** Two accepted passwords and two verifications at a time are enough. */
  lemma TwoPasswordsMoveBack(accepts: Oracle, cap: nat, a: Password, b: Password)
    requires cap >= 2 && a != b && accepts(a) && accepts(b)
    ensures !NeverBack(accepts, cap)
  {
    var s := Idle(0);
    assert Reached(accepts, cap, [], s);
    LeadsAt(s, accepts, a, 0);
    ReachedOn(accepts, cap, [], s, Request(a, 0));
    var t := After(s, accepts, Request(a, 0));
    LeadsAt(t, accepts, b, 1);
    ReachedOn(accepts, cap, [] + [Request(a, 0)], t, Request(b, 1));
    TwoAtWorkMoveBack(
      accepts, cap, [] + [Request(a, 0)] + [Request(b, 1)], After(t, accepts, Request(b, 1)), 0, 1);
  }

  // ----- one password behind a full registry -----

  /** Passwords that differ from `p` and from each other by their length. */
  function Filler(p: Password, k: nat): (q: Password)
    ensures |q| == |p| + 1 + k
  {
    seq(|p| + 1 + k, _ => 0)
  }

  /** Flights 0 to k - 1 are under way for fillers, all of them registered. */
  ghost predicate Filled(t: State, p: Password, k: nat) {
    && |t.inFlight| == k && |t.leaders| == k && t.waiters == map[]
    && (forall f :: f in t.flights ==> f < k)
    && (forall d :: d in t.inFlight ==> |p| < |d.password| <= |p| + k)
    && (k > 0 ==> 0 in t.leaders && t.leaders[0] == Running && 0 in t.flights)
  }

  lemma OneMore<K, V>(m: map<K, V>, k: K, v: V)
    requires k !in m
    ensures |m[k := v]| == |m| + 1
  {
    assert m[k := v].Keys == m.Keys + {k};
  }

  lemma LedFilled(t: State, p: Password, k: nat)
    requires Filled(t, p, k) && k !in t.leaders && Tag(Filler(p, k)) !in t.inFlight
    ensures Filled(Led(t, Filler(p, k), k, t.inFlight[Tag(Filler(p, k)) := k]), p, k + 1)
  {
    OneMore(t.inFlight, Tag(Filler(p, k)), k);
    OneMore(t.leaders, k, Running);
  }

  lemma NotALeader(t: State, accepts: Oracle, id: nat)
    requires FlightsSound(t, accepts) && id !in t.flights
    ensures id !in t.leaders
  {
  }

  lemma FillOne(t: State, accepts: Oracle, p: Password, k: nat)
    requires Invariant(t, accepts) && t.success == None && Filled(t, p, k) && k < MAX_IN_FLIGHT_PASSWORDS
    ensures Enabled(t, Request(Filler(p, k), k))
    ensures Filled(After(t, accepts, Request(Filler(p, k), k)), p, k + 1)
  {
    NotALeader(t, accepts, k);
    LedFilled(t, p, k);
    LeadsAt(t, accepts, Filler(p, k), k);
  }

  lemma {:induction false} FillUp(accepts: Oracle, cap: nat, p: Password, k: nat) returns (events: seq<Event>, t: State)
    requires k <= MAX_IN_FLIGHT_PASSWORDS < cap
    ensures Reached(accepts, cap, events, t) && Filled(t, p, k)
  {
    if k == 0 {
      events, t := [], Idle(0);
    } else {
      events, t := FillUp(accepts, cap, p, k - 1);
      var e := Request(Filler(p, k - 1), k - 1);
      FillOne(t, accepts, p, k - 1);
      ReachedOn(accepts, cap, events, t, e);
      events, t := events + [e], After(t, accepts, e);
    }
  }

  /** Flight `n` is at work on `p` without being registered, beside `extra` others; later ids are free. */
  ghost predicate Unlisted(t: State, p: Password, n: nat, extra: nat) {
    && n in t.leaders && t.leaders[n] == Running && n in t.flights && t.flights[n].password == p
    && Tag(p) !in t.inFlight && |t.leaders| == extra + 1 && t.waiters == map[]
    && (forall f :: f in t.flights ==> f <= n)
  }

  /** A request that meets a full registry leads without being registered. */
  lemma Overflows(t: State, accepts: Oracle, p: Password)
    requires Invariant(t, accepts) && t.success == None && Filled(t, p, MAX_IN_FLIGHT_PASSWORDS)
    ensures var n := MAX_IN_FLIGHT_PASSWORDS;
            && Enabled(t, Request(p, n))
            && Unlisted(After(t, accepts, Request(p, n)), p, n, n)
            && Enabled(After(t, accepts, Request(p, n)), Drop(0))
  {
    var n := MAX_IN_FLIGHT_PASSWORDS;
    NotALeader(t, accepts, n);
    OneMore(t.leaders, n, Running);
    LeadsAt(t, accepts, p, n);
  }

  /** One of the others goes. */
  lemma OneLess(t: State, accepts: Oracle, p: Password, n: nat, extra: nat)
    requires Unlisted(t, p, n, extra) && n > 0 && extra > 0 && Enabled(t, Drop(0))
    ensures Enabled(After(t, accepts, Drop(0)), Release(0))
    ensures Unlisted(After(After(t, accepts, Drop(0)), accepts, Release(0)), p, n, extra - 1)
  {
    var t' := After(After(t, accepts, Drop(0)), accepts, Release(0));
    assert t'.leaders.Keys == t.leaders.Keys - {0};
  }

  /** The next request for the same password leads too. */
  lemma LeadsBeside(t: State, accepts: Oracle, p: Password, n: nat, extra: nat)
    requires Invariant(t, accepts) && t.success == None && Unlisted(t, p, n, extra)
    ensures Enabled(t, Request(p, n + 1))
    ensures var t' := After(t, accepts, Request(p, n + 1));
            && n in t'.leaders && t'.leaders[n] == Running && n in t'.flights && t'.flights[n].password == p
            && n + 1 in t'.leaders && t'.leaders[n + 1] == Running
            && n + 1 in t'.flights && t'.flights[n + 1].password == p
  {
    LeadsAt(t, accepts, p, n + 1);
  }

  /** Two leaders at work on one password, once more verifications run than the registry holds. */
  lemma Doubled(accepts: Oracle, cap: nat, p: Password) returns (events: seq<Event>, t: State, f: nat, g: nat)
    requires cap > MAX_IN_FLIGHT_PASSWORDS
    ensures Reached(accepts, cap, events, t) && f != g
    ensures f in t.leaders && t.leaders[f] == Running && g in t.leaders && t.leaders[g] == Running
    ensures f in t.flights && t.flights[f].password == p && g in t.flights && t.flights[g].password == p
  {
    var n := MAX_IN_FLIGHT_PASSWORDS;
    f, g := n, n + 1;
    events, t := FillUp(accepts, cap, p, n);
    Overflows(t, accepts, p);
    ReachedOn(accepts, cap, events, t, Request(p, n));
    events, t := events + [Request(p, n)], After(t, accepts, Request(p, n));
    OneLess(t, accepts, p, n, n);
    ReachedOn(accepts, cap, events, t, Drop(0));
    events, t := events + [Drop(0)], After(t, accepts, Drop(0));
    ReachedOn(accepts, cap, events, t, Release(0));
    events, t := events + [Release(0)], After(t, accepts, Release(0));
    LeadsBeside(t, accepts, p, n, n - 1);
    ReachedOn(accepts, cap, events, t, Request(p, n + 1));
    events, t := events + [Request(p, n + 1)], After(t, accepts, Request(p, n + 1));
  }

  // ----- the two conditions -----

  ghost predicate AtWork(t: State, f: nat, p: Password) {
    f in t.leaders && !t.leaders[f].Unregistered? && f in t.flights && t.flights[f].password == p
  }

  /** In every run, leaders at work on one password are the same leader. */
  ghost predicate AlwaysSingle(accepts: Oracle, cap: nat) {
    forall now: int, events: seq<Event>, t: State, f: nat, g: nat, p: Password ::
      CappedRun(Idle(now), accepts, cap, events, t) && AtWork(t, f, p) && AtWork(t, g, p) ==> f == g
  }

  lemma {:induction false} CoveredRun(s: State, accepts: Oracle, cap: nat, events: seq<Event>, t: State)
    requires cap <= MAX_IN_FLIGHT_PASSWORDS && Invariant(s, accepts) && Covered(s)
    requires CappedRun(s, accepts, cap, events, t)
    ensures Invariant(t, accepts) && Covered(t)
    decreases |events|
  {
    if events != [] {
      RegistryBelowLeaders(s);
      StepKeeps(s, accepts, events[0]);
      CoveredStep(s, accepts, events[0]);
      CoveredRun(After(s, accepts, events[0]), accepts, cap, events[1..], t);
    }
  }

  /** A password is never verified twice at once if and only if the registry has room for every verification. */
  lemma SingleExactly(accepts: Oracle, cap: nat)
    ensures AlwaysSingle(accepts, cap) <==> cap <= MAX_IN_FLIGHT_PASSWORDS
  {
    if cap <= MAX_IN_FLIGHT_PASSWORDS {
      forall now: int, events: seq<Event>, t: State, f: nat, g: nat, p: Password |
        CappedRun(Idle(now), accepts, cap, events, t) && AtWork(t, f, p) && AtWork(t, g, p)
        ensures f == g
      {
        CoveredRun(Idle(now), accepts, cap, events, t);
        OneLeaderPerPassword(t, f, g);
      }
    } else {
      var events, t, f, g := Doubled(accepts, cap, []);
      assert AtWork(t, f, []) && AtWork(t, g, []);
    }
  }

  /**
    The cached expiry never moves back if and only if no password is accepted, or verifications
    run one at a time, or one password is accepted and no more verifications run at once than
    the registry holds.
   */
  lemma OrderExactly(accepts: Oracle, cap: nat)
    ensures NeverBack(accepts, cap) <==> Orderly(accepts, cap)
  {
    if Orderly(accepts, cap) {
      forall now: int, events: seq<Event>, t: State, e: Event |
        CappedRun(Idle(now), accepts, cap, events, t) && Enabled(t, e) && Admitted(t, e, cap)
        ensures !MovesBack(t, After(t, accepts, e))
      {
        SoundRun(Idle(now), accepts, cap, events, t);
        SoundStep(t, accepts, cap, e);
      }
    } else if AtMostOne(accepts) {
      var p :| accepts(p);
      var events, t, f, g := Doubled(accepts, cap, p);
      TwoAtWorkMoveBack(accepts, cap, events, t, f, g);
    } else {
      var a, b :| accepts(a) && accepts(b) && a != b;
      TwoPasswordsMoveBack(accepts, cap, a, b);
    }
  }
}
