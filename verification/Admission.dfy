/**
  Process-wide source admission: how many transport connections each source address may hold.
  Every operation runs under the table's lock, so an interleaving is a sequence of operations.
 */
module Admission {
  import opened IpAddresses
  import opened MapSums

  /** IPv4-mapped IPv6 addresses (::ffff:0:0/96) count as the IPv4 address they carry. */
  function CanonicalIp(ip: IpAddr): (c: IpAddr)
    ensures c.V6? ==> c == ip && !(0xFFFF_0000_0000 <= ip.v6 <= 0xFFFF_FFFF_FFFF)
  {
    if ip.V6? && 0xFFFF_0000_0000 <= ip.v6 <= 0xFFFF_FFFF_FFFF then V4(ip.v6 - 0xFFFF_0000_0000) else ip
  }

  /** Two spellings of one source are one source, and nothing else is merged. */
  lemma CanonicalMergesOnlyMapped(a: IpAddr, b: IpAddr)
    ensures CanonicalIp(a) == CanonicalIp(b) <==>
            || a == b
            || (a.V4? && b == V6(0xFFFF_0000_0000 + a.v4))
            || (b.V4? && a == V6(0xFFFF_0000_0000 + b.v4))
  {
  }

  /** The table, and the source of every live guard. */
  datatype State = State(counts: map<IpAddr, nat>, guards: map<nat, IpAddr>)

  function Count(counts: map<IpAddr, nat>, source: IpAddr): nat {
    if source in counts then counts[source] else 0
  }

  /** Take one slot away; a source without slots leaves the table. */
  function Less(counts: map<IpAddr, nat>, source: IpAddr): map<IpAddr, nat>
    requires source in counts && counts[source] > 0
  {
    if counts[source] == 1 then counts - {source} else counts[source := counts[source] - 1]
  }

  // ----- the three critical sections -----

  /** Acquire for a new guard `id`. The entry is created before the limit is checked. */
  function Acquired(s: State, limit: nat, id: nat, source: IpAddr): (r: (State, bool))
    requires id !in s.guards
  {
    var key := CanonicalIp(source);
    var n := Count(s.counts, key);
    if n >= limit then (s.(counts := s.counts[key := n]), false)
    else (State(s.counts[key := n + 1], s.guards[id := key]), true)
  }

  function Rebound(s: State, limit: nat, id: nat, source: IpAddr): (r: (State, bool))
    requires id in s.guards
  {
    var key, from := CanonicalIp(source), s.guards[id];
    if key == from then (s, true)
    else if Count(s.counts, from) == 0 then (s, false)
    else if Count(s.counts, key) >= limit then (s, false)
    else (State(Less(s.counts[key := Count(s.counts, key) + 1], from), s.guards[id := key]), true)
  }

  function Dropped(s: State, id: nat): (s': State)
    requires id in s.guards
  {
    var from := s.guards[id];
    if Count(s.counts, from) == 0 then s.(guards := s.guards - {id})
    else State(Less(s.counts, from), s.guards - {id})
  }

  // ----- what every interleaving keeps -----

  ghost function GuardsOf(guards: map<nat, IpAddr>, source: IpAddr): set<nat> {
    set id | id in guards && guards[id] == source
  }

  /** Every count is the number of live guards of its source, and no other source is listed. */
  ghost predicate Exact(s: State) {
    && (forall a :: Count(s.counts, a) == |GuardsOf(s.guards, a)|)
    && (forall a :: a in s.counts ==> s.counts[a] > 0)
    && (forall id :: id in s.guards ==> CanonicalIp(s.guards[id]) == s.guards[id])
  }

  ghost predicate Bounded(s: State, limit: nat) {
    forall a :: a in s.counts ==> s.counts[a] <= limit
  }

  lemma GuardsAdded(guards: map<nat, IpAddr>, id: nat, source: IpAddr, a: IpAddr)
    requires id !in guards
    ensures |GuardsOf(guards[id := source], a)| == |GuardsOf(guards, a)| + (if a == source then 1 else 0)
  {
    var now := GuardsOf(guards[id := source], a);
    if a == source {
      assert now == GuardsOf(guards, a) + {id};
    } else {
      assert now == GuardsOf(guards, a);
    }
  }

  lemma GuardsRemoved(guards: map<nat, IpAddr>, id: nat, a: IpAddr)
    requires id in guards
    ensures |GuardsOf(guards - {id}, a)| == |GuardsOf(guards, a)| - (if a == guards[id] then 1 else 0)
  {
    var now := GuardsOf(guards - {id}, a);
    if a == guards[id] {
      assert GuardsOf(guards, a) == now + {id};
    } else {
      assert now == GuardsOf(guards, a);
    }
  }

  lemma GuardsMoved(guards: map<nat, IpAddr>, id: nat, source: IpAddr, a: IpAddr)
    requires id in guards && guards[id] != source
    ensures |GuardsOf(guards[id := source], a)|
         == |GuardsOf(guards, a)| + (if a == source then 1 else 0) - (if a == guards[id] then 1 else 0)
  {
    GuardsRemoved(guards, id, a);
    GuardsAdded(guards - {id}, id, source, a);
    assert (guards - {id})[id := source] == guards[id := source];
  }

  /** A live guard's source is in the table. */
  lemma GuardCounted(s: State, id: nat)
    requires Exact(s) && id in s.guards
    ensures Count(s.counts, s.guards[id]) > 0
  {
    assert id in GuardsOf(s.guards, s.guards[id]);
    assert Count(s.counts, s.guards[id]) == |GuardsOf(s.guards, s.guards[id])|;
  }

  /** Slots in the table and live guards are the same in number. */
  lemma {:induction false} TotalIsGuards(counts: map<IpAddr, nat>, guards: map<nat, IpAddr>)
    requires forall a :: Count(counts, a) == |GuardsOf(guards, a)|
    ensures Sum(counts) == |guards|
    decreases |counts|
  {
    if counts == map[] {
      if guards != map[] {
        var a := SomeSource(guards);
        assert false;
      }
    } else {
      var a := Pick(counts);
      var others := guards - GuardsOf(guards, a);
      forall b: IpAddr
        ensures Count(counts - {a}, b) == |GuardsOf(others, b)|
      {
        WithoutSource(guards, a, b);
      }
      TotalIsGuards(counts - {a}, others);
      SplitBySource(guards, a);
      assert Count(counts, a) == |GuardsOf(guards, a)|;
    }
  }

  lemma SomeSource(guards: map<nat, IpAddr>) returns (a: IpAddr)
    requires guards != map[]
    ensures |GuardsOf(guards, a)| > 0
  {
    var id :| id in guards;
    a := guards[id];
    assert id in GuardsOf(guards, a);
  }

  lemma WithoutSource(guards: map<nat, IpAddr>, a: IpAddr, b: IpAddr)
    ensures |GuardsOf(guards - GuardsOf(guards, a), b)| == if b == a then 0 else |GuardsOf(guards, b)|
  {
    var others := guards - GuardsOf(guards, a);
    if b == a {
      assert GuardsOf(others, b) == {};
    } else {
      assert GuardsOf(others, b) == GuardsOf(guards, b);
    }
  }

  lemma SplitBySource(guards: map<nat, IpAddr>, a: IpAddr)
    ensures |guards| == |GuardsOf(guards, a)| + |guards - GuardsOf(guards, a)|
  {
    var mine := GuardsOf(guards, a);
    assert guards.Keys == (guards - mine).Keys + mine;
  }

  lemma AcquireKeeps(s: State, limit: nat, id: nat, source: IpAddr)
    requires limit > 0 && Exact(s) && Bounded(s, limit) && id !in s.guards
    ensures var (s', ok) := Acquired(s, limit, id, source);
            && Exact(s') && Bounded(s', limit)
            && (ok <==> |GuardsOf(s.guards, CanonicalIp(source))| < limit)
            && (ok ==> s'.guards == s.guards[id := CanonicalIp(source)])
            && (!ok ==> s' == s)
  {
    var key := CanonicalIp(source);
    var (s', ok) := Acquired(s, limit, id, source);
    if ok {
      forall a: IpAddr
        ensures Count(s'.counts, a) == |GuardsOf(s'.guards, a)|
      {
        GuardsAdded(s.guards, id, key, a);
      }
    } else {
      assert s.counts[key := Count(s.counts, key)] == s.counts;
    }
  }

  /** A rebind moves one guard between two counts; a refused one changes nothing. */
  lemma RebindKeeps(s: State, limit: nat, id: nat, source: IpAddr)
    requires limit > 0 && Exact(s) && Bounded(s, limit) && id in s.guards
    ensures var (s', ok) := Rebound(s, limit, id, source);
            && Exact(s') && Bounded(s', limit)
            && (ok <==> CanonicalIp(source) == s.guards[id] || |GuardsOf(s.guards, CanonicalIp(source))| < limit)
            && (ok ==> s'.guards == s.guards[id := CanonicalIp(source)])
            && Sum(s'.counts) == Sum(s.counts)
            && (!ok ==> s' == s)
  {
    var key, from := CanonicalIp(source), s.guards[id];
    var (s', ok) := Rebound(s, limit, id, source);
    GuardCounted(s, id);
    assert Count(s.counts, key) == |GuardsOf(s.guards, key)|;
    if key == from {
      assert s.guards[id := key] == s.guards;
    } else if ok {
      forall a: IpAddr
        ensures Count(s'.counts, a) == |GuardsOf(s'.guards, a)|
      {
        GuardsMoved(s.guards, id, key, a);
      }
      TotalIsGuards(s.counts, s.guards);
      TotalIsGuards(s'.counts, s'.guards);
      assert s'.guards.Keys == s.guards.Keys;
    }
  }

  lemma DropKeeps(s: State, limit: nat, id: nat)
    requires Exact(s) && Bounded(s, limit) && id in s.guards
    ensures Exact(Dropped(s, id)) && Bounded(Dropped(s, id), limit)
    ensures Dropped(s, id).guards == s.guards - {id}
  {
    GuardCounted(s, id);
    var s' := Dropped(s, id);
    forall a: IpAddr
      ensures Count(s'.counts, a) == |GuardsOf(s'.guards, a)|
    {
      GuardsRemoved(s.guards, id, a);
    }
  }

  // ----- all interleavings -----

  datatype Event = Acquire(id: nat, source: IpAddr) | Rebind(id: nat, source: IpAddr) | Drop(id: nat)

  /** Events that can happen: guards are created once and used while they live. */
  ghost predicate Enabled(s: State, e: Event) {
    if e.Acquire? then e.id !in s.guards else e.id in s.guards
  }

  ghost function After(s: State, limit: nat, e: Event): State
    requires Enabled(s, e)
  {
    match e
    case Acquire(id, source) => Acquired(s, limit, id, source).0
    case Rebind(id, source) => Rebound(s, limit, id, source).0
    case Drop(id) => Dropped(s, id)
  }

  ghost predicate Interleaving(s: State, limit: nat, events: seq<Event>, t: State)
    decreases |events|
  {
    if events == [] then s == t
    else Enabled(s, events[0]) && Interleaving(After(s, limit, events[0]), limit, events[1..], t)
  }

  /**
    After any interleaving the table lists exactly the canonical sources with live guards,
    each with its number of live guards and within the limit, and its total is the number
    of live guards.
   */
  lemma {:induction false} EveryInterleaving(s: State, limit: nat, events: seq<Event>, t: State)
    requires limit > 0 && Exact(s) && Bounded(s, limit) && Interleaving(s, limit, events, t)
    ensures Exact(t) && Bounded(t, limit)
    ensures t.counts.Keys == t.guards.Values && Sum(t.counts) == |t.guards|
    decreases |events|
  {
    if events == [] {
      KeysAreSources(t);
      TotalIsGuards(t.counts, t.guards);
    } else {
      match events[0] {
        case Acquire(id, source) => AcquireKeeps(s, limit, id, source);
        case Rebind(id, source) => RebindKeeps(s, limit, id, source);
        case Drop(id) => DropKeeps(s, limit, id);
      }
      EveryInterleaving(After(s, limit, events[0]), limit, events[1..], t);
    }
  }

  /** How often an interleaving grants a slot, and how often it gives one back. */
  ghost function Grants(s: State, limit: nat, events: seq<Event>): nat
    decreases |events|
  {
    if events == [] || !Enabled(s, events[0]) then 0 else
    var e := events[0];
    (if e.Acquire? && Acquired(s, limit, e.id, e.source).1 then 1 else 0) +
    Grants(After(s, limit, e), limit, events[1..])
  }

  ghost function Drops(events: seq<Event>): nat {
    if events == [] then 0 else (if events[0].Drop? then 1 else 0) + Drops(events[1..])
  }

  lemma StepCounts(s: State, limit: nat, e: Event)
    requires limit > 0 && Exact(s) && Bounded(s, limit) && Enabled(s, e)
    ensures Exact(After(s, limit, e)) && Bounded(After(s, limit, e), limit)
    ensures |After(s, limit, e).guards| == |s.guards|
            + (if e.Acquire? && Acquired(s, limit, e.id, e.source).1 then 1 else 0) - (if e.Drop? then 1 else 0)
  {
    match e
    case Acquire(id, source) => AcquireKeeps(s, limit, id, source);
    case Rebind(id, source) =>
      RebindKeeps(s, limit, id, source);
      assert After(s, limit, e).guards.Keys == s.guards.Keys;
    case Drop(id) =>
      DropKeeps(s, limit, id);
      assert s.guards.Keys == (s.guards - {id}).Keys + {id};
  }

  /** The table holds one slot for every grant that was not given back. */
  lemma {:induction false} SlotsAreGrants(s: State, limit: nat, events: seq<Event>, t: State)
    requires limit > 0 && Exact(s) && Bounded(s, limit) && Interleaving(s, limit, events, t)
    ensures Sum(t.counts) + Drops(events) == |s.guards| + Grants(s, limit, events)
    decreases |events|
  {
    if events == [] {
      TotalIsGuards(t.counts, t.guards);
    } else {
      StepCounts(s, limit, events[0]);
      SlotsAreGrants(After(s, limit, events[0]), limit, events[1..], t);
    }
  }

  lemma KeysAreSources(s: State)
    requires Exact(s)
    ensures s.counts.Keys == s.guards.Values
  {
    forall a | a in s.counts
      ensures a in s.guards.Values
    {
      assert Count(s.counts, a) == |GuardsOf(s.guards, a)|;
      var id :| id in GuardsOf(s.guards, a);
    }
    forall a | a in s.guards.Values
      ensures a in s.counts
    {
      var id :| id in s.guards && s.guards[id] == a;
      GuardCounted(s, id);
    }
  }

  /** With a limit of zero the first refusal already leaves an entry no guard accounts for. */
  lemma ZeroLimitLeaks(source: IpAddr)
    ensures !Exact(Acquired(State(map[], map[]), 0, 0, source).0)
  {
    var s := Acquired(State(map[], map[]), 0, 0, source).0;
    assert CanonicalIp(source) in s.counts && s.counts[CanonicalIp(source)] == 0;
  }

  ghost predicate AlwaysExact(limit: nat) {
    forall events: seq<Event>, t: State :: Interleaving(State(map[], map[]), limit, events, t) ==> Exact(t)
  }

  /** The table is exact after every interleaving from the start if and only if the limit is positive. */
  lemma LimitDecides(limit: nat)
    ensures AlwaysExact(limit) <==> limit > 0
  {
    var start := State(map[], map[]);
    if limit > 0 {
      assert forall a :: GuardsOf(start.guards, a) == {};
      forall events: seq<Event>, t: State | Interleaving(start, limit, events, t) ensures Exact(t) {
        EveryInterleaving(start, limit, events, t);
      }
    } else {
      var e := Acquire(0, V4(0));
      var t := After(start, limit, e);
      ZeroLimitLeaks(V4(0));
      OneEvent(start, limit, e, t);
    }
  }

  lemma OneEvent(s: State, limit: nat, e: Event, t: State)
    requires Enabled(s, e) && t == After(s, limit, e)
    ensures Interleaving(s, limit, [e], t)
  {
    assert [e][1..] == [];
  }

  class Limiter {
    const maxPerIp: nat
    var counts: map<IpAddr, nat>
    /** The source field of every live guard. */
    var guards: map<nat, IpAddr>

    ghost function View(): State
      reads this
    {
      State(counts, guards)
    }

    constructor (maxPerIp: nat)
      requires maxPerIp > 0
      ensures View() == State(map[], map[]) && this.maxPerIp == maxPerIp
    {
      this.maxPerIp := maxPerIp;
      counts := map[];
      guards := map[];
    }

    method TryAcquire(id: nat, source: IpAddr) returns (ok: bool)
      requires id !in guards
      modifies this
      ensures (View(), ok) == Acquired(old(View()), maxPerIp, id, source)
    {
      var key := CanonicalIp(source);
      if key !in counts {
        counts := counts[key := 0];
      }
      if counts[key] >= maxPerIp {
        assert counts == old(counts)[key := Count(old(counts), key)];
        return false;
      }
      counts := counts[key := counts[key] + 1];
      guards := guards[id := key];
      assert counts == old(counts)[key := Count(old(counts), key) + 1];
      return true;
    }

    method TryRebind(id: nat, source: IpAddr) returns (ok: bool)
      requires id in guards
      modifies this
      ensures (View(), ok) == Rebound(old(View()), maxPerIp, id, source)
    {
      var key := CanonicalIp(source);
      var from := guards[id];
      if key == from {
        return true;
      }
      if from !in counts || counts[from] == 0 {
        return false;
      }
      if Count(counts, key) >= maxPerIp {
        return false;
      }
      counts := counts[key := Count(counts, key) + 1];
      counts := Less(counts, from);
      guards := guards[id := key];
      return true;
    }

    method DropGuard(id: nat)
      requires id in guards
      modifies this
      ensures View() == Dropped(old(View()), id)
    {
      var from := guards[id];
      guards := guards - {id};
      if from !in counts || counts[from] == 0 {
        return;
      }
      counts := Less(counts, from);
    }
  }
}
