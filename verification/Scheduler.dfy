/**
  The deadline-ordered wakeup queue of the connection event loop: an indexed binary
  min-heap with a map from connection index to heap slot.

  The abstract value of a queue is a plain finite map from connection to deadline.
 */
module Scheduler {
  import opened Base

  /** One heap entry; entries are ordered by deadline, then by connection index. */
  datatype Timer = Timer(at: int, index: nat)

  predicate Before(a: Timer, b: Timer) {
    a.at < b.at || (a.at == b.at && a.index < b.index)
  }

  predicate NotAfter(a: Timer, b: Timer) {
    a == b || Before(a, b)
  }

  function Parent(i: nat): nat {
    if i == 0 then 0 else (i - 1) / 2
  }

  /** `positions` and the heap slots are inverse to each other. */
  ghost predicate Bijective(heap: seq<Timer>, positions: map<nat, nat>) {
    && (forall i :: 0 <= i < |heap| ==> heap[i].index in positions && positions[heap[i].index] == i)
    && (forall k :: k in positions ==> positions[k] < |heap| && heap[positions[k]].index == k)
  }

  /** The edge from slot `i` to its parent respects the heap order. */
  ghost predicate Edge(heap: seq<Timer>, i: nat)
    requires i < |heap|
  {
    NotAfter(heap[Parent(i)], heap[i])
  }

  ghost predicate Ordered(heap: seq<Timer>) {
    forall i :: 0 < i < |heap| ==> Edge(heap, i)
  }

  /** Every child of `p` is no earlier than `p`'s parent. */
  ghost predicate Bridged(heap: seq<Timer>, p: nat)
    requires p < |heap|
  {
    p > 0 ==> forall i :: 0 < i < |heap| && Parent(i) == p ==> NotAfter(heap[Parent(p)], heap[i])
  }

  /** Ordered, except that slot `p` may be too early for its place. */
  ghost predicate RisingAt(heap: seq<Timer>, p: nat)
    requires p < |heap|
  {
    (forall i :: 0 < i < |heap| && i != p ==> Edge(heap, i)) && Bridged(heap, p)
  }

  /** Ordered, except that slot `p` may be too late for its place. */
  ghost predicate SinkingAt(heap: seq<Timer>, p: nat)
    requires p < |heap|
  {
    (forall i :: 0 < i < |heap| && Parent(i) != p ==> Edge(heap, i)) && Bridged(heap, p)
  }

  /** Ordered, except that slot `p` holds an arbitrary entry. */
  ghost predicate LooseAt(heap: seq<Timer>, p: nat)
    requires p < |heap|
  {
    (forall i :: 0 < i < |heap| && i != p && Parent(i) != p ==> Edge(heap, i)) && Bridged(heap, p)
  }

  function Swapped(heap: seq<Timer>, a: nat, b: nat): seq<Timer>
    requires a < |heap| && b < |heap|
  {
    heap[a := heap[b]][b := heap[a]]
  }

  /** The abstract value: the latest deadline of every scheduled connection. */
  ghost function Deadlines(heap: seq<Timer>, positions: map<nat, nat>): map<nat, int>
    requires Bijective(heap, positions)
  {
    map k | k in positions :: heap[positions[k]].at
  }

  // ----- reference behaviour on the plain map -----

  datatype Op = Schedule(index: nat, at: int) | Cancel(index: nat) | Expire(now: int)

  ghost function Due(deadlines: map<nat, int>, now: int): set<Timer> {
    set k | k in deadlines && deadlines[k] <= now :: Timer(deadlines[k], k)
  }

  ghost function Later(deadlines: map<nat, int>, now: int): map<nat, int> {
    map k | k in deadlines && deadlines[k] > now :: deadlines[k]
  }

  ghost predicate Ascending(ts: seq<Timer>) {
    forall i, j :: 0 <= i < j < |ts| ==> Before(ts[i], ts[j])
  }

  ghost function Elements(ts: seq<Timer>): set<Timer> {
    set t | t in ts
  }

  /** `fired` lists exactly the entries due at `now`, each once, earliest first. */
  ghost predicate FiresDue(fired: seq<Timer>, deadlines: map<nat, int>, now: int) {
    Ascending(fired) && Elements(fired) == Due(deadlines, now)
  }

  ghost function Indices(ts: seq<Timer>): set<nat> {
    set t | t in ts :: t.index
  }

  /** Every callback finds its own entry, and all earlier ones, already removed. */
  ghost predicate RemovedWhenFired(seen: seq<map<nat, int>>, fired: seq<Timer>, start: map<nat, int>) {
    && |seen| == |fired|
    && forall k :: 0 <= k < |fired| ==> seen[k] == start - Indices(fired[..k + 1])
  }

  /** Part-way through an expiry: `fired` has left `start`, `rest` is still queued. */
  ghost predicate Draining(start: map<nat, int>, rest: map<nat, int>, fired: seq<Timer>, now: int) {
    && Ascending(fired)
    && (forall t :: t in fired ==> t in Due(start, now))
    && rest == start - Indices(fired)
    && forall t, k :: t in fired && k in rest ==> Before(t, Timer(rest[k], k))
  }

  ghost function Apply(deadlines: map<nat, int>, op: Op): map<nat, int> {
    match op
    case Schedule(index, at) => deadlines[index := at]
    case Cancel(index) => deadlines - {index}
    case Expire(now) => Later(deadlines, now)
  }

  ghost function ApplyAll(deadlines: map<nat, int>, ops: seq<Op>): map<nat, int> {
    if ops == [] then deadlines else Apply(ApplyAll(deadlines, ops[..|ops| - 1]), ops[|ops| - 1])
  }

  /** The k-th list of fired entries answers the k-th operation of the run. */
  ghost predicate FiredBy(fired: seq<seq<Timer>>, deadlines: map<nat, int>, ops: seq<Op>) {
    && |fired| == |ops|
    && forall k :: 0 <= k < |ops| ==>
         if ops[k].Expire? then FiresDue(fired[k], ApplyAll(deadlines, ops[..k]), ops[k].now)
         else fired[k] == []
  }

  // ----- facts about the heap -----

  /** Heap, index map and abstract map are of one size. */
  lemma {:induction false} OneEntryEach(heap: seq<Timer>, positions: map<nat, nat>)
    requires Bijective(heap, positions)
    ensures |heap| == |positions| == |Deadlines(heap, positions)|
  {
    assert Deadlines(heap, positions).Keys == positions.Keys;
    if heap == [] {
      assert positions == map[];
    } else {
      var last := |heap| - 1;
      var index := heap[last].index;
      var rest := positions - {index};
      assert forall k :: k in rest ==> k in positions && positions[k] != last;
      OneEntryEach(heap[..last], rest);
      assert positions.Keys == rest.Keys + {index};
    }
  }

  lemma {:induction false} RootIsLeast(heap: seq<Timer>, i: nat)
    requires Ordered(heap) && i < |heap|
    ensures NotAfter(heap[0], heap[i])
  {
    if i > 0 {
      RootIsLeast(heap, Parent(i));
      assert Edge(heap, i);
    }
  }

  lemma SwapKeepsBijection(heap: seq<Timer>, positions: map<nat, nat>, a: nat, b: nat)
    requires Bijective(heap, positions) && a < |heap| && b < |heap| && a != b
    ensures var positions' := positions[heap[b].index := a][heap[a].index := b];
            && Bijective(Swapped(heap, a, b), positions')
            && Deadlines(Swapped(heap, a, b), positions') == Deadlines(heap, positions)
  {
    assert positions[heap[a].index] == a && positions[heap[b].index] == b;
  }

  /** Swapping an early entry with its parent moves the violation to the parent. */
  lemma RiseStep(heap: seq<Timer>, p: nat)
    requires 0 < p < |heap| && RisingAt(heap, p) && Before(heap[p], heap[Parent(p)])
    ensures RisingAt(Swapped(heap, Parent(p), p), Parent(p))
  {
    var q := Parent(p);
    var next := Swapped(heap, q, p);
    forall i | 0 < i < |next| && i != q
      ensures Edge(next, i)
    {
      assert i != p ==> Edge(heap, i);
    }
    if q > 0 {
      assert Edge(heap, q);
      forall i | 0 < i < |next| && Parent(i) == q
        ensures NotAfter(next[Parent(q)], next[i])
      {
        assert i != p ==> Edge(heap, i);
      }
    }
  }

  /** Swapping a late entry with its least child moves the violation to the child. */
  lemma SinkStep(heap: seq<Timer>, p: nat, child: nat)
    requires p < |heap| && 0 < child < |heap| && Parent(child) == p
    requires SinkingAt(heap, p) && Before(heap[child], heap[p])
    requires 2 * p + 1 < |heap| ==> NotAfter(heap[child], heap[2 * p + 1])
    requires 2 * p + 2 < |heap| ==> NotAfter(heap[child], heap[2 * p + 2])
    ensures SinkingAt(Swapped(heap, p, child), child)
  {
    var next := Swapped(heap, p, child);
    forall i | 0 < i < |next| && Parent(i) != child
      ensures Edge(next, i)
    {
      if Parent(i) != p {
        assert Edge(heap, i);
      } else {
        assert i == 2 * p + 1 || i == 2 * p + 2;
      }
    }
    forall i | 0 < i < |next| && Parent(i) == child
      ensures NotAfter(next[Parent(child)], next[i])
    {
      assert Edge(heap, i);
    }
  }

  /** Overwriting one slot of an ordered heap leaves only that slot loose. */
  lemma OverwriteLoosens(heap: seq<Timer>, p: nat, t: Timer)
    requires Ordered(heap) && p < |heap|
    ensures LooseAt(heap[p := t], p)
  {
    var next := heap[p := t];
    forall i | 0 < i < |next| && i != p && Parent(i) != p
      ensures Edge(next, i)
    {
      assert Edge(heap, i);
    }
    if p > 0 {
      forall i | 0 < i < |next| && Parent(i) == p
        ensures NotAfter(next[Parent(p)], next[i])
      {
        assert Edge(heap, p) && Edge(heap, i);
      }
    }
  }

  lemma OverwriteKeepsBijection(heap: seq<Timer>, positions: map<nat, nat>, t: Timer)
    requires Bijective(heap, positions) && t.index in positions
    ensures Bijective(heap[positions[t.index] := t], positions)
    ensures Deadlines(heap[positions[t.index] := t], positions) == Deadlines(heap, positions)[t.index := t.at]
  {
  }

  lemma AppendKeepsBijection(heap: seq<Timer>, positions: map<nat, nat>, t: Timer)
    requires Bijective(heap, positions) && t.index !in positions
    ensures Bijective(heap + [t], positions[t.index := |heap|])
    ensures Deadlines(heap + [t], positions[t.index := |heap|]) == Deadlines(heap, positions)[t.index := t.at]
  {
  }

  lemma AppendRises(heap: seq<Timer>, t: Timer)
    requires Ordered(heap)
    ensures RisingAt(heap + [t], |heap|)
  {
    forall i | 0 < i < |heap|
      ensures Edge(heap + [t], i)
    {
      assert Edge(heap, i);
    }
  }

  /** The heap after the entry in slot `p` is replaced by the last entry. */
  function SwapRemoved(heap: seq<Timer>, p: nat): seq<Timer>
    requires p < |heap|
  {
    heap[p := heap[|heap| - 1]][..|heap| - 1]
  }

  function Rehomed(heap: seq<Timer>, positions: map<nat, nat>, p: nat): map<nat, nat>
    requires p < |heap|
  {
    var rest := positions - {heap[p].index};
    if p < |heap| - 1 then rest[heap[|heap| - 1].index := p] else rest
  }

  lemma RemovalKeepsBijection(heap: seq<Timer>, positions: map<nat, nat>, p: nat)
    requires Bijective(heap, positions) && p < |heap|
    ensures Bijective(SwapRemoved(heap, p), Rehomed(heap, positions, p))
    ensures Deadlines(SwapRemoved(heap, p), Rehomed(heap, positions, p))
         == Deadlines(heap, positions) - {heap[p].index}
  {
    var last := |heap| - 1;
    var next, homes := SwapRemoved(heap, p), Rehomed(heap, positions, p);
    forall i | 0 <= i < |next|
      ensures next[i].index in homes && homes[next[i].index] == i
    {
      assert positions[heap[i].index] == i && positions[heap[last].index] == last;
      assert positions[heap[p].index] == p;
    }
    forall k | k in homes
      ensures homes[k] < |next| && next[homes[k]].index == k
      ensures next[homes[k]].at == heap[positions[k]].at
    {
      assert positions[heap[last].index] == last;
      assert positions[heap[p].index] == p;
    }
  }

  lemma RemovalLoosens(heap: seq<Timer>, p: nat)
    requires Ordered(heap) && p < |heap|
    ensures if p < |heap| - 1 then LooseAt(SwapRemoved(heap, p), p) else Ordered(SwapRemoved(heap, p))
  {
    var next := SwapRemoved(heap, p);
    if p < |heap| - 1 {
      var full := heap[p := heap[|heap| - 1]];
      OverwriteLoosens(heap, p, heap[|heap| - 1]);
      forall i | 0 < i < |next| && i != p && Parent(i) != p
        ensures Edge(next, i)
      {
        assert Edge(full, i);
      }
    } else {
      assert next == heap[..|heap| - 1];
      DropLastKeepsOrder(heap);
    }
  }

  /** Dropping the last slot keeps whatever order the others had. */
  lemma DropLastKeepsOrder(heap: seq<Timer>)
    requires Ordered(heap) && heap != []
    ensures Ordered(heap[..|heap| - 1])
  {
    var next := heap[..|heap| - 1];
    forall i | 0 < i < |next|
      ensures Edge(next, i)
    {
      assert Edge(heap, i);
    }
  }

  lemma SomeElement(ts: seq<Timer>)
    ensures ts != [] <==> Elements(ts) != {}
    ensures ts != [] ==> ts[0] in Elements(ts)
  {
    if ts != [] {
      assert ts[0] in Elements(ts);
    }
  }

  /** A loose slot is out of place in one direction only. */
  lemma LooseSplits(heap: seq<Timer>, p: nat)
    requires p < |heap| && LooseAt(heap, p)
    ensures p > 0 && Before(heap[p], heap[Parent(p)]) ==> RisingAt(heap, p)
    ensures p == 0 || !Before(heap[p], heap[Parent(p)]) ==> SinkingAt(heap, p)
  {
    assert p > 0 && !Before(heap[p], heap[Parent(p)]) ==> Edge(heap, p);
  }

  /** A sinking entry that is no later than its children has arrived. */
  lemma SinkSettles(heap: seq<Timer>, p: nat)
    requires p < |heap| && SinkingAt(heap, p)
    requires 2 * p + 1 < |heap| ==> NotAfter(heap[p], heap[2 * p + 1])
    requires 2 * p + 2 < |heap| ==> NotAfter(heap[p], heap[2 * p + 2])
    ensures Ordered(heap)
  {
    forall i | 0 < i < |heap|
      ensures Edge(heap, i)
    {
      if Parent(i) == p {
        assert i == 2 * p + 1 || i == 2 * p + 2;
      }
    }
  }

  /** A list of due entries in order is determined by the map: there is only one. */
  lemma {:induction false} AscendingUnique(a: seq<Timer>, b: seq<Timer>)
    requires Ascending(a) && Ascending(b) && Elements(a) == Elements(b)
    ensures a == b
  {
    SomeElement(a);
    SomeElement(b);
    if a != [] {
      var i :| 0 <= i < |b| && b[i] == a[0];
      var j :| 0 <= j < |a| && a[j] == b[0];
      assert a[0] == b[0];
      assert Elements(a[1..]) == Elements(a) - {a[0]};
      assert Elements(b[1..]) == Elements(b) - {b[0]};
      AscendingUnique(a[1..], b[1..]);
    }
  }

  lemma DrainStep(start: map<nat, int>, rest: map<nat, int>, fired: seq<Timer>, now: int, t: Timer)
    requires Draining(start, rest, fired, now)
    requires t.index in rest && rest[t.index] == t.at <= now
    requires forall k :: k in rest && k != t.index ==> Before(t, Timer(rest[k], k))
    ensures Draining(start, rest - {t.index}, fired + [t], now)
  {
    var fired' := fired + [t];
    assert Indices(fired') == Indices(fired) + {t.index};
    forall u | u in fired'
      ensures u in Due(start, now)
    {
      assert u in fired || u == t;
    }
    forall i, j | 0 <= i < j < |fired'|
      ensures Before(fired'[i], fired'[j])
    {
      assert i < |fired| && fired[i] in fired;
    }
  }

  lemma SeenStep(seen: seq<map<nat, int>>, fired: seq<Timer>, start: map<nat, int>, t: Timer, queue: map<nat, int>)
    requires RemovedWhenFired(seen, fired, start)
    requires queue == start - Indices(fired + [t])
    ensures RemovedWhenFired(seen + [queue], fired + [t], start)
  {
    var fired' := fired + [t];
    assert fired'[..|fired'|] == fired';
    forall k | 0 <= k < |fired'|
      ensures (seen + [queue])[k] == start - Indices(fired'[..k + 1])
    {
      if k < |fired| {
        assert fired'[..k + 1] == fired[..k + 1];
      }
    }
  }

  lemma DrainDone(start: map<nat, int>, rest: map<nat, int>, fired: seq<Timer>, now: int)
    requires Draining(start, rest, fired, now)
    requires forall k :: k in rest ==> rest[k] > now
    ensures FiresDue(fired, start, now) && rest == Later(start, now)
  {
    forall t | t in Due(start, now)
      ensures t in fired
    {
      assert t.index !in rest;
      var u :| u in fired && u.index == t.index;
      assert u in Due(start, now);
    }
    forall k | k in Later(start, now)
      ensures k in rest
    {
      forall t | t in fired
        ensures t.index != k
      {
        assert t in Due(start, now);
      }
    }
    assert Elements(fired) == Due(start, now);
  }

  lemma RunStep(fired: seq<seq<Timer>>, start: map<nat, int>, ops: seq<Op>, k: nat, out: seq<Timer>)
    requires k < |ops| && FiredBy(fired, start, ops[..k])
    requires if ops[k].Expire? then FiresDue(out, ApplyAll(start, ops[..k]), ops[k].now) else out == []
    ensures FiredBy(fired + [out], start, ops[..k + 1])
    ensures ApplyAll(start, ops[..k + 1]) == Apply(ApplyAll(start, ops[..k]), ops[k])
  {
    var done := ops[..k + 1];
    assert done[..k] == ops[..k];
    forall j | 0 <= j < |done|
      ensures if done[j].Expire? then FiresDue((fired + [out])[j], ApplyAll(start, done[..j]), done[j].now)
              else (fired + [out])[j] == []
    {
      assert done[..j] == ops[..k][..j] || j == k;
    }
  }

  class TimerQueue {
    var heap: seq<Timer>
    var positions: map<nat, nat>

    ghost predicate Valid()
      reads this
    {
      Bijective(heap, positions) && Ordered(heap)
    }

    ghost function View(): map<nat, int>
      requires Bijective(heap, positions)
      reads this
    {
      Deadlines(heap, positions)
    }

    constructor ()
      ensures Valid() && View() == map[]
    {
      heap := [];
      positions := map[];
    }

    method Schedule(index: nat, at: int)
      requires Valid()
      modifies this
      ensures Valid() && View() == old(View())[index := at]
    {
      var timer := Timer(at, index);
      if index in positions {
        var position := positions[index];
        OverwriteLoosens(heap, position, timer);
        OverwriteKeepsBijection(heap, positions, timer);
        heap := heap[position := timer];
        Repair(position);
      } else {
        var position := |heap|;
        AppendRises(heap, timer);
        AppendKeepsBijection(heap, positions, timer);
        heap := heap + [timer];
        positions := positions[index := position];
        SiftUp(position);
      }
    }

    method Cancel(index: nat)
      requires Valid()
      modifies this
      ensures Valid() && View() == old(View()) - {index}
      ensures |heap| == if index in old(View()) then old(|heap|) - 1 else old(|heap|)
    {
      if index !in positions {
        return;
      }
      var position := positions[index];
      RemovalKeepsBijection(heap, positions, position);
      RemovalLoosens(heap, position);
      positions := positions - {index};
      heap := SwapRemoved(heap, position);
      if position < |heap| {
        positions := positions[heap[position].index := position];
        assert positions == Rehomed(old(heap), old(positions), position);
        Repair(position);
      }
    }

    method Swap(a: nat, b: nat)
      requires Bijective(heap, positions) && a < |heap| && b < |heap| && a != b
      modifies this
      ensures heap == Swapped(old(heap), a, b)
      ensures Bijective(heap, positions) && View() == old(View())
    {
      SwapKeepsBijection(heap, positions, a, b);
      heap := heap[a := heap[b]][b := heap[a]];
      positions := positions[heap[a].index := a];
      positions := positions[heap[b].index := b];
    }

    method SiftUp(start: nat)
      requires Bijective(heap, positions) && start < |heap| && RisingAt(heap, start)
      modifies this
      ensures Valid() && View() == old(View()) && |heap| == old(|heap|)
    {
      var position: nat := start;
      while position > 0
        invariant Bijective(heap, positions) && View() == old(View()) && |heap| == old(|heap|)
        invariant position < |heap| && RisingAt(heap, position)
      {
        var parent := (position - 1) / 2;
        if NotAfter(heap[parent], heap[position]) {
          assert Edge(heap, position);
          break;
        }
        RiseStep(heap, position);
        Swap(parent, position);
        position := parent;
      }
    }

    method Repair(start: nat)
      requires Bijective(heap, positions) && start < |heap| && LooseAt(heap, start)
      modifies this
      ensures Valid() && View() == old(View()) && |heap| == old(|heap|)
    {
      LooseSplits(heap, start);
      if start > 0 && Before(heap[start], heap[(start - 1) / 2]) {
        SiftUp(start);
        return;
      }
      var position, settled := start, false;
      while !settled
        invariant Bijective(heap, positions) && View() == old(View()) && |heap| == old(|heap|)
        invariant settled ==> Ordered(heap)
        invariant !settled ==> position < |heap| && SinkingAt(heap, position)
        decreases if settled then 0 else 1, |heap| - position
      {
        position, settled := Sink(position);
      }
    }

    /** One turn of the downward loop: settled, or exchanged with the earlier child. */
    method Sink(position: nat) returns (next: nat, settled: bool)
      requires Bijective(heap, positions) && position < |heap| && SinkingAt(heap, position)
      modifies this
      ensures Bijective(heap, positions) && View() == old(View()) && |heap| == old(|heap|)
      ensures settled ==> Ordered(heap)
      ensures !settled ==> position < next < |heap| && SinkingAt(heap, next)
    {
      var left := 2 * position + 1;
      if left >= |heap| {
        SinkSettles(heap, position);
        return position, true;
      }
      var right := left + 1;
      var child := if right < |heap| && Before(heap[right], heap[left]) then right else left;
      if NotAfter(heap[position], heap[child]) {
        SinkSettles(heap, position);
        return position, true;
      }
      SinkStep(heap, position, child);
      Swap(position, child);
      return child, false;
    }

    /** The root is the unique earliest entry of the abstract map. */
    lemma RootEarliest()
      requires Valid() && heap != []
      ensures heap[0].index in View() && View()[heap[0].index] == heap[0].at
      ensures forall k :: k in View() && k != heap[0].index ==> Before(heap[0], Timer(View()[k], k))
    {
      forall k | k in View() && k != heap[0].index
        ensures Before(heap[0], Timer(View()[k], k))
      {
        RootIsLeast(heap, positions[k]);
      }
    }

    /** The earliest live deadline, ties broken by connection index. */
    method NextWakeup() returns (next: Option<(nat, int)>)
      requires Valid()
      ensures next.None? <==> View() == map[]
      ensures next.Some? ==>
                var (index, at) := next.value;
                && index in View() && View()[index] == at
                && forall k :: k in View() ==> NotAfter(Timer(at, index), Timer(View()[k], k))
    {
      if heap == [] {
        next := None;
      } else {
        next := Some((heap[0].index, heap[0].at));
        RootEarliest();
      }
    }

    /**
      Empty the queue of what is due at `now`. `fired` is what the callback receives, in call
      order; `seen[k]` is the queue the k-th callback would observe.
     */
    method Expire(now: int) returns (fired: seq<Timer>, ghost seen: seq<map<nat, int>>)
      requires Valid()
      modifies this
      ensures Valid() && View() == Later(old(View()), now)
      ensures FiresDue(fired, old(View()), now)
      ensures RemovedWhenFired(seen, fired, old(View()))
      ensures (forall t :: t in fired ==> t.at <= now) && (forall k :: k in View() ==> View()[k] > now)
    {
      fired := [];
      seen := [];
      while heap != []
        invariant Valid() && Draining(old(View()), View(), fired, now)
        invariant RemovedWhenFired(seen, fired, old(View()))
        decreases |heap|
      {
        var timer := heap[0];
        RootEarliest();
        if timer.at > now {
          break;
        }
        DrainStep(old(View()), View(), fired, now, timer);
        Cancel(timer.index);
        SeenStep(seen, fired, old(View()), timer, View());
        fired := fired + [timer];
        seen := seen + [View()];
      }
      DrainDone(old(View()), View(), fired, now);
      assert forall t :: t in fired ==> t in Elements(fired);
    }

    /** Any sequence of operations, answered step by step as the plain map answers it. */
    method Run(ops: seq<Op>) returns (fired: seq<seq<Timer>>)
      requires Valid()
      modifies this
      ensures Valid() && View() == ApplyAll(old(View()), ops)
      ensures FiredBy(fired, old(View()), ops)
    {
      fired := [];
      for k := 0 to |ops|
        invariant Valid() && View() == ApplyAll(old(View()), ops[..k])
        invariant FiredBy(fired, old(View()), ops[..k])
      {
        var out := [];
        match ops[k] {
          case Schedule(index, at) => Schedule(index, at);
          case Cancel(index) => Cancel(index);
          case Expire(now) =>
            ghost var seen;
            out, seen := Expire(now);
        }
        RunStep(fired, old(View()), ops, k, out);
        fired := fired + [out];
      }
      assert ops[..|ops|] == ops;
    }
  }
}
