/**
  Allocation of host addresses from CIDR ranges: a cyclic cursor for dynamic leases,
  process-lifetime reservations, and reference-counted pinned leases.
 */
module AddressPool {
  import opened Base
  import opened Bits
  import opened IpAddresses

  /** A client's public key. */
  type Key = Bytes

  datatype PoolError =
    | Exhausted
    | OutOfRange(addr: IpAddr)
    | AlreadyAllocated(addr: IpAddr)
    | NotReserved(addr: IpAddr)

  /** A lease, with an owner if it is pinned. */
  datatype Allocation = Allocation(claims: nat, owner: Option<Key>)

  // ----- networks -----

  /** A CIDR range: its first address and the mask of its host bits. */
  datatype Net = Net(v4: bool, network: nat, hostMask: nat) {
    /** The host bits of the first address are clear, and the last one is in the address space. */
    ghost predicate Valid() {
      && network + hostMask < (if v4 then 0x1_0000_0000 else 0x1_0000_0000_0000_0000_0000_0000_0000_0000)
      && Aligned(network, hostMask)
    }

    predicate Contains(addr: IpAddr) {
      addr.V4? == v4 && network <= addr.Value() <= network + hostMask
    }

    /** The first address with its lowest bit set, which clients never get. */
    predicate IsGateway(addr: IpAddr) {
      addr.V4? == v4 && BitOr(network, 1) == addr.Value()
    }
  }

  /** `hostMask` is a row of ones, under which `network` has only zeros. */
  ghost predicate Aligned(network: nat, hostMask: nat) {
    hostMask == 0 || (hostMask % 2 == 1 && network % 2 == 0 && Aligned(network / 2, hostMask / 2))
  }

  lemma {:induction false} BlocksAligned(k: nat, h: nat)
    ensures Aligned(k * Pow2(h), Pow2(h) - 1)
  {
    if h > 0 {
      BlocksAligned(k, h - 1);
      Twice(k, Pow2(h - 1));
      AlignedTwice(k * Pow2(h - 1), Pow2(h - 1) - 1);
    }
  }

  lemma Twice(k: nat, p: nat)
    ensures k * (2 * p) == 2 * (k * p)
  {
  }

  lemma AlignedTwice(network: nat, hostMask: nat)
    requires Aligned(network, hostMask)
    ensures Aligned(2 * network, 2 * hostMask + 1)
  {
  }

  /** The range written `base/prefix`; host bits of `base` are ignored. */
  ghost function Cidr(base: IpAddr, prefix: nat): (net: Net)
    requires prefix <= base.Width()
    ensures net.Valid() && net.Contains(base)
  {
    var h := base.Width() - prefix;
    var size := Pow2(h);
    BlockHolds(base.Value(), size);
    CidrFits(base, prefix);
    BlocksAligned(base.Value() / size, h);
    Net(base.V4?, base.Value() / size * size, size - 1)
  }

  lemma BlockHolds(v: nat, size: nat)
    requires size > 0
    ensures 0 <= v / size * size <= v < v / size * size + size
  {
    assert v == v / size * size + v % size;
  }

  /** The block of a value below `blocks` blocks ends no later than they do. */
  lemma BlockBelow(v: nat, size: nat, blocks: nat)
    requires size > 0 && v < blocks * size
    ensures v / size * size + size <= blocks * size
  {
    BlockHolds(v, size);
    NextBlock(v / size, v, size, blocks);
  }

  lemma NextBlock(q: nat, v: nat, size: nat, blocks: nat)
    requires q * size <= v < blocks * size
    ensures q * size + size <= blocks * size
  {
    CancelFactor(q, blocks, size);
    AtLeastOnce(size, blocks - q);
    assert blocks * size == q * size + size * (blocks - q);
  }

  lemma CidrFits(base: IpAddr, prefix: nat)
    requires prefix <= base.Width()
    ensures var size := Pow2(base.Width() - prefix);
            && base.Value() / size * size + size
            <= if base.V4? then 0x1_0000_0000 else 0x1_0000_0000_0000_0000_0000_0000_0000_0000
  {
    WordSizes();
    Pow2Adds(prefix, base.Width() - prefix);
    BlockBelow(base.Value(), Pow2(base.Width() - prefix), Pow2(prefix));
  }

  /** Or-ing a host offset into the network address adds it. */
  lemma OffsetInNet(net: Net, offset: nat)
    requires net.Valid() && offset <= net.hostMask
    ensures BitOr(net.network, offset) == net.network + offset
  {
    OrIsSum(net.network, net.hostMask, offset);
  }

  lemma {:induction false} OrIsSum(network: nat, hostMask: nat, offset: nat)
    requires Aligned(network, hostMask) && offset <= hostMask
    ensures BitOr(network, offset) == network + offset
    decreases hostMask
  {
    if network != 0 && offset != 0 {
      OrIsSum(network / 2, hostMask / 2, offset / 2);
    }
  }

  /** The gateway is the address after the network address exactly for an even network address. */
  lemma GatewayIsNext(net: Net)
    ensures BitOr(net.network, 1) == net.network + 1 <==> net.network % 2 == 0
    ensures net.network % 2 == 1 ==> BitOr(net.network, 1) == net.network
    ensures net.Valid() && net.hostMask > 0 ==> net.network % 2 == 0
  {
    OrZero(net.network / 2);
  }

  lemma OrZero(a: nat)
    ensures BitOr(a, 0) == a
  {
  }

  /** The address at a host offset. */
  function AddrAt(net: Net, offset: nat): (addr: IpAddr)
    requires net.Valid() && offset <= net.hostMask
    ensures addr.V4? == net.v4 && addr.Value() == net.network + offset
  {
    OffsetInNet(net, offset);
    if net.v4 then V4(BitOr(net.network, offset)) else V6(BitOr(net.network, offset))
  }

  lemma OffsetsAreClientAddresses(net: Net, offset: nat)
    requires net.Valid() && 2 <= offset <= net.hostMask
    ensures net.Contains(AddrAt(net, offset)) && !net.IsGateway(AddrAt(net, offset))
  {
    OffsetInNet(net, 1);
  }

  // ----- the cyclic order of offsets -----

  /** The k-th offset after the cursor, over offsets 2 to `end - 1`, wrapping to 2. */
  function Cyclic(cursor: nat, k: nat, end: nat): (o: nat)
    requires 2 <= cursor <= end && k < end - 2
    ensures 2 <= o < end
  {
    var start := if cursor == end then 2 else cursor;
    if start + k < end then start + k else start + k - (end - 2)
  }

  /** The position of an offset in the cyclic order. */
  function CyclicIndex(cursor: nat, o: nat, end: nat): (k: nat)
    requires 2 <= cursor <= end && 2 <= o < end
    ensures k < end - 2 && Cyclic(cursor, k, end) == o
  {
    var start := if cursor == end then 2 else cursor;
    if start <= o then o - start else o + (end - 2) - start
  }

  lemma CyclicStep(cursor: nat, k: nat, end: nat)
    requires 2 <= cursor <= end && 0 < k < end - 2
    ensures var next := Cyclic(cursor, k - 1, end) + 1;
            Cyclic(cursor, k, end) == if next == end then 2 else next
  {
  }

  lemma CyclicInjective(cursor: nat, j: nat, k: nat, end: nat)
    requires 2 <= cursor <= end && j < k < end - 2
    ensures Cyclic(cursor, j, end) != Cyclic(cursor, k, end)
  {
  }

  // ----- the pool as a value -----

  datatype Nets = Nets(v4: Option<Net>, v6: Option<Net>) {
    ghost predicate Valid() {
      && (v4.Some? ==> v4.value.Valid() && v4.value.v4)
      && (v6.Some? ==> v6.value.Valid() && !v6.value.v4)
    }

    predicate InRange(addr: IpAddr) {
      var net := if addr.V4? then v4 else v6;
      net.Some? && net.value.Contains(addr)
    }

    predicate IsGateway(addr: IpAddr) {
      var net := if addr.V4? then v4 else v6;
      net.Some? && net.value.IsGateway(addr)
    }

    /** An address a client may be given. */
    ghost predicate Client(addr: IpAddr) {
      InRange(addr) && !IsGateway(addr)
    }
  }

  datatype Pool = Pool(
    nets: Nets,
    leases: map<IpAddr, Allocation>,
    reserved: map<IpAddr, Key>,
    v4Next: nat,
    v6Next: nat
  ) {
    ghost predicate WellFormed() {
      && nets.Valid()
      && 2 <= v4Next && (nets.v4.Some? && nets.v4.value.hostMask > 2 ==> v4Next <= nets.v4.value.hostMask)
      && 2 <= v6Next && (nets.v6.Some? && nets.v6.value.hostMask > 1 ==> v6Next <= nets.v6.value.hostMask + 1)
    }

    predicate Held(addr: IpAddr) {
      addr in leases || addr in reserved
    }

    ghost function HeldSet(): set<IpAddr> {
      leases.Keys + reserved.Keys
    }

    function Claims(addr: IpAddr): nat {
      if addr in leases then leases[addr].claims else 0
    }
  }

  // ----- scanning for a free address -----

  /** The first free position at or after `k`, among the first `n` of the cyclic order. */
  ghost function FirstFree(pool: Pool, net: Net, cursor: nat, end: nat, k: nat, n: nat): (r: Option<nat>)
    requires net.Valid() && end <= net.hostMask + 1 && 2 <= cursor <= end && n <= end - 2
    ensures r.Some? ==> k <= r.value < n
    decreases n - k
  {
    if k >= n then None
    else if !pool.Held(AddrAt(net, Cyclic(cursor, k, end))) then Some(k)
    else FirstFree(pool, net, cursor, end, k + 1, n)
  }

  /** The position found is free and nothing before it is; finding none means that nothing is free. */
  lemma {:induction false} FirstFreeMeaning(pool: Pool, net: Net, cursor: nat, end: nat, k: nat, n: nat)
    requires net.Valid() && end <= net.hostMask + 1 && 2 <= cursor <= end && n <= end - 2
    ensures var r := FirstFree(pool, net, cursor, end, k, n);
            && (r.Some? ==> !pool.Held(AddrAt(net, Cyclic(cursor, r.value, end))))
            && forall j :: k <= j < (if r.Some? then r.value else n) ==> pool.Held(AddrAt(net, Cyclic(cursor, j, end)))
    decreases n - k
  {
    if k < n && pool.Held(AddrAt(net, Cyclic(cursor, k, end))) {
      FirstFreeMeaning(pool, net, cursor, end, k + 1, n);
    }
  }

  const SCAN_CAP: nat := 0xFFFF_FFFF_FFFF_FFFF

  function Min(a: nat, b: nat): nat {
    if a < b then a else b
  }

  const DYNAMIC: Allocation := Allocation(1, None)

  /** The pool and the address, if any, after a dynamic IPv4 allocation. */
  ghost function AllocateV4(pool: Pool): (r: (Pool, Result<IpAddr, PoolError>))
    requires pool.WellFormed()
  {
    if pool.nets.v4.None? || pool.nets.v4.value.hostMask <= 2 then (pool, Err(Exhausted)) else
    var net := pool.nets.v4.value;
    var end := net.hostMask;
    match FirstFree(pool, net, pool.v4Next, end, 0, end - 2)
    case None => (pool.(v4Next := Cyclic(pool.v4Next, end - 3, end) + 1), Err(Exhausted))
    case Some(k) =>
      var offset := Cyclic(pool.v4Next, k, end);
      (pool.(leases := pool.leases[AddrAt(net, offset) := DYNAMIC], v4Next := offset + 1),
       Ok(AddrAt(net, offset)))
  }

  function SuccessorV6(offset: nat, hostMask: nat): nat {
    if offset == hostMask then 2 else offset + 1
  }

  /** The pool and the address, if any, after a dynamic IPv6 allocation. */
  ghost function AllocateV6(pool: Pool): (r: (Pool, Result<IpAddr, PoolError>))
    requires pool.WellFormed()
  {
    if pool.nets.v6.None? || pool.nets.v6.value.hostMask <= 1 then (pool, Err(Exhausted)) else
    var net := pool.nets.v6.value;
    var mask := net.hostMask;
    var n := Min(mask - 1, SCAN_CAP);
    match FirstFree(pool, net, pool.v6Next, mask + 1, 0, n)
    case None => (pool.(v6Next := SuccessorV6(Cyclic(pool.v6Next, n - 1, mask + 1), mask)), Err(Exhausted))
    case Some(k) =>
      var offset := Cyclic(pool.v6Next, k, mask + 1);
      (pool.(leases := pool.leases[AddrAt(net, offset) := DYNAMIC], v6Next := SuccessorV6(offset, mask)),
       Ok(AddrAt(net, offset)))
  }

  /** Exhaustion is reported exactly when every client offset is leased or reserved. */
  lemma V4ExhaustedExactly(pool: Pool)
    requires pool.WellFormed() && pool.nets.v4.Some?
    ensures AllocateV4(pool).1 == Err(Exhausted) <==>
            forall o :: 2 <= o < pool.nets.v4.value.hostMask ==> pool.Held(AddrAt(pool.nets.v4.value, o))
  {
    var net := pool.nets.v4.value;
    var end := net.hostMask;
    if end > 2 {
      var free := FirstFree(pool, net, pool.v4Next, end, 0, end - 2);
      FirstFreeMeaning(pool, net, pool.v4Next, end, 0, end - 2);
      if free.None? {
        forall o | 2 <= o < end
          ensures pool.Held(AddrAt(net, o))
        {
          var k := CyclicIndex(pool.v4Next, o, end);
        }
      }
    }
  }

  lemma V6ExhaustedExactly(pool: Pool)
    requires pool.WellFormed() && pool.nets.v6.Some? && pool.nets.v6.value.hostMask <= SCAN_CAP + 1
    ensures AllocateV6(pool).1 == Err(Exhausted) <==>
            forall o :: 2 <= o <= pool.nets.v6.value.hostMask ==> pool.Held(AddrAt(pool.nets.v6.value, o))
  {
    var net := pool.nets.v6.value;
    var mask := net.hostMask;
    if mask > 1 {
      var free := FirstFree(pool, net, pool.v6Next, mask + 1, 0, mask - 1);
      FirstFreeMeaning(pool, net, pool.v6Next, mask + 1, 0, mask - 1);
      if free.None? {
        forall o | 2 <= o <= mask
          ensures pool.Held(AddrAt(net, o))
        {
          var k := CyclicIndex(pool.v6Next, o, mask + 1);
        }
      }
    }
  }

  /** `x` is passed when counting up from `start` to `o`, wrapping from `end - 1` to 2. */
  predicate Passed(start: nat, x: nat, o: nat) {
    if start <= o then start <= x < o else x < o || start <= x
  }

  /** `a` has offset `o`, is free, and everything passed on the way to it is taken. */
  ghost predicate NearestFree(pool: Pool, net: Net, cursor: nat, end: nat, o: nat, a: IpAddr)
    requires net.Valid() && end <= net.hostMask + 1
  {
    && 2 <= o < end && a == AddrAt(net, o) && !pool.Held(a)
    && forall x :: 2 <= x < end && Passed(if cursor == end then 2 else cursor, x, o) ==> pool.Held(AddrAt(net, x))
  }

  lemma FirstFreeIsNearest(pool: Pool, net: Net, cursor: nat, end: nat, n: nat)
    requires net.Valid() && end <= net.hostMask + 1 && 2 <= cursor <= end && n <= end - 2
    requires FirstFree(pool, net, cursor, end, 0, n).Some?
    ensures var o := Cyclic(cursor, FirstFree(pool, net, cursor, end, 0, n).value, end);
            NearestFree(pool, net, cursor, end, o, AddrAt(net, o))
  {
    var k := FirstFree(pool, net, cursor, end, 0, n).value;
    FirstFreeMeaning(pool, net, cursor, end, 0, n);
    var o := Cyclic(cursor, k, end);
    forall x | 2 <= x < end && Passed(if cursor == end then 2 else cursor, x, o)
      ensures pool.Held(AddrAt(net, x))
    {
      var j := CyclicIndex(cursor, x, end);
      assert j < k;
    }
  }

  /** A dynamic IPv4 lease is the nearest free client address from the cursor on, which moves past it. */
  lemma V4LeasesNearest(pool: Pool)
    requires pool.WellFormed() && AllocateV4(pool).1.Ok?
    ensures pool.nets.v4.Some?
    ensures var net := pool.nets.v4.value;
            var (pool', r) := AllocateV4(pool);
            && pool'.v4Next > 0
            && NearestFree(pool, net, pool.v4Next, net.hostMask, pool'.v4Next - 1, r.value)
  {
    var net := pool.nets.v4.value;
    FirstFreeIsNearest(pool, net, pool.v4Next, net.hostMask, net.hostMask - 2);
  }

  /** A dynamic IPv6 lease is the nearest free client address from the cursor on. */
  lemma V6LeasesNearest(pool: Pool) returns (o: nat)
    requires pool.WellFormed() && AllocateV6(pool).1.Ok?
    ensures pool.nets.v6.Some?
    ensures var net := pool.nets.v6.value;
            var (pool', r) := AllocateV6(pool);
            && NearestFree(pool, net, pool.v6Next, net.hostMask + 1, o, r.value)
            && pool'.v6Next == if o == net.hostMask then 2 else o + 1
  {
    var net := pool.nets.v6.value;
    var n := Min(net.hostMask - 1, SCAN_CAP);
    FirstFreeIsNearest(pool, net, pool.v6Next, net.hostMask + 1, n);
    o := Cyclic(pool.v6Next, FirstFree(pool, net, pool.v6Next, net.hostMask + 1, 0, n).value, net.hostMask + 1);
  }

  /** A scan that finds nothing in the whole range leaves the cursor where it was, wrapped or not. */
  lemma V4ScanComesRound(pool: Pool)
    requires pool.WellFormed() && pool.nets.v4.Some? && pool.nets.v4.value.hostMask > 2
    requires AllocateV4(pool).1.Err?
    ensures var end, next := pool.nets.v4.value.hostMask, AllocateV4(pool).0.v4Next;
            (if next == end then 2 else next) == (if pool.v4Next == end then 2 else pool.v4Next)
  {
  }

  /** The same for IPv6, where a scan cut short goes on behind the last address it looked at. */
  lemma V6ScanComesRound(pool: Pool)
    requires pool.WellFormed() && pool.nets.v6.Some? && pool.nets.v6.value.hostMask > 1
    requires AllocateV6(pool).1.Err?
    ensures var mask, next := pool.nets.v6.value.hostMask, AllocateV6(pool).0.v6Next;
            if mask - 1 <= 0xFFFF_FFFF_FFFF_FFFF
            then next == if pool.v6Next == mask + 1 then 2 else pool.v6Next
            else next == Cyclic(pool.v6Next, 0xFFFF_FFFF_FFFF_FFFF, mask + 1)
  {
  }

  /** The first `m` addresses of the cyclic order. */
  ghost function Window(net: Net, cursor: nat, end: nat, m: nat): set<IpAddr>
    requires net.Valid() && end <= net.hostMask + 1 && 2 <= cursor <= end && m <= end - 2
  {
    set k | 0 <= k < m :: AddrAt(net, Cyclic(cursor, k, end))
  }

  lemma {:induction false} WindowSize(net: Net, cursor: nat, end: nat, m: nat)
    requires net.Valid() && end <= net.hostMask + 1 && 2 <= cursor <= end && m <= end - 2
    ensures |Window(net, cursor, end, m)| == m
    decreases m
  {
    if m > 0 {
      WindowSize(net, cursor, end, m - 1);
      var last := AddrAt(net, Cyclic(cursor, m - 1, end));
      forall k | 0 <= k < m - 1
        ensures AddrAt(net, Cyclic(cursor, k, end)) != last
      {
        AddressesDiffer(net, cursor, k, m - 1, end);
      }
      WindowGrows(net, cursor, end, m);
    }
  }

  lemma AddressesDiffer(net: Net, cursor: nat, j: nat, k: nat, end: nat)
    requires net.Valid() && end <= net.hostMask + 1 && 2 <= cursor <= end && j < k < end - 2
    ensures AddrAt(net, Cyclic(cursor, j, end)).Value() != AddrAt(net, Cyclic(cursor, k, end)).Value()
  {
    CyclicInjective(cursor, j, k, end);
  }

  lemma WindowGrows(net: Net, cursor: nat, end: nat, m: nat)
    requires net.Valid() && end <= net.hostMask + 1 && 2 <= cursor <= end && 0 < m <= end - 2
    ensures Window(net, cursor, end, m) ==
            Window(net, cursor, end, m - 1) + {AddrAt(net, Cyclic(cursor, m - 1, end))}
  {
  }

  /** A scan that finds nothing has seen as many held addresses as it looked at. */
  lemma FruitlessScan(pool: Pool, net: Net, cursor: nat, end: nat, n: nat)
    requires net.Valid() && end <= net.hostMask + 1 && 2 <= cursor <= end && n <= end - 2
    ensures FirstFree(pool, net, cursor, end, 0, n).None? ==> |pool.HeldSet()| >= n
  {
    if FirstFree(pool, net, cursor, end, 0, n).None? {
      FirstFreeMeaning(pool, net, cursor, end, 0, n);
      WindowSize(net, cursor, end, n);
      forall addr | addr in Window(net, cursor, end, n)
        ensures addr in pool.HeldSet()
      {
        var k :| 0 <= k < n && AddrAt(net, Cyclic(cursor, k, end)) == addr;
        assert pool.Held(addr);
      }
      SubsetSize(Window(net, cursor, end, n), pool.HeldSet());
    }
  }

  /** Whatever the range, allocation succeeds while fewer addresses are held than a scan visits. */
  lemma V6SucceedsBelowCap(pool: Pool)
    requires pool.WellFormed() && pool.nets.v6.Some? && pool.nets.v6.value.hostMask > 1
    requires |pool.HeldSet()| < Min(pool.nets.v6.value.hostMask - 1, SCAN_CAP)
    ensures AllocateV6(pool).1.Ok?
  {
    var net := pool.nets.v6.value;
    FruitlessScan(pool, net, pool.v6Next, net.hostMask + 1, Min(net.hostMask - 1, SCAN_CAP));
  }

  // ----- reservations, claims and releases -----

  function Pinned(owner: Key): Allocation {
    Allocation(1, Some(owner))
  }

  function ReserveStatic(pool: Pool, addr: IpAddr, owner: Key): (r: (Pool, Option<PoolError>))
  {
    if !pool.nets.InRange(addr) then (pool, Some(OutOfRange(addr)))
    else if pool.nets.IsGateway(addr) then (pool, Some(AlreadyAllocated(addr)))
    else if addr in pool.reserved then (pool, Some(AlreadyAllocated(addr)))
    else (pool.(reserved := pool.reserved[addr := owner]), None)
  }

  /** Validate a roster entry by entry on top of `next`. */
  function Roster(pool: Pool, roster: seq<(IpAddr, Key)>, next: map<IpAddr, Key>)
    : (r: Result<map<IpAddr, Key>, PoolError>)
    decreases |roster|
  {
    if roster == [] then Ok(next) else
    var (addr, owner) := roster[0];
    if !pool.nets.InRange(addr) then Err(OutOfRange(addr))
    else if pool.nets.IsGateway(addr) then Err(AlreadyAllocated(addr))
    else if addr in next then Err(AlreadyAllocated(addr))
    else Roster(pool, roster[1..], next[addr := owner])
  }

  function SetReservations(pool: Pool, roster: seq<(IpAddr, Key)>): (r: (Pool, Option<PoolError>))
  {
    match Roster(pool, roster, map[])
    case Ok(next) => (pool.(reserved := next), None)
    case Err(e) => (pool, Some(e))
  }

  function Claim(pool: Pool, addr: IpAddr, owner: Key): (r: (Pool, Option<PoolError>))
  {
    if !pool.nets.InRange(addr) then (pool, Some(OutOfRange(addr)))
    else if pool.nets.IsGateway(addr) then (pool, Some(AlreadyAllocated(addr)))
    else if addr !in pool.reserved || pool.reserved[addr] != owner then (pool, Some(NotReserved(addr)))
    else if addr in pool.leases then
      var lease := pool.leases[addr];
      if lease.owner != Some(owner) then (pool, Some(AlreadyAllocated(addr)))
      else (pool.(leases := pool.leases[addr := lease.(claims := lease.claims + 1)]), None)
    else (pool.(leases := pool.leases[addr := Pinned(owner)]), None)
  }

  function Release(pool: Pool, addr: IpAddr): (r: (Pool, bool)) {
    if addr !in pool.leases then (pool, false)
    else
      var lease := pool.leases[addr];
      if lease.claims > 1
      then (pool.(leases := pool.leases[addr := lease.(claims := lease.claims - 1)]), true)
      else (pool.(leases := pool.leases - {addr}), true)
  }

  /** What a roster must satisfy: addresses in range, not the gateway, and pairwise different. */
  ghost predicate RosterValid(pool: Pool, roster: seq<(IpAddr, Key)>)
  {
    && (forall e :: e in roster ==> pool.nets.InRange(e.0) && !pool.nets.IsGateway(e.0))
    && (forall i, j :: 0 <= i < j < |roster| ==> roster[i].0 != roster[j].0)
  }

  lemma {:induction false} RosterAccepts(pool: Pool, roster: seq<(IpAddr, Key)>, next: map<IpAddr, Key>)
    ensures Roster(pool, roster, next).Ok? <==>
            RosterValid(pool, roster) && forall e :: e in roster ==> e.0 !in next
    ensures Roster(pool, roster, next).Ok? ==>
              var m := Roster(pool, roster, next).value;
              && m.Keys == next.Keys + (set e | e in roster :: e.0)
              && (forall a :: a in next ==> m[a] == next[a])
              && (forall e :: e in roster ==> e.0 in m && m[e.0] == e.1)
    decreases |roster|
  {
    if roster != [] {
      var (addr, owner) := roster[0];
      assert roster == [roster[0]] + roster[1..];
      if pool.nets.InRange(addr) && !pool.nets.IsGateway(addr) && addr !in next {
        RosterAccepts(pool, roster[1..], next[addr := owner]);
        RosterTail(pool, roster);
      } else {
        assert roster[0] in roster;
      }
    }
  }

  lemma RosterTail(pool: Pool, roster: seq<(IpAddr, Key)>)
    requires roster != []
    requires pool.nets.InRange(roster[0].0) && !pool.nets.IsGateway(roster[0].0)
    ensures RosterValid(pool, roster) <==>
            RosterValid(pool, roster[1..]) && forall e :: e in roster[1..] ==> e.0 != roster[0].0
  {
    var tail := roster[1..];
    assert roster == [roster[0]] + tail;
    if RosterValid(pool, roster) {
      forall e | e in tail
        ensures e.0 != roster[0].0
      {
        var j :| 0 <= j < |tail| && tail[j] == e;
        assert roster[j + 1] == e;
      }
    }
    if RosterValid(pool, tail) && forall e :: e in tail ==> e.0 != roster[0].0 {
      forall e | e in roster
        ensures pool.nets.InRange(e.0) && !pool.nets.IsGateway(e.0)
      {
        assert e == roster[0] || e in tail;
      }
      forall i, j | 0 <= i < j < |roster|
        ensures roster[i].0 != roster[j].0
      {
        assert roster[j] == tail[j - 1] && tail[j - 1] in tail;
        assert i > 0 ==> roster[i] == tail[i - 1];
      }
    }
  }

  /** A roster is adopted whole exactly when it is valid; otherwise nothing changes. */
  lemma ReservationsAllOrNothing(pool: Pool, roster: seq<(IpAddr, Key)>)
    ensures var (pool', error) := SetReservations(pool, roster);
            && (error.None? <==> RosterValid(pool, roster))
            && (error.Some? ==> pool' == pool)
            && pool' == pool.(reserved := pool'.reserved)
            && (error.None? ==> pool'.reserved.Keys == (set e | e in roster :: e.0))
            && (error.None? ==> forall e :: e in roster ==> e.0 in pool'.reserved && pool'.reserved[e.0] == e.1)
  {
    RosterAccepts(pool, roster, map[]);
  }

  /** A reservation is made exactly for a client address not reserved yet. */
  lemma ReserveDecides(pool: Pool, addr: IpAddr, owner: Key)
    ensures var (pool', error) := ReserveStatic(pool, addr, owner);
            && (error.None? <==> pool.nets.Client(addr) && addr !in pool.reserved)
            && (error.None? ==> pool' == pool.(reserved := pool.reserved[addr := owner]))
            && (error.Some? ==> pool' == pool)
            && (error == Some(OutOfRange(addr)) <==> !pool.nets.InRange(addr))
            && (error.Some? && pool.nets.InRange(addr) ==> error == Some(AlreadyAllocated(addr)))
  {
  }

  /** The key `owner` may take `addr` now: it is reserved for it, and leased to nobody else. */
  ghost predicate Entitled(pool: Pool, addr: IpAddr, owner: Key) {
    && pool.nets.Client(addr)
    && addr in pool.reserved && pool.reserved[addr] == owner
    && (addr in pool.leases ==> pool.leases[addr].owner == Some(owner))
  }

  /** A claim is granted exactly to the reserved owner, while no other identity holds the address. */
  lemma ClaimDecides(pool: Pool, addr: IpAddr, owner: Key)
    ensures var (pool', error) := Claim(pool, addr, owner);
            && (error.None? <==> Entitled(pool, addr, owner))
            && (error.Some? ==> pool' == pool)
            && (error.None? ==>
                  pool' == pool.(leases := pool.leases[addr := Allocation(pool.Claims(addr) + 1, Some(owner))]))
            && (error == Some(OutOfRange(addr)) <==> !pool.nets.InRange(addr))
            && (error == Some(NotReserved(addr)) <==>
                  pool.nets.Client(addr) && !(addr in pool.reserved && pool.reserved[addr] == owner))
            && (error.Some? ==>
                  error.value == OutOfRange(addr) || error.value == NotReserved(addr)
                  || error.value == AlreadyAllocated(addr))
  {
  }

  /** A release finds the address exactly if it is leased, and takes away one claim on it. */
  lemma ReleaseDecides(pool: Pool, addr: IpAddr)
    ensures var (pool', was) := Release(pool, addr);
            && (was <==> addr in pool.leases)
            && (!was ==> pool' == pool)
            && pool' == pool.(leases := pool'.leases)
            && (addr in pool'.leases <==> pool.Claims(addr) > 1)
            && (addr in pool'.leases ==>
                  pool'.leases[addr] == Allocation(pool.Claims(addr) - 1, pool.leases[addr].owner))
            && (forall a :: a != addr ==> (a in pool'.leases <==> a in pool.leases))
            && (forall a :: a != addr && a in pool.leases ==> pool'.leases[a] == pool.leases[a])
  {
  }

  /** A refused roster is refused for its first bad entry. */
  lemma {:induction false} RosterBlames(pool: Pool, roster: seq<(IpAddr, Key)>, next: map<IpAddr, Key>)
    returns (i: nat)
    requires Roster(pool, roster, next).Err?
    ensures i < |roster|
    ensures Roster(pool, roster[..i], next).Ok? && Roster(pool, roster[..i + 1], next).Err?
    ensures Roster(pool, roster, next).error ==
            if pool.nets.InRange(roster[i].0) then AlreadyAllocated(roster[i].0) else OutOfRange(roster[i].0)
    decreases |roster|
  {
    var (addr, owner) := roster[0];
    if pool.nets.InRange(addr) && !pool.nets.IsGateway(addr) && addr !in next {
      var k := RosterBlames(pool, roster[1..], next[addr := owner]);
      i := k + 1;
      assert roster[..i][0] == roster[0] && roster[..i][1..] == roster[1..][..k];
      assert roster[..i + 1][0] == roster[0] && roster[..i + 1][1..] == roster[1..][..k + 1];
    } else {
      i := 0;
      assert roster[..0] == [] && roster[..1][0] == roster[0];
    }
  }

  // ----- every run of the pool -----

  datatype Op =
    | Reserve(addr: IpAddr, owner: Key)
    | Reload(roster: seq<(IpAddr, Key)>)
    | Attach(addr: IpAddr, owner: Key)
    | TakeV4
    | TakeV6
    | Free(addr: IpAddr)

  datatype Response = Done | Refused(error: PoolError) | Leased(addr: IpAddr) | Freed(was: bool)

  ghost function Verdict(error: Option<PoolError>): Response {
    if error.Some? then Refused(error.value) else Done
  }

  ghost function Handed(r: Result<IpAddr, PoolError>): Response {
    if r.Ok? then Leased(r.value) else Refused(r.error)
  }

  ghost function Step(pool: Pool, op: Op): (r: (Pool, Response))
    requires pool.WellFormed()
  {
    match op
    case Reserve(addr, owner) => var (p, e) := ReserveStatic(pool, addr, owner); (p, Verdict(e))
    case Reload(roster) => var (p, e) := SetReservations(pool, roster); (p, Verdict(e))
    case Attach(addr, owner) => var (p, e) := Claim(pool, addr, owner); (p, Verdict(e))
    case TakeV4 => var (p, a) := AllocateV4(pool); (p, Handed(a))
    case TakeV6 => var (p, a) := AllocateV6(pool); (p, Handed(a))
    case Free(addr) => var (p, was) := Release(pool, addr); (p, Freed(was))
  }

  /** The tunnels holding each address, by the identity they attached with. */
  type Holders = map<IpAddr, seq<Option<Key>>>

  ghost function Joined(holders: Holders, addr: IpAddr, who: Option<Key>): Holders {
    holders[addr := (if addr in holders then holders[addr] else []) + [who]]
  }

  ghost function Left(holders: Holders, addr: IpAddr): Holders {
    if addr in holders && |holders[addr]| > 1 then holders[addr := holders[addr][1..]] else holders - {addr}
  }

  ghost function HoldersAfter(holders: Holders, op: Op, answer: Response): Holders {
    match op
    case Attach(addr, owner) => if answer.Done? then Joined(holders, addr, Some(owner)) else holders
    case TakeV4 => if answer.Leased? then Joined(holders, answer.addr, None) else holders
    case TakeV6 => if answer.Leased? then Joined(holders, answer.addr, None) else holders
    case Free(addr) => if answer == Freed(true) then Left(holders, addr) else holders
    case _ => holders
  }

  /** A lease counts its holders, who all share its identity; a dynamic lease has one holder. */
  ghost predicate LeaseMatches(lease: Allocation, held: seq<Option<Key>>) {
    && lease.claims == |held| >= 1
    && (forall who :: who in held ==> who == lease.owner)
    && (lease.owner.None? ==> lease.claims == 1)
  }

  ghost predicate LeasesMatch(leases: map<IpAddr, Allocation>, holders: Holders) {
    && leases.Keys == holders.Keys
    && (forall a :: a in leases ==> LeaseMatches(leases[a], holders[a]))
  }

  ghost predicate Invariant(pool: Pool, holders: Holders) {
    && pool.WellFormed()
    && LeasesMatch(pool.leases, holders)
    && (forall a :: a in pool.leases ==> pool.nets.Client(a))
    && (forall a :: a in pool.reserved ==> pool.nets.Client(a))
  }

  lemma JoinMatches(leases: map<IpAddr, Allocation>, holders: Holders, addr: IpAddr, lease: Allocation)
    requires LeasesMatch(leases, holders)
    requires addr !in leases ==> lease.claims == 1
    requires addr in leases ==> lease == leases[addr].(claims := leases[addr].claims + 1) && lease.owner.Some?
    ensures LeasesMatch(leases[addr := lease], Joined(holders, addr, lease.owner))
  {
    var held := if addr in holders then holders[addr] else [];
    forall who | who in held + [lease.owner]
      ensures who == lease.owner
    {
      assert who in held || who == lease.owner;
    }
    assert LeaseMatches(lease, held + [lease.owner]);
  }

  lemma LeaveMatches(leases: map<IpAddr, Allocation>, holders: Holders, addr: IpAddr)
    requires LeasesMatch(leases, holders) && addr in leases
    ensures leases[addr].claims > 1 ==>
              LeasesMatch(leases[addr := leases[addr].(claims := leases[addr].claims - 1)], Left(holders, addr))
    ensures leases[addr].claims == 1 ==> LeasesMatch(leases - {addr}, Left(holders, addr))
  {
    var held := holders[addr];
    assert LeaseMatches(leases[addr], held);
    assert forall who :: who in held[1..] ==> who in held;
  }

  lemma ReserveKeeps(pool: Pool, holders: Holders, addr: IpAddr, owner: Key)
    requires Invariant(pool, holders)
    ensures Invariant(ReserveStatic(pool, addr, owner).0, holders)
  {
  }

  lemma ReloadKeeps(pool: Pool, holders: Holders, roster: seq<(IpAddr, Key)>)
    requires Invariant(pool, holders)
    ensures Invariant(SetReservations(pool, roster).0, holders)
  {
    ReservationsAllOrNothing(pool, roster);
    var (pool', error) := SetReservations(pool, roster);
    if error.None? {
      forall a | a in pool'.reserved
        ensures pool'.nets.Client(a)
      {
        var e :| e in roster && e.0 == a;
      }
    }
  }

  lemma ClaimKeeps(pool: Pool, holders: Holders, addr: IpAddr, owner: Key)
    requires Invariant(pool, holders)
    ensures var (pool', error) := Claim(pool, addr, owner);
            Invariant(pool', HoldersAfter(holders, Attach(addr, owner), Verdict(error)))
  {
    var (pool', error) := Claim(pool, addr, owner);
    if error.None? {
      JoinMatches(pool.leases, holders, addr, pool'.leases[addr]);
    }
  }

  lemma LeaseKeeps(pool: Pool, holders: Holders, addr: IpAddr, pool': Pool)
    requires Invariant(pool, holders) && pool'.WellFormed()
    requires addr !in pool.leases && pool.nets.Client(addr)
    requires pool' == pool.(leases := pool.leases[addr := DYNAMIC], v4Next := pool'.v4Next, v6Next := pool'.v6Next)
    ensures Invariant(pool', Joined(holders, addr, None))
  {
    JoinMatches(pool.leases, holders, addr, DYNAMIC);
  }

  /** What a scan finds is a client address that is neither leased nor reserved. */
  lemma FoundIsFree(pool: Pool, net: Net, cursor: nat, end: nat, n: nat)
    requires net.Valid() && end <= net.hostMask + 1 && 2 <= cursor <= end && n <= end - 2
    requires FirstFree(pool, net, cursor, end, 0, n).Some?
    ensures var addr := AddrAt(net, Cyclic(cursor, FirstFree(pool, net, cursor, end, 0, n).value, end));
            addr !in pool.leases && addr !in pool.reserved && net.Contains(addr) && !net.IsGateway(addr)
  {
    FirstFreeMeaning(pool, net, cursor, end, 0, n);
    OffsetsAreClientAddresses(net, Cyclic(cursor, FirstFree(pool, net, cursor, end, 0, n).value, end));
  }

  /** A dynamic allocation takes one free client address and moves only its own cursor. */
  lemma AllocateV4Shape(pool: Pool)
    requires pool.WellFormed()
    ensures var (pool', r) := AllocateV4(pool);
            && pool'.WellFormed()
            && (r.Err? ==> pool' == pool.(v4Next := pool'.v4Next))
            && (r.Ok? ==> r.value !in pool.leases && r.value !in pool.reserved && pool.nets.Client(r.value))
            && (r.Ok? ==> pool' == pool.(leases := pool.leases[r.value := DYNAMIC], v4Next := pool'.v4Next))
  {
    if pool.nets.v4.Some? && pool.nets.v4.value.hostMask > 2 {
      var net := pool.nets.v4.value;
      var free := FirstFree(pool, net, pool.v4Next, net.hostMask, 0, net.hostMask - 2);
      if free.Some? {
        FoundIsFree(pool, net, pool.v4Next, net.hostMask, net.hostMask - 2);
      }
    }
  }

  lemma AllocateV6Shape(pool: Pool)
    requires pool.WellFormed()
    ensures var (pool', r) := AllocateV6(pool);
            && pool'.WellFormed()
            && (r.Err? ==> pool' == pool.(v6Next := pool'.v6Next))
            && (r.Ok? ==> r.value !in pool.leases && r.value !in pool.reserved && pool.nets.Client(r.value))
            && (r.Ok? ==> pool' == pool.(leases := pool.leases[r.value := DYNAMIC], v6Next := pool'.v6Next))
  {
    if pool.nets.v6.Some? && pool.nets.v6.value.hostMask > 1 {
      var net := pool.nets.v6.value;
      var end := net.hostMask + 1;
      var free := FirstFree(pool, net, pool.v6Next, end, 0, Min(net.hostMask - 1, SCAN_CAP));
      if free.Some? {
        FoundIsFree(pool, net, pool.v6Next, end, Min(net.hostMask - 1, SCAN_CAP));
      }
    }
  }

  lemma AllocateKeeps(pool: Pool, holders: Holders, op: Op)
    requires Invariant(pool, holders) && (op.TakeV4? || op.TakeV6?)
    ensures var (pool', answer) := Step(pool, op); Invariant(pool', HoldersAfter(holders, op, answer))
  {
    AllocateV4Shape(pool);
    AllocateV6Shape(pool);
    var (pool', answer) := Step(pool, op);
    if answer.Leased? {
      LeaseKeeps(pool, holders, answer.addr, pool');
    }
  }

  lemma ReleaseKeeps(pool: Pool, holders: Holders, addr: IpAddr)
    requires Invariant(pool, holders)
    ensures var (pool', was) := Release(pool, addr);
            Invariant(pool', HoldersAfter(holders, Free(addr), Freed(was)))
  {
    if addr in pool.leases {
      assert LeaseMatches(pool.leases[addr], holders[addr]);
      LeaveMatches(pool.leases, holders, addr);
    }
  }

  lemma StepKeeps(pool: Pool, holders: Holders, op: Op)
    requires Invariant(pool, holders)
    ensures var (pool', answer) := Step(pool, op); Invariant(pool', HoldersAfter(holders, op, answer))
  {
    match op
    case Reserve(addr, owner) => ReserveKeeps(pool, holders, addr, owner);
    case Reload(roster) => ReloadKeeps(pool, holders, roster);
    case Attach(addr, owner) => ClaimKeeps(pool, holders, addr, owner);
    case TakeV4 => AllocateKeeps(pool, holders, op);
    case TakeV6 => AllocateKeeps(pool, holders, op);
    case Free(addr) => ReleaseKeeps(pool, holders, addr);
  }

  ghost function Fresh(nets: Nets): Pool {
    Pool(nets, map[], map[], 2, 2)
  }

  /** A pool, the tunnels it serves, and how often each address was taken and given back. */
  datatype World = World(pool: Pool, holders: Holders, taken: IpAddr -> nat, returned: IpAddr -> nat)

  ghost predicate Takes(op: Op, answer: Response, addr: IpAddr) {
    (op.Attach? && answer.Done? && op.addr == addr) || answer == Leased(addr)
  }

  ghost predicate Returns(op: Op, answer: Response, addr: IpAddr) {
    op == Free(addr) && answer == Freed(true)
  }

  ghost function Next(w: World, op: Op): World
    requires w.pool.WellFormed()
  {
    var (pool, answer) := Step(w.pool, op);
    World(pool, HoldersAfter(w.holders, op, answer),
          a => w.taken(a) + (if Takes(op, answer, a) then 1 else 0),
          a => w.returned(a) + (if Returns(op, answer, a) then 1 else 0))
  }

  ghost predicate Sound(w: World) {
    && Invariant(w.pool, w.holders)
    && forall a :: w.pool.Claims(a) + w.returned(a) == w.taken(a)
  }

  lemma NextSound(w: World, op: Op)
    requires Sound(w)
    ensures Sound(Next(w, op))
  {
    StepKeeps(w.pool, w.holders, op);
    var (pool, answer) := Step(w.pool, op);
    forall a: IpAddr
      ensures pool.Claims(a) + Next(w, op).returned(a) == Next(w, op).taken(a)
    {
      ClaimsMove(w.pool, w.holders, op, a);
    }
  }

  lemma TakeMoves(pool: Pool, op: Op, a: IpAddr)
    requires pool.WellFormed() && (op.TakeV4? || op.TakeV6?)
    ensures var (pool', answer) := Step(pool, op);
            pool'.Claims(a) == pool.Claims(a) + (if answer == Leased(a) then 1 else 0)
  {
    if op.TakeV4? {
      AllocateV4Shape(pool);
    } else {
      AllocateV6Shape(pool);
    }
  }

  lemma FreeMoves(pool: Pool, holders: Holders, addr: IpAddr, a: IpAddr)
    requires Invariant(pool, holders)
    ensures var (pool', was) := Release(pool, addr);
            pool'.Claims(a) + (if was && addr == a then 1 else 0) == pool.Claims(a)
  {
    if addr in pool.leases {
      assert LeaseMatches(pool.leases[addr], holders[addr]);
    }
  }

  lemma AttachMoves(pool: Pool, addr: IpAddr, owner: Key, a: IpAddr)
    ensures var (pool', error) := Claim(pool, addr, owner);
            pool'.Claims(a) == pool.Claims(a) + (if error.None? && addr == a then 1 else 0)
  {
  }

  lemma ClaimsMove(pool: Pool, holders: Holders, op: Op, a: IpAddr)
    requires Invariant(pool, holders)
    ensures var (pool', answer) := Step(pool, op);
            && pool'.Claims(a) + (if Returns(op, answer, a) then 1 else 0)
            == pool.Claims(a) + (if Takes(op, answer, a) then 1 else 0)
  {
    match op
    case Attach(addr, owner) => AttachMoves(pool, addr, owner, a);
    case Free(addr) => FreeMoves(pool, holders, addr, a);
    case TakeV4 => TakeMoves(pool, op, a);
    case TakeV6 => TakeMoves(pool, op, a);
    case _ =>
  }

  ghost function Run(start: World, ops: seq<Op>): (w: World)
    requires Sound(start)
    ensures Sound(w)
  {
    if ops == [] then start else
    var before := Run(start, ops[..|ops| - 1]);
    NextSound(before, ops[|ops| - 1]);
    Next(before, ops[|ops| - 1])
  }

  /**
    In every reachable state of the pool: each lease has a holder and dynamic ones exactly one,
    overlapping holders share one identity, no lease or reservation is the gateway or out of
    range, and an address is free exactly when it was returned as often as it was taken.
   */
  lemma EveryRun(nets: Nets, ops: seq<Op>)
    requires nets.Valid()
    ensures var start := World(Fresh(nets), map[], _ => 0, _ => 0);
            && Sound(start)
            && Invariant(Run(start, ops).pool, Run(start, ops).holders)
            && forall a ::
                 a !in Run(start, ops).pool.leases <==> Run(start, ops).taken(a) == Run(start, ops).returned(a)
  {
    var start := World(Fresh(nets), map[], _ => 0, _ => 0);
    assert Sound(start);
    var w := Run(start, ops);
    forall a: IpAddr
      ensures a !in w.pool.leases <==> w.taken(a) == w.returned(a)
    {
      assert w.pool.Claims(a) + w.returned(a) == w.taken(a);
    }
  }

  /** How a holder came by an address: the reserved owner claimed it, or it was free and leased. */
  ghost predicate CameBy(pool: Pool, op: Op, addr: IpAddr, who: Option<Key>)
    requires pool.WellFormed()
  {
    match who
    case Some(owner) => op == Attach(addr, owner) && Entitled(pool, addr, owner)
    case None =>
      && (op.TakeV4? || op.TakeV6?) && Step(pool, op).1 == Leased(addr)
      && addr !in pool.leases && addr !in pool.reserved
  }

  ghost predicate Holds(holders: Holders, addr: IpAddr, who: Option<Key>) {
    addr in holders && who in holders[addr]
  }

  /** A holder after an operation was one before it, or came by the address in it. */
  lemma HolderStep(pool: Pool, holders: Holders, op: Op, addr: IpAddr, who: Option<Key>)
    requires pool.WellFormed()
    requires Holds(HoldersAfter(holders, op, Step(pool, op).1), addr, who)
    ensures Holds(holders, addr, who) || CameBy(pool, op, addr, who)
  {
    AllocateV4Shape(pool);
    AllocateV6Shape(pool);
    if op.Attach? {
      ClaimDecides(pool, op.addr, op.owner);
    }
  }

  /** Pools and holders after each sequence of operations. */
  ghost predicate Evolves(pool: seq<Op> -> Pool, held: seq<Op> -> Holders) {
    && held([]) == map[]
    && (forall ops :: pool(ops).WellFormed())
    && forall ops, op :: held(ops + [op]) == HoldersAfter(held(ops), op, Step(pool(ops), op).1)
  }

  lemma {:induction false} ArrivalOf(
    pool: seq<Op> -> Pool, held: seq<Op> -> Holders, ops: seq<Op>, addr: IpAddr, who: Option<Key>)
    returns (i: nat)
    requires Evolves(pool, held) && Holds(held(ops), addr, who)
    ensures i < |ops| && CameBy(pool(ops[..i]), ops[i], addr, who)
    decreases |ops|
  {
    var n := |ops| - 1;
    var before, op := ops[..n], ops[n];
    assert ops == before + [op];
    HolderStep(pool(before), held(before), op, addr, who);
    if Holds(held(before), addr, who) {
      i := ArrivalOf(pool, held, before, addr, who);
      assert before[..i] == ops[..i];
    } else {
      i := n;
    }
  }

  ghost predicate Begins(start: World) {
    Sound(start) && start.holders == map[]
  }

  /** The pool and its holders after each run from `start`. */
  ghost function PoolAfter(start: World): seq<Op> -> Pool
    requires Begins(start)
  {
    (ops: seq<Op>) => Run(start, ops).pool
  }

  ghost function HeldAfter(start: World): seq<Op> -> Holders
    requires Begins(start)
  {
    (ops: seq<Op>) => Run(start, ops).holders
  }

  lemma RunEvolves(start: World)
    requires Begins(start)
    ensures Evolves(PoolAfter(start), HeldAfter(start))
  {
    var pool, held := PoolAfter(start), HeldAfter(start);
    forall ops: seq<Op>, op: Op ensures held(ops + [op]) == HoldersAfter(held(ops), op, Step(pool(ops), op).1) {
      RunLast(start, ops, op);
    }
    forall ops: seq<Op> ensures pool(ops).WellFormed() {
      assert Sound(Run(start, ops));
    }
  }

  lemma RunLast(start: World, ops: seq<Op>, op: Op)
    requires Sound(start)
    ensures Run(start, ops + [op]) == Next(Run(start, ops), op)
  {
    assert (ops + [op])[..|ops|] == ops;
  }

  /**
    In every run, each present holder of an address claimed it while it was reserved for that
    very key, or was leased it while nobody held it and it was not reserved.
   */
  lemma HoldersCameBy(start: World, ops: seq<Op>, addr: IpAddr, who: Option<Key>) returns (i: nat)
    requires Begins(start) && Holds(HeldAfter(start)(ops), addr, who)
    ensures i < |ops|
    ensures Evolves(PoolAfter(start), HeldAfter(start))
    ensures CameBy(PoolAfter(start)(ops[..i]), ops[i], addr, who)
  {
    RunEvolves(start);
    i := ArrivalOf(PoolAfter(start), HeldAfter(start), ops, addr, who);
  }

  /** Offsets 2 to hostMask - 1 at most once each, from the cursor on. */
  method ScanV4(pool: Pool) returns (found: Option<IpAddr>, next: nat)
    requires pool.WellFormed() && pool.nets.v4.Some? && pool.nets.v4.value.hostMask > 2
    ensures AllocateV4(pool) ==
              if found.None? then (pool.(v4Next := next), Err(Exhausted))
              else (pool.(leases := pool.leases[found.value := DYNAMIC], v4Next := next), Ok(found.value))
  {
    ghost var free;
    free, found, next := ProbeV4(pool, pool.nets.v4.value, pool.v4Next);
  }

  /** The scanning loop over all client offsets. */
  method ProbeV4(pool: Pool, net: Net, cursor: nat)
    returns (ghost free: Option<nat>, found: Option<IpAddr>, next: nat)
    requires net.Valid() && net.v4 && net.hostMask > 2 && 2 <= cursor <= net.hostMask
    ensures free == FirstFree(pool, net, cursor, net.hostMask, 0, net.hostMask - 2)
    ensures var last := Cyclic(cursor, if free.Some? then free.value else net.hostMask - 3, net.hostMask);
            next == last + 1 && found == if free.Some? then Some(AddrAt(net, last)) else None
    ensures next <= net.hostMask < 0x1_0000_0000
  {
    var maxHosts := net.hostMask;
    var total := maxHosts - 2;
    free := FirstFree(pool, net, cursor, maxHosts, 0, total);
    var checked := 0;
    next := cursor;
    while checked < total
      invariant checked <= total
      invariant next == if checked == 0 then cursor else Cyclic(cursor, checked - 1, maxHosts) + 1
      invariant free == FirstFree(pool, net, cursor, maxHosts, checked, total)
    {
      CursorV4(cursor, checked, maxHosts);
      if next >= maxHosts {
        next := 2;
      }
      var addr := AddrAt(net, next);
      next := next + 1;
      checked := checked + 1;
      if !pool.Held(addr) {
        return free, Some(addr), next;
      }
    }
    found := None;
  }

  /** The cursor after `k` looks, wrapped if need be, is the next offset in the cyclic order. */
  lemma CursorV4(cursor: nat, k: nat, end: nat)
    requires 2 <= cursor <= end && k < end - 2
    ensures var next := if k == 0 then cursor else Cyclic(cursor, k - 1, end) + 1;
            next <= end && Cyclic(cursor, k, end) == if next >= end then 2 else next
  {
    if k > 0 {
      CyclicStep(cursor, k, end);
    }
  }

  /** Offsets 2 to hostMask at most once each, from the cursor on, up to the scan cap. */
  method ScanV6(pool: Pool) returns (found: Option<IpAddr>, next: nat)
    requires pool.WellFormed() && pool.nets.v6.Some? && pool.nets.v6.value.hostMask > 1
    ensures AllocateV6(pool) ==
              if found.None? then (pool.(v6Next := next), Err(Exhausted))
              else (pool.(leases := pool.leases[found.value := DYNAMIC], v6Next := next), Ok(found.value))
  {
    var net := pool.nets.v6.value;
    ghost var free;
    free, found, next := ProbeV6(pool, net, pool.v6Next, Min(net.hostMask - 1, SCAN_CAP));
  }

  /** The scanning loop: at most `maxIter` offsets, each looked at once. */
  method ProbeV6(pool: Pool, net: Net, cursor: nat, maxIter: nat)
    returns (ghost free: Option<nat>, found: Option<IpAddr>, next: nat)
    requires net.Valid() && net.hostMask > 1 && 2 <= cursor <= net.hostMask + 1 && 0 < maxIter <= net.hostMask - 1
    ensures free == FirstFree(pool, net, cursor, net.hostMask + 1, 0, maxIter)
    ensures var last := Cyclic(cursor, if free.Some? then free.value else maxIter - 1, net.hostMask + 1);
            && next == SuccessorV6(last, net.hostMask)
            && found == if free.Some? then Some(AddrAt(net, last)) else None
    ensures next <= net.hostMask
  {
    ghost var end := net.hostMask + 1;
    free := FirstFree(pool, net, cursor, end, 0, maxIter);
    var checked := 0;
    next := cursor;
    while checked < maxIter
      invariant checked <= maxIter
      invariant next == if checked == 0 then cursor else SuccessorV6(Cyclic(cursor, checked - 1, end), net.hostMask)
      invariant free == FirstFree(pool, net, cursor, end, checked, maxIter)
    {
      CursorV6(cursor, checked, net.hostMask);
      if next > net.hostMask {
        next := 2;
      }
      var addr := AddrAt(net, next);
      next := if next == net.hostMask then 2 else next + 1;
      checked := checked + 1;
      if !pool.Held(addr) {
        return free, Some(addr), next;
      }
    }
    found := None;
  }

  lemma CursorV6(cursor: nat, k: nat, hostMask: nat)
    requires 2 <= cursor <= hostMask + 1 && k < hostMask - 1
    ensures var next := if k == 0 then cursor else SuccessorV6(Cyclic(cursor, k - 1, hostMask + 1), hostMask);
            Cyclic(cursor, k, hostMask + 1) == if next > hostMask then 2 else next
  {
    if k > 0 {
      CyclicStep(cursor, k, hostMask + 1);
    }
  }

  class Allocator {
    const nets: Nets
    var leases: map<IpAddr, Allocation>
    var reserved: map<IpAddr, Key>
    /** Host offsets tried next in each family. */
    var v4Next: nat
    var v6Next: nat

    ghost function View(): Pool
      reads this
    {
      Pool(nets, leases, reserved, v4Next, v6Next)
    }

    ghost predicate Valid()
      reads this
    {
      View().WellFormed()
    }

    constructor (nets: Nets)
      requires nets.Valid()
      ensures Valid() && View() == Fresh(nets)
    {
      this.nets := nets;
      leases := map[];
      reserved := map[];
      v4Next := 2;
      v6Next := 2;
    }

    method Reserve(addr: IpAddr, owner: Key) returns (error: Option<PoolError>)
      requires Valid()
      modifies this
      ensures Valid() && (View(), error) == ReserveStatic(old(View()), addr, owner)
    {
      if !nets.InRange(addr) {
        return Some(OutOfRange(addr));
      }
      if nets.IsGateway(addr) {
        return Some(AlreadyAllocated(addr));
      }
      if addr in reserved {
        return Some(AlreadyAllocated(addr));
      }
      reserved := reserved[addr := owner];
      return None;
    }

    method Reload(roster: seq<(IpAddr, Key)>) returns (error: Option<PoolError>)
      requires Valid()
      modifies this
      ensures Valid() && (View(), error) == SetReservations(old(View()), roster)
    {
      var next: map<IpAddr, Key> := map[];
      for i := 0 to |roster|
        invariant View() == old(View())
        invariant Roster(View(), roster, map[]) == Roster(View(), roster[i..], next)
      {
        var (addr, owner) := roster[i];
        assert roster[i..][1..] == roster[i + 1..];
        if !nets.InRange(addr) {
          return Some(OutOfRange(addr));
        }
        if nets.IsGateway(addr) {
          return Some(AlreadyAllocated(addr));
        }
        if addr in next {
          return Some(AlreadyAllocated(addr));
        }
        next := next[addr := owner];
      }
      reserved := next;
      return None;
    }

    method Attach(addr: IpAddr, owner: Key) returns (error: Option<PoolError>)
      requires Valid()
      modifies this
      ensures Valid() && (View(), error) == Claim(old(View()), addr, owner)
    {
      if !nets.InRange(addr) {
        return Some(OutOfRange(addr));
      }
      if nets.IsGateway(addr) {
        return Some(AlreadyAllocated(addr));
      }
      if addr !in reserved || reserved[addr] != owner {
        return Some(NotReserved(addr));
      }
      if addr in leases {
        if leases[addr].owner != Some(owner) {
          return Some(AlreadyAllocated(addr));
        }
        leases := leases[addr := leases[addr].(claims := leases[addr].claims + 1)];
        return None;
      }
      leases := leases[addr := Pinned(owner)];
      return None;
    }

    method TakeV4() returns (r: Result<IpAddr, PoolError>)
      requires Valid()
      modifies this
      ensures Valid() && (View(), r) == AllocateV4(old(View()))
    {
      AllocateV4Shape(View());
      if nets.v4.None? || nets.v4.value.hostMask <= 2 {
        return Err(Exhausted);
      }
      var found, next := ScanV4(Pool(nets, leases, reserved, v4Next, v6Next));
      v4Next := next;
      if found.None? {
        return Err(Exhausted);
      }
      leases := leases[found.value := DYNAMIC];
      return Ok(found.value);
    }

    method TakeV6() returns (r: Result<IpAddr, PoolError>)
      requires Valid()
      modifies this
      ensures Valid() && (View(), r) == AllocateV6(old(View()))
    {
      AllocateV6Shape(View());
      if nets.v6.None? || nets.v6.value.hostMask <= 1 {
        return Err(Exhausted);
      }
      var found, next := ScanV6(Pool(nets, leases, reserved, v4Next, v6Next));
      v6Next := next;
      if found.None? {
        return Err(Exhausted);
      }
      leases := leases[found.value := DYNAMIC];
      return Ok(found.value);
    }

    method Free(addr: IpAddr) returns (was: bool)
      requires Valid()
      modifies this
      ensures Valid() && (View(), was) == Release(old(View()), addr)
    {
      if addr !in leases {
        return false;
      }
      if leases[addr].claims > 1 {
        leases := leases[addr := leases[addr].(claims := leases[addr].claims - 1)];
      } else {
        leases := leases - {addr};
      }
      return true;
    }
  }
}
