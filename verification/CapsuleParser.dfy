/** Interprets capsule values: the address and route lists of RFC 9484. */
module CapsuleParser {
  import opened Base
  import opened Bits
  import opened IpAddresses
  import opened Capsules
  import opened CapsuleEncoder
  import opened StreamScan
  import Varint

  type Parsed<T> = Result<T, DecodeError>

  function Prepend<T>(head: seq<T>, tail: Parsed<seq<T>>): Parsed<seq<T>> {
    match tail
    case Ok(rest) => Ok(head + rest)
    case Err(e) => Err(e)
  }

  lemma PrependNothing<T>(tail: Parsed<seq<T>>)
    ensures Prepend([], tail) == tail
  {
    if tail.Ok? {
      assert [] + tail.value == tail.value;
    }
  }

  lemma PrependPrepend<T>(a: seq<T>, b: seq<T>, tail: Parsed<seq<T>>)
    ensures Prepend(a, Prepend(b, tail)) == Prepend(a + b, tail)
  {
    if tail.Ok? {
      assert a + (b + tail.value) == a + b + tail.value;
    }
  }

  // ----- ADDRESS_ASSIGN and ADDRESS_REQUEST -----

  /** One entry at the front of `buf`, and its length. */
  function AddressEntry(buf: Bytes): (r: Parsed<(AssignedAddress, nat)>)
    ensures r.Ok? ==> 0 < r.value.1 <= |buf| && ValidAddress(r.value.0)
    ensures r.Err? ==> r.error == Malformed
  {
    var id := Varint.Decode(buf);
    if id.Err? then Err(Malformed) else
    var at := id.value.1;
    if |buf| == at then Err(Malformed) else
    var n := if buf[at] == 4 then 4 else 16;
    if buf[at] != 4 && buf[at] != 6 then Err(Malformed)
    else if |buf| <= at + 1 + n then Err(Malformed)
    else
      var octets := buf[at + 1..at + 1 + n];
      var ip := if n == 4 then Ipv4(octets) else Ipv6(octets);
      var entry := AssignedAddress(id.value.0, ip, buf[at + 1 + n]);
      if ValidPrefix(entry) then Ok((entry, at + n + 2)) else Err(Malformed)
  }

  function Addresses(buf: Bytes): (r: Parsed<seq<AssignedAddress>>)
    ensures r.Err? ==> r.error == Malformed
  {
    if buf == [] then Ok([]) else
    var entry := AddressEntry(buf);
    if entry.Err? then Err(entry.error)
    else Prepend([entry.value.0], Addresses(buf[entry.value.1..]))
  }

  /** Every entry that is parsed is a valid one. */
  lemma {:induction false} AddressesValid(buf: Bytes)
    requires Addresses(buf).Ok?
    ensures ValidAddresses(Addresses(buf).value)
    decreases |buf|
  {
    if buf != [] {
      AddressesValid(buf[AddressEntry(buf).value.1..]);
    }
  }

  predicate HasZeroId(addrs: seq<AssignedAddress>): (zero: bool)
    ensures zero <==> exists a :: a in addrs && a.requestId == 0
  {
    assert addrs != [] ==> addrs == [addrs[0]] + addrs[1..];
    addrs != [] && (addrs[0].requestId == 0 || HasZeroId(addrs[1..]))
  }

  function RequestedAddresses(buf: Bytes): (r: Parsed<seq<AssignedAddress>>) {
    var addresses := Addresses(buf);
    if addresses.Ok? && (addresses.value == [] || HasZeroId(addresses.value)) then Err(Malformed)
    else addresses
  }

  lemma AddressEntryInverse(a: AssignedAddress, tail: Bytes)
    requires ValidAddress(a)
    ensures AddressEntry(AddressBytes(a) + tail) == Ok((a, |AddressBytes(a)|))
  {
    var id := Varint.Encoding(a.requestId);
    var octets := a.ip.Octets();
    var buf := AddressBytes(a) + tail;
    assert buf == id + ([a.ip.Version()] + octets + [a.prefixLen] + tail);
    Varint.RoundTrip(a.requestId, [a.ip.Version()] + octets + [a.prefixLen] + tail);
    assert buf[|id|] == a.ip.Version();
    assert buf[|id| + 1..|id| + 1 + |octets|] == octets;
    assert buf[|id| + 1 + |octets|] == a.prefixLen;
    OctetsRoundTrip(a.ip);
  }

  lemma AddressThenRest(a: AssignedAddress, rest: seq<AssignedAddress>)
    requires ValidAddress(a) && EncodableIds(rest) && Addresses(AddressesBytes(rest)) == Ok(rest)
    ensures Addresses(AddressBytes(a) + AddressesBytes(rest)) == Ok([a] + rest)
  {
    var head, tail := AddressBytes(a), AddressesBytes(rest);
    AddressEntryInverse(a, tail);
    assert (head + tail)[|head|..] == tail;
  }

  lemma {:induction false} AddressesInverse(addrs: seq<AssignedAddress>)
    requires ValidAddresses(addrs)
    ensures EncodableIds(addrs) && Addresses(AddressesBytes(addrs)) == Ok(addrs)
  {
    if addrs != [] {
      assert ValidAddress(addrs[0]);
      AddressesInverse(addrs[1..]);
      AddressThenRest(addrs[0], addrs[1..]);
      assert addrs == [addrs[0]] + addrs[1..];
    }
  }

  /** The parser's test: masked with the ones below the prefix, the address is zero. */
  predicate PrefixTest(ip: IpAddr, prefixLen: Byte): (ok: bool)
    ensures forall id :: ok <==> ValidPrefix(AssignedAddress(id, ip, prefixLen))
  {
    prefixLen <= ip.Width() &&
    (LowMask(ip.Value(), ip.Width() - prefixLen);
     prefixLen == ip.Width() || BitAnd(ip.Value(), Pow2(ip.Width() - prefixLen) - 1) == 0)
  }

  /** The body of the address loop: one entry off the front of `value`. */
  method ParseAddress(value: Bytes) returns (r: Parsed<AssignedAddress>, buf: Bytes)
    ensures AddressEntry(value).Err? ==> r == Err(Malformed)
    ensures AddressEntry(value).Ok? ==>
              r == Ok(AddressEntry(value).value.0) && buf == value[AddressEntry(value).value.1..]
  {
    buf := value;
    var id := Varint.Decode(buf);
    if id.Err? {
      return Err(Malformed), buf;
    }
    buf := buf[id.value.1..];
    if buf == [] {
      return Err(Malformed), buf;
    }
    var ipVersion := buf[0];
    buf := buf[1..];
    var ip, addrLen;
    if ipVersion == 4 {
      if |buf| < 4 {
        return Err(Malformed), buf;
      }
      ip, addrLen := Ipv4(buf[..4]), 4;
    } else if ipVersion == 6 {
      if |buf| < 16 {
        return Err(Malformed), buf;
      }
      ip, addrLen := Ipv6(buf[..16]), 16;
    } else {
      return Err(Malformed), buf;
    }
    assert buf[..addrLen] == value[id.value.1 + 1..id.value.1 + 1 + addrLen];
    buf := buf[addrLen..];
    if buf == [] {
      return Err(Malformed), buf;
    }
    var address := AssignedAddress(id.value.0, ip, buf[0]);
    buf := buf[1..];
    if !PrefixTest(address.ip, address.prefixLen) {
      return Err(Malformed), buf;
    }
    assert buf == value[id.value.1 + addrLen + 2..];
    r := Ok(address);
  }

  method ParseAssignedAddresses(value: Bytes) returns (r: Parsed<seq<AssignedAddress>>)
    ensures r == Addresses(value)
  {
    var buf := value;
    var addrs: seq<AssignedAddress> := [];
    PrependNothing(Addresses(value));
    while buf != []
      invariant Addresses(value) == Prepend(addrs, Addresses(buf))
      decreases |buf|
    {
      var entry;
      entry, buf := ParseAddress(buf);
      if entry.Err? {
        return Err(Malformed);
      }
      PrependPrepend(addrs, [entry.value], Addresses(buf));
      addrs := addrs + [entry.value];
    }
    assert addrs + [] == addrs;
    r := Ok(addrs);
  }

  method ParseRequestedAddresses(value: Bytes) returns (r: Parsed<seq<AssignedAddress>>)
    ensures r == RequestedAddresses(value)
  {
    r := ParseAssignedAddresses(value);
    if r.Err? {
      return;
    }
    if r.value == [] {
      return Err(Malformed);
    }
    for i := 0 to |r.value|
      invariant forall a :: a in r.value[..i] ==> a.requestId != 0
    {
      if r.value[i].requestId == 0 {
        return Err(Malformed);
      }
    }
    assert r.value[..|r.value|] == r.value;
  }

  // ----- ROUTE_ADVERTISEMENT -----

  /** One range at the front of `buf`, framing only, and its length. */
  function RangeEntry(buf: Bytes): (r: Parsed<(IpAddressRange, nat)>)
    ensures r.Ok? ==> 0 < r.value.1 <= |buf| && SameFamily(r.value.0)
    ensures r.Ok? ==> buf[..r.value.1] == RangeBytes(r.value.0)
    ensures r.Err? ==> r.error == Malformed
  {
    if buf == [] then Err(Malformed) else
    var n := if buf[0] == 4 then 4 else 16;
    if buf[0] != 4 && buf[0] != 6 then Err(Malformed)
    else if |buf| <= 1 + 2 * n then Err(Malformed)
    else
      var lo, hi := buf[1..1 + n], buf[1 + n..1 + 2 * n];
      var range := IpAddressRange(
                     if n == 4 then Ipv4(lo) else Ipv6(lo),
                     if n == 4 then Ipv4(hi) else Ipv6(hi),
                     buf[1 + 2 * n]);
      AddressRoundTrip(lo);
      AddressRoundTrip(hi);
      assert buf[..2 + 2 * n] == [buf[0]] + lo + hi + [buf[1 + 2 * n]];
      Ok((range, 2 + 2 * n))
  }

  /** The ranges a value spells, in whatever order they come. */
  function Framed(buf: Bytes): (r: Parsed<seq<IpAddressRange>>)
    ensures r.Err? ==> r.error == Malformed
  {
    if buf == [] then Ok([]) else
    var entry := RangeEntry(buf);
    if entry.Err? then Err(entry.error)
    else Prepend([entry.value.0], Framed(buf[entry.value.1..]))
  }

  /** The check the parser makes between a range and the one just before it. */
  predicate MayFollow(previous: Option<IpAddressRange>, r: IpAddressRange) {
    && r.start.Value() <= r.end.Value()
    && match previous
       case None => true
       case Some(p) =>
         && !KeyBefore(r, p)
         && !(SameKey(p, r) && p.end.Value() >= r.start.Value())
  }

  function RangesAfter(buf: Bytes, previous: Option<IpAddressRange>): (r: Parsed<seq<IpAddressRange>>)
    ensures r.Err? ==> r.error == Malformed
    decreases |buf|
  {
    if buf == [] then Ok([]) else
    var entry := RangeEntry(buf);
    if entry.Err? then Err(entry.error)
    else if !MayFollow(previous, entry.value.0) then Err(Malformed)
    else Prepend([entry.value.0], RangesAfter(buf[entry.value.1..], Some(entry.value.0)))
  }

  function Ranges(buf: Bytes): (r: Parsed<seq<IpAddressRange>>) {
    RangesAfter(buf, None)
  }

  predicate Chained(previous: Option<IpAddressRange>, rs: seq<IpAddressRange>) {
    && (rs != [] ==> MayFollow(previous, rs[0]))
    && forall i :: 0 < i < |rs| ==> MayFollow(Some(rs[i - 1]), rs[i])
  }

  lemma {:induction false} RangesSplit(buf: Bytes, previous: Option<IpAddressRange>)
    ensures RangesAfter(buf, previous) ==
            if Framed(buf).Ok? && Chained(previous, Framed(buf).value) then Framed(buf) else Err(Malformed)
    decreases |buf|
  {
    if buf != [] {
      var entry := RangeEntry(buf);
      if entry.Ok? {
        var tail := buf[entry.value.1..];
        RangesSplit(tail, Some(entry.value.0));
        if Framed(tail).Ok? {
          var rs := [entry.value.0] + Framed(tail).value;
          assert rs[1..] == Framed(tail).value;
          ChainedCons(previous, rs);
        }
      }
    }
  }

  lemma ChainedCons(previous: Option<IpAddressRange>, rs: seq<IpAddressRange>)
    requires rs != []
    ensures Chained(previous, rs) <==> MayFollow(previous, rs[0]) && Chained(Some(rs[0]), rs[1..])
  {
    var tail := rs[1..];
    if MayFollow(previous, rs[0]) && Chained(Some(rs[0]), tail) {
      forall i | 0 < i < |rs|
        ensures MayFollow(Some(rs[i - 1]), rs[i])
      {
        assert rs[i] == tail[i - 1];
        assert i > 1 ==> rs[i - 1] == tail[i - 2];
      }
    }
    if Chained(previous, rs) {
      forall i | 0 < i < |tail|
        ensures MayFollow(Some(tail[i - 1]), tail[i])
      {
        assert tail[i] == rs[i + 1] && tail[i - 1] == rs[i];
      }
    }
  }

  lemma {:induction false} ChainedPrecedes(rs: seq<IpAddressRange>, i: nat, j: nat)
    requires Chained(None, rs) && i < j < |rs|
    ensures Precedes(rs[i], rs[j])
    decreases j
  {
    assert MayFollow(Some(rs[j - 1]), rs[j]);
    if i < j - 1 {
      ChainedPrecedes(rs, i, j - 1);
      assert j - 1 > 0 && MayFollow(Some(rs[j - 2]), rs[j - 1]);
    }
  }

  /** Comparing neighbours decides the order of the whole list. */
  lemma NeighboursSuffice(rs: seq<IpAddressRange>)
    ensures Chained(None, rs) <==> WellOrdered(rs)
  {
    if Chained(None, rs) {
      forall i, j | 0 <= i < j < |rs|
        ensures Precedes(rs[i], rs[j])
      {
        ChainedPrecedes(rs, i, j);
      }
      forall i | 0 <= i < |rs|
        ensures rs[i].start.Value() <= rs[i].end.Value()
      {
        assert i > 0 ==> MayFollow(Some(rs[i - 1]), rs[i]);
      }
    }
    if WellOrdered(rs) {
      forall i | 0 < i < |rs|
        ensures MayFollow(Some(rs[i - 1]), rs[i])
      {
        assert Precedes(rs[i - 1], rs[i]);
      }
    }
  }

  /** Section 4.7.3 of RFC 9484: exactly the framed, sorted, disjoint lists are accepted. */
  lemma RangesAccepted(buf: Bytes)
    ensures Ranges(buf) ==
            if Framed(buf).Ok? && WellOrdered(Framed(buf).value) then Framed(buf) else Err(Malformed)
  {
    RangesSplit(buf, None);
    if Framed(buf).Ok? {
      NeighboursSuffice(Framed(buf).value);
    }
  }

  lemma RangeEntryInverse(r: IpAddressRange, tail: Bytes)
    requires SameFamily(r)
    ensures RangeEntry(RangeBytes(r) + tail) == Ok((r, |RangeBytes(r)|))
  {
    var buf := RangeBytes(r) + tail;
    var n := |r.start.Octets()|;
    assert buf[0] == r.start.Version();
    assert buf[1..1 + n] == r.start.Octets();
    assert buf[1 + n..1 + 2 * n] == r.end.Octets();
    assert buf[1 + 2 * n] == r.ipProtocol;
    OctetsRoundTrip(r.start);
    OctetsRoundTrip(r.end);
  }

  /** Framing is unambiguous: a value spells `rs` exactly when it is the encoding of `rs`. */
  lemma {:induction false} FramedInverse(rs: seq<IpAddressRange>)
    requires SameFamilies(rs)
    ensures Framed(RangesBytes(rs)) == Ok(rs)
  {
    if rs != [] {
      var head, tail := RangeBytes(rs[0]), RangesBytes(rs[1..]);
      RangeEntryInverse(rs[0], tail);
      FramedInverse(rs[1..]);
      assert (head + tail)[|head|..] == tail;
      assert rs == [rs[0]] + rs[1..];
    }
  }

  lemma {:induction false} FramedImage(buf: Bytes)
    requires Framed(buf).Ok?
    ensures SameFamilies(Framed(buf).value) && RangesBytes(Framed(buf).value) == buf
    decreases |buf|
  {
    if buf != [] {
      var (range, n) := RangeEntry(buf).value;
      FramedImage(buf[n..]);
      RangesBytesCons(range, Framed(buf[n..]).value);
      assert buf == buf[..n] + buf[n..];
    }
  }

  lemma RangesBytesCons(r: IpAddressRange, rs: seq<IpAddressRange>)
    ensures RangesBytes([r] + rs) == RangeBytes(r) + RangesBytes(rs)
  {
    assert ([r] + rs)[1..] == rs;
  }

  /** The framing half of the range loop: one entry off the front of `value`. */
  method ParseRange(value: Bytes) returns (r: Parsed<IpAddressRange>, buf: Bytes)
    requires value != []
    ensures RangeEntry(value).Err? ==> r == Err(Malformed)
    ensures RangeEntry(value).Ok? ==>
              r == Ok(RangeEntry(value).value.0) && buf == value[RangeEntry(value).value.1..]
  {
    buf := value;
    var ipVersion := buf[0];
    buf := buf[1..];
    var start, end, addrLen;
    if ipVersion == 4 {
      if |buf| < 8 {
        return Err(Malformed), buf;
      }
      start, end, addrLen := Ipv4(buf[..4]), Ipv4(buf[4..8]), 8;
      SliceOfRest(value, 1, 0, 4);
      SliceOfRest(value, 1, 4, 8);
    } else if ipVersion == 6 {
      if |buf| < 32 {
        return Err(Malformed), buf;
      }
      start, end, addrLen := Ipv6(buf[..16]), Ipv6(buf[16..32]), 32;
      SliceOfRest(value, 1, 0, 16);
      SliceOfRest(value, 1, 16, 32);
    } else {
      return Err(Malformed), buf;
    }
    buf := buf[addrLen..];
    if buf == [] {
      return Err(Malformed), buf;
    }
    r := Ok(IpAddressRange(start, end, buf[0]));
    buf := buf[1..];
    assert buf == value[addrLen + 2..];
  }

  method ParseAddressRanges(value: Bytes) returns (r: Parsed<seq<IpAddressRange>>)
    ensures r == Ranges(value)
  {
    var buf := value;
    var ranges: seq<IpAddressRange> := [];
    var previous: Option<IpAddressRange> := None;
    PrependNothing(Ranges(value));
    while buf != []
      invariant Ranges(value) == Prepend(ranges, RangesAfter(buf, previous))
      decreases |buf|
    {
      var entry;
      entry, buf := ParseRange(buf);
      if entry.Err? {
        return Err(Malformed);
      }
      if !MayFollow(previous, entry.value) {
        return Err(Malformed);
      }
      previous := Some(entry.value);
      PrependPrepend(ranges, [entry.value], RangesAfter(buf, previous));
      ranges := ranges + [entry.value];
    }
    assert ranges + [] == ranges;
    r := Ok(ranges);
  }

  // ----- one capsule value -----

  function ParseCapsuleValue(kind: nat, value: Bytes): (r: Parsed<CapsuleFrame>)
    ensures r.Err? ==> r.error == Malformed
  {
    if kind == DATAGRAM then Ok(Datagram(value))
    else if kind == ADDRESS_ASSIGN then
      var addrs := Addresses(value);
      if addrs.Ok? then Ok(AddressAssign(addrs.value)) else Err(addrs.error)
    else if kind == ADDRESS_REQUEST then
      var addrs := RequestedAddresses(value);
      if addrs.Ok? then Ok(AddressRequest(addrs.value)) else Err(addrs.error)
    else if kind == ROUTE_ADVERTISEMENT then
      var ranges := Ranges(value);
      if ranges.Ok? then Ok(RouteAdvertisement(ranges.value)) else Err(ranges.error)
    else Ok(Unknown(kind, value))
  }

  /** The parser accepts the encoder's value of every well-formed frame, unchanged. */
  lemma ValueInverse(frame: CapsuleFrame)
    requires WellFormed(frame)
    ensures ParseCapsuleValue(KindOf(frame), ValueBytesOf(frame)) == Ok(frame)
  {
    match frame
    case Datagram(_) =>
    case AddressAssign(addrs) => AddressesInverse(addrs);
    case AddressRequest(addrs) => AddressesInverse(addrs);
    case RouteAdvertisement(ranges) =>
      FramedInverse(ranges);
      RangesAccepted(RangesBytes(ranges));
    case Unknown(_, _) =>
  }

  /** Every frame the parser yields is well formed and keeps its type. */
  lemma ParsedWellFormed(kind: nat, value: Bytes)
    requires kind <= Varint.MAX_VALUE && ParseCapsuleValue(kind, value).Ok?
    ensures WellFormed(ParseCapsuleValue(kind, value).value)
    ensures KindOf(ParseCapsuleValue(kind, value).value) == kind
  {
    if kind == ADDRESS_ASSIGN || kind == ADDRESS_REQUEST {
      AddressesValid(value);
    } else if kind == ROUTE_ADVERTISEMENT {
      RangesAccepted(value);
      FramedImage(value);
    }
  }

  // ----- which values are accepted -----

  /** Section 4.7.1 of RFC 9484: request ID in any of its spellings, version, address, prefix length. */
  ghost predicate SpellsAddress(part: Bytes, a: AssignedAddress) {
    && Varint.Decode(part).Ok? && Varint.Decode(part).value.0 == a.requestId
    && var k, n := Varint.Decode(part).value.1, |a.ip.Octets()|;
    && |part| == k + n + 2
    && part[k] == (if a.ip.V4? then 4 else 6)
    && part[k + 1..k + 1 + n] == a.ip.Octets()
    && part[k + 1 + n] == a.prefixLen
    && ValidPrefix(a)
  }

  /** Section 4.7.3 of RFC 9484: version, first address, last address, protocol. */
  ghost predicate SpellsRange(part: Bytes, r: IpAddressRange) {
    var n := |r.start.Octets()|;
    && SameFamily(r)
    && |part| == 2 * n + 2
    && part[0] == (if r.start.V4? then 4 else 6)
    && part[1..1 + n] == r.start.Octets()
    && part[1 + n..1 + 2 * n] == r.end.Octets()
    && part[1 + 2 * n] == r.ipProtocol
  }

  /** The value is cut into `parts`, which spell the items one by one. */
  ghost predicate RowOf<T>(spells: (Bytes, T) -> bool, parts: seq<Bytes>, items: seq<T>, value: Bytes) {
    && |parts| == |items| && Concat(parts) == value
    && forall i :: 0 <= i < |parts| ==> spells(parts[i], items[i])
  }

  ghost predicate AddressRow(value: Bytes, addrs: seq<AssignedAddress>) {
    exists parts :: RowOf(SpellsAddress, parts, addrs, value)
  }

  ghost predicate RangeRow(value: Bytes, rs: seq<IpAddressRange>) {
    exists parts :: RowOf(SpellsRange, parts, rs, value)
  }

  lemma RowCons<T>(
    spells: (Bytes, T) -> bool, part: Bytes, item: T, parts: seq<Bytes>, items: seq<T>, value: Bytes)
    requires spells(part, item) && RowOf(spells, parts, items, value)
    ensures RowOf(spells, [part] + parts, [item] + items, part + value)
  {
    assert ([part] + parts)[1..] == parts;
  }

  lemma RowTail<T>(spells: (Bytes, T) -> bool, parts: seq<Bytes>, items: seq<T>, value: Bytes)
    requires RowOf(spells, parts, items, value) && parts != []
    ensures spells(parts[0], items[0]) && value == parts[0] + Concat(parts[1..])
    ensures RowOf(spells, parts[1..], items[1..], Concat(parts[1..]))
    ensures items == [items[0]] + items[1..]
  {
  }

  lemma SliceOfPrefix(s: Bytes, n: nat, from: nat, end: nat)
    requires from <= end <= n <= |s|
    ensures s[..n][from..end] == s[from..end]
  {
  }

  lemma SliceOfRest(s: Bytes, n: nat, from: nat, end: nat)
    requires from <= end && n + end <= |s|
    ensures s[n..][from..end] == s[n + from..n + end]
  {
  }

  lemma EntrySpelled(buf: Bytes)
    requires AddressEntry(buf).Ok?
    ensures SpellsAddress(buf[..AddressEntry(buf).value.1], AddressEntry(buf).value.0)
  {
    var (a, n) := AddressEntry(buf).value;
    var k := Varint.Decode(buf).value.1;
    Varint.DecodeKept(buf, n);
    AddressRoundTrip(buf[k + 1..n - 1]);
    SliceOfPrefix(buf, n, k + 1, n - 1);
  }

  lemma EntryRead(part: Bytes, a: AssignedAddress, tail: Bytes)
    requires SpellsAddress(part, a)
    ensures AddressEntry(part + tail) == Ok((a, |part|))
  {
    var k, n := Varint.Decode(part).value.1, |a.ip.Octets()|;
    Varint.DecodeStable(part, tail);
    assert (part + tail)[k + 1..k + 1 + n] == part[k + 1..k + 1 + n];
    OctetsRoundTrip(a.ip);
  }

  lemma AddressesFirst(value: Bytes) returns (a: AssignedAddress, n: nat)
    requires value != [] && Addresses(value).Ok?
    ensures AddressEntry(value) == Ok((a, n)) && 0 < n <= |value|
    ensures Addresses(value[n..]).Ok? && Addresses(value).value == [a] + Addresses(value[n..]).value
  {
    a, n := AddressEntry(value).value.0, AddressEntry(value).value.1;
  }

  lemma CutAt(value: Bytes, n: nat)
    requires n <= |value|
    ensures value == value[..n] + value[n..]
  {
  }

  lemma FirstPart(value: Bytes) returns (part: Bytes, a: AssignedAddress, rest: Bytes)
    requires value != [] && Addresses(value).Ok?
    ensures SpellsAddress(part, a) && value == part + rest && |rest| < |value|
    ensures Addresses(rest).Ok? && Addresses(value).value == [a] + Addresses(rest).value
  {
    var n;
    a, n := AddressesFirst(value);
    part, rest := value[..n], value[n..];
    CutAt(value, n);
    EntrySpelled(value);
  }

  lemma {:induction false} AddressesSpelled(value: Bytes, addrs: seq<AssignedAddress>) returns (parts: seq<Bytes>)
    requires Addresses(value) == Ok(addrs)
    ensures RowOf(SpellsAddress, parts, addrs, value)
    decreases |value|
  {
    if value == [] {
      parts := [];
    } else {
      var part, a, rest := FirstPart(value);
      var later := AddressesSpelled(rest, Addresses(rest).value);
      RowCons(SpellsAddress, part, a, later, Addresses(rest).value, rest);
      parts := [part] + later;
    }
  }

  lemma {:induction false} AddressesRead(parts: seq<Bytes>, addrs: seq<AssignedAddress>, value: Bytes)
    requires RowOf(SpellsAddress, parts, addrs, value)
    ensures Addresses(value) == Ok(addrs)
    decreases |parts|
  {
    if parts != [] {
      var tail := Concat(parts[1..]);
      RowTail(SpellsAddress, parts, addrs, value);
      AddressesRead(parts[1..], addrs[1..], tail);
      EntryRead(parts[0], addrs[0], tail);
      assert value[|parts[0]|..] == tail;
    }
  }

  /** A value is an address list exactly if it is a row of entries, and then these are its addresses. */
  lemma AddressesAccepted(value: Bytes, addrs: seq<AssignedAddress>)
    ensures Addresses(value) == Ok(addrs) <==> AddressRow(value, addrs)
  {
    if Addresses(value) == Ok(addrs) {
      var parts := AddressesSpelled(value, addrs);
    }
    if parts :| RowOf(SpellsAddress, parts, addrs, value) {
      AddressesRead(parts, addrs, value);
    }
  }

  lemma RangeSpelling(part: Bytes, r: IpAddressRange)
    ensures SpellsRange(part, r) <==> SameFamily(r) && part == RangeBytes(r)
  {
    var n := |r.start.Octets()|;
    if SpellsRange(part, r) {
      assert part == [part[0]] + part[1..1 + n] + part[1 + n..1 + 2 * n] + [part[1 + 2 * n]];
    }
  }

  lemma {:induction false} RangesSpelled(rs: seq<IpAddressRange>) returns (parts: seq<Bytes>)
    requires SameFamilies(rs)
    ensures RowOf(SpellsRange, parts, rs, RangesBytes(rs))
  {
    if rs == [] {
      parts := [];
    } else {
      var rest := RangesSpelled(rs[1..]);
      RangeSpelling(RangeBytes(rs[0]), rs[0]);
      RowCons(SpellsRange, RangeBytes(rs[0]), rs[0], rest, rs[1..], RangesBytes(rs[1..]));
      parts := [RangeBytes(rs[0])] + rest;
      assert rs == [rs[0]] + rs[1..];
    }
  }

  lemma {:induction false} RangesRead(parts: seq<Bytes>, rs: seq<IpAddressRange>, value: Bytes)
    requires RowOf(SpellsRange, parts, rs, value)
    ensures SameFamilies(rs) && value == RangesBytes(rs)
    decreases |parts|
  {
    if parts != [] {
      RowTail(SpellsRange, parts, rs, value);
      RangeSpelling(parts[0], rs[0]);
      RangesRead(parts[1..], rs[1..], Concat(parts[1..]));
    }
  }

  /** A value is a route list exactly if it is a row of ranges in order. */
  lemma RoutesAccepted(value: Bytes, rs: seq<IpAddressRange>)
    ensures Ranges(value) == Ok(rs) <==> WellOrdered(rs) && RangeRow(value, rs)
  {
    RangesAccepted(value);
    if Ranges(value) == Ok(rs) {
      FramedImage(value);
      var parts := RangesSpelled(rs);
    }
    if parts :| RowOf(SpellsRange, parts, rs, value) {
      RangesRead(parts, rs, value);
      FramedInverse(rs);
    }
  }

  lemma RequestsAccepted(value: Bytes, addrs: seq<AssignedAddress>)
    ensures RequestedAddresses(value) == Ok(addrs) <==>
            AddressRow(value, addrs) && addrs != [] && forall a :: a in addrs ==> a.requestId != 0
  {
    AddressesAccepted(value, addrs);
  }

  /** Which parser a type goes to. */
  lemma KindDecides(kind: nat, value: Bytes, frame: CapsuleFrame)
    ensures ParseCapsuleValue(kind, value) == Ok(frame) <==>
            match frame
            case Datagram(payload) => kind == 0 && value == payload
            case AddressAssign(addrs) => kind == 1 && Addresses(value) == Ok(addrs)
            case AddressRequest(addrs) => kind == 2 && RequestedAddresses(value) == Ok(addrs)
            case RouteAdvertisement(rs) => kind == 3 && Ranges(value) == Ok(rs)
            case Unknown(k, v) => kind == k > 3 && value == v
  {
  }

  /** What a frame's value looks like, whoever wrote it. */
  ghost predicate SpellsFrame(kind: nat, value: Bytes, frame: CapsuleFrame) {
    match frame
    case Datagram(payload) => kind == 0 && value == payload
    case AddressAssign(addrs) => kind == 1 && AddressRow(value, addrs)
    case AddressRequest(addrs) =>
      kind == 2 && AddressRow(value, addrs) && addrs != [] && forall a :: a in addrs ==> a.requestId != 0
    case RouteAdvertisement(rs) => kind == 3 && WellOrdered(rs) && RangeRow(value, rs)
    case Unknown(k, v) => kind == k > 3 && value == v
  }

  /** A value is accepted as a frame exactly if it spells that frame. */
  lemma ValueAccepted(kind: nat, value: Bytes, frame: CapsuleFrame)
    ensures ParseCapsuleValue(kind, value) == Ok(frame) <==> SpellsFrame(kind, value, frame)
  {
    KindDecides(kind, value, frame);
    match frame
    case AddressAssign(addrs) => AddressesAccepted(value, addrs);
    case AddressRequest(addrs) => RequestsAccepted(value, addrs);
    case RouteAdvertisement(rs) => RoutesAccepted(value, rs);
    case _ =>
  }
}
