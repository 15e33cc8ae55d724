/** Capsule frames (RFC 9297, RFC 9484) and the errors of their decoders. */
module Capsules {
  import opened Base
  import opened Bits
  import opened IpAddresses
  import Varint

  const DATAGRAM: nat := 0
  const ADDRESS_ASSIGN: nat := 1
  const ADDRESS_REQUEST: nat := 2
  const ROUTE_ADVERTISEMENT: nat := 3

  datatype AssignedAddress = AssignedAddress(requestId: nat, ip: IpAddr, prefixLen: Byte)

  datatype IpAddressRange = IpAddressRange(start: IpAddr, end: IpAddr, ipProtocol: Byte)

  datatype CapsuleFrame =
    | Datagram(payload: Bytes)
    | AddressAssign(addresses: seq<AssignedAddress>)
    | AddressRequest(requests: seq<AssignedAddress>)
    | RouteAdvertisement(ranges: seq<IpAddressRange>)
    | Unknown(capsuleType: nat, value: Bytes)

  datatype DecodeError = Incomplete | Malformed | TooLarge(length: nat, max: nat)

  // ----- what a well-formed frame is, independently of any codec -----

  /** The prefix fits the address family and no host bit is set below it. */
  predicate ValidPrefix(a: AssignedAddress) {
    && a.prefixLen <= a.ip.Width()
    && (a.prefixLen == a.ip.Width() || a.ip.Value() % Pow2(a.ip.Width() - a.prefixLen) == 0)
  }

  predicate ValidAddress(a: AssignedAddress) {
    a.requestId <= Varint.MAX_VALUE && ValidPrefix(a)
  }

  predicate ValidAddresses(addrs: seq<AssignedAddress>) {
    forall a :: a in addrs ==> ValidAddress(a)
  }

  predicate SameFamily(r: IpAddressRange) {
    r.start.V4? <==> r.end.V4?
  }

  predicate SameFamilies(rs: seq<IpAddressRange>) {
    forall r :: r in rs ==> SameFamily(r)
  }

  /** Ranges sort by IP version, then by protocol. */
  predicate KeyBefore(r: IpAddressRange, s: IpAddressRange) {
    r.start.Version() < s.start.Version()
    || (r.start.Version() == s.start.Version() && r.ipProtocol < s.ipProtocol)
  }

  predicate SameKey(r: IpAddressRange, s: IpAddressRange) {
    r.start.Version() == s.start.Version() && r.ipProtocol == s.ipProtocol
  }

  /** Section 4.7.3 of RFC 9484: `r` may appear anywhere before `s`. */
  predicate Precedes(r: IpAddressRange, s: IpAddressRange) {
    KeyBefore(r, s) || (SameKey(r, s) && r.end.Value() < s.start.Value())
  }

  /** Every range is an interval, and every pair is sorted, disjoint and ascending. */
  predicate WellOrdered(rs: seq<IpAddressRange>) {
    && (forall i :: 0 <= i < |rs| ==> rs[i].start.Value() <= rs[i].end.Value())
    && (forall i, j :: 0 <= i < j < |rs| ==> Precedes(rs[i], rs[j]))
  }

  predicate WellFormed(frame: CapsuleFrame) {
    match frame
    case Datagram(_) => true
    case AddressAssign(addrs) => ValidAddresses(addrs)
    case AddressRequest(addrs) =>
      ValidAddresses(addrs) && addrs != [] && forall a :: a in addrs ==> a.requestId != 0
    case RouteAdvertisement(ranges) => SameFamilies(ranges) && WellOrdered(ranges)
    case Unknown(kind, _) => ROUTE_ADVERTISEMENT < kind <= Varint.MAX_VALUE
  }
}
