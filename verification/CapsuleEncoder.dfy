/** From frames to octets: a type and a length as varints, then the value. */
module CapsuleEncoder {
  import opened Base
  import opened IpAddresses
  import opened Capsules
  import StreamScan
  import Varint

  // ----- the wire image of a frame -----

  function AddressBytes(a: AssignedAddress): (s: Bytes)
    requires a.requestId <= Varint.MAX_VALUE
    ensures |s| == |Varint.Encoding(a.requestId)| + (if a.ip.V4? then 6 else 18)
  {
    Varint.Encoding(a.requestId) + [a.ip.Version()] + a.ip.Octets() + [a.prefixLen]
  }

  predicate EncodableIds(addrs: seq<AssignedAddress>) {
    forall a :: a in addrs ==> a.requestId <= Varint.MAX_VALUE
  }

  function AddressesBytes(addrs: seq<AssignedAddress>): (s: Bytes)
    requires EncodableIds(addrs)
  {
    if addrs == [] then [] else AddressBytes(addrs[0]) + AddressesBytes(addrs[1..])
  }

  function RangeBytes(r: IpAddressRange): (s: Bytes) {
    [r.start.Version()] + r.start.Octets() + r.end.Octets() + [r.ipProtocol]
  }

  function RangesBytes(rs: seq<IpAddressRange>): (s: Bytes) {
    if rs == [] then [] else RangeBytes(rs[0]) + RangesBytes(rs[1..])
  }

  /** What the encoder can write without panicking. */
  predicate Encodable(frame: CapsuleFrame) {
    && |ValueBytesOf(frame)| <= Varint.MAX_VALUE
    && match frame
       case Datagram(_) => true
       case AddressAssign(addrs) => EncodableIds(addrs)
       case AddressRequest(addrs) => EncodableIds(addrs)
       case RouteAdvertisement(ranges) => SameFamilies(ranges)
       case Unknown(kind, _) => kind <= Varint.MAX_VALUE
  }

  function ValueBytesOf(frame: CapsuleFrame): (s: Bytes) {
    match frame
    case Datagram(payload) => payload
    case AddressAssign(addrs) => if EncodableIds(addrs) then AddressesBytes(addrs) else []
    case AddressRequest(addrs) => if EncodableIds(addrs) then AddressesBytes(addrs) else []
    case RouteAdvertisement(ranges) => RangesBytes(ranges)
    case Unknown(_, value) => value
  }

  function KindOf(frame: CapsuleFrame): (kind: nat) {
    match frame
    case Datagram(_) => DATAGRAM
    case AddressAssign(_) => ADDRESS_ASSIGN
    case AddressRequest(_) => ADDRESS_REQUEST
    case RouteAdvertisement(_) => ROUTE_ADVERTISEMENT
    case Unknown(kind, _) => kind
  }

  function RawBytes(kind: nat, value: Bytes): (s: Bytes)
    requires kind <= Varint.MAX_VALUE && |value| <= Varint.MAX_VALUE
  {
    Varint.Encoding(kind) + Varint.Encoding(|value|) + value
  }

  function FrameBytes(frame: CapsuleFrame): (s: Bytes)
    requires Encodable(frame)
  {
    RawBytes(KindOf(frame), ValueBytesOf(frame))
  }

  predicate AllEncodable(frames: seq<CapsuleFrame>) {
    forall frame :: frame in frames ==> Encodable(frame)
  }

  function FramesBytes(frames: seq<CapsuleFrame>): (s: Bytes)
    requires AllEncodable(frames)
  {
    if frames == [] then [] else FrameBytes(frames[0]) + FramesBytes(frames[1..])
  }

  // ----- the encoder -----

  method EncodeRaw(kind: nat, value: Bytes, buf: Bytes) returns (out: Bytes)
    requires kind <= Varint.MAX_VALUE && |value| <= Varint.MAX_VALUE
    ensures out == buf + RawBytes(kind, value)
  {
    var r;
    r, out := Varint.EncodeToVec(kind, buf);
    r, out := Varint.EncodeToVec(|value|, out);
    out := out + value;
    assert out == buf + RawBytes(kind, value);
  }

  lemma AddressesBytesCons(a: AssignedAddress, addrs: seq<AssignedAddress>)
    requires EncodableIds(addrs) && a.requestId <= Varint.MAX_VALUE
    ensures AddressesBytes([a] + addrs) == AddressBytes(a) + AddressesBytes(addrs)
  {
    assert ([a] + addrs)[0] == a && ([a] + addrs)[1..] == addrs;
  }

  lemma {:induction false} AddressesBytesAppend(addrs: seq<AssignedAddress>, a: AssignedAddress)
    requires EncodableIds(addrs) && a.requestId <= Varint.MAX_VALUE
    ensures AddressesBytes(addrs + [a]) == AddressesBytes(addrs) + AddressBytes(a)
  {
    if addrs == [] {
      assert addrs + [a] == [a] && [a][1..] == [];
    } else {
      var first, rest := addrs[0], addrs[1..];
      assert first in addrs;
      AddressesBytesAppend(rest, a);
      assert addrs + [a] == [first] + (rest + [a]);
      AddressesBytesCons(first, rest + [a]);
      StreamScan.Associate(AddressBytes(first), AddressesBytes(rest), AddressBytes(a));
    }
  }

  lemma {:induction false} RangesBytesAppend(rs: seq<IpAddressRange>, r: IpAddressRange)
    ensures RangesBytes(rs + [r]) == RangesBytes(rs) + RangeBytes(r)
  {
    if rs == [] {
      assert rs + [r] == [r] && [r][1..] == [];
    } else {
      RangesBytesAppend(rs[1..], r);
      assert (rs + [r])[1..] == rs[1..] + [r];
    }
  }

  /** The body of the address loop. */
  method PushAddress(addr: AssignedAddress, value: Bytes) returns (out: Bytes)
    requires addr.requestId <= Varint.MAX_VALUE
    ensures out == value + AddressBytes(addr)
  {
    var r;
    r, out := Varint.EncodeToVec(addr.requestId, value);
    match addr.ip {
      case V4(_) => out := out + [4];
      case V6(_) => out := out + [6];
    }
    out := out + addr.ip.Octets();
    out := out + [addr.prefixLen];
    assert out == value + AddressBytes(addr);
  }

  method EncodeAssignedAddresses(addrs: seq<AssignedAddress>) returns (value: Bytes)
    requires EncodableIds(addrs)
    ensures value == AddressesBytes(addrs)
  {
    value := [];
    for i := 0 to |addrs|
      invariant value == AddressesBytes(addrs[..i])
    {
      value := PushAddress(addrs[i], value);
      AddressesBytesAppend(addrs[..i], addrs[i]);
      assert addrs[..i] + [addrs[i]] == addrs[..i + 1];
    }
    assert addrs[..|addrs|] == addrs;
  }

  /** The body of the range loop; endpoints of different families would panic. */
  method PushRange(range: IpAddressRange, value: Bytes) returns (out: Bytes)
    requires SameFamily(range)
    ensures out == value + RangeBytes(range)
  {
    match range.start {
      case V4(_) => out := value + [4];
      case V6(_) => out := value + [6];
    }
    out := out + range.start.Octets();
    out := out + range.end.Octets();
    out := out + [range.ipProtocol];
    assert out == value + RangeBytes(range);
  }

  method EncodeAddressRanges(ranges: seq<IpAddressRange>) returns (value: Bytes)
    requires SameFamilies(ranges)
    ensures value == RangesBytes(ranges)
  {
    value := [];
    for i := 0 to |ranges|
      invariant value == RangesBytes(ranges[..i])
    {
      value := PushRange(ranges[i], value);
      RangesBytesAppend(ranges[..i], ranges[i]);
      assert ranges[..i] + [ranges[i]] == ranges[..i + 1];
    }
    assert ranges[..|ranges|] == ranges;
  }

  /** Append one frame to `buf`. */
  method Encode(frame: CapsuleFrame, buf: Bytes) returns (out: Bytes)
    requires Encodable(frame)
    ensures out == buf + FrameBytes(frame)
  {
    match frame {
      case Datagram(payload) =>
        out := EncodeRaw(DATAGRAM, payload, buf);
      case AddressAssign(addrs) =>
        var value := EncodeAssignedAddresses(addrs);
        out := EncodeRaw(ADDRESS_ASSIGN, value, buf);
      case AddressRequest(addrs) =>
        var value := EncodeAssignedAddresses(addrs);
        out := EncodeRaw(ADDRESS_REQUEST, value, buf);
      case RouteAdvertisement(ranges) =>
        var value := EncodeAddressRanges(ranges);
        out := EncodeRaw(ROUTE_ADVERTISEMENT, value, buf);
      case Unknown(kind, value) =>
        out := EncodeRaw(kind, value, buf);
    }
  }

  /** The frame of `[0] + payload`, written without building that sequence first. */
  method EncodeDatagramContextZero(payload: Bytes, buf: Bytes) returns (out: Bytes)
    requires |payload| < Varint.MAX_VALUE
    ensures out == buf + FrameBytes(Datagram([0] + payload))
    ensures |out| <= |buf| + |payload| + 10
  {
    var r;
    r, out := Varint.EncodeToVec(DATAGRAM, buf);
    r, out := Varint.EncodeToVec(|payload| + 1, out);
    out := out + [0];
    out := out + payload;
    assert out == buf + FrameBytes(Datagram([0] + payload));
  }
}
