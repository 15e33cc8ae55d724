/** IP addresses as the unsigned integers their octets spell. */
module IpAddresses {
  import opened Base
  import opened BigEndian

  type U32 = x: int | 0 <= x < 0x1_0000_0000
  type U128 = x: int | 0 <= x < 0x1_0000_0000_0000_0000_0000_0000_0000_0000

  datatype IpAddr = V4(v4: U32) | V6(v6: U128) {
    function Value(): (v: nat) {
      match this case V4(a) => a case V6(a) => a
    }

    /** The IP Version field of RFC 9484. */
    function Version(): (v: Byte) {
      if V4? then 4 else 6
    }

    /** Address width in bits. */
    function Width(): (w: nat) {
      if V4? then 32 else 128
    }

    function Octets(): (s: Bytes)
      ensures |s| == if V4? then 4 else 16
    {
      match this case V4(a) => ToBe(a, 4) case V6(a) => ToBe(a, 16)
    }
  }

  function Ipv4(octets: Bytes): (ip: IpAddr)
    requires |octets| == 4
    ensures ip.V4?
  {
    SmallPowers();
    V4(FromBe(octets))
  }

  function Ipv6(octets: Bytes): (ip: IpAddr)
    requires |octets| == 16
    ensures ip.V6?
  {
    SmallPowers();
    V6(FromBe(octets))
  }

  lemma OctetsRoundTrip(ip: IpAddr)
    ensures ip.V4? ==> Ipv4(ip.Octets()) == ip
    ensures ip.V6? ==> Ipv6(ip.Octets()) == ip
  {
    SmallPowers();
    match ip
    case V4(a) => FromTo(a, 4);
    case V6(a) => FromTo(a, 16);
  }

  lemma AddressRoundTrip(octets: Bytes)
    ensures |octets| == 4 ==> Ipv4(octets).Octets() == octets
    ensures |octets| == 16 ==> Ipv6(octets).Octets() == octets
  {
    ToFrom(octets);
  }
}
