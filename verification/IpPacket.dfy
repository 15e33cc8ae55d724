/**
  The routing-relevant fields of raw IPv4 and IPv6 packets, and the check that no source
  route or routing header can divert a packet past a destination filter.
 */
module IpPacket {
  import opened Base
  import opened BigEndian
  import opened IpAddresses

  datatype Info = Info(version: nat, src: IpAddr, dst: IpAddr, protocol: Byte, totalLen: nat)

  datatype ParseError = TooShort | UnknownVersion(version: nat) | InvalidIhl(ihl: nat) | Truncated

  const U16_MAX: nat := 0xFFFF

  function U16(high: Byte, low: Byte): nat {
    high * 256 + low
  }

  // ----- parsing -----

  function Parse(packet: Bytes): Result<Info, ParseError> {
    if packet == [] then Err(TooShort) else
    var version := packet[0] / 16;
    if version == 4 then ParseV4(packet)
    else if version == 6 then ParseV6(packet)
    else Err(UnknownVersion(version))
  }

  function ParseV4(packet: Bytes): Result<Info, ParseError> {
    if |packet| < 20 then Err(TooShort) else
    var ihl := packet[0] % 16;
    if ihl < 5 then Err(InvalidIhl(ihl))
    else if |packet| < ihl * 4 then Err(Truncated)
    else Ok(Info(4, Ipv4([packet[12], packet[13], packet[14], packet[15]]),
                 Ipv4([packet[16], packet[17], packet[18], packet[19]]),
                 packet[9], U16(packet[2], packet[3])))
  }

  function ParseV6(packet: Bytes): Result<Info, ParseError> {
    if |packet| < 40 then Err(TooShort) else
    var total := 40 + U16(packet[4], packet[5]);
    Ok(Info(6, Ipv6(packet[8..24]), Ipv6(packet[24..40]),
            packet[6], if total <= U16_MAX then total else U16_MAX))
  }

  function AddrAt(packet: Bytes, v4Offset: nat, v6Offset: nat): Result<IpAddr, ParseError>
    requires v4Offset + 4 <= 20 && v6Offset + 16 <= 40
  {
    if packet == [] then Err(TooShort) else
    var version := packet[0] / 16;
    if version == 4 then
      if |packet| < 20 then Err(TooShort) else
      var ihl := packet[0] % 16;
      if ihl < 5 then Err(InvalidIhl(ihl))
      else if |packet| < ihl * 4 then Err(Truncated)
      else Ok(Ipv4(packet[v4Offset..v4Offset + 4]))
    else if version == 6 then
      if |packet| < 40 then Err(TooShort) else Ok(Ipv6(packet[v6Offset..v6Offset + 16]))
    else Err(UnknownVersion(version))
  }

  function SrcAddr(packet: Bytes): Result<IpAddr, ParseError> {
    AddrAt(packet, 12, 8)
  }

  function DstAddr(packet: Bytes): Result<IpAddr, ParseError> {
    AddrAt(packet, 16, 24)
  }

  /** The direct readers give the parsed addresses, or the very error the parser gives. */
  lemma ReadersAgreeWithParse(packet: Bytes)
    ensures match Parse(packet)
            case Ok(info) => SrcAddr(packet) == Ok(info.src) && DstAddr(packet) == Ok(info.dst)
            case Err(e) => SrcAddr(packet) == Err(e) && DstAddr(packet) == Err(e)
  {
    if |packet| >= 20 {
      assert packet[12..16] == [packet[12], packet[13], packet[14], packet[15]];
      assert packet[16..20] == [packet[16], packet[17], packet[18], packet[19]];
    }
  }

  /** Parsed addresses are the packet's own octets, of the family its version says. */
  lemma ParsedAddressesAreOctets(packet: Bytes)
    requires Parse(packet).Ok?
    ensures var info := Parse(packet).value;
            && |packet| >= 20
            && info.version == packet[0] / 16
            && (info.version == 4 ==> info.src.Octets() == packet[12..16] && info.dst.Octets() == packet[16..20])
            && (info.version == 6 ==> |packet| >= 40 &&
                                      info.src.Octets() == packet[8..24] && info.dst.Octets() == packet[24..40])
  {
    if packet[0] / 16 == 4 {
      assert packet[12..16] == [packet[12], packet[13], packet[14], packet[15]];
      assert packet[16..20] == [packet[16], packet[17], packet[18], packet[19]];
      AddressRoundTrip(packet[12..16]);
      AddressRoundTrip(packet[16..20]);
    } else {
      AddressRoundTrip(packet[8..24]);
      AddressRoundTrip(packet[24..40]);
    }
  }

  /** A packet is parsed exactly if its version is known and its header is whole. */
  lemma ParsesExactly(packet: Bytes)
    ensures Parse(packet).Ok? <==>
            packet != [] &&
            ((packet[0] / 16 == 4 && 20 <= (packet[0] % 16) * 4 <= |packet|) ||
             (packet[0] / 16 == 6 && 40 <= |packet|))
    ensures Parse(packet) == Err(TooShort) <==>
            || packet == []
            || (packet[0] / 16 == 4 && |packet| < 20)
            || (packet[0] / 16 == 6 && |packet| < 40)
    ensures Parse(packet) == Err(Truncated) <==>
            |packet| >= 20 && packet[0] / 16 == 4 && packet[0] % 16 >= 5 && |packet| < (packet[0] % 16) * 4
    ensures forall v :: Parse(packet) == Err(UnknownVersion(v)) <==>
                          packet != [] && packet[0] / 16 == v && v != 4 && v != 6
    ensures forall i :: Parse(packet) == Err(InvalidIhl(i)) <==>
                          |packet| >= 20 && packet[0] / 16 == 4 && packet[0] % 16 == i < 5
  {
  }

  lemma U16IsBigEndian(packet: Bytes, at: nat)
    requires at + 2 <= |packet|
    ensures FromBe(packet[at..at + 2]) == U16(packet[at], packet[at + 1])
  {
    assert packet[at..at + 2] == [packet[at], packet[at + 1]];
    FromBe2(packet[at], packet[at + 1]);
  }

  /** Protocol and length are the packet's own fields; the IPv6 length counts the fixed header and saturates. */
  lemma ParsedFieldsAreOctets(packet: Bytes)
    requires Parse(packet).Ok?
    ensures var info := Parse(packet).value;
            && |packet| >= 20
            && (packet[0] / 16 == 4 ==> info.protocol == packet[9] && info.totalLen == FromBe(packet[2..4]))
            && (packet[0] / 16 == 6 ==>
                  && info.protocol == packet[6]
                  && info.totalLen == var n := 40 + FromBe(packet[4..6]); if n < 65536 then n else 65535)
  {
    U16IsBigEndian(packet, 2);
    U16IsBigEndian(packet, 4);
  }

  // ----- IPv4 option lists -----

  const END_OF_OPTIONS: Byte := 0
  const NO_OPERATION: Byte := 1
  const LOOSE_SOURCE_ROUTE: Byte := 131
  const STRICT_SOURCE_ROUTE: Byte := 137

  /** One option spans `at` up to `next`, inside the header. */
  ghost predicate OptionSpan(packet: Bytes, headerLen: nat, at: nat, next: nat)
    requires headerLen <= |packet|
  {
    && at < headerLen && packet[at] != END_OF_OPTIONS
    && if packet[at] == NO_OPERATION then next == at + 1
       else at + 1 < headerLen && packet[at + 1] >= 2 && next == at + packet[at + 1] <= headerLen
  }

  ghost predicate OptionsEnd(packet: Bytes, headerLen: nat, at: nat)
    requires headerLen <= |packet|
  {
    at == headerLen || (at < headerLen && packet[at] == END_OF_OPTIONS)
  }

  /** The option list from `at` on, given by where each option starts and where the list ends. */
  ghost predicate OptionList(packet: Bytes, headerLen: nat, starts: seq<nat>)
    requires headerLen <= |packet|
  {
    && starts != []
    && (forall i :: 0 <= i < |starts| - 1 ==> OptionSpan(packet, headerLen, starts[i], starts[i + 1]))
    && OptionsEnd(packet, headerLen, starts[|starts| - 1])
  }

  ghost predicate NoSourceRoute(packet: Bytes, headerLen: nat, starts: seq<nat>)
    requires headerLen <= |packet| && OptionList(packet, headerLen, starts)
  {
    forall i :: 0 <= i < |starts| - 1 ==>
      OptionSpan(packet, headerLen, starts[i], starts[i + 1]) &&
      packet[starts[i]] != LOOSE_SOURCE_ROUTE && packet[starts[i]] != STRICT_SOURCE_ROUTE
  }

  ghost predicate SafeOptions(packet: Bytes, headerLen: nat, at: nat)
    requires headerLen <= |packet|
  {
    exists starts ::
      OptionList(packet, headerLen, starts) && starts[0] == at && NoSourceRoute(packet, headerLen, starts)
  }

  /** The option list is safe from `at` if its first option is harmless and the rest is safe. */
  lemma SafeStep(packet: Bytes, headerLen: nat, at: nat, next: nat)
    requires headerLen <= |packet| && OptionSpan(packet, headerLen, at, next)
    requires packet[at] != LOOSE_SOURCE_ROUTE && packet[at] != STRICT_SOURCE_ROUTE
    ensures SafeOptions(packet, headerLen, at) <==> SafeOptions(packet, headerLen, next)
  {
    if SafeOptions(packet, headerLen, at) {
      var starts :|
        OptionList(packet, headerLen, starts) && starts[0] == at && NoSourceRoute(packet, headerLen, starts);
      assert |starts| > 1;
      assert OptionSpan(packet, headerLen, starts[0], starts[1]);
      TailIsList(packet, headerLen, starts);
    }
    if SafeOptions(packet, headerLen, next) {
      var rest :| OptionList(packet, headerLen, rest) && rest[0] == next && NoSourceRoute(packet, headerLen, rest);
      ConsIsList(packet, headerLen, at, rest);
    }
  }

  lemma RestIsList(packet: Bytes, headerLen: nat, starts: seq<nat>)
    requires headerLen <= |packet| && |starts| > 1 && OptionList(packet, headerLen, starts)
    ensures OptionList(packet, headerLen, starts[1..])
  {
    var rest := starts[1..];
    forall i | 0 <= i < |rest| - 1 ensures OptionSpan(packet, headerLen, rest[i], rest[i + 1]) {
      assert OptionSpan(packet, headerLen, starts[i + 1], starts[i + 2]);
    }
  }

  lemma TailIsList(packet: Bytes, headerLen: nat, starts: seq<nat>)
    requires headerLen <= |packet| && |starts| > 1
    requires OptionList(packet, headerLen, starts) && NoSourceRoute(packet, headerLen, starts)
    ensures OptionList(packet, headerLen, starts[1..]) && NoSourceRoute(packet, headerLen, starts[1..])
  {
    RestIsList(packet, headerLen, starts);
    var rest := starts[1..];
    forall i | 0 <= i < |rest| - 1
      ensures OptionSpan(packet, headerLen, rest[i], rest[i + 1])
      ensures packet[rest[i]] != LOOSE_SOURCE_ROUTE && packet[rest[i]] != STRICT_SOURCE_ROUTE
    {
      assert OptionSpan(packet, headerLen, starts[i + 1], starts[i + 2]);
    }
  }

  lemma ConsIsList(packet: Bytes, headerLen: nat, at: nat, rest: seq<nat>)
    requires headerLen <= |packet| && OptionList(packet, headerLen, rest) && NoSourceRoute(packet, headerLen, rest)
    requires OptionSpan(packet, headerLen, at, rest[0])
    requires packet[at] != LOOSE_SOURCE_ROUTE && packet[at] != STRICT_SOURCE_ROUTE
    ensures OptionList(packet, headerLen, [at] + rest) && NoSourceRoute(packet, headerLen, [at] + rest)
  {
    var starts := [at] + rest;
    forall i | 0 <= i < |starts| - 1
      ensures OptionSpan(packet, headerLen, starts[i], starts[i + 1])
      ensures packet[starts[i]] != LOOSE_SOURCE_ROUTE && packet[starts[i]] != STRICT_SOURCE_ROUTE
    {
      if i > 0 {
        assert OptionSpan(packet, headerLen, rest[i - 1], rest[i]);
      }
    }
  }

  lemma SafeEnd(packet: Bytes, headerLen: nat, at: nat)
    requires headerLen <= |packet| && OptionsEnd(packet, headerLen, at)
    ensures SafeOptions(packet, headerLen, at)
  {
    assert OptionList(packet, headerLen, [at]) && NoSourceRoute(packet, headerLen, [at]);
  }

  /** A safe list ends here or starts with a well-formed option that is not a source route. */
  lemma SafeFirst(packet: Bytes, headerLen: nat, at: nat)
    requires headerLen <= |packet|
    ensures SafeOptions(packet, headerLen, at) ==>
              || OptionsEnd(packet, headerLen, at)
              || exists next :: OptionSpan(packet, headerLen, at, next) &&
                                packet[at] != LOOSE_SOURCE_ROUTE && packet[at] != STRICT_SOURCE_ROUTE
  {
    if SafeOptions(packet, headerLen, at) {
      var starts :|
        OptionList(packet, headerLen, starts) && starts[0] == at && NoSourceRoute(packet, headerLen, starts);
      if |starts| > 1 {
        assert OptionSpan(packet, headerLen, starts[0], starts[1]);
      }
    }
  }

  /** A header has at most one reading as an option list. */
  lemma {:induction false} OneOptionList(packet: Bytes, headerLen: nat, a: seq<nat>, b: seq<nat>)
    requires headerLen <= |packet| && OptionList(packet, headerLen, a) && OptionList(packet, headerLen, b)
    requires a[0] == b[0]
    ensures a == b
  {
    ListEndsOnce(packet, headerLen, a);
    ListEndsOnce(packet, headerLen, b);
    if |a| > 1 {
      assert OptionSpan(packet, headerLen, a[0], a[1]) && OptionSpan(packet, headerLen, b[0], b[1]);
      RestIsList(packet, headerLen, a);
      RestIsList(packet, headerLen, b);
      OneOptionList(packet, headerLen, a[1..], b[1..]);
      assert a == [a[0]] + a[1..] && b == [b[0]] + b[1..];
    }
  }

  lemma ListEndsOnce(packet: Bytes, headerLen: nat, starts: seq<nat>)
    requires headerLen <= |packet| && OptionList(packet, headerLen, starts)
    ensures |starts| > 1 <==> !OptionsEnd(packet, headerLen, starts[0])
  {
    if |starts| > 1 {
      assert OptionSpan(packet, headerLen, starts[0], starts[1]);
    }
  }

  /** An option as it is written: a single octet, or its type, its length and its data. */
  datatype Opt = Nop | Opt(kind: Byte, data: Bytes) {
    ghost predicate Valid() {
      Opt? ==> kind > 1 && |data| < 254
    }

    function Written(): (s: Bytes)
      ensures |s| > 0
    {
      if Nop? then [1] else [kind, if |data| < 254 then 2 + |data| else 255] + data
    }

    predicate Diverts() {
      Opt? && (kind == 131 || kind == 137)
    }
  }

  ghost predicate AllValid(opts: seq<Opt>) {
    forall o :: o in opts ==> o.Valid()
  }

  function OptionBytes(opts: seq<Opt>): Bytes {
    if opts == [] then [] else opts[0].Written() + OptionBytes(opts[1..])
  }

  ghost predicate Padding(pad: Bytes) {
    pad == [] || pad[0] == 0
  }

  lemma WrittenSpans(before: Bytes, o: Opt, rest: Bytes, headerLen: nat)
    requires o.Valid() && |before| + |o.Written()| <= headerLen <= |before + o.Written() + rest|
    ensures OptionSpan(before + o.Written() + rest, headerLen, |before|, |before| + |o.Written()|)
    ensures (before + o.Written() + rest)[|before|] == o.Written()[0]
  {
    var packet := before + o.Written() + rest;
    assert packet[|before|] == o.Written()[0];
    if o.Opt? {
      assert packet[|before| + 1] == o.Written()[1];
    }
  }

  lemma WrittenFirst(packet: Bytes, before: Bytes, o: Opt, rest: Bytes, headerLen: nat)
    requires o.Valid() && packet == before + o.Written() + rest
    requires |before| + |o.Written()| <= headerLen <= |packet|
    ensures o.Diverts() ==> !SafeOptions(packet, headerLen, |before|)
    ensures !o.Diverts() ==>
              (SafeOptions(packet, headerLen, |before|)
               <==> SafeOptions(packet, headerLen, |before| + |o.Written()|))
  {
    WrittenSpans(before, o, rest, headerLen);
    if o.Diverts() {
      SafeFirst(packet, headerLen, |before|);
    } else {
      SafeStep(packet, headerLen, |before|, |before| + |o.Written()|);
    }
  }

  lemma Associate(a: Bytes, b: Bytes, c: Bytes, d: Bytes)
    ensures a + (b + c) + d == a + b + c + d && a + (b + c) + d == a + b + (c + d)
  {
  }

  /** A header written from a list of options is safe exactly if none of them is a source route. */
  lemma {:induction false} WrittenOptionsSafe(packet: Bytes, before: Bytes, opts: seq<Opt>, rest: Bytes, headerLen: nat)
    requires AllValid(opts) && packet == before + OptionBytes(opts) + rest
    requires |before + OptionBytes(opts)| <= headerLen <= |packet|
    requires Padding(packet[|before + OptionBytes(opts)|..headerLen])
    ensures SafeOptions(packet, headerLen, |before|) <==> forall o :: o in opts ==> !o.Diverts()
    decreases |opts|
  {
    if opts == [] {
      SafeEnd(packet, headerLen, |before|);
    } else {
      Associate(before, opts[0].Written(), OptionBytes(opts[1..]), rest);
      assert opts == [opts[0]] + opts[1..];
      WrittenFirst(packet, before, opts[0], OptionBytes(opts[1..]) + rest, headerLen);
      WrittenOptionsSafe(packet, before + opts[0].Written(), opts[1..], rest, headerLen);
    }
  }

  method SafeV4(packet: Bytes) returns (safe: bool)
    requires packet != []
    ensures safe <==> var headerLen := (packet[0] % 16) * 4;
                      20 <= headerLen <= |packet| && SafeOptions(packet, headerLen, 20)
  {
    var headerLen := (packet[0] % 16) * 4;
    if headerLen < 20 || |packet| < headerLen {
      return false;
    }
    var offset := 20;
    while offset < headerLen
      invariant 20 <= offset <= headerLen
      invariant SafeOptions(packet, headerLen, 20) <==> SafeOptions(packet, headerLen, offset)
    {
      var kind := packet[offset];
      if kind == END_OF_OPTIONS {
        break;
      }
      if kind == NO_OPERATION {
        SafeStep(packet, headerLen, offset, offset + 1);
        offset := offset + 1;
        continue;
      }
      if kind == LOOSE_SOURCE_ROUTE || kind == STRICT_SOURCE_ROUTE {
        SafeFirst(packet, headerLen, offset);
        return false;
      }
      if offset + 1 >= |packet| {
        SafeFirst(packet, headerLen, offset);
        return false;
      }
      var length := packet[offset + 1];
      if length < 2 || offset + length > headerLen {
        SafeFirst(packet, headerLen, offset);
        return false;
      }
      SafeStep(packet, headerLen, offset, offset + length);
      offset := offset + length;
    }
    SafeEnd(packet, headerLen, offset);
    return true;
  }

  // ----- IPv6 header chains -----

  const HOP_BY_HOP: Byte := 0
  const ROUTING: Byte := 43
  const FRAGMENT: Byte := 44
  const AUTHENTICATION: Byte := 51
  const DESTINATION_OPTIONS: Byte := 60

  /** A header of type `kind` that starts at `at`. */
  datatype Link = Link(kind: Byte, at: nat)

  predicate Extension(kind: Byte) {
    kind == HOP_BY_HOP || kind == DESTINATION_OPTIONS || kind == FRAGMENT || kind == AUTHENTICATION || kind == ROUTING
  }

  /** A fragment other than the first, with a fragment offset: what follows its header is not a header. */
  ghost predicate LaterFragment(packet: Bytes, link: Link) {
    && link.kind == FRAGMENT && link.at + 8 <= |packet|
    && (packet[link.at + 2] != 0 || packet[link.at + 3] >= 8)
  }

  /** The length of an extension header, in the units its type counts in. */
  ghost predicate Spans(kind: Byte, field: Byte, n: nat) {
    if kind == FRAGMENT then n == 8
    else if kind == AUTHENTICATION then n == 4 * field + 8
    else n == 8 * field + 8
  }

  /** `next` is the header announced by the complete extension header `link`. */
  ghost predicate Follows(packet: Bytes, link: Link, next: Link) {
    && Extension(link.kind) && link.at + 8 <= |packet| && !LaterFragment(packet, link)
    && next.kind == packet[link.at] && link.at <= next.at <= |packet|
    && Spans(link.kind, packet[link.at + 1], next.at - link.at)
  }

  /** A chain ends at an upper-layer header or at a fragment other than the first. */
  ghost predicate ChainEnd(packet: Bytes, link: Link) {
    !Extension(link.kind) || LaterFragment(packet, link)
  }

  ghost predicate Chain(packet: Bytes, links: seq<Link>) {
    && links != []
    && (forall i :: 0 <= i < |links| - 1 ==> Follows(packet, links[i], links[i + 1]))
    && ChainEnd(packet, links[|links| - 1])
  }

  ghost predicate NoRouting(links: seq<Link>) {
    forall link :: link in links ==> link.kind != ROUTING
  }

  ghost predicate SafeChain(packet: Bytes, first: Link) {
    exists links :: Chain(packet, links) && links[0] == first && NoRouting(links)
  }

  lemma ChainStep(packet: Bytes, link: Link, next: Link)
    requires Follows(packet, link, next) && link.kind != ROUTING
    ensures SafeChain(packet, link) <==> SafeChain(packet, next)
  {
    if SafeChain(packet, link) {
      var links :| Chain(packet, links) && links[0] == link && NoRouting(links);
      ChainTail(packet, links);
    }
    if SafeChain(packet, next) {
      var rest :| Chain(packet, rest) && rest[0] == next && NoRouting(rest);
      ChainCons(packet, link, rest);
    }
  }

  lemma ChainTail(packet: Bytes, links: seq<Link>)
    requires Chain(packet, links) && !ChainEnd(packet, links[0])
    ensures |links| > 1 && Chain(packet, links[1..]) && Follows(packet, links[0], links[1])
  {
    var rest := links[1..];
    forall i | 0 <= i < |rest| - 1 ensures Follows(packet, rest[i], rest[i + 1]) {
      assert Follows(packet, links[i + 1], links[i + 2]);
    }
  }

  /** A packet has at most one reading as a header chain. */
  lemma {:induction false} OneChain(packet: Bytes, a: seq<Link>, b: seq<Link>)
    requires Chain(packet, a) && Chain(packet, b) && a[0] == b[0]
    ensures a == b
  {
    EndsOnce(packet, a);
    EndsOnce(packet, b);
    if |a| > 1 {
      ChainTail(packet, a);
      ChainTail(packet, b);
      OneChain(packet, a[1..], b[1..]);
      assert a == [a[0]] + a[1..] && b == [b[0]] + b[1..];
    }
  }

  lemma EndsOnce(packet: Bytes, links: seq<Link>)
    requires Chain(packet, links)
    ensures |links| > 1 <==> !ChainEnd(packet, links[0])
  {
    if |links| > 1 {
      assert Follows(packet, links[0], links[1]);
    }
  }

  lemma ChainCons(packet: Bytes, link: Link, rest: seq<Link>)
    requires Chain(packet, rest) && NoRouting(rest) && Follows(packet, link, rest[0]) && link.kind != ROUTING
    ensures Chain(packet, [link] + rest) && NoRouting([link] + rest)
  {
    var links := [link] + rest;
    forall i | 0 <= i < |links| - 1 ensures Follows(packet, links[i], links[i + 1]) {
      if i > 0 {
        assert Follows(packet, rest[i - 1], rest[i]);
      }
    }
  }

  lemma ChainStops(packet: Bytes, link: Link)
    requires ChainEnd(packet, link) && link.kind != ROUTING
    ensures SafeChain(packet, link)
  {
    assert Chain(packet, [link]) && NoRouting([link]);
  }

  /** A safe chain does not start with a routing header, and ends here or has a next header. */
  lemma ChainFirst(packet: Bytes, link: Link)
    ensures SafeChain(packet, link) ==>
              link.kind != ROUTING && (ChainEnd(packet, link) || exists next :: Follows(packet, link, next))
  {
    if SafeChain(packet, link) {
      var links :| Chain(packet, links) && links[0] == link && NoRouting(links);
      if !ChainEnd(packet, link) {
        ChainTail(packet, links);
      }
    }
  }

  /** An extension header as it is written, without the type of the header behind it. */
  datatype Ext = Ext(kind: Byte, field: Byte, body: Bytes) {
    /**
      The types of section 4.1 of RFC 8200 and their length fields: eight-octet units beyond the
      first, four-octet units beyond the first two for the authentication header of RFC 4302. A
      fragment is the first of its packet.
     */
    ghost predicate Valid() {
      match kind
      case 0 | 43 | 60 => 2 + |body| == 8 * (field + 1)
      case 44 => |body| == 6 && body[0] == 0 && body[1] < 8
      case 51 => 2 + |body| == 4 * (field + 2)
      case _ => false
    }
  }

  /** A chain is over at an upper-layer header, or at the header of a fragment other than the first. */
  ghost predicate Ends(upper: Byte, payload: Bytes) {
    upper !in {0, 43, 44, 51, 60} || (upper == 44 && |payload| >= 8 && FromBe(payload[2..4]) >= 8)
  }

  function FirstKind(exts: seq<Ext>, upper: Byte): Byte {
    if exts == [] then upper else exts[0].kind
  }

  /** Extension headers one behind the other, each naming the next. */
  function ChainBytes(exts: seq<Ext>, upper: Byte): Bytes {
    if exts == [] then []
    else [FirstKind(exts[1..], upper), exts[0].field] + exts[0].body + ChainBytes(exts[1..], upper)
  }

  lemma WrittenFollows(before: Bytes, e: Ext, kind: Byte, rest: Bytes)
    requires e.Valid()
    ensures var head := [kind, e.field] + e.body;
            Follows(before + head + rest, Link(e.kind, |before|), Link(kind, |before + head|))
  {
    var head := [kind, e.field] + e.body;
    var packet := before + head + rest;
    assert forall i :: 0 <= i < |head| ==> packet[|before| + i] == head[i];
    assert |head| >= 8;
    if e.kind == FRAGMENT {
      assert head[2] == e.body[0] && head[3] == e.body[1];
      assert packet[|before| + 2] == head[2] && packet[|before| + 3] == head[3];
    }
    assert packet[|before| + 0] == head[0] && packet[|before| + 1] == head[1];
  }

  lemma EndsChain(packet: Bytes, before: Bytes, upper: Byte, payload: Bytes)
    requires Ends(upper, payload) && packet == before + [] + payload
    ensures ChainEnd(packet, Link(upper, |before|)) && upper != ROUTING
  {
    if upper == FRAGMENT {
      U16IsBigEndian(payload, 2);
      assert packet[|before| + 2] == payload[2] && packet[|before| + 3] == payload[3];
    }
  }

  /** A chain written from a list of headers is safe exactly if none of them is a routing header. */
  lemma {:induction false} WrittenChainSafe(before: Bytes, exts: seq<Ext>, upper: Byte, payload: Bytes)
    requires Ends(upper, payload) && forall e :: e in exts ==> e.Valid()
    ensures SafeChain(before + ChainBytes(exts, upper) + payload, Link(FirstKind(exts, upper), |before|))
            <==> forall e :: e in exts ==> e.kind != ROUTING
    decreases |exts|
  {
    var packet := before + ChainBytes(exts, upper) + payload;
    var link := Link(FirstKind(exts, upper), |before|);
    if exts == [] {
      EndsChain(packet, before, upper, payload);
      ChainStops(packet, link);
    } else {
      var e, rest := exts[0], exts[1..];
      assert e in exts;
      var head := [FirstKind(rest, upper), e.field] + e.body;
      var next := before + head;
      assert packet == next + ChainBytes(rest, upper) + payload;
      assert packet == before + head + (ChainBytes(rest, upper) + payload);
      assert forall x :: x in exts <==> x == e || x in rest;
      if e.kind == ROUTING {
        ChainFirst(packet, link);
      } else {
        WrittenFollows(before, e, FirstKind(rest, upper), ChainBytes(rest, upper) + payload);
        ChainStep(packet, link, Link(FirstKind(rest, upper), |next|));
        WrittenChainSafe(next, rest, upper, payload);
      }
    }
  }

  method SafeV6(packet: Bytes) returns (safe: bool)
    requires |packet| >= 40
    ensures safe <==> SafeChain(packet, Link(packet[6], 40))
  {
    var next := packet[6];
    var offset := 40;
    while true
      invariant 40 <= offset <= |packet|
      invariant SafeChain(packet, Link(packet[6], 40)) <==> SafeChain(packet, Link(next, offset))
      decreases |packet| - offset
    {
      var link := Link(next, offset);
      ChainFirst(packet, link);
      if next == ROUTING {
        return false;
      }
      if !(next == HOP_BY_HOP || next == DESTINATION_OPTIONS || next == FRAGMENT || next == AUTHENTICATION) {
        ChainStops(packet, link);
        return true;
      }
      if |packet| - offset < 8 {
        return false;
      }
      if next == FRAGMENT && U16(packet[offset + 2], packet[offset + 3]) / 8 != 0 {
        ChainStops(packet, link);
        return true;
      }
      var field: nat := packet[offset + 1];
      var length := if next == FRAGMENT then 8
                    else if next == AUTHENTICATION then (field + 2) * 4
                    else (field + 1) * 8;
      if length > |packet| - offset {
        return false;
      }
      ChainStep(packet, link, Link(packet[offset], offset + length));
      next, offset := packet[offset], offset + length;
    }
  }

  // ----- the verdict -----

  /**
    A packet's routing is safe if its IPv4 option list is well formed with no source route, or
    its IPv6 header chain is well formed with no routing header.
   */
  ghost predicate SafeRouting(packet: Bytes) {
    && packet != []
    && var version := packet[0] / 16;
       var headerLen := (packet[0] % 16) * 4;
       || (version == 4 && 20 <= headerLen <= |packet| && SafeOptions(packet, headerLen, 20))
       || (version == 6 && 40 <= |packet| && SafeChain(packet, Link(packet[6], 40)))
  }

  /** An IPv4 packet written with these options is safe exactly if none of them is a source route. */
  lemma WrittenV4Safe(header: Bytes, opts: seq<Opt>, pad: Bytes, payload: Bytes)
    requires |header| == 20 && AllValid(opts) && Padding(pad)
    requires header[0] / 16 == 4 && (header[0] % 16) * 4 == |header + OptionBytes(opts) + pad|
    ensures SafeRouting(header + OptionBytes(opts) + (pad + payload)) <==> forall o :: o in opts ==> !o.Diverts()
  {
    var packet := header + OptionBytes(opts) + (pad + payload);
    var from, end := |header + OptionBytes(opts)|, |header + OptionBytes(opts) + pad|;
    assert packet[0] == header[0] && packet[from..end] == pad;
    WrittenOptionsSafe(packet, header, opts, pad + payload, end);
  }

  /** An IPv6 packet written with these headers is safe exactly if none of them is a routing header. */
  lemma WrittenV6Safe(header: Bytes, exts: seq<Ext>, upper: Byte, payload: Bytes)
    requires |header| == 40 && header[0] / 16 == 6 && header[6] == FirstKind(exts, upper)
    requires Ends(upper, payload) && forall e :: e in exts ==> e.Valid()
    ensures SafeRouting(header + ChainBytes(exts, upper) + payload) <==> forall e :: e in exts ==> e.kind != 43
  {
    var packet := header + ChainBytes(exts, upper) + payload;
    assert packet[0] == header[0] && packet[6] == header[6];
    WrittenChainSafe(header, exts, upper, payload);
  }

  method HasSafeRouting(packet: Bytes) returns (safe: bool)
    ensures safe <==> SafeRouting(packet)
    ensures safe ==> Parse(packet).Ok?
  {
    if packet == [] {
      return false;
    }
    var version := packet[0] / 16;
    if version == 4 {
      safe := SafeV4(packet);
    } else if version == 6 && |packet| >= 40 {
      safe := SafeV6(packet);
    } else {
      safe := false;
    }
  }

  /** Every packet that passes the check can be parsed and routed by its own addresses. */
  lemma SafeIsParsable(packet: Bytes)
    requires SafeRouting(packet)
    ensures Parse(packet).Ok? && SrcAddr(packet).Ok? && DstAddr(packet).Ok?
  {
    ReadersAgreeWithParse(packet);
  }
}
