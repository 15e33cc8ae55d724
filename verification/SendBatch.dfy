/**
  The reusable batch of outgoing QUIC packets: consecutive packets of one flow are
  coalesced into a message of equal segments with an optional short tail.
 */
module SendBatch {
  import opened Base
  import opened IpAddresses
  import opened StreamScan
  import opened Segments

  const MAX_BATCH_PACKETS: nat := 64
  const MAX_DATAGRAM_SIZE: nat := 65535

  /** The target system; everything below holds for both values. */
  const TARGET_IS_LINUX: bool

  /** The largest aggregate. */
  const UDP_MAX_GSO_PAYLOAD: nat := if TARGET_IS_LINUX then 65507 else MAX_DATAGRAM_SIZE

  datatype Endpoint = Endpoint(ip: IpAddr, port: nat)
  datatype Info = Info(from: Endpoint, to: Endpoint)
  datatype Packet = Packet(data: Bytes, info: Info)
  datatype Message = Message(data: Bytes, segmentSize: nat, segments: nat, info: Info)

  predicate CanAppend(m: Message, length: nat, info: Info, limit: nat) {
    && m.segmentSize > 0
    && m.segments < MAX_BATCH_PACKETS
    && m.info == info
    && IsMultiple(|m.data|, m.segmentSize)
    && length <= m.segmentSize
    && |m.data| + length <= limit
  }

  function Limit(limit: nat, length: nat): nat {
    var wanted := if limit < length then length else limit;
    if wanted < UDP_MAX_GSO_PAYLOAD then wanted else UDP_MAX_GSO_PAYLOAD
  }

  /** The active messages after one more packet. */
  function Pushed(active: seq<Message>, packet: Packet, gso: bool, limit: nat): seq<Message> {
    if gso && active != [] &&
       CanAppend(active[|active| - 1], |packet.data|, packet.info, Limit(limit, |packet.data|))
    then active[..|active| - 1] + [Extended(active[|active| - 1], packet.data)]
    else active + [Single(packet)]
  }

  function Single(packet: Packet): Message {
    Message(packet.data, |packet.data|, 1, packet.info)
  }

  function Extended(m: Message, data: Bytes): Message {
    m.(data := m.data + data, segments := m.segments + 1)
  }

  // ----- what a message stands for -----

  /** All parts but the last fill a segment or are empty; the last is no longer than a segment. */
  ghost predicate Shaped(parts: seq<Bytes>, size: nat) {
    && parts != [] && |parts[0]| == size && |parts[|parts| - 1]| <= size
    && (forall i :: 0 <= i < |parts| - 1 ==> |parts[i]| == size || |parts[i]| == 0)
    && (size == 0 ==> |parts| == 1)
  }

  /** A message carries these payloads, within the kernel's limits. */
  ghost predicate Carries(m: Message, parts: seq<Bytes>) {
    && Shaped(parts, m.segmentSize)
    && m.data == Concat(parts)
    && m.segments == |parts| <= 64
    && (|parts| > 1 ==> |m.data| <= if TARGET_IS_LINUX then 65507 else 65535)
  }

  ghost predicate AllCarry(active: seq<Message>, groups: seq<seq<Bytes>>) {
    && |active| == |groups|
    && (active == [] ||
        var n := |active| - 1;
        AllCarry(active[..n], groups[..n]) && Carries(active[n], groups[n]))
  }

  ghost function Labelled(parts: seq<Bytes>, info: Info): seq<Packet> {
    seq(|parts|, i requires 0 <= i < |parts| => Packet(parts[i], info))
  }

  /** The packets a batch stands for, in order. */
  ghost function Log(active: seq<Message>, groups: seq<seq<Bytes>>): seq<Packet>
    requires |active| == |groups|
  {
    if active == [] then [] else
    var n := |active| - 1;
    Log(active[..n], groups[..n]) + Labelled(groups[n], active[n].info)
  }

  lemma SingleCarries(packet: Packet)
    ensures Carries(Single(packet), [packet.data])
  {
    ConcatOne(packet.data);
  }

  lemma {:induction false} FullPartsDivide(parts: seq<Bytes>, size: nat)
    requires size > 0 && forall i :: 0 <= i < |parts| ==> |parts[i]| == size || |parts[i]| == 0
    ensures IsMultiple(|Concat(parts)|, size)
  {
    if parts != [] {
      FullPartsDivide(parts[1..], size);
      WholeParts(|Concat(parts[1..])|, |parts[0]|, size);
    }
  }

  /** The divisibility test tells a message that ends in a full (or empty) segment. */
  lemma DivisibleEndsFull(parts: seq<Bytes>, size: nat)
    requires size > 0 && Shaped(parts, size) && IsMultiple(|Concat(parts)|, size)
    ensures |parts[|parts| - 1]| == size || |parts[|parts| - 1]| == 0
  {
    var n := |parts| - 1;
    FullPartsDivide(parts[..n], size);
    assert parts == parts[..n] + [parts[n]];
    ConcatLast(parts[..n], parts[n]);
    WholeParts(|Concat(parts[..n])|, |parts[n]|, size);
  }

  lemma ExtendedCarries(m: Message, parts: seq<Bytes>, data: Bytes, info: Info, limit: nat)
    requires Carries(m, parts) && CanAppend(m, |data|, info, Limit(limit, |data|))
    ensures Carries(Extended(m, data), parts + [data])
  {
    DivisibleEndsFull(parts, m.segmentSize);
    ConcatLast(parts, data);
  }

  lemma LogLast(active: seq<Message>, groups: seq<seq<Bytes>>, m: Message, parts: seq<Bytes>)
    requires |active| == |groups|
    ensures Log(active + [m], groups + [parts]) == Log(active, groups) + Labelled(parts, m.info)
  {
    assert (active + [m])[..|active|] == active;
    assert (groups + [parts])[..|groups|] == groups;
  }

  lemma LabelledLast(parts: seq<Bytes>, data: Bytes, info: Info)
    ensures Labelled(parts + [data], info) == Labelled(parts, info) + [Packet(data, info)]
  {
  }

  lemma AllCarryLast(active: seq<Message>, groups: seq<seq<Bytes>>, m: Message, parts: seq<Bytes>)
    requires AllCarry(active, groups) && Carries(m, parts)
    ensures AllCarry(active + [m], groups + [parts])
  {
    assert (active + [m])[..|active|] == active && (groups + [parts])[..|groups|] == groups;
  }

  /** A push adds exactly its packet to what the batch stands for. */
  lemma PushCarries(active: seq<Message>, groups: seq<seq<Bytes>>, packet: Packet, gso: bool, limit: nat)
    returns (after: seq<seq<Bytes>>)
    requires AllCarry(active, groups)
    ensures AllCarry(Pushed(active, packet, gso, limit), after)
    ensures Log(Pushed(active, packet, gso, limit), after) == Log(active, groups) + [packet]
  {
    var n := |active| - 1;
    if gso && active != [] && CanAppend(active[n], |packet.data|, packet.info, Limit(limit, |packet.data|)) {
      var m, parts := active[n], groups[n];
      ExtendedCarries(m, parts, packet.data, packet.info, limit);
      after := groups[..n] + [parts + [packet.data]];
      AllCarryLast(active[..n], groups[..n], Extended(m, packet.data), parts + [packet.data]);
      LogLast(active[..n], groups[..n], Extended(m, packet.data), parts + [packet.data]);
      LabelledLast(parts, packet.data, m.info);
      AppendPacket(Log(active[..n], groups[..n]), Labelled(parts, m.info), packet);
    } else {
      SingleCarries(packet);
      after := groups + [[packet.data]];
      AllCarryLast(active, groups, Single(packet), [packet.data]);
      LogLast(active, groups, Single(packet), [packet.data]);
    }
  }

  /** The packet may share the last message: same flow, a valid message with it, and within the caller's limit. */
  ghost predicate Joins(m: Message, parts: seq<Bytes>, packet: Packet, limit: nat) {
    && m.info == packet.info
    && Carries(Message(m.data + packet.data, m.segmentSize, m.segments + 1, m.info), parts + [packet.data])
    && |m.data + packet.data| <= limit
  }

  lemma JoinsExactly(m: Message, parts: seq<Bytes>, packet: Packet, limit: nat)
    requires Carries(m, parts)
    ensures Joins(m, parts, packet, limit) <==>
            CanAppend(m, |packet.data|, packet.info, Limit(limit, |packet.data|))
  {
    var data := packet.data;
    if CanAppend(m, |data|, packet.info, Limit(limit, |data|)) {
      ExtendedCarries(m, parts, data, packet.info, limit);
    }
    if Joins(m, parts, packet, limit) {
      var n := |parts|;
      assert (parts + [data])[n] == data;
      forall i | 0 <= i < n ensures |parts[i]| == m.segmentSize || |parts[i]| == 0 {
        assert (parts + [data])[i] == parts[i];
      }
      FullPartsDivide(parts, m.segmentSize);
    }
  }

  /** A packet joins the last message exactly if offloading is on and it may; else it starts a message. */
  lemma PushDecides(active: seq<Message>, groups: seq<seq<Bytes>>, packet: Packet, gso: bool, limit: nat)
    requires AllCarry(active, groups)
    ensures var n := |active| - 1;
            var after := Pushed(active, packet, gso, limit);
            if gso && active != [] && Joins(active[n], groups[n], packet, limit) then
              && |after| == |active| && after[..n] == active[..n]
              && after[n] == active[n].(data := active[n].data + packet.data, segments := active[n].segments + 1)
            else after == active + [Message(packet.data, |packet.data|, 1, packet.info)]
  {
    if active != [] {
      JoinsExactly(active[|active| - 1], groups[|active| - 1], packet, limit);
    }
  }

  lemma AppendPacket(a: seq<Packet>, b: seq<Packet>, packet: Packet)
    ensures a + (b + [packet]) == (a + b) + [packet]
  {
  }

  // ----- undoing the batch -----

  datatype Datagram = Datagram(data: Bytes, to: Endpoint)

  function Addressed(chunks: seq<Bytes>, to: Endpoint): seq<Datagram> {
    seq(|chunks|, i requires 0 <= i < |chunks| => Datagram(chunks[i], to))
  }

  /** The datagrams of a batch cut at each message's segment size; cutting every 0 bytes is impossible. */
  function Cut(active: seq<Message>): Option<seq<Datagram>> {
    if active == [] then Some([]) else
    var m, before := active[|active| - 1], Cut(active[..|active| - 1]);
    if before.None? || m.segmentSize == 0 then None
    else Some(before.value + Addressed(Chunks(m.data, m.segmentSize), m.info.to))
  }

  ghost function Destined(packets: seq<Packet>): seq<Datagram> {
    seq(|packets|, i requires 0 <= i < |packets| => Datagram(packets[i].data, packets[i].info.to))
  }

  ghost predicate NoneEmpty(packets: seq<Packet>) {
    forall packet :: packet in packets ==> packet.data != []
  }

  lemma GroupCut(m: Message, parts: seq<Bytes>)
    requires Carries(m, parts) && NoneEmpty(Labelled(parts, m.info))
    ensures m.segmentSize > 0
    ensures Addressed(Chunks(m.data, m.segmentSize), m.info.to) == Destined(Labelled(parts, m.info))
  {
    forall i | 0 <= i < |parts| ensures parts[i] != [] {
      assert Labelled(parts, m.info)[i] in Labelled(parts, m.info);
    }
    ChunksInverse(parts, m.segmentSize);
  }

  lemma DestinedSplit(a: seq<Packet>, b: seq<Packet>)
    ensures Destined(a + b) == Destined(a) + Destined(b)
  {
  }

  /** Batches of non-empty packets come apart into exactly those packets. */
  lemma {:induction false} CutRestores(active: seq<Message>, groups: seq<seq<Bytes>>)
    requires AllCarry(active, groups) && NoneEmpty(Log(active, groups))
    ensures Cut(active) == Some(Destined(Log(active, groups)))
  {
    if active == [] {
      assert Destined([]) == [];
    } else {
      var n := |active| - 1;
      var before, last := Log(active[..n], groups[..n]), Labelled(groups[n], active[n].info);
      assert Log(active, groups) == before + last;
      CutRestores(active[..n], groups[..n]);
      GroupCut(active[n], groups[n]);
      DestinedSplit(before, last);
    }
  }

  lemma {:induction false} CutNeverEmpty(active: seq<Message>, d: Datagram)
    requires Cut(active).Some? && d in Cut(active).value
    ensures d.data != []
  {
    var n := |active| - 1;
    var last := Addressed(Chunks(active[n].data, active[n].segmentSize), active[n].info.to);
    if d in Cut(active[..n]).value {
      CutNeverEmpty(active[..n], d);
    } else {
      assert d in last;
      var i :| 0 <= i < |last| && last[i] == d;
      assert Chunks(active[n].data, active[n].segmentSize)[i] in Chunks(active[n].data, active[n].segmentSize);
    }
  }

  /** A batch can be cut back into its packets exactly if none of them was empty. */
  lemma CutRestoresExactly(active: seq<Message>, groups: seq<seq<Bytes>>)
    requires AllCarry(active, groups)
    ensures Cut(active) == Some(Destined(Log(active, groups))) <==> NoneEmpty(Log(active, groups))
  {
    if NoneEmpty(Log(active, groups)) {
      CutRestores(active, groups);
    } else if Cut(active) == Some(Destined(Log(active, groups))) {
      var packet :| packet in Log(active, groups) && packet.data == [];
      assert Datagram([], packet.info.to) in Destined(Log(active, groups)) by {
        var i :| 0 <= i < |Log(active, groups)| && Log(active, groups)[i] == packet;
        assert Destined(Log(active, groups))[i] == Datagram([], packet.info.to);
      }
      CutNeverEmpty(active, Datagram([], packet.info.to));
      assert false;
    }
  }

  /** An empty packet behind a full segment is coalesced, counted, and gone when the message is cut. */
  lemma EmptyPacketVanishes(packet: Packet, limit: nat)
    requires packet.data != [] && |packet.data| <= limit <= UDP_MAX_GSO_PAYLOAD
    ensures var m := Message(packet.data, |packet.data|, 2, packet.info);
            && Pushed([Single(packet)], Packet([], packet.info), true, limit) == [m]
            && Cut([m]) == Some([Datagram(packet.data, packet.info.to)])
  {
    var size := |packet.data|;
    assert IsMultiple(size, size);
    assert Extended(Single(packet), []).data == packet.data;
    var m := Message(packet.data, size, 2, packet.info);
    assert Chunks(packet.data, size) == [packet.data];
    assert [m][..0] == [] && Cut([]) == Some([]);
    assert [] + Addressed([packet.data], packet.info.to) == [Datagram(packet.data, packet.info.to)];
  }

  // ----- how far packets are coalesced -----

  ghost function PushedAll(packets: seq<Packet>, limit: nat): seq<Message> {
    if packets == [] then [] else
    Pushed(PushedAll(packets[..|packets| - 1], limit), packets[|packets| - 1], true, limit)
  }

  /** Full-sized packets of one flow share one message as long as the limits allow. */
  lemma {:induction false} OneFlowOneMessage(packets: seq<Packet>, size: nat, info: Info, limit: nat)
    requires 0 < |packets| <= MAX_BATCH_PACKETS && size > 0
    requires size * |packets| <= limit <= UDP_MAX_GSO_PAYLOAD
    requires forall packet :: packet in packets ==> |packet.data| == size && packet.info == info
    ensures |PushedAll(packets, limit)| == 1
    ensures var m := PushedAll(packets, limit)[0];
            m.segments == |packets| && m.segmentSize == size && |m.data| == size * |packets| && m.info == info
  {
    var n := |packets| - 1;
    var before := packets[..n];
    if n == 0 {
      assert before == [] && PushedAll(before, limit) == [];
    } else {
      assert size * |packets| == size * n + size;
      OneFlowOneMessage(before, size, info, limit);
      MultipleOf(n, size);
      assert packets[n] in packets;
      var m := PushedAll(before, limit)[0];
      assert CanAppend(m, size, info, Limit(limit, size));
    }
  }

  // ----- the batch object -----

  ghost function Volume(packets: seq<Packet>): nat {
    if packets == [] then 0 else Volume(packets[..|packets| - 1]) + |packets[|packets| - 1].data|
  }

  lemma VolumeLast(packets: seq<Packet>, packet: Packet)
    ensures Volume(packets + [packet]) == Volume(packets) + |packet.data|
  {
    assert (packets + [packet])[..|packets|] == packets;
  }

  class SendPacketBatch {
    /** Storage is kept across `Clear`; only the first `used` messages are active. */
    var messages: seq<Message>
    var used: nat
    var packetCount: nat
    var byteCount: nat
    /** Every packet pushed since the last `Clear`, and how they are grouped into messages. */
    ghost var log: seq<Packet>
    ghost var groups: seq<seq<Bytes>>
    ghost var active: seq<Message>

    ghost predicate Valid()
      reads this
    {
      && used <= |messages| && active == messages[..used]
      && AllCarry(active, groups)
      && log == Log(active, groups)
      && packetCount == |log|
      && byteCount == Volume(log)
    }

    constructor ()
      ensures Valid() && log == []
    {
      messages, used, packetCount, byteCount, log, groups, active := [], 0, 0, 0, [], [], [];
    }

    method Clear()
      requires Valid()
      modifies this
      ensures Valid() && log == [] && messages == old(messages)
    {
      used, packetCount, byteCount := 0, 0, 0;
      log, groups, active := [], [], [];
    }

    method IsEmpty() returns (empty: bool)
      requires Valid()
      ensures empty <==> log == []
    {
      empty := packetCount == 0;
    }

    method Push(packet: Packet, gso: bool, limit: nat)
      requires Valid()
      modifies this
      ensures Valid() && log == old(log) + [packet]
      ensures active == Pushed(old(active), packet, gso, limit)
    {
      ghost var next := Pushed(active, packet, gso, limit);
      Tally(packet);
      Record(packet, gso, limit, next);
      Store(packet, gso, limit, next);
    }

    method Tally(packet: Packet)
      requires packetCount == |log| && byteCount == Volume(log)
      modifies this`packetCount, this`byteCount, this`log
      ensures log == old(log) + [packet] && packetCount == |log| && byteCount == Volume(log)
    {
      VolumeLast(log, packet);
      packetCount, byteCount, log := packetCount + 1, byteCount + |packet.data|, log + [packet];
    }

    /** Keep the grouping in step with one more packet. */
    ghost method Record(packet: Packet, gso: bool, limit: nat, next: seq<Message>)
      requires AllCarry(active, groups) && next == Pushed(active, packet, gso, limit)
      modifies this`groups, this`active
      ensures active == next
      ensures AllCarry(active, groups) && Log(active, groups) == old(Log(active, groups)) + [packet]
    {
      groups := PushCarries(active, groups, packet, gso, limit);
      active := next;
    }

    /** Append to the last active message, or take the next slot, reusing its storage. */
    method Store(packet: Packet, gso: bool, limit: nat, ghost next: seq<Message>)
      requires used <= |messages| && next == Pushed(messages[..used], packet, gso, limit)
      modifies this`messages, this`used
      ensures used <= |messages| && messages[..used] == next
    {
      ghost var before := messages[..used];
      if gso && used > 0 {
        var last := messages[used - 1];
        if CanAppend(last, |packet.data|, packet.info, Limit(limit, |packet.data|)) {
          messages := messages[used - 1 := Extended(last, packet.data)];
          assert messages[..used] == before[..used - 1] + [Extended(last, packet.data)];
          return;
        }
      }
      if used == |messages| {
        messages := messages + [Single(packet)];
      } else {
        messages := messages[used := Single(packet)];
      }
      used := used + 1;
      assert messages[..used] == before + [Single(packet)];
    }

    /** The messages to hand to the kernel. */
    method Active() returns (messages: seq<Message>)
      requires Valid()
      ensures AllCarry(messages, groups) && Log(messages, groups) == log
      ensures Cut(messages) == Some(Destined(log)) <==> NoneEmpty(log)
    {
      messages := this.messages[..used];
      CutRestoresExactly(messages, groups);
    }
  }

  // ----- sending one datagram at a time -----

  /** How the fallback ends: all sent, a failed or short send, or a segment size of 0, which cannot be cut. */
  datatype Ending = AllSent | SendFailed | Uncuttable

  ghost predicate Cuttable(active: seq<Message>) {
    forall m :: m in active ==> m.segmentSize > 0
  }

  /** The datagrams up to the first message that cannot be cut. */
  ghost function Offered(active: seq<Message>): seq<Datagram> {
    if active == [] || active[0].segmentSize == 0 then []
    else Addressed(Chunks(active[0].data, active[0].segmentSize), active[0].info.to) + Offered(active[1..])
  }

  lemma {:induction false} OfferedLast(active: seq<Message>, m: Message)
    requires Cuttable(active) && m.segmentSize > 0
    ensures Offered(active + [m]) == Offered(active) + Addressed(Chunks(m.data, m.segmentSize), m.info.to)
  {
    if active == [] {
      assert active + [m] == [m] && [m][1..] == [];
    } else {
      var first, rest := active[0], active[1..];
      assert first in active && active + [m] == [first] + (rest + [m]);
      OfferedLast(rest, m);
      OfferedCons(first, rest);
      OfferedCons(first, rest + [m]);
      Regroup(Addressed(Chunks(first.data, first.segmentSize), first.info.to), Offered(rest),
              Addressed(Chunks(m.data, m.segmentSize), m.info.to));
    }
  }

  lemma OfferedCons(first: Message, rest: seq<Message>)
    requires first.segmentSize > 0
    ensures Offered([first] + rest) ==
            Addressed(Chunks(first.data, first.segmentSize), first.info.to) + Offered(rest)
  {
    assert ([first] + rest)[0] == first && ([first] + rest)[1..] == rest;
  }

  /** Where every message can be cut, the datagrams offered are the cut. */
  lemma {:induction false} CutIsOffered(active: seq<Message>)
    ensures Cut(active) == if Cuttable(active) then Some(Offered(active)) else None
  {
    if active != [] {
      var n := |active| - 1;
      var before, m := active[..n], active[n];
      assert active == before + [m];
      CutIsOffered(before);
      assert forall x :: x in active <==> x in before || x == m;
      if Cuttable(before) && m.segmentSize > 0 {
        OfferedLast(before, m);
      }
    }
  }

  ghost predicate AllWhole(whole: nat -> bool, from: nat, end: nat) {
    forall k :: from <= k < end ==> whole(k)
  }

  /** `sent` is `all` up to the first datagram that is not taken whole; sends are numbered from `base`. */
  ghost predicate SentUpto(all: seq<Datagram>, sent: seq<Datagram>, whole: nat -> bool, base: nat) {
    sent <= all && AllWhole(whole, base, base + |sent|) && (|sent| < |all| ==> !whole(base + |sent|))
  }

  method CutMessage(data: Bytes, size: nat) returns (chunks: seq<Bytes>)
    requires size > 0
    ensures chunks == Chunks(data, size)
  {
    chunks := [];
    var at := 0;
    while at < |data|
      invariant 0 <= at <= |data|
      invariant Chunks(data, size) == chunks + Chunks(data[at..], size)
    {
      var end := if at + size < |data| then at + size else |data|;
      ChunkStep(data, at, end, size);
      Regroup(chunks, [data[at..end]], Chunks(data[end..], size));
      chunks := chunks + [data[at..end]];
      at := end;
    }
    assert data[at..] == [];
  }

  /** Send the segments of one message until one is not taken whole. */
  method SendMessage(chunks: seq<Bytes>, to: Endpoint, whole: nat -> bool, base: nat)
    returns (sent: seq<Datagram>, ok: bool)
    ensures SentUpto(Addressed(chunks, to), sent, whole, base) && (ok <==> |sent| == |chunks|)
  {
    sent := [];
    for k := 0 to |chunks|
      invariant |sent| == k && sent <= Addressed(chunks, to) && AllWhole(whole, base, base + k)
    {
      if !whole(base + k) {
        return sent, false;
      }
      sent := sent + [Datagram(chunks[k], to)];
    }
    ok := true;
  }

  /**
    One send per segment, message by message, until a send fails or a message cannot be cut;
    `whole(k)` tells whether the k-th send takes its whole datagram.
   */
  method SendIndividually(active: seq<Message>, whole: nat -> bool) returns (sent: seq<Datagram>, ending: Ending)
    ensures SentUpto(Offered(active), sent, whole, 0)
    ensures ending == if |sent| < |Offered(active)| then SendFailed
                      else if Cuttable(active) then AllSent else Uncuttable
    ensures ending == AllSent ==> Cut(active) == Some(sent)
  {
    sent := [];
    var i := 0;
    assert active[0..] == active && active[..0] == [];
    while i < |active|
      invariant 0 <= i <= |active| && Cuttable(active[..i])
      invariant Offered(active) == sent + Offered(active[i..])
      invariant AllWhole(whole, 0, |sent|)
    {
      var m := active[i];
      OfferedStep(active, i);
      if m.segmentSize == 0 {
        assert m in active && Offered(active) == sent;
        return sent, Uncuttable;
      }
      var chunks := CutMessage(m.data, m.segmentSize);
      var more, ok := SendMessage(chunks, m.info.to, whole, |sent|);
      MoreSent(sent, more, Addressed(chunks, m.info.to), Offered(active[i + 1..]), whole);
      sent := sent + more;
      if !ok {
        return sent, SendFailed;
      }
      i := i + 1;
    }
    NoneLeft(active, sent);
    CutIsOffered(active);
    ending := AllSent;
  }

  lemma NoneLeft(active: seq<Message>, sent: seq<Datagram>)
    requires Offered(active) == sent + Offered(active[|active|..])
    ensures Offered(active) == sent && active[..|active|] == active
  {
    assert active[|active|..] == [];
  }

  lemma OfferedStep(active: seq<Message>, i: nat)
    requires i < |active|
    ensures Offered(active[i..]) ==
            if active[i].segmentSize == 0 then []
            else Addressed(Chunks(active[i].data, active[i].segmentSize), active[i].info.to) + Offered(active[i + 1..])
    ensures Cuttable(active[..i]) && active[i].segmentSize > 0 ==> Cuttable(active[..i + 1])
  {
    assert active[i..][0] == active[i] && active[i..][1..] == active[i + 1..];
    assert active[..i + 1] == active[..i] + [active[i]];
  }

  lemma MoreSent(
    sent: seq<Datagram>, more: seq<Datagram>, all: seq<Datagram>, rest: seq<Datagram>, whole: nat -> bool)
    requires AllWhole(whole, 0, |sent|) && SentUpto(all, more, whole, |sent|)
    ensures AllWhole(whole, 0, |sent + more|)
    ensures |more| < |all| ==> SentUpto(sent + (all + rest), sent + more, whole, 0)
    ensures |more| == |all| ==> sent + (all + rest) == (sent + more) + rest
  {
    if |more| == |all| {
      assert more == all;
    }
  }

  lemma ChunkStep(data: Bytes, at: nat, end: nat, size: nat)
    requires size > 0 && at < |data| && end == if at + size < |data| then at + size else |data|
    ensures Chunks(data[at..], size) == [data[at..end]] + Chunks(data[end..], size)
  {
    if at + size < |data| {
      assert data[at..][..size] == data[at..end];
      assert data[at..][size..] == data[end..];
    } else {
      assert data[at..] == data[at..end];
    }
  }
}
