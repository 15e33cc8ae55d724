/**
  Planning one batched send to a UDP target: consecutive payloads become groups, each a
  single datagram or a segmentation-offload aggregate the kernel cuts apart again.
 */
module PlanSend {
  import opened Base
  import opened StreamScan
  import opened Segments

  const TARGET_BATCH_SIZE: nat := 16
  const UDP_MAX_GSO_PAYLOAD: nat := 65507
  const UDP_MIN_GSO_SEGMENT_SIZE: nat := 512
  const U16_MAX: nat := 65535

  datatype Group = Group(first: nat, segments: nat, segmentSize: nat)

  function Count(payloads: seq<Bytes>): nat {
    if |payloads| < TARGET_BATCH_SIZE then |payloads| else TARGET_BATCH_SIZE
  }

  predicate Offloadable(size: nat, gso: bool) {
    gso && UDP_MIN_GSO_SEGMENT_SIZE <= size <= U16_MAX
  }

  // ----- what a plan is -----

  /** The payloads `from`, ..., `end - 1` may travel as one message. */
  ghost predicate Sendable(payloads: seq<Bytes>, gso: bool, from: nat, end: nat)
    requires from < end <= |payloads|
  {
    end - from > 1 ==>
      && Offloadable(|payloads[from]|, gso)
      && Uniform(payloads[from..end], |payloads[from]|)
      && |Concat(payloads[from..end])| <= UDP_MAX_GSO_PAYLOAD
  }

  /** A group is sendable and could not have taken the next payload too. */
  ghost predicate Maximal(payloads: seq<Bytes>, gso: bool, g: Group) {
    && g.segments > 0 && g.first + g.segments <= Count(payloads)
    && g.segmentSize == |payloads[g.first]|
    && Sendable(payloads, gso, g.first, g.first + g.segments)
    && (g.first + g.segments < Count(payloads) ==>
          !Sendable(payloads, gso, g.first, g.first + g.segments + 1))
  }

  /** Groups follow each other from `from` up to `end`. */
  ghost predicate Consecutive(groups: seq<Group>, from: nat, end: nat) {
    if groups == [] then from == end
    else groups[0].first == from && Consecutive(groups[1..], from + groups[0].segments, end)
  }

  ghost predicate Plan(payloads: seq<Bytes>, gso: bool, groups: seq<Group>) {
    && Consecutive(groups, 0, Count(payloads))
    && forall g :: g in groups ==> Maximal(payloads, gso, g)
  }

  // ----- what a plan gives -----

  function Accepted(groups: seq<Group>): nat {
    if groups == [] then 0 else groups[0].segments + Accepted(groups[1..])
  }

  /** The datagrams the kernel makes of one group. */
  ghost function Wire(payloads: seq<Bytes>, g: Group): seq<Bytes> {
    if g.first + g.segments > |payloads| then [] else
    var data := Concat(payloads[g.first..g.first + g.segments]);
    if g.segments > 1 && g.segmentSize > 0 then Chunks(data, g.segmentSize) else [data]
  }

  ghost predicate Restored(payloads: seq<Bytes>, g: Group) {
    && g.first + g.segments <= |payloads|
    && Wire(payloads, g) == payloads[g.first..g.first + g.segments]
  }

  lemma Alone(payloads: seq<Bytes>, i: nat)
    requires i < |payloads|
    ensures payloads[i..i + 1] == [payloads[i]] && Concat(payloads[i..i + 1]) == payloads[i]
  {
    assert payloads[i..i + 1] == [payloads[i]];
    ConcatOne(payloads[i]);
  }

  /** The kernel's cuts give back the group's own payloads. */
  lemma WireRestores(payloads: seq<Bytes>, gso: bool, g: Group)
    requires Maximal(payloads, gso, g)
    ensures Restored(payloads, g)
  {
    var own := payloads[g.first..g.first + g.segments];
    if g.segments > 1 {
      ChunksInverse(own, g.segmentSize);
    } else {
      Alone(payloads, g.first);
    }
  }

  /** What `wire` makes of every group, in order. */
  ghost function Emitted(wire: Group -> seq<Bytes>, groups: seq<Group>): seq<Bytes> {
    if groups == [] then [] else wire(groups[0]) + Emitted(wire, groups[1..])
  }

  ghost function Delivered(payloads: seq<Bytes>, groups: seq<Group>): seq<Bytes> {
    Emitted(g => Wire(payloads, g), groups)
  }

  lemma {:induction false} PrefixConsecutive(groups: seq<Group>, from: nat, end: nat, k: nat)
    requires Consecutive(groups, from, end) && k <= |groups|
    ensures Consecutive(groups[..k], from, if k < |groups| then groups[k].first else end)
  {
    if k > 0 {
      PrefixConsecutive(groups[1..], from + groups[0].segments, end, k - 1);
      assert groups[..k][1..] == groups[1..][..k - 1];
    }
  }

  lemma JoinSlices(s: seq<Bytes>, from: nat, mid: nat, end: nat)
    requires from <= mid <= end <= |s|
    ensures s[from..mid] + s[mid..end] == s[from..end]
  {
  }

  lemma {:induction false} AllEmitted(
    payloads: seq<Bytes>, wire: Group -> seq<Bytes>, groups: seq<Group>, from: nat, end: nat)
    requires Consecutive(groups, from, end) && from <= |payloads|
    requires forall g :: g in groups ==>
               g.first + g.segments <= |payloads| && wire(g) == payloads[g.first..g.first + g.segments]
    ensures from + Accepted(groups) == end <= |payloads|
    ensures Emitted(wire, groups) == payloads[from..end]
  {
    if groups != [] {
      var mid := from + groups[0].segments;
      assert groups[0] in groups;
      AllEmitted(payloads, wire, groups[1..], mid, end);
      JoinSlices(payloads, from, mid, end);
    }
  }

  /**
    However many groups the kernel accepts, the number of segments in them is the index of
    the first unsent payload, and exactly the payloads before it are on the wire, in order.
   */
  lemma AcceptedPrefix(payloads: seq<Bytes>, gso: bool, groups: seq<Group>, k: nat)
    requires Plan(payloads, gso, groups) && k <= |groups|
    ensures Accepted(groups[..k]) == if k < |groups| then groups[k].first else Count(payloads)
    ensures Accepted(groups[..k]) <= |payloads|
    ensures Delivered(payloads, groups[..k]) == payloads[..Accepted(groups[..k])]
  {
    var end := if k < |groups| then groups[k].first else Count(payloads);
    PrefixConsecutive(groups, 0, Count(payloads), k);
    forall g | g in groups[..k] ensures Restored(payloads, g) {
      WireRestores(payloads, gso, g);
    }
    AllEmitted(payloads, g => Wire(payloads, g), groups[..k], 0, end);
    assert payloads[0..end] == payloads[..end];
  }

  /**
    Payloads share a message exactly if offloading is on, the first is of 512 to 65535 bytes, all
    but the last are as long as it and the last is not longer or empty, and 65507 bytes hold them.
   */
  lemma SharesExactly(payloads: seq<Bytes>, gso: bool, from: nat, end: nat)
    requires from + 1 < end <= |payloads|
    ensures Sendable(payloads, gso, from, end) <==>
            && gso && 512 <= |payloads[from]| <= 65535
            && (forall i :: from <= i < end - 1 ==> |payloads[i]| == |payloads[from]|)
            && 0 < |payloads[end - 1]| <= |payloads[from]|
            && |Concat(payloads[from..end])| <= 65507
  {
    var own := payloads[from..end];
    assert forall i :: 0 <= i < |own| ==> own[i] == payloads[from + i];
    assert forall i :: from <= i < end ==> payloads[i] == own[i - from];
  }

  /** A plan takes the first sixteen payloads, or all of fewer. */
  lemma PlanTakes(payloads: seq<Bytes>, gso: bool, groups: seq<Group>)
    requires Plan(payloads, gso, groups)
    ensures Delivered(payloads, groups) == payloads[..if |payloads| < 16 then |payloads| else 16]
  {
    AcceptedPrefix(payloads, gso, groups, |groups|);
    assert groups[..|groups|] == groups;
  }

  // ----- there is one plan -----

  lemma ConcatGrows(payloads: seq<Bytes>, from: nat, end: nat)
    requires from <= end < |payloads|
    ensures Concat(payloads[from..end + 1]) == Concat(payloads[from..end]) + payloads[end]
  {
    assert payloads[from..end + 1] == payloads[from..end] + [payloads[end]];
    ConcatLast(payloads[from..end], payloads[end]);
  }

  lemma OneShorter(payloads: seq<Bytes>, gso: bool, from: nat, end: nat)
    requires from < end < |payloads| && Sendable(payloads, gso, from, end + 1)
    ensures Sendable(payloads, gso, from, end)
  {
    ConcatGrows(payloads, from, end);
    var all, most := payloads[from..end + 1], payloads[from..end];
    assert forall i :: 0 <= i < |most| ==> most[i] == all[i];
  }

  /** Any shorter stretch from the same start is sendable too. */
  lemma {:induction false} ShorterSendable(payloads: seq<Bytes>, gso: bool, from: nat, mid: nat, end: nat)
    requires from < mid <= end <= |payloads| && Sendable(payloads, gso, from, end)
    ensures Sendable(payloads, gso, from, mid)
    decreases end
  {
    if mid < end {
      OneShorter(payloads, gso, from, end - 1);
      ShorterSendable(payloads, gso, from, mid, end - 1);
    }
  }

  lemma SameLength(payloads: seq<Bytes>, gso: bool, a: Group, b: Group)
    requires Maximal(payloads, gso, a) && Maximal(payloads, gso, b) && a.first == b.first
    ensures a == b
  {
    if a.segments < b.segments {
      ShorterSendable(payloads, gso, a.first, a.first + a.segments + 1, a.first + b.segments);
    } else if b.segments < a.segments {
      ShorterSendable(payloads, gso, a.first, a.first + b.segments + 1, a.first + a.segments);
    }
  }

  lemma {:induction false} SameGroups(
    payloads: seq<Bytes>, gso: bool, a: seq<Group>, b: seq<Group>, from: nat, end: nat)
    requires Consecutive(a, from, end) && Consecutive(b, from, end)
    requires forall g :: g in a || g in b ==> Maximal(payloads, gso, g)
    ensures a == b
    decreases |a|
  {
    if a != [] && b != [] {
      assert a[0] in a && b[0] in b;
      SameLength(payloads, gso, a[0], b[0]);
      SameGroups(payloads, gso, a[1..], b[1..], from + a[0].segments, end);
      assert a == [a[0]] + a[1..] && b == [b[0]] + b[1..];
    } else if a != [] {
      NoProgressAtEnd(payloads, gso, a, from, end);
    } else if b != [] {
      NoProgressAtEnd(payloads, gso, b, from, end);
    }
  }

  lemma {:induction false} NoProgressAtEnd(payloads: seq<Bytes>, gso: bool, groups: seq<Group>, from: nat, end: nat)
    requires Consecutive(groups, from, end) && forall g :: g in groups ==> Maximal(payloads, gso, g)
    ensures groups != [] ==> from < end
  {
    if groups != [] {
      assert groups[0] in groups;
      NoProgressAtEnd(payloads, gso, groups[1..], from + groups[0].segments, end);
    }
  }

  /** The coverage and maximality conditions leave only one plan. */
  lemma OnePlan(payloads: seq<Bytes>, gso: bool, a: seq<Group>, b: seq<Group>)
    requires Plan(payloads, gso, a) && Plan(payloads, gso, b)
    ensures a == b
  {
    SameGroups(payloads, gso, a, b, 0, Count(payloads));
  }

  // ----- planning -----

  /** Payloads of one size, whose total is known and within the limit. */
  ghost predicate Full(payloads: seq<Bytes>, from: nat, end: nat, total: nat)
    requires from < end <= |payloads|
  {
    && (forall i :: from <= i < end ==> |payloads[i]| == |payloads[from]|)
    && total == |Concat(payloads[from..end])|
    && (end - from > 1 ==> total <= UDP_MAX_GSO_PAYLOAD)
  }

  lemma FullSendable(payloads: seq<Bytes>, gso: bool, from: nat, end: nat, total: nat)
    requires from < end <= |payloads| && Full(payloads, from, end, total) && Offloadable(|payloads[from]|, gso)
    ensures Sendable(payloads, gso, from, end)
  {
    var own := payloads[from..end];
    assert forall i :: 0 <= i < |own| ==> own[i] == payloads[from + i];
  }

  /** When the next payload may join a group of full segments, and what the group then is. */
  lemma NextJoins(payloads: seq<Bytes>, gso: bool, from: nat, end: nat, total: nat)
    requires from < end < |payloads| && Full(payloads, from, end, total) && Offloadable(|payloads[from]|, gso)
    ensures Sendable(payloads, gso, from, end + 1) <==>
            0 < |payloads[end]| <= |payloads[from]| && total + |payloads[end]| <= UDP_MAX_GSO_PAYLOAD
    ensures Sendable(payloads, gso, from, end + 1) && |payloads[end]| == |payloads[from]| ==>
              Full(payloads, from, end + 1, total + |payloads[end]|)
  {
    ConcatGrows(payloads, from, end);
    var own := payloads[from..end + 1];
    assert forall i :: 0 <= i < |own| ==> own[i] == payloads[from + i];
  }

  /** A short segment ends its group. */
  lemma ShortEnds(payloads: seq<Bytes>, gso: bool, from: nat, end: nat)
    requires from < end < |payloads| && |payloads[end - 1]| != |payloads[from]|
    ensures !Sendable(payloads, gso, from, end + 1)
  {
    assert payloads[from..end + 1][end - 1 - from] == payloads[end - 1];
  }

  lemma StartsFull(payloads: seq<Bytes>, from: nat)
    requires from < |payloads|
    ensures Full(payloads, from, from + 1, |payloads[from]|)
  {
    assert payloads[from..from + 1] == [payloads[from]];
    ConcatOne(payloads[from]);
  }

  /** One turn of the inner loop: the group ends before the next payload, with it, or goes on. */
  lemma GroupTurn(payloads: seq<Bytes>, gso: bool, from: nat, end: nat, total: nat)
    requires from < end < |payloads| && Full(payloads, from, end, total) && Offloadable(|payloads[from]|, gso)
    ensures var next := |payloads[end]|;
            if next == 0 || next > |payloads[from]| || total + next > UDP_MAX_GSO_PAYLOAD
            then Sendable(payloads, gso, from, end) && !Sendable(payloads, gso, from, end + 1)
            else if next < |payloads[from]|
            then Sendable(payloads, gso, from, end + 1) &&
                 (end + 1 < |payloads| ==> !Sendable(payloads, gso, from, end + 2))
            else Full(payloads, from, end + 1, total + next)
  {
    FullSendable(payloads, gso, from, end, total);
    NextJoins(payloads, gso, from, end, total);
    if end + 1 < |payloads| && |payloads[end]| < |payloads[from]| {
      ShortEnds(payloads, gso, from, end + 1);
    }
  }

  method GroupLength(payloads: seq<Bytes>, gso: bool, first: nat, count: nat) returns (segments: nat)
    requires first < count == Count(payloads)
    ensures Maximal(payloads, gso, Group(first, segments, |payloads[first]|))
  {
    var segmentSize := |payloads[first]|;
    segments := 1;
    var total: nat := segmentSize;
    StartsFull(payloads, first);
    if Offloadable(segmentSize, gso) {
      while first + segments < count && segments < TARGET_BATCH_SIZE
        invariant 1 <= segments && first + segments <= count
        invariant Full(payloads, first, first + segments, total)
      {
        var next := |payloads[first + segments]|;
        GroupTurn(payloads, gso, first, first + segments, total);
        if next == 0 || next > segmentSize || total + next > UDP_MAX_GSO_PAYLOAD {
          return;
        }
        segments := segments + 1;
        total := total + next;
        if next < segmentSize {
          return;
        }
      }
      FullSendable(payloads, gso, first, first + segments, total);
    }
  }

  lemma {:induction false} ConsecutiveLast(groups: seq<Group>, g: Group, from: nat, end: nat)
    requires Consecutive(groups, from, end) && g.first == end
    ensures Consecutive(groups + [g], from, end + g.segments)
  {
    if groups != [] {
      assert (groups + [g])[1..] == groups[1..] + [g];
      ConsecutiveLast(groups[1..], g, from + groups[0].segments, end);
    } else {
      assert [g][1..] == [];
    }
  }

  method PlanGroups(payloads: seq<Bytes>, gso: bool) returns (groups: array<Group>, groupCount: nat)
    ensures groups.Length == TARGET_BATCH_SIZE && groupCount <= groups.Length
    ensures Plan(payloads, gso, groups[..groupCount])
  {
    groups := new Group[TARGET_BATCH_SIZE](_ => Group(0, 0, 0));
    var count := Count(payloads);
    groupCount := 0;
    var first := 0;
    while first < count
      invariant groupCount <= first <= count
      invariant Consecutive(groups[..groupCount], 0, first)
      invariant forall g :: g in groups[..groupCount] ==> Maximal(payloads, gso, g)
    {
      var segments := GroupLength(payloads, gso, first, count);
      var g := Group(first, segments, |payloads[first]|);
      ConsecutiveLast(groups[..groupCount], g, 0, first);
      ghost var before := groups[..groupCount];
      groups[groupCount] := g;
      groupCount := groupCount + 1;
      assert groups[..groupCount] == before + [g];
      first := first + segments;
    }
  }

  lemma {:induction false} AcceptedLast(groups: seq<Group>, g: Group)
    ensures Accepted(groups + [g]) == Accepted(groups) + g.segments
  {
    if groups == [] {
      assert [g][1..] == [] && groups + [g] == [g];
    } else {
      AcceptedLast(groups[1..], g);
      assert (groups + [g])[1..] == groups[1..] + [g];
    }
  }

  /** How many payloads the kernel took when it accepted the first `sent` groups. */
  method AcceptedCount(payloads: seq<Bytes>, gso: bool, groups: seq<Group>, sent: nat) returns (n: nat)
    requires Plan(payloads, gso, groups) && sent <= |groups|
    ensures n == if sent < |groups| then groups[sent].first else Count(payloads)
    ensures n <= |payloads| && Delivered(payloads, groups[..sent]) == payloads[..n]
  {
    n := 0;
    for i := 0 to sent
      invariant n == Accepted(groups[..i])
    {
      assert groups[..i + 1] == groups[..i] + [groups[i]];
      AcceptedLast(groups[..i], groups[i]);
      n := n + groups[i].segments;
    }
    AcceptedPrefix(payloads, gso, groups, sent);
  }
}
