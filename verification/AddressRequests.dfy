/** Replies to CONNECT-IP ADDRESS_REQUEST capsules from an existing address lease. */
module AddressRequests {
  import opened Base
  import opened IpAddresses
  import opened Capsules
  import opened CapsuleEncoder
  import Varint

  /** How many request identifiers one stream may use up. */
  const MAX_ADDRESS_REQUEST_IDS: nat := 1024

  function Assignment(requestId: nat, ip: IpAddr): (a: AssignedAddress) {
    AssignedAddress(requestId, ip, ip.Width())
  }

  // ----- what a reply says -----

  /** The request asks for this address, or for any single address of its family. */
  predicate Grants(q: AssignedAddress, ip: IpAddr) {
    q.ip.V4? == ip.V4? && q.prefixLen == ip.Width() && (q.ip.Value() == 0 || q.ip == ip)
  }

  function Unspecified(ip: IpAddr): IpAddr {
    if ip.V4? then V4(0) else V6(0)
  }

  function FirstGranted(q: AssignedAddress, lease: seq<IpAddr>): (r: Option<IpAddr>)
    ensures r.Some? ==> r.value in lease && Grants(q, r.value)
    ensures r.None? ==> forall ip :: ip in lease ==> !Grants(q, ip)
  {
    if lease == [] then None
    else if Grants(q, lease[0]) then Some(lease[0])
    else FirstGranted(q, lease[1..])
  }

  /** `ip` is the first leased address that satisfies the request. */
  ghost predicate Foremost(q: AssignedAddress, lease: seq<IpAddr>, ip: IpAddr) {
    exists k :: 0 <= k < |lease| && lease[k] == ip && Grants(q, ip) &&
                forall j :: 0 <= j < k ==> !Grants(q, lease[j])
  }

  lemma ForemostTail(q: AssignedAddress, lease: seq<IpAddr>, ip: IpAddr)
    requires lease != [] && !Grants(q, lease[0]) && Foremost(q, lease[1..], ip)
    ensures Foremost(q, lease, ip)
  {
    var k :| 0 <= k < |lease[1..]| && lease[1..][k] == ip && Grants(q, ip) &&
             forall j :: 0 <= j < k ==> !Grants(q, lease[1..][j]);
    assert lease[k + 1] == ip;
    forall j | 0 <= j < k + 1 ensures !Grants(q, lease[j]) {
      assert j > 0 ==> lease[j] == lease[1..][j - 1];
    }
  }

  lemma {:induction false} FirstGrantedIsForemost(q: AssignedAddress, lease: seq<IpAddr>)
    requires FirstGranted(q, lease).Some?
    ensures Foremost(q, lease, FirstGranted(q, lease).value)
  {
    if !Grants(q, lease[0]) {
      FirstGrantedIsForemost(q, lease[1..]);
      ForemostTail(q, lease, FirstGranted(q, lease[1..]).value);
    }
  }

  function Answer(q: AssignedAddress, lease: seq<IpAddr>): (a: AssignedAddress)
    ensures a.requestId == q.requestId && a.ip.V4? == q.ip.V4? && a.prefixLen == a.ip.Width()
  {
    var found := FirstGranted(q, lease);
    Assignment(q.requestId, if found.Some? then found.value else Unspecified(q.ip))
  }

  function Answers(requests: seq<AssignedAddress>, lease: seq<IpAddr>): (s: seq<AssignedAddress>)
    ensures |s| == |requests|
    ensures forall i :: 0 <= i < |s| ==> s[i] == Answer(requests[i], lease)
  {
    if requests == [] then []
    else Answers(requests[..|requests| - 1], lease) + [Answer(requests[|requests| - 1], lease)]
  }

  ghost predicate Lists(entries: seq<AssignedAddress>, ip: IpAddr) {
    exists a :: a in entries && a.ip == ip
  }

  predicate ListedIn(entries: seq<AssignedAddress>, ip: IpAddr): (listed: bool)
    ensures listed <==> Lists(entries, ip)
  {
    assert entries != [] ==> entries == [entries[0]] + entries[1..];
    entries != [] && (entries[0].ip == ip || ListedIn(entries[1..], ip))
  }

  /** Add every leased address that is not listed yet. */
  function Completed(entries: seq<AssignedAddress>, lease: seq<IpAddr>): (s: seq<AssignedAddress>)
    ensures entries <= s
    decreases |lease|
  {
    if lease == [] then entries
    else if ListedIn(entries, lease[0]) then Completed(entries, lease[1..])
    else Completed(entries + [Assignment(0, lease[0])], lease[1..])
  }

  function Reply(requests: seq<AssignedAddress>, lease: seq<IpAddr>): seq<AssignedAddress> {
    Completed(Answers(requests, lease), lease)
  }

  /** A bare entry for a leased address. */
  ghost predicate Restates(a: AssignedAddress, lease: seq<IpAddr>) {
    a.ip in lease && a == Assignment(0, a.ip)
  }

  /** One round of the completion. */
  function Next(entries: seq<AssignedAddress>, ip: IpAddr): seq<AssignedAddress> {
    if ListedIn(entries, ip) then entries else entries + [Assignment(0, ip)]
  }

  lemma CompletedNext(entries: seq<AssignedAddress>, lease: seq<IpAddr>)
    requires lease != []
    ensures Completed(entries, lease) == Completed(Next(entries, lease[0]), lease[1..])
    ensures Lists(Next(entries, lease[0]), lease[0])
  {
    var next := Next(entries, lease[0]);
    if !ListedIn(entries, lease[0]) {
      assert next[|entries|] in next;
    }
  }

  lemma PrefixLists(a: seq<AssignedAddress>, b: seq<AssignedAddress>, ip: IpAddr)
    requires a <= b && Lists(a, ip)
    ensures Lists(b, ip)
  {
    var e :| e in a && e.ip == ip;
    assert e in b;
  }

  /** Every leased address is listed in the end. */
  lemma {:induction false} CompletedLists(entries: seq<AssignedAddress>, lease: seq<IpAddr>, ip: IpAddr)
    requires ip in lease
    ensures Lists(Completed(entries, lease), ip)
    decreases |lease|
  {
    CompletedNext(entries, lease);
    var next := Next(entries, lease[0]);
    if ip == lease[0] {
      PrefixLists(next, Completed(next, lease[1..]), ip);
    } else {
      CompletedLists(next, lease[1..], ip);
    }
  }

  /** Every entry added is a bare entry for a leased address. */
  lemma {:induction false} CompletedRest(entries: seq<AssignedAddress>, lease: seq<IpAddr>, i: nat)
    requires |entries| <= i < |Completed(entries, lease)|
    ensures Restates(Completed(entries, lease)[i], lease)
    decreases |lease|
  {
    CompletedNext(entries, lease);
    var next := Next(entries, lease[0]);
    if i < |next| {
      assert Completed(next, lease[1..])[i] == next[i];
    } else {
      CompletedRest(next, lease[1..], i);
    }
  }

  /** An entry is added only for an address not listed before it. */
  lemma {:induction false} CompletedOnce(entries: seq<AssignedAddress>, lease: seq<IpAddr>, i: nat)
    requires |entries| <= i < |Completed(entries, lease)|
    ensures !Lists(Completed(entries, lease)[..i], Completed(entries, lease)[i].ip)
    decreases |lease|
  {
    CompletedNext(entries, lease);
    var next, all := Next(entries, lease[0]), Completed(entries, lease);
    if i < |next| {
      assert all[i] == next[i] && all[..i] == entries;
    } else {
      CompletedOnce(next, lease[1..], i);
    }
  }

  /** `a` comes before `b` in the lease. */
  ghost predicate LeasedBefore(lease: seq<IpAddr>, a: IpAddr, b: IpAddr) {
    exists p, q :: 0 <= p < q < |lease| && lease[p] == a && lease[q] == b
  }

  /** Entries are added in the order of the lease. */
  lemma {:induction false} CompletedInOrder(entries: seq<AssignedAddress>, lease: seq<IpAddr>, i: nat, j: nat)
    requires |entries| <= i < j < |Completed(entries, lease)|
    ensures LeasedBefore(lease, Completed(entries, lease)[i].ip, Completed(entries, lease)[j].ip)
    decreases |lease|
  {
    CompletedNext(entries, lease);
    var next, all := Next(entries, lease[0]), Completed(entries, lease);
    if i < |next| {
      CompletedRest(next, lease[1..], j);
      var q :| 0 <= q < |lease[1..]| && lease[1..][q] == all[j].ip;
      assert all[i] == next[i] && lease[0] == all[i].ip && lease[q + 1] == all[j].ip;
    } else {
      CompletedInOrder(next, lease[1..], i, j);
      var p, q :| 0 <= p < q < |lease[1..]| && lease[1..][p] == all[i].ip && lease[1..][q] == all[j].ip;
      assert lease[p + 1] == all[i].ip && lease[q + 1] == all[j].ip;
    }
  }

  /** The leased addresses no answer lists follow the answers, once each and in the lease's order. */
  lemma ReplyAddsMissing(requests: seq<AssignedAddress>, lease: seq<IpAddr>)
    ensures var s := Reply(requests, lease);
            && (forall i :: |requests| <= i < |s| ==> !Lists(s[..i], s[i].ip))
            && (forall i, j :: |requests| <= i < j < |s| ==> LeasedBefore(lease, s[i].ip, s[j].ip))
  {
    var answers, s := Answers(requests, lease), Reply(requests, lease);
    forall i | |requests| <= i < |s| ensures !Lists(s[..i], s[i].ip) {
      CompletedOnce(answers, lease, i);
    }
    forall i, j | |requests| <= i < j < |s| ensures LeasedBefore(lease, s[i].ip, s[j].ip) {
      CompletedInOrder(answers, lease, i, j);
    }
  }

  /** What a single request gets, case by case. */
  lemma AnswerExactly(q: AssignedAddress, lease: seq<IpAddr>)
    ensures var ip := Answer(q, lease).ip;
            var width, none := if q.ip.V4? then 32 else 128, if q.ip.V4? then V4(0) else V6(0);
            && (q.prefixLen != width ==> ip == none)
            && (q.prefixLen == width && q.ip != none ==> ip == if q.ip in lease then q.ip else none)
            && (q.prefixLen == width && q.ip == none && (forall x :: x in lease ==> x.V4? != q.ip.V4?) ==> ip == none)
            && (q.prefixLen == width && q.ip == none && (exists x :: x in lease && x.V4? == q.ip.V4?) ==>
                  exists k :: && 0 <= k < |lease| && lease[k] == ip && ip.V4? == q.ip.V4?
                              && forall j :: 0 <= j < k ==> lease[j].V4? != q.ip.V4?)
  {
    if FirstGranted(q, lease).Some? {
      FirstGrantedIsForemost(q, lease);
    }
  }

  /**
    Section 4.7.1 of RFC 9484: the requests are answered in order, the whole lease is
    listed, and nothing outside it is assigned except the unspecified rejection.
   */
  lemma ReplyIsSnapshot(requests: seq<AssignedAddress>, lease: seq<IpAddr>)
    ensures var s := Reply(requests, lease);
            && |requests| <= |s|
            && (forall i :: 0 <= i < |requests| ==>
                  && s[i].requestId == requests[i].requestId
                  && (if exists ip :: ip in lease && Grants(requests[i], ip)
                      then Foremost(requests[i], lease, s[i].ip)
                      else s[i].ip == Unspecified(requests[i].ip)))
            && (forall i :: |requests| <= i < |s| ==> s[i].requestId == 0 && s[i].ip in lease)
            && (forall ip :: ip in lease ==> Lists(s, ip))
            && (forall a :: a in s ==> a.prefixLen == a.ip.Width())
  {
    var answers, s := Answers(requests, lease), Reply(requests, lease);
    forall ip | ip in lease ensures Lists(s, ip) {
      CompletedLists(answers, lease, ip);
    }
    forall i | 0 <= i < |requests|
      ensures s[i] == Answer(requests[i], lease)
      ensures FirstGranted(requests[i], lease).Some? ==> Foremost(requests[i], lease, s[i].ip)
    {
      assert s[i] == answers[i];
      if FirstGranted(requests[i], lease).Some? {
        FirstGrantedIsForemost(requests[i], lease);
      }
    }
    forall i | |requests| <= i < |s|
      ensures s[i].requestId == 0 && s[i].ip in lease && s[i].prefixLen == s[i].ip.Width()
    {
      CompletedRest(answers, lease, i);
    }
    forall a | a in s
      ensures a.prefixLen == a.ip.Width()
    {
      var i :| 0 <= i < |s| && s[i] == a;
    }
  }

  // ----- request identifiers -----

  /** Record the identifiers in turn; stop at the first zero or reused one. */
  function Register(seen: set<nat>, requests: seq<AssignedAddress>): (r: (bool, set<nat>))
    ensures seen <= r.1
    decreases |requests|
  {
    if requests == [] then (true, seen)
    else if requests[0].requestId == 0 || requests[0].requestId in seen then (false, seen)
    else Register(seen + {requests[0].requestId}, requests[1..])
  }

  /** The reply, if any, and the identifiers used up after one ADDRESS_REQUEST. */
  function Respond(seen: set<nat>, requests: seq<AssignedAddress>, lease: seq<IpAddr>)
    : (r: (Result<seq<AssignedAddress>, DecodeError>, set<nat>))
  {
    if requests == [] || |requests| > MAX_ADDRESS_REQUEST_IDS - |seen| then (Err(Malformed), seen) else
    var (unused, seen') := Register(seen, requests);
    (if unused then Ok(Reply(requests, lease)) else Err(Malformed), seen')
  }

  function Ids(requests: seq<AssignedAddress>): (s: seq<nat>)
    ensures |s| == |requests|
    ensures forall i :: 0 <= i < |s| ==> s[i] == requests[i].requestId
  {
    if requests == [] then [] else [requests[0].requestId] + Ids(requests[1..])
  }

  lemma {:induction false} RegisterCounts(seen: set<nat>, requests: seq<AssignedAddress>)
    ensures var (unused, seen') := Register(seen, requests);
            && |seen'| <= |seen| + |requests|
            && (unused ==> |seen'| == |seen| + |requests|)
            && (unused ==> forall id :: id in Ids(requests) ==> id in seen')
    decreases |requests|
  {
    if requests != [] {
      var id := requests[0].requestId;
      if id != 0 && id !in seen {
        RegisterCounts(seen + {id}, requests[1..]);
        assert Ids(requests) == [id] + Ids(requests[1..]);
      }
    }
  }

  /** No identifier is zero, repeated or already used. */
  ghost predicate Unused(seen: set<nat>, ids: seq<nat>) {
    Distinct(ids) && forall id :: id in ids ==> id != 0 && id !in seen
  }

  lemma DistinctCons(id: nat, rest: seq<nat>)
    ensures Distinct([id] + rest) <==> Distinct(rest) && id !in rest
  {
    var all := [id] + rest;
    assert all[0] == id && forall i :: 0 <= i < |rest| ==> all[i + 1] == rest[i];
    if Distinct(all) {
      forall i, j | 0 <= i < j < |rest| ensures rest[i] != rest[j] {
        assert all[i + 1] != all[j + 1];
      }
      forall i | 0 <= i < |rest| ensures rest[i] != id {
        assert all[0] != all[i + 1];
      }
    }
  }

  lemma UnusedCons(seen: set<nat>, id: nat, rest: seq<nat>)
    ensures Unused(seen, [id] + rest) <==> id != 0 && id !in seen && Unused(seen + {id}, rest)
  {
    DistinctCons(id, rest);
    assert forall x :: x in [id] + rest <==> x == id || x in rest;
  }

  /** A request goes on exactly if its identifiers are all fresh. */
  lemma {:induction false} RegisterDecides(seen: set<nat>, requests: seq<AssignedAddress>)
    ensures Register(seen, requests).0 <==> Unused(seen, Ids(requests))
    decreases |requests|
  {
    if requests != [] {
      var id := requests[0].requestId;
      assert Ids(requests) == [id] + Ids(requests[1..]);
      UnusedCons(seen, id, Ids(requests[1..]));
      RegisterDecides(seen + {id}, requests[1..]);
    }
  }

  lemma UnusedPrefix(seen: set<nat>, id: nat, rest: seq<nat>, k: nat)
    requires k <= |rest| && id != 0 && id !in seen && Unused(seen + {id}, rest[..k])
    ensures Unused(seen, ([id] + rest)[..k + 1])
  {
    assert ([id] + rest)[..k + 1] == [id] + rest[..k];
    UnusedCons(seen, id, rest[..k]);
  }

  /** The identifiers recorded are the fresh ones at the front, up to the first that is not. */
  lemma {:induction false} RegisterRecords(seen: set<nat>, requests: seq<AssignedAddress>) returns (k: nat)
    ensures k <= |requests| && Unused(seen, Ids(requests)[..k])
    ensures Register(seen, requests).1 == seen + set id | id in Ids(requests)[..k]
    ensures k < |requests| ==> Ids(requests)[k] == 0 || Ids(requests)[k] in Register(seen, requests).1
    decreases |requests|
  {
    k := 0;
    if requests != [] {
      var id, rest := requests[0].requestId, requests[1..];
      assert Ids(requests) == [id] + Ids(rest);
      if id != 0 && id !in seen {
        var n := RegisterRecords(seen + {id}, rest);
        UnusedPrefix(seen, id, Ids(rest), n);
        k := n + 1;
        assert Ids(requests)[..k] == [id] + Ids(rest)[..n];
      }
    }
  }

  /**
    A request is answered exactly if it is not empty, fits into the identifiers left, and uses
    only fresh ones, which it then uses up; it is refused as malformed otherwise.
   */
  lemma RespondDecides(seen: set<nat>, requests: seq<AssignedAddress>, lease: seq<IpAddr>)
    ensures var (reply, seen') := Respond(seen, requests, lease);
            && (reply.Ok? <==> 0 < |requests| <= 1024 - |seen| && Unused(seen, Ids(requests)))
            && (reply.Ok? ==> reply.value == Reply(requests, lease))
            && (reply.Ok? ==> seen' == seen + set id | id in Ids(requests))
            && (reply.Err? ==> reply.error == Malformed)
            && (requests == [] || |requests| > 1024 - |seen| ==> seen' == seen)
  {
    RegisterDecides(seen, requests);
    var k := RegisterRecords(seen, requests);
    if Unused(seen, Ids(requests)) && k < |requests| {
      FreshAt(seen, Ids(requests), k);
      assert false;
    }
    assert k == |requests| ==> Ids(requests)[..k] == Ids(requests);
  }

  lemma FreshAt(seen: set<nat>, ids: seq<nat>, k: nat)
    requires Unused(seen, ids) && k < |ids|
    ensures ids[k] != 0 && ids[k] !in seen && ids[k] !in ids[..k]
  {
    assert ids[k] in ids;
  }

  // ----- the life of a stream -----

  datatype Call = Call(requests: seq<AssignedAddress>, lease: seq<IpAddr>)

  ghost predicate OnePerFamily(lease: seq<IpAddr>) {
    forall i, j :: 0 <= i < j < |lease| ==> lease[i].V4? != lease[j].V4?
  }

  ghost predicate Wellborn(calls: seq<Call>) {
    forall c :: c in calls ==> EncodableIds(c.requests) && OnePerFamily(c.lease)
  }

  function SeenAfter(seen: set<nat>, calls: seq<Call>): set<nat>
    decreases |calls|
  {
    if calls == [] then seen else SeenAfter(Respond(seen, calls[0].requests, calls[0].lease).1, calls[1..])
  }

  function AnsweredIds(seen: set<nat>, calls: seq<Call>): (ids: seq<nat>)
    decreases |calls|
  {
    if calls == [] then [] else
    var (reply, seen') := Respond(seen, calls[0].requests, calls[0].lease);
    (if reply.Ok? then Ids(calls[0].requests) else []) + AnsweredIds(seen', calls[1..])
  }

  ghost function ReplyBytes(seen: set<nat>, calls: seq<Call>): (n: nat)
    requires Wellborn(calls)
    decreases |calls|
  {
    if calls == [] then 0 else
    var c := calls[0];
    var (reply, seen') := Respond(seen, c.requests, c.lease);
    assert c in calls;
    ReplyFits(c.requests, c.lease);
    (if reply.Ok? then |FrameBytes(AddressAssign(reply.value))| else 0) + ReplyBytes(seen', calls[1..])
  }

  // ----- sizes -----

  lemma {:induction false} BytesOfConcat(a: seq<AssignedAddress>, b: AssignedAddress)
    requires EncodableIds(a) && b.requestId <= Varint.MAX_VALUE
    ensures |AddressesBytes(a + [b])| <=
            |AddressesBytes(a)| + |Varint.Encoding(b.requestId)| + (if b.ip.V4? then 6 else 18)
  {
    AddressesBytesAppend(a, b);
  }

  lemma {:induction false} AnswersFit(requests: seq<AssignedAddress>, lease: seq<IpAddr>)
    requires EncodableIds(requests)
    ensures EncodableIds(Answers(requests, lease))
    ensures |AddressesBytes(Answers(requests, lease))| <= 26 * |requests|
  {
    if requests != [] {
      var n := |requests| - 1;
      AnswersFit(requests[..n], lease);
      assert requests[n] in requests;
      BytesOfConcat(Answers(requests[..n], lease), Answer(requests[n], lease));
    }
  }

  function LeaseBytes(lease: seq<IpAddr>): nat {
    if lease == [] then 0 else (if lease[0].V4? then 7 else 19) + LeaseBytes(lease[1..])
  }

  lemma {:induction false} CompletedFits(entries: seq<AssignedAddress>, lease: seq<IpAddr>)
    requires EncodableIds(entries)
    ensures EncodableIds(Completed(entries, lease))
    ensures |AddressesBytes(Completed(entries, lease))| <= |AddressesBytes(entries)| + LeaseBytes(lease)
    decreases |lease|
  {
    if lease != [] {
      var next := if Lists(entries, lease[0]) then entries else entries + [Assignment(0, lease[0])];
      BytesOfConcat(entries, Assignment(0, lease[0]));
      CompletedFits(next, lease[1..]);
    }
  }

  lemma ReplyFits(requests: seq<AssignedAddress>, lease: seq<IpAddr>)
    requires EncodableIds(requests) && OnePerFamily(lease)
    ensures EncodableIds(Reply(requests, lease))
    ensures |AddressesBytes(Reply(requests, lease))| <= 26 * |requests| + 26
    ensures |requests| <= MAX_ADDRESS_REQUEST_IDS ==> Encodable(AddressAssign(Reply(requests, lease)))
  {
    AnswersFit(requests, lease);
    CompletedFits(Answers(requests, lease), lease);
    SmallLease(lease);
  }

  lemma SharedFamily(lease: seq<IpAddr>)
    requires |lease| > 2
    ensures exists i, j :: 0 <= i < j < |lease| && lease[i].V4? == lease[j].V4?
  {
    var i, j := if lease[0].V4? == lease[1].V4? then 0 else 2 - (if lease[2].V4? == lease[0].V4? then 2 else 1),
                if lease[0].V4? == lease[1].V4? then 1 else 2;
    assert lease[i].V4? == lease[j].V4?;
  }

  lemma SmallLease(lease: seq<IpAddr>)
    requires OnePerFamily(lease)
    ensures LeaseBytes(lease) <= 26
  {
    if |lease| > 2 {
      SharedFamily(lease);
      assert false;
    }
    if |lease| == 2 {
      assert LeaseBytes(lease[1..]) == (if lease[1].V4? then 7 else 19) + LeaseBytes(lease[1..][1..]);
      assert lease[1..][1..] == [];
    }
  }

  /** One reply costs at most 54 octets per request it answers. */
  lemma ReplyCost(requests: seq<AssignedAddress>, lease: seq<IpAddr>)
    requires EncodableIds(requests) && OnePerFamily(lease)
    requires 0 < |requests| <= MAX_ADDRESS_REQUEST_IDS
    ensures Encodable(AddressAssign(Reply(requests, lease)))
    ensures |FrameBytes(AddressAssign(Reply(requests, lease)))| <= 54 * |requests|
  {
    ReplyFits(requests, lease);
    var value := AddressesBytes(Reply(requests, lease));
    assert |FrameBytes(AddressAssign(Reply(requests, lease)))|
        == |Varint.Encoding(ADDRESS_ASSIGN)| + |Varint.Encoding(|value|)| + |value|;
  }

  /**
    Over the life of a stream no identifier is answered twice, and all replies together
    stay within 54 octets for each of the 1024 identifiers.
   */
  lemma {:induction false} Lifetime(seen: set<nat>, calls: seq<Call>)
    requires Wellborn(calls) && |seen| <= MAX_ADDRESS_REQUEST_IDS
    ensures |seen| <= |SeenAfter(seen, calls)| <= MAX_ADDRESS_REQUEST_IDS
    ensures ReplyBytes(seen, calls) <= 54 * (|SeenAfter(seen, calls)| - |seen|)
    ensures Distinct(AnsweredIds(seen, calls))
    ensures forall id :: id in AnsweredIds(seen, calls) ==> id != 0 && id !in seen
    decreases |calls|
  {
    if calls != [] {
      var c := calls[0];
      assert c in calls;
      var (reply, seen') := Respond(seen, c.requests, c.lease);
      RegisterDecides(seen, c.requests);
      RegisterCounts(seen, c.requests);
      SubsetSize(seen, seen');
      assert Wellborn(calls[1..]);
      Lifetime(seen', calls[1..]);
      if reply.Ok? {
        ReplyCost(c.requests, c.lease);
        DistinctConcat(Ids(c.requests), AnsweredIds(seen', calls[1..]));
      }
    }
  }

  lemma DistinctConcat(a: seq<nat>, b: seq<nat>)
    requires Distinct(a) && Distinct(b) && forall x :: x in b ==> x !in a
    ensures Distinct(a + b)
  {
    forall i, j | 0 <= i < j < |a + b|
      ensures (a + b)[i] != (a + b)[j]
    {
      if i < |a| <= j {
        assert b[j - |a|] in b;
      }
    }
  }

  /** A stream that starts with no history never sends 64 KiB of control replies. */
  lemma LifetimeBelow64K(calls: seq<Call>)
    requires Wellborn(calls)
    ensures ReplyBytes({}, calls) <= 54 * 1024 < 64 * 1024
  {
    Lifetime({}, calls);
  }

  /** The identifiers one request stream has used. */
  class Ledger {
    var seen: set<nat>

    ghost predicate Valid()
      reads this
    {
      |seen| <= MAX_ADDRESS_REQUEST_IDS
    }

    constructor ()
      ensures Valid() && seen == {}
    {
      seen := {};
    }

    method Serve(requests: seq<AssignedAddress>, lease: seq<IpAddr>)
      returns (r: Result<CapsuleFrame, DecodeError>)
      requires Valid()
      modifies this
      ensures Valid()
      ensures var (reply, seen') := Respond(old(seen), requests, lease);
              && seen == seen'
              && r == if reply.Ok? then Ok(AddressAssign(reply.value)) else Err(reply.error)
    {
      RegisterCounts(seen, requests);
      if requests == [] || |requests| > MAX_ADDRESS_REQUEST_IDS - |seen| {
        return Err(Malformed);
      }
      for i := 0 to |requests|
        invariant Register(old(seen), requests) == Register(seen, requests[i..])
      {
        assert requests[i..][1..] == requests[i + 1..];
        if requests[i].requestId == 0 || requests[i].requestId in seen {
          return Err(Malformed);
        }
        seen := seen + {requests[i].requestId};
      }
      var entries: seq<AssignedAddress> := [];
      for i := 0 to |requests|
        invariant entries == Answers(requests[..i], lease)
      {
        var found := FirstGranted(requests[i], lease);
        var rejected := if requests[i].ip.V4? then V4(0) else V6(0);
        assert requests[..i + 1][..i] == requests[..i];
        entries := entries + [Assignment(requests[i].requestId, if found.Some? then found.value else rejected)];
      }
      assert requests[..|requests|] == requests;
      for i := 0 to |lease|
        invariant Reply(requests, lease) == Completed(entries, lease[i..])
      {
        assert lease[i..][1..] == lease[i + 1..];
        if !ListedIn(entries, lease[i]) {
          entries := entries + [Assignment(0, lease[i])];
        }
      }
      r := Ok(AddressAssign(entries));
    }
  }
}
