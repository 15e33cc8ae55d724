/**
  Bounded capsule output of one client connection: a queue per stream, byte and packet
  totals at two levels, the set of streams with something to write and the list of
  streams whose request has finished.
 */
module CapsuleQueues {
  import opened Base
  import opened Capsules
  import opened CapsuleEncoder
  import opened OutputQueue
  import opened MapSums
  import opened CapsuleDecoder
  import opened CapsuleFraming
  import StreamScan
  import Varint

  const MAX_STREAM_SEND_BYTES: nat := 256 * 1024
  const MAX_CONNECTION_SEND_BYTES: nat := 1024 * 1024
  const MAX_STREAM_SEND_PACKETS: nat := 64
  const MAX_CONNECTION_SEND_PACKETS: nat := 256

  datatype State = State(
    streams: map<nat, Stream>,
    /** The history of every stream ever opened. */
    accounts: map<nat, Account>,
    sendBytes: int,
    sendPackets: int,
    writable: set<nat>,
    finished: seq<nat>
  )

  const EMPTY := State(map[], map[], 0, 0, {}, [])

  // ----- the queue operations -----

  /** The state with one stream replaced and the totals moved by the difference. */
  function Replace(s: State, id: nat, st: Stream, account: Account, writable: set<nat>): State
    requires id in s.streams
  {
    s.(streams := s.streams[id := st], accounts := s.accounts[id := account],
       sendBytes := s.sendBytes - s.streams[id].bytes + st.bytes,
       sendPackets := s.sendPackets - |s.streams[id].send| + |st.send|,
       writable := writable)
  }

  function Opened(s: State, id: nat): State {
    s.(streams := s.streams[id := EMPTY_STREAM], accounts := s.accounts[id := EMPTY_ACCOUNT])
  }

  /** Whether `size` more bytes may be queued on an unfinished stream. */
  predicate Room(s: State, id: nat, size: nat) {
    && id in s.streams
    && s.streams[id].finishedAt == None
    && s.streams[id].bytes + size <= MAX_STREAM_SEND_BYTES
    && s.sendBytes + size <= MAX_CONNECTION_SEND_BYTES
    && |s.streams[id].send| < MAX_STREAM_SEND_PACKETS
    && s.sendPackets < MAX_CONNECTION_SEND_PACKETS
  }

  function Queued(s: State, id: nat, data: Bytes): (State, bool)
    requires id in s.streams ==> id in s.accounts
  {
    if Room(s, id, |data|)
    then (Replace(s, id, Push(s.streams[id], data), Accept(s.accounts[id], data), s.writable + {id}), true)
    else (s, false)
  }

  function DatagramBytes(payload: Bytes): Bytes
    requires |payload| < Varint.MAX_VALUE
  {
    FrameBytes(Datagram([0] + payload))
  }

  /** A datagram is framed only if the worst-case frame would fit. */
  function DatagramQueued(s: State, id: nat, payload: Bytes): (State, bool)
    requires id in s.streams ==> id in s.accounts
  {
    if Room(s, id, |payload| + 17)
    then Queued(s, id, DatagramBytes(payload)) else (s, false)
  }

  function Finished(s: State, id: nat, now: int): State {
    if id in s.streams && s.streams[id].finishedAt == None
    then s.(streams := s.streams[id := s.streams[id].(finishedAt := Some(now))], finished := s.finished + [id])
    else s
  }

  ghost function Given(st: Stream, account: Account): Account {
    Gone(account, Dropped(Pending(st.send, st.offset)))
  }

  ghost function Discarded(s: State, id: nat): State
    requires id in s.streams ==> id in s.accounts
  {
    if id in s.streams
    then Replace(s, id, Cleared(s.streams[id]), Given(s.streams[id], s.accounts[id]), s.writable - {id})
    else s.(writable := s.writable - {id})
  }

  function Filtered(ids: seq<nat>, keep: nat -> bool): (r: seq<nat>)
    ensures forall x :: x in r <==> x in ids && keep(x)
  {
    if ids == [] then []
    else if keep(ids[0]) then [ids[0]] + Filtered(ids[1..], keep) else Filtered(ids[1..], keep)
  }

  function Without(ids: seq<nat>, id: nat): seq<nat> {
    Filtered(ids, x => x != id)
  }

  ghost function Removed(s: State, id: nat): State
    requires id in s.streams ==> id in s.accounts
  {
    if id in s.streams
    then s.(streams := s.streams - {id},
            accounts := s.accounts[id := Given(s.streams[id], s.accounts[id])],
            sendBytes := s.sendBytes - s.streams[id].bytes,
            sendPackets := s.sendPackets - |s.streams[id].send|,
            writable := s.writable - {id}, finished := Without(s.finished, id))
    else s.(writable := s.writable - {id}, finished := Without(s.finished, id))
  }

  /** A stream with output left and its input complete waits; `complete` are the IP streams not inside a capsule. */
  predicate Waits(streams: map<nat, Stream>, complete: set<nat>, id: nat) {
    id in streams && id in complete && streams[id].send != []
  }

  /** After a sweep of the finished list only the streams that must still drain are on it. */
  function Swept(s: State, complete: set<nat>): State {
    s.(finished := Filtered(s.finished, (x: nat) => Waits(s.streams, complete, x)))
  }

  ghost function Flushed(s: State, id: nat, replies: seq<Reply>): State
    requires id in s.streams ==> id in s.accounts && Consistent(s.streams[id])
  {
    if id !in s.writable then s
    else if id !in s.streams then s.(writable := s.writable - {id})
    else
      var (st, account) := Drained(s.streams[id], s.accounts[id], replies);
      Replace(s, id, st, account, if st.send == [] then s.writable - {id} else s.writable)
  }

  // ----- what every operation keeps -----

  ghost function ByteCounts(streams: map<nat, Stream>): map<nat, nat> {
    map id | id in streams :: streams[id].bytes
  }

  ghost function PacketCounts(streams: map<nat, Stream>): map<nat, nat> {
    map id | id in streams :: |streams[id].send|
  }

  ghost predicate Exact(s: State) {
    && s.sendBytes == Sum(ByteCounts(s.streams))
    && s.sendPackets == Sum(PacketCounts(s.streams))
  }

  ghost predicate Bounded(s: State) {
    s.sendBytes <= MAX_CONNECTION_SEND_BYTES && s.sendPackets <= MAX_CONNECTION_SEND_PACKETS
  }

  ghost predicate Sound(st: Stream, account: Account) {
    && Consistent(st) && Balanced(st, account)
    && st.bytes <= MAX_STREAM_SEND_BYTES && |st.send| <= MAX_STREAM_SEND_PACKETS
  }

  ghost predicate StreamsSound(s: State) {
    forall id :: id in s.streams ==> id in s.accounts && Sound(s.streams[id], s.accounts[id])
  }

  /** Everything with output to write will be visited, and nothing that is not a stream. */
  ghost predicate WritableCovers(s: State) {
    && s.writable <= s.streams.Keys
    && forall id :: id in s.streams && s.streams[id].send != [] ==> id in s.writable
  }

  ghost predicate FinishedListed(s: State) {
    && Distinct(s.finished)
    && forall id :: id in s.finished ==> id in s.streams && s.streams[id].finishedAt.Some?
  }

  ghost predicate Invariant(s: State) {
    Exact(s) && Bounded(s) && StreamsSound(s) && WritableCovers(s) && FinishedListed(s)
  }

  lemma PutCounts(s: State, id: nat, st: Stream)
    ensures ByteCounts(s.streams[id := st]) == ByteCounts(s.streams)[id := st.bytes]
    ensures PacketCounts(s.streams[id := st]) == PacketCounts(s.streams)[id := |st.send|]
  {
  }

  lemma ReplaceExact(s: State, id: nat, st: Stream, account: Account, writable: set<nat>)
    requires Exact(s) && id in s.streams
    ensures Exact(Replace(s, id, st, account, writable))
  {
    PutCounts(s, id, st);
    SumPut(ByteCounts(s.streams), id, st.bytes);
    SumPut(PacketCounts(s.streams), id, |st.send|);
  }

  lemma ReplaceKeeps(s: State, id: nat, st: Stream, account: Account, writable: set<nat>)
    requires Invariant(s) && id in s.streams && Sound(st, account)
    requires st.finishedAt == s.streams[id].finishedAt
    requires writable == s.writable + {id} || (writable == s.writable - {id} && st.send == [])
    requires Bounded(Replace(s, id, st, account, writable))
    ensures Invariant(Replace(s, id, st, account, writable))
  {
    ReplaceExact(s, id, st, account, writable);
  }

  /** No subtraction from a total can go below zero. */
  lemma PartBelowTotal(s: State, id: nat)
    requires Exact(s) && id in s.streams
    ensures s.streams[id].bytes <= s.sendBytes && |s.streams[id].send| <= s.sendPackets
  {
    SumRemove(ByteCounts(s.streams), id);
    SumRemove(PacketCounts(s.streams), id);
  }

  lemma OpenExact(s: State, id: nat)
    requires Exact(s) && id !in s.streams
    ensures Exact(Opened(s, id))
  {
    PutCounts(s, id, EMPTY_STREAM);
    SumPut(ByteCounts(s.streams), id, 0);
    SumPut(PacketCounts(s.streams), id, 0);
  }

  lemma EmptySound()
    ensures Sound(EMPTY_STREAM, EMPTY_ACCOUNT)
  {
    assert StreamScan.Concat([]) == [] && Replay([]) == [];
  }

  lemma OpenSound(s: State, id: nat)
    requires StreamsSound(s) && id !in s.streams
    ensures StreamsSound(Opened(s, id))
  {
    EmptySound();
  }

  lemma OpenListed(s: State, id: nat)
    requires WritableCovers(s) && FinishedListed(s) && id !in s.streams
    ensures WritableCovers(Opened(s, id)) && FinishedListed(Opened(s, id))
  {
  }

  lemma OpenKeeps(s: State, id: nat)
    requires Invariant(s) && id !in s.streams
    ensures Invariant(Opened(s, id))
  {
    OpenExact(s, id);
    OpenSound(s, id);
    OpenListed(s, id);
  }

  lemma QueueKeeps(s: State, id: nat, data: Bytes)
    requires Invariant(s)
    ensures Invariant(Queued(s, id, data).0)
  {
    if Room(s, id, |data|) {
      PushKeeps(s.streams[id], s.accounts[id], data);
      ReplaceKeeps(s, id, Push(s.streams[id], data), Accept(s.accounts[id], data), s.writable + {id});
    }
  }

  lemma FinishExact(s: State, id: nat, now: int)
    requires Exact(s)
    ensures Exact(Finished(s, id, now))
  {
    var s' := Finished(s, id, now);
    assert ByteCounts(s'.streams) == ByteCounts(s.streams);
    assert PacketCounts(s'.streams) == PacketCounts(s.streams);
  }

  lemma FinishSound(s: State, id: nat, now: int)
    requires StreamsSound(s)
    ensures StreamsSound(Finished(s, id, now))
  {
  }

  lemma FinishListed(s: State, id: nat, now: int)
    requires FinishedListed(s)
    ensures FinishedListed(Finished(s, id, now))
  {
    if id in s.streams && s.streams[id].finishedAt == None {
      assert id !in s.finished;
    }
  }

  lemma FinishCovers(s: State, id: nat, now: int)
    requires WritableCovers(s)
    ensures WritableCovers(Finished(s, id, now))
  {
  }

  lemma FinishKeeps(s: State, id: nat, now: int)
    requires Invariant(s)
    ensures Invariant(Finished(s, id, now))
  {
    FinishExact(s, id, now);
    FinishSound(s, id, now);
    FinishListed(s, id, now);
    FinishCovers(s, id, now);
  }

  lemma DiscardKeeps(s: State, id: nat)
    requires Invariant(s)
    ensures Invariant(Discarded(s, id))
  {
    if id in s.streams {
      ClearKeeps(s.streams[id], s.accounts[id]);
      ReplaceKeeps(s, id, Cleared(s.streams[id]), Given(s.streams[id], s.accounts[id]), s.writable - {id});
    }
  }

  lemma {:induction false} FilteredDistinct(ids: seq<nat>, keep: nat -> bool)
    requires Distinct(ids)
    ensures Distinct(Filtered(ids, keep))
  {
    if ids != [] {
      FilteredDistinct(ids[1..], keep);
      assert ids[0] !in ids[1..];
    }
  }

  lemma RemoveExact(s: State, id: nat)
    requires Exact(s) && (id in s.streams ==> id in s.accounts)
    ensures Exact(Removed(s, id))
  {
    if id in s.streams {
      SumRemove(ByteCounts(s.streams), id);
      SumRemove(PacketCounts(s.streams), id);
      assert ByteCounts(s.streams - {id}) == ByteCounts(s.streams) - {id};
      assert PacketCounts(s.streams - {id}) == PacketCounts(s.streams) - {id};
    }
  }

  lemma RemoveListed(s: State, id: nat)
    requires FinishedListed(s) && (id in s.streams ==> id in s.accounts)
    ensures FinishedListed(Removed(s, id))
  {
    FilteredDistinct(s.finished, x => x != id);
  }

  lemma RemoveSound(s: State, id: nat)
    requires StreamsSound(s)
    ensures StreamsSound(Removed(s, id))
  {
  }

  lemma RemoveKeeps(s: State, id: nat)
    requires Invariant(s)
    ensures Invariant(Removed(s, id))
  {
    RemoveExact(s, id);
    RemoveListed(s, id);
    RemoveSound(s, id);
  }

  lemma DrainSound(st: Stream, account: Account, replies: seq<Reply>)
    requires Sound(st, account)
    ensures Sound(Drained(st, account, replies).0, Drained(st, account, replies).1)
    ensures Drained(st, account, replies).0.finishedAt == st.finishedAt
    ensures Drained(st, account, replies).0.bytes <= st.bytes
    ensures |Drained(st, account, replies).0.send| <= |st.send|
  {
    DrainBalanced(st, account, replies);
    DrainShrinks(st, account, replies);
  }

  lemma FlushKeeps(s: State, id: nat, replies: seq<Reply>)
    requires Invariant(s)
    ensures Invariant(Flushed(s, id, replies))
  {
    if id in s.writable {
      DrainSound(s.streams[id], s.accounts[id], replies);
      var (st, account) := Drained(s.streams[id], s.accounts[id], replies);
      var writable := if st.send == [] then s.writable - {id} else s.writable;
      assert s.writable + {id} == s.writable;
      ReplaceKeeps(s, id, st, account, writable);
    }
  }

  lemma SweepKeeps(s: State, complete: set<nat>)
    requires Invariant(s)
    ensures Invariant(Swept(s, complete))
  {
    FilteredDistinct(s.finished, (x: nat) => Waits(s.streams, complete, x));
  }

  // ----- what each operation does -----

  /** With this buffer on the stream, every limit would still hold. */
  ghost predicate Fits(s: State, id: nat, data: Bytes)
    requires id in s.streams && id in s.accounts
  {
    var st, account := Push(s.streams[id], data), Accept(s.accounts[id], data);
    Sound(st, account) && Bounded(Replace(s, id, st, account, s.writable + {id}))
  }

  /** The same in numbers: bytes and buffers of the stream and of the connection. */
  ghost predicate WithinLimits(s: State, id: nat, size: nat)
    requires id in s.streams
  {
    && |StreamScan.Concat(s.streams[id].send)| + size <= 256 * 1024
    && |s.streams[id].send| + 1 <= 64
    && Sum(ByteCounts(s.streams)) + size <= 1024 * 1024
    && Sum(PacketCounts(s.streams)) + 1 <= 256
  }

  lemma FitsInNumbers(s: State, id: nat, data: Bytes)
    requires Invariant(s) && id in s.streams
    ensures Fits(s, id, data) <==> WithinLimits(s, id, |data|)
  {
    PushKeeps(s.streams[id], s.accounts[id], data);
  }

  /** A buffer is refused only on a stream that is unknown or finished, or if it would break a limit. */
  lemma QueueDecides(s: State, id: nat, data: Bytes)
    requires Invariant(s)
    ensures Queued(s, id, data).1 <==>
            && id in s.streams && s.streams[id].finishedAt.None?
            && Fits(s, id, data)
    ensures Queued(s, id, data).1 <==>
            && id in s.streams && s.streams[id].finishedAt.None?
            && WithinLimits(s, id, |data|)
  {
    if id in s.streams {
      FitsInNumbers(s, id, data);
    }
  }

  /** The check before framing is exactly the decision: a frame that passes it is always queued. */
  lemma PrecheckDecides(s: State, id: nat, payload: Bytes)
    requires id in s.streams ==> id in s.accounts
    ensures DatagramQueued(s, id, payload).1 <==> Room(s, id, |payload| + 17)
  {
    if Room(s, id, |payload| + 17) {
      assert |DatagramBytes(payload)| <= |payload| + 10;
    }
  }

  /** A datagram is refused only there, or if a frame of 17 bytes more than its payload would break a limit. */
  lemma DatagramDecides(s: State, id: nat, payload: Bytes)
    requires Invariant(s)
    ensures DatagramQueued(s, id, payload).1 <==>
            && id in s.streams && s.streams[id].finishedAt.None?
            && WithinLimits(s, id, |payload| + 17)
    ensures DatagramQueued(s, id, payload).1 <==>
            && id in s.streams && s.streams[id].finishedAt.None?
            && forall frame :: |frame| == |payload| + 17 ==> Fits(s, id, frame)
  {
    PrecheckDecides(s, id, payload);
    if id in s.streams {
      var worst: Bytes := seq(|payload| + 17, _ => 0);
      forall frame: Bytes | |frame| == |payload| + 17
        ensures Fits(s, id, frame) <==> WithinLimits(s, id, |payload| + 17)
      {
        FitsInNumbers(s, id, frame);
      }
      assert |worst| == |payload| + 17;
    }
  }

  /** Nothing changes except on one stream. */
  ghost predicate OnlyAt(s: State, t: State, id: nat) {
    forall x :: x != id ==>
      && (x in t.streams <==> x in s.streams) && (x in s.streams ==> t.streams[x] == s.streams[x])
      && (x in t.accounts <==> x in s.accounts) && (x in s.accounts ==> t.accounts[x] == s.accounts[x])
      && (x in t.writable <==> x in s.writable) && (x in t.finished <==> x in s.finished)
  }

  /** One more buffer behind the others, to be written; nothing leaves the queue. */
  ghost predicate Gains(s: State, t: State, id: nat, data: Bytes)
    requires id in s.streams && id in s.accounts
  {
    && OnlyAt(s, t, id) && t.finished == s.finished
    && id in t.streams && id in t.accounts && id in t.writable
    && t.streams[id].send == s.streams[id].send + [data]
    && t.streams[id].offset == s.streams[id].offset
    && t.streams[id].finishedAt == s.streams[id].finishedAt
    && t.accounts[id].accepted == s.accounts[id].accepted + data
    && t.accounts[id].runs == s.accounts[id].runs
  }

  lemma QueueEffect(s: State, id: nat, data: Bytes)
    requires Invariant(s)
    ensures var (t, ok) := Queued(s, id, data);
            if ok then id in s.streams && id in s.accounts && Gains(s, t, id, data) else t == s
  {
  }

  lemma DatagramEffect(s: State, id: nat, payload: Bytes)
    requires Invariant(s)
    ensures var (t, ok) := DatagramQueued(s, id, payload);
            && (!ok ==> t == s)
            && (ok ==> |payload| < Varint.MAX_VALUE && id in s.streams && id in s.accounts &&
                       Gains(s, t, id, FrameBytes(Datagram([0] + payload))))
  {
    PrecheckDecides(s, id, payload);
    if Room(s, id, |payload| + 17) {
      QueueEffect(s, id, DatagramBytes(payload));
    }
  }

  lemma OpenEffect(s: State, id: nat)
    requires Invariant(s) && id !in s.streams
    ensures var t := Opened(s, id);
            && OnlyAt(s, t, id) && t.finished == s.finished && t.writable == s.writable
            && id in t.streams && t.streams[id].send == [] && t.streams[id].finishedAt.None?
            && id in t.accounts && t.accounts[id].accepted == [] && t.accounts[id].runs == []
  {
  }

  /** The first finish is recorded and listed; a later one, or one of an unknown stream, changes nothing. */
  lemma FinishEffect(s: State, id: nat, now: int)
    requires Invariant(s)
    ensures var t := Finished(s, id, now);
            if id in s.streams && s.streams[id].finishedAt.None? then
              && OnlyAt(s, t, id) && t.finished == s.finished + [id] && t.accounts == s.accounts
              && t.streams[id] == s.streams[id].(finishedAt := Some(now)) && t.writable == s.writable
            else t == s
  {
  }

  /** Exactly what is pending on the stream is given up, and no longer counted. */
  ghost predicate GivesUp(s: State, t: State, id: nat)
    requires id in s.streams && id in s.accounts
  {
    && id in t.accounts && t.accounts[id].accepted == s.accounts[id].accepted
    && t.accounts[id].runs ==
       s.accounts[id].runs + [Dropped(Pending(s.streams[id].send, s.streams[id].offset))]
    && t.sendBytes == s.sendBytes - |StreamScan.Concat(s.streams[id].send)|
    && t.sendPackets == s.sendPackets - |s.streams[id].send|
  }

  lemma DiscardEffect(s: State, id: nat)
    requires Invariant(s)
    ensures var t := Discarded(s, id);
            && OnlyAt(s, t, id) && id !in t.writable && t.finished == s.finished
            && (id !in s.streams ==> t == s)
            && (id in s.streams ==>
                  && id in s.accounts && GivesUp(s, t, id)
                  && id in t.streams && t.streams[id].send == []
                  && t.streams[id].finishedAt == s.streams[id].finishedAt)
  {
    assert id !in s.streams ==> s.writable - {id} == s.writable;
  }

  lemma RemoveEffect(s: State, id: nat)
    requires Invariant(s)
    ensures var t := Removed(s, id);
            && OnlyAt(s, t, id) && id !in t.streams && id !in t.writable && id !in t.finished
            && (id in s.streams ==> id in s.accounts && GivesUp(s, t, id))
            && (id !in s.streams ==> t.sendBytes == s.sendBytes && t.sendPackets == s.sendPackets)
  {
  }

  /** A sweep leaves listed exactly the finished streams that have output and whose input is complete. */
  lemma SweepEffect(s: State, complete: set<nat>)
    requires Invariant(s)
    ensures var t := Swept(s, complete);
            && t == s.(finished := t.finished) && Distinct(t.finished)
            && forall id :: id in t.finished <==> id in s.finished && id in complete && s.streams[id].send != []
  {
    SweepKeeps(s, complete);
  }

  // ----- runs -----

  datatype Event =
    | Open(id: nat)
    | Queue(id: nat, data: Bytes)
    | QueueDatagram(id: nat, payload: Bytes)
    | Finish(id: nat, now: int)
    | Discard(id: nat)
    | Remove(id: nat)
    | Flush(id: nat, replies: seq<Reply>)
    | Sweep(complete: set<nat>)

  /** A request opens its stream once; everything else may happen at any time. */
  ghost predicate Enabled(s: State, e: Event) {
    e.Open? ==> e.id !in s.streams
  }

  ghost function After(s: State, e: Event): State
    requires Invariant(s)
  {
    match e
    case Open(id) => Opened(s, id)
    case Queue(id, data) => Queued(s, id, data).0
    case QueueDatagram(id, payload) => DatagramQueued(s, id, payload).0
    case Finish(id, now) => Finished(s, id, now)
    case Discard(id) => Discarded(s, id)
    case Remove(id) => Removed(s, id)
    case Flush(id, replies) => Flushed(s, id, replies)
    case Sweep(complete) => Swept(s, complete)
  }

  lemma DatagramKeeps(s: State, id: nat, payload: Bytes)
    requires Invariant(s)
    ensures Invariant(DatagramQueued(s, id, payload).0)
  {
    if Room(s, id, |payload| + 17) {
      QueueKeeps(s, id, DatagramBytes(payload));
    }
  }

  lemma StepKeeps(s: State, e: Event)
    requires Invariant(s) && Enabled(s, e)
    ensures Invariant(After(s, e))
  {
    match e
    case Open(id) => OpenKeeps(s, id);
    case Queue(id, data) => QueueKeeps(s, id, data);
    case QueueDatagram(id, payload) => DatagramKeeps(s, id, payload);
    case Finish(id, now) => FinishKeeps(s, id, now);
    case Discard(id) => DiscardKeeps(s, id);
    case Remove(id) => RemoveKeeps(s, id);
    case Flush(id, replies) => FlushKeeps(s, id, replies);
    case Sweep(complete) => SweepKeeps(s, complete);
  }

  ghost predicate Run(s: State, events: seq<Event>, t: State)
    requires Invariant(s)
    decreases |events|
  {
    if events == [] then s == t
    else Enabled(s, events[0]) && (StepKeeps(s, events[0]); Run(After(s, events[0]), events[1..], t))
  }

  /** Totals, limits, conservation and coverage hold after every run. */
  lemma {:induction false} EveryRun(s: State, events: seq<Event>, t: State)
    requires Invariant(s) && Run(s, events, t)
    ensures Invariant(t)
    decreases |events|
  {
    if events != [] {
      StepKeeps(s, events[0]);
      EveryRun(After(s, events[0]), events[1..], t);
    }
  }

  /** The buffers a run puts on one stream, in order. */
  ghost function Accepted(s: State, events: seq<Event>, id: nat): seq<Bytes>
    requires Invariant(s)
    decreases |events|
  {
    if events == [] || !Enabled(s, events[0]) then [] else
    StepKeeps(s, events[0]);
    AcceptedNow(s, events[0], id) + Accepted(After(s, events[0]), events[1..], id)
  }

  ghost function AcceptedNow(s: State, e: Event, id: nat): seq<Bytes>
    requires Invariant(s)
  {
    if e.Queue? && e.id == id && Queued(s, id, e.data).1 then [e.data]
    else if e.QueueDatagram? && e.id == id && DatagramQueued(s, id, e.payload).1
    then (DatagramEffect(s, id, e.payload); [FrameBytes(Datagram([0] + e.payload))])
    else []
  }

  /** How a step may change an open stream: it accepts `added`, which is nothing once it has finished. */
  ghost predicate Carries(s: State, s': State, id: nat, added: seq<Bytes>) {
    && id in s.streams && id in s.accounts
    && id in s'.streams && id in s'.accounts
    && s'.accounts[id].accepted == s.accounts[id].accepted + StreamScan.Concat(added)
    && (s.streams[id].finishedAt.Some? ==> s'.streams[id].finishedAt == s.streams[id].finishedAt && added == [])
    && (forall b :: b in s'.streams[id].send ==> b in s.streams[id].send || b in added)
  }

  lemma InAppended(send: seq<Bytes>, data: Bytes)
    ensures forall b :: b in send + [data] ==> b in send || b in [data]
  {
  }

  lemma QueueCarries(s: State, owner: nat, data: Bytes, id: nat)
    requires Invariant(s) && id in s.streams
    ensures Carries(s, Queued(s, owner, data).0, id, if owner == id && Room(s, id, |data|) then [data] else [])
    ensures Queued(s, owner, data).0.accounts[id].runs == s.accounts[id].runs
  {
    if owner == id && Room(s, id, |data|) {
      StreamScan.ConcatOne(data);
      InAppended(s.streams[id].send, data);
    }
  }

  lemma DatagramCarries(s: State, owner: nat, payload: Bytes, id: nat)
    requires Invariant(s) && id in s.streams
    ensures Carries(s, DatagramQueued(s, owner, payload).0, id, AcceptedNow(s, QueueDatagram(owner, payload), id))
    ensures DatagramQueued(s, owner, payload).0.accounts[id].runs == s.accounts[id].runs
  {
    PrecheckDecides(s, owner, payload);
    if Room(s, owner, |payload| + 17) {
      QueueCarries(s, owner, DatagramBytes(payload), id);
    }
  }

  lemma FlushCarries(s: State, owner: nat, replies: seq<Reply>, id: nat)
    requires Invariant(s) && id in s.streams
    ensures Carries(s, Flushed(s, owner, replies), id, [])
    ensures owner != id ==> Flushed(s, owner, replies).accounts[id] == s.accounts[id]
    ensures Failed !in replies && NoDrops(s.accounts[id].runs) ==>
              NoDrops(Flushed(s, owner, replies).accounts[id].runs)
  {
    DrainShrinks(s.streams[id], s.accounts[id], replies);
  }

  lemma OpenCarries(s: State, owner: nat, id: nat)
    requires id in s.streams && id in s.accounts && owner !in s.streams
    ensures Carries(s, Opened(s, owner), id, []) && Opened(s, owner).accounts[id] == s.accounts[id]
  {
  }

  lemma FinishCarries(s: State, owner: nat, now: int, id: nat)
    requires id in s.streams && id in s.accounts
    ensures Carries(s, Finished(s, owner, now), id, []) && Finished(s, owner, now).accounts[id] == s.accounts[id]
  {
  }

  lemma DiscardCarries(s: State, owner: nat, id: nat)
    requires id in s.streams && id in s.accounts && (owner in s.streams ==> owner in s.accounts)
    ensures Carries(s, Discarded(s, owner), id, [])
    ensures owner != id ==> Discarded(s, owner).accounts[id] == s.accounts[id]
  {
  }

  lemma RemoveCarries(s: State, owner: nat, id: nat)
    requires id in s.streams && id in s.accounts && (owner in s.streams ==> owner in s.accounts) && owner != id
    ensures Carries(s, Removed(s, owner), id, []) && Removed(s, owner).accounts[id] == s.accounts[id]
  {
  }

  /** The events that can cost a stream accepted bytes are a discard, a removal and a failed send. */
  predicate GivesUpNothing(e: Event, id: nat) {
    && e != Discard(id)
    && e != Remove(id)
    && (e.Flush? && e.id == id ==> Failed !in e.replies)
  }

  lemma SweepCarries(s: State, complete: set<nat>, id: nat)
    requires id in s.streams && id in s.accounts
    ensures Carries(s, Swept(s, complete), id, [])
  {
  }

  /** What one event does to one open stream's history. */
  lemma StepCarries(s: State, e: Event, id: nat)
    requires Invariant(s) && Enabled(s, e) && id in s.streams && e != Remove(id)
    ensures Carries(s, After(s, e), id, AcceptedNow(s, e, id))
  {
    match e
    case Queue(owner, data) => QueueCarries(s, owner, data, id);
    case QueueDatagram(owner, payload) => DatagramCarries(s, owner, payload, id);
    case Flush(owner, replies) => FlushCarries(s, owner, replies, id);
    case Open(owner) => OpenCarries(s, owner, id);
    case Finish(owner, now) => FinishCarries(s, owner, now, id);
    case Discard(owner) => DiscardCarries(s, owner, id);
    case Remove(owner) => RemoveCarries(s, owner, id);
    case Sweep(complete) => SweepCarries(s, complete, id);
  }

  lemma StepDropsNothing(s: State, e: Event, id: nat)
    requires Invariant(s) && Enabled(s, e) && id in s.streams && id in s.accounts
    requires GivesUpNothing(e, id) && NoDrops(s.accounts[id].runs)
    ensures id in After(s, e).accounts && NoDrops(After(s, e).accounts[id].runs)
  {
    match e
    case Queue(owner, data) => QueueCarries(s, owner, data, id);
    case QueueDatagram(owner, payload) => DatagramCarries(s, owner, payload, id);
    case Flush(owner, replies) => FlushCarries(s, owner, replies, id);
    case _ =>
  }

  /** A finished stream accepts nothing more and keeps its finish time until it is removed. */
  lemma {:induction false} FinishedIsFinal(s: State, events: seq<Event>, t: State, id: nat)
    requires Invariant(s) && Run(s, events, t)
    requires id in s.streams && s.streams[id].finishedAt.Some? && Remove(id) !in events
    ensures Invariant(t) && id in t.streams
    ensures t.streams[id].finishedAt == s.streams[id].finishedAt
    ensures t.accounts[id].accepted == s.accounts[id].accepted
    decreases |events|
  {
    if events != [] {
      StepKeeps(s, events[0]);
      StepCarries(s, events[0], id);
      FinishedIsFinal(After(s, events[0]), events[1..], t, id);
    }
  }

  /**
    Over a run that never discards, removes or fails the stream, the transport takes exactly
    the buffers queued, in order and without gaps; the rest is still pending.
   */
  lemma {:induction false} LosslessRun(s: State, events: seq<Event>, t: State, id: nat)
    requires Invariant(s) && Run(s, events, t) && id in s.streams && NoDrops(s.accounts[id].runs)
    requires forall e :: e in events ==> GivesUpNothing(e, id)
    ensures Invariant(t) && id in t.streams && NoDrops(t.accounts[id].runs)
    ensures t.accounts[id].accepted == s.accounts[id].accepted + StreamScan.Concat(Accepted(s, events, id))
    ensures t.accounts[id].accepted
         == SentBytes(t.accounts[id].runs) + Pending(t.streams[id].send, t.streams[id].offset)
    decreases |events|
  {
    if events == [] {
      SentInOrder(t.streams[id], t.accounts[id]);
    } else {
      var e, rest := events[0], events[1..];
      assert e in events;
      StepKeeps(s, e);
      StepCarries(s, e, id);
      StepDropsNothing(s, e, id);
      LosslessRun(After(s, e), rest, t, id);
      var now, later := AcceptedNow(s, e, id), Accepted(After(s, e), rest, id);
      StreamScan.ConcatSplit(now, later);
      StreamScan.Associate(s.accounts[id].accepted, StreamScan.Concat(now), StreamScan.Concat(later));
    }
  }

  // ----- delivery -----

  /** Flushed by a willing transport, a stream drains if and only if no buffer on it is empty. */
  lemma FlushDrainsExactly(s: State, id: nat, replies: seq<Reply>)
    requires Invariant(s) && id in s.streams && Generous(replies)
    requires |replies| >= |Pending(s.streams[id].send, s.streams[id].offset)|
    ensures id in Flushed(s, id, replies).streams
    ensures Flushed(s, id, replies).streams[id].send == [] <==> NoneEmpty(s.streams[id].send)
  {
    DrainsExactly(s.streams[id], s.accounts[id], replies);
  }

  /**
    A stream whose accepted bytes are whole frames, flushed by a willing transport, drains; a
    peer that receives the sent bytes in any chunks then decodes exactly those frames.
   */
  lemma FlushDelivers(
    s: State, id: nat, replies: seq<Reply>, frames: seq<CapsuleFrame>, chunks: seq<Bytes>, max: nat)
    requires Invariant(s) && id in s.streams && NoDrops(s.accounts[id].runs) && NoneEmpty(s.streams[id].send)
    requires Generous(replies) && |replies| >= |Pending(s.streams[id].send, s.streams[id].offset)|
    requires AllEncodable(frames) && AllSendable(frames, max) && s.accounts[id].accepted == FramesBytes(frames)
    requires id in Flushed(s, id, replies).accounts
    requires StreamScan.Concat(chunks) == SentBytes(Flushed(s, id, replies).accounts[id].runs)
    ensures id in Flushed(s, id, replies).streams && Flushed(s, id, replies).streams[id].send == []
    ensures StreamScan.Incremental(DecodeStep(FRAMES, max))
    ensures StreamScan.Fed(DecodeStep(FRAMES, max), [], chunks) == StreamScan.Feed(frames, [], None)
  {
    var t := Flushed(s, id, replies);
    FlushDrainsExactly(s, id, replies);
    FlushKeeps(s, id, replies);
    FlushCarries(s, id, replies, id);
    GenerousNeverFails(replies);
    SentInOrder(t.streams[id], t.accounts[id]);
    assert t.accounts[id].accepted == s.accounts[id].accepted + [] == FramesBytes(frames);
    StreamRoundTrip(frames, chunks, max);
  }

  lemma GenerousNeverFails(replies: seq<Reply>)
    requires Generous(replies)
    ensures Failed !in replies
  {
  }

  /** Every buffer on a queue was put there by the run, or was there before. */
  lemma {:induction false} BuffersQueued(s: State, events: seq<Event>, t: State, id: nat)
    requires Invariant(s) && Run(s, events, t) && id in s.streams
    requires forall e :: e in events ==> GivesUpNothing(e, id)
    ensures id in t.streams
    ensures forall b :: b in t.streams[id].send ==> b in s.streams[id].send || b in Accepted(s, events, id)
    decreases |events|
  {
    if events != [] {
      var e, rest := events[0], events[1..];
      assert e in events;
      StepKeeps(s, e);
      StepCarries(s, e, id);
      BuffersQueued(After(s, e), rest, t, id);
    }
  }

  ghost function Encodings(frames: seq<CapsuleFrame>): (s: seq<Bytes>)
    requires AllEncodable(frames)
    ensures NoneEmpty(s)
    ensures StreamScan.Concat(s) == FramesBytes(frames)
  {
    if frames == [] then [] else [FrameBytes(frames[0])] + Encodings(frames[1..])
  }

  /**
    End to end: frames queued one by one on a fresh stream, whatever else the connection does
    short of giving the stream up, reach the peer exactly and in order once a willing transport
    has been offered the rest.
   */
  lemma QueuedFramesArrive(
    s: State, events: seq<Event>, t: State, id: nat, replies: seq<Reply>,
    frames: seq<CapsuleFrame>, chunks: seq<Bytes>, max: nat)
    requires Invariant(s) && Run(s, events, t) && id in s.streams && id in s.accounts
    requires s.streams[id] == EMPTY_STREAM && s.accounts[id] == EMPTY_ACCOUNT
    requires forall e :: e in events ==> GivesUpNothing(e, id)
    requires AllEncodable(frames) && AllSendable(frames, max) && Accepted(s, events, id) == Encodings(frames)
    requires Invariant(t) && id in t.streams && Generous(replies)
    requires |replies| >= |Pending(t.streams[id].send, t.streams[id].offset)|
    requires id in Flushed(t, id, replies).accounts
    requires StreamScan.Concat(chunks) == SentBytes(Flushed(t, id, replies).accounts[id].runs)
    ensures StreamScan.Incremental(DecodeStep(FRAMES, max))
    ensures StreamScan.Fed(DecodeStep(FRAMES, max), [], chunks) == StreamScan.Feed(frames, [], None)
  {
    LosslessRun(s, events, t, id);
    BuffersQueued(s, events, t, id);
    assert t.accounts[id].accepted == FramesBytes(frames);
    FlushDelivers(t, id, replies, frames, chunks, max);
  }

  // ----- the connection object -----

  /** What a flush of the streams in `done` makes of one stream. */
  ghost predicate FlushedAt(s: State, t: State, done: set<nat>, oracle: nat -> seq<Reply>, id: nat)
    requires StreamsSound(s)
  {
    && (id in t.streams <==> id in s.streams) && (id in t.accounts <==> id in s.accounts)
    && (id in s.streams && id in done ==>
          (t.streams[id], t.accounts[id]) == Drained(s.streams[id], s.accounts[id], oracle(id)))
    && (id in s.streams && id !in done ==> t.streams[id] == s.streams[id])
    && (id in s.accounts && (id !in s.streams || id !in done) ==> t.accounts[id] == s.accounts[id])
    && (id in t.writable <==>
          id in s.writable && (id in done ==> id in t.streams && t.streams[id].send != []))
  }

  /** Progress of a flush: streams in `done` have been offered to the transport, others are untouched. */
  ghost predicate FlushedIn(s: State, t: State, done: set<nat>, oracle: nat -> seq<Reply>)
    requires StreamsSound(s)
  {
    t.finished == s.finished && forall id :: FlushedAt(s, t, done, oracle, id)
  }

  lemma FlushStepAt(s: State, t: State, done: set<nat>, oracle: nat -> seq<Reply>, id: nat, x: nat)
    requires StreamsSound(s) && StreamsSound(t)
    requires FlushedAt(s, t, done, oracle, id) && FlushedAt(s, t, done, oracle, x)
    requires id in s.writable && id in s.streams && id !in done
    ensures FlushedAt(s, Flushed(t, id, oracle(id)), done + {id}, oracle, x)
  {
    assert t.accounts[id] == s.accounts[id];
  }

  lemma FlushStep(s: State, t: State, done: set<nat>, oracle: nat -> seq<Reply>, id: nat)
    requires StreamsSound(s) && StreamsSound(t) && FlushedIn(s, t, done, oracle)
    requires id in s.writable && id in s.streams && id !in done
    ensures FlushedIn(s, Flushed(t, id, oracle(id)), done + {id}, oracle)
  {
    assert FlushedAt(s, t, done, oracle, id);
    forall x: nat ensures FlushedAt(s, Flushed(t, id, oracle(id)), done + {id}, oracle, x) {
      assert FlushedAt(s, t, done, oracle, x);
      FlushStepAt(s, t, done, oracle, id, x);
    }
  }

  class Connection {
    var streams: map<nat, Stream>
    ghost var accounts: map<nat, Account>
    var sendBytes: nat
    var sendPackets: nat
    var writable: set<nat>
    var finished: seq<nat>

    ghost function View(): State
      reads this
    {
      State(streams, accounts, sendBytes, sendPackets, writable, finished)
    }

    ghost predicate Valid()
      reads this
    {
      Invariant(View())
    }

    constructor ()
      ensures Valid() && View() == EMPTY
    {
      streams, accounts, sendBytes, sendPackets, writable, finished := map[], map[], 0, 0, {}, [];
      new;
      assert ByteCounts(streams) == map[] && PacketCounts(streams) == map[];
    }

    method OpenStream(id: nat)
      requires Valid() && id !in streams
      modifies this
      ensures Valid() && View() == Opened(old(View()), id)
    {
      OpenKeeps(View(), id);
      Insert(id);
    }

    /** The body of `OpenStream`. */
    method Insert(id: nat)
      modifies this
      ensures View() == Opened(old(View()), id)
    {
      streams := streams[id := EMPTY_STREAM];
      accounts := accounts[id := EMPTY_ACCOUNT];
    }

    method QueueCapsuleBytes(id: nat, data: Bytes) returns (ok: bool)
      requires Valid()
      modifies this
      ensures Valid() && (View(), ok) == Queued(old(View()), id, data)
      ensures ok <==> && id in old(streams) && old(streams)[id].finishedAt.None?
                      && WithinLimits(old(View()), id, |data|)
    {
      QueueDecides(View(), id, data);
      QueueKeeps(View(), id, data);
      ok := Enqueue(id, data);
    }

    /** The body of `QueueCapsuleBytes`, whatever else holds of the connection. */
    method Enqueue(id: nat, data: Bytes) returns (ok: bool)
      requires id in streams ==> id in accounts
      modifies this
      ensures (View(), ok) == Queued(old(View()), id, data)
    {
      if id !in streams {
        return false;
      }
      var st := streams[id];
      if || st.finishedAt.Some?
         || st.bytes + |data| > MAX_STREAM_SEND_BYTES
         || sendBytes + |data| > MAX_CONNECTION_SEND_BYTES
         || |st.send| >= MAX_STREAM_SEND_PACKETS
         || sendPackets >= MAX_CONNECTION_SEND_PACKETS {
        return false;
      }
      sendBytes := sendBytes + |data|;
      sendPackets := sendPackets + 1;
      streams := streams[id := st.(bytes := st.bytes + |data|, send := st.send + [data])];
      accounts := accounts[id := Accept(accounts[id], data)];
      writable := writable + {id};
      return true;
    }

    method QueueDatagramCapsule(id: nat, payload: Bytes) returns (ok: bool)
      requires Valid()
      modifies this
      ensures Valid() && (View(), ok) == DatagramQueued(old(View()), id, payload)
      ensures ok <==> && id in old(streams) && old(streams)[id].finishedAt.None?
                      && WithinLimits(old(View()), id, |payload| + 17)
    {
      DatagramKeeps(View(), id, payload);
      DatagramDecides(View(), id, payload);
      ok := EnqueueDatagram(id, payload);
    }

    /** The body of `QueueDatagramCapsule`. */
    method EnqueueDatagram(id: nat, payload: Bytes) returns (ok: bool)
      requires id in streams ==> id in accounts
      modifies this
      ensures (View(), ok) == DatagramQueued(old(View()), id, payload)
    {
      if id !in streams {
        return false;
      }
      var st := streams[id];
      if || st.finishedAt.Some?
         || sendBytes + (|payload| + 17) > MAX_CONNECTION_SEND_BYTES
         || st.bytes + (|payload| + 17) > MAX_STREAM_SEND_BYTES
         || |st.send| >= MAX_STREAM_SEND_PACKETS
         || sendPackets >= MAX_CONNECTION_SEND_PACKETS {
        return false;
      }
      var capsule := EncodeDatagramContextZero(payload, []);
      assert capsule == DatagramBytes(payload);
      ok := Enqueue(id, capsule);
    }

    method MarkFinished(id: nat, now: int)
      requires Valid()
      modifies this
      ensures Valid() && View() == Finished(old(View()), id, now)
    {
      FinishKeeps(View(), id, now);
      if id in streams && streams[id].finishedAt.None? {
        streams := streams[id := streams[id].(finishedAt := Some(now))];
        finished := finished + [id];
      }
    }

    method DiscardOutput(id: nat)
      requires Valid()
      modifies this
      ensures Valid() && View() == Discarded(old(View()), id)
    {
      DiscardKeeps(View(), id);
      if id in streams {
        PartBelowTotal(View(), id);
      }
      Discard(id);
    }

    /** The body of `DiscardOutput`. */
    method Discard(id: nat)
      requires id in streams ==>
                 id in accounts && streams[id].bytes <= sendBytes && |streams[id].send| <= sendPackets
      modifies this
      ensures View() == Discarded(old(View()), id)
    {
      if id in streams {
        var st := streams[id];
        sendBytes := sendBytes - st.bytes;
        sendPackets := sendPackets - |st.send|;
        streams := streams[id := st.(send := [], bytes := 0, offset := 0)];
        accounts := accounts[id := Given(st, accounts[id])];
      }
      writable := writable - {id};
    }

    method RemoveStream(id: nat)
      requires Valid()
      modifies this
      ensures Valid() && View() == Removed(old(View()), id)
    {
      RemoveKeeps(View(), id);
      if id in streams {
        PartBelowTotal(View(), id);
      }
      Detach(id);
    }

    /** The body of `RemoveStream`. */
    method Detach(id: nat)
      requires id in streams ==>
                 id in accounts && streams[id].bytes <= sendBytes && |streams[id].send| <= sendPackets
      modifies this
      ensures View() == Removed(old(View()), id)
    {
      if id in streams {
        var st := streams[id];
        streams := streams - {id};
        sendBytes := sendBytes - st.bytes;
        sendPackets := sendPackets - |st.send|;
        accounts := accounts[id := Given(st, accounts[id])];
      }
      writable := writable - {id};
      finished := Without(finished, id);
    }

    method FlushStream(id: nat, replies: seq<Reply>)
      requires Valid() && id in writable
      modifies this
      ensures Valid() && View() == Flushed(old(View()), id, replies)
    {
      FlushKeeps(View(), id, replies);
      PartBelowTotal(View(), id);
      Send(id, replies);
    }

    /** One turn of the flush: the stream's output, then whether it stays writable. */
    method Send(id: nat, replies: seq<Reply>)
      requires id in writable && id in streams && id in accounts && Consistent(streams[id])
      requires streams[id].bytes <= sendBytes && |streams[id].send| <= sendPackets
      modifies this
      ensures View() == Flushed(old(View()), id, replies)
    {
      ghost var account;
      var st, bytes, packets, keep;
      st, account, bytes, packets, keep := SendQueue(streams[id], accounts[id], sendBytes, sendPackets, replies);
      streams, accounts := streams[id := st], accounts[id := account];
      sendBytes, sendPackets := bytes, packets;
      if !keep {
        writable := writable - {id};
      }
    }

    /** Offer every writable stream's output to the transport, in any order. */
    method FlushOutput(h3: bool, oracle: nat -> seq<Reply>)
      requires Valid()
      modifies this
      ensures Valid()
      ensures FlushedIn(old(View()), View(), if h3 then old(writable) else {}, oracle)
    {
      if !h3 {
        return;
      }
      var todo := writable;
      ghost var start, done := View(), {};
      while todo != {}
        invariant Valid() && done <= start.writable && todo == start.writable - done
        invariant FlushedIn(start, View(), done, oracle)
      {
        var id :| id in todo;
        assert FlushedAt(start, View(), done, oracle, id);
        FlushStep(start, View(), done, oracle, id);
        FlushStream(id, oracle(id));
        todo, done := todo - {id}, done + {id};
      }
      assert done == start.writable;
    }

    /** Take the finished list, put back the streams still draining, and hand out the others to close. */
    method SweepFinished(complete: set<nat>) returns (closing: seq<nat>)
      requires Valid()
      modifies this
      ensures Valid() && View() == Swept(old(View()), complete)
      ensures closing == Filtered(old(finished), (x: nat) => !Waits(old(streams), complete, x))
      ensures forall id :: id in closing <==>
                id in old(finished) && (id !in complete || old(streams)[id].send == [])
    {
      SweepKeeps(View(), complete);
      var kept;
      kept, closing := Split(finished, streams, complete);
      finished := kept;
    }
  }

  method Split(ids: seq<nat>, streams: map<nat, Stream>, complete: set<nat>)
    returns (kept: seq<nat>, closing: seq<nat>)
    ensures kept == Filtered(ids, (x: nat) => Waits(streams, complete, x))
    ensures closing == Filtered(ids, (x: nat) => !Waits(streams, complete, x))
  {
    kept, closing := [], [];
    var keep := (x: nat) => Waits(streams, complete, x);
    var close := (x: nat) => !Waits(streams, complete, x);
    for i := 0 to |ids|
      invariant kept == Filtered(ids[..i], keep) && closing == Filtered(ids[..i], close)
    {
      assert ids[..i + 1] == ids[..i] + [ids[i]];
      FilteredLast(ids[..i], ids[i], keep);
      FilteredLast(ids[..i], ids[i], close);
      if Waits(streams, complete, ids[i]) {
        kept := kept + [ids[i]];
      } else {
        closing := closing + [ids[i]];
      }
    }
    assert ids[..|ids|] == ids;
  }

  lemma {:induction false} FilteredLast(ids: seq<nat>, id: nat, keep: nat -> bool)
    ensures Filtered(ids + [id], keep) == Filtered(ids, keep) + if keep(id) then [id] else []
  {
    if ids == [] {
      assert [id][1..] == [] && ids + [id] == [id];
    } else {
      FilteredLast(ids[1..], id, keep);
      assert (ids + [id])[1..] == ids[1..] + [id];
    }
  }
}
