/**
  The output queue of one capsule stream: whole buffers are queued, the transport takes
  any number of bytes at a time, and a buffer stays charged until its last byte is taken.
 */
module OutputQueue {
  import opened Base
  import opened StreamScan

  datatype Stream = Stream(send: seq<Bytes>, offset: nat, bytes: nat, finishedAt: Option<int>)

  /** What happened to a stretch of accepted bytes: handed to the transport, or given up. */
  datatype Run = Sent(data: Bytes) | Dropped(data: Bytes)

  /** The history of one stream: everything accepted, and the runs that left the queue. */
  datatype Account = Account(accepted: Bytes, runs: seq<Run>)

  /** The transport's answer to one send: bytes taken, no room, or a stream error. */
  datatype Reply = Wrote(count: nat) | Blocked | Failed

  const EMPTY_STREAM := Stream([], 0, 0, None)
  const EMPTY_ACCOUNT := Account([], [])

  ghost predicate Consistent(st: Stream) {
    && st.bytes == |Concat(st.send)|
    && (if st.send == [] then st.offset == 0 else st.offset == 0 || st.offset < |st.send[0]|)
  }

  /** Accepted bytes the transport has not taken. */
  ghost function Pending(send: seq<Bytes>, offset: nat): Bytes {
    if send == [] || offset > |send[0]| then [] else send[0][offset..] + Concat(send[1..])
  }

  ghost function Replay(runs: seq<Run>): Bytes {
    if runs == [] then [] else Replay(runs[..|runs| - 1]) + runs[|runs| - 1].data
  }

  /** Nothing is lost, duplicated or reordered: what left, then what is pending, is what came in. */
  ghost predicate Balanced(st: Stream, account: Account) {
    account.accepted == Replay(account.runs) + Pending(st.send, st.offset)
  }

  // ----- accepting a buffer -----

  function Push(st: Stream, data: Bytes): Stream {
    st.(send := st.send + [data], bytes := st.bytes + |data|)
  }

  function Accept(account: Account, data: Bytes): Account {
    account.(accepted := account.accepted + data)
  }

  lemma PendingPush(send: seq<Bytes>, offset: nat, data: Bytes)
    requires if send == [] then offset == 0 else offset <= |send[0]|
    ensures Pending(send + [data], offset) == Pending(send, offset) + data
  {
    if send == [] {
      assert [data][1..] == [];
    } else {
      ConcatLast(send[1..], data);
      assert (send + [data])[1..] == send[1..] + [data];
      Associate(send[0][offset..], Concat(send[1..]), data);
    }
  }

  lemma PushKeeps(st: Stream, account: Account, data: Bytes)
    requires Consistent(st) && Balanced(st, account)
    ensures Consistent(Push(st, data)) && Balanced(Push(st, data), Accept(account, data))
  {
    ConcatLast(st.send, data);
    PendingPush(st.send, st.offset, data);
    Associate(Replay(account.runs), Pending(st.send, st.offset), data);
  }

  // ----- handing bytes to the transport -----

  /** How many bytes one send takes from the front buffer; never more than it was offered. */
  function Taken(st: Stream, reply: Reply): nat
    requires st.send != [] && st.offset <= |st.send[0]|
  {
    if !reply.Wrote? then 0
    else if reply.count <= |st.send[0]| - st.offset then reply.count else |st.send[0]| - st.offset
  }

  /** The queue once the front buffer has lost `count` more bytes. */
  function Advance(st: Stream, count: nat): Stream
    requires st.send != [] && st.offset + count <= |st.send[0]|
    requires |st.send[0]| <= st.bytes
  {
    if st.offset + count == |st.send[0]|
    then st.(send := st.send[1..], offset := 0, bytes := st.bytes - |st.send[0]|)
    else st.(offset := st.offset + count)
  }

  function Cleared(st: Stream): Stream {
    st.(send := [], offset := 0, bytes := 0)
  }

  ghost function Gone(account: Account, run: Run): Account {
    account.(runs := account.runs + [run])
  }

  lemma ReplayAppend(runs: seq<Run>, run: Run)
    ensures Replay(runs + [run]) == Replay(runs) + run.data
  {
    assert (runs + [run])[..|runs|] == runs;
  }

  /** The bytes one send takes. */
  ghost function Piece(st: Stream, count: nat): Bytes
    requires st.send != [] && st.offset + count <= |st.send[0]|
  {
    st.send[0][st.offset..st.offset + count]
  }

  lemma FrontCharged(st: Stream)
    requires Consistent(st) && st.send != []
    ensures |st.send[0]| <= st.bytes
  {
  }

  lemma AdvanceConsistent(st: Stream, count: nat)
    requires Consistent(st) && st.send != []
    requires 0 < count && st.offset + count <= |st.send[0]| <= st.bytes
    ensures Consistent(Advance(st, count))
  {
  }

  lemma PendingSplits(front: Bytes, rest: Bytes, from: nat, to: nat)
    requires from <= to <= |front|
    ensures front[from..] + rest == front[from..to] + (front[to..] + rest)
  {
  }

  lemma PendingWithin(front: Bytes, send: seq<Bytes>, from: nat, end: nat)
    requires send != [] && send[0] == front && from <= end <= |front|
    ensures Pending(send, from) == front[from..end] + Pending(send, end)
  {
    PendingSplits(front, Concat(send[1..]), from, end);
  }

  lemma PendingPast(send: seq<Bytes>)
    requires send != []
    ensures Pending(send, |send[0]|) == Pending(send[1..], 0)
  {
    assert send[0][|send[0]|..] == [];
    PendingFromStart(send[1..]);
  }

  lemma PendingAdvance(st: Stream, count: nat)
    requires st.send != [] && st.offset + count <= |st.send[0]| <= st.bytes
    ensures var next := Advance(st, count);
            Pending(st.send, st.offset) == Piece(st, count) + Pending(next.send, next.offset)
  {
    PendingWithin(st.send[0], st.send, st.offset, st.offset + count);
    PendingPast(st.send);
  }

  lemma PendingFromStart(send: seq<Bytes>)
    ensures [] + Concat(send) == Pending(send, 0)
  {
  }

  lemma AdvanceBalanced(st: Stream, account: Account, count: nat)
    requires st.send != [] && st.offset + count <= |st.send[0]| <= st.bytes
    requires Balanced(st, account)
    ensures Balanced(Advance(st, count), Gone(account, Sent(Piece(st, count))))
  {
    PendingAdvance(st, count);
    ReplayAppend(account.runs, Sent(Piece(st, count)));
    var next := Advance(st, count);
    Associate(Replay(account.runs), Piece(st, count), Pending(next.send, next.offset));
  }

  lemma ClearKeeps(st: Stream, account: Account)
    requires Balanced(st, account)
    ensures Consistent(Cleared(st))
    ensures Balanced(Cleared(st), Gone(account, Dropped(Pending(st.send, st.offset))))
  {
    ReplayAppend(account.runs, Dropped(Pending(st.send, st.offset)));
  }

  // ----- flushing one stream -----

  /** Send until the queue is empty, the transport stops taking bytes, or the stream fails. */
  ghost function Drained(st: Stream, account: Account, replies: seq<Reply>): (d: (Stream, Account))
    requires Consistent(st)
    ensures Consistent(d.0)
    decreases |replies|
  {
    if st.send == [] || replies == [] then (st, account)
    else if replies[0] == Failed then (Cleared(st), Gone(account, Dropped(Pending(st.send, st.offset))))
    else if Taken(st, replies[0]) == 0 then (st, account)
    else
      var count := Taken(st, replies[0]);
      FrontCharged(st);
      AdvanceConsistent(st, count);
      Drained(Advance(st, count), Gone(account, Sent(Piece(st, count))), replies[1..])
  }

  lemma {:induction false} DrainBalanced(st: Stream, account: Account, replies: seq<Reply>)
    requires Consistent(st) && Balanced(st, account)
    ensures Balanced(Drained(st, account, replies).0, Drained(st, account, replies).1)
    decreases |replies|
  {
    if st.send != [] && replies != [] {
      if replies[0] == Failed {
        ClearKeeps(st, account);
      } else if Taken(st, replies[0]) > 0 {
        var count := Taken(st, replies[0]);
        FrontCharged(st);
        AdvanceConsistent(st, count);
        AdvanceBalanced(st, account, count);
        DrainBalanced(Advance(st, count), Gone(account, Sent(Piece(st, count))), replies[1..]);
      }
    }
  }

  ghost predicate NoDrops(runs: seq<Run>) {
    forall run :: run in runs ==> run.Sent?
  }

  /** Flushing only shortens the queue, and gives bytes up only when the transport fails. */
  lemma {:induction false} DrainShrinks(st: Stream, account: Account, replies: seq<Reply>)
    requires Consistent(st)
    ensures var (st', account') := Drained(st, account, replies);
            && |st'.send| <= |st.send| && st'.bytes <= st.bytes
            && st'.finishedAt == st.finishedAt
            && account'.accepted == account.accepted
            && (forall b :: b in st'.send ==> b in st.send)
            && (Failed !in replies && NoDrops(account.runs) ==> NoDrops(account'.runs))
    decreases |replies|
  {
    if st.send != [] && replies != [] && replies[0] != Failed && Taken(st, replies[0]) > 0 {
      var count := Taken(st, replies[0]);
      FrontCharged(st);
      AdvanceConsistent(st, count);
      DrainShrinks(Advance(st, count), Gone(account, Sent(Piece(st, count))), replies[1..]);
    }
  }

  // ----- what the transport's answers do -----

  /** A run that left the queue for this answer. */
  ghost predicate Answers(reply: Reply, run: Run) {
    match reply
    case Wrote(count) => run.Sent? && 0 < |run.data| <= count
    case Failed => run.Dropped?
    case Blocked => false
  }

  ghost function Total(runs: seq<Run>): nat {
    if runs == [] then 0 else |runs[0].data| + Total(runs[1..])
  }

  /** A buffer of the queue ends `at` bytes from its start. */
  ghost predicate BufferEnds(send: seq<Bytes>, at: nat) {
    exists k :: 0 <= k <= |send| && |Concat(send[..k])| == at
  }

  /** Every run is due to its answer, and only the last one may be given up, with the whole queue. */
  ghost predicate Answered(replies: seq<Reply>, runs: seq<Run>, after: seq<Bytes>) {
    && |runs| <= |replies|
    && forall i :: 0 <= i < |runs| ==>
         Answers(replies[i], runs[i]) && (runs[i].Dropped? ==> i == |runs| - 1 && after == [])
  }

  /** Less is taken than an answer says only where a buffer ends. */
  ghost predicate ShortAtEnds(send: seq<Bytes>, offset: nat, replies: seq<Reply>, runs: seq<Run>)
    requires |runs| <= |replies|
  {
    forall i :: 0 <= i < |runs| && replies[i].Wrote? && |runs[i].data| < replies[i].count ==>
      BufferEnds(send, offset + Total(runs[..i + 1]))
  }

  /** Nothing is taken for this answer. */
  ghost predicate Stalls(front: Bytes, reply: Reply) {
    reply == Blocked || reply == Wrote(0) || (reply.Wrote? && front == [])
  }

  ghost predicate FollowsReplies(st: Stream, replies: seq<Reply>, runs: seq<Run>, after: seq<Bytes>) {
    && Answered(replies, runs, after)
    && ShortAtEnds(st.send, st.offset, replies, runs)
    && (after != [] && |runs| < |replies| ==> Stalls(after[0], replies[|runs|]))
  }

  lemma EndsLater(send: seq<Bytes>, at: nat)
    requires send != [] && BufferEnds(send[1..], at)
    ensures BufferEnds(send, |send[0]| + at)
  {
    var k :| 0 <= k <= |send[1..]| && |Concat(send[1..][..k])| == at;
    assert send[..k + 1][0] == send[0] && send[..k + 1][1..] == send[1..][..k];
  }

  lemma FirstEnds(send: seq<Bytes>)
    requires send != []
    ensures BufferEnds(send, |send[0]|)
  {
    ConcatOne(send[0]);
    assert send[..1] == [send[0]];
  }

  lemma AnsweredCons(replies: seq<Reply>, run: Run, runs: seq<Run>, after: seq<Bytes>)
    requires replies != [] && run.Sent? && Answers(replies[0], run) && Answered(replies[1..], runs, after)
    ensures Answered(replies, [run] + runs, after)
  {
    var all := [run] + runs;
    forall i | 0 <= i < |all|
      ensures Answers(replies[i], all[i]) && (all[i].Dropped? ==> i == |all| - 1 && after == [])
    {
      if i > 0 {
        assert replies[1..][i - 1] == replies[i] && runs[i - 1] == all[i];
      }
    }
  }

  /** Where a buffer ends in the queue that a send leaves, one ends in the queue before it. */
  lemma EndsBefore(st: Stream, count: nat, at: nat)
    requires st.send != [] && st.offset + count <= |st.send[0]| <= st.bytes
    requires var next := Advance(st, count); BufferEnds(next.send, next.offset + at)
    ensures BufferEnds(st.send, st.offset + count + at)
  {
    if st.offset + count == |st.send[0]| {
      EndsLater(st.send, at);
    }
  }

  lemma ShortCons(st: Stream, count: nat, replies: seq<Reply>, runs: seq<Run>)
    requires st.send != [] && st.offset + count <= |st.send[0]| <= st.bytes
    requires replies != [] && replies[0].Wrote? && count == Taken(st, replies[0]) && |runs| < |replies|
    requires ShortAtEnds(Advance(st, count).send, Advance(st, count).offset, replies[1..], runs)
    ensures ShortAtEnds(st.send, st.offset, replies, [Sent(Piece(st, count))] + runs)
  {
    var all := [Sent(Piece(st, count))] + runs;
    forall i | 0 <= i < |all| && replies[i].Wrote? && |all[i].data| < replies[i].count
      ensures BufferEnds(st.send, st.offset + Total(all[..i + 1]))
    {
      assert all[..i + 1][0] == all[0] && all[..i + 1][1..] == runs[..i];
      if i == 0 {
        FirstEnds(st.send);
      } else {
        assert replies[1..][i - 1] == replies[i] && runs[i - 1] == all[i];
        EndsBefore(st, count, Total(runs[..i]));
      }
    }
  }

  /**
    A flush answers the transport: it gives up bytes exactly where the stream fails, and then all
    of them; otherwise each answer moves on by the bytes it says, up to the end of a buffer, until
    one takes nothing.
   */
  lemma {:induction false} DrainFollows(st: Stream, account: Account, replies: seq<Reply>) returns (runs: seq<Run>)
    requires Consistent(st)
    ensures Drained(st, account, replies).1.runs == account.runs + runs
    ensures FollowsReplies(st, replies, runs, Drained(st, account, replies).0.send)
    decreases |replies|
  {
    if st.send == [] || replies == [] {
      runs := [];
    } else if replies[0] == Failed {
      runs := [Dropped(Pending(st.send, st.offset))];
    } else if Taken(st, replies[0]) == 0 {
      runs := [];
    } else {
      var count := Taken(st, replies[0]);
      FrontCharged(st);
      AdvanceConsistent(st, count);
      var later := DrainFollows(Advance(st, count), Gone(account, Sent(Piece(st, count))), replies[1..]);
      runs := [Sent(Piece(st, count))] + later;
      AnsweredCons(replies, runs[0], later, Drained(st, account, replies).0.send);
      ShortCons(st, count, replies, later);
    }
  }

  // ----- progress -----

  /** Every send is answered by taking at least one byte, if it is offered any. */
  ghost predicate Generous(replies: seq<Reply>) {
    forall r :: r in replies ==> r.Wrote? && r.count > 0
  }

  ghost predicate NoneEmpty(send: seq<Bytes>) {
    forall b :: b in send ==> b != []
  }

  lemma SomethingPending(st: Stream)
    requires Consistent(st) && st.send != [] && st.send[0] != []
    ensures |Pending(st.send, st.offset)| > 0
  {
    assert |st.send[0][st.offset..]| > 0;
  }

  lemma NoneEmptyCons(front: Bytes, rest: seq<Bytes>)
    ensures NoneEmpty([front] + rest) <==> front != [] && NoneEmpty(rest)
  {
    var all := [front] + rest;
    assert all[0] in all;
    forall b | b in rest ensures b in all {
    }
  }

  lemma AdvanceNoneEmpty(st: Stream, count: nat)
    requires st.send != [] && 0 < count && st.offset + count <= |st.send[0]| <= st.bytes
    ensures NoneEmpty(Advance(st, count).send) <==> NoneEmpty(st.send)
  {
    assert st.send == [st.send[0]] + st.send[1..];
    NoneEmptyCons(st.send[0], st.send[1..]);
  }

  /**
    A willing transport, called as often as there are pending bytes, empties the queue if and
    only if no buffer on it is empty.
   */
  lemma {:induction false} DrainsExactly(st: Stream, account: Account, replies: seq<Reply>)
    requires Consistent(st) && Generous(replies) && |replies| >= |Pending(st.send, st.offset)|
    ensures Drained(st, account, replies).0.send == [] <==> NoneEmpty(st.send)
    decreases |replies|
  {
    if st.send == [] {
    } else if replies == [] {
      assert st.send[0] in st.send;
      if st.send[0] != [] {
        SomethingPending(st);
        assert false;
      }
    } else {
      assert replies[0] in replies;
      var count := Taken(st, replies[0]);
      if count > 0 {
        FrontCharged(st);
        AdvanceConsistent(st, count);
        PendingAdvance(st, count);
        AdvanceNoneEmpty(st, count);
        DrainsExactly(Advance(st, count), Gone(account, Sent(Piece(st, count))), replies[1..]);
      } else {
        assert st.send[0] in st.send && st.send[0] == [];
      }
    }
  }

  /** What the transport has taken, in order. */
  ghost function SentBytes(runs: seq<Run>): Bytes {
    if runs == [] then [] else
    var last := runs[|runs| - 1];
    SentBytes(runs[..|runs| - 1]) + if last.Sent? then last.data else []
  }

  lemma {:induction false} UndroppedIsSent(runs: seq<Run>)
    requires NoDrops(runs)
    ensures SentBytes(runs) == Replay(runs)
  {
    if runs != [] {
      UndroppedIsSent(runs[..|runs| - 1]);
    }
  }

  /** Where nothing was given up, the transport took exactly the accepted bytes short of the pending ones. */
  lemma SentInOrder(st: Stream, account: Account)
    requires Balanced(st, account) && NoDrops(account.runs)
    ensures account.accepted == SentBytes(account.runs) + Pending(st.send, st.offset)
    ensures st.send == [] ==> SentBytes(account.runs) == account.accepted
  {
    UndroppedIsSent(account.runs);
  }

  method SendQueue(start: Stream, ghost account: Account, totalBytes: nat, totalPackets: nat, replies: seq<Reply>)
    returns (st: Stream, ghost after: Account, bytes: nat, packets: nat, keep: bool)
    requires Consistent(start) && start.bytes <= totalBytes && |start.send| <= totalPackets
    ensures (st, after) == Drained(start, account, replies)
    ensures bytes == totalBytes - (start.bytes - st.bytes)
    ensures packets == totalPackets - (|start.send| - |st.send|)
    ensures keep <==> st.send != []
  {
    st, after, bytes, packets := start, account, totalBytes, totalPackets;
    var i := 0;
    while st.send != [] && i < |replies|
      invariant 0 <= i <= |replies| && Consistent(st)
      invariant Drained(st, after, replies[i..]) == Drained(start, account, replies)
      invariant st.bytes <= start.bytes && |st.send| <= |start.send|
      invariant bytes == totalBytes - (start.bytes - st.bytes)
      invariant packets == totalPackets - (|start.send| - |st.send|)
    {
      var front, count := st.send[0], Taken(st, replies[i]);
      assert replies[i..][0] == replies[i] && replies[i..][1..] == replies[i + 1..];
      if replies[i] == Failed {
        bytes, packets := bytes - st.bytes, packets - |st.send|;
        after := Gone(after, Dropped(Pending(st.send, st.offset)));
        st := st.(send := [], offset := 0, bytes := 0);
        return st, after, bytes, packets, false;
      }
      if count == 0 {
        return st, after, bytes, packets, true;
      }
      FrontCharged(st);
      AdvanceConsistent(st, count);
      after := Gone(after, Sent(Piece(st, count)));
      if st.offset + count == |front| {
        bytes, packets := bytes - |front|, packets - 1;
        st := st.(send := st.send[1..], offset := 0, bytes := st.bytes - |front|);
      } else {
        st := st.(offset := st.offset + count);
      }
      i := i + 1;
    }
    keep := st.send != [];
  }
}
