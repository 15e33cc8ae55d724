/** The buffering capsule decoder: accumulates stream chunks and yields whole frames. */
module CapsuleDecoder {
  import opened Base
  import opened Capsules
  import opened CapsuleEncoder
  import opened CapsuleFraming
  import opened CapsuleParser
  import opened StreamScan
  import Varint

  const COMPACT_THRESHOLD: nat := 16 * 1024

  /** One round of the decoding loop: `frames` took `n` bytes of `input`, `rest` is still to do. */
  lemma DrainStep<F(!new)>(
    parse: Interpreter<F>, input: Bytes, frames: seq<F>, n: nat, rest: Bytes, max: nat)
    requires Decisive(parse)
    requires Decoded(parse, input, max) == After(frames, n, Decoded(parse, rest, max))
    ensures match TryDecodeOne(parse, rest, max)
            case Ok((frame, m)) =>
              Decoded(parse, input, max) == After(frames + [frame], n + m, Decoded(parse, rest[m..], max))
            case Err(Incomplete) =>
              Decoded(parse, input, max) == Outcome(frames, n, None) && |rest| < max + 16
            case Err(e) =>
              Decoded(parse, input, max) == Outcome(frames, n, Some(e))
  {
    DecodedUnfold(parse, rest, max);
    assert frames + [] == frames;
    var one := TryDecodeOne(parse, rest, max);
    if one.Ok? {
      AfterAfter(frames, n, [one.value.0], one.value.1, Decoded(parse, rest[one.value.1..], max));
    } else if one.error == Incomplete {
      PendingBound(parse, rest, max);
    }
  }

  /** Decode whole capsules off the front of `input` until none is complete. */
  method Drain<F(!new)>(parse: Interpreter<F>, input: Bytes, max: nat)
    returns (r: Result<seq<F>, DecodeError>, used: nat)
    requires Decisive(parse)
    ensures var o := Decoded(parse, input, max);
            && used == o.used
            && r == if o.error.Some? then Err(o.error.value) else Ok(o.out)
    ensures r.Ok? ==> |input| - used < max + 16
  {
    var rest := input;
    var frames: seq<F> := [];
    used := 0;
    AfterNothing(Decoded(parse, input, max));
    while true
      invariant used + |rest| == |input|
      invariant Decoded(parse, input, max) == After(frames, used, Decoded(parse, rest, max))
      decreases |rest|
    {
      DrainStep(parse, input, frames, used, rest, max);
      var one := TryDecodeOne(parse, rest, max);
      if one.Ok? {
        frames := frames + [one.value.0];
        used := used + one.value.1;
        rest := rest[one.value.1..];
      } else if one.error == Incomplete {
        return Ok(frames), used;
      } else {
        return Err(one.error), used;
      }
    }
  }

  /** Feeding in chunks, seen from the whole stream. */
  lemma WholeStream<F(!new)>(parse: Interpreter<F>, start: Bytes, chunks: seq<Bytes>, max: nat)
    ensures Incremental(DecodeStep(parse, max))
    ensures TryDecodeOne(parse, start, max) == Err(Incomplete) ==>
              var stream := start + Concat(chunks);
              var o, fed := Decoded(parse, stream, max), Fed(DecodeStep(parse, max), start, chunks);
              && fed.error == o.error && fed.out == o.out
              && (o.error.None? ==> Returned(DecodeStep(parse, max), start, chunks) == o.out)
              && (o.error.None? ==> fed.pending == stream[o.used..])
  {
    DecodeIncremental(parse, max);
    var step := DecodeStep(parse, max);
    if TryDecodeOne(parse, start, max) == Err(Incomplete) {
      ChunkingInvisible(step, start, chunks);
      NoErrorNoLoss(step, start, chunks);
      FedSplits(step, start, chunks);
    }
  }

  /**
    The calls return every frame of the stream if and only if the capsule with the error starts
    no later than the chunk that reveals it.
   */
  lemma ReturnsAllExactly<F(!new)>(parse: Interpreter<F>, chunks: seq<Bytes>, max: nat)
    ensures Incremental(DecodeStep(parse, max))
    ensures var o := Decoded(parse, Concat(chunks), max);
            Returned(DecodeStep(parse, max), [], chunks) == o.out
            <==> o.used <= |Ahead(DecodeStep(parse, max), [], chunks)|
  {
    DecodeIncremental(parse, max);
    DecodeSelfContained(parse, max);
    var step := DecodeStep(parse, max);
    assert [] + Concat(chunks) == Concat(chunks);
    NothingLostExactly(step, [], chunks);
    EveryStepYields(step, Concat(chunks));
  }

  /** The length of the longest chunk. */
  ghost function Longest(chunks: seq<Bytes>): (n: nat)
    ensures forall i :: 0 <= i < |chunks| ==> |chunks[i]| <= n
    ensures chunks == [] ==> n == 0
    ensures chunks != [] ==> exists i :: 0 <= i < |chunks| && |chunks[i]| == n
  {
    if chunks == [] then 0 else
    var last := |chunks| - 1;
    var n := Longest(chunks[..last]);
    if |chunks[last]| >= n then |chunks[last]| else n
  }

  /** The decoder for one way of interpreting values; `ParseCapsuleValue` in practice. */
  class Decoder<F(!new)> {
    var buf: Bytes
    /** Where the undecoded part of `buf` begins. */
    var consumed: nat
    const maxCapsuleSize: nat
    const parse: Interpreter<F>

    /** The undecoded bytes, wherever compaction has put them. */
    ghost function Pending(): Bytes
      requires consumed <= |buf|
      reads this
    {
      buf[consumed..]
    }

    ghost predicate Valid()
      reads this
    {
      Decisive(parse) && consumed <= |buf|
    }

    constructor (parse: Interpreter<F>, max: nat)
      requires Decisive(parse)
      ensures Valid() && Pending() == [] && buf == []
      ensures maxCapsuleSize == max && this.parse == parse
    {
      buf := [];
      consumed := 0;
      maxCapsuleSize := max;
      this.parse := parse;
    }

    /** Feed one chunk. Frames completed before an error in the same call are not returned. */
    method Decode(data: Bytes) returns (r: Result<seq<F>, DecodeError>)
      requires Valid()
      modifies this
      ensures Valid()
      ensures var input := old(Pending()) + data;
              var o := Decoded(parse, input, maxCapsuleSize);
              && Pending() == input[o.used..]
              && r == if o.error.Some? then Err(o.error.value) else Ok(o.out)
      ensures r.Ok? ==> |Pending()| < maxCapsuleSize + 16
      ensures old(|Pending()|) < maxCapsuleSize + 16 ==>
                |buf| < COMPACT_THRESHOLD + (maxCapsuleSize + 16) + |data|
    {
      Absorb(data);
      r := Consume();
    }

    /** Decode what is buffered. */
    method Consume() returns (r: Result<seq<F>, DecodeError>)
      requires Valid()
      modifies this`consumed
      ensures Valid()
      ensures var o := Decoded(parse, old(Pending()), maxCapsuleSize);
              && Pending() == old(Pending())[o.used..]
              && r == if o.error.Some? then Err(o.error.value) else Ok(o.out)
      ensures r.Ok? ==> |Pending()| < maxCapsuleSize + 16
    {
      var used;
      r, used := Drain(parse, buf[consumed..], maxCapsuleSize);
      DropDrop(buf, consumed, used);
      consumed := consumed + used;
    }

    /**
      Feed chunk after chunk until one fails. Over all calls, `frames` is what they return, and
      the undecoded bytes are the undecoded rest of everything fed.
     */
    method FeedAll(chunks: seq<Bytes>) returns (frames: seq<F>, error: Option<DecodeError>)
      requires Valid()
      modifies this
      ensures Valid() && Incremental(DecodeStep(parse, maxCapsuleSize))
      ensures var step := DecodeStep(parse, maxCapsuleSize);
              && frames == Returned(step, old(Pending()), chunks)
              && error == Fed(step, old(Pending()), chunks).error
              && Pending() == Fed(step, old(Pending()), chunks).pending
      ensures TryDecodeOne(parse, old(Pending()), maxCapsuleSize) == Err(Incomplete) ==>
                var stream := old(Pending()) + Concat(chunks);
                var o := Decoded(parse, stream, maxCapsuleSize);
                error == o.error && (error.None? ==> frames == o.out && Pending() == stream[o.used..])
      ensures old(|Pending()|) < maxCapsuleSize + 16 ==>
                |buf| <= old(|buf|) || |buf| < COMPACT_THRESHOLD + (maxCapsuleSize + 16) + Longest(chunks)
    {
      DecodeIncremental(parse, maxCapsuleSize);
      ghost var step, start := DecodeStep(parse, maxCapsuleSize), Pending();
      frames, error := [], None;
      UptoStart(step, start, chunks);
      var i := 0;
      while i < |chunks| && error.None?
        invariant Valid() && i <= |chunks|
        invariant |start| < maxCapsuleSize + 16 ==>
                    && (error.None? ==> |Pending()| < maxCapsuleSize + 16)
                    && (|buf| <= old(|buf|) || |buf| < COMPACT_THRESHOLD + (maxCapsuleSize + 16) + Longest(chunks))
        invariant error.None? ==> Upto(step, start, chunks, i, frames, Pending())
        invariant error.Some? ==>
                    && Returned(step, start, chunks) == frames
                    && Fed(step, start, chunks).error == error && Fed(step, start, chunks).pending == Pending()
      {
        UptoStep(step, start, chunks, i, frames, Pending());
        var r := Decode(chunks[i]);
        if r.Ok? {
          frames := frames + r.value;
        } else {
          error := Some(r.error);
        }
        i := i + 1;
      }
      if error.None? {
        UptoEnd(step, start, chunks, frames, Pending());
      }
      WholeStream(parse, start, chunks, maxCapsuleSize);
    }

    /** Drop the decoded prefix when it is worth it, then append the chunk. */
    method Absorb(data: Bytes)
      requires Valid()
      modifies this
      ensures Valid() && Pending() == old(Pending()) + data
      ensures |buf| < COMPACT_THRESHOLD + old(|Pending()|) + |data|
    {
      if consumed > 0 && (consumed >= COMPACT_THRESHOLD || consumed == |buf|) {
        buf := buf[consumed..];
        consumed := 0;
      }
      buf := buf + data;
      assert Pending() == old(Pending()) + data;
    }

    function Buffered(): (n: nat)
      requires consumed <= |buf|
      reads this
      ensures n == |Pending()|
    {
      |buf| - consumed
    }
  }

  // ----- encoding, then decoding -----

  /** The interpreter of the capsule types this server knows. */
  const FRAMES: Interpreter<CapsuleFrame> := (kind: nat, value: Bytes) => ParseCapsuleValue(kind, value)

  predicate Sendable(frame: CapsuleFrame, max: nat) {
    WellFormed(frame) && Encodable(frame) && |ValueBytesOf(frame)| <= max
  }

  lemma RawHeader(kind: nat, value: Bytes, tail: Bytes)
    requires kind <= Varint.MAX_VALUE && |value| <= Varint.MAX_VALUE
    ensures var buf := RawBytes(kind, value) + tail;
            var size := |RawBytes(kind, value)| - |value|;
            && HeaderOf(buf) == Some(Header(kind, |value|, size))
            && buf[size..size + |value|] == value
  {
    var k, l := Varint.Encoding(kind), Varint.Encoding(|value|);
    var buf := RawBytes(kind, value) + tail;
    assert buf == k + l + (value + tail);
    HeaderWritten(kind, |value|, value + tail);
  }

  /** One capsule in front of anything, for any type and value. */
  lemma RawDecodes<F>(parse: Interpreter<F>, kind: nat, value: Bytes, tail: Bytes, max: nat)
    requires kind <= Varint.MAX_VALUE && |value| <= Varint.MAX_VALUE && |value| <= max
    ensures TryDecodeOne(parse, RawBytes(kind, value) + tail, max) ==
            match parse(kind, value)
            case Ok(frame) => Ok((frame, |RawBytes(kind, value)|))
            case Err(e) => Err(e)
  {
    RawHeader(kind, value, tail);
  }

  ghost predicate AllSendable(frames: seq<CapsuleFrame>, max: nat) {
    forall frame :: frame in frames ==> Sendable(frame, max)
  }

  /** `parse` reads every frame back from the encoder's value for it. */
  ghost predicate Reads(parse: Interpreter<CapsuleFrame>, frames: seq<CapsuleFrame>) {
    forall frame :: frame in frames ==> parse(KindOf(frame), ValueBytesOf(frame)) == Ok(frame)
  }

  lemma FrameThenRest<F(!new)>(
    parse: Interpreter<F>, kind: nat, value: Bytes, frame: F, tail: Bytes, frames: seq<F>, max: nat)
    requires kind <= Varint.MAX_VALUE && |value| <= Varint.MAX_VALUE && |value| <= max
    requires parse(kind, value) == Ok(frame) && Decoded(parse, tail, max) == Outcome(frames, |tail|, None)
    ensures Decoded(parse, RawBytes(kind, value) + tail, max)
         == Outcome([frame] + frames, |RawBytes(kind, value) + tail|, None)
  {
    var head := RawBytes(kind, value);
    RawDecodes(parse, kind, value, tail, max);
    DecodedUnfold(parse, head + tail, max);
    assert (head + tail)[|head|..] == tail;
  }

  lemma FrameFirst(
    parse: Interpreter<CapsuleFrame>, frame: CapsuleFrame, tail: Bytes, frames: seq<CapsuleFrame>, max: nat)
    requires Sendable(frame, max) && parse(KindOf(frame), ValueBytesOf(frame)) == Ok(frame)
    requires Decoded(parse, tail, max) == Outcome(frames, |tail|, None)
    ensures Decoded(parse, FrameBytes(frame) + tail, max)
         == Outcome([frame] + frames, |FrameBytes(frame) + tail|, None)
  {
    FrameThenRest(parse, KindOf(frame), ValueBytesOf(frame), frame, tail, frames, max);
  }

  lemma {:induction false} FramesRead(parse: Interpreter<CapsuleFrame>, frames: seq<CapsuleFrame>, max: nat)
    requires AllSendable(frames, max) && AllEncodable(frames) && Reads(parse, frames)
    ensures Decoded(parse, FramesBytes(frames), max) == Outcome(frames, |FramesBytes(frames)|, None)
  {
    if frames == [] {
      DecodedUnfold(parse, [], max);
    } else {
      var frame, rest := frames[0], frames[1..];
      assert frame in frames && frames == [frame] + rest;
      FramesRead(parse, rest, max);
      FrameFirst(parse, frame, FramesBytes(rest), rest, max);
    }
  }

  /** Frames encoded back to back decode to exactly those frames. */
  lemma FramesInverse(frames: seq<CapsuleFrame>, max: nat)
    requires AllSendable(frames, max) && AllEncodable(frames)
    ensures Decoded(FRAMES, FramesBytes(frames), max) == Outcome(frames, |FramesBytes(frames)|, None)
  {
    forall frame | frame in frames
      ensures FRAMES(KindOf(frame), ValueBytesOf(frame)) == Ok(frame)
    {
      ValueInverse(frame);
    }
    FramesRead(FRAMES, frames, max);
  }

  /** Frames sent back to back and received in any chunks arrive unchanged, with nothing left over. */
  lemma StreamRoundTrip(frames: seq<CapsuleFrame>, chunks: seq<Bytes>, max: nat)
    requires AllSendable(frames, max) && AllEncodable(frames)
    requires Concat(chunks) == FramesBytes(frames)
    ensures Incremental(DecodeStep(FRAMES, max))
    ensures Fed(DecodeStep(FRAMES, max), [], chunks) == Feed(frames, [], None)
  {
    DecodeIncremental(FRAMES, max);
    FramesInverse(frames, max);
    CleanFeed(DecodeStep(FRAMES, max), chunks, frames);
  }

  /** Whatever is decoded is well formed, so the decoder yields exactly the frames it can be sent. */
  lemma DecodedWellFormed(buf: Bytes, max: nat)
    requires TryDecodeOne(FRAMES, buf, max).Ok?
    ensures WellFormed(TryDecodeOne(FRAMES, buf, max).value.0)
    ensures KindOf(TryDecodeOne(FRAMES, buf, max).value.0) == HeaderOf(buf).value.kind
  {
    var value := DecodedValue(FRAMES, buf, max);
    ParsedWellFormed(HeaderOf(buf).value.kind, value);
  }

  lemma DecodedValue<F>(parse: Interpreter<F>, buf: Bytes, max: nat) returns (value: Bytes)
    requires TryDecodeOne(parse, buf, max).Ok?
    ensures parse(HeaderOf(buf).value.kind, value) == Ok(TryDecodeOne(parse, buf, max).value.0)
  {
    var h := HeaderOf(buf).value;
    value := buf[h.size..h.size + h.length];
  }

  // ----- what a failing call gives up -----

  lemma EmptyCapsuleBytes(kind: nat)
    requires kind < 64
    ensures RawBytes(kind, []) + [] == [kind, 0]
  {
    SmallEncoding(kind);
    SmallEncoding(0);
  }

  /** The step on a capsule with no value, and on nothing. */
  lemma EmptyCapsule<F(!new)>(parse: Interpreter<F>, kind: nat, max: nat, capsule: Bytes)
    requires kind < 64 && capsule == [kind, 0]
    ensures parse(kind, []).Ok? ==> DecodeStep(parse, max)(capsule) == Advance([parse(kind, []).value], |capsule|)
    ensures parse(kind, []) == Err(Malformed) ==> DecodeStep(parse, max)(capsule).Broken?
    ensures DecodeStep(parse, max)([]).Stuck?
  {
    EmptyCapsuleBytes(kind);
    RawDecodes(parse, kind, [], [], max);
  }

  lemma EmptyCapsules<F(!new)>(
    parse: Interpreter<F>, step: Bytes -> Step<F, DecodeError>, max: nat, a: Bytes, b: Bytes)
    requires parse(DATAGRAM, []).Ok? && parse(ADDRESS_REQUEST, []) == Err(Malformed)
    requires a == [DATAGRAM, 0] && b == [ADDRESS_REQUEST, 0] && step == DecodeStep(parse, max)
    ensures Incremental(step)
    ensures Returned(step, [], [a + b]) == [] && Returned(step, [], [a, b]) == [parse(DATAGRAM, []).value]
  {
    DecodeIncremental(parse, max);
    EmptyCapsule(parse, DATAGRAM, max, a);
    EmptyCapsule(parse, ADDRESS_REQUEST, max, b);
    OneCallOrTwo(step, a, b, [parse(DATAGRAM, []).value]);
  }

  /**
    An empty DATAGRAM and an empty, hence malformed, ADDRESS_REQUEST: in one chunk the first is
    not returned, in two it is.
   */
  lemma ChunkingShows(max: nat, one: seq<Bytes>, two: seq<Bytes>)
    requires one == [[0, 0, 2, 0]] && two == [[0, 0], [2, 0]]
    ensures Concat(one) == Concat(two) && Incremental(DecodeStep(FRAMES, max))
    ensures Returned(DecodeStep(FRAMES, max), [], one) == []
    ensures Returned(DecodeStep(FRAMES, max), [], two) == [Datagram([])]
  {
    SameStream(one[0], two[0], two[1]);
    EmptyValues();
    EmptyCapsules(FRAMES, DecodeStep(FRAMES, max), max, two[0], two[1]);
    assert one == [two[0] + two[1]] && two == [two[0], two[1]];
  }

  lemma EmptyValues()
    ensures FRAMES(DATAGRAM, []) == Ok(Datagram([])) && FRAMES(ADDRESS_REQUEST, []) == Err(Malformed)
  {
    assert Addresses([]) == Ok([]);
  }
}
