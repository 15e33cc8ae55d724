/** CONNECT-IP input: the skipping reader with the IP controls validated as they complete. */
module IpCapsules {
  import opened Base
  import opened Capsules
  import opened CapsuleFraming
  import opened CapsuleParser
  import opened CapsuleDecoder
  import opened DatagramCapsules
  import opened StreamScan

  /** The largest control value that is stored. */
  const MAX_ADDRESS_REQUEST_SIZE: nat := 16 * 1024

  function IpLimits(maxDatagram: nat): Limits {
    Limits(maxDatagram, Some(MAX_ADDRESS_REQUEST_SIZE))
  }

  /** The frame a complete value stands for, or why it is refused. */
  function FrameOf(kind: nat, bytes: Bytes): Result<CapsuleFrame, DecodeError> {
    if kind == DATAGRAM then Ok(Datagram(bytes)) else ParseCapsuleValue(kind, bytes)
  }

  const VALIDATE: Receiver := (kind: nat, bytes: Bytes) =>
    match FrameOf(kind, bytes)
    case Ok(_) => None
    case Err(e) => Some(e)

  /** The frames pushed while the callback accepts; a refused value adds none. */
  function IpFrames(values: seq<Value>): (frames: seq<CapsuleFrame>) {
    if values == [] then [] else
    var last := FrameOf(values[|values| - 1].kind, values[|values| - 1].bytes);
    IpFrames(values[..|values| - 1]) + (if last.Ok? then [last.value] else [])
  }

  /** The frames of types this server knows. */
  function Known(frames: seq<CapsuleFrame>): (known: seq<CapsuleFrame>) {
    if frames == [] then [] else
    Known(frames[..|frames| - 1]) + (if frames[|frames| - 1].Unknown? then [] else [frames[|frames| - 1]])
  }

  lemma {:induction false} IpFramesConcat(a: seq<Value>, b: seq<Value>)
    ensures IpFrames(a + b) == IpFrames(a) + IpFrames(b)
    decreases |b|
  {
    if b == [] {
      assert a + b == a;
    } else {
      var n := |b| - 1;
      LastOfConcat(a, b);
      IpFramesConcat(a, b[..n]);
    }
  }

  lemma {:induction false} KnownConcat(a: seq<CapsuleFrame>, b: seq<CapsuleFrame>)
    ensures Known(a + b) == Known(a) + Known(b)
    decreases |b|
  {
    if b == [] {
      assert a + b == a;
    } else {
      var n := |b| - 1;
      LastOfConcat(a, b);
      KnownConcat(a, b[..n]);
    }
  }

  // ----- agreement with the buffering decoder -----

  /** A capsule this long is within the limits of both decoders. */
  predicate FitsBoth(h: Header, limits: Limits, max: nat) {
    && h.length <= max
    && (h.kind == 0 ==> h.length <= limits.datagram)
    && (1 <= h.kind <= 3 && limits.control.Some? ==> h.length <= limits.control.value)
  }

  /** Every capsule that is reached is within the limits of both decoders. */
  ghost predicate Fits<F>(parse: Interpreter<F>, stream: Bytes, limits: Limits, max: nat)
    decreases |stream|
  {
    var h := HeaderOf(stream);
    h.Some? ==>
      && FitsBoth(h.value, limits, max)
      && (TryDecodeOne(parse, stream, max).Ok? ==>
            Fits(parse, stream[TryDecodeOne(parse, stream, max).value.1..], limits, max))
  }

  lemma {:induction false} FitsPrefix<F>(parse: Interpreter<F>, a: Bytes, b: Bytes, limits: Limits, max: nat)
    requires Fits(parse, a + b, limits, max)
    ensures Fits(parse, a, limits, max)
    decreases |a|
  {
    if HeaderOf(a).Some? {
      HeaderStable(a, b);
      if TryDecodeOne(parse, a, max).Ok? {
        var n := TryDecodeOne(parse, a, max).value.1;
        TryDecodeStable(parse, a, b, max);
        DropAppend(a, b, n);
        FitsPrefix(parse, a[n..], b, limits, max);
      }
    }
  }

  lemma SingleValue(v: Value)
    ensures FrameOf(v.kind, v.bytes).Ok? ==> IpFrames([v]) == [FrameOf(v.kind, v.bytes).value]
    ensures FrameOf(v.kind, v.bytes).Err? ==> IpFrames([v]) == []
  {
    assert [v][..0] == [];
    assert IpFrames([v][..0]) == [];
  }

  lemma SingleFrame(f: CapsuleFrame)
    ensures Known([f]) == if f.Unknown? then [] else [f]
  {
    assert [f][..0] == [];
    assert Known([f][..0]) == [];
  }

  /** What one decoder does at the front of the stream, the other does too, seen through `f` and `g`. */
  ghost predicate StepsAgree<F, V, G>(
    buffering: Step<F, DecodeError>, skipping: Step<V, DecodeError>, f: seq<V> -> seq<G>, g: seq<F> -> seq<G>)
  {
    match buffering
    case Advance(frames, n) => skipping.Advance? && skipping.size == n && f(skipping.out) == g(frames)
    case Stuck => skipping.Stuck?
    case Broken(frames, e) => skipping.Broken? && skipping.error == e && f(skipping.out) == g(frames)
  }

  /** The buffering parser and the skipping callback judge one value alike. */
  ghost predicate Alike<F, G>(
    parse: Interpreter<F>, receive: Receiver, limits: Limits, f: seq<Value> -> seq<G>, g: seq<F> -> seq<G>,
    kind: nat, bytes: Bytes)
  {
    match parse(kind, bytes)
    case Ok(frame) =>
      if limits.For(kind).None? then g([frame]) == []
      else receive(kind, bytes).None? && f([Value(kind, bytes)]) == g([frame])
    case Err(e) =>
      e != Incomplete && limits.For(kind).Some? && receive(kind, bytes) == Some(e) && f([Value(kind, bytes)]) == []
  }

  lemma StepAlike<F(!new), G>(
    parse: Interpreter<F>, receive: Receiver, limits: Limits, f: seq<Value> -> seq<G>, g: seq<F> -> seq<G>,
    stream: Bytes, max: nat)
    requires HeaderOf(stream).Some? ==> FitsBoth(HeaderOf(stream).value, limits, max)
    requires f([]) == [] && g([]) == [] && forall kind, bytes :: Alike(parse, receive, limits, f, g, kind, bytes)
    ensures StepsAgree(DecodeStep(parse, max)(stream), SkimStep(limits, receive)(stream), f, g)
  {
    if HeaderOf(stream).Some? {
      var Header(kind, length, size) := HeaderOf(stream).value;
      if size + length <= |stream| {
        assert Alike(parse, receive, limits, f, g, kind, stream[size..size + length]);
      }
    }
  }

  lemma ValueAlike(limits: Limits, kind: nat, bytes: Bytes)
    requires limits.control.Some?
    ensures Alike(FRAMES, VALIDATE, limits, IpFrames, Known, kind, bytes)
  {
    assert FRAMES(kind, bytes) == FrameOf(kind, bytes);
    SingleValue(Value(kind, bytes));
    if FrameOf(kind, bytes).Ok? {
      SingleFrame(FrameOf(kind, bytes).value);
    }
  }

  lemma OneStepAgrees(stream: Bytes, maxDatagram: nat, max: nat)
    requires HeaderOf(stream).Some? ==> FitsBoth(HeaderOf(stream).value, IpLimits(maxDatagram), max)
    ensures StepsAgree(
              DecodeStep(FRAMES, max)(stream), SkimStep(IpLimits(maxDatagram), VALIDATE)(stream), IpFrames, Known)
  {
    forall kind, bytes ensures Alike(FRAMES, VALIDATE, IpLimits(maxDatagram), IpFrames, Known, kind, bytes) {
      ValueAlike(IpLimits(maxDatagram), kind, bytes);
    }
    StepAlike(FRAMES, VALIDATE, IpLimits(maxDatagram), IpFrames, Known, stream, max);
  }

  /**
    On every stream within both limits the skipping reader yields the frames of the buffering
    decoder without the unknown ones, stops at the same capsule with the same error, and is
    inside a capsule exactly when the other has bytes buffered.
   */
  lemma {:induction false} DecodersAgree(stream: Bytes, maxDatagram: nat, max: nat)
    requires Fits(FRAMES, stream, IpLimits(maxDatagram), max)
    ensures var d, s := Decoded(FRAMES, stream, max), Skimmed(IpLimits(maxDatagram), VALIDATE, stream);
            IpFrames(s.out) == Known(d.out) && s.error == d.error && s.used == d.used
    decreases |stream|
  {
    DecodeIncremental(FRAMES, max);
    SkimIncremental(IpLimits(maxDatagram), VALIDATE);
    var a, b := DecodeStep(FRAMES, max), SkimStep(IpLimits(maxDatagram), VALIDATE);
    OneStepAgrees(stream, maxDatagram, max);
    if a(stream).Advance? {
      var n := a(stream).size;
      DecodersAgree(stream[n..], maxDatagram, max);
      KnownConcat(a(stream).out, Scan(a, stream[n..]).out);
      IpFramesConcat(b(stream).out, Scan(b, stream[n..]).out);
    }
  }

  /** The same for a stream cut into any chunks. */
  lemma DecodersAgreeChunked(chunks: seq<Bytes>, maxDatagram: nat, max: nat)
    requires Fits(FRAMES, Concat(chunks), IpLimits(maxDatagram), max)
    ensures Incremental(DecodeStep(FRAMES, max)) && Incremental(SkimStep(IpLimits(maxDatagram), VALIDATE))
    ensures var d := Fed(DecodeStep(FRAMES, max), [], chunks);
            var s := Fed(SkimStep(IpLimits(maxDatagram), VALIDATE), [], chunks);
            && IpFrames(s.out) == Known(d.out) && s.error == d.error
            && (d.error.None? ==> s.pending == d.pending)
  {
    DecodeIncremental(FRAMES, max);
    assert [] + Concat(chunks) == Concat(chunks);
    ChunkingInvisible(DecodeStep(FRAMES, max), [], chunks);
    SkimChunking(IpLimits(maxDatagram), VALIDATE, chunks);
    DecodersAgree(Concat(chunks), maxDatagram, max);
  }

  // ----- what the calls return -----

  /** The steps of the CONNECT-IP reader, which yields frames. */
  ghost function IpStep(maxDatagram: nat): Bytes -> Step<CapsuleFrame, DecodeError> {
    Mapped(SkimStep(IpLimits(maxDatagram), VALIDATE), IpFrames)
  }

  lemma IpFramesHomomorphic()
    ensures Homomorphic(IpFrames)
  {
    forall a, b ensures IpFrames(a + b) == IpFrames(a) + IpFrames(b) {
      IpFramesConcat(a, b);
    }
  }

  lemma RefusedIsNoFrame(v: Value)
    requires VALIDATE(v.kind, v.bytes).Some?
    ensures IpFrames([v]) == []
  {
    SingleValue(v);
  }

  lemma IpStepSound(maxDatagram: nat)
    ensures Incremental(IpStep(maxDatagram)) && SelfContained(IpStep(maxDatagram)) && QuietErrors(IpStep(maxDatagram))
  {
    var limits := IpLimits(maxDatagram);
    SkimIncremental(limits, VALIDATE);
    SkimSelfContained(limits, VALIDATE);
    MappedIncremental(SkimStep(limits, VALIDATE), IpFrames);
    forall v: Value | VALIDATE(v.kind, v.bytes).Some? ensures IpFrames([v]) == [] {
      RefusedIsNoFrame(v);
    }
    SkimQuiet(limits, VALIDATE, IpFrames);
  }

  lemma IpScan(maxDatagram: nat, stream: Bytes)
    ensures Incremental(IpStep(maxDatagram))
    ensures var o := Skimmed(IpLimits(maxDatagram), VALIDATE, stream);
            Scan(IpStep(maxDatagram), stream) == Outcome(IpFrames(o.out), o.used, o.error)
  {
    IpStepSound(maxDatagram);
    SkimIncremental(IpLimits(maxDatagram), VALIDATE);
    IpFramesHomomorphic();
    MappedScan(SkimStep(IpLimits(maxDatagram), VALIDATE), IpFrames, stream);
  }

  /**
    The calls return every frame of the stream if and only if the last one is complete before
    the chunk that reveals the error arrives.
   */
  lemma FramesReturnedExactly(maxDatagram: nat, chunks: seq<Bytes>)
    ensures Incremental(IpStep(maxDatagram))
    ensures Returned(IpStep(maxDatagram), [], chunks) == Scan(IpStep(maxDatagram), Concat(chunks)).out
            <==> LastYield(IpStep(maxDatagram), Concat(chunks)) <= |Ahead(IpStep(maxDatagram), [], chunks)|
  {
    IpStepSound(maxDatagram);
    assert [] + Concat(chunks) == Concat(chunks);
    NothingLostExactly(IpStep(maxDatagram), [], chunks);
  }

  /** The two decoders agree on every front of a stream they agree on. */
  lemma AgreeOnFront(front: Bytes, rest: Bytes, maxDatagram: nat, max: nat)
    requires Fits(FRAMES, front + rest, IpLimits(maxDatagram), max)
    ensures Incremental(DecodeStep(FRAMES, max)) && Incremental(IpStep(maxDatagram))
    ensures var d, s := Scan(DecodeStep(FRAMES, max), front), Scan(IpStep(maxDatagram), front);
            s.out == Known(d.out) && s.error == d.error
  {
    DecodeIncremental(FRAMES, max);
    FitsPrefix(FRAMES, front, rest, IpLimits(maxDatagram), max);
    DecodersAgree(front, maxDatagram, max);
    IpScan(maxDatagram, front);
  }

  lemma NothingFirst(front: Bytes)
    ensures [] + front == front
  {
  }

  /** In particular up to the end of any chunk. */
  lemma AgreeUpto(
    d: Bytes -> Step<CapsuleFrame, DecodeError>, s: Bytes -> Step<CapsuleFrame, DecodeError>,
    chunks: seq<Bytes>, j: nat, maxDatagram: nat, max: nat)
    requires Fits(FRAMES, Concat(chunks), IpLimits(maxDatagram), max) && j <= |chunks|
    requires d == DecodeStep(FRAMES, max) && s == IpStep(maxDatagram)
    ensures Incremental(d) && Incremental(s)
    ensures FailedBy(s, [], chunks, j) == FailedBy(d, [], chunks, j)
    ensures Scan(s, [] + Concat(chunks[..j])).out == Known(Scan(d, [] + Concat(chunks[..j])).out)
  {
    ConcatCut(chunks, j);
    AgreeOnFront(Concat(chunks[..j]), Concat(chunks[j..]), maxDatagram, max);
    NothingFirst(Concat(chunks[..j]));
  }

  /** Called with the same chunks, the two decoders fail at the same call and return the same known frames. */
  lemma DecodersReturnAlike(chunks: seq<Bytes>, maxDatagram: nat, max: nat)
    requires Fits(FRAMES, Concat(chunks), IpLimits(maxDatagram), max)
    ensures Incremental(DecodeStep(FRAMES, max)) && Incremental(IpStep(maxDatagram))
    ensures FailsAt(IpStep(maxDatagram), [], chunks) == FailsAt(DecodeStep(FRAMES, max), [], chunks)
    ensures Returned(IpStep(maxDatagram), [], chunks) == Known(Returned(DecodeStep(FRAMES, max), [], chunks))
  {
    DecodeIncremental(FRAMES, max);
    IpStepSound(maxDatagram);
    var d, s := DecodeStep(FRAMES, max), IpStep(maxDatagram);
    forall j | 0 <= j <= |chunks|
      ensures FailedBy(s, [], chunks, j) == FailedBy(d, [], chunks, j)
    {
      AgreeUpto(d, s, chunks, j, maxDatagram, max);
    }
    SameFailure(s, d, [], chunks);
    ReturnedIsAhead(d, [], chunks);
    ReturnedIsAhead(s, [], chunks);
    AgreeUpto(d, s, chunks, FailsAt(d, [], chunks), maxDatagram, max);
  }

  /** The two empty capsules are within all limits. */
  lemma EmptyCapsulesFit(stream: Bytes, maxDatagram: nat, max: nat)
    requires stream == [DATAGRAM, 0, ADDRESS_REQUEST, 0]
    ensures Fits(FRAMES, stream, IpLimits(maxDatagram), max)
  {
    var a: Bytes, b: Bytes := [DATAGRAM, 0], [ADDRESS_REQUEST, 0];
    EmptyHeader(DATAGRAM, b);
    EmptyHeader(ADDRESS_REQUEST, []);
    assert a + b == stream && b + [] == b && stream[2..] == b && stream[2..2] == [];
    EmptyValues();
  }

  lemma EmptyHeader(kind: nat, tail: Bytes)
    requires kind < 64
    ensures HeaderOf([kind, 0] + tail) == Some(Header(kind, 0, 2))
  {
    SmallEncoding(kind);
    SmallEncoding(0);
    HeaderWritten(kind, 0, tail);
    assert [kind] + [0] + tail == [kind, 0] + tail;
  }

  /** The octets that show the chunking in the buffering decoder show it here too. */
  lemma IpChunkingShows(maxDatagram: nat, one: seq<Bytes>, two: seq<Bytes>)
    requires one == [[0, 0, 2, 0]] && two == [[0, 0], [2, 0]]
    ensures Concat(one) == Concat(two) && Incremental(IpStep(maxDatagram))
    ensures Returned(IpStep(maxDatagram), [], one) == []
    ensures Returned(IpStep(maxDatagram), [], two) == [Datagram([])]
  {
    ChunkingShows(0, one, two);
    ConcatOne(one[0]);
    EmptyCapsulesFit(Concat(one), maxDatagram, 0);
    DecodersReturnAlike(one, maxDatagram, 0);
    DecodersReturnAlike(two, maxDatagram, 0);
    SingleFrame(Datagram([]));
  }

  class IpReader {
    const decoder: Reader

    ghost predicate Valid()
      reads this, decoder, decoder.header
    {
      decoder.Valid() && decoder.limits.control == Some(MAX_ADDRESS_REQUEST_SIZE)
    }

    constructor (maxDatagram: nat)
      ensures Valid() && decoder.pending == [] && decoder.limits == Limits(maxDatagram, Some(16 * 1024))
      ensures fresh(decoder) && fresh(decoder.header)
    {
      decoder := new Reader(IpLimits(maxDatagram));
    }

    predicate IsPartial(): (partial: bool)
      requires Valid()
      reads this, decoder, decoder.header
      ensures partial <==> decoder.pending != []
    {
      decoder.IsPartial()
    }

    method Decode(data: Bytes) returns (r: Result<seq<CapsuleFrame>, DecodeError>)
      requires decoder.Safe()
      modifies decoder, decoder.header
      ensures decoder.Safe()
      ensures old(Valid()) ==>
                var stream := old(decoder.pending) + data;
                var o := Skimmed(decoder.limits, VALIDATE, stream);
                && (o.error.Some? ==> r == Err(o.error.value))
                && (o.error.None? ==> r == Ok(IpFrames(o.out)) && Valid() && decoder.pending == stream[o.used..])
    {
      ForgetfulSkim(decoder.limits, VALIDATE, [], decoder.pending + data);
      var out, error := decoder.DecodeWith(data, Forgetful(VALIDATE), []);
      if error.Some? {
        return Err(error.value);
      }
      var frames: seq<CapsuleFrame> := [];
      for i := 0 to |out|
        invariant frames == IpFrames(out[..i])
      {
        assert out[..i + 1][..i] == out[..i];
        var frame := FrameOf(out[i].kind, out[i].bytes);
        if frame.Ok? {
          frames := frames + [frame.value];
        }
      }
      assert out[..|out|] == out;
      return Ok(frames);
    }

    /** Feed chunk after chunk until one fails; `frames` is what the calls return. */
    method DecodeAll(chunks: seq<Bytes>) returns (frames: seq<CapsuleFrame>, error: Option<DecodeError>)
      requires Valid()
      modifies decoder, decoder.header
      ensures decoder.Safe() && Incremental(IpStep(decoder.limits.datagram))
      ensures var step := IpStep(decoder.limits.datagram);
              && frames == Returned(step, old(decoder.pending), chunks)
              && error == Fed(step, old(decoder.pending), chunks).error
              && (error.None? ==> Valid() && decoder.pending == Fed(step, old(decoder.pending), chunks).pending)
    {
      var maxDatagram := decoder.limits.datagram;
      IpStepSound(maxDatagram);
      ghost var step, start := IpStep(maxDatagram), decoder.pending;
      frames, error := [], None;
      UptoStart(step, start, chunks);
      for i := 0 to |chunks|
        invariant Valid() && error.None? && Upto(step, start, chunks, i, frames, decoder.pending)
      {
        UptoStep(step, start, chunks, i, frames, decoder.pending);
        IpScan(maxDatagram, decoder.pending + chunks[i]);
        var r := Decode(chunks[i]);
        if r.Err? {
          error := Some(r.error);
          return;
        }
        frames := frames + r.value;
      }
      UptoEnd(step, start, chunks, frames, decoder.pending);
    }
  }
}
