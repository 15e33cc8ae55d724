/**
  The byte-driven capsule reader: buffers a header and the values it is interested in,
  and skips every other value without storing it.
 */
module DatagramCapsules {
  import opened Base
  import opened Capsules
  import opened CapsuleFraming
  import opened StreamScan
  import Varint

  /** Limits on a DATAGRAM value and, if IP controls are wanted, on a control value. */
  datatype Limits = Limits(datagram: nat, control: Option<nat>) {
    /** None means the value is skipped. */
    function For(kind: nat): (limit: Option<nat>) {
      if kind == DATAGRAM then Some(datagram)
      else if kind == ADDRESS_ASSIGN || kind == ADDRESS_REQUEST || kind == ROUTE_ADVERTISEMENT then control
      else None
    }
  }

  /** A complete value handed to the callback. */
  datatype Value = Value(kind: nat, bytes: Bytes)

  /** A verdict on a value: None accepts it. */
  type Receiver = (nat, Bytes) -> Option<DecodeError>

  /** The callback's verdict on a value, given all values it was handed before. */
  type Callback = (seq<Value>, Value) -> Option<DecodeError>

  /** The callback that goes by the value alone. */
  function Forgetful(receive: Receiver): Callback {
    (_: seq<Value>, v: Value) => receive(v.kind, v.bytes)
  }

  // ----- reference behaviour on the whole stream -----

  function SkimOne(limits: Limits, receive: Receiver, buf: Bytes): (s: Step<Value, DecodeError>)
    ensures s.Advance? ==> 0 < s.size <= |buf|
  {
    var header := HeaderOf(buf);
    if header.None? then Stuck else
    var Header(kind, length, size) := header.value;
    var limit := limits.For(kind);
    if limit.Some? && length > limit.value then Broken([], TooLarge(length, limit.value))
    else if |buf| < size + length then Stuck
    else if limit.None? then Advance([], size + length)
    else
      var bytes := buf[size..size + length];
      match receive(kind, bytes)
      case None => Advance([Value(kind, bytes)], size + length)
      case Some(e) => Broken([Value(kind, bytes)], e)
  }

  /** Type 0 has its own limit, types 1 to 3 share one if they are wanted, and nothing else is looked at. */
  ghost predicate Wanted(limits: Limits, kind: nat) {
    kind == 0 || (1 <= kind <= 3 && limits.control.Some?)
  }

  ghost predicate OverLimit(limits: Limits, kind: nat, length: nat) {
    (kind == 0 && length > limits.datagram) ||
    (1 <= kind <= 3 && limits.control.Some? && length > limits.control.value)
  }

  /** A capsule is refused for its length exactly if it is over its limit, and else handed over exactly if wanted. */
  lemma LimitsDecide(limits: Limits, receive: Receiver, buf: Bytes)
    requires HeaderOf(buf).Some?
    ensures var Header(kind, length, size) := HeaderOf(buf).value;
            var step := SkimOne(limits, receive, buf);
            && (OverLimit(limits, kind, length) <==> step.Broken? && step.out == [])
            && (OverLimit(limits, kind, length) && kind == 0 ==> step.error == TooLarge(length, limits.datagram))
            && (OverLimit(limits, kind, length) && kind != 0 ==> step.error == TooLarge(length, limits.control.value))
            && (!OverLimit(limits, kind, length) ==> (step.Stuck? <==> |buf| < size + length))
            && (!OverLimit(limits, kind, length) && size + length <= |buf| ==>
                  step.out == if Wanted(limits, kind) then [Value(kind, buf[size..size + length])] else [])
            && (!OverLimit(limits, kind, length) && size + length <= |buf| ==>
                  (step.Broken? <==> Wanted(limits, kind) && receive(kind, buf[size..size + length]).Some?))
  {
  }

  ghost function SkimStep(limits: Limits, receive: Receiver): Bytes -> Step<Value, DecodeError> {
    (buf: Bytes) => SkimOne(limits, receive, buf)
  }

  lemma SkimStable(limits: Limits, receive: Receiver, buf: Bytes, tail: Bytes)
    requires !SkimOne(limits, receive, buf).Stuck?
    ensures SkimOne(limits, receive, buf + tail) == SkimOne(limits, receive, buf)
  {
    HeaderStable(buf, tail);
    var Header(_, length, size) := HeaderOf(buf).value;
    if |buf| >= size + length {
      assert (buf + tail)[size..size + length] == buf[size..size + length];
    }
  }

  lemma SkimIncremental(limits: Limits, receive: Receiver)
    ensures Incremental(SkimStep(limits, receive))
  {
    var step := SkimStep(limits, receive);
    forall a: Bytes, b: Bytes | !step(a).Stuck?
      ensures step(a + b) == step(a)
    {
      SkimStable(limits, receive, a, b);
    }
  }

  /** Everything the callback is handed for a stream, and the error that ends it, if any. */
  ghost function Skimmed(limits: Limits, receive: Receiver, stream: Bytes): (o: Outcome<Value, DecodeError>)
    ensures o.used <= |stream|
  {
    SkimIncremental(limits, receive);
    Scan(SkimStep(limits, receive), stream)
  }

  /** The octets of exactly one capsule. */
  ghost predicate IsCapsule(s: Bytes) {
    HeaderOf(s).Some? && |s| == HeaderOf(s).value.size + HeaderOf(s).value.length
  }

  ghost predicate AllCapsules(parts: seq<Bytes>) {
    forall p :: p in parts ==> IsCapsule(p)
  }

  /** Feeding in chunks, from a position inside or between capsules, is feeding the whole stream. */
  lemma SkimWhole(limits: Limits, receive: Receiver, start: Bytes, chunks: seq<Bytes>)
    requires SkimOne(limits, receive, start).Stuck?
    ensures Incremental(SkimStep(limits, receive))
    ensures var stream := start + Concat(chunks);
            var fed, whole := Fed(SkimStep(limits, receive), start, chunks), Skimmed(limits, receive, stream);
            && fed.out == whole.out && fed.error == whole.error
            && (whole.error.None? ==> fed.pending == stream[whole.used..])
  {
    SkimIncremental(limits, receive);
    ChunkingInvisible(SkimStep(limits, receive), start, chunks);
  }

  /** The callback and the error do not depend on how the stream is cut into chunks. */
  lemma SkimChunking(limits: Limits, receive: Receiver, chunks: seq<Bytes>)
    ensures Incremental(SkimStep(limits, receive))
    ensures var fed, whole := Fed(SkimStep(limits, receive), [], chunks), Skimmed(limits, receive, Concat(chunks));
            && fed.out == whole.out && fed.error == whole.error
            && (whole.error.None? ==> fed.pending == Concat(chunks)[whole.used..])
  {
    assert [] + Concat(chunks) == Concat(chunks);
    SkimWhole(limits, receive, [], chunks);
  }

  lemma CapsuleFirst(limits: Limits, receive: Receiver, part: Bytes, tail: Bytes)
    requires IsCapsule(part) && Skimmed(limits, receive, part + tail).error.None?
    ensures Skimmed(limits, receive, tail).error.None?
    ensures Skimmed(limits, receive, part + tail).used == |part| + Skimmed(limits, receive, tail).used
  {
    SkimIncremental(limits, receive);
    CleanFront(SkimStep(limits, receive), part, tail);
  }

  /** Without an error, nothing is pending exactly when the stream is a row of whole capsules. */
  lemma {:induction false} WholeCapsulesEndCleanly(limits: Limits, receive: Receiver, parts: seq<Bytes>)
    requires AllCapsules(parts) && Skimmed(limits, receive, Concat(parts)).error.None?
    ensures Skimmed(limits, receive, Concat(parts)).used == |Concat(parts)|
  {
    if parts != [] {
      assert IsCapsule(parts[0]);
      CapsuleFirst(limits, receive, parts[0], Concat(parts[1..]));
      WholeCapsulesEndCleanly(limits, receive, parts[1..]);
    }
  }

  lemma {:induction false} CleanEndIsWhole(limits: Limits, receive: Receiver, stream: Bytes)
    returns (parts: seq<Bytes>)
    requires Skimmed(limits, receive, stream).error.None?
    requires Skimmed(limits, receive, stream).used == |stream|
    ensures AllCapsules(parts) && Concat(parts) == stream
    decreases |stream|
  {
    if stream == [] {
      parts := [];
    } else {
      var n := FirstCapsule(limits, receive, stream);
      var rest := CleanEndIsWhole(limits, receive, stream[n..]);
      parts := [stream[..n]] + rest;
      assert parts[1..] == rest;
      assert stream == stream[..n] + stream[n..];
    }
  }

  lemma FirstCapsule(limits: Limits, receive: Receiver, stream: Bytes) returns (n: nat)
    requires stream != [] && Skimmed(limits, receive, stream).error.None?
    requires Skimmed(limits, receive, stream).used == |stream|
    ensures 0 < n <= |stream| && IsCapsule(stream[..n])
    ensures Skimmed(limits, receive, stream[n..]).error.None?
    ensures Skimmed(limits, receive, stream[n..]).used == |stream[n..]|
  {
    SkimIncremental(limits, receive);
    CleanStep(SkimStep(limits, receive), stream);
    n := SkimOne(limits, receive, stream).size;
    CapsuleAlone(stream, n);
  }

  lemma CapsuleAlone(stream: Bytes, n: nat)
    requires HeaderOf(stream).Some? && n == HeaderOf(stream).value.size + HeaderOf(stream).value.length <= |stream|
    ensures IsCapsule(stream[..n])
  {
    HeaderKept(stream, n);
  }

  lemma HeaderWithin(s: Bytes, tail: Bytes)
    requires HeaderOf(s + tail).Some?
    ensures HeaderOf(s + tail).value.size <= |s| ==> HeaderOf(s).Some?
  {
    var size := HeaderOf(s + tail).value.size;
    HeaderFront(s + tail);
    if size <= |s| {
      assert (s + tail)[..size] == s[..size];
      HeaderStable(s[..size], s[size..]);
      assert s[..size] + s[size..] == s;
    }
  }

  /** What is to be done when the header has just been completed. */
  lemma HeaderVerdict(limits: Limits, receive: Receiver, seen: Bytes)
    requires HeaderOf(seen).Some? && HeaderOf(seen).value.size == |seen|
    ensures var Header(kind, length, _) := HeaderOf(seen).value;
            var limit := limits.For(kind);
            SkimOne(limits, receive, seen) ==
            if limit.Some? && length > limit.value then Broken([], TooLarge(length, limit.value))
            else if length > 0 then Stuck
            else if limit.None? then Advance([], |seen|)
            else match receive(kind, [])
                 case None => Advance([Value(kind, [])], |seen|)
                 case Some(e) => Broken([Value(kind, [])], e)
  {
    assert seen[|seen|..|seen|] == [];
  }

  /** What is to be done with `chunk` when `before` lacks `missing` octets of its value. */
  lemma ValueVerdict(limits: Limits, receive: Receiver, before: Bytes, chunk: Bytes, missing: nat)
    requires HeaderOf(before).Some? && 0 < |chunk| <= missing
    requires HeaderOf(before).value.size + HeaderOf(before).value.length == |before| + missing
    requires var limit := limits.For(HeaderOf(before).value.kind);
             limit.Some? ==> HeaderOf(before).value.length <= limit.value
    ensures var Header(kind, _, size) := HeaderOf(before).value;
            var seen, bytes := before + chunk, before[size..] + chunk;
            && HeaderOf(seen) == HeaderOf(before) && seen[size..] == bytes
            && SkimOne(limits, receive, seen) ==
               if |chunk| < missing then Stuck
               else if limits.For(kind).None? then Advance([], |seen|)
               else match receive(kind, bytes)
                    case None => Advance([Value(kind, bytes)], |seen|)
                    case Some(e) => Broken([Value(kind, bytes)], e)
  {
    var size := HeaderOf(before).value.size;
    HeaderStable(before, chunk);
    DropAppend(before, chunk, size);
    var seen := before + chunk;
    assert seen[size..|seen|] == seen[size..];
  }

  ghost predicate SkimTracks(
    limits: Limits, receive: Receiver, stream: Bytes, sent: seq<Value>, used: nat, tail: Bytes)
  {
    SkimIncremental(limits, receive);
    Tracks(SkimStep(limits, receive), stream, sent, used, tail)
  }

  lemma SkimTracksStart(limits: Limits, receive: Receiver, stream: Bytes)
    ensures SkimTracks(limits, receive, stream, [], 0, stream)
  {
    SkimIncremental(limits, receive);
    TracksStart(SkimStep(limits, receive), stream);
  }

  lemma SkimTracksEnd(
    limits: Limits, receive: Receiver, stream: Bytes, sent: seq<Value>, used: nat, tail: Bytes)
    requires SkimTracks(limits, receive, stream, sent, used, tail) && SkimOne(limits, receive, tail).Stuck?
    ensures Skimmed(limits, receive, stream) == Outcome(sent, used, None) && stream[used..] == tail
  {
    SkimIncremental(limits, receive);
    TracksEnd(SkimStep(limits, receive), stream, sent, used, tail);
  }

  lemma SkimResponseTracks(
    limits: Limits, receive: Receiver, stream: Bytes, sent: seq<Value>, used: nat,
    before: Bytes, piece: Bytes, rest: Bytes, out: seq<Value>, error: Option<DecodeError>, open: Bytes)
    returns (used': nat)
    requires SkimTracks(limits, receive, stream, sent, used, before + (piece + rest))
    requires Responds(SkimOne(limits, receive, before + piece), before + piece, out, error, open)
    ensures error.None? ==> SkimTracks(limits, receive, stream, sent + out, used', open + rest)
    ensures error.Some? ==> Skimmed(limits, receive, stream) == Outcome(sent + out, used', error)
  {
    SkimIncremental(limits, receive);
    ResponseTracks(SkimStep(limits, receive), stream, sent, used, before, piece, rest, out, error, open);
    used' := if error.Some? then used else used + |before + piece| - |open|;
  }

  /** The callback of the plain datagram reader, which takes every value. */
  const ACCEPT_ALL: Receiver := (kind: nat, bytes: Bytes) => None

  // ----- callbacks with a memory -----

  /** What of `values` the callback is handed, and how it ends: with its first refusal, or with `end`. */
  ghost function Handed(callback: Callback, before: seq<Value>, values: seq<Value>, end: Option<DecodeError>)
    : (r: (seq<Value>, Option<DecodeError>))
    decreases |values|
  {
    if values == [] then ([], end) else
    match callback(before, values[0])
    case Some(e) => ([values[0]], Some(e))
    case None =>
      var later := Handed(callback, before + [values[0]], values[1..], end);
      ([values[0]] + later.0, later.1)
  }

  /** The callback refuses none of `values`. */
  ghost predicate Accepts(callback: Callback, before: seq<Value>, values: seq<Value>) {
    Handed(callback, before, values, None).1.None?
  }

  /** Behind values it accepts, the callback goes on as if called with the rest. */
  lemma {:induction false} HandedAfter(
    callback: Callback, before: seq<Value>, a: seq<Value>, b: seq<Value>, end: Option<DecodeError>)
    requires Accepts(callback, before, a)
    ensures var later := Handed(callback, before + a, b, end);
            Handed(callback, before, a + b, end) == (a + later.0, later.1)
    decreases |a|
  {
    if a == [] {
      var later := Handed(callback, before, b, end);
      assert a + b == b && before + a == before && a + later.0 == later.0;
    } else {
      HandedAfter(callback, before + [a[0]], a[1..], b, end);
      assert (a + b)[0] == a[0] && (a + b)[1..] == a[1..] + b;
      Regroup(before, [a[0]], a[1..]);
      assert [a[0]] + a[1..] == a;
      Regroup([a[0]], a[1..], Handed(callback, before + a, b, end).0);
    }
  }

  /** Nothing is handed over after a refusal. */
  lemma {:induction false} HandedRefused(
    callback: Callback, before: seq<Value>, a: seq<Value>, b: seq<Value>, end: Option<DecodeError>)
    requires !Accepts(callback, before, a)
    ensures Handed(callback, before, a + b, end) == Handed(callback, before, a, None)
    decreases |a|
  {
    assert (a + b)[0] == a[0] && (a + b)[1..] == a[1..] + b;
    if callback(before, a[0]).None? {
      HandedRefused(callback, before + [a[0]], a[1..], b, end);
    }
  }

  /** Without a refusal everything is handed over. */
  lemma HandedAll(callback: Callback, before: seq<Value>, values: seq<Value>, end: Option<DecodeError>)
    requires Accepts(callback, before, values)
    ensures Handed(callback, before, values, end) == (values, end)
  {
    HandedAfter(callback, before, values, [], end);
    assert values + [] == values;
  }

  lemma {:induction false} HandedNothingOpen(
    callback: Callback, before: seq<Value>, values: seq<Value>, end: Option<DecodeError>)
    requires Handed(callback, before, values, end).1.None?
    ensures Accepts(callback, before, values) && end.None?
    decreases |values|
  {
    if values != [] {
      HandedNothingOpen(callback, before + [values[0]], values[1..], end);
    }
  }

  lemma AcceptsMore(callback: Callback, before: seq<Value>, a: seq<Value>, b: seq<Value>)
    requires Accepts(callback, before, a) && Accepts(callback, before + a, b)
    ensures Accepts(callback, before, a + b)
  {
    HandedAfter(callback, before, a, b, None);
  }

  lemma HandedOne(callback: Callback, before: seq<Value>, v: Value)
    ensures Handed(callback, before, [v], None) == ([v], callback(before, v))
  {
    assert [v] + [] == [v];
    HandedFirst(callback, before, v, [], None);
  }

  lemma HandedFirst(callback: Callback, before: seq<Value>, v: Value, later: seq<Value>, end: Option<DecodeError>)
    ensures var rest := Handed(callback, before + [v], later, end);
            Handed(callback, before, [v] + later, end) ==
            if callback(before, v).Some? then ([v], callback(before, v)) else ([v] + rest.0, rest.1)
  {
    assert ([v] + later)[0] == v && ([v] + later)[1..] == later;
  }

  /** The values refused at `v` are those up to it. */
  lemma HandedUpTo(
    callback: Callback, before: seq<Value>, a: seq<Value>, v: Value, b: seq<Value>, end: Option<DecodeError>)
    requires Accepts(callback, before, a) && callback(before + a, v).Some?
    ensures Handed(callback, before, a + ([v] + b), end) == (a + [v], callback(before + a, v))
  {
    HandedOne(callback, before + a, v);
    HandedRefused(callback, before + a, [v], b, end);
    HandedAfter(callback, before, a, [v] + b, end);
  }

  /** The verdict at one point of a run of the callback. */
  function VerdictAt(callback: Callback, before: seq<Value>): Receiver {
    (kind: nat, bytes: Bytes) => callback(before, Value(kind, bytes))
  }

  /** `judged` is the accepting step `all`, unless `receive` refuses the value it completes. */
  ghost predicate Judges(receive: Receiver, all: Step<Value, DecodeError>, judged: Step<Value, DecodeError>) {
    if !all.Advance? || all.out == [] then judged == all && (all.Broken? ==> all.out == [])
    else
      && |all.out| == 1
      && judged == match receive(all.out[0].kind, all.out[0].bytes)
                   case None => all
                   case Some(e) => Broken(all.out, e)
  }

  lemma SkimJudges(limits: Limits, receive: Receiver, buf: Bytes)
    ensures Judges(receive, SkimOne(limits, ACCEPT_ALL, buf), SkimOne(limits, receive, buf))
  {
  }

  lemma {:induction false} ForgetfulScan(
    all: Bytes -> Step<Value, DecodeError>, judged: Bytes -> Step<Value, DecodeError>,
    receive: Receiver, before: seq<Value>, stream: Bytes)
    requires Incremental(all) && Incremental(judged) && forall buf :: Judges(receive, all(buf), judged(buf))
    ensures var a, o := Scan(all, stream), Scan(judged, stream);
            && Handed(Forgetful(receive), before, a.out, a.error) == (o.out, o.error)
            && (o.error.None? ==> o.used == a.used)
    decreases |stream|
  {
    var step := all(stream);
    assert Judges(receive, step, judged(stream));
    if step.Advance? {
      var rest := stream[step.size..];
      var later := Scan(all, rest);
      if step.out == [] {
        AfterSilence(step.size, later);
        AfterSilence(step.size, Scan(judged, rest));
        ForgetfulScan(all, judged, receive, before, rest);
      } else {
        var v := step.out[0];
        assert step.out == [v];
        HandedFirst(Forgetful(receive), before, v, later.out, later.error);
        ForgetfulScan(all, judged, receive, before + [v], rest);
      }
    }
  }

  lemma AfterSilence(n: nat, o: Outcome<Value, DecodeError>)
    ensures After([], n, o).out == o.out
  {
  }

  /** A verdict on values alone stops the stream where a callback giving that verdict refuses. */
  lemma ForgetfulSkim(limits: Limits, receive: Receiver, before: seq<Value>, stream: Bytes)
    ensures var all, o := Skimmed(limits, ACCEPT_ALL, stream), Skimmed(limits, receive, stream);
            && Handed(Forgetful(receive), before, all.out, all.error) == (o.out, o.error)
            && (o.error.None? ==> o.used == all.used)
  {
    SkimIncremental(limits, receive);
    SkimIncremental(limits, ACCEPT_ALL);
    var all, judged := SkimStep(limits, ACCEPT_ALL), SkimStep(limits, receive);
    forall buf: Bytes ensures Judges(receive, all(buf), judged(buf)) {
      SkimJudges(limits, receive, buf);
    }
    ForgetfulScan(all, judged, receive, before, stream);
  }

  /** A reader at `used`, whose callback was handed `sent` and accepted it. */
  ghost predicate CallbackTracks(
    limits: Limits, callback: Callback, before: seq<Value>, stream: Bytes, sent: seq<Value>, used: nat, tail: Bytes)
  {
    Accepts(callback, before, sent) && SkimTracks(limits, ACCEPT_ALL, stream, sent, used, tail)
  }

  lemma TurnTracks(
    limits: Limits, callback: Callback, before: seq<Value>, stream: Bytes, sent: seq<Value>, used: nat,
    open: Bytes, piece: Bytes, rest: Bytes, out: seq<Value>, error: Option<DecodeError>, left: Bytes)
    returns (used': nat)
    requires CallbackTracks(limits, callback, before, stream, sent, used, open + (piece + rest))
    requires var receive := VerdictAt(callback, before + sent);
             Responds(SkimOne(limits, receive, open + piece), open + piece, out, error, left)
    ensures error.None? ==> CallbackTracks(limits, callback, before, stream, sent + out, used', left + rest)
    ensures error.Some? ==>
              var o := Skimmed(limits, ACCEPT_ALL, stream);
              Handed(callback, before, o.out, o.error) == (sent + out, error)
  {
    var receive := VerdictAt(callback, before + sent);
    SkimJudges(limits, receive, open + piece);
    used' := 0;
    if SkimOne(limits, receive, open + piece) == SkimOne(limits, ACCEPT_ALL, open + piece) {
      used' := SkimResponseTracks(limits, ACCEPT_ALL, stream, sent, used, open, piece, rest, out, error, left);
      if out != [] {
        HandedOne(callback, before + sent, out[0]);
      }
      AcceptsMore(callback, before, sent, out);
      HandedAll(callback, before, sent + out, error);
    } else {
      var later := RefusedTracks(limits, stream, sent, used, open, piece, rest);
      HandedUpTo(callback, before, sent, out[0], later, Skimmed(limits, ACCEPT_ALL, stream).error);
    }
  }

  /** A value complete at the current position is handed over next. */
  lemma RefusedTracks(
    limits: Limits, stream: Bytes, sent: seq<Value>, used: nat, open: Bytes, piece: Bytes, rest: Bytes)
    returns (later: seq<Value>)
    requires SkimTracks(limits, ACCEPT_ALL, stream, sent, used, open + (piece + rest))
    requires SkimOne(limits, ACCEPT_ALL, open + piece).Advance?
    ensures Skimmed(limits, ACCEPT_ALL, stream).out
         == sent + (SkimOne(limits, ACCEPT_ALL, open + piece).out + later)
  {
    SkimIncremental(limits, ACCEPT_ALL);
    Associate(open, piece, rest);
    StepOnBoth(SkimStep(limits, ACCEPT_ALL), open + piece, rest);
    var n := SkimOne(limits, ACCEPT_ALL, open + piece).size;
    later := Skimmed(limits, ACCEPT_ALL, (open + piece)[n..] + rest).out;
  }

  /** What the callback is handed in the next of several calls, seen from all of them. */
  lemma CallHands(
    limits: Limits, callback: Callback, start: Bytes, chunks: seq<Bytes>, i: nat, out: seq<Value>, pending: Bytes)
    requires Incremental(SkimStep(limits, ACCEPT_ALL)) && i < |chunks| && Accepts(callback, [], out)
    requires Upto(SkimStep(limits, ACCEPT_ALL), start, chunks, i, out, pending)
    ensures var o := Skimmed(limits, ACCEPT_ALL, pending + chunks[i]);
            var (more, error) := Handed(callback, out, o.out, o.error);
            var fed := Fed(SkimStep(limits, ACCEPT_ALL), start, chunks);
            if error.Some? then Handed(callback, [], fed.out, fed.error) == (out + more, error) else
            && Accepts(callback, [], out + more)
            && Upto(SkimStep(limits, ACCEPT_ALL), start, chunks, i + 1, out + more, (pending + chunks[i])[o.used..])
  {
    var step := SkimStep(limits, ACCEPT_ALL);
    var input := pending + chunks[i];
    var o := Skimmed(limits, ACCEPT_ALL, input);
    UptoStep(step, start, chunks, i, out, pending);
    assert [] + out == out;
    if o.error.Some? {
      HandedAfter(callback, [], out, o.out, o.error);
      assert Handed(callback, out, o.out, o.error).1.Some? by {
        if Handed(callback, out, o.out, o.error).1.None? {
          HandedNothingOpen(callback, out, o.out, o.error);
        }
      }
    } else if Accepts(callback, out, o.out) {
      HandedAll(callback, out, o.out, None);
      AcceptsMore(callback, [], out, o.out);
    } else {
      var later := Fed(step, input[o.used..], chunks[i + 1..]);
      HandedRefused(callback, out, o.out, later.out, later.error);
      HandedAfter(callback, [], out, o.out + later.out, later.error);
      Regroup(out, o.out, later.out);
    }
  }

  function Payloads(values: seq<Value>): (r: seq<Bytes>) {
    if values == [] then [] else Payloads(values[..|values| - 1]) + [values[|values| - 1].bytes]
  }

  lemma {:induction false} PayloadsConcat(a: seq<Value>, b: seq<Value>)
    ensures Payloads(a + b) == Payloads(a) + Payloads(b)
    decreases |b|
  {
    if b == [] {
      assert a + b == a;
    } else {
      var n := |b| - 1;
      LastOfConcat(a, b);
      PayloadsConcat(a, b[..n]);
    }
  }

  lemma PayloadsHomomorphic()
    ensures Homomorphic(Payloads)
  {
    forall a, b ensures Payloads(a + b) == Payloads(a) + Payloads(b) {
      PayloadsConcat(a, b);
    }
  }

  lemma SkimSelfContained(limits: Limits, receive: Receiver)
    ensures SelfContained(SkimStep(limits, receive))
  {
    var step := SkimStep(limits, receive);
    forall buf: Bytes | step(buf).Advance? && step(buf).size <= |buf|
      ensures !step(buf[..step(buf).size]).Stuck?
    {
      SkimsAlone(limits, receive, buf);
    }
  }

  lemma SkimsAlone(limits: Limits, receive: Receiver, buf: Bytes)
    requires SkimOne(limits, receive, buf).Advance?
    ensures !SkimOne(limits, receive, buf[..SkimOne(limits, receive, buf).size]).Stuck?
  {
    HeaderKept(buf, SkimOne(limits, receive, buf).size);
  }

  /** If `f` makes nothing of a refused value, errors come without output. */
  lemma SkimQuiet<F(!new)>(limits: Limits, receive: Receiver, f: seq<Value> -> seq<F>)
    requires f([]) == [] && forall v: Value :: receive(v.kind, v.bytes).Some? ==> f([v]) == []
    ensures QuietErrors(Mapped(SkimStep(limits, receive), f))
  {
    var step := Mapped(SkimStep(limits, receive), f);
    forall buf: Bytes | step(buf).Broken? ensures step(buf).out == [] {
      var out := SkimOne(limits, receive, buf).out;
      assert out == [] || (out == [out[0]] && receive(out[0].kind, out[0].bytes).Some?);
    }
  }

  /** The steps of the plain datagram reader, which yields payloads. */
  ghost function PayloadStep(limits: Limits): Bytes -> Step<Bytes, DecodeError> {
    Mapped(SkimStep(limits, ACCEPT_ALL), Payloads)
  }

  lemma PayloadStepSound(limits: Limits)
    ensures Incremental(PayloadStep(limits)) && SelfContained(PayloadStep(limits)) && QuietErrors(PayloadStep(limits))
  {
    SkimIncremental(limits, ACCEPT_ALL);
    SkimSelfContained(limits, ACCEPT_ALL);
    MappedIncremental(SkimStep(limits, ACCEPT_ALL), Payloads);
    SkimQuiet(limits, ACCEPT_ALL, Payloads);
  }

  lemma PayloadScan(limits: Limits, stream: Bytes)
    ensures Incremental(PayloadStep(limits))
    ensures var o := Skimmed(limits, ACCEPT_ALL, stream);
            Scan(PayloadStep(limits), stream) == Outcome(Payloads(o.out), o.used, o.error)
  {
    PayloadStepSound(limits);
    SkimIncremental(limits, ACCEPT_ALL);
    PayloadsHomomorphic();
    MappedScan(SkimStep(limits, ACCEPT_ALL), Payloads, stream);
  }

  /**
    The calls return every payload of the stream if and only if the last one is complete before
    the chunk that reveals the error arrives.
   */
  lemma PayloadsReturnedExactly(limits: Limits, chunks: seq<Bytes>)
    ensures Incremental(PayloadStep(limits))
    ensures Returned(PayloadStep(limits), [], chunks) == Scan(PayloadStep(limits), Concat(chunks)).out
            <==> LastYield(PayloadStep(limits), Concat(chunks)) <= |Ahead(PayloadStep(limits), [], chunks)|
  {
    PayloadStepSound(limits);
    assert [] + Concat(chunks) == Concat(chunks);
    NothingLostExactly(PayloadStep(limits), [], chunks);
  }

  /** The step on an empty DATAGRAM, on a header over a limit, and on nothing. */
  lemma PayloadSteps(limits: Limits, kind: nat, limit: nat)
    requires limits.For(kind) == Some(limit) && limit < Varint.MAX_VALUE
    ensures PayloadStep(limits)([DATAGRAM, 0]) == Advance([[]], 2)
    ensures PayloadStep(limits)(Varint.Encoding(kind) + Varint.Encoding(limit + 1)).Broken?
    ensures PayloadStep(limits)([]).Stuck?
  {
    var a: Bytes := [DATAGRAM, 0];
    SmallEncoding(DATAGRAM);
    HeaderWritten(DATAGRAM, DATAGRAM, []);
    assert a == [DATAGRAM] + [DATAGRAM] + [];
    HeaderVerdict(limits, ACCEPT_ALL, a);
    OnePayload(Value(DATAGRAM, []));
    var b := Varint.Encoding(kind) + Varint.Encoding(limit + 1);
    HeaderWritten(kind, limit + 1, []);
    assert b + [] == b;
    HeaderVerdict(limits, ACCEPT_ALL, b);
  }

  lemma OnePayload(v: Value)
    ensures Payloads([v]) == [v.bytes]
  {
    assert [v][..0] == [];
    assert Payloads([v][..0]) == [];
  }

  lemma PayloadsLost(limits: Limits, kind: nat, limit: nat)
    requires limits.For(kind) == Some(limit) && limit < Varint.MAX_VALUE
    ensures Incremental(PayloadStep(limits)) && !NeverLoses(PayloadStep(limits))
  {
    PayloadStepSound(limits);
    PayloadSteps(limits, kind, limit);
    var step, b := PayloadStep(limits), Varint.Encoding(kind) + Varint.Encoding(limit + 1);
    LosesTogether(step, [DATAGRAM, 0], b, [[]]);
  }

  lemma PayloadsKept(limits: Limits)
    requires forall kind :: limits.For(kind).Some? ==> limits.For(kind).value >= Varint.MAX_VALUE
    ensures Incremental(PayloadStep(limits)) && NeverLoses(PayloadStep(limits))
  {
    PayloadStepSound(limits);
    ErrorFreeNeverLoses(PayloadStep(limits));
  }

  /** The calls return every payload of every stream if and only if no length is over a limit. */
  lemma PayloadsKeptExactly(limits: Limits)
    ensures Incremental(PayloadStep(limits))
    ensures NeverLoses(PayloadStep(limits)) <==>
            forall kind :: limits.For(kind).Some? ==> limits.For(kind).value >= Varint.MAX_VALUE
  {
    if kind :| limits.For(kind).Some? && limits.For(kind).value < Varint.MAX_VALUE {
      PayloadsLost(limits, kind, limits.For(kind).value);
    } else {
      PayloadsKept(limits);
    }
  }

  class Reader {
    const header: array<Byte>
    var headerLen: nat
    var remaining: nat
    var value: Option<Bytes>
    var kind: nat
    const limits: Limits
    /** The octets of the capsule in progress, stored or not. */
    ghost var pending: Bytes

    /** The header buffer always has room for the next octet. */
    ghost predicate Safe()
      reads this, header
    {
      && header.Length == 16
      && headerLen < 16
      && HeaderOf(header[..headerLen]).None?
      && (remaining == 0 ==> value.None?)
      && (remaining > 0 ==> headerLen == 0)
    }

    /** The fields describe the capsule in progress. */
    ghost predicate InStep()
      requires header.Length == 16 && headerLen < 16
      reads this, header
    {
      if remaining == 0 then pending == header[..headerLen] else
      && HeaderOf(pending).Some?
      && var Header(k, length, size) := HeaderOf(pending).value;
      && kind == k
      && size <= |pending|
      && size + length == |pending| + remaining
      && match limits.For(kind)
         case None => value.None?
         case Some(limit) => length <= limit && value == Some(pending[size..])
    }

    ghost predicate Valid()
      reads this, header
    {
      Safe() && InStep()
    }

    constructor (limits: Limits)
      ensures Valid() && pending == [] && this.limits == limits && fresh(header)
    {
      header := new Byte[16](_ => 0);
      headerLen := 0;
      remaining := 0;
      value := None;
      kind := DATAGRAM;
      this.limits := limits;
      pending := [];
      new;
      assert header[..headerLen] == [];
    }

    /** The input so far stops in the middle of a capsule. */
    predicate IsPartial(): (partial: bool)
      requires Valid()
      reads this, header
      ensures partial <==> pending != []
    {
      headerLen != 0 || remaining != 0
    }

    /** One octet of a header. */
    method HeaderByte(b: Byte, receive: Receiver) returns (out: seq<Value>, error: Option<DecodeError>)
      requires Safe() && remaining == 0
      modifies this, header
      ensures Safe()
      ensures old(Valid()) ==>
                && (error.None? ==> Valid())
                && Responds(SkimOne(limits, receive, old(pending) + [b]), old(pending) + [b], out, error, pending)
    {
      ghost var seen := header[..headerLen] + [b];
      header[headerLen] := b;
      headerLen := headerLen + 1;
      pending := seen;
      assert header[..headerLen] == seen;
      out, error := [], None;
      var complete := HeaderOf(header[..headerLen]);
      if complete.None? {
        return;
      }
      HeaderWithin(old(header[..headerLen]), [b]);
      HeaderVerdict(limits, receive, seen);
      headerLen := 0;
      assert header[..0] == [] && seen[|seen|..] == [];
      remaining := complete.value.length;
      kind := complete.value.kind;
      var limit := limits.For(kind);
      if limit.Some? && remaining > limit.value {
        error := Some(TooLarge(remaining, limit.value));
        return;
      }
      if remaining == 0 {
        pending := [];
        if limit.Some? {
          out, error := [Value(kind, [])], receive(kind, []);
        }
      } else {
        value := if limit.Some? then Some([]) else None;
      }
    }

    /** Octets of a value, no more than it still needs. */
    method ValueBytes(chunk: Bytes, receive: Receiver) returns (out: seq<Value>, error: Option<DecodeError>)
      requires Safe() && 0 < |chunk| <= remaining
      modifies this
      ensures Safe()
      ensures old(Valid()) ==>
                && (error.None? ==> Valid())
                && Responds(SkimOne(limits, receive, old(pending) + chunk), old(pending) + chunk, out, error, pending)
    {
      if Valid() {
        ValueVerdict(limits, receive, pending, chunk, remaining);
      }
      out, error := [], None;
      if value.Some? {
        value := Some(value.value + chunk);
      }
      remaining := remaining - |chunk|;
      pending := pending + chunk;
      if remaining == 0 {
        pending := [];
        if value.Some? {
          var bytes := value.value;
          value := None;
          out, error := [Value(kind, bytes)], receive(kind, bytes);
        }
      }
    }

    /** One turn of the decoding loop: a header octet, or as much of a value as there is. */
    method Turn(data: Bytes, receive: Receiver)
      returns (out: seq<Value>, error: Option<DecodeError>, ghost piece: Bytes, rest: Bytes)
      requires Safe() && data != []
      modifies this, header
      ensures data == piece + rest && |rest| < |data| && Safe()
      ensures old(Valid()) ==>
                && (error.None? ==> Valid())
                && Responds(SkimOne(limits, receive, old(pending) + piece), old(pending) + piece, out, error, pending)
    {
      if remaining == 0 {
        piece := [data[0]];
        rest := data[1..];
        assert data == piece + rest;
        out, error := HeaderByte(data[0], receive);
      } else {
        var take := if remaining < |data| then remaining else |data|;
        var bytes := data[..take];
        piece := bytes;
        rest := data[take..];
        assert data == piece + rest;
        out, error := ValueBytes(bytes, receive);
      }
    }

    /** The same turn, seen from the whole stream and from the callback, which accepted `sent`. */
    method TrackedTurn(
      data: Bytes, callback: Callback, before: seq<Value>, sent: seq<Value>,
      ghost inStep: bool, ghost stream: Bytes, ghost used: nat)
      returns (out: seq<Value>, error: Option<DecodeError>, rest: Bytes, ghost used': nat)
      requires Safe() && data != []
      requires inStep ==> Valid() && CallbackTracks(limits, callback, before, stream, sent, used, pending + data)
      modifies this, header
      ensures Safe() && |rest| < |data|
      ensures inStep && error.None? ==>
                Valid() && CallbackTracks(limits, callback, before, stream, out, used', pending + rest)
      ensures inStep && error.Some? ==>
                var o := Skimmed(limits, ACCEPT_ALL, stream);
                Handed(callback, before, o.out, o.error) == (out, error)
    {
      ghost var open := pending;
      ghost var piece;
      var o;
      o, error, piece, rest := Turn(data, VerdictAt(callback, before + sent));
      used' := 0;
      if inStep {
        used' := TurnTracks(limits, callback, before, stream, sent, used, open, piece, rest, o, error, pending);
      }
      out := sent + o;
    }

    /**
      Feed a stream chunk; `out` is what the callback is handed, in order, when it was handed
      `before` in earlier calls. A reader that is fed on after a refusal stays within its buffer.
     */
    method DecodeWith(chunk: Bytes, callback: Callback, before: seq<Value>)
      returns (out: seq<Value>, error: Option<DecodeError>)
      requires Safe()
      modifies this, header
      ensures Safe()
      ensures old(Valid()) ==>
                var stream := old(pending) + chunk;
                var o := Skimmed(limits, ACCEPT_ALL, stream);
                && (out, error) == Handed(callback, before, o.out, o.error)
                && (error.None? ==> Valid() && pending == stream[o.used..])
    {
      var data := chunk;
      ghost var inStep, stream := Valid(), pending + chunk;
      ghost var used: nat := 0;
      out, error := [], None;
      SkimTracksStart(limits, ACCEPT_ALL, stream);
      while data != []
        invariant Safe() && error.None?
        invariant inStep ==>
                    Valid() && CallbackTracks(limits, callback, before, stream, out, used, pending + data)
        decreases |data|
      {
        out, error, data, used := TrackedTurn(data, callback, before, out, inStep, stream, used);
        if error.Some? {
          return;
        }
      }
      if inStep {
        assert pending + data == pending;
        PendingIsStuck(ACCEPT_ALL);
        SkimTracksEnd(limits, ACCEPT_ALL, stream, out, used, pending);
        HandedAll(callback, before, out, None);
      }
    }

    /** A capsule in progress is unfinished and has not been refused. */
    lemma PendingIsStuck(receive: Receiver)
      requires Valid()
      ensures SkimOne(limits, receive, pending).Stuck?
    {
    }

    /** One chunk in, the values it completes out; the values of a failing call are given up. */
    method Decode(chunk: Bytes) returns (r: Result<seq<Bytes>, DecodeError>)
      requires Safe()
      modifies this, header
      ensures Safe()
      ensures old(Valid()) ==>
                var stream := old(pending) + chunk;
                var o := Skimmed(limits, ACCEPT_ALL, stream);
                && (o.error.Some? ==> r == Err(o.error.value))
                && (o.error.None? ==> r == Ok(Payloads(o.out)) && Valid() && pending == stream[o.used..])
    {
      ForgetfulSkim(limits, ACCEPT_ALL, [], pending + chunk);
      var out, error := DecodeWith(chunk, Forgetful(ACCEPT_ALL), []);
      if error.Some? {
        return Err(error.value);
      }
      var payloads: seq<Bytes> := [];
      for i := 0 to |out|
        invariant payloads == Payloads(out[..i])
      {
        assert out[..i + 1][..i] == out[..i];
        payloads := payloads + [out[i].bytes];
      }
      assert out[..|out|] == out;
      return Ok(payloads);
    }

    /**
      Feed chunk after chunk until one fails: the callback is handed exactly what the whole
      stream gives, and the reader is inside a capsule exactly if the stream ends in one.
     */
    method FeedAll(chunks: seq<Bytes>, callback: Callback) returns (out: seq<Value>, error: Option<DecodeError>)
      requires Valid()
      modifies this, header
      ensures Safe()
      ensures var stream := old(pending) + Concat(chunks);
              var o := Skimmed(limits, ACCEPT_ALL, stream);
              && (out, error) == Handed(callback, [], o.out, o.error)
              && (error.None? ==> Valid() && pending == stream[o.used..])
              && (error.None? ==> (IsPartial() <==> o.used < |stream|))
    {
      PendingIsStuck(ACCEPT_ALL);
      SkimWhole(limits, ACCEPT_ALL, pending, chunks);
      out, error := FeedEach(chunks, callback);
      if error.None? {
        ghost var o := Skimmed(limits, ACCEPT_ALL, old(pending) + Concat(chunks));
        HandedNothingOpen(callback, [], o.out, o.error);
      }
    }

    method FeedEach(chunks: seq<Bytes>, callback: Callback) returns (out: seq<Value>, error: Option<DecodeError>)
      requires Valid()
      modifies this, header
      ensures Safe() && Incremental(SkimStep(limits, ACCEPT_ALL))
      ensures var fed := Fed(SkimStep(limits, ACCEPT_ALL), old(pending), chunks);
              && (out, error) == Handed(callback, [], fed.out, fed.error)
              && (error.None? ==> Valid() && pending == fed.pending)
    {
      SkimIncremental(limits, ACCEPT_ALL);
      ghost var step, start := SkimStep(limits, ACCEPT_ALL), pending;
      out, error := [], None;
      UptoStart(step, start, chunks);
      for i := 0 to |chunks|
        invariant Valid() && error.None? && Accepts(callback, [], out)
        invariant Upto(step, start, chunks, i, out, pending)
      {
        CallHands(limits, callback, start, chunks, i, out, pending);
        var more;
        more, error := DecodeWith(chunks[i], callback, out);
        out := out + more;
        if error.Some? {
          return;
        }
      }
      UptoEnd(step, start, chunks, out, pending);
      HandedAll(callback, [], out, None);
    }

    /** The same with `Decode`, which returns nothing but the error of a failing call. */
    method DecodeAll(chunks: seq<Bytes>) returns (payloads: seq<Bytes>, error: Option<DecodeError>)
      requires Valid()
      modifies this, header
      ensures Safe() && Incremental(PayloadStep(limits))
      ensures payloads == Returned(PayloadStep(limits), old(pending), chunks)
      ensures error == Fed(PayloadStep(limits), old(pending), chunks).error
      ensures error.None? ==> Valid() && pending == Fed(PayloadStep(limits), old(pending), chunks).pending
    {
      PayloadStepSound(limits);
      ghost var step, start := PayloadStep(limits), pending;
      payloads, error := [], None;
      UptoStart(step, start, chunks);
      for i := 0 to |chunks|
        invariant Valid() && error.None? && Upto(step, start, chunks, i, payloads, pending)
      {
        UptoStep(step, start, chunks, i, payloads, pending);
        PayloadScan(limits, pending + chunks[i]);
        var r := Decode(chunks[i]);
        if r.Err? {
          error := Some(r.error);
          return;
        }
        payloads := payloads + r.value;
      }
      UptoEnd(step, start, chunks, payloads, pending);
    }
  }
}
