/**
  The framing layer of the Capsule Protocol (section 3.2 of RFC 9297): Type, Length, Value.
  How a value is interpreted is a parameter here.
 */
module CapsuleFraming {
  import opened Base
  import opened Capsules
  import opened StreamScan
  import Varint

  /** Type, value length and header size of a capsule. */
  datatype Header = Header(kind: nat, length: nat, size: nat)

  /** The header at the front of `buf`, once both of its varints are complete. */
  function HeaderOf(buf: Bytes): (h: Option<Header>)
    ensures h.None? ==> |buf| < 16
    ensures h.Some? ==> h.value.kind <= Varint.MAX_VALUE && h.value.length <= Varint.MAX_VALUE
    ensures h.Some? ==> 2 <= h.value.size <= 16 && h.value.size <= |buf|
  {
    var kind := Varint.Decode(buf);
    if kind.Err? then None else
    var length := Varint.Decode(buf[kind.value.1..]);
    if length.Err? then None
    else Some(Header(kind.value.0, length.value.0, kind.value.1 + length.value.1))
  }

  lemma HeaderStable(buf: Bytes, tail: Bytes)
    requires HeaderOf(buf).Some?
    ensures HeaderOf(buf + tail) == HeaderOf(buf)
  {
    Varint.DecodeStable(buf, tail);
    var n := Varint.Decode(buf).value.1;
    assert (buf + tail)[n..] == buf[n..] + tail;
    Varint.DecodeStable(buf[n..], tail);
  }

  /** Two varints are read back as the header they spell, whatever follows. */
  lemma HeaderWritten(kind: nat, length: nat, tail: Bytes)
    requires kind <= Varint.MAX_VALUE && length <= Varint.MAX_VALUE
    ensures var header := Varint.Encoding(kind) + Varint.Encoding(length);
            HeaderOf(header + tail) == Some(Header(kind, length, |header|))
  {
    var k, l := Varint.Encoding(kind), Varint.Encoding(length);
    Varint.RoundTrip(kind, l + tail);
    assert k + l + tail == k + (l + tail);
    assert (k + l + tail)[|k|..] == l + tail;
    Varint.RoundTrip(length, tail);
  }

  lemma SmallEncoding(value: nat)
    requires value < 64
    ensures Varint.Encoding(value) == [value]
  {
  }

  /** A header is decided by its own octets alone. */
  lemma HeaderFront(buf: Bytes)
    requires HeaderOf(buf).Some?
    ensures HeaderOf(buf[..HeaderOf(buf).value.size]) == HeaderOf(buf)
  {
    var size := HeaderOf(buf).value.size;
    var front := buf[..size];
    var n := Varint.Decode(buf).value.1;
    assert front[1..n] == buf[1..n];
    var length := buf[n..];
    assert front[n..] == length[..size - n];
    assert length[..size - n][1..size - n] == length[1..size - n];
  }

  /** Octets behind the header do not matter to it. */
  lemma HeaderKept(buf: Bytes, n: nat)
    requires HeaderOf(buf).Some? && HeaderOf(buf).value.size <= n <= |buf|
    ensures HeaderOf(buf[..n]) == HeaderOf(buf)
  {
    var size := HeaderOf(buf).value.size;
    HeaderFront(buf);
    HeaderStable(buf[..size], buf[size..n]);
    assert buf[..size] + buf[size..n] == buf[..n];
  }

  /** How a capsule value of a given type is interpreted. */
  type Interpreter<!F> = (nat, Bytes) -> Result<F, DecodeError>

  /** An interpreter judges a whole value, so it never asks for more. */
  ghost predicate Decisive<F>(parse: Interpreter<F>) {
    forall kind, value :: parse(kind, value) != Err(Incomplete)
  }

  /** The first capsule of `buf` and its size. */
  function TryDecodeOne<F>(parse: Interpreter<F>, buf: Bytes, max: nat)
    : (r: Result<(F, nat), DecodeError>)
    ensures r.Ok? ==> 0 < r.value.1 <= |buf|
  {
    var header := HeaderOf(buf);
    if header.None? then Err(Incomplete) else
    var Header(kind, length, size) := header.value;
    if length > max then Err(TooLarge(length, max))
    else if |buf| < size + length then Err(Incomplete)
    else
      var frame := parse(kind, buf[size..size + length]);
      if frame.Ok? then Ok((frame.value, size + length)) else Err(frame.error)
  }

  /**
    Behind a written header: a length over the limit is refused at once, with that length; a value
    still to come is waited for; and a whole one is interpreted by its type.
   */
  lemma WrittenDecides<F>(parse: Interpreter<F>, kind: nat, length: nat, tail: Bytes, max: nat)
    requires kind <= Varint.MAX_VALUE && length <= Varint.MAX_VALUE
    ensures var header := Varint.Encoding(kind) + Varint.Encoding(length);
            var r := TryDecodeOne(parse, header + tail, max);
            && (length > max ==> r == Err(TooLarge(length, max)))
            && (|tail| < length <= max ==> r == Err(Incomplete))
            && (length <= max && length <= |tail| ==>
                  match parse(kind, tail[..length])
                  case Ok(frame) => r == Ok((frame, |header| + length))
                  case Err(e) => r == Err(e))
  {
    var header := Varint.Encoding(kind) + Varint.Encoding(length);
    HeaderWritten(kind, length, tail);
    if length <= |tail| {
      assert (header + tail)[|header|..|header| + length] == tail[..length];
    }
  }

  ghost function DecodeStep<F(!new)>(parse: Interpreter<F>, max: nat): Bytes -> Step<F, DecodeError> {
    (buf: Bytes) =>
      match TryDecodeOne(parse, buf, max)
      case Ok((frame, n)) => Advance([frame], n)
      case Err(Incomplete) => Stuck
      case Err(e) => Broken([], e)
  }

  lemma TryDecodeStable<F>(parse: Interpreter<F>, buf: Bytes, tail: Bytes, max: nat)
    requires TryDecodeOne(parse, buf, max) != Err(Incomplete)
    ensures TryDecodeOne(parse, buf + tail, max) == TryDecodeOne(parse, buf, max)
  {
    HeaderStable(buf, tail);
    var Header(_, length, size) := HeaderOf(buf).value;
    if |buf| >= size + length {
      assert (buf + tail)[size..size + length] == buf[size..size + length];
    }
  }

  lemma DecodeIncremental<F(!new)>(parse: Interpreter<F>, max: nat)
    ensures Incremental(DecodeStep(parse, max))
  {
    var step := DecodeStep(parse, max);
    forall a: Bytes, b: Bytes | !step(a).Stuck?
      ensures step(a + b) == step(a)
    {
      TryDecodeStable(parse, a, b, max);
    }
  }

  /** A capsule is decoded from its own bytes, and an error comes without a frame. */
  lemma DecodeSelfContained<F(!new)>(parse: Interpreter<F>, max: nat)
    ensures SelfContained(DecodeStep(parse, max)) && QuietErrors(DecodeStep(parse, max))
  {
    var step := DecodeStep(parse, max);
    forall buf: Bytes | step(buf).Advance? && step(buf).size <= |buf|
      ensures !step(buf[..step(buf).size]).Stuck?
    {
      DecodesAlone(parse, buf, max);
    }
  }

  lemma DecodesAlone<F>(parse: Interpreter<F>, buf: Bytes, max: nat)
    requires TryDecodeOne(parse, buf, max).Ok?
    ensures TryDecodeOne(parse, buf[..TryDecodeOne(parse, buf, max).value.1], max) == TryDecodeOne(parse, buf, max)
  {
    var n := TryDecodeOne(parse, buf, max).value.1;
    var Header(_, length, size) := HeaderOf(buf).value;
    HeaderKept(buf, n);
    assert buf[..n][size..size + length] == buf[size..size + length];
  }

  /** Everything decodable from `buf`: the frames, the bytes they took, and why it stopped. */
  ghost function Decoded<F(!new)>(parse: Interpreter<F>, buf: Bytes, max: nat)
    : (o: Outcome<F, DecodeError>)
    ensures o.used <= |buf|
  {
    DecodeIncremental(parse, max);
    Scan(DecodeStep(parse, max), buf)
  }

  lemma DecodedUnfold<F(!new)>(parse: Interpreter<F>, buf: Bytes, max: nat)
    ensures Decoded(parse, buf, max) ==
            match TryDecodeOne(parse, buf, max)
            case Ok((frame, n)) => After([frame], n, Decoded(parse, buf[n..], max))
            case Err(Incomplete) => Outcome([], 0, None)
            case Err(e) => Outcome([], 0, Some(e))
  {
    DecodeIncremental(parse, max);
  }

  /** An unfinished capsule within the limit is smaller than its largest header and value. */
  lemma PendingBound<F>(parse: Interpreter<F>, buf: Bytes, max: nat)
    requires Decisive(parse) && TryDecodeOne(parse, buf, max) == Err(Incomplete)
    ensures |buf| < max + 16
  {
  }
}
