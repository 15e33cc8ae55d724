/** QUIC variable-length integers (section 16 of RFC 9000). */
module Varint {
  import opened Base
  import opened BigEndian

  const MAX_VALUE: nat := 0x3FFF_FFFF_FFFF_FFFF

  datatype Error = BufferTooShort | Overflow

  /** How many octets a first octet announces. */
  function Width(first: Byte): (n: nat) {
    match first / 64
    case 0 => 1
    case 1 => 2
    case 2 => 4
    case _ => 8
  }

  /** The value and the number of octets consumed; anything after them is ignored. */
  function Decode(buf: Bytes): (r: Result<(nat, nat), Error>)
    ensures r.Ok? ==> r.value.0 <= MAX_VALUE && 1 <= r.value.1 <= 8 && r.value.1 <= |buf|
    ensures r.Err? ==> r.error == BufferTooShort && |buf| < 8
    ensures r.Ok? <==> buf != [] && Width(buf[0]) <= |buf|
  {
    if buf == [] then Err(BufferTooShort) else
    var first := buf[0];
    var length := Width(first);
    if |buf| < length then Err(BufferTooShort) else
    DecodeBound(first, buf[1..length]);
    Ok((FromBe([first % 64] + buf[1..length]), length))
  }

  lemma DecodeBound(first: Byte, rest: Bytes)
    requires |rest| == Width(first) - 1
    ensures FromBe([first % 64] + rest) < 64 * Pow256(|rest|)
    ensures FromBe([first % 64] + rest) <= MAX_VALUE
  {
    FromBeHead(first % 64, rest);
    SmallPowers();
    assert (first % 64) * Pow256(|rest|) <= 63 * Pow256(|rest|);
  }

  function EncodedLen(value: nat): (r: Result<nat, Error>) {
    if value <= 63 then Ok(1)
    else if value <= 16_383 then Ok(2)
    else if value <= 1_073_741_823 then Ok(4)
    else if value <= MAX_VALUE then Ok(8)
    else Err(Overflow)
  }

  /** The two-bit length tag of an encoding of `n` octets. */
  function Tag(n: nat): (t: nat) {
    if n == 1 then 0 else if n == 2 then 1 else if n == 4 then 2 else 3
  }

  /** The octets of `value`: big-endian, with the length tag in the top two bits. */
  function Encoding(value: nat): (s: Bytes)
    requires value <= MAX_VALUE
    ensures |s| == EncodedLen(value).value && 1 <= |s| <= 8
  {
    var n := EncodedLen(value).value;
    var bytes := ToBe(value, n);
    TopBitsClear(value);
    bytes[0 := bytes[0] + 64 * Tag(n)]
  }

  /** The shortest length leaves the top two bits of the leading octet free. */
  lemma TopBitsClear(value: nat)
    requires value <= MAX_VALUE
    ensures var n := EncodedLen(value).value;
            ToBe(value, n)[0] < 64 && FromBe(ToBe(value, n)) == value
  {
    var n := EncodedLen(value).value;
    var bytes := ToBe(value, n);
    SmallPowers();
    assert value < 64 * Pow256(n - 1);
    assert Pow256(n) == 256 * Pow256(n - 1);
    FromTo(value, n);
    assert bytes == [bytes[0]] + bytes[1..];
    FromBeHead(bytes[0], bytes[1..]);
    CancelFactor(bytes[0], 64, Pow256(n - 1));
  }

  /** Decoding inverts encoding, whatever follows. */
  lemma RoundTrip(value: nat, tail: Bytes)
    requires value <= MAX_VALUE
    ensures Decode(Encoding(value) + tail) == Ok((value, |Encoding(value)|))
  {
    TopBitsClear(value);
    var n := EncodedLen(value).value;
    var bytes := ToBe(value, n);
    var wire := Encoding(value) + tail;
    assert Width(wire[0]) == n;
    assert wire[0] % 64 == bytes[0];
    assert [bytes[0]] + wire[1..n] == bytes;
  }

  /** No encoding of a value is shorter than `EncodedLen`, and that one is unique. */
  lemma Shortest(s: Bytes, value: nat, n: nat)
    requires Decode(s) == Ok((value, n))
    ensures EncodedLen(value).Ok? && EncodedLen(value).value <= n
    ensures EncodedLen(value).value == n ==> s[..n] == Encoding(value)
  {
    DecodeBound(s[0], s[1..n]);
    SmallPowers();
    if EncodedLen(value).value == n {
      TopBitsClear(value);
      var bytes := ToBe(value, n);
      assert s[..n] == [s[0]] + s[1..n];
      FromBeInjective([s[0] % 64] + s[1..n], bytes);
      assert Encoding(value)[1..] == bytes[1..] == s[1..n];
      assert Encoding(value)[0] == s[0];
    }
  }

  /** Table 4 of RFC 9000, for one, two, four and eight octets. */
  lemma OneOctet(a: Byte)
    requires a < 0x40
    ensures Decode([a]) == Ok((a, 1))
  {
    FromBeLast([], a);
    assert [a] + [a][1..1] == [] + [a];
  }

  lemma TwoOctets(a: Byte, b: Byte)
    requires 0x40 <= a < 0x80
    ensures Decode([a, b]) == Ok(((a - 0x40) * 256 + b, 2))
  {
    FromBe2(a - 0x40, b);
    assert [a - 0x40] + [a, b][1..2] == [a - 0x40, b];
  }

  lemma FourOctets(a: Byte, b: Byte, c: Byte, d: Byte)
    requires 0x80 <= a < 0xC0
    ensures Decode([a, b, c, d]) == Ok(((((a - 0x80) * 256 + b) * 256 + c) * 256 + d, 4))
  {
    FromBe4(a - 0x80, b, c, d);
    assert [a - 0x80] + [a, b, c, d][1..4] == [a - 0x80, b, c, d];
  }

  lemma EightOctets(a: Byte, b: Byte, c: Byte, d: Byte, low: Bytes)
    requires 0xC0 <= a && |low| == 4
    ensures Decode([a, b, c, d] + low) ==
            Ok(((((((((a - 0xC0) * 256 + b) * 256 + c) * 256 + d) * 256 + low[0]) * 256 + low[1]) * 256
                + low[2]) * 256 + low[3], 8))
  {
    var buf := [a, b, c, d] + low;
    FromBe4(a - 0xC0, b, c, d);
    FromBeConcat4([a - 0xC0, b, c, d], low[0], low[1], low[2], low[3]);
    assert [a - 0xC0] + buf[1..8] == [a - 0xC0, b, c, d] + [low[0], low[1], low[2], low[3]];
  }

  /** Octets arriving later never change what has been decoded. */
  lemma DecodeStable(s: Bytes, tail: Bytes)
    requires Decode(s).Ok?
    ensures Decode(s + tail) == Decode(s)
  {
    var n := Width(s[0]);
    assert (s + tail)[1..n] == s[1..n];
  }

  /** Octets behind a varint do not matter to it. */
  lemma DecodeKept(s: Bytes, n: nat)
    requires Decode(s).Ok? && Decode(s).value.1 <= n <= |s|
    ensures Decode(s[..n]) == Decode(s)
  {
    var k := Width(s[0]);
    assert s[..n][1..k] == s[1..k];
  }

  /** Write `value` at the front of `buf`. */
  method Encode(value: nat, buf: array<Byte>) returns (r: Result<nat, Error>)
    modifies buf
    ensures value > MAX_VALUE ==> r == Err(Overflow)
    ensures value <= MAX_VALUE && buf.Length < |Encoding(value)| ==> r == Err(BufferTooShort)
    ensures r.Err? ==> buf[..] == old(buf[..])
    ensures value <= MAX_VALUE && buf.Length >= |Encoding(value)| ==>
              && r == Ok(|Encoding(value)|)
              && buf[..] == Encoding(value) + old(buf[..])[|Encoding(value)|..]
  {
    var length := EncodedLen(value);
    if length.Err? {
      return Err(length.error);
    }
    var len := length.value;
    if buf.Length < len {
      return Err(BufferTooShort);
    }
    TopBitsClear(value);
    var bytes := ToBe(value, len);
    buf[0] := bytes[0] + 64 * Tag(len);
    forall i | 1 <= i < len {
      buf[i] := bytes[i];
    }
    return Ok(len);
  }

  /** Append `value` to `vec`. */
  method EncodeToVec(value: nat, vec: Bytes) returns (r: Result<nat, Error>, out: Bytes)
    ensures value > MAX_VALUE ==> r == Err(Overflow) && out == vec
    ensures value <= MAX_VALUE ==> r == Ok(|Encoding(value)|) && out == vec + Encoding(value)
  {
    var scratch := new Byte[8](_ => 0);
    r := Encode(value, scratch);
    out := if r.Ok? then vec + scratch[..r.value] else vec;
  }
}
