/** Fixed-width integers as big-endian octets. */
module BigEndian {
  import opened Base

  function Pow256(n: nat): (p: nat)
    ensures p > 0
  {
    if n == 0 then 1 else 256 * Pow256(n - 1)
  }

  function FromBe(s: Bytes): (v: nat)
    ensures v < Pow256(|s|)
  {
    if s == [] then 0 else FromBe(s[..|s| - 1]) * 256 + s[|s| - 1]
  }

  function ToBe(v: nat, n: nat): (s: Bytes)
    ensures |s| == n
  {
    if n == 0 then [] else ToBe(v / 256, n - 1) + [v % 256]
  }

  lemma {:induction false} FromTo(v: nat, n: nat)
    requires v < Pow256(n)
    ensures FromBe(ToBe(v, n)) == v
  {
    if n > 0 {
      FromTo(v / 256, n - 1);
      assert ToBe(v, n)[..n - 1] == ToBe(v / 256, n - 1);
    }
  }

  lemma {:induction false} ToFrom(s: Bytes)
    ensures ToBe(FromBe(s), |s|) == s
  {
    if s != [] {
      ToFrom(s[..|s| - 1]);
      assert FromBe(s) / 256 == FromBe(s[..|s| - 1]);
      assert s == s[..|s| - 1] + [s[|s| - 1]];
    }
  }

  lemma FromBeLast(s: Bytes, b: Byte)
    ensures FromBe(s + [b]) == FromBe(s) * 256 + b
  {
    assert (s + [b])[..|s|] == s;
  }

  lemma FromBe2(a: Byte, b: Byte)
    ensures FromBe([a, b]) == a * 256 + b
  {
    FromBeLast([], a);
    FromBeLast([a], b);
    assert [] + [a] == [a] && [a] + [b] == [a, b];
  }

  lemma FromBe4(a: Byte, b: Byte, c: Byte, d: Byte)
    ensures FromBe([a, b, c, d]) == ((a * 256 + b) * 256 + c) * 256 + d
  {
    FromBe2(a, b);
    FromBeLast([a, b], c);
    FromBeLast([a, b, c], d);
    assert [a, b] + [c] == [a, b, c] && [a, b, c] + [d] == [a, b, c, d];
  }

  lemma FromBeConcat4(s: Bytes, a: Byte, b: Byte, c: Byte, d: Byte)
    ensures FromBe(s + [a, b, c, d]) == (((FromBe(s) * 256 + a) * 256 + b) * 256 + c) * 256 + d
  {
    FromBeLast(s, a);
    FromBeLast(s + [a], b);
    FromBeLast(s + [a] + [b], c);
    FromBeLast(s + [a] + [b] + [c], d);
    assert s + [a] + [b] + [c] + [d] == s + [a, b, c, d];
  }

  /** The leading octet carries the most weight. */
  lemma {:induction false} FromBeHead(b: Byte, s: Bytes)
    ensures FromBe([b] + s) == b * Pow256(|s|) + FromBe(s)
  {
    if s == [] {
      assert [b] + s == [b] && [b][..0] == [];
    } else {
      var n := |s| - 1;
      FromBeHead(b, s[..n]);
      assert ([b] + s)[..|s|] == [b] + s[..n];
      calc {
        FromBe([b] + s);
        (b * Pow256(n) + FromBe(s[..n])) * 256 + s[n];
        b * Pow256(n) * 256 + FromBe(s);
        b * (256 * Pow256(n)) + FromBe(s);
      }
    }
  }

  lemma FromBeInjective(s: Bytes, t: Bytes)
    requires |s| == |t| && FromBe(s) == FromBe(t)
    ensures s == t
  {
    ToFrom(s);
    ToFrom(t);
  }

  lemma SmallPowers()
    ensures Pow256(0) == 1 && Pow256(1) == 0x100 && Pow256(3) == 0x100_0000
    ensures Pow256(7) == 0x100_0000_0000_0000
    ensures Pow256(4) == 0x1_0000_0000
    ensures Pow256(16) == 0x1_0000_0000_0000_0000_0000_0000_0000_0000
  {
    assert Pow256(2) == 0x1_0000;
    assert Pow256(5) == 256 * Pow256(4);
    assert Pow256(6) == 256 * Pow256(5);
    assert Pow256(8) == 256 * Pow256(7);
    assert Pow256(9) == 256 * Pow256(8);
    assert Pow256(10) == 256 * Pow256(9);
    assert Pow256(11) == 256 * Pow256(10);
    assert Pow256(12) == 256 * Pow256(11);
    assert Pow256(13) == 256 * Pow256(12);
    assert Pow256(14) == 256 * Pow256(13);
    assert Pow256(15) == 256 * Pow256(14);
  }
}
