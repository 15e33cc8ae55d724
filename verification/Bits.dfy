/** Powers of two and bitwise operations on unbounded naturals. */
module Bits {
  import opened Base

  function Pow2(n: nat): (p: nat)
    ensures p > 0
  {
    if n == 0 then 1 else 2 * Pow2(n - 1)
  }

  function BitOr(a: nat, b: nat): (c: nat)
    decreases a + b
  {
    if a == 0 then b
    else if b == 0 then a
    else (if a % 2 == 1 || b % 2 == 1 then 1 else 0) + 2 * BitOr(a / 2, b / 2)
  }

  function BitAnd(a: nat, b: nat): (c: nat) {
    if a == 0 || b == 0 then 0
    else (if a % 2 == 1 && b % 2 == 1 then 1 else 0) + 2 * BitAnd(a / 2, b / 2)
  }

  lemma ModTwice(v: nat, m: nat)
    requires m > 0
    ensures v % (2 * m) == v % 2 + 2 * ((v / 2) % m)
  {
    var q, r := (v / 2) / m, (v / 2) % m;
    assert v == (2 * m) * q + (2 * r + v % 2) by {
      assert v / 2 == m * q + r;
    }
    ModUnique(v, 2 * m, q, 2 * r + v % 2);
  }

  lemma ModUnique(v: nat, m: nat, q: nat, r: nat)
    requires r < m && v == m * q + r
    ensures v % m == r
  {
    var d := v / m - q;
    assert m * d == r - v % m;
    Multiples(m, d);
  }

  /** Only the zeroth multiple is smaller than one step. */
  lemma Multiples(m: int, d: int)
    requires m >= 0
    ensures d > 0 ==> m * d >= m
    ensures d < 0 ==> m * d <= -m
  {
    if d > 0 {
      AtLeastOnce(m, d);
    } else if d < 0 {
      AtLeastOnce(m, -d);
      assert m * d == -(m * -d);
    }
  }

  /** A mask of `h` ones keeps the remainder by 2^h. */
  lemma {:induction false} LowMask(v: nat, h: nat)
    ensures BitAnd(v, Pow2(h) - 1) == v % Pow2(h)
    decreases h
  {
    if h > 0 {
      var m := Pow2(h - 1);
      ModTwice(v, m);
      LowMask(v / 2, h - 1);
      assert (Pow2(h) - 1) / 2 == m - 1 && (Pow2(h) - 1) % 2 == 1;
    }
  }

  lemma WordSizes()
    ensures Pow2(32) == 0x1_0000_0000
    ensures Pow2(128) == 0x1_0000_0000_0000_0000_0000_0000_0000_0000
  {
    assert Pow2(8) == 0x100 by { assert Pow2(4) == 16; Pow2Doubles(4, 16); }
    assert Pow2(16) == 0x1_0000 by { Pow2Doubles(8, 0x100); }
    assert Pow2(32) == 0x1_0000_0000 by { Pow2Doubles(16, 0x1_0000); }
    assert Pow2(64) == 0x1_0000_0000_0000_0000 by { Pow2Doubles(32, 0x1_0000_0000); }
    assert Pow2(128) == 0x1_0000_0000_0000_0000_0000_0000_0000_0000 by {
      Pow2Doubles(64, 0x1_0000_0000_0000_0000);
    }
  }

  lemma Pow2Doubles(a: nat, p: nat)
    requires Pow2(a) == p
    ensures Pow2(2 * a) == p * p
  {
    Pow2Adds(a, a);
  }

  lemma {:induction false} Pow2Adds(a: nat, b: nat)
    ensures Pow2(a + b) == Pow2(a) * Pow2(b)
    decreases a
  {
    if a > 0 {
      Pow2Adds(a - 1, b);
      assert Pow2(a + b) == 2 * Pow2(a + b - 1);
      assert 2 * (Pow2(a - 1) * Pow2(b)) == (2 * Pow2(a - 1)) * Pow2(b);
    }
  }
}
