/** Cutting a buffer every `size` bytes, and when that gives back the parts it was built from. */
module Segments {
  import opened Base
  import opened StreamScan

  /** Slices of `size` bytes, the last possibly shorter; none of them empty. */
  function Chunks(data: Bytes, size: nat): (chunks: seq<Bytes>)
    requires size > 0
    ensures forall c :: c in chunks ==> 0 < |c| <= size
    decreases |data|
  {
    if data == [] then []
    else if |data| <= size then [data]
    else [data[..size]] + Chunks(data[size..], size)
  }

  /** Parts that fill `size` bytes each, except that the last may be shorter. */
  ghost predicate Uniform(parts: seq<Bytes>, size: nat) {
    && (forall i :: 0 <= i < |parts| - 1 ==> |parts[i]| == size)
    && (parts != [] ==> 0 < |parts[|parts| - 1]| <= size)
  }

  lemma ChunksFirst(part: Bytes, rest: Bytes)
    requires |part| > 0 && rest != []
    ensures Chunks(part + rest, |part|) == [part] + Chunks(rest, |part|)
  {
    assert (part + rest)[..|part|] == part;
    assert (part + rest)[|part|..] == rest;
  }

  /** Cutting undoes concatenation. */
  lemma {:induction false} ChunksInverse(parts: seq<Bytes>, size: nat)
    requires size > 0 && Uniform(parts, size)
    ensures Chunks(Concat(parts), size) == parts
  {
    if |parts| == 1 {
      ConcatOne(parts[0]);
      assert parts == [parts[0]];
    } else if |parts| > 1 {
      ChunksInverse(parts[1..], size);
      assert Concat(parts[1..]) != [];
      ChunksFirst(parts[0], Concat(parts[1..]));
    }
  }

  /** `n` is a whole number of times `size`. */
  predicate IsMultiple(n: nat, size: nat)
    requires size > 0
    decreases n
  {
    n == 0 || (n >= size && IsMultiple(n - size, size))
  }

  lemma {:induction false} MultipleMeansNoRemainder(n: nat, size: nat)
    requires size > 0
    ensures IsMultiple(n, size) <==> n % size == 0
    decreases n
  {
    if n >= size {
      MultipleMeansNoRemainder(n - size, size);
      OneQuotient((n - size) / size, n / size - 1, (n - size) % size, n % size, size);
    }
  }

  lemma OneQuotient(q: int, k: int, m: nat, r: nat, size: nat)
    requires m < size && r < size && size * q + m == size * k + r
    ensures q == k && m == r
  {
    if q != k {
      var gap := if q > k then q - k else k - q;
      assert size * gap == if q > k then r - m else m - r;
      AtLeastOnce(size, gap);
    }
  }

  /** A whole number of parts stays one exactly if a whole part or nothing is added. */
  lemma {:induction false} WholeParts(a: nat, b: nat, size: nat)
    requires size > 0 && IsMultiple(a, size) && b <= size
    ensures IsMultiple(a + b, size) <==> b == 0 || b == size
    decreases a
  {
    if a > 0 {
      WholeParts(a - size, b, size);
    }
  }

  lemma {:induction false} MultipleOf(n: nat, size: nat)
    requires size > 0
    ensures IsMultiple(size * n, size)
  {
    if n > 0 {
      MultipleOf(n - 1, size);
      assert size * n == size * (n - 1) + size;
    }
  }
}
