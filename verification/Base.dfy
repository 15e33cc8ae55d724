/** Vocabulary shared by every component: octets, optional values, results, and facts about collections. */
module Base {
  type Byte = b: int | 0 <= b < 256
  type Bytes = seq<Byte>

  datatype Option<+T> = None | Some(value: T)

  datatype Result<+T, +E> = Ok(value: T) | Err(error: E)

  ghost predicate Distinct<T>(s: seq<T>) {
    forall i, j :: 0 <= i < j < |s| ==> s[i] != s[j]
  }

  lemma SubsetSize<T>(a: set<T>, b: set<T>)
    requires a <= b
    ensures |a| <= |b|
  {
    assert b == a + (b - a);
  }

  lemma CancelFactor(a: nat, b: nat, p: nat)
    requires a * p < b * p
    ensures a < b
  {
  }

  lemma AtLeastOnce(size: nat, n: int)
    requires n >= 1
    ensures size * n >= size
  {
    assert size * n == size + size * (n - 1);
  }
}
