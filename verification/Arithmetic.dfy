/** Facts about integers and sequences that several parts share. */
module Arithmetic {

  function Min(a: int, b: int): int {
    if a <= b then a else b
  }

  function Max(a: int, b: int): int {
    if a <= b then b else a
  }

  lemma Associative<T>(a: seq<T>, b: seq<T>, c: seq<T>)
    ensures a + b + c == a + (b + c)
  {
  }

  lemma MulBounds(k: int, size: nat)
    ensures k >= 1 ==> k * size >= size
    ensures k <= -1 ==> k * size <= 0 - size
  {
    if k >= 1 {
      assert (k - 1) * size >= 0;
    } else if k <= -1 {
      assert (-1 - k) * size >= 0;
    }
  }

  lemma UniqueRemainder(n: int, size: nat, q: int, r: int)
    requires 1 <= size && 0 <= r < size && n == q * size + r
    ensures n % size == r && n / size == q
  {
    var q', r' := n / size, n % size;
    assert (q - q') * size == r' - r;
    MulBounds(q - q', size);
  }

  lemma ModMultiple(k: int, size: nat, r: int)
    requires 1 <= size
    ensures (k * size + r) % size == r % size
  {
    var q := r / size;
    assert k * size + r == (k + q) * size + r % size;
    UniqueRemainder(k * size + r, size, k + q, r % size);
  }
}
