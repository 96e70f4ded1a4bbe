/** Machine words. */
module Words {
  import opened Common

  /** The high word of a product: the multiply-shift range reduction of src/bloom.cpp:263-265. */
  function HighWord(x: nat, n: nat): (r: nat)
    requires x < U32 && n > 0
    ensures r < n && r * U32 <= x * n < (r + 1) * U32
  {
    HighWordBound(x, n);
    x * n / U32
  }

  lemma HighWordBound(x: nat, n: nat)
    requires x < U32 && n > 0
    ensures x * n / U32 < n
  {
    var p := x * n;
    assert p < U32 * n by { Below(x, U32, n); }
  }

  lemma Below(x: nat, y: nat, n: nat)
    requires x < y && n > 0
    ensures x * n < y * n
  {
    assert (y - x) * n >= 1;
  }
}
