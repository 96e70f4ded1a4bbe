/** Products, quotients and powers of two. The operators have names here, so that the proofs about
    limbs can use them through their laws alone. */
module Bits {
  import opened Common

  function Mul(x: int, y: int): int { x * y }

  function Div(x: int, d: int): int
    requires d > 0
  {
    x / d
  }

  function Mod(x: int, d: int): int
    requires d > 0
  {
    x % d
  }

  lemma MulComm(x: int, y: int)
    ensures Mul(x, y) == Mul(y, x)
  {
  }

  lemma MulAssoc(x: int, y: int, z: int)
    ensures Mul(Mul(x, y), z) == Mul(x, Mul(y, z))
  {
  }

  /** (x * y) * z == (x * z) * y */
  lemma MulSwap(x: int, y: int, z: int)
    ensures Mul(Mul(x, y), z) == Mul(Mul(x, z), y)
  {
  }

  lemma MulAdd(x: int, y: int, z: int)
    ensures Mul(x + y, z) == Mul(x, z) + Mul(y, z)
    ensures Mul(z, x + y) == Mul(z, x) + Mul(z, y)
  {
  }

  lemma MulSub(x: int, y: int, z: int)
    ensures Mul(x - y, z) == Mul(x, z) - Mul(y, z)
  {
  }

  lemma MulWord(x: int, y: int)
    ensures Mul(x, U32 * y) == U32 * Mul(x, y) == Mul(U32 * x, y)
  {
  }

  lemma MulSmall(x: int)
    ensures Mul(0, x) == Mul(x, 0) == 0 && Mul(1, x) == Mul(x, 1) == x && Mul(2, x) == Mul(x, 2) == 2 * x
  {
  }

  lemma MulLess(x: int, y: int, z: int)
    requires x < y && z >= 0
    ensures Mul(x, z) + z <= Mul(y, z)
  {
    hide Mul;
    MulSub(y, x, z);
    MulSub(y - x, 1, z);
    MulSmall(z);
    MulSign(y - x - 1, z);
  }

  lemma MulSign(x: int, y: int)
    requires x >= 0 && y >= 0
    ensures Mul(x, y) >= 0
  {
  }

  lemma DivMod(x: int, d: int)
    requires d > 0
    ensures x == Mul(Div(x, d), d) + Mod(x, d) && 0 <= Mod(x, d) < d
    ensures x >= 0 ==> Div(x, d) >= 0
  {
  }

  /** Quotient and remainder are determined. */
  lemma Divided(x: int, d: int, q: int, r: int)
    requires 0 <= r < d && x == Mul(q, d) + r
    ensures Div(x, d) == q && Mod(x, d) == r
  {
    hide Mul, Div, Mod;
    DivMod(x, d);
    MulSub(q, Div(x, d), d);
    SmallMultiple(q - Div(x, d), d);
  }

  lemma SmallMultiple(k: int, d: int)
    requires -d < Mul(k, d) < d
    ensures k == 0
  {
    assert k >= 1 ==> k * d >= d;
    assert -k >= 1 ==> (-k) * d >= d;
  }

  /** Dividing by a product is dividing twice. */
  lemma DividedTwice(x: nat, a: nat, b: nat)
    requires a > 0 && b > 0
    ensures Mul(a, b) > 0 && Div(x, Mul(a, b)) == Div(Div(x, a), b)
  {
    hide Mul, Div, Mod;
    var y := Div(x, a);
    DivMod(x, a);
    DivMod(y, b);
    var q, r := Div(y, b), Mod(y, b);
    MulAdd(Mul(q, b), r, a);
    MulAssoc(q, b, a);
    MulComm(a, b);
    MulLess(r, b, a);
    MulSign(r, a);
    Divided(x, Mul(a, b), q, Mul(r, a) + Mod(x, a));
  }

  lemma DivMono(x: int, y: int, d: int)
    requires d > 0 && x <= y
    ensures Div(x, d) <= Div(y, d)
  {
    hide Mul, Div, Mod;
    DivMod(x, d);
    DivMod(y, d);
    if Div(y, d) < Div(x, d) {
      MulLess(Div(y, d), Div(x, d), d);
    }
  }

  // ---------- Powers of two ----------

  function Pow2(e: nat): (r: nat)
    ensures r > 0
  {
    if e == 0 then 1 else 2 * Pow2(e - 1)
  }

  lemma {:induction false} Pow2Add(a: nat, b: nat)
    ensures Pow2(a + b) == Mul(Pow2(a), Pow2(b))
    decreases b
  {
    if b > 0 {
      Pow2Add(a, b - 1);
    }
  }

  lemma {:induction false} Pow2Less(a: nat, b: nat)
    requires a < b
    ensures 2 * Pow2(a) <= Pow2(b)
    decreases b
  {
    if a + 1 < b {
      Pow2Less(a, b - 1);
    }
  }

  lemma Pow2Values()
    ensures Pow2(0) == 1 && Pow2(1) == 2 && Pow2(8) == 0x100 && Pow2(16) == 0x1_0000 && Pow2(24) == 0x100_0000
    ensures Pow2(7) == 0x80 && Pow2(15) == 0x8000 && Pow2(23) == 0x80_0000 && Pow2(32) == U32 && Pow2(64) == U32 * U32
  {
    assert Pow2(4) == 16;
    Pow2Add(4, 4);
    assert Pow2(7) == 0x80;
    Pow2Add(8, 8);
    Pow2Add(7, 8);
    Pow2Add(7, 16);
    Pow2Add(8, 16);
    Pow2Add(16, 16);
    Pow2Add(32, 32);
  }

  // ---------- Bitwise or ----------

  function Or(a: nat, b: nat): nat {
    if a == 0 then b else if b == 0 then a
    else 2 * Or(a / 2, b / 2) + (if a % 2 + b % 2 > 0 then 1 else 0)
  }

  /** Numbers without a common bit: or is a sum. */
  lemma {:induction false} OrAdds(a: nat, b: nat, e: nat)
    requires b < Pow2(e) && Mod(a, Pow2(e)) == 0
    ensures Or(a, b) == a + b == Or(b, a)
    decreases e
  {
    hide Mul, Div, Mod;
    if e > 0 && a > 0 && b > 0 {
      HalfMultiple(a, Pow2(e - 1));
      OrAdds(a / 2, b / 2, e - 1);
    }
  }

  lemma HalfMultiple(a: nat, p: nat)
    requires p > 0 && Mod(a, 2 * p) == 0
    ensures a % 2 == 0 && Mod(a / 2, p) == 0
  {
    hide Mul, Div, Mod;
    var q := Div(a, 2 * p);
    DivMod(a, 2 * p);
    MulAdd(p, p, q);
    Divided(a / 2, p, q, 0);
  }
}
