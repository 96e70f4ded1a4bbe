/** Amount compression (src/compressor.cpp:153-197). */
module Amount {
  import opened Common

  /** The largest amount up to which no amount's code passes 64 bits. */
  const LIMIT: nat := 2049638230412172402

  /** The largest amount (src/amount.h:34). */
  const MAX_MONEY: nat := 2100000000000000000

  /** Zeros taken off the end, counted from e, nine at most. */
  function Strip(n: nat, e: nat): (nat, nat)
    requires n > 0
  {
    if n % 10 == 0 && e < 9 then Strip(n / 10, e + 1) else (n, e)
  }

  function Scale(m: nat, e: nat): nat {
    if e == 0 then m else 10 * Scale(m, e - 1)
  }

  /** The code of an amount, as an unbounded number. */
  function Code(n: nat): nat {
    if n == 0 then 0
    else
      StripIs(n, 0);
      var (m, e) := Strip(n, 0);
      if e < 9 then 10 * (m / 10 * 9 + m % 10) - 9 + e else 10 * m
  }

  /** The amount of a code, as an unbounded number. */
  function Value(x: nat): nat {
    if x == 0 then 0
    else
      var e, z := (x - 1) % 10, (x - 1) / 10;
      Scale(if e < 9 then z / 9 * 10 + z % 9 + 1 else z + 1, e)
  }

  lemma {:induction false} StripIs(n: nat, e: nat)
    requires n > 0 && e <= 9
    ensures var (m, f) := Strip(n, e);
            e <= f <= 9 && m > 0 && n == Scale(m, f - e) && (m % 10 != 0 || f == 9)
    decreases n
  {
    if n % 10 == 0 && e < 9 {
      StripIs(n / 10, e + 1);
    }
  }

  lemma {:induction false} StripInverts(m: nat, k: nat, e: nat)
    requires m > 0 && e + k <= 9 && (m % 10 != 0 || e + k == 9)
    ensures Scale(m, k) > 0 && Strip(Scale(m, k), e) == (m, e + k)
    decreases k
  {
    if k > 0 {
      StripInverts(m, k - 1, e + 1);
      assert Scale(m, k) / 10 == Scale(m, k - 1);
    }
  }

  /** Codes and amounts are in bijection. */
  lemma ValueOfCode(n: nat)
    ensures Value(Code(n)) == n
  {
    hide Value, Strip, Scale;
    if n == 0 {
      assert Code(n) == 0;
      ValueZero();
    } else {
      StripIs(n, 0);
      var (m, e) := Strip(n, 0);
      if e < 9 {
        ShortCode(m, e);
      } else {
        LongCode(m);
      }
    }
  }

  lemma ValueZero()
    ensures Value(0) == 0
  {
  }

  lemma ShortCode(m: nat, e: nat)
    requires m % 10 != 0 && e < 9
    ensures Value(10 * (m / 10 * 9 + m % 10) - 9 + e) == Scale(m, e)
  {
    hide Value, Scale;
    ValueOfParts(m / 10, m % 10, e);
  }

  lemma ValueOfParts(q: nat, d: nat, e: nat)
    requires 1 <= d <= 9 && e < 9
    ensures Value(10 * (9 * q + d - 1) + e + 1) == Scale(10 * q + d, e)
  {
    hide Scale;
    var z := 9 * q + d - 1;
    TenPlaces(z, e);
    NinePlaces(q, d - 1);
  }

  lemma TenPlaces(q: nat, r: nat)
    requires r < 10
    ensures (10 * q + r) / 10 == q && (10 * q + r) % 10 == r
  {
  }

  lemma NinePlaces(q: nat, r: nat)
    requires r < 9
    ensures (9 * q + r) / 9 == q && (9 * q + r) % 9 == r
  {
  }

  lemma LongCode(m: nat)
    requires m > 0
    ensures Value(10 * m) == Scale(m, 9)
  {
    hide Scale;
    assert (10 * m - 1) % 10 == 9 && (10 * m - 1) / 10 == m - 1;
  }

  lemma CodeOfValue(x: nat)
    ensures Code(Value(x)) == x
  {
    hide Strip, Scale;
    if x > 0 {
      var e, z := (x - 1) % 10, (x - 1) / 10;
      assert x == 10 * z + e + 1;
      var m := if e < 9 then z / 9 * 10 + z % 9 + 1 else z + 1;
      NinthDigit(z);
      StripInverts(m, e, 0);
    }
  }

  lemma NinthDigit(z: nat)
    ensures var m := z / 9 * 10 + z % 9 + 1; m % 10 == z % 9 + 1 && m / 10 == z / 9 && z == 9 * (z / 9) + z % 9
  {
    TenPlaces(z / 9, z % 9 + 1);
  }

  lemma {:induction false} ScaleGrows(m: nat, e: nat)
    ensures Scale(m, e) >= m && (e > 0 ==> Scale(m, e) >= 10 * m)
  {
    if e > 0 {
      ScaleGrows(m, e - 1);
    }
  }

  /** No amount up to the limit has a code of more than 64 bits. */
  lemma CodeFits(n: nat)
    requires n <= LIMIT
    ensures Code(n) < U64
  {
    if n > 0 {
      StripIs(n, 0);
      var (m, e) := Strip(n, 0);
      ScaleGrows(m, e);
      assert m == 10 * (m / 10) + m % 10;
      if e < 9 {
        assert Code(n) == 9 * m + m % 10 - 9 + e;
      }
    }
  }

  /** Nor has an amount that ends in a zero, up to the largest amount. */
  lemma TensFit(n: nat)
    requires n <= MAX_MONEY && n % 10 == 0
    ensures Code(n) < U64
  {
    if n > 0 {
      StripIs(n, 0);
      var (m, e) := Strip(n, 0);
      ScaleGrows(m, e);
      assert m == 10 * (m / 10) + m % 10;
      if e < 9 {
        assert Code(n) == 9 * m + m % 10 - 9 + e;
      }
    }
  }

  /** A code that fits in 64 bits brings its amount back. */
  lemma FittingCodeReturns(n: nat)
    requires n <= MAX_MONEY && Code(n) < U64
    ensures Signed(Value(Code(n) % U64) % U64) == n
  {
    hide Code, Value;
    ValueOfCode(n);
  }

  /** What the code of any other amount has become after the wrap: it ends in exponent 4. */
  lemma WrappedCode(n: nat)
    requires LIMIT < n <= MAX_MONEY && n % 10 != 0
    ensures Value(Code(n) % U64) == 10000 * WrappedTo(n)
  {
    hide Code, Value;
    var u, d := n - LIMIT, n % 10;
    CodeAbove(n);
    assert Code(n) % U64 == 9 * u + d - 7;
    WrappedDigits(u, d);
    ShortValue(9 * u + d - 7, WrappedTo(n));
  }

  lemma CodeAbove(n: nat)
    requires LIMIT < n <= MAX_MONEY && n % 10 != 0
    ensures Code(n) == U64 + (9 * (n - LIMIT) + n % 10 - 7)
  {
    assert Strip(n, 0) == (n, 0);
    assert n == 10 * (n / 10) + n % 10;
  }

  function WrappedTo(n: nat): nat
    requires n > LIMIT
  {
    if n % 10 >= 3 then n - LIMIT else n - LIMIT - 1
  }

  lemma WrappedDigits(u: nat, d: nat)
    requires u > 0 && 1 <= d <= 9 && d == (u + 2) % 10
    ensures var x, t := 9 * u + d - 7, if d >= 3 then u else u - 1;
            x > 0 && (x - 1) % 10 == 4 && t == (x - 1) / 10 / 9 * 10 + (x - 1) / 10 % 9 + 1
  {
    var j, last := u / 10, u % 10;
    assert u == 10 * j + last;
    if d >= 3 {
      assert last == d - 2;
      Places(j, d - 3);
    } else {
      if d == 2 {
        assert last == 0;
        Places(j - 1, 8);
      } else {
        assert last == 9;
        Places(j, 7);
      }
    }
  }

  lemma Places(j: int, r: int)
    requires 0 <= r < 9
    ensures (90 * j + 10 * r + 4) % 10 == 4 && (90 * j + 10 * r + 4) / 10 == 9 * j + r
    ensures (9 * j + r) / 9 == j && (9 * j + r) % 9 == r
  {
  }

  lemma ShortValue(x: nat, t: nat)
    requires x > 0 && (x - 1) % 10 == 4 && t == (x - 1) / 10 / 9 * 10 + (x - 1) / 10 % 9 + 1
    ensures Value(x) == 10000 * t
  {
    assert Value(x) == Scale(t, 4);
    assert Scale(t, 1) == 10 * Scale(t, 0) == 10 * t;
    assert Scale(t, 3) == 10 * Scale(t, 2) == 100 * Scale(t, 1);
  }

  /** Such a number is not the amount, whatever the second wrap takes off it: the difference of the
      two would have to be a multiple of 9999. */
  lemma NeverBack(n: nat)
    requires LIMIT < n <= MAX_MONEY
    ensures 10000 * WrappedTo(n) % U64 != n
  {
    var t := WrappedTo(n);
    var k := 10000 * t / U64;
    assert 10000 * t == k * U64 + 10000 * t % U64;
    assert 0 <= k <= 27;
    NoMultiple(n - LIMIT, k);
  }

  lemma NoMultiple(u: nat, k: nat)
    requires k <= 27
    ensures 10000 * u != LIMIT + u + k * U64 && 10000 * (u - 1) != LIMIT + u + k * U64
  {
    Residue(LIMIT, k);
    Residue(LIMIT + 10000, k);
    NotMultiple(u, LIMIT + k * U64);
    NotMultiple(u, LIMIT + 10000 + k * U64);
  }

  lemma NotMultiple(u: nat, x: nat)
    requires x % 9999 != 0
    ensures 9999 * u != x
  {
  }

  lemma Residue(c: nat, k: nat)
    requires k <= 27 && (c == LIMIT || c == LIMIT + 10000)
    ensures (c + k * U64) % 9999 != 0
  {
  }

  /** Compressing and decompressing an amount, from zero to the largest one, gives it back exactly up
      to the limit and, above it, exactly when it ends in a zero. */
  lemma RoundTrip(n: nat)
    requires n <= MAX_MONEY
    ensures Signed(Value(Code(n) % U64) % U64) == n <==> n <= LIMIT || n % 10 == 0
  {
    hide Code, Value, WrappedTo;
    if n <= LIMIT {
      CodeFits(n);
      FittingCodeReturns(n);
    } else if n % 10 == 0 {
      TensFit(n);
      FittingCodeReturns(n);
    } else {
      WrappedCode(n);
      NeverBack(n);
    }
  }

  /** Every code whose amount is a non-negative 64-bit number comes back too. */
  lemma CodeRoundTrip(x: nat)
    requires x < U64 && Value(x) < U64 / 2
    ensures Signed(Value(x) % U64) == Value(x) && Code(Value(x)) % U64 == x
  {
    hide Code, Value;
    CodeOfValue(x);
  }

  /** The amount after the limit does not come back: its code wraps to 5, which stands for 10000. */
  lemma LimitIsTight()
    ensures Code(LIMIT + 1) == U64 + 5 && Signed(Value(Code(LIMIT + 1) % U64) % U64) == 10000
  {
    assert Strip(LIMIT + 1, 0) == (LIMIT + 1, 0);
    assert Value(5) == Scale(1, 4);
    assert Scale(1, 2) == 100;
  }

  function Signed(n: nat): int
    requires n < U64
  {
    if n < U64 / 2 then n else n - U64
  }

  /** src/compressor.cpp:153-171. Arithmetic is modulo 2^64; the assertion on the last digit holds. */
  method CompressAmount(amount: nat) returns (r: nat)
    requires amount < U64
    ensures r == Code(amount) % U64
  {
    var n := amount;
    if n == 0 {
      return 0;
    }
    StripIs(amount, 0);
    var e := 0;
    while n % 10 == 0 && e < 9
      invariant n > 0 && 0 <= e <= 9 && Strip(amount, 0) == Strip(n, e)
      decreases n
    {
      n := n / 10;
      e := e + 1;
    }
    if e < 9 {
      var d := n % 10;
      assert 1 <= d <= 9;
      n := n / 10;
      return (1 + (n * 9 + d - 1) * 10 + e) % U64;
    } else {
      return (1 + (n - 1) * 10 + 9) % U64;
    }
  }

  /** src/compressor.cpp:173-197. The result is read as a signed number. */
  method DecompressAmount(code: nat) returns (r: int)
    requires code < U64
    ensures r == Signed(Value(code) % U64)
  {
    if code == 0 {
      return 0;
    }
    var x := code - 1;
    var e := x % 10;
    x := x / 10;
    var n := 0;
    if e < 9 {
      var d := x % 9 + 1;
      x := x / 9;
      n := x * 10 + d;
    } else {
      n := x + 1;
    }
    assert Value(code) == Scale(n, e);
    while e > 0
      invariant 0 <= e <= 9 && 0 <= n < U64 && Scale(n, e) % U64 == Value(code) % U64
      decreases e
    {
      ScaleShift(n, e);
      n := n * 10 % U64;
      e := e - 1;
    }
    r := Signed(n);
  }

  /** Scaling commutes with the wrap-around of each step. */
  lemma ScaleShift(n: nat, e: nat)
    requires e > 0
    ensures Scale(n * 10 % U64, e - 1) % U64 == Scale(n, e) % U64
  {
    ScaleOut(n, e - 1);
    ScaleMod(n * 10, e - 1);
  }

  lemma {:induction false} ScaleOut(n: nat, e: nat)
    ensures Scale(n * 10, e) == Scale(n, e + 1)
  {
    if e > 0 {
      ScaleOut(n, e - 1);
    }
  }

  lemma {:induction false} ScaleMod(n: nat, e: nat)
    ensures Scale(n % U64, e) % U64 == Scale(n, e) % U64
  {
    if e > 0 {
      ScaleMod(n, e - 1);
      TenTimes(Scale(n % U64, e - 1), Scale(n, e - 1));
    }
  }

  lemma TenTimes(a: nat, b: nat)
    requires a % U64 == b % U64
    ensures 10 * a % U64 == 10 * b % U64
  {
    var k := a / U64 - b / U64;
    assert 10 * a == 10 * b + U64 * (10 * k);
    Multiples(10 * b, 10 * k);
  }

  lemma Multiples(x: int, j: int)
    ensures (x + U64 * j) % U64 == x % U64
  {
  }
}
