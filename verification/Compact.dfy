/** Compact targets and the work of a block (src/arith_uint256.cpp:209-252, src/chain.cpp:134-147). */
module Compact {
  import opened Common
  import opened Bits
  import opened Limbs
  import opened ArithUint

  const M23: nat := 0x80_0000
  const M24: nat := 0x100_0000

  /** 256 to the power e. */
  function Bytes(e: nat): (r: nat)
    ensures r > 0
  {
    Pow2(8 * e)
  }

  lemma BytesAdd(a: nat, b: nat)
    ensures Bytes(a + b) == Mul(Bytes(a), Bytes(b))
  {
    hide Mul;
    Pow2Add(8 * a, 8 * b);
    assert 8 * (a + b) == 8 * a + 8 * b;
  }

  lemma BytesValues()
    ensures Bytes(0) == 1 && Bytes(1) == 0x100 && Bytes(2) == 0x1_0000 && Bytes(3) == M24
  {
    Pow2Values();
  }

  lemma BytesMono(a: nat, b: nat)
    requires a <= b
    ensures Bytes(a) <= Bytes(b)
  {
    if a < b {
      Pow2Less(8 * a, 8 * b);
    }
  }

  // ---------- Lengths ----------

  function BitLen(x: nat): (r: nat)
    ensures x == 0 ==> r == 0
    ensures x > 0 ==> r > 0 && Pow2(r - 1) <= x < Pow2(r)
  {
    if x == 0 then 0 else BitLen(x / 2) + 1
  }

  lemma BitLenIsOne(x: nat, r: nat)
    requires r > 0 && Pow2(r - 1) <= x < Pow2(r)
    ensures BitLen(x) == r
  {
    hide Pow2, BitLen;
    var b := BitLen(x);
    if b < r && b < r - 1 {
      Pow2Less(b, r - 1);
    } else if r < b && r < b - 1 {
      Pow2Less(r, b - 1);
    }
  }

  /** The number of bytes that x needs. */
  function Size(x: nat): nat {
    (BitLen(x) + 7) / 8
  }

  lemma SizeBounds(x: nat)
    requires x > 0
    ensures Size(x) >= 1 && Bytes(Size(x) - 1) <= x < Bytes(Size(x))
  {
    hide Pow2, BitLen;
    var b, s := BitLen(x), Size(x);
    if 8 * (s - 1) < b - 1 {
      Pow2Less(8 * (s - 1), b - 1);
    }
    if b < 8 * s {
      Pow2Less(b, 8 * s);
    }
  }

  lemma SizeIs(x: nat, s: nat)
    requires s >= 1 && Bytes(s - 1) <= x < Bytes(s)
    ensures Size(x) == s
  {
    hide Bytes, Size;
    SizeBounds(x);
    if Size(x) < s {
      BytesMono(Size(x), s - 1);
    } else if s < Size(x) {
      BytesMono(s, Size(x) - 1);
    }
  }

  // ---------- The format ----------

  datatype Target = Target(value: nat, negative: bool, overflow: bool)

  /** What a compact number stands for: N = mantissa * 256^(exponent - 3). */
  function Scaled(word: nat, size: nat): nat {
    if size <= 3 then
      DivMod(word, Bytes(3 - size));
      Div(word, Bytes(3 - size))
    else
      MulSign(word, Bytes(size - 3));
      Mul(word, Bytes(size - 3))
  }

  /** src/arith_uint256.cpp:209-229 */
  function Decode(c: nat): Target {
    var size, word0 := c / M24, c % M23;
    var word := if size <= 3 then Scaled(word0, size) else word0;
    Target(if size <= 3 then word else Mod(Scaled(word, size), Pow2(256)),
           word != 0 && c / M23 % 2 == 1,
           word != 0 && (size > 34 || (word > 0xff && size > 33) || (word > 0xffff && size > 32)))
  }

  /** The first three bytes of x. */
  function Leading(x: nat): nat {
    var size := Size(x);
    if size <= 3 then
      MulSign(x, Bytes(3 - size));
      Mul(x, Bytes(3 - size))
    else
      DivMod(x, Bytes(size - 3));
      Div(x, Bytes(size - 3))
  }

  /** Mantissa and exponent of x, with the sign bit of the mantissa free. */
  function Parts(x: nat): (nat, nat) {
    if Leading(x) >= M23 then (Leading(x) / 0x100, Size(x) + 1) else (Leading(x), Size(x))
  }

  /** src/arith_uint256.cpp:231-252 */
  function Encode(x: nat, negative: bool): nat {
    var (word, size) := Parts(x);
    word + size * M24 + (if negative && word != 0 then M23 else 0)
  }

  /** The mantissa times a power of 256 reaches another power of 256. */
  lemma Reaches(word: nat, a: nat, b: nat)
    ensures Mul(word, Bytes(a)) >= Bytes(b + a) <==> word >= Bytes(b)
  {
    hide Mul, Bytes;
    BytesAdd(b, a);
    if word >= Bytes(b) {
      MulSub(word, Bytes(b), Bytes(a));
      MulSign(word - Bytes(b), Bytes(a));
    } else {
      MulLess(word, Bytes(b), Bytes(a));
    }
  }

  /** The sign bit counts when the number is not zero. */
  lemma NegativeIsExact(c: nat)
    requires c < U32
    ensures Decode(c).negative <==> c / 0x80_0000 % 2 == 1 && Scaled(c % M23, c / M24) > 0
  {
    hide Mul, Div, Mod, Pow2, Bytes;
    var size, word := c / M24, c % M23;
    if size > 3 {
      MulSmall(Bytes(size - 3));
      if word > 0 {
        MulLess(0, word, Bytes(size - 3));
      }
    }
  }

  /** The overflow flag says that the number needs more than 256 bits. */
  lemma OverflowIsExact(c: nat)
    requires c < U32
    ensures Decode(c).overflow <==> Scaled(c % M23, c / M24) >= Pow2(256)
    ensures !Decode(c).overflow ==> Decode(c).value == Scaled(c % M23, c / M24)
  {
    hide Mul, Div, Mod, Pow2, Bytes;
    var size, word := c / M24, c % M23;
    Bytes32();
    BytesValues();
    if size <= 3 {
      DivMod(word, Bytes(3 - size));
      DivSmaller(word, Bytes(3 - size));
      BytesMono(3, 32);
    } else {
      var e := size - 3;
      MulSign(word, Bytes(e));
      MulSmall(Bytes(e));
      if e >= 32 {
        if word > 0 {
          BytesMono(32, e);
          MulLess(0, word, Bytes(e));
        }
      } else if e >= 30 {
        Reaches(word, e, 32 - e);
      } else {
        Reaches(word, e, 32 - e);
        BytesMono(3, 32 - e);
      }
      if Scaled(word, size) < Pow2(256) {
        MulSmall(Pow2(256));
        Divided(Scaled(word, size), Pow2(256), 0, Scaled(word, size));
      }
    }
  }

  lemma Bytes32()
    ensures Bytes(32) == Pow2(256)
  {
  }

  lemma DivSmaller(x: nat, d: nat)
    requires d > 0
    ensures Div(x, d) <= x
  {
    hide Mul, Div, Mod;
    DivMod(x, d);
    MulSub(d, 1, Div(x, d));
    MulSign(d - 1, Div(x, d));
    MulSmall(Div(x, d));
    MulComm(d, Div(x, d));
  }

  // ---------- What a round trip keeps ----------

  /** y is what the parts of x stand for: not above x, nearly x, and with the same parts. */
  ghost predicate Rounded(x: nat, y: nat) {
    y <= x && (x < M23 ==> y == x) && (x - y) * 0x8000 < x && Parts(y) == Parts(x)
  }

  lemma SmallParts(x: nat)
    requires 0 < x && Size(x) <= 3
    ensures var (word, size) := Parts(x);
            0 < word < M23 && size <= 4 && Rounded(x, Scaled(word, size))
  {
    hide Mul, Div, Bytes, Size;
    SizeBounds(x);
    BytesValues();
    var size := Size(x);
    ByConstant(x);
    if x >= M23 {
      var y := x / 0x100 * 0x100;
      SizeIs(y, 3);
      ByConstant(y);
      ByConstant(x / 0x100);
    } else {
      ByConstant(x * 0x100);
      ByConstant(x * 0x1_0000);
    }
  }

  lemma ByConstant(x: nat)
    ensures Mul(x, 1) == x && Mul(x, 0x100) == x * 0x100 && Mul(x, 0x1_0000) == x * 0x1_0000
    ensures Div(x, 1) == x && Div(x, 0x100) == x / 0x100 && Div(x, 0x1_0000) == x / 0x1_0000
  {
  }

  /** Above three bytes, the first 24 bits make the mantissa. */
  lemma LargeWord(x: nat)
    requires Size(x) >= 4
    ensures var p := Bytes(Size(x) - 3); 0x1_0000 <= Div(x, p) < M24
  {
    hide Mul, Div, Mod, Bytes, Size;
    var e := Size(x) - 3;
    assert x > 0 by { NoSize(); }
    SizeBounds(x);
    BytesValues();
    BytesAdd(2, e);
    BytesAdd(3, e);
    assert Size(x) - 1 == 2 + e && Size(x) == 3 + e;
    Between(x, Bytes(e), 0x1_0000, M24);
  }

  lemma NoSize()
    ensures Size(0) == 0
  {
  }

  lemma Between(x: nat, p: nat, low: nat, high: nat)
    requires p > 0 && Mul(low, p) <= x < Mul(high, p)
    ensures low <= Div(x, p) < high
  {
    hide Mul, Div, Mod;
    QuotientBelow(x, high, p);
    DivMod(x, p);
    if Div(x, p) < low {
      MulLess(Div(x, p), low, p);
    }
  }

  lemma ShortMantissa(x: nat)
    requires Size(x) >= 4 && Div(x, Bytes(Size(x) - 3)) < M23
    ensures var y := Scaled(Div(x, Bytes(Size(x) - 3)), Size(x)); Rounded(x, y)
  {
    hide Mul, Div, Mod, Bytes, Size;
    LargeWord(x);
    NoSize();
    SizeBounds(x);
    var e := Size(x) - 3;
    var p := Bytes(e);
    var m := Div(x, p);
    var y := Mul(m, p);
    DivMod(x, p);
    MulAtLeast(m, 0x1_0000, p);
    BytesMono(1, e);
    BytesValues();
    BytesAdd(2, e);
    BytesAdd(3, e);
    MulLess(m, M24, p);
    ConstantTimes(p);
    SizeIs(y, Size(x));
    Divided(y, p, m, 0);
  }

  lemma MulAtLeast(x: nat, y: nat, z: nat)
    requires x >= y
    ensures Mul(x, z) >= Mul(y, z)
  {
    hide Mul;
    MulSub(x, y, z);
    MulSign(x - y, z);
  }

  lemma ConstantTimes(p: nat)
    ensures Mul(0x1_0000, p) == 0x1_0000 * p && Mul(M24, p) == M24 * p
    ensures Mul(M23, p) == M23 * p && Mul(0x100, p) == 0x100 * p
  {
  }

  lemma LongMantissa(x: nat)
    requires Size(x) >= 4 && Div(x, Bytes(Size(x) - 3)) >= M23
    ensures var y := Scaled(Div(x, Bytes(Size(x) - 3)) / 0x100, Size(x) + 1); Rounded(x, y)
  {
    hide Mul, Div, Mod, Bytes, Size;
    LargeWord(x);
    NoSize();
    SizeBounds(x);
    var e := Size(x) - 3;
    var p, q := Bytes(e), Bytes(e + 1);
    var m0 := Div(x, p);
    var m := m0 / 0x100;
    BytesValues();
    BytesAdd(1, e);
    BytesAdd(2, e);
    BytesAdd(3, e);
    ConstantTimes(p);
    DividedTwice(x, p, 0x100);
    MulComm(p, 0x100);
    ByConstant(m0);
    DivMod(x, q);
    var y := Mul(m, q);
    DivMod(x, p);
    MulAtLeast(m0, M23, p);
    MulAssoc(m, 0x100, p);
    ByConstant(m);
    MulAtLeast(m * 0x100, M23, p);
    MulLess(m * 0x100, M24, p);
    SizeIs(y, Size(x));
    Divided(y, p, m * 0x100, 0);
  }

  lemma PartsFit(x: nat)
    requires x < Pow2(256)
    ensures var (word, size) := Parts(x);
            word < M23 && size <= 33 && (x > 0 ==> word > 0 && Rounded(x, Scaled(word, size)))
  {
    hide Mul, Div, Mod, Bytes, Size, Pow2, Rounded, Scaled;
    if x == 0 {
      NoSize();
      BytesValues();
      ByZero();
    } else if Size(x) <= 3 {
      SmallParts(x);
    } else {
      SizeBounds(x);
      Bytes32();
      if Size(x) > 32 {
        BytesMono(32, Size(x) - 1);
      }
      LargeWord(x);
      if Div(x, Bytes(Size(x) - 3)) < M23 {
        ShortMantissa(x);
      } else {
        LongMantissa(x);
      }
    }
  }

  lemma ByZero()
    ensures Mul(0, Bytes(3)) == 0
  {
  }

  /** Encoding a positive number and decoding it again: no flag is raised, the result is not above the
      number, is the number below 2^23, is short of it by less than one part in 2^15, and encodes to
      the same compact form. */
  lemma RoundTrip(x: nat)
    requires 0 < x < Pow2(256)
    ensures var d := Decode(Encode(x, false));
            && !d.negative && !d.overflow && d.value <= x && (x < M23 ==> d.value == x)
            && (x - d.value) * 0x8000 < x && Encode(d.value, false) == Encode(x, false)
  {
    hide Parts, Scaled, Pow2, Decode;
    PartsFit(x);
    var (word, size) := Parts(x);
    var c := Encode(x, false);
    assert c == word + size * M24 && c / M24 == size && c % M23 == word && c / M23 % 2 == 0;
    OverflowIsExact(c);
    NotNegative(c);
  }

  lemma NotNegative(c: nat)
    requires c / M23 % 2 == 0
    ensures !Decode(c).negative
  {
    hide Pow2, Scaled, Mod;
  }

  /** The sign survives, for numbers that have one. */
  lemma SignRoundTrip(x: nat)
    requires x < Pow2(256)
    ensures Decode(Encode(x, true)).value == Decode(Encode(x, false)).value
    ensures Decode(Encode(x, true)).negative <==> x > 0
  {
    hide Parts, Pow2, Scaled, Mod, Decode;
    PartsFit(x);
    var (word, size) := Parts(x);
    var c, c' := Encode(x, false), Encode(x, true);
    assert c / M24 == size && c % M23 == word;
    if word != 0 {
      assert c' == c + M23 && c' / M24 == size && c' % M23 == word && c' / M23 % 2 == 1;
    }
    if x > 0 {
      WordShows(x, word, size);
    }
    DecodeBySize(c, c');
    if x == 0 {
      ZeroParts();
    }
  }

  lemma ZeroParts()
    ensures Parts(0) == (0, 0)
  {
    NoSize();
    ByZero();
    BytesValues();
  }

  lemma WordShows(x: nat, word: nat, size: nat)
    requires x > 0 && Rounded(x, Scaled(word, size))
    ensures Scaled(word, size) > 0
  {
  }

  lemma DecodeBySize(c: nat, c': nat)
    requires c / M24 == c' / M24 && c % M23 == c' % M23
    ensures Decode(c).value == Decode(c').value
    ensures Scaled(c % M23, c / M24) > 0 ==> (Decode(c').negative <==> c' / M23 % 2 == 1)
    ensures c % M23 == 0 ==> !Decode(c').negative
  {
    hide Mul, Div, Mod, Pow2, Bytes;
    if c / M24 > 3 {
      MulSmall(Bytes(c / M24 - 3));
    } else {
      DivMod(0, Bytes(3 - c / M24));
      DivSmaller(0, Bytes(3 - c / M24));
    }
  }

  // ---------- Work ----------

  /** src/chain.cpp:134-147 */
  function Work(c: nat): nat {
    var t := Decode(c);
    if t.negative || t.overflow || t.value == 0 then 0 else Pow2(256) / (t.value + 1)
  }

  /** A target that is not flagged leaves room for one more. */
  lemma TargetFits(c: nat)
    requires c < U32 && !Decode(c).overflow
    ensures Decode(c).value + 1 < Pow2(256)
  {
    hide Mul, Div, Mod, Pow2, Bytes;
    OverflowIsExact(c);
    var size, word := c / M24, c % M23;
    Bytes32();
    BytesValues();
    if size <= 3 {
      DivSmaller(word, Bytes(3 - size));
      BytesMono(3, 32);
    } else if word == 0 {
      MulSmall(Bytes(size - 3));
      BytesMono(3, 32);
    } else {
      var e := size - 3;
      Reaches(word, e, 32 - e);
      BytesAdd(32 - e, e);
      MulLess(word, Bytes(32 - e), Bytes(e));
      BytesMono(1, e);
    }
  }

  /** The quotient that avoids 2^256 is the one that is meant, and adding one does not wrap. */
  lemma ProofIdentity(t: nat, m: nat)
    requires 0 < t && t + 1 < m
    ensures (m - 1 - t) / (t + 1) + 1 == m / (t + 1) < m
  {
    hide Mul, Div, Mod;
    var d := t + 1;
    DivMod(m - d, d);
    MulAdd(Div(m - d, d), 1, d);
    MulSmall(d);
    Divided(m, d, Div(m - d, d) + 1, Mod(m - d, d));
    RawDiv(m, d);
    RawDiv(m - d, d);
    DivMod(m, d);
    var q := Div(m, d);
    MulAdd(t, 1, q);
    MulComm(q, d);
    MulSmall(q);
    if q > 0 {
      MulLess(0, t, q);
    }
  }

  /** A larger target never means more work. */
  lemma WorkFalls(c: nat, c': nat)
    requires !Decode(c).negative && !Decode(c).overflow && 0 < Decode(c).value <= Decode(c').value
    ensures Work(c') <= Work(c)
  {
    hide Mul, Div, Mod, Pow2, Decode;
    var m, d, d' := Pow2(256), Decode(c).value + 1, Decode(c').value + 1;
    QuotientFalls(m, d, d');
    RawDiv(m, d);
    RawDiv(m, d');
    DivMod(m, d);
  }

  lemma QuotientFalls(m: nat, d: nat, d': nat)
    requires 0 < d <= d'
    ensures Div(m, d') <= Div(m, d)
  {
    hide Mul, Div, Mod;
    DivMod(m, d);
    DivMod(m, d');
    var q, q' := Div(m, d), Div(m, d');
    MulSub(d', d, q');
    MulSign(d' - d, q');
    MulComm(d, q');
    MulComm(d', q');
    if q < q' {
      MulLess(q, q', d);
    }
  }

  // ---------- The methods ----------

  /** src/arith_uint256.cpp:209-229 */
  method SetCompact(a: BaseUint, nCompact: nat) returns (negative: bool, overflow: bool)
    requires a.Valid() && a.pn.Length == 8 && nCompact < U32
    modifies a.pn
    ensures a.Valid() && Target(a.Value(), negative, overflow) == Decode(nCompact)
  {
    hide Val, Unit, AreLimbs, Pow2, Mul, Div, Mod, Bytes;
    var nSize := nCompact / M24;
    var nWord := nCompact % M23;
    if nSize <= 3 {
      DivMod(nWord, Bytes(3 - nSize));
      DivSmaller(nWord, Bytes(3 - nSize));
      nWord := Div(nWord, Bytes(3 - nSize));
      a.AssignUint64(nWord);
    } else {
      a.AssignUint64(nWord);
      a.ShiftLeft(8 * (nSize - 3));
      ShiftedMantissa(nWord, nSize - 3);
    }
    negative := nWord != 0 && nCompact / M23 % 2 == 1;
    overflow := nWord != 0 && (nSize > 34 || (nWord > 0xff && nSize > 33) || (nWord > 0xffff && nSize > 32));
  }

  lemma ShiftedMantissa(word: nat, e: nat)
    ensures word * Pow2(8 * e) % Unit(8) == Mod(Mul(word, Bytes(e)), Pow2(256))
  {
  }

  /** src/arith_uint256.cpp:231-252; both assertions there hold. */
  method GetCompact(a: BaseUint, negative: bool) returns (nCompact: nat)
    requires a.Valid() && a.pn.Length == 8
    ensures nCompact == Encode(a.Value(), negative) < U32
  {
    hide Val, Unit, AreLimbs, Pow2, Mul, Div, Mod, Bytes, Scaled, Rounded, BitLen;
    ghost var x := a.Value();
    var bits := a.BitLength();
    BitsFound(x, bits);
    var nSize := (bits + 7) / 8;
    ValBound(a.pn[..]);
    EightLimbs();
    PartsFit(x);
    WordFits(x);
    if nSize <= 3 {
      var low := a.GetLow64();
      nCompact := Mul(low, Bytes(3 - nSize));
    } else {
      var bn := new BaseUint.Copy(a);
      bn.ShiftRight(8 * (nSize - 3));
      RawDiv(x, Bytes(nSize - 3));
      nCompact := bn.GetLow64();
    }
    if nCompact / M23 % 2 == 1 {
      nCompact := nCompact / 0x100;
      nSize := nSize + 1;
    }
    assert nCompact < M23 && nSize < 256;
    var sign := if negative && nCompact != 0 then M23 else 0;
    nCompact := nCompact + nSize * M24 + sign;
  }

  lemma EightLimbs()
    ensures Unit(8) == Pow2(256)
  {
  }

  lemma BitsFound(x: nat, bits: nat)
    requires bits == 0 <==> x == 0
    requires bits > 0 ==> Pow2(bits - 1) <= x < Pow2(bits)
    ensures bits == BitLen(x)
  {
    if bits > 0 {
      BitLenIsOne(x, bits);
    }
  }

  /** The mantissa before the sign bit is cleared has 24 bits, so 64-bit reads lose nothing. */
  lemma WordFits(x: nat)
    ensures Size(x) <= 3 ==> x % (U32 * U32) == x && Mul(x, Bytes(3 - Size(x))) < M24
    ensures Size(x) > 3 ==> 0 <= Leading(x) < M24 && Leading(x) % (U32 * U32) == Leading(x)
    ensures Size(x) > 3 ==> Pow2(8 * (Size(x) - 3)) == Bytes(Size(x) - 3)
  {
    hide Mul, Div, Size;
    BytesValues();
    NoSize();
    if x == 0 {
      MulSmall(M24);
    } else if Size(x) <= 3 {
      SizeBounds(x);
      ByConstant(x);
    } else {
      LargeWord(x);
    }
  }

  lemma ProofSteps(t: nat, m: nat)
    requires 0 < t && t + 1 < m
    ensures (t + 1) % m == t + 1 && ((m - 1 - t) / (t + 1) + 1) % m == m / (t + 1)
  {
    ProofIdentity(t, m);
    Small(t + 1, m);
    Small(m / (t + 1), m);
  }

  lemma WorkIs(c: nat)
    ensures var t := Decode(c);
            Work(c) == if t.negative || t.overflow || t.value == 0 then 0 else Pow2(256) / (t.value + 1)
  {
  }

  /** src/chain.cpp:134-147, with the exact quotient of 2^256. */
  method GetBlockProof(nBits: nat) returns (r: BaseUint)
    requires nBits < U32
    ensures r.Valid() && r.pn.Length == 8 && r.Value() == Work(nBits)
  {
    hide Val, Unit, AreLimbs, Pow2, Decode, Work;
    WorkIs(nBits);
    var target := new BaseUint(8, 0);
    var negative, overflow := SetCompact(target, nBits);
    var zero := target.EqualTo(0);
    if negative || overflow || zero {
      r := new BaseUint(8, 0);
      return;
    }
    EightLimbs();
    TargetFits(nBits);
    r := Quotient(target);
  }

  /** src/chain.cpp:146 */
  method Quotient(target: BaseUint) returns (r: BaseUint)
    requires target.Valid() && target.pn.Length == 8 && 0 < target.Value() && target.Value() + 1 < Unit(8)
    ensures r.Valid() && r.pn.Length == 8 && r.Value() == Unit(8) / (target.Value() + 1)
  {
    hide Val, Unit, AreLimbs, Pow2;
    ghost var t := target.Value();
    ProofSteps(t, Unit(8));
    var one := new BaseUint(8, 1);
    var next := new BaseUint.Copy(target);
    next.AddAssign(one);
    r := new BaseUint.Complement(target);
    var ok := r.DivAssign(next);
    r.AddAssign(one);
  }
}
