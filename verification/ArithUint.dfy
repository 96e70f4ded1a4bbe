/** base_uint of src/arith_uint256.h and src/arith_uint256.cpp, for any width. */
module ArithUint {
  import opened Common
  import opened Bits
  import opened Limbs

  class BaseUint {
    const pn: array<nat>

    ghost predicate Valid()
      reads this, pn
    {
      pn.Length >= 2 && AreLimbs(pn[..])
    }

    ghost function Value(): nat
      reads this, pn
    {
      Val(pn[..])
    }

    ghost function Modulus(): nat {
      Unit(pn.Length)
    }

    /** src/arith_uint256.h:58-68 */
    constructor (width: nat, b: nat)
      requires width >= 2 && b < U32 * U32
      ensures Valid() && fresh(pn) && pn.Length == width && Value() == b
    {
      pn := new nat[width](i => 0);
      new;
      pn[0] := b % U32;
      pn[1] := b / U32;
      FromWords(pn[..], b);
    }

    /** src/arith_uint256.h:41-49 */
    constructor Copy(b: BaseUint)
      requires b.Valid()
      ensures Valid() && fresh(pn) && pn.Length == b.pn.Length && pn[..] == b.pn[..]
    {
      pn := new nat[b.pn.Length];
      new;
      var i := 0;
      while i < pn.Length
        modifies pn
        invariant 0 <= i <= pn.Length && pn[..i] == b.pn[..i]
      {
        pn[i] := b.pn[i];
        i := i + 1;
      }
      assert pn[..] == pn[..pn.Length] == b.pn[..pn.Length] == b.pn[..];
    }

    /** src/arith_uint256.h:72-78 */
    constructor Complement(b: BaseUint)
      requires b.Valid()
      ensures Valid() && fresh(pn) && pn.Length == b.pn.Length && Value() == Modulus() - 1 - b.Value()
    {
      pn := new nat[b.pn.Length];
      new;
      var i := 0;
      while i < pn.Length
        modifies pn
        invariant 0 <= i <= pn.Length
        invariant forall j :: 0 <= j < i ==> pn[j] == U32 - 1 - b.pn[j] && b.pn[j] < U32
      {
        assert b.pn[..][i] < U32;
        pn[i] := U32 - 1 - b.pn[i];
        i := i + 1;
      }
      Complements(pn[..], b.pn[..]);
    }

    /** src/arith_uint256.h:169-176 */
    method Increment()
      requires Valid()
      modifies pn
      ensures Valid() && Value() == (old(Value()) + 1) % Modulus()
    {
      hide Val, Unit, AreLimbs;
      ghost var x := pn[..];
      var i := 0;
      UnitZero();
      while i < pn.Length
        invariant 0 <= i <= pn.Length && AreLimbs(pn[..])
        invariant forall j :: i <= j < pn.Length ==> pn[j] == x[j]
        invariant Val(pn[..]) + Unit(i) == Val(x) + 1
      {
        ghost var s := pn[..];
        pn[i] := (pn[i] + 1) % U32;
        IncrementStep(s, pn[..], i);
        if pn[i] != 0 {
          NoWrap(x, pn[..]);
          return;
        }
        i := i + 1;
      }
      Wrapped(x, Val(pn[..]));
    }

    /** src/arith_uint256.h:80-87 */
    constructor Negative(b: BaseUint)
      requires b.Valid()
      ensures Valid() && fresh(pn) && pn.Length == b.pn.Length && Value() == (Modulus() - b.Value()) % Modulus()
    {
      var r := new BaseUint.Complement(b);
      pn := r.pn;
      new;
      Increment();
    }

    /** src/arith_uint256.h:136-144 */
    method AddAssign(b: BaseUint)
      requires Valid() && b.Valid() && b.pn.Length == pn.Length
      modifies pn
      ensures Valid() && Value() == (old(Value()) + old(b.Value())) % Modulus()
    {
      hide Val, Unit, Mul, Mod, AreLimbs;
      ghost var x, y := pn[..], b.pn[..];
      var carry: nat, i := 0, 0;
      NothingYet(x, y);
      while i < pn.Length
        invariant 0 <= i <= pn.Length && carry <= 1 && AreLimbs(pn[..])
        invariant forall j :: i <= j < pn.Length ==> pn[j] == x[j] && b.pn[j] == y[j]
        invariant Val(pn[..][..i]) + Mul(carry, Unit(i)) == Val(x[..i]) + Val(y[..i])
      {
        ghost var s := pn[..];
        LimbAt(x, i);
        LimbAt(y, i);
        var n := carry + pn[i] + b.pn[i];
        assert n < U32 * U32;
        pn[i] := n % U32;
        SumStep(s, pn[..], x, y, i, carry, n);
        carry := n / U32;
        i := i + 1;
      }
      Whole(pn[..], i);
      Whole(x, i);
      Whole(y, i);
      ValBound(pn[..]);
      Remainder(Val(x) + Val(y), Modulus(), Val(pn[..]), carry);
    }

    /** src/arith_uint256.h:146-149 */
    method SubAssign(b: BaseUint)
      requires Valid() && b.Valid() && b.pn.Length == pn.Length
      modifies pn
      ensures Valid() && Value() == (old(Value()) - old(b.Value())) % Modulus()
    {
      hide Val, Unit, AreLimbs;
      ghost var x, y := Value(), b.Value();
      var m := new BaseUint.Negative(b);
      AddAssign(m);
      ValBound(old(b.pn[..]));
      Difference(x, y, Modulus());
    }

    /** src/arith_uint256.cpp:62-71 */
    method MulAssign32(b32: nat)
      requires Valid() && b32 < U32
      modifies pn
      ensures Valid() && Value() == old(Value()) * b32 % Modulus()
    {
      hide Val, Unit, Mul, AreLimbs;
      ghost var x := pn[..];
      var carry: nat, i := 0, 0;
      NothingYet(x, x);
      MulSmall(b32);
      while i < pn.Length
        invariant 0 <= i <= pn.Length && carry < U32 && AreLimbs(pn[..])
        invariant forall j :: i <= j < pn.Length ==> pn[j] == x[j]
        invariant Val(pn[..][..i]) + Mul(carry, Unit(i)) == Mul(b32, Val(x[..i]))
      {
        ghost var s := pn[..];
        LimbAt(x, i);
        var n := carry + b32 * pn[i];
        FitsIn64(carry, 0, b32, x[i]);
        pn[i] := n % U32;
        ScaleStep(s, pn[..], x, i, b32, carry, n);
        carry := n / U32;
        i := i + 1;
      }
      ScaleDone(pn[..], x, b32, carry);
    }

    /** src/arith_uint256.cpp:73-86 */
    method MulAssign(b: BaseUint)
      requires Valid() && b.Valid() && b.pn.Length == pn.Length
      modifies pn
      ensures Valid() && Value() == old(Value()) * old(b.Value()) % Modulus()
    {
      hide Val, Unit, Mul, AreLimbs;
      ghost var x, y := pn[..], b.pn[..];
      var a := new BaseUint(pn.Length, 0);
      ghost var over := 0;
      var j := 0;
      NothingYet(x, y);
      MulSmall(Val(y));
      MulSmall(Unit(|x|));
      while j < pn.Length
        modifies a.pn
        invariant 0 <= j <= pn.Length && AreLimbs(a.pn[..]) && pn[..] == x && b.pn[..] == y
        invariant Val(a.pn[..]) + Mul(over, Unit(|x|)) == Mul(Val(x[..j]), Val(y))
      {
        LimbAt(x, j);
        ghost var va := Val(a.pn[..]);
        ghost var carry := AddRow(a.pn, j, pn[j], b.pn);
        over := ProductRow(Val(a.pn[..]), va, over, carry, x, y, j);
        j := j + 1;
      }
      ProductDone(a.pn[..], x, y, over);
      Assign(a);
    }

    /** The inner loop of the multiplication (src/arith_uint256.cpp:77-82). */
    static method AddRow(a: array<nat>, j: nat, d: nat, b: array<nat>) returns (carry: nat)
      requires a != b && j < a.Length == b.Length && AreLimbs(a[..]) && AreLimbs(b[..]) && d < U32
      modifies a
      ensures AreLimbs(a[..])
      ensures Val(a[..]) + Mul(carry, Unit(a.Length)) ==
              Val(old(a[..])) + Mul(Mul(d, Val(b[..][..a.Length - j])), Unit(j))
    {
      hide Val, Unit, Mul, AreLimbs;
      ghost var y, va := b[..], Val(a[..]);
      carry := 0;
      var i := 0;
      RowStart(y, d, j);
      while i + j < a.Length
        invariant 0 <= i && i + j <= a.Length && carry < U32 && AreLimbs(a[..])
        invariant Val(a[..]) + Mul(carry, Unit(i + j)) == va + Mul(Mul(d, Val(y[..i])), Unit(j))
      {
        ghost var s := a[..];
        LimbAt(s, i + j);
        LimbAt(y, i);
        var n := carry + a[i + j] + d * b[i];
        FitsIn64(carry, s[i + j], d, y[i]);
        a[i + j] := n % U32;
        ProductStep(s, a[..], y, i, j, d, carry, n, va);
        carry := n / U32;
        i := i + 1;
      }
    }

    /** src/arith_uint256.h:51-56 */
    method Assign(b: BaseUint)
      requires Valid() && b.Valid() && b.pn.Length == pn.Length
      modifies pn
      ensures Valid() && pn[..] == old(b.pn[..])
    {
      ghost var y := b.pn[..];
      var i := 0;
      while i < pn.Length
        invariant 0 <= i <= pn.Length && pn[..i] == y[..i]
        invariant forall j :: i <= j < pn.Length ==> b.pn[j] == y[j]
      {
        pn[i] := b.pn[i];
        i := i + 1;
      }
      assert pn[..] == pn[..i] == y[..i] == y;
    }

    /** src/arith_uint256.h:91-98 */
    method AssignUint64(b: nat)
      requires Valid() && b < U32 * U32
      modifies pn
      ensures Valid() && Value() == b
    {
      pn[0] := b % U32;
      pn[1] := b / U32;
      var i := 2;
      while i < pn.Length
        invariant 2 <= i <= pn.Length && pn[0] == b % U32 && pn[1] == b / U32
        invariant forall j :: 2 <= j < i ==> pn[j] == 0
      {
        pn[i] := 0;
        i := i + 1;
      }
      FromWords(pn[..], b);
    }

    /** src/arith_uint256.cpp:24-41 */
    method ShiftLeft(bits: nat)
      requires Valid()
      modifies pn
      ensures Valid() && Value() == old(Value()) * Pow2(bits) % Modulus()
    {
      hide Val, Unit, Mul, Div, Mod, Pow2, AreLimbs, LeftSoFar;
      ghost var x := pn[..];
      var a := new BaseUint.Copy(this);
      Clear();
      LeftRounds(a, bits / 32, bits % 32);
      LeftDone(pn[..], x, bits);
    }

    /** The loop of a left shift (src/arith_uint256.cpp:32-39). */
    method LeftRounds(a: BaseUint, k: nat, shift: nat)
      requires a.pn != pn && a.pn.Length == pn.Length && AreLimbs(a.pn[..]) && shift < 32
      requires forall m :: 0 <= m < pn.Length ==> pn[m] == 0
      modifies pn
      ensures forall m :: 0 <= m < pn.Length ==> pn[m] == LeftSoFar(a.pn[..], k, shift, pn.Length, m)
    {
      hide Mul, Div, Mod, Pow2, Up, Over, AreLimbs;
      ghost var x := a.pn[..];
      var i := 0;
      while i < pn.Length
        invariant 0 <= i <= pn.Length && a.pn[..] == x
        invariant forall m :: 0 <= m < pn.Length ==> pn[m] == LeftSoFar(x, k, shift, i, m)
      {
        LimbAt(x, i);
        LowOver(x, i, shift);
        LeftRound(a.pn[i], i, k, shift);
        i := i + 1;
      }
    }

    /** One round of the loop of a left shift (src/arith_uint256.cpp:33-38). */
    method LeftRound(limb: nat, i: nat, k: nat, shift: nat)
      requires limb < U32 && shift < 32
      requires i + k < pn.Length ==> pn[i + k] < Pow2(shift)
      requires i + k + 1 < pn.Length ==> pn[i + k + 1] == 0
      modifies pn
      ensures forall m :: 0 <= m < pn.Length ==>
                pn[m] == if m == i + k then old(pn[m]) + Up(limb, shift)
                         else if m == i + k + 1 then Over(limb, shift) else old(pn[m])
    {
      hide Mul, Pow2, Up, Over, Or;
      UpOver(limb, shift);
      OrZero(Over(limb, shift));
      NoOver(limb, shift);
      if i + k + 1 < pn.Length && shift != 0 {
        pn[i + k + 1] := Or(pn[i + k + 1], Div(limb, Pow2(32 - shift)));
      }
      if i + k < pn.Length {
        OrAdds(Up(limb, shift), pn[i + k], shift);
        pn[i + k] := Or(pn[i + k], Up(limb, shift));
      }
    }

    /** src/arith_uint256.cpp:43-60 */
    method ShiftRight(bits: nat)
      requires Valid()
      modifies pn
      ensures Valid() && Value() == old(Value()) / Pow2(bits)
    {
      hide Val, Unit, Mul, Div, Mod, Pow2, Up, Over, AreLimbs;
      ghost var x := pn[..];
      var a := new BaseUint.Copy(this);
      Clear();
      var k, shift := bits / 32, bits % 32;
      var i := 0;
      while i < pn.Length
        invariant 0 <= i <= pn.Length && a.pn[..] == x
        invariant forall m :: 0 <= m < pn.Length ==> pn[m] == RightSoFar(x, k, shift, i, m)
      {
        LimbAt(x, i);
        LowPart(x, i, shift);
        RightRound(a.pn[i], i, k, shift);
        i := i + 1;
      }
      RightDone(pn[..], x, bits);
    }

    /** One round of the loop of a right shift (src/arith_uint256.cpp:52-57). */
    method RightRound(limb: nat, i: nat, k: nat, shift: nat)
      requires limb < U32 && shift < 32 && i < pn.Length
      requires i - k - 1 >= 0 ==> pn[i - k - 1] < Pow2(32 - shift)
      requires i - k >= 0 ==> pn[i - k] == 0
      modifies pn
      ensures forall m :: 0 <= m < pn.Length ==>
                pn[m] == if m == i - k - 1 then old(pn[m]) + Up(limb, 32 - shift)
                         else if m == i - k then Div(limb, Pow2(shift)) else old(pn[m])
    {
      hide Mul, Div, Mod, Pow2, Up, Or;
      RightParts(limb, shift);
      OrZero(Div(limb, Pow2(shift)));
      if i - k - 1 >= 0 && shift != 0 {
        OrAdds(Up(limb, 32 - shift), pn[i - k - 1], 32 - shift);
        pn[i - k - 1] := Or(pn[i - k - 1], Up(limb, 32 - shift));
      }
      if i - k >= 0 {
        pn[i - k] := Or(pn[i - k], Div(limb, Pow2(shift)));
      }
    }

    method Clear()
      requires Valid()
      modifies pn
      ensures Valid() && forall m :: 0 <= m < pn.Length ==> pn[m] == 0
    {
      var i := 0;
      while i < pn.Length
        invariant 0 <= i <= pn.Length && forall m :: 0 <= m < i ==> pn[m] == 0
      {
        pn[i] := 0;
        i := i + 1;
      }
    }

    /** src/arith_uint256.cpp:122-133 */
    method CompareTo(b: BaseUint) returns (r: int)
      requires Valid() && b.Valid() && b.pn.Length == pn.Length
      ensures r == if Value() < b.Value() then -1 else if Value() > b.Value() then 1 else 0
    {
      hide Val, AreLimbs;
      var i := pn.Length;
      while i > 0
        invariant 0 <= i <= pn.Length && pn[..][i..] == b.pn[..][i..]
      {
        i := i - 1;
        if pn[i] < b.pn[i] {
          ValOrder(pn[..], b.pn[..], i);
          return -1;
        }
        if pn[i] > b.pn[i] {
          ValOrder(b.pn[..], pn[..], i);
          return 1;
        }
      }
      assert pn[..] == pn[..][0..] == b.pn[..][0..] == b.pn[..];
      return 0;
    }

    /** src/arith_uint256.cpp:135-148 */
    method EqualTo(b: nat) returns (r: bool)
      requires Valid() && b < U32 * U32
      ensures r <==> Value() == b
    {
      hide Val, Unit, AreLimbs;
      ghost var s := pn[..];
      var i := pn.Length - 1;
      LowWords(s);
      while i >= 2
        invariant 1 <= i < pn.Length && forall j :: i < j < pn.Length ==> pn[j] == 0
      {
        if pn[i] != 0 {
          ValNotZero(s, i);
          TwoLimbs(i);
          return false;
        }
        i := i - 1;
      }
      FewLimbs(s);
      if pn[1] != b / U32 {
        LimbAt(s, 0);
        return false;
      }
      return pn[0] == b % U32;
    }

    /** src/arith_uint256.cpp:177-189 */
    method BitLength() returns (r: nat)
      requires Valid()
      ensures r <= 32 * pn.Length && (r == 0 <==> Value() == 0)
      ensures r > 0 ==> Pow2(r - 1) <= Value() < Pow2(r)
    {
      hide Val, Unit, AreLimbs, Pow2;
      ghost var s := pn[..];
      var pos := pn.Length - 1;
      while pos >= 0
        invariant -1 <= pos < pn.Length && forall j :: pos < j < pn.Length ==> s[j] == 0
      {
        if pn[pos] != 0 {
          LimbAt(s, pos);
          Pow2Values();
          var nbits := 31;
          while nbits > 0
            invariant 0 <= nbits <= 31 && pn[pos] < Pow2(nbits + 1)
          {
            TestBit(pn[pos], nbits);
            if Div(pn[pos], Pow2(nbits)) % 2 == 1 {
              TopBit(s, pos, nbits);
              return 32 * pos + nbits + 1;
            }
            nbits := nbits - 1;
          }
          TopBit(s, pos, 0);
          return 32 * pos + 1;
        }
        pos := pos - 1;
      }
      ValZero(s);
      return 0;
    }

    /** src/arith_uint256.h:279-283 */
    method GetLow64() returns (r: nat)
      requires Valid()
      ensures r == Value() % (U32 * U32)
    {
      hide Val, Unit, AreLimbs;
      LowWords(pn[..]);
      LimbAt(pn[..], 0);
      LimbAt(pn[..], 1);
      LowOfWords(pn[..]);
      r := pn[0] + pn[1] * U32;
    }

    /** Subtracting where it goes, and setting the bit (src/arith_uint256.cpp:109-113). */
    method DivRound(num: BaseUint, div: BaseUint, shift: nat, ghost d: nat)
      requires Valid() && num.Valid() && div.Valid() && pn.Length == num.pn.Length == div.pn.Length
      requires pn != num.pn && num.pn != div.pn && div.pn != pn && shift < 32 * pn.Length
      requires div.Value() == Mul(d, Pow2(shift)) && num.Value() < 2 * div.Value() && LowClear(pn[..], shift + 1)
      modifies pn, num.pn
      ensures Valid() && num.Valid() && LowClear(pn[..], shift)
      ensures Mul(Value(), d) + num.Value() == old(Mul(Value(), d) + num.Value())
      ensures num.Value() < div.Value()
    {
      hide Val, Unit, Mul, Div, Mod, Pow2, AreLimbs, LowClear, Or;
      var cmp := num.CompareTo(div);
      if cmp >= 0 {
        Subtracted(num.pn[..], div.pn[..]);
        num.SubAssign(div);
        ghost var s := pn[..];
        QuotientBit(s, shift, d);
        pn[shift / 32] := Or(pn[shift / 32], Pow2(shift % 32));
      } else {
        LessClear(pn[..], shift);
      }
    }

    /** src/arith_uint256.cpp:88-120. ok is false where the source throws; the number is zero then. */
    method DivAssign(b: BaseUint) returns (ok: bool)
      requires Valid() && b.Valid() && b.pn.Length == pn.Length
      modifies pn
      ensures Valid() && (ok <==> old(b.Value()) != 0)
      ensures Value() == if ok then old(Value()) / old(b.Value()) else 0
    {
      hide Val, Unit, Mul, Div, Mod, Pow2, AreLimbs, LowClear;
      ghost var n0, d := Value(), b.Value();
      var div := new BaseUint.Copy(b);
      var num := new BaseUint.Copy(this);
      AssignUint64(0);
      var numBits := num.BitLength();
      var divBits := div.BitLength();
      if divBits == 0 {
        return false;
      }
      if divBits > numBits {
        TooSmall(n0, d, numBits, divBits);
        return true;
      }
      var shift: int := numBits - divBits;
      Aligned(n0, d, numBits, divBits, pn.Length);
      div.ShiftLeft(shift);
      ZeroIsClear(pn[..], shift + 1);
      while shift >= 0
        modifies pn, div.pn, num.pn
        invariant -1 <= shift < 32 * pn.Length
        invariant Valid() && num.Valid() && div.Valid()
        invariant n0 == Mul(Value(), d) + num.Value()
        invariant shift >= 0 ==> div.Value() == Mul(d, Pow2(shift))
        invariant num.Value() < Mul(d, Pow2(shift + 1)) && LowClear(pn[..], shift + 1)
      {
        Halving(d, shift);
        DivRound(num, div, shift, d);
        div.ShiftRight(1);
        shift := shift - 1;
      }
      Exactly(n0, d, Value(), num.Value());
      return true;
    }
  }

  // ---------- The steps of the loops ----------

  lemma RawMul(x: int, y: int)
    ensures Mul(x, y) == x * y
  {
  }

  lemma Remainder(x: nat, m: nat, v: nat, k: int)
    requires v < m && v + Mul(k, m) == x
    ensures v == x % m
  {
    Modulo(x, m, v, k);
  }

  lemma RawMod(x: int, m: int)
    requires m > 0
    ensures Mod(x, m) == x % m
  {
  }

  lemma RawDiv(x: int, d: int)
    requires d > 0
    ensures Div(x, d) == x / d
  {
  }

  lemma LimbAt(s: seq<nat>, i: nat)
    requires AreLimbs(s) && i < |s|
    ensures s[i] < U32
  {
  }

  lemma FromWords(s: seq<nat>, b: nat)
    requires |s| >= 2 && b < U32 * U32 && s[0] == b % U32 && s[1] == b / U32 && forall i :: 2 <= i < |s| ==> s[i] == 0
    ensures AreLimbs(s) && Val(s) == b
  {
    LowWords(s);
    FewLimbs(s);
  }

  lemma LowWords(s: seq<nat>)
    requires |s| >= 2
    ensures Val(s[..2]) == s[0] + U32 * s[1] && Val(s) == Val(s[..2]) + Mul(Val(s[2..]), Unit(2))
  {
    hide Unit, Mul, Val;
    ValPush(s, 0);
    ValPush(s, 1);
    ValZero(s[..0]);
    UnitZero();
    UnitNext(0);
    MulSmall(s[0]);
    MulComm(s[1], U32);
    MulWord(1, s[1]);
    MulSmall(s[1]);
    ValSplit(s, 2);
  }

  lemma FewLimbs(s: seq<nat>)
    requires |s| >= 2 && forall i :: 2 <= i < |s| ==> s[i] == 0
    ensures Val(s) == Val(s[..2])
  {
    hide Unit, Mul, Val;
    LowWords(s);
    ValZero(s[2..]);
    MulSmall(Unit(2));
  }

  lemma TwoLimbs(i: nat)
    requires i >= 2
    ensures Unit(i) >= U32 * U32
  {
    hide Unit, Pow2;
    UnitTwo();
    if i > 2 {
      UnitAdd(i - 2, 2);
      MulLess(0, Unit(i - 2), Unit(2));
      MulSmall(Unit(2));
    }
  }

  lemma UnitTwo()
    ensures Unit(2) == U32 * U32
  {
    Pow2Values();
  }

  lemma LowOfWords(s: seq<nat>)
    requires |s| >= 2 && s[0] < U32 && s[1] < U32
    ensures Val(s) % (U32 * U32) == s[0] + s[1] * U32
  {
    hide Val, Unit, Mul, Mod;
    LowWords(s);
    UnitTwo();
    Remainder(Val(s), U32 * U32, s[0] + s[1] * U32, Val(s[2..]));
  }

  lemma {:induction false} Complements(r: seq<nat>, x: seq<nat>)
    requires |r| == |x| && forall j :: 0 <= j < |x| ==> x[j] < U32 && r[j] == U32 - 1 - x[j]
    ensures AreLimbs(r) && Val(r) + Val(x) + 1 == Unit(|x|)
  {
    hide Unit, Mul;
    UnitZero();
    if x != [] {
      var n := |x| - 1;
      Complements(r[..n], x[..n]);
      UnitNext(n);
      MulAdd(r[n], x[n], Unit(n));
      MulSub(U32, 1, Unit(n));
      MulWord(1, Unit(n));
      MulSmall(Unit(n));
    }
  }

  lemma IncrementStep(s: seq<nat>, s': seq<nat>, i: nat)
    requires AreLimbs(s) && i < |s| && s' == s[i := (s[i] + 1) % U32]
    ensures AreLimbs(s')
    ensures s'[i] == 0 ==> Val(s') + Unit(i + 1) == Val(s) + Unit(i)
    ensures s'[i] != 0 ==> Val(s') == Val(s) + Unit(i)
  {
    hide Unit, Mul, Val;
    var x, u := s[i], Unit(i);
    assert s'[i] == if x == U32 - 1 then 0 else x + 1;
    ValUpdate(s, i, s'[i]);
    MulAdd(x, 1, u);
    MulSmall(u);
    UnitNext(i);
    MulWord(1, u);
  }

  lemma NoWrap(x: seq<nat>, s: seq<nat>)
    requires AreLimbs(s) && |s| == |x| && Val(s) == Val(x) + 1
    ensures Val(s) == (Val(x) + 1) % Unit(|x|)
  {
    hide Unit, Val, Mul, Mod;
    ValBound(s);
    MulSmall(Unit(|x|));
    Modulo(Val(x) + 1, Unit(|x|), Val(s), 0);
    RawMod(Val(x) + 1, Unit(|x|));
  }

  lemma Wrapped(x: seq<nat>, v: nat)
    requires AreLimbs(x) && v + Unit(|x|) == Val(x) + 1
    ensures v == (Val(x) + 1) % Unit(|x|)
  {
    hide Unit, Val, Mul, Mod;
    ValBound(x);
    MulSmall(Unit(|x|));
    Modulo(Val(x) + 1, Unit(|x|), v, 1);
    RawMod(Val(x) + 1, Unit(|x|));
  }

  lemma NothingYet(x: seq<nat>, y: seq<nat>)
    ensures Val(x[..0]) == Val(y[..0]) == 0 && Unit(0) == 1 && Mul(0, Unit(0)) == 0
  {
  }

  lemma SumStep(s: seq<nat>, s': seq<nat>, x: seq<nat>, y: seq<nat>, i: nat, carry: nat, n: nat)
    requires AreLimbs(s) && i < |s| == |x| == |y| && s' == s[i := n % U32] && n == carry + x[i] + y[i]
    requires Val(s[..i]) + Mul(carry, Unit(i)) == Val(x[..i]) + Val(y[..i])
    ensures AreLimbs(s') && Val(s'[..i + 1]) + Mul(n / U32, Unit(i + 1)) == Val(x[..i + 1]) + Val(y[..i + 1])
  {
    hide Unit, Mul, Val;
    ValPush(s', i);
    ValPush(x, i);
    ValPush(y, i);
    UnitNext(i);
    assert s'[..i] == s[..i];
    MulAdd(x[i], y[i], Unit(i));
    CarryOn(Val(s[..i]), Val(x[..i]) + Val(y[..i]), carry, x[i] + y[i], n, Unit(i));
  }

  lemma Whole(s: seq<nat>, n: nat)
    requires n == |s|
    ensures Val(s[..n]) == Val(s)
  {
    ValAll(s);
  }

  lemma Difference(x: nat, y: nat, m: nat)
    requires y < m
    ensures (x + (m - y) % m) % m == (x - y) % m
  {
    if y == 0 {
      Divided(m, m, 1, 0);
    } else {
      Divided(m - y, m, 0, m - y);
      DivMod(x - y, m);
      MulAdd(Div(x - y, m), 1, m);
      Divided(x + (m - y), m, Div(x - y, m) + 1, Mod(x - y, m));
    }
  }

  /** A limb product with carry fits in 64 bits. */
  lemma FitsIn64(carry: nat, limb: nat, x: nat, y: nat)
    requires carry < U32 && limb < U32 && x < U32 && y < U32
    ensures Mul(x, y) == x * y && 0 <= carry + limb + x * y < U32 * U32
  {
    hide Mul;
    MulSign(x, y);
    MulSign(U32 - 1 - x, y);
    MulSub(U32 - 1, x, y);
    MulSub(U32, 1, y);
    MulWord(1, y);
    MulSmall(y);
    RawMul(x, y);
  }

  lemma ScaleStep(s: seq<nat>, s': seq<nat>, x: seq<nat>, i: nat, b32: nat, carry: nat, n: nat)
    requires AreLimbs(s) && i < |s| == |x| && s' == s[i := n % U32] && n == carry + Mul(b32, x[i])
    requires Val(s[..i]) + Mul(carry, Unit(i)) == Mul(b32, Val(x[..i]))
    ensures AreLimbs(s') && Val(s'[..i + 1]) + Mul(n / U32, Unit(i + 1)) == Mul(b32, Val(x[..i + 1]))
  {
    hide Unit, Mul, Val;
    ValPush(s', i);
    ValPush(x, i);
    UnitNext(i);
    assert s'[..i] == s[..i];
    MulSign(b32, x[i]);
    CarryOn(Val(s[..i]), Mul(b32, Val(x[..i])), carry, Mul(b32, x[i]), n, Unit(i));
    MulAdd(Val(x[..i]), Mul(x[i], Unit(i)), b32);
    MulAssoc(b32, x[i], Unit(i));
  }

  lemma ScaleDone(s: seq<nat>, x: seq<nat>, b32: nat, carry: nat)
    requires AreLimbs(s) && |s| == |x|
    requires Val(s[..|s|]) + Mul(carry, Unit(|s|)) == Mul(b32, Val(x[..|s|]))
    ensures Val(s) == Val(x) * b32 % Unit(|s|)
  {
    hide Unit, Val;
    ValAll(s);
    ValAll(x);
    ValBound(s);
    Modulo(Val(x) * b32, Unit(|s|), Val(s), carry);
  }

  lemma RowStart(y: seq<nat>, d: nat, j: nat)
    ensures Mul(0, Unit(0 + j)) == 0 && Mul(Mul(d, Val(y[..0])), Unit(j)) == 0
  {
  }

  lemma ProductStep(s: seq<nat>, s': seq<nat>, y: seq<nat>, i: nat, j: nat, d: nat, carry: nat, n: nat, va: nat)
    requires AreLimbs(s) && i + j < |s| && i < |y| && s' == s[i + j := n % U32]
    requires n == carry + s[i + j] + Mul(d, y[i])
    requires Val(s) + Mul(carry, Unit(i + j)) == va + Mul(Mul(d, Val(y[..i])), Unit(j))
    ensures AreLimbs(s') && Val(s') + Mul(n / U32, Unit(i + j + 1)) == va + Mul(Mul(d, Val(y[..i + 1])), Unit(j))
  {
    hide Unit, Mul, Val;
    var u, m := Unit(i + j), Mul(d, y[i]);
    ValUpdate(s, i + j, n % U32);
    UnitNext(i + j);
    MulSign(d, y[i]);
    CarryOn(Val(s), va + Mul(Mul(d, Val(y[..i])), Unit(j)), carry, s[i + j] + m, n, u);
    MulAdd(s[i + j], m, u);
    UnitAdd(i, j);
    MulAssoc(m, Unit(i), Unit(j));
    MulAssoc(d, y[i], Unit(i));
    ValPush(y, i);
    MulAdd(Val(y[..i]), Mul(y[i], Unit(i)), d);
    MulAdd(Mul(d, Val(y[..i])), Mul(d, Mul(y[i], Unit(i))), Unit(j));
  }

  lemma ProductRow(v: nat, va: nat, over: nat, carry: nat, x: seq<nat>, y: seq<nat>, j: nat) returns (over': nat)
    requires j < |x| == |y|
    requires v + Mul(carry, Unit(|x|)) == va + Mul(Mul(x[j], Val(y[..|x| - j])), Unit(j))
    requires va + Mul(over, Unit(|x|)) == Mul(Val(x[..j]), Val(y))
    ensures v + Mul(over', Unit(|x|)) == Mul(Val(x[..j + 1]), Val(y))
  {
    hide Unit, Mul, Val;
    var n, d, uj := |x|, x[j], Unit(j);
    var low, high := Val(y[..n - j]), Val(y[n - j..]);
    ValPush(x, j);
    ValSplit(y, n - j);
    MulAdd(Val(x[..j]), Mul(d, uj), Val(y));
    MulSwap(d, uj, Val(y));
    MulAdd(low, Mul(high, Unit(n - j)), d);
    MulAssoc(d, high, Unit(n - j));
    MulAdd(Mul(d, low), Mul(Mul(d, high), Unit(n - j)), uj);
    MulAssoc(Mul(d, high), Unit(n - j), uj);
    UnitAdd(n - j, j);
    MulSign(d, high);
    over' := over + carry + Mul(d, high);
    MulAdd(over, carry, Unit(n));
    MulAdd(over + carry, Mul(d, high), Unit(n));
  }

  lemma ProductDone(s: seq<nat>, x: seq<nat>, y: seq<nat>, over: nat)
    requires AreLimbs(s) && |s| == |x|
    requires Val(s) + Mul(over, Unit(|x|)) == Mul(Val(x[..|x|]), Val(y))
    ensures Val(s) == Val(x) * Val(y) % Unit(|x|)
  {
    hide Unit, Val;
    ValAll(x);
    ValBound(s);
    MulSign(Val(x), Val(y));
    Modulo(Val(x) * Val(y), Unit(|x|), Val(s), over);
  }

  /** The limbs of a left shift after i rounds of its loop. */
  ghost function LeftSoFar(a: seq<nat>, k: nat, e: nat, i: nat, m: nat): nat
    requires m < |a| && i <= |a|
  {
    if m < i + k then LeftLimb(a, k, e, m)
    else if m == i + k && i > 0 then Over(a[i - 1], e)
    else 0
  }

  lemma NoOver(x: nat, e: nat)
    requires x < U32
    ensures e == 0 ==> Over(x, e) == 0 && Up(x, e) == x
  {
  }

  lemma LowOver(x: seq<nat>, i: nat, e: nat)
    requires AreLimbs(x) && i < |x| && e < 32
    ensures i > 0 ==> Over(x[i - 1], e) < Pow2(e)
  {
    if i > 0 {
      UpOver(x[i - 1], e);
    }
  }

  lemma OrZero(x: nat)
    ensures Or(0, x) == x
  {
  }

  lemma LowPart(x: seq<nat>, i: nat, e: nat)
    requires AreLimbs(x) && i < |x| && e < 32
    ensures i > 0 ==> 0 <= Div(x[i - 1], Pow2(e)) < Pow2(32 - e)
  {
    if i > 0 {
      RightParts(x[i - 1], e);
    }
  }

  lemma LeftDone(s: seq<nat>, x: seq<nat>, bits: nat)
    requires |s| == |x| && AreLimbs(x)
    requires forall m :: 0 <= m < |s| ==> s[m] == LeftSoFar(x, bits / 32, bits % 32, |x|, m)
    ensures AreLimbs(s) && Val(s) == Val(x) * Pow2(bits) % Unit(|x|)
  {
    hide Unit, Val, Pow2, Up, Over;
    var k, e := bits / 32, bits % 32;
    forall m | 0 <= m < |s| ensures s[m] == LeftLimb(x, k, e, m) && s[m] < U32 {
      LeftLimbFits(x, k, e, m);
    }
    LeftIsProduct(x, bits, s);
  }

  lemma LeftLimbFits(x: seq<nat>, k: nat, e: nat, m: nat)
    requires AreLimbs(x) && m < |x| && e < 32
    ensures LeftLimb(x, k, e, m) < U32
  {
    hide Mul, Pow2, Up, Over, Div, Mod;
    if m >= k {
      UpOver(x[m - k], e);
      if m > k {
        UpOver(x[m - k - 1], e);
        RoomBelow(Up(x[m - k], e), e);
      }
    }
  }

  /** A multiple of a power of two below U32 has room for the bits under it. */
  lemma RoomBelow(x: nat, e: nat)
    requires x < U32 && e <= 32 && Mod(x, Pow2(e)) == 0
    ensures x + Pow2(e) <= U32
  {
    hide Mul, Pow2, Div, Mod;
    Complement(e);
    DivMod(x, Pow2(e));
    var q, t := Div(x, Pow2(e)), Pow2(32 - e);
    if q < t {
      MulLess(q, t, Pow2(e));
    } else {
      MulSub(q, t, Pow2(e));
      MulSign(q - t, Pow2(e));
    }
  }

  /** The limbs of a right shift after i rounds of its loop. */
  ghost function RightSoFar(a: seq<nat>, k: nat, e: nat, i: nat, m: nat): nat
    requires m < |a| && i <= |a| && e < 32
  {
    if m + k + 1 < i then RightLimb(a, k, e, m)
    else if m + k + 1 == i then DivMod(a[m + k], Pow2(e)); Div(a[m + k], Pow2(e))
    else 0
  }

  lemma RightParts(x: nat, e: nat)
    requires x < U32 && e < 32
    ensures 0 <= Div(x, Pow2(e)) < Pow2(32 - e) && Div(x, Pow2(e)) < U32 && Div(x, Pow2(0)) == x
    ensures Mod(Up(x, 32 - e), Pow2(32 - e)) == 0 && Up(x, 32 - e) < U32 && Up(x, 32) == 0
    ensures Mod(0, Pow2(32 - e)) == 0
  {
    hide Mul, Div, Mod, Pow2, Up;
    UpOver(x, 32 - e);
    Complement(e);
    MulComm(Pow2(e), Pow2(32 - e));
    QuotientBelow(x, Pow2(32 - e), Pow2(e));
    DivMod(x, Pow2(e));
    Pow2Values();
    UpAll(x);
    MulSmall(Pow2(32 - e));
    Divided(0, Pow2(32 - e), 0, 0);
    MulSmall(x);
    Divided(x, 1, x, 0);
    if e > 0 {
      Pow2Less(32 - e, 32);
    }
  }

  lemma UpAll(x: nat)
    ensures Up(x, 32) == 0
  {
    Pow2Values();
  }

  lemma RightDone(s: seq<nat>, x: seq<nat>, bits: nat)
    requires |s| == |x| && AreLimbs(x)
    requires forall m :: 0 <= m < |s| ==> s[m] == RightSoFar(x, bits / 32, bits % 32, |x|, m)
    ensures AreLimbs(s) && Val(s) == Val(x) / Pow2(bits)
  {
    hide Unit, Val, Pow2, Up, Over;
    var k, e := bits / 32, bits % 32;
    forall m | 0 <= m < |s| ensures s[m] == RightLimb(x, k, e, m) && s[m] < U32 {
      RightLimbFits(x, k, e, m);
    }
    RightIsQuotient(x, bits, s);
  }

  lemma RightLimbFits(x: seq<nat>, k: nat, e: nat, m: nat)
    requires AreLimbs(x) && e < 32
    ensures RightLimb(x, k, e, m) < U32
  {
    hide Mul, Pow2, Up, Over, Div, Mod;
    if m + k < |x| {
      RightParts(x[m + k], e);
      if m + k + 1 < |x| {
        RightParts(x[m + k + 1], e);
        RoomBelow(Up(x[m + k + 1], 32 - e), 32 - e);
      }
    }
  }

  lemma TestBit(x: nat, e: nat)
    requires x < Pow2(e + 1)
    ensures Div(x, Pow2(e)) % 2 == 1 <==> x >= Pow2(e)
  {
    if x >= Pow2(e) {
      Divided(x, Pow2(e), 1, x - Pow2(e));
    } else {
      Divided(x, Pow2(e), 0, x);
    }
  }

  lemma TopBit(s: seq<nat>, pos: nat, e: nat)
    requires AreLimbs(s) && pos < |s| && e < 32 && Pow2(e) <= s[pos] < Pow2(e + 1)
    requires forall j :: pos < j < |s| ==> s[j] == 0
    ensures Pow2(32 * pos + e) <= Val(s) < Pow2(32 * pos + e + 1) && Val(s) > 0
  {
    hide Mul, Val, Pow2;
    var u, x := Pow2(32 * pos), s[pos];
    ValSplit(s, pos + 1);
    ValZero(s[pos + 1..]);
    MulSmall(Unit(pos + 1));
    ValPush(s, pos);
    ValBound(s[..pos]);
    Pow2Add(e, 32 * pos);
    Pow2Add(e + 1, 32 * pos);
    MulSub(x, Pow2(e), u);
    MulSign(x - Pow2(e), u);
    MulLess(x, Pow2(e + 1), u);
  }

  // ---------- Long division ----------

  lemma TooSmall(n: nat, d: nat, numBits: nat, divBits: nat)
    requires divBits > numBits && Pow2(divBits - 1) <= d && (if numBits == 0 then n == 0 else n < Pow2(numBits))
    ensures d > 0 && n / d == 0
  {
    hide Mul, Div, Mod, Pow2;
    if numBits < divBits - 1 {
      Pow2Less(numBits, divBits - 1);
    }
    MulSmall(d);
    Divided(n, d, 0, n);
    RawDiv(n, d);
  }

  lemma Aligned(n: nat, d: nat, numBits: nat, divBits: nat, width: nat)
    requires 0 < divBits <= numBits <= 32 * width
    requires Pow2(numBits - 1) <= n < Pow2(numBits) && Pow2(divBits - 1) <= d < Pow2(divBits)
    ensures d * Pow2(numBits - divBits) % Unit(width) == Mul(d, Pow2(numBits - divBits))
    ensures n < Mul(d, Pow2(numBits - divBits + 1)) && n == Mul(0, d) + n
  {
    hide Pow2;
    var shift := numBits - divBits;
    Pow2Add(divBits, shift);
    MulLess(d, Pow2(divBits), Pow2(shift));
    MulSign(d, Pow2(shift));
    if numBits < 32 * width {
      Pow2Less(numBits, 32 * width);
    }
    Small(d * Pow2(shift), Unit(width));
    Pow2Add(divBits - 1, shift + 1);
    MulSub(d, Pow2(divBits - 1), Pow2(shift + 1));
    MulSign(d - Pow2(divBits - 1), Pow2(shift + 1));
  }

  lemma Small(x: nat, m: nat)
    requires x < m
    ensures x % m == x
  {
  }

  lemma Halving(d: nat, shift: nat)
    ensures Mul(d, Pow2(shift + 1)) == 2 * Mul(d, Pow2(shift))
    ensures shift > 0 ==> Mul(d, Pow2(shift)) / Pow2(1) == Mul(d, Pow2(shift - 1))
  {
    assert Pow2(shift + 1) == 2 * Pow2(shift);
    Double(d, Pow2(shift));
    if shift > 0 {
      Double(d, Pow2(shift - 1));
    }
  }

  lemma Double(x: int, y: int)
    ensures Mul(x, 2 * y) == 2 * Mul(x, y)
  {
  }

  lemma Subtracted(x: seq<nat>, y: seq<nat>)
    requires AreLimbs(x) && |x| == |y| && Val(y) <= Val(x)
    ensures (Val(x) - Val(y)) % Unit(|x|) == Val(x) - Val(y)
  {
    ValBound(x);
    Small(Val(x) - Val(y), Unit(|x|));
  }

  /** The bits below position p are zero. */
  ghost predicate LowClear(q: seq<nat>, p: nat) {
    (forall i :: 0 <= i < p / 32 && i < |q| ==> q[i] == 0) && (p / 32 < |q| ==> Mod(q[p / 32], Pow2(p % 32)) == 0)
  }

  lemma ZeroIsClear(q: seq<nat>, p: nat)
    requires AreLimbs(q) && Val(q) == 0
    ensures LowClear(q, p)
  {
    hide Val, Unit, Mod, Pow2, Mul;
    forall i | 0 <= i < |q| ensures q[i] == 0 {
      if q[i] > 0 {
        ValNotZero(q, i);
      }
    }
    MulSmall(Pow2(p % 32));
    Modulo(0, Pow2(p % 32), 0, 0);
  }

  lemma LimbClear(q: seq<nat>, p: nat)
    requires p / 32 < |q| && LowClear(q, p + 1)
    ensures Mod(q[p / 32], Pow2(p % 32 + 1)) == 0 && Mod(q[p / 32], Pow2(p % 32)) == 0
    ensures forall i :: 0 <= i < p / 32 ==> q[i] == 0
  {
    hide Mul, Div;
    var x, e := q[p / 32], p % 32;
    if e == 31 {
      assert (p + 1) / 32 == p / 32 + 1 && x == 0;
    } else {
      assert (p + 1) / 32 == p / 32 && (p + 1) % 32 == e + 1;
    }
    HalfOf(x, Pow2(e));
  }

  lemma HalfOf(x: nat, p: nat)
    requires p > 0 && Mod(x, 2 * p) == 0
    ensures Mod(x, p) == 0 && Mod(x + p, p) == 0
  {
    hide Mul, Div, Mod;
    DivMod(x, 2 * p);
    var q := Div(x, 2 * p);
    Double(q, p);
    MulAdd(q, q, p);
    MulAdd(q + q, 1, p);
    MulSmall(p);
    Divided(x, p, q + q, 0);
    Divided(x + p, p, q + q + 1, 0);
  }

  lemma LessClear(q: seq<nat>, p: nat)
    requires LowClear(q, p + 1)
    ensures LowClear(q, p)
  {
    if p / 32 < |q| {
      LimbClear(q, p);
    }
  }

  lemma QuotientBit(q: seq<nat>, p: nat, d: nat)
    requires AreLimbs(q) && p < 32 * |q| && LowClear(q, p + 1)
    ensures var q' := q[p / 32 := Or(q[p / 32], Pow2(p % 32))];
            AreLimbs(q') && LowClear(q', p) && Mul(Val(q'), d) == Mul(Val(q), d) + Mul(d, Pow2(p))
  {
    hide Mul, Div, Mod, Val, Unit, Pow2;
    var k, e := p / 32, p % 32;
    var x := q[k];
    LimbClear(q, p);
    Pow2Less(e, e + 1);
    OrAdds(x, Pow2(e), e + 1);
    RoomBelow(x, e + 1);
    Twice(e);
    HalfOf(x, Pow2(e));
    var q' := q[k := x + Pow2(e)];
    ValUpdate(q, k, x + Pow2(e));
    MulAdd(x, Pow2(e), Unit(k));
    ShiftUnit(p);
    MulAdd(Val(q), Pow2(p), d);
    MulComm(Pow2(p), d);
  }

  lemma Twice(e: nat)
    ensures Pow2(e + 1) == 2 * Pow2(e)
  {
  }

  lemma Exactly(n: nat, d: nat, q: nat, r: nat)
    requires n == Mul(q, d) + r && r < Mul(d, Pow2(0))
    ensures d > 0 && q == n / d
  {
    assert Pow2(0) == 1;
    MulSmall(d);
    Divided(n, d, q, r);
  }
}
