/** Little-endian sequences of 32-bit limbs and the numbers they stand for. */
module Limbs {
  import opened Common
  import opened Bits

  function Unit(i: nat): (r: nat)
    ensures r > 0
  {
    Pow2(32 * i)
  }

  lemma UnitNext(i: nat)
    ensures Unit(i + 1) == U32 * Unit(i)
  {
    Pow2Add(32 * i, 32);
    Pow2Values();
  }

  lemma UnitAdd(i: nat, j: nat)
    ensures Unit(i + j) == Mul(Unit(i), Unit(j))
  {
    hide Mul;
    Pow2Add(32 * i, 32 * j);
    assert 32 * (i + j) == 32 * i + 32 * j;
  }

  ghost predicate AreLimbs(s: seq<nat>) {
    forall i :: 0 <= i < |s| ==> s[i] < U32
  }

  function Val(s: seq<nat>): (r: nat) {
    if s == [] then 0
    else
      MulSign(s[|s| - 1], Unit(|s| - 1));
      Val(s[..|s| - 1]) + Mul(s[|s| - 1], Unit(|s| - 1))
  }

  lemma ValPush(s: seq<nat>, i: nat)
    requires i < |s|
    ensures Val(s[..i + 1]) == Val(s[..i]) + Mul(s[i], Unit(i))
  {
    hide Mul, Unit;
    assert s[..i + 1][..i] == s[..i];
  }

  lemma ValAll(s: seq<nat>)
    ensures Val(s[..|s|]) == Val(s)
  {
    assert s[..|s|] == s;
  }

  lemma {:induction false} ValBound(s: seq<nat>)
    requires AreLimbs(s)
    ensures Val(s) < Unit(|s|)
  {
    hide Mul, Unit;
    if s == [] {
    } else {
      var n := |s| - 1;
      ValBound(s[..n]);
      UnitNext(n);
      MulLess(s[n], U32, Unit(n));
      MulWord(1, Unit(n));
      MulSmall(Unit(n));
    }
  }

  /** Low limbs and high limbs. */
  lemma {:induction false} ValSplit(s: seq<nat>, i: nat)
    requires i <= |s|
    ensures Val(s) == Val(s[..i]) + Mul(Val(s[i..]), Unit(i))
    decreases |s|
  {
    hide Mul, Unit;
    if i == |s| {
      ValAll(s);
      MulSmall(Unit(i));
    } else {
      var n, h := |s| - 1, s[i..];
      ValSplit(s[..n], i);
      assert s[..n][..i] == s[..i] && s[..n][i..] == h[..n - i];
      UnitAdd(n - i, i);
      MulAssoc(h[n - i], Unit(n - i), Unit(i));
      MulAdd(Val(h[..n - i]), Mul(h[n - i], Unit(n - i)), Unit(i));
    }
  }

  lemma ValUpdate(s: seq<nat>, i: nat, x: nat)
    requires i < |s|
    ensures Val(s[i := x]) == Val(s) + Mul(x, Unit(i)) - Mul(s[i], Unit(i))
  {
    hide Mul, Unit, Val;
    var t := s[i := x];
    ValSplit(s, i + 1);
    ValSplit(t, i + 1);
    assert s[i + 1..] == t[i + 1..] && s[..i] == t[..i];
    ValPush(s, i);
    ValPush(t, i);
  }

  lemma {:induction false} ValZero(s: seq<nat>)
    requires forall i :: 0 <= i < |s| ==> s[i] == 0
    ensures Val(s) == 0
  {
    hide Mul, Unit;
    if s != [] {
      ValZero(s[..|s| - 1]);
      MulSmall(Unit(|s| - 1));
    }
  }

  lemma ValNotZero(s: seq<nat>, i: nat)
    requires i < |s| && s[i] > 0
    ensures Val(s) >= Unit(i)
  {
    hide Mul, Unit, Val;
    ValSplit(s, i + 1);
    ValPush(s, i);
    MulLess(0, s[i], Unit(i));
    MulSmall(Unit(i));
    MulSign(Val(s[i + 1..]), Unit(i + 1));
  }

  /** The highest limb that differs decides. */
  lemma ValOrder(s: seq<nat>, t: seq<nat>, i: nat)
    requires |s| == |t| && i < |s| && AreLimbs(s) && AreLimbs(t) && s[i] < t[i] && s[i + 1..] == t[i + 1..]
    ensures Val(s) < Val(t)
  {
    hide Mul, Unit, Val;
    ValSplit(s, i + 1);
    ValSplit(t, i + 1);
    ValPush(s, i);
    ValPush(t, i);
    ValBound(s[..i]);
    MulLess(s[i], t[i], Unit(i));
  }

  /** A limb sum with carry: the step of every loop that runs up the limbs. */
  lemma CarryOn(v: int, w: int, c: nat, d: nat, n: nat, u: nat)
    requires v + Mul(c, u) == w && n == c + d
    ensures v + Mul(n % U32, u) + Mul(n / U32, U32 * u) == w + Mul(d, u)
  {
    hide Mul;
    MulAdd(c, d, u);
    MulAdd(n % U32, U32 * (n / U32), u);
    MulWord(n / U32, u);
  }

  lemma Modulo(x: nat, m: nat, v: nat, k: int)
    requires v < m && v + Mul(k, m) == x
    ensures v == Mod(x, m)
  {
    hide Mul, Mod;
    Divided(x, m, k, v);
  }

  // ---------- Shifts, limb by limb ----------

  lemma ShiftUnit(shift: nat)
    ensures Pow2(shift) == Mul(Pow2(shift % 32), Unit(shift / 32))
  {
    hide Mul;
    Pow2Add(shift % 32, 32 * (shift / 32));
  }

  lemma Complement(e: nat)
    requires e <= 32
    ensures Mul(Pow2(e), Pow2(32 - e)) == Mul(Pow2(32 - e), Pow2(e)) == U32
  {
    hide Mul;
    Pow2Add(e, 32 - e);
    Pow2Values();
    MulComm(Pow2(e), Pow2(32 - e));
  }

  /** The low and the high part of a limb times Pow2(e), as a left shift leaves and loses them. */
  function Up(x: nat, e: nat): nat { Mul(x, Pow2(e)) % U32 }

  function Over(x: nat, e: nat): nat
  {
    MulSign(x, Pow2(e));
    Mul(x, Pow2(e)) / U32
  }

  lemma UpOver(x: nat, e: nat)
    requires x < U32 && e <= 32
    ensures Up(x, e) < U32 && Up(x, e) + U32 * Over(x, e) == Mul(x, Pow2(e))
    ensures Over(x, e) < Pow2(e) && Mod(Up(x, e), Pow2(e)) == 0
    ensures Over(x, e) == Div(x, Pow2(32 - e)) && Up(x, e) == Mul(Mod(x, Pow2(32 - e)), Pow2(e))
  {
    hide Mul, Div, Mod, Pow2;
    var s, t := Pow2(e), Pow2(32 - e);
    var q, r := Div(x, t), Mod(x, t);
    Complement(e);
    DivMod(x, t);
    MulAdd(Mul(q, t), r, s);
    MulAssoc(q, t, s);
    MulComm(q, U32);
    MulWord(1, q);
    MulSmall(q);
    MulLess(r, t, s);
    MulSign(r, s);
    assert Mul(x, s) == U32 * q + Mul(r, s) && Mul(r, s) < U32;
    Divided(Mul(r, s), s, r, 0);
    QuotientBelow(x, s, t);
  }

  lemma QuotientBelow(x: nat, s: nat, t: nat)
    requires t > 0 && x < Mul(s, t)
    ensures Div(x, t) < s
  {
    hide Mul, Div, Mod;
    DivMod(x, t);
    if s <= Div(x, t) {
      MulSub(Div(x, t), s, t);
      MulSign(Div(x, t) - s, t);
    }
  }

  /** Limb m of a << (32 * k + e). */
  function LeftLimb(a: seq<nat>, k: nat, e: nat, m: nat): nat
    requires m < |a|
  {
    if m < k then 0
    else Up(a[m - k], e) + (if m == k then 0 else Over(a[m - k - 1], e))
  }

  lemma {:induction false} LeftVal(a: seq<nat>, k: nat, e: nat, r: seq<nat>, i: nat)
    requires AreLimbs(a) && e < 32 && |r| == |a| && i + k <= |a|
    requires forall m :: 0 <= m < |r| ==> r[m] == LeftLimb(a, k, e, m)
    ensures Val(r[..i + k]) + Mul(if i == 0 then 0 else Over(a[i - 1], e), Unit(i + k)) ==
            Mul(Mul(Val(a[..i]), Pow2(e)), Unit(k))
    decreases i
  {
    hide Mul, Pow2, Unit, Val, Up, Over;
    if i == 0 {
      ValZero(r[..k]);
      ValZero(a[..0]);
      MulSmall(Unit(k));
      MulSmall(Pow2(e));
    } else {
      LeftVal(a, k, e, r, i - 1);
      var m, u, p := i - 1 + k, Unit(i - 1 + k), Pow2(e);
      var c := if i == 1 then 0 else Over(a[i - 2], e);
      var lo, hi := Up(a[i - 1], e), Over(a[i - 1], e);
      ValPush(r, m);
      ValPush(a, i - 1);
      UnitNext(m);
      UpOver(a[i - 1], e);
      MulAdd(lo, c, u);
      MulAdd(lo, U32 * hi, u);
      MulWord(hi, u);
      UnitAdd(i - 1, k);
      var x := a[i - 1];
      MulAdd(Val(a[..i - 1]), Mul(x, Unit(i - 1)), p);
      MulAdd(Mul(Val(a[..i - 1]), p), Mul(Mul(x, Unit(i - 1)), p), Unit(k));
      MulSwap(x, Unit(i - 1), p);
      MulAssoc(Mul(x, p), Unit(i - 1), Unit(k));
    }
  }

  lemma LeftIsProduct(a: seq<nat>, shift: nat, r: seq<nat>)
    requires AreLimbs(a) && AreLimbs(r) && |r| == |a|
    requires forall m :: 0 <= m < |r| ==> r[m] == LeftLimb(a, shift / 32, shift % 32, m)
    ensures Val(r) == Mod(Mul(Val(a), Pow2(shift)), Unit(|a|))
  {
    hide Mul, Div, Mod, Pow2, Unit, Val, Up, Over;
    var n, k, e := |a|, shift / 32, shift % 32;
    ShiftUnit(shift);
    ValBound(r);
    var x, p := Val(a), Pow2(e);
    MulSign(x, Pow2(shift));
    MulAssoc(x, p, Unit(k));
    if k >= n {
      ValZero(r);
      UnitAdd(k - n, n);
      MulAssoc(Mul(x, p), Unit(k - n), Unit(n));
      Modulo(Mul(x, Pow2(shift)), Unit(n), 0, Mul(Mul(x, p), Unit(k - n)));
    } else {
      var i := n - k;
      LeftVal(a, k, e, r, i);
      ValAll(r);
      var high, c := Val(a[i..]), if i == 0 then 0 else Over(a[i - 1], e);
      HighLimbsPass(a, k, i, p);
      MulAdd(c, Mul(high, p), Unit(n));
      Modulo(Mul(x, Pow2(shift)), Unit(n), Val(r), c + Mul(high, p));
    }
  }

  /** Shifted by k limbs and multiplied, the limbs from i on end up behind the last one. */
  lemma HighLimbsPass(a: seq<nat>, k: nat, i: nat, p: nat)
    requires i + k == |a|
    ensures Mul(Mul(Val(a), p), Unit(k)) == Mul(Mul(Val(a[..i]), p), Unit(k)) + Mul(Mul(Val(a[i..]), p), Unit(|a|))
  {
    hide Mul, Unit, Val;
    ValSplit(a, i);
    UnitAdd(i, k);
    var low, high := Val(a[..i]), Val(a[i..]);
    MulAdd(low, Mul(high, Unit(i)), p);
    MulAdd(Mul(low, p), Mul(Mul(high, Unit(i)), p), Unit(k));
    MulSwap(high, Unit(i), p);
    MulAssoc(Mul(high, p), Unit(i), Unit(k));
  }

  /** Limb m of a >> (32 * k + e). */
  function RightLimb(a: seq<nat>, k: nat, e: nat, m: nat): nat
    requires e < 32
  {
    if m + k >= |a| then 0
    else
      DivMod(a[m + k], Pow2(e));
      Div(a[m + k], Pow2(e)) + (if m + k + 1 == |a| then 0 else Up(a[m + k + 1], 32 - e))
  }

  lemma DownUp(x: nat, e: nat)
    requires x < U32 && e < 32
    ensures Mul(Up(x, 32 - e), Pow2(e)) == U32 * Mod(x, Pow2(e))
  {
    hide Mul, Div, Mod, Pow2, Up;
    UpOver(x, 32 - e);
    var r := Mod(x, Pow2(e));
    MulAssoc(r, Pow2(32 - e), Pow2(e));
    Complement(e);
    MulComm(r, U32);
    MulWord(1, r);
    MulSmall(r);
  }

  lemma {:induction false} RightVal(a: seq<nat>, k: nat, e: nat, r: seq<nat>, i: nat)
    requires AreLimbs(a) && e < 32 && |r| == |a| && i + k <= |a| && i > 0
    requires forall m :: 0 <= m < |r| ==> r[m] == RightLimb(a, k, e, m)
    ensures Mul(Val(r[..i]), Pow2(e)) + Mod(a[k], Pow2(e)) ==
            Val(a[k..][..i]) + Mul(if i + k == |a| then 0 else Mod(a[i + k], Pow2(e)), Unit(i))
    decreases i
  {
    hide Mul, Div, Mod, Pow2, Unit, Val, Up;
    var m, s := i - 1, Pow2(e);
    ValPush(r, m);
    ValPush(a[k..], m);
    UnitNext(m);
    var x, u := a[k + m], Unit(m);
    var c := if i + k == |a| then 0 else Mod(a[i + k], s);
    var up := if i + k == |a| then 0 else Up(a[i + k], 32 - e);
    if i + k < |a| {
      DownUp(a[i + k], e);
    } else {
      MulSmall(s);
    }
    assert Mul(up, s) == U32 * c;
    DivMod(x, s);
    MulAdd(Val(r[..m]), Mul(r[m], u), s);
    MulSwap(r[m], u, s);
    MulAdd(Div(x, s), up, s);
    assert Mul(r[m], s) == x - Mod(x, s) + U32 * c;
    MulAdd(x - Mod(x, s), U32 * c, u);
    MulSub(x, Mod(x, s), u);
    MulWord(c, u);
    if m > 0 {
      RightVal(a, k, e, r, m);
    } else {
      ValZero(r[..0]);
      ValZero(a[k..][..0]);
      MulSmall(s);
      UnitZero();
      MulSmall(Mod(x, s));
    }
  }

  lemma UnitZero()
    ensures Unit(0) == 1
  {
  }

  lemma RightIsQuotient(a: seq<nat>, shift: nat, r: seq<nat>)
    requires AreLimbs(a) && |r| == |a|
    requires forall m :: 0 <= m < |r| ==> r[m] == RightLimb(a, shift / 32, shift % 32, m)
    ensures Val(r) == Div(Val(a), Pow2(shift))
  {
    hide Mul, Div, Mod, Pow2, Unit, Val, RightLimb;
    var n, k, e := |a|, shift / 32, shift % 32;
    ShiftUnit(shift);
    if k >= n {
      RightIsZero(a, k, e, r);
    } else {
      RightIsPart(a, k, e, r);
      MulComm(Pow2(e), Unit(k));
      DividedTwice(Val(a), Unit(k), Pow2(e));
    }
  }

  lemma RightIsZero(a: seq<nat>, k: nat, e: nat, r: seq<nat>)
    requires AreLimbs(a) && |r| == |a| <= k && e < 32
    requires forall m :: 0 <= m < |r| ==> r[m] == RightLimb(a, k, e, m)
    ensures Val(r) == 0 && Mul(Pow2(e), Unit(k)) > 0 && Div(Val(a), Mul(Pow2(e), Unit(k))) == 0
  {
    hide Mul, Div, Mod, Pow2, Unit, Val, Up;
    var n, p := |a|, Mul(Pow2(e), Unit(k));
    ValZero(r);
    ValBound(a);
    UnitAdd(k - n, n);
    MulLess(0, Unit(k - n), Unit(n));
    MulLess(0, Pow2(e), Unit(k));
    MulSmall(Unit(n));
    MulSmall(Unit(k));
    MulSmall(p);
    Divided(Val(a), p, 0, Val(a));
  }

  lemma RightIsPart(a: seq<nat>, k: nat, e: nat, r: seq<nat>)
    requires AreLimbs(a) && |r| == |a| && k < |a| && e < 32
    requires forall m :: 0 <= m < |r| ==> r[m] == RightLimb(a, k, e, m)
    ensures Val(r) == Div(Div(Val(a), Unit(k)), Pow2(e))
  {
    hide Mul, Div, Mod, Pow2, Unit, Val, Up;
    var i := |a| - k;
    RightVal(a, k, e, r, i);
    ValSplit(a, k);
    ValBound(a[..k]);
    ValAll(a[k..]);
    MulSmall(Unit(i));
    DivMod(a[k], Pow2(e));
    Divided(Val(a), Unit(k), Val(a[k..]), Val(a[..k]));
    Divided(Val(a[k..]), Pow2(e), Val(r[..i]), Mod(a[k], Pow2(e)));
    ValSplit(r, i);
    ValZero(r[i..]);
  }
}
