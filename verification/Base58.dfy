/** Powers of any base, and the digit counts that the buffers of src/base58.cpp rely on. */
module Powers {
  import opened Bits
  import opened Common

  function Pow(b: nat, e: nat): nat {
    if e == 0 then 1
    else
      MulSign(b, Pow(b, e - 1));
      Mul(b, Pow(b, e - 1))
  }

  lemma {:induction false} PowAdd(b: nat, x: nat, y: nat)
    ensures Pow(b, x + y) == Mul(Pow(b, x), Pow(b, y))
    decreases x
  {
    hide Mul;
    if x == 0 {
      MulSmall(Pow(b, y));
    } else {
      PowAdd(b, x - 1, y);
      MulAssoc(b, Pow(b, x - 1), Pow(b, y));
    }
  }

  lemma {:induction false} PowMul(b: nat, x: nat, y: nat)
    ensures Mul(x, y) >= 0 && Pow(Pow(b, x), y) == Pow(b, Mul(x, y))
    decreases y
  {
    hide Mul;
    MulSmall(x);
    if y > 0 {
      PowMul(b, x, y - 1);
      PowAdd(b, x, Mul(x, y - 1));
      MulAdd(y - 1, 1, x);
    }
  }

  lemma {:induction false} PowPositive(b: nat, e: nat)
    requires b > 0
    ensures Pow(b, e) > 0
  {
    hide Mul;
    if e > 0 {
      PowPositive(b, e - 1);
      MulLess(0, b, Pow(b, e - 1));
      MulSmall(Pow(b, e - 1));
    }
  }

  lemma {:induction false} PowMono(a: nat, b: nat, e: nat)
    requires a <= b
    ensures Pow(a, e) <= Pow(b, e)
  {
    hide Mul;
    if e > 0 {
      PowMono(a, b, e - 1);
      Products(a, b, Pow(a, e - 1), Pow(b, e - 1));
    }
  }

  lemma Products(a: nat, b: nat, x: nat, y: nat)
    requires a <= b && x <= y
    ensures Mul(a, x) <= Mul(b, y)
  {
    hide Mul;
    MulSub(b, a, x);
    MulSign(b - a, x);
    MulSub(y, x, b);
    MulSign(y - x, b);
    MulComm(y, b);
    MulComm(x, b);
  }

  lemma {:induction false} PowLess(b: nat, x: nat, y: nat)
    requires b >= 2 && x < y
    ensures Pow(b, x) < Pow(b, y)
    decreases y
  {
    hide Mul;
    PowPositive(b, y - 1);
    MulLess(1, b, Pow(b, y - 1));
    MulSmall(Pow(b, y - 1));
    if x < y - 1 {
      PowLess(b, x, y - 1);
    }
  }

  /** When a^q <= b^p, then n digits of base a fit in m digits of base b as soon as m / n > p / q. */
  lemma DigitsFit(a: nat, b: nat, p: nat, q: nat, n: nat, m: nat)
    requires b >= 2 && Pow(a, q) <= Pow(b, p) && Mul(p, n) < Mul(q, m)
    ensures Pow(a, n) < Pow(b, m)
  {
    hide Mul, Pow;
    PowMul(a, n, q);
    PowMul(a, q, n);
    PowMul(b, p, n);
    PowMul(b, m, q);
    MulComm(n, q);
    MulComm(m, q);
    PowMono(Pow(a, q), Pow(b, p), n);
    PowLess(b, Mul(p, n), Mul(q, m));
    if Pow(b, m) <= Pow(a, n) {
      PowMono(Pow(b, m), Pow(a, n), q);
    }
  }

  lemma PowStep(b: nat, x: nat, v: nat, y: nat, w: nat)
    requires Pow(b, x) == v && Pow(b, y) == w
    ensures Pow(b, x + y) == v * w
  {
    hide Pow;
    PowAdd(b, x, y);
  }

  lemma Pow58()
    ensures Pow(58, 1) == 58 && Pow(58, 2) == 3364 && Pow(58, 4) == 11316496 && Pow(58, 8) == 0x7479_027e_a100
    ensures Pow(58, 6) == 38068692544
  {
    assert Pow(58, 0) == 1;
    PowStep(58, 1, 58, 1, 58);
    PowStep(58, 2, 3364, 2, 3364);
    PowStep(58, 4, 11316496, 4, 11316496);
    PowStep(58, 4, 11316496, 2, 3364);
  }

  /** 58^71 <= 256^52, the fraction that 733 / 1000 exceeds. */
  lemma Narrow58()
    ensures Pow(58, 71) <= Pow(256, 52)
  {
    hide Pow;
    Pow58();
    var v8 := 0x7479_027e_a100;
    PowStep(58, 8, v8, 8, v8);
    PowStep(58, 16, v8 * v8, 16, v8 * v8);
    PowStep(58, 32, v8 * v8 * (v8 * v8), 32, v8 * v8 * (v8 * v8));
    PowStep(58, 4, 11316496, 2, 3364);
    PowStep(58, 6, 38068692544, 1, 58);
    PowStep(58, 64, v8 * v8 * (v8 * v8) * (v8 * v8 * (v8 * v8)), 7, 38068692544 * 58);
    Pow256Values();
  }

  lemma Pow256Values()
    ensures Pow(256, 4) == U32 && Pow(256, 5) == 0x100_0000_0000
    ensures Pow(256, 8) == U64
    ensures Pow(256, 52) == U64 * U64 * U64 * U64 * U64 * U64 * U32
  {
    assert Pow(256, 0) == 1;
    assert Pow(256, 1) == 256;
    assert Pow(256, 2) == 0x1_0000;
    PowStep(256, 2, 0x1_0000, 2, 0x1_0000);
    PowStep(256, 4, U32, 1, 256);
    PowStep(256, 4, U32, 4, U32);
    PowStep(256, 8, U64, 8, U64);
    PowStep(256, 16, U64 * U64, 16, U64 * U64);
    PowStep(256, 32, Pow(256, 32), 16, Pow(256, 16));
    PowStep(256, 48, Pow(256, 48), 4, U32);
  }

  /** A fraction holds for its multiples and sums. */
  lemma Ratio(a: nat, b: nat, q: nat, p: nat, k: nat, q': nat, p': nat)
    requires Pow(a, q) <= Pow(b, p) && Pow(a, q') <= Pow(b, p')
    ensures Mul(q, k) >= 0 && Mul(p, k) >= 0 && Pow(a, Mul(q, k) + q') <= Pow(b, Mul(p, k) + p')
  {
    hide Mul, Pow;
    PowMul(a, q, k);
    PowMul(b, p, k);
    PowMono(Pow(a, q), Pow(b, p), k);
    PowAdd(a, Mul(q, k), q');
    PowAdd(b, Mul(p, k), p');
    Products(Pow(a, Mul(q, k)), Pow(b, Mul(p, k)), Pow(a, q'), Pow(b, p'));
  }

  /** n base-58 digits fit in n * 733 / 1000 + 1 bytes (src/base58.cpp:54). */
  lemma Decodes(n: nat)
    ensures Pow(58, n) < Pow(256, n * 733 / 1000 + 1)
  {
    hide Pow;
    Narrow58();
    Pow58();
    Pow256Values();
    Ratio(58, 256, 71, 52, 14, 6, 5);
    DigitsFit(58, 256, 733, 1000, n, n * 733 / 1000 + 1);
  }

  /** n bytes fit in n * 138 / 100 + 1 base-58 digits (src/base58.cpp:106). */
  lemma Encodes(n: nat)
    ensures Pow(256, n) < Pow(58, n * 138 / 100 + 1)
  {
    hide Pow;
    Pow58();
    Pow256Values();
    PowStep(58, 8, 0x7479_027e_a100, 2, 3364);
    PowStep(58, 10, 0x7479_027e_a100 * 3364, 1, 58);
    Ratio(256, 58, 8, 11, 12, 4, 6);
    DigitsFit(256, 58, 138, 100, n, n * 138 / 100 + 1);
  }
}

module Base58Spec {
  import opened Bits
  import opened Common
  import opened Powers

  // ---------- Numbers as digits, the most significant first ----------

  ghost predicate AreDigits(base: nat, s: seq<nat>) {
    forall i :: 0 <= i < |s| ==> s[i] < base
  }

  function Val(base: nat, s: seq<nat>): nat {
    if s == [] then 0
    else
      MulSign(base, Val(base, s[..|s| - 1]));
      Mul(base, Val(base, s[..|s| - 1])) + s[|s| - 1]
  }

  /** Front digits and back digits. */
  lemma {:induction false} ValAppend(base: nat, a: seq<nat>, b: seq<nat>)
    ensures Val(base, a + b) == Mul(Val(base, a), Pow(base, |b|)) + Val(base, b)
    decreases |b|
  {
    hide Mul;
    if b == [] {
      assert a + b == a;
      MulSmall(Val(base, a));
    } else {
      var n := |b| - 1;
      assert (a + b)[..|a| + n] == a + b[..n];
      ValAppend(base, a, b[..n]);
      MulAdd(Mul(Val(base, a), Pow(base, n)), Val(base, b[..n]), base);
      MulComm(base, Pow(base, n));
      MulAssoc(Val(base, a), Pow(base, n), base);
      MulComm(base, Mul(Val(base, a), Pow(base, n)));
    }
  }

  lemma {:induction false} ValZero(base: nat, s: seq<nat>)
    requires forall i :: 0 <= i < |s| ==> s[i] == 0
    ensures Val(base, s) == 0
  {
    hide Mul;
    if s != [] {
      ValZero(base, s[..|s| - 1]);
      MulSmall(base);
    }
  }

  lemma {:induction false} ValBound(base: nat, s: seq<nat>)
    requires base > 0 && AreDigits(base, s)
    ensures Val(base, s) < Pow(base, |s|)
  {
    hide Mul;
    if s != [] {
      var n := |s| - 1;
      ValBound(base, s[..n]);
      MulLess(Val(base, s[..n]), Pow(base, n), base);
      MulComm(base, Val(base, s[..n]));
      MulComm(base, Pow(base, n));
    }
  }

  /** No digit is zero at the front. */
  ghost predicate Minimal(base: nat, s: seq<nat>) {
    AreDigits(base, s) && (s != [] ==> s[0] != 0)
  }

  lemma {:induction false} ValPositive(base: nat, s: seq<nat>)
    requires base > 0 && Minimal(base, s) && s != []
    ensures Val(base, s) > 0
  {
    hide Mul;
    var n := |s| - 1;
    if n > 0 {
      ValPositive(base, s[..n]);
      MulLess(0, base, Val(base, s[..n]));
      MulSmall(Val(base, s[..n]));
    } else {
      MulSmall(base);
    }
  }

  /** A number has one minimal form. */
  lemma {:induction false} MinimalIsOne(base: nat, s: seq<nat>, t: seq<nat>)
    requires base >= 2 && Minimal(base, s) && Minimal(base, t) && Val(base, s) == Val(base, t)
    ensures s == t
    decreases |s|
  {
    hide Mul, Div, Mod;
    if s == [] {
      if t != [] {
        ValPositive(base, t);
      }
    } else if t == [] {
      ValPositive(base, s);
    } else {
      var n, m := |s| - 1, |t| - 1;
      MulComm(base, Val(base, s[..n]));
      MulComm(base, Val(base, t[..m]));
      Divided(Val(base, s), base, Val(base, s[..n]), s[n]);
      Divided(Val(base, t), base, Val(base, t[..m]), t[m]);
      MinimalIsOne(base, s[..n], t[..m]);
      assert s == s[..n] + [s[n]] && t == t[..m] + [t[m]];
    }
  }

  /** The minimal digits of a number. */
  function Digits(base: nat, v: nat): seq<nat>
    requires base >= 2
    decreases v
  {
    if v == 0 then []
    else
      Smaller(base, v);
      Digits(base, Div(v, base)) + [Mod(v, base)]
  }

  lemma Smaller(base: nat, v: nat)
    requires base >= 2 && v > 0
    ensures 0 <= Div(v, base) < v && 0 <= Mod(v, base) < base && v == Mul(base, Div(v, base)) + Mod(v, base)
  {
    hide Mul, Div, Mod;
    DivMod(v, base);
    MulComm(base, Div(v, base));
    MulSmall(Div(v, base));
    if Div(v, base) > 0 {
      MulLess(1, base, Div(v, base));
    }
  }

  lemma {:induction false} DigitsAre(base: nat, v: nat)
    requires base >= 2
    ensures Minimal(base, Digits(base, v)) && Val(base, Digits(base, v)) == v
    decreases v
  {
    hide Mul, Div, Mod;
    if v != 0 {
      Smaller(base, v);
      var front := Digits(base, Div(v, base));
      DigitsAre(base, Div(v, base));
      var s := Digits(base, v);
      assert s[..|s| - 1] == front;
      MulSmall(base);
    }
  }

  lemma DigitsOf(base: nat, s: seq<nat>)
    requires base >= 2 && Minimal(base, s)
    ensures Digits(base, Val(base, s)) == s
  {
    DigitsAre(base, Val(base, s));
    MinimalIsOne(base, s, Digits(base, Val(base, s)));
  }

  function Repeat<T>(x: T, n: nat): (r: seq<T>)
    ensures |r| == n && forall i :: 0 <= i < n ==> r[i] == x
  {
    seq(n, i => x)
  }

  // ---------- Characters ----------

  /** The alphabet of src/base58.cpp:20-21: digits without 0, capitals without I and O, small letters
      without l. */
  function Symbol(d: nat): char
    requires d < 58
  {
    if d < 9 then (d + 49) as char
    else if d < 17 then (d + 56) as char
    else if d < 22 then (d + 57) as char
    else if d < 33 then (d + 58) as char
    else if d < 44 then (d + 64) as char
    else (d + 65) as char
  }

  function IsSpace(c: char): bool {
    c == ' ' || 9 <= c as int <= 13
  }

  /** The table of src/base58.cpp:22-37. */
  function DigitOf(c: char): (r: int)
    ensures -1 <= r < 58
  {
    if '1' <= c <= '9' then c as int - '1' as int
    else if 'A' <= c <= 'H' then c as int - 'A' as int + 9
    else if 'J' <= c <= 'N' then c as int - 'J' as int + 17
    else if 'P' <= c <= 'Z' then c as int - 'P' as int + 22
    else if 'a' <= c <= 'k' then c as int - 'a' as int + 33
    else if 'm' <= c <= 'z' then c as int - 'm' as int + 44
    else -1
  }

  /** The symbols rise with their digits, and are all digits and letters but 0, O, I and l
      (src/base58.cpp:19-21). */
  lemma AlphabetIs(c: char)
    ensures forall d, e :: 0 <= d < e < 58 ==> Symbol(d) < Symbol(e)
    ensures DigitOf(c) >= 0 <==>
            ('0' <= c <= '9' || 'A' <= c <= 'Z' || 'a' <= c <= 'z') && c != '0' && c != 'O' && c != 'I' && c != 'l'
    ensures DigitOf(c) >= 0 ==> Symbol(DigitOf(c)) == c
  {
  }

  /** The table inverts the alphabet. */
  lemma SymbolInverts(d: nat)
    requires d < 58
    ensures DigitOf(Symbol(d)) == d && !IsSpace(Symbol(d)) && Symbol(d) as int != 0 && (Symbol(d) == '1' <==> d == 0)
  {
  }

  lemma DigitInverts(c: char)
    ensures DigitOf(c) >= 0 ==> Symbol(DigitOf(c)) == c
    ensures DigitOf(c) == 0 <==> c == '1'
  {
  }

  function IsOne(c: char): bool { c == '1' }

  function NotSpace(c: char): bool { !IsSpace(c) }

  /** The first position from i on whose character does not have the property. */
  function Skip(s: string, i: nat, p: char -> bool): (r: nat)
    requires i <= |s|
    ensures i <= r <= |s| && (forall j :: i <= j < r ==> p(s[j])) && (r < |s| ==> !p(s[r]))
    decreases |s| - i
  {
    if i < |s| && p(s[i]) then Skip(s, i + 1, p) else i
  }

  lemma SkipIs(s: string, i: nat, p: char -> bool, r: nat)
    requires i <= r <= |s| && (forall j :: i <= j < r ==> p(s[j])) && (r < |s| ==> !p(s[r]))
    ensures Skip(s, i, p) == r
  {
    var q := Skip(s, i, p);
    assert !(q < r) && !(r < q);
  }

  /** How many zero bytes there are at the front. */
  function Zeroes(v: seq<nat>): (z: nat)
    ensures z <= |v| && (forall i :: 0 <= i < z ==> v[i] == 0) && (z < |v| ==> v[z] != 0)
  {
    if v != [] && v[0] == 0 then 1 + Zeroes(v[1..]) else 0
  }

  lemma ZeroesAre(v: seq<nat>, z: nat)
    requires z <= |v| && (forall i :: 0 <= i < z ==> v[i] == 0) && (z < |v| ==> v[z] != 0)
    ensures Zeroes(v) == z
  {
    var y := Zeroes(v);
    assert !(y < z) && !(z < y);
  }

  function Spell(ds: seq<nat>): (r: string)
    requires AreDigits(58, ds)
    ensures |r| == |ds| && forall i :: 0 <= i < |r| ==> r[i] == Symbol(ds[i])
  {
    seq(|ds|, i requires 0 <= i < |ds| => Symbol(ds[i]))
  }

  ghost predicate Spells(w: string) {
    forall i :: 0 <= i < |w| ==> DigitOf(w[i]) >= 0
  }

  function Read(w: string): (r: seq<nat>)
    requires Spells(w)
    ensures |r| == |w| && forall i :: 0 <= i < |r| ==> r[i] == DigitOf(w[i])
  {
    seq(|w|, i requires 0 <= i < |w| => DigitOf(w[i]))
  }

  /** What EncodeBase58 returns: a 1 for every zero byte at the front, then the number in base 58. */
  function Encoded(v: seq<nat>): string {
    DigitsAre(58, Val(256, v));
    Repeat('1', Zeroes(v)) + Spell(Digits(58, Val(256, v)))
  }

  /** The bytes of so many ones and a word: a zero byte for every one, then the number in base 256. */
  ghost function BytesOf(ones: nat, w: string): seq<nat>
    requires Spells(w)
  {
    Repeat(0, ones) + Digits(256, Val(58, Read(w)))
  }

  /** What DecodeBase58 returns. */
  ghost function Decoded(s: string, max: nat): Option<seq<nat>> {
    if '\0' in s then None
    else
      var from := Skip(s, 0, IsSpace);
      var ones := Skip(s, from, IsOne);
      var end := Skip(s, ones, NotSpace);
      var w := s[ones..end];
      if !Spells(w) || Skip(s, end, IsSpace) != |s| then None
      else
        var v := BytesOf(ones - from, w);
        if |v| > max then None else Some(v)
  }

  lemma ValSkipsZeroes(v: seq<nat>, z: nat)
    requires z <= |v| && forall i :: 0 <= i < z ==> v[i] == 0
    ensures Val(256, v) == Val(256, v[z..])
  {
    hide Mul, Pow, Val;
    assert v == v[..z] + v[z..];
    ValAppend(256, v[..z], v[z..]);
    ValZero(256, v[..z]);
    MulSmall(Pow(256, |v[z..]|));
  }

  /** Where the parts of an encoded byte string begin. */
  lemma EncodedParts(v: seq<nat>)
    requires AreDigits(256, v)
    ensures var s, z := Encoded(v), Zeroes(v);
            && AreDigits(58, Digits(58, Val(256, v)))
            && '\0' !in s && Skip(s, 0, IsSpace) == 0 && Skip(s, 0, IsOne) == z <= |s|
            && Skip(s, z, NotSpace) == |s| && s[z..] == Spell(Digits(58, Val(256, v)))
            && Digits(256, Val(256, v)) == v[z..]
  {
    hide Val, Symbol, Digits;
    var s, z, n := Encoded(v), Zeroes(v), Val(256, v);
    DigitsAre(58, n);
    var ds := Digits(58, n);
    forall i | 0 <= i < |s| ensures !IsSpace(s[i]) && s[i] != '\0' && (s[i] == '1' <==> i < z || ds[i - z] == 0) {
      if i >= z {
        SymbolInverts(ds[i - z]);
        assert s[i] == Symbol(ds[i - z]);
      } else {
        assert s[i] == '1';
      }
    }
    SkipIs(s, 0, IsSpace, 0);
    SkipIs(s, 0, IsOne, z);
    SkipIs(s, z, NotSpace, |s|);
    ValSkipsZeroes(v, z);
    DigitsOf(256, v[z..]);
  }

  /** Decoding an encoded byte string gives it back, when it is within the length limit; otherwise
      decoding fails. */
  lemma DecodeEncoded(v: seq<nat>, max: nat)
    requires AreDigits(256, v)
    ensures Decoded(Encoded(v), max) == if |v| <= max then Some(v) else None
  {
    hide Val, Symbol, Digits, Encoded;
    var s, z, n := Encoded(v), Zeroes(v), Val(256, v);
    EncodedParts(v);
    var ds := Digits(58, n);
    DigitsAre(58, n);
    var w := s[z..|s|];
    forall i | 0 <= i < |w| ensures DigitOf(w[i]) == ds[i] {
      SymbolInverts(ds[i]);
    }
    assert Read(w) == ds;
    SkipIs(s, |s|, IsSpace, |s|);
    assert Repeat(0, z) + v[z..] == v;
  }

  /** Where the first word of a string begins and where it ends. */
  function Begin(s: string): nat { Skip(s, 0, IsSpace) }

  function End(s: string): nat { Skip(s, Begin(s), NotSpace) }

  /** Encoding what a string decodes to gives back its only word: around it there are only spaces. */
  lemma EncodeDecoded(s: string, max: nat)
    requires Decoded(s, max).Some?
    ensures Begin(s) <= End(s) <= |s| && Encoded(Decoded(s, max).value) == s[Begin(s)..End(s)]
    ensures forall i :: 0 <= i < Begin(s) || End(s) <= i < |s| ==> IsSpace(s[i])
  {
    hide BytesOf, Encoded, Spells, Decoded, IsSpace, Begin, End;
    var ones := DecodedParts(s, max);
    OnesFirst(s, Begin(s), ones, End(s));
  }

  lemma DecodedParts(s: string, max: nat) returns (ones: nat)
    requires Decoded(s, max).Some?
    ensures Begin(s) <= ones <= End(s) <= |s| && Spells(s[ones..End(s)]) && (ones < End(s) ==> s[ones] != '1')
    ensures forall j :: Begin(s) <= j < ones ==> s[j] == '1'
    ensures forall i :: 0 <= i < Begin(s) || End(s) <= i < |s| ==> IsSpace(s[i])
    ensures Decoded(s, max).value == BytesOf(ones - Begin(s), s[ones..End(s)])
  {
    hide BytesOf, Spells;
    ones := Skip(s, Begin(s), IsOne);
    OnesAreNoSpaces(s, Begin(s));
  }

  lemma OnesAreNoSpaces(s: string, from: nat)
    requires from <= |s|
    ensures Skip(s, Skip(s, from, IsOne), NotSpace) == Skip(s, from, NotSpace)
  {
    var ones := Skip(s, from, IsOne);
    SkipIs(s, from, NotSpace, Skip(s, ones, NotSpace));
  }

  lemma OnesFirst(s: string, from: nat, ones: nat, end: nat)
    requires from <= ones <= end <= |s| && forall j :: from <= j < ones ==> s[j] == '1'
    requires Spells(s[ones..end]) && (ones < end ==> s[ones] != '1')
    ensures Encoded(BytesOf(ones - from, s[ones..end])) == s[from..end]
  {
    hide Repeat, Encoded, BytesOf, Spells;
    Respelled(s[ones..end], ones - from);
    assert Repeat('1', ones - from) == s[from..ones];
    assert s[from..ones] + s[ones..end] == s[from..end];
  }

  /** In particular a string without spaces comes back whole. */
  lemma EncodeDecodedWord(s: string, max: nat)
    requires Decoded(s, max).Some? && forall i :: 0 <= i < |s| ==> !IsSpace(s[i])
    ensures Encoded(Decoded(s, max).value) == s
  {
    hide Decoded, Encoded;
    EncodeDecoded(s, max);
    SkipIs(s, 0, IsSpace, 0);
    SkipIs(s, 0, NotSpace, |s|);
  }

  lemma Respelled(w: string, z: nat)
    requires Spells(w) && (w != [] ==> w[0] != '1')
    ensures Encoded(BytesOf(z, w)) == Repeat('1', z) + w
  {
    hide Val, Symbol, Digits;
    var ds := Read(w);
    var n := Val(58, ds);
    var v := Repeat(0, z) + Digits(256, n);
    if w != [] {
      DigitInverts(w[0]);
    }
    DigitsOf(58, ds);
    DigitsAre(256, n);
    ZeroesAre(v, z);
    ValSkipsZeroes(v, z);
    assert v[z..] == Digits(256, n);
    forall i | 0 <= i < |w| ensures Symbol(ds[i]) == w[i] {
      DigitInverts(w[i]);
    }
    assert Spell(ds) == w;
  }
}

module Base58 {
  import opened Bits
  import opened Common
  import opened Powers
  import opened Base58Spec

  /** The buffer holds the number in its last length digits, without a zero in front of them. */
  ghost predicate Holds(base: nat, s: seq<nat>, length: nat, v: nat) {
    && AreDigits(base, s) && length <= |s| && Val(base, s) == v
    && (forall j :: 0 <= j < |s| - length ==> s[j] == 0)
    && (length > 0 ==> s[|s| - length] != 0)
  }

  /** The carry loops of src/base58.cpp:66-74 and 111-121: the number in the buffer is multiplied and
      added to in place. It fits, so the assertion that no carry is left holds. */
  method Accumulate(b: array<nat>, base: nat, factor: nat, add: nat, length: nat, ghost v: nat) returns (newLength: nat)
    requires base >= 2 && factor >= 1 && Holds(base, b[..], length, v)
    requires Mul(factor, v) + add < Pow(base, b.Length)
    modifies b
    ensures Holds(base, b[..], newLength, Mul(factor, v) + add)
  {
    hide Val, Pow, Mul, Div, Mod;
    ghost var before := b[..];
    var carry: nat, i: nat := add, 0;
    AccStart(b[..], base, factor, add);
    while (carry != 0 || i < length) && i < b.Length
      invariant i <= b.Length && AreDigits(base, b[..])
      invariant forall j :: 0 <= j < b.Length - i ==> b[j] == before[j]
      invariant i > 0 && carry == 0 && i >= length ==> b[b.Length - i] != 0
      invariant Val(base, b[..][b.Length - i..]) + Mul(carry, Pow(base, i)) ==
                Mul(factor, Val(base, before[b.Length - i..])) + add
    {
      ghost var s := b[..];
      var at := b.Length - 1 - i;
      var t: nat := Carried(carry, factor, b[at]);
      AccStep(s, before, base, factor, add, i, carry, t);
      AccTop(carry, factor, b[at], base, t);
      var low: nat := Mod(t, base);
      b[at] := low;
      assert b[..] == s[at := low];
      carry := Div(t, base);
      i := i + 1;
    }
    AccDone(b[..], before, base, factor, add, i, carry, length, v);
    assert carry == 0;
    newLength := i;
  }

  function Carried(carry: nat, factor: nat, d: nat): nat {
    MulSign(factor, d);
    carry + Mul(factor, d)
  }

  lemma AccStart(s: seq<nat>, base: nat, factor: nat, add: nat)
    ensures Val(base, s[|s|..]) + Mul(add, Pow(base, 0)) == Mul(factor, Val(base, s[|s|..])) + add
  {
  }

  lemma AccStep(s: seq<nat>, before: seq<nat>, base: nat, factor: nat, add: nat, i: nat, carry: nat, t: nat)
    requires base >= 2 && i < |s| == |before| && AreDigits(base, s) && s[|s| - 1 - i] == before[|s| - 1 - i]
    requires t == Carried(carry, factor, before[|s| - 1 - i])
    requires Val(base, s[|s| - i..]) + Mul(carry, Pow(base, i)) == Mul(factor, Val(base, before[|s| - i..])) + add
    ensures 0 <= Mod(t, base) < base && Div(t, base) >= 0
    ensures var low: nat := Mod(t, base); var s' := s[|s| - 1 - i := low];
            && AreDigits(base, s')
            && Val(base, s'[|s| - 1 - i..]) + Mul(Div(t, base), Pow(base, i + 1)) ==
              Mul(factor, Val(base, before[|s| - 1 - i..])) + add
  {
    hide Val, Pow, Mul, Div, Mod;
    var at, p := |s| - 1 - i, Pow(base, i);
    DivMod(t, base);
    var lo: nat, hi: nat, d := Mod(t, base), Div(t, base), before[at];
    var s' := s[at := lo];
    assert s'[at + 1..] == s[at + 1..];
    ValFront(base, s', at);
    ValFront(base, before, at);
    PowNext(base, i);
    MulAdd(Mul(hi, base), lo, p);
    MulAssoc(hi, base, p);
    MulAdd(carry, Mul(factor, d), p);
    MulAdd(Mul(d, p), Val(base, before[at + 1..]), factor);
    MulAssoc(factor, d, p);
  }

  lemma PowNext(base: nat, i: nat)
    ensures Pow(base, i + 1) == Mul(base, Pow(base, i))
  {
  }

  lemma ValFront(base: nat, s: seq<nat>, at: nat)
    requires at < |s|
    ensures Val(base, s[at..]) == Mul(s[at], Pow(base, |s| - at - 1)) + Val(base, s[at + 1..])
  {
    hide Pow, Mul;
    assert s[at..] == [s[at]] + s[at + 1..];
    ValAppend(base, [s[at]], s[at + 1..]);
    MulSmall(base);
    assert Val(base, []) == 0;
  }

  /** A digit that is written without carry is not zero. */
  lemma AccTop(carry: nat, factor: nat, d: nat, base: nat, t: nat)
    requires base >= 2 && factor >= 1 && t == Carried(carry, factor, d)
    ensures (carry != 0 || d != 0) && Div(t, base) == 0 ==> Mod(t, base) != 0
  {
    hide Mul, Div, Mod;
    DivMod(t, base);
    MulSmall(base);
    MulSign(factor, d);
    if d != 0 {
      MulLess(0, factor, d);
      MulSmall(d);
    }
  }

  lemma AccDone(s: seq<nat>, before: seq<nat>, base: nat, factor: nat, add: nat, i: nat, carry: nat, length: nat,
                v: nat)
    requires base >= 2 && |s| == |before| && i <= |s| && AreDigits(base, s) && Holds(base, before, length, v)
    requires Mul(factor, v) + add < Pow(base, |s|)
    requires forall j :: 0 <= j < |s| - i ==> s[j] == before[j]
    requires i > 0 && carry == 0 && i >= length ==> s[|s| - i] != 0
    requires Val(base, s[|s| - i..]) + Mul(carry, Pow(base, i)) == Mul(factor, Val(base, before[|s| - i..])) + add
    requires (carry == 0 && i >= length) || i == |s|
    ensures carry == 0 && Holds(base, s, i, Mul(factor, v) + add)
  {
    hide Val, Pow, Mul;
    assert i >= length;
    Tail(base, s, i);
    Tail(base, before, i);
    if i == |s| && carry > 0 {
      MulLess(0, carry, Pow(base, i));
      MulSmall(Pow(base, i));
    }
    MulSmall(Pow(base, i));
  }

  lemma Tail(base: nat, s: seq<nat>, i: nat)
    requires i <= |s| && forall j :: 0 <= j < |s| - i ==> s[j] == 0
    ensures Val(base, s) == Val(base, s[|s| - i..])
  {
    hide Val, Pow, Mul;
    var z := |s| - i;
    assert s == s[..z] + s[z..];
    ValAppend(base, s[..z], s[z..]);
    ValZero(base, s[..z]);
    MulSmall(Pow(base, |s[z..]|));
  }

  lemma EmptyHolds(base: nat, s: seq<nat>)
    requires base >= 2 && forall j :: 0 <= j < |s| ==> s[j] == 0
    ensures Holds(base, s, 0, 0)
  {
    ValZero(base, s);
  }

  /** The digits in the buffer are the digits of the number. */
  lemma HoldsDigits(base: nat, s: seq<nat>, length: nat, v: nat)
    requires base >= 2 && Holds(base, s, length, v)
    ensures s[|s| - length..] == Digits(base, v)
  {
    hide Val, Digits;
    var t := s[|s| - length..];
    Tail(base, s, length);
    DigitsOf(base, t);
  }

  /** A prefix of digits stays below what the buffer can hold. */
  lemma Fits(from: nat, to: nat, ds: seq<nat>, k: nat, room: nat, total: nat)
    requires from >= 2 && k < |ds| <= total && AreDigits(from, ds) && Pow(from, total) < Pow(to, room)
    ensures Mul(from, Val(from, ds[..k])) + ds[k] == Val(from, ds[..k + 1]) < Pow(to, room)
  {
    hide Pow, Mul;
    var t := ds[..k + 1];
    assert t[..k] == ds[..k];
    ValBound(from, t);
    if k + 1 < total {
      PowLess(from, k + 1, total);
    }
  }

  lemma EncodedIs(v: seq<nat>, zeroes: nat)
    requires Zeroes(v) == zeroes
    ensures AreDigits(58, Digits(58, Val(256, v)))
    ensures Encoded(v) == Repeat('1', zeroes) + Spell(Digits(58, Val(256, v)))
  {
    hide Val, Digits, Symbol;
    DigitsAre(58, Val(256, v));
  }

  /** The loop over the bytes behind the zeroes (src/base58.cpp:106-123). */
  method Convert(v: seq<nat>, zeroes: nat) returns (b58: array<nat>, length: nat)
    requires AreDigits(256, v) && zeroes <= |v|
    ensures fresh(b58) && Holds(58, b58[..], length, Val(256, v[zeroes..]))
  {
    hide Val, Pow, Mul, Holds;
    ghost var ds := v[zeroes..];
    var size := (|v| - zeroes) * 138 / 100 + 1;
    Encodes(|ds|);
    b58 := new nat[size](i => 0);
    EmptyHolds(58, b58[..]);
    length := 0;
    var k := zeroes;
    assert ds[..0] == [] && Val(256, ds[..0]) == 0 by { NoDigits(); }
    while k < |v|
      invariant zeroes <= k <= |v| && Holds(58, b58[..], length, Val(256, ds[..k - zeroes]))
    {
      assert ds[k - zeroes] == v[k];
      Fits(256, 58, ds, k - zeroes, size, |ds|);
      length := Accumulate(b58, 58, 256, v[k], length, Val(256, ds[..k - zeroes]));
      k := k + 1;
    }
    assert ds[..k - zeroes] == ds;
  }

  /** src/base58.cpp:96-137 */
  method EncodeBase58(v: seq<nat>) returns (str: string)
    requires AreDigits(256, v)
    ensures str == Encoded(v)
  {
    hide Val, Symbol, Digits, Holds, Encoded;
    var zeroes := 0;
    while zeroes < |v| && v[zeroes] == 0
      invariant 0 <= zeroes <= |v| && forall i :: 0 <= i < zeroes ==> v[i] == 0
    {
      zeroes := zeroes + 1;
    }
    ZeroesAre(v, zeroes);
    var b58, length := Convert(v, zeroes);
    ValSkipsZeroes(v, zeroes);
    HoldsLength(58, b58[..], length, Val(256, v));
    HoldsDigits(58, b58[..], length, Val(256, v));
    EncodedIs(v, zeroes);
    var it := SkipZeroes(b58, b58.Length - length);
    var spelled := SpellFrom(b58, it);
    str := Repeat('1', zeroes) + spelled;
  }

  /** src/base58.cpp:124-128 */
  method SkipZeroes(b: array<nat>, from: nat) returns (it: nat)
    requires from <= b.Length
    ensures from <= it <= b.Length && (forall j :: from <= j < it ==> b[j] == 0) && (it < b.Length ==> b[it] != 0)
  {
    it := from;
    while it < b.Length && b[it] == 0
      invariant from <= it <= b.Length && forall j :: from <= j < it ==> b[j] == 0
    {
      it := it + 1;
    }
  }

  /** src/base58.cpp:133-135 */
  method SpellFrom(b: array<nat>, from: nat) returns (str: string)
    requires from <= b.Length && AreDigits(58, b[..][from..])
    ensures str == Spell(b[..][from..])
  {
    hide Symbol;
    str := "";
    var it := from;
    ghost var ds := b[..][from..];
    while it < b.Length
      invariant from <= it <= b.Length && str == Spell(ds)[..it - from]
    {
      assert b[it] == ds[it - from];
      str := str + [Symbol(b[it])];
      it := it + 1;
    }
    assert Spell(ds)[..it - from] == Spell(ds);
  }

  lemma NoDigits()
    ensures Val(256, []) == Val(58, []) == 0
  {
  }

  lemma HoldsLength(base: nat, s: seq<nat>, length: nat, v: nat)
    requires Holds(base, s, length, v)
    ensures length <= |s| && AreDigits(base, s) && (length > 0 ==> s[|s| - length] != 0)
  {
  }

  /** src/base58.cpp:39-94, behind the check of src/base58.cpp:143-148 for an embedded zero. */
  method DecodeBase58(str: string, max: nat) returns (r: Option<seq<nat>>)
    ensures r == Decoded(str, max)
  {
    hide Val, Pow, Mul, Digits, Holds, Spells, Read, Skip, DigitOf;
    if '\0' in str {
      return None;
    }
    var from := SkipWhile(str, 0, IsSpace);
    var ones := CountOnes(str, from, max);
    if ones > |str| {
      return None;
    }
    var ok, p, bytes := DecodeToken(str, ones, max - (ones - from));
    if !ok {
      return None;
    }
    var rest := SkipWhile(str, p, IsSpace);
    if rest != |str| {
      return None;
    }
    r := Some(Repeat(0, ones - from) + bytes);
  }

  /** The loop over the characters (src/base58.cpp:52-77), and the bytes that it leaves. */
  method DecodeToken(str: string, ones: nat, room: nat) returns (ok: bool, p: nat, bytes: seq<nat>)
    requires ones <= |str|
    ensures var end := Skip(str, ones, NotSpace);
            var w := str[ones..end];
            && (ok <==> Spells(w) && |Digits(256, Val(58, Read(w)))| <= room)
            && (ok ==> p == end && bytes == Digits(256, Val(58, Read(w))))
  {
    hide Val, Pow, Mul, Digits, Holds, Spells, Read, Skip, DigitOf;
    ghost var end := Skip(str, ones, NotSpace);
    var size := (|str| - ones) * 733 / 1000 + 1;
    Decodes(|str| - ones);
    var b256 := new nat[size](i => 0);
    EmptyHolds(256, b256[..]);
    var length: nat := 0;
    p := ones;
    NothingRead(str, ones);
    while p < |str| && !IsSpace(str[p])
      invariant ones <= p <= end && Spells(str[ones..p]) && length <= room
      invariant Holds(256, b256[..], length, Val(58, Read(str[ones..p])))
    {
      SkipInside(str, ones, p);
      var digit := DigitOf(str[p]);
      if digit == -1 {
        NotSpelled(str[ones..end], p - ones);
        return false, p, [];
      }
      OneMore(str, ones, p);
      ghost var ds := Read(str[ones..p + 1]);
      Fits(58, 256, ds, p - ones, size, |str| - ones);
      length := Accumulate(b256, 256, 58, digit, length, Val(58, Read(str[ones..p])));
      p := p + 1;
      if length > room {
        Overflows(str, ones, p, end, b256[..], length, room);
        return false, p, [];
      }
    }
    SkipIs(str, ones, NotSpace, p);
    HoldsLength(256, b256[..], length, Val(58, Read(str[ones..p])));
    HoldsDigits(256, b256[..], length, Val(58, Read(str[ones..p])));
    return true, p, b256[..][size - length..];
  }

  method SkipWhile(s: string, from: nat, property: char -> bool) returns (i: nat)
    requires from <= |s|
    ensures i == Skip(s, from, property)
  {
    i := from;
    while i < |s| && property(s[i])
      invariant from <= i <= |s| && forall j :: from <= j < i ==> property(s[j])
    {
      i := i + 1;
    }
    SkipIs(s, from, property, i);
  }

  /** src/base58.cpp:45-51. Past the end when there are more than max ones. */
  method CountOnes(s: string, from: nat, max: nat) returns (i: nat)
    requires from <= |s|
    ensures if Skip(s, from, IsOne) - from > max then i > |s| else i == Skip(s, from, IsOne)
  {
    i := from;
    while i < |s| && s[i] == '1'
      invariant from <= i <= |s| && i - from <= max && forall j :: from <= j < i ==> IsOne(s[j])
    {
      i := i + 1;
      if i - from > max {
        SkipAtLeast(s, from, IsOne, i);
        return |s| + 1;
      }
    }
    SkipIs(s, from, IsOne, i);
  }

  lemma SkipAtLeast(s: string, from: nat, property: char -> bool, i: nat)
    requires from <= i <= |s| && forall j :: from <= j < i ==> property(s[j])
    ensures Skip(s, from, property) >= i
  {
    assert !(Skip(s, from, property) < i);
  }

  lemma NothingRead(s: string, i: nat)
    requires i <= |s|
    ensures Spells(s[i..i]) && Val(58, Read(s[i..i])) == 0
  {
    NoDigits();
  }

  lemma SkipInside(s: string, ones: nat, p: nat)
    requires ones <= p < |s| && p <= Skip(s, ones, NotSpace) && !IsSpace(s[p])
    ensures p < Skip(s, ones, NotSpace)
  {
  }

  lemma NotSpelled(w: string, i: nat)
    requires i < |w| && DigitOf(w[i]) == -1
    ensures !Spells(w)
  {
  }

  lemma OneMore(s: string, ones: nat, p: nat)
    requires ones <= p < |s| && Spells(s[ones..p]) && DigitOf(s[p]) >= 0
    ensures Spells(s[ones..p + 1]) && AreDigits(58, Read(s[ones..p + 1])) && |Read(s[ones..p + 1])| == p + 1 - ones
    ensures Read(s[ones..p + 1])[..p - ones] == Read(s[ones..p]) && Read(s[ones..p + 1])[p - ones] == DigitOf(s[p])
    ensures Read(s[ones..p + 1])[..p + 1 - ones] == Read(s[ones..p + 1])
  {
    hide DigitOf;
    var w, w' := s[ones..p], s[ones..p + 1];
    forall i | 0 <= i < |w'| ensures DigitOf(w'[i]) >= 0 {
      assert i < |w| ==> w'[i] == w[i];
    }
  }

  /** Once a part of the word holds more bytes than there is room, so does the word. */
  lemma Overflows(str: string, ones: nat, p: nat, end: nat, b: seq<nat>, length: nat, room: nat)
    requires ones <= p <= end <= |str| && Spells(str[ones..p]) && length > room
    requires Holds(256, b, length, Val(58, Read(str[ones..p])))
    ensures !(Spells(str[ones..end]) && |Digits(256, Val(58, Read(str[ones..end])))| <= room)
  {
    hide Val, Digits, Holds, Read, Spells, DigitOf;
    HoldsLength(256, b, length, Val(58, Read(str[ones..p])));
    HoldsDigits(256, b, length, Val(58, Read(str[ones..p])));
    TooLong(str[ones..end], p - ones);
    assert str[ones..end][..p - ones] == str[ones..p];
  }

  /** A longer word never decodes to fewer bytes. */
  lemma TooLong(w: string, k: nat)
    requires k <= |w|
    ensures Spells(w) ==> Spells(w[..k]) && |Digits(256, Val(58, Read(w)))| >= |Digits(256, Val(58, Read(w[..k])))|
  {
    hide Val, Digits, DigitOf;
    if Spells(w) {
      var ds := Read(w);
      assert Read(w[..k]) == ds[..k];
      assert ds == ds[..k] + ds[k..];
      PrefixSmaller(ds, k);
      MoreDigits(256, Val(58, ds[..k]), Val(58, ds));
    }
  }

  lemma PrefixSmaller(ds: seq<nat>, k: nat)
    requires k <= |ds|
    ensures Val(58, ds[..k]) <= Val(58, ds)
  {
    hide Val, Pow, Mul;
    assert ds == ds[..k] + ds[k..];
    ValAppend(58, ds[..k], ds[k..]);
    var n := |ds| - k;
    PowPositive(58, n);
    MulSub(Pow(58, n), 1, Val(58, ds[..k]));
    MulSign(Pow(58, n) - 1, Val(58, ds[..k]));
    MulComm(Pow(58, n), Val(58, ds[..k]));
    MulSmall(Val(58, ds[..k]));
  }

  lemma {:induction false} MoreDigits(base: nat, v: nat, v': nat)
    requires base >= 2 && v <= v'
    ensures |Digits(base, v)| <= |Digits(base, v')|
    decreases v
  {
    hide Mul, Div, Mod;
    if v > 0 {
      Smaller(base, v);
      Smaller(base, v');
      DivMono(v, v', base);
      MoreDigits(base, Div(v, base), Div(v', base));
    }
  }
}
