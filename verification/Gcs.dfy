/** Golomb-coded sets (src/blockfilter.cpp:23-200), as in the "Golomb-Coded Sets" section of BIP 158. */
module GcsSpec {
  import opened Bits
  import opened BitStreamSpec
  import opened Common

  const MAX_SIZE: nat := 0x0200_0000

  // ---------- Compact sizes (src/serialize.h:400-455) ----------

  function LittleEndian(n: nat, k: nat): (r: seq<nat>)
    ensures |r| == k && forall i :: 0 <= i < k ==> r[i] < 0x100
  {
    if k == 0 then [] else [n % 0x100] + LittleEndian(n / 0x100, k - 1)
  }

  /** Byte i is digit i in base 256. */
  lemma {:induction false} LittleEndianAt(n: nat, k: nat, i: nat)
    requires i < k
    ensures Pow2(8 * i) > 0 && LittleEndian(n, k)[i] == n / Pow2(8 * i) % 0x100
    decreases i
  {
    if i == 0 {
      assert Pow2(0) == 1;
    } else {
      LittleEndianAt(n / 0x100, k - 1, i - 1);
      Pow2Add(8, 8 * (i - 1));
      assert 8 * i == 8 + 8 * (i - 1);
      Pow2Values();
      DivTwice(n, Pow2(8 * (i - 1)));
    }
  }

  lemma DivTwice(n: nat, p: nat)
    requires p > 0
    ensures n / 0x100 / p == n / (0x100 * p)
  {
    var q, r := n / 0x100 / p, n / 0x100 % p;
    assert n / 0x100 == p * q + r;
    assert n == 0x100 * (p * q + r) + n % 0x100;
    RawQuotient(n, 0x100 * p, q, 0x100 * r + n % 0x100);
  }

  lemma RawQuotient(x: nat, d: nat, q: nat, r: nat)
    requires d > 0 && x == d * q + r && r < d
    ensures x / d == q
  {
    hide Mul, Div, Mod;
    RawMul(d, q);
    Divided(x, d, q, r);
    RawDivision(x, d);
  }

  lemma RawMul(d: nat, q: nat)
    ensures d * q == Mul(q, d)
  {
  }

  lemma RawDivision(x: nat, d: nat)
    requires d > 0
    ensures x / d == Div(x, d)
  {
  }

  function FromLittleEndian(s: seq<nat>): nat {
    if s == [] then 0 else s[0] + 0x100 * FromLittleEndian(s[1..])
  }

  lemma {:induction false} LittleEndianInverts(n: nat, k: nat)
    requires n < Pow2(8 * k)
    ensures FromLittleEndian(LittleEndian(n, k)) == n
    decreases k
  {
    if k > 0 {
      Pow2Add(8 * (k - 1), 8);
      Pow2Values();
      LittleEndianInverts(n / 0x100, k - 1);
    }
  }

  function WriteCompactSize(n: nat): (r: seq<nat>)
    requires n < Pow2(64)
    ensures AreBytes(r)
  {
    if n < 253 then [n]
    else if n <= 0xffff then [253] + LittleEndian(n, 2)
    else if n <= 0xffff_ffff then [254] + LittleEndian(n, 4)
    else [255] + LittleEndian(n, 8)
  }

  /** The number and how many bytes it takes; none when there are too few bytes, the form is not the
      shortest or the number is above the limit. */
  function ReadCompactSize(s: seq<nat>): (r: Option<(nat, nat)>)
    ensures r.Some? ==> r.value.0 <= MAX_SIZE && r.value.1 <= |s|
  {
    if s == [] then None
    else
      var width := if s[0] < 253 then 0 else if s[0] == 253 then 2 else if s[0] == 254 then 4 else 8;
      if |s| < 1 + width then None
      else
        var n := if width == 0 then s[0] else FromLittleEndian(s[1..1 + width]);
        var least := if width == 0 then 0 else if width == 2 then 253 else if width == 4 then 0x1_0000 else U32;
        if n < least || n > MAX_SIZE then None else Some((n, 1 + width))
  }

  lemma {:induction false} FromLittleEndianInverts(s: seq<nat>)
    requires AreBytes(s)
    ensures FromLittleEndian(s) < Pow2(8 * |s|) && LittleEndian(FromLittleEndian(s), |s|) == s
    decreases |s|
  {
    if s != [] {
      FromLittleEndianInverts(s[1..]);
      Pow2Add(8, 8 * (|s| - 1));
      assert 8 * |s| == 8 + 8 * (|s| - 1);
      Pow2Values();
      BytePart(s[0], FromLittleEndian(s[1..]));
      ByteBelow(s[0], FromLittleEndian(s[1..]), Pow2(8 * (|s| - 1)));
      assert s == [s[0]] + s[1..];
    } else {
      assert Pow2(0) == 1;
    }
  }

  lemma BytePart(b: nat, n: nat)
    requires b < 0x100
    ensures (b + 0x100 * n) % 0x100 == b && (b + 0x100 * n) / 0x100 == n
  {
  }

  lemma ByteBelow(b: nat, n: nat, p: nat)
    requires b < 0x100 && n < p
    ensures b + 0x100 * n < Mul(0x100, p)
  {
  }

  /** Only the shortest form of a number within the limit is read, so that reading inverts writing. */
  lemma ReadInvertsWrite(s: seq<nat>)
    requires AreBytes(s)
    ensures var r := ReadCompactSize(s);
            r.Some? ==>
              && r.value.0 <= MAX_SIZE < Pow2(64) && |WriteCompactSize(r.value.0)| == r.value.1
              && s[..r.value.1] == WriteCompactSize(r.value.0)
  {
    hide Pow2, LittleEndian, FromLittleEndian;
    Pow2Values();
    var r := ReadCompactSize(s);
    if r.Some? {
      var width := r.value.1 - 1;
      if width > 0 {
        var body := s[1..1 + width];
        FromLittleEndianInverts(body);
        assert s[..1 + width] == [s[0]] + body;
      } else {
        assert s[..1] == [s[0]];
      }
    }
  }

  /** A written size reads back, unless it is above the limit: then it is refused. */
  lemma CompactSizeRoundTrip(n: nat, rest: seq<nat>)
    requires n < Pow2(64)
    ensures var r := ReadCompactSize(WriteCompactSize(n) + rest);
            if n <= MAX_SIZE then r.Some? && r.value.0 == n && r.value.1 == |WriteCompactSize(n)| else r.None?
  {
    hide Pow2, LittleEndian, FromLittleEndian;
    Pow2Values();
    if n >= 253 {
      var width := if n <= 0xffff then 2 else if n <= 0xffff_ffff then 4 else 8;
      LittleEndianInverts(n, width);
      Behind(253, LittleEndian(n, width), rest);
      Behind(254, LittleEndian(n, width), rest);
      Behind(255, LittleEndian(n, width), rest);
    }
  }

  lemma Behind(tag: nat, s: seq<nat>, rest: seq<nat>)
    ensures ([tag] + s + rest)[0] == tag && ([tag] + s + rest)[1..1 + |s|] == s
  {
  }

  // ---------- Golomb-Rice codes ----------

  function Ones(n: nat): (r: seq<bool>)
    ensures |r| == n && forall i :: 0 <= i < n ==> r[i]
  {
    seq(n, i => true)
  }

  /** q ones, a zero and the p low bits. */
  function Code(x: nat, p: nat): seq<bool> {
    DivMod(x, Pow2(p));
    Ones(Div(x, Pow2(p))) + [false] + BitsOf(x, p)
  }

  /** The quotient by 2^p in ones, a zero, and the remainder in p bits. */
  lemma CodeShape(x: nat, p: nat)
    ensures Pow2(p) > 0 && |Code(x, p)| == x / Pow2(p) + 1 + p
    ensures var q := x / Pow2(p);
            && (forall i :: 0 <= i < q ==> Code(x, p)[i]) && !Code(x, p)[q]
            && Num(Code(x, p)[q + 1..]) == x % Pow2(p)
  {
    var q := Div(x, Pow2(p));
    DivMod(x, Pow2(p));
    NumBits(x, p);
    assert Code(x, p)[q + 1..] == BitsOf(x, p);
    hide Pow2, BitsOf, Num, Ones;
  }

  function LeadingOnes(bits: seq<bool>): (r: nat)
    ensures r <= |bits| && (forall i :: 0 <= i < r ==> bits[i]) && (r < |bits| ==> !bits[r])
  {
    if bits != [] && bits[0] then 1 + LeadingOnes(bits[1..]) else 0
  }

  /** A decoded number, cut to 64 bits, and what is left. */
  function DecodeOne(bits: seq<bool>, p: nat): (r: Option<(nat, seq<bool>)>)
    ensures r.Some? ==> |r.value.1| < |bits|
  {
    var q := LeadingOnes(bits);
    if q + 1 + p > |bits| then None
    else
      MulSign(q, Pow2(p));
      Some(((Mul(q, Pow2(p)) + Num(bits[q + 1..q + 1 + p])) % (U32 * U32), bits[q + 1 + p..]))
  }

  lemma LeadingOnesAre(bits: seq<bool>, n: nat)
    requires n < |bits| && !bits[n] && forall i :: 0 <= i < n ==> bits[i]
    ensures LeadingOnes(bits) == n
  {
    var r := LeadingOnes(bits);
    assert !(r < n) && !(r > n);
  }

  lemma DecodeCode(x: nat, p: nat, rest: seq<bool>)
    requires x < U32 * U32
    ensures DecodeOne(Code(x, p) + rest, p) == Some((x, rest))
  {
    hide Mul, Div, Mod, Pow2, BitsOf, Num;
    DivMod(x, Pow2(p));
    var q := Div(x, Pow2(p));
    var bits := Code(x, p) + rest;
    LeadingOnesAre(bits, q);
    assert bits[q + 1..q + 1 + p] == BitsOf(x, p);
    assert bits[q + 1 + p..] == rest;
    NumBits(x, p);
  }

  /** n values from their differences, as running sums in 64 bits. */
  function DecodeValues(bits: seq<bool>, n: nat, value: nat, p: nat): (r: Option<(seq<nat>, seq<bool>)>)
    ensures r.Some? ==> |r.value.0| == n
    decreases n
  {
    if n == 0 then Some(([], bits))
    else
      match DecodeOne(bits, p)
      case None => None
      case Some((delta, rest)) =>
        var v := (value + delta) % (U32 * U32);
        match DecodeValues(rest, n - 1, v, p)
        case None => None
        case Some((vs, rest')) => Some(([v] + vs, rest'))
  }

  ghost predicate Ascending(s: seq<nat>) {
    forall i, j :: 0 <= i < j < |s| ==> s[i] <= s[j]
  }

  /** The codes of the differences of an ascending sequence. */
  function Codes(values: seq<nat>, last: nat, p: nat): seq<bool>
    requires Ascending(values) && (values != [] ==> last <= values[0])
  {
    if values == [] then []
    else Code(values[0] - last, p) + Codes(values[1..], values[0], p)
  }

  /** Decoding gives back exactly what was encoded. */
  lemma {:induction false} DecodeCodes(values: seq<nat>, last: nat, p: nat, rest: seq<bool>)
    requires Ascending(values) && (values != [] ==> last <= values[0])
    requires forall i :: 0 <= i < |values| ==> values[i] < U32 * U32
    ensures DecodeValues(Codes(values, last, p) + rest, |values|, last, p) == Some((values, rest))
    decreases |values|
  {
    hide Code, DecodeOne;
    if values == [] {
      assert Codes(values, last, p) + rest == rest;
    } else {
      var c, cs := Code(values[0] - last, p), Codes(values[1..], values[0], p);
      DecodeCode(values[0] - last, p, cs + rest);
      assert c + cs + rest == c + (cs + rest);
      DecodeCodes(values[1..], values[0], p, rest);
      DecodeStep(c + (cs + rest), |values|, last, p, values[0], cs + rest);
      assert [values[0]] + values[1..] == values;
    }
  }

  /** Decoding one value that is not below the last one, then the others. */
  lemma DecodeStep(bits: seq<bool>, n: nat, last: nat, p: nat, value: nat, rest: seq<bool>)
    requires n > 0 && last <= value < U32 * U32 && DecodeOne(bits, p) == Some((value - last, rest))
    ensures DecodeValues(bits, n, last, p) ==
            match DecodeValues(rest, n - 1, value, p)
            case None => None
            case Some((vs, rest')) => Some(([value] + vs, rest'))
  {
    hide DecodeOne;
    assert (last + (value - last)) % (U32 * U32) == value;
  }

  // ---------- Hashing into a range (src/blockfilter.cpp:54-85) ----------

  function MapIntoRange(x: nat, n: nat): (r: nat)
    requires x < U32 * U32
    ensures r <= n && (n > 0 ==> r < n)
  {
    MulSign(x, n);
    RangeBound(x, n);
    Mul(x, n) / (U32 * U32)
  }

  lemma RangeBound(x: nat, n: nat)
    requires x < U32 * U32
    ensures Mul(x, n) <= (U32 * U32) * n && (n > 0 ==> Mul(x, n) < (U32 * U32) * n)
  {
    hide Mul;
    MulLess(x, U32 * U32, n);
    Square(n);
  }

  lemma Square(n: nat)
    ensures Mul(U32 * U32, n) == (U32 * U32) * n
  {
  }

  /** The multiplication in 32-bit halves; none of its sums passes 64 bits. */
  method MapIntoRangeSplit(x: nat, n: nat) returns (upper: nat)
    requires x < U32 * U32 && n < U32 * U32
    ensures upper == MapIntoRange(x, n)
  {
    hide Mul;
    var xh, xl, nh, nl := x / U32, x % U32, n / U32, n % U32;
    HalvesFit(xh, nh);
    HalvesFit(xh, nl);
    HalvesFit(xl, nh);
    HalvesFit(xl, nl);
    var ac, ad, bc, bd := Mul(xh, nh), Mul(xh, nl), Mul(xl, nh), Mul(xl, nl);
    var mid34 := bd / U32 + bc % U32 + ad % U32;
    assert mid34 < U32 * U32;
    upper := ac + bc / U32 + ad / U32 + mid34 / U32;
    SplitProduct(x, n);
    RangeBound(x, n);
    assert Mul(x, n) == upper * (U32 * U32) + (mid34 % U32 * U32 + bd % U32);
    assert upper < U32 * U32;
  }

  lemma HalvesFit(x: nat, y: nat)
    requires x < U32 && y < U32
    ensures 0 <= Mul(x, y) <= (U32 - 1) * (U32 - 1)
  {
    hide Mul;
    MulSign(x, y);
    MulSub(U32 - 1, x, y);
    MulSign(U32 - 1 - x, y);
    MulSub(U32, 1, y);
    MulWord(1, y);
    MulSmall(y);
  }

  lemma SplitProduct(x: nat, n: nat)
    ensures Mul(x, n) == (U32 * U32) * Mul(x / U32, n / U32) + U32 * Mul(x / U32, n % U32)
                       + U32 * Mul(x % U32, n / U32) + Mul(x % U32, n % U32)
  {
    hide Mul;
    var xh, xl, nh, nl := x / U32, x % U32, n / U32, n % U32;
    assert x == U32 * xh + xl && n == U32 * nh + nl;
    MulAdd(U32 * xh, xl, n);
    MulWord(xh, n);
    MulAdd(U32 * nh, nl, xh);
    MulAdd(U32 * nh, nl, xl);
    MulWord(xh, nh);
    MulWord(xl, nh);
  }

  // ---------- Sorting ----------

  function Insert(s: seq<nat>, v: nat): seq<nat> {
    if s == [] || v <= s[0] then [v] + s else [s[0]] + Insert(s[1..], v)
  }

  ghost predicate Above(s: seq<nat>, a: nat) {
    forall j :: 0 <= j < |s| ==> a <= s[j]
  }

  lemma {:induction false} InsertAbove(s: seq<nat>, v: nat, a: nat)
    requires Above(s, a) && a <= v
    ensures Above(Insert(s, v), a)
    decreases |s|
  {
    if s != [] && s[0] < v {
      InsertAbove(s[1..], v, a);
    }
  }

  lemma {:induction false} InsertKeeps(s: seq<nat>, v: nat)
    ensures multiset(Insert(s, v)) == multiset(s) + multiset{v}
    decreases |s|
  {
    if s != [] && s[0] < v {
      InsertKeeps(s[1..], v);
      assert s == [s[0]] + s[1..];
    }
  }

  lemma AscendingCons(a: nat, t: seq<nat>)
    requires Above(t, a) && Ascending(t)
    ensures Ascending([a] + t)
  {
  }

  lemma {:induction false} InsertSorts(s: seq<nat>, v: nat)
    requires Ascending(s)
    ensures Ascending(Insert(s, v)) && multiset(Insert(s, v)) == multiset(s) + multiset{v}
    decreases |s|
  {
    InsertKeeps(s, v);
    if s == [] || v <= s[0] {
      AscendingCons(v, s);
    } else {
      InsertSorts(s[1..], v);
      InsertAbove(s[1..], v, s[0]);
      AscendingCons(s[0], Insert(s[1..], v));
    }
  }

  /** std::sort */
  function Sort(s: seq<nat>): seq<nat> {
    if s == [] then [] else Insert(Sort(s[..|s| - 1]), s[|s| - 1])
  }

  lemma {:induction false} SortSorts(s: seq<nat>)
    ensures Ascending(Sort(s)) && multiset(Sort(s)) == multiset(s) && |Sort(s)| == |s|
  {
    if s != [] {
      SortSorts(s[..|s| - 1]);
      InsertSorts(Sort(s[..|s| - 1]), s[|s| - 1]);
      assert s == s[..|s| - 1] + [s[|s| - 1]];
    }
    assert |multiset(Sort(s))| == |multiset(s)|;
  }

  // ---------- Filters ----------

  type Element = seq<nat>

  datatype Params = Params(siphash: Element -> nat, p: nat, m: nat)

  datatype GCSFilter = GCSFilter(params: Params, n: nat, f: nat, encoded: seq<nat>)

  /** P is a shift of 64-bit numbers, M a 32-bit number. */
  ghost predicate Usable(ps: Params) {
    ps.p < 64 && ps.m < U32
  }

  function HashToRange(ps: Params, f: nat, e: Element): nat {
    MapIntoRange(ps.siphash(e) % (U32 * U32), f)
  }

  /** The 64-bit hash scaled down to the range: the fraction of 2^64 that it is, taken of f. */
  lemma HashToRangeIs(ps: Params, f: nat, e: Element)
    ensures HashToRange(ps, f, e) == (ps.siphash(e) % U64) * f / U64
    ensures var r := HashToRange(ps, f, e); r * U64 <= (ps.siphash(e) % U64) * f < (r + 1) * U64
  {
    var x := ps.siphash(e) % U64;
    HighHalf(x, f);
  }

  lemma HighHalf(x: nat, f: nat)
    requires x < U64
    ensures x * f >= 0 && MapIntoRange(x, f) == x * f / U64
    ensures var r := MapIntoRange(x, f); r * U64 <= x * f < (r + 1) * U64
  {
    var xf := x * f;
    MulSign(x, f);
    Quotient(xf);
  }

  lemma Quotient(x: nat)
    ensures x / U64 * U64 <= x < (x / U64 + 1) * U64
  {
  }

  function Hashed(ps: Params, f: nat, order: seq<Element>): (r: seq<nat>)
    ensures |r| == |order| && forall i :: 0 <= i < |r| ==> r[i] == HashToRange(ps, f, order[i])
  {
    seq(|order|, i requires 0 <= i < |order| => HashToRange(ps, f, order[i]))
  }

  ghost predicate Lists(order: seq<Element>, elements: set<Element>) {
    (forall e :: e in elements <==> e in order) && forall i, j :: 0 <= i < j < |order| ==> order[i] != order[j]
  }

  /** The hashes of the elements, in ascending order. */
  ghost predicate IsHashedSet(ps: Params, f: nat, elements: set<Element>, h: seq<nat>) {
    Ascending(h) && exists order :: Lists(order, elements) && multiset(h) == multiset(Hashed(ps, f, order))
  }

  lemma HashedSetHas(ps: Params, f: nat, elements: set<Element>, h: seq<nat>)
    requires IsHashedSet(ps, f, elements, h)
    ensures forall e :: e in elements ==> HashToRange(ps, f, e) in h
    ensures forall v :: v in h ==> exists e :: e in elements && HashToRange(ps, f, e) == v
  {
    var order :| Lists(order, elements) && multiset(h) == multiset(Hashed(ps, f, order));
    var g := Hashed(ps, f, order);
    forall e | e in elements ensures HashToRange(ps, f, e) in h {
      var i :| 0 <= i < |order| && order[i] == e;
      assert g[i] in multiset(g);
    }
    forall v | v in h ensures exists e :: e in elements && HashToRange(ps, f, e) == v {
      assert v in multiset(h);
      var i :| 0 <= i < |g| && g[i] == v;
      assert order[i] in elements;
    }
  }

  /** The bytes carry these bits, and less than a byte more. */
  ghost predicate Carries(body: seq<nat>, bits: seq<bool>) {
    exists pad: seq<bool> :: |pad| < 8 && Flat(body) == bits + pad
  }

  /** The filter holds these values: its bytes decode to them with no excess data. */
  ghost predicate Opens(p: nat, n: nat, encoded: seq<nat>, values: seq<nat>) {
    var head := ReadCompactSize(encoded);
    head.Some? && head.value.0 == n &&
    var d := DecodeValues(Flat(encoded[head.value.1..]), n, 0, p);
    d.Some? && d.value.0 == values && |d.value.1| < 8
  }

  ghost predicate IsBuilt(p: nat, values: seq<nat>, encoded: seq<nat>) {
    Ascending(values) && |values| < U32 &&
    exists body :: encoded == WriteSize(|values|) + body && Carries(body, Codes(values, 0, p))
  }

  function WriteSize(n: nat): seq<nat>
    requires n < U32
  {
    Pow2Values();
    WriteCompactSize(n)
  }

  /** A built filter can be read back, and then gives exactly the values it was built from, unless
      its size is above the limit: then reading it fails. */
  lemma BuiltOpens(p: nat, values: seq<nat>, encoded: seq<nat>)
    requires IsBuilt(p, values, encoded) && forall i :: 0 <= i < |values| ==> values[i] < U32 * U32
    ensures |values| <= MAX_SIZE ==> Opens(p, |values|, encoded, values)
    ensures |values| > MAX_SIZE ==> ReadCompactSize(encoded).None?
  {
    hide Flat, Codes, DecodeValues, ReadCompactSize, WriteCompactSize;
    Pow2Values();
    var body :| encoded == WriteSize(|values|) + body && Carries(body, Codes(values, 0, p));
    var pad :| |pad| < 8 && Flat(body) == Codes(values, 0, p) + pad;
    CompactSizeRoundTrip(|values|, body);
    DecodeCodes(values, 0, p, pad);
    assert encoded[|WriteSize(|values|)|..] == body;
  }

  // ---------- Matching ----------

  /** The query is one of the values, and no value before it passes it. */
  ghost predicate Hit(values: seq<nat>, q: nat) {
    exists i :: 0 <= i < |values| && values[i] == q && forall j :: 0 <= j < i ==> values[j] <= q
  }

  /** In an ascending sequence this is membership. */
  lemma HitIsMembership(values: seq<nat>, q: nat)
    requires Ascending(values)
    ensures Hit(values, q) <==> q in values
  {
    if q in values {
      var i :| 0 <= i < |values| && values[i] == q;
      assert Hit(values, q);
    }
  }
}

module Gcs {
  import opened Bits
  import opened BitStreamSpec
  import opened Common
  import opened BitStream
  import opened GcsSpec

  /** src/blockfilter.cpp:23-38 */
  method GolombRiceEncode(w: BitStreamWriter, p: nat, x: nat)
    requires w.Valid() && p < 64 && x < U32 * U32
    modifies w
    ensures w.Valid() && w.Written() == old(w.Written()) + Code(x, p)
  {
    hide Mul, Div, Mod, Pow2, BitsOf, Flat, Ones, Code;
    DivMod(x, Pow2(p));
    var q: nat := Div(x, Pow2(p));
    ghost var all := q;
    ghost var start := w.Written();
    while q > 0
      invariant 0 <= q <= all && w.Valid() && w.Written() + Ones(q) == start + Ones(all)
    {
      var nbits := if q <= 64 then q else 64;
      OnesAre(nbits);
      OnesFurther(w.Written(), nbits, q);
      var ok := w.Write(U32 * U32 - 1, nbits);
      q := q - nbits;
    }
    NoOnes(w.Written());
    ZeroBit();
    var ok := w.Write(0, 1);
    ok := w.Write(x, p);
    CodeEnds(start, x, p);
  }

  lemma {:induction false} OnesAre(n: nat)
    requires n <= 64
    ensures BitsOf(U32 * U32 - 1, n) == Ones(n)
  {
    AllOnes(64, n);
    Pow2Values();
  }

  lemma {:induction false} AllOnes(k: nat, n: nat)
    requires n <= k
    ensures BitsOf(Pow2(k) - 1, n) == Ones(n)
    decreases n
  {
    hide Pow2;
    if n > 0 {
      AllOnes(k - 1, n - 1);
      HalfOfOnes(k);
      assert Ones(n) == Ones(n - 1) + [true];
    }
  }

  lemma HalfOfOnes(k: nat)
    requires k > 0
    ensures (Pow2(k) - 1) / 2 == Pow2(k - 1) - 1 && (Pow2(k) - 1) % 2 == 1
  {
    var h := Pow2(k - 1);
    hide Pow2;
    assert 2 * h - 1 == 2 * (h - 1) + 1;
  }

  lemma CodeEnds(start: seq<bool>, x: nat, p: nat)
    ensures Div(x, Pow2(p)) >= 0
    ensures start + Ones(Div(x, Pow2(p))) + [false] + BitsOf(x, p) == start + Code(x, p)
  {
    hide Div, Pow2, Ones, BitsOf;
    DivMod(x, Pow2(p));
  }

  lemma NoOnes(s: seq<bool>)
    ensures s + Ones(0) == s
  {
  }

  lemma OnesFurther(s: seq<bool>, n: nat, q: nat)
    requires n <= q
    ensures s + Ones(n) + Ones(q - n) == s + Ones(q)
  {
    assert Ones(q) == Ones(n) + Ones(q - n);
  }

  lemma ZeroBit()
    ensures BitsOf(0, 1) == [false]
  {
    assert BitsOf(0, 0) == [];
  }

  /** src/blockfilter.cpp:40-52. None where the stream ends too early. */
  method GolombRiceDecode(r: BitStreamReader, p: nat) returns (x: Option<nat>)
    requires r.Valid() && r.offset >= 1 && p < 64
    modifies r
    ensures r.Valid()
    ensures match DecodeOne(old(r.Unread()), p)
            case None => x == None
            case Some((v, rest)) => x == Some(v) && r.Unread() == rest && r.offset >= 1
  {
    hide Mul, Div, Mod, Pow2, BitsOf, Flat, Num, LeadingOnes, AreBytes, DecodeOne;
    ghost var all := r.Unread();
    var q: nat := 0;
    var ok, b := r.Read(1);
    while ok && b == 1
      invariant r.Valid() && q <= |all| && (forall i :: 0 <= i < q ==> all[i])
      invariant ok <==> q < |all|
      invariant ok ==> r.Unread() == all[q + 1..] && b == Num(all[q..][..1]) && r.offset >= 1
      decreases |all| - q
    {
      OneBit(all, q);
      q := q + 1;
      ok, b := r.Read(1);
    }
    if !ok {
      NoCode(all, p);
      return None;
    }
    OneBit(all, q);
    CodeAt(all, q, p);
    var v;
    ok, v := r.Read(p);
    if !ok {
      return None;
    }
    MulSign(q, Pow2(p));
    return Some((Mul(q, Pow2(p)) + v) % (U32 * U32));
  }

  lemma OneBit(all: seq<bool>, q: nat)
    requires q < |all|
    ensures Num(all[q..][..1]) == if all[q] then 1 else 0
  {
    assert all[q..][..1] == [all[q]];
    assert Num([]) == 0;
  }

  lemma NoCode(all: seq<bool>, p: nat)
    requires forall i :: 0 <= i < |all| ==> all[i]
    ensures DecodeOne(all, p).None?
  {
  }

  lemma CodeAt(all: seq<bool>, q: nat, p: nat)
    requires q < |all| && !all[q] && forall i :: 0 <= i < q ==> all[i]
    ensures Mul(q, Pow2(p)) >= 0
    ensures if p <= |all[q + 1..]|
            then DecodeOne(all, p) ==
              Some(((Mul(q, Pow2(p)) + Num(all[q + 1..][..p])) % (U32 * U32), all[q + 1..][p..]))
            else DecodeOne(all, p).None?
  {
    hide Mul, Pow2, Num;
    LeadingOnesAre(all, q);
    MulSign(q, Pow2(p));
    if p <= |all[q + 1..]| {
      assert all[q + 1..][..p] == all[q + 1..q + 1 + p];
    }
  }

  /** src/blockfilter.cpp:94-103 */
  method BuildHashedSet(ps: Params, f: nat, elements: set<Element>) returns (h: seq<nat>)
    ensures IsHashedSet(ps, f, elements, h) && |h| == |elements|
  {
    var hashed := [];
    ghost var order: seq<Element> := [];
    var rest := elements;
    while rest != {}
      invariant rest <= elements && |hashed| == |order| && |hashed| + |rest| == |elements|
      invariant hashed == Hashed(ps, f, order) && Lists(order, elements - rest)
      decreases |rest|
    {
      var e :| e in rest;
      hashed := hashed + [HashToRange(ps, f, e)];
      order := order + [e];
      rest := rest - {e};
    }
    assert elements - rest == elements;
    h := Sort(hashed);
    SortSorts(hashed);
  }

  /** src/blockfilter.cpp:131-158. None where the source throws, for 2^32 elements or more. */
  method BuildFilter(ps: Params, elements: set<Element>) returns (r: Option<GCSFilter>, ghost values: seq<nat>)
    requires Usable(ps)
    ensures r.Some? <==> |elements| < U32
    ensures r.Some? ==> var g := r.value;
              && g.params == ps && g.n == |elements| && g.f == g.n * ps.m && AreBytes(g.encoded)
              && IsHashedSet(ps, g.f, elements, values) && IsBuilt(ps.p, values, g.encoded) && |values| == g.n
  {
    hide Mul, Div, Mod, Pow2, BitsOf, Flat, IsHashedSet;
    var n := |elements|;
    values := [];
    if n >= U32 {
      return None, values;
    }
    var f := n * ps.m;
    var hashed := BuildHashedSet(ps, f, elements);
    values := hashed;
    var head := WriteSize(n);
    if n == 0 {
      NothingBuilt(ps.p, head, values);
      return Some(GCSFilter(ps, n, f, head)), values;
    }
    InRange(ps, f, elements, hashed);
    var w := new BitStreamWriter();
    WriteAll(w, ps.p, hashed);
    w.Flush();
    ghost var pad: nat :| pad < 8 && Flat(w.out) == Codes(values, 0, ps.p) + Zeros(pad);
    assert Carries(w.out, Codes(values, 0, ps.p));
    r := Some(GCSFilter(ps, n, f, head + w.out));
  }

  lemma NothingBuilt(p: nat, head: seq<nat>, values: seq<nat>)
    requires values == [] && head == WriteSize(0)
    ensures Ascending(values) && IsBuilt(p, values, head)
  {
    assert head == head + [];
    assert Flat([]) == Codes([], 0, p) + [];
    assert Carries([], Codes(values, 0, p));
  }

  lemma InRange(ps: Params, f: nat, elements: set<Element>, h: seq<nat>)
    requires IsHashedSet(ps, f, elements, h) && ps.m < U32 && f == |elements| * ps.m && |elements| < U32
    ensures Ascending(h) && forall i :: 0 <= i < |h| ==> h[i] < U32 * U32
  {
    HashedSetHas(ps, f, elements, h);
    FewerThan(|elements|, ps.m);
    forall i | 0 <= i < |h| ensures h[i] < U32 * U32 {
      assert h[i] in h;
    }
  }

  lemma FewerThan(a: nat, b: nat)
    requires a < U32 && b < U32
    ensures a * b < U32 * U32
  {
    HalvesFit(a, b);
  }

  /** The loop over the sorted hashes (src/blockfilter.cpp:150-155). */
  method WriteAll(w: BitStreamWriter, p: nat, values: seq<nat>)
    requires w.Valid() && w.Written() == [] && p < 64 && Ascending(values)
    requires forall i :: 0 <= i < |values| ==> values[i] < U32 * U32
    modifies w
    ensures w.Valid() && w.Written() == Codes(values, 0, p)
  {
    hide Mul, Div, Mod, Pow2, BitsOf, Flat, Code, Codes;
    var last, i := 0, 0;
    assert values[0..] == values;
    while i < |values|
      invariant 0 <= i <= |values| && w.Valid() && last == (if i == 0 then 0 else values[i - 1])
      invariant w.Written() + Codes(values[i..], last, p) == Codes(values, 0, p)
    {
      CodesStep(values, i, last, p);
      GolombRiceEncode(w, p, values[i] - last);
      last := values[i];
      i := i + 1;
    }
    NoCodes(last, p);
  }

  lemma CodesStep(values: seq<nat>, i: nat, last: nat, p: nat)
    requires Ascending(values) && i < |values| && last <= values[i]
    ensures Ascending(values[i..]) && Ascending(values[i + 1..])
    ensures i + 1 < |values| ==> values[i] <= values[i + 1]
    ensures Codes(values[i..], last, p) == Code(values[i] - last, p) + Codes(values[i + 1..], values[i], p)
  {
    hide Code;
    assert values[i..][1..] == values[i + 1..];
  }

  lemma NoCodes(last: nat, p: nat)
    ensures Codes([], last, p) == []
  {
  }

  /** src/blockfilter.cpp:108-129: exactly the encodings that open are accepted. */
  method OpenFilter(ps: Params, encoded: seq<nat>) returns (r: Option<GCSFilter>, ghost values: seq<nat>)
    requires Usable(ps) && AreBytes(encoded)
    ensures r.Some? ==> var g := r.value;
              g.params == ps && g.encoded == encoded && g.f == g.n * ps.m && Opens(ps.p, g.n, encoded, values)
    ensures r.None? ==> forall n, vs :: !Opens(ps.p, n, encoded, vs)
  {
    hide Mul, Div, Mod, Pow2, BitsOf, Flat, Num, DecodeOne, DecodeValues, ReadCompactSize;
    values := [];
    var head := ReadCompactSize(encoded);
    if head.None? {
      return None, values;
    }
    var n := head.value.0;
    var reader := new BitStreamReader(encoded, head.value.1);
    ghost var bits := reader.Unread();
    ghost var whole := DecodeValues(bits, n, 0, ps.p);
    ghost var value: nat := 0;
    var i: nat := 0;
    NonePrefixed(whole);
    while i < n
      invariant 0 <= i <= n && reader.Valid() && reader.offset >= 1 && |values| == i
      invariant whole == Prefixed(values, DecodeValues(reader.Unread(), n - i, value, ps.p))
    {
      DecodeStep(reader.Unread(), n - i, value, ps.p, values);
      var delta := GolombRiceDecode(reader, ps.p);
      if delta.None? {
        return None, values;
      }
      value := (value + delta.value) % (U32 * U32);
      values := values + [value];
      i := i + 1;
    }
    DecodedAll(values, reader.Unread(), value, ps.p);
    Spare(reader);
    if reader.pos != |encoded| {
      return None, values;
    }
    r := Some(GCSFilter(ps, n, n * ps.m, encoded));
  }

  /** Values already decoded, in front of the rest. */
  ghost function Prefixed(vs: seq<nat>, d: Option<(seq<nat>, seq<bool>)>): Option<(seq<nat>, seq<bool>)> {
    if d.None? then None else Some((vs + d.value.0, d.value.1))
  }

  lemma DecodedAll(vs: seq<nat>, bits: seq<bool>, value: nat, p: nat)
    ensures Prefixed(vs, DecodeValues(bits, 0, value, p)) == Some((vs, bits))
  {
    assert vs + [] == vs;
  }

  lemma NonePrefixed(d: Option<(seq<nat>, seq<bool>)>)
    ensures Prefixed([], d) == d
  {
    if d.Some? {
      assert [] + d.value.0 == d.value.0;
    }
  }

  lemma DecodeStep(bits: seq<bool>, n: nat, value: nat, p: nat, vs: seq<nat>)
    requires n > 0
    ensures match DecodeOne(bits, p)
            case None => DecodeValues(bits, n, value, p).None?
            case Some((delta, rest)) =>
              var v := (value + delta) % (U32 * U32);
              Prefixed(vs, DecodeValues(bits, n, value, p)) == Prefixed(vs + [v], DecodeValues(rest, n - 1, v, p))
  {
    hide DecodeOne;
    match DecodeOne(bits, p)
    case None =>
    case Some((delta, rest)) =>
      var v := (value + delta) % (U32 * U32);
      var d := DecodeValues(rest, n - 1, v, p);
      if d.Some? {
        assert vs + ([v] + d.value.0) == vs + [v] + d.value.0;
      }
  }

  lemma Spare(r: BitStreamReader)
    requires r.Valid() && r.offset >= 1
    ensures r.pos == |r.data| <==> |r.Unread()| < 8
  {
  }

  /** src/blockfilter.cpp:160-190: whether one of the ascending queries is hit. None where reading the
      size throws. */
  method MatchInternal(g: GCSFilter, queries: seq<nat>, ghost values: seq<nat>) returns (r: Option<bool>)
    requires Usable(g.params) && AreBytes(g.encoded) && Ascending(queries)
    requires ReadCompactSize(g.encoded).None? || Opens(g.params.p, g.n, g.encoded, values)
    ensures r.None? <==> ReadCompactSize(g.encoded).None?
    ensures r.Some? ==> (r.value <==> exists k :: 0 <= k < |queries| && Hit(values, queries[k]))
  {
    hide Mul, Div, Mod, Pow2, BitsOf, Flat, Num, DecodeOne, ReadCompactSize, Hit;
    var head := ReadCompactSize(g.encoded);
    if head.None? {
      return None;
    }
    assert head.value.0 == g.n;
    var reader := new BitStreamReader(g.encoded, head.value.1);
    var value: nat, index: nat, i: nat := 0, 0, 0;
    while i < g.n
      invariant 0 <= i <= g.n == |values| && index <= |queries| && reader.Valid() && reader.offset >= 1
      invariant Remaining(DecodeValues(reader.Unread(), g.n - i, value, g.params.p), values[i..])
      invariant Merged(values, queries, i, index)
    {
      var delta := GolombRiceDecode(reader, g.params.p);
      value := (value + delta.value) % (U32 * U32);
      assert value == values[i] && values[i..][1..] == values[i + 1..];
      var step: Option<bool>;
      index, step := Advance(queries, value, index, values, i);
      if step.Some? {
        return step;
      }
      i := i + 1;
    }
    NeverHit(values, queries, index);
    return Some(false);
  }

  ghost predicate Remaining(d: Option<(seq<nat>, seq<bool>)>, vs: seq<nat>) {
    d.Some? && d.value.0 == vs
  }

  /** Of i values: the queries before the index are passed, the others are above all of them, and
      none is hit yet. */
  ghost predicate Merged(values: seq<nat>, queries: seq<nat>, i: nat, index: nat)
    requires i <= |values| && index <= |queries|
  {
    && (forall k :: 0 <= k < index ==> !Hit(values, queries[k]))
    && (forall j, k :: 0 <= j < i && index <= k < |queries| ==> values[j] < queries[k])
  }

  /** The inner loop (src/blockfilter.cpp:176-186): the merge step for value i. */
  method Advance(queries: seq<nat>, value: nat, start: nat, ghost values: seq<nat>, ghost i: nat)
    returns (index: nat, r: Option<bool>)
    requires i < |values| && values[i] == value && start <= |queries| && Ascending(queries)
    requires Merged(values, queries, i, start)
    ensures index <= |queries|
    ensures r.None? ==> Merged(values, queries, i + 1, index)
    ensures r.Some? ==> (r.value <==> exists k :: 0 <= k < |queries| && Hit(values, queries[k]))
  {
    index := start;
    while true
      invariant start <= index <= |queries| && Merged(values, queries, i, index)
      decreases |queries| - index
    {
      if index == |queries| {
        return index, Some(false);
      } else if queries[index] == value {
        assert Hit(values, queries[index]);
        return index, Some(true);
      } else if queries[index] > value {
        return index, None;
      }
      Passed(values, i, queries[index]);
      index := index + 1;
    }
  }

  lemma Passed(values: seq<nat>, i: nat, q: nat)
    requires i < |values| && q < values[i] && forall j :: 0 <= j < i ==> values[j] < q
    ensures !Hit(values, q)
  {
  }

  lemma NeverHit(values: seq<nat>, queries: seq<nat>, index: nat)
    requires index <= |queries| && Merged(values, queries, |values|, index)
    ensures forall k :: 0 <= k < |queries| ==> !Hit(values, queries[k])
  {
  }

  /** src/blockfilter.cpp:192-195 */
  method Match(g: GCSFilter, e: Element, ghost values: seq<nat>) returns (r: Option<bool>)
    requires Usable(g.params) && AreBytes(g.encoded)
    requires ReadCompactSize(g.encoded).None? || Opens(g.params.p, g.n, g.encoded, values)
    ensures r.None? <==> ReadCompactSize(g.encoded).None?
    ensures r.Some? ==> (r.value <==> Hit(values, HashToRange(g.params, g.f, e)))
  {
    hide Hit, Opens, ReadCompactSize, HashToRange;
    var query := HashToRange(g.params, g.f, e);
    r := MatchInternal(g, [query], values);
    assert [query][0] == query;
  }

  /** src/blockfilter.cpp:197-200: true exactly when one of the elements matches by itself. */
  method MatchAny(g: GCSFilter, elements: set<Element>, ghost values: seq<nat>) returns (r: Option<bool>)
    requires Usable(g.params) && AreBytes(g.encoded)
    requires ReadCompactSize(g.encoded).None? || Opens(g.params.p, g.n, g.encoded, values)
    ensures r.None? <==> ReadCompactSize(g.encoded).None?
    ensures r.Some? ==> (r.value <==> exists e :: e in elements && Hit(values, HashToRange(g.params, g.f, e)))
  {
    hide Hit, Opens, ReadCompactSize, HashToRange;
    var queries := BuildHashedSet(g.params, g.f, elements);
    HashedSetHas(g.params, g.f, elements, queries);
    r := MatchInternal(g, queries, values);
    assert forall k :: 0 <= k < |queries| ==> queries[k] in queries;
  }

  /** Every element that a filter was built from matches it, as long as the filter can be read. */
  lemma BuiltMatches(ps: Params, elements: set<Element>, g: GCSFilter, values: seq<nat>, e: Element)
    requires Usable(ps) && g.params == ps && g.n == |elements| == |values| < U32 && g.f == g.n * ps.m
    requires IsHashedSet(ps, g.f, elements, values) && IsBuilt(ps.p, values, g.encoded)
    requires e in elements
    ensures Hit(values, HashToRange(ps, g.f, e))
    ensures g.n <= MAX_SIZE ==> Opens(ps.p, g.n, g.encoded, values)
    ensures g.n > MAX_SIZE ==> ReadCompactSize(g.encoded).None?
  {
    hide Hit, Opens, ReadCompactSize, HashToRange;
    InRange(ps, g.f, elements, values);
    HashedSetHas(ps, g.f, elements, values);
    HitIsMembership(values, HashToRange(ps, g.f, e));
    BuiltOpens(ps.p, values, g.encoded);
  }

  /** Whether two elements have the same value in a range: the only thing that a filter sees of them. */
  ghost predicate SameValue(ps: Params, f: nat, x: Element, e: Element) {
    (ps.siphash(x) % U64) * f / U64 == (ps.siphash(e) % U64) * f / U64
  }

  lemma SameValueIs(ps: Params, f: nat, x: Element, e: Element)
    ensures SameValue(ps, f, x, e) <==> HashToRange(ps, f, x) == HashToRange(ps, f, e)
  {
    HashToRangeIs(ps, f, x);
    HashToRangeIs(ps, f, e);
  }

  /** In a filter built from elements, an element is hit exactly when its value is that of one of them. */
  lemma BuiltHits(ps: Params, f: nat, elements: set<Element>, values: seq<nat>, e: Element)
    requires IsHashedSet(ps, f, elements, values)
    ensures Hit(values, HashToRange(ps, f, e)) <==> exists x :: x in elements && SameValue(ps, f, x, e)
  {
    hide Hit, HashToRange, SameValue;
    HashedSetHas(ps, f, elements, values);
    HitIsMembership(values, HashToRange(ps, f, e));
    forall x | x in elements
      ensures SameValue(ps, f, x, e) <==> HashToRange(ps, f, x) == HashToRange(ps, f, e)
    {
      SameValueIs(ps, f, x, e);
    }
    if HashToRange(ps, f, e) in values {
      var x :| x in elements && HashToRange(ps, f, x) == HashToRange(ps, f, e);
      assert SameValue(ps, f, x, e);
    }
  }

  /** A filter built and then asked about an element: it cannot be built from 2^32 elements or more, cannot
      be read when it has more than the limit, and otherwise matches exactly when one of its elements has
      the value of the one asked about. */
  method BuildAndMatch(ps: Params, elements: set<Element>, e: Element) returns (r: Option<bool>)
    requires Usable(ps)
    ensures r.Some? <==> |elements| <= MAX_SIZE
    ensures r.Some? ==> (r.value <==> exists x :: x in elements && SameValue(ps, |elements| * ps.m, x, e))
  {
    hide Hit, ReadCompactSize, DecodeValues, Flat, HashToRange, SameValue, IsHashedSet, IsBuilt;
    var g, values := BuildFilter(ps, elements);
    if g.None? {
      return None;
    }
    InRange(ps, g.value.f, elements, values);
    BuiltOpens(ps.p, values, g.value.encoded);
    BuiltHits(ps, g.value.f, elements, values, e);
    r := Match(g.value, e, values);
  }

  /** The same for several elements: the answer is yes exactly when it is for one of them. */
  method BuildAndMatchAny(ps: Params, elements: set<Element>, asked: set<Element>) returns (r: Option<bool>)
    requires Usable(ps)
    ensures r.Some? <==> |elements| <= MAX_SIZE
    ensures r.Some? ==>
              (r.value <==> exists x, e :: x in elements && e in asked && SameValue(ps, |elements| * ps.m, x, e))
  {
    hide Hit, ReadCompactSize, DecodeValues, Flat, HashToRange, SameValue, IsHashedSet, IsBuilt;
    var g, values := BuildFilter(ps, elements);
    if g.None? {
      return None;
    }
    InRange(ps, g.value.f, elements, values);
    BuiltOpens(ps.p, values, g.value.encoded);
    forall e | e in asked
      ensures Hit(values, HashToRange(ps, g.value.f, e)) <==>
              exists x :: x in elements && SameValue(ps, g.value.f, x, e)
    {
      BuiltHits(ps, g.value.f, elements, values, e);
    }
    r := MatchAny(g.value, asked, values);
  }
}
