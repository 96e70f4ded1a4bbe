/** Bits in bytes, the most significant first, and the streams of src/streams.h:481-575. */
module BitStreamSpec {
  import opened Bits

  /** The n low bits of x. */
  function BitsOf(x: nat, n: nat): (r: seq<bool>)
    ensures |r| == n
  {
    if n == 0 then [] else BitsOf(x / 2, n - 1) + [x % 2 == 1]
  }

  function Num(bits: seq<bool>): nat {
    if bits == [] then 0 else 2 * Num(bits[..|bits| - 1]) + (if bits[|bits| - 1] then 1 else 0)
  }

  function Flat(bytes: seq<nat>): (r: seq<bool>)
    ensures |r| == 8 * |bytes|
  {
    if bytes == [] then [] else Flat(bytes[..|bytes| - 1]) + BitsOf(bytes[|bytes| - 1], 8)
  }

  ghost predicate AreBytes(bytes: seq<nat>) {
    forall i :: 0 <= i < |bytes| ==> bytes[i] < 0x100
  }

  lemma {:induction false} BitsSplit(x: nat, a: nat, b: nat)
    ensures Div(x, Pow2(b)) >= 0 && BitsOf(x, a + b) == BitsOf(Div(x, Pow2(b)), a) + BitsOf(x, b)
    decreases b
  {
    hide Mul, Div, Mod;
    DivMod(x, Pow2(b));
    if b == 0 {
      MulSmall(x);
      Divided(x, 1, x, 0);
    } else {
      BitsSplit(x / 2, a, b - 1);
      DividedTwice(x, 2, Pow2(b - 1));
      MulSmall(Pow2(b - 1));
      Halved(x);
      assert BitsOf(x, a + b) == BitsOf(x / 2, a + b - 1) + [x % 2 == 1];
    }
  }

  lemma Halved(x: nat)
    ensures Div(x, 2) == x / 2 && Mod(x, 2) == x % 2
  {
  }

  lemma {:induction false} NumBits(x: nat, n: nat)
    ensures Num(BitsOf(x, n)) == Mod(x, Pow2(n))
  {
    hide Mul, Div, Mod;
    if n == 0 {
      MulSmall(x);
      Divided(x, 1, x, 0);
    } else {
      NumBits(x / 2, n - 1);
      var p := Pow2(n - 1);
      DivMod(x / 2, p);
      var q, r := Div(x / 2, p), Mod(x / 2, p);
      MulAdd(p, p, q);
      Divided(x, 2 * p, q, 2 * r + x % 2);
      assert BitsOf(x, n)[..n - 1] == BitsOf(x / 2, n - 1);
    }
  }

  lemma {:induction false} NumInverts(bits: seq<bool>)
    ensures BitsOf(Num(bits), |bits|) == bits && Num(bits) < Pow2(|bits|)
  {
    if bits != [] {
      var n := |bits| - 1;
      NumInverts(bits[..n]);
      assert bits == bits[..n] + [bits[n]];
    }
  }

  lemma {:induction false} NumAppend(a: seq<bool>, b: seq<bool>)
    ensures Num(a + b) == Mul(Num(a), Pow2(|b|)) + Num(b)
    decreases |b|
  {
    hide Mul;
    if b == [] {
      assert a + b == a;
      MulSmall(Num(a));
    } else {
      var n := |b| - 1;
      NumAppend(a, b[..n]);
      assert (a + b)[..|a| + n] == a + b[..n];
      MulAdd(Pow2(n), Pow2(n), Num(a));
    }
  }

  /** Only the low bits count. */
  lemma BitsMod(x: nat, n: nat)
    ensures Mod(x, Pow2(n)) >= 0 && BitsOf(Mod(x, Pow2(n)), n) == BitsOf(x, n)
  {
    hide Mod;
    NumBits(x, n);
    NumInverts(BitsOf(x, n));
  }

  lemma BitsAppend(high: nat, low: nat, a: nat, b: nat)
    requires low < Pow2(b)
    ensures Mul(high, Pow2(b)) + low >= 0
    ensures BitsOf(Mul(high, Pow2(b)) + low, a + b) == BitsOf(high, a) + BitsOf(low, b)
  {
    hide Mul, Div, Mod, BitsOf, Pow2;
    MulSign(high, Pow2(b));
    var x := Mul(high, Pow2(b)) + low;
    BitsSplit(x, a, b);
    Divided(x, Pow2(b), high, low);
    BitsMod(x, b);
    BitsMod(low, b);
    MulSmall(Pow2(b));
    Divided(low, Pow2(b), 0, low);
  }

  lemma {:induction false} FlatAppend(a: seq<nat>, b: seq<nat>)
    ensures Flat(a + b) == Flat(a) + Flat(b)
    decreases |b|
  {
    hide BitsOf;
    if b == [] {
      assert a + b == a;
    } else {
      var n := |b| - 1;
      FlatAppend(a, b[..n]);
      assert (a + b)[..|a| + n] == a + b[..n];
    }
  }

  lemma FlatOne(x: nat)
    ensures Flat([x]) == BitsOf(x, 8)
  {
    assert Flat([]) == [];
  }

  lemma FlatFirst(bytes: seq<nat>, i: nat)
    requires i < |bytes|
    ensures Flat(bytes[i..]) == BitsOf(bytes[i], 8) + Flat(bytes[i + 1..])
  {
    hide BitsOf, Flat;
    assert bytes[i..] == [bytes[i]] + bytes[i + 1..];
    FlatAppend([bytes[i]], bytes[i + 1..]);
    FlatOne(bytes[i]);
  }

  // ---------- Shifts of 64-bit words and bytes ----------

  /** (x << s) cut to n + s bits keeps the n low bits of x. */
  lemma ModScale(x: nat, n: nat, s: nat)
    ensures Mod(Mul(x, Pow2(s)), Pow2(n + s)) == Mul(Mod(x, Pow2(n)), Pow2(s))
  {
    hide Mul, Div, Mod, Pow2;
    var p, t := Pow2(n), Pow2(s);
    Pow2Add(n, s);
    DivMod(x, p);
    var q, r := Div(x, p), Mod(x, p);
    MulAdd(Mul(q, p), r, t);
    MulAssoc(q, p, t);
    MulLess(r, p, t);
    MulSign(r, t);
    Divided(Mul(x, t), Mul(p, t), q, Mul(r, t));
  }

  lemma DivScaleDown(d: nat, s: nat, t: nat)
    ensures Div(Mul(d, Pow2(s)), Pow2(s + t)) == Div(d, Pow2(t))
  {
    hide Mul, Div, Mod, Pow2;
    MulSign(d, Pow2(s));
    Pow2Add(s, t);
    DividedTwice(Mul(d, Pow2(s)), Pow2(s), Pow2(t));
    Divided(Mul(d, Pow2(s)), Pow2(s), d, 0);
  }

  lemma DivScaleUp(d: nat, s: nat, t: nat)
    ensures Div(Mul(d, Pow2(s + t)), Pow2(s)) == Mul(d, Pow2(t))
  {
    hide Mul, Div, Mod, Pow2;
    Pow2Add(t, s);
    MulAssoc(d, Pow2(t), Pow2(s));
    MulSign(d, Pow2(t));
    Divided(Mul(d, Pow2(s + t)), Pow2(s), Mul(d, Pow2(t)), 0);
  }

  function Min(a: nat, b: nat): nat { if a < b then a else b }

  /** The next bits of the nbits low bits of data, at most room of them. */
  function Top(data: nat, nbits: nat, bits: nat): nat
    requires bits <= nbits
  {
    DivMod(data, Pow2(nbits));
    DivMod(Mod(data, Pow2(nbits)), Pow2(nbits - bits));
    Div(Mod(data, Pow2(nbits)), Pow2(nbits - bits))
  }

  lemma TopBits(data: nat, nbits: nat, bits: nat)
    requires bits <= nbits
    ensures Top(data, nbits, bits) < Pow2(bits)
    ensures BitsOf(data, nbits) == BitsOf(Top(data, nbits, bits), bits) + BitsOf(data, nbits - bits)
  {
    hide Mul, Div, Mod, BitsOf, Pow2;
    var d := Mod(data, Pow2(nbits));
    DivMod(data, Pow2(nbits));
    BitsMod(data, nbits);
    BitsSplit(d, bits, nbits - bits);
    BitsSplit(data, bits, nbits - bits);
    Pow2Add(bits, nbits - bits);
    DivMod(d, Pow2(nbits - bits));
    var q := Div(d, Pow2(nbits - bits));
    if Pow2(bits) <= q {
      MulSub(q, Pow2(bits), Pow2(nbits - bits));
      MulSign(q - Pow2(bits), Pow2(nbits - bits));
    }
  }

  /** What a round of Write puts into the buffer (src/streams.h:552). */
  lemma Chunk(data: nat, nbits: nat, offset: nat)
    requires 0 < nbits <= 64 && offset < 8
    ensures var bits := Min(8 - offset, nbits);
            Div(Mod(Mul(data, Pow2(64 - nbits)), Pow2(64)), Pow2(56 + offset)) ==
            Mul(Top(data, nbits, bits), Pow2(8 - offset - bits))
  {
    hide Mul, Div, Mod, Pow2;
    var room := 8 - offset;
    var d := Mod(data, Pow2(nbits));
    DivMod(data, Pow2(nbits));
    ModScale(data, nbits, 64 - nbits);
    if nbits >= room {
      DivScaleDown(d, 64 - nbits, nbits - room);
      PowZero();
      MulSmall(Top(data, nbits, room));
    } else {
      DivScaleUp(d, 56 + offset, room - nbits);
      PowZero();
      MulSmall(d);
      Divided(d, 1, d, 0);
    }
  }

  lemma PowZero()
    ensures Pow2(0) == 1
  {
  }

  /** The buffer after such a round, as bits. */
  lemma Buffered(buffer: nat, offset: nat, top: nat, bits: nat)
    requires offset + bits <= 8 && top < Pow2(bits) && buffer < 0x100 && Mod(buffer, Pow2(8 - offset)) == 0
    ensures Mul(top, Pow2(8 - offset - bits)) >= 0
    ensures var b := Or(buffer, Mul(top, Pow2(8 - offset - bits)));
            && b < 0x100 && Mod(b, Pow2(8 - offset - bits)) == 0
            && Div(buffer, Pow2(8 - offset)) >= 0 && Div(b, Pow2(8 - offset - bits)) >= 0
            && BitsOf(Div(b, Pow2(8 - offset - bits)), offset + bits) ==
               BitsOf(Div(buffer, Pow2(8 - offset)), offset) + BitsOf(top, bits)
  {
    hide Mul, Div, Mod, BitsOf, Pow2, Or;
    var room, rest := 8 - offset, 8 - offset - bits;
    var p := Pow2(rest);
    var chunk := Mul(top, p);
    MulSign(top, p);
    DivMod(buffer, Pow2(room));
    var q := Div(buffer, Pow2(room));
    Pow2Add(bits, rest);
    MulLess(top, Pow2(bits), p);
    OrAdds(buffer, chunk, room);
    MulAssoc(q, Pow2(bits), p);
    MulAdd(Mul(q, Pow2(bits)), top, p);
    MulSign(q, Pow2(bits));
    Divided(buffer + chunk, p, Mul(q, Pow2(bits)) + top, 0);
    BitsAppend(q, top, offset, bits);
    RoomInByte(buffer, room);
  }

  lemma RoomInByte(buffer: nat, room: nat)
    requires buffer < 0x100 && room <= 8 && Mod(buffer, Pow2(room)) == 0
    ensures buffer + Pow2(room) <= 0x100
  {
    hide Mul, Div, Mod, Pow2;
    Pow2Add(8 - room, room);
    Pow2Values();
    DivMod(buffer, Pow2(room));
    var q, t := Div(buffer, Pow2(room)), Pow2(8 - room);
    if q < t {
      MulLess(q, t, Pow2(room));
    } else {
      MulSub(q, t, Pow2(room));
      MulSign(q - t, Pow2(room));
    }
  }

  /** What a round of Read takes from the buffer (src/streams.h:515). */
  lemma Piece(buffer: nat, offset: nat, bits: nat)
    requires offset + bits <= 8
    ensures Div(Mod(Mul(buffer, Pow2(offset)), 0x100), Pow2(8 - bits)) == Top(buffer, 8 - offset, bits)
  {
    hide Mul, Div, Mod, Pow2;
    Pow2Values();
    ModScale(buffer, 8 - offset, offset);
    DivMod(buffer, Pow2(8 - offset));
    DivScaleDown(Mod(buffer, Pow2(8 - offset)), offset, 8 - offset - bits);
  }
}

module BitStream {
  import opened Bits
  import opened BitStreamSpec

  /** BitStreamWriter over a vector of bytes. */
  class BitStreamWriter {
    var out: seq<nat>
    var buffer: nat
    var offset: nat

    ghost predicate Valid()
      reads this
    {
      AreBytes(out) && offset < 8 && buffer < 0x100 && Mod(buffer, Pow2(8 - offset)) == 0
    }

    ghost function Written(): seq<bool>
      requires Valid()
      reads this
    {
      DivMod(buffer, Pow2(8 - offset));
      Flat(out) + BitsOf(Div(buffer, Pow2(8 - offset)), offset)
    }

    constructor ()
      ensures Valid() && out == [] && Written() == []
    {
      out := [];
      buffer := 0;
      offset := 0;
      new;
      EmptyBuffer();
    }

    /** src/streams.h:545-560. ok is false where the source throws. */
    method Write(data: nat, nbits: int) returns (ok: bool)
      requires Valid()
      modifies this
      ensures Valid() && (ok <==> 0 <= nbits <= 64)
      ensures Written() == if ok then old(Written()) + BitsOf(data, nbits) else old(Written())
    {
      hide AreBytes, Mul, Div, Mod, Pow2, BitsOf, Flat;
      if nbits < 0 || nbits > 64 {
        return false;
      }
      var left: nat := nbits;
      while left > 0
        invariant 0 <= left <= nbits && Valid()
        invariant Written() + BitsOf(data, left) == old(Written()) + BitsOf(data, nbits)
      {
        var bits := Min(8 - offset, left);
        TopBits(data, left, bits);
        Put(data, left);
        left := left - bits;
      }
      NoBits(data);
      return true;
    }

    /** One round of the loop. */
    method Put(data: nat, nbits: nat)
      requires Valid() && 0 < nbits <= 64
      modifies this
      ensures Valid()
      ensures var bits := Min(8 - old(offset), nbits);
              Written() == old(Written()) + BitsOf(Top(data, nbits, bits), bits)
    {
      hide AreBytes, Mul, Div, Mod, Pow2, BitsOf, Flat, Or, Top;
      var bits := Min(8 - offset, nbits);
      TopBits(data, nbits, bits);
      Chunk(data, nbits, offset);
      Buffered(buffer, offset, Top(data, nbits, bits), bits);
      buffer := Or(buffer, Div(Mod(Mul(data, Pow2(64 - nbits)), Pow2(64)), Pow2(56 + offset)));
      offset := offset + bits;
      if offset == 8 {
        FullBuffer(out, buffer);
        out := out + [buffer];
        buffer := 0;
        offset := 0;
        EmptyBuffer();
      }
    }

    /** src/streams.h:566-574: zeros up to the next byte. */
    method Flush()
      requires Valid()
      modifies this
      ensures Valid() && offset == 0 && Flat(out) == Written()
      ensures exists pad: nat :: pad < 8 && Flat(out) == old(Written()) + Zeros(pad)
    {
      hide AreBytes, Mul, Div, Mod, Pow2, BitsOf, Flat;
      NoZeros(Written());
      NoBits(0);
      EmptyBuffer();
      if offset == 0 {
        DivMod(buffer, Pow2(8));
        NoBits(Div(buffer, Pow2(8)));
        return;
      }
      FlushedByte(out, buffer, offset);
      out := out + [buffer];
      buffer := 0;
      offset := 0;
    }
  }

  lemma EmptyBuffer()
    ensures Mod(0, Pow2(8)) == 0 && BitsOf(Div(0, Pow2(8)), 0) == [] && Flat([]) == []
  {
  }

  lemma NoBits(x: nat)
    ensures BitsOf(x, 0) == []
  {
  }

  function Zeros(n: nat): (r: seq<bool>)
    ensures |r| == n && forall i :: 0 <= i < n ==> !r[i]
  {
    seq(n, i => false)
  }

  lemma NoZeros(s: seq<bool>)
    ensures s + Zeros(0) == s
  {
  }

  lemma FullBuffer(out: seq<nat>, buffer: nat)
    requires buffer < 0x100 && AreBytes(out)
    ensures AreBytes(out + [buffer])
    ensures Flat(out + [buffer]) == Flat(out) + BitsOf(Div(buffer, Pow2(0)), 8)
  {
    FlatAppend(out, [buffer]);
    FlatOne(buffer);
    PowZero();
  }

  lemma FlushedByte(out: seq<nat>, buffer: nat, offset: nat)
    requires buffer < 0x100 && AreBytes(out) && 0 < offset < 8 && Mod(buffer, Pow2(8 - offset)) == 0
    ensures AreBytes(out + [buffer]) && Div(buffer, Pow2(8 - offset)) >= 0
    ensures Flat(out + [buffer]) == Flat(out) + BitsOf(Div(buffer, Pow2(8 - offset)), offset) + Zeros(8 - offset)
  {
    hide Mul, Div, Mod, Pow2, BitsOf, Flat;
    FlatAppend(out, [buffer]);
    FlatOne(buffer);
    BitsSplit(buffer, offset, 8 - offset);
    BitsMod(buffer, 8 - offset);
    ZeroBits(8 - offset);
  }

  lemma {:induction false} ZeroBits(n: nat)
    ensures BitsOf(0, n) == Zeros(n)
  {
    if n > 0 {
      ZeroBits(n - 1);
    }
  }

  /** BitStreamReader over a vector of bytes. */
  class BitStreamReader {
    const data: seq<nat>
    var pos: nat
    var buffer: nat
    var offset: nat

    ghost predicate Valid()
      reads this
    {
      AreBytes(data) && pos <= |data| && offset <= 8 && buffer < 0x100
    }

    /** Everything that has not been read, the rest of the buffer first. */
    ghost function Unread(): seq<bool>
      requires Valid()
      reads this
    {
      BitsOf(buffer, 8 - offset) + Flat(data[pos..])
    }

    constructor (data: seq<nat>, pos: nat)
      requires AreBytes(data) && pos <= |data|
      ensures Valid() && this.data == data && Unread() == Flat(data[pos..]) && offset == 8 && this.pos == pos
    {
      this.data := data;
      this.pos := pos;
      buffer := 0;
      offset := 8;
    }

    /** src/streams.h:501-520. ok is false where the source, or the stream under it, throws. */
    method Read(nbits: int) returns (ok: bool, r: nat)
      requires Valid()
      modifies this
      ensures Valid() && (ok <==> 0 <= nbits <= 64 && nbits <= |old(Unread())|)
      ensures ok ==> r == Num(old(Unread())[..nbits]) < Pow2(64) && Unread() == old(Unread())[nbits..]
      ensures old(offset) >= 1 && ok ==> offset >= 1
    {
      hide AreBytes, Mul, Div, Mod, Pow2, BitsOf, Flat, Num, Top;
      if nbits < 0 || nbits > 64 {
        return false, 0;
      }
      ghost var all := Unread();
      r := 0;
      var left: nat := nbits;
      ghost var k: nat := 0;
      NoNum(all);
      while left > 0
        invariant 0 <= left <= nbits && k + left == nbits && k <= |all| && Valid()
        invariant Unread() == all[k..] && r == Num(all[..k]) && (old(offset) >= 1 ==> offset >= 1)
      {
        if offset == 8 {
          if pos == |data| {
            NoMore(data, buffer);
            return false, 0;
          }
          Load();
        }
        var bits := Min(8 - offset, left);
        var piece := Take(bits);
        NumMore(all, k, bits, piece);
        r := Or(Mul(r, Pow2(bits)), piece);
        left := left - bits;
        k := k + bits;
      }
      assert k == nbits;
      NumFits(all[..k]);
      return true, r;
    }

    method Load()
      requires Valid() && offset == 8 && pos < |data|
      modifies this
      ensures Valid() && offset == 0 && Unread() == old(Unread())
    {
      FlatFirst(data, pos);
      NoBits(buffer);
      buffer := data[pos];
      pos := pos + 1;
      offset := 0;
    }

    method Take(bits: nat) returns (piece: nat)
      requires Valid() && 0 < bits && offset + bits <= 8
      modifies this
      ensures Valid() && bits <= |old(Unread())| && offset == old(offset) + bits
      ensures Unread() == old(Unread())[bits..] && piece < Pow2(bits) && BitsOf(piece, bits) == old(Unread())[..bits]
    {
      hide AreBytes, Mul, Div, Mod, Pow2, BitsOf, Flat, Top;
      Piece(buffer, offset, bits);
      TopBits(buffer, 8 - offset, bits);
      piece := Div(Mod(Mul(buffer, Pow2(offset)), 0x100), Pow2(8 - bits));
      offset := offset + bits;
    }
  }

  lemma NoNum(all: seq<bool>)
    ensures Num(all[..0]) == 0 && all[0..] == all
  {
  }

  lemma NoMore(data: seq<nat>, buffer: nat)
    ensures BitsOf(buffer, 0) + Flat(data[|data|..]) == []
  {
  }

  lemma NumFits(bits: seq<bool>)
    requires |bits| <= 64
    ensures Num(bits) < Pow2(64)
  {
    hide Pow2, Num;
    NumInverts(bits);
    if |bits| < 64 {
      Pow2Less(|bits|, 64);
    }
  }

  lemma NumMore(all: seq<bool>, k: nat, bits: nat, piece: nat)
    requires k + bits <= |all| && piece < Pow2(bits) && BitsOf(piece, bits) == all[k..][..bits]
    ensures Mul(Num(all[..k]), Pow2(bits)) >= 0
    ensures Num(all[..k + bits]) == Or(Mul(Num(all[..k]), Pow2(bits)), piece)
    ensures all[k + bits..] == all[k..][bits..]
  {
    hide Mul, Div, Mod, Pow2, BitsOf, Num, Or;
    var a, b := all[..k], all[k..][..bits];
    assert all[..k + bits] == a + b;
    NumAppend(a, b);
    NumBits(piece, bits);
    MulSmall(Pow2(bits));
    Divided(piece, Pow2(bits), 0, piece);
    MulSign(Num(a), Pow2(bits));
    Divided(Mul(Num(a), Pow2(bits)), Pow2(bits), Num(a), 0);
    OrAdds(Mul(Num(a), Pow2(bits)), piece, bits);
  }
}
