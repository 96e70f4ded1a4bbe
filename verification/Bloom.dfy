/** The rolling bloom filter of src/bloom.cpp:216-320. */
module BloomSpec {
  import opened Common
  import opened Words

  // ---------- Two-bit tags in pairs of words ----------

  function Bit(x: bv64, b: bv6): bool {
    (x >> b) & 1 == 1
  }

  /** The two bits of a position, 0 for unset, else the generation number 1, 2 or 3. */
  function PairTag(p1: bv64, p2: bv64, b: bv6): (t: nat)
    ensures t <= 3
  {
    (if Bit(p1, b) then 1 else 0) + (if Bit(p2, b) then 2 else 0)
  }

  function Low(generation: nat): bv64 { if generation % 2 == 1 then 1 else 0 }

  function High(generation: nat): bv64 { if generation / 2 == 1 then 1 else 0 }

  function And(x: bv64, y: bv64): bv64 { x & y }

  function Or(x: bv64, y: bv64): bv64 { x | y }

  function Xor(x: bv64, y: bv64): bv64 { x ^ y }

  function Not(x: bv64): bv64 { !x }

  function Shifted(v: bv64, b: bv6): bv64 { v << b }

  function Minus(v: bv64): bv64 { 0 - v }

  lemma BitAnd(x: bv64, y: bv64, b: bv6)
    ensures Bit(x & y, b) == (Bit(x, b) && Bit(y, b))
  {
  }

  lemma BitOr(x: bv64, y: bv64, b: bv6)
    ensures Bit(x | y, b) == (Bit(x, b) || Bit(y, b))
  {
  }

  lemma BitXor(x: bv64, y: bv64, b: bv6)
    ensures Bit(x ^ y, b) == (Bit(x, b) != Bit(y, b))
  {
  }

  lemma BitOps(x: bv64, y: bv64, b: bv6)
    ensures Bit(And(x, y), b) == (Bit(x, b) && Bit(y, b))
    ensures Bit(Or(x, y), b) == (Bit(x, b) || Bit(y, b))
    ensures Bit(Xor(x, y), b) == (Bit(x, b) != Bit(y, b))
  {
    hide Bit;
    BitAnd(x, y, b);
    BitOr(x, y, b);
    BitXor(x, y, b);
  }

  lemma BitNot(x: bv64, b: bv6)
    ensures Bit(Not(x), b) == !Bit(x, b)
  {
  }

  lemma Spread(v: bv64, b: bv6)
    requires v == 0 || v == 1
    ensures Bit(Minus(v), b) == (v == 1)
  {
  }

  lemma ShiftedBit(v: bv64, b: bv6, c: bv6)
    requires v == 0 || v == 1
    ensures Bit(Shifted(v, b), c) == (b == c && v == 1)
  {
  }

  /** The word with bit b replaced by v, which is 0 or 1 (src/bloom.cpp:294-297). */
  function WithBit(x: bv64, v: bv64, b: bv6): bv64 {
    Or(And(x, Not(Shifted(1, b))), Shifted(v, b))
  }

  lemma SetBit(x: bv64, v: bv64, b: bv6, c: bv6)
    requires v == 0 || v == 1
    ensures Bit(WithBit(x, v, b), c) == if b == c then v == 1 else Bit(x, c)
  {
    hide Bit, And, Or, Xor, Not, Shifted;
    var one := Shifted(1, b);
    ShiftedBit(1, b, c);
    ShiftedBit(v, b, c);
    BitNot(one, c);
    BitOps(x, Not(one), c);
    BitOps(And(x, Not(one)), Shifted(v, b), c);
  }

  /** What the wipe keeps of a pair of words (src/bloom.cpp:274-279). */
  function WipeMask(p1: bv64, p2: bv64, generation: nat): bv64 {
    Or(Xor(p1, Minus(Low(generation))), Xor(p2, Minus(High(generation))))
  }

  lemma WipeMaskBit(p1: bv64, p2: bv64, generation: nat, b: bv6)
    ensures Bit(WipeMask(p1, p2, generation), b) ==
            (Bit(p1, b) != (Low(generation) == 1) || Bit(p2, b) != (High(generation) == 1))
  {
    hide Bit, Or, Xor, And, Minus;
    var m1, m2 := Minus(Low(generation)), Minus(High(generation));
    Spread(Low(generation), b);
    Spread(High(generation), b);
    BitOps(p1, m1, b);
    BitOps(p2, m2, b);
    BitOps(Xor(p1, m1), Xor(p2, m2), b);
  }

  ghost function WipedWord(data: seq<bv64>, i: nat, generation: nat): bv64
    requires i < |data| && |data| % 2 == 0
  {
    var w := Even(i, |data|);
    And(data[i], WipeMask(data[w], data[w + 1], generation))
  }

  /** The word-pair mask clears exactly the positions that carry the generation. */
  lemma WipePair(p1: bv64, p2: bv64, generation: nat, b: bv6)
    requires 1 <= generation <= 3
    ensures var mask := WipeMask(p1, p2, generation);
            PairTag(And(p1, mask), And(p2, mask), b) ==
            if PairTag(p1, p2, b) == generation then 0 else PairTag(p1, p2, b)
  {
    hide Bit, WipeMask, And, Or, Xor;
    WipeMaskBit(p1, p2, generation, b);
    BitOps(p1, WipeMask(p1, p2, generation), b);
    BitOps(p2, WipeMask(p1, p2, generation), b);
  }

  ghost function Tag(data: seq<bv64>, w: nat, b: bv6): (t: nat)
    requires w + 1 < |data|
    ensures t <= 3
  {
    PairTag(data[w], data[w + 1], b)
  }

  // ---------- Where a key is kept ----------

  datatype Params<!Key> = Params(hashFuncs: nat, size: nat, murmur: (nat, Key) -> nat, tweak: nat)

  ghost predicate Sane<Key>(ps: Params<Key>) {
    1 <= ps.hashFuncs <= 50 && ps.size > 0 && ps.size % 2 == 0
  }

  /** MurmurHash3 under a seed that depends on the number of the hash function (src/bloom.cpp:253-257). */
  function RollingHash<Key>(ps: Params<Key>, n: nat, k: Key): (h: nat)
    ensures h < U32
  {
    ps.murmur((n * 0xFBA4C795 + ps.tweak) % U32, k) % U32
  }

  /** The low six bits. */
  function BitOf(h: nat): bv6 {
    (h % 64) as bv6
  }

  /** The hash functions of a filter have different seeds. */
  lemma SeedsDiffer(m: nat, n: nat, tweak: nat)
    requires m < n < 50
    ensures (m * 0xFBA4C795 + tweak) % U32 != (n * 0xFBA4C795 + tweak) % U32
  {
    Apart(n - m);
    var a, b := m * 0xFBA4C795 + tweak, n * 0xFBA4C795 + tweak;
    assert b == a + (n - m) * 0xFBA4C795;
    SameRemainder(a, b);
  }

  lemma SameRemainder(a: nat, b: nat)
    requires a <= b
    ensures a % U32 == b % U32 ==> (b - a) % U32 == 0
  {
    var q, r := a / U32, b / U32;
    assert a == U32 * q + a % U32 && b == U32 * r + b % U32;
    if a % U32 == b % U32 {
      assert b - a == U32 * (r - q);
    }
  }

  lemma Apart(d: nat)
    requires 1 <= d < 50
    ensures d * 0xFBA4C795 % U32 != 0
  {
  }

  function Even(pos: nat, size: nat): (w: nat)
    requires pos < size && size % 2 == 0
    ensures w + 1 < size && w % 2 == 0 && w <= pos <= w + 1
  {
    pos - pos % 2
  }

  /** The first word of the pair that a hash selects. */
  function WordOf(h: nat, size: nat): (w: nat)
    requires h < U32 && size > 0 && size % 2 == 0
    ensures w + 1 < size && w % 2 == 0
  {
    Even(HighWord(h, size), size)
  }

  ghost predicate At<Key>(ps: Params<Key>, k: Key, n: nat, w: nat, b: bv6)
    requires Sane(ps) && n < ps.hashFuncs
  {
    w == WordOf(RollingHash(ps, n, k), ps.size) && b == BitOf(RollingHash(ps, n, k))
  }

  /** The position is one of the first n of the key. */
  ghost predicate Hit<Key>(ps: Params<Key>, k: Key, n: nat, w: nat, b: bv6)
    requires Sane(ps) && n <= ps.hashFuncs
  {
    exists m :: 0 <= m < n && At(ps, k, m, w, b)
  }

  ghost function KeyTag<Key>(ps: Params<Key>, data: seq<bv64>, k: Key, n: nat): nat
    requires Sane(ps) && |data| == ps.size && n < ps.hashFuncs
  {
    Tag(data, WordOf(RollingHash(ps, n, k), ps.size), BitOf(RollingHash(ps, n, k)))
  }

  /** All positions of the key carry tags of the given generations. */
  ghost predicate Held<Key>(ps: Params<Key>, data: seq<bv64>, k: Key, tags: set<nat>)
    requires Sane(ps) && |data| == ps.size
  {
    forall n :: 0 <= n < ps.hashFuncs ==> KeyTag(ps, data, k, n) in tags
  }

  /** What the filter says of a hash x: x as a fraction of 2^32, taken of the number of words, selects the
      pair of words, and x modulo 64 the bit. */
  ghost function TagAt(data: seq<bv64>, x: nat): nat
    requires x < U32 && |data| > 0 && |data| % 2 == 0
  {
    PairInside(x, |data|);
    var w, b := x * |data| / U32 / 2 * 2, (x % 64) as bv6;
    (if Bit(data[w], b) then 1 else 0) + (if Bit(data[w + 1], b) then 2 else 0)
  }

  lemma PairInside(x: nat, size: nat)
    requires x < U32 && size > 0 && size % 2 == 0
    ensures 0 <= x * size / U32 / 2 * 2 && x * size / U32 / 2 * 2 + 1 < size
    ensures WordOf(x, size) == x * size / U32 / 2 * 2
  {
    HighWordBound(x, size);
    var p := x * size / U32;
    assert p == HighWord(x, size);
  }

  lemma InsertedTags<Key>(ps: Params<Key>, data: seq<bv64>, data': seq<bv64>, k: Key, generation: nat, reused: bool)
    requires Sane(ps) && |data| == ps.size && Inserted(ps, data, data', k, generation, reused)
    ensures forall n :: 0 <= n < ps.hashFuncs ==> KeyTag(ps, data', k, n) == generation
  {
    hide Tag, WordOf, BitOf;
    forall n | 0 <= n < ps.hashFuncs
      ensures KeyTag(ps, data', k, n) == generation
    {
      var w, b := WordOf(RollingHash(ps, n, k), ps.size), BitOf(RollingHash(ps, n, k));
      assert At(ps, k, n, w, b);
      assert Hit(ps, k, ps.hashFuncs, w, b);
      assert Tag(data', w, b) == generation;
    }
  }

  /** What the filter says of a key under hash function n. */
  lemma KeyTagIs<Key>(ps: Params<Key>, data: seq<bv64>, k: Key, n: nat)
    requires Sane(ps) && |data| == ps.size && n < ps.hashFuncs
    ensures KeyTag(ps, data, k, n) == TagAt(data, ps.murmur((n * 0xFBA4C795 + ps.tweak) % U32, k) % U32)
  {
    hide Bit, WordOf;
    PairInside(ps.murmur((n * 0xFBA4C795 + ps.tweak) % U32, k) % U32, ps.size);
  }

  // ---------- What the two kinds of change do to every position ----------

  ghost predicate Wiped(data: seq<bv64>, data': seq<bv64>, generation: nat) {
    |data'| == |data| &&
    forall w, b {:trigger Tag(data', w, b)} :: 0 <= w && w + 1 < |data| && w % 2 == 0 ==>
      Tag(data', w, b) == if Tag(data, w, b) == generation then 0 else Tag(data, w, b)
  }

  /** Masking every pair of words wipes the generation. */
  lemma WordsWiped(data: seq<bv64>, data': seq<bv64>, generation: nat)
    requires 1 <= generation <= 3 && |data'| == |data| && |data| % 2 == 0
    requires forall i :: 0 <= i < |data| ==> data'[i] == WipedWord(data, i, generation)
    ensures Wiped(data, data', generation)
  {
    hide PairTag, WipeMask, And, WipedWord;
    forall w, b | 0 <= w && w + 1 < |data| && w % 2 == 0
      ensures Tag(data', w, b) == if Tag(data, w, b) == generation then 0 else Tag(data, w, b)
    {
      PairWiped(data, data', w, generation);
      WipePair(data[w], data[w + 1], generation, b);
    }
  }

  lemma WipedPair(data: seq<bv64>, w: nat, generation: nat)
    requires |data| % 2 == 0 && w + 1 < |data| && w % 2 == 0
    ensures var mask := WipeMask(data[w], data[w + 1], generation);
            && WipedWord(data, w, generation) == And(data[w], mask)
            && WipedWord(data, w + 1, generation) == And(data[w + 1], mask)
  {
    hide WipeMask, And;
  }

  lemma PairWiped(data: seq<bv64>, data': seq<bv64>, w: nat, generation: nat)
    requires |data'| == |data| && |data| % 2 == 0 && w + 1 < |data| && w % 2 == 0
    requires data'[w] == WipedWord(data, w, generation) && data'[w + 1] == WipedWord(data, w + 1, generation)
    ensures var mask := WipeMask(data[w], data[w + 1], generation);
            data'[w] == And(data[w], mask) && data'[w + 1] == And(data[w + 1], mask)
  {
    hide WipeMask, And;
  }

  ghost predicate Marked<Key>(ps: Params<Key>, data: seq<bv64>, data': seq<bv64>, k: Key, n: nat, generation: nat)
    requires Sane(ps) && |data| == ps.size && n <= ps.hashFuncs
  {
    |data'| == |data| &&
    forall w, b {:trigger Tag(data', w, b)} :: 0 <= w && w + 1 < |data| && w % 2 == 0 ==>
      Tag(data', w, b) == if Hit(ps, k, n, w, b) then generation else Tag(data, w, b)
  }

  /** An insertion: the positions of the key carry the generation; of the others, those that carried
      it before are unset when the generation is a reused one. */
  ghost predicate Inserted<Key>(ps: Params<Key>, data: seq<bv64>, data': seq<bv64>, k: Key, generation: nat,
                                reused: bool)
    requires Sane(ps) && |data| == ps.size
  {
    |data'| == |data| &&
    forall w, b {:trigger Tag(data', w, b)} :: 0 <= w && w + 1 < |data| && w % 2 == 0 ==>
      Tag(data', w, b) == if Hit(ps, k, ps.hashFuncs, w, b) then generation
                          else if reused && Tag(data, w, b) == generation then 0 else Tag(data, w, b)
  }

  lemma WipedThenMarked<Key>(ps: Params<Key>, data: seq<bv64>, wiped: seq<bv64>, data': seq<bv64>, k: Key, g: nat)
    requires Sane(ps) && |data| == ps.size && Wiped(data, wiped, g) && Marked(ps, wiped, data', k, ps.hashFuncs, g)
    ensures Inserted(ps, data, data', k, g, true)
  {
    forall w, b | 0 <= w && w + 1 < |data| && w % 2 == 0
      ensures Tag(data', w, b) == if Hit(ps, k, ps.hashFuncs, w, b) then g
                                  else if Tag(data, w, b) == g then 0 else Tag(data, w, b)
    {
      assert Tag(wiped, w, b) == if Tag(data, w, b) == g then 0 else Tag(data, w, b);
    }
  }

  lemma JustMarked<Key>(ps: Params<Key>, data: seq<bv64>, data': seq<bv64>, k: Key, g: nat)
    requires Sane(ps) && |data| == ps.size && Marked(ps, data, data', k, ps.hashFuncs, g)
    ensures Inserted(ps, data, data', k, g, false)
  {
  }

  lemma WipedHolds<Key>(ps: Params<Key>, data: seq<bv64>, data': seq<bv64>, generation: nat, k: Key, tags: set<nat>)
    requires Sane(ps) && |data| == ps.size && Wiped(data, data', generation)
    requires Held(ps, data, k, tags) && generation !in tags
    ensures Held(ps, data', k, tags)
  {
    forall n | 0 <= n < ps.hashFuncs ensures KeyTag(ps, data', k, n) in tags {
      assert KeyTag(ps, data, k, n) in tags;
    }
  }

  lemma MarkedHolds<Key>(ps: Params<Key>, data: seq<bv64>, data': seq<bv64>, key: Key, generation: nat, k: Key,
                         tags: set<nat>, tags': set<nat>)
    requires Sane(ps) && |data| == ps.size && Marked(ps, data, data', key, ps.hashFuncs, generation)
    requires Held(ps, data, k, tags) && tags <= tags' && generation in tags'
    ensures Held(ps, data', k, tags')
  {
    forall n | 0 <= n < ps.hashFuncs ensures KeyTag(ps, data', k, n) in tags' {
      assert KeyTag(ps, data, k, n) in tags;
    }
  }

  lemma MarkedIsHeld<Key>(ps: Params<Key>, data: seq<bv64>, data': seq<bv64>, key: Key, generation: nat)
    requires Sane(ps) && |data| == ps.size && Marked(ps, data, data', key, ps.hashFuncs, generation)
    ensures Held(ps, data', key, {generation})
  {
    forall n | 0 <= n < ps.hashFuncs ensures KeyTag(ps, data', key, n) == generation {
      assert At(ps, key, n, WordOf(RollingHash(ps, n, key), ps.size), BitOf(RollingHash(ps, n, key)));
    }
  }

  // ---------- Three generations of keys ----------

  function Next(generation: nat): nat { if generation == 3 then 1 else generation + 1 }

  function Previous(generation: nat): nat { if generation <= 1 then 3 else generation - 1 }

  ghost predicate HeldFrom<Key>(ps: Params<Key>, data: seq<bv64>, keys: seq<Key>, from: int, tags: set<nat>)
    requires Sane(ps) && |data| == ps.size
  {
    forall j :: 0 <= j < |keys| && from <= j ==> Held(ps, data, keys[j], tags)
  }

  /** Of all keys since the reset: those of this generation carry its tag; those of this and the one
      before carry one of these two; those of the last three carry some tag. */
  ghost predicate Remembers<Key>(ps: Params<Key>, data: seq<bv64>, keys: seq<Key>, perGeneration: nat, entries: nat,
                                 g: nat)
    requires Sane(ps) && |data| == ps.size
  {
    var start := |keys| - entries;
    && HeldFrom(ps, data, keys, start, {g})
    && HeldFrom(ps, data, keys, start - perGeneration, {g, Previous(g)})
    && HeldFrom(ps, data, keys, start - 2 * perGeneration, {1, 2, 3})
  }

  lemma WipedFrom<Key>(ps: Params<Key>, data: seq<bv64>, data': seq<bv64>, g: nat, keys: seq<Key>, from: int,
                       tags: set<nat>)
    requires Sane(ps) && |data| == ps.size && Wiped(data, data', g)
    requires HeldFrom(ps, data, keys, from, tags) && g !in tags
    ensures HeldFrom(ps, data', keys, from, tags)
  {
    forall j | 0 <= j < |keys| && from <= j ensures Held(ps, data', keys[j], tags) {
      WipedHolds(ps, data, data', g, keys[j], tags);
    }
  }

  lemma MarkedFrom<Key>(ps: Params<Key>, data: seq<bv64>, data': seq<bv64>, key: Key, g: nat, keys: seq<Key>, from: int,
                        tags: set<nat>, tags': set<nat>)
    requires Sane(ps) && |data| == ps.size && Marked(ps, data, data', key, ps.hashFuncs, g)
    requires HeldFrom(ps, data, keys, from, tags) && tags <= tags' && g in tags'
    ensures HeldFrom(ps, data', keys + [key], from, tags')
  {
    forall j | 0 <= j < |keys| + 1 && from <= j ensures Held(ps, data', (keys + [key])[j], tags') {
      if j < |keys| {
        MarkedHolds(ps, data, data', key, g, keys[j], tags, tags');
      } else {
        MarkedIsHeld(ps, data, data', key, g);
        HeldMore(ps, data', key, {g}, tags');
      }
    }
  }

  lemma HeldMore<Key>(ps: Params<Key>, data: seq<bv64>, k: Key, tags: set<nat>, tags': set<nat>)
    requires Sane(ps) && |data| == ps.size && Held(ps, data, k, tags) && tags <= tags'
    ensures Held(ps, data, k, tags')
  {
  }

  /** A full generation gives way: its tag moves from third to first place. */
  lemma Rotate<Key>(ps: Params<Key>, data: seq<bv64>, data': seq<bv64>, keys: seq<Key>, perGeneration: nat, g: nat)
    requires Sane(ps) && |data| == ps.size && 1 <= g <= 3 && Wiped(data, data', Next(g))
    requires Remembers(ps, data, keys, perGeneration, perGeneration, g)
    ensures Remembers'(ps, data', keys, perGeneration, g)
  {
    hide Held, Wiped;
    var start := |keys| - perGeneration;
    WipedFrom(ps, data, data', Next(g), keys, start, {g});
    WipedFrom(ps, data, data', Next(g), keys, start - perGeneration, {g, Previous(g)});
  }

  /** Just after a wipe, no key carries the new generation yet. */
  ghost predicate Remembers'<Key>(ps: Params<Key>, data: seq<bv64>, keys: seq<Key>, perGeneration: nat, g: nat)
    requires Sane(ps) && |data| == ps.size
  {
    && HeldFrom(ps, data, keys, |keys| - perGeneration, {g})
    && HeldFrom(ps, data, keys, |keys| - 2 * perGeneration, {g, Previous(g)})
  }

  lemma FirstOfGeneration<Key>(ps: Params<Key>, data: seq<bv64>, data': seq<bv64>, keys: seq<Key>, key: Key,
                               perGeneration: nat, g: nat)
    requires Sane(ps) && |data| == ps.size && 1 <= g <= 3
    requires Marked(ps, data, data', key, ps.hashFuncs, Next(g))
    requires Remembers'(ps, data, keys, perGeneration, g)
    ensures Remembers(ps, data', keys + [key], perGeneration, 1, Next(g))
  {
    hide Held, Marked;
    assert HeldFrom(ps, data, keys, |keys|, {Next(g)});
    MarkedFrom(ps, data, data', key, Next(g), keys, |keys|, {Next(g)}, {Next(g)});
    MarkedFrom(ps, data, data', key, Next(g), keys, |keys| - perGeneration, {g}, {Next(g), Previous(Next(g))});
    MarkedFrom(ps, data, data', key, Next(g), keys, |keys| - 2 * perGeneration, {g, Previous(g)}, {1, 2, 3});
  }

  lemma NextOfGeneration<Key>(ps: Params<Key>, data: seq<bv64>, data': seq<bv64>, keys: seq<Key>, key: Key,
                              perGeneration: nat, entries: nat, g: nat)
    requires Sane(ps) && |data| == ps.size && 1 <= g <= 3
    requires Marked(ps, data, data', key, ps.hashFuncs, g)
    requires Remembers(ps, data, keys, perGeneration, entries, g)
    ensures Remembers(ps, data', keys + [key], perGeneration, entries + 1, g)
  {
    hide Held, Marked;
    var start := |keys| - entries;
    MarkedFrom(ps, data, data', key, g, keys, start, {g}, {g});
    MarkedFrom(ps, data, data', key, g, keys, start - perGeneration, {g, Previous(g)}, {g, Previous(g)});
    MarkedFrom(ps, data, data', key, g, keys, start - 2 * perGeneration, {1, 2, 3}, {1, 2, 3});
  }

  // ---------- The methods' elementary changes ----------

  /** One hash more: the position of hash n gets the tag. */
  lemma MarkOne<Key>(ps: Params<Key>, data: seq<bv64>, d: seq<bv64>, d': seq<bv64>, k: Key, n: nat, g: nat)
    requires Sane(ps) && |data| == ps.size && n < ps.hashFuncs && Marked(ps, data, d, k, n, g)
    requires |d'| == |d|
    requires forall w, b :: 0 <= w && w + 1 < |d| && w % 2 == 0 ==>
               Tag(d', w, b) == if At(ps, k, n, w, b) then g else Tag(d, w, b)
    ensures Marked(ps, data, d', k, n + 1, g)
  {
    forall w, b | 0 <= w && w + 1 < |data| && w % 2 == 0
      ensures Tag(d', w, b) == if Hit(ps, k, n + 1, w, b) then g else Tag(data, w, b)
    {
      HitStep(ps, k, n, w, b);
    }
  }

  lemma HitStep<Key>(ps: Params<Key>, k: Key, n: nat, w: nat, b: bv6)
    requires Sane(ps) && n < ps.hashFuncs
    ensures Hit(ps, k, n + 1, w, b) <==> Hit(ps, k, n, w, b) || At(ps, k, n, w, b)
  {
  }

  lemma SetPair(data: seq<bv64>, data': seq<bv64>, w: nat, b: bv6, g: nat, w': nat, b': bv6)
    requires 1 <= g <= 3 && w + 1 < |data| && w' + 1 < |data| == |data'| && w % 2 == w' % 2 == 0
    requires data' == data[w := WithBit(data[w], Low(g), b)][w + 1 := WithBit(data[w + 1], High(g), b)]
    ensures Tag(data', w', b') == if w == w' && b == b' then g else Tag(data, w', b')
  {
    hide Bit, WithBit;
    SetBit(data[w], Low(g), b, b');
    SetBit(data[w + 1], High(g), b, b');
  }
}

module Bloom {
  import opened Common
  import opened Words
  import opened BloomSpec

  /** CRollingBloomFilter. The sizes that the source computes in floating point are parameters; the
      ghost field holds every key since the last reset. */
  class RollingBloomFilter<Key(!new)> {
    const data: array<bv64>
    const hashFuncs: nat
    const entriesPerGeneration: nat
    var entriesThisGeneration: nat
    var generation: nat
    const murmur: (nat, Key) -> nat
    var tweak: nat
    ghost var keys: seq<Key>
    ghost const elements: nat

    ghost function Ps(): Params<Key>
      reads this
    {
      Params(hashFuncs, data.Length, murmur, tweak)
    }

    ghost predicate Shape()
      reads this
    {
      && Sane(Ps()) && 1 <= generation <= 3 && entriesPerGeneration >= 1
      && entriesThisGeneration <= entriesPerGeneration && entriesPerGeneration == (elements + 1) / 2
    }

    ghost predicate Valid()
      reads this, data
    {
      && Shape()
      && entriesThisGeneration <= |keys|
      && Remembers(Ps(), data[..], keys, entriesPerGeneration, entriesThisGeneration, generation)
    }

    /** src/bloom.cpp:216-250 */
    constructor (elements: nat, hashFuncs: nat, filterBits: nat, murmur: (nat, Key) -> nat, random: nat)
      requires elements >= 1 && 1 <= hashFuncs <= 50 && filterBits >= 1
      ensures Valid() && fresh(data) && keys == [] && this.elements == elements
      ensures this.hashFuncs == hashFuncs && this.murmur == murmur && tweak == random
      ensures data.Length == (filterBits + 63) / 64 * 2 && forall i :: 0 <= i < data.Length ==> data[i] == 0
    {
      this.elements := elements;
      this.hashFuncs := hashFuncs;
      entriesPerGeneration := (elements + 1) / 2;
      var words := (filterBits + 63) / 64 * 2;
      data := new bv64[words];
      this.murmur := murmur;
      new;
      Reset(random);
    }

    /** src/bloom.cpp:315-320. The new tweak comes from the random number generator. */
    method Reset(random: nat)
      requires Sane(Params(hashFuncs, data.Length, murmur, random))
      requires entriesPerGeneration >= 1 && entriesPerGeneration == (elements + 1) / 2
      modifies this, data
      ensures Valid() && keys == [] && tweak == random && entriesThisGeneration == 0 && generation == 1
      ensures forall i :: 0 <= i < data.Length ==> data[i] == 0
    {
      tweak := random;
      entriesThisGeneration := 0;
      generation := 1;
      keys := [];
      forall i | 0 <= i < data.Length {
        data[i] := 0;
      }
    }

    /** The wipe of the reused generation (src/bloom.cpp:274-282). */
    method Wipe(g: nat)
      requires 1 <= g <= 3 && data.Length % 2 == 0
      modifies data
      ensures Wiped(old(data[..]), data[..], g)
    {
      hide PairTag, WipeMask, And, Wiped, WipedWord;
      ghost var before := data[..];
      var p := 0;
      while p < data.Length
        invariant 0 <= p <= data.Length && p % 2 == 0
        invariant forall i :: p <= i < data.Length ==> data[i] == before[i]
        invariant forall i :: 0 <= i < p ==> data[i] == WipedWord(before, i, g)
      {
        WipedPair(before, p, g);
        var p1, p2 := data[p], data[p + 1];
        var mask := WipeMask(p1, p2, g);
        data[p] := And(p1, mask);
        data[p + 1] := And(p2, mask);
        p := p + 2;
      }
      WordsWiped(old(data[..]), data[..], g);
    }

    /** One hash function's share of an insertion (src/bloom.cpp:287-297). */
    method Mark(h: nat)
      requires Shape() && h < U32
      modifies data
      ensures forall w, b :: 0 <= w && w + 1 < data.Length && w % 2 == 0 ==>
                Tag(data[..], w, b) ==
                if w == WordOf(h, data.Length) && b == BitOf(h) then generation else Tag(old(data[..]), w, b)
    {
      hide Tag, WithBit, WordOf, BitOf, Low, High;
      var bit, w := BitOf(h), WordOf(h, data.Length);
      data[w] := WithBit(data[w], Low(generation), bit);
      data[w + 1] := WithBit(data[w + 1], High(generation), bit);
      forall w', b' | 0 <= w' && w' + 1 < data.Length && w' % 2 == 0
        ensures Tag(data[..], w', b') == if w' == w && b' == bit then generation else Tag(old(data[..]), w', b')
      {
        SetPair(old(data[..]), data[..], w, bit, generation, w', b');
      }
    }

    /** The loop over the hash functions (src/bloom.cpp:286-298). */
    method MarkAll(k: Key)
      requires Shape()
      modifies data
      ensures Marked(Ps(), old(data[..]), data[..], k, hashFuncs, generation)
    {
      hide Tag, WordOf, BitOf;
      var n := 0;
      while n < hashFuncs
        invariant 0 <= n <= hashFuncs && Marked(Ps(), old(data[..]), data[..], k, n, generation)
      {
        ghost var before := data[..];
        Mark(RollingHash(Params(hashFuncs, data.Length, murmur, tweak), n, k));
        MarkOne(Ps(), old(data[..]), before, data[..], k, n, generation);
        n := n + 1;
      }
    }

    /** src/bloom.cpp:267-299 */
    method Insert(k: Key)
      requires Valid()
      modifies this`entriesThisGeneration, this`generation, this`keys, data
      ensures Valid() && keys == old(keys) + [k]
      ensures Inserted(Ps(), old(data[..]), data[..], k, generation, old(entriesThisGeneration) == entriesPerGeneration)
      ensures if old(entriesThisGeneration) == entriesPerGeneration
              then entriesThisGeneration == 1 && generation == Next(old(generation))
              else entriesThisGeneration == old(entriesThisGeneration) + 1 && generation == old(generation)
      ensures forall n :: 0 <= n < hashFuncs ==> KeyTag(Ps(), data[..], k, n) == generation
    {
      hide Remembers, Remembers', Marked, Wiped, Inserted, KeyTag;
      if entriesThisGeneration == entriesPerGeneration {
        entriesThisGeneration := 0;
        generation := generation + 1;
        if generation == 4 {
          generation := 1;
        }
        Wipe(generation);
        Rotate(Ps(), old(data[..]), data[..], keys, entriesPerGeneration, old(generation));
        entriesThisGeneration := entriesThisGeneration + 1;
        ghost var d := data[..];
        MarkAll(k);
        WipedThenMarked(Ps(), old(data[..]), d, data[..], k, generation);
        FirstOfGeneration(Ps(), d, data[..], keys, k, entriesPerGeneration, old(generation));
      } else {
        entriesThisGeneration := entriesThisGeneration + 1;
        MarkAll(k);
        JustMarked(Ps(), old(data[..]), data[..], k, generation);
        NextOfGeneration(Ps(), old(data[..]), data[..], keys, k, entriesPerGeneration, old(entriesThisGeneration),
                         generation);
      }
      InsertedTags(Ps(), old(data[..]), data[..], k, generation, old(entriesThisGeneration) == entriesPerGeneration);
      keys := keys + [k];
    }

    /** src/bloom.cpp:301-313, with the guarantee of src/bloom.h:120-121: the last
        2 * entriesPerGeneration + entriesThisGeneration keys, or all there are, are contained, so the
        last N are that the filter was made for. */
    method Contains(k: Key) returns (r: bool)
      requires Valid()
      ensures r <==> forall n :: 0 <= n < hashFuncs ==> KeyTag(Ps(), data[..], k, n) != 0
      ensures forall j ::
               0 <= j < |keys| && |keys| - (2 * entriesPerGeneration + entriesThisGeneration) <= j && keys[j] == k ==> r
      ensures forall j :: 0 <= j < |keys| && |keys| - elements <= j && keys[j] == k ==> r
    {
      hide Bit, Or, And, Xor, WordOf, BitOf;
      var n := 0;
      while n < hashFuncs
        invariant 0 <= n <= hashFuncs
        invariant forall m :: 0 <= m < n ==> KeyTag(Ps(), data[..], k, m) != 0
      {
        var h := RollingHash(Params(hashFuncs, data.Length, murmur, tweak), n, k);
        var bit, w := BitOf(h), WordOf(h, data.Length);
        BitOps(data[w], data[w + 1], bit);
        assert KeyTag(Ps(), data[..], k, n) == PairTag(data[w], data[w + 1], bit);
        if !Bit(Or(data[w], data[w + 1]), bit) {
          return false;
        }
        n := n + 1;
      }
      return true;
    }
  }
}
