/** The cuckoo cache of src/cuckoocache.h: what a slot vector holds, counted over all slots. */
module CuckooSpec {
  import opened Common
  import opened Words

  datatype Element<Key, Value> = Element(key: Key, value: Value)

  /** A slot vector: contents, which slots may be overwritten, which belong to the latest epoch. */
  datatype Slots<Key, Value> = Slots(table: seq<Element<Key, Value>>, dead: seq<bool>, recent: seq<bool>)

  ghost predicate Shape<K, V>(s: Slots<K, V>) {
    |s.table| == |s.dead| == |s.recent|
  }

  ghost function Put<K, V>(s: Slots<K, V>, i: nat, e: Element<K, V>, dead: bool, recent: bool): (r: Slots<K, V>)
    requires Shape(s) && i < |s.table|
    ensures Shape(r) && |r.table| == |s.table|
  {
    Slots(s.table[i := e], s.dead[i := dead], s.recent[i := recent])
  }

  ghost function Front<K, V>(s: Slots<K, V>): (r: Slots<K, V>)
    requires Shape(s) && s.table != []
    ensures Shape(r) && |r.table| == |s.table| - 1
  {
    var n := |s.table| - 1;
    Slots(s.table[..n], s.dead[..n], s.recent[..n])
  }

  ghost function One<K, V>(e: Element<K, V>, dead: bool): multiset<Element<K, V>> {
    if dead then multiset{} else multiset{e}
  }

  function Unit(b: bool): nat { if b then 1 else 0 }

  /** Everything stored in a slot that may not be overwritten. */
  ghost function Live<K, V>(s: Slots<K, V>): multiset<Element<K, V>>
    requires Shape(s)
    decreases |s.table|
  {
    if s.table == [] then multiset{}
    else Live(Front(s)) + One(s.table[|s.table| - 1], s.dead[|s.table| - 1])
  }

  /** How many of those belong to the latest epoch. */
  ghost function Recent<K, V>(s: Slots<K, V>): nat
    requires Shape(s)
    decreases |s.table|
  {
    if s.table == [] then 0
    else Recent(Front(s)) + Unit(s.recent[|s.table| - 1] && !s.dead[|s.table| - 1])
  }

  /** Taking the last slot off commutes with a change of another slot. */
  lemma PutFront<K, V>(s: Slots<K, V>, i: nat, e: Element<K, V>, dead: bool, recent: bool)
    requires Shape(s) && i < |s.table|
    ensures Front(Put(s, i, e, dead, recent)) ==
            if i < |s.table| - 1 then Put(Front(s), i, e, dead, recent) else Front(s)
  {
  }

  lemma Exchange<T>(a: multiset<T>, b: multiset<T>, x: multiset<T>, y: multiset<T>, last: multiset<T>)
    requires a + x == b + y
    ensures (a + last) + x == (b + last) + y
  {
    assert (a + last) + x == (a + x) + last;
    assert (b + last) + y == (b + y) + last;
  }

  lemma {:induction false} PutLive<K, V>(s: Slots<K, V>, i: nat, e: Element<K, V>, dead: bool, recent: bool)
    requires Shape(s) && i < |s.table|
    ensures Live(Put(s, i, e, dead, recent)) + One(s.table[i], s.dead[i]) == Live(s) + One(e, dead)
    decreases |s.table|
  {
    hide Front, One;
    var n, s' := |s.table| - 1, Put(s, i, e, dead, recent);
    var f := Front(s);
    PutFront(s, i, e, dead, recent);
    if i < n {
      FrontAt(s, i);
      PutLive(f, i, e, dead, recent);
      Exchange(Live(Front(s')), Live(f), One(s.table[i], s.dead[i]), One(e, dead), One(s.table[n], s.dead[n]));
    }
  }

  lemma FrontAt<K, V>(s: Slots<K, V>, i: nat)
    requires Shape(s) && i < |s.table| - 1
    ensures var f := Front(s); f.table[i] == s.table[i] && f.dead[i] == s.dead[i] && f.recent[i] == s.recent[i]
  {
  }

  lemma {:induction false} PutRecent<K, V>(s: Slots<K, V>, i: nat, e: Element<K, V>, dead: bool, recent: bool)
    requires Shape(s) && i < |s.table|
    ensures Recent(Put(s, i, e, dead, recent)) + Unit(s.recent[i] && !s.dead[i]) == Recent(s) + Unit(recent && !dead)
    decreases |s.table|
  {
    hide Front, Unit;
    PutFront(s, i, e, dead, recent);
    if i < |s.table| - 1 {
      FrontAt(s, i);
      PutRecent(Front(s), i, e, dead, recent);
    }
  }

  lemma {:induction false} NoneRecent<K, V>(s: Slots<K, V>)
    requires Shape(s) && forall i :: 0 <= i < |s.recent| ==> !s.recent[i] || s.dead[i]
    ensures Recent(s) == 0
    decreases |s.table|
  {
    if s.table != [] {
      NoneRecent(Front(s));
    }
  }

  /** The count over the first n slots, as the scan keeps it (src/cuckoocache.h:326-330). */
  ghost function Cut<K, V>(s: Slots<K, V>, n: nat): (r: Slots<K, V>)
    requires Shape(s) && n <= |s.table|
    ensures Shape(r) && |r.table| == n
  {
    Slots(s.table[..n], s.dead[..n], s.recent[..n])
  }

  lemma CutStep<K, V>(s: Slots<K, V>, n: nat)
    requires Shape(s) && n < |s.table|
    ensures Recent(Cut(s, n + 1)) == Recent(Cut(s, n)) + Unit(s.recent[n] && !s.dead[n])
  {
    assert Front(Cut(s, n + 1)) == Cut(s, n);
  }

  lemma NothingCut<K, V>(s: Slots<K, V>)
    requires Shape(s)
    ensures Recent(Cut(s, 0)) == 0
  {
  }

  lemma WholeCut<K, V>(s: Slots<K, V>)
    requires Shape(s)
    ensures Cut(s, |s.table|) == s
  {
  }

  lemma {:induction false} LiveHas<K, V>(s: Slots<K, V>, e: Element<K, V>) returns (i: nat)
    requires Shape(s) && e in Live(s)
    ensures i < |s.table| && s.table[i] == e && !s.dead[i]
    decreases |s.table|
  {
    var n := |s.table| - 1;
    if !s.dead[n] && s.table[n] == e {
      i := n;
    } else {
      i := LiveHas(Front(s), e);
    }
  }

  ghost function RecentSlots(dead: seq<bool>, recent: seq<bool>): set<int>
    requires |dead| == |recent|
  {
    set i | 0 <= i < |dead| && !dead[i] && recent[i]
  }

  /** The count is that of the slots that are live and of the latest epoch. */
  lemma {:induction false} RecentCounts<K, V>(s: Slots<K, V>)
    requires Shape(s)
    ensures Recent(s) == |RecentSlots(s.dead, s.recent)|
    decreases |s.table|
  {
    hide RecentSlots;
    if s.table == [] {
      NoRecentSlots(s.dead, s.recent);
    } else {
      RecentCounts(Front(s));
      OneMoreSlot(s.dead, s.recent);
    }
  }

  lemma NoRecentSlots(dead: seq<bool>, recent: seq<bool>)
    requires |dead| == |recent| == 0
    ensures RecentSlots(dead, recent) == {}
  {
  }

  lemma OneMoreSlot(dead: seq<bool>, recent: seq<bool>)
    requires |dead| == |recent| > 0
    ensures var n := |dead| - 1;
            |RecentSlots(dead, recent)| == |RecentSlots(dead[..n], recent[..n])| + Unit(recent[n] && !dead[n])
  {
    var n := |dead| - 1;
    var less := RecentSlots(dead[..n], recent[..n]);
    if recent[n] && !dead[n] {
      assert RecentSlots(dead, recent) == less + {n} && n !in less;
    } else {
      assert RecentSlots(dead, recent) == less;
    }
  }

  // ---------- Epochs ----------

  const MIN_SCAN: nat := 16

  /** How many live elements of the latest epoch and remaining insertions there may be together. */
  function Limit(epochSize: nat): nat {
    epochSize + Max(1, epochSize / MIN_SCAN)
  }

  /** The slots after epoch_check (src/cuckoocache.h:319-354). */
  ghost function Aged<K, V>(s: Slots<K, V>, counter: nat, epochSize: nat): (r: Slots<K, V>)
    requires Shape(s)
    ensures Shape(r) && r.table == s.table
  {
    if counter != 0 || Recent(s) < epochSize then s
    else Slots(s.table, seq(|s.dead|, i requires 0 <= i < |s.dead| => s.dead[i] || !s.recent[i]),
               seq(|s.recent|, i => false))
  }

  function Reset(counter: nat, recent: nat, epochSize: nat): nat {
    if counter != 0 then counter - 1
    else if recent >= epochSize then epochSize
    else Max(1, Max(epochSize / MIN_SCAN, epochSize - recent))
  }

  /** The least number of insertions until the next scan that is not zero, not less than a sixteenth of
      an epoch, and enough to fill the epoch. */
  ghost predicate IsNextScan(n: nat, recent: nat, epochSize: nat) {
    && n >= 1 && n >= epochSize / 16 && recent + n >= epochSize
    && (n == 1 || n == epochSize / 16 || recent + n == epochSize)
  }

  /** The check leaves room for one more recent element, whatever it decides. */
  lemma AgedLeavesRoom<K, V>(s: Slots<K, V>, counter: nat, epochSize: nat)
    requires Shape(s) && epochSize >= 1 && Recent(s) + counter <= Limit(epochSize)
    ensures Recent(Aged(s, counter, epochSize)) + Reset(counter, Recent(s), epochSize) < Limit(epochSize)
  {
    if counter == 0 && Recent(s) >= epochSize {
      NoneRecent(Aged(s, counter, epochSize));
    }
  }

  /** An element lives through an ageing exactly when it belonged to the epoch that ends. */
  lemma {:induction false} AgedKeepsRecent<K, V>(s: Slots<K, V>, counter: nat, epochSize: nat)
    requires Shape(s) && counter == 0 && Recent(s) >= epochSize
    ensures |Live(Aged(s, counter, epochSize))| == Recent(s)
  {
    AgedCount(s, Aged(s, counter, epochSize));
  }

  lemma {:induction false} AgedCount<K, V>(s: Slots<K, V>, a: Slots<K, V>)
    requires Shape(s) && Shape(a) && |a.table| == |s.table|
    requires forall i :: 0 <= i < |s.dead| ==> a.dead[i] == (s.dead[i] || !s.recent[i])
    ensures |Live(a)| == Recent(s)
    decreases |s.table|
  {
    if s.table != [] {
      AgedCount(Front(s), Front(a));
    }
  }

  // ---------- Where keys live ----------

  /** One of the eight slots of a key (src/cuckoocache.h:262-287): hash times size, high word. */
  function Slot(h: nat, size: nat): (r: nat)
    requires size > 0
    ensures r < size
  {
    HighWord(h % U32, size)
  }

  type Hashes<!Key> = (nat, Key) -> nat

  function Locs<Key>(hash: Hashes<Key>, size: nat, k: Key): (r: seq<nat>)
    requires size > 0
    ensures |r| == 8 && forall i :: 0 <= i < 8 ==> r[i] < size
  {
    [Slot(hash(0, k), size), Slot(hash(1, k), size), Slot(hash(2, k), size), Slot(hash(3, k), size),
     Slot(hash(4, k), size), Slot(hash(5, k), size), Slot(hash(6, k), size), Slot(hash(7, k), size)]
  }

  /** Slot j of a key: its hash j, as a fraction of 2^32, taken of the size. */
  ghost function Home<Key>(hash: Hashes<Key>, size: nat, k: Key, j: nat): (r: nat)
    requires size > 0
    ensures r < size
  {
    HighWordBound(hash(j, k) % U32, size);
    hash(j, k) % U32 * size / U32
  }

  lemma LocsAre<Key>(hash: Hashes<Key>, size: nat, k: Key)
    requires size > 0
    ensures forall j :: 0 <= j < 8 ==> Locs(hash, size, k)[j] == Home(hash, size, k, j)
  {
    forall j | 0 <= j < 8
      ensures Locs(hash, size, k)[j] == Home(hash, size, k, j)
    {
      SlotIs(hash(j, k), size);
    }
  }

  lemma SlotIs(h: nat, size: nat)
    requires size > 0
    ensures Slot(h, size) == h % U32 * size / U32
  {
  }

  /** The slot is one of the eight of the key. */
  ghost predicate IsHome<Key>(hash: Hashes<Key>, size: nat, k: Key, i: nat)
    requires size > 0
  {
    exists j :: 0 <= j < 8 && i == Home(hash, size, k, j)
  }

  lemma HomeIsLoc<Key>(hash: Hashes<Key>, size: nat, k: Key, i: nat)
    requires size > 0
    ensures IsHome(hash, size, k, i) <==> i in Locs(hash, size, k)
  {
    hide Home, Locs;
    LocsAre(hash, size, k);
    var locs := Locs(hash, size, k);
    if i in locs {
      var j :| 0 <= j < |locs| && locs[j] == i;
      assert i == Home(hash, size, k, j);
    }
  }

  /** Every live element, and every element with a real key, is in a slot of its own. */
  ghost predicate AtHome<Key, V>(s: Slots<Key, V>, hash: Hashes<Key>, none: Key)
    requires Shape(s)
  {
    forall i :: 0 <= i < |s.table| && (!s.dead[i] || s.table[i].key != none) ==>
      IsHome(hash, |s.table|, s.table[i].key, i)
  }

  ghost predicate Unique<Key, V>(table: seq<Element<Key, V>>, none: Key) {
    forall i, j :: 0 <= i < j < |table| && table[i].key == table[j].key ==> table[i].key == none
  }

  ghost predicate Absent<Key, V>(table: seq<Element<Key, V>>, k: Key) {
    forall i :: 0 <= i < |table| ==> table[i].key != k
  }

  ghost predicate Housed<Key, V>(s: Slots<Key, V>, hash: Hashes<Key>, none: Key) {
    Shape(s) && AtHome(s, hash, none) && Unique(s.table, none)
  }

  /** A key that is in none of its slots is in no slot. */
  lemma NotFoundIsAbsent<Key, V>(s: Slots<Key, V>, hash: Hashes<Key>, none: Key, k: Key)
    requires Housed(s, hash, none) && |s.table| > 0 && k != none
    requires forall i :: i in Locs(hash, |s.table|, k) ==> s.table[i].key != k
    ensures Absent(s.table, k)
  {
    hide IsHome, Locs;
    forall i | 0 <= i < |s.table| && s.table[i].key == k
      ensures false
    {
      HomeIsLoc(hash, |s.table|, k, i);
    }
  }

  lemma PutHoused<Key, V>(s: Slots<Key, V>, hash: Hashes<Key>, none: Key, i: nat, e: Element<Key, V>, recent: bool)
    requires Housed(s, hash, none) && |s.table| > 0 && i in Locs(hash, |s.table|, e.key)
    requires e.key == none || Absent(s.table, e.key) || s.table[i].key == e.key
    ensures i < |s.table| && Housed(Put(s, i, e, false, recent), hash, none)
  {
    var s' := Put(s, i, e, false, recent);
    hide IsHome, Locs;
    HomeIsLoc(hash, |s.table|, e.key, i);
    forall j | 0 <= j < |s'.table| && (!s'.dead[j] || s'.table[j].key != none)
      ensures IsHome(hash, |s'.table|, s'.table[j].key, j)
    {
      assert j != i ==> s'.dead[j] == s.dead[j] && s'.table[j] == s.table[j];
    }
  }

  /** Whoever is swapped out of a slot is stored nowhere else. */
  lemma SwappedIsAbsent<Key, V>(s: Slots<Key, V>, none: Key, i: nat, e: Element<Key, V>)
    requires Shape(s) && i < |s.table| && Unique(s.table, none) && s.table[i].key != none && s.table[i].key != e.key
    ensures Absent(s.table[i := e], s.table[i].key)
  {
  }

  lemma AgedHoused<Key, V>(s: Slots<Key, V>, hash: Hashes<Key>, none: Key, counter: nat, epochSize: nat)
    requires Housed(s, hash, none)
    ensures Housed(Aged(s, counter, epochSize), hash, none)
  {
  }
}

/** The classes of src/cuckoocache.h. */
module Cuckoo {
  import opened Common
  import opened Words
  import opened CuckooSpec

  /** A byte with one flag more, with one less, and what it says of a flag. */
  function With(m: bv8, i: nat): bv8
    requires i < 8
  {
    m | ((1 as bv8) << i)
  }

  function Without(m: bv8, i: nat): bv8
    requires i < 8
  {
    m & !((1 as bv8) << i)
  }

  predicate Has(m: bv8, i: nat)
    requires i < 8
  {
    ((1 as bv8) << i) & m != 0
  }

  lemma FlagBits(m: bv8, i: nat, j: nat)
    requires i < 8 && j < 8
    ensures Has(With(m, i), j) <==> i == j || Has(m, j)
    ensures Has(Without(m, i), j) <==> i != j && Has(m, j)
  {
    var a: bv8, b: bv8 := (1 as bv8) << i, (1 as bv8) << j;
    Powers(i);
    Powers(j);
  }

  lemma Powers(i: nat)
    requires i < 8
    ensures (1 as bv8) << i == [1 as bv8, 2, 4, 8, 16, 32, 64, 128][i]
  {
  }

  /** Eight flags to a byte. */
  ghost predicate Packed(mem: seq<bv8>, bits: seq<bool>) {
    |bits| <= 8 * |mem| && forall s :: 0 <= s < |bits| ==> bits[s] == Has(mem[s / 8], s % 8)
  }

  lemma PackedAt(mem: seq<bv8>, bits: seq<bool>, s: nat)
    requires Packed(mem, bits) && s < |bits|
    ensures s / 8 < |mem| && bits[s] == Has(mem[s / 8], s % 8)
  {
    hide Has;
  }

  lemma PutBit(mem: seq<bv8>, bits: seq<bool>, s: nat)
    requires Packed(mem, bits) && s < |bits| && s / 8 < |mem|
    ensures Packed(mem[s / 8 := With(mem[s / 8], s % 8)], bits[s := true])
    ensures Packed(mem[s / 8 := Without(mem[s / 8], s % 8)], bits[s := false])
  {
    hide With, Without, Has;
    forall t | 0 <= t < |bits|
      ensures bits[s := true][t] == Has(mem[s / 8 := With(mem[s / 8], s % 8)][t / 8], t % 8)
      ensures bits[s := false][t] == Has(mem[s / 8 := Without(mem[s / 8], s % 8)][t / 8], t % 8)
    {
      FlagBits(mem[t / 8], s % 8, t % 8);
      assert s == t <==> s / 8 == t / 8 && s % 8 == t % 8;
    }
  }

  /** src/cuckoocache.h:59-113: flags packed eight to a byte. */
  class BitPackedFlags {
    var mem: seq<bv8>
    ghost var bits: seq<bool>

    ghost predicate Valid()
      reads this
    {
      Packed(mem, bits)
    }

    constructor (b: nat)
      ensures Valid() && bits == seq(b, i => true)
    {
      var bytes := (b + 7) / 8;
      mem := seq(bytes, i => 0xFF);
      bits := seq(b, i => true);
      new;
      forall s | 0 <= s < |bits| ensures Has(mem[s / 8], s % 8) {
        Powers(s % 8);
      }
    }

    method BitSet(s: nat)
      requires Valid() && s < |bits|
      modifies this
      ensures Valid() && bits == old(bits)[s := true]
    {
      hide Packed, With, Without;
      PackedAt(mem, bits, s);
      PutBit(mem, bits, s);
      mem := mem[s / 8 := With(mem[s / 8], s % 8)];
      bits := bits[s := true];
    }

    method BitUnset(s: nat)
      requires Valid() && s < |bits|
      modifies this
      ensures Valid() && bits == old(bits)[s := false]
    {
      hide Packed, With, Without;
      PackedAt(mem, bits, s);
      PutBit(mem, bits, s);
      mem := mem[s / 8 := Without(mem[s / 8], s % 8)];
      bits := bits[s := false];
    }

    method BitIsSet(s: nat) returns (b: bool)
      requires Valid() && s < |bits|
      ensures b == bits[s]
    {
      hide Packed, Has;
      PackedAt(mem, bits, s);
      b := Has(mem[s / 8], s % 8);
    }
  }

  /** The first of the slots locs[i..] whose key is k; 8 when there is none. */
  function Holder<Key(==), V>(table: seq<Element<Key, V>>, locs: seq<nat>, k: Key, i: nat): (r: nat)
    requires i <= |locs| == 8 && forall j :: 0 <= j < 8 ==> locs[j] < |table|
    ensures i <= r <= 8 && (r < 8 ==> table[locs[r]].key == k)
    ensures forall j :: i <= j < r ==> table[locs[j]].key != k
    decreases 8 - i
  {
    if i == 8 || table[locs[i]].key == k then i else Holder(table, locs, k, i + 1)
  }

  /** The first of the slots locs[i..] that may be overwritten; 8 when there is none. */
  function FirstFree(dead: seq<bool>, locs: seq<nat>, i: nat): (r: nat)
    requires i <= |locs| == 8 && forall j :: 0 <= j < 8 ==> locs[j] < |dead|
    ensures i <= r <= 8 && (r < 8 ==> dead[locs[r]]) && forall j :: i <= j < r ==> !dead[locs[j]]
    decreases 8 - i
  {
    if i == 8 || dead[locs[i]] then i else FirstFree(dead, locs, i + 1)
  }

  /** std::find */
  function IndexOf(locs: seq<nat>, x: nat, i: nat): (r: nat)
    requires i <= |locs|
    ensures i <= r <= |locs| && (r < |locs| ==> locs[r] == x) && forall j :: i <= j < r ==> locs[j] != x
    decreases |locs| - i
  {
    if i == |locs| || locs[i] == x then i else IndexOf(locs, x, i + 1)
  }

  /** The slot after the last one, in the cyclic order of locs; the one with index 1 when the last
      one is none of them (src/cuckoocache.h:475-478). */
  function NextSlot(locs: seq<nat>, last: nat): (r: nat)
    requires |locs| == 8
    ensures r in locs
  {
    locs[(1 + IndexOf(locs, last, 0)) % 8]
  }

  /** Which slot that is: for the first slot with the last one's number, the slot of the next hash. */
  lemma NextSlotIs(locs: seq<nat>, last: nat)
    requires |locs| == 8
    ensures last !in locs ==> NextSlot(locs, last) == locs[1]
    ensures forall i | 0 <= i < 8 && locs[i] == last && (forall j | 0 <= j < i :: locs[j] != last) ::
              NextSlot(locs, last) == locs[if i == 7 then 0 else i + 1]
  {
  }

  /** The chain of displacements: put the element into a free slot, or else into the next slot and go
      on with the element that was there; what is in hand after the last round is dropped. */
  ghost function Displaced<Key, V>(s: Slots<Key, V>, hash: Hashes<Key>, e: Element<Key, V>, recent: bool, last: nat,
                                   depth: nat)
    : (Slots<Key, V>, multiset<Element<Key, V>>)
    requires Shape(s) && |s.table| > 0
    decreases depth
  {
    if depth == 0 then (s, multiset{e})
    else
      var locs := Locs(hash, |s.table|, e.key);
      var i := FirstFree(s.dead, locs, 0);
      if i < 8 then (Put(s, locs[i], e, false, recent), multiset{})
      else
        var loc := NextSlot(locs, last);
        Displaced(Put(s, loc, e, false, recent), hash, s.table[loc], s.recent[loc], loc, depth - 1)
  }

  /** The first of the key's eight slots, in the order of the hashes, that holds the key. */
  ghost predicate FirstHeld<Key, V>(table: seq<Element<Key, V>>, hash: Hashes<Key>, k: Key, j: nat)
    requires |table| > 0
  {
    && j < 8 && table[Home(hash, |table|, k, j)].key == k
    && forall i: nat :: i < j ==> table[Home(hash, |table|, k, i)].key != k
  }

  ghost predicate NotHeld<Key, V>(table: seq<Element<Key, V>>, hash: Hashes<Key>, k: Key)
    requires |table| > 0
  {
    forall i: nat :: i < 8 ==> table[Home(hash, |table|, k, i)].key != k
  }

  /** The first of them that may be overwritten. */
  ghost predicate FirstOpen<Key>(dead: seq<bool>, hash: Hashes<Key>, k: Key, j: nat)
    requires |dead| > 0
  {
    j < 8 && dead[Home(hash, |dead|, k, j)] && forall i: nat :: i < j ==> !dead[Home(hash, |dead|, k, i)]
  }

  lemma HolderIsFirst<Key, V>(table: seq<Element<Key, V>>, hash: Hashes<Key>, k: Key)
    requires |table| > 0
    ensures var locs := Locs(hash, |table|, k);
            var i := Holder(table, locs, k, 0);
            && (NotHeld(table, hash, k) <==> i == 8)
            && (forall j: nat | FirstHeld(table, hash, k, j) :: j == i && locs[i] == Home(hash, |table|, k, j))
  {
    hide Home, Locs, Holder;
    LocsAre(hash, |table|, k);
    var locs := Locs(hash, |table|, k);
    var i := Holder(table, locs, k, 0);
    if i < 8 {
      assert table[Home(hash, |table|, k, i)].key == k;
    }
  }

  /** With a free slot the chain is that one step. */
  lemma FreeIsFirst<Key, V>(s: Slots<Key, V>, hash: Hashes<Key>, e: Element<Key, V>, depth: nat)
    requires Shape(s) && |s.table| > 0 && depth >= 1
    ensures forall j: nat | FirstOpen(s.dead, hash, e.key, j) ::
              Displaced(s, hash, e, true, U32 - 1, depth) ==
              (Put(s, Home(hash, |s.table|, e.key, j), e, false, true), multiset{})
    ensures (exists j: nat :: j < 8 && s.dead[Home(hash, |s.table|, e.key, j)]) ==>
              Displaced(s, hash, e, true, U32 - 1, depth).1 == multiset{}
  {
    hide Home, Locs, Put, NextSlot;
    LocsAre(hash, |s.table|, e.key);
    var locs := Locs(hash, |s.table|, e.key);
    var i := FirstFree(s.dead, locs, 0);
    forall j: nat | FirstOpen(s.dead, hash, e.key, j)
      ensures i < 8 && locs[i] == Home(hash, |s.table|, e.key, j)
    {
      assert s.dead[locs[j]];
    }
    if j: nat :| j < 8 && s.dead[Home(hash, |s.table|, e.key, j)] {
      assert s.dead[locs[j]];
    }
  }

  /** Elements are conserved up to the one dropped, recent ones too, and keys stay at home. */
  lemma {:induction false} DisplacedConserves<Key, V>(s: Slots<Key, V>, hash: Hashes<Key>, none: Key,
                                                      e: Element<Key, V>, recent: bool, last: nat, depth: nat)
    requires Housed(s, hash, none) && |s.table| > 0 && (e.key == none || Absent(s.table, e.key))
    ensures var (r, dropped) := Displaced(s, hash, e, recent, last, depth);
            && Housed(r, hash, none) && |r.table| == |s.table| && |dropped| <= 1
            && Live(r) + dropped == Live(s) + multiset{e} && Recent(r) <= Recent(s) + Unit(recent)
    decreases depth
  {
    hide Live, Recent, Locs, Housed, Absent, Put, FirstFree, NextSlot, AtHome, Unique;
    HousedShape(s, hash, none);
    if depth > 0 {
      var locs := Locs(hash, |s.table|, e.key);
      var i := FirstFree(s.dead, locs, 0);
      if i < 8 {
        PlaceFacts(s, hash, none, locs[i], e, recent);
      } else {
        var loc := NextSlot(locs, last);
        var k :| 0 <= k < 8 && locs[k] == loc;
        assert !s.dead[loc];
        SwapFacts(s, hash, none, loc, e, recent, Live(s) + multiset{e});
        DisplacedConserves(Put(s, loc, e, false, recent), hash, none, s.table[loc], s.recent[loc], loc, depth - 1);
      }
    }
  }

  lemma HousedShape<Key, V>(s: Slots<Key, V>, hash: Hashes<Key>, none: Key)
    requires Housed(s, hash, none)
    ensures Shape(s)
  {
  }

  /** What the slots that follow the epoch check become when the key is found. */
  ghost function Renewed<Key, V>(s: Slots<Key, V>, loc: nat, e: Element<Key, V>, replace: bool): (r: Slots<Key, V>)
    requires Shape(s) && loc < |s.table|
    ensures Shape(r)
  {
    Put(s, loc, if replace then e else s.table[loc], false, true)
  }

  class Cache<Key(==, !new), Value> {
    var table: seq<Element<Key, Value>>
    const flags: BitPackedFlags
    var epochFlags: seq<bool>
    var epochHeuristicCounter: nat
    const epochSize: nat
    const depthLimit: nat
    const hash: Hashes<Key>
    const none: Key

    ghost function Now(): Slots<Key, Value>
      reads this, flags
    {
      Slots(table, flags.bits, epochFlags)
    }

    ghost predicate Sized()
      reads this, flags
    {
      flags.Valid() && Shape(Now()) && 0 < |table| < U32 && epochSize >= 1 && depthLimit >= 1
    }

    ghost predicate Valid()
      reads this, flags
    {
      && Sized()
      && Housed(Now(), hash, none)
      && Recent(Now()) + epochHeuristicCounter <= Limit(epochSize)
    }

    /** cache() and setup (src/cuckoocache.h:361-388). The depth limit stands for the floating-point
        logarithm of the size; 45 * size is a 32-bit product. */
    constructor (newSize: nat, depth: nat, hash: Hashes<Key>, empty: Element<Key, Value>)
      requires newSize < U32 && depth >= 1
      ensures Valid() && fresh(flags) && |table| == Max(2, newSize)
      ensures Live(Now()) == multiset{} && this.hash == hash && none == empty.key && depthLimit == depth
      ensures epochSize == epochHeuristicCounter == Max(1, 45 * |table| % U32 / 100)
    {
      var size := Max(2, newSize);
      table := seq(size, i => empty);
      flags := new BitPackedFlags(size);
      epochFlags := seq(size, i => false);
      epochSize := Max(1, 45 * size % U32 / 100);
      epochHeuristicCounter := Max(1, 45 * size % U32 / 100);
      depthLimit := depth;
      this.hash := hash;
      none := empty.key;
      new;
      NoneRecent(Now());
      NoneLive(Now());
    }

    /** src/cuckoocache.h:319-354 */
    method EpochCheck()
      requires Sized()
      modifies this`epochHeuristicCounter, this`epochFlags, flags
      ensures Sized()
      ensures Now() == Aged(old(Now()), old(epochHeuristicCounter), epochSize)
      ensures epochHeuristicCounter == Reset(old(epochHeuristicCounter), Recent(old(Now())), epochSize)
      ensures old(epochHeuristicCounter) > 0 ==>
                Now() == old(Now()) && epochHeuristicCounter == old(epochHeuristicCounter) - 1
      ensures old(epochHeuristicCounter) == 0 && Recent(old(Now())) >= epochSize ==>
                && epochHeuristicCounter == epochSize
                && forall i :: 0 <= i < |table| ==>
                     !epochFlags[i] && flags.bits[i] == (old(flags.bits)[i] || !old(epochFlags)[i])
      ensures old(epochHeuristicCounter) == 0 && Recent(old(Now())) < epochSize ==>
                Now() == old(Now()) && IsNextScan(epochHeuristicCounter, Recent(old(Now())), epochSize)
    {
      hide Recent, BitPackedFlags.Valid;
      if epochHeuristicCounter != 0 {
        epochHeuristicCounter := epochHeuristicCounter - 1;
        return;
      }
      var unused := CountUnused();
      if unused >= epochSize {
        Age();
        epochHeuristicCounter := epochSize;
      } else {
        epochHeuristicCounter := Max(1, Max(epochSize / MIN_SCAN, epochSize - unused));
      }
    }

    /** src/cuckoocache.h:326-330 */
    method CountUnused() returns (n: nat)
      requires Sized()
      ensures n == Recent(Now())
    {
      hide BitPackedFlags.Valid, Cut;
      n := 0;
      var i := 0;
      NothingCut(Now());
      while i < |table|
        invariant 0 <= i <= |table| && n == Recent(Cut(Now(), i))
      {
        var dead := flags.BitIsSet(i);
        CutStep(Now(), i);
        n := n + Unit(epochFlags[i] && !dead);
        i := i + 1;
      }
      WholeCut(Now());
    }

    /** src/cuckoocache.h:336-342 */
    method Age()
      requires Sized()
      modifies this`epochFlags, flags
      ensures Sized() && |flags.bits| == |epochFlags| == |old(flags.bits)|
      ensures forall i :: 0 <= i < |table| ==>
              !epochFlags[i] && flags.bits[i] == (old(flags.bits[i]) || !old(epochFlags[i]))
    {
      var i := 0;
      while i < |table|
        invariant 0 <= i <= |table| && Sized() && |flags.bits| == |old(flags.bits)|
        invariant forall j :: 0 <= j < i ==>
                  !epochFlags[j] && flags.bits[j] == (old(flags.bits[j]) || !old(epochFlags[j]))
        invariant forall j :: i <= j < |table| ==>
                  epochFlags[j] == old(epochFlags[j]) && flags.bits[j] == old(flags.bits[j])
      {
        if epochFlags[i] {
          epochFlags := epochFlags[i := false];
        } else {
          flags.BitSet(i);
        }
        i := i + 1;
      }
    }

    /** The search for a key among its slots (src/cuckoocache.h:439-448 and 546-553). */
    method Search(locs: seq<nat>, k: Key) returns (i: nat)
      requires |locs| == 8 && forall j :: 0 <= j < 8 ==> locs[j] < |table|
      ensures i == Holder(table, locs, k, 0)
    {
      i := 0;
      while i < 8
        invariant i <= 8 && Holder(table, locs, k, 0) == Holder(table, locs, k, i)
      {
        if table[locs[i]].key == k {
          return;
        }
        i := i + 1;
      }
    }

    /** The search for a slot that may be overwritten (src/cuckoocache.h:451-459). */
    method FirstDead(locs: seq<nat>) returns (i: nat)
      requires Sized() && |locs| == 8 && forall j :: 0 <= j < 8 ==> locs[j] < |table|
      ensures i == FirstFree(flags.bits, locs, 0)
    {
      i := 0;
      while i < 8
        invariant i <= 8 && FirstFree(flags.bits, locs, 0) == FirstFree(flags.bits, locs, i)
      {
        var dead := flags.BitIsSet(locs[i]);
        if dead {
          return;
        }
        i := i + 1;
      }
    }

    /** src/cuckoocache.h:475-478 */
    method NextLoc(locs: seq<nat>, lastLoc: nat) returns (loc: nat)
      requires |locs| == 8
      ensures loc == NextSlot(locs, lastLoc)
    {
      var i := 0;
      while i < 8 && locs[i] != lastLoc
        invariant 0 <= i <= 8 && IndexOf(locs, lastLoc, 0) == IndexOf(locs, lastLoc, i)
      {
        i := i + 1;
      }
      loc := locs[(1 + i) % 8];
    }

    /** Storing an element for keeps (src/cuckoocache.h:455-457). */
    method Store(loc: nat, e: Element<Key, Value>, recent: bool)
      requires Sized() && loc < |table|
      modifies this`table, this`epochFlags, flags
      ensures Sized() && Now() == Put(old(Now()), loc, e, false, recent)
    {
      table := table[loc := e];
      flags.BitUnset(loc);
      epochFlags := epochFlags[loc := recent];
    }

    /** The exchange with a slot that is kept (src/cuckoocache.h:479-483). */
    method Swap(loc: nat, e: Element<Key, Value>, recent: bool) returns (out: Element<Key, Value>, outRecent: bool)
      requires Sized() && loc < |table| && !flags.bits[loc]
      modifies this`table, this`epochFlags
      ensures Sized() && Now() == Put(old(Now()), loc, e, false, recent)
      ensures out == old(table[loc]) && outRecent == old(epochFlags[loc])
    {
      hide BitPackedFlags.Valid;
      out, outRecent := table[loc], epochFlags[loc];
      table := table[loc := e];
      epochFlags := epochFlags[loc := recent];
      KeptFlag(flags.bits, loc);
    }

    /** src/cuckoocache.h:432-488. dropped is what the last round of the chain still had in hand. */
    method Insert(e: Element<Key, Value>, replace: bool) returns (ghost dropped: multiset<Element<Key, Value>>)
      requires Valid()
      modifies this`table, this`epochFlags, this`epochHeuristicCounter, flags
      ensures Valid() && |table| == |old(table)|
      ensures epochHeuristicCounter == Reset(old(epochHeuristicCounter), Recent(old(Now())), epochSize)
      ensures var a := Aged(old(Now()), old(epochHeuristicCounter), epochSize);
              var locs := Locs(hash, |table|, e.key);
              var i := Holder(old(table), locs, e.key, 0);
              if i < 8 then Now() == Renewed(a, locs[i], e, replace)
              else
                && (Now(), dropped) == Displaced(a, hash, e, true, U32 - 1, depthLimit)
                && |dropped| <= 1 && Live(Now()) + dropped == Live(a) + multiset{e}
      ensures var a := Aged(old(Now()), old(epochHeuristicCounter), epochSize);
              && (forall j: nat | FirstHeld(old(table), hash, e.key, j) ::
                    var loc := Home(hash, |table|, e.key, j);
                    && dropped == multiset{}
                    && Now() == Put(a, loc, if replace then e else old(table)[loc], false, true))
              && ((exists j: nat :: j < 8 && a.dead[Home(hash, |table|, e.key, j)]) ==> dropped == multiset{})
              && (forall j: nat | NotHeld(old(table), hash, e.key) && FirstOpen(a.dead, hash, e.key, j) ::
                    dropped == multiset{} && Now() == Put(a, Home(hash, |table|, e.key, j), e, false, true))
    {
      hide Live, Recent, Locs, Housed, Holder, Absent, Aged, Reset, Put, Limit, Displaced, BitPackedFlags.Valid;
      ghost var a := Aged(Now(), epochHeuristicCounter, epochSize);
      AgedHoused(Now(), hash, none, epochHeuristicCounter, epochSize);
      AgedLeavesRoom(Now(), epochHeuristicCounter, epochSize);
      EpochCheck();
      var locs := Locs(hash, |table|, e.key);
      var i := Search(locs, e.key);
      HolderIsFirst(old(table), hash, e.key);
      FreeIsFirst(a, hash, e, depthLimit);
      dropped := multiset{};
      if i < 8 {
        var kept := if replace then e else table[locs[i]];
        RenewedOk(a, hash, none, i, e, replace);
        Store(locs[i], kept, true);
        return;
      }
      NotFoundIsAbsentUnlessNone(a, hash, none, e.key);
      DisplacedConserves(a, hash, none, e, true, U32 - 1, depthLimit);
      dropped := Chain(e);
    }

    /** The chain of displacements (src/cuckoocache.h:449-487). */
    method Chain(e0: Element<Key, Value>) returns (ghost dropped: multiset<Element<Key, Value>>)
      requires Sized()
      modifies this`table, this`epochFlags, flags
      ensures Sized() && |table| == |old(table)|
      ensures (Now(), dropped) == Displaced(old(Now()), hash, e0, true, U32 - 1, depthLimit)
    {
      hide Locs, Put, FirstFree, NextSlot, BitPackedFlags.Valid;
      var e, lastEpoch := e0, true;
      var lastLoc: nat := U32 - 1;
      var locs := Locs(hash, |table|, e.key);
      var depth: nat := 0;
      while depth < depthLimit
        invariant 0 <= depth <= depthLimit && Sized() && |table| == |old(table)|
        invariant locs == Locs(hash, |table|, e.key)
        invariant Displaced(Now(), hash, e, lastEpoch, lastLoc, depthLimit - depth) ==
                  Displaced(old(Now()), hash, e0, true, U32 - 1, depthLimit)
      {
        var i := FirstDead(locs);
        if i < 8 {
          Store(locs[i], e, lastEpoch);
          dropped := multiset{};
          return;
        }
        lastLoc := NextLoc(locs, lastLoc);
        e, lastEpoch := Swap(lastLoc, e, lastEpoch);
        locs := Locs(hash, |table|, e.key);
        depth := depth + 1;
      }
      dropped := multiset{e};
    }

    /** contains, get and find (src/cuckoocache.h:518-541, 544-555). */
    method Find(k: Key, erase: bool) returns (found: bool, loc: nat)
      requires Valid()
      modifies flags
      ensures Valid() && (found ==> loc < |table| && table[loc].key == k)
      ensures forall e :: e in Live(old(Now())) && e.key == k ==> found
      ensures k != none ==> (found <==> !Absent(table, k))
      ensures k != none && found ==> forall i :: 0 <= i < |table| && table[i].key == k ==> i == loc
      ensures Now() == if found && erase then Put(old(Now()), loc, table[loc], true, epochFlags[loc]) else old(Now())
    {
      hide Live, Recent, Locs, Holder, BitPackedFlags.Valid;
      var locs := Locs(hash, |table|, k);
      var i := Search(locs, k);
      LiveIsFound(Now(), hash, none, k);
      if i == 8 {
        return false, 0;
      }
      found, loc := true, locs[i];
      if erase {
        EraseOk(Now(), hash, none, loc);
        flags.BitSet(loc);
      }
    }
  }

  lemma {:induction false} NoneLive<K, V>(s: Slots<K, V>)
    requires Shape(s) && forall i :: 0 <= i < |s.dead| ==> s.dead[i]
    ensures Live(s) == multiset{}
    decreases |s.table|
  {
    if s.table != [] {
      NoneLive(Front(s));
    }
  }

  lemma KeptFlag(bits: seq<bool>, i: nat)
    requires i < |bits| && !bits[i]
    ensures bits[i := false] == bits
  {
  }

  /** Renewing a found element: it stays at home, and at most one more element is recent. */
  lemma RenewedOk<Key, V>(s: Slots<Key, V>, hash: Hashes<Key>, none: Key, i: nat, e: Element<Key, V>, replace: bool)
    requires Housed(s, hash, none) && |s.table| > 0 && i < 8
    requires s.table[Locs(hash, |s.table|, e.key)[i]].key == e.key
    ensures var r := Renewed(s, Locs(hash, |s.table|, e.key)[i], e, replace);
            Housed(r, hash, none) && Recent(r) <= Recent(s) + 1
  {
    var loc := Locs(hash, |s.table|, e.key)[i];
    var kept := if replace then e else s.table[loc];
    PutHoused(s, hash, none, loc, kept, true);
    PutRecent(s, loc, kept, false, true);
  }

  lemma NotFoundIsAbsentUnlessNone<Key, V>(s: Slots<Key, V>, hash: Hashes<Key>, none: Key, k: Key)
    requires Housed(s, hash, none) && |s.table| > 0
    requires Holder(s.table, Locs(hash, |s.table|, k), k, 0) == 8
    ensures k == none || Absent(s.table, k)
  {
    if k != none {
      var locs := Locs(hash, |s.table|, k);
      forall i | i in locs ensures s.table[i].key != k {
        var j :| 0 <= j < |locs| && locs[j] == i;
      }
      NotFoundIsAbsent(s, hash, none, k);
    }
  }

  lemma PlaceFacts<Key, V>(s: Slots<Key, V>, hash: Hashes<Key>, none: Key, loc: nat, e: Element<Key, V>, recent: bool)
    requires Housed(s, hash, none) && |s.table| > 0 && loc in Locs(hash, |s.table|, e.key) && s.dead[loc]
    requires e.key == none || Absent(s.table, e.key)
    ensures var r := Put(s, loc, e, false, recent);
            Housed(r, hash, none) && Live(r) == Live(s) + multiset{e} && Recent(r) == Recent(s) + Unit(recent)
  {
    PutHoused(s, hash, none, loc, e, recent);
    PutLive(s, loc, e, false, recent);
    PutRecent(s, loc, e, false, recent);
  }

  lemma SwapFacts<Key, V>(s: Slots<Key, V>, hash: Hashes<Key>, none: Key, loc: nat, e: Element<Key, V>, recent: bool,
                          all: multiset<Element<Key, V>>)
    requires Housed(s, hash, none) && |s.table| > 0 && loc in Locs(hash, |s.table|, e.key) && !s.dead[loc]
    requires e.key == none || Absent(s.table, e.key)
    requires Live(s) + multiset{e} == all
    ensures var r := Put(s, loc, e, false, recent); var out := s.table[loc];
            && Housed(r, hash, none) && (out.key == none || Absent(r.table, out.key))
            && Live(r) + multiset{out} == all
            && Recent(r) + Unit(s.recent[loc]) == Recent(s) + Unit(recent)
  {
    PutHoused(s, hash, none, loc, e, recent);
    PutLive(s, loc, e, false, recent);
    PutRecent(s, loc, e, false, recent);
    if s.table[loc].key != none {
      SwappedIsAbsent(s, none, loc, e);
    }
  }

  /** A key is found when a live element has it, and, a real key, when any slot has it. */
  lemma LiveIsFound<Key, V>(s: Slots<Key, V>, hash: Hashes<Key>, none: Key, k: Key)
    requires Housed(s, hash, none) && |s.table| > 0
    ensures Holder(s.table, Locs(hash, |s.table|, k), k, 0) == 8 ==>
              (forall e :: e in Live(s) ==> e.key != k) && (k != none ==> Absent(s.table, k))
  {
    hide Locs, IsHome, Live;
    var locs := Locs(hash, |s.table|, k);
    if Holder(s.table, locs, k, 0) == 8 {
      NotFoundIsAbsentUnlessNone(s, hash, none, k);
      forall e | e in Live(s) ensures e.key != k {
        var i := LiveHas(s, e);
        HomeIsLoc(hash, |s.table|, e.key, i);
        assert e.key == k ==> i in locs;
      }
    }
  }

  lemma EraseOk<Key, V>(s: Slots<Key, V>, hash: Hashes<Key>, none: Key, loc: nat)
    requires Housed(s, hash, none) && loc < |s.table|
    ensures var r := Put(s, loc, s.table[loc], true, s.recent[loc]);
            Housed(r, hash, none) && Recent(r) <= Recent(s) && r == Slots(s.table, s.dead[loc := true], s.recent)
  {
    hide IsHome, Recent;
    PutRecent(s, loc, s.table[loc], true, s.recent[loc]);
  }
}
