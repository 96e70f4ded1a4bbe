/** One layer of the UTXO cache (src/coins.{h,cpp}) on values: entries, flags, memory count. */
module CoinsSpec {

  datatype OutPoint = OutPoint(txid: nat, n: nat)

  /** A coin, or the null output that stands for a spent one. */
  datatype Coin = Spent | Unspent(value: int, script: seq<bv8>, heightAndCoinbase: nat)

  /** src/coins.h:71-91 */
  datatype Entry = Entry(coin: Coin, isDirty: bool, isFresh: bool)

  type CoinsMap = map<OutPoint, Entry>
  type View = map<OutPoint, Coin>

  /** Provably unspendable: OP_FALSE OP_RETURN. */
  predicate IsUnspendable(script: seq<bv8>) {
    |script| > 1 && script[0] == 0 && script[1] == 0x6a
  }

  /** OP_FALSE OP_RETURN, followed by anything (src/script/script.h:874-877). */
  lemma UnspendableIs(script: seq<bv8>)
    ensures IsUnspendable(script) <==> [0, 0x6a] <= script
  {
  }

  /** Heap memory of a script: none up to 28 bytes, then malloc blocks. */
  function Usage(c: Coin): nat {
    if c.Spent? || |c.script| <= 28 then 0 else (|c.script| + 31) / 16 * 16
  }

  /** A script of more than 28 bytes takes the least multiple of sixteen with sixteen bytes to spare. */
  lemma UsageIs(c: Coin)
    ensures if c.Unspent? && |c.script| > 28 then Usage(c) % 16 == 0 && |c.script| + 16 <= Usage(c) < |c.script| + 32
            else Usage(c) == 0
  {
  }

  // ---------- What a layer shows ----------

  ghost predicate Shows(cache: CoinsMap, lower: View, p: OutPoint) {
    if p in cache then cache[p].coin.Unspent? else p in lower
  }

  /** The coins visible through a layer: its own entries hide the ones below. */
  ghost function ViewOf(cache: CoinsMap, lower: View): View {
    map p | p in cache.Keys + lower.Keys && Shows(cache, lower, p) :: if p in cache then cache[p].coin else lower[p]
  }

  /** Views hold no spent coin. */
  ghost predicate Real(v: View) {
    forall p | p in v :: v[p].Unspent?
  }

  /** The meaning of the flags (src/coins.h:76-86): an entry that is not DIRTY equals what lies
      below, and below a FRESH one there is nothing. */
  ghost predicate FlagOk(e: Entry, lower: View, p: OutPoint) {
    && (!e.isDirty ==> if e.coin.Unspent? then p in lower && lower[p] == e.coin else p !in lower)
    && (e.isFresh ==> p !in lower)
  }

  ghost predicate FlagsOk(cache: CoinsMap, lower: View) {
    forall p | p in cache :: FlagOk(cache[p], lower, p)
  }

  lemma RealView(cache: CoinsMap, lower: View)
    requires Real(lower)
    ensures Real(ViewOf(cache, lower))
  {
  }

  /** Two caches that show the same at every outpoint show the same view. */
  lemma SameView(c1: CoinsMap, l1: View, c2: CoinsMap, l2: View)
    requires forall p :: Shows(c1, l1, p) == Shows(c2, l2, p)
    requires forall p | Shows(c1, l1, p) && Shows(c2, l2, p) ::
               (if p in c1 then c1[p].coin else l1[p]) == (if p in c2 then c2[p].coin else l2[p])
    ensures ViewOf(c1, l1) == ViewOf(c2, l2)
  {
    var v1, v2 := ViewOf(c1, l1), ViewOf(c2, l2);
    assert forall p :: p in v1 <==> Shows(c1, l1, p);
    assert forall p :: p in v2 <==> Shows(c2, l2, p);
  }

  // ---------- Reading and writing one entry ----------

  /** Caching what lies below (src/coins.cpp:79-88) changes nothing visible. */
  lemma FetchShowsSame(cache: CoinsMap, lower: View, p: OutPoint, coin: Coin)
    requires FlagsOk(cache, lower) && p !in cache && p in lower && lower[p] == coin && coin.Unspent?
    ensures FlagsOk(cache[p := Entry(coin, false, false)], lower)
    ensures ViewOf(cache[p := Entry(coin, false, false)], lower) == ViewOf(cache, lower)
  {
    SameView(cache[p := Entry(coin, false, false)], lower, cache, lower);
  }

  /** Dropping an unmodified entry (src/coins.cpp:268-271) changes nothing visible. */
  lemma DropShowsSame(cache: CoinsMap, lower: View, p: OutPoint)
    requires FlagsOk(cache, lower) && p in cache && !cache[p].isDirty
    ensures FlagsOk(cache - {p}, lower) && ViewOf(cache - {p}, lower) == ViewOf(cache, lower)
  {
    SameView(cache - {p}, lower, cache, lower);
  }

  /** Putting an unspent coin into a dirty entry shows it; the flags stay right exactly when a fresh
      entry has nothing below. */
  lemma PutShows(cache: CoinsMap, lower: View, p: OutPoint, e: Entry)
    requires FlagsOk(cache, lower) && e.isDirty && e.coin.Unspent?
    ensures FlagsOk(cache[p := e], lower) <==> (e.isFresh ==> p !in lower)
    ensures ViewOf(cache[p := e], lower) == ViewOf(cache, lower)[p := e.coin]
  {
    assert p in cache[p := e] && cache[p := e][p] == e;
    var v, v' := ViewOf(cache, lower), ViewOf(cache[p := e], lower);
    assert forall q :: q in v' <==> Shows(cache[p := e], lower, q);
    assert forall q :: q in v <==> Shows(cache, lower, q);
  }

  /** Spending a fresh entry: it goes away. */
  lemma SpendFreshShows(cache: CoinsMap, lower: View, p: OutPoint)
    requires FlagsOk(cache, lower) && p in cache && cache[p].isFresh
    ensures FlagsOk(cache - {p}, lower) && ViewOf(cache - {p}, lower) == ViewOf(cache, lower) - {p}
  {
    var c2 := cache - {p};
    assert forall q :: q in ViewOf(cache, lower) <==> Shows(cache, lower, q);
    assert forall q :: q in ViewOf(c2, lower) <==> Shows(c2, lower, q);
  }

  /** Spending otherwise: a dirty spent entry stays, to be told to the layer below. */
  lemma SpentShows(cache: CoinsMap, lower: View, p: OutPoint, isFresh: bool)
    requires FlagsOk(cache, lower) && (isFresh ==> p !in lower)
    ensures FlagsOk(cache[p := Entry(Spent, true, isFresh)], lower)
    ensures ViewOf(cache[p := Entry(Spent, true, isFresh)], lower) == ViewOf(cache, lower) - {p}
  {
    var c1 := cache[p := Entry(Spent, true, isFresh)];
    assert forall q :: q in ViewOf(cache, lower) <==> Shows(cache, lower, q);
    assert forall q :: q in ViewOf(c1, lower) <==> Shows(c1, lower, q);
  }

  // ---------- Flushing a child's entry into a layer ----------

  /** src/coins.cpp:199-253 for one entry of the child. None is the "FRESH flag misapplied" throw. */
  datatype Merge = Misapplied | Merged(cache: CoinsMap)

  function MergeEntry(cache: CoinsMap, p: OutPoint, e: Entry): Merge {
    if !e.isDirty then Merged(cache)
    else if p !in cache then
      if e.isFresh && e.coin.Spent? then Merged(cache)
      else Merged(cache[p := Entry(e.coin, true, e.isFresh)])
    else if e.isFresh && cache[p].coin.Unspent? then Misapplied
    else if cache[p].isFresh && e.coin.Spent? then Merged(cache - {p})
    else Merged(cache[p := Entry(e.coin, true, cache[p].isFresh)])
  }

  /** What the entry means for the view it is flushed into. */
  ghost function Overlaid(v: View, p: OutPoint, e: Entry): View {
    if e.coin.Unspent? then v[p := e.coin] else v - {p}
  }

  /** An entry whose flags are right merges without the throw, shows through, and leaves the
      layer's own flags right. */
  lemma MergeIsRight(cache: CoinsMap, lower: View, p: OutPoint, e: Entry)
    requires FlagsOk(cache, lower) && Real(lower) && FlagOk(e, ViewOf(cache, lower), p)
    ensures MergeEntry(cache, p, e).Merged?
    ensures FlagsOk(MergeEntry(cache, p, e).cache, lower)
    ensures ViewOf(MergeEntry(cache, p, e).cache, lower) == Overlaid(ViewOf(cache, lower), p, e)
  {
    var v := ViewOf(cache, lower);
    assert p in v <==> Shows(cache, lower, p);
    if !e.isDirty {
      assert Overlaid(v, p, e) == v;
    } else if e.coin.Unspent? {
      PutShows(cache, lower, p, Entry(e.coin, true, if p in cache then cache[p].isFresh else e.isFresh));
    } else if p in cache {
      if cache[p].isFresh {
        SpendFreshShows(cache, lower, p);
      } else {
        SpentShows(cache, lower, p, false);
      }
    } else if e.isFresh {
      assert v - {p} == v;
    } else {
      SpentShows(cache, lower, p, false);
    }
  }

  /** What was made above, and what the layer itself made, can go without a trace: a spent coin that
      was fresh in either leaves no entry, and one that is not spent stays fresh. No entry of another
      outpoint changes, and what is not dirty changes nothing. */
  lemma MergeLeavesNoTrace(cache: CoinsMap, p: OutPoint, e: Entry)
    requires MergeEntry(cache, p, e).Merged?
    ensures var cache' := MergeEntry(cache, p, e).cache;
            && cache' - {p} == cache - {p} && (!e.isDirty ==> cache' == cache)
            && (e.isDirty ==>
                  var made := if p in cache then cache[p].isFresh else e.isFresh;
                  if made && e.coin.Spent? then p !in cache'
                  else p in cache' && cache'[p].coin == e.coin && cache'[p].isDirty && cache'[p].isFresh == made)
  {
    var cache' := MergeEntry(cache, p, e).cache;
    assert cache' - {p} == cache - {p};
  }

  /** Flushing the entries of a child one by one adds up to the child's view. */
  lemma OverlayStep(v: View, rest: CoinsMap, p: OutPoint)
    requires FlagsOk(rest, v) && p in rest
    ensures FlagsOk(rest - {p}, Overlaid(v, p, rest[p]))
    ensures ViewOf(rest - {p}, Overlaid(v, p, rest[p])) == ViewOf(rest, v)
  {
    var v', r' := Overlaid(v, p, rest[p]), rest - {p};
    forall q
      ensures Shows(r', v', q) == Shows(rest, v, q)
    {
    }
    SameView(r', v', rest, v);
  }

  lemma NoEntries(v: View)
    ensures ViewOf(map[], v) == v
  {
  }

  // ---------- Memory accounting ----------

  ghost function TotalUsage(cache: CoinsMap): nat
    decreases |cache|
  {
    if cache == map[] then 0
    else
      var p :| p in cache;
      Usage(cache[p].coin) + TotalUsage(cache - {p})
  }

  lemma {:induction false} UsageWithout(cache: CoinsMap, p: OutPoint)
    requires p in cache
    ensures TotalUsage(cache) == Usage(cache[p].coin) + TotalUsage(cache - {p})
    decreases |cache|
  {
    var q :| q in cache && TotalUsage(cache) == Usage(cache[q].coin) + TotalUsage(cache - {q});
    if p != q {
      UsageWithout(cache - {q}, p);
      UsageWithout(cache - {p}, q);
      assert cache - {q} - {p} == cache - {p} - {q};
    }
  }

  lemma UsageWith(cache: CoinsMap, p: OutPoint, e: Entry)
    ensures TotalUsage(cache[p := e]) == Usage(e.coin) + TotalUsage(cache - {p})
    ensures p !in cache ==> TotalUsage(cache[p := e]) == Usage(e.coin) + TotalUsage(cache)
    ensures p in cache ==> TotalUsage(cache[p := e]) == Usage(e.coin) + TotalUsage(cache) - Usage(cache[p].coin)
  {
    UsageWithout(cache[p := e], p);
    assert cache[p := e] - {p} == cache - {p};
    if p in cache {
      UsageWithout(cache, p);
    } else {
      assert cache - {p} == cache;
    }
  }
}

/**
  The stack of caches. A cache's base is another cache or, at the bottom, the database; the
  source reaches both through the abstract class CCoinsView.
 */
module Coins {
  import opened CoinsSpec

  /** CCoinsViewDB: a table of unspent coins (src/txdb.cpp:54-60, 78-144). */
  class Database {
    var coins: View

    constructor (initial: View)
      requires Real(initial)
      ensures coins == initial
    {
      coins := initial;
    }

    /** The writes of src/txdb.cpp:104-130, entry by entry. */
    method BatchWrite(mapCoins: CoinsMap)
      requires FlagsOk(mapCoins, coins) && Real(coins)
      modifies this
      ensures coins == ViewOf(mapCoins, old(coins)) && Real(coins)
    {
      hide ViewOf, FlagsOk, FlagOk;
      var rest := mapCoins;
      NoEntries(coins);
      while rest != map[]
        invariant Real(coins) && FlagsOk(rest, coins) && ViewOf(rest, coins) == ViewOf(mapCoins, old(coins))
        decreases |rest|
      {
        var p :| p in rest;
        OverlayStep(coins, rest, p);
        CleanOverlay(coins, rest, p);
        var e := rest[p];
        if e.isDirty {
          coins := if e.coin.Spent? then coins - {p} else coins[p := e.coin];
        }
        rest := rest - {p};
      }
      NoEntries(coins);
    }
  }

  /** An entry that is not dirty writes nothing new. */
  lemma CleanOverlay(v: View, rest: CoinsMap, p: OutPoint)
    requires FlagsOk(rest, v) && p in rest
    ensures !rest[p].isDirty ==> Overlaid(v, p, rest[p]) == v
  {
    assert FlagOk(rest[p], v, p);
  }

  /** src/coins.cpp:62-272 */
  class Cache {
    var base: Cache?  // null: the base is the database
    const db: Database
    var cacheCoins: CoinsMap
    var cachedCoinsUsage: int
    ghost var Repr: set<object>

    /** The stack below this cache is finite and its layers are distinct. */
    ghost predicate Linked()
      reads this, Repr
      decreases Repr
    {
      && this in Repr && db in Repr && db as object != this
      && (base != null ==>
            && base in Repr && base.Repr <= Repr && this !in base.Repr && base.db == db
            && base.Linked())
    }

    /** What this cache sees below. */
    ghost function Lower(): View
      requires Linked()
      reads this, Repr
      decreases Repr, 0
    {
      if base == null then db.coins else base.Shown()
    }

    /** What is seen through this cache: the layered map. */
    ghost function Shown(): View
      requires Linked()
      reads this, Repr
      decreases Repr, 1
    {
      ViewOf(cacheCoins, Lower())
    }

    /** The views of all the layers below, down to the database. */
    ghost function Below(): seq<View>
      requires Linked()
      reads this, Repr
      decreases Repr
    {
      if base == null then [db.coins] else [base.Shown()] + base.Below()
    }

    /** The flags mean what they say in every layer, and the memory counters are exact. */
    ghost predicate Valid()
      reads this, Repr
      decreases Repr
    {
      && Linked()
      && FlagsOk(cacheCoins, Lower())
      && cachedCoinsUsage == TotalUsage(cacheCoins)
      && (if base == null then Real(db.coins) else base.Valid())
    }

    lemma ShownIsReal()
      requires Valid()
      ensures Real(Lower()) && Real(Shown())
      decreases Repr
    {
      if base != null {
        base.ShownIsReal();
      }
      RealView(cacheCoins, Lower());
    }

    constructor OnDatabase(d: Database)
      requires Real(d.coins)
      ensures Valid() && base == null && db == d && Repr == {this, d}
      ensures cacheCoins == map[] && Shown() == d.coins
    {
      base, db := null, d;
      cacheCoins, cachedCoinsUsage := map[], 0;
      Repr := {this, d};
      new;
      NoEntries(d.coins);
    }

    constructor OnCache(b: Cache)
      requires b.Valid()
      ensures Valid() && base == b && Repr == {this} + b.Repr
      ensures cacheCoins == map[] && Shown() == b.Shown()
    {
      base, db := b, b.db;
      cacheCoins, cachedCoinsUsage := map[], 0;
      Repr := {this} + b.Repr;
      new;
      NoEntries(b.Shown());
    }

    /** src/coins.cpp:69-91: the entry for an outpoint, loaded from below if need be. Filling
        caches changes no view, here or further down. */
    method FetchCoin(p: OutPoint) returns (found: bool)
      requires Valid()
      modifies Repr
      ensures Valid() && Repr == old(Repr) && base == old(base)
      ensures Lower() == old(Lower()) && Shown() == old(Shown()) && Below() == old(Below())
      ensures found <==> p in cacheCoins
      ensures found <==> p in old(Shown()) || p in old(cacheCoins)
      ensures old(cacheCoins) == cacheCoins - (if p in old(cacheCoins) then {} else {p})
      ensures p in cacheCoins ==>
                if cacheCoins[p].coin.Unspent? then p in Shown() && Shown()[p] == cacheCoins[p].coin
                else p !in Shown()
      ensures p !in cacheCoins ==> p !in Shown()
      ensures p in cacheCoins && p !in old(cacheCoins) ==> !cacheCoins[p].isDirty && !cacheCoins[p].isFresh
      decreases Repr, 1
    {
      hide ViewOf, FlagsOk, FlagOk, TotalUsage;
      ShownAt(cacheCoins, Lower(), p);
      if p in cacheCoins {
        assert cacheCoins - {} == cacheCoins;
        return true;
      }
      var has, coin := BaseGetCoin(p);
      assert old(cacheCoins) - {p} == old(cacheCoins);
      if !has {
        return false;
      }
      FetchShowsSame(cacheCoins, Lower(), p, coin);
      UsageWith(cacheCoins, p, Entry(coin, false, false));
      // A spent coin would be marked FRESH here; the base never hands one out.
      cacheCoins := cacheCoins[p := Entry(coin, false, coin.Spent?)];
      cachedCoinsUsage := cachedCoinsUsage + Usage(coin);
      return true;
    }

    /** base->GetCoin(outpoint, tmp) */
    method BaseGetCoin(p: OutPoint) returns (has: bool, coin: Coin)
      requires Valid()
      modifies Repr - {this}
      ensures Valid() && Repr == old(Repr) && base == old(base)
      ensures cacheCoins == old(cacheCoins) && cachedCoinsUsage == old(cachedCoinsUsage)
      ensures Lower() == old(Lower()) && Shown() == old(Shown()) && Below() == old(Below())
      ensures has <==> p in Lower()
      ensures has ==> coin == Lower()[p] && coin.Unspent?
      decreases Repr, 0
    {
      hide ViewOf, FlagsOk, FlagOk, TotalUsage;
      ShownIsReal();
      if base == null {
        has := p in db.coins;
        coin := if has then db.coins[p] else Spent;
      } else {
        has, coin := base.GetCoin(p);
      }
    }

    /** src/coins.cpp:93-100 */
    method GetCoin(p: OutPoint) returns (has: bool, coin: Coin)
      requires Valid()
      modifies Repr
      ensures Valid() && Repr == old(Repr) && base == old(base)
      ensures Lower() == old(Lower()) && Shown() == old(Shown()) && Below() == old(Below())
      ensures has <==> p in Shown()
      ensures has ==> coin == Shown()[p]
      decreases Repr, 2
    {
      hide ViewOf, FlagsOk, FlagOk, TotalUsage;
      var found := FetchCoin(p);
      if !found {
        return false, Spent;
      }
      coin := cacheCoins[p].coin;
      has := coin.Unspent?;
    }

    /** src/coins.cpp:173-176 */
    method HaveCoin(p: OutPoint) returns (has: bool)
      requires Valid()
      modifies Repr
      ensures Valid() && Repr == old(Repr) && base == old(base)
      ensures Lower() == old(Lower()) && Shown() == old(Shown()) && Below() == old(Below())
      ensures has <==> p in Shown()
    {
      hide ViewOf, FlagsOk, FlagOk, TotalUsage;
      var found := FetchCoin(p);
      has := found && cacheCoins[p].coin.Unspent?;
    }

    /** src/coins.cpp:165-171: the empty coin stands for one that is not there. */
    method AccessCoin(p: OutPoint) returns (coin: Coin)
      requires Valid()
      modifies Repr
      ensures Valid() && Repr == old(Repr) && base == old(base)
      ensures Lower() == old(Lower()) && Shown() == old(Shown()) && Below() == old(Below())
      ensures coin == if p in Shown() then Shown()[p] else Spent
    {
      hide ViewOf, FlagsOk, FlagOk, TotalUsage;
      var found := FetchCoin(p);
      if !found {
        return Spent;
      }
      coin := cacheCoins[p].coin;
    }

    /** The end of AddCoin: the entry takes the coin, whose usage is counted (src/coins.cpp:124-127). */
    method Put(p: OutPoint, e: Entry)
      requires Linked() && FlagsOk(cacheCoins, Lower()) && (if base == null then Real(db.coins) else base.Valid())
      requires cachedCoinsUsage == TotalUsage(cacheCoins) - (if p in cacheCoins then Usage(cacheCoins[p].coin) else 0)
      requires e.isDirty && e.coin.Unspent?
      modifies this`cacheCoins, this`cachedCoinsUsage
      ensures Linked() && Lower() == old(Lower()) && Below() == old(Below())
      ensures Shown() == old(Shown())[p := e.coin] && cachedCoinsUsage == TotalUsage(cacheCoins)
      ensures cacheCoins == old(cacheCoins)[p := e]
      ensures Valid() <==> (e.isFresh ==> p !in Lower())
    {
      hide ViewOf, FlagsOk, TotalUsage;
      PutShows(cacheCoins, Lower(), p, e);
      UsageWith(cacheCoins, p, e);
      cacheCoins := cacheCoins[p := e];
      cachedCoinsUsage := cachedCoinsUsage + Usage(e.coin);
    }

    /** src/coins.cpp:102-128. ok is false where the source throws ("replaces non-pruned entry"); by
        then the old coin's usage has been taken off the count. Without possibleOverwrite a coin that
        lies below and has not been loaded is not noticed: the view is right all the same, but the
        entry is FRESH with a coin below. That is the only case in which the flags go wrong. */
    method AddCoin(p: OutPoint, coin: Coin, possibleOverwrite: bool) returns (ok: bool)
      requires Valid() && coin.Unspent?
      modifies this`cacheCoins, this`cachedCoinsUsage
      ensures Linked() && Lower() == old(Lower()) && Below() == old(Below())
      ensures ok <==> IsUnspendable(coin.script) || possibleOverwrite || p !in old(Shown()) || p !in old(cacheCoins)
      ensures ok ==> cachedCoinsUsage == TotalUsage(cacheCoins)
      ensures ok ==>
                (Valid() <==> IsUnspendable(coin.script) || possibleOverwrite || p in old(cacheCoins) || p !in Lower())
      ensures ok ==> Shown() == if IsUnspendable(coin.script) then old(Shown()) else old(Shown())[p := coin]
      ensures ok && !IsUnspendable(coin.script) ==>
                var known := p in old(cacheCoins);
                var made := || (known && old(cacheCoins)[p].isFresh)
                            || (!possibleOverwrite && !(known && old(cacheCoins)[p].isDirty));
                cacheCoins == old(cacheCoins)[p := Entry(coin, true, made)]
      ensures !ok || IsUnspendable(coin.script) ==> cacheCoins == old(cacheCoins)
      ensures !ok ==> cachedCoinsUsage == old(cachedCoinsUsage) - Usage(old(Shown())[p])
    {
      hide ViewOf, FlagsOk, TotalUsage, IsUnspendable;
      if IsUnspendable(coin.script) {
        return true;
      }
      ShownAt(cacheCoins, Lower(), p);
      FlagAt(cacheCoins, Lower(), p);
      var inserted := p !in cacheCoins;
      var e := if inserted then Entry(Spent, false, false) else cacheCoins[p];
      if !inserted {
        cachedCoinsUsage := cachedCoinsUsage - Usage(e.coin);
      }
      var isFresh := false;
      if !possibleOverwrite {
        if e.coin.Unspent? {
          return false;
        }
        isFresh := !e.isDirty;
      }
      Put(p, Entry(coin, true, e.isFresh || isFresh));
      return true;
    }

    /** src/coins.cpp:145-161 */
    method SpendCoin(p: OutPoint) returns (ok: bool, moved: Coin)
      requires Valid()
      modifies Repr
      ensures Valid() && Repr == old(Repr) && base == old(base)
      ensures Lower() == old(Lower()) && Shown() == old(Shown()) - {p} && Below() == old(Below())
      ensures ok <==> p in old(Shown()) || p in old(cacheCoins)
      ensures ok ==> moved == if p in old(Shown()) then old(Shown())[p] else Spent
      ensures ok ==>
                cacheCoins == if p in old(cacheCoins) && old(cacheCoins)[p].isFresh then old(cacheCoins) - {p}
                              else old(cacheCoins)[p := Entry(Spent, true, false)]
      ensures !ok ==> cacheCoins == old(cacheCoins)
    {
      hide ViewOf, FlagsOk, FlagOk, TotalUsage;
      var found := FetchCoin(p);
      if !found {
        return false, Spent;
      }
      moved := Take(p);
      ok := true;
    }

    /** The part of SpendCoin behind the look-up (src/coins.cpp:150-160). */
    method Take(p: OutPoint) returns (moved: Coin)
      requires Valid() && p in cacheCoins
      modifies this`cacheCoins, this`cachedCoinsUsage
      ensures Valid() && moved == old(cacheCoins[p].coin)
      ensures cacheCoins == if old(cacheCoins)[p].isFresh then old(cacheCoins) - {p}
                            else old(cacheCoins)[p := Entry(Spent, true, false)]
      ensures Lower() == old(Lower()) && Shown() == old(Shown()) - {p} && Below() == old(Below())
    {
      hide ViewOf, FlagsOk, TotalUsage;
      FlagAt(cacheCoins, Lower(), p);
      var e := cacheCoins[p];
      moved := e.coin;
      UsageWithout(cacheCoins, p);
      cachedCoinsUsage := cachedCoinsUsage - Usage(e.coin);
      if e.isFresh {
        SpendFreshShows(cacheCoins, Lower(), p);
        cacheCoins := cacheCoins - {p};
      } else {
        SpentShows(cacheCoins, Lower(), p, false);
        UsageWith(cacheCoins, p, Entry(Spent, true, false));
        cacheCoins := cacheCoins[p := Entry(Spent, true, e.isFresh)];
      }
    }

    /** src/coins.cpp:266-272 */
    method Uncache(p: OutPoint)
      requires Valid()
      modifies this`cacheCoins, this`cachedCoinsUsage
      ensures Valid() && Lower() == old(Lower()) && Shown() == old(Shown()) && Below() == old(Below())
      ensures cacheCoins == if p in old(cacheCoins) && !old(cacheCoins)[p].isDirty && !old(cacheCoins)[p].isFresh
                            then old(cacheCoins) - {p} else old(cacheCoins)
    {
      hide ViewOf, FlagsOk, FlagOk, TotalUsage;
      if p in cacheCoins && !cacheCoins[p].isDirty && !cacheCoins[p].isFresh {
        DropShowsSame(cacheCoins, Lower(), p);
        UsageWithout(cacheCoins, p);
        cachedCoinsUsage := cachedCoinsUsage - Usage(cacheCoins[p].coin);
        cacheCoins := cacheCoins - {p};
      }
    }

    /** One round of the loop of BatchWrite (src/coins.cpp:199-253). False is the "FRESH flag
        misapplied" throw. */
    method WriteEntry(p: OutPoint, e: Entry) returns (ok: bool)
      requires Valid() && FlagOk(e, Shown(), p)
      modifies this`cacheCoins, this`cachedCoinsUsage
      ensures Valid() && ok
      ensures Lower() == old(Lower()) && Shown() == Overlaid(old(Shown()), p, e) && Below() == old(Below())
      ensures MergeEntry(old(cacheCoins), p, e) == Merged(cacheCoins)
    {
      hide ViewOf, FlagsOk, TotalUsage, FlagOk;
      ShownIsReal();
      MergeIsRight(cacheCoins, Lower(), p, e);
      if !e.isDirty {
        return true;
      }
      if p !in cacheCoins {
        if !(e.isFresh && e.coin.Spent?) {
          UsageWith(cacheCoins, p, Entry(e.coin, true, e.isFresh));
          cacheCoins := cacheCoins[p := Entry(e.coin, true, e.isFresh)];
          cachedCoinsUsage := cachedCoinsUsage + Usage(e.coin);
        }
      } else {
        var us := cacheCoins[p];
        if e.isFresh && us.coin.Unspent? {
          return false;
        }
        UsageWithout(cacheCoins, p);
        if us.isFresh && e.coin.Spent? {
          cachedCoinsUsage := cachedCoinsUsage - Usage(us.coin);
          cacheCoins := cacheCoins - {p};
        } else {
          UsageWith(cacheCoins, p, Entry(e.coin, true, us.isFresh));
          cachedCoinsUsage := cachedCoinsUsage - Usage(us.coin) + Usage(e.coin);
          cacheCoins := cacheCoins[p := Entry(e.coin, true, us.isFresh)];
        }
      }
      return true;
    }

    /** src/coins.cpp:194-257: entries whose flags are right for this view, in any order. */
    method BatchWrite(mapCoins: CoinsMap) returns (ok: bool)
      requires Valid() && FlagsOk(mapCoins, Shown())
      modifies this`cacheCoins, this`cachedCoinsUsage
      ensures Valid() && ok
      ensures Lower() == old(Lower()) && Shown() == ViewOf(mapCoins, old(Shown())) && Below() == old(Below())
    {
      hide ViewOf, FlagsOk, TotalUsage, FlagOk, Overlaid;
      var rest := mapCoins;
      while rest != map[]
        invariant Valid() && Lower() == old(Lower()) && Below() == old(Below())
        invariant FlagsOk(rest, Shown()) && ViewOf(rest, Shown()) == ViewOf(mapCoins, old(Shown()))
        decreases |rest|
      {
        var p :| p in rest;
        FlagAt(rest, Shown(), p);
        OverlayStep(Shown(), rest, p);
        ok := WriteEntry(p, rest[p]);
        rest := rest - {p};
      }
      NoEntries(Shown());
      ok := true;
    }

    /** src/coins.cpp:259-264: afterwards the base shows what this cache showed. */
    method Flush() returns (ok: bool)
      requires Valid()
      modifies Repr
      ensures Valid() && ok && Repr == old(Repr) && base == old(base)
      ensures Shown() == old(Shown()) && Lower() == old(Shown())
      ensures cacheCoins == map[] && cachedCoinsUsage == 0
      ensures base != null ==> base.base == old(base.base) && base.Lower() == old(base.Lower())
      ensures base != null ==> base.Below() == old(base.Below())
    {
      hide ViewOf, FlagsOk, TotalUsage, FlagOk;
      ok := true;
      if base == null {
        db.BatchWrite(cacheCoins);
      } else {
        ok := base.BatchWrite(cacheCoins);
      }
      cacheCoins := map[];
      cachedCoinsUsage := 0;
      EmptyCache(Lower());
    }
  }

  lemma EmptyCache(v: View)
    ensures ViewOf(map[], v) == v && FlagsOk(map[], v) && TotalUsage(map[]) == 0
  {
    NoEntries(v);
  }

  lemma FlagAt(cache: CoinsMap, lower: View, p: OutPoint)
    requires FlagsOk(cache, lower)
    ensures p in cache ==> FlagOk(cache[p], lower, p)
  {
  }

  lemma ShownAt(cache: CoinsMap, lower: View, p: OutPoint)
    ensures p in cache ==>
              if cache[p].coin.Unspent? then p in ViewOf(cache, lower) && ViewOf(cache, lower)[p] == cache[p].coin
              else p !in ViewOf(cache, lower)
    ensures p !in cache ==> (p in ViewOf(cache, lower) <==> p in lower)
    ensures p !in cache && p in lower ==> ViewOf(cache, lower)[p] == lower[p]
  {
  }
}
