/** Serialize and Unserialize of src/addrman.h as loops over the manager's fields. */
module AddrManDisk {
  import opened AddrManSpec
  import opened AddrManSteps
  import opened AddrManOps
  import opened AddrManRuns
  import opened AddrManDump
  import opened AddrManRoundTrip
  import opened AddrMan

  // ---------- Serialize ----------

  lemma MinIsUnique(ids: set<int>, m: int)
    requires m in ids && forall x | x in ids :: m <= x
    ensures ids != {} && m == MinOf(ids)
  {
  }

  lemma LeastOfPart(m: map<int, Info>, rest: set<int>, id: int, tried: bool)
    requires id in rest && rest <= m.Keys && (forall x | x in rest :: id <= x)
    ensures m[id].inTried == tried ==>
              SortedIds(Part(m, rest, tried)) == [id] + SortedIds(Part(m, rest - {id}, tried))
    ensures m[id].inTried != tried ==> Part(m, rest - {id}, tried) == Part(m, rest, tried)
  {
    var p := Part(m, rest, tried);
    if m[id].inTried == tried {
      MinIsUnique(p, id);
      assert Part(m, rest - {id}, tried) == p - {id};
    } else {
      assert Part(m, rest - {id}, tried) == p;
    }
  }

  /** The ids of one table among those not yet visited. */
  ghost function Part(m: map<int, Info>, rest: set<int>, tried: bool): set<int> {
    set id | id in m && id in rest && m[id].inTried == tried
  }

  lemma WholePart(m: map<int, Info>)
    ensures Part(m, m.Keys, false) == NewIds(m) && Part(m, m.Keys, true) == TriedIds(m)
  {
  }

  lemma NoPart(m: map<int, Info>, tried: bool)
    ensures SortedIds(Part(m, {}, tried)) == []
  {
    assert Part(m, {}, tried) == {};
  }

  lemma ListSizes(e: Env, s: State)
    requires Consistent(e, s)
    ensures Savable(s) && |NewList(s)| == s.nNew && |TriedList(s)| == s.nTried
    ensures forall id | id in s.mapInfo :: s.mapInfo[id].refCount != 0 <==> !s.mapInfo[id].inTried
  {
    ConsistentSavable(e, s);
    SortedIdsFacts(NewIds(s.mapInfo));
    SortedIdsFacts(TriedIds(s.mapInfo));
    forall id | id in s.mapInfo
      ensures s.mapInfo[id].refCount != 0 <==> !s.mapInfo[id].inTried
    {
      if s.mapInfo[id].inTried {
        TriedHasNoRefs(e, s, id);
      } else {
        assert id !in Loose(s.mapInfo);
      }
    }
  }

  lemma RecordsAppend(m: map<int, Info>, q: seq<int>, id: int)
    requires (forall k | 0 <= k < |q| :: q[k] in m) && id in m
    ensures Records(m, q + [id]) == Records(m, q) + [RecordOf(m[id])]
  {
  }

  /** src/addrman.h:367-378: the new entries in id order, and the index each id gets. The
      assertion `nIds != nNew` of the source is the one in the body. */
  method WriteNews(m: AddrMan) returns (news: seq<Record>, unkIds: map<int, int>)
    requires m.Shape() && Consistent(m.env, m.Now())
    ensures Savable(m.Now()) && (forall k | 0 <= k < |NewList(m.Now())| :: NewList(m.Now())[k] in m.mapInfo)
    ensures news == Records(m.mapInfo, NewList(m.Now()))
    ensures forall k | 0 <= k < |NewList(m.Now())| ::
              NewList(m.Now())[k] in unkIds && unkIds[NewList(m.Now())[k]] == k
  {
    hide Consistent, Savable, SortedIds, Records, Part, TableOf, NewIds, TriedIds;
    ghost var s := m.Now();
    ghost var all := NewList(s);
    ListSizes(m.env, s);
    WholePart(m.mapInfo);
    NoPart(m.mapInfo, false);
    IdsInMap(m.mapInfo);
    NoRecords(m.mapInfo);
    var rest := m.mapInfo.Keys;
    var nIds := 0;
    news, unkIds := [], map[];
    ghost var done: seq<int> := [];
    while rest != {}
      invariant rest <= m.mapInfo.Keys
      invariant done + SortedIds(Part(m.mapInfo, rest, false)) == all
      invariant |done| == nIds && (forall k | 0 <= k < |done| :: done[k] in m.mapInfo)
      invariant news == Records(m.mapInfo, done)
      invariant forall k | 0 <= k < |done| :: done[k] !in rest && done[k] in unkIds && unkIds[done[k]] == k
      decreases |rest|
    {
      ghost var least := MinOf(rest);
      assert exists x :: x in rest && forall y | y in rest :: x <= y by {
        assert least in rest && forall y | y in rest :: least <= y;
      }
      var id :| id in rest && forall y | y in rest :: id <= y;
      LeastOfPart(m.mapInfo, rest, id, false);
      unkIds := unkIds[id := nIds];
      if m.mapInfo[id].refCount != 0 {
        ghost var tail := SortedIds(Part(m.mapInfo, rest - {id}, false));
        assert done + ([id] + tail) == (done + [id]) + tail;
        assert nIds != m.nNew;
        RecordsAppend(m.mapInfo, done, id);
        news := news + [RecordOf(m.mapInfo[id])];
        nIds := nIds + 1;
        done := done + [id];
      }
      rest := rest - {id};
    }
    assert done == all;
  }

  lemma NoRecords(m: map<int, Info>)
    ensures Records(m, []) == []
  {
  }

  /** src/addrman.h:379-388 */
  method WriteTrieds(m: AddrMan) returns (trieds: seq<Record>)
    requires m.Shape() && Consistent(m.env, m.Now())
    ensures forall k | 0 <= k < |TriedList(m.Now())| :: TriedList(m.Now())[k] in m.mapInfo
    ensures trieds == Records(m.mapInfo, TriedList(m.Now()))
  {
    hide Consistent, Savable, SortedIds, Records, Part, TableOf, NewIds, TriedIds;
    ghost var s := m.Now();
    ghost var all := TriedList(s);
    ListSizes(m.env, s);
    WholePart(m.mapInfo);
    NoPart(m.mapInfo, true);
    IdsInMap(m.mapInfo);
    NoRecords(m.mapInfo);
    var rest := m.mapInfo.Keys;
    var nIds := 0;
    trieds := [];
    ghost var done: seq<int> := [];
    while rest != {}
      invariant rest <= m.mapInfo.Keys
      invariant done + SortedIds(Part(m.mapInfo, rest, true)) == all
      invariant |done| == nIds && (forall k | 0 <= k < |done| :: done[k] in m.mapInfo)
      invariant trieds == Records(m.mapInfo, done)
      decreases |rest|
    {
      ghost var least := MinOf(rest);
      assert exists x :: x in rest && forall y | y in rest :: x <= y by {
        assert least in rest && forall y | y in rest :: least <= y;
      }
      var id :| id in rest && forall y | y in rest :: id <= y;
      LeastOfPart(m.mapInfo, rest, id, true);
      if m.mapInfo[id].inTried {
        ghost var tail := SortedIds(Part(m.mapInfo, rest - {id}, true));
        assert done + ([id] + tail) == (done + [id]) + tail;
        assert nIds != m.nTried;
        RecordsAppend(m.mapInfo, done, id);
        trieds := trieds + [RecordOf(m.mapInfo[id])];
        nIds := nIds + 1;
        done := done + [id];
      }
      rest := rest - {id};
    }
    assert done == all;
  }

  /** src/addrman.h:390-400 */
  method WriteBucket(m: AddrMan, b: int, unkIds: map<int, int>, ghost news: seq<int>) returns (list: seq<int>)
    requires m.Shape() && 0 <= b < NEW_BUCKET_COUNT
    requires forall k | 0 <= k < |news| :: news[k] in unkIds && unkIds[news[k]] == k
    requires forall i | 0 <= i < BUCKET_SIZE ::
               (b, i) in TableOf(m.vvNew) && (TableOf(m.vvNew)[(b, i)] == EMPTY || TableOf(m.vvNew)[(b, i)] in news)
    ensures list == BucketList(TableOf(m.vvNew), news, b, BUCKET_SIZE)
  {
    hide TableOf;
    list := [];
    for i := 0 to BUCKET_SIZE
      invariant list == BucketList(TableOf(m.vvNew), news, b, i)
    {
      var id := Load(m.vvNew, b, i);
      if id != EMPTY {
        list := list + [unkIds[id]];
        assert unkIds[news[Position(news, id)]] == Position(news, id);
      }
    }
  }

  /** src/addrman.h:351-409 */
  method Serialize(m: AddrMan, asmapVersion: nat) returns (d: Dump)
    requires m.Shape() && Consistent(m.env, m.Now())
    ensures Savable(m.Now()) && d == Saved(m.Now(), asmapVersion)
  {
    hide Consistent, SortedIds, Records, TableOf, NewIds, TriedIds, BucketList, Grid;
    var news, unkIds := WriteNews(m);
    var trieds := WriteTrieds(m);
    ghost var s := m.Now();
    GridHolds(s);
    var buckets: seq<seq<int>> := [];
    for b := 0 to NEW_BUCKET_COUNT
      invariant |buckets| == b
      invariant forall c | 0 <= c < b :: buckets[c] == BucketList(s.new_, NewList(s), c, BUCKET_SIZE)
    {
      var list := WriteBucket(m, b, unkIds, NewList(s));
      buckets := buckets + [list];
    }
    d := Dump(V3_BIP155, m.nNew, m.nTried, FlipBit30(NEW_BUCKET_COUNT), news, trieds, buckets, asmapVersion);
    assert d.buckets == Saved(s, asmapVersion).buckets;
  }

  lemma GridHolds(s: State)
    requires Savable(s)
    ensures forall b, i | 0 <= b < NEW_BUCKET_COUNT && 0 <= i < BUCKET_SIZE ::
              (b, i) in s.new_ && (s.new_[(b, i)] == EMPTY || s.new_[(b, i)] in NewList(s))
  {
  }

  // ---------- Unserialize ----------

  const MAX_NEW := NEW_BUCKET_COUNT * BUCKET_SIZE
  const MAX_TRIED := TRIED_BUCKET_COUNT * BUCKET_SIZE

  /** One round of src/addrman.h:464-470 */
  method ReadNew(m: AddrMan, n: int, r: Record)
    modifies m`mapInfo, m`mapAddr, m`vRandom
    ensures var s := LoadNew(old(m.Now()).(nIdCount := n), r);
            m.Now() == s.(nIdCount := old(m.nIdCount), nNew := old(m.nNew))
  {
    hide TableOf;
    m.mapInfo := m.mapInfo[n := InfoOf(r, false, -1)];
    m.mapAddr := m.mapAddr[r.svc.net := n];
    m.mapInfo := m.mapInfo[n := m.mapInfo[n].(randomPos := |m.vRandom|)];
    m.vRandom := m.vRandom + [n];
  }

  /** src/addrman.h:463-471 */
  method ReadNews(m: AddrMan, d: Dump)
    requires m.Shape() && m.Now() == Init().(nNew := |d.news|, nTried := |d.trieds|)
    modifies m`mapInfo, m`mapAddr, m`vRandom, m`nIdCount
    ensures m.Now() == AfterNews(d, |d.news|).(nNew := |d.news|, nTried := |d.trieds|)
  {
    hide TableOf, EmptyTable, FullTables, Init;
    InitCounts();
    for n := 0 to |d.news|
      invariant m.Now() == AfterNews(d, n).(nIdCount := 0, nNew := |d.news|, nTried := |d.trieds|)
    {
      ReadNew(m, n, d.news[n]);
    }
    m.nIdCount := m.nNew;
  }

  lemma InitCounts()
    ensures Init().nIdCount == 0 && Init().collisions == {}
  {
  }

  /** One round of src/addrman.h:475-491: whether the record was lost. */
  method ReadTried(m: AddrMan, r: Record) returns (lost: bool)
    requires m.Shape() && FullTables(m.Now())
    modifies m`mapInfo, m`mapAddr, m`vRandom, m`nIdCount, m.vvTried
    ensures FullTables(old(m.Now()))
    ensures var s := LoadTried(m.env, old(m.Now()), r);
            && m.Now() == s.(nTried := old(m.nTried))
            && s.nTried == old(m.nTried) + (if lost then 0 else 1)
  {
    hide TableOf, Grid;
    var b := TriedBucket(m.env, r.svc);
    var i := BucketPosition(m.env, r.svc, false, b);
    if Load(m.vvTried, b, i) == EMPTY {
      m.vRandom := m.vRandom + [m.nIdCount];
      m.mapInfo := m.mapInfo[m.nIdCount := InfoOf(r, true, |m.vRandom| - 1)];
      m.mapAddr := m.mapAddr[r.svc.net := m.nIdCount];
      Store(m.vvTried, b, i, m.nIdCount);
      m.nIdCount := m.nIdCount + 1;
      lost := false;
    } else {
      lost := true;
    }
  }

  /** The total of tried entries does not influence how a record is read. */
  lemma LoadTriedCount(e: Env, s: State, r: Record, n: int)
    requires FullTables(s)
    ensures LoadTried(e, s.(nTried := n), r) == LoadTried(e, s, r).(nTried := LoadTried(e, s, r).nTried - s.nTried + n)
  {
  }

  /** src/addrman.h:473-492 */
  method ReadTrieds(m: AddrMan, d: Dump)
    requires m.Shape() && m.Now() == AfterNews(d, |d.news|).(nNew := |d.news|, nTried := |d.trieds|)
    modifies m`mapInfo, m`mapAddr, m`vRandom, m`nIdCount, m`nTried, m.vvTried
    ensures m.Now() == AfterTrieds(m.env, d, |d.trieds|)
  {
    hide TableOf, LoadTried, Grid;
    NewsCounted(d, |d.news|);
    var nLost := 0;
    for n := 0 to |d.trieds|
      invariant m.Now() == AfterTrieds(m.env, d, n).(nTried := |d.trieds|)
      invariant nLost == n - AfterTrieds(m.env, d, n).nTried
    {
      LoadTriedCount(m.env, AfterTrieds(m.env, d, n), d.trieds[n], |d.trieds|);
      var lost := ReadTried(m, d.trieds[n]);
      if lost {
        nLost := nLost + 1;
      }
    }
    m.nTried := m.nTried - nLost;
  }

  lemma {:induction false} NewsCounted(d: Dump, k: nat)
    requires k <= |d.news|
    ensures AfterNews(d, k).nNew == k && AfterNews(d, k).nTried == 0
  {
    if k > 0 {
      NewsCounted(d, k - 1);
    }
  }

  /** src/addrman.h:494-507 */
  method ReadBuckets(d: Dump) returns (entryToBucket: map<int, int>)
    ensures forall n | 0 <= n < |d.news| ::
              (if n in entryToBucket then entryToBucket[n] else 0) == LastBucket(d.buckets, n)
  {
    entryToBucket := map[];
    for bucket := 0 to |d.buckets|
      invariant forall n | 0 <= n < |d.news| ::
                  (if n in entryToBucket then entryToBucket[n] else 0) == LastBucket(d.buckets[..bucket], n)
    {
      var list := d.buckets[bucket];
      for i := 0 to |list|
        invariant forall n | 0 <= n < |d.news| ::
                    (if n in entryToBucket then entryToBucket[n] else 0) ==
                    if n in list[..i] then bucket else LastBucket(d.buckets[..bucket], n)
      {
        assert list[..i + 1] == list[..i] + [list[i]];
        if 0 <= list[i] < |d.news| {
          entryToBucket := entryToBucket[list[i] := bucket];
        }
      }
      assert list[..|list|] == list;
      assert d.buckets[..bucket + 1][..bucket] == d.buckets[..bucket];
    }
    assert d.buckets[..|d.buckets|] == d.buckets;
  }

  /** One round of src/addrman.h:519-539 */
  method ReadBucketOf(m: AddrMan, d: Dump, asmapVersion: nat, n: int, bucket: int)
    requires m.Shape() && n in m.mapInfo && FullTables(m.Now()) && |d.buckets| == BucketCount(d)
    requires bucket == LastBucket(d.buckets, n)
    modifies m`mapInfo, m.vvNew
    ensures n in old(m.mapInfo) && FullTables(old(m.Now()))
    ensures m.Now() == Rebucket(m.env, old(m.Now()), d, asmapVersion, n)
  {
    hide TableOf, Grid, BucketCount, LastBucket;
    var info := m.mapInfo[n];
    var pos := BucketPosition(m.env, info.svc, true, bucket);
    if d.format >= V2_ASMAP && BucketCount(d) == NEW_BUCKET_COUNT && Load(m.vvNew, bucket, pos) == EMPTY
       && info.refCount < NEW_BUCKETS_PER_ADDRESS && d.asmapVersion == asmapVersion {
      Store(m.vvNew, bucket, pos, n);
      m.mapInfo := m.mapInfo[n := info.(refCount := info.refCount + 1)];
    } else {
      var b := NewBucket(m.env, info.svc, info.source);
      var i := BucketPosition(m.env, info.svc, true, b);
      if Load(m.vvNew, b, i) == EMPTY {
        Store(m.vvNew, b, i, n);
        m.mapInfo := m.mapInfo[n := info.(refCount := info.refCount + 1)];
      }
    }
  }

  /** src/addrman.h:519-539 */
  method ReadBucketsOf(m: AddrMan, d: Dump, asmapVersion: nat, entryToBucket: map<int, int>)
    requires m.Shape() && m.Now() == AfterTrieds(m.env, d, |d.trieds|) && |d.buckets| == BucketCount(d)
    requires forall n | 0 <= n < |d.news| ::
               (if n in entryToBucket then entryToBucket[n] else 0) == LastBucket(d.buckets, n)
    modifies m`mapInfo, m.vvNew
    ensures m.Now() == AfterBuckets(m.env, d, asmapVersion, |d.news|)
  {
    hide TableOf, Rebucket, FullTables, BucketCount, LastBucket, AfterTrieds;
    for n := 0 to |d.news|
      invariant m.Now() == AfterBuckets(m.env, d, asmapVersion, n)
    {
      var bucket := if n in entryToBucket then entryToBucket[n] else 0;
      ReadBucketOf(m, d, asmapVersion, n, bucket);
    }
  }

  /** src/addrman.h:541-552 */
  method PruneLost(m: AddrMan)
    requires m.Shape() && Loading(m.env, m.Now())
    modifies m`mapInfo, m`mapAddr, m`vRandom, m`nNew
    ensures Loading(m.env, old(m.Now())) && m.Now() == Prune(m.env, old(m.Now()), old(m.mapInfo.Keys))
  {
    hide TableOf, Loading, AddrManSpec.Delete, Index;
    ghost var s := m.Now();
    var rest := m.mapInfo.Keys;
    while rest != {}
      invariant Loading(m.env, m.Now()) && rest <= m.mapInfo.Keys
      invariant Prune(m.env, s, s.mapInfo.Keys) == Prune(m.env, m.Now(), rest)
      decreases |rest|
    {
      ghost var least := MinOf(rest);
      assert exists x :: x in rest && forall y | y in rest :: x <= y by {
        assert least in rest && forall y | y in rest :: least <= y;
      }
      var id :| id in rest && forall y | y in rest :: id <= y;
      assert id == least;
      if !m.mapInfo[id].inTried && m.mapInfo[id].refCount == 0 {
        PruneStep(m.env, m.Now(), id);
        DeleteIndex(m.Now(), id);
        m.Delete(id);
      }
      rest := rest - {id};
    }
  }

  /** src/addrman.h:411-561, into a manager without pending collisions. */
  method Unserialize(m: AddrMan, d: Dump, asmapVersion: nat) returns (ok: bool)
    requires m.Shape() && m.collisions == {} && Sane(d)
    modifies m, m.vvNew, m.vvTried
    ensures ok <==> d.format <= V3_BIP155 && d.nNew <= MAX_NEW && d.nTried <= MAX_TRIED
    ensures ok ==> m.Now() == Loaded(m.env, d, asmapVersion) && Consistent(m.env, m.Now())
  {
    hide Consistent, TableOf, Init, FullTables, Loading, Prune, NetOf, AfterNews, AfterTrieds, AfterBuckets,
         LastBucket, BucketCount;
    InitCounts();
    m.Clear();
    if d.format > V3_BIP155 {
      return false;
    }
    m.nNew, m.nTried := d.nNew, d.nTried;
    if m.nNew > MAX_NEW {
      return false;
    }
    if m.nTried > MAX_TRIED {
      return false;
    }
    ReadNews(m, d);
    ReadTrieds(m, d);
    var entryToBucket := ReadBuckets(d);
    ReadBucketsOf(m, d, asmapVersion, entryToBucket);
    AfterBucketsLoading(m.env, d, asmapVersion, |d.news|);
    PruneLost(m);
    LoadedIsConsistent(m.env, d, asmapVersion);
    return true;
  }

  // ---------- A saved manager is accepted ----------

  lemma {:induction false} GridSize(n: nat)
    ensures |Grid(n)| == n * BUCKET_SIZE
  {
    if n == 0 {
      assert Grid(0) == {};
    } else {
      GridSize(n - 1);
      RowSize(n - 1, BUCKET_SIZE);
      assert Grid(n) == Grid(n - 1) + Row(n - 1, BUCKET_SIZE);
      assert Grid(n - 1) !! Row(n - 1, BUCKET_SIZE);
    }
  }

  ghost function Row(b: int, k: nat): set<Slot> {
    set i | 0 <= i < k :: (b, i)
  }

  lemma {:induction false} RowSize(b: int, k: nat)
    ensures |Row(b, k)| == k
  {
    if k == 0 {
      assert Row(b, 0) == {};
    } else {
      RowSize(b, k - 1);
      assert Row(b, k) == Row(b, k - 1) + {(b, k - 1)};
    }
  }

  /** Distinct ids that each hold a slot of their own are at most as many as the slots. */
  lemma {:induction false} Pigeonhole(ids: set<int>, slots: set<Slot>, t: Table)
    requires slots <= t.Keys
    requires forall id | id in ids :: exists sl :: sl in slots && t[sl] == id
    ensures |ids| <= |slots|
    decreases |ids|
  {
    if ids != {} {
      var id := Pick(ids);
      var sl :| sl in slots && t[sl] == id;
      forall x | x in ids - {id}
        ensures exists y :: y in slots - {sl} && t[y] == x
      {
        var y :| y in slots && t[y] == x;
        assert y in slots - {sl};
      }
      Pigeonhole(ids - {id}, slots - {sl}, t);
    }
  }

  /** Unserialize accepts what Serialize writes: the counters are within the table sizes. */
  lemma SavedIsAccepted(e: Env, s: State, asmapVersion: nat)
    requires Consistent(e, s)
    ensures Savable(s) && Saved(s, asmapVersion).format <= V3_BIP155
    ensures Saved(s, asmapVersion).nNew <= MAX_NEW && Saved(s, asmapVersion).nTried <= MAX_TRIED
  {
    ConsistentSavable(e, s);
    NewFits(e, s);
    TriedFits(e, s);
    GridSize(NEW_BUCKET_COUNT);
    GridSize(TRIED_BUCKET_COUNT);
    hide *;
  }

  lemma NewFits(e: Env, s: State)
    requires Consistent(e, s)
    ensures s.nNew <= |Grid(NEW_BUCKET_COUNT)|
  {
    hide Slots;
    assert s.new_.Keys == Grid(NEW_BUCKET_COUNT);
    forall id | id in NewIds(s.mapInfo)
      ensures exists sl :: sl in Grid(NEW_BUCKET_COUNT) && s.new_[sl] == id
    {
      NewEntryHasSlot(e, s, id);
      var sl := Pick(Slots(s.new_, id));
      SlotHolds(s.new_, id, sl);
    }
    Pigeonhole(NewIds(s.mapInfo), Grid(NEW_BUCKET_COUNT), s.new_);
  }

  lemma SlotHolds(t: Table, id: int, sl: Slot)
    requires sl in Slots(t, id)
    ensures sl in t && t[sl] == id
  {
  }

  lemma TriedFits(e: Env, s: State)
    requires Consistent(e, s)
    ensures s.nTried <= |Grid(TRIED_BUCKET_COUNT)|
  {
    forall id | id in TriedIds(s.mapInfo)
      ensures exists sl :: sl in Grid(TRIED_BUCKET_COUNT) && s.tried[sl] == id
    {
      var sl := TriedSlot(e, s.mapInfo[id].svc);
      assert sl in Grid(TRIED_BUCKET_COUNT) && s.tried[sl] == id;
    }
    Pigeonhole(TriedIds(s.mapInfo), Grid(TRIED_BUCKET_COUNT), s.tried);
  }
}
