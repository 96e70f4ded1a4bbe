/** Saving a consistent address manager and loading it again loses nothing. */
module AddrManRoundTrip {
  import opened AddrManSpec
  import opened AddrManSteps
  import opened AddrManOps
  import opened AddrManRuns
  import opened AddrManDump

  // ---------- Dumps from which nothing is lost ----------

  ghost function KeptSlot(e: Env, d: Dump, n: nat): Slot
    requires n < |d.news|
  {
    var b := LastBucket(d.buckets, n);
    (b, BucketPosition(e, d.news[n].svc, true, b))
  }

  /** No two tried records claim one slot. */
  ghost predicate ApartInTried(e: Env, d: Dump) {
    forall i, j | 0 <= i < j < |d.trieds| :: TriedSlot(e, d.trieds[i].svc) != TriedSlot(e, d.trieds[j].svc)
  }

  /** The stored bucketing applies, and no two entries of a table claim one slot. */
  ghost predicate Intact(e: Env, d: Dump, asmapVersion: nat) {
    && Sane(d)
    && SameBucketing(d, asmapVersion)
    && ApartInTried(e, d)
    && (forall i: nat, j: nat | i < j < |d.news| :: KeptSlot(e, d, i) != KeptSlot(e, d, j))
  }

  /** The entries of a state that has taken in every new record, k tried records, and put
      r of the new ones into a bucket. */
  ghost predicate Entries(d: Dump, s: State, k: nat, r: nat)
    requires k <= |d.trieds|
  {
    var n := |d.news|;
    && s.nIdCount == n + k && |s.vRandom| == n + k && s.nNew == n && s.nTried == k
    && (forall id | id in s.mapInfo :: 0 <= id < n + k)
    && (forall id | 0 <= id < n ::
          id in s.mapInfo && s.mapInfo[id] == InfoOf(d.news[id], false, id).(refCount := if id < r then 1 else 0))
    && (forall id | n <= id < n + k :: id in s.mapInfo && s.mapInfo[id] == InfoOf(d.trieds[id - n], true, id))
  }

  /** Whatever the new table holds sits in its stored slot. */
  ghost predicate InKeptSlots(e: Env, d: Dump, t: Table) {
    forall us | us in t && t[us] != EMPTY :: 0 <= t[us] < |d.news| && KeptSlot(e, d, t[us]) == us
  }

  lemma {:induction false} NewsArrive(d: Dump, k: nat)
    requires k <= |d.news|
    ensures var s := AfterNews(d, k);
            && |s.vRandom| == k && s.nNew == k && s.nTried == 0 && s.new_ == EmptyTable(NEW_BUCKET_COUNT)
            && (forall id | id in s.mapInfo :: 0 <= id < k)
            && (forall j | 0 <= j < k :: j in s.mapInfo && s.mapInfo[j] == InfoOf(d.news[j], false, j))
  {
    hide EmptyTable;
    if k > 0 {
      NewsArrive(d, k - 1);
    }
  }

  lemma BeforeTrieds(e: Env, d: Dump)
    ensures Entries(d, AfterTrieds(e, d, 0), 0, 0) && AfterTrieds(e, d, 0).new_ == EmptyTable(NEW_BUCKET_COUNT)
  {
    hide AfterNews, EmptyTable;
    NewsArrive(d, |d.news|);
  }

  lemma {:induction false} TriedsArrive(e: Env, d: Dump, k: nat)
    requires k <= |d.trieds| && Sane(d) && ApartInTried(e, d)
    ensures Entries(d, AfterTrieds(e, d, k), k, 0)
    ensures AfterTrieds(e, d, k).new_ == EmptyTable(NEW_BUCKET_COUNT)
  {
    hide Sane, ApartInTried, LoadTried, EmptyTable, Entries;
    if k == 0 {
      BeforeTrieds(e, d);
    } else {
      TriedsArrive(e, d, k - 1);
      AfterTriedsLoading(e, d, k - 1);
      TriedArrives(e, d, AfterTrieds(e, d, k - 1), k - 1);
    }
  }

  lemma TriedSlotFree(e: Env, d: Dump, s: State, k: nat)
    requires k < |d.trieds| && Entries(d, s, k, 0) && TriedTable(e, s.mapInfo, s.tried) && ApartInTried(e, d)
    ensures s.tried[TriedSlot(e, d.trieds[k].svc)] == EMPTY
  {
    var ks := TriedSlot(e, d.trieds[k].svc);
    forall id | id in s.mapInfo && s.mapInfo[id].inTried
      ensures TriedSlot(e, s.mapInfo[id].svc) != ks
    {
      assert id >= |d.news|;
    }
  }

  lemma TriedArrives(e: Env, d: Dump, s: State, k: nat)
    requires k < |d.trieds| && Entries(d, s, k, 0) && Loading(e, s) && ApartInTried(e, d)
    ensures Entries(d, LoadTried(e, s, d.trieds[k]), k + 1, 0)
    ensures LoadTried(e, s, d.trieds[k]).new_ == s.new_
  {
    hide Index, NewTable, RefCounts, Times, Counts, TriedTable, ApartInTried;
    TriedSlotFree(e, d, s, k);
  }

  lemma {:induction false} NewsSettle(e: Env, d: Dump, asmapVersion: nat, n: nat)
    requires Intact(e, d, asmapVersion) && n <= |d.news|
    ensures var s := AfterBuckets(e, d, asmapVersion, n);
            Entries(d, s, |d.trieds|, n) && InKeptSlots(e, d, s.new_)
  {
    hide Entries, Rebucket, KeptSlot, SameBucketing;
    if n == 0 {
      TriedsArrive(e, d, |d.trieds|);
      assert InKeptSlots(e, d, EmptyTable(NEW_BUCKET_COUNT));
    } else {
      NewsSettle(e, d, asmapVersion, n - 1);
      AfterBucketsLoading(e, d, asmapVersion, n - 1);
      NewSettles(e, d, asmapVersion, AfterBuckets(e, d, asmapVersion, n - 1), n - 1);
    }
  }

  lemma KeptSlotFree(e: Env, d: Dump, asmapVersion: nat, s: State, n: nat)
    requires Intact(e, d, asmapVersion) && n < |d.news| && Entries(d, s, |d.trieds|, n)
    requires InKeptSlots(e, d, s.new_) && RefCounts(s.mapInfo, s.new_) && s.new_.Keys == Grid(NEW_BUCKET_COUNT)
    ensures KeptSlot(e, d, n) in s.new_ && s.new_[KeptSlot(e, d, n)] == EMPTY
  {
    var us := KeptSlot(e, d, n);
    assert Slots(s.new_, n) == {};
    assert us !in Slots(s.new_, n);
    forall id: nat | id < |d.news| && id != n
      ensures KeptSlot(e, d, id) != us
    {
    }
  }

  lemma NewSettles(e: Env, d: Dump, asmapVersion: nat, s: State, n: nat)
    requires Intact(e, d, asmapVersion) && n < |d.news| && Loading(e, s)
    requires Entries(d, s, |d.trieds|, n) && InKeptSlots(e, d, s.new_)
    ensures n in s.mapInfo && Rebucket(e, s, d, asmapVersion, n) == AddRef(s, n, KeptSlot(e, d, n))
    ensures Entries(d, AddRef(s, n, KeptSlot(e, d, n)), |d.trieds|, n + 1)
    ensures InKeptSlots(e, d, AddRef(s, n, KeptSlot(e, d, n)).new_)
  {
    hide Index, TriedTable, NewTable, RefCounts, Times, Counts;
    KeptSlotFree(e, d, asmapVersion, s, n);
    var us := KeptSlot(e, d, n);
    assert AddRef(s, n, us).mapInfo.Keys == s.mapInfo.Keys;
  }

  lemma {:induction false} PruneNothing(e: Env, s: State, rest: set<int>)
    requires Loading(e, s) && Loose(s.mapInfo) == {}
    ensures Prune(e, s, rest) == s
    decreases |rest|
  {
    hide Loading;
    if rest != {} {
      PruneNothing(e, s, rest - {MinOf(rest)});
    }
  }

  /** From an intact dump every entry comes back, the new ones with one reference, in a slot
      the dump names. */
  lemma IntactLosesNothing(e: Env, d: Dump, asmapVersion: nat)
    requires Intact(e, d, asmapVersion)
    ensures var s := Loaded(e, d, asmapVersion);
            Entries(d, s, |d.trieds|, |d.news|) && InKeptSlots(e, d, s.new_)
  {
    hide Loading, Entries, InKeptSlots, Loose;
    var s := AfterBuckets(e, d, asmapVersion, |d.news|);
    NewsSettle(e, d, asmapVersion, |d.news|);
    AfterBucketsLoading(e, d, asmapVersion, |d.news|);
    AllSettled(d, s);
    PruneNothing(e, s, s.mapInfo.Keys);
  }

  lemma AllSettled(d: Dump, s: State)
    requires Entries(d, s, |d.trieds|, |d.news|)
    ensures Loose(s.mapInfo) == {}
  {
    forall id | id in s.mapInfo
      ensures s.mapInfo[id].inTried || s.mapInfo[id].refCount != 0
    {
    }
  }

  // ---------- Saving ----------

  /** The order in which std::map iterates. */
  ghost function SortedIds(ids: set<int>): seq<int>
    decreases |ids|
  {
    if ids == {} then [] else [MinOf(ids)] + SortedIds(ids - {MinOf(ids)})
  }

  lemma {:induction false} SortedIdsFacts(ids: set<int>)
    ensures var q := SortedIds(ids);
            && |q| == |ids|
            && (forall k | 0 <= k < |q| :: q[k] in ids)
            && (forall x | x in ids :: x in q)
            && (forall i, j | 0 <= i < j < |q| :: q[i] < q[j])
    decreases |ids|
  {
    if ids != {} {
      SortedIdsFacts(ids - {MinOf(ids)});
      Prepend(MinOf(ids), SortedIds(ids - {MinOf(ids)}), ids);
    }
  }

  lemma Prepend(m: int, r: seq<int>, ids: set<int>)
    requires m in ids && (forall x | x in ids :: m <= x)
    requires |r| == |ids - {m}| && (forall k | 0 <= k < |r| :: r[k] in ids - {m})
    requires (forall x | x in ids - {m} :: x in r) && (forall i, j | 0 <= i < j < |r| :: r[i] < r[j])
    ensures var q := [m] + r;
            && |q| == |ids|
            && (forall k | 0 <= k < |q| :: q[k] in ids)
            && (forall x | x in ids :: x in q)
            && (forall i, j | 0 <= i < j < |q| :: q[i] < q[j])
  {
    var q := [m] + r;
    forall x | x in ids
      ensures x in q
    {
      if x != m {
        assert x in ids - {m};
      }
    }
    forall k | 0 < k < |q|
      ensures q[k] == r[k - 1] && q[k] in ids && m < q[k]
    {
      assert r[k - 1] in ids - {m};
    }
  }

  function Position(q: seq<int>, id: int): (k: nat)
    requires id in q
    ensures k < |q| && q[k] == id
  {
    if q[0] == id then 0 else 1 + Position(q[1..], id)
  }

  /** src/addrman.h:389-401: the index of each entry of a bucket, up to position n. */
  ghost function BucketList(t: Table, news: seq<int>, b: int, n: nat): seq<int>
    requires forall i | 0 <= i < n :: (b, i) in t && (t[(b, i)] == EMPTY || t[(b, i)] in news)
  {
    if n == 0 then []
    else if t[(b, n - 1)] == EMPTY then BucketList(t, news, b, n - 1)
    else BucketList(t, news, b, n - 1) + [Position(news, t[(b, n - 1)])]
  }

  ghost predicate Savable(s: State) {
    && s.new_.Keys == Grid(NEW_BUCKET_COUNT)
    && forall sl | sl in s.new_ && s.new_[sl] != EMPTY :: s.new_[sl] in SortedIds(NewIds(s.mapInfo))
  }

  ghost function Records(m: map<int, Info>, ids: seq<int>): (r: seq<Record>)
    requires forall k | 0 <= k < |ids| :: ids[k] in m
    ensures |r| == |ids| && forall k | 0 <= k < |ids| :: r[k] == RecordOf(m[ids[k]])
  {
    seq(|ids|, k requires 0 <= k < |ids| => RecordOf(m[ids[k]]))
  }

  lemma IdsInMap(m: map<int, Info>)
    ensures forall k | 0 <= k < |SortedIds(NewIds(m))| ::
              SortedIds(NewIds(m))[k] in m && !m[SortedIds(NewIds(m))[k]].inTried
    ensures forall k | 0 <= k < |SortedIds(TriedIds(m))| ::
              SortedIds(TriedIds(m))[k] in m && m[SortedIds(TriedIds(m))[k]].inTried
  {
    SortedIdsFacts(NewIds(m));
    SortedIdsFacts(TriedIds(m));
  }

  /** src/addrman.h:351-409 */
  ghost function Saved(s: State, asmapVersion: nat): Dump
    requires Savable(s)
  {
    IdsInMap(s.mapInfo);
    var news, trieds := SortedIds(NewIds(s.mapInfo)), SortedIds(TriedIds(s.mapInfo));
    Dump(V3_BIP155, s.nNew, s.nTried, FlipBit30(NEW_BUCKET_COUNT),
         Records(s.mapInfo, news), Records(s.mapInfo, trieds),
         seq(NEW_BUCKET_COUNT, b requires 0 <= b < NEW_BUCKET_COUNT => BucketList(s.new_, news, b, BUCKET_SIZE)),
         asmapVersion)
  }

  lemma ConsistentSavable(e: Env, s: State)
    requires Consistent(e, s)
    ensures Savable(s)
  {
    SortedIdsFacts(NewIds(s.mapInfo));
    forall sl | sl in s.new_ && s.new_[sl] != EMPTY
      ensures s.new_[sl] in SortedIds(NewIds(s.mapInfo))
    {
      assert s.new_[sl] in NewIds(s.mapInfo);
    }
  }

  lemma {:induction false} BucketListFacts(t: Table, news: seq<int>, b: int, n: nat, k: int)
    requires forall i | 0 <= i < n :: (b, i) in t && (t[(b, i)] == EMPTY || t[(b, i)] in news)
    requires forall i, j | 0 <= i < j < |news| :: news[i] != news[j]
    requires 0 <= k < |news|
    ensures k in BucketList(t, news, b, n) <==> exists i | 0 <= i < n :: t[(b, i)] == news[k] != EMPTY
  {
    if n > 0 {
      BucketListFacts(t, news, b, n - 1, k);
      var x := t[(b, n - 1)];
      if x != EMPTY {
        var q := BucketList(t, news, b, n - 1);
        assert BucketList(t, news, b, n) == q + [Position(news, x)];
        assert k in BucketList(t, news, b, n) <==> k in q || k == Position(news, x);
        assert k == Position(news, x) <==> x == news[k];
      }
    }
  }

  // ---------- What is saved is intact ----------

  ghost function NewList(s: State): seq<int> {
    SortedIds(NewIds(s.mapInfo))
  }

  ghost function TriedList(s: State): seq<int> {
    SortedIds(TriedIds(s.mapInfo))
  }

  /** The id of the i-th saved record. */
  ghost function IdAt(s: State, i: nat): int
    requires i < |NewList(s)| + |TriedList(s)|
  {
    if i < |NewList(s)| then NewList(s)[i] else TriedList(s)[i - |NewList(s)|]
  }

  lemma SavedIds(s: State, asmapVersion: nat, i: nat)
    requires Savable(s) && i < |NewList(s)| + |TriedList(s)|
    ensures IdAt(s, i) in s.mapInfo && (s.mapInfo[IdAt(s, i)].inTried <==> i >= |NewList(s)|)
    ensures var d := Saved(s, asmapVersion);
            && |d.news| == |NewList(s)| && |d.trieds| == |TriedList(s)|
            && NetOf(d, i) == s.mapInfo[IdAt(s, i)].svc.net
  {
    hide Savable, BucketList;
    IdsInMap(s.mapInfo);
  }

  lemma SavedIdsApart(s: State, i: nat, j: nat)
    requires i < j < |NewList(s)| + |TriedList(s)|
    ensures IdAt(s, i) != IdAt(s, j)
  {
    SortedIdsFacts(NewIds(s.mapInfo));
    SortedIdsFacts(TriedIds(s.mapInfo));
    if i < |NewList(s)| <= j {
      assert IdAt(s, i) in NewIds(s.mapInfo) && IdAt(s, j) in TriedIds(s.mapInfo);
    }
  }

  lemma BucketWord()
    ensures FlipBit30(FlipBit30(NEW_BUCKET_COUNT)) == NEW_BUCKET_COUNT
  {
  }

  lemma SavedIsSane(e: Env, s: State, asmapVersion: nat)
    requires Consistent(e, s) && Savable(s)
    ensures Sane(Saved(s, asmapVersion))
  {
    hide Savable, BucketList, TriedTable, NewTable, RefCounts, RandomIndex, Collisions, NewIds, TriedIds, Loose,
         FlipBit30;
    var d := Saved(s, asmapVersion);
    BucketWord();
    SortedIdsFacts(NewIds(s.mapInfo));
    SortedIdsFacts(TriedIds(s.mapInfo));
    IdsInMap(s.mapInfo);
    forall i: nat, j: nat | i < j < |d.news| + |d.trieds|
      ensures NetOf(d, i) != NetOf(d, j)
    {
      SavedNetsApart(e, s, asmapVersion, i, j);
    }
  }

  lemma SavedNetsApart(e: Env, s: State, asmapVersion: nat, i: nat, j: nat)
    requires Consistent(e, s) && Savable(s)
    requires var d := Saved(s, asmapVersion); i < j < |d.news| + |d.trieds|
    ensures var d := Saved(s, asmapVersion); NetOf(d, i) != NetOf(d, j)
  {
    hide Savable, BucketList, TriedTable, NewTable, RefCounts, RandomIndex, Collisions, NewIds, TriedIds, Loose,
         FlipBit30;
    var d := Saved(s, asmapVersion);
    IdsInMap(s.mapInfo);
    SavedIds(s, asmapVersion, i);
    SavedIds(s, asmapVersion, j);
    SavedIdsApart(s, i, j);
    assert s.mapAddr[NetOf(d, i)] == IdAt(s, i) && s.mapAddr[NetOf(d, j)] == IdAt(s, j);
  }

  /** A saved new entry is listed under buckets that hold it. */
  lemma KeptSlotHeld(e: Env, s: State, asmapVersion: nat, k: nat)
    requires Consistent(e, s) && Savable(s) && k < |NewList(s)|
    ensures |Saved(s, asmapVersion).news| == |NewList(s)|
    ensures KeptSlot(e, Saved(s, asmapVersion), k) in s.new_
    ensures s.new_[KeptSlot(e, Saved(s, asmapVersion), k)] == NewList(s)[k]
  {
    hide Consistent, Savable, SortedIds, BucketList, LastBucket, NewIds, TriedIds;
    var d := Saved(s, asmapVersion);
    var id := NewList(s)[k];
    IdsInMap(s.mapInfo);
    NewEntryHasSlot(e, s, id);
    OwnSlots(e, s, id);
    var sl := Pick(Slots(s.new_, id));
    ListedIffHeld(s, sl.0, k);
    assert k in d.buckets[sl.0];
    var b := LastBucket(d.buckets, k);
    ListedIffHeld(s, b, k);
  }

  lemma OwnSlots(e: Env, s: State, id: int)
    requires Consistent(e, s) && id in s.mapInfo
    ensures id != EMPTY && s.new_.Keys == Grid(NEW_BUCKET_COUNT)
    ensures forall sl | sl in s.new_ && s.new_[sl] == id :: sl.1 == BucketPosition(e, s.mapInfo[id].svc, true, sl.0)
  {
  }

  lemma ListedIffHeld(s: State, b: int, k: nat)
    requires Savable(s) && 0 <= b < NEW_BUCKET_COUNT && k < |NewList(s)|
    ensures forall i | 0 <= i < BUCKET_SIZE ::
              (b, i) in s.new_ && (s.new_[(b, i)] == EMPTY || s.new_[(b, i)] in NewList(s))
    ensures k in BucketList(s.new_, NewList(s), b, BUCKET_SIZE) <==>
              exists i | 0 <= i < BUCKET_SIZE :: s.new_[(b, i)] == NewList(s)[k] != EMPTY
  {
    SortedIdsFacts(NewIds(s.mapInfo));
    BucketListFacts(s.new_, NewList(s), b, BUCKET_SIZE, k);
  }

  lemma SavedIsIntact(e: Env, s: State, asmapVersion: nat)
    requires Consistent(e, s) && Savable(s)
    ensures Intact(e, Saved(s, asmapVersion), asmapVersion)
  {
    hide Consistent, Savable, KeptSlot, Sane, FlipBit30, BucketList, SortedIds;
    var d := Saved(s, asmapVersion);
    SavedIsSane(e, s, asmapVersion);
    BucketWord();
    SortedIdsFacts(NewIds(s.mapInfo));
    SortedIdsFacts(TriedIds(s.mapInfo));
    IdsInMap(s.mapInfo);
    forall i, j | 0 <= i < j < |d.trieds|
      ensures TriedSlot(e, d.trieds[i].svc) != TriedSlot(e, d.trieds[j].svc)
    {
      TriedApart(e, s, TriedList(s)[i], TriedList(s)[j]);
    }
    forall i: nat, j: nat | i < j < |d.news|
      ensures KeptSlot(e, d, i) != KeptSlot(e, d, j)
    {
      KeptSlotHeld(e, s, asmapVersion, i);
      KeptSlotHeld(e, s, asmapVersion, j);
    }
  }

  lemma TriedApart(e: Env, s: State, a: int, b: int)
    requires Consistent(e, s) && a != b
    requires a in s.mapInfo && b in s.mapInfo && s.mapInfo[a].inTried && s.mapInfo[b].inTried
    ensures TriedSlot(e, s.mapInfo[a].svc) != TriedSlot(e, s.mapInfo[b].svc)
  {
    assert s.tried[TriedSlot(e, s.mapInfo[a].svc)] == a;
    assert s.tried[TriedSlot(e, s.mapInfo[b].svc)] == b;
  }

  // ---------- The round trip ----------

  /** What of an entry is kept on disk (src/addrman.h:60-63). */
  ghost predicate SameRecord(a: Info, b: Info) {
    && a.svc == b.svc && a.services == b.services && a.time == b.time && a.source == b.source
    && a.lastSuccess == b.lastSuccess && a.attempts == b.attempts
  }

  /** The same addresses with the same records: tried entries in their slots, new entries with
      one reference, in a slot they had. */
  ghost predicate SameAddresses(s: State, l: State) {
    && l.nNew == s.nNew && l.nTried == s.nTried
    && l.mapAddr.Keys == s.mapAddr.Keys
    && (forall net | net in s.mapAddr :: s.mapAddr[net] in s.mapInfo && l.mapAddr[net] in l.mapInfo)
    && (forall net | net in s.mapAddr ::
          var a, b := s.mapInfo[s.mapAddr[net]], l.mapInfo[l.mapAddr[net]];
          && SameRecord(a, b) && a.inTried == b.inTried
          && (!b.inTried ==> b.refCount == 1))
    && (forall net, sl | net in s.mapAddr && sl in l.new_ && l.new_[sl] == l.mapAddr[net] ::
          sl in s.new_ && s.new_[sl] == s.mapAddr[net])
    && (forall net, sl | net in s.mapAddr && sl in s.tried ::
          sl in l.tried && (s.tried[sl] == s.mapAddr[net] <==> l.tried[sl] == l.mapAddr[net]))
  }

  lemma RecordIndex(s: State, id: int) returns (i: nat)
    requires id in s.mapInfo
    ensures i < |NewList(s)| + |TriedList(s)| && IdAt(s, i) == id
  {
    SortedIdsFacts(NewIds(s.mapInfo));
    SortedIdsFacts(TriedIds(s.mapInfo));
    if s.mapInfo[id].inTried {
      assert id in TriedIds(s.mapInfo);
      i := |NewList(s)| + Position(TriedList(s), id);
    } else {
      assert id in NewIds(s.mapInfo);
      i := Position(NewList(s), id);
    }
  }

  /** Entry i of the loaded manager is the i-th saved entry. */
  lemma LoadedEntry(s: State, asmapVersion: nat, l: State, i: nat)
    requires Savable(s) && i < |NewList(s)| + |TriedList(s)|
    requires var d := Saved(s, asmapVersion); Entries(d, l, |d.trieds|, |d.news|)
    ensures i in l.mapInfo && IdAt(s, i) in s.mapInfo
    ensures SameRecord(l.mapInfo[i], s.mapInfo[IdAt(s, i)])
    ensures l.mapInfo[i].inTried == s.mapInfo[IdAt(s, i)].inTried
    ensures !l.mapInfo[i].inTried ==> i < |NewList(s)| && l.mapInfo[i].refCount == 1
  {
    hide Savable, BucketList, SortedIds;
    IdsInMap(s.mapInfo);
  }

  lemma LoadedAddress(e: Env, s: State, asmapVersion: nat, l: State, net: NetAddr)
    requires Consistent(e, s) && Savable(s) && Consistent(e, l)
    requires var d := Saved(s, asmapVersion); Entries(d, l, |d.trieds|, |d.news|)
    requires net in s.mapAddr
    ensures s.mapAddr[net] in s.mapInfo && net in l.mapAddr && l.mapAddr[net] in l.mapInfo
    ensures 0 <= l.mapAddr[net] < |NewList(s)| + |TriedList(s)| && IdAt(s, l.mapAddr[net]) == s.mapAddr[net]
  {
    hide Savable, BucketList, SortedIds, TriedTable, NewTable, RefCounts, RandomIndex, Collisions, Entries;
    var i := RecordIndex(s, s.mapAddr[net]);
    LoadedEntry(s, asmapVersion, l, i);
    assert l.mapInfo[i].svc.net == net;
  }

  lemma LoadedAddressBack(e: Env, s: State, asmapVersion: nat, l: State, net: NetAddr)
    requires Consistent(e, s) && Savable(s) && Consistent(e, l)
    requires var d := Saved(s, asmapVersion); Entries(d, l, |d.trieds|, |d.news|)
    requires net in l.mapAddr
    ensures net in s.mapAddr
  {
    hide Savable, BucketList, SortedIds, TriedTable, NewTable, RefCounts, RandomIndex, Collisions;
    IdsInMap(s.mapInfo);
    LoadedEntry(s, asmapVersion, l, l.mapAddr[net]);
  }

  lemma LoadedNewSlot(e: Env, s: State, asmapVersion: nat, l: State, i: nat, sl: Slot)
    requires Consistent(e, s) && Savable(s) && i < |NewList(s)| + |TriedList(s)|
    requires var d := Saved(s, asmapVersion); Entries(d, l, |d.trieds|, |d.news|) && InKeptSlots(e, d, l.new_)
    requires sl in l.new_ && l.new_[sl] == i
    ensures sl in s.new_ && s.new_[sl] == IdAt(s, i)
  {
    hide Consistent, Savable, SortedIds, BucketList, KeptSlot, Entries;
    IdsInMap(s.mapInfo);
    assert i < |NewList(s)|;
    KeptSlotHeld(e, s, asmapVersion, i);
  }

  lemma TriedSlotIff(e: Env, s: State, id: int, sl: Slot)
    requires Consistent(e, s) && id in s.mapInfo && sl in Grid(TRIED_BUCKET_COUNT)
    ensures sl in s.tried
    ensures s.tried[sl] == id <==> s.mapInfo[id].inTried && TriedSlot(e, s.mapInfo[id].svc) == sl
  {
  }

  /** Saving a consistent manager and loading the dump with the same asmap loses no address. */
  lemma RoundTrip(e: Env, s: State, asmapVersion: nat)
    requires Consistent(e, s)
    ensures Savable(s) && Sane(Saved(s, asmapVersion))
    ensures var l := Loaded(e, Saved(s, asmapVersion), asmapVersion);
            Consistent(e, l) && SameAddresses(s, l)
  {
    hide Consistent, Savable, Sane, Intact, Entries, InKeptSlots, Loaded, Saved, IdAt, SameBucketing;
    ConsistentSavable(e, s);
    SavedIsIntact(e, s, asmapVersion);
    SavedIsSane(e, s, asmapVersion);
    var d := Saved(s, asmapVersion);
    var l := Loaded(e, d, asmapVersion);
    LoadedIsConsistent(e, d, asmapVersion);
    IntactLosesNothing(e, d, asmapVersion);
    Assembled(e, s, asmapVersion, l);
  }

  lemma Assembled(e: Env, s: State, asmapVersion: nat, l: State)
    requires Consistent(e, s) && Savable(s) && Consistent(e, l)
    requires var d := Saved(s, asmapVersion); Entries(d, l, |d.trieds|, |d.news|) && InKeptSlots(e, d, l.new_)
    ensures SameAddresses(s, l)
  {
    hide Consistent, Savable, Entries, InKeptSlots, Saved, IdAt, SortedIds;
    SameCounts(e, s, asmapVersion, l);
    forall net | net in s.mapAddr
      ensures net in l.mapAddr && s.mapAddr[net] in s.mapInfo && l.mapAddr[net] in l.mapInfo
      ensures var a, b := s.mapInfo[s.mapAddr[net]], l.mapInfo[l.mapAddr[net]];
              && SameRecord(a, b) && a.inTried == b.inTried
              && (!b.inTried ==> b.refCount == 1)
      ensures forall sl | sl in l.new_ && l.new_[sl] == l.mapAddr[net] :: sl in s.new_ && s.new_[sl] == s.mapAddr[net]
      ensures forall sl | sl in s.tried ::
                sl in l.tried && (s.tried[sl] == s.mapAddr[net] <==> l.tried[sl] == l.mapAddr[net])
    {
      LoadedAddress(e, s, asmapVersion, l, net);
      LoadedEntry(s, asmapVersion, l, l.mapAddr[net]);
      forall sl | sl in l.new_ && l.new_[sl] == l.mapAddr[net]
        ensures sl in s.new_ && s.new_[sl] == s.mapAddr[net]
      {
        LoadedNewSlot(e, s, asmapVersion, l, l.mapAddr[net], sl);
      }
      forall sl | sl in s.tried
        ensures sl in l.tried && (s.tried[sl] == s.mapAddr[net] <==> l.tried[sl] == l.mapAddr[net])
      {
        TriedSlotIff(e, s, s.mapAddr[net], sl);
        TriedSlotIff(e, l, l.mapAddr[net], sl);
      }
    }
    forall net | net in l.mapAddr
      ensures net in s.mapAddr
    {
      LoadedAddressBack(e, s, asmapVersion, l, net);
    }
  }

  lemma SameCounts(e: Env, s: State, asmapVersion: nat, l: State)
    requires Consistent(e, s) && Savable(s)
    requires var d := Saved(s, asmapVersion); Entries(d, l, |d.trieds|, |d.news|)
    ensures l.nNew == s.nNew && l.nTried == s.nTried && s.tried.Keys == Grid(TRIED_BUCKET_COUNT)
  {
    SortedIdsFacts(NewIds(s.mapInfo));
    SortedIdsFacts(TriedIds(s.mapInfo));
  }
}
