/** What loading a dump loses when its bucketing does not apply: only entries without a free slot. */
module AddrManLosses {
  import opened AddrManSpec
  import opened AddrManSteps
  import opened AddrManOps
  import opened AddrManRuns
  import opened AddrManDump

  /** The entry carries the record. */
  ghost predicate Carries(info: Info, r: Record) {
    && info.svc == r.svc && info.services == r.services && info.time == r.time && info.source == r.source
    && info.lastSuccess == r.lastSuccess && info.attempts == r.attempts
  }

  /** The record is the one in the tried slot. */
  ghost predicate Holds(s: State, ks: Slot, r: Record) {
    ks in s.tried && s.tried[ks] != EMPTY && s.tried[ks] in s.mapInfo && Carries(s.mapInfo[s.tried[ks]], r)
  }

  lemma LoadTriedKeeps(e: Env, s: State, r: Record, ks: Slot, held: Record)
    requires Loading(e, s) && Holds(s, ks, held)
    ensures Holds(LoadTried(e, s, r), ks, held)
  {
  }

  /** The first record that claims a tried slot gets it. */
  lemma {:induction false} FirstTriedStays(e: Env, d: Dump, i: nat, k: nat)
    requires Sane(d) && i < k <= |d.trieds|
    requires forall j | 0 <= j < i :: TriedSlot(e, d.trieds[j].svc) != TriedSlot(e, d.trieds[i].svc)
    ensures Holds(AfterTrieds(e, d, k), TriedSlot(e, d.trieds[i].svc), d.trieds[i])
    decreases k
  {
    hide Loading, LoadTried, Holds, Sane;
    AfterTriedsLoading(e, d, k - 1);
    if i < k - 1 {
      FirstTriedStays(e, d, i, k - 1);
      LoadTriedKeeps(e, AfterTrieds(e, d, k - 1), d.trieds[k - 1], TriedSlot(e, d.trieds[i].svc), d.trieds[i]);
    } else {
      SlotUnclaimed(e, d, i, i);
      LoadTriedPuts(e, AfterTrieds(e, d, i), d.trieds[i]);
    }
  }

  lemma LoadTriedPuts(e: Env, s: State, r: Record)
    requires Loading(e, s) && s.tried[TriedSlot(e, r.svc)] == EMPTY
    ensures Holds(LoadTried(e, s, r), TriedSlot(e, r.svc), r)
  {
  }

  lemma {:induction false} SlotUnclaimed(e: Env, d: Dump, i: nat, k: nat)
    requires Sane(d) && k <= i < |d.trieds|
    requires forall j | 0 <= j < i :: TriedSlot(e, d.trieds[j].svc) != TriedSlot(e, d.trieds[i].svc)
    ensures AfterTrieds(e, d, k).tried[TriedSlot(e, d.trieds[i].svc)] == EMPTY
  {
    if k == 0 {
      NewsLeaveTried(d, |d.news|);
    } else {
      SlotUnclaimed(e, d, i, k - 1);
    }
  }

  lemma {:induction false} NewsLeaveTried(d: Dump, k: nat)
    requires k <= |d.news|
    ensures AfterNews(d, k).tried == EmptyTable(TRIED_BUCKET_COUNT)
  {
    if k > 0 {
      NewsLeaveTried(d, k - 1);
    }
  }

  lemma {:induction false} BucketsKeepTried(e: Env, d: Dump, asmapVersion: nat, n: nat, ks: Slot, r: Record)
    requires Sane(d) && n <= |d.news| && Holds(AfterTrieds(e, d, |d.trieds|), ks, r)
    ensures Holds(AfterBuckets(e, d, asmapVersion, n), ks, r)
  {
    hide AfterTrieds, Rebucket, Holds;
    if n > 0 {
      BucketsKeepTried(e, d, asmapVersion, n - 1, ks, r);
      RebucketKeepsTried(e, AfterBuckets(e, d, asmapVersion, n - 1), d, asmapVersion, n - 1, ks, r);
    }
  }

  lemma RebucketKeepsTried(e: Env, s: State, d: Dump, asmapVersion: nat, n: int, ks: Slot, r: Record)
    requires n in s.mapInfo && s.new_.Keys == Grid(NEW_BUCKET_COUNT) && |d.buckets| == BucketCount(d)
    requires Holds(s, ks, r)
    ensures Holds(Rebucket(e, s, d, asmapVersion, n), ks, r)
  {
    hide SameBucketing, StoredSlot, NewSlot;
  }

  lemma LooseIsThere(m: map<int, Info>, x: int)
    requires x in Loose(m)
    ensures x in m
  {
  }

  lemma {:induction false} PruneKeeps(e: Env, s: State, rest: set<int>, id: int)
    requires Loading(e, s) && id in s.mapInfo && id !in Loose(s.mapInfo)
    ensures var r := Prune(e, s, rest); id in r.mapInfo && SameEntry(s.mapInfo[id], r.mapInfo[id])
    decreases |rest|
  {
    hide Loading, Loose, Delete;
    if rest != {} {
      var x := MinOf(rest);
      if x in Loose(s.mapInfo) {
        PruneStep(e, s, x);
        LooseIsThere(s.mapInfo, x);
        DeleteIndex(s, x);
        PruneKeeps(e, Delete(s, x), rest - {x}, id);
      } else {
        PruneKeeps(e, s, rest - {x}, id);
      }
    }
  }

  lemma {:induction false} PruneTables(e: Env, s: State, rest: set<int>)
    requires Loading(e, s)
    ensures Prune(e, s, rest).tried == s.tried && Prune(e, s, rest).new_ == s.new_
    decreases |rest|
  {
    hide Loading, Loose, Delete;
    if rest != {} {
      var x := MinOf(rest);
      if x in Loose(s.mapInfo) {
        PruneStep(e, s, x);
        LooseIsThere(s.mapInfo, x);
        DeleteIndex(s, x);
        PruneTables(e, Delete(s, x), rest - {x});
      } else {
        PruneTables(e, s, rest - {x});
      }
    }
  }

  /** Whatever the asmap and the bucket count: of the tried records that claim one slot the first comes
      back, in that slot. */
  lemma FirstTriedComesBack(e: Env, d: Dump, asmapVersion: nat, i: nat)
    requires Sane(d) && i < |d.trieds|
    requires forall j | 0 <= j < i :: TriedSlot(e, d.trieds[j].svc) != TriedSlot(e, d.trieds[i].svc)
    ensures Holds(Loaded(e, d, asmapVersion), TriedSlot(e, d.trieds[i].svc), d.trieds[i])
  {
    hide Loading, AfterBuckets, Prune, NetOf;
    var ks := TriedSlot(e, d.trieds[i].svc);
    var s := AfterBuckets(e, d, asmapVersion, |d.news|);
    FirstTriedStays(e, d, i, |d.trieds|);
    BucketsKeepTried(e, d, asmapVersion, |d.news|, ks, d.trieds[i]);
    AfterBucketsLoading(e, d, asmapVersion, |d.news|);
    HeldIsTried(e, s, ks);
    PruneKeeps(e, s, s.mapInfo.Keys, s.tried[ks]);
    PruneTables(e, s, s.mapInfo.Keys);
  }

  lemma HeldIsTried(e: Env, s: State, ks: Slot)
    requires Loading(e, s) && ks in s.tried && s.tried[ks] in s.mapInfo && s.tried[ks] != EMPTY
    ensures s.tried[ks] !in Loose(s.mapInfo)
  {
  }

  // ---------- New entries ----------

  /** The entry of record n is there, and it is in a bucket unless the slot of its source is taken. */
  ghost predicate Settled(e: Env, d: Dump, s: State, n: nat)
    requires n < |d.news|
  {
    && n in s.mapInfo && Carries(s.mapInfo[n], d.news[n]) && !s.mapInfo[n].inTried && 0 <= s.mapInfo[n].refCount
    && var vs := NewSlot(e, d.news[n].svc, d.news[n].source);
    vs in s.new_ && (s.mapInfo[n].refCount > 0 || s.new_[vs] != EMPTY)
  }

  ghost predicate Waiting(d: Dump, s: State, n: nat)
    requires n < |d.news|
  {
    n in s.mapInfo && Carries(s.mapInfo[n], d.news[n]) && !s.mapInfo[n].inTried && s.mapInfo[n].refCount == 0
  }

  lemma {:induction false} NewWaits(d: Dump, n: nat, k: nat)
    requires n < k <= |d.news|
    ensures Waiting(d, AfterNews(d, k), n)
    decreases k
  {
    if n < k - 1 {
      NewWaits(d, n, k - 1);
    }
  }

  lemma {:induction false} NewWaitsOn(e: Env, d: Dump, n: nat, k: nat)
    requires Sane(d) && n < |d.news| && k <= |d.trieds|
    ensures Waiting(d, AfterTrieds(e, d, k), n)
    decreases k
  {
    hide AfterNews, Sane, LoadTried, Loading, Waiting;
    if k == 0 {
      NewWaits(d, n, |d.news|);
    } else {
      NewWaitsOn(e, d, n, k - 1);
      AfterTriedsLoading(e, d, k - 1);
      LoadTriedLeaves(e, d, AfterTrieds(e, d, k - 1), d.trieds[k - 1], n);
    }
  }

  lemma LoadTriedLeaves(e: Env, d: Dump, s: State, r: Record, n: nat)
    requires Loading(e, s) && n < |d.news| && Waiting(d, s, n)
    ensures Waiting(d, LoadTried(e, s, r), n)
  {
  }

  lemma {:induction false} NewSettles(e: Env, d: Dump, asmapVersion: nat, n: nat, k: nat)
    requires Sane(d) && n < |d.news| && k <= |d.news|
    ensures if n < k then Settled(e, d, AfterBuckets(e, d, asmapVersion, k), n)
            else Waiting(d, AfterBuckets(e, d, asmapVersion, k), n)
    decreases k
  {
    hide AfterTrieds, Rebucket, Waiting, Settled, NetOf;
    if k == 0 {
      NewWaitsOn(e, d, n, |d.trieds|);
    } else {
      NewSettles(e, d, asmapVersion, n, k - 1);
      RebucketSettles(e, AfterBuckets(e, d, asmapVersion, k - 1), d, asmapVersion, k - 1, n);
    }
  }

  lemma RebucketSettles(e: Env, s: State, d: Dump, asmapVersion: nat, k: nat, n: nat)
    requires k in s.mapInfo && s.new_.Keys == Grid(NEW_BUCKET_COUNT) && |d.buckets| == BucketCount(d)
    requires k < |d.news| && n < |d.news| && if n < k then Settled(e, d, s, n) else Waiting(d, s, n)
    ensures var s' := Rebucket(e, s, d, asmapVersion, k);
            if n < k + 1 then Settled(e, d, s', n) else Waiting(d, s', n)
  {
    hide SameBucketing, StoredSlot, NewSlot;
  }

  /** Whatever the asmap and the bucket count: a new record comes back, unless the slot of its source is
      taken by another one. */
  lemma NewComesBack(e: Env, d: Dump, asmapVersion: nat, n: nat)
    requires Sane(d) && n < |d.news|
    ensures var l := Loaded(e, d, asmapVersion);
            var vs := NewSlot(e, d.news[n].svc, d.news[n].source);
            || (n in l.mapInfo && Carries(l.mapInfo[n], d.news[n]) && !l.mapInfo[n].inTried)
            || (vs in l.new_ && l.new_[vs] != EMPTY)
  {
    hide Loading, AfterBuckets, Prune, NetOf;
    var s := AfterBuckets(e, d, asmapVersion, |d.news|);
    NewSettles(e, d, asmapVersion, n, |d.news|);
    AfterBucketsLoading(e, d, asmapVersion, |d.news|);
    PruneTables(e, s, s.mapInfo.Keys);
    if s.mapInfo[n].refCount > 0 {
      PruneKeeps(e, s, s.mapInfo.Keys, n);
    }
  }

  // ---------- A changed bucketing ----------

  /** Every new entry is in the slot of its source. */
  ghost predicate InSourceSlots(e: Env, s: State) {
    forall sl | sl in s.new_ && s.new_[sl] != EMPTY ::
      && s.new_[sl] in s.mapInfo
      && sl == NewSlot(e, s.mapInfo[s.new_[sl]].svc, s.mapInfo[s.new_[sl]].source)
  }

  /** With an older format, another number of buckets or another asmap, the stored lists are not used: all
      new entries are in the slots of their sources (src/addrman.h:513-539). */
  lemma ChangedBucketing(e: Env, d: Dump, asmapVersion: nat)
    requires Sane(d) && (d.format < 2 || BucketCount(d) != 1024 || d.asmapVersion != asmapVersion)
    ensures InSourceSlots(e, Loaded(e, d, asmapVersion))
  {
    hide Loading, AfterBuckets, Prune, NetOf, InSourceSlots;
    var s := AfterBuckets(e, d, asmapVersion, |d.news|);
    AfterBucketsLoading(e, d, asmapVersion, |d.news|);
    SourceSlotsOnly(e, d, asmapVersion, |d.news|);
    PruneTables(e, s, s.mapInfo.Keys);
    forall id | id in s.mapInfo && id !in Loose(s.mapInfo)
      ensures var r := Prune(e, s, s.mapInfo.Keys); id in r.mapInfo && SameEntry(s.mapInfo[id], r.mapInfo[id])
    {
      PruneKeeps(e, s, s.mapInfo.Keys, id);
    }
    StillInSourceSlots(e, s, Prune(e, s, s.mapInfo.Keys));
  }

  lemma StillInSourceSlots(e: Env, s: State, r: State)
    requires Loading(e, s) && InSourceSlots(e, s) && r.new_ == s.new_
    requires forall id | id in s.mapInfo && id !in Loose(s.mapInfo) ::
               id in r.mapInfo && SameEntry(s.mapInfo[id], r.mapInfo[id])
    ensures InSourceSlots(e, r)
  {
    forall sl | sl in r.new_ && r.new_[sl] != EMPTY
      ensures r.new_[sl] !in Loose(s.mapInfo)
    {
      assert sl in AddrManSpec.Slots(s.new_, s.new_[sl]);
    }
  }

  lemma {:induction false} SourceSlotsOnly(e: Env, d: Dump, asmapVersion: nat, n: nat)
    requires Sane(d) && n <= |d.news|
    requires d.format < 2 || BucketCount(d) != 1024 || d.asmapVersion != asmapVersion
    ensures InSourceSlots(e, AfterBuckets(e, d, asmapVersion, n))
    decreases n
  {
    hide AfterTrieds, Rebucket, InSourceSlots, NetOf;
    if n == 0 {
      TriedsLeaveNew(e, d, |d.trieds|);
      EmptyInSourceSlots(e, AfterTrieds(e, d, |d.trieds|));
    } else {
      SourceSlotsOnly(e, d, asmapVersion, n - 1);
      RebucketsToSource(e, AfterBuckets(e, d, asmapVersion, n - 1), d, asmapVersion, n - 1);
    }
  }

  lemma RebucketsToSource(e: Env, s: State, d: Dump, asmapVersion: nat, n: nat)
    requires n in s.mapInfo && s.new_.Keys == Grid(NEW_BUCKET_COUNT) && |d.buckets| == BucketCount(d)
    requires d.format < 2 || BucketCount(d) != 1024 || d.asmapVersion != asmapVersion
    requires InSourceSlots(e, s)
    ensures InSourceSlots(e, Rebucket(e, s, d, asmapVersion, n))
  {
    hide StoredSlot, NewSlot;
  }

  lemma EmptyInSourceSlots(e: Env, s: State)
    requires s.new_ == EmptyTable(NEW_BUCKET_COUNT)
    ensures InSourceSlots(e, s)
  {
  }

  lemma {:induction false} TriedsLeaveNew(e: Env, d: Dump, k: nat)
    requires k <= |d.trieds|
    ensures AfterTrieds(e, d, k).new_ == EmptyTable(NEW_BUCKET_COUNT)
  {
    hide AfterNews, EmptyTable;
    if k == 0 {
      NewsLeaveNew(d, |d.news|);
    } else {
      TriedsLeaveNew(e, d, k - 1);
    }
  }

  lemma {:induction false} NewsLeaveNew(d: Dump, k: nat)
    requires k <= |d.news|
    ensures AfterNews(d, k).new_ == EmptyTable(NEW_BUCKET_COUNT)
  {
    hide EmptyTable;
    if k > 0 {
      NewsLeaveNew(d, k - 1);
    }
  }
}
