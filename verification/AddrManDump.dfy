/** Saving and loading the address manager (src/addrman.h:321-561) on values. */
module AddrManDump {
  import opened AddrManSpec
  import opened AddrManSteps
  import opened AddrManOps
  import opened AddrManRuns

  const V1_DETERMINISTIC := 1
  const V2_ASMAP := 2
  const V3_BIP155 := 3

  /** The fields of an entry that reach the disk (src/addrman.h:60-63). */
  datatype Record = Record(
    svc: Service, services: set<nat>, time: int, source: NetAddr, lastSuccess: int, attempts: int)

  /** What is written: counters, the entries of both tables, and the index lists of the new
      buckets. The bucket count is stored with bit 30 flipped. */
  datatype Dump = Dump(
    format: nat, nNew: int, nTried: int, bucketWord: nat,
    news: seq<Record>, trieds: seq<Record>, buckets: seq<seq<int>>, asmapVersion: nat)

  function FlipBit30(x: nat): (r: nat) {
    if (x / 0x4000_0000) % 2 == 1 then x - 0x4000_0000 else x + 0x4000_0000
  }

  /** Bit 30 changes, no other one does. */
  lemma FlipBit30Is(x: nat)
    ensures FlipBit30(x) % 0x4000_0000 == x % 0x4000_0000 && FlipBit30(x) / 0x8000_0000 == x / 0x8000_0000
    ensures FlipBit30(x) / 0x4000_0000 % 2 != x / 0x4000_0000 % 2
  {
    var q, r := x / 0x4000_0000, x % 0x4000_0000;
    var y := if q % 2 == 1 then q - 1 else q + 1;
    assert FlipBit30(x) == 0x4000_0000 * y + r;
    Halves(x, q, r);
    Halves(FlipBit30(x), y, r);
  }

  lemma Halves(x: nat, q: nat, r: nat)
    requires x == 0x4000_0000 * q + r && r < 0x4000_0000
    ensures x / 0x4000_0000 == q && x % 0x4000_0000 == r && x / 0x8000_0000 == q / 2
  {
  }

  function RecordOf(info: Info): Record {
    Record(info.svc, info.services, info.time, info.source, info.lastSuccess, info.attempts)
  }

  function InfoOf(r: Record, inTried: bool, pos: int): Info {
    Info(r.svc, r.services, r.time, r.source, 0, 0, r.lastSuccess, r.attempts, 0, inTried, pos)
  }

  // ---------- Loading ----------

  function BucketCount(d: Dump): nat {
    if d.format >= V1_DETERMINISTIC then FlipBit30(d.bucketWord) else d.bucketWord
  }

  /** src/addrman.h:464-471: the next entry of the new table, not yet in a bucket. */
  function LoadNew(s: State, r: Record): State {
    s.(nIdCount := s.nIdCount + 1,
       mapInfo := s.mapInfo[s.nIdCount := InfoOf(r, false, |s.vRandom|)],
       mapAddr := s.mapAddr[r.svc.net := s.nIdCount],
       vRandom := s.vRandom + [s.nIdCount],
       nNew := s.nNew + 1)
  }

  /** src/addrman.h:475-492: the next entry of the tried table, lost when its slot is taken. */
  ghost function LoadTried(e: Env, s: State, r: Record): State
    requires s.tried.Keys == Grid(TRIED_BUCKET_COUNT)
  {
    var ks := TriedSlot(e, r.svc);
    if s.tried[ks] != EMPTY then s
    else
      s.(nIdCount := s.nIdCount + 1,
         mapInfo := s.mapInfo[s.nIdCount := InfoOf(r, true, |s.vRandom|)],
         mapAddr := s.mapAddr[r.svc.net := s.nIdCount],
         vRandom := s.vRandom + [s.nIdCount],
         tried := s.tried[ks := s.nIdCount],
         nTried := s.nTried + 1)
  }

  /** The last bucket whose list names the entry, or 0 (src/addrman.h:495-507, 521). */
  function LastBucket(buckets: seq<seq<int>>, n: int): (b: int)
    ensures 0 <= b && (b < |buckets| || b == 0)
    ensures (exists i | 0 <= i < |buckets| :: n in buckets[i]) ==> b < |buckets| && n in buckets[b]
  {
    if buckets == [] then 0
    else if n in buckets[|buckets| - 1] then |buckets| - 1
    else LastBucket(buckets[..|buckets| - 1], n)
  }

  /** Whether the stored bucket lists still apply (src/addrman.h:513-524). */
  predicate SameBucketing(d: Dump, asmapVersion: nat) {
    && d.format >= V2_ASMAP
    && BucketCount(d) == NEW_BUCKET_COUNT
    && d.asmapVersion == asmapVersion
  }

  ghost function StoredSlot(e: Env, s: State, d: Dump, n: int): Slot
    requires n in s.mapInfo
  {
    var b := LastBucket(d.buckets, n);
    (b, BucketPosition(e, s.mapInfo[n].svc, true, b))
  }

  /** src/addrman.h:519-539: the new entry takes its stored slot, or its primary source's. */
  ghost function Rebucket(e: Env, s: State, d: Dump, asmapVersion: nat, n: int): State
    requires n in s.mapInfo && s.new_.Keys == Grid(NEW_BUCKET_COUNT) && |d.buckets| == BucketCount(d)
  {
    var us := StoredSlot(e, s, d, n);
    var vs := NewSlot(e, s.mapInfo[n].svc, s.mapInfo[n].source);
    if SameBucketing(d, asmapVersion) && s.new_[us] == EMPTY && s.mapInfo[n].refCount < NEW_BUCKETS_PER_ADDRESS
    then AddRef(s, n, us)
    else if s.new_[vs] == EMPTY then AddRef(s, n, vs)
    else s
  }

  // ---------- Dumps that a manager could have written ----------

  function NetOf(d: Dump, i: nat): NetAddr
    requires i < |d.news| + |d.trieds|
  {
    if i < |d.news| then d.news[i].svc.net else d.trieds[i - |d.news|].svc.net
  }

  /** No address twice, sensible times, and as many records and lists as announced. */
  ghost predicate Sane(d: Dump) {
    && d.nNew == |d.news| && d.nTried == |d.trieds| && |d.buckets| == BucketCount(d)
    && (forall i: nat, j: nat | i < j < |d.news| + |d.trieds| :: NetOf(d, i) != NetOf(d, j))
    && (forall i | 0 <= i < |d.news| :: 0 <= d.news[i].lastSuccess)
    && (forall i | 0 <= i < |d.trieds| :: 0 < d.trieds[i].lastSuccess)
  }

  // ---------- Loading keeps the invariant, whatever the asmap and the bucket count ----------

  lemma LoadNewCore(e: Env, s: State, r: Record)
    requires Core(e, s) && Counts(s, 0, 0) && r.svc.net !in s.mapAddr && 0 <= r.lastSuccess
    ensures Core(e, LoadNew(s, r)) && Counts(LoadNew(s, r), 0, 0)
    ensures Loose(LoadNew(s, r).mapInfo) == Loose(s.mapInfo) + {s.nIdCount}
  {
    hide TriedTable, NewTable, RefCounts, AddrIndex, RandomIndex, NewIds, TriedIds, Loose;
    var id, info := s.nIdCount, InfoOf(r, false, |s.vRandom|);
    AppendIndex(s.mapInfo, s.mapAddr, s.vRandom, id, info);
    CreateTables(e, s.mapInfo, s.tried, s.new_, id, info);
    CreateIds(s.mapInfo, id, info);
  }

  lemma AppendIndex(m: map<int, Info>, a: map<NetAddr, int>, v: seq<int>, id: int, info: Info)
    requires AddrIndex(m, a) && RandomIndex(m, v) && id !in m && info.svc.net !in a && info.randomPos == |v|
    ensures AddrIndex(m[id := info], a[info.svc.net := id]) && RandomIndex(m[id := info], v + [id])
  {
    assert AddrIndex(m[id := info], a[info.svc.net := id]) by { hide RandomIndex; }
    assert RandomIndex(m[id := info], v + [id]) by { hide AddrIndex; }
  }

  lemma AdmitTables(e: Env, m: map<int, Info>, tried: Table, new_: Table, id: int, info: Info)
    requires TriedTable(e, m, tried) && NewTable(e, m, new_) && RefCounts(m, new_)
    requires id !in m && id != EMPTY && EMPTY !in m && info.inTried && info.refCount == 0
    requires tried[TriedSlot(e, info.svc)] == EMPTY
    ensures TriedTable(e, m[id := info], tried[TriedSlot(e, info.svc) := id])
    ensures NewTable(e, m[id := info], new_) && RefCounts(m[id := info], new_)
  {
    assert tried[TriedSlot(e, info.svc) := id].Keys == tried.Keys;
    assert Slots(new_, id) == {} by {
      assert forall sl | sl in new_ :: new_[sl] != id;
    }
  }

  lemma AdmitIds(m: map<int, Info>, id: int, info: Info)
    requires id !in m && info.inTried
    ensures NewIds(m[id := info]) == NewIds(m) && |TriedIds(m[id := info])| == |TriedIds(m)| + 1
    ensures Loose(m[id := info]) == Loose(m)
  {
    var m' := m[id := info];
    assert forall x :: x in m' <==> x in m || x == id;
    assert forall x | x in m :: m'[x] == m[x];
    assert NewIds(m') == NewIds(m) by { hide TriedIds, Loose; }
    assert TriedIds(m') == TriedIds(m) + {id} by { hide NewIds, Loose; }
    assert Loose(m') == Loose(m) by { hide NewIds, TriedIds; }
  }

  lemma LoadTriedCore(e: Env, s: State, r: Record)
    requires Core(e, s) && Counts(s, 0, 0) && r.svc.net !in s.mapAddr && 0 < r.lastSuccess
    requires s.tried.Keys == Grid(TRIED_BUCKET_COUNT)
    ensures Core(e, LoadTried(e, s, r)) && Counts(LoadTried(e, s, r), 0, 0)
    ensures Loose(LoadTried(e, s, r).mapInfo) == Loose(s.mapInfo)
  {
    hide TriedTable, NewTable, RefCounts, AddrIndex, RandomIndex, NewIds, TriedIds, Loose;
    if s.tried[TriedSlot(e, r.svc)] == EMPTY {
      var id, info := s.nIdCount, InfoOf(r, true, |s.vRandom|);
      AppendIndex(s.mapInfo, s.mapAddr, s.vRandom, id, info);
      AdmitTables(e, s.mapInfo, s.tried, s.new_, id, info);
      AdmitIds(s.mapInfo, id, info);
    }
  }

  lemma RebucketCore(e: Env, s: State, d: Dump, asmapVersion: nat, n: int)
    requires Core(e, s) && Counts(s, 0, 0) && s.new_.Keys == Grid(NEW_BUCKET_COUNT)
    requires n in Loose(s.mapInfo) && |d.buckets| == BucketCount(d)
    ensures Core(e, Rebucket(e, s, d, asmapVersion, n)) && Counts(Rebucket(e, s, d, asmapVersion, n), 0, 0)
    ensures Loose(Rebucket(e, s, d, asmapVersion, n).mapInfo) <= Loose(s.mapInfo)
    ensures Loose(s.mapInfo) - {n} <= Loose(Rebucket(e, s, d, asmapVersion, n).mapInfo)
  {
    hide Core, NewIds, TriedIds;
    var us := StoredSlot(e, s, d, n);
    var vs := NewSlot(e, s.mapInfo[n].svc, s.mapInfo[n].source);
    if SameBucketing(d, asmapVersion) && s.new_[us] == EMPTY {
      AddRefCore(e, s, n, us);
    } else if s.new_[vs] == EMPTY {
      AddRefCore(e, s, n, vs);
    }
  }

  // ---------- The phases of loading ----------

  /** Every address so far comes from one of the first n records. */
  ghost predicate NetsAmong(d: Dump, s: State, n: nat)
    requires n <= |d.news| + |d.trieds|
  {
    forall net | net in s.mapAddr :: exists i: nat | i < n :: NetOf(d, i) == net
  }

  ghost predicate Loading(e: Env, s: State) {
    && Core(e, s) && Counts(s, 0, 0) && s.collisions == {}
    && s.tried.Keys == Grid(TRIED_BUCKET_COUNT) && s.new_.Keys == Grid(NEW_BUCKET_COUNT)
  }

  lemma InitLoading(e: Env, d: Dump)
    ensures Loading(e, Init()) && NetsAmong(d, Init(), 0)
  {
    InitConsistent(e);
  }

  ghost predicate FullTables(s: State) {
    s.tried.Keys == Grid(TRIED_BUCKET_COUNT) && s.new_.Keys == Grid(NEW_BUCKET_COUNT)
  }

  ghost function AfterNews(d: Dump, k: nat): (s: State)
    requires k <= |d.news|
    ensures FullTables(s) && s.nIdCount == k && forall id | 0 <= id < k :: id in s.mapInfo
  {
    if k == 0 then Init() else LoadNew(AfterNews(d, k - 1), d.news[k - 1])
  }

  ghost function AfterTrieds(e: Env, d: Dump, k: nat): (s: State)
    requires k <= |d.trieds|
    ensures FullTables(s) && forall id | 0 <= id < |d.news| :: id in s.mapInfo
  {
    if k == 0 then AfterNews(d, |d.news|)
    else
      var s := LoadTried(e, AfterTrieds(e, d, k - 1), d.trieds[k - 1]);
      assert s.tried.Keys == Grid(TRIED_BUCKET_COUNT);
      s
  }

  ghost function AfterBuckets(e: Env, d: Dump, asmapVersion: nat, n: nat): (s: State)
    requires n <= |d.news| && |d.buckets| == BucketCount(d)
    ensures FullTables(s) && forall id | 0 <= id < |d.news| :: id in s.mapInfo
  {
    if n == 0 then AfterTrieds(e, d, |d.trieds|)
    else
      var s := Rebucket(e, AfterBuckets(e, d, asmapVersion, n - 1), d, asmapVersion, n - 1);
      assert s.new_.Keys == Grid(NEW_BUCKET_COUNT);
      s
  }

  lemma {:induction false} AfterNewsLoading(e: Env, d: Dump, k: nat)
    requires Sane(d) && k <= |d.news|
    ensures Loading(e, AfterNews(d, k)) && NetsAmong(d, AfterNews(d, k), k)
    ensures forall id | 0 <= id < k :: id in Loose(AfterNews(d, k).mapInfo)
  {
    hide Loading, Loose, NetsAmong, LoadNew, Sane;
    if k == 0 {
      InitLoading(e, d);
    } else {
      AfterNewsLoading(e, d, k - 1);
      LoadNewStep(e, d, AfterNews(d, k - 1), k - 1);
    }
  }

  lemma {:induction false} AfterTriedsLoading(e: Env, d: Dump, k: nat)
    requires Sane(d) && k <= |d.trieds|
    ensures Loading(e, AfterTrieds(e, d, k)) && NetsAmong(d, AfterTrieds(e, d, k), |d.news| + k)
    ensures forall id | 0 <= id < |d.news| :: id in Loose(AfterTrieds(e, d, k).mapInfo)
  {
    hide Loading, Loose, NetsAmong, LoadTried, Sane;
    if k == 0 {
      AfterNewsLoading(e, d, |d.news|);
    } else {
      AfterTriedsLoading(e, d, k - 1);
      LoadTriedStep(e, d, AfterTrieds(e, d, k - 1), k - 1);
    }
  }

  lemma {:induction false} AfterBucketsLoading(e: Env, d: Dump, asmapVersion: nat, n: nat)
    requires Sane(d) && n <= |d.news|
    ensures Loading(e, AfterBuckets(e, d, asmapVersion, n))
    ensures forall id | n <= id < |d.news| :: id in Loose(AfterBuckets(e, d, asmapVersion, n).mapInfo)
  {
    hide Loading, Loose, Rebucket;
    if n == 0 {
      AfterTriedsLoading(e, d, |d.trieds|);
    } else {
      AfterBucketsLoading(e, d, asmapVersion, n - 1);
      RebucketStep(e, AfterBuckets(e, d, asmapVersion, n - 1), d, asmapVersion, n - 1);
    }
  }

  lemma LoadNewStep(e: Env, d: Dump, s: State, k: nat)
    requires Sane(d) && k < |d.news| && Loading(e, s) && NetsAmong(d, s, k) && s.nIdCount == k
    ensures Loading(e, LoadNew(s, d.news[k])) && NetsAmong(d, LoadNew(s, d.news[k]), k + 1)
    ensures Loose(LoadNew(s, d.news[k]).mapInfo) == Loose(s.mapInfo) + {k}
  {
    hide Core, Counts, Loose;
    assert NetOf(d, k) == d.news[k].svc.net;
    LoadNewCore(e, s, d.news[k]);
    forall net | net in LoadNew(s, d.news[k]).mapAddr
      ensures exists i: nat | i < k + 1 :: NetOf(d, i) == net
    {
      if net != NetOf(d, k) {
        var i: nat :| i < k && NetOf(d, i) == net;
        assert i < k + 1;
      }
    }
  }

  lemma LoadTriedStep(e: Env, d: Dump, s: State, k: nat)
    requires Sane(d) && k < |d.trieds| && Loading(e, s) && NetsAmong(d, s, |d.news| + k)
    ensures Loading(e, LoadTried(e, s, d.trieds[k])) && NetsAmong(d, LoadTried(e, s, d.trieds[k]), |d.news| + k + 1)
    ensures Loose(LoadTried(e, s, d.trieds[k]).mapInfo) == Loose(s.mapInfo)
  {
    hide Core, Counts, Loose;
    var n := |d.news| + k;
    assert NetOf(d, n) == d.trieds[k].svc.net;
    LoadTriedCore(e, s, d.trieds[k]);
    assert LoadTried(e, s, d.trieds[k]).tried.Keys == s.tried.Keys;
    forall net | net in LoadTried(e, s, d.trieds[k]).mapAddr
      ensures exists i: nat | i < n + 1 :: NetOf(d, i) == net
    {
      if net != NetOf(d, n) {
        var i: nat :| i < n && NetOf(d, i) == net;
        assert i < n + 1;
      }
    }
  }

  lemma RebucketStep(e: Env, s: State, d: Dump, asmapVersion: nat, n: int)
    requires Loading(e, s) && n in Loose(s.mapInfo) && |d.buckets| == BucketCount(d)
    ensures Loading(e, Rebucket(e, s, d, asmapVersion, n))
    ensures Loose(s.mapInfo) - {n} <= Loose(Rebucket(e, s, d, asmapVersion, n).mapInfo) <= Loose(s.mapInfo)
  {
    hide Core, Counts;
    RebucketCore(e, s, d, asmapVersion, n);
    assert Rebucket(e, s, d, asmapVersion, n).new_.Keys == s.new_.Keys;
  }

  /** src/addrman.h:541-552: drop the entries that found no slot. */
  ghost function Prune(e: Env, s: State, rest: set<int>): (r: State)
    requires Loading(e, s)
    ensures Loading(e, r) && Loose(r.mapInfo) == Loose(s.mapInfo) - rest
    decreases |rest|
  {
    if rest == {} then s
    else
      var id := MinOf(rest);
      if id in Loose(s.mapInfo) then
        PruneStep(e, s, id);
        var r := Prune(e, Delete(s, id), rest - {id});
        assert Loose(s.mapInfo) - {id} - (rest - {id}) == Loose(s.mapInfo) - rest;
        r
      else
        assert Loose(s.mapInfo) - (rest - {id}) == Loose(s.mapInfo) - rest;
        Prune(e, s, rest - {id})
  }

  lemma PruneStep(e: Env, s: State, id: int)
    requires Loading(e, s) && id in Loose(s.mapInfo)
    ensures Index(s) && Loading(e, Delete(s, id)) && Loose(Delete(s, id).mapInfo) == Loose(s.mapInfo) - {id}
  {
    hide Counts, Tables, IdRange, AddrIndex, RandomIndex;
    DeleteCore(e, s, id, 0, 0);
    DeleteIndex(s, id);
  }

  /** src/addrman.h:411-561 on a fresh manager. */
  ghost function Loaded(e: Env, d: Dump, asmapVersion: nat): (s: State)
    requires Sane(d)
  {
    var s := AfterBuckets(e, d, asmapVersion, |d.news|);
    AfterBucketsLoading(e, d, asmapVersion, |d.news|);
    Prune(e, s, s.mapInfo.Keys)
  }

  /** Whatever the asmap and the stored bucket count, loading gives a consistent manager. */
  lemma LoadedIsConsistent(e: Env, d: Dump, asmapVersion: nat)
    requires Sane(d)
    ensures Consistent(e, Loaded(e, d, asmapVersion))
  {
    hide Core, Counts;
    var s := AfterBuckets(e, d, asmapVersion, |d.news|);
    AfterBucketsLoading(e, d, asmapVersion, |d.news|);
    assert Loose(s.mapInfo) - s.mapInfo.Keys == {};
  }
}
