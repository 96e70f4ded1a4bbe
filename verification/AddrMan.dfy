/** The address manager as the source writes it: fields changed in place, bucket loops. */
module AddrMan {
  import opened Common
  import opened AddrManSpec
  import opened AddrManSteps
  import opened AddrManOps
  import opened AddrManRuns
  import opened AddrManSample

  // ---------- Tables in memory ----------

  ghost function TableOf(a: array2<int>): (t: Table)
    reads a
  {
    map b, i | 0 <= b < a.Length0 && 0 <= i < a.Length1 :: (b, i) := a[b, i]
  }

  method Store(a: array2<int>, b: int, i: int, x: int)
    requires 0 <= b < a.Length0 && 0 <= i < a.Length1
    modifies a
    ensures TableOf(a) == old(TableOf(a))[(b, i) := x]
  {
    a[b, i] := x;
  }

  function Load(a: array2<int>, b: int, i: int): (x: int)
    requires 0 <= b < a.Length0 && 0 <= i < a.Length1
    reads a
    ensures (b, i) in TableOf(a) && x == TableOf(a)[(b, i)]
  {
    a[b, i]
  }

  method FillEmpty(a: array2<int>)
    requires a.Length1 == BUCKET_SIZE
    modifies a
    ensures TableOf(a) == EmptyTable(a.Length0)
  {
    for bucket := 0 to a.Length0
      invariant forall b, i | 0 <= b < bucket && 0 <= i < a.Length1 :: a[b, i] == EMPTY
    {
      for entry := 0 to a.Length1
        invariant forall b, i | 0 <= b < bucket && 0 <= i < a.Length1 :: a[b, i] == EMPTY
        invariant forall i | 0 <= i < entry :: a[bucket, i] == EMPTY
      {
        a[bucket, entry] := EMPTY;
      }
    }
    assert TableOf(a).Keys == Grid(a.Length0);
  }

  // ---------- Facts the methods need ----------

  /** The new table after MakeTried's loop has passed n buckets. */
  ghost function Swept(t: Table, id: int, n: int): Table {
    map sl | sl in t :: if sl.0 < n && t[sl] == id then EMPTY else t[sl]
  }

  lemma SweepStep(t: Table, id: int, n: int, pos: int)
    requires id != EMPTY && (n, pos) in t
    requires forall sl | sl in t && sl.0 == n && t[sl] == id :: sl.1 == pos
    ensures (n, pos) in Swept(t, id, n) && Swept(t, id, n)[(n, pos)] == t[(n, pos)]
    ensures Swept(t, id, n + 1) == if t[(n, pos)] == id then Swept(t, id, n)[(n, pos) := EMPTY] else Swept(t, id, n)
  {
    assert Swept(t, id, n + 1).Keys == t.Keys;
  }

  lemma SweepEnds(t: Table, id: int)
    requires forall sl | sl in t :: 0 <= sl.0 < NEW_BUCKET_COUNT
    ensures Swept(t, id, 0) == t && Swept(t, id, NEW_BUCKET_COUNT) == Without(t, id)
    ensures id != EMPTY ==> Slots(Without(t, id), id) == {}
  {
  }

  lemma OwnPositions(e: Env, s: State, id: int)
    requires Core(e, s) && id in s.mapInfo
    ensures s.mapInfo[id].refCount == |Slots(s.new_, id)| && id != EMPTY
    ensures forall sl | sl in s.new_ :: 0 <= sl.0 < NEW_BUCKET_COUNT
    ensures forall b, i | 0 <= b < NEW_BUCKET_COUNT && 0 <= i < BUCKET_SIZE :: (b, i) in s.new_
    ensures forall sl | sl in s.new_ && s.new_[sl] == id :: sl.1 == BucketPosition(e, s.mapInfo[id].svc, true, sl.0)
  {
  }

  /** The states an eviction goes through (src/addrman.cpp:191-212). */
  lemma EvictStages(e: Env, s: State, ks: Slot)
    requires Core(e, s) && Safe(s) && ks in s.tried && s.tried[ks] != EMPTY
    ensures s.tried[ks] in s.mapInfo
    ensures var id := s.tried[ks];
            var us := NewSlot(e, s.mapInfo[id].svc, s.mapInfo[id].source);
            var s1 := LeaveTried(s, ks);
            && Core(e, s1) && Safe(s1) && us in s1.new_
            && id in ClearNew(s1, us).mapInfo
            && Evict(e, s, ks) == EnterNew(ClearNew(s1, us), id, us)
  {
    hide Core, Safe, Index, ClearNew, NewIds, TriedIds;
    var dNew, dTried := s.nNew - |NewIds(s.mapInfo)|, s.nTried - |TriedIds(s.mapInfo)|;
    OccupantFacts(e, s, ks);
    LeaveTriedCore(e, s, ks, dNew, dTried);
    var id := s.tried[ks];
    var us := NewSlot(e, s.mapInfo[id].svc, s.mapInfo[id].source);
    var s1 := LeaveTried(s, ks);
    CoreSafe(e, s1);
    LooseHasNoRefs(e, s1, id);
    ClearNewCore(e, s1, us, dNew - 1, dTried);
    assert id in Loose(s1.mapInfo) && id in Loose(ClearNew(s1, us).mapInfo);
  }

  /** The states a promotion goes through (src/addrman.cpp:172-218). */
  lemma MakeTriedStages(e: Env, s: State, id: int)
    requires Core(e, s) && Loose(s.mapInfo) == {} && Counts(s, 0, 0)
    requires id in s.mapInfo && !s.mapInfo[id].inTried && 0 < s.mapInfo[id].lastSuccess
    ensures Safe(s)
    ensures var ks := TriedSlot(e, s.mapInfo[id].svc);
            var s1 := LeaveNew(s, id);
            && Core(e, s1) && Safe(s1) && ks in s1.tried
            && (s1.tried[ks] == EMPTY ==> MakeTried(e, s, id) == EnterTried(s1, id, ks))
            && (s1.tried[ks] != EMPTY ==>
                  && id in Evict(e, s1, ks).mapInfo
                  && MakeTried(e, s, id) == EnterTried(Evict(e, s1, ks), id, ks))
  {
    hide Core, Safe, Counts, Evict, Evicted;
    var ks := TriedSlot(e, s.mapInfo[id].svc);
    var s1 := LeaveNew(s, id);
    CoreSafe(e, s);
    LeaveNewCore(e, s, id, 0, 0);
    CoreSafe(e, s1);
    SlotFacts(e, s1, s.mapInfo[id].svc);
    if s1.tried[ks] != EMPTY {
      EvictThenEnter(e, s1, id, ks, -1, 0);
    }
  }

  lemma ConsistentParts(e: Env, s: State)
    requires Consistent(e, s)
    ensures Safe(s) && Index(s) && Core(e, s) && Loose(s.mapInfo) == {} && Counts(s, 0, 0)
    ensures forall net | net in s.mapAddr :: s.mapAddr[net] in s.mapInfo && s.mapInfo[s.mapAddr[net]].svc.net == net
    ensures forall id | id in s.mapInfo :: id != EMPTY && 0 <= s.mapInfo[id].lastSuccess && 0 <= s.mapInfo[id].lastTry
    ensures forall id | id in s.mapInfo && s.mapInfo[id].inTried :: 0 < s.mapInfo[id].lastSuccess
    ensures forall id | id in s.mapInfo :: s.mapInfo[id].refCount <= NEW_BUCKETS_PER_ADDRESS
  {
    CoreSafe(e, s);
  }

  /** The state in which Good has recorded the success of an entry (src/addrman.cpp:241-244). */
  ghost function Marked(s: State, id: int, time: int): State
    requires id in s.mapInfo
  {
    SetInfo(s.(nLastGood := time), id, Succeeded(s.mapInfo[id], time))
  }

  /** The states Good goes through (src/addrman.cpp:220-296). */
  lemma GoodStages(e: Env, s: State, svc: Service, test: bool, time: int)
    requires Consistent(e, s) && 0 < time
    ensures Safe(s) && Consistent(e, Good(e, s, svc, test, time))
    ensures svc.net in s.mapAddr ==> s.mapAddr[svc.net] in s.mapInfo
    ensures svc.net !in s.mapAddr ==> Good(e, s, svc, test, time) == s.(nLastGood := time)
    ensures svc.net in s.mapAddr && s.mapInfo[s.mapAddr[svc.net]].svc != svc ==>
              Good(e, s, svc, test, time) == s.(nLastGood := time)
    ensures svc.net in s.mapAddr && s.mapInfo[s.mapAddr[svc.net]].svc == svc ==>
              var id := s.mapAddr[svc.net];
              var s1 := Marked(s, id, time);
              && id != EMPTY
              && Consistent(e, s1)
              && (s.mapInfo[id].inTried ==> Good(e, s, svc, test, time) == s1)
              && (!s.mapInfo[id].inTried ==>
                    && Slots(s1.new_, id) != {}
                    && TriedSlot(e, svc) in s1.tried
                    && Safe(s1)
                    && Good(e, s, svc, test, time) ==
                       if test && s1.tried[TriedSlot(e, svc)] != EMPTY then
                         if |s1.collisions| < SET_TRIED_COLLISION_SIZE
                         then s1.(collisions := s1.collisions + {id}) else s1
                       else MakeTried(e, s1, id))
  {
    hide Core, Safe, Index, Loose, Counts, Collisions, MakeTried, Slots;
    ConsistentParts(e, s);
    LastGoodConsistent(e, s, time);
    GoodConsistent(e, s, svc, test, time);
    if svc.net in s.mapAddr && s.mapInfo[s.mapAddr[svc.net]].svc == svc {
      var id := s.mapAddr[svc.net];
      SetInfoConsistent(e, s.(nLastGood := time), id, Succeeded(s.mapInfo[id], time));
      ConsistentParts(e, Marked(s, id, time));
      if !s.mapInfo[id].inTried {
        NewEntryHasSlot(e, Marked(s, id, time), id);
        SlotKnown(e, Marked(s, id, time), svc);
      }
    }
  }

  lemma SlotKnown(e: Env, s: State, svc: Service)
    requires Safe(s)
    ensures TriedSlot(e, svc) in s.tried
  {
  }

  /** The states Place goes through (src/addrman.cpp:359-378). */
  lemma PlaceStages(e: Env, s: State, id: int, source: NetAddr, now: int)
    requires ConsistentBut(e, s, id) && id in s.mapInfo
    requires !s.mapInfo[id].inTried && s.mapInfo[id].refCount < NEW_BUCKETS_PER_ADDRESS
    ensures Core(e, s) && Safe(s) && Index(s) && Consistent(e, Place(e, s, id, source, now))
    ensures var us := NewSlot(e, s.mapInfo[id].svc, source);
            && us in s.new_ && (s.new_[us] != EMPTY ==> s.new_[us] in s.mapInfo)
            && (s.new_[us] == id ==> Place(e, s, id, source, now) == s)
            && (s.new_[us] != id && MayInsert(s, id, us, now) ==>
                  && id in ClearNew(s, us).mapInfo
                  && Place(e, s, id, source, now) == AddRef(ClearNew(s, us), id, us))
            && (s.new_[us] != id && !MayInsert(s, id, us, now) ==>
                  Place(e, s, id, source, now) == if s.mapInfo[id].refCount == 0 then Delete(s, id) else s)
  {
    hide Core, Index, Loose, Counts, Collisions, ClearNew, Delete, Consistent;
    CoreSafe(e, s);
    PlaceConsistent(e, s, id, source, now);
    var us := NewSlot(e, s.mapInfo[id].svc, source);
    if MayInsert(s, id, us, now) && s.new_[us] != id {
      PlaceInserts(e, s, id, us);
    }
  }

  /** The states Add goes through (src/addrman.cpp:298-380). */
  lemma AddStages(e: Env, s: State, addr: Address, source: NetAddr, penalty: int, now: int, later: int, rnd: nat)
    requires Consistent(e, s)
    ensures Safe(s) && Consistent(e, Add(e, s, addr, source, penalty, now, later, rnd).0)
    ensures !e.routable(addr.svc.net) ==> Add(e, s, addr, source, penalty, now, later, rnd) == (s, false)
    ensures var p := if addr.svc.net == source then 0 else penalty;
            e.routable(addr.svc.net) && addr.svc.net in s.mapAddr ==>
              var id := s.mapAddr[addr.svc.net];
              && id in s.mapInfo
              && var info := Refreshed(s.mapInfo[id], addr, p, now);
              var s1 := SetInfo(s, id, info);
              && Consistent(e, s1) && Safe(s1)
              && (!Accepts(info, addr, rnd) ==> Add(e, s, addr, source, penalty, now, later, rnd) == (s1, false))
              && (Accepts(info, addr, rnd) ==>
                    && info.refCount < NEW_BUCKETS_PER_ADDRESS && ConsistentBut(e, s1, id)
                    && Add(e, s, addr, source, penalty, now, later, rnd) == (Place(e, s1, id, source, later), false))
    ensures var p := if addr.svc.net == source then 0 else penalty;
            e.routable(addr.svc.net) && addr.svc.net !in s.mapAddr ==>
              var s1 := Enrolled(s, addr, source, p);
              && ConsistentBut(e, s1, s.nIdCount) && Safe(s1)
              && Add(e, s, addr, source, penalty, now, later, rnd) == (Place(e, s1, s.nIdCount, source, later), true)
  {
    hide Core, Safe, Index, Place;
    ConsistentParts(e, s);
    AddConsistent(e, s, addr, source, penalty, now, later, rnd);
    var p := if addr.svc.net == source then 0 else penalty;
    if addr.svc.net in s.mapAddr {
      var id := s.mapAddr[addr.svc.net];
      var info := Refreshed(s.mapInfo[id], addr, p, now);
      SetInfoConsistent(e, s, id, info);
      ConsistentParts(e, SetInfo(s, id, info));
    } else {
      EnrolledConsistent(e, s, addr, source, p);
      CoreSafe(e, Enrolled(s, addr, source, p));
    }
  }

  /** So the branch for a slot that has become free is never taken (src/addrman.cpp:698-702). */
  lemma SlotNeverFreed(e: Env, s: State, id: int, adjusted: int, clock: (int, nat) -> int)
    requires Consistent(e, s) && Safe(s) && id in s.collisions
    ensures Judge(e, s, id, adjusted, clock).Replace? ==> Judge(e, s, id, adjusted, clock).time == clock(id, 1)
  {
    if id in s.mapInfo {
      PendingFacesEntry(e, s, id);
    }
  }

  lemma TriedInfo(e: Env, s: State, svc: Service)
    requires Consistent(e, s)
    ensures TriedSlot(e, svc) in s.tried
    ensures s.tried[TriedSlot(e, svc)] != EMPTY ==> s.tried[TriedSlot(e, svc)] in s.mapInfo
  {
  }

  class AddrMan {
    const env: Env
    const vvTried: array2<int>
    const vvNew: array2<int>
    var nIdCount: int
    var mapInfo: map<int, Info>
    var mapAddr: map<NetAddr, int>
    var vRandom: seq<int>
    var nTried: int
    var nNew: int
    var nLastGood: int
    var collisions: set<int>

    ghost predicate Shape() {
      && vvTried.Length0 == TRIED_BUCKET_COUNT && vvTried.Length1 == BUCKET_SIZE
      && vvNew.Length0 == NEW_BUCKET_COUNT && vvNew.Length1 == BUCKET_SIZE
      && vvTried != vvNew
    }

    ghost function Now(): State
      reads this, vvTried, vvNew
    {
      State(nIdCount, mapInfo, mapAddr, vRandom, nTried, TableOf(vvTried), nNew, TableOf(vvNew), nLastGood, collisions)
    }

    constructor (e: Env)
      ensures Shape() && env == e && fresh(vvTried) && fresh(vvNew)
      ensures Now() == Init()
    {
      env := e;
      vvTried := new int[TRIED_BUCKET_COUNT, BUCKET_SIZE];
      vvNew := new int[NEW_BUCKET_COUNT, BUCKET_SIZE];
      collisions := {};
      new;
      Clear();
    }

    /** src/addrman.h:563-585; m_tried_collisions is not reset. */
    method Clear()
      requires Shape()
      modifies this, vvTried, vvNew
      ensures Now() == Init().(collisions := old(collisions))
    {
      hide TableOf, EmptyTable;
      vRandom := [];
      FillEmpty(vvNew);
      FillEmpty(vvTried);
      nIdCount := 0;
      nTried := 0;
      nNew := 0;
      nLastGood := 1;
      mapInfo := map[];
      mapAddr := map[];
    }

    /** src/addrman.cpp:125-143 */
    method SwapRandom(i: nat, j: nat)
      requires Shape() && Index(Now())
      requires i < |vRandom| && j < |vRandom|
      modifies this`mapInfo, this`vRandom
      ensures Now() == AddrManSpec.SwapRandom(old(Now()), i, j)
    {
      hide TableOf;
      if i == j {
        return;
      }
      var id1, id2 := vRandom[i], vRandom[j];
      mapInfo := mapInfo[id1 := mapInfo[id1].(randomPos := j)];
      mapInfo := mapInfo[id2 := mapInfo[id2].(randomPos := i)];
      vRandom := vRandom[i := id2];
      vRandom := vRandom[j := id1];
    }

    /** src/addrman.cpp:145-156: the internal assertions are the preconditions. */
    method Delete(id: int)
      requires Shape() && Index(Now())
      requires id in mapInfo && !mapInfo[id].inTried && mapInfo[id].refCount == 0
      modifies this`mapInfo, this`mapAddr, this`vRandom, this`nNew
      ensures Now() == AddrManSpec.Delete(old(Now()), id)
    {
      hide TableOf;
      var net := mapInfo[id].svc.net;
      SwapRandom(mapInfo[id].randomPos, |vRandom| - 1);
      vRandom := vRandom[..|vRandom| - 1];
      mapAddr := mapAddr - {net};
      mapInfo := mapInfo - {id};
      nNew := nNew - 1;
    }

    /** src/addrman.cpp:158-170 */
    method ClearNew(b: int, i: int)
      requires Shape() && Core(env, Now())
      requires 0 <= b < NEW_BUCKET_COUNT && 0 <= i < BUCKET_SIZE
      modifies this`mapInfo, this`mapAddr, this`vRandom, this`nNew, vvNew
      ensures (b, i) in old(Now()).new_ && Safe(old(Now()))
      ensures Now() == AddrManSpec.ClearNew(old(Now()), (b, i))
    {
      hide TableOf, Core, Safe, Index, NewIds, TriedIds, Loose;
      ghost var s := Now();
      CoreSafe(env, s);
      var id := Load(vvNew, b, i);
      CoreNewSlot(env, s, (b, i));
      if id != EMPTY {
        UnrefCore(env, s, (b, i));
        UnrefIndex(s, (b, i));
        mapInfo := mapInfo[id := mapInfo[id].(refCount := mapInfo[id].refCount - 1)];
        Store(vvNew, b, i, EMPTY);
        assert Now() == Unref(s, (b, i));
        if mapInfo[id].refCount == 0 {
          Delete(id);
        }
      }
    }

    /** src/addrman.cpp:175-179 */
    method LeaveBucket(b: int, id: int)
      requires Shape() && 0 <= b < NEW_BUCKET_COUNT && id in mapInfo && id != EMPTY
      requires mapInfo[id].refCount == |Slots(TableOf(vvNew), id)|
      modifies this`mapInfo, vvNew
      ensures mapInfo == old(mapInfo)[id := old(mapInfo)[id].(refCount := |Slots(TableOf(vvNew), id)|)]
      ensures var sl := (b, BucketPosition(env, old(mapInfo)[id].svc, true, b));
              var t := old(TableOf(vvNew));
              sl in t && TableOf(vvNew) == if t[sl] == id then t[sl := EMPTY] else t
    {
      hide TableOf;
      var pos := BucketPosition(env, mapInfo[id].svc, true, b);
      if Load(vvNew, b, pos) == id {
        ClearedSlots(TableOf(vvNew), (b, pos), id);
        hide Slots;
        Store(vvNew, b, pos, EMPTY);
        mapInfo := mapInfo[id := mapInfo[id].(refCount := mapInfo[id].refCount - 1)];
      }
    }

    /** The first loop of MakeTried (src/addrman.cpp:173-183) looks at one position per bucket. */
    method LeaveNewBuckets(id: int)
      requires Shape() && Core(env, Now())
      requires id in mapInfo && !mapInfo[id].inTried
      modifies this`mapInfo, this`nNew, vvNew
      ensures Now() == LeaveNew(old(Now()), id)
    {
      hide Core, TableOf, Swept, Without;
      ghost var s := Now();
      OwnPositions(env, s, id);
      SweepEnds(s.new_, id);
      for bucket := 0 to NEW_BUCKET_COUNT
        invariant nNew == s.nNew && TableOf(vvNew) == Swept(s.new_, id, bucket)
        invariant mapInfo == s.mapInfo[id := s.mapInfo[id].(refCount := |Slots(TableOf(vvNew), id)|)]
      {
        hide Slots;
        SweepStep(s.new_, id, bucket, BucketPosition(env, mapInfo[id].svc, true, bucket));
        LeaveBucket(bucket, id);
      }
      nNew := nNew - 1;
    }

    /** src/addrman.cpp:193-200 */
    method LeaveTriedAt(b: int, i: int)
      requires Shape() && 0 <= b < TRIED_BUCKET_COUNT && 0 <= i < BUCKET_SIZE
      requires (b, i) in Now().tried && Now().tried[(b, i)] in mapInfo
      modifies this`mapInfo, this`nTried, vvTried
      ensures Now() == LeaveTried(old(Now()), (b, i))
    {
      hide TableOf;
      var id := Load(vvTried, b, i);
      mapInfo := mapInfo[id := mapInfo[id].(inTried := false)];
      Store(vvTried, b, i, EMPTY);
      nTried := nTried - 1;
    }

    /** src/addrman.cpp:205-211 */
    method EnterNewAt(b: int, i: int, id: int)
      requires Shape() && Core(env, Now()) && Safe(Now())
      requires 0 <= b < NEW_BUCKET_COUNT && 0 <= i < BUCKET_SIZE && (b, i) in Now().new_
      requires id in AddrManSpec.ClearNew(Now(), (b, i)).mapInfo
      modifies this`mapInfo, this`mapAddr, this`vRandom, this`nNew, vvNew
      ensures Safe(old(Now())) && (b, i) in old(Now()).new_
      ensures id in AddrManSpec.ClearNew(old(Now()), (b, i)).mapInfo
      ensures Now() == EnterNew(AddrManSpec.ClearNew(old(Now()), (b, i)), id, (b, i))
    {
      hide Core, Safe, TableOf, AddrManSpec.ClearNew;
      ClearNew(b, i);
      mapInfo := mapInfo[id := mapInfo[id].(refCount := 1)];
      Store(vvNew, b, i, id);
      nNew := nNew + 1;
    }

    /** src/addrman.cpp:213-217 */
    method EnterTriedAt(b: int, i: int, id: int)
      requires Shape() && id in mapInfo
      requires 0 <= b < TRIED_BUCKET_COUNT && 0 <= i < BUCKET_SIZE
      modifies this`mapInfo, this`nTried, vvTried
      ensures id in old(mapInfo) && Now() == EnterTried(old(Now()), id, (b, i))
    {
      hide TableOf;
      Store(vvTried, b, i, id);
      nTried := nTried + 1;
      mapInfo := mapInfo[id := mapInfo[id].(inTried := true)];
    }

    /** src/addrman.cpp:191-212 */
    method EvictFrom(b: int, i: int)
      requires Shape() && Core(env, Now()) && Safe(Now())
      requires 0 <= b < TRIED_BUCKET_COUNT && 0 <= i < BUCKET_SIZE
      requires (b, i) in Now().tried && Now().tried[(b, i)] != EMPTY
      modifies this`mapInfo, this`mapAddr, this`vRandom, this`nNew, this`nTried, vvNew, vvTried
      ensures (b, i) in old(Now()).tried && old(Now()).tried[(b, i)] != EMPTY
      ensures Now() == Evict(env, old(Now()), (b, i))
    {
      hide Core, Safe, TableOf, Evict, AddrManSpec.ClearNew, EnterNew;
      EvictStages(env, Now(), (b, i));
      var id := Load(vvTried, b, i);
      var svc, source := mapInfo[id].svc, mapInfo[id].source;
      LeaveTriedAt(b, i);
      hide LeaveTried;
      var ub := NewBucket(env, svc, source);
      EnterNewAt(ub, BucketPosition(env, svc, true, ub), id);
    }

    /** src/addrman.cpp:172-218 */
    method MakeTried(id: int)
      requires Shape() && Core(env, Now()) && Loose(mapInfo) == {} && Counts(Now(), 0, 0)
      requires id in mapInfo && !mapInfo[id].inTried && 0 < mapInfo[id].lastSuccess
      modifies this`mapInfo, this`mapAddr, this`vRandom, this`nNew, this`nTried, vvNew, vvTried
      ensures Safe(old(Now()))
      ensures Now() == AddrManSpec.MakeTried(env, old(Now()), id)
    {
      hide Core, Safe, TableOf, Counts, Loose, Evict, AddrManSpec.MakeTried, EnterTried;
      MakeTriedStages(env, Now(), id);
      var svc := mapInfo[id].svc;
      LeaveNewBuckets(id);
      var b := TriedBucket(env, svc);
      var i := BucketPosition(env, svc, false, b);
      assert id in mapInfo;
      hide LeaveNew;
      if Load(vvTried, b, i) != EMPTY {
        EvictFrom(b, i);
      }
      EnterTriedAt(b, i, id);
    }

    /** A bucket the entry is in, found by looking at its own position of each bucket, from a
        random one on (src/addrman.cpp:253-263). */
    method FindBucket(id: int, rnd: nat) returns (found: int)
      requires Shape() && Core(env, Now()) && id in mapInfo
      ensures found == -1 <==> Slots(TableOf(vvNew), id) == {}
      ensures found != -1 ==>
                && 0 <= found < NEW_BUCKET_COUNT
                && (found, BucketPosition(env, mapInfo[id].svc, true, found)) in Slots(TableOf(vvNew), id)
    {
      hide Core, TableOf;
      OwnPositions(env, Now(), id);
      ghost var t := TableOf(vvNew);
      found := -1;
      var start := rnd % NEW_BUCKET_COUNT;
      for n := 0 to NEW_BUCKET_COUNT
        invariant found == -1
        invariant forall sl | sl in t && t[sl] == id :: n <= (sl.0 - start) % NEW_BUCKET_COUNT
      {
        var b := (n + start) % NEW_BUCKET_COUNT;
        var pos := BucketPosition(env, mapInfo[id].svc, true, b);
        if Load(vvNew, b, pos) == id {
          found := b;
          break;
        }
      }
      if found == -1 {
        assert forall sl | sl in t :: t[sl] != id;
        assert Slots(t, id) == {};
      } else {
        assert (found, BucketPosition(env, mapInfo[id].svc, true, found)) in Slots(t, id);
      }
    }

    /** src/addrman.cpp:220-296 */
    method Good(svc: Service, testBeforeEvict: bool, time: int, rnd: nat)
      requires Shape() && Consistent(env, Now()) && 0 < time
      modifies this, vvNew, vvTried
      ensures Safe(old(Now()))
      ensures Now() == AddrManOps.Good(env, old(Now()), svc, testBeforeEvict, time)
      ensures Consistent(env, Now())
    {
      hide Consistent, Safe, TableOf, AddrManOps.Good, AddrManSpec.MakeTried, Core, Loose, Counts, Slots;
      ghost var s := Now();
      GoodStages(env, s, svc, testBeforeEvict, time);
      nLastGood := time;
      if svc.net !in mapAddr {
        return;
      }
      var id := mapAddr[svc.net];
      if id !in mapInfo || mapInfo[id].svc != svc {
        return;
      }
      mapInfo := mapInfo[id := Succeeded(mapInfo[id], time)];
      assert Now() == Marked(s, id, time);
      if mapInfo[id].inTried {
        return;
      }
      ConsistentParts(env, Now());
      var bucket := FindBucket(id, rnd);
      if bucket == -1 {
        return;
      }
      var kb := TriedBucket(env, svc);
      var ki := BucketPosition(env, svc, false, kb);
      var incumbent := Load(vvTried, kb, ki);
      if testBeforeEvict && incumbent != EMPTY {
        if |collisions| < SET_TRIED_COLLISION_SIZE {
          collisions := collisions + {id};
        }
      } else {
        MakeTried(id);
      }
    }

    /** src/addrman.cpp:372-374 */
    method AddRefAt(b: int, i: int, id: int)
      requires Shape() && Core(env, Now()) && Safe(Now())
      requires 0 <= b < NEW_BUCKET_COUNT && 0 <= i < BUCKET_SIZE && (b, i) in Now().new_
      requires id in AddrManSpec.ClearNew(Now(), (b, i)).mapInfo
      modifies this`mapInfo, this`mapAddr, this`vRandom, this`nNew, vvNew
      ensures Safe(old(Now())) && (b, i) in old(Now()).new_
      ensures id in AddrManSpec.ClearNew(old(Now()), (b, i)).mapInfo
      ensures Now() == AddRef(AddrManSpec.ClearNew(old(Now()), (b, i)), id, (b, i))
    {
      hide Core, Safe, TableOf, AddrManSpec.ClearNew;
      ClearNew(b, i);
      mapInfo := mapInfo[id := mapInfo[id].(refCount := mapInfo[id].refCount + 1)];
      Store(vvNew, b, i, id);
    }

    /** src/addrman.cpp:359-378 */
    method Place(id: int, source: NetAddr, now: int)
      requires Shape() && ConsistentBut(env, Now(), id) && id in mapInfo
      requires !mapInfo[id].inTried && mapInfo[id].refCount < NEW_BUCKETS_PER_ADDRESS
      modifies this`mapInfo, this`mapAddr, this`vRandom, this`nNew, vvNew
      ensures Safe(old(Now())) && Now() == AddrManOps.Place(env, old(Now()), id, source, now)
      ensures Consistent(env, Now())
    {
      hide ConsistentBut, Consistent, Core, Safe, Index, TableOf, AddrManOps.Place, AddRef, IsTerrible;
      hide AddrManSpec.ClearNew, AddrManSpec.Delete;
      PlaceStages(env, Now(), id, source, now);
      var b := NewBucket(env, mapInfo[id].svc, source);
      var i := BucketPosition(env, mapInfo[id].svc, true, b);
      var held := Load(vvNew, b, i);
      if held != id {
        var insert := held == EMPTY;
        if !insert {
          var existing := mapInfo[held];
          if IsTerrible(existing, now) || (existing.refCount > 1 && mapInfo[id].refCount == 0) {
            insert := true;
          }
        }
        if insert {
          AddRefAt(b, i, id);
        } else if mapInfo[id].refCount == 0 {
          Delete(id);
        }
      }
    }

    /** 2^refCount by repeated doubling (src/addrman.cpp:343-346). */
    static method Factor(refCount: int) returns (f: int)
      ensures f == Doublings(refCount)
    {
      f := 1;
      var n := 0;
      while n < refCount
        invariant n <= refCount || n == 0
        invariant f == Doublings(n)
      {
        f := f * 2;
        n := n + 1;
      }
    }

    /** src/addrman.cpp:112-123 */
    method Create(addr: Address, source: NetAddr) returns (id: int)
      modifies this`nIdCount, this`mapInfo, this`mapAddr, this`vRandom
      ensures id == old(nIdCount) && Now() == AddrManSpec.Create(old(Now()), addr, source)
    {
      hide TableOf;
      id := nIdCount;
      nIdCount := nIdCount + 1;
      mapInfo := mapInfo[id := Info(addr.svc, addr.services, addr.time, source, 0, 0, 0, 0, 0, false, -1)];
      mapAddr := mapAddr[addr.svc.net := id];
      mapInfo := mapInfo[id := mapInfo[id].(randomPos := |vRandom|)];
      vRandom := vRandom + [id];
    }

    /** What an announcement brings a known address (src/addrman.cpp:314-325). */
    method Refresh(id: int, addr: Address, penalty: int, now: int)
      requires id in mapInfo
      modifies this`mapInfo
      ensures Now() == SetInfo(old(Now()), id, Refreshed(old(mapInfo[id]), addr, penalty, now))
    {
      hide TableOf, Truncated;
      var info := mapInfo[id];
      var interval := if now - addr.time < 24 * 60 * 60 then 60 * 60 else 24 * 60 * 60;
      if addr.time != 0 && (info.time == 0 || info.time < addr.time - interval - penalty) {
        info := info.(time := Truncated(Max(0, addr.time - penalty)));
      }
      mapInfo := mapInfo[id := info.(services := info.services + addr.services)];
    }

    /** src/addrman.cpp:298-380 */
    method Add(addr: Address, source: NetAddr, penalty: int, now: int, later: int, rnd: nat) returns (isNew: bool)
      requires Shape() && Consistent(env, Now())
      modifies this, vvNew
      ensures Safe(old(Now()))
      ensures (Now(), isNew) == AddrManOps.Add(env, old(Now()), addr, source, penalty, now, later, rnd)
      ensures Consistent(env, Now())
    {
      hide Consistent, ConsistentBut, Safe, TableOf, AddrManOps.Add, AddrManOps.Place, Core, Loose, Counts, Truncated,
           Doublings;
      ghost var s := Now();
      AddStages(env, s, addr, source, penalty, now, later, rnd);
      isNew := false;
      if !env.routable(addr.svc.net) {
        return;
      }
      var p := if addr.svc.net == source then 0 else penalty;
      if addr.svc.net in mapAddr && mapAddr[addr.svc.net] in mapInfo {
        var id := mapAddr[addr.svc.net];
        Refresh(id, addr, p, now);
        var info := mapInfo[id];
        if addr.time == 0 || (info.time != 0 && addr.time <= info.time) {
          return;
        }
        if info.inTried {
          return;
        }
        if info.refCount == NEW_BUCKETS_PER_ADDRESS {
          return;
        }
        var factor := Factor(info.refCount);
        if factor > 1 && rnd % factor != 0 {
          return;
        }
        Place(id, source, later);
      } else {
        var id := Create(addr, source);
        mapInfo := mapInfo[id := mapInfo[id].(time := Truncated(Max(0, mapInfo[id].time - p)))];
        nNew := nNew + 1;
        isNew := true;
        assert Now() == Enrolled(s, addr, source, p);
        Place(id, source, later);
      }
    }

    /** src/addrman.cpp:382-405 */
    method Attempt(svc: Service, countFailure: bool, time: int)
      requires Shape() && Consistent(env, Now()) && 0 < time
      modifies this`mapInfo
      ensures Now() == AddrManOps.Attempt(old(Now()), svc, countFailure, time)
      ensures Consistent(env, Now())
    {
      hide Consistent, TableOf;
      AttemptConsistent(env, Now(), svc, countFailure, time);
      if svc.net in mapAddr && mapAddr[svc.net] in mapInfo {
        var id := mapAddr[svc.net];
        if mapInfo[id].svc != svc {
          return;
        }
        mapInfo := mapInfo[id := mapInfo[id].(lastTry := time)];
        if countFailure && mapInfo[id].lastCountAttempt < nLastGood {
          mapInfo := mapInfo[id := mapInfo[id].(lastCountAttempt := time, attempts := mapInfo[id].attempts + 1)];
        }
      }
    }

    /** src/addrman.cpp:594-615 */
    method Connected(svc: Service, time: int)
      requires Shape() && Consistent(env, Now())
      modifies this`mapInfo
      ensures Now() == AddrManOps.Connected(old(Now()), svc, time)
      ensures Consistent(env, Now())
    {
      hide Consistent, TableOf;
      ConnectedConsistent(env, Now(), svc, time);
      if svc.net in mapAddr && mapAddr[svc.net] in mapInfo {
        var id := mapAddr[svc.net];
        if mapInfo[id].svc != svc {
          return;
        }
        if time - mapInfo[id].time > 20 * 60 {
          mapInfo := mapInfo[id := mapInfo[id].(time := Truncated(time))];
        }
      }
    }

    /** src/addrman.cpp:617-635 */
    method SetServices(svc: Service, services: set<nat>)
      requires Shape() && Consistent(env, Now())
      modifies this`mapInfo
      ensures Now() == AddrManOps.SetServices(old(Now()), svc, services)
      ensures Consistent(env, Now())
    {
      hide Consistent, TableOf;
      SetServicesConsistent(env, Now(), svc, services);
      if svc.net in mapAddr && mapAddr[svc.net] in mapInfo {
        var id := mapAddr[svc.net];
        if mapInfo[id].svc != svc {
          return;
        }
        mapInfo := mapInfo[id := mapInfo[id].(services := services)];
      }
    }

    /** src/addrman.cpp:569-575 */
    static method Wanted(size: nat, maxAddresses: nat, maxPct: nat) returns (nodes: nat)
      ensures nodes == SampleCap(size, maxAddresses, maxPct)
    {
      nodes := size;
      if maxPct != 0 {
        nodes := maxPct * nodes / 100;
      }
      if maxAddresses != 0 && maxAddresses < nodes {
        nodes := maxAddresses;
      }
    }

    /** src/addrman.cpp:568-592 */
    method GetAddr(maxAddresses: nat, maxPct: nat, rnd: nat -> nat, clock: nat -> int) returns (out: seq<Address>)
      requires Shape() && Consistent(env, Now())
      modifies this`mapInfo, this`vRandom
      ensures Index(old(Now()))
      ensures (Now(), out) == Sample(old(Now()), 0, [], SampleCap(|old(vRandom)|, maxAddresses, maxPct), rnd, clock)
      ensures Consistent(env, Now())
      ensures Index(Now()) && Sampled(Now(), out, SampleCap(|old(vRandom)|, maxAddresses, maxPct), clock)
    {
      hide Consistent, Index, TableOf, IsTerrible, AddrManSpec.SwapRandom, Sampled, SampleCap, Sample;
      ghost var s := Now();
      ConsistentIndex(env, s);
      var nodes := Wanted(|vRandom|, maxAddresses, maxPct);
      SampleIsSound(env, s, maxAddresses, maxPct, rnd, clock);
      ReorderedConsistent(env, s, Sample(s, 0, [], nodes, rnd, clock).0);
      out := [];
      var n := 0;
      while n < |vRandom| && |out| < nodes
        invariant n <= |vRandom| && Index(Now())
        invariant Sample(s, 0, [], nodes, rnd, clock) == Sample(Now(), n, out, nodes, rnd, clock)
        decreases |vRandom| - n
      {
        var p := DrawFrom(rnd, n, |vRandom|);
        SwapRandomIndex(Now(), n, p);
        SampleStep(Now(), n, out, nodes, rnd, clock);
        SwapRandom(n, p);
        var info := mapInfo[vRandom[n]];
        if !IsTerrible(info, clock(n)) {
          out := out + [AddressOf(info)];
        }
        n := n + 1;
      }
      SampleEnds(Now(), n, out, nodes, rnd, clock);
    }

    /** One round of the loop (src/addrman.cpp:642-709). */
    method ResolveOne(id: int, adjusted: int, clock: (int, nat) -> int, rnd: nat)
      requires Shape() && Consistent(env, Now()) && 0 < adjusted && 0 < clock(id, 1)
      modifies this, vvNew, vvTried
      ensures Safe(old(Now())) && Now() == Resolve(env, old(Now()), id, adjusted, clock)
      ensures Consistent(env, Now())
    {
      hide Consistent, Safe, TableOf, Core, Loose, Counts, Index, AddrManOps.Good;
      ConsistentParts(env, Now());
      ResolveConsistent(env, Now(), id, adjusted, clock);
      var erase := false;
      if id !in mapInfo {
        erase := true;
      } else {
        var info := mapInfo[id];
        TriedInfo(env, Now(), info.svc);
        var b := TriedBucket(env, info.svc);
        var i := BucketPosition(env, info.svc, false, b);
        var held := Load(vvTried, b, i);
        if !env.valid(info.svc.net) {
          erase := true;
        } else if held != EMPTY {
          var incumbent := mapInfo[held];
          if adjusted - incumbent.lastSuccess < REPLACEMENT_SECONDS {
            erase := true;
          } else if adjusted - incumbent.lastTry < REPLACEMENT_SECONDS {
            if clock(id, 0) - incumbent.lastTry > 60 {
              Good(info.svc, false, clock(id, 1), rnd);
              erase := true;
            }
          } else if clock(id, 0) - info.lastSuccess > TEST_WINDOW {
            Good(info.svc, false, clock(id, 1), rnd);
            erase := true;
          }
        } else {
          Good(info.svc, false, adjusted, rnd);
          erase := true;
        }
      }
      if erase {
        collisions := collisions - {id};
      }
    }

    /** src/addrman.cpp:637-711: the pending ids in increasing order. Only the current one is
        ever taken off, so walking the live set and walking its initial value are the same. */
    method ResolveCollisions(adjusted: int, clock: (int, nat) -> int, rnd: int -> nat)
      requires Shape() && Consistent(env, Now()) && 0 < adjusted && (forall i, k :: 0 < clock(i, k))
      modifies this, vvNew, vvTried
      ensures Safe(old(Now()))
      ensures Now() == ResolveAll(env, old(Now()), old(collisions), adjusted, clock)
      ensures Consistent(env, Now())
    {
      hide Consistent, Safe, TableOf, Resolve;
      ghost var s := Now();
      ConsistentParts(env, s);
      var rest := collisions;
      while rest != {}
        invariant Consistent(env, Now()) && Safe(Now()) && rest <= collisions
        invariant ResolveAll(env, s, s.collisions, adjusted, clock) == ResolveAll(env, Now(), rest, adjusted, clock)
        decreases |rest|
      {
        ghost var least := MinOf(rest);
        assert exists x :: x in rest && forall y | y in rest :: x <= y by {
          assert least in rest && forall y | y in rest :: least <= y;
        }
        var id :| id in rest && forall y | y in rest :: id <= y;
        assert id == least;
        ResolveConsistent(env, Now(), id, adjusted, clock);
        ResolveTakesOne(env, Now(), id, adjusted, clock);
        ResolveOne(id, adjusted, clock, rnd(id));
        rest := rest - {id};
      }
    }

    /** src/addrman.cpp:713-740 */
    method SelectTriedCollision(draw: nat) returns (r: Option<Info>)
      requires Shape() && Consistent(env, Now())
      modifies this`collisions
      ensures Consistent(env, Now())
      ensures (Now(), r) == Select(env, old(Now()), draw)
    {
      hide Consistent, TableOf, NthId;
      SelectConsistent(env, Now(), draw);
      if collisions == {} {
        return None;
      }
      var pick := Advance(collisions, draw % |collisions|);
      if pick !in mapInfo {
        collisions := collisions - {pick};
        return None;
      }
      PendingFacesEntry(env, Now(), pick);
      var svc := mapInfo[pick].svc;
      var b := TriedBucket(env, svc);
      var held := Load(vvTried, b, BucketPosition(env, svc, false, b));
      return Some(mapInfo[held]);
    }
  }

  /** std::advance over an ordered set (src/addrman.cpp:718-722). */
  method Advance(ids: set<int>, k: nat) returns (id: int)
    requires k < |ids|
    ensures id == NthId(ids, k)
  {
    var rest := ids;
    var n: nat := k;
    while true
      invariant n < |rest| && NthId(rest, n) == NthId(ids, k)
      decreases n
    {
      ghost var least := MinOf(rest);
      assert exists x :: x in rest && forall y | y in rest :: x <= y by {
        assert least in rest && forall y | y in rest :: least <= y;
      }
      id :| id in rest && forall y | y in rest :: id <= y;
      assert id == least;
      if n == 0 {
        return;
      }
      rest := rest - {id};
      n := n - 1;
    }
  }

  lemma ConsistentIndex(e: Env, s: State)
    requires Consistent(e, s)
    ensures Index(s)
  {
  }
}
