/** Every run of the address manager from its empty state keeps the invariant. */
module AddrManRuns {
  import opened Common
  import opened AddrManSpec
  import opened AddrManSteps
  import opened AddrManOps

  lemma InitConsistent(e: Env)
    ensures Consistent(e, Init())
  {
    var s := Init();
    assert s.tried.Keys == Grid(TRIED_BUCKET_COUNT) && s.new_.Keys == Grid(NEW_BUCKET_COUNT);
    assert NewIds(s.mapInfo) == {} && TriedIds(s.mapInfo) == {} && Loose(s.mapInfo) == {};
  }

  /** Changing bookkeeping fields of an entry keeps the manager consistent. */
  lemma SetInfoConsistent(e: Env, s: State, id: int, info: Info)
    requires Consistent(e, s) && id in s.mapInfo
    requires info.svc == s.mapInfo[id].svc && info.randomPos == s.mapInfo[id].randomPos
    requires info.inTried == s.mapInfo[id].inTried && info.refCount == s.mapInfo[id].refCount
    requires 0 <= info.lastTry && 0 <= info.lastSuccess && (info.inTried ==> 0 < info.lastSuccess)
    ensures Consistent(e, SetInfo(s, id, info))
  {
    hide Core, Loose, NewIds, TriedIds;
    SetInfoCore(e, s, id, info);
    assert SetInfo(s, id, info).mapInfo.Keys == s.mapInfo.Keys;
  }

  lemma FindFacts(e: Env, s: State, net: NetAddr)
    requires Core(e, s)
    ensures Find(s, net).Some? <==> net in s.mapAddr
    ensures Find(s, net).Some? ==> Find(s, net).value in s.mapInfo && s.mapInfo[Find(s, net).value].svc.net == net
    ensures forall id | id in s.mapInfo ::
              && 0 <= id < s.nIdCount && 0 <= s.mapInfo[id].lastTry && 0 <= s.mapInfo[id].lastSuccess
              && (s.mapInfo[id].inTried ==> 0 < s.mapInfo[id].lastSuccess)
              && s.mapInfo[id].refCount <= NEW_BUCKETS_PER_ADDRESS
  {
  }

  lemma MakeTriedConsistent(e: Env, s: State, id: int)
    requires Consistent(e, s) && Safe(s)
    requires id in s.mapInfo && !s.mapInfo[id].inTried && 0 < s.mapInfo[id].lastSuccess
    ensures Consistent(e, MakeTried(e, s, id))
    ensures Promoted(e, s, MakeTried(e, s, id), id)
    ensures Rearranged(s, MakeTried(e, s, id))
  {
    hide Safe, MakeTried, NewIds, TriedIds, AddrIndex, RandomIndex, Tables;
    MakeTriedCore(e, s, id);
    PromotedRearranges(e, s, MakeTried(e, s, id), id);
    RearrangedCollisions(e, s, MakeTried(e, s, id));
  }

  lemma PromotedRearranges(e: Env, s: State, s': State, id: int)
    requires id in s.mapInfo && id != EMPTY && Promoted(e, s, s', id)
    ensures Rearranged(s, s')
  {
  }

  /** A new entry holds a slot, so Good never gives up looking for one (src/addrman.cpp:265-269). */
  lemma NewEntryHasSlot(e: Env, s: State, id: int)
    requires Consistent(e, s) && id in s.mapInfo && !s.mapInfo[id].inTried
    ensures Slots(s.new_, id) != {}
  {
    assert id !in Loose(s.mapInfo);
  }

  lemma LastGoodConsistent(e: Env, s: State, time: int)
    requires Consistent(e, s) && Safe(s)
    ensures Consistent(e, s.(nLastGood := time)) && Safe(s.(nLastGood := time))
  {
    hide Core, Index, Loose, NewIds, TriedIds;
    assert Core(e, s) ==> Core(e, s.(nLastGood := time)) by { SameCore(e, s, s.(nLastGood := time)); }
    assert Index(s.(nLastGood := time)) by { SameIndex(s, s.(nLastGood := time)); }
  }

  lemma SameIndex(s: State, s': State)
    requires s'.nIdCount == s.nIdCount && s'.mapInfo == s.mapInfo && s'.mapAddr == s.mapAddr && s'.vRandom == s.vRandom
    ensures Index(s) ==> Index(s')
  {
    hide IdRange, AddrIndex, RandomIndex;
  }

  lemma SameCore(e: Env, s: State, s': State)
    requires s'.nIdCount == s.nIdCount && s'.mapInfo == s.mapInfo && s'.mapAddr == s.mapAddr && s'.vRandom == s.vRandom
    requires s'.tried == s.tried && s'.new_ == s.new_
    ensures Core(e, s) ==> Core(e, s')
  {
    SameIndex(s, s');
    hide Index, TriedTable, NewTable, RefCounts, Times;
  }

  lemma GoodConsistent(e: Env, s: State, svc: Service, testBeforeEvict: bool, time: int)
    requires Consistent(e, s) && Safe(s) && 0 < time
    ensures Consistent(e, Good(e, s, svc, testBeforeEvict, time))
  {
    hide Core, Loose, Counts, Collisions, Safe, MakeTried;
    var s0 := s.(nLastGood := time);
    LastGoodConsistent(e, s, time);
    FindFacts(e, s, svc.net);
    if Find(s, svc.net).Some? && s.mapInfo[Find(s, svc.net).value].svc == svc {
      var id := Find(s, svc.net).value;
      var info := Succeeded(s.mapInfo[id], time);
      SetInfoConsistent(e, s0, id, info);
      SetInfoSafe(s0, id, info);
      if !s.mapInfo[id].inTried {
        GoodNew(e, s, id, testBeforeEvict, time);
      }
    }
  }

  lemma GoodNew(e: Env, s: State, id: int, testBeforeEvict: bool, time: int)
    requires Safe(s) && id in s.mapInfo && !s.mapInfo[id].inTried && 0 < time
    requires Find(s, s.mapInfo[id].svc.net) == Some(id)
    requires var s1 := SetInfo(s.(nLastGood := time), id, Succeeded(s.mapInfo[id], time)); Consistent(e, s1) && Safe(s1)
    ensures Consistent(e, Good(e, s, s.mapInfo[id].svc, testBeforeEvict, time))
  {
    hide Consistent, Safe, MakeTried, Slots;
    var svc := s.mapInfo[id].svc;
    var s1 := SetInfo(s.(nLastGood := time), id, Succeeded(s.mapInfo[id], time));
    SlotFacts(e, s, svc);
    NewEntryHasSlot(e, s1, id);
    if testBeforeEvict && s.tried[TriedSlot(e, svc)] != EMPTY {
      if |s.collisions| < SET_TRIED_COLLISION_SIZE {
        GoodPostpones(e, s1, id);
      }
    } else {
      MakeTriedConsistent(e, s1, id);
    }
  }

  lemma GoodPostpones(e: Env, s: State, id: int)
    requires Consistent(e, s) && id in s.mapInfo && s.tried[TriedSlot(e, s.mapInfo[id].svc)] != EMPTY
    requires |s.collisions| < SET_TRIED_COLLISION_SIZE
    ensures Consistent(e, s.(collisions := s.collisions + {id}))
  {
  }

  // ---------- Add ----------

  lemma CreateTables(e: Env, m: map<int, Info>, tried: Table, new_: Table, id: int, info: Info)
    requires TriedTable(e, m, tried) && NewTable(e, m, new_) && RefCounts(m, new_)
    requires id !in m && id != EMPTY && !info.inTried && info.refCount == 0
    ensures TriedTable(e, m[id := info], tried) && NewTable(e, m[id := info], new_) && RefCounts(m[id := info], new_)
  {
    assert Slots(new_, id) == {} by {
      assert forall sl | sl in new_ :: new_[sl] != id;
    }
  }

  lemma CreateIds(m: map<int, Info>, id: int, info: Info)
    requires id !in m && !info.inTried && info.refCount == 0
    ensures |NewIds(m[id := info])| == |NewIds(m)| + 1 && TriedIds(m[id := info]) == TriedIds(m)
    ensures Loose(m[id := info]) == Loose(m) + {id}
  {
    var m' := m[id := info];
    assert forall x :: x in m' <==> x in m || x == id;
    assert forall x | x in m :: m'[x] == m[x];
    assert NewIds(m') == NewIds(m) + {id} by { hide TriedIds, Loose; }
    assert TriedIds(m') == TriedIds(m) by { hide NewIds, Loose; }
    assert Loose(m') == Loose(m) + {id} by { hide NewIds, TriedIds; }
  }

  /** Everything but the given entry, which may be in no table yet, is consistent. */
  ghost predicate ConsistentBut(e: Env, s: State, id: int) {
    && Core(e, s)
    && Loose(s.mapInfo) - {id} == {}
    && Counts(s, 0, 0)
    && Collisions(e, s)
  }

  lemma EnrolledConsistent(e: Env, s: State, addr: Address, source: NetAddr, penalty: int)
    requires Consistent(e, s) && addr.svc.net !in s.mapAddr
    ensures ConsistentBut(e, Enrolled(s, addr, source, penalty), s.nIdCount)
  {
    hide AddrIndex, RandomIndex, TriedTable, NewTable, RefCounts, NewIds, TriedIds, Loose;
    var id := s.nIdCount;
    var s1 := Create(s, addr, source);
    var s2 := Enrolled(s, addr, source, penalty);
    var info := s2.mapInfo[id];
    assert id !in s.mapInfo && id !in s.collisions && id != EMPTY;
    assert s2.mapInfo == s.mapInfo[id := info];
    CreateIndex(s, addr, source);
    SetInfoIndex(s1, id, info);
    SameIndex(SetInfo(s1, id, info), s2);
    CreateTables(e, s.mapInfo, s.tried, s.new_, id, info);
    CreateIds(s.mapInfo, id, info);
    assert Collisions(e, s2);
  }

  lemma PlaceInserts(e: Env, s: State, id: int, us: Slot)
    requires ConsistentBut(e, s, id) && Index(s)
    requires id in s.mapInfo && !s.mapInfo[id].inTried && s.mapInfo[id].refCount < NEW_BUCKETS_PER_ADDRESS
    requires us in s.new_ && s.new_[us] != id && (s.new_[us] != EMPTY ==> s.new_[us] in s.mapInfo)
    requires us.1 == BucketPosition(e, s.mapInfo[id].svc, true, us.0)
    ensures id in ClearNew(s, us).mapInfo && Consistent(e, AddRef(ClearNew(s, us), id, us))
    ensures Cleared(s, ClearNew(s, us), us)
  {
    hide Core, Index, NewIds, TriedIds, Loose, ClearNew;
    ClearNewCore(e, s, us, 0, 0);
    var s1 := ClearNew(s, us);
    assert id in s1.mapInfo && SameEntry(s.mapInfo[id], s1.mapInfo[id]);
    AddRefCore(e, s1, id, us);
    assert Rearranged(s, AddRef(s1, id, us)) by { AddRefRearranges(s, s1, id, us); }
    RearrangedCollisions(e, s, AddRef(s1, id, us));
  }

  lemma AddRefRearranges(s: State, s1: State, id: int, us: Slot)
    requires us in s.new_ && Cleared(s, s1, us) && id in s1.mapInfo
    ensures Rearranged(s, AddRef(s1, id, us))
  {
    assert AddRef(s1, id, us).mapInfo.Keys == s1.mapInfo.Keys;
  }

  lemma PlaceDrops(e: Env, s: State, id: int)
    requires ConsistentBut(e, s, id) && Index(s)
    requires id in s.mapInfo && !s.mapInfo[id].inTried && s.mapInfo[id].refCount == 0
    ensures Consistent(e, Delete(s, id))
  {
    hide Core, Index, NewIds, TriedIds, Delete;
    DeleteCore(e, s, id, 0, 0);
    DeleteIndex(s, id);
    assert Rearranged(s, Delete(s, id));
    RearrangedCollisions(e, s, Delete(s, id));
  }

  lemma PlaceConsistent(e: Env, s: State, id: int, source: NetAddr, now: int)
    requires ConsistentBut(e, s, id) && Safe(s)
    requires id in s.mapInfo && !s.mapInfo[id].inTried && s.mapInfo[id].refCount < NEW_BUCKETS_PER_ADDRESS
    ensures Consistent(e, Place(e, s, id, source, now))
  {
    var us := NewSlot(e, s.mapInfo[id].svc, source);
    assert Index(s) && us in s.new_ && (s.new_[us] != EMPTY ==> s.new_[us] in s.mapInfo);
    if s.new_[us] == id {
      assert id !in Loose(s.mapInfo) by { if id in Loose(s.mapInfo) { LooseHasNoRefs(e, s, id); } }
    } else if MayInsert(s, id, us, now) {
      hide Safe, Index, ConsistentBut, Consistent;
      PlaceInserts(e, s, id, us);
    } else if s.mapInfo[id].refCount == 0 {
      hide Safe, Index, ConsistentBut, Consistent;
      PlaceDrops(e, s, id);
    } else {
      assert id !in Loose(s.mapInfo);
    }
  }

  lemma AddConsistent(e: Env, s: State, addr: Address, source: NetAddr, penalty: int, now: int, later: int, rnd: nat)
    requires Consistent(e, s) && Safe(s)
    ensures Consistent(e, Add(e, s, addr, source, penalty, now, later, rnd).0)
  {
    hide Core, Loose, Counts, Collisions, Safe, Place;
    var p := if addr.svc.net == source then 0 else penalty;
    FindFacts(e, s, addr.svc.net);
    if e.routable(addr.svc.net) {
      if Find(s, addr.svc.net).Some? {
        AddKnown(e, s, Find(s, addr.svc.net).value, addr, source, p, now, later, rnd);
      } else {
        var s1 := Enrolled(s, addr, source, p);
        EnrolledConsistent(e, s, addr, source, p);
        CoreSafe(e, s1);
        PlaceConsistent(e, s1, s.nIdCount, source, later);
      }
    }
  }

  lemma AddKnown(e: Env, s: State, id: int, addr: Address, source: NetAddr, p: int, now: int, later: int, rnd: nat)
    requires Consistent(e, s) && id in s.mapInfo
    ensures var info := Refreshed(s.mapInfo[id], addr, p, now);
            && Consistent(e, SetInfo(s, id, info)) && Safe(SetInfo(s, id, info))
            && (Accepts(info, addr, rnd) ==> Consistent(e, Place(e, SetInfo(s, id, info), id, source, later)))
  {
    var info := Refreshed(s.mapInfo[id], addr, p, now);
    var s1 := SetInfo(s, id, info);
    FindFacts(e, s, addr.svc.net);
    SetInfoConsistent(e, s, id, info);
    CoreSafe(e, s1);
    assert ConsistentBut(e, s1, id);
    hide Consistent, ConsistentBut, Safe;
    if Accepts(info, addr, rnd) {
      PlaceConsistent(e, s1, id, source, later);
    }
  }

  // ---------- Bookkeeping ----------

  lemma AttemptConsistent(e: Env, s: State, svc: Service, countFailure: bool, time: int)
    requires Consistent(e, s) && 0 < time
    ensures Consistent(e, Attempt(s, svc, countFailure, time))
  {
    hide Core, Loose, Counts, Collisions, SetInfo;
    FindFacts(e, s, svc.net);
    if Find(s, svc.net).Some? {
      var id := Find(s, svc.net).value;
      SetInfoConsistent(e, s, id, Attempted(s.mapInfo[id], countFailure, s.nLastGood, time));
    }
  }

  lemma ConnectedConsistent(e: Env, s: State, svc: Service, time: int)
    requires Consistent(e, s)
    ensures Consistent(e, Connected(s, svc, time))
  {
    FindFacts(e, s, svc.net);
    hide Consistent;
    if Find(s, svc.net).Some? {
      var id := Find(s, svc.net).value;
      SetInfoConsistent(e, s, id, s.mapInfo[id].(time := Truncated(time)));
    }
  }

  lemma SetServicesConsistent(e: Env, s: State, svc: Service, services: set<nat>)
    requires Consistent(e, s)
    ensures Consistent(e, SetServices(s, svc, services))
  {
    FindFacts(e, s, svc.net);
    hide Consistent;
    if Find(s, svc.net).Some? {
      var id := Find(s, svc.net).value;
      SetInfoConsistent(e, s, id, s.mapInfo[id].(services := services));
    }
  }

  // ---------- GetAddr ----------

  function AddressOf(info: Info): Address {
    Address(info.svc, info.services, info.time)
  }

  /** randrange(size - n) + n */
  function DrawFrom(rnd: nat -> nat, n: nat, size: nat): (p: nat)
    requires n < size
    ensures n <= p < size
  {
    rnd(n) % (size - n) + n
  }

  /** The sampling loop of src/addrman.cpp:578-591 from position n on. */
  ghost function Sample(s: State, n: nat, out: seq<Address>, cap: int, rnd: nat -> nat, clock: nat -> int)
    : (r: (State, seq<Address>))
    requires Index(s) && n <= |s.vRandom|
    ensures Index(r.0) && Reordered(s, r.0)
    decreases |s.vRandom| - n
  {
    if n == |s.vRandom| || |out| >= cap then (s, out)
    else
      var p := DrawFrom(rnd, n, |s.vRandom|);
      var s1 := SwapRandom(s, n, p);
      SwapRandomIndex(s, n, p);
      var info := s1.mapInfo[s1.vRandom[n]];
      var r := Sample(s1, n + 1, if IsTerrible(info, clock(n)) then out else out + [AddressOf(info)], cap, rnd, clock);
      ReorderedTrans(s, s1, r.0);
      r
  }

  lemma ReorderedTrans(s: State, s1: State, s2: State)
    requires Reordered(s, s1) && Reordered(s1, s2)
    ensures Reordered(s, s2)
  {
    forall id | id in s.mapInfo
      ensures SameEntry(s.mapInfo[id], s2.mapInfo[id])
    {
      assert SameEntry(s.mapInfo[id], s1.mapInfo[id]);
      assert SameEntry(s1.mapInfo[id], s2.mapInfo[id]);
    }
  }

  function SampleCap(size: nat, maxAddresses: nat, maxPct: nat): nat {
    var a := if maxPct != 0 then maxPct * size / 100 else size;
    if maxAddresses != 0 && maxAddresses < a then maxAddresses else a
  }

  lemma ReorderedConsistent(e: Env, s: State, s': State)
    requires Consistent(e, s) && Reordered(s, s') && Index(s')
    ensures Consistent(e, s')
  {
    SameEntriesTables(e, s.mapInfo, s'.mapInfo, s.tried, s.new_);
    SameEntriesIds(s.mapInfo, s'.mapInfo);
    hide Index, TriedTable, NewTable, RefCounts, Times, NewIds, TriedIds, Loose;
    assert Collisions(e, s');
  }

  // ---------- Collisions ----------

  ghost function MinOf(ids: set<int>): (m: int)
    requires ids != {}
    ensures m in ids && forall x | x in ids :: m <= x
  {
    assert exists m :: m in ids && forall x | x in ids :: m <= x by { var m := FindMin(ids); }
    var m :| m in ids && forall x | x in ids :: m <= x;
    m
  }

  lemma Pick<T>(s: set<T>) returns (x: T)
    requires s != {}
    ensures x in s
  {
    x :| x in s;
  }

  lemma {:induction false} FindMin(ids: set<int>) returns (m: int)
    requires ids != {}
    ensures m in ids && forall x | x in ids :: m <= x
    decreases |ids|
  {
    m := Pick(ids);
    if y :| y in ids && y < m {
      var a, rest := m, ids - {m};
      assert y in rest;
      m := FindMin(rest);
      forall x | x in ids
        ensures m <= x
      {
        if x != a {
          assert x in rest;
        }
      }
    }
  }

  datatype Verdict = Keep | Drop | Replace(time: int)

  /** What the loop body decides about one pending entry (src/addrman.cpp:642-703). */
  ghost function Judge(e: Env, s: State, id: int, adjusted: int, clock: (int, nat) -> int): Verdict
    requires Safe(s)
  {
    if id !in s.mapInfo then Drop
    else
      var info := s.mapInfo[id];
      var ks := TriedSlot(e, info.svc);
      if !e.valid(info.svc.net) then Drop
      else if s.tried[ks] == EMPTY then Replace(adjusted)
      else
        var incumbent := s.mapInfo[s.tried[ks]];
        if adjusted - incumbent.lastSuccess < REPLACEMENT_SECONDS then Drop
        else if adjusted - incumbent.lastTry < REPLACEMENT_SECONDS then
          if clock(id, 0) - incumbent.lastTry > 60 then Replace(clock(id, 1)) else Keep
        else if clock(id, 0) - info.lastSuccess > TEST_WINDOW then Replace(clock(id, 1))
        else Keep
  }

  ghost function Resolve(e: Env, s: State, id: int, adjusted: int, clock: (int, nat) -> int): State
    requires Safe(s)
  {
    match Judge(e, s, id, adjusted, clock)
    case Keep => s
    case Drop => s.(collisions := s.collisions - {id})
    case Replace(time) =>
      var s1 := Good(e, s, s.mapInfo[id].svc, false, time);
      s1.(collisions := s1.collisions - {id})
  }

  lemma ResolveConsistent(e: Env, s: State, id: int, adjusted: int, clock: (int, nat) -> int)
    requires Consistent(e, s) && Safe(s) && 0 < adjusted && 0 < clock(id, 1)
    ensures Consistent(e, Resolve(e, s, id, adjusted, clock)) && Safe(Resolve(e, s, id, adjusted, clock))
  {
    var s1 := match Judge(e, s, id, adjusted, clock)
              case Replace(time) => Good(e, s, s.mapInfo[id].svc, false, time)
              case _ => s;
    match Judge(e, s, id, adjusted, clock) {
      case Replace(time) => GoodConsistent(e, s, s.mapInfo[id].svc, false, time);
      case _ =>
    }
    assert Consistent(e, s1);
    hide Good;
    SettleConsistent(e, s1, id);
    CoreSafe(e, s1.(collisions := s1.collisions - {id}));
    CoreSafe(e, s1);
    hide Core, Safe, Loose, Counts, Collisions;
  }

  /** Resolving one pending entry takes at most that entry off the pending set. */
  lemma ResolveTakesOne(e: Env, s: State, id: int, adjusted: int, clock: (int, nat) -> int)
    requires Consistent(e, s) && Safe(s) && 0 < adjusted && 0 < clock(id, 1)
    ensures s.collisions - {id} <= Resolve(e, s, id, adjusted, clock).collisions <= s.collisions
  {
    hide Safe, Core, Loose, Counts, Collisions, Good, MakeTried;
    match Judge(e, s, id, adjusted, clock) {
      case Replace(time) => GoodKeepsCollisions(e, s, id, time);
      case _ =>
    }
  }

  lemma GoodKeepsCollisions(e: Env, s: State, id: int, time: int)
    requires Consistent(e, s) && Safe(s) && 0 < time && id in s.mapInfo
    ensures Good(e, s, s.mapInfo[id].svc, false, time).collisions == s.collisions
  {
    hide Core, Index, Loose, Counts, Collisions, MakeTried;
    var svc := s.mapInfo[id].svc;
    FindFacts(e, s, svc.net);
    LastGoodConsistent(e, s, time);
    var found := Find(s, svc.net);
    if found.Some? && s.mapInfo[found.value].svc == svc && !s.mapInfo[found.value].inTried {
      var id' := Find(s, svc.net).value;
      var info := Succeeded(s.mapInfo[id'], time);
      SetInfoConsistent(e, s.(nLastGood := time), id', info);
      SetInfoSafe(s.(nLastGood := time), id', info);
      MakeTriedConsistent(e, SetInfo(s.(nLastGood := time), id', info), id');
    }
  }

  lemma SettleConsistent(e: Env, s: State, id: int)
    requires Consistent(e, s)
    ensures Consistent(e, s.(collisions := s.collisions - {id}))
  {
    SameCore(e, s, s.(collisions := s.collisions - {id}));
    hide Core, Loose, NewIds, TriedIds;
  }

  /** The loop over the pending entries in increasing order (src/addrman.cpp:640-710). */
  ghost function ResolveAll(e: Env, s: State, rest: set<int>, adjusted: int, clock: (int, nat) -> int): (r: State)
    requires Consistent(e, s) && Safe(s) && 0 < adjusted && (forall i, k :: 0 < clock(i, k))
    ensures Consistent(e, r) && Safe(r)
    decreases |rest|
  {
    if rest == {} then s
    else
      var id := MinOf(rest);
      ResolveConsistent(e, s, id, adjusted, clock);
      ResolveAll(e, Resolve(e, s, id, adjusted, clock), rest - {id}, adjusted, clock)
  }

  // ---------- SelectTriedCollision_ ----------

  /** In a consistent manager a pending entry faces an entry of the tried table. */
  lemma PendingFacesEntry(e: Env, s: State, id: int)
    requires Consistent(e, s) && id in s.collisions && id in s.mapInfo
    ensures TriedSlot(e, s.mapInfo[id].svc) in s.tried
    ensures var old_ := s.tried[TriedSlot(e, s.mapInfo[id].svc)];
            old_ != EMPTY && old_ in s.mapInfo && s.mapInfo[old_].inTried
            && TriedSlot(e, s.mapInfo[old_].svc) == TriedSlot(e, s.mapInfo[id].svc)
  {
  }

  /** The id with k smaller ones in the set. */
  ghost function NthId(ids: set<int>, k: nat): (id: int)
    requires k < |ids|
    ensures id in ids
    decreases k
  {
    var least := MinOf(ids);
    if k == 0 then least else NthId(ids - {least}, k - 1)
  }

  /** src/addrman.cpp:713-740: a pending id is drawn; a stale one is taken off, otherwise the answer
      is the entry that occupies its tried slot. */
  ghost function Select(e: Env, s: State, draw: nat): (State, Option<Info>)
    requires Consistent(e, s)
  {
    if s.collisions == {} then (s, None)
    else
      var id := NthId(s.collisions, draw % |s.collisions|);
      if id !in s.mapInfo then (s.(collisions := s.collisions - {id}), None)
      else
        PendingFacesEntry(e, s, id);
        (s, Some(s.mapInfo[s.tried[TriedSlot(e, s.mapInfo[id].svc)]]))
  }

  lemma SelectConsistent(e: Env, s: State, draw: nat)
    requires Consistent(e, s)
    ensures Consistent(e, Select(e, s, draw).0) && Grows(s, Select(e, s, draw).0)
    ensures var r := Select(e, s, draw).1; r.Some? ==> r.value.inTried
  {
    if s.collisions != {} {
      var id := NthId(s.collisions, draw % |s.collisions|);
      SettleConsistent(e, s, id);
      if id in s.mapInfo {
        PendingFacesEntry(e, s, id);
      }
    }
    hide Consistent;
  }

  // ---------- Runs ----------

  datatype Op =
    | OpAdd(addr: Address, source: NetAddr, penalty: int, now: int, later: int, rnd: nat)
    | OpGood(svc: Service, testBeforeEvict: bool, time: int)
    | OpAttempt(svc: Service, countFailure: bool, time: int)
    | OpConnected(svc: Service, time: int)
    | OpSetServices(svc: Service, services: set<nat>)
    | OpGetAddr(maxAddresses: nat, maxPct: nat, rnds: nat -> nat, clocks: nat -> int)
    | OpResolveCollisions(adjusted: int, clock: (int, nat) -> int)
    | OpSelectTriedCollision(draw: nat)

  /** Times that an operation records are positive. */
  ghost predicate Timely(op: Op) {
    match op
    case OpGood(_, _, time) => 0 < time
    case OpAttempt(_, _, time) => 0 < time
    case OpResolveCollisions(adjusted, clock) => 0 < adjusted && forall i, k :: 0 < clock(i, k)
    case _ => true
  }

  ghost function Apply(e: Env, s: State, op: Op): State
    requires Consistent(e, s) && Timely(op)
  {
    CoreSafe(e, s);
    match op
    case OpAdd(addr, source, penalty, now, later, rnd) => Add(e, s, addr, source, penalty, now, later, rnd).0
    case OpGood(svc, test, time) => Good(e, s, svc, test, time)
    case OpAttempt(svc, count, time) => Attempt(s, svc, count, time)
    case OpConnected(svc, time) => Connected(s, svc, time)
    case OpSetServices(svc, services) => SetServices(s, svc, services)
    case OpGetAddr(maxAddresses, maxPct, rnds, clocks) =>
      Sample(s, 0, [], SampleCap(|s.vRandom|, maxAddresses, maxPct), rnds, clocks).0
    case OpResolveCollisions(adjusted, clock) => ResolveAll(e, s, s.collisions, adjusted, clock)
    case OpSelectTriedCollision(draw) => Select(e, s, draw).0
  }

  lemma ApplyConsistent(e: Env, s: State, op: Op)
    requires Consistent(e, s) && Timely(op)
    ensures Consistent(e, Apply(e, s, op))
  {
    CoreSafe(e, s);
    assert Index(s);
    hide Consistent, Safe, Index;
    match op {
      case OpAdd(addr, source, penalty, now, later, rnd) =>
        AddConsistent(e, s, addr, source, penalty, now, later, rnd);
      case OpGood(svc, test, time) =>
        GoodConsistent(e, s, svc, test, time);
      case OpAttempt(svc, count, time) =>
        AttemptConsistent(e, s, svc, count, time);
      case OpConnected(svc, time) =>
        ConnectedConsistent(e, s, svc, time);
      case OpSetServices(svc, services) =>
        SetServicesConsistent(e, s, svc, services);
      case OpGetAddr(maxAddresses, maxPct, rnds, clocks) =>
        ReorderedConsistent(e, s, Sample(s, 0, [], SampleCap(|s.vRandom|, maxAddresses, maxPct), rnds, clocks).0);
      case OpResolveCollisions(adjusted, clock) =>
      case OpSelectTriedCollision(draw) =>
        SelectConsistent(e, s, draw);
    }
  }

  /** The state that a sequence of operations reaches from the empty manager. Every one of
      them keeps the whole `Check_` invariant. */
  ghost function Run(e: Env, ops: seq<Op>): (s: State)
    requires forall i | 0 <= i < |ops| :: Timely(ops[i])
    ensures Consistent(e, s)
    decreases |ops|
  {
    if ops == [] then
      InitConsistent(e);
      Init()
    else
      var s0 := Run(e, ops[..|ops| - 1]);
      ApplyConsistent(e, s0, ops[|ops| - 1]);
      Apply(e, s0, ops[|ops| - 1])
  }

  // ---------- What no operation undoes ----------

  /** Ids are never reused, surviving entries keep their address, and an occupied tried slot
      stays occupied. */
  ghost predicate Grows(s: State, s': State) {
    && s.nIdCount <= s'.nIdCount
    && (forall id | id in s'.mapInfo && id < s.nIdCount :: id in s.mapInfo && s'.mapInfo[id].svc == s.mapInfo[id].svc)
    && (forall ks | ks in s.tried && s.tried[ks] != EMPTY :: ks in s'.tried && s'.tried[ks] != EMPTY)
  }

  lemma GrowsRefl(s: State)
    ensures Grows(s, s)
  {
  }

  lemma GrowsTrans(s: State, s1: State, s2: State)
    requires Grows(s, s1) && Grows(s1, s2)
    ensures Grows(s, s2)
  {
  }

  lemma SetInfoGrows(s: State, id: int, info: Info)
    requires id in s.mapInfo && info.svc == s.mapInfo[id].svc
    ensures Grows(s, SetInfo(s, id, info))
  {
  }

  lemma GoodGrows(e: Env, s: State, svc: Service, testBeforeEvict: bool, time: int)
    requires Consistent(e, s) && Safe(s) && 0 < time
    ensures Grows(s, Good(e, s, svc, testBeforeEvict, time))
  {
    hide Core, Loose, Counts, Collisions, Safe, MakeTried;
    FindFacts(e, s, svc.net);
    LastGoodConsistent(e, s, time);
    if Find(s, svc.net).Some? && s.mapInfo[Find(s, svc.net).value].svc == svc {
      var id := Find(s, svc.net).value;
      var s0 := s.(nLastGood := time);
      SetInfoConsistent(e, s0, id, Succeeded(s.mapInfo[id], time));
      SetInfoSafe(s0, id, Succeeded(s.mapInfo[id], time));
      SetInfoGrows(s0, id, Succeeded(s.mapInfo[id], time));
      if !s.mapInfo[id].inTried {
        GoodNewGrows(e, s, id, testBeforeEvict, time);
      }
    }
  }

  lemma GoodNewGrows(e: Env, s: State, id: int, testBeforeEvict: bool, time: int)
    requires Safe(s) && id in s.mapInfo && !s.mapInfo[id].inTried && 0 < time
    requires Find(s, s.mapInfo[id].svc.net) == Some(id)
    requires var s1 := SetInfo(s.(nLastGood := time), id, Succeeded(s.mapInfo[id], time)); Consistent(e, s1) && Safe(s1)
    ensures Grows(s, Good(e, s, s.mapInfo[id].svc, testBeforeEvict, time))
  {
    hide Consistent, Safe, MakeTried, Slots, Promoted;
    var svc := s.mapInfo[id].svc;
    var s1 := SetInfo(s.(nLastGood := time), id, Succeeded(s.mapInfo[id], time));
    SlotFacts(e, s, svc);
    NewEntryHasSlot(e, s1, id);
    SetInfoGrows(s, id, Succeeded(s.mapInfo[id], time));
    assert Grows(s, s1);
    if !(testBeforeEvict && s.tried[TriedSlot(e, svc)] != EMPTY) {
      MakeTriedConsistent(e, s1, id);
      RearrangedGrows(s1, MakeTried(e, s1, id));
      GrowsTrans(s, s1, MakeTried(e, s1, id));
    }
  }

  lemma RearrangedGrows(s: State, s': State)
    requires Rearranged(s, s')
    ensures Grows(s, s')
  {
  }

  lemma PlaceSlot(e: Env, s: State, id: int, us: Slot)
    requires ConsistentBut(e, s, id) && us in Grid(NEW_BUCKET_COUNT)
    ensures Index(s) && us in s.new_ && (s.new_[us] != EMPTY ==> s.new_[us] in s.mapInfo)
  {
  }

  lemma PlaceGrows(e: Env, s: State, id: int, source: NetAddr, now: int)
    requires ConsistentBut(e, s, id) && Safe(s)
    requires id in s.mapInfo && !s.mapInfo[id].inTried && s.mapInfo[id].refCount < NEW_BUCKETS_PER_ADDRESS
    ensures Grows(s, Place(e, s, id, source, now)) && Place(e, s, id, source, now).collisions == s.collisions
  {
    hide ConsistentBut, Safe, Index, IsTerrible;
    var us := NewSlot(e, s.mapInfo[id].svc, source);
    PlaceSlot(e, s, id, us);
    if s.new_[us] != id {
      if MayInsert(s, id, us, now) {
        PlaceInserts(e, s, id, us);
        AddRefRearranges(s, ClearNew(s, us), id, us);
      } else if s.mapInfo[id].refCount == 0 {
        DeleteIndex(s, id);
      }
    }
  }

  lemma AddKnownGrows(e: Env, s: State, id: int, addr: Address, source: NetAddr, p: int, now: int, later: int, rnd: nat)
    requires Consistent(e, s) && id in s.mapInfo
    ensures var info := Refreshed(s.mapInfo[id], addr, p, now);
            && Safe(SetInfo(s, id, info)) && Grows(s, SetInfo(s, id, info))
            && (Accepts(info, addr, rnd) ==> Grows(s, Place(e, SetInfo(s, id, info), id, source, later)))
  {
    var info := Refreshed(s.mapInfo[id], addr, p, now);
    var s1 := SetInfo(s, id, info);
    FindFacts(e, s, addr.svc.net);
    SetInfoConsistent(e, s, id, info);
    CoreSafe(e, s1);
    SetInfoGrows(s, id, info);
    assert ConsistentBut(e, s1, id);
    hide Consistent, ConsistentBut, Safe;
    if Accepts(info, addr, rnd) {
      PlaceGrows(e, s1, id, source, later);
      GrowsTrans(s, s1, Place(e, s1, id, source, later));
    }
  }

  lemma EnrolledGrows(e: Env, s: State, addr: Address, source: NetAddr, penalty: int)
    ensures Grows(s, Enrolled(s, addr, source, penalty))
  {
  }

  lemma AddGrows(e: Env, s: State, addr: Address, source: NetAddr, penalty: int, now: int, later: int, rnd: nat)
    requires Consistent(e, s) && Safe(s)
    ensures Grows(s, Add(e, s, addr, source, penalty, now, later, rnd).0)
  {
    hide Core, Loose, Counts, Collisions, Safe, Place, Grows;
    GrowsRefl(s);
    var p := if addr.svc.net == source then 0 else penalty;
    FindFacts(e, s, addr.svc.net);
    if e.routable(addr.svc.net) {
      if Find(s, addr.svc.net).Some? {
        AddKnownGrows(e, s, Find(s, addr.svc.net).value, addr, source, p, now, later, rnd);
      } else {
        var s1 := Enrolled(s, addr, source, p);
        EnrolledConsistent(e, s, addr, source, p);
        CoreSafe(e, s1);
        EnrolledGrows(e, s, addr, source, p);
        PlaceGrows(e, s1, s.nIdCount, source, later);
        GrowsTrans(s, s1, Place(e, s1, s.nIdCount, source, later));
      }
    }
  }

  lemma ResolveGrows(e: Env, s: State, id: int, adjusted: int, clock: (int, nat) -> int)
    requires Consistent(e, s) && Safe(s) && 0 < adjusted && 0 < clock(id, 1)
    ensures Grows(s, Resolve(e, s, id, adjusted, clock))
  {
    match Judge(e, s, id, adjusted, clock) {
      case Replace(time) =>
        GoodGrows(e, s, s.mapInfo[id].svc, false, time);
        hide Consistent, Safe, Good;
      case _ =>
    }
  }

  lemma {:induction false} ResolveAllGrows(e: Env, s: State, rest: set<int>, adjusted: int, clock: (int, nat) -> int)
    requires Consistent(e, s) && Safe(s) && 0 < adjusted && (forall i, k :: 0 < clock(i, k))
    ensures Grows(s, ResolveAll(e, s, rest, adjusted, clock))
    decreases |rest|
  {
    hide Consistent, Safe, Resolve;
    if rest != {} {
      var id := MinOf(rest);
      ResolveConsistent(e, s, id, adjusted, clock);
      ResolveGrows(e, s, id, adjusted, clock);
      var s1 := Resolve(e, s, id, adjusted, clock);
      ResolveAllGrows(e, s1, rest - {id}, adjusted, clock);
      GrowsTrans(s, s1, ResolveAll(e, s1, rest - {id}, adjusted, clock));
    }
  }

  lemma ReorderedGrows(s: State, s': State)
    requires Reordered(s, s')
    ensures Grows(s, s')
  {
    assert forall id | id in s.mapInfo :: SameEntry(s.mapInfo[id], s'.mapInfo[id]);
  }

  lemma BookkeepingGrows(e: Env, s: State, op: Op)
    requires Consistent(e, s) && Timely(op) && (op.OpAttempt? || op.OpConnected? || op.OpSetServices?)
    ensures Grows(s, Apply(e, s, op))
  {
    hide Consistent;
    if op.OpAttempt? && Find(s, op.svc.net).Some? {
      var id := Find(s, op.svc.net).value;
      SetInfoGrows(s, id, Attempted(s.mapInfo[id], op.countFailure, s.nLastGood, op.time));
    }
  }

  lemma ApplyGrows(e: Env, s: State, op: Op)
    requires Consistent(e, s) && Timely(op)
    ensures Grows(s, Apply(e, s, op))
  {
    CoreSafe(e, s);
    assert Index(s);
    hide Consistent, Safe, Index;
    match op {
      case OpAdd(addr, source, penalty, now, later, rnd) => AddGrows(e, s, addr, source, penalty, now, later, rnd);
      case OpGood(svc, test, time) => GoodGrows(e, s, svc, test, time);
      case OpResolveCollisions(adjusted, clock) => ResolveAllGrows(e, s, s.collisions, adjusted, clock);
      case OpSelectTriedCollision(draw) => SelectConsistent(e, s, draw);
      case OpGetAddr(maxAddresses, maxPct, rnds, clocks) =>
        ReorderedGrows(s, Sample(s, 0, [], SampleCap(|s.vRandom|, maxAddresses, maxPct), rnds, clocks).0);
      case _ => BookkeepingGrows(e, s, op);
    }
  }

  /** Over a whole run, what a prefix has established stays: see `Grows`. */
  lemma {:induction false} RunsGrow(e: Env, ops: seq<Op>, k: nat)
    requires k <= |ops| && forall i | 0 <= i < |ops| :: Timely(ops[i])
    ensures Grows(Run(e, ops[..k]), Run(e, ops))
    decreases |ops| - k
  {
    hide Consistent, Timely;
    if k == |ops| {
      assert ops[..k] == ops;
    } else {
      var s := Run(e, ops[..k]);
      assert ops[..k + 1][..k] == ops[..k];
      ApplyGrows(e, s, ops[k]);
      RunsGrow(e, ops, k + 1);
      GrowsTrans(s, Run(e, ops[..k + 1]), Run(e, ops));
    }
  }
}
