/** The public operations of the address manager as functions of its state, and what eviction and
    promotion keep of it. */
module AddrManOps {
  import Bits
  import opened Common
  import opened AddrManSpec
  import opened AddrManSteps

  // ---------- Safety of the intermediate states ----------

  lemma CoreSafe(e: Env, s: State)
    requires Core(e, s)
    ensures Safe(s)
  {
  }

  lemma SetInfoSafe(s: State, id: int, info: Info)
    requires Safe(s) && id in s.mapInfo
    requires info.svc == s.mapInfo[id].svc && info.randomPos == s.mapInfo[id].randomPos
    ensures Safe(SetInfo(s, id, info))
  {
    SetInfoIndex(s, id, info);
    assert SetInfo(s, id, info).mapInfo.Keys == s.mapInfo.Keys;
  }

  lemma CreateIndex(s: State, addr: Address, source: NetAddr)
    requires Index(s) && addr.svc.net !in s.mapAddr
    ensures Index(Create(s, addr, source))
  {
    var s' := Create(s, addr, source);
    assert RandomIndex(s'.mapInfo, s'.vRandom);
    assert AddrIndex(s'.mapInfo, s'.mapAddr);
  }

  lemma CreateSafe(s: State, addr: Address, source: NetAddr)
    requires Safe(s) && addr.svc.net !in s.mapAddr
    ensures Safe(Create(s, addr, source))
  {
    CreateIndex(s, addr, source);
  }

  // ---------- The operations ----------

  function Succeeded(info: Info, time: int): Info {
    info.(lastSuccess := time, lastTry := time, attempts := 0)
  }

  /** src/addrman.cpp:220-296 */
  ghost function Good(e: Env, s: State, svc: Service, testBeforeEvict: bool, time: int): State
    requires Safe(s)
  {
    var s0 := s.(nLastGood := time);
    match Find(s, svc.net)
    case None => s0
    case Some(id) =>
      if s.mapInfo[id].svc != svc then s0
      else
        var s1 := SetInfo(s0, id, Succeeded(s.mapInfo[id], time));
        assert Safe(s1) by { SetInfoSafe(s0, id, Succeeded(s.mapInfo[id], time)); }
        if s.mapInfo[id].inTried then s1
        else if Slots(s.new_, id) == {} then s1
        else if testBeforeEvict && s.tried[TriedSlot(e, svc)] != EMPTY then
          if |s.collisions| < SET_TRIED_COLLISION_SIZE then s1.(collisions := s.collisions + {id}) else s1
        else MakeTried(e, s1, id)
  }

  /** Put an entry into the slot that a source selects, if the occupant may go (src/addrman.cpp:359-378). */
  ghost function Place(e: Env, s: State, id: int, source: NetAddr, now: int): State
    requires Safe(s) && id in s.mapInfo
  {
    var us := NewSlot(e, s.mapInfo[id].svc, source);
    if s.new_[us] == id then s
    else if MayInsert(s, id, us, now) then
      var s1 := ClearNew(s, us);
      if id in s1.mapInfo then AddRef(s1, id, us) else s1
    else if s.mapInfo[id].refCount == 0 then Delete(s, id)
    else s
  }

  ghost predicate MayInsert(s: State, id: int, us: Slot, now: int)
    requires Safe(s) && id in s.mapInfo && us in s.new_
  {
    || s.new_[us] == EMPTY
    || IsTerrible(s.mapInfo[s.new_[us]], now)
    || (s.mapInfo[s.new_[us]].refCount > 1 && s.mapInfo[id].refCount == 0)
  }

  /** The announcement of a known address refreshes its time and services (src/addrman.cpp:314-324). */
  function Refreshed(info: Info, addr: Address, penalty: int, now: int): Info {
    var interval := if now - addr.time < 24 * 60 * 60 then 60 * 60 else 24 * 60 * 60;
    var time := if addr.time != 0 && (info.time == 0 || info.time < addr.time - interval - penalty)
                then Truncated(Max(0, addr.time - penalty)) else info.time;
    info.(time := time, services := info.services + addr.services)
  }

  function Doublings(n: int): nat {
    if n <= 0 then 1 else Bits.Pow2(n)
  }

  /** Whether an announcement of a known address earns it another reference (src/addrman.cpp:326-350). */
  predicate Accepts(info: Info, addr: Address, rnd: nat) {
    && addr.time != 0 && (info.time == 0 || addr.time > info.time)
    && !info.inTried
    && info.refCount != NEW_BUCKETS_PER_ADDRESS
    && !(Doublings(info.refCount) > 1 && rnd % Doublings(info.refCount) != 0)
  }

  /** src/addrman.cpp:298-380 */
  ghost function Add(e: Env, s: State, addr: Address, source: NetAddr, penalty: int,
                     now: int, later: int, rnd: nat): (State, bool)
    requires Safe(s)
  {
    var p := if addr.svc.net == source then 0 else penalty;
    if !e.routable(addr.svc.net) then (s, false)
    else
      match Find(s, addr.svc.net)
      case Some(id) =>
        var info := Refreshed(s.mapInfo[id], addr, p, now);
        var s1 := SetInfo(s, id, info);
        assert Safe(s1) by { SetInfoSafe(s, id, info); }
        if Accepts(info, addr, rnd) then (Place(e, s1, id, source, later), false) else (s1, false)
      case None =>
        assert addr.svc.net !in s.mapAddr;
        assert Safe(Create(s, addr, source)) by { CreateSafe(s, addr, source); }
        var s1 := Enrolled(s, addr, source, p);
        assert Safe(s1) by {
          SetInfoSafe(Create(s, addr, source), s.nIdCount, s1.mapInfo[s.nIdCount]);
        }
        (Place(e, s1, s.nIdCount, source, later), true)
  }

  /** A fresh entry, counted but in no bucket yet (src/addrman.cpp:352-355). */
  function Enrolled(s: State, addr: Address, source: NetAddr, penalty: int): State {
    var s1 := Create(s, addr, source);
    var info := s1.mapInfo[s.nIdCount];
    SetInfo(s1, s.nIdCount, info.(time := Truncated(Max(0, info.time - penalty)))).(nNew := s.nNew + 1)
  }

  function Attempted(info: Info, countFailure: bool, lastGood: int, time: int): Info {
    if countFailure && info.lastCountAttempt < lastGood
    then info.(lastTry := time, lastCountAttempt := time, attempts := info.attempts + 1)
    else info.(lastTry := time)
  }

  /** src/addrman.cpp:382-405 */
  function Attempt(s: State, svc: Service, countFailure: bool, time: int): State {
    match Find(s, svc.net)
    case None => s
    case Some(id) =>
      if s.mapInfo[id].svc != svc then s
      else SetInfo(s, id, Attempted(s.mapInfo[id], countFailure, s.nLastGood, time))
  }

  /** src/addrman.cpp:594-615 */
  function Connected(s: State, svc: Service, time: int): State {
    match Find(s, svc.net)
    case None => s
    case Some(id) =>
      var info := s.mapInfo[id];
      if info.svc == svc && time - info.time > 20 * 60 then SetInfo(s, id, info.(time := Truncated(time))) else s
  }

  /** src/addrman.cpp:617-635 */
  function SetServices(s: State, svc: Service, services: set<nat>): State {
    match Find(s, svc.net)
    case None => s
    case Some(id) =>
      if s.mapInfo[id].svc == svc then SetInfo(s, id, s.mapInfo[id].(services := services)) else s
  }

  // ---------- What moving entries between the tables keeps ----------

  /** Two infos of the same address with the same history. */
  ghost predicate SameHistory(a: Info, b: Info) {
    && a.svc == b.svc && a.services == b.services && a.time == b.time && a.source == b.source
    && a.lastTry == b.lastTry && a.lastCountAttempt == b.lastCountAttempt
    && a.lastSuccess == b.lastSuccess && a.attempts == b.attempts
  }

  /** Entries keep their history, and an occupied tried slot stays occupied. */
  ghost predicate Rearranged(s: State, s': State) {
    && s'.nIdCount == s.nIdCount && s'.collisions == s.collisions && s'.nLastGood == s.nLastGood
    && (forall id | id in s'.mapInfo :: id in s.mapInfo && SameHistory(s.mapInfo[id], s'.mapInfo[id]))
    && (forall ks | ks in s.tried && s.tried[ks] != EMPTY :: ks in s'.tried && s'.tried[ks] != EMPTY)
  }

  lemma RearrangedCollisions(e: Env, s: State, s': State)
    requires Rearranged(s, s') && Collisions(e, s)
    ensures Collisions(e, s')
  {
  }

  /** An evicted entry comes back as a new entry with one reference, at its own source's slot. */
  ghost predicate Evicted(e: Env, s: State, s': State, ks: Slot)
    requires ks in s.tried && s.tried[ks] in s.mapInfo
  {
    var id := s.tried[ks];
    var us := NewSlot(e, s.mapInfo[id].svc, s.mapInfo[id].source);
    && s'.tried == s.tried[ks := EMPTY]
    && us in s.new_ && s'.new_ == s.new_[us := id]
    && s'.nIdCount == s.nIdCount && s'.collisions == s.collisions && s'.nLastGood == s.nLastGood
    && s'.nTried == s.nTried - 1
    && id in s'.mapInfo && !s'.mapInfo[id].inTried && s'.mapInfo[id].refCount == 1
    && (forall x | x in s'.mapInfo :: x in s.mapInfo && SameHistory(s.mapInfo[x], s'.mapInfo[x]))
    && (forall x | x in s'.mapInfo && x != id && x != s.new_[us] :: SameEntry(s.mapInfo[x], s'.mapInfo[x]))
    && (forall x | x in s.mapInfo && x !in s'.mapInfo :: x == s.new_[us] && s.mapInfo[x].refCount == 1)
  }

  lemma EvictEffect(e: Env, s: State, ks: Slot, s1: State, s2: State, s3: State)
    requires ks in s.tried && s.tried[ks] in s.mapInfo
    requires s.mapInfo[s.tried[ks]].refCount == 0
    requires s.new_.Keys == Grid(NEW_BUCKET_COUNT)
    requires s1 == LeaveTried(s, ks)
    requires var id := s.tried[ks];
             var us := NewSlot(e, s.mapInfo[id].svc, s.mapInfo[id].source);
             && Cleared(s1, s2, us) && id in s2.mapInfo && s.new_[us] != id && s3 == EnterNew(s2, id, us)
    ensures Evicted(e, s, s3, ks)
  {
    var id := s.tried[ks];
    var us := NewSlot(e, s.mapInfo[id].svc, s.mapInfo[id].source);
    assert s3.mapInfo.Keys == s2.mapInfo.Keys;
    assert s3.new_ == s.new_[us := EMPTY][us := id] == s.new_[us := id];
    assert SameEntry(s1.mapInfo[id], s2.mapInfo[id]);
    forall x | x in s3.mapInfo && x != id
      ensures x in s.mapInfo && SameHistory(s.mapInfo[x], s3.mapInfo[x])
      ensures x != s.new_[us] ==> SameEntry(s.mapInfo[x], s3.mapInfo[x])
    {
      assert s3.mapInfo[x] == s2.mapInfo[x] && x in s1.mapInfo && s1.mapInfo[x] == s.mapInfo[x];
    }
  }

  lemma EvictCore(e: Env, s: State, ks: Slot, dNew: int, dTried: int)
    requires Core(e, s) && Safe(s) && Counts(s, dNew, dTried)
    requires ks in s.tried && s.tried[ks] != EMPTY
    ensures Core(e, Evict(e, s, ks)) && Counts(Evict(e, s, ks), dNew, dTried)
    ensures Loose(Evict(e, s, ks).mapInfo) == Loose(s.mapInfo) - {s.tried[ks]}
    ensures Evicted(e, s, Evict(e, s, ks), ks)
  {
    hide Core, Safe, Index, NewIds, TriedIds, ClearNew;
    OccupantFacts(e, s, ks);
    var id := s.tried[ks];
    var us := NewSlot(e, s.mapInfo[id].svc, s.mapInfo[id].source);
    var s1 := LeaveTried(s, ks);
    LeaveTriedCore(e, s, ks, dNew, dTried);
    LooseHasNoRefs(e, s1, id);
    CoreNewSlot(e, s1, us);
    assert id in Loose(s1.mapInfo);
    ClearNewCore(e, s1, us, dNew - 1, dTried);
    var s2 := ClearNew(s1, us);
    assert id in s2.mapInfo && SameEntry(s1.mapInfo[id], s2.mapInfo[id]);
    assert id in Loose(s2.mapInfo);
    EnterNewCore(e, s2, id, us, dNew - 1, dTried);
    EvictEffect(e, s, ks, s1, s2, EnterNew(s2, id, us));
  }

  /** The entry takes its tried slot and leaves every new bucket; a former occupant of the
      slot gets one new reference, at the cost of at most one reference of a third entry. */
  ghost predicate Promoted(e: Env, s: State, s': State, id: int)
    requires id in s.mapInfo
  {
    var ks := TriedSlot(e, s.mapInfo[id].svc);
    && ks in s.tried && s'.tried == s.tried[ks := id]
    && id in s'.mapInfo && s'.mapInfo[id].inTried && s'.mapInfo[id].refCount == 0
    && (forall x | x in s'.mapInfo :: x in s.mapInfo && SameHistory(s.mapInfo[x], s'.mapInfo[x]))
    && s'.nIdCount == s.nIdCount && s'.collisions == s.collisions && s'.nLastGood == s.nLastGood
    && var old_ := s.tried[ks];
    if old_ == EMPTY then
      && s'.new_ == Without(s.new_, id)
      && s'.mapInfo.Keys == s.mapInfo.Keys
      && (forall x | x in s'.mapInfo && x != id :: SameEntry(s.mapInfo[x], s'.mapInfo[x]))
    else
      && old_ in s'.mapInfo && !s'.mapInfo[old_].inTried && s'.mapInfo[old_].refCount == 1
      && var us := NewSlot(e, s'.mapInfo[old_].svc, s'.mapInfo[old_].source);
      && us in s.new_ && s'.new_ == Without(s.new_, id)[us := old_]
      && (forall x | x in s'.mapInfo && x != id && x != old_ && x != s.new_[us] ::
            SameEntry(s.mapInfo[x], s'.mapInfo[x]))
      && (forall x | x in s.mapInfo && x !in s'.mapInfo :: x == s.new_[us] && x != id && s.mapInfo[x].refCount == 1)
  }

  lemma PromotedByEviction(e: Env, s: State, id: int, s1: State, s2: State, s3: State)
    requires id in s.mapInfo && s1 == LeaveNew(s, id)
    requires var ks := TriedSlot(e, s.mapInfo[id].svc);
             && ks in s1.tried && s1.tried[ks] in s1.mapInfo && s1.tried[ks] != id && s1.tried[ks] != EMPTY
             && Evicted(e, s1, s2, ks) && id in s2.mapInfo && s3 == EnterTried(s2, id, ks)
    requires EMPTY !in s.mapInfo && s2.mapInfo[id].refCount == 0
    ensures Promoted(e, s, s3, id)
  {
    var ks := TriedSlot(e, s.mapInfo[id].svc);
    var old_ := s.tried[ks];
    var us := NewSlot(e, s.mapInfo[old_].svc, s.mapInfo[old_].source);
    assert s1.mapInfo.Keys == s.mapInfo.Keys && s3.mapInfo.Keys == s2.mapInfo.Keys;
    assert s1.mapInfo[old_] == s.mapInfo[old_];
    assert s1.new_ == Without(s.new_, id);
    assert s3.tried == s.tried[ks := EMPTY][ks := id] == s.tried[ks := id];
    forall x | x in s3.mapInfo
      ensures x in s.mapInfo && SameHistory(s.mapInfo[x], s3.mapInfo[x])
    {
      assert SameHistory(s1.mapInfo[x], s2.mapInfo[x]);
    }
    forall x | x in s3.mapInfo && x != id && x != old_ && x != s.new_[us]
      ensures SameEntry(s.mapInfo[x], s3.mapInfo[x])
    {
      assert s1.new_[us] != x;
      assert SameEntry(s1.mapInfo[x], s2.mapInfo[x]);
    }
    forall x | x in s.mapInfo && x !in s3.mapInfo
      ensures x == s.new_[us] && x != id && s.mapInfo[x].refCount == 1
    {
      assert x == s1.new_[us];
    }
  }

  lemma PromotedDirectly(e: Env, s: State, id: int, s1: State, s3: State)
    requires id in s.mapInfo && s1 == LeaveNew(s, id)
    requires var ks := TriedSlot(e, s.mapInfo[id].svc);
             ks in s.tried && s.tried[ks] == EMPTY && s3 == EnterTried(s1, id, ks)
    ensures Promoted(e, s, s3, id)
  {
    assert s3.mapInfo.Keys == s.mapInfo.Keys;
    assert s1.new_ == Without(s.new_, id);
  }

  lemma OccupantFacts(e: Env, s: State, ks: Slot)
    requires Core(e, s) && ks in s.tried && s.tried[ks] != EMPTY
    ensures s.tried[ks] in s.mapInfo && s.mapInfo[s.tried[ks]].inTried
    ensures EMPTY !in s.mapInfo
    ensures s.new_.Keys == Grid(NEW_BUCKET_COUNT)
    ensures s.tried[ks] !in Loose(s.mapInfo)
  {
  }

  /** Evict the occupant of an entry's tried slot and let the entry take the slot. */
  lemma EvictThenEnter(e: Env, s: State, id: int, ks: Slot, dNew: int, dTried: int)
    requires Core(e, s) && Safe(s) && Counts(s, dNew, dTried)
    requires id in Loose(s.mapInfo) && 0 < s.mapInfo[id].lastSuccess
    requires ks == TriedSlot(e, s.mapInfo[id].svc) && ks in s.tried && s.tried[ks] != EMPTY
    ensures s.tried[ks] in s.mapInfo && s.tried[ks] != id && Evicted(e, s, Evict(e, s, ks), ks)
    ensures id in Evict(e, s, ks).mapInfo && Evict(e, s, ks).mapInfo[id].refCount == 0
    ensures Core(e, EnterTried(Evict(e, s, ks), id, ks))
    ensures Counts(EnterTried(Evict(e, s, ks), id, ks), dNew + 1, dTried)
    ensures Loose(EnterTried(Evict(e, s, ks), id, ks).mapInfo) == Loose(s.mapInfo) - {id}
  {
    hide Core, Safe, Counts, Evict;
    OccupantFacts(e, s, ks);
    LooseHasNoRefs(e, s, id);
    EvictCore(e, s, ks, dNew, dTried);
    var s2 := Evict(e, s, ks);
    assert id in s2.mapInfo && SameEntry(s.mapInfo[id], s2.mapInfo[id]);
    assert id in Loose(s2.mapInfo);
    EnterTriedCore(e, s2, id, dNew, dTried);
    assert Loose(s.mapInfo) - {s.tried[ks]} == Loose(s.mapInfo);
  }

  lemma SlotFacts(e: Env, s: State, svc: Service)
    requires Safe(s)
    ensures TriedSlot(e, svc) in s.tried && EMPTY !in s.mapInfo
  {
  }

  /** src/addrman.cpp:172-218: with everything else consistent, the entry moves to tried. */
  lemma MakeTriedCore(e: Env, s: State, id: int)
    requires Core(e, s) && Safe(s) && Loose(s.mapInfo) == {} && Counts(s, 0, 0)
    requires id in s.mapInfo && !s.mapInfo[id].inTried && 0 < s.mapInfo[id].lastSuccess
    ensures Core(e, MakeTried(e, s, id)) && Counts(MakeTried(e, s, id), 0, 0)
    ensures Loose(MakeTried(e, s, id).mapInfo) == {}
    ensures Promoted(e, s, MakeTried(e, s, id), id)
  {
    hide Core, Safe, Counts, Promoted, EnterTried, Evict, Evicted;
    var ks := TriedSlot(e, s.mapInfo[id].svc);
    var s1 := LeaveNew(s, id);
    LeaveNewCore(e, s, id, 0, 0);
    CoreSafe(e, s1);
    SlotFacts(e, s, s.mapInfo[id].svc);
    if s1.tried[ks] != EMPTY {
      EvictThenEnter(e, s1, id, ks, -1, 0);
      PromotedByEviction(e, s, id, s1, Evict(e, s1, ks), EnterTried(Evict(e, s1, ks), id, ks));
    } else {
      EnterTriedCore(e, s1, id, -1, 0);
      PromotedDirectly(e, s, id, s1, EnterTried(s1, id, ks));
    }
  }
}
