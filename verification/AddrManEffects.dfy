/** What the operations of the address manager do, said of its tables and entries alone. */
module AddrManEffects {
  import Bits
  import opened Common
  import opened AddrManSpec
  import opened AddrManSteps
  import opened AddrManOps
  import opened AddrManRuns

  // ---------- Entries ----------

  /** An entry is worth nothing when it was not tried within the last minute and has a time of more than
      ten minutes ahead, none, or one of more than thirty days ago, or failed three times without ever
      succeeding, or ten times in more than a week. */
  lemma TerribleIs(info: Info, now: int)
    ensures IsTerrible(info, now) <==>
            && (info.lastTry == 0 || now - info.lastTry > 60)
            && (|| info.time == 0 || info.time - now > 600 || now - info.time > 2592000
                || (info.attempts >= 3 && info.lastSuccess == 0)
                || (info.attempts >= 10 && now - info.lastSuccess > 604800))
  {
  }

  /** Which entry the address is known by, port included. */
  ghost predicate Knows(s: State, svc: Service, id: int) {
    svc.net in s.mapAddr && s.mapAddr[svc.net] == id && id in s.mapInfo && s.mapInfo[id].svc == svc
  }

  ghost predicate Unknown(s: State, svc: Service) {
    svc.net !in s.mapAddr || (s.mapAddr[svc.net] in s.mapInfo && s.mapInfo[s.mapAddr[svc.net]].svc != svc)
  }

  /** One entry may differ; its address, its places in the tables and all else are the same. */
  ghost predicate OnlyEntry(s: State, s': State, id: int) {
    && s' == s.(mapInfo := s'.mapInfo) && id in s.mapInfo && s'.mapInfo.Keys == s.mapInfo.Keys
    && (forall x | x in s.mapInfo && x != id :: s'.mapInfo[x] == s.mapInfo[x])
    && var a, b := s.mapInfo[id], s'.mapInfo[id];
    && b.svc == a.svc && b.source == a.source && b.refCount == a.refCount
    && b.inTried == a.inTried && b.randomPos == a.randomPos
  }

  /** src/addrman.cpp:382-405: the time of the attempt is noted; it counts as a failure once per time
      that some address was good. */
  lemma AttemptEffect(e: Env, s: State, svc: Service, countFailure: bool, time: int, id: int)
    requires Consistent(e, s)
    ensures Unknown(s, svc) ==> Attempt(s, svc, countFailure, time) == s
    ensures Knows(s, svc, id) ==>
              var s' := Attempt(s, svc, countFailure, time);
              && OnlyEntry(s, s', id)
              && var a, b := s.mapInfo[id], s'.mapInfo[id];
              && b.lastTry == time && b.lastSuccess == a.lastSuccess && b.time == a.time && b.services == a.services
              && if countFailure && a.lastCountAttempt < s.nLastGood
                 then b.attempts == a.attempts + 1 && b.lastCountAttempt == time
                 else b.attempts == a.attempts && b.lastCountAttempt == a.lastCountAttempt
  {
    hide Consistent;
  }

  /** src/addrman.cpp:594-615: a connection moves the time when that is more than twenty minutes old. */
  lemma ConnectedEffect(e: Env, s: State, svc: Service, time: int, id: int)
    requires Consistent(e, s)
    ensures Unknown(s, svc) ==> Connected(s, svc, time) == s
    ensures Knows(s, svc, id) ==>
              var s' := Connected(s, svc, time);
              && OnlyEntry(s, s', id)
              && var a, b := s.mapInfo[id], s'.mapInfo[id];
              && b == a.(time := b.time)
              && b.time == if time - a.time > 1200 then time % 0x1_0000_0000 else a.time
  {
    hide Consistent;
  }

  /** src/addrman.cpp:617-635 */
  lemma SetServicesEffect(e: Env, s: State, svc: Service, services: set<nat>, id: int)
    requires Consistent(e, s)
    ensures Unknown(s, svc) ==> SetServices(s, svc, services) == s
    ensures Knows(s, svc, id) ==>
              var s' := SetServices(s, svc, services);
              OnlyEntry(s, s', id) && s'.mapInfo[id] == s.mapInfo[id].(services := services)
  {
    hide Consistent;
  }

  // ---------- Good ----------

  /** The entry has just been reached: all else about it is as before. */
  ghost predicate Reached(a: Info, b: Info, time: int) {
    && b.lastSuccess == time && b.lastTry == time && b.attempts == 0
    && b.svc == a.svc && b.services == a.services && b.time == a.time && b.source == a.source
    && b.lastCountAttempt == a.lastCountAttempt
  }

  /** The entry has moved from its new buckets to its tried slot; whoever was there has moved to the new
      slot of its own source, which may have cost a third entry its place there. */
  ghost predicate MovedToTried(e: Env, s: State, s': State, id: int)
    requires id in s.mapInfo
  {
    var ks := TriedSlot(e, s.mapInfo[id].svc);
    && ks in s.tried && s'.tried == s.tried[ks := id]
    && id in s'.mapInfo && s'.mapInfo[id].inTried && s'.mapInfo[id].refCount == 0
    && s'.new_.Keys == s.new_.Keys
    && var old_ := s.tried[ks];
    if old_ == EMPTY then
      && (forall sl | sl in s.new_ :: s'.new_[sl] == if s.new_[sl] == id then EMPTY else s.new_[sl])
      && s'.mapInfo.Keys == s.mapInfo.Keys
    else
      && old_ in s.mapInfo && old_ in s'.mapInfo && !s'.mapInfo[old_].inTried && s'.mapInfo[old_].refCount == 1
      && var us := NewSlot(e, s.mapInfo[old_].svc, s.mapInfo[old_].source);
      && us in s.new_ && s'.new_[us] == old_
      && (forall sl | sl in s.new_ && sl != us :: s'.new_[sl] == if s.new_[sl] == id then EMPTY else s.new_[sl])
      && (forall x | x in s.mapInfo && x !in s'.mapInfo :: x == s.new_[us] && s.mapInfo[x].refCount == 1)
  }

  /** src/addrman.cpp:220-296: the entry is marked; a new one moves to its tried slot when that is free or
      need not be tested first, and otherwise waits as a pending collision, if fewer than ten do. */
  lemma GoodEffect(e: Env, s: State, svc: Service, testBeforeEvict: bool, time: int, id: int)
    requires Consistent(e, s) && Safe(s) && 0 < time
    ensures Unknown(s, svc) ==> Good(e, s, svc, testBeforeEvict, time) == s.(nLastGood := time)
    ensures Knows(s, svc, id) ==>
              var s' := Good(e, s, svc, testBeforeEvict, time);
              var ks := TriedSlot(e, svc);
              && s'.nLastGood == time && s'.nIdCount == s.nIdCount && ks in s.tried
              && id in s'.mapInfo && Reached(s.mapInfo[id], s'.mapInfo[id], time)
              && (forall x | x in s'.mapInfo && x != id :: x in s.mapInfo && SameHistory(s.mapInfo[x], s'.mapInfo[x]))
              && if !s.mapInfo[id].inTried && (!testBeforeEvict || s.tried[ks] == EMPTY)
                 then MovedToTried(e, s, s', id) && s'.collisions == s.collisions
                 else
                   && s'.tried == s.tried && s'.new_ == s.new_ && s'.mapInfo.Keys == s.mapInfo.Keys
                   && s'.collisions == if !s.mapInfo[id].inTried && |s.collisions| < 10 then s.collisions + {id}
                                       else s.collisions
  {
    hide Consistent, Safe, MakeTried;
    if Knows(s, svc, id) {
      KnownEntry(e, s, svc, id);
      if !s.mapInfo[id].inTried {
        GoodOnNew(e, s, id, testBeforeEvict, time);
      }
    }
  }

  lemma KnownEntry(e: Env, s: State, svc: Service, id: int)
    requires Consistent(e, s) && Safe(s) && Knows(s, svc, id)
    ensures TriedSlot(e, svc) in s.tried && id != EMPTY
  {
  }

  lemma GoodOnNew(e: Env, s: State, id: int, testBeforeEvict: bool, time: int)
    requires Consistent(e, s) && Safe(s) && 0 < time && id in s.mapInfo && !s.mapInfo[id].inTried
    requires Knows(s, s.mapInfo[id].svc, id)
    ensures var svc := s.mapInfo[id].svc;
            var s' := Good(e, s, svc, testBeforeEvict, time);
            && TriedSlot(e, svc) in s.tried
            && s'.nLastGood == time && s'.nIdCount == s.nIdCount
            && id in s'.mapInfo && Reached(s.mapInfo[id], s'.mapInfo[id], time)
            && (forall x | x in s'.mapInfo && x != id :: x in s.mapInfo && SameHistory(s.mapInfo[x], s'.mapInfo[x]))
            && if !testBeforeEvict || s.tried[TriedSlot(e, svc)] == EMPTY
               then MovedToTried(e, s, s', id) && s'.collisions == s.collisions
               else
                 && s'.tried == s.tried && s'.new_ == s.new_ && s'.mapInfo.Keys == s.mapInfo.Keys
                 && s'.collisions == if |s.collisions| < 10 then s.collisions + {id} else s.collisions
  {
    hide Consistent, Safe, MakeTried, Slots, Promoted;
    var svc := s.mapInfo[id].svc;
    var info := Succeeded(s.mapInfo[id], time);
    var s0 := s.(nLastGood := time);
    var s1 := SetInfo(s0, id, info);
    KnownEntry(e, s, svc, id);
    NewEntryHasSlot(e, s, id);
    LastGoodConsistent(e, s, time);
    EntryTimes(e, s, id);
    SetInfoConsistent(e, s0, id, info);
    SetInfoSafe(s0, id, info);
    assert s1.mapInfo.Keys == s.mapInfo.Keys;
    if !testBeforeEvict || s.tried[TriedSlot(e, svc)] == EMPTY {
      MakeTriedConsistent(e, s1, id);
      PromotedMoves(e, s, s1, MakeTried(e, s1, id), id, time);
    }
  }

  lemma EntryTimes(e: Env, s: State, id: int)
    requires Consistent(e, s) && id in s.mapInfo
    ensures 0 <= s.mapInfo[id].lastTry && 0 <= s.mapInfo[id].lastSuccess
  {
  }

  lemma PromotedMoves(e: Env, s: State, s1: State, s': State, id: int, time: int)
    requires id in s.mapInfo && Consistent(e, s)
    requires s1 == SetInfo(s.(nLastGood := time), id, Succeeded(s.mapInfo[id], time)) && !s.mapInfo[id].inTried
    requires Promoted(e, s1, s', id)
    ensures MovedToTried(e, s, s', id) && s'.collisions == s.collisions
    ensures s'.nLastGood == time && s'.nIdCount == s.nIdCount
    ensures Reached(s.mapInfo[id], s'.mapInfo[id], time)
    ensures forall x | x in s'.mapInfo && x != id :: x in s.mapInfo && SameHistory(s.mapInfo[x], s'.mapInfo[x])
  {
    OldOccupant(e, s, id);
    hide Consistent;
    assert s1.mapInfo.Keys == s.mapInfo.Keys;
    HistoriesKept(s, s1, s', id, time);
    PlacesMoved(e, s, s1, s', id);
  }

  lemma HistoriesKept(s: State, s1: State, s': State, id: int, time: int)
    requires id in s.mapInfo && id in s'.mapInfo
    requires s1 == SetInfo(s.(nLastGood := time), id, Succeeded(s.mapInfo[id], time))
    requires forall x | x in s'.mapInfo :: x in s1.mapInfo && SameHistory(s1.mapInfo[x], s'.mapInfo[x])
    ensures Reached(s.mapInfo[id], s'.mapInfo[id], time)
    ensures forall x | x in s'.mapInfo && x != id :: x in s.mapInfo && SameHistory(s.mapInfo[x], s'.mapInfo[x])
  {
    assert s1.mapInfo.Keys == s.mapInfo.Keys;
    assert SameHistory(s1.mapInfo[id], s'.mapInfo[id]);
  }

  lemma PlacesMoved(e: Env, s: State, s1: State, s': State, id: int)
    requires id in s.mapInfo && id in s1.mapInfo && s1.tried == s.tried && s1.new_ == s.new_
    requires s1.mapInfo.Keys == s.mapInfo.Keys && s1.mapInfo[id].svc == s.mapInfo[id].svc
    requires forall x | x in s.mapInfo && x != id :: s1.mapInfo[x] == s.mapInfo[x]
    requires var ks := TriedSlot(e, s.mapInfo[id].svc);
             ks in s.tried && s.tried[ks] != id && (s.tried[ks] != EMPTY ==> s.tried[ks] in s.mapInfo)
    requires Promoted(e, s1, s', id)
    ensures MovedToTried(e, s, s', id)
  {
    var old_ := s.tried[TriedSlot(e, s.mapInfo[id].svc)];
    if old_ != EMPTY {
      assert SameHistory(s1.mapInfo[old_], s'.mapInfo[old_]);
    }
    hide SameHistory, SameEntry, NewSlot, TriedSlot;
  }

  lemma OldOccupant(e: Env, s: State, id: int)
    requires Consistent(e, s) && id in s.mapInfo && !s.mapInfo[id].inTried
    ensures var ks := TriedSlot(e, s.mapInfo[id].svc);
            ks in s.tried && s.tried[ks] != id && (s.tried[ks] != EMPTY ==> s.tried[ks] in s.mapInfo)
  {
  }

  // ---------- Collisions ----------

  /** Whether a waiting entry takes the slot from its holder: the holder has not been reached for four
      hours and either was tried in these four hours, more than a minute ago, or was not, and the entry
      has been waiting for more than forty minutes. */
  ghost predicate Wins(waiting: Info, holder: Info, adjusted: int, now: int) {
    && adjusted - holder.lastSuccess >= 4 * 60 * 60
    && if adjusted - holder.lastTry < 4 * 60 * 60 then now - holder.lastTry > 60
       else now - waiting.lastSuccess > 40 * 60
  }

  /** src/addrman.cpp:640-710, one pending entry. It takes the slot exactly when it wins. Otherwise the
      tables stay, and it stops waiting exactly when the holder was reached within four hours. */
  lemma ResolveEffect(e: Env, s: State, id: int, adjusted: int, clock: (int, nat) -> int)
    requires Consistent(e, s) && Safe(s) && 0 < adjusted && 0 < clock(id, 1)
    requires id in s.collisions && id in s.mapInfo && e.valid(s.mapInfo[id].svc.net) && !s.mapInfo[id].inTried
    ensures var s' := Resolve(e, s, id, adjusted, clock);
            var ks := TriedSlot(e, s.mapInfo[id].svc);
            && ks in s.tried && ks in s'.tried
            && var old_ := s.tried[ks];
            && old_ in s.mapInfo && old_ != id
            && var holder := s.mapInfo[old_];
            var wins := Wins(s.mapInfo[id], holder, adjusted, clock(id, 0));
            && (s'.tried[ks] == id <==> wins)
            && (wins ==>
                  && MovedToTried(e, s, s', id) && Reached(s.mapInfo[id], s'.mapInfo[id], clock(id, 1))
                  && s'.nLastGood == clock(id, 1) && s'.collisions == s.collisions - {id})
            && (!wins ==>
                  s' == s.(collisions := if adjusted - holder.lastSuccess < 4 * 60 * 60 then s.collisions - {id}
                                         else s.collisions))
  {
    hide Consistent, Safe, Good, MovedToTried;
    PendingFacesEntry(e, s, id);
    OldOccupant(e, s, id);
    PendingIsKnown(e, s, id);
    GoodEffect(e, s, s.mapInfo[id].svc, false, clock(id, 1), id);
    MovedTakesSlot(e, s, Good(e, s, s.mapInfo[id].svc, false, clock(id, 1)), id);
    MovedIgnoresPending(e, s, Good(e, s, s.mapInfo[id].svc, false, clock(id, 1)), id);
  }

  lemma PendingIsKnown(e: Env, s: State, id: int)
    requires Consistent(e, s) && id in s.mapInfo
    ensures Knows(s, s.mapInfo[id].svc, id)
  {
  }

  lemma MovedTakesSlot(e: Env, s: State, s': State, id: int)
    requires id in s.mapInfo && MovedToTried(e, s, s', id)
    ensures var ks := TriedSlot(e, s.mapInfo[id].svc); ks in s'.tried && s'.tried[ks] == id && id in s'.mapInfo
  {
  }

  lemma MovedIgnoresPending(e: Env, s: State, s': State, id: int)
    requires id in s.mapInfo && MovedToTried(e, s, s', id)
    ensures MovedToTried(e, s, s'.(collisions := s'.collisions - {id}), id)
  {
  }

  /** A pending id without an entry, or with one whose address is not valid, is only taken off; an entry
      that has got its slot in the meantime stays where it is. */
  lemma ResolveOther(e: Env, s: State, id: int, adjusted: int, clock: (int, nat) -> int)
    requires Consistent(e, s) && Safe(s) && 0 < adjusted && 0 < clock(id, 1)
    ensures id !in s.mapInfo || !e.valid(s.mapInfo[id].svc.net) ==>
              Resolve(e, s, id, adjusted, clock) == s.(collisions := s.collisions - {id})
    ensures id in s.mapInfo && s.mapInfo[id].inTried ==>
              var s' := Resolve(e, s, id, adjusted, clock);
              s'.tried == s.tried && s'.new_ == s.new_ && s'.mapInfo.Keys == s.mapInfo.Keys
  {
    hide Consistent, Safe, Good;
    if id in s.mapInfo && s.mapInfo[id].inTried {
      PendingIsKnown(e, s, id);
      GoodEffect(e, s, s.mapInfo[id].svc, false, clock(id, 1), id);
      GoodEffect(e, s, s.mapInfo[id].svc, false, adjusted, id);
    }
  }

  /** Whatever is decided, only the entry's own tried slot can change, and other entries that stay keep
      their history. */
  lemma ResolveElsewhere(e: Env, s: State, x: int, adjusted: int, clock: (int, nat) -> int)
    requires Consistent(e, s) && Safe(s) && 0 < adjusted && 0 < clock(x, 1) && x in s.collisions
    ensures var s' := Resolve(e, s, x, adjusted, clock);
            && (forall ks | ks in s.tried && (x in s.mapInfo ==> ks != TriedSlot(e, s.mapInfo[x].svc)) ::
                  ks in s'.tried && s'.tried[ks] == s.tried[ks])
            && (forall y | y in s'.mapInfo && y != x :: y in s.mapInfo && SameHistory(s.mapInfo[y], s'.mapInfo[y]))
            && s.collisions - {x} <= s'.collisions <= s.collisions
  {
    hide Consistent, Safe, Good, SameHistory;
    ResolveTakesOne(e, s, x, adjusted, clock);
    HistoryRefl(s);
    if x in s.mapInfo && e.valid(s.mapInfo[x].svc.net) {
      var svc := s.mapInfo[x].svc;
      PendingIsKnown(e, s, x);
      PendingFacesEntry(e, s, x);
      GoodEffect(e, s, svc, false, clock(x, 1), x);
    }
  }

  lemma HistoryRefl(s: State)
    ensures forall y | y in s.mapInfo :: SameHistory(s.mapInfo[y], s.mapInfo[y])
  {
  }

  lemma {:induction false} LoopElsewhere(e: Env, s: State, rest: set<int>, adjusted: int, clock: (int, nat) -> int,
                                         ks: Slot)
    requires Consistent(e, s) && Safe(s) && 0 < adjusted && (forall i, k :: 0 < clock(i, k))
    requires rest <= s.collisions && ks in s.tried
    requires forall x | x in rest && x in s.mapInfo :: ks != TriedSlot(e, s.mapInfo[x].svc)
    ensures var r := ResolveAll(e, s, rest, adjusted, clock); ks in r.tried && r.tried[ks] == s.tried[ks]
    decreases |rest|
  {
    hide Consistent, Safe, Resolve;
    if rest != {} {
      var x := MinOf(rest);
      var s1 := Resolve(e, s, x, adjusted, clock);
      ResolveConsistent(e, s, x, adjusted, clock);
      ResolveElsewhere(e, s, x, adjusted, clock);
      forall y | y in rest - {x} && y in s1.mapInfo
        ensures ks != TriedSlot(e, s1.mapInfo[y].svc)
      {
        assert SameHistory(s.mapInfo[y], s1.mapInfo[y]);
      }
      LoopElsewhere(e, s1, rest - {x}, adjusted, clock, ks);
    }
  }

  /** src/addrman.cpp:640-710, the whole loop: a pending entry that competes with no other pending one for
      its slot takes it exactly when it wins against the entry that held the slot before the loop, unless
      it is itself dropped from the new table in between. It still waits only if it did not win and the
      holder was not reached within four hours. */
  lemma {:induction false} LoopEffect(e: Env, s: State, rest: set<int>, adjusted: int, clock: (int, nat) -> int,
                                      id: int)
    requires Consistent(e, s) && Safe(s) && 0 < adjusted && (forall i, k :: 0 < clock(i, k))
    requires id in rest && rest <= s.collisions
    requires id in s.mapInfo && e.valid(s.mapInfo[id].svc.net) && !s.mapInfo[id].inTried
    requires forall x | x in rest && x in s.mapInfo && x != id ::
               TriedSlot(e, s.mapInfo[x].svc) != TriedSlot(e, s.mapInfo[id].svc)
    ensures var r := ResolveAll(e, s, rest, adjusted, clock);
            var ks := TriedSlot(e, s.mapInfo[id].svc);
            && ks in s.tried && ks in r.tried && s.tried[ks] in s.mapInfo
            && var holder := s.mapInfo[s.tried[ks]];
            var wins := Wins(s.mapInfo[id], holder, adjusted, clock(id, 0));
            && (r.tried[ks] == id <==> wins && id in r.mapInfo)
            && (id in r.collisions && id in r.mapInfo ==> !wins && adjusted - holder.lastSuccess >= 4 * 60 * 60)
    decreases |rest|
  {
    hide Consistent, Safe, Resolve;
    var ks := TriedSlot(e, s.mapInfo[id].svc);
    PendingFacesEntry(e, s, id);
    OldOccupant(e, s, id);
    var x := MinOf(rest);
    var s1 := Resolve(e, s, x, adjusted, clock);
    var r := ResolveAll(e, s, rest, adjusted, clock);
    ResolveConsistent(e, s, x, adjusted, clock);
    ResolveElsewhere(e, s, x, adjusted, clock);
    LoopShrinks(e, s1, rest - {x}, adjusted, clock);
    HeldIsThere(e, r, ks);
    HeldIsThere(e, s, ks);
    if x == id {
      ResolveEffect(e, s, id, adjusted, clock);
      OthersElsewhere(e, s, s1, rest, id, ks);
      LoopElsewhere(e, s1, rest - {x}, adjusted, clock, ks);
    } else if id in s1.mapInfo {
      assert SameHistory(s.mapInfo[id], s1.mapInfo[id]);
      assert s1.tried[ks] == s.tried[ks];
      OthersElsewhere(e, s, s1, rest - {id}, x, ks);
      HolderKept(e, s, s1, ks, x);
      StillNew(e, s1, id, ks);
      LoopEffect(e, s1, rest - {x}, adjusted, clock, id);
    } else {
      PendingIsOld(e, s1, id);
      ResolveAllGrows(e, s1, rest - {x}, adjusted, clock);
      Vanished(s1, r, id);
    }
  }

  lemma OthersElsewhere(e: Env, s: State, s1: State, rest: set<int>, x: int, ks: Slot)
    requires forall y | y in rest && y in s.mapInfo && y != x :: TriedSlot(e, s.mapInfo[y].svc) != ks
    requires forall y | y in s1.mapInfo && y != x :: y in s.mapInfo && SameHistory(s.mapInfo[y], s1.mapInfo[y])
    ensures forall y | y in rest - {x} && y in s1.mapInfo :: TriedSlot(e, s1.mapInfo[y].svc) != ks
  {
    forall y | y in rest - {x} && y in s1.mapInfo
      ensures TriedSlot(e, s1.mapInfo[y].svc) != ks
    {
      assert SameHistory(s.mapInfo[y], s1.mapInfo[y]);
    }
  }

  lemma HolderKept(e: Env, s: State, s1: State, ks: Slot, x: int)
    requires Consistent(e, s) && Consistent(e, s1) && ks in s.tried && ks in s1.tried && s1.tried[ks] == s.tried[ks]
    requires s.tried[ks] != EMPTY && (x in s.mapInfo ==> TriedSlot(e, s.mapInfo[x].svc) != ks)
    requires forall y | y in s1.mapInfo && y != x :: y in s.mapInfo && SameHistory(s.mapInfo[y], s1.mapInfo[y])
    ensures s.tried[ks] in s.mapInfo && s.tried[ks] in s1.mapInfo
    ensures SameHistory(s.mapInfo[s.tried[ks]], s1.mapInfo[s.tried[ks]])
  {
    HeldIsThere(e, s, ks);
    HeldIsThere(e, s1, ks);
  }

  lemma HeldIsThere(e: Env, s: State, ks: Slot)
    requires Consistent(e, s) && ks in Grid(TRIED_BUCKET_COUNT)
    ensures ks in s.tried && EMPTY !in s.mapInfo
    ensures s.tried[ks] != EMPTY ==> s.tried[ks] in s.mapInfo && TriedSlot(e, s.mapInfo[s.tried[ks]].svc) == ks
  {
  }

  lemma StillNew(e: Env, s: State, id: int, ks: Slot)
    requires Consistent(e, s) && id in s.mapInfo && TriedSlot(e, s.mapInfo[id].svc) == ks
    requires ks in s.tried && s.tried[ks] != id
    ensures !s.mapInfo[id].inTried
  {
  }

  lemma Vanished(s: State, r: State, id: int)
    requires id !in s.mapInfo && id < s.nIdCount && Grows(s, r)
    ensures id !in r.mapInfo
  {
  }

  lemma PendingIsOld(e: Env, s: State, id: int)
    requires Consistent(e, s) && id in s.collisions
    ensures 0 <= id < s.nIdCount
  {
  }

  lemma {:induction false} LoopShrinks(e: Env, s: State, rest: set<int>, adjusted: int, clock: (int, nat) -> int)
    requires Consistent(e, s) && Safe(s) && 0 < adjusted && (forall i, k :: 0 < clock(i, k))
    ensures ResolveAll(e, s, rest, adjusted, clock).collisions <= s.collisions
    decreases |rest|
  {
    hide Consistent, Safe, Resolve;
    if rest != {} {
      var x := MinOf(rest);
      ResolveConsistent(e, s, x, adjusted, clock);
      ResolveTakesOne(e, s, x, adjusted, clock);
      LoopShrinks(e, Resolve(e, s, x, adjusted, clock), rest - {x}, adjusted, clock);
    }
  }

  /** A pending id whose entry has gone is taken off by the loop. */
  lemma {:induction false} LoopDropsStale(e: Env, s: State, rest: set<int>, adjusted: int, clock: (int, nat) -> int,
                                          id: int)
    requires Consistent(e, s) && Safe(s) && 0 < adjusted && (forall i, k :: 0 < clock(i, k))
    requires id in rest && rest <= s.collisions && id !in s.mapInfo
    ensures id !in ResolveAll(e, s, rest, adjusted, clock).collisions
    decreases |rest|
  {
    hide Consistent, Safe, Resolve;
    var x := MinOf(rest);
    var s1 := Resolve(e, s, x, adjusted, clock);
    ResolveConsistent(e, s, x, adjusted, clock);
    if x == id {
      ResolveOther(e, s, id, adjusted, clock);
      LoopShrinks(e, s1, rest - {x}, adjusted, clock);
    } else {
      PendingIsOld(e, s, id);
      ResolveGrows(e, s, x, adjusted, clock);
      ResolveTakesOne(e, s, x, adjusted, clock);
      Vanished(s, s1, id);
      LoopDropsStale(e, s1, rest - {x}, adjusted, clock, id);
    }
  }

  // ---------- Add ----------

  /** The entry has taken a slot of the new table; an entry that was there has one place less, and is gone
      when that was its last. */
  ghost predicate TookSlot(s: State, s': State, id: int, us: Slot)
    requires id in s.mapInfo && us in s.new_
  {
    var old_ := s.new_[us];
    && s'.new_ == s.new_[us := id]
    && id in s'.mapInfo && SameHistory(s.mapInfo[id], s'.mapInfo[id])
    && s'.mapInfo[id].refCount == s.mapInfo[id].refCount + 1 && s'.mapInfo[id].inTried == s.mapInfo[id].inTried
    && s'.mapInfo.Keys <= s.mapInfo.Keys
    && (forall x | x in s.mapInfo && x != id && x != old_ ::
          x in s'.mapInfo && SameEntry(s.mapInfo[x], s'.mapInfo[x]))
    && (old_ in s.mapInfo ==>
          && (old_ in s'.mapInfo <==> s.mapInfo[old_].refCount > 1)
          && (old_ in s'.mapInfo ==>
                s'.mapInfo[old_].refCount == s.mapInfo[old_].refCount - 1
                && SameHistory(s.mapInfo[old_], s'.mapInfo[old_])))
  }

  ghost predicate SameTried(s: State, s': State) {
    && s'.tried == s.tried && s'.nTried == s.nTried && s'.nLastGood == s.nLastGood
    && s'.collisions == s.collisions
  }

  /** src/addrman.cpp:359-378: an entry takes the slot when that is free, when the entry there is worth
      nothing, or when that one has another place and the entry has none. One that has no place and gets
      none is dropped. */
  lemma PlaceEffect(e: Env, s: State, id: int, source: NetAddr, now: int)
    requires ConsistentBut(e, s, id) && Safe(s)
    requires id in s.mapInfo && !s.mapInfo[id].inTried && s.mapInfo[id].refCount < NEW_BUCKETS_PER_ADDRESS
    ensures var s' := Place(e, s, id, source, now);
            var us := NewSlot(e, s.mapInfo[id].svc, source);
            && us in s.new_ && SameTried(s, s') && s'.nIdCount == s.nIdCount
            && var old_ := s.new_[us];
            && (old_ != EMPTY ==> old_ in s.mapInfo)
            && if old_ == id then s' == s
               else if || old_ == EMPTY || IsTerrible(s.mapInfo[old_], now)
                       || (s.mapInfo[old_].refCount > 1 && s.mapInfo[id].refCount == 0)
               then TookSlot(s, s', id, us)
               else if s.mapInfo[id].refCount > 0 then s' == s
               else
                 && s'.new_ == s.new_ && s'.mapAddr == s.mapAddr - {s.mapInfo[id].svc.net}
                 && s'.mapInfo.Keys == s.mapInfo.Keys - {id}
                 && forall x | x in s'.mapInfo :: SameEntry(s.mapInfo[x], s'.mapInfo[x])
  {
    hide ConsistentBut, Safe, Index, IsTerrible, ClearNew, Delete;
    var us := NewSlot(e, s.mapInfo[id].svc, source);
    PlaceSlot(e, s, id, us);
    RefsAreSlots(e, s, id, us);
    if s.new_[us] != id {
      if MayInsert(s, id, us, now) {
        PlaceInserts(e, s, id, us);
        ClearedThenTaken(s, ClearNew(s, us), id, us);
      } else if s.mapInfo[id].refCount == 0 {
        DeleteIndex(s, id);
      }
    }
  }

  lemma RefsAreSlots(e: Env, s: State, id: int, us: Slot)
    requires ConsistentBut(e, s, id) && id in s.mapInfo && us in s.new_
    ensures s.mapInfo[id].refCount >= 0 && (s.new_[us] in s.mapInfo ==> s.mapInfo[s.new_[us]].refCount >= 1)
  {
    if s.new_[us] in s.mapInfo {
      assert us in Slots(s.new_, s.new_[us]);
    }
  }

  lemma ClearedThenTaken(s: State, s1: State, id: int, us: Slot)
    requires us in s.new_ && Cleared(s, s1, us) && id in s.mapInfo && id in s1.mapInfo && s.new_[us] != id
    requires s.new_[us] in s.mapInfo ==> s.mapInfo[s.new_[us]].refCount >= 1
    ensures TookSlot(s, AddRef(s1, id, us), id, us) && SameTried(s, AddRef(s1, id, us))
  {
    var s' := AddRef(s1, id, us);
    assert s'.mapInfo.Keys == s1.mapInfo.Keys;
    assert forall x :: x in s1.mapInfo.Keys ==> x in s.mapInfo.Keys;
    assert s'.new_ == s.new_[us := EMPTY][us := id] == s.new_[us := id];
  }

  /** What an announcement changes of a known entry: services are added; the time moves when there was none
      or it is older by more than an hour, or a day for an address not seen today, and the penalty. */
  ghost predicate Announced(a: Info, b: Info, addr: Address, penalty: int, now: int) {
    var interval := if now - addr.time < 86400 then 3600 else 86400;
    var newer := addr.time != 0 && (a.time == 0 || addr.time - a.time > interval + penalty);
    && b.services == a.services + addr.services
    && b.time == (if !newer then a.time else if addr.time < penalty then 0 else (addr.time - penalty) % 0x1_0000_0000)
    && b.svc == a.svc && b.source == a.source && b.lastTry == a.lastTry
    && b.lastCountAttempt == a.lastCountAttempt && b.lastSuccess == a.lastSuccess && b.attempts == a.attempts
  }

  lemma RefreshedIs(info: Info, addr: Address, penalty: int, now: int)
    ensures Announced(info, Refreshed(info, addr, penalty, now), addr, penalty, now)
    ensures var b := Refreshed(info, addr, penalty, now);
            b.refCount == info.refCount && b.inTried == info.inTried && b.randomPos == info.randomPos
  {
  }

  /** src/addrman.cpp:298-350 for a known address: the entry is brought up to date, and a further place in
      the new table is tried for exactly when the announcement is newer than the entry now is, the entry
      is new, has fewer than eight places, and one draw in 2^places succeeds. */
  lemma AddKnownEffect(e: Env, s: State, addr: Address, source: NetAddr, penalty: int, now: int, later: int,
                       rnd: nat, id: int)
    requires Consistent(e, s) && Safe(s) && e.routable(addr.svc.net)
    requires addr.svc.net in s.mapAddr && s.mapAddr[addr.svc.net] == id && id in s.mapInfo
    ensures var (s', isNew) := Add(e, s, addr, source, penalty, now, later, rnd);
            var p := if addr.svc.net == source then 0 else penalty;
            var us := NewSlot(e, s.mapInfo[id].svc, source);
            && !isNew && us in s.new_ && SameTried(s, s') && s'.nIdCount == s.nIdCount
            && id in s'.mapInfo && Announced(s.mapInfo[id], s'.mapInfo[id], addr, p, now)
            && var a, t, old_ := s.mapInfo[id], s'.mapInfo[id].time, s.new_[us];
            && (old_ != EMPTY ==> old_ in s.mapInfo)
            && if && addr.time != 0 && (t == 0 || addr.time > t) && !a.inTried && 0 <= a.refCount < 8
                  && rnd % Bits.Pow2(a.refCount) == 0
                  && old_ != id && (old_ == EMPTY || IsTerrible(s.mapInfo[old_], later))
               then
                 && s'.new_ == s.new_[us := id] && s'.mapInfo[id].refCount == a.refCount + 1
                 && (old_ != EMPTY ==> (old_ in s'.mapInfo <==> s.mapInfo[old_].refCount > 1))
               else OnlyEntry(s, s', id)
  {
    hide Consistent, ConsistentBut, Safe, Place, IsTerrible, Refreshed, Bits.Pow2, Announced, SameHistory;
    var p := if addr.svc.net == source then 0 else penalty;
    var info := Refreshed(s.mapInfo[id], addr, p, now);
    var s1 := SetInfo(s, id, info);
    RefreshedIs(s.mapInfo[id], addr, p, now);
    NewHasPlace(e, s, id, NewSlot(e, s.mapInfo[id].svc, source));
    AddKnown(e, s, id, addr, source, p, now, later, rnd);
    assert s1.mapInfo.Keys == s.mapInfo.Keys;
    if Accepts(info, addr, rnd) {
      ConsistentIsBut(e, s1, id);
      PlaceEffect(e, s1, id, source, later);
      var s' := Place(e, s1, id, source, later);
      if s' != s1 {
        StillAnnounced(s.mapInfo[id], info, s'.mapInfo[id], addr, p, now);
      }
    }
  }

  lemma NewHasPlace(e: Env, s: State, id: int, us: Slot)
    requires Consistent(e, s) && id in s.mapInfo && us in Grid(NEW_BUCKET_COUNT)
    ensures us in s.new_ && 0 <= s.mapInfo[id].refCount <= 8 && (!s.mapInfo[id].inTried ==> s.mapInfo[id].refCount > 0)
    ensures s.new_[us] != EMPTY ==> s.new_[us] in s.mapInfo
  {
    assert id !in Loose(s.mapInfo);
  }

  lemma ConsistentIsBut(e: Env, s: State, id: int)
    requires Consistent(e, s)
    ensures ConsistentBut(e, s, id)
  {
    hide Core, Loose, Counts, Collisions;
  }

  lemma StillAnnounced(a: Info, b: Info, c: Info, addr: Address, penalty: int, now: int)
    requires Announced(a, b, addr, penalty, now) && SameHistory(b, c)
    ensures Announced(a, c, addr, penalty, now) && c.time == b.time
  {
  }

  /** The address has a fresh entry in the slot; the others have all they had, but for a place that the
      entry took from one of them. */
  ghost predicate Admitted(s: State, s': State, addr: Address, source: NetAddr, penalty: int, us: Slot)
    requires us in s.new_
  {
    var id, old_ := s.nIdCount, s.new_[us];
    && s'.new_ == s.new_[us := id] && id in s'.mapInfo
    && s'.mapInfo[id] == Info(addr.svc, addr.services,
                              if addr.time < penalty then 0 else (addr.time - penalty) % 0x1_0000_0000,
                              source, 0, 0, 0, 0, 1, false, s'.mapInfo[id].randomPos)
    && (old_ in s.mapInfo ==> (old_ in s'.mapInfo <==> s.mapInfo[old_].refCount > 1))
    && (forall x | x in s.mapInfo && x != old_ :: x in s'.mapInfo && SameEntry(s.mapInfo[x], s'.mapInfo[x]))
  }

  /** src/addrman.cpp:298-380 otherwise. An address that is not routable changes nothing. An unknown one
      uses up an id, and is kept exactly when its slot is free, or the entry there is worth nothing or has
      another place; then it has this one place, the announced services and time less the penalty, and no
      history. */
  lemma AddUnknownEffect(e: Env, s: State, addr: Address, source: NetAddr, penalty: int, now: int, later: int, rnd: nat)
    requires Consistent(e, s) && Safe(s)
    ensures !e.routable(addr.svc.net) ==> Add(e, s, addr, source, penalty, now, later, rnd) == (s, false)
    ensures e.routable(addr.svc.net) && addr.svc.net !in s.mapAddr ==>
              var (s', isNew) := Add(e, s, addr, source, penalty, now, later, rnd);
              var p := if addr.svc.net == source then 0 else penalty;
              var id, us := s.nIdCount, NewSlot(e, addr.svc, source);
              && isNew && us in s.new_ && SameTried(s, s') && s'.nIdCount == s.nIdCount + 1
              && var old_ := s.new_[us];
              && (old_ != EMPTY ==> old_ in s.mapInfo)
              && if old_ == EMPTY || IsTerrible(s.mapInfo[old_], later) || s.mapInfo[old_].refCount > 1
                 then Admitted(s, s', addr, source, p, us)
                 else
                   && s'.new_ == s.new_ && s'.mapAddr == s.mapAddr && s'.mapInfo.Keys == s.mapInfo.Keys
                   && (forall x | x in s.mapInfo :: SameEntry(s.mapInfo[x], s'.mapInfo[x]))
  {
    hide Consistent, ConsistentBut, Safe, Place, IsTerrible;
    FindIs(e, s, addr.svc.net);
    if e.routable(addr.svc.net) && addr.svc.net !in s.mapAddr {
      var p := if addr.svc.net == source then 0 else penalty;
      var id, us := s.nIdCount, NewSlot(e, addr.svc, source);
      var s1 := Enrolled(s, addr, source, p);
      EnrolledConsistent(e, s, addr, source, p);
      ButIsSafe(e, s1, id);
      FreshId(e, s, us);
      PlaceEffect(e, s1, id, source, later);
      EnrolledIs(s, s1, addr, source, p);
      if TookSlot(s1, Place(e, s1, id, source, later), id, us) {
        TakenIsAdmitted(s, s1, Place(e, s1, id, source, later), addr, source, p, us);
      }
      hide TookSlot, Admitted;
    }
  }

  lemma TakenIsAdmitted(s: State, s1: State, s': State, addr: Address, source: NetAddr, p: int, us: Slot)
    requires s1 == Enrolled(s, addr, source, p) && s.nIdCount !in s.mapInfo && s.nIdCount != EMPTY
    requires us in s.new_ && s.new_[us] != s.nIdCount && TookSlot(s1, s', s.nIdCount, us)
    ensures Admitted(s, s', addr, source, p, us)
  {
    hide SameEntry;
  }

  lemma FindIs(e: Env, s: State, net: NetAddr)
    requires Consistent(e, s)
    ensures Find(s, net).Some? <==> net in s.mapAddr
  {
    FindFacts(e, s, net);
  }

  lemma ButIsSafe(e: Env, s: State, id: int)
    requires ConsistentBut(e, s, id)
    ensures Safe(s)
  {
    CoreSafe(e, s);
  }

  lemma FreshId(e: Env, s: State, us: Slot)
    requires Consistent(e, s) && us in Grid(NEW_BUCKET_COUNT)
    ensures s.nIdCount !in s.mapInfo && us in s.new_ && s.new_[us] != s.nIdCount && s.nIdCount != EMPTY
    ensures s.new_[us] != EMPTY ==> s.new_[us] in s.mapInfo
  {
  }

  lemma EnrolledIs(s: State, s1: State, addr: Address, source: NetAddr, p: int)
    requires s1 == Enrolled(s, addr, source, p) && s.nIdCount !in s.mapInfo && addr.svc.net !in s.mapAddr
    ensures s1.mapInfo.Keys == s.mapInfo.Keys + {s.nIdCount} && s1.mapAddr - {addr.svc.net} == s.mapAddr
    ensures forall x | x in s.mapInfo :: s1.mapInfo[x] == s.mapInfo[x]
  {
  }

  // ---------- Selections and samples ----------

  lemma {:induction false} NthIdRank(ids: set<int>, k: nat)
    requires k < |ids|
    ensures |set x | x in ids && x < NthId(ids, k)| == k
    decreases k
  {
    var least, id := MinOf(ids), NthId(ids, k);
    if k == 0 {
      assert (set x | x in ids && x < id) == {};
    } else {
      var rest := ids - {least};
      NthIdRank(rest, k - 1);
      assert (set x | x in ids && x < id) == (set x | x in rest && x < id) + {least};
    }
  }

  /** src/addrman.cpp:713-740: with k the draw modulo the number of pending ids, the id with k smaller ones
      is taken off when it has no entry, and otherwise the answer is the entry in its tried slot. */
  lemma SelectEffect(e: Env, s: State, draw: nat) returns (id: int)
    requires Consistent(e, s)
    ensures s.collisions == {} ==> Select(e, s, draw) == (s, None)
    ensures s.collisions != {} ==>
              && id in s.collisions && |set x | x in s.collisions && x < id| == draw % |s.collisions|
              && if id !in s.mapInfo then Select(e, s, draw) == (s.(collisions := s.collisions - {id}), None)
                 else
                   var ks := TriedSlot(e, s.mapInfo[id].svc);
                   && ks in s.tried && s.tried[ks] in s.mapInfo && s.mapInfo[s.tried[ks]].inTried
                   && Select(e, s, draw) == (s, Some(s.mapInfo[s.tried[ks]]))
  {
    id := 0;
    if s.collisions != {} {
      id := NthId(s.collisions, draw % |s.collisions|);
      NthIdRank(s.collisions, draw % |s.collisions|);
      if id in s.mapInfo {
        PendingFacesEntry(e, s, id);
      }
      hide Consistent;
    }
  }

  /** How many addresses a sample may have. */
  ghost predicate Allowed(c: nat, size: nat, maxAddresses: nat, maxPct: nat) {
    && (if maxPct == 0 then c <= size else 100 * c <= maxPct * size)
    && (maxAddresses != 0 ==> c <= maxAddresses)
  }

  /** src/addrman.cpp:568-576: a sample is as large as the limits allow, and no larger. */
  lemma SampleCapIs(size: nat, maxAddresses: nat, maxPct: nat)
    ensures Allowed(SampleCap(size, maxAddresses, maxPct), size, maxAddresses, maxPct)
    ensures forall c: nat | Allowed(c, size, maxAddresses, maxPct) :: c <= SampleCap(size, maxAddresses, maxPct)
  {
    var all := maxPct * size;
    forall c: nat | Allowed(c, size, maxAddresses, maxPct)
      ensures c <= SampleCap(size, maxAddresses, maxPct)
    {
      if maxPct != 0 {
        Hundredths(c, all);
      }
    }
    Hundredths(all / 100, all);
  }

  lemma Hundredths(c: nat, all: nat)
    ensures 100 * c <= all <==> c <= all / 100
  {
  }

  /** Every position from n on can be drawn. */
  lemma DrawReaches(rnd: nat -> nat, n: nat, size: nat, p: nat)
    requires n <= p < size && rnd(n) % (size - n) == p - n
    ensures DrawFrom(rnd, n, size) == p
  {
  }

  /** src/addrman.cpp:125-143: two places of the random order are exchanged, the others stay. */
  lemma SwapEffect(s: State, i: int, j: int)
    requires Index(s) && 0 <= i < |s.vRandom| && 0 <= j < |s.vRandom|
    ensures var v, v' := s.vRandom, SwapRandom(s, i, j).vRandom;
            && |v'| == |v| && v'[i] == v[j] && v'[j] == v[i]
            && forall k | 0 <= k < |v| && k != i && k != j :: v'[k] == v[k]
  {
    hide Index;
  }
}
