/** What each internal step of the address manager does to the invariant. */
module AddrManSteps {
  import opened AddrManSpec

  // ---------- Entries that differ only in their place in vRandom ----------

  ghost predicate SameEntry(a: Info, b: Info) {
    && a.svc == b.svc && a.services == b.services && a.time == b.time && a.source == b.source
    && a.lastTry == b.lastTry && a.lastCountAttempt == b.lastCountAttempt
    && a.lastSuccess == b.lastSuccess && a.attempts == b.attempts
    && a.refCount == b.refCount && a.inTried == b.inTried
  }

  ghost predicate SameEntries(m: map<int, Info>, m': map<int, Info>) {
    m.Keys == m'.Keys && forall id | id in m :: SameEntry(m[id], m'[id])
  }

  lemma SameEntriesIds(m: map<int, Info>, m': map<int, Info>)
    requires SameEntries(m, m')
    ensures NewIds(m') == NewIds(m) && TriedIds(m') == TriedIds(m) && Loose(m') == Loose(m)
  {
    assert forall id :: id in m <==> id in m';
    assert forall id | id in m :: SameEntry(m[id], m'[id]);
    assert NewIds(m') == NewIds(m);
    assert TriedIds(m') == TriedIds(m);
    assert Loose(m') == Loose(m);
  }

  lemma SameEntriesTables(e: Env, m: map<int, Info>, m': map<int, Info>, tried: Table, new_: Table)
    requires SameEntries(m, m')
    ensures TriedTable(e, m, tried) ==> TriedTable(e, m', tried)
    ensures NewTable(e, m, new_) ==> NewTable(e, m', new_)
    ensures RefCounts(m, new_) ==> RefCounts(m', new_)
    ensures Times(m) ==> Times(m')
  {
    assert forall id :: id in m <==> id in m';
  }

  /** Everything but vRandom and the positions in it is the same. */
  ghost predicate Reordered(s: State, s': State) {
    && SameEntries(s.mapInfo, s'.mapInfo)
    && s' == s.(mapInfo := s'.mapInfo, vRandom := s'.vRandom)
  }

  lemma SwapRandomIndex(s: State, i: int, j: int)
    requires Index(s)
    requires 0 <= i < |s.vRandom| && 0 <= j < |s.vRandom|
    ensures Index(SwapRandom(s, i, j)) && Reordered(s, SwapRandom(s, i, j))
    ensures |SwapRandom(s, i, j).vRandom| == |s.vRandom|
  {
    if i != j {
      var m, v := s.mapInfo, s.vRandom;
      var id1, id2 := v[i], v[j];
      assert id1 != id2 && id1 in m && id2 in m by {
        assert m[id1].randomPos == i && m[id2].randomPos == j;
      }
      var m' := m[id1 := m[id1].(randomPos := j)][id2 := m[id2].(randomPos := i)];
      var v' := v[i := id2][j := id1];
      assert m'.Keys == m.Keys;
      assert SwapRandom(s, i, j) == s.(mapInfo := m', vRandom := v');
      SwapIndex(m, v, i, j, m', v');
      assert SameEntries(m, m');
      SameAddrIndex(m, m', s.mapAddr);
    }
  }

  lemma SwapIndex(m: map<int, Info>, v: seq<int>, i: int, j: int, m': map<int, Info>, v': seq<int>)
    requires RandomIndex(m, v) && 0 <= i < |v| && 0 <= j < |v| && i != j
    requires v[i] != v[j]
    requires m' == m[v[i] := m[v[i]].(randomPos := j)][v[j] := m[v[j]].(randomPos := i)]
    requires v' == v[i := v[j]][j := v[i]]
    ensures RandomIndex(m', v')
  {
    forall id | id in m'
      ensures 0 <= m'[id].randomPos < |v'| && v'[m'[id].randomPos] == id
    {
      if id != v[i] && id != v[j] {
        assert m'[id] == m[id];
      }
    }
    forall k | 0 <= k < |v'|
      ensures v'[k] in m' && m'[v'[k]].randomPos == k
    {
      if k != i && k != j {
        assert m[v[k]].randomPos == k;
      }
    }
  }

  lemma SameAddrIndex(m: map<int, Info>, m': map<int, Info>, a: map<NetAddr, int>)
    requires SameEntries(m, m') && AddrIndex(m, a)
    ensures AddrIndex(m', a)
  {
    assert forall id :: id in m <==> id in m';
  }

  // ---------- Delete ----------

  /** The step drops one entry and its index records, and keeps the tables. */
  ghost predicate Forgot(s: State, s': State, id: int) {
    && s'.mapInfo.Keys == s.mapInfo.Keys - {id}
    && (forall x | x in s'.mapInfo :: SameEntry(s.mapInfo[x], s'.mapInfo[x]))
    && s' == s.(mapInfo := s'.mapInfo, mapAddr := s'.mapAddr, vRandom := s'.vRandom, nNew := s.nNew - 1)
    && (id in s.mapInfo ==> s'.mapAddr == s.mapAddr - {s.mapInfo[id].svc.net})
  }

  lemma DropLastIndex(m: map<int, Info>, v: seq<int>, id: int)
    requires RandomIndex(m, v) && id in m && m[id].randomPos == |v| - 1
    ensures RandomIndex(m - {id}, v[..|v| - 1])
  {
    var m', v' := m - {id}, v[..|v| - 1];
    forall x | x in m'
      ensures 0 <= m'[x].randomPos < |v'| && v'[m'[x].randomPos] == x
    {
      assert v[m[x].randomPos] == x;
    }
    forall k | 0 <= k < |v'|
      ensures v'[k] in m' && m'[v'[k]].randomPos == k
    {
      assert m[v[k]].randomPos == k;
    }
  }

  lemma DropAddrIndex(m: map<int, Info>, a: map<NetAddr, int>, id: int)
    requires AddrIndex(m, a) && id in m
    ensures AddrIndex(m - {id}, a - {m[id].svc.net})
  {
  }

  lemma SwapToEnd(s: State, id: int)
    requires Index(s) && id in s.mapInfo
    ensures 0 <= s.mapInfo[id].randomPos < |s.vRandom|
    ensures var s1 := SwapRandom(s, s.mapInfo[id].randomPos, |s.vRandom| - 1);
            && Index(s1) && Reordered(s, s1) && |s1.vRandom| == |s.vRandom|
            && id in s1.mapInfo && s1.mapInfo[id].randomPos == |s1.vRandom| - 1
  {
    hide AddrIndex;
    SwapRandomIndex(s, s.mapInfo[id].randomPos, |s.vRandom| - 1);
  }

  lemma DeleteIndex(s: State, id: int)
    requires Index(s) && id in s.mapInfo
    ensures Index(Delete(s, id)) && Forgot(s, Delete(s, id), id)
  {
    hide AddrIndex, RandomIndex;
    SwapToEnd(s, id);
    var s1 := SwapRandom(s, s.mapInfo[id].randomPos, |s.vRandom| - 1);
    DropLastIndex(s1.mapInfo, s1.vRandom, id);
    DropAddrIndex(s1.mapInfo, s1.mapAddr, id);
  }

  lemma UnreferencedTables(e: Env, m: map<int, Info>, m': map<int, Info>, tried: Table, new_: Table, id: int)
    requires TriedTable(e, m, tried) && NewTable(e, m, new_) && RefCounts(m, new_)
    requires id in m && !m[id].inTried && m[id].refCount == 0
    requires m'.Keys == m.Keys - {id} && forall x | x in m' :: SameEntry(m[x], m'[x])
    ensures TriedTable(e, m', tried) && NewTable(e, m', new_) && RefCounts(m', new_)
  {
    forall sl | sl in new_
      ensures new_[sl] != id
    {
      assert sl !in Slots(new_, id);
    }
    assert forall x :: x in m' <==> x in m && x != id;
  }

  lemma DropIds(m: map<int, Info>, m': map<int, Info>, id: int)
    requires id in m && !m[id].inTried && m[id].refCount == 0
    requires m'.Keys == m.Keys - {id} && forall x | x in m' :: SameEntry(m[x], m'[x])
    ensures NewIds(m') == NewIds(m) - {id} && |NewIds(m')| == |NewIds(m)| - 1
    ensures TriedIds(m') == TriedIds(m)
    ensures Loose(m') == Loose(m) - {id}
    ensures Times(m) ==> Times(m')
  {
    assert forall x :: x in m' <==> x in m && x != id;
    assert NewIds(m') == NewIds(m) - {id};
    assert TriedIds(m') == TriedIds(m);
    assert Loose(m') == Loose(m) - {id};
    assert id in NewIds(m);
  }

  lemma DeleteCore(e: Env, s: State, id: int, dNew: int, dTried: int)
    requires Core(e, s) && id in Loose(s.mapInfo) && Counts(s, dNew, dTried)
    ensures Core(e, Delete(s, id))
    ensures Loose(Delete(s, id).mapInfo) == Loose(s.mapInfo) - {id}
    ensures Counts(Delete(s, id), dNew, dTried)
  {
    hide Delete, Index, TriedTable, NewTable, RefCounts, Times, NewIds, TriedIds;
    var s' := Delete(s, id);
    DeleteIndex(s, id);
    UnreferencedTables(e, s.mapInfo, s'.mapInfo, s.tried, s.new_, id);
    DropIds(s.mapInfo, s'.mapInfo, id);
  }

  // ---------- Replacing one entry ----------

  /** An entry that keeps its identity: same address, same place in vRandom. */
  lemma SetInfoIndex(s: State, id: int, info: Info)
    requires Index(s) && id in s.mapInfo
    requires info.svc == s.mapInfo[id].svc && info.randomPos == s.mapInfo[id].randomPos
    ensures Index(SetInfo(s, id, info))
  {
    var m, m' := s.mapInfo, s.mapInfo[id := info];
    assert m'.Keys == m.Keys;
    assert RandomIndex(m', s.vRandom);
    assert AddrIndex(m', s.mapAddr);
  }

  lemma SetInfoTables(e: Env, m: map<int, Info>, tried: Table, new_: Table, id: int, info: Info)
    requires id in m && info.svc == m[id].svc && info.inTried == m[id].inTried
    ensures TriedTable(e, m, tried) ==> TriedTable(e, m[id := info], tried)
    ensures NewTable(e, m, new_) ==> NewTable(e, m[id := info], new_)
    ensures info.refCount == m[id].refCount && RefCounts(m, new_) ==> RefCounts(m[id := info], new_)
  {
    var m' := m[id := info];
    assert m'.Keys == m.Keys;
  }

  lemma SetInfoIds(m: map<int, Info>, id: int, info: Info)
    requires id in m && info.inTried == m[id].inTried
    ensures NewIds(m[id := info]) == NewIds(m)
    ensures TriedIds(m[id := info]) == TriedIds(m)
    ensures !info.inTried && info.refCount == 0 ==> Loose(m[id := info]) == Loose(m) + {id}
    ensures info.inTried || info.refCount != 0 ==> Loose(m[id := info]) == Loose(m) - {id}
  {
    var m' := m[id := info];
    assert m'.Keys == m.Keys;
    assert forall x :: x in m' <==> x in m;
    assert NewIds(m') == NewIds(m);
    assert TriedIds(m') == TriedIds(m);
    if !info.inTried && info.refCount == 0 {
      assert Loose(m') == Loose(m) + {id};
    } else {
      assert Loose(m') == Loose(m) - {id};
    }
  }

  /** Bookkeeping fields may change freely as long as the times stay sensible. */
  lemma SetInfoCore(e: Env, s: State, id: int, info: Info)
    requires Core(e, s) && id in s.mapInfo
    requires info.svc == s.mapInfo[id].svc && info.randomPos == s.mapInfo[id].randomPos
    requires info.inTried == s.mapInfo[id].inTried && info.refCount == s.mapInfo[id].refCount
    requires 0 <= info.lastTry && 0 <= info.lastSuccess && (info.inTried ==> 0 < info.lastSuccess)
    ensures Core(e, SetInfo(s, id, info))
    ensures NewIds(SetInfo(s, id, info).mapInfo) == NewIds(s.mapInfo)
    ensures TriedIds(SetInfo(s, id, info).mapInfo) == TriedIds(s.mapInfo)
    ensures Loose(SetInfo(s, id, info).mapInfo) == Loose(s.mapInfo)
  {
    hide Index, TriedTable, NewTable, RefCounts, NewIds, TriedIds;
    SetInfoIndex(s, id, info);
    SetInfoTables(e, s.mapInfo, s.tried, s.new_, id, info);
    SetInfoIds(s.mapInfo, id, info);
    assert Loose(s.mapInfo) == if id in Loose(s.mapInfo) then Loose(s.mapInfo) + {id} else Loose(s.mapInfo) - {id};
  }

  // ---------- Slots of a table ----------

  lemma ClearedSlots(t: Table, sl: Slot, id: int)
    requires sl in t && t[sl] != EMPTY && id != EMPTY
    ensures t[sl] == id ==> |Slots(t[sl := EMPTY], id)| == |Slots(t, id)| - 1
    ensures t[sl] != id ==> Slots(t[sl := EMPTY], id) == Slots(t, id)
  {
    var t' := t[sl := EMPTY];
    assert t'.Keys == t.Keys;
    assert Slots(t', id) == Slots(t, id) - {sl};
    assert t[sl] == id ==> sl in Slots(t, id);
  }

  lemma FilledSlots(t: Table, sl: Slot, id: int, x: int)
    requires sl in t && t[sl] == EMPTY && id != EMPTY && x != EMPTY
    ensures x != id ==> Slots(t[sl := id], x) == Slots(t, x)
    ensures x == id ==> |Slots(t[sl := id], x)| == |Slots(t, x)| + 1
  {
    var t' := t[sl := id];
    assert t'.Keys == t.Keys;
    assert sl !in Slots(t, x);
    assert Slots(t', x) == if x == id then Slots(t, x) + {sl} else Slots(t, x);
  }

  // ---------- ClearNew ----------

  lemma UnrefTables(e: Env, m: map<int, Info>, new_: Table, sl: Slot)
    requires NewTable(e, m, new_) && RefCounts(m, new_)
    requires EMPTY !in m && sl in new_ && new_[sl] != EMPTY
    ensures 0 < m[new_[sl]].refCount
    ensures NewTable(e, m[new_[sl] := m[new_[sl]].(refCount := m[new_[sl]].refCount - 1)], new_[sl := EMPTY])
    ensures RefCounts(m[new_[sl] := m[new_[sl]].(refCount := m[new_[sl]].refCount - 1)], new_[sl := EMPTY])
  {
    var id := new_[sl];
    var m', t' := m[id := m[id].(refCount := m[id].refCount - 1)], new_[sl := EMPTY];
    assert m'.Keys == m.Keys && t'.Keys == new_.Keys;
    assert sl in Slots(new_, id);
    forall x | x in m'
      ensures m'[x].refCount == |Slots(t', x)| <= NEW_BUCKETS_PER_ADDRESS
    {
      ClearedSlots(new_, sl, x);
    }
  }

  /** What ClearNew may do to entries: lower one count, or drop that one entry. */
  ghost predicate Cleared(s: State, s': State, sl: Slot)
    requires sl in s.new_
  {
    && s'.new_ == s.new_[sl := EMPTY]
    && s'.tried == s.tried
    && s'.nIdCount == s.nIdCount && s'.nTried == s.nTried
    && s'.nLastGood == s.nLastGood && s'.collisions == s.collisions
    && (forall id | id in s'.mapInfo :: id in s.mapInfo)
    && (forall id | id in s.mapInfo :: id in s'.mapInfo || (id == s.new_[sl] && s.mapInfo[id].refCount == 1))
    && (s.new_[sl] in s'.mapInfo ==> s.mapInfo[s.new_[sl]].refCount != 1)
    && (forall id | id in s'.mapInfo && id != s.new_[sl] :: SameEntry(s.mapInfo[id], s'.mapInfo[id]))
    && (forall id | id in s'.mapInfo && id == s.new_[sl] ::
          SameEntry(s.mapInfo[id].(refCount := s.mapInfo[id].refCount - 1), s'.mapInfo[id]))
  }

  lemma UnrefCore(e: Env, s: State, sl: Slot)
    requires Core(e, s) && sl in s.new_ && s.new_[sl] != EMPTY
    ensures Core(e, Unref(s, sl))
    ensures 0 < s.mapInfo[s.new_[sl]].refCount && !s.mapInfo[s.new_[sl]].inTried
    ensures NewIds(Unref(s, sl).mapInfo) == NewIds(s.mapInfo)
    ensures TriedIds(Unref(s, sl).mapInfo) == TriedIds(s.mapInfo)
    ensures Loose(Unref(s, sl).mapInfo) ==
            Loose(s.mapInfo) + (if s.mapInfo[s.new_[sl]].refCount == 1 then {s.new_[sl]} else {})
  {
    hide AddrIndex, RandomIndex, TriedTable, RefCounts;
    var id := s.new_[sl];
    var info := s.mapInfo[id].(refCount := s.mapInfo[id].refCount - 1);
    UnrefTables(e, s.mapInfo, s.new_, sl);
    SetInfoIndex(s, id, info);
    SetInfoTables(e, s.mapInfo, s.tried, s.new_, id, info);
    SetInfoIds(s.mapInfo, id, info);
    assert id !in Loose(s.mapInfo);
  }

  lemma CoreNewSlot(e: Env, s: State, sl: Slot)
    requires Core(e, s) && sl in s.new_
    ensures Index(s) && EMPTY !in s.mapInfo
    ensures s.new_[sl] != EMPTY ==> s.new_[sl] in s.mapInfo
  {
  }

  lemma ClearNewDrops(e: Env, s: State, sl: Slot, dNew: int, dTried: int)
    requires Core(e, s) && sl in s.new_ && s.new_[sl] != EMPTY && Counts(s, dNew, dTried)
    requires s.mapInfo[s.new_[sl]].refCount == 1
    ensures Index(Unref(s, sl))
    ensures Core(e, Delete(Unref(s, sl), s.new_[sl]))
    ensures Loose(Delete(Unref(s, sl), s.new_[sl]).mapInfo) == Loose(s.mapInfo)
    ensures Counts(Delete(Unref(s, sl), s.new_[sl]), dNew, dTried)
    ensures Cleared(s, Delete(Unref(s, sl), s.new_[sl]), sl)
  {
    hide Core, NewIds, TriedIds, Index, Delete;
    CoreNewSlot(e, s, sl);
    var id := s.new_[sl];
    var s1 := Unref(s, sl);
    UnrefCore(e, s, sl);
    assert id !in Loose(s.mapInfo) && id in Loose(s1.mapInfo);
    UnrefIndex(s, sl);
    DeleteCore(e, s1, id, dNew, dTried);
    DeleteIndex(s1, id);
  }

  lemma ClearNewCore(e: Env, s: State, sl: Slot, dNew: int, dTried: int)
    requires Core(e, s) && sl in s.new_ && Counts(s, dNew, dTried)
    ensures Core(e, ClearNew(s, sl))
    ensures Loose(ClearNew(s, sl).mapInfo) == Loose(s.mapInfo)
    ensures Counts(ClearNew(s, sl), dNew, dTried)
    ensures Cleared(s, ClearNew(s, sl), sl)
  {
    hide Core, Index, NewIds, TriedIds, Loose, Delete;
    CoreNewSlot(e, s, sl);
    if s.new_[sl] == EMPTY {
      assert s.new_ == s.new_[sl := EMPTY];
    } else {
      UnrefCore(e, s, sl);
      UnrefIndex(s, sl);
      if s.mapInfo[s.new_[sl]].refCount == 1 {
        ClearNewDrops(e, s, sl, dNew, dTried);
      }
    }
  }

  // ---------- Moving between the tables ----------

  lemma LeaveNewTables(e: Env, m: map<int, Info>, t: Table, id: int, m': map<int, Info>, t': Table)
    requires NewTable(e, m, t) && RefCounts(m, t) && id in m && EMPTY !in m
    requires m' == m[id := m[id].(refCount := 0)]
    requires t' == map sl | sl in t :: if t[sl] == id then EMPTY else t[sl]
    ensures NewTable(e, m', t') && RefCounts(m', t')
  {
    assert m'.Keys == m.Keys && t'.Keys == t.Keys;
    assert Slots(t', id) == {};
    forall x | x in m' && x != id
      ensures m'[x].refCount == |Slots(t', x)| <= NEW_BUCKETS_PER_ADDRESS
    {
      assert Slots(t', x) == Slots(t, x);
    }
  }

  lemma LeaveNewCore(e: Env, s: State, id: int, dNew: int, dTried: int)
    requires Core(e, s) && id in s.mapInfo && !s.mapInfo[id].inTried && Counts(s, dNew, dTried)
    ensures Core(e, LeaveNew(s, id))
    ensures Loose(LeaveNew(s, id).mapInfo) == Loose(s.mapInfo) + {id}
    ensures Counts(LeaveNew(s, id), dNew - 1, dTried)
  {
    hide AddrIndex, RandomIndex, TriedTable, NewTable, RefCounts, NewIds, TriedIds, Loose;
    var info := s.mapInfo[id].(refCount := 0);
    LeaveNewTables(e, s.mapInfo, s.new_, id, LeaveNew(s, id).mapInfo, LeaveNew(s, id).new_);
    SetInfoIndex(s, id, info);
    SetInfoTables(e, s.mapInfo, s.tried, s.new_, id, info);
    SetInfoIds(s.mapInfo, id, info);
  }

  lemma TriedHasNoRefs(e: Env, s: State, id: int)
    requires Core(e, s) && id in s.mapInfo && s.mapInfo[id].inTried
    ensures s.mapInfo[id].refCount == 0 && Slots(s.new_, id) == {}
  {
    assert Slots(s.new_, id) == {} by {
      assert forall sl | sl in s.new_ :: s.new_[sl] != id;
    }
  }

  lemma LooseHasNoRefs(e: Env, s: State, id: int)
    requires Core(e, s) && id in Loose(s.mapInfo)
    ensures forall sl | sl in s.new_ :: s.new_[sl] != id
  {
    assert Slots(s.new_, id) == {};
    assert forall sl | sl in s.new_ :: sl !in Slots(s.new_, id);
  }

  /** Setting inTried of an entry in no slot of the new table. */
  lemma BecomesTried(m: map<int, Info>, id: int)
    requires id in m && !m[id].inTried && m[id].refCount == 0
    ensures var m' := m[id := m[id].(inTried := true)];
            && |NewIds(m')| == |NewIds(m)| - 1 && |TriedIds(m')| == |TriedIds(m)| + 1
            && Loose(m') == Loose(m) - {id}
  {
    var m' := m[id := m[id].(inTried := true)];
    assert NewIds(m') == NewIds(m) - {id} && id in NewIds(m);
    assert TriedIds(m') == TriedIds(m) + {id};
  }

  /** And clearing it. */
  lemma BecomesNew(m: map<int, Info>, id: int)
    requires id in m && m[id].inTried && m[id].refCount == 0
    ensures var m' := m[id := m[id].(inTried := false)];
            && |NewIds(m')| == |NewIds(m)| + 1 && |TriedIds(m')| == |TriedIds(m)| - 1
            && Loose(m') == Loose(m) + {id}
  {
    var m' := m[id := m[id].(inTried := false)];
    assert NewIds(m') == NewIds(m) + {id};
    assert TriedIds(m') == TriedIds(m) - {id} && id in TriedIds(m);
  }

  lemma LeaveTriedTables(e: Env, m: map<int, Info>, tried: Table, new_: Table, ks: Slot)
    requires TriedTable(e, m, tried) && NewTable(e, m, new_) && RefCounts(m, new_)
    requires ks in tried && tried[ks] != EMPTY
    ensures tried[ks] in m && m[tried[ks]].inTried
    ensures TriedTable(e, m[tried[ks] := m[tried[ks]].(inTried := false)], tried[ks := EMPTY])
    ensures NewTable(e, m[tried[ks] := m[tried[ks]].(inTried := false)], new_)
    ensures RefCounts(m[tried[ks] := m[tried[ks]].(inTried := false)], new_)
  {
    var id := tried[ks];
    var m', t' := m[id := m[id].(inTried := false)], tried[ks := EMPTY];
    assert m'.Keys == m.Keys && t'.Keys == tried.Keys;
    assert TriedSlot(e, m[id].svc) == ks;
  }

  lemma LeaveTriedCore(e: Env, s: State, ks: Slot, dNew: int, dTried: int)
    requires Core(e, s) && ks in s.tried && s.tried[ks] != EMPTY && Counts(s, dNew, dTried)
    ensures s.tried[ks] in s.mapInfo && s.mapInfo[s.tried[ks]].inTried && s.mapInfo[s.tried[ks]].refCount == 0
    ensures Core(e, LeaveTried(s, ks))
    ensures Loose(LeaveTried(s, ks).mapInfo) == Loose(s.mapInfo) + {s.tried[ks]}
    ensures Counts(LeaveTried(s, ks), dNew - 1, dTried)
  {
    hide AddrIndex, RandomIndex, TriedTable, NewTable, RefCounts, NewIds, TriedIds, Loose;
    var id := s.tried[ks];
    LeaveTriedTables(e, s.mapInfo, s.tried, s.new_, ks);
    TriedHasNoRefs(e, s, id);
    SetInfoIndex(s, id, s.mapInfo[id].(inTried := false));
    BecomesNew(s.mapInfo, id);
  }

  lemma EnterNewTables(e: Env, m: map<int, Info>, t: Table, id: int, us: Slot)
    requires NewTable(e, m, t) && RefCounts(m, t) && EMPTY !in m
    requires id in m && !m[id].inTried && m[id].refCount < NEW_BUCKETS_PER_ADDRESS
    requires us in t && t[us] == EMPTY && us.1 == BucketPosition(e, m[id].svc, true, us.0)
    ensures NewTable(e, m[id := m[id].(refCount := m[id].refCount + 1)], t[us := id])
    ensures RefCounts(m[id := m[id].(refCount := m[id].refCount + 1)], t[us := id])
    ensures 0 <= m[id].refCount
  {
    var m', t' := m[id := m[id].(refCount := m[id].refCount + 1)], t[us := id];
    assert m'.Keys == m.Keys && t'.Keys == t.Keys;
    forall x | x in m'
      ensures m'[x].refCount == |Slots(t', x)| <= NEW_BUCKETS_PER_ADDRESS
    {
      FilledSlots(t, us, id, x);
    }
  }

  /** One more reference (src/addrman.cpp:373-374). */
  ghost function AddRef(s: State, id: int, us: Slot): State
    requires id in s.mapInfo
  {
    s.(mapInfo := s.mapInfo[id := s.mapInfo[id].(refCount := s.mapInfo[id].refCount + 1)],
       new_ := s.new_[us := id])
  }

  lemma AddRefCore(e: Env, s: State, id: int, us: Slot)
    requires Core(e, s)
    requires id in s.mapInfo && !s.mapInfo[id].inTried && s.mapInfo[id].refCount < NEW_BUCKETS_PER_ADDRESS
    requires us in s.new_ && s.new_[us] == EMPTY
    requires us.1 == BucketPosition(e, s.mapInfo[id].svc, true, us.0)
    ensures Core(e, AddRef(s, id, us))
    ensures Loose(AddRef(s, id, us).mapInfo) == Loose(s.mapInfo) - {id}
    ensures NewIds(AddRef(s, id, us).mapInfo) == NewIds(s.mapInfo)
    ensures TriedIds(AddRef(s, id, us).mapInfo) == TriedIds(s.mapInfo)
  {
    hide AddrIndex, RandomIndex, TriedTable, NewTable, RefCounts, NewIds, TriedIds, Loose;
    var info := s.mapInfo[id].(refCount := s.mapInfo[id].refCount + 1);
    EnterNewTables(e, s.mapInfo, s.new_, id, us);
    SetInfoIndex(s, id, info);
    SetInfoTables(e, s.mapInfo, s.tried, s.new_, id, info);
    SetInfoIds(s.mapInfo, id, info);
  }

  lemma EnterNewCore(e: Env, s: State, id: int, us: Slot, dNew: int, dTried: int)
    requires Core(e, s) && Counts(s, dNew, dTried)
    requires id in Loose(s.mapInfo) && us in s.new_ && s.new_[us] == EMPTY
    requires us.1 == BucketPosition(e, s.mapInfo[id].svc, true, us.0)
    ensures Core(e, EnterNew(s, id, us))
    ensures Loose(EnterNew(s, id, us).mapInfo) == Loose(s.mapInfo) - {id}
    ensures Counts(EnterNew(s, id, us), dNew + 1, dTried)
  {
    hide IdRange, AddrIndex, RandomIndex, TriedTable, NewTable, RefCounts, NewIds, TriedIds;
    AddRefCore(e, s, id, us);
    assert EnterNew(s, id, us) == AddRef(s, id, us).(nNew := s.nNew + 1);
  }

  lemma EnterTriedTables(e: Env, m: map<int, Info>, tried: Table, new_: Table, id: int, ks: Slot)
    requires TriedTable(e, m, tried) && NewTable(e, m, new_) && RefCounts(m, new_)
    requires id in m && EMPTY !in m && !m[id].inTried && forall sl | sl in new_ :: new_[sl] != id
    requires ks == TriedSlot(e, m[id].svc) && tried[ks] == EMPTY
    ensures TriedTable(e, m[id := m[id].(inTried := true)], tried[ks := id])
    ensures NewTable(e, m[id := m[id].(inTried := true)], new_)
    ensures RefCounts(m[id := m[id].(inTried := true)], new_)
  {
    var m', t' := m[id := m[id].(inTried := true)], tried[ks := id];
    assert m'.Keys == m.Keys && t'.Keys == tried.Keys;
  }

  lemma EnterTriedCore(e: Env, s: State, id: int, dNew: int, dTried: int)
    requires Core(e, s) && Counts(s, dNew, dTried)
    requires id in Loose(s.mapInfo) && 0 < s.mapInfo[id].lastSuccess
    requires s.tried[TriedSlot(e, s.mapInfo[id].svc)] == EMPTY
    ensures Core(e, EnterTried(s, id, TriedSlot(e, s.mapInfo[id].svc)))
    ensures Loose(EnterTried(s, id, TriedSlot(e, s.mapInfo[id].svc)).mapInfo) == Loose(s.mapInfo) - {id}
    ensures Counts(EnterTried(s, id, TriedSlot(e, s.mapInfo[id].svc)), dNew + 1, dTried)
  {
    hide AddrIndex, RandomIndex, TriedTable, NewTable, RefCounts, NewIds, TriedIds;
    LooseHasNoRefs(e, s, id);
    EnterTriedTables(e, s.mapInfo, s.tried, s.new_, id, TriedSlot(e, s.mapInfo[id].svc));
    SetInfoIndex(s, id, s.mapInfo[id].(inTried := true));
    BecomesTried(s.mapInfo, id);
  }
}
