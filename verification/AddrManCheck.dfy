/** The debug checker `Check_` (src/addrman.cpp:468-565) decides the invariant. */
module AddrManCheck {
  import opened AddrManSpec
  import opened AddrManSteps
  import opened AddrManOps
  import opened AddrManRuns
  import opened AddrManSample
  import opened AddrMan

  /** What the checker asks of one entry (src/addrman.cpp:476-510). A missing address reads as 0. */
  predicate EntryOk(s: State, id: int)
    requires id in s.mapInfo
  {
    var info := s.mapInfo[id];
    && (if info.inTried then info.lastSuccess != 0 && info.refCount == 0
        else 0 < info.refCount <= NEW_BUCKETS_PER_ADDRESS)
    && (if info.svc.net in s.mapAddr then s.mapAddr[info.svc.net] else 0) == id
    && 0 <= info.randomPos < |s.vRandom| && s.vRandom[info.randomPos] == id
    && 0 <= info.lastTry && 0 <= info.lastSuccess
  }

  ghost predicate EntriesOk(s: State) {
    forall id | id in s.mapInfo :: EntryOk(s, id)
  }

  /** The whole verdict, apart from the null key. */
  ghost predicate Checked(e: Env, s: State) {
    && |s.vRandom| == s.nTried + s.nNew
    && EntriesOk(s)
    && |TriedIds(s.mapInfo)| == s.nTried && |NewIds(s.mapInfo)| == s.nNew
    && TriedTable(e, s.mapInfo, s.tried)
    && NewTable(e, s.mapInfo, s.new_)
    && (forall id | id in NewIds(s.mapInfo) :: s.mapInfo[id].refCount == |Slots(s.new_, id)|)
  }

  // ---------- The verdict against the invariant ----------

  lemma ConsistentIsChecked(e: Env, s: State)
    requires Consistent(e, s)
    ensures Checked(e, s)
  {
    RandomSize(e, s);
    forall id | id in s.mapInfo
      ensures EntryOk(s, id)
    {
      if s.mapInfo[id].inTried {
        TriedHasNoRefs(e, s, id);
      } else {
        assert id !in Loose(s.mapInfo);
      }
    }
  }

  ghost function Below(n: nat): (r: set<int>)
    ensures |r| == n && forall i :: i in r <==> 0 <= i < n
  {
    if n == 0 then {} else Below(n - 1) + {n - 1}
  }

  /** Positions that each entry claims for itself, as many as there are entries, are all taken. */
  lemma AllTaken(m: map<int, Info>, v: seq<int>, k: int)
    requires forall id | id in m :: 0 <= m[id].randomPos < |v| && v[m[id].randomPos] == id
    requires |v| == |m.Keys| && 0 <= k < |v|
    ensures v[k] in m && m[v[k]].randomPos == k
  {
    var used := set id | id in m.Keys && id in m :: m[id].randomPos;
    ImageSize(m, v, m.Keys);
    SubsetSize(used, Below(|v|));
    assert k in used;
  }

  lemma {:induction false} ImageSize(m: map<int, Info>, v: seq<int>, ids: set<int>)
    requires forall id | id in m :: 0 <= m[id].randomPos < |v| && v[m[id].randomPos] == id
    requires ids <= m.Keys
    ensures |set id | id in ids && id in m :: m[id].randomPos| == |ids|
    decreases |ids|
  {
    var image := set id | id in ids && id in m :: m[id].randomPos;
    if ids == {} {
      assert image == {};
    } else {
      var a := Pick(ids);
      var rest := ids - {a};
      ImageSize(m, v, rest);
      var less := set id | id in rest && id in m :: m[id].randomPos;
      assert image == less + {m[a].randomPos};
      assert m[a].randomPos !in less;
    }
  }

  lemma {:induction false} SubsetSize<T>(a: set<T>, b: set<T>)
    requires a <= b && |a| == |b|
    ensures a == b
    decreases |a|
  {
    if a != {} {
      var x :| x in a;
      SubsetSize(a - {x}, b - {x});
      assert a == (a - {x}) + {x} && b == (b - {x}) + {x};
    }
  }

  /** Together with what the checker does not look at -- the range of ids, addresses that point
      nowhere, pending collisions -- a clean verdict is the invariant. */
  lemma CheckedIsConsistent(e: Env, s: State)
    requires Checked(e, s) && Collisions(e, s) && IdRange(s.mapInfo, s.nIdCount)
    requires forall net | net in s.mapAddr :: s.mapAddr[net] in s.mapInfo && s.mapInfo[s.mapAddr[net]].svc.net == net
    requires forall id | id in s.mapInfo :: s.mapInfo[id].svc.net in s.mapAddr
    ensures Consistent(e, s)
  {
    hide TriedTable, NewTable, RefCounts, Times, Loose, NewIds, TriedIds, RandomIndex, EntriesOk, Collisions;
    CheckedRandom(s);
    CheckedTables(e, s);
  }

  lemma CheckedRandom(s: State)
    requires EntriesOk(s) && |s.vRandom| == |NewIds(s.mapInfo)| + |TriedIds(s.mapInfo)|
    ensures RandomIndex(s.mapInfo, s.vRandom)
  {
    var m := s.mapInfo;
    assert |m.Keys| == |s.vRandom| by {
      assert m.Keys == NewIds(m) + TriedIds(m) && NewIds(m) !! TriedIds(m);
    }
    forall id | id in m
      ensures 0 <= m[id].randomPos < |s.vRandom| && s.vRandom[m[id].randomPos] == id
    {
      assert EntryOk(s, id);
    }
    forall k | 0 <= k < |s.vRandom|
      ensures s.vRandom[k] in m && m[s.vRandom[k]].randomPos == k
    {
      AllTaken(m, s.vRandom, k);
    }
  }

  lemma CheckedTables(e: Env, s: State)
    requires EntriesOk(s) && TriedTable(e, s.mapInfo, s.tried) && NewTable(e, s.mapInfo, s.new_)
    requires forall id | id in NewIds(s.mapInfo) :: s.mapInfo[id].refCount == |Slots(s.new_, id)|
    requires EMPTY !in s.mapInfo
    ensures RefCounts(s.mapInfo, s.new_) && Times(s.mapInfo) && Loose(s.mapInfo) == {}
    ensures forall id | id in s.mapInfo :: s.mapInfo[id].svc.net in s.mapAddr ==> s.mapAddr[s.mapInfo[id].svc.net] == id
  {
    forall id | id in s.mapInfo
      ensures s.mapInfo[id].refCount == |Slots(s.new_, id)| <= NEW_BUCKETS_PER_ADDRESS
    {
      assert EntryOk(s, id);
      if s.mapInfo[id].inTried {
        assert Slots(s.new_, id) == {};
      } else {
        assert id in NewIds(s.mapInfo);
      }
    }
    assert forall id | id in s.mapInfo :: EntryOk(s, id);
    var loose := Loose(s.mapInfo);
    forall id | id in s.mapInfo
      ensures id !in loose
    {
      assert EntryOk(s, id);
    }
    assert loose == {};
  }

  // ---------- The loops ----------

  /** One round of the loop (src/addrman.cpp:479-509). */
  method CheckEntry(m: AddrMan, id: int) returns (err: int)
    requires id in m.mapInfo
    ensures err == 0 <==> EntryOk(m.Now(), id)
  {
    hide TableOf;
    var info := m.mapInfo[id];
    if info.inTried {
      if info.lastSuccess == 0 { return -1; }
      if info.refCount != 0 { return -2; }
    } else {
      if info.refCount < 0 || info.refCount > NEW_BUCKETS_PER_ADDRESS { return -3; }
      if info.refCount == 0 { return -4; }
    }
    if (if info.svc.net in m.mapAddr then m.mapAddr[info.svc.net] else 0) != id { return -5; }
    if info.randomPos < 0 || info.randomPos >= |m.vRandom| || m.vRandom[info.randomPos] != id { return -14; }
    if info.lastTry < 0 { return -6; }
    if info.lastSuccess < 0 { return -8; }
    return 0;
  }

  /** src/addrman.cpp:476-510 */
  method CheckEntries(m: AddrMan) returns (err: int, setTried: set<int>, mapNew: map<int, int>)
    ensures err == 0 <==> EntriesOk(m.Now())
    ensures err == 0 ==> setTried == TriedIds(m.mapInfo)
    ensures err == 0 ==> mapNew == map id | id in NewIds(m.mapInfo) :: m.mapInfo[id].refCount
  {
    hide TableOf, EntryOk;
    ghost var s := m.Now();
    var rest := m.mapInfo.Keys;
    setTried, mapNew := {}, map[];
    while rest != {}
      invariant rest <= m.mapInfo.Keys
      invariant forall id | id in m.mapInfo && id !in rest :: EntryOk(s, id)
      invariant setTried == set id | id in m.mapInfo && id !in rest && m.mapInfo[id].inTried
      invariant mapNew == map id | id in m.mapInfo && id !in rest && !m.mapInfo[id].inTried :: m.mapInfo[id].refCount
      decreases |rest|
    {
      assert exists x :: x in rest by { var x := Pick(rest); }
      var id :| id in rest;
      err := CheckEntry(m, id);
      if err != 0 {
        return;
      }
      if m.mapInfo[id].inTried {
        setTried := setTried + {id};
      } else {
        mapNew := mapNew[id := m.mapInfo[id].refCount];
      }
      rest := rest - {id};
    }
    err := 0;
  }

  /** Slots that a bucket-by-bucket walk has passed. */
  predicate Passed(sl: Slot, b: int, i: int) {
    sl.0 < b || (sl.0 == b && sl.1 < i)
  }

  /** The tried walk so far: every occupied slot passed holds its own entry. */
  ghost predicate TriedPassed(e: Env, m: map<int, Info>, t: Table, b: int, i: int) {
    forall sl | sl in t && t[sl] != EMPTY && Passed(sl, b, i) ::
      t[sl] in m && m[t[sl]].inTried && TriedSlot(e, m[t[sl]].svc) == sl
  }

  /** The tried entries whose slot has not been passed or does not hold them. */
  ghost function TriedLeft(e: Env, m: map<int, Info>, t: Table, b: int, i: int): set<int>
    requires t.Keys == Grid(TRIED_BUCKET_COUNT)
  {
    set id | id in m && m[id].inTried
             && !(Passed(TriedSlot(e, m[id].svc), b, i) && t[TriedSlot(e, m[id].svc)] == id)
  }

  lemma TriedVerdict(e: Env, m: map<int, Info>, t: Table)
    requires t.Keys == Grid(TRIED_BUCKET_COUNT)
    ensures TriedTable(e, m, t) <==>
              TriedPassed(e, m, t, TRIED_BUCKET_COUNT, 0) && TriedLeft(e, m, t, TRIED_BUCKET_COUNT, 0) == {}
    ensures TriedPassed(e, m, t, 0, 0) && TriedLeft(e, m, t, 0, 0) == TriedIds(m)
  {
    if TriedTable(e, m, t) {
      var left := TriedLeft(e, m, t, TRIED_BUCKET_COUNT, 0);
      forall id | id in m
        ensures id !in left
      {
      }
      assert left == {};
    }
    if TriedLeft(e, m, t, TRIED_BUCKET_COUNT, 0) == {} {
      forall id | id in m && m[id].inTried
        ensures t[TriedSlot(e, m[id].svc)] == id
      {
        assert id !in TriedLeft(e, m, t, TRIED_BUCKET_COUNT, 0);
      }
    }
  }

  lemma TriedStep(e: Env, m: map<int, Info>, t: Table, b: int, i: int)
    requires t.Keys == Grid(TRIED_BUCKET_COUNT) && 0 <= b < TRIED_BUCKET_COUNT && 0 <= i < BUCKET_SIZE
    requires TriedPassed(e, m, t, b, i) && EMPTY !in m
    ensures (b, i) in t
    ensures t[(b, i)] == EMPTY ==>
              TriedPassed(e, m, t, b, i + 1) && TriedLeft(e, m, t, b, i + 1) == TriedLeft(e, m, t, b, i)
    ensures t[(b, i)] != EMPTY ==>
              var ok := t[(b, i)] in TriedLeft(e, m, t, b, i) && TriedSlot(e, m[t[(b, i)]].svc) == (b, i);
              && (ok ==> TriedPassed(e, m, t, b, i + 1))
              && (ok ==> TriedLeft(e, m, t, b, i + 1) == TriedLeft(e, m, t, b, i) - {t[(b, i)]})
              && (!ok ==> !TriedTable(e, m, t))
  {
    var id := t[(b, i)];
    var l, l' := TriedLeft(e, m, t, b, i), TriedLeft(e, m, t, b, i + 1);
    if id == EMPTY {
      assert l' == l;
    } else if id in l && TriedSlot(e, m[id].svc) == (b, i) {
      assert l' == l - {id};
    }
  }

  lemma NextRow(e: Env, m: map<int, Info>, t: Table, b: int)
    requires t.Keys == Grid(TRIED_BUCKET_COUNT)
    ensures TriedPassed(e, m, t, b, BUCKET_SIZE) == TriedPassed(e, m, t, b + 1, 0)
    ensures TriedLeft(e, m, t, b, BUCKET_SIZE) == TriedLeft(e, m, t, b + 1, 0)
  {
    assert forall sl | sl in t :: Passed(sl, b, BUCKET_SIZE) == Passed(sl, b + 1, 0);
  }

  /** src/addrman.cpp:519-535 and 554-556 */
  method CheckTried(m: AddrMan, setTried: set<int>) returns (err: int)
    requires m.Shape() && TableOf(m.vvTried).Keys == Grid(TRIED_BUCKET_COUNT)
    requires EMPTY !in m.mapInfo && setTried == TriedIds(m.mapInfo)
    ensures err == 0 <==> TriedTable(m.env, m.mapInfo, TableOf(m.vvTried))
  {
    hide TableOf, TriedTable, TriedPassed, TriedLeft, TriedSlot, Grid;
    ghost var t := TableOf(m.vvTried);
    TriedVerdict(m.env, m.mapInfo, t);
    var left := setTried;
    for n := 0 to TRIED_BUCKET_COUNT
      invariant TriedPassed(m.env, m.mapInfo, t, n, 0) && left == TriedLeft(m.env, m.mapInfo, t, n, 0)
    {
      for i := 0 to BUCKET_SIZE
        invariant TriedPassed(m.env, m.mapInfo, t, n, i) && left == TriedLeft(m.env, m.mapInfo, t, n, i)
      {
        TriedStep(m.env, m.mapInfo, t, n, i);
        LeftIsTried(m.env, m.mapInfo, t, n, i);
        var id := Load(m.vvTried, n, i);
        if id != EMPTY {
          if id !in left {
            return -11;
          }
          SlotParts(m.env, m.mapInfo[id].svc, (n, i));
          if TriedBucket(m.env, m.mapInfo[id].svc) != n {
            return -17;
          }
          if BucketPosition(m.env, m.mapInfo[id].svc, false, n) != i {
            return -18;
          }
          left := left - {id};
        }
      }
      NextRow(m.env, m.mapInfo, t, n);
    }
    if left != {} {
      return -13;
    }
    return 0;
  }

  lemma LeftIsTried(e: Env, m: map<int, Info>, t: Table, b: int, i: int)
    requires t.Keys == Grid(TRIED_BUCKET_COUNT)
    ensures TriedLeft(e, m, t, b, i) <= m.Keys
  {
  }

  lemma SlotParts(e: Env, svc: Service, sl: Slot)
    ensures TriedSlot(e, svc) == sl <==> TriedBucket(e, svc) == sl.0 && BucketPosition(e, svc, false, sl.0) == sl.1
  {
  }

  // ---------- The walk over the new table ----------

  ghost function SeenSlots(t: Table, id: int, b: int, i: int): set<Slot> {
    set sl | sl in t && t[sl] == id && Passed(sl, b, i)
  }

  /** The new walk so far: occupied slots passed hold new entries at their position, none of
      them more often than its reference count. */
  ghost predicate NewPassed(e: Env, m: map<int, Info>, t: Table, b: int, i: int) {
    && (forall sl | sl in t && t[sl] != EMPTY && Passed(sl, b, i) ::
          t[sl] in m && !m[t[sl]].inTried && sl.1 == BucketPosition(e, m[t[sl]].svc, true, sl.0))
    && (forall id | id in NewIds(m) :: |SeenSlots(t, id, b, i)| <= m[id].refCount)
  }

  /** References still to be found, without the entries that have none left. */
  ghost function NewLeft(m: map<int, Info>, t: Table, b: int, i: int): map<int, int> {
    map id | id in NewIds(m) && |SeenSlots(t, id, b, i)| < m[id].refCount :: m[id].refCount - |SeenSlots(t, id, b, i)|
  }

  /** The verdict on the new table: positions and counts. */
  ghost predicate NewVerdict(e: Env, m: map<int, Info>, t: Table) {
    NewTable(e, m, t) && forall id | id in NewIds(m) :: m[id].refCount == |Slots(t, id)|
  }

  lemma NewStart(e: Env, m: map<int, Info>, t: Table)
    requires t.Keys == Grid(NEW_BUCKET_COUNT) && forall id | id in NewIds(m) :: 0 < m[id].refCount
    ensures NewPassed(e, m, t, 0, 0) && NewLeft(m, t, 0, 0) == map id | id in NewIds(m) :: m[id].refCount
  {
    forall id
      ensures SeenSlots(t, id, 0, 0) == {}
    {
    }
  }

  lemma NewEnd(e: Env, m: map<int, Info>, t: Table)
    requires t.Keys == Grid(NEW_BUCKET_COUNT) && NewPassed(e, m, t, NEW_BUCKET_COUNT, 0)
    ensures NewVerdict(e, m, t) <==> NewLeft(m, t, NEW_BUCKET_COUNT, 0) == map[]
  {
    forall id
      ensures SeenSlots(t, id, NEW_BUCKET_COUNT, 0) == Slots(t, id)
    {
    }
    var left := NewLeft(m, t, NEW_BUCKET_COUNT, 0);
    if NewVerdict(e, m, t) {
      forall id | id in NewIds(m)
        ensures id !in left
      {
      }
      assert left == map[];
    } else {
      var id :| id in NewIds(m) && m[id].refCount != |Slots(t, id)|;
      assert id in left;
    }
  }

  lemma SeenStep(t: Table, b: int, i: int, id: int)
    requires (b, i) in t
    ensures t[(b, i)] == id ==> |SeenSlots(t, id, b, i + 1)| == |SeenSlots(t, id, b, i)| + 1
    ensures t[(b, i)] != id ==> SeenSlots(t, id, b, i + 1) == SeenSlots(t, id, b, i)
  {
    var a, c := SeenSlots(t, id, b, i), SeenSlots(t, id, b, i + 1);
    if t[(b, i)] == id {
      assert c == a + {(b, i)};
    } else {
      assert c == a;
    }
  }

  lemma SeenWithin(t: Table, b: int, i: int, id: int)
    ensures |SeenSlots(t, id, b, i)| <= |Slots(t, id)|
  {
    CardinalityMonotone(SeenSlots(t, id, b, i), Slots(t, id));
  }

  lemma {:induction false} CardinalityMonotone<T>(a: set<T>, b: set<T>)
    requires a <= b
    ensures |a| <= |b|
    decreases |a|
  {
    if a != {} {
      var x :| x in a;
      CardinalityMonotone(a - {x}, b - {x});
    }
  }

  lemma NewStepEmpty(e: Env, m: map<int, Info>, t: Table, b: int, i: int)
    requires NewPassed(e, m, t, b, i) && EMPTY !in m && (b, i) in t && t[(b, i)] == EMPTY
    ensures NewPassed(e, m, t, b, i + 1) && NewLeft(m, t, b, i + 1) == NewLeft(m, t, b, i)
  {
    forall id | id in NewIds(m)
      ensures SeenSlots(t, id, b, i + 1) == SeenSlots(t, id, b, i)
    {
      SeenStep(t, b, i, id);
    }
  }

  lemma NewStepOk(e: Env, m: map<int, Info>, t: Table, b: int, i: int)
    requires NewPassed(e, m, t, b, i) && (b, i) in t && t[(b, i)] != EMPTY && t[(b, i)] in NewLeft(m, t, b, i)
    requires i == BucketPosition(e, m[t[(b, i)]].svc, true, b)
    ensures NewPassed(e, m, t, b, i + 1)
    ensures var id := t[(b, i)];
            var l := NewLeft(m, t, b, i);
            NewLeft(m, t, b, i + 1) == if l[id] == 1 then l - {id} else l[id := l[id] - 1]
  {
    var id := t[(b, i)];
    var l := NewLeft(m, t, b, i);
    forall x | x in NewIds(m)
      ensures |SeenSlots(t, x, b, i + 1)| == |SeenSlots(t, x, b, i)| + (if x == id then 1 else 0)
    {
      SeenStep(t, b, i, x);
    }
    hide SeenSlots;
    assert NewLeft(m, t, b, i + 1) == if l[id] == 1 then l - {id} else l[id := l[id] - 1];
  }

  lemma NewStepBad(e: Env, m: map<int, Info>, t: Table, b: int, i: int)
    requires NewPassed(e, m, t, b, i) && EMPTY !in m && (b, i) in t && t[(b, i)] != EMPTY
    requires t[(b, i)] !in NewLeft(m, t, b, i) || i != BucketPosition(e, m[t[(b, i)]].svc, true, b)
    ensures !NewVerdict(e, m, t)
  {
    var id := t[(b, i)];
    SeenStep(t, b, i, id);
    SeenWithin(t, b, i + 1, id);
    hide SeenSlots;
    assert id in m && !m[id].inTried ==> id in NewIds(m);
  }

  lemma SeenNextRow(t: Table, b: int, id: int)
    requires t.Keys == Grid(NEW_BUCKET_COUNT)
    ensures SeenSlots(t, id, b, BUCKET_SIZE) == SeenSlots(t, id, b + 1, 0)
  {
    assert forall sl | sl in t :: Passed(sl, b, BUCKET_SIZE) == Passed(sl, b + 1, 0);
  }

  lemma NewNextRow(e: Env, m: map<int, Info>, t: Table, b: int)
    requires t.Keys == Grid(NEW_BUCKET_COUNT)
    ensures NewPassed(e, m, t, b, BUCKET_SIZE) == NewPassed(e, m, t, b + 1, 0)
    ensures NewLeft(m, t, b, BUCKET_SIZE) == NewLeft(m, t, b + 1, 0)
  {
    hide SeenSlots, NewIds, BucketPosition;
    assert forall sl | sl in t :: Passed(sl, b, BUCKET_SIZE) == Passed(sl, b + 1, 0);
    forall id
      ensures SeenSlots(t, id, b, BUCKET_SIZE) == SeenSlots(t, id, b + 1, 0)
    {
      SeenNextRow(t, b, id);
    }
  }

  /** src/addrman.cpp:537-552 and 557-559 */
  method CheckNew(m: AddrMan, mapNew: map<int, int>) returns (err: int)
    requires m.Shape() && TableOf(m.vvNew).Keys == Grid(NEW_BUCKET_COUNT) && EMPTY !in m.mapInfo
    requires mapNew == map id | id in NewIds(m.mapInfo) :: m.mapInfo[id].refCount
    requires forall id | id in NewIds(m.mapInfo) :: 0 < m.mapInfo[id].refCount
    ensures err == 0 <==> NewVerdict(m.env, m.mapInfo, TableOf(m.vvNew))
  {
    hide TableOf, NewVerdict, NewPassed, NewLeft, Grid;
    ghost var t := TableOf(m.vvNew);
    NewStart(m.env, m.mapInfo, t);
    var left := mapNew;
    for n := 0 to NEW_BUCKET_COUNT
      invariant NewPassed(m.env, m.mapInfo, t, n, 0) && left == NewLeft(m.mapInfo, t, n, 0)
    {
      for i := 0 to BUCKET_SIZE
        invariant NewPassed(m.env, m.mapInfo, t, n, i) && left == NewLeft(m.mapInfo, t, n, i)
      {
        var id := Load(m.vvNew, n, i);
        NewLeftKeys(m.mapInfo, t, n, i);
        if id == EMPTY {
          NewStepEmpty(m.env, m.mapInfo, t, n, i);
        } else {
          if id !in left {
            NewStepBad(m.env, m.mapInfo, t, n, i);
            return -12;
          }
          if BucketPosition(m.env, m.mapInfo[id].svc, true, n) != i {
            NewStepBad(m.env, m.mapInfo, t, n, i);
            return -19;
          }
          NewStepOk(m.env, m.mapInfo, t, n, i);
          left := if left[id] == 1 then left - {id} else left[id := left[id] - 1];
        }
      }
      NewNextRow(m.env, m.mapInfo, t, n);
    }
    NewEnd(m.env, m.mapInfo, t);
    if left != map[] {
      return -15;
    }
    return 0;
  }

  lemma NewLeftKeys(m: map<int, Info>, t: Table, b: int, i: int)
    ensures NewLeft(m, t, b, i).Keys <= m.Keys
  {
  }

  /** src/addrman.cpp:468-565. nullKey tells whether the key is null. */
  method Check(m: AddrMan, nullKey: bool) returns (err: int)
    requires m.Shape() && EMPTY !in m.mapInfo
    ensures err == 0 <==> Checked(m.env, m.Now()) && !nullKey
  {
    if |m.vRandom| != m.nTried + m.nNew {
      return -7;
    }
    var e, setTried, mapNew := CheckEntries(m);
    if e != 0 {
      return e;
    }
    if |setTried| != m.nTried {
      return -9;
    }
    MapSize(m.mapInfo, mapNew);
    if |mapNew| != m.nNew {
      return -10;
    }
    TableKeys(m);
    AllReferenced(m.Now());
    hide TableOf, TriedTable, NewTable, EntriesOk, NewIds, TriedIds;
    e := CheckTried(m, setTried);
    if e != 0 {
      return e;
    }
    e := CheckNew(m, mapNew);
    if e != 0 {
      return e;
    }
    if nullKey {
      return -16;
    }
    return 0;
  }

  lemma MapSize(m: map<int, Info>, n: map<int, int>)
    requires n == map id | id in NewIds(m) :: m[id].refCount
    ensures |n| == |NewIds(m)|
  {
    assert n.Keys == NewIds(m);
  }

  lemma AllReferenced(s: State)
    requires EntriesOk(s)
    ensures forall id | id in NewIds(s.mapInfo) :: 0 < s.mapInfo[id].refCount
  {
    forall id | id in NewIds(s.mapInfo)
      ensures 0 < s.mapInfo[id].refCount
    {
      assert EntryOk(s, id);
    }
  }

  lemma TableKeys(m: AddrMan)
    requires m.Shape()
    ensures TableOf(m.vvTried).Keys == Grid(TRIED_BUCKET_COUNT) && TableOf(m.vvNew).Keys == Grid(NEW_BUCKET_COUNT)
  {
  }
}
