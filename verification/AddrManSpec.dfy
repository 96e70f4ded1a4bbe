/**
  The address manager of src/addrman.{h,cpp} as a value: its five cross-linked
  structures, the operations on them, and the invariant that `Check_` tests.

  Hash-derived buckets and positions are functions of the address; the secret
  key and the asmap they also depend on are fixed for a manager, so an `Env`
  carries the functions themselves.
 */
module AddrManSpec {
  import opened Common

  // ---------- Constants (src/addrman.h:133-180) ----------

  const TRIED_BUCKET_COUNT := 256
  const NEW_BUCKET_COUNT := 1024
  const BUCKET_SIZE := 64
  const NEW_BUCKETS_PER_ADDRESS := 8
  const HORIZON_DAYS := 30
  const RETRIES := 3
  const MAX_FAILURES := 10
  const MIN_FAIL_DAYS := 7
  const REPLACEMENT_SECONDS := 4 * 60 * 60
  const SET_TRIED_COLLISION_SIZE := 10
  const TEST_WINDOW := 40 * 60
  const EMPTY := -1

  // ---------- Data ----------

  datatype NetAddr = NetAddr(ip: nat)

  /** CService: a network address with a port. */
  datatype Service = Service(net: NetAddr, port: nat)

  /** CAddress: what a peer announces. */
  datatype Address = Address(svc: Service, services: set<nat>, time: int)

  /** CAddrInfo. */
  datatype Info = Info(
    svc: Service, services: set<nat>, time: int, source: NetAddr,
    lastTry: int, lastCountAttempt: int, lastSuccess: int, attempts: int,
    refCount: int, inTried: bool, randomPos: int)

  /** The functions that a fixed key and asmap determine, and the address classifiers. */
  datatype Env = Env(
    triedHash: Service -> nat,
    newHash: (NetAddr, NetAddr) -> nat,
    posHash: (Service, bool, int) -> nat,
    routable: NetAddr -> bool,
    valid: NetAddr -> bool)

  type Slot = (int, int)
  type Table = map<Slot, int>

  datatype State = State(
    nIdCount: int,
    mapInfo: map<int, Info>,
    mapAddr: map<NetAddr, int>,
    vRandom: seq<int>,
    nTried: int,
    tried: Table,
    nNew: int,
    new_: Table,
    nLastGood: int,
    collisions: set<int>)

  function Truncated(x: int): (r: int)
    ensures 0 <= r < U32
  {
    x % U32
  }

  // ---------- Buckets and positions (src/addrman.cpp:18-49) ----------

  function TriedBucket(e: Env, svc: Service): (b: int)
    ensures 0 <= b < TRIED_BUCKET_COUNT
  {
    e.triedHash(svc) % TRIED_BUCKET_COUNT
  }

  function NewBucket(e: Env, svc: Service, source: NetAddr): (b: int)
    ensures 0 <= b < NEW_BUCKET_COUNT
  {
    e.newHash(svc.net, source) % NEW_BUCKET_COUNT
  }

  function BucketPosition(e: Env, svc: Service, isNew: bool, bucket: int): (p: int)
    ensures 0 <= p < BUCKET_SIZE
  {
    e.posHash(svc, isNew, bucket) % BUCKET_SIZE
  }

  function TriedSlot(e: Env, svc: Service): (sl: Slot)
    ensures sl in Grid(TRIED_BUCKET_COUNT)
  {
    var b := TriedBucket(e, svc);
    (b, BucketPosition(e, svc, false, b))
  }

  function NewSlot(e: Env, svc: Service, source: NetAddr): (sl: Slot)
    ensures sl in Grid(NEW_BUCKET_COUNT)
  {
    var b := NewBucket(e, svc, source);
    (b, BucketPosition(e, svc, true, b))
  }

  function Grid(buckets: int): set<Slot> {
    set b, i | 0 <= b < buckets && 0 <= i < BUCKET_SIZE :: (b, i)
  }

  /** src/addrman.cpp:51-79 */
  predicate IsTerrible(info: Info, now: int) {
    if info.lastTry != 0 && info.lastTry >= now - 60 then false
    else if info.time > now + 10 * 60 then true
    else if info.time == 0 || now - info.time > HORIZON_DAYS * 24 * 60 * 60 then true
    else if info.lastSuccess == 0 && info.attempts >= RETRIES then true
    else now - info.lastSuccess > MIN_FAIL_DAYS * 24 * 60 * 60 && info.attempts >= MAX_FAILURES
  }

  // ---------- The invariant (src/addrman.cpp:468-565) ----------

  ghost function Slots(t: Table, id: int): set<Slot> {
    set sl | sl in t && t[sl] == id
  }

  ghost function TriedIds(m: map<int, Info>): set<int> {
    set id | id in m && m[id].inTried
  }

  ghost function NewIds(m: map<int, Info>): set<int> {
    set id | id in m && !m[id].inTried
  }

  /** Entries in neither table: only inside an operation. */
  ghost function Loose(m: map<int, Info>): set<int> {
    set id | id in m && !m[id].inTried && m[id].refCount == 0
  }

  ghost predicate IdRange(m: map<int, Info>, n: int) {
    0 <= n && forall id | id in m :: 0 <= id < n
  }

  /** mapAddr is the inverse of mapInfo's addresses. */
  ghost predicate AddrIndex(m: map<int, Info>, a: map<NetAddr, int>) {
    && (forall id | id in m :: m[id].svc.net in a && a[m[id].svc.net] == id)
    && (forall net | net in a :: a[net] in m && m[a[net]].svc.net == net)
  }

  /** vRandom is the inverse of mapInfo's random positions. */
  ghost predicate RandomIndex(m: map<int, Info>, v: seq<int>) {
    && (forall id | id in m :: 0 <= m[id].randomPos < |v| && v[m[id].randomPos] == id)
    && (forall k | 0 <= k < |v| :: v[k] in m && m[v[k]].randomPos == k)
  }

  /** Every tried entry holds exactly the slot its address hashes to. */
  ghost predicate TriedTable(e: Env, m: map<int, Info>, t: Table) {
    && t.Keys == Grid(TRIED_BUCKET_COUNT)
    && (forall sl | sl in t && t[sl] != EMPTY ::
          t[sl] in m && m[t[sl]].inTried && TriedSlot(e, m[t[sl]].svc) == sl)
    && (forall id | id in m && m[id].inTried :: t[TriedSlot(e, m[id].svc)] == id)
  }

  /** A new entry sits at its own position of each bucket it is in. */
  ghost predicate NewTable(e: Env, m: map<int, Info>, t: Table) {
    && t.Keys == Grid(NEW_BUCKET_COUNT)
    && (forall sl | sl in t && t[sl] != EMPTY ::
          t[sl] in m && !m[t[sl]].inTried && sl.1 == BucketPosition(e, m[t[sl]].svc, true, sl.0))
  }

  /** Reference counts count slots. */
  ghost predicate RefCounts(m: map<int, Info>, t: Table) {
    forall id | id in m :: m[id].refCount == |Slots(t, id)| <= NEW_BUCKETS_PER_ADDRESS
  }

  ghost predicate Times(m: map<int, Info>) {
    forall id | id in m ::
      && 0 <= m[id].lastTry
      && 0 <= m[id].lastSuccess
      && (m[id].inTried ==> 0 < m[id].lastSuccess)
  }

  /** At most ten pending collisions, each of them against an occupied tried slot. */
  ghost predicate Collisions(e: Env, s: State) {
    && |s.collisions| <= SET_TRIED_COLLISION_SIZE
    && (forall id | id in s.collisions :: 0 <= id < s.nIdCount)
    && (forall id | id in s.collisions && id in s.mapInfo ::
          TriedSlot(e, s.mapInfo[id].svc) in s.tried && s.tried[TriedSlot(e, s.mapInfo[id].svc)] != EMPTY)
  }

  /** The counters are the table sizes, up to the given amounts by which an operation is behind. */
  ghost predicate Counts(s: State, dNew: int, dTried: int) {
    && s.nNew == |NewIds(s.mapInfo)| + dNew
    && s.nTried == |TriedIds(s.mapInfo)| + dTried
  }

  ghost predicate Index(s: State) {
    && IdRange(s.mapInfo, s.nIdCount)
    && AddrIndex(s.mapInfo, s.mapAddr)
    && RandomIndex(s.mapInfo, s.vRandom)
  }

  ghost predicate Tables(e: Env, s: State) {
    && TriedTable(e, s.mapInfo, s.tried)
    && NewTable(e, s.mapInfo, s.new_)
    && RefCounts(s.mapInfo, s.new_)
    && Times(s.mapInfo)
  }

  ghost predicate Core(e: Env, s: State) {
    Index(s) && Tables(e, s)
  }

  ghost predicate Consistent(e: Env, s: State) {
    && Core(e, s)
    && Loose(s.mapInfo) == {}
    && Counts(s, 0, 0)
    && Collisions(e, s)
  }

  // ---------- Operations ----------

  /** src/addrman.h:563-587 */
  ghost function Init(): State {
    State(0, map[], map[], [], 0, EmptyTable(TRIED_BUCKET_COUNT), 0, EmptyTable(NEW_BUCKET_COUNT), 1, {})
  }

  ghost function EmptyTable(buckets: int): Table {
    map sl | sl in Grid(buckets) :: EMPTY
  }

  /** src/addrman.cpp:97-110 */
  function Find(s: State, net: NetAddr): Option<int> {
    if net in s.mapAddr && s.mapAddr[net] in s.mapInfo then Some(s.mapAddr[net]) else None
  }

  function SetInfo(s: State, id: int, info: Info): State {
    s.(mapInfo := s.mapInfo[id := info])
  }

  /** src/addrman.cpp:112-123 */
  function Create(s: State, addr: Address, source: NetAddr): State {
    s.(nIdCount := s.nIdCount + 1,
       mapInfo := s.mapInfo[s.nIdCount :=
         Info(addr.svc, addr.services, addr.time, source, 0, 0, 0, 0, 0, false, |s.vRandom|)],
       mapAddr := s.mapAddr[addr.svc.net := s.nIdCount],
       vRandom := s.vRandom + [s.nIdCount])
  }

  /** src/addrman.cpp:125-143 */
  ghost function SwapRandom(s: State, i: int, j: int): State
    requires Index(s)
    requires 0 <= i < |s.vRandom| && 0 <= j < |s.vRandom|
  {
    if i == j then s else
      var id1, id2 := s.vRandom[i], s.vRandom[j];
      var m1 := s.mapInfo[id1 := s.mapInfo[id1].(randomPos := j)];
      s.(mapInfo := m1[id2 := m1[id2].(randomPos := i)],
         vRandom := s.vRandom[i := id2][j := id1])
  }

  /** src/addrman.cpp:145-156 */
  ghost function Delete(s: State, id: int): State
    requires Index(s) && id in s.mapInfo
  {
    var s1 := SwapRandom(s, s.mapInfo[id].randomPos, |s.vRandom| - 1);
    s1.(vRandom := s1.vRandom[..|s1.vRandom| - 1],
        mapAddr := s1.mapAddr - {s.mapInfo[id].svc.net},
        mapInfo := s1.mapInfo - {id},
        nNew := s1.nNew - 1)
  }

  ghost function Unref(s: State, sl: Slot): State
    requires sl in s.new_ && s.new_[sl] in s.mapInfo
  {
    var id := s.new_[sl];
    s.(mapInfo := s.mapInfo[id := s.mapInfo[id].(refCount := s.mapInfo[id].refCount - 1)],
       new_ := s.new_[sl := EMPTY])
  }

  /** src/addrman.cpp:158-170 */
  ghost function ClearNew(s: State, sl: Slot): State
    requires Index(s)
    requires sl in s.new_
    requires s.new_[sl] != EMPTY ==> s.new_[sl] in s.mapInfo
  {
    if s.new_[sl] == EMPTY then s
    else
      var id := s.new_[sl];
      var s1 := Unref(s, sl);
      UnrefIndex(s, sl);
      if s1.mapInfo[id].refCount == 0 then Delete(s1, id) else s1
  }

  lemma UnrefIndex(s: State, sl: Slot)
    requires Index(s) && sl in s.new_ && s.new_[sl] in s.mapInfo
    ensures Index(Unref(s, sl))
  {
  }

  ghost function Without(t: Table, id: int): Table {
    map sl | sl in t :: if t[sl] == id then EMPTY else t[sl]
  }

  /** The entry leaves every new bucket (src/addrman.cpp:173-183). */
  ghost function LeaveNew(s: State, id: int): State
    requires id in s.mapInfo
  {
    s.(new_ := Without(s.new_, id),
       mapInfo := s.mapInfo[id := s.mapInfo[id].(refCount := 0)],
       nNew := s.nNew - 1)
  }

  /** The entry of a tried slot leaves the tried table (src/addrman.cpp:193-200). */
  ghost function LeaveTried(s: State, ks: Slot): State
    requires ks in s.tried && s.tried[ks] in s.mapInfo
  {
    var id := s.tried[ks];
    s.(mapInfo := s.mapInfo[id := s.mapInfo[id].(inTried := false)],
       tried := s.tried[ks := EMPTY],
       nTried := s.nTried - 1)
  }

  /** An entry in no table takes an empty new slot (src/addrman.cpp:206-211). */
  ghost function EnterNew(s: State, id: int, us: Slot): State
    requires id in s.mapInfo
  {
    s.(mapInfo := s.mapInfo[id := s.mapInfo[id].(refCount := 1)],
       new_ := s.new_[us := id],
       nNew := s.nNew + 1)
  }

  /** An entry in no table takes an empty tried slot (src/addrman.cpp:213-217). */
  ghost function EnterTried(s: State, id: int, ks: Slot): State
    requires id in s.mapInfo
  {
    s.(tried := s.tried[ks := id],
       nTried := s.nTried + 1,
       mapInfo := s.mapInfo[id := s.mapInfo[id].(inTried := true)])
  }

  /** What the operations below need in order not to index outside a map. */
  ghost predicate Safe(s: State) {
    && Index(s)
    && s.new_.Keys == Grid(NEW_BUCKET_COUNT)
    && s.tried.Keys == Grid(TRIED_BUCKET_COUNT)
    && (forall sl | sl in s.new_ :: s.new_[sl] == EMPTY || s.new_[sl] in s.mapInfo)
    && (forall sl | sl in s.tried :: s.tried[sl] == EMPTY || s.tried[sl] in s.mapInfo)
  }

  /** The occupant of a tried slot moves back to the new table (src/addrman.cpp:191-212). */
  ghost function Evict(e: Env, s: State, ks: Slot): State
    requires Safe(s)
    requires ks in s.tried && s.tried[ks] != EMPTY
  {
    var id := s.tried[ks];
    var us := NewSlot(e, s.mapInfo[id].svc, s.mapInfo[id].source);
    var s2 := ClearNew(LeaveTried(s, ks), us);
    if id in s2.mapInfo then EnterNew(s2, id, us) else s2
  }

  /** src/addrman.cpp:172-218 */
  ghost function MakeTried(e: Env, s: State, id: int): State
    requires Safe(s) && id in s.mapInfo
  {
    var ks := TriedSlot(e, s.mapInfo[id].svc);
    var s1 := LeaveNew(s, id);
    var s2 := if s1.tried[ks] != EMPTY then Evict(e, s1, ks) else s1;
    if id in s2.mapInfo then EnterTried(s2, id, ks) else s2
  }
}
