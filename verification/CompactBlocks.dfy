/** Compact blocks (src/blockencodings.cpp), as in the "HeaderAndShortIDs" and "Short transaction IDs"
    sections of BIP 152. */
module CompactBlocksSpec {
  import opened Common

  /** A transaction: its hash, whether it is the null transaction, and the rest of it. */
  datatype Tx = Tx(hash: nat, isNull: bool, payload: nat)

  datatype Prefilled = Prefilled(index: nat, tx: Tx)

  /** The message. The SipHash key comes from the header and the nonce, so it is one function here. */
  datatype Compact = Compact(header: Option<nat>, sip: nat -> nat, shorttxids: seq<nat>, prefilledtxn: seq<Prefilled>)

  const U32_MAX: nat := U32 - 1
  const SHORT_ID: nat := 0x1_0000_0000_0000

  type Slots = seq<Option<Tx>>

  /** src/blockencodings.cpp:46-50: six bytes of the hash's SipHash. */
  function ShortId(c: Compact, hash: nat): (r: nat)
    ensures r < SHORT_ID
  {
    c.sip(hash) % SHORT_ID
  }

  /** The short id is the low 48 bits of the SipHash. */
  lemma ShortIdIs(c: Compact, hash: nat)
    ensures exists high: nat :: c.sip(hash) == high * 0x1_0000_0000_0000 + ShortId(c, hash)
    ensures ShortId(c, hash) < 0x1_0000_0000_0000
  {
    assert c.sip(hash) == c.sip(hash) / SHORT_ID * SHORT_ID + ShortId(c, hash);
  }

  function Total(c: Compact): nat {
    |c.shorttxids| + |c.prefilledtxn|
  }

  /** index + 1, in 32 bits. */
  function Step(index: nat): nat {
    (index + 1) % U32
  }

  /** The position of a prefilled transaction: indexes are distances from the one before. */
  function At(pre: seq<Prefilled>, j: nat): int
    requires j < |pre|
  {
    (if j == 0 then -1 else At(pre, j - 1)) + Step(pre[j].index)
  }

  /** Indexes are 32-bit numbers, and no message has more transactions than those can number
      (src/blockencodings.h:76, 132-134). */
  ghost predicate InWords(c: Compact) {
    Total(c) <= U32_MAX && forall j :: 0 <= j < |c.prefilledtxn| ==> c.prefilledtxn[j].index <= U32_MAX
  }

  /** Indexes come off the wire as compact sizes, so adding one to them does not wrap
      (src/blockencodings.h:79-82, src/serialize.h:32). */
  ghost predicate OffTheWire(c: Compact) {
    Total(c) <= U32_MAX && forall j :: 0 <= j < |c.prefilledtxn| ==> c.prefilledtxn[j].index <= 0x0200_0000
  }

  /** The checks of src/blockencodings.cpp:71-87 for the prefilled transaction j; the second one is on
      the position cut to 32 bits. */
  ghost predicate Placeable(c: Compact, j: nat)
    requires j < |c.prefilledtxn|
  {
    && !c.prefilledtxn[j].tx.isNull
    && At(c.prefilledtxn, j) <= U32_MAX && At(c.prefilledtxn, j) % U32 <= |c.shorttxids| + j
  }

  /** What passes the checks is a position of the vector: one that leaves no gap which neither a short id
      nor a prefilled transaction before it fills. Nothing else is refused. */
  lemma PlaceableIsInside(c: Compact, j: nat)
    requires InWords(c) && j < |c.prefilledtxn|
    ensures Placeable(c, j) <==> !c.prefilledtxn[j].tx.isNull && 0 <= At(c.prefilledtxn, j) <= |c.shorttxids| + j
    ensures Placeable(c, j) ==> At(c.prefilledtxn, j) < Total(c)
  {
    AtIsInside(c.prefilledtxn, j);
  }

  lemma {:induction false} AtIsInside(pre: seq<Prefilled>, j: nat)
    requires j < |pre|
    ensures At(pre, j) >= -1
  {
    if j > 0 {
      AtIsInside(pre, j - 1);
    }
  }

  lemma {:induction false} AtRises(pre: seq<Prefilled>, i: nat, j: nat)
    requires i < j < |pre|
    ensures At(pre, i) + Step(pre[j].index) <= At(pre, j)
    decreases j
  {
    if i < j - 1 {
      AtRises(pre, i, j - 1);
    }
  }

  /** Whether a prefilled transaction has a position of its own among those before it: not when its
      index is 2^32 - 1, which leaves the position where it was. */
  ghost predicate IsFresh(pre: seq<Prefilled>, j: nat)
    requires j < |pre|
  {
    j == 0 || Step(pre[j].index) != 0
  }

  /** How many positions the first n take. */
  ghost function Fresh(pre: seq<Prefilled>, n: nat): (r: nat)
    requires n <= |pre|
    ensures r <= n
  {
    if n == 0 then 0 else Fresh(pre, n - 1) + (if IsFresh(pre, n - 1) then 1 else 0)
  }

  /** Every prefilled transaction has a position of its own exactly when no index but the first is
      2^32 - 1; so has every list that came off the wire. */
  lemma {:induction false} FreshIsExact(c: Compact, n: nat)
    requires InWords(c) && n <= |c.prefilledtxn|
    ensures Fresh(c.prefilledtxn, n) == n <==> forall j :: 0 < j < n ==> c.prefilledtxn[j].index != U32_MAX
    ensures OffTheWire(c) ==> Fresh(c.prefilledtxn, n) == n
    decreases n
  {
    if n > 0 {
      FreshIsExact(c, n - 1);
      var i := c.prefilledtxn[n - 1].index;
      assert Step(i) == 0 <==> i == U32_MAX;
    }
  }

  /** No two prefilled transactions have the same position. */
  ghost predicate Apart(pre: seq<Prefilled>) {
    forall i, j :: 0 <= i < j < |pre| ==> At(pre, i) != At(pre, j)
  }

  /** That is so exactly when no index but the first is 2^32 - 1: a transaction with that index takes
      the place of the one before it. */
  lemma PositionsAreApart(pre: seq<Prefilled>)
    requires forall j :: 0 <= j < |pre| ==> pre[j].index <= U32_MAX
    ensures Apart(pre) <==> forall j :: 0 < j < |pre| ==> pre[j].index != U32_MAX
    ensures forall j :: 0 < j < |pre| && pre[j].index == U32_MAX ==> At(pre, j - 1) == At(pre, j)
  {
    hide Step;
    forall j | 0 < j < |pre| && pre[j].index == U32_MAX
      ensures At(pre, j - 1) == At(pre, j) && !Apart(pre)
    {
      AtStep(pre, j);
    }
    if forall j :: 0 < j < |pre| ==> pre[j].index != U32_MAX {
      forall i, j | 0 <= i < j < |pre|
        ensures At(pre, i) != At(pre, j)
      {
        AtStep(pre, j);
        AtRises(pre, i, j);
      }
    }
  }

  lemma AtStep(pre: seq<Prefilled>, j: nat)
    requires 0 < j < |pre| && pre[j].index <= U32_MAX
    ensures At(pre, j) == At(pre, j - 1) + Step(pre[j].index)
    ensures Step(pre[j].index) == 0 <==> pre[j].index == U32_MAX
  {
  }

  /** With index 2^32 - 1 the second of two prefilled transactions passes the checks and takes the place
      of the first, so that one position is left with neither a transaction nor a short id. */
  lemma SharedPosition(c: Compact)
    requires |c.shorttxids| == 1 && |c.prefilledtxn| == 2
    requires c.prefilledtxn[0].index == 0 && c.prefilledtxn[1].index == U32_MAX
    requires !c.prefilledtxn[0].tx.isNull && !c.prefilledtxn[1].tx.isNull
    ensures InWords(c) && Placeable(c, 0) && Placeable(c, 1) && At(c.prefilledtxn, 0) == At(c.prefilledtxn, 1) == 0
    ensures Total(c) - Fresh(c.prefilledtxn, 2) == |c.shorttxids| + 1
  {
    assert Step(0) == 1 && Step(U32_MAX) == 0;
    assert Fresh(c.prefilledtxn, 0) == 0;
    assert Fresh(c.prefilledtxn, 1) == 1;
  }

  /** The last of the first n that is put where j is. */
  ghost function LastAt(pre: seq<Prefilled>, j: nat, n: nat): (k: nat)
    requires j < n <= |pre|
    ensures j <= k < n
    decreases n - j
  {
    if j + 1 < n && !IsFresh(pre, j + 1) then LastAt(pre, j + 1, n) else j
  }

  lemma {:induction false} LastAtStep(pre: seq<Prefilled>, j: nat, n: nat)
    requires j < n < |pre|
    ensures LastAt(pre, j, n + 1) == if At(pre, j) == At(pre, n) then n else LastAt(pre, j, n)
    decreases n - j
  {
    if j + 1 == n {
    } else if IsFresh(pre, j + 1) {
      AtRises(pre, j + 1, n);
    } else {
      LastAtStep(pre, j + 1, n);
    }
  }

  // ---------- Free positions ----------

  /** How many of the first n positions have no transaction. */
  function Free(a: Slots, n: nat): (r: nat)
    requires n <= |a|
    ensures r <= n
  {
    if n == 0 then 0 else Free(a, n - 1) + (if a[n - 1].None? then 1 else 0)
  }

  lemma {:induction false} FreeRises(a: Slots, m: nat, n: nat)
    requires m <= n <= |a|
    ensures Free(a, m) <= Free(a, n) <= Free(a, m) + (n - m)
    ensures m < n && a[m].None? ==> Free(a, m) < Free(a, n)
    decreases n
  {
    if m < n {
      FreeRises(a, m, n - 1);
    }
  }

  lemma {:induction false} FreePut(a: Slots, p: nat, t: Tx, n: nat)
    requires p < |a| && a[p].None? && n <= |a|
    ensures Free(a[p := Some(t)], n) == if p < n then Free(a, n) - 1 else Free(a, n)
    decreases n
  {
    if n > 0 {
      FreePut(a, p, t, n - 1);
    }
  }

  lemma {:induction false} FreeAll(a: Slots, n: nat)
    requires n <= |a| && forall i :: 0 <= i < n ==> a[i].None?
    ensures Free(a, n) == n
    decreases n
  {
    if n > 0 {
      FreeAll(a, n - 1);
    }
  }

  /** A free position is determined by how many there are before it. */
  lemma FreeIsOne(a: Slots, p: nat, q: nat)
    requires p < |a| && q < |a| && a[p].None? && a[q].None? && Free(a, p) == Free(a, q)
    ensures p == q
  {
    if p < q {
      FreeRises(a, p, q);
    } else if q < p {
      FreeRises(a, q, p);
    }
  }

  lemma {:induction false} FreeOverwrite(a: Slots, p: nat, t: Tx, n: nat)
    requires p < |a| && a[p].Some? && n <= |a|
    ensures Free(a[p := Some(t)], n) == Free(a, n)
    decreases n
  {
    if n > 0 {
      FreeOverwrite(a, p, t, n - 1);
    }
  }

  /** At each position of the first n prefilled transactions is the last of them with that position. */
  ghost predicate Placed(c: Compact, a: Slots, n: nat)
    requires n <= |c.prefilledtxn|
  {
    forall j :: 0 <= j < n ==> Placeable(c, j) && 0 <= At(c.prefilledtxn, j) < |a| &&
                               a[At(c.prefilledtxn, j)] == Some(c.prefilledtxn[LastAt(c.prefilledtxn, j, n)].tx)
  }

  ghost predicate NothingElse(c: Compact, a: Slots, n: nat)
    requires n <= |c.prefilledtxn|
  {
    forall p :: 0 <= p < |a| && a[p].Some? ==> exists j :: 0 <= j < n && At(c.prefilledtxn, j) == p
  }

  /** The prefilled transactions at their positions, and nothing else. */
  ghost predicate IsPrefilled(c: Compact, a: Slots, n: nat)
    requires n <= |c.prefilledtxn|
  {
    |a| == Total(c) && Free(a, |a|) + Fresh(c.prefilledtxn, n) == |a| && Placed(c, a, n) && NothingElse(c, a, n)
  }

  /** One more prefilled transaction goes to a position that is still free, or takes the place of the
      one before it. */
  lemma PrefillOne(c: Compact, a: Slots, n: nat)
    requires InWords(c) && n < |c.prefilledtxn| && IsPrefilled(c, a, n) && Placeable(c, n)
    ensures 0 <= At(c.prefilledtxn, n) < |a|
    ensures IsPrefilled(c, a[At(c.prefilledtxn, n) := Some(c.prefilledtxn[n].tx)], n + 1)
  {
    hide Placed, NothingElse, Free, At, IsFresh;
    PlaceableIsInside(c, n);
    var p := At(c.prefilledtxn, n);
    if IsFresh(c.prefilledtxn, n) {
      StillFree(c, a, n);
      FreePut(a, p, c.prefilledtxn[n].tx, |a|);
    } else {
      TakenBefore(c, a, n);
      FreeOverwrite(a, p, c.prefilledtxn[n].tx, |a|);
    }
    PlacedMore(c, a, n);
    NothingElseMore(c, a, n);
  }

  lemma StillFree(c: Compact, a: Slots, n: nat)
    requires n < |c.prefilledtxn| && 0 <= At(c.prefilledtxn, n) < |a|
    requires NothingElse(c, a, n) && IsFresh(c.prefilledtxn, n)
    ensures a[At(c.prefilledtxn, n)].None?
  {
    forall j | 0 <= j < n ensures At(c.prefilledtxn, j) < At(c.prefilledtxn, n) {
      AtRises(c.prefilledtxn, j, n);
    }
  }

  lemma TakenBefore(c: Compact, a: Slots, n: nat)
    requires n < |c.prefilledtxn| && 0 <= At(c.prefilledtxn, n) < |a| && Placed(c, a, n) && !IsFresh(c.prefilledtxn, n)
    ensures a[At(c.prefilledtxn, n)].Some?
  {
    assert At(c.prefilledtxn, n - 1) == At(c.prefilledtxn, n);
  }

  lemma PlacedMore(c: Compact, a: Slots, n: nat)
    requires n < |c.prefilledtxn| && Placeable(c, n) && 0 <= At(c.prefilledtxn, n) < |a| && Placed(c, a, n)
    ensures Placed(c, a[At(c.prefilledtxn, n) := Some(c.prefilledtxn[n].tx)], n + 1)
  {
    hide Placeable, At;
    forall j | 0 <= j < n
      ensures LastAt(c.prefilledtxn, j, n + 1) ==
              if At(c.prefilledtxn, j) == At(c.prefilledtxn, n) then n else LastAt(c.prefilledtxn, j, n)
    {
      LastAtStep(c.prefilledtxn, j, n);
    }
  }

  lemma NothingElseMore(c: Compact, a: Slots, n: nat)
    requires n < |c.prefilledtxn| && 0 <= At(c.prefilledtxn, n) < |a| && NothingElse(c, a, n)
    ensures NothingElse(c, a[At(c.prefilledtxn, n) := Some(c.prefilledtxn[n].tx)], n + 1)
  {
    hide At;
    var pre := c.prefilledtxn;
    var p := At(pre, n);
    var a' := a[p := Some(pre[n].tx)];
    forall q | 0 <= q < |a'| && a'[q].Some? ensures exists j :: 0 <= j < n + 1 && At(pre, j) == q {
      if q == p {
        assert At(pre, n) == q;
      } else {
        assert a[q].Some?;
      }
    }
  }

  lemma {:induction false} FewerFree(a: Slots, start: Slots, n: nat)
    requires |a| == |start| && n <= |a| && forall q :: 0 <= q < |a| && start[q].Some? ==> a[q].Some?
    ensures Free(a, n) <= Free(start, n)
    decreases n
  {
    if n > 0 {
      FewerFree(a, start, n - 1);
    }
  }

  // ---------- Short ids ----------

  lemma PrefilledFree(c: Compact, a: Slots)
    requires IsPrefilled(c, a, |c.prefilledtxn|)
    ensures |a| == Total(c) && Free(a, |a|) == Total(c) - Fresh(c.prefilledtxn, |c.prefilledtxn|) >= |c.shorttxids|
  {
  }

  /** The free positions are as many as the short ids exactly under the same condition; otherwise some
      position is left with neither. */
  lemma FreeIsExact(c: Compact, a: Slots)
    requires InWords(c) && IsPrefilled(c, a, |c.prefilledtxn|)
    ensures Free(a, |a|) == |c.shorttxids| <==>
            forall j :: 0 < j < |c.prefilledtxn| ==> c.prefilledtxn[j].index != U32_MAX
    ensures Free(a, |a|) >= |c.shorttxids|
  {
    hide IsPrefilled, Free, Fresh;
    PrefilledFree(c, a);
    FreshIsExact(c, |c.prefilledtxn|);
  }

  /** The short ids in order on the free positions: pos[i] is the i-th of them. */
  ghost predicate InOrder(a: Slots, pos: seq<nat>) {
    forall i :: 0 <= i < |pos| ==> pos[i] < |a| && a[pos[i]].None? && Free(a, pos[i]) == i
  }

  /** In order, they are increasing and leave no free position out. */
  lemma InOrderCovers(a: Slots, pos: seq<nat>)
    requires InOrder(a, pos) && |pos| == Free(a, |a|)
    ensures forall i, j :: 0 <= i < j < |pos| ==> pos[i] < pos[j]
    ensures forall p :: 0 <= p < |a| && a[p].None? ==> p in pos
  {
    forall i, j | 0 <= i < j < |pos| ensures pos[i] < pos[j] {
      if pos[j] <= pos[i] {
        FreeRises(a, pos[j], pos[i]);
      }
    }
    forall p | 0 <= p < |a| && a[p].None? ensures p in pos {
      FreeRises(a, p, |a|);
      FreeIsOne(a, p, pos[Free(a, p)]);
    }
  }

  ghost predicate Distinct(s: seq<nat>) {
    forall i, j :: 0 <= i < j < |s| ==> s[i] != s[j]
  }

  /** Where each short id goes. */
  ghost predicate Maps(m: map<nat, nat>, ids: seq<nat>, pos: seq<nat>) {
    && |ids| == |pos|
    && (forall k :: k in m <==> k in ids)
    && (Distinct(ids) <==> |m| == |ids|) && |m| <= |ids|
    && (Distinct(ids) ==> forall i :: 0 <= i < |ids| ==> m[ids[i]] == pos[i])
  }

  lemma MapsMore(m: map<nat, nat>, ids: seq<nat>, pos: seq<nat>, id: nat, p: nat)
    requires Maps(m, ids, pos)
    ensures Maps(m[id := p], ids + [id], pos + [p])
  {
    var m', ids' := m[id := p], ids + [id];
    if id in m {
      var i :| 0 <= i < |ids| && ids[i] == id;
      assert ids'[i] == ids'[|ids|];
      assert m'.Keys == m.Keys;
      assert |m'| == |m|;
    } else {
      assert m'.Keys == m.Keys + {id};
      assert |m'| == |m| + 1;
      assert Distinct(ids') <==> Distinct(ids) by {
        if Distinct(ids') {
          assert forall i :: 0 <= i < |ids| ==> ids'[i] == ids[i];
        }
      }
    }
  }

  // ---------- Matching ----------

  /** A transaction that could be put in, under the hash by which it was looked up. */
  datatype Source = Source(hash: nat, tx: Tx)

  /** Every position has its prefilled transaction, nothing, or a source with the position's short id. */
  ghost predicate Matched(c: Compact, start: Slots, pos: seq<nat>, sources: set<Source>, a: Slots) {
    && |a| == |start| && |pos| == |c.shorttxids|
    && (forall p :: 0 <= p < |a| && start[p].Some? ==> a[p] == start[p])
    && (forall p :: 0 <= p < |a| && start[p].None? && p !in pos ==> a[p].None?)
    && (forall i :: 0 <= i < |pos| ==> pos[i] < |a| && FitsAt(c, sources, a, pos, i))
  }

  ghost predicate FitsAt(c: Compact, sources: set<Source>, a: Slots, pos: seq<nat>, i: nat)
    requires i < |pos| == |c.shorttxids| && pos[i] < |a|
  {
    a[pos[i]].Some? ==> exists s :: s in sources && s.tx == a[pos[i]].value && ShortId(c, s.hash) == c.shorttxids[i]
  }

  ghost function SetOf(all: seq<Source>): set<Source> {
    set s | s in all
  }

  /** Of all that is looked at, only k has short id i. */
  ghost predicate Sole(c: Compact, all: seq<Source>, i: nat, k: nat)
    requires i < |c.shorttxids|
  {
    && k < |all| && ShortId(c, all[k].hash) == c.shorttxids[i]
    && forall j :: 0 <= j < |all| && j != k ==> ShortId(c, all[j].hash) != c.shorttxids[i]
  }

  /** A transaction that alone has the short id of a position is at that position. */
  ghost predicate AllUsed(c: Compact, all: seq<Source>, pos: seq<nat>, a: Slots)
    requires |pos| == |c.shorttxids| && forall i :: 0 <= i < |pos| ==> pos[i] < |a|
  {
    forall i: nat, k: nat :: i < |pos| && Sole(c, all, i, k) ==> a[pos[i]] == Some(all[k].tx)
  }

  /** Of the sources looked at, the first m from the pool, k is the one to keep for a short id: the first
      with it, when all others with it are extra ones and the same transaction. */
  ghost predicate Keeps(c: Compact, seen: seq<Source>, m: nat, id: nat, k: nat) {
    && k < |seen| && ShortId(c, seen[k].hash) == id
    && (forall j :: 0 <= j < k ==> ShortId(c, seen[j].hash) != id)
    && (forall j :: k < j < |seen| && ShortId(c, seen[j].hash) == id ==> j >= m && seen[j].tx.hash == seen[k].tx.hash)
  }

  /** The transaction to keep, or none when there is no source with the short id or more than one
      transaction is possible. */
  ghost predicate Outcome(c: Compact, seen: seq<Source>, m: nat, id: nat, v: Option<Tx>) {
    && (v.Some? ==> exists k: nat :: Keeps(c, seen, m, id, k) && v.value == seen[k].tx)
    && (v.None? ==> forall k: nat :: !Keeps(c, seen, m, id, k))
  }

  ghost predicate KeepsOne(c: Compact, seen: seq<Source>, m: nat, id: nat) {
    exists k: nat :: Keeps(c, seen, m, id, k)
  }

  /** Every short id has its transaction: then looking stops. */
  ghost predicate Complete(c: Compact, seen: seq<Source>, m: nat) {
    forall i :: 0 <= i < |c.shorttxids| ==> KeepsOne(c, seen, m, c.shorttxids[i])
  }

  /** n1 of the pool and n2 of the extra transactions are looked at: all, or as many as make the block
      complete. Every position then has exactly the transaction to keep. */
  ghost predicate Stopped(c: Compact, all: seq<Source>, m: nat, pos: seq<nat>, a: Slots, n1: nat, n2: nat)
    requires |pos| == |c.shorttxids| && forall i :: 0 <= i < |pos| ==> pos[i] < |a|
  {
    && n1 <= m && m + n2 <= |all|
    && var seen := all[..n1] + all[m..m + n2];
    && (n1 < m ==> Complete(c, all[..n1], n1)) && (m + n2 < |all| ==> Complete(c, seen, n1))
    && (forall i :: 0 <= i < |pos| ==> Outcome(c, seen, n1, c.shorttxids[i], a[pos[i]]))
  }

  /** What a positive answer of InitData means, with m of all sources from the pool. */
  ghost predicate Ready(c: Compact, all: seq<Source>, m: nat, a: Slots) {
    exists start: Slots, pos: seq<nat> ::
      && IsPrefilled(c, start, |c.prefilledtxn|) && InOrder(start, pos) && |pos| == |c.shorttxids|
      && Matched(c, start, pos, SetOf(all), a) && (forall i :: 0 <= i < |pos| ==> pos[i] < |a|)
      && AllUsed(c, all, pos, a) && (exists n1: nat, n2: nat :: Stopped(c, all, m, pos, a, n1, n2))
  }

  /** When some short id is that of no source, nothing stops the search early. */
  lemma NeverComplete(c: Compact, all: seq<Source>, seen: seq<Source>, m: nat, i: nat)
    requires i < |c.shorttxids| && forall k :: 0 <= k < |all| ==> ShortId(c, all[k].hash) != c.shorttxids[i]
    requires forall k :: 0 <= k < |seen| ==> seen[k] in all
    ensures !Complete(c, seen, m)
  {
    forall k: nat
      ensures !Keeps(c, seen, m, c.shorttxids[i], k)
    {
      if k < |seen| {
        var j :| 0 <= j < |all| && all[j] == seen[k];
      }
    }
    assert !KeepsOne(c, seen, m, c.shorttxids[i]);
  }

  /** Then every position has exactly what all of pool and extra transactions leave for it: nothing when
      two pool transactions, or two different transactions, have its short id. */
  lemma SharedIsMissing(c: Compact, all: seq<Source>, m: nat, pos: seq<nat>, a: Slots, n1: nat, n2: nat, missing: nat)
    requires |pos| == |c.shorttxids| && (forall i :: 0 <= i < |pos| ==> pos[i] < |a|)
    requires m <= |all| && Stopped(c, all, m, pos, a, n1, n2) && missing < |c.shorttxids|
    requires forall k :: 0 <= k < |all| ==> ShortId(c, all[k].hash) != c.shorttxids[missing]
    ensures forall i :: 0 <= i < |pos| ==> Outcome(c, all, m, c.shorttxids[i], a[pos[i]])
    ensures forall i, j, k | 0 <= i < |pos| && Rival(c, all, m, c.shorttxids[i], j, k) :: a[pos[i]].None?
  {
    var seen := all[..n1] + all[m..m + n2];
    NeverComplete(c, all, all[..n1], n1, missing);
    NeverComplete(c, all, seen, n1, missing);
    assert n1 == m && m + n2 == |all| && seen == all;
    forall i, j, k | 0 <= i < |pos| && Rival(c, all, m, c.shorttxids[i], j, k)
      ensures a[pos[i]].None?
    {
      RivalsKeepNone(c, all, m, c.shorttxids[i], j, k);
      assert Outcome(c, all, m, c.shorttxids[i], a[pos[i]]);
    }
  }

  /** So after a positive answer, when some short id is that of no source. */
  lemma ReadyExactly(c: Compact, all: seq<Source>, m: nat, a: Slots, missing: nat) returns (start: Slots, pos: seq<nat>)
    requires Ready(c, all, m, a) && m <= |all| && missing < |c.shorttxids|
    requires forall k :: 0 <= k < |all| ==> ShortId(c, all[k].hash) != c.shorttxids[missing]
    ensures IsPrefilled(c, start, |c.prefilledtxn|) && InOrder(start, pos) && |pos| == |c.shorttxids|
    ensures forall i :: 0 <= i < |pos| ==> pos[i] < |a| && Outcome(c, all, m, c.shorttxids[i], a[pos[i]])
    ensures forall i, j, k | 0 <= i < |pos| && Rival(c, all, m, c.shorttxids[i], j, k) :: a[pos[i]].None?
  {
    hide IsPrefilled, InOrder, Matched, AllUsed, SetOf, Stopped, Outcome, Rival;
    start, pos :|
      && IsPrefilled(c, start, |c.prefilledtxn|) && InOrder(start, pos) && |pos| == |c.shorttxids|
      && Matched(c, start, pos, SetOf(all), a) && (forall i :: 0 <= i < |pos| ==> pos[i] < |a|)
      && AllUsed(c, all, pos, a) && (exists n1: nat, n2: nat :: Stopped(c, all, m, pos, a, n1, n2));
    var n1: nat, n2: nat :| Stopped(c, all, m, pos, a, n1, n2);
    SharedIsMissing(c, all, m, pos, a, n1, n2, missing);
  }

  /** Two sources with one short id, the later one from the pool or another transaction. */
  ghost predicate Rival(c: Compact, all: seq<Source>, m: nat, id: nat, j: int, k: int) {
    && 0 <= j < k < |all| && (k < m || all[j].tx.hash != all[k].tx.hash)
    && ShortId(c, all[j].hash) == ShortId(c, all[k].hash) == id
  }

  lemma RivalsKeepNone(c: Compact, seen: seq<Source>, m: nat, id: nat, j: int, k: int)
    requires Rival(c, seen, m, id, j, k)
    ensures forall x: nat :: !Keeps(c, seen, m, id, x)
  {
  }

  // ---------- One more source ----------

  ghost predicate Touched(c: Compact, seen: seq<Source>, id: nat) {
    exists k :: 0 <= k < |seen| && ShortId(c, seen[k].hash) == id
  }

  /** A source with another short id changes nothing. */
  lemma SeeOther(c: Compact, seen: seq<Source>, m: nat, m': nat, s: Source, id: nat, v: Option<Tx>)
    requires ShortId(c, s.hash) != id && Outcome(c, seen, m, id, v)
    requires m' == m || (m == |seen| && m' == m + 1)
    ensures Outcome(c, seen + [s], m', id, v) && (Touched(c, seen + [s], id) <==> Touched(c, seen, id))
  {
    var seen' := seen + [s];
    forall k: nat
      ensures Keeps(c, seen', m', id, k) <==> Keeps(c, seen, m, id, k)
    {
      assert forall j :: 0 <= j < |seen| ==> seen'[j] == seen[j];
    }
    if k :| 0 <= k < |seen| && ShortId(c, seen[k].hash) == id {
      assert ShortId(c, seen'[k].hash) == id;
    }
  }

  /** The first source with a short id is kept. */
  lemma SeeFirst(c: Compact, seen: seq<Source>, m': nat, s: Source, id: nat)
    requires ShortId(c, s.hash) == id && !Touched(c, seen, id)
    ensures Outcome(c, seen + [s], m', id, Some(s.tx)) && Touched(c, seen + [s], id)
  {
    var seen' := seen + [s];
    assert seen'[|seen|] == s;
    assert forall j :: 0 <= j < |seen| ==> seen'[j] == seen[j];
    assert Keeps(c, seen', m', id, |seen|);
  }

  /** A second one of the pool, or an extra one that is another transaction, leaves none. */
  lemma SeeConflict(c: Compact, seen: seq<Source>, m: nat, m': nat, s: Source, id: nat, v: Option<Tx>)
    requires ShortId(c, s.hash) == id && Touched(c, seen, id) && Outcome(c, seen, m, id, v)
    requires m' == m || (m == |seen| && m' == m + 1)
    requires m' == m + 1 || v.None? || v.value.hash != s.tx.hash
    ensures Outcome(c, seen + [s], m', id, None) && Touched(c, seen + [s], id)
  {
    var seen' := seen + [s];
    assert seen'[|seen|] == s;
    assert forall j :: 0 <= j < |seen| ==> seen'[j] == seen[j];
    var k0 :| 0 <= k0 < |seen| && ShortId(c, seen[k0].hash) == id;
    assert ShortId(c, seen'[k0].hash) == id;
    forall k: nat | Keeps(c, seen, m, id, k)
      ensures v.Some? && v.value == seen[k].tx
    {
      if v.Some? {
        var k': nat :| Keeps(c, seen, m, id, k') && v.value == seen[k'].tx;
        OnlyOneKept(c, seen, m, id, k, k');
      }
    }
    forall k: nat
      ensures !Keeps(c, seen', m', id, k)
    {
      if Keeps(c, seen', m', id, k) {
        KeptBefore(c, seen, m, m', s, id, k0, k);
      }
    }
  }

  lemma OnlyOneKept(c: Compact, seen: seq<Source>, m: nat, id: nat, k: nat, k': nat)
    requires Keeps(c, seen, m, id, k) && Keeps(c, seen, m, id, k')
    ensures k == k'
  {
  }

  lemma KeptBefore(c: Compact, seen: seq<Source>, m: nat, m': nat, s: Source, id: nat, k0: nat, k: nat)
    requires ShortId(c, s.hash) == id && k0 < |seen| && ShortId(c, seen[k0].hash) == id
    requires m' == m || (m == |seen| && m' == m + 1)
    requires Keeps(c, seen + [s], m', id, k)
    ensures m' <= |seen| && Keeps(c, seen, m, id, k) && s.tx.hash == seen[k].tx.hash
  {
    var seen' := seen + [s];
    assert seen'[|seen|] == s && seen'[k0] == seen[k0];
    assert forall j :: 0 <= j < |seen| ==> seen'[j] == seen[j];
    assert k <= k0;
  }

  /** An extra one that is the same transaction changes nothing. */
  lemma SeeAgain(c: Compact, seen: seq<Source>, m: nat, s: Source, id: nat, v: Option<Tx>)
    requires ShortId(c, s.hash) == id && Outcome(c, seen, m, id, v) && m <= |seen|
    requires v.Some? && v.value.hash == s.tx.hash
    ensures Outcome(c, seen + [s], m, id, v) && Touched(c, seen + [s], id)
  {
    var seen' := seen + [s];
    assert seen'[|seen|] == s;
    assert forall j :: 0 <= j < |seen| ==> seen'[j] == seen[j];
    var k: nat :| Keeps(c, seen, m, id, k) && v.value == seen[k].tx;
    assert Keeps(c, seen', m, id, k);
  }

  // ---------- Reassembly ----------

  /** The block that FillBlock puts together (src/blockencodings.cpp:219-232). */
  function Filled(a: Slots, missing: seq<Tx>, i: nat): (r: seq<Tx>)
    requires i <= |a| && Free(a, i) <= |missing|
    ensures |r| == i
  {
    if i == 0 then []
    else Filled(a, missing, i - 1) + [if a[i - 1].Some? then a[i - 1].value else missing[Free(a, i - 1)]]
  }

  /** The transactions of a block that have to be asked for. */
  function Missing(a: Slots, block: seq<Tx>, i: nat): (r: seq<Tx>)
    requires i <= |a| == |block|
    ensures |r| == Free(a, i)
  {
    if i == 0 then []
    else Missing(a, block, i - 1) + (if a[i - 1].None? then [block[i - 1]] else [])
  }

  /** What is there agrees with the block. */
  ghost predicate Agrees(a: Slots, block: seq<Tx>) {
    |a| == |block| && forall p :: 0 <= p < |a| && a[p].Some? ==> a[p].value == block[p]
  }

  lemma {:induction false} FilledIsBlock(a: Slots, block: seq<Tx>, missing: seq<Tx>, i: nat)
    requires Agrees(a, block) && i <= |a| && Free(a, i) <= |missing|
    requires Missing(a, block, i) == missing[..Free(a, i)]
    ensures Filled(a, missing, i) == block[..i]
    decreases i
  {
    if i > 0 {
      var f := Free(a, i - 1);
      assert Missing(a, block, i - 1) == Missing(a, block, i)[..f];
      assert Missing(a, block, i - 1) == missing[..f];
      FilledIsBlock(a, block, missing, i - 1);
      if a[i - 1].None? {
        assert Missing(a, block, i)[f] == block[i - 1];
      }
      assert block[..i] == block[..i - 1] + [block[i - 1]];
    }
  }

  // ---------- The compact form of a block ----------

  /** src/blockencodings.cpp:22-33: the coinbase in full, short ids for the rest. */
  function Shortened(header: nat, sip: nat -> nat, block: seq<Tx>): (c: Compact)
    requires block != []
    ensures Total(c) == |block|
  {
    Compact(Some(header), sip, seq(|block| - 1, i requires 0 <= i < |block| - 1 => sip(block[i + 1].hash) % SHORT_ID),
            [Prefilled(0, block[0])])
  }

  /** Different transactions of the block have different short ids, and nothing else that is looked
      at has one of them. */
  ghost predicate NoCollision(c: Compact, block: seq<Tx>, sources: set<Source>) {
    && (forall i, j :: 1 <= i < j < |block| ==> ShortId(c, block[i].hash) != ShortId(c, block[j].hash))
    && (forall s, i ::
          s in sources && 1 <= i < |block| && ShortId(c, s.hash) == ShortId(c, block[i].hash) ==> s.tx == block[i])
  }

  /** The compact form of a block passes the checks on its indexes and has no repeated short id. */
  lemma ShortenedIsAccepted(header: nat, sip: nat -> nat, block: seq<Tx>, sources: set<Source>)
    requires block != [] && |block| <= U32_MAX && !block[0].isNull
    requires NoCollision(Shortened(header, sip, block), block, sources)
    ensures var c := Shortened(header, sip, block);
            OffTheWire(c) && InWords(c) && Placeable(c, 0) && Distinct(c.shorttxids)
  {
    var c := Shortened(header, sip, block);
    forall i, j | 0 <= i < j < |c.shorttxids| ensures c.shorttxids[i] != c.shorttxids[j] {
      assert c.shorttxids[i] == ShortId(c, block[i + 1].hash) && c.shorttxids[j] == ShortId(c, block[j + 1].hash);
    }
  }

  /** Of the compact form of a block, short id i belongs to position i + 1. */
  lemma PositionsOf(header: nat, sip: nat -> nat, block: seq<Tx>, start: Slots, pos: seq<nat>, p: nat)
    requires block != []
    requires var c := Shortened(header, sip, block);
             IsPrefilled(c, start, 1) && InOrder(start, pos) && |pos| == |c.shorttxids|
    requires 1 <= p < |block|
    ensures |start| == |block| && start[0] == Some(block[0]) && pos[p - 1] == p
  {
    hide Free;
    var c := Shortened(header, sip, block);
    assert At(c.prefilledtxn, 0) == 0;
    assert Placed(c, start, 1);
    OnlyFirst(c, start);
    FreeAfterFirst(start, pos[p - 1]);
  }

  lemma OnlyFirst(c: Compact, start: Slots)
    requires |c.prefilledtxn| == 1 && NothingElse(c, start, 1) && At(c.prefilledtxn, 0) == 0
    ensures forall q :: 1 <= q < |start| ==> start[q].None?
  {
    forall q | 0 <= q < |start| && start[q].Some? ensures q == 0 {
      var j :| 0 <= j < 1 && At(c.prefilledtxn, j) == q;
    }
  }

  lemma FirstOf(header: nat, sip: nat -> nat, block: seq<Tx>, start: Slots)
    requires block != [] && IsPrefilled(Shortened(header, sip, block), start, 1)
    ensures |start| == |block| && start[0] == Some(block[0])
  {
    hide Free;
    assert At(Shortened(header, sip, block).prefilledtxn, 0) == 0;
  }

  lemma AgreesAt(header: nat, sip: nat -> nat, block: seq<Tx>, sources: set<Source>, a: Slots, start: Slots,
                 pos: seq<nat>, p: nat)
    requires block != []
    requires var c := Shortened(header, sip, block);
             && NoCollision(c, block, sources) && IsPrefilled(c, start, 1) && InOrder(start, pos)
             && |pos| == |c.shorttxids| && Matched(c, start, pos, sources, a)
    requires p < |a| && a[p].Some?
    ensures p < |block| && a[p].value == block[p]
  {
    hide IsPrefilled, InOrder;
    var c := Shortened(header, sip, block);
    FirstOf(header, sip, block, start);
    if p > 0 {
      PositionsOf(header, sip, block, start, pos, p);
      assert FitsAt(c, sources, a, pos, p - 1);
      var s :| s in sources && s.tx == a[p].value && ShortId(c, s.hash) == c.shorttxids[p - 1];
      assert c.shorttxids[p - 1] == ShortId(c, block[p].hash);
    }
  }

  lemma MatchedLength(c: Compact, start: Slots, pos: seq<nat>, sources: set<Source>, a: Slots)
    requires Matched(c, start, pos, sources, a)
    ensures |a| == |start|
  {
  }

  lemma ReadyAgrees(header: nat, sip: nat -> nat, block: seq<Tx>, all: seq<Source>, m: nat, a: Slots)
    requires block != []
    requires var c := Shortened(header, sip, block); NoCollision(c, block, SetOf(all)) && Ready(c, all, m, a)
    ensures Agrees(a, block)
  {
    hide IsPrefilled, InOrder, NoCollision, Matched, AllUsed, SetOf, Stopped;
    var c := Shortened(header, sip, block);
    var start: Slots, pos: seq<nat> :|
      && IsPrefilled(c, start, |c.prefilledtxn|) && InOrder(start, pos) && |pos| == |c.shorttxids|
      && Matched(c, start, pos, SetOf(all), a) && (forall i :: 0 <= i < |pos| ==> pos[i] < |a|)
      && AllUsed(c, all, pos, a) && (exists n1: nat, n2: nat :: Stopped(c, all, m, pos, a, n1, n2));
    FirstOf(header, sip, block, start);
    MatchedLength(c, start, pos, SetOf(all), a);
    forall p | 0 <= p < |a| && a[p].Some? ensures a[p].value == block[p] {
      AgreesAt(header, sip, block, SetOf(all), a, start, pos, p);
    }
  }

  /** Without collisions, what InitData accepts agrees with the block, so the missing transactions in
      order complete exactly the original list. */
  lemma RoundTrip(header: nat, sip: nat -> nat, block: seq<Tx>, all: seq<Source>, m: nat, a: Slots)
    requires block != []
    requires var c := Shortened(header, sip, block); NoCollision(c, block, SetOf(all)) && Ready(c, all, m, a)
    ensures |a| == |block| && Filled(a, Missing(a, block, |a|), |a|) == block
  {
    hide Ready, NoCollision, Free, Filled, Missing;
    ReadyAgrees(header, sip, block, all, m, a);
    MissingCompletes(a, block);
  }

  lemma MissingCompletes(a: Slots, block: seq<Tx>)
    requires Agrees(a, block)
    ensures |a| == |block| && Filled(a, Missing(a, block, |a|), |a|) == block
  {
    hide Free, Filled, Missing;
    var missing := Missing(a, block, |a|);
    assert missing[..Free(a, |a|)] == missing;
    FilledIsBlock(a, block, missing, |a|);
    assert block[..|a|] == block;
  }

  lemma {:induction false} FreeAfterFirst(a: Slots, p: nat)
    requires p < |a| && a[0].Some? && forall q :: 1 <= q < |a| ==> a[q].None?
    ensures Free(a, p) == if p == 0 then 0 else p - 1
    decreases p
  {
    if p > 0 {
      FreeAfterFirst(a, p - 1);
    }
  }
}

module CompactBlocks {
  import opened Common
  import opened CompactBlocksSpec

  datatype Status = Ok | Invalid | Failed | CheckBlockFailed

  /** The outcome of the validity check of a whole block. */
  datatype Check = Good | CorruptionPossible | Bad

  /** All that is looked at, in order: the pool, then the extra transactions. */
  ghost function All(pool: seq<Tx>, extra: seq<Source>): (r: seq<Source>)
    ensures |r| == |pool| + |extra|
    ensures forall k :: 0 <= k < |pool| ==> r[k] == Source(pool[k].hash, pool[k])
    ensures forall k :: |pool| <= k < |r| ==> r[k] == extra[k - |pool|]
  {
    seq(|pool|, k requires 0 <= k < |pool| => Source(pool[k].hash, pool[k])) + extra
  }

  class PartiallyDownloadedBlock {
    var header: Option<nat>
    var txnsAvailable: Slots
    var prefilledCount: nat
    var mempoolCount: nat
    var extraCount: nat

    constructor ()
      ensures header.None? && txnsAvailable == [] && prefilledCount == mempoolCount == extraCount == 0
    {
      header := None;
      txnsAvailable := [];
      prefilledCount, mempoolCount, extraCount := 0, 0, 0;
    }

    /** src/blockencodings.cpp:52-206. limit is the excessive block size over the least size of a
        transaction; crowded tells, short id by short id, whether its bucket of the hash table is over
        twelve entries; pool and extra are the transactions at hand, in the order they are looked at. */
    method InitData(c: Compact, pool: seq<Tx>, extra: seq<Source>, limit: nat, crowded: nat -> bool)
      returns (status: Status)
      requires header.None? && txnsAvailable == [] && mempoolCount == 0 && InWords(c)
      modifies this
      ensures status == Invalid <==> c.header.None? || Total(c) == 0 || Total(c) > limit ||
                                     exists j :: 0 <= j < |c.prefilledtxn| && !Placeable(c, j)
      ensures status == Ok ==> header == c.header && Ready(c, All(pool, extra), |pool|, txnsAvailable)
      ensures status == Ok ==>
               mempoolCount + Free(txnsAvailable, |txnsAvailable|) == Total(c) - Fresh(c.prefilledtxn, |c.prefilledtxn|)
      ensures status == Ok ==> prefilledCount == |c.prefilledtxn|
      ensures status == Ok ==> Distinct(c.shorttxids) && forall i :: 0 <= i < |c.shorttxids| ==> !crowded(i)
      ensures status == Failed ==> !Distinct(c.shorttxids) || exists i :: 0 <= i < |c.shorttxids| && crowded(i)
      ensures status != CheckBlockFailed
    {
      hide IsPrefilled, Free, Placeable, All, Ready, Distinct;
      if c.header.None? || (|c.shorttxids| == 0 && |c.prefilledtxn| == 0) {
        return Invalid;
      }
      if Total(c) > limit {
        return Invalid;
      }
      header := c.header;
      txnsAvailable := seq(Total(c), i => None);
      var ok := PlacePrefilled(c);
      if !ok {
        return Invalid;
      }
      prefilledCount := |c.prefilledtxn|;
      status := FindTransactions(c, pool, extra, crowded);
    }

    /** The part of InitData behind the prefilled transactions (src/blockencodings.cpp:94-205). */
    method FindTransactions(c: Compact, pool: seq<Tx>, extra: seq<Source>, crowded: nat -> bool)
      returns (status: Status)
      requires IsPrefilled(c, txnsAvailable, |c.prefilledtxn|) && mempoolCount == 0
      modifies this`txnsAvailable, this`mempoolCount, this`extraCount
      ensures status == Ok || status == Failed
      ensures status == Ok ==> Ready(c, All(pool, extra), |pool|, txnsAvailable)
      ensures status == Ok ==>
               mempoolCount + Free(txnsAvailable, |txnsAvailable|) == Total(c) - Fresh(c.prefilledtxn, |c.prefilledtxn|)
      ensures status == Ok ==> Distinct(c.shorttxids) && forall i :: 0 <= i < |c.shorttxids| ==> !crowded(i)
      ensures status == Failed ==> !Distinct(c.shorttxids) || exists i :: 0 <= i < |c.shorttxids| && crowded(i)
    {
      hide IsPrefilled, InOrder, Matched, Maps, Free, Fresh, Seen, Untouched, All, Ready, SetOf, Distinct, Complete;
      var ok, m;
      ghost var pos;
      ok, m, pos := MapShortIds(c, crowded);
      if !ok {
        return Failed;
      }
      MapsFacts(m, c.shorttxids, pos);
      if |m| != |c.shorttxids| {
        return Failed;
      }
      ghost var start := txnsAvailable;
      PrefilledFree(c, start);
      ghost var all := All(pool, extra);
      var have;
      ghost var n1, n2;
      have, n1 := TakePool(c, pool, m, start, pos, all);
      have, n2 := TakeExtra(c, extra, m, have, start, pos, all, |pool|, n1);
      IsReady(c, start, pos, all, |pool|, n1, n2, txnsAvailable, have);
      return Ok;
    }

    /** src/blockencodings.cpp:68-90: every checked position is inside the vector. */
    method PlacePrefilled(c: Compact) returns (ok: bool)
      requires InWords(c) && |txnsAvailable| == Total(c) && forall i :: 0 <= i < Total(c) ==> txnsAvailable[i].None?
      modifies this`txnsAvailable
      ensures ok <==> forall j :: 0 <= j < |c.prefilledtxn| ==> Placeable(c, j)
      ensures ok ==> IsPrefilled(c, txnsAvailable, |c.prefilledtxn|)
    {
      hide IsPrefilled, Free;
      NothingPrefilled(c, txnsAvailable);
      var last: int, i := -1, 0;
      while i < |c.prefilledtxn|
        invariant 0 <= i <= |c.prefilledtxn| && IsPrefilled(c, txnsAvailable, i)
        invariant last == if i == 0 then -1 else At(c.prefilledtxn, i - 1)
      {
        var p := c.prefilledtxn[i];
        if p.tx.isNull {
          assert !Placeable(c, i);
          return false;
        }
        last := last + Step(p.index);
        assert last == At(c.prefilledtxn, i);
        if last > U32_MAX {
          assert !Placeable(c, i);
          return false;
        }
        if last % U32 > |c.shorttxids| + i {
          assert !Placeable(c, i);
          return false;
        }
        PrefillOne(c, txnsAvailable, i);
        txnsAvailable := txnsAvailable[last := Some(p.tx)];
        i := i + 1;
      }
      AllPlaceable(c, txnsAvailable);
      return true;
    }

    /** src/blockencodings.cpp:98-122: the scan for free positions stays inside the vector. */
    method MapShortIds(c: Compact, crowded: nat -> bool) returns (ok: bool, m: map<nat, nat>, ghost pos: seq<nat>)
      requires IsPrefilled(c, txnsAvailable, |c.prefilledtxn|)
      ensures !ok ==> exists i :: 0 <= i < |c.shorttxids| && crowded(i)
      ensures ok ==> |pos| == |c.shorttxids| && InOrder(txnsAvailable, pos) && Maps(m, c.shorttxids, pos)
      ensures ok ==> forall i :: 0 <= i < |c.shorttxids| ==> !crowded(i)
    {
      hide Maps, IsPrefilled, InOrder;
      PrefilledFree(c, txnsAvailable);
      m, pos := map[], [];
      NothingInOrder(txnsAvailable);
      NothingMapped(m, c.shorttxids);
      var offset, i := 0, 0;
      while i < |c.shorttxids|
        invariant 0 <= i <= |c.shorttxids| <= Free(txnsAvailable, |txnsAvailable|) && 0 <= offset
        invariant i + offset <= |txnsAvailable| && Free(txnsAvailable, i + offset) == i
        invariant |pos| == i && InOrder(txnsAvailable, pos) && Maps(m, c.shorttxids[..i], pos)
        invariant forall k :: 0 <= k < i ==> !crowded(k)
      {
        while txnsAvailable[i + offset].Some?
          invariant 0 <= offset && i + offset < |txnsAvailable| && Free(txnsAvailable, i + offset) == i
          decreases |txnsAvailable| - offset
        {
          offset := offset + 1;
        }
        MapsMore(m, c.shorttxids[..i], pos, c.shorttxids[i], i + offset);
        assert c.shorttxids[..i] + [c.shorttxids[i]] == c.shorttxids[..i + 1];
        InOrderMore(txnsAvailable, pos, i + offset);
        m := m[c.shorttxids[i] := i + offset];
        pos := pos + [i + offset];
        if crowded(i) {
          return false, m, pos;
        }
        i := i + 1;
      }
      assert c.shorttxids[..i] == c.shorttxids;
      ok := true;
    }

    /** The state while transactions are looked up, these so far, n of them from the pool: every position
        has what they leave for it, and the count is exact. */
    ghost predicate Looking(c: Compact, m: map<nat, nat>, start: Slots, pos: seq<nat>, all: seq<Source>,
                            seen: seq<Source>, n: nat, have: seq<bool>)
      reads this
    {
      && IsPrefilled(c, start, |c.prefilledtxn|) && InOrder(start, pos) && Maps(m, c.shorttxids, pos)
      && Distinct(c.shorttxids) && Matched(c, start, pos, SetOf(all), txnsAvailable)
      && |have| == |txnsAvailable| && Untouched(txnsAvailable, pos, have)
      && |pos| == |c.shorttxids| && (forall i :: 0 <= i < |pos| ==> pos[i] < |txnsAvailable|)
      && Seen(c, seen, n, pos, txnsAvailable, have)
      && |start| == |txnsAvailable| && mempoolCount + Free(txnsAvailable, |txnsAvailable|) == Free(start, |start|)
    }

    /** src/blockencodings.cpp:132-162. n is how many are looked at. */
    method TakePool(c: Compact, pool: seq<Tx>, m: map<nat, nat>, ghost start: Slots, ghost pos: seq<nat>,
                    ghost all: seq<Source>)
      returns (have: seq<bool>, ghost n: nat)
      requires txnsAvailable == start && mempoolCount == 0 && IsPrefilled(c, start, |c.prefilledtxn|)
      requires InOrder(start, pos) && Maps(m, c.shorttxids, pos) && Distinct(c.shorttxids)
      requires |pool| <= |all| && forall k :: 0 <= k < |pool| ==> all[k] == Source(pool[k].hash, pool[k])
      modifies this`txnsAvailable, this`mempoolCount
      ensures n <= |pool| && Looking(c, m, start, pos, all, all[..n], n, have)
      ensures n < |pool| ==> Complete(c, all[..n], n)
    {
      hide IsPrefilled, InOrder, Matched, Maps, Free, Distinct, Untouched, Seen, SetOf, Complete;
      have := seq(|txnsAvailable|, i => false);
      NothingTaken(c, start, pos, m, all, have);
      var k := 0;
      n := 0;
      while k < |pool|
        invariant 0 <= k <= |pool| && n == k && Looking(c, m, start, pos, all, all[..k], k, have)
      {
        var id := ShortId(c, pool[k].hash);
        LookUp(c, start, pos, m, all, all[..k], k, k + 1, all[k], txnsAvailable, have);
        assert all[..k] + [all[k]] == all[..k + 1];
        if id in m {
          var p := m[id];
          if !have[p] {
            txnsAvailable := txnsAvailable[p := Some(pool[k])];
            have := have[p := true];
            mempoolCount := mempoolCount + 1;
          } else if txnsAvailable[p].Some? {
            txnsAvailable := txnsAvailable[p := None];
            mempoolCount := mempoolCount - 1;
          }
        }
        k := k + 1;
        n := k;
        if mempoolCount == |m| {
          AllFound(c, m, start, pos, all, all[..k], k, txnsAvailable, have);
          break;
        }
      }
    }

    /** src/blockencodings.cpp:164-197. The count of extra transactions wraps when a transaction of the
        pool is given up for one. */
    method TakeExtra(c: Compact, extra: seq<Source>, m: map<nat, nat>, have0: seq<bool>, ghost start: Slots,
                     ghost pos: seq<nat>, ghost all: seq<Source>, ghost from: nat, ghost n1: nat)
      returns (have: seq<bool>, ghost n: nat)
      requires |all| == from + |extra| && n1 <= from && forall k :: 0 <= k < |extra| ==> all[from + k] == extra[k]
      requires Looking(c, m, start, pos, all, all[..n1], n1, have0)
      modifies this`txnsAvailable, this`mempoolCount, this`extraCount
      ensures n <= |extra| && Looking(c, m, start, pos, all, all[..n1] + all[from..from + n], n1, have)
      ensures n < |extra| ==> Complete(c, all[..n1] + all[from..from + n], n1)
    {
      hide IsPrefilled, InOrder, Matched, Maps, Free, Distinct, Untouched, Seen, SetOf, Complete;
      have := have0;
      ghost var seen := all[..n1];
      assert all[..n1] + all[from..from] == all[..n1];
      var k := 0;
      n := 0;
      while k < |extra|
        invariant 0 <= k <= |extra| && n == k && seen == all[..n1] + all[from..from + k]
        invariant Looking(c, m, start, pos, all, seen, n1, have)
      {
        var id := ShortId(c, extra[k].hash);
        assert all[from + k] == extra[k];
        LookUp(c, start, pos, m, all, seen, n1, n1, extra[k], txnsAvailable, have);
        seen := seen + [extra[k]];
        assert seen == all[..n1] + all[from..from + k + 1];
        if id in m {
          var p := m[id];
          if !have[p] {
            txnsAvailable := txnsAvailable[p := Some(extra[k].tx)];
            have := have[p := true];
            mempoolCount := mempoolCount + 1;
            extraCount := extraCount + 1;
          } else if txnsAvailable[p].Some? && txnsAvailable[p].value.hash != extra[k].tx.hash {
            txnsAvailable := txnsAvailable[p := None];
            mempoolCount := mempoolCount - 1;
            extraCount := if extraCount == 0 then U64 - 1 else extraCount - 1;
          }
        }
        k := k + 1;
        n := k;
        if mempoolCount == |m| {
          AllFound(c, m, start, pos, all, seen, n1, txnsAvailable, have);
          break;
        }
      }
    }

    /** src/blockencodings.cpp:214-271. With too few transactions what was moved into the block is gone. */
    method FillBlock(missing: seq<Tx>, check: Check) returns (status: Status, vtx: seq<Tx>)
      requires header.Some?
      modifies this`header, this`txnsAvailable
      ensures var n := Free(old(txnsAvailable), |old(txnsAvailable)|);
              && (status == Invalid <==> |missing| != n)
              && (status != Invalid ==> vtx == Filled(old(txnsAvailable), missing, |old(txnsAvailable)|))
              && (status != Invalid ==> status == Verdict(check))
              && (status == Ok ==> check.Good?) && (status == Failed ==> check.CorruptionPossible?)
              && (status == CheckBlockFailed ==> check.Bad?)
              && (|missing| >= n ==> header.None? && txnsAvailable == [])
              && (|missing| < n ==> header == old(header) && HalfMoved(old(txnsAvailable), txnsAvailable, |missing|))
    {
      hide Filled;
      ghost var before := txnsAvailable;
      vtx := [];
      var offset, i := 0, 0;
      NothingFilled(before, missing);
      while i < |txnsAvailable|
        invariant 0 <= i <= |txnsAvailable| == |before| && header == old(header)
        invariant forall p :: 0 <= p < |before| ==> txnsAvailable[p] == if p < i then None else before[p]
        invariant offset == Free(before, i) <= |missing| && vtx == Filled(before, missing, i)
      {
        FreeRises(before, i, |before|);
        if txnsAvailable[i].None? {
          if |missing| <= offset {
            assert HalfMoved(before, txnsAvailable, |missing|);
            return Invalid, vtx;
          }
          FilledStep(before, missing, i + 1);
          vtx := vtx + [missing[offset]];
          offset := offset + 1;
        } else {
          FilledStep(before, missing, i + 1);
          vtx := vtx + [txnsAvailable[i].value];
          txnsAvailable := txnsAvailable[i := None];
        }
        i := i + 1;
      }
      header := None;
      txnsAvailable := [];
      if |missing| != offset {
        return Invalid, vtx;
      }
      status := Verdict(check);
    }
  }

  /** Everything before the first position that got nothing has been moved out. */
  ghost predicate HalfMoved(before: Slots, a: Slots, m: nat) {
    |a| == |before| &&
    exists k {:trigger before[k]} :: 0 <= k < |before| && before[k].None? && Free(before, k) == m &&
      forall p :: 0 <= p < |before| ==> a[p] == if p < k then None else before[p]
  }

  lemma NothingPrefilled(c: Compact, a: Slots)
    requires |a| == Total(c) && forall i :: 0 <= i < |a| ==> a[i].None?
    ensures IsPrefilled(c, a, 0)
  {
    FreeAll(a, |a|);
  }

  lemma AllPlaceable(c: Compact, a: Slots)
    requires IsPrefilled(c, a, |c.prefilledtxn|)
    ensures forall j :: 0 <= j < |c.prefilledtxn| ==> Placeable(c, j)
  {
  }

  function Verdict(check: Check): Status {
    match check
    case Good => Ok
    case CorruptionPossible => Failed
    case Bad => CheckBlockFailed
  }

  /** One node sends the compact form of a block, the other one looks through what it has, is sent what
      is missing, and without short-id collisions puts the same block together, whatever it had. */
  method Relay(header: nat, sip: nat -> nat, block: seq<Tx>, pool: seq<Tx>, extra: seq<Source>, limit: nat,
               crowded: nat -> bool, check: Check) returns (status: Status, vtx: seq<Tx>)
    requires block != [] && |block| <= limit && |block| <= U32_MAX && !block[0].isNull && (forall i :: !crowded(i))
    requires NoCollision(Shortened(header, sip, block), block, SetOf(All(pool, extra)))
    ensures status == Verdict(check) && vtx == block
  {
    hide NoCollision, SetOf, Ready, Filled, Missing, Free, Placeable, Distinct;
    var c := Shortened(header, sip, block);
    ShortenedIsAccepted(header, sip, block, SetOf(All(pool, extra)));
    var partial := new PartiallyDownloadedBlock();
    var ready := partial.InitData(c, pool, extra, limit, crowded);
    assert ready == Ok;
    RoundTrip(header, sip, block, All(pool, extra), |pool|, partial.txnsAvailable);
    var missing := Missing(partial.txnsAvailable, block, |block|);
    status, vtx := partial.FillBlock(missing, check);
  }

  ghost predicate Untouched(a: Slots, pos: seq<nat>, have: seq<bool>) {
    forall i :: 0 <= i < |pos| && pos[i] < |a| == |have| && !have[pos[i]] ==> a[pos[i]].None?
  }

  lemma NothingFilled(a: Slots, missing: seq<Tx>)
    ensures Filled(a, missing, 0) == []
  {
  }

  lemma FilledStep(a: Slots, missing: seq<Tx>, i: nat)
    requires 0 < i <= |a| && Free(a, i) <= |missing|
    ensures Free(a, i - 1) <= |missing| && (a[i - 1].None? ==> Free(a, i - 1) < |missing|)
    ensures Filled(a, missing, i) ==
            Filled(a, missing, i - 1) + [if a[i - 1].Some? then a[i - 1].value else missing[Free(a, i - 1)]]
  {
  }

  lemma NothingInOrder(a: Slots)
    ensures InOrder(a, [])
  {
  }

  lemma InOrderMore(a: Slots, pos: seq<nat>, p: nat)
    requires InOrder(a, pos) && p < |a| && a[p].None? && Free(a, p) == |pos|
    ensures InOrder(a, pos + [p])
  {
  }

  lemma NothingMapped(m: map<nat, nat>, ids: seq<nat>)
    requires m == map[]
    ensures Maps(m, ids[..0], [])
  {
  }

  lemma MapsFacts(m: map<nat, nat>, ids: seq<nat>, pos: seq<nat>)
    requires Maps(m, ids, pos)
    ensures |ids| == |pos| && (Distinct(ids) <==> |m| == |ids|)
    ensures Distinct(ids) ==> forall k :: k in m ==> m[k] in pos
  {
    if Distinct(ids) {
      forall k | k in m ensures m[k] in pos {
        var i :| 0 <= i < |ids| && ids[i] == k;
      }
    }
  }

  lemma NothingTaken(c: Compact, start: Slots, pos: seq<nat>, m: map<nat, nat>, all: seq<Source>, have: seq<bool>)
    requires IsPrefilled(c, start, |c.prefilledtxn|) && InOrder(start, pos) && Maps(m, c.shorttxids, pos)
    requires |have| == |start| && forall i :: 0 <= i < |have| ==> !have[i]
    ensures Matched(c, start, pos, SetOf(all), start) && Untouched(start, pos, have)
    ensures |pos| == |c.shorttxids| && (forall i :: 0 <= i < |pos| ==> pos[i] < |start|)
    ensures all[..0] == [] && Seen(c, all[..0], 0, pos, start, have)
  {
  }

  /** Every position has what the sources looked at leave for it, and is touched when one has its id. */
  ghost predicate Seen(c: Compact, seen: seq<Source>, n: nat, pos: seq<nat>, a: Slots, have: seq<bool>)
    requires |pos| == |c.shorttxids| && |have| == |a| && forall i :: 0 <= i < |pos| ==> pos[i] < |a|
  {
    forall i :: 0 <= i < |pos| ==>
      && Outcome(c, seen, n, c.shorttxids[i], a[pos[i]])
      && (have[pos[i]] <==> Touched(c, seen, c.shorttxids[i]))
  }

  /** When as many positions are filled as there are short ids, every short id has its transaction. */
  lemma AllFound(c: Compact, m: map<nat, nat>, start: Slots, pos: seq<nat>, all: seq<Source>, seen: seq<Source>,
                 n: nat, a: Slots, have: seq<bool>)
    requires Maps(m, c.shorttxids, pos) && Distinct(c.shorttxids)
    requires InOrder(start, pos) && Matched(c, start, pos, SetOf(all), a)
    requires |have| == |a| && |pos| == |c.shorttxids| && forall i :: 0 <= i < |pos| ==> pos[i] < |a|
    requires Seen(c, seen, n, pos, a, have) && |m| + Free(a, |a|) == Free(start, |start|)
    ensures Complete(c, seen, n)
  {
    hide Free, Distinct, InOrder, Matched, SetOf, Keeps, Touched;
    MapsFacts(m, c.shorttxids, pos);
    hide Maps;
    forall i | 0 <= i < |pos|
      ensures KeepsOne(c, seen, n, c.shorttxids[i])
    {
      PositionFilled(c, start, pos, SetOf(all), a, i);
      assert Outcome(c, seen, n, c.shorttxids[i], a[pos[i]]);
    }
  }

  /** If one of the short ids had its position free, there would be too many free positions. */
  lemma PositionFilled(c: Compact, start: Slots, pos: seq<nat>, sources: set<Source>, a: Slots, i: nat)
    requires InOrder(start, pos) && Matched(c, start, pos, sources, a) && i < |pos|
    requires |pos| + Free(a, |a|) == Free(start, |start|)
    ensures pos[i] < |a| && a[pos[i]].Some?
  {
    hide Free;
    if a[pos[i]].None? {
      FreeOutside(start, pos, a, i, |a|);
    }
  }

  /** How many of the short ids have their position before n. */
  ghost function Before(pos: seq<nat>, n: nat, k: nat): (r: nat)
    requires k <= |pos|
    ensures r <= k
  {
    if k == 0 then 0 else Before(pos, n, k - 1) + (if pos[k - 1] < n then 1 else 0)
  }

  lemma {:induction false} BeforeStep(start: Slots, pos: seq<nat>, n: nat, k: nat)
    requires InOrder(start, pos) && n < |start| && k <= |pos|
    ensures Before(pos, n + 1, k) == Before(pos, n, k) + (if n in pos[..k] then 1 else 0)
    decreases k
  {
    hide Free;
    if k > 0 {
      BeforeStep(start, pos, n, k - 1);
      assert pos[..k] == pos[..k - 1] + [pos[k - 1]];
      assert forall j :: 0 <= j < k - 1 ==> pos[j] != pos[k - 1];
    }
  }

  lemma {:induction false} FreeOutside(start: Slots, pos: seq<nat>, a: Slots, i: nat, n: nat)
    requires InOrder(start, pos) && |a| == |start| && i < |pos| && n <= |a| && a[pos[i]].None?
    requires forall p :: 0 <= p < |a| && start[p].None? && p !in pos ==> a[p].None?
    ensures Free(start, n) + (if pos[i] < n then 1 else 0) <= Free(a, n) + Before(pos, n, |pos|)
    decreases n
  {
    if n > 0 {
      FreeOutside(start, pos, a, i, n - 1);
      BeforeStep(start, pos, n - 1, |pos|);
      assert pos[..|pos|] == pos;
    }
  }

  lemma IsReady(c: Compact, start: Slots, pos: seq<nat>, all: seq<Source>, m: nat, n1: nat, n2: nat, a: Slots,
                have: seq<bool>)
    requires IsPrefilled(c, start, |c.prefilledtxn|) && InOrder(start, pos) && |pos| == |c.shorttxids|
    requires Matched(c, start, pos, SetOf(all), a) && |have| == |a| && (forall i :: 0 <= i < |pos| ==> pos[i] < |a|)
    requires n1 <= m && m + n2 <= |all| && Seen(c, all[..n1] + all[m..m + n2], n1, pos, a, have)
    requires (n1 < m ==> Complete(c, all[..n1], n1)) && (m + n2 < |all| ==> Complete(c, all[..n1] + all[m..m + n2], n1))
    ensures Ready(c, all, m, a)
  {
    hide IsPrefilled, InOrder, Matched, SetOf, Complete, Outcome;
    assert Stopped(c, all, m, pos, a, n1, n2);
    SoleIsUsed(c, all, m, pos, a, n1, n2);
  }

  /** A source that alone has its short id is used, also when looking stops early. */
  lemma SoleIsUsed(c: Compact, all: seq<Source>, m: nat, pos: seq<nat>, a: Slots, n1: nat, n2: nat)
    requires |pos| == |c.shorttxids| && (forall i :: 0 <= i < |pos| ==> pos[i] < |a|)
    requires Stopped(c, all, m, pos, a, n1, n2)
    ensures AllUsed(c, all, pos, a)
  {
    hide Keeps;
    forall i: nat, k: nat | i < |pos| && Sole(c, all, i, k)
      ensures a[pos[i]] == Some(all[k].tx)
    {
      SoleIsKept(c, all, m, n1, n2, i, k, a[pos[i]]);
    }
  }

  lemma SoleIsKept(c: Compact, all: seq<Source>, m: nat, n1: nat, n2: nat, i: nat, k: nat, v: Option<Tx>)
    requires n1 <= m && m + n2 <= |all| && i < |c.shorttxids| && Sole(c, all, i, k)
    requires (n1 < m ==> Complete(c, all[..n1], n1)) && (m + n2 < |all| ==> Complete(c, all[..n1] + all[m..m + n2], n1))
    requires Outcome(c, all[..n1] + all[m..m + n2], n1, c.shorttxids[i], v)
    ensures v == Some(all[k].tx)
  {
    var seen := all[..n1] + all[m..m + n2];
    var id := c.shorttxids[i];
    if n1 < m {
      CompleteHasSole(c, all, m, n1, 0, i, k);
    }
    if m + n2 < |all| {
      CompleteHasSole(c, all, m, n1, n2, i, k);
    }
    assert forall j :: 0 <= j < |seen| ==> seen[j] == all[if j < n1 then j else m + (j - n1)];
    var x := if k < n1 then k else n1 + (k - m);
    assert seen[x] == all[k];
    assert Keeps(c, seen, n1, id, x);
  }

  lemma CompleteHasSole(c: Compact, all: seq<Source>, m: nat, n1: nat, n2: nat, i: nat, k: nat)
    requires n1 <= m && m + n2 <= |all| && i < |c.shorttxids| && Sole(c, all, i, k)
    requires Complete(c, all[..n1] + all[m..m + n2], n1) || (n2 == 0 && Complete(c, all[..n1], n1))
    ensures k < n1 || m <= k < m + n2
  {
    var seen := all[..n1] + all[m..m + n2];
    assert n2 == 0 ==> seen == all[..n1];
    assert KeepsOne(c, seen, n1, c.shorttxids[i]);
    var j: nat :| Keeps(c, seen, n1, c.shorttxids[i], j);
    var x := if j < n1 then j else m + (j - n1);
    assert all[x] == seen[j];
  }

  /** The effect of looking at one more source, in each of the ways it can go. */
  lemma LookUp(c: Compact, start: Slots, pos: seq<nat>, m: map<nat, nat>, all: seq<Source>, seen: seq<Source>, n: nat,
               n': nat, s: Source, a: Slots, have: seq<bool>)
    requires IsPrefilled(c, start, |c.prefilledtxn|) && InOrder(start, pos)
    requires Maps(m, c.shorttxids, pos) && Distinct(c.shorttxids)
    requires Matched(c, start, pos, SetOf(all), a) && |have| == |a| && Untouched(a, pos, have)
    requires |pos| == |c.shorttxids| && (forall i :: 0 <= i < |pos| ==> pos[i] < |a|)
    requires Seen(c, seen, n, pos, a, have) && s in all && n <= |seen|
    requires n' == n || (n == |seen| && n' == n + 1)
    ensures var id := ShortId(c, s.hash);
            && (id !in m ==> Seen(c, seen + [s], n', pos, a, have))
            && (id in m ==> m[id] < |a|)
            && (id in m && !have[m[id]] ==> Placed'(c, start, pos, all, seen, n', s, a, have, m[id]))
            && (id in m && have[m[id]] ==> GivenUp'(c, start, pos, all, seen, n, n', s, a, have, m[id]))
  {
    hide IsPrefilled, InOrder, Matched, Free, Untouched, Seen, Distinct, Maps;
    var id := ShortId(c, s.hash);
    assert s in SetOf(all);
    if id !in m {
      NotAsked(c, m, pos, seen, n, n', s, a, have);
    } else {
      PlaceOne(c, start, pos, m, SetOf(all), a, have, s);
      SeenNext(c, start, pos, m, all, seen, n, n', s, a, have);
    }
  }

  ghost predicate Placed'(c: Compact, start: Slots, pos: seq<nat>, all: seq<Source>, seen: seq<Source>, n': nat,
                          s: Source, a: Slots, have: seq<bool>, p: nat)
    requires p < |a| == |have| && |pos| == |c.shorttxids| && forall i :: 0 <= i < |pos| ==> pos[i] < |a|
  {
    var b, h := a[p := Some(s.tx)], have[p := true];
    && Matched(c, start, pos, SetOf(all), b) && Untouched(b, pos, h) && Seen(c, seen + [s], n', pos, b, h)
    && Free(b, |b|) == Free(a, |a|) - 1
  }

  /** With a second source the position is given up, unless it is an extra one and the same transaction. */
  ghost predicate GivenUp'(c: Compact, start: Slots, pos: seq<nat>, all: seq<Source>, seen: seq<Source>, n: nat,
                           n': nat, s: Source, a: Slots, have: seq<bool>, p: nat)
    requires p < |a| == |have| && |pos| == |c.shorttxids| && forall i :: 0 <= i < |pos| ==> pos[i] < |a|
  {
    var b := a[p := None];
    && Matched(c, start, pos, SetOf(all), b) && Untouched(b, pos, have)
    && (if n' == n && a[p].Some? && a[p].value.hash == s.tx.hash then Seen(c, seen + [s], n', pos, a, have)
        else Seen(c, seen + [s], n', pos, b, have))
    && (a[p].None? ==> b == a)
    && (a[p].Some? && |start| == |a| ==> Free(b, |b|) == Free(a, |a|) + 1 <= Free(start, |start|))
  }

  lemma NotAsked(c: Compact, m: map<nat, nat>, pos: seq<nat>, seen: seq<Source>, n: nat, n': nat, s: Source, a: Slots,
                 have: seq<bool>)
    requires Maps(m, c.shorttxids, pos) && |pos| == |c.shorttxids|
    requires |have| == |a| && forall i :: 0 <= i < |pos| ==> pos[i] < |a|
    requires ShortId(c, s.hash) !in m && Seen(c, seen, n, pos, a, have)
    requires n' == n || (n == |seen| && n' == n + 1)
    ensures Seen(c, seen + [s], n', pos, a, have)
  {
    hide Distinct, Outcome, Touched;
    forall i | 0 <= i < |pos|
      ensures Outcome(c, seen + [s], n', c.shorttxids[i], a[pos[i]])
      ensures Touched(c, seen + [s], c.shorttxids[i]) <==> Touched(c, seen, c.shorttxids[i])
    {
      assert c.shorttxids[i] in m;
      SeeOther(c, seen, n, n', s, c.shorttxids[i], a[pos[i]]);
    }
  }

  lemma SeenNext(c: Compact, start: Slots, pos: seq<nat>, m: map<nat, nat>, all: seq<Source>, seen: seq<Source>,
                 n: nat, n': nat, s: Source, a: Slots, have: seq<bool>)
    requires InOrder(start, pos) && Maps(m, c.shorttxids, pos)
    requires Distinct(c.shorttxids) && Matched(c, start, pos, SetOf(all), a) && s in all
    requires |have| == |a| && |pos| == |c.shorttxids| && (forall i :: 0 <= i < |pos| ==> pos[i] < |a|)
    requires ShortId(c, s.hash) in m && Seen(c, seen, n, pos, a, have) && n <= |seen|
    requires n' == n || (n == |seen| && n' == n + 1)
    ensures var p := m[ShortId(c, s.hash)];
            && p < |a|
            && (!have[p] ==> Seen(c, seen + [s], n', pos, a[p := Some(s.tx)], have[p := true]))
            && (have[p] ==> if n' == n && a[p].Some? && a[p].value.hash == s.tx.hash
                            then Seen(c, seen + [s], n', pos, a, have)
                            else Seen(c, seen + [s], n', pos, a[p := None], have))
  {
    hide Outcome, Touched, SetOf;
    var id := ShortId(c, s.hash);
    var p := m[id];
    var i0 :| 0 <= i0 < |pos| && c.shorttxids[i0] == id;
    assert pos[i0] == p;
    assert s in SetOf(all) by { InSetOf(all, s); }
    MatchedPut(c, start, pos, SetOf(all), a, i0, s);
    hide InOrder, Matched, Maps;
    if !have[p] {
      SeeFirst(c, seen, n', s, id);
      SeenPut(c, seen, n, n', s, pos, a, have, i0, Some(s.tx));
    } else if n' == n && a[p].Some? && a[p].value.hash == s.tx.hash {
      SeeAgain(c, seen, n, s, id, a[p]);
      SeenPut(c, seen, n, n', s, pos, a, have, i0, a[p]);
      assert a[p := a[p]] == a && have[p := true] == have;
    } else {
      SeeConflict(c, seen, n, n', s, id, a[p]);
      SeenPut(c, seen, n, n', s, pos, a, have, i0, None);
      assert have[p := true] == have;
    }
  }

  lemma InSetOf(all: seq<Source>, s: Source)
    requires s in all
    ensures s in SetOf(all)
  {
  }

  /** The position of the short id gets what the sources now leave for it; the others keep what they have. */
  lemma SeenPut(c: Compact, seen: seq<Source>, n: nat, n': nat, s: Source, pos: seq<nat>, a: Slots, have: seq<bool>,
                i0: nat, v: Option<Tx>)
    requires |have| == |a| && |pos| == |c.shorttxids| && (forall i :: 0 <= i < |pos| ==> pos[i] < |a|)
    requires Seen(c, seen, n, pos, a, have) && (n' == n || (n == |seen| && n' == n + 1))
    requires i0 < |pos| && ShortId(c, s.hash) == c.shorttxids[i0] && Distinct(c.shorttxids)
    requires forall j :: 0 <= j < |pos| && j != i0 ==> pos[j] != pos[i0]
    requires Outcome(c, seen + [s], n', c.shorttxids[i0], v) && Touched(c, seen + [s], c.shorttxids[i0])
    ensures Seen(c, seen + [s], n', pos, a[pos[i0] := v], have[pos[i0] := true])
  {
    hide Outcome, Touched;
    forall i | 0 <= i < |pos| && i != i0
      ensures Outcome(c, seen + [s], n', c.shorttxids[i], a[pos[i]])
      ensures Touched(c, seen + [s], c.shorttxids[i]) <==> Touched(c, seen, c.shorttxids[i])
    {
      SeeOther(c, seen, n, n', s, c.shorttxids[i], a[pos[i]]);
    }
  }

  /** Putting a source on the free position of its short id, and giving a position up. */
  lemma PlaceOne(c: Compact, start: Slots, pos: seq<nat>, m: map<nat, nat>, sources: set<Source>, a: Slots,
                 have: seq<bool>, s: Source)
    requires InOrder(start, pos) && Maps(m, c.shorttxids, pos) && Distinct(c.shorttxids)
    requires Matched(c, start, pos, sources, a) && |have| == |a| && Untouched(a, pos, have)
    requires s in sources && ShortId(c, s.hash) in m && IsPrefilled(c, start, |c.prefilledtxn|)
    ensures var p := m[ShortId(c, s.hash)];
            && p < |a|
            && (!have[p] ==> a[p].None? && Matched(c, start, pos, sources, a[p := Some(s.tx)])
                             && Untouched(a[p := Some(s.tx)], pos, have[p := true])
                             && Free(a[p := Some(s.tx)], |a|) == Free(a, |a|) - 1)
            && (have[p] ==> Matched(c, start, pos, sources, a[p := None]) && Untouched(a[p := None], pos, have)
                            && (a[p].Some? ==> Free(a[p := None], |a|) == Free(a, |a|) + 1))
            && |start| == |a| && (a[p].Some? ==> Free(a, |a|) < Free(start, |start|))
  {
    hide Free, IsPrefilled;
    var p := m[ShortId(c, s.hash)];
    var i :| 0 <= i < |pos| && c.shorttxids[i] == ShortId(c, s.hash);
    assert pos[i] == p && pos[i] < |a|;
    MatchedPut(c, start, pos, sources, a, i, s);
    if !have[p] {
      FreePut(a, p, s.tx, |a|);
    }
    if a[p].Some? {
      GivenUp(c, start, pos, sources, a, i);
    }
  }

  lemma MatchedPut(c: Compact, start: Slots, pos: seq<nat>, sources: set<Source>, a: Slots, i: nat, s: Source)
    requires InOrder(start, pos) && Matched(c, start, pos, sources, a) && i < |pos|
    requires s in sources && ShortId(c, s.hash) == c.shorttxids[i]
    ensures forall j :: 0 <= j < |pos| && j != i ==> pos[j] != pos[i]
    ensures Matched(c, start, pos, sources, a[pos[i] := Some(s.tx)])
    ensures Matched(c, start, pos, sources, a[pos[i] := None])
  {
    hide Free;
    var b, n := a[pos[i] := Some(s.tx)], a[pos[i] := None];
    forall j | 0 <= j < |pos| && j != i ensures pos[j] != pos[i] {
    }
    forall j | 0 <= j < |pos| ensures FitsAt(c, sources, b, pos, j) && FitsAt(c, sources, n, pos, j) {
      assert FitsAt(c, sources, a, pos, j);
    }
  }

  lemma GivenUp(c: Compact, start: Slots, pos: seq<nat>, sources: set<Source>, a: Slots, i: nat)
    requires IsPrefilled(c, start, |c.prefilledtxn|) && InOrder(start, pos) && Matched(c, start, pos, sources, a)
    requires i < |pos| && a[pos[i]].Some?
    ensures |start| == |a| && Free(a[pos[i] := None], |a|) == Free(a, |a|) + 1 <= Free(start, |start|)
  {
    hide Free, IsPrefilled, FitsAt;
    var p := pos[i];
    var b := a[p := None];
    FreePut(b, p, a[p].value, |a|);
    assert b[p := Some(a[p].value)] == a;
    FewerFree(b, start, |a|);
  }
}
