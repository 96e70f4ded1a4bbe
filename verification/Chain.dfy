/** The block index tree, its skip pointers and the active chain (src/chain.cpp, src/chain.h). */
module Chain {
  import Bits

  // ---------- Skip heights ----------

  /** Bitwise and of two naturals. */
  function And(a: nat, b: nat): nat {
    if a == 0 || b == 0 then 0 else 2 * And(a / 2, b / 2) + a % 2 * (b % 2)
  }

  /** src/chain.cpp:80-82 */
  function InvertLowestOne(n: nat): nat {
    if n == 0 then 0 else And(n, n - 1)
  }

  /** The largest power of two that divides n. */
  function LowestOne(n: nat): (r: nat)
    requires n > 0
    ensures 0 < r <= n
  {
    if n % 2 == 1 then 1 else 2 * LowestOne(n / 2)
  }

  lemma {:induction false} AndSelf(n: nat)
    ensures And(n, n) == n
  {
    if n != 0 {
      AndSelf(n / 2);
    }
  }

  lemma {:induction false} InvertLowestOneTakesIt(n: nat)
    requires n > 0
    ensures InvertLowestOne(n) == n - LowestOne(n)
  {
    if n % 2 == 1 {
      AndSelf(n / 2);
      assert (n - 1) / 2 == n / 2;
      if n == 1 {
      } else {
        assert And(n, n - 1) == 2 * And(n / 2, n / 2) + 0;
      }
    } else {
      InvertLowestOneTakesIt(n / 2);
      assert (n - 1) / 2 == n / 2 - 1;
    }
  }

  lemma InvertedTwice(n: nat)
    requires n > 0
    ensures InvertLowestOne(InvertLowestOne(n)) < n
  {
    InvertLowestOneTakesIt(n);
    var m := InvertLowestOne(n);
    if m > 0 {
      InvertLowestOneTakesIt(m);
    }
  }

  /** src/chain.cpp:85-95 */
  function GetSkipHeight(height: nat): (r: nat)
    ensures height >= 1 ==> r < height
  {
    if height < 2 then 0
    else if height % 2 == 1 then
      InvertedTwice(height - 1);
      InvertLowestOne(InvertLowestOne(height - 1)) + 1
    else
      InvertLowestOneTakesIt(height);
      InvertLowestOne(height)
  }

  /** An even height loses its lowest one bit; an odd one loses the two lowest above its last bit. */
  lemma SkipHeightIs(height: nat)
    requires height >= 2
    ensures height % 2 == 0 ==> GetSkipHeight(height) == height - LowestOne(height)
    ensures height % 2 == 1 ==>
              var h := height - 1 - LowestOne(height - 1);
              GetSkipHeight(height) == 1 + if h == 0 then 0 else h - LowestOne(h)
  {
    if height % 2 == 0 {
      InvertLowestOneTakesIt(height);
    } else {
      InvertLowestOneTakesIt(height - 1);
      var h := height - 1 - LowestOne(height - 1);
      if h > 0 {
        InvertLowestOneTakesIt(h);
      }
    }
  }

  // ---------- Blocks ----------

  /** CBlockIndex: parent, height and skip pointer. The ghost field is the way from the root. */
  class BlockIndex {
    const pprev: BlockIndex?
    const nHeight: nat
    var pskip: BlockIndex?
    ghost const line: seq<BlockIndex>

    constructor (prev: BlockIndex?)
      requires prev != null ==> Rooted(prev)
      ensures Rooted(this) && pprev == prev && pskip == null
      ensures line == (if prev == null then [] else prev.line) + [this]
    {
      pprev := prev;
      nHeight := if prev == null then 0 else prev.nHeight + 1;
      pskip := null;
      line := (if prev == null then [] else prev.line) + [this];
      new;
      forall i | 0 <= i < |line| ensures NodeAt(line, i) {
        if prev != null && i < |prev.line| {
          assert NodeAt(prev.line, i);
          assert line[..i + 1] == prev.line[..i + 1];
        } else {
          assert line[..i + 1] == line;
          assert prev != null ==> NodeAt(prev.line, |prev.line| - 1);
        }
      }
    }

    /** src/chain.cpp:97-121 */
    method GetAncestor(height: int) returns (r: BlockIndex?)
      requires Rooted(this) && SkipsOk(line)
      ensures r == Ancestor(this, height)
    {
      if height > nHeight || height < 0 {
        return null;
      }
      var walk, heightWalk := this, nHeight;
      AtHeight(this, nHeight);
      while heightWalk > height
        invariant height <= heightWalk <= nHeight && walk == line[heightWalk]
      {
        assert NodeAt(line, heightWalk) && SkipAt(line, heightWalk);
        var heightSkip, heightSkipPrev := GetSkipHeight(heightWalk), GetSkipHeight(heightWalk - 1);
        if walk.pskip != null &&
           (heightSkip == height ||
            (heightSkip > height && !(heightSkipPrev < heightSkip - 2 && heightSkipPrev >= height))) {
          walk, heightWalk := walk.pskip, heightSkip;
        } else {
          walk, heightWalk := walk.pprev, heightWalk - 1;
        }
      }
      r := walk;
      WalkIsLine(this, nHeight - height);
    }

    /** src/chain.cpp:128-132 */
    method BuildSkip()
      requires Rooted(this) && pskip == null && (pprev != null ==> SkipsOk(pprev.line))
      modifies this`pskip
      ensures SkipsOk(line)
      ensures pprev != null ==> pskip == Ancestor(pprev, GetSkipHeight(nHeight))
    {
      assert NodeAt(line, nHeight);
      if pprev != null {
        var p := pprev;
        assert NodeAt(line, nHeight - 1) && p.line == line[..nHeight];
        RootedAt(this, nHeight - 1);
        pskip := p.GetAncestor(GetSkipHeight(nHeight));
        WalkIsLine(p, p.nHeight - GetSkipHeight(nHeight));
        forall i | 0 <= i < |line| ensures SkipAt(line, i) {
          if i < nHeight {
            assert SkipAt(p.line, i) && p.line[i] == line[i] && NodeAt(line, i);
          }
        }
      }
    }
  }

  ghost predicate NodeAt(line: seq<BlockIndex>, i: nat)
    requires i < |line|
  {
    && line[i].line == line[..i + 1]
    && line[i].nHeight == i
    && line[i].pprev == if i == 0 then null else line[i - 1]
  }

  ghost predicate Rooted(b: BlockIndex) {
    |b.line| == b.nHeight + 1 && b.line[b.nHeight] == b && forall i :: 0 <= i < |b.line| ==> NodeAt(b.line, i)
  }

  /** A skip pointer, once there is one, leads to the ancestor at the skip height. */
  ghost predicate SkipAt(line: seq<BlockIndex>, i: nat)
    requires i < |line|
    reads line[i]
  {
    line[i].pskip == null || (i > 0 && line[i].pskip == line[GetSkipHeight(i)])
  }

  ghost predicate SkipsOk(line: seq<BlockIndex>)
    reads line
  {
    forall i :: 0 <= i < |line| ==> SkipAt(line, i)
  }

  /** Following the parent pointers. */
  function Walk(b: BlockIndex, steps: nat): BlockIndex? {
    if steps == 0 then b else if b.pprev == null then null else Walk(b.pprev, steps - 1)
  }

  function Ancestor(b: BlockIndex, height: int): BlockIndex? {
    if height > b.nHeight || height < 0 then null else Walk(b, b.nHeight - height)
  }

  lemma AtHeight(b: BlockIndex, i: nat)
    requires Rooted(b) && i < |b.line|
    ensures NodeAt(b.line, i) && b.nHeight == |b.line| - 1
  {
    assert NodeAt(b.line, |b.line| - 1);
  }

  lemma LineEnds(b: BlockIndex)
    requires Rooted(b)
    ensures |b.line| == b.nHeight + 1 && b.line[b.nHeight] == b
  {
  }

  lemma RootedAt(b: BlockIndex, i: nat)
    requires Rooted(b) && i < |b.line|
    ensures Rooted(b.line[i]) && b.line[i].line == b.line[..i + 1] && b.line[i].nHeight == i
  {
    var l := b.line[..i + 1];
    assert NodeAt(b.line, i);
    forall j | 0 <= j < |l| ensures NodeAt(l, j) {
      assert NodeAt(b.line, j) && b.line[..j + 1] == l[..j + 1];
    }
  }

  lemma {:induction false} WalkIsLine(b: BlockIndex, steps: nat)
    requires Rooted(b)
    ensures Walk(b, steps) == if steps < |b.line| then b.line[|b.line| - 1 - steps] else null
  {
    AtHeight(b, b.nHeight);
    if steps > 0 && b.pprev != null {
      RootedAt(b, b.nHeight - 1);
      WalkIsLine(b.pprev, steps - 1);
    }
  }

  lemma SkipsAt(b: BlockIndex, i: nat)
    requires Rooted(b) && SkipsOk(b.line) && i < |b.line|
    ensures SkipsOk(b.line[i].line)
  {
    RootedAt(b, i);
    var l := b.line[i].line;
    forall j | 0 <= j < |l| ensures SkipAt(l, j) {
      assert SkipAt(b.line, j);
    }
  }

  // ---------- Common ancestors ----------

  ghost predicate IsAncestor(x: BlockIndex, b: BlockIndex) {
    x in b.line
  }

  /** Being on the line is being reached by following parents. */
  lemma AncestorIsWalk(x: BlockIndex, b: BlockIndex)
    requires Rooted(b)
    ensures IsAncestor(x, b) <==> exists steps: nat :: Walk(b, steps) == x
  {
    if IsAncestor(x, b) {
      var i :| 0 <= i < |b.line| && b.line[i] == x;
      WalkIsLine(b, |b.line| - 1 - i);
    }
    if steps: nat :| Walk(b, steps) == x {
      WalkIsLine(b, steps);
    }
  }

  /** r is the last block that a and b have in common, or null when they have none. */
  ghost predicate LastCommon(a: BlockIndex, b: BlockIndex, r: BlockIndex?) {
    if r == null then forall x :: x in a.line ==> !IsAncestor(x, b)
    else IsAncestor(r, a) && IsAncestor(r, b) && forall x :: x in a.line && IsAncestor(x, b) ==> IsAncestor(x, r)
  }

  ghost predicate Apart(a: seq<BlockIndex>, b: seq<BlockIndex>, from: nat) {
    forall k :: from <= k < |a| && k < |b| ==> a[k] != b[k]
  }

  /** Lines that meet at some height agree below it. */
  lemma MeetBelow(a: BlockIndex, b: BlockIndex, h: nat, k: nat)
    requires Rooted(a) && Rooted(b) && k <= h < |a.line| && h < |b.line| && a.line[h] == b.line[h]
    ensures a.line[k] == b.line[k]
  {
    assert NodeAt(a.line, h) && NodeAt(b.line, h);
    assert a.line[..h + 1][k] == b.line[..h + 1][k];
  }

  lemma ApartFrom(a: BlockIndex, b: BlockIndex, h: nat)
    requires Rooted(a) && Rooted(b) && h < |a.line| && h < |b.line| && a.line[h] != b.line[h]
    ensures Apart(a.line, b.line, h)
  {
    forall k | h <= k < |a.line| && k < |b.line| ensures a.line[k] != b.line[k] {
      if a.line[k] == b.line[k] {
        MeetBelow(a, b, k, h);
      }
    }
  }

  lemma SameBlockSameHeight(a: BlockIndex, b: BlockIndex, x: BlockIndex) returns (k: nat)
    requires Rooted(a) && Rooted(b) && x in a.line && x in b.line
    ensures k < |a.line| && k < |b.line| && a.line[k] == x == b.line[k]
  {
    k :| k < |a.line| && a.line[k] == x;
    var j :| 0 <= j < |b.line| && b.line[j] == x;
    assert NodeAt(a.line, k) && NodeAt(b.line, j);
  }

  lemma LastCommonAt(a: BlockIndex, b: BlockIndex, h: nat)
    requires Rooted(a) && Rooted(b) && h < |a.line| && h < |b.line| && a.line[h] == b.line[h]
    requires Apart(a.line, b.line, h + 1)
    ensures LastCommon(a, b, a.line[h])
  {
    var r := a.line[h];
    RootedAt(a, h);
    forall x | x in a.line && IsAncestor(x, b) ensures IsAncestor(x, r) {
      var k := SameBlockSameHeight(a, b, x);
      assert k <= h;
      assert r.line[k] == x;
    }
  }

  lemma NoneCommon(a: BlockIndex, b: BlockIndex)
    requires Rooted(a) && Rooted(b) && Apart(a.line, b.line, 0)
    ensures LastCommon(a, b, null)
  {
    forall x | x in a.line ensures !IsAncestor(x, b) {
      if IsAncestor(x, b) {
        var k := SameBlockSameHeight(a, b, x);
      }
    }
  }

  /** The last common block is determined. */
  lemma LastCommonIsOne(a: BlockIndex, b: BlockIndex, r: BlockIndex?, r': BlockIndex?)
    requires Rooted(a) && Rooted(b) && LastCommon(a, b, r) && LastCommon(a, b, r')
    ensures r == r'
  {
    if r != null && r' != null {
      var i :| 0 <= i < |a.line| && a.line[i] == r;
      var j :| 0 <= j < |a.line| && a.line[j] == r';
      RootedAt(a, i);
      RootedAt(a, j);
      var k := SameBlockSameHeight(a, r', r);
      var m := SameBlockSameHeight(a, r, r');
      assert NodeAt(a.line, i) && NodeAt(a.line, j) && NodeAt(a.line, k) && NodeAt(a.line, m);
    }
  }

  /** src/chain.cpp:172-194. The two inner heights agree, so the assertion there holds, and the loop
      ends at a common block or, for blocks of two trees, at null on both sides. */
  method LastCommonAncestor(a: BlockIndex, b: BlockIndex) returns (r: BlockIndex?)
    requires Rooted(a) && Rooted(b) && SkipsOk(a.line) && SkipsOk(b.line)
    ensures LastCommon(a, b, r)
  {
    var pa: BlockIndex?, pb: BlockIndex? := a, b;
    AtHeight(a, 0);
    AtHeight(b, 0);
    if a.nHeight > b.nHeight {
      pa := a.GetAncestor(b.nHeight);
      WalkIsLine(a, a.nHeight - b.nHeight);
    } else if b.nHeight > a.nHeight {
      pb := b.GetAncestor(a.nHeight);
      WalkIsLine(b, b.nHeight - a.nHeight);
    }
    ghost var h: int := if a.nHeight < b.nHeight then a.nHeight else b.nHeight;
    while pa != pb && pa != null && pb != null
      invariant -1 <= h < |a.line| && h < |b.line| && Apart(a.line, b.line, h + 1)
      invariant pa == if h < 0 then null else a.line[h]
      invariant pb == if h < 0 then null else b.line[h]
      decreases h
    {
      assert NodeAt(a.line, h) && NodeAt(b.line, h) && SkipAt(a.line, h) && SkipAt(b.line, h);
      ApartFrom(a, b, h);
      if pa.pskip != null && pb.pskip != null && pa.pskip != pb.pskip {
        pa, pb := pa.pskip, pb.pskip;
        h := GetSkipHeight(h);
        assert NodeAt(a.line, h) && NodeAt(b.line, h);
        assert pa.nHeight == pb.nHeight;
        ApartFrom(a, b, h);
      } else {
        pa, pb := pa.pprev, pb.pprev;
        h := h - 1;
      }
    }
    assert pa == pb;
    r := pa;
    if h < 0 {
      NoneCommon(a, b);
    } else {
      LastCommonAt(a, b, h);
    }
  }

  /** src/chain.cpp:196-203 */
  method AreOnTheSameFork(a: BlockIndex, b: BlockIndex) returns (same: bool)
    requires Rooted(a) && Rooted(b) && SkipsOk(a.line) && SkipsOk(b.line)
    ensures same <==> IsAncestor(a, b) || IsAncestor(b, a)
  {
    var pa: BlockIndex?, pb: BlockIndex? := a, b;
    AtHeight(a, a.nHeight);
    AtHeight(b, b.nHeight);
    if a.nHeight > b.nHeight {
      pa := a.GetAncestor(b.nHeight);
      WalkIsLine(a, a.nHeight - b.nHeight);
      assert pa == a.line[b.nHeight];
    } else if b.nHeight > a.nHeight {
      pb := b.GetAncestor(a.nHeight);
      WalkIsLine(b, b.nHeight - a.nHeight);
      assert pb == b.line[a.nHeight];
    }
    same := pa == pb;
    if IsAncestor(a, b) {
      var k := SameBlockSameHeight(a, b, a);
      AtHeight(a, k);
      AtHeight(b, k);
    }
    if IsAncestor(b, a) {
      var k := SameBlockSameHeight(a, b, b);
      AtHeight(a, k);
      AtHeight(b, k);
    }
  }

  // ---------- The active chain ----------

  /** The vector is the line of its last block. */
  ghost predicate IsWholeLine(v: seq<BlockIndex?>) {
    v == [] || (v[|v| - 1] != null && (var tip: BlockIndex := v[|v| - 1]; Rooted(tip) && v == tip.line))
  }

  /** CChain */
  class ActiveChain {
    var vChain: seq<BlockIndex?>

    ghost predicate Valid()
      reads this
    {
      IsWholeLine(vChain)
    }

    constructor ()
      ensures Valid() && vChain == []
    {
      vChain := [];
    }

    /** src/chain.h:370-412 */
    function Tip(): BlockIndex?
      reads this
    {
      if |vChain| > 0 then vChain[|vChain| - 1] else null
    }

    function At(height: int): BlockIndex?
      reads this
    {
      if height < 0 || height >= |vChain| then null else vChain[height]
    }

    function Contains(b: BlockIndex): bool
      reads this
    {
      At(b.nHeight) == b
    }

    function Height(): int
      reads this
    {
      |vChain| - 1
    }

    /** The early exit of src/chain.cpp:12-23 leaves the whole line of the new tip. */
    method SetTip(pindex: BlockIndex?)
      requires Valid() && (pindex != null ==> Rooted(pindex))
      modifies this
      ensures Valid() && Tip() == pindex
      ensures pindex != null ==> vChain == pindex.line
    {
      if pindex == null {
        vChain := [];
        return;
      }
      ghost var tip := pindex;
      ghost var was := vChain;
      AtHeight(tip, tip.nHeight);
      vChain := Resized(vChain, pindex.nHeight + 1);
      ghost var start := vChain;
      var walk: BlockIndex? := pindex;
      ghost var h: int := tip.nHeight;
      while walk != null && vChain[walk.nHeight] != walk
        invariant |vChain| == |start| == |tip.line| && -1 <= h < |vChain|
        invariant walk == if h < 0 then null else tip.line[h]
        invariant walk != null ==> walk.nHeight == h
        invariant forall k :: 0 <= k <= h ==> vChain[k] == start[k]
        invariant forall k :: h < k < |vChain| ==> vChain[k] == tip.line[k]
        decreases h
      {
        assert NodeAt(tip.line, h);
        vChain := vChain[walk.nHeight := walk];
        walk := walk.pprev;
        h := h - 1;
        if h >= 0 {
          assert NodeAt(tip.line, h);
        }
      }
      if walk != null {
        KnownBelow(was, start, tip, h);
      }
      assert forall k :: 0 <= k < |vChain| ==> vChain[k] == tip.line[k];
    }

    /** src/chain.cpp:56-67: the last block that this chain and the line of pindex have in common. */
    method FindFork(pindex: BlockIndex?) returns (r: BlockIndex?)
      requires Valid() && (pindex != null ==> Rooted(pindex) && SkipsOk(pindex.line))
      ensures pindex == null || Tip() == null ==> r == null
      ensures pindex != null && Tip() != null ==> LastCommon(Tip(), pindex, r)
    {
      if pindex == null {
        return null;
      }
      AtHeight(pindex, 0);
      var walk: BlockIndex? := pindex;
      ghost var h: int := pindex.nHeight;
      if pindex.nHeight > Height() {
        walk := pindex.GetAncestor(Height());
        h := Height();
        if h >= 0 {
          WalkIsLine(pindex, pindex.nHeight - h);
        }
      }
      while walk != null && !Contains(walk)
        invariant -1 <= h < |vChain| && h < |pindex.line|
        invariant walk == if h < 0 then null else pindex.line[h]
        invariant forall k :: h < k < |vChain| && k < |pindex.line| ==> vChain[k] != pindex.line[k]
        decreases h
      {
        assert NodeAt(pindex.line, h);
        walk := walk.pprev;
        h := h - 1;
      }
      r := walk;
      if Tip() != null {
        var tip: BlockIndex := Tip();
        if h < 0 {
          NoneCommon(tip, pindex);
        } else {
          assert NodeAt(pindex.line, h);
          LastCommonAt(tip, pindex, h);
        }
      }
    }

    /** src/chain.cpp:41-47: the ancestor at a height, from the chain's index where that has it. */
    method Back(w: BlockIndex, height: nat) returns (r: BlockIndex)
      requires Valid() && Rooted(w) && SkipsOk(w.line) && height <= w.nHeight
      ensures r == w.line[height]
    {
      WalkIsLine(w, w.nHeight - height);
      var b: BlockIndex?;
      if Contains(w) {
        ChainIsLine(w);
        b := At(height);
      } else {
        b := w.GetAncestor(height);
      }
      r := b;
    }

    /** src/chain.cpp:25-54, as blocks instead of their hashes. */
    method GetLocator(pindex: BlockIndex?) returns (have: seq<BlockIndex>)
      requires Valid() && (pindex != null ==> Rooted(pindex) && SkipsOk(pindex.line))
      requires Tip() != null ==> SkipsOk(Tip().line)
      ensures var from := if pindex == null then Tip() else pindex;
              if from == null then have == [] else IsLocator(from, have)
    {
      hide Rooted, NodeAt, SkipsOk, IsWholeLine, Heights, Follows;
      have := [];
      var walk := if pindex == null then Tip() else pindex;
      if walk == null {
        return;
      }
      ghost var from: BlockIndex := walk;
      TipIsRooted();
      LineEnds(from);
      ghost var plan := Heights(from.nHeight, 1, 0);
      ghost var rest := plan;
      NothingYet(from.line, plan);
      var step := 1;
      while walk != null
        invariant walk != null ==> walk.nHeight < |from.line| && walk == from.line[walk.nHeight]
        invariant step >= 1
        invariant rest == if walk == null then [] else Heights(walk.nHeight, step, |have|)
        invariant |have| + |rest| == |plan|
        invariant plan[|have|..] == rest
        invariant Follows(from.line, plan, have)
        decreases if walk == null then -1 else walk.nHeight as int
      {
        var w: BlockIndex := walk;
        HeightsStep(w.nHeight, step, |have|);
        OneFurther(from.line, plan, have, w);
        have := have + [w];
        rest := rest[1..];
        if w.nHeight == 0 {
          break;
        }
        RootedAt(from, w.nHeight);
        SkipsAt(from, w.nHeight);
        var height := if w.nHeight > step then w.nHeight - step else 0;
        walk := Back(w, height);
        RootedAt(from, height);
        if |have| > 10 {
          step := step * 2;
        }
      }
      HeightsFacts(from.nHeight, 1, 0);
    }

    lemma TipIsRooted()
      requires Valid()
      ensures Tip() != null ==> Rooted(Tip())
    {
    }

    lemma ChainIsLine(b: BlockIndex)
      requires Valid() && Rooted(b) && Contains(b)
      ensures forall k :: 0 <= k <= b.nHeight ==> At(k) == b.line[k]
    {
      AtHeight(b, b.nHeight);
      var tip: BlockIndex := Tip();
      forall k | 0 <= k <= b.nHeight ensures At(k) == b.line[k] {
        MeetBelow(tip, b, b.nHeight, k);
      }
    }
  }

  /** vector::resize */
  function Resized(v: seq<BlockIndex?>, n: nat): (r: seq<BlockIndex?>)
    ensures |r| == n && forall k :: 0 <= k < n ==> r[k] == if k < |v| then v[k] else null
  {
    if n <= |v| then v[..n] else v + seq(n - |v|, i => null)
  }

  /** What the early exit relies on: where the old chain already has a block of the new line, it has
      everything below that block too. */
  lemma KnownBelow(was: seq<BlockIndex?>, start: seq<BlockIndex?>, tip: BlockIndex, h: nat)
    requires Rooted(tip) && h < |tip.line| == |start| && start[h] == tip.line[h]
    requires IsWholeLine(was)
    requires forall k :: 0 <= k < |start| ==> start[k] == if k < |was| then was[k] else null
    ensures forall k :: 0 <= k <= h ==> start[k] == tip.line[k]
  {
    var oldTip: BlockIndex := was[|was| - 1];
    forall k | 0 <= k <= h ensures start[k] == tip.line[k] {
      MeetBelow(oldTip, tip, h, k);
    }
  }

  // ---------- Locators ----------

  /** The step after so many entries. */
  function NextStep(step: nat, count: nat): (r: nat)
    ensures r >= step
  {
    if count > 10 then step * 2 else step
  }

  /** The heights of a locator: single steps for the first eleven entries, then doubling ones. */
  function Heights(height: nat, step: nat, count: nat): (r: seq<nat>)
    requires step >= 1
    ensures r != [] && r[0] == height
    decreases height
  {
    if height == 0 then [0]
    else [height] + Heights(if height > step then height - step else 0, NextStep(step, count + 1), count + 1)
  }

  lemma HeightsStep(height: nat, step: nat, count: nat)
    requires step >= 1
    ensures Heights(height, step, count)[1..] ==
            if height == 0 then []
            else Heights(if height > step then height - step else 0, NextStep(step, count + 1), count + 1)
  {
  }

  /** How far back entry k of a locator is: one step per entry for the first eleven, then steps of two,
      four, eight and so on. */
  ghost function Back(k: nat): nat {
    if k <= 11 then k else 9 + Bits.Pow2(k - 10)
  }

  ghost predicate Planned(r: seq<nat>, top: nat, count: nat) {
    && r != [] && r[|r| - 1] == 0 && Back(count + |r| - 1) >= top
    && forall k: nat :: k < |r| - 1 ==> IsBack(r[k], top, count + k)
  }

  ghost predicate IsBack(height: nat, top: nat, k: nat) {
    Back(k) < top && height == top - Back(k)
  }

  /** The heights of a locator in closed form: as far back as the entry says, as long as that stays above
      the genesis block, with which it ends. */
  lemma HeightsAre(height: nat)
    ensures var r := Heights(height, 1, 0);
            && r[|r| - 1] == 0 && Back(|r| - 1) >= height
            && (forall k :: 0 <= k < |r| - 1 ==> Back(k) < height && r[k] == height - Back(k))
  {
    hide Heights, Back;
    assert Back(0) == 0 by { BackStarts(); }
    HeightsFrom(height, height, 1, 0);
    var r := Heights(height, 1, 0);
    forall k | 0 <= k < |r| - 1
      ensures Back(k) < height && r[k] == height - Back(k)
    {
      assert IsBack(r[k], height, 0 + k);
    }
  }

  lemma BackStarts()
    ensures Back(0) == 0
  {
  }

  lemma {:induction false} HeightsFrom(top: nat, height: nat, step: nat, count: nat)
    requires step == StepAt(count) && height == Above(top, count)
    ensures step >= 1 && Planned(Heights(height, step, count), top, count)
    decreases height
  {
    hide Back, Planned, StepAt;
    BackStep(count);
    var r := Heights(height, step, count);
    if height > 0 {
      var h, s := if height > step then height - step else 0, NextStep(step, count + 1);
      HeightsFrom(top, h, s, count + 1);
      OneHeightMore(r, Heights(h, s, count + 1), top, count);
    } else {
      LastHeight(r, top, count);
    }
  }

  ghost function StepAt(count: nat): nat { if count <= 10 then 1 else Bits.Pow2(count - 10) }

  ghost function Above(top: nat, count: nat): nat { if Back(count) < top then top - Back(count) else 0 }

  lemma LastHeight(r: seq<nat>, top: nat, count: nat)
    requires r == [0] && Back(count) >= top
    ensures Planned(r, top, count)
  {
    hide Back;
  }

  lemma OneHeightMore(r: seq<nat>, t: seq<nat>, top: nat, count: nat)
    requires Planned(t, top, count + 1) && Back(count) < top && r == [top - Back(count)] + t
    ensures Planned(r, top, count)
  {
    hide Back;
    assert r != [] && r[|r| - 1] == t[|t| - 1] == 0;
    assert count + |r| - 1 == (count + 1) + |t| - 1;
    forall k: nat | k < |r| - 1
      ensures IsBack(r[k], top, count + k)
    {
      if k > 0 {
        assert r[k] == t[k - 1] && IsBack(t[k - 1], top, count + 1 + (k - 1));
      }
    }
  }

  lemma BackStep(count: nat)
    ensures StepAt(count) >= 1 && Back(count + 1) == Back(count) + StepAt(count)
    ensures NextStep(StepAt(count), count + 1) == StepAt(count + 1)
  {
    assert Bits.Pow2(0) == 1 && Bits.Pow2(1) == 2;
  }

  /** A locator starts at its block, ends at the genesis block and goes strictly down. */
  lemma {:induction false} HeightsFacts(height: nat, step: nat, count: nat)
    requires step >= 1
    ensures var r := Heights(height, step, count);
            r[|r| - 1] == 0 && (forall k :: 0 <= k < |r| ==> r[k] <= height) && Falling(r)
    decreases height
  {
    if height > 0 {
      HeightsFacts(if height > step then height - step else 0, NextStep(step, count + 1), count + 1);
    }
  }

  ghost predicate Falling(r: seq<nat>) {
    forall i, j :: 0 <= i < j < |r| ==> r[i] > r[j]
  }

  ghost predicate IsLocator(from: BlockIndex, have: seq<BlockIndex>) {
    var plan := Heights(from.nHeight, 1, 0);
    |have| == |plan| && Follows(from.line, plan, have)
  }

  /** The blocks of the line at the first of the planned heights. */
  ghost predicate Follows(line: seq<BlockIndex>, plan: seq<nat>, have: seq<BlockIndex>) {
    |have| <= |plan| && forall k :: 0 <= k < |have| ==> plan[k] < |line| && have[k] == line[plan[k]]
  }

  lemma OneFurther(line: seq<BlockIndex>, plan: seq<nat>, have: seq<BlockIndex>, w: BlockIndex)
    requires Follows(line, plan, have) && |have| < |plan|
    requires plan[|have|] < |line| && w == line[plan[|have|]]
    ensures Follows(line, plan, have + [w])
    ensures plan[|have|..][1..] == plan[|have| + 1..]
  {
  }

  lemma NothingYet(line: seq<BlockIndex>, plan: seq<nat>)
    ensures Follows(line, plan, [])
  {
  }

  // ---------- Every tree ----------

  /** The block index: blocks come in one by one, each under a known parent or as a root. */
  class BlockTree {
    ghost var blocks: set<BlockIndex>

    ghost predicate Valid()
      reads this, blocks
    {
      forall b :: b in blocks ==> Rooted(b) && (forall x :: x in b.line ==> x in blocks) && SkipsOk(b.line)
    }

    constructor ()
      ensures Valid() && blocks == {}
    {
      blocks := {};
    }

    method AddToBlockIndex(prev: BlockIndex?) returns (b: BlockIndex)
      requires Valid() && (prev != null ==> prev in blocks)
      modifies this
      ensures Valid() && fresh(b) && blocks == old(blocks) + {b} && b.pprev == prev
      ensures prev != null ==> b.pskip == Ancestor(prev, GetSkipHeight(b.nHeight))
    {
      b := new BlockIndex(prev);
      b.BuildSkip();
      forall c | c in blocks ensures SkipsOk(c.line) {
        assert forall i :: 0 <= i < |c.line| ==> c.line[i] in blocks;
        assert forall i :: 0 <= i < |c.line| ==> old(SkipAt(c.line, i)) ==> SkipAt(c.line, i);
      }
      blocks := blocks + {b};
    }
  }
}
