/** What a sample of addresses contains, and the size of the random index. */
module AddrManSample {
  import opened AddrManSpec
  import opened AddrManSteps
  import opened AddrManRuns

  /** The entry at position k of the shuffled index, judged when the loop reached it. */
  ghost predicate Fit(s: State, k: nat, clock: nat -> int)
    requires Index(s) && k < |s.vRandom|
  {
    !IsTerrible(s.mapInfo[s.vRandom[k]], clock(k))
  }

  ghost function At(s: State, k: nat): Address
    requires Index(s) && k < |s.vRandom|
  {
    AddressOf(s.mapInfo[s.vRandom[k]])
  }

  /** The address of an entry, with its services and its time. */
  ghost predicate IsOf(a: Address, info: Info) {
    a.svc == info.svc && a.services == info.services && a.time == info.time
  }

  ghost predicate Comes(s: State, n: nat, a: Address, clock: nat -> int)
    requires Index(s) && n <= |s.vRandom|
  {
    exists k: nat | k < n :: At(s, k) == a && Fit(s, k, clock) && IsOf(a, s.mapInfo[s.vRandom[k]])
  }

  /** The sample holds each fit entry among the first n, once, and nothing else. */
  ghost predicate Drawn(s: State, n: nat, out: seq<Address>, clock: nat -> int)
    requires Index(s) && n <= |s.vRandom|
  {
    && (forall i, j | 0 <= i < j < |out| :: out[i].svc.net != out[j].svc.net)
    && (forall i | 0 <= i < |out| :: Comes(s, n, out[i], clock))
    && (forall k: nat | k < n && Fit(s, k, clock) :: At(s, k) in out)
  }

  lemma SwapKeepsDrawn(s: State, n: nat, p: nat, out: seq<Address>, clock: nat -> int)
    requires Index(s) && n <= p < |s.vRandom| && Drawn(s, n, out, clock)
    ensures Index(SwapRandom(s, n, p)) && |SwapRandom(s, n, p).vRandom| == |s.vRandom|
    ensures Drawn(SwapRandom(s, n, p), n, out, clock)
  {
    SwapRandomIndex(s, n, p);
    var s1 := SwapRandom(s, n, p);
    forall k: nat | k < n
      ensures At(s1, k) == At(s, k) && Fit(s1, k, clock) == Fit(s, k, clock)
    {
      assert s1.vRandom[k] == s.vRandom[k];
      assert SameEntry(s.mapInfo[s.vRandom[k]], s1.mapInfo[s.vRandom[k]]);
    }
    forall i | 0 <= i < |out|
      ensures Comes(s1, n, out[i], clock)
    {
      assert Comes(s, n, out[i], clock);
      var k: nat :| k < n && At(s, k) == out[i] && Fit(s, k, clock);
      assert At(s1, k) == out[i] && Fit(s1, k, clock);
    }
  }

  lemma DistinctNets(s: State, k: nat, n: nat)
    requires Index(s) && k < n < |s.vRandom|
    ensures At(s, k).svc.net != At(s, n).svc.net
  {
    var a, b := s.vRandom[k], s.vRandom[n];
    assert s.mapInfo[a].randomPos == k && s.mapInfo[b].randomPos == n;
    assert s.mapAddr[s.mapInfo[a].svc.net] == a && s.mapAddr[s.mapInfo[b].svc.net] == b;
  }

  lemma DrawNext(s: State, n: nat, out: seq<Address>, clock: nat -> int)
    requires Index(s) && n < |s.vRandom| && Drawn(s, n, out, clock)
    ensures Drawn(s, n + 1, if Fit(s, n, clock) then out + [At(s, n)] else out, clock)
  {
    var out' := if Fit(s, n, clock) then out + [At(s, n)] else out;
    forall i | 0 <= i < |out'|
      ensures Comes(s, n + 1, out'[i], clock)
    {
      if i < |out| {
        assert Comes(s, n, out[i], clock);
        var k: nat :| k < n && At(s, k) == out[i] && Fit(s, k, clock);
        assert k < n + 1 && At(s, k) == out'[i] && Fit(s, k, clock);
      } else {
        assert n < n + 1 && At(s, n) == out'[i] && Fit(s, n, clock);
      }
    }
    forall i, j | 0 <= i < j < |out'|
      ensures out'[i].svc.net != out'[j].svc.net
    {
      if j == |out| {
        assert Comes(s, n, out[i], clock);
        var k: nat :| k < n && At(s, k) == out[i] && Fit(s, k, clock);
        DistinctNets(s, k, n);
      }
    }
    forall k: nat | k < n + 1 && Fit(s, k, clock)
      ensures At(s, k) in out'
    {
      if k == n {
        assert out'[|out|] == At(s, n);
      } else {
        assert At(s, k) in out;
      }
    }
  }

  /** A finished sample: capped, or of every position. */
  ghost predicate Sampled(s: State, out: seq<Address>, cap: int, clock: nat -> int)
    requires Index(s)
  {
    && |out| <= cap
    && exists n: nat :: n <= |s.vRandom| && (|out| < cap ==> n == |s.vRandom|) && Drawn(s, n, out, clock)
  }

  lemma SampleStep(s: State, n: nat, out: seq<Address>, cap: int, rnd: nat -> nat, clock: nat -> int)
    requires Index(s) && n < |s.vRandom| && |out| < cap
    ensures var s1 := SwapRandom(s, n, DrawFrom(rnd, n, |s.vRandom|));
            && Index(s1) && |s1.vRandom| == |s.vRandom| && s1.vRandom[n] in s1.mapInfo
            && var info := s1.mapInfo[s1.vRandom[n]];
            var out' := if IsTerrible(info, clock(n)) then out else out + [AddressOf(info)];
            Sample(s, n, out, cap, rnd, clock) == Sample(s1, n + 1, out', cap, rnd, clock)
  {
    hide IsTerrible;
    SwapRandomIndex(s, n, DrawFrom(rnd, n, |s.vRandom|));
  }

  lemma SampleEnds(s: State, n: nat, out: seq<Address>, cap: int, rnd: nat -> nat, clock: nat -> int)
    requires Index(s) && n <= |s.vRandom| && (n == |s.vRandom| || |out| >= cap)
    ensures Sample(s, n, out, cap, rnd, clock) == (s, out)
  {
    hide Index;
  }

  lemma {:induction false} SampleDraws(s: State, n: nat, out: seq<Address>, cap: int, rnd: nat -> nat,
                                       clock: nat -> int)
    requires Index(s) && n <= |s.vRandom| && Drawn(s, n, out, clock) && |out| <= cap
    ensures var r := Sample(s, n, out, cap, rnd, clock); Sampled(r.0, r.1, cap, clock)
    decreases |s.vRandom| - n
  {
    hide Index, Sample, SwapRandom, DrawFrom, Fit, At, Drawn, Sampled;
    if n != |s.vRandom| && |out| < cap {
      var s1 := SwapRandom(s, n, DrawFrom(rnd, n, |s.vRandom|));
      SampleStep(s, n, out, cap, rnd, clock);
      SwapKeepsDrawn(s, n, DrawFrom(rnd, n, |s.vRandom|), out, clock);
      DrawNext(s1, n, out, clock);
      var out' := if Fit(s1, n, clock) then out + [At(s1, n)] else out;
      FitIs(s1, n, clock);
      SampleDraws(s1, n + 1, out', cap, rnd, clock);
    } else {
      SampleEnds(s, n, out, cap, rnd, clock);
      DrawnIsSampled(s, n, out, cap, clock);
    }
  }

  lemma FitIs(s: State, n: nat, clock: nat -> int)
    requires Index(s) && n < |s.vRandom|
    ensures s.vRandom[n] in s.mapInfo
    ensures Fit(s, n, clock) == !IsTerrible(s.mapInfo[s.vRandom[n]], clock(n))
    ensures At(s, n) == AddressOf(s.mapInfo[s.vRandom[n]])
  {
    hide IsTerrible;
  }

  lemma DrawnIsSampled(s: State, n: nat, out: seq<Address>, cap: int, clock: nat -> int)
    requires Index(s) && n <= |s.vRandom| && Drawn(s, n, out, clock) && |out| <= cap
    requires |out| < cap ==> n == |s.vRandom|
    ensures Sampled(s, out, cap, clock)
  {
    hide Index, Drawn;
  }

  /** A sample has no address twice, no address of a terrible entry, at most the requested
      number, and when it has fewer it has every fit entry (src/addrman.cpp:568-592). */
  lemma SampleIsSound(e: Env, s: State, maxAddresses: nat, maxPct: nat, rnd: nat -> nat, clock: nat -> int)
    requires Consistent(e, s)
    ensures var cap := SampleCap(|s.vRandom|, maxAddresses, maxPct);
            var r := Sample(s, 0, [], cap, rnd, clock);
            Sampled(r.0, r.1, cap, clock)
  {
    assert Index(s);
    hide Index;
    SampleDraws(s, 0, [], SampleCap(|s.vRandom|, maxAddresses, maxPct), rnd, clock);
  }

  /** `Check_` code -7: the index has as many ids as the counters say (src/addrman.cpp:472-474). */
  lemma RandomSize(e: Env, s: State)
    requires Consistent(e, s)
    ensures |s.vRandom| == |s.mapInfo| == s.nTried + s.nNew
  {
    hide AddrIndex, RandomIndex, TriedTable, NewTable, RefCounts, Times, Collisions, NewIds, TriedIds;
    IndexCovers(s.mapInfo, s.vRandom);
    NewAndTried(s.mapInfo);
  }

  lemma IndexCovers(m: map<int, Info>, v: seq<int>)
    requires RandomIndex(m, v)
    ensures |v| == |m|
  {
    IndexSize(m, v, |v|);
    var ids := set k | 0 <= k < |v| :: v[k];
    forall id | id in m
      ensures id in ids
    {
      assert v[m[id].randomPos] == id;
    }
    assert m.Keys == ids;
  }

  lemma NewAndTried(m: map<int, Info>)
    ensures |m| == |NewIds(m)| + |TriedIds(m)|
  {
    assert m.Keys == NewIds(m) + TriedIds(m) && NewIds(m) !! TriedIds(m);
  }

  lemma {:induction false} IndexSize(m: map<int, Info>, v: seq<int>, n: nat)
    requires RandomIndex(m, v) && n <= |v|
    ensures |set k | 0 <= k < n :: v[k]| == n
  {
    var ids := set k | 0 <= k < n :: v[k];
    if n > 0 {
      IndexSize(m, v, n - 1);
      var less := set k | 0 <= k < n - 1 :: v[k];
      assert v[n - 1] !in less by {
        assert forall k | 0 <= k < n - 1 :: m[v[k]].randomPos == k;
        assert m[v[n - 1]].randomPos == n - 1;
      }
      assert ids == less + {v[n - 1]};
    } else {
      assert ids == {};
    }
  }
}
