// The spread strategy: threads are split over the caches, and the threads of each
// cache are split over the cores of that cache.
module Spread {
  import opened Bits
  import opened CoreLists
  import Split

  /** The indices at which v occurs in s, ascending. */
  function Positions(s: seq<int>, v: int): seq<nat> {
    if s == [] then []
    else Positions(s[..|s| - 1], v) + if s[|s| - 1] == v then [|s| - 1] else []
  }

  /** How many earlier threads share thread i's cache. */
  function Rank(s: seq<int>, i: nat): nat
    requires i < |s|
  {
    multiset(s[..i])[s[i]]
  }

  /** The cache thread i out of t is given. */
  function Cache(lists: seq<seq<nat>>, t: nat, i: nat): (c: nat)
    requires lists != [] && i < t
    ensures c < |lists|
  {
    Split.AssignmentShape(t, |lists|, 0);
    Split.Assignment(t, |lists|, 0)[i]
  }

  /** The place of thread i's core in the list of its cache. */
  function Slot(lists: seq<seq<nat>>, t: nat, i: nat): (slot: nat)
    requires lists != [] && i < t && lists[Cache(lists, t, i)] != []
    ensures slot < |lists[Cache(lists, t, i)]|
  {
    var cores := lists[Cache(lists, t, i)];
    var caches := Split.Assignment(t, |lists|, 0);
    RankBelowLoad(caches, i);
    var load := Split.Load(t, |lists|, 0, caches[i]);
    Split.AssignmentShape(load, |cores|, 0);
    Split.Assignment(load, |cores|, 0)[Rank(caches, i)]
  }

  /** The CPU of thread i out of t; a cache without cores leaves the entry as it was. */
  function SpreadEntry(lists: seq<seq<nat>>, t: nat, i: nat, was: int): int
    requires lists != [] && i < t
  {
    var cores := lists[Cache(lists, t, i)];
    if cores == [] then was else cores[Slot(lists, t, i)]
  }

  // ----- positions and ranks -----

  lemma {:induction false} PositionsSorted(s: seq<int>, v: int)
    ensures |Positions(s, v)| == multiset(s)[v]
    ensures forall k :: 0 <= k < |Positions(s, v)| ==> Positions(s, v)[k] < |s| && s[Positions(s, v)[k]] == v
    ensures forall j, k :: 0 <= j < k < |Positions(s, v)| ==> Positions(s, v)[j] < Positions(s, v)[k]
  {
    if s != [] {
      PositionsSorted(s[..|s| - 1], v);
      assert s == s[..|s| - 1] + [s[|s| - 1]];
    }
  }

  /** Thread i is entry Rank(s, i) of its cache's thread list. */
  lemma {:induction false} PositionOfRank(s: seq<int>, i: nat)
    requires i < |s|
    ensures Rank(s, i) < |Positions(s, s[i])|
    ensures Positions(s, s[i])[Rank(s, i)] == i
  {
    var last := s[..|s| - 1];
    assert s == last + [s[|s| - 1]];
    if i == |s| - 1 {
      PositionsSorted(last, s[i]);
    } else {
      PositionOfRank(last, i);
      assert s[..i] == last[..i];
    }
  }

  lemma RankBelowLoad(s: seq<int>, i: nat)
    requires i < |s|
    ensures Rank(s, i) < multiset(s)[s[i]]
  {
    PositionOfRank(s, i);
    PositionsSorted(s, s[i]);
  }

  /** Two threads of one cache have different ranks. */
  lemma RankInjective(s: seq<int>, i: nat, j: nat)
    requires i < |s| && j < |s| && s[i] == s[j] && Rank(s, i) == Rank(s, j)
    ensures i == j
  {
    PositionOfRank(s, i);
    PositionOfRank(s, j);
  }

  lemma RankSurjective(s: seq<int>, v: int, r: nat) returns (i: nat)
    requires r < multiset(s)[v]
    ensures i < |s| && s[i] == v && Rank(s, i) == r
  {
    PositionsSorted(s, v);
    i := Positions(s, v)[r];
    PositionOfRank(s, i);
  }

  // ----- which cores are shared -----

  /** The result of the strategy on a vector of t zero entries. */
  function SpreadVector(lists: seq<seq<nat>>, t: nat): (s: seq<int>)
    requires lists != []
    ensures |s| == t
  {
    seq(t, i requires 0 <= i < t => SpreadEntry(lists, t, i, 0))
  }

  /** Every cache has cores, and no core occurs twice. */
  ghost predicate DisjointCaches(lists: seq<seq<nat>>) {
    && (forall c :: 0 <= c < |lists| ==> lists[c] != [])
    && (forall c, i, d, j ::
          (0 <= c < |lists| && 0 <= d < |lists| && 0 <= i < |lists[c]| && 0 <= j < |lists[d]|
           && lists[c][i] == lists[d][j]) ==> c == d && i == j)
  }

  lemma SlotInjective(lists: seq<seq<nat>>, t: nat, i: nat, j: nat)
    requires lists != [] && i < t && j < t
    requires var c := Cache(lists, t, i);
             c == Cache(lists, t, j) && lists[c] != [] && Split.Load(t, |lists|, 0, c) <= |lists[c]|
    requires Slot(lists, t, i) == Slot(lists, t, j)
    ensures i == j
  {
    var c := Cache(lists, t, i);
    var caches := Split.Assignment(t, |lists|, 0);
    RankBelowLoad(caches, i);
    RankBelowLoad(caches, j);
    Split.SpacingBounds(Split.Load(t, |lists|, 0, c), |lists[c]|, 0);
    assert Rank(caches, i) == Rank(caches, j);
    RankInjective(caches, i, j);
  }

  lemma OneThreadPerCore(lists: seq<seq<nat>>, t: nat)
    requires lists != [] && t >= 1 && DisjointCaches(lists)
    requires forall c :: 0 <= c < |lists| ==> Split.Load(t, |lists|, 0, c) <= |lists[c]|
    ensures Distinct(SpreadVector(lists, t))
  {
    forall i, j | 0 <= i < j < t
      ensures SpreadVector(lists, t)[i] != SpreadVector(lists, t)[j]
    {
      if SpreadEntry(lists, t, i, 0) == SpreadEntry(lists, t, j, 0) {
        SlotInjective(lists, t, i, j);
      }
    }
  }

  /** A cache given more threads than cores makes two of them share a core. */
  lemma OverloadShares(lists: seq<seq<nat>>, t: nat, c: nat) returns (i: nat, j: nat)
    requires lists != [] && t >= 1 && DisjointCaches(lists)
    requires c < |lists| && Split.Load(t, |lists|, 0, c) > |lists[c]|
    ensures i < j < t && SpreadVector(lists, t)[i] == SpreadVector(lists, t)[j]
  {
    var caches := Split.Assignment(t, |lists|, 0);
    var load := Split.Load(t, |lists|, 0, c);
    var slots := Split.Assignment(load, |lists[c]|, 0);
    Split.AssignmentShape(t, |lists|, 0);
    Split.AssignmentShape(load, |lists[c]|, 0);
    var a, b := Pigeonhole(slots, |lists[c]|);
    i := RankSurjective(caches, c, a);
    j := RankSurjective(caches, c, b);
    if j < i {
      i, j := j, i;
    }
  }

  lemma Pigeonhole(s: seq<nat>, n: nat) returns (i: nat, j: nat)
    requires |s| > n && forall k :: 0 <= k < |s| ==> s[k] < n
    ensures i < j < |s| && s[i] == s[j]
  {
    if k, l :| 0 <= k < l < |s| && s[k] == s[l] {
      return k, l;
    }
    DistinctSetSize(s);
    BelowSize(n);
    CardinalitySubset((set v | v in s), Below(n));
    assert false;
  }

  /** Spread gives every thread its own core exactly when no cache gets more threads than it has cores. */
  lemma SpreadSharesNoCore(lists: seq<seq<nat>>, t: nat)
    requires lists != [] && t >= 1 && DisjointCaches(lists)
    ensures Distinct(SpreadVector(lists, t))
       <==> forall c :: 0 <= c < |lists| ==> Split.Load(t, |lists|, 0, c) <= |lists[c]|
  {
    if c :| 0 <= c < |lists| && Split.Load(t, |lists|, 0, c) > |lists[c]| {
      var i, j := OverloadShares(lists, t, c);
    } else {
      OneThreadPerCore(lists, t);
    }
  }

  /** With m caches of c cores each, the condition is on t, m and c alone. */
  lemma SpreadSharesNoCoreUniform(lists: seq<seq<nat>>, t: nat, c: nat)
    requires lists != [] && t >= 1 && DisjointCaches(lists)
    requires forall k :: 0 <= k < |lists| ==> |lists[k]| == c
    ensures Distinct(SpreadVector(lists, t)) <==> Split.PeakLoad(t, |lists|) <= c
  {
    SpreadSharesNoCore(lists, t);
    var w := Split.PeakLoadExact(t, |lists|, 0);
  }

  /** On a power of two of caches, having enough cores for all threads is enough, and needed. */
  lemma SpreadOnPowerOfTwo(lists: seq<seq<nat>>, t: nat, c: nat, d: nat)
    requires t >= 1 && |lists| == Pow2(d) && DisjointCaches(lists)
    requires forall k :: 0 <= k < |lists| ==> |lists[k]| == c
    ensures Distinct(SpreadVector(lists, t)) <==> t <= |lists| * c
  {
    SpreadSharesNoCoreUniform(lists, t, c);
    Split.Log2Unique(Pow2(d), d);
    Split.FloorRest(t, d);
    var f, r, k := Split.Floor(t, d), Split.Rest(t, d), Pow2(d);
    assert lists[0] != [];
    Split.MultiplyOrder(k, f, c);
    Split.MultiplyOrder(k, c, f);
  }

  /** On other numbers of caches it is not enough: six threads on three caches of two cores share a core. */
  lemma SpreadOnThreeCachesShares(lists: seq<seq<nat>>)
    requires |lists| == 3 && DisjointCaches(lists)
    requires forall k :: 0 <= k < 3 ==> |lists[k]| == 2
    ensures 6 <= |lists| * 2 && !Distinct(SpreadVector(lists, 6))
  {
    assert Split.PeakLoad(6, 3) == 3;
    SpreadSharesNoCoreUniform(lists, 6, 2);
  }

  // ----- the methods -----

  /** cacheMap holds, for each value of s, the indices at which it occurs. */
  ghost predicate HoldsPositions(cacheMap: map<int, seq<nat>>, s: seq<int>) {
    forall c :: if c in cacheMap then cacheMap[c] == Positions(s, c) != [] else Positions(s, c) == []
  }

  lemma HoldsPositionsStep(cacheMap: map<int, seq<nat>>, s: seq<int>, x: int)
    requires HoldsPositions(cacheMap, s)
    ensures HoldsPositions(cacheMap[x := (if x in cacheMap then cacheMap[x] else []) + [|s|]], s + [x])
  {
    assert (s + [x])[..|s|] == s;
    assert forall c :: Positions(s + [x], c) == Positions(s, c) + if x == c then [|s|] else [];
  }

  /** The split of a whole vector; without processors, it keeps its zeros. */
  function SplitOf(threadCount: nat, processorCount: nat): (s: seq<int>)
    ensures |s| == threadCount
  {
    if threadCount == 0 then []
    else if processorCount == 0 then seq(threadCount, _ => 0)
    else Split.Assignment(threadCount, processorCount, 0)
  }

  method SplitAll(threadCount: nat, processorCount: nat) returns (procVect: array<int>)
    ensures fresh(procVect) && procVect[..] == SplitOf(threadCount, processorCount)
  {
    procVect := new int[threadCount](_ => 0);
    Split.CreateVector(procVect, 0, threadCount - 1, 0, processorCount - 1);
  }

  /** The threads of each cache, in ascending order. */
  method GetCacheAffinityMap(threadCount: nat, cacheCount: nat) returns (cacheMap: map<int, seq<nat>>)
    ensures HoldsPositions(cacheMap, SplitOf(threadCount, cacheCount))
  {
    var procVect := SplitAll(threadCount, cacheCount);
    ghost var caches := SplitOf(threadCount, cacheCount);
    cacheMap := map[];
    for thread := 0 to threadCount
      invariant procVect[..] == caches && HoldsPositions(cacheMap, caches[..thread])
    {
      var coreNum := procVect[thread];
      assert procVect[..][thread] == caches[thread];
      HoldsPositionsStep(cacheMap, caches[..thread], coreNum);
      assert caches[..thread + 1] == caches[..thread] + [coreNum];
      cacheMap := cacheMap[coreNum := (if coreNum in cacheMap then cacheMap[coreNum] else []) + [thread]];
    }
    assert caches[..threadCount] == caches;
  }

  /** Pins the listed threads to the listed cores of one cache. */
  method UpdateProcVect(procVect: array<int>, perCache: seq<int>, coreList: seq<nat>, threads: seq<nat>)
    requires |perCache| == |threads|
    requires forall k :: 0 <= k < |perCache| ==> 0 <= perCache[k] < |coreList|
    requires forall k :: 0 <= k < |threads| ==> threads[k] < procVect.Length
    requires forall j, k :: 0 <= j < k < |threads| ==> threads[j] < threads[k]
    modifies procVect
    ensures forall k :: 0 <= k < |threads| ==> procVect[threads[k]] == coreList[perCache[k]]
    ensures forall i :: 0 <= i < procVect.Length && i !in threads ==> procVect[i] == old(procVect[i])
  {
    var index := 0;
    for k := 0 to |threads|
      invariant index == k
      invariant forall j :: 0 <= j < k ==> procVect[threads[j]] == coreList[perCache[j]]
      invariant forall i :: 0 <= i < procVect.Length && i !in threads[..k] ==> procVect[i] == old(procVect[i])
    {
      var item := perCache[index];
      index := index + 1;
      procVect[threads[k]] := coreList[item];
      assert threads[..k + 1] == threads[..k] + [threads[k]];
    }
    assert threads[..|threads|] == threads;
  }

  /** now is was with the entries of the threads of caches lo .. hi - 1 decided. */
  ghost predicate Pinned(now: seq<int>, was: seq<int>, lists: seq<seq<nat>>, lo: nat, hi: nat)
    requires lists != []
  {
    |now| == |was| &&
    forall i :: 0 <= i < |now| ==>
      now[i] == if lo <= Cache(lists, |now|, i) < hi then SpreadEntry(lists, |now|, i, was[i]) else was[i]
  }

  lemma PinnedByUpdate(now: seq<int>, was: seq<int>, lists: seq<seq<nat>>, cache: nat, threads: seq<nat>)
    requires cache < |lists| && lists[cache] != [] && |now| == |was| >= 1
    requires threads == Positions(Split.Assignment(|now|, |lists|, 0), cache) != []
    requires forall k :: 0 <= k < |threads| ==> threads[k] < |now|
    requires forall k :: 0 <= k < |threads| ==>
               0 <= Split.Assignment(|threads|, |lists[cache]|, 0)[k] < |lists[cache]|
    requires forall k :: 0 <= k < |threads| ==>
               now[threads[k]] == lists[cache][Split.Assignment(|threads|, |lists[cache]|, 0)[k]]
    requires forall i :: 0 <= i < |now| && i !in threads ==> now[i] == was[i]
    ensures Pinned(now, was, lists, cache, cache + 1)
  {
    var caches := Split.Assignment(|now|, |lists|, 0);
    PositionsSorted(caches, cache);
    forall i | 0 <= i < |now|
      ensures now[i] == if Cache(lists, |now|, i) == cache then lists[cache][Slot(lists, |now|, i)] else was[i]
    {
      if caches[i] == cache {
        PositionOfRank(caches, i);
        assert now[threads[Rank(caches, i)]]
            == lists[cache][Split.Assignment(|threads|, |lists[cache]|, 0)[Rank(caches, i)]];
      } else {
        assert i !in threads;
      }
    }
  }

  /** Pins the threads of one cache. */
  method PinCache(procVect: array<int>, ghost lists: seq<seq<nat>>, cache: nat, coreList: seq<nat>, threads: seq<nat>)
    requires cache < |lists| && coreList == lists[cache] && procVect.Length >= 1
    requires threads == Positions(Split.Assignment(procVect.Length, |lists|, 0), cache) != []
    modifies procVect
    ensures Pinned(procVect[..], old(procVect[..]), lists, cache, cache + 1)
  {
    PositionsSorted(Split.Assignment(procVect.Length, |lists|, 0), cache);
    var threadCount := |threads|;
    var perCache := SplitAll(threadCount, |coreList|);
    if threadCount != 0 && |coreList| != 0 {
      ghost var was := procVect[..];
      var slots := perCache[..];
      Split.AssignmentShape(threadCount, |coreList|, 0);
      UpdateProcVect(procVect, slots, coreList, threads);
      PinnedByUpdate(procVect[..], was, lists, cache, threads);
    }
  }

  /** When every cache has cores, the result does not depend on what the vector held before. */
  lemma PinnedIsSpreadVector(now: seq<int>, was: seq<int>, lists: seq<seq<nat>>)
    requires lists != [] && Pinned(now, was, lists, 0, |lists|)
    requires forall c :: 0 <= c < |lists| ==> lists[c] != []
    ensures now == SpreadVector(lists, |now|)
  {
    forall i | 0 <= i < |now|
      ensures now[i] == SpreadEntry(lists, |now|, i, 0)
    {
      assert lists[Cache(lists, |now|, i)] != [];
    }
  }

  /** The threads of the caches without cores keep their entries. */
  ghost predicate CorelessKept(now: seq<int>, was: seq<int>, lists: seq<seq<nat>>)
    requires lists != []
  {
    |now| == |was| &&
    forall i :: 0 <= i < |now| ==>
      var c := Split.Assignment(|now|, |lists|, 0)[i];
      0 <= c < |lists| && (lists[c] == [] ==> now[i] == was[i])
  }

  /** The threads of a cache, in ascending order, are split over the cores of the cache. */
  ghost predicate CoresSplit(now: seq<int>, lists: seq<seq<nat>>, c: nat)
    requires c < |lists| && now != []
  {
    var threads := Positions(Split.Assignment(|now|, |lists|, 0), c);
    threads != [] && lists[c] != [] ==>
      forall k :: 0 <= k < |threads| ==>
        var slot := Split.Assignment(|threads|, |lists[c]|, 0)[k];
        threads[k] < |now| && 0 <= slot < |lists[c]| && now[threads[k]] == lists[c][slot]
  }

  lemma PinnedKeepsCoreless(now: seq<int>, was: seq<int>, lists: seq<seq<nat>>)
    requires lists != [] && Pinned(now, was, lists, 0, |lists|)
    ensures CorelessKept(now, was, lists)
  {
    if now != [] { Split.AssignmentShape(|now|, |lists|, 0); }
    forall i | 0 <= i < |now|
      ensures lists[Cache(lists, |now|, i)] == [] ==> now[i] == was[i]
    {
    }
  }

  lemma PinnedSplitsCores(now: seq<int>, was: seq<int>, lists: seq<seq<nat>>, c: nat)
    requires c < |lists| && now != [] && Pinned(now, was, lists, 0, |lists|)
    ensures CoresSplit(now, lists, c)
  {
    var caches := Split.Assignment(|now|, |lists|, 0);
    var threads := Positions(caches, c);
    PositionsSorted(caches, c);
    if threads != [] && lists[c] != [] {
      Split.AssignmentShape(|threads|, |lists[c]|, 0);
      forall k | 0 <= k < |threads|
        ensures now[threads[k]] == lists[c][Split.Assignment(|threads|, |lists[c]|, 0)[k]]
      {
        PositionOfRank(caches, threads[k]);
        assert Rank(caches, threads[k]) == k;
        assert Cache(lists, |now|, threads[k]) == c;
      }
    }
  }

  lemma PinnedExtend(now: seq<int>, mid: seq<int>, was: seq<int>, lists: seq<seq<nat>>, cache: nat)
    requires lists != [] && Pinned(mid, was, lists, 0, cache) && Pinned(now, mid, lists, cache, cache + 1)
    ensures Pinned(now, was, lists, 0, cache + 1)
  {
  }

  lemma PinnedNone(s: seq<int>, lists: seq<seq<nat>>, cache: nat)
    requires lists != [] && (s != [] ==> Positions(Split.Assignment(|s|, |lists|, 0), cache) == [])
    ensures Pinned(s, s, lists, cache, cache + 1)
  {
    if s != [] {
      forall i | 0 <= i < |s|
        ensures Cache(lists, |s|, i) != cache
      {
        PositionOfRank(Split.Assignment(|s|, |lists|, 0), i);
      }
    }
  }
}
