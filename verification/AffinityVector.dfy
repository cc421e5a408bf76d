// The pinning strategies over a fixed topology.
module Affinity {
  import opened CoreLists
  import Split
  import Spread
  import opened CoreStrategy

  datatype Topology = Topology(
    activeProcessors: nat,
    processorMap: seq<seq<CoreMask>>,
    cacheMap: seq<seq<CoreMask>>,
    groupMap: seq<CoreMask>)
  {
    ghost predicate CachesKnown() {
      forall c :: 0 <= c < |cacheMap| ==> GroupsKnown(cacheMap[c], groupMap)
    }

    ghost predicate CoresWellFormed() {
      forall c :: 0 <= c < |processorMap| ==> WellFormedCore(processorMap[c], groupMap)
    }
  }

  class AffinityVector {
    const cpuInfo: Topology

    constructor (info: Topology)
      ensures cpuInfo == info
    {
      cpuInfo := info;
    }

    /** The spread strategy: entry i is decided by the number of threads and the cache lists alone. */
    method GetSpreadAffinityVector(procVect: array<int>)
      requires cpuInfo.CachesKnown()
      modifies procVect
      ensures cpuInfo.cacheMap == [] ==> procVect[..] == old(procVect[..])
      ensures cpuInfo.cacheMap != [] ==>
                var lists := Lists(cpuInfo.cacheMap, cpuInfo.groupMap);
                && Spread.Pinned(procVect[..], old(procVect[..]), lists, 0, |lists|)
                && Spread.CorelessKept(procVect[..], old(procVect[..]), lists)
                && forall c :: 0 <= c < |lists| && procVect.Length > 0 ==> Spread.CoresSplit(procVect[..], lists, c)
      ensures (forall c :: 0 <= c < |cpuInfo.cacheMap| ==> cpuInfo.cacheMap[c] == []) ==>
                procVect[..] == old(procVect[..])
    {
      var cacheMap := Spread.GetCacheAffinityMap(procVect.Length, |cpuInfo.cacheMap|);
      ghost var lists := Lists(cpuInfo.cacheMap, cpuInfo.groupMap);
      // the keys of cacheMap in ascending order
      for cache := 0 to Split.Max(1, |cpuInfo.cacheMap|)
        invariant lists == [] ==> procVect[..] == old(procVect[..])
        invariant lists != [] ==> Spread.Pinned(procVect[..], old(procVect[..]), lists, 0, cache)
      {
        ghost var before := procVect[..];
        if cache in cacheMap {
          if |cpuInfo.cacheMap| != 0 {
            var coreList := CoreMapToCoreList(cpuInfo.cacheMap[cache], cpuInfo.groupMap);
            Spread.PinCache(procVect, lists, cache, coreList, cacheMap[cache]);
          }
        } else if lists != [] {
          Spread.PinnedNone(procVect[..], lists, cache);
        }
        if lists != [] {
          Spread.PinnedExtend(procVect[..], before, old(procVect[..]), lists, cache);
        }
      }
      if lists != [] { SpreadMeaning(procVect[..], old(procVect[..])); }
    }

    /** Caches without cores keep their entries, and the others split theirs. */
    lemma SpreadMeaning(now: seq<int>, was: seq<int>)
      requires cpuInfo.CachesKnown() && cpuInfo.cacheMap != []
      requires var lists := Lists(cpuInfo.cacheMap, cpuInfo.groupMap); Spread.Pinned(now, was, lists, 0, |lists|)
      ensures var lists := Lists(cpuInfo.cacheMap, cpuInfo.groupMap);
              && Spread.CorelessKept(now, was, lists)
              && forall c :: 0 <= c < |lists| && now != [] ==> Spread.CoresSplit(now, lists, c)
      ensures (forall c :: 0 <= c < |cpuInfo.cacheMap| ==> cpuInfo.cacheMap[c] == []) ==> now == was
    {
      var lists := Lists(cpuInfo.cacheMap, cpuInfo.groupMap);
      Spread.PinnedKeepsCoreless(now, was, lists);
      forall c | 0 <= c < |lists| && now != []
        ensures Spread.CoresSplit(now, lists, c)
      {
        Spread.PinnedSplitsCores(now, was, lists, c);
      }
    }

    /** True iff every mask of every core is empty. */
    static predicate IsReset(processorMap: seq<seq<CoreMask>>) {
      forall c :: 0 <= c < |processorMap| ==>
        forall i :: 0 <= i < |processorMap[c]| ==> processorMap[c][i].mask == 0
    }

    /** The cursor of core c, in the middle of round r, when the cores below core have had their turn. */
    ghost predicate CoreAt(pMap: seq<CoreMask>, maskIndex: seq<nat>, c: nat, core: nat, r: nat)
      requires |pMap| == |maskIndex| == |cpuInfo.processorMap| && c < |pMap|
    {
      CursorAt(pMap[c], maskIndex[c], cpuInfo.processorMap[c], cpuInfo.groupMap, if c < core then r + 1 else r)
    }

    ghost predicate CursorsAt(pMap: seq<CoreMask>, maskIndex: seq<nat>, core: nat, r: nat) {
      |pMap| == |maskIndex| == |cpuInfo.processorMap| &&
      forall c :: 0 <= c < |pMap| ==> CoreAt(pMap, maskIndex, c, core, r)
    }

    /** The turn of one core within a round. */
    method AdvanceCore(pMap: seq<CoreMask>, maskIndex: seq<nat>, core: nat, ghost lists: seq<seq<nat>>, ghost r: nat)
        returns (pMap': seq<CoreMask>, maskIndex': seq<nat>, out: seq<nat>)
      requires cpuInfo.CoresWellFormed() && lists == Lists(cpuInfo.processorMap, cpuInfo.groupMap)
      requires core < |lists| && CursorsAt(pMap, maskIndex, core, r)
      ensures CursorsAt(pMap', maskIndex', core + 1, r)
      ensures var j := Turn(|lists[core]|, r); out == if j < |lists[core]| then [lists[core][j]] else []
    {
      assert CoreAt(pMap, maskIndex, core, core, r);
      var mask, index;
      mask, index, out := TakeTurn(pMap[core], maskIndex[core], cpuInfo.processorMap[core], cpuInfo.groupMap, r);
      pMap', maskIndex' := pMap[core := mask], maskIndex[core := index];
      ghost var next := core + 1;
      forall c | 0 <= c < |pMap|
        ensures CoreAt(pMap', maskIndex', c, next, r)
      {
        assert CoreAt(pMap, maskIndex, c, core, r);
      }
    }

    lemma CursorsRound(pMap: seq<CoreMask>, maskIndex: seq<nat>, r: nat)
      requires CursorsAt(pMap, maskIndex, |cpuInfo.processorMap|, r)
      ensures CursorsAt(pMap, maskIndex, 0, r + 1)
    {
      var none, next := 0, r + 1;
      forall c | 0 <= c < |pMap|
        ensures CoreAt(pMap, maskIndex, c, none, next)
      {
        assert CoreAt(pMap, maskIndex, c, |cpuInfo.processorMap|, r);
      }
    }

    /** What the turn of one core adds to the pins. */
    static lemma PinsStep(pins: seq<nat>, out: seq<nat>, before: seq<nat>, lists: seq<seq<nat>>, r: nat, core: nat)
      requires core < |lists| && pins == Extended(lists, before, r, core)
      requires var j := Turn(|lists[core]|, r); out == if j < |lists[core]| then [lists[core][j]] else []
      ensures pins + out == Extended(lists, before, r, core + 1)
      ensures |pins + out| == if out == [] then |pins| else |pins| + 1
    {
    }

    /** Pins one thread to the next CPU of a core, unless the core sits out. */
    method PinNext(procVect: seq<nat>, pMap: seq<CoreMask>, maskIndex: seq<nat>, core: nat,
                   ghost lists: seq<seq<nat>>, ghost r: nat, ghost before: seq<nat>)
        returns (procVect': seq<nat>, pMap': seq<CoreMask>, maskIndex': seq<nat>, pinned: bool)
      requires cpuInfo.CoresWellFormed() && lists == Lists(cpuInfo.processorMap, cpuInfo.groupMap)
      requires core < |lists| && CursorsAt(pMap, maskIndex, core, r)
      requires procVect == Extended(lists, before, r, core)
      ensures CursorsAt(pMap', maskIndex', core + 1, r)
      ensures procVect' == Extended(lists, before, r, core + 1)
      ensures |procVect'| == if pinned then |procVect| + 1 else |procVect|
    {
      var out;
      pMap', maskIndex', out := AdvanceCore(pMap, maskIndex, core, lists, r);
      PinsStep(procVect, out, before, lists, r, core);
      procVect' := procVect + out;
      pinned := out != [];
    }

    /** One round over the cores, cut short after core c - 1 when the last thread is pinned. */
    method UpdateProcVect(procVect: seq<nat>, pMap: seq<CoreMask>, maskIndex: seq<nat>, threadCount: nat, threadId: nat,
                          ghost lists: seq<seq<nat>>, ghost r: nat)
        returns (procVect': seq<nat>, pMap': seq<CoreMask>, maskIndex': seq<nat>, threadId': nat, ghost c: nat)
      requires cpuInfo.CoresWellFormed() && lists == Lists(cpuInfo.processorMap, cpuInfo.groupMap)
      requires CursorsAt(pMap, maskIndex, 0, r)
      requires threadId == |procVect| < threadCount
      ensures threadId' == |procVect'| <= threadCount
      ensures c <= |lists| && procVect' == Extended(lists, procVect, r, c)
      ensures threadId' < threadCount ==> c == |lists| && CursorsAt(pMap', maskIndex', 0, r + 1)
    {
      procVect', pMap', maskIndex', threadId' := procVect, pMap, maskIndex, threadId;
      for coreId := 0 to |cpuInfo.processorMap|
        invariant CursorsAt(pMap', maskIndex', coreId, r)
        invariant procVect' == Extended(lists, procVect, r, coreId)
        invariant threadId' == |procVect'| < threadCount
      {
        var pinned;
        procVect', pMap', maskIndex', pinned := PinNext(procVect', pMap', maskIndex', coreId, lists, r, procVect);
        if !pinned {
          continue;
        }
        threadId' := threadId' + 1;
        if threadId' == threadCount {
          c := coreId + 1;
          return;
        }
      }
      c := |lists|;
      CursorsRound(pMap', maskIndex', r);
    }

    /** The core strategy: the CPUs of the first t pins of the round-robin schedule. */
    method GetCoreAffinityVector(procVect: seq<int>) returns (procVect': seq<nat>)
      requires cpuInfo.CoresWellFormed()
      requires procVect != [] ==> cpuInfo.processorMap != []
      ensures procVect == [] ==> procVect' == []
      ensures procVect != [] ==>
                var lists := Lists(cpuInfo.processorMap, cpuInfo.groupMap);
                Populated(lists) && procVect' == Cpus(Schedule(lists, |procVect|))
    {
      var processorMap := cpuInfo.processorMap;
      var threadCount := |procVect|;
      var threadId := 0;
      var maskIndex: seq<nat> := seq(|processorMap|, _ => 1);
      var pMap := seq(|processorMap|, c requires 0 <= c < |processorMap| => processorMap[c][0]);
      ghost var lists := Lists(cpuInfo.processorMap, cpuInfo.groupMap);
      ghost var r, c := 0, 0;
      procVect' := [];
      if threadCount > 0 { FirstCursors(pMap, maskIndex, lists); }
      while threadId < threadCount
        invariant threadId == |procVect'| <= threadCount
        invariant procVect' <= Cpus(Rounds(lists, r))
        invariant threadId < threadCount ==> CursorsAt(pMap, maskIndex, 0, r) && procVect' == Cpus(Rounds(lists, r))
        decreases threadCount - threadId, if Round(lists, r) == [] then 1 else 0
      {
        if IsReset(processorMap) {
          processorMap := cpuInfo.processorMap;
        }
        ghost var before := procVect';
        procVect', pMap, maskIndex, threadId, c :=
          UpdateProcVect(procVect', pMap, maskIndex, threadCount, threadId, lists, r);
        EmptyRoundThenFull(lists, r);
        EmptyExtension(lists, before, r);
        CutRound(lists, r, c, before);
        r := r + 1;
      }
      if threadCount > 0 { ScheduledCpus(lists, threadCount, r, procVect'); }
    }

    lemma FirstCursors(pMap: seq<CoreMask>, maskIndex: seq<nat>, lists: seq<seq<nat>>)
      requires cpuInfo.CoresWellFormed() && cpuInfo.processorMap != []
      requires lists == Lists(cpuInfo.processorMap, cpuInfo.groupMap)
      requires |pMap| == |maskIndex| == |cpuInfo.processorMap|
      requires forall c :: 0 <= c < |pMap| ==> pMap[c] == cpuInfo.processorMap[c][0] && maskIndex[c] == 1
      ensures Populated(lists) && CursorsAt(pMap, maskIndex, 0, 0)
    {
      forall c | 0 <= c < |lists|
        ensures lists[c] != []
        ensures CoreAt(pMap, maskIndex, c, 0, 0)
      {
        CoreListNonEmpty(cpuInfo.processorMap[c], cpuInfo.groupMap);
      }
    }
  }
}
