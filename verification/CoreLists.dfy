// Affinity masks per processor group, and the numbering of logical CPUs they denote.
module CoreLists {
  import opened Bits

  /** A 64-bit affinity mask and the group it belongs to; in a group map, the second part is the CPU count. */
  datatype CoreMask = CoreMask(mask: Word, second: nat)

  /** Calls the first CPU of the given group by this number. */
  function Offset(groupMap: seq<CoreMask>, group: nat): nat
    requires group <= |groupMap|
  {
    if group == 0 then 0 else Offset(groupMap, group - 1) + groupMap[group - 1].second
  }

  ghost predicate GroupsKnown(masks: seq<CoreMask>, groupMap: seq<CoreMask>) {
    forall i :: 0 <= i < |masks| ==> masks[i].second <= |groupMap|
  }

  /** The CPU numbers a list of masks denotes, mask by mask and ascending within a mask. */
  function CoreList(masks: seq<CoreMask>, groupMap: seq<CoreMask>): seq<nat>
    requires GroupsKnown(masks, groupMap)
  {
    if masks == [] then []
    else Ones(masks[0].mask, Offset(groupMap, masks[0].second)) + CoreList(masks[1..], groupMap)
  }

  /** The CPU numbers of every core, or of every cache. */
  function Lists(maps: seq<seq<CoreMask>>, groupMap: seq<CoreMask>): (lists: seq<seq<nat>>)
    requires forall c :: 0 <= c < |maps| ==> GroupsKnown(maps[c], groupMap)
    ensures |lists| == |maps|
  {
    seq(|maps|, c requires 0 <= c < |maps| => CoreList(maps[c], groupMap))
  }

  /** The lowest CPU of a mask, found as log2(x & -1 * x) in 64-bit arithmetic. */
  function CoreNum(pMap: CoreMask): (core: nat)
    requires pMap.mask > 0
    ensures core < 64 && Bit(pMap.mask, core)
    ensures forall k: nat :: k < core ==> !Bit(pMap.mask, k)
  {
    Pow2Values();
    LowestBitIsolated(pMap.mask, 64);
    Log2OfPow2(Lowest(pMap.mask));
    LowestIsFirst(pMap.mask);
    BitBound(pMap.mask, 64, Lowest(pMap.mask));
    Log2(And(pMap.mask, Negate(pMap.mask, 64)))
  }

  /** Clears the bit of one CPU. */
  function UpdateMap(pMap: CoreMask, coreId: nat): (r: CoreMask)
    requires coreId < 64
    ensures r.second == pMap.second
    ensures forall k: nat :: Bit(r.mask, k) <==> Bit(pMap.mask, k) && k != coreId
  {
    Pow2Values();
    Pow2Monotone(coreId + 1, 64);
    var c := Complement(Pow2(coreId), 64);
    assert
      And(pMap.mask, c) < Pow2(64) &&
      forall k: nat :: Bit(And(pMap.mask, c), k) <==> Bit(pMap.mask, k) && k != coreId
    by {
      forall k: nat
        ensures Bit(And(pMap.mask, c), k) <==> Bit(pMap.mask, k) && k != coreId
      {
        BitAnd(pMap.mask, c, k);
        BitComplement(Pow2(coreId), 64, k);
        BitOfPow2(coreId, k);
        if Bit(pMap.mask, k) { BitBound(pMap.mask, 64, k); }
      }
      forall k: nat | Bit(And(pMap.mask, c), k)
        ensures k < 64
      {
        BitBound(pMap.mask, 64, k);
      }
      BoundFromBits(And(pMap.mask, c), 64);
    }
    pMap.(mask := And(pMap.mask, c))
  }

  /** One step of the enumeration: take the lowest CPU and clear its bit. */
  lemma TakeLowest(pMap: CoreMask, base: nat)
    requires pMap.mask > 0
    ensures var core := CoreNum(pMap);
            && UpdateMap(pMap, core).mask < pMap.mask
            && Ones(pMap.mask, base) == [base + core] + Ones(UpdateMap(pMap, core).mask, base)
  {
    Pow2Values();
    LowestBitIsolated(pMap.mask, 64);
    Log2OfPow2(Lowest(pMap.mask));
    ClearLowest(pMap.mask, 64, base);
  }

  lemma {:induction false} CoreListConcat(a: seq<CoreMask>, b: seq<CoreMask>, groupMap: seq<CoreMask>)
    requires GroupsKnown(a, groupMap) && GroupsKnown(b, groupMap)
    ensures GroupsKnown(a + b, groupMap)
    ensures CoreList(a + b, groupMap) == CoreList(a, groupMap) + CoreList(b, groupMap)
  {
    if a == [] {
      assert a + b == b;
    } else {
      assert (a + b)[0] == a[0] && (a + b)[1..] == a[1..] + b;
      CoreListConcat(a[1..], b, groupMap);
      var first := Ones(a[0].mask, Offset(groupMap, a[0].second));
      assert CoreList(a + b, groupMap) == first + (CoreList(a[1..], groupMap) + CoreList(b, groupMap));
    }
  }

  lemma CoreListNonEmpty(masks: seq<CoreMask>, groupMap: seq<CoreMask>)
    requires GroupsKnown(masks, groupMap) && masks != [] && masks[0].mask > 0
    ensures CoreList(masks, groupMap) != []
  {
    TakeLowest(masks[0], Offset(groupMap, masks[0].second));
  }

  method CalculateOffset(group: nat, groupMap: seq<CoreMask>) returns (offset: nat)
    requires group <= |groupMap|
    ensures offset == Offset(groupMap, group)
  {
    offset := 0;
    if group > 0 {
      for i := 0 to group
        invariant offset == Offset(groupMap, i)
      {
        offset := offset + groupMap[i].second;
      }
    }
  }

  lemma CoreListSnoc(masks: seq<CoreMask>, i: nat, groupMap: seq<CoreMask>)
    requires GroupsKnown(masks, groupMap) && i < |masks|
    ensures CoreList(masks[..i + 1], groupMap)
         == CoreList(masks[..i], groupMap) + Ones(masks[i].mask, Offset(groupMap, masks[i].second))
  {
    CoreListConcat(masks[..i], [masks[i]], groupMap);
    assert masks[..i + 1] == masks[..i] + [masks[i]];
    assert CoreList([], groupMap) == [];
    assert CoreList([masks[i]], groupMap) == Ones(masks[i].mask, Offset(groupMap, masks[i].second)) + [];
  }

  method CoreMapToCoreList(processorMap: seq<CoreMask>, groupMap: seq<CoreMask>) returns (coreList: seq<nat>)
    requires GroupsKnown(processorMap, groupMap)
    ensures coreList == CoreList(processorMap, groupMap)
  {
    coreList := [];
    for i := 0 to |processorMap|
      invariant coreList == CoreList(processorMap[..i], groupMap)
    {
      var pMap := processorMap[i];
      ghost var base := Offset(groupMap, pMap.second);
      ghost var goal := coreList + Ones(pMap.mask, base);
      while pMap.mask > 0
        invariant pMap.second == processorMap[i].second
        invariant coreList + Ones(pMap.mask, base) == goal
        decreases pMap.mask
      {
        TakeLowest(pMap, base);
        var offset := CalculateOffset(pMap.second, groupMap);
        ghost var rest := Ones(UpdateMap(pMap, CoreNum(pMap)).mask, base);
        assert coreList + ([base + CoreNum(pMap)] + rest) == coreList + [base + CoreNum(pMap)] + rest;
        coreList := coreList + [CoreNum(pMap) + offset];
        pMap := UpdateMap(pMap, CoreNum(pMap));
      }
      assert coreList == goal;
      CoreListSnoc(processorMap, i, groupMap);
    }
    assert processorMap[..|processorMap|] == processorMap;
  }

  // ----- decoding a CPU number into group and bit -----

  /** The group and in-group bit of a CPU number, found by walking the group counts. */
  method DecodeProcessor(n: nat, groupMap: seq<CoreMask>) returns (group: nat, bit: nat)
    ensures group <= |groupMap| && n == Offset(groupMap, group) + bit
    ensures group < |groupMap| ==> bit < groupMap[group].second
  {
    var core := 0;
    group := 0;
    for i := 0 to |groupMap|
      invariant group == i && core == Offset(groupMap, group) && core <= n
    {
      if n > core + groupMap[i].second - 1 {
        core := core + groupMap[i].second;
        group := group + 1;
      } else {
        break;
      }
    }
    bit := n - core;
  }

  lemma {:induction false} OffsetMonotone(groupMap: seq<CoreMask>, g: nat, h: nat)
    requires g <= h <= |groupMap|
    ensures Offset(groupMap, g) <= Offset(groupMap, h)
  {
    if g < h { OffsetMonotone(groupMap, g, h - 1); }
  }

  /** Group and bit are determined by the CPU number, so decoding undoes offset plus bit. */
  lemma DecodingIsUnique(groupMap: seq<CoreMask>, g: nat, b: nat, g': nat, b': nat)
    requires g < |groupMap| && b < groupMap[g].second
    requires g' <= |groupMap| && (g' < |groupMap| ==> b' < groupMap[g'].second)
    requires Offset(groupMap, g) + b == Offset(groupMap, g') + b'
    ensures g == g' && b == b'
  {
    if g < g' {
      OffsetMonotone(groupMap, g + 1, g');
    } else if g' < g {
      OffsetMonotone(groupMap, g' + 1, g);
    }
  }
}
