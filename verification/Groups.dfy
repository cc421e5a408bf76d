// The group map: which CPUs each group of 32 holds, and how many.
module Groups {
  import opened Bits
  import opened CoreLists

  function Flatten(maps: seq<seq<CoreMask>>): seq<CoreMask> {
    if maps == [] then [] else Flatten(maps[..|maps| - 1]) + maps[|maps| - 1]
  }

  /** Or-ing a mask into a group entry and counting its low 32 bits. */
  function AddMask(entry: CoreMask, mask: Word): (r: CoreMask) {
    Pow2Values();
    OrWithin(entry.mask, mask, 64);
    CoreMask(Or(entry.mask, mask), entry.second + Popcount(mask % TWO_TO_THE_32))
  }

  /** What a list of masks adds up to in group g. */
  function Entry(masks: seq<CoreMask>, g: nat): CoreMask {
    if masks == [] then CoreMask(0, 0)
    else
      var last := masks[|masks| - 1];
      var entry := Entry(masks[..|masks| - 1], g);
      if last.second == g then AddMask(entry, last.mask) else entry
  }

  /** The CPUs named by a list of masks, counted mask by mask. */
  function TotalCount(masks: seq<CoreMask>): nat {
    if masks == [] then 0
    else TotalCount(masks[..|masks| - 1]) + Popcount(masks[|masks| - 1].mask % TWO_TO_THE_32)
  }

  ghost predicate GroupsBelow(masks: seq<CoreMask>, n: nat) {
    forall i :: 0 <= i < |masks| ==> masks[i].second < n
  }

  ghost predicate Tabulates(groupMap: seq<CoreMask>, masks: seq<CoreMask>) {
    forall g :: 0 <= g < |groupMap| ==> groupMap[g] == Entry(masks, g)
  }

  lemma TabulatesStep(groupMap: seq<CoreMask>, masks: seq<CoreMask>, m: CoreMask)
    requires Tabulates(groupMap, masks) && m.second < |groupMap|
    ensures Tabulates(groupMap[m.second := AddMask(groupMap[m.second], m.mask)], masks + [m])
  {
    assert (masks + [m])[..|masks|] == masks;
    assert forall g: nat ::
        Entry(masks + [m], g) == if m.second == g then AddMask(Entry(masks, g), m.mask) else Entry(masks, g);
  }

  lemma FlattenStep(maps: seq<seq<CoreMask>>, c: nat, i: nat)
    requires c < |maps| && i < |maps[c]|
    ensures Flatten(maps[..c]) + maps[c][..i + 1] == Flatten(maps[..c]) + maps[c][..i] + [maps[c][i]]
  {
  }

  lemma FlattenRow(maps: seq<seq<CoreMask>>, c: nat)
    requires c < |maps|
    ensures Flatten(maps[..c + 1]) == Flatten(maps[..c]) + maps[c]
  {
    assert maps[..c + 1][..c] == maps[..c];
  }

  /** Tabulates the masks of all cores over n groups; out of bounds when a mask names another group. */
  method Accumulate(processorMap: seq<seq<CoreMask>>, n: nat) returns (groupMap: seq<CoreMask>, inBounds: bool)
    ensures inBounds <==> forall c :: 0 <= c < |processorMap| ==> GroupsBelow(processorMap[c], n)
    ensures inBounds ==> |groupMap| == n && Tabulates(groupMap, Flatten(processorMap))
  {
    groupMap := seq(n, _ => CoreMask(0, 0));
    for cpuId := 0 to |processorMap|
      invariant |groupMap| == n && Tabulates(groupMap, Flatten(processorMap[..cpuId]))
      invariant forall c :: 0 <= c < cpuId ==> GroupsBelow(processorMap[c], n)
    {
      var masks := processorMap[cpuId];
      assert Flatten(processorMap[..cpuId]) + masks[..0] == Flatten(processorMap[..cpuId]);
      for i := 0 to |masks|
        invariant |groupMap| == n && Tabulates(groupMap, Flatten(processorMap[..cpuId]) + masks[..i])
        invariant forall k :: 0 <= k < i ==> masks[k].second < n
      {
        var groupIndex := masks[i].second;
        if groupIndex >= n {
          assert !GroupsBelow(processorMap[cpuId], n);
          return groupMap, false;
        }
        TabulatesStep(groupMap, Flatten(processorMap[..cpuId]) + masks[..i], masks[i]);
        FlattenStep(processorMap, cpuId, i);
        groupMap := groupMap[groupIndex := AddMask(groupMap[groupIndex], masks[i].mask)];
      }
      FlattenRow(processorMap, cpuId);
      assert masks[..|masks|] == masks;
    }
    assert processorMap[..|processorMap|] == processorMap;
    inBounds := true;
  }

  /** Drops the empty groups at the end; nothing is left when the original looks for a last group in vain. */
  method PopEmpty(groupMap: seq<CoreMask>) returns (trimmed: seq<CoreMask>)
    ensures trimmed == [] <==> forall g :: 0 <= g < |groupMap| ==> groupMap[g].mask == 0
    ensures |trimmed| <= |groupMap| && trimmed == groupMap[..|trimmed|]
    ensures trimmed != [] ==> trimmed[|trimmed| - 1].mask != 0
    ensures forall g :: |trimmed| <= g < |groupMap| ==> groupMap[g].mask == 0
  {
    trimmed := groupMap;
    while trimmed != [] && trimmed[|trimmed| - 1].mask == 0
      invariant |trimmed| <= |groupMap| && trimmed == groupMap[..|trimmed|]
      invariant forall g :: |trimmed| <= g < |groupMap| ==> groupMap[g].mask == 0
      decreases |trimmed|
    {
      trimmed := trimmed[..|trimmed| - 1];
    }
    assert trimmed != [] ==> groupMap[|trimmed| - 1].mask != 0;
  }

  // ----- counts -----

  lemma {:induction false} OffsetOfZeros(groupMap: seq<CoreMask>, n: nat)
    requires n <= |groupMap| && forall g :: 0 <= g < n ==> groupMap[g].second == 0
    ensures Offset(groupMap, n) == 0
  {
    if n > 0 { OffsetOfZeros(groupMap, n - 1); }
  }

  lemma {:induction false} OffsetAfterUpdate(groupMap: seq<CoreMask>, g: nat, e: CoreMask, n: nat)
    requires g < |groupMap| && n <= |groupMap|
    ensures Offset(groupMap[g := e], n) == Offset(groupMap, n) + if g < n then e.second - groupMap[g].second else 0
  {
    if n > 0 { OffsetAfterUpdate(groupMap, g, e, n - 1); }
  }

  function Table(masks: seq<CoreMask>, n: nat): (groupMap: seq<CoreMask>)
    ensures |groupMap| == n && Tabulates(groupMap, masks)
  {
    seq(n, g requires 0 <= g < n => Entry(masks, g))
  }

  /** The counts of all groups sum to the number of CPUs named by the masks. */
  lemma {:induction false} CountsSum(masks: seq<CoreMask>, n: nat)
    requires GroupsBelow(masks, n)
    ensures Offset(Table(masks, n), n) == TotalCount(masks)
  {
    if masks == [] {
      OffsetOfZeros(Table(masks, n), n);
    } else {
      var front, last := masks[..|masks| - 1], masks[|masks| - 1];
      assert masks == front + [last];
      CountsSum(front, n);
      var before := Table(front, n);
      TabulatesStep(before, front, last);
      assert Table(masks, n) == before[last.second := AddMask(before[last.second], last.mask)];
      OffsetAfterUpdate(before, last.second, AddMask(before[last.second], last.mask), n);
    }
  }

  /** Sibling masks of one group share no CPU, and fit the group. */
  ghost predicate DisjointMasks(masks: seq<CoreMask>) {
    && (forall i :: 0 <= i < |masks| ==> masks[i].mask < TWO_TO_THE_32)
    && (forall i, j :: 0 <= i < j < |masks| && masks[i].second == masks[j].second
                       ==> DisjointBits(masks[i].mask, masks[j].mask))
  }

  lemma {:induction false} EntryBits(masks: seq<CoreMask>, g: nat, k: nat)
    ensures Bit(Entry(masks, g).mask, k)
       <==> exists i :: 0 <= i < |masks| && masks[i].second == g && Bit(masks[i].mask, k)
  {
    if masks == [] {
      BitOfZero(k);
    } else {
      var front, last := masks[..|masks| - 1], masks[|masks| - 1];
      EntryBits(front, g, k);
      BitOr(Entry(front, g).mask, last.mask, k);
      assert forall i :: 0 <= i < |front| ==> front[i] == masks[i];
      if i :| 0 <= i < |masks| && masks[i].second == g && Bit(masks[i].mask, k) {
        assert i < |front| ==> front[i].second == g && Bit(front[i].mask, k);
      }
    }
  }

  /** A group's count is the number of CPUs in its mask. */
  lemma {:induction false} EntryCount(masks: seq<CoreMask>, g: nat)
    requires DisjointMasks(masks)
    ensures Entry(masks, g).second == Popcount(Entry(masks, g).mask)
  {
    if masks != [] {
      var front, last := masks[..|masks| - 1], masks[|masks| - 1];
      EntryCount(front, g);
      if last.second == g {
        assert Entry(masks, g) == AddMask(Entry(front, g), last.mask) && last.mask % TWO_TO_THE_32 == last.mask;
        LastDisjoint(masks);
        PopcountDisjointOr(Entry(front, g).mask, last.mask);
      }
    }
  }

  /** The last mask shares no CPU with what its group has so far. */
  lemma LastDisjoint(masks: seq<CoreMask>)
    requires DisjointMasks(masks) && masks != []
    ensures var front, last := masks[..|masks| - 1], masks[|masks| - 1];
            DisjointBits(Entry(front, last.second).mask, last.mask)
  {
    var front, last := masks[..|masks| - 1], masks[|masks| - 1];
    forall k: nat
      ensures !(Bit(Entry(front, last.second).mask, k) && Bit(last.mask, k))
    {
      EntryBits(front, last.second, k);
      if i :| 0 <= i < |front| && front[i].second == last.second && Bit(front[i].mask, k) {
        assert DisjointBits(masks[i].mask, masks[|masks| - 1].mask);
      }
    }
  }

  /** Dropping empty groups at the end changes no offset, and no count is lost. */
  lemma TrimmingKeepsOffsets(groupMap: seq<CoreMask>, n: nat, masks: seq<CoreMask>)
    requires Tabulates(groupMap, masks) && DisjointMasks(masks) && n <= |groupMap|
    requires forall g :: n <= g < |groupMap| ==> groupMap[g].mask == 0
    ensures forall g :: 0 <= g <= n ==> Offset(groupMap[..n], g) == Offset(groupMap, g)
    ensures Offset(groupMap[..n], n) == Offset(groupMap, |groupMap|)
  {
    forall g | n <= g < |groupMap|
      ensures groupMap[g].second == 0
    {
      EntryCount(masks, g);
    }
    forall g | 0 <= g <= n
      ensures Offset(groupMap[..n], g) == Offset(groupMap, g)
    {
      OffsetOfPrefix(groupMap, n, g);
    }
    OffsetPastZeros(groupMap, n, |groupMap|);
  }

  lemma {:induction false} OffsetOfPrefix(groupMap: seq<CoreMask>, n: nat, g: nat)
    requires g <= n <= |groupMap|
    ensures Offset(groupMap[..n], g) == Offset(groupMap, g)
  {
    if g > 0 { OffsetOfPrefix(groupMap, n, g - 1); }
  }

  lemma {:induction false} OffsetPastZeros(groupMap: seq<CoreMask>, n: nat, m: nat)
    requires n <= m <= |groupMap| && forall g :: n <= g < m ==> groupMap[g].second == 0
    ensures Offset(groupMap, m) == Offset(groupMap, n)
  {
    if n < m { OffsetPastZeros(groupMap, n, m - 1); }
  }
}
