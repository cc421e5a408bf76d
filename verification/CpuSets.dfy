// The topology in terms of CPU ids: from the digits of the lines to the lists of the strategies.
module CpuSets {
  import opened Bits
  import opened CoreLists
  import opened Text
  import opened MaskLine
  import opened Groups
  import opened Dedup
  import opened Affinity
  import opened CpuNumbering
  import opened CpuTopology
  import CoreStrategy

  // ----- the masks of the lines -----

  /** The lines are made of these groups of one to eight digits. */
  ghost predicate SpelledBy(lines: seq<string>, groups: seq<seq<string>>) {
    |lines| == |groups| && forall i :: 0 <= i < |lines| ==> WellFormed(groups[i]) && lines[i] == Join(groups[i], ",")
  }

  /** The non-zero groups with their positions, the lowest first. */
  function GroupMasks(groups: seq<string>): MaskList
    requires WellFormed(groups)
  {
    LineOfGroups(groups);
    MasksOf(GroupValues(groups), 0)
  }

  ghost predicate OfSomeLine(masks: MaskList, groups: seq<seq<string>>) {
    exists i :: 0 <= i < |groups| && WellFormed(groups[i]) && masks == GroupMasks(groups[i])
  }

  /** The lists are the non-zero groups of the lines, with their positions, each list once. */
  ghost predicate HoldsGroups(map0: seq<MaskList>, groups: seq<seq<string>>)
    requires forall i :: 0 <= i < |groups| ==> WellFormed(groups[i])
  {
    && Distinct(map0)
    && (forall i :: 0 <= i < |groups| ==> GroupMasks(groups[i]) in map0)
    && (forall c :: 0 <= c < |map0| ==> OfSomeLine(map0[c], groups))
  }

  lemma LineOfGroups(groups: seq<string>)
    requires WellFormed(groups)
    ensures Below32(GroupValues(groups))
    ensures MasksOfLine(Join(groups, ",")) == Masks(MasksOf(GroupValues(groups), 0))
  {
    ParseWellFormed([], groups);
  }

  lemma SpelledIsReadable(lines: seq<string>, groups: seq<seq<string>>)
    requires SpelledBy(lines, groups)
    ensures Readable(lines)
    ensures forall i :: 0 <= i < |groups| ==> MasksOfLine(lines[i]) == Masks(GroupMasks(groups[i]))
  {
    forall i | 0 <= i < |groups|
      ensures MasksOfLine(lines[i]) == Masks(GroupMasks(groups[i]))
    {
      LineOfGroups(groups[i]);
    }
  }

  lemma LinesHoldGroups(map0: seq<MaskList>, lines: seq<string>, groups: seq<seq<string>>)
    requires HoldsLines(map0, lines) && SpelledBy(lines, groups)
    ensures HoldsGroups(map0, groups)
  {
    SpelledIsReadable(lines, groups);
    forall i | 0 <= i < |groups|
      ensures GroupMasks(groups[i]) in map0
    {
      assert MasksOfLine(lines[i]).masks in map0;
    }
    forall c | 0 <= c < |map0|
      ensures OfSomeLine(map0[c], groups)
    {
      var i :| 0 <= i < |lines| && MasksOfLine(lines[i]) == Masks(map0[c]);
      assert map0[c] == GroupMasks(groups[i]);
    }
  }

  /** Well-formed lines can be read, and the topology read from them holds what their digits say. */
  lemma ReadMasks(t: Topology, siblings: seq<string>, caches: seq<string>, cores: seq<seq<string>>,
                  shared: seq<seq<string>>)
    requires SpelledBy(siblings, cores) && SpelledBy(caches, shared)
    ensures Readable(siblings) && Readable(caches)
    ensures ReadFrom(t, siblings, caches) ==> HoldsGroups(t.processorMap, cores) && HoldsGroups(t.cacheMap, shared)
  {
    SpelledIsReadable(siblings, cores);
    SpelledIsReadable(caches, shared);
    if ReadFrom(t, siblings, caches) {
      LinesHoldGroups(t.processorMap, siblings, cores);
      LinesHoldGroups(t.cacheMap, caches, shared);
    }
  }

  // ----- the CPU ids of the lines -----

  /** A set of CPU ids below 32 * n, ascending. */
  ghost predicate IsCpuSet(cpus: seq<nat>, n: nat) {
    StrictlyIncreasing(cpus) && forall i :: 0 <= i < |cpus| ==> cpus[i] < 32 * n
  }

  /** A CPU set as a line of n groups of eight digits. */
  function Printed(cpus: seq<nat>, n: nat): string {
    Join(PrintGroups(MaskOfCpus(cpus), n), ",")
  }

  ghost predicate PrintedBy(lines: seq<string>, sets: seq<seq<nat>>, n: nat) {
    |lines| == |sets| && forall i :: 0 <= i < |lines| ==> IsCpuSet(sets[i], n) && lines[i] == Printed(sets[i], n)
  }

  /** The groups of a printed set, the lowest first. */
  function ValuesOf(cpus: seq<nat>, n: nat): seq<nat> {
    GroupValues(PrintGroups(MaskOfCpus(cpus), n))
  }

  /** The masks of a printed set. */
  function SetMasks(cpus: seq<nat>, n: nat): MaskList
    requires IsCpuSet(cpus, n)
  {
    PrintedMasks(cpus, n);
    MasksOf(ValuesOf(cpus, n), 0)
  }

  lemma PrintedMasks(cpus: seq<nat>, n: nat)
    requires IsCpuSet(cpus, n)
    ensures Below32(ValuesOf(cpus, n)) && |ValuesOf(cpus, n)| == n
    ensures MasksOfLine(Printed(cpus, n)) == Masks(MasksOf(ValuesOf(cpus, n), 0))
    ensures LineValue(ValuesOf(cpus, n)) == MaskOfCpus(cpus) && Ones(MaskOfCpus(cpus), 0) == cpus
  {
    MaskListsCpus(cpus, 32 * n);
    PrintedGroups(MaskOfCpus(cpus), n);
    LineOfGroups(PrintGroups(MaskOfCpus(cpus), n));
  }

  /** All groups but the last hold 32 CPUs. */
  ghost predicate LowerGroupsFull(groupMap: seq<CoreMask>) {
    forall g :: 0 <= g < |groupMap| - 1 ==> groupMap[g].second == 32
  }

  lemma PrintedListed(cpus: seq<nat>, n: nat, groupMap: seq<CoreMask>)
    requires IsCpuSet(cpus, n) && LowerGroupsFull(groupMap)
    requires MasksOfLine(Printed(cpus, n)).Masks? ==> GroupsBelow(MasksOfLine(Printed(cpus, n)).masks, |groupMap|)
    ensures MasksOfLine(Printed(cpus, n)).Masks? && GroupsKnown(MasksOfLine(Printed(cpus, n)).masks, groupMap)
    ensures CoreList(MasksOfLine(Printed(cpus, n)).masks, groupMap) == cpus
  {
    PrintedMasks(cpus, n);
    FullGroupsNumber(groupMap, |groupMap|);
    CoreListOfNamed(ValuesOf(cpus, n), 0, groupMap);
  }

  /** The lists are the given sets, each once. */
  ghost predicate ListsSets(lists: seq<seq<nat>>, sets: seq<seq<nat>>) {
    Distinct(lists) && forall cpus :: cpus in lists <==> cpus in sets
  }

  ghost predicate MapBelow(maps: seq<MaskList>, n: nat) {
    forall c :: 0 <= c < |maps| ==> GroupsBelow(maps[c], n)
  }

  /** Each list of masks is the printed form of a set, and lists its CPUs. */
  lemma MasksOfSet(map0: seq<MaskList>, lines: seq<string>, sets: seq<seq<nat>>, n: nat, groupMap: seq<CoreMask>,
                   c: nat) returns (i: nat)
    requires HoldsLines(map0, lines) && PrintedBy(lines, sets, n)
    requires LowerGroupsFull(groupMap) && MapBelow(map0, |groupMap|) && c < |map0|
    ensures i < |sets| && MasksOfLine(lines[i]) == Masks(map0[c])
    ensures GroupsKnown(map0[c], groupMap) && CoreList(map0[c], groupMap) == sets[i]
  {
    i :| 0 <= i < |lines| && MasksOfLine(lines[i]) == Masks(map0[c]);
    assert GroupsBelow(map0[c], |groupMap|);
    PrintedListed(sets[i], n, groupMap);
  }

  lemma SetListed(map0: seq<MaskList>, lines: seq<string>, sets: seq<seq<nat>>, n: nat, groupMap: seq<CoreMask>,
                  i: nat) returns (c: nat)
    requires HoldsLines(map0, lines) && PrintedBy(lines, sets, n)
    requires LowerGroupsFull(groupMap) && MapBelow(map0, |groupMap|) && i < |sets|
    ensures c < |map0| && GroupsKnown(map0[c], groupMap) && CoreList(map0[c], groupMap) == sets[i]
  {
    assert MasksOfLine(lines[i]).masks in map0;
    c :| 0 <= c < |map0| && map0[c] == MasksOfLine(lines[i]).masks;
    assert GroupsBelow(map0[c], |groupMap|);
    PrintedListed(sets[i], n, groupMap);
  }

  lemma ListsDiffer(map0: seq<MaskList>, lines: seq<string>, sets: seq<seq<nat>>, n: nat, groupMap: seq<CoreMask>,
                    c: nat, d: nat)
    requires HoldsLines(map0, lines) && PrintedBy(lines, sets, n)
    requires LowerGroupsFull(groupMap) && MapBelow(map0, |groupMap|) && CoresKnown(map0, groupMap)
    requires c < d < |map0|
    ensures CoreList(map0[c], groupMap) != CoreList(map0[d], groupMap)
  {
    var i := MasksOfSet(map0, lines, sets, n, groupMap, c);
    var j := MasksOfSet(map0, lines, sets, n, groupMap, d);
  }

  /** When the lower groups are full, printed CPU sets come out as the lists of the strategies, each set once. */
  lemma MapListsSets(map0: seq<MaskList>, lines: seq<string>, sets: seq<seq<nat>>, n: nat, groupMap: seq<CoreMask>)
    requires HoldsLines(map0, lines) && PrintedBy(lines, sets, n)
    requires LowerGroupsFull(groupMap) && MapBelow(map0, |groupMap|)
    ensures CoresKnown(map0, groupMap) && ListsSets(Lists(map0, groupMap), sets)
  {
    forall c | 0 <= c < |map0|
      ensures GroupsKnown(map0[c], groupMap) && CoreList(map0[c], groupMap) in sets
    {
      var i := MasksOfSet(map0, lines, sets, n, groupMap, c);
    }
    var lists := Lists(map0, groupMap);
    forall i | 0 <= i < |sets|
      ensures sets[i] in lists
    {
      var c := SetListed(map0, lines, sets, n, groupMap, i);
      assert lists[c] == sets[i];
    }
    forall c, d | 0 <= c < d < |map0|
      ensures lists[c] != lists[d]
    {
      ListsDiffer(map0, lines, sets, n, groupMap, c, d);
    }
  }

  /** The caches come out in the same way, when the groups they name have CPUs of the machine. */
  lemma ReadCacheSets(t: Topology, siblings: seq<string>, caches: seq<string>, shared: seq<seq<nat>>, n: nat)
    requires ReadFrom(t, siblings, caches) && PrintedBy(caches, shared, n)
    requires LowerGroupsFull(t.groupMap) && MapBelow(t.cacheMap, |t.groupMap|)
    ensures t.CachesKnown() && ListsSets(Lists(t.cacheMap, t.groupMap), shared)
  {
    MapListsSets(t.cacheMap, caches, shared, n, t.groupMap);
  }

  // ----- a machine whose cores partition its CPUs -----

  ghost predicate InSome(sets: seq<seq<nat>>, v: nat) {
    exists i :: 0 <= i < |sets| && v in sets[i]
  }

  /** Every CPU below size is in a set, no other is, and different sets share none. */
  ghost predicate Partition(sets: seq<seq<nat>>, size: nat) {
    && (forall i, v :: 0 <= i < |sets| && v in sets[i] ==> v < size)
    && (forall v: nat :: v < size ==> InSome(sets, v))
    && (forall i, j, v :: 0 <= i < |sets| && 0 <= j < |sets| && v in sets[i] && v in sets[j] ==> sets[i] == sets[j])
  }

  lemma BitOfSum(lo: nat, hi: nat, b: nat)
    requires lo < TWO_TO_THE_32
    ensures Bit(lo + TWO_TO_THE_32 * hi, b) <==> if b < 32 then Bit(lo, b) else Bit(hi, b - 32)
  {
    OnesOf32(lo, hi, 0);
    OnesMembers(lo + TWO_TO_THE_32 * hi, 0, b);
    OnesMembers(lo, 0, b);
    OnesMembers(hi, 32, b);
    if b >= 32 { HighBitsZero(lo, b); }
  }

  /** Bit 32 * g + k of a line is bit k of its group g. */
  lemma {:induction false} ValueBits(values: seq<nat>, g: nat, k: nat)
    requires Below32(values) && k < 32
    ensures Bit(LineValue(values), 32 * g + k) <==> g < |values| && Bit(values[g], k)
  {
    if values == [] {
      BitOfZero(32 * g + k);
    } else {
      BitOfSum(values[0], LineValue(values[1..]), 32 * g + k);
      if g > 0 {
        ValueBits(values[1..], g - 1, k);
        assert 32 * g + k - 32 == 32 * (g - 1) + k;
      }
    }
  }

  lemma HighBitsZero(x: nat, k: nat)
    requires x < TWO_TO_THE_32 && k >= 32
    ensures !Bit(x, k)
  {
    Pow2Values();
    if Bit(x, k) { BitBound(x, 32, k); }
  }

  /** The mask of each non-zero group is in the list. */
  lemma {:induction false} MaskAt(values: seq<nat>, position: nat, g: nat) returns (p: nat)
    requires Below32(values) && g < |values| && values[g] > 0
    ensures var masks := MasksOf(values, position); p < |masks| && masks[p] == CoreMask(values[g], position + g)
  {
    FirstAndRest(values);
    MasksOfStep(values[0], values[1..], position);
    if g == 0 {
      p := 0;
    } else {
      p := MaskAt(values[1..], position + 1, g - 1);
      p := p + |MaskOf(values[0], position)|;
    }
  }

  /** Each mask in the list is the one of its group. */
  lemma {:induction false} MaskFrom(values: seq<nat>, position: nat, p: nat)
    requires Below32(values) && p < |MasksOf(values, position)|
    ensures var m := MasksOf(values, position)[p];
            position <= m.second < position + |values| && m.mask == values[m.second - position] > 0
  {
    FirstAndRest(values);
    MasksOfStep(values[0], values[1..], position);
    var first := MaskOf(values[0], position);
    if p >= |first| { MaskFrom(values[1..], position + 1, p - |first|); }
  }

  ghost function LowBits(mask: nat): set<nat> {
    set k: nat | k < 32 && Bit(mask, k)
  }

  /** A group's count grows by the CPUs among the low 32 bits of a mask, however wide the mask is. */
  lemma CountsLowBits(entry: CoreMask, mask: Word)
    ensures AddMask(entry, mask).second == entry.second + |LowBits(mask)|
  {
    var lo, hi := mask % TWO_TO_THE_32, mask / TWO_TO_THE_32;
    forall k: nat
      ensures Bit(lo, k) <==> k < 32 && Bit(mask, k)
    {
      BitOfSum(lo, hi, k);
      if k >= 32 { HighBitsZero(lo, k); }
    }
    OneSetMembers(lo);
    assert OneSet(lo) == LowBits(mask);
  }

  // ----- the masks of a printed set -----

  lemma PrintedBits(cpus: seq<nat>, n: nat, g: nat, k: nat)
    requires IsCpuSet(cpus, n) && k < 32
    ensures Below32(ValuesOf(cpus, n)) && |ValuesOf(cpus, n)| == n
    ensures 32 * g + k in cpus <==> g < n && Bit(ValuesOf(cpus, n)[g], k)
  {
    PrintedMasks(cpus, n);
    MaskOfCpusBits(cpus, 32 * g + k);
    ValueBits(ValuesOf(cpus, n), g, k);
  }

  lemma CpuHasMask(cpus: seq<nat>, n: nat, g: nat, k: nat) returns (p: nat)
    requires IsCpuSet(cpus, n) && k < 32 && 32 * g + k in cpus
    ensures var masks := SetMasks(cpus, n); p < |masks| && masks[p].second == g && Bit(masks[p].mask, k)
  {
    PrintedBits(cpus, n, g, k);
    BitOfZero(k);
    p := MaskAt(ValuesOf(cpus, n), 0, g);
  }

  lemma MaskOfGroup(cpus: seq<nat>, n: nat, p: nat)
    requires IsCpuSet(cpus, n) && p < |SetMasks(cpus, n)|
    ensures |ValuesOf(cpus, n)| == n
    ensures var m := SetMasks(cpus, n)[p]; m.second < n && 0 < m.mask == ValuesOf(cpus, n)[m.second] < TWO_TO_THE_32
  {
    PrintedMasks(cpus, n);
    MaskIn(ValuesOf(cpus, n), p);
  }

  lemma MaskIn(values: seq<nat>, p: nat)
    requires Below32(values) && p < |MasksOf(values, 0)|
    ensures var m := MasksOf(values, 0)[p]; m.second < |values| && 0 < m.mask == values[m.second] < TWO_TO_THE_32
  {
    MaskFrom(values, 0, p);
  }

  lemma MaskHasCpu(cpus: seq<nat>, n: nat, p: nat, k: nat)
    requires IsCpuSet(cpus, n) && p < |SetMasks(cpus, n)| && Bit(SetMasks(cpus, n)[p].mask, k)
    ensures k < 32 && 32 * SetMasks(cpus, n)[p].second + k in cpus
  {
    var m := SetMasks(cpus, n)[p];
    MaskOfGroup(cpus, n, p);
    if k >= 32 { HighBitsZero(m.mask, k); }
    PrintedBits(cpus, n, m.second, k);
  }

  // ----- the groups of a partitioned machine -----

  ghost predicate OfSomeSet(masks: MaskList, sets: seq<seq<nat>>, n: nat) {
    exists i :: 0 <= i < |sets| && IsCpuSet(sets[i], n) && masks == SetMasks(sets[i], n)
  }

  /** maps holds the masks of the sets, and only those, each list once. */
  ghost predicate MapOfSets(maps: seq<MaskList>, sets: seq<seq<nat>>, n: nat) {
    && Distinct(maps)
    && (forall i :: 0 <= i < |sets| ==> IsCpuSet(sets[i], n))
    && (forall i :: 0 <= i < |sets| ==> SetMasks(sets[i], n) in maps)
    && (forall c :: 0 <= c < |maps| ==> OfSomeSet(maps[c], sets, n))
  }

  lemma PrintedLines(lines: seq<string>, sets: seq<seq<nat>>, n: nat)
    requires PrintedBy(lines, sets, n)
    ensures forall i :: 0 <= i < |sets| ==> MasksOfLine(lines[i]) == Masks(SetMasks(sets[i], n))
  {
    forall i | 0 <= i < |sets|
      ensures MasksOfLine(lines[i]) == Masks(SetMasks(sets[i], n))
    {
      PrintedMasks(sets[i], n);
    }
  }

  lemma LinesMapSets(maps: seq<MaskList>, lines: seq<string>, sets: seq<seq<nat>>, n: nat)
    requires HoldsLines(maps, lines) && PrintedBy(lines, sets, n)
    ensures MapOfSets(maps, sets, n)
  {
    PrintedLines(lines, sets, n);
    forall i | 0 <= i < |sets|
      ensures SetMasks(sets[i], n) in maps
    {
      assert MasksOfLine(lines[i]).masks in maps;
    }
    forall c | 0 <= c < |maps|
      ensures OfSomeSet(maps[c], sets, n)
    {
      var i :| 0 <= i < |lines| && MasksOfLine(lines[i]) == Masks(maps[c]);
      assert maps[c] == SetMasks(sets[i], n);
    }
  }

  lemma SetMasksShape(cpus: seq<nat>, n: nat)
    requires IsCpuSet(cpus, n)
    ensures var masks := SetMasks(cpus, n);
            && (forall p :: 0 <= p < |masks| ==> 0 < masks[p].mask < TWO_TO_THE_32)
            && (forall p, q :: 0 <= p < q < |masks| ==> masks[p].second < masks[q].second)
  {
    PrintedMasks(cpus, n);
    MasksShape(ValuesOf(cpus, n), 0);
  }

  lemma MasksMeet(a: seq<nat>, b: seq<nat>, n: nat, p: nat, q: nat, k: nat)
    requires IsCpuSet(a, n) && IsCpuSet(b, n) && p < |SetMasks(a, n)| && q < |SetMasks(b, n)|
    requires SetMasks(a, n)[p].second == SetMasks(b, n)[q].second
    requires Bit(SetMasks(a, n)[p].mask, k) && Bit(SetMasks(b, n)[q].mask, k)
    ensures exists v :: v in a && v in b
  {
    var g := SetMasks(a, n)[p].second;
    NamedBySet(a, n, p, g, k);
    NamedBySet(b, n, q, g, k);
    assert 32 * g + k in a;
  }

  lemma SetsSeparate(a: seq<nat>, b: seq<nat>, n: nat)
    requires IsCpuSet(a, n) && IsCpuSet(b, n)
    requires (exists v :: v in a && v in b) ==> a == b
    ensures Separate(SetMasks(a, n), SetMasks(b, n))
  {
    var x, y := SetMasks(a, n), SetMasks(b, n);
    SetMasksShape(a, n);
    forall p, q | 0 <= p < |x| && 0 <= q < |y| && (x != y || p != q) && x[p].second == y[q].second
      ensures DisjointBits(x[p].mask, y[q].mask)
    {
      if k: nat :| Bit(x[p].mask, k) && Bit(y[q].mask, k) {
        MasksMeet(a, b, n, p, q, k);
        assert false;
      }
    }
  }

  lemma PartitionDisjoint(maps: seq<MaskList>, sets: seq<seq<nat>>, n: nat, size: nat)
    requires MapOfSets(maps, sets, n) && Partition(sets, size)
    ensures DisjointMaps(maps)
  {
    forall c, d | 0 <= c < |maps| && 0 <= d < |maps|
      ensures Separate(maps[c], maps[d])
    {
      assert OfSomeSet(maps[c], sets, n) && OfSomeSet(maps[d], sets, n);
      var i :| 0 <= i < |sets| && IsCpuSet(sets[i], n) && maps[c] == SetMasks(sets[i], n);
      var j :| 0 <= j < |sets| && IsCpuSet(sets[j], n) && maps[d] == SetMasks(sets[j], n);
      SetsSeparate(sets[i], sets[j], n);
    }
    SeparateIsDisjoint(maps);
  }

  /** Every mask of the machine is the mask of a set, for its group. */
  lemma MaskOfSome(maps: seq<MaskList>, sets: seq<seq<nat>>, n: nat, j: nat) returns (i: nat, p: nat)
    requires MapOfSets(maps, sets, n) && j < |Flatten(maps)|
    ensures i < |sets| && IsCpuSet(sets[i], n)
    ensures p < |SetMasks(sets[i], n)| && Flatten(maps)[j] == SetMasks(sets[i], n)[p]
  {
    var c;
    c, p := FlattenIndex(maps, j);
    assert OfSomeSet(maps[c], sets, n);
    i :| 0 <= i < |sets| && IsCpuSet(sets[i], n) && maps[c] == SetMasks(sets[i], n);
  }

  lemma GroupBitNamed(maps: seq<MaskList>, sets: seq<seq<nat>>, n: nat, g: nat, k: nat)
    requires MapOfSets(maps, sets, n) && Bit(Entry(Flatten(maps), g).mask, k)
    ensures k < 32 && InSome(sets, 32 * g + k)
  {
    EntryBits(Flatten(maps), g, k);
    var j :| 0 <= j < |Flatten(maps)| && Flatten(maps)[j].second == g && Bit(Flatten(maps)[j].mask, k);
    var i, p := MaskOfSome(maps, sets, n, j);
    NamedBySet(sets[i], n, p, g, k);
    assert 32 * g + k in sets[i];
  }

  lemma NamedBySet(cpus: seq<nat>, n: nat, p: nat, g: nat, k: nat)
    requires IsCpuSet(cpus, n) && p < |SetMasks(cpus, n)|
    requires SetMasks(cpus, n)[p].second == g && Bit(SetMasks(cpus, n)[p].mask, k)
    ensures k < 32 && 32 * g + k in cpus
  {
    MaskHasCpu(cpus, n, p, k);
  }

  lemma NamedGroupBit(maps: seq<MaskList>, sets: seq<seq<nat>>, n: nat, g: nat, k: nat)
    requires MapOfSets(maps, sets, n) && k < 32 && InSome(sets, 32 * g + k)
    ensures Bit(Entry(Flatten(maps), g).mask, k)
  {
    var i :| 0 <= i < |sets| && 32 * g + k in sets[i];
    var p := CpuHasMask(sets[i], n, g, k);
    var c :| 0 <= c < |maps| && maps[c] == SetMasks(sets[i], n);
    var j := FlattenMember(maps, c, p);
    EntryBits(Flatten(maps), g, k);
  }

  /** Group g of the machine has CPU k exactly when 32 * g + k is a CPU of the machine. */
  lemma GroupBits(maps: seq<MaskList>, sets: seq<seq<nat>>, n: nat, size: nat, g: nat, k: nat)
    requires MapOfSets(maps, sets, n) && Partition(sets, size)
    ensures Bit(Entry(Flatten(maps), g).mask, k) <==> k < 32 && 32 * g + k < size
  {
    if Bit(Entry(Flatten(maps), g).mask, k) { GroupBitNamed(maps, sets, n, g, k); }
    if k < 32 && 32 * g + k < size { NamedGroupBit(maps, sets, n, g, k); }
  }

  lemma FullWord(x: nat)
    requires forall k: nat :: Bit(x, k) <==> k < 32
    ensures Popcount(x) == 32
  {
    OneSetMembers(x);
    BelowSize(32);
    assert OneSet(x) == Below(32);
  }

  lemma PartitionFillsGroups(t: Topology, sets: seq<seq<nat>>, n: nat, size: nat, m: nat)
    requires TrimmedTable(t.groupMap, t.processorMap, m) && MapBelow(t.processorMap, m)
    requires MapOfSets(t.processorMap, sets, n) && Partition(sets, size)
    ensures LowerGroupsFull(t.groupMap) && MapBelow(t.processorMap, |t.groupMap|)
  {
    var maps, last := t.processorMap, |t.groupMap| - 1;
    PartitionDisjoint(maps, sets, n, size);
    TopologyConservesCpus(t, m);
    UsedGroupsKept(t, m);
    var top := t.groupMap[last].mask;
    LowestIsFirst(top);
    GroupBits(maps, sets, n, size, last, Lowest(top));
    forall g | 0 <= g < last
      ensures t.groupMap[g].second == 32
    {
      forall k: nat
        ensures Bit(t.groupMap[g].mask, k) <==> k < 32
      {
        GroupBits(maps, sets, n, size, g, k);
      }
      FullWord(t.groupMap[g].mask);
    }
  }

  // ----- from the lines to the pins -----

  lemma SetsDisjointCores(lists: seq<seq<nat>>, sets: seq<seq<nat>>, size: nat, n: nat)
    requires ListsSets(lists, sets) && Partition(sets, size)
    requires forall i :: 0 <= i < |sets| ==> IsCpuSet(sets[i], n)
    ensures CoreStrategy.DisjointCores(lists)
  {
    forall c, i, d, j | 0 <= c < |lists| && 0 <= d < |lists| && 0 <= i < |lists[c]| && 0 <= j < |lists[d]|
                        && lists[c][i] == lists[d][j]
      ensures c == d && i == j
    {
      assert lists[c] in sets && lists[d] in sets;
      var a :| 0 <= a < |sets| && sets[a] == lists[c];
      var b :| 0 <= b < |sets| && sets[b] == lists[d];
      assert lists[c][i] in sets[a] && lists[c][i] in sets[b];
    }
  }

  lemma PinsAreListed(lists: seq<seq<nat>>, k: nat, t: nat, v: nat)
    requires CoreStrategy.Uniform(lists, k) && CoreStrategy.Populated(lists)
    requires v in CoreStrategy.Cpus(CoreStrategy.Schedule(lists, t))
    ensures InSome(lists, v)
  {
    CoreStrategy.UniformSchedule(lists, k, t);
    var i :| 0 <= i < t && CoreStrategy.Schedule(lists, t)[i].cpu == v;
    assert v in lists[i % |lists|];
  }

  lemma ListedIsBelow(lists: seq<seq<nat>>, sets: seq<seq<nat>>, size: nat, v: nat)
    requires ListsSets(lists, sets) && Partition(sets, size)
    ensures InSome(lists, v) <==> v < size
  {
    if c :| 0 <= c < |lists| && v in lists[c] {
      assert lists[c] in sets;
    }
    if v < size {
      assert InSome(sets, v);
      var i :| 0 <= i < |sets| && v in sets[i];
      assert sets[i] in lists;
    }
  }

  lemma ListedIsPinned(lists: seq<seq<nat>>, k: nat, v: nat)
    requires CoreStrategy.Uniform(lists, k) && CoreStrategy.DisjointCores(lists) && InSome(lists, v)
    ensures CoreStrategy.Populated(lists)
    ensures v in CoreStrategy.Cpus(CoreStrategy.Schedule(lists, |lists| * k))
  {
    CoreStrategy.FirstPassCoversAll(lists, k);
    var c :| 0 <= c < |lists| && v in lists[c];
    var j :| 0 <= j < |lists[c]| && lists[c][j] == v;
  }

  lemma PinsOfPartition(lists: seq<seq<nat>>, sets: seq<seq<nat>>, size: nat, n: nat, k: nat)
    requires ListsSets(lists, sets) && Partition(sets, size) && CoreStrategy.Uniform(lists, k)
    requires forall i :: 0 <= i < |sets| ==> IsCpuSet(sets[i], n)
    ensures CoreStrategy.Populated(lists) && size == |lists| * k
    ensures PinsBelow(CoreStrategy.Cpus(CoreStrategy.Schedule(lists, size)), size)
  {
    SetsDisjointCores(lists, sets, size, n);
    CoreStrategy.FirstPassCoversAll(lists, k);
    var pins := CoreStrategy.Cpus(CoreStrategy.Schedule(lists, |lists| * k));
    forall v: nat
      ensures v in pins <==> v < size
    {
      ListedIsBelow(lists, sets, size, v);
      if v in pins { PinsAreListed(lists, k, |lists| * k, v); }
      if v < size { ListedIsPinned(lists, k, v); }
    }
    PinsBelowSize(pins, size);
  }

  /** The pins are the CPUs 0 .. size - 1, each once. */
  ghost predicate PinsBelow(pins: seq<nat>, size: nat) {
    Distinct(pins) && forall v: nat :: v in pins <==> v < size
  }

  lemma PinsBelowSize(pins: seq<nat>, size: nat)
    requires PinsBelow(pins, size)
    ensures |pins| == size
  {
    DistinctSetSize(pins);
    BelowSize(size);
    var all: set<nat> := set v | v in pins;
    assert |all| == |pins|;
    assert all == Below(size);
    assert |all| == size;
  }

  lemma ReadPartition(t: Topology, siblings: seq<string>, caches: seq<string>, sets: seq<seq<nat>>, n: nat, size: nat)
    requires ReadFrom(t, siblings, caches) && PrintedBy(siblings, sets, n) && Partition(sets, size)
    ensures LowerGroupsFull(t.groupMap) && t.CoresWellFormed() && CoresKnown(t.processorMap, t.groupMap)
    ensures ListsSets(Lists(t.processorMap, t.groupMap), sets)
  {
    CoresOfLines(t, siblings, caches);
    LinesMapSets(t.processorMap, siblings, sets, n);
    PartitionFillsGroups(t, sets, n, size, |siblings|);
    PartitionDisjoint(t.processorMap, sets, n, size);
    ReadCoresWellFormed(t, |siblings|);
    MapListsSets(t.processorMap, siblings, sets, n, t.groupMap);
  }

  /** From the digits of the sibling lines to the pins: when the lines print the cores of a machine, each core with k
      of the CPUs 0 .. size - 1, the topology read from them lists exactly those cores, and the core strategy pins
      size threads to the CPUs 0 .. size - 1, each once. */
  lemma CoreStrategyPinsMachine(t: Topology, siblings: seq<string>, caches: seq<string>, sets: seq<seq<nat>>, n: nat,
                                size: nat, k: nat)
    requires ReadFrom(t, siblings, caches) && PrintedBy(siblings, sets, n) && Partition(sets, size)
    requires k >= 1 && forall i :: 0 <= i < |sets| ==> |sets[i]| == k
    ensures LowerGroupsFull(t.groupMap) && t.CoresWellFormed() && CoresKnown(t.processorMap, t.groupMap)
    ensures var lists := Lists(t.processorMap, t.groupMap);
            && ListsSets(lists, sets) && CoreStrategy.Populated(lists) && size == |lists| * k
            && PinsBelow(CoreStrategy.Cpus(CoreStrategy.Schedule(lists, size)), size)
  {
    CoresOfLines(t, siblings, caches);
    ReadPartition(t, siblings, caches, sets, n, size);
    var lists := Lists(t.processorMap, t.groupMap);
    forall c | 0 <= c < |lists|
      ensures |lists[c]| == k
    {
      assert lists[c] in sets;
    }
    PinsOfPartition(lists, sets, size, n, k);
  }
}
