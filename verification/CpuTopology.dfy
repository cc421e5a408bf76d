// The topology of a machine, read from one sibling line and one cache line per CPU.
module CpuTopology {
  import opened Bits
  import opened CoreLists
  import opened Groups
  import opened Dedup
  import opened Affinity
  import CoreStrategy
  import Spread
  import Hex
  import MaskLine

  /** What becomes of reading: a topology, an exception, or an access outside the bounds of a vector. */
  datatype Outcome = Read(topology: Topology) | Failed(error: Hex.Number) | OutOfBounds

  /** The masks of a line; a missing file reads as an empty line. */
  function MasksOfLine(line: string): MaskLine.Parsed {
    MaskLine.Parse([], line)
  }

  ghost predicate Readable(lines: seq<string>) {
    forall i :: 0 <= i < |lines| ==> MasksOfLine(lines[i]).Masks?
  }

  /** Some line names a group and some line names none: ordering their lists looks at the first mask of an empty one. */
  ghost predicate Mixed(lines: seq<string>)
    requires Readable(lines)
  {
    (exists i :: 0 <= i < |lines| && MasksOfLine(lines[i]).masks == []) &&
    (exists i :: 0 <= i < |lines| && MasksOfLine(lines[i]).masks != [])
  }

  /** Every group a line names is among n groups. */
  ghost predicate NamesGroups(lines: seq<string>, n: nat)
    requires Readable(lines)
  {
    forall i :: 0 <= i < |lines| ==> GroupsBelow(MasksOfLine(lines[i]).masks, n)
  }

  ghost predicate NamesSomeCpu(lines: seq<string>)
    requires Readable(lines)
  {
    exists i :: 0 <= i < |lines| && NonZero(MasksOfLine(lines[i]).masks)
  }

  ghost predicate NonZero(masks: MaskList) {
    exists k :: 0 <= k < |masks| && masks[k].mask > 0
  }

  /** map0 holds the masks of the lines, each list once. */
  ghost predicate HoldsLines(map0: seq<MaskList>, lines: seq<string>) {
    && Distinct(map0)
    && (forall i :: 0 <= i < |lines| ==>
          MasksOfLine(lines[i]).Masks? && MasksOfLine(lines[i]).masks in map0)
    && (forall c :: 0 <= c < |map0| ==>
          exists i :: 0 <= i < |lines| && MasksOfLine(lines[i]) == MaskLine.Masks(map0[c]))
  }

  /** Some line throws this exception. */
  ghost predicate ThrownBy(lines: seq<string>, error: Hex.Number) {
    exists i :: 0 <= i < |lines| && MasksOfLine(lines[i]).Thrown? && MasksOfLine(lines[i]).error == error
  }

  /** Parses every line into the entry of its CPU. */
  method ReadLines(lines: seq<string>) returns (maps: seq<MaskList>, error: Hex.Number, ok: bool)
    ensures ok <==> Readable(lines)
    ensures !ok ==> ThrownBy(lines, error)
    ensures ok ==>
              |maps| == |lines| && forall i :: 0 <= i < |lines| ==> MasksOfLine(lines[i]) == MaskLine.Masks(maps[i])
  {
    maps, error, ok := [], Hex.InvalidArgument, true;
    for cpuId := 0 to |lines|
      invariant |maps| == cpuId
      invariant forall i :: 0 <= i < cpuId ==> MasksOfLine(lines[i]) == MaskLine.Masks(maps[i])
    {
      var parsed := MaskLine.ParseLine([], lines[cpuId]);
      if parsed.Thrown? {
        return maps, parsed.error, false;
      }
      maps := maps + [parsed.masks];
    }
  }

  /** Drops duplicates, then reorders, which is out of bounds when an empty list is compared. */
  method CollectMap(lines: seq<string>, maps: seq<MaskList>) returns (map1: seq<MaskList>, inBounds: bool)
    requires |maps| == |lines| && forall i :: 0 <= i < |lines| ==> MasksOfLine(lines[i]) == MaskLine.Masks(maps[i])
    ensures inBounds <==> !Mixed(lines)
    ensures inBounds ==> HoldsLines(map1, lines) && OrderedByGroup(map1)
  {
    var unique := EliminateDuplicates(maps);
    MixedLists(lines, maps, unique);
    if |unique| >= 2 && [] in unique {
      return unique, false;
    }
    map1 := Reorder(unique);
    SameMembers(map1, unique);
    SameLists(lines, maps, map1);
    inBounds := true;
  }

  lemma MixedLists(lines: seq<string>, maps: seq<MaskList>, unique: seq<MaskList>)
    requires |maps| == |lines| && forall i :: 0 <= i < |lines| ==> MasksOfLine(lines[i]) == MaskLine.Masks(maps[i])
    requires Distinct(unique) && forall x :: x in unique <==> x in maps
    ensures Mixed(lines) <==> |unique| >= 2 && [] in unique
  {
    if Mixed(lines) {
      var i :| 0 <= i < |lines| && MasksOfLine(lines[i]).masks == [];
      var j :| 0 <= j < |lines| && MasksOfLine(lines[j]).masks != [];
      assert maps[i] in unique && maps[j] in unique;
    }
    if |unique| >= 2 && [] in unique {
      var other := if unique[0] == [] then unique[1] else unique[0];
      assert other in maps && [] in maps;
      var i :| 0 <= i < |maps| && maps[i] == [];
      var j :| 0 <= j < |maps| && maps[j] == other;
      assert MasksOfLine(lines[i]).masks == [] && MasksOfLine(lines[j]).masks != [];
    }
  }

  lemma SameLists(lines: seq<string>, maps: seq<MaskList>, map1: seq<MaskList>)
    requires |maps| == |lines| && forall i :: 0 <= i < |lines| ==> MasksOfLine(lines[i]) == MaskLine.Masks(maps[i])
    requires Distinct(map1) && forall x :: x in map1 <==> x in maps
    ensures HoldsLines(map1, lines)
  {
    forall i | 0 <= i < |lines|
      ensures MasksOfLine(lines[i]).masks in map1
    {
      assert maps[i] in maps;
    }
    forall c | 0 <= c < |map1|
      ensures exists i :: 0 <= i < |lines| && MasksOfLine(lines[i]) == MaskLine.Masks(map1[c])
    {
      assert map1[c] in maps;
      var i :| 0 <= i < |maps| && maps[i] == map1[c];
      assert MasksOfLine(lines[i]) == MaskLine.Masks(map1[c]);
    }
  }

  /** The lines are within what the original's accesses allow. */
  ghost predicate WithinBounds(siblings: seq<string>, caches: seq<string>)
    requires Readable(siblings) && Readable(caches)
  {
    !Mixed(siblings) && !Mixed(caches) && NamesGroups(siblings, |siblings|) && NamesSomeCpu(siblings)
  }

  /** t is what the lines say: each list of masks once and in order, and the group map trimmed. */
  ghost predicate ReadFrom(t: Topology, siblings: seq<string>, caches: seq<string>) {
    && Readable(siblings) && Readable(caches) && WithinBounds(siblings, caches)
    && t.activeProcessors == |siblings|
    && HoldsLines(t.processorMap, siblings) && OrderedByGroup(t.processorMap)
    && HoldsLines(t.cacheMap, caches) && OrderedByGroup(t.cacheMap)
    && TrimmedTable(t.groupMap, t.processorMap, |siblings|)
  }

  method ReadTopology(siblings: seq<string>, caches: seq<string>) returns (r: Outcome)
    ensures r.Failed? <==> !Readable(siblings) || (!Mixed(siblings) && !Readable(caches))
    ensures r.Failed? ==> ThrownBy(if Readable(siblings) then caches else siblings, r.error)
    ensures r.Read? <==> Readable(siblings) && Readable(caches) && WithinBounds(siblings, caches)
    ensures r.Read? ==> ReadFrom(r.topology, siblings, caches)
  {
    var processorMap, error, ok := ReadLines(siblings);
    if !ok {
      return Failed(error);
    }
    processorMap, ok := CollectMap(siblings, processorMap);
    if !ok {
      return OutOfBounds;
    }
    var cacheMap;
    cacheMap, error, ok := ReadLines(caches);
    if !ok {
      return Failed(error);
    }
    cacheMap, ok := CollectMap(caches, cacheMap);
    if !ok {
      return OutOfBounds;
    }
    CoresNameGroups(siblings, processorMap, |siblings|);
    var groupMap;
    groupMap, ok := Accumulate(processorMap, |siblings|);
    if !ok {
      return OutOfBounds;
    }
    assert groupMap == Table(Flatten(processorMap), |siblings|);
    SomeGroupUsed(siblings, processorMap);
    groupMap := PopEmpty(groupMap);
    if groupMap == [] {
      return OutOfBounds;
    }
    r := Read(Topology(|siblings|, processorMap, cacheMap, groupMap));
  }

  /** The group table of n groups without its empty tail. */
  ghost predicate TrimmedTable(groupMap: seq<CoreMask>, processorMap: seq<MaskList>, n: nat) {
    var all := Table(Flatten(processorMap), n);
    && 1 <= |groupMap| <= n && groupMap == all[..|groupMap|] && groupMap[|groupMap| - 1].mask != 0
    && forall g :: |groupMap| <= g < n ==> all[g].mask == 0
  }

  lemma CoresNameGroups(lines: seq<string>, map0: seq<MaskList>, n: nat)
    requires HoldsLines(map0, lines)
    ensures NamesGroups(lines, n) <==> forall c :: 0 <= c < |map0| ==> GroupsBelow(map0[c], n)
  {
    forall i | 0 <= i < |lines|
      ensures exists c :: 0 <= c < |map0| && map0[c] == MasksOfLine(lines[i]).masks
    {
      assert MasksOfLine(lines[i]).masks in map0;
    }
  }

  /** Every mask of every core is among the flattened masks. */
  lemma {:induction false} FlattenMember(maps: seq<MaskList>, c: nat, i: nat) returns (j: nat)
    requires c < |maps| && i < |maps[c]|
    ensures j < |Flatten(maps)| && Flatten(maps)[j] == maps[c][i]
  {
    var front := maps[..|maps| - 1];
    if c == |maps| - 1 {
      j := |Flatten(front)| + i;
    } else {
      j := FlattenMember(front, c, i);
    }
  }

  /** A group named by a non-empty mask does not come out empty. */
  lemma UsedGroup(masks: MaskList, j: nat)
    requires j < |masks| && masks[j].mask > 0
    ensures Entry(masks, masks[j].second).mask != 0
  {
    var k := Lowest(masks[j].mask);
    LowestIsFirst(masks[j].mask);
    EntryBits(masks, masks[j].second, k);
    BitOfZero(k);
  }

  /** Only a non-empty mask makes a group come out non-empty. */
  lemma GroupUsed(masks: MaskList, g: nat) returns (j: nat)
    requires Entry(masks, g).mask != 0
    ensures j < |masks| && masks[j].mask > 0
  {
    var k := Lowest(Entry(masks, g).mask);
    LowestIsFirst(Entry(masks, g).mask);
    EntryBits(masks, g, k);
    j :| 0 <= j < |masks| && masks[j].second == g && Bit(masks[j].mask, k);
    BitOfZero(k);
  }

  ghost predicate SomeUsed(groupMap: seq<CoreMask>) {
    exists g :: 0 <= g < |groupMap| && groupMap[g].mask != 0
  }

  lemma NamedCpuUsesGroup(lines: seq<string>, map0: seq<MaskList>)
    requires HoldsLines(map0, lines) && NamesGroups(lines, |lines|) && NamesSomeCpu(lines)
    ensures SomeUsed(Table(Flatten(map0), |lines|))
  {
    var l :| 0 <= l < |lines| && NonZero(MasksOfLine(lines[l]).masks);
    var masks := MasksOfLine(lines[l]).masks;
    assert masks in map0 && GroupsBelow(masks, |lines|);
    var k :| 0 <= k < |masks| && masks[k].mask > 0;
    var c :| 0 <= c < |map0| && map0[c] == masks;
    var j := FlattenMember(map0, c, k);
    UsedGroup(Flatten(map0), j);
    assert Table(Flatten(map0), |lines|)[masks[k].second].mask != 0;
  }

  lemma UsedGroupNamesCpu(lines: seq<string>, map0: seq<MaskList>)
    requires HoldsLines(map0, lines) && SomeUsed(Table(Flatten(map0), |lines|))
    ensures NamesSomeCpu(lines)
  {
    var g :| 0 <= g < |lines| && Table(Flatten(map0), |lines|)[g].mask != 0;
    var j := GroupUsed(Flatten(map0), g);
    var c, k := FlattenIndex(map0, j);
    var l :| 0 <= l < |lines| && MasksOfLine(lines[l]) == MaskLine.Masks(map0[c]);
    assert NonZero(MasksOfLine(lines[l]).masks);
  }

  lemma SomeGroupUsed(lines: seq<string>, map0: seq<MaskList>)
    requires HoldsLines(map0, lines) && NamesGroups(lines, |lines|)
    ensures NamesSomeCpu(lines) <==> SomeUsed(Table(Flatten(map0), |lines|))
  {
    if NamesSomeCpu(lines) { NamedCpuUsesGroup(lines, map0); }
    if SomeUsed(Table(Flatten(map0), |lines|)) { UsedGroupNamesCpu(lines, map0); }
  }

  // ----- what the strategies rely on -----

  /** Distinct cores, and distinct masks of a core, share no CPU. */
  ghost predicate DisjointMaps(maps: seq<MaskList>) {
    && (forall c, i :: 0 <= c < |maps| && 0 <= i < |maps[c]| ==> 0 < maps[c][i].mask < TWO_TO_THE_32)
    && (forall c, i, d, j ::
          (0 <= c < |maps| && 0 <= i < |maps[c]| && 0 <= d < |maps| && 0 <= j < |maps[d]|
           && (c != d || i != j) && maps[c][i].second == maps[d][j].second)
          ==> DisjointBits(maps[c][i].mask, maps[d][j].mask))
  }

  lemma {:induction false} FlattenIndex(maps: seq<MaskList>, j: nat) returns (c: nat, i: nat)
    requires j < |Flatten(maps)|
    ensures c < |maps| && i < |maps[c]| && Flatten(maps)[j] == maps[c][i]
    ensures j == |Flatten(maps[..c])| + i
  {
    var front := maps[..|maps| - 1];
    if j < |Flatten(front)| {
      c, i := FlattenIndex(front, j);
      assert front[..c] == maps[..c];
    } else {
      c, i := |maps| - 1, j - |Flatten(front)|;
    }
  }

  lemma FlattenedDisjoint(maps: seq<MaskList>)
    requires DisjointMaps(maps)
    ensures DisjointMasks(Flatten(maps))
  {
    var all := Flatten(maps);
    forall j | 0 <= j < |all|
      ensures all[j].mask < TWO_TO_THE_32
    {
      var c, i := FlattenIndex(maps, j);
    }
    forall j, k | 0 <= j < k < |all| && all[j].second == all[k].second
      ensures DisjointBits(all[j].mask, all[k].mask)
    {
      var c, i := FlattenIndex(maps, j);
      var d, l := FlattenIndex(maps, k);
    }
  }

  lemma {:induction false} CoreListLength(masks: MaskList, groupMap: seq<CoreMask>)
    requires GroupsKnown(masks, groupMap) && forall i :: 0 <= i < |masks| ==> masks[i].mask < TWO_TO_THE_32
    ensures |CoreList(masks, groupMap)| == TotalCount(masks)
  {
    if masks != [] {
      var first, rest := masks[0], masks[1..];
      CoreListLength(rest, groupMap);
      OnesCount(first.mask, Offset(groupMap, first.second));
      assert masks == [first] + rest;
      TotalCountConcat([first], rest);
      TotalCountOne(first);
    }
  }

  lemma TotalCountOne(m: CoreMask)
    requires m.mask < TWO_TO_THE_32
    ensures TotalCount([m]) == Popcount(m.mask)
  {
    assert m.mask % TWO_TO_THE_32 == m.mask;
    assert [m][..0] == [] && TotalCount([]) == 0;
  }

  lemma {:induction false} TotalCountConcat(a: MaskList, b: MaskList)
    ensures TotalCount(a + b) == TotalCount(a) + TotalCount(b)
  {
    if b == [] {
      assert a + b == a;
    } else {
      assert (a + b)[..|a + b| - 1] == a + b[..|b| - 1];
      TotalCountConcat(a, b[..|b| - 1]);
    }
  }

  /** The number of CPUs listed by all cores. */
  function ListedCpus(lists: seq<seq<nat>>): nat {
    if lists == [] then 0 else ListedCpus(lists[..|lists| - 1]) + |lists[|lists| - 1]|
  }

  ghost predicate CoresKnown(maps: seq<MaskList>, groupMap: seq<CoreMask>) {
    forall c :: 0 <= c < |maps| ==> GroupsKnown(maps[c], groupMap)
  }

  lemma {:induction false} ListedIsTotal(maps: seq<MaskList>, groupMap: seq<CoreMask>)
    requires CoresKnown(maps, groupMap)
    requires forall c, i :: 0 <= c < |maps| && 0 <= i < |maps[c]| ==> maps[c][i].mask < TWO_TO_THE_32
    ensures ListedCpus(Lists(maps, groupMap)) == TotalCount(Flatten(maps))
  {
    if maps != [] {
      var n := |maps| - 1;
      ListedIsTotal(maps[..n], groupMap);
      assert Lists(maps, groupMap)[..n] == Lists(maps[..n], groupMap);
      CoreListLength(maps[n], groupMap);
      TotalCountConcat(Flatten(maps[..n]), maps[n]);
    }
  }

  /** On disjoint siblings, every group counts its CPUs and the counts add up to all CPUs the cores list. */
  lemma TopologyConservesCpus(t: Topology, n: nat)
    requires TrimmedTable(t.groupMap, t.processorMap, n) && DisjointMaps(t.processorMap)
    requires forall c :: 0 <= c < |t.processorMap| ==> GroupsBelow(t.processorMap[c], n)
    ensures forall g :: 0 <= g < |t.groupMap| ==> t.groupMap[g].second == Popcount(t.groupMap[g].mask)
    ensures forall g :: 0 <= g <= |t.groupMap| ==> Offset(t.groupMap, g) == Offset(Table(Flatten(t.processorMap), n), g)
    ensures CoresKnown(t.processorMap, t.groupMap)
    ensures Offset(t.groupMap, |t.groupMap|) == ListedCpus(Lists(t.processorMap, t.groupMap))
  {
    var masks := Flatten(t.processorMap);
    var all := Table(masks, n);
    FlattenedDisjoint(t.processorMap);
    forall g: nat
      ensures Entry(masks, g).second == Popcount(Entry(masks, g).mask)
    {
      EntryCount(masks, g);
    }
    TrimmingKeepsOffsets(all, |t.groupMap|, masks);
    forall j | 0 <= j < |masks|
      ensures masks[j].second < n
    {
      var c, i := FlattenIndex(t.processorMap, j);
    }
    CountsSum(masks, n);
    UsedGroupsKept(t, n);
    ListedIsTotal(t.processorMap, t.groupMap);
  }

  /** Every group a core names survives the trimming. */
  lemma UsedGroupsKept(t: Topology, n: nat)
    requires TrimmedTable(t.groupMap, t.processorMap, n)
    requires forall c :: 0 <= c < |t.processorMap| ==> GroupsBelow(t.processorMap[c], n)
    requires forall c, i :: 0 <= c < |t.processorMap| && 0 <= i < |t.processorMap[c]| ==> t.processorMap[c][i].mask > 0
    ensures forall c :: 0 <= c < |t.processorMap| ==> GroupsBelow(t.processorMap[c], |t.groupMap|)
    ensures CoresKnown(t.processorMap, t.groupMap)
  {
    forall c, i | 0 <= c < |t.processorMap| && 0 <= i < |t.processorMap[c]|
      ensures t.processorMap[c][i].second < |t.groupMap|
    {
      var m := t.processorMap[c][i];
      var j := FlattenMember(t.processorMap, c, i);
      UsedGroup(Flatten(t.processorMap), j);
      assert m.second < n;
      assert Table(Flatten(t.processorMap), n)[m.second].mask != 0;
    }
  }

  /** The topology read from disjoint siblings meets what the core strategy asks for. */
  lemma ReadCoresWellFormed(t: Topology, n: nat)
    requires TrimmedTable(t.groupMap, t.processorMap, n) && DisjointMaps(t.processorMap)
    requires forall c :: 0 <= c < |t.processorMap| ==> t.processorMap[c] != [] && GroupsBelow(t.processorMap[c], n)
    ensures t.CoresWellFormed()
  {
    UsedGroupsKept(t, n);
  }

  /** The CPUs of every group are its lowest bits. */
  ghost predicate Contiguous(groupMap: seq<CoreMask>) {
    forall g, k: nat :: 0 <= g < |groupMap| && Bit(groupMap[g].mask, k) ==> k < groupMap[g].second
  }

  /** Every bit of the masks stands for a CPU number of its group. */
  ghost predicate Fits(masks: MaskList, groupMap: seq<CoreMask>) {
    forall i, k: nat :: 0 <= i < |masks| && Bit(masks[i].mask, k) ==>
      masks[i].second < |groupMap| && k < groupMap[masks[i].second].second
  }

  lemma {:induction false} CoreListSource(masks: MaskList, groupMap: seq<CoreMask>, v: nat) returns (p: nat, k: nat)
    requires GroupsKnown(masks, groupMap) && v in CoreList(masks, groupMap)
    ensures p < |masks| && Bit(masks[p].mask, k) && v == Offset(groupMap, masks[p].second) + k
  {
    var base := Offset(groupMap, masks[0].second);
    if v in Ones(masks[0].mask, base) {
      OnesMembers(masks[0].mask, base, v);
      p, k := 0, v - base;
    } else {
      p, k := CoreListSource(masks[1..], groupMap, v);
      p := p + 1;
    }
  }

  /** CPU numbers of two masks without a common CPU differ. */
  lemma NumbersDiffer(a: CoreMask, b: CoreMask, k: nat, l: nat, groupMap: seq<CoreMask>)
    requires a.second < |groupMap| && k < groupMap[a.second].second && Bit(a.mask, k)
    requires b.second < |groupMap| && l < groupMap[b.second].second && Bit(b.mask, l)
    requires a.second == b.second ==> DisjointBits(a.mask, b.mask)
    ensures Offset(groupMap, a.second) + k != Offset(groupMap, b.second) + l
  {
    if Offset(groupMap, a.second) + k == Offset(groupMap, b.second) + l {
      DecodingIsUnique(groupMap, a.second, k, b.second, l);
    }
  }

  lemma {:induction false} OneCoreDistinct(masks: MaskList, groupMap: seq<CoreMask>)
    requires GroupsKnown(masks, groupMap) && Fits(masks, groupMap)
    requires forall i, j :: 0 <= i < j < |masks| && masks[i].second == masks[j].second
               ==> DisjointBits(masks[i].mask, masks[j].mask)
    ensures Distinct(CoreList(masks, groupMap))
  {
    if masks != [] {
      var first, rest := Ones(masks[0].mask, Offset(groupMap, masks[0].second)), CoreList(masks[1..], groupMap);
      OneCoreDistinct(masks[1..], groupMap);
      OnesIncreasing(masks[0].mask, Offset(groupMap, masks[0].second));
      forall i, j | 0 <= i < |first| && 0 <= j < |rest|
        ensures first[i] != rest[j]
      {
        OnesMembers(masks[0].mask, Offset(groupMap, masks[0].second), first[i]);
        var p, l := CoreListSource(masks[1..], groupMap, rest[j]);
        assert masks[1..][p] == masks[p + 1];
        NumbersDiffer(masks[0], masks[p + 1], first[i] - Offset(groupMap, masks[0].second), l, groupMap);
      }
    }
  }

  /** Disjoint masks get disjoint CPU numbers: what both strategies ask for to give every thread its own CPU. */
  lemma MapsNumberCpusOnce(maps: seq<MaskList>, groupMap: seq<CoreMask>)
    requires CoresKnown(maps, groupMap) && DisjointMaps(maps)
    requires forall c :: 0 <= c < |maps| ==> Fits(maps[c], groupMap)
    ensures CoreStrategy.DisjointCores(Lists(maps, groupMap))
  {
    var lists := Lists(maps, groupMap);
    forall c, i, d, j | 0 <= c < |lists| && 0 <= d < |lists| && 0 <= i < |lists[c]| && 0 <= j < |lists[d]|
                        && lists[c][i] == lists[d][j]
      ensures c == d && i == j
    {
      if c == d {
        OneCoreDistinct(maps[c], groupMap);
      } else {
        var p, k := CoreListSource(maps[c], groupMap, lists[c][i]);
        var q, l := CoreListSource(maps[d], groupMap, lists[d][j]);
        NumbersDiffer(maps[c][p], maps[d][q], k, l, groupMap);
      }
    }
  }

  /** The cores of a topology with contiguous groups are numbered without overlap. */
  lemma ReadCoresNumberedOnce(t: Topology, n: nat)
    requires TrimmedTable(t.groupMap, t.processorMap, n) && DisjointMaps(t.processorMap) && Contiguous(t.groupMap)
    requires forall c :: 0 <= c < |t.processorMap| ==> t.processorMap[c] != [] && GroupsBelow(t.processorMap[c], n)
    ensures CoresKnown(t.processorMap, t.groupMap)
    ensures CoreStrategy.DisjointCores(Lists(t.processorMap, t.groupMap))
  {
    UsedGroupsKept(t, n);
    forall c, i, k: nat | 0 <= c < |t.processorMap| && 0 <= i < |t.processorMap[c]| && Bit(t.processorMap[c][i].mask, k)
      ensures k < t.groupMap[t.processorMap[c][i].second].second
    {
      var m := t.processorMap[c][i];
      var j := FlattenMember(t.processorMap, c, i);
      EntryBits(Flatten(t.processorMap), m.second, k);
      assert t.groupMap[m.second] == Entry(Flatten(t.processorMap), m.second);
    }
    MapsNumberCpusOnce(t.processorMap, t.groupMap);
  }

  lemma {:induction false} UniformListed(lists: seq<seq<nat>>, k: nat)
    requires forall c :: 0 <= c < |lists| ==> |lists[c]| == k
    ensures ListedCpus(lists) == |lists| * k
  {
    if lists != [] {
      UniformListed(lists[..|lists| - 1], k);
      assert |lists| * k == (|lists| - 1) * k + k;
    }
  }

  /** Different masks of two lists, or of one, share no CPU. */
  ghost predicate Separate(a: MaskList, b: MaskList) {
    && (forall p :: 0 <= p < |a| ==> 0 < a[p].mask < TWO_TO_THE_32)
    && (forall p, q :: 0 <= p < |a| && 0 <= q < |b| && (a != b || p != q) && a[p].second == b[q].second
                       ==> DisjointBits(a[p].mask, b[q].mask))
  }

  /** Lines that differ name no CPU in common. */
  ghost predicate SeparateLines(lines: seq<string>)
    requires Readable(lines)
  {
    forall i, j :: 0 <= i < |lines| && 0 <= j < |lines| ==>
      Separate(MasksOfLine(lines[i]).masks, MasksOfLine(lines[j]).masks)
  }

  lemma SeparateCores(lines: seq<string>, maps: seq<MaskList>)
    requires Readable(lines) && SeparateLines(lines) && HoldsLines(maps, lines)
    ensures DisjointMaps(maps)
  {
    forall c, d | 0 <= c < |maps| && 0 <= d < |maps|
      ensures Separate(maps[c], maps[d])
    {
      var k :| 0 <= k < |lines| && MasksOfLine(lines[k]) == MaskLine.Masks(maps[c]);
      var l :| 0 <= l < |lines| && MasksOfLine(lines[l]) == MaskLine.Masks(maps[d]);
      assert Separate(MasksOfLine(lines[k]).masks, MasksOfLine(lines[l]).masks);
    }
    SeparateIsDisjoint(maps);
  }

  lemma SeparateIsDisjoint(maps: seq<MaskList>)
    requires Distinct(maps) && forall c, d :: 0 <= c < |maps| && 0 <= d < |maps| ==> Separate(maps[c], maps[d])
    ensures DisjointMaps(maps)
  {
    forall c, i | 0 <= c < |maps| && 0 <= i < |maps[c]|
      ensures 0 < maps[c][i].mask < TWO_TO_THE_32
    {
      assert Separate(maps[c], maps[c]);
    }
    forall c, i, d, j | 0 <= c < |maps| && 0 <= i < |maps[c]| && 0 <= d < |maps| && 0 <= j < |maps[d]|
                        && (c != d || i != j) && maps[c][i].second == maps[d][j].second
      ensures DisjointBits(maps[c][i].mask, maps[d][j].mask)
    {
      assert Separate(maps[c], maps[d]);
      assert c != d ==> maps[c] != maps[d];
    }
  }

  /** The cores read from the lines are not empty, and each is the list of some line. */
  lemma CoresOfLines(t: Topology, siblings: seq<string>, caches: seq<string>)
    requires ReadFrom(t, siblings, caches)
    ensures t.processorMap != []
    ensures forall c :: 0 <= c < |t.processorMap| ==>
              t.processorMap[c] != [] && GroupsBelow(t.processorMap[c], |siblings|)
  {
    CoresNameGroups(siblings, t.processorMap, |siblings|);
    var l :| 0 <= l < |siblings| && NonZero(MasksOfLine(siblings[l]).masks);
    forall c | 0 <= c < |t.processorMap|
      ensures t.processorMap[c] != []
    {
      var i :| 0 <= i < |siblings| && MasksOfLine(siblings[i]) == MaskLine.Masks(t.processorMap[c]);
    }
  }

  /** Every line names k CPUs. */
  ghost predicate EqualLines(lines: seq<string>, k: nat)
    requires Readable(lines)
  {
    forall i :: 0 <= i < |lines| ==> TotalCount(MasksOfLine(lines[i]).masks) == k
  }

  lemma EqualLinesEqualCores(lines: seq<string>, maps: seq<MaskList>, k: nat)
    requires Readable(lines) && HoldsLines(maps, lines) && EqualLines(lines, k)
    ensures forall c :: 0 <= c < |maps| ==> TotalCount(maps[c]) == k
  {
    forall c | 0 <= c < |maps|
      ensures TotalCount(maps[c]) == k
    {
      var i :| 0 <= i < |lines| && MasksOfLine(lines[i]) == MaskLine.Masks(maps[c]);
      assert TotalCount(MasksOfLine(lines[i]).masks) == k;
    }
  }

  /** From the lines to the pins: on a machine whose cores share no CPU and have k CPUs each, numbered without
      holes, the core strategy pins as many threads as there are CPUs to pairwise different CPUs, and leaves no
      CPU out. */
  lemma CoreStrategyCoversMachine(t: Topology, siblings: seq<string>, caches: seq<string>, k: nat)
    requires ReadFrom(t, siblings, caches) && SeparateLines(siblings) && Contiguous(t.groupMap) && k >= 1
    requires EqualLines(siblings, k)
    ensures t.CoresWellFormed() && CoresKnown(t.processorMap, t.groupMap)
    ensures var lists := Lists(t.processorMap, t.groupMap);
            var cpus := Offset(t.groupMap, |t.groupMap|);
            && CoreStrategy.Populated(lists)
            && Distinct(CoreStrategy.Cpus(CoreStrategy.Schedule(lists, cpus)))
            && forall c, j :: 0 <= c < |lists| && 0 <= j < |lists[c]| ==>
                 lists[c][j] in CoreStrategy.Cpus(CoreStrategy.Schedule(lists, cpus))
  {
    CoresOfLines(t, siblings, caches);
    SeparateCores(siblings, t.processorMap);
    ReadCoresWellFormed(t, |siblings|);
    EqualLinesEqualCores(siblings, t.processorMap, k);
    EqualCoresCovered(t, |siblings|, k);
  }

  lemma EqualCoresCovered(t: Topology, n: nat, k: nat)
    requires TrimmedTable(t.groupMap, t.processorMap, n) && DisjointMaps(t.processorMap) && Contiguous(t.groupMap)
    requires forall c :: 0 <= c < |t.processorMap| ==> t.processorMap[c] != [] && GroupsBelow(t.processorMap[c], n)
    requires t.processorMap != [] && k >= 1
    requires forall c :: 0 <= c < |t.processorMap| ==> TotalCount(t.processorMap[c]) == k
    ensures CoresKnown(t.processorMap, t.groupMap)
    ensures var lists := Lists(t.processorMap, t.groupMap);
            var cpus := Offset(t.groupMap, |t.groupMap|);
            && CoreStrategy.Populated(lists)
            && Distinct(CoreStrategy.Cpus(CoreStrategy.Schedule(lists, cpus)))
            && forall c, j :: 0 <= c < |lists| && 0 <= j < |lists[c]| ==>
                 lists[c][j] in CoreStrategy.Cpus(CoreStrategy.Schedule(lists, cpus))
  {
    ReadCoresNumberedOnce(t, n);
    TopologyConservesCpus(t, n);
    var lists := Lists(t.processorMap, t.groupMap);
    forall c | 0 <= c < |lists|
      ensures |lists[c]| == k
    {
      CoreListLength(t.processorMap[c], t.groupMap);
    }
    UniformListed(lists, k);
    CoreStrategy.FirstPassCoversAll(lists, k);
  }

  /** Disjoint caches are what the spread strategy asks for. */
  lemma CachesNumberedOnce(t: Topology)
    requires t.CachesKnown() && DisjointMaps(t.cacheMap)
    requires forall c :: 0 <= c < |t.cacheMap| ==> t.cacheMap[c] != [] && Fits(t.cacheMap[c], t.groupMap)
    ensures Spread.DisjointCaches(Lists(t.cacheMap, t.groupMap))
  {
    MapsNumberCpusOnce(t.cacheMap, t.groupMap);
    forall c | 0 <= c < |t.cacheMap|
      ensures CoreList(t.cacheMap[c], t.groupMap) != []
    {
      CoreListNonEmpty(t.cacheMap[c], t.groupMap);
    }
  }
}
