// The core strategy: rounds over the physical cores, one CPU of each core per round.
// A core with k CPUs emits them in k rounds, then sits out one round and starts again.
module CoreStrategy {
  import opened Bits
  import opened CoreLists
  import Split

  /** One pinned thread: the core it was taken from and the CPU. */
  datatype Pin = Pin(core: nat, cpu: nat)

  ghost predicate Populated(lists: seq<seq<nat>>) {
    lists != [] && forall c :: 0 <= c < |lists| ==> lists[c] != []
  }

  /** Where a core with k CPUs stands before round r: its next CPU, or k when it is about to sit out. */
  function Turn(k: nat, r: nat): (j: nat)
    ensures j <= k
  {
    if r == 0 || Turn(k, r - 1) == k then 0 else Turn(k, r - 1) + 1
  }

  /** How many CPUs a core with k CPUs has emitted before round r. */
  function Emitted(k: nat, r: nat): nat {
    if r == 0 then 0 else Emitted(k, r - 1) + if Turn(k, r - 1) < k then 1 else 0
  }

  /** What core c emits in round r. */
  function Emission(lists: seq<seq<nat>>, r: nat, c: nat): seq<Pin>
    requires c < |lists|
  {
    var j := Turn(|lists[c]|, r);
    if j < |lists[c]| then [Pin(c, lists[c][j])] else []
  }

  /** What cores 0 .. c - 1 emit in round r. */
  function RoundPrefix(lists: seq<seq<nat>>, r: nat, c: nat): seq<Pin>
    requires c <= |lists|
  {
    if c == 0 then [] else RoundPrefix(lists, r, c - 1) + Emission(lists, r, c - 1)
  }

  function Round(lists: seq<seq<nat>>, r: nat): seq<Pin> {
    RoundPrefix(lists, r, |lists|)
  }

  /** Everything emitted in the first n rounds. */
  function Rounds(lists: seq<seq<nat>>, n: nat): seq<Pin> {
    if n == 0 then [] else Rounds(lists, n - 1) + Round(lists, n - 1)
  }

  /** The pins of t threads: the first t of all rounds. */
  function Schedule(lists: seq<seq<nat>>, t: nat): (s: seq<Pin>)
    requires Populated(lists)
    ensures |s| == t
  {
    EnoughRounds(lists, t);
    Rounds(lists, 2 * t)[..t]
  }

  function Cpus(s: seq<Pin>): (r: seq<nat>)
    ensures |r| == |s|
  {
    seq(|s|, i requires 0 <= i < |s| => s[i].cpu)
  }

  lemma CpusConcat(a: seq<Pin>, b: seq<Pin>)
    ensures Cpus(a + b) == Cpus(a) + Cpus(b)
  {
  }

  // ----- progress -----

  lemma {:induction false} RoundPrefixGrows(lists: seq<seq<nat>>, r: nat, b: nat, c: nat)
    requires b <= c <= |lists|
    ensures RoundPrefix(lists, r, b) <= RoundPrefix(lists, r, c)
  {
    if b < c { RoundPrefixGrows(lists, r, b, c - 1); }
  }

  /** A round that emits nothing is followed by one that does. */
  lemma EmptyRoundThenFull(lists: seq<seq<nat>>, r: nat)
    requires Populated(lists)
    ensures Round(lists, r) != [] || Round(lists, r + 1) != []
  {
    RoundPrefixGrows(lists, r, 1, |lists|);
    RoundPrefixGrows(lists, r + 1, 1, |lists|);
    assert RoundPrefix(lists, r, 0) == [] == RoundPrefix(lists, r + 1, 0);
    assert Emission(lists, r, 0) != [] || Emission(lists, r + 1, 0) != [];
  }

  lemma {:induction false} EnoughRounds(lists: seq<seq<nat>>, t: nat)
    requires Populated(lists)
    ensures |Rounds(lists, 2 * t)| >= t
  {
    if t > 0 {
      EnoughRounds(lists, t - 1);
      EmptyRoundThenFull(lists, 2 * t - 2);
      assert Rounds(lists, 2 * t) == Rounds(lists, 2 * t - 2) + Round(lists, 2 * t - 2) + Round(lists, 2 * t - 1);
    }
  }

  lemma {:induction false} RoundsGrow(lists: seq<seq<nat>>, m: nat, n: nat)
    requires m <= n
    ensures Rounds(lists, m) <= Rounds(lists, n)
  {
    if m < n { RoundsGrow(lists, m, n - 1); }
  }

  /** Any number of rounds that is enough gives the same schedule. */
  lemma ScheduleFromRounds(lists: seq<seq<nat>>, t: nat, n: nat)
    requires Populated(lists) && |Rounds(lists, n)| >= t
    ensures Schedule(lists, t) == Rounds(lists, n)[..t]
  {
    EnoughRounds(lists, t);
    if n <= 2 * t {
      RoundsGrow(lists, n, 2 * t);
    } else {
      RoundsGrow(lists, 2 * t, n);
    }
  }

  /** The first t CPUs of any number of rounds are those of the schedule. */
  lemma ScheduledCpus(lists: seq<seq<nat>>, t: nat, n: nat, cpus: seq<nat>)
    requires Populated(lists) && |cpus| == t && cpus <= Cpus(Rounds(lists, n))
    ensures cpus == Cpus(Schedule(lists, t))
  {
    ScheduleFromRounds(lists, t, n);
    assert cpus == Cpus(Rounds(lists, n))[..t];
  }

  /** A vector extended by what cores 0 .. c - 1 emit in round r. */
  function Extended(lists: seq<seq<nat>>, before: seq<nat>, r: nat, c: nat): seq<nat>
    requires c <= |lists|
  {
    if c == 0 then before
    else
      var j := Turn(|lists[c - 1]|, r);
      Extended(lists, before, r, c - 1) + if j < |lists[c - 1]| then [lists[c - 1][j]] else []
  }

  lemma {:induction false} ExtendedByRound(lists: seq<seq<nat>>, before: seq<nat>, r: nat, c: nat)
    requires c <= |lists|
    ensures Extended(lists, before, r, c) == before + Cpus(RoundPrefix(lists, r, c))
  {
    if c > 0 {
      ExtendedByRound(lists, before, r, c - 1);
      CpusConcat(RoundPrefix(lists, r, c - 1), Emission(lists, r, c - 1));
    }
  }

  /** A round cut short after core c leaves a prefix of all rounds. */
  lemma CutRound(lists: seq<seq<nat>>, r: nat, c: nat, before: seq<nat>)
    requires c <= |lists| && before == Cpus(Rounds(lists, r))
    ensures Extended(lists, before, r, c) <= Cpus(Rounds(lists, r + 1))
    ensures Extended(lists, before, r, |lists|) == Cpus(Rounds(lists, r + 1))
  {
    var all, cut := Round(lists, r), RoundPrefix(lists, r, c);
    RoundPrefixGrows(lists, r, c, |lists|);
    assert all == cut + all[|cut|..];
    CpusConcat(cut, all[|cut|..]);
    CpusConcat(Rounds(lists, r), all);
    ExtendedByRound(lists, before, r, c);
    ExtendedByRound(lists, before, r, |lists|);
  }

  /** A round that emits nothing leaves the vector as it was. */
  lemma EmptyExtension(lists: seq<seq<nat>>, before: seq<nat>, r: nat)
    ensures |Extended(lists, before, r, |lists|)| == |before| + |Round(lists, r)|
  {
    ExtendedByRound(lists, before, r, |lists|);
  }

  // ----- what one core emits -----

  /** The CPUs core c emitted among the first n pins, in order. */
  function Own(s: seq<Pin>, n: nat, c: nat): seq<nat>
    requires n <= |s|
  {
    if n == 0 then [] else Own(s, n - 1, c) + if s[n - 1].core == c then [s[n - 1].cpu] else []
  }

  function Project(s: seq<Pin>, c: nat): seq<nat> {
    Own(s, |s|, c)
  }

  /** The first n entries of the endless repetition of a list. */
  function Cyclic(cpus: seq<nat>, n: nat): (s: seq<nat>)
    requires cpus != []
    ensures |s| == n
  {
    if n == 0 then [] else Cyclic(cpus, n - 1) + [cpus[Turn(|cpus| - 1, n - 1)]]
  }

  lemma {:induction false} OwnOfPrefix(s: seq<Pin>, t: seq<Pin>, n: nat, c: nat)
    requires n <= |s| <= |t| && forall i :: 0 <= i < |s| ==> s[i] == t[i]
    ensures Own(s, n, c) == Own(t, n, c)
  {
    if n > 0 { OwnOfPrefix(s, t, n - 1, c); }
  }

  lemma {:induction false} OwnOfConcat(a: seq<Pin>, b: seq<Pin>, n: nat, c: nat)
    requires n <= |b|
    ensures Own(a + b, |a| + n, c) == Own(a, |a|, c) + Own(b, n, c)
  {
    if n == 0 {
      OwnOfPrefix(a, a + b, |a|, c);
    } else {
      OwnOfConcat(a, b, n - 1, c);
    }
  }

  lemma ProjectConcat(a: seq<Pin>, b: seq<Pin>, c: nat)
    ensures Project(a + b, c) == Project(a, c) + Project(b, c)
  {
    OwnOfConcat(a, b, |b|, c);
  }

  lemma ProjectEmission(lists: seq<seq<nat>>, r: nat, b: nat, c: nat)
    requires b < |lists| && c < |lists|
    ensures Project(Emission(lists, r, b), c) == if c == b then Cpus(Emission(lists, r, c)) else []
  {
    var s := Emission(lists, r, b);
    assert Own(s, 0, c) == [];
  }

  lemma ProjectRoundStep(lists: seq<seq<nat>>, r: nat, b: nat, c: nat)
    requires 1 <= b <= |lists| && c < |lists|
    ensures c == b - 1 ==>
              Project(RoundPrefix(lists, r, b), c)
              == Project(RoundPrefix(lists, r, b - 1), c) + Cpus(Emission(lists, r, c))
    ensures c != b - 1 ==> Project(RoundPrefix(lists, r, b), c) == Project(RoundPrefix(lists, r, b - 1), c)
  {
    var front, last := RoundPrefix(lists, r, b - 1), Emission(lists, r, b - 1);
    assert RoundPrefix(lists, r, b) == front + last;
    ProjectConcat(front, last, c);
    ProjectEmission(lists, r, b - 1, c);
  }

  lemma {:induction false} ProjectRoundPrefix(lists: seq<seq<nat>>, r: nat, b: nat, c: nat)
    requires b <= |lists| && c < |lists|
    ensures c < b ==> Project(RoundPrefix(lists, r, b), c) == Cpus(Emission(lists, r, c))
    ensures c >= b ==> Project(RoundPrefix(lists, r, b), c) == []
  {
    if b == 0 {
      assert RoundPrefix(lists, r, 0) == [];
    } else {
      ProjectRoundPrefix(lists, r, b - 1, c);
      ProjectRoundStep(lists, r, b, c);
    }
  }

  lemma ProjectRounds(lists: seq<seq<nat>>, r: nat, c: nat)
    requires c < |lists| && r >= 1
    ensures Project(Rounds(lists, r), c) == Project(Rounds(lists, r - 1), c) + Cpus(Emission(lists, r - 1, c))
  {
    ProjectConcat(Rounds(lists, r - 1), Round(lists, r - 1), c);
    ProjectRoundPrefix(lists, r - 1, |lists|, c);
  }

  /** The CPU a core emits next is the one its cycle has reached. */
  lemma {:induction false} CyclePosition(k: nat, r: nat)
    requires k >= 1
    ensures Turn(k - 1, Emitted(k, r)) == if Turn(k, r) == k then 0 else Turn(k, r)
  {
    if r > 0 { CyclePosition(k, r - 1); }
  }

  lemma EmissionContinuesCycle(lists: seq<seq<nat>>, r: nat, c: nat)
    requires c < |lists| && lists[c] != [] && r >= 1
    ensures var k := |lists[c]|;
            Cyclic(lists[c], Emitted(k, r)) == Cyclic(lists[c], Emitted(k, r - 1)) + Cpus(Emission(lists, r - 1, c))
  {
    CyclePosition(|lists[c]|, r - 1);
  }

  /** After r rounds, a core with k CPUs has emitted Emitted(k, r) entries of its cycle, whatever the other cores. */
  lemma {:induction false} CoreCyclesThrough(lists: seq<seq<nat>>, r: nat, c: nat)
    requires c < |lists| && lists[c] != []
    ensures Project(Rounds(lists, r), c) == Cyclic(lists[c], Emitted(|lists[c]|, r))
  {
    if r == 0 {
      assert Rounds(lists, 0) == [];
    } else {
      CoreCyclesThrough(lists, r - 1, c);
      ProjectRounds(lists, r, c);
      EmissionContinuesCycle(lists, r, c);
    }
  }

  lemma {:induction false} CyclicEntry(cpus: seq<nat>, n: nat, i: nat)
    requires cpus != [] && i < n
    ensures Cyclic(cpus, n)[i] == cpus[Turn(|cpus| - 1, i)]
  {
    if i < n - 1 { CyclicEntry(cpus, n - 1, i); }
  }

  lemma {:induction false} CyclicPrefix(cpus: seq<nat>, m: nat, n: nat)
    requires cpus != [] && m <= n
    ensures Cyclic(cpus, m) == Cyclic(cpus, n)[..m]
  {
    if m < n { CyclicPrefix(cpus, m, n - 1); }
  }

  /** The two counters in closed form. */
  lemma {:induction false} TurnAndEmitted(k: nat, r: nat)
    ensures Turn(k, r) == r % (k + 1) && Emitted(k, r) == r - r / (k + 1)
  {
    var q := TurnQuotient(k, r);
    Split.QuotientUnique(r, k + 1, q, Turn(k, r));
  }

  lemma {:induction false} TurnQuotient(k: nat, r: nat) returns (q: nat)
    ensures r == (k + 1) * q + Turn(k, r) && Emitted(k, r) == r - q
  {
    if r == 0 {
      q := 0;
    } else {
      var p := TurnQuotient(k, r - 1);
      if Turn(k, r - 1) == k {
        q := p + 1;
        assert (k + 1) * q == (k + 1) * p + (k + 1);
      } else {
        q := p;
      }
    }
  }

  /** The same in closed form: after r rounds, r - r / (k + 1) entries, the i-th being CPU i mod k. */
  lemma CoreCycles(lists: seq<seq<nat>>, r: nat, c: nat)
    requires c < |lists| && lists[c] != []
    ensures var own := Project(Rounds(lists, r), c);
            && |own| == r - r / (|lists[c]| + 1)
            && forall i :: 0 <= i < |own| ==> own[i] == lists[c][i % |lists[c]|]
  {
    CoreCyclesThrough(lists, r, c);
    TurnAndEmitted(|lists[c]|, r);
    forall i: nat | i < Emitted(|lists[c]|, r)
      ensures Project(Rounds(lists, r), c)[i] == lists[c][i % |lists[c]|]
    {
      CyclicEntry(lists[c], Emitted(|lists[c]|, r), i);
      TurnAndEmitted(|lists[c]| - 1, i);
    }
  }

  /** On every topology, what a core contributes to t pins is a prefix of its endlessly repeated CPU list. */
  lemma CorePrefixOfCycle(lists: seq<seq<nat>>, t: nat, c: nat)
    requires Populated(lists) && c < |lists|
    ensures var own := Project(Schedule(lists, t), c); own == Cyclic(lists[c], |own|)
  {
    EnoughRounds(lists, t);
    var all := Rounds(lists, 2 * t);
    CoreCyclesThrough(lists, 2 * t, c);
    assert all == all[..t] + all[t..];
    ProjectConcat(all[..t], all[t..], c);
    var own := Project(all[..t], c);
    CyclicPrefix(lists[c], |own|, Emitted(|lists[c]|, 2 * t));
  }

  // ----- equally sized cores -----

  ghost predicate Uniform(lists: seq<seq<nat>>, k: nat) {
    lists != [] && k >= 1 && forall c :: 0 <= c < |lists| ==> |lists[c]| == k
  }

  /** CPU j of every core. */
  function Row(lists: seq<seq<nat>>, k: nat, j: nat): (s: seq<Pin>)
    requires Uniform(lists, k) && j < k
    ensures |s| == |lists|
  {
    seq(|lists|, c requires 0 <= c < |lists| => Pin(c, lists[c][j]))
  }

  /** The first e rows, starting over after the last CPU. */
  function Rows(lists: seq<seq<nat>>, k: nat, e: nat): seq<Pin>
    requires Uniform(lists, k)
  {
    if e == 0 then [] else Rows(lists, k, e - 1) + Row(lists, k, Turn(k - 1, e - 1))
  }

  lemma {:induction false} UniformRound(lists: seq<seq<nat>>, k: nat, r: nat, c: nat)
    requires Uniform(lists, k) && c <= |lists|
    ensures RoundPrefix(lists, r, c) == if Turn(k, r) < k then Row(lists, k, Turn(k, r))[..c] else []
  {
    if c > 0 { UniformRound(lists, k, r, c - 1); }
  }

  lemma {:induction false} UniformRounds(lists: seq<seq<nat>>, k: nat, r: nat)
    requires Uniform(lists, k)
    ensures Rounds(lists, r) == Rows(lists, k, Emitted(k, r))
  {
    if r > 0 {
      UniformRounds(lists, k, r - 1);
      UniformStep(lists, k, r - 1);
    }
  }

  lemma UniformStep(lists: seq<seq<nat>>, k: nat, r: nat)
    requires Uniform(lists, k)
    ensures Rows(lists, k, Emitted(k, r + 1)) == Rows(lists, k, Emitted(k, r)) + Round(lists, r)
  {
    UniformRound(lists, k, r, |lists|);
    CyclePosition(k, r);
    if Turn(k, r) < k {
      var row := Row(lists, k, Turn(k, r));
      assert Emitted(k, r + 1) == Emitted(k, r) + 1 && Round(lists, r) == row[..|lists|] == row;
    } else {
      assert Emitted(k, r + 1) == Emitted(k, r) && Round(lists, r) == [];
    }
  }

  lemma {:induction false} RowsEntry(lists: seq<seq<nat>>, k: nat, e: nat, i: nat)
    requires Uniform(lists, k) && i < |Rows(lists, k, e)|
    ensures |Rows(lists, k, e)| == |lists| * e
    ensures Rows(lists, k, e)[i] == Pin(i % |lists|, lists[i % |lists|][i / |lists| % k])
  {
    RowsLength(lists, k, e);
    RowsLength(lists, k, e - 1);
    if i < |Rows(lists, k, e - 1)| {
      RowsEntry(lists, k, e - 1, i);
    } else {
      Split.QuotientUnique(i, |lists|, e - 1, i - |lists| * (e - 1));
      TurnAndEmitted(k - 1, e - 1);
    }
  }

  lemma {:induction false} RowsLength(lists: seq<seq<nat>>, k: nat, e: nat)
    requires Uniform(lists, k)
    ensures |Rows(lists, k, e)| == |lists| * e
    ensures e > 0 ==> |lists| * e == |lists| * (e - 1) + |lists|
  {
    if e > 0 { RowsLength(lists, k, e - 1); }
  }

  /** With n cores of k CPUs each, entry i is CPU (i div n) mod k of core i mod n. */
  lemma UniformSchedule(lists: seq<seq<nat>>, k: nat, t: nat)
    requires Uniform(lists, k)
    ensures Populated(lists)
    ensures forall i :: 0 <= i < t ==>
              Schedule(lists, t)[i] == Pin(i % |lists|, lists[i % |lists|][i / |lists| % k])
  {
    EnoughRounds(lists, t);
    UniformRounds(lists, k, 2 * t);
    forall i: nat | i < t
      ensures Schedule(lists, t)[i] == Pin(i % |lists|, lists[i % |lists|][i / |lists| % k])
    {
      RowsEntry(lists, k, Emitted(k, 2 * t), i);
    }
  }

  lemma ResiduesDiffer(n: nat, i: nat, j: nat)
    requires n >= 1 && i < j < i + n
    ensures i % n != j % n
  {
    var p, q := i / n, j / n;
    assert i == n * p + i % n && j == n * q + j % n;
    Split.MultiplyOrder(n, p, q);
    Split.MultiplyOrder(n, q, p);
  }

  /** Any n consecutive entries use n different cores. */
  lemma ConsecutiveCoresDiffer(lists: seq<seq<nat>>, k: nat, t: nat, i: nat, j: nat)
    requires Uniform(lists, k) && i < j < t && j < i + |lists|
    ensures Populated(lists)
    ensures Schedule(lists, t)[i].core != Schedule(lists, t)[j].core
  {
    UniformSchedule(lists, k, t);
    ResiduesDiffer(|lists|, i, j);
  }

  ghost predicate DisjointCores(lists: seq<seq<nat>>) {
    forall c, i, d, j ::
      (0 <= c < |lists| && 0 <= d < |lists| && 0 <= i < |lists[c]| && 0 <= j < |lists[d]|
       && lists[c][i] == lists[d][j]) ==> c == d && i == j
  }

  /** The first n * k entries hit every CPU, and none twice. */
  lemma FirstPassCoversAll(lists: seq<seq<nat>>, k: nat)
    requires Uniform(lists, k) && DisjointCores(lists)
    ensures Populated(lists)
    ensures Distinct(Cpus(Schedule(lists, |lists| * k)))
    ensures forall c, j :: 0 <= c < |lists| && 0 <= j < k ==> lists[c][j] in Cpus(Schedule(lists, |lists| * k))
  {
    var n, t := |lists|, |lists| * k;
    UniformSchedule(lists, k, t);
    var s := Schedule(lists, t);
    forall a, b | 0 <= a < b < t
      ensures s[a].cpu != s[b].cpu
    {
      EntriesDiffer(lists, k, a, b);
    }
    forall c, j | 0 <= c < n && 0 <= j < k
      ensures lists[c][j] in Cpus(s)
    {
      CpuHit(lists, k, c, j);
    }
  }

  lemma EntriesDiffer(lists: seq<seq<nat>>, k: nat, a: nat, b: nat)
    requires Uniform(lists, k) && DisjointCores(lists) && a < b < |lists| * k
    ensures lists[a % |lists|][a / |lists| % k] != lists[b % |lists|][b / |lists| % k]
  {
    var n := |lists|;
    QuotientBelow(a, n, k);
    QuotientBelow(b, n, k);
    assert a == n * (a / n) + a % n && b == n * (b / n) + b % n;
  }

  lemma CpuHit(lists: seq<seq<nat>>, k: nat, c: nat, j: nat)
    requires Uniform(lists, k) && c < |lists| && j < k
    ensures Populated(lists) && lists[c][j] in Cpus(Schedule(lists, |lists| * k))
  {
    var n, t := |lists|, |lists| * k;
    var i := n * j + c;
    UniformSchedule(lists, k, t);
    Split.QuotientUnique(i, n, j, c);
    Split.MultiplyOrder(n, j, k);
    Split.QuotientUnique(j, k, 0, j);
    assert Cpus(Schedule(lists, t))[i] == lists[c][j];
  }

  lemma QuotientBelow(a: nat, n: nat, k: nat)
    requires n >= 1 && k >= 1 && a < n * k
    ensures a / n % k == a / n < k
  {
    var q := a / n;
    assert a == n * q + a % n;
    assert n * k == n * (k - 1) + n;
    Split.MultiplyOrder(n, k - 1, q);
    Split.QuotientUnique(q, k, 0, q);
  }

  // ----- the cursors -----

  /** A core as the topology describes it: at least one mask, and no empty mask. */
  ghost predicate WellFormedCore(masks: seq<CoreMask>, groupMap: seq<CoreMask>) {
    masks != [] && GroupsKnown(masks, groupMap) && forall i :: 0 <= i < |masks| ==> masks[i].mask > 0
  }

  /** The CPUs a cursor has yet to emit: the rest of its current mask, then the masks from maskIndex on. */
  function Remaining(pMap: CoreMask, maskIndex: nat, masks: seq<CoreMask>, groupMap: seq<CoreMask>): seq<nat>
    requires pMap.second <= |groupMap| && maskIndex <= |masks| && GroupsKnown(masks, groupMap)
  {
    Ones(pMap.mask, Offset(groupMap, pMap.second)) + CoreList(masks[maskIndex..], groupMap)
  }

  lemma RemainingEmpty(pMap: CoreMask, maskIndex: nat, masks: seq<CoreMask>, groupMap: seq<CoreMask>)
    requires pMap.second <= |groupMap| && maskIndex <= |masks| && WellFormedCore(masks, groupMap)
    ensures Remaining(pMap, maskIndex, masks, groupMap) == [] <==> pMap.mask == 0 && maskIndex == |masks|
  {
    if pMap.mask > 0 {
      TakeLowest(pMap, Offset(groupMap, pMap.second));
    } else if maskIndex < |masks| {
      CoreListNonEmpty(masks[maskIndex..], groupMap);
    }
  }

  /** Moves a cursor to its next non-empty mask; at the end of the last mask it reports a skip and rewinds. */
  method SkipMask(pMap: CoreMask, maskIndex: nat, masks: seq<CoreMask>, ghost groupMap: seq<CoreMask>)
      returns (pMap': CoreMask, maskIndex': nat, skip: bool)
    requires pMap.second <= |groupMap| && maskIndex <= |masks| && WellFormedCore(masks, groupMap)
    ensures pMap'.second <= |groupMap| && maskIndex' <= |masks|
    ensures skip <==> Remaining(pMap, maskIndex, masks, groupMap) == []
    ensures Remaining(pMap', maskIndex', masks, groupMap)
         == if skip then CoreList(masks, groupMap) else Remaining(pMap, maskIndex, masks, groupMap)
    ensures !skip ==> pMap'.mask > 0
  {
    RemainingEmpty(pMap, maskIndex, masks, groupMap);
    pMap', maskIndex', skip := pMap, maskIndex, false;
    if pMap.mask == 0 && maskIndex == |masks| {
      maskIndex' := 0;
      skip := true;
      assert masks[0..] == masks;
    } else if pMap.mask == 0 && maskIndex < |masks| {
      pMap' := masks[maskIndex];
      maskIndex' := maskIndex + 1;
      assert masks[maskIndex..] == [masks[maskIndex]] + masks[maskIndex + 1..];
    }
  }

  /** The cursor of core c stands where round r finds it. */
  ghost predicate CursorAt(pMap: CoreMask, maskIndex: nat, masks: seq<CoreMask>, groupMap: seq<CoreMask>, r: nat) {
    WellFormedCore(masks, groupMap) && pMap.second <= |groupMap| && maskIndex <= |masks| &&
    var cpus := CoreList(masks, groupMap);
    Remaining(pMap, maskIndex, masks, groupMap) == cpus[Turn(|cpus|, r)..]
  }

  lemma TailStep(cpus: seq<nat>, j: nat, x: nat, rest: seq<nat>)
    requires j <= |cpus| && cpus[j..] == [x] + rest
    ensures j < |cpus| && x == cpus[j] && rest == cpus[j + 1..]
  {
    assert |cpus[j..]| == 1 + |rest|;
    assert cpus[j..][0] == x;
    assert cpus[j..][1..] == rest;
  }

  /** Emits the lowest CPU of the current mask. */
  method EmitLowest(pMap: CoreMask, maskIndex: nat, masks: seq<CoreMask>, groupMap: seq<CoreMask>)
      returns (pMap': CoreMask, cpu: nat)
    requires pMap.second <= |groupMap| && maskIndex <= |masks| && GroupsKnown(masks, groupMap) && pMap.mask > 0
    ensures pMap'.second == pMap.second
    ensures Remaining(pMap, maskIndex, masks, groupMap) == [cpu] + Remaining(pMap', maskIndex, masks, groupMap)
  {
    TakeLowest(pMap, Offset(groupMap, pMap.second));
    var offset := CalculateOffset(pMap.second, groupMap);
    cpu := CoreNum(pMap) + offset;
    pMap' := UpdateMap(pMap, CoreNum(pMap));
  }

  /** One turn of one core: emits its next CPU, or sits out. */
  method TakeTurn(pMap: CoreMask, maskIndex: nat, masks: seq<CoreMask>, groupMap: seq<CoreMask>, ghost r: nat)
      returns (pMap': CoreMask, maskIndex': nat, out: seq<nat>)
    requires CursorAt(pMap, maskIndex, masks, groupMap, r)
    ensures CursorAt(pMap', maskIndex', masks, groupMap, r + 1)
    ensures var cpus := CoreList(masks, groupMap);
            out == if Turn(|cpus|, r) < |cpus| then [cpus[Turn(|cpus|, r)]] else []
  {
    var skip;
    pMap', maskIndex', skip := SkipMask(pMap, maskIndex, masks, groupMap);
    ghost var cpus := CoreList(masks, groupMap);
    if skip {
      out := [];
      assert cpus[0..] == cpus;
    } else {
      var cpu;
      pMap', cpu := EmitLowest(pMap', maskIndex', masks, groupMap);
      out := [cpu];
      TailStep(cpus, Turn(|cpus|, r), cpu, Remaining(pMap', maskIndex', masks, groupMap));
    }
  }
}
