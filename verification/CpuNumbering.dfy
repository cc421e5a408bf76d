// What the masks of a line mean: the CPU ids of the line, when the lower groups are full.
module CpuNumbering {
  import opened Bits
  import opened CoreLists
  import opened Text
  import opened MaskLine
  import Hex

  /** The number a line denotes: its groups are digits in base 2^32, the lowest first. */
  function LineValue(values: seq<nat>): nat {
    if values == [] then 0 else values[0] + TWO_TO_THE_32 * LineValue(values[1..])
  }

  /** The sum of mask * 2^(32 * group). */
  function MaskSum(masks: seq<CoreMask>): nat {
    if masks == [] then 0 else masks[0].mask * Pow2(32 * masks[0].second) + MaskSum(masks[1..])
  }

  // ----- the masks of a line -----

  lemma FirstAndRest(values: seq<nat>)
    requires values != []
    ensures values == [values[0]] + values[1..]
  {
  }

  lemma {:induction false} MasksShape(values: seq<nat>, position: nat)
    requires Below32(values)
    ensures var ms := MasksOf(values, position);
            && (forall i :: 0 <= i < |ms| ==> 0 < ms[i].mask < TWO_TO_THE_32)
            && (forall i :: 0 <= i < |ms| ==> position <= ms[i].second < position + |values|)
            && (forall i, j :: 0 <= i < j < |ms| ==> ms[i].second < ms[j].second)
  {
    if values != [] {
      FirstAndRest(values);
      MasksOfStep(values[0], values[1..], position);
      MasksShape(values[1..], position + 1);
    }
  }

  lemma MaskSumConcat(value: nat, masks: seq<CoreMask>, position: nat)
    requires value < TWO_TO_THE_32
    ensures MaskSum(MaskOf(value, position) + masks) == value * Pow2(32 * position) + MaskSum(masks)
  {
    if value > 0 {
      assert ([CoreMask(value, position)] + masks)[1..] == masks;
    } else {
      assert [] + masks == masks;
    }
  }

  lemma {:induction false} MasksSumToValue(values: seq<nat>, position: nat)
    requires Below32(values)
    ensures MaskSum(MasksOf(values, position)) == LineValue(values) * Pow2(32 * position)
  {
    if values != [] {
      FirstAndRest(values);
      MasksOfStep(values[0], values[1..], position);
      MaskSumConcat(values[0], MasksOf(values[1..], position + 1), position);
      MasksSumToValue(values[1..], position + 1);
      Pow2Add(32, 32 * position);
      Pow2Values();
      Distribute(values[0], LineValue(values[1..]), Pow2(32 * position));
    }
  }

  lemma Distribute(a: nat, b: nat, p: nat)
    ensures (a + TWO_TO_THE_32 * b) * p == a * p + b * (TWO_TO_THE_32 * p)
  {
  }

  /** A well-formed line yields non-zero masks in strictly increasing groups, and they sum to its value. */
  lemma ParsedLineValue(groups: seq<string>)
    requires WellFormed(groups)
    ensures var parsed := Parse([], Join(groups, ","));
            && parsed.Masks?
            && (forall i :: 0 <= i < |parsed.masks| ==> parsed.masks[i].mask > 0)
            && (forall i, j :: 0 <= i < j < |parsed.masks| ==> parsed.masks[i].second < parsed.masks[j].second)
            && MaskSum(parsed.masks) == LineValue(GroupValues(groups))
  {
    ParseWellFormed([], groups);
    MasksShape(GroupValues(groups), 0);
    MasksSumToValue(GroupValues(groups), 0);
  }

  /** The digits of all groups, without the commas. */
  function Digits(groups: seq<string>): string {
    if groups == [] then "" else Digits(groups[..|groups| - 1]) + groups[|groups| - 1]
  }

  lemma {:induction false} DigitsConcat(a: string, b: string)
    requires Hex.AllHex(a) && Hex.AllHex(b)
    ensures Hex.DigitsValue(a + b) == Hex.DigitsValue(a) * Pow2(4 * |b|) + Hex.DigitsValue(b)
  {
    if b == "" {
      assert a + b == a;
    } else {
      var front, last := b[..|b| - 1], b[|b| - 1];
      assert (a + b)[..|a + b| - 1] == a + front;
      DigitsConcat(a, front);
      Hex.SixteenFold(4 * |front|);
      SixteenTimes(Hex.DigitsValue(a), Pow2(4 * |front|), Hex.DigitsValue(front));
    }
  }

  lemma SixteenTimes(a: nat, p: nat, b: nat)
    ensures 16 * (a * p + b) == a * (16 * p) + 16 * b
  {
  }

  lemma AppendGroup(digits: string, group: string)
    requires Hex.AllHex(digits) && Hex.AllHex(group) && (|group| == 8 || digits == "")
    ensures Hex.DigitsValue(digits + group) == Hex.DigitsValue(group) + TWO_TO_THE_32 * Hex.DigitsValue(digits)
  {
    if digits == "" {
      assert digits + group == group;
    } else {
      DigitsConcat(digits, group);
      Pow2Values();
      assert Pow2(4 * |group|) == TWO_TO_THE_32;
    }
  }

  /** When only the highest group may be short, the value of a line is the number its digits spell. */
  lemma {:induction false} LineValueOfDigits(groups: seq<string>)
    requires WellFormed(groups) && forall i :: 1 <= i < |groups| ==> |groups[i]| == 8
    ensures Hex.AllHex(Digits(groups)) && LineValue(GroupValues(groups)) == Hex.DigitsValue(Digits(groups))
  {
    if groups != [] {
      var front, last := groups[..|groups| - 1], groups[|groups| - 1];
      assert groups == front + [last];
      GroupValuesSnoc(front, last);
      LineValueSnoc(Hex.DigitsValue(last), GroupValues(front));
      LineValueOfDigits(front);
      AppendGroup(Digits(front), last);
    }
  }

  lemma LineValueSnoc(value: nat, values: seq<nat>)
    ensures LineValue([value] + values) == value + TWO_TO_THE_32 * LineValue(values)
  {
    assert ([value] + values)[1..] == values;
  }

  // ----- the CPU list of a line -----

  lemma HalveSum(lo: nat, hi: nat, p: nat)
    ensures (lo + 2 * p * hi) % 2 == lo % 2 && (lo + 2 * p * hi) / 2 == lo / 2 + p * hi
  {
    assert lo + 2 * p * hi == lo + 2 * (p * hi);
  }

  /** Enumerating the bits of lo + 2^n * hi enumerates those of lo, then those of hi. */
  lemma {:induction false} OnesOfGroups(lo: nat, hi: nat, n: nat, base: nat)
    requires lo < Pow2(n)
    ensures Ones(lo + Pow2(n) * hi, base) == Ones(lo, base) + Ones(hi, base + n)
  {
    if n == 0 {
      assert Ones(0, base) == [];
    } else {
      HalveSum(lo, hi, Pow2(n - 1));
      OnesOfGroups(lo / 2, hi, n - 1, base + 1);
      OnesUnfold(lo + Pow2(n) * hi, base);
      OnesUnfold(lo, base);
    }
  }

  lemma OnesOf32(lo: nat, hi: nat, base: nat)
    requires lo < TWO_TO_THE_32
    ensures Ones(lo + TWO_TO_THE_32 * hi, base) == Ones(lo, base) + Ones(hi, base + 32)
  {
    Pow2Values();
    OnesOfGroups(lo, hi, 32, base);
  }

  lemma OnesUnfold(x: nat, base: nat)
    ensures Ones(x, base) == (if x % 2 == 1 then [base] else []) + Ones(x / 2, base + 1)
  {
  }

  /** The CPUs of group g start at 32 * g. */
  ghost predicate NumberedBy32(groupMap: seq<CoreMask>, n: nat) {
    n <= |groupMap| + 1 && forall g :: 0 <= g < n ==> Offset(groupMap, g) == 32 * g
  }

  lemma CoreListOfMask(value: nat, masks: seq<CoreMask>, position: nat, groupMap: seq<CoreMask>)
    requires value < TWO_TO_THE_32 && position <= |groupMap| && GroupsKnown(masks, groupMap)
    ensures GroupsKnown(MaskOf(value, position) + masks, groupMap)
    ensures CoreList(MaskOf(value, position) + masks, groupMap)
         == Ones(value, Offset(groupMap, position)) + CoreList(masks, groupMap)
  {
    if value > 0 {
      assert ([CoreMask(value, position)] + masks)[1..] == masks;
    } else {
      assert [] + masks == masks;
    }
  }

  lemma {:induction false} CoreListOfMasks(values: seq<nat>, position: nat, groupMap: seq<CoreMask>)
    requires Below32(values) && NumberedBy32(groupMap, position + |values|)
    ensures GroupsKnown(MasksOf(values, position), groupMap)
    ensures CoreList(MasksOf(values, position), groupMap) == Ones(LineValue(values), 32 * position)
  {
    if values != [] {
      FirstAndRest(values);
      MasksOfStep(values[0], values[1..], position);
      CoreListOfMasks(values[1..], position + 1, groupMap);
      CoreListOfMask(values[0], MasksOf(values[1..], position + 1), position, groupMap);
      assert Offset(groupMap, position) == 32 * position;
      OnesOf32(values[0], LineValue(values[1..]), 32 * position);
    }
  }

  lemma NamedStep(value: nat, rest: seq<CoreMask>, position: nat, groupMap: seq<CoreMask>)
    requires value < TWO_TO_THE_32 && GroupsKnown(rest, groupMap)
    requires value > 0 ==> position < |groupMap| && Offset(groupMap, position) == 32 * position
    ensures GroupsKnown(MaskOf(value, position) + rest, groupMap)
    ensures CoreList(MaskOf(value, position) + rest, groupMap) == Ones(value, 32 * position) + CoreList(rest, groupMap)
  {
    if value > 0 {
      CoreListOfMask(value, rest, position, groupMap);
    } else {
      assert MaskOf(value, position) + rest == rest;
    }
  }

  lemma NamedRest(first: seq<CoreMask>, rest: seq<CoreMask>, n: nat)
    requires forall i :: 0 <= i < |first + rest| ==> (first + rest)[i].second < n
    ensures forall i :: 0 <= i < |first| ==> first[i].second < n
    ensures forall i :: 0 <= i < |rest| ==> rest[i].second < n
  {
    assert forall i :: 0 <= i < |first| ==> first[i] == (first + rest)[i];
    assert forall i :: 0 <= i < |rest| ==> rest[i] == (first + rest)[|first| + i];
  }

  /** The same when the line may have further groups, all of them zero. */
  lemma {:induction false} CoreListOfNamed(values: seq<nat>, position: nat, groupMap: seq<CoreMask>)
    requires Below32(values) && NumberedBy32(groupMap, |groupMap|)
    requires forall i :: 0 <= i < |MasksOf(values, position)| ==> MasksOf(values, position)[i].second < |groupMap|
    ensures GroupsKnown(MasksOf(values, position), groupMap)
    ensures CoreList(MasksOf(values, position), groupMap) == Ones(LineValue(values), 32 * position)
  {
    if values != [] {
      FirstAndRest(values);
      MasksOfStep(values[0], values[1..], position);
      NamedRest(MaskOf(values[0], position), MasksOf(values[1..], position + 1), |groupMap|);
      CoreListOfNamed(values[1..], position + 1, groupMap);
      OnesOf32(values[0], LineValue(values[1..]), 32 * position);
      if values[0] > 0 { assert MaskOf(values[0], position)[0].second == position; }
      NamedStep(values[0], MasksOf(values[1..], position + 1), position, groupMap);
    }
  }

  /** Group g alone holds one CPU. */
  function OneCpu(g: nat): (values: seq<nat>)
    ensures |values| == g + 1 && Below32(values)
  {
    if g == 0 then [1] else [0] + OneCpu(g - 1)
  }

  lemma {:induction false} OneCpuMasks(g: nat, position: nat)
    ensures MasksOf(OneCpu(g), position) == [CoreMask(1, position + g)]
  {
    if g == 0 {
      assert OneCpu(0)[1..] == [] && MasksOf([], position + 1) == [];
    } else {
      MasksOfStep(0, OneCpu(g - 1), position);
      OneCpuMasks(g - 1, position + 1);
    }
  }

  lemma {:induction false} OneCpuOnes(g: nat, base: nat)
    ensures Ones(LineValue(OneCpu(g)), base) == [base + 32 * g]
  {
    if g == 0 {
      assert Ones(1, base) == [base];
    } else {
      OneCpuOnes(g - 1, base + 32);
      LineValueSnoc(0, OneCpu(g - 1));
      OnesOf32(0, LineValue(OneCpu(g - 1)), base);
    }
  }

  ghost predicate NumbersLine(values: seq<nat>, groupMap: seq<CoreMask>)
    requires Below32(values)
  {
    GroupsKnown(MasksOf(values, 0), groupMap) && CoreList(MasksOf(values, 0), groupMap) == Ones(LineValue(values), 0)
  }

  /** CPU lists carry the ids of their lines exactly when every lower group holds 32 CPUs. */
  lemma NumberingIsExact(groupMap: seq<CoreMask>)
    requires groupMap != []
    ensures (forall values :: Below32(values) && |values| <= |groupMap| ==> NumbersLine(values, groupMap))
       <==> forall g :: 0 <= g < |groupMap| - 1 ==> groupMap[g].second == 32
  {
    if forall g :: 0 <= g < |groupMap| - 1 ==> groupMap[g].second == 32 {
      FullGroupsNumber(groupMap, |groupMap|);
      forall values | Below32(values) && |values| <= |groupMap|
        ensures NumbersLine(values, groupMap)
      {
        CoreListOfMasks(values, 0, groupMap);
      }
    } else {
      var g :| 0 <= g < |groupMap| - 1 && groupMap[g].second != 32;
      ShortGroupMisnumbers(groupMap, if Offset(groupMap, g) != 32 * g then g else g + 1);
    }
  }

  lemma ShortGroupMisnumbers(groupMap: seq<CoreMask>, g: nat)
    requires g < |groupMap| && Offset(groupMap, g) != 32 * g
    ensures !NumbersLine(OneCpu(g), groupMap)
  {
    OneCpuMasks(g, 0);
    OneCpuOnes(g, 0);
    CoreListOfMask(1, [], g, groupMap);
    assert Ones(1, Offset(groupMap, g)) == [Offset(groupMap, g)];
    assert [CoreMask(1, g)] + [] == [CoreMask(1, g)];
  }

  lemma {:induction false} FullGroupsNumber(groupMap: seq<CoreMask>, n: nat)
    requires n <= |groupMap| && forall g :: 0 <= g < n - 1 ==> groupMap[g].second == 32
    ensures NumberedBy32(groupMap, n)
  {
    if n > 0 {
      FullGroupsNumber(groupMap, n - 1);
    }
  }

  // ----- printing a CPU set and reading it back -----

  /** The mask with exactly the listed bits. */
  function MaskOfCpus(cpus: seq<nat>): nat {
    if cpus == [] then 0 else Or(Pow2(cpus[0]), MaskOfCpus(cpus[1..]))
  }

  lemma {:induction false} MaskOfCpusBits(cpus: seq<nat>, k: nat)
    ensures Bit(MaskOfCpus(cpus), k) <==> k in cpus
  {
    if cpus == [] {
      BitOfZero(k);
    } else {
      MaskOfCpusBits(cpus[1..], k);
      BitOr(Pow2(cpus[0]), MaskOfCpus(cpus[1..]), k);
      BitOfPow2(cpus[0], k);
      assert cpus == [cpus[0]] + cpus[1..];
    }
  }

  /** x in n groups of eight digits, the highest group first. */
  function PrintGroups(x: nat, n: nat): (groups: seq<string>)
    ensures |groups| == n && WellFormed(groups)
  {
    if n == 0 then []
    else PrintGroups(x / TWO_TO_THE_32, n - 1) + [Hex.Print(x % TWO_TO_THE_32, 8)]
  }

  lemma {:induction false} PrintedGroups(x: nat, n: nat)
    requires x < Pow2(32 * n)
    ensures |GroupValues(PrintGroups(x, n))| == n && LineValue(GroupValues(PrintGroups(x, n))) == x
  {
    GroupCount(PrintGroups(x, n));
    if n > 0 {
      var hi, lo := x / TWO_TO_THE_32, x % TWO_TO_THE_32;
      Pow2Add(32, 32 * (n - 1));
      Pow2Values();
      PrintedGroups(hi, n - 1);
      Hex.PrintedValue(lo, 8);
      GroupValuesSnoc(PrintGroups(hi, n - 1), Hex.Print(lo, 8));
      assert GroupValues(PrintGroups(x, n))[1..] == GroupValues(PrintGroups(hi, n - 1));
    }
  }

  lemma PrintedLine(x: nat, n: nat, groupMap: seq<CoreMask>)
    requires x < Pow2(32 * n)
    requires n <= |groupMap| && forall g :: 0 <= g < n - 1 ==> groupMap[g].second == 32
    ensures var parsed := Parse([], Join(PrintGroups(x, n), ","));
            parsed.Masks? && GroupsKnown(parsed.masks, groupMap) && CoreList(parsed.masks, groupMap) == Ones(x, 0)
  {
    PrintedGroups(x, n);
    ParseWellFormed([], PrintGroups(x, n));
    FullGroupsNumber(groupMap, n);
    CoreListOfMasks(GroupValues(PrintGroups(x, n)), 0, groupMap);
  }

  lemma MaskListsCpus(cpus: seq<nat>, n: nat)
    requires StrictlyIncreasing(cpus) && forall i :: 0 <= i < |cpus| ==> cpus[i] < n
    ensures MaskOfCpus(cpus) < Pow2(n) && Ones(MaskOfCpus(cpus), 0) == cpus
  {
    var x := MaskOfCpus(cpus);
    forall k: nat
      ensures Bit(x, k) <==> k in cpus
    {
      MaskOfCpusBits(cpus, k);
    }
    BoundFromBits(x, n);
    OnesUnique(x, 0, cpus);
  }

  /** Printing a set of CPU ids as a line, parsing it and listing its CPUs gives the ids back, in order. */
  lemma PrintParseList(cpus: seq<nat>, n: nat, groupMap: seq<CoreMask>)
    requires StrictlyIncreasing(cpus) && forall i :: 0 <= i < |cpus| ==> cpus[i] < 32 * n
    requires n <= |groupMap| && forall g :: 0 <= g < n - 1 ==> groupMap[g].second == 32
    ensures var parsed := Parse([], Join(PrintGroups(MaskOfCpus(cpus), n), ","));
            parsed.Masks? && GroupsKnown(parsed.masks, groupMap) && CoreList(parsed.masks, groupMap) == cpus
  {
    MaskListsCpus(cpus, 32 * n);
    PrintedLine(MaskOfCpus(cpus), n, groupMap);
  }
}
