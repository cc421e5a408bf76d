// Machine words as natural numbers, read bit by bit from the low end.  Affinity
// masks (64 bits wide), sibling masks parsed from text (32 bits wide) and the words
// of a BitMap all use these definitions, so every width is handled at once.
module Bits {

  const TWO_TO_THE_31: nat := 0x8000_0000
  const TWO_TO_THE_32: nat := 0x1_0000_0000
  const TWO_TO_THE_64: nat := 0x1_0000_0000_0000_0000

  type Word = w: nat | w < TWO_TO_THE_64

  function Pow2(n: nat): (r: nat)
    ensures r > 0
  {
    if n == 0 then 1 else 2 * Pow2(n - 1)
  }

  /** True iff bit k of x is one. */
  predicate Bit(x: nat, k: nat) {
    if k == 0 then x % 2 == 1 else Bit(x / 2, k - 1)
  }

  function And(x: nat, y: nat): nat {
    if x == 0 then 0
    else 2 * And(x / 2, y / 2) + if x % 2 == 1 && y % 2 == 1 then 1 else 0
  }

  function Or(x: nat, y: nat): nat {
    if x == 0 then y
    else 2 * Or(x / 2, y / 2) + if x % 2 == 1 || y % 2 == 1 then 1 else 0
  }

  /** The operator ~ on an n-bit word. */
  function Complement(x: nat, n: nat): nat
    requires x < Pow2(n)
  {
    Pow2(n) - 1 - x
  }

  /** Multiplication by -1 in n-bit wrapping arithmetic. */
  function Negate(x: nat, n: nat): nat
    requires x < Pow2(n)
  {
    if x == 0 then 0 else Pow2(n) - x
  }

  function Popcount(x: nat): nat {
    if x == 0 then 0 else x % 2 + Popcount(x / 2)
  }

  /** The index of the lowest one bit. */
  function Lowest(x: nat): nat
    requires x > 0
  {
    if x % 2 == 1 then 0 else 1 + Lowest(x / 2)
  }

  /** The integer part of the binary logarithm. */
  function Log2(x: nat): nat
    requires x > 0
  {
    if x == 1 then 0 else 1 + Log2(x / 2)
  }

  /** The positions of the one bits of x in ascending order, each shifted by base. */
  function Ones(x: nat, base: nat): seq<nat> {
    if x == 0 then []
    else (if x % 2 == 1 then [base] else []) + Ones(x / 2, base + 1)
  }

  ghost predicate StrictlyIncreasing(s: seq<int>) {
    forall i, j :: 0 <= i < j < |s| ==> s[i] < s[j]
  }

  ghost predicate Distinct<T>(s: seq<T>) {
    forall i, j :: 0 <= i < j < |s| ==> s[i] != s[j]
  }

  // ----- bits -----

  lemma Pow2Values()
    ensures Pow2(31) == TWO_TO_THE_31
    ensures Pow2(32) == TWO_TO_THE_32
    ensures Pow2(64) == TWO_TO_THE_64
  {
    assert Pow2(8) == 0x100;
    assert Pow2(16) == 0x1_0000;
    assert Pow2(24) == 0x100_0000;
    assert Pow2(31) == TWO_TO_THE_31;
    assert Pow2(40) == 0x100_0000_0000;
    assert Pow2(48) == 0x1_0000_0000_0000;
    assert Pow2(56) == 0x100_0000_0000_0000;
  }

  lemma {:induction false} Pow2Add(a: nat, b: nat)
    ensures Pow2(a + b) == Pow2(a) * Pow2(b)
  {
    if a == 0 {
    } else {
      Pow2Add(a - 1, b);
      assert Pow2(a + b) == 2 * (Pow2(a - 1) * Pow2(b));
    }
  }

  lemma {:induction false} Pow2Monotone(a: nat, b: nat)
    requires a <= b
    ensures Pow2(a) <= Pow2(b)
  {
    if a < b { Pow2Monotone(a, b - 1); }
  }

  lemma {:induction false} BitOfZero(k: nat)
    ensures !Bit(0, k)
  {
    if k > 0 { BitOfZero(k - 1); }
  }

  lemma {:induction false} BitOfPow2(n: nat, k: nat)
    ensures Bit(Pow2(n), k) <==> n == k
  {
    if n == 0 {
      if k > 0 { BitOfZero(k - 1); }
    } else if k > 0 {
      assert Pow2(n) / 2 == Pow2(n - 1);
      BitOfPow2(n - 1, k - 1);
    }
  }

  lemma {:induction false} BitAnd(x: nat, y: nat, k: nat)
    ensures Bit(And(x, y), k) <==> Bit(x, k) && Bit(y, k)
  {
    if x == 0 {
      BitOfZero(k);
    } else if k > 0 {
      assert And(x, y) / 2 == And(x / 2, y / 2);
      BitAnd(x / 2, y / 2, k - 1);
    }
  }

  lemma {:induction false} BitOr(x: nat, y: nat, k: nat)
    ensures Bit(Or(x, y), k) <==> Bit(x, k) || Bit(y, k)
  {
    if x == 0 {
      BitOfZero(k);
    } else if k > 0 {
      assert Or(x, y) / 2 == Or(x / 2, y / 2);
      BitOr(x / 2, y / 2, k - 1);
    }
  }

  lemma {:induction false} BitComplement(x: nat, n: nat, k: nat)
    requires x < Pow2(n)
    ensures Bit(Complement(x, n), k) <==> k < n && !Bit(x, k)
  {
    if n == 0 {
      BitOfZero(k);
    } else if k > 0 {
      assert Complement(x, n) / 2 == Complement(x / 2, n - 1);
      BitComplement(x / 2, n - 1, k - 1);
    }
  }

  lemma {:induction false} BitBound(x: nat, n: nat, k: nat)
    requires x < Pow2(n) && Bit(x, k)
    ensures k < n
  {
    if n == 0 {
      BitOfZero(k);
    } else if k > 0 {
      BitBound(x / 2, n - 1, k - 1);
    }
  }

  /** A number is bounded by a power of two as soon as its one bits are. */
  lemma {:induction false} BoundFromBits(x: nat, n: nat)
    requires forall k: nat :: Bit(x, k) ==> k < n
    ensures x < Pow2(n)
  {
    if x > 0 {
      if n == 0 {
        assert Bit(x, Lowest(x)) by { LowestIsFirst(x); }
      } else {
        forall k: nat | Bit(x / 2, k)
          ensures k < n - 1
        {
          assert Bit(x, k + 1);
        }
        BoundFromBits(x / 2, n - 1);
      }
    }
  }

  lemma {:induction false} LowestIsFirst(x: nat)
    requires x > 0
    ensures Bit(x, Lowest(x))
    ensures forall k: nat :: k < Lowest(x) ==> !Bit(x, k)
  {
    if x % 2 == 0 { LowestIsFirst(x / 2); }
  }

  /** Two numbers with the same one bits are the same number. */
  lemma {:induction false} BitsDetermine(x: nat, y: nat)
    requires forall k: nat :: Bit(x, k) <==> Bit(y, k)
    ensures x == y
    decreases x + y
  {
    assert Bit(x, 0) <==> Bit(y, 0);
    if x + y > 0 {
      forall k: nat
        ensures Bit(x / 2, k) <==> Bit(y / 2, k)
      {
        assert Bit(x, k + 1) <==> Bit(y, k + 1);
      }
      BitsDetermine(x / 2, y / 2);
    }
  }

  lemma AndWithinBoth(x: nat, y: nat, n: nat)
    requires x < Pow2(n)
    ensures And(x, y) < Pow2(n)
  {
    forall k: nat | Bit(And(x, y), k)
      ensures k < n
    {
      BitAnd(x, y, k);
      BitBound(x, n, k);
    }
    BoundFromBits(And(x, y), n);
  }

  lemma OrWithin(x: nat, y: nat, n: nat)
    requires x < Pow2(n) && y < Pow2(n)
    ensures Or(x, y) < Pow2(n)
  {
    forall k: nat | Bit(Or(x, y), k)
      ensures k < n
    {
      BitOr(x, y, k);
      if Bit(x, k) { BitBound(x, n, k); } else { BitBound(y, n, k); }
    }
    BoundFromBits(Or(x, y), n);
  }

  /** Counting bits is additive up to the common bits. */
  lemma {:induction false} PopcountOrAnd(x: nat, y: nat)
    ensures Popcount(Or(x, y)) + Popcount(And(x, y)) == Popcount(x) + Popcount(y)
  {
    if x > 0 {
      assert Or(x, y) / 2 == Or(x / 2, y / 2);
      assert And(x, y) / 2 == And(x / 2, y / 2);
      PopcountHalf(Or(x, y));
      PopcountHalf(And(x, y));
      PopcountHalf(y);
      PopcountOrAnd(x / 2, y / 2);
    }
  }

  lemma PopcountHalf(x: nat)
    ensures Popcount(x) == x % 2 + Popcount(x / 2)
  {
  }

  ghost predicate DisjointBits(x: nat, y: nat) {
    forall k: nat :: !(Bit(x, k) && Bit(y, k))
  }

  lemma PopcountDisjointOr(x: nat, y: nat)
    requires DisjointBits(x, y)
    ensures Popcount(Or(x, y)) == Popcount(x) + Popcount(y)
  {
    forall k: nat
      ensures Bit(And(x, y), k) <==> Bit(0, k)
    {
      BitAnd(x, y, k);
      BitOfZero(k);
    }
    BitsDetermine(And(x, y), 0);
    PopcountOrAnd(x, y);
  }

  // ----- the lowest one bit -----

  lemma {:induction false} AndComplementIsZero(x: nat, n: nat)
    requires x < Pow2(n)
    ensures And(x, Complement(x, n)) == 0
  {
    if x > 0 {
      assert Complement(x, n) / 2 == Complement(x / 2, n - 1);
      AndComplementIsZero(x / 2, n - 1);
    }
  }

  /** x & -x keeps exactly the lowest one bit of x, for every word width. */
  lemma {:induction false} LowestBitIsolated(x: nat, n: nat)
    requires 0 < x < Pow2(n)
    ensures And(x, Negate(x, n)) == Pow2(Lowest(x))
  {
    if x % 2 == 1 {
      assert Negate(x, n) / 2 == Complement(x / 2, n - 1);
      AndComplementIsZero(x / 2, n - 1);
    } else {
      assert Negate(x, n) / 2 == Negate(x / 2, n - 1);
      LowestBitIsolated(x / 2, n - 1);
    }
  }

  lemma {:induction false} Log2OfPow2(k: nat)
    ensures Log2(Pow2(k)) == k
  {
    if k > 0 {
      assert Pow2(k) / 2 == Pow2(k - 1);
      Log2OfPow2(k - 1);
    }
  }

  lemma {:induction false} AndAllOnes(x: nat, n: nat)
    requires x < Pow2(n)
    ensures And(x, Pow2(n) - 1) == x
  {
    if x > 0 {
      assert (Pow2(n) - 1) / 2 == Pow2(n - 1) - 1;
      AndAllOnes(x / 2, n - 1);
    }
  }

  lemma ClearLowestOdd(x: nat, n: nat, base: nat)
    requires x < Pow2(n) && x % 2 == 1
    ensures 1 < Pow2(n) && And(x, Complement(1, n)) == 2 * (x / 2)
    ensures Ones(x, base) == [base] + Ones(2 * (x / 2), base)
  {
    Pow2Monotone(1, n);
    assert Complement(1, n) / 2 == Pow2(n - 1) - 1;
    AndAllOnes(x / 2, n - 1);
    assert 2 * (x / 2) / 2 == x / 2;
  }

  /** Clearing the lowest one bit removes the head of the ascending enumeration. */
  lemma {:induction false} ClearLowest(x: nat, n: nat, base: nat)
    requires 0 < x < Pow2(n)
    ensures Lowest(x) < n && Pow2(Lowest(x)) < Pow2(n)
    ensures And(x, Complement(Pow2(Lowest(x)), n)) < x
    ensures Ones(x, base) == [base + Lowest(x)] + Ones(And(x, Complement(Pow2(Lowest(x)), n)), base)
  {
    if x % 2 == 1 {
      ClearLowestOdd(x, n, base);
    } else {
      ClearLowest(x / 2, n - 1, base + 1);
      var p := Pow2(Lowest(x));
      var c := Complement(p, n);
      assert c / 2 == Complement(p / 2, n - 1);
      assert And(x, c) == 2 * And(x / 2, c / 2);
    }
  }

  // ----- the ascending enumeration -----

  lemma {:induction false} OnesMembers(x: nat, base: nat, v: nat)
    ensures v in Ones(x, base) <==> v >= base && Bit(x, v - base)
  {
    if x == 0 {
      if v >= base { BitOfZero(v - base); }
    } else {
      OnesMembers(x / 2, base + 1, v);
    }
  }

  lemma {:induction false} OnesIncreasing(x: nat, base: nat)
    ensures StrictlyIncreasing(Ones(x, base))
    ensures forall v :: v in Ones(x, base) ==> v >= base
  {
    if x > 0 {
      OnesIncreasing(x / 2, base + 1);
      var rest := Ones(x / 2, base + 1);
      assert forall i :: 0 <= i < |rest| ==> rest[i] in rest;
    }
  }

  lemma {:induction false} OnesCount(x: nat, base: nat)
    ensures |Ones(x, base)| == Popcount(x)
  {
    if x > 0 { OnesCount(x / 2, base + 1); }
  }

  /** The enumeration is the unique strictly increasing list of the positions of the one bits. */
  lemma OnesUnique(x: nat, base: nat, s: seq<nat>)
    requires StrictlyIncreasing(s)
    requires forall v: nat :: v in s <==> v >= base && Bit(x, v - base)
    ensures s == Ones(x, base)
  {
    forall v: nat
      ensures v in s <==> v in Ones(x, base)
    {
      OnesMembers(x, base, v);
    }
    OnesIncreasing(x, base);
    SameIncreasingLists(s, Ones(x, base));
  }

  lemma {:induction false} SameIncreasingLists(s: seq<nat>, t: seq<nat>)
    requires StrictlyIncreasing(s) && StrictlyIncreasing(t)
    requires forall v: nat :: v in s <==> v in t
    ensures s == t
  {
    assert t == [] || t[0] in t;
    if s != [] {
      assert s[0] in t && t[0] in s;
      assert s[0] == t[0];
      TailMembers(s);
      TailMembers(t);
      SameIncreasingLists(s[1..], t[1..]);
    }
  }

  lemma TailMembers(s: seq<nat>)
    requires StrictlyIncreasing(s) && s != []
    ensures StrictlyIncreasing(s[1..])
    ensures forall v: nat :: v in s[1..] <==> v in s && v != s[0]
  {
    assert s == [s[0]] + s[1..];
    assert forall i :: 0 <= i < |s| - 1 ==> s[1..][i] == s[i + 1];
  }

  lemma IncreasingIsDistinct(s: seq<int>)
    requires StrictlyIncreasing(s)
    ensures Distinct(s)
  {
  }

  /** The one bits of x as a set; its size is the population count. */
  ghost function OneSet(x: nat): set<nat> {
    set v | v in Ones(x, 0)
  }

  lemma OneSetMembers(x: nat)
    ensures forall k: nat :: k in OneSet(x) <==> Bit(x, k)
    ensures |OneSet(x)| == Popcount(x)
  {
    forall k: nat
      ensures k in OneSet(x) <==> Bit(x, k)
    {
      OnesMembers(x, 0, k);
    }
    OnesIncreasing(x, 0);
    IncreasingIsDistinct(Ones(x, 0));
    OnesCount(x, 0);
    DistinctSetSize(Ones(x, 0));
  }

  lemma {:induction false} DistinctSetSize<T>(s: seq<T>)
    requires Distinct(s)
    ensures |set v | v in s| == |s|
  {
    if s == [] {
      assert (set v | v in s) == {};
    } else {
      DistinctSetSize(s[1..]);
      assert (set v | v in s) == {s[0]} + (set v | v in s[1..]);
    }
  }

  /** The numbers 0 .. n - 1. */
  ghost function Below(n: nat): set<nat> {
    if n == 0 then {} else Below(n - 1) + {n - 1}
  }

  lemma {:induction false} BelowSize(n: nat)
    ensures |Below(n)| == n && forall k :: k in Below(n) <==> 0 <= k < n
  {
    if n > 0 { BelowSize(n - 1); }
  }

  lemma CardinalitySubset<T>(a: set<T>, b: set<T>)
    requires a <= b
    ensures |a| <= |b|
  {
    assert b == a + (b - a);
  }
}
