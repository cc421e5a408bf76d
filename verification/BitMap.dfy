// A bitmap of 64-bit words, refining a set of positions.
module BitMaps {
  import opened Bits

  const WORD_BITS: nat := 64
  const ALL_SET: Word := 0xFFFF_FFFF_FFFF_FFFF
  const INT_MAX: nat := 0x7FFF_FFFF

  // ----- words as sets -----

  /** True iff position p is one in the words. */
  ghost predicate In(words: seq<Word>, p: nat) {
    p / 64 < |words| && Bit(words[p / 64], p % 64)
  }

  /** The positions that are one, ascending. */
  ghost function MemberList(words: seq<Word>): seq<nat> {
    if words == [] then []
    else MemberList(words[..|words| - 1]) + Ones(words[|words| - 1], 64 * (|words| - 1))
  }

  ghost function Members(words: seq<Word>): set<nat> {
    set p | p in MemberList(words)
  }

  function PopcountSum(words: seq<Word>): nat {
    if words == [] then 0 else PopcountSum(words[..|words| - 1]) + Popcount(words[|words| - 1])
  }

  /** The last word holds the positions from 64 * (|words| - 1) on. */
  lemma InLast(words: seq<Word>, p: nat)
    requires words != []
    ensures var n := |words| - 1;
            In(words, p) <==> In(words[..n], p) || (p >= 64 * n && Bit(words[n], p - 64 * n))
  {
    var n := |words| - 1;
    if p >= 64 * n + 64 {
      Pow2Values();
      if Bit(words[n], p - 64 * n) { BitBound(words[n], 64, p - 64 * n); }
    } else if p >= 64 * n {
      assert p / 64 == n && p % 64 == p - 64 * n;
    }
  }

  lemma {:induction false} MemberListIn(words: seq<Word>, p: nat)
    ensures p in MemberList(words) <==> In(words, p)
  {
    if words != [] {
      var n := |words| - 1;
      MemberListIn(words[..n], p);
      OnesMembers(words[n], 64 * n, p);
      assert MemberList(words) == MemberList(words[..n]) + Ones(words[n], 64 * n);
      InLast(words, p);
    }
  }

  lemma {:induction false} MemberListIncreasing(words: seq<Word>)
    ensures StrictlyIncreasing(MemberList(words))
    ensures |MemberList(words)| == PopcountSum(words)
  {
    if words != [] {
      var n := |words| - 1;
      var front, last := MemberList(words[..n]), Ones(words[n], 64 * n);
      MemberListIncreasing(words[..n]);
      OnesIncreasing(words[n], 64 * n);
      OnesCount(words[n], 64 * n);
      forall i | 0 <= i < |front|
        ensures front[i] < 64 * n
      {
        MemberListIn(words[..n], front[i]);
      }
      assert forall j :: 0 <= j < |last| ==> last[j] in last;
    }
  }

  lemma MembersIn(words: seq<Word>)
    ensures forall p: nat :: p in Members(words) <==> In(words, p)
    ensures |Members(words)| == PopcountSum(words)
  {
    forall p: nat
      ensures p in Members(words) <==> In(words, p)
    {
      MemberListIn(words, p);
    }
    MemberListIncreasing(words);
    IncreasingIsDistinct(MemberList(words));
    DistinctSetSize(MemberList(words));
  }

  // ----- single bits -----

  /** 1 << n computed in a 32-bit int and widened to 64 bits.  From 32 on the language leaves the value
      open; overlong is what the platform produces. */
  function IntShift(n: nat, overlong: nat -> Word): Word {
    if n < 31 then
      Pow2Monotone(n, 31);
      Pow2Values();
      Pow2(n)
    else if n == 31 then 0xFFFF_FFFF_8000_0000
    else overlong(n)
  }

  function OrWord(x: Word, y: Word): Word {
    Pow2Values();
    OrWithin(x, y, 64);
    Or(x, y)
  }

  /** x & ~y */
  function ClearWord(x: Word, y: Word): Word {
    Pow2Values();
    AndWithinBoth(x, Complement(y, 64), 64);
    And(x, Complement(y, 64))
  }

  /** ((BitMapWordT)1 << n) - 1 */
  function NBitMask(n: nat): Word
    requires n < 64
  {
    Pow2Monotone(n, 64);
    Pow2Values();
    Pow2(n) - 1
  }

  /** The lowest n bits of a word. */
  function Masked(n: nat, w: Word): Word
    requires n < 64
  {
    Pow2Values();
    AndWithinBoth(NBitMask(n), w, 64);
    And(NBitMask(n), w)
  }

  lemma OrWordBits(x: Word, y: Word, k: nat)
    ensures Bit(OrWord(x, y), k) <==> Bit(x, k) || Bit(y, k)
  {
    BitOr(x, y, k);
  }

  lemma ClearWordBits(x: Word, y: Word, k: nat)
    ensures Bit(ClearWord(x, y), k) <==> Bit(x, k) && !Bit(y, k)
  {
    Pow2Values();
    BitAnd(x, Complement(y, 64), k);
    BitComplement(y, 64, k);
    if Bit(x, k) { BitBound(x, 64, k); }
  }

  lemma {:induction false} LowBitsOfMask(n: nat, k: nat)
    ensures Bit(Pow2(n) - 1, k) <==> k < n
  {
    if n == 0 {
      BitOfZero(k);
    } else if k > 0 {
      assert (Pow2(n) - 1) / 2 == Pow2(n - 1) - 1;
      LowBitsOfMask(n - 1, k - 1);
    }
  }

  // ----- what the operations do to the words -----

  /** now is was with the bits of m set in, or cleared from, word w. */
  ghost predicate WordChanged(now: seq<Word>, was: seq<Word>, w: nat, m: Word, doclear: bool) {
    |now| == |was| &&
    forall p: nat :: p / 64 < |was| ==>
      (In(now, p) <==> if p / 64 == w && Bit(m, p % 64) then !doclear else In(was, p))
  }

  function Op(x: Word, y: Word, doclear: bool): Word {
    if doclear then ClearWord(x, y) else OrWord(x, y)
  }

  lemma OpChangesWord(was: seq<Word>, w: nat, m: Word, doclear: bool)
    requires w < |was|
    ensures WordChanged(was[w := Op(was[w], m, doclear)], was, w, m, doclear)
  {
    forall p: nat | p / 64 == w
      ensures Bit(Op(was[w], m, doclear), p % 64) <==> if Bit(m, p % 64) then !doclear else Bit(was[w], p % 64)
    {
      OrWordBits(was[w], m, p % 64);
      ClearWordBits(was[w], m, p % 64);
    }
  }

  /** now combines was with other on the positions below reach. */
  ghost predicate Combined(now: seq<Word>, was: seq<Word>, other: seq<Word>, reach: nat, doclear: bool) {
    |now| == |was| &&
    forall p: nat :: p / 64 < |was| ==>
      (In(now, p) <==> if p < reach && In(other, p) then !doclear else In(was, p))
  }

  /** The words of a bitmap of the given size: bits at or past size are zero. */
  ghost predicate Padded(words: seq<Word>, size: nat) {
    |words| == size / 64 + 1 && forall p: nat :: In(words, p) ==> p < size
  }

  /** The place of p in its word keeps clear of the sign bit, or is the sign bit and no position follows in the word. */
  predicate Reaches(p: nat, size: nat) {
    p % 64 <= 30 || (p % 64 == 31 && size <= p + 1)
  }

  // ----- the class -----

  class BitMap {
    const size: nat
    const words: array<Word>
    const overlong: nat -> Word

    ghost predicate Shape()
      reads this
    {
      size < TWO_TO_THE_32 && words.Length == size / 64 + 1
    }

    /** Bits at or past size are zero. */
    ghost predicate Valid()
      reads this, words
    {
      Shape() && Padded(words[..], size)
    }

    ghost function Contents(): set<nat>
      reads this, words
    {
      Members(words[..])
    }

    constructor (size: nat, overlong: nat -> Word)
      requires size < TWO_TO_THE_32
      ensures Valid() && this.size == size && this.overlong == overlong && fresh(words)
      ensures Contents() == {}
    {
      this.size := size;
      this.overlong := overlong;
      words := new Word[size / 64 + 1](_ => 0);
      new;
      NothingIn(words[..]);
    }

    predicate IsValidPos(bitpos: nat) {
      bitpos < size
    }

    /** The number of positions that are one; the accumulator is an int. */
    method Count() returns (cnt: nat)
      requires Valid() && |Contents()| <= INT_MAX
      ensures cnt == |Contents()|
    {
      cnt := 0;
      MembersIn(words[..]);
      for i := 0 to words.Length
        invariant cnt == PopcountSum(words[..i])
      {
        assert words[..i + 1][..i] == words[..i];
        cnt := cnt + Popcount(words[i]);
      }
      assert words[..words.Length] == words[..];
    }

    method IsZero() returns (iszero: bool)
      requires Valid()
      ensures iszero <==> Contents() == {}
    {
      iszero := true;
      MembersIn(words[..]);
      for i := 0 to words.Length
        invariant iszero && forall j :: 0 <= j < i ==> words[j] == 0
      {
        if words[i] != 0 {
          iszero := false;
          LowestIsFirst(words[i]);
          Pow2Values();
          BitBound(words[i], 64, Lowest(words[i]));
          assert In(words[..], 64 * i + Lowest(words[i]));
          return;
        }
      }
      NothingIn(words[..]);
    }

    /** Full means that every position below size is one. */
    method IsFull() returns (isfull: bool)
      requires Valid() && |Contents()| <= INT_MAX
      ensures isfull <==> forall p :: 0 <= p < size ==> p in Contents()
    {
      var cnt := Count();
      isfull := cnt == size;
      MembersIn(words[..]);
      FullByCount(Contents(), size);
    }

    method IsSet(bitpos: nat) returns (r: bool)
      requires Valid()
      ensures bitpos > size ==> !r
      ensures bitpos <= size ==> (r <==> And(words[bitpos / 64], IntShift(bitpos % 64, overlong)) != 0)
      ensures bitpos > size || Reaches(bitpos, size) ==> (r <==> bitpos in Contents())
    {
      MembersIn(words[..]);
      if bitpos <= size {
        var idx, pos := bitpos / 64, bitpos % 64;
        if Reaches(bitpos, size) { TestPosition(words[..], size, bitpos, overlong); }
        return And(words[idx], IntShift(pos, overlong)) != 0;
      }
      return false;
    }

    /** Sets the bits of 1 << pos in the word of bitpos: exactly bitpos when pos is at most 30. */
    method SetPos(bitpos: nat)
      requires Valid()
      modifies words
      ensures Shape()
      ensures bitpos >= size ==> words[..] == old(words[..])
      ensures bitpos < size ==>
                WordChanged(words[..], old(words[..]), bitpos / 64, IntShift(bitpos % 64, overlong), false)
      ensures bitpos < size && bitpos % 64 <= 30 ==> Valid() && Contents() == old(Contents()) + {bitpos}
    {
      if IsValidPos(bitpos) {
        var idx, pos := bitpos / 64, bitpos % 64;
        OpChangesWord(words[..], idx, IntShift(pos, overlong), false);
        words[idx] := OrWord(words[idx], IntShift(pos, overlong));
        if pos <= 30 {
          OnePosition(words[..], old(words[..]), bitpos, overlong, false);
          MembersIn(words[..]);
          MembersIn(old(words[..]));
        }
      }
    }

    /** Clears the bits of 1 << pos in the word of bitpos: exactly bitpos when the shift reaches it. */
    method ClearPos(bitpos: nat)
      requires Valid()
      modifies words
      ensures Valid()
      ensures bitpos >= size ==> words[..] == old(words[..])
      ensures bitpos < size ==>
                WordChanged(words[..], old(words[..]), bitpos / 64, IntShift(bitpos % 64, overlong), true)
      ensures bitpos < size && Reaches(bitpos, size) ==> Contents() == old(Contents()) - {bitpos}
    {
      if IsValidPos(bitpos) {
        var idx, pos := bitpos / 64, bitpos % 64;
        OpChangesWord(words[..], idx, IntShift(pos, overlong), true);
        words[idx] := ClearWord(words[idx], IntShift(pos, overlong));
        if Reaches(bitpos, size) { OnePositionCleared(words[..], old(words[..]), size, bitpos, overlong); }
      }
    }

    method Clear()
      requires Shape()
      modifies words
      ensures Valid() && Contents() == {}
    {
      for i := 0 to words.Length
        invariant forall j :: 0 <= j < i ==> words[j] == 0
      {
        words[i] := 0;
      }
      NothingIn(words[..]);
    }

    /** Sets every position below size; with doclear, the mask is empty and nothing changes. */
    method DoSetOrClear(doclear: bool)
      requires Valid()
      modifies words
      ensures Valid()
      ensures doclear ==> Contents() == old(Contents())
      ensures !doclear ==> forall p: nat :: p in Contents() <==> p < size
    {
      var remainingBits := size;
      var mask: Word := if doclear then 0 else ALL_SET;
      ghost var was := words[..];
      for i := 0 to words.Length
        invariant i < words.Length ==> remainingBits == size - 64 * i
        invariant i < words.Length ==> mask == if doclear then 0 else ALL_SET
        invariant Filled(words[..], was, i, size, doclear)
      {
        if remainingBits < WORD_BITS {
          AndAllSet(remainingBits);
          mask := And(mask, NBitMask(remainingBits));
        }
        FillStep(words[..], was, i, size, mask, doclear);
        words[i] := Op(words[i], mask, doclear);
        remainingBits := (remainingBits + TWO_TO_THE_32 - WORD_BITS) % TWO_TO_THE_32;
      }
      MembersIn(words[..]);
      MembersIn(was);
    }

    /** Combines with other on the whole words both have, or on the positions both have when those are fewer than 64:
        all positions both have, when those are fewer than 64 or a multiple of 64. */
    method DoSetOrClearFrom(other: BitMap, doclear: bool)
      requires Valid() && other.Valid()
      modifies words
      ensures Valid()
      ensures var n := Min(size, other.size);
              Contents() == Intended(old(words[..]), old(other.words[..]), if n < 64 then n else n - n % 64, doclear)
    {
      var count, sz := other.words.Length, other.size;
      if size < sz {
        count := words.Length;
        sz := size;
      }
      ghost var was, source := words[..], other.words[..];
      for i := 0 to count - 1
        invariant sz == Min(size, other.size) - 64 * i
        invariant Combined(words[..], was, source, 64 * i, doclear)
        invariant if other.words == words then source == was else other.words[..] == source
      {
        CombineStep(words[..], was, source, other.words[..], i, doclear);
        words[i] := Op(words[i], other.words[i], doclear);
        sz := sz - WORD_BITS;
      }
      var idx, pos := sz / 64, sz % 64;
      assert idx == 0 && pos == Min(size, other.size) % 64 && 64 * (count - 1) == Min(size, other.size) - pos;
      CombineLast(words[..], was, source, other.words[..], Min(size, other.size), doclear);
      words[idx] := Op(words[idx], Masked(pos, other.words[idx]), doclear);
      CombinedWithin(words[..], was, source, Min(size, other.size), size, doclear);
    }
  }

  // ----- filling -----

  /** The first n words are filled, the others as they were. */
  ghost predicate Filled(now: seq<Word>, was: seq<Word>, n: nat, size: nat, doclear: bool) {
    |now| == |was| &&
    forall p: nat :: p / 64 < |was| ==> (In(now, p) <==> if p / 64 < n && !doclear then p < size else In(was, p))
  }

  lemma FillStep(now: seq<Word>, was: seq<Word>, i: nat, size: nat, mask: Word, doclear: bool)
    requires Filled(now, was, i, size, doclear) && i < |was| == size / 64 + 1
    requires forall p: nat :: In(was, p) ==> p < size
    requires mask == if doclear then 0 else if i < size / 64 then ALL_SET else NBitMask(size % 64)
    ensures Filled(now[i := Op(now[i], mask, doclear)], was, i + 1, size, doclear)
  {
    OpChangesWord(now, i, mask, doclear);
    Pow2Values();
    forall k: nat | k < 64
      ensures Bit(mask, k) <==> !doclear && 64 * i + k < size
    {
      BitOfZero(k);
      LowBitsOfMask(64, k);
      LowBitsOfMask(size % 64, k);
    }
  }

  lemma NothingIn(words: seq<Word>)
    requires forall i :: 0 <= i < |words| ==> words[i] == 0
    ensures (forall p: nat :: !In(words, p)) && Members(words) == {}
  {
    forall p: nat
      ensures !In(words, p)
    {
      BitOfZero(p % 64);
    }
    MembersIn(words);
  }

  lemma FullByCount(s: set<nat>, n: nat)
    requires forall p :: p in s ==> p < n
    ensures |s| == n <==> forall p :: 0 <= p < n ==> p in s
  {
    BelowSize(n);
    var all := Below(n);
    assert s <= all;
    assert all == s + (all - s);
    assert |all| == |s| + |all - s|;
    if |all - s| == 0 {
      assert all == s;
    }
  }

  /** With the exact mask, a point operation changes one position. */
  lemma OnePosition(now: seq<Word>, was: seq<Word>, p: nat, overlong: nat -> Word, doclear: bool)
    requires p / 64 < |was| && p % 64 <= 30
    requires WordChanged(now, was, p / 64, IntShift(p % 64, overlong), doclear)
    ensures Members(now) == if doclear then Members(was) - {p} else Members(was) + {p}
  {
    MembersIn(now);
    MembersIn(was);
    forall q: nat
      ensures In(now, q) <==> if q == p then !doclear else In(was, q)
    {
      BitOfPow2(p % 64, q % 64);
    }
  }

  lemma AndAllSet(n: nat)
    requires n < 64
    ensures And(ALL_SET, NBitMask(n)) == NBitMask(n) && And(0, NBitMask(n)) == 0
  {
    Pow2Values();
    forall k: nat
      ensures Bit(And(ALL_SET, NBitMask(n)), k) <==> Bit(NBitMask(n), k)
    {
      BitAnd(ALL_SET, NBitMask(n), k);
      LowBitsOfMask(n, k);
      LowBitsOfMask(64, k);
    }
    BitsDetermine(And(ALL_SET, NBitMask(n)), NBitMask(n));
  }

  // ----- combining -----

  function Min(a: nat, b: nat): nat {
    if a < b then a else b
  }

  /** How far a combination of bitmaps with smaller size n goes: the trailing partial word is left out,
      unless it is the only word. */
  function Reach(n: nat): nat {
    if n < 64 then n else n - n % 64
  }

  lemma CombineStep(now: seq<Word>, was: seq<Word>, source: seq<Word>, current: seq<Word>, i: nat, doclear: bool)
    requires Combined(now, was, source, 64 * i, doclear) && i < |was| && i < |current| == |source|
    requires current == source || (current == now && source == was)
    ensures Combined(now[i := Op(now[i], current[i], doclear)], was, source, 64 * (i + 1), doclear)
  {
    OpChangesWord(now, i, current[i], doclear);
    forall p: nat | p / 64 == i
      ensures Bit(current[i], p % 64) <==> In(source, p)
    {
      if current == now { assert In(now, p) <==> In(was, p); }
    }
  }

  lemma CombineLast(now: seq<Word>, was: seq<Word>, source: seq<Word>, current: seq<Word>, n: nat, doclear: bool)
    requires Combined(now, was, source, n - n % 64, doclear) && 0 < |was| && 0 < |current| == |source|
    requires current == source || (current == now && source == was)
    ensures Combined(now[0 := Op(now[0], Masked(n % 64, current[0]), doclear)], was, source, Reach(n), doclear)
  {
    var m := Masked(n % 64, current[0]);
    OpChangesWord(now, 0, m, doclear);
    forall p: nat | p < 64
      ensures Bit(m, p) <==> p < n % 64 && Bit(current[0], p)
    {
      BitAnd(NBitMask(n % 64), current[0], p);
      LowBitsOfMask(n % 64, p);
    }
    forall p: nat | p < 64
      ensures In(now[0 := Op(now[0], m, doclear)], p)
         <==> if p < Reach(n) && In(source, p) then !doclear else In(was, p)
    {
      assert p / 64 == 0 && p % 64 == p;
      assert In(now, p) <==> if p < n - n % 64 && In(source, p) then !doclear else In(was, p);
      assert Bit(current[0], p) <==> In(current, p);
    }
  }

  /** Union, or difference, with other restricted to the positions below n. */
  ghost function Intended(was: seq<Word>, other: seq<Word>, n: nat, doclear: bool): set<nat> {
    var low := set p | p in Members(other) && p < n;
    if doclear then Members(was) - low else Members(was) + low
  }

  lemma IntendedIn(was: seq<Word>, other: seq<Word>, n: nat, doclear: bool, p: nat)
    ensures p in Intended(was, other, n, doclear) <==> if p < n && In(other, p) then !doclear else In(was, p)
  {
    MembersIn(was);
    MembersIn(other);
  }

  /** What set(other) and clear(other) are for. */
  lemma CombinedSets(now: seq<Word>, was: seq<Word>, other: seq<Word>, n: nat, doclear: bool)
    requires n <= 64 * |was| && Combined(now, was, other, n, doclear)
    ensures Members(now) == Intended(was, other, n, doclear)
  {
    MembersIn(now);
    forall p: nat
      ensures p in Members(now) <==> p in Intended(was, other, n, doclear)
    {
      IntendedIn(was, other, n, doclear, p);
    }
  }

  /** Combining keeps the padding zero, and combines the positions it reaches. */
  lemma CombinedWithin(now: seq<Word>, was: seq<Word>, other: seq<Word>, n: nat, size: nat, doclear: bool)
    requires n <= size < 64 * |was| && Combined(now, was, other, Reach(n), doclear)
    requires forall p: nat :: In(was, p) ==> p < size
    ensures forall p: nat :: In(now, p) ==> p < size
    ensures Members(now) == Intended(was, other, if n < 64 then n else n - n % 64, doclear)
  {
    CombinedSets(now, was, other, Reach(n), doclear);
  }

  /** The words of a bitmap that holds at most position p. */
  function OnlyAt(size: nat, p: nat, one: bool): (words: seq<Word>)
    ensures |words| == size / 64 + 1
  {
    Pow2Monotone(p % 64 + 1, 64);
    Pow2Values();
    seq(size / 64 + 1, i => if one && i == p / 64 then Pow2(p % 64) else 0)
  }

  lemma OnlyAtIn(size: nat, p: nat, one: bool)
    requires p < size
    ensures forall q: nat :: In(OnlyAt(size, p, one), q) <==> one && q == p
    ensures Padded(OnlyAt(size, p, one), size)
  {
    forall q: nat
      ensures In(OnlyAt(size, p, one), q) <==> one && q == p
    {
      BitOfZero(q % 64);
      BitOfPow2(p % 64, q % 64);
    }
  }

  /** What set(other), or clear(other), does to these words is what it is for. */
  ghost predicate CombinesExactly(now: seq<Word>, was: seq<Word>, other: seq<Word>, n: nat, doclear: bool) {
    Combined(now, was, other, Reach(n), doclear) ==> Members(now) == Intended(was, other, n, doclear)
  }

  ghost predicate CombiningExact(size: nat, otherSize: nat, doclear: bool) {
    forall now, was, other ::
      Padded(was, size) && Padded(other, otherSize) ==> CombinesExactly(now, was, other, Min(size, otherSize), doclear)
  }

  /** On bitmaps of two sizes, set(other) is exact for all contents, and clear(other) is, exactly when the smaller
      size is below 64 or a multiple of 64. */
  lemma CombiningIsExact(size: nat, otherSize: nat, doclear: bool)
    ensures CombiningExact(size, otherSize, doclear) <==> Min(size, otherSize) < 64 || Min(size, otherSize) % 64 == 0
  {
    var n := Min(size, otherSize);
    if n < 64 || n % 64 == 0 {
      forall now, was, other | Padded(was, size) && Padded(other, otherSize)
        ensures CombinesExactly(now, was, other, n, doclear)
      {
        if Combined(now, was, other, Reach(n), doclear) { CombinedSets(now, was, other, n, doclear); }
      }
    } else {
      LastPositionMissed(size, otherSize, doclear);
      var was, other := OnlyAt(size, n - 1, doclear), OnlyAt(otherSize, n - 1, true);
      assert !CombinesExactly(was, was, other, n, doclear);
    }
  }

  lemma Unreached(was: seq<Word>, other: seq<Word>, reach: nat, doclear: bool)
    requires forall p: nat :: In(other, p) ==> p >= reach
    ensures Combined(was, was, other, reach, doclear)
  {
  }

  /** The last position of a trailing partial word is neither set nor cleared. */
  lemma LastPositionMissed(size: nat, otherSize: nat, doclear: bool)
    requires Min(size, otherSize) >= 64 && Min(size, otherSize) % 64 != 0
    ensures var n := Min(size, otherSize);
            var was, other := OnlyAt(size, n - 1, doclear), OnlyAt(otherSize, n - 1, true);
            && Padded(was, size) && Padded(other, otherSize)
            && Combined(was, was, other, Reach(n), doclear)
            && Members(was) != Intended(was, other, n, doclear)
  {
    var n := Min(size, otherSize);
    var was, other := OnlyAt(size, n - 1, doclear), OnlyAt(otherSize, n - 1, true);
    OnlyAtIn(size, n - 1, doclear);
    OnlyAtIn(otherSize, n - 1, true);
    Unreached(was, other, Reach(n), doclear);
    MembersIn(was);
    IntendedIn(was, other, n, doclear, n - 1);
  }

  // ----- which positions the point operations reach -----

  ghost predicate SetsExactly(now: seq<Word>, was: seq<Word>, p: nat, overlong: nat -> Word) {
    WordChanged(now, was, p / 64, IntShift(p % 64, overlong), false) ==> Members(now) == Members(was) + {p}
  }

  ghost predicate ClearsExactly(now: seq<Word>, was: seq<Word>, p: nat, overlong: nat -> Word) {
    WordChanged(now, was, p / 64, IntShift(p % 64, overlong), true) ==> Members(now) == Members(was) - {p}
  }

  ghost predicate ReadsExactly(words: seq<Word>, p: nat, overlong: nat -> Word)
    requires p / 64 < |words|
  {
    And(words[p / 64], IntShift(p % 64, overlong)) != 0 <==> p in Members(words)
  }

  ghost predicate SettingExact(size: nat, p: nat) {
    forall now, was, overlong :: Padded(was, size) ==> SetsExactly(now, was, p, overlong)
  }

  ghost predicate ClearingExact(size: nat, p: nat) {
    forall now, was, overlong :: Padded(was, size) ==> ClearsExactly(now, was, p, overlong)
  }

  ghost predicate ReadingExact(size: nat, p: nat)
    requires p <= size
  {
    forall words, overlong :: Padded(words, size) ==> ReadsExactly(words, p, overlong)
  }

  /** On bitmaps of a size, set(p) is exact for all contents and platforms exactly when the place of p in its word
      is at most 30. */
  lemma SettingIsExact(size: nat, p: nat)
    requires p < size
    ensures SettingExact(size, p) <==> p % 64 <= 30
  {
    if p % 64 <= 30 {
      forall now, was, overlong | Padded(was, size)
        ensures SetsExactly(now, was, p, overlong)
      {
        if WordChanged(now, was, p / 64, IntShift(p % 64, overlong), false) {
          OnePosition(now, was, p, overlong, false);
        }
      }
    } else {
      var was := OnlyAt(size, p, false);
      var m := IntShift(p % 64, LowestPlace);
      var now := was[p / 64 := Op(was[p / 64], m, false)];
      var extra := ExtraPosition(p);
      OnlyAtIn(size, p, false);
      OpChangesWord(was, p / 64, m, false);
      MembersIn(now);
      MembersIn(was);
      assert In(now, extra) && extra !in Members(was) + {p};
      assert !SetsExactly(now, was, p, LowestPlace);
    }
  }

  /** clear(p) is exact exactly when the shift reaches p: at place 31 only if p is the last position. */
  lemma ClearingIsExact(size: nat, p: nat)
    requires p < size
    ensures ClearingExact(size, p) <==> Reaches(p, size)
  {
    if Reaches(p, size) {
      forall now, was, overlong | Padded(was, size)
        ensures ClearsExactly(now, was, p, overlong)
      {
        if WordChanged(now, was, p / 64, IntShift(p % 64, overlong), true) {
          OnePositionCleared(now, was, size, p, overlong);
        }
      }
    } else {
      var extra := ExtraPosition(p);
      var was := OnlyAt(size, extra, true);
      var m := IntShift(p % 64, LowestPlace);
      var now := was[p / 64 := Op(was[p / 64], m, true)];
      OnlyAtIn(size, extra, true);
      OpChangesWord(was, p / 64, m, true);
      MembersIn(now);
      MembersIn(was);
      assert extra in Members(was) - {p} && !In(now, extra);
      assert !ClearsExactly(now, was, p, LowestPlace);
    }
  }

  /** isSet(p) is exact exactly when the shift reaches p, for every position it reads. */
  lemma ReadingIsExact(size: nat, p: nat)
    requires p <= size
    ensures ReadingExact(size, p) <==> Reaches(p, size)
  {
    if Reaches(p, size) {
      forall words, overlong | Padded(words, size)
        ensures ReadsExactly(words, p, overlong)
      {
        TestPosition(words, size, p, overlong);
      }
    } else {
      var extra := ExtraPosition(p);
      var words := OnlyAt(size, extra, true);
      OnlyAtIn(size, extra, true);
      MembersIn(words);
      assert In(words, extra);
      TestWord(words, p, LowestPlace, extra % 64);
      assert !ReadsExactly(words, p, LowestPlace);
    }
  }

  /** A platform on which an overlong shift yields 1. */
  const LowestPlace: nat -> Word := n => 1

  /** Another position that a shift to the place of p hits: the sign bit of an int spreads over the upper half of the
      word, and an overlong shift may hit the lowest place. */
  lemma ExtraPosition(p: nat) returns (extra: nat)
    requires p % 64 >= 31
    ensures extra / 64 == p / 64 && extra == if p % 64 == 31 then p + 1 else p - p % 64
    ensures Bit(IntShift(p % 64, LowestPlace), extra % 64)
  {
    if p % 64 == 31 {
      extra := p + 1;
      SignSpreads(32);
    } else {
      extra := p - p % 64;
    }
  }

  lemma SignSpreads(k: nat)
    requires k < 64
    ensures Bit(0xFFFF_FFFF_8000_0000, k) <==> k >= 31
  {
    Pow2Values();
    assert Pow2(31) * 0x1_FFFF_FFFF == 0xFFFF_FFFF_8000_0000;
    if k >= 31 {
      BitTimesPow2(0x1_FFFF_FFFF, 31, k - 31);
      Pow2Is33();
      LowBitsOfMask(33, k - 31);
    } else {
      BitBelowFactor(0x1_FFFF_FFFF, 31, k);
    }
  }

  /** What the shift of an int widens to: one bit below place 31, and at 31 that one and all above. */
  lemma IntShiftBits(n: nat, overlong: nat -> Word, k: nat)
    requires n <= 31 && k < 64
    ensures Bit(IntShift(n, overlong), k) <==> k == n || (n == 31 && k > 31)
  {
    if n == 31 { SignSpreads(k); } else { BitOfPow2(n, k); }
  }

  lemma Pow2Is33()
    ensures Pow2(33) == 0x2_0000_0000
  {
    Pow2Values();
    assert Pow2(33) == 2 * Pow2(32);
  }

  lemma {:induction false} BitTimesPow2(y: nat, n: nat, k: nat)
    ensures Bit(Pow2(n) * y, n + k) <==> Bit(y, k)
  {
    if n > 0 {
      assert Pow2(n) * y == 2 * (Pow2(n - 1) * y);
      BitTimesPow2(y, n - 1, k);
    }
  }

  lemma {:induction false} BitBelowFactor(y: nat, n: nat, k: nat)
    requires k < n
    ensures !Bit(Pow2(n) * y, k)
  {
    assert Pow2(n) * y == 2 * (Pow2(n - 1) * y);
    if k > 0 { BitBelowFactor(y, n - 1, k - 1); }
  }

  /** Within padded words, a shift that reaches p selects no other position. */
  lemma ShiftSelects(words: seq<Word>, size: nat, p: nat, overlong: nat -> Word, q: nat)
    requires Padded(words, size) && p <= size && Reaches(p, size)
    requires In(words, q) && q / 64 == p / 64
    ensures Bit(IntShift(p % 64, overlong), q % 64) <==> q == p
  {
    BitOfPow2(p % 64, q % 64);
    if p % 64 == 31 { SignSpreads(q % 64); }
  }

  lemma OnePositionCleared(now: seq<Word>, was: seq<Word>, size: nat, p: nat, overlong: nat -> Word)
    requires Padded(was, size) && p < size && Reaches(p, size)
    requires WordChanged(now, was, p / 64, IntShift(p % 64, overlong), true)
    ensures Members(now) == Members(was) - {p}
  {
    MembersIn(now);
    MembersIn(was);
    forall q: nat
      ensures In(now, q) <==> q != p && In(was, q)
    {
      if In(was, q) && q / 64 == p / 64 { ShiftSelects(was, size, p, overlong, q); }
    }
  }

  /** A shift that selects a one bit of the word reads as set. */
  lemma TestWord(words: seq<Word>, p: nat, overlong: nat -> Word, k: nat)
    requires p / 64 < |words| && k < 64
    requires Bit(words[p / 64], k) && Bit(IntShift(p % 64, overlong), k)
    ensures And(words[p / 64], IntShift(p % 64, overlong)) != 0
  {
    BitAnd(words[p / 64], IntShift(p % 64, overlong), k);
    BitOfZero(k);
  }

  lemma TestPosition(words: seq<Word>, size: nat, p: nat, overlong: nat -> Word)
    requires Padded(words, size) && p <= size && Reaches(p, size)
    ensures And(words[p / 64], IntShift(p % 64, overlong)) != 0 <==> p in Members(words)
  {
    MembersIn(words);
    var w, m := words[p / 64], IntShift(p % 64, overlong);
    if In(words, p) {
      ShiftSelects(words, size, p, overlong, p);
      TestWord(words, p, overlong, p % 64);
    } else {
      forall k: nat
        ensures Bit(And(w, m), k) <==> Bit(0, k)
      {
        BitAnd(w, m, k);
        BitOfZero(k);
        if Bit(w, k) {
          Pow2Values();
          BitBound(w, 64, k);
          var q := p / 64 * 64 + k;
          assert q / 64 == p / 64 && q % 64 == k;
          ShiftSelects(words, size, p, overlong, q);
        }
      }
      BitsDetermine(And(w, m), 0);
    }
  }
}
