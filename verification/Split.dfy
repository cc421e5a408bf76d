// The double divide-and-conquer splitter: t threads over p consecutive processors.
// Both ranges are halved together, the larger half to the left, until one thread or
// one processor remains.
module Split {
  import opened Bits

  /** The values the splitter assigns to t threads, for processors lo .. lo + p - 1. */
  function Assignment(t: nat, p: nat, lo: int): (s: seq<int>)
    requires t >= 1 && p >= 1
    ensures |s| == t
  {
    if t == 1 then [lo]
    else if p == 1 then seq(t, _ => lo)
    else Assignment((t + 1) / 2, (p + 1) / 2, lo) + Assignment(t / 2, p / 2, lo + (p + 1) / 2)
  }

  /** How many threads land on processor v. */
  function Load(t: nat, p: nat, lo: int, v: int): nat
    requires t >= 1 && p >= 1
  {
    multiset(Assignment(t, p, lo))[v]
  }

  /** The distance from entry i to the next entry, or to the end of the processors. */
  function Gap(t: nat, p: nat, lo: int, i: nat): int
    requires t >= 1 && p >= 1 && i < t
  {
    var s := Assignment(t, p, lo);
    (if i + 1 < t then s[i + 1] else lo + p) - s[i]
  }

  function CeilLog2(n: nat): nat
    requires n >= 1
  {
    if n == 1 then 0 else 1 + CeilLog2((n + 1) / 2)
  }

  /** n halved d times, rounding down: n / Pow2(d). */
  function Floor(n: nat, d: nat): nat {
    if d == 0 then n else Floor(n / 2, d - 1)
  }

  /** n halved d times, rounding up. */
  function Ceil(n: nat, d: nat): nat {
    if d == 0 then n else Ceil((n + 1) / 2, d - 1)
  }

  /** What Floor leaves over: n % Pow2(d). */
  function Rest(n: nat, d: nat): nat {
    if d == 0 then 0 else 2 * Rest(n / 2, d - 1) + n % 2
  }

  function Max(a: nat, b: nat): nat {
    if a < b then b else a
  }

  /** The largest load, in closed form: see PeakLoadExact. */
  function PeakLoad(t: nat, p: nat): nat
    requires t >= 1 && p >= 1
  {
    Peak(t, p, Log2(p))
  }

  function Peak(t: nat, p: nat, d: nat): nat {
    Max(1, Floor(t, d) + if Rest(t, d) > p - Pow2(d) then 1 else 0)
  }

  /** The smallest load, in closed form: see TroughLoadExact. */
  function TroughLoad(t: nat, p: nat): nat
    requires t >= 1 && p >= 1
  {
    Trough(t, p, Log2(p))
  }

  function Trough(t: nat, p: nat, d: nat): nat {
    TroughOf(Floor(t, d), Rest(t, d), p - Pow2(d))
  }

  /** With r processors more than a power of two, q threads for each of that many, and s threads left over. */
  function TroughOf(q: nat, s: nat, r: int): nat {
    if r == 0 then q else (q + if s >= r then 1 else 0) / 2
  }

  function Min(a: nat, b: nat): nat {
    if a < b then a else b
  }

  /** The threads are distributed equally: any two processors differ by at most one thread. */
  ghost predicate Balanced(t: nat, p: nat, lo: int)
    requires t >= 1 && p >= 1
  {
    forall v, w :: lo <= v < lo + p && lo <= w < lo + p ==> Load(t, p, lo, v) <= Load(t, p, lo, w) + 1
  }

  // ----- the method -----

  /** now is was with x written from position a on. */
  ghost predicate Overwritten(now: seq<int>, was: seq<int>, a: int, x: seq<int>) {
    |now| == |was| &&
    forall k :: 0 <= k < |now| ==> now[k] == if a <= k < a + |x| then x[k - a] else was[k]
  }

  lemma HalvesJoin(now: seq<int>, mid: seq<int>, was: seq<int>, tStart: int, tEnd: int, pStart: int, pEnd: int)
    requires tStart < tEnd && pStart < pEnd
    requires var tm, pm := (tEnd - tStart) / 2 + tStart, (pEnd - pStart) / 2 + pStart;
             && Overwritten(mid, was, tStart, Assignment(tm - tStart + 1, pm - pStart + 1, pStart))
             && Overwritten(now, mid, tm + 1, Assignment(tEnd - (tm + 1) + 1, pEnd - (pm + 1) + 1, pm + 1))
    ensures Overwritten(now, was, tStart, Assignment(tEnd - tStart + 1, pEnd - pStart + 1, pStart))
  {
    var t, p := tEnd - tStart + 1, pEnd - pStart + 1;
    Middle(tStart, tEnd);
    Middle(pStart, pEnd);
    AssignmentHalves(t, p, pStart);
    OverwrittenTwice(now, mid, was, tStart, Assignment((t + 1) / 2, (p + 1) / 2, pStart),
                     Assignment(t / 2, p / 2, pStart + (p + 1) / 2));
  }

  /** The middle of a range leaves the larger half on the left. */
  lemma Middle(start: int, end: int)
    ensures var n, m := end - start + 1, (end - start) / 2 + start;
            m - start + 1 == (n + 1) / 2 && end - (m + 1) + 1 == n / 2 && m + 1 == start + (n + 1) / 2
  {
  }

  lemma AssignmentHalves(t: nat, p: nat, lo: int)
    requires t >= 2 && p >= 2
    ensures Assignment(t, p, lo)
         == Assignment((t + 1) / 2, (p + 1) / 2, lo) + Assignment(t / 2, p / 2, lo + (p + 1) / 2)
  {
  }

  lemma OverwrittenTwice(now: seq<int>, mid: seq<int>, was: seq<int>, a: int, x: seq<int>, y: seq<int>)
    requires Overwritten(mid, was, a, x) && Overwritten(now, mid, a + |x|, y)
    ensures Overwritten(now, was, a, x + y)
  {
  }

  /** Fills procVect[tListStart..tListEnd + 1] and touches nothing else. */
  method CreateVector(procVect: array<int>, tListStart: int, tListEnd: int, pListStart: int, pListEnd: int)
    requires tListStart <= tListEnd && pListStart <= pListEnd ==> 0 <= tListStart && tListEnd < procVect.Length
    modifies procVect
    ensures tListStart > tListEnd || pListStart > pListEnd ==> procVect[..] == old(procVect[..])
    ensures tListStart <= tListEnd && pListStart <= pListEnd ==>
              Overwritten(procVect[..], old(procVect[..]), tListStart,
                          Assignment(tListEnd - tListStart + 1, pListEnd - pListStart + 1, pListStart))
    decreases tListEnd - tListStart
  {
    if tListStart > tListEnd || pListStart > pListEnd {
      return;
    }
    if tListStart == tListEnd {
      procVect[tListStart] := pListStart;
      return;
    }
    if pListStart == pListEnd {
      for index := tListStart to tListEnd + 1
        invariant forall k :: 0 <= k < procVect.Length ==>
                    procVect[k] == if tListStart <= k < index then pListStart else old(procVect[k])
      {
        procVect[index] := pListStart;
      }
      return;
    }
    var tListMiddle := (tListEnd - tListStart) / 2 + tListStart;
    var pListMiddle := (pListEnd - pListStart) / 2 + pListStart;
    CreateVector(procVect, tListStart, tListMiddle, pListStart, pListMiddle);
    ghost var halfway := procVect[..];
    CreateVector(procVect, tListMiddle + 1, tListEnd, pListMiddle + 1, pListEnd);
    HalvesJoin(procVect[..], halfway, old(procVect[..]), tListStart, tListEnd, pListStart, pListEnd);
  }

  // ----- shape -----

  lemma {:induction false} AssignmentShape(t: nat, p: nat, lo: int)
    requires t >= 1 && p >= 1
    ensures Assignment(t, p, lo)[0] == lo
    ensures forall i :: 0 <= i < t ==> lo <= Assignment(t, p, lo)[i] < lo + p
    ensures forall i, j :: 0 <= i <= j < t ==> Assignment(t, p, lo)[i] <= Assignment(t, p, lo)[j]
  {
    if t > 1 && p > 1 {
      AssignmentShape((t + 1) / 2, (p + 1) / 2, lo);
      AssignmentShape(t / 2, p / 2, lo + (p + 1) / 2);
    }
  }

  /** The larger half of the threads goes to the larger half of the processors, on the left. */
  lemma LargerHalvesFirst(t: nat, p: nat, lo: int, i: nat)
    requires t >= 2 && p >= 2 && i < t
    ensures Assignment(t, p, lo)[i] < lo + (p + 1) / 2 <==> i < (t + 1) / 2
  {
    AssignmentShape((t + 1) / 2, (p + 1) / 2, lo);
    AssignmentShape(t / 2, p / 2, lo + (p + 1) / 2);
  }

  lemma LoadOutside(t: nat, p: nat, lo: int, v: int)
    requires t >= 1 && p >= 1
    requires v < lo || v >= lo + p
    ensures Load(t, p, lo, v) == 0
  {
    AssignmentShape(t, p, lo);
    assert v !in Assignment(t, p, lo);
  }

  /** A processor of the left half is loaded by the left call only, and dually. */
  lemma LoadHalves(t: nat, p: nat, lo: int, v: int)
    requires t >= 2 && p >= 2
    ensures v < lo + (p + 1) / 2 ==> Load(t, p, lo, v) == Load((t + 1) / 2, (p + 1) / 2, lo, v)
    ensures v >= lo + (p + 1) / 2 ==> Load(t, p, lo, v) == Load(t / 2, p / 2, lo + (p + 1) / 2, v)
  {
    assert Load(t, p, lo, v) == Load((t + 1) / 2, (p + 1) / 2, lo, v) + Load(t / 2, p / 2, lo + (p + 1) / 2, v);
    if v < lo + (p + 1) / 2 {
      LoadOutside(t / 2, p / 2, lo + (p + 1) / 2, v);
    } else {
      LoadOutside((t + 1) / 2, (p + 1) / 2, lo, v);
    }
  }

  lemma LoadSingle(t: nat, p: nat, lo: int, v: int)
    requires t >= 1 && p >= 1 && (t == 1 || p == 1)
    ensures Load(t, p, lo, v) == if v == lo then t else 0
  {
    ConstantCount(Assignment(t, p, lo), lo, v);
  }

  lemma {:induction false} ConstantCount(s: seq<int>, c: int, v: int)
    requires forall i :: 0 <= i < |s| ==> s[i] == c
    ensures multiset(s)[v] == if v == c then |s| else 0
  {
    if s != [] {
      ConstantCount(s[1..], c, v);
      assert s == [s[0]] + s[1..];
    }
  }

  /** The load of the v-th processor, followed down the recursion. */
  function LoadByHalves(t: nat, p: nat, v: int): nat
    requires t >= 1 && p >= 1
  {
    if t == 1 || p == 1 then if v == 0 then t else 0
    else if v < (p + 1) / 2 then LoadByHalves((t + 1) / 2, (p + 1) / 2, v)
    else LoadByHalves(t / 2, p / 2, v - (p + 1) / 2)
  }

  lemma ByHalvesStep(t: nat, p: nat, v: int)
    requires t >= 2 && p >= 2
    ensures v < (p + 1) / 2 ==> LoadByHalves(t, p, v) == LoadByHalves((t + 1) / 2, (p + 1) / 2, v)
    ensures v >= (p + 1) / 2 ==> LoadByHalves(t, p, v) == LoadByHalves(t / 2, p / 2, v - (p + 1) / 2)
  {
  }

  lemma {:induction false} LoadIsByHalves(t: nat, p: nat, lo: int, v: int)
    requires t >= 1 && p >= 1
    ensures Load(t, p, lo, v) == LoadByHalves(t, p, v - lo)
  {
    if t == 1 || p == 1 {
      LoadSingle(t, p, lo, v);
    } else {
      var mid := lo + (p + 1) / 2;
      ByHalvesStep(t, p, v - lo);
      if v < mid {
        LoadIsByHalves((t + 1) / 2, (p + 1) / 2, lo, v);
        assert Load(t, p, lo, v) == Load((t + 1) / 2, (p + 1) / 2, lo, v) by { LoadHalves(t, p, lo, v); }
      } else {
        LoadIsByHalves(t / 2, p / 2, mid, v);
        assert v - lo - (p + 1) / 2 == v - mid;
        assert Load(t, p, lo, v) == Load(t / 2, p / 2, mid, v) by { LoadHalves(t, p, lo, v); }
      }
    }
  }

  // ----- halving -----

  lemma {:induction false} FloorRest(n: nat, d: nat)
    ensures Rest(n, d) < Pow2(d)
    ensures n == Pow2(d) * Floor(n, d) + Rest(n, d)
  {
    if d > 0 {
      FloorRest(n / 2, d - 1);
      assert Pow2(d) * Floor(n, d) == 2 * (Pow2(d - 1) * Floor(n, d));
    }
  }

  lemma MultiplyOrder(k: nat, a: nat, b: nat)
    ensures a < b ==> k * a + k <= k * b
  {
    if a < b {
      assert k * b == k * (a + 1) + k * (b - a - 1);
    }
  }

  /** Halving d times is division by Pow2(d). */
  lemma FloorIsQuotient(n: nat, d: nat)
    ensures Floor(n, d) == n / Pow2(d) && Rest(n, d) == n % Pow2(d)
  {
    FloorRest(n, d);
    QuotientUnique(n, Pow2(d), Floor(n, d), Rest(n, d));
  }

  lemma QuotientUnique(n: nat, k: nat, q: nat, r: nat)
    requires k >= 1 && n == k * q + r && r < k
    ensures n / k == q && n % k == r
  {
    var m := n / k;
    assert n == k * m + n % k;
    MultiplyOrder(k, m, q);
    MultiplyOrder(k, q, m);
  }

  lemma {:induction false} FloorMonotone(a: nat, b: nat, d: nat)
    requires a <= b
    ensures Floor(a, d) <= Floor(b, d) <= b
  {
    if d > 0 { FloorMonotone(a / 2, b / 2, d - 1); }
  }

  lemma {:induction false} CeilMonotone(a: nat, b: nat, d: nat)
    requires a <= b
    ensures Ceil(a, d) <= Ceil(b, d)
  {
    if d > 0 { CeilMonotone((a + 1) / 2, (b + 1) / 2, d - 1); }
  }

  lemma {:induction false} Successor(n: nat, d: nat)
    ensures if Rest(n, d) + 1 == Pow2(d)
            then Floor(n + 1, d) == Floor(n, d) + 1 && Rest(n + 1, d) == 0
            else Floor(n + 1, d) == Floor(n, d) && Rest(n + 1, d) == Rest(n, d) + 1
  {
    if d > 0 {
      if n % 2 == 0 {
        assert (n + 1) / 2 == n / 2;
      } else {
        assert (n + 1) / 2 == n / 2 + 1;
        Successor(n / 2, d - 1);
      }
    }
  }

  /** Rounding up exceeds rounding down by one exactly when something is left over. */
  lemma {:induction false} CeilIsFloor(n: nat, d: nat)
    ensures Ceil(n, d) == Floor(n, d) + if Rest(n, d) > 0 then 1 else 0
  {
    if d > 0 {
      CeilIsFloor((n + 1) / 2, d - 1);
      if n % 2 == 1 {
        assert (n + 1) / 2 == n / 2 + 1;
        Successor(n / 2, d - 1);
      }
    }
  }

  lemma {:induction false} CeilOnceMore(n: nat, d: nat)
    ensures Ceil(n, d + 1) == (Ceil(n, d) + 1) / 2
  {
    if d > 0 { CeilOnceMore((n + 1) / 2, d - 1); }
  }

  lemma {:induction false} CeilLog2Bound(n: nat)
    requires n >= 1
    ensures n <= Pow2(CeilLog2(n))
    ensures n > 1 ==> Pow2(CeilLog2(n)) < 2 * n
  {
    if n > 1 {
      var h := (n + 1) / 2;
      CeilLog2Bound(h);
      assert Pow2(CeilLog2(n)) == 2 * Pow2(CeilLog2(h));
    }
  }

  lemma {:induction false} Log2Bound(n: nat)
    requires n >= 1
    ensures Pow2(Log2(n)) <= n < 2 * Pow2(Log2(n))
  {
    if n > 1 { Log2Bound(n / 2); }
  }

  // ----- load -----

  lemma {:induction false} EveryProcessorUsed(t: nat, p: nat, v: nat)
    requires t >= p >= 1 && v < p
    ensures LoadByHalves(t, p, v) >= 1
  {
    if p > 1 {
      if v < (p + 1) / 2 {
        EveryProcessorUsed((t + 1) / 2, (p + 1) / 2, v);
      } else {
        EveryProcessorUsed(t / 2, p / 2, v - (p + 1) / 2);
      }
    }
  }

  lemma {:induction false} LoadAtLeast(t: nat, p: nat, v: nat, d: nat)
    requires t >= p >= 1 && v < p <= Pow2(d)
    ensures LoadByHalves(t, p, v) >= Floor(t, d)
  {
    if p == 1 {
      FloorMonotone(t, t, d);
    } else if v < (p + 1) / 2 {
      FloorMonotone(t / 2, (t + 1) / 2, d - 1);
      LoadAtLeast((t + 1) / 2, (p + 1) / 2, v, d - 1);
    } else {
      LoadAtLeast(t / 2, p / 2, v - (p + 1) / 2, d - 1);
    }
  }

  lemma {:induction false} CeilOfOne(d: nat)
    ensures Ceil(1, d) == 1
  {
    if d > 0 { CeilOfOne(d - 1); }
  }

  lemma {:induction false} LoadAtMost(t: nat, p: nat, v: nat, d: nat)
    requires t >= 1 && v < p && Pow2(d) <= p
    ensures LoadByHalves(t, p, v) <= Ceil(t, d)
  {
    if t == 1 || p == 1 {
      CeilOfOne(d);
    } else {
      var e := if d == 0 then 0 else d - 1;
      if v < (p + 1) / 2 {
        LoadAtMost((t + 1) / 2, (p + 1) / 2, v, e);
      } else {
        CeilMonotone(t / 2, (t + 1) / 2, e);
        LoadAtMost(t / 2, p / 2, v - (p + 1) / 2, e);
      }
    }
  }

  lemma BoundsByHalves(t: nat, p: nat, v: nat)
    requires t >= p >= 1 && v < p
    ensures 1 <= LoadByHalves(t, p, v)
    ensures t / Pow2(CeilLog2(p)) <= LoadByHalves(t, p, v)
    ensures LoadByHalves(t, p, v) <= t / Pow2(Log2(p)) + if t % Pow2(Log2(p)) > 0 then 1 else 0
  {
    EveryProcessorUsed(t, p, v);
    CeilLog2Bound(p);
    FloorIsQuotient(t, CeilLog2(p));
    LoadAtLeast(t, p, v, CeilLog2(p));
    Log2Bound(p);
    FloorIsQuotient(t, Log2(p));
    CeilIsFloor(t, Log2(p));
    LoadAtMost(t, p, v, Log2(p));
  }

  /** With at least as many threads as processors, every processor is used and the loads are bounded. */
  lemma LoadBounds(t: nat, p: nat, lo: int, v: int)
    requires t >= p >= 1 && lo <= v < lo + p
    ensures 1 <= Load(t, p, lo, v)
    ensures t / Pow2(CeilLog2(p)) <= Load(t, p, lo, v)
    ensures Load(t, p, lo, v) <= t / Pow2(Log2(p)) + if t % Pow2(Log2(p)) > 0 then 1 else 0
  {
    LoadIsByHalves(t, p, lo, v);
    BoundsByHalves(t, p, v - lo);
  }

  // ----- the exact peak -----

  lemma PeakLoadBase(t: nat, p: nat)
    requires t >= 1 && p >= 1 && (t == 1 || p == 1)
    ensures PeakLoad(t, p) == t
  {
    if p > 1 {
      Log2Bound(p);
      assert Floor(0, Log2(p) - 1) == 0 && Rest(0, Log2(p) - 1) == 0 by {
        FloorRest(0, Log2(p) - 1);
        FloorMonotone(0, 0, Log2(p) - 1);
      }
    }
  }

  lemma {:induction false} RestBound(n: nat, d: nat)
    ensures Rest(n, d) < Pow2(d)
  {
    if d > 0 { RestBound(n / 2, d - 1); }
  }

  /** What the right half of t threads, and of the left half, leave over. */
  lemma HalvesRest(t: nat, d: nat)
    ensures Floor(t, d + 1) == Floor(t / 2, d) && Rest(t, d + 1) == 2 * Rest(t / 2, d) + t % 2
    ensures Rest(t / 2, d) < Pow2(d)
    ensures if t % 2 == 0 || Rest(t / 2, d) + 1 < Pow2(d)
            then Floor((t + 1) / 2, d) == Floor(t / 2, d) && Rest((t + 1) / 2, d) == Rest(t / 2, d) + t % 2
            else Floor((t + 1) / 2, d) == Floor(t / 2, d) + 1 && Rest((t + 1) / 2, d) == 0
  {
    RestBound(t / 2, d);
    LargerHalf(t);
    if t % 2 == 1 { Successor(t / 2, d); }
  }

  lemma LargerHalf(t: nat)
    ensures (t + 1) / 2 == t / 2 + t % 2
  {
  }

  /** The left half may be a whole block of the next power of two. */
  lemma PeakHalvesFull(t: nat, d: nat)
    ensures Peak(t, 4 * Pow2(d) - 1, d + 1)
         == Max(Peak((t + 1) / 2, 2 * Pow2(d), d + 1), Peak(t / 2, 2 * Pow2(d) - 1, d))
  {
    FloorRest(t / 2, d);
    CeilIsFloor((t + 1) / 2, d + 1);
    CeilOnceMore((t + 1) / 2, d);
    CeilIsFloor(t, d + 1);
  }

  lemma PeakHalvesPart(t: nat, p: nat, d: nat)
    requires 2 * Pow2(d) <= p < 4 * Pow2(d) - 1
    ensures Peak(t, p, d + 1) == Max(Peak((t + 1) / 2, (p + 1) / 2, d), Peak(t / 2, p / 2, d))
  {
    HalvesRest(t, d);
  }

  /** The closed form obeys the recursion of the splitter. */
  lemma PeakLoadHalves(t: nat, p: nat)
    requires t >= 2 && p >= 2
    ensures PeakLoad(t, p) == Max(PeakLoad((t + 1) / 2, (p + 1) / 2), PeakLoad(t / 2, p / 2))
  {
    var d := Log2(p / 2);
    Log2Bound(p / 2);
    if p == 4 * Pow2(d) - 1 {
      Log2Unique((p + 1) / 2, d + 1);
      PeakHalvesFull(t, d);
    } else {
      Log2Unique((p + 1) / 2, d);
      PeakHalvesPart(t, p, d);
    }
  }

  lemma {:induction false} Log2Unique(n: nat, d: nat)
    requires Pow2(d) <= n < 2 * Pow2(d)
    ensures Log2(n) == d
  {
    if d > 0 { Log2Unique(n / 2, d - 1); }
  }

  lemma {:induction false} LoadAtMostPeak(t: nat, p: nat, v: int)
    requires t >= 1 && p >= 1
    ensures LoadByHalves(t, p, v) <= PeakLoad(t, p)
  {
    if t == 1 || p == 1 {
      PeakLoadBase(t, p);
    } else {
      PeakLoadHalves(t, p);
      if v < (p + 1) / 2 {
        LoadAtMostPeak((t + 1) / 2, (p + 1) / 2, v);
      } else {
        LoadAtMostPeak(t / 2, p / 2, v - (p + 1) / 2);
      }
    }
  }

  lemma {:induction false} PeakLoadReached(t: nat, p: nat) returns (w: nat)
    requires t >= 1 && p >= 1
    ensures w < p && LoadByHalves(t, p, w) == PeakLoad(t, p)
  {
    if t == 1 || p == 1 {
      PeakLoadBase(t, p);
      w := 0;
    } else {
      PeakLoadHalves(t, p);
      if PeakLoad((t + 1) / 2, (p + 1) / 2) < PeakLoad(t / 2, p / 2) {
        w := PeakLoadReached(t / 2, p / 2);
        w := w + (p + 1) / 2;
      } else {
        w := PeakLoadReached((t + 1) / 2, (p + 1) / 2);
      }
    }
  }

  /** No load exceeds the closed form, and processor w reaches it. */
  lemma PeakLoadExact(t: nat, p: nat, lo: int) returns (w: int)
    requires t >= 1 && p >= 1
    ensures forall v :: Load(t, p, lo, v) <= PeakLoad(t, p)
    ensures lo <= w < lo + p && Load(t, p, lo, w) == PeakLoad(t, p)
  {
    forall v
      ensures Load(t, p, lo, v) <= PeakLoad(t, p)
    {
      LoadIsByHalves(t, p, lo, v);
      LoadAtMostPeak(t, p, v - lo);
    }
    w := PeakLoadReached(t, p);
    w := lo + w;
    LoadIsByHalves(t, p, lo, w);
  }

  // ----- the exact trough -----

  lemma TroughLoadBase(t: nat, p: nat)
    requires t >= 1 && p >= 1 && (t == 1 || p == 1)
    ensures TroughLoad(t, p) == if p == 1 then t else 0
  {
    if p > 1 {
      Log2Bound(p);
      FloorRest(0, Log2(p) - 1);
      FloorMonotone(0, 0, Log2(p) - 1);
    }
  }

  lemma TroughOfHalves(q: nat, s: nat, e: nat, r: nat)
    requires e <= 1
    ensures TroughOf(q, 2 * s + e, r) == Min(TroughOf(q, s + e, (r + 1) / 2), TroughOf(q, s, r / 2))
  {
  }

  lemma TroughOfCarry(q: nat, s: nat, r: nat)
    requires r <= 2 * s
    ensures TroughOf(q, 2 * s + 1, r) == Min(TroughOf(q + 1, 0, (r + 1) / 2), TroughOf(q, s, r / 2))
  {
  }

  /** The left half may be a whole block of the next power of two. */
  lemma TroughHalvesFull(t: nat, d: nat)
    ensures Trough(t, 4 * Pow2(d) - 1, d + 1)
         == Min(Trough((t + 1) / 2, 2 * Pow2(d), d + 1), Trough(t / 2, 2 * Pow2(d) - 1, d))
  {
    HalvesRest(t, d);
    FloorOnceMore((t + 1) / 2, d);
  }

  lemma {:induction false} FloorOnceMore(n: nat, d: nat)
    ensures Floor(n, d + 1) == Floor(n, d) / 2
  {
    if d > 0 { FloorOnceMore(n / 2, d - 1); }
  }

  lemma TroughHalvesPart(t: nat, p: nat, d: nat)
    requires 2 * Pow2(d) <= p < 4 * Pow2(d) - 1
    ensures Trough(t, p, d + 1) == Min(Trough((t + 1) / 2, (p + 1) / 2, d), Trough(t / 2, p / 2, d))
  {
    var q, s, r := Floor(t / 2, d), Rest(t / 2, d), p - 2 * Pow2(d);
    assert (p + 1) / 2 - Pow2(d) == (r + 1) / 2 && p / 2 - Pow2(d) == r / 2;
    HalvesRest(t, d);
    if t % 2 == 0 || s + 1 < Pow2(d) {
      TroughOfHalves(q, s, t % 2, r);
    } else {
      TroughOfCarry(q, s, r);
    }
  }

  lemma TroughLoadHalves(t: nat, p: nat)
    requires t >= 2 && p >= 2
    ensures TroughLoad(t, p) == Min(TroughLoad((t + 1) / 2, (p + 1) / 2), TroughLoad(t / 2, p / 2))
  {
    var d := Log2(p / 2);
    Log2Bound(p / 2);
    if p == 4 * Pow2(d) - 1 {
      Log2Unique((p + 1) / 2, d + 1);
      TroughHalvesFull(t, d);
    } else {
      Log2Unique((p + 1) / 2, d);
      TroughHalvesPart(t, p, d);
    }
  }

  lemma {:induction false} LoadAtLeastTrough(t: nat, p: nat, v: nat)
    requires t >= 1 && v < p
    ensures TroughLoad(t, p) <= LoadByHalves(t, p, v)
  {
    if t == 1 || p == 1 {
      TroughLoadBase(t, p);
    } else {
      TroughLoadHalves(t, p);
      if v < (p + 1) / 2 {
        LoadAtLeastTrough((t + 1) / 2, (p + 1) / 2, v);
      } else {
        LoadAtLeastTrough(t / 2, p / 2, v - (p + 1) / 2);
      }
    }
  }

  lemma {:induction false} TroughLoadReached(t: nat, p: nat) returns (w: nat)
    requires t >= 1 && p >= 1
    ensures w < p && LoadByHalves(t, p, w) == TroughLoad(t, p)
  {
    if t == 1 || p == 1 {
      TroughLoadBase(t, p);
      w := p - 1;
    } else {
      TroughLoadHalves(t, p);
      if TroughLoad((t + 1) / 2, (p + 1) / 2) <= TroughLoad(t / 2, p / 2) {
        w := TroughLoadReached((t + 1) / 2, (p + 1) / 2);
      } else {
        w := TroughLoadReached(t / 2, p / 2);
        w := w + (p + 1) / 2;
      }
    }
  }

  /** No load is below the closed form, and processor w has it. */
  lemma TroughLoadExact(t: nat, p: nat, lo: int) returns (w: int)
    requires t >= 1 && p >= 1
    ensures forall v :: lo <= v < lo + p ==> TroughLoad(t, p) <= Load(t, p, lo, v)
    ensures lo <= w < lo + p && Load(t, p, lo, w) == TroughLoad(t, p)
  {
    forall v | lo <= v < lo + p
      ensures TroughLoad(t, p) <= Load(t, p, lo, v)
    {
      LoadIsByHalves(t, p, lo, v);
      LoadAtLeastTrough(t, p, v - lo);
    }
    w := TroughLoadReached(t, p);
    w := lo + w;
    LoadIsByHalves(t, p, lo, w);
  }

  // ----- equal distribution -----

  lemma BalancedByExtremes(t: nat, p: nat, lo: int)
    requires t >= 1 && p >= 1
    ensures Balanced(t, p, lo) <==> PeakLoad(t, p) <= TroughLoad(t, p) + 1
  {
    var v := PeakLoadExact(t, p, lo);
    var w := TroughLoadExact(t, p, lo);
  }

  /** The threads are distributed equally exactly when the processors are a power of two, or the threads are few:
      with b the largest power of two not above p, at most p + b of them, or p + 2 * b. */
  lemma BalanceIsExact(t: nat, p: nat, lo: int)
    requires t >= 1 && p >= 1
    ensures var b := Pow2(Log2(p)); Balanced(t, p, lo) <==> p == b || t <= p + b || t == p + 2 * b
  {
    var d := Log2(p);
    var b := Pow2(d);
    BalancedByExtremes(t, p, lo);
    Log2Bound(p);
    FloorRest(t, d);
    MultiplyOrder(b, Floor(t, d), 2);
    MultiplyOrder(b, Floor(t, d), 3);
    MultiplyOrder(b, Floor(t, d), 4);
    MultiplyOrder(b, 1, Floor(t, d));
    MultiplyOrder(b, 2, Floor(t, d));
    MultiplyOrder(b, 3, Floor(t, d));
  }

  /** Every number of threads is distributed equally exactly when the processors are a power of two. */
  lemma AlwaysBalancedOnPowerOfTwo(p: nat, lo: int)
    requires p >= 1
    ensures (forall t: nat :: t >= 1 ==> Balanced(t, p, lo)) <==> p == Pow2(Log2(p))
  {
    var b := Pow2(Log2(p));
    Log2Bound(p);
    if p == b {
      forall t: nat | t >= 1
        ensures Balanced(t, p, lo)
      {
        BalanceIsExact(t, p, lo);
      }
    } else {
      BalanceIsExact(p + b + 1, p, lo);
      assert !Balanced(p + b + 1, p, lo);
    }
  }

  // ----- spacing -----

  lemma GapHalves(t: nat, p: nat, lo: int, i: nat)
    requires t >= 2 && p >= 2 && i < t
    ensures i < (t + 1) / 2 ==> Gap(t, p, lo, i) == Gap((t + 1) / 2, (p + 1) / 2, lo, i)
    ensures i >= (t + 1) / 2 ==> Gap(t, p, lo, i) == Gap(t / 2, p / 2, lo + (p + 1) / 2, i - (t + 1) / 2)
  {
    AssignmentShape(t / 2, p / 2, lo + (p + 1) / 2);
  }

  lemma {:induction false} GapAtLeast(t: nat, p: nat, lo: int, i: nat, d: nat)
    requires 1 <= t <= p && i < t && t <= Pow2(d)
    ensures Gap(t, p, lo, i) >= 1 && Gap(t, p, lo, i) >= Floor(p, d)
  {
    if t == 1 {
      FloorMonotone(p, p, d);
    } else {
      GapHalves(t, p, lo, i);
      FloorMonotone(p / 2, (p + 1) / 2, d - 1);
      if i < (t + 1) / 2 {
        GapAtLeast((t + 1) / 2, (p + 1) / 2, lo, i, d - 1);
      } else {
        GapAtLeast(t / 2, p / 2, lo + (p + 1) / 2, i - (t + 1) / 2, d - 1);
      }
    }
  }

  lemma {:induction false} GapAtMost(t: nat, p: nat, lo: int, i: nat, d: nat)
    requires 1 <= t <= p && i < t && Pow2(d) <= t
    ensures Gap(t, p, lo, i) <= Ceil(p, d)
  {
    if t > 1 {
      var e := if d == 0 then 0 else d - 1;
      GapHalves(t, p, lo, i);
      CeilMonotone(p / 2, (p + 1) / 2, e);
      if i < (t + 1) / 2 {
        GapAtMost((t + 1) / 2, (p + 1) / 2, lo, i, e);
      } else {
        GapAtMost(t / 2, p / 2, lo + (p + 1) / 2, i - (t + 1) / 2, e);
      }
    }
  }

  /** With at most as many threads as processors, the entries are spaced out evenly. */
  lemma SpacingBounds(t: nat, p: nat, lo: int)
    requires 1 <= t <= p
    ensures Assignment(t, p, lo)[0] == lo
    ensures StrictlyIncreasing(Assignment(t, p, lo))
    ensures forall i :: 0 <= i < t ==> p / Pow2(CeilLog2(t)) <= Gap(t, p, lo, i)
    ensures forall i :: 0 <= i < t ==>
              Gap(t, p, lo, i) <= p / Pow2(Log2(t)) + if p % Pow2(Log2(t)) > 0 then 1 else 0
  {
    AssignmentShape(t, p, lo);
    CeilLog2Bound(t);
    Log2Bound(t);
    FloorIsQuotient(p, CeilLog2(t));
    FloorIsQuotient(p, Log2(t));
    CeilIsFloor(p, Log2(t));
    forall i | 0 <= i < t
      ensures 1 <= Gap(t, p, lo, i)
      ensures Floor(p, CeilLog2(t)) <= Gap(t, p, lo, i) <= Ceil(p, Log2(t))
    {
      GapAtLeast(t, p, lo, i, CeilLog2(t));
      GapAtMost(t, p, lo, i, Log2(t));
    }
    var s := Assignment(t, p, lo);
    forall i, j | 0 <= i < j < |s|
      ensures s[i] < s[j]
    {
      assert Gap(t, p, lo, i) == s[i + 1] - s[i];
    }
  }
}
