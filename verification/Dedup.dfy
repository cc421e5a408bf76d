// std::sort, std::unique and the two orders on lists of masks.
module Dedup {
  import opened Bits
  import opened CoreLists

  type MaskList = seq<CoreMask>

  /** operator< on pairs. */
  predicate MaskLess(a: CoreMask, b: CoreMask) {
    a.mask < b.mask || (a.mask == b.mask && a.second < b.second)
  }

  /** operator< on vectors of pairs: lexicographic. */
  predicate ListLess(a: MaskList, b: MaskList) {
    b != [] && (a == [] || MaskLess(a[0], b[0]) || (a[0] == b[0] && ListLess(a[1..], b[1..])))
  }

  /** The final order: by the group of the first mask, then by the first mask; empty lists, which the
      original must not compare, come first here. */
  predicate CompareVectors(a: MaskList, b: MaskList) {
    b != [] && (a == [] || (if a[0].second == b[0].second then a[0].mask < b[0].mask else a[0].second < b[0].second))
  }

  /** a comes before b in dictionary order: where they first differ, a ends or has the smaller mask, or the same mask
      in a smaller group. */
  ghost predicate Precedes(a: MaskList, b: MaskList) {
    exists k: nat :: FirstDifference(a, b, k) &&
      (k == |a| || a[k].mask < b[k].mask || (a[k].mask == b[k].mask && a[k].second < b[k].second))
  }

  ghost predicate FirstDifference(a: MaskList, b: MaskList, k: nat) {
    k <= |a| && k < |b| && a[..k] == b[..k]
  }

  /** The lists are ordered by the group of their first masks, and within a group by the first mask. */
  ghost predicate OrderedByGroup(s: seq<MaskList>) {
    forall i, j :: 0 <= i < j < |s| && s[i] != [] && s[j] != [] ==>
      s[i][0].second < s[j][0].second || (s[i][0].second == s[j][0].second && s[i][0].mask <= s[j][0].mask)
  }

  /** What std::sort asks of a comparison. */
  ghost predicate StrictWeakOrder(less: (MaskList, MaskList) -> bool) {
    && (forall a :: !less(a, a))
    && (forall a, b, c :: less(a, b) && less(b, c) ==> less(a, c))
    && (forall a, b, c :: less(a, c) ==> less(a, b) || less(b, c))
  }

  ghost predicate SortedBy(s: seq<MaskList>, less: (MaskList, MaskList) -> bool) {
    forall i, j :: 0 <= i < j < |s| ==> !less(s[j], s[i])
  }

  function Insert(x: MaskList, s: seq<MaskList>, less: (MaskList, MaskList) -> bool): seq<MaskList> {
    if s == [] || !less(s[0], x) then [x] + s else [s[0]] + Insert(x, s[1..], less)
  }

  /** std::sort, of which only the sorted permutation matters. */
  function Sort(s: seq<MaskList>, less: (MaskList, MaskList) -> bool): seq<MaskList> {
    if s == [] then [] else Insert(s[0], Sort(s[1..], less), less)
  }

  /** std::unique followed by erase: one of each run of equal elements. */
  function Unique(s: seq<MaskList>): seq<MaskList> {
    if |s| <= 1 then s
    else if s[0] == s[1] then Unique(s[1..])
    else [s[0]] + Unique(s[1..])
  }

  // ----- sorting -----

  lemma {:induction false} InsertKeeps(x: MaskList, s: seq<MaskList>, less: (MaskList, MaskList) -> bool)
    ensures multiset(Insert(x, s, less)) == multiset{x} + multiset(s)
    ensures forall y :: y in Insert(x, s, less) ==> y == x || y in s
  {
    if s != [] && less(s[0], x) {
      InsertKeeps(x, s[1..], less);
      assert s == [s[0]] + s[1..];
    }
  }

  lemma SortedCons(y: MaskList, s: seq<MaskList>, less: (MaskList, MaskList) -> bool)
    requires SortedBy(s, less) && forall j :: 0 <= j < |s| ==> !less(s[j], y)
    ensures SortedBy([y] + s, less)
  {
  }

  lemma {:induction false} InsertSorted(x: MaskList, s: seq<MaskList>, less: (MaskList, MaskList) -> bool)
    requires StrictWeakOrder(less) && SortedBy(s, less)
    ensures SortedBy(Insert(x, s, less), less)
  {
    if s != [] && less(s[0], x) {
      var rest := Insert(x, s[1..], less);
      InsertSorted(x, s[1..], less);
      InsertKeeps(x, s[1..], less);
      forall j | 0 <= j < |rest|
        ensures !less(rest[j], s[0])
      {
        assert rest[j] in rest;
      }
      SortedCons(s[0], rest, less);
    } else {
      forall j | 0 <= j < |s|
        ensures !less(s[j], x)
      {
        assert j == 0 || !less(s[j], s[0]);
      }
      SortedCons(x, s, less);
    }
  }

  lemma {:induction false} SortSorts(s: seq<MaskList>, less: (MaskList, MaskList) -> bool)
    requires StrictWeakOrder(less)
    ensures SortedBy(Sort(s, less), less) && multiset(Sort(s, less)) == multiset(s)
  {
    if s != [] {
      SortSorts(s[1..], less);
      InsertSorted(s[0], Sort(s[1..], less), less);
      InsertKeeps(s[0], Sort(s[1..], less), less);
      assert s == [s[0]] + s[1..];
    }
  }

  // ----- the orders -----

  lemma {:induction false} ListLessTotal(a: MaskList, b: MaskList)
    ensures a == b || ListLess(a, b) || ListLess(b, a)
    ensures !(ListLess(a, b) && ListLess(b, a))
    ensures !ListLess(a, a)
  {
    if a != [] && b != [] {
      ListLessTotal(a[1..], b[1..]);
      assert a == [a[0]] + a[1..] && b == [b[0]] + b[1..];
    }
    if a != [] {
      ListLessTotal(a[1..], a[1..]);
    }
  }

  lemma {:induction false} ListLessTransitive(a: MaskList, b: MaskList, c: MaskList)
    requires ListLess(a, b) && ListLess(b, c)
    ensures ListLess(a, c)
  {
    if a != [] && a[0] == b[0] == c[0] { ListLessTransitive(a[1..], b[1..], c[1..]); }
  }

  lemma {:induction false} ListLessPrecedes(a: MaskList, b: MaskList)
    ensures ListLess(a, b) ==> Precedes(a, b)
  {
    if ListLess(a, b) {
      if a != [] && a[0] == b[0] && ListLess(a[1..], b[1..]) {
        ListLessPrecedes(a[1..], b[1..]);
        var k: nat :| FirstDifference(a[1..], b[1..], k) && (k == |a[1..]| || a[1..][k].mask < b[1..][k].mask
                        || (a[1..][k].mask == b[1..][k].mask && a[1..][k].second < b[1..][k].second));
        assert a[..k + 1] == [a[0]] + a[1..][..k] && b[..k + 1] == [b[0]] + b[1..][..k];
        assert FirstDifference(a, b, k + 1);
      } else {
        assert FirstDifference(a, b, 0);
      }
    }
  }

  lemma ListLessIsOrder()
    ensures StrictWeakOrder(ListLess)
  {
    forall a, b, c
      ensures !ListLess(a, a)
      ensures ListLess(a, b) && ListLess(b, c) ==> ListLess(a, c)
      ensures ListLess(a, c) ==> ListLess(a, b) || ListLess(b, c)
    {
      ListLessTotal(a, a);
      ListLessTotal(a, b);
      if ListLess(a, b) && ListLess(b, c) { ListLessTransitive(a, b, c); }
      if ListLess(a, c) && ListLess(b, a) { ListLessTransitive(b, a, c); }
    }
  }

  /** compareVectors is a strict weak order; two lists are equivalent when they start with the same mask and group. */
  lemma CompareVectorsIsOrder()
    ensures StrictWeakOrder(CompareVectors)
    ensures forall a: MaskList, b: MaskList ::
              a != [] && b != [] && !CompareVectors(a, b) && !CompareVectors(b, a) ==> a[0] == b[0]
  {
  }

  // ----- duplicates -----

  lemma {:induction false} UniqueStrict(s: seq<MaskList>)
    requires SortedBy(s, ListLess)
    ensures forall i, j :: 0 <= i < j < |Unique(s)| ==> ListLess(Unique(s)[i], Unique(s)[j])
    ensures forall x :: x in Unique(s) <==> x in s
  {
    if |s| > 1 {
      UniqueStrict(s[1..]);
      var rest := Unique(s[1..]);
      assert s == [s[0]] + s[1..];
      if s[0] == s[1] {
        assert s[0] in s[1..];
      } else {
        forall j | 0 <= j < |rest|
          ensures ListLess(s[0], rest[j])
        {
          assert rest[j] in s[1..];
          var k :| 1 <= k < |s| && s[k] == rest[j];
          ListLessTotal(s[0], s[1]);
          ListLessTotal(s[1], s[k]);
          if k > 1 && s[1] != s[k] { ListLessTransitive(s[0], s[1], s[k]); }
        }
      }
    }
  }

  /** Sorts and drops duplicates: every list that occurs is kept, and kept once. */
  method EliminateDuplicates(map0: seq<MaskList>) returns (map1: seq<MaskList>)
    ensures Distinct(map1)
    ensures forall x :: x in map1 <==> x in map0
    ensures forall i, j :: 0 <= i < j < |map1| ==> Precedes(map1[i], map1[j])
  {
    map1 := Sort(map0, ListLess);
    ListLessIsOrder();
    SortSorts(map0, ListLess);
    SameMembers(map1, map0);
    UniqueStrict(map1);
    map1 := Unique(map1);
    forall i, j | 0 <= i < j < |map1|
      ensures map1[i] != map1[j]
    {
      ListLessTotal(map1[i], map1[i]);
    }
    forall i, j | 0 <= i < j < |map1|
      ensures Precedes(map1[i], map1[j])
    {
      ListLessPrecedes(map1[i], map1[j]);
    }
  }

  lemma SameMembers(a: seq<MaskList>, b: seq<MaskList>)
    requires multiset(a) == multiset(b)
    ensures forall x :: x in a <==> x in b
  {
    assert forall x :: x in a <==> x in multiset(a);
    assert forall x :: x in b <==> x in multiset(b);
  }

  lemma {:induction false} DistinctIsMultiplicityOne(s: seq<MaskList>)
    ensures Distinct(s) <==> forall x :: multiset(s)[x] <= 1
  {
    if s != [] {
      DistinctIsMultiplicityOne(s[1..]);
      assert s == [s[0]] + s[1..];
      if Distinct(s) {
        assert Distinct(s[1..]);
        assert s[0] !in s[1..];
      } else if Distinct(s[1..]) {
        assert s[0] in s[1..];
        assert multiset(s)[s[0]] >= 2;
      } else {
        var x :| multiset(s[1..])[x] > 1;
        assert multiset(s)[x] > 1;
      }
    }
  }

  /** The second sort reorders the lists and keeps them distinct. */
  method Reorder(map0: seq<MaskList>) returns (map1: seq<MaskList>)
    ensures multiset(map1) == multiset(map0) && OrderedByGroup(map1)
    ensures Distinct(map0) ==> Distinct(map1)
  {
    map1 := Sort(map0, CompareVectors);
    CompareVectorsIsOrder();
    SortSorts(map0, CompareVectors);
    DistinctIsMultiplicityOne(map0);
    DistinctIsMultiplicityOne(map1);
    assert SortedBy(map1, CompareVectors);
  }
}
