// The feature-flag update: one pass over a table of CPUID queries, with the responses
// memoised under a key order that only sees the sum of the request registers.
module CpuidMemo {
  import opened Bits

  type Word32 = w: nat | w < TWO_TO_THE_32

  datatype Regs = Regs(eax: Word32, ebx: Word32, ecx: Word32, edx: Word32)

  const ZERO := Regs(0, 0, 0, 0)
  const ONES := Regs(0xFFFF_FFFF, 0xFFFF_FFFF, 0xFFFF_FFFF, 0xFFFF_FFFF)

  /** A request, the bits its response must have, and the flag that says so. */
  datatype Query = Query(req: Regs, expected: Regs, flag: int)

  /** The 32-bit sum of the registers. */
  function Sum(r: Regs): Word32 {
    (r.eax + r.ebx + r.ecx + r.edx) % TWO_TO_THE_32
  }

  /** operator< on registers. */
  predicate Less(a: Regs, b: Regs) {
    Sum(a) < Sum(b)
  }

  function AndWord(x: Word32, y: Word32): Word32 {
    Pow2Values();
    AndWithinBoth(x, y, 32);
    And(x, y)
  }

  function AndRegs(a: Regs, b: Regs): Regs {
    Regs(AndWord(a.eax, b.eax), AndWord(a.ebx, b.ebx), AndWord(a.ecx, b.ecx), AndWord(a.edx, b.edx))
  }

  predicate HasFlag(expected: Regs, actual: Regs) {
    AndRegs(expected, actual) == expected
  }

  /** The first of the n first queries whose request has sum s, or n. */
  function FirstIn(table: seq<Query>, n: nat, s: Word32): (j: nat)
    requires n <= |table|
    ensures j <= n && (j < n ==> Sum(table[j].req) == s)
    ensures forall k :: 0 <= k < j ==> Sum(table[k].req) != s
  {
    if n == 0 then 0
    else
      var j := FirstIn(table, n - 1, s);
      if j < n - 1 then j else if Sum(table[n - 1].req) == s then n - 1 else n
  }

  /** The first query whose request is equivalent to that of query i. */
  function First(table: seq<Query>, i: nat): (j: nat)
    requires i < |table|
    ensures j <= i && Sum(table[j].req) == Sum(table[i].req)
    ensures forall k :: 0 <= k < j ==> Sum(table[k].req) != Sum(table[i].req)
  {
    FirstIn(table, i + 1, Sum(table[i].req))
  }

  /** What the memo answers for query i, and what a direct query would. */
  predicate MemoAnswer(table: seq<Query>, i: nat, cpuid: Regs -> Regs)
    requires i < |table|
  {
    HasFlag(table[i].expected, cpuid(table[First(table, i)].req))
  }

  predicate DirectAnswer(table: seq<Query>, i: nat, cpuid: Regs -> Regs)
    requires i < |table|
  {
    HasFlag(table[i].expected, cpuid(table[i].req))
  }

  /** The flags after the first n queries, query i being answered by answer(i). */
  function Flagged(flags: map<int, bool>, table: seq<Query>, n: nat, answer: nat -> bool): map<int, bool>
    requires n <= |table|
  {
    if n == 0 then flags else Flagged(flags, table, n - 1, answer)[table[n - 1].flag := answer(n - 1)]
  }

  function MemoAnswers(table: seq<Query>, cpuid: Regs -> Regs): nat -> bool {
    (i: nat) => i < |table| && MemoAnswer(table, i, cpuid)
  }

  function DirectAnswers(table: seq<Query>, cpuid: Regs -> Regs): nat -> bool {
    (i: nat) => i < |table| && DirectAnswer(table, i, cpuid)
  }

  function MemoFlags(flags: map<int, bool>, table: seq<Query>, cpuid: Regs -> Regs): map<int, bool> {
    Flagged(flags, table, |table|, MemoAnswers(table, cpuid))
  }

  function DirectFlags(flags: map<int, bool>, table: seq<Query>, cpuid: Regs -> Regs): map<int, bool> {
    Flagged(flags, table, |table|, DirectAnswers(table, cpuid))
  }

  /** The requests issued for the first n queries. */
  function Issued(table: seq<Query>, n: nat): seq<Regs>
    requires n <= |table|
  {
    if n == 0 then []
    else Issued(table, n - 1) + if First(table, n - 1) == n - 1 then [table[n - 1].req] else []
  }

  /** The memo after n queries.  Keys are equivalent when their sums are equal, so it is kept by sum. */
  function Memo(table: seq<Query>, n: nat, cpuid: Regs -> Regs): map<Word32, Regs>
    requires n <= |table|
  {
    if n == 0 then map[]
    else
      var raw := Memo(table, n - 1, cpuid);
      var req := table[n - 1].req;
      if Sum(req) in raw then raw else raw[Sum(req) := cpuid(req)]
  }

  /** The memo holds, for every sum that occurred, the response to the first request with that sum. */
  lemma {:induction false} MemoHoldsFirst(table: seq<Query>, n: nat, cpuid: Regs -> Regs, s: Word32)
    requires n <= |table|
    ensures s in Memo(table, n, cpuid) <==> FirstIn(table, n, s) < n
    ensures s in Memo(table, n, cpuid) ==> Memo(table, n, cpuid)[s] == cpuid(table[FirstIn(table, n, s)].req)
  {
    if n > 0 { MemoHoldsFirst(table, n - 1, cpuid, s); }
  }

  lemma MemoAnswersQuery(table: seq<Query>, i: nat, cpuid: Regs -> Regs)
    requires i < |table|
    ensures Sum(table[i].req) in Memo(table, i + 1, cpuid)
    ensures HasFlag(table[i].expected, Memo(table, i + 1, cpuid)[Sum(table[i].req)]) == MemoAnswer(table, i, cpuid)
    ensures Issued(table, i + 1)
         == Issued(table, i) + if Sum(table[i].req) in Memo(table, i, cpuid) then [] else [table[i].req]
  {
    MemoHoldsFirst(table, i, cpuid, Sum(table[i].req));
    MemoHoldsFirst(table, i + 1, cpuid, Sum(table[i].req));
  }

  /** Looks a request up in the memo, issuing it when no equivalent one has been. */
  method Lookup(raw: map<Word32, Regs>, table: seq<Query>, i: nat, cpuid: Regs -> Regs, ghost issued: seq<Regs>)
      returns (raw': map<Word32, Regs>, res: bool, ghost issued': seq<Regs>)
    requires i < |table| && raw == Memo(table, i, cpuid) && issued == Issued(table, i)
    ensures raw' == Memo(table, i + 1, cpuid) && issued' == Issued(table, i + 1)
    ensures res == MemoAnswer(table, i, cpuid)
  {
    var req := table[i].req;
    MemoAnswersQuery(table, i, cpuid);
    raw', issued' := raw, issued;
    if Sum(req) !in raw' {
      raw' := raw'[Sum(req) := cpuid(req)];
      issued' := issued' + [req];
    }
    res := HasFlag(table[i].expected, raw'[Sum(req)]);
  }

  class Flags {
    var avail: map<int, bool>
    var usable: map<int, bool>

    constructor ()
      ensures avail == map[] && usable == map[]
    {
      avail := map[];
      usable := map[];
    }

    method UpdateFlag(flag: int, res: bool)
      modifies this
      ensures avail == old(avail)[flag := res] && usable == old(usable)[flag := res]
    {
      avail := avail[flag := res];
      usable := usable[flag := res];
    }

    /** Runs the table: every flag gets what the memo answers, and a request is issued when its sum is new. */
    method Update(table: seq<Query>, cpuid: Regs -> Regs) returns (ghost issued: seq<Regs>)
      modifies this
      ensures avail == MemoFlags(old(avail), table, cpuid)
      ensures usable == MemoFlags(old(usable), table, cpuid)
      ensures issued == Issued(table, |table|)
      ensures SumsSeparate(table) ==> Answered(avail, old(avail), table, cpuid)
      ensures SumsSeparate(table) ==> Answered(usable, old(usable), table, cpuid)
    {
      var rawCpuid: map<Word32, Regs> := map[];
      issued := [];
      for i := 0 to |table|
        invariant rawCpuid == Memo(table, i, cpuid) && issued == Issued(table, i)
        invariant avail == Flagged(old(avail), table, i, MemoAnswers(table, cpuid))
        invariant usable == Flagged(old(usable), table, i, MemoAnswers(table, cpuid))
      {
        var res;
        rawCpuid, res, issued := Lookup(rawCpuid, table, i, cpuid, issued);
        UpdateFlag(table[i].flag, res);
      }
      if SumsSeparate(table) {
        FlagsAnswered(old(avail), table, cpuid);
        FlagsAnswered(old(usable), table, cpuid);
      }
    }
  }

  // ----- what the flags mean -----

  /** Every bit that is expected of a register is one in the response. */
  ghost predicate Covers(actual: Word32, expected: Word32) {
    forall k: nat :: Bit(expected, k) ==> Bit(actual, k)
  }

  lemma AndWordCovers(expected: Word32, actual: Word32)
    ensures AndWord(expected, actual) == expected <==> Covers(actual, expected)
  {
    forall k: nat
      ensures Bit(AndWord(expected, actual), k) <==> Bit(expected, k) && Bit(actual, k)
    {
      BitAnd(expected, actual, k);
    }
    if Covers(actual, expected) { BitsDetermine(AndWord(expected, actual), expected); }
  }

  /** A flag is there exactly when each register of the response has the bits expected of that register. */
  lemma HasFlagIsCover(expected: Regs, actual: Regs)
    ensures HasFlag(expected, actual) <==>
              && Covers(actual.eax, expected.eax) && Covers(actual.ebx, expected.ebx)
              && Covers(actual.ecx, expected.ecx) && Covers(actual.edx, expected.edx)
  {
    AndWordCovers(expected.eax, actual.eax);
    AndWordCovers(expected.ebx, actual.ebx);
    AndWordCovers(expected.ecx, actual.ecx);
    AndWordCovers(expected.edx, actual.edx);
  }

  /** The response to a query's own request has the bits the query expects. */
  ghost predicate ResponseCovers(q: Query, cpuid: Regs -> Regs) {
    var actual := cpuid(q.req);
    && Covers(actual.eax, q.expected.eax) && Covers(actual.ebx, q.expected.ebx)
    && Covers(actual.ecx, q.expected.ecx) && Covers(actual.edx, q.expected.edx)
  }

  ghost predicate NoLater(table: seq<Query>, i: nat, n: nat)
    requires i < n <= |table|
  {
    forall j :: i < j < n ==> table[j].flag != table[i].flag
  }

  /** Every flag of the table says what the response to its last query says; other flags are as they were. */
  ghost predicate Answered(now: map<int, bool>, was: map<int, bool>, table: seq<Query>, cpuid: Regs -> Regs) {
    && (forall i :: 0 <= i < |table| ==> table[i].flag in now)
    && (forall i :: 0 <= i < |table| && NoLater(table, i, |table|) ==>
          table[i].flag in now && (now[table[i].flag] <==> ResponseCovers(table[i], cpuid)))
    && (forall f :: (forall i :: 0 <= i < |table| ==> table[i].flag != f) ==>
          (f in now <==> f in was) && (f in now ==> now[f] == was[f]))
  }

  lemma {:induction false} LastAnswer(flags: map<int, bool>, table: seq<Query>, n: nat, answer: nat -> bool, i: nat)
    requires i < n <= |table|
    ensures var now := Flagged(flags, table, n, answer);
            table[i].flag in now && (NoLater(table, i, n) ==> now[table[i].flag] == answer(i))
  {
    if i < n - 1 {
      LastAnswer(flags, table, n - 1, answer, i);
      if NoLater(table, i, n) { assert NoLater(table, i, n - 1); }
    }
  }

  lemma {:induction false} OtherFlag(flags: map<int, bool>, table: seq<Query>, n: nat, answer: nat -> bool, f: int)
    requires n <= |table| && forall i :: 0 <= i < n ==> table[i].flag != f
    ensures var now := Flagged(flags, table, n, answer);
            (f in now <==> f in flags) && (f in now ==> now[f] == flags[f])
  {
    if n > 0 { OtherFlag(flags, table, n - 1, answer, f); }
  }

  lemma DirectFlagsAnswered(flags: map<int, bool>, table: seq<Query>, cpuid: Regs -> Regs)
    ensures Answered(DirectFlags(flags, table, cpuid), flags, table, cpuid)
  {
    var answer := DirectAnswers(table, cpuid);
    var now := DirectFlags(flags, table, cpuid);
    forall i | 0 <= i < |table|
      ensures table[i].flag in now
      ensures NoLater(table, i, |table|) ==> (now[table[i].flag] <==> ResponseCovers(table[i], cpuid))
    {
      LastAnswer(flags, table, |table|, answer, i);
      HasFlagIsCover(table[i].expected, cpuid(table[i].req));
      assert answer(i) == DirectAnswer(table, i, cpuid);
    }
    forall f | forall i :: 0 <= i < |table| ==> table[i].flag != f
      ensures (f in now <==> f in flags) && (f in now ==> now[f] == flags[f])
    {
      OtherFlag(flags, table, |table|, answer, f);
    }
  }

  lemma FlagsAnswered(flags: map<int, bool>, table: seq<Query>, cpuid: Regs -> Regs)
    requires SumsSeparate(table)
    ensures Answered(MemoFlags(flags, table, cpuid), flags, table, cpuid)
  {
    MemoIsDirect(flags, table, cpuid);
    DirectFlagsAnswered(flags, table, cpuid);
  }

  // ----- the memo against direct queries -----

  lemma AndZero(x: Word32)
    ensures AndWord(x, 0) == 0 && AndWord(0, x) == 0
    ensures AndWord(x, 0xFFFF_FFFF) == x
  {
    Pow2Values();
    AndAllOnes(x, 32);
    forall k: nat
      ensures Bit(And(x, 0), k) <==> Bit(0, k)
    {
      BitAnd(x, 0, k);
      BitOfZero(k);
    }
    BitsDetermine(And(x, 0), 0);
  }

  lemma HasFlagExtremes(expected: Regs)
    ensures HasFlag(expected, ONES)
    ensures HasFlag(expected, ZERO) <==> expected == ZERO
    ensures forall actual :: HasFlag(ZERO, actual)
  {
    AndZero(expected.eax);
    AndZero(expected.ebx);
    AndZero(expected.ecx);
    AndZero(expected.edx);
    forall actual
      ensures HasFlag(ZERO, actual)
    {
      AndZero(actual.eax);
      AndZero(actual.ebx);
      AndZero(actual.ecx);
      AndZero(actual.edx);
    }
  }

  /** Query i is answered as a direct query would be, on every machine, exactly when the request memoised for its
      sum is its own or it asks for no bit. */
  lemma MemoIsExact(table: seq<Query>, i: nat)
    requires i < |table|
    ensures (forall cpuid :: MemoAnswer(table, i, cpuid) == DirectAnswer(table, i, cpuid))
       <==> table[First(table, i)].req == table[i].req || table[i].expected == ZERO
  {
    HasFlagExtremes(table[i].expected);
    if table[First(table, i)].req != table[i].req && table[i].expected != ZERO {
      var cpuid := (r: Regs) => if r == table[i].req then ONES else ZERO;
      assert MemoAnswer(table, i, cpuid) != DirectAnswer(table, i, cpuid);
    }
  }

  /** Distinct requests of the table have distinct sums. */
  ghost predicate SumsSeparate(table: seq<Query>) {
    forall i, j :: 0 <= i < |table| && 0 <= j < |table| && Sum(table[i].req) == Sum(table[j].req)
                   ==> table[i].req == table[j].req
  }

  lemma AnswersAgree(table: seq<Query>, i: nat, cpuid: Regs -> Regs)
    requires i < |table| && SumsSeparate(table)
    ensures MemoAnswer(table, i, cpuid) == DirectAnswer(table, i, cpuid)
  {
    assert table[First(table, i)].req == table[i].req;
  }

  lemma {:induction false} FlagsAgree(flags: map<int, bool>, table: seq<Query>, n: nat, a: nat -> bool, b: nat -> bool)
    requires n <= |table| && forall i: nat :: i < n ==> a(i) == b(i)
    ensures Flagged(flags, table, n, a) == Flagged(flags, table, n, b)
  {
    if n > 0 { FlagsAgree(flags, table, n - 1, a, b); }
  }

  lemma MemoIsDirect(flags: map<int, bool>, table: seq<Query>, cpuid: Regs -> Regs)
    requires SumsSeparate(table)
    ensures MemoFlags(flags, table, cpuid) == DirectFlags(flags, table, cpuid)
  {
    var memo, direct := MemoAnswers(table, cpuid), DirectAnswers(table, cpuid);
    forall i: nat | i < |table|
      ensures memo(i) == direct(i)
    {
      AnswersAgree(table, i, cpuid);
    }
    FlagsAgree(flags, table, |table|, memo, direct);
  }

  lemma {:induction false} IssuedFirst(table: seq<Query>, n: nat, r: Regs) returns (k: nat)
    requires n <= |table| && r in Issued(table, n)
    ensures k < n && First(table, k) == k && table[k].req == r
  {
    if r in Issued(table, n - 1) {
      k := IssuedFirst(table, n - 1, r);
    } else {
      k := n - 1;
    }
  }

  lemma {:induction false} FirstIsIssued(table: seq<Query>, n: nat, k: nat)
    requires k < n <= |table| && First(table, k) == k
    ensures table[k].req in Issued(table, n)
  {
    if k < n - 1 { FirstIsIssued(table, n - 1, k); }
  }

  lemma NotIssuedBefore(table: seq<Query>, i: nat)
    requires i < |table| && First(table, i) == i
    ensures table[i].req !in Issued(table, i)
  {
    if table[i].req in Issued(table, i) {
      var k := IssuedFirst(table, i, table[i].req);
    }
  }

  lemma DistinctAppend(s: seq<Regs>, r: Regs)
    requires Distinct(s) && r !in s
    ensures Distinct(s + [r])
  {
  }

  lemma {:induction false} IssuedDistinct(table: seq<Query>, n: nat)
    requires n <= |table|
    ensures Distinct(Issued(table, n))
  {
    if n > 0 {
      IssuedDistinct(table, n - 1);
      if First(table, n - 1) == n - 1 {
        NotIssuedBefore(table, n - 1);
        DistinctAppend(Issued(table, n - 1), table[n - 1].req);
      }
    }
  }

  /** No request is issued twice, and none that the table does not hold. */
  lemma IssuedFromTable(table: seq<Query>, r: Regs)
    ensures Distinct(Issued(table, |table|))
    ensures r in Issued(table, |table|) ==> exists k :: 0 <= k < |table| && table[k].req == r
  {
    IssuedDistinct(table, |table|);
    if r in Issued(table, |table|) {
      var k := IssuedFirst(table, |table|, r);
    }
  }

  /** Every request of the table is issued exactly when distinct requests have distinct sums. */
  lemma EveryRequestIssued(table: seq<Query>)
    ensures (forall k :: 0 <= k < |table| ==> table[k].req in Issued(table, |table|)) <==> SumsSeparate(table)
  {
    if SumsSeparate(table) {
      forall k | 0 <= k < |table|
        ensures table[k].req in Issued(table, |table|)
      {
        var j := First(table, k);
        assert First(table, j) == j;
        FirstIsIssued(table, |table|, j);
      }
    }
    if forall k :: 0 <= k < |table| ==> table[k].req in Issued(table, |table|) {
      forall i, j | 0 <= i < |table| && 0 <= j < |table| && Sum(table[i].req) == Sum(table[j].req)
        ensures table[i].req == table[j].req
      {
        var a := IssuedFirst(table, |table|, table[i].req);
        var b := IssuedFirst(table, |table|, table[j].req);
      }
    }
  }

  /** The key is the 32-bit sum of all four registers: the sum without the carries out of 32 bits. */
  lemma SumWraps(r: Regs) returns (carries: nat)
    ensures carries <= 3
    ensures Sum(r) + carries * 0x1_0000_0000 == r.eax + r.ebx + r.ecx + r.edx
  {
    carries := (r.eax + r.ebx + r.ecx + r.edx) / 0x1_0000_0000;
  }

  /** The key order is a strict weak order whose equivalence is having equal sums. */
  lemma KeyOrder(a: Regs, b: Regs, c: Regs)
    ensures Less(a, b) <==>
              (a.eax + a.ebx + a.ecx + a.edx) % 0x1_0000_0000 < (b.eax + b.ebx + b.ecx + b.edx) % 0x1_0000_0000
    ensures !Less(a, a)
    ensures Less(a, b) && Less(b, c) ==> Less(a, c)
    ensures !Less(a, b) && !Less(b, a) <==> Sum(a) == Sum(b)
  {
  }

  /** The requests of the repository's own table; rows past the listed ones are all zero. */
  const LEAVES: seq<Regs> := [
    Regs(0x0000_0001, 0, 0, 0), Regs(0x0000_0006, 0, 0, 0), Regs(0x0000_0007, 0, 0, 0), Regs(0x0000_000d, 0, 0, 0),
    Regs(0x4000_0001, 0, 0, 0), Regs(0x8000_0001, 0, 0, 0), Regs(0x8000_0007, 0, 0, 0), Regs(0x8000_000A, 0, 0, 0),
    Regs(0xC000_0001, 0, 0, 0), Regs(0x0000_0007, 0, 1, 0), ZERO
  ]

  ghost predicate OverLeaves(table: seq<Query>) {
    forall i :: 0 <= i < |table| ==> table[i].req in LEAVES
  }

  lemma LeavesAreSeparate(table: seq<Query>)
    requires OverLeaves(table)
    ensures SumsSeparate(table)
  {
    assert forall a, b :: 0 <= a < |LEAVES| && 0 <= b < |LEAVES| && Sum(LEAVES[a]) == Sum(LEAVES[b]) ==> a == b;
    forall i, j | 0 <= i < |table| && 0 <= j < |table| && Sum(table[i].req) == Sum(table[j].req)
      ensures table[i].req == table[j].req
    {
      var a :| 0 <= a < |LEAVES| && LEAVES[a] == table[i].req;
      var b :| 0 <= b < |LEAVES| && LEAVES[b] == table[j].req;
    }
  }

  /** On tables over those requests, the flags are those of direct queries, and each request is issued once. */
  lemma RepositoryTableIsDirect(flags: map<int, bool>, table: seq<Query>, cpuid: Regs -> Regs)
    requires OverLeaves(table)
    ensures MemoFlags(flags, table, cpuid) == DirectFlags(flags, table, cpuid)
    ensures Distinct(Issued(table, |table|))
    ensures forall k :: 0 <= k < |table| ==> table[k].req in Issued(table, |table|)
    ensures Answered(MemoFlags(flags, table, cpuid), flags, table, cpuid)
  {
    LeavesAreSeparate(table);
    FlagsAnswered(flags, table, cpuid);
    MemoIsDirect(flags, table, cpuid);
    IssuedDistinct(table, |table|);
    EveryRequestIssued(table);
  }
}
