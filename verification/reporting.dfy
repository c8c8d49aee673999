/**
 The monthly breakdown: discard the deals without a referrer, record every remaining
 deal's referrer in the referral map, then credit each remaining deal to the initial
 referrer of its chain in the month the deal closed.
 */
module Reporting {
  import opened Deals
  import opened Resolver
  import opened Sums

  /** month -> (initial referrer -> number of deals credited) */
  type Breakdown = map<Month, map<Name, nat>>

  /** The count recorded for `n` in month `mo`, zero when there is no entry. */
  function Lookup(b: Breakdown, mo: Month, n: Name): nat {
    if mo in b && n in b[mo] then b[mo][n] else 0
  }

  /** No month without referrers and no zero count. */
  ghost predicate Positive(b: Breakdown) {
    && (forall mo :: mo in b ==> b[mo] != map[])
    && (forall mo, n :: mo in b && n in b[mo] ==> b[mo][n] >= 1)
  }

  /** The sum of all counts of a breakdown. */
  ghost function Total(b: Breakdown): nat {
    Sum(MonthTotals(b))
  }

  /** The sum of the counts of each month. */
  ghost function MonthTotals(b: Breakdown): map<Month, nat> {
    map mo | mo in b :: Sum(b[mo])
  }

  /** Deal `i` carries a referrer and no later deal of the same name does, so its
      entry is the one a sequence of puts leaves behind. */
  ghost predicate LastReferral(deals: seq<Deal>, i: int)
    requires 0 <= i < |deals|
  {
    && IsReferred(deals[i])
    && forall j :: i < j < |deals| ==> !(IsReferred(deals[j]) && deals[j].name == deals[i].name)
  }

  /** One `put` of the first loop: a referred deal's referrer is stored under its
      name, replacing any earlier entry; a deal without a referrer changes nothing. */
  function Record(m: ReferralMap, d: Deal): (r: ReferralMap)
    ensures r.Keys == m.Keys + (if IsReferred(d) then {d.name} else {})
    ensures IsReferred(d) ==> r[d.name] == d.referredBy.value
    ensures forall k :: k in m && !(IsReferred(d) && k == d.name) ==> r[k] == m[k]
  {
    if IsReferred(d) then m[d.name := d.referredBy.value] else m
  }

  /** Records every referred deal's referrer under the deal's name, in order, on top
      of the entries `m` already holds. */
  function BuildMap(m: ReferralMap, deals: seq<Deal>): (r: ReferralMap)
    ensures r.Keys == m.Keys + ReferredNames(deals)
    ensures forall k :: k in m && k !in ReferredNames(deals) ==> r[k] == m[k]
    decreases |deals|
  {
    if deals == [] then m
    else
      ReferredNamesCons(deals);
      BuildMap(Record(m, deals[0]), deals[1..])
  }

  /** The entry of a referred name is the referrer of the last referred deal of that
      name: a later put of the same name overwrites an earlier one. */
  lemma {:induction false} BuildMapLastWins(m: ReferralMap, deals: seq<Deal>, i: int)
    requires 0 <= i < |deals| && LastReferral(deals, i)
    ensures BuildMap(m, deals)[deals[i].name] == deals[i].referredBy.value
    decreases |deals|
  {
    var first, rest := deals[0], deals[1..];
    if i == 0 {
      assert first.name !in ReferredNames(rest) by {
        forall j | 0 <= j < |rest| && IsReferred(rest[j])
          ensures rest[j].name != first.name
        {
          assert rest[j] == deals[j + 1];
        }
      }
    } else {
      assert rest[i - 1] == deals[i];
      assert LastReferral(rest, i - 1) by {
        forall j | i - 1 < j < |rest|
          ensures !(IsReferred(rest[j]) && rest[j].name == rest[i - 1].name)
        {
          assert rest[j] == deals[j + 1];
        }
      }
      BuildMapLastWins(Record(m, first), rest, i - 1);
    }
  }

  /** A deal that is the last referred deal of its name in the input is, at its
      place in the filtered list, the last referred deal of its name there too. */
  lemma LastReferralFiltered(deals: seq<Deal>, j: int)
    requires 0 <= j < |deals| && LastReferral(deals, j)
    ensures var r, i := ReferredDeals(deals), |ReferredDeals(deals[..j])|;
      i < |r| && r[i] == deals[j] && LastReferral(r, i)
  {
    var a, d, c := deals[..j], deals[j], deals[j + 1..];
    assert deals == a + [d] + c;
    ReferredDealsAround(a, d, c);
    NoLaterNamesake(deals, j);
    LastAfterFilter(ReferredDeals(a), d, c);
  }

  /** No deal after the last referral of a name carries a referrer under that name. */
  lemma NoLaterNamesake(deals: seq<Deal>, j: int)
    requires 0 <= j < |deals| && LastReferral(deals, j)
    ensures forall x | x in deals[j + 1..] :: !(IsReferred(x) && x.name == deals[j].name)
  {
    var c := deals[j + 1..];
    forall x | x in c
      ensures !(IsReferred(x) && x.name == deals[j].name)
    {
      var k :| 0 <= k < |c| && c[k] == x;
      assert c[k] == deals[j + 1 + k];
    }
  }

  /** A referred deal followed only by deals of other names stays last of its name
      once the tail is filtered. */
  lemma LastAfterFilter(ra: seq<Deal>, d: Deal, c: seq<Deal>)
    requires IsReferred(d)
    requires forall x | x in c :: !(IsReferred(x) && x.name == d.name)
    ensures LastReferral(ra + [d] + ReferredDeals(c), |ra|)
  {
    var rc := ReferredDeals(c);
    forall k | |ra| < k < |ra| + 1 + |rc|
      ensures !(IsReferred((ra + [d] + rc)[k]) && (ra + [d] + rc)[k].name == d.name)
    {
      assert (ra + [d] + rc)[k] == rc[k - |ra| - 1];
      assert rc[k - |ra| - 1] in rc;
    }
  }

  /** Last put wins, stated over the unfiltered input: when deal `j` is the last
      referred deal of its name among all the deals, the built map holds its
      referrer, because filtering keeps the input order. */
  lemma BuildMapLastWinsInput(m: ReferralMap, deals: seq<Deal>, j: int)
    requires 0 <= j < |deals| && LastReferral(deals, j)
    ensures BuildMap(m, ReferredDeals(deals))[deals[j].name] == deals[j].referredBy.value
  {
    LastReferralFiltered(deals, j);
    BuildMapLastWins(m, ReferredDeals(deals), |ReferredDeals(deals[..j])|);
  }

  /** Credits one more deal to `n` in month `mo`, creating missing entries at zero. */
  function Increment(b: Breakdown, mo: Month, n: Name): (r: Breakdown)
    ensures forall mo', n' :: Lookup(r, mo', n') == Lookup(b, mo', n') + (if mo' == mo && n' == n then 1 else 0)
    ensures r.Keys == b.Keys + {mo}
    ensures Positive(b) ==> Positive(r)
  {
    var counts := if mo in b then b[mo] else map[];
    var c := if n in counts then counts[n] else 0;
    var r := b[mo := counts[n := c + 1]];
    assert forall mo' :: mo' != mo ==> Lookup(r, mo', n) == Lookup(b, mo', n);
    r
  }

  /** Every increment adds exactly one to the total. */
  lemma IncrementTotal(b: Breakdown, mo: Month, n: Name)
    ensures Total(Increment(b, mo, n)) == Total(b) + 1
  {
    var counts := if mo in b then b[mo] else map[];
    var c := if n in counts then counts[n] else 0;
    var counts' := counts[n := c + 1];
    assert Increment(b, mo, n) == b[mo := counts'];
    SumUpdate(counts, n, c + 1);
    MonthTotalsUpdate(b, mo, counts');
    SumUpdate(MonthTotals(b), mo, Sum(counts'));
  }

  /** Replacing one month's counts replaces that month's total and no other. */
  lemma MonthTotalsUpdate(b: Breakdown, mo: Month, counts: map<Name, nat>)
    ensures MonthTotals(b[mo := counts]) == MonthTotals(b)[mo := Sum(counts)]
  {
    var outer, outer' := MonthTotals(b), MonthTotals(b[mo := counts]);
    forall mo' | mo' in outer'
      ensures outer'[mo'] == outer[mo := Sum(counts)][mo']
    {
      if mo' != mo {
        assert b[mo := counts][mo'] == b[mo'];
      }
    }
  }

  /** Reference definition of a count: the referred deals closed in `mo` whose
      referrer's chain ends at `n`. */
  ghost function Credited(m: ReferralMap, rank: map<Name, nat>, deals: seq<Deal>, mo: Month, n: Name): nat
    requires Ranked(m, rank)
  {
    if deals == [] then 0
    else
      var d := deals[0];
      (if IsReferred(d) && d.month == mo && Root(m, rank, d.referredBy.value) == n then 1 else 0)
      + Credited(m, rank, deals[1..], mo, n)
  }

  /** Counts depend on the map only through its roots, so compression keeps them. */
  lemma {:induction false} CreditedAfterCompression(m: ReferralMap, m2: ReferralMap, rank: map<Name, nat>, deals: seq<Deal>)
    requires Ranked(m, rank)
    requires Compresses(m, m2, rank)
    ensures forall mo, n :: Credited(m2, rank, deals, mo, n) == Credited(m, rank, deals, mo, n)
  {
    if deals != [] {
      CreditedAfterCompression(m, m2, rank, deals[1..]);
      if IsReferred(deals[0]) {
        CompressionKeepsRoots(m, m2, rank, deals[0].referredBy.value);
      }
    }
  }

  /** Deals without a referrer are never credited. */
  lemma {:induction false} CreditedIgnoresUnreferred(m: ReferralMap, rank: map<Name, nat>, deals: seq<Deal>, mo: Month, n: Name)
    requires Ranked(m, rank)
    ensures Credited(m, rank, ReferredDeals(deals), mo, n) == Credited(m, rank, deals, mo, n)
  {
    if deals != [] {
      CreditedIgnoresUnreferred(m, rank, deals[1..], mo, n);
    }
  }

  /** Only initial referrers are ever credited. */
  lemma {:induction false} CreditedOnlyRoots(m: ReferralMap, rank: map<Name, nat>, deals: seq<Deal>, mo: Month, n: Name)
    requires Ranked(m, rank)
    requires Credited(m, rank, deals, mo, n) > 0
    ensures n !in m
  {
    var d := deals[0];
    if IsReferred(d) && d.month == mo && Root(m, rank, d.referredBy.value) == n {
      RootIsNotKey(m, rank, d.referredBy.value);
    } else {
      CreditedOnlyRoots(m, rank, deals[1..], mo, n);
    }
  }

  /** The keys the counting loop walks: the chain from every referred deal's referrer. */
  ghost function Walked(m: ReferralMap, rank: map<Name, nat>, deals: seq<Deal>): set<Name>
    requires Ranked(m, rank)
  {
    if deals == [] then {}
    else
      (if IsReferred(deals[0]) then Chain(m, rank, deals[0].referredBy.value) else {})
        + Walked(m, rank, deals[1..])
  }

  /** After a closed set of keys is redirected, the later walks cover, together with
      that set, the keys they would have covered in the original map. */
  lemma {:induction false} WalkedAfterRedirect(m: ReferralMap, m2: ReferralMap, rank: map<Name, nat>, w: set<Name>, deals: seq<Deal>)
    requires Ranked(m, rank) && Compresses(m, m2, rank)
    requires Closed(m, w) && Redirected(m, m2, rank, w)
    ensures w + Walked(m2, rank, deals) == w + Walked(m, rank, deals)
    decreases |deals|
  {
    if deals != [] {
      WalkedAfterRedirect(m, m2, rank, w, deals[1..]);
      if IsReferred(deals[0]) {
        ChainAfterRedirect(m, m2, rank, w, deals[0].referredBy.value);
      }
    }
  }

  /** Deals without a referrer walk nothing. */
  lemma {:induction false} WalkedIgnoresUnreferred(m: ReferralMap, rank: map<Name, nat>, deals: seq<Deal>)
    requires Ranked(m, rank)
    ensures Walked(m, rank, ReferredDeals(deals)) == Walked(m, rank, deals)
    decreases |deals|
  {
    if deals != [] {
      WalkedIgnoresUnreferred(m, rank, deals[1..]);
      if IsReferred(deals[0]) {
        assert ([deals[0]] + ReferredDeals(deals[1..]))[1..] == ReferredDeals(deals[1..]);
      }
    }
  }

  /**
   The counting loop: in order, finds the root of each deal's referrer (compressing
   the map as it goes) and credits the deal to that root in the deal's month.
   */
  function Tally(b: Breakdown, m: ReferralMap, ghost rank: map<Name, nat>, deals: seq<Deal>): (res: (Breakdown, ReferralMap))
    requires Ranked(m, rank)
    requires forall i :: 0 <= i < |deals| ==> IsReferred(deals[i])
    ensures Compresses(m, res.1, rank)
    ensures Redirected(m, res.1, rank, Walked(m, rank, deals))
    ensures forall mo, n :: Lookup(res.0, mo, n) == Lookup(b, mo, n) + Credited(m, rank, deals, mo, n)
    ensures Positive(b) ==> Positive(res.0)
    decreases |deals|
  {
    if deals == [] then (b, m)
    else
      var d := deals[0];
      assert IsReferred(d);
      var (root, m1) := FindRoot(m, rank, d.referredBy.value);
      var res := Tally(Increment(b, d.month, root), m1, rank, deals[1..]);
      TallyStep(b, m, rank, deals, res);
      res
  }

  /** One lookup followed by the rest of the loop credits every deal to its root in
      the original map, compresses that map and redirects exactly the walked keys. */
  lemma TallyStep(b: Breakdown, m: ReferralMap, rank: map<Name, nat>, deals: seq<Deal>, res: (Breakdown, ReferralMap))
    requires Ranked(m, rank)
    requires deals != [] && IsReferred(deals[0])
    requires var (root, m1) := FindRoot(m, rank, deals[0].referredBy.value);
      && Compresses(m1, res.1, rank)
      && Redirected(m1, res.1, rank, Walked(m1, rank, deals[1..]))
      && forall mo, n :: Lookup(res.0, mo, n) == Lookup(Increment(b, deals[0].month, root), mo, n) + Credited(m1, rank, deals[1..], mo, n)
    ensures Compresses(m, res.1, rank)
    ensures Redirected(m, res.1, rank, Walked(m, rank, deals))
    ensures forall mo, n :: Lookup(res.0, mo, n) == Lookup(b, mo, n) + Credited(m, rank, deals, mo, n)
  {
    var x, rest := deals[0].referredBy.value, deals[1..];
    var (root, m1) := FindRoot(m, rank, x);
    var c := Chain(m, rank, x);
    CreditedAfterCompression(m, m1, rank, rest);
    CompressesTransitive(m, m1, res.1, rank);
    FindRootRedirects(m, rank, x);
    ChainClosed(m, rank, x);
    WalkedAfterRedirect(m, m1, rank, c, rest);
    RedirectedTwice(m, m1, res.1, rank, c, Walked(m1, rank, rest));
  }

  /** The counting loop adds one to the total per deal. */
  lemma {:induction false} TallyTotal(b: Breakdown, m: ReferralMap, rank: map<Name, nat>, deals: seq<Deal>)
    requires Ranked(m, rank)
    requires forall i :: 0 <= i < |deals| ==> IsReferred(deals[i])
    ensures Total(Tally(b, m, rank, deals).0) == Total(b) + |deals|
    decreases |deals|
  {
    if deals != [] {
      var d := deals[0];
      var (root, m1) := FindRoot(m, rank, d.referredBy.value);
      IncrementTotal(b, d.month, root);
      TallyTotal(Increment(b, d.month, root), m1, rank, deals[1..]);
    }
  }

  /** After the counting loop, every referrer that was looked up and has a recorded
      referrer of its own points straight at a root. */
  lemma {:induction false} TallyFlattens(b: Breakdown, m: ReferralMap, rank: map<Name, nat>, deals: seq<Deal>)
    requires Ranked(m, rank)
    requires forall i :: 0 <= i < |deals| ==> IsReferred(deals[i])
    ensures var m2 := Tally(b, m, rank, deals).1;
      forall d :: d in deals && IsReferred(d) && d.referredBy.value in m ==> m2[d.referredBy.value] !in m2
    decreases |deals|
  {
    if deals != [] {
      var d := deals[0];
      assert IsReferred(d);
      var p := d.referredBy.value;
      var (root, m1) := FindRoot(m, rank, p);
      var res := Tally(Increment(b, d.month, root), m1, rank, deals[1..]);
      TallyFlattens(Increment(b, d.month, root), m1, rank, deals[1..]);
      if p in m {
        CompressionKeepsFlat(m1, res.1, rank, p);
      }
      assert forall d' :: d' in deals ==> d' == d || d' in deals[1..];
    }
  }

  /** Counting the filtered deals from an empty breakdown gives exactly the reference
      counts of the unfiltered deals. */
  lemma CountsOfFiltered(m: ReferralMap, rank: map<Name, nat>, deals: seq<Deal>)
    requires Ranked(m, rank)
    ensures forall mo, n :: Lookup(Tally(map[], m, rank, ReferredDeals(deals)).0, mo, n) == Credited(m, rank, deals, mo, n)
  {
    var b := Tally(map[], m, rank, ReferredDeals(deals)).0;
    forall mo, n
      ensures Lookup(b, mo, n) == Credited(m, rank, deals, mo, n)
    {
      CreditedIgnoresUnreferred(m, rank, deals, mo, n);
    }
  }

  /** A breakdown whose counts are the reference counts credits only roots. */
  lemma CountsCreditRoots(m: ReferralMap, rank: map<Name, nat>, deals: seq<Deal>, b: Breakdown)
    requires Ranked(m, rank)
    requires Positive(b)
    requires forall mo, n :: Lookup(b, mo, n) == Credited(m, rank, deals, mo, n)
    ensures forall mo, n :: mo in b && n in b[mo] ==> n !in m
  {
    forall mo, n | mo in b && n in b[mo]
      ensures n !in m
    {
      assert Lookup(b, mo, n) > 0;
      CreditedOnlyRoots(m, rank, deals, mo, n);
    }
  }

  /** Counting the filtered deals from an empty breakdown totals the referred deals. */
  lemma TotalOfFiltered(m: ReferralMap, rank: map<Name, nat>, deals: seq<Deal>)
    requires Ranked(m, rank)
    ensures Total(Tally(map[], m, rank, ReferredDeals(deals)).0) == ReferredCount(deals)
  {
    assert Total(map[]) == 0;
    TallyTotal(map[], m, rank, ReferredDeals(deals));
    ReferredDealsLength(deals);
  }

  /**
   The whole breakdown of a list of deals, starting from the referral entries
   `referredBy` already holds (none for a fresh reporter). Returns the breakdown
   and the referral map as the lookups left it.
   */
  function ExtractMonthlyBreakdown(referredBy: ReferralMap, deals: seq<Deal>, ghost rank: map<Name, nat>): (res: (Breakdown, ReferralMap))
    requires Ranked(BuildMap(referredBy, ReferredDeals(deals)), rank)
    ensures forall mo, n :: Lookup(res.0, mo, n) == Credited(BuildMap(referredBy, ReferredDeals(deals)), rank, deals, mo, n)
    ensures Positive(res.0)
    ensures forall mo, n :: mo in res.0 && n in res.0[mo] ==> n !in BuildMap(referredBy, ReferredDeals(deals))
    ensures Total(res.0) == ReferredCount(deals)
    ensures res.1.Keys == referredBy.Keys + ReferredNames(deals)
    ensures Compresses(BuildMap(referredBy, ReferredDeals(deals)), res.1, rank)
    ensures var built := BuildMap(referredBy, ReferredDeals(deals));
      Redirected(built, res.1, rank, Walked(built, rank, deals))
  {
    var referred := ReferredDeals(deals);
    var built := BuildMap(referredBy, referred);
    var empty: Breakdown := map[];
    assert Positive(empty);
    var res := Tally(empty, built, rank, referred);
    CountsOfFiltered(built, rank, deals);
    CountsCreditRoots(built, rank, deals, res.0);
    TotalOfFiltered(built, rank, deals);
    ReferredNamesFiltered(deals);
    WalkedIgnoresUnreferred(built, rank, deals);
    res
  }

  /** The breakdown is the counting loop run over the filtered deals and the
      built map. */
  lemma ExtractIsTally(referredBy: ReferralMap, deals: seq<Deal>, rank: map<Name, nat>)
    requires Ranked(BuildMap(referredBy, ReferredDeals(deals)), rank)
    ensures ExtractMonthlyBreakdown(referredBy, deals, rank)
      == Tally(map[], BuildMap(referredBy, ReferredDeals(deals)), rank, ReferredDeals(deals))
  {
  }

  /** After the breakdown, every referrer of a referred deal that has a referrer of
      its own points straight at a root. */
  lemma ExtractFlattens(referredBy: ReferralMap, deals: seq<Deal>, rank: map<Name, nat>)
    requires Ranked(BuildMap(referredBy, ReferredDeals(deals)), rank)
    ensures var built, m2 := BuildMap(referredBy, ReferredDeals(deals)), ExtractMonthlyBreakdown(referredBy, deals, rank).1;
      forall d :: d in deals && IsReferred(d) && d.referredBy.value in built ==> m2[d.referredBy.value] !in m2
  {
    var referred := ReferredDeals(deals);
    var built := BuildMap(referredBy, referred);
    var m2 := Tally(map[], built, rank, referred).1;
    TallyFlattens(map[], built, rank, referred);
    forall d | d in deals && IsReferred(d) && d.referredBy.value in built
      ensures d.referredBy.value in m2 && m2[d.referredBy.value] !in m2
    {
      assert d in referred;
    }
    ExtractIsTally(referredBy, deals, rank);
  }
}
