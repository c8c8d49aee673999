/**
 Independence of the breakdown from the order of the input deals. The counts are
 counts over the deals, so they depend only on which deals there are; the referral
 map depends on order only through the rule that a later `put` of the same name
 wins, which makes no difference when every referred name has a single referrer.
 */
module Ordering {
  import opened Deals
  import opened Resolver
  import opened Reporting

  /** Every referred deal of the same name names the same referrer. Holds in
      particular when names are unique. */
  ghost predicate ConsistentReferrals(deals: seq<Deal>) {
    forall d1, d2 :: d1 in deals && d2 in deals && IsReferred(d1) && IsReferred(d2) && d1.name == d2.name ==>
      d1.referredBy == d2.referredBy
  }

  lemma {:induction false} CreditedAppend(m: ReferralMap, rank: map<Name, nat>, a: seq<Deal>, b: seq<Deal>, mo: Month, n: Name)
    requires Ranked(m, rank)
    ensures Credited(m, rank, a + b, mo, n) == Credited(m, rank, a, mo, n) + Credited(m, rank, b, mo, n)
  {
    if a == [] {
      assert a + b == b;
    } else {
      assert (a + b)[1..] == a[1..] + b;
      CreditedAppend(m, rank, a[1..], b, mo, n);
    }
  }

  /** Removing the first element of `s` and one occurrence of it in `t` keeps two
      equal multisets equal. */
  lemma MultisetRemove<T>(s: seq<T>, t: seq<T>, k: int)
    requires multiset(s) == multiset(t)
    requires s != [] && 0 <= k < |t| && t[k] == s[0]
    ensures multiset(s[1..]) == multiset(t[..k] + t[k + 1..])
  {
    var t1, t2 := t[..k], t[k + 1..];
    assert t == t1 + [t[k]] + t2;
    assert s == [s[0]] + s[1..];
    assert multiset(t1 + t2) == multiset(t1) + multiset(t2);
    forall x
      ensures multiset(s[1..])[x] == multiset(t1 + t2)[x]
    {
      assert multiset(s)[x] == multiset(t)[x];
    }
    assert multiset(s[1..]) == multiset(t1 + t2);
  }

  /** Taking one deal out of the middle of a list takes its credit out of the count. */
  lemma CreditedSplice(m: ReferralMap, rank: map<Name, nat>, t: seq<Deal>, k: int, mo: Month, n: Name)
    requires Ranked(m, rank)
    requires 0 <= k < |t|
    ensures Credited(m, rank, t, mo, n)
      == Credited(m, rank, [t[k]], mo, n) + Credited(m, rank, t[..k] + t[k + 1..], mo, n)
  {
    var t1, t2 := t[..k], t[k + 1..];
    assert t == (t1 + [t[k]]) + t2;
    CreditedAppend(m, rank, t1 + [t[k]], t2, mo, n);
    CreditedAppend(m, rank, t1, [t[k]], mo, n);
    CreditedAppend(m, rank, t1, t2, mo, n);
  }

  /** A count depends only on the multiset of deals, not on their order. */
  lemma {:induction false} CreditedPermutation(m: ReferralMap, rank: map<Name, nat>, s: seq<Deal>, t: seq<Deal>, mo: Month, n: Name)
    requires Ranked(m, rank)
    requires multiset(s) == multiset(t)
    ensures Credited(m, rank, s, mo, n) == Credited(m, rank, t, mo, n)
    decreases |s|
  {
    if s == [] {
      assert |t| == |multiset(t)| == 0;
    } else {
      assert s[0] in multiset(t);
      var k :| 0 <= k < |t| && t[k] == s[0];
      MultisetRemove(s, t, k);
      CreditedPermutation(m, rank, s[1..], t[..k] + t[k + 1..], mo, n);
      CreditedSplice(m, rank, t, k, mo, n);
      assert [t[k]][1..] == [];
    }
  }

  /** With consistent referrals, every referred deal's name ends up mapped to its
      referrer, whatever the order. */
  lemma {:induction false} BuildMapConsistent(m: ReferralMap, deals: seq<Deal>)
    requires ConsistentReferrals(deals)
    ensures forall d :: d in deals && IsReferred(d) ==> BuildMap(m, deals)[d.name] == d.referredBy.value
    decreases |deals|
  {
    if deals != [] {
      var first, rest := deals[0], deals[1..];
      assert ConsistentReferrals(rest);
      BuildMapConsistent(Record(m, first), rest);
      forall d | d in deals && IsReferred(d)
        ensures BuildMap(m, deals)[d.name] == d.referredBy.value
      {
        if d.name in ReferredNames(rest) {
          var j :| 0 <= j < |rest| && IsReferred(rest[j]) && rest[j].name == d.name;
          assert rest[j] in rest;
        }
      }
    }
  }

  /** Two lists with the same deals have the same referred names. */
  lemma ReferredNamesSameDeals(s: seq<Deal>, t: seq<Deal>)
    requires forall d :: d in s <==> d in t
    ensures ReferredNames(s) == ReferredNames(t)
  {
    forall k | k in ReferredNames(s)
      ensures k in ReferredNames(t)
    {
      var i :| 0 <= i < |s| && IsReferred(s[i]) && s[i].name == k;
      assert s[i] in t;
    }
    forall k | k in ReferredNames(t)
      ensures k in ReferredNames(s)
    {
      var i :| 0 <= i < |t| && IsReferred(t[i]) && t[i].name == k;
      assert t[i] in s;
    }
  }

  /** The entry a consistent list builds for one of its referred deals. A single
      instance of `BuildMapConsistent`, kept apart so that the proof of
      `BuildMapSameDeals` sees one entry at a time instead of the quantified fact. */
  lemma BuildMapEntry(m: ReferralMap, deals: seq<Deal>, d: Deal)
    requires ConsistentReferrals(deals)
    requires d in deals && IsReferred(d)
    ensures BuildMap(m, deals)[d.name] == d.referredBy.value
  {
    BuildMapConsistent(m, deals);
  }

  /** Consistency depends only on which deals a list holds. Dafny proves it
      unaided; it is a separate lemma so that `BuildMapSameDeals` does not have to
      unfold both consistency quantifiers in its own, larger context. */
  lemma ConsistentSameDeals(s: seq<Deal>, t: seq<Deal>)
    requires forall d :: d in s <==> d in t
    requires ConsistentReferrals(s)
    ensures ConsistentReferrals(t)
  {
  }

  /** Two lists with the same deals and consistent referrals build the same map. */
  lemma BuildMapSameDeals(m: ReferralMap, s: seq<Deal>, t: seq<Deal>)
    requires forall d :: d in s <==> d in t
    requires ConsistentReferrals(s)
    ensures BuildMap(m, s) == BuildMap(m, t)
  {
    var bs, bt := BuildMap(m, s), BuildMap(m, t);
    ReferredNamesSameDeals(s, t);
    ConsistentSameDeals(s, t);
    forall k | k in bs
      ensures bs[k] == bt[k]
    {
      if k in ReferredNames(s) {
        var i :| 0 <= i < |s| && IsReferred(s[i]) && s[i].name == k;
        BuildMapEntry(m, s, s[i]);
        BuildMapEntry(m, t, s[i]);
      }
    }
  }

  /** Breakdowns without zero entries or empty months are equal when all their
      counts are. */
  lemma BreakdownExtensional(b1: Breakdown, b2: Breakdown)
    requires Positive(b1) && Positive(b2)
    requires forall mo, n :: Lookup(b1, mo, n) == Lookup(b2, mo, n)
    ensures b1 == b2
  {
    forall mo | mo in b1
      ensures mo in b2 && b1[mo] == b2[mo]
    {
      var n :| n in b1[mo];
      assert Lookup(b1, mo, n) > 0;
      assert mo in b2;
      assert b1[mo] == b2[mo] by {
        forall n' | n' in b1[mo] ensures n' in b2[mo] && b1[mo][n'] == b2[mo][n'] {
          assert Lookup(b1, mo, n') > 0;
        }
        forall n' | n' in b2[mo] ensures n' in b1[mo] {
          assert Lookup(b2, mo, n') > 0;
        }
      }
    }
    forall mo | mo in b2
      ensures mo in b1
    {
      var n :| n in b2[mo];
      assert Lookup(b2, mo, n) > 0;
    }
  }

  /** Filtering two orderings of the same deals and recording their referrers builds
      the same map. */
  lemma FilteredBuildSame(referredBy: ReferralMap, s: seq<Deal>, t: seq<Deal>)
    requires multiset(s) == multiset(t)
    requires ConsistentReferrals(s)
    ensures BuildMap(referredBy, ReferredDeals(s)) == BuildMap(referredBy, ReferredDeals(t))
  {
    var rs, rt := ReferredDeals(s), ReferredDeals(t);
    assert forall d :: d in rs <==> d in rt by {
      forall d ensures d in s <==> d in t {
        assert multiset(s)[d] == multiset(t)[d];
      }
    }
    BuildMapSameDeals(referredBy, rs, rt);
  }

  /** The walk from a referred deal's referrer is part of what a list holding that
      deal walks. */
  lemma {:induction false} WalkedContains(m: ReferralMap, rank: map<Name, nat>, t: seq<Deal>, d: Deal)
    requires Ranked(m, rank)
    requires d in t && IsReferred(d)
    ensures Chain(m, rank, d.referredBy.value) <= Walked(m, rank, t)
    decreases |t|
  {
    if t[0] != d {
      var i :| 0 <= i < |t| && t[i] == d;
      assert t[1..][i - 1] == d;
      WalkedContains(m, rank, t[1..], d);
    }
  }

  /** A list walks no more than a list holding all of its deals. */
  lemma {:induction false} WalkedSubset(m: ReferralMap, rank: map<Name, nat>, s: seq<Deal>, t: seq<Deal>)
    requires Ranked(m, rank)
    requires forall d :: d in s ==> d in t
    ensures Walked(m, rank, s) <= Walked(m, rank, t)
    decreases |s|
  {
    if s != [] {
      assert forall d :: d in s[1..] ==> d in s;
      WalkedSubset(m, rank, s[1..], t);
      if IsReferred(s[0]) {
        WalkedContains(m, rank, t, s[0]);
      }
    }
  }

  /** Reordering the input deals changes neither the breakdown nor the referral map
      left behind, as long as every referred name has a single referrer. */
  lemma ExtractOrderIndependent(referredBy: ReferralMap, s: seq<Deal>, t: seq<Deal>, rank: map<Name, nat>)
    requires multiset(s) == multiset(t)
    requires ConsistentReferrals(s)
    requires Ranked(BuildMap(referredBy, ReferredDeals(s)), rank)
    ensures && Ranked(BuildMap(referredBy, ReferredDeals(t)), rank)
            && ExtractMonthlyBreakdown(referredBy, s, rank) == ExtractMonthlyBreakdown(referredBy, t, rank)
  {
    FilteredBuildSame(referredBy, s, t);
    var built := BuildMap(referredBy, ReferredDeals(s));
    var (b1, m1) := ExtractMonthlyBreakdown(referredBy, s, rank);
    var (b2, m2) := ExtractMonthlyBreakdown(referredBy, t, rank);
    forall mo, n
      ensures Lookup(b1, mo, n) == Lookup(b2, mo, n)
    {
      CreditedPermutation(built, rank, s, t, mo, n);
    }
    BreakdownExtensional(b1, b2);
    assert Walked(built, rank, s) == Walked(built, rank, t) by {
      forall d ensures d in s <==> d in t {
        assert multiset(s)[d] == multiset(t)[d];
      }
      WalkedSubset(built, rank, s, t);
      WalkedSubset(built, rank, t, s);
    }
    RedirectedUnique(built, m1, m2, rank, Walked(built, rank, s));
  }
}
