/**
 The deal records the monthly breakdown is computed from. A deal is named, closes in
 some month, and may carry the name of the person who referred it.
 */
module Deals {

  /** An optional value; `None` stands for the source's null referrer. */
  datatype Option<+T> = None | Some(value: T)

  /** A person's name, used as a node of the referral graph. */
  type Name = string

  /** The `yyyy-MM` month a deal closed in, treated as an opaque key. */
  type Month = string

  datatype Deal = Deal(name: Name, month: Month, referredBy: Option<Name>)

  predicate IsReferred(d: Deal) {
    d.referredBy.Some?
  }

  /** The deals that carry a referrer, in their original order. */
  function ReferredDeals(deals: seq<Deal>): (r: seq<Deal>)
    ensures forall i :: 0 <= i < |r| ==> IsReferred(r[i])
    ensures forall d :: d in r <==> d in deals && IsReferred(d)
    ensures |r| <= |deals|
  {
    if deals == [] then []
    else
      var rest := ReferredDeals(deals[1..]);
      assert deals == [deals[0]] + deals[1..];
      if IsReferred(deals[0]) then [deals[0]] + rest else rest
  }

  /** The filtered list holds every deal that carries a referrer as many times as
      the input does, and no other deal. */
  lemma {:induction false} ReferredDealsMultiset(deals: seq<Deal>)
    ensures forall d :: multiset(ReferredDeals(deals))[d] == (if IsReferred(d) then multiset(deals)[d] else 0)
  {
    if deals != [] {
      ReferredDealsMultiset(deals[1..]);
      assert deals == [deals[0]] + deals[1..];
    }
  }

  /** Filtering keeps the input order: filtering a concatenation filters each part
      and concatenates the results. */
  lemma {:induction false} ReferredDealsAppend(a: seq<Deal>, b: seq<Deal>)
    ensures ReferredDeals(a + b) == ReferredDeals(a) + ReferredDeals(b)
    decreases |a|
  {
    if a == [] {
      assert a + b == b;
    } else {
      assert (a + b)[0] == a[0];
      assert (a + b)[1..] == a[1..] + b;
      ReferredDealsAppend(a[1..], b);
    }
  }

  /** A single deal with a referrer passes the filter. */
  lemma ReferredDealsSingle(d: Deal)
    requires IsReferred(d)
    ensures ReferredDeals([d]) == [d]
  {
    assert [d][1..] == [];
  }

  /** Around a referred deal, the filtered list is the filtered prefix, that deal,
      then the filtered suffix. */
  lemma ReferredDealsAround(a: seq<Deal>, d: Deal, c: seq<Deal>)
    requires IsReferred(d)
    ensures ReferredDeals(a + [d] + c) == ReferredDeals(a) + [d] + ReferredDeals(c)
  {
    ReferredDealsSingle(d);
    ReferredDealsAppend([d], c);
    assert a + [d] + c == a + ([d] + c);
    ReferredDealsAppend(a, [d] + c);
  }

  /** Filtering a list whose deals all carry a referrer keeps it as it is. */
  lemma {:induction false} ReferredDealsAllReferred(deals: seq<Deal>)
    requires forall i :: 0 <= i < |deals| ==> IsReferred(deals[i])
    ensures ReferredDeals(deals) == deals
  {
    if deals != [] {
      ReferredDealsAllReferred(deals[1..]);
      assert deals == [deals[0]] + deals[1..];
    }
  }

  /** The number of deals that carry a referrer. */
  function ReferredCount(deals: seq<Deal>): nat {
    if deals == [] then 0
    else (if IsReferred(deals[0]) then 1 else 0) + ReferredCount(deals[1..])
  }

  /** Filtering keeps exactly the deals that the count counts. */
  lemma {:induction false} ReferredDealsLength(deals: seq<Deal>)
    ensures |ReferredDeals(deals)| == ReferredCount(deals)
  {
    if deals != [] {
      ReferredDealsLength(deals[1..]);
    }
  }

  /** The names of the deals that carry a referrer. */
  function ReferredNames(deals: seq<Deal>): (r: set<Name>)
    ensures forall i :: 0 <= i < |deals| && IsReferred(deals[i]) ==> deals[i].name in r
  {
    set i | 0 <= i < |deals| && IsReferred(deals[i]) :: deals[i].name
  }

  /** Filtering out the deals without a referrer keeps every referred name. */
  lemma ReferredNamesFiltered(deals: seq<Deal>)
    ensures ReferredNames(ReferredDeals(deals)) == ReferredNames(deals)
  {
    var r := ReferredDeals(deals);
    forall n | n in ReferredNames(deals)
      ensures n in ReferredNames(r)
    {
      var i :| 0 <= i < |deals| && IsReferred(deals[i]) && deals[i].name == n;
      assert deals[i] in r;
    }
    forall n | n in ReferredNames(r)
      ensures n in ReferredNames(deals)
    {
      var i :| 0 <= i < |r| && IsReferred(r[i]) && r[i].name == n;
      assert r[i] in deals;
    }
  }

  /** The referred names of a list are those of its first deal, when it carries a
      referrer, plus those of the rest. */
  lemma ReferredNamesCons(deals: seq<Deal>)
    requires deals != []
    ensures ReferredNames(deals)
      == (if IsReferred(deals[0]) then {deals[0].name} else {}) + ReferredNames(deals[1..])
  {
    var rest := deals[1..];
    assert forall i :: 0 <= i < |rest| ==> rest[i] == deals[i + 1];
    forall n | n in ReferredNames(deals)
      ensures n in (if IsReferred(deals[0]) then {deals[0].name} else {}) + ReferredNames(rest)
    {
      var i :| 0 <= i < |deals| && IsReferred(deals[i]) && deals[i].name == n;
      if i > 0 {
        assert rest[i - 1] == deals[i];
      }
    }
  }
}
