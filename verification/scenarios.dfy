/**
 Worked examples of the breakdown on small inputs, each evaluated from the
 definitions of the model.
 */
module Scenarios {
  import opened Deals
  import opened Resolver
  import opened Reporting

  // A two-hop chain A <- B <- C, all closed in the same month.
  const DealA := Deal("A", "2024-02", None)
  const DealB := Deal("B", "2024-02", Some("A"))
  const DealC := Deal("C", "2024-02", Some("B"))
  const ChainDeals := [DealA, DealB, DealC]
  const ChainRank: map<Name, nat> := map["B" := 0, "C" := 1]
  const ChainMap: ReferralMap := map["B" := "A", "C" := "B"]

  lemma ChainFilter()
    ensures ReferredDeals(ChainDeals) == [DealB, DealC]
  {
    assert [DealA, DealB, DealC][1..] == [DealB, DealC];
    assert [DealB, DealC][1..] == [DealC];
    assert ReferredDeals([DealC]) == [DealC];
  }

  lemma ChainBuild()
    ensures BuildMap(map[], [DealB, DealC]) == ChainMap
  {
    assert [DealB, DealC][1..] == [DealC];
    assert [DealC][1..] == [];
    assert map["B" := "A"]["C" := "B"] == ChainMap;
  }

  lemma ChainLookups()
    ensures Ranked(ChainMap, ChainRank)
    ensures FindRoot(ChainMap, ChainRank, "A") == ("A", ChainMap)
    ensures FindRoot(ChainMap, ChainRank, "B") == ("A", ChainMap)
  {
    assert ChainMap["B" := "A"] == ChainMap;
  }

  lemma ChainCounts()
    ensures Increment(Increment(map[], "2024-02", "A"), "2024-02", "A") == map["2024-02" := map["A" := 2]]
  {
    var counts: map<Name, nat> := map["A" := 1];
    assert counts["A" := 2] == map["A" := 2];
  }

  lemma ChainTally()
    ensures && Ranked(ChainMap, ChainRank)
            && Tally(map[], ChainMap, ChainRank, [DealB, DealC]) == (map["2024-02" := map["A" := 2]], ChainMap)
  {
    ChainLookups();
    ChainCounts();
    assert [DealB, DealC][1..] == [DealC];
    var b1 := Increment(map[], "2024-02", "A");
    assert Tally(b1, ChainMap, ChainRank, [DealC]) == (Increment(b1, "2024-02", "A"), ChainMap);
  }

  /** Both referred deals are credited to A. Only B is ever looked up (nobody names
      C as referrer), so C keeps pointing at B after the breakdown. */
  lemma TwoHopChain()
    ensures && Ranked(BuildMap(map[], ReferredDeals(ChainDeals)), ChainRank)
            && ExtractMonthlyBreakdown(map[], ChainDeals, ChainRank)
               == (map["2024-02" := map["A" := 2]], map["B" := "A", "C" := "B"])
  {
    assert BuildMap(map[], ReferredDeals(ChainDeals)) == ChainMap by {
      ChainFilter();
      ChainBuild();
    }
    assert ReferredDeals(ChainDeals) == [DealB, DealC] by {
      ChainFilter();
    }
    ChainTally();
  }

  // A three-hop chain A <- B <- C <- D, where D closes a month later and A never
  // appears as a deal of its own.
  const HopB := Deal("B", "2024-03", Some("A"))
  const HopC := Deal("C", "2024-03", Some("B"))
  const HopD := Deal("D", "2024-04", Some("C"))
  const HopDeals := [HopB, HopC, HopD]
  const HopRank: map<Name, nat> := map["B" := 0, "C" := 1, "D" := 2]
  const HopMap: ReferralMap := map["B" := "A", "C" := "B", "D" := "C"]
  const HopCompressed: ReferralMap := map["B" := "A", "C" := "A", "D" := "C"]
  const HopBreakdown: Breakdown := map["2024-03" := map["A" := 2], "2024-04" := map["A" := 1]]

  lemma HopFilter()
    ensures ReferredDeals(HopDeals) == HopDeals
  {
    ReferredDealsAllReferred(HopDeals);
  }

  lemma HopBuild()
    ensures BuildMap(map[], [HopB, HopC, HopD]) == HopMap
  {
    assert BuildMap(map["B" := "A", "C" := "B"], [HopD]) == HopMap by {
      assert [HopD][1..] == [];
    }
    assert BuildMap(map["B" := "A"], [HopC, HopD]) == HopMap by {
      assert [HopC, HopD][1..] == [HopD];
    }
    assert [HopB, HopC, HopD][1..] == [HopC, HopD];
  }

  lemma HopRanked()
    ensures Ranked(HopMap, HopRank)
  {
  }

  lemma HopLookupB()
    ensures Ranked(HopMap, HopRank)
    ensures FindRoot(HopMap, HopRank, "B") == ("A", HopMap)
  {
    HopRanked();
    assert HopMap["B" := "A"] == HopMap;
  }

  lemma HopLookups()
    ensures Ranked(HopMap, HopRank)
    ensures FindRoot(HopMap, HopRank, "A") == ("A", HopMap)
    ensures FindRoot(HopMap, HopRank, "B") == ("A", HopMap)
    ensures FindRoot(HopMap, HopRank, "C") == ("A", HopCompressed)
  {
    HopLookupB();
    assert HopMap["C" := "A"] == HopCompressed;
  }

  lemma HopCounts()
    ensures Increment(map[], "2024-03", "A") == map["2024-03" := map["A" := 1]]
    ensures Increment(map["2024-03" := map["A" := 1]], "2024-03", "A") == map["2024-03" := map["A" := 2]]
    ensures Increment(map["2024-03" := map["A" := 2]], "2024-04", "A") == HopBreakdown
  {
    var counts: map<Name, nat> := map["A" := 1];
    assert counts["A" := 2] == map["A" := 2];
  }

  lemma HopTallyD()
    ensures && Ranked(HopMap, HopRank)
            && Tally(map["2024-03" := map["A" := 2]], HopMap, HopRank, [HopD]) == (HopBreakdown, HopCompressed)
  {
    HopLookups();
    HopCounts();
    assert [HopD][1..] == [];
  }

  lemma HopTallyCD()
    ensures && Ranked(HopMap, HopRank)
            && Tally(map["2024-03" := map["A" := 1]], HopMap, HopRank, [HopC, HopD]) == (HopBreakdown, HopCompressed)
  {
    HopLookups();
    HopCounts();
    assert [HopC, HopD][1..] == [HopD];
    HopTallyD();
  }

  lemma HopTally()
    ensures && Ranked(HopMap, HopRank)
            && Tally(map[], HopMap, HopRank, [HopB, HopC, HopD]) == (HopBreakdown, HopCompressed)
  {
    HopLookups();
    HopCounts();
    HopTallyCD();
    assert [HopB, HopC, HopD][1..] == [HopC, HopD];
  }

  /** All three referred deals are credited to A, split over the two months. Looking
      up D's referrer C walks C -> B -> A and rewrites C to point straight at A, while
      D, never looked up, keeps pointing at C. */
  lemma ThreeHopChain()
    ensures && Ranked(BuildMap(map[], ReferredDeals(HopDeals)), HopRank)
            && ExtractMonthlyBreakdown(map[], HopDeals, HopRank)
               == (map["2024-03" := map["A" := 2], "2024-04" := map["A" := 1]],
                   map["B" := "A", "C" := "A", "D" := "C"])
  {
    assert BuildMap(map[], ReferredDeals(HopDeals)) == HopMap by {
      HopFilter();
      HopBuild();
    }
    assert ReferredDeals(HopDeals) == [HopB, HopC, HopD] by {
      HopFilter();
    }
    HopTally();
  }
}
