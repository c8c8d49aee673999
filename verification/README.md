# Monthly referral breakdown — a Dafny model

The system reads a list of closed deals and reports, per month, how many deals each
*initial referrer* is credited with. A deal may name the person who referred it;
that person may in turn have been referred by someone else, and a deal is credited
to the first person of that referral chain, not to the intermediate referrer.

The model covers the two methods of `Reporting` that do this work:

- `getInitialReferrer`, a union-find style *find* over the map `referredBy`
  (name -> referrer). It follows parent links until it reaches a name that is not a
  key (the root), and on the way back rewrites every visited key to point straight
  at that root (path compression). Modelled as `Resolver.FindRoot`, a function that
  takes the map and returns the root together with the compressed map.
- `extractMonthlyBreakdown`, which drops the deals without a referrer, records every
  remaining deal's referrer in `referredBy`, then credits each remaining deal, in
  input order, to the root of its referrer in the month it closed. Modelled as
  `Reporting.ExtractMonthlyBreakdown`, built from `Deals.ReferredDeals` (the
  filter), `Reporting.BuildMap` (the first loop), `Reporting.Tally` (the second
  loop) and `Reporting.Increment` (one update of the breakdown table).

Modules: `Deals` (the deal record and the filter), `Sums` (sums over finite maps),
`Resolver` (the referral map and root lookup), `Reporting` (the breakdown),
`Ordering` (independence of the breakdown and the final map from the order of the
deals) and
`Scenarios` (worked examples: a two-hop chain in one month, and a three-hop chain
over two months whose top referrer never closes a deal).

Modelling decisions:

- Acyclicity. The source recurses until it reaches a root and never checks for
  cycles. The model makes acyclicity an explicit precondition: a ghost map `rank`
  such that every key has a rank and a parent that is itself a key has a strictly
  smaller rank (`Resolver.Ranked`). The rank is the termination measure of the
  lookup, and compression keeps the map ranked by the same `rank`.
- Reference definitions. `Resolver.Root` (follow parent links to a non-key) and
  `Resolver.Chain` (the keys visited on the way) say what a lookup should find and
  touch; `Reporting.Credited` says what a count should be (the referred deals of a
  month whose referrer's chain ends at a given root); `Reporting.Total` sums a
  breakdown. The contracts of the operations are stated against these.
- `Resolver.Compresses(m, m2, rank)` is the invariant the counting loop keeps: same
  keys, still ranked, and every entry either unchanged or redirected to the root of
  its key. Any such map has the same roots as the original
  (`Resolver.CompressionKeepsRoots`), which is why later lookups still find the
  roots of the map as first built.
- The `referredBy` map is a field of the reporting object, so entries from an
  earlier call are still present in a later one. The model takes the incoming map
  as a parameter (empty for a fresh object) and returns the map as the lookups
  leave it.
- The month is the `yyyy-MM` string the deal yields, treated as an opaque key.
- The `merge` followed by `put` at Reporting.java:57 stores the merged value back;
  its net effect is "add one, starting from zero", which is what `Increment` does.
- Names are not required to be unique. When two referred deals share a name, the
  later `put` wins (`Reporting.BuildMapLastWins` for the filtered list,
  `Reporting.BuildMapLastWinsInput` for the input, since the filter keeps the
  input order). The counts depend only on which
  deals there are, not on their order, as long as deals of the same name agree on
  their referrer, and under the same condition so does the referral map left
  behind (`Ordering.ExtractOrderIndependent`): the built map is the same, and the
  final map is fixed by the set of keys walked, whatever the order of the walks.
- The referral map left behind is exactly the built map with the keys on the
  chains actually walked pointing at their root and every other entry unchanged
  (`Resolver.Redirected` over `Reporting.Walked`, stated by `Reporting.Tally` and
  `Reporting.ExtractMonthlyBreakdown`). A later call starts from this map, so which
  entries were rewritten is observable. For the two-hop chain A <- B <- C, nobody
  names C as referrer, so C is never looked up and keeps pointing at B
  (`Scenarios.TwoHopChain`).

## Model

| member | source | states |
|---|---|---|
| Deals.ReferredDeals | src/main/java/Reporting.java:37-40 | every deal of the filtered list has a referrer, and a deal occurs in it exactly when it occurs in the input and has a referrer; the list is no longer than the input |
| Deals.ReferredDealsAppend | src/main/java/Reporting.java:38-40 | filtering keeps the input order: the filter of a concatenation is the concatenation of the filters |
| Deals.ReferredDealsAround | src/main/java/Reporting.java:38-40 | around a referred deal, the filtered list is the filtered prefix, that deal, then the filtered suffix |
| Deals.ReferredDealsMultiset | src/main/java/Reporting.java:38-40 | the filtered list holds every deal that has a referrer as many times as the input does, and no deal without one |
| Deals.ReferredDealsAllReferred | src/main/java/Reporting.java:38-40 | filtering a list in which every deal has a referrer leaves it unchanged |
| Deals.ReferredDealsLength | src/main/java/Reporting.java:38-40 | the filtered list is as long as the number of deals with a non-null referrer |
| Deals.ReferredNamesFiltered | src/main/java/Reporting.java:38-44 | the names recorded from the filtered list are exactly the names of the referred deals of the input |
| Resolver.FindRoot | src/main/java/Reporting.java:65-76 | returns the root of the chain from `x`, which is not a key afterwards; keeps the key set; rewrites exactly the keys on the chain from `x` to point at that root and leaves every other entry alone; a name that is not a key comes back unchanged with the map untouched |
| Resolver.RootIsNotKey | src/main/java/Reporting.java:65-76 | the name a lookup ends at has no recorded referrer |
| Resolver.ChainSharesRoot | src/main/java/Reporting.java:66-72 | every key visited on the way from `x` has the same root as `x`, so redirecting it to that root is sound |
| Resolver.CompressionKeepsRoots | src/main/java/Reporting.java:66-73 | after any compression, following parent links from any name reaches the same root as before |
| Resolver.CompressesTransitive | src/main/java/Reporting.java:68-72 | compressing an already compressed map is still a compression of the original, so a sequence of lookups keeps every root |
| Resolver.FindRootTwice | src/main/java/Reporting.java:65-76 | repeating a lookup, or looking up the root it returned, gives the same root and leaves the map exactly as the first lookup left it |
| Resolver.LookupKeepsOtherRoots | src/main/java/Reporting.java:65-76 | a lookup of one name does not change the root later found for any other name |
| Resolver.FindRootRedirects | src/main/java/Reporting.java:65-76 | a lookup points exactly the keys on the chain it walked at their root and leaves every other entry as it was |
| Resolver.ChainClosed | src/main/java/Reporting.java:67-68 | the keys a walk visits include the parent of each of them that is a key |
| Resolver.ClosedHoldsChain | src/main/java/Reporting.java:67-68 | a walk that starts in a set closed under parent links stays in it |
| Resolver.ChainAfterRedirect | src/main/java/Reporting.java:65-76 | after a closed set of keys is pointed at their roots, a walk in the new map covers, together with that set, the keys the walk in the old map covered |
| Resolver.RedirectedTwice | src/main/java/Reporting.java:68-72 | redirecting one set of keys and then another in the result redirects their union in the original map |
| Resolver.RedirectedUnique | src/main/java/Reporting.java:65-76 | redirecting the same keys of the same map gives the same map |
| Resolver.CompressionKeepsFlat | src/main/java/Reporting.java:72 | a key that points straight at a root keeps pointing at a root through any later compression |
| Reporting.Record | src/main/java/Reporting.java:44 | one put stores a referred deal's referrer under its name, adding the name to the keys and overwriting only that entry; a deal without a referrer changes nothing |
| Reporting.BuildMap | src/main/java/Reporting.java:42-45 | the keys are the incoming keys plus the names of the referred deals; an incoming entry whose name no referred deal carries is left as it was |
| Reporting.BuildMapLastWins | src/main/java/Reporting.java:43-45 | a referred name maps to the referrer of the last referred deal of that name, since each later put overwrites the earlier one |
| Reporting.NoLaterNamesake | src/main/java/Reporting.java:38-45 | after the last referred deal of a name, no deal carries a referrer under that name |
| Reporting.LastAfterFilter | src/main/java/Reporting.java:38-45 | a referred deal followed only by deals of other names is still last of its name after the tail is filtered |
| Reporting.LastReferralFiltered | src/main/java/Reporting.java:38-45 | the last referred deal of a name in the input stays the last referred deal of that name in the filtered list that is put |
| Reporting.BuildMapLastWinsInput | src/main/java/Reporting.java:38-45 | over the unfiltered input, a referred name maps to the referrer of the last deal of that name that has a referrer |
| Reporting.Increment | src/main/java/Reporting.java:56-58 | the count of (month, root) goes up by one, starting from zero when missing; every other count is unchanged; no zero entry or empty month is introduced |
| Reporting.IncrementTotal | src/main/java/Reporting.java:56-58 | each update adds exactly one to the sum of all counts |
| Reporting.MonthTotalsUpdate | src/main/java/Reporting.java:56-58 | storing a month's updated counts back changes that month's total to the sum of the new counts and leaves every other month's total as it was |
| Reporting.CreditedAfterCompression | src/main/java/Reporting.java:49-59 | the count credited to every (month, root) is the same whether roots are taken in the map as built or after compression |
| Reporting.CreditedIgnoresUnreferred | src/main/java/Reporting.java:37-40 | deals without a referrer contribute nothing to any count |
| Reporting.CreditedOnlyRoots | src/main/java/Reporting.java:52-53 | a name credited with a deal is never a key of the referral map |
| Reporting.WalkedAfterRedirect | src/main/java/Reporting.java:49-53 | after a closed set of keys is redirected, the later walks cover, together with that set, the keys they would have covered in the original map |
| Reporting.WalkedIgnoresUnreferred | src/main/java/Reporting.java:38-53 | deals without a referrer walk no keys |
| Reporting.TallyStep | src/main/java/Reporting.java:49-59 | one lookup followed by the rest of the loop credits every deal to its root in the original map and redirects exactly the keys walked from the original map |
| Reporting.Tally | src/main/java/Reporting.java:48-59 | the counting loop adds to each (month, root) the number of deals of that month whose referrer's chain ends at that root, and introduces no zero entries; the map it leaves is its input with exactly the keys on the walked chains pointing at their root and every other entry unchanged |
| Reporting.TallyTotal | src/main/java/Reporting.java:49-59 | the counting loop adds exactly one to the total per deal it processes |
| Reporting.TallyFlattens | src/main/java/Reporting.java:49-59 | after the counting loop every referrer that was looked up and has a referrer of its own points straight at a root |
| Reporting.CountsOfFiltered | src/main/java/Reporting.java:36-59 | counting the filtered deals from an empty table gives, for every (month, root), the reference count over the unfiltered input |
| Reporting.CountsCreditRoots | src/main/java/Reporting.java:49-59 | a table with no zero entries whose counts are the reference counts names only roots |
| Reporting.TotalOfFiltered | src/main/java/Reporting.java:36-59 | the counts of the table add up to the number of deals with a non-null referrer |
| Reporting.ExtractMonthlyBreakdown | src/main/java/Reporting.java:36-62 | each entry equals the number of referred deals of that month whose referrer's chain ends at that root; entries are at least one and months are never empty; only roots are credited; the counts add up to the number of referred deals; the referral map ends with the incoming keys plus the referred names, and is the built map with exactly the keys on the chains walked from the referred deals' referrers pointing at their root and every other entry unchanged |
| Reporting.ExtractFlattens | src/main/java/Reporting.java:49-59 | after the breakdown, the referrer of every referred deal that has a referrer of its own points straight at a root |
| Ordering.CreditedPermutation | src/main/java/Reporting.java:49-59 | the reference count of every (month, root) depends only on the multiset of deals, not on their order |
| Ordering.BuildMapConsistent | src/main/java/Reporting.java:43-45 | when deals of the same name agree on their referrer, every referred deal's name maps to its referrer, whatever the order of the puts |
| Ordering.BuildMapSameDeals | src/main/java/Reporting.java:43-45 | two lists with the same deals and consistent referrers build the same referral map |
| Ordering.WalkedContains | src/main/java/Reporting.java:49-53 | the chain from a referred deal's referrer is among the keys walked for any list holding that deal |
| Ordering.WalkedSubset | src/main/java/Reporting.java:49-53 | a list walks no more keys than a list holding all of its deals, so the walked keys do not depend on order |
| Ordering.ExtractOrderIndependent | src/main/java/Reporting.java:19-76 | reordering the input deals leaves both the breakdown and the referral map left behind unchanged, provided deals of the same name agree on their referrer |
| Scenarios.TwoHopChain | src/main/java/Reporting.java:36-76 | for A <- B <- C in one month the breakdown is {2024-02: {A: 2}}, and C, never looked up, still points at B |
| Scenarios.ThreeHopChain | src/main/java/Reporting.java:36-76 | for A <- B <- C <- D, with D a month later and A never a deal, the breakdown is {2024-03: {A: 2}, 2024-04: {A: 1}}; looking up C rewrites it to A, and D keeps pointing at C |

## Left out

- Reading the deal list from a resource stream and decoding it from JSON
  (`parseJsonFile`): I/O and a foreign library.
- `print`: output to standard out, in `HashMap` iteration order, which is
  unspecified.
- The error path of `getMonthlyReferralsBreakdown`, which prints to standard error
  and returns when the file cannot be read or decoded: I/O around the core.
- Parsing `MM-dd-yyyy` dates and formatting them as `yyyy-MM` (`Deal.setCloseDate`,
  `getCloseDateYearMonth`): library date handling; the month is an opaque key.
- Cyclic referral graphs, on which the source recurses until the stack overflows:
  excluded by the `rank` precondition instead of modelled.
- Resolver.FindRoot: the recursion depth is unbounded in the model, while the
  source recurses once per link and throws `StackOverflowError` on an acyclic
  chain longer than the JVM stack allows; nothing catches it, because the `try`
  at Reporting.java:23-29 wraps only the file parsing.
- Reporting.ExtractMonthlyBreakdown: a deal whose month is missing cannot be
  expressed, because every modelled deal carries one. In the source a record
  without `close_date` keeps a null date, and a referred one makes
  `getCloseDateYearMonth` (Reporting.java:120-123) throw `NullPointerException`
  from line 50. A null element of the list throws at line 39. Nothing catches
  either, since the `try` at Reporting.java:23-29 wraps only the file parsing. When
  the date is missing, the loop at lines 43-45 has already written every referrer
  into `referredBy`, and earlier lookups may have compressed it, so the aborted
  call leaves that map changed; the model describes only runs that finish.
- Reporting.ExtractMonthlyBreakdown: counts are unbounded naturals, while the source
  stores `Integer`, which would wrap after 2^31 - 1 deals credited to one referrer
  in one month; no realistic input comes near that.
- Order independence when deals of the same name disagree on their referrer: the
  later deal's referrer wins, so the map, and with it the counts, can then depend
  on order; `Ordering.ExtractOrderIndependent` covers only the consistent case.
