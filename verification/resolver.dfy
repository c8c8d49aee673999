/**
 The referral resolver: a map from each referred name to the name of its referrer,
 and a union-find style `find` over it that returns the initial referrer of a chain
 and compresses the path it walked so that every visited name points straight at
 that initial referrer.
 */
module Resolver {
  import opened Deals

  /** name -> the name of whoever referred that name */
  type ReferralMap = map<Name, Name>

  /** `rank` witnesses that the map is acyclic: every key has a rank, and a parent
      that is itself a key has a strictly smaller rank than its child. */
  ghost predicate Ranked(m: ReferralMap, rank: map<Name, nat>) {
    forall k :: k in m ==> k in rank && (m[k] in m ==> m[k] in rank && rank[m[k]] < rank[k])
  }

  /** The termination measure of a walk along parent links: zero at a root. */
  ghost function Height(m: ReferralMap, rank: map<Name, nat>, x: Name): nat
    requires Ranked(m, rank)
  {
    if x in m then rank[x] + 1 else 0
  }

  /** Reference definition of the initial referrer: follow parent links until
      reaching a name that is not a key. */
  ghost function Root(m: ReferralMap, rank: map<Name, nat>, x: Name): Name
    requires Ranked(m, rank)
    decreases Height(m, rank, x)
  {
    if x !in m then x else Root(m, rank, m[x])
  }

  /** The keys visited on the walk from `x` to its root. */
  ghost function Chain(m: ReferralMap, rank: map<Name, nat>, x: Name): set<Name>
    requires Ranked(m, rank)
    decreases Height(m, rank, x)
  {
    if x !in m then {} else {x} + Chain(m, rank, m[x])
  }

  /** `m2` is `m` with some entries redirected straight to their root: same keys,
      still acyclic under the same rank, and every entry either unchanged or the
      root of its key. */
  ghost predicate Compresses(m: ReferralMap, m2: ReferralMap, rank: map<Name, nat>)
    requires Ranked(m, rank)
  {
    && m2.Keys == m.Keys
    && Ranked(m2, rank)
    && forall k :: k in m ==> m2[k] == m[k] || m2[k] == Root(m, rank, k)
  }

  /** `m2` is `m` with exactly the keys in `w` pointing straight at their root and
      every other entry as it was. */
  ghost predicate Redirected(m: ReferralMap, m2: ReferralMap, rank: map<Name, nat>, w: set<Name>)
    requires Ranked(m, rank)
  {
    && m2.Keys == m.Keys
    && forall k :: k in m ==> m2[k] == (if k in w then Root(m, rank, k) else m[k])
  }

  /** Every name in `w` is a key, and so is its parent when the parent is a key:
      a walk that enters `w` stays in it until the root. */
  ghost predicate Closed(m: ReferralMap, w: set<Name>) {
    forall k :: k in w ==> k in m && (m[k] in m ==> m[k] in w)
  }

  /** A root has no recorded referrer. */
  lemma {:induction false} RootIsNotKey(m: ReferralMap, rank: map<Name, nat>, x: Name)
    requires Ranked(m, rank)
    ensures Root(m, rank, x) !in m
    decreases Height(m, rank, x)
  {
    if x in m {
      RootIsNotKey(m, rank, m[x]);
    }
  }

  /** Every name on the walk from `x` has the same root as `x`. */
  lemma {:induction false} ChainSharesRoot(m: ReferralMap, rank: map<Name, nat>, x: Name, k: Name)
    requires Ranked(m, rank)
    requires k in Chain(m, rank, x)
    ensures k in m
    ensures Root(m, rank, k) == Root(m, rank, x)
    decreases Height(m, rank, x)
  {
    if k != x {
      ChainSharesRoot(m, rank, m[x], k);
    }
  }

  /**
   Finds the initial referrer of `x` and compresses the walked path: the result is
   the root of `x`, every key on the chain from `x` now points at it, and every
   other entry is left as it was.
   */
  function FindRoot(m: ReferralMap, ghost rank: map<Name, nat>, x: Name): (res: (Name, ReferralMap))
    requires Ranked(m, rank)
    ensures res.0 == Root(m, rank, x)
    ensures res.0 !in res.1
    ensures res.1.Keys == m.Keys
    ensures forall k :: k in m ==> res.1[k] == (if k in Chain(m, rank, x) then res.0 else m[k])
    ensures x in m ==> res.1[x] == res.0
    ensures x !in m ==> res == (x, m)
    ensures Compresses(m, res.1, rank)
    decreases Height(m, rank, x)
  {
    if x !in m then (x, m)
    else
      var (r, m1) := FindRoot(m, rank, m[x]);
      (r, m1[x := r])
  }

  /** A lookup redirects exactly the keys on the walked chain. */
  lemma FindRootRedirects(m: ReferralMap, rank: map<Name, nat>, x: Name)
    requires Ranked(m, rank)
    ensures Redirected(m, FindRoot(m, rank, x).1, rank, Chain(m, rank, x))
  {
    forall k | k in Chain(m, rank, x)
      ensures Root(m, rank, k) == Root(m, rank, x)
    {
      ChainSharesRoot(m, rank, x, k);
    }
  }

  /** A walk is closed under parent links. */
  lemma {:induction false} ChainClosed(m: ReferralMap, rank: map<Name, nat>, x: Name)
    requires Ranked(m, rank)
    ensures Closed(m, Chain(m, rank, x))
    decreases Height(m, rank, x)
  {
    if x in m {
      ChainClosed(m, rank, m[x]);
    }
  }

  /** A walk that starts in a closed set stays in it. */
  lemma {:induction false} ClosedHoldsChain(m: ReferralMap, rank: map<Name, nat>, w: set<Name>, x: Name)
    requires Ranked(m, rank)
    requires Closed(m, w) && x in w
    ensures Chain(m, rank, x) <= w
    decreases Height(m, rank, x)
  {
    if m[x] in m {
      ClosedHoldsChain(m, rank, w, m[x]);
    }
  }

  /** Once a closed set of keys points at its roots, a walk in the new map stops at
      the first key of that set, and together with the set it covers the keys the
      walk in the old map covered. */
  lemma {:induction false} ChainAfterRedirect(m: ReferralMap, m2: ReferralMap, rank: map<Name, nat>, w: set<Name>, y: Name)
    requires Ranked(m, rank) && Ranked(m2, rank)
    requires Closed(m, w) && Redirected(m, m2, rank, w)
    ensures w + Chain(m2, rank, y) == w + Chain(m, rank, y)
    decreases Height(m, rank, y)
  {
    if y in m {
      if y in w {
        RootIsNotKey(m, rank, y);
        assert Chain(m2, rank, y) == {y};
        ClosedHoldsChain(m, rank, w, y);
      } else {
        ChainAfterRedirect(m, m2, rank, w, m[y]);
      }
    }
  }

  /** Redirecting `w1` and then, in the result, `w2` redirects `w1 + w2` in the
      original map, since a compression keeps every root. */
  lemma RedirectedTwice(m: ReferralMap, m1: ReferralMap, m2: ReferralMap, rank: map<Name, nat>, w1: set<Name>, w2: set<Name>)
    requires Ranked(m, rank)
    requires Compresses(m, m1, rank) && Redirected(m, m1, rank, w1)
    requires Redirected(m1, m2, rank, w2)
    ensures Redirected(m, m2, rank, w1 + w2)
  {
    forall k | k in m
      ensures m2[k] == (if k in w1 + w2 then Root(m, rank, k) else m[k])
    {
      CompressionKeepsRoots(m, m1, rank, k);
    }
  }

  /** Redirecting the same keys of the same map gives the same map. */
  lemma RedirectedUnique(m: ReferralMap, m2: ReferralMap, m3: ReferralMap, rank: map<Name, nat>, w: set<Name>)
    requires Ranked(m, rank)
    requires Redirected(m, m2, rank, w) && Redirected(m, m3, rank, w)
    ensures m2 == m3
  {
  }

  /** Compression keeps every root: following parent links from any name reaches
      the same root before and after. */
  lemma {:induction false} CompressionKeepsRoots(m: ReferralMap, m2: ReferralMap, rank: map<Name, nat>, y: Name)
    requires Ranked(m, rank)
    requires Compresses(m, m2, rank)
    ensures Root(m2, rank, y) == Root(m, rank, y)
    decreases Height(m, rank, y)
  {
    if y in m {
      if m2[y] == m[y] {
        CompressionKeepsRoots(m, m2, rank, m[y]);
      } else {
        RootIsNotKey(m, rank, y);
        assert Root(m2, rank, m2[y]) == m2[y];
      }
    }
  }

  /** Compressing a compressed map is a compression of the original. */
  lemma CompressesTransitive(m: ReferralMap, m2: ReferralMap, m3: ReferralMap, rank: map<Name, nat>)
    requires Ranked(m, rank)
    requires Compresses(m, m2, rank)
    requires Compresses(m2, m3, rank)
    ensures Compresses(m, m3, rank)
  {
    forall k | k in m
      ensures m3[k] == m[k] || m3[k] == Root(m, rank, k)
    {
      CompressionKeepsRoots(m, m2, rank, k);
    }
  }

  /** Repeating a lookup, or looking up the root it returned, gives the same root
      and leaves the map as the first lookup left it. */
  lemma FindRootTwice(m: ReferralMap, rank: map<Name, nat>, x: Name)
    requires Ranked(m, rank)
    ensures var (r, m2) := FindRoot(m, rank, x);
      FindRoot(m2, rank, x) == (r, m2) && FindRoot(m2, rank, r) == (r, m2)
  {
    var (r, m2) := FindRoot(m, rank, x);
    if x in m {
      var (r', m3) := FindRoot(m2, rank, x);
      CompressionKeepsRoots(m, m2, rank, x);
      assert Chain(m2, rank, x) == {x};
      assert m3 == m2;
    }
  }

  /** A lookup on another name keeps every root, so the root of `x` found after it
      equals the root of `x` found before it. */
  lemma LookupKeepsOtherRoots(m: ReferralMap, rank: map<Name, nat>, x: Name, y: Name)
    requires Ranked(m, rank)
    ensures var (_, m2) := FindRoot(m, rank, y);
      FindRoot(m2, rank, x).0 == FindRoot(m, rank, x).0
  {
    var (_, m2) := FindRoot(m, rank, y);
    CompressionKeepsRoots(m, m2, rank, x);
  }

  /** Once a key points at a root, further compression keeps it pointing at a root. */
  lemma CompressionKeepsFlat(m: ReferralMap, m2: ReferralMap, rank: map<Name, nat>, k: Name)
    requires Ranked(m, rank)
    requires Compresses(m, m2, rank)
    requires k in m && m[k] !in m
    ensures k in m2 && m2[k] !in m2
  {
    assert Root(m, rank, k) == m[k];
  }
}
