/** The label-equivalence table of `ccLabel2pass`: a `std::map<int, int>` sending a
    provisional label to a label it was merged into. Chasing the table from a label
    reaches its root, a label with no entry. A ghost rank, strictly increasing along
    every entry, shows the table is a forest, so every chase ends. */
module Forest {

  function RankOf(rank: map<int, nat>, k: int): nat {
    if k in rank then rank[k] else 0
  }

  /** Every entry climbs in rank, and no rank exceeds the number of entries. */
  ghost predicate Ranked(eq: map<int, int>, rank: map<int, nat>) {
    && (forall k :: k in eq ==> RankOf(rank, k) < RankOf(rank, eq[k]))
    && (forall k :: k in rank ==> rank[k] <= |eq|)
  }

  /** Keys and values of the table are labels 1..n. */
  ghost predicate Within(eq: map<int, int>, n: int) {
    forall k :: k in eq ==> 1 <= k <= n && 1 <= eq[k] <= n
  }

  /** The label reached by chasing the table from `k`. */
  ghost function Root(eq: map<int, int>, rank: map<int, nat>, k: int): (r: int)
    requires Ranked(eq, rank)
    ensures r !in eq
    decreases |eq| - RankOf(rank, k)
  {
    if k in eq then Root(eq, rank, eq[k]) else k
  }

  /** `k` after `n` steps of the chase (fewer if a root comes first). */
  function Follow(eq: map<int, int>, k: int, n: nat): int
    decreases n
  {
    if n == 0 || k !in eq then k else Follow(eq, eq[k], n - 1)
  }

  /** Ranks never decrease along a chase. */
  lemma {:induction false} FollowRank(eq: map<int, int>, rank: map<int, nat>, k: int, n: nat)
    requires Ranked(eq, rank)
    ensures RankOf(rank, k) <= RankOf(rank, Follow(eq, k, n))
    decreases n
  {
    if n > 0 && k in eq {
      FollowRank(eq, rank, eq[k], n - 1);
    }
  }

  /** The table has no cycle: a chase of one step or more from a label with an entry
      never comes back to it. */
  lemma Acyclic(eq: map<int, int>, rank: map<int, nat>, k: int, n: nat)
    requires Ranked(eq, rank) && k in eq && n >= 1
    ensures Follow(eq, k, n) != k
  {
    FollowRank(eq, rank, eq[k], n - 1);
  }

  /** The root of a label 1..n is a label 1..n. */
  lemma {:induction false} RootWithin(eq: map<int, int>, rank: map<int, nat>, n: int, k: int)
    requires Ranked(eq, rank) && Within(eq, n) && 1 <= k <= n
    ensures 1 <= Root(eq, rank, k) <= n
    decreases |eq| - RankOf(rank, k)
  {
    if k in eq {
      RootWithin(eq, rank, n, eq[k]);
    }
  }

  /** The table after recording root `a` as equivalent to root `b`. */
  function Link(eq: map<int, int>, a: int, b: int): map<int, int> {
    eq[a := b]
  }

  /** The rank after linking `a` below `b`: `b` climbs above `a` if needed. */
  function LinkRank(rank: map<int, nat>, a: int, b: int): map<int, nat> {
    rank[b := if RankOf(rank, b) > RankOf(rank, a) then RankOf(rank, b) else RankOf(rank, a) + 1]
  }

  /** Linking one root below another keeps the table a ranked forest within 1..n. */
  lemma LinkRanked(eq: map<int, int>, rank: map<int, nat>, n: int, a: int, b: int)
    requires Ranked(eq, rank) && Within(eq, n)
    requires a !in eq && b !in eq && a != b && 1 <= a <= n && 1 <= b <= n
    ensures Ranked(Link(eq, a, b), LinkRank(rank, a, b)) && Within(Link(eq, a, b), n)
  {
    var eq' := Link(eq, a, b);
    var rank' := LinkRank(rank, a, b);
    assert |eq'| == |eq| + 1;
    forall k | k in eq'
      ensures RankOf(rank', k) < RankOf(rank', eq'[k])
    {
      if k != a {
        assert k in eq && k != b;
      }
    }
  }

  /** Linking root `a` below root `b` sends every label whose root was `a` to `b`
      and leaves every other root alone. */
  lemma {:induction false} LinkRoot(eq: map<int, int>, rank: map<int, nat>, n: int, a: int, b: int, k: int)
    requires Ranked(eq, rank) && Within(eq, n)
    requires a !in eq && b !in eq && a != b && 1 <= a <= n && 1 <= b <= n
    ensures Ranked(Link(eq, a, b), LinkRank(rank, a, b))
    ensures Root(Link(eq, a, b), LinkRank(rank, a, b), k) ==
              if Root(eq, rank, k) == a then b else Root(eq, rank, k)
    decreases |eq| - RankOf(rank, k)
  {
    LinkRanked(eq, rank, n, a, b);
    if k in eq {
      LinkRoot(eq, rank, n, a, b, eq[k]);
    }
  }

  /** `eq'` is `eq` with the root of `a` sent to the root of `b`: labels rooted at
      `a`'s root now have `b`'s root, and every other label keeps its root. */
  ghost predicate Merged(eq: map<int, int>, rank: map<int, nat>, eq': map<int, int>, rank': map<int, nat>,
                         a: int, b: int)
    requires Ranked(eq, rank) && Ranked(eq', rank')
  {
    forall k :: Root(eq', rank', k) ==
      if Root(eq, rank, k) == Root(eq, rank, a) then Root(eq, rank, b) else Root(eq, rank, k)
  }

  /** `eq'` only joins classes of `eq`: the new root of a label is determined by its
      old root. */
  ghost predicate Coarsens(eq: map<int, int>, rank: map<int, nat>, eq': map<int, int>, rank': map<int, nat>)
    requires Ranked(eq, rank) && Ranked(eq', rank')
  {
    forall k {:trigger Root(eq, rank, k)} :: Root(eq', rank', k) == Root(eq', rank', Root(eq, rank, k))
  }

  /** A merge joins `a` and `b` and separates nothing. */
  lemma MergedJoins(eq: map<int, int>, rank: map<int, nat>, eq': map<int, int>, rank': map<int, nat>,
                    a: int, b: int)
    requires Ranked(eq, rank) && Ranked(eq', rank') && Merged(eq, rank, eq', rank', a, b)
    ensures Root(eq', rank', a) == Root(eq', rank', b)
    ensures Coarsens(eq, rank, eq', rank')
  {
    assert Root(eq', rank', a) == Root(eq, rank, b);
    assert Root(eq', rank', b) == Root(eq, rank, b);
    forall k
      ensures Root(eq', rank', k) == Root(eq', rank', Root(eq, rank, k))
    {
      var r := Root(eq, rank, k);
      assert Root(eq, rank, r) == r;
    }
  }

  /** Joining classes twice only joins classes. */
  lemma CoarsensTrans(e1: map<int, int>, r1: map<int, nat>, e2: map<int, int>, r2: map<int, nat>,
                      e3: map<int, int>, r3: map<int, nat>)
    requires Ranked(e1, r1) && Ranked(e2, r2) && Ranked(e3, r3)
    requires Coarsens(e1, r1, e2, r2) && Coarsens(e2, r2, e3, r3)
    ensures Coarsens(e1, r1, e3, r3)
  {
    forall k
      ensures Root(e3, r3, k) == Root(e3, r3, Root(e1, r1, k))
    {
      var k1 := Root(e1, r1, k);
      assert Root(e2, r2, k) == Root(e2, r2, k1);
      assert Root(e3, r3, k1) == Root(e3, r3, Root(e2, r2, k1));
    }
  }

  /** The old roots of `m` and of every label in `nbs`: the classes that merging each
      of `nbs` with `m` joins. */
  ghost function JoinedRoots(eq: map<int, int>, rank: map<int, nat>, m: int, nbs: seq<int>): set<int>
    requires Ranked(eq, rank)
  {
    {Root(eq, rank, m)} + set i | 0 <= i < |nbs| :: Root(eq, rank, nbs[i])
  }

  /** `eq'` joins the classes of `eq` whose roots are in `s` into the class of `m`,
      whose new root is one of them, and every other label keeps its root. */
  ghost predicate JoinedInto(eq: map<int, int>, rank: map<int, nat>, eq': map<int, int>, rank': map<int, nat>,
                             m: int, s: set<int>)
    requires Ranked(eq, rank) && Ranked(eq', rank')
  {
    && Root(eq', rank', m) in s
    && forall k :: Root(eq', rank', k) == if Root(eq, rank, k) in s then Root(eq', rank', m) else Root(eq, rank, k)
  }

  /** One more label of `nbs` adds its root to the joined roots. */
  lemma JoinedRootsNext(eq: map<int, int>, rank: map<int, nat>, m: int, nbs: seq<int>, i: int)
    requires Ranked(eq, rank) && 0 <= i < |nbs|
    ensures JoinedRoots(eq, rank, m, nbs[..i + 1]) == JoinedRoots(eq, rank, m, nbs[..i]) + {Root(eq, rank, nbs[i])}
  {
    var a, b := nbs[..i], nbs[..i + 1];
    forall x | x in JoinedRoots(eq, rank, m, b)
      ensures x in JoinedRoots(eq, rank, m, a) + {Root(eq, rank, nbs[i])}
    {
      if x != Root(eq, rank, m) {
        var j :| 0 <= j < |b| && x == Root(eq, rank, b[j]);
        if j < i {
          assert b[j] == a[j];
        }
      }
    }
    forall x | x in JoinedRoots(eq, rank, m, a) + {Root(eq, rank, nbs[i])}
      ensures x in JoinedRoots(eq, rank, m, b)
    {
      if x == Root(eq, rank, nbs[i]) {
        assert b[i] == nbs[i];
      } else if x != Root(eq, rank, m) {
        var j :| 0 <= j < |a| && x == Root(eq, rank, a[j]);
        assert b[j] == a[j];
      }
    }
  }

  /** After the merges with `nbs[..i]`, merging `nbs[i]` with `m` (a no-op when they
      are equal) extends the join by the class of `nbs[i]`. */
  lemma JoinedIntoStep(eq: map<int, int>, rank: map<int, nat>, e0: map<int, int>, r0: map<int, nat>,
                       e1: map<int, int>, r1: map<int, nat>, m: int, nbs: seq<int>, i: int)
    requires Ranked(eq, rank) && Ranked(e0, r0) && Ranked(e1, r1) && 0 <= i < |nbs|
    requires JoinedInto(eq, rank, e0, r0, m, JoinedRoots(eq, rank, m, nbs[..i]))
    requires Merged(e0, r0, e1, r1, m, nbs[i])
    ensures JoinedInto(eq, rank, e1, r1, m, JoinedRoots(eq, rank, m, nbs[..i + 1]))
  {
    var s := JoinedRoots(eq, rank, m, nbs[..i]);
    var rn := Root(eq, rank, nbs[i]);
    JoinedRootsNext(eq, rank, m, nbs, i);
    var s' := s + {rn};
    assert Root(e1, r1, m) == Root(e0, r0, nbs[i]);
    assert Root(e0, r0, nbs[i]) == if rn in s then Root(e0, r0, m) else rn;
    forall k
      ensures Root(e1, r1, k) == if Root(eq, rank, k) in s' then Root(e1, r1, m) else Root(eq, rank, k)
    {
      var rk := Root(eq, rank, k);
      assert Root(e0, r0, k) == if rk in s then Root(e0, r0, m) else rk;
      if rk !in s' {
        assert Root(e0, r0, k) != Root(e0, r0, m);
      }
    }
  }

  /** A join of the classes of `m` and `nbs` puts every label of `nbs` in `m`'s class
      and separates nothing. */
  lemma JoinedIntoCoarsens(eq: map<int, int>, rank: map<int, nat>, eq': map<int, int>, rank': map<int, nat>,
                           m: int, nbs: seq<int>)
    requires Ranked(eq, rank) && Ranked(eq', rank')
    requires JoinedInto(eq, rank, eq', rank', m, JoinedRoots(eq, rank, m, nbs))
    ensures forall i :: 0 <= i < |nbs| ==> Root(eq', rank', nbs[i]) == Root(eq', rank', m)
    ensures Coarsens(eq, rank, eq', rank')
  {
    var s := JoinedRoots(eq, rank, m, nbs);
    forall i | 0 <= i < |nbs|
      ensures Root(eq', rank', nbs[i]) == Root(eq', rank', m)
    {
      assert Root(eq, rank, nbs[i]) in s;
    }
    forall k
      ensures Root(eq', rank', k) == Root(eq', rank', Root(eq, rank, k))
    {
      var r := Root(eq, rank, k);
      assert Root(eq, rank, r) == r;
    }
  }

  /** The root-chasing loops of `ccLabel2pass`: follow the table from `k` until a
      label without an entry, its root. */
  method Resolve(eq: map<int, int>, ghost rank: map<int, nat>, k: int) returns (r: int)
    requires Ranked(eq, rank)
    ensures r == Root(eq, rank, k) && r !in eq
  {
    r := k;
    while r in eq
      invariant Root(eq, rank, r) == Root(eq, rank, k)
      decreases |eq| - RankOf(rank, r)
    {
      r := eq[r];
    }
  }

  /** The merge step of the first pass: chase both labels to their roots and, if
      they differ, record the first root as equivalent to the second. Afterwards the
      two labels share a root, and only labels that shared `a`'s root have moved. */
  method Union(eq: map<int, int>, ghost rank: map<int, nat>, ghost n: int, a: int, b: int)
    returns (eq': map<int, int>, ghost rank': map<int, nat>)
    requires Ranked(eq, rank) && Within(eq, n) && 1 <= a <= n && 1 <= b <= n
    ensures Ranked(eq', rank') && Within(eq', n)
    ensures Merged(eq, rank, eq', rank', a, b)
  {
    var ra := Resolve(eq, rank, a);
    var rb := Resolve(eq, rank, b);
    if ra != rb {
      RootWithin(eq, rank, n, a);
      RootWithin(eq, rank, n, b);
      eq' := Link(eq, ra, rb);
      rank' := LinkRank(rank, ra, rb);
      LinkRanked(eq, rank, n, ra, rb);
      forall k
        ensures Root(eq', rank', k) == if Root(eq, rank, k) == ra then rb else Root(eq, rank, k)
      {
        LinkRoot(eq, rank, n, ra, rb, k);
      }
    } else {
      eq', rank' := eq, rank;
    }
  }
}
