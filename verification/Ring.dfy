/** One line of a torus, taken as a ring of slots of which some are occupied: stepping from an
    occupied slot to the next one, in either direction. */
module Ring {

  ghost predicate IsStep(adj: int) {
    adj == 1 || adj == -1
  }

  /** Where k steps lead before wrapping. */
  function Unwrapped(p: int, adj: int, k: int): int {
    if adj > 0 then p + k else p - k
  }

  /** The slot k steps from p, on a ring of w slots. */
  function Along(p: int, adj: int, k: int, w: int): (q: int)
    requires 0 <= p < w && 0 <= k <= w
    ensures 0 <= q < w
  {
    var u := Unwrapped(p, adj, k);
    if u < 0 then u + w else if u >= w then u - w else u
  }

  /** Whether k steps from p lead across the boundary of the ring. */
  predicate Crosses(p: int, adj: int, k: int, w: int) {
    Unwrapped(p, adj, k) < 0 || Unwrapped(p, adj, k) >= w
  }

  /** The number of steps, k or more, to an occupied slot. */
  function GapFrom(occ: seq<bool>, p: nat, adj: int, k: nat): (g: nat)
    requires p < |occ| && occ[p] && 1 <= k <= |occ|
    ensures k <= g <= |occ| && occ[Along(p, adj, g, |occ|)]
    ensures forall j | k <= j < g :: !occ[Along(p, adj, j, |occ|)]
    decreases |occ| - k
  {
    if k == |occ| || occ[Along(p, adj, k, |occ|)] then k else GapFrom(occ, p, adj, k + 1)
  }

  /** The number of steps to the next occupied slot. */
  function Gap(occ: seq<bool>, p: nat, adj: int): (g: nat)
    requires p < |occ| && occ[p]
    ensures 1 <= g <= |occ| && occ[Along(p, adj, g, |occ|)]
    ensures forall j | 1 <= j < g :: !occ[Along(p, adj, j, |occ|)]
  {
    GapFrom(occ, p, adj, 1)
  }

  function Next(occ: seq<bool>, p: nat, adj: int): (q: nat)
    requires p < |occ| && occ[p]
    ensures q < |occ| && occ[q]
  {
    Along(p, adj, Gap(occ, p, adj), |occ|)
  }

  lemma BackAlong(p: int, adj: int, g: int, j: int, w: int)
    requires 0 <= p < w && 0 <= j <= g <= w && IsStep(adj)
    ensures Along(Along(p, adj, g, w), -adj, j, w) == Along(p, adj, g - j, w)
  {
  }

  /** The opposite direction leads back, over the same gap. */
  lemma NextBack(occ: seq<bool>, p: nat, adj: int)
    requires p < |occ| && occ[p] && IsStep(adj)
    ensures Gap(occ, Next(occ, p, adj), -adj) == Gap(occ, p, adj)
    ensures Next(occ, Next(occ, p, adj), -adj) == p
  {
    var w, g, q := |occ|, Gap(occ, p, adj), Next(occ, p, adj);
    var h := Gap(occ, q, -adj);
    BackAlong(p, adj, g, g, w);
    if h < g {
      BackAlong(p, adj, g, h, w);
    }
  }

  // ---- one cycle visits every occupied slot ----

  function Count(s: seq<bool>): (n: nat)
    ensures n <= |s|
  {
    if s == [] then 0 else Count(s[..|s| - 1]) + if s[|s| - 1] then 1 else 0
  }

  /** The number of occupied slots before p. */
  function Rank(occ: seq<bool>, p: nat): nat
    requires p <= |occ|
  {
    Count(occ[..p])
  }

  lemma RankStep(occ: seq<bool>, p: nat)
    requires p < |occ|
    ensures Rank(occ, p + 1) == Rank(occ, p) + if occ[p] then 1 else 0
  {
    assert occ[..p + 1][..p] == occ[..p];
  }

  lemma RankWhole(occ: seq<bool>)
    ensures Rank(occ, |occ|) == Count(occ)
  {
    assert occ[..|occ|] == occ;
  }

  lemma {:induction false} RankGrows(occ: seq<bool>, i: nat, j: nat)
    requires i <= j <= |occ|
    ensures Rank(occ, i) <= Rank(occ, j)
    ensures (forall k | i <= k < j :: !occ[k]) ==> Rank(occ, i) == Rank(occ, j)
    decreases j
  {
    if i < j {
      RankStep(occ, j - 1);
      RankGrows(occ, i, j - 1);
    }
  }

  lemma RankBelow(occ: seq<bool>, p: nat)
    requires p < |occ| && occ[p]
    ensures Rank(occ, p) < Count(occ)
  {
    RankStep(occ, p);
    RankGrows(occ, p + 1, |occ|);
    RankWhole(occ);
  }

  lemma RankInjective(occ: seq<bool>, p: nat, q: nat)
    requires p < |occ| && occ[p] && q < |occ| && occ[q] && Rank(occ, p) == Rank(occ, q)
    ensures p == q
  {
    if p < q {
      RankStep(occ, p);
      RankGrows(occ, p + 1, q);
    } else if q < p {
      RankStep(occ, q);
      RankGrows(occ, q + 1, p);
    }
  }

  /** Nothing between p and the next slot: as a statement about slots. */
  lemma NoneBetween(occ: seq<bool>, p: nat)
    requires p < |occ| && occ[p]
    ensures var g := Gap(occ, p, 1);
      if Crosses(p, 1, g, |occ|)
      then (forall k | p < k < |occ| :: !occ[k]) && (forall k | 0 <= k < p + g - |occ| :: !occ[k])
      else forall k | p < k < p + g :: !occ[k]
  {
    var g := Gap(occ, p, 1);
    forall k | p < k < |occ| && k < p + g
      ensures !occ[k]
    {
      assert Along(p, 1, k - p, |occ|) == k;
    }
    forall k | 0 <= k < p + g - |occ|
      ensures !occ[k]
    {
      assert Along(p, 1, k + |occ| - p, |occ|) == k;
    }
  }

  lemma RankOfNext(occ: seq<bool>, p: nat)
    requires p < |occ| && occ[p] && !Crosses(p, 1, Gap(occ, p, 1), |occ|)
    ensures Next(occ, p, 1) == p + Gap(occ, p, 1) && Rank(occ, Next(occ, p, 1)) == Rank(occ, p) + 1
  {
    NoneBetween(occ, p);
    RankStep(occ, p);
    RankGrows(occ, p + 1, Next(occ, p, 1));
  }

  lemma RankOfLast(occ: seq<bool>, p: nat)
    requires p < |occ| && occ[p] && Crosses(p, 1, Gap(occ, p, 1), |occ|)
    ensures Rank(occ, p) == Count(occ) - 1 && Rank(occ, Next(occ, p, 1)) == 0
  {
    NoneBetween(occ, p);
    RankStep(occ, p);
    RankGrows(occ, p + 1, |occ|);
    RankWhole(occ);
    RankGrows(occ, 0, Next(occ, p, 1));
  }

  lemma NextRankUp(occ: seq<bool>, p: nat)
    requires p < |occ| && occ[p]
    ensures Rank(occ, p) < Count(occ)
    ensures Rank(occ, Next(occ, p, 1)) == Along(Rank(occ, p), 1, 1, Count(occ))
    ensures Crosses(p, 1, Gap(occ, p, 1), |occ|) <==> Crosses(Rank(occ, p), 1, 1, Count(occ))
  {
    RankBelow(occ, p);
    RankBelow(occ, Next(occ, p, 1));
    if Crosses(p, 1, Gap(occ, p, 1), |occ|) {
      RankOfLast(occ, p);
    } else {
      RankOfNext(occ, p);
    }
  }

  /** A step to the next occupied slot is a step by one of the rank, and it crosses the boundary
      exactly if the rank does. */
  lemma NextRank(occ: seq<bool>, p: nat, adj: int)
    requires p < |occ| && occ[p] && IsStep(adj)
    ensures Rank(occ, p) < Count(occ)
    ensures Rank(occ, Next(occ, p, adj)) == Along(Rank(occ, p), adj, 1, Count(occ))
    ensures Crosses(p, adj, Gap(occ, p, adj), |occ|) <==> Crosses(Rank(occ, p), adj, 1, Count(occ))
  {
    if adj == 1 {
      NextRankUp(occ, p);
    } else {
      var q := Next(occ, p, adj);
      NextBack(occ, p, adj);
      NextRankUp(occ, q);
      RankBelow(occ, p);
    }
  }

  /** n steps from p to the next occupied slot. */
  function Walk(occ: seq<bool>, p: nat, adj: int, n: nat): (q: nat)
    requires p < |occ| && occ[p]
    ensures q < |occ| && occ[q]
  {
    if n == 0 then p else Next(occ, Walk(occ, p, adj, n - 1), adj)
  }

  lemma AlongMore(p: int, adj: int, k: int, w: int)
    requires 0 <= p < w && 0 <= k < w
    ensures Along(Along(p, adj, k, w), adj, 1, w) == Along(p, adj, k + 1, w)
  {
  }

  lemma {:induction false} WalkRank(occ: seq<bool>, p: nat, adj: int, n: nat)
    requires p < |occ| && occ[p] && IsStep(adj) && n <= Count(occ)
    ensures Rank(occ, p) < Count(occ)
    ensures Rank(occ, Walk(occ, p, adj, n)) == Along(Rank(occ, p), adj, n, Count(occ))
  {
    RankBelow(occ, p);
    if n > 0 {
      WalkRank(occ, p, adj, n - 1);
      NextRank(occ, Walk(occ, p, adj, n - 1), adj);
      AlongMore(Rank(occ, p), adj, n - 1, Count(occ));
    }
  }

  /** How many steps lead from rank r to rank s. */
  function Turns(r: nat, s: nat, adj: int, m: nat): (n: nat)
    requires r < m && s < m && (adj == 1 || adj == -1)
    ensures n < m && Along(r, adj, n, m) == s
  {
    var d := if adj == 1 then s - r else r - s;
    if d < 0 then d + m else d
  }

  /** Going on and on visits every occupied slot exactly once, and then returns. */
  lemma OneCycle(occ: seq<bool>, p: nat, adj: int, q: nat)
    requires p < |occ| && occ[p] && q < |occ| && occ[q] && IsStep(adj)
    ensures Walk(occ, p, adj, Count(occ)) == p
    ensures exists n: nat :: n < Count(occ) && Walk(occ, p, adj, n) == q
  {
    var m := Count(occ);
    WalkRank(occ, p, adj, m);
    RankInjective(occ, p, Walk(occ, p, adj, m));
    RankBelow(occ, q);
    var n := Turns(Rank(occ, p), Rank(occ, q), adj, m);
    WalkRank(occ, p, adj, n);
    RankInjective(occ, q, Walk(occ, p, adj, n));
  }

  lemma NoneTwice(occ: seq<bool>, p: nat, adj: int, i: nat, j: nat)
    requires p < |occ| && occ[p] && IsStep(adj) && i < j < Count(occ)
    ensures Walk(occ, p, adj, i) != Walk(occ, p, adj, j)
  {
    WalkRank(occ, p, adj, i);
    WalkRank(occ, p, adj, j);
  }
}
