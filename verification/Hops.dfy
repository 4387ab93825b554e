/** How many hops apart two nodes of the torus are (node.c, node_wineighbor_nhops), and the hop
    counts of the neighborhood view (main.c, vmode_change). */
module Hops {
  import opened Neighbors
  import opened Nodes
  import opened Ring
  import opened Torus
  import opened Wrappers

  function Abs(n: int): nat {
    if n < 0 then -n else n
  }

  /** The part of one dimension: the shorter way round the ring. */
  function Hop(w: int, a: int, b: int): nat {
    if Abs(a - b) > w / 2 then Abs(w - Abs(a - b)) else Abs(a - b)
  }

  function HopsUpto(widim: Ivec, a: Ivec, b: Ivec, i: nat): nat {
    if i == 0 then 0 else HopsUpto(widim, a, b, i - 1) + Hop(widim.Val(i - 1), a.Val(i - 1), b.Val(i - 1))
  }

  function Hops(widim: Ivec, a: Ivec, b: Ivec): nat {
    HopsUpto(widim, a, b, 3)
  }

  method WineighborNhops(widim: Ivec, a: Node, b: Node) returns (nhops: nat)
    ensures nhops == Hops(widim, a.wiv, b.wiv)
  {
    nhops := 0;
    var i := 0;
    while i < 3
      invariant 0 <= i <= 3 && nhops == HopsUpto(widim, a.wiv, b.wiv, i)
    {
      var step := Abs(a.wiv.Val(i) - b.wiv.Val(i));
      if step > widim.Val(i) / 2 {
        nhops := nhops + Abs(widim.Val(i) - step);
      } else {
        nhops := nhops + step;
      }
      i := i + 1;
    }
  }

  lemma ThreeHops(widim: Ivec, a: Ivec, b: Ivec)
    ensures Hops(widim, a, b) == Hop(widim.x, a.x, b.x) + Hop(widim.y, a.y, b.y) + Hop(widim.z, a.z, b.z)
  {
    assert HopsUpto(widim, a, b, 2) == HopsUpto(widim, a, b, 1) + Hop(widim.y, a.y, b.y);
  }

  // ---- one ring ----

  lemma HopStep(w: int, a: int, b: int, adj: int)
    requires 0 <= a < w && 0 <= b < w && IsStep(adj)
    ensures Hop(w, NegMod(a + adj, w), b) >= Hop(w, a, b) - 1
  {
    NegModNear(a + adj, w);
  }

  lemma HopCloser(w: int, a: int, b: int) returns (adj: int)
    requires 0 <= a < w && 0 <= b < w && a != b
    ensures IsStep(adj) && Hop(w, NegMod(a + adj, w), b) == Hop(w, a, b) - 1
  {
    adj := if (a < b) == (Abs(a - b) > w / 2) then -1 else 1;
    NegModNear(a + adj, w);
  }

  lemma HopTriangle(w: int, a: int, b: int, c: int)
    requires 0 <= a < w && 0 <= b < w && 0 <= c < w
    ensures Hop(w, a, c) <= Hop(w, a, b) + Hop(w, b, c)
  {
  }

  lemma HopZero(w: int, a: int, b: int)
    requires 0 <= a < w && 0 <= b < w
    ensures Hop(w, a, b) == 0 <==> a == b
    ensures Hop(w, a, b) == Hop(w, b, a) <= w / 2
  {
  }

  // ---- the whole torus ----

  /** The hop count is a metric. */
  lemma HopsMetric(widim: Ivec, a: Ivec, b: Ivec, c: Ivec)
    requires InBox(widim, a) && InBox(widim, b) && InBox(widim, c)
    ensures Hops(widim, a, b) == 0 <==> a == b
    ensures Hops(widim, a, b) == Hops(widim, b, a)
    ensures Hops(widim, a, c) <= Hops(widim, a, b) + Hops(widim, b, c)
  {
    ThreeHops(widim, a, b);
    ThreeHops(widim, b, a);
    ThreeHops(widim, b, c);
    ThreeHops(widim, a, c);
    HopZero(widim.x, a.x, b.x);
    HopZero(widim.y, a.y, b.y);
    HopZero(widim.z, a.z, b.z);
    HopTriangle(widim.x, a.x, b.x, c.x);
    HopTriangle(widim.y, a.y, b.y, c.y);
    HopTriangle(widim.z, a.z, b.z, c.z);
  }

  /** Following steps from neighbor to neighbor. */
  function Follow(t: Cells, n: Node, path: seq<Direction>): (m: Node)
    requires t.Valid() && t.Stores(n)
    ensures t.Stores(m)
    decreases |path|
  {
    if path == [] then n else Follow(t, Neighbor(t, n, path[0]), path[1..])
  }

  ghost predicate Full(t: Cells) {
    t.Valid() && forall c: Ivec :: InBox(t.widim, c) ==> c in t.node
  }

  lemma BesideHops(widim: Ivec, c: Ivec, b: Ivec, rd: Direction)
    requires InBox(widim, c) && InBox(widim, b)
    ensures Hops(widim, Beside(widim, c, rd), b) >= Hops(widim, c, b) - 1
  {
    var dim := Dim(rd);
    HopStep(widim.Val(dim), c.Val(dim), b.Val(dim), Adj(rd));
    ThreeHops(widim, c, b);
    ThreeHops(widim, Beside(widim, c, rd), b);
  }

  /** No path is shorter than the hop count. */
  lemma {:induction false} NoShorterPath(t: Cells, a: Node, path: seq<Direction>)
    requires Full(t) && t.Stores(a)
    ensures Hops(t.widim, a.wiv, Follow(t, a, path).wiv) <= |path|
    decreases |path|
  {
    var b := Follow(t, a, path);
    assert t.Fits(a.wiv) && t.Fits(b.wiv);
    if path == [] {
      HopsMetric(t.widim, a.wiv, a.wiv, a.wiv);
    } else {
      NeighborWhenFull(t, a, path[0]);
      BesideHops(t.widim, a.wiv, b.wiv, path[0]);
      NoShorterPath(t, Neighbor(t, a, path[0]), path[1..]);
    }
  }

  function Toward(dim: nat, adj: int): (rd: Direction)
    requires dim < 3 && (adj == 1 || adj == -1)
    ensures Dim(rd) == dim && Adj(rd) == adj
  {
    if dim == 0 then (if adj == 1 then PosX else NegX)
    else if dim == 1 then (if adj == 1 then PosY else NegY)
    else if adj == 1 then PosZ else NegZ
  }

  lemma CloserBeside(widim: Ivec, c: Ivec, b: Ivec) returns (rd: Direction)
    requires InBox(widim, c) && InBox(widim, b) && c != b
    ensures Hops(widim, Beside(widim, c, rd), b) == Hops(widim, c, b) - 1
  {
    var dim: nat := if c.x != b.x then 0 else if c.y != b.y then 1 else 2;
    var adj := HopCloser(widim.Val(dim), c.Val(dim), b.Val(dim));
    rd := Toward(dim, adj);
    ThreeHops(widim, c, b);
    ThreeHops(widim, Beside(widim, c, rd), b);
  }

  /** And there is a path as long as the hop count. */
  lemma {:induction false} PathOfHops(t: Cells, a: Node, b: Node) returns (path: seq<Direction>)
    requires Full(t) && t.Stores(a) && t.Stores(b)
    ensures Follow(t, a, path) == b && |path| == Hops(t.widim, a.wiv, b.wiv)
    decreases Hops(t.widim, a.wiv, b.wiv)
  {
    assert t.Fits(a.wiv) && t.Fits(b.wiv);
    if a.wiv == b.wiv {
      path := [];
      HopsMetric(t.widim, a.wiv, a.wiv, a.wiv);
    } else {
      var rd := CloserBeside(t.widim, a.wiv, b.wiv);
      NeighborWhenFull(t, a, rd);
      var rest := PathOfHops(t, Neighbor(t, a, rd), b);
      path := [rd] + rest;
      assert path[0] == rd && path[1..] == rest;
    }
  }

  /** The size of the arrays in vmode_change that are indexed by hops. */
  function Maxhops(widim: Ivec): int {
    (widim.x + widim.y + widim.z) / 2 + 1
  }

  /** The exits for more hops than that are never taken. */
  lemma HopsBelowMax(widim: Ivec, a: Ivec, b: Ivec)
    requires InBox(widim, a) && InBox(widim, b)
    ensures Hops(widim, a, b) < Maxhops(widim)
  {
    ThreeHops(widim, a, b);
    HopZero(widim.x, a.x, b.x);
    HopZero(widim.y, a.y, b.y);
    HopZero(widim.z, a.z, b.z);
  }

  /** What the neighborhood view looks at in a node: its cell, its job, 0 for none, and whether
      it is drawn. */
  datatype Seen = Seen(wiv: Ivec, job: int, drawn: bool) {
    predicate Counts() {
      job != 0 && drawn
    }
  }

  /** How many of the nodes drawn are of the same job as p, and h hops away from it. */
  function Tally(widim: Ivec, nodes: seq<Seen>, p: Seen, h: nat): nat {
    if nodes == [] then 0
    else
      var n := nodes[|nodes| - 1];
      Tally(widim, nodes[..|nodes| - 1], p, h)
      + if n.Counts() && n.job == p.job && Hops(widim, p.wiv, n.wiv) == h then 1 else 0
  }

  /** The places of the nodes that are drawn, of p's job, and h hops away from it. */
  ghost function Around(widim: Ivec, nodes: seq<Seen>, p: Seen, h: nat): set<nat> {
    set i: nat | i < |nodes| && nodes[i].job != 0 && nodes[i].drawn && nodes[i].job == p.job
                 && Hops(widim, p.wiv, nodes[i].wiv) == h
  }

  lemma {:induction false} TallyCounts(widim: Ivec, nodes: seq<Seen>, p: Seen, h: nat)
    ensures Tally(widim, nodes, p, h) == |Around(widim, nodes, p, h)|
    decreases |nodes|
  {
    if nodes != [] {
      var n := |nodes| - 1;
      TallyCounts(widim, nodes[..n], p, h);
      var before, all := Around(widim, nodes[..n], p, h), Around(widim, nodes, p, h);
      assert all == before + if n in all then {n} else {};
    }
  }

  /** The selected node, or else the first that counts. */
  function Center(nodes: seq<Seen>, selected: Option<Seen>): Option<Seen> {
    if selected.Some? then selected
    else if nodes == [] then None
    else
      var before := Center(nodes[..|nodes| - 1], None);
      if before.None? && nodes[|nodes| - 1].Counts() then Some(nodes[|nodes| - 1]) else before
  }

  /** If none is selected, the center is the first node with a job that is drawn. */
  lemma {:induction false} CenterIsFirst(nodes: seq<Seen>, i: nat)
    requires i < |nodes| && nodes[i].Counts() && forall j | 0 <= j < i :: !nodes[j].Counts()
    ensures Center(nodes, None) == Some(nodes[i])
    decreases |nodes|
  {
    var n := |nodes| - 1;
    if i < n {
      CenterIsFirst(nodes[..n], i);
    } else {
      NoCenter(nodes[..n]);
    }
  }

  lemma {:induction false} NoCenter(nodes: seq<Seen>)
    requires forall j | 0 <= j < |nodes| :: !nodes[j].Counts()
    ensures Center(nodes, None) == None
    decreases |nodes|
  {
    if nodes != [] {
      NoCenter(nodes[..|nodes| - 1]);
    }
  }

  /** Before a center is found there is none of its job. */
  lemma {:induction false} NoneBeforeCenter(widim: Ivec, nodes: seq<Seen>, p: Seen, h: nat)
    requires Center(nodes, None) == None
    ensures Tally(widim, nodes, p, h) == 0
    decreases |nodes|
  {
    if nodes != [] {
      NoneBeforeCenter(widim, nodes[..|nodes| - 1], p, h);
    }
  }

  /** The count so far. A center that is found on the way is not itself counted. */
  ghost predicate Counted(widim: Ivec, nodes: seq<Seen>, selected: Option<Seen>, nneighbors: seq<nat>) {
    && |nneighbors| == Maxhops(widim)
    && forall h: nat | h < |nneighbors| :: CountedAt(widim, nodes, selected, nneighbors, h)
  }

  ghost predicate CountedAt(widim: Ivec, nodes: seq<Seen>, selected: Option<Seen>, nneighbors: seq<nat>, h: nat)
    requires h < |nneighbors|
  {
    match Center(nodes, selected)
    case None => nneighbors[h] == 0
    case Some(p) =>
      nneighbors[h] + (if selected.None? && h == 0 then 1 else 0) == Tally(widim, nodes, p, h)
  }

  lemma CountOne(widim: Ivec, nodes: seq<Seen>, n: Seen, selected: Option<Seen>, now: seq<nat>, next: seq<nat>)
    requires Counted(widim, nodes, selected, now) && InBox(widim, n.wiv)
    requires Center(nodes, selected).Some? ==> InBox(widim, Center(nodes, selected).value.wiv)
    requires var p := Center(nodes, selected);
      if n.Counts() && p.Some? && p.value.job == n.job then
        var h := Hops(widim, p.value.wiv, n.wiv);
        h < |now| && next == now[h := now[h] + 1]
      else next == now
    ensures Counted(widim, nodes + [n], selected, next)
  {
    var all := nodes + [n];
    assert all[..|all| - 1] == nodes;
    forall h: nat | h < |next|
      ensures CountedAt(widim, all, selected, next, h)
    {
      assert CountedAt(widim, nodes, selected, now, h);
      if Center(nodes, selected).None? {
        NoneBeforeCenter(widim, nodes, n, h);
        HopsMetric(widim, n.wiv, n.wiv, n.wiv);
      }
    }
  }

  /** The loop of vmode_change over the nodes. The exit for too many hops is never taken. */
  method CountNeighbors(widim: Ivec, nodes: seq<Seen>, selected: Option<Seen>)
      returns (exited: bool, nneighbors: array<nat>)
    requires widim.x > 0 && widim.y > 0 && widim.z > 0
    requires forall n | n in nodes :: InBox(widim, n.wiv)
    requires selected.Some? ==> selected.value.job != 0 && InBox(widim, selected.value.wiv)
    ensures !exited && fresh(nneighbors) && Counted(widim, nodes, selected, nneighbors[..])
  {
    var maxhops := Maxhops(widim);
    nneighbors := new nat[maxhops](_ => 0);
    var nodep := selected;
    var i := 0;
    assert nodes[..0] == [];
    while i < |nodes|
      invariant 0 <= i <= |nodes| && nneighbors.Length == maxhops
      invariant nodep == Center(nodes[..i], selected) && (nodep.Some? ==> InBox(widim, nodep.value.wiv))
      invariant Counted(widim, nodes[..i], selected, nneighbors[..])
    {
      var n := nodes[i];
      ghost var head, now := nodes[..i], nneighbors[..];
      assert nodes[..i + 1] == head + [n] && (head + [n])[..i] == head;
      assert n in nodes;
      if n.Counts() {
        if nodep.None? {
          nodep := Some(n);
        } else if nodep.value.job == n.job {
          var nhops := Hops(widim, nodep.value.wiv, n.wiv);
          HopsBelowMax(widim, nodep.value.wiv, n.wiv);
          if nhops >= maxhops {
            return true, nneighbors;
          }
          nneighbors[nhops] := nneighbors[nhops] + 1;
        }
      }
      CountOne(widim, head, n, selected, now, nneighbors[..]);
      i := i + 1;
    }
    assert nodes[..i] == nodes;
    exited := false;
  }
}
