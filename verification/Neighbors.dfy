/** Stepping from a node of the torus to the next one (node.c, node_neighbor) in the wired modes,
    where cells may be empty. */
module Neighbors {
  import opened Division
  import opened Nodes
  import opened Ring
  import opened Torus

  datatype Direction = NegX | PosX | NegY | PosY | NegZ | PosZ

  function Adj(rd: Direction): int {
    if rd.NegX? || rd.NegY? || rd.NegZ? then -1 else 1
  }

  function Dim(rd: Direction): nat {
    if rd.NegX? || rd.PosX? then 0 else if rd.NegY? || rd.PosY? then 1 else 2
  }

  function Opposite(rd: Direction): (o: Direction)
    ensures Dim(o) == Dim(rd) && Adj(o) == -Adj(rd)
  {
    match rd
    case NegX => PosX
    case PosX => NegX
    case NegY => PosY
    case PosY => NegY
    case NegZ => PosZ
    case PosZ => NegZ
  }

  /** Which cells are occupied on the line through c in dimension dim. */
  function LineOf(t: Cells, c: Ivec, dim: nat): (occ: seq<bool>)
    requires 0 < t.widim.Val(dim)
    ensures |occ| == t.widim.Val(dim)
    ensures forall i {:trigger occ[i]} | 0 <= i < |occ| :: occ[i] <==> c.With(dim, i) in t.node
  {
    seq(t.widim.Val(dim), i requires 0 <= i < t.widim.Val(dim) => c.With(dim, i) in t.node)
  }

  lemma OwnCell(t: Cells, n: Node, dim: nat)
    requires t.Valid() && t.Stores(n)
    ensures var occ, p := LineOf(t, n.wiv, dim), n.wiv.Val(dim); 0 <= p < |occ| && occ[p]
  {
    assert t.Fits(n.wiv);
    assert n.wiv.With(dim, n.wiv.Val(dim)) == n.wiv;
  }

  /** The node in the next occupied cell. */
  function Neighbor(t: Cells, n: Node, rd: Direction): (ng: Node)
    requires t.Valid() && t.Stores(n)
    ensures t.Stores(ng)
    ensures OnLine(n, ng, Dim(rd))
  {
    OwnCell(t, n, Dim(rd));
    var c := n.wiv.With(Dim(rd), Next(LineOf(t, n.wiv, Dim(rd)), n.wiv.Val(Dim(rd)), Adj(rd)));
    assert t.Fits(c);
    t.node[c]
  }

  /** The direction, if the step to the neighbor leads across the boundary, and otherwise 0. */
  function Flip(t: Cells, n: Node, rd: Direction): int
    requires t.Valid() && t.Stores(n)
  {
    OwnCell(t, n, Dim(rd));
    var occ, p := LineOf(t, n.wiv, Dim(rd)), n.wiv.Val(Dim(rd));
    if Crosses(p, Adj(rd), Gap(occ, p, Adj(rd)), |occ|) then Adj(rd) else 0
  }

  lemma NeighborIsNext(t: Cells, n: Node, rd: Direction)
    requires t.Valid() && t.Stores(n)
    ensures var dim, p, occ := Dim(rd), n.wiv.Val(Dim(rd)), LineOf(t, n.wiv, Dim(rd));
            && 0 <= p < |occ| && occ[p] && n.wiv.With(dim, Next(occ, p, Adj(rd))) in t.node
            && Neighbor(t, n, rd) == t.node[n.wiv.With(dim, Next(occ, p, Adj(rd)))]
            && Neighbor(t, n, rd).wiv == n.wiv.With(dim, Next(occ, p, Adj(rd)))
  {
    OwnCell(t, n, Dim(rd));
    assert t.Fits(n.wiv.With(Dim(rd), Next(LineOf(t, n.wiv, Dim(rd)), n.wiv.Val(Dim(rd)), Adj(rd))));
  }

  predicate OnLine(n: Node, m: Node, dim: nat) {
    m.wiv == n.wiv.With(dim, m.wiv.Val(dim))
  }

  lemma NegModNear(v: int, w: int)
    requires 0 < w && -1 <= v <= w
    ensures NegMod(v, w) == if v < 0 then w - 1 else if v == w then 0 else v
  {
    if v < 0 {
      DivModUnique(v, w, -1, w - 1);
    } else if v == w {
      DivModUnique(v, w, 1, 0);
    } else {
      DivModUnique(v, w, 0, v);
    }
  }

  lemma OneMore(p: int, adj: int, k: int, w: int)
    requires 0 <= p < w && 0 <= k < w && IsStep(adj)
    ensures NegMod(Along(p, adj, k, w) + adj, w) == Along(p, adj, k + 1, w)
    ensures var x := Along(p, adj, k + 1, w);
            Crosses(p, adj, k + 1, w)
            <==> Crosses(p, adj, k, w) || (adj > 0 && x == 0) || (adj < 0 && x == w - 1)
  {
    NegModNear(Along(p, adj, k, w) + adj, w);
  }

  /** What one turn of the loop finds, k turns on. */
  lemma TurnOfLoop(g: Grid, t: Cells, n: Node, dim: nat, adj: int, k: nat)
    requires Represents(g, t) && t.Valid() && t.Stores(n) && IsStep(adj)
    requires var occ, p := LineOf(t, n.wiv, dim), n.wiv.Val(dim); 0 <= p < |occ| && occ[p] && k < Gap(occ, p, adj)
    ensures var occ, p, w := LineOf(t, n.wiv, dim), n.wiv.Val(dim), t.widim.Val(dim);
            var here, there := n.wiv.With(dim, Along(p, adj, k, w)), n.wiv.With(dim, Along(p, adj, k + 1, w));
      && here.With(dim, NegMod(here.Val(dim) + adj, w)) == there && InBox(g.widim, there) && g.Sized()
      && (if there in t.node then g.At(there) == t.node[there] else g.At(there) == null)
      && (there in t.node <==> k + 1 == Gap(occ, p, adj))
      && (Crosses(p, adj, k + 1, w)
          <==> Crosses(p, adj, k, w) || (adj > 0 && there.Val(dim) == 0) || (adj < 0 && there.Val(dim) == w - 1))
  {
    assert t.Fits(n.wiv);
    var p, w := n.wiv.Val(dim), t.widim.Val(dim);
    var next := Along(p, adj, k + 1, w);
    OneMore(p, adj, k, w);
    WithWith(n.wiv, dim, Along(p, adj, k, w), next);
    WithInBox(g.widim, n.wiv, dim, next);
    RepresentsAt(g, t, n.wiv.With(dim, next));
    assert LineOf(t, n.wiv, dim)[next] <==> n.wiv.With(dim, next) in t.node;
  }

  /** The loop of node_neighbor. */
  method Scan(g: Grid, n: Node, dim: nat, adj: int, ghost t: Cells) returns (node: Node, flip: int)
    requires Represents(g, t) && t.Valid() && t.Stores(n) && IsStep(adj)
    requires var occ, p := LineOf(t, n.wiv, dim), n.wiv.Val(dim); 0 <= p < |occ| && occ[p]
    ensures var occ, p, w := LineOf(t, n.wiv, dim), n.wiv.Val(dim), t.widim.Val(dim);
      && n.wiv.With(dim, Next(occ, p, adj)) in t.node && node == t.node[n.wiv.With(dim, Next(occ, p, adj))]
      && flip == if Crosses(p, adj, Gap(occ, p, adj), w) then adj else 0
  {
    ghost var w, p := t.widim.Val(dim), n.wiv.Val(dim);
    ghost var gap := Gap(LineOf(t, n.wiv, dim), p, adj);
    ghost var k := 0;
    flip := 0;
    var iv := n.wiv;
    var ng: Node? := null;
    WithWith(n.wiv, dim, p, p);
    while ng == null
      invariant 0 <= k <= gap
      invariant iv == n.wiv.With(dim, Along(p, adj, k, w))
      invariant flip == if Crosses(p, adj, k, w) then adj else 0
      invariant if k < gap then ng == null else iv in t.node && ng == t.node[iv]
      decreases gap - k
    {
      TurnOfLoop(g, t, n, dim, adj, k);
      k := k + 1;
      iv := iv.With(dim, NegMod(iv.Val(dim) + adj, g.widim.Val(dim)));
      ng := g.At(iv);
      if (adj > 0 && iv.Val(dim) == 0) || (adj < 0 && iv.Val(dim) == g.widim.Val(dim) - 1) {
        flip := adj;
      }
    }
    node := ng;
  }

  method NodeNeighbor(g: Grid, n: Node, rd: Direction, ghost t: Cells) returns (node: Node, flip: int)
    requires Represents(g, t) && t.Stores(n)
    ensures t.Valid() && node == Neighbor(t, n, rd) && flip == Flip(t, n, rd)
  {
    RepresentsValid(g, t);
    NeighborIsNext(t, n, rd);
    node, flip := Scan(g, n, Dim(rd), Adj(rd), t);
  }

  // ---- which way it is ----

  /** From coordinate c up to d, past no stored node, or, with flip set, over the upper end of the line
      and on from the lower end. */
  ghost predicate GoesUp(line: iset<int>, c: int, d: int, flip: int) {
    || (flip == 0 && c < d && forall i | c < i < d :: i !in line)
    || (flip == 1 && d <= c && forall i | i in line :: d <= i <= c)
  }

  ghost predicate GoesDown(line: iset<int>, c: int, d: int, flip: int) {
    || (flip == 0 && d < c && forall i | d < i < c :: i !in line)
    || (flip == -1 && c <= d && forall i | i in line :: c <= i <= d)
  }

  ghost predicate LineIs(occ: seq<bool>, line: iset<int>) {
    forall i :: i in line <==> 0 <= i < |occ| && occ[i]
  }

  lemma NextUp(occ: seq<bool>, p: nat, line: iset<int>)
    requires p < |occ| && occ[p] && LineIs(occ, line)
    ensures GoesUp(line, p, Next(occ, p, 1), if Crosses(p, 1, Gap(occ, p, 1), |occ|) then 1 else 0)
  {
    var w, g := |occ|, Gap(occ, p, 1);
    forall i | 0 <= i < w && i != p
      ensures var k := if i > p then i - p else i - p + w;
              k < g ==> i !in line
    {
      var k := if i > p then i - p else i - p + w;
      assert Along(p, 1, k, w) == i;
    }
  }

  lemma NextDown(occ: seq<bool>, p: nat, line: iset<int>)
    requires p < |occ| && occ[p] && LineIs(occ, line)
    ensures GoesDown(line, p, Next(occ, p, -1), if Crosses(p, -1, Gap(occ, p, -1), |occ|) then -1 else 0)
  {
    var w, g := |occ|, Gap(occ, p, -1);
    forall i | 0 <= i < w && i != p
      ensures var k := if i < p then p - i else p - i + w;
              k < g ==> i !in line
    {
      var k := if i < p then p - i else p - i + w;
      assert Along(p, -1, k, w) == i;
    }
  }

  /** The stored nodes on a line, by their coordinate on it. */
  ghost function Line(t: Cells, c: Ivec, dim: nat): iset<int> {
    iset i | c.With(dim, i) in t.node
  }

  lemma NextOnLine(t: Cells, n: Node, rd: Direction)
    requires t.Valid() && t.Stores(n)
    ensures var dim, d, flip := Dim(rd), Neighbor(t, n, rd).wiv, Flip(t, n, rd);
      && d == n.wiv.With(dim, d.Val(dim))
      && if Adj(rd) > 0 then GoesUp(Line(t, n.wiv, dim), n.wiv.Val(dim), d.Val(dim), flip)
         else GoesDown(Line(t, n.wiv, dim), n.wiv.Val(dim), d.Val(dim), flip)
  {
    var dim := Dim(rd);
    NeighborIsNext(t, n, rd);
    var occ, p, line := LineOf(t, n.wiv, dim), n.wiv.Val(dim), Line(t, n.wiv, dim);
    forall i
      ensures i in line <==> 0 <= i < |occ| && occ[i]
    {
      assert t.Fits(n.wiv.With(dim, i));
    }
    if Adj(rd) > 0 {
      NextUp(occ, p, line);
    } else {
      NextDown(occ, p, line);
    }
  }

  /** The neighbor differs in the coordinate of the direction only, and is the next stored node that
      way: up for the positive directions, down for the negative ones, and round if there is none. */
  lemma NeighborWhere(t: Cells, n: Node, rd: Direction)
    requires t.Valid() && t.Stores(n)
    ensures var c, d, flip := n.wiv, Neighbor(t, n, rd).wiv, Flip(t, n, rd);
      var xs, ys, zs := iset i | Ivec(i, c.y, c.z) in t.node, iset i | Ivec(c.x, i, c.z) in t.node,
                        iset i | Ivec(c.x, c.y, i) in t.node;
      match rd
      case PosX => d.y == c.y && d.z == c.z && GoesUp(xs, c.x, d.x, flip)
      case NegX => d.y == c.y && d.z == c.z && GoesDown(xs, c.x, d.x, flip)
      case PosY => d.x == c.x && d.z == c.z && GoesUp(ys, c.y, d.y, flip)
      case NegY => d.x == c.x && d.z == c.z && GoesDown(ys, c.y, d.y, flip)
      case PosZ => d.x == c.x && d.y == c.y && GoesUp(zs, c.z, d.z, flip)
      case NegZ => d.x == c.x && d.y == c.y && GoesDown(zs, c.z, d.z, flip)
  {
    NextOnLine(t, n, rd);
    var c := n.wiv;
    assert Line(t, c, 0) == iset i | Ivec(i, c.y, c.z) in t.node;
    assert Line(t, c, 1) == iset i | Ivec(c.x, i, c.z) in t.node;
    assert Line(t, c, 2) == iset i | Ivec(c.x, c.y, i) in t.node;
  }

  lemma SameLine(t: Cells, c: Ivec, dim: nat, i: int)
    requires 0 < t.widim.Val(dim)
    ensures LineOf(t, c.With(dim, i), dim) == LineOf(t, c, dim)
  {
    var d := c.With(dim, i);
    forall j | 0 <= j < t.widim.Val(dim)
      ensures LineOf(t, d, dim)[j] == LineOf(t, c, dim)[j]
    {
      WithWith(c, dim, i, j);
    }
  }

  /** The opposite direction leads straight back, over the same boundary. */
  lemma NeighborBack(t: Cells, n: Node, rd: Direction)
    requires t.Valid() && t.Stores(n)
    ensures Neighbor(t, Neighbor(t, n, rd), Opposite(rd)) == n
    ensures Flip(t, Neighbor(t, n, rd), Opposite(rd)) == -Flip(t, n, rd)
  {
    var dim, ng := Dim(rd), Neighbor(t, n, rd);
    OwnCell(t, n, dim);
    OwnCell(t, ng, dim);
    var occ, p := LineOf(t, n.wiv, dim), n.wiv.Val(dim);
    SameLine(t, n.wiv, dim, ng.wiv.Val(dim));
    NextBack(occ, p, Adj(rd));
    NeighborIsNext(t, n, rd);
    NeighborIsNext(t, ng, Opposite(rd));
    WithWith(n.wiv, dim, ng.wiv.Val(dim), p);
  }

  /** The node reached by k steps. */
  function Travel(t: Cells, n: Node, rd: Direction, k: nat): (m: Node)
    requires t.Valid() && t.Stores(n)
    ensures t.Stores(m)
  {
    if k == 0 then n else Neighbor(t, Travel(t, n, rd, k - 1), rd)
  }

  lemma StepWalks(t: Cells, n: Node, rd: Direction, m: Node, q: nat)
    requires t.Valid() && t.Stores(n) && t.Stores(m) && m.wiv == n.wiv.With(Dim(rd), q)
    ensures var dim := Dim(rd);
      && 0 < t.widim.Val(dim) && q < |LineOf(t, n.wiv, dim)| && LineOf(t, n.wiv, dim)[q]
      && Neighbor(t, m, rd).wiv == n.wiv.With(dim, Next(LineOf(t, n.wiv, dim), q, Adj(rd)))
  {
    var dim := Dim(rd);
    NeighborIsNext(t, m, rd);
    SameLine(t, n.wiv, dim, q);
    WithWith(n.wiv, dim, q, Next(LineOf(t, m.wiv, dim), q, Adj(rd)));
  }

  /** k steps go where k steps along the line go. */
  ghost predicate Walks(t: Cells, n: Node, rd: Direction, k: nat)
    requires t.Valid() && t.Stores(n)
  {
    var dim, p := Dim(rd), n.wiv.Val(Dim(rd));
    && 0 < t.widim.Val(dim) && 0 <= p < |LineOf(t, n.wiv, dim)| && LineOf(t, n.wiv, dim)[p]
    && Travel(t, n, rd, k).wiv == n.wiv.With(dim, Walk(LineOf(t, n.wiv, dim), p, Adj(rd), k))
  }

  lemma {:induction false} TravelWalks(t: Cells, n: Node, rd: Direction, k: nat)
    requires t.Valid() && t.Stores(n)
    ensures Walks(t, n, rd, k)
  {
    var dim, p := Dim(rd), n.wiv.Val(Dim(rd));
    if k == 0 {
      OwnCell(t, n, dim);
      assert t.Fits(n.wiv);
      WithWith(n.wiv, dim, p, p);
    } else {
      TravelWalks(t, n, rd, k - 1);
      StepWalks(t, n, rd, Travel(t, n, rd, k - 1), Walk(LineOf(t, n.wiv, dim), p, Adj(rd), k - 1));
    }
  }

  /** The number of nodes on the line. */
  function NodesOnLine(t: Cells, n: Node, dim: nat): nat
    requires 0 < t.widim.Val(dim)
  {
    Count(LineOf(t, n.wiv, dim))
  }

  /** Going on in one direction visits every node of the line ... */
  lemma TravelReaches(t: Cells, n: Node, rd: Direction, m: Node) returns (k: nat)
    requires t.Valid() && t.Stores(n) && t.Stores(m) && OnLine(n, m, Dim(rd))
    ensures k < NodesOnLine(t, n, Dim(rd)) && Travel(t, n, rd, k) == m
  {
    var dim, adj := Dim(rd), Adj(rd);
    OwnCell(t, n, dim);
    OwnCell(t, m, dim);
    var occ, p, q := LineOf(t, n.wiv, dim), n.wiv.Val(dim), m.wiv.Val(dim);
    SameLine(t, n.wiv, dim, q);
    OneCycle(occ, p, adj, q);
    k :| k < Count(occ) && Walk(occ, p, adj, k) == q;
    TravelWalks(t, n, rd, k);
  }

  /** ... each of them once ... */
  lemma TravelNeverTwice(t: Cells, n: Node, rd: Direction, i: nat, j: nat)
    requires t.Valid() && t.Stores(n) && i < j < NodesOnLine(t, n, Dim(rd))
    ensures Travel(t, n, rd, i) != Travel(t, n, rd, j)
  {
    var dim := Dim(rd);
    OwnCell(t, n, dim);
    NoneTwice(LineOf(t, n.wiv, dim), n.wiv.Val(dim), Adj(rd), i, j);
    TravelWalks(t, n, rd, i);
    TravelWalks(t, n, rd, j);
  }

  /** ... and then returns. */
  lemma TravelReturns(t: Cells, n: Node, rd: Direction)
    requires t.Valid() && t.Stores(n)
    ensures Travel(t, n, rd, NodesOnLine(t, n, Dim(rd))) == n
  {
    var dim := Dim(rd);
    OwnCell(t, n, dim);
    var occ, p := LineOf(t, n.wiv, dim), n.wiv.Val(dim);
    OneCycle(occ, p, Adj(rd), p);
    TravelWalks(t, n, rd, Count(occ));
    WithWith(n.wiv, dim, p, p);
  }

  /** The cell next to c. */
  function Beside(widim: Ivec, c: Ivec, rd: Direction): (d: Ivec)
    requires InBox(widim, c)
    ensures InBox(widim, d)
  {
    c.With(Dim(rd), NegMod(c.Val(Dim(rd)) + Adj(rd), widim.Val(Dim(rd))))
  }

  /** Where no cell is empty the neighbor is in the very next one. */
  lemma NeighborWhenFull(t: Cells, n: Node, rd: Direction)
    requires t.Valid() && t.Stores(n) && forall c: Ivec :: InBox(t.widim, c) ==> c in t.node
    ensures InBox(t.widim, n.wiv) && Neighbor(t, n, rd).wiv == Beside(t.widim, n.wiv, rd)
  {
    var dim, adj := Dim(rd), Adj(rd);
    assert t.Fits(n.wiv);
    NeighborIsNext(t, n, rd);
    var p, w := n.wiv.Val(dim), t.widim.Val(dim);
    var next := Along(p, adj, 1, w);
    OneMore(p, adj, 0, w);
    WithInBox(t.widim, n.wiv, dim, next);
    assert LineOf(t, n.wiv, dim)[next];
  }
}
