/** Where the wired views draw the nodes (main.c, vmode_change). The view starts at an offset into
    the torus that may be negative, and wraps round its ends. */
module Placement {
  import opened Division
  import opened Nodes
  import opened Torus

  /** The cell of the torus that is shown at iv. */
  function Shown(widim: Ivec, wioff: Ivec, iv: Ivec): Ivec
    requires InBox(widim, iv)
  {
    Ivec(NegMod(iv.x + wioff.x, widim.x), NegMod(iv.y + wioff.y, widim.y), NegMod(iv.z + wioff.z, widim.z))
  }

  /** The position for iv when the torus is unrolled into a grid that goes on for ever. */
  function Unrolled(wioff: Ivec, winsp: Ivec, iv: Ivec): Ivec {
    Ivec((iv.x + wioff.x) * winsp.x, (iv.y + wioff.y) * winsp.y, (iv.z + wioff.z) * winsp.z)
  }

  /** Different cells of the view show different cells of the torus ... */
  lemma ShownInjective(widim: Ivec, wioff: Ivec, iv: Ivec, jv: Ivec)
    requires InBox(widim, iv) && InBox(widim, jv) && Shown(widim, wioff, iv) == Shown(widim, wioff, jv)
    ensures iv == jv
  {
    NegModShiftInjective(iv.x, jv.x, wioff.x, widim.x);
    NegModShiftInjective(iv.y, jv.y, wioff.y, widim.y);
    NegModShiftInjective(iv.z, jv.z, wioff.z, widim.z);
  }

  lemma NegModBack(c: int, off: int, w: int)
    requires 0 <= c < w
    ensures NegMod(NegMod(c - off, w) + off, w) == c
  {
    var q := (c - off) / w;
    assert NegMod(c - off, w) + off == -q * w + c;
    DivModUnique(NegMod(c - off, w) + off, w, -q, c);
  }

  /** ... and every cell of the torus is shown. */
  lemma ShownSurjective(widim: Ivec, wioff: Ivec, c: Ivec) returns (iv: Ivec)
    requires InBox(widim, c)
    ensures InBox(widim, iv) && Shown(widim, wioff, iv) == c
  {
    iv := Ivec(NegMod(c.x - wioff.x, widim.x), NegMod(c.y - wioff.y, widim.y), NegMod(c.z - wioff.z, widim.z));
    NegModBack(c.x, wioff.x, widim.x);
    NegModBack(c.y, wioff.y, widim.y);
    NegModBack(c.z, wioff.z, widim.z);
  }

  lemma ScaleInjective(a: int, b: int, s: int)
    requires s != 0 && a * s == b * s
    ensures a == b
  {
    assert (a - b) * s == 0;
  }

  /** With nonzero spacing no two cells of the view share a position. */
  lemma UnrolledInjective(wioff: Ivec, winsp: Ivec, iv: Ivec, jv: Ivec)
    requires winsp.x != 0 && winsp.y != 0 && winsp.z != 0
    requires Unrolled(wioff, winsp, iv) == Unrolled(wioff, winsp, jv)
    ensures iv == jv
  {
    ScaleInjective(iv.x + wioff.x, jv.x + wioff.x, winsp.x);
    ScaleInjective(iv.y + wioff.y, jv.y + wioff.y, winsp.y);
    ScaleInjective(iv.z + wioff.z, jv.z + wioff.z, winsp.z);
  }

  lemma ScaleSum(c: int, q: int, w: int, s: int)
    ensures c * s + q * (w * s) == (c + q * w) * s
  {
    assert q * (w * s) == q * w * s;
  }

  /** negmod and the floor of the quotient belong together: what the one takes off the other
      puts back. */
  lemma WrapsRound(i: int, w: int, s: int)
    requires w > 0
    ensures NegMod(i, w) * s + i / w * (w * s) == i * s
  {
    ScaleSum(NegMod(i, w), i / w, w, s);
  }

  /** The node shown at iv, if there is one, is visible and at its place in the unrolled grid. */
  ghost predicate Placed(t: Cells, wioff: Ivec, winsp: Ivec, iv: Ivec)
    requires InBox(t.widim, iv)
    reads t.node.Values
  {
    var c := Shown(t.widim, wioff, iv);
    c in t.node ==> t.node[c].v == Unrolled(wioff, winsp, iv) && t.node[c].vmvis
  }

  /** Other cells of the view show other nodes. */
  lemma OtherCell(t: Cells, wioff: Ivec, iv: Ivec, jv: Ivec)
    requires t.Valid() && InBox(t.widim, iv) && InBox(t.widim, jv) && iv != jv
    ensures var c, d := Shown(t.widim, wioff, iv), Shown(t.widim, wioff, jv);
            c in t.node && d in t.node ==> t.node[c] != t.node[d]
  {
    var c, d := Shown(t.widim, wioff, iv), Shown(t.widim, wioff, jv);
    assert t.Fits(c) && t.Fits(d);
    if c == d {
      ShownInjective(t.widim, wioff, iv, jv);
    }
  }

  method PlaceCell(g: Grid, wioff: Ivec, winsp: Ivec, iv: Ivec, ghost t: Cells)
    requires Represents(g, t) && InBox(g.widim, iv)
    modifies t.node.Values
    ensures Placed(t, wioff, winsp, iv)
    ensures forall jv: Ivec | InBox(t.widim, jv) && jv != iv && old(Placed(t, wioff, winsp, jv)) ::
              Placed(t, wioff, winsp, jv)
  {
    var adjv := Shown(g.widim, wioff, iv);
    RepresentsAt(g, t, adjv);
    RepresentsValid(g, t);
    assert t.Fits(adjv);
    var n := g.At(adjv);
    if n == null {
      return;
    }
    assert n in t.node.Values;
    n.vmvis := true;
    var spdim := Ivec(g.widim.x * winsp.x, g.widim.y * winsp.y, g.widim.z * winsp.z);
    var wrapv := Ivec((iv.x + wioff.x) / g.widim.x * spdim.x,
                      (iv.y + wioff.y) / g.widim.y * spdim.y,
                      (iv.z + wioff.z) / g.widim.z * spdim.z);
    n.v := Ivec(n.wiv.x * winsp.x + wrapv.x, n.wiv.y * winsp.y + wrapv.y, n.wiv.z * winsp.z + wrapv.z);
    WrapsRound(iv.x + wioff.x, g.widim.x, winsp.x);
    WrapsRound(iv.y + wioff.y, g.widim.y, winsp.y);
    WrapsRound(iv.z + wioff.z, g.widim.z, winsp.z);
    forall jv: Ivec | InBox(t.widim, jv) && jv != iv && old(Placed(t, wioff, winsp, jv))
      ensures Placed(t, wioff, winsp, jv)
    {
      OtherCell(t, wioff, iv, jv);
    }
  }

  method PlaceRow(g: Grid, wioff: Ivec, winsp: Ivec, x: int, y: int, ghost t: Cells)
    requires Represents(g, t) && 0 <= x < g.widim.x && 0 <= y < g.widim.y
    modifies t.node.Values
    ensures forall jv: Ivec | InBox(t.widim, jv)
              && ((jv.x == x && jv.y == y) || old(Placed(t, wioff, winsp, jv))) :: Placed(t, wioff, winsp, jv)
  {
    var z := 0;
    while z < g.widim.z
      invariant 0 <= z <= t.widim.z
      invariant forall jv: Ivec | InBox(t.widim, jv)
                  && ((jv.x == x && jv.y == y && jv.z < z) || old(Placed(t, wioff, winsp, jv))) ::
                  Placed(t, wioff, winsp, jv)
    {
      PlaceCell(g, wioff, winsp, Ivec(x, y, z), t);
      z := z + 1;
    }
  }

  method PlacePlane(g: Grid, wioff: Ivec, winsp: Ivec, x: int, ghost t: Cells)
    requires Represents(g, t) && 0 <= x < g.widim.x
    modifies t.node.Values
    ensures forall jv: Ivec | InBox(t.widim, jv) && (jv.x == x || old(Placed(t, wioff, winsp, jv))) ::
              Placed(t, wioff, winsp, jv)
  {
    var y := 0;
    while y < g.widim.y
      invariant 0 <= y <= t.widim.y
      invariant forall jv: Ivec | InBox(t.widim, jv)
                  && ((jv.x == x && jv.y < y) || old(Placed(t, wioff, winsp, jv))) ::
                  Placed(t, wioff, winsp, jv)
    {
      PlaceRow(g, wioff, winsp, x, y, t);
      y := y + 1;
    }
  }

  /** The loop over all cells. No placement is undone by a later one. */
  method PlaceWired(g: Grid, wioff: Ivec, winsp: Ivec, ghost t: Cells)
    requires Represents(g, t)
    modifies t.node.Values
    ensures forall iv: Ivec | InBox(t.widim, iv) :: Placed(t, wioff, winsp, iv)
  {
    var x := 0;
    while x < g.widim.x
      invariant 0 <= x <= t.widim.x
      invariant forall jv: Ivec | InBox(t.widim, jv) && jv.x < x :: Placed(t, wioff, winsp, jv)
    {
      PlacePlane(g, wioff, winsp, x, t);
      x := x + 1;
    }
  }

  /** After that, every node is drawn, and with nonzero spacing no two in the same position. */
  lemma PlacedApart(t: Cells, wioff: Ivec, winsp: Ivec, n: Node, m: Node)
    requires t.Valid() && t.Stores(n) && t.Stores(m) && n != m
    requires forall iv: Ivec | InBox(t.widim, iv) :: Placed(t, wioff, winsp, iv)
    requires winsp.x != 0 && winsp.y != 0 && winsp.z != 0
    ensures n.vmvis && m.vmvis && n.v != m.v
  {
    assert t.Fits(n.wiv) && t.Fits(m.wiv);
    var iv := ShownSurjective(t.widim, wioff, n.wiv);
    var jv := ShownSurjective(t.widim, wioff, m.wiv);
    assert Placed(t, wioff, winsp, iv) && Placed(t, wioff, winsp, jv);
    if n.v == m.v {
      UnrolledInjective(wioff, winsp, iv, jv);
    }
  }

  /** Along one axis, with a view of w cells from offset off: v is the position of cell c, moved by
      whole turns of the torus into the view. */
  ghost predicate DrawnInView(c: int, w: int, off: int, sp: int, v: int) {
    exists turns: int :: off <= c + turns * w < off + w && v == (c + turns * w) * sp
  }

  lemma ShownInView(i: int, w: int, off: int, sp: int)
    requires 0 <= i < w
    ensures DrawnInView(NegMod(i + off, w), w, off, sp, (i + off) * sp)
  {
    var turns := (i + off) / w;
    assert NegMod(i + off, w) + turns * w == i + off;
  }

  /** After that, every node is drawn once, where its own cell is in the view. */
  lemma PlacedInView(t: Cells, wioff: Ivec, winsp: Ivec, n: Node)
    requires t.Valid() && t.Stores(n) && forall iv: Ivec | InBox(t.widim, iv) :: Placed(t, wioff, winsp, iv)
    ensures n.vmvis && DrawnInView(n.wiv.x, t.widim.x, wioff.x, winsp.x, n.v.x)
    ensures DrawnInView(n.wiv.y, t.widim.y, wioff.y, winsp.y, n.v.y)
    ensures DrawnInView(n.wiv.z, t.widim.z, wioff.z, winsp.z, n.v.z)
  {
    assert t.Fits(n.wiv);
    var iv := ShownSurjective(t.widim, wioff, n.wiv);
    assert Placed(t, wioff, winsp, iv);
    ShownInView(iv.x, t.widim.x, wioff.x, winsp.x);
    ShownInView(iv.y, t.widim.y, wioff.y, winsp.y);
    ShownInView(iv.z, t.widim.z, wioff.z, winsp.z);
  }
}
