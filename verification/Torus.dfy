/** The wired torus (node.h, node.c, math.c): cells, the nodes stored in them, and the modulus
    that keeps coordinates in range. */
module Torus {
  import opened Division
  import opened Nodes

  predicate InBox(widim: Ivec, c: Ivec) {
    0 <= c.x < widim.x && 0 <= c.y < widim.y && 0 <= c.z < widim.z
  }

  lemma WithInBox(widim: Ivec, c: Ivec, dim: nat, v: int)
    requires InBox(widim, c) && 0 <= v < widim.Val(dim)
    ensures InBox(widim, c.With(dim, v))
  {
  }

  lemma WithWith(c: Ivec, dim: nat, v: int, u: int)
    ensures c.With(dim, v).With(dim, u) == c.With(dim, u) && c.With(dim, c.Val(dim)) == c
  {
  }

  /** negmod of math.c. Both remainders are taken of numbers that are not negative, where C's %
      and Dafny's agree; the result is the one remainder of a that lies in [0, b). */
  function NegMod(a: int, b: int): (c: int)
    requires b > 0
    ensures 0 <= c < b && c == a - a / b * b
  {
    if a < 0 then
      var c := (-a) % b;
      OppositeRemainder(a, b);
      if c != 0 then b - c else c
    else
      a % b
  }

  lemma MultipleInRange(d: int, b: int, x: int)
    requires d * b == x && -b < x < b
    ensures d == 0
  {
    MultipleIsFar(d, b);
  }

  lemma SameRemainder(x: int, y: int, p: int, q: int, w: int)
    requires x - p * w == y - q * w && -w < x - y < w
    ensures x == y
  {
    assert (p - q) * w == p * w - q * w;
    MultipleInRange(p - q, w, x - y);
  }

  lemma OppositeRemainder(a: int, b: int)
    requires b > 0
    ensures var c := (-a) % b; a - a / b * b == if c != 0 then b - c else 0
  {
    var c, q := (-a) % b, (-a) / b;
    assert -a == q * b + c;
    if c != 0 {
      DivModUnique(a, b, -q - 1, b - c);
    } else {
      DivModUnique(a, b, -q, 0);
    }
  }

  /** A whole turn of w cells does not matter, and within a turn nothing else is the same. */
  lemma NegModShiftInjective(i: int, j: int, off: int, w: int)
    requires 0 <= i < w && 0 <= j < w && NegMod(i + off, w) == NegMod(j + off, w)
    ensures i == j
  {
    SameRemainder(i + off, j + off, (i + off) / w, (j + off) / w, w);
  }

  /** The place of a cell in node_wimap. */
  function Index(widim: Ivec, c: Ivec): int {
    c.x * widim.y * widim.z + c.y * widim.z + c.z
  }

  lemma Distribute(a: int, b: int, c: int, d: int)
    ensures (a * b + c) * d == a * b * d + c * d
  {
  }

  lemma Digit(high: int, low: int, n: int, base: int)
    requires 0 <= high < n && 0 <= low < base
    ensures 0 <= high * base + low < n * base
  {
    assert 0 <= high * base <= (n - 1) * base;
  }

  lemma IndexInRange(widim: Ivec, c: Ivec)
    requires InBox(widim, c)
    ensures 0 <= Index(widim, c) < widim.x * widim.y * widim.z
  {
    Digit(c.x, c.y, widim.x, widim.y);
    Digit(c.x * widim.y + c.y, c.z, widim.x * widim.y, widim.z);
    Distribute(c.x, widim.y, c.y, widim.z);
  }

  lemma SameDigits(high: int, low: int, high': int, low': int, base: int)
    requires 0 <= low < base && 0 <= low' < base && high * base + low == high' * base + low'
    ensures high == high' && low == low'
  {
    DivModUnique(high * base + low, base, high, low);
    DivModUnique(high * base + low, base, high', low');
  }

  /** No two cells share a place in node_wimap. */
  lemma IndexInjective(widim: Ivec, c: Ivec, d: Ivec)
    requires InBox(widim, c) && InBox(widim, d) && Index(widim, c) == Index(widim, d)
    ensures c == d
  {
    Distribute(c.x, widim.y, c.y, widim.z);
    Distribute(d.x, widim.y, d.y, widim.z);
    SameDigits(c.x * widim.y + c.y, c.z, d.x * widim.y + d.y, d.z, widim.z);
    SameDigits(c.x, c.y, d.x, d.y, widim.y);
  }

  /** node_wimap with its dimensions. A place without a node holds null. */
  datatype Grid = Grid(widim: Ivec, wimap: seq<Node?>) {

    ghost predicate Sized() {
      && widim.x > 0 && widim.y > 0 && widim.z > 0
      && |wimap| == widim.x * widim.y * widim.z
    }

    /** NODE_WIMAP */
    function At(c: Ivec): Node?
      requires Sized() && InBox(widim, c)
    {
      IndexInRange(widim, c);
      wimap[Index(widim, c)]
    }

    ghost predicate CellFits(cells: map<Ivec, Node>, c: Ivec)
      requires Sized()
    {
      if InBox(widim, c) && At(c) != null then c in cells && cells[c] == At(c) && At(c).wiv == c else c !in cells
    }

    /** cells are the nodes in node_wimap by cell, and each node knows the cell it is in. */
    ghost predicate Holds(cells: map<Ivec, Node>) {
      Sized() && forall c: Ivec :: CellFits(cells, c)
    }
  }

  /** The nodes of a torus by cell. */
  datatype Cells = Cells(widim: Ivec, node: map<Ivec, Node>) {

    ghost predicate Fits(c: Ivec) {
      c in node ==> InBox(widim, c) && node[c].wiv == c
    }

    ghost predicate Valid() {
      widim.x > 0 && widim.y > 0 && widim.z > 0 && forall c: Ivec :: Fits(c)
    }

    predicate Stores(n: Node) {
      n.wiv in node && node[n.wiv] == n
    }
  }

  ghost predicate Represents(g: Grid, t: Cells) {
    g.widim == t.widim && g.Holds(t.node)
  }

  lemma RepresentsValid(g: Grid, t: Cells)
    requires Represents(g, t)
    ensures t.Valid()
  {
    forall c: Ivec
      ensures t.Fits(c)
    {
      assert g.CellFits(t.node, c);
    }
  }

  lemma RepresentsAt(g: Grid, t: Cells, c: Ivec)
    requires Represents(g, t) && InBox(g.widim, c)
    ensures g.Sized() && (if c in t.node then g.At(c) == t.node[c] else g.At(c) == null)
  {
    assert g.CellFits(t.node, c);
  }
}
