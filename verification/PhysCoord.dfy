/** The physical coordinates of a node, computed from its place in the array of all nodes, and
    back (node.c, node_physpos and node_for_pc). */
module PhysCoord {
  import opened Torus
  import opened Wrappers

  /** How many racks a part has, and so on down to the nodes of a blade. */
  datatype Machine = Machine(nparts: nat, nracks: nat, nirus: nat, nblades: nat, nnodes: nat) {
    ghost predicate Valid() {
      nparts > 0 && nracks > 0 && nirus > 0 && nblades > 0 && nnodes > 0
    }

    function Size(): nat {
      nparts * (nracks * (nirus * (nblades * nnodes)))
    }
  }

  datatype Coord = Coord(part: nat, rack: nat, iru: nat, blade: nat, node: nat)

  predicate Inside(m: Machine, pc: Coord) {
    pc.part < m.nparts && pc.rack < m.nracks && pc.iru < m.nirus && pc.blade < m.nblades && pc.node < m.nnodes
  }

  /** node_for_pc: the place of a node in the array, or none if the machine has no such node. */
  function NodeForPc(m: Machine, pc: Coord): Option<nat> {
    if !Inside(m, pc) then None
    else Some(pc.part * (m.nnodes * m.nblades * m.nirus * m.nracks) + pc.rack * (m.nnodes * m.nblades * m.nirus)
              + pc.iru * (m.nnodes * m.nblades) + pc.blade * m.nnodes + pc.node)
  }

  /** The place, one coordinate at a time. */
  function Place(m: Machine, pc: Coord): nat {
    (((pc.part * m.nracks + pc.rack) * m.nirus + pc.iru) * m.nblades + pc.blade) * m.nnodes + pc.node
  }

  lemma Regroup2(a: int, r: int, b: int, n: int)
    ensures (a * r + b) * n == a * (n * r) + b * n
  {
    assert a * r * n == a * (n * r);
  }

  lemma PlaceIsNodeForPc(m: Machine, pc: Coord)
    requires Inside(m, pc)
    ensures NodeForPc(m, pc) == Some(Place(m, pc))
  {
    var n, nb, nbi := m.nnodes, m.nnodes * m.nblades, m.nnodes * m.nblades * m.nirus;
    var a := pc.part * m.nracks + pc.rack;
    var b := a * m.nirus + pc.iru;
    Regroup2(pc.part, m.nracks, pc.rack, nbi);
    Regroup2(a, m.nirus, pc.iru, nb);
    Regroup2(b, m.nblades, pc.blade, n);
  }

  /** Different coordinates are different nodes. */
  lemma NodeForPcInjective(m: Machine, pc: Coord, qc: Coord)
    requires Inside(m, pc) && NodeForPc(m, pc) == NodeForPc(m, qc)
    ensures pc == qc
  {
    PlaceIsNodeForPc(m, pc);
    PlaceIsNodeForPc(m, qc);
    var a, c := pc.part * m.nracks + pc.rack, qc.part * m.nracks + qc.rack;
    var b, d := a * m.nirus + pc.iru, c * m.nirus + qc.iru;
    SameDigits(b * m.nblades + pc.blade, pc.node, d * m.nblades + qc.blade, qc.node, m.nnodes);
    SameDigits(b, pc.blade, d, qc.blade, m.nblades);
    SameDigits(a, pc.iru, c, qc.iru, m.nirus);
    SameDigits(pc.part, pc.rack, qc.part, qc.rack, m.nracks);
  }

  /** By part, then by rack, iru, blade and node. */
  predicate Precedes(pc: Coord, qc: Coord) {
    || pc.part < qc.part
    || (pc.part == qc.part
        && (|| pc.rack < qc.rack
            || (pc.rack == qc.rack
                && (|| pc.iru < qc.iru
                    || (pc.iru == qc.iru && (pc.blade < qc.blade || (pc.blade == qc.blade && pc.node < qc.node)))))))
  }

  lemma DigitsPrecede(high: int, low: int, high': int, low': int, base: int)
    requires 0 <= low < base && 0 <= low' < base
    ensures high * base + low < high' * base + low' <==> high < high' || (high == high' && low < low')
  {
    if high < high' {
      WholeDigit(high, high', base);
    } else if high > high' {
      WholeDigit(high', high, base);
    }
  }

  lemma WholeDigit(high: int, high': int, base: int)
    requires high < high' && base > 0
    ensures high * base + base <= high' * base
  {
    var more := high' - high;
    assert high' * base == high * base + more * base;
    MultipleAtLeast(more, base);
  }

  lemma MultipleAtLeast(n: int, base: int)
    requires n >= 1 && base > 0
    ensures n * base >= base
  {
  }

  /** Nodes are in the array in the order of their coordinates. */
  lemma NodeForPcOrdered(m: Machine, pc: Coord, qc: Coord)
    requires Inside(m, pc) && Inside(m, qc)
    ensures NodeForPc(m, pc).Some? && NodeForPc(m, qc).Some?
    ensures NodeForPc(m, pc).value < NodeForPc(m, qc).value <==> Precedes(pc, qc)
  {
    PlaceIsNodeForPc(m, pc);
    PlaceIsNodeForPc(m, qc);
    var a, c := pc.part * m.nracks + pc.rack, qc.part * m.nracks + qc.rack;
    var b, d := a * m.nirus + pc.iru, c * m.nirus + qc.iru;
    var e, f := b * m.nblades + pc.blade, d * m.nblades + qc.blade;
    DigitsPrecede(pc.part, pc.rack, qc.part, qc.rack, m.nracks);
    DigitsPrecede(a, pc.iru, c, qc.iru, m.nirus);
    DigitsPrecede(b, pc.blade, d, qc.blade, m.nblades);
    DigitsPrecede(e, pc.node, f, qc.node, m.nnodes);
    SameRanks(m, pc, qc);
  }

  /** Equal so far means equal coordinates so far. */
  lemma SameRanks(m: Machine, pc: Coord, qc: Coord)
    requires Inside(m, pc) && Inside(m, qc)
    ensures var a, c := pc.part * m.nracks + pc.rack, qc.part * m.nracks + qc.rack;
            var b, d := a * m.nirus + pc.iru, c * m.nirus + qc.iru;
            && (a == c <==> pc.part == qc.part && pc.rack == qc.rack)
            && (b == d <==> a == c && pc.iru == qc.iru)
            && (b * m.nblades + pc.blade == d * m.nblades + qc.blade <==> b == d && pc.blade == qc.blade)
  {
    var a, c := pc.part * m.nracks + pc.rack, qc.part * m.nracks + qc.rack;
    var b, d := a * m.nirus + pc.iru, c * m.nirus + qc.iru;
    DigitsPrecede(pc.part, pc.rack, qc.part, qc.rack, m.nracks);
    DigitsPrecede(qc.part, qc.rack, pc.part, pc.rack, m.nracks);
    DigitsPrecede(a, pc.iru, c, qc.iru, m.nirus);
    DigitsPrecede(c, qc.iru, a, pc.iru, m.nirus);
    DigitsPrecede(b, pc.blade, d, qc.blade, m.nblades);
    DigitsPrecede(d, qc.blade, b, pc.blade, m.nblades);
  }

  /** The steps of node_physpos: a quotient is below the count that is left, and quotient and
      remainder make up the number again. */
  lemma Split(pos: nat, count: nat, unit: nat)
    requires unit > 0 && pos < count * unit
    ensures pos / unit < count && pos % unit < unit && pos == pos / unit * unit + pos % unit
  {
    if pos / unit >= count {
      Larger(pos / unit, count, unit);
    }
  }

  lemma Larger(q: nat, count: nat, unit: nat)
    requires q >= count
    ensures q * unit >= count * unit
  {
  }

  lemma Positive(a: nat, b: nat)
    requires a > 0 && b > 0
    ensures a * b > 0
  {
  }

  lemma Products(m: Machine)
    ensures m.nracks * m.nirus * m.nblades * m.nnodes == m.nracks * (m.nirus * (m.nblades * m.nnodes))
    ensures m.nirus * m.nblades * m.nnodes == m.nirus * (m.nblades * m.nnodes)
    ensures m.nnodes * m.nblades == m.nblades * m.nnodes
    ensures m.nnodes * m.nblades * m.nirus == m.nirus * (m.nblades * m.nnodes)
    ensures m.nnodes * m.nblades * m.nirus * m.nracks == m.nracks * (m.nirus * (m.nblades * m.nnodes))
  {
    var x, y := m.nblades * m.nnodes, m.nirus * (m.nblades * m.nnodes);
    assert m.nirus * m.nblades * m.nnodes == y;
    assert m.nracks * m.nirus * x == m.nracks * y;
    assert m.nracks * m.nirus * m.nblades * m.nnodes == m.nracks * m.nirus * x;
  }

  method SplitOff(pos: nat, unit: nat, ghost count: nat) returns (digit: nat, rest: nat)
    requires unit > 0 && pos < count * unit
    ensures digit < count && rest < unit && pos == digit * unit + rest
  {
    Split(pos, count, unit);
    digit, rest := pos / unit, pos % unit;
  }

  /** The divisions of node_physpos, for parts, racks, irus and blades of the given sizes. */
  method Divide(at: nat, sizes: (nat, nat, nat, nat), ghost m: Machine) returns (pc: Coord)
    requires sizes.0 == m.nracks * sizes.1 && sizes.1 == m.nirus * sizes.2
    requires sizes.2 == m.nblades * sizes.3 && sizes.3 == m.nnodes
    requires sizes.0 > 0 && sizes.1 > 0 && sizes.2 > 0 && sizes.3 > 0 && at < m.nparts * sizes.0
    ensures Inside(m, pc)
    ensures at == pc.part * sizes.0 + pc.rack * sizes.1 + pc.iru * sizes.2 + pc.blade * sizes.3 + pc.node
  {
    var part, rack, iru, blade, pos;
    part, pos := SplitOff(at, sizes.0, m.nparts);
    rack, pos := SplitOff(pos, sizes.1, m.nracks);
    iru, pos := SplitOff(pos, sizes.2, m.nirus);
    blade, pos := SplitOff(pos, sizes.3, m.nblades);
    pc := Coord(part, rack, iru, blade, pos);
  }

  /** The coordinates of the node at a place in the array are the ones that lead back there. */
  method PhysPos(m: Machine, at: nat) returns (pc: Coord)
    requires m.Valid() && at < m.Size()
    ensures NodeForPc(m, pc) == Some(at)
  {
    Products(m);
    Positive(m.nblades, m.nnodes);
    Positive(m.nirus, m.nblades * m.nnodes);
    Positive(m.nracks, m.nirus * (m.nblades * m.nnodes));
    pc := Divide(at, (m.nracks * m.nirus * m.nblades * m.nnodes, m.nirus * m.nblades * m.nnodes,
                      m.nblades * m.nnodes, m.nnodes), m);
  }
}
