/** The number theory behind `permute_args` (compat/getopt.c).

    Exchanging adjacent blocks of lengths `first` and `second` moves the occupant of slot r to
    slot r + second, or r - first once that would leave the blocks. With g the greatest common
    divisor of the lengths, this permutation falls apart into g cycles, one for each residue
    class modulo g, and every cycle has (first + second) / g slots. A Cycles value is the
    certificate of that: it tells the cycle of each slot and the slot's position in it. */
module RotationCycles {
  import opened Division
  import opened Euclid

  datatype Cycles = Cycles(first: nat, second: nat, count: nat, length: nat,
                           cycle: seq<nat>, index: seq<nat>, slotAt: map<(nat, nat), nat>)
  {
    /** The slot that the occupant of slot r moves to. */
    function Dest(r: nat): nat
      requires r < first + second
    {
      if r >= first then r - first else r + second
    }

    /** The slot whose occupant ends up in slot r. */
    function Source(r: nat): nat
      requires r < first + second
    {
      if r < second then r + first else r - second
    }

    /** Moving on advances one position round the same cycle, and a slot can be told from
        its cycle and its position in it. */
    ghost predicate SlotFits(r: nat)
      requires |cycle| == |index| == first + second && r < first + second
    {
      && cycle[r] < count && index[r] < length
      && cycle[Dest(r)] == cycle[r]
      && index[Dest(r)] == (if index[r] + 1 == length then 0 else index[r] + 1)
      && (cycle[r], index[r]) in slotAt && slotAt[(cycle[r], index[r])] == r
    }

    /** Cycle i starts in slot i of the second block. */
    ghost predicate StartFits(i: nat)
      requires |cycle| == |index| == first + second && i < second
    {
      cycle[first + i] == i && index[first + i] == 0
    }

    ghost predicate Valid() {
      && 0 < count <= second && 0 < length
      && |cycle| == |index| == first + second
      && (forall r | 0 <= r < first + second :: SlotFits(r))
      && (forall i | 0 <= i < count :: StartFits(i))
    }
  }

  // ---- integer facts ----

  lemma ModPlusMultiple(a: int, k: int, l: int)
    requires l > 0
    ensures (a + k * l) % l == a % l
  {
    assert a + k * l == (a / l + k) * l + a % l by {
      assert (a / l + k) * l == (a / l) * l + k * l;
      assert a == (a / l) * l + a % l;
    }
    DivModUnique(a + k * l, l, a / l + k, a % l);
  }

  lemma ModPlusOne(a: int, l: int)
    requires l > 0
    ensures (a + 1) % l == if a % l + 1 == l then 0 else a % l + 1
  {
    var q := a / l;
    assert a == q * l + a % l;
    if a % l + 1 == l {
      assert (q + 1) * l == q * l + l;
      DivModUnique(a + 1, l, q + 1, 0);
    } else {
      DivModUnique(a + 1, l, q, a % l + 1);
    }
  }

  /** If x is an inverse of m modulo l, stepping by m counts up by one. */
  lemma InverseCounts(x: int, y: int, m: int, l: int, d: int, t: int)
    requires l > 0 && x * m + y * l == 1
    ensures (x * (d + m - t * l)) % l == (x * d + 1) % l
  {
    var k := 0 - y - x * t;
    assert x * (d + m - t * l) == (x * d + 1) + k * l by {
      assert x * (d + m - t * l) == x * d + x * m - x * (t * l);
      assert k * l == (0 - y) * l - (x * t) * l;
      assert (0 - y) * l == 0 - y * l;
      assert (x * t) * l == x * (t * l);
    }
    ModPlusMultiple(x * d + 1, k, l);
  }

  /** Multiplying by an invertible x loses nothing modulo l. */
  lemma InverseCancels(x: int, y: int, m: int, l: int, d: int, e: int)
    requires l > 0 && x * m + y * l == 1 && -l < d - e < l
    requires (x * d) % l == (x * e) % l
    ensures d == e
  {
    var s, t := (x * d) / l, (x * e) / l;
    assert x * d == s * l + (x * d) % l;
    assert x * e == t * l + (x * e) % l;
    assert x * (d - e) == (s - t) * l by {
      assert x * (d - e) == x * d - x * e;
      assert (s - t) * l == s * l - t * l;
    }
    BezoutCancel(x, y, m, l, d - e, s - t);
    MultipleIsFar((s - t) * m + y * (d - e), l);
  }

  lemma BezoutCancel(x: int, y: int, m: int, l: int, d: int, e: int)
    requires x * m + y * l == 1 && x * d == e * l
    ensures d == (e * m + y * d) * l
  {
    calc {
      d;
      (x * m + y * l) * d;
      (x * m) * d + (y * l) * d;
      { assert (x * m) * d == (x * d) * m; assert (y * l) * d == (y * d) * l; }
      (e * l) * m + (y * d) * l;
      { assert (e * l) * m == (e * m) * l; }
      (e * m) * l + (y * d) * l;
      (e * m + y * d) * l;
    }
  }

  // ---- slots as (quotient, residue) pairs ----

  lemma DivMod(r: nat, g: nat) returns (q: nat, i: nat)
    requires g > 0
    ensures q == r / g && i == r % g && r == q * g + i && i < g
  {
    q, i := r / g, r % g;
  }

  lemma QuotientBelow(g: nat, n: nat, q: nat, i: nat)
    requires i < g
    ensures q < n <==> q * g + i < n * g
  {
    assert (n - q) * g == n * g - q * g;
    MultipleIsFar(n - q, g);
    if q < n {
      assert (n - q) * g >= 0;
    } else {
      assert (q - n) * g >= 0;
    }
  }

  /** Moving quotient q of a block exchange. */
  function Step(u: nat, m: nat, q: nat): int {
    if q >= u then q - u else q + m
  }

  /** Moving a slot keeps its residue and steps its quotient. */
  lemma SlotStep(g: nat, u: nat, m: nat, r: nat, q: nat, i: nat)
    requires i < g && r == q * g + i && r < (u + m) * g
    ensures q < u + m
    ensures var d := if r >= u * g then r - u * g else r + m * g;
            d % g == i && d / g == Step(u, m, q)
  {
    QuotientBelow(g, u + m, q, i);
    QuotientBelow(g, u, q, i);
    if r >= u * g {
      assert (q - u) * g == q * g - u * g;
      DivModUnique(r - u * g, g, q - u, i);
    } else {
      assert (q + m) * g == q * g + m * g;
      DivModUnique(r + m * g, g, q + m, i);
    }
  }

  /** How many moves take quotient u, where every cycle starts, to quotient q. */
  function Index(x: int, u: nat, l: nat, q: int): nat
    requires l > 0
  {
    (x * (q - u)) % l
  }

  lemma IndexStep(x: int, y: int, u: nat, m: nat, q: nat)
    requires 0 < u + m && q < u + m && x * m + y * (u + m) == 1
    ensures var k := Index(x, u, u + m, q);
            Index(x, u, u + m, Step(u, m, q)) == if k + 1 == u + m then 0 else k + 1
  {
    var l, d := u + m, q - u;
    var t := if q >= u then 1 else 0;
    assert Step(u, m, q) - u == d + m - t * l;
    InverseCounts(x, y, m, l, d, t);
    ModPlusOne(x * d, l);
  }

  lemma QuotientsAgree(x: int, y: int, u: nat, m: nat, q: nat, p: nat)
    requires q < u + m && p < u + m && x * m + y * (u + m) == 1
    requires Index(x, u, u + m, q) == Index(x, u, u + m, p)
    ensures q == p
  {
    InverseCancels(x, y, m, u + m, q - u, p - u);
  }

  lemma UnitCombination(g: nat, u: nat, m: nat, x: int, y: int)
    requires g > 0 && x * (u * g) + y * (m * g) == g
    ensures (y - x) * m + x * (u + m) == 1
  {
    var k := x * u + y * m;
    assert x * (u * g) == (x * u) * g;
    assert y * (m * g) == (y * m) * g;
    assert (k - 1) * g == 0;
    MultipleIsFar(k - 1, g);
    assert (y - x) * m == y * m - x * m;
    assert x * (u + m) == x * u + x * m;
  }

  /** The certificate for blocks of u * g and m * g slots, x being an inverse of m. */
  ghost predicate IsTable(c: Cycles, x: int, g: nat, u: nat, m: nat) {
    && g > 0 && m > 0
    && c.first == u * g && c.second == m * g && c.count == g && c.length == u + m
    && |c.cycle| == |c.index| == c.first + c.second == (u + m) * g
    && (forall r | 0 <= r < |c.cycle| :: c.cycle[r] == r % g)
    && (forall r | 0 <= r < |c.index| :: c.index[r] == Index(x, u, u + m, r / g))
    && (forall r | 0 <= r < |c.cycle| ::
          (c.cycle[r], c.index[r]) in c.slotAt && c.slotAt[(c.cycle[r], c.index[r])] == r)
  }

  lemma MakeTable(x: int, y: int, g: nat, u: nat, m: nat) returns (c: Cycles)
    requires g > 0 && m > 0 && x * m + y * (u + m) == 1
    ensures IsTable(c, x, g, u, m)
  {
    var n := (u + m) * g;
    var cycle: seq<nat> := seq(n, r requires 0 <= r => r % g);
    var index := seq(n, r requires 0 <= r => Index(x, u, u + m, r / g));
    TableInjectiveForAll(x, y, g, u, m, cycle, index);
    TableSize(g, u, m);
    c := Cycles(u * g, m * g, g, u + m, cycle, index, map r | 0 <= r < n :: (cycle[r], index[r]) := r);
  }

  lemma TableInjectiveForAll(x: int, y: int, g: nat, u: nat, m: nat, cycle: seq<nat>, index: seq<nat>)
    requires g > 0 && m > 0 && x * m + y * (u + m) == 1
    requires |cycle| == |index| == (u + m) * g
    requires forall r | 0 <= r < |cycle| :: cycle[r] == r % g && index[r] == Index(x, u, u + m, r / g)
    ensures forall r, s | 0 <= r < |cycle| && 0 <= s < |cycle| ::
              cycle[r] == cycle[s] && index[r] == index[s] ==> r == s
  {
    forall r, s | 0 <= r < |cycle| && 0 <= s < |cycle| && cycle[r] == cycle[s] && index[r] == index[s]
      ensures r == s
    {
      TableInjective(x, y, g, u, m, r, s);
    }
  }

  lemma TableStep(x: int, y: int, g: nat, u: nat, m: nat, r: nat, d: nat)
    requires g > 0 && m > 0 && x * m + y * (u + m) == 1 && r < (u + m) * g
    requires d == if r >= u * g then r - u * g else r + m * g
    ensures d % g == r % g
    ensures var k := Index(x, u, u + m, r / g);
            Index(x, u, u + m, d / g) == if k + 1 == u + m then 0 else k + 1
  {
    var q, i := DivMod(r, g);
    SlotStep(g, u, m, r, q, i);
    IndexStep(x, y, u, m, q);
  }

  lemma TableInjective(x: int, y: int, g: nat, u: nat, m: nat, r: nat, s: nat)
    requires g > 0 && m > 0 && x * m + y * (u + m) == 1 && r < (u + m) * g && s < (u + m) * g
    requires r % g == s % g && Index(x, u, u + m, r / g) == Index(x, u, u + m, s / g)
    ensures r == s
  {
    var q, i := DivMod(r, g);
    var p, j := DivMod(s, g);
    QuotientBelow(g, u + m, q, i);
    QuotientBelow(g, u + m, p, j);
    QuotientsAgree(x, y, u, m, q, p);
  }

  lemma TableStart(x: int, g: nat, u: nat, l: nat, r: nat)
    requires l > 0 && g > 0 && u * g <= r < u * g + g
    ensures r % g == r - u * g && Index(x, u, l, r / g) == 0
  {
    DivModUnique(r, g, u, r - u * g);
    assert x * 0 == 0;
  }

  lemma TableSize(g: nat, u: nat, m: nat)
    requires m > 0
    ensures (u + m) * g == u * g + m * g && g <= m * g
  {
    assert (m - 1) * g >= 0;
  }

  lemma TableSlot(c: Cycles, x: int, y: int, g: nat, u: nat, m: nat, r: nat)
    requires IsTable(c, x, g, u, m) && x * m + y * (u + m) == 1 && r < c.first + c.second
    ensures c.SlotFits(r)
  {
    TableStep(x, y, g, u, m, r, c.Dest(r));
  }

  lemma TableValid(c: Cycles, x: int, y: int, g: nat, u: nat, m: nat)
    requires IsTable(c, x, g, u, m) && x * m + y * (u + m) == 1
    ensures c.Valid()
  {
    TableSize(g, u, m);
    forall r | 0 <= r < c.first + c.second
      ensures c.SlotFits(r)
    {
      TableSlot(c, x, y, g, u, m, r);
    }
    forall i | 0 <= i < g
      ensures c.StartFits(i)
    {
      TableStart(x, g, u, u + m, u * g + i);
    }
  }

  /** Every pair of block lengths has its cycles: as many as the greatest common divisor,
      all equally long. */
  lemma CyclesOf(first: nat, second: nat) returns (c: Cycles)
    requires second > 0
    ensures c.Valid() && c.first == first && c.second == second
    ensures c.count == Gcd(first, second) && c.length == (first + second) / c.count
  {
    var g := Gcd(first, second);
    var u, m := GcdDivides(first, second);
    var x, y := Bezout(first, second);
    UnitCombination(g, u, m, x, y);
    c := MakeTable(y - x, x, g, u, m);
    TableValid(c, y - x, x, g, u, m);
    assert (u + m) * g == u * g + m * g;
    DivModUnique(first + second, g, u + m, 0);
  }
}
