/** The in-place exchange of two adjacent blocks of argv (compat/getopt.c, permute_args): every
    cycle of the exchange is followed once, with the slot it starts in as the spare place. */
module PermuteArgs {
  import opened Euclid
  import opened RotationCycles
  import opened Sequences

  /** s with its blocks [start, mid) and [mid, stop) exchanged. */
  function Exchange<T>(s: seq<T>, start: nat, mid: nat, stop: nat): (r: seq<T>)
    requires start <= mid <= stop <= |s|
    ensures |r| == |s|
  {
    s[..start] + s[mid..stop] + s[start..mid] + s[stop..]
  }

  /** What slot r holds once the cycles below i are done and cycle i has made j moves, the
      last of them into slot p. */
  ghost function Expected<T>(c: Cycles, o: seq<T>, i: nat, j: nat, p: nat, r: nat): T
    requires c.Valid() && |o| == c.first + c.second && p < |o| && r < |o|
  {
    if c.cycle[r] > i then o[r]
    else if c.cycle[r] < i then o[c.Source(r)]
    else if c.index[r] == 0 then (if j < c.length then o[p] else o[c.Source(r)])
    else if c.index[r] <= j then o[c.Source(r)]
    else o[r]
  }

  ghost predicate HoldsExpected<T>(c: Cycles, o: seq<T>, b: seq<T>, i: nat, j: nat, p: nat, r: nat)
    requires c.Valid() && |b| == |o| == c.first + c.second && p < |o| && r < |o|
  {
    b[r] == Expected(c, o, i, j, p, r)
  }

  /** The blocks held o; b is what they hold after j moves of cycle i. */
  ghost predicate Progress<T>(c: Cycles, o: seq<T>, b: seq<T>, i: nat, j: nat, p: nat) {
    && c.Valid() && i < c.count && j <= c.length
    && |b| == |o| == c.first + c.second && p < |o|
    && c.cycle[p] == i && c.index[p] == (if j < c.length then j else 0)
    && forall r | 0 <= r < |b| :: HoldsExpected(c, o, b, i, j, p, r)
  }

  ghost predicate HoldsFinal<T>(c: Cycles, o: seq<T>, b: seq<T>, i: nat, r: nat)
    requires c.Valid() && |b| == |o| == c.first + c.second && r < |o|
  {
    b[r] == if c.cycle[r] < i then o[c.Source(r)] else o[r]
  }

  /** All cycles below i are done. */
  ghost predicate CyclesDone<T>(c: Cycles, o: seq<T>, b: seq<T>, i: nat) {
    && c.Valid() && i <= c.count && |b| == |o| == c.first + c.second
    && forall r | 0 <= r < |b| :: HoldsFinal(c, o, b, i, r)
  }

  lemma NothingDone<T>(c: Cycles, o: seq<T>)
    requires c.Valid() && |o| == c.first + c.second
    ensures CyclesDone(c, o, o, 0)
  {
    forall r | 0 <= r < |o|
      ensures HoldsFinal(c, o, o, 0, r)
    {
    }
  }

  lemma StartCycle<T>(c: Cycles, o: seq<T>, b: seq<T>, i: nat, s: nat)
    requires CyclesDone(c, o, b, i) && i < c.count && s == c.first + i
    ensures Progress(c, o, b, i, 0, s)
  {
    assert c.StartFits(i) && c.SlotFits(s);
    var j: nat := 0;
    forall r | 0 <= r < |b|
      ensures HoldsExpected(c, o, b, i, j, s, r)
    {
      assert c.SlotFits(r) && HoldsFinal(c, o, b, i, r);
    }
  }

  lemma EndCycle<T>(c: Cycles, o: seq<T>, b: seq<T>, i: nat, j: nat, p: nat)
    requires Progress(c, o, b, i, j, p) && j == c.length
    ensures CyclesDone(c, o, b, i + 1)
  {
    var next := i + 1;
    forall r | 0 <= r < |b|
      ensures HoldsFinal(c, o, b, next, r)
    {
      assert c.SlotFits(r) && HoldsExpected(c, o, b, i, j, p, r);
    }
  }

  /** What one more move of cycle i changes: only slot d, the next one, and the spare slot. */
  lemma MoveSlot<T>(c: Cycles, o: seq<T>, i: nat, j: nat, p: nat, r: nat)
    requires c.Valid() && |o| == c.first + c.second && i < c.count && j < c.length && p < |o| && r < |o|
    requires c.cycle[p] == i && c.index[p] == j
    ensures var d, s := c.Dest(p), c.first + i;
            && Expected(c, o, i, j, p, s) == o[p]
            && (d != s ==> Expected(c, o, i, j, p, d) == o[d])
            && Expected(c, o, i, j + 1, d, r) ==
                 if r == s then (if d == s then o[p] else o[d])
                 else if r == d then o[p]
                 else Expected(c, o, i, j, p, r)
  {
    var d, s := c.Dest(p), c.first + i;
    assert c.Source(d) == p;
    assert c.SlotFits(p) && c.SlotFits(d) && c.SlotFits(r) && c.SlotFits(s) && c.StartFits(i);
  }

  /** One pass of the inner loop: the spare slot's occupant goes where it belongs. */
  lemma Move<T>(c: Cycles, o: seq<T>, b: seq<T>, i: nat, j: nat, p: nat, d: nat, s: nat)
    requires Progress(c, o, b, i, j, p) && j < c.length && d == c.Dest(p) && s == c.first + i
    ensures d < |b| && s < |b| && Progress(c, o, Swapped(b, d, s), i, j + 1, d)
  {
    var later, k := Swapped(b, d, s), j + 1;
    assert c.SlotFits(p) && c.SlotFits(d);
    forall r | 0 <= r < |later|
      ensures HoldsExpected(c, o, later, i, k, d, r)
    {
      MoveSlot(c, o, i, j, p, r);
      assert HoldsExpected(c, o, b, i, j, p, r);
      assert HoldsExpected(c, o, b, i, j, p, s) && HoldsExpected(c, o, b, i, j, p, d);
    }
  }

  /** When all cycles are done the blocks have been exchanged. */
  lemma Exchanged<T>(c: Cycles, o: seq<T>, b: seq<T>)
    requires CyclesDone(c, o, b, c.count)
    ensures b == o[c.first..] + o[..c.first]
  {
    forall r | 0 <= r < |b|
      ensures b[r] == o[c.Source(r)]
    {
      assert c.SlotFits(r) && HoldsFinal(c, o, b, c.count, r);
    }
  }

  /** was with its elements from `start` on replaced by b. */
  function Framed<T>(was: seq<T>, start: nat, b: seq<T>): (r: seq<T>)
    requires start + |b| <= |was|
    ensures |r| == |was|
  {
    was[..start] + b + was[start + |b|..]
  }

  lemma SwapFramed<T>(was: seq<T>, start: nat, b: seq<T>, d: nat, s: nat, x: nat, y: nat)
    requires start + |b| <= |was| && d < |b| && s < |b| && x == start + d && y == start + s
    ensures Swapped(Framed(was, start, b), x, y) == Framed(was, start, Swapped(b, d, s))
  {
  }

  lemma ExchangeFramed<T>(was: seq<T>, start: nat, mid: nat, stop: nat, b: seq<T>)
    requires start <= mid <= stop <= |was|
    requires var o := was[start..stop]; b == o[mid - start..] + o[..mid - start]
    ensures Framed(was, start, b) == Exchange(was, start, mid, stop)
  {
    assert was[start..stop][mid - start..] == was[mid..stop];
    assert was[start..stop][..mid - start] == was[start..mid];
  }

  /** The number and the size of the cycles of two blocks. */
  method CountCycles(nnonopts: nat, nopts: nat) returns (ncycle: nat, cyclelen: nat, ghost c: Cycles)
    requires nopts > 0
    ensures c.Valid() && c.first == nnonopts && c.second == nopts
    ensures ncycle == c.count && cyclelen == c.length
  {
    ncycle := ComputeGcd(nnonopts, nopts);
    cyclelen := (nnonopts + nopts) / ncycle;
    c := CyclesOf(nnonopts, nopts);
  }

  /** The inner loop of permute_args: follow cycle i once round. */
  method FollowCycle<T>(nonoptStart: nat, nonoptEnd: nat, optEnd: nat, cyclelen: nat, i: nat, argv: array<T>,
                        ghost c: Cycles, ghost was: seq<T>, ghost o: seq<T>, ghost b0: seq<T>)
      returns (ghost b: seq<T>)
    requires c.first == nonoptEnd - nonoptStart && c.second == optEnd - nonoptEnd && c.length == cyclelen
    requires optEnd <= argv.Length == |was| && |b0| == c.first + c.second
    requires i < c.count && CyclesDone(c, o, b0, i)
    requires argv[..] == Framed(was, nonoptStart, b0)
    modifies argv
    ensures |b| == |b0| && CyclesDone(c, o, b, i + 1)
    ensures argv[..] == Framed(was, nonoptStart, b)
  {
    var cstart := nonoptEnd + i;
    var pos := cstart;
    ghost var s, p := c.first + i, c.first + i;
    b := b0;
    StartCycle(c, o, b, i, s);
    var j := 0;
    while j < cyclelen
      invariant 0 <= j <= cyclelen && |b| == |b0|
      invariant 0 <= p && pos == nonoptStart + p < optEnd
      invariant argv[..] == Framed(was, nonoptStart, b)
      invariant Progress(c, o, b, i, j, p)
    {
      if pos >= nonoptEnd {
        pos := pos - (nonoptEnd - nonoptStart);
      } else {
        pos := pos + (optEnd - nonoptEnd);
      }
      ghost var d := c.Dest(p);
      Move(c, o, b, i, j, p, d, s);
      SwapFramed(was, nonoptStart, b, d, s, pos, cstart);
      var swap := argv[pos];
      argv[pos] := argv[cstart];
      argv[cstart] := swap;
      b, p := Swapped(b, d, s), d;
      j := j + 1;
    }
    EndCycle(c, o, b, i, j, p);
  }

  /** Exchange the blocks [nonoptStart, nonoptEnd) and [nonoptEnd, optEnd) of argv. */
  method Permute<T>(nonoptStart: nat, nonoptEnd: nat, optEnd: nat, argv: array<T>)
    requires nonoptStart <= nonoptEnd < optEnd <= argv.Length
    modifies argv
    ensures argv[..] == Exchange(old(argv[..]), nonoptStart, nonoptEnd, optEnd)
  {
    ghost var c;
    var ncycle, cyclelen;
    ncycle, cyclelen, c := CountCycles(nonoptEnd - nonoptStart, optEnd - nonoptEnd);
    ghost var was := argv[..];
    ghost var o := was[nonoptStart..optEnd];
    ghost var b := o;
    assert was == Framed(was, nonoptStart, o);
    NothingDone(c, o);
    var i := 0;
    while i < ncycle
      invariant 0 <= i <= ncycle == c.count && |b| == |o|
      invariant argv[..] == Framed(was, nonoptStart, b)
      invariant CyclesDone(c, o, b, i)
    {
      b := FollowCycle(nonoptStart, nonoptEnd, optEnd, cyclelen, i, argv, c, was, o, b);
      i := i + 1;
    }
    Exchanged(c, o, b);
    ExchangeFramed(was, nonoptStart, nonoptEnd, optEnd, b);
  }
}
