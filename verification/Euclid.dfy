/** Euclid's algorithm as `gcd` runs it (compat/getopt.c): the result is the greatest common
    divisor, and it is an integer combination of the arguments. */
module Euclid {

  /** d divides a. */
  ghost predicate Divides(d: int, a: int) {
    exists k :: Times(k, d) == a
  }

  function Times(k: int, d: int): int {
    k * d
  }

  /** The recursion that the loop of `gcd` unrolls. */
  function Gcd(a: nat, b: nat): (g: nat)
    requires b > 0
    ensures 0 < g <= b
    decreases b
  {
    if a % b == 0 then b else Gcd(b, a % b)
  }

  method ComputeGcd(a0: nat, b0: nat) returns (g: nat)
    requires b0 > 0
    ensures g == Gcd(a0, b0)
  {
    var a, b := a0, b0;
    var c := a % b;
    while c != 0
      invariant b > 0 && c == a % b
      invariant Gcd(a, b) == Gcd(a0, b0)
      decreases c
    {
      a := b;
      b := c;
      c := a % b;
    }
    g := b;
  }

  /** The greatest common divisor is an integer combination of its arguments. */
  lemma {:induction false} Bezout(a: nat, b: nat) returns (x: int, y: int)
    requires b > 0
    ensures x * a + y * b == Gcd(a, b)
    decreases b
  {
    if a % b == 0 {
      x, y := 0, 1;
    } else {
      var u, v := Bezout(b, a % b);
      x, y := v, u - v * (a / b);
      BezoutStep(a, b, a / b, a % b, u, v);
    }
  }

  lemma BezoutStep(a: int, b: int, q: int, r: int, u: int, v: int)
    requires a == b * q + r
    ensures v * a + (u - v * q) * b == u * b + v * r
  {
    assert v * (b * q + r) == v * (b * q) + v * r;
    assert (u - v * q) * b == u * b - (v * q) * b;
    assert (v * q) * b == v * (b * q);
  }

  /** The result divides both arguments; s and t are the quotients. */
  lemma {:induction false} GcdDivides(a: nat, b: nat) returns (s: nat, t: nat)
    requires b > 0
    ensures a == s * Gcd(a, b) && b == t * Gcd(a, b)
    decreases b
  {
    if a % b == 0 {
      s, t := a / b, 1;
    } else {
      var s', t' := GcdDivides(b, a % b);
      DividesStep(a, b, a / b, a % b, Gcd(a, b), s', t');
      s, t := s' * (a / b) + t', s';
    }
  }

  lemma DividesStep(a: nat, b: nat, q: nat, r: nat, g: nat, s: nat, t: nat)
    requires a == b * q + r && b == s * g && r == t * g
    ensures a == (s * q + t) * g && 0 <= s * q
  {
    assert (s * g) * q == (s * q) * g;
    assert (s * q + t) * g == (s * q) * g + t * g;
  }

  /** It is a common divisor, and every common divisor divides it. */
  lemma GcdIsGreatest(a: nat, b: nat)
    requires b > 0
    ensures Divides(Gcd(a, b), a) && Divides(Gcd(a, b), b)
    ensures forall d :: Divides(d, a) && Divides(d, b) ==> Divides(d, Gcd(a, b))
  {
    var g := Gcd(a, b);
    var s, t := GcdDivides(a, b);
    assert Times(s, g) == a && Times(t, g) == b;
    var x, y := Bezout(a, b);
    forall d | Divides(d, a) && Divides(d, b)
      ensures Divides(d, g)
    {
      var k :| Times(k, d) == a;
      var l :| Times(l, d) == b;
      CombineMultiples(d, k, l, x, y);
      assert Times(x * k + y * l, d) == g;
    }
  }

  lemma CombineMultiples(d: int, k: int, l: int, x: int, y: int)
    ensures (x * k + y * l) * d == x * (k * d) + y * (l * d)
  {
    assert (x * k) * d == x * (k * d);
    assert (y * l) * d == y * (l * d);
  }
}
