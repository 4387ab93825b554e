/** Division with remainder. */
module Division {

  lemma MultipleIsFar(k: int, l: int)
    requires l > 0
    ensures k == 0 || k * l >= l || k * l <= -l
  {
    if k >= 1 {
      assert (k - 1) * l >= 0;
    } else if k <= -1 {
      assert (-1 - k) * l >= 0;
    }
  }

  /** Division with remainder is unique. */
  lemma DivModUnique(a: int, l: int, q: int, r: int)
    requires l > 0 && a == q * l + r && 0 <= r < l
    ensures a / l == q && a % l == r
  {
    var d := a / l - q;
    assert a == l * (a / l) + a % l;
    assert d * l == l * (a / l) - q * l;
    MultipleIsFar(d, l);
  }
}
