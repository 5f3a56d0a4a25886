/** Facts about multiplication, division and remainder on naturals that
    the solver does not find on its own; used by both models. */
module Arithmetic {

  lemma DivMod(x: nat, c: nat)
    requires c > 0
    ensures x == (x / c) * c + x % c && 0 <= x % c < c
  {
  }

  lemma MulMonotone(a: nat, b: nat, c: nat)
    requires a <= b
    ensures a * c <= b * c
  {
    assert b * c == a * c + (b - a) * c;
  }

  /** Division and remainder are determined by any quotient-remainder split. */
  lemma ModUnique(x: nat, q: nat, r: nat, c: nat)
    requires c > 0 && r < c && x == q * c + r
    ensures x / c == q && x % c == r
  {
    var q' := x / c;
    DivMod(x, c);
    if q' > q {
      MulMonotone(q + 1, q', c);
      assert false;
    } else if q' < q {
      MulMonotone(q' + 1, q, c);
      assert false;
    }
  }
}
