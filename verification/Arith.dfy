/** Quotients and remainders by a divisor that is not a constant. */
module Arith {
  lemma {:induction false} MulGap(a: nat, b: nat, c: nat)
    requires a < b
    ensures a * c + c <= b * c
  {
    assert (b - a - 1) * c >= 0;
    assert b * c == a * c + c + (b - a - 1) * c;
  }

  lemma {:induction false} DivBounds(x: nat, c: nat, q: nat)
    requires c > 0 && q == x / c
    ensures q * c <= x < q * c + c
  {
    assert x == q * c + x % c;
  }

  lemma {:induction false} DivUnique(x: nat, c: nat, q: nat, r: nat)
    requires c > 0 && x == q * c + r && r < c
    ensures x / c == q && x % c == r
  {
    var q' := x / c;
    DivBounds(x, c, q');
    if q' < q { MulGap(q', q, c); }
    if q < q' { MulGap(q, q', c); }
    assert x == q' * c + x % c;
  }

  /** A remainder grows with the number until it reaches the divisor. */
  lemma {:induction false} ModAdd(x: nat, y: nat, c: nat)
    requires c > 0 && x % c + y <= c
    ensures (x + y) % c == if x % c + y == c then 0 else x % c + y
  {
    var q, r := x / c, x % c;
    assert x == q * c + r;
    if r + y == c {
      assert (q + 1) * c == q * c + c;
      DivUnique(x + y, c, q + 1, 0);
    } else {
      DivUnique(x + y, c, q, r + y);
    }
  }
}
