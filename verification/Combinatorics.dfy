/** tinyexpr.c, fac and ncr: exact or reported as infinite. Arguments are reals; results are the
    integers before their conversion to a double. */
module Combinatorics {
  import opened Arith

  const UINT_MAX: nat := 0xFFFF_FFFF
  const ULONG_MAX: nat := 0xFFFF_FFFF_FFFF_FFFF

  datatype Number = NotANumber | Infinite | Exactly(value: nat)

  // ---------- factorials ----------

  function Factorial(n: nat): (r: nat)
    ensures r >= 1
  {
    if n == 0 then 1 else n * Factorial(n - 1)
  }

  lemma {:induction false} FactorialMono(m: nat, n: nat)
    requires m <= n
    ensures Factorial(m) <= Factorial(n)
  {
    if m < n {
      FactorialMono(m, n - 1);
      assert n * Factorial(n - 1) >= 1 * Factorial(n - 1);
    }
  }

  /** The guard of the loops: `x` exceeds the quotient exactly if the product does not fit. */
  lemma {:induction false} GuardIff(x: nat, result: nat, max: nat)
    requires result > 0
    ensures x > max / result <==> x * result > max
  {
    var q := max / result;
    assert max == q * result + max % result;
    if x <= q {
      assert x * result <= q * result;
    } else {
      assert x * result >= (q + 1) * result;
    }
  }

  /** fac: NAN below zero, INFINITY exactly if the factorial does not fit an unsigned long. */
  method Fac(a: real) returns (r: Number)
    ensures r.NotANumber? <==> a < 0.0
    ensures a > UINT_MAX as real ==> r == Infinite
    ensures 0.0 <= a <= UINT_MAX as real ==>
              r == if Factorial(a.Floor) > ULONG_MAX then Infinite else Exactly(Factorial(a.Floor))
  {
    if a < 0.0 {
      return NotANumber;
    }
    if a > UINT_MAX as real {
      return Infinite;
    }
    var ua: nat := a.Floor;
    var result, i := 1, 1;
    while i <= ua
      invariant 1 <= i <= ua + 1 && 1 <= result == Factorial(i - 1) <= ULONG_MAX
    {
      GuardIff(i, result, ULONG_MAX);
      if i > ULONG_MAX / result {
        FactorialMono(i, ua);
        return Infinite;
      }
      result := result * i;
      i := i + 1;
    }
    r := Exactly(result);
  }

  // ---------- binomial coefficients ----------

  /** Pascal's triangle. */
  function Choose(n: nat, k: nat): nat {
    if k == 0 then 1 else if n == 0 then 0 else Choose(n - 1, k - 1) + Choose(n - 1, k)
  }

  lemma {:induction false} ChooseBeyond(n: nat, k: nat)
    requires k > n
    ensures Choose(n, k) == 0
  {
    if n > 0 {
      ChooseBeyond(n - 1, k - 1);
      ChooseBeyond(n - 1, k);
    }
  }

  lemma {:induction false} ChooseAll(n: nat)
    ensures Choose(n, n) == 1
  {
    if n > 0 {
      ChooseAll(n - 1);
      ChooseBeyond(n - 1, n);
    }
  }

  lemma {:induction false} ChoosePositive(n: nat, k: nat)
    requires k <= n
    ensures Choose(n, k) > 0
  {
    if k > 0 {
      ChoosePositive(n - 1, k - 1);
    }
  }

  /** Choosing what to take is choosing what to leave. */
  lemma {:induction false} ChooseSymmetric(n: nat, k: nat)
    requires k <= n
    ensures Choose(n, k) == Choose(n, n - k)
  {
    if k == 0 || k == n {
      ChooseAll(n);
    } else {
      ChooseSymmetric(n - 1, k - 1);
      ChooseSymmetric(n - 1, k);
    }
  }

  /** The quotient taken in every turn of the loop is exact. */
  lemma {:induction false} Absorb(n: nat, k: nat)
    requires 1 <= k && 1 <= n
    ensures k * Choose(n, k) == n * Choose(n - 1, k - 1)
  {
    if k == 1 {
      ChooseOne(n, k);
    } else if n == 1 {
      ChooseBeyond(n, k);
      ChooseBeyond(n - 1, k - 1);
    } else {
      Absorb(n - 1, k - 1);
      Absorb(n - 1, k);
      var a, b := Choose(n - 1, k - 1), Choose(n - 1, k);
      var c, d := Choose(n - 2, k - 2), Choose(n - 2, k - 1);
      assert a == c + d && Choose(n, k) == a + b;
      hide Choose;
      AbsorbStep(n, k, a, b, c, d);
    }
  }

  lemma {:induction false} AbsorbStep(n: nat, k: nat, a: nat, b: nat, c: nat, d: nat)
    requires n >= 1 && k >= 1 && a == c + d && (k - 1) * a == (n - 1) * c && k * b == (n - 1) * d
    ensures k * (a + b) == n * a
  {
    assert k * (a + b) == a + (k - 1) * a + k * b;
    assert (n - 1) * c + (n - 1) * d == (n - 1) * (c + d);
    assert a + (n - 1) * a == n * a;
  }

  lemma {:induction false} ChooseOne(n: nat, k: nat)
    requires k == 1 && n >= 1
    ensures Choose(n, k) == n
  {
    if n > 1 {
      ChooseOne(n - 1, k);
    }
  }

  /** The largest product formed in turn `i`, `m` being what is left out. */
  function Product(m: nat, i: nat): nat {
    i * Choose(m + i, i)
  }

  lemma {:induction false} ProductMono(m: nat, i: nat, j: nat)
    requires 1 <= i <= j
    ensures Product(m, i) <= Product(m, j)
  {
    if i < j {
      ProductMono(m, i, j - 1);
      Absorb(m + j, j);
      var c := Choose(m + j - 1, j - 1);
      hide Choose;
      MulMono(j - 1, m + j, c);
    }
  }

  lemma {:induction false} MulMono(a: nat, b: nat, c: nat)
    requires a <= b
    ensures a * c <= b * c
  {
    if a < b { MulGap(a, b, c); }
  }

  lemma {:induction false} DivideExact(x: nat, i: nat)
    requires i > 0
    ensures (i * x) / i == x
  {
    DivUnique(i * x, i, x, 0);
  }

  function Smaller(n: nat, r: nat): nat
    requires r <= n
  {
    if r > n / 2 then n - r else r
  }

  /** The loop of ncr for whole numbers: the coefficient, or INFINITY exactly if the last product is too big. */
  method Binomial(un: nat, r: nat) returns (result: Number)
    requires r <= un
    ensures result == if Smaller(un, r) * Choose(un, r) > ULONG_MAX then Infinite else Exactly(Choose(un, r))
  {
    var ur := Smaller(un, r);
    ghost var m := un - ur;
    SmallerSame(un, r);
    var value, i := 1, 1;
    while i <= ur
      invariant 1 <= i <= ur + 1 && value == Choose(m + i - 1, i - 1) && value > 0
      invariant i > 1 ==> Product(m, i - 1) <= ULONG_MAX
    {
      var f := un - ur + i;
      GuardIff(f, value, ULONG_MAX);
      GuardIff(value, f, ULONG_MAX);
      Absorb(m + i, i);
      assert value * f == f * value == Product(m, i);
      if value > ULONG_MAX / f {
        ProductMono(m, i, ur);
        return Infinite;
      }
      assert value * f <= ULONG_MAX;
      value := value * f;
      DivideExact(Choose(m + i, i), i);
      value := value / i;
      ChoosePositive(m + i, i);
      i := i + 1;
    }
    result := Exactly(value);
  }

  lemma {:induction false} SmallerSame(n: nat, r: nat)
    requires r <= n
    ensures Smaller(n, r) <= n && Choose(n, Smaller(n, r)) == Choose(n, r)
  {
    ChooseSymmetric(n, r);
  }

  /** ncr: NAN outside the triangle, otherwise the binomial coefficient of the truncated arguments
      or INFINITY, the latter exactly if `min(r, n - r)` times the coefficient does not fit. */
  method Ncr(n: real, r: real) returns (result: Number)
    ensures result.NotANumber? <==> n < 0.0 || r < 0.0 || n < r
    ensures 0.0 <= r <= n && n > UINT_MAX as real ==> result == Infinite
    ensures 0.0 <= r <= n <= UINT_MAX as real ==>
              0 <= r.Floor <= n.Floor
              && result == if Smaller(n.Floor, r.Floor) * Choose(n.Floor, r.Floor) > ULONG_MAX then Infinite
                           else Exactly(Choose(n.Floor, r.Floor))
  {
    if n < 0.0 || r < 0.0 || n < r {
      return NotANumber;
    }
    if n > UINT_MAX as real || r > UINT_MAX as real {
      return Infinite;
    }
    result := Binomial(n.Floor, r.Floor);
  }

  /** INFINITY is also reported for coefficients that would fit: three out of four million. */
  lemma {:induction false} InfiniteThoughItFits(n: nat, k: nat)
    requires n == 4_000_000 && k == 3
    ensures Choose(n, k) <= ULONG_MAX < Smaller(n, k) * Choose(n, k)
  {
    hide Choose;
    Absorb(n, k);
    Absorb(n - 1, k - 1);
    ChooseOne(n - 2, k - 2);
  }
}
