/** Exact factorials and binomial coefficients, the values the probability calculator works with. */
module Binomials {
  function Fact(n: nat): (r: nat)
    ensures r >= 1
  {
    if n == 0 then 1 else n * Fact(n - 1)
  }

  /** The number of ways to choose `k` of `n` cards, by Pascal's rule. */
  function Binom(n: nat, k: nat): nat
  {
    if k == 0 then 1 else if n == 0 then 0 else Binom(n - 1, k - 1) + Binom(n - 1, k)
  }

  /** Choosing more cards than there are is impossible. */
  lemma {:induction false} BinomAboveIsZero(n: nat, k: nat)
    requires k > n
    ensures Binom(n, k) == 0
    decreases n
  {
    if n > 0 {
      BinomAboveIsZero(n - 1, k - 1);
      BinomAboveIsZero(n - 1, k);
    }
  }

  /** The factorial formula: Binom(n, k) * k! * (n - k)! == n!. */
  lemma {:induction false} BinomFactorial(n: nat, k: nat)
    requires k <= n
    ensures Binom(n, k) * Fact(k) * Fact(n - k) == Fact(n)
    decreases n
  {
    if k == 0 {
    } else if k == n {
      BinomFactorial(n - 1, k - 1);
      BinomAboveIsZero(n - 1, k);
      assert Binom(n, k) == Binom(n - 1, k - 1);
    } else {
      var a, b := Binom(n - 1, k - 1), Binom(n - 1, k);
      var x, y, f := Fact(k - 1), Fact(n - 1 - k), Fact(n - 1);
      BinomFactorial(n - 1, k - 1);
      BinomFactorial(n - 1, k);
      assert Fact(n - k) == (n - k) * y;
      assert a * x * ((n - k) * y) == f;
      assert Fact(k) == k * x;
      PascalStep(a, b, k, n - k, x, y, f);
      assert Binom(n, k) == a + b;
    }
  }

  /** The arithmetic of one Pascal step, with x = (k-1)!, y = (n-1-k)!, f = (n-1)!. */
  lemma PascalStep(a: int, b: int, k: int, m: int, x: int, y: int, f: int)
    requires a * x * (m * y) == f && b * (k * x) * y == f
    ensures (a + b) * (k * x) * (m * y) == (k + m) * f
  {
    calc {
      (a + b) * (k * x) * (m * y);
      a * (k * x) * (m * y) + b * (k * x) * (m * y);
      { assert a * (k * x) * (m * y) == k * (a * x * (m * y)); }
      k * f + b * (k * x) * (m * y);
      { assert b * (k * x) * (m * y) == m * (b * (k * x) * y); }
      k * f + m * f;
    }
  }

  /** Every choice within range is possible in at least one way. */
  lemma BinomPositive(n: nat, k: nat)
    requires k <= n
    ensures Binom(n, k) >= 1
  {
    BinomFactorial(n, k);
  }

  /** n! / (k! * (n - k)!) evaluated over the reals, as the calculator does. */
  function FactorialRatio(f: real, x: real, y: real): real
    requires x * y != 0.0
  {
    f / (x * y)
  }

  /** Binom as the factorial ratio the calculator evaluates. */
  lemma BinomIsFactorialRatio(n: nat, k: nat)
    requires k <= n
    ensures FactorialRatio(Fact(n) as real, Fact(k) as real, Fact(n - k) as real) == Binom(n, k) as real
  {
    var b, x, y, f := Binom(n, k), Fact(k), Fact(n - k), Fact(n);
    BinomFactorial(n, k);
    RealRatio(b, x, y, f);
  }

  lemma RealRatio(b: nat, x: nat, y: nat, f: nat)
    requires b * x * y == f && x >= 1 && y >= 1
    ensures FactorialRatio(f as real, x as real, y as real) == b as real
  {
    assert (x * y) as real == (x as real) * (y as real);
    assert (b * (x * y)) as real == (b as real) * ((x * y) as real);
    assert f == b * (x * y);
  }

  /** Casting to real commutes with multiplication. */
  lemma RealOfProduct(a: int, b: int)
    ensures (a * b) as real == (a as real) * (b as real)
  {
  }
  /** Binom for every integer count: no way exists to choose a negative number of cards. */
  function Choose(n: nat, k: int): nat
  {
    if k < 0 then 0 else Binom(n, k)
  }

  /** Pascal's rule at every integer count. */
  lemma ChoosePascal(n: nat, k: int)
    ensures Choose(n + 1, k) == Choose(n, k - 1) + Choose(n, k)
  {
  }

  /** The ways to take `m` cards from `s + t` when the first `s` contribute `i` or more: Σ over k >= i of C(s, k) * C(t, m - k). */
  function Convolution(s: nat, t: nat, m: int, i: int): nat
    decreases if i <= s then s - i + 1 else 0
  {
    if i > s then 0 else Choose(s, i) * Choose(t, m - i) + Convolution(s, t, m, i + 1)
  }

  /** One more card on the left splits every term by Pascal's rule. */
  lemma {:induction false} ConvolutionStep(s: nat, t: nat, m: int, i: int)
    requires i <= s + 2
    ensures Convolution(s + 1, t, m, i) == Convolution(s, t, m, i) + Convolution(s, t, m - 1, i - 1)
    decreases s + 2 - i
  {
    if i <= s + 1 {
      ConvolutionStep(s, t, m, i + 1);
      var a, b, x := Choose(s, i - 1), Choose(s, i), Choose(t, m - i);
      var rest, shifted := Convolution(s, t, m, i + 1), Convolution(s, t, m - 1, i);
      var ax, bx := a * x, b * x;
      assert Convolution(s + 1, t, m, i) == ax + bx + Convolution(s + 1, t, m, i + 1) by {
        ChoosePascal(s, i);
        Distribute(a, b, x);
      }
      assert Convolution(s, t, m, i) == bx + rest by {
        if i == s + 1 {
          BinomAboveIsZero(s, i);
        }
      }
      assert Convolution(s, t, m - 1, i - 1) == ax + shifted;
    }
  }

  lemma Distribute(a: int, b: int, x: int)
    ensures (a + b) * x == a * x + b * x
  {
  }

  /** Vandermonde's identity: summing over how many cards come from the first `s`, C(s + t, m) == Σ_k C(s, k) * C(t, m - k). */
  lemma {:induction false} Vandermonde(s: nat, t: nat, m: int)
    ensures Convolution(s, t, m, 0) == Choose(s + t, m)
    decreases s
  {
    if s == 0 {
      assert Convolution(0, t, m, 1) == 0;
    } else {
      ConvolutionStep(s - 1, t, m, 0);
      Vandermonde(s - 1, t, m);
      Vandermonde(s - 1, t, m - 1);
      assert Convolution(s - 1, t, m - 1, -1) == Convolution(s - 1, t, m - 1, 0);
      ChoosePascal(s - 1 + t, m);
    }
  }
}
