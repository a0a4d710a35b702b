/** Work-group sizing (`max_factor` in host.cpp).

    `max_factor(n, top)` strips prime factors from `n` smallest-first and keeps
    the largest quotient met on the way that does not exceed `top`, starting
    from a default of 2. The quotients it meets form the chain
    `n, n/p1, n/(p1*p2), ...` down to the largest prime factor of `n`. */
module WorkPartition {

  /** The value the search starts from and falls back to. */
  const DefaultGroupSize := 2

  /** The smallest `p >= d` that divides `n`, given that `n` has no divisor
      in `[2, d)` other than itself. */
  function SmallestFactorFrom(n: int, d: int): (p: int)
    requires 2 <= d <= n
    ensures d <= p <= n && n % p == 0
    ensures forall k :: d <= k < p ==> n % k != 0
    decreases n - d
  {
    if n % d == 0 then d else SmallestFactorFrom(n, d + 1)
  }

  /** The smallest prime factor of `n`. */
  function SmallestFactor(n: int): (p: int)
    requires n >= 2
    ensures 2 <= p <= n && n % p == 0
    ensures forall k :: 2 <= k < p ==> n % k != 0
  {
    SmallestFactorFrom(n, 2)
  }

  lemma MulAtLeast(k: int, a: int)
    requires k >= 1 && a > 0
    ensures k * a >= a
  {
  }

  /** Euclidean division is unique: `t` and `r` are the quotient and
      remainder of `x` by `a` whenever `x == t * a + r` and `0 <= r < a`. */
  lemma DivModUnique(x: int, a: int, t: int, r: int)
    requires a > 0 && 0 <= r < a && x == t * a + r
    ensures x % a == r && x / a == t
  {
    var t' := x / a;
    var r' := x % a;
    assert x == t' * a + r';
    assert (t - t') * a == r' - r;
    if t - t' >= 1 {
      MulAtLeast(t - t', a);
    } else if t' - t >= 1 {
      MulAtLeast(t' - t, a);
    }
  }

  lemma ModOfMultiple(q: int, a: int)
    requires a > 0
    ensures (q * a) % a == 0 && (q * a) / a == q
  {
    DivModUnique(q * a, a, q, 0);
  }

  /** Divisibility is transitive. */
  lemma DividesTransitive(a: int, b: int, c: int)
    requires a > 0 && b > 0
    requires b % a == 0 && c % b == 0
    ensures c % a == 0
  {
    var k := b / a;
    var m := c / b;
    assert b == k * a;
    assert c == m * b;
    assert c == (m * k) * a;
    ModOfMultiple(m * k, a);
  }

  /** Dividing by at least 2 a value it does not exceed leaves a smaller
      positive quotient. */
  lemma QuotientSmaller(n: int, p: int)
    requires 2 <= p <= n
    ensures 1 <= n / p < n
  {
    var q := n / p;
    var r := n % p;
    assert n == q * p + r && 0 <= r < p;
    if q >= n {
      MulAtLeast(q, p);
    }
  }

  /** A quotient by an exact divisor divides the dividend. */
  lemma QuotientDivides(n: int, p: int)
    requires n > 0 && p > 0 && n % p == 0
    ensures n / p > 0 && n % (n / p) == 0
  {
    var q := n / p;
    assert n == q * p + n % p;
    assert n == q * p;
    assert n == p * q;
    ModOfMultiple(p, q);
  }

  /** The quotients `max_factor` compares against `top`: `n`, then `n`
      divided by its smallest prime factor, and so on while the quotient
      exceeds 1. Every entry is at least 2, divides `n`, and the chain
      strictly decreases from `n`. */
  function QuotientChain(n: int): (chain: seq<int>)
    ensures n <= 1 <==> |chain| == 0
    ensures n > 1 ==> chain[0] == n
    ensures forall i :: 0 <= i < |chain| ==> 2 <= chain[i] <= n && n % chain[i] == 0
    ensures forall i, j :: 0 <= i < j < |chain| ==> chain[i] > chain[j]
    decreases n
  {
    if n <= 1 then []
    else
      var q := n / SmallestFactor(n);
      QuotientSmaller(n, SmallestFactor(n));
      QuotientDivides(n, SmallestFactor(n));
      var rest := QuotientChain(q);
      ExtendChain(n, q, rest);
      [n] + rest
  }

  /** Putting `n` in front of the chain of its proper divisor `q` gives a
      chain of divisors of `n` that still strictly decreases. */
  lemma ExtendChain(n: int, q: int, rest: seq<int>)
    requires 1 <= q < n && n % q == 0
    requires forall i :: 0 <= i < |rest| ==> 2 <= rest[i] <= q && q % rest[i] == 0
    requires forall i, j :: 0 <= i < j < |rest| ==> rest[i] > rest[j]
    ensures forall i :: 0 <= i < |[n] + rest| ==> 2 <= ([n] + rest)[i] <= n && n % ([n] + rest)[i] == 0
    ensures forall i, j :: 0 <= i < j < |[n] + rest| ==> ([n] + rest)[i] > ([n] + rest)[j]
  {
    var c := [n] + rest;
    forall i | 0 <= i < |c|
      ensures 2 <= c[i] <= n && n % c[i] == 0
    {
      if i == 0 {
        assert c[0] == n;
        ModOfMultiple(1, n);
      } else {
        assert c[i] == rest[i - 1];
        DividesTransitive(rest[i - 1], q, n);
      }
    }
    forall i, j | 0 <= i < j < |c|
      ensures c[i] > c[j]
    {
      assert c[j] == rest[j - 1];
      if i == 0 {
        assert c[0] == n;
      } else {
        assert c[i] == rest[i - 1];
      }
    }
  }

  /** The running maximum `max_factor` keeps: starting from `m`, each chain
      entry that is larger than the current maximum and at most `top`
      replaces it. The result is the largest of `m` and the entries that do
      not exceed `top`. */
  function BestAtMost(m: int, chain: seq<int>, top: int): (r: int)
    ensures r >= m
    ensures r == m || (r in chain && r <= top)
    ensures forall i :: 0 <= i < |chain| && chain[i] <= top ==> chain[i] <= r
    decreases |chain|
  {
    if |chain| == 0 then m
    else
      var m' := if chain[0] > m && chain[0] <= top then chain[0] else m;
      BestAtMost(m', chain[1..], top)
  }

  /** The work-group size `max_factor(n, top)` returns: at least 2; either
      exactly 2 or a divisor of `n` that is at most `top`; and no entry of
      the quotient chain that fits under `top` is larger. When `2 < n <= top`
      it is `n` itself. */
  function MaxFactor(n: int, top: int): (r: int)
    ensures r >= DefaultGroupSize
    ensures r == DefaultGroupSize || (n % r == 0 && r <= top && r in QuotientChain(n))
    ensures forall c :: c in QuotientChain(n) && c <= top ==> c <= r
    ensures DefaultGroupSize < n <= top ==> r == n
  {
    var chain := QuotientChain(n);
    var r := BestAtMost(DefaultGroupSize, chain, top);
    assert DefaultGroupSize < n <= top ==> chain[0] == n;
    r
  }

  /** A divisor of a positive number does not exceed it. */
  lemma DivisorAtMost(n: int, d: int)
    requires n >= 1 && d >= 1 && n % d == 0
    ensures d <= n
  {
    if n < d {
      DivModUnique(n, d, 0, n);
    }
  }

  /** One step of the inner loop of `max_factor`: when `d` divides `n` and
      nothing in `[2, d)` does, `d` is the smallest prime factor of `n`, so
      dividing it out moves one place along the quotient chain, and the
      quotient still has no divisor in `[2, d)`. */
  lemma DivideOutStep(n: int, d: int)
    requires n >= 1 && d >= 2 && n % d == 0
    requires forall k :: 2 <= k < d ==> n % k != 0
    ensures 1 <= n / d < n
    ensures QuotientChain(n) == [n] + QuotientChain(n / d)
    ensures forall k :: 2 <= k < d ==> (n / d) % k != 0
  {
    DivisorAtMost(n, d);
    assert SmallestFactor(n) == d;
    QuotientSmaller(n, d);
    QuotientDivides(n, d);
    var q := n / d;
    forall k | 2 <= k < d
      ensures q % k != 0
    {
      if q % k == 0 {
        DividesTransitive(k, q, n);
      }
    }
  }

  /** Once the inner loop has divided `d` out completely, no value in
      `[2, d + 1)` divides `n`, so `d + 1` still does not exceed `n` while
      `n > 1`. */
  lemma NextCandidate(n: int, d: int)
    requires n >= 1 && d >= 2 && n % d != 0
    requires forall k :: 2 <= k < d ==> n % k != 0
    ensures forall k :: 2 <= k < d + 1 ==> n % k != 0
    ensures n > 1 ==> d + 1 <= n
  {
    assert n % n == 0;
  }

  /** `max_factor` as the source writes it: an outer loop over candidate
      divisors `d` and an inner loop dividing each one out. It terminates for
      every `n`, and it computes `MaxFactor`. */
  method MaxFactorLoop(n0: int, top: int) returns (maximum: int)
    ensures maximum == MaxFactor(n0, top)
  {
    var n := n0;
    var d := 2;
    maximum := DefaultGroupSize;
    while n > 1
      invariant d >= 2
      invariant n0 >= 1 ==> n >= 1
      invariant forall k :: 2 <= k < d ==> n % k != 0
      invariant n > 1 ==> d <= n
      invariant MaxFactor(n0, top) == BestAtMost(maximum, QuotientChain(n), top)
      decreases n - d + 1
    {
      while n % d == 0
        invariant d >= 2 && n >= 1
        invariant forall k :: 2 <= k < d ==> n % k != 0
        invariant MaxFactor(n0, top) == BestAtMost(maximum, QuotientChain(n), top)
        decreases n
      {
        DivideOutStep(n, d);
        if n > maximum && n <= top {
          maximum := n;
        }
        n := n / d;
      }
      NextCandidate(n, d);
      d := d + 1;
    }
  }

  /** The fallback of 2 is returned when no chain entry fits under `top`,
      and for every `n <= 1`: the result is then not a divisor of an odd
      `n`. With `top = 2` and `n = 9` the chain is `9, 3` and the result 2
      does not divide 9. */
  lemma FallbackIsNotADivisor()
    ensures MaxFactor(9, 2) == 2 && 9 % 2 != 0
    ensures forall n, top :: n <= 1 ==> MaxFactor(n, top) == 2
  {
  }

  /** The result is the largest chain entry under `top`, not the largest
      divisor under `top`: the chain of 12 is `12, 6, 3`, so with `top = 4`
      the result is 3 although 4 divides 12. */
  lemma NotTheLargestDivisor()
    ensures QuotientChain(12) == [12, 6, 3]
    ensures MaxFactor(12, 4) == 3 && 12 % 4 == 0
  {
    assert SmallestFactor(3) == 3;
    assert QuotientChain(3) == [3] + QuotientChain(1) == [3];
    assert SmallestFactor(6) == 2;
    assert QuotientChain(6) == [6] + QuotientChain(3);
    assert SmallestFactor(12) == 2;
    assert QuotientChain(12) == [12] + QuotientChain(6);
  }

  /** A `top` below 2 cannot be met: the fallback 2 exceeds it. */
  lemma FallbackMayExceedTop()
    ensures MaxFactor(4, 1) == 2 > 1
  {
  }
}
