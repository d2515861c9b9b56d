/** Remainders of sums, for the ring buffer and for the round-robin index. */
module Modulus {

  lemma Multiple(d: int, k: int)
    requires d > 0
    ensures k >= 1 ==> d * k >= d
    ensures k <= -1 ==> d * k <= -d
  {
    if k >= 1 {
      assert d * k == d + d * (k - 1);
    }
    if k <= -1 {
      assert d * k == -d + d * (k + 1);
    }
  }

  lemma ModOfSum(d: int, t: int, rest: int)
    requires 0 <= rest < d
    ensures (d * t + rest) % d == rest
  {
    var x := d * t + rest;
    var k := x / d - t;
    assert d * k == rest - x % d by {
      assert x == d * (x / d) + x % d;
      assert d * k == d * (x / d) - d * t;
    }
    Multiple(d, k);
  }

  /** b steps on from a, around n places. */
  function Onward(a: int, b: int, n: int): (r: int)
    requires n > 0
    ensures 0 <= r < n
  {
    (a + b) % n
  }

  lemma OnwardTwice(a: int, b: int, c: int, n: int)
    requires n > 0
    ensures Onward(Onward(a, b, n), c, n) == Onward(a, b + c, n)
  {
    var s := a + b;
    var q, x := s / n, s % n + c;
    assert s == n * q + s % n;
    assert s + c == n * (q + x / n) + x % n by {
      assert x == n * (x / n) + x % n;
      assert n * (q + x / n) == n * q + n * (x / n);
    }
    ModOfSum(n, q + x / n, x % n);
  }

  /** Two step counts below n that lead to the same place are equal. */
  lemma OnwardInjective(a: int, u: int, v: int, n: int)
    requires 0 <= u < n && 0 <= v < n && Onward(a, u, n) == Onward(a, v, n)
    ensures u == v
  {
    var i, j := (a + u) / n, (a + v) / n;
    assert a + u == n * i + Onward(a, u, n) && a + v == n * j + Onward(a, v, n);
    assert n * (i - j) == u - v by {
      assert n * (i - j) == n * i - n * j;
    }
    Multiple(n, i - j);
  }

  lemma OnwardZero(a: int, n: int)
    requires 0 <= a < n
    ensures Onward(a, 0, n) == a
  {
    ModOfSum(n, 0, a);
  }

  lemma OnwardFull(a: int, n: int)
    requires n > 0
    ensures Onward(a, n, n) == a % n
  {
    assert a == n * (a / n) + a % n;
    assert a + n == n * (a / n + 1) + a % n by {
      assert n * (a / n + 1) == n * (a / n) + n;
    }
    ModOfSum(n, a / n + 1, a % n);
  }
}
