/** The bitwise modulus of the deque: `x & (n - 1)` for a power of two n. */
module BitMask {
  import opened Modulus

  /** Bitwise "and" of a two's complement integer with a mask that is not negative. */
  function And(x: int, mask: nat): nat
    decreases mask
  {
    if mask == 0 then 0 else 2 * And(x / 2, mask / 2) + (x % 2) * (mask % 2)
  }

  predicate PowerOfTwo(n: int) {
    n == 1 || (n > 1 && n % 2 == 0 && PowerOfTwo(n / 2))
  }

  lemma ModDouble(x: int, m: int)
    requires m > 0
    ensures x % (2 * m) == 2 * ((x / 2) % m) + x % 2
  {
    var q, r := x / 2, x % 2;
    var t, s := q / m, q % m;
    assert x == 2 * q + r && q == m * t + s;
    var rest := 2 * s + r;
    assert x == 2 * m * t + rest by {
      assert 2 * (m * t) == 2 * m * t;
    }
    ModOfSum(2 * m, t, rest);
  }

  /** The mask computes the remainder, for negative operands too. */
  lemma {:induction false} AndIsMod(x: int, n: int)
    requires PowerOfTwo(n)
    ensures And(x, n - 1) == x % n
    decreases n
  {
    if n > 1 {
      var m := n / 2;
      AndIsMod(x / 2, m);
      ModDouble(x, m);
      assert (n - 1) / 2 == m - 1 && (n - 1) % 2 == 1;
    }
  }

  /** One turn around a buffer of n slots, in either direction. */
  function Turn(x: int, n: int): int {
    if x < 0 then x + n else if x < n then x else x - n
  }

  lemma AndIsTurn(x: int, n: int)
    requires PowerOfTwo(n) && -n <= x < 2 * n
    ensures And(x, n - 1) == Turn(x, n) && 0 <= Turn(x, n) < n
  {
    AndIsMod(x, n);
    if x < 0 {
      ModOfSum(n, -1, x + n);
    } else if x < n {
      ModOfSum(n, 0, x);
    } else {
      ModOfSum(n, 1, x - n);
    }
  }

  /** Turns add up. */
  lemma TurnUp(x: int, n: int)
    requires 0 <= x < 2 * n - 1
    ensures 0 <= Turn(x, n) < n && Turn(Turn(x, n) + 1, n) == Turn(x + 1, n)
  {
  }

  lemma TurnDown(x: int, n: int)
    requires 0 < x < 2 * n
    ensures 0 <= Turn(x, n) < n && Turn(Turn(x, n) - 1, n) == Turn(x - 1, n)
  {
  }

  /** One place before the start the end is where it was. */
  lemma TurnBefore(head: int, count: int, n: int)
    requires 0 <= head < n && 0 <= count < n
    ensures 0 <= Turn(head - 1, n) < n && Turn(Turn(head - 1, n) + (count + 1), n) == Turn(head + count, n)
  {
  }

  /** One place after the start the end is where it was. */
  lemma TurnAfter(head: int, count: int, n: int)
    requires 0 <= head < n && 0 < count <= n
    ensures 0 <= Turn(head + 1, n) < n && Turn(Turn(head + 1, n) + (count - 1), n) == Turn(head + count, n)
  {
  }

  lemma TurnInside(x: int, n: int)
    requires 0 <= x < n
    ensures Turn(x, n) == x
  {
  }

  lemma PowerOfTwoDoubles(n: int)
    requires PowerOfTwo(n)
    ensures PowerOfTwo(2 * n)
  {
    assert 2 * n / 2 == n;
  }

  /** `for c < target { c <<= 1 }` */
  function DoubleTo(c: int, target: int): (r: int)
    requires c > 0
    ensures r >= target && r >= c
    ensures r == c || r < 2 * target
    decreases target - c
  {
    if c < target then DoubleTo(2 * c, target) else c
  }

  lemma {:induction false} DoubleToPower(c: int, target: int)
    requires PowerOfTwo(c)
    ensures PowerOfTwo(DoubleTo(c, target))
    decreases target - c
  {
    if c < target {
      PowerOfTwoDoubles(c);
      DoubleToPower(2 * c, target);
    }
  }

  /** `c <<= 1`, k times. */
  function Shifted(c: int, k: nat): int {
    if k == 0 then c else 2 * Shifted(c, k - 1)
  }

  /** From zero the doubling loop never reaches a positive target; from a positive start it does. */
  lemma {:induction false} DoublingReaches(c: int, target: int)
    requires c >= 0 && target > 0
    ensures (exists k: nat :: Shifted(c, k) >= target) <==> c > 0
  {
    if c > 0 {
      ShiftedGrows(c, target);
      assert Shifted(c, target) >= target;
    } else {
      forall k: nat
        ensures Shifted(0, k) == 0
      {
        ShiftedZero(k);
      }
    }
  }

  lemma {:induction false} ShiftedGrows(c: int, k: nat)
    requires c > 0
    ensures Shifted(c, k) > k
  {
    if k > 0 {
      ShiftedGrows(c, k - 1);
    }
  }

  lemma {:induction false} ShiftedZero(k: nat)
    ensures Shifted(0, k) == 0
  {
    if k > 0 {
      ShiftedZero(k - 1);
    }
  }
}
