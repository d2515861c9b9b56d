/** Jump consistent hashing of the load-balance group, and the strategy that retries with it. */
module JumpHashing {

  const KEYS := 0x1_0000_0000_0000_0000
  const TWO31 := 0x8000_0000
  const TWO53 := 0x20_0000_0000_0000
  const TWO62 := 0x4000_0000_0000_0000
  const TWO63 := 0x8000_0000_0000_0000

  /** A key is a uint64; its update wraps around. */
  function NextKey(key: nat): (k: nat)
    ensures k < KEYS
  {
    (key * 2862933555777941757 + 1) % KEYS
  }

  /** Where to jump from bucket b with the given key. */
  type Jump = (int, nat) -> int

  /** All that the algorithm needs of a jump: it goes forward. */
  ghost predicate Forward(jump: Jump) {
    forall b, key: nat | 0 <= b < TWO31 && key < KEYS :: jump(b, key) >= b + 1
  }

  /** The key after j updates. */
  function KeyAt(key: nat, j: nat): (k: nat)
    ensures j > 0 ==> k < KEYS
  {
    if j == 0 then key else (KeyAt(key, j - 1) * 2862933555777941757 + 1) % KEYS
  }

  /** The buckets that a key jumps to, one after the other, from bucket 0 on. */
  function Orbit(jump: Jump, key: nat, j: nat): int {
    if j == 0 then 0 else jump(Orbit(jump, key, j - 1), KeyAt(key, j))
  }

  /** The jump after the k-th is the first that leaves the n buckets. */
  ghost predicate LeavesAfter(jump: Jump, key: nat, n: int, k: nat) {
    n <= Orbit(jump, key, k + 1) && forall j: nat | j <= k :: Orbit(jump, key, j) < n
  }

  /** r is the last bucket before that jump. */
  ghost predicate IsBucket(jump: Jump, key: nat, n: int, r: int) {
    exists k: nat :: LeavesAfter(jump, key, n, k) && r == Orbit(jump, key, k)
  }

  lemma {:induction false} OrbitGrows(jump: Jump, key: nat, n: int, k: nat)
    requires Forward(jump) && n <= TWO31 && forall j: nat | j < k :: Orbit(jump, key, j) < n
    ensures Orbit(jump, key, k) >= k
    ensures forall j: nat | j < k :: 0 <= Orbit(jump, key, j) < Orbit(jump, key, k)
  {
    if k > 0 {
      OrbitGrows(jump, key, n, k - 1);
      assert jump(Orbit(jump, key, k - 1), KeyAt(key, k)) >= Orbit(jump, key, k - 1) + 1;
    }
  }

  lemma {:induction false} SomeBucket(jump: Jump, key: nat, n: int, k: nat)
    requires Forward(jump) && 1 <= n <= TWO31 && k <= n && forall j: nat | j <= k :: Orbit(jump, key, j) < n
    ensures exists r :: IsBucket(jump, key, n, r)
    decreases n - k
  {
    OrbitGrows(jump, key, n, k + 1);
    if Orbit(jump, key, k + 1) < n {
      SomeBucket(jump, key, n, k + 1);
    } else {
      assert LeavesAfter(jump, key, n, k);
      assert IsBucket(jump, key, n, Orbit(jump, key, k));
    }
  }

  lemma OneBucket(jump: Jump, key: nat, n: int, r: int, q: int)
    requires IsBucket(jump, key, n, r) && IsBucket(jump, key, n, q)
    ensures r == q
  {
    hide Orbit, LeavesAfter;
    var k: nat :| LeavesAfter(jump, key, n, k) && r == Orbit(jump, key, k);
    var l: nat :| LeavesAfter(jump, key, n, l) && q == Orbit(jump, key, l);
    Inside(jump, key, n, l, k + 1);
    Inside(jump, key, n, k, l + 1);
  }

  lemma Inside(jump: Jump, key: nat, n: int, k: nat, j: nat)
    requires LeavesAfter(jump, key, n, k)
    ensures j <= k ==> Orbit(jump, key, j) < n
    ensures n <= Orbit(jump, key, k + 1)
  {
  }

  /** The bucket of a key. */
  ghost function Bucket(jump: Jump, key: nat, n: int): (r: int)
    requires Forward(jump) && 1 <= n <= TWO31
    ensures IsBucket(jump, key, n, r)
  {
    SomeBucket(jump, key, n, 0);
    var r :| IsBucket(jump, key, n, r);
    r
  }

  lemma WhereLeft(jump: Jump, key: nat, n: int) returns (k: nat)
    requires Forward(jump) && 1 <= n <= TWO31
    ensures LeavesAfter(jump, key, n, k) && Bucket(jump, key, n) == Orbit(jump, key, k)
    ensures 0 <= Bucket(jump, key, n) < n <= Orbit(jump, key, k + 1)
    ensures forall j: nat | j < k :: 0 <= Orbit(jump, key, j) < Orbit(jump, key, k)
  {
    hide Orbit;
    assert IsBucket(jump, key, n, Bucket(jump, key, n));
    k :| LeavesAfter(jump, key, n, k) && Bucket(jump, key, n) == Orbit(jump, key, k);
    OrbitGrows(jump, key, n, k);
  }

  /** Every key has a bucket, and when buckets are added a key stays or moves to an added one. */
  lemma BucketsAreConsistent(jump: Jump, key: nat, n: int, m: int)
    requires Forward(jump) && 1 <= n <= m <= TWO31
    ensures 0 <= Bucket(jump, key, n) < n
    ensures Bucket(jump, key, m) == Bucket(jump, key, n) || n <= Bucket(jump, key, m) < m
    ensures m == n + 1 ==> Bucket(jump, key, m) == Bucket(jump, key, n) || Bucket(jump, key, m) == n
  {
    hide Orbit, LeavesAfter;
    var k := WhereLeft(jump, key, n);
    var l := WhereLeft(jump, key, m);
    Inside(jump, key, n, k, l + 1);
  }

  /** One more bucket takes exactly the keys that jump to it: those whose orbit meets it. */
  lemma NewBucketTakes(jump: Jump, key: nat, n: int)
    requires Forward(jump) && 1 <= n < TWO31
    ensures Bucket(jump, key, n + 1) == n
       <==> exists k: nat :: Orbit(jump, key, k) == n && forall j: nat | j < k :: Orbit(jump, key, j) < n
  {
    hide Orbit;
    var l := WhereLeft(jump, key, n + 1);
    if k: nat :| Orbit(jump, key, k) == n && forall j: nat | j < k :: Orbit(jump, key, j) < n {
      OrbitGrows(jump, key, n + 1, k + 1);
      assert LeavesAfter(jump, key, n + 1, k);
      OneBucket(jump, key, n + 1, n, Bucket(jump, key, n + 1));
    }
  }

  /** The loop ends in the bucket of the key: it follows the orbit until a jump leaves the buckets. */
  method JumpHash(jump: Jump, key0: nat, buckets: int) returns (r: int)
    requires Forward(jump) && buckets < TWO31
    ensures buckets >= 1 ==> IsBucket(jump, key0, buckets, r) && r == Bucket(jump, key0, buckets) && 0 <= r < buckets
    ensures buckets < 1 ==> r == 0
  {
    var key := key0;
    var b, j := 0, 0;
    ghost var k := 0;
    while j < buckets
      invariant key == KeyAt(key0, k) && j == Orbit(jump, key0, k) >= 0
      invariant if k == 0 then b == 0 else b == Orbit(jump, key0, k - 1)
      invariant forall i: nat | i < k :: Orbit(jump, key0, i) < buckets
      decreases buckets - j
    {
      b := j;
      key := NextKey(key);
      assert jump(b, key) >= b + 1;
      j := jump(b, key);
      k := k + 1;
    }
    if buckets >= 1 {
      assert LeavesAfter(jump, key0, buckets, k - 1);
      OneBucket(jump, key0, buckets, b, Bucket(jump, key0, buckets));
      BucketsAreConsistent(jump, key0, buckets, buckets);
    }
    return b;
  }

  // ---------- the jump of the program ----------

  /** The exact quotient. */
  function Quotient(b: int, key: nat): int {
    (b + 1) * TWO31 / (key / 0x2_0000_0000 + 1)
  }

  lemma Scale(a: int, b: int, k: int)
    requires a <= b && 0 <= k
    ensures a * k <= b * k
  {
    assert (b - a) * k >= 0;
  }

  /** A quotient below x means a dividend below x times the divisor. */
  lemma BelowQuotient(x: int, y: int, k: int)
    requires k >= 1 && y / k < x
    ensures y < x * k
  {
    assert y == k * (y / k) + y % k;
    Scale(y / k + 1, x, k);
  }

  lemma QuotientAtLeast(x: int, k: int)
    requires x >= 0 && 1 <= k <= TWO31
    ensures x <= x * TWO31 / k <= x * TWO31
  {
    var y := x * TWO31;
    Scale(k, TWO31, x);
    if y / k < x {
      BelowQuotient(x, y, k);
    }
    assert y == k * (y / k) + y % k;
    Scale(1, k, y / k);
  }

  /** The quotient of (b + 1) * 2^31 by the top 31 bits of the key, plus one, rounded down. */
  lemma QuotientIs(b: int, key: nat, q: int)
    ensures q == Quotient(b, key)
       <==> var d := key / 0x2_0000_0000 + 1; q * d <= (b + 1) * 0x8000_0000 < (q + 1) * d
  {
    var d, y := key / 0x2_0000_0000 + 1, (b + 1) * TWO31;
    DivisionIs(y, d, q);
  }

  lemma DivisionIs(y: int, d: int, q: int)
    requires d >= 1
    ensures q == y / d <==> q * d <= y < (q + 1) * d
  {
    var f := y / d;
    assert y == d * f + y % d;
    assert f * d <= y < f * d + d;
    if q < f {
      Scale(q + 1, f, d);
    } else if q > f {
      Scale(f + 1, q, d);
    }
    assert (q + 1) * d == q * d + d && (f + 1) * d == f * d + d;
  }

  /** With the exact quotient the jump goes forward and stays an int64. */
  lemma QuotientIsForward()
    ensures Forward(Quotient)
    ensures forall b, key: nat | 0 <= b < TWO31 && key < KEYS :: Quotient(b, key) <= TWO62 < TWO63
  {
    forall b, key: nat | 0 <= b < TWO31 && key < KEYS
      ensures b + 1 <= Quotient(b, key) <= TWO62
    {
      QuotientAtLeast(b + 1, key / 0x2_0000_0000 + 1);
    }
  }

  predicate IsSmallInteger(x: real) { 0.0 <= x <= TWO53 as real && x == x.Floor as real }

  /** What is used of IEEE 754 rounding to float64: it is monotone, and integers up to 2^53 and the
      power 2^62 are exact. */
  ghost predicate Rounds(rnd: real -> real) {
    && (forall x, y | x <= y :: rnd(x) <= rnd(y))
    && (forall x | IsSmallInteger(x) :: rnd(x) == x)
    && rnd(TWO62 as real) == TWO62 as real
  }

  function Ratio(key: nat): real { TWO31 as real / ((key / 0x2_0000_0000 + 1) as real) }

  function Scaled(x: real, q: real): real { x * q }

  /** The expression as the program evaluates it: a rounded quotient, a rounded product, truncated. */
  function FloatJump(rnd: real -> real, b: int, key: nat): int {
    rnd(Scaled((b + 1) as real, rnd(Ratio(key)))).Floor
  }

  lemma ScaleReal(a: real, b: real, k: real)
    requires a <= b && 0.0 <= k
    ensures a * k <= b * k
  {
    assert (b - a) * k >= 0.0;
  }

  lemma SmallRatio(q: real, k: real)
    requires q < 1.0 && 1.0 <= k
    ensures q * k < k
  {
    assert (1.0 - q) * k > 0.0;
  }

  lemma RatioInRange(key: nat)
    requires key < KEYS
    ensures 1.0 <= Ratio(key) <= TWO31 as real
  {
    var k := (key / 0x2_0000_0000 + 1) as real;
    assert 1.0 <= k <= TWO31 as real;
    var q := Ratio(key);
    assert q * k == TWO31 as real;
    if q < 1.0 {
      SmallRatio(q, k);
    }
    ScaleReal(1.0, k, q);
  }

  lemma ScaledInRange(x: real, q: real)
    requires 1.0 <= x <= TWO31 as real && 1.0 <= q <= TWO31 as real
    ensures x <= Scaled(x, q) <= TWO62 as real
  {
    var y := x * q;
    var t := TWO31 as real;
    assert y == q * x;
    ScaleReal(1.0, q, x);
    ScaleReal(q, t, x);
    assert x <= y;
    ScaleReal(x, t, t);
    assert y <= x * t <= t * t;
    assert t * t == TWO62 as real;
  }

  /** Rounding does not spoil it: the jump still goes forward and still fits an int64. */
  lemma FloatJumpIsForward(rnd: real -> real)
    requires Rounds(rnd)
    ensures Forward((b: int, key: nat) => FloatJump(rnd, b, key))
    ensures forall b, key: nat | 0 <= b < TWO31 && key < KEYS :: FloatJump(rnd, b, key) <= TWO62 < TWO63
  {
    forall b, key: nat | 0 <= b < TWO31 && key < KEYS
      ensures b + 1 <= FloatJump(rnd, b, key) <= TWO62
    {
      FloatJumpInRange(rnd, b, key);
    }
  }

  lemma FloatJumpInRange(rnd: real -> real, b: int, key: nat)
    requires Rounds(rnd) && 0 <= b < TWO31 && key < KEYS
    ensures b + 1 <= FloatJump(rnd, b, key) <= TWO62
  {
    hide Rounds, Ratio, Scaled;
    RatioInRange(key);
    var q := RoundedRatio(rnd, Ratio(key));
    ScaledInRange((b + 1) as real, q);
    var p := RoundedProduct(rnd, b + 1, Scaled((b + 1) as real, q));
    FloorBetween(p, b + 1, TWO62);
  }

  lemma FloorBetween(p: real, low: int, high: int)
    requires low as real <= p <= high as real
    ensures low <= p.Floor <= high
  {
    var f := p.Floor;
    assert f as real <= p < f as real + 1.0;
    IntegersInOrder(low, f + 1);
    IntegersInOrder(f, high + 1);
  }

  lemma IntegersInOrder(a: int, b: int)
    requires a as real < b as real
    ensures a < b
  {
  }

  lemma RoundedRatio(rnd: real -> real, x: real) returns (q: real)
    requires Rounds(rnd) && 1.0 <= x <= TWO31 as real
    ensures q == rnd(x) && 1.0 <= q <= TWO31 as real
  {
    q := rnd(x);
    assert IsSmallInteger(1.0) && IsSmallInteger(TWO31 as real);
    assert rnd(1.0) <= q <= rnd(TWO31 as real);
  }

  lemma RoundedProduct(rnd: real -> real, n: int, x: real) returns (p: real)
    requires Rounds(rnd) && 1 <= n <= TWO31 && n as real <= x <= TWO62 as real
    ensures p == rnd(x) && n as real <= p <= TWO62 as real
  {
    p := rnd(x);
    assert IsSmallInteger(n as real);
    assert rnd(n as real) <= p <= rnd(TWO62 as real);
  }

  /** But for rounding it is the exact quotient. */
  lemma ExactFloatJump(b: int, key: nat)
    requires 0 <= b < TWO31 && key < KEYS
    ensures FloatJump((x: real) => x, b, key) == Quotient(b, key)
  {
    var d := key / 0x2_0000_0000 + 1;
    var t, k := TWO31 as real, d as real;
    var y := Scaled((b + 1) as real, Ratio(key));
    var f := y.Floor;
    assert Ratio(key) * k == t;
    assert y * k == (b + 1) as real * t by {
      assert y * k == (b + 1) as real * (Ratio(key) * k);
    }
    ScaleReal(f as real, y, k);
    StrictScale(y, (f + 1) as real, k);
    ScaledInts(f, d);
    ScaledInts(f + 1, d);
    ScaledInts(b + 1, TWO31);
    QuotientIs(b, key, f);
  }

  lemma StrictScale(a: real, b: real, k: real)
    requires a < b && 0.0 < k
    ensures a * k < b * k
  {
    assert (b - a) * k > 0.0;
  }

  lemma ScaledInts(a: int, b: int)
    ensures (a * b) as real == a as real * b as real
  {
  }

  // ---------- strategyConsistentHashing ----------

  const MAX_RETRY := 5

  /** The i-th try, with the key raised by i, finds a live proxy. */
  ghost predicate TryIsAlive(jump: Jump, key: nat, alive: seq<bool>, i: nat)
    requires Forward(jump) && 1 <= |alive| < TWO31
  {
    var r := Bucket(jump, (key + i) % KEYS, |alive|);
    0 <= r < |alive| && alive[r]
  }

  ghost predicate FirstAliveTry(jump: Jump, key: nat, alive: seq<bool>, i: nat)
    requires Forward(jump) && 1 <= |alive| < TWO31
  {
    i < 5 && TryIsAlive(jump, key, alive, i) && forall j: nat | j < i :: !TryIsAlive(jump, key, alive, j)
  }

  lemma FoundTry(jump: Jump, key: nat, alive: seq<bool>, i: nat)
    requires Forward(jump) && 1 <= |alive| < TWO31 && i < MAX_RETRY
    requires TryIsAlive(jump, key, alive, i) && forall j: nat | j < i :: !TryIsAlive(jump, key, alive, j)
    ensures FirstAliveTry(jump, key, alive, i)
  {
  }

  lemma NoneFound(jump: Jump, key: nat, alive: seq<bool>)
    requires Forward(jump) && 1 <= |alive| < TWO31
    requires forall j: nat | j < MAX_RETRY :: !TryIsAlive(jump, key, alive, j)
    ensures !exists i: nat :: FirstAliveTry(jump, key, alive, i)
  {
  }

  /** The first alive proxy among five tries, else the first alive of the list, else the first. */
  method ConsistentHashing(jump: Jump, hash: nat, alive: seq<bool>) returns (r: int)
    requires Forward(jump) && hash < KEYS && 1 <= |alive| < TWO31
    ensures 0 <= r < |alive|
    ensures if exists i: nat :: FirstAliveTry(jump, hash, alive, i)
      then exists i: nat :: FirstAliveTry(jump, hash, alive, i) && r == Bucket(jump, (hash + i) % KEYS, |alive|)
      else if true in alive then alive[r] && forall j | 0 <= j < r :: !alive[j]
      else r == 0
  {
    hide FirstAliveTry, IsBucket, LeavesAfter, Orbit, NextKey;
    var key := hash;
    for i := 0 to MAX_RETRY
      invariant key == (hash + i) % KEYS
      invariant forall j: nat | j < i :: !TryIsAlive(jump, hash, alive, j)
    {
      r := JumpHash(jump, key, |alive|);
      if alive[r] {
        FoundTry(jump, hash, alive, i);
        return;
      }
      key := (key + 1) % KEYS;
    }
    NoneFound(jump, hash, alive);
    for i := 0 to |alive|
      invariant forall j | 0 <= j < i :: !alive[j]
    {
      if alive[i] {
        return i;
      }
    }
    return 0;
  }
}
