/** The sizes a deque goes through, and what its resizing costs. */
module DequeCost {

  const MIN_CAPACITY := 8

  /** `copied` counts the elements moved by all calls of `resize`. */
  datatype Shape = Shape(cap: nat, count: nat, minCap: nat, copied: nat)

  function PushShape(s: Shape): Shape {
    var g := if s.count != s.cap then s
      else if s.cap == 0 then
        var m := if s.minCap == 0 then MIN_CAPACITY else s.minCap;
        s.(cap := m, minCap := m)
      else s.(cap := 2 * s.count, copied := s.copied + s.count);
    g.(count := g.count + 1)
  }

  function PopShape(s: Shape): Shape {
    if s.count == 0 then s
    else
      var c := s.count - 1;
      if s.cap > s.minCap && 4 * c == s.cap then s.(cap := 2 * c, count := c, copied := s.copied + c)
      else s.(count := c)
  }

  function Run(s: Shape, pushes: seq<bool>): Shape {
    if pushes == [] then s
    else
      var r := Run(s, pushes[..|pushes| - 1]);
      if pushes[|pushes| - 1] then PushShape(r) else PopShape(r)
  }

  /** Twice the potential: how far the deque has come towards its next resize. */
  function Potential(s: Shape): int {
    if 2 * s.count >= s.cap then 4 * s.count - 2 * s.cap
    else if s.cap <= s.minCap then 0
    else s.cap - 2 * s.count
  }

  predicate Reachable(s: Shape) {
    && s.count <= s.cap && s.cap % 2 == 0 && s.minCap % 2 == 0
    && (s.cap > 0 ==> s.cap >= s.minCap > 0)
  }

  lemma PushCost(s: Shape)
    requires Reachable(s)
    ensures var r := PushShape(s);
      Reachable(r) && 2 * (r.copied - s.copied) + Potential(r) - Potential(s) <= 4
  {
    var r := PushShape(s);
    if s.count == s.cap && s.cap > 0 {
      assert r.cap == 2 * s.count && r.count == s.count + 1 && r.copied == s.copied + s.count;
      assert r.cap % 2 == 0;
    } else if s.count == s.cap {
      assert r.count == 1 && r.cap == r.minCap && r.copied == s.copied;
    } else {
      assert r == s.(count := s.count + 1);
    }
  }

  lemma PopCost(s: Shape)
    requires Reachable(s) && (s.cap > s.minCap ==> s.cap >= 2 * s.minCap)
    ensures var r := PopShape(s);
      Reachable(r) && 2 * (r.copied - s.copied) + Potential(r) - Potential(s) <= 4
  {
  }

  /** The capacity is the base capacity doubled some number of times. */
  predicate Doubled(cap: nat, minCap: nat)
    decreases cap
  {
    cap == minCap || (cap > minCap && cap % 2 == 0 && Doubled(cap / 2, minCap))
  }

  /** A run of n pushes and pops on a fresh deque copies at most 2n elements when it resizes. */
  lemma {:induction false} RunCost(minCap: nat, pushes: seq<bool>)
    requires minCap % 2 == 0
    ensures var s := Run(Shape(0, 0, minCap, 0), pushes);
      && Reachable(s) && (s.cap > 0 ==> Doubled(s.cap, s.minCap))
      && 2 * s.copied + Potential(s) <= 4 * |pushes| && 0 <= Potential(s)
      && s.copied <= 2 * |pushes|
  {
    if pushes != [] {
      RunCost(minCap, pushes[..|pushes| - 1]);
      var s := Run(Shape(0, 0, minCap, 0), pushes[..|pushes| - 1]);
      if pushes[|pushes| - 1] {
        PushCost(s);
        if s.count == s.cap > 0 {
          assert 2 * s.cap / 2 == s.cap;
        }
      } else {
        PopCost(s);
      }
    }
  }

  predicate Fits(s: Shape) { s.count <= s.cap && (s.cap > s.minCap ==> s.cap < 4 * s.count) }

  lemma StepFits(s: Shape)
    requires Reachable(s) && (s.cap > 0 ==> Doubled(s.cap, s.minCap)) && Fits(s)
    ensures Fits(PushShape(s)) && Fits(PopShape(s))
  {
    hide Doubled;
    DoubledTwice(s.cap, s.minCap);
  }

  lemma DoubledTwice(cap: nat, minCap: nat)
    requires minCap % 2 == 0 && (cap > 0 ==> Doubled(cap, minCap))
    ensures cap > minCap ==> cap % 4 == 0
  {
    if cap > minCap {
      assert cap / 2 % 2 == 0;
    }
  }

  /** A buffer above the base capacity is always shorter than four times its contents, and never shorter
      than they are. */
  lemma {:induction false} BufferFits(minCap: nat, pushes: seq<bool>)
    requires minCap % 2 == 0
    ensures var s := Run(Shape(0, 0, minCap, 0), pushes);
      s.count <= s.cap && (s.cap > s.minCap ==> s.cap < 4 * s.count)
  {
    hide Doubled, PushShape, PopShape, Reachable;
    if pushes != [] {
      var before := pushes[..|pushes| - 1];
      BufferFits(minCap, before);
      RunCost(minCap, before);
      StepFits(Run(Shape(0, 0, minCap, 0), before));
    }
  }
}
