/** The double-ended queue of common/deque: a ring buffer whose length is zero or a power of two.
    A call that panics in the program returns None here and changes nothing. */
module Deques {
  import opened Common
  import opened Modulus
  import opened BitMask
  import opened RingValues
  import opened DequeCost

  /** What Rotate(n) leaves: n steps front to back, or -n back to front, for any n. */
  function Rotated<T>(s: seq<T>, n: int): seq<T> {
    if |s| <= 1 then s else Rot(s, n % |s|)
  }

  function Clamp(i: int, n: nat): (r: nat)
    ensures 0 <= i <= n ==> r == i
    ensures i < 0 ==> r == 0
    ensures i > n ==> r == n
  {
    if i <= 0 then 0 else if i >= n then n else i
  }

  /** The remainder of the program's `%`, which has the sign of the dividend. */
  function Rem(n: int, d: int): int
    requires d > 0
  {
    if n >= 0 then n % d else -((-n) % d)
  }

  /** How many elements an iteration takes: up to the first at which `goOn` says stop. */
  function Taken<T>(s: seq<T>, goOn: T -> bool): (k: nat)
    ensures k <= |s| && (s != [] ==> k > 0)
    ensures forall i | 0 <= i < k - 1 :: goOn(s[i])
    ensures 0 < k < |s| ==> !goOn(s[k - 1])
  {
    if s == [] then 0 else if goOn(s[0]) then 1 + Taken(s[1..], goOn) else 1
  }

  lemma NextTaken<T>(s: seq<T>, i: nat, goOn: T -> bool)
    requires i < |s|
    ensures s[i..][0] == s[i] && s[i..][1..] == s[i + 1..] && s[..i] + [s[i]] == s[..i + 1]
    ensures Taken(s[i..], goOn) == 1 + if goOn(s[i]) then Taken(s[i + 1..], goOn) else 0
  {
  }

  function Backwards<T>(s: seq<T>): (r: seq<T>)
    ensures |r| == |s| && forall i | 0 <= i < |s| :: r[i] == s[|s| - 1 - i]
  {
    seq(|s|, i requires 0 <= i < |s| => s[|s| - 1 - i])
  }

  /** An iteration from the back over `s` that has left the first n elements. */
  ghost predicate Backed<T>(s: seq<T>, goOn: T -> bool, taken: seq<T>, left: seq<T>, on: bool) {
    var r, n := Backwards(s), |left|;
    && n <= |s| && left == s[..n] && taken == r[..|s| - n]
    && Taken(r, goOn) == |s| - n + if on then Taken(r[|s| - n..], goOn) else 0
  }

  lemma BackedStart<T>(s: seq<T>, goOn: T -> bool)
    ensures Backed(s, goOn, [], s, true)
  {
    assert Backwards(s)[0..] == Backwards(s);
  }

  lemma BackedNext<T>(s: seq<T>, goOn: T -> bool, taken: seq<T>, left: seq<T>)
    requires Backed(s, goOn, taken, left, true) && left != []
    ensures var n := |left| - 1; Backed(s, goOn, taken + [left[n]], left[..n], goOn(left[n]))
  {
    var n := |left| - 1;
    NextTaken(Backwards(s), |s| - |left|, goOn);
    assert left[n] == Backwards(s)[|s| - |left|];
  }

  lemma BackedEnd<T>(s: seq<T>, goOn: T -> bool, taken: seq<T>, left: seq<T>, on: bool)
    requires Backed(s, goOn, taken, left, on) && (left == [] || !on)
    ensures var k := Taken(Backwards(s), goOn); taken == Backwards(s)[..k] && left == s[..|s| - k]
  {
    assert Backwards(s)[|s|..] == [];
  }

  class Deque<T> {
    const zero: T
    var buf: array<T>
    var head: int
    var tail: int
    var count: int
    var minCap: int
    ghost var copied: nat

    ghost predicate Valid()
      reads this, buf
    {
      && 0 <= count <= buf.Length && 0 <= minCap
      && (buf.Length == 0 ==> head == 0 && tail == 0)
      && (buf.Length > 0 ==>
            buf.Length >= 2 && PowerOfTwo(buf.Length) && 0 <= head < buf.Length
            && tail == Turn(head + count, buf.Length))
      && (minCap > 0 ==> minCap >= 2 && PowerOfTwo(minCap))
      && Vacant(buf[..], head, count, zero)
    }

    /** The elements, front to back. */
    ghost function Contents(): seq<T>
      reads this, buf
      requires Valid()
    {
      Ring(buf[..], head, count)
    }

    ghost function Sizes(): Shape
      reads this, buf
      requires Valid()
    {
      Shape(buf.Length, count, minCap, copied)
    }

    lemma Facts()
      requires Valid()
      ensures |Contents()| == count <= buf.Length
      ensures count > 0 ==>
        PowerOfTwo(buf.Length) && 0 <= head < buf.Length && tail == Turn(head + count, buf.Length)
    {
    }

    constructor (zero: T)
      ensures Valid() && fresh(buf) && Contents() == [] && Sizes() == Shape(0, 0, 0, 0) && this.zero == zero
    {
      this.zero := zero;
      buf := new T[0];
      head, tail, count, minCap, copied := 0, 0, 0, 0, 0;
    }

    function Len(): int
      reads this
    {
      count
    }

    // ---------- indexes ----------

    function Prev(i: int): (r: int)
      reads this`buf
      requires PowerOfTwo(buf.Length) && 0 <= i < buf.Length
      ensures r == Turn(i - 1, buf.Length) && 0 <= r < buf.Length
    {
      AndIsTurn(i - 1, buf.Length);
      And(i - 1, buf.Length - 1)
    }

    function Next(i: int): (r: int)
      reads this`buf
      requires PowerOfTwo(buf.Length) && 0 <= i < buf.Length
      ensures r == Turn(i + 1, buf.Length) && 0 <= r < buf.Length
    {
      AndIsTurn(i + 1, buf.Length);
      And(i + 1, buf.Length - 1)
    }

    /** The slot of the i-th element. */
    function Slot(i: int): (r: int)
      reads this
      requires PowerOfTwo(buf.Length) && 0 <= head < buf.Length && 0 <= i < count <= buf.Length
      ensures r == Turn(head + i, buf.Length) && 0 <= r < buf.Length
    {
      AndIsTurn(head + i, buf.Length);
      And(head + i, buf.Length - 1)
    }

    // ---------- resizing ----------

    /** Move the elements to the start of a new buffer, which must leave a slot free. */
    method Resize(newSize: int)
      requires Valid() && 0 < count < newSize && PowerOfTwo(newSize)
      modifies this`buf, this`head, this`tail, this`copied
      ensures Valid() && fresh(buf) && Contents() == old(Contents())
      ensures head == 0 && Sizes() == old(Sizes()).(cap := newSize, copied := old(copied) + count)
    {
      FromStartIsValid(newSize);
      ResizeTo(newSize);
    }

    method ResizeTo(newSize: int)
      requires Valid() && 0 < count <= newSize && PowerOfTwo(newSize)
      modifies this`buf, this`head, this`tail, this`copied
      ensures fresh(buf) && buf.Length == newSize && head == 0 && tail == count && copied == old(copied) + count
      ensures buf[..count] == old(Contents()) && Ring(buf[..], 0, count) == old(Contents())
      ensures Vacant(buf[..], 0, count, zero)
    {
      hide *;
      ghost var s := Contents();
      TwoSlices();
      var z := zero;
      var newBuf := new T[newSize](_ => z);
      if tail > head {
        CopyInto(newBuf, 0, buf, head, tail);
      } else {
        CopyInto(newBuf, 0, buf, head, buf.Length);
        var n := buf.Length - head;
        assert newBuf[..n] == buf[head..];
        CopyInto(newBuf, n, buf, 0, tail);
        assert newBuf[..n] == buf[head..] && newBuf[n..n + tail] == buf[..tail];
        assert newBuf[..count] == newBuf[..n] + newBuf[n..n + tail];
      }
      FromStart(newBuf[..], s, zero);
      head := 0;
      tail := count;
      buf := newBuf;
      copied := copied + count;
    }

    lemma TwoSlices()
      requires Valid() && count > 0
      ensures count <= buf.Length && 0 <= head < buf.Length && 0 <= tail <= buf.Length
      ensures count == if tail > head then tail - head else buf.Length - head + tail
      ensures Contents() == if tail > head then buf[head..tail] else buf[head..] + buf[..tail]
      ensures |Contents()| == count
    {
      hide Vacant, Ring, PowerOfTwo;
      Slices(buf[..], head, count, tail);
    }

    lemma FromStartIsValid(newSize: int)
      requires PowerOfTwo(newSize) && 0 < count < newSize
      ensures newSize >= 2 && Turn(0 + count, newSize) == count
    {
    }

    /** copy(dst[at:], src[from:to]), where the source fits. */
    static method CopyInto(dst: array<T>, at: int, src: array<T>, from: int, to: int)
      requires 0 <= from <= to <= src.Length && 0 <= at && at + (to - from) <= dst.Length && dst != src
      modifies dst
      ensures dst[at..at + (to - from)] == src[from..to]
      ensures forall i | 0 <= i < dst.Length && !(at <= i < at + (to - from)) :: dst[i] == old(dst[i])
    {
      for i := 0 to to - from
        invariant dst[at..at + i] == src[from..from + i]
        invariant forall k | 0 <= k < dst.Length && !(at <= k < at + i) :: dst[k] == old(dst[k])
      {
        dst[at + i] := src[from + i];
      }
    }

    method GrowIfFull()
      requires Valid()
      modifies this`buf, this`head, this`tail, this`copied, this`minCap
      ensures Valid() && (buf == old(buf) || fresh(buf)) && Contents() == old(Contents()) && count < buf.Length
      ensures buf == old(buf) ==> head == old(head)
      ensures PushShape(old(Sizes())) == Sizes().(count := count + 1)
    {
      if count != buf.Length {
        return;
      }
      if buf.Length == 0 {
        if minCap == 0 {
          minCap := MIN_CAPACITY;
        }
        var z := zero;
        buf := new T[minCap](_ => z);
        return;
      }
      PowerOfTwoDoubles(count);
      Resize(2 * count);
    }

    method ShrinkIfExcess()
      requires Valid()
      modifies this`buf, this`head, this`tail, this`copied
      ensures Valid() && (buf == old(buf) || fresh(buf)) && Contents() == old(Contents())
      ensures Sizes() == (if old(buf.Length) > minCap && 4 * count == old(buf.Length)
        then old(Sizes()).(cap := 2 * count, copied := old(copied) + count) else old(Sizes()))
    {
      if buf.Length > minCap && 4 * count == buf.Length {
        assert PowerOfTwo(buf.Length / 2) && buf.Length / 2 == 2 * count;
        Resize(2 * count);
      }
    }

    // ---------- pushes and pops ----------

    method PushBack(elem: T)
      requires Valid()
      modifies this, buf
      ensures Valid() && (buf == old(buf) || fresh(buf))
      ensures Contents() == old(Contents()) + [elem]
      ensures Sizes() == PushShape(old(Sizes()))
    {
      hide Vacant, Ring, PowerOfTwo, And, Turn;
      GrowIfFull();
      AddBack(buf[..], head, count, elem, zero);
      TurnUp(head + count, buf.Length);
      buf[tail] := elem;
      tail := Next(tail);
      count := count + 1;
    }

    method PushFront(elem: T)
      requires Valid()
      modifies this, buf
      ensures Valid() && (buf == old(buf) || fresh(buf))
      ensures Contents() == [elem] + old(Contents())
      ensures Sizes() == PushShape(old(Sizes()))
    {
      hide Vacant, Ring, PowerOfTwo, And, Turn;
      GrowIfFull();
      AddFront(buf[..], head, count, elem, zero);
      TurnBefore(head, count, buf.Length);
      head := Prev(head);
      buf[head] := elem;
      count := count + 1;
    }

    /** Take the first element off; the buffer stays. */
    method TakeFront() returns (x: T)
      requires Valid() && count > 0
      modifies this`head, this`count, buf
      ensures Valid() && x == old(Contents())[0] && Contents() == old(Contents())[1..]
      ensures Sizes() == old(Sizes()).(count := count) && count == old(count) - 1
    {
      hide Vacant, Ring, PowerOfTwo, And, Turn;
      RingValues.DropFront(buf[..], head, count, zero);
      TurnAfter(head, count, buf.Length);
      x := buf[head];
      buf[head] := zero;
      head := Next(head);
      count := count - 1;
    }

    /** Take the last element off; the buffer stays. */
    method TakeBack() returns (x: T)
      requires Valid() && count > 0
      modifies this`tail, this`count, buf
      ensures var s := old(Contents()); Valid() && x == s[|s| - 1] && Contents() == s[..|s| - 1]
      ensures Sizes() == old(Sizes()).(count := count) && count == old(count) - 1
    {
      hide Vacant, Ring, PowerOfTwo, And, Turn;
      RingValues.DropBack(buf[..], head, count, zero);
      TurnDown(head + count, buf.Length);
      tail := Prev(tail);
      x := buf[tail];
      buf[tail] := zero;
      count := count - 1;
    }

    method PopFront() returns (r: Option<T>)
      requires Valid()
      modifies this, buf
      ensures Valid() && (buf == old(buf) || fresh(buf)) && Sizes() == PopShape(old(Sizes()))
      ensures if old(Contents()) == [] then r == None && Contents() == []
              else r == Some(old(Contents())[0]) && Contents() == old(Contents())[1..]
    {
      hide Valid, Contents;
      Facts();
      if count <= 0 {
        return None;
      }
      var x := TakeFront();
      ShrinkIfExcess();
      return Some(x);
    }

    method PopBack() returns (r: Option<T>)
      requires Valid()
      modifies this, buf
      ensures Valid() && (buf == old(buf) || fresh(buf)) && Sizes() == PopShape(old(Sizes()))
      ensures var s := old(Contents());
        if s == [] then r == None && Contents() == []
        else r == Some(s[|s| - 1]) && Contents() == s[..|s| - 1]
    {
      hide Valid, Contents;
      Facts();
      if count <= 0 {
        return None;
      }
      var x := TakeBack();
      ShrinkIfExcess();
      return Some(x);
    }

    method Front() returns (r: Option<T>)
      requires Valid()
      ensures r == if Contents() == [] then None else Some(Contents()[0])
    {
      if count <= 0 {
        return None;
      }
      return Some(buf[head]);
    }

    method Back() returns (r: Option<T>)
      requires Valid()
      ensures r == if Contents() == [] then None else Some(Contents()[|Contents()| - 1])
    {
      if count <= 0 {
        return None;
      }
      return Some(buf[Prev(tail)]);
    }

    method At(i: int) returns (r: Option<T>)
      requires Valid()
      ensures r == if 0 <= i < |Contents()| then Some(Contents()[i]) else None
    {
      if i < 0 || i >= count {
        return None;
      }
      return Some(buf[Slot(i)]);
    }

    method Set(i: int, item: T) returns (ok: bool)
      requires Valid()
      modifies buf
      ensures Valid() && ok == (0 <= i < |old(Contents())|)
      ensures Contents() == if ok then old(Contents())[i := item] else old(Contents())
    {
      if i < 0 || i >= count {
        return false;
      }
      hide PowerOfTwo, And;
      ghost var s := Contents();
      buf[Slot(i)] := item;
      assert forall k | 0 <= k < count :: Contents()[k] == s[i := item][k];
      return true;
    }

    /** Exchange the i-th and the j-th element, which are in the slots a and b. */
    method Exchange(ghost i: nat, ghost j: nat, a: int, b: int)
      requires Valid() && i < count && j < count && a == Turn(head + i, buf.Length) && b == Turn(head + j, buf.Length)
      modifies buf
      ensures Valid() && Contents() == Swapped(old(Contents()), i, j) && Sizes() == old(Sizes())
    {
      hide PowerOfTwo, Vacant, Ring, And, Turn;
      SwapSlots(buf[..], head, count, i, j, zero);
      TurnUp(head + i, buf.Length);
      TurnUp(head + j, buf.Length);
      ghost var b0 := buf[..];
      buf[a], buf[b] := buf[b], buf[a];
      assert buf[..] == b0[a := b0[b]][b := b0[a]];
    }

    method Swap(idxA: int, idxB: int) returns (ok: bool)
      requires Valid()
      modifies buf
      ensures Valid() && ok == (0 <= idxA < |old(Contents())| && 0 <= idxB < |old(Contents())|)
      ensures Contents() == if ok then Swapped(old(Contents()), idxA, idxB) else old(Contents())
    {
      if idxA < 0 || idxA >= count || idxB < 0 || idxB >= count {
        return false;
      }
      if idxA == idxB {
        return true;
      }
      Exchange(idxA, idxB, Slot(idxA), Slot(idxB));
      return true;
    }

    // ---------- the middle ----------

    method Insert(at: int, item: T)
      requires Valid()
      modifies this, buf
      ensures Valid() && (buf == old(buf) || fresh(buf))
      ensures Contents() == Inserted(old(Contents()), Clamp(at, |old(Contents())|), item)
      ensures Sizes() == PushShape(old(Sizes()))
    {
      hide PowerOfTwo, Vacant, Ring, And, Turn, PushShape;
      ghost var s := Contents();
      if at <= 0 {
        PushFront(item);
        return;
      }
      if at >= Len() {
        PushBack(item);
        return;
      }
      if at * 2 < count {
        PushFront(item);
        SinkFromFront(at, s, item);
        return;
      }
      var swaps := count - at;
      PushBack(item);
      RiseFromBack(swaps, s, item);
    }

    /** The loop that moves the first element `at` places back. */
    method SinkFromFront(at: int, ghost s: seq<T>, ghost item: T)
      requires Valid() && 0 <= at <= |s| && Contents() == Inserted(s, 0, item)
      modifies buf
      ensures Valid() && Contents() == Inserted(s, at, item)
    {
      hide *;
      Facts();
      TurnInside(head, buf.Length);
      var front := head;
      for i := 0 to at
        invariant Valid() && front == Turn(head + i, buf.Length)
        invariant Contents() == Inserted(s, i, item)
      {
        TurnUp(head + i, buf.Length);
        var next := Next(front);
        InsertedMoves(s, i, item);
        Exchange(i, i + 1, front, next);
        front := next;
      }
    }

    /** The loop that moves the last element `swaps` places forward. */
    method RiseFromBack(swaps: int, ghost s: seq<T>, ghost item: T)
      requires Valid() && 0 <= swaps <= |s| && Contents() == Inserted(s, |s|, item)
      modifies buf
      ensures Valid() && Contents() == Inserted(s, |s| - swaps, item)
    {
      hide *;
      Facts();
      TurnDown(head + count, buf.Length);
      var back := Prev(tail);
      for i := 0 to swaps
        invariant Valid() && back == Turn(head + count - 1 - i, buf.Length)
        invariant Contents() == Inserted(s, |s| - i, item)
      {
        TurnDown(head + count - 1 - i, buf.Length);
        var prev := Prev(back);
        InsertedMoves(s, |s| - i - 1, item);
        Exchange(|s| - i, |s| - i - 1, back, prev);
        back := prev;
      }
    }

    method Remove(at: int) returns (r: Option<T>)
      requires Valid()
      modifies this, buf
      ensures Valid() && (buf == old(buf) || fresh(buf))
      ensures var s := old(Contents());
        if 0 <= at < |s| then r == Some(s[at]) && Contents() == Removed(s, at) && Sizes() == PopShape(old(Sizes()))
        else r == None && Contents() == s && Sizes() == old(Sizes())
    {
      hide PowerOfTwo, Vacant, Ring, And;
      if at < 0 || at >= count {
        return None;
      }
      ghost var s := Contents();
      RemovedThenInserted(s, at);
      var rm := Slot(at);
      if at * 2 < count {
        RiseToFront(at, rm, Removed(s, at), s[at]);
        r := PopFront();
        return;
      }
      SinkToBack(at, rm, Removed(s, at), s[at]);
      r := PopBack();
    }

    method RiseToFront(at: int, rm0: int, ghost s: seq<T>, ghost item: T)
      requires Valid() && 0 <= at <= |s| && Contents() == Inserted(s, at, item) && rm0 == Turn(head + at, buf.Length)
      modifies buf
      ensures Valid() && Contents() == Inserted(s, 0, item) && Sizes() == old(Sizes())
    {
      hide *;
      Facts();
      var rm := rm0;
      for i := 0 to at
        invariant Valid() && rm == Turn(head + at - i, buf.Length) && Sizes() == old(Sizes())
        invariant Contents() == Inserted(s, at - i, item)
      {
        TurnDown(head + at - i, buf.Length);
        var prev := Prev(rm);
        InsertedMoves(s, at - i - 1, item);
        Exchange(at - i - 1, at - i, prev, rm);
        rm := prev;
      }
    }

    method SinkToBack(at: int, rm0: int, ghost s: seq<T>, ghost item: T)
      requires Valid() && 0 <= at <= |s| && Contents() == Inserted(s, at, item) && rm0 == Turn(head + at, buf.Length)
      modifies buf
      ensures Valid() && Contents() == Inserted(s, |s|, item) && Sizes() == old(Sizes())
    {
      hide *;
      Facts();
      var rm := rm0;
      var swaps := count - at - 1;
      for i := 0 to swaps
        invariant Valid() && rm == Turn(head + at + i, buf.Length) && Sizes() == old(Sizes())
        invariant Contents() == Inserted(s, at + i, item)
      {
        TurnUp(head + at + i, buf.Length);
        var next := Next(rm);
        InsertedMoves(s, at + i, item);
        Exchange(at + i, at + i + 1, rm, next);
        rm := next;
      }
    }

    // ---------- rotation ----------

    /** The state in which `tail` has run off the buffer: everything holds but `tail < cap`. */
    ghost predicate Brimful()
      reads this, buf
    {
      && head == 0 && 0 < count == tail == buf.Length
      && PowerOfTwo(buf.Length) && buf.Length >= 2 && (minCap > 0 ==> minCap >= 2 && PowerOfTwo(minCap))
    }

    /** One round of the loop back to front. */
    method StepBack()
      requires 0 < count && PowerOfTwo(buf.Length) && 0 <= head < buf.Length && 0 <= tail <= buf.Length
      modifies this`head, this`tail, buf
      ensures head == Turn(old(head) - 1, buf.Length) && tail == Turn(old(tail) - 1, buf.Length)
      ensures 0 <= head < buf.Length && 0 <= tail < buf.Length
      ensures buf[..] == old(buf[..])[head := old(buf[..])[tail]][tail := zero]
    {
      hide PowerOfTwo, And, Turn;
      ghost var b := buf[..];
      AndIsTurn(head - 1, buf.Length);
      AndIsTurn(tail - 1, buf.Length);
      head := And(head - 1, buf.Length - 1);
      tail := And(tail - 1, buf.Length - 1);
      buf[head] := buf[tail];
      buf[tail] := zero;
      assert buf[..] == b[head := b[tail]][tail := zero];
    }

    /** One round of the loop front to back; `ok` is false when `tail` is no index of the buffer. */
    method StepFront() returns (ok: bool)
      requires 0 < count && PowerOfTwo(buf.Length) && 0 <= head < buf.Length && 0 <= tail <= buf.Length
      modifies this`head, this`tail, buf
      ensures ok == (old(tail) < buf.Length)
      ensures !ok ==> head == old(head) && tail == old(tail) && buf[..] == old(buf[..])
      ensures ok ==>
        && head == Turn(old(head) + 1, buf.Length) && tail == Turn(old(tail) + 1, buf.Length)
        && 0 <= head < buf.Length && 0 <= tail < buf.Length
        && buf[..] == old(buf[..])[old(tail) := old(buf[..])[old(head)]][old(head) := zero]
    {
      hide PowerOfTwo, And, Turn;
      ghost var b := buf[..];
      if tail >= buf.Length {
        return false;
      }
      buf[tail] := buf[head];
      buf[head] := zero;
      assert buf[..] == b[tail := b[head]][head := zero];
      AndIsTurn(head + 1, buf.Length);
      AndIsTurn(tail + 1, buf.Length);
      head := And(head + 1, buf.Length - 1);
      tail := And(tail + 1, buf.Length - 1);
      return true;
    }

    lemma StepBackMoves(b: seq<T>, h: int, t: int)
      requires 0 < count < buf.Length && |b| == buf.Length && Vacant(b, h, count, zero) && 0 <= h < |b|
      requires t == Turn(h + count, |b|) && 0 <= minCap && (minCap > 0 ==> minCap >= 2 && PowerOfTwo(minCap))
      requires PowerOfTwo(buf.Length) && head == Turn(h - 1, |b|) && tail == Turn(t - 1, |b|)
      requires buf[..] == b[head := b[tail]][tail := zero]
      ensures Valid() && var s := Ring(b, h, count); Contents() == [s[count - 1]] + s[..count - 1]
    {
      hide Vacant, Ring, PowerOfTwo;
      BackToFront(b, h, count, zero);
    }

    lemma StepFrontMoves(b: seq<T>, h: int, t: int)
      requires 0 < count < buf.Length && |b| == buf.Length && Vacant(b, h, count, zero) && 0 <= h < |b|
      requires t == Turn(h + count, |b|) && 0 <= minCap && (minCap > 0 ==> minCap >= 2 && PowerOfTwo(minCap))
      requires PowerOfTwo(buf.Length) && head == Turn(h + 1, |b|) && tail == Turn(t + 1, |b|)
      requires buf[..] == b[t := b[h]][h := zero]
      ensures Valid() && var s := Ring(b, h, count); Contents() == s[1..] + [s[0]]
    {
      hide Vacant, Ring, PowerOfTwo;
      FrontToBack(b, h, count, zero);
    }

    /** One round on a valid deque that is not full, or on a brimful one after j rounds. */
    method RoundBack(ghost valid: bool, ghost b0: seq<T>, ghost j: nat)
      requires if valid then Valid() && 0 < count < buf.Length else Wiping(b0, j) && j < count - 1
      modifies this`head, this`tail, buf
      ensures if valid then Valid() && (var s := old(Contents()); Contents() == [s[count - 1]] + s[..count - 1])
              else Wiping(b0, j + 1)
    {
      hide Vacant, Ring, PowerOfTwo, Turn;
      ghost var b, h, t := buf[..], head, tail;
      if valid {
        Facts();
        TurnUp(head + count, buf.Length);
      }
      StepBack();
      if valid {
        StepBackMoves(b, h, t);
      } else {
        WipesNext(b0, j, b, h, t);
      }
    }

    /** The loop back to front, on a valid deque that is not full and on a brimful one, where it loses the
        last elements. */
    method RotateBack(k: int)
      requires (Valid() && 0 < count < buf.Length) || Brimful()
      requires 0 < k < count
      modifies this`head, this`tail, buf
      ensures old(Valid()) ==> Valid() && Contents() == Rot(old(Contents()), count - k)
      ensures old(Brimful()) ==> buf[..] == Wiped(old(buf[..]), k, zero)
    {
      hide *;
      ghost var valid, b0 := Valid(), buf[..];
      ghost var s := if valid then Contents() else b0;
      StartBack();
      RotEnds(s);
      var n := -k;
      while n < 0
        invariant -k <= n <= 0
        invariant if valid then Valid() && Contents() == Rot(s, count - k - n) else Wiping(b0, k + n)
      {
        RotNext(s, count - k - n - 1);
        RoundBack(valid, b0, k + n);
        n := n + 1;
      }
      Wipes(b0, k);
    }

    /** After j rounds on a brimful buffer. */
    ghost predicate Wiping(b0: seq<T>, j: int)
      reads this, buf
    {
      && 0 <= j < |b0| == buf.Length == count && PowerOfTwo(buf.Length) && buf[..] == Wiped(b0, j, zero)
      && tail == count - j && head == if j == 0 then 0 else tail
    }

    lemma StartBack()
      ensures Brimful() ==> Wiping(buf[..], 0) && !Valid() && count == buf.Length
      ensures Valid() ==> |Contents()| == count
    {
    }

    lemma Wipes(b0: seq<T>, j: nat)
      ensures Wiping(b0, j) ==> j <= |b0| && buf[..] == Wiped(b0, j, zero)
    {
    }

    lemma WipesNext(b0: seq<T>, j: nat, b: seq<T>, h: int, t: int)
      requires j < |b0| - 1 && |b0| == |b| == buf.Length == count && b == Wiped(b0, j, zero)
      requires t == |b0| - j && (h == if j == 0 then 0 else t) && PowerOfTwo(buf.Length)
      requires head == Turn(h - 1, |b|) && tail == Turn(t - 1, |b|)
      requires 0 <= head < |b| && 0 <= tail < |b| && buf[..] == b[head := b[tail]][tail := zero]
      ensures Wiping(b0, j + 1)
    {
      assert buf[..] == Wiped(b0, j + 1, zero);
    }

    /** One round on a valid deque that is not full, or on a brimful one. */
    method RoundFront(ghost valid: bool) returns (ok: bool)
      requires if valid then Valid() && 0 < count < buf.Length else Brimful()
      modifies this`head, this`tail, buf
      ensures if valid then ok && Valid() && (var s := old(Contents()); Contents() == s[1..] + [s[0]])
              else !ok && buf[..] == old(buf[..])
    {
      hide Vacant, Ring, PowerOfTwo, Turn;
      ghost var b, h, t := buf[..], head, tail;
      if valid {
        Facts();
        TurnUp(head + count, buf.Length);
      }
      ok := StepFront();
      if valid {
        StepFrontMoves(b, h, t);
      }
    }

    /** The loop front to back; on a brimful deque the first write is out of range. */
    method RotateFront(k: int) returns (ok: bool)
      requires (Valid() && 0 < count < buf.Length) || Brimful()
      requires 0 < k < count
      modifies this`head, this`tail, buf
      ensures old(Valid()) ==> ok && Valid() && Contents() == Rot(old(Contents()), k)
      ensures old(Brimful()) ==> !ok && buf[..] == old(buf[..])
    {
      hide *;
      ghost var valid, b0 := Valid(), buf[..];
      ghost var s := if valid then Contents() else b0;
      StartBack();
      RotEnds(s);
      var n := k;
      while n > 0
        invariant 0 <= n <= k
        invariant if valid then Valid() && Contents() == Rot(s, k - n) else Brimful() && n > 0 && buf[..] == b0
      {
        RotNext(s, k - n);
        ok := RoundFront(valid);
        if !ok {
          return;
        }
        n := n - 1;
      }
      ok := true;
    }

    /** On a full buffer only the two indexes move. */
    method TurnFull(n: int)
      requires Valid() && 0 < count == buf.Length && -count < n < count
      modifies this`head, this`tail
      ensures Valid() && Contents() == Rot(old(Contents()), if n < 0 then n + count else n)
    {
      hide PowerOfTwo, Ring, And;
      FullTurn(buf[..], head, if n < 0 then n + count else n);
      AndIsTurn(head + n, buf.Length);
      head := And(head + n, buf.Length - 1);
      tail := head;
    }

    lemma FullWhenEqual()
      requires Valid()
      ensures count > 0 ==> (head == tail <==> count == buf.Length)
    {
    }

    /** Rotate never resizes.  On a brimful deque a rotation forwards is out of range, and one backwards by
        k replaces the last k elements by zero values. */
    method Rotate(n0: int) returns (ok: bool)
      requires Valid() || Brimful()
      modifies this`head, this`tail, buf
      ensures old(Valid()) ==>
        ok && Valid() && Contents() == Rotated(old(Contents()), n0) && Sizes() == old(Sizes())
      ensures old(Brimful()) ==> var r := Rem(n0, count);
        ok == (r <= 0) && -r < count == buf.Length && buf[..] == Wiped(old(buf[..]), if r < 0 then -r else 0, zero)
    {
      hide PowerOfTwo, Vacant, Ring, And, Rem, Rot, Rotated, Turn;
      ghost var valid, b0 := Valid(), buf[..];
      ghost var s := if valid then Contents() else b0;
      RotatedByRem(s, n0);
      if valid {
        FullWhenEqual();
      }
      if Len() <= 1 {
        return true;
      }
      RemIsMod(n0, count);
      var n := Rem(n0, count);
      assert Wiped(b0, 0, zero) == b0;
      if n == 0 {
        return true;
      }
      if head == tail {
        TurnFull(n);
        return true;
      }
      if n < 0 {
        RotateBack(-n);
        return true;
      }
      ok := RotateFront(n);
    }

    // ---------- capacity ----------

    method ClearSlice(from: int, to: int)
      requires 0 <= from <= to <= buf.Length
      modifies buf
      ensures forall i | 0 <= i < buf.Length :: buf[i] == if from <= i < to then zero else old(buf[i])
    {
      for i := from to to
        invariant forall k | 0 <= k < buf.Length :: buf[k] == if from <= k < i then zero else old(buf[k])
      {
        buf[i] := zero;
      }
    }

    /** Empty the deque and keep its capacity. */
    method Clear()
      requires Valid()
      modifies this`head, this`tail, this`count, buf
      ensures Valid() && Contents() == [] && Sizes() == old(Sizes()).(count := 0)
    {
      if Len() == 0 {
        return;
      }
      var h, t := head, tail;
      count := 0;
      head := 0;
      tail := 0;
      if h >= t {
        ClearSlice(h, buf.Length);
        h := 0;
      }
      ClearSlice(h, t);
    }

    /** Make room for n more elements without changing them.  A negative n panics. */
    method Grow(n: int) returns (ok: bool)
      requires Valid()
      modifies this`buf, this`head, this`tail, this`copied
      ensures Valid() && (buf == old(buf) || fresh(buf)) && Contents() == old(Contents()) && ok == (n >= 0)
      ensures var c := old(buf.Length);
        buf.Length == if n <= c - count then c else DoubleTo(if c == 0 then MIN_CAPACITY else c, count + n)
      ensures ok ==> n <= buf.Length - count
      ensures unchanged(`minCap)
    {
      if n < 0 {
        return false;
      }
      ok := true;
      var c := buf.Length;
      if n <= c - count {
        return;
      }
      if c == 0 {
        c := MIN_CAPACITY;
      }
      ghost var c0 := c;
      DoubleToPower(c0, count + n);
      while c < count + n
        invariant c >= c0 > 0 && DoubleTo(c, count + n) == DoubleTo(c0, count + n)
        decreases count + n - c
      {
        c := 2 * c;
      }
      if count == 0 {
        var z := zero;
        buf := new T[c](_ => z);
        head := 0;
        tail := 0;
      } else {
        Resize(c);
      }
    }

    method SetBaseCap(baseCap: int)
      requires Valid()
      modifies this`minCap
      ensures Valid() && minCap == DoubleTo(MIN_CAPACITY, baseCap) && Contents() == old(Contents())
    {
      DoubleToPower(MIN_CAPACITY, baseCap);
      var m := MIN_CAPACITY;
      while m < baseCap
        invariant m >= MIN_CAPACITY && DoubleTo(m, baseCap) == DoubleTo(MIN_CAPACITY, baseCap)
        decreases baseCap - m
      {
        m := 2 * m;
      }
      minCap := m;
    }

    /** The index of the first element that satisfies f, or -1. */
    method Index(f: T -> bool) returns (i: int)
      requires Valid()
      ensures var s := Contents();
        if i < 0 then i == -1 && forall k | 0 <= k < |s| :: !f(s[k])
        else i < |s| && f(s[i]) && forall k | 0 <= k < i :: !f(s[k])
    {
      hide PowerOfTwo, Vacant, And;
      i := 0;
      while i < count
        invariant 0 <= i <= count && forall k | 0 <= k < i :: !f(Contents()[k])
      {
        if f(buf[Slot(i)]) {
          return;
        }
        i := i + 1;
      }
      return -1;
    }

    // ---------- where the invariant can break ----------

    /** Replace the elements by those of a slice.  The deque is valid afterwards exactly when the
        slice does not fill the buffer to the brim. */
    method CopyInSlice(input: seq<T>)
      requires Valid()
      modifies this, buf
      ensures buf == old(buf) || fresh(buf)
      ensures count == tail == |input| <= buf.Length && head == 0 && buf[..count] == input
      ensures var c := old(buf.Length);
        buf.Length == if |input| <= c then c else DoubleTo(if c == 0 then MIN_CAPACITY else c, |input|)
      ensures Valid() <==> (input == [] || |input| < buf.Length)
      ensures Valid() ==> Contents() == input
      ensures !Valid() ==> Brimful()
    {
      if buf.Length < |input| {
        var newCap := buf.Length;
        if newCap == 0 {
          newCap := MIN_CAPACITY;
          minCap := MIN_CAPACITY;
        }
        ghost var c0 := newCap;
        DoubleToPower(c0, |input|);
        while newCap < |input|
          invariant newCap >= c0 && DoubleTo(newCap, |input|) == DoubleTo(c0, |input|)
          decreases |input| - newCap
        {
          newCap := 2 * newCap;
        }
        var z := zero;
        buf := new T[newCap](_ => z);
      } else if buf.Length > |input| {
        Clear();
      }
      Fill(input);
      count := |input|;
      tail := |input|;
      head := 0;
      if |input| < buf.Length {
        FromStart(buf[..], input, zero);
      }
    }

    /** What shrinkToFit leaves of a deque with contents `s` and capacity `c`: it is valid exactly when
        nothing had to be done or the elements do not fill the new buffer. */
    ghost predicate LeftAfter(s: seq<T>, c: int)
      reads this, buf
    {
      && (Valid() <==> s == [] || c <= minCap || 4 * |s| > c || (minCap > 0 && |s| < DoubleTo(minCap, |s|)))
      && if Valid() then Contents() == s else Brimful() && buf[..] == s
    }

    /** Give back memory after many pops.  `ends` is false when the doubling loop would not come to an end,
        which takes a base capacity of zero and some elements left. */
    method ShrinkToFit() returns (ends: bool)
      requires Valid()
      modifies this`buf, this`head, this`tail, this`copied
      ensures ends == !old(LoopsForever())
      ensures !ends ==> Valid() && Contents() == old(Contents()) && buf == old(buf)
      ensures ends ==> LeftAfter(old(Contents()), old(buf.Length)) && (buf == old(buf) || fresh(buf))
      ensures ends ==> (buf == old(buf) <==> old(buf.Length) <= minCap || 4 * count > old(buf.Length))
      ensures ends && buf != old(buf) ==> buf.Length == if count == 0 then minCap else DoubleTo(minCap, count)
    {
      ends := true;
      if buf.Length > minCap && 4 * count <= buf.Length {
        if count == 0 {
          head := 0;
          tail := 0;
          var z := zero;
          buf := new T[minCap](_ => z);
          return;
        }
        var c := minCap;
        if c == 0 {
          return false;
        }
        DoubleToPower(minCap, count);
        while c < count
          invariant c >= minCap && DoubleTo(c, count) == DoubleTo(minCap, count)
          decreases count - c
        {
          c := 2 * c;
        }
        ResizeTo(c);
      }
    }

    /** The doubling loop starts from zero and has somewhere to go (see DoublingReaches). */
    ghost predicate LoopsForever()
      reads this, buf
    {
      minCap == 0 && 0 < 4 * count <= buf.Length
    }

    /** The loop of the iterator from the front. */
    method TakeFrontWhile(goOn: T -> bool) returns (taken: seq<T>)
      requires Valid()
      modifies this`head, this`count, buf
      ensures var s := old(Contents()); var k := Taken(s, goOn);
        Valid() && taken == s[..k] && Contents() == s[k..]
    {
      hide *;
      Facts();
      NoneTaken(goOn);
      ghost var s := Contents();
      taken := [];
      var on := true;
      assert s[..0] == [] && s[0..] == s && s[|s|..] == [];
      while count != 0 && on
        invariant Valid() && 0 <= count <= |s|
        invariant taken == s[..|s| - count] && Contents() == s[|s| - count..]
        invariant Taken(s, goOn) == |s| - count + if on then Taken(s[|s| - count..], goOn) else 0
        decreases count
      {
        NextTaken(s, |s| - count, goOn);
        var x := TakeFront();
        taken := taken + [x];
        on := goOn(x);
      }
    }

    /** The loop of the iterator from the back. */
    method TakeBackWhile(goOn: T -> bool) returns (taken: seq<T>)
      requires Valid()
      modifies this`tail, this`count, buf
      ensures var s := old(Contents()); var k := Taken(Backwards(s), goOn);
        Valid() && taken == Backwards(s)[..k] && Contents() == s[..|s| - k]
    {
      hide *;
      ghost var s := Contents();
      BackedStart(s, goOn);
      taken := [];
      Facts();
      var on := true;
      while count != 0 && on
        invariant Valid() && |Contents()| == count && Backed(s, goOn, taken, Contents(), on)
        decreases count
      {
        BackedNext(s, goOn, taken, Contents());
        var x := TakeBack();
        Facts();
        taken := taken + [x];
        on := goOn(x);
      }
      BackedEnd(s, goOn, taken, Contents(), on);
    }

    /** The iterator that pops from the front: it resizes once, when the iteration ends.  `goOn` is what
        the caller's function answers. */
    method IterPopFront(goOn: T -> bool) returns (taken: seq<T>, ends: bool)
      requires Valid()
      modifies this, buf
      ensures var s := old(Contents()); var k := Taken(s, goOn);
        && taken == s[..k] && ends == !(old(minCap) == 0 && 0 < 4 * (|s| - k) <= old(buf.Length))
        && minCap == old(minCap) && (ends ==> LeftAfter(s[k..], old(buf.Length)))
    {
      hide Valid, Contents, Taken, LeftAfter;
      Facts();
      if Len() == 0 {
        NothingLeft(goOn);
        return [], true;
      }
      taken := TakeFrontWhile(goOn);
      Facts();
      ends := ShrinkToFit();
    }

    /** The same from the back. */
    method IterPopBack(goOn: T -> bool) returns (taken: seq<T>, ends: bool)
      requires Valid()
      modifies this, buf
      ensures var s := old(Contents()); var k := Taken(Backwards(s), goOn);
        && taken == Backwards(s)[..k] && ends == !(old(minCap) == 0 && 0 < 4 * (|s| - k) <= old(buf.Length))
        && minCap == old(minCap) && (ends ==> LeftAfter(s[..|s| - k], old(buf.Length)))
    {
      hide Valid, Contents, Taken, LeftAfter;
      Facts();
      if Len() == 0 {
        NothingLeft(goOn);
        assert Backwards(Contents()) == [];
        return [], true;
      }
      taken := TakeBackWhile(goOn);
      Facts();
      ends := ShrinkToFit();
    }

    lemma NothingLeft(goOn: T -> bool)
      requires Valid() && count == 0
      ensures LeftAfter([], buf.Length) && Contents() == [] && Taken([], goOn) == 0
    {
    }

    lemma NoneTaken(goOn: T -> bool)
      requires Valid()
      ensures |Contents()| == count && Taken<T>([], goOn) == 0
    {
    }

    method Fill(input: seq<T>)
      requires |input| <= buf.Length
      modifies buf
      ensures buf[..|input|] == input
      ensures forall i | |input| <= i < buf.Length :: buf[i] == old(buf[i])
    {
      for i := 0 to |input|
        invariant buf[..i] == input[..i]
        invariant forall k | i <= k < buf.Length :: buf[k] == old(buf[k])
      {
        buf[i] := input[i];
      }
      assert input[..|input|] == input;
    }
  }

  // ---------- the failures can be reached ----------

  /** Two elements pushed after Grow, one of them popped by the iterator: its resize does not end. */
  method EndlessShrink() returns (d: Deque<int>, ends: bool)
    ensures fresh(d) && !ends && d.minCap == 0
  {
    d := new Deque<int>(0);
    var _ := d.Grow(100);
    assert DoubleTo(8, 100) == 128;
    d.PushBack(1);
    d.PushBack(2);
    var taken;
    taken, ends := d.IterPopFront(x => false);
  }

  /** Eight elements copied into a fresh deque, then one step of rotation. */
  method BrimfulByCopy() returns (d: Deque<int>, ok: bool)
    ensures fresh(d) && !ok
  {
    d := new Deque<int>(0);
    d.CopyInSlice([1, 2, 3, 4, 5, 6, 7, 8]);
    assert d.Brimful();
    ok := d.Rotate(1);
  }

  /** The same, one step backwards: the last element is lost. */
  method LostByCopy() returns (d: Deque<int>, ok: bool)
    ensures fresh(d) && ok && d.count == 8 && d.buf[..] == [1, 2, 3, 4, 5, 6, 7, 0]
  {
    d := new Deque<int>(0);
    d.CopyInSlice([1, 2, 3, 4, 5, 6, 7, 8]);
    assert d.Brimful();
    ok := d.Rotate(-1);
  }

  method SeventeenPushed() returns (d: Deque<int>)
    ensures fresh(d) && fresh(d.buf) && d.Valid() && d.Contents() == seq(17, i => i)
    ensures d.minCap == 8 && d.buf.Length == 32
  {
    d := new Deque<int>(0);
    for i := 0 to 17
      invariant d.Valid() && fresh(d) && fresh(d.buf) && |d.Contents()| == i == d.count
      invariant forall k | 0 <= k < i :: d.Contents()[k] == k
      invariant d.minCap == (if i == 0 then 0 else 8)
      invariant d.buf.Length == if i == 0 then 0 else if i <= 8 then 8 else if i <= 16 then 16 else 32
    {
      d.PushBack(i);
    }
  }

  lemma TakenIs<T>(s: seq<T>, goOn: T -> bool, k: nat)
    requires 0 < k < |s| && !goOn(s[k - 1]) && forall i | 0 <= i < k - 1 :: goOn(s[i])
    ensures Taken(s, goOn) == k
  {
  }

  /** Seventeen pushes and an iteration that leaves eight elements: the smaller buffer is full. */
  method BrimfulByShrink() returns (d: Deque<int>)
    ensures fresh(d) && d.Brimful() && d.buf[..] == [9, 10, 11, 12, 13, 14, 15, 16]
  {
    d := SeventeenPushed();
    ghost var s := d.Contents();
    var goOn := (x: int) => x < 8;
    TakenIs(s, goOn, 9);
    var taken, ends := d.IterPopFront(goOn);
    assert s[9..] == [9, 10, 11, 12, 13, 14, 15, 16];
    assert DoubleTo(8, 8) == 8;
  }

  lemma RotatedByRem<T>(s: seq<T>, n: int)
    ensures |s| <= 1 ==> Rotated(s, n) == s
    ensures |s| > 1 ==> var r := Rem(n, |s|);
      -|s| < r < |s| && Rotated(s, n) == Rot(s, if r < 0 then r + |s| else r)
    ensures Rot(s, 0) == s && Rot(s, |s|) == s
  {
    RotEnds(s);
    if |s| > 1 {
      RemIsMod(n, |s|);
    }
  }

  /** The i-th element is the one that was n places further on, around the end; n may be negative. */
  lemma RotatedAt<T>(s: seq<T>, n: int, i: nat)
    requires i < |s|
    ensures |Rotated(s, n)| == |s| && Rotated(s, n)[i] == s[(i + n) % |s|]
  {
    FurtherOn(i, n, |s|);
  }

  lemma FurtherOn(i: nat, n: int, d: nat)
    requires i < d
    ensures var k := n % d; (i + n) % d == if i + k < d then i + k else i + k - d
  {
    var q, k := n / d, n % d;
    assert n == d * q + k;
    if i + k < d {
      ModOfSum(d, q, i + k);
    } else {
      assert d * (q + 1) == d * q + d;
      ModOfSum(d, q + 1, i + k - d);
    }
  }

  lemma RemIsMod(n: int, d: int)
    requires d > 0
    ensures -d < Rem(n, d) < d
    ensures n % d == if Rem(n, d) < 0 then Rem(n, d) + d else Rem(n, d)
  {
    if n < 0 {
      var q, r := (-n) / d, (-n) % d;
      assert -n == d * q + r;
      if r == 0 {
        assert n == d * -q + 0;
        ModOfSum(d, -q, 0);
      } else {
        assert n == d * (-q - 1) + (d - r) by {
          assert d * (-q - 1) == -(d * q) - d;
        }
        ModOfSum(d, -q - 1, d - r);
      }
    }
  }
}
