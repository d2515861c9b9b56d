/** Facts about a ring buffer as a value: the slots, where the first element is, and how many. */
module RingValues {
  import opened BitMask

  /** The elements, front to back. */
  function Ring<T>(buf: seq<T>, head: int, count: nat): (r: seq<T>)
    requires 0 <= head && count <= |buf| && (count > 0 ==> head < |buf|)
    ensures |r| == count && forall k | 0 <= k < count :: r[k] == buf[Turn(head + k, |buf|)]
  {
    seq(count, k requires 0 <= k < count => buf[Turn(head + k, |buf|)])
  }

  ghost predicate Occupied(head: int, count: int, cap: int, i: int) {
    head <= i < head + count || head <= i + cap < head + count
  }

  ghost predicate Vacant<T>(buf: seq<T>, head: int, count: int, zero: T) {
    forall i | 0 <= i < |buf| && !Occupied(head, count, |buf|, i) :: buf[i] == zero
  }

  lemma AddBack<T>(buf: seq<T>, head: int, count: nat, x: T, zero: T)
    requires 0 <= head < |buf| && count < |buf| && Vacant(buf, head, count, zero)
    ensures var t := Turn(head + count, |buf|);
      && Ring(buf[t := x], head, count + 1) == Ring(buf, head, count) + [x]
      && Vacant(buf[t := x], head, count + 1, zero)
  {
    var t := Turn(head + count, |buf|);
    var r := Ring(buf[t := x], head, count + 1);
    assert forall k | 0 <= k < count :: r[k] == Ring(buf, head, count)[k];
  }

  lemma AddFront<T>(buf: seq<T>, head: int, count: nat, x: T, zero: T)
    requires 0 <= head < |buf| && count < |buf| && Vacant(buf, head, count, zero)
    ensures var h := Turn(head - 1, |buf|);
      && Ring(buf[h := x], h, count + 1) == [x] + Ring(buf, head, count)
      && Vacant(buf[h := x], h, count + 1, zero)
  {
    var h := Turn(head - 1, |buf|);
    var r := Ring(buf[h := x], h, count + 1);
    assert forall k | 0 < k <= count :: r[k] == Ring(buf, head, count)[k - 1];
  }

  lemma DropFront<T>(buf: seq<T>, head: int, count: nat, zero: T)
    requires 0 <= head < |buf| && 0 < count <= |buf| && Vacant(buf, head, count, zero)
    ensures Ring(buf, head, count)[0] == buf[head]
    ensures var h := Turn(head + 1, |buf|);
      && Ring(buf[head := zero], h, count - 1) == Ring(buf, head, count)[1..]
      && Vacant(buf[head := zero], h, count - 1, zero)
  {
    var h := Turn(head + 1, |buf|);
    var r := Ring(buf[head := zero], h, count - 1);
    assert forall k | 0 <= k < count - 1 :: r[k] == Ring(buf, head, count)[k + 1];
  }

  lemma DropBack<T>(buf: seq<T>, head: int, count: nat, zero: T)
    requires 0 <= head < |buf| && 0 < count <= |buf| && Vacant(buf, head, count, zero)
    ensures var t := Turn(head + count - 1, |buf|);
      && Ring(buf, head, count)[count - 1] == buf[t]
      && Ring(buf[t := zero], head, count - 1) == Ring(buf, head, count)[..count - 1]
      && Vacant(buf[t := zero], head, count - 1, zero)
  {
    var t := Turn(head + count - 1, |buf|);
    var r := Ring(buf[t := zero], head, count - 1);
    assert forall k | 0 <= k < count - 1 :: r[k] == Ring(buf, head, count)[k];
  }

  lemma SwapSlots<T>(buf: seq<T>, head: int, count: nat, i: nat, j: nat, zero: T)
    requires 0 <= head < |buf| && count <= |buf| && i < count && j < count && Vacant(buf, head, count, zero)
    ensures var a, b := Turn(head + i, |buf|), Turn(head + j, |buf|);
      var s := Ring(buf, head, count);
      && Ring(buf[a := buf[b]][b := buf[a]], head, count) == s[i := s[j]][j := s[i]]
      && Vacant(buf[a := buf[b]][b := buf[a]], head, count, zero)
  {
    var a, b := Turn(head + i, |buf|), Turn(head + j, |buf|);
    var s := Ring(buf, head, count);
    var r := Ring(buf[a := buf[b]][b := buf[a]], head, count);
    assert forall k | 0 <= k < count :: r[k] == s[i := s[j]][j := s[i]][k];
  }

  /** The two slices that `resize` copies. */
  lemma Slices<T>(buf: seq<T>, head: int, count: nat, tail: int)
    requires 0 <= head < |buf| && 0 < count <= |buf| && tail == Turn(head + count, |buf|)
    ensures Ring(buf, head, count) == if tail > head then buf[head..tail] else buf[head..] + buf[..tail]
  {
    var s := Ring(buf, head, count);
    var r := if tail > head then buf[head..tail] else buf[head..] + buf[..tail];
    assert forall k | 0 <= k < count :: s[k] == r[k];
  }

  /** Elements at the start of a buffer, zero values after them. */
  lemma FromStart<T>(buf: seq<T>, s: seq<T>, zero: T)
    requires |s| <= |buf| && buf[..|s|] == s && forall i | |s| <= i < |buf| :: buf[i] == zero
    ensures Ring(buf, 0, |s|) == s && Vacant(buf, 0, |s|, zero)
  {
    assert forall k | 0 <= k < |s| :: Ring(buf, 0, |s|)[k] == buf[..|s|][k];
  }

  // ---------- sequences ----------

  /** The last k elements replaced by the zero value. */
  function Wiped<T>(s: seq<T>, k: nat, zero: T): (r: seq<T>)
    requires k <= |s|
    ensures |r| == |s| && forall i | 0 <= i < |s| :: r[i] == if i < |s| - k then s[i] else zero
  {
    s[..|s| - k] + seq(k, _ => zero)
  }

  function Swapped<T>(s: seq<T>, i: nat, j: nat): seq<T>
    requires i < |s| && j < |s|
  {
    s[i := s[j]][j := s[i]]
  }

  function Inserted<T>(s: seq<T>, at: nat, x: T): (r: seq<T>)
    requires at <= |s|
    ensures |r| == |s| + 1
  {
    s[..at] + [x] + s[at..]
  }

  lemma InsertedMoves<T>(s: seq<T>, at: nat, x: T)
    requires at < |s|
    ensures Swapped(Inserted(s, at, x), at, at + 1) == Inserted(s, at + 1, x)
    ensures Swapped(Inserted(s, at + 1, x), at, at + 1) == Inserted(s, at, x)
    ensures Swapped(Inserted(s, at + 1, x), at + 1, at) == Inserted(s, at, x)
  {
  }

  function Removed<T>(s: seq<T>, at: nat): seq<T>
    requires at < |s|
  {
    s[..at] + s[at + 1..]
  }

  /** What inserting, removing and exchanging do to each place. */
  lemma PlaceByPlace<T>(s: seq<T>, at: nat, x: T, i: nat, j: nat)
    requires at <= |s| && i < |s| && j < |s|
    ensures Inserted(s, at, x)[at] == x && Inserted(s, at, x)[if i < at then i else i + 1] == s[i]
    ensures at < |s| && i != at ==>
      |Removed(s, at)| == |s| - 1 && Removed(s, at)[if i < at then i else i - 1] == s[i]
    ensures |Swapped(s, i, j)| == |s| && Swapped(s, i, j)[i] == s[j] && Swapped(s, i, j)[j] == s[i]
    ensures at < |s| && at != i && at != j ==> Swapped(s, i, j)[at] == s[at]
  {
  }

  lemma RemovedThenInserted<T>(s: seq<T>, at: nat)
    requires at < |s|
    ensures Inserted(Removed(s, at), at, s[at]) == s
  {
  }

  /** The first k elements go to the back. */
  function Rot<T>(s: seq<T>, k: nat): seq<T>
    requires k <= |s|
  {
    s[k..] + s[..k]
  }

  lemma RotEnds<T>(s: seq<T>)
    ensures Rot(s, 0) == s && Rot(s, |s|) == s
  {
  }

  lemma RotNext<T>(s: seq<T>, k: nat)
    requires k < |s|
    ensures Rot(s, k)[1..] + [Rot(s, k)[0]] == Rot(s, k + 1)
    ensures [Rot(s, k + 1)[|s| - 1]] + Rot(s, k + 1)[..|s| - 1] == Rot(s, k)
  {
    assert Rot(s, k) == [s[k]] + (s[k + 1..] + s[..k]);
    assert Rot(s, k + 1) == (s[k + 1..] + s[..k]) + [s[k]];
  }

  /** One step of Rotate on a buffer that is not full, front to back. */
  lemma FrontToBack<T>(buf: seq<T>, head: int, count: nat, zero: T)
    requires 0 <= head < |buf| && 0 < count < |buf| && Vacant(buf, head, count, zero)
    ensures var t, h, s := Turn(head + count, |buf|), Turn(head + 1, |buf|), Ring(buf, head, count);
      var r := buf[t := buf[head]][head := zero];
      Ring(r, h, count) == s[1..] + [s[0]] && Vacant(r, h, count, zero)
  {
    var t, h := Turn(head + count, |buf|), Turn(head + 1, |buf|);
    DropFront(buf, head, count, zero);
    AddBack(buf[head := zero], h, count - 1, buf[head], zero);
    assert buf[head := zero][t := buf[head]] == buf[t := buf[head]][head := zero];
  }

  /** One step of Rotate on a buffer that is not full, back to front. */
  lemma BackToFront<T>(buf: seq<T>, head: int, count: nat, zero: T)
    requires 0 <= head < |buf| && 0 < count < |buf| && Vacant(buf, head, count, zero)
    ensures var t, h, s := Turn(head + count - 1, |buf|), Turn(head - 1, |buf|), Ring(buf, head, count);
      var r := buf[h := buf[t]][t := zero];
      Ring(r, h, count) == [s[count - 1]] + s[..count - 1] && Vacant(r, h, count, zero)
  {
    var t, h := Turn(head + count - 1, |buf|), Turn(head - 1, |buf|);
    DropBack(buf, head, count, zero);
    AddFront(buf[t := zero], head, count - 1, buf[t], zero);
    assert buf[t := zero][h := buf[t]] == buf[h := buf[t]][t := zero];
  }

  /** On a full buffer only the start moves. */
  lemma FullTurn<T>(buf: seq<T>, head: int, k: nat)
    requires 0 <= head < |buf| && k <= |buf|
    ensures Ring(buf, Turn(head + k, |buf|), |buf|) == Rot(Ring(buf, head, |buf|), k)
  {
    var r := Ring(buf, Turn(head + k, |buf|), |buf|);
    assert forall i | 0 <= i < |buf| :: r[i] == Rot(Ring(buf, head, |buf|), k)[i];
  }

}
