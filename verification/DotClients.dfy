/** One exchange of the DNS-over-TLS client running alone, on the ring-buffer deque that holds its old
    connections. */
module DotClients {
  import opened Common
  import opened DequeCost
  import opened RingValues
  import Deques
  import opened DotPool

  /** How an exchange answers on a connection; what a dial gives. */
  type Works = nat -> bool

  /** The number of connections at the back of the pool on which the exchange fails. */
  function Failing(pool: seq<nat>, works: Works): (k: nat)
    ensures k <= |pool|
    ensures forall i | |pool| - k <= i < |pool| :: !works(pool[i])
    ensures k < |pool| ==> works(pool[|pool| - 1 - k])
  {
    if pool == [] || works(pool[|pool| - 1]) then 0 else 1 + Failing(pool[..|pool| - 1], works)
  }

  /** What a lone exchange with reuse leaves in the pool: the connections that failed are gone from the
      back; if all did and dialing works, the pool holds the new connection. */
  function PoolLeft(pool: seq<nat>, works: Works, dial: Option<nat>): seq<nat> {
    var k := Failing(pool, works);
    if k < |pool| then pool[..|pool| - k]
    else if dial.Some? && works(dial.value) then [dial.value]
    else []
  }

  predicate Succeeds(pool: seq<nat>, works: Works, dial: Option<nat>) {
    Failing(pool, works) < |pool| || (dial.Some? && works(dial.value))
  }

  function Reversed(s: seq<nat>): seq<nat> {
    if s == [] then [] else [s[|s| - 1]] + Reversed(s[..|s| - 1])
  }

  lemma {:induction false} ReversedAt(s: seq<nat>, i: nat)
    ensures |Reversed(s)| == |s| && (i < |s| ==> Reversed(s)[i] == s[|s| - 1 - i])
  {
    if s != [] {
      ReversedAt(s[..|s| - 1], if i > 0 then i - 1 else 0);
    }
  }

  /** What a lone exchange comes to: the newest pooled connection that works is used and kept with all older
      ones; if none does, the dialed connection is pooled if it works, and else none is left. */
  lemma LoneExchange(pool: seq<nat>, works: Works, dial: Option<nat>)
    ensures forall i | 0 <= i < |pool| && works(pool[i]) && (forall j | i < j < |pool| :: !works(pool[j])) ::
      Succeeds(pool, works, dial) && PoolLeft(pool, works, dial) == pool[..i + 1]
    ensures (forall i | 0 <= i < |pool| :: !works(pool[i])) ==>
      if dial.Some? && works(dial.value) then Succeeds(pool, works, dial) && PoolLeft(pool, works, dial) == [dial.value]
      else !Succeeds(pool, works, dial) && PoolLeft(pool, works, dial) == []
  {
    hide Failing;
    var k := Failing(pool, works);
    if k < |pool| {
      assert works(pool[|pool| - 1 - k]);
    }
  }

  lemma {:induction false} ReversedFront(x: nat, s: seq<nat>)
    ensures Reversed([x] + s) == Reversed(s) + [x]
  {
    if s == [] {
      assert [x] + s == [x];
    } else {
      ReversedFront(x, s[..|s| - 1]);
      assert ([x] + s)[..|s|] == [x] + s[..|s| - 1];
    }
  }

  lemma NoneTried(works: Works)
    ensures Failing([], works) == 0 && Reversed([]) == []
  {
  }

  /** With n connections left in the pool, the last of them is tried. */
  lemma NextTry(s: seq<nat>, n: nat, works: Works)
    requires 0 < n <= |s|
    ensures s[..n][..n - 1] == s[..n - 1] && s[..n] == s[..n - 1] + [s[n - 1]] && s[..n][n - 1] == s[n - 1]
    ensures works(s[n - 1]) ==> Failing(s[..n], works) == 0
    ensures !works(s[n - 1]) ==> Failing(s[..n], works) == 1 + Failing(s[..n - 1], works)
    ensures Reversed(s[n - 1..]) == Reversed(s[n..]) + [s[n - 1]]
  {
    assert s[..n][..n - 1] == s[..n - 1];
    ReversedFront(s[n - 1], s[n..]);
    assert s[n - 1..] == [s[n - 1]] + s[n..];
  }

  class DotClient {
    const disableReuse: bool
    var connections: Deques.Deque<nat>

    ghost predicate Valid()
      reads this, connections, connections.buf
    {
      connections.Valid() && |connections.Contents()| <= MAX_OLD_CONNS
    }

    constructor (disableReuse: bool)
      ensures Valid() && connections.Contents() == [] && this.disableReuse == disableReuse
      ensures fresh(connections) && fresh(connections.buf)
    {
      this.disableReuse := disableReuse;
      var q := new Deques.Deque<nat>(0);
      q.SetBaseCap(MAX_OLD_CONNS);
      connections := q;
    }

    /** The lines that give a connection back: close the oldest when the pool is full. */
    method Keep(conn: nat) returns (closed: seq<nat>)
      requires Valid()
      modifies connections, connections.buf
      ensures Valid() && (connections.buf == old(connections.buf) || fresh(connections.buf))
      ensures var s := old(connections.Contents());
        if |s| >= MAX_OLD_CONNS then closed == [s[0]] && connections.Contents() == s[1..] + [conn]
        else closed == [] && connections.Contents() == s + [conn]
    {
      closed := [];
      if connections.Len() >= MAX_OLD_CONNS {
        var oldest := connections.PopFront();
        closed := [oldest.value];
      }
      connections.PushBack(conn);
    }

    /** The retry loop.  It ends after at most one try per pooled connection and one dial; `tries` is
        the number of exchanges attempted on old connections. */
    method Exchange(works: Works, dial: Option<nat>) returns (ok: bool, closed: seq<nat>, ghost tries: nat)
      requires Valid()
      modifies connections, connections.buf
      ensures Valid() && (connections.buf == old(connections.buf) || fresh(connections.buf))
      ensures !disableReuse ==> var s := old(connections.Contents());
        && ok == Succeeds(s, works, dial) && connections.Contents() == PoolLeft(s, works, dial)
        && tries == (if Failing(s, works) < |s| then Failing(s, works) + 1 else |s|)
        && closed == Reversed(s[|s| - Failing(s, works)..])
             + (if Failing(s, works) == |s| && dial.Some? && !works(dial.value) then [dial.value] else [])
      ensures disableReuse ==>
        && connections.Contents() == old(connections.Contents()) && tries == 0
        && ok == (dial.Some? && works(dial.value)) && closed == if dial.Some? then [dial.value] else []
    {
      hide Reversed, Ring, Vacant, PushShape, PopShape;
      ghost var s := connections.Contents();
      closed, tries := [], 0;
      if !disableReuse {
        ok, closed, tries := TryPool(works);
        if ok {
          return;
        }
      }
      if dial.None? {
        ok := false;
        assert closed + [] == closed;
        return;
      }
      var conn := dial.value;
      if !works(conn) {
        closed := closed + [conn];
        ok := false;
        return;
      }
      ok := true;
      if !disableReuse {
        var more := Keep(conn);
        assert closed + [] == closed;
      } else {
        closed := [conn];
      }
    }

    /** The rounds of the loop that find a pooled connection. */
    method TryPool(works: Works) returns (ok: bool, closed: seq<nat>, ghost tries: nat)
      requires Valid()
      modifies connections, connections.buf
      ensures Valid() && (connections.buf == old(connections.buf) || fresh(connections.buf))
      ensures var s := old(connections.Contents()); var k := Failing(s, works);
        && ok == (k < |s|) && connections.Contents() == s[..|s| - k] && closed == Reversed(s[|s| - k..])
        && tries == if ok then k + 1 else |s|
    {
      hide Failing, Reversed, Ring, Vacant, PushShape, PopShape;
      ghost var s := connections.Contents();
      ghost var n := |s|;
      closed := [];
      assert s[..n] == s && s[n..] == [];
      NoneTried(works);
      while connections.Len() > 0
        invariant Valid() && (connections.buf == old(connections.buf) || fresh(connections.buf))
        invariant 0 <= n <= |s| && connections.Contents() == s[..n] && closed == Reversed(s[n..])
        invariant Failing(s, works) == |s| - n + Failing(s[..n], works)
        decreases n
      {
        NextTry(s, n, works);
        var conn;
        conn, ok := TryOne(works);
        if ok {
          tries := |s| - n + 1;
          return;
        }
        n := n - 1;
        closed := closed + [conn];
      }
      ok, tries := false, |s|;
    }

    /** One round: take the newest connection, and give it back if the exchange works on it. */
    method TryOne(works: Works) returns (conn: nat, ok: bool)
      requires Valid() && connections.Contents() != []
      modifies connections, connections.buf
      ensures Valid() && (connections.buf == old(connections.buf) || fresh(connections.buf))
      ensures var s := old(connections.Contents()); var n := |s|;
        && conn == s[n - 1] && ok == works(conn) && connections.Contents() == if ok then s else s[..n - 1]
    {
      hide Ring, Vacant, PushShape, PopShape;
      ghost var s := connections.Contents();
      var r := connections.PopBack();
      conn := r.value;
      ok := works(conn);
      if ok {
        var _ := Keep(conn);
        assert s[..|s| - 1] + [conn] == s;
      }
    }

    method ResetConnection() returns (closed: seq<nat>)
      requires Valid()
      modifies connections, connections.buf
      ensures Valid() && (connections.buf == old(connections.buf) || fresh(connections.buf))
      ensures if disableReuse then connections.Contents() == old(connections.Contents()) && closed == []
              else connections.Contents() == [] && closed == old(connections.Contents())
    {
      closed := [];
      if disableReuse {
        return;
      }
      hide Ring, Vacant, PushShape, PopShape;
      ghost var s := connections.Contents();
      while connections.Len() > 0
        invariant Valid() && (connections.buf == old(connections.buf) || fresh(connections.buf))
        invariant closed + connections.Contents() == s
        decreases |connections.Contents()|
      {
        var conn := connections.PopFront();
        closed := closed + [conn.value];
      }
    }
  }
}
