/** TTLs of cached DNS messages: what is stored, and what a hit hands out. */
module DnsTtl {
  import opened Common

  type uint32 = x: int | 0 <= x < 0x1_0000_0000

  function Wrap(x: int): uint32 { x % 0x1_0000_0000 }

  const SERVER_FAILURE_CACHE_TTL: uint32 := 5
  const TYPE_TXT := 16
  const NANOS_PER_SECOND := 1_000_000_000

  /** A resource record; of its type only OPT matters. */
  datatype RR = RR(isOpt: bool, ttl: uint32)

  /** The contents of a message. */
  datatype Message = Message(answer: seq<RR>, ns: seq<RR>, extra: seq<RR>, serverFailure: bool)

  datatype Question = Question(name: string, qtype: nat, qclass: nat)

  /** A message as the program holds it: the records are shared by all who hold the message. */
  datatype Msg = Msg(answer: array<RR>, ns: array<RR>, extra: array<RR>, serverFailure: bool) {
    ghost function Arrays(): set<array<RR>> { {answer, ns, extra} }

    ghost predicate Separate() { answer != ns && answer != extra && ns != extra }

    ghost function Value(): Message
      reads answer, ns, extra
    {
      Message(answer[..], ns[..], extra[..], serverFailure)
    }
  }

  // ---------- arithmetic of one record ----------

  function Clamp(value: uint32, low: uint32, high: uint32): uint32 {
    if value < low then low else if value > high then high else value
  }

  function Max(a: int, b: int): int { if a < b then b else a }

  /** The new TTL of a record of TTL `t` in a section of least TTL `least`, with `r` seconds left. */
  function NewTTL(t: uint32, least: uint32, r: uint32): uint32 {
    Clamp(Wrap(t as int - Wrap(least as int - r as int) as int), 1, t)
  }

  lemma WrapOnce(x: int)
    requires -0x1_0000_0000 <= x < 0x2_0000_0000
    ensures Wrap(x) == if x < 0 then x + 0x1_0000_0000 else if x < 0x1_0000_0000 then x else x - 0x1_0000_0000
  {
  }

  /** All cases of the wrapping subtraction.  With no more seconds left than the section's least TTL the
      record ages; with more it stays, unless the sum passes 32 bits. */
  lemma NewTTLCases(t: uint32, least: uint32, r: uint32)
    requires least <= t
    ensures r <= least ==> NewTTL(t, least, r) == Max(1, t as int - (least as int - r as int))
    ensures r > least && t as int + (r as int - least as int) < 0x1_0000_0000 ==> NewTTL(t, least, r) == t
    ensures r > least && t as int + (r as int - least as int) >= 0x1_0000_0000 ==>
      NewTTL(t, least, r) == Max(1, t as int + (r as int - least as int) - 0x1_0000_0000)
  {
    hide Wrap;
    WrapOnce(least as int - r as int);
    WrapOnce(t as int - Wrap(least as int - r as int) as int);
  }

  /** A TTL is raised in one case only: from 0 to 1, in the last second. */
  lemma RaisedIff(t: uint32, least: uint32, r: uint32)
    requires least <= t
    ensures NewTTL(t, least, r) > t <==> t == 0 && r == 0
  {
    NewTTLCases(t, least, r);
  }

  // ---------- sections ----------

  function MinTTL(s: seq<RR>): (m: uint32)
    ensures s == [] ==> m == 0
    ensures s != [] ==> (forall i | 0 <= i < |s| :: m <= s[i].ttl) && exists i | 0 <= i < |s| :: s[i].ttl == m
  {
    if s == [] then 0
    else if |s| == 1 then s[0].ttl
    else
      var m := MinTTL(s[..|s| - 1]);
      if s[|s| - 1].ttl < m then s[|s| - 1].ttl else m
  }

  lemma MinTTLIs(s: seq<RR>, m: uint32, i: nat)
    requires i < |s| && s[i].ttl == m && forall j | 0 <= j < |s| :: m <= s[j].ttl
    ensures MinTTL(s) == m
  {
  }

  ghost predicate UpdatedTo(s: seq<RR>, r: uint32, u: seq<RR>) {
    |u| == |s| && forall i | 0 <= i < |s| :: u[i] == s[i].(ttl := NewTTL(s[i].ttl, MinTTL(s), r))
  }

  function Updated(s: seq<RR>, r: uint32): (u: seq<RR>)
    ensures UpdatedTo(s, r, u)
  {
    seq(|s|, i requires 0 <= i < |s| => s[i].(ttl := NewTTL(s[i].ttl, MinTTL(s), r)))
  }

  /** With no more seconds left than its least TTL, a section comes out with the seconds left as its
      least TTL, or 1, and its records keep their distances but for the clamp. */
  lemma SectionAges(s: seq<RR>, r: uint32)
    requires s != [] && r <= MinTTL(s)
    ensures MinTTL(Updated(s, r)) == Max(1, r)
    ensures forall i | 0 <= i < |s| ::
      Updated(s, r)[i].ttl == Max(1, r as int + (s[i].ttl as int - MinTTL(s) as int))
  {
    hide NewTTL, MinTTL;
    var u, m := Updated(s, r), MinTTL(s);
    forall i | 0 <= i < |s|
      ensures u[i].ttl == Max(1, r as int + (s[i].ttl as int - m as int))
    {
      NewTTLCases(s[i].ttl, m, r);
    }
    var least: nat :| least < |s| && s[least].ttl == m;
    MinTTLIs(u, Max(1, r), least);
  }

  /** With more seconds left than its least TTL, a section stays as it is exactly if no record wraps; a
      record of TTL 1 that wraps to 0 is clamped back. */
  lemma SectionStays(s: seq<RR>, r: uint32)
    requires s != [] && r > MinTTL(s)
    ensures Updated(s, r) == s <==>
      forall i | 0 <= i < |s| :: s[i].ttl == 1 || s[i].ttl as int + (r as int - MinTTL(s) as int) < 0x1_0000_0000
  {
    hide NewTTL, MinTTL;
    var u, m := Updated(s, r), MinTTL(s);
    forall i | 0 <= i < |s|
      ensures u[i] == s[i] <==> s[i].ttl == 1 || s[i].ttl as int + (r as int - m as int) < 0x1_0000_0000
    {
      NewTTLCases(s[i].ttl, m, r);
    }
    if Updated(s, r) == s {
      assert forall i | 0 <= i < |s| :: u[i] == s[i];
    }
  }

  /** A section, stored with a server failure, whose second record falls from 136 years to 2 seconds. */
  lemma WrapShrinks()
    ensures var s := [RR(false, 2), RR(false, 0xFFFF_FFFF)]; Updated(s, 5)[1].ttl == 2
  {
    var s := [RR(false, 2), RR(false, 0xFFFF_FFFF)];
    MinTTLIs(s, 2, 0);
    NewTTLCases(0xFFFF_FFFF, 2, 5);
  }

  // ---------- what is stored, what a hit gives ----------

  function WithoutOpt(s: seq<RR>): (r: seq<RR>)
    ensures forall x :: x in r <==> x in s && !x.isOpt
  {
    if s == [] then []
    else WithoutOpt(s[..|s| - 1]) + (if s[|s| - 1].isOpt then [] else [s[|s| - 1]])
  }

  /** The caches keep the whole seconds of an expiry time. */
  function ToSeconds(nanos: int): int { nanos / NANOS_PER_SECOND * NANOS_PER_SECOND }

  /** A message in the cache and the time, in nanoseconds, at which it expires. */
  datatype Saved = Saved(message: Message, expire: int)

  function ToStore(m: Message): Message { m.(extra := WithoutOpt(m.extra)) }

  function StoreTTL(m: Message): uint32 {
    if m.serverFailure then SERVER_FAILURE_CACHE_TTL else MinTTL(m.answer + m.ns + m.extra)
  }

  /** The entry made of a message at a time, if any. */
  function Store(m: Message, now: int): Option<Saved> {
    var kept := ToStore(m);
    if StoreTTL(kept) == 0 then None else Some(Saved(kept, ToSeconds(now + StoreTTL(kept) as int * NANOS_PER_SECOND)))
  }

  /** It drops exactly the OPT records and keeps the others in order. */
  lemma {:induction false} WithoutOptIsOrdered(s: seq<RR>) returns (at: seq<nat>)
    ensures PickedBy(s, WithoutOpt(s), at, (i: nat) => i < |s| && !s[i].isOpt)
  {
    hide PickedBy;
    var wanted := (i: nat) => i < |s| && !s[i].isOpt;
    if s == [] {
      at := [];
      PickedNone<RR>(wanted);
    } else {
      var n := |s| - 1;
      var rest := s[..n];
      at := WithoutOptIsOrdered(rest);
      PickedSame(rest, WithoutOpt(rest), at, (i: nat) => i < |rest| && !rest[i].isOpt, wanted);
      PickedNext(s, WithoutOpt(rest), at, wanted);
      at := if wanted(n) then at + [n] else at;
    }
  }

  /** The records that decide how long a message is kept: all but the OPT records of its additional section. */
  ghost predicate Counts(m: Message, x: RR) { x in m.answer || x in m.ns || (x in m.extra && !x.isOpt) }

  ghost predicate LeastTTL(m: Message, least: uint32) {
    (exists x :: Counts(m, x) && x.ttl == least) && forall x | Counts(m, x) :: least <= x.ttl
  }

  /** `e` holds the message without those OPT records, until the last whole second of `ttl` seconds. */
  ghost predicate KeptFor(m: Message, now: int, ttl: nat, e: Saved) {
    && e.message == m.(extra := WithoutOpt(m.extra)) && e.expire % 1_000_000_000 == 0
    && now + (ttl - 1) * 1_000_000_000 < e.expire <= now + ttl * 1_000_000_000
  }

  /** A server failure is kept for 5 seconds, any other message for its least TTL, if that is not 0. */
  lemma StoreLasts(m: Message, now: int, least: uint32)
    ensures m.serverFailure ==> Store(m, now).Some? && KeptFor(m, now, 5, Store(m, now).value)
    ensures !m.serverFailure && LeastTTL(m, least) ==>
      if least == 0 then Store(m, now).None? else Store(m, now).Some? && KeptFor(m, now, least, Store(m, now).value)
    ensures !m.serverFailure && (forall x :: !Counts(m, x)) ==> Store(m, now).None?
  {
    hide MinTTL, WithoutOpt;
    var kept := ToStore(m);
    var all := kept.answer + kept.ns + kept.extra;
    assert forall x :: x in all <==> Counts(m, x);
    if !m.serverFailure {
      if all == [] {
        NoLeast(m, least);
      } else {
        var i :| 0 <= i < |all| && all[i].ttl == MinTTL(all);
        assert Counts(m, all[i]);
        assert LeastTTL(m, least) ==> MinTTL(all) == least by {
          assert forall j | 0 <= j < |all| :: Counts(m, all[j]);
        }
      }
    }
    SecondsDown(now + StoreTTL(kept) as int * NANOS_PER_SECOND);
  }

  lemma NoLeast(m: Message, least: uint32)
    ensures (forall x :: !Counts(m, x)) ==> !LeastTTL(m, least)
  {
  }

  lemma SecondsDown(nanos: int)
    ensures nanos - NANOS_PER_SECOND < ToSeconds(nanos) <= nanos && ToSeconds(nanos) % 1_000_000_000 == 0
  {
  }

  function OnesUnlessOpt(s: seq<RR>): (u: seq<RR>) {
    seq(|s|, i requires 0 <= i < |s| => if s[i].isOpt then s[i] else s[i].(ttl := 1))
  }

  function Ones(s: seq<RR>): seq<RR> {
    seq(|s|, i requires 0 <= i < |s| => s[i].(ttl := 1))
  }

  /** Whole seconds left at `now`, 0 if none. */
  function SecondsLeft(expire: int, now: int): nat {
    if now >= expire then 0 else (expire - now) / NANOS_PER_SECOND
  }

  /** What the two bounds say: the whole seconds, rounded down. */
  lemma SecondsLeftIs(expire: int, now: int)
    ensures now < expire ==>
      SecondsLeft(expire, now) * 1_000_000_000 <= expire - now < (SecondsLeft(expire, now) + 1) * 1_000_000_000
    ensures now >= expire ==> SecondsLeft(expire, now) == 0
  {
  }

  /** What a hit hands out; the clock is read twice, first for the comparison, then for the seconds. */
  function Handed(e: Saved, now: int, later: int): Message
    requires now <= later && SecondsLeft(e.expire, later) < 0x1_0000_0000
  {
    var m := e.message;
    if e.expire < now then m.(answer := Ones(m.answer), ns := Ones(m.ns), extra := OnesUnlessOpt(m.extra))
    else
      var r: uint32 := SecondsLeft(e.expire, later);
      m.(answer := Updated(m.answer, r), ns := Updated(m.ns, r), extra := Updated(m.extra, r))
  }

  function Sections(m: Message): (r: seq<seq<RR>>)
    ensures |r| == 3
  {
    [m.answer, m.ns, m.extra]
  }

  lemma SecondsFit(m: Message, stored: int, later: int)
    requires Store(m, stored).Some? && stored <= later
    ensures SecondsLeft(Store(m, stored).value.expire, later) <= StoreTTL(ToStore(m))
  {
  }

  /** Every record of a stored answer lives at least as long as the entry. */
  lemma StoredRecordsLast(m: Message, k: nat, i: nat)
    requires k < 3 && i < |Sections(m)[k]| && !m.serverFailure
    ensures StoreTTL(m) <= Sections(m)[k][i].ttl
  {
    var all := m.answer + m.ns + m.extra;
    var at := if k == 0 then i else if k == 1 then |m.answer| + i else |m.answer| + |m.ns| + i;
    assert all[at] == Sections(m)[k][i];
  }

  lemma AgedSection(e: Saved, now: int, later: int, k: nat)
    requires now <= later && now <= e.expire && SecondsLeft(e.expire, later) < 0x1_0000_0000 && k < 3
    ensures Sections(Handed(e, now, later))[k] == Updated(Sections(e.message)[k], SecondsLeft(e.expire, later))
  {
    hide Updated, SecondsLeft;
  }

  lemma StoredSectionLasts(m: Message, stored: int, k: nat)
    requires !m.serverFailure && Store(m, stored).Some? && k < 3
    ensures var s := Sections(Store(m, stored).value.message)[k];
      s != [] ==> 0 < StoreTTL(ToStore(m)) <= MinTTL(s)
  {
    hide MinTTL, WithoutOpt;
    var s := Sections(ToStore(m))[k];
    if s != [] {
      var least: nat :| least < |s| && s[least].ttl == MinTTL(s);
      StoredRecordsLast(ToStore(m), k, least);
    }
  }

  /** Main result, for an answer that is not a server failure, stored at `stored` and hit before it
      expires: with r seconds left each nonempty section has least TTL max(1, r), no record's TTL is
      raised, and distances within a section are kept but for the clamp.  No bound on the TTLs is
      needed: nothing wraps. */
  lemma HitBeforeExpiry(m: Message, stored: int, now: int, later: int, k: nat)
    requires !m.serverFailure && Store(m, stored).Some? && k < 3
    requires stored <= now <= later && now <= Store(m, stored).value.expire
    ensures var e := Store(m, stored).value;
      && SecondsLeft(e.expire, later) < 0x1_0000_0000
      && var s := Sections(e.message)[k];
         var u := Sections(Handed(e, now, later))[k];
         var r := SecondsLeft(e.expire, later);
         && |u| == |s| && (s != [] ==> MinTTL(u) == Max(1, r))
         && (forall i | 0 <= i < |s| :: 0 < u[i].ttl <= s[i].ttl)
         && (forall i | 0 <= i < |s| :: u[i].ttl == Max(1, r + (s[i].ttl as int - MinTTL(s) as int)))
  {
    hide NewTTL, MinTTL, SecondsLeft, WithoutOpt, Handed, Store, StoreTTL, Sections, ToStore;
    SecondsFit(m, stored, later);
    var e := Store(m, stored).value;
    AgedSection(e, now, later, k);
    StoredSectionLasts(m, stored, k);
    var s := Sections(e.message)[k];
    if s != [] {
      SectionAges(s, SecondsLeft(e.expire, later));
    }
  }

  /** A server failure is kept for 5 seconds whatever its TTLs are.  If they are below 2^31, as
      section 8 of RFC 2181 asks, a hit before expiry ages a section whose least TTL is not below the
      seconds left, and leaves any other as it is. */
  lemma FailureHitBeforeExpiry(m: Message, stored: int, now: int, later: int, k: nat)
    requires m.serverFailure && k < 3
    requires forall x | x in Sections(ToStore(m))[k] :: x.ttl < 0x8000_0000
    requires Store(m, stored).Some? && stored <= now <= later && now <= Store(m, stored).value.expire
    ensures var e := Store(m, stored).value;
      && SecondsLeft(e.expire, later) <= 5
      && var s := Sections(e.message)[k];
         var u := Sections(Handed(e, now, later))[k];
         var r := SecondsLeft(e.expire, later);
         && (s != [] && r <= MinTTL(s) ==> MinTTL(u) == Max(1, r))
         && (s != [] && r > MinTTL(s) ==> u == s)
         && (|u| == |s| && forall i | 0 <= i < |s| :: u[i].ttl <= s[i].ttl <==> !(s[i].ttl == 0 && r == 0))
  {
    hide MinTTL, WithoutOpt, NewTTL;
    SecondsFit(m, stored, later);
    var e := Store(m, stored).value;
    var s := Sections(e.message)[k];
    var r: uint32 := SecondsLeft(e.expire, later);
    var u := Updated(s, r);
    assert Sections(Handed(e, now, later))[k] == u;
    forall i | 0 <= i < |s|
      ensures u[i].ttl <= s[i].ttl <==> !(s[i].ttl == 0 && r == 0)
    {
      RaisedIff(s[i].ttl, MinTTL(s), r);
    }
    if s != [] {
      if r <= MinTTL(s) {
        SectionAges(s, r);
      } else {
        SectionStays(s, r);
      }
    }
  }

  /** After expiry every record handed out has TTL 1. */
  lemma HitAfterExpiry(m: Message, stored: int, now: int, later: int, k: nat, i: nat)
    requires Store(m, stored).Some? && stored <= now <= later && now > Store(m, stored).value.expire
    requires k < 3 && i < |Sections(ToStore(m))[k]|
    ensures SecondsLeft(Store(m, stored).value.expire, later) < 0x1_0000_0000
    ensures |Sections(Handed(Store(m, stored).value, now, later))[k]| == |Sections(ToStore(m))[k]|
    ensures Sections(Handed(Store(m, stored).value, now, later))[k][i] == Sections(ToStore(m))[k][i].(ttl := 1)
  {
    assert k == 2 ==> ToStore(m).extra[i] in ToStore(m).extra;
  }

  /** Later hits never hand out longer TTLs than earlier ones. */
  lemma LaterHitIsNotLonger(m: Message, stored: int, now: int, later: int, now2: int, later2: int, k: nat, i: nat)
    requires !m.serverFailure && Store(m, stored).Some? && k < 3 && i < |Sections(ToStore(m))[k]|
    requires stored <= now <= later <= now2 <= later2
    ensures var e := Store(m, stored).value;
      && SecondsLeft(e.expire, later) < 0x1_0000_0000 && SecondsLeft(e.expire, later2) < 0x1_0000_0000
      && |Sections(Handed(e, now, later))[k]| == |Sections(Handed(e, now2, later2))[k]| == |Sections(ToStore(m))[k]|
      && 0 < Sections(Handed(e, now2, later2))[k][i].ttl <= Sections(Handed(e, now, later))[k][i].ttl
  {
    hide Handed, Sections, Store, SecondsLeft, ToStore;
    OneHit(m, stored, now, later, k, i);
    OneHit(m, stored, now2, later2, k, i);
    LeftShrinks(StoredAt(m, stored).expire, later, later2);
  }

  function StoredAt(m: Message, stored: int): Saved
    requires Store(m, stored).Some?
  {
    Store(m, stored).value
  }

  lemma LeftShrinks(expire: int, a: int, b: int)
    requires a <= b
    ensures SecondsLeft(expire, b) <= SecondsLeft(expire, a)
  {
  }

  /** The TTL one record gets from a hit, before or after expiry. */
  lemma OneHit(m: Message, stored: int, now: int, later: int, k: nat, i: nat)
    requires !m.serverFailure && Store(m, stored).Some? && k < 3 && i < |Sections(ToStore(m))[k]|
    requires stored <= now <= later
    ensures var e := StoredAt(m, stored); var s := Sections(ToStore(m))[k];
      && SecondsLeft(e.expire, later) < 0x1_0000_0000
      && |Sections(Handed(e, now, later))[k]| == |s|
      && Sections(Handed(e, now, later))[k][i].ttl == (
           if e.expire < now then 1
           else Max(1, SecondsLeft(e.expire, later) + (s[i].ttl as int - MinTTL(s) as int)))
  {
    hide Handed, Sections, SecondsLeft, MinTTL, ToStore;
    if StoredAt(m, stored).expire < now {
      HitAfterExpiry(m, stored, now, later, k, i);
    } else {
      HitBeforeExpiry(m, stored, now, later, k);
    }
  }

  /** A hit within a second less than the least TTL is not expired, and hands each record its TTL less the
      time since it was stored, to within two seconds, but at least 1.  A section whose least TTL is above
      that of the message loses the difference at once. */
  lemma HitTTL(m: Message, stored: int, now: int, later: int, least: uint32, k: nat, i: nat)
    requires !m.serverFailure && LeastTTL(m, least) && least > 0
    requires k < 3 && i < |Sections(ToStore(m))[k]|
    requires stored <= now <= later <= stored + (least - 1) * 1_000_000_000
    ensures Store(m, stored).Some? && now < StoredAt(m, stored).expire
    ensures SecondsLeft(StoredAt(m, stored).expire, later) < 0x1_0000_0000
    ensures var s := Sections(ToStore(m))[k];
      var u := Sections(Handed(StoredAt(m, stored), now, later))[k];
      var left := (least + s[i].ttl - MinTTL(s)) * 1_000_000_000 - (later - stored);
      |u| == |s| && left - 2_000_000_000 < u[i].ttl * 1_000_000_000 <= Max(1_000_000_000, left)
  {
    hide Handed, Sections, SecondsLeft, MinTTL, ToStore, WithoutOpt, LeastTTL, Store;
    StoreLasts(m, stored, least);
    OneHit(m, stored, now, later, k, i);
    SecondsLeftIs(StoredAt(m, stored).expire, later);
  }

  // ---------- the program ----------

  lemma MinTTLNext(s: seq<RR>, i: nat)
    requires 0 < i < |s|
    ensures MinTTL(s[..i + 1]) == if s[i].ttl < MinTTL(s[..i]) then s[i].ttl else MinTTL(s[..i])
  {
    assert s[..i + 1][..i] == s[..i];
  }

  method MinimalTTL(records: seq<RR>) returns (m: uint32)
    ensures m == MinTTL(records)
  {
    hide MinTTL;
    if |records| == 0 {
      return 0;
    }
    m := records[0].ttl;
    MinTTLIs(records[..1], m, 0);
    for i := 1 to |records|
      invariant m == MinTTL(records[..i])
    {
      MinTTLNext(records, i);
      if records[i].ttl < m {
        m := records[i].ttl;
      }
    }
    assert records[..|records|] == records;
  }

  method UpdateTTL(records: array<RR>, ttl: uint32)
    modifies records
    ensures records[..] == Updated(old(records[..]), ttl)
  {
    hide MinTTL, Wrap, Clamp;
    if records.Length == 0 {
      return;
    }
    ghost var s := records[..];
    var least := MinimalTTL(records[..]);
    var delta := Wrap(least as int - ttl as int);
    for i := 0 to records.Length
      invariant forall j | 0 <= j < i :: records[j] == s[j].(ttl := NewTTL(s[j].ttl, least, ttl))
      invariant forall j | i <= j < records.Length :: records[j] == s[j]
    {
      records[i] := records[i].(ttl := Clamp(Wrap(records[i].ttl as int - delta as int), 1, records[i].ttl));
    }
  }

  method UpdateMsgTTL(msg: Msg, ttl: uint32)
    requires msg.Separate()
    modifies msg.answer, msg.ns, msg.extra
    ensures var m := old(msg.Value());
      msg.Value() == m.(answer := Updated(m.answer, ttl), ns := Updated(m.ns, ttl), extra := Updated(m.extra, ttl))
  {
    UpdateTTL(msg.answer, ttl);
    UpdateTTL(msg.ns, ttl);
    UpdateTTL(msg.extra, ttl);
  }

  method SetMsgTTL(msg: Msg)
    requires msg.Separate()
    modifies msg.answer, msg.ns, msg.extra
    ensures var m := old(msg.Value());
      msg.Value() == m.(answer := Ones(m.answer), ns := Ones(m.ns), extra := OnesUnlessOpt(m.extra))
  {
    ghost var m := msg.Value();
    for i := 0 to msg.answer.Length
      invariant forall j | 0 <= j < i :: msg.answer[j] == m.answer[j].(ttl := 1)
      invariant forall j | i <= j < msg.answer.Length :: msg.answer[j] == m.answer[j]
      invariant msg.ns[..] == m.ns && msg.extra[..] == m.extra
    {
      msg.answer[i] := msg.answer[i].(ttl := 1);
    }
    assert msg.answer[..] == Ones(m.answer);
    for i := 0 to msg.ns.Length
      invariant forall j | 0 <= j < i :: msg.ns[j] == m.ns[j].(ttl := 1)
      invariant forall j | i <= j < msg.ns.Length :: msg.ns[j] == m.ns[j]
      invariant msg.answer[..] == Ones(m.answer) && msg.extra[..] == m.extra
    {
      msg.ns[i] := msg.ns[i].(ttl := 1);
    }
    assert msg.ns[..] == Ones(m.ns);
    for i := 0 to msg.extra.Length
      invariant forall j | 0 <= j < i ::
        msg.extra[j] == if m.extra[j].isOpt then m.extra[j] else m.extra[j].(ttl := 1)
      invariant forall j | i <= j < msg.extra.Length :: msg.extra[j] == m.extra[j]
      invariant msg.answer[..] == Ones(m.answer) && msg.ns[..] == Ones(m.ns)
    {
      if msg.extra[i].isOpt {
        continue;
      }
      msg.extra[i] := msg.extra[i].(ttl := 1);
    }
    assert msg.extra[..] == OnesUnlessOpt(m.extra);
  }

  method CopyRecords(a: array<RR>) returns (b: array<RR>)
    ensures fresh(b) && b[..] == a[..]
  {
    b := new RR[a.Length](i requires 0 <= i < a.Length reads a => a[i]);
  }

  method Copy(msg: Msg) returns (copy: Msg)
    ensures copy.Value() == msg.Value() && copy.Separate() && fresh(copy.Arrays())
  {
    var answer := CopyRecords(msg.answer);
    var ns := CopyRecords(msg.ns);
    var extra := CopyRecords(msg.extra);
    copy := Msg(answer, ns, extra, msg.serverFailure);
  }

  method FilterOpt(a: array<RR>) returns (b: array<RR>)
    ensures fresh(b) && b[..] == WithoutOpt(a[..])
  {
    var kept: seq<RR> := [];
    for i := 0 to a.Length
      invariant kept == WithoutOpt(a[..i])
    {
      assert a[..i + 1][..i] == a[..i];
      if !a[i].isOpt {
        kept := kept + [a[i]];
      }
    }
    assert a[..a.Length] == a[..];
    b := new RR[|kept|](i requires 0 <= i < |kept| => kept[i]);
    assert b[..] == kept;
  }

  /** The copy to be stored, and for how long. */
  method Prepare(msg: Msg) returns (kept: Msg, ttl: uint32)
    ensures kept.Value() == ToStore(msg.Value()) && fresh(kept.Arrays()) && ttl == StoreTTL(kept.Value())
  {
    kept := Copy(msg);
    var extra := FilterOpt(kept.extra);
    kept := kept.(extra := extra);
    if kept.serverFailure {
      ttl := SERVER_FAILURE_CACHE_TTL;
    } else {
      ttl := MinimalTTL(kept.answer[..] + kept.ns[..] + kept.extra[..]);
    }
  }

  datatype Entry = Entry(msg: Msg, expire: int)

  ghost function SavedFor(e: Entry): Saved
    reads e.msg.answer, e.msg.ns, e.msg.extra
  {
    Saved(e.msg.Value(), e.expire)
  }

  lemma SavedIs(e: Entry)
    ensures SavedFor(e) == Saved(e.msg.Value(), e.expire)
  {
  }

  ghost function ArraysOf(entries: map<Question, Entry>): set<array<RR>> {
    (set q | q in entries :: entries[q].msg.answer) + (set q | q in entries :: entries[q].msg.ns)
    + (set q | q in entries :: entries[q].msg.extra)
  }

  ghost function SavedAll(entries: map<Question, Entry>): map<Question, Saved>
    reads ArraysOf(entries)
  {
    map q | q in entries :: SavedFor(entries[q])
  }

  lemma OneMore(entries: map<Question, Entry>, q: Question, e: Entry)
    ensures ArraysOf(entries[q := e]) <= ArraysOf(entries) + e.msg.Arrays()
    ensures SavedAll(entries[q := e]) == SavedAll(entries)[q := SavedFor(e)]
  {
  }

  /** What putting a message in the cache does to it: a server failure is kept for 5 seconds; any other
      message for its least TTL, and not at all when that is 0 or it has no record. */
  ghost predicate KeptInCache(m: Message, now: int, q: Question, before: map<Question, Saved>,
                              after: map<Question, Saved>)
  {
    && (forall x | x != q :: (x in after <==> x in before) && (x in before ==> after[x] == before[x]))
    && (m.serverFailure ==> q in after && KeptFor(m, now, 5, after[q]))
    && (!m.serverFailure ==> forall least: uint32 | LeastTTL(m, least) ::
          if least == 0 then after == before else q in after && KeptFor(m, now, least, after[q]))
    && (!m.serverFailure && (forall x :: !Counts(m, x)) ==> after == before)
  }

  lemma PutKeeps(m: Message, now: int, q: Question, before: map<Question, Saved>)
    ensures var saved := Store(m, now);
      KeptInCache(m, now, q, before, if saved.None? then before else before[q := saved.value])
  {
    hide Store, Counts, KeptFor;
    StoreLasts(m, now, 0);
    forall least: uint32 {
      StoreLasts(m, now, least);
    }
  }

  /** The cache as its users see it when nothing is evicted: the last entry set for each question. */
  class DnsCache {
    var entries: map<Question, Entry>

    constructor ()
      ensures entries == map[]
    {
      entries := map[];
    }

    ghost function Footprint(): set<array<RR>>
      reads this
    {
      ArraysOf(entries)
    }

    ghost function Contents(): map<Question, Saved>
      reads this, Footprint()
    {
      SavedAll(entries)
    }

    /** Stores a copy, or nothing. */
    method PutMsg(q: Question, msg: Msg, now: int)
      modifies this
      ensures var saved := Store(old(msg.Value()), now);
        Contents() == if q.qtype == TYPE_TXT && "_acme-challenge." <= q.name then old(Contents())
                      else if saved.None? then old(Contents())
                      else old(Contents())[q := saved.value]
      ensures !(q.qtype == TYPE_TXT && "_acme-challenge." <= q.name) ==>
        KeptInCache(old(msg.Value()), now, q, old(Contents()), Contents())
      ensures fresh(Footprint() - old(Footprint()))
    {
      hide MinTTL, WithoutOpt, Contents, SavedFor, KeptInCache;
      if q.qtype == TYPE_TXT && "_acme-challenge." <= q.name {
        return;
      }
      ghost var m := msg.Value();
      PutKeeps(m, now, q, Contents());
      var kept, ttl := Prepare(msg);
      if ttl == 0 {
        assert Footprint() == old(Footprint());
        assert Contents() == old(Contents());
        return;
      }
      SetWithExpire(q, kept, now + ttl as int * NANOS_PER_SECOND);
    }

    method SetWithExpire(q: Question, msg: Msg, expire: int)
      modifies this
      ensures Contents() == old(Contents())[q := Saved(old(msg.Value()), ToSeconds(expire))]
      ensures Footprint() <= old(Footprint()) + msg.Arrays()
    {
      hide MinTTL, ToSeconds, ArraysOf, SavedAll, SavedFor, Msg.Value;
      var e := Entry(msg, ToSeconds(expire));
      OneMore(entries, q, e);
      SavedIs(e);
      entries := entries[q := e];
    }

    method GetMsg(q: Question) returns (r: Option<(Msg, int)>)
      ensures q !in entries ==> r == None
      ensures q in entries ==>
        && r.Some? && r.value.0.Separate() && fresh(r.value.0.Arrays())
        && Saved(r.value.0.Value(), r.value.1) == Contents()[q]
    {
      if q !in entries {
        return None;
      }
      var e := entries[q];
      var copy := Copy(e.msg);
      r := Some((copy, e.expire));
    }

    /** The cache-hit path of an exchange.  It hands out a fresh message and changes nothing in the cache,
        so that a later hit starts again from what was stored. */
    method CachedAnswer(q: Question, now: int, later: int) returns (msg: Option<Msg>, continueFetch: bool)
      requires now <= later
      requires q in entries ==> SecondsLeft(entries[q].expire, later) < 0x1_0000_0000
      ensures q !in entries ==> msg == None && !continueFetch
      ensures q in entries ==>
        && msg.Some? && fresh(msg.value.Arrays())
        && msg.value.Value() == Handed(old(Contents())[q], now, later)
        && continueFetch == (entries[q].expire < now)
      ensures Contents() == old(Contents())
    {
      hide MinTTL, Ones, OnesUnlessOpt, Updated, UpdatedTo, SecondsLeft;
      continueFetch := false;
      var hit := GetMsg(q);
      if hit.None? {
        return None, false;
      }
      var m, expire := hit.value.0, hit.value.1;
      if expire < now {
        SetMsgTTL(m);
        continueFetch := true;
      } else {
        UpdateMsgTTL(m, SecondsLeft(expire, later));
      }
      msg := Some(m);
    }
  }
}
