/** Vocabulary that the other modules share. */
module Common {

  datatype Option<+T> = None | Some(value: T)

  ghost predicate NoDup<A>(s: seq<A>) {
    forall i, j | 0 <= i < j < |s| :: s[i] != s[j]
  }

  /** `r` has the entries of `s` at the places `at`, in order. */
  ghost predicate Picked<A>(s: seq<A>, r: seq<A>, at: seq<nat>) {
    && |at| == |r| && (forall i | 0 <= i < |at| :: at[i] < |s| && s[at[i]] == r[i])
    && forall i, j | 0 <= i < j < |at| :: at[i] < at[j]
  }

  /** `at` are the wanted places of `s`, and `r` what is there. */
  ghost predicate PickedBy<A>(s: seq<A>, r: seq<A>, at: seq<nat>, wanted: nat -> bool) {
    Picked(s, r, at) && forall i: nat | i < |s| :: i in at <==> wanted(i)
  }

  lemma PickedNone<A>(wanted: nat -> bool)
    ensures PickedBy<A>([], [], [], wanted)
  {
  }

  lemma PickedNext<A>(s: seq<A>, r: seq<A>, at: seq<nat>, wanted: nat -> bool)
    requires s != [] && PickedBy(s[..|s| - 1], r, at, wanted)
    ensures var n := |s| - 1;
      if wanted(n) then PickedBy(s, r + [s[n]], at + [n], wanted) else PickedBy(s, r + [], at, wanted)
  {
    var n := |s| - 1;
    assert r + [] == r && n !in at;
    assert forall i: nat :: i in at + [n] <==> i in at || i == n;
  }

  /** Only the wanted places matter. */
  lemma PickedSame<A>(s: seq<A>, r: seq<A>, at: seq<nat>, wanted: nat -> bool, also: nat -> bool)
    requires PickedBy(s, r, at, wanted) && forall i: nat | i < |s| :: wanted(i) <==> also(i)
    ensures PickedBy(s, r, at, also)
  {
  }
}
