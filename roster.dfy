/** Participant rosters: the ordered list of e-mail addresses an activity keeps,
    and the two list operations the handlers apply to it (membership, and
    deletion of the first matching entry). */
module Roster {

  type Email = string

  /** No address appears twice in the roster. */
  predicate Distinct(s: seq<Email>) {
    forall i, j :: 0 <= i < j < |s| ==> s[i] != s[j]
  }

  /** Position of the first occurrence of `x` in `s`. */
  function FirstIndex(s: seq<Email>, x: Email): (i: nat)
    requires x in s
    ensures i < |s| && s[i] == x
    ensures x !in s[..i]
  {
    if s[0] == x then 0
    else
      var k := FirstIndex(s[1..], x);
      assert s[..k + 1] == [s[0]] + s[1..][..k];
      k + 1
  }

  /** The roster after a list `remove`: the first entry equal to `x` is deleted.
      The list operation fails when `x` is absent, so `x` must be present. */
  function RemoveFirst(s: seq<Email>, x: Email): (r: seq<Email>)
    requires x in s
    ensures |r| == |s| - 1
    ensures multiset(r) == multiset(s) - multiset{x}
  {
    assert s == [s[0]] + s[1..];
    if s[0] == x then s[1..] else [s[0]] + RemoveFirst(s[1..], x)
  }

  /** RemoveFirst deletes exactly the entry at the first occurrence of `x`
      and keeps every other entry in its order. */
  lemma {:induction false} RemoveFirstAt(s: seq<Email>, x: Email)
    requires x in s
    ensures RemoveFirst(s, x) == s[..FirstIndex(s, x)] + s[FirstIndex(s, x) + 1..]
  {
    if s[0] != x {
      RemoveFirstAt(s[1..], x);
      var k := FirstIndex(s[1..], x);
      assert s[..k + 1] == [s[0]] + s[1..][..k];
      assert s[k + 2..] == s[1..][k + 1..];
    }
  }

  /** Appending keeps a roster duplicate-free exactly when the address is new. */
  lemma AppendDistinct(s: seq<Email>, x: Email)
    ensures Distinct(s + [x]) <==> Distinct(s) && x !in s
  {
    var t := s + [x];
    if Distinct(t) {
      forall i, j | 0 <= i < j < |s| ensures s[i] != s[j] {
        assert t[i] == s[i] && t[j] == s[j];
      }
      forall i | 0 <= i < |s| ensures s[i] != x {
        assert t[i] == s[i] && t[|s|] == x;
      }
    }
  }

  /** A roster with a new head is duplicate-free exactly when the head is new
      and the tail is duplicate-free. */
  lemma ConsDistinct(x: Email, s: seq<Email>)
    ensures Distinct([x] + s) <==> x !in s && Distinct(s)
  {
    var t := [x] + s;
    assert forall i :: 0 <= i < |s| ==> t[i + 1] == s[i];
    if x !in s && Distinct(s) {
      forall i, j | 0 <= i < j < |t| ensures t[i] != t[j] {
        assert t[j] == s[j - 1];
        if i > 0 { assert t[i] == s[i - 1]; }
      }
    }
    if Distinct(t) {
      forall i | 0 <= i < |s| ensures s[i] != x {
        assert t[0] == x && t[i + 1] == s[i];
      }
      forall i, j | 0 <= i < j < |s| ensures s[i] != s[j] {
        assert t[i + 1] == s[i] && t[j + 1] == s[j];
      }
    }
  }

  /** On a duplicate-free roster, removing `x` leaves it duplicate-free and
      without `x`. */
  lemma {:induction false} RemoveFirstDistinct(s: seq<Email>, x: Email)
    requires x in s && Distinct(s)
    ensures Distinct(RemoveFirst(s, x))
    ensures x !in RemoveFirst(s, x)
  {
    assert s == [s[0]] + s[1..];
    ConsDistinct(s[0], s[1..]);
    if s[0] != x {
      var r' := RemoveFirst(s[1..], x);
      RemoveFirstDistinct(s[1..], x);
      assert s[0] !in r' by {
        assert multiset(s[1..])[s[0]] == 0;
        assert multiset(r')[s[0]] == 0;
      }
      ConsDistinct(s[0], r');
    }
  }

  /** Removing an address that was just appended to a roster that did not hold
      it gives back the original roster. */
  lemma {:induction false} RemoveAppended(s: seq<Email>, x: Email)
    requires x !in s
    ensures RemoveFirst(s + [x], x) == s
  {
    if s != [] {
      assert (s + [x])[1..] == s[1..] + [x];
      RemoveAppended(s[1..], x);
      assert s == [s[0]] + s[1..];
    }
  }
}
