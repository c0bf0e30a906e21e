/** The run queue: a circular list through one column of links. */
module Rings {
  import opened Lists

  function After(s: seq<nat>, i: nat): nat
    requires i < |s|
  {
    if i + 1 < |s| then s[i + 1] else s[0]
  }

  /** Following `next` from `head` goes around s. */
  ghost predicate Ring(next: seq<int>, head: int, s: seq<nat>) {
    && head == HeadOf(s)
    && Distinct(s)
    && (forall i :: 0 <= i < |s| ==> s[i] < |next|)
    && (forall i {:trigger next[s[i]]} :: 0 <= i < |s| ==> next[s[i]] == After(s, i))
  }

  lemma RingFrame(next: seq<int>, next': seq<int>, head: int, s: seq<nat>)
    requires Ring(next, head, s) && |next'| == |next| && forall x :: x in s ==> next'[x] == next[x]
    ensures Ring(next', head, s)
  {
  }

  /** The same ring, entered elsewhere. */
  lemma RingFrom(next: seq<int>, head: int, s: seq<nat>, k: nat)
    requires Ring(next, head, s) && k < |s|
    ensures var o := s[k + 1..] + s[..k + 1]; |o| == |s| && Ring(next, After(s, k), o)
  {
    var o, n := s[k + 1..] + s[..k + 1], |s|;
    var m := n - k - 1;
    forall i | 0 <= i < n ensures o[i] == s[if i < m then k + 1 + i else i - m] { }
    forall i | 0 <= i < n ensures o[i] < |next| && next[o[i]] == After(o, i) {
      var j := if i < m then k + 1 + i else i - m;
      assert next[s[j]] == After(s, j);
      assert After(o, i) == After(s, j);
    }
  }

  lemma RingAppend(next: seq<int>, head: int, s: seq<nat>, x: nat)
    requires Ring(next, head, s) && x !in s && x < |next|
    ensures s == [] ==> Ring(next[x := x], x, [x])
    ensures s != [] ==> s[|s| - 1] < |next| && Ring(next[s[|s| - 1] := x][x := head], head, s + [x])
  {
    if s != [] {
      var r, now := s + [x], next[s[|s| - 1] := x][x := head];
      forall i | 0 <= i < |r| ensures r[i] < |now| && now[r[i]] == After(r, i) {
        if i < |s| - 1 {
          assert r[i] == s[i] && s[i] != s[|s| - 1] && s[i] != x && next[s[i]] == After(s, i);
        }
      }
    }
  }

  /** The head leaves a longer ring: the last slot takes over. */
  lemma RingBehead(next: seq<int>, head: int, s: seq<nat>)
    requires Ring(next, head, s) && |s| > 1
    ensures s[|s| - 1] < |next| && Ring(next[s[|s| - 1] := s[1]], s[1], RemoveAt(s, 0))
  {
    var r, now := RemoveAt(s, 0), next[s[|s| - 1] := s[1]];
    RemoveMembers(s, 0);
    forall i | 0 <= i < |r| ensures r[i] == s[i + 1] && now[r[i]] == After(r, i) {
      assert next[s[i + 1]] == After(s, i + 1);
      assert i + 1 < |s| - 1 ==> s[i + 1] != s[|s| - 1];
    }
  }

  /** Another slot leaves: its predecessor takes over its link. */
  lemma RingUnlink(next: seq<int>, head: int, s: seq<nat>, k: nat)
    requires Ring(next, head, s) && k + 1 < |s|
    ensures Ring(next[s[k] := next[s[k + 1]]], head, RemoveAt(s, k + 1))
  {
    var r, now := RemoveAt(s, k + 1), next[s[k] := next[s[k + 1]]];
    RemoveMembers(s, k + 1);
    assert next[s[k + 1]] == After(s, k + 1);
    forall i | 0 <= i < |r| ensures r[i] == s[if i <= k then i else i + 1] && r[i] < |now| && now[r[i]] == After(r, i) {
      var j := if i <= k then i else i + 1;
      assert next[s[j]] == After(s, j);
      assert i != k ==> s[j] != s[k];
    }
  }

  /** A slot that links to itself is alone. */
  lemma OnlyOne(next: seq<int>, head: int, s: seq<nat>)
    requires Ring(next, head, s) && s != [] && next[head] == head
    ensures s == [s[0]] && RemoveAt(s, 0) == []
  {
    assert next[s[0]] == After(s, 0);
  }

  /** The walk to the slot whose link leads back to the head. */
  method FindRingTail(next: seq<int>, head: nat, ghost s: seq<nat>) returns (tail: nat)
    requires Ring(next, head, s)
    ensures s != [] && tail == s[|s| - 1]
  {
    tail := head;
    ghost var k := 0;
    while next[tail] != head
      invariant 0 <= k < |s| && tail == s[k]
      decreases |s| - k
    {
      assert next[s[k]] == After(s, k);
      tail := next[tail];
      k := k + 1;
    }
    assert next[s[k]] == After(s, k);
  }

  /** The slot before t, going around from the head; t is not the head. */
  method FindRingPredecessor(next: seq<int>, head: nat, t: nat, ghost s: seq<nat>) returns (it: nat, ghost k: nat)
    requires Ring(next, head, s) && head != t
    ensures k < |s| && it == s[k]
    ensures t in s <==> k + 1 < |s| && s[k + 1] == t
    ensures t in s <==> next[it] == t
  {
    it, k := head, 0;
    while next[it] != t
      invariant 0 <= k < |s| && it == s[k] && forall j :: 0 <= j <= k ==> s[j] != t
      decreases |s| - k
    {
      assert next[s[k]] == After(s, k);
      it := next[it];
      if it == head {
        assert k + 1 == |s|;
        k := 0;
        return;
      }
      k := k + 1;
    }
    assert next[s[k]] == After(s, k);
  }
}
