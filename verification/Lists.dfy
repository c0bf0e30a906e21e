/** Intrusive singly linked lists over pool slots: a column of `next` links with
    -1 for NULL, and the sequence of slots that a head reaches through it. */
module Lists {

  ghost predicate Distinct(s: seq<nat>) {
    forall i, j :: 0 <= i < j < |s| ==> s[i] != s[j]
  }

  function LinkAfter(s: seq<nat>, i: nat): int
    requires i < |s|
  {
    if i + 1 < |s| then s[i + 1] else -1
  }

  function HeadOf(s: seq<nat>): int { if s == [] then -1 else s[0] }

  /** Following `next` from `head` visits exactly s, each slot once, then NULL. */
  ghost predicate Linked(next: seq<int>, head: int, s: seq<nat>) {
    && head == HeadOf(s)
    && Distinct(s)
    && (forall i :: 0 <= i < |s| ==> s[i] < |next|)
    && (forall i {:trigger next[s[i]]} :: 0 <= i < |s| ==> next[s[i]] == LinkAfter(s, i))
  }

  /** Links of slots outside a list do not matter to it. */
  lemma LinkedFrame(next: seq<int>, next': seq<int>, head: int, s: seq<nat>)
    requires Linked(next, head, s) && |next'| == |next|
    requires forall x :: x in s ==> next'[x] == next[x]
    ensures Linked(next', head, s)
  {
  }

  function InsertAt(s: seq<nat>, k: nat, x: nat): seq<nat>
    requires k <= |s|
  {
    s[..k] + [x] + s[k..]
  }

  function RemoveAt(s: seq<nat>, k: nat): seq<nat>
    requires k < |s|
  {
    s[..k] + s[k + 1..]
  }

  lemma InsertMembers(s: seq<nat>, k: nat, x: nat)
    requires k <= |s|
    ensures forall y :: y in InsertAt(s, k, x) <==> y in s || y == x
    ensures Distinct(s) && x !in s ==> Distinct(InsertAt(s, k, x))
  {
    assert s == s[..k] + s[k..];
  }

  lemma RemoveMembers(s: seq<nat>, k: nat)
    requires k < |s| && Distinct(s)
    ensures forall y :: y in RemoveAt(s, k) <==> y in s && y != s[k]
    ensures Distinct(RemoveAt(s, k))
  {
    forall y | y in s && y != s[k] ensures y in RemoveAt(s, k) {
      var i :| 0 <= i < |s| && s[i] == y;
      assert i < k ==> RemoveAt(s, k)[i] == y;
      assert i > k ==> RemoveAt(s, k)[i - 1] == y;
    }
    forall y | y in RemoveAt(s, k) ensures y in s && y != s[k] {
      var i :| 0 <= i < |RemoveAt(s, k)| && RemoveAt(s, k)[i] == y;
      assert y == if i < k then s[i] else s[i + 1];
    }
  }

  /** Inserting at the front: the new slot points at the old head. */
  lemma LinkFront(next: seq<int>, head: int, s: seq<nat>, x: nat)
    requires Linked(next, head, s) && x < |next| && x !in s
    ensures Linked(next[x := head], x, InsertAt(s, 0, x))
  {
    var r := InsertAt(s, 0, x);
    InsertMembers(s, 0, x);
    assert forall i :: 0 < i < |r| ==> r[i] == s[i - 1];
  }

  /** Inserting after position k: the new slot takes over its link. */
  lemma LinkBehind(next: seq<int>, head: int, s: seq<nat>, k: nat, x: nat)
    requires Linked(next, head, s) && x < |next| && x !in s && k < |s|
    ensures Linked(next[x := next[s[k]]][s[k] := x], head, InsertAt(s, k + 1, x))
  {
    var r, now := InsertAt(s, k + 1, x), next[x := next[s[k]]][s[k] := x];
    InsertMembers(s, k + 1, x);
    forall i | 0 <= i < |r| ensures r[i] < |now| && now[r[i]] == LinkAfter(r, i) {
      if i <= k {
        assert r[i] == s[i];
      } else if i == k + 1 {
        assert r[i] == x;
      } else {
        assert r[i] == s[i - 1] && s[i - 1] != s[k];
      }
    }
  }

  lemma UnlinkFront(next: seq<int>, head: int, s: seq<nat>)
    requires Linked(next, head, s) && s != []
    ensures Linked(next, next[s[0]], RemoveAt(s, 0))
  {
    var r := RemoveAt(s, 0);
    assert forall i :: 0 <= i < |r| ==> r[i] == s[i + 1];
  }

  /** Unlinking position k + 1: its predecessor takes over its link. */
  lemma UnlinkBehind(next: seq<int>, head: int, s: seq<nat>, k: nat)
    requires Linked(next, head, s) && k + 1 < |s|
    ensures Linked(next[s[k] := next[s[k + 1]]], head, RemoveAt(s, k + 1))
  {
    var r := RemoveAt(s, k + 1);
    RemoveMembers(s, k + 1);
    assert forall i :: 0 <= i <= k ==> r[i] == s[i];
    assert forall i :: k < i < |r| ==> r[i] == s[i + 1];
  }

  /** Position of a member. */
  function IndexOf(s: seq<nat>, x: nat): (k: nat)
    requires x in s
    ensures k < |s| && s[k] == x
  {
    if s[0] == x then 0 else 1 + IndexOf(s[1..], x)
  }

  /** The walk that looks for a slot's predecessor: `it` ends on it, or on NULL
      when the slot is not behind any other. */
  method FindPredecessor(next: seq<int>, head: int, t: nat, ghost s: seq<nat>) returns (it: int, ghost k: nat)
    requires Linked(next, head, s)
    ensures it == -1 <==> !exists j :: 1 <= j < |s| && s[j] == t
    ensures it != -1 ==> k + 1 < |s| && it == s[k] && s[k + 1] == t
  {
    it, k := head, 0;
    while it != -1 && next[it] != t
      invariant 0 <= k <= |s| && it == if k < |s| then s[k] else -1
      invariant forall j :: 1 <= j <= k && j < |s| ==> s[j] != t
      decreases |s| - k
    {
      it := next[it];
      k := k + 1;
    }
  }

  /** The walk to the last slot of a non-empty list. */
  method FindTail(next: seq<int>, head: int, ghost s: seq<nat>) returns (it: nat)
    requires Linked(next, head, s) && s != []
    ensures it == s[|s| - 1]
  {
    it := head;
    ghost var k := 0;
    while next[it] != -1
      invariant 0 <= k < |s| && it == s[k]
      decreases |s| - k
    {
      it := next[it];
      k := k + 1;
    }
  }

  // ---- Many lists through one column of links ----

  /** Every list is linked, and `home` says which one each listed slot is in,
      so no slot is in two lists. */
  ghost predicate Chains(next: seq<int>, heads: seq<int>, lists: seq<seq<nat>>, home: map<nat, nat>) {
    && |lists| == |heads|
    && (forall m :: 0 <= m < |lists| ==> Linked(next, heads[m], lists[m]))
    && (forall m, x :: 0 <= m < |lists| && x in lists[m] ==> x in home && home[x] == m)
    && (forall x :: x in home ==> x < |next| && home[x] < |lists| && x in lists[home[x]])
  }

  lemma ListIsHome(next: seq<int>, heads: seq<int>, lists: seq<seq<nat>>, home: map<nat, nat>, m: nat)
    requires Chains(next, heads, lists, home) && m < |lists|
    ensures forall x :: x in lists[m] <==> x in home && home[x] == m
  {
  }

  /** Links may change freely outside all lists. */
  lemma ChainsFrame(next: seq<int>, next': seq<int>, heads: seq<int>, lists: seq<seq<nat>>, home: map<nat, nat>)
    requires Chains(next, heads, lists, home) && |next'| == |next|
    requires forall x :: x in home ==> next'[x] == next[x]
    ensures Chains(next', heads, lists, home)
  {
    forall m | 0 <= m < |lists| ensures Linked(next', heads[m], lists[m]) {
      LinkedFrame(next, next', heads[m], lists[m]);
    }
  }

  lemma OtherChainsKeep(next: seq<int>, next': seq<int>, heads: seq<int>, lists: seq<seq<nat>>, home: map<nat, nat>,
                        m: nat)
    requires Chains(next, heads, lists, home) && |next'| == |next|
    requires forall x :: x in home && home[x] != m ==> next'[x] == next[x]
    ensures forall n :: 0 <= n < |lists| && n != m ==> Linked(next', heads[n], lists[n])
  {
    forall n | 0 <= n < |lists| && n != m ensures Linked(next', heads[n], lists[n]) {
      LinkedFrame(next, next', heads[n], lists[n]);
    }
  }

  /** Slot x joins list m. */
  lemma ChainInsert(next: seq<int>, next': seq<int>, heads: seq<int>, lists: seq<seq<nat>>, home: map<nat, nat>,
                    m: nat, k: nat, x: nat, head: int)
    requires Chains(next, heads, lists, home) && |next'| == |next|
    requires m < |lists| && k <= |lists[m]| && x !in home && x < |next|
    requires Linked(next', head, InsertAt(lists[m], k, x))
    requires forall y :: y in home && home[y] != m ==> next'[y] == next[y]
    ensures Chains(next', heads[m := head], lists[m := InsertAt(lists[m], k, x)], home[x := m])
  {
    OtherChainsKeep(next, next', heads, lists, home, m);
    InsertMembers(lists[m], k, x);
  }

  /** The slot at position k leaves list m. */
  lemma ChainRemove(next: seq<int>, next': seq<int>, heads: seq<int>, lists: seq<seq<nat>>, home: map<nat, nat>,
                    m: nat, k: nat, head: int)
    requires Chains(next, heads, lists, home) && |next'| == |next|
    requires m < |lists| && k < |lists[m]|
    requires Linked(next', head, RemoveAt(lists[m], k))
    requires forall y :: y in home && home[y] != m ==> next'[y] == next[y]
    ensures Chains(next', heads[m := head], lists[m := RemoveAt(lists[m], k)], home - {lists[m][k]})
  {
    OtherChainsKeep(next, next', heads, lists, home, m);
    RemoveMembers(lists[m], k);
    var t := lists[m][k];
    assert t in lists[m];
    var lists', home' := lists[m := RemoveAt(lists[m], k)], home - {t};
    forall n, x | 0 <= n < |lists'| && x in lists'[n] ensures x in home' && home'[x] == n {
      assert x in if n == m then RemoveAt(lists[m], k) else lists[n];
      assert x in lists[n];
      assert home[x] == n;
      assert x != t;
    }
    forall x | x in home' ensures x in lists'[home'[x]] {
      assert x in lists[home[x]];
    }
  }

  /** What remains of `home` when list m is dropped as a whole. */
  ghost function Evicted(home: map<nat, nat>, m: nat): map<nat, nat> {
    map x | x in home && home[x] != m :: home[x]
  }

  lemma ChainDrop(next: seq<int>, heads: seq<int>, lists: seq<seq<nat>>, home: map<nat, nat>, m: nat)
    requires Chains(next, heads, lists, home) && m < |lists|
    ensures Chains(next, heads[m := -1], lists[m := []], Evicted(home, m))
  {
  }

  /** Where the walk along list m goes after position k. */
  lemma ChainNext(next: seq<int>, heads: seq<int>, lists: seq<seq<nat>>, home: map<nat, nat>, m: nat, k: nat)
    requires Chains(next, heads, lists, home) && m < |lists| && k < |lists[m]|
    ensures lists[m][k] < |next| && next[lists[m][k]] == LinkAfter(lists[m], k)
  {
    assert Linked(next, heads[m], lists[m]);
  }

  /** x becomes the head of list m. */
  method ChainPushFront(next: seq<int>, heads: seq<int>, m: nat, x: nat, ghost lists: seq<seq<nat>>,
                        ghost home: map<nat, nat>)
    returns (next': seq<int>, heads': seq<int>)
    requires Chains(next, heads, lists, home) && m < |lists| && x < |next| && x !in home
    ensures Chains(next', heads', lists[m := InsertAt(lists[m], 0, x)], home[x := m]) && |next'| == |next|
  {
    LinkFront(next, heads[m], lists[m], x);
    next' := next[x := heads[m]];
    heads' := heads[m := x];
    ChainInsert(next, next', heads, lists, home, m, 0, x, x);
  }

  /** x goes behind `it`, the slot at position k of list m. */
  method ChainInsertBehind(next: seq<int>, heads: seq<int>, m: nat, it: nat, x: nat,
                           ghost k: nat, ghost lists: seq<seq<nat>>, ghost home: map<nat, nat>)
    returns (next': seq<int>)
    requires Chains(next, heads, lists, home) && m < |lists| && x < |next| && x !in home
    requires k < |lists[m]| && lists[m][k] == it
    ensures Chains(next', heads, lists[m := InsertAt(lists[m], k + 1, x)], home[x := m]) && |next'| == |next|
  {
    LinkBehind(next, heads[m], lists[m], k, x);
    next' := next[x := next[it]];
    next' := next'[it := x];
    assert it in lists[m];
    ChainInsert(next, next', heads, lists, home, m, k + 1, x, heads[m]);
    assert heads[m := heads[m]] == heads;
  }

  /** Unlinks t from list m, at the head or behind its predecessor; a slot that
      is not listed there is left alone. */
  method ChainUnlink(next: seq<int>, heads: seq<int>, m: nat, t: nat, ghost lists: seq<seq<nat>>,
                     ghost home: map<nat, nat>)
    returns (next': seq<int>, heads': seq<int>)
    requires Chains(next, heads, lists, home) && m < |lists|
    ensures |next'| == |next| && |heads'| == |heads|
    ensures t in lists[m] ==>
      Chains(next', heads', lists[m := RemoveAt(lists[m], IndexOf(lists[m], t))], home - {t})
    ensures t !in lists[m] ==> next' == next && heads' == heads
  {
    next', heads' := next, heads;
    ghost var s := lists[m];
    if heads[m] == t {
      UnlinkFront(next, heads[m], s);
      IndexUnique(s, 0);
      heads' := heads[m := next[t]];
      ChainRemove(next, next, heads, lists, home, m, 0, next[t]);
    } else {
      var it;
      ghost var k;
      it, k := FindPredecessor(next, heads[m], t, s);
      if it != -1 {
        UnlinkBehind(next, heads[m], s, k);
        IndexUnique(s, k + 1);
        assert it in s;
        next' := next[it := next[t]];
        ChainRemove(next, next', heads, lists, home, m, k + 1, heads[m]);
        assert heads[m := heads[m]] == heads;
      }
    }
  }

  lemma IndexUnique(s: seq<nat>, k: nat)
    requires Distinct(s) && k < |s|
    ensures IndexOf(s, s[k]) == k
  {
  }

  /** `home` once the slots of c are at home in list m. */
  ghost function Settled(home: map<nat, nat>, c: seq<nat>, m: nat): map<nat, nat> {
    map x | x in home.Keys + (set i | 0 <= i < |c| :: c[i]) :: if x in c then m else home[x]
  }

  /** A list built beside the others becomes list m, which was empty. */
  lemma ChainAdopt(next: seq<int>, heads: seq<int>, lists: seq<seq<nat>>, home: map<nat, nat>, m: nat, head: int,
                   c: seq<nat>)
    requires Chains(next, heads, lists, home) && m < |lists| && lists[m] == [] && Linked(next, head, c)
    requires forall x :: x in home ==> x !in c
    ensures Chains(next, heads[m := head], lists[m := c], Settled(home, c, m))
  {
    var lists', home' := lists[m := c], Settled(home, c, m);
    forall n, x | 0 <= n < |lists'| && x in lists'[n] ensures x in home' && home'[x] == n {
      assert n != m ==> x in lists[n];
    }
    forall x | x in home' ensures x < |next| && home'[x] < |lists'| && x in lists'[home'[x]] {
      assert x !in c ==> x in lists[home[x]];
      assert x in c ==> x < |next|;
    }
  }

  /** x, whose own link is NULL, becomes the last slot of a list. */
  lemma LinkLast(next: seq<int>, head: int, s: seq<nat>, x: nat)
    requires Linked(next, head, s) && x !in s && x < |next| && next[x] == -1
    ensures s == [] ==> Linked(next, x, [x])
    ensures s != [] ==> s[|s| - 1] < |next| && Linked(next[s[|s| - 1] := x], head, s + [x])
  {
    if s != [] {
      LinkBehind(next, head, s, |s| - 1, x);
      assert next[x := next[s[|s| - 1]]] == next;
      assert InsertAt(s, |s|, x) == s + [x];
    }
  }

  /** x, whose own link is NULL, becomes the last slot of list m. */
  method ChainAppend(next: seq<int>, heads: seq<int>, m: nat, x: nat, ghost lists: seq<seq<nat>>,
                     ghost home: map<nat, nat>)
    returns (next': seq<int>, heads': seq<int>)
    requires Chains(next, heads, lists, home) && m < |lists| && x < |next| && x !in home && next[x] == -1
    ensures Chains(next', heads', lists[m := lists[m] + [x]], home[x := m]) && |next'| == |next|
  {
    ghost var s := lists[m];
    assert InsertAt(s, |s|, x) == s + [x];
    if heads[m] == -1 {
      assert next[x := heads[m]] == next;
      LinkFront(next, heads[m], s, x);
      next', heads' := next, heads[m := x];
      ChainInsert(next, next', heads, lists, home, m, 0, x, x);
    } else {
      var tail := FindTail(next, heads[m], s);
      assert tail in s;
      LinkBehind(next, heads[m], s, |s| - 1, x);
      assert next[x := next[tail]] == next;
      next', heads' := next[tail := x], heads;
      ChainInsert(next, next', heads, lists, home, m, |s|, x, heads[m]);
      assert heads[m := heads[m]] == heads;
    }
  }
}
