/** Virtual memory areas: a pool of records, linked per address space into a
    list sorted by start address. */
module Vmas {
  import opened Lists
  import opened SlotPool

  /** An area of user address space, [start, end). */
  datatype Vma = Vma(start: nat, end: nat, kind: nat, prot: nat)

  predicate Contains(v: Vma, address: nat) { v.start <= address < v.end }

  /** The records of a list of slots. */
  ghost function Records(recs: seq<Vma>, s: seq<nat>): (r: seq<Vma>)
    requires forall i :: 0 <= i < |s| ==> s[i] < |recs|
    ensures |r| == |s| && forall i :: 0 <= i < |s| ==> r[i] == recs[s[i]]
  {
    seq(|s|, i requires 0 <= i < |s| => recs[s[i]])
  }

  /** Non-empty areas in address order, none overlapping another. */
  ghost predicate Disjoint(vs: seq<Vma>) {
    && (forall i :: 0 <= i < |vs| ==> vs[i].start < vs[i].end)
    && (forall i, j :: 0 <= i < j < |vs| ==> vs[i].end <= vs[j].start)
  }

  /** An area that overlaps none of a list. */
  ghost predicate Clear(vs: seq<Vma>, v: Vma) {
    && v.start < v.end
    && forall i :: 0 <= i < |vs| ==> vs[i].end <= v.start || v.end <= vs[i].start
  }

  /** How many leading areas start before an address. */
  function Before(vs: seq<Vma>, start: nat): (k: nat)
    ensures k <= |vs|
    ensures forall i :: 0 <= i < k ==> vs[i].start < start
    ensures k < |vs| ==> vs[k].start >= start
  {
    if vs == [] || vs[0].start >= start then 0 else 1 + Before(vs[1..], start)
  }

  /** Where a new area goes: at the front if it starts before the head, else
      behind the head and all that start before it. */
  function Position(vs: seq<Vma>, start: nat): (k: nat)
    ensures k <= |vs|
    ensures forall i :: 0 <= i < k ==> vs[i].start <= start
    ensures k < |vs| ==> vs[k].start >= start
  {
    if vs == [] || start < vs[0].start then 0 else 1 + Before(vs[1..], start)
  }

  function Inserted(vs: seq<Vma>, v: Vma): seq<Vma> {
    var k := Position(vs, v.start);
    vs[..k] + [v] + vs[k..]
  }

  lemma InsertedDisjoint(vs: seq<Vma>, v: Vma)
    requires Disjoint(vs) && Clear(vs, v)
    ensures Disjoint(Inserted(vs, v))
  {
    var k := Position(vs, v.start);
    forall i | 0 <= i < k ensures vs[i].end <= v.start { }
    forall i | k <= i < |vs| ensures v.end <= vs[i].start {
      assert vs[k].start <= vs[i].start;
    }
    SpliceDisjoint(vs, v, k);
  }

  lemma SpliceDisjoint(vs: seq<Vma>, v: Vma, k: nat)
    requires Disjoint(vs) && v.start < v.end && k <= |vs|
    requires forall i :: 0 <= i < k ==> vs[i].end <= v.start
    requires forall i :: k <= i < |vs| ==> v.end <= vs[i].start
    ensures Disjoint(vs[..k] + [v] + vs[k..])
  {
    var r := vs[..k] + [v] + vs[k..];
    forall i, j | 0 <= i < j < |r| ensures r[i].end <= r[j].start {
      if j < k {
        assert r[i] == vs[i] && r[j] == vs[j];
      } else if j == k {
        assert r[i] == vs[i] && r[j] == v;
      } else if i < k {
        assert r[i] == vs[i] && r[j] == vs[j - 1];
      } else if i == k {
        assert r[i] == v && r[j] == vs[j - 1];
      } else {
        assert r[i] == vs[i - 1] && r[j] == vs[j - 1];
      }
    }
  }

  /** Inserting areas in address order appends them. */
  lemma InsertedLast(vs: seq<Vma>, v: Vma)
    requires forall i :: 0 <= i < |vs| ==> vs[i].start < v.start
    ensures Inserted(vs, v) == vs + [v]
  {
    assert Position(vs, v.start) == |vs|;
  }

  lemma RecordsOfInsert(recs: seq<Vma>, s: seq<nat>, k: nat, x: nat)
    requires k <= |s| && x < |recs| && forall i :: 0 <= i < |s| ==> s[i] < |recs|
    ensures forall i :: 0 <= i < |InsertAt(s, k, x)| ==> InsertAt(s, k, x)[i] < |recs|
    ensures Records(recs, InsertAt(s, k, x)) == Records(recs, s)[..k] + [recs[x]] + Records(recs, s)[k..]
  {
    InsertMembers(s, k, x);
  }

  lemma {:induction false} BeforeIs(vs: seq<Vma>, start: nat, k: nat)
    requires k <= |vs| && (forall i :: 0 <= i < k ==> vs[i].start < start) && (k < |vs| ==> vs[k].start >= start)
    ensures Before(vs, start) == k
  {
    if k > 0 { BeforeIs(vs[1..], start, k - 1); }
  }

  lemma PositionIs(vs: seq<Vma>, start: nat, k: nat)
    requires 1 <= k <= |vs| && vs[0].start <= start
    requires (forall i :: 1 <= i < k ==> vs[i].start < start) && (k < |vs| ==> vs[k].start >= start)
    ensures Position(vs, start) == k
  {
    BeforeIs(vs[1..], start, k - 1);
  }

  lemma OneHolder(recs: seq<Vma>, s: seq<nat>, address: nat, k: nat)
    requires (forall i :: 0 <= i < |s| ==> s[i] < |recs|) && k < |s| && Contains(recs[s[k]], address)
    ensures Disjoint(Records(recs, s)) ==> forall x :: x in s && Contains(recs[x], address) ==> x == s[k]
  {
    var r := Records(recs, s);
    if Disjoint(r) {
      forall i | 0 <= i < |s| && Contains(recs[s[i]], address) ensures i == k {
        assert Contains(r[i], address) && Contains(r[k], address);
      }
    }
  }

  lemma SameRecords(recs: seq<Vma>, recs': seq<Vma>, s: seq<nat>)
    requires |recs'| == |recs| && forall i :: 0 <= i < |s| ==> s[i] < |recs| && recs'[s[i]] == recs[s[i]]
    ensures Records(recs', s) == Records(recs, s)
  {
  }

  /** Records were added to one list, from free slots; the listed ones stand. */
  ghost predicate OnlyAdded(used: seq<bool>, used': seq<bool>, recs: seq<Vma>, recs': seq<Vma>,
                            home: map<nat, nat>, home': map<nat, nat>, m: nat)
  {
    && |used'| == |used| == |recs| == |recs'|
    && (forall x :: x in home ==> x < |used| && x in home' && home'[x] == home[x] && recs'[x] == recs[x])
    && (forall x :: x in home' && x !in home ==> x < |used| && home'[x] == m && !used[x])
    && (forall x :: 0 <= x < |used| ==> (used'[x] <==> used[x] || (x in home' && x !in home)))
  }

  /** The same, which the verifier looks into only where OnlyAdded is mentioned. */
  ghost predicate Added(used: seq<bool>, used': seq<bool>, recs: seq<Vma>, recs': seq<Vma>,
                        home: map<nat, nat>, home': map<nat, nat>, m: nat)
  {
    forall x :: x == home' ==> OnlyAdded(used, used', recs, recs', home, x, m)
  }

  lemma AddedOneMore(used0: seq<bool>, used: seq<bool>, recs0: seq<Vma>, recs: seq<Vma>,
                     home0: map<nat, nat>, home: map<nat, nat>, m: nat, c: nat, r: Vma)
    requires Added(used0, used, recs0, recs, home0, home, m) && c < |used| == |recs| && !used[c] && c !in home
    ensures Added(used0, used[c := true], recs0, recs[c := r], home0, home[c := m], m)
  {
    assert OnlyAdded(used0, used, recs0, recs, home0, home, m);
  }

  lemma NoneAdded(used: seq<bool>, recs: seq<Vma>, home: map<nat, nat>, m: nat)
    requires |recs| == |used| && forall x :: x in home ==> x < |used|
    ensures Added(used, used, recs, recs, home, home, m)
  {
    assert OnlyAdded(used, used, recs, recs, home, home, m);
  }

  /** A record is in use exactly if it is listed, or is one of a few others. */
  ghost predicate InUseFor(used: seq<bool>, home: map<nat, nat>, extra: set<nat>) {
    forall x {:trigger used[x]} :: 0 <= x < |used| ==> (used[x] <==> x in home || x in extra)
  }

  lemma AddedInUse(used: seq<bool>, used': seq<bool>, recs: seq<Vma>, recs': seq<Vma>, home: map<nat, nat>,
                   home': map<nat, nat>, m: nat)
    requires Added(used, used', recs, recs', home, home', m) && InUseFor(used, home, {})
    ensures |used'| == |used| && InUseFor(used', home', {})
  {
    assert OnlyAdded(used, used', recs, recs', home, home', m);
    forall x | 0 <= x < |used'| ensures used'[x] <==> x in home' {
      assert used[x] <==> x in home;
    }
  }

  lemma EvictedInUse(used: seq<bool>, used': seq<bool>, home: map<nat, nat>, gone: seq<nat>, m: nat)
    requires InUseFor(used, home, {}) && |used'| == |used|
    requires forall x :: x in gone <==> x in home && home[x] == m
    requires forall x :: 0 <= x < |used'| ==> (used'[x] <==> used[x] && x !in gone)
    ensures InUseFor(used', Evicted(home, m), {})
  {
    forall x | 0 <= x < |used'| ensures used'[x] <==> x in Evicted(home, m) {
      assert used[x] <==> x in home;
    }
  }

  /** The records in use, when they are the listed ones. */
  ghost function InUse(slots: seq<seq<nat>>, n: nat): seq<bool> {
    seq(n, x requires 0 <= x < n => exists m :: 0 <= m < |slots| && x in slots[m])
  }

  lemma UseIsListed(next: seq<int>, heads: seq<int>, lists: seq<seq<nat>>, home: map<nat, nat>, used: seq<bool>)
    requires Chains(next, heads, lists, home) && InUseFor(used, home, {})
    ensures used == InUse(lists, |used|)
  {
    forall x | 0 <= x < |used| ensures used[x] == InUse(lists, |used|)[x] {
      if x in home { assert x in lists[home[x]]; }
    }
  }

  /** A list that was empty takes its records from the free ones. */
  lemma RecordsTaken(lists: seq<seq<nat>>, lists': seq<seq<nat>>, next: seq<int>, heads: seq<int>, home: map<nat, nat>,
                     n: nat, m: nat)
    requires Chains(next, heads, lists', home) && m < |lists| == |lists'|
    requires lists[m] == [] && lists' == lists[m := lists'[m]]
    requires forall x :: x in lists'[m] ==> x < n
    ensures |FreeSlots(InUse(lists, n))| == |FreeSlots(InUse(lists', n))| + |lists'[m]|
  {
    var used, used' := InUse(lists, n), InUse(lists', n);
    DistinctSize(lists'[m]);
    forall x | 0 <= x < n ensures used'[x] <==> used[x] || x in lists'[m] {
      if used[x] {
        var k :| 0 <= k < |lists| && x in lists[k];
        assert x in lists'[k];
      }
    }
    forall x | x in Members(lists'[m]) ensures x in FreeSlots(used) {
      assert x in lists'[m] && home[x] == m;
      forall k | 0 <= k < |lists| ensures x !in lists[k] {
        assert k != m ==> lists[k] == lists'[k];
        assert x in lists'[k] ==> home[x] == k;
      }
    }
    assert FreeSlots(used) == FreeSlots(used') + Members(lists'[m]);
  }

  /** Inserting area k into the ones before it gives the ones up to it. */
  ghost predicate Grows(all: seq<Vma>, k: nat)
    requires k < |all|
  {
    Inserted(all[..k], all[k]) == all[..k + 1]
  }

  lemma AllGrow(all: seq<Vma>)
    requires Disjoint(all)
    ensures forall k :: 0 <= k < |all| ==> Grows(all, k)
  {
    forall k | 0 <= k < |all| ensures Grows(all, k) {
      InsertedLast(all[..k], all[k]);
      assert all[..k + 1] == all[..k] + [all[k]];
    }
  }

  /** The areas of every address space. */
  ghost function AreasOf(recs: seq<Vma>, lists: seq<seq<nat>>): (r: seq<seq<Vma>>)
    requires InRange(recs, lists)
    ensures |r| == |lists| && forall m :: 0 <= m < |lists| ==> r[m] == Records(recs, lists[m])
  {
    seq(|lists|, m requires 0 <= m < |lists| => Records(recs, lists[m]))
  }

  /** Every slot a list refers to is a record. */
  ghost predicate InRange(recs: seq<Vma>, lists: seq<seq<nat>>) {
    forall m, i :: 0 <= m < |lists| && 0 <= i < |lists[m]| ==> lists[m][i] < |recs|
  }

  ghost predicate AllHome(lists: seq<seq<nat>>, home: map<nat, nat>) {
    forall m, i :: 0 <= m < |lists| && 0 <= i < |lists[m]| ==> lists[m][i] in home
  }

  lemma AddedAreas(used: seq<bool>, used': seq<bool>, recs: seq<Vma>, recs': seq<Vma>, home: map<nat, nat>,
                   home': map<nat, nat>,
                   lists: seq<seq<nat>>, lists': seq<seq<nat>>, c: nat)
    requires OnlyAdded(used, used', recs, recs', home, home', c) && AllHome(lists, home)
    requires c < |lists| == |lists'| && (forall n :: 0 <= n < |lists| && n != c ==> lists'[n] == lists[n])
    requires InRange(recs, lists) && InRange(recs', lists')
    ensures AreasOf(recs', lists') == AreasOf(recs, lists)[c := Records(recs', lists'[c])]
  {
    forall n | 0 <= n < |lists| && n != c ensures Records(recs', lists'[n]) == Records(recs, lists[n]) {
      forall i | 0 <= i < |lists[n]| ensures recs'[lists[n][i]] == recs[lists[n][i]] {
        assert lists[n][i] in home;
      }
      SameRecords(recs, recs', lists[n]);
    }
  }

  /** The child's list is a copy of the parent's, or of its first few areas. */
  ghost predicate AreasCopied(areas: seq<seq<Vma>>, areas': seq<seq<Vma>>, parent: nat, child: nat, ok: bool) {
    true == (&& parent < |areas| && child < |areas| && |areas'| == |areas| && areas' == areas[child := areas'[child]]
             && areas'[child] <= areas[parent] && (ok ==> areas'[child] == areas[parent]))
  }

  /** The records of a list that was empty are slots that were free. */
  lemma AddedSlots(used0: seq<bool>, used: seq<bool>, recs0: seq<Vma>, recs: seq<Vma>, home0: map<nat, nat>,
                   next: seq<int>, heads: seq<int>, lists: seq<seq<nat>>, home: map<nat, nat>, m: nat)
    requires Added(used0, used, recs0, recs, home0, home, m) && Chains(next, heads, lists, home) && m < |lists|
    requires forall x :: x in home0 ==> home0[x] != m
    ensures |lists[m]| <= |FreeSlots(used0)|
    ensures FreeSlots(used) == {} ==> |lists[m]| == |FreeSlots(used0)|
  {
    assert OnlyAdded(used0, used, recs0, recs, home0, home, m);
    ListIsHome(next, heads, lists, home, m);
    TakenSlots(used0, used, lists[m]);
  }

  lemma CopiedIs(used: seq<bool>, used': seq<bool>, recs: seq<Vma>, recs': seq<Vma>, home: map<nat, nat>,
                 home': map<nat, nat>,
                 lists: seq<seq<nat>>, lists': seq<seq<nat>>, parent: nat, child: nat, ok: bool)
    requires Added(used, used', recs, recs', home, home', child) && AllHome(lists, home)
    requires parent < |lists| && child < |lists| == |lists'| && lists' == lists[child := lists'[child]]
    requires InRange(recs, lists) && InRange(recs', lists')
    requires Records(recs', lists'[child]) <= Records(recs, lists[parent])
    requires ok ==> Records(recs', lists'[child]) == Records(recs, lists[parent])
    ensures AreasCopied(AreasOf(recs, lists), AreasOf(recs', lists'), parent, child, ok)
  {
    assert OnlyAdded(used, used', recs, recs', home, home', child);
    AddedAreas(used, used', recs, recs', home, home', lists, lists', child);
  }

  class VmaPool {
    var used: seq<bool>
    var recs: seq<Vma>
    var next: seq<int>
    var heads: seq<int>
    /** The list of each address space, and which one each listed slot is in. */
    ghost var lists: seq<seq<nat>>
    ghost var home: map<nat, nat>

    ghost predicate Sized()
      reads this
    {
      |recs| == |used| && |next| == |used|
    }

    ghost predicate Valid()
      reads this
    {
      && Sized()
      && Chains(next, heads, lists, home)
      && (forall x :: x in home ==> used[x])
    }

    /** The areas of address space m, in list order. */
    ghost function Areas(m: nat): (r: seq<Vma>)
      requires Valid() && m < |lists|
      reads this
      ensures |r| == |lists[m]|
    {
      Records(recs, lists[m])
    }

    constructor (slots: nat, spaces: nat)
      ensures Valid() && home == map[] && |used| == slots && |lists| == spaces
      ensures forall x :: 0 <= x < slots ==> !used[x]
      ensures forall m :: 0 <= m < spaces ==> lists[m] == []
    {
      used := seq(slots, _ => false);
      recs := seq(slots, _ => Vma(0, 0, 0, 0));
      next := seq(slots, _ => -1);
      heads := seq(spaces, _ => -1);
      lists := seq(spaces, _ => []);
      home := map[];
    }

    /** A zeroed record, in no list yet. */
    method Alloc() returns (slot: int)
      requires Valid()
      modifies this`used, this`recs, this`next
      ensures Valid()
      ensures slot == -1 <==> FreeSlots(old(used)) == {}
      ensures slot == -1 ==> used == old(used) && recs == old(recs)
      ensures slot != -1 ==>
        && 0 <= slot < |used| && |used| == |old(used)| && !old(used)[slot] && slot !in home
        && used == old(used)[slot := true] && recs == old(recs)[slot := Vma(0, 0, 0, 0)]
    {
      slot := AllocSlot(used);
      if slot != -1 {
        ghost var was := next;
        used := used[slot := true];
        recs := recs[slot := Vma(0, 0, 0, 0)];
        next := next[slot := -1];
        ChainsFrame(was, next, heads, lists, home);
      }
    }
  
    /** The last listed slot before the insertion point, for a list whose head
        does not start after the new area. */
    method FindSlotBefore(m: nat, start: nat) returns (current: nat, ghost k: nat)
      requires Valid() && m < |lists| && lists[m] != [] && recs[lists[m][0]].start <= start
      ensures k < |lists[m]| && current == lists[m][k]
      ensures Position(Areas(m), start) == k + 1
    {
      ghost var s := lists[m];
      current, k := heads[m], 0;
      while next[current] != -1 && recs[next[current]].start < start
        invariant 0 <= k < |s| && current == s[k]
        invariant forall i :: 1 <= i <= k ==> recs[s[i]].start < start
        decreases |s| - k
      {
        current := next[current];
        k := k + 1;
      }
      PositionIs(Areas(m), start, k + 1);
    }

    /** Links an allocated record into the list of address space m. */
    method Insert(m: nat, v: nat)
      requires Valid() && m < |lists| && v < |used| && used[v] && v !in home
      modifies this`next, this`heads, this`lists, this`home
      ensures Valid() && home == old(home)[v := m]
      ensures lists == old(lists)[m := InsertAt(old(lists[m]), Position(old(Areas(m)), recs[v].start), v)]
    {
      ghost var k := Position(Areas(m), recs[v].start);
      if heads[m] == -1 || recs[v].start < recs[heads[m]].start {
        next, heads := ChainPushFront(next, heads, m, v, lists, home);
      } else {
        var current;
        ghost var at;
        current, at := FindSlotBefore(m, recs[v].start);
        next := ChainInsertBehind(next, heads, m, current, v, at, lists, home);
      }
      lists := lists[m := InsertAt(lists[m], k, v)];
      home := home[v := m];
    }

    /** Unlinks v from the list of address space m, if it is there. */
    method Remove(m: nat, v: nat)
      requires Valid() && m < |lists|
      modifies this`next, this`heads, this`lists, this`home
      ensures Valid()
      ensures v !in old(lists[m]) ==>
          lists == old(lists) && home == old(home) && next == old(next) && heads == old(heads)
      ensures v in old(lists[m]) ==>
        lists == old(lists)[m := RemoveAt(old(lists[m]), IndexOf(old(lists[m]), v))] && home == old(home) - {v}
    {
      next, heads := ChainUnlink(next, heads, m, v, lists, home);
      if v in lists[m] {
        lists, home := lists[m := RemoveAt(lists[m], IndexOf(lists[m], v))], home - {v};
      }
    }

    /** Returns an unlisted record to the pool. */
    method Free(v: nat)
      requires Valid() && v < |used| && v !in home
      modifies this`used
      ensures Valid() && used == old(used)[v := false]
    {
      used := used[v := false];
    }

    /** Frees every record of address space m, each once. */
    method DestroyAll(m: nat)
      requires Valid() && m < |lists|
      modifies this`used, this`heads, this`lists, this`home
      ensures Valid() && lists == old(lists)[m := []] && home == Evicted(old(home), m)
      ensures |used| == |old(used)|
      ensures forall x :: 0 <= x < |used| ==> (used[x] <==> old(used)[x] && x !in old(lists[m]))
    {
      ghost var s, k := lists[m], 0;
      var current := heads[m];
      while current != -1
        invariant 0 <= k <= |s| && current == if k < |s| then s[k] else -1
        invariant |used| == |old(used)|
        invariant forall x :: 0 <= x < |used| ==> (used[x] <==> old(used)[x] && x !in s[..k])
        decreases |s| - k
        modifies this`used
      {
        var following := next[current];
        used := used[current := false];
        assert s[..k + 1] == s[..k] + [s[k]];
        current := following;
        k := k + 1;
      }
      assert s[..|s|] == s;
      ChainDrop(next, heads, lists, home, m);
      heads := heads[m := -1];
      lists, home := lists[m := []], Evicted(home, m);
    }

    /** The area that holds an address; there is at most one. */
    method Find(m: nat, address: nat) returns (v: int)
      requires Valid() && m < |lists|
      ensures v == -1 <==> forall i :: 0 <= i < |Areas(m)| ==> !Contains(Areas(m)[i], address)
      ensures v != -1 ==> v in lists[m] && Contains(recs[v], address)
      ensures v != -1 && Disjoint(Areas(m)) ==>
        forall x :: x in lists[m] && Contains(recs[x], address) ==> x == v
    {
      ghost var s, k := lists[m], 0;
      v := heads[m];
      while v != -1
        invariant 0 <= k <= |s| && v == if k < |s| then s[k] else -1
        invariant forall i :: 0 <= i < k ==> !Contains(recs[s[i]], address)
        decreases |s| - k
      {
        if recs[v].start <= address && address < recs[v].end {
          assert Contains(Areas(m)[k], address);
          OneHolder(recs, s, address, k);
          return;
        }
        v := next[v];
        k := k + 1;
      }
    }

    /** A taken record gets its contents and goes into a list. */
    method ListRecord(m: nat, slot: nat, v: Vma)
      requires Valid() && m < |lists| && slot < |used| && used[slot] && slot !in home
      modifies this`recs, this`next, this`heads, this`lists, this`home
      ensures Valid() && |lists| == |old(lists)| && recs == old(recs)[slot := v] && home == old(home)[slot := m]
      ensures forall n :: 0 <= n < |lists| && n != m ==> lists[n] == old(lists)[n]
      ensures Areas(m) == Inserted(old(Areas(m)), v)
    {
      recs := recs[slot := v];
      SameRecords(old(recs), recs, lists[m]);
      RecordsOfInsert(recs, lists[m], Position(Areas(m), recs[slot].start), slot);
      Insert(m, slot);
    }

    /** Allocates a copy of a listed record and inserts it. */
    method CloneOne(child: nat, pvma: nat) returns (ok: bool, ghost cvma: int)
      requires Valid() && child < |lists| && pvma in home && home[pvma] != child
      modifies this
      ensures Valid() && |lists| == |old(lists)| && |used| == |old(used)|
      ensures !ok ==> used == old(used) && recs == old(recs) && lists == old(lists) && home == old(home)
      ensures !ok ==> FreeSlots(used) == {}
      ensures ok ==>
        && 0 <= cvma < |used| && !old(used)[cvma] && used == old(used)[cvma := true]
        && recs == old(recs)[cvma := old(recs)[pvma]] && cvma !in old(home) && home == old(home)[cvma := child]
        && (forall n :: 0 <= n < |lists| && n != child ==> lists[n] == old(lists)[n])
        && Areas(child) == Inserted(old(Areas(child)), old(recs)[pvma])
    {
      cvma := -1;
      var slot := Alloc();
      if slot == -1 {
        return false, cvma;
      }
      cvma := slot;
      assert Areas(child) == old(Areas(child));
      ListRecord(child, slot, recs[pvma]);
      return true, cvma;
    }

    /** One step of a walk along a list. */
    method Follow(v: nat, ghost m: nat, ghost s: seq<nat>, ghost k: nat) returns (following: int)
      requires Valid() && m < |lists| && lists[m] == s && k < |s| && v == s[k]
      ensures following == LinkAfter(s, k)
    {
      ChainNext(next, heads, lists, home, m, k);
      following := next[v];
    }

    /** The first k areas of a parent are copied. */
    ghost predicate Copied(child: nat, s: seq<nat>, all: seq<Vma>, k: nat,
                           used0: seq<bool>, recs0: seq<Vma>, home0: map<nat, nat>, lists0: seq<seq<nat>>)
      reads this
    {
      true == (&& Valid() && child < |lists| == |lists0| && k <= |s| == |all|
               && (forall n :: 0 <= n < |lists| && n != child ==> lists[n] == lists0[n])
               && Added(used0, used, recs0, recs, home0, home, child)
               && Areas(child) == all[..k]
               && (forall i :: 0 <= i < |s| ==>
                     s[i] in home0 && home0[s[i]] != child && s[i] < |recs0| && recs0[s[i]] == all[i]))
    }

    method CopyNext(child: nat, pvma: nat, ghost s: seq<nat>, ghost all: seq<Vma>, ghost k: nat,
                    ghost used0: seq<bool>, ghost recs0: seq<Vma>, ghost home0: map<nat, nat>,
                      ghost lists0: seq<seq<nat>>)
      returns (ok: bool)
      requires Copied(child, s, all, k, used0, recs0, home0, lists0) && k < |s| && pvma == s[k] && Grows(all, k)
      modifies this
      ensures Copied(child, s, all, if ok then k + 1 else k, used0, recs0, home0, lists0)
      ensures !ok ==> FreeSlots(used) == {}
    {
      assert OnlyAdded(used0, used, recs0, recs, home0, home, child) && s[k] in home0 && recs0[s[k]] == all[k];
      ghost var cvma, used1, recs1, home1 := -1, used, recs, home;
      ok, cvma := CloneOne(child, pvma);
      if ok {
        AddedOneMore(used0, used1, recs0, recs1, home0, home1, child, cvma, all[k]);
      }
    }

    /** The copying loop over the parent's list. */
    method CopyAll(parent: nat, child: nat, ghost s: seq<nat>, ghost all: seq<Vma>,
                   ghost used0: seq<bool>, ghost recs0: seq<Vma>, ghost home0: map<nat, nat>,
                     ghost lists0: seq<seq<nat>>)
      returns (ok: bool, ghost k: nat)
      requires Copied(child, s, all, 0, used0, recs0, home0, lists0)
      requires parent < |lists| && parent != child && lists[parent] == s && forall k :: 0 <= k < |all| ==> Grows(all, k)
      modifies this
      ensures Copied(child, s, all, k, used0, recs0, home0, lists0) && (ok <==> k == |s|)
      ensures !ok ==> FreeSlots(used) == {}
    {
      k := 0;
      var pvma := heads[parent];
      while pvma != -1
        invariant pvma == if k < |s| then s[k] else -1
        invariant Copied(child, s, all, k, used0, recs0, home0, lists0)
        decreases |s| - k
      {
        ok := CopyNext(child, pvma, s, all, k, used0, recs0, home0, lists0);
        if !ok {
          return;
        }
        pvma := Follow(pvma, parent, s, k);
        k := k + 1;
      }
      ok := true;
    }

    lemma CopyBegins(parent: nat, child: nat)
      requires Valid() && parent < |lists| && child < |lists| && parent != child && lists[child] == []
      ensures Copied(child, lists[parent], Areas(parent), 0, used, recs, home, lists)
    {
      NoneAdded(used, recs, home, child);
      assert forall i :: 0 <= i < |lists[parent]| ==> lists[parent][i] in lists[parent];
    }

    /** Copies the areas of one address space into another, empty one. */
    method CloneList(parent: nat, child: nat) returns (ok: bool)
      requires Valid() && parent < |lists| && child < |lists| && parent != child
      requires lists[child] == [] && Disjoint(Areas(parent))
      modifies this
      ensures Valid() && |lists| == |old(lists)|
      ensures Areas(child) <= old(Areas(parent)) && (ok <==> Areas(child) == old(Areas(parent)))
      ensures !ok ==> FreeSlots(used) == {}
      ensures Added(old(used), used, old(recs), recs, old(home), home, child)
      ensures forall n :: 0 <= n < |lists| && n != child ==> lists[n] == old(lists)[n]
    {
      ghost var s, all := lists[parent], Areas(parent);
      CopyBegins(parent, child);
      AllGrow(all);
      ghost var k;
      ok, k := CopyAll(parent, child, s, all, used, recs, home, lists);
      assert all[..|s|] == all;
    }

    ghost function AllAreas(): (r: seq<seq<Vma>>)
      requires Valid()
      reads this
      ensures |r| == |lists| && forall m :: 0 <= m < |lists| ==> r[m] == Areas(m)
    {
      AreasOf(recs, lists)
    }

    /** No record is in use but the listed ones and a few others. */
    ghost predicate Tight(extra: set<nat>)
      reads this
    {
      Valid() && InUseFor(used, home, extra)
    }

    /** A record for an area, in no list yet. */
    method AllocArea(v: Vma) returns (slot: int)
      requires Tight({})
      modifies this`used, this`recs, this`next
      ensures slot >= -1 && Tight(if slot == -1 then {} else {slot as nat}) && AllAreas() == old(AllAreas())
      ensures |used| == |old(used)|
      ensures slot == -1 <==> FreeSlots(old(used)) == {}
      ensures slot != -1 ==> 0 <= slot < |used| && used[slot] && slot !in home && recs[slot] == v
    {
      slot := Alloc();
      if slot != -1 {
        recs := recs[slot := v];
        forall m | 0 <= m < |lists| ensures Records(recs, lists[m]) == Records(old(recs), lists[m]) {
          SameRecords(old(recs), recs, lists[m]);
        }
      }
      assert AllAreas() == old(AllAreas());
    }

    method InsertArea(m: nat, v: nat)
      requires Valid() && m < |lists| && v < |used| && used[v] && v !in home
      modifies this`next, this`heads, this`lists, this`home
      ensures Valid() && home == old(home)[v := m] && |lists| == |old(lists)|
      ensures AllAreas() == old(AllAreas())[m := Inserted(old(Areas(m)), recs[v])]
      ensures forall n :: 0 <= n < |lists| && n != m ==> lists[n] == old(lists)[n]
    {
      RecordsOfInsert(recs, lists[m], Position(Areas(m), recs[v].start), v);
      Insert(m, v);
    }

    /** Gives an allocated record back. */
    method Discard(m: nat, v: nat)
      requires Valid() && m < |lists| && v < |used| && v !in home
      modifies this`used, this`next, this`heads, this`lists, this`home
      ensures Valid() && used == old(used)[v := false] && AllAreas() == old(AllAreas()) && lists == old(lists)
      ensures home == old(home)
    {
      Remove(m, v);
      Free(v);
    }

    /** Lists an allocated record, or gives it back. */
    method Settle(m: nat, v: nat, ok: bool)
      requires Tight({v}) && m < |lists| && v < |used| && v !in home
      modifies this`used, this`next, this`heads, this`lists, this`home
      ensures Tight({}) && |lists| == |old(lists)| && |used| == |old(used)|
      ensures !ok ==> lists == old(lists)
      ensures lists == old(lists)[m := lists[m]]
      ensures AllAreas() == if ok then old(AllAreas())[m := Inserted(old(AllAreas())[m], recs[v])] else old(AllAreas())
    {
      if ok {
        InsertArea(m, v);
      } else {
        Discard(m, v);
      }
    }

    method DropAreas(m: nat)
      requires Tight({}) && m < |lists|
      modifies this`used, this`heads, this`lists, this`home
      ensures Tight({}) && |used| == |old(used)|
      ensures AllAreas() == old(AllAreas())[m := []] && lists == old(lists)[m := []]
    {
      ListIsHome(next, heads, lists, home, m);
      ghost var used0, home0, gone := used, home, lists[m];
      DestroyAll(m);
      EvictedInUse(used0, used, home0, gone, m);
    }

    method CloneTight(parent: nat, child: nat) returns (ok: bool)
      requires Tight({}) && parent < |lists| && child < |lists| && parent != child
      requires lists[child] == [] && Disjoint(Areas(parent))
      modifies this
      ensures Tight({}) && |lists| == |old(lists)| && |used| == |old(used)|
      ensures Areas(child) <= old(Areas(parent)) && (ok <==> Areas(child) == old(Areas(parent)))
      ensures !ok ==> FreeSlots(used) == {}
      ensures Added(old(used), used, old(recs), recs, old(home), home, child)
      ensures lists == old(lists)[child := lists[child]]
    {
      ok := CloneList(parent, child);
      AddedInUse(old(used), used, old(recs), recs, old(home), home, child);
    }

    /** Copies the areas of one address space into another, empty one. */
    method CloneAreas(parent: nat, child: nat) returns (ok: bool)
      requires Tight({}) && parent < |lists| && child < |lists| && parent != child
      requires lists[child] == [] && Disjoint(Areas(parent))
      modifies this
      ensures Tight({}) && |used| == |old(used)| && |lists| == |old(lists)|
      ensures lists == old(lists)[child := lists[child]]
      ensures AreasCopied(old(AllAreas()), AllAreas(), parent, child, ok)
      ensures ok <==> |old(AllAreas())[parent]| <= |FreeSlots(old(used))|
    {
      assert AllHome(lists, home) && InRange(recs, lists);
      ok := CloneTight(parent, child);
      AddedSlots(old(used), used, old(recs), recs, old(home), next, heads, lists, home, child);
      CopiedIs(old(used), used, old(recs), recs, old(home), home, old(lists), lists, parent, child, ok);
    }

    /** The records of list m, which was empty, were free. */
    lemma ListTook(lists0: seq<seq<nat>>, m: nat)
      requires Tight({}) && m < |lists0| == |lists| && lists0[m] == [] && lists == lists0[m := lists[m]]
      ensures |FreeSlots(InUse(lists0, |used|))| == |FreeSlots(used)| + |AllAreas()[m]|
    {
      UseIsListed(next, heads, lists, home, used);
      RecordsTaken(lists0, lists, next, heads, home, |used|, m);
    }
  }
}
