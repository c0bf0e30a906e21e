/** Every step of the scheduler keeps its queues, lists and states consistent. */
module SchedInv {
  import opened Lists
  import opened SchedModel

  // ---- Queries ----

  lemma {:induction false} FindsRunnable(ts: seq<Thread>, q: seq<nat>, t: nat)
    requires t in q && t < |ts| && ts[t].state == Runnable
    ensures 0 <= FirstRunnable(ts, q) < |ts| && ts[FirstRunnable(ts, q)].state == Runnable && FirstRunnable(ts, q) in q
  {
    if !(q[0] < |ts| && ts[q[0]].state == Runnable) {
      assert t in q[1..];
      FindsRunnable(ts, q[1..], t);
    }
  }

  lemma OrderMembers(s: Sys)
    ensures forall t :: t in Order(s) <==> t in s.ring
  {
    if s.current >= 0 && s.current in s.ring {
      var k := IndexOf(s.ring, s.current);
      assert s.ring == s.ring[..k + 1] + s.ring[k + 1..];
    }
  }

  lemma WithoutMembers(q: seq<nat>, x: nat)
    requires Distinct(q)
    ensures Distinct(Without(q, x)) && forall y :: y in Without(q, x) <==> y in q && y != x
  {
    if x in q {
      RemoveMembers(q, IndexOf(q, x));
    }
  }

  /** In a consistent state the search always finds a thread. */
  lemma SwitchFinds(s: Sys)
    requires Inv(s)
    ensures s.ring != [] && 0 <= FirstRunnable(Preempted(s), Order(s)) < |s.ts|
    ensures var c := FirstRunnable(Preempted(s), Order(s)); c in s.ring && Preempted(s)[c].state == Runnable
  {
    var i := s.idle;
    assert ThreadOk(s, i);
    OrderMembers(s);
    FindsRunnable(Preempted(s), Order(s), i);
  }

  // ---- Steps that only change thread states ----

  /** s' has the same processes and lists as s, except for what is said apart. */
  predicate SameTables(s: Sys, s': Sys) {
    && s'.ps == s.ps && s'.children == s.children && s'.members == s.members && s'.idle == s.idle && |s'.ts| == |s.ts|
  }

  /** Thread t keeps its process and its liveness. */
  predicate KeepsLife(s: Sys, s': Sys, t: nat) {
    t < |s.ts| == |s'.ts| ==>
      && s'.ts[t].proc == s.ts[t].proc && (HasLife(s'.ts[t].state) <==> HasLife(s.ts[t].state))
      && (s'.ts[t].state == Unused <==> s.ts[t].state == Unused)
      && (s'.ts[t].state == Zombie <==> s.ts[t].state == Zombie)
  }

  lemma TablesStay(s: Sys, s': Sys)
    requires Inv(s) && Sized(s') && SameTables(s, s') && forall t: nat :: KeepsLife(s, s', t)
    ensures forall p: nat, t: nat :: MemberOk(s', p, t)
    ensures forall p: nat, c: nat :: ChildOk(s', p, c)
  {
    forall p: nat, t: nat ensures MemberOk(s', p, t) { assert MemberOk(s, p, t) && KeepsLife(s, s', t); }
    forall p: nat, c: nat ensures ChildOk(s', p, c) { assert ChildOk(s, p, c); }
  }

  lemma SwitchThread(s: Sys, t: nat)
    requires Inv(s)
    ensures Sized(Switch(s)) && KeepsLife(s, Switch(s), t) && ThreadOk(Switch(s), t)
  {
    SwitchFinds(s);
    assert ThreadOk(s, t);
  }

  /** Deadlines decide the order of the queue, not states. */
  predicate SameWakes(ts: seq<Thread>, ts': seq<Thread>) {
    |ts'| == |ts| && forall t :: 0 <= t < |ts| ==> ts'[t].wake == ts[t].wake
  }

  lemma SortedStays(ts: seq<Thread>, ts': seq<Thread>, q: seq<nat>)
    requires Sorted(ts, q) && SameWakes(ts, ts')
    ensures Sorted(ts', q)
  {
  }

  lemma SwitchQueues(s: Sys)
    requires Inv(s)
    ensures QueuesOk(Switch(s))
  {
    SwitchFinds(s);
    SortedStays(s.ts, Switch(s).ts, s.sleepers);
  }

  lemma SwitchInv(s: Sys)
    requires Inv(s)
    ensures Inv(Switch(s)) && IsThread(Switch(s), Switch(s).current) && Switch(s).ts[Switch(s).current].state == Running
  {
    SwitchFinds(s);
    SwitchQueues(s);
    var s' := Switch(s);
    forall t: nat ensures KeepsLife(s, s', t) && ThreadOk(s', t) { SwitchThread(s, t); }
    TablesStay(s, s');
    forall p: nat, t: nat ensures WaiterOk(s', p, t) { assert WaiterOk(s, p, t); }
    forall p: nat ensures ProcOk(s', p) { assert ProcOk(s, p); }
  }

  // ---- Sleeping ----

  /** Inserting behind everything due no later keeps the queue sorted. */
  lemma InsertSorted(ts: seq<Thread>, q: seq<nat>, t: nat)
    requires Sorted(ts, q) && t < |ts| && t !in q
    ensures Sorted(ts, InsertAt(q, Due(ts, q, ts[t].wake), t))
  {
    var k := Due(ts, q, ts[t].wake);
    var r := InsertAt(q, k, t);
    forall i | 0 <= i < |r| ensures r[i] < |ts| && r[i] == (if i < k then q[i] else if i == k then t else q[i - 1]) { }
    forall i, j | 0 <= i < j < |r| ensures ts[r[i]].wake <= ts[r[j]].wake {
      assert k < |q| ==> ts[q[k]].wake > ts[t].wake;
      assert i == k && j > k ==> ts[q[k]].wake <= ts[q[j - 1]].wake;
    }
  }

  /** A running thread other than the idle one. */
  predicate Acting(s: Sys) { IsThread(s, s.current) && s.ts[s.current].state == Running && s.current != s.idle }

  lemma ActingHasProc(s: Sys)
    requires Inv(s) && Acting(s)
    ensures IsAlive(s, s.ts[s.current].proc) && s.current in s.members[s.ts[s.current].proc] && s.current in s.ring
    ensures s.ps[s.ts[s.current].proc].live > 0 && s.current !in s.sleepers && s.ts[s.current].wait == NoWait
  {
    assert ThreadOk(s, s.current);
    assert ProcOk(s, s.ts[s.current].proc);
  }

  lemma SleepInv(s: Sys, n: nat)
    requires Inv(s) && Acting(s)
    ensures Inv(Sleep(s, n))
  {
    ActingHasProc(s);
    var t, s' := s.current, Sleep(s, n);
    InsertMembers(s.sleepers, Due(s'.ts, s.sleepers, s'.ts[t].wake), t);
    assert Sorted(s'.ts, s.sleepers);
    InsertSorted(s'.ts, s.sleepers, t);
    forall u: nat ensures KeepsLife(s, s', u) { }
    TablesStay(s, s');
    forall u: nat ensures ThreadOk(s', u) { assert ThreadOk(s, u); }
    forall p: nat, u: nat ensures WaiterOk(s', p, u) { assert WaiterOk(s, p, u); }
    forall p: nat ensures ProcOk(s', p) { assert ProcOk(s, p); }
  }

  lemma TailSorted(ts: seq<Thread>, q: seq<nat>, k: nat)
    requires Sorted(ts, q) && k <= |q|
    ensures Sorted(ts, q[k..])
  {
  }

  lemma SplitMembers(q: seq<nat>, k: nat)
    requires k <= |q| && Distinct(q)
    ensures Distinct(q[k..]) && forall x :: x in q <==> x in q[..k] || x in q[k..]
    ensures forall x :: x in q[..k] ==> x !in q[k..]
  {
    assert q == q[..k] + q[k..];
  }

  lemma TickThread(s: Sys, t: nat)
    requires Inv(s)
    ensures Sized(Tick(s)) && KeepsLife(s, Tick(s), t) && ThreadOk(Tick(s), t)
    ensures t < |s.ts| && t !in s.sleepers ==> Tick(s).ts[t] == s.ts[t]
  {
    SplitMembers(s.sleepers, Due(s.ts, s.sleepers, s.ticks + 1));
    assert ThreadOk(s, t);
  }

  lemma TickQueues(s: Sys)
    requires Inv(s)
    ensures QueuesOk(Tick(s))
  {
    var k := Due(s.ts, s.sleepers, s.ticks + 1);
    SplitMembers(s.sleepers, k);
    TailSorted(s.ts, s.sleepers, k);
    SortedStays(s.ts, Tick(s).ts, s.sleepers[k..]);
    assert ThreadOk(s, s.idle);
    TickThread(s, s.idle);
    if s.current != -1 { TickThread(s, s.current); }
  }

  lemma TickInv(s: Sys)
    requires Inv(s)
    ensures Inv(Tick(s))
  {
    var s' := Tick(s);
    TickQueues(s);
    forall t: nat ensures KeepsLife(s, s', t) && ThreadOk(s', t) { TickThread(s, t); }
    TablesStay(s, s');
    forall p: nat, t: nat ensures WaiterOk(s', p, t) { assert WaiterOk(s, p, t) && ThreadOk(s, t); TickThread(s, t); }
    forall p: nat ensures ProcOk(s', p) { assert ProcOk(s, p); }
  }

  // ---- Waiting ----

  lemma BlockInv(s: Sys, wait: Wait)
    requires Inv(s) && Acting(s) && wait != NoWait
    ensures IsProc(s, s.ts[s.current].proc) && Inv(Block(s, wait))
  {
    ActingHasProc(s);
    var t, s' := s.current, Block(s, wait);
    var p := s.ts[t].proc;
    assert WaiterOk(s, p, t);
    forall u: nat ensures KeepsLife(s, s', u) { }
    TablesStay(s, s');
    forall u: nat ensures ThreadOk(s', u) { assert ThreadOk(s, u); }
    forall q: nat, u: nat ensures WaiterOk(s', q, u) { assert WaiterOk(s, q, u); }
    forall q: nat ensures ProcOk(s', q) { assert ProcOk(s, q); }
  }

  lemma WakeInv(s: Sys, t: nat)
    requires Inv(s) && IsThread(s, t) && IsProc(s, s.ts[t].proc)
    ensures Inv(Wake(s, t))
  {
    var p, s' := s.ts[t].proc, Wake(s, t);
    assert ThreadOk(s, t) && ProcOk(s, p);
    WithoutMembers(s.sleepers, t);
    WithoutMembers(s.waiters[p], t);
    SleepersStay(s, t);
    forall u: nat ensures KeepsLife(s, s', u) { }
    TablesStay(s, s');
    forall u: nat ensures ThreadOk(s', u) { assert ThreadOk(s, u); }
    forall q: nat, u: nat ensures WaiterOk(s', q, u) { assert WaiterOk(s, q, u); }
    forall q: nat ensures ProcOk(s', q) { assert ProcOk(s, q); }
  }

  lemma RemovedAt(q: seq<nat>, k: nat, i: nat)
    requires k < |q| && i < |q| - 1
    ensures RemoveAt(q, k)[i] == q[if i < k then i else i + 1]
  {
  }

  /** Taking one out of a sorted queue leaves it sorted. */
  lemma RemoveSorted(ts: seq<Thread>, ts': seq<Thread>, q: seq<nat>, t: nat)
    requires Sorted(ts, q) && |ts'| == |ts| && forall u :: 0 <= u < |ts| ==> ts'[u].wake == ts[u].wake
    ensures Sorted(ts', Without(q, t))
  {
    if t in q {
      var k, r := IndexOf(q, t), Without(q, t);
      forall i | 0 <= i < |r| ensures r[i] < |ts| { RemovedAt(q, k, i); }
      forall i, j | 0 <= i < j < |r| ensures ts'[r[i]].wake <= ts'[r[j]].wake {
        RemovedAt(q, k, i);
        RemovedAt(q, k, j);
      }
    }
  }

  lemma SleepersStay(s: Sys, t: nat)
    requires Inv(s) && IsThread(s, t) && IsProc(s, s.ts[t].proc)
    ensures Sorted(Wake(s, t).ts, Wake(s, t).sleepers)
  {
    RemoveSorted(s.ts, Wake(s, t).ts, s.sleepers, t);
  }

  lemma WakeParentInv(s: Sys, c: nat)
    requires Inv(s) && c < |s.ps|
    ensures Inv(WakeParent(s, c))
  {
    var p := s.ps[c].parent;
    if 0 <= p < |s.ps| {
      var t := FirstMatch(s.ts, s.waiters[p], c);
      if t != -1 && IsThread(s, t) && IsProc(s, s.ts[t].proc) {
        WakeInv(s, t);
      }
    }
  }

  // ---- Exit ----

  lemma OnlyMember(s: Sys, p: nat, t: nat)
    requires Inv(s) && IsAlive(s, p) && s.ps[p].live == 1 && t in s.members[p]
    ensures s.members[p] == [t] && forall u :: 0 <= u < |s.ts| && HasLife(s.ts[u].state) && s.ts[u].proc == p ==> u == t
  {
    assert ProcOk(s, p);
    forall u | 0 <= u < |s.ts| && HasLife(s.ts[u].state) && s.ts[u].proc == p ensures u == t { assert ThreadOk(s, u); }
  }

  ghost predicate CanExit(s: Sys) {
    Inv(s) && Acting(s) && IsProc(s, s.ts[s.current].proc) && s.ps[s.ts[s.current].proc].live > 0
  }

  lemma ExitLastInv(s: Sys, code: int)
    requires CanExit(s) && s.ps[s.ts[s.current].proc].live == 1
    ensures Inv(ExitLast(s, code))
  {
    ActingHasProc(s);
    var t := s.current;
    var p := s.ts[t].proc;
    OnlyMember(s, p, t);
    var s1 := s.(ts := s.ts[t := s.ts[t].(state := Zombie, code := code)],
                 ps := s.ps[p := s.ps[p].(live := 0, state := PZombie, code := code)]);
    forall u: nat ensures ThreadOk(s1, u) { assert ThreadOk(s, u); }
    forall q: nat, u: nat ensures WaiterOk(s1, q, u) { assert WaiterOk(s, q, u) && ThreadOk(s, u); }
    forall q: nat, u: nat ensures MemberOk(s1, q, u) { assert MemberOk(s, q, u); }
    forall q: nat, c: nat ensures ChildOk(s1, q, c) { assert ChildOk(s, q, c); }
    forall q: nat ensures ProcOk(s1, q) { assert ProcOk(s, q); }
    WakeParentInv(s1, p);
  }

  lemma ExitOneInv(s: Sys, code: int)
    requires CanExit(s) && s.ps[s.ts[s.current].proc].live > 1
    ensures Inv(ExitOne(s, code))
  {
    ActingHasProc(s);
    var t, s' := s.current, ExitOne(s, code);
    var p := s.ts[t].proc;
    assert ProcOk(s, p);
    WithoutMembers(s.members[p], t);
    forall u: nat ensures ThreadOk(s', u) { assert ThreadOk(s, u); }
    forall q: nat, u: nat ensures WaiterOk(s', q, u) { assert WaiterOk(s, q, u); }
    forall q: nat, u: nat ensures MemberOk(s', q, u) { assert MemberOk(s, q, u); }
    forall q: nat, c: nat ensures ChildOk(s', q, c) { assert ChildOk(s, q, c); }
    forall q: nat ensures ProcOk(s', q) { assert ProcOk(s, q); }
  }

  lemma ExitInv(s: Sys, code: int)
    requires CanExit(s)
    ensures Inv(Exit(s, code))
  {
    if s.ps[s.ts[s.current].proc].live == 1 { ExitLastInv(s, code); } else { ExitOneInv(s, code); }
  }

  // ---- Threads and processes come and go ----

  lemma AddThreadInv(s: Sys, t: nat, p: nat)
    requires Inv(s) && t < |s.ts| && s.ts[t].state == Unused && IsAlive(s, p)
    ensures Inv(AddThread(s, t, p))
  {
    var s' := AddThread(s, t, p);
    assert ThreadOk(s, t) && ProcOk(s, p) && MemberOk(s, p, t);
    forall u: nat ensures ThreadOk(s', u) { assert ThreadOk(s, u); }
    forall q: nat, u: nat ensures WaiterOk(s', q, u) { assert WaiterOk(s, q, u); }
    forall q: nat, u: nat ensures MemberOk(s', q, u) { assert MemberOk(s, q, u); }
    forall q: nat, c: nat ensures ChildOk(s', q, c) { assert ChildOk(s, q, c); }
    forall q: nat ensures ProcOk(s', q) { assert ProcOk(s, q); }
  }

  lemma SomeMember(q: seq<nat>)
    requires q != []
    ensures exists x :: x in q
  {
    assert q[0] in q;
  }

  lemma AppendDistinct(q: seq<nat>, x: nat)
    requires Distinct(q) && x !in q
    ensures Distinct(q + [x])
  {
  }

  /** An unused slot has no lists and no threads. */
  lemma UnusedIsBare(s: Sys, p: nat)
    requires Inv(s) && p < |s.ps| && !s.ps[p].inuse
    ensures s.members[p] == [] && s.waiters[p] == [] && s.children[p] == []
    ensures forall q, c :: 0 <= q < |s.ps| && c in s.children[q] ==> c != p
  {
    assert forall t: nat :: t in s.members[p] ==> MemberOk(s, p, t);
    assert forall t: nat :: t in s.waiters[p] ==> WaiterOk(s, p, t) && ThreadOk(s, t);
    assert forall c: nat :: c in s.children[p] ==> ChildOk(s, p, c);
    forall q, c | 0 <= q < |s.ps| && c in s.children[q] ensures c != p { assert ChildOk(s, q, c); }
    if s.members[p] != [] { SomeMember(s.members[p]); }
    if s.waiters[p] != [] { SomeMember(s.waiters[p]); }
    if s.children[p] != [] { SomeMember(s.children[p]); }
  }

  /** A slot that is taken, or given back, before any list knows it. */
  lemma BareSlotInv(s: Sys, s': Sys, p: nat)
    requires Inv(s) && p < |s.ps| && !s.ps[p].inuse && p < |s'.ps| && s' == s.(ps := s.ps[p := s'.ps[p]])
    requires s'.ps[p].inuse ==> s'.ps[p].state == Alive && s'.ps[p].live == 0
    ensures Inv(s')
  {
    UnusedIsBare(s, p);
    forall u: nat ensures ThreadOk(s', u) { assert ThreadOk(s, u); }
    forall q: nat, u: nat ensures WaiterOk(s', q, u) { assert WaiterOk(s, q, u); }
    forall q: nat, u: nat ensures MemberOk(s', q, u) { assert MemberOk(s, q, u); }
    forall q: nat, c: nat ensures ChildOk(s', q, c) { assert ChildOk(s, q, c); }
    forall q: nat ensures ProcOk(s', q) { assert ProcOk(s, q); }
  }

  lemma OpenDropInv(s: Sys, p: nat, parent: int, user: bool)
    requires Inv(s) && p < |s.ps| && !s.ps[p].inuse
    ensures Inv(OpenProc(s, p, parent, user)) && Inv(DropProc(OpenProc(s, p, parent, user), p))
    ensures DropProc(OpenProc(s, p, parent, user), p) == s.(ps := s.ps[p := Proc(false, Alive, 0, 0, parent, user, -1)])
  {
    UnusedIsBare(s, p);
    var o := OpenProc(s, p, parent, user);
    assert s.members[p := []] == s.members && s.waiters[p := []] == s.waiters && s.children[p := []] == s.children;
    BareSlotInv(s, o, p);
    var d := DropProc(o, p);
    assert d.ps == s.ps[p := d.ps[p]];
    BareSlotInv(s, d, p);
  }

  lemma AddProcInv(s: Sys, p: nat, parent: int, user: bool, space: int)
    requires Inv(s) && p < |s.ps| && !s.ps[p].inuse && (parent == -1 || IsProc(s, parent))
    ensures Inv(AddProc(s, p, parent, user, space))
  {
    var s' := AddProc(s, p, parent, user, space);
    UnusedIsBare(s, p);
    if parent != -1 { assert ProcOk(s, parent); AppendDistinct(s.children[parent], p); }
    forall u: nat ensures ThreadOk(s', u) { assert ThreadOk(s, u); }
    forall q: nat, u: nat ensures WaiterOk(s', q, u) { assert WaiterOk(s, q, u); }
    forall q: nat, u: nat ensures MemberOk(s', q, u) { assert MemberOk(s, q, u); }
    forall q: nat, c: nat ensures ChildOk(s', q, c) { assert ChildOk(s, q, c); }
    forall q: nat ensures ProcOk(s', q) { assert ProcOk(s, q); }
  }

  /** A process that can go: a zombie, or one that never got to run; not the
      current one, and not the idle one. */
  ghost predicate CanGo(s: Sys, c: nat) {
    && Sized(s) && IsProc(s, c) && |s.members[c]| <= 1
    && (forall t :: t in s.members[c] ==>
        t < |s.ts| && t != s.current && t != s.idle && (s.ts[t].state == Zombie || s.ts[t].state == Runnable))
  }

  lemma ReapIs(s: Sys, c: nat)
    requires Inv(s) && CanGo(s, c)
    ensures s.members[c] == [] ==> Reap(s, c) == FreeProc(s, c)
    ensures s.members[c] != [] ==>
      && IsThread(s, s.members[c][0]) && s.ts[s.members[c][0]].proc == c
      && Reap(s, c) == FreeProc(ReapThread(s, s.members[c][0]), c)
  {
    if s.members[c] != [] {
      var t := s.members[c][0];
      assert t in s.members[c] && MemberOk(s, c, t);
      assert s.members[c][1..] == [];
      assert ReapThreads(ReapThread(s, t), []) == ReapThread(s, t);
    }
  }

  lemma FreeProcLists(s: Sys, s': Sys, c: nat)
    requires Inv(s) && IsProc(s, c) && Sized(s') && |s'.ps| == |s.ps| && s'.children == FreeProc(s, c).children
    requires forall q :: 0 <= q < |s.ps| && q != c ==> s'.ps[q] == s.ps[q]
    requires !s'.ps[c].inuse
    ensures forall q: nat, d: nat :: ChildOk(s', q, d)
    ensures forall q :: 0 <= q < |s.ps| ==> Distinct(s'.children[q])
    ensures forall q :: 0 <= q < |s.ps| ==> s'.children[q] == if q == c then [] else Without(s.children[q], c)
  {
    var parent := s.ps[c].parent;
    forall q | 0 <= q < |s.ps| ensures s'.children[q] == if q == c then [] else Without(s.children[q], c) {
      assert ChildOk(s, q, c);
    }
    forall q | 0 <= q < |s.ps| ensures Distinct(s'.children[q]) {
      assert ProcOk(s, q);
      WithoutMembers(s.children[q], c);
    }
    forall q: nat, d: nat ensures ChildOk(s', q, d) {
      assert ChildOk(s, q, d);
      if q < |s.ps| { assert ProcOk(s, q); WithoutMembers(s.children[q], c); }
    }
  }

  lemma FreeBareInv(s: Sys, c: nat)
    requires Inv(s) && IsProc(s, c) && s.members[c] == []
    ensures Inv(FreeProc(s, c))
  {
    var s' := FreeProc(s, c);
    FreeProcLists(s, s', c);
    forall u: nat ensures ThreadOk(s', u) { assert ThreadOk(s, u); }
    forall q: nat, u: nat ensures WaiterOk(s', q, u) { assert WaiterOk(s, q, u); }
    forall q: nat, u: nat ensures MemberOk(s', q, u) { assert MemberOk(s, q, u); }
    forall q: nat ensures ProcOk(s', q) { assert ProcOk(s, q); }
  }

  lemma ReapOneInv(s: Sys, c: nat, t: nat)
    requires Inv(s) && IsProc(s, c) && s.members[c] == [t] && IsThread(s, t) && s.ts[t].proc == c
    requires t != s.current && t != s.idle && (s.ts[t].state == Zombie || s.ts[t].state == Runnable)
    ensures Inv(FreeProc(ReapThread(s, t), c))
  {
    var s' := FreeProc(ReapThread(s, t), c);
    FreeProcLists(s, s', c);
    assert ThreadOk(s, t);
    WithoutMembers(s.ring, t);
    RemoveSorted(s.ts, s'.ts, s.sleepers, t);
    forall i | 0 <= i < |s'.ring| ensures s'.ring[i] < |s.ts| {
      assert s'.ring[i] in s'.ring; assert s'.ring[i] in s.ring;
    }
    forall u: nat ensures ThreadOk(s', u) { ReapOneThread(s, c, t, u); }
    forall q: nat, u: nat ensures WaiterOk(s', q, u) { assert WaiterOk(s, q, u); }
    forall q: nat, u: nat ensures MemberOk(s', q, u) { assert MemberOk(s, q, u); }
    forall q: nat ensures ProcOk(s', q) { assert ProcOk(s, q); }
  }

  lemma ReapOneThread(s: Sys, c: nat, t: nat, u: nat)
    requires Inv(s) && IsProc(s, c) && s.members[c] == [t] && IsThread(s, t) && s.ts[t].proc == c
    requires t != s.current && (s.ts[t].state == Zombie || s.ts[t].state == Runnable)
    ensures Sized(FreeProc(ReapThread(s, t), c)) && ThreadOk(FreeProc(ReapThread(s, t), c), u)
  {
    assert ThreadOk(s, u) && ThreadOk(s, t);
    WithoutMembers(s.ring, t);
  }

  lemma ReapInv(s: Sys, c: nat)
    requires Inv(s) && CanGo(s, c)
    ensures Inv(Reap(s, c))
  {
    ReapIs(s, c);
    if s.members[c] == [] {
      FreeBareInv(s, c);
    } else {
      assert s.members[c][0] in s.members[c];
      assert s.members[c] == [s.members[c][0]];
      ReapOneInv(s, c, s.members[c][0]);
    }
  }
}
