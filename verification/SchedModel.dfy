/** The scheduler and the process table as values: what each interrupt-disabled
    section does to them. */
module SchedModel {
  import opened Words
  import opened Lists

  const CADENCE: nat := 10

  datatype TState = Unused | Runnable | Running | Sleeping | Blocked | Zombie

  datatype PState = PUnused | Alive | PZombie

  /** What a blocked thread waits for: any child, or one. */
  datatype Wait = NoWait | AnyChild | Child(pid: nat)

  datatype Thread = Thread(state: TState, proc: int, wake: nat, wait: Wait, code: int)

  /** `user` is the context; `space` the address space, or -1. */
  datatype Proc = Proc(inuse: bool, state: PState, code: int, live: nat, parent: int, user: bool, space: int)

  /** `ring` is the run queue from its head, `members` each process's thread
      list, `loaded` the address space CR3 belongs to, or -1. */
  datatype Sys = Sys(ts: seq<Thread>, ps: seq<Proc>,
                     ring: seq<nat>, sleepers: seq<nat>,
                     waiters: seq<seq<nat>>, children: seq<seq<nat>>, members: seq<seq<nat>>,
                     current: int, idle: nat, ticks: nat, rr: nat, pending: bool, loaded: int)

  predicate NoThreadSlot(ts: seq<Thread>) { forall t :: 0 <= t < |ts| ==> ts[t].state != Unused }

  predicate NoProcSlot(ps: seq<Proc>) { forall p :: 0 <= p < |ps| ==> ps[p].inuse }

  predicate Sized(s: Sys) {
    |s.waiters| == |s.ps| && |s.children| == |s.ps| && |s.members| == |s.ps|
  }

  predicate IsThread(s: Sys, t: int) { 0 <= t < |s.ts| && s.ts[t].state != Unused }

  predicate IsProc(s: Sys, p: int) { 0 <= p < |s.ps| && s.ps[p].inuse }

  predicate IsAlive(s: Sys, p: int) { IsProc(s, p) && s.ps[p].state == Alive }

  function WithState(ts: seq<Thread>, t: nat, state: TState): seq<Thread>
    requires t < |ts|
  {
    ts[t := ts[t].(state := state)]
  }

  // ---- Invariant ----

  predicate HasLife(state: TState) { state == Runnable || state == Running || state == Sleeping || state == Blocked }

  /** Thread t is on exactly the lists its state calls for. */
  ghost predicate ThreadOk(s: Sys, t: nat)
    requires Sized(s)
  {
    t < |s.ts| ==>
      var th := s.ts[t];
      && (th.state != Unused <==> t in s.ring)
      && (th.state == Sleeping <==> t in s.sleepers)
      && (th.state == Running ==> t == s.current)
      && (HasLife(th.state) ==> IsAlive(s, th.proc) && t in s.members[th.proc])
      && (th.state == Blocked ==> IsProc(s, th.proc) && t in s.waiters[th.proc])
      && (th.state == Blocked <==> th.wait != NoWait)
  }

  ghost predicate WaiterOk(s: Sys, p: nat, t: nat)
    requires Sized(s)
  {
    p < |s.ps| && t in s.waiters[p] ==> t < |s.ts| && s.ts[t].state == Blocked && s.ts[t].proc == p
  }

  /** The thread list of a live process holds its live threads; that of a
      zombie its last thread. */
  ghost predicate MemberOk(s: Sys, p: nat, t: nat)
    requires Sized(s)
  {
    p < |s.ps| && t in s.members[p] ==>
      && t < |s.ts| && s.ts[t].proc == p && IsProc(s, p)
      && (if s.ps[p].state == Alive then HasLife(s.ts[t].state) else s.ts[t].state == Zombie)
  }

  ghost predicate ChildOk(s: Sys, p: nat, c: nat)
    requires Sized(s)
  {
    p < |s.ps| && c in s.children[p] ==> IsProc(s, p) && IsProc(s, c) && s.ps[c].parent == p && c != p
  }

  ghost predicate ProcOk(s: Sys, p: nat)
    requires Sized(s)
  {
    p < |s.ps| ==>
      && Distinct(s.waiters[p]) && Distinct(s.members[p]) && Distinct(s.children[p])
      && (s.ps[p].inuse ==> s.ps[p].state != PUnused)
      && (IsAlive(s, p) ==> s.ps[p].live == |s.members[p]|)
      && (s.ps[p].inuse && s.ps[p].state == PZombie ==> s.ps[p].live == 0 && |s.members[p]| == 1)
  }

  ghost predicate Sorted(ts: seq<Thread>, q: seq<nat>) {
    && (forall i :: 0 <= i < |q| ==> q[i] < |ts|)
    && (forall i, j :: 0 <= i < j < |q| ==> ts[q[i]].wake <= ts[q[j]].wake)
  }

  ghost predicate QueuesOk(s: Sys) {
    && Distinct(s.ring) && Distinct(s.sleepers) && Sorted(s.ts, s.sleepers)
    && (forall i :: 0 <= i < |s.ring| ==> s.ring[i] < |s.ts|)
    && (s.current == -1 || IsThread(s, s.current))
    && 0 < s.rr <= CADENCE
    && s.idle < |s.ts| && (s.ts[s.idle].state == Runnable || s.ts[s.idle].state == Running)
  }

  ghost predicate Inv(s: Sys) {
    && Sized(s) && QueuesOk(s)
    && (forall t: nat :: ThreadOk(s, t))
    && (forall p: nat, t: nat :: WaiterOk(s, p, t))
    && (forall p: nat, t: nat :: MemberOk(s, p, t))
    && (forall p: nat, c: nat :: ChildOk(s, p, c))
    && (forall p: nat :: ProcOk(s, p))
  }

  // ---- Switching ----

  /** The threads in the order in which the run queue is searched: those after
      the current one, around to it. */
  function OrderOf(ring: seq<nat>, current: int): seq<nat> {
    if current < 0 || current !in ring then ring
    else var k := IndexOf(ring, current); ring[k + 1..] + ring[..k + 1]
  }

  function Order(s: Sys): seq<nat> { OrderOf(s.ring, s.current) }

  function FirstRunnable(ts: seq<Thread>, q: seq<nat>): (r: int)
    ensures r == -1 || r in q
  {
    if q == [] then -1
    else if q[0] < |ts| && ts[q[0]].state == Runnable then q[0]
    else FirstRunnable(ts, q[1..])
  }

  /** The current thread stops running. */
  function Preempted(s: Sys): seq<Thread> {
    if IsThread(s, s.current) && s.ts[s.current].state == Running then WithState(s.ts, s.current, Runnable) else s.ts
  }

  /** CR3 once thread t runs. */
  function LoadedFor(s: Sys, t: nat): int
    requires t < |s.ts|
  {
    if IsProc(s, s.ts[t].proc) && s.ps[s.ts[t].proc].space != -1 then s.ps[s.ts[t].proc].space else s.loaded
  }

  function Switch(s: Sys): Sys {
    var ts := Preempted(s);
    var c := FirstRunnable(ts, Order(s));
    if s.ring == [] then s.(ts := ts, pending := false)
    else if c < 0 || c >= |ts| then s.(ts := ts, pending := false, current := -1)
    else s.(ts := WithState(ts, c, Running), pending := false, current := c, loaded := LoadedFor(s, c))
  }

  // ---- Sleeping ----

  /** How many leading sleepers are due at a tick. */
  function Due(ts: seq<Thread>, q: seq<nat>, now: nat): (k: nat)
    ensures k <= |q|
    ensures forall i :: 0 <= i < k ==> q[i] < |ts| && ts[q[i]].wake <= now
    ensures k < |q| ==> q[k] >= |ts| || ts[q[k]].wake > now
  {
    if q == [] || q[0] >= |ts| || ts[q[0]].wake > now then 0 else 1 + Due(ts, q[1..], now)
  }

  /** The deadline, in the 32 bits that it is kept in. */
  function Deadline(ticks: nat, n: nat): nat { (ticks + n) % WORD }

  function Sleep(s: Sys, n: nat): Sys
    requires IsThread(s, s.current)
  {
    var t := s.current;
    var ts := s.ts[t := s.ts[t].(state := Sleeping, wake := Deadline(s.ticks, n))];
    s.(ts := ts, sleepers := InsertAt(s.sleepers, Due(ts, s.sleepers, ts[t].wake), t))
  }

  /** Some threads become runnable. */
  function WokenAll(ts: seq<Thread>, q: seq<nat>): (r: seq<Thread>)
    ensures |r| == |ts|
  {
    seq(|ts|, t requires 0 <= t < |ts| => if t in q then ts[t].(state := Runnable) else ts[t])
  }

  function Tick(s: Sys): Sys {
    var now := s.ticks + 1;
    var k := Due(s.ts, s.sleepers, now);
    var forced := s.rr <= 1;
    s.(ts := WokenAll(s.ts, s.sleepers[..k]), sleepers := s.sleepers[k..], ticks := now,
       rr := if forced then CADENCE else s.rr - 1, pending := s.pending || forced || k > 0)
  }

  // ---- Waiting ----

  function Block(s: Sys, wait: Wait): Sys
    requires IsThread(s, s.current) && IsProc(s, s.ts[s.current].proc) && Sized(s)
  {
    var t := s.current;
    var p := s.ts[t].proc;
    s.(ts := s.ts[t := s.ts[t].(state := Blocked, wait := wait)], waiters := s.waiters[p := [t] + s.waiters[p]])
  }

  function Without(q: seq<nat>, x: nat): (r: seq<nat>) { if x in q then RemoveAt(q, IndexOf(q, x)) else q }

  function Wake(s: Sys, t: nat): Sys
    requires IsThread(s, t) && Sized(s) && IsProc(s, s.ts[t].proc)
  {
    var p := s.ts[t].proc;
    if s.ts[t].state == Sleeping then
      s.(ts := WithState(s.ts, t, Runnable), sleepers := Without(s.sleepers, t))
    else if s.ts[t].state == Blocked then
      s.(ts := s.ts[t := s.ts[t].(state := Runnable, wait := NoWait)],
        waiters := s.waiters[p := Without(s.waiters[p], t)])
    else s
  }

  predicate Matches(wait: Wait, pid: nat) { wait == AnyChild || wait == Child(pid) }

  /** The first waiter of a list that waits for a child, or -1. */
  function FirstMatch(ts: seq<Thread>, q: seq<nat>, pid: nat): (r: int)
    ensures r == -1 || (r in q && 0 <= r < |ts| && Matches(ts[r].wait, pid))
    ensures r == -1 ==> forall t :: t in q && t < |ts| ==> !Matches(ts[t].wait, pid)
  {
    if q == [] then -1
    else if q[0] < |ts| && Matches(ts[q[0]].wait, pid) then q[0]
    else FirstMatch(ts, q[1..], pid)
  }

  /** Waiter q[k] waits for any child or for this one, and none before it does. */
  ghost predicate FirstToWake(ts: seq<Thread>, q: seq<nat>, pid: nat, k: nat) {
    && k < |q| && q[k] < |ts| && (ts[q[k]].wait == AnyChild || ts[q[k]].wait == Child(pid))
    && forall j :: 0 <= j < k && q[j] < |ts| ==> ts[q[j]].wait != AnyChild && ts[q[j]].wait != Child(pid)
  }

  lemma {:induction false} FirstMatchIs(ts: seq<Thread>, q: seq<nat>, pid: nat) returns (k: nat)
    ensures if FirstMatch(ts, q, pid) == -1 then forall i: nat :: !FirstToWake(ts, q, pid, i)
            else FirstToWake(ts, q, pid, k) && q[k] == FirstMatch(ts, q, pid)
  {
    if q == [] || (q[0] < |ts| && Matches(ts[q[0]].wait, pid)) {
      k := 0;
    } else {
      k := FirstMatchIs(ts, q[1..], pid);
      forall i: nat | FirstToWake(ts, q, pid, i) ensures i > 0 && FirstToWake(ts, q[1..], pid, i - 1) { }
      if FirstMatch(ts, q, pid) != -1 {
        k := k + 1;
        forall j | 0 <= j < k && q[j] < |ts| ensures ts[q[j]].wait != AnyChild && ts[q[j]].wait != Child(pid) {
          assert j > 0 ==> q[j] == q[1..][j - 1];
        }
      }
    }
  }

  /** Said of the lists: the first waiter of q that waits for child pid is woken
      and leaves the list; with none, nothing changes. */
  ghost predicate WokeFirst(s: Sys, s': Sys, q: int, pid: nat) {
    if 0 <= q < |s.waiters| && exists k: nat :: FirstToWake(s.ts, s.waiters[q], pid, k) then
      exists k: nat :: FirstToWake(s.ts, s.waiters[q], pid, k)
        && var w := s.waiters[q];
           s' == s.(ts := s.ts[w[k] := s.ts[w[k]].(state := Runnable, wait := NoWait)],
                    waiters := s.waiters[q := w[..k] + w[k + 1..]])
    else s' == s
  }

  /** The waiters of process q are threads of q that are blocked. */
  ghost predicate WaitersBlocked(s: Sys, q: nat) {
    q < |s.ps| && q < |s.waiters| && s.ps[q].inuse && Distinct(s.waiters[q])
    && forall t :: t in s.waiters[q] ==> t < |s.ts| && s.ts[t].state == Blocked && s.ts[t].proc == q
  }

  lemma WakeIs(s: Sys, q: nat, k: nat)
    requires Sized(s) && WaitersBlocked(s, q) && k < |s.waiters[q]|
    ensures var w := s.waiters[q];
      && w[k] in w
      && Wake(s, w[k]) == s.(ts := s.ts[w[k] := s.ts[w[k]].(state := Runnable, wait := NoWait)],
                             waiters := s.waiters[q := w[..k] + w[k + 1..]])
  {
    var w := s.waiters[q];
    assert w[k] in w;
    assert IndexOf(w, w[k]) == k;
  }

  lemma WakeParentIs(s: Sys, c: nat)
    requires Sized(s) && c < |s.ps|
    requires 0 <= s.ps[c].parent < |s.ps| ==> s.waiters[s.ps[c].parent] == [] || WaitersBlocked(s, s.ps[c].parent)
    ensures WokeFirst(s, WakeParent(s, c), s.ps[c].parent, c)
  {
    var q := s.ps[c].parent;
    if 0 <= q < |s.ps| && s.waiters[q] != [] {
      var k := FirstMatchIs(s.ts, s.waiters[q], c);
      if FirstMatch(s.ts, s.waiters[q], c) != -1 { WakeIs(s, q, k); }
    }
  }

  /** A child has exited: its parent's first matching waiter wakes. */
  function WakeParent(s: Sys, c: nat): Sys
    requires Sized(s) && c < |s.ps|
  {
    var p := s.ps[c].parent;
    if p < 0 || p >= |s.ps| then s
    else
      var t := FirstMatch(s.ts, s.waiters[p], c);
      if t == -1 || !IsThread(s, t) || !IsProc(s, s.ts[t].proc) then s else Wake(s, t)
  }

  // ---- Exit ----

  /** The last thread of a process leaves: the process is a zombie. */
  function ExitLast(s: Sys, code: int): Sys
    requires IsThread(s, s.current) && IsProc(s, s.ts[s.current].proc) && Sized(s)
  {
    var t := s.current;
    var p := s.ts[t].proc;
    WakeParent(s.(ts := s.ts[t := s.ts[t].(state := Zombie, code := code)],
                  ps := s.ps[p := s.ps[p].(live := 0, state := PZombie, code := code)]), p)
  }

  /** Another thread of a process leaves, and its thread list too. */
  function ExitOne(s: Sys, code: int): Sys
    requires IsThread(s, s.current) && IsProc(s, s.ts[s.current].proc) && Sized(s)
    requires s.ps[s.ts[s.current].proc].live > 0
  {
    var t := s.current;
    var p := s.ts[t].proc;
    s.(ts := s.ts[t := s.ts[t].(state := Zombie, code := code)],
       ps := s.ps[p := s.ps[p].(live := s.ps[p].live - 1)],
       members := s.members[p := Without(s.members[p], t)])
  }

  function Exit(s: Sys, code: int): Sys
    requires IsThread(s, s.current) && IsProc(s, s.ts[s.current].proc) && Sized(s)
    requires s.ps[s.ts[s.current].proc].live > 0
  {
    if s.ps[s.ts[s.current].proc].live == 1 then ExitLast(s, code) else ExitOne(s, code)
  }

  // ---- Threads and processes come and go ----

  function AddThread(s: Sys, t: nat, p: nat): Sys
    requires Sized(s) && t < |s.ts| && p < |s.ps|
  {
    s.(ts := s.ts[t := Thread(Runnable, p, 0, NoWait, 0)],
       ps := s.ps[p := s.ps[p].(live := s.ps[p].live + 1)],
       members := s.members[p := s.members[p] + [t]], ring := s.ring + [t])
  }

  /** A process slot is taken, but not yet listed. */
  function OpenProc(s: Sys, p: nat, parent: int, user: bool): Sys
    requires Sized(s) && p < |s.ps|
  {
    s.(ps := s.ps[p := Proc(true, Alive, 0, 0, parent, user, -1)],
       members := s.members[p := []], waiters := s.waiters[p := []], children := s.children[p := []])
  }

  /** The slot is given back; its other fields keep what was written. */
  function DropProc(s: Sys, p: nat): Sys
    requires p < |s.ps|
  {
    s.(ps := s.ps[p := s.ps[p].(inuse := false)])
  }

  /** A new process, listed with its parent. */
  function AddProc(s: Sys, p: nat, parent: int, user: bool, space: int): Sys
    requires Sized(s) && p < |s.ps| && -1 <= parent < |s.ps|
  {
    var q := s.(ps := s.ps[p := Proc(true, Alive, 0, 0, parent, user, space)],
                members := s.members[p := []], waiters := s.waiters[p := []], children := s.children[p := []]);
    if parent == -1 then q else q.(children := q.children[parent := q.children[parent] + [p]])
  }

  function ReapThread(s: Sys, t: nat): Sys
    requires Sized(s) && IsThread(s, t) && IsProc(s, s.ts[t].proc)
  {
    var p := s.ts[t].proc;
    s.(ts := s.ts[t := Thread(Unused, -1, s.ts[t].wake, NoWait, s.ts[t].code)],
       ring := Without(s.ring, t), sleepers := Without(s.sleepers, t),
       members := s.members[p := Without(s.members[p], t)])
  }

  /** p leaves the children of q, if there is a q. */
  function Disowned(children: seq<seq<nat>>, q: int, p: nat): (r: seq<seq<nat>>)
    ensures |r| == |children|
  {
    if 0 <= q < |children| then children[q := Without(children[q], p)] else children
  }

  function FreeProc(s: Sys, p: nat): Sys
    requires Sized(s) && p < |s.ps|
  {
    s.(ps := s.ps[p := s.ps[p].(inuse := false, state := PUnused, live := 0, parent := -1, space := -1)],
       children := Disowned(s.children, s.ps[p].parent, p)[p := []], members := s.members[p := []],
         waiters := s.waiters[p := []])
  }

  function ReapThreads(s: Sys, q: seq<nat>): Sys
    decreases q
  {
    if q == [] || !Sized(s) || !IsThread(s, q[0]) || !IsProc(s, s.ts[q[0]].proc) then s
      else ReapThreads(ReapThread(s, q[0]), q[1..])
  }

  /** A process goes, with its threads. */
  function Reap(s: Sys, c: nat): Sys
    requires Sized(s) && c < |s.ps|
  {
    var r := ReapThreads(s, s.members[c]);
    if Sized(r) && |r.ps| == |s.ps| then FreeProc(r, c) else s
  }
}
