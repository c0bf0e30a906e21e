/** The scheduler as it is laid out in memory: pools of thread and process
    records, linked through columns of next pointers. Each method does to the
    lists what the model says. */
module Scheduler {
  import opened Lists
  import opened Rings
  import opened SchedModel
  import opened SchedInv
  import opened SchedRuns
  import opened Reaping
  import opened Undoing

  class Scheduler {
    const idle: nat
    const threads: nat
    const processes: nat
    var ts: seq<Thread>
    var ps: seq<Proc>
    var rqNext: seq<int>
    var sleepNext: seq<int>
    var waitNext: seq<int>
    var tlNext: seq<int>
    var sibNext: seq<int>
    var head: int
    var sleepHead: int
    var wHeads: seq<int>
    var cHeads: seq<int>
    var mHeads: seq<int>
    var current: int
    var ticks: nat
    var rr: nat
    var pending: bool
    var nextTid: nat
    /** The address space that CR3 belongs to, or -1. */
    ghost var loaded: int
    ghost var ring: seq<nat>
    ghost var sleepers: seq<nat>
    ghost var waiters: seq<seq<nat>>
    ghost var children: seq<seq<nat>>
    ghost var members: seq<seq<nat>>
    ghost var wHome: map<nat, nat>
    ghost var cHome: map<nat, nat>
    ghost var mHome: map<nat, nat>

    ghost function Now(): Sys
      reads this
    {
      Sys(ts, ps, ring, sleepers, waiters, children, members, current, idle, ticks, rr, pending, loaded)
    }

    // The predicates below are stated as one fact each, so that callers pass them
    // on whole.

    ghost predicate RunLinks()
      reads this`rqNext, this`head, this`ring
    {
      true == (|rqNext| == threads && Ring(rqNext, head, ring))
    }

    ghost predicate SleepLinks()
      reads this`sleepNext, this`sleepHead, this`sleepers
    {
      true == (|sleepNext| == threads && Linked(sleepNext, sleepHead, sleepers))
    }

    ghost predicate WaitLinks()
      reads this`waitNext, this`wHeads, this`waiters, this`wHome
    {
      true == (|waitNext| == threads && |waiters| == processes && Chains(waitNext, wHeads, waiters, wHome))
    }

    ghost predicate ChildLinks()
      reads this`sibNext, this`cHeads, this`children, this`cHome
    {
      true == (|sibNext| == processes && |children| == processes && Chains(sibNext, cHeads, children, cHome))
    }

    ghost predicate MemberLinks()
      reads this`tlNext, this`mHeads, this`members, this`mHome
    {
      true == (|tlNext| == threads && |members| == processes && Chains(tlNext, mHeads, members, mHome))
    }

    /** The lists that processes hold. */
    ghost predicate ProcLinks()
      reads this`waitNext, this`wHeads, this`waiters, this`wHome
      reads this`sibNext, this`cHeads, this`children, this`cHome, this`tlNext, this`mHeads, this`members, this`mHome
    {
      true == (WaitLinks() && ChildLinks() && MemberLinks())
    }

    /** Process p is in no child list. */
    ghost predicate Apart(p: nat)
      reads this`sibNext, this`children
    {
      true == (p < processes == |sibNext| && InNone(children, p) && sibNext[p] == -1)
    }

    ghost predicate Links()
      reads this
    {
      |ts| == threads && |ps| == processes && RunLinks() && SleepLinks() && WaitLinks() && ChildLinks() && MemberLinks()
    }

    ghost predicate Valid()
      reads this
    {
      true == (Links() && Inv(Now()))
    }

    constructor (nThreads: nat, nProcesses: nat)
      requires nThreads > 0 && nProcesses > 0
      ensures threads == nThreads && processes == nProcesses && nextTid == 0 && Links() && Blank(Now())
    {
      idle, threads, processes := 0, nThreads, nProcesses;
      ts := seq(nThreads, _ => Thread(Unused, -1, 0, NoWait, 0));
      ps := seq(nProcesses, _ => Proc(false, PUnused, 0, 0, -1, false, -1));
      rqNext, sleepNext, waitNext, tlNext := seq(nThreads, _ => -1), seq(nThreads, _ => -1), seq(nThreads, _ => -1),
        seq(nThreads, _ => -1);
      sibNext := seq(nProcesses, _ => -1);
      head, sleepHead, current, loaded := -1, -1, -1, -1;
      wHeads, cHeads, mHeads := seq(nProcesses, _ => -1), seq(nProcesses, _ => -1), seq(nProcesses, _ => -1);
      ticks, rr, pending, nextTid := 0, CADENCE, false, 0;
      ring, sleepers := [], [];
      waiters, children, members := seq(nProcesses, _ => []), seq(nProcesses, _ => []), seq(nProcesses, _ => []);
      wHome, cHome, mHome := map[], map[], map[];
    }

    // ---- Switching ----

    /** The first runnable thread around the ring from `start`, or -1. */
    method NextRunnable(start: nat, ghost o: seq<nat>) returns (t: int)
      requires |rqNext| == threads == |ts| && Ring(rqNext, start, o)
      ensures t == FirstRunnable(ts, o)
    {
      var it: int := start;
      ghost var k := 0;
      while true
        invariant 0 <= k < |o| && it == o[k] && FirstRunnable(ts, o) == FirstRunnable(ts, o[k..])
        decreases |o| - k
      {
        if ts[it].state == Runnable {
          return it;
        }
        assert rqNext[o[k]] == After(o, k);
        assert o[k..][1..] == o[k + 1..];
        it := rqNext[it];
        if it == start {
          assert k + 1 == |o|;
          return -1;
        }
        k := k + 1;
      }
    }

    /** The current thread stops running. */
    method Preempt()
      requires current == -1 || IsThread(Now(), current)
      modifies this`ts, this`pending
      ensures ts == Preempted(old(Now())) && !pending && |ts| == |old(ts)|
    {
      pending := false;
      if current != -1 {
        if ts[current].state == Running {
          ts := ts[current := ts[current].(state := Runnable)];
        }
      }
    }

    /** Where the search starts: behind the current thread, or at the head. */
    method SearchStart() returns (start: int, ghost o: seq<nat>)
      requires RunLinks() && ring != [] && (current == -1 || current in ring)
      ensures start >= 0 && Ring(rqNext, start, o) && o == OrderOf(ring, current)
    {
      start, o := head, ring;
      if current != -1 {
        ghost var k := IndexOf(ring, current);
        RingFrom(rqNext, head, ring, k);
        assert rqNext[ring[k]] == After(ring, k);
        start, o := rqNext[current], ring[k + 1..] + ring[..k + 1];
      }
    }

    /** Thread c runs from here on, in its process's address space. */
    method RunThread(c: nat)
      requires c < |ts| && 0 <= ts[c].proc < |ps| && ps[ts[c].proc].inuse
      modifies this`ts, this`current, this`loaded
      ensures current == c && ts == WithState(old(ts), c, Running) && loaded == LoadedFor(old(Now()), c)
    {
      current := c;
      ts := ts[c := ts[c].(state := Running)];
      var p := ts[c].proc;
      if ps[p].space != -1 {
        loaded := ps[p].space;
      }
    }

    /** Puts the current thread back and picks the next one. */
    method Choose() returns (c: int)
      requires RunLinks() && |ts| == threads && ring != []
      requires (current == -1 || (IsThread(Now(), current) && current in ring))
      modifies this`ts, this`pending
      ensures ts == Preempted(old(Now())) && |ts| == threads && !pending
      ensures c == FirstRunnable(ts, OrderOf(ring, current))
    {
      Preempt();
      var start;
      ghost var o;
      start, o := SearchStart();
      c := NextRunnable(start, o);
    }

    method PickNext()
      requires RunLinks() && |ts| == threads && SwitchReady(Now())
      modifies this`ts, this`pending, this`current, this`loaded
      ensures |ts| == threads && Now() == Switch(old(Now()))
    {
      var c := Choose();
      ghost var s := Now();
      PickedIs(old(Now()), s, c);
      RunThread(c);
      assert Now() == s.(ts := ts, current := c, loaded := loaded);
    }

    /** A context switch. The caller loads the address space. */
    method DoSwitch()
      requires Valid()
      modifies this`ts, this`pending, this`current, this`loaded
      ensures Valid() && Now() == Switch(old(Now()))
    {
      SwitchInv(Now());
      SwitchFacts(Now());
      PickNext();
    }

    // ---- Sleeping ----

    /** Queues t behind every sleeper due no later. */
    method SleepqInsert(t: nat)
      requires SleepLinks() && |ts| == threads && t < threads && t !in sleepers
      modifies this`sleepNext, this`sleepHead, this`sleepers
      ensures SleepLinks() && sleepers == InsertAt(old(sleepers), Due(ts, old(sleepers), ts[t].wake), t)
    {
      ghost var q := sleepers;
      sleepNext := sleepNext[t := -1];
      LinkedFrame(old(sleepNext), sleepNext, sleepHead, q);
      if sleepHead == -1 || ts[t].wake < ts[sleepHead].wake {
        LinkFront(sleepNext, sleepHead, q, t);
        sleepNext := sleepNext[t := sleepHead];
        sleepHead := t;
        sleepers := InsertAt(q, 0, t);
        return;
      }
      var it;
      ghost var k;
      it, k := LastDue(t);
      LinkBehind(sleepNext, sleepHead, q, k, t);
      sleepNext := sleepNext[t := sleepNext[it]];
      sleepNext := sleepNext[it := t];
      sleepers := InsertAt(q, k + 1, t);
    }

    /** The last of the leading sleepers due no later than t. */
    method LastDue(t: nat) returns (it: nat, ghost k: nat)
      requires SleepLinks() && |ts| == threads && t < threads && sleepers != [] && ts[sleepers[0]].wake <= ts[t].wake
      ensures k < |sleepers| && it == sleepers[k] && Due(ts, sleepers, ts[t].wake) == k + 1
    {
      ghost var q := sleepers;
      it, k := sleepHead, 0;
      while sleepNext[it] != -1 && ts[sleepNext[it]].wake <= ts[t].wake
        invariant 0 <= k < |q| && it == q[k] && forall i :: 0 <= i <= k ==> ts[q[i]].wake <= ts[t].wake
        decreases |q| - k
      {
        assert sleepNext[q[k]] == LinkAfter(q, k);
        it := sleepNext[it];
        k := k + 1;
      }
      assert sleepNext[q[k]] == LinkAfter(q, k);
      DueIs(ts, q, ts[t].wake, k + 1);
    }

    /** Takes t off the sleep queue, if it is there. */
    method SleepqRemove(t: nat)
      requires SleepLinks() && t < threads
      modifies this`sleepNext, this`sleepHead, this`sleepers
      ensures SleepLinks() && sleepers == Without(old(sleepers), t)
    {
      ghost var q := sleepers;
      if sleepHead == -1 {
        return;
      }
      if sleepHead == t {
        UnlinkFront(sleepNext, sleepHead, q);
        IndexUnique(q, 0);
        sleepHead := sleepNext[t];
        sleepers := RemoveAt(q, 0);
        FreeLink(t);
        return;
      }
      var it;
      ghost var k;
      it, k := FindPredecessor(sleepNext, sleepHead, t, q);
      if it != -1 {
        UnlinkBehind(sleepNext, sleepHead, q, k);
        IndexUnique(q, k + 1);
        sleepNext := sleepNext[it := sleepNext[t]];
        sleepers := RemoveAt(q, k + 1);
        FreeLink(t);
      }
    }

    /** Clears the link of a thread that is off the queue. */
    method FreeLink(t: nat)
      requires SleepLinks() && t < threads && t !in sleepers
      modifies this`sleepNext
      ensures SleepLinks()
    {
      LinkedFrame(sleepNext, sleepNext[t := -1], sleepHead, sleepers);
      sleepNext := sleepNext[t := -1];
    }

    method SleepCurrent(n: nat)
      requires SleepLinks() && |ts| == threads && IsThread(Now(), current) && current !in sleepers
      modifies this`ts, this`sleepNext, this`sleepHead, this`sleepers
      ensures SleepLinks() && ts == old(ts)[current := old(ts)[current].(state := Sleeping, wake := Deadline(ticks, n))]
      ensures sleepers == InsertAt(old(sleepers), Due(ts, old(sleepers), Deadline(ticks, n)), current)
    {
      ts := ts[current := ts[current].(wake := Deadline(ticks, n))];
      ts := ts[current := ts[current].(state := Sleeping)];
      assert ts == old(ts)[current := old(ts)[current].(state := Sleeping, wake := Deadline(ticks, n))];
      SleepqInsert(current);
    }

    method SleepStep(n: nat)
      requires SleepLinks() && |ts| == threads && IsThread(Now(), current) && current !in sleepers
      modifies this`ts, this`sleepNext, this`sleepHead, this`sleepers
      ensures SleepLinks() && |ts| == threads && Now() == Sleep(old(Now()), n)
    {
      SleepCurrent(n);
    }

    /** The current thread goes to sleep for n ticks. */
    method ThreadSleep(n: nat)
      requires Valid() && Acting(Now())
      modifies this`ts, this`sleepNext, this`sleepHead, this`sleepers
      ensures Valid() && Now() == Sleep(old(Now()), n)
      ensures ts[current] == old(ts[current]).(state := Sleeping, wake := (ticks + n) % 0x1_0000_0000)
    {
      ActingHasProc(Now());
      SleepInv(Now(), n);
      SleepStep(n);
    }

    /** The sleep queue has been drained up to position k of q. */
    ghost predicate Drained(ts0: seq<Thread>, q: seq<nat>, k: nat)
      reads this
    {
      && k <= |q| && (forall i :: 0 <= i < |q| ==> q[i] < |ts0|) && SleepLinks() && sleepers == q[k..]
      && |ts| == threads && ts == WokenAll(ts0, q[..k])
    }

    method PopSleeper() returns (t: nat)
      requires SleepLinks() && sleepers != []
      modifies this`sleepNext, this`sleepHead, this`sleepers
      ensures SleepLinks() && t == old(sleepers)[0] && t < threads && sleepers == old(sleepers)[1..]
    {
      t := sleepHead;
      ghost var q := sleepers;
      UnlinkFront(sleepNext, sleepHead, q);
      assert RemoveAt(q, 0) == q[1..] && t !in q[1..];
      sleepHead := sleepNext[t];
      sleepers := q[1..];
      FreeLink(t);
    }

    /** Takes the head off the sleep queue and makes it runnable. */
    method WakeHead(ghost ts0: seq<Thread>, ghost q: seq<nat>, ghost k: nat)
      requires Drained(ts0, q, k) && k < |q| && Distinct(q) && ts0[q[k]].state == Sleeping
      modifies this`ts, this`sleepNext, this`sleepHead, this`sleepers
      ensures Drained(ts0, q, k + 1)
    {
      assert q[k..][0] == q[k] && q[k..][1..] == q[k + 1..];
      var t := PopSleeper();
      WokenOneMore(ts0, q, k);
      assert t !in q[..k];
      if ts[t].state == Sleeping {
        ts := ts[t := ts[t].(state := Runnable)];
      }
    }

    /** Wakes every sleeper that is due. */
    method WakeDue(now: nat) returns (woke: bool)
      requires SleepLinks() && |ts| == threads
      requires AllAsleep(ts, sleepers)
      modifies this`ts, this`sleepNext, this`sleepHead, this`sleepers
      ensures SleepLinks() && |ts| == threads && woke == (Due(old(ts), old(sleepers), now) > 0)
      ensures ts == WokenAll(old(ts), old(sleepers)[..Due(old(ts), old(sleepers), now)])
      ensures sleepers == old(sleepers)[Due(old(ts), old(sleepers), now)..]
    {
      ghost var ts0, q, k := ts, sleepers, 0;
      assert q[..0] == [];
      woke := false;
      while sleepHead != -1 && now >= ts[sleepHead].wake
        invariant Drained(ts0, q, k) && woke == (k > 0) && forall i :: 0 <= i < k ==> ts0[q[i]].wake <= now
        decreases |q| - k
      {
        assert sleepHead == q[k];
        WakeHead(ts0, q, k);
        woke := true;
        k := k + 1;
      }
      assert k < |q| ==> sleepHead == q[k] && ts[q[k]].wake == ts0[q[k]].wake;
      DueIs(ts0, q, now, k);
    }

    /** Counts the tick and wakes who is due. */
    method CountTick() returns (woke: bool)
      requires SleepLinks() && |ts| == threads && AllAsleep(ts, sleepers)
      modifies this`ts, this`sleepNext, this`sleepHead, this`sleepers, this`ticks
      ensures SleepLinks() && |ts| == threads
      ensures ts == Tick(old(Now())).ts && sleepers == Tick(old(Now())).sleepers && ticks == Tick(old(Now())).ticks
      ensures woke == (Due(old(ts), old(sleepers), ticks) > 0)
    {
      ticks := ticks + 1;
      var now := ticks;
      woke := WakeDue(now);
    }

    /** The time slice runs down; a switch is due if it is over or somebody woke. */
    method CountSlice(woke: bool)
      requires rr > 0
      modifies this`rr, this`pending
      ensures rr == (if old(rr) <= 1 then CADENCE else old(rr) - 1)
      ensures pending == (old(pending) || old(rr) <= 1 || woke)
    {
      rr := rr - 1;
      if rr == 0 {
        rr := CADENCE;
        pending := true;
      } else if woke {
        pending := true;
      }
    }

    ghost predicate Ticked(s0: Sys)
      reads this
    {
      true == (SleepLinks() && |ts| == threads && Now() == Tick(s0))
    }

    method TickAll()
      requires SleepLinks() && |ts| == threads && rr > 0 && AllAsleep(ts, sleepers)
      modifies this`ts, this`sleepNext, this`sleepHead, this`sleepers, this`ticks, this`rr, this`pending
      ensures Ticked(old(Now()))
    {
      var woke := CountTick();
      CountSlice(woke);
    }

    /** The timer tick. */
    method OnTick()
      requires Valid()
      modifies this`ts, this`sleepNext, this`sleepHead, this`sleepers, this`ticks, this`rr, this`pending
      ensures Valid() && Now() == Tick(old(Now()))
    {
      TickInv(Now());
      SleepersSleep(Now());
      TickAll();
    }

    // ---- Waiting ----

    method PushWaiter(wait: Wait)
      requires WaitLinks() && |ts| == threads && |ps| == processes
      requires 0 <= current < threads && 0 <= ts[current].proc < processes && current !in wHome
      modifies this`ts, this`waitNext, this`wHeads, this`waiters, this`wHome
      ensures WaitLinks() && ts == old(ts)[current := old(ts)[current].(state := Blocked, wait := wait)]
      ensures var p := old(ts)[current].proc; waiters == old(waiters)[p := [current as nat] + old(waiters)[p]]
    {
      var t := current;
      var p := ts[t].proc;
      ts := ts[t := ts[t].(state := Blocked, wait := wait)];
      waitNext, wHeads := ChainPushFront(waitNext, wHeads, p, t, waiters, wHome);
      assert InsertAt(waiters[p], 0, t) == [t as nat] + waiters[p];
      waiters, wHome := waiters[p := InsertAt(waiters[p], 0, t)], wHome[t := p];
    }

    method BlockStep(wait: Wait)
      requires WaitLinks() && |ts| == threads && |ps| == processes && Sized(Now())
      requires IsThread(Now(), current) && IsProc(Now(), ts[current].proc) && current !in wHome
      modifies this`ts, this`waitNext, this`wHeads, this`waiters, this`wHome
      ensures WaitLinks() && |ts| == threads && Now() == Block(old(Now()), wait)
    {
      PushWaiter(wait);
    }

    /** The current thread blocks on its process's waiter list. */
    method BlockCurrent(wait: Wait)
      requires Valid() && Acting(Now()) && wait != NoWait
      modifies this`ts, this`waitNext, this`wHeads, this`waiters, this`wHome
      ensures IsProc(old(Now()), old(ts[current].proc)) && Valid() && Now() == Block(old(Now()), wait)
      ensures ts[current] == old(ts[current]).(state := Blocked, wait := wait)
      ensures var p := old(ts[current].proc); waiters == old(waiters)[p := [current as nat] + old(waiters)[p]]
    {
      ActingHasProc(Now());
      BlockInv(Now(), wait);
      NotWaiting(Now(), waitNext, wHeads, wHome, current);
      BlockStep(wait);
    }

    method UnlinkWaiter(t: nat, p: nat)
      requires WaitLinks() && p < processes
      modifies this`waitNext, this`wHeads, this`waiters, this`wHome
      ensures WaitLinks() && waiters == old(waiters)[p := Without(old(waiters)[p], t)]
    {
      waitNext, wHeads := ChainUnlink(waitNext, wHeads, p, t, waiters, wHome);
      if t in waiters[p] {
        waiters, wHome := waiters[p := RemoveAt(waiters[p], IndexOf(waiters[p], t))], wHome - {t};
      }
    }

    /** Makes a sleeping or blocked thread runnable. */
    method WakeThread(t: nat)
      requires SleepLinks() && WaitLinks() && |ts| == threads && |ps| == processes
      requires t < threads && 0 <= ts[t].proc < processes
      modifies this`ts, this`waitNext, this`wHeads, this`waiters, this`wHome, this`sleepNext, this`sleepHead
      modifies this`sleepers
      ensures SleepLinks() && WaitLinks() && |ts| == threads
      ensures var th := old(ts)[t];
        && ts == (if th.state == Sleeping then old(ts)[t := th.(state := Runnable)]
                  else if th.state == Blocked then old(ts)[t := th.(state := Runnable, wait := NoWait)] else old(ts))
        && sleepers == (if th.state == Sleeping then Without(old(sleepers), t) else old(sleepers))
        && waiters == (if th.state == Blocked then old(waiters)[th.proc := Without(old(waiters)[th.proc], t)]
          else old(waiters))
    {
      if ts[t].state == Sleeping {
        ts := ts[t := ts[t].(state := Runnable)];
        SleepqRemove(t);
      } else if ts[t].state == Blocked {
        var owner := ts[t].proc;
        ts := ts[t := ts[t].(state := Runnable, wait := NoWait)];
        UnlinkWaiter(t, owner);
      }
    }

    method WakeStep(t: nat)
      requires SleepLinks() && WaitLinks() && |ts| == threads && |ps| == processes && Sized(Now())
      requires IsThread(Now(), t) && IsProc(Now(), ts[t].proc)
      modifies this`ts, this`waitNext, this`wHeads, this`waiters, this`wHome, this`sleepNext, this`sleepHead
      modifies this`sleepers
      ensures SleepLinks() && WaitLinks() && |ts| == threads && Now() == Wake(old(Now()), t)
    {
      WakeThread(t);
    }

    /** The first waiter of process p that waits for child c, or -1. */
    method FindWaiter(p: nat, c: nat) returns (t: int)
      requires WaitLinks() && |ts| == threads && p < processes
      ensures t == FirstMatch(ts, waiters[p], c)
    {
      ghost var q, k := waiters[p], 0;
      t := wHeads[p];
      while t != -1
        invariant 0 <= k <= |q| && t == (if k < |q| then q[k] else -1)
        invariant FirstMatch(ts, q, c) == FirstMatch(ts, q[k..], c)
        decreases |q| - k
      {
        if ts[t].wait == AnyChild || ts[t].wait == Child(c) {
          return;
        }
        ChainNext(waitNext, wHeads, waiters, wHome, p, k);
        assert q[k..][1..] == q[k + 1..];
        t := waitNext[t];
        k := k + 1;
      }
    }

    /** Wakes the first thread of the parent that waits for an exited child. */
    method WakeParentWaiter(c: nat)
      requires SleepLinks() && WaitLinks() && |ts| == threads && |ps| == processes && c < processes && Sized(Now())
      requires WaitersReal()
      modifies this`ts, this`waitNext, this`wHeads, this`waiters, this`wHome, this`sleepNext, this`sleepHead
      modifies this`sleepers
      ensures SleepLinks() && WaitLinks() && |ts| == threads && Now() == WakeParent(old(Now()), c)
      ensures WokeFirst(old(Now()), Now(), ps[c].parent, c)
    {
      WakeParentIs(Now(), c);
      var parent := ps[c].parent;
      if parent < 0 || parent >= |ps| {
        return;
      }
      var t := FindWaiter(parent, c);
      if t != -1 {
        WakeStep(t);
      }
    }

    // ---- Exit ----

    /** Takes t off its process's thread list. */
    method LeaveProc(t: nat, p: nat)
      requires MemberLinks() && p < processes && t in members[p]
      modifies this`tlNext, this`mHeads, this`members, this`mHome
      ensures MemberLinks() && members == old(members)[p := Without(old(members)[p], t)]
    {
      tlNext, mHeads := ChainUnlink(tlNext, mHeads, p, t, members, mHome);
      members, mHome := members[p := RemoveAt(members[p], IndexOf(members[p], t))], mHome - {t};
      ChainsFrame(tlNext, tlNext[t := -1], mHeads, members, mHome);
      tlNext := tlNext[t := -1];
    }

    ghost predicate WaitersReal()
      reads this
    {
      |waiters| == processes && forall p: nat :: p < processes && waiters[p] != [] ==> WaitersBlocked(Now(), p)
    }

    method ExitLastStep(code: int)
      requires SleepLinks() && WaitLinks() && |ts| == threads && |ps| == processes && Sized(Now()) && WaitersReal()
      requires IsThread(Now(), current) && IsProc(Now(), ts[current].proc) && ts[current].state != Blocked
      modifies this`ts, this`ps, this`waitNext, this`wHeads, this`waiters, this`wHome, this`sleepNext, this`sleepHead
      modifies this`sleepers
      ensures SleepLinks() && WaitLinks() && |ts| == threads && |ps| == processes && Now() == ExitLast(old(Now()), code)
    {
      var p := ts[current].proc;
      ts := ts[current := ts[current].(state := Zombie, code := code)];
      ps := ps[p := ps[p].(live := 0, state := PZombie, code := code)];
      assert forall q: nat :: q < processes && waiters[q] != [] ==> old(WaitersBlocked(Now(), q));
      WakeParentWaiter(p);
    }

    method ExitOneStep(code: int)
      requires MemberLinks() && |ts| == threads && |ps| == processes && Sized(Now())
      requires IsThread(Now(), current) && IsProc(Now(), ts[current].proc) && ps[ts[current].proc].live > 0
      requires current in members[ts[current].proc]
      modifies this`ts, this`ps, this`tlNext, this`mHeads, this`members, this`mHome
      ensures MemberLinks() && |ts| == threads && |ps| == processes && Now() == ExitOne(old(Now()), code)
    {
      var p := ts[current].proc;
      ts := ts[current := ts[current].(state := Zombie, code := code)];
      ps := ps[p := ps[p].(live := ps[p].live - 1)];
      LeaveProc(current, p);
    }

    method ExitStep(code: int) returns (last: bool)
      requires Links() && Sized(Now()) && WaitersReal()
      requires IsThread(Now(), current) && IsProc(Now(), ts[current].proc) && ps[ts[current].proc].live > 0
      requires ts[current].state != Blocked
      requires current in members[ts[current].proc]
      modifies this`ts, this`ps, this`waitNext, this`wHeads, this`waiters, this`wHome, this`sleepNext, this`sleepHead
      modifies this`sleepers
      modifies this`tlNext, this`mHeads, this`members, this`mHome
      ensures Links() && last == (old(ps[ts[current].proc].live) == 1) && Now() == Exit(old(Now()), code)
    {
      last := ps[ts[current].proc].live == 1;
      if last {
        ExitLastStep(code);
      } else {
        ExitOneStep(code);
      }
    }

    /** The current thread exits; `last` if its process goes with it. */
    method ThreadExit(code: int) returns (last: bool)
      requires Valid() && Acting(Now())
      modifies this`ts, this`ps, this`waitNext, this`wHeads, this`waiters, this`wHome, this`sleepNext, this`sleepHead
      modifies this`sleepers
      modifies this`tlNext, this`mHeads, this`members, this`mHome
      ensures CanExit(old(Now())) && last == (old(ps[ts[current].proc].live) == 1)
      ensures Valid() && Now() == Exit(old(Now()), code)
      ensures ExitRecorded(old(Now()), Now(), code)
    {
      ActingHasProc(Now());
      ExitRecords(Now(), code);
      ExitInv(Now(), code);
      WaitersAreReal(Now());
      last := ExitStep(code);
    }

    // ---- New threads ----

    /** Slot k of the search that starts at `start` and wraps around. */
    function Around(start: nat, k: nat): int { if start + k < threads then start + k else start + k - threads }

    /** With no free slot before it in cyclic order, none lies between. */
    lemma NoneCloser(th: seq<Thread>, start: nat, k: nat, t: nat)
      requires |th| == threads && start < threads && k < threads && t == Around(start, k)
      requires forall j :: 0 <= j < k ==> 0 <= Around(start, j) < threads && th[Around(start, j)].state != Unused
      ensures forall u :: 0 <= u < threads && th[u].state == Unused ==>
          if start <= t then t <= u || u < start else t <= u < start
    {
      forall u | 0 <= u < threads && th[u].state == Unused
        ensures if start <= t then t <= u || u < start else t <= u < start
      {
        var j: nat := if start <= u then u - start else u + threads - start;
        assert Around(start, j) == u;
      }
    }

    /** The first unused thread slot in cyclic order from the hint, or -1. */
    method AllocThreadSlot() returns (t: int, ghost k: nat)
      requires |ts| == threads > 0
      modifies this`nextTid
      ensures t == -1 ==> nextTid == old(nextTid) && NoThreadSlot(ts)
      ensures t != -1 ==>
          k < threads && t == Around(old(nextTid) % threads, k) && 0 <= t < threads && ts[t].state == Unused
      ensures t != -1 ==> nextTid == (t + 1) % threads
      ensures t != -1 ==> forall j :: 0 <= j < k ==> 0 <= Around(old(nextTid) % threads, j) < threads
      ensures t != -1 ==> forall j :: 0 <= j < k ==> ts[Around(old(nextTid) % threads, j)].state != Unused
      ensures t != -1 ==> var start := old(nextTid) % threads;
        forall u :: 0 <= u < threads && ts[u].state == Unused ==>
            if start <= t then t <= u || u < start else t <= u < start
    {
      var start := nextTid % threads;
      t, k := start, 0;
      for scanned := 0 to threads
        invariant t == (if scanned < threads then Around(start, scanned) else start) && nextTid == old(nextTid)
        invariant forall j :: 0 <= j < scanned ==>
            0 <= Around(start, j) < threads && ts[Around(start, j)].state != Unused
      {
        if ts[t].state == Unused {
          nextTid := (t + 1) % threads;
          k := scanned;
          NoneCloser(ts, start, k, t);
          return;
        }
        t := if t + 1 < threads then t + 1 else 0;
      }
      forall u | 0 <= u < threads ensures ts[u].state != Unused {
        assert u == Around(start, if u >= start then u - start else u - start + threads);
      }
      t := -1;
    }

    method JoinProc(t: nat, p: nat)
      requires MemberLinks() && p < processes && t < threads && InNone(members, t)
      modifies this`tlNext, this`mHeads, this`members, this`mHome
      ensures MemberLinks() && members == old(members)[p := old(members)[p] + [t]]
    {
      ChainsFrame(tlNext, tlNext[t := -1], mHeads, members, mHome);
      tlNext := tlNext[t := -1];
      tlNext, mHeads := ChainAppend(tlNext, mHeads, p, t, members, mHome);
      members, mHome := members[p := members[p] + [t]], mHome[t := p];
    }

    method JoinRing(t: nat)
      requires RunLinks() && t < threads && t !in ring
      modifies this`rqNext, this`head, this`ring
      ensures RunLinks() && ring == old(ring) + [t]
    {
      RingAppend(rqNext, head, ring, t);
      if head == -1 {
        head := t;
        rqNext := rqNext[t := t];
      } else {
        var tail := FindRingTail(rqNext, head, ring);
        rqNext := rqNext[tail := t];
        rqNext := rqNext[t := head];
      }
      ring := ring + [t];
    }

    method PlaceThread(t: nat, p: nat)
      requires RunLinks() && MemberLinks() && |ts| == threads && |ps| == processes && Sized(Now())
      requires t < threads && p < processes && InNone(members, t) && t !in ring
      modifies this`ts, this`ps, this`tlNext, this`mHeads, this`members, this`mHome, this`rqNext, this`head, this`ring
      ensures RunLinks() && MemberLinks() && |ts| == threads && |ps| == processes
      ensures Now() == AddThread(old(Now()), t, p)
    {
      JoinProc(t, p);
      ps := ps[p := ps[p].(live := ps[p].live + 1)];
      ts := ts[t := Thread(Runnable, p, 0, NoWait, 0)];
      JoinRing(t);
    }

    method AdmitThread(t: nat, p: nat)
      requires Valid() && IsAlive(Now(), p) && t < threads && ts[t].state == Unused
      modifies this`ts, this`ps, this`tlNext, this`mHeads, this`members, this`mHome, this`rqNext, this`head, this`ring
      ensures Valid() && Now() == AddThread(old(Now()), t, p)
    {
      AddThreadInv(Now(), t, p);
      NotListed(Now(), t);
      PlaceThread(t, p);
    }

    /** A new thread for process p, or -1 if every slot is taken. */
    method NewThread(p: nat) returns (t: int)
      requires Valid() && IsAlive(Now(), p)
      modifies this`ts, this`ps, this`tlNext, this`mHeads, this`members, this`mHome, this`rqNext, this`head, this`ring
      modifies this`nextTid
      ensures t == -1 <==> NoThreadSlot(old(ts))
      ensures t == -1 ==> Now() == old(Now())
      ensures t != -1 ==> 0 <= t < threads && old(ts)[t].state == Unused && Now() == AddThread(old(Now()), t, p)
      ensures t != -1 ==> ring == old(ring) + [t] && members == old(members)[p := old(members)[p] + [t]]
      ensures t != -1 ==> ts == old(ts)[t := Thread(Runnable, p, 0, NoWait, 0)] && ps[p].live == old(ps[p].live) + 1
      ensures Valid()
    {
      ghost var k;
      assert 0 <= idle < threads;
      t, k := AllocThreadSlot();
      if t != -1 {
        AdmitThread(t, p);
      }
    }

    // ---- New processes ----

    /** The lowest process slot that is free, or -1. */
    method AllocProcSlot() returns (p: int)
      requires |ps| == processes
      ensures p == -1 ==> NoProcSlot(ps)
      ensures p != -1 ==> 0 <= p < processes && !ps[p].inuse && forall q :: 0 <= q < p ==> ps[q].inuse
    {
      for i := 0 to processes
        invariant forall q :: 0 <= q < i ==> ps[q].inuse
      {
        if !ps[i].inuse {
          return i;
        }
      }
      return -1;
    }

    method ClearWaiters(p: nat)
      requires WaitLinks() && p < processes
      modifies this`wHeads, this`waiters, this`wHome
      ensures WaitLinks() && waiters == old(waiters)[p := []]
    {
      ChainDrop(waitNext, wHeads, waiters, wHome, p);
      wHeads, waiters, wHome := wHeads[p := -1], waiters[p := []], Evicted(wHome, p);
    }

    method ClearMembers(p: nat)
      requires MemberLinks() && p < processes
      modifies this`mHeads, this`members, this`mHome
      ensures MemberLinks() && members == old(members)[p := []]
    {
      ChainDrop(tlNext, mHeads, members, mHome, p);
      mHeads, members, mHome := mHeads[p := -1], members[p := []], Evicted(mHome, p);
    }

    /** Process p has no children and is nobody's. */
    method ClearFamily(p: nat)
      requires ChildLinks() && p < processes && InNone(children, p)
      modifies this`sibNext, this`cHeads, this`children, this`cHome
      ensures ChildLinks() && children == old(children)[p := []] && Apart(p)
    {
      ChainsFrame(sibNext, sibNext[p := -1], cHeads, children, cHome);
      sibNext := sibNext[p := -1];
      ChainDrop(sibNext, cHeads, children, cHome, p);
      cHeads, children, cHome := cHeads[p := -1], children[p := []], Evicted(cHome, p);
    }

    method ClearLists(p: nat)
      requires ProcLinks() && p < processes && InNone(children, p)
      modifies this`wHeads, this`waiters, this`wHome, this`sibNext, this`cHeads, this`children, this`cHome
      modifies this`mHeads, this`members, this`mHome
      ensures ProcLinks() && Apart(p)
      ensures children == old(children)[p := []] && members == old(members)[p := []] && waiters == old(waiters)[p := []]
    {
      ClearFamily(p);
      ClearMembers(p);
      ClearWaiters(p);
    }

    ghost predicate SlotOpen(p: nat, parent: int, user: bool, s0: Sys)
      requires Sized(s0) && p < |s0.ps|
      reads this
    {
      true == (ProcLinks() && |ps| == processes && Apart(p) && Now() == OpenProc(s0, p, parent, user))
    }

    method OpenSlot(p: nat, parent: int, user: bool)
      requires ProcLinks() && |ps| == processes && Sized(Now()) && p < processes && InNone(children, p)
      modifies this`ps, this`wHeads, this`waiters, this`wHome, this`sibNext, this`cHeads, this`children, this`cHome
      modifies this`mHeads, this`members, this`mHome
      ensures SlotOpen(p, parent, user, old(Now()))
    {
      ClearLists(p);
      ps := ps[p := Proc(true, Alive, 0, 0, parent, user, -1)];
    }

    /** Takes a process slot, or -1. */
    method TakeProc(parent: int, user: bool) returns (p: int)
      requires Valid()
      modifies this`ps, this`wHeads, this`waiters, this`wHome, this`sibNext, this`cHeads, this`children, this`cHome
      modifies this`mHeads, this`members, this`mHome
      ensures p == -1 <==> NoProcSlot(old(ps))
      ensures p == -1 ==> Now() == old(Now())
      ensures p != -1 ==> 0 <= p < processes && !old(ps)[p].inuse && Now() == OpenProc(old(Now()), p, parent, user)
      ensures p != -1 ==> Apart(p)
      ensures Valid()
    {
      p := AllocProcSlot();
      if p != -1 {
        OpenDropInv(Now(), p, parent, user);
        NobodysChild(Now(), sibNext, cHeads, cHome, p);
        OpenSlot(p, parent, user);
      }
    }

    method JoinFamily(p: nat, parent: nat)
      requires ChildLinks() && parent < processes && Apart(p)
      modifies this`sibNext, this`cHeads, this`children, this`cHome
      ensures ChildLinks() && children == old(children)[parent := old(children)[parent] + [p]]
    {
      sibNext, cHeads := ChainAppend(sibNext, cHeads, parent, p, children, cHome);
      children, cHome := children[parent := children[parent] + [p]], cHome[p := parent];
    }

    /** The slot p has been taken in state s0, and nothing else has happened. */
    ghost predicate Opened(p: nat, parent: int, user: bool, s0: Sys)
      reads this
    {
      true == (&& Valid() && Inv(s0) && Apart(p) && |s0.ps| == processes && !s0.ps[p].inuse
               && (parent == -1 || IsProc(s0, parent)) && Now() == OpenProc(s0, p, parent, user))
    }

    method ListStep(p: nat, parent: int, space: int)
      requires ChildLinks() && |ps| == processes && Sized(Now()) && Apart(p) && -1 <= parent < processes
      modifies this`ps, this`sibNext, this`cHeads, this`children, this`cHome
      ensures ChildLinks() && |ps| == processes && ps == old(ps)[p := old(ps)[p].(space := space)]
      ensures children == (if parent == -1 then old(children) else old(children)[parent := old(children)[parent] + [p]])
    {
      ps := ps[p := ps[p].(space := space)];
      if parent != -1 {
        JoinFamily(p, parent);
      }
    }

    method EnlistStep(p: nat, parent: int, space: int, ghost s0: Sys, user: bool)
      requires ChildLinks() && |ps| == processes && Apart(p) && Sized(s0) && |s0.ps| == processes
      requires -1 <= parent < processes
      requires Now() == OpenProc(s0, p, parent, user)
      modifies this`ps, this`sibNext, this`cHeads, this`children, this`cHome
      ensures ChildLinks() && |ps| == processes && Now() == AddProc(s0, p, parent, user, space)
    {
      ListStep(p, parent, space);
    }

    method EnlistLinked(p: nat, parent: int, space: int, ghost s0: Sys, user: bool)
      requires Links() && |ps| == processes && Apart(p) && Sized(s0) && |s0.ps| == processes && -1 <= parent < processes
      requires Now() == OpenProc(s0, p, parent, user)
      modifies this`ps, this`sibNext, this`cHeads, this`children, this`cHome
      ensures Links() && Now() == AddProc(s0, p, parent, user, space)
    {
      EnlistStep(p, parent, space, s0, user);
    }

    /** A process whose slot was taken gets its address space and joins its
        parent's children. */
    method ListProc(p: nat, parent: int, user: bool, space: int, ghost s0: Sys)
      requires Opened(p, parent, user, s0)
      modifies this`ps, this`sibNext, this`cHeads, this`children, this`cHome
      ensures Valid() && Now() == AddProc(s0, p, parent, user, space)
      ensures ps == old(ps)[p := old(ps[p]).(space := space)]
      ensures parent != -1 ==> children == old(children)[parent := old(children)[parent] + [p]]
    {
      AddProcInv(s0, p, parent, user, space);
      ListedIs(s0, p, parent, user, space);
      EnlistLinked(p, parent, space, s0, user);
    }

    /** Gives a slot back that was taken. */
    method GiveBack(p: nat, ghost s0: Sys, ghost parent: int, ghost user: bool)
      requires Opened(p, parent, user, s0)
      modifies this`ps
      ensures Valid() && Now() == DropProc(OpenProc(s0, p, parent, user), p)
    {
      OpenDropInv(s0, p, parent, user);
      ps := ps[p := ps[p].(inuse := false)];
    }

    // ---- Reaping ----

    method RunqUnlink(t: nat)
      requires RunLinks() && t < threads
      modifies this`rqNext, this`head, this`ring
      ensures RunLinks() && ring == Without(old(ring), t)
    {
      if head == -1 {
        return;
      }
      ghost var q := ring;
      if head == t {
        IndexUnique(q, 0);
        if rqNext[t] == t {
          OnlyOne(rqNext, head, q);
          head := -1;
        } else {
          var tail := FindRingTail(rqNext, head, q);
          assert rqNext[q[0]] == After(q, 0);
          RingBehead(rqNext, head, q);
          head := rqNext[t];
          rqNext := rqNext[tail := head];
        }
        ring := RemoveAt(q, 0);
      } else {
        var it;
        ghost var k;
        it, k := FindRingPredecessor(rqNext, head, t, q);
        if rqNext[it] != t {
          return;
        }
        RingUnlink(rqNext, head, q, k);
        IndexUnique(q, k + 1);
        rqNext := rqNext[it := rqNext[t]];
        ring := RemoveAt(q, k + 1);
      }
      UnringLink(t);
    }

    /** Clears the link of a thread that is out of the ring. */
    method UnringLink(t: nat)
      requires RunLinks() && t < threads && t !in ring
      modifies this`rqNext
      ensures RunLinks()
    {
      RingFrame(rqNext, rqNext[t := -1], head, ring);
      rqNext := rqNext[t := -1];
    }

    /** Gives up the slot of a thread that is off every list. */
    method FreeThread(t: nat)
      requires WaitLinks() && |ts| == threads && t < threads && InNone(waiters, t)
      modifies this`ts, this`waitNext
      ensures WaitLinks() && ts == old(ts)[t := Thread(Unused, -1, old(ts)[t].wake, NoWait, old(ts)[t].code)]
    {
      ts := ts[t := ts[t].(state := Unused, proc := -1, wait := NoWait)];
      ChainsFrame(waitNext, waitNext[t := -1], wHeads, waiters, wHome);
      waitNext := waitNext[t := -1];
    }

    method Unqueue(t: nat)
      requires RunLinks() && SleepLinks() && t < threads
      modifies this`rqNext, this`head, this`ring, this`sleepNext, this`sleepHead, this`sleepers
      ensures RunLinks() && SleepLinks() && ring == Without(old(ring), t) && sleepers == Without(old(sleepers), t)
    {
      RunqUnlink(t);
      SleepqRemove(t);
    }

    method Detach(t: nat)
      requires MemberLinks() && WaitLinks() && |ts| == threads && Reapable(ts, members, waiters, t)
      modifies this`ts, this`tlNext, this`mHeads, this`members, this`mHome, this`waitNext
      ensures MemberLinks() && WaitLinks()
      ensures ts == old(ts)[t := Thread(Unused, -1, old(ts)[t].wake, NoWait, old(ts)[t].code)]
      ensures members == old(members)[old(ts)[t].proc := Without(old(members)[old(ts)[t].proc], t)]
    {
      LeaveProc(t, ts[t].proc);
      FreeThread(t);
    }

    method ReapLists(t: nat)
      requires RunLinks() && SleepLinks() && MemberLinks() && WaitLinks() && |ts| == threads
      requires Reapable(ts, members, waiters, t)
      modifies this`ts, this`rqNext, this`head, this`ring, this`sleepNext, this`sleepHead, this`sleepers
      modifies this`tlNext, this`mHeads, this`members, this`mHome, this`waitNext
      ensures RunLinks() && SleepLinks() && MemberLinks() && WaitLinks()
      ensures ts == old(ts)[t := Thread(Unused, -1, old(ts)[t].wake, NoWait, old(ts)[t].code)]
      ensures ring == Without(old(ring), t) && sleepers == Without(old(sleepers), t)
      ensures members == old(members)[old(ts)[t].proc := Without(old(members)[old(ts)[t].proc], t)]
    {
      Unqueue(t);
      Detach(t);
    }

    /** Takes thread t off every list and frees its slot. */
    method ThreadReap(t: nat)
      requires Links() && Sized(Now()) && Reapable(ts, members, waiters, t) && IsProc(Now(), ts[t].proc)
      modifies this`ts, this`rqNext, this`head, this`ring, this`sleepNext, this`sleepHead, this`sleepers
      modifies this`tlNext, this`mHeads, this`members, this`mHome, this`waitNext
      ensures Links() && Now() == ReapThread(old(Now()), t)
    {
      ReapLists(t);
      assert Now() == old(Now()).(ts := ts, ring := ring, sleepers := sleepers, members := members);
    }

    method LeaveFamily(p: nat, q: int)
      requires ChildLinks() && p < processes && OnlyIn(children, p, q)
      modifies this`sibNext, this`cHeads, this`children, this`cHome
      ensures ChildLinks() && InNone(children, p) && children == Disowned(old(children), q, p)
    {
      if 0 <= q < processes {
        sibNext, cHeads := ChainUnlink(sibNext, cHeads, q, p, children, cHome);
        if p in children[q] {
          children, cHome := children[q := RemoveAt(children[q], IndexOf(children[q], p))], cHome - {p};
        } else {
          assert children[q := children[q]] == children;
        }
      }
    }

    method UnlistProc(p: nat, q: int)
      requires ProcLinks() && p < processes && OnlyIn(children, p, q)
      modifies this`wHeads, this`waiters, this`wHome, this`sibNext, this`cHeads, this`children, this`cHome
      modifies this`mHeads, this`members, this`mHome
      ensures ProcLinks() && members == old(members)[p := []] && waiters == old(waiters)[p := []]
      ensures children == Disowned(old(children), q, p)[p := []]
    {
      LeaveFamily(p, q);
      ClearLists(p);
    }

    /** Takes process p off its parent's children and frees its slot. */
    method ProcFree(p: nat)
      requires ProcLinks() && |ps| == processes && Sized(Now()) && p < processes
      requires OnlyIn(children, p, ps[p].parent)
      modifies this`ps, this`wHeads, this`waiters, this`wHome, this`sibNext, this`cHeads, this`children, this`cHome
      modifies this`mHeads, this`members, this`mHome
      ensures ProcLinks() && |ps| == processes && Now() == FreeProc(old(Now()), p)
    {
      UnlistProc(p, ps[p].parent);
      ps := ps[p := ps[p].(inuse := false, state := PUnused, live := 0, parent := -1, space := -1)];
      assert Now() == old(Now()).(ps := ps, children := children, members := members, waiters := waiters);
    }

    ghost predicate Emptying(c: nat, s0: Sys)
      reads this
    {
      Links() && BeingEmptied(Now(), c, s0)
    }

    /** Reaps the first thread of process c. */
    method ReapHead(c: nat, ghost s0: Sys) returns (next: int)
      requires Emptying(c, s0) && members[c] != []
      modifies this`ts, this`rqNext, this`head, this`ring, this`sleepNext, this`sleepHead, this`sleepers
      modifies this`tlNext, this`mHeads, this`members, this`mHome, this`waitNext
      ensures Emptying(c, s0) && members[c] == old(members)[c][1..] && next == HeadOf(members[c])
    {
      ChainNext(tlNext, mHeads, members, mHome, c, 0);
      HeadIs(tlNext, mHeads, members, mHome, c);
      var t := mHeads[c];
      next := tlNext[t];
      EmptiedByOne(Now(), c, s0);
      ThreadReap(t);
    }

    method ReapThreadsOf(c: nat, ghost s0: Sys)
      requires Emptying(c, s0)
      modifies this`ts, this`rqNext, this`head, this`ring, this`sleepNext, this`sleepHead, this`sleepers
      modifies this`tlNext, this`mHeads, this`members, this`mHome, this`waitNext
      ensures Links() && Sized(Now()) && children == s0.children && ps == s0.ps
      ensures Now() == ReapThreads(s0, s0.members[c])
    {
      HeadIs(tlNext, mHeads, members, mHome, c);
      var t := mHeads[c];
      while t != -1
        invariant Emptying(c, s0) && t == HeadOf(members[c])
        decreases |members[c]|
      {
        t := ReapHead(c, s0);
      }
    }

    method ReapStep(c: nat)
      requires Emptying(c, Now()) && OnlyIn(children, c, ps[c].parent)
      modifies this
      ensures Links() && Now() == Reap(old(Now()), c)
    {
      ReapThreadsOf(c, Now());
      ProcFree(c);
    }

    /** Process c goes, with its threads. */
    method ReapProc(c: nat)
      requires Valid() && CanGo(Now(), c)
      modifies this
      ensures Valid() && Now() == Reap(old(Now()), c)
    {
      ReapInv(Now(), c);
      CanGoFacts(Now(), c);
      ReapStep(c);
    }

    method UnforkStep(t: int, c: nat)
      requires Links() && Sized(Now()) && c < processes && OnlyIn(children, c, ps[c].parent)
      requires t == -1 || (t >= 0 && Reapable(ts, members, waiters, t) && IsProc(Now(), ts[t].proc))
      modifies this
      ensures t == -1 || (t >= 0 && IsThread(old(Now()), t) && IsProc(old(Now()), old(ts)[t].proc))
      ensures Links() && Now() == FreeProc(if t == -1 then old(Now()) else ReapThread(old(Now()), t), c)
    {
      if t != -1 {
        ThreadReap(t);
      }
      ProcFree(c);
    }

    /** Takes a half-made child down again. */
    method Unfork(t: int, c: nat, ghost parent: int, ghost user: bool, ghost space: int, ghost s0: Sys)
      requires Valid() && HalfForkedIn(Now(), t, c, parent, user, space, s0)
      modifies this
      ensures Valid() && SameSystem(s0, Now())
    {
      if t == -1 {
        UnmakeFacts(s0, c, parent, user, space);
      } else {
        UnforkFacts(s0, t, c, parent, user, space);
      }
      UnforkStep(t, c);
    }

    // ---- Looking for children ----

    /** None of the first k children is a zombie that is waited for. */
    ghost predicate NoneBefore(q: seq<nat>, k: int, wait: Wait)
      reads this`ps
    {
      forall j :: 0 <= j < k <= |q| && q[j] < |ps| && (wait == AnyChild || wait == Child(q[j])) ==>
          ps[q[j]].state != PZombie
    }

    /** The first child of p that is a matching zombie, or -1. */
    method FindZombieChild(p: nat, wait: Wait) returns (c: int, ghost k: int)
      requires ChildLinks() && |ps| == processes && p < processes
      ensures c == FirstZombie(Now(), children[p], wait)
      ensures c == -1 ==> forall d :: d in children[p] && d < |ps| && (wait == AnyChild || wait == Child(d)) ==>
          ps[d].state != PZombie
      ensures c != -1 ==> 0 <= k < |children[p]| && c == children[p][k] && NoneBefore(children[p], k, wait)
      ensures c != -1 ==> c < |ps| && (wait == AnyChild || wait == Child(c)) && ps[c].state == PZombie
    {
      k := 0;
      ghost var q := children[p];
      HeadIs(sibNext, cHeads, children, cHome, p);
      c := cHeads[p];
      while c != -1
        invariant 0 <= k <= |q| && c == (if k < |q| then q[k] else -1)
        invariant FirstZombie(Now(), q, wait) == FirstZombie(Now(), q[k..], wait)
        invariant NoneBefore(q, k, wait)
        decreases |q| - k
      {
        ChainNext(sibNext, cHeads, children, cHome, p, k);
        if Matches(wait, c) && ps[c].state == PZombie {
          return;
        }
        assert q[k..][1..] == q[k + 1..];
        c := sibNext[c];
        k := k + 1;
      }
    }

    /** Whether any child of p matches. */
    method HasMatchingChild(p: nat, wait: Wait) returns (have: bool)
      requires ChildLinks() && p < processes && wait != NoWait
      ensures have == HasMatch(children[p], wait)
    {
      ghost var q, k := children[p], 0;
      HeadIs(sibNext, cHeads, children, cHome, p);
      var c := cHeads[p];
      if wait == AnyChild {
        have := c != -1;
        assert have ==> q[0] in q && Matches(wait, q[0]);
        return;
      }
      while c != -1
        invariant 0 <= k <= |q| && c == (if k < |q| then q[k] else -1)
        invariant forall i :: 0 <= i < k ==> !Matches(wait, q[i])
        decreases |q| - k
      {
        ChainNext(sibNext, cHeads, children, cHome, p, k);
        if Matches(wait, c) {
          return true;
        }
        c := sibNext[c];
        k := k + 1;
      }
      have := false;
    }

    /** One look at the children of p: what waitpid will do. */
    method LookForChild(p: nat, wait: Wait) returns (r: WaitResult)
      requires ChildLinks() && |ps| == processes && p < processes && Sized(Now()) && wait != NoWait
      ensures r == WaitResultOf(Now(), p, wait)
      ensures r == NoChild <==> forall c :: c in children[p] ==> wait != AnyChild && wait != Child(c)
      ensures r == Blocks ==> NoneBefore(children[p], |children[p]|, wait)
      ensures r.Reaped? ==> r.pid in children[p] && r.pid < |ps| && (wait == AnyChild || wait == Child(r.pid))
                            && ps[r.pid].state == PZombie && r.code == ps[r.pid].code
    {
      var have := HasMatchingChild(p, wait);
      var z, _ := FindZombieChild(p, wait);
      if z != -1 {
        return Reaped(z, ps[z].code);
      }
      r := if have then Blocks else NoChild;
    }

    // ---- Starting up ----

    method BootProc() returns (p: nat)
      requires ProcLinks() && |ps| == processes > 0 && Sized(Now()) && !ps[0].inuse && InNone(children, 0)
      modifies this`ps, this`wHeads, this`waiters, this`wHome, this`sibNext, this`cHeads, this`children, this`cHome
      modifies this`mHeads, this`members, this`mHome
      ensures ProcLinks() && |ps| == processes && p == 0 && Now() == AddProc(old(Now()), 0, -1, false, -1)
    {
      ghost var s0 := Now();
      p := AllocProcSlot();
      OpenSlot(p, -1, false);
      EnlistStep(p, -1, -1, s0, false);
    }

    method BootThread(p: nat)
      requires RunLinks() && MemberLinks() && |ts| == threads && |ps| == processes && Sized(Now()) && p < processes
      requires threads > 0 && nextTid == 0 && ts[0].state == Unused && InNone(members, 0) && 0 !in ring
      modifies this`ts, this`ps, this`tlNext, this`mHeads, this`members, this`mHome, this`rqNext, this`head, this`ring
      modifies this`nextTid
      ensures RunLinks() && MemberLinks() && |ts| == threads && |ps| == processes
      ensures Now() == AddThread(old(Now()), 0, p)
    {
      ghost var k;
      var t;
      t, k := AllocThreadSlot();
      assert Around(0, 0) == 0;
      PlaceThread(t, p);
    }

    method BootStep()
      requires Links() && Blank(Now()) && nextTid == 0
      modifies this
      ensures Links() && Now() == Booted(old(Now()))
    {
      var p := BootProc();
      BootThread(p);
    }

    /** The idle process and its thread. */
    method Boot()
      requires Links() && Blank(Now()) && nextTid == 0
      modifies this
      ensures Valid() && Now() == Booted(old(Now()))
    {
      BootInv(Now());
      BootStep();
    }

    /** The current process moves to another address space, which is loaded. */
    method ChangeSpace(space: int)
      requires Valid() && IsProc(Now(), CurrentProc(Now()))
      modifies this`ps, this`loaded
      ensures Valid() && Now() == Exec(old(Now()), space)
    {
      ExecInv(Now(), space);
      var p := ts[current].proc;
      ps := ps[p := ps[p].(space := space)];
      loaded := space;
    }
  }

  /** If x is in any list, it is in list q. */
  ghost predicate OnlyIn(lists: seq<seq<nat>>, x: nat, q: int) {
    forall r {:trigger lists[r]} :: 0 <= r < |lists| && r != q ==> x !in lists[r]
  }

  ghost predicate InNone(lists: seq<seq<nat>>, x: nat) { OnlyIn(lists, x, -1) }

  predicate AllAsleep(ts: seq<Thread>, q: seq<nat>) {
    forall i :: 0 <= i < |q| ==> q[i] < |ts| && ts[q[i]].state == Sleeping
  }

  lemma SleepersSleep(s: Sys)
    requires Inv(s)
    ensures AllAsleep(s.ts, s.sleepers)
  {
    forall i | 0 <= i < |s.sleepers| ensures s.ts[s.sleepers[i]].state == Sleeping {
      assert s.sleepers[i] in s.sleepers && ThreadOk(s, s.sleepers[i]);
    }
  }

  /** A switch in two parts: the current thread is put back, and thread c runs. */
  lemma PickedIs(s: Sys, s1: Sys, c: int)
    requires SwitchReady(s) && s1 == s.(ts := Preempted(s), pending := false)
    requires c == FirstRunnable(s1.ts, OrderOf(s1.ring, s1.current))
    ensures 0 <= c < |s1.ts| && 0 <= s1.ts[c].proc < |s1.ps| && s1.ps[s1.ts[c].proc].inuse
    ensures Switch(s) == s1.(ts := WithState(s1.ts, c, Running), current := c, loaded := LoadedFor(s1, c))
  {
  }

  /** What listing adds to a slot that was taken. */
  lemma ListedIs(s0: Sys, p: nat, parent: int, user: bool, space: int)
    requires SchedModel.Sized(s0) && p < |s0.ps| && -1 <= parent < |s0.ps|
    ensures var s, s' := OpenProc(s0, p, parent, user), AddProc(s0, p, parent, user, space);
      && s'.ps == s.ps[p := s.ps[p].(space := space)]
      && (parent != -1 ==> s'.children == s.children[parent := s.children[parent] + [p]])
  {
  }

  /** The records after an exit: the thread is a zombie with its code, and the
      process has one thread less, or none, and then it is a zombie with the code
      too. */
  predicate ExitRecorded(s: Sys, s': Sys, code: int) {
    true == (&& 0 <= s.current < |s.ts| == |s'.ts| && 0 <= s.ts[s.current].proc < |s.ps|
             && var t, p := s.current, s.ts[s.current].proc;
                && s'.ts[t] == s.ts[t].(state := Zombie, code := code) && s.ps[p].live > 0
                && s'.ps == s.ps[p := if s.ps[p].live == 1 then s.ps[p].(live := 0, state := PZombie, code := code)
                                      else s.ps[p].(live := s.ps[p].live - 1)])
  }

  lemma ExitRecords(s: Sys, code: int)
    requires CanExit(s)
    ensures ExitRecorded(s, Exit(s, code), code)
  {
    var t := s.current;
    var p := s.ts[t].proc;
    if s.ps[p].live == 1 && 0 <= s.ps[p].parent < |s.ps| {
      var ts := s.ts[t := s.ts[t].(state := Zombie, code := code)];
      var v := FirstMatch(ts, s.waiters[s.ps[p].parent], p);
      if v != -1 { assert WaiterOk(s, s.ps[p].parent, v); }
    }
  }

  lemma WaitersAreReal(s: Sys)
    requires Inv(s)
    ensures forall p: nat :: p < |s.ps| && s.waiters[p] != [] ==> WaitersBlocked(s, p)
  {
    forall p: nat | p < |s.ps| && s.waiters[p] != [] ensures WaitersBlocked(s, p) {
      forall t | t in s.waiters[p]
        ensures t < |s.ts| && s.ts[t].state == Blocked && s.ts[t].proc == p && s.ps[p].inuse
      {
        assert WaiterOk(s, p, t) && ThreadOk(s, t);
      }
      assert s.waiters[p][0] in s.waiters[p] && ProcOk(s, p);
    }
  }

  lemma ListedIsBlocked(s: Sys, next: seq<int>, heads: seq<int>, home: map<nat, nat>, t: nat)
    requires Inv(s) && Chains(next, heads, s.waiters, home) && t in home
    ensures t < |s.ts| && s.ts[t].state == Blocked
  {
    assert WaiterOk(s, home[t], t);
  }

  /** A thread that is not blocked is on no waiter list. */
  lemma NotWaiting(s: Sys, next: seq<int>, heads: seq<int>, home: map<nat, nat>, t: nat)
    requires Inv(s) && t < |s.ts| && s.ts[t].state != Blocked && Chains(next, heads, s.waiters, home)
    ensures t !in home
  {
    if t in home { ListedIsBlocked(s, next, heads, home, t); }
  }

  /** An unused slot is on no thread list and not in the ring. */
  lemma NotListed(s: Sys, t: nat)
    requires Inv(s) && t < |s.ts| && s.ts[t].state == Unused
    ensures InNone(s.members, t) && t !in s.ring
  {
    assert ThreadOk(s, t);
    forall r | 0 <= r < |s.members| && r != -1 ensures t !in s.members[r] { assert MemberOk(s, r, t); }
  }

  /** A free slot is in no child list. */
  lemma NobodysChild(s: Sys, next: seq<int>, heads: seq<int>, home: map<nat, nat>, p: nat)
    requires Inv(s) && p < |s.ps| && !s.ps[p].inuse && Chains(next, heads, s.children, home)
    ensures p !in home
  {
    UnusedIsBare(s, p);
  }

  lemma HeadIs(next: seq<int>, heads: seq<int>, lists: seq<seq<nat>>, home: map<nat, nat>, m: nat)
    requires Chains(next, heads, lists, home) && m < |lists|
    ensures heads[m] == HeadOf(lists[m]) && Distinct(lists[m])
  {
  }

  /** Thread t is on its process's thread list and waits for nothing. */
  ghost predicate Reapable(ts: seq<Thread>, members: seq<seq<nat>>, waiters: seq<seq<nat>>, t: int) {
    0 <= t < |ts| && ts[t].state != Unused && 0 <= ts[t].proc < |members| && t in members[ts[t].proc] &&
      InNone(waiters, t)
  }

  /** The threads of process c are being reaped; s0 is how it began. */
  ghost predicate BeingEmptied(s: Sys, c: nat, s0: Sys) {
    && Sized(s) && IsProc(s, c) && s.children == s0.children && s.ps == s0.ps && Sized(s0) && c < |s0.ps|
    && Distinct(s.members[c]) && ReapThreads(s, s.members[c]) == ReapThreads(s0, s0.members[c])
    && (forall t :: t in s.members[c] ==> Reapable(s.ts, s.members, s.waiters, t) && s.ts[t].proc == c)
  }

  lemma Beheaded(q: seq<nat>)
    requires Distinct(q) && q != []
    ensures Without(q, q[0]) == q[1..] && Distinct(q[1..]) && forall u :: u in q[1..] ==> u in q && u != q[0]
  {
    IndexUnique(q, 0);
  }

  lemma EmptiedByOne(s: Sys, c: nat, s0: Sys)
    requires BeingEmptied(s, c, s0) && s.members[c] != []
    ensures var t := s.members[c][0];
      && Reapable(s.ts, s.members, s.waiters, t) && s.ts[t].proc == c && BeingEmptied(ReapThread(s, t), c, s0)
      && ReapThread(s, t).members[c] == s.members[c][1..]
  {
    var q := s.members[c];
    Beheaded(q);
    var s' := ReapThread(s, q[0]);
    forall u | u in s'.members[c] ensures Reapable(s'.ts, s'.members, s'.waiters, u) && s'.ts[u].proc == c {
      assert u in q && Reapable(s.ts, s.members, s.waiters, u);
    }
  }

  /** What reaping c needs to know of its threads and its parent. */
  lemma CanGoFacts(s: Sys, c: nat)
    requires Inv(s) && CanGo(s, c)
    ensures OnlyIn(s.children, c, s.ps[c].parent)
    ensures forall t :: t in s.members[c] ==> IsThread(s, t) && s.ts[t].proc == c && InNone(s.waiters, t)
  {
    forall r | 0 <= r < |s.children| && r != s.ps[c].parent ensures c !in s.children[r] { assert ChildOk(s, r, c); }
    forall t | t in s.members[c] ensures IsThread(s, t) && s.ts[t].proc == c && InNone(s.waiters, t) {
      assert MemberOk(s, c, t);
      forall r | 0 <= r < |s.waiters| && r != -1 ensures t !in s.waiters[r] { assert WaiterOk(s, r, t); }
    }
  }

  /** A process that is made is its parent's child and no other's. */
  lemma ListedOnce(s: Sys, c: nat, parent: int, user: bool, space: int)
    requires Inv(s) && c < |s.ps| && !s.ps[c].inuse && IsProc(s, parent)
    ensures OnlyIn(AddProc(s, c, parent, user, space).children, c, parent)
  {
    UnusedIsBare(s, c);
    var children := AddProc(s, c, parent, user, space).children;
    forall r | 0 <= r < |children| && r != parent ensures c !in children[r] {
      assert children[r] == if r == c then [] else s.children[r];
    }
  }

  /** What taking a half-made child without a thread down comes to. */
  lemma UnmakeFacts(s0: Sys, c: nat, parent: int, user: bool, space: int)
    requires Inv(s0) && c < |s0.ps| && !s0.ps[c].inuse && IsProc(s0, parent)
    ensures var s := AddProc(s0, c, parent, user, space);
      && Sized(s) && c < |s.ps| && OnlyIn(s.children, c, s.ps[c].parent)
      && SameSystem(s0, FreeProc(s, c)) && Inv(FreeProc(s, c))
  {
    ListedOnce(s0, c, parent, user, space);
    NewProcUndone(s0, c, parent, user, space);
    SameSystemInv(s0, FreeProc(AddProc(s0, c, parent, user, space), c));
  }

  lemma ThreadReapable(s0: Sys, t: nat, c: nat, parent: int, user: bool, space: int)
    requires Inv(s0) && c < |s0.ps| && !s0.ps[c].inuse && IsProc(s0, parent) && t < |s0.ts| && s0.ts[t].state == Unused
    ensures var s := AddThread(AddProc(s0, c, parent, user, space), t, c);
      && Sized(s) && OnlyIn(s.children, c, parent) && c < |s.ps| && s.ps[c].parent == parent
      && Reapable(s.ts, s.members, s.waiters, t)
  {
    ListedOnce(s0, c, parent, user, space);
    UnusedIsBare(s0, c);
    NotWaitingAnywhere(s0, t);
  }

  /** What taking a half-made child down needs to know, and what it comes to. */
  lemma UnforkFacts(s0: Sys, t: nat, c: nat, parent: int, user: bool, space: int)
    requires Inv(s0) && c < |s0.ps| && !s0.ps[c].inuse && IsProc(s0, parent) && t < |s0.ts| && s0.ts[t].state == Unused
    ensures var s := AddThread(AddProc(s0, c, parent, user, space), t, c);
      && Sized(s) && c < |s.ps| && OnlyIn(s.children, c, s.ps[c].parent)
      && Reapable(s.ts, s.members, s.waiters, t) && s.ts[t].proc == c && IsProc(s, c)
      && SameSystem(s0, FreeProc(ReapThread(s, t), c)) && Inv(FreeProc(ReapThread(s, t), c))
  {
    ThreadReapable(s0, t, c, parent, user, space);
    ForkUndone(s0, c, t, parent, user, space);
    SameSystemInv(s0, FreeProc(ReapThread(AddThread(AddProc(s0, c, parent, user, space), t, c), t), c));
  }

  lemma NotWaitingAnywhere(s: Sys, t: nat)
    requires Inv(s) && t < |s.ts| && s.ts[t].state != Blocked
    ensures InNone(s.waiters, t)
  {
    forall r | 0 <= r < |s.waiters| && r != -1 ensures t !in s.waiters[r] { assert WaiterOk(s, r, t); }
  }

  lemma WokenOneMore(ts: seq<Thread>, q: seq<nat>, k: nat)
    requires k < |q| && forall i :: 0 <= i < |q| ==> q[i] < |ts|
    ensures WokenAll(ts, q[..k + 1]) == WithState(WokenAll(ts, q[..k]), q[k], Runnable)
  {
    assert q[..k + 1] == q[..k] + [q[k]];
    forall t: nat ensures t in q[..k + 1] <==> t in q[..k] || t == q[k] { }
  }

  lemma {:induction false} DueIs(ts: seq<Thread>, q: seq<nat>, now: nat, k: nat)
    requires k <= |q| && (forall i :: 0 <= i < k ==> q[i] < |ts| && ts[q[i]].wake <= now)
    requires k < |q| ==> q[k] >= |ts| || ts[q[k]].wake > now
    ensures Due(ts, q, now) == k
  {
  }

  /** What the search needs to know. */
  ghost predicate SwitchReady(s: Sys) {
    && s.ring != [] && (s.current == -1 || (IsThread(s, s.current) && s.current in s.ring))
    && var c := FirstRunnable(Preempted(s), Order(s));
       0 <= c < |s.ts| && IsProc(s, s.ts[c].proc) && Preempted(s)[c].proc == s.ts[c].proc
  }

  lemma SwitchFacts(s: Sys)
    requires Inv(s)
    ensures SwitchReady(s)
  {
    SwitchFinds(s);
    if s.current != -1 { assert ThreadOk(s, s.current); }
    assert ThreadOk(s, FirstRunnable(Preempted(s), Order(s)));
  }
}
