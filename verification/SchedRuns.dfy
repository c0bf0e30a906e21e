/** Runs of the scheduler: any interleaving of timer interrupts, yields and the
    interrupt-disabled sections that threads go through. */
module SchedRuns {
  import opened SchedModel
  import opened SchedInv

  datatype Event =
    | Timer                                   // the timer interrupt, and the switch on its return
    | Yield                                   // the yield interrupt
    | DoSleep(n: nat)
    | DoBlock(wait: Wait)                     // waitpid finds a matching child, but no zombie
    | DoExit(code: int)
    | NewThread(t: nat, p: nat)
    | NewProc(p: nat, parent: int, user: bool, space: int)
    | DoReap(c: nat)                          // waitpid finds a zombie, or fork gives up
    | DoExec(space: int)

  /** A timer interrupt, with the switch that its return makes if one is due. */
  function Interrupt(s: Sys): Sys { if Tick(s).pending then Switch(Tick(s)) else Tick(s) }

  function CurrentProc(s: Sys): int { if IsThread(s, s.current) then s.ts[s.current].proc else -1 }

  /** A new address space is no other process's. */
  predicate FreshSpace(s: Sys, space: int) {
    space >= 0 && forall p :: 0 <= p < |s.ps| && s.ps[p].inuse ==> s.ps[p].space != space
  }

  /** Some child of p matches, and none that matches is a zombie. */
  ghost predicate MustWait(s: Sys, p: nat, wait: Wait)
    requires Sized(s) && p < |s.ps|
  {
    && (exists c :: c in s.children[p] && Matches(wait, c))
    && (forall c :: c in s.children[p] && c < |s.ps| && Matches(wait, c) ==> s.ps[c].state != PZombie)
  }

  /** When the kernel code gets to a step. */
  ghost predicate Guard(s: Sys, e: Event) {
    match e
    case Timer => true
    case Yield => IsThread(s, s.current)
    case DoSleep(_) => Acting(s)
    case DoBlock(wait) =>
      && Acting(s) && wait != NoWait && Sized(s) && IsProc(s, CurrentProc(s))
      && MustWait(s, CurrentProc(s), wait)
    case DoExit(_) => Acting(s)
    case NewThread(t, p) => t < |s.ts| && s.ts[t].state == Unused && IsAlive(s, p)
    case NewProc(p, parent, user, space) =>
      && p < |s.ps| && !s.ps[p].inuse && (parent == -1 || IsAlive(s, parent))
      && (parent != -1 ==> user == s.ps[parent].user) && (if user then FreshSpace(s, space) else space == -1)
    case DoReap(c) =>
      && Acting(s) && Sized(s) && IsProc(s, CurrentProc(s)) && c in s.children[CurrentProc(s)] && CanGo(s, c)
      && (s.ps[c].state == PZombie || s.members[c] == [])
    case DoExec(space) => Acting(s) && IsProc(s, CurrentProc(s)) && s.ps[CurrentProc(s)].user && FreshSpace(s, space)
  }

  ghost predicate Enabled(s: Sys, e: Event) { Inv(s) && Guard(s, e) }

  /** execve replaces the address space of the current process and loads it. */
  function Exec(s: Sys, space: int): Sys
    requires IsProc(s, CurrentProc(s))
  {
    var p := CurrentProc(s);
    s.(ps := s.ps[p := s.ps[p].(space := space)], loaded := space)
  }

  ghost function Step(s: Sys, e: Event): Sys
    requires Enabled(s, e)
  {
    match e
    case Timer => Interrupt(s)
    case Yield => Switch(s.(pending := true))
    case DoSleep(n) => Sleep(s, n)
    case DoBlock(wait) => Block(s, wait)
    case DoExit(code) => ActingHasProc(s); Exit(s, code)
    case NewThread(t, p) => AddThread(s, t, p)
    case NewProc(p, parent, user, space) => AddProc(s, p, parent, user, space)
    case DoReap(c) => Reap(s, c)
    case DoExec(space) => Exec(s, space)
  }

  ghost predicate Steps(s: Sys, e: Event, s': Sys) { Enabled(s, e) && s' == Step(s, e) }

  lemma ExecInv(s: Sys, space: int)
    requires Inv(s) && IsProc(s, CurrentProc(s))
    ensures Inv(Exec(s, space))
  {
    var s' := Exec(s, space);
    forall t: nat ensures ThreadOk(s', t) { assert ThreadOk(s, t); }
    forall p: nat, t: nat ensures WaiterOk(s', p, t) { assert WaiterOk(s, p, t); }
    forall p: nat, t: nat ensures MemberOk(s', p, t) { assert MemberOk(s, p, t); }
    forall p: nat, c: nat ensures ChildOk(s', p, c) { assert ChildOk(s, p, c); }
    forall p: nat ensures ProcOk(s', p) { assert ProcOk(s, p); }
  }

  lemma PendingInv(s: Sys, pending: bool)
    requires Inv(s)
    ensures Inv(s.(pending := pending))
  {
    var s' := s.(pending := pending);
    forall t: nat ensures ThreadOk(s', t) { assert ThreadOk(s, t); }
    forall p: nat, t: nat ensures WaiterOk(s', p, t) { assert WaiterOk(s, p, t); }
    forall p: nat, t: nat ensures MemberOk(s', p, t) { assert MemberOk(s, p, t); }
    forall p: nat, c: nat ensures ChildOk(s', p, c) { assert ChildOk(s, p, c); }
    forall p: nat ensures ProcOk(s', p) { assert ProcOk(s, p); }
  }

  /** Every step keeps the scheduler consistent. */
  lemma StepInv(s: Sys, e: Event)
    requires Enabled(s, e)
    ensures Inv(Step(s, e))
  {
    match e
    case Timer => TickInv(s); SwitchInv(Tick(s));
    case Yield => PendingInv(s, true); SwitchInv(s.(pending := true));
    case DoSleep(n) => SleepInv(s, n);
    case DoBlock(wait) => BlockInv(s, wait);
    case DoExit(code) => ActingHasProc(s); ExitInv(s, code);
    case NewThread(t, p) => AddThreadInv(s, t, p);
    case NewProc(p, parent, user, space) => AddProcInv(s, p, parent, user, space);
    case DoReap(c) => ReapInv(s, c);
    case DoExec(space) => ExecInv(s, space);
  }

  /** A step that the kernel code gets to; from a consistent state it does what
      the model says. */
  ghost predicate IsStep(s: Sys, e: Event, s': Sys) { Guard(s, e) && (Inv(s) ==> s' == Step(s, e)) }

  ghost predicate StepAt(run: seq<Sys>, events: seq<Event>, i: nat)
    requires i < |events| < |run|
  {
    IsStep(run[i], events[i], run[i + 1])
  }

  ghost predicate IsRun(run: seq<Sys>, events: seq<Event>) {
    |run| == |events| + 1 && forall i: nat :: i < |events| ==> StepAt(run, events, i)
  }

  /** So every state of every run is consistent: the ring visits every thread in
      use once, at most one thread runs and it is the current one, the sleep
      queue holds exactly the sleeping threads and the waiter lists exactly the
      blocked ones, and the current thread is never a reaped slot. */
  lemma {:induction false} AlwaysConsistent(run: seq<Sys>, events: seq<Event>, i: nat)
    requires IsRun(run, events) && Inv(run[0]) && i < |run|
    ensures Inv(run[i])
  {
    if i > 0 {
      AlwaysConsistent(run, events, i - 1);
      assert StepAt(run, events, i - 1);
      StepInv(run[i - 1], events[i - 1]);
    }
  }

  lemma RunStep(run: seq<Sys>, events: seq<Event>, i: nat)
    requires IsRun(run, events) && Inv(run[0]) && i < |events|
    ensures Enabled(run[i], events[i]) && run[i + 1] == Step(run[i], events[i])
  {
    AlwaysConsistent(run, events, i);
    assert StepAt(run, events, i);
  }

  /** A run from s to s'. */
  ghost predicate Leads(run: seq<Sys>, events: seq<Event>, s: Sys, s': Sys) {
    IsRun(run, events) && run[0] == s && run[|events|] == s'
  }

  ghost predicate Reaches(s: Sys, s': Sys) { exists run: seq<Sys>, events: seq<Event> :: Leads(run, events, s, s') }

  lemma LeadsMore(run: seq<Sys>, events: seq<Event>, s: Sys, s1: Sys, e: Event, s2: Sys)
    requires Leads(run, events, s, s1) && IsStep(s1, e, s2)
    ensures Leads(run + [s2], events + [e], s, s2)
  {
    var run', events' := run + [s2], events + [e];
    forall i: nat | i < |events'| ensures StepAt(run', events', i) {
      if i < |events| {
        assert StepAt(run, events, i);
        assert run'[i] == run[i] && events'[i] == events[i] && run'[i + 1] == run[i + 1];
      } else {
        assert run'[i] == s1 && events'[i] == e && run'[i + 1] == s2;
      }
    }
  }

  lemma ReachSelf(s: Sys)
    ensures Reaches(s, s)
  {
    assert Leads([s], [], s, s);
  }

  lemma ReachMore(s: Sys, s1: Sys, e: Event)
    requires Inv(s) && Reaches(s, s1) && Guard(s1, e)
    ensures Enabled(s1, e) && Reaches(s, Step(s1, e))
  {
    var run: seq<Sys>, events: seq<Event> :| Leads(run, events, s, s1);
    AlwaysConsistent(run, events, |events|);
    LeadsMore(run, events, s, s1, e, Step(s1, e));
  }

  /** How many timer interrupts there are among some events. */
  function Timers(events: seq<Event>): nat {
    if events == [] then 0 else Timers(events[..|events| - 1]) + if events[|events| - 1].Timer? then 1 else 0
  }

  // ---- The first state ----

  /** No thread, no process. */
  ghost predicate Blank(s: Sys) {
    && Sized(s) && |s.ts| > 0 && |s.ps| > 0 && s.ring == [] && s.sleepers == [] && s.current == -1 && s.idle == 0
    && 0 < s.rr <= CADENCE && s.loaded == -1
    && (forall t :: 0 <= t < |s.ts| ==> s.ts[t].state == Unused && s.ts[t].wait == NoWait)
    && (forall p {:trigger s.ps[p]} :: 0 <= p < |s.ps| ==> !s.ps[p].inuse)
    && (forall p {:trigger s.waiters[p]} :: 0 <= p < |s.ps| ==> s.waiters[p] == [])
    && (forall p {:trigger s.children[p]} :: 0 <= p < |s.ps| ==> s.children[p] == [])
    && (forall p {:trigger s.members[p]} :: 0 <= p < |s.ps| ==> s.members[p] == [])
  }

  /** The idle process and its thread. */
  function Booted(s: Sys): Sys
    requires Sized(s) && |s.ts| > 0 && |s.ps| > 0
  {
    AddThread(AddProc(s, 0, -1, false, -1), 0, 0)
  }

  lemma BootInv(s: Sys)
    requires Blank(s)
    ensures Inv(Booted(s))
  {
    var s' := Booted(s);
    forall t: nat ensures ThreadOk(s', t) { assert t < |s.ts| ==> s.ts[t].state == Unused; }
    forall p: nat, t: nat ensures WaiterOk(s', p, t) { assert p < |s.ps| ==> s.waiters[p] == []; }
    forall p: nat, t: nat ensures MemberOk(s', p, t) { assert p < |s.ps| ==> s.members[p] == []; }
    forall p: nat, c: nat ensures ChildOk(s', p, c) { assert p < |s.ps| ==> s.children[p] == []; }
    forall p: nat ensures ProcOk(s', p) {
      assert p < |s.ps| ==> s.members[p] == [] && s.waiters[p] == [] && s.children[p] == [] && !s.ps[p].inuse;
    }
  }
}
