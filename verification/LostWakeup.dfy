/** How two threads of one process come to wait for the same child: a run from
    boot to the state in which one of them is lost. */
module LostWakeup {
  import opened SchedModel
  import opened SchedRuns
  import opened NoLostWakeup

  function Forced(s: Sys): Sys { s.(ticks := s.ticks + s.rr, rr := CADENCE, pending := true) }

  lemma TimerReaches(s0: Sys, s: Sys)
    requires Inv(s0) && Reaches(s0, s)
    ensures Reaches(s0, Interrupt(s))
  {
    ReachMore(s0, s, Timer);
  }

  /** Without sleepers a timer interrupt only counts, until it forces a switch. */
  lemma QuietTick(s: Sys)
    requires s.sleepers == [] && !s.pending && s.rr > 0
    ensures s.rr == 1 ==> Tick(s) == Forced(s)
    ensures s.rr > 1 ==> Tick(s) == s.(ticks := s.ticks + 1, rr := s.rr - 1)
  {
    assert WokenAll(s.ts, []) == s.ts;
  }

  lemma InterruptIs(s: Sys, s': Sys)
    requires Tick(s) == s'
    ensures Interrupt(s) == if s'.pending then Switch(s') else s'
  {
  }

  lemma LastQuietInterrupt(s: Sys)
    requires s.sleepers == [] && !s.pending && s.rr == 1
    ensures Interrupt(s) == Switch(Forced(s))
  {
    QuietTick(s);
    InterruptIs(s, Forced(s));
  }

  lemma EarlyQuietInterrupt(s: Sys)
    requires s.sleepers == [] && !s.pending && s.rr > 1
    ensures Interrupt(s) == s.(ticks := s.ticks + 1, rr := s.rr - 1)
  {
    QuietTick(s);
    InterruptIs(s, s.(ticks := s.ticks + 1, rr := s.rr - 1));
  }

  lemma QuietInterrupt(s: Sys)
    requires s.sleepers == [] && !s.pending && s.rr > 0
    ensures s.rr == 1 ==> Interrupt(s) == Switch(Forced(s))
    ensures s.rr > 1 ==> Interrupt(s) == s.(ticks := s.ticks + 1, rr := s.rr - 1)
  {
    if s.rr == 1 { LastQuietInterrupt(s); } else { EarlyQuietInterrupt(s); }
  }

  lemma ForcedLater(s: Sys)
    requires s.rr > 1
    ensures Forced(s.(ticks := s.ticks + 1, rr := s.rr - 1)) == Forced(s)
  {
  }

  /** After as many timer interrupts as are left of the round, a switch. */
  lemma {:induction false} NextSwitch(s0: Sys, s: Sys)
    requires Inv(s0) && Reaches(s0, s) && s.sleepers == [] && !s.pending && s.rr > 0
    ensures Reaches(s0, Switch(Forced(s)))
    decreases s.rr
  {
    QuietInterrupt(s);
    TimerReaches(s0, s);
    if s.rr > 1 {
      ForcedLater(s);
      NextSwitch(s0, s.(ticks := s.ticks + 1, rr := s.rr - 1));
    }
  }

  /** A switch that finds the next thread in the ring runnable. */
  lemma NextRuns(s: Sys, c: nat)
    requires c < |s.ts| && |Order(s)| > 0 && Order(s)[0] == c && Preempted(s)[c].state == Runnable && s.ring != []
    ensures Switch(s) == s.(ts := WithState(Preempted(s), c, Running), pending := false, current := c,
      loaded := LoadedFor(s, c))
  {
  }

  // ---- The run ----

  function Small(ts: seq<Thread>, ps: seq<Proc>, ring: seq<nat>, waiters: seq<seq<nat>>, children: seq<seq<nat>>,
                 members: seq<seq<nat>>, current: int, ticks: nat): Sys
  {
    Sys(ts, ps, ring, [], waiters, children, members, current, 0, ticks, CADENCE, false, -1)
  }

  function Nothing(): seq<seq<nat>> { [[], [], []] }

  function Bare(): Thread { Thread(Unused, -1, 0, NoWait, 0) }

  function Ready(p: nat): Thread { Thread(Runnable, p, 0, NoWait, 0) }

  function NoProc(): Proc { Proc(false, PUnused, 0, 0, -1, false, -1) }

  function Holds(live: nat, parent: int): Proc { Proc(true, Alive, 0, live, parent, false, -1) }

  /** Four thread slots, three process slots, nothing in them. */
  function Start(): Sys {
    Small([Bare(), Bare(), Bare(), Bare()], [NoProc(), NoProc(), NoProc()], [], Nothing(), Nothing(), Nothing(), -1, 0)
  }

  /** The idle thread. */
  function S0(): Sys {
    Small([Ready(0), Bare(), Bare(), Bare()], [Holds(1, -1), NoProc(), NoProc()], [0], Nothing(), Nothing(),
      [[0], [], []], -1, 0)
  }

  /** A second process. */
  function S1(): Sys {
    Small([Ready(0), Bare(), Bare(), Bare()], [Holds(1, -1), Holds(0, -1), NoProc()], [0], Nothing(), Nothing(),
      [[0], [], []], -1, 0)
  }

  /** Its two threads. */
  function S2(): Sys {
    Small([Ready(0), Ready(1), Bare(), Bare()], [Holds(1, -1), Holds(1, -1), NoProc()], [0, 1],
          Nothing(), Nothing(), [[0], [1], []], -1, 0)
  }

  function S3(): Sys {
    Small([Ready(0), Ready(1), Ready(1), Bare()], [Holds(1, -1), Holds(2, -1), NoProc()], [0, 1, 2],
          Nothing(), Nothing(), [[0], [1, 2], []], -1, 0)
  }

  /** Its child, with a thread. */
  function S4(): Sys {
    Small([Ready(0), Ready(1), Ready(1), Bare()], [Holds(1, -1), Holds(2, -1), Holds(0, 1)], [0, 1, 2],
          Nothing(), [[], [2], []], [[0], [1, 2], []], -1, 0)
  }

  function Made(ts: seq<Thread>, waiters: seq<seq<nat>>, current: int, ticks: nat): Sys {
    Small(ts, [Holds(1, -1), Holds(2, -1), Holds(1, 1)], [0, 1, 2, 3], waiters, [[], [2], []], [[0], [1, 2], [3]],
      current, ticks)
  }

  function S5(): Sys { Made([Ready(0), Ready(1), Ready(1), Ready(2)], Nothing(), -1, 0) }

  function Runs(p: nat): Thread { Thread(Running, p, 0, NoWait, 0) }

  function Waits(): Thread { Thread(Blocked, 1, 0, AnyChild, 0) }

  /** The idle thread runs, then the first thread. */
  function S6(): Sys { Made([Runs(0), Ready(1), Ready(1), Ready(2)], Nothing(), 0, 10) }

  function S7(): Sys { Made([Ready(0), Runs(1), Ready(1), Ready(2)], Nothing(), 1, 20) }

  /** It waits for any child, and so does the second. */
  function S8(): Sys { Made([Ready(0), Waits(), Ready(1), Ready(2)], [[], [1], []], 1, 20) }

  function S9(): Sys { Made([Ready(0), Waits(), Runs(1), Ready(2)], [[], [1], []], 2, 20) }

  function S10(): Sys { Made([Ready(0), Waits(), Waits(), Ready(2)], [[], [2, 1], []], 2, 20) }

  lemma Boots()
    ensures Blank(Start()) && Booted(Start()) == S0()
  {
    var a := AddProc(Start(), 0, -1, false, -1);
    assert a == Small([Bare(), Bare(), Bare(), Bare()], [Holds(0, -1), NoProc(), NoProc()], [], Nothing(), Nothing(),
      Nothing(), -1, 0);
    assert a.members[0] + [0] == [0] && a.ring + [0] == [0];
  }

  lemma Grows1()
    ensures AddProc(S0(), 1, -1, false, -1) == S1() && AddThread(S1(), 1, 1) == S2()
  {
    assert S0().members[1 := []] == S0().members;
    assert S1().members[1] + [1] == [1] && S1().ring + [1] == [0, 1];
  }

  lemma Grows2()
    ensures AddThread(S2(), 2, 1) == S3()
  {
    assert S2().members[1] + [2] == [1, 2] && S2().ring + [2] == [0, 1, 2];
  }

  lemma Grows3()
    ensures AddProc(S3(), 2, 1, false, -1) == S4()
  {
    assert S3().members[2 := []] == S3().members;
    assert Nothing()[1] + [2] == [2] && Nothing()[2 := []] == Nothing();
  }

  lemma Grows4()
    ensures AddThread(S4(), 3, 2) == S5()
  {
    assert S4().members[2] + [3] == [3] && S4().ring + [3] == [0, 1, 2, 3];
  }

  lemma IdleRuns()
    ensures Switch(Forced(S5())) == S6()
  {
    NextRuns(Forced(S5()), 0);
  }

  lemma FirstRuns()
    ensures Switch(Forced(S6())) == S7()
  {
    assert Order(Forced(S6())) == [1, 2, 3, 0];
    NextRuns(Forced(S6()), 1);
  }

  lemma FirstWaits()
    ensures Block(S7(), AnyChild) == S8()
  {
    assert [1] + S7().waiters[1] == [1];
  }

  lemma SecondRuns()
    ensures Switch(S8().(pending := true)) == S9()
  {
    assert Order(S8().(pending := true)) == [2, 3, 0, 1];
    NextRuns(S8().(pending := true), 2);
  }

  lemma SecondWaits()
    ensures Block(S9(), AnyChild) == S10()
  {
    assert [2] + S9().waiters[1] == [2, 1];
  }

  lemma ChildRuns()
    ensures Switch(S10().(pending := true)) == TwoWaiters()
  {
    assert Order(S10().(pending := true)) == [3, 0, 1, 2];
    NextRuns(S10().(pending := true), 3);
  }

  lemma ReachThreads()
    ensures Inv(S0()) && Reaches(S0(), S3())
  {
    Boots();
    BootInv(Start());
    ReachSelf(S0());
    Grows1();
    ReachMore(S0(), S0(), NewProc(1, -1, false, -1));
    ReachMore(S0(), S1(), NewThread(1, 1));
    Grows2();
    ReachMore(S0(), S2(), NewThread(2, 1));
  }

  lemma MayGrow()
    ensures Guard(S3(), NewProc(2, 1, false, -1)) && Guard(S4(), NewThread(3, 2))
  {
  }

  /** From boot to the two ready threads and the child. */
  lemma ReachMade()
    ensures Inv(S0()) && Reaches(S0(), S5())
  {
    ReachThreads();
    MayGrow();
    Grows3();
    ReachMore(S0(), S3(), NewProc(2, 1, false, -1));
    Grows4();
    ReachMore(S0(), S4(), NewThread(3, 2));
  }

  lemma ReachFirst()
    ensures Inv(S0()) && Reaches(S0(), S7())
  {
    ReachMade();
    NextSwitch(S0(), S5());
    IdleRuns();
    NextSwitch(S0(), S6());
    FirstRuns();
  }

  lemma MayWait()
    ensures Guard(S7(), DoBlock(AnyChild)) && Guard(S9(), DoBlock(AnyChild))
  {
    assert S7().children[1][0] == 2 && S9().children[1][0] == 2 && Matches(AnyChild, 2);
  }

  /** The first thread waits, and the second runs. */
  lemma ReachSecond()
    ensures Inv(S0()) && Reaches(S0(), S9())
  {
    ReachFirst();
    MayWait();
    FirstWaits();
    ReachMore(S0(), S7(), DoBlock(AnyChild));
    SecondRuns();
    ReachMore(S0(), S8(), Yield);
  }

  /** The state with the lost waiter is reachable from boot. */
  lemma ReachTwoWaiters()
    ensures Blank(Start()) && Inv(Booted(Start())) && Reaches(Booted(Start()), TwoWaiters())
  {
    Boots();
    ReachSecond();
    MayWait();
    SecondWaits();
    ReachMore(S0(), S9(), DoBlock(AnyChild));
    ChildRuns();
    ReachMore(S0(), S10(), Yield);
  }
}
