/** When sleepers wake. */
module SchedSleep {
  import opened Words
  import opened Lists
  import opened SchedModel
  import opened SchedInv
  import opened SchedRuns

  lemma DueMeans(ts: seq<Thread>, q: seq<nat>, now: nat, i: nat)
    requires Sorted(ts, q) && i < |q|
    ensures i < Due(ts, q, now) <==> ts[q[i]].wake <= now
  {
    var k := Due(ts, q, now);
    assert k <= i ==> ts[q[k]].wake <= ts[q[i]].wake;
  }

  lemma PrefixHas(q: seq<nat>, k: nat, i: nat)
    requires Distinct(q) && k <= |q| && i < |q|
    ensures q[i] in q[..k] <==> i < k
  {
    if i < k { assert q[..k][i] == q[i]; }
  }

  /** A tick wakes exactly the sleepers whose deadline it has reached. */
  lemma TickWakesExactly(s: Sys, t: nat)
    requires Inv(s) && t < |s.ts| && s.ts[t].state == Sleeping
    ensures Tick(s).ts[t].state == if s.ts[t].wake <= s.ticks + 1 then Runnable else Sleeping
  {
    assert ThreadOk(s, t);
    var i := IndexOf(s.sleepers, t);
    DueMeans(s.ts, s.sleepers, s.ticks + 1, i);
    PrefixHas(s.sleepers, Due(s.ts, s.sleepers, s.ticks + 1), i);
  }

  /** So right after a tick nobody sleeps whose deadline has come. */
  lemma NobodyOversleeps(s: Sys, t: nat)
    requires Inv(s) && t < |s.ts|
    ensures Tick(s).ts[t].state == Sleeping ==> Tick(s).ts[t].wake > Tick(s).ticks
  {
    if s.ts[t].state == Sleeping { TickWakesExactly(s, t); } else { TickSparesOthers(s, t); }
  }

  /** It wakes nobody else, and changes no other thread. */
  lemma TickSparesOthers(s: Sys, t: nat)
    requires Inv(s) && t < |s.ts| && s.ts[t].state != Sleeping
    ensures Tick(s).ts[t] == s.ts[t]
  {
    assert ThreadOk(s, t);
    TickThread(s, t);
  }

  lemma InsertIndex(q: seq<nat>, k: nat, t: nat, u: nat)
    requires Distinct(q) && k <= |q| && t !in q && u in q
    ensures var r := InsertAt(q, k, t);
      t in r && u in r && IndexOf(r, t) == k && IndexOf(r, u) == IndexOf(q, u) + if IndexOf(q, u) < k then 0 else 1
  {
    InsertMembers(q, k, t);
    var i, r := IndexOf(q, u), InsertAt(q, k, t);
    assert r[k] == t && r[if i < k then i else i + 1] == u;
    IndexUnique(r, k);
    IndexUnique(r, if i < k then i else i + 1);
  }

  /** A thread that goes to sleep queues behind all whose deadline is no later,
      in particular behind those with the same deadline, and before the rest. */
  lemma SleepQueuesFifo(s: Sys, n: nat, u: nat)
    requires Inv(s) && Acting(s) && u in s.sleepers
    ensures var s', t := Sleep(s, n), s.current;
      && t in s'.sleepers && u in s'.sleepers
      && (IndexOf(s'.sleepers, u) < IndexOf(s'.sleepers, t) <==> s.ts[u].wake <= s'.ts[t].wake)
  {
    var t, s' := s.current, Sleep(s, n);
    ActingHasProc(s);
    var q, k := s.sleepers, Due(s'.ts, s.sleepers, s'.ts[t].wake);
    assert Sorted(s'.ts, q);
    InsertIndex(q, k, t, u);
    DueMeans(s'.ts, q, s'.ts[t].wake, IndexOf(q, u));
  }

  // ---- Over runs ----

  /** Which timer interrupt from now on wakes a sleeper: the first at its
      deadline or later. */
  function Nap(ticks: nat, wake: nat): nat { if wake <= ticks + 1 then 1 else wake - ticks }

  predicate Awake(s: Sys, t: nat) { t < |s.ts| && (s.ts[t].state == Runnable || s.ts[t].state == Running) }

  lemma SwitchSparesSleeper(s: Sys, t: nat)
    requires Inv(s) && t < |s.ts|
    ensures t < |Switch(s).ts| && Switch(s).ticks == s.ticks
    ensures s.ts[t].state == Sleeping ==> Switch(s).ts[t] == s.ts[t]
    ensures s.ts[t].state == Runnable ==> Awake(Switch(s), t)
  {
    SwitchFinds(s);
  }

  lemma TimerOnSleeper(s: Sys, t: nat)
    requires Inv(s) && t < |s.ts| && s.ts[t].state == Sleeping
    ensures t < |Interrupt(s).ts| && Interrupt(s).ticks == s.ticks + 1
    ensures if s.ts[t].wake <= s.ticks + 1 then Awake(Interrupt(s), t) else Interrupt(s).ts[t] == s.ts[t]
  {
    TickInv(s);
    TickWakesExactly(s, t);
    SwitchSparesSleeper(Tick(s), t);
  }

  lemma ExitSparesSleeper(s: Sys, code: int, t: nat)
    requires CanExit(s) && t < |s.ts| && s.ts[t].state == Sleeping
    ensures t < |Exit(s, code).ts| && Exit(s, code).ticks == s.ticks && Exit(s, code).ts[t] == s.ts[t]
  {
    ActingHasProc(s);
    var c := s.current;
    var p := s.ts[c].proc;
    var q := s.ps[p].parent;
    if s.ps[p].live == 1 && 0 <= q < |s.ps| {
      var v := FirstMatch(s.ts[c := s.ts[c].(state := Zombie, code := code)], s.waiters[q], p);
      if v != -1 { assert WaiterOk(s, q, v); }
    }
  }

  lemma ReapSparesSleeper(s: Sys, c: nat, t: nat)
    requires Enabled(s, DoReap(c)) && t < |s.ts| && s.ts[t].state == Sleeping
    ensures t < |Reap(s, c).ts| && Reap(s, c).ticks == s.ticks && Reap(s, c).ts[t] == s.ts[t]
  {
    ReapIs(s, c);
    if s.members[c] != [] { assert s.members[c][0] in s.members[c]; }
  }

  /** Whatever happens, only a timer interrupt at the deadline wakes a sleeper. */
  lemma StepSleeper(s: Sys, e: Event, t: nat)
    requires Enabled(s, e) && t < |s.ts| && s.ts[t].state == Sleeping
    ensures t < |Step(s, e).ts| && Step(s, e).ticks == s.ticks + if e.Timer? then 1 else 0
    ensures if e.Timer? && s.ts[t].wake <= s.ticks + 1 then Awake(Step(s, e), t) else Step(s, e).ts[t] == s.ts[t]
  {
    match e
    case Timer => TimerOnSleeper(s, t);
    case Yield => PendingInv(s, true); SwitchSparesSleeper(s.(pending := true), t);
    case DoExit(code) => ActingHasProc(s); ExitSparesSleeper(s, code, t);
    case DoReap(c) => ReapSparesSleeper(s, c, t);
    case _ =>
  }

  lemma OneMore(events: seq<Event>, i: nat)
    requires i < |events|
    ensures Timers(events[..i + 1]) == Timers(events[..i]) + if events[i].Timer? then 1 else 0
  {
    assert events[..i + 1][..i] == events[..i];
  }

  /** In every run a sleeper sleeps, with its deadline, until the timer interrupt
      that its deadline calls for. */
  lemma {:induction false} SleepsUntil(run: seq<Sys>, events: seq<Event>, t: nat, i: nat)
    requires IsRun(run, events) && Inv(run[0]) && i < |run| && t < |run[0].ts| && run[0].ts[t].state == Sleeping
    requires Timers(events[..i]) < Nap(run[0].ticks, run[0].ts[t].wake)
    ensures t < |run[i].ts| && run[i].ts[t] == run[0].ts[t] && run[i].ticks == run[0].ticks + Timers(events[..i])
  {
    if i == 0 {
      assert events[..0] == [];
    } else {
      OneMore(events, i - 1);
      SleepsUntil(run, events, t, i - 1);
      RunStep(run, events, i - 1);
      StepSleeper(run[i - 1], events[i - 1], t);
    }
  }

  /** And that interrupt wakes it. */
  lemma WakesThen(run: seq<Sys>, events: seq<Event>, t: nat, i: nat)
    requires IsRun(run, events) && Inv(run[0]) && i < |events| && t < |run[0].ts| && run[0].ts[t].state == Sleeping
    requires events[i].Timer? && Timers(events[..i]) + 1 == Nap(run[0].ticks, run[0].ts[t].wake)
    ensures Awake(run[i + 1], t)
  {
    SleepsUntil(run, events, t, i);
    RunStep(run, events, i);
    StepSleeper(run[i], events[i], t);
  }

  /** The timer interrupt that should end a sleep of n ticks. */
  function Asked(n: nat): nat { if n == 0 then 1 else n }

  lemma FullNapIff(ticks: nat, n: nat)
    ensures Nap(ticks, Deadline(ticks, n)) <= Asked(n)
    ensures Nap(ticks, Deadline(ticks, n)) == Asked(n) <==> ticks + n < WORD || n <= 1
  {
    assert Deadline(ticks, n) < WORD && Deadline(ticks, n) <= ticks + n;
  }

  /** The run from its second state on. */
  lemma TailIsRun(run: seq<Sys>, events: seq<Event>)
    requires IsRun(run, events) && |events| > 0
    ensures IsRun(run[1..], events[1..])
  {
    forall i: nat | i < |events[1..]| ensures StepAt(run[1..], events[1..], i) { assert StepAt(run, events, i + 1); }
  }

  lemma {:induction false} TimersTail(events: seq<Event>, i: nat)
    requires 0 < i <= |events| && !events[0].Timer?
    ensures Timers(events[1..][..i - 1]) == Timers(events[..i])
  {
    if i == 1 {
      assert events[..1][..0] == [] && events[1..][..0] == [];
    } else {
      TimersTail(events, i - 1);
      OneMore(events, i - 1);
      OneMore(events[1..], i - 2);
    }
  }

  /** If there are k timer interrupts, there is a k-th. */
  lemma {:induction false} NthTimer(events: seq<Event>, k: nat, i: nat) returns (j: nat)
    requires i <= |events| && 0 < k <= Timers(events[..i])
    ensures j < i && events[j].Timer? && Timers(events[..j]) + 1 == k
  {
    assert i > 0;
    OneMore(events, i - 1);
    if Timers(events[..i - 1]) < k { j := i - 1; } else { j := NthTimer(events, k, i - 1); }
  }

  predicate Asleep(s: Sys, t: nat) { t < |s.ts| && s.ts[t].state == Sleeping }

  /** Thread t sleeps in states 1 to i of the run and is awake in the next. */
  ghost predicate SleepsExactly(run: seq<Sys>, t: nat, i: nat) {
    i + 1 < |run| && (forall j :: 1 <= j <= i ==> Asleep(run[j], t)) && Awake(run[i + 1], t)
  }

  lemma SleepBegins(run: seq<Sys>, events: seq<Event>, n: nat)
    requires IsRun(run, events) && Inv(run[0]) && |events| > 0 && events[0] == DoSleep(n)
    ensures Acting(run[0]) && run[1].ticks == run[0].ticks && Inv(run[1]) && IsRun(run[1..], events[1..])
    ensures run[0].current >= 0 && Asleep(run[1], run[0].current)
    ensures run[1].ts[run[0].current].wake == Deadline(run[0].ticks, n)
  {
    RunStep(run, events, 0);
    StepInv(run[0], events[0]);
    TailIsRun(run, events);
  }

  /** The sleeper sleeps up to the interrupt that its deadline calls for. */
  lemma SleepsToDeadline(run: seq<Sys>, events: seq<Event>, n: nat, i: nat)
    requires IsRun(run, events) && Inv(run[0]) && 0 < i < |events| && events[0] == DoSleep(n) && events[i].Timer?
    requires Timers(events[..i]) + 1 == Nap(run[0].ticks, Deadline(run[0].ticks, n))
    ensures run[0].current >= 0 && SleepsExactly(run, run[0].current, i)
  {
    SleepBegins(run, events, n);
    var t, tail, later := run[0].current, run[1..], events[1..];
    forall j | 1 <= j <= i ensures Asleep(run[j], t) {
      TimersTail(events, j);
      FewerTimers(events, j, i);
      SleepsUntil(tail, later, t, j - 1);
    }
    TimersTail(events, i);
    WakesThen(tail, later, t, i - 1);
  }

  lemma {:induction false} FewerTimers(events: seq<Event>, j: nat, i: nat)
    requires j <= i <= |events|
    ensures Timers(events[..j]) <= Timers(events[..i])
    decreases i
  {
    if j < i {
      FewerTimers(events, j, i - 1);
      OneMore(events, i - 1);
    }
  }

  /** In a run that begins with a thread going to sleep for n ticks, event i being
      the n-th timer interrupt, or the first if n is 0: the thread sleeps until
      then and is awake after it, if and only if its deadline fits the 32 bits it
      is kept in or n is at most 1. */
  lemma SleepsFullTimeIff(run: seq<Sys>, events: seq<Event>, n: nat, i: nat)
    requires IsRun(run, events) && Inv(run[0]) && 0 < i < |events| && events[0] == DoSleep(n)
    requires events[i].Timer? && Timers(events[..i]) + 1 == Asked(n)
    ensures run[0].current >= 0
    ensures SleepsExactly(run, run[0].current, i) <==> run[0].ticks + n < WORD || n <= 1
  {
    SleepBegins(run, events, n);
    var nap := Nap(run[0].ticks, Deadline(run[0].ticks, n));
    FullNapIff(run[0].ticks, n);
    if nap == Asked(n) {
      SleepsToDeadline(run, events, n, i);
    } else {
      var j := NthTimer(events, nap, i);
      SleepsToDeadline(run, events, n, j);
      assert !Asleep(run[j + 1], run[0].current);
    }
  }

  /** The idle thread, and one that runs at the last tick before the deadlines
      wrap around. */
  function LateSleeper(): Sys {
    Sys([Thread(Runnable, 0, 0, NoWait, 0), Thread(Running, 1, 0, NoWait, 0)],
        [Proc(true, Alive, 0, 1, -1, false, -1), Proc(true, Alive, 0, 1, -1, false, -1)],
        [0, 1], [], [[], []], [[], []], [[0], [1]], 1, 0, WORD - 1, CADENCE, false, -1)
  }

  lemma LateSleeperOk()
    ensures Inv(LateSleeper()) && Acting(LateSleeper())
  {
    var s := LateSleeper();
    assert s.ring[0] == 0 && s.ring[1] == 1 && s.members[0][0] == 0 && s.members[1][0] == 1;
    forall t: nat ensures ThreadOk(s, t) { assert t < 2 ==> t == 0 || t == 1; }
    forall p: nat, t: nat ensures WaiterOk(s, p, t) && MemberOk(s, p, t) && ChildOk(s, p, t) {
      assert p < 2 ==> p == 0 || p == 1;
    }
    forall p: nat ensures ProcOk(s, p) { assert p < 2 ==> p == 0 || p == 1; }
  }

  /** It asks for five ticks and is woken by the next one. */
  lemma LateDeadlineWakesEarly()
    ensures Inv(LateSleeper()) && Acting(LateSleeper()) && Sleep(LateSleeper(), 5).ts[1].state == Sleeping
    ensures Tick(Sleep(LateSleeper(), 5)).ticks == LateSleeper().ticks + 1
    ensures Tick(Sleep(LateSleeper(), 5)).ts[1].state == Runnable
  {
    LateSleeperOk();
    SleepInv(LateSleeper(), 5);
    TickWakesExactly(Sleep(LateSleeper(), 5), 1);
  }

  // ---- Order ----

  /** u is ahead of v in a queue. */
  ghost predicate Ahead(q: seq<nat>, u: nat, v: nat) { exists i, j :: 0 <= i < j < |q| && q[i] == u && q[j] == v }

  lemma InsertKeepsOrder(q: seq<nat>, k: nat, x: nat, u: nat, v: nat)
    requires Ahead(q, u, v) && k <= |q|
    ensures Ahead(InsertAt(q, k, x), u, v)
  {
    var i, j :| 0 <= i < j < |q| && q[i] == u && q[j] == v;
    var r := InsertAt(q, k, x);
    assert r[if i < k then i else i + 1] == u && r[if j < k then j else j + 1] == v;
  }

  lemma TailKeepsOrder(q: seq<nat>, k: nat, u: nat, v: nat)
    requires Ahead(q, u, v) && Distinct(q) && k <= |q| && u in q[k..]
    ensures Ahead(q[k..], u, v)
  {
    var i, j :| 0 <= i < j < |q| && q[i] == u && q[j] == v;
    var a :| 0 <= a < |q[k..]| && q[k..][a] == u;
    assert q[k + a] == u && k + a == i;
    assert q[k..][i - k] == u && q[k..][j - k] == v;
  }

  lemma ExitKeepsQueue(s: Sys, code: int)
    requires CanExit(s)
    ensures Exit(s, code).sleepers == s.sleepers
  {
    ActingHasProc(s);
    var c := s.current;
    var p := s.ts[c].proc;
    var q := s.ps[p].parent;
    if s.ps[p].live == 1 && 0 <= q < |s.ps| {
      var v := FirstMatch(s.ts[c := s.ts[c].(state := Zombie, code := code)], s.waiters[q], p);
      if v != -1 { assert WaiterOk(s, q, v); }
    }
  }

  lemma SwitchQueue(s: Sys)
    ensures Switch(s).sleepers == s.sleepers
  {
  }

  lemma InterruptQueue(s: Sys)
    ensures Interrupt(s).sleepers == s.sleepers[Due(s.ts, s.sleepers, s.ticks + 1)..]
  {
    var s' := Tick(s);
    assert s'.sleepers == s.sleepers[Due(s.ts, s.sleepers, s.ticks + 1)..];
    SwitchQueue(s');
  }

  lemma TimerKeepsOrder(s: Sys, u: nat, v: nat)
    requires Distinct(s.sleepers) && Ahead(s.sleepers, u, v) && u in Interrupt(s).sleepers
    ensures Ahead(Interrupt(s).sleepers, u, v)
  {
    InterruptQueue(s);
    TailKeepsOrder(s.sleepers, Due(s.ts, s.sleepers, s.ticks + 1), u, v);
  }

  lemma ReapKeepsOrder(s: Sys, c: nat, u: nat, v: nat)
    requires Enabled(s, DoReap(c)) && Ahead(s.sleepers, u, v)
    ensures Ahead(Reap(s, c).sleepers, u, v)
  {
    ReapIs(s, c);
    if s.members[c] != [] {
      var x := s.members[c][0];
      assert x in s.members[c] && ThreadOk(s, x);
      assert Reap(s, c).sleepers == Without(s.sleepers, x) == s.sleepers;
    }
  }

  /** No step lets one sleeper overtake another. */
  lemma StepKeepsOrder(s: Sys, e: Event, u: nat, v: nat)
    requires Enabled(s, e) && Ahead(s.sleepers, u, v) && u in Step(s, e).sleepers
    ensures Ahead(Step(s, e).sleepers, u, v)
  {
    match e
    case Timer => TimerKeepsOrder(s, u, v);
    case DoSleep(n) =>
      var ts := Sleep(s, n).ts;
      InsertKeepsOrder(s.sleepers, Due(ts, s.sleepers, ts[s.current].wake), s.current, u, v);
    case DoExit(code) => ActingHasProc(s); ExitKeepsQueue(s, code);
    case DoReap(c) => ReapKeepsOrder(s, c, u, v);
    case _ =>
  }

  ghost predicate SleepsThroughout(run: seq<Sys>, u: nat, i: nat) {
    i < |run| && forall k :: 0 <= k <= i ==> u in run[k].sleepers
  }

  /** So the queue is first in, first out in every run: while the thread that is
      ahead sleeps on, so does the one behind it, and stays behind. */
  lemma {:induction false} RunKeepsOrder(run: seq<Sys>, events: seq<Event>, u: nat, v: nat, i: nat)
    requires IsRun(run, events) && Inv(run[0]) && Ahead(run[0].sleepers, u, v) && SleepsThroughout(run, u, i)
    ensures Ahead(run[i].sleepers, u, v)
  {
    if i > 0 {
      RunKeepsOrder(run, events, u, v, i - 1);
      RunStep(run, events, i - 1);
      var s, s', e := run[i - 1], run[i], events[i - 1];
      assert u in s'.sleepers && s' == Step(s, e);
      StepKeepsOrder(s, e, u, v);
    }
  }
}
