/** A thread that can run will run: within as many switches as there are
    threads, and within ten timer ticks for each of them. */
module BoundedWaiting {
  import opened Lists
  import opened SchedModel
  import opened SchedInv
  import opened SchedRuns

  /** How many threads are before t in the order of the search. */
  function Dist(s: Sys, t: nat): nat {
    if t in Order(s) then IndexOf(Order(s), t) else 0
  }

  /** Ticks until t runs, at most. */
  function Budget(s: Sys, t: nat): nat { CADENCE * Dist(s, t) + s.rr }

  predicate Waiting(s: Sys, t: nat) { t < |s.ts| && s.ts[t].state == Runnable }

  predicate Runs(s: Sys, t: nat) { s.current == t && IsThread(s, t) && s.ts[t].state == Running }

  /** Steps from behind position k to position i of a ring of n. */
  function Ahead(n: nat, k: nat, i: nat): nat
    requires k < n && i < n
  {
    if i > k then i - k - 1 else i + n - k - 1
  }

  /** The position the search starts behind. */
  function From(s: Sys): nat
    requires s.ring != []
  {
    if s.current < 0 || s.current !in s.ring then |s.ring| - 1 else IndexOf(s.ring, s.current)
  }

  lemma OrderAt(s: Sys, i: nat)
    requires i < |s.ring|
    ensures |Order(s)| == |s.ring| && Order(s)[Ahead(|s.ring|, From(s), i)] == s.ring[i]
  {
  }

  lemma OrderDistinct(s: Sys)
    requires Distinct(s.ring)
    ensures Distinct(Order(s))
  {
    var o, n := Order(s), |s.ring|;
    forall a, b | 0 <= a < b < |o| ensures o[a] != o[b] {
      var k := From(s);
      var i := if a < n - k - 1 then k + 1 + a else a - (n - k - 1);
      var j := if b < n - k - 1 then k + 1 + b else b - (n - k - 1);
      OrderAt(s, i);
      OrderAt(s, j);
    }
  }

  lemma DistIs(s: Sys, t: nat)
    requires Distinct(s.ring) && t in s.ring
    ensures t in Order(s) && Dist(s, t) == Ahead(|s.ring|, From(s), IndexOf(s.ring, t))
  {
    var i := IndexOf(s.ring, t);
    OrderAt(s, i);
    OrderDistinct(s);
    IndexUnique(Order(s), Ahead(|s.ring|, From(s), i));
  }

  lemma {:induction false} FirstIsNoLater(ts: seq<Thread>, q: seq<nat>, t: nat)
    requires t in q && t < |ts| && ts[t].state == Runnable
    ensures FirstRunnable(ts, q) in q && IndexOf(q, FirstRunnable(ts, q)) <= IndexOf(q, t)
  {
    FindsRunnable(ts, q, t);
    if !(q[0] < |ts| && ts[q[0]].state == Runnable) {
      assert t in q[1..];
      FindsRunnable(ts, q[1..], t);
      FirstIsNoLater(ts, q[1..], t);
    }
  }

  /** A switch either picks t or brings it closer. */
  lemma SwitchCloser(s: Sys, t: nat)
    requires Inv(s) && Waiting(s, t)
    ensures Runs(Switch(s), t) || (Waiting(Switch(s), t) && Dist(Switch(s), t) < Dist(s, t))
  {
    SwitchFinds(s);
    assert ThreadOk(s, t);
    var s', c := Switch(s), FirstRunnable(Preempted(s), Order(s));
    DistIs(s, t);
    DistIs(s, c);
    FirstIsNoLater(Preempted(s), Order(s), t);
    if c != t {
      assert IndexOf(s.ring, c) != IndexOf(s.ring, t);
      DistIs(s', t);
    }
  }

  lemma IndexWithout(q: seq<nat>, x: nat, t: nat)
    requires t in q && x in q && x != t && Distinct(q)
    ensures t in Without(q, x) && |Without(q, x)| == |q| - 1
    ensures IndexOf(Without(q, x), t) == IndexOf(q, t) - if IndexOf(q, x) < IndexOf(q, t) then 1 else 0
  {
    WithoutMembers(q, x);
    var k, i := IndexOf(q, x), IndexOf(q, t);
    var j := if i < k then i else i - 1;
    RemovedAt(q, k, j);
    IndexUnique(Without(q, x), j);
  }

  /** Taking another thread out of the ring does not push t back. */
  lemma RemovalNoFurther(s: Sys, s': Sys, x: nat, t: nat)
    requires Distinct(s.ring) && t in s.ring && x in s.ring && x != t && x != s.current
    requires s'.ring == Without(s.ring, x) && s'.current == s.current
    ensures Dist(s', t) <= Dist(s, t)
  {
    IndexWithout(s.ring, x, t);
    WithoutMembers(s.ring, x);
    DistIs(s, t);
    DistIs(s', t);
    if s.current >= 0 && s.current in s.ring { IndexWithout(s.ring, x, s.current); }
  }

  // ---- One step ----

  lemma SameQueue(s: Sys, s': Sys, t: nat)
    requires s'.ring == s.ring && s'.current == s.current
    ensures Dist(s', t) == Dist(s, t)
  {
  }

  /** Whether a step goes through the switch. */
  predicate Switches(s: Sys, e: Event) { e.Yield? || (e.Timer? && Tick(s).pending) }

  /** A step runs t, or leaves it waiting and no further back; closer if it
      switches. */
  ghost predicate Advances(s: Sys, e: Event, t: nat)
    requires Enabled(s, e)
  {
    || Runs(Step(s, e), t)
    || (&& Waiting(Step(s, e), t)
        && Dist(Step(s, e), t) + (if Switches(s, e) then 1 else 0) <= Dist(s, t)
        && Budget(Step(s, e), t) + (if e.Timer? then 1 else 0) <= Budget(s, t))
  }

  lemma TimerAdvances(s: Sys, t: nat)
    requires Inv(s) && Waiting(s, t)
    ensures Enabled(s, Timer) && Advances(s, Timer, t)
  {
    TickInv(s);
    assert ThreadOk(s, t);
    TickThread(s, t);
    SameQueue(s, Tick(s), t);
    if Tick(s).pending { SwitchCloser(Tick(s), t); }
  }

  lemma YieldAdvances(s: Sys, t: nat)
    requires Enabled(s, Yield) && Waiting(s, t)
    ensures Advances(s, Yield, t)
  {
    PendingInv(s, true);
    SameQueue(s, s.(pending := true), t);
    SwitchCloser(s.(pending := true), t);
  }

  /** What a reap does to the run queue and to a waiting thread. */
  lemma ReapKeepsOthers(s: Sys, c: nat, t: nat)
    requires Enabled(s, DoReap(c)) && Waiting(s, t)
    ensures var s' := Reap(s, c);
      && Waiting(s', t) && s'.current == s.current && s'.rr == s.rr && t in s.ring
      && (s'.ring == s.ring || exists x :: x in s.ring && x != t && x != s.current && s'.ring == Without(s.ring, x))
  {
    ReapIs(s, c);
    assert ThreadOk(s, t);
    if s.members[c] != [] {
      var x := s.members[c][0];
      assert x in s.members[c] && MemberOk(s, c, x) && ThreadOk(s, x);
      assert Reap(s, c).ring == Without(s.ring, x);
    }
  }

  lemma ReapAdvances(s: Sys, c: nat, t: nat)
    requires Enabled(s, DoReap(c)) && Waiting(s, t)
    ensures Advances(s, DoReap(c), t)
  {
    var s' := Reap(s, c);
    ReapKeepsOthers(s, c, t);
    if s'.ring == s.ring {
      SameQueue(s, s', t);
    } else {
      var x :| x in s.ring && x != t && x != s.current && s'.ring == Without(s.ring, x);
      RemovalNoFurther(s, s', x, t);
    }
  }

  lemma ExitAdvances(s: Sys, code: int, t: nat)
    requires Enabled(s, DoExit(code)) && Waiting(s, t)
    ensures Advances(s, DoExit(code), t)
  {
    ActingHasProc(s);
    ExitKeepsOthers(s, code, t);
    SameQueue(s, Exit(s, code), t);
  }

  lemma ExitKeepsOthers(s: Sys, code: int, t: nat)
    requires CanExit(s) && Waiting(s, t)
    ensures var s' := Exit(s, code); Waiting(s', t) && s'.ring == s.ring && s'.current == s.current && s'.rr == s.rr
  {
  }

  lemma StepAdvances(s: Sys, e: Event, t: nat)
    requires Enabled(s, e) && Waiting(s, t) && !e.NewThread?
    ensures Advances(s, e, t)
  {
    match e
    case Timer => TimerAdvances(s, t);
    case Yield => YieldAdvances(s, t);
    case DoReap(c) => ReapAdvances(s, c, t);
    case DoExit(code) => ActingHasProc(s); ExitAdvances(s, code, t);
    case DoSleep(n) => SameQueue(s, Sleep(s, n), t);
    case DoBlock(wait) => SameQueue(s, Block(s, wait), t);
    case NewProc(p, parent, user, space) => SameQueue(s, AddProc(s, p, parent, user, space), t);
    case DoExec(space) => SameQueue(s, Exec(s, space), t);
  }

  // ---- Runs ----

  function SwitchCount(run: seq<Sys>, events: seq<Event>): nat
    requires |run| == |events| + 1
  {
    if events == [] then 0
    else
      var n := |events| - 1;
      SwitchCount(run[..n + 1], events[..n]) + if Switches(run[n], events[n]) then 1 else 0
  }

  lemma PrefixIsRun(run: seq<Sys>, events: seq<Event>, n: nat)
    requires IsRun(run, events) && n <= |events|
    ensures IsRun(run[..n + 1], events[..n])
  {
    var run', events' := run[..n + 1], events[..n];
    forall i: nat | i < n ensures StepAt(run', events', i) {
      assert StepAt(run, events, i);
    }
  }

  lemma LastStep(run: seq<Sys>, events: seq<Event>)
    requires IsRun(run, events) && events != [] && Inv(run[0])
    ensures var n := |events| - 1;
      && IsRun(run[..n + 1], events[..n]) && run[..n + 1][n] == run[n] && run[..n + 1][0] == run[0]
      && Enabled(run[n], events[n]) && run[n + 1] == Step(run[n], events[n])
  {
    var n := |events| - 1;
    RunStep(run, events, n);
    PrefixIsRun(run, events, n);
  }

  /** Until t runs, switches eat up its distance and ticks its budget. */
  lemma {:induction false} UntilItRuns(run: seq<Sys>, events: seq<Event>, t: nat)
    requires IsRun(run, events) && Inv(run[0]) && Waiting(run[0], t) && forall e :: e in events ==> !e.NewThread?
    requires forall i :: 0 <= i < |run| ==> !Runs(run[i], t)
    ensures Waiting(run[|events|], t)
    ensures Dist(run[|events|], t) + SwitchCount(run, events) <= Dist(run[0], t)
    ensures Budget(run[|events|], t) + Timers(events) <= Budget(run[0], t)
    decreases |events|
  {
    if events != [] {
      var n := |events| - 1;
      LastStep(run, events);
      UntilItRuns(run[..n + 1], events[..n], t);
      assert events[n] in events;
      StepAdvances(run[n], events[n], t);
      assert !Runs(run[n + 1], t);
    }
  }

  /** Wherever a runnable thread stands in a ring of n, a run without new
      threads that has n switches, or ten times n timer ticks, gets to it. */
  lemma RunsWithinBounds(run: seq<Sys>, events: seq<Event>, t: nat)
    requires IsRun(run, events) && Inv(run[0]) && Waiting(run[0], t) && forall e :: e in events ==> !e.NewThread?
    requires SwitchCount(run, events) >= |run[0].ring| || Timers(events) >= CADENCE * |run[0].ring|
    ensures exists i :: 0 <= i < |run| && Runs(run[i], t)
  {
    if forall i :: 0 <= i < |run| ==> !Runs(run[i], t) {
      UntilItRuns(run, events, t);
      assert ThreadOk(run[0], t);
      DistIs(run[0], t);
      AlwaysConsistent(run, events, |events|);
      assert false;
    }
  }
}
