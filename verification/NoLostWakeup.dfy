/** waitpid and exit: when no thread stays blocked for a child that is already a
    zombie or that is gone. */
module NoLostWakeup {
  import opened Lists
  import opened SchedModel
  import opened SchedInv
  import opened SchedRuns

  /** Each process has at most one thread. */
  ghost predicate Single(s: Sys) { forall p {:trigger s.members[p]} :: 0 <= p < |s.members| ==> |s.members[p]| <= 1 }

  /** A blocked thread has a matching child, and no matching child is a zombie. */
  ghost predicate WaitOk(s: Sys, t: nat)
    requires Sized(s)
  {
    t < |s.ts| && s.ts[t].state == Blocked ==> IsProc(s, s.ts[t].proc) && MustWait(s, s.ts[t].proc, s.ts[t].wait)
  }

  /** Said of the lists: whoever waits for any child has one, whoever waits for
      one child has that one, and it has not exited. */
  ghost predicate WaitsForLiving(s: Sys, t: nat) {
    t < |s.ts| && s.ts[t].state == Blocked ==>
      && 0 <= s.ts[t].proc < |s.children|
      && var q, wait := s.children[s.ts[t].proc], s.ts[t].wait;
         && (wait == AnyChild ==> q != [] && forall c :: c in q ==> c < |s.ps| && s.ps[c].state == Alive)
         && (wait.Child? ==> wait.pid in q && wait.pid < |s.ps| && s.ps[wait.pid].state == Alive)
  }

  lemma WaitOkMeans(s: Sys, t: nat)
    requires Inv(s) && WaitOk(s, t)
    ensures WaitsForLiving(s, t)
  {
    if t < |s.ts| && s.ts[t].state == Blocked {
      var p, wait := s.ts[t].proc, s.ts[t].wait;
      forall c | c in s.children[p] && (wait == AnyChild || wait == Child(c))
        ensures c < |s.ps| && s.ps[c].state == Alive
      {
        assert ChildOk(s, p, c) && ProcOk(s, c) && Matches(wait, c);
      }
    }
  }

  ghost predicate NoneLost(s: Sys) { Sized(s) && forall t: nat :: WaitOk(s, t) }

  lemma SameMember(s: Sys, t: nat, u: nat)
    requires Inv(s) && Single(s) && IsThread(s, t) && IsThread(s, u) && HasLife(s.ts[t].state) && HasLife(s.ts[u].state)
    requires s.ts[t].proc == s.ts[u].proc
    ensures t == u
  {
    assert ThreadOk(s, t) && ThreadOk(s, u);
  }

  lemma SwitchKeepsWaits(s: Sys)
    requires Inv(s) && NoneLost(s)
    ensures NoneLost(Switch(s))
  {
    SwitchFinds(s);
    var s' := Switch(s);
    forall t: nat ensures WaitOk(s', t) { assert WaitOk(s, t) && ThreadOk(s, t); }
  }

  lemma TickKeepsWaits(s: Sys)
    requires Inv(s) && NoneLost(s)
    ensures NoneLost(Tick(s))
  {
    var s' := Tick(s);
    forall t: nat ensures WaitOk(s', t) { assert WaitOk(s, t) && ThreadOk(s, t); TickThread(s, t); }
  }

  lemma NewProcKeepsWaits(s: Sys, p: nat, parent: int, user: bool, space: int)
    requires Enabled(s, NewProc(p, parent, user, space)) && NoneLost(s)
    ensures NoneLost(AddProc(s, p, parent, user, space))
  {
    var s' := AddProc(s, p, parent, user, space);
    UnusedIsBare(s, p);
    forall u: nat ensures WaitOk(s', u) {
      assert WaitOk(s, u) && ThreadOk(s, u);
      if u < |s.ts| && s.ts[u].state == Blocked {
        var q := s.ts[u].proc;
        var c :| c in s.children[q] && Matches(s.ts[u].wait, c);
        assert c in s'.children[q];
      }
    }
  }

  lemma BlockKeepsWaits(s: Sys, wait: Wait)
    requires Enabled(s, DoBlock(wait)) && NoneLost(s)
    ensures NoneLost(Block(s, wait))
  {
    var s' := Block(s, wait);
    forall u: nat ensures WaitOk(s', u) { assert WaitOk(s, u); }
  }

  // ---- Steps after which nobody waits in vain ----

  ghost predicate WaitsFor(s: Sys, q: nat, p: nat, u: nat)
    requires Sized(s) && q < |s.ps|
  {
    u in s.waiters[q] && u < |s.ts| && Matches(s.ts[u].wait, p)
  }

  /** At most one waiter of process q waits for child p. */
  ghost predicate OneWaits(s: Sys, q: nat, p: nat)
    requires Sized(s) && q < |s.ps|
  {
    forall u, v :: WaitsFor(s, q, p, u) && WaitsFor(s, q, p, v) ==> u == v
  }

  /** The last thread of a process leaves a zombie with its code, and the first
      waiter of the parent that waits for it is woken; nothing else changes. */
  lemma LastExitIs(s: Sys, code: int)
    requires CanExit(s) && s.ps[s.ts[s.current].proc].live == 1
    ensures var t, p := s.current, s.ts[s.current].proc;
      WokeFirst(s.(ts := s.ts[t := s.ts[t].(state := Zombie, code := code)],
                   ps := s.ps[p := s.ps[p].(live := 0, state := PZombie, code := code)]),
                Exit(s, code), s.ps[p].parent, p)
  {
    var t := s.current;
    var p := s.ts[t].proc;
    var q := s.ps[p].parent;
    var s1 := s.(ts := s.ts[t := s.ts[t].(state := Zombie, code := code)],
                 ps := s.ps[p := s.ps[p].(live := 0, state := PZombie, code := code)]);
    if 0 <= q < |s.ps| && s.waiters[q] != [] {
      forall u | u in s.waiters[q] ensures u < |s.ts| && u != t && s.ts[u].state == Blocked && s.ts[u].proc == q {
        assert WaiterOk(s, q, u) && ThreadOk(s, u);
      }
      assert s.waiters[q][0] in s.waiters[q] && ThreadOk(s, s.waiters[q][0]) && ProcOk(s, q);
    }
    WakeParentIs(s1, p);
  }

  /** So a thread that alone waits for a process does not sleep through its end. */
  lemma OnlyWaiterWakes(s: Sys, code: int, u: nat)
    requires CanExit(s) && s.ps[s.ts[s.current].proc].live == 1
    requires var p := s.ts[s.current].proc; var q := s.ps[p].parent;
      && 0 <= q < |s.waiters| && u in s.waiters[q] && u < |s.ts|
      && (s.ts[u].wait == AnyChild || s.ts[u].wait == Child(p))
      && forall v :: v in s.waiters[q] && v < |s.ts| && v != u ==> s.ts[v].wait != AnyChild && s.ts[v].wait != Child(p)
    ensures u < |Exit(s, code).ts| && Exit(s, code).ts[u].state == Runnable && Exit(s, code).ts[u].wait == NoWait
  {
    LastExitIs(s, code);
    var t := s.current;
    var p := s.ts[t].proc;
    var q := s.ps[p].parent;
    var w := s.waiters[q];
    var ts := s.ts[t := s.ts[t].(state := Zombie, code := code)];
    var k: nat :| k < |w| && w[k] == u;
    assert WaiterOk(s, q, u) && ProcOk(s, q);
    assert FirstToWake(ts, w, p, k);
    forall i: nat | FirstToWake(ts, w, p, i) ensures i == k { assert w[i] in w; }
  }

  /** Without the rule of one thread per process, an exit leaves nobody waiting
      for the new zombie exactly if at most one thread waited for it. */
  lemma ExitWakesAllIff(s: Sys, code: int, q: nat)
    requires CanExit(s) && s.ps[s.ts[s.current].proc].live == 1 && s.ps[s.ts[s.current].proc].parent == q && q < |s.ps|
    ensures var s', p := Exit(s, code), s.ts[s.current].proc;
      && Sized(s') && |s'.ps| == |s.ps|
      && ((forall u :: !WaitsFor(s', q, p, u)) <==> OneWaits(s, q, p))
  {
    ActingHasProc(s);
    var t := s.current;
    var p := s.ts[t].proc;
    OnlyMember(s, p, t);
    var s1 := s.(ts := s.ts[t := s.ts[t].(state := Zombie, code := code)],
                 ps := s.ps[p := s.ps[p].(live := 0, state := PZombie, code := code)]);
    var v := FirstMatch(s1.ts, s1.waiters[q], p);
    assert WaiterOk(s, q, t) && ProcOk(s, q);
    if v == -1 {
      assert Exit(s, code) == s1;
    } else {
      WokenIs(s, s1, code, p, q, t, v);
      var s' := Exit(s, code);
      WithoutMembers(s.waiters[q], v);
      forall u ensures WaitsFor(s', q, p, u) <==> WaitsFor(s, q, p, u) && u != v { }
      assert WaitsFor(s, q, p, v);
    }
  }

  lemma WokenIs(s: Sys, s1: Sys, code: int, p: nat, q: nat, t: nat, v: nat)
    requires CanExit(s) && t == s.current && p == s.ts[t].proc && s.ps[p].live == 1 && s.ps[p].parent == q && q < |s.ps|
    requires s1 == s.(ts := s.ts[t := s.ts[t].(state := Zombie, code := code)],
                      ps := s.ps[p := s.ps[p].(live := 0, state := PZombie, code := code)])
    requires v == FirstMatch(s1.ts, s1.waiters[q], p)
    ensures v < |s.ts| && v != t && v in s.waiters[q] && Matches(s.ts[v].wait, p)
    ensures Exit(s, code).ts == s1.ts[v := s1.ts[v].(state := Runnable, wait := NoWait)]
    ensures Exit(s, code).waiters == s.waiters[q := Without(s.waiters[q], v)] && |Exit(s, code).ps| == |s.ps|
    ensures Exit(s, code).children == s.children && Exit(s, code).members == s.members
  {
    assert WaiterOk(s, q, v) && ThreadOk(s, v);
  }

  /** Process q has a child other than c that matches. */
  ghost predicate HasOther(s: Sys, q: nat, c: nat, wait: Wait)
    requires Sized(s) && q < |s.ps|
  {
    exists d :: d in s.children[q] && d != c && Matches(wait, d)
  }

  /** No blocked thread of process q waits for child c alone. */
  ghost predicate NobodyNeeds(s: Sys, q: nat, c: nat)
    requires Sized(s) && q < |s.ps|
  {
    forall u: nat :: u < |s.ts| && s.ts[u].state == Blocked && s.ts[u].proc == q ==> HasOther(s, q, c, s.ts[u].wait)
  }

  /** Two kinds of step need care. When a process exits, at most one thread may
      be waiting for it. When a child is taken away, no blocked thread of its
      parent may be waiting for it alone. */
  ghost predicate Attended(s: Sys, e: Event)
    requires Sized(s)
  {
    var p := CurrentProc(s);
    match e
    case DoExit(_) =>
      IsProc(s, p) && s.ps[p].live == 1 ==> forall q: nat :: q < |s.ps| && p in s.children[q] ==> OneWaits(s, q, p)
    case DoReap(c) => IsProc(s, p) ==> NobodyNeeds(s, p, c)
    case _ => true
  }

  lemma ExitOneKeepsWaits(s: Sys, code: int)
    requires CanExit(s) && s.ps[s.ts[s.current].proc].live > 1 && NoneLost(s)
    ensures NoneLost(Exit(s, code))
  {
    var s' := Exit(s, code);
    forall u: nat ensures WaitOk(s', u) { assert WaitOk(s, u); }
  }

  /** What an exit of the last thread leaves as it was. */
  lemma ExitLeaves(s: Sys, code: int, u: nat)
    requires CanExit(s) && s.ps[s.ts[s.current].proc].live == 1
    ensures var s', p := Exit(s, code), s.ts[s.current].proc;
      && Sized(s') && |s'.ts| == |s.ts| && |s'.ps| == |s.ps| && s'.children == s.children && s'.members == s.members
      && s'.ps == s.ps[p := s.ps[p].(live := 0, state := PZombie, code := code)]
      && (u < |s.ts| && s'.ts[u].state == Blocked ==> s'.ts[u] == s.ts[u])
  {
    ActingHasProc(s);
    var t := s.current;
    var p := s.ts[t].proc;
    var q := s.ps[p].parent;
    if 0 <= q < |s.ps| {
      var s1 := s.(ts := s.ts[t := s.ts[t].(state := Zombie, code := code)],
                   ps := s.ps[p := s.ps[p].(live := 0, state := PZombie, code := code)]);
      var v := FirstMatch(s1.ts, s1.waiters[q], p);
      if v != -1 { WokenIs(s, s1, code, p, q, t, v); }
    }
  }

  /** A thread that is blocked after the exit waits in vain exactly if it waits
      for the zombie, which is a listed child of its process. */
  lemma BlockedAfterExit(s: Sys, code: int, u: nat)
    requires CanExit(s) && s.ps[s.ts[s.current].proc].live == 1 && NoneLost(s)
    requires u < |Exit(s, code).ts| && Exit(s, code).ts[u].state == Blocked
    ensures var s', p, q := Exit(s, code), s.ts[s.current].proc, Exit(s, code).ts[u].proc;
      Sized(s') && 0 <= q < |s'.ps| && (WaitOk(s', u) <==> !(p in s'.children[q] && WaitsFor(s', q, p, u)))
  {
    ExitInv(s, code);
    ExitLeaves(s, code, u);
    var s', p := Exit(s, code), s.ts[s.current].proc;
    assert WaitOk(s, u) && ThreadOk(s, u) && ThreadOk(s', u) && ThreadOk(s, s.current);
    assert u != s.current;
  }

  lemma ExitLastIff(s: Sys, code: int)
    requires CanExit(s) && s.ps[s.ts[s.current].proc].live == 1 && NoneLost(s)
    ensures NoneLost(Exit(s, code)) <==> Attended(s, DoExit(code))
  {
    ActingHasProc(s);
    ExitInv(s, code);
    ExitLeaves(s, code, 0);
    var s', p := Exit(s, code), s.ts[s.current].proc;
    if Attended(s, DoExit(code)) {
      forall u: nat ensures WaitOk(s', u) {
        if u < |s'.ts| && s'.ts[u].state == Blocked {
          BlockedAfterExit(s, code, u);
          var q := s'.ts[u].proc;
          if p in s'.children[q] {
            assert ChildOk(s, q, p);
            ExitWakesAllIff(s, code, q);
          }
        }
      }
    } else {
      var q: nat :| q < |s.ps| && p in s.children[q] && !OneWaits(s, q, p);
      assert ChildOk(s, q, p);
      ExitWakesAllIff(s, code, q);
      var u :| WaitsFor(s', q, p, u);
      assert WaiterOk(s', q, u);
      BlockedAfterExit(s, code, u);
      assert !WaitOk(s', u);
    }
  }

  /** A thread that is blocked was so before the reap, in the same process. */
  lemma BlockedAfterReap(s: Sys, c: nat, u: nat)
    requires Enabled(s, DoReap(c)) && NoneLost(s)
    ensures var s' := Reap(s, c); Sized(s') && |s'.ts| == |s.ts| && |s'.ps| == |s.ps|
    ensures u < |s.ts| && (s.ts[u].state == Blocked || Reap(s, c).ts[u].state == Blocked) ==>
      && Reap(s, c).ts[u] == s.ts[u] && IsProc(s, s.ts[u].proc) && s.ts[u].proc != c
      && Reap(s, c).children[s.ts[u].proc] == Without(s.children[s.ts[u].proc], c)
      && IsProc(Reap(s, c), s.ts[u].proc) && (forall d :: 0 <= d < |s.ps| && d != c ==> Reap(s, c).ps[d] == s.ps[d])
  {
    ReapKeepsProcs(s, c);
    ReapIs(s, c);
    if u < |s.ts| {
      assert WaitOk(s, u) && ThreadOk(s, u);
      if s.ts[u].state == Blocked {
        var q := s.ts[u].proc;
        assert ChildOk(s, CurrentProc(s), c) && ChildOk(s, q, c) && MemberOk(s, c, u);
      }
    }
  }

  lemma ReapKeepsProcs(s: Sys, c: nat)
    requires Enabled(s, DoReap(c))
    ensures |Reap(s, c).ps| == |s.ps| && forall d :: 0 <= d < |s.ps| && d != c ==> Reap(s, c).ps[d] == s.ps[d]
  {
    ReapIs(s, c);
  }

  lemma WaitAfterReap(s: Sys, c: nat, u: nat)
    requires Enabled(s, DoReap(c)) && NoneLost(s) && u < |s.ts| && s.ts[u].state == Blocked
    ensures Sized(Reap(s, c))
    ensures WaitOk(Reap(s, c), u) <==> (s.ts[u].proc == CurrentProc(s) ==> HasOther(s, CurrentProc(s), c, s.ts[u].wait))
  {
    BlockedAfterReap(s, c, u);
    var q, s' := s.ts[u].proc, Reap(s, c);
    assert WaitOk(s, u) && ProcOk(s, q);
    assert ChildOk(s, CurrentProc(s), c) && ChildOk(s, q, c);
    WithoutMembers(s.children[q], c);
  }

  lemma ReapIff(s: Sys, c: nat)
    requires Enabled(s, DoReap(c)) && NoneLost(s)
    ensures NoneLost(Reap(s, c)) <==> Attended(s, DoReap(c))
  {
    var s' := Reap(s, c);
    BlockedAfterReap(s, c, 0);
    if Attended(s, DoReap(c)) {
      forall u: nat ensures WaitOk(s', u) {
        BlockedAfterReap(s, c, u);
        if u < |s.ts| && s.ts[u].state == Blocked { WaitAfterReap(s, c, u); }
      }
    } else {
      var u: nat :| u < |s.ts| && s.ts[u].state == Blocked && s.ts[u].proc == CurrentProc(s)
        && !HasOther(s, CurrentProc(s), c, s.ts[u].wait);
      WaitAfterReap(s, c, u);
      assert !WaitOk(s', u);
    }
  }

  /** A zombie is nobody's only child to wait for. */
  lemma ZombieIsNotNeeded(s: Sys, c: nat)
    requires Enabled(s, DoReap(c)) && NoneLost(s) && s.ps[c].state == PZombie
    ensures Attended(s, DoReap(c))
  {
    forall u: nat | u < |s.ts| && s.ts[u].state == Blocked && s.ts[u].proc == CurrentProc(s)
      ensures HasOther(s, CurrentProc(s), c, s.ts[u].wait)
    {
      assert WaitOk(s, u);
    }
  }

  /** A step leaves nobody waiting in vain if and only if it is attended. */
  lemma StepKeepsWaitsIff(s: Sys, e: Event)
    requires Enabled(s, e) && NoneLost(s)
    ensures NoneLost(Step(s, e)) <==> Attended(s, e)
  {
    match e
    case Timer => TickInv(s); TickKeepsWaits(s); SwitchKeepsWaits(Tick(s));
    case Yield =>
      PendingInv(s, true);
      forall t: nat ensures WaitOk(s.(pending := true), t) { assert WaitOk(s, t); }
      SwitchKeepsWaits(s.(pending := true));
    case DoSleep(n) => forall t: nat ensures WaitOk(Sleep(s, n), t) { assert WaitOk(s, t); }
    case DoBlock(wait) => BlockKeepsWaits(s, wait);
    case DoExit(code) =>
      ActingHasProc(s);
      if s.ps[s.ts[s.current].proc].live == 1 { ExitLastIff(s, code); } else { ExitOneKeepsWaits(s, code); }
    case NewThread(t, p) => forall u: nat ensures WaitOk(AddThread(s, t, p), u) { assert WaitOk(s, u); }
    case NewProc(p, parent, user, space) => NewProcKeepsWaits(s, p, parent, user, space);
    case DoReap(c) => ReapIff(s, c);
    case DoExec(space) => forall t: nat ensures WaitOk(Exec(s, space), t) { assert WaitOk(s, t); }
  }

  ghost predicate AttendedAt(run: seq<Sys>, events: seq<Event>, k: nat)
    requires k < |events| < |run|
  {
    Sized(run[k]) && Attended(run[k], events[k])
  }

  ghost predicate AllAttended(run: seq<Sys>, events: seq<Event>) {
    |run| == |events| + 1 && forall k: nat :: k < |events| ==> AttendedAt(run, events, k)
  }

  lemma AttendedStep(run: seq<Sys>, events: seq<Event>, k: nat)
    requires IsRun(run, events) && Inv(run[0]) && k < |events| && NoneLost(run[k])
    ensures NoneLost(run[k + 1]) <==> AttendedAt(run, events, k)
  {
    RunStep(run, events, k);
    StepKeepsWaitsIff(run[k], events[k]);
  }

  /** In every state of a run whose steps are attended, a thread blocked in
      waitpid has a matching child, and no matching child is a zombie. */
  lemma {:induction false} AttendedKeepsWaits(run: seq<Sys>, events: seq<Event>, i: nat)
    requires IsRun(run, events) && Inv(run[0]) && NoneLost(run[0]) && i < |run| && AllAttended(run, events)
    ensures NoneLost(run[i])
  {
    if i > 0 {
      AttendedKeepsWaits(run, events, i - 1);
      var k := i - 1;
      assert AttendedAt(run, events, k);
      AttendedStep(run, events, k);
    }
  }

  /** No state of a run has a thread that waits in vain, if and only if every
      step of it is attended; with any number of threads to a process. */
  lemma NoWakeupIsLostIff(run: seq<Sys>, events: seq<Event>)
    requires IsRun(run, events) && Inv(run[0]) && NoneLost(run[0])
    ensures (forall i :: 0 <= i < |run| ==> NoneLost(run[i])) <==> AllAttended(run, events)
  {
    if AllAttended(run, events) {
      forall i | 0 <= i < |run| ensures NoneLost(run[i]) { AttendedKeepsWaits(run, events, i); }
    }
    if forall i :: 0 <= i < |run| ==> NoneLost(run[i]) {
      forall k: nat | k < |events| ensures AttendedAt(run, events, k) {
        assert NoneLost(run[k]) && NoneLost(run[k + 1]);
        AttendedStep(run, events, k);
      }
    }
  }

  // ---- One thread to a process ----

  /** New threads only go to processes that have none. */
  predicate KeepsSingle(s: Sys, e: Event) { e.NewThread? && e.p < |s.members| ==> s.members[e.p] == [] }

  /** With one thread to a process every step is attended. */
  lemma SingleIsAttended(s: Sys, e: Event)
    requires Enabled(s, e) && Single(s)
    ensures Attended(s, e)
  {
    match e
    case DoExit(_) =>
      ActingHasProc(s);
      var p: nat := CurrentProc(s);
      forall q: nat, u: nat, v: nat | q < |s.ps| && WaitsFor(s, q, p, u) && WaitsFor(s, q, p, v) ensures u == v {
        assert WaiterOk(s, q, u) && WaiterOk(s, q, v);
        SameMember(s, u, v);
      }
    case DoReap(c) =>
      forall u: nat | u < |s.ts| && s.ts[u].state == Blocked ensures s.ts[u].proc != CurrentProc(s) {
        if s.ts[u].proc == CurrentProc(s) { SameMember(s, u, s.current); }
      }
    case _ =>
  }

  lemma ExitKeepsSingle(s: Sys, code: int)
    requires CanExit(s) && Single(s)
    ensures Single(Exit(s, code))
  {
    ActingHasProc(s);
    var p := s.ts[s.current].proc;
    assert ProcOk(s, p) && s.ps[p].live == 1;
    ExitLeaves(s, code, 0);
  }

  lemma ReapKeepsSingle(s: Sys, c: nat)
    requires Enabled(s, DoReap(c)) && Single(s)
    ensures Single(Reap(s, c))
  {
    ReapIs(s, c);
  }

  lemma StepKeepsSingle(s: Sys, e: Event)
    requires Enabled(s, e) && KeepsSingle(s, e) && Single(s)
    ensures Single(Step(s, e))
  {
    match e
    case Timer => TickInv(s); SwitchFinds(Tick(s));
    case Yield => PendingInv(s, true); SwitchFinds(s.(pending := true));
    case DoExit(code) => ActingHasProc(s); ExitKeepsSingle(s, code);
    case DoReap(c) => ReapKeepsSingle(s, c);
    case _ =>
  }

  lemma BootNoneLost(s: Sys)
    requires Blank(s)
    ensures Single(Booted(s)) && NoneLost(Booted(s))
  {
    var s' := Booted(s);
    forall t: nat ensures WaitOk(s', t) { assert t < |s.ts| ==> s.ts[t].state == Unused; }
    forall p | 0 <= p < |s'.members| ensures |s'.members[p]| <= 1 { assert s.members[p] == []; }
  }

  ghost predicate StaysSingle(run: seq<Sys>, events: seq<Event>) {
    |run| > |events| && forall k :: 0 <= k < |events| ==> KeepsSingle(run[k], events[k])
  }

  lemma SingleStep(run: seq<Sys>, events: seq<Event>, k: nat)
    requires IsRun(run, events) && Inv(run[0]) && k < |events| && Single(run[k]) && KeepsSingle(run[k], events[k])
    ensures AttendedAt(run, events, k) && Single(run[k + 1])
  {
    RunStep(run, events, k);
    SingleIsAttended(run[k], events[k]);
    StepKeepsSingle(run[k], events[k]);
  }

  lemma {:induction false} AlwaysSingle(run: seq<Sys>, events: seq<Event>, i: nat)
    requires IsRun(run, events) && Inv(run[0]) && Single(run[0]) && i < |run| && StaysSingle(run, events)
    ensures Single(run[i])
  {
    if i > 0 {
      AlwaysSingle(run, events, i - 1);
      SingleStep(run, events, i - 1);
    }
  }

  /** So with one thread to a process no wakeup is lost. */
  lemma NoWakeupIsLost(run: seq<Sys>, events: seq<Event>, i: nat)
    requires IsRun(run, events) && Inv(run[0]) && Single(run[0]) && NoneLost(run[0]) && i < |run|
    requires StaysSingle(run, events)
    ensures Single(run[i]) && NoneLost(run[i])
    ensures forall t: nat :: WaitsForLiving(run[i], t)
  {
    forall k: nat | k < |events| ensures AttendedAt(run, events, k) {
      AlwaysSingle(run, events, k);
      SingleStep(run, events, k);
    }
    AlwaysSingle(run, events, i);
    AttendedKeepsWaits(run, events, i);
    AlwaysConsistent(run, events, i);
    forall t: nat ensures WaitsForLiving(run[i], t) { WaitOkMeans(run[i], t); }
  }

  // ---- A second waiter ----

  /** A process with two threads, both waiting for any child; the child exits. */
  function TwoWaiters(): Sys {
    var waiting := Thread(Blocked, 1, 0, AnyChild, 0);
    Sys([Thread(Runnable, 0, 0, NoWait, 0), waiting, waiting, Thread(Running, 2, 0, NoWait, 0)],
        [Proc(true, Alive, 0, 1, -1, false, -1), Proc(true, Alive, 0, 2, -1, false, -1),
          Proc(true, Alive, 0, 1, 1, false, -1)],
        [0, 1, 2, 3], [], [[], [2, 1], []], [[], [2], []], [[0], [1, 2], [3]], 3, 0, 20, CADENCE, false, -1)
  }

  lemma TwoWaitersThreads(t: nat)
    ensures Sized(TwoWaiters()) && ThreadOk(TwoWaiters(), t) && WaitOk(TwoWaiters(), t)
  {
    var s := TwoWaiters();
    assert t < 4 ==> t == 0 || t == 1 || t == 2 || t == 3;
    assert s.ring[0] == 0 && s.ring[1] == 1 && s.ring[2] == 2 && s.ring[3] == 3;
    assert s.members[0][0] == 0 && s.members[1][0] == 1 && s.members[1][1] == 2 && s.members[2][0] == 3;
    assert s.waiters[1][0] == 2 && s.waiters[1][1] == 1 && s.children[1][0] == 2;
    assert 2 in s.children[1] && Matches(AnyChild, 2);
  }

  lemma TwoWaitersLists(p: nat, t: nat)
    ensures Sized(TwoWaiters()) && WaiterOk(TwoWaiters(), p, t) && MemberOk(TwoWaiters(), p, t)
    ensures ChildOk(TwoWaiters(), p, t)
    ensures ProcOk(TwoWaiters(), p)
  {
    assert p < 3 ==> p == 0 || p == 1 || p == 2;
  }

  lemma TwoWaitersQueues()
    ensures Sized(TwoWaiters()) && QueuesOk(TwoWaiters())
  {
    var s := TwoWaiters();
    assert forall i {:trigger s.ring[i]} :: 0 <= i < |s.ring| ==> s.ring[i] == i;
    assert Distinct(s.ring) && |s.ts| == 4;
  }

  lemma TwoWaitersOk()
    ensures Inv(TwoWaiters()) && NoneLost(TwoWaiters()) && CanExit(TwoWaiters())
  {
    TwoWaitersInv();
  }

  lemma TwoWaitersInv()
    ensures Inv(TwoWaiters()) && NoneLost(TwoWaiters())
  {
    var s := TwoWaiters();
    TwoWaitersQueues();
    forall t: nat ensures ThreadOk(s, t) && WaitOk(s, t) { TwoWaitersThreads(t); }
    forall p: nat, t: nat ensures WaiterOk(s, p, t) && MemberOk(s, p, t) && ChildOk(s, p, t) { TwoWaitersLists(p, t); }
    forall p: nat ensures ProcOk(s, p) { TwoWaitersLists(p, 0); }
  }

  /** One of the two stays blocked although a matching child is a zombie. */
  lemma SecondWaiterIsLost()
    ensures Inv(TwoWaiters()) && CanExit(TwoWaiters()) && !NoneLost(Exit(TwoWaiters(), 0))
  {
    TwoWaitersOk();
    var s := TwoWaiters();
    ExitWakesAllIff(s, 0, 1);
    var s' := Exit(s, 0);
    assert s.waiters[1][0] in s.waiters[1] && s.waiters[1][1] in s.waiters[1];
    assert WaitsFor(s, 1, 2, 1) && WaitsFor(s, 1, 2, 2);
    var u :| WaitsFor(s', 1, 2, u);
    ExitInv(s, 0);
    assert WaiterOk(s', 1, u);
    assert s'.children == s.children && 2 in s'.children[1] && s'.ps[2].state == PZombie;
    assert !WaitOk(s', u);
  }

  // ---- A child that is taken away ----

  /** A process with two threads: one waits for any child, the other is about to
      take down the only child, which has no thread yet. */
  function OnlyChild(): Sys {
    Sys([Thread(Runnable, 0, 0, NoWait, 0), Thread(Blocked, 1, 0, AnyChild, 0), Thread(Running, 1, 0, NoWait, 0)],
        [Proc(true, Alive, 0, 1, -1, false, -1), Proc(true, Alive, 0, 2, -1, false, -1),
          Proc(true, Alive, 0, 0, 1, false, -1)],
        [0, 1, 2], [], [[], [1], []], [[], [2], []], [[0], [1, 2], []], 2, 0, 0, CADENCE, false, -1)
  }

  lemma OnlyChildThreads(t: nat)
    ensures Sized(OnlyChild()) && ThreadOk(OnlyChild(), t) && WaitOk(OnlyChild(), t)
  {
    var s := OnlyChild();
    assert t < 3 ==> t == 0 || t == 1 || t == 2;
    assert s.ring[0] == 0 && s.ring[1] == 1 && s.ring[2] == 2;
    assert s.members[0][0] == 0 && s.members[1][0] == 1 && s.members[1][1] == 2;
    assert s.waiters[1][0] == 1 && s.children[1][0] == 2;
    assert 2 in s.children[1] && Matches(AnyChild, 2);
  }

  lemma OnlyChildLists(p: nat, t: nat)
    ensures Sized(OnlyChild()) && WaiterOk(OnlyChild(), p, t) && MemberOk(OnlyChild(), p, t)
    ensures ChildOk(OnlyChild(), p, t) && ProcOk(OnlyChild(), p)
  {
    assert p < 3 ==> p == 0 || p == 1 || p == 2;
  }

  lemma OnlyChildQueues()
    ensures Sized(OnlyChild()) && QueuesOk(OnlyChild())
  {
  }

  lemma OnlyChildOk()
    ensures Inv(OnlyChild()) && NoneLost(OnlyChild()) && Enabled(OnlyChild(), DoReap(2))
  {
    OnlyChildInv();
    OnlyChildGuard();
  }

  lemma OnlyChildInv()
    ensures Inv(OnlyChild()) && NoneLost(OnlyChild())
  {
    var s := OnlyChild();
    OnlyChildQueues();
    forall t: nat ensures ThreadOk(s, t) && WaitOk(s, t) { OnlyChildThreads(t); }
    forall p: nat, t: nat ensures WaiterOk(s, p, t) && MemberOk(s, p, t) && ChildOk(s, p, t) { OnlyChildLists(p, t); }
    forall p: nat ensures ProcOk(s, p) { OnlyChildLists(p, 0); }
  }

  lemma OnlyChildGuard()
    ensures Guard(OnlyChild(), DoReap(2))
  {
    assert OnlyChild().children[1][0] == 2;
  }

  /** The first is then left without a child to wait for. */
  lemma OnlyChildIsTaken()
    ensures Enabled(OnlyChild(), DoReap(2)) && !NoneLost(Reap(OnlyChild(), 2))
  {
    OnlyChildOk();
    var s := OnlyChild();
    ReapIff(s, 2);
    assert s.ts[1].state == Blocked && !HasOther(s, 1, 2, s.ts[1].wait);
    assert !NobodyNeeds(s, 1, 2);
  }
}
