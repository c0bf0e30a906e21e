/** CR3: while a process with an address space runs, that address space is
    loaded; so no address space is destroyed while it is loaded. */
module ActiveSpace {
  import opened SchedModel
  import opened SchedInv
  import opened SchedRuns

  /** User processes, and only they, have an address space, each its own. */
  ghost predicate SpaceOk(s: Sys, p: nat) {
    IsProc(s, p) ==>
      && (s.ps[p].user <==> s.ps[p].space != -1)
      && (forall q :: 0 <= q < |s.ps| && q != p && s.ps[q].inuse && s.ps[p].space != -1 ==>
          s.ps[q].space != s.ps[p].space)
  }

  /** Children have the context of their parent. */
  ghost predicate KinOk(s: Sys, p: nat, c: nat)
    requires Sized(s)
  {
    p < |s.ps| && c < |s.ps| && c in s.children[p] ==> s.ps[c].user == s.ps[p].user
  }

  /** The current thread's process is in use and its address space, if it has
      one, is loaded; also while the thread has blocked, slept or exited and is
      not yet switched away. */
  predicate RunsLoaded(s: Sys) {
    IsThread(s, s.current) ==>
      IsProc(s, CurrentProc(s)) && (s.ps[CurrentProc(s)].space != -1 ==> s.loaded == s.ps[CurrentProc(s)].space)
  }

  /** What is loaded is some process's address space, or the kernel's. */
  ghost predicate LoadedIsLive(s: Sys) {
    s.loaded == -1 || exists p: nat :: IsProc(s, p) && s.ps[p].space == s.loaded
  }

  ghost predicate SpacesInv(s: Sys) {
    && Sized(s) && (forall p: nat :: SpaceOk(s, p)) && (forall p: nat, c: nat :: KinOk(s, p, c))
    && RunsLoaded(s) && LoadedIsLive(s)
  }

  lemma SameSpaces(s: Sys, s': Sys)
    requires SpacesInv(s) && Sized(s') && s'.ps == s.ps && s'.children == s.children
    ensures (forall p: nat :: SpaceOk(s', p)) && (forall p: nat, c: nat :: KinOk(s', p, c))
  {
    forall p: nat ensures SpaceOk(s', p) { assert SpaceOk(s, p); }
    forall p: nat, c: nat ensures KinOk(s', p, c) { assert KinOk(s, p, c); }
  }

  lemma SwitchLoads(s: Sys)
    requires Inv(s) && SpacesInv(s)
    ensures SpacesInv(Switch(s))
  {
    SwitchFinds(s);
    var s', c := Switch(s), FirstRunnable(Preempted(s), Order(s));
    SameSpaces(s, s');
    assert ThreadOk(s, c);
    var p := s.ts[c].proc;
    assert IsProc(s', p);
    if s.ps[p].space == -1 && s.loaded != -1 {
      var q: nat :| IsProc(s, q) && s.ps[q].space == s.loaded;
      assert IsProc(s', q);
    }
  }

  /** A step that leaves processes and CR3 alone, and lets nobody else run. */
  lemma QuietStep(s: Sys, s': Sys)
    requires SpacesInv(s) && Sized(s') && s'.ps == s.ps && s'.children == s.children && s'.loaded == s.loaded
    requires RunsLoaded(s')
    ensures SpacesInv(s')
  {
    SameSpaces(s, s');
    if s.loaded != -1 {
      var q: nat :| IsProc(s, q) && s.ps[q].space == s.loaded;
      assert IsProc(s', q);
    }
  }

  lemma TickLoads(s: Sys)
    requires Inv(s) && SpacesInv(s)
    ensures SpacesInv(Tick(s))
  {
    if s.current >= 0 { assert ThreadOk(s, s.current); TickThread(s, s.current); }
    QuietStep(s, Tick(s));
  }

  lemma ExitLoads(s: Sys, code: int)
    requires CanExit(s) && SpacesInv(s)
    ensures SpacesInv(Exit(s, code))
  {
    ActingHasProc(s);
    var s' := Exit(s, code);
    ExitTables(s, code);
    forall p: nat ensures SpaceOk(s', p) { assert SpaceOk(s, p); }
    forall p: nat, c: nat ensures KinOk(s', p, c) { assert KinOk(s, p, c); }
    if s.loaded != -1 {
      var q: nat :| IsProc(s, q) && s.ps[q].space == s.loaded;
      assert IsProc(s', q);
    }
  }

  /** Exit changes no process's identity, and the thread no longer runs. */
  lemma ExitTables(s: Sys, code: int)
    requires CanExit(s)
    ensures var s' := Exit(s, code);
      && Sized(s') && |s'.ps| == |s.ps| && s'.children == s.children && s'.loaded == s.loaded && s'.current == s.current
      && IsThread(s', s'.current) && s'.ts[s'.current].state == Zombie
      && (forall p :: 0 <= p < |s.ps| ==>
          s'.ps[p].inuse == s.ps[p].inuse && s'.ps[p].user == s.ps[p].user && s'.ps[p].space == s.ps[p].space)
  {
    ActingHasProc(s);
    var t := s.current;
    var p := s.ts[t].proc;
    if s.ps[p].live == 1 {
      var s1 := s.(ts := s.ts[t := s.ts[t].(state := Zombie, code := code)],
                   ps := s.ps[p := s.ps[p].(live := 0, state := PZombie, code := code)]);
      var q := s1.ps[p].parent;
      if 0 <= q < |s.ps| {
        var v := FirstMatch(s1.ts, s1.waiters[q], p);
        if v != -1 { assert WaiterOk(s, q, v); }
      }
    }
  }

  /** The address space of a process that goes is not the one that is loaded. */
  lemma ReapedIsNotLoaded(s: Sys, c: nat)
    requires Enabled(s, DoReap(c)) && SpacesInv(s)
    ensures s.ps[c].space != -1 ==> s.loaded != s.ps[c].space && s.loaded == s.ps[CurrentProc(s)].space
  {
    var p := CurrentProc(s);
    assert ChildOk(s, p, c) && KinOk(s, p, c) && SpaceOk(s, p) && SpaceOk(s, c);
  }

  lemma ReapLoads(s: Sys, c: nat)
    requires Enabled(s, DoReap(c)) && SpacesInv(s)
    ensures SpacesInv(Reap(s, c))
  {
    ReapIs(s, c);
    ReapedIsNotLoaded(s, c);
    var s' := Reap(s, c);
    var p := CurrentProc(s);
    assert ChildOk(s, p, c);
    ReapTables(s, c);
    forall q: nat ensures SpaceOk(s', q) { assert SpaceOk(s, q); }
    forall q: nat, d: nat ensures KinOk(s', q, d) { assert KinOk(s, q, d); }
    if s.loaded != -1 {
      var q: nat :| IsProc(s, q) && s.ps[q].space == s.loaded;
      assert q != c ==> IsProc(s', q) && s'.ps[q].space == s.loaded;
    }
  }

  lemma ReapTables(s: Sys, c: nat)
    requires Enabled(s, DoReap(c))
    ensures var s' := Reap(s, c);
      && Sized(s') && |s'.ps| == |s.ps| && !s'.ps[c].inuse && s'.loaded == s.loaded && s'.current == s.current
      && IsThread(s', s'.current) && s'.ts[s'.current] == s.ts[s.current]
      && (forall q :: 0 <= q < |s.ps| && q != c ==> s'.ps[q] == s.ps[q])
      && (forall q, d :: 0 <= q < |s.ps| && d in s'.children[q] ==> d in s.children[q] && d != c)
  {
    ReapIs(s, c);
    if s.members[c] != [] { assert s.members[c][0] in s.members[c]; }
    FreeProcLists(s, Reap(s, c), c);
    forall q, d | 0 <= q < |s.ps| && d in Reap(s, c).children[q] ensures d in s.children[q] && d != c {
      assert ProcOk(s, q);
      WithoutMembers(s.children[q], c);
    }
  }

  lemma NewProcSpace(s: Sys, p: nat, parent: int, user: bool, space: int, q: nat)
    requires Enabled(s, NewProc(p, parent, user, space)) && SpacesInv(s)
    ensures SpaceOk(AddProc(s, p, parent, user, space), q)
  {
    assert SpaceOk(s, q);
  }

  lemma NewProcKin(s: Sys, p: nat, parent: int, user: bool, space: int, q: nat, d: nat)
    requires Enabled(s, NewProc(p, parent, user, space)) && SpacesInv(s)
    ensures Sized(AddProc(s, p, parent, user, space)) && KinOk(AddProc(s, p, parent, user, space), q, d)
  {
    UnusedIsBare(s, p);
    assert KinOk(s, q, d) && ChildOk(s, q, d);
  }

  lemma NewProcLoads(s: Sys, p: nat, parent: int, user: bool, space: int)
    requires Enabled(s, NewProc(p, parent, user, space)) && SpacesInv(s)
    ensures SpacesInv(AddProc(s, p, parent, user, space))
  {
    var s' := AddProc(s, p, parent, user, space);
    forall q: nat ensures SpaceOk(s', q) { NewProcSpace(s, p, parent, user, space, q); }
    forall q: nat, d: nat ensures KinOk(s', q, d) { NewProcKin(s, p, parent, user, space, q, d); }
    if s.current >= 0 { assert ThreadOk(s, s.current); }
    if s.loaded != -1 {
      var q: nat :| IsProc(s, q) && s.ps[q].space == s.loaded;
      assert IsProc(s', q) && q != p;
    }
  }

  lemma ExecLoads(s: Sys, space: int)
    requires Enabled(s, DoExec(space)) && SpacesInv(s)
    ensures SpacesInv(Exec(s, space)) && space != s.ps[CurrentProc(s)].space
  {
    var s', p := Exec(s, space), CurrentProc(s);
    forall q: nat ensures SpaceOk(s', q) { assert SpaceOk(s, q) && SpaceOk(s, p); }
    forall q: nat, d: nat ensures KinOk(s', q, d) { assert KinOk(s, q, d); }
    assert IsProc(s', p) && s'.ps[p].space == s'.loaded;
  }

  lemma StepLoads(s: Sys, e: Event)
    requires Enabled(s, e) && SpacesInv(s)
    ensures SpacesInv(Step(s, e))
  {
    match e
    case Timer => TickInv(s); TickLoads(s); SwitchLoads(Tick(s));
    case Yield => PendingInv(s, true); QuietStep(s, s.(pending := true)); SwitchLoads(s.(pending := true));
    case DoSleep(n) => QuietStep(s, Sleep(s, n));
    case DoBlock(wait) => QuietStep(s, Block(s, wait));
    case DoExit(code) => ActingHasProc(s); ExitLoads(s, code);
    case NewThread(t, p) => NewThreadLoads(s, t, p);
    case NewProc(p, parent, user, space) => NewProcLoads(s, p, parent, user, space);
    case DoReap(c) => ReapLoads(s, c);
    case DoExec(space) => ExecLoads(s, space);
  }

  lemma NewThreadLoads(s: Sys, t: nat, p: nat)
    requires Enabled(s, NewThread(t, p)) && SpacesInv(s)
    ensures SpacesInv(AddThread(s, t, p))
  {
    var s' := AddThread(s, t, p);
    forall q: nat ensures SpaceOk(s', q) { assert SpaceOk(s, q); }
    forall q: nat, d: nat ensures KinOk(s', q, d) { assert KinOk(s, q, d); }
    if s.loaded != -1 {
      var q: nat :| IsProc(s, q) && s.ps[q].space == s.loaded;
      assert IsProc(s', q);
    }
  }

  lemma BootLoads(s: Sys)
    requires Blank(s)
    ensures SpacesInv(Booted(s))
  {
    var s' := Booted(s);
    forall p: nat ensures SpaceOk(s', p) { assert p < |s.ps| ==> !s.ps[p].inuse; }
    forall p: nat, c: nat ensures KinOk(s', p, c) { assert p < |s.ps| ==> s.children[p] == []; }
  }

  /** In every state of every run, the running process's address space is
      loaded, and what is loaded is alive. */
  lemma {:induction false} AlwaysLoaded(run: seq<Sys>, events: seq<Event>, i: nat)
    requires IsRun(run, events) && Inv(run[0]) && SpacesInv(run[0]) && i < |run|
    ensures SpacesInv(run[i])
  {
    if i > 0 {
      AlwaysLoaded(run, events, i - 1);
      RunStep(run, events, i - 1);
      StepLoads(run[i - 1], events[i - 1]);
    }
  }

  /** So no step of any run takes down the address space that is loaded. */
  lemma NeverDestroysLoaded(run: seq<Sys>, events: seq<Event>, i: nat)
    requires IsRun(run, events) && Inv(run[0]) && SpacesInv(run[0]) && i < |events|
    ensures events[i].DoReap? && events[i].c < |run[i].ps| && run[i].ps[events[i].c].space != -1 ==>
      run[i].loaded != run[i].ps[events[i].c].space
    ensures events[i].DoExec? && IsProc(run[i], CurrentProc(run[i])) ==>
      run[i + 1].loaded != run[i].ps[CurrentProc(run[i])].space
  {
    AlwaysLoaded(run, events, i);
    RunStep(run, events, i);
    if events[i].DoReap? { ReapedIsNotLoaded(run[i], events[i].c); }
    if events[i].DoExec? { ExecLoads(run[i], events[i].space); }
  }
}
