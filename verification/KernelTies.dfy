/** How the process table, the address spaces and the descriptor tables belong
    together. */
module KernelTies {
  import opened SchedModel
  import opened SchedInv
  import opened SchedRuns
  import opened ActiveSpace
  import opened Undoing
  import opened PageTables
  import opened FrameBooks
  import Loading = Exec

  /** What the tables are tied to beside them: CR3, the kernel's directory, and
      each process's descriptors. */
  datatype Env = Env(cr3: nat, kernelPd: nat, lists: seq<seq<nat>>)

  /** A process's address space is live. */
  ghost predicate ProcTied(s: Sys, sp: Space, p: nat) {
    IsProc(s, p) && s.ps[p].space != -1 ==> s.ps[p].space >= 0 && IsLive(sp, s.ps[p].space)
  }

  /** A live address space is some process's: none is lost. */
  ghost predicate SpaceTied(s: Sys, sp: Space, m: nat) {
    IsLive(sp, m) ==> exists p: nat :: IsProc(s, p) && s.ps[p].space == m
  }

  ghost predicate SpacesTied(s: Sys, sp: Space) {
    |sp.pd| == |sp.live| && (forall p: nat :: ProcTied(s, sp, p)) && (forall m: nat :: SpaceTied(s, sp, m))
  }

  /** CR3 holds the directory of the address space that counts as loaded. */
  predicate LoadedTied(s: Sys, sp: Space, env: Env) {
    if s.loaded == -1 then env.cr3 == env.kernelPd else 0 <= s.loaded < |sp.pd| && env.cr3 == sp.pd[s.loaded]
  }

  /** Only processes that are alive hold descriptors. */
  ghost predicate FdsTied(s: Sys, lists: seq<seq<nat>>) {
    |lists| == |s.ps| && forall p {:trigger lists[p]} :: 0 <= p < |lists| && !IsAlive(s, p) ==> lists[p] == []
  }

  ghost predicate Tied(s: Sys, sp: Space, env: Env) {
    SpacesTied(s, sp) && LoadedTied(s, sp, env) && FdsTied(s, env.lists)
  }

  predicate NoneLive(sp: Space) { |sp.pd| == |sp.live| && forall m :: 0 <= m < |sp.live| ==> !sp.live[m] }

  lemma BootTies(s: Sys, sp: Space, kernelPd: nat, lists: seq<seq<nat>>)
    requires Blank(s) && NoneLive(sp) && |lists| == |s.ps| && forall p :: 0 <= p < |lists| ==> lists[p] == []
    ensures Tied(Booted(s), sp, Env(kernelPd, kernelPd, lists))
  {
    var s' := Booted(s);
    forall p: nat ensures ProcTied(s', sp, p) { assert p < |s.ps| ==> !s.ps[p].inuse; }
    forall m: nat ensures SpaceTied(s', sp, m) { assert !IsLive(sp, m); }
  }

  // ---- Steps that leave processes as they are ----

  /** No process changes its identity. */
  predicate SameProcs(s: Sys, s': Sys) {
    |s'.ps| == |s.ps| && forall p :: 0 <= p < |s.ps| ==>
        s'.ps[p].inuse == s.ps[p].inuse && s'.ps[p].space == s.ps[p].space
  }

  lemma SpacesStay(s: Sys, s': Sys, sp: Space)
    requires SpacesTied(s, sp) && SameProcs(s, s')
    ensures SpacesTied(s', sp)
  {
    forall p: nat ensures ProcTied(s', sp, p) { assert ProcTied(s, sp, p); }
    forall m: nat ensures SpaceTied(s', sp, m) {
      assert SpaceTied(s, sp, m);
      if IsLive(sp, m) {
        var p: nat :| IsProc(s, p) && s.ps[p].space == m;
        assert IsProc(s', p) && s'.ps[p].space == m;
      }
    }
  }

  lemma QuietTies(s: Sys, s': Sys, sp: Space, env: Env)
    requires Tied(s, sp, env) && s'.ps == s.ps && s'.loaded == s.loaded
    ensures Tied(s', sp, env)
  {
    SpacesStay(s, s', sp);
  }

  /** After a switch CR3 must follow, if the new process has an address space. */
  lemma SwitchTies(s: Sys, sp: Space, env: Env)
    requires Inv(s) && Tied(s, sp, env)
    ensures var s' := Switch(s);
      && IsThread(s', s'.current) && IsProc(s', s'.ts[s'.current].proc)
      && var m := s'.ps[s'.ts[s'.current].proc].space;
         && (m == -1 ==> Tied(s', sp, env))
         && (m != -1 ==> m >= 0 && IsLive(sp, m) && Tied(s', sp, env.(cr3 := sp.pd[m])))
  {
    SwitchInv(s);
    var s' := Switch(s);
    SpacesStay(s, s', sp);
    assert ThreadOk(s', s'.current);
    assert ProcTied(s', sp, s'.ts[s'.current].proc);
  }

  lemma ExitTies(s: Sys, code: int, sp: Space, env: Env)
    requires CanExit(s) && Tied(s, sp, env)
    ensures var s', p := Exit(s, code), s.ts[s.current].proc;
      Tied(s', sp, if s.ps[p].live == 1 then env.(lists := env.lists[p := []]) else env)
  {
    ActingHasProc(s);
    ExitTables(s, code);
    SpacesStay(s, Exit(s, code), sp);
    ExitStates(s, code);
  }

  lemma TimerSteps(s: Sys, s': Sys)
    requires Inv(s) && s' == if Tick(s).pending then Switch(Tick(s)) else Tick(s)
    ensures Steps(s, Timer, s')
  {
  }

  lemma YieldSettles(s: Sys, sp: Space, env: Env)
    requires Inv(s) && SpacesInv(s) && Tied(s, sp, env)
    ensures var s' := s.(pending := true); Inv(s') && SpacesInv(s') && Tied(s', sp, env)
  {
    PendingInv(s, true);
    QuietStep(s, s.(pending := true));
    QuietTies(s, s.(pending := true), sp, env);
  }

  lemma SleepSettles(s: Sys, n: nat, sp: Space, env: Env)
    requires Inv(s) && Acting(s) && SpacesInv(s) && Tied(s, sp, env)
    ensures Steps(s, DoSleep(n), Sleep(s, n)) && SpacesInv(Sleep(s, n)) && Tied(Sleep(s, n), sp, env)
  {
    QuietStep(s, Sleep(s, n));
    QuietTies(s, Sleep(s, n), sp, env);
  }

  /** What there is to know of an exit before it happens. */
  lemma ExitSettles(s: Sys, code: int, sp: Space, env: Env)
    requires Inv(s) && Acting(s) && SpacesInv(s) && Tied(s, sp, env)
    ensures CanExit(s) && Steps(s, DoExit(code), Exit(s, code)) && SpacesInv(Exit(s, code))
    ensures var p := s.ts[s.current].proc;
      Tied(Exit(s, code), sp, if s.ps[p].live == 1 then env.(lists := env.lists[p := []]) else env)
  {
    ActingHasProc(s);
    ExitLoads(s, code);
    ExitTies(s, code, sp, env);
  }

  /** Nobody else dies of an exit. */
  lemma ExitStates(s: Sys, code: int)
    requires CanExit(s)
    ensures var s', p := Exit(s, code), s.ts[s.current].proc;
      |s'.ps| == |s.ps| && forall q :: 0 <= q < |s.ps| && (q != p || s.ps[p].live > 1) ==>
          s'.ps[q].state == s.ps[q].state
  {
    ActingHasProc(s);
  }

  // ---- New processes ----

  /** A space that was not live belongs to nobody. */
  lemma NewIsFresh(s: Sys, sp: Space, m: nat)
    requires SpacesTied(s, sp) && m < |sp.live| && !sp.live[m]
    ensures FreshSpace(s, m)
  {
    forall p | 0 <= p < |s.ps| && s.ps[p].inuse ensures s.ps[p].space != m { assert ProcTied(s, sp, p); }
  }

  lemma NewProcTies(s: Sys, p: nat, parent: int, user: bool, space: int, b0: Books, b: Books, env: Env)
    requires Inv(s) && Tied(s, b0.sp, env) && p < |s.ps| && !s.ps[p].inuse && (parent == -1 || IsProc(s, parent))
    requires if space == -1 then b.sp.live == b0.sp.live && b.sp.pd == b0.sp.pd else space >= 0 && Atop(b0, b, space)
    requires s.loaded != -1 ==> s.loaded >= 0 && IsLive(b0.sp, s.loaded)
    ensures Tied(AddProc(s, p, parent, user, space), b.sp, env)
  {
    var s' := AddProc(s, p, parent, user, space);
    forall q: nat ensures ProcTied(s', b.sp, q) { assert ProcTied(s, b0.sp, q); }
    forall m: nat ensures SpaceTied(s', b.sp, m) {
      assert SpaceTied(s, b0.sp, m);
      if IsLive(b0.sp, m) {
        var q: nat :| IsProc(s, q) && s.ps[q].space == m;
        assert IsProc(s', q) && s'.ps[q].space == m;
      } else if space == m {
        assert IsProc(s', p) && s'.ps[p].space == m;
      }
    }
  }

  lemma LoadedLives(s: Sys, sp: Space)
    requires SpacesInv(s) && SpacesTied(s, sp) && s.loaded != -1
    ensures s.loaded >= 0 && IsLive(sp, s.loaded)
  {
    var p: nat :| IsProc(s, p) && s.ps[p].space == s.loaded;
    assert ProcTied(s, sp, p);
  }

  // ---- Steps undone ----

  /** The same address spaces with the same directories. */
  predicate SameLive(sp: Space, sp': Space) {
    sp'.live == sp.live && |sp'.pd| == |sp.pd| && forall m :: 0 <= m < |sp.live| && IsLive(sp, m) ==>
        sp'.pd[m] == sp.pd[m]
  }

  lemma SameSystemTies(s: Sys, s': Sys, sp: Space, sp': Space, env: Env)
    requires SpacesInv(s) && Tied(s, sp, env) && SameSystem(s, s') && SameLive(sp, sp')
    ensures Tied(s', sp', env)
  {
    forall p: nat ensures ProcTied(s', sp', p) { assert ProcTied(s, sp, p); }
    forall m: nat ensures SpaceTied(s', sp', m) {
      assert SpaceTied(s, sp, m);
      if IsLive(sp', m) {
        var p: nat :| IsProc(s, p) && s.ps[p].space == m;
        assert IsProc(s', p) && s'.ps[p].space == m;
      }
    }
    if s.loaded != -1 { LoadedLives(s, sp); }
  }

  // ---- Processes that go, and exec ----

  /** The address space of a process other than the current one is not loaded. */
  lemma OtherNotLoaded(s: Sys, c: nat, b: Books, env: Env)
    requires Inv(s) && SpacesInv(s) && Tied(s, b.sp, env) && Owned(b.sp, b.owner) && Acting(s)
    requires IsProc(s, c) && IsProc(s, CurrentProc(s)) && c != CurrentProc(s)
    requires s.ps[c].user == s.ps[CurrentProc(s)].user && s.ps[c].space != -1
    ensures s.ps[c].space >= 0 && IsLive(b.sp, s.ps[c].space) && env.cr3 != b.sp.pd[s.ps[c].space]
  {
    var p := CurrentProc(s);
    assert ProcTied(s, b.sp, c) && ProcTied(s, b.sp, p) && SpaceOk(s, p) && SpaceOk(s, c);
    Loading.DistinctDirectories(b, s.ps[p].space, s.ps[c].space);
  }

  /** The address space of a reaped process is live and not loaded. */
  lemma ReapedSpace(s: Sys, c: nat, b: Books, env: Env)
    requires Enabled(s, DoReap(c)) && SpacesInv(s) && Tied(s, b.sp, env) && Owned(b.sp, b.owner)
    requires s.ps[c].space != -1
    ensures s.ps[c].space >= 0 && IsLive(b.sp, s.ps[c].space) && env.cr3 != b.sp.pd[s.ps[c].space]
  {
    assert KinOk(s, CurrentProc(s), c) && ChildOk(s, CurrentProc(s), c);
    OtherNotLoaded(s, c, b, env);
  }

  /** The spaces that remain when process c is gone, and its space with it. */
  predicate SpaceDown(sp: Space, sp': Space, m: int) {
    sp'.pd == sp.pd && if 0 <= m < |sp.live| then sp'.live == sp.live[m := false] else sp'.live == sp.live
  }

  lemma ReapTies(s: Sys, c: nat, sp: Space, sp': Space, env: Env)
    requires Enabled(s, DoReap(c)) && s.ps[c].state == PZombie && SpacesInv(s) && Tied(s, sp, env)
    requires SpaceDown(sp, sp', s.ps[c].space)
    ensures Tied(Reap(s, c), sp', env)
  {
    var s' := Reap(s, c);
    ReapTables(s, c);
    forall p: nat ensures ProcTied(s', sp', p) { assert ProcTied(s, sp, p) && SpaceOk(s, c); }
    forall m: nat ensures SpaceTied(s', sp', m) {
      assert SpaceTied(s, sp, m) && ProcTied(s, sp, c);
      if IsLive(sp', m) {
        var p: nat :| IsProc(s, p) && s.ps[p].space == m;
        assert IsProc(s', p) && s'.ps[p].space == m;
      }
    }
  }

  /** The address space m takes the place of the current one. */
  lemma ExecTies(s: Sys, m: nat, b0: Books, b1: Books, sp': Space, env: Env)
    requires Enabled(s, DoExec(m)) && SpacesInv(s) && Tied(s, b0.sp, env) && Atop(b0, b1, m)
    requires SpaceDown(b1.sp, sp', s.ps[CurrentProc(s)].space)
    ensures Tied(Exec(s, m), sp', env.(cr3 := b1.sp.pd[m]))
  {
    var s', p := Exec(s, m), CurrentProc(s);
    assert ProcTied(s, b0.sp, p) && SpaceOk(s, p);
    forall q: nat ensures ProcTied(s', sp', q) { assert ProcTied(s, b0.sp, q) && SpaceOk(s, q); }
    forall x: nat ensures SpaceTied(s', sp', x) {
      assert SpaceTied(s, b0.sp, x);
      if IsLive(sp', x) {
        if x == m {
          assert IsProc(s', p) && s'.ps[p].space == m;
        } else {
          var q: nat :| IsProc(s, q) && s.ps[q].space == x;
          assert IsProc(s', q) && s'.ps[q].space == x;
        }
      }
    }
  }

  lemma UserSpace(s: Sys, sp: Space, p: int)
    requires SpacesInv(s) && SpacesTied(s, sp) && (p != -1 ==> IsProc(s, p))
    ensures p != -1 && s.ps[p].user ==> s.ps[p].space >= 0 && IsLive(sp, s.ps[p].space)
  {
    if p != -1 { assert SpaceOk(s, p) && ProcTied(s, sp, p); }
  }

  lemma FdsGrow(s: Sys, lists: seq<seq<nat>>, p: nat, fds: seq<nat>)
    requires FdsTied(s, lists) && IsAlive(s, p)
    ensures FdsTied(s, lists[p := fds])
  {
  }

  lemma BlockSettles(s: Sys, wait: Wait, sp: Space, env: Env)
    requires Enabled(s, DoBlock(wait)) && SpacesInv(s) && Tied(s, sp, env)
    ensures SpacesInv(Block(s, wait)) && Tied(Block(s, wait), sp, env)
  {
    QuietStep(s, Block(s, wait));
    QuietTies(s, Block(s, wait), sp, env);
  }

  lemma NewThreadSettles(s: Sys, t: nat, p: nat, sp: Space, env: Env)
    requires Inv(s) && SpacesInv(s) && Tied(s, sp, env) && IsAlive(s, p) && t < |s.ts| && s.ts[t].state == Unused
    ensures var s' := AddThread(s, t, p); Steps(s, NewThread(t, p), s') && SpacesInv(s') && Tied(s', sp, env)
  {
    NewThreadLoads(s, t, p);
    SpacesStay(s, AddThread(s, t, p), sp);
  }

  /** Before exec: the current process's address space is live and loaded. */
  lemma ExecReady(s: Sys, sp: Space, env: Env)
    requires Inv(s) && SpacesInv(s) && Tied(s, sp, env) && Acting(s)
    requires IsProc(s, CurrentProc(s)) && s.ps[CurrentProc(s)].user
    ensures var a := s.ps[CurrentProc(s)].space; a >= 0 && IsLive(sp, a) && env.cr3 == sp.pd[a]
  {
    assert SpaceOk(s, CurrentProc(s)) && ProcTied(s, sp, CurrentProc(s));
  }

  /** User stores untie nothing. */
  lemma StoreTies(s: Sys, b: Books, env: Env, m: nat, st: Store)
    requires Tied(s, b.sp, env) && Owned(b.sp, b.owner)
    ensures Tied(s, WriteUser(b.sp, m, st.i, st.j, st.k, st.w), env)
  {
    var sp' := WriteUser(b.sp, m, st.i, st.j, st.k, st.w);
    WriteKeepsPlaces(b.sp, b.owner, m, st.i, st.j, st.k, st.w);
    forall p: nat ensures ProcTied(s, sp', p) { assert ProcTied(s, b.sp, p); }
    forall n: nat ensures SpaceTied(s, sp', n) { assert SpaceTied(s, b.sp, n); }
  }
}
