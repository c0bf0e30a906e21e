/** The kernel as a whole: the scheduler, the address spaces and the descriptor
    tables, under the system calls that change more than one of them. */
module Kernels {
  import opened SchedModel
  import opened SchedInv
  import opened SchedRuns
  import opened Reaping
  import opened ActiveSpace
  import opened Undoing
  import opened Scheduler
  import opened PageTables
  import opened PageBytes
  import opened FrameBooks
  import opened UserMemory
  import opened Vmas
  import opened AddressSpaces
  import opened Files
  import opened KernelTies
  import opened KernelOutcomes

  class Kernel {
    const sched: Scheduler
    const mem: Memory
    const files: FileTable

    /** What the three parts hold. */
    ghost var now: World

    // What each part holds, with mem.Is for memory. The quantifiers keep the
    // verifier from looking into a part where its Valid() is not mentioned.

    ghost predicate SchedIs(s: Sys)
      reads sched
    {
      forall x {:trigger x.Valid()} :: x in {sched} ==> x.Valid() && x.Now() == s
    }

    ghost predicate FilesIs(d: Fds)
      reads files
    {
      forall x {:trigger x.Valid()} :: x in {files} ==> x.Valid() && x.Now() == d.refs && x.lists == d.lists
    }

    /** Each part is consistent in itself, and holds what `now` says. */
    ghost predicate Linked()
      reads this, sched, mem, mem.pmm, mem.pmm.bitmap, mem.pmm.table, mem.vmas, files
    {
      true == (&& SchedIs(now.s) && mem.Is(now.i, now.env.cr3) && FilesIs(FdsIn(now))
               && now.env.kernelPd == mem.kernelPd)
    }

    /** And the parts belong together. */
    ghost predicate Valid()
      reads this, sched, mem, mem.pmm, mem.pmm.bitmap, mem.pmm.table, mem.vmas, files
    {
      true == (Linked() && Whole(now))
    }

    /** At boot: the idle process, no address space and no descriptors. */
    constructor (scheduler: Scheduler, memory: Memory, table: FileTable)
      requires scheduler.Links() && Blank(scheduler.Now()) && scheduler.nextTid == 0
      requires memory.Valid() && memory.cr3 == memory.kernelPd && NoneLive(memory.Sp())
      requires table.Valid() && |table.lists| == |scheduler.ps| && forall p :: 0 <= p < |table.lists| ==>
          table.lists[p] == []
      modifies scheduler
      ensures Valid() && sched == scheduler && mem == memory && files == table
      ensures now.s == Booted(old(scheduler.Now()))
    {
      sched, mem, files := scheduler, memory, table;
      new;
      BootInv(sched.Now());
      BootLoads(sched.Now());
      BootTies(sched.Now(), mem.Sp(), mem.cr3, files.lists);
      sched.Boot();
      now := World(sched.Now(), mem.View(), Env(mem.cr3, mem.kernelPd, files.lists), files.Now());
    }

    // ---- The scheduler ----

    method SchedSwitch(ghost s: Sys)
      requires SchedIs(s)
      modifies sched
      ensures Inv(s) && SchedIs(Switch(s))
    {
      assert sched.Valid();
      sched.DoSwitch();
    }

    method SchedTick(ghost s: Sys) returns (due: bool)
      requires SchedIs(s)
      modifies sched
      ensures SchedIs(Tick(s)) && due == Tick(s).pending
    {
      assert sched.Valid();
      sched.OnTick();
      due := sched.pending;
    }

    method SchedPend(ghost s: Sys)
      requires SchedIs(s)
      modifies sched
      ensures SchedIs(s.(pending := true))
    {
      assert sched.Valid();
      PendingInv(s, true);
      sched.pending := true;
    }

    method SchedSleep(n: nat, ghost s: Sys)
      requires SchedIs(s) && Acting(s)
      modifies sched
      ensures SchedIs(Sleep(s, n))
    {
      assert sched.Valid();
      sched.ThreadSleep(n);
    }

    method SchedBlock(wait: Wait, ghost s: Sys)
      requires SchedIs(s) && Sized(s) && Acting(s) && wait != NoWait
      modifies sched
      ensures IsProc(s, CurrentProc(s)) && SchedIs(Block(s, wait))
    {
      assert sched.Valid();
      sched.BlockCurrent(wait);
    }

    method SchedExit(code: int, ghost s: Sys) returns (last: bool)
      requires SchedIs(s) && Acting(s)
      modifies sched
      ensures CanExit(s) && SchedIs(Exit(s, code)) && last == (s.ps[CurrentProc(s)].live == 1)
    {
      assert sched.Valid();
      last := sched.ThreadExit(code);
    }

    method SchedReap(c: nat, ghost s: Sys)
      requires SchedIs(s) && CanGo(s, c)
      modifies sched
      ensures SchedIs(Reap(s, c))
    {
      assert sched.Valid();
      sched.ReapProc(c);
    }

    method SchedMove(m: nat, ghost s: Sys)
      requires SchedIs(s) && IsProc(s, CurrentProc(s))
      modifies sched
      ensures SchedIs(Exec(s, m))
    {
      assert sched.Valid();
      sched.ChangeSpace(m);
    }

    method SchedThread(p: nat, ghost s: Sys) returns (t: int, ghost s': Sys)
      requires SchedIs(s) && Inv(s) && IsAlive(s, p)
      modifies sched
      ensures SchedIs(s') && Threaded(s, s', t, p) && (t == -1 <==> NoThreadSlot(s.ts))
    {
      assert sched.Valid();
      t := sched.NewThread(p);
      s' := sched.Now();
    }

    method SchedUnfork(t: int, c: nat, ghost parent: int, ghost user: bool, ghost m: int, ghost s0: Sys, ghost s: Sys)
      returns (ghost s': Sys)
      requires SchedIs(s) && HalfForkedIn(s, t, c, parent, user, m, s0)
      modifies sched
      ensures SchedIs(s') && SameSystem(s0, s')
    {
      assert sched.Valid();
      sched.Unfork(t, c, parent, user, m, s0);
      s' := sched.Now();
    }

    /** The scheduler has taken slot p in state s, and nothing else. */
    ghost predicate Opening(p: nat, parent: int, user: bool, s: Sys)
      reads sched
    {
      forall x {:trigger x.Opened(p, parent, user, s)} :: x in {sched} ==> x.Opened(p, parent, user, s)
    }

    method SchedOpen(parent: int, user: bool, ghost s: Sys) returns (p: int)
      requires SchedIs(s) && (parent == -1 || IsProc(s, parent))
      modifies sched
      ensures p == -1 <==> NoProcSlot(s.ps)
      ensures p == -1 ==> SchedIs(s)
      ensures p != -1 ==> 0 <= p < |s.ps| && !s.ps[p].inuse && Opening(p, parent, user, s)
    {
      assert sched.Valid();
      p := sched.TakeProc(parent, user);
    }

    /** Lists a user process with its address space, or gives its slot back. */
    method SchedPlace(p: nat, parent: int, m: int, ghost s: Sys) returns (ghost s': Sys)
      requires Opening(p, parent, true, s)
      modifies sched
      ensures SchedIs(s') && Placed(s, s', p, parent, m)
    {
      assert sched.Opened(p, parent, true, s);
      if m == -1 {
        OpenUndone(s, p, parent, true);
        sched.GiveBack(p, s, parent, true);
      } else {
        sched.ListProc(p, parent, true, m, s);
      }
      s' := sched.Now();
    }

    method SchedPlaceKernel(p: nat, parent: int, ghost s: Sys)
      requires Opening(p, parent, false, s) && Sized(s) && p < |s.ps| && -1 <= parent < |s.ps|
      modifies sched
      ensures SchedIs(AddProc(s, p, parent, false, -1))
    {
      assert sched.Opened(p, parent, false, s);
      sched.ListProc(p, parent, false, -1, s);
    }

    // ---- Memory ----

    method MemLoad(m: nat, ghost i: Image, ghost cr3: nat)
      requires mem.Is(i, cr3) && IsLive(i.b.sp, m)
      modifies mem`cr3
      ensures mem.Is(i, i.b.sp.pd[m])
    {
      assert mem.Valid();
      mem.Switch(m);
    }

    method MemStore(m: nat, st: Store, ghost i: Image, ghost cr3: nat)
      requires mem.Is(i, cr3)
      modifies mem`ram
      ensures mem.Is(Stored(i, m, st), cr3)
    {
      assert mem.Valid();
      mem.UserStore(m, st);
    }

    method NewSpace(ghost i: Image, ghost cr3: nat) returns (m: int, ghost i': Image)
      requires mem.Is(i, cr3)
      modifies mem`ram, mem`mmLive, mem`mmPd, mem`mmPages, mem`owner, mem.vmas
      modifies mem.pmm`availableFrames, mem.pmm`free, mem.pmm`frameHint, mem.pmm.bitmap
      ensures mem.Is(i', cr3) && SpaceMade(i, i', -1, m)
    {
      m, i' := mem.CreateAs(i, cr3);
      if m != -1 {
        CreatedIsMade(i, i', cr3, m);
      }
    }

    method CopySpace(a: nat, ghost i: Image, ghost cr3: nat) returns (m: int, ghost i': Image)
      requires mem.Is(i, cr3) && IsLive(i.b.sp, a)
      modifies mem`ram, mem`mmLive, mem`mmPd, mem`mmPages, mem`owner, mem.vmas
      modifies mem.pmm`availableFrames, mem.pmm`free, mem.pmm`frameHint, mem.pmm.bitmap
      ensures mem.Is(i', cr3) && SpaceMade(i, i', a, m)
    {
      mem.IsTells(i, cr3);
      m, i' := mem.CloneAs(a, i, cr3);
      if m != -1 {
        ClonedIsMade(i, i', a, m);
      }
    }

    /** An address space for a new process, a copy of a if there is an a. */
    method SpaceFor(a: int, ghost i: Image, ghost cr3: nat) returns (m: int, ghost i': Image)
      requires mem.Is(i, cr3) && (a == -1 || (a >= 0 && IsLive(i.b.sp, a)))
      modifies mem`ram, mem`mmLive, mem`mmPd, mem`mmPages, mem`owner, mem.vmas
      modifies mem.pmm`availableFrames, mem.pmm`free, mem.pmm`frameHint, mem.pmm.bitmap
      ensures mem.Is(i', cr3) && SpaceMade(i, i', a, m)
    {
      if a == -1 {
        m, i' := NewSpace(i, cr3);
      } else {
        m, i' := CopySpace(a, i, cr3);
      }
    }

    method MemDrop(m: nat, ghost i: Image, ghost cr3: nat) returns (ghost i': Image)
      requires mem.Is(i, cr3) && IsLive(i.b.sp, m) && cr3 != i.b.sp.pd[m]
      modifies mem`mmLive, mem`owner, mem.vmas
      modifies mem.pmm`availableFrames, mem.pmm`free, mem.pmm`frameHint, mem.pmm.bitmap
      ensures mem.Is(i', cr3) && SpaceGone(i, i', m)
    {
      mem.DestroyAs(m, i, cr3);
      i' := GoneFrom(i, m);
    }

    method MemStage(image: seq<nat>, ghost i: Image, ghost cr3: nat)
      returns (status: Loading.ExecStatus, m: int, ghost i': Image)
      requires mem.Is(i, cr3) && IsBytes(image)
      modifies mem`ram, mem`mmLive, mem`mmPd, mem`mmPages, mem`owner, mem.vmas
      modifies mem.pmm`availableFrames, mem.pmm`free, mem.pmm`frameHint, mem.pmm.bitmap
      ensures mem.Is(i', cr3) && Staged(i, i', m, image) && ExecAnswer(status, m, image)
    {
      mem.UsedInView();
      status, m := Loading.Stage(mem, image);
      mem.UsedInView();
      i' := mem.View();
      StagedIs(i, i', m, image);
    }

    /** Address space m is loaded, and the old one goes. */
    method MemMove(was: nat, m: nat, ghost i: Image, ghost cr3: nat) returns (ghost i': Image)
      requires mem.Is(i, cr3) && IsLive(i.b.sp, was) && IsLive(i.b.sp, m) && was != m
      modifies mem`cr3, mem`mmLive, mem`owner, mem.vmas
      modifies mem.pmm`availableFrames, mem.pmm`free, mem.pmm`frameHint, mem.pmm.bitmap
      ensures mem.Is(i', i.b.sp.pd[m]) && SpaceGone(i, i', was)
    {
      assert mem.Valid();
      Loading.Commit(mem, was, m);
      i' := mem.View();
    }

    // ---- Descriptors ----

    method FilesClean(p: nat, ghost d: Fds) returns (ghost d': Fds)
      requires FilesIs(d) && p < |d.lists|
      modifies files
      ensures FilesIs(d') && FdsClosed(d, d', p, true)
    {
      assert files.Valid();
      files.Cleanup(p);
      d' := Fds(files.Now(), files.lists);
    }

    method FilesStdio(p: nat, stdio: int, ghost d: Fds) returns (ghost d': Fds)
      requires FilesIs(d) && p < |d.lists| && d.lists[p] == [] && (stdio == -1 || stdio in d.refs.oOwn)
      modifies files
      ensures FilesIs(d') && StdioGiven(d, d', p, stdio)
    {
      assert files.Valid();
      files.Bootstrap(p, stdio);
      d' := Fds(files.Now(), files.lists);
    }

    method FilesFork(parent: nat, child: nat, ghost d: Fds) returns (ok: bool, ghost d': Fds)
      requires FilesIs(d) && parent < |d.lists| && child < |d.lists| && parent != child && d.lists[child] == []
      modifies files
      ensures FilesIs(d') && FdsForked(d, d', parent, child, ok) && (ok <==> FdsFit(d, parent))
    {
      assert files.Valid();
      ok := files.ForkFds(parent, child);
      d' := Fds(files.Now(), files.lists);
    }

    // ---- What the parts tell ----

    lemma MemTells()
      requires Linked()
      ensures Owned(now.i.b.sp, now.i.b.owner) && now.i.b.limbo == {} && |now.i.b.sp.pd| == |now.i.b.sp.live|
    {
      assert mem.Valid();
    }

    lemma FilesTell()
      requires Linked()
      ensures FileRefs.Exact(now.refs, {})
    {
      assert files.Valid();
    }

    lemma UsedTells()
      requires Linked()
      ensures mem.vmas.used == InUse(now.i.slots, now.i.pool)
    {
      mem.UsedInView();
    }

    /** In every state of the kernel, whatever is loaded maps the kernel. */
    lemma KernelIsMapped()
      requires Valid()
      ensures MapsKernel(now.i.b, now.env.cr3)
    {
      KernelIsApart();
      mem.IsTells(now.i, now.env.cr3);
      if now.s.loaded != -1 { LoadedLives(now.s, now.i.b.sp); }
      forall m: nat | IsLive(now.i.b.sp, m)
        ensures SharesUpper(now.i.b.sp.ram, now.i.b.sp.pd[m], now.i.b.kernelPd)
      {
        assert DirectoryOk(now.i.b.sp, m, now.i.b.kernelPd);
      }
    }

    /** User code finds a loaded image where it expects it. */
    lemma ImageTells(m: nat, image: seq<nat>)
      requires Linked() && IsLive(now.i.b.sp, m) && Loading.ImageLoaded(now.i.b.sp, m, image) && IsBytes(image)
      ensures forall o: nat :: o < 0x1000 ==> ImageByte(now.i.b.sp, m, image, o)
    {
      mem.IsTells(now.i, now.env.cr3);
      forall o: nat | o < 0x1000 ensures ImageByte(now.i.b.sp, m, image, o) {
        assert DirectoryOk(now.i.b.sp, m, now.i.b.kernelPd);
        ImageIsThere(now.i.b.sp, m, now.i.b.kernelPd, image, o);
      }
    }

    lemma KernelIsApart()
      requires Linked()
      ensures var b := now.i.b; b.kernelPd == mem.kernelPd < |b.sp.ram| && b.kernelPd !in b.free
    {
      assert mem.Valid();
      assert Classed(now.i.b, now.i.b.kernelPd);
    }

    method Caller() returns (p: nat)
      requires Linked() && CurrentProc(now.s) >= 0
      ensures p == CurrentProc(now.s)
    {
      assert sched.Valid();
      p := sched.ts[sched.current].proc;
    }

    method SpaceOf(p: nat) returns (m: int)
      requires Linked() && p < |now.s.ps|
      ensures m == now.s.ps[p].space
    {
      assert sched.Valid();
      m := sched.ps[p].space;
    }

    method IsUser(p: nat) returns (user: bool)
      requires Linked() && p < |now.s.ps|
      ensures user == now.s.ps[p].user
    {
      assert sched.Valid();
      user := sched.ps[p].user;
    }

    // ---- The parts in the whole ----

    method SwitchNow()
      requires Linked()
      modifies `now, sched
      ensures Linked() && Inv(old(now).s) && now == old(now).(s := Switch(old(now).s))
    {
      SchedSwitch(now.s);
      now := now.(s := Switch(now.s));
    }

    method TickNow() returns (due: bool)
      requires Linked()
      modifies `now, sched
      ensures Linked() && now == old(now).(s := Tick(old(now).s)) && due == now.s.pending
    {
      due := SchedTick(now.s);
      now := now.(s := Tick(now.s));
    }

    method PendNow()
      requires Linked()
      modifies `now, sched
      ensures Linked() && now == old(now).(s := old(now).s.(pending := true))
    {
      SchedPend(now.s);
      now := now.(s := now.s.(pending := true));
    }

    method SleepNow(n: nat)
      requires Linked() && Acting(now.s)
      modifies `now, sched
      ensures Linked() && now == old(now).(s := Sleep(old(now).s, n))
    {
      SchedSleep(n, now.s);
      now := now.(s := Sleep(now.s, n));
    }

    method BlockNow(wait: Wait)
      requires Linked() && Sized(now.s) && Acting(now.s) && wait != NoWait
      modifies `now, sched
      ensures Linked() && IsProc(old(now).s, CurrentProc(old(now).s)) && now == old(now).(s := Block(old(now).s, wait))
    {
      SchedBlock(wait, now.s);
      now := now.(s := Block(now.s, wait));
    }

    method ExitNow(code: int) returns (last: bool)
      requires Linked() && Acting(now.s)
      modifies `now, sched
      ensures Linked() && CanExit(old(now).s) && now == old(now).(s := Exit(old(now).s, code))
      ensures last == (old(now).s.ps[CurrentProc(old(now).s)].live == 1)
    {
      last := SchedExit(code, now.s);
      now := now.(s := Exit(now.s, code));
    }

    method ReapNow(c: nat)
      requires Linked() && CanGo(now.s, c)
      modifies `now, sched
      ensures Linked() && now == old(now).(s := Reap(old(now).s, c))
    {
      SchedReap(c, now.s);
      now := now.(s := Reap(now.s, c));
    }

    method MoveNow(m: nat)
      requires Linked() && IsProc(now.s, CurrentProc(now.s))
      modifies `now, sched
      ensures Linked() && now == old(now).(s := Exec(old(now).s, m))
    {
      SchedMove(m, now.s);
      now := now.(s := Exec(now.s, m));
    }

    method ThreadNow(p: nat) returns (t: int)
      requires Linked() && Inv(now.s) && IsAlive(now.s, p)
      modifies `now, sched
      ensures Linked() && now == old(now).(s := now.s)
      ensures Threaded(old(now).s, now.s, t, p) && (t == -1 <==> NoThreadSlot(old(now).s.ts))
    {
      ghost var s;
      t, s := SchedThread(p, now.s);
      now := now.(s := s);
    }

    method UnforkNow(t: int, c: nat, ghost parent: int, ghost user: bool, ghost m: int, ghost s0: Sys)
      requires Linked() && HalfForkedIn(now.s, t, c, parent, user, m, s0)
      modifies `now, sched
      ensures Linked() && now == old(now).(s := now.s) && SameSystem(s0, now.s)
    {
      ghost var s := SchedUnfork(t, c, parent, user, m, s0, now.s);
      now := now.(s := s);
    }

    method LoadNow(m: nat)
      requires Linked() && IsLive(now.i.b.sp, m)
      modifies `now, mem`cr3
      ensures Linked() && now == old(now).(env := old(now).env.(cr3 := old(now).i.b.sp.pd[m]))
    {
      MemLoad(m, now.i, now.env.cr3);
      now := now.(env := now.env.(cr3 := now.i.b.sp.pd[m]));
    }

    method StoreNow(m: nat, st: Store)
      requires Linked()
      modifies `now, mem`ram
      ensures Linked() && now == old(now).(i := Stored(old(now).i, m, st))
    {
      MemStore(m, st, now.i, now.env.cr3);
      now := now.(i := Stored(now.i, m, st));
    }

    method DropNow(m: int)
      requires Linked() && Spare(now, m)
      modifies `now, mem`mmLive, mem`owner, mem.vmas
      modifies mem.pmm`availableFrames, mem.pmm`free, mem.pmm`frameHint, mem.pmm.bitmap
      ensures Linked() && now == old(now).(i := now.i) && SpaceGone(old(now).i, now.i, m)
    {
      if m != -1 {
        ghost var i := MemDrop(m, now.i, now.env.cr3);
        now := now.(i := i);
      }
    }

    method StageNow(image: seq<nat>) returns (status: Loading.ExecStatus, m: int)
      requires Linked() && IsBytes(image)
      modifies `now, mem`ram, mem`mmLive, mem`mmPd, mem`mmPages, mem`owner, mem.vmas
      modifies mem.pmm`availableFrames, mem.pmm`free, mem.pmm`frameHint, mem.pmm.bitmap
      ensures Linked() && now == old(now).(i := now.i) && Staged(old(now).i, now.i, m, image)
      ensures ExecAnswer(status, m, image)
    {
      ghost var i;
      status, m, i := MemStage(image, now.i, now.env.cr3);
      now := now.(i := i);
    }

    method MoveMemNow(was: nat, m: nat)
      requires Linked() && IsLive(now.i.b.sp, was) && IsLive(now.i.b.sp, m) && was != m
      modifies `now, mem`cr3, mem`mmLive, mem`owner, mem.vmas
      modifies mem.pmm`availableFrames, mem.pmm`free, mem.pmm`frameHint, mem.pmm.bitmap
      ensures Linked() && SpaceGone(old(now).i, now.i, was)
      ensures now == old(now).(i := now.i, env := old(now).env.(cr3 := old(now).i.b.sp.pd[m]))
    {
      ghost var i := MemMove(was, m, now.i, now.env.cr3);
      now := now.(i := i, env := now.env.(cr3 := now.i.b.sp.pd[m]));
    }

    method CleanNow(p: nat)
      requires Linked() && p < |now.env.lists|
      modifies `now, files
      ensures Linked() && FdsClosed(FdsIn(old(now)), FdsIn(now), p, true) && now == WithFds(old(now), FdsIn(now))
    {
      ghost var d := FilesClean(p, FdsIn(now));
      now := WithFds(now, d);
    }

    method StdioNow(p: nat, stdio: int)
      requires Linked() && p < |now.env.lists| && now.env.lists[p] == [] && (stdio == -1 || stdio in now.refs.oOwn)
      modifies `now, files
      ensures Linked() && StdioGiven(FdsIn(old(now)), FdsIn(now), p, stdio) && now == WithFds(old(now), FdsIn(now))
    {
      ghost var d := FilesStdio(p, stdio, FdsIn(now));
      now := WithFds(now, d);
    }

    method FdsNow(parent: nat, child: nat) returns (ok: bool)
      requires Linked() && parent < |now.env.lists| && child < |now.env.lists| && parent != child
      requires now.env.lists[child] == []
      modifies `now, files
      ensures Linked() && now == WithFds(old(now), FdsIn(now))
      ensures FdsForked(FdsIn(old(now)), FdsIn(now), parent, child, ok) && (ok <==> FdsFit(FdsIn(old(now)), parent))
    {
      ghost var d;
      ok, d := FilesFork(parent, child, FdsIn(now));
      now := WithFds(now, d);
    }

    method LookForChild(wait: Wait) returns (r: WaitResult)
      requires Linked() && Inv(now.s) && 0 <= CurrentProc(now.s) < |now.s.ps| && wait != NoWait
      ensures r == WaitResultOf(now.s, CurrentProc(now.s), wait)
    {
      assert sched.Valid();
      r := sched.LookForChild(sched.ts[sched.current].proc, wait);
    }

    // ---- Switching ----

    /** A context switch, with the new process's address space loaded. */
    method Reschedule()
      requires Valid()
      modifies `now, sched, mem`cr3
      ensures Valid() && now.s == Switch(old(now).s) && now.i == old(now).i && FdsIn(now) == FdsIn(old(now))
    {
      SwitchKeeps(now);
      SwitchNow();
      var p := Caller();
      var m := SpaceOf(p);
      if m != -1 {
        LoadNow(m);
      }
    }

    /** The timer interrupt, and the switch on its return if one is due. */
    method TimerInterrupt()
      requires Valid()
      modifies `now, sched, mem`cr3
      ensures Valid() && Steps(old(now).s, Timer, now.s) && now.i == old(now).i && FdsIn(now) == FdsIn(old(now))
    {
      ghost var s0 := now.s;
      TickKeeps(now);
      var due := TickNow();
      if due {
        Reschedule();
      }
      TimerSteps(s0, now.s);
    }

    /** The yield interrupt. */
    method Yield()
      requires Valid() && IsThread(now.s, now.s.current)
      modifies `now, sched, mem`cr3
      ensures Valid() && Steps(old(now).s, SchedRuns.Yield, now.s)
      ensures now.i == old(now).i && FdsIn(now) == FdsIn(old(now))
    {
      YieldKeeps(now);
      PendNow();
      Reschedule();
    }

    /** The current thread sleeps for n ticks. */
    method ThreadSleep(n: nat)
      requires Valid() && Acting(now.s)
      modifies `now, sched
      ensures Valid() && Steps(old(now).s, DoSleep(n), now.s) && now == old(now).(s := now.s)
    {
      SleepKeeps(now, n);
      SleepNow(n);
    }

    /** User code of the current process stores a word; a store that is not allowed
        faults and changes nothing. */
    method UserStore(st: Store)
      requires Valid() && Acting(now.s) && ForksUser(now.s)
      modifies `now, mem`ram
      ensures Valid() && old(now).s.ps[CurrentProc(old(now).s)].space >= 0
      ensures var m := old(now).s.ps[CurrentProc(old(now).s)].space;
        now == old(now).(i := Stored(old(now).i, m, st))
    {
      ExecReady(now.s, now.i.b.sp, now.env);
      MemTells();
      var p := Caller();
      var m := SpaceOf(p);
      StoreKeeps(now, m, st);
      StoreNow(m, st);
    }

    /** The current thread exits; a process that goes with it gives up its
        descriptors. */
    method ThreadExit(code: int)
      requires Valid() && Acting(now.s)
      modifies `now, sched, files
      ensures Valid() && Steps(old(now).s, DoExit(code), now.s) && SameLoaded(old(now), now) && now.i == old(now).i
      ensures var s := old(now).s;
        CanExit(s) && FdsClosed(FdsIn(old(now)), FdsIn(now), s.ts[s.current].proc, s.ps[s.ts[s.current].proc].live == 1)
    {
      ghost var w := now;
      ActingHasProc(now.s);
      var p := Caller();
      var last := ExitNow(code);
      if last {
        CleanNow(p);
      }
      ExitKeeps(w, code, FdsIn(now));
    }

    // ---- New processes ----

    /** A user process whose slot is taken gets its address space and is listed;
        or the slot is given back. */
    method FitOut(p: nat, parent: int, a: int, ghost w: World) returns (r: int, ghost s: Sys, ghost i: Image)
      requires Opening(p, parent, true, w.s) && mem.Is(w.i, w.env.cr3) && (a == -1 || (a >= 0 && IsLive(w.i.b.sp, a)))
      requires Sized(w.s) && p < |w.s.ps| && !w.s.ps[p].inuse && -1 <= parent < |w.s.ps|
      requires a == if parent == -1 then -1 else w.s.ps[parent].space
      modifies sched, mem`ram, mem`mmLive, mem`mmPd, mem`mmPages, mem`owner, mem.vmas
      modifies mem.pmm`availableFrames, mem.pmm`free, mem.pmm`frameHint, mem.pmm.bitmap
      ensures SchedIs(s) && mem.Is(i, w.env.cr3) && ProcMade(w.s, s, r, parent, true, w.i, i)
    {
      var m;
      m, i := SpaceFor(a, w.i, w.env.cr3);
      s := SchedPlace(p, parent, m, w.s);
      UserMade(w.s, s, p, parent, m, w.i, i);
      r := if m == -1 then -1 else p;
    }

    method AdmitParts(parent: int, user: bool, a: int, ghost w: World) returns (p: int, ghost s: Sys, ghost i: Image)
      requires SchedIs(w.s) && mem.Is(w.i, w.env.cr3) && Inv(w.s) && (parent == -1 || IsProc(w.s, parent))
      requires |w.i.b.sp.pd| == |w.i.b.sp.live| && (a == -1 || (a >= 0 && IsLive(w.i.b.sp, a)))
      requires a == if parent == -1 || !user then -1 else w.s.ps[parent].space
      modifies sched, mem`ram, mem`mmLive, mem`mmPd, mem`mmPages, mem`owner, mem.vmas
      modifies mem.pmm`availableFrames, mem.pmm`free, mem.pmm`frameHint, mem.pmm.bitmap
      ensures SchedIs(s) && mem.Is(i, w.env.cr3) && ProcMade(w.s, s, p, parent, user, w.i, i)
    {
      s, i := w.s, w.i;
      p := SchedOpen(parent, user, w.s);
      if p == -1 {
        NothingMade(w, parent, user);
      } else if user {
        p, s, i := FitOut(p, parent, a, w);
      } else {
        SchedPlaceKernel(p, parent, w.s);
        s := AddProc(w.s, p, parent, false, -1);
      }
    }

    method Admit(parent: int, user: bool) returns (p: int)
      requires Linked() && Inv(now.s) && (parent == -1 || IsProc(now.s, parent))
      requires parent != -1 && user ==> now.s.ps[parent].space >= 0 && IsLive(now.i.b.sp, now.s.ps[parent].space)
      modifies `now, sched, mem`ram, mem`mmLive, mem`mmPd, mem`mmPages, mem`owner, mem.vmas
      modifies mem.pmm`availableFrames, mem.pmm`free, mem.pmm`frameHint, mem.pmm.bitmap
      ensures Linked() && now == old(now).(s := now.s, i := now.i)
      ensures ProcMade(old(now).s, now.s, p, parent, user, old(now).i, now.i)
    {
      MemTells();
      var a := -1;
      if user && parent != -1 {
        a := SpaceOf(parent);
      }
      ghost var s, i;
      p, s, i := AdmitParts(parent, user, a, now);
      now := now.(s := s, i := i);
    }

    method AdmitLive(parent: int, user: bool) returns (p: int)
      requires Valid() && (parent == -1 || (IsAlive(now.s, parent) && user == now.s.ps[parent].user))
      modifies `now, sched, mem`ram, mem`mmLive, mem`mmPd, mem`mmPages, mem`owner, mem.vmas
      modifies mem.pmm`availableFrames, mem.pmm`free, mem.pmm`frameHint, mem.pmm.bitmap
      ensures Valid() && now == old(now).(s := now.s, i := now.i)
      ensures ProcMade(old(now).s, now.s, p, parent, user, old(now).i, now.i)
      ensures p >= -1 && (p != -1 ==> Joined(old(now).s, now.s, p, parent, user, now.env.lists))
    {
      ghost var w := now;
      UserSpace(now.s, now.i.b.sp, parent);
      p := Admit(parent, user);
      ProcMadeKeeps(w, now.s, now.i, p, parent, user);
    }

    /** A process without a parent: a user process gets an empty address space,
        and the standard descriptors if there are entries for them. */
    method ProcAllocRoot(user: bool, stdio: int) returns (p: int)
      requires Valid() && (stdio == -1 || stdio in now.refs.oOwn)
      modifies `now, sched, files, mem`ram, mem`mmLive, mem`mmPd, mem`mmPages, mem`owner, mem.vmas
      modifies mem.pmm`availableFrames, mem.pmm`free, mem.pmm`frameHint, mem.pmm.bitmap
      ensures Valid() && ProcMade(old(now).s, now.s, p, -1, user, old(now).i, now.i)
      ensures p != -1 ==> Joined(old(now).s, now.s, p, -1, user, old(now).env.lists)
      ensures SameLoaded(old(now), now)
      ensures if p == -1 || !user then FdsIn(now) == FdsIn(old(now))
              else p >= 0 && StdioGiven(FdsIn(old(now)), FdsIn(now), p, stdio)
    {
      p := AdmitLive(-1, user);
      if p != -1 && user {
        ghost var w := now;
        StdioNow(p, stdio);
        ListKeeps(w, FdsIn(now), p);
      }
    }

    /** A child of a process: it has its parent's context, and a user process
        gets a copy of its parent's address space. */
    method ProcAllocChild(parent: nat) returns (p: int)
      requires Valid() && IsAlive(now.s, parent)
      modifies `now, sched, mem`ram, mem`mmLive, mem`mmPd, mem`mmPages, mem`owner, mem.vmas
      modifies mem.pmm`availableFrames, mem.pmm`free, mem.pmm`frameHint, mem.pmm.bitmap
      ensures Valid() && now == old(now).(s := now.s, i := now.i)
      ensures ProcMade(old(now).s, now.s, p, parent, old(now).s.ps[parent].user, old(now).i, now.i)
      ensures p >= -1
      ensures p != -1 ==> Joined(old(now).s, now.s, p, parent, old(now).s.ps[parent].user, now.env.lists)
    {
      var user := IsUser(parent);
      p := AdmitLive(parent, user);
    }

    // ---- Reaping ----

    /** A zombie child of the current process goes, with its address space,
        which is never the one that is loaded. */
    method ReapChild(c: nat)
      requires Valid() && Enabled(now.s, DoReap(c)) && now.s.ps[c].state == PZombie
      modifies `now, sched, mem`mmLive, mem`owner, mem.vmas
      modifies mem.pmm`availableFrames, mem.pmm`free, mem.pmm`frameHint, mem.pmm.bitmap
      ensures Valid() && Steps(old(now).s, DoReap(c), now.s) && now == old(now).(s := now.s, i := now.i)
      ensures SpaceGone(old(now).i, now.i, old(now).s.ps[c].space)
    {
      ghost var w := now;
      MemTells();
      ReapSpares(now, c);
      var m := SpaceOf(c);
      ReapNow(c);
      DropNow(m);
      ReapKeeps(w, c, now.i);
    }

    /** The current process blocks until a matching child exits. */
    method BlockFor(wait: Wait)
      requires Valid() && Enabled(now.s, DoBlock(wait))
      modifies `now, sched
      ensures Valid() && Steps(old(now).s, DoBlock(wait), now.s) && now == old(now).(s := now.s)
    {
      BlockKeeps(now, wait);
      BlockNow(wait);
    }

    /** One pass of waitpid, for a filter that is a pid or -1. */
    method WaitPass(wait: Wait) returns (r: WaitResult)
      requires Valid() && Acting(now.s) && IsProc(now.s, CurrentProc(now.s)) && wait != NoWait
      modifies `now, sched, mem`mmLive, mem`owner, mem.vmas
      modifies mem.pmm`availableFrames, mem.pmm`free, mem.pmm`frameHint, mem.pmm.bitmap
      ensures Valid() && now == old(now).(s := now.s, i := now.i)
      ensures WaitDone(old(now).s, now.s, CurrentProc(old(now).s), wait, r, old(now).i, now.i)
    {
      WaitpidExact(now.s, CurrentProc(now.s), wait);
      r := LookForChild(wait);
      match r
      case Reaped(c, _) => ReapChild(c);
      case NoChild =>
      case Blocks => BlockFor(wait);
    }

    /** waitpid up to the point where it returns or blocks: a filter below -1 is
        invalid. */
    method Waitpid(filter: int) returns (valid: bool, r: WaitResult)
      requires Valid() && Acting(now.s)
      modifies `now, sched, mem`mmLive, mem`owner, mem.vmas
      modifies mem.pmm`availableFrames, mem.pmm`free, mem.pmm`frameHint, mem.pmm.bitmap
      ensures Valid() && valid == (filter >= -1) && now == old(now).(s := now.s, i := now.i)
      ensures if valid then CurrentProc(old(now).s) >= 0 &&
                WaitDone(old(now).s, now.s, CurrentProc(old(now).s), WaitFor(filter), r, old(now).i, now.i)
              else now == old(now)
      ensures valid ==> Answers(old(now).s, CurrentProc(old(now).s), filter, r)
      ensures valid && r.Reaped? ==> filter == -1 || r.pid == filter
      ensures valid && r == Blocks ==> WaitsNow(old(now).s, now.s, filter)
    {
      ActingHasProc(now.s);
      valid := filter >= -1;
      r := NoChild;
      if valid {
        r := WaitPass(if filter == -1 then AnyChild else Child(filter));
        WaitDoneMeans(old(now).s, now.s, CurrentProc(old(now).s), filter, r, old(now).i, now.i);
      }
    }

    // ---- Fork ----

    /** A thread and descriptors for the child. */
    method CloneFork(parent: nat, child: nat) returns (t: int, ok: bool)
      requires Valid() && IsAlive(now.s, child) && parent < |now.s.ps| && parent != child
      requires |now.env.lists| == |now.s.ps| && now.env.lists[child] == []
      modifies `now, sched, files
      ensures Valid() && SameLoaded(old(now), now) && now.i == old(now).i
      ensures ChildCloned(old(now).s, now.s, t, FdsIn(old(now)), FdsIn(now), parent, child, ok)
    {
      ghost var w := now;
      FilesTell();
      t := ThreadNow(child);
      ThreadedKeeps(w, now.s, t, child);
      ok := false;
      if t == -1 {
        NotCloned(w.s, FdsIn(w), parent, child);
      } else {
        ghost var w1 := now;
        ok := FdsNow(parent, child);
        ListKeeps(w1, FdsIn(now), child);
      }
    }

    method UnforkBoth(t: int, c: nat, ghost w0: World)
      requires Linked() && c < |now.s.ps| && Spare(now, now.s.ps[c].space) && now.i.b.limbo == {}
      requires HalfForkedIn(now.s, t, c, CurrentProc(w0.s), ForksUser(w0.s), now.s.ps[c].space, w0.s)
      modifies `now, sched, mem`mmLive, mem`owner, mem.vmas
      modifies mem.pmm`availableFrames, mem.pmm`free, mem.pmm`frameHint, mem.pmm.bitmap
      ensures Linked() && TakenDown(w0, old(now), now, c)
    {
      var m := SpaceOf(c);
      UnforkNow(t, c, CurrentProc(w0.s), ForksUser(w0.s), m, w0.s);
      DropNow(m);
    }

    lemma UnforkReady(t: int, c: nat, w0: World, s1: Sys)
      requires Valid() && Forking(w0.s, s1, now.s, c, t, w0.i, now.i, now.env)
      ensures c < |now.s.ps| && Spare(now, now.s.ps[c].space) && now.i.b.limbo == {}
      ensures HalfForkedIn(now.s, t, c, CurrentProc(w0.s), ForksUser(w0.s), now.s.ps[c].space, w0.s)
    {
      MemTells();
      ForkFailReady(w0, s1, now, c, t);
    }

    /** A fork that fails takes its child down again. */
    method Unfork(t: int, c: nat, ghost w0: World, ghost s1: Sys)
      requires Valid() && Forking(w0.s, s1, now.s, c, t, w0.i, now.i, now.env)
      modifies `now, sched, mem`mmLive, mem`owner, mem.vmas
      modifies mem.pmm`availableFrames, mem.pmm`free, mem.pmm`frameHint, mem.pmm.bitmap
      ensures Valid() && now == old(now).(s := now.s, i := now.i) && ForkDone(w0.s, now.s, c, w0.i, now.i, false)
    {
      ghost var w := now;
      UnforkReady(t, c, w0, s1);
      UnforkBoth(t, c, w0);
      UnforkKeeps(w0, s1, w, now, c, t);
    }

    method TryFork(parent: nat, c: nat, ghost w0: World) returns (t: int, ok: bool)
      requires Valid() && Forking(w0.s, now.s, now.s, c, -1, w0.i, now.i, now.env) && parent == CurrentProc(w0.s)
      modifies `now, sched, files
      ensures Valid() && SameLoaded(old(now), now) && now.i == old(now).i
      ensures ChildCloned(old(now).s, now.s, t, FdsIn(old(now)), FdsIn(now), parent, c, ok)
      ensures ForkTried(w0.s, old(now).s, now.s, c, t, w0.i, now.i, now.env, ok)
    {
      ghost var w := now;
      ForkingFacts(w0.s, now.s, c, w0.i, now.i, now.env);
      t, ok := CloneFork(parent, c);
      TriedIs(w0.s, w.s, now.s, c, t, w0.i, w.i, w.env, FdsIn(w), FdsIn(now), parent, ok);
      assert now.env == w.env.(lists := now.env.lists);
    }

    /** Gives the child a thread and descriptors, or takes it down again. */
    method FinishFork(parent: nat, c: nat, ghost w0: World) returns (ok: bool)
      requires Valid() && Forking(w0.s, now.s, now.s, c, -1, w0.i, now.i, now.env) && parent == CurrentProc(w0.s)
      modifies `now, sched, files, mem`mmLive, mem`owner, mem.vmas
      modifies mem.pmm`availableFrames, mem.pmm`free, mem.pmm`frameHint, mem.pmm.bitmap
      ensures Valid() && SameLoaded(old(now), now)
      ensures ForkOver(w0.s, old(now).s, now.s, c, w0.i, now.i, FdsIn(old(now)), FdsIn(now), ok)
    {
      ghost var w1 := now;
      var t;
      t, ok := TryFork(parent, c, w0);
      ghost var w2 := now;
      if !ok {
        Unfork(t, c, w0, w1.s);
      }
      ForkIsOver(w0.s, w1.s, w2.s, now.s, c, t, w0.i, now.i, FdsIn(w1), FdsIn(w2), ok);
    }

    method ForkInto(parent: nat, c: nat, ghost w0: World) returns (pid: int)
      requires Valid() && Forking(w0.s, now.s, now.s, c, -1, w0.i, now.i, now.env) && parent == CurrentProc(w0.s)
      requires c < |now.env.lists| && now.env.lists[c] == []
      modifies `now, sched, files, mem`mmLive, mem`owner, mem.vmas
      modifies mem.pmm`availableFrames, mem.pmm`free, mem.pmm`frameHint, mem.pmm.bitmap
      ensures Valid() && SameLoaded(old(now), now)
      ensures ForkResult(w0.s, now.s, pid, w0.i, now.i, FdsIn(old(now)), FdsIn(now))
    {
      ghost var w1 := now;
      var ok := FinishFork(parent, c, w0);
      ForkResultIs(w0.s, w1.s, now.s, c, ok, w0.i, w1.i, now.i, w1.env, FdsIn(w1), FdsIn(now));
      pid := if ok then c else -1;
    }

    method ForkOnce() returns (pid: int)
      requires Valid() && Acting(now.s)
      modifies `now, sched, files, mem`ram, mem`mmLive, mem`mmPd, mem`mmPages, mem`owner, mem.vmas
      modifies mem.pmm`availableFrames, mem.pmm`free, mem.pmm`frameHint, mem.pmm.bitmap
      ensures Valid() && SameLoaded(old(now), now)
      ensures ForkResult(old(now).s, now.s, pid, old(now).i, now.i, FdsIn(old(now)), FdsIn(now))
    {
      ghost var w := now;
      ActingHasProc(now.s);
      FilesTell();
      var parent := Caller();
      pid := ProcAllocChild(parent);
      if pid == -1 {
        NoForkIs(w.s, now.s, w.i, now.i, FdsIn(w));
      } else {
        ForkingStarts(w.s, now.s, pid, w.i, now.i, now.env);
        pid := ForkInto(parent, pid, w);
      }
    }

    /** fork: a child of the current process that is its copy, or -1 (EAGAIN) and
        nothing has changed. */
    method Fork() returns (pid: int)
      requires Valid() && Acting(now.s)
      modifies `now, sched, files, mem`ram, mem`mmLive, mem`mmPd, mem`mmPages, mem`owner, mem.vmas
      modifies mem.pmm`availableFrames, mem.pmm`free, mem.pmm`frameHint, mem.pmm.bitmap
      ensures Valid() && SameLoaded(old(now), now)
      ensures ForkResult(old(now).s, now.s, pid, old(now).i, now.i, FdsIn(old(now)), FdsIn(now))
      ensures pid == -1 ==> mem.vmas.used == old(mem.vmas.used)
      ensures MapsKernel(now.i.b, now.env.cr3) && KernelKept(old(now).i.b, now.i.b)
    {
      UsedTells();
      KernelIsApart();
      pid := ForkOnce();
      UsedTells();
      KernelIsApart();
      KernelIsMapped();
      ForkKeepsKernel(old(now).s, now.s, pid, old(now).i, now.i, FdsIn(old(now)), FdsIn(now));
    }

    // ---- Exec ----

    /** The point of no return. */
    method CommitExec(m: nat, ghost image: seq<nat>, ghost w: World)
      requires Linked() && now == w.(i := now.i) && Staged(w.i, now.i, m, image)
      requires Whole(w) && Acting(w.s) && ForksUser(w.s)
      modifies `now, sched, mem`cr3, mem`mmLive, mem`owner, mem.vmas
      modifies mem.pmm`availableFrames, mem.pmm`free, mem.pmm`frameHint, mem.pmm.bitmap
      ensures Valid() && ExecDone(w.s, now.s, m, w.i, now.i, image) && FdsIn(now) == FdsIn(w)
    {
      ghost var i1 := now.i;
      MemTells();
      ExecGoesReady(w, i1, m, image);
      var p := Caller();
      var was := SpaceOf(p);
      MoveNow(m);
      MoveMemNow(was, m);
      ExecGoes(w, i1, now.i, m, image);
    }

    /** Stages and commits, for a user process. */
    method ExecUser(image: seq<nat>) returns (status: Loading.ExecStatus, m: int)
      requires Valid() && Acting(now.s) && ForksUser(now.s) && IsBytes(image)
      modifies `now, sched, mem`cr3, mem`ram, mem`mmLive, mem`mmPd, mem`mmPages, mem`owner, mem.vmas
      modifies mem.pmm`availableFrames, mem.pmm`free, mem.pmm`frameHint, mem.pmm.bitmap
      ensures Valid() && ExecDone(old(now).s, now.s, m, old(now).i, now.i, image) && FdsIn(now) == FdsIn(old(now))
      ensures ExecAnswer(status, m, image)
    {
      ghost var w := now;
      status, m := StageNow(image);
      if m == -1 {
        ExecFails(w, now.i, image);
      } else {
        CommitExec(m, image, w);
      }
    }

    /** execve, from the check of the caller's context on. */
    method Execve(image: seq<nat>) returns (status: Loading.ExecStatus, m: int)
      requires Valid() && Acting(now.s) && IsBytes(image)
      modifies `now, sched, mem`cr3, mem`ram, mem`mmLive, mem`mmPd, mem`mmPages, mem`owner, mem.vmas
      modifies mem.pmm`availableFrames, mem.pmm`free, mem.pmm`frameHint, mem.pmm.bitmap
      ensures Valid() && FdsIn(now) == FdsIn(old(now))
      ensures if !ForksUser(old(now).s) then status == Loading.NotPermitted && m == -1 && now == old(now)
              else
                && ExecDone(old(now).s, now.s, m, old(now).i, now.i, image)
                && (m != -1 <==> status == Loading.ExecOk)
                && (status == Loading.NoExec <==> image == []) && (status == Loading.TooBig <==> |image| > PAGE_BYTES)
                && (status == Loading.OutOfMemory <==> 0 < |image| <= PAGE_BYTES && !CanExec(old(now).i, image))
      ensures m == -1 ==> mem.vmas.used == old(mem.vmas.used)
      ensures MapsKernel(now.i.b, now.env.cr3) && KernelKept(old(now).i.b, now.i.b)
      ensures m != -1 ==> m >= 0 && forall o: nat :: o < 0x1000 ==> ImageByte(now.i.b.sp, m, image, o)
    {
      UsedTells();
      KernelIsApart();
      KernelIsMapped();
      ActingHasProc(now.s);
      var p := Caller();
      var user := IsUser(p);
      if !user {
        return Loading.NotPermitted, -1;
      }
      status, m := ExecUser(image);
      UsedTells();
      KernelIsApart();
      KernelIsMapped();
      ExecKeepsKernel(old(now).s, now.s, m, old(now).i, now.i, image);
      if m != -1 { ImageTells(m, image); }
    }
  }
}
