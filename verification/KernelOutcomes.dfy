/** What system calls that change several tables come to, as relations between
    the state before and the state after. Each is stated as one fact, so that
    callers pass it on whole. */
module KernelOutcomes {
  import opened SlotPool
  import opened SchedModel
  import opened SchedInv
  import opened SchedRuns
  import opened NoLostWakeup
  import opened Reaping
  import opened ActiveSpace
  import opened Undoing
  import opened PageTables
  import opened PageBytes
  import opened FrameBooks
  import opened CloneBooks
  import opened SpaceAreas
  import opened Vmas
  import opened AddressSpaces
  import FileRefs
  import Files
  import opened KernelTies

  /** The descriptor tables as a value. */
  datatype Fds = Fds(refs: FileRefs.Refs, lists: seq<seq<nat>>)

  /** The kernel as a value: the scheduler, memory, what both are tied to, and the
      reference counts of open files. */
  datatype World = World(s: Sys, i: Image, env: Env, refs: FileRefs.Refs)

  function FdsIn(w: World): Fds { Fds(w.refs, w.env.lists) }

  /** The scheduler is consistent, and tied to memory and descriptors. */
  ghost predicate Whole(w: World) { true == (Inv(w.s) && SpacesInv(w.s) && Tied(w.s, w.i.b.sp, w.env)) }

  /** Address space m, if any, is live and not loaded. */
  predicate Spare(w: World, m: int) {
    true == (m == -1 || (m >= 0 && IsLive(w.i.b.sp, m) && w.env.cr3 != w.i.b.sp.pd[m]))
  }

  /** The same kernel with other descriptors. */
  function WithFds(w: World, d: Fds): (r: World)
    ensures FdsIn(r) == d
  {
    w.(env := w.env.(lists := d.lists), refs := d.refs)
  }

  /** The same directory is loaded. */
  predicate SameLoaded(w: World, w': World) { w'.env == w.env.(lists := w'.env.lists) }

  /** Memory after a store of user code in address space m. */
  function Stored(i: Image, m: nat, st: Store): Image {
    i.(b := i.b.(sp := WriteUser(i.b.sp, m, st.i, st.j, st.k, st.w)))
  }

  // ---- Steps of the scheduler ----

  lemma TickKeeps(w: World)
    requires Whole(w)
    ensures Whole(w.(s := Tick(w.s)))
  {
    TickInv(w.s);
    TickLoads(w.s);
    QuietTies(w.s, Tick(w.s), w.i.b.sp, w.env);
  }

  /** After a switch CR3 must follow, if the new process has an address space. */
  lemma SwitchKeeps(w: World)
    requires Whole(w)
    ensures var s := Switch(w.s);
      && IsThread(s, s.current) && IsProc(s, s.ts[s.current].proc)
      && var m := s.ps[s.ts[s.current].proc].space;
         if m == -1 then Whole(w.(s := s))
         else m >= 0 && IsLive(w.i.b.sp, m) && Whole(w.(s := s, env := w.env.(cr3 := w.i.b.sp.pd[m])))
  {
    SwitchInv(w.s);
    SwitchLoads(w.s);
    SwitchTies(w.s, w.i.b.sp, w.env);
  }

  lemma YieldKeeps(w: World)
    requires Whole(w)
    ensures Whole(w.(s := w.s.(pending := true)))
  {
    YieldSettles(w.s, w.i.b.sp, w.env);
  }

  lemma SleepKeeps(w: World, n: nat)
    requires Whole(w) && Acting(w.s)
    ensures Steps(w.s, DoSleep(n), Sleep(w.s, n)) && Whole(w.(s := Sleep(w.s, n)))
  {
    SleepSettles(w.s, n, w.i.b.sp, w.env);
    StepInv(w.s, DoSleep(n));
  }

  lemma BlockKeeps(w: World, wait: Wait)
    requires Whole(w) && Enabled(w.s, DoBlock(wait))
    ensures Steps(w.s, DoBlock(wait), Block(w.s, wait)) && Whole(w.(s := Block(w.s, wait)))
  {
    BlockSettles(w.s, wait, w.i.b.sp, w.env);
    StepInv(w.s, DoBlock(wait));
  }

  /** A process that goes with its last thread gives up its descriptors. */
  lemma ExitKeeps(w: World, code: int, d: Fds)
    requires Whole(w) && Acting(w.s) && CanExit(w.s)
    requires var p := w.s.ts[w.s.current].proc; FdsClosed(FdsIn(w), d, p, w.s.ps[p].live == 1)
    ensures Steps(w.s, DoExit(code), Exit(w.s, code))
    ensures Whole(WithFds(w.(s := Exit(w.s, code)), d))
  {
    ExitSettles(w.s, code, w.i.b.sp, w.env);
    StepInv(w.s, DoExit(code));
    assert w.env == w.env.(lists := w.env.lists);
  }

  lemma StoreKeeps(w: World, m: nat, st: Store)
    requires Whole(w) && Owned(w.i.b.sp, w.i.b.owner)
    ensures Whole(w.(i := Stored(w.i, m, st)))
  {
    StoreTies(w.s, w.i.b, w.env, m, st);
  }

  // ---- Memory ----

  /** The areas and records of address space m are new. */
  ghost predicate AreasAdded(i0: Image, i: Image, m: nat) {
    && m < |i0.areas| == |i.areas| && i0.areas[m] == [] && i.areas == i0.areas[m := i.areas[m]]
    && m < |i0.slots| == |i.slots| && i0.slots[m] == [] && i.slots == i0.slots[m := i.slots[m]]
    && i.pool == i0.pool
  }

  /** There is room for a new address space, a copy of a if there is an a. */
  ghost predicate CanMake(i: Image, a: int) {
    if a == -1 then i.b.free != {} && FreeSlots(i.b.sp.live) != {}
    else a >= 0 && CanClone(i.b, i.areas, InUse(i.slots, i.pool), a)
  }

  /** A new address space, with the pages and areas of a if there is an a; or,
      if there is no room for it, nothing has changed. */
  ghost predicate SpaceMade(i0: Image, i: Image, a: int, m: int) {
    true ==
    if m == -1 then
      AsBefore(i0, i) && !CanMake(i0, a)
    else
      && CanMake(i0, a)
      && m >= 0 && IsLive(i.b.sp, m) && Atop(i0.b, i.b, m) && AreasAdded(i0, i, m)
      && (if a == -1 then i.areas[m] == []
          else 0 <= a < |i0.areas| && IsLive(i0.b.sp, a) && SameUser(i.b.sp, a, m) && i.areas[m] == i0.areas[a])
  }

  /** An address space that is not live has neither areas nor records. */
  lemma DeadIsBare(sp: Space, areas: seq<seq<Vma>>, m: nat)
    requires AreasOk(sp, areas) && m < |sp.live| && !sp.live[m]
    ensures m < |areas| && areas[m] == []
  {
    assert OneSpace(sp, m, areas[m]);
  }

  lemma ClonedIsMade(i0: Image, i: Image, a: nat, m: nat)
    requires Cloned(i0, i, a, m, true) && CanMake(i0, a) && AreasOk(i0.b.sp, i0.areas) && Recorded(i0)
    ensures SpaceMade(i0, i, a, m)
  {
    DeadIsBare(i0.b.sp, i0.areas, m);
    assert IsLive(i0.b.sp, a);
  }

  lemma CreatedIsMade(i0: Image, i: Image, cr3: nat, m: nat)
    requires NewIn(i0, i, cr3, m) && CanMake(i0, -1)
    ensures SpaceMade(i0, i, -1, m)
  {
  }

  /** Address space m is gone, with its frames, its areas and their records. */
  ghost predicate SpaceGone(i0: Image, i: Image, m: int) {
    true ==
    if m == -1 then i == i0
    else
      0 <= m < |i0.b.sp.live| && m < |i0.areas| && m < |i0.slots| && i == GoneFrom(i0, m)
  }

  /** Taking the new address space down again leaves things as they were. */
  lemma MadeAndGone(i0: Image, i1: Image, i: Image, a: int, m: nat)
    requires SpaceMade(i0, i1, a, m) && i1.b.limbo == {} && SpaceGone(i1, i, m)
    ensures AsBefore(i0, i) && SameLive(i0.b.sp, i.b.sp)
  {
    GoneUndoesAtop(i0.b, i1.b, m);
    assert i0.areas[m := i1.areas[m]][m := []] == i0.areas;
    assert i0.slots[m := i1.slots[m]][m := []] == i0.slots;
  }

  lemma SelfAsBefore(i: Image)
    requires |i.b.sp.pd| == |i.b.sp.live|
    ensures AsBefore(i, i) && SameLive(i.b.sp, i.b.sp)
  {
  }

  /** Directory pd has the same upper half as directory k, word for word. */
  predicate SharesUpper(ram: seq<Page>, pd: nat, k: nat) {
    pd < |ram| && k < |ram| && forall i :: 768 <= i < 1024 ==> ram[pd][i] == ram[k][i]
  }

  /** The kernel is mapped by the directory that is loaded, and by those of all
      address spaces. */
  ghost predicate MapsKernel(b: Books, cr3: nat) {
    true == (&& SharesUpper(b.sp.ram, cr3, b.kernelPd)
             && forall m: nat :: IsLive(b.sp, m) ==> SharesUpper(b.sp.ram, b.sp.pd[m], b.kernelPd))
  }

  /** The kernel's own directory is what it was. */
  ghost predicate KernelKept(b0: Books, b: Books) {
    true == (&& b.kernelPd == b0.kernelPd < |b0.sp.ram| == |b.sp.ram|
             && b.sp.ram[b.kernelPd] == b0.sp.ram[b0.kernelPd])
  }

  // ---- New processes ----

  /** There is room for a process with its address space. */
  ghost predicate CanAdmit(s: Sys, i: Image, parent: int, user: bool) {
    && !NoProcSlot(s.ps) && -1 <= parent < |s.ps|
    && (user ==> CanMake(i, if parent == -1 then -1 else s.ps[parent].space))
  }

  /** A process p from state s, in s', with its address space; or, if there is no
      room for it, nothing. */
  ghost predicate ProcMade(s: Sys, s': Sys, p: int, parent: int, user: bool, i0: Image, i: Image) {
    true ==
    if p == -1 then
      SameSystem(s, s') && AsBefore(i0, i) && !CanAdmit(s, i0, parent, user)
    else
      && CanAdmit(s, i0, parent, user) && 0 <= p < |s.ps| == |s'.ps| && !s.ps[p].inuse && Sized(s)
      && -1 <= parent < |s.ps|
      && s' == AddProc(s, p, parent, user, s'.ps[p].space)
      && (if user then
            s'.ps[p].space != -1 && SpaceMade(i0, i, if parent == -1 then -1 else s.ps[parent].space, s'.ps[p].space)
          else s'.ps[p].space == -1 && i == i0)
  }

  /** A user process is listed with its address space, or not at all. */
  ghost predicate Placed(s: Sys, s': Sys, p: nat, parent: int, m: int) {
    true ==
    if m == -1 then SameSystem(s, s')
    else Sized(s) && p < |s.ps| && -1 <= parent < |s.ps| && s' == AddProc(s, p, parent, true, m)
  }

  lemma UserMade(s: Sys, s': Sys, p: nat, parent: int, m: int, i0: Image, i: Image)
    requires Sized(s) && p < |s.ps| && !s.ps[p].inuse && -1 <= parent < |s.ps| && m >= -1
    requires SpaceMade(i0, i, if parent == -1 then -1 else s.ps[parent].space, m) && Placed(s, s', p, parent, m)
    ensures ProcMade(s, s', if m != -1 then p else -1, parent, true, i0, i)
  {
  }

  /** Process p is new, alive and without descriptors. */
  ghost predicate Joined(s: Sys, s': Sys, p: int, parent: int, user: bool, lists: seq<seq<nat>>) {
    true == (&& 0 <= p < |s'.ps| == |lists| && IsAlive(s', p) && lists[p] == []
             && Steps(s, NewProc(p, parent, user, s'.ps[p].space), s'))
  }

  lemma ProcMadeSettles(s: Sys, s': Sys, p: int, parent: int, user: bool, i0: Image, i: Image, env: Env)
    requires Inv(s) && SpacesInv(s) && Tied(s, i0.b.sp, env) && (parent == -1 || IsAlive(s, parent))
    requires (parent != -1 ==> user == s.ps[parent].user) && ProcMade(s, s', p, parent, user, i0, i)
    ensures SpacesInv(s') && Tied(s', i.b.sp, env)
    ensures p != -1 ==> Joined(s, s', p, parent, user, env.lists)
  {
    if p == -1 {
      SameSystemSpaces(s, s');
      SameSystemTies(s, s', i0.b.sp, i.b.sp, env);
    } else {
      var m := s'.ps[p].space;
      if user { NewIsFresh(s, i0.b.sp, m); }
      assert Enabled(s, NewProc(p, parent, user, m));
      NewProcLoads(s, p, parent, user, m);
      if s.loaded != -1 { LoadedLives(s, i0.b.sp); }
      NewProcTies(s, p, parent, user, m, i0.b, i.b, env);
    }
  }

  lemma ProcMadeKeeps(w: World, s: Sys, i: Image, p: int, parent: int, user: bool)
    requires Whole(w) && (parent == -1 || (IsAlive(w.s, parent) && user == w.s.ps[parent].user))
    requires ProcMade(w.s, s, p, parent, user, w.i, i)
    ensures Whole(w.(s := s, i := i)) && (p != -1 ==> Joined(w.s, s, p, parent, user, w.env.lists))
  {
    ProcMadeSettles(w.s, s, p, parent, user, w.i, i, w.env);
    if p == -1 { SameSystemInv(w.s, s); } else { StepInv(w.s, NewProc(p, parent, user, s.ps[p].space)); }
  }

  lemma NothingMade(w: World, parent: int, user: bool)
    requires Inv(w.s) && NoProcSlot(w.s.ps) && |w.i.b.sp.pd| == |w.i.b.sp.live|
    ensures ProcMade(w.s, w.s, -1, parent, user, w.i, w.i)
  {
    SelfAsBefore(w.i);
    SameSystemSelf(w.s);
  }

  // ---- Descriptors ----

  /** A live process's descriptors may change. */
  lemma ListKeeps(w: World, d: Fds, p: nat)
    requires Whole(w) && IsAlive(w.s, p) && p < |d.lists| && d.lists == w.env.lists[p := d.lists[p]]
    ensures Whole(WithFds(w, d))
  {
    FdsGrow(w.s, w.env.lists, p, d.lists[p]);
  }

  /** Descriptors as a fork leaves them: the child's are the parent's, or
      everything is as before. */
  ghost predicate FdsForked(d0: Fds, d: Fds, parent: nat, child: nat, ok: bool) {
    true == (&& parent < |d0.lists| == |d.lists| && child < |d0.lists| && d.lists == d0.lists[child := d.lists[child]]
             && FileRefs.OnTop(d0.refs, d.refs, d.lists[child])
             && (if ok then
                   && |d.lists[child]| == |d0.lists[parent]|
                   && Files.CopyOf(d.refs.eOf, d.refs.eLocal, d0.lists[parent], d.lists[child])
                 else d.lists == d0.lists))
  }

  lemma NoneForked(d: Fds, parent: nat, child: nat)
    requires FileRefs.Exact(d.refs, {}) && parent < |d.lists| && child < |d.lists| && d.lists[child] == []
    ensures FdsForked(d, d, parent, child, false)
  {
    assert d.lists[child := d.lists[child]] == d.lists;
  }

  /** Descriptors and reference counts are what they were. */
  ghost predicate FdsKept(d0: Fds, d: Fds) { d.lists == d0.lists && FileRefs.OnTop(d0.refs, d.refs, []) }

  /** Process p has standard input, output and error on one open file, or, with
      too few free entries, no descriptors at all. */
  ghost predicate StdioGiven(d0: Fds, d: Fds, p: nat, stdio: int) {
    true == (&& p < |d0.lists| == |d.lists| && d.lists == d0.lists[p := d.lists[p]]
             && FileRefs.OnTop(d0.refs, d.refs, d.lists[p])
             && (if |FreeSlots(d0.refs.eUsed)| < 3 then d.lists[p] == []
                 else Files.ThreeOn(d.refs.eOf, d.refs.eLocal, d.lists[p], stdio)))
  }

  /** If this was its last thread, process p has given up its descriptors. What
      is left is as it was. */
  ghost predicate FdsClosed(d0: Fds, d: Fds, p: nat, last: bool) {
    true == if last then
              && p < |d0.lists| && d.lists == d0.lists[p := []]
              && Files.FilesKept(d0.refs, d.refs) && Files.EntriesKept(d0.refs, d.refs, d.lists)
            else d == d0
  }

  // ---- Reaping ----

  /** What there is to know of a reap before it happens. */
  lemma ReapSettles(s: Sys, c: nat, i0: Image, i: Image, env: Env)
    requires Enabled(s, DoReap(c)) && s.ps[c].state == PZombie && SpacesInv(s) && Tied(s, i0.b.sp, env)
    requires SpaceGone(i0, i, s.ps[c].space)
    ensures Steps(s, DoReap(c), Reap(s, c)) && SpacesInv(Reap(s, c)) && Tied(Reap(s, c), i.b.sp, env)
  {
    ReapLoads(s, c);
    ReapTies(s, c, i0.b.sp, i.b.sp, env);
  }

  lemma ReapSpares(w: World, c: nat)
    requires Whole(w) && Enabled(w.s, DoReap(c)) && Owned(w.i.b.sp, w.i.b.owner)
    ensures Spare(w, w.s.ps[c].space)
  {
    if w.s.ps[c].space != -1 { ReapedSpace(w.s, c, w.i.b, w.env); }
  }

  lemma ReapKeeps(w: World, c: nat, i: Image)
    requires Whole(w) && Enabled(w.s, DoReap(c)) && w.s.ps[c].state == PZombie && SpaceGone(w.i, i, w.s.ps[c].space)
    ensures Steps(w.s, DoReap(c), Reap(w.s, c)) && Whole(w.(s := Reap(w.s, c), i := i))
  {
    ReapSettles(w.s, c, w.i, i, w.env);
    StepInv(w.s, DoReap(c));
  }

  /** The pid that waitpid is given, as what a thread waits for. */
  function WaitFor(filter: int): Wait
    requires filter >= -1
  {
    if filter == -1 then AnyChild else Child(filter)
  }

  /** What one pass of waitpid comes to: it reaps a matching zombie, with its
      address space, or finds no matching child, or blocks. */
  ghost predicate WaitDone(s: Sys, s': Sys, p: nat, wait: Wait, r: WaitResult, i0: Image, i: Image) {
    true == (&& Inv(s) && p < |s.ps| && r == WaitResultOf(s, p, wait)
             && match r
                case Reaped(c, _) => Steps(s, DoReap(c), s') && c < |s.ps| && SpaceGone(i0, i, s.ps[c].space)
                case NoChild => s' == s && !HasMatch(s.children[p], wait) && i == i0
                case Blocks => Steps(s, DoBlock(wait), s') && i == i0)
  }

  /** What waitpid answers, said of the pid it is given. */
  ghost predicate Answers(s: Sys, p: int, filter: int, r: WaitResult) {
    true == (Sized(s) && 0 <= p < |s.ps| && WaitAnswer(s, p, filter, r))
  }

  /** The current thread has become the first waiter of its process, for the
      child with this pid, or for any if it is -1. */
  predicate WaitsNow(s: Sys, s': Sys, filter: int) {
    true == (&& 0 <= s.current < |s.ts| && 0 <= s.ts[s.current].proc < |s.waiters|
             && var t, p := s.current, s.ts[s.current].proc;
                && s'.waiters == s.waiters[p := [t] + s.waiters[p]]
                && |s'.ts| == |s.ts| && s'.ts[t].state == Blocked
                && (filter == -1 ==> s'.ts[t].wait == AnyChild)
                && (filter >= 0 ==> s'.ts[t].wait == Child(filter)))
  }

  lemma WaitDoneMeans(s: Sys, s': Sys, p: nat, filter: int, r: WaitResult, i0: Image, i: Image)
    requires filter >= -1 && WaitDone(s, s', p, WaitFor(filter), r, i0, i) && IsProc(s, p) && p == CurrentProc(s)
    ensures Answers(s, p, filter, r) && (r == Blocks ==> WaitsNow(s, s', filter))
    ensures r.Reaped? ==> filter == -1 || r.pid == filter
  {
    WaitpidAnswers(s, p, filter);
  }

  // ---- Fork ----

  /** Process p has got thread t, or none. */
  ghost predicate Threaded(s: Sys, s': Sys, t: int, p: nat) {
    true == if t == -1 then s' == s else t >= 0 && Steps(s, NewThread(t, p), s')
  }

  /** There are as many free descriptors as process p has. */
  ghost predicate FdsFit(d: Fds, p: int) { 0 <= p < |d.lists| && |d.lists[p]| <= |FreeSlots(d.refs.eUsed)| }

  /** There is room for a child of the current process: a process slot, an address
      space, a thread slot and descriptors. */
  ghost predicate CanFork(s: Sys, i: Image, d: Fds) {
    && CanAdmit(s, i, CurrentProc(s), ForksUser(s)) && CurrentProc(s) >= 0
    && !NoThreadSlot(s.ts) && FdsFit(d, CurrentProc(s))
  }

  lemma ThreadedKeeps(w: World, s: Sys, t: int, p: nat)
    requires Whole(w) && Threaded(w.s, s, t, p) && IsAlive(w.s, p)
    ensures Whole(w.(s := s)) && IsAlive(s, p) && |s.ps| == |w.s.ps|
  {
    if t != -1 {
      NewThreadSettles(w.s, t, p, w.i.b.sp, w.env);
      StepInv(w.s, NewThread(t, p));
    }
  }

  /** The child has got a thread and the parent's descriptors, or not both; it has
      both exactly if there is room for them. */
  ghost predicate ChildCloned(s: Sys, s': Sys, t: int, d0: Fds, d: Fds, parent: nat, child: nat, ok: bool) {
    true == (&& Threaded(s, s', t, child) && (ok ==> t != -1) && FdsForked(d0, d, parent, child, ok)
             && (ok <==> !NoThreadSlot(s.ts) && FdsFit(d0, parent)))
  }

  lemma NotCloned(s: Sys, d: Fds, parent: nat, child: nat)
    requires FileRefs.Exact(d.refs, {}) && parent < |d.lists| && child < |d.lists| && d.lists[child] == []
    requires NoThreadSlot(s.ts)
    ensures ChildCloned(s, s, -1, d, d, parent, child, false)
  {
    NoneForked(d, parent, child);
  }

  /** The context that the current process hands down. */
  predicate ForksUser(s: Sys) { IsProc(s, CurrentProc(s)) && s.ps[CurrentProc(s)].user }

  /** The child c of the current process is ready to run, in two steps of the
      scheduler. */
  ghost predicate Forked(s: Sys, s': Sys, c: int) {
    true == (&& 0 <= c < |s'.ps| == |s.ps| && Sized(s) && Sized(s') && 0 <= CurrentProc(s) < |s.ps|
             && |s'.members[c]| == 1
             && var m := s'.ps[c].space;
                var s1 := AddProc(s, c, CurrentProc(s), ForksUser(s), m);
                && Steps(s, NewProc(c, CurrentProc(s), ForksUser(s), m), s1)
                && Steps(s1, NewThread(s'.members[c][0], c), s'))
  }

  lemma ForkedIs(s: Sys, s1: Sys, s': Sys, c: nat, t: int, lists: seq<seq<nat>>)
    requires Joined(s, s1, c, CurrentProc(s), ForksUser(s), lists) && 0 <= CurrentProc(s) && t != -1
    requires Threaded(s1, s', t, c)
    ensures Forked(s, s', c)
  {
    UnusedIsBare(s, c);
    assert s1.members[c] == [];
  }

  /** Process c has been made from s0 by way of s1, and a thread for it, or not. */
  ghost predicate Forking(s0: Sys, s1: Sys, s: Sys, c: nat, t: int, i0: Image, i1: Image, env: Env) {
    true == (&& Acting(s0) && Inv(s0) && SpacesInv(s0) && Tied(s0, i0.b.sp, env)
             && Joined(s0, s1, c, CurrentProc(s0), ForksUser(s0), env.lists) && Threaded(s1, s, t, c)
             && ProcMade(s0, s1, c, CurrentProc(s0), ForksUser(s0), i0, i1))
  }

  lemma ForkingStarts(s0: Sys, s1: Sys, c: nat, i0: Image, i1: Image, env: Env)
    requires Acting(s0) && Inv(s0) && SpacesInv(s0) && Tied(s0, i0.b.sp, env)
    requires Joined(s0, s1, c, CurrentProc(s0), ForksUser(s0), env.lists)
    requires ProcMade(s0, s1, c, CurrentProc(s0), ForksUser(s0), i0, i1)
    ensures Forking(s0, s1, s1, c, -1, i0, i1, env) && c < |env.lists| && env.lists[c] == []
  {
  }

  /** What to know of the child before it gets a thread and descriptors. */
  lemma ForkingFacts(s0: Sys, s1: Sys, c: nat, i0: Image, i1: Image, env: Env)
    requires Forking(s0, s1, s1, c, -1, i0, i1, env)
    ensures IsAlive(s1, c) && 0 <= CurrentProc(s0) < |s1.ps| == |env.lists| && CurrentProc(s0) != c
    ensures env.lists[c] == []
  {
    ActingHasProc(s0);
  }

  /** Before a failed fork is undone: the child's space is not loaded. */
  lemma ForkFailReady(w0: World, s1: Sys, w: World, c: nat, t: int)
    requires Forking(w0.s, s1, w.s, c, t, w0.i, w.i, w.env) && Whole(w) && Owned(w.i.b.sp, w.i.b.owner)
    ensures c < |w.s.ps| && HalfForkedIn(w.s, t, c, CurrentProc(w0.s), ForksUser(w0.s), w.s.ps[c].space, w0.s)
    ensures Spare(w, w.s.ps[c].space)
  {
    ActingHasProc(w0.s);
    assert w.s.ps[c].space == s1.ps[c].space;
    if w.s.ps[c].space != -1 { OtherNotLoaded(w.s, c, w.i.b, w.env); }
  }

  lemma ForkFailSettles(s0: Sys, s1: Sys, s: Sys, s': Sys, c: nat, t: int, i0: Image, i1: Image, i: Image, env: Env)
    requires Forking(s0, s1, s, c, t, i0, i1, env) && SameSystem(s0, s')
    requires c < |s.ps| && SpaceGone(i1, i, s.ps[c].space) && i1.b.limbo == {}
    ensures SpacesInv(s') && Tied(s', i.b.sp, env) && AsBefore(i0, i)
  {
    SameSystemSpaces(s0, s');
    var m := s1.ps[c].space;
    assert s.ps[c].space == m;
    if m == -1 {
      SelfAsBefore(i0);
    } else {
      ActingHasProc(s0);
      MadeAndGone(i0, i1, i, s0.ps[CurrentProc(s0)].space, m);
    }
    SameSystemTies(s0, s', i0.b.sp, i.b.sp, env);
  }

  /** The scheduler is as in w0 again, and the address space of c is gone. */
  ghost predicate TakenDown(w0: World, w: World, w': World, c: nat) {
    true == (&& w' == w.(s := w'.s, i := w'.i) && SameSystem(w0.s, w'.s) && w.i.b.limbo == {}
             && c < |w.s.ps| && SpaceGone(w.i, w'.i, w.s.ps[c].space))
  }

  lemma UnforkKeeps(w0: World, s1: Sys, w: World, w': World, c: nat, t: int)
    requires Forking(w0.s, s1, w.s, c, t, w0.i, w.i, w.env) && TakenDown(w0, w, w', c)
    ensures Whole(w') && ForkDone(w0.s, w'.s, c, w0.i, w'.i, false)
  {
    ForkFailSettles(w0.s, s1, w.s, w'.s, c, t, w0.i, w.i, w'.i, w.env);
    SameSystemInv(w0.s, w'.s);
  }

  /** What a fork comes to, in the scheduler and in memory: the child is ready to
      run in the address space made for it, or nothing has changed. */
  ghost predicate ForkDone(s0: Sys, s: Sys, c: int, i0: Image, i: Image, ok: bool) {
    true ==
    if ok then
      && 0 <= c < |s.ps| && 0 <= CurrentProc(s0) < |s0.ps| && Forked(s0, s, c)
      && (if ForksUser(s0) then SpaceMade(i0, i, s0.ps[CurrentProc(s0)].space, s.ps[c].space) else i == i0)
    else SameSystem(s0, s) && AsBefore(i0, i)
  }

  lemma ForkIsDone(s0: Sys, s1: Sys, s: Sys, c: nat, t: int, i0: Image, i1: Image, env: Env)
    requires Forking(s0, s1, s, c, t, i0, i1, env) && t != -1
    ensures ForkDone(s0, s, c, i0, i1, true)
  {
    ActingHasProc(s0);
    ForkedIs(s0, s1, s, c, t, env.lists);
  }

  /** After the attempt to give the child a thread and descriptors. */
  ghost predicate ForkTried(s0: Sys, s1: Sys, s: Sys, c: nat, t: int, i0: Image, i1: Image, env: Env, ok: bool) {
    true == if ok then ForkDone(s0, s, c, i0, i1, true) else Forking(s0, s1, s, c, t, i0, i1, env)
  }

  lemma TriedIs(s0: Sys, s1: Sys, s: Sys, c: nat, t: int, i0: Image, i1: Image, env: Env, d0: Fds, d: Fds,
                parent: nat, ok: bool)
    requires Forking(s0, s1, s1, c, -1, i0, i1, env) && ChildCloned(s1, s, t, d0, d, parent, c, ok)
    requires d0.lists == env.lists
    ensures ForkTried(s0, s1, s, c, t, i0, i1, env.(lists := d.lists), ok)
  {
    assert Forking(s0, s1, s, c, t, i0, i1, env);
    if ok { ForkIsDone(s0, s1, s, c, t, i0, i1, env); } else { assert env.(lists := d.lists) == env; }
  }

  /** What a fork comes to, as its caller sees it. */
  ghost predicate ForkResult(s0: Sys, s: Sys, pid: int, i0: Image, i: Image, d0: Fds, d: Fds) {
    true == (&& ForkDone(s0, s, pid, i0, i, pid != -1) && (pid != -1 <==> CanFork(s0, i0, d0))
             && (if pid == -1 then FdsKept(d0, d)
               else pid >= 0 && CurrentProc(s0) >= 0 && FdsForked(d0, d, CurrentProc(s0), pid, true)))
  }

  lemma ForkKeepsKernel(s0: Sys, s: Sys, pid: int, i0: Image, i: Image, d0: Fds, d: Fds)
    requires ForkResult(s0, s, pid, i0, i, d0, d) && i.b.kernelPd == i0.b.kernelPd
    requires i0.b.kernelPd < |i0.b.sp.ram| && i0.b.kernelPd !in i0.b.free
    ensures KernelKept(i0.b, i.b)
  {
  }

  /** A fork whose child was made in s1 is over: the child has thread and
      descriptors, exactly if there was room for them, or it is gone. */
  ghost predicate ForkOver(s0: Sys, s1: Sys, s: Sys, c: nat, i0: Image, i: Image, d0: Fds, d: Fds, ok: bool) {
    true == (&& ForkDone(s0, s, c, i0, i, ok) && CurrentProc(s0) >= 0 && FdsForked(d0, d, CurrentProc(s0), c, ok)
             && (ok <==> !NoThreadSlot(s1.ts) && FdsFit(d0, CurrentProc(s0))))
  }

  lemma ForkIsOver(s0: Sys, s1: Sys, s2: Sys, s: Sys, c: nat, t: int, i0: Image, i: Image, d0: Fds, d: Fds, ok: bool)
    requires CurrentProc(s0) >= 0 && ChildCloned(s1, s2, t, d0, d, CurrentProc(s0), c, ok)
    requires ForkDone(s0, s, c, i0, i, ok)
    ensures ForkOver(s0, s1, s, c, i0, i, d0, d, ok)
  {
  }

  lemma ForkResultIs(s0: Sys, s1: Sys, s: Sys, c: nat, ok: bool, i0: Image, i1: Image, i: Image, env: Env, d0: Fds,
                     d: Fds)
    requires Forking(s0, s1, s1, c, -1, i0, i1, env) && ForkOver(s0, s1, s, c, i0, i, d0, d, ok)
    requires c < |d0.lists| && d0.lists[c] == []
    ensures ForkResult(s0, s, if ok then c else -1, i0, i, d0, d)
  {
  }

  lemma NoForkIs(s0: Sys, s: Sys, i0: Image, i: Image, d: Fds)
    requires ProcMade(s0, s, -1, CurrentProc(s0), ForksUser(s0), i0, i) && FileRefs.Exact(d.refs, {})
    ensures ForkResult(s0, s, -1, i0, i, d, d)
  {
  }

  lemma SameSystemWaits(s: Sys, s': Sys)
    requires Inv(s) && NoneLost(s) && SameSystem(s, s')
    ensures NoneLost(s')
  {
    forall u: nat ensures WaitOk(s', u) {
      assert WaitOk(s, u);
      if u < |s.ts| && s.ts[u].state == Blocked {
        var q := s.ts[u].proc;
        forall c | c in s.children[q] && c < |s.ps| ensures s'.ps[c] == s.ps[c] { assert ChildOk(s, q, c); }
      }
    }
  }

  /** A fork, which the interrupt gate makes one step, leaves nobody waiting in
      vain, whether it succeeds or is taken back. */
  lemma ForkKeepsWaits(s0: Sys, s: Sys, pid: int, i0: Image, i: Image, d0: Fds, d: Fds)
    requires Inv(s0) && NoneLost(s0) && ForkResult(s0, s, pid, i0, i, d0, d)
    ensures NoneLost(s)
  {
    if pid == -1 {
      SameSystemWaits(s0, s);
    } else {
      var m := s.ps[pid].space;
      StepKeepsWaitsIff(s0, NewProc(pid, CurrentProc(s0), ForksUser(s0), m));
      StepKeepsWaitsIff(AddProc(s0, pid, CurrentProc(s0), ForksUser(s0), m), NewThread(s.members[pid][0], pid));
    }
  }

  // ---- Exec ----

  /** The image fits a page, and there is room for it. */
  ghost predicate CanExec(i: Image, image: seq<nat>) {
    0 < |image| <= PAGE_BYTES && Loading.CanStage(i.b, InUse(i.slots, i.pool))
  }

  /** The image is staged in address space m, with its two areas, on top of what
      there was; or, if it cannot be, there is only what there was. */
  ghost predicate Staged(i0: Image, i: Image, m: int, image: seq<nat>) {
    true ==
    if m == -1 then AsBefore(i0, i) && !CanExec(i0, image)
    else
      && CanExec(i0, image)
      && m >= 0 && IsLive(i.b.sp, m) && Atop(i0.b, i.b, m) && Loading.ImageLoaded(i.b.sp, m, image)
      && m < |i0.areas| && i.areas == i0.areas[m := [Loading.CODE_AREA, Loading.STACK_AREA]] && i.pool == i0.pool
      && |i.slots| == |i0.slots|
  }

  lemma StagedIs(i: Image, i': Image, m: int, image: seq<nat>)
    requires m >= -1 && i'.pool == i.pool && (m != -1 <==> CanExec(i, image))
    requires Loading.StageOutcome(i.b, i'.b, i.areas, i'.areas, i.slots, i'.slots, if m == -1 then 0 else m, image,
                                  m != -1)
    ensures Staged(i, i', m, image)
  {
  }

  /** What exec answers: a space exactly on success, and the two complaints about
      the image. */
  predicate ExecAnswer(status: Loading.ExecStatus, m: int, image: seq<nat>) {
    true == (&& m >= -1 && (m != -1 <==> status == Loading.ExecOk) && (status == Loading.NoExec <==> image == [])
             && (status == Loading.TooBig <==> |image| > PAGE_BYTES)
             && (status == Loading.OutOfMemory <==> m == -1 && 0 < |image| <= PAGE_BYTES))
  }

  /** What exec comes to: the process runs the image in a new address space and
      the old one is gone, frames and areas; or nothing has changed. */
  ghost predicate ExecDone(s: Sys, s': Sys, m: int, i0: Image, i: Image, image: seq<nat>) {
    true ==
    if m == -1 then s' == s && AsBefore(i0, i) && !CanExec(i0, image)
    else
      && CanExec(i0, image) && m >= 0 && Steps(s, DoExec(m), s') && IsProc(s, CurrentProc(s))
      && var a := s.ps[CurrentProc(s)].space;
         && 0 <= a < |i0.areas| && m < |i0.areas| && Loading.Replaced(i0.b, i.b, a, m, image)
         && i.areas == i0.areas[m := [Loading.CODE_AREA, Loading.STACK_AREA]][a := []] && i.pool == i0.pool
  }

  lemma ExecKeepsKernel(s: Sys, s': Sys, m: int, i0: Image, i: Image, image: seq<nat>)
    requires ExecDone(s, s', m, i0, i, image) && i.b.kernelPd == i0.b.kernelPd
    requires i0.b.kernelPd < |i0.b.sp.ram| && i0.b.kernelPd !in i0.b.free
    ensures KernelKept(i0.b, i.b)
  {
  }

  lemma ExecSettles(s: Sys, m: nat, b0: Books, b1: Books, sp: Space, env: Env)
    requires Inv(s) && SpacesInv(s) && Tied(s, b0.sp, env) && Acting(s) && ForksUser(s) && Atop(b0, b1, m)
    requires SpaceDown(b1.sp, sp, s.ps[CurrentProc(s)].space)
    ensures Steps(s, DoExec(m), Exec(s, m)) && SpacesInv(Exec(s, m)) && Tied(Exec(s, m), sp, env.(cr3 := b1.sp.pd[m]))
  {
    NewIsFresh(s, b0.sp, m);
    ExecReady(s, b0.sp, env);
    ExecLoads(s, m);
    ExecTies(s, m, b0, b1, sp, env);
  }

  lemma ExecFails(w: World, i: Image, image: seq<nat>)
    requires Whole(w) && Staged(w.i, i, -1, image)
    ensures Whole(w.(i := i)) && ExecDone(w.s, w.s, -1, w.i, i, image)
  {
    SameSystemSelf(w.s);
    SameSystemTies(w.s, w.s, w.i.b.sp, i.b.sp, w.env);
  }

  lemma ExecGoesReady(w: World, i: Image, m: nat, image: seq<nat>)
    requires Whole(w) && Acting(w.s) && ForksUser(w.s) && Staged(w.i, i, m, image)
    ensures var a := w.s.ps[CurrentProc(w.s)].space; a >= 0 && a != m && IsLive(i.b.sp, a) && IsLive(i.b.sp, m)
  {
    ExecReady(w.s, w.i.b.sp, w.env);
    Loading.StillLive(w.i.b, i.b, m, w.s.ps[CurrentProc(w.s)].space);
  }

  lemma ExecGoes(w: World, i1: Image, i: Image, m: nat, image: seq<nat>)
    requires Whole(w) && Acting(w.s) && ForksUser(w.s) && Staged(w.i, i1, m, image) && i1.b.limbo == {}
    requires SpaceGone(i1, i, w.s.ps[CurrentProc(w.s)].space)
    ensures m < |i1.b.sp.pd| && Whole(World(Exec(w.s, m), i, w.env.(cr3 := i1.b.sp.pd[m]), w.refs))
    ensures ExecDone(w.s, Exec(w.s, m), m, w.i, i, image)
  {
    ExecReady(w.s, w.i.b.sp, w.env);
    ExecSettles(w.s, m, w.i.b, i1.b, i.b.sp, w.env);
    Loading.ExecReplaces(w.i.b, i1.b, w.s.ps[CurrentProc(w.s)].space, m, image);
    ExecInv(w.s, m);
  }
}
