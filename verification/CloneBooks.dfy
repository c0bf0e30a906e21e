/** The books through the two loops that copy an address space, and through the
    two that take one down. */
module CloneBooks {
  import opened Regions
  import opened PageTables
  import opened PageClone
  import opened PageTeardown
  import opened FrameBooks

  /** Address space c is being copied from a, since the books were b1. */
  ghost predicate Copying(b1: Books, b: Books, rs: seq<Region>, a: nat, c: nat) {
    Growing(b1, b, rs, c) && b.limbo == {} && a != c && IsLive(b.sp, a)
  }

  ghost predicate CopiedTables(b1: Books, b: Books, rs: seq<Region>, a: nat, c: nat, i: nat) {
    Copying(b1, b, rs, a, c) && i <= USER_PDES && AtTable(b.sp, a, c, i)
  }

  ghost predicate CopiedEntries(b1: Books, b: Books, rs: seq<Region>, a: nat, c: nat, i: nat, j: nat) {
    Copying(b1, b, rs, a, c) && i < USER_PDES && j <= ENTRIES && AtEntry(b.sp, a, c, i, j)
  }

  /** A new address space maps nothing yet. */
  lemma StartCopy(b1: Books, b: Books, rs: seq<Region>, a: nat, c: nat)
    requires Copying(b1, b, rs, a, c) && b.sp.pd[c] < |b.sp.ram| && BlankDirectory(b.sp.ram[b.sp.pd[c]])
    ensures CopiedTables(b1, b, rs, a, c, 0)
  {
  }

  /** The child's empty table i, in frame f. */
  ghost function TableMade(b: Books, a: nat, c: nat, i: nat, f: nat): Books
    requires f < |b.sp.ram| && i < ENTRIES && IsLive(b.sp, a) && IsLive(b.sp, c)
    requires b.sp.pd[a] < |b.sp.ram| && b.sp.pd[c] < |b.sp.ram|
  {
    TableEntered(Written(Taken(b, f), f, ZeroPage()), c, i, f, FlagsOf(b.sp.ram[b.sp.pd[a]][i]))
  }

  lemma TableFlagsAre(b: Books, a: nat, i: nat)
    requires DirectoriesOk(b) && i < USER_PDES && PtFrame(b.sp, a, i) != -1
    ensures IsLive(b.sp, a) && b.sp.pd[a] < |b.sp.ram| && FlagsOf(b.sp.ram[b.sp.pd[a]][i]) == 7
  {
    assert DirectoryOk(b.sp, a, b.kernelPd);
  }

  lemma MakeTable(b1: Books, b: Books, rs: seq<Region>, a: nat, c: nat, i: nat, f: nat)
    requires CopiedTables(b1, b, rs, a, c, i) && i < USER_PDES && PtFrame(b.sp, a, i) != -1 && f in b.free
    ensures f < |b.sp.ram| && b.sp.pd[a] < |b.sp.ram| && b.sp.pd[c] < |b.sp.ram|
    ensures CopiedEntries(b1, TableMade(b, a, c, i, f), rs, a, c, i, 0)
  {
    FreeIsApart(b, rs, f);
    OwnPd(b, a);
    OwnPd(b, c);
    var zeros := ZeroPage();
    GrowTaken(b1, b, rs, c, f);
    GrowWritten(b1, Taken(b, f), rs, c, f, zeros);
    FillAtTable(b.sp, b.owner, a, c, i, f, zeros);
    var b2 := Written(Taken(b, f), f, zeros);
    TableFlagsAre(b, a, i);
    GrowTable(b1, b2, rs, c, i, f, FlagsOf(b.sp.ram[b.sp.pd[a]][i]));
    StartTable(b2.sp, b2.owner, a, c, i, f);
    assert {f} - {f} == {};
  }

  /** Page (i, j) copied into frame f. */
  ghost function PageCopied(b: Books, a: nat, c: nat, i: nat, j: nat, f: nat): Books
    requires f < |b.sp.ram| && j < ENTRIES && c < |b.pages| && 0 <= PageFrame(b.sp, a, i, j) < |b.sp.ram|
    requires 0 <= PtFrame(Written(Taken(b, f), f, b.sp.ram[PageFrame(b.sp, a, i, j)]).sp, c, i) < |b.sp.ram|
  {
    PageEntered(Written(Taken(b, f), f, b.sp.ram[PageFrame(b.sp, a, i, j)]), c, i, j, f,
      FlagsOf(b.sp.ram[PtFrame(b.sp, a, i)][j]))
  }

  lemma CopyPage(b1: Books, b: Books, rs: seq<Region>, a: nat, c: nat, i: nat, j: nat, f: nat)
    requires CopiedEntries(b1, b, rs, a, c, i, j) && j < ENTRIES && PageFrame(b.sp, a, i, j) != -1 && f in b.free
    ensures f < |b.sp.ram| && c < |b.pages| && 0 <= PageFrame(b.sp, a, i, j) < |b.sp.ram|
    ensures 0 <= PtFrame(Written(Taken(b, f), f, b.sp.ram[PageFrame(b.sp, a, i, j)]).sp, c, i) < |b.sp.ram|
    ensures CopiedEntries(b1, PageCopied(b, a, c, i, j, f), rs, a, c, i, j + 1)
  {
    FreeIsApart(b, rs, f);
    assert FrameAt(b.sp, PageOf(a, i, j)) == PageFrame(b.sp, a, i, j);
    var content := b.sp.ram[PageFrame(b.sp, a, i, j)];
    CopyEntry(b.sp, b.owner, a, c, i, j, f);
    GrowTaken(b1, b, rs, c, f);
    GrowWritten(b1, Taken(b, f), rs, c, f, content);
    FillKeeps(b.sp, b.owner, f, content, c, i, j);
    GrowPage(b1, Written(Taken(b, f), f, content), rs, c, i, j, f, FlagsOf(b.sp.ram[PtFrame(b.sp, a, i)][j]));
    assert {f} - {f} == {};
  }

  // ---- Teardown ----

  /** Address space m is going: the loops stand at entry (i, j), what they have
      passed is free again. */
  ghost function Tear(b: Books, m: nat, i: nat, j: nat): Books
    requires m < |b.sp.live|
  {
    Books(b.sp.(live := b.sp.live[m := false]), b.pages, Without(b.owner, m), b.kernel,
          b.free + (FramesOf(b.owner, m) - Remaining(b.owner, m, i, j)), Remaining(b.owner, m, i, j), b.kernelPd)
  }

  lemma TearStart(b: Books, m: nat)
    requires m < |b.sp.live| && b.limbo == {}
    ensures Tear(b, m, 0, 0) == SpaceDropped(b, m)
  {
    StartRemaining(b.owner, m);
    assert b.limbo + FramesOf(b.owner, m) == Remaining(b.owner, m, 0, 0);
    assert b.free + (FramesOf(b.owner, m) - Remaining(b.owner, m, 0, 0)) == b.free;
  }

  lemma TearPage(b: Books, m: nat, i: nat, j: nat)
    requires m < |b.sp.live| && Owned(b.sp, b.owner)
    ensures var f := PageFrame(b.sp, m, i, j);
      && (f == -1 ==> Tear(b, m, i, j + 1) == Tear(b, m, i, j))
      && (f != -1 ==> f >= 0 && f in Tear(b, m, i, j).limbo && Tear(b, m, i, j + 1) == Dropped(Tear(b, m, i, j), f))
  {
    PassPage(b.sp, b.owner, m, i, j);
    var f := PageFrame(b.sp, m, i, j);
    if f != -1 {
      FreedOne(b.free, FramesOf(b.owner, m), Remaining(b.owner, m, i, j), f);
    }
  }

  lemma TearTable(b: Books, m: nat, i: nat)
    requires m < |b.sp.live| && Owned(b.sp, b.owner)
    ensures var f := PtFrame(b.sp, m, i);
      && (f == -1 ==> Tear(b, m, i + 1, 0) == Tear(b, m, i, 0))
      && (f != -1 ==>
          f >= 0 && f in Tear(b, m, i, ENTRIES).limbo && Tear(b, m, i + 1, 0) == Dropped(Tear(b, m, i, ENTRIES), f))
  {
    PassTable(b.sp, b.owner, m, i);
    var f := PtFrame(b.sp, m, i);
    if f != -1 {
      FreedOne(b.free, FramesOf(b.owner, m), Remaining(b.owner, m, i, ENTRIES), f);
    }
  }

  lemma FreedOne(free: set<nat>, all: set<nat>, left: set<nat>, f: nat)
    requires f in left && f in all
    ensures free + (all - (left - {f})) == free + (all - left) + {f}
  {
  }

  /** With the directory itself the address space is gone, and exactly its
      frames are free again. */
  ghost function Gone(b: Books, m: nat): Books
    requires m < |b.sp.live|
  {
    Books(b.sp.(live := b.sp.live[m := false]), b.pages, Without(b.owner, m), b.kernel,
          b.free + FramesOf(b.owner, m), b.limbo, b.kernelPd)
  }

  lemma TearDirectory(b: Books, m: nat)
    requires Owned(b.sp, b.owner) && IsLive(b.sp, m) && b.limbo == {}
    ensures b.sp.pd[m] in Tear(b, m, USER_PDES, 0).limbo
    ensures Dropped(Tear(b, m, USER_PDES, 0), b.sp.pd[m]) == Gone(b, m)
  {
    var f := b.sp.pd[m];
    OnlyDirectory(b.sp, b.owner, m);
    OwnPd(b, m);
    assert {f} - {f} == {};
    assert b.free + (FramesOf(b.owner, m) - {f}) + {f} == b.free + FramesOf(b.owner, m);
  }

  /** Taking down an address space that was built on top of the others brings
      back what was there before. */
  lemma GoneUndoesAtop(b0: Books, b: Books, m: nat)
    requires Atop(b0, b, m) && b.limbo == {}
    ensures Gone(b, m).free == b0.free && Gone(b, m).owner == b0.owner
    ensures Gone(b, m).kernel == b0.kernel && Gone(b, m).sp.live == b0.sp.live && Gone(b, m).kernelPd == b0.kernelPd
    ensures RamKept(b0.sp.ram, Gone(b, m).sp.ram, b0.free)
  {
    assert b.free + FramesOf(b.owner, m) == b0.free;
    assert b0.sp.live[m := true][m := false] == b0.sp.live;
  }
}
