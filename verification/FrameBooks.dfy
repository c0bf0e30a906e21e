/** Who has which frame: the physical memory manager's free set, the frames of
    address spaces, the kernel's frames, and frames in limbo, allocated but not
    yet placed. Each step of creating, filling and dropping an address space is
    a change to these books that keeps them sound. */
module FrameBooks {
  import opened Pmm
  import opened Regions
  import opened PageTables
  import opened PageClone

  /** `pages` is each address space's page count, `kernelPd` the frame of the
      kernel's own directory. */
  datatype Books = Books(sp: Space, pages: seq<nat>, owner: map<nat, Place>, kernel: set<nat>, free: set<nat>,
    limbo: set<nat>, kernelPd: nat)

  /** Frame f is in exactly one class, or is no frame at all. */
  ghost predicate Classed(b: Books, f: nat) {
    && (f < |b.sp.ram| <==> f in b.free || f in b.owner || f in b.kernel || f in b.limbo)
    && (f in b.owner || f in b.kernel || f in b.limbo ==> f !in b.free)
    && (f in b.kernel ==> f !in b.owner && f !in b.limbo)
    && (f in b.limbo ==> f !in b.owner)
  }

  ghost predicate Accounted(b: Books) {
    forall f: nat :: Classed(b, f)
  }

  ghost predicate Unreserved(b: Books, rs: seq<Region>) {
    forall f: nat {:trigger FrameReserved(rs, f)} :: f in b.free || f in b.owner || f in b.limbo ==>
        !FrameReserved(rs, f)
  }

  /** The frames that hold an address space's user pages. */
  ghost function PagesOf(owner: map<nat, Place>, m: nat): set<nat> {
    set f | f in owner && owner[f].PageOf? && owner[f].mm == m
  }

  ghost function FramesOf(owner: map<nat, Place>, m: nat): set<nat> {
    set f | f in owner && owner[f].mm == m
  }

  /** Each live address space knows how many pages it has. */
  ghost predicate PageCounts(b: Books) {
    && |b.pages| == |b.sp.live|
    && (forall m {:trigger PagesOf(b.owner, m)} ::
          0 <= m < |b.sp.live| && b.sp.live[m] ==> b.pages[m] == |PagesOf(b.owner, m)|)
  }

  /** The directory of a live address space: the upper half is the kernel's word
      for word, and every table below is present, writable and the user's. */
  ghost predicate DirectoryOk(sp: Space, m: nat, kernelPd: nat) {
    IsLive(sp, m) ==>
      && sp.pd[m] < |sp.ram| && kernelPd < |sp.ram|
      && (forall k :: 768 <= k < 1024 ==> sp.ram[sp.pd[m]][k] == sp.ram[kernelPd][k])
      && (forall k :: 0 <= k < 768 && sp.ram[sp.pd[m]][k] % 2 == 1 ==> sp.ram[sp.pd[m]][k] % 4096 == 7)
  }

  ghost predicate DirectoriesOk(b: Books) {
    b.kernelPd in b.kernel && forall m: nat :: DirectoryOk(b.sp, m, b.kernelPd)
  }

  ghost predicate Sound(b: Books, rs: seq<Region>) {
    Owned(b.sp, b.owner) && Accounted(b) && Unreserved(b, rs) && PageCounts(b) && DirectoriesOk(b)
  }

  /** Directories stay what they are while nobody writes to them. */
  lemma DirectoriesStay(b: Books, b': Books)
    requires DirectoriesOk(b) && Owned(b.sp, b.owner)
    requires b'.sp.live == b.sp.live && b'.sp.pd == b.sp.pd && b'.kernelPd == b.kernelPd && b'.kernel == b.kernel
    requires |b'.sp.ram| == |b.sp.ram|
    requires forall f :: f in b.kernel && f < |b.sp.ram| ==> b'.sp.ram[f] == b.sp.ram[f]
    requires forall f :: f in b.owner && b.owner[f].PdOf? && f < |b.sp.ram| ==> b'.sp.ram[f] == b.sp.ram[f]
    ensures DirectoriesOk(b')
  {
    forall m: nat ensures DirectoryOk(b'.sp, m, b'.kernelPd) {
      assert DirectoryOk(b.sp, m, b.kernelPd);
      if IsLive(b.sp, m) { assert FrameAt(b.sp, PdOf(m)) == b.sp.pd[m]; }
    }
  }

  lemma LimboIsApart(b: Books, rs: seq<Region>, f: nat)
    requires Sound(b, rs) && f in b.limbo
    ensures f < |b.sp.ram| && f !in b.owner && f !in b.kernel && f !in b.free && !FrameReserved(rs, f)
  {
    assert Classed(b, f);
  }

  lemma FreeIsApart(b: Books, rs: seq<Region>, f: nat)
    requires Sound(b, rs) && f in b.free
    ensures f < |b.sp.ram| && f !in b.owner && f !in b.kernel && f !in b.limbo && !FrameReserved(rs, f)
  {
    assert Classed(b, f);
  }

  lemma KernelIsApart(b: Books, rs: seq<Region>, f: nat)
    requires Sound(b, rs) && f in b.kernel
    ensures f < |b.sp.ram| && f !in b.owner && f !in b.limbo && f !in b.free
  {
    assert Classed(b, f);
  }

  // ---- Frames come and go ----

  ghost function Taken(b: Books, f: nat): Books {
    b.(free := b.free - {f}, limbo := b.limbo + {f})
  }

  ghost function Dropped(b: Books, f: nat): Books {
    b.(free := b.free + {f}, limbo := b.limbo - {f})
  }

  lemma TakenSound(b: Books, rs: seq<Region>, f: nat)
    requires Sound(b, rs) && f in b.free
    ensures Sound(Taken(b, f), rs)
  {
    assert Classed(b, f);
    forall g: nat ensures Classed(Taken(b, f), g) { assert Classed(b, g); }
  }

  lemma DroppedSound(b: Books, rs: seq<Region>, f: nat)
    requires Sound(b, rs) && f in b.limbo
    ensures Sound(Dropped(b, f), rs)
  {
    assert Classed(b, f);
    forall g: nat ensures Classed(Dropped(b, f), g) { assert Classed(b, g); }
  }

  /** Giving back a frame just taken leaves the books as they were. */
  lemma DropUndoesTake(b: Books, rs: seq<Region>, f: nat)
    requires Sound(b, rs) && f in b.free
    ensures Dropped(Taken(b, f), f) == b
  {
    FreeIsApart(b, rs, f);
    assert b.free - {f} + {f} == b.free && b.limbo + {f} - {f} == b.limbo;
  }

  ghost function Written(b: Books, f: nat, content: Page): Books
    requires f < |b.sp.ram|
  {
    b.(sp := Filled(b.sp, f, content))
  }

  lemma WrittenSound(b: Books, rs: seq<Region>, f: nat, content: Page)
    requires Sound(b, rs) && f in b.limbo
    ensures f < |b.sp.ram| && Sound(Written(b, f, content), rs)
  {
    LimboIsApart(b, rs, f);
    WriteData(b.sp, b.owner, f, content);
    DirectoriesStay(b, Written(b, f, content));
    SameBooks(b, Written(b, f, content), rs);
  }

  lemma SameBooks(b: Books, b': Books, rs: seq<Region>)
    requires Sound(b, rs) && Owned(b'.sp, b'.owner)
    requires b'.owner == b.owner && b'.kernel == b.kernel && b'.free == b.free && b'.limbo == b.limbo
    requires b'.pages == b.pages && DirectoriesOk(b')
    requires |b'.sp.ram| == |b.sp.ram| && b'.sp.live == b.sp.live
    ensures Sound(b', rs)
  {
    forall g: nat ensures Classed(b', g) { assert Classed(b, g); }
  }

  lemma StoreSparesDirectories(b: Books, rs: seq<Region>, m: nat, s: Store)
    requires Sound(b, rs)
    ensures DirectoriesOk(b.(sp := WriteUser(b.sp, m, s.i, s.j, s.k, s.w)))
  {
    var f := PageFrame(b.sp, m, s.i, s.j);
    WriteKeepsPlaces(b.sp, b.owner, m, s.i, s.j, s.k, s.w);
    if f != -1 {
      assert FrameAt(b.sp, PageOf(m, s.i, s.j)) == f;
      assert Classed(b, f);
    }
    DirectoriesStay(b, b.(sp := WriteUser(b.sp, m, s.i, s.j, s.k, s.w)));
  }

  /** User stores change contents only. */
  lemma StoredSound(b: Books, rs: seq<Region>, m: nat, s: Store)
    requires Sound(b, rs)
    ensures Sound(b.(sp := WriteUser(b.sp, m, s.i, s.j, s.k, s.w)), rs)
  {
    WriteKeepsPlaces(b.sp, b.owner, m, s.i, s.j, s.k, s.w);
    StoreSparesDirectories(b, rs, m, s);
    SameBooks(b, b.(sp := WriteUser(b.sp, m, s.i, s.j, s.k, s.w)), rs);
  }

  // ---- Frames get a place ----

  /** A frame in limbo gets place p; that the tables agree is shown separately. */
  lemma PlacedSound(b: Books, b': Books, rs: seq<Region>, f: nat, p: Place)
    requires Sound(b, rs) && f in b.limbo
    requires b'.owner == b.owner[f := p] && b'.limbo == b.limbo - {f} && b'.kernel == b.kernel && b'.free == b.free
    requires |b'.sp.ram| == |b.sp.ram| && Owned(b'.sp, b'.owner) && PageCounts(b') && DirectoriesOk(b')
    ensures Sound(b', rs)
  {
    forall g: nat ensures Classed(b', g) { assert Classed(b, g); }
  }

  ghost function TableEntered(b: Books, m: nat, i: nat, f: nat, flags: nat): Books
    requires IsLive(b.sp, m) && b.sp.pd[m] < |b.sp.ram| && i < ENTRIES
  {
    b.(sp := WithTable(b.sp, m, i, f, flags), owner := b.owner[f := PtOf(m, i)], limbo := b.limbo - {f})
  }

  /** A table is entered in the user half of one directory. */
  lemma TableDirectories(b: Books, rs: seq<Region>, m: nat, i: nat, f: nat)
    requires Sound(b, rs) && IsLive(b.sp, m) && b.sp.pd[m] < |b.sp.ram| && i < USER_PDES
    ensures DirectoriesOk(TableEntered(b, m, i, f, 7))
  {
    var b' := TableEntered(b, m, i, f, 7);
    assert FrameAt(b.sp, PdOf(m)) == b.sp.pd[m] && Classed(b, b.sp.pd[m]);
    EntryParts(f, 7);
    forall n: nat ensures DirectoryOk(b'.sp, n, b'.kernelPd) {
      assert DirectoryOk(b.sp, n, b.kernelPd);
      if IsLive(b.sp, n) { assert FrameAt(b.sp, PdOf(n)) == b.sp.pd[n]; }
    }
  }

  lemma TableEnteredSound(b: Books, rs: seq<Region>, m: nat, i: nat, f: nat, flags: nat)
    requires Sound(b, rs) && f in b.limbo && f < |b.sp.ram| && b.sp.ram[f] == ZeroPage()
    requires IsLive(b.sp, m) && i < USER_PDES && PtFrame(b.sp, m, i) == -1 && flags == 7
    ensures b.sp.pd[m] < |b.sp.ram| && Sound(TableEntered(b, m, i, f, flags), rs)
  {
    LimboIsApart(b, rs, f);
    LinkTable(b.sp, b.owner, m, i, f, flags);
    TableDirectories(b, rs, m, i, f);
    var b' := TableEntered(b, m, i, f, flags);
    forall n ensures PagesOf(b'.owner, n) == PagesOf(b.owner, n) { }
    PlacedSound(b, b', rs, f, PtOf(m, i));
  }

  ghost function PageEntered(b: Books, m: nat, i: nat, j: nat, f: nat, flags: nat): Books
    requires 0 <= PtFrame(b.sp, m, i) < |b.sp.ram| && j < ENTRIES && m < |b.pages|
  {
    b.(sp := WithPage(b.sp, m, i, j, f, flags), owner := b.owner[f := PageOf(m, i, j)], limbo := b.limbo - {f},
       pages := b.pages[m := b.pages[m] + 1])
  }

  /** A page more for address space m. */
  lemma PagesWith(owner: map<nat, Place>, f: nat, m: nat, i: nat, j: nat)
    requires f !in owner
    ensures |PagesOf(owner[f := PageOf(m, i, j)], m)| == |PagesOf(owner, m)| + 1
    ensures forall n :: n != m ==> PagesOf(owner[f := PageOf(m, i, j)], n) == PagesOf(owner, n)
  {
    var owner' := owner[f := PageOf(m, i, j)];
    assert PagesOf(owner', m) == PagesOf(owner, m) + {f};
    forall n | n != m ensures PagesOf(owner', n) == PagesOf(owner, n) { }
  }

  lemma PageEnteredCounts(b: Books, rs: seq<Region>, m: nat, i: nat, j: nat, f: nat, flags: nat)
    requires Sound(b, rs) && f !in b.owner && 0 <= PtFrame(b.sp, m, i) < |b.sp.ram| && j < ENTRIES && m < |b.pages|
    ensures PageCounts(PageEntered(b, m, i, j, f, flags))
  {
    var b' := PageEntered(b, m, i, j, f, flags);
    PagesWith(b.owner, f, m, i, j);
    forall n | 0 <= n < |b.sp.live| && b.sp.live[n] ensures b'.pages[n] == |PagesOf(b'.owner, n)| {
      assert b.pages[n] == |PagesOf(b.owner, n)|;
    }
  }

  lemma PageEnteredSound(b: Books, rs: seq<Region>, m: nat, i: nat, j: nat, f: nat, flags: nat)
    requires Sound(b, rs) && f in b.limbo
    requires IsLive(b.sp, m) && PtFrame(b.sp, m, i) != -1 && j < ENTRIES && PageFrame(b.sp, m, i, j) == -1
    requires flags < FLAG_BITS && flags % 2 == 1
    ensures 0 <= PtFrame(b.sp, m, i) < |b.sp.ram| && m < |b.pages|
    ensures Sound(PageEntered(b, m, i, j, f, flags), rs)
  {
    LimboIsApart(b, rs, f);
    LinkPage(b.sp, b.owner, m, i, j, f, flags);
    PageEnteredCounts(b, rs, m, i, j, f, flags);
    assert FrameAt(b.sp, PtOf(m, i)) == PtFrame(b.sp, m, i) && Classed(b, PtFrame(b.sp, m, i));
    DirectoriesStay(b, PageEntered(b, m, i, j, f, flags));
    PlacedSound(b, PageEntered(b, m, i, j, f, flags), rs, f, PageOf(m, i, j));
  }

  /** A page to be the directory of a new address space: nothing below, the
      kernel's words above. */
  ghost predicate ForSpace(page: Page, kernel: Page) {
    && (forall k :: 0 <= k < 768 ==> page[k] == 0)
    && (forall k :: 768 <= k < 1024 ==> page[k] == kernel[k])
  }

  ghost function SpaceAdded(b: Books, m: nat, f: nat): Books
    requires m < |b.sp.live| == |b.sp.pd| == |b.pages|
  {
    b.(sp := b.sp.(live := b.sp.live[m := true], pd := b.sp.pd[m := f]), pages := b.pages[m := 0],
       owner := b.owner[f := PdOf(m)], limbo := b.limbo - {f})
  }

  lemma NoFramesWhenDead(b: Books, m: nat)
    requires Owned(b.sp, b.owner) && m < |b.sp.live| && !b.sp.live[m]
    ensures FramesOf(b.owner, m) == {} && PagesOf(b.owner, m) == {}
  {
    forall g | g in b.owner ensures b.owner[g].mm != m {
      assert FrameAt(b.sp, b.owner[g]) == g;
    }
  }

  lemma SpaceAddedSound(b: Books, rs: seq<Region>, m: nat, f: nat)
    requires Sound(b, rs) && f in b.limbo && m < |b.sp.live| && !b.sp.live[m]
    requires f < |b.sp.ram| && b.kernelPd < |b.sp.ram| && ForSpace(b.sp.ram[f], b.sp.ram[b.kernelPd])
    ensures |b.sp.live| == |b.sp.pd| == |b.pages| && Sound(SpaceAdded(b, m, f), rs)
  {
    LimboIsApart(b, rs, f);
    AddSpace(b.sp, b.owner, m, f);
    NoFramesWhenDead(b, m);
    var b' := SpaceAdded(b, m, f);
    assert PagesOf(b'.owner, m) == {};
    forall n | n != m ensures PagesOf(b'.owner, n) == PagesOf(b.owner, n) { }
    forall n: nat ensures DirectoryOk(b'.sp, n, b'.kernelPd) { assert DirectoryOk(b.sp, n, b.kernelPd); }
    PlacedSound(b, b', rs, f, PdOf(m));
  }

  // ---- An address space goes ----

  /** The address space is no more; its frames are all in limbo. */
  ghost function SpaceDropped(b: Books, m: nat): Books
    requires m < |b.sp.live|
  {
    b.(sp := b.sp.(live := b.sp.live[m := false]), owner := Without(b.owner, m),
      limbo := b.limbo + FramesOf(b.owner, m))
  }

  lemma SpaceDroppedSound(b: Books, rs: seq<Region>, m: nat)
    requires Sound(b, rs) && m < |b.sp.live|
    ensures Sound(SpaceDropped(b, m), rs)
  {
    DropSpace(b.sp, b.owner, m);
    var b' := SpaceDropped(b, m);
    forall n | n != m ensures PagesOf(b'.owner, n) == PagesOf(b.owner, n) { }
    forall f: nat ensures f in b'.owner || f in b'.limbo <==> f in b.owner || f in b.limbo { }
    forall n: nat ensures DirectoryOk(b'.sp, n, b'.kernelPd) { assert DirectoryOk(b.sp, n, b.kernelPd); }
    forall g: nat ensures Classed(b', g) { assert Classed(b, g); }
  }

  // ---- One address space on top of the others ----

  /** Frames that were in use keep their contents. */
  ghost predicate RamKept(ram: seq<Page>, ram': seq<Page>, free: set<nat>) {
    |ram'| == |ram| && forall f {:trigger ram'[f]} :: 0 <= f < |ram| && f !in free ==> ram'[f] == ram[f]
  }

  /** b is b0 with address space m added, made of frames that were free. */
  ghost predicate Atop(b0: Books, b: Books, m: nat) {
    && m < |b0.sp.live| == |b0.sp.pd| == |b0.pages| == |b.pages| && !b0.sp.live[m]
    && b.sp.live == b0.sp.live[m := true] && |b.sp.pd| == |b0.sp.pd| && b.sp.pd == b0.sp.pd[m := b.sp.pd[m]]
    && b.pages == b0.pages[m := b.pages[m]]
    && Without(b.owner, m) == b0.owner && b.kernel == b0.kernel && b.kernelPd == b0.kernelPd
    && FramesOf(b.owner, m) + b.limbo <= b0.free && b.free == b0.free - FramesOf(b.owner, m) - b.limbo
    && RamKept(b0.sp.ram, b.sp.ram, b0.free)
  }

  lemma AtopStart(b0: Books, rs: seq<Region>, m: nat, f: nat, content: Page)
    requires Sound(b0, rs) && b0.limbo == {} && f in b0.free && m < |b0.sp.live| && !b0.sp.live[m]
    ensures f < |b0.sp.ram| && |b0.sp.live| == |b0.sp.pd| == |b0.pages|
    ensures Atop(b0, SpaceAdded(Written(Taken(b0, f), f, content), m, f), m)
  {
    FreeIsApart(b0, rs, f);
    NoFramesWhenDead(b0, m);
    var b := SpaceAdded(Written(Taken(b0, f), f, content), m, f);
    assert FramesOf(b.owner, m) == {f};
    assert Without(b.owner, m) == b0.owner;
  }

  // ---- One address space grows ----

  /** Frames that address space m has gained, or that are on their way to it. */
  ghost function Gained(b1: Books, b: Books, m: nat): set<nat> {
    FramesOf(b.owner, m) - FramesOf(b1.owner, m) + b.limbo
  }

  /** Frames that were in use outside address space m keep their contents. */
  ghost predicate RamOutside(b1: Books, b: Books, m: nat) {
    |b.sp.ram| == |b1.sp.ram|
    && forall f {:trigger b.sp.ram[f]} :: 0 <= f < |b1.sp.ram| && f !in b1.free && f !in FramesOf(b1.owner, m) ==>
         b.sp.ram[f] == b1.sp.ram[f]
  }

  /** Whatever was mapped, in any address space, still is, with the same
      entries and the same contents. */
  ghost predicate MappingsKept(sp: Space, sp': Space) {
    forall n, k, l :: PageFrame(sp, n, k, l) != -1 ==> TableKept(sp, sp', n, k) && PageKept(sp, sp', n, k, l)
  }

  ghost predicate OwnersKept(owner: map<nat, Place>, owner': map<nat, Place>) {
    forall f :: f in owner ==> f in owner' && owner'[f] == owner[f]
  }

  /** b is b1 with more frames in address space m, all of them free before. */
  ghost predicate Extends(b1: Books, b: Books, m: nat) {
    && b.sp.live == b1.sp.live && b.sp.pd == b1.sp.pd && b.kernel == b1.kernel && b.kernelPd == b1.kernelPd
    && m < |b1.pages| == |b.pages| && b.pages == b1.pages[m := b.pages[m]]
    && Without(b.owner, m) == Without(b1.owner, m) && OwnersKept(b1.owner, b.owner)
    && FramesOf(b1.owner, m) <= FramesOf(b.owner, m)
    && Gained(b1, b, m) <= b1.free && b.free == b1.free - Gained(b1, b, m)
    && RamOutside(b1, b, m) && MappingsKept(b1.sp, b.sp)
  }

  lemma ExtendsSelf(b: Books, rs: seq<Region>, m: nat)
    requires Sound(b, rs) && b.limbo == {} && m < |b.pages|
    ensures Extends(b, b, m)
  {
    assert Gained(b, b, m) == {};
    forall n, k, l | PageFrame(b.sp, n, k, l) != -1
      ensures TableKept(b.sp, b.sp, n, k) && PageKept(b.sp, b.sp, n, k, l)
    {
      assert FrameAt(b.sp, PtOf(n, k)) == PtFrame(b.sp, n, k) && FrameAt(b.sp, PdOf(n)) == PdFrame(b.sp, n);
    }
  }

  lemma AtopExtends(b0: Books, b1: Books, b: Books, m: nat)
    requires Atop(b0, b1, m) && b1.limbo == {} && Extends(b1, b, m)
    ensures Atop(b0, b, m)
  {
    assert FramesOf(b.owner, m) + b.limbo == FramesOf(b1.owner, m) + Gained(b1, b, m);
  }

  lemma ExtendsTaken(b1: Books, b: Books, m: nat, f: nat)
    requires Extends(b1, b, m) && f in b.free
    ensures Extends(b1, Taken(b, f), m)
  {
    assert Gained(b1, Taken(b, f), m) == Gained(b1, b, m) + {f};
  }

  /** A change that fills a gained frame or links one keeps the rest. */
  lemma ExtendsChanged(b1: Books, b: Books, b': Books, m: nat)
    requires Extends(b1, b, m) && b'.sp.live == b.sp.live && b'.sp.pd == b.sp.pd && b'.kernel == b.kernel
    requires b'.free == b.free && b'.kernelPd == b.kernelPd
    requires |b'.pages| == |b.pages| && b'.pages == b.pages[m := b'.pages[m]]
    requires Without(b'.owner, m) == Without(b.owner, m) && OwnersKept(b.owner, b'.owner)
    requires FramesOf(b'.owner, m) + b'.limbo == FramesOf(b.owner, m) + b.limbo
    requires FramesOf(b.owner, m) !! b.limbo && FramesOf(b'.owner, m) !! b'.limbo && FramesOf(b1.owner, m) !! b'.limbo
    requires |b'.sp.ram| == |b.sp.ram|
    requires forall f {:trigger b'.sp.ram[f]} ::
      0 <= f < |b.sp.ram| && f !in b1.free && f !in FramesOf(b1.owner, m) ==> b'.sp.ram[f] == b.sp.ram[f]
    requires MappingsKept(b.sp, b'.sp)
    ensures Extends(b1, b', m)
  {
    forall f | f in b1.owner ensures f in b'.owner && b'.owner[f] == b1.owner[f] {
      assert b.owner[f] == b1.owner[f];
    }
    assert FramesOf(b.owner, m) <= FramesOf(b'.owner, m) by {
      forall f | f in FramesOf(b.owner, m) ensures f in FramesOf(b'.owner, m) { assert b'.owner[f] == b.owner[f]; }
    }
    assert Gained(b1, b', m) == Gained(b1, b, m);
    forall n, k, l | PageFrame(b1.sp, n, k, l) != -1
      ensures TableKept(b1.sp, b'.sp, n, k) && PageKept(b1.sp, b'.sp, n, k, l)
    {
      assert TableKept(b1.sp, b.sp, n, k) && PageKept(b1.sp, b.sp, n, k, l);
      assert PageFrame(b.sp, n, k, l) == PageFrame(b1.sp, n, k, l);
      assert TableKept(b.sp, b'.sp, n, k) && PageKept(b.sp, b'.sp, n, k, l);
    }
  }

  lemma WithoutPlaced(owner: map<nat, Place>, m: nat, f: nat, p: Place)
    requires f !in owner && p.mm == m
    ensures Without(owner[f := p], m) == Without(owner, m)
    ensures FramesOf(owner[f := p], m) == FramesOf(owner, m) + {f}
  {
  }

  lemma OwnPd(b: Books, m: nat)
    requires Owned(b.sp, b.owner) && IsLive(b.sp, m)
    ensures b.sp.pd[m] < |b.sp.ram| && b.sp.pd[m] in FramesOf(b.owner, m)
  {
    assert FrameAt(b.sp, PdOf(m)) == b.sp.pd[m];
  }

  lemma OwnPt(b: Books, m: nat, i: nat)
    requires Owned(b.sp, b.owner) && PtFrame(b.sp, m, i) != -1
    ensures 0 <= PtFrame(b.sp, m, i) < |b.sp.ram| && PtFrame(b.sp, m, i) in FramesOf(b.owner, m)
  {
    assert FrameAt(b.sp, PtOf(m, i)) == PtFrame(b.sp, m, i);
  }

  lemma OwnPage(b: Books, m: nat, i: nat, j: nat)
    requires Owned(b.sp, b.owner) && PageFrame(b.sp, m, i, j) != -1
    ensures 0 <= PageFrame(b.sp, m, i, j) < |b.sp.ram| && PageFrame(b.sp, m, i, j) in FramesOf(b.owner, m)
  {
    assert FrameAt(b.sp, PageOf(m, i, j)) == PageFrame(b.sp, m, i, j);
  }

  /** Every directory, table and page frame of a live address space is allocated,
      lies in usable memory, is not the kernel's, and has no other place. */
  lemma EachFrameOnce(b: Books, rs: seq<Region>, p: Place, q: Place)
    requires Sound(b, rs) && FrameAt(b.sp, p) != -1
    ensures 0 <= FrameAt(b.sp, p) < |b.sp.ram| && IsLive(b.sp, p.mm)
    ensures FrameAt(b.sp, p) !in b.free && FrameAt(b.sp, p) !in b.kernel && !FrameReserved(rs, FrameAt(b.sp, p))
    ensures FrameAt(b.sp, q) == FrameAt(b.sp, p) ==> q == p
  {
    assert Classed(b, FrameAt(b.sp, p));
    if FrameAt(b.sp, q) == FrameAt(b.sp, p) { OnePlacePerFrame(b.sp, b.owner, p, q); }
  }

  // ---- Steps of a growing address space ----

  ghost predicate Growing(b1: Books, b: Books, rs: seq<Region>, m: nat) {
    Sound(b1, rs) && b1.limbo == {} && Sound(b, rs) && Extends(b1, b, m) && IsLive(b.sp, m)
  }

  lemma GrowTaken(b1: Books, b: Books, rs: seq<Region>, m: nat, f: nat)
    requires Growing(b1, b, rs, m) && f in b.free
    ensures Growing(b1, Taken(b, f), rs, m)
  {
    TakenSound(b, rs, f);
    ExtendsTaken(b1, b, m, f);
  }

  lemma LimboIsGained(b1: Books, b: Books, rs: seq<Region>, m: nat)
    requires Growing(b1, b, rs, m)
    ensures FramesOf(b.owner, m) !! b.limbo && FramesOf(b1.owner, m) !! b.limbo
    ensures forall f :: f in b.limbo ==> f in b1.free && f !in b.owner
  {
    forall f | f in b.limbo ensures f in b1.free && f !in b.owner {
      LimboIsApart(b, rs, f);
      assert f in Gained(b1, b, m);
    }
  }

  lemma GrowWritten(b1: Books, b: Books, rs: seq<Region>, m: nat, f: nat, content: Page)
    requires Growing(b1, b, rs, m) && f in b.limbo
    ensures f < |b.sp.ram| && Growing(b1, Written(b, f, content), rs, m)
  {
    WrittenSound(b, rs, f, content);
    LimboIsGained(b1, b, rs, m);
    var b' := Written(b, f, content);
    forall n, k, l | PageFrame(b.sp, n, k, l) != -1
      ensures TableKept(b.sp, b'.sp, n, k) && PageKept(b.sp, b'.sp, n, k, l)
    {
      FillKeeps(b.sp, b.owner, f, content, n, k, l);
    }
    ExtendsChanged(b1, b, b', m);
  }

  lemma GrowTable(b1: Books, b: Books, rs: seq<Region>, m: nat, i: nat, f: nat, flags: nat)
    requires Growing(b1, b, rs, m) && f in b.limbo && f < |b.sp.ram| && b.sp.ram[f] == ZeroPage()
    requires i < USER_PDES && PtFrame(b.sp, m, i) == -1 && flags == 7
    ensures b.sp.pd[m] < |b.sp.ram| && Growing(b1, TableEntered(b, m, i, f, flags), rs, m)
  {
    LimboIsGained(b1, b, rs, m);
    TableEnteredSound(b, rs, m, i, f, flags);
    WithoutPlaced(b.owner, m, f, PtOf(m, i));
    OwnPd(b1, m);
    var b' := TableEntered(b, m, i, f, flags);
    forall n, k, l | PageFrame(b.sp, n, k, l) != -1
      ensures TableKept(b.sp, b'.sp, n, k) && PageKept(b.sp, b'.sp, n, k, l)
    {
      TableLinkKeeps(b.sp, b.owner, m, i, f, flags, n, k, l);
    }
    ExtendsChanged(b1, b, b', m);
  }

  lemma PageEnteredKeeps(b: Books, m: nat, i: nat, j: nat, f: nat, flags: nat)
    requires Owned(b.sp, b.owner) && f < |b.sp.ram| && f !in b.owner && IsLive(b.sp, m) && m < |b.pages|
    requires 0 <= PtFrame(b.sp, m, i) < |b.sp.ram| && j < ENTRIES && PageFrame(b.sp, m, i, j) == -1
    requires flags < FLAG_BITS && flags % 2 == 1
    ensures MappingsKept(b.sp, PageEntered(b, m, i, j, f, flags).sp)
  {
    var sp' := PageEntered(b, m, i, j, f, flags).sp;
    forall n, k, l | PageFrame(b.sp, n, k, l) != -1
      ensures TableKept(b.sp, sp', n, k) && PageKept(b.sp, sp', n, k, l)
    {
      PageLinkKeeps(b.sp, b.owner, m, i, j, f, flags, n, k, l);
    }
  }

  lemma PageEnteredExtends(b1: Books, b: Books, rs: seq<Region>, m: nat, i: nat, j: nat, f: nat, flags: nat)
    requires Growing(b1, b, rs, m) && f in b.limbo && f < |b.sp.ram|
    requires 0 <= PtFrame(b.sp, m, i) < |b.sp.ram| && j < ENTRIES && PageFrame(b.sp, m, i, j) == -1 && m < |b.pages|
    requires flags < FLAG_BITS && flags % 2 == 1
    ensures Extends(b1, PageEntered(b, m, i, j, f, flags), m)
  {
    LimboIsGained(b1, b, rs, m);
    WithoutPlaced(b.owner, m, f, PageOf(m, i, j));
    OwnPt(b, m, i);
    assert PtFrame(b.sp, m, i) in FramesOf(b1.owner, m) || PtFrame(b.sp, m, i) in Gained(b1, b, m);
    PageEnteredKeeps(b, m, i, j, f, flags);
    ExtendsChanged(b1, b, PageEntered(b, m, i, j, f, flags), m);
  }

  lemma GrowPage(b1: Books, b: Books, rs: seq<Region>, m: nat, i: nat, j: nat, f: nat, flags: nat)
    requires Growing(b1, b, rs, m) && f in b.limbo
    requires PtFrame(b.sp, m, i) != -1 && j < ENTRIES && PageFrame(b.sp, m, i, j) == -1 && flags < FLAG_BITS
    requires flags % 2 == 1
    ensures 0 <= PtFrame(b.sp, m, i) < |b.sp.ram| && m < |b.pages|
    ensures Growing(b1, PageEntered(b, m, i, j, f, flags), rs, m)
  {
    LimboIsApart(b, rs, f);
    PageEnteredSound(b, rs, m, i, j, f, flags);
    PageEnteredExtends(b1, b, rs, m, i, j, f, flags);
  }

  lemma PageWrittenSound(b: Books, rs: seq<Region>, m: nat, i: nat, j: nat, content: Page)
    requires Sound(b, rs) && PageFrame(b.sp, m, i, j) != -1
    ensures 0 <= PageFrame(b.sp, m, i, j) < |b.sp.ram|
    ensures Sound(Written(b, PageFrame(b.sp, m, i, j), content), rs)
  {
    var f := PageFrame(b.sp, m, i, j);
    assert FrameAt(b.sp, PageOf(m, i, j)) == f && Classed(b, f);
    WriteData(b.sp, b.owner, f, content);
    DirectoriesStay(b, Written(b, f, content));
    SameBooks(b, Written(b, f, content), rs);
  }

  /** Filling a page that was just entered. */
  lemma GrowFilled(b1: Books, b: Books, rs: seq<Region>, m: nat, i: nat, j: nat, content: Page)
    requires Growing(b1, b, rs, m) && PageFrame(b.sp, m, i, j) != -1 && PageFrame(b1.sp, m, i, j) == -1
    ensures 0 <= PageFrame(b.sp, m, i, j) < |b.sp.ram|
    ensures Growing(b1, Written(b, PageFrame(b.sp, m, i, j), content), rs, m)
  {
    var f, p := PageFrame(b.sp, m, i, j), PageOf(m, i, j);
    assert FrameAt(b.sp, p) == f;
    assert f in FramesOf(b.owner, m);
    assert FrameAt(b1.sp, p) == -1 && b.owner[f] == p;
    assert f !in b1.owner;
    assert f in Gained(b1, b, m);
    PageWrittenSound(b, rs, m, i, j, content);
    var b' := Written(b, f, content);
    forall n, k, l | PageFrame(b1.sp, n, k, l) != -1
      ensures TableKept(b1.sp, b'.sp, n, k) && PageKept(b1.sp, b'.sp, n, k, l)
    {
      assert TableKept(b1.sp, b.sp, n, k) && PageKept(b1.sp, b.sp, n, k, l);
      FillOther(b.sp, b.owner, m, i, j, content, n, k, l);
    }
    assert Gained(b1, b', m) == Gained(b1, b, m);
  }
}
