/** Address spaces: creation, mapping, eager cloning and teardown of page
    directories on top of the physical memory manager. Every frame is free,
    the kernel's, or has exactly one place in one live address space. */
module AddressSpaces {
  import opened Words
  import opened Pmm
  import opened Regions
  import opened PageTables
  import opened PageBytes
  import opened PageClone
  import opened FrameBooks
  import opened CloneBooks
  import opened MapBooks
  import opened Budgets
  import opened SpaceAreas
  import opened SlotPool
  import opened Vmas

  /** A failed operation: the same frames are free, the same address spaces
      live, and no frame in use has changed. */
  ghost predicate Restored(b0: Books, b: Books) {
    && b.free == b0.free && b.owner == b0.owner && b.kernel == b0.kernel && b.kernelPd == b0.kernelPd
    && b.sp.live == b0.sp.live && |b.sp.pd| == |b0.sp.pd|
    && (forall m :: 0 <= m < |b0.sp.live| == |b0.sp.pd| && b0.sp.live[m] ==> b.sp.pd[m] == b0.sp.pd[m])
    && RamKept(b0.sp.ram, b.sp.ram, b0.free)
  }

  /** A directory in use is not among the frames of a new address space. */
  lemma LoadedAtop(b0: Books, b: Books, m: nat, cr3: nat)
    requires Atop(b0, b, m) && (cr3 in b0.kernel || (cr3 in b0.owner && b0.owner[cr3].PdOf?))
    ensures cr3 in b.kernel || (cr3 in b.owner && b.owner[cr3].PdOf?)
  {
    assert cr3 in b0.owner ==> cr3 in Without(b.owner, m);
  }

  lemma LoadedElsewhere(b: Books, m: nat, cr3: nat)
    requires Owned(b.sp, b.owner) && IsLive(b.sp, m) && cr3 != b.sp.pd[m]
    requires cr3 in b.kernel || (cr3 in b.owner && b.owner[cr3].PdOf?)
    ensures cr3 in b.kernel || (cr3 in Without(b.owner, m) && Without(b.owner, m)[cr3].PdOf?)
  {
    assert cr3 in b.owner ==> FrameAt(b.sp, b.owner[cr3]) == cr3;
  }

  lemma LoadedPd(b: Books, m: nat)
    requires Owned(b.sp, b.owner) && IsLive(b.sp, m)
    ensures b.sp.pd[m] in b.owner && b.owner[b.sp.pd[m]] == PdOf(m)
  {
    assert FrameAt(b.sp, PdOf(m)) == b.sp.pd[m];
  }

  lemma LoadedExtends(b1: Books, b: Books, m: nat, cr3: nat)
    requires Extends(b1, b, m) && (cr3 in b1.kernel || (cr3 in b1.owner && b1.owner[cr3].PdOf?))
    ensures cr3 in b.kernel || (cr3 in b.owner && b.owner[cr3].PdOf?)
  {
  }

  /** Whether or not all of a region could be mapped, the areas fit. */
  lemma RegionSettled(b1: Books, b: Books, m: nat, cr3: nat, areas: seq<seq<Vma>>, v: Vma,
                      q0: nat, q1: nat, flags: nat, data: seq<nat>, ok: bool)
    requires Extends(b1, b, m) && (cr3 in b1.kernel || (cr3 in b1.owner && b1.owner[cr3].PdOf?))
    requires AreasOk(b1.sp, areas) && m < |areas| && IsLive(b1.sp, m) && RegionFree(b1.sp, m, q0, q1)
    requires v.start == q0 * PAGE_BYTES && v.end == q1 * PAGE_BYTES <= USER_LIMIT && q0 < q1
    requires ok ==> MappedUpTo(b1, b, m, q0, q1, flags, data)
    ensures cr3 in b.kernel || (cr3 in b.owner && b.owner[cr3].PdOf?)
    ensures AreasOk(b.sp, if ok then areas[m := Inserted(areas[m], v)] else areas)
  {
    LoadedExtends(b1, b, m, cr3);
    if ok {
      RegionAreas(b1, b, m, areas, v, q0, q1, flags, data);
    } else {
      AreasExtended(b1, b, m, areas);
    }
  }

  /** Address space c is new, and a is another. */
  ghost predicate NewBeside(b0: Books, b: Books, a: nat, c: nat) {
    true == (&& IsLive(b.sp, a) && IsLive(b.sp, c) && a != c && Atop(b0, b, c)
             && b.sp.pd[c] < |b.sp.ram| && BlankDirectory(b.sp.ram[b.sp.pd[c]]))
  }

  /** The same, which the verifier looks into only where NewBeside is mentioned. */
  ghost predicate CopyReady(b0: Books, b: Books, a: nat, c: nat) { forall x :: x == b ==> NewBeside(b0, x, a, c) }

  lemma CopyStarts(b0: Books, b1: Books, rs: seq<Region>, a: nat, c: nat)
    requires CopyReady(b0, b1, a, c) && Sound(b1, rs) && b1.limbo == {}
    ensures CopiedTables(b1, b1, rs, a, c, 0)
  {
    assert NewBeside(b0, b1, a, c);
    ExtendsSelf(b1, rs, c);
    StartCopy(b1, b1, rs, a, c);
  }

  /** The pages of a are in c, on top of b0, or frames have run out. */
  ghost predicate PagesAre(b0: Books, b1: Books, b: Books, a: nat, c: nat, ok: bool) {
    true == (&& IsLive(b.sp, a) && IsLive(b.sp, c) && a != c && Atop(b0, b, c) && b.limbo == {} && b.sp.pd == b1.sp.pd
             && if ok then SameUser(b.sp, a, c) else Starved(b, a, c))
  }

  /** The same, which the verifier looks into only where PagesAre is mentioned. */
  ghost predicate PagesIn(b0: Books, b1: Books, b: Books, a: nat, c: nat, ok: bool) {
    forall x :: x == b ==> PagesAre(b0, b1, x, a, c, ok)
  }

  lemma CopySettled(b0: Books, b1: Books, b: Books, rs: seq<Region>, a: nat, c: nat, cr3: nat, areas: seq<seq<Vma>>,
                    ok: bool)
    requires CopyReady(b0, b1, a, c) && b1.limbo == {} && AreasOk(b1.sp, areas)
    requires Copying(b1, b, rs, a, c) && if ok then SameUser(b.sp, a, c) else Starved(b, a, c)
    requires cr3 in b1.kernel || (cr3 in b1.owner && b1.owner[cr3].PdOf?)
    ensures PagesIn(b0, b1, b, a, c, ok) && AreasOk(b.sp, areas)
    ensures cr3 in b.kernel || (cr3 in b.owner && b.owner[cr3].PdOf?)
  {
    assert NewBeside(b0, b1, a, c);
    AtopExtends(b0, b1, b, c);
    AreasExtended(b1, b, c, areas);
    LoadedExtends(b1, b, c, cr3);
  }

  /** The directory of a new address space is not the one in use. */
  lemma NewIsNotLoaded(b0: Books, b: Books, rs: seq<Region>, m: nat, cr3: nat)
    requires Sound(b0, rs) && Owned(b.sp, b.owner) && Atop(b0, b, m) && IsLive(b.sp, m)
    requires cr3 in b0.kernel || cr3 in b0.owner
    ensures cr3 != b.sp.pd[m]
  {
    OwnPd(b, m);
    FreeIsApart(b0, rs, b.sp.pd[m]);
  }

  lemma PageAddress(start: nat, p: nat, pages: nat, q0: nat)
    requires start == q0 * PAGE_BYTES && p < pages && start + pages * PAGE_BYTES <= USER_LIMIT
    ensures start + p * PAGE_BYTES == (q0 + p) * PAGE_BYTES < USER_LIMIT
  {
  }

  lemma RegionPages(start: nat, size: nat)
    requires start < WORD && size < WORD && RangeAccepted(start, size) && start + size < WORD
    ensures start == start / PAGE_BYTES * PAGE_BYTES
    ensures start + size == (start / PAGE_BYTES + size / PAGE_BYTES) * PAGE_BYTES
    ensures (start + size) / PAGE_BYTES == start / PAGE_BYTES + size / PAGE_BYTES && size / PAGE_BYTES > 0
    ensures start + size <= USER_LIMIT
  {
    RangeCheckIffNoWrap(start, size);
  }

  /** Only list m has changed, and only if all went well. */
  ghost predicate ListsOutcome(lists: seq<seq<nat>>, lists': seq<seq<nat>>, m: nat, ok: bool) {
    m < |lists| == |lists'| && lists' == lists[m := lists'[m]] && (!ok ==> lists' == lists)
  }

  /** What copying a into c comes to: an equal address space on top of the
      others, or what was there before. */
  ghost predicate CloneOutcome(b0: Books, b: Books, areas: seq<seq<Vma>>, areas': seq<seq<Vma>>,
                               lists: seq<seq<nat>>, lists': seq<seq<nat>>, a: nat, c: nat, ok: bool)
  {
    true ==
    if ok then
      && IsLive(b.sp, a) && IsLive(b.sp, c) && a != c && Atop(b0, b, c) && SameUser(b.sp, a, c)
      && AreasCopied(areas, areas', a, c, true) && ListsOutcome(lists, lists', c, true)
    else
      Restored(b0, b) && areas' == areas && lists' == lists
  }

  /** Memory as a value: the books, the areas of each address space, the records
      they are kept in, and how many records there are. */
  datatype Image = Image(b: Books, areas: seq<seq<Vma>>, slots: seq<seq<nat>>, pool: nat)

  /** The same frames, address spaces, areas and records as before. */
  ghost predicate AsBefore(i0: Image, i: Image) {
    Restored(i0.b, i.b) && i.areas == i0.areas && i.slots == i0.slots && i.pool == i0.pool
  }

  /** There is a record for each area. */
  ghost predicate Recorded(i: Image) {
    |i.slots| == |i.areas| && forall m :: 0 <= m < |i.slots| ==> |i.slots[m]| == |i.areas[m]|
  }

  /** Address space m is new in i': empty, on top of what there was in i, and not
      the one that is loaded. */
  ghost predicate NewIn(i: Image, i': Image, cr3: nat, m: nat) {
    true == (&& IsLive(i'.b.sp, m) && Atop(i.b, i'.b, m) && i'.b.limbo == {} && i' == i.(b := i'.b)
             && m < |i.areas| && i.areas[m] == [] && m < |i.slots| && i.slots[m] == []
             && i'.b.sp.pd[m] < |i'.b.sp.ram| && BlankDirectory(i'.b.sp.ram[i'.b.sp.pd[m]]) && cr3 != i'.b.sp.pd[m])
  }

  lemma CreatedIn(i: Image, i': Image, rs: seq<Region>, cr3: nat, m: nat)
    requires Sound(i.b, rs) && Owned(i'.b.sp, i'.b.owner) && Atop(i.b, i'.b, m) && IsLive(i'.b.sp, m)
    requires i'.b.limbo == {} && i' == i.(b := i'.b) && AreasOk(i.b.sp, i.areas) && Recorded(i)
    requires cr3 in i.b.kernel || cr3 in i.b.owner
    requires var b := i'.b;
      b.sp.pd[m] < |b.sp.ram| && b.kernelPd < |b.sp.ram| && ForSpace(b.sp.ram[b.sp.pd[m]], b.sp.ram[b.kernelPd])
    ensures NewIn(i, i', cr3, m)
  {
    NewIsNotLoaded(i.b, i'.b, rs, m, cr3);
    assert OneSpace(i.b.sp, m, i.areas[m]);
  }

  /** The pages of a are copied into c, or frames have run out. */
  ghost predicate PagesTried(i0: Image, i: Image, i': Image, a: nat, c: nat, ok: bool) {
    true == (i' == i.(b := i'.b) && PagesAre(i0.b, i.b, i'.b, a, c, ok))
  }

  lemma NewIsCopied(i0: Image, i: Image, cr3: nat, a: nat, c: nat)
    requires NewIn(i0, i, cr3, c) && IsLive(i0.b.sp, a)
    ensures CopyReady(i0.b, i.b, a, c)
  {
  }

  /** The areas of a are copied into c, as far as records went. */
  ghost predicate AreasTried(i: Image, i': Image, a: nat, c: nat, ok: bool) {
    true == (&& i'.b == i.b && i'.pool == i.pool && ListsOutcome(i.slots, i'.slots, c, true)
             && AreasCopied(i.areas, i'.areas, a, c, ok) && (ok <==> RecordsFit(i.areas, InUse(i.slots, i.pool), a)))
  }

  /** Memory without address space m, its areas and its records. */
  ghost function GoneFrom(i: Image, m: nat): Image
    requires m < |i.b.sp.live| && m < |i.areas| && m < |i.slots|
  {
    Image(Gone(i.b, m), i.areas[m := []], i.slots[m := []], i.pool)
  }

  /** What copying address space a into c comes to, for memory as a whole. */
  ghost predicate Cloned(i0: Image, i: Image, a: nat, c: nat, ok: bool) {
    true == (&& i.pool == i0.pool
             && CloneOutcome(i0.b, i.b, i0.areas, i.areas, i0.slots, i.slots, a, c, ok))
  }

  lemma ClonedIs(i0: Image, i1: Image, i2: Image, i3: Image, cr3: nat, a: nat, c: nat)
    requires NewIn(i0, i1, cr3, c) && PagesTried(i0, i1, i2, a, c, true) && AreasTried(i2, i3, a, c, true)
    ensures Cloned(i0, i3, a, c, true)
  {
  }

  /** Taking a new address space down again, pages, areas and all, brings back
      what was there before. */
  lemma NewIsGone(i0: Image, i: Image, m: nat)
    requires Atop(i0.b, i.b, m) && i.b.limbo == {} && i.pool == i0.pool
    requires m < |i0.areas| == |i.areas| && i0.areas[m] == [] && i.areas == i0.areas[m := i.areas[m]]
    requires ListsOutcome(i0.slots, i.slots, m, true) && i0.slots[m] == []
    ensures AsBefore(i0, GoneFrom(i, m))
  {
    GoneUndoesAtop(i0.b, i.b, m);
    assert i0.areas[m := i.areas[m]][m := []] == i0.areas && i0.slots[m := i.slots[m]][m := []] == i0.slots;
  }

  lemma PagesUndone(i0: Image, i1: Image, i2: Image, cr3: nat, a: nat, c: nat)
    requires NewIn(i0, i1, cr3, c) && PagesTried(i0, i1, i2, a, c, false)
    ensures cr3 != i2.b.sp.pd[c] && c < |i2.areas| && c < |i2.slots| && Cloned(i0, GoneFrom(i2, c), a, c, false)
  {
    NewIsGone(i0, i2, c);
  }

  lemma AreasUndone(i0: Image, i1: Image, i2: Image, i3: Image, cr3: nat, a: nat, c: nat)
    requires NewIn(i0, i1, cr3, c) && PagesTried(i0, i1, i2, a, c, true) && AreasTried(i2, i3, a, c, false)
    ensures IsLive(i3.b.sp, c) && cr3 != i3.b.sp.pd[c] && c < |i3.areas| && c < |i3.slots|
    ensures Cloned(i0, GoneFrom(i3, c), a, c, false)
  {
    NewIsGone(i0, i3, c);
  }

  /** There are as many free records as address space a has areas. */
  ghost predicate RecordsFit(areas: seq<seq<Vma>>, used: seq<bool>, a: nat) {
    a < |areas| && |areas[a]| <= |FreeSlots(used)|
  }

  /** There is room for a copy of address space a: a slot, frames and records. */
  ghost predicate CanClone(b: Books, areas: seq<seq<Vma>>, used: seq<bool>, a: nat) {
    FreeSlots(b.sp.live) != {} && FramesFit(b, a) && RecordsFit(areas, used, a)
  }

  /** What the mapping loop is asked for: user pages [q0, q1), all unmapped. Stated
      as one fact. */
  ghost predicate Mappable(b: Books, m: nat, start: nat, pages: nat, flags: nat, data: seq<nat>, q0: nat, q1: nat) {
    true == (&& start == q0 * PAGE_BYTES && start + pages * PAGE_BYTES <= USER_LIMIT && q1 == q0 + pages
             && RegionFree(b.sp, m, q0, q1) && flags < FLAG_BITS && flags % 2 == 1 && IsBytes(data))
  }

  /** Pages and tables are mapped up to page number q. Stated as one fact. */
  ghost predicate AsFarAs(b1: Books, b: Books, m: nat, q0: nat, q: nat, flags: nat, data: seq<nat>) {
    true == (IsLive(b.sp, m) && MappedUpTo(b1, b, m, q0, q, flags, data) && TablesFor(b1.sp, b.sp, m, q0, q))
  }

  /** There is room for an area of pages [q0, q1): a record and frames. */
  ghost predicate CanMap(b: Books, used: seq<bool>, m: nat, q0: nat, q1: nat) {
    FreeSlots(used) != {} && Affordable(b, m, q0, q1)
  }

  class Memory {
    const pmm: Manager
    const vmas: VmaPool
    const kernelPd: nat
    var ram: seq<Page>
    var mmLive: seq<bool>
    var mmPd: seq<nat>
    var mmPages: seq<nat>
    var cr3: nat
    ghost var owner: map<nat, Place>
    ghost var kernel: set<nat>

    ghost function Sp(): Space
      reads this
    {
      Space(ram, mmLive, mmPd)
    }

    ghost function Now(limbo: set<nat>): Books
      reads this, pmm
    {
      Books(Sp(), mmPages, owner, kernel, pmm.free, limbo, kernelPd)
    }

    ghost function View(): Image
      reads this, pmm, vmas
    {
      var areas := if InRange(vmas.recs, vmas.lists) then AreasOf(vmas.recs, vmas.lists) else [];
      Image(Now({}), areas, vmas.lists, |vmas.used|)
    }

    /** The physical memory manager manages n frames. */
    ghost predicate ManagerOf(n: nat)
      reads pmm, pmm.bitmap, pmm.table
    {
      pmm.Valid() && pmm.frameCount == n && 0 < n && LowMemoryReserved(pmm.table.slots)
    }

    /** The physical memory manager agrees with sound books. */
    ghost predicate Holds(b: Books)
      reads pmm, pmm.bitmap, pmm.table
    {
      ManagerOf(|b.sp.ram|) && b.free == pmm.free && Sound(b, pmm.table.slots)
    }

    ghost predicate Steady()
      reads this, pmm, pmm.bitmap, pmm.table
    {
      Holds(Now({}))
    }

    /** At boot every frame that is not free is the kernel's. */
    constructor (manager: Manager, pool: VmaPool, kernelDirectory: nat, frames: seq<Page>)
      requires manager.Valid() && manager.frameCount == |frames| && |frames| > 0
      requires LowMemoryReserved(manager.table.slots)
      requires kernelDirectory < |frames| && kernelDirectory !in manager.free
      requires pool.Tight({}) && forall m :: 0 <= m < |pool.lists| ==> pool.lists[m] == []
      ensures Valid() && pmm == manager && vmas == pool && kernelPd == kernelDirectory && cr3 == kernelPd
      ensures ram == frames
      ensures owner == map[] && |mmLive| == |pool.lists| && forall m :: 0 <= m < |mmLive| ==> !mmLive[m]
    {
      pmm, vmas, kernelPd, ram, cr3 := manager, pool, kernelDirectory, frames, kernelDirectory;
      var slots := |pool.heads|;
      mmLive, mmPd, mmPages := seq(slots, _ => false), seq(slots, _ => 0), seq(slots, _ => 0);
      owner := map[];
      kernel := set f: nat | f < |frames| && f !in manager.free;
    }

    /** A frame from the physical memory manager, now in limbo. */
    method NewFrame(ghost b: Books) returns (ok: bool, f: nat)
      requires Holds(b)
      modifies pmm`availableFrames, pmm`free, pmm`frameHint, pmm.bitmap
      ensures ok <==> b.free != {}
      ensures !ok ==> Holds(b)
      ensures ok ==> f in b.free && f < |b.sp.ram| && LOW_MEMORY / FRAME_SIZE <= f && Holds(Taken(b, f))
    {
      FreeAboveLowMemory(pmm.table.slots, pmm.free);
      var address, status := pmm.GetNextAvailableBlock();
      ok, f := status == AllocSuccess, address / FRAME_SIZE;
      if ok {
        FreeIsApart(b, pmm.table.slots, f);
        TakenSound(b, pmm.table.slots, f);
      }
    }

    /** Returns a frame in limbo; the manager accepts it. */
    method DropFrame(f: nat, ghost b: Books)
      requires Holds(b) && f in b.limbo
      modifies pmm`availableFrames, pmm`free, pmm`frameHint, pmm.bitmap
      ensures Holds(Dropped(b, f))
    {
      AddressOf(f);
      LimboIsApart(b, pmm.table.slots, f);
      DroppedSound(b, pmm.table.slots, f);
      var status := pmm.DeallocSpecificBlock(f * FRAME_SIZE);
      assert status == AllocSuccess;
    }

    // ---- Writing frames ----

    method ZeroWords(f: nat)
      requires f < |ram|
      modifies this`ram
      ensures ram == old(ram)[f := ZeroPage()]
    {
      var z := 0;
      while z < ENTRIES
        invariant 0 <= z <= ENTRIES && |ram| == |old(ram)|
        invariant forall g :: 0 <= g < |ram| && g != f ==> ram[g] == old(ram)[g]
        invariant forall k :: 0 <= k < z ==> ram[f][k] == 0
      {
        ram := SetWord(ram, f, z, 0);
        z := z + 1;
      }
      assert ram[f] == ZeroPage();
    }

    /** A page directory: empty user half, the kernel directory's upper half. */
    method BuildDirectory(f: nat)
      requires f < |ram| && kernelPd < |ram| && f != kernelPd
      modifies this`ram
      ensures |ram| == |old(ram)| && ram == old(ram)[f := ram[f]] && ForSpace(ram[f], ram[kernelPd])
    {
      ZeroWords(f);
      var i := USER_PDES;
      while i < ENTRIES
        invariant USER_PDES <= i <= ENTRIES && |ram| == |old(ram)|
        invariant forall g :: 0 <= g < |ram| && g != f ==> ram[g] == old(ram)[g]
        invariant forall k :: 0 <= k < ENTRIES ==> ram[f][k] == if USER_PDES <= k < i then ram[kernelPd][k] else 0
      {
        ram := SetWord(ram, f, i, ram[kernelPd][i]);
        i := i + 1;
      }
    }

    /** Copies data to the front of a zeroed frame. */
    method CopyBytes(f: nat, data: seq<nat>)
      requires f < |ram| && ram[f] == ZeroPage() && IsBytes(data) && |data| <= PAGE_BYTES
      modifies this`ram
      ensures ram == old(ram)[f := PageWith(data)]
    {
      NoBytes();
      var k := 0;
      while k < |data|
        invariant 0 <= k <= |data|
        invariant ram == old(ram)[f := PageWith(data[..k])]
      {
        PutNext(data, k);
        ram := SetWord(ram, f, k / 4, PutByte(ram[f][k / 4], k % 4, data[k]));
        k := k + 1;
      }
      assert data[..|data|] == data;
    }

    // ---- Creation ----

    /** A directory frame, built but in no address space yet. */
    method AllocDirectory() returns (ok: bool, f: nat)
      requires Steady()
      modifies this`ram, pmm`availableFrames, pmm`free, pmm`frameHint, pmm.bitmap
      ensures ok <==> old(pmm.free) != {}
      ensures !ok ==> Steady() && Now({}) == old(Now({}))
      ensures ok ==>
        && f in old(pmm.free) && f < |old(ram)| == |ram| && kernelPd < |ram| && Holds(Now({f}))
        && Now({f}) == Written(Taken(old(Now({})), f), f, ram[f]) && ForSpace(ram[f], ram[kernelPd])
    {
      ghost var b := Now({});
      KernelIsApart(b, pmm.table.slots, kernelPd);
      ok, f := NewFrame(b);
      if ok {
        BuildDirectory(f);
        WrittenSound(Taken(b, f), pmm.table.slots, f, ram[f]);
        assert {} + {f} == {f};
      }
    }

    /** Gives a built directory a slot, or gives the frame back. */
    method PlaceDirectory(f: nat) returns (m: int)
      requires Holds(Now({f})) && f < |ram| && kernelPd < |ram| && ForSpace(ram[f], ram[kernelPd])
      modifies this`mmLive, this`mmPd, this`mmPages, this`owner
      modifies pmm`availableFrames, pmm`free, pmm`frameHint, pmm.bitmap
      ensures Holds(Now({}))
      ensures m == -1 <==> FreeSlots(old(mmLive)) == {}
      ensures m == -1 ==> Now({}) == Dropped(old(Now({f})), f)
      ensures m != -1 ==>
        && 0 <= m < |old(mmLive)| == |old(mmPd)| == |old(mmPages)| && !old(mmLive)[m]
        && Now({}) == SpaceAdded(old(Now({f})), m, f)
    {
      m := AllocSlot(mmLive);
      assert {f} - {f} == {};
      if m == -1 {
        DropFrame(f, Now({f}));
      } else {
        SpaceAddedSound(Now({f}), pmm.table.slots, m, f);
        mmLive, mmPd, mmPages := mmLive[m := true], mmPd[m := f], mmPages[m := 0];
        owner := owner[f := PdOf(m)];
      }
    }

    /** Memory is sound, holds the value i, and has c loaded. The quantifier keeps
        the verifier from looking inside where Valid() is not mentioned. */
    ghost predicate Is(i: Image, c: nat)
      reads this, pmm, pmm.bitmap, pmm.table, vmas
    {
      forall x {:trigger x.Valid()} :: x in {this} ==> x.Valid() && x.View() == i && x.cr3 == c
    }

    lemma LoadedTells(i: Image, c: nat)
      requires Is(i, c)
      ensures c in i.b.kernel || c in i.b.owner
    {
      assert Valid();
    }

    lemma IsTells(i: Image, c: nat)
      requires Is(i, c)
      ensures Sound(i.b, pmm.table.slots) && i.b.limbo == {} && vmas.used == InUse(i.slots, i.pool)
      ensures AreasOk(i.b.sp, i.areas) && Recorded(i)
    {
      assert Valid();
      UsedInView();
    }

    /** What memory is as a value; which records are in use can be told from it. */
    lemma UsedInView()
      requires Valid()
      ensures View() == Image(Now({}), vmas.AllAreas(), vmas.lists, |vmas.used|)
      ensures vmas.used == InUse(View().slots, View().pool)
    {
      UseIsListed(vmas.next, vmas.heads, vmas.lists, vmas.home, vmas.used);
    }

    /** A new, empty address space, or -1 when frames or slots run out. */
    method CreateSpace() returns (m: int)
      requires Steady()
      modifies this`ram, this`mmLive, this`mmPd, this`mmPages, this`owner
      modifies pmm`availableFrames, pmm`free, pmm`frameHint, pmm.bitmap
      ensures Steady()
      ensures m == -1 <==> old(pmm.free) == {} || FreeSlots(old(mmLive)) == {}
      ensures m == -1 ==> Restored(old(Now({})), Now({}))
      ensures m != -1 ==>
        && 0 <= m && IsLive(Sp(), m) && Atop(old(Now({})), Now({}), m) && mmPages[m] == 0
        && kernelPd < |ram| == |old(ram)| && ram[kernelPd] == old(ram)[kernelPd]
        && mmPd[m] < |ram| && ForSpace(ram[mmPd[m]], ram[kernelPd])
    {
      ghost var b0 := Now({});
      KernelIsApart(b0, pmm.table.slots, kernelPd);
      var ok, f := AllocDirectory();
      if !ok {
        return -1;
      }
      ghost var page := ram[f];
      m := PlaceDirectory(f);
      if m == -1 {
        DropUndoesTake(b0, pmm.table.slots, f);
      } else {
        AtopStart(b0, pmm.table.slots, m, f, page);
      }
    }

    /** Makes frame f page (i, j) of address space m. */
    method EnterPage(m: nat, i: nat, j: nat, f: nat, flags: nat, ghost limbo: set<nat>)
      requires 0 <= PtFrame(Sp(), m, i) < |ram| && j < ENTRIES && m < |mmPages|
      modifies this`ram, this`owner, this`mmPages
      ensures Now(limbo - {f}) == PageEntered(old(Now(limbo)), m, i, j, f, flags)
    {
      var pt := FrameOf(ram[mmPd[m]][i]);
      ram := SetWord(ram, pt, j, Entry(f, flags));
      owner := owner[f := PageOf(m, i, j)];
      mmPages := mmPages[m := mmPages[m] + 1];
    }

    /** Makes frame f page table i of address space m. */
    method EnterTable(m: nat, i: nat, f: nat, flags: nat, ghost limbo: set<nat>)
      requires IsLive(Sp(), m) && mmPd[m] < |ram| && i < ENTRIES
      modifies this`ram, this`owner
      ensures Now(limbo - {f}) == TableEntered(old(Now(limbo)), m, i, f, flags)
    {
      ram := SetWord(ram, mmPd[m], i, Entry(f, flags));
      owner := owner[f := PtOf(m, i)];
    }

    // ---- Cloning ----

    /** Copies the page in frame src to a new frame, page (i, j) of address space c. */
    method ClonePage(src: nat, flags: nat, c: nat, i: nat, j: nat) returns (ok: bool, ghost f: nat)
      requires Steady() && IsLive(Sp(), c) && PtFrame(Sp(), c, i) != -1 && j < ENTRIES && src < |ram|
      modifies this`ram, this`owner, this`mmPages
      modifies pmm`availableFrames, pmm`free, pmm`frameHint, pmm.bitmap
      ensures ManagerOf(|ram|)
      ensures !ok ==> Now({}) == old(Now({})) && pmm.free == {}
      ensures ok ==>
        && f in old(pmm.free) && f < |old(ram)| && c < |old(mmPages)|
        && 0 <= PtFrame(Written(Taken(old(Now({})), f), f, old(ram)[src]).sp, c, i) < |old(ram)|
        && Now({}) == PageEntered(Written(Taken(old(Now({})), f), f, old(ram)[src]), c, i, j, f, flags)
    {
      ghost var b := Now({});
      var frame;
      ok, frame := NewFrame(b);
      f := frame;
      if ok {
        OwnPt(b, c, i);
        FreeIsApart(b, pmm.table.slots, f);
        FillKeeps(Sp(), owner, f, ram[src], c, i, j);
        ram := ram[frame := ram[src]];
        EnterPage(c, i, j, frame, flags, {f});
        assert {} + {f} == {f} && {f} - {f} == {};
      }
    }

    /** Copies a page that address space a has at (i, j) into c. */
    method CloneMapped(src: nat, flags: nat, a: nat, c: nat, i: nat, j: nat, ghost b1: Books) returns (ok: bool)
      requires Steady() && CopiedEntries(b1, Now({}), pmm.table.slots, a, c, i, j) && j < ENTRIES
      requires src == PageFrame(Sp(), a, i, j) && src < |ram|
      requires 0 <= PtFrame(Sp(), a, i) < |ram| && flags == FlagsOf(ram[PtFrame(Sp(), a, i)][j])
      modifies this`ram, this`owner, this`mmPages
      modifies pmm`availableFrames, pmm`free, pmm`frameHint, pmm.bitmap
      ensures Steady()
      ensures ok ==> CopiedEntries(b1, Now({}), pmm.table.slots, a, c, i, j + 1)
      ensures !ok ==> Now({}) == old(Now({})) && Starved(Now({}), a, c)
    {
      ghost var b := Now({});
      ghost var f;
      ok, f := ClonePage(src, flags, c, i, j);
      if ok {
        CopyPage(b1, b, pmm.table.slots, a, c, i, j, f);
      } else {
        PageStarves(b, a, c, i, j);
      }
    }

    /** Copies page (i, j) of address space a into c, if there is one. */
    method CloneEntry(a: nat, c: nat, i: nat, j: nat, ghost b1: Books) returns (ok: bool)
      requires Steady() && CopiedEntries(b1, Now({}), pmm.table.slots, a, c, i, j) && j < ENTRIES
      modifies this`ram, this`owner, this`mmPages
      modifies pmm`availableFrames, pmm`free, pmm`frameHint, pmm.bitmap
      ensures Steady()
      ensures ok ==> CopiedEntries(b1, Now({}), pmm.table.slots, a, c, i, j + 1)
      ensures !ok ==> Now({}) == old(Now({})) && Starved(Now({}), a, c)
    {
      OwnPd(Now({}), a);
      OwnPt(Now({}), a, i);
      var pt := FrameOf(ram[mmPd[a]][i]);
      if Present(ram[pt][j]) {
        OwnPage(Now({}), a, i, j);
        ok := CloneMapped(FrameOf(ram[pt][j]), FlagsOf(ram[pt][j]), a, c, i, j, b1);
      } else {
        SkipEntry(Sp(), a, c, i, j);
        ok := true;
      }
    }

    /** A new, empty table i for address space c. */
    method NewTable(c: nat, i: nat, flags: nat, ghost limbo: set<nat>) returns (ok: bool, ghost f: nat)
      requires Holds(Now(limbo)) && IsLive(Sp(), c) && i < ENTRIES
      modifies this`ram, this`owner
      modifies pmm`availableFrames, pmm`free, pmm`frameHint, pmm.bitmap
      ensures ManagerOf(|ram|)
      ensures !ok ==> Now(limbo) == old(Now(limbo)) && pmm.free == {}
      ensures ok ==>
        && f in old(pmm.free) && f < |old(ram)| && mmPd[c] < |old(ram)|
        && Now(limbo) == TableAdded(old(Now(limbo)), c, i, f, flags)
    {
      ghost var b := Now(limbo);
      OwnPd(b, c);
      var frame;
      ok, frame := NewFrame(b);
      f := frame;
      if ok {
        FreeIsApart(b, pmm.table.slots, f);
        ZeroWords(frame);
        EnterTable(c, i, frame, flags, limbo + {f});
        assert limbo + {f} - {f} == limbo;
      }
    }

    /** Starts the copy of table i. */
    method CloneDirectoryEntry(flags: nat, a: nat, c: nat, i: nat, ghost b1: Books) returns (ok: bool)
      requires Steady() && CopiedTables(b1, Now({}), pmm.table.slots, a, c, i) && i < USER_PDES
      requires PtFrame(Sp(), a, i) != -1
      requires mmPd[a] < |ram| && flags == FlagsOf(ram[mmPd[a]][i])
      modifies this`ram, this`owner
      modifies pmm`availableFrames, pmm`free, pmm`frameHint, pmm.bitmap
      ensures Steady()
      ensures ok ==> CopiedEntries(b1, Now({}), pmm.table.slots, a, c, i, 0)
      ensures !ok ==> Now({}) == old(Now({})) && Starved(Now({}), a, c)
    {
      ghost var b := Now({});
      ghost var f;
      ok, f := NewTable(c, i, flags, {});
      if ok {
        MakeTable(b1, b, pmm.table.slots, a, c, i, f);
      } else {
        TableStarves(b, a, c, i);
      }
    }

    /** Copies the pages of table i. */
    method CloneEntries(a: nat, c: nat, i: nat, ghost b1: Books) returns (ok: bool)
      requires Steady() && CopiedEntries(b1, Now({}), pmm.table.slots, a, c, i, 0)
      modifies this`ram, this`owner, this`mmPages
      modifies pmm`availableFrames, pmm`free, pmm`frameHint, pmm.bitmap
      ensures Steady() && Copying(b1, Now({}), pmm.table.slots, a, c) && (!ok ==> Starved(Now({}), a, c))
      ensures ok ==> CopiedTables(b1, Now({}), pmm.table.slots, a, c, i + 1)
    {
      var j := 0;
      while j < ENTRIES
        invariant 0 <= j <= ENTRIES && Steady() && CopiedEntries(b1, Now({}), pmm.table.slots, a, c, i, j)
      {
        ok := CloneEntry(a, c, i, j, b1);
        if !ok {
          return;
        }
        j := j + 1;
      }
      TableDone(Sp(), a, c, i);
      ok := true;
    }

    method CloneTable(a: nat, c: nat, i: nat, ghost b1: Books) returns (ok: bool)
      requires Steady() && CopiedTables(b1, Now({}), pmm.table.slots, a, c, i) && i < USER_PDES
      modifies this`ram, this`owner, this`mmPages
      modifies pmm`availableFrames, pmm`free, pmm`frameHint, pmm.bitmap
      ensures Steady() && Copying(b1, Now({}), pmm.table.slots, a, c) && (!ok ==> Starved(Now({}), a, c))
      ensures ok ==> CopiedTables(b1, Now({}), pmm.table.slots, a, c, i + 1)
    {
      OwnPd(Now({}), a);
      if !Present(ram[mmPd[a]][i]) {
        SkipTable(Sp(), a, c, i);
        return true;
      }
      ok := CloneDirectoryEntry(FlagsOf(ram[mmPd[a]][i]), a, c, i, b1);
      if ok {
        ok := CloneEntries(a, c, i, b1);
      }
    }

    /** Copies all of the user half. */
    method CloneTables(a: nat, c: nat, ghost b1: Books) returns (ok: bool)
      requires Steady() && CopiedTables(b1, Now({}), pmm.table.slots, a, c, 0)
      modifies this`ram, this`owner, this`mmPages
      modifies pmm`availableFrames, pmm`free, pmm`frameHint, pmm.bitmap
      ensures Steady() && Copying(b1, Now({}), pmm.table.slots, a, c)
      ensures if ok then SameUser(Sp(), a, c) else Starved(Now({}), a, c)
    {
      var i := 0;
      while i < USER_PDES
        invariant 0 <= i <= USER_PDES && Steady() && CopiedTables(b1, Now({}), pmm.table.slots, a, c, i)
      {
        ok := CloneTable(a, c, i, b1);
        if !ok {
          return;
        }
        i := i + 1;
      }
      AllCopied(Sp(), a, c);
      ok := true;
    }

    // ---- Teardown ----

    /** Address space m of the books b is going; the loops stand at (i, j). */
    ghost predicate Torn(b: Books, m: nat, i: nat, j: nat)
      reads pmm, pmm.bitmap, pmm.table
    {
      m < |b.sp.live| && Holds(Tear(b, m, i, j))
    }

    /** Frees page (i, j) of address space m, if there is one. */
    method FreeEntry(m: nat, i: nat, j: nat, ghost b: Books)
      requires b.sp == Sp() && Owned(b.sp, b.owner) && IsLive(b.sp, m) && PtFrame(b.sp, m, i) != -1 && j < ENTRIES
      requires Torn(b, m, i, j)
      modifies pmm`availableFrames, pmm`free, pmm`frameHint, pmm.bitmap
      ensures Torn(b, m, i, j + 1)
    {
      OwnPd(b, m);
      OwnPt(b, m, i);
      TearPage(b, m, i, j);
      var pt := FrameOf(ram[mmPd[m]][i]);
      if Present(ram[pt][j]) {
        DropFrame(FrameOf(ram[pt][j]), Tear(b, m, i, j));
      }
    }

    method FreeEntries(m: nat, i: nat, ghost b: Books)
      requires b.sp == Sp() && Owned(b.sp, b.owner) && IsLive(b.sp, m) && PtFrame(b.sp, m, i) != -1
      requires Torn(b, m, i, 0)
      modifies pmm`availableFrames, pmm`free, pmm`frameHint, pmm.bitmap
      ensures Torn(b, m, i, ENTRIES)
    {
      for j := 0 to ENTRIES
        invariant Torn(b, m, i, j)
      {
        FreeEntry(m, i, j, b);
      }
    }

    /** Frees the pages of table i, then the table. */
    method FreeTable(m: nat, i: nat, ghost b: Books)
      requires b.sp == Sp() && Owned(b.sp, b.owner) && IsLive(b.sp, m) && i < USER_PDES
      requires Torn(b, m, i, 0)
      modifies pmm`availableFrames, pmm`free, pmm`frameHint, pmm.bitmap
      ensures Torn(b, m, i + 1, 0)
    {
      OwnPd(b, m);
      TearTable(b, m, i);
      if Present(ram[mmPd[m]][i]) {
        FreeEntries(m, i, b);
        DropFrame(FrameOf(ram[mmPd[m]][i]), Tear(b, m, i, ENTRIES));
      }
    }

    method FreeTables(m: nat, ghost b: Books)
      requires b.sp == Sp() && Owned(b.sp, b.owner) && IsLive(b.sp, m)
      requires Torn(b, m, 0, 0)
      modifies pmm`availableFrames, pmm`free, pmm`frameHint, pmm.bitmap
      ensures Torn(b, m, USER_PDES, 0)
    {
      for i := 0 to USER_PDES
        invariant Torn(b, m, i, 0)
      {
        FreeTable(m, i, b);
      }
    }

    /** Frees every frame of address space m, each once. */
    method FreeSpace(m: nat)
      requires Steady() && IsLive(Sp(), m)
      modifies pmm`availableFrames, pmm`free, pmm`frameHint, pmm.bitmap
      ensures Holds(Gone(old(Now({})), m))
    {
      ghost var b := Now({});
      SpaceDroppedSound(b, pmm.table.slots, m);
      TearStart(b, m);
      FreeTables(m, b);
      TearDirectory(b, m);
      DropFrame(mmPd[m], Tear(b, m, USER_PDES, 0));
    }

    /** Takes address space m down. It must not be the active one. */
    method DestroySpace(m: nat)
      requires Steady() && IsLive(Sp(), m) && cr3 != mmPd[m]
      modifies this`mmLive, this`owner
      modifies pmm`availableFrames, pmm`free, pmm`frameHint, pmm.bitmap
      ensures Steady() && m < |old(mmLive)| && Now({}) == Gone(old(Now({})), m)
    {
      FreeSpace(m);
      mmLive := mmLive[m := false];
      owner := Without(owner, m);
    }

    // ---- Mapping ----

    /** Table i of address space m, made if it is not there. */
    method EnsureTable(m: nat, i: nat, ghost b1: Books, ghost limbo: set<nat>) returns (ok: bool)
      requires Holds(Now(limbo)) && Growing(b1, Now(limbo), pmm.table.slots, m) && i < USER_PDES
      modifies this`ram, this`owner
      modifies pmm`availableFrames, pmm`free, pmm`frameHint, pmm.bitmap
      ensures Holds(Now(limbo)) && Growing(b1, Now(limbo), pmm.table.slots, m) && SamePages(old(Sp()), Sp(), m)
      ensures ok ==> PtFrame(Sp(), m, i) != -1 && SameFlags(old(Sp()), Sp(), m)
      ensures ok ==> HasTable(old(Sp()), Sp(), m, i) && (PageCost(old(Sp()), m, i) == 1 || old(pmm.free) != {})
      ensures !ok ==> Now(limbo) == old(Now(limbo)) && pmm.free == {} && PageCost(Sp(), m, i) == 2
    {
      ghost var b := Now(limbo);
      OwnPd(b, m);
      if Present(ram[mmPd[m]][i]) {
        HadTable(Sp(), m, i);
        return true;
      }
      ghost var g;
      ok, g := NewTable(m, i, PG_PRESENT + PG_RW + PG_USER, limbo);
      if ok {
        AddTable(b1, b, pmm.table.slots, m, i, g);
      }
    }

    method WritePage(m: nat, i: nat, j: nat, f: nat, flags: nat, data: seq<nat>)
      requires 0 <= PtFrame(Sp(), m, i) < |ram| && j < ENTRIES && m < |mmPages| && f < |ram|
      requires IsBytes(data) && |data| <= PAGE_BYTES
      modifies this`ram, this`owner, this`mmPages
      ensures Now({}) == PageAdded(old(Now({f})), m, i, j, f, flags, PageWith(data))
    {
      EnterPage(m, i, j, f, flags, {f});
      ZeroWords(f);
      CopyBytes(f, data);
      assert {f} - {f} == {};
    }

    /** The frame in limbo becomes page (i, j), zeroed and then filled. */
    method FillPage(m: nat, i: nat, j: nat, f: nat, flags: nat, data: seq<nat>, ghost b1: Books)
      requires Holds(Now({f})) && Growing(b1, Now({f}), pmm.table.slots, m) && PtFrame(Sp(), m, i) != -1 && j < ENTRIES
      requires PageFrame(Sp(), m, i, j) == -1 && PageFrame(b1.sp, m, i, j) == -1
      requires flags < FLAG_BITS && flags % 2 == 1 && IsBytes(data) && |data| <= PAGE_BYTES
      modifies this`ram, this`owner, this`mmPages
      ensures Holds(Now({})) && Growing(b1, Now({}), pmm.table.slots, m)
      ensures HasPage(Sp(), m, i, j, flags, PageWith(data)) && SameFlags(old(Sp()), Sp(), m)
      ensures OnlyPage(old(Sp()), Sp(), m, i, j) && SameTables(old(Sp()), Sp(), m)
    {
      AddPage(b1, Now({f}), pmm.table.slots, m, i, j, f, flags, PageWith(data));
      WritePage(m, i, j, f, flags, data);
    }

    /** Maps one page of an address space. */
    method MapPage(m: nat, i: nat, j: nat, flags: nat, data: seq<nat>) returns (ok: bool)
      requires Steady() && IsLive(Sp(), m) && i < USER_PDES && j < ENTRIES && PageFrame(Sp(), m, i, j) == -1
      requires flags < FLAG_BITS && flags % 2 == 1 && IsBytes(data) && |data| <= PAGE_BYTES
      modifies this`ram, this`owner, this`mmPages
      modifies pmm`availableFrames, pmm`free, pmm`frameHint, pmm.bitmap
      ensures Steady() && Extends(old(Now({})), Now({}), m)
      ensures ok ==> HasPage(Sp(), m, i, j, flags, PageWith(data)) && SameFlags(old(Sp()), Sp(), m)
      ensures OnlyPage(old(Sp()), Sp(), m, i, j)
      ensures !ok ==> Now({}) == old(Now({}))
      ensures PageTold(old(Now({})), Now({}), m, i, ok)
    {
      ghost var b := Now({});
      ExtendsSelf(b, pmm.table.slots, m);
      var f;
      ok, f := NewFrame(b);
      if !ok {
        return;
      }
      assert {} + {f} == {f} && {f} - {f} == {};
      OneLess(b.free, f);
      GrowTaken(b, b, pmm.table.slots, m, f);
      ok := EnsureTable(m, i, b, {f});
      if !ok {
        DropUndoesTake(b, pmm.table.slots, f);
        DropFrame(f, Now({f}));
        return;
      }
      ghost var sp1 := Sp();
      FillPage(m, i, j, f, flags, data, b);
      HasTableStill(b.sp, sp1, Sp(), m, i);
    }

    /** The state of the mapping loop before page number q. */
    ghost predicate MappingAt(b1: Books, m: nat, q0: nat, q: nat, flags: nat, data: seq<nat>)
      reads this, pmm, pmm.bitmap, pmm.table
    {
      true == (Steady() && IsLive(Sp(), m) && MappedUpTo(b1, Now({}), m, q0, q, flags, data))
    }

    /** Maps page number q with its part of the data. */
    method MapNext(m: nat, va: nat, flags: nat, chunk: seq<nat>, ghost b1: Books, ghost q0: nat, ghost q: nat,
                   ghost data: seq<nat>)
      returns (ok: bool)
      requires MappingAt(b1, m, q0, q, flags, data) && q0 <= q && va == q * PAGE_BYTES < USER_LIMIT
      requires PageFrame(b1.sp, m, q / ENTRIES, q % ENTRIES) == -1
      requires flags < FLAG_BITS && flags % 2 == 1 && IsBytes(chunk) && chunk == Chunk(data, q - q0)
      modifies this`ram, this`owner, this`mmPages
      modifies pmm`availableFrames, pmm`free, pmm`frameHint, pmm.bitmap
      ensures MappingAt(b1, m, q0, if ok then q + 1 else q, flags, data)
      ensures PageTold(old(Now({})), Now({}), m, q / ENTRIES, ok)
    {
      ghost var b := Now({});
      var pdi, pti := va / 0x40_0000, va / PAGE_BYTES % ENTRIES;
      PageParts(va, q);
      StillUnmapped(b1, b, m, q0, q, flags, data);
      ok := MapPage(m, pdi, pti, flags, chunk);
      if ok {
        MapOneMore(b1, b, Now({}), m, q0, q, flags, data);
      }
    }

    /** The same, with an eye on the tables; without room nothing changes. */
    method MapWithTables(m: nat, va: nat, flags: nat, chunk: seq<nat>, ghost b1: Books, ghost q0: nat, ghost q: nat,
                         ghost data: seq<nat>)
      returns (ok: bool)
      requires MappingAt(b1, m, q0, q, flags, data) && q0 <= q && va == q * PAGE_BYTES < USER_LIMIT
      requires PageFrame(b1.sp, m, q / ENTRIES, q % ENTRIES) == -1 && TablesFor(b1.sp, Sp(), m, q0, q)
      requires flags < FLAG_BITS && flags % 2 == 1 && IsBytes(chunk) && chunk == Chunk(data, q - q0)
      modifies this`ram, this`owner, this`mmPages
      modifies pmm`availableFrames, pmm`free, pmm`frameHint, pmm.bitmap
      ensures MappingAt(b1, m, q0, if ok then q + 1 else q, flags, data)
      ensures TablesFor(b1.sp, Sp(), m, q0, if ok then q + 1 else q)
      ensures !ok ==> |pmm.free| < PageCost(Sp(), m, q / ENTRIES)
    {
      ghost var sp := Sp();
      ok := MapNext(m, va, flags, chunk, b1, q0, q, data);
      if ok {
        TablesMore(b1.sp, sp, Sp(), m, q0, q);
      }
    }

    /** The loop over a region's pages, which are numbered from q0. */
    method MapLoop(m: nat, start: nat, pages: nat, flags: nat, data: seq<nat>, ghost b1: Books, ghost q0: nat,
                   ghost q1: nat)
      returns (ok: bool, ghost q: nat)
      requires MappingAt(b1, m, q0, q0, flags, data) && start == q0 * PAGE_BYTES && b1.sp == Sp()
      requires start + pages * PAGE_BYTES <= USER_LIMIT
      requires RegionFree(b1.sp, m, q0, q1) && q1 == q0 + pages && flags < FLAG_BITS && flags % 2 == 1 && IsBytes(data)
      modifies this`ram, this`owner, this`mmPages
      modifies pmm`availableFrames, pmm`free, pmm`frameHint, pmm.bitmap
      ensures MappingAt(b1, m, q0, q, flags, data) && MappedAsFar(b1, Now({}), m, q0, q, q1, ok)
    {
      NoTablesYet(b1.sp, m, q0);
      ghost var b := Now({});
      ok, q, b := MapEach(m, start, pages, flags, data, b1, b, q0, q1);
      assert Steady();
    }

    /** The books are b. The quantifier keeps the verifier from looking inside
        where Steady() is not mentioned. */
    ghost predicate HasBooks(b: Books)
      reads this, pmm, pmm.bitmap, pmm.table
    {
      forall x {:trigger x.Steady()} :: x in {this} ==> x.Steady() && x.Now({}) == b
    }

    method MapEach(m: nat, start: nat, pages: nat, flags: nat, data: seq<nat>, ghost b1: Books, ghost b: Books,
                   ghost q0: nat, ghost q1: nat)
      returns (ok: bool, ghost q: nat, ghost b': Books)
      requires HasBooks(b) && AsFarAs(b1, b, m, q0, q0, flags, data) && q1 == q0 + pages
      requires Mappable(b1, m, start, pages, flags, data, q0, q1)
      modifies this`ram, this`owner, this`mmPages
      modifies pmm`availableFrames, pmm`free, pmm`frameHint, pmm.bitmap
      ensures HasBooks(b') && AsFarAs(b1, b', m, q0, q, flags, data) && q0 <= q <= q1 && (ok <==> q == q1)
      ensures !ok ==> |b'.free| < PageCost(b'.sp, m, q / ENTRIES)
    {
      q, b' := q0, b;
      for p := 0 to pages
        invariant q == q0 + p && HasBooks(b') && AsFarAs(b1, b', m, q0, q, flags, data)
      {
        ok, b' := MapPth(m, start, p, pages, flags, data, b1, b', q0, q, q1);
        if !ok {
          return;
        }
        q := q + 1;
      }
      ok := true;
    }

    /** Page p of the region. */
    method MapPth(m: nat, start: nat, p: nat, pages: nat, flags: nat, data: seq<nat>, ghost b1: Books, ghost b: Books,
                  ghost q0: nat, ghost q: nat, ghost q1: nat)
      returns (ok: bool, ghost b': Books)
      requires HasBooks(b) && AsFarAs(b1, b, m, q0, q, flags, data) && q == q0 + p && p < pages
      requires Mappable(b1, m, start, pages, flags, data, q0, q1)
      modifies this`ram, this`owner, this`mmPages
      modifies pmm`availableFrames, pmm`free, pmm`frameHint, pmm.bitmap
      ensures HasBooks(b')
      ensures ok ==> AsFarAs(b1, b', m, q0, q + 1, flags, data)
      ensures !ok ==> AsFarAs(b1, b', m, q0, q, flags, data) && |b'.free| < PageCost(b'.sp, m, q / ENTRIES)
    {
      assert Steady();
      FreeAt(b1.sp, m, q0, q1, q);
      PageAddress(start, p, pages, q0);
      ok := MapWithTables(m, start + p * PAGE_BYTES, flags, Chunk(data, p), b1, q0, q, data);
      b' := Now({});
    }

    lemma LoopTells(b1: Books, m: nat, q0: nat, q: nat, q1: nat, flags: nat, data: seq<nat>, ok: bool)
      requires MappingAt(b1, m, q0, q, flags, data) && Sound(b1, pmm.table.slots) && RegionFree(b1.sp, m, q0, q1)
      requires MappedAsFar(b1, Now({}), m, q0, q, q1, ok)
      ensures Afforded(b1, Now({}), m, q0, q1, ok) && (ok ==> q == q1)
    {
      MappingTells(b1, Now({}), pmm.table.slots, m, q0, q, q1, flags, data, ok);
    }

    /** Maps the pages of a region. All of them are mapped exactly if there are
        frames enough. */
    method MapPages(m: nat, start: nat, pages: nat, flags: nat, data: seq<nat>, ghost b1: Books, ghost q0: nat,
                    ghost q1: nat)
      returns (ok: bool, ghost q: nat)
      requires MappingAt(b1, m, q0, q0, flags, data) && start == q0 * PAGE_BYTES && b1.sp == Sp()
      requires Sound(b1, pmm.table.slots) && start + pages * PAGE_BYTES <= USER_LIMIT
      requires RegionFree(b1.sp, m, q0, q1) && q1 == q0 + pages && flags < FLAG_BITS && flags % 2 == 1 && IsBytes(data)
      modifies this`ram, this`owner, this`mmPages
      modifies pmm`availableFrames, pmm`free, pmm`frameHint, pmm.bitmap
      ensures MappingAt(b1, m, q0, q, flags, data) && (ok ==> q == q1)
      ensures Afforded(b1, Now({}), m, q0, q1, ok)
    {
      ok, q := MapLoop(m, start, pages, flags, data, b1, q0, q1);
      LoopTells(b1, m, q0, q, q1, flags, data, ok);
    }

    // ---- Address spaces with their areas ----

    /** CR3 holds the kernel's directory or that of a live address space. */
    ghost predicate DirectoryLoaded()
      reads this
    {
      cr3 in kernel || (cr3 in owner && owner[cr3].PdOf?)
    }

    /** Sound books, a loaded directory, and areas that fit the tables; no area
        record is in use but the listed ones and a few others. */
    ghost predicate ValidWith(extra: set<nat>)
      reads this, pmm, pmm.bitmap, pmm.table, vmas
    {
      Steady() && DirectoryLoaded() && vmas.Tight(extra) && AreasOk(Sp(), vmas.AllAreas())
    }

    /** Stated as one fact, so that callers pass it on whole. */
    ghost predicate Valid()
      reads this, pmm, pmm.bitmap, pmm.table, vmas
    {
      true == ValidWith({})
    }

    /** The kernel's directory is no free frame, and that of an address space has
        its upper half. */
    lemma DirectoryTells(m: int)
      requires Valid() && (m == -1 || (m >= 0 && IsLive(Sp(), m)))
      ensures kernelPd < |ram| && kernelPd !in pmm.free
      ensures m != -1 ==> mmPd[m] < |ram| && forall k :: 768 <= k < 1024 ==> ram[mmPd[m]][k] == ram[kernelPd][k]
    {
      assert Classed(Now({}), kernelPd);
      assert m != -1 ==> DirectoryOk(Sp(), m, kernelPd);
    }

    /** A new, empty address space, or -1 when frames or slots run out. */
    method Create() returns (m: int)
      requires Valid()
      modifies this`ram, this`mmLive, this`mmPd, this`mmPages, this`owner
      modifies pmm`availableFrames, pmm`free, pmm`frameHint, pmm.bitmap
      ensures Valid()
      ensures m == -1 <==> old(pmm.free) == {} || FreeSlots(old(mmLive)) == {}
      ensures m == -1 ==> Restored(old(Now({})), Now({}))
      ensures m != -1 ==>
        && 0 <= m && IsLive(Sp(), m) && Atop(old(Now({})), Now({}), m) && mmPages[m] == 0
        && kernelPd < |ram| == |old(ram)| && mmPd[m] < |ram| && ram[kernelPd] == old(ram)[kernelPd]
        && (forall k :: 0 <= k < 768 ==> ram[mmPd[m]][k] == 0)
        && (forall k :: 768 <= k < 1024 ==> ram[mmPd[m]][k] == ram[kernelPd][k])
        && m < |vmas.AllAreas()| && vmas.AllAreas()[m] == []
    {
      m := CreateBare();
    }

    /** The same, with the directory in one word. */
    method CreateBare() returns (m: int)
      requires Valid()
      modifies this`ram, this`mmLive, this`mmPd, this`mmPages, this`owner
      modifies pmm`availableFrames, pmm`free, pmm`frameHint, pmm.bitmap
      ensures Valid() && m >= -1 && (m == -1 <==> old(pmm.free) == {} || FreeSlots(old(mmLive)) == {})
      ensures m == -1 ==> Restored(old(Now({})), Now({}))
      ensures m != -1 ==> IsLive(Sp(), m) && Atop(old(Now({})), Now({}), m) && mmPages[m] == 0
      ensures m != -1 ==> m < |vmas.AllAreas()| && vmas.AllAreas()[m] == []
      ensures m != -1 ==> kernelPd < |ram| == |old(ram)| && ram[kernelPd] == old(ram)[kernelPd]
      ensures m != -1 ==> mmPd[m] < |ram| && ForSpace(ram[mmPd[m]], ram[kernelPd])
    {
      ghost var b0 := Now({});
      m := CreateSpace();
      if m == -1 {
        AreasRestored(b0, Now({}), vmas.AllAreas());
      } else {
        AreasAtop(b0, Now({}), m, vmas.AllAreas());
        LoadedAtop(b0, Now({}), m, cr3);
      }
    }

    /** Takes an address space down: its areas, then every frame, each once. */
    method Destroy(m: nat)
      requires Valid() && IsLive(Sp(), m) && cr3 != mmPd[m]
      modifies this`mmLive, this`owner, vmas`used, vmas`heads, vmas`lists, vmas`home
      modifies pmm`availableFrames, pmm`free, pmm`frameHint, pmm.bitmap
      ensures Valid() && m < |old(mmLive)| && Now({}) == Gone(old(Now({})), m)
      ensures m < |old(vmas.lists)| && vmas.lists == old(vmas.lists)[m := []] && |vmas.used| == |old(vmas.used)|
      ensures vmas.AllAreas() == old(vmas.AllAreas())[m := []]
    {
      ghost var b, areas := Now({}), vmas.AllAreas();
      AreasGone(b, m, areas);
      LoadedElsewhere(b, m, cr3);
      vmas.DropAreas(m);
      DestroySpace(m);
    }

    /** Loads an address space's directory, unless it is loaded already. */
    method Switch(m: nat)
      requires Valid() && IsLive(Sp(), m)
      modifies this`cr3
      ensures Valid() && cr3 == mmPd[m]
    {
      if cr3 == mmPd[m] {
        return;
      }
      OwnPd(Now({}), m);
      LoadedPd(Now({}), m);
      cr3 := mmPd[m];
    }

    /** A store by user code in address space m; one that is not allowed faults
        and changes nothing. */
    method UserStore(m: nat, s: Store)
      requires Valid()
      modifies this`ram
      ensures Valid() && Sp() == WriteUser(old(Sp()), m, s.i, s.j, s.k, s.w)
    {
      StoredSound(Now({}), pmm.table.slots, m, s);
      AreasStored(Now({}), m, s, vmas.AllAreas());
      WriteKeepsPlaces(Sp(), owner, m, s.i, s.j, s.k, s.w);
      var sp := WriteUser(Space(ram, mmLive, mmPd), m, s.i, s.j, s.k, s.w);
      ram := sp.ram;
    }

    /** The pages of a region are mapped, as far as frames went, and its record
        is in no list yet; stated as one fact. */
    ghost predicate Unlisted(b1: Books, m: nat, slot: nat, areas: seq<seq<Vma>>, v: Vma, q0: nat, q1: nat,
                             data: seq<nat>, ok: bool)
      reads this, pmm, pmm.bitmap, pmm.table, vmas
    {
      true == (&& Steady() && DirectoryLoaded() && vmas.Tight({slot}) && vmas.AllAreas() == areas && m < |areas|
               && Extends(b1, Now({}), m) && (ok ==> MappedUpTo(b1, Now({}), m, q0, q1, FlagsFor(v.prot), data))
               && AreasOk(Sp(), if ok then areas[m := Inserted(areas[m], v)] else areas))
    }

    method MapUnlisted(m: nat, ghost slot: nat, v: Vma, pages: nat, data: seq<nat>, ghost q0: nat, ghost q1: nat)
      returns (ok: bool)
      requires ValidWith({slot}) && IsLive(Sp(), m) && IsBytes(data) && RegionFree(Sp(), m, q0, q1) && q1 == q0 + pages
      requires v.start == q0 * PAGE_BYTES && v.end == q1 * PAGE_BYTES <= USER_LIMIT && pages > 0
      modifies this`ram, this`owner, this`mmPages
      modifies pmm`availableFrames, pmm`free, pmm`frameHint, pmm.bitmap
      ensures Unlisted(old(Now({})), m, slot, old(vmas.AllAreas()), v, q0, q1, data, ok)
      ensures Afforded(old(Now({})), Now({}), m, q0, q1, ok)
    {
      ghost var b1, areas := Now({}), vmas.AllAreas();
      MapNone(b1, pmm.table.slots, m, q0, FlagsFor(v.prot), data);
      ghost var q;
      ok, q := MapPages(m, v.start, pages, FlagsFor(v.prot), data, b1, q0, q1);
      RegionSettled(b1, Now({}), m, cr3, areas, v, q0, q1, FlagsFor(v.prot), data, ok);
    }

    /** Lists the record if all is mapped, and drops it otherwise. */
    method ListRegion(m: nat, slot: nat, ghost v: Vma, ghost data: seq<nat>, ghost q0: nat, ghost q1: nat, ok: bool,
                      ghost b1: Books, ghost areas: seq<seq<Vma>>)
      requires Unlisted(b1, m, slot, areas, v, q0, q1, data, ok)
      requires slot < |vmas.used| && slot !in vmas.home && slot < |vmas.recs| && vmas.recs[slot] == v
      modifies vmas`used, vmas`next, vmas`heads, vmas`lists, vmas`home
      ensures Valid() && |vmas.used| == |old(vmas.used)| && ListsOutcome(old(vmas.lists), vmas.lists, m, ok)
      ensures RegionOutcome(b1, Now({}), m, areas, vmas.AllAreas(), v, q0, q1, data, ok)
    {
      ghost var b := Now({});
      vmas.Settle(m, slot, ok);
      assert Now({}) == b;
      assert vmas.AllAreas() == if ok then areas[m := Inserted(areas[m], v)] else areas;
    }

    /** Maps the pages of a region and lists its record; on failure the record
        is dropped but pages mapped so far stay with the address space. */
    method MapRecorded(m: nat, slot: nat, v: Vma, pages: nat, data: seq<nat>, ghost q0: nat, ghost q1: nat)
      returns (ok: bool)
      requires ValidWith({slot}) && IsLive(Sp(), m) && IsBytes(data) && RegionFree(Sp(), m, q0, q1) && q1 == q0 + pages
      requires v.start == q0 * PAGE_BYTES && v.end == q1 * PAGE_BYTES <= USER_LIMIT && pages > 0
      requires slot < |vmas.used| && slot !in vmas.home && vmas.recs[slot] == v
      modifies this`ram, this`owner, this`mmPages, vmas`used, vmas`next, vmas`heads, vmas`lists, vmas`home
      modifies pmm`availableFrames, pmm`free, pmm`frameHint, pmm.bitmap
      ensures Valid() && |vmas.used| == |old(vmas.used)|
      ensures RegionOutcome(old(Now({})), Now({}), m, old(vmas.AllAreas()), vmas.AllAreas(),
        v, q0, q1, data, ok)
      ensures ListsOutcome(old(vmas.lists), vmas.lists, m, ok)
      ensures Afforded(old(Now({})), Now({}), m, q0, q1, ok)
    {
      ghost var b1, areas := Now({}), vmas.AllAreas();
      ok := MapUnlisted(m, slot, v, pages, data, q0, q1);
      ListRegion(m, slot, v, data, q0, q1, ok, b1, areas);
    }

    method NewRecord(v: Vma) returns (slot: int)
      requires Valid()
      modifies vmas`used, vmas`recs, vmas`next
      ensures slot >= -1 && ValidWith(if slot == -1 then {} else {slot as nat}) && |vmas.used| == |old(vmas.used)|
      ensures vmas.AllAreas() == old(vmas.AllAreas()) && (slot == -1 <==> FreeSlots(old(vmas.used)) == {})
      ensures slot != -1 ==> slot < |vmas.used| && slot !in vmas.home && vmas.recs[slot] == v
    {
      slot := vmas.AllocArea(v);
    }

    method MapArea(m: nat, v: Vma, pages: nat, data: seq<nat>, ghost q0: nat, ghost q1: nat)
      returns (ok: bool)
      requires Valid() && IsLive(Sp(), m) && IsBytes(data) && RegionFree(Sp(), m, q0, q1) && q1 == q0 + pages
      requires v.start == q0 * PAGE_BYTES && v.end == q1 * PAGE_BYTES <= USER_LIMIT && pages > 0
      modifies this`ram, this`owner, this`mmPages, vmas
      modifies pmm`availableFrames, pmm`free, pmm`frameHint, pmm.bitmap
      ensures Valid() && |vmas.used| == |old(vmas.used)|
      ensures RegionOutcome(old(Now({})), Now({}), m, old(vmas.AllAreas()), vmas.AllAreas(),
        v, q0, q1, data, ok)
      ensures ListsOutcome(old(vmas.lists), vmas.lists, m, ok)
      ensures ok <==> old(CanMap(Now({}), vmas.used, m, q0, q1))
      ensures ok ==> Spent(old(Now({})), Now({}), m, q0, q1)
    {
      ghost var b1, areas := Now({}), vmas.AllAreas();
      var slot := NewRecord(v);
      assert Now({}) == b1;
      if slot == -1 {
        NoRegion(b1, pmm.table.slots, m, areas, v, q0, q1, data);
        ok := false;
      } else {
        ok := MapRecorded(m, slot, v, pages, data, q0, q1);
      }
    }

    /** Maps a region that passed the checks. */
    method MapAccepted(m: nat, v: Vma, size: nat, data: seq<nat>, ghost q0: nat, ghost q1: nat) returns (ok: bool)
      requires Valid() && IsLive(Sp(), m) && v.start < WORD && size < WORD && v.end == v.start + size && IsBytes(data)
      requires RangeAccepted(v.start, size) && v.end < WORD
      requires q0 == v.start / PAGE_BYTES && q1 == v.end / PAGE_BYTES && RegionFree(Sp(), m, q0, q1)
      modifies this`ram, this`owner, this`mmPages, vmas
      modifies pmm`availableFrames, pmm`free, pmm`frameHint, pmm.bitmap
      ensures Valid() && |vmas.used| == |old(vmas.used)|
      ensures RegionOutcome(old(Now({})), Now({}), m, old(vmas.AllAreas()), vmas.AllAreas(), v, q0, q1, data, ok)
      ensures ListsOutcome(old(vmas.lists), vmas.lists, m, ok)
      ensures ok <==> old(CanMap(Now({}), vmas.used, m, q0, q1))
      ensures ok ==> Spent(old(Now({})), Now({}), m, q0, q1)
    {
      RegionPages(v.start, size);
      ok := MapArea(m, v, size / PAGE_BYTES, data, q0, q1);
    }

    /** Maps a region of an address space, with initial data. */
    method MapRegion(m: int, start: nat, size: nat, kind: nat, prot: nat, data: seq<nat>) returns (rc: int)
      requires Valid() && (m == -1 || (m >= 0 && IsLive(Sp(), m))) && start < WORD && size < WORD && IsBytes(data)
      requires m != -1 && RangeAccepted(start, size) ==>
        start + size < WORD && RegionFree(Sp(), m, start / PAGE_BYTES, (start + size) / PAGE_BYTES)
      modifies this`ram, this`owner, this`mmPages, vmas
      modifies pmm`availableFrames, pmm`free, pmm`frameHint, pmm.bitmap
      ensures Valid() && (rc == 0 || rc == -1) && |vmas.used| == |old(vmas.used)|
      ensures m == -1 || !RangeAccepted(start, size) ==> rc == -1 && Now({}) == old(Now({})) && unchanged(vmas)
      ensures m != -1 ==> m >= 0 && RegionOutcome(old(Now({})), Now({}), m, old(vmas.AllAreas()), vmas.AllAreas(),
        Vma(start, start + size, kind, prot), start / PAGE_BYTES, (start + size) / PAGE_BYTES, data, rc == 0)
      ensures m != -1 ==> ListsOutcome(old(vmas.lists), vmas.lists, m, rc == 0)
      ensures rc == 0 <==> (&& m >= 0 && RangeAccepted(start, size)
        && old(CanMap(Now({}), vmas.used, m, start / PAGE_BYTES, (start + size) / PAGE_BYTES)))
      ensures rc == 0 ==> m >= 0 && Spent(old(Now({})), Now({}), m, start / PAGE_BYTES, (start + size) / PAGE_BYTES)
    {
      if m == -1 {
        return -1;
      }
      if size == 0 || start % PAGE_BYTES != 0 || size % PAGE_BYTES != 0 || (start + size) % WORD > USER_LIMIT {
        NoRegion(Now({}), pmm.table.slots, m, vmas.AllAreas(), Vma(start, start + size, kind, prot),
                 start / PAGE_BYTES, (start + size) / PAGE_BYTES, data);
        return -1;
      }
      var ok := MapAccepted(m, Vma(start, start + size, kind, prot), size, data,
                            start / PAGE_BYTES, (start + size) / PAGE_BYTES);
      rc := if ok then 0 else -1;
    }

    // ---- Fork ----

    /** Copies the parent's mapped pages into a new address space. */
    method CopyUser(parent: nat, child: nat, ghost b0: Books, ghost b1: Books) returns (ok: bool, ghost b2: Books)
      requires Valid() && b1 == Now({}) && CopyReady(b0, b1, parent, child)
      modifies this`ram, this`owner, this`mmPages
      modifies pmm`availableFrames, pmm`free, pmm`frameHint, pmm.bitmap
      ensures Valid() && b2 == Now({}) && PagesIn(b0, b1, b2, parent, child, ok)
    {
      ghost var areas := vmas.AllAreas();
      CopyStarts(b0, b1, pmm.table.slots, parent, child);
      ok := CloneTables(parent, child, b1);
      b2 := Now({});
      CopySettled(b0, b1, b2, pmm.table.slots, parent, child, cr3, areas, ok);
    }

    /** Copies the parent's areas. */
    method CopyAreas(parent: nat, child: nat) returns (ok: bool)
      requires Valid() && IsLive(Sp(), parent) && IsLive(Sp(), child) && parent != child
      requires SameUser(Sp(), parent, child)
      requires child < |vmas.lists| && vmas.lists[child] == []
      modifies vmas
      ensures Valid() && |vmas.used| == |old(vmas.used)| && ListsOutcome(old(vmas.lists), vmas.lists, child, true)
      ensures AreasCopied(old(vmas.AllAreas()), vmas.AllAreas(), parent, child, ok)
      ensures ok <==> RecordsFit(old(vmas.AllAreas()), old(vmas.used), parent)
    {
      ghost var areas := vmas.AllAreas();
      assert OneSpace(Sp(), parent, areas[parent]);
      ok := vmas.CloneAreas(parent, child);
      AreasPartlyCloned(Sp(), parent, child, areas, vmas.AllAreas()[child]);
    }

    // The same operations on memory as a value.

    /** A new, empty address space, or -1. */
    method CreateAs(ghost i: Image, ghost c: nat) returns (m: int, ghost i': Image)
      requires Is(i, c)
      modifies this`ram, this`mmLive, this`mmPd, this`mmPages, this`owner
      modifies pmm`availableFrames, pmm`free, pmm`frameHint, pmm.bitmap
      ensures Is(i', c) && m >= -1 && (m == -1 <==> i.b.free == {} || FreeSlots(i.b.sp.live) == {})
      ensures if m == -1 then AsBefore(i, i') else NewIn(i, i', c, m)
    {
      IsTells(i, c);
      LoadedTells(i, c);
      assert Valid();
      m := CreateBare();
      i' := View();
      if m != -1 {
        CreatedIn(i, i', pmm.table.slots, c, m);
      }
    }

    method CopyUserAs(parent: nat, child: nat, ghost b0: Books, ghost i: Image, ghost c: nat)
      returns (ok: bool, ghost b: Books)
      requires Is(i, c) && CopyReady(b0, i.b, parent, child)
      modifies this`ram, this`owner, this`mmPages
      modifies pmm`availableFrames, pmm`free, pmm`frameHint, pmm.bitmap
      ensures Is(i.(b := b), c) && PagesIn(b0, i.b, b, parent, child, ok)
    {
      assert Valid();
      ok, b := CopyUser(parent, child, b0, i.b);
    }

    method CopyPagesAs(parent: nat, child: nat, ghost i0: Image, ghost i: Image, ghost c: nat)
      returns (ok: bool, ghost i': Image)
      requires Is(i, c) && NewIn(i0, i, c, child) && IsLive(i0.b.sp, parent)
      modifies this`ram, this`owner, this`mmPages
      modifies pmm`availableFrames, pmm`free, pmm`frameHint, pmm.bitmap
      ensures Is(i', c) && PagesTried(i0, i, i', parent, child, ok)
    {
      NewIsCopied(i0, i, c, parent, child);
      ghost var b;
      ok, b := CopyUserAs(parent, child, i0.b, i, c);
      assert PagesAre(i0.b, i.b, b, parent, child, ok);
      i' := i.(b := b);
    }

    method CopyAreasAs(parent: nat, child: nat, ghost i: Image, ghost c: nat) returns (ok: bool, ghost i': Image)
      requires Is(i, c) && IsLive(i.b.sp, parent) && IsLive(i.b.sp, child) && SameUser(i.b.sp, parent, child)
      requires parent != child && child < |i.slots| && i.slots[child] == []
      modifies vmas
      ensures Is(i', c) && AreasTried(i, i', parent, child, ok)
    {
      assert Valid();
      UsedInView();
      ok := CopyAreas(parent, child);
      UsedInView();
      i' := View();
    }

    method DestroyAs(m: nat, ghost i: Image, ghost c: nat)
      requires Is(i, c) && IsLive(i.b.sp, m) && c != i.b.sp.pd[m]
      modifies this`mmLive, this`owner, vmas`used, vmas`heads, vmas`lists, vmas`home
      modifies pmm`availableFrames, pmm`free, pmm`frameHint, pmm.bitmap
      ensures m < |i.areas| && m < |i.slots| && Is(GoneFrom(i, m), c)
    {
      assert Valid();
      UsedInView();
      Destroy(m);
      UsedInView();
    }

    /** Copies the areas of an address space whose pages are copied; if records
        run out, the copy is undone. */
    method FinishClone(parent: nat, child: nat, ghost i0: Image, ghost i1: Image, ghost i2: Image, ghost c: nat)
      returns (ok: bool, ghost i': Image)
      requires Is(i2, c) && NewIn(i0, i1, c, child) && PagesTried(i0, i1, i2, parent, child, true)
      modifies this`mmLive, this`owner, vmas
      modifies pmm`availableFrames, pmm`free, pmm`frameHint, pmm.bitmap
      ensures Is(i', c) && Cloned(i0, i', parent, child, ok)
      ensures ok <==> RecordsFit(i0.areas, InUse(i0.slots, i0.pool), parent)
    {
      ok, i' := CopyAreasAs(parent, child, i2, c);
      if ok {
        ClonedIs(i0, i1, i2, i', c, parent, child);
      } else {
        AreasUndone(i0, i1, i2, i', c, parent, child);
        DestroyAs(child, i', c);
        i' := GoneFrom(i', child);
      }
    }

    /** Copies the pages and then the areas into a new address space. */
    method FillClone(parent: nat, child: nat, ghost i0: Image, ghost i1: Image, ghost c: nat)
      returns (ok: bool, ghost i': Image)
      requires Is(i1, c) && NewIn(i0, i1, c, child) && IsLive(i0.b.sp, parent)
      modifies this`ram, this`mmLive, this`mmPages, this`owner, vmas
      modifies pmm`availableFrames, pmm`free, pmm`frameHint, pmm.bitmap
      ensures Is(i', c) && Cloned(i0, i', parent, child, ok)
      ensures ok <==> FramesFit(i0.b, parent) && RecordsFit(i0.areas, InUse(i0.slots, i0.pool), parent)
    {
      ok, i' := CopyPagesAs(parent, child, i0, i1, c);
      IsTells(i', c);
      CopyTells(i0.b, i'.b, pmm.table.slots, parent, child, ok);
      if ok {
        ok, i' := FinishClone(parent, child, i0, i1, i', c);
      } else {
        PagesUndone(i0, i1, i', c, parent, child);
        DestroyAs(child, i', c);
        i' := GoneFrom(i', child);
      }
    }

    /** An eager copy of an address space, or -1 with nothing changed. */
    method CloneAs(parent: nat, ghost i: Image, ghost c: nat) returns (child: int, ghost i': Image)
      requires Is(i, c) && IsLive(i.b.sp, parent)
      modifies this`ram, this`mmLive, this`mmPd, this`mmPages, this`owner, vmas
      modifies pmm`availableFrames, pmm`free, pmm`frameHint, pmm.bitmap
      ensures Is(i', c) && child >= -1
      ensures Cloned(i, i', parent, if child == -1 then 0 else child, child != -1)
      ensures child != -1 <==> CanClone(i.b, i.areas, InUse(i.slots, i.pool), parent)
    {
      IsTells(i, c);
      NoneFits(i.b, parent);
      child, i' := CreateAs(i, c);
      if child != -1 {
        var ok;
        ok, i' := FillClone(parent, child, i, i', c);
        if !ok {
          child := -1;
        }
      }
    }

    /** The same, where there may be no parent. The copy is made exactly if there
        is room for it. */
    method Clone(parent: int) returns (child: int)
      requires Valid() && (parent == -1 || (parent >= 0 && IsLive(Sp(), parent)))
      modifies this`ram, this`mmLive, this`mmPd, this`mmPages, this`owner, vmas
      modifies pmm`availableFrames, pmm`free, pmm`frameHint, pmm.bitmap
      ensures Valid()
      ensures child != -1 ==> 0 <= parent && 0 <= child && CloneOutcome(old(Now({})), Now({}),
        old(vmas.AllAreas()), vmas.AllAreas(), old(vmas.lists), vmas.lists, parent, child, true)
      ensures child == -1 ==> CloneOutcome(old(Now({})), Now({}),
        old(vmas.AllAreas()), vmas.AllAreas(), old(vmas.lists), vmas.lists, 0, 0, false)
      ensures |vmas.used| == |old(vmas.used)| && (child == -1 ==> vmas.used == old(vmas.used))
      ensures child != -1 <==> parent >= 0 && old(CanClone(Now({}), vmas.AllAreas(), vmas.used, parent))
      ensures kernelPd < |ram| == |old(ram)| && ram[kernelPd] == old(ram)[kernelPd]
      ensures child != -1 ==> child < |mmPd| && mmPd[child] < |ram|
      ensures child != -1 ==> forall k :: 768 <= k < 1024 ==> ram[mmPd[child]][k] == ram[kernelPd][k]
    {
      DirectoryTells(parent);
      if parent == -1 {
        return -1;
      }
      UsedInView();
      ghost var i;
      child, i := CloneAs(parent, View(), cr3);
      UsedInView();
      DirectoryTells(child);
    }
  }
}
