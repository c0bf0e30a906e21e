/** execve's staging pattern: the new image is built in an address space of its
    own, which replaces the old one only once it is complete. */
module Exec {
  import opened Words
  import opened PageTables
  import opened PageBytes
  import opened FrameBooks
  import opened CloneBooks
  import opened MapBooks
  import opened Budgets
  import opened SpaceAreas
  import opened SlotPool
  import opened Vmas
  import opened AddressSpaces

  const CODE_VA: nat := 0x4000_0000
  const STACK_VA: nat := 0x4000_1000
  const VMA_TEXT: nat := 1
  const VMA_STACK: nat := 5
  const PROT_RW: nat := 3
  const PROT_RWX: nat := 7

  const CODE_PAGE: nat := 0x4_0000
  const STACK_PAGE: nat := 0x4_0001

  datatype ExecStatus = ExecOk | NotPermitted | NoExec | TooBig | OutOfMemory

  /** One user-writable code page that holds the image, one zeroed stack page. */
  ghost predicate ImageLoaded(sp: Space, m: nat, image: seq<nat>) {
    && HasPage(sp, m, 256, 0, 7, PageWith(image)) && HasPage(sp, m, 256, 1, 7, PageWith([]))
    && TableFlags(sp, m, 256) == 7
  }

  /** The bytes that user code sees: the image, then zeros, then a zeroed stack. */
  lemma ImageReads(sp: Space, m: nat, image: seq<nat>, k: nat)
    requires ImageLoaded(sp, m, image) && IsBytes(image) && k < PAGE_BYTES
    ensures UserMay(sp, m, 256, 0, true) && UserMay(sp, m, 256, 1, true)
    ensures ReadUser(sp, m, 256, 0, k / 4).Word?
    ensures ByteIn(ReadUser(sp, m, 256, 0, k / 4).value, k % 4) == ByteOr0(image, k)
    ensures ReadUser(sp, m, 256, 1, k / 4) == Word(0)
  {
    PageReads(image, k);
    NoBytes();
  }

  lemma BlankIsFree(sp: Space, m: nat, q0: nat, q1: nat)
    requires IsLive(sp, m) && sp.pd[m] < |sp.ram| && BlankDirectory(sp.ram[sp.pd[m]])
    ensures RegionFree(sp, m, q0, q1) && TableFlags(sp, m, 256) == 7 && PtFrame(sp, m, 256) == -1
  {
    forall i: nat ensures PtFrame(sp, m, i) == -1 { }
    forall q | q0 <= q < q1 ensures !MappedPage(sp, m, q) { }
  }

  lemma CodeMapped(b1: Books, b2: Books, m: nat, image: seq<nat>)
    requires MappedUpTo(b1, b2, m, CODE_PAGE, CODE_PAGE + 1, 7, image) && |image| <= PAGE_BYTES
    requires RegionFree(b1.sp, m, STACK_PAGE, STACK_PAGE + 1) && TableFlags(b1.sp, m, 256) == 7
    ensures HasPage(b2.sp, m, 256, 0, 7, PageWith(image)) && TableFlags(b2.sp, m, 256) == 7
    ensures RegionFree(b2.sp, m, STACK_PAGE, STACK_PAGE + 1)
  {
    assert PageMapped(b2.sp, m, CODE_PAGE, CODE_PAGE, 7, image);
    assert Chunk(image, 0) == image;
    assert !MappedPage(b1.sp, m, STACK_PAGE);
    assert PageFrame(b1.sp, m, 256, 1) == -1;
    assert PageFrame(b2.sp, m, 256, 1) == -1;
  }

  lemma StackMapped(b2: Books, b3: Books, m: nat, image: seq<nat>)
    requires MappedUpTo(b2, b3, m, STACK_PAGE, STACK_PAGE + 1, 7, [])
    requires HasPage(b2.sp, m, 256, 0, 7, PageWith(image)) && TableFlags(b2.sp, m, 256) == 7
    ensures ImageLoaded(b3.sp, m, image)
  {
    assert PageMapped(b3.sp, m, STACK_PAGE, STACK_PAGE, 7, []);
    HasPageKept(b2.sp, b3.sp, m, 256, 0, 7, PageWith(image));
  }

  // ---- What the image takes ----

  /** There is room for the image: a slot, a directory, a table and two pages,
      and two records. */
  ghost predicate CanStage(b: Books, used: seq<bool>) {
    FreeSlots(b.sp.live) != {} && |b.free| >= 4 && |FreeSlots(used)| >= 2
  }

  /** A new address space has its directory and nothing else. */
  lemma BlankHasOne(b: Books, m: nat)
    requires Owned(b.sp, b.owner) && IsLive(b.sp, m)
    requires b.sp.pd[m] < |b.sp.ram| && BlankDirectory(b.sp.ram[b.sp.pd[m]])
    ensures |FramesOf(b.owner, m)| == 1
  {
    OwnPd(b, m);
    forall i: nat ensures PtFrame(b.sp, m, i) == -1 { }
    forall f | f in FramesOf(b.owner, m) ensures f == b.sp.pd[m] {
      assert FrameAt(b.sp, b.owner[f]) == f;
    }
    assert FramesOf(b.owner, m) == {b.sp.pd[m]};
  }

  lemma AtopLeft(b0: Books, b: Books, m: nat)
    requires Atop(b0, b, m) && b.limbo == {}
    ensures |b0.free| == |b.free| + |FramesOf(b.owner, m)|
  {
    assert b0.free == b.free + FramesOf(b.owner, m);
  }

  /** The first page of a new address space takes a table as well. */
  lemma CodeCost(sp: Space, m: nat)
    requires PtFrame(sp, m, 256) == -1
    ensures RegionCost(sp, m, CODE_PAGE, CODE_PAGE + 1) == 2
  {
    assert MissingTables(sp, m, CODE_PAGE, CODE_PAGE + 1) == {256};
  }

  lemma StackCost(sp: Space, m: nat)
    requires PtFrame(sp, m, 256) != -1
    ensures RegionCost(sp, m, STACK_PAGE, STACK_PAGE + 1) == 1
  {
    assert MissingTables(sp, m, STACK_PAGE, STACK_PAGE + 1) == {};
  }

  /** Only the areas of address space m have changed. */
  ghost predicate AreasOutcome(areas: seq<seq<Vma>>, areas': seq<seq<Vma>>, m: nat) {
    m < |areas| == |areas'| && areas' == areas[m := areas'[m]]
  }

  const CODE_AREA: Vma := Vma(CODE_VA, CODE_VA + PAGE_BYTES, VMA_TEXT, PROT_RWX)
  const STACK_AREA: Vma := Vma(STACK_VA, STACK_VA + PAGE_BYTES, VMA_STACK, PROT_RW)

  /** The code page is mapped, or nothing is. */
  ghost predicate Coded(b0: Books, b: Books, m: nat, areas: seq<seq<Vma>>, areas': seq<seq<Vma>>, image: seq<nat>,
                        ok: bool)
  {
    true == (&& IsLive(b.sp, m) && Atop(b0, b, m) && m < |areas|
             && (ok ==>
                   && HasPage(b.sp, m, 256, 0, 7, PageWith(image)) && TableFlags(b.sp, m, 256) == 7
                   && RegionFree(b.sp, m, STACK_PAGE, STACK_PAGE + 1))
             && areas' == if ok then areas[m := [CODE_AREA]] else areas)
  }

  /** Code and stack are mapped, or some of it. */
  ghost predicate Imaged(b0: Books, b: Books, m: nat, areas: seq<seq<Vma>>, areas': seq<seq<Vma>>, image: seq<nat>,
                         ok: bool)
  {
    true == (&& IsLive(b.sp, m) && Atop(b0, b, m) && AreasOutcome(areas, areas', m)
             && (ok ==> ImageLoaded(b.sp, m, image) && areas' == areas[m := [CODE_AREA, STACK_AREA]]))
  }

  lemma AreasInOrder()
    ensures Inserted([], CODE_AREA) == [CODE_AREA] && Inserted([CODE_AREA], STACK_AREA) == [CODE_AREA, STACK_AREA]
  {
    InsertedLast([], CODE_AREA);
    InsertedLast([CODE_AREA], STACK_AREA);
    assert [] + [CODE_AREA] == [CODE_AREA];
  }

  lemma NoCodeIsNoImage(b0: Books, b: Books, m: nat, areas: seq<seq<Vma>>, areas': seq<seq<Vma>>, image: seq<nat>)
    requires Coded(b0, b, m, areas, areas', image, false)
    ensures Imaged(b0, b, m, areas, areas', image, false)
  {
    assert areas[m := areas[m]] == areas;
  }

  lemma CodeSettled(b0: Books, b1: Books, b2: Books, m: nat, areas: seq<seq<Vma>>, areas': seq<seq<Vma>>,
                    image: seq<nat>, ok: bool)
    requires IsLive(b1.sp, m) && Atop(b0, b1, m) && b1.limbo == {} && |image| <= PAGE_BYTES
    requires b1.sp.pd[m] < |b1.sp.ram| && BlankDirectory(b1.sp.ram[b1.sp.pd[m]])
    requires RegionOutcome(b1, b2, m, areas, areas', CODE_AREA, CODE_PAGE, CODE_PAGE + 1, image, ok) && areas[m] == []
    ensures Coded(b0, b2, m, areas, areas', image, ok)
  {
    AtopExtends(b0, b1, b2, m);
    BlankIsFree(b1.sp, m, STACK_PAGE, STACK_PAGE + 1);
    if ok {
      AreasInOrder();
      CodeMapped(b1, b2, m, image);
    }
  }

  lemma StackListed(areas: seq<seq<Vma>>, areas1: seq<seq<Vma>>, areas': seq<seq<Vma>>, m: nat, ok: bool)
    requires m < |areas| && areas1 == areas[m := [CODE_AREA]]
    requires areas' == if ok then areas1[m := Inserted(areas1[m], STACK_AREA)] else areas1
    ensures AreasOutcome(areas, areas', m) && (ok ==> areas' == areas[m := [CODE_AREA, STACK_AREA]])
  {
    AreasInOrder();
  }

  lemma StackSettled(b0: Books, b2: Books, b3: Books, m: nat, areas: seq<seq<Vma>>, areas1: seq<seq<Vma>>,
                     areas': seq<seq<Vma>>,
                     image: seq<nat>, ok: bool)
    requires Coded(b0, b2, m, areas, areas1, image, true) && b2.limbo == {}
    requires RegionOutcome(b2, b3, m, areas1, areas', STACK_AREA, STACK_PAGE, STACK_PAGE + 1, [], ok)
    ensures Imaged(b0, b3, m, areas, areas', image, ok)
  {
    AtopExtends(b0, b2, b3, m);
    StackListed(areas, areas1, areas', m, ok);
    if ok {
      StackMapped(b2, b3, m, image);
    }
  }

  /** One page was mapped exactly if there was a record and n frames for it,
      which it took. */
  ghost predicate TookFrames(b: Books, b': Books, used: seq<bool>, n: nat, ok: bool) {
    true == ((ok <==> FreeSlots(used) != {} && |b.free| >= n) && (ok ==> |b.free| == |b'.free| + n))
  }

  /** There is room for code and stack. */
  ghost predicate RoomFor(b: Books, used: seq<bool>) { |b.free| >= 3 && |FreeSlots(used)| >= 2 }

  lemma RoomTells(b: Books, b1: Books, b2: Books, used: seq<bool>, used1: seq<bool>, ok1: bool, ok: bool)
    requires TookFrames(b, b1, used, 2, ok1) && (ok1 ==> TookFrames(b1, b2, used1, 1, ok)) && (!ok1 ==> !ok)
    requires ok1 ==> |FreeSlots(used)| == |FreeSlots(used1)| + 1
    ensures ok <==> RoomFor(b, used)
  {
  }

  lemma MappedTook(b: Books, b': Books, used: seq<bool>, m: nat, q: nat, n: nat, ok: bool)
    requires (ok <==> CanMap(b, used, m, q, q + 1)) && (ok ==> Spent(b, b', m, q, q + 1))
    requires RegionCost(b.sp, m, q, q + 1) == n
    ensures TookFrames(b, b', used, n, ok)
  {
  }

  /** Page q of address space m is mapped, with area v, exactly if there was a
      record and n frames for it. */
  ghost predicate PageAdded(i: Image, i': Image, m: nat, v: Vma, q: nat, data: seq<nat>, n: nat, ok: bool) {
    true == (&& RegionOutcome(i.b, i'.b, m, i.areas, i'.areas, v, q, q + 1, data, ok) && i'.b.limbo == {}
             && ListsOutcome(i.slots, i'.slots, m, ok) && i'.pool == i.pool
             && TookFrames(i.b, i'.b, InUse(i.slots, i.pool), n, ok))
  }

  method MapPageAt(mem: Memory, m: nat, va: nat, kind: nat, prot: nat, data: seq<nat>, ghost q: nat, ghost n: nat)
    returns (ok: bool)
    requires mem.Valid() && IsLive(mem.Sp(), m) && IsBytes(data) && RegionFree(mem.Sp(), m, q, q + 1)
    requires va + PAGE_BYTES < WORD && RangeAccepted(va, PAGE_BYTES)
    requires q == va / PAGE_BYTES && q + 1 == (va + PAGE_BYTES) / PAGE_BYTES
    requires RegionCost(mem.Sp(), m, q, q + 1) == n
    modifies mem`ram, mem`owner, mem`mmPages, mem.vmas
    modifies mem.pmm`availableFrames, mem.pmm`free, mem.pmm`frameHint, mem.pmm.bitmap
    ensures mem.Valid() && |mem.vmas.used| == |old(mem.vmas.used)|
    ensures ListsOutcome(old(mem.vmas.lists), mem.vmas.lists, m, ok)
    ensures RegionOutcome(old(mem.Now({})), mem.Now({}), m, old(mem.vmas.AllAreas()), mem.vmas.AllAreas(),
      Vma(va, va + PAGE_BYTES, kind, prot), q, q + 1, data, ok)
    ensures TookFrames(old(mem.Now({})), mem.Now({}), old(mem.vmas.used), n, ok)
  {
    ghost var b, used := mem.Now({}), mem.vmas.used;
    var rc := mem.MapRegion(m, va, PAGE_BYTES, kind, prot, data);
    ok := rc == 0;
    MappedTook(b, mem.Now({}), used, m, q, n, ok);
  }

  /** Maps one page, which is number q. */
  method MapOne(mem: Memory, m: nat, va: nat, kind: nat, prot: nat, data: seq<nat>, ghost q: nat, ghost n: nat,
                ghost i: Image, ghost c: nat)
    returns (ok: bool, ghost i': Image)
    requires mem.Is(i, c) && IsLive(i.b.sp, m) && IsBytes(data) && RegionFree(i.b.sp, m, q, q + 1)
    requires va + PAGE_BYTES < WORD && RangeAccepted(va, PAGE_BYTES)
    requires q == va / PAGE_BYTES && q + 1 == (va + PAGE_BYTES) / PAGE_BYTES
    requires RegionCost(i.b.sp, m, q, q + 1) == n
    modifies mem`ram, mem`owner, mem`mmPages, mem.vmas
    modifies mem.pmm`availableFrames, mem.pmm`free, mem.pmm`frameHint, mem.pmm.bitmap
    ensures mem.Is(i', c) && PageAdded(i, i', m, Vma(va, va + PAGE_BYTES, kind, prot), q, data, n, ok)
  {
    assert mem.Valid();
    mem.UsedInView();
    ok := MapPageAt(mem, m, va, kind, prot, data, q, n);
    mem.UsedInView();
    i' := mem.View();
  }

  /** The code page is mapped in the new address space m, or nothing is. */
  ghost predicate CodeAt(i0: Image, i1: Image, i: Image, m: nat, image: seq<nat>, ok: bool) {
    true == (&& Coded(i0.b, i.b, m, i0.areas, i.areas, image, ok) && i.b.limbo == {} && i.pool == i0.pool
             && i.b.sp.pd == i1.b.sp.pd && ListsOutcome(i0.slots, i.slots, m, ok)
             && TookFrames(i1.b, i.b, InUse(i0.slots, i0.pool), 2, ok))
  }

  /** The same, which the verifier looks into only where CodeAt is mentioned. */
  ghost predicate CodeIn(i0: Image, i1: Image, i: Image, m: nat, image: seq<nat>, ok: bool) {
    forall x :: x == i ==> CodeAt(i0, i1, x, m, image, ok)
  }

  lemma CodeIsIn(i0: Image, i1: Image, i: Image, c: nat, m: nat, image: seq<nat>, ok: bool)
    requires NewIn(i0, i1, c, m) && |image| <= PAGE_BYTES && PageAdded(i1, i, m, CODE_AREA, CODE_PAGE, image, 2, ok)
    ensures CodeIn(i0, i1, i, m, image, ok)
  {
    CodeSettled(i0.b, i1.b, i.b, m, i0.areas, i.areas, image, ok);
  }

  lemma CodeFits(i0: Image, i: Image, c: nat, m: nat)
    requires NewIn(i0, i, c, m)
    ensures RegionFree(i.b.sp, m, CODE_PAGE, CODE_PAGE + 1) && RegionCost(i.b.sp, m, CODE_PAGE, CODE_PAGE + 1) == 2
  {
    BlankIsFree(i.b.sp, m, CODE_PAGE, CODE_PAGE + 1);
    CodeCost(i.b.sp, m);
  }

  /** The code page, with the image at its front. */
  method MapCode(mem: Memory, m: nat, image: seq<nat>, ghost i0: Image, ghost i1: Image, ghost c: nat)
    returns (ok: bool, ghost i: Image)
    requires mem.Is(i1, c) && NewIn(i0, i1, c, m) && IsBytes(image) && |image| <= PAGE_BYTES
    modifies mem`ram, mem`owner, mem`mmPages, mem.vmas
    modifies mem.pmm`availableFrames, mem.pmm`free, mem.pmm`frameHint, mem.pmm.bitmap
    ensures mem.Is(i, c) && CodeIn(i0, i1, i, m, image, ok)
  {
    CodeFits(i0, i1, c, m);
    ok, i := MapOne(mem, m, CODE_VA, VMA_TEXT, PROT_RWX, image, CODE_PAGE, 2, i1, c);
    CodeIsIn(i0, i1, i, c, m, image, ok);
  }

  /** The image is in the new address space m, or some of it is. */
  ghost predicate ImageIn(i0: Image, i1: Image, i: Image, m: nat, image: seq<nat>, ok: bool) {
    true == (&& Imaged(i0.b, i.b, m, i0.areas, i.areas, image, ok) && i.b.limbo == {} && i.pool == i0.pool
             && i.b.sp.pd == i1.b.sp.pd && ListsOutcome(i0.slots, i.slots, m, true))
  }

  lemma StackIsIn(i0: Image, i1: Image, i2: Image, i: Image, m: nat, image: seq<nat>, ok: bool)
    requires CodeIn(i0, i1, i2, m, image, true) && PageAdded(i2, i, m, STACK_AREA, STACK_PAGE, [], 1, ok)
    ensures ImageIn(i0, i1, i, m, image, ok)
  {
    assert CodeAt(i0, i1, i2, m, image, true);
    StackSettled(i0.b, i2.b, i.b, m, i0.areas, i2.areas, i.areas, image, ok);
    BothListed(i0.slots, i2.slots, i.slots, m, ok);
    assert i.b.sp.pd == i1.b.sp.pd;
  }

  lemma BothListed(s0: seq<seq<nat>>, s1: seq<seq<nat>>, s: seq<seq<nat>>, m: nat, ok: bool)
    requires ListsOutcome(s0, s1, m, true) && ListsOutcome(s1, s, m, ok)
    ensures ListsOutcome(s0, s, m, true)
  {
  }

  lemma StackFits(i0: Image, i1: Image, i: Image, m: nat, image: seq<nat>)
    requires CodeIn(i0, i1, i, m, image, true)
    ensures IsLive(i.b.sp, m) && RegionFree(i.b.sp, m, STACK_PAGE, STACK_PAGE + 1)
    ensures RegionCost(i.b.sp, m, STACK_PAGE, STACK_PAGE + 1) == 1
  {
    assert CodeAt(i0, i1, i, m, image, true);
    StackCost(i.b.sp, m);
  }

  /** The zeroed stack page. */
  method MapStack(mem: Memory, m: nat, ghost image: seq<nat>, ghost i0: Image, ghost i1: Image, ghost i2: Image,
                  ghost c: nat)
    returns (ok: bool, ghost i: Image)
    requires mem.Is(i2, c) && CodeIn(i0, i1, i2, m, image, true)
    modifies mem`ram, mem`owner, mem`mmPages, mem.vmas
    modifies mem.pmm`availableFrames, mem.pmm`free, mem.pmm`frameHint, mem.pmm.bitmap
    ensures mem.Is(i, c) && ImageIn(i0, i1, i, m, image, ok) && TookFrames(i2.b, i.b, InUse(i2.slots, i2.pool), 1, ok)
  {
    StackFits(i0, i1, i2, m, image);
    ok, i := MapOne(mem, m, STACK_VA, VMA_STACK, PROT_RW, [], STACK_PAGE, 1, i2, c);
    StackIsIn(i0, i1, i2, i, m, image, ok);
  }

  /** The code page takes one record. */
  lemma CodeTook(mem: Memory, i0: Image, i1: Image, i: Image, c: nat, m: nat, image: seq<nat>)
    requires mem.Is(i, c) && NewIn(i0, i1, c, m) && CodeIn(i0, i1, i, m, image, true)
    ensures |FreeSlots(InUse(i0.slots, i0.pool))| == |FreeSlots(InUse(i.slots, i.pool))| + 1
  {
    assert CodeAt(i0, i1, i, m, image, true);
    assert mem.Valid();
    mem.UsedInView();
    mem.vmas.ListTook(i0.slots, m);
  }

  lemma NoCodeIn(i0: Image, i1: Image, i: Image, m: nat, image: seq<nat>)
    requires CodeIn(i0, i1, i, m, image, false)
    ensures ImageIn(i0, i1, i, m, image, false)
  {
    assert CodeAt(i0, i1, i, m, image, false);
    NoCodeIsNoImage(i0.b, i.b, m, i0.areas, i.areas, image);
  }

  lemma BothTell(i0: Image, i1: Image, i2: Image, i: Image, m: nat, image: seq<nat>, ok1: bool, ok: bool)
    requires CodeIn(i0, i1, i2, m, image, ok1) && (!ok1 ==> !ok)
    requires ok1 ==> TookFrames(i2.b, i.b, InUse(i2.slots, i2.pool), 1, ok)
    requires ok1 ==> |FreeSlots(InUse(i0.slots, i0.pool))| == |FreeSlots(InUse(i2.slots, i2.pool))| + 1
    ensures ok <==> RoomFor(i1.b, InUse(i0.slots, i0.pool))
  {
    assert CodeAt(i0, i1, i2, m, image, ok1);
    RoomTells(i1.b, i2.b, i.b, InUse(i0.slots, i0.pool), InUse(i2.slots, i2.pool), ok1, ok);
  }

  /** Maps code and stack. Both are mapped exactly if there is room for them. */
  method MapBoth(mem: Memory, m: nat, image: seq<nat>, ghost i0: Image, ghost i1: Image, ghost c: nat)
    returns (ok: bool, ghost i: Image)
    requires mem.Is(i1, c) && NewIn(i0, i1, c, m) && IsBytes(image) && |image| <= PAGE_BYTES
    modifies mem`ram, mem`owner, mem`mmPages, mem.vmas
    modifies mem.pmm`availableFrames, mem.pmm`free, mem.pmm`frameHint, mem.pmm.bitmap
    ensures mem.Is(i, c) && ImageIn(i0, i1, i, m, image, ok) && (ok <==> RoomFor(i1.b, InUse(i0.slots, i0.pool)))
  {
    ok, i := MapCode(mem, m, image, i0, i1, c);
    ghost var i2, ok1 := i, ok;
    if ok {
      CodeTook(mem, i0, i1, i2, c, m, image);
      ok, i := MapStack(mem, m, image, i0, i1, i2, c);
    } else {
      NoCodeIn(i0, i1, i, m, image);
    }
    BothTell(i0, i1, i2, i, m, image, ok1, ok);
  }

  /** What building the new image comes to: an address space on top of the
      others that holds it, or what was there before. */
  ghost predicate StageOutcome(b0: Books, b: Books, areas: seq<seq<Vma>>, areas': seq<seq<Vma>>,
                               lists: seq<seq<nat>>, lists': seq<seq<nat>>, m: nat, image: seq<nat>, ok: bool)
  {
    true ==
    if ok then
      && IsLive(b.sp, m) && Atop(b0, b, m) && ImageLoaded(b.sp, m, image)
      && m < |areas| && areas' == areas[m := [CODE_AREA, STACK_AREA]] && ListsOutcome(lists, lists', m, true)
    else
      Restored(b0, b) && areas' == areas && lists' == lists
  }

  /** The same for memory as a whole. */
  ghost predicate BuiltIn(i0: Image, i: Image, m: nat, image: seq<nat>, ok: bool) {
    true == (&& i.pool == i0.pool
             && StageOutcome(i0.b, i.b, i0.areas, i.areas, i0.slots, i.slots, m, image, ok))
  }

  lemma ImageIsBuilt(i0: Image, i1: Image, i: Image, m: nat, image: seq<nat>)
    requires ImageIn(i0, i1, i, m, image, true)
    ensures BuiltIn(i0, i, m, image, true)
  {
  }

  lemma ImageIsGone(i0: Image, i1: Image, i: Image, c: nat, m: nat, image: seq<nat>)
    requires NewIn(i0, i1, c, m) && ImageIn(i0, i1, i, m, image, false)
    ensures IsLive(i.b.sp, m) && c != i.b.sp.pd[m] && m < |i.areas| && m < |i.slots|
    ensures BuiltIn(i0, GoneFrom(i, m), m, image, false)
  {
    NewIsGone(i0, i, m);
  }

  /** Maps code and stack, or takes the new address space down again. */
  method FillImage(mem: Memory, m: nat, image: seq<nat>, ghost i0: Image, ghost i1: Image, ghost c: nat)
    returns (ok: bool, ghost i: Image)
    requires mem.Is(i1, c) && NewIn(i0, i1, c, m) && IsBytes(image) && |image| <= PAGE_BYTES
    modifies mem`ram, mem`owner, mem`mmPages, mem`mmLive, mem.vmas
    modifies mem.pmm`availableFrames, mem.pmm`free, mem.pmm`frameHint, mem.pmm.bitmap
    ensures mem.Is(i, c) && BuiltIn(i0, i, m, image, ok) && (ok <==> RoomFor(i1.b, InUse(i0.slots, i0.pool)))
  {
    ok, i := MapBoth(mem, m, image, i0, i1, c);
    if ok {
      ImageIsBuilt(i0, i1, i, m, image);
    } else {
      ImageIsGone(i0, i1, i, c, m, image);
      mem.DestroyAs(m, i, c);
      i := GoneFrom(i, m);
    }
  }

  /** What is left for the image when its address space is made. */
  lemma RoomLeft(i0: Image, i: Image, c: nat, m: nat)
    requires NewIn(i0, i, c, m) && Owned(i.b.sp, i.b.owner)
    ensures |i0.b.free| == |i.b.free| + 1
  {
    BlankHasOne(i.b, m);
    AtopLeft(i0.b, i.b, m);
  }

  /** Builds the image in a new address space. */
  method Build(mem: Memory, image: seq<nat>, ghost i0: Image, ghost c: nat) returns (m: int, ghost i: Image)
    requires mem.Is(i0, c) && IsBytes(image) && |image| <= PAGE_BYTES
    modifies mem`ram, mem`owner, mem`mmPages, mem`mmPd, mem`mmLive, mem.vmas
    modifies mem.pmm`availableFrames, mem.pmm`free, mem.pmm`frameHint, mem.pmm.bitmap
    ensures mem.Is(i, c) && m >= -1 && BuiltIn(i0, i, if m == -1 then 0 else m, image, m != -1)
    ensures m != -1 <==> CanStage(i0.b, InUse(i0.slots, i0.pool))
  {
    m, i := mem.CreateAs(i0, c);
    if m == -1 {
      return;
    }
    mem.IsTells(i, c);
    RoomLeft(i0, i, c, m);
    var ok;
    ok, i := FillImage(mem, m, image, i0, i, c);
    if !ok {
      m := -1;
    }
  }

  /** Validates the image and stages it. */
  method Stage(mem: Memory, image: seq<nat>) returns (status: ExecStatus, m: int)
    requires mem.Valid() && IsBytes(image)
    modifies mem`ram, mem`owner, mem`mmPages, mem`mmPd, mem`mmLive, mem.vmas
    modifies mem.pmm`availableFrames, mem.pmm`free, mem.pmm`frameHint, mem.pmm.bitmap
    ensures mem.Valid() && m >= -1
    ensures status == NoExec <==> image == []
    ensures status == TooBig <==> |image| > PAGE_BYTES
    ensures m != -1 <==> status == ExecOk
    ensures StageOutcome(old(mem.Now({})), mem.Now({}), old(mem.vmas.AllAreas()), mem.vmas.AllAreas(),
      old(mem.vmas.lists), mem.vmas.lists, if m == -1 then 0 else m, image, m != -1)
    ensures |mem.vmas.used| == |old(mem.vmas.used)| && (m == -1 ==> mem.vmas.used == old(mem.vmas.used))
    ensures m != -1 <==> 0 < |image| <= PAGE_BYTES && old(CanStage(mem.Now({}), mem.vmas.used))
    ensures status == OutOfMemory <==> 0 < |image| <= PAGE_BYTES && !old(CanStage(mem.Now({}), mem.vmas.used))
  {
    if |image| == 0 {
      return NoExec, -1;
    }
    if |image| > PAGE_BYTES {
      return TooBig, -1;
    }
    mem.UsedInView();
    ghost var i;
    m, i := Build(mem, image, mem.View(), mem.cr3);
    mem.UsedInView();
    status := if m == -1 then OutOfMemory else ExecOk;
  }

  lemma DistinctDirectories(b: Books, a: nat, c: nat)
    requires Owned(b.sp, b.owner) && IsLive(b.sp, a) && IsLive(b.sp, c) && a != c
    ensures b.sp.pd[a] != b.sp.pd[c]
  {
    assert FrameAt(b.sp, PdOf(a)) == b.sp.pd[a] && FrameAt(b.sp, PdOf(c)) == b.sp.pd[c];
  }

  /** Taking one address space down changes nothing that another shows. */
  lemma GoneKeeps(b: Books, m: nat, n: nat, image: seq<nat>)
    requires m < |b.sp.live| && n != m
    ensures IsLive(b.sp, n) ==> IsLive(Gone(b, m).sp, n)
    ensures forall i, j, k :: ReadUser(Gone(b, m).sp, n, i, j, k) == ReadUser(b.sp, n, i, j, k)
    ensures ImageLoaded(b.sp, n, image) ==> ImageLoaded(Gone(b, m).sp, n, image)
  {
    var sp' := Gone(b, m).sp;
    assert PdFrame(sp', n) == PdFrame(b.sp, n);
    assert forall i :: PtFrame(sp', n, i) == PtFrame(b.sp, n, i);
    assert forall i, j :: PageFrame(sp', n, i, j) == PageFrame(b.sp, n, i, j);
  }

  /** The point of no return: the new directory is loaded, then the old
      address space goes. */
  method Commit(mem: Memory, was: nat, now: nat)
    requires mem.Valid() && IsLive(mem.Sp(), was) && IsLive(mem.Sp(), now) && was != now
    modifies mem`cr3, mem`mmLive, mem`owner, mem.vmas`used, mem.vmas`heads, mem.vmas`lists, mem.vmas`home
    modifies mem.pmm`availableFrames, mem.pmm`free, mem.pmm`frameHint, mem.pmm.bitmap
    ensures mem.Valid() && mem.cr3 == mem.mmPd[now] && mem.Now({}) == Gone(old(mem.Now({})), was)
    ensures was < |old(mem.vmas.AllAreas())| && mem.vmas.AllAreas() == old(mem.vmas.AllAreas())[was := []]
    ensures was < |old(mem.vmas.lists)| && mem.vmas.lists == old(mem.vmas.lists)[was := []]
    ensures |mem.vmas.used| == |old(mem.vmas.used)|
  {
    DistinctDirectories(mem.Now({}), was, now);
    mem.Switch(now);
    mem.Destroy(was);
  }

  /** The image is in place of address space a, whose frames are free again;
      frames that were in use elsewhere keep contents and place. */
  ghost predicate Replaced(b0: Books, b: Books, a: nat, m: nat, image: seq<nat>) {
    && a < |b.sp.live| && !b.sp.live[a] && IsLive(b.sp, m) && ImageLoaded(b.sp, m, image)
    && Without(b.owner, m) == Without(b0.owner, a) && FramesOf(b.owner, m) <= b0.free
    && b.free == b0.free + FramesOf(b0.owner, a) - FramesOf(b.owner, m)
    && RamKept(b0.sp.ram, b.sp.ram, b0.free)
  }

  lemma ExecReplaces(b0: Books, b1: Books, a: nat, m: nat, image: seq<nat>)
    requires Atop(b0, b1, m) && b1.limbo == {} && IsLive(b0.sp, a) && IsLive(b1.sp, m) && ImageLoaded(b1.sp, m, image)
    ensures a < |b1.sp.live| && Replaced(b0, Gone(b1, a), a, m, image)
  {
    GoneKeeps(b1, a, m, image);
    var b := Gone(b1, a);
    assert a != m;
    forall f | f in b1.owner && b1.owner[f].mm != m ensures f in b0.owner && b0.owner[f] == b1.owner[f] {
      assert f in Without(b1.owner, m);
    }
    forall f | f in b0.owner ensures f in b1.owner && b1.owner[f] == b0.owner[f] && b0.owner[f].mm != m {
      assert f in Without(b1.owner, m);
    }
    assert FramesOf(b1.owner, a) == FramesOf(b0.owner, a) && FramesOf(b.owner, m) == FramesOf(b1.owner, m);
    assert Without(b.owner, m) == Without(b0.owner, a);
    assert b0.free - FramesOf(b1.owner, m) - {} == b1.free;
    assert FramesOf(b0.owner, a) !! FramesOf(b1.owner, m);
  }

  lemma StillLive(b0: Books, b: Books, m: nat, n: nat)
    requires Atop(b0, b, m) && IsLive(b0.sp, n)
    ensures n != m && IsLive(b.sp, n) && b.sp.pd[n] == b0.sp.pd[n]
  {
  }
}
