/** The books while a page is mapped: a frame for the page, a table if there is
    none, the entry, and the page's contents. */
module MapBooks {
  import opened Regions
  import opened PageTables
  import opened PageBytes
  import opened PageClone
  import opened FrameBooks
  import opened SpaceAreas
  import opened Vmas

  /** Page (i, j) is mapped with these flags and this content. */
  ghost predicate HasPage(sp: Space, m: nat, i: nat, j: nat, flags: nat, content: Page) {
    && 0 <= PtFrame(sp, m, i) < |sp.ram| && j < ENTRIES && 0 <= PageFrame(sp, m, i, j) < |sp.ram|
    && FlagsOf(sp.ram[PtFrame(sp, m, i)][j]) == flags && sp.ram[PageFrame(sp, m, i, j)] == content
  }

  /** The directory flags of table i. A table that is not there counts as one
      that user code may read and write through, as it will once it is made. */
  function TableFlags(sp: Space, m: nat, i: nat): nat {
    if PtFrame(sp, m, i) == -1 then PG_PRESENT + PG_RW + PG_USER else FlagsOf(sp.ram[PdFrame(sp, m)][i])
  }

  ghost predicate SameFlags(sp: Space, sp': Space, m: nat) {
    forall i :: TableFlags(sp', m, i) == TableFlags(sp, m, i)
  }

  /** No page of address space m comes or goes. */
  ghost predicate SamePages(sp: Space, sp': Space, m: nat) {
    forall k, l :: PageFrame(sp', m, k, l) == PageFrame(sp, m, k, l)
  }

  /** No page of address space m comes but (i, j). */
  ghost predicate OnlyPage(sp: Space, sp': Space, m: nat, i: nat, j: nat) {
    forall k, l :: PageFrame(sp, m, k, l) == -1 && PageFrame(sp', m, k, l) != -1 ==> k == i && l == j
  }

  /** No table of address space m comes or goes. */
  ghost predicate SameTables(sp: Space, sp': Space, m: nat) {
    forall k :: PtFrame(sp', m, k) == PtFrame(sp, m, k)
  }

  predicate TableCame(sp: Space, sp': Space, m: nat, i: nat, k: nat) {
    PtFrame(sp', m, k) == -1 <==> PtFrame(sp, m, k) == -1 && k != i
  }

  /** Table i is there, and no other has come or gone. */
  ghost predicate HasTable(sp: Space, sp': Space, m: nat, i: nat) {
    forall k: nat :: TableCame(sp, sp', m, i, k)
  }

  lemma HasTableStill(sp: Space, sp1: Space, sp': Space, m: nat, i: nat)
    requires HasTable(sp, sp1, m, i) && SameTables(sp1, sp', m)
    ensures HasTable(sp, sp', m, i)
  {
    forall k: nat ensures TableCame(sp, sp', m, i, k) { assert TableCame(sp, sp1, m, i, k); }
  }

  lemma HadTable(sp: Space, m: nat, i: nat)
    requires PtFrame(sp, m, i) != -1
    ensures HasTable(sp, sp, m, i)
  {
  }

  /** A zeroed frame g, taken and entered as table i. */
  ghost function TableAdded(b: Books, m: nat, i: nat, g: nat, flags: nat): Books
    requires g < |b.sp.ram| && i < ENTRIES && IsLive(b.sp, m) && b.sp.pd[m] < |b.sp.ram|
  {
    TableEntered(Written(Taken(b, g), g, ZeroPage()), m, i, g, flags)
  }

  lemma AddTable(b1: Books, b: Books, rs: seq<Region>, m: nat, i: nat, g: nat)
    requires Growing(b1, b, rs, m) && i < USER_PDES && PtFrame(b.sp, m, i) == -1 && g in b.free
    ensures g < |b.sp.ram| && b.sp.pd[m] < |b.sp.ram|
    ensures Growing(b1, TableAdded(b, m, i, g, 7), rs, m)
    ensures PtFrame(TableAdded(b, m, i, g, 7).sp, m, i) != -1 && SameFlags(b.sp, TableAdded(b, m, i, g, 7).sp, m)
    ensures SamePages(b.sp, TableAdded(b, m, i, g, 7).sp, m) && HasTable(b.sp, TableAdded(b, m, i, g, 7).sp, m, i)
  {
    FreeIsApart(b, rs, g);
    OwnPd(b, m);
    var zeros := ZeroPage();
    GrowTaken(b1, b, rs, m, g);
    GrowWritten(b1, Taken(b, g), rs, m, g, zeros);
    var b2 := Written(Taken(b, g), g, zeros);
    forall k, l ensures PageFrame(b2.sp, m, k, l) == PageFrame(b.sp, m, k, l) {
      FillKeeps(b.sp, b.owner, g, zeros, m, k, l);
    }
    forall k ensures TableFlags(b2.sp, m, k) == TableFlags(b.sp, m, k) && PtFrame(b2.sp, m, k) == PtFrame(b.sp, m, k) {
      FillKeeps(b.sp, b.owner, g, zeros, m, k, 0);
    }
    FillKeeps(b.sp, b.owner, g, zeros, m, i, 0);
    GrowTable(b1, b2, rs, m, i, g, 7);
    EmptyTable(b2.sp, b2.owner, m, i, g, 7);
  }

  lemma EmptyTable(sp: Space, owner: map<nat, Place>, m: nat, i: nat, g: nat, flags: nat)
    requires Owned(sp, owner) && IsLive(sp, m) && i < USER_PDES && PtFrame(sp, m, i) == -1
    requires g < |sp.ram| && g !in owner && sp.ram[g] == ZeroPage() && flags < FLAG_BITS && flags % 2 == 1
    ensures sp.pd[m] < |sp.ram|
    ensures PtFrame(WithTable(sp, m, i, g, flags), m, i) == g && SamePages(sp, WithTable(sp, m, i, g, flags), m)
    ensures flags == 7 ==> SameFlags(sp, WithTable(sp, m, i, g, flags), m)
    ensures HasTable(sp, WithTable(sp, m, i, g, flags), m, i)
  {
    LinkTable(sp, owner, m, i, g, flags);
    EntryParts(g, flags);
    assert FrameAt(WithTable(sp, m, i, g, flags), PtOf(m, i)) == g;
    forall k, l ensures PageFrame(WithTable(sp, m, i, g, flags), m, k, l) == PageFrame(sp, m, k, l) {
      assert FrameAt(WithTable(sp, m, i, g, flags), PageOf(m, k, l)) == FrameAt(sp, PageOf(m, k, l));
    }
    forall k | k != i
      ensures TableFlags(WithTable(sp, m, i, g, flags), m, k) == TableFlags(sp, m, k)
      ensures PtFrame(WithTable(sp, m, i, g, flags), m, k) == PtFrame(sp, m, k)
    {
      TableLinkKeeps(sp, owner, m, i, g, flags, m, k, 0);
    }
  }

  /** The frame in limbo becomes the page, then gets its content. */
  ghost function PageAdded(b: Books, m: nat, i: nat, j: nat, f: nat, flags: nat, content: Page): Books
    requires 0 <= PtFrame(b.sp, m, i) < |b.sp.ram| && j < ENTRIES && m < |b.pages| && f < |b.sp.ram|
  {
    Written(PageEntered(b, m, i, j, f, flags), f, content)
  }

  lemma AddPage(b1: Books, b: Books, rs: seq<Region>, m: nat, i: nat, j: nat, f: nat, flags: nat, content: Page)
    requires Growing(b1, b, rs, m) && b.limbo == {f} && PtFrame(b.sp, m, i) != -1 && j < ENTRIES
    requires PageFrame(b.sp, m, i, j) == -1 && PageFrame(b1.sp, m, i, j) == -1 && flags < FLAG_BITS && flags % 2 == 1
    ensures 0 <= PtFrame(b.sp, m, i) < |b.sp.ram| && m < |b.pages| && f < |b.sp.ram|
    ensures Growing(b1, PageAdded(b, m, i, j, f, flags, content), rs, m)
    ensures HasPage(PageAdded(b, m, i, j, f, flags, content).sp, m, i, j, flags, content)
    ensures SameFlags(b.sp, PageAdded(b, m, i, j, f, flags, content).sp, m)
    ensures OnlyPage(b.sp, PageAdded(b, m, i, j, f, flags, content).sp, m, i, j)
    ensures SameTables(b.sp, PageAdded(b, m, i, j, f, flags, content).sp, m)
  {
    LimboIsApart(b, rs, f);
    OwnPd(b, m);
    OwnPt(b, m, i);
    GrowPage(b1, b, rs, m, i, j, f, flags);
    var b2 := PageEntered(b, m, i, j, f, flags);
    EntersPage(b.sp, b.owner, m, i, j, f, flags);
    GrowFilled(b1, b2, rs, m, i, j, content);
    FillsPage(b2.sp, b2.owner, m, i, j, content);
  }

  lemma EntersPage(sp: Space, owner: map<nat, Place>, m: nat, i: nat, j: nat, f: nat, flags: nat)
    requires Owned(sp, owner) && IsLive(sp, m) && PtFrame(sp, m, i) != -1 && j < ENTRIES && PageFrame(sp, m, i, j) == -1
    requires f < |sp.ram| && f !in owner && flags < FLAG_BITS && flags % 2 == 1
    ensures 0 <= PtFrame(sp, m, i) < |sp.ram|
    ensures HasPage(WithPage(sp, m, i, j, f, flags), m, i, j, flags, WithPage(sp, m, i, j, f, flags).ram[f])
    ensures PageFrame(WithPage(sp, m, i, j, f, flags), m, i, j) == f
    ensures SameFlags(sp, WithPage(sp, m, i, j, f, flags), m)
    ensures OnlyPage(sp, WithPage(sp, m, i, j, f, flags), m, i, j) && SameTables(sp, WithPage(sp, m, i, j, f, flags), m)
  {
    LinkPage(sp, owner, m, i, j, f, flags);
    PageLinkKeeps(sp, owner, m, i, j, f, flags, m, i, j);
    EntryParts(f, flags);
    assert FrameAt(WithPage(sp, m, i, j, f, flags), PageOf(m, i, j)) == f;
    forall k, l | PageFrame(sp, m, k, l) == -1 && PageFrame(WithPage(sp, m, i, j, f, flags), m, k, l) != -1
      ensures k == i && l == j
    {
      assert FrameAt(WithPage(sp, m, i, j, f, flags), PageOf(m, k, l)) != -1 && FrameAt(sp, PageOf(m, k, l)) == -1;
    }
    forall k
      ensures TableFlags(WithPage(sp, m, i, j, f, flags), m, k) == TableFlags(sp, m, k)
      ensures PtFrame(WithPage(sp, m, i, j, f, flags), m, k) == PtFrame(sp, m, k)
    {
      PageLinkKeeps(sp, owner, m, i, j, f, flags, m, k, 0);
    }
  }

  lemma FillsPage(sp: Space, owner: map<nat, Place>, m: nat, i: nat, j: nat, content: Page)
    requires Owned(sp, owner) && 0 <= PageFrame(sp, m, i, j) < |sp.ram| && j < ENTRIES && IsLive(sp, m)
    ensures 0 <= PtFrame(sp, m, i) < |sp.ram|
    ensures HasPage(Filled(sp, PageFrame(sp, m, i, j), content), m, i, j, FlagsOf(sp.ram[PtFrame(sp, m, i)][j]),
      content)
    ensures SameFlags(sp, Filled(sp, PageFrame(sp, m, i, j), content), m)
    ensures SamePages(sp, Filled(sp, PageFrame(sp, m, i, j), content), m)
    ensures SameTables(sp, Filled(sp, PageFrame(sp, m, i, j), content), m)
  {
    var f := PageFrame(sp, m, i, j);
    assert FrameAt(sp, PageOf(m, i, j)) == f && FrameAt(sp, PtOf(m, i)) == PtFrame(sp, m, i);
    assert FrameAt(sp, PdOf(m)) == PdFrame(sp, m);
    WriteData(sp, owner, f, content);
    var sp' := Filled(sp, f, content);
    assert FrameAt(sp', PageOf(m, i, j)) == f && FrameAt(sp', PtOf(m, i)) == PtFrame(sp', m, i);
    forall k, l ensures PageFrame(sp', m, k, l) == PageFrame(sp, m, k, l) {
      assert FrameAt(sp', PageOf(m, k, l)) == FrameAt(sp, PageOf(m, k, l));
    }
    forall k ensures TableFlags(sp', m, k) == TableFlags(sp, m, k) && PtFrame(sp', m, k) == PtFrame(sp, m, k) {
      FillOther(sp, owner, m, i, j, content, m, k, if k == i && j == 0 then 1 else 0);
    }
  }

  lemma HasPageKept(sp: Space, sp': Space, m: nat, i: nat, j: nat, flags: nat, content: Page)
    requires HasPage(sp, m, i, j, flags, content) && MappingsKept(sp, sp')
    ensures HasPage(sp', m, i, j, flags, content)
  {
    assert TableKept(sp, sp', m, i) && PageKept(sp, sp', m, i, j);
  }

  lemma ExtendsTrans(b1: Books, b2: Books, b3: Books, m: nat)
    requires Extends(b1, b2, m) && Extends(b2, b3, m) && b2.limbo == {}
    ensures Extends(b1, b3, m)
  {
    assert Gained(b1, b3, m) == Gained(b1, b2, m) + Gained(b2, b3, m);
    forall n, k, l | PageFrame(b1.sp, n, k, l) != -1
      ensures TableKept(b1.sp, b3.sp, n, k) && PageKept(b1.sp, b3.sp, n, k, l)
    {
      assert TableKept(b1.sp, b2.sp, n, k) && PageKept(b1.sp, b2.sp, n, k, l);
      assert PageFrame(b2.sp, n, k, l) == PageFrame(b1.sp, n, k, l);
      assert TableKept(b2.sp, b3.sp, n, k) && PageKept(b2.sp, b3.sp, n, k, l);
    }
  }

  // ---- Many pages ----

  /** The bytes of the data that belong to page k. */
  function Chunk(data: seq<nat>, k: nat): (r: seq<nat>)
    ensures |r| <= PAGE_BYTES && (IsBytes(data) ==> IsBytes(r))
  {
    if k * PAGE_BYTES >= |data| then []
    else if |data| - k * PAGE_BYTES > PAGE_BYTES then data[k * PAGE_BYTES..k * PAGE_BYTES + PAGE_BYTES]
    else data[k * PAGE_BYTES..]
  }

  /** Page number q of a region that starts at page q0 holds its part of the data. */
  ghost predicate PageMapped(sp: Space, m: nat, q0: nat, q: nat, flags: nat, data: seq<nat>)
    requires q0 <= q
  {
    HasPage(sp, m, q / ENTRIES, q % ENTRIES, flags, PageWith(Chunk(data, q - q0)))
  }

  /** Pages [q0, q1) are mapped since b1, and none else. */
  ghost predicate MappedUpTo(b1: Books, b: Books, m: nat, q0: nat, q1: nat, flags: nat, data: seq<nat>) {
    && Extends(b1, b, m) && b.limbo == {}
    && AllMapped(b.sp, m, q0, q1, flags, data)
    && NewPagesIn(b1.sp, b.sp, m, q0, q1) && SameFlags(b1.sp, b.sp, m)
  }

  ghost predicate NewPagesIn(sp: Space, sp': Space, m: nat, q0: nat, q1: nat) {
    forall k: nat, l: nat :: l < ENTRIES && PageFrame(sp, m, k, l) == -1 && PageFrame(sp', m, k, l) != -1 ==>
      q0 <= k * ENTRIES + l < q1
  }

  lemma OneMoreNew(sp1: Space, sp: Space, sp': Space, m: nat, q0: nat, q1: nat)
    requires NewPagesIn(sp1, sp, m, q0, q1) && OnlyPage(sp, sp', m, q1 / ENTRIES, q1 % ENTRIES) && q0 <= q1
    ensures NewPagesIn(sp1, sp', m, q0, q1 + 1)
  {
    forall k: nat, l: nat | l < ENTRIES && PageFrame(sp1, m, k, l) == -1 && PageFrame(sp', m, k, l) != -1
      ensures q0 <= k * ENTRIES + l < q1 + 1
    {
      assert PageFrame(sp, m, k, l) != -1 || (k == q1 / ENTRIES && l == q1 % ENTRIES);
    }
  }

  ghost predicate AllMapped(sp: Space, m: nat, q0: nat, q1: nat, flags: nat, data: seq<nat>) {
    forall q :: q0 <= q < q1 ==> PageMapped(sp, m, q0, q, flags, data)
  }

  lemma MappedStay(sp: Space, sp': Space, m: nat, q0: nat, q1: nat, flags: nat, data: seq<nat>)
    requires MappingsKept(sp, sp') && AllMapped(sp, m, q0, q1, flags, data) && q0 <= q1
    requires PageMapped(sp', m, q0, q1, flags, data)
    ensures AllMapped(sp', m, q0, q1 + 1, flags, data)
  {
    forall q | q0 <= q < q1 ensures PageMapped(sp', m, q0, q, flags, data) {
      assert PageMapped(sp, m, q0, q, flags, data);
      HasPageKept(sp, sp', m, q / ENTRIES, q % ENTRIES, flags, PageWith(Chunk(data, q - q0)));
    }
  }

  lemma MapOneMore(b1: Books, b: Books, b': Books, m: nat, q0: nat, q1: nat, flags: nat, data: seq<nat>)
    requires MappedUpTo(b1, b, m, q0, q1, flags, data) && Extends(b, b', m) && b'.limbo == {} && q0 <= q1
    requires PageMapped(b'.sp, m, q0, q1, flags, data) && OnlyPage(b.sp, b'.sp, m, q1 / ENTRIES, q1 % ENTRIES)
    requires SameFlags(b.sp, b'.sp, m)
    ensures MappedUpTo(b1, b', m, q0, q1 + 1, flags, data)
  {
    ExtendsTrans(b1, b, b', m);
    MappedStay(b.sp, b'.sp, m, q0, q1, flags, data);
    OneMoreNew(b1.sp, b.sp, b'.sp, m, q0, q1);
  }

  ghost predicate RegionFree(sp: Space, m: nat, q0: nat, q1: nat) {
    forall q :: q0 <= q < q1 ==> !MappedPage(sp, m, q)
  }

  lemma FreeAt(sp: Space, m: nat, q0: nat, q1: nat, q: nat)
    requires RegionFree(sp, m, q0, q1) && q0 <= q < q1
    ensures PageFrame(sp, m, q / ENTRIES, q % ENTRIES) == -1
  {
    assert !MappedPage(sp, m, q);
  }

  lemma MapNone(b1: Books, rs: seq<Region>, m: nat, q0: nat, flags: nat, data: seq<nat>)
    requires Sound(b1, rs) && b1.limbo == {} && m < |b1.pages|
    ensures MappedUpTo(b1, b1, m, q0, q0, flags, data)
  {
    ExtendsSelf(b1, rs, m);
  }

  lemma PageParts(va: nat, q: nat)
    requires va == q * PAGE_BYTES < USER_LIMIT
    ensures va / 0x40_0000 == q / ENTRIES < USER_PDES && va / PAGE_BYTES % ENTRIES == q % ENTRIES
  {
  }

  lemma StillUnmapped(b1: Books, b: Books, m: nat, q0: nat, q1: nat, flags: nat, data: seq<nat>)
    requires MappedUpTo(b1, b, m, q0, q1, flags, data)
    requires PageFrame(b1.sp, m, q1 / ENTRIES, q1 % ENTRIES) == -1
    ensures PageFrame(b.sp, m, q1 / ENTRIES, q1 % ENTRIES) == -1
  {
    assert q1 / ENTRIES * ENTRIES + q1 % ENTRIES == q1;
  }

  /** PTE flags for an area's protection bits. */
  function FlagsFor(prot: nat): nat { if prot / 2 % 2 == 1 then PG_PRESENT + PG_USER + PG_RW else PG_PRESENT + PG_USER }

  /** A mapped region can be entered as an area. */
  lemma RegionAreas(b1: Books, b: Books, m: nat, areas: seq<seq<Vma>>, v: Vma, q0: nat, q1: nat, flags: nat,
                    data: seq<nat>)
    requires MappedUpTo(b1, b, m, q0, q1, flags, data) && RegionFree(b1.sp, m, q0, q1)
    requires AreasOk(b1.sp, areas) && m < |areas| && IsLive(b1.sp, m)
    requires v.start == q0 * PAGE_BYTES && v.end == q1 * PAGE_BYTES <= USER_LIMIT && q0 < q1
    ensures AreasOk(b.sp, areas[m := Inserted(areas[m], v)])
  {
    forall q: nat | AreaPage(v, q) ensures MappedPage(b.sp, m, q) && !MappedPage(b1.sp, m, q) {
      assert q0 <= q < q1;
      assert PageMapped(b.sp, m, q0, q, flags, data);
    }
    AreasInserted(b1, b, m, areas, v);
  }

  /** What mapping pages [q0, q1) as area v comes to: all of it, or some pages
      and no area. */
  ghost predicate RegionOutcome(b1: Books, b: Books, m: nat, areas: seq<seq<Vma>>, areas': seq<seq<Vma>>, v: Vma,
                                q0: nat, q1: nat, data: seq<nat>, ok: bool)
  {
    true == (&& Extends(b1, b, m) && m < |areas|
             && (ok ==> MappedUpTo(b1, b, m, q0, q1, FlagsFor(v.prot), data))
             && areas' == if ok then areas[m := Inserted(areas[m], v)] else areas)
  }

  lemma NoRegion(b: Books, rs: seq<Region>, m: nat, areas: seq<seq<Vma>>, v: Vma, q0: nat, q1: nat, data: seq<nat>)
    requires Sound(b, rs) && b.limbo == {} && m < |areas| && IsLive(b.sp, m)
    ensures RegionOutcome(b, b, m, areas, areas, v, q0, q1, data, false)
  {
    ExtendsSelf(b, rs, m);
  }
}
