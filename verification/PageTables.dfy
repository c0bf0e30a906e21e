/** Physical memory as page frames, and the two-level page tables that live in
    them (section 5.2 of the Intel 80386 Programmer's Reference Manual). Every
    frame of an address space has one place in it; `owner` records which. */
module PageTables {

  const ENTRIES: nat := 1024
  const USER_PDES: nat := 768
  const FLAG_BITS: nat := 4096

  const PG_PRESENT: nat := 1
  const PG_RW: nat := 2
  const PG_USER: nat := 4

  /** A frame's 1024 words. */
  type Page = p: seq<nat> | |p| == ENTRIES witness seq(ENTRIES, _ => 0)

  function ZeroPage(): Page { seq(ENTRIES, _ => 0) }

  /** An entry is a frame number above twelve flag bits. */
  function Entry(frame: nat, flags: nat): nat { frame * FLAG_BITS + flags }

  function FrameOf(entry: nat): nat { entry / FLAG_BITS }

  function FlagsOf(entry: nat): nat { entry % FLAG_BITS }

  predicate Present(entry: nat) { FlagsOf(entry) % 2 == 1 }

  predicate Writable(entry: nat) { FlagsOf(entry) / 2 % 2 == 1 }

  predicate ForUser(entry: nat) { FlagsOf(entry) / 4 % 2 == 1 }

  lemma EntryParts(frame: nat, flags: nat)
    requires flags < FLAG_BITS
    ensures FrameOf(Entry(frame, flags)) == frame && FlagsOf(Entry(frame, flags)) == flags
  {
  }

  /** Frames, and for each address-space slot whether it is live and where its
      page directory is. */
  datatype Space = Space(ram: seq<Page>, live: seq<bool>, pd: seq<nat>)

  predicate WellSized(sp: Space) { |sp.pd| == |sp.live| }

  /** The places a frame can have: a directory, a user page table, a user page. */
  datatype Place =
    | PdOf(mm: nat)
    | PtOf(mm: nat, i: nat)
    | PageOf(mm: nat, i: nat, j: nat)

  predicate IsLive(sp: Space, m: nat) { m < |sp.live| && m < |sp.pd| && sp.live[m] }

  function PdFrame(sp: Space, m: nat): int { if IsLive(sp, m) then sp.pd[m] else -1 }

  /** The frame that entry k of the table in frame f leads to, or -1. */
  function Follow(ram: seq<Page>, f: int, k: nat): int {
    if 0 <= f < |ram| && k < ENTRIES && Present(ram[f][k]) then FrameOf(ram[f][k]) else -1
  }

  function PtFrame(sp: Space, m: nat, i: nat): int {
    if i < USER_PDES then Follow(sp.ram, PdFrame(sp, m), i) else -1
  }

  function PageFrame(sp: Space, m: nat, i: nat, j: nat): int { Follow(sp.ram, PtFrame(sp, m, i), j) }

  function FrameAt(sp: Space, p: Place): int {
    match p
    case PdOf(m) => PdFrame(sp, m)
    case PtOf(m, i) => PtFrame(sp, m, i)
    case PageOf(m, i, j) => PageFrame(sp, m, i, j)
  }

  /** Every frame of every live address space has exactly one place, and
      `owner` names it. */
  ghost predicate Owned(sp: Space, owner: map<nat, Place>) {
    && WellSized(sp)
    && (forall f {:trigger owner[f]} :: f in owner ==> f < |sp.ram| && FrameAt(sp, owner[f]) == f)
    && (forall p :: FrameAt(sp, p) != -1 ==> FrameAt(sp, p) in owner && owner[FrameAt(sp, p)] == p)
  }

  /** No two places share a frame. */
  lemma OnePlacePerFrame(sp: Space, owner: map<nat, Place>, p: Place, q: Place)
    requires Owned(sp, owner) && FrameAt(sp, p) == FrameAt(sp, q) != -1
    ensures p == q
  {
    assert owner[FrameAt(sp, p)] == p && owner[FrameAt(sp, q)] == q;
  }

  function SetWord(ram: seq<Page>, f: nat, k: nat, w: nat): seq<Page>
    requires f < |ram| && k < ENTRIES
  {
    ram[f := ram[f][k := w]]
  }

  /** A fresh, zeroed frame becomes page table i of address space m. */
  lemma LinkTable(sp: Space, owner: map<nat, Place>, m: nat, i: nat, f: nat, flags: nat)
    requires Owned(sp, owner) && IsLive(sp, m) && i < USER_PDES && PtFrame(sp, m, i) == -1
    requires f < |sp.ram| && f !in owner && sp.ram[f] == ZeroPage() && flags < FLAG_BITS && flags % 2 == 1
    ensures sp.pd[m] < |sp.ram|
    ensures var sp' := sp.(ram := SetWord(sp.ram, sp.pd[m], i, Entry(f, flags)));
      && Owned(sp', owner[f := PtOf(m, i)])
      && forall p :: FrameAt(sp', p) == if p == PtOf(m, i) then f else FrameAt(sp, p)
  {
    assert FrameAt(sp, PdOf(m)) == sp.pd[m];
    var sp' := sp.(ram := SetWord(sp.ram, sp.pd[m], i, Entry(f, flags)));
    EntryParts(f, flags);
    forall p ensures FrameAt(sp', p) == if p == PtOf(m, i) then f else FrameAt(sp, p) {
      match p
      case PdOf(_) =>
      case PtOf(n, a) =>
        assert FrameAt(sp, PdOf(n)) == PdFrame(sp, n);
      case PageOf(n, a, b) =>
        assert FrameAt(sp, PdOf(n)) == PdFrame(sp, n);
        assert FrameAt(sp, PtOf(n, a)) == PtFrame(sp, n, a);
    }
  }

  /** Page (i, j) of address space m, mapped or not, becomes frame f. */
  function Overwritten(sp: Space, m: nat, i: nat, j: nat, f: nat, flags: nat): Space
    requires 0 <= PtFrame(sp, m, i) < |sp.ram| && j < ENTRIES
  {
    sp.(ram := SetWord(sp.ram, PtFrame(sp, m, i), j, Entry(f, flags)))
  }

  /** Only that one place changes its frame. */
  lemma OverwrittenPlaces(sp: Space, owner: map<nat, Place>, m: nat, i: nat, j: nat, f: nat, flags: nat)
    requires Owned(sp, owner) && IsLive(sp, m) && PtFrame(sp, m, i) != -1 && j < ENTRIES
    requires f < |sp.ram| && f !in owner && flags < FLAG_BITS && flags % 2 == 1
    ensures 0 <= PtFrame(sp, m, i) < |sp.ram|
    ensures var sp' := Overwritten(sp, m, i, j, f, flags);
      forall p :: FrameAt(sp', p) == if p == PageOf(m, i, j) then f else FrameAt(sp, p)
  {
    assert FrameAt(sp, PtOf(m, i)) == PtFrame(sp, m, i);
    var sp' := Overwritten(sp, m, i, j, f, flags);
    EntryParts(f, flags);
    forall p ensures FrameAt(sp', p) == if p == PageOf(m, i, j) then f else FrameAt(sp, p) {
      match p
      case PdOf(_) =>
      case PtOf(n, a) =>
        assert FrameAt(sp, PdOf(n)) == PdFrame(sp, n);
      case PageOf(n, a, b) =>
        assert FrameAt(sp, PdOf(n)) == PdFrame(sp, n);
        assert FrameAt(sp, PtOf(n, a)) == PtFrame(sp, n, a);
    }
  }

  /** A fresh frame becomes page (i, j) of address space m. */
  lemma LinkPage(sp: Space, owner: map<nat, Place>, m: nat, i: nat, j: nat, f: nat, flags: nat)
    requires Owned(sp, owner) && IsLive(sp, m) && PtFrame(sp, m, i) != -1
    requires j < ENTRIES && PageFrame(sp, m, i, j) == -1
    requires f < |sp.ram| && f !in owner && flags < FLAG_BITS && flags % 2 == 1
    ensures 0 <= PtFrame(sp, m, i) < |sp.ram|
    ensures var sp' := sp.(ram := SetWord(sp.ram, PtFrame(sp, m, i), j, Entry(f, flags)));
      && Owned(sp', owner[f := PageOf(m, i, j)])
      && forall p :: FrameAt(sp', p) == if p == PageOf(m, i, j) then f else FrameAt(sp, p)
  {
    OverwrittenPlaces(sp, owner, m, i, j, f, flags);
    var sp' := sp.(ram := SetWord(sp.ram, PtFrame(sp, m, i), j, Entry(f, flags)));
    assert sp' == Overwritten(sp, m, i, j, f, flags);
    forall p | FrameAt(sp', p) != -1 ensures p == PageOf(m, i, j) || FrameAt(sp, p) == FrameAt(sp', p) { }
  }

  /** Writing a frame that is no directory and no table moves nothing. */
  lemma WriteData(sp: Space, owner: map<nat, Place>, f: nat, content: Page)
    requires Owned(sp, owner) && f < |sp.ram| && (f in owner ==> owner[f].PageOf?)
    ensures var sp' := sp.(ram := sp.ram[f := content]);
      Owned(sp', owner) && forall p :: FrameAt(sp', p) == FrameAt(sp, p)
  {
    var sp' := sp.(ram := sp.ram[f := content]);
    forall p ensures FrameAt(sp', p) == FrameAt(sp, p) {
      match p
      case PdOf(_) =>
      case PtOf(n, a) =>
        assert FrameAt(sp, PdOf(n)) == PdFrame(sp, n);
      case PageOf(n, a, b) =>
        assert FrameAt(sp, PdOf(n)) == PdFrame(sp, n);
        assert FrameAt(sp, PtOf(n, a)) == PtFrame(sp, n, a);
    }
  }

  // ---- Creating and dropping an address space ----

  /** A directory whose user half maps nothing. */
  ghost predicate BlankDirectory(page: Page) {
    forall i :: 0 <= i < USER_PDES ==> !Present(page[i])
  }

  lemma AddSpace(sp: Space, owner: map<nat, Place>, m: nat, f: nat)
    requires Owned(sp, owner) && m < |sp.live| && !sp.live[m]
    requires f < |sp.ram| && f !in owner && BlankDirectory(sp.ram[f])
    ensures var sp' := sp.(live := sp.live[m := true], pd := sp.pd[m := f]);
      && Owned(sp', owner[f := PdOf(m)])
      && forall p :: FrameAt(sp', p) == if p == PdOf(m) then f else FrameAt(sp, p)
  {
    var sp' := sp.(live := sp.live[m := true], pd := sp.pd[m := f]);
    forall p ensures FrameAt(sp', p) == if p == PdOf(m) then f else FrameAt(sp, p) {
      match p
      case PdOf(_) =>
      case PtOf(n, a) =>
      case PageOf(n, a, b) =>
    }
  }

  /** What remains of the ownership map once address space m is gone. */
  ghost function Without(owner: map<nat, Place>, m: nat): map<nat, Place> {
    map f | f in owner && owner[f].mm != m :: owner[f]
  }

  lemma DropSpace(sp: Space, owner: map<nat, Place>, m: nat)
    requires Owned(sp, owner) && m < |sp.live|
    ensures var sp' := sp.(live := sp.live[m := false]);
      && Owned(sp', Without(owner, m))
      && forall p :: FrameAt(sp', p) == if p.mm == m then -1 else FrameAt(sp, p)
  {
    var sp' := sp.(live := sp.live[m := false]);
    forall p ensures FrameAt(sp', p) == if p.mm == m then -1 else FrameAt(sp, p) {
      match p
      case PdOf(_) =>
      case PtOf(n, a) =>
      case PageOf(n, a, b) =>
    }
  }

  // ---- User accesses ----

  /** The 80386 checks for a user access to page (i, j): present and user in
      both levels, and writable in both for a write. */
  predicate UserMay(sp: Space, m: nat, i: nat, j: nat, write: bool) {
    && i < USER_PDES && j < ENTRIES
    && 0 <= PdFrame(sp, m) < |sp.ram| && 0 <= PtFrame(sp, m, i) < |sp.ram| && 0 <= PageFrame(sp, m, i, j) < |sp.ram|
    && var pde, pte := sp.ram[PdFrame(sp, m)][i], sp.ram[PtFrame(sp, m, i)][j];
       ForUser(pde) && ForUser(pte) && (write ==> Writable(pde) && Writable(pte))
  }

  datatype Access = Fault | Word(value: nat)

  function ReadUser(sp: Space, m: nat, i: nat, j: nat, k: nat): Access {
    if k < ENTRIES && UserMay(sp, m, i, j, false) then Word(sp.ram[PageFrame(sp, m, i, j)][k]) else Fault
  }

  function WriteUser(sp: Space, m: nat, i: nat, j: nat, k: nat, w: nat): Space {
    if k < ENTRIES && UserMay(sp, m, i, j, true) then
      sp.(ram := SetWord(sp.ram, PageFrame(sp, m, i, j), k, w))
    else sp
  }

  /** A write through one address space keeps every frame in its place. */
  lemma WriteKeepsPlaces(sp: Space, owner: map<nat, Place>, m: nat, i: nat, j: nat, k: nat, w: nat)
    requires Owned(sp, owner)
    ensures var sp' := WriteUser(sp, m, i, j, k, w);
      && Owned(sp', owner) && sp'.live == sp.live && sp'.pd == sp.pd && |sp'.ram| == |sp.ram|
      && (forall p :: FrameAt(sp', p) == FrameAt(sp, p))
      && (forall f :: 0 <= f < |sp.ram| && f != PageFrame(sp, m, i, j) ==> sp'.ram[f] == sp.ram[f])
  {
    if k < ENTRIES && UserMay(sp, m, i, j, true) {
      var f := PageFrame(sp, m, i, j);
      assert FrameAt(sp, PageOf(m, i, j)) == f;
      WriteData(sp, owner, f, sp.ram[f][k := w]);
    }
  }

  /** A write through one address space changes no read through another, and
      in its own changes only the word it addresses. */
  lemma WriteIsLocal(sp: Space, owner: map<nat, Place>, m: nat, i: nat, j: nat, k: nat, w: nat,
                     n: nat, a: nat, b: nat, c: nat)
    requires Owned(sp, owner)
    ensures (n, a, b, c) != (m, i, j, k) ==>
        ReadUser(WriteUser(sp, m, i, j, k, w), n, a, b, c) == ReadUser(sp, n, a, b, c)
    ensures k < ENTRIES && UserMay(sp, m, i, j, true) ==> ReadUser(WriteUser(sp, m, i, j, k, w), m, i, j, k) == Word(w)
  {
    var sp' := WriteUser(sp, m, i, j, k, w);
    WriteKeepsPlaces(sp, owner, m, i, j, k, w);
    assert FrameAt(sp', PdOf(n)) == FrameAt(sp, PdOf(n));
    assert FrameAt(sp', PtOf(n, a)) == FrameAt(sp, PtOf(n, a));
    assert FrameAt(sp', PageOf(n, a, b)) == FrameAt(sp, PageOf(n, a, b));
    assert FrameAt(sp', PdOf(m)) == FrameAt(sp, PdOf(m));
    assert FrameAt(sp', PtOf(m, i)) == FrameAt(sp, PtOf(m, i));
    assert FrameAt(sp', PageOf(m, i, j)) == FrameAt(sp, PageOf(m, i, j));
    if UserMay(sp, m, i, j, true) {
      PagesApart(sp, owner, m, i, j, n, a, b);
    }
  }

  /** The page of one user address is no directory, no table, and no other page. */
  lemma PagesApart(sp: Space, owner: map<nat, Place>, m: nat, i: nat, j: nat, n: nat, a: nat, b: nat)
    requires Owned(sp, owner) && PageFrame(sp, m, i, j) != -1
    ensures PageFrame(sp, m, i, j) != PdFrame(sp, n)
    ensures PageFrame(sp, m, i, j) != PtFrame(sp, n, a)
    ensures PageFrame(sp, m, i, j) == PageFrame(sp, n, a, b) ==> (m, i, j) == (n, a, b)
  {
    var p := PageOf(m, i, j);
    assert FrameAt(sp, p) == PageFrame(sp, m, i, j);
    assert FrameAt(sp, PdOf(n)) == PdFrame(sp, n);
    assert FrameAt(sp, PtOf(n, a)) == PtFrame(sp, n, a);
    assert FrameAt(sp, PageOf(n, a, b)) == PageFrame(sp, n, a, b);
  }

  /** A user store. */
  datatype Store = Store(i: nat, j: nat, k: nat, w: nat)

  function WriteAll(sp: Space, m: nat, stores: seq<Store>): Space
    decreases stores
  {
    if stores == [] then sp
    else var s := stores[0]; WriteAll(WriteUser(sp, m, s.i, s.j, s.k, s.w), m, stores[1..])
  }

  // ---- Stores by everybody ----

  /** A store by one of several address spaces. */
  datatype StoreBy = StoreBy(mm: nat, store: Store)

  function WriteMixed(sp: Space, stores: seq<StoreBy>): Space
    decreases stores
  {
    if stores == [] then sp
    else var s := stores[0]; WriteMixed(WriteUser(sp, s.mm, s.store.i, s.store.j, s.store.k, s.store.w), stores[1..])
  }

  /** The stores that address space n makes. */
  function OwnStores(stores: seq<StoreBy>, n: nat): seq<Store>
    decreases stores
  {
    if stores == [] then []
    else (if stores[0].mm == n then [stores[0].store] else []) + OwnStores(stores[1..], n)
  }

  /** Place p holds the same frame with the same contents. */
  ghost predicate SamePlace(sp: Space, sp': Space, p: Place) {
    && FrameAt(sp', p) == FrameAt(sp, p)
    && (FrameAt(sp, p) != -1 ==>
        && 0 <= FrameAt(sp, p) < |sp.ram| && FrameAt(sp, p) < |sp'.ram|
        && sp'.ram[FrameAt(sp, p)] == sp.ram[FrameAt(sp, p)])
  }

  /** Address space n is the same in both. */
  ghost predicate SameView(sp: Space, sp': Space, n: nat) {
    forall p: Place :: p.mm == n ==> SamePlace(sp, sp', p)
  }

  lemma SameViewReads(sp: Space, sp': Space, n: nat, i: nat, j: nat, k: nat, write: bool)
    requires SameView(sp, sp', n)
    ensures UserMay(sp', n, i, j, write) == UserMay(sp, n, i, j, write)
    ensures PageFrame(sp', n, i, j) == PageFrame(sp, n, i, j)
    ensures ReadUser(sp', n, i, j, k) == ReadUser(sp, n, i, j, k)
  {
    assert SamePlace(sp, sp', PdOf(n)) && SamePlace(sp, sp', PtOf(n, i)) && SamePlace(sp, sp', PageOf(n, i, j));
  }

  /** A store by another address space leaves n as it is. */
  lemma OtherStores(sp: Space, owner: map<nat, Place>, m: nat, s: Store, n: nat)
    requires Owned(sp, owner) && m != n
    ensures SameView(sp, WriteUser(sp, m, s.i, s.j, s.k, s.w), n)
  {
    var sp' := WriteUser(sp, m, s.i, s.j, s.k, s.w);
    WriteKeepsPlaces(sp, owner, m, s.i, s.j, s.k, s.w);
    forall p: Place | p.mm == n ensures SamePlace(sp, sp', p) {
      if FrameAt(sp, p) != -1 && FrameAt(sp, p) == FrameAt(sp, PageOf(m, s.i, s.j)) {
        OnePlacePerFrame(sp, owner, p, PageOf(m, s.i, s.j));
      }
    }
  }

  /** A store by n itself does the same to the same address space. */
  lemma OwnStore(sp: Space, sp': Space, owner: map<nat, Place>, owner': map<nat, Place>, n: nat, s: Store)
    requires Owned(sp, owner) && Owned(sp', owner') && SameView(sp, sp', n)
    ensures SameView(WriteUser(sp, n, s.i, s.j, s.k, s.w), WriteUser(sp', n, s.i, s.j, s.k, s.w), n)
  {
    SameViewReads(sp, sp', n, s.i, s.j, s.k, true);
    WriteKeepsPlaces(sp, owner, n, s.i, s.j, s.k, s.w);
    WriteKeepsPlaces(sp', owner', n, s.i, s.j, s.k, s.w);
    var t, t' := WriteUser(sp, n, s.i, s.j, s.k, s.w), WriteUser(sp', n, s.i, s.j, s.k, s.w);
    forall p: Place | p.mm == n ensures SamePlace(t, t', p) {
      assert SamePlace(sp, sp', p) && SamePlace(sp, sp', PageOf(n, s.i, s.j));
    }
  }

  lemma ViewTransitive(a: Space, b: Space, c: Space, n: nat)
    requires SameView(a, b, n) && SameView(b, c, n)
    ensures SameView(a, c, n)
  {
    forall p: Place | p.mm == n ensures SamePlace(a, c, p) { assert SamePlace(a, b, p) && SamePlace(b, c, p); }
  }

  lemma ViewSymmetric(a: Space, b: Space, n: nat)
    requires SameView(a, b, n)
    ensures SameView(b, a, n)
  {
    forall p: Place | p.mm == n ensures SamePlace(b, a, p) { assert SamePlace(a, b, p); }
  }

  /** Whatever all address spaces store, in any order and number, n shows what
      its own stores alone have made of it; sp' is where n starts the same. */
  lemma {:induction false} MixedStores(sp: Space, sp': Space, owner: map<nat, Place>, owner': map<nat, Place>,
                                       stores: seq<StoreBy>, n: nat)
    requires Owned(sp, owner) && Owned(sp', owner') && SameView(sp, sp', n)
    ensures SameView(WriteMixed(sp, stores), WriteAll(sp', n, OwnStores(stores, n)), n)
    decreases stores
  {
    if stores != [] {
      var m, s, own := stores[0].mm, stores[0].store, OwnStores(stores[1..], n);
      var t := WriteUser(sp, m, s.i, s.j, s.k, s.w);
      WriteKeepsPlaces(sp, owner, m, s.i, s.j, s.k, s.w);
      if m == n {
        OwnStore(sp, sp', owner, owner', n, s);
        WriteKeepsPlaces(sp', owner', n, s.i, s.j, s.k, s.w);
        assert OwnStores(stores, n) == [s] + own && ([s] + own)[1..] == own;
        MixedStores(t, WriteUser(sp', n, s.i, s.j, s.k, s.w), owner, owner', stores[1..], n);
      } else {
        OtherStores(sp, owner, m, s, n);
        ViewSymmetric(sp, t, n);
        ViewTransitive(t, sp, sp', n);
        assert OwnStores(stores, n) == own;
        MixedStores(t, sp', owner, owner', stores[1..], n);
      }
    }
  }

  /** What is read at a word after some stores: the last one there, if stores
      there are allowed, or what was there. */
  function After(stores: seq<Store>, i: nat, j: nat, k: nat, may: bool, was: Access): Access
    decreases stores
  {
    if stores == [] then was
    else
      var s := stores[0];
      After(stores[1..], i, j, k, may, if may && (s.i, s.j, s.k) == (i, j, k) && k < ENTRIES then Word(s.w) else was)
  }

  /** No store changes what may be accessed. */
  lemma StoreKeepsRights(sp: Space, owner: map<nat, Place>, m: nat, s: Store, n: nat, i: nat, j: nat, write: bool)
    requires Owned(sp, owner)
    ensures UserMay(WriteUser(sp, m, s.i, s.j, s.k, s.w), n, i, j, write) == UserMay(sp, n, i, j, write)
  {
    var sp' := WriteUser(sp, m, s.i, s.j, s.k, s.w);
    WriteKeepsPlaces(sp, owner, m, s.i, s.j, s.k, s.w);
    assert FrameAt(sp', PdOf(n)) == FrameAt(sp, PdOf(n));
    assert FrameAt(sp', PtOf(n, i)) == FrameAt(sp, PtOf(n, i));
    assert FrameAt(sp', PageOf(n, i, j)) == FrameAt(sp, PageOf(n, i, j));
    if PageFrame(sp, m, s.i, s.j) != -1 { PagesApart(sp, owner, m, s.i, s.j, n, i, j); }
  }

  lemma {:induction false} OwnStoresRead(sp: Space, owner: map<nat, Place>, m: nat, stores: seq<Store>, i: nat,
                                         j: nat, k: nat)
    requires Owned(sp, owner)
    ensures ReadUser(WriteAll(sp, m, stores), m, i, j, k) ==
      After(stores, i, j, k, UserMay(sp, m, i, j, true), ReadUser(sp, m, i, j, k))
    decreases stores
  {
    if stores != [] {
      var s := stores[0];
      var sp' := WriteUser(sp, m, s.i, s.j, s.k, s.w);
      WriteIsLocal(sp, owner, m, s.i, s.j, s.k, s.w, m, i, j, k);
      WriteKeepsPlaces(sp, owner, m, s.i, s.j, s.k, s.w);
      StoreKeepsRights(sp, owner, m, s, m, i, j, true);
      OwnStoresRead(sp', owner, m, stores[1..], i, j, k);
    }
  }

  // ---- Equal address spaces ----

  /** Page (i, j) is mapped in both or in neither, alike and with equal contents. */
  ghost predicate SamePage(sp: Space, a: nat, b: nat, i: nat, j: nat) {
    var fa, fb := PageFrame(sp, a, i, j), PageFrame(sp, b, i, j);
    && (fa == -1 <==> fb == -1)
    && (fa != -1 ==>
          && 0 <= fa < |sp.ram| && 0 <= fb < |sp.ram| && sp.ram[fa] == sp.ram[fb]
          && FlagsOf(sp.ram[PtFrame(sp, a, i)][j]) == FlagsOf(sp.ram[PtFrame(sp, b, i)][j]))
  }

  ghost predicate SameTable(sp: Space, a: nat, b: nat, i: nat) {
    && (PtFrame(sp, a, i) == -1 <==> PtFrame(sp, b, i) == -1)
    && (PtFrame(sp, a, i) != -1 ==> FlagsOf(sp.ram[PdFrame(sp, a)][i]) == FlagsOf(sp.ram[PdFrame(sp, b)][i]))
  }

  ghost predicate SameUser(sp: Space, a: nat, b: nat) {
    && (forall i :: 0 <= i < USER_PDES ==> SameTable(sp, a, b, i))
    && (forall i, j :: 0 <= i < USER_PDES && 0 <= j < ENTRIES ==> SamePage(sp, a, b, i, j))
  }

  /** Equal address spaces answer every user read alike, faults included. */
  lemma SameUserReads(sp: Space, owner: map<nat, Place>, a: nat, b: nat, i: nat, j: nat, k: nat)
    requires Owned(sp, owner) && IsLive(sp, a) && IsLive(sp, b) && SameUser(sp, a, b)
    ensures ReadUser(sp, a, i, j, k) == ReadUser(sp, b, i, j, k)
    ensures UserMay(sp, a, i, j, true) == UserMay(sp, b, i, j, true)
  {
    if i < USER_PDES && j < ENTRIES {
      assert SameTable(sp, a, b, i) && SamePage(sp, a, b, i, j);
      assert FrameAt(sp, PdOf(a)) == sp.pd[a] && FrameAt(sp, PdOf(b)) == sp.pd[b];
      assert FrameAt(sp, PtOf(a, i)) == PtFrame(sp, a, i) && FrameAt(sp, PtOf(b, i)) == PtFrame(sp, b, i);
    }
  }
}
