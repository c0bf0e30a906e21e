/** How many frames it takes: a copy of an address space takes as many as the
    original has, and mapping takes one for each page and each missing table. */
module Budgets {
  import opened SlotPool
  import opened Regions
  import opened PageTables
  import opened PageClone
  import opened FrameBooks
  import opened SpaceAreas
  import opened MapBooks

  // ---- Copying ----

  /** The same place in another address space. */
  function Opposite(p: Place, m: nat): Place { p.(mm := m) }

  /** Wherever c has a frame, a has one too. */
  ghost predicate Mirrors(sp: Space, c: nat, a: nat) {
    forall p: Place {:trigger FrameAt(sp, p)} ::
      p.mm == c && FrameAt(sp, p) != -1 ==> FrameAt(sp, Opposite(p, a)) != -1
  }

  /** The frame in a opposite to each frame of c. */
  ghost function Reflection(sp: Space, owner: map<nat, Place>, c: nat, a: nat): map<nat, nat> {
    map f | f in FramesOf(owner, c) && FrameAt(sp, Opposite(owner[f], a)) >= 0 :: FrameAt(sp, Opposite(owner[f], a))
  }

  lemma ReflectionIs(sp: Space, owner: map<nat, Place>, c: nat, a: nat)
    requires Owned(sp, owner) && Mirrors(sp, c, a)
    ensures var m := Reflection(sp, owner, c, a);
      && m.Keys == FramesOf(owner, c)
      && (forall f :: f in m ==> m[f] in FramesOf(owner, a) && Opposite(owner[m[f]], c) == owner[f])
      && (forall f, g :: f in m && g in m && m[f] == m[g] ==> f == g)
  {
    var m := Reflection(sp, owner, c, a);
    forall f | f in FramesOf(owner, c)
      ensures f in m && m[f] in FramesOf(owner, a) && Opposite(owner[m[f]], c) == owner[f]
    {
      assert FrameAt(sp, owner[f]) == f;
      var g := FrameAt(sp, Opposite(owner[f], a));
      assert owner[g] == Opposite(owner[f], a);
    }
    forall f, g | f in m && g in m && m[f] == m[g] ensures f == g {
      assert FrameAt(sp, owner[f]) == f && FrameAt(sp, owner[g]) == g;
    }
  }

  lemma {:induction false} ImageSize(s: set<nat>, m: map<nat, nat>)
    requires s <= m.Keys && forall f, g :: f in s && g in s && m[f] == m[g] ==> f == g
    ensures |set f | f in s :: m[f]| == |s|
    decreases s
  {
    if s != {} {
      var f :| f in s;
      ImageSize(s - {f}, m);
      assert (set g | g in s :: m[g]) == (set g | g in s - {f} :: m[g]) + {m[f]};
    }
  }

  /** Some place has a frame in a but not in c. */
  ghost predicate Lacks(sp: Space, c: nat, a: nat) {
    exists p: Place {:trigger FrameAt(sp, p)} ::
      p.mm == a && FrameAt(sp, p) != -1 && FrameAt(sp, Opposite(p, c)) == -1
  }

  lemma MirrorSize(sp: Space, owner: map<nat, Place>, c: nat, a: nat)
    requires Owned(sp, owner) && Mirrors(sp, c, a)
    ensures |FramesOf(owner, c)| <= |FramesOf(owner, a)|
    ensures Lacks(sp, c, a) ==> |FramesOf(owner, c)| < |FramesOf(owner, a)|
  {
    var m := Reflection(sp, owner, c, a);
    var image := set f | f in m.Keys :: m[f];
    ReflectionIs(sp, owner, c, a);
    ImageSize(m.Keys, m);
    SubsetSize(image, FramesOf(owner, a));
    if Lacks(sp, c, a) {
      var p: Place :| p.mm == a && FrameAt(sp, p) != -1 && FrameAt(sp, Opposite(p, c)) == -1;
      var g := FrameAt(sp, p);
      assert g in FramesOf(owner, a) && g !in image;
      SubsetSize(image, FramesOf(owner, a) - {g});
    }
  }

  lemma TablesMirror(sp: Space, a: nat, c: nat, i: nat)
    requires IsLive(sp, a) && AtTable(sp, a, c, i) && i <= USER_PDES
    ensures Mirrors(sp, c, a)
  {
    forall p: Place | p.mm == c && FrameAt(sp, p) != -1 ensures FrameAt(sp, Opposite(p, a)) != -1 {
      match p
      case PdOf(_) =>
      case PtOf(_, k) => assert k < i; assert TableCopied(sp, a, c, k);
      case PageOf(_, k, l) => assert k < i && l < ENTRIES; assert TableCopied(sp, a, c, k) && SamePage(sp, a, c, k, l);
    }
  }

  lemma EntriesMirror(sp: Space, a: nat, c: nat, i: nat, j: nat)
    requires IsLive(sp, a) && AtEntry(sp, a, c, i, j) && i < USER_PDES && j <= ENTRIES
    ensures Mirrors(sp, c, a)
  {
    forall p: Place | p.mm == c && FrameAt(sp, p) != -1 ensures FrameAt(sp, Opposite(p, a)) != -1 {
      match p
      case PdOf(_) =>
      case PtOf(_, k) => assert k <= i; assert k < i ==> TableCopied(sp, a, c, k);
      case PageOf(_, k, l) =>
        assert k <= i && l < ENTRIES;
        assert k < i ==> TableCopied(sp, a, c, k) && SamePage(sp, a, c, k, l);
        assert k == i ==> l < j && SamePage(sp, a, c, k, l);
    }
  }

  /** The copy of a into c is not complete, and no frame is left. */
  ghost predicate Starved(b: Books, a: nat, c: nat) {
    b.free == {} && Mirrors(b.sp, c, a) && Lacks(b.sp, c, a)
  }

  lemma TableStarves(b: Books, a: nat, c: nat, i: nat)
    requires b.free == {} && IsLive(b.sp, a) && AtTable(b.sp, a, c, i) && i < USER_PDES && PtFrame(b.sp, a, i) != -1
    ensures Starved(b, a, c)
  {
    TablesMirror(b.sp, a, c, i);
    assert FrameAt(b.sp, PtOf(a, i)) != -1 && FrameAt(b.sp, Opposite(PtOf(a, i), c)) == -1;
  }

  lemma PageStarves(b: Books, a: nat, c: nat, i: nat, j: nat)
    requires b.free == {} && IsLive(b.sp, a) && AtEntry(b.sp, a, c, i, j) && i < USER_PDES && j < ENTRIES
    requires PageFrame(b.sp, a, i, j) != -1
    ensures Starved(b, a, c)
  {
    EntriesMirror(b.sp, a, c, i, j);
    assert FrameAt(b.sp, PageOf(a, i, j)) != -1 && FrameAt(b.sp, Opposite(PageOf(a, i, j), c)) == -1;
  }

  lemma OthersKept(b0: Books, b: Books, a: nat, c: nat)
    requires Atop(b0, b, c) && a != c
    ensures FramesOf(b.owner, a) == FramesOf(b0.owner, a)
  {
    assert forall f :: f in FramesOf(b.owner, a) ==> f in Without(b.owner, c);
  }

  /** There are as many free frames as address space a has. */
  ghost predicate FramesFit(b: Books, a: nat) { |FramesOf(b.owner, a)| <= |b.free| }

  lemma LiveHasFrames(b: Books, a: nat)
    requires Owned(b.sp, b.owner) && IsLive(b.sp, a)
    ensures FramesOf(b.owner, a) != {}
  {
    OwnPd(b, a);
    assert b.sp.pd[a] in FramesOf(b.owner, a);
  }

  lemma NoneFits(b: Books, a: nat)
    requires Owned(b.sp, b.owner) && IsLive(b.sp, a)
    ensures b.free == {} ==> !FramesFit(b, a)
  {
    LiveHasFrames(b, a);
  }

  /** A copy that starves did not have as many frames as the original has. */
  lemma CopyStarved(b0: Books, b: Books, a: nat, c: nat)
    requires Atop(b0, b, c) && Owned(b.sp, b.owner) && b.limbo == {} && a != c && Starved(b, a, c)
    ensures !FramesFit(b0, a)
  {
    MirrorSize(b.sp, b.owner, c, a);
    OthersKept(b0, b, a, c);
    assert b0.free == FramesOf(b.owner, c);
  }

  /** A copy that is complete did. */
  lemma CopyFitted(b0: Books, b: Books, a: nat, c: nat)
    requires Atop(b0, b, c) && Owned(b.sp, b.owner) && a != c && IsLive(b.sp, c) && SameUser(b.sp, a, c)
    ensures FramesFit(b0, a)
  {
    forall p: Place | p.mm == a && FrameAt(b.sp, p) != -1 ensures FrameAt(b.sp, Opposite(p, c)) != -1 {
      match p
      case PdOf(_) =>
      case PtOf(_, i) => assert SameTable(b.sp, a, c, i);
      case PageOf(_, i, j) => assert i < USER_PDES && j < ENTRIES; assert SamePage(b.sp, a, c, i, j);
    }
    MirrorSize(b.sp, b.owner, a, c);
    OthersKept(b0, b, a, c);
    SubsetSize(FramesOf(b.owner, c), b0.free);
  }

  lemma CopyTells(b0: Books, b: Books, rs: seq<Region>, a: nat, c: nat, ok: bool)
    requires Atop(b0, b, c) && Sound(b, rs) && b.limbo == {} && a != c && IsLive(b.sp, c)
    requires if ok then SameUser(b.sp, a, c) else Starved(b, a, c)
    ensures ok <==> FramesFit(b0, a)
  {
    if ok { CopyFitted(b0, b, a, c); } else { CopyStarved(b0, b, a, c); }
  }

  // ---- Mapping ----

  /** The frames it takes to map a page of table i. */
  function PageCost(sp: Space, m: nat, i: nat): nat { if PtFrame(sp, m, i) == -1 then 2 else 1 }

  lemma OneLess(free: set<nat>, f: nat)
    requires f in free
    ensures |free - {f}| == |free| - 1
  {
    assert free == (free - {f}) + {f};
  }

  /** Pages [q0, q1) lie in table k, among others. */
  predicate Spans(q0: nat, q1: nat, k: nat) { q0 < q1 && q0 / ENTRIES <= k <= (q1 - 1) / ENTRIES }

  lemma SpansMore(q0: nat, q: nat, k: nat)
    requires q0 <= q
    ensures Spans(q0, q + 1, k) <==> Spans(q0, q, k) || k == q / ENTRIES
  {
  }

  /** The tables that pages [q0, q1) need and address space m does not have. */
  ghost function MissingTables(sp: Space, m: nat, q0: nat, q1: nat): set<nat> {
    set k: nat | k <= q1 && Spans(q0, q1, k) && PtFrame(sp, m, k) == -1
  }

  /** The frames it takes to map pages [q0, q1): one for each page, and one for
      each missing table. */
  ghost function RegionCost(sp: Space, m: nat, q0: nat, q1: nat): nat
    requires q0 <= q1
  {
    q1 - q0 + |MissingTables(sp, m, q0, q1)|
  }

  lemma SpansUpTo(q0: nat, q1: nat, k: nat)
    requires Spans(q0, q1, k)
    ensures k <= q1
  {
  }

  lemma MissingMore(sp: Space, m: nat, q0: nat, q: nat)
    requires q0 <= q
    ensures MissingTables(sp, m, q0, q + 1)
      == MissingTables(sp, m, q0, q) + if PtFrame(sp, m, q / ENTRIES) == -1 then {q / ENTRIES} else {}
    ensures PtFrame(sp, m, q / ENTRIES) == -1 ==>
      (q / ENTRIES in MissingTables(sp, m, q0, q) <==> Spans(q0, q, q / ENTRIES))
  {
    var q1 := q + 1;
    forall k: nat ensures k in MissingTables(sp, m, q0, q1) <==>
      k in MissingTables(sp, m, q0, q) || (k == q / ENTRIES && PtFrame(sp, m, k) == -1)
    {
      SpansMore(q0, q, k);
      if Spans(q0, q, k) { SpansUpTo(q0, q, k); }
    }
    if Spans(q0, q, q / ENTRIES) { SpansUpTo(q0, q, q / ENTRIES); }
  }

  /** What page q adds to the cost of the pages before it. */
  lemma NextCost(sp: Space, m: nat, q0: nat, q: nat)
    requires q0 <= q
    ensures RegionCost(sp, m, q0, q + 1) == RegionCost(sp, m, q0, q)
      + if PtFrame(sp, m, q / ENTRIES) == -1 && !Spans(q0, q, q / ENTRIES) then 2 else 1
  {
    var k, was, now := q / ENTRIES, MissingTables(sp, m, q0, q), MissingTables(sp, m, q0, q + 1);
    MissingMore(sp, m, q0, q);
    if k in was || PtFrame(sp, m, k) != -1 {
      assert now == was;
    } else {
      assert now == was + {k};
    }
  }

  lemma {:induction false} CostGrows(sp: Space, m: nat, q0: nat, q: nat, q1: nat)
    requires q0 <= q <= q1
    ensures RegionCost(sp, m, q0, q) <= RegionCost(sp, m, q0, q1)
    decreases q1
  {
    if q < q1 {
      CostGrows(sp, m, q0, q, q1 - 1);
      NextCost(sp, m, q0, q1 - 1);
    }
  }

  predicate TableFor(sp1: Space, sp: Space, m: nat, q0: nat, q: nat, k: nat) {
    PtFrame(sp, m, k) == -1 <==> PtFrame(sp1, m, k) == -1 && !Spans(q0, q, k)
  }

  /** The tables are those of sp1 and those of pages [q0, q). */
  ghost predicate TablesFor(sp1: Space, sp: Space, m: nat, q0: nat, q: nat) {
    forall k: nat :: TableFor(sp1, sp, m, q0, q, k)
  }

  lemma NoTablesYet(sp: Space, m: nat, q0: nat)
    ensures TablesFor(sp, sp, m, q0, q0)
  {
  }

  lemma TablesMore(sp1: Space, sp: Space, sp': Space, m: nat, q0: nat, q: nat)
    requires TablesFor(sp1, sp, m, q0, q) && HasTable(sp, sp', m, q / ENTRIES) && q0 <= q
    ensures TablesFor(sp1, sp', m, q0, q + 1)
  {
    var q' := q + 1;
    forall k: nat ensures TableFor(sp1, sp', m, q0, q', k) {
      assert TableFor(sp1, sp, m, q0, q, k) && TableCame(sp, sp', m, q / ENTRIES, k);
      SpansMore(q0, q, k);
    }
  }

  // ---- What has been spent ----

  /** The frames of pages [q0, q). */
  ghost function PageFrames(owner: map<nat, Place>, m: nat, q0: nat, q: nat): set<nat> {
    set f | f in FramesOf(owner, m) && owner[f].PageOf? && q0 <= owner[f].i * ENTRIES + owner[f].j < q
  }

  /** The frames of the tables in s. */
  ghost function TableFrames(owner: map<nat, Place>, m: nat, s: set<nat>): set<nat> {
    set f | f in FramesOf(owner, m) && owner[f].PtOf? && owner[f].i in s
  }

  lemma {:induction false} PageFramesSize(sp: Space, owner: map<nat, Place>, m: nat, q0: nat, q: nat)
    requires Owned(sp, owner) && q0 <= q && forall p :: q0 <= p < q ==> MappedPage(sp, m, p)
    ensures |PageFrames(owner, m, q0, q)| == q - q0
    decreases q
  {
    if q == q0 {
      assert PageFrames(owner, m, q0, q) == {};
    } else {
      var p := q - 1;
      PageFramesSize(sp, owner, m, q0, p);
      assert MappedPage(sp, m, p);
      var place := PageOf(m, p / ENTRIES, p % ENTRIES);
      var f := FrameAt(sp, place);
      assert owner[f] == place;
      forall g | g in PageFrames(owner, m, q0, q) ensures g == f || g in PageFrames(owner, m, q0, p) {
        assert FrameAt(sp, owner[g]) == g;
        PageNumber(owner[g].i, owner[g].j, p);
      }
      assert PageFrames(owner, m, q0, q) == PageFrames(owner, m, q0, p) + {f};
    }
  }

  lemma PageNumber(i: nat, j: nat, p: nat)
    ensures j < ENTRIES ==> (i * ENTRIES + j == p <==> i == p / ENTRIES && j == p % ENTRIES)
  {
  }

  lemma {:induction false} TableFramesSize(sp: Space, owner: map<nat, Place>, m: nat, s: set<nat>)
    requires Owned(sp, owner) && forall k :: k in s ==> PtFrame(sp, m, k) != -1
    ensures |TableFrames(owner, m, s)| == |s|
    decreases s
  {
    if s == {} {
      assert TableFrames(owner, m, s) == {};
    } else {
      var k :| k in s;
      TableFramesSize(sp, owner, m, s - {k});
      var f := FrameAt(sp, PtOf(m, k));
      assert owner[f] == PtOf(m, k);
      forall g | g in TableFrames(owner, m, s) ensures g == f || g in TableFrames(owner, m, s - {k}) {
        assert FrameAt(sp, owner[g]) == g;
      }
      assert TableFrames(owner, m, s) == TableFrames(owner, m, s - {k}) + {f};
    }
  }

  /** Whatever address space m has gained is a page of [q0, q) or a table that
      was missing. */
  lemma GainedIs(b1: Books, b: Books, m: nat, q0: nat, q: nat, flags: nat, data: seq<nat>, f: nat)
    requires Owned(b1.sp, b1.owner) && Owned(b.sp, b.owner) && MappedUpTo(b1, b, m, q0, q, flags, data)
    requires TablesFor(b1.sp, b.sp, m, q0, q) && f in FramesOf(b.owner, m) && f !in FramesOf(b1.owner, m)
    ensures f in PageFrames(b.owner, m, q0, q) || f in TableFrames(b.owner, m, MissingTables(b1.sp, m, q0, q))
  {
    var p := b.owner[f];
    assert FrameAt(b.sp, p) == f;
    NewPlace(b1, b, m, p);
    match p
    case PdOf(_) =>
    case PtOf(_, k) =>
      assert TableFor(b1.sp, b.sp, m, q0, q, k);
      SpansUpTo(q0, q, k);
    case PageOf(_, i, j) =>
  }

  /** A place that has a frame now, and not one it had before, had none. */
  lemma NewPlace(b1: Books, b: Books, m: nat, p: Place)
    requires Owned(b1.sp, b1.owner) && Owned(b.sp, b.owner) && Extends(b1, b, m) && p.mm == m
    requires FrameAt(b.sp, p) != -1
    ensures FrameAt(b1.sp, p) == -1 <==> FrameAt(b.sp, p) !in FramesOf(b1.owner, m)
  {
    var f := FrameAt(b.sp, p);
    assert b.owner[f] == p;
    if FrameAt(b1.sp, p) != -1 {
      assert b1.owner[FrameAt(b1.sp, p)] == p;
      assert b.owner[FrameAt(b1.sp, p)] == p;
      assert FrameAt(b.sp, b.owner[FrameAt(b1.sp, p)]) == FrameAt(b1.sp, p);
    }
    if f in FramesOf(b1.owner, m) {
      assert b1.owner[f] == b.owner[f];
      assert FrameAt(b1.sp, b1.owner[f]) == f;
    }
  }

  lemma GainedAre(b1: Books, b: Books, m: nat, q0: nat, q: nat, flags: nat, data: seq<nat>)
    requires Owned(b1.sp, b1.owner) && Owned(b.sp, b.owner) && MappedUpTo(b1, b, m, q0, q, flags, data)
    requires TablesFor(b1.sp, b.sp, m, q0, q) && RegionFree(b1.sp, m, q0, q)
    ensures Gained(b1, b, m)
      == PageFrames(b.owner, m, q0, q) + TableFrames(b.owner, m, MissingTables(b1.sp, m, q0, q))
  {
    var s := MissingTables(b1.sp, m, q0, q);
    forall f | f in Gained(b1, b, m) ensures f in PageFrames(b.owner, m, q0, q) + TableFrames(b.owner, m, s) {
      GainedIs(b1, b, m, q0, q, flags, data, f);
    }
    PagesAreGained(b1, b, m, q0, q);
    forall f | f in TableFrames(b.owner, m, s) ensures f in Gained(b1, b, m) {
      assert FrameAt(b.sp, b.owner[f]) == f;
      NewPlace(b1, b, m, b.owner[f]);
    }
  }

  lemma PagesAreGained(b1: Books, b: Books, m: nat, q0: nat, q: nat)
    requires Owned(b1.sp, b1.owner) && Owned(b.sp, b.owner) && Extends(b1, b, m) && RegionFree(b1.sp, m, q0, q)
    ensures PageFrames(b.owner, m, q0, q) <= Gained(b1, b, m)
  {
    forall f | f in PageFrames(b.owner, m, q0, q) ensures f in Gained(b1, b, m) {
      var p := b.owner[f];
      assert FrameAt(b.sp, p) == f;
      PageIsNew(b1.sp, m, q0, q, p.i, p.j, p.i * ENTRIES + p.j);
      NewPlace(b1, b, m, p);
    }
  }

  lemma PageIsNew(sp: Space, m: nat, q0: nat, q1: nat, i: nat, j: nat, q: nat)
    requires RegionFree(sp, m, q0, q1) && q == i * ENTRIES + j && j < ENTRIES && q0 <= q < q1
    ensures PageFrame(sp, m, i, j) == -1
  {
    PageNumber(i, j, q);
    assert !MappedPage(sp, m, q);
  }

  /** Mapping pages [q0, q) has taken what they cost. */
  lemma SpentIs(b1: Books, b: Books, m: nat, q0: nat, q: nat, flags: nat, data: seq<nat>)
    requires Owned(b1.sp, b1.owner) && Owned(b.sp, b.owner) && MappedUpTo(b1, b, m, q0, q, flags, data) && q0 <= q
    requires TablesFor(b1.sp, b.sp, m, q0, q) && RegionFree(b1.sp, m, q0, q)
    ensures |b1.free| == |b.free| + RegionCost(b1.sp, m, q0, q)
  {
    var s := MissingTables(b1.sp, m, q0, q);
    SpentParts(b1, b, m, q0, q, flags, data);
    SpentPages(b1, b, m, q0, q, flags, data);
    forall k | k in s ensures PtFrame(b.sp, m, k) != -1 { assert TableFor(b1.sp, b.sp, m, q0, q, k); }
    TableFramesSize(b.sp, b.owner, m, s);
    ThreeSizes(b1.free, b.free, PageFrames(b.owner, m, q0, q), TableFrames(b.owner, m, s));
  }

  lemma SpentPages(b1: Books, b: Books, m: nat, q0: nat, q: nat, flags: nat, data: seq<nat>)
    requires Owned(b.sp, b.owner) && MappedUpTo(b1, b, m, q0, q, flags, data) && q0 <= q
    ensures |PageFrames(b.owner, m, q0, q)| == q - q0
  {
    forall p | q0 <= p < q ensures MappedPage(b.sp, m, p) { assert PageMapped(b.sp, m, q0, p, flags, data); }
    PageFramesSize(b.sp, b.owner, m, q0, q);
  }

  lemma SpentParts(b1: Books, b: Books, m: nat, q0: nat, q: nat, flags: nat, data: seq<nat>)
    requires Owned(b1.sp, b1.owner) && Owned(b.sp, b.owner) && MappedUpTo(b1, b, m, q0, q, flags, data) && q0 <= q
    requires TablesFor(b1.sp, b.sp, m, q0, q) && RegionFree(b1.sp, m, q0, q)
    ensures var pages, tables := PageFrames(b.owner, m, q0, q), TableFrames(b.owner, m, MissingTables(b1.sp, m, q0, q));
      b1.free == b.free + (pages + tables) && pages !! tables && b.free !! pages + tables
  {
    GainedAre(b1, b, m, q0, q, flags, data);
  }

  lemma ThreeSizes(all: set<nat>, a: set<nat>, b: set<nat>, c: set<nat>)
    requires all == a + (b + c) && b !! c && a !! b + c
    ensures |all| == |a| + |b| + |c|
  {
    assert |b + c| == |b| + |c|;
  }

  /** There are frames enough for pages [q0, q1). */
  ghost predicate Affordable(b: Books, m: nat, q0: nat, q1: nat) {
    q0 <= q1 && RegionCost(b.sp, m, q0, q1) <= |b.free|
  }

  /** Pages [q0, q1) have taken what they cost. */
  ghost predicate Spent(b1: Books, b: Books, m: nat, q0: nat, q1: nat) {
    q0 <= q1 && |b1.free| == |b.free| + RegionCost(b1.sp, m, q0, q1)
  }

  /** Pages [q0, q1) were mapped exactly if there were frames enough, and took
      what they cost. */
  ghost predicate Afforded(b1: Books, b: Books, m: nat, q0: nat, q1: nat, ok: bool) {
    true == ((ok <==> Affordable(b1, m, q0, q1)) && (ok ==> Spent(b1, b, m, q0, q1)))
  }

  /** A page of table i was mapped exactly if there were frames enough. */
  ghost predicate PageTold(b: Books, b': Books, m: nat, i: nat, ok: bool) {
    true == (&& (ok <==> PageCost(b.sp, m, i) <= |b.free|)
             && (if ok then HasTable(b.sp, b'.sp, m, i) else b' == b))
  }

  /** Pages [q0, q) are mapped; that is all of them, or the next one costs more
      than there is. */
  ghost predicate MappedAsFar(b1: Books, b: Books, m: nat, q0: nat, q: nat, q1: nat, ok: bool) {
    true == (&& TablesFor(b1.sp, b.sp, m, q0, q) && q0 <= q <= q1
             && (ok <==> q == q1) && (!ok ==> |b.free| < PageCost(b.sp, m, q / ENTRIES)))
  }

  /** All of a region is mapped exactly if there are frames enough. */
  lemma MappingTells(b1: Books, b: Books, rs: seq<Region>, m: nat, q0: nat, q: nat, q1: nat, flags: nat,
                     data: seq<nat>, ok: bool)
    requires Sound(b1, rs) && Sound(b, rs) && MappedUpTo(b1, b, m, q0, q, flags, data)
    requires MappedAsFar(b1, b, m, q0, q, q1, ok) && RegionFree(b1.sp, m, q0, q1)
    ensures Afforded(b1, b, m, q0, q1, ok)
  {
    assert RegionFree(b1.sp, m, q0, q);
    SpentIs(b1, b, m, q0, q, flags, data);
    if !ok {
      NextCost(b1.sp, m, q0, q);
      assert TableFor(b1.sp, b.sp, m, q0, q, q / ENTRIES);
      CostGrows(b1.sp, m, q0, q + 1, q1);
    }
  }
}
