/** Areas and page tables together: the areas of a live address space are
    disjoint, and every page of every area is mapped. */
module SpaceAreas {
  import opened Words
  import opened PageTables
  import opened PageBytes
  import opened PageClone
  import opened FrameBooks
  import opened CloneBooks
  import opened Vmas

  const USER_LIMIT: nat := 0xC000_0000

  /** Page number q lies in an area. */
  predicate AreaPage(v: Vma, q: nat) { v.start <= q * PAGE_BYTES < v.end }

  predicate MappedPage(sp: Space, m: nat, q: nat) { PageFrame(sp, m, q / ENTRIES, q % ENTRIES) != -1 }

  predicate WholePages(v: Vma) { v.start % PAGE_BYTES == 0 && v.end % PAGE_BYTES == 0 && v.end <= USER_LIMIT }

  ghost predicate PagesMapped(sp: Space, m: nat, v: Vma) {
    forall q: nat :: AreaPage(v, q) ==> MappedPage(sp, m, q)
  }

  ghost predicate Covered(sp: Space, m: nat, vs: seq<Vma>) {
    forall k :: 0 <= k < |vs| ==> WholePages(vs[k]) && PagesMapped(sp, m, vs[k])
  }

  ghost predicate OneSpace(sp: Space, m: nat, vs: seq<Vma>) {
    if IsLive(sp, m) then Disjoint(vs) && Covered(sp, m, vs) else vs == []
  }

  ghost predicate AreasOk(sp: Space, areas: seq<seq<Vma>>) {
    |areas| == |sp.live| && forall m :: 0 <= m < |areas| ==> OneSpace(sp, m, areas[m])
  }

  /** An area none of whose pages is mapped overlaps no other. */
  lemma UnmappedIsClear(sp: Space, m: nat, vs: seq<Vma>, v: Vma)
    requires Covered(sp, m, vs) && Disjoint(vs) && WholePages(v) && v.start < v.end
    requires forall q: nat :: AreaPage(v, q) ==> !MappedPage(sp, m, q)
    ensures Clear(vs, v)
  {
    forall k | 0 <= k < |vs| ensures vs[k].end <= v.start || v.end <= vs[k].start {
      var u := vs[k];
      var start := if u.start < v.start then v.start else u.start;
      var q := start / PAGE_BYTES;
      assert q * PAGE_BYTES == start;
      assert u.start < v.end && v.start < u.end ==> AreaPage(u, q) && AreaPage(v, q);
      assert PagesMapped(sp, m, u);
    }
  }

  lemma CoveredKept(sp: Space, sp': Space, m: nat, vs: seq<Vma>)
    requires Covered(sp, m, vs) && (forall q: nat :: MappedPage(sp, m, q) ==> MappedPage(sp', m, q))
    ensures Covered(sp', m, vs)
  {
    forall k | 0 <= k < |vs| ensures PagesMapped(sp', m, vs[k]) {
      assert PagesMapped(sp, m, vs[k]);
    }
  }

  lemma InsertCovered(sp: Space, m: nat, vs: seq<Vma>, v: Vma)
    requires Covered(sp, m, vs) && WholePages(v) && PagesMapped(sp, m, v)
    ensures Covered(sp, m, Inserted(vs, v))
  {
  }

  /** Growing one address space unmaps nothing. */
  lemma AreasExtended(b1: Books, b: Books, m: nat, areas: seq<seq<Vma>>)
    requires Extends(b1, b, m) && AreasOk(b1.sp, areas)
    ensures AreasOk(b.sp, areas)
  {
    forall n | 0 <= n < |areas| ensures OneSpace(b.sp, n, areas[n]) {
      assert OneSpace(b1.sp, n, areas[n]);
      if IsLive(b1.sp, n) {
        forall q: nat | MappedPage(b1.sp, n, q) ensures MappedPage(b.sp, n, q) {
          assert PageKept(b1.sp, b.sp, n, q / ENTRIES, q % ENTRIES);
        }
        CoveredKept(b1.sp, b.sp, n, areas[n]);
      }
    }
  }

  /** User stores map and unmap nothing. */
  lemma AreasStored(b: Books, m: nat, s: Store, areas: seq<seq<Vma>>)
    requires Owned(b.sp, b.owner) && AreasOk(b.sp, areas)
    ensures AreasOk(WriteUser(b.sp, m, s.i, s.j, s.k, s.w), areas)
  {
    var sp' := WriteUser(b.sp, m, s.i, s.j, s.k, s.w);
    WriteKeepsPlaces(b.sp, b.owner, m, s.i, s.j, s.k, s.w);
    forall n | 0 <= n < |areas| ensures OneSpace(sp', n, areas[n]) {
      assert OneSpace(b.sp, n, areas[n]);
      if IsLive(b.sp, n) {
        forall q: nat | MappedPage(b.sp, n, q) ensures MappedPage(sp', n, q) {
          assert FrameAt(sp', PageOf(n, q / ENTRIES, q % ENTRIES)) == FrameAt(b.sp,
            PageOf(n, q / ENTRIES, q % ENTRIES));
        }
        CoveredKept(b.sp, sp', n, areas[n]);
      }
    }
  }

  /** A new area over pages that were unmapped and now are mapped. */
  lemma AreasInserted(b1: Books, b: Books, m: nat, areas: seq<seq<Vma>>, v: Vma)
    requires Extends(b1, b, m) && AreasOk(b1.sp, areas) && m < |areas| && IsLive(b1.sp, m)
    requires WholePages(v) && v.start < v.end && PagesMapped(b.sp, m, v)
    requires forall q: nat :: AreaPage(v, q) ==> !MappedPage(b1.sp, m, q)
    ensures AreasOk(b.sp, areas[m := Inserted(areas[m], v)])
  {
    AreasExtended(b1, b, m, areas);
    assert OneSpace(b1.sp, m, areas[m]) && OneSpace(b.sp, m, areas[m]);
    UnmappedIsClear(b1.sp, m, areas[m], v);
    InsertedDisjoint(areas[m], v);
    InsertCovered(b.sp, m, areas[m], v);
    OneAreaSet(b.sp, areas, m, Inserted(areas[m], v));
  }

  lemma OneAreaSet(sp: Space, areas: seq<seq<Vma>>, m: nat, vs: seq<Vma>)
    requires AreasOk(sp, areas) && m < |areas| && OneSpace(sp, m, vs)
    ensures AreasOk(sp, areas[m := vs])
  {
  }

  /** Another address space neither maps nor unmaps for the rest. */
  lemma AtopMaps(b0: Books, b: Books, m: nat, n: nat, q: nat)
    requires Owned(b0.sp, b0.owner) && Owned(b.sp, b.owner) && Atop(b0, b, m) && MappedPage(b0.sp, n, q)
    ensures MappedPage(b.sp, n, q)
  {
    var p := PageOf(n, q / ENTRIES, q % ENTRIES);
    var f := FrameAt(b0.sp, p);
    assert f in b0.owner && b0.owner[f] == p;
    assert f in Without(b.owner, m) && b.owner[f] == p;
  }

  lemma AreasAtop(b0: Books, b: Books, m: nat, areas: seq<seq<Vma>>)
    requires Owned(b0.sp, b0.owner) && Owned(b.sp, b.owner) && Atop(b0, b, m) && AreasOk(b0.sp, areas)
    ensures AreasOk(b.sp, areas)
  {
    forall n | 0 <= n < |areas| ensures OneSpace(b.sp, n, areas[n]) {
      assert OneSpace(b0.sp, n, areas[n]);
      if IsLive(b0.sp, n) {
        forall q: nat | MappedPage(b0.sp, n, q) ensures MappedPage(b.sp, n, q) { AtopMaps(b0, b, m, n, q); }
        CoveredKept(b0.sp, b.sp, n, areas[n]);
      }
    }
  }

  lemma AreasGone(b: Books, m: nat, areas: seq<seq<Vma>>)
    requires Owned(b.sp, b.owner) && m < |b.sp.live| && AreasOk(b.sp, areas)
    ensures AreasOk(Gone(b, m).sp, areas[m := []])
  {
    DropSpace(b.sp, b.owner, m);
    var sp' := Gone(b, m).sp;
    forall n | 0 <= n < |areas| && n != m ensures OneSpace(sp', n, areas[n]) {
      assert OneSpace(b.sp, n, areas[n]);
      if IsLive(b.sp, n) {
        forall q: nat | MappedPage(b.sp, n, q) ensures MappedPage(sp', n, q) {
          assert FrameAt(sp', PageOf(n, q / ENTRIES, q % ENTRIES)) == FrameAt(b.sp,
            PageOf(n, q / ENTRIES, q % ENTRIES));
        }
        CoveredKept(b.sp, sp', n, areas[n]);
      }
    }
  }

  /** The areas of an equal address space fit. */
  lemma AreasCloned(sp: Space, a: nat, c: nat, areas: seq<seq<Vma>>)
    requires AreasOk(sp, areas) && IsLive(sp, a) && IsLive(sp, c) && a < |areas| && c < |areas| && SameUser(sp, a, c)
    ensures AreasOk(sp, areas[c := areas[a]])
  {
    assert OneSpace(sp, a, areas[a]);
    forall k | 0 <= k < |areas[a]| ensures PagesMapped(sp, c, areas[a][k]) {
      assert PagesMapped(sp, a, areas[a][k]);
      forall q: nat | AreaPage(areas[a][k], q) ensures MappedPage(sp, c, q) {
        assert MappedPage(sp, a, q);
        assert SamePage(sp, a, c, q / ENTRIES, q % ENTRIES);
      }
    }
    OneAreaSet(sp, areas, c, areas[a]);
  }

  /** So do the first few of them. */
  lemma AreasPartlyCloned(sp: Space, a: nat, c: nat, areas: seq<seq<Vma>>, vs: seq<Vma>)
    requires AreasOk(sp, areas) && IsLive(sp, a) && IsLive(sp, c) && a < |areas| && c < |areas| && SameUser(sp, a, c)
    requires vs <= areas[a]
    ensures AreasOk(sp, areas[c := vs])
  {
    AreasCloned(sp, a, c, areas);
    assert OneSpace(sp, c, areas[c := areas[a]][c]);
    OneAreaSet(sp, areas, c, vs);
  }

  /** A failed operation leaves the live address spaces as they were. */
  lemma AreasRestored(b0: Books, b: Books, areas: seq<seq<Vma>>)
    requires Owned(b0.sp, b0.owner) && Owned(b.sp, b.owner) && b.owner == b0.owner && b.sp.live == b0.sp.live
    requires AreasOk(b0.sp, areas)
    ensures AreasOk(b.sp, areas)
  {
    forall n | 0 <= n < |areas| ensures OneSpace(b.sp, n, areas[n]) {
      assert OneSpace(b0.sp, n, areas[n]);
      if IsLive(b0.sp, n) {
        forall q: nat | MappedPage(b0.sp, n, q) ensures MappedPage(b.sp, n, q) {
          var p := PageOf(n, q / ENTRIES, q % ENTRIES);
          var f := FrameAt(b0.sp, p);
          assert f in b0.owner && b0.owner[f] == p && b.owner[f] == p;
        }
        CoveredKept(b0.sp, b.sp, n, areas[n]);
      }
    }
  }

  // ---- The range check ----

  /** The check mm_map_region makes, with its 32-bit sum. */
  predicate RangeAccepted(start: nat, size: nat) {
    && size != 0 && start % PAGE_BYTES == 0 && size % PAGE_BYTES == 0
    && (start + size) % WORD <= USER_LIMIT
  }

  /** It keeps the range below the kernel exactly when the sum does not wrap. */
  lemma RangeCheckIffNoWrap(start: nat, size: nat)
    requires start < WORD && size < WORD && RangeAccepted(start, size)
    ensures start + size <= USER_LIMIT <==> start + size < WORD
  {
  }

  /** A range that wraps passes, though it lies in the kernel's half. */
  lemma WrappingRangeIsAccepted()
    ensures RangeAccepted(0xFFFF_F000, 0x1000) && 0xFFFF_F000 + 0x1000 > USER_LIMIT
  {
  }
}
