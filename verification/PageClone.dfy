/** The eager copy of one address space's user half into another: what is
    already copied at each point of the two nested loops over directory and
    page table entries. */
module PageClone {
  import opened PageTables

  ghost predicate TableCopied(sp: Space, a: nat, b: nat, i: nat) {
    SameTable(sp, a, b, i) && forall j :: 0 <= j < ENTRIES ==> SamePage(sp, a, b, i, j)
  }

  /** Tables below i are copied; the child has none from i on. */
  ghost predicate AtTable(sp: Space, a: nat, b: nat, i: nat) {
    && (forall k :: 0 <= k < i ==> TableCopied(sp, a, b, k))
    && (forall k :: i <= k ==> PtFrame(sp, b, k) == -1)
  }

  /** Inside table i: entries below j are copied, the rest of it is empty. */
  ghost predicate AtEntry(sp: Space, a: nat, b: nat, i: nat, j: nat) {
    && (forall k :: 0 <= k < i ==> TableCopied(sp, a, b, k))
    && PtFrame(sp, a, i) != -1 && PtFrame(sp, b, i) != -1 && SameTable(sp, a, b, i)
    && (forall k :: 0 <= k < j ==> SamePage(sp, a, b, i, k))
    && (forall k :: j <= k ==> PageFrame(sp, b, i, k) == -1)
    && (forall k :: i < k ==> PtFrame(sp, b, k) == -1)
  }

  lemma AllCopied(sp: Space, a: nat, b: nat)
    requires AtTable(sp, a, b, USER_PDES)
    ensures SameUser(sp, a, b)
  {
    forall i | 0 <= i < USER_PDES ensures SameTable(sp, a, b, i) {
      assert TableCopied(sp, a, b, i);
    }
    forall i, j | 0 <= i < USER_PDES && 0 <= j < ENTRIES ensures SamePage(sp, a, b, i, j) {
      assert TableCopied(sp, a, b, i);
    }
  }

  lemma SkipTable(sp: Space, a: nat, b: nat, i: nat)
    requires AtTable(sp, a, b, i) && PtFrame(sp, a, i) == -1
    ensures AtTable(sp, a, b, i + 1)
  {
    assert TableCopied(sp, a, b, i);
  }

  lemma SkipEntry(sp: Space, a: nat, b: nat, i: nat, j: nat)
    requires AtEntry(sp, a, b, i, j) && PageFrame(sp, a, i, j) == -1
    ensures AtEntry(sp, a, b, i, j + 1)
  {
    assert SamePage(sp, a, b, i, j);
  }

  lemma TableDone(sp: Space, a: nat, b: nat, i: nat)
    requires AtEntry(sp, a, b, i, ENTRIES)
    ensures AtTable(sp, a, b, i + 1)
  {
    assert TableCopied(sp, a, b, i);
  }

  /** Nothing that table k of either address space shows has changed. */
  ghost predicate TableKept(sp: Space, sp': Space, m: nat, k: nat) {
    && PtFrame(sp', m, k) == PtFrame(sp, m, k)
    && (PtFrame(sp, m, k) != -1 ==>
          && 0 <= PdFrame(sp, m) < |sp.ram| && PdFrame(sp', m) == PdFrame(sp, m) && |sp'.ram| == |sp.ram|
          && sp'.ram[PdFrame(sp, m)][k] == sp.ram[PdFrame(sp, m)][k])
  }

  ghost predicate PageKept(sp: Space, sp': Space, m: nat, k: nat, j: nat) {
    && PtFrame(sp', m, k) == PtFrame(sp, m, k) && |sp'.ram| == |sp.ram|
    && PageFrame(sp', m, k, j) == PageFrame(sp, m, k, j)
    && (0 <= PtFrame(sp, m, k) < |sp.ram| && j < ENTRIES ==>
          sp'.ram[PtFrame(sp, m, k)][j] == sp.ram[PtFrame(sp, m, k)][j])
    && (0 <= PageFrame(sp, m, k, j) < |sp.ram| ==>
          sp'.ram[PageFrame(sp, m, k, j)] == sp.ram[PageFrame(sp, m, k, j)])
  }

  lemma SameKept(sp: Space, sp': Space, a: nat, b: nat, k: nat)
    requires TableCopied(sp, a, b, k)
    requires TableKept(sp, sp', a, k) && TableKept(sp, sp', b, k)
    requires forall j :: 0 <= j < ENTRIES ==> PageKept(sp, sp', a, k, j) && PageKept(sp, sp', b, k, j)
    ensures TableCopied(sp', a, b, k)
  {
    forall j | 0 <= j < ENTRIES ensures SamePage(sp', a, b, k, j) {
      assert SamePage(sp, a, b, k, j) && PageKept(sp, sp', a, k, j) && PageKept(sp, sp', b, k, j);
    }
  }

  /** Linking a fresh table keeps every other table and every page. */
  lemma TableLinkKeeps(sp: Space, owner: map<nat, Place>, m: nat, i: nat, f: nat, flags: nat, n: nat, k: nat, j: nat)
    requires Owned(sp, owner) && IsLive(sp, m) && i < USER_PDES && PtFrame(sp, m, i) == -1
    requires f < |sp.ram| && f !in owner && sp.ram[f] == ZeroPage() && flags < FLAG_BITS && flags % 2 == 1
    ensures sp.pd[m] < |sp.ram|
    ensures var sp' := sp.(ram := SetWord(sp.ram, sp.pd[m], i, Entry(f, flags)));
      (n, k) != (m, i) ==> TableKept(sp, sp', n, k) && PageKept(sp, sp', n, k, j)
  {
    LinkTable(sp, owner, m, i, f, flags);
    var sp' := sp.(ram := SetWord(sp.ram, sp.pd[m], i, Entry(f, flags)));
    assert FrameAt(sp, PdOf(m)) == sp.pd[m] && FrameAt(sp, PdOf(n)) == PdFrame(sp, n);
    assert FrameAt(sp, PtOf(n, k)) == PtFrame(sp, n, k) && FrameAt(sp', PtOf(n, k)) == PtFrame(sp', n, k);
    assert FrameAt(sp, PageOf(n, k, j)) == PageFrame(sp, n, k, j);
    assert FrameAt(sp', PageOf(n, k, j)) == PageFrame(sp', n, k, j);
  }

  /** Linking a fresh page keeps every table and every other page. */
  lemma PageLinkKeeps(sp: Space, owner: map<nat, Place>, m: nat, i: nat, j: nat, f: nat, flags: nat, n: nat, k: nat,
                      l: nat)
    requires Owned(sp, owner) && IsLive(sp, m) && PtFrame(sp, m, i) != -1
    requires j < ENTRIES && PageFrame(sp, m, i, j) == -1
    requires f < |sp.ram| && f !in owner && flags < FLAG_BITS && flags % 2 == 1
    ensures 0 <= PtFrame(sp, m, i) < |sp.ram|
    ensures var sp' := sp.(ram := SetWord(sp.ram, PtFrame(sp, m, i), j, Entry(f, flags)));
      TableKept(sp, sp', n, k) && ((n, k, l) != (m, i, j) ==> PageKept(sp, sp', n, k, l))
  {
    LinkPage(sp, owner, m, i, j, f, flags);
    var sp' := sp.(ram := SetWord(sp.ram, PtFrame(sp, m, i), j, Entry(f, flags)));
    assert FrameAt(sp, PtOf(m, i)) == PtFrame(sp, m, i) && FrameAt(sp, PdOf(n)) == PdFrame(sp, n);
    assert FrameAt(sp, PtOf(n, k)) == PtFrame(sp, n, k) && FrameAt(sp', PtOf(n, k)) == PtFrame(sp', n, k);
    assert FrameAt(sp, PageOf(n, k, l)) == PageFrame(sp, n, k, l);
    assert FrameAt(sp', PageOf(n, k, l)) == PageFrame(sp', n, k, l);
  }

  /** Filling a frame that no address space owns keeps all of them. */
  lemma FillKeeps(sp: Space, owner: map<nat, Place>, f: nat, content: Page, n: nat, k: nat, l: nat)
    requires Owned(sp, owner) && f < |sp.ram| && f !in owner
    ensures var sp' := sp.(ram := sp.ram[f := content]);
      TableKept(sp, sp', n, k) && PageKept(sp, sp', n, k, l)
  {
    WriteData(sp, owner, f, content);
    var sp' := sp.(ram := sp.ram[f := content]);
    assert FrameAt(sp, PdOf(n)) == PdFrame(sp, n);
    assert FrameAt(sp, PtOf(n, k)) == PtFrame(sp, n, k) && FrameAt(sp', PtOf(n, k)) == PtFrame(sp', n, k);
    assert FrameAt(sp, PageOf(n, k, l)) == PageFrame(sp, n, k, l);
    assert FrameAt(sp', PageOf(n, k, l)) == PageFrame(sp', n, k, l);
  }

  /** Filling one page keeps every table and every other page. */
  lemma FillOther(sp: Space, owner: map<nat, Place>, m: nat, i: nat, j: nat, content: Page, n: nat, k: nat, l: nat)
    requires Owned(sp, owner) && 0 <= PageFrame(sp, m, i, j) < |sp.ram| && (n, k, l) != (m, i, j)
    ensures TableKept(sp, Filled(sp, PageFrame(sp, m, i, j), content), n, k)
    ensures PageKept(sp, Filled(sp, PageFrame(sp, m, i, j), content), n, k, l)
  {
    var f := PageFrame(sp, m, i, j);
    assert FrameAt(sp, PageOf(m, i, j)) == f;
    WriteData(sp, owner, f, content);
    var sp' := Filled(sp, f, content);
    assert FrameAt(sp, PdOf(n)) == PdFrame(sp, n);
    assert FrameAt(sp, PtOf(n, k)) == PtFrame(sp, n, k) && FrameAt(sp', PtOf(n, k)) == PtFrame(sp', n, k);
    assert FrameAt(sp, PageOf(n, k, l)) == PageFrame(sp, n, k, l);
    assert FrameAt(sp', PageOf(n, k, l)) == PageFrame(sp', n, k, l);
  }

  function WithTable(sp: Space, m: nat, i: nat, f: nat, flags: nat): Space
    requires IsLive(sp, m) && sp.pd[m] < |sp.ram| && i < ENTRIES
  {
    sp.(ram := SetWord(sp.ram, sp.pd[m], i, Entry(f, flags)))
  }

  function WithPage(sp: Space, m: nat, i: nat, j: nat, f: nat, flags: nat): Space
    requires 0 <= PtFrame(sp, m, i) < |sp.ram| && j < ENTRIES
  {
    sp.(ram := SetWord(sp.ram, PtFrame(sp, m, i), j, Entry(f, flags)))
  }

  function Filled(sp: Space, f: nat, content: Page): Space
    requires f < |sp.ram|
  {
    sp.(ram := sp.ram[f := content])
  }

  /** The child's table i exists, empty, with the parent's directory flags. */
  lemma StartTable(sp: Space, owner: map<nat, Place>, a: nat, b: nat, i: nat, f: nat)
    requires Owned(sp, owner) && IsLive(sp, a) && IsLive(sp, b) && a != b && i < USER_PDES
    requires AtTable(sp, a, b, i) && PtFrame(sp, a, i) != -1
    requires f < |sp.ram| && f !in owner && sp.ram[f] == ZeroPage()
    ensures sp.pd[a] < |sp.ram| && sp.pd[b] < |sp.ram|
    ensures AtEntry(WithTable(sp, b, i, f, FlagsOf(sp.ram[sp.pd[a]][i])), a, b, i, 0)
  {
    assert FrameAt(sp, PdOf(a)) == sp.pd[a] && FrameAt(sp, PdOf(b)) == sp.pd[b];
    var flags := FlagsOf(sp.ram[sp.pd[a]][i]);
    var sp' := WithTable(sp, b, i, f, flags);
    LinkTable(sp, owner, b, i, f, flags);
    EntryParts(f, flags);
    forall k | 0 <= k < i ensures TableCopied(sp', a, b, k) {
      forall j | 0 <= j < ENTRIES ensures PageKept(sp, sp', a, k, j) && PageKept(sp, sp', b, k, j) {
        TableLinkKeeps(sp, owner, b, i, f, flags, a, k, j);
        TableLinkKeeps(sp, owner, b, i, f, flags, b, k, j);
      }
      TableLinkKeeps(sp, owner, b, i, f, flags, a, k, 0);
      TableLinkKeeps(sp, owner, b, i, f, flags, b, k, 0);
      SameKept(sp, sp', a, b, k);
    }
    TableLinkKeeps(sp, owner, b, i, f, flags, a, i, 0);
    assert FrameAt(sp', PtOf(b, i)) == f;
    forall k: nat ensures PageFrame(sp', b, i, k) == -1 {
      assert FrameAt(sp', PageOf(b, i, k)) == FrameAt(sp, PageOf(b, i, k));
    }
    forall k | i < k ensures PtFrame(sp', b, k) == -1 {
      assert FrameAt(sp', PtOf(b, k)) == FrameAt(sp, PtOf(b, k));
    }
  }

  /** A page copied into a fresh frame and entered in the child's table. */
  lemma CopyEntry(sp: Space, owner: map<nat, Place>, a: nat, b: nat, i: nat, j: nat, f: nat)
    requires Owned(sp, owner) && IsLive(sp, a) && IsLive(sp, b) && a != b && j < ENTRIES
    requires AtEntry(sp, a, b, i, j) && 0 <= PageFrame(sp, a, i, j) < |sp.ram|
    requires f < |sp.ram| && f !in owner
    ensures 0 <= PtFrame(sp, a, i) < |sp.ram| && 0 <= PtFrame(sp, b, i) < |sp.ram|
    ensures var full := Filled(sp, f, sp.ram[PageFrame(sp, a, i, j)]);
      && PtFrame(full, b, i) == PtFrame(sp, b, i)
      && AtEntry(WithPage(full, b, i, j, f, FlagsOf(sp.ram[PtFrame(sp, a, i)][j])), a, b, i, j + 1)
  {
    assert FrameAt(sp, PtOf(a, i)) == PtFrame(sp, a, i) && FrameAt(sp, PtOf(b, i)) == PtFrame(sp, b, i);
    var full := Filled(sp, f, sp.ram[PageFrame(sp, a, i, j)]);
    var flags := FlagsOf(sp.ram[PtFrame(sp, a, i)][j]);
    WriteData(sp, owner, f, sp.ram[PageFrame(sp, a, i, j)]);
    FillAtEntry(sp, owner, a, b, i, j, f, sp.ram[PageFrame(sp, a, i, j)]);
    FillKeeps(sp, owner, f, sp.ram[PageFrame(sp, a, i, j)], a, i, j);
    LinkAtEntry(full, owner, a, b, i, j, f, flags);
  }

  lemma FillAtEntry(sp: Space, owner: map<nat, Place>, a: nat, b: nat, i: nat, j: nat, f: nat, content: Page)
    requires Owned(sp, owner) && AtEntry(sp, a, b, i, j) && f < |sp.ram| && f !in owner
    ensures AtEntry(Filled(sp, f, content), a, b, i, j)
  {
    var sp' := Filled(sp, f, content);
    forall k: nat ensures TableKept(sp, sp', a, k) && TableKept(sp, sp', b, k) {
      FillKeeps(sp, owner, f, content, a, k, 0);
      FillKeeps(sp, owner, f, content, b, k, 0);
    }
    forall k: nat, l: nat ensures PageKept(sp, sp', a, k, l) && PageKept(sp, sp', b, k, l) {
      FillKeeps(sp, owner, f, content, a, k, l);
      FillKeeps(sp, owner, f, content, b, k, l);
    }
    forall k | 0 <= k < i ensures TableCopied(sp', a, b, k) { SameKept(sp, sp', a, b, k); }
    assert TableKept(sp, sp', a, i) && TableKept(sp, sp', b, i);
    forall k | 0 <= k < j ensures SamePage(sp', a, b, i, k) {
      assert SamePage(sp, a, b, i, k) && PageKept(sp, sp', a, i, k) && PageKept(sp, sp', b, i, k);
    }
    forall k | j <= k ensures PageFrame(sp', b, i, k) == -1 { assert PageKept(sp, sp', b, i, k); }
    forall k | i < k ensures PtFrame(sp', b, k) == -1 { assert TableKept(sp, sp', b, k); }
  }

  lemma FillAtTable(sp: Space, owner: map<nat, Place>, a: nat, b: nat, i: nat, f: nat, content: Page)
    requires Owned(sp, owner) && AtTable(sp, a, b, i) && f < |sp.ram| && f !in owner
    ensures var sp' := Filled(sp, f, content);
      && AtTable(sp', a, b, i) && PtFrame(sp', a, i) == PtFrame(sp, a, i)
      && (IsLive(sp, a) && PtFrame(sp, a, i) != -1 ==>
          sp.pd[a] < |sp.ram| && sp'.ram[sp.pd[a]][i] == sp.ram[sp.pd[a]][i])
  {
    var sp' := Filled(sp, f, content);
    forall k: nat ensures TableKept(sp, sp', a, k) && TableKept(sp, sp', b, k) {
      FillKeeps(sp, owner, f, content, a, k, 0);
      FillKeeps(sp, owner, f, content, b, k, 0);
    }
    forall k: nat, l: nat ensures PageKept(sp, sp', a, k, l) && PageKept(sp, sp', b, k, l) {
      FillKeeps(sp, owner, f, content, a, k, l);
      FillKeeps(sp, owner, f, content, b, k, l);
    }
    forall k | 0 <= k < i ensures TableCopied(sp', a, b, k) { SameKept(sp, sp', a, b, k); }
    assert TableKept(sp, sp', a, i);
    forall k | i <= k ensures PtFrame(sp', b, k) == -1 { assert TableKept(sp, sp', b, k); }
  }

  lemma LinkAtEntry(sp: Space, owner: map<nat, Place>, a: nat, b: nat, i: nat, j: nat, f: nat, flags: nat)
    requires Owned(sp, owner) && IsLive(sp, b) && a != b && AtEntry(sp, a, b, i, j) && j < ENTRIES
    requires f < |sp.ram| && f !in owner && flags < FLAG_BITS && flags % 2 == 1
    requires 0 <= PageFrame(sp, a, i, j) < |sp.ram| && sp.ram[f] == sp.ram[PageFrame(sp, a, i, j)]
    requires 0 <= PtFrame(sp, a, i) < |sp.ram| && flags == FlagsOf(sp.ram[PtFrame(sp, a, i)][j])
    ensures 0 <= PtFrame(sp, b, i) < |sp.ram|
    ensures AtEntry(WithPage(sp, b, i, j, f, flags), a, b, i, j + 1)
  {
    assert FrameAt(sp, PtOf(b, i)) == PtFrame(sp, b, i);
    var sp' := WithPage(sp, b, i, j, f, flags);
    LinkPage(sp, owner, b, i, j, f, flags);
    EntryParts(f, flags);
    forall k: nat ensures TableKept(sp, sp', a, k) && TableKept(sp, sp', b, k) {
      PageLinkKeeps(sp, owner, b, i, j, f, flags, a, k, 0);
      PageLinkKeeps(sp, owner, b, i, j, f, flags, b, k, 0);
    }
    forall k: nat, l: nat ensures PageKept(sp, sp', a, k, l) && ((k, l) != (i, j) ==> PageKept(sp, sp', b, k, l)) {
      PageLinkKeeps(sp, owner, b, i, j, f, flags, a, k, l);
      PageLinkKeeps(sp, owner, b, i, j, f, flags, b, k, l);
    }
    forall k | 0 <= k < i ensures TableCopied(sp', a, b, k) { SameKept(sp, sp', a, b, k); }
    assert TableKept(sp, sp', a, i) && TableKept(sp, sp', b, i) && PageKept(sp, sp', a, i, j);
    assert FrameAt(sp', PageOf(b, i, j)) == f;
    PagesApart(sp, owner, a, i, j, b, i, 0);
    assert SamePage(sp', a, b, i, j);
    forall k | 0 <= k < j ensures SamePage(sp', a, b, i, k) {
      assert SamePage(sp, a, b, i, k) && PageKept(sp, sp', a, i, k) && PageKept(sp, sp', b, i, k);
    }
    forall k | j + 1 <= k ensures PageFrame(sp', b, i, k) == -1 { assert PageKept(sp, sp', b, i, k); }
    forall k | i < k ensures PtFrame(sp', b, k) == -1 { assert TableKept(sp, sp', b, k); }
  }
}
