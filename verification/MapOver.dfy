/** What happens to a page that is mapped over another: mm_map_region writes the
    entry without looking at what it held. */
module MapOver {
  import opened PageTables

  /** Some place of some live address space has frame f. */
  ghost predicate Reachable(sp: Space, f: nat) { exists p: Place {:trigger FrameAt(sp, p)} :: FrameAt(sp, p) == f }

  /** Every frame that was owned, and the new one, has a place. */
  ghost predicate AllReachable(sp: Space, owner: map<nat, Place>, f: nat) {
    Reachable(sp, f) && forall g :: g in owner ==> Reachable(sp, g)
  }

  /** The frame that was there before is lost: no place has it, so no teardown
      gives it back. */
  lemma OldFrameIsLost(sp: Space, owner: map<nat, Place>, m: nat, i: nat, j: nat, f: nat, flags: nat)
    requires Owned(sp, owner) && IsLive(sp, m) && PageFrame(sp, m, i, j) != -1
    requires f < |sp.ram| && f !in owner && flags < FLAG_BITS && flags % 2 == 1
    ensures 0 <= PtFrame(sp, m, i) < |sp.ram| && j < ENTRIES && PageFrame(sp, m, i, j) in owner
    ensures !Reachable(Overwritten(sp, m, i, j, f, flags), PageFrame(sp, m, i, j))
  {
    var g := PageFrame(sp, m, i, j);
    assert FrameAt(sp, PageOf(m, i, j)) == g;
    OverwrittenPlaces(sp, owner, m, i, j, f, flags);
    forall p ensures FrameAt(Overwritten(sp, m, i, j, f, flags), p) != g {
      if p != PageOf(m, i, j) && FrameAt(sp, p) == g { OnePlacePerFrame(sp, owner, p, PageOf(m, i, j)); }
    }
  }

  /** Every frame keeps a place if and only if the page was not mapped. */
  lemma KeepsFramesIff(sp: Space, owner: map<nat, Place>, m: nat, i: nat, j: nat, f: nat, flags: nat)
    requires Owned(sp, owner) && IsLive(sp, m) && PtFrame(sp, m, i) != -1 && j < ENTRIES
    requires f < |sp.ram| && f !in owner && flags < FLAG_BITS && flags % 2 == 1
    ensures 0 <= PtFrame(sp, m, i) < |sp.ram|
    ensures AllReachable(Overwritten(sp, m, i, j, f, flags), owner, f) <==> PageFrame(sp, m, i, j) == -1
  {
    OverwrittenPlaces(sp, owner, m, i, j, f, flags);
    var sp' := Overwritten(sp, m, i, j, f, flags);
    if PageFrame(sp, m, i, j) == -1 {
      assert FrameAt(sp', PageOf(m, i, j)) == f;
      forall g | g in owner ensures Reachable(sp', g) {
        assert FrameAt(sp, owner[g]) == g;
        assert FrameAt(sp', owner[g]) == g;
      }
    } else {
      OldFrameIsLost(sp, owner, m, i, j, f, flags);
    }
  }

  // ---- One such mapping ----

  /** One address space, with its directory in frame 0. */
  function Bare(): Space { Space(seq(4, _ => ZeroPage()), [true], [0]) }

  /** The same with a table in frame 1, and then a page in frame 2. */
  function WithTable(): Space { var sp := Bare(); sp.(ram := SetWord(sp.ram, 0, 0, Entry(1, 7))) }

  function WithPage(): Space { var sp := WithTable(); sp.(ram := SetWord(sp.ram, 1, 0, Entry(2, 7))) }

  lemma WithPageOwned() returns (owner: map<nat, Place>)
    ensures Owned(WithPage(), owner) && 3 !in owner
    ensures PtFrame(WithPage(), 0, 0) == 1 && PageFrame(WithPage(), 0, 0, 0) == 2
  {
    var none := Space(seq(4, _ => ZeroPage()), [false], [0]);
    assert Owned(none, map[]);
    AddSpace(none, map[], 0, 0);
    assert Bare() == none.(live := none.live[0 := true], pd := none.pd[0 := 0]);
    owner := map[0 := PdOf(0)];
    LinkTable(Bare(), owner, 0, 0, 1, 7);
    owner := owner[1 := PtOf(0, 0)];
    EntryParts(1, 7);
    assert FrameAt(WithTable(), PtOf(0, 0)) == 1 && FrameAt(WithTable(), PageOf(0, 0, 0)) == -1;
    LinkPage(WithTable(), owner, 0, 0, 0, 2, 7);
    owner := owner[2 := PageOf(0, 0, 0)];
    assert FrameAt(WithPage(), PtOf(0, 0)) == 1 && FrameAt(WithPage(), PageOf(0, 0, 0)) == 2;
  }

  /** Mapping frame 3 over that page loses frame 2. */
  lemma MappedOverIsLost()
    ensures exists owner: map<nat, Place> :: Owned(WithPage(), owner) && 2 in owner && 3 !in owner
    ensures PtFrame(WithPage(), 0, 0) == 1 && !Reachable(Overwritten(WithPage(), 0, 0, 0, 3, 7), 2)
  {
    var owner := WithPageOwned();
    OldFrameIsLost(WithPage(), owner, 0, 0, 0, 3, 7);
  }
}
