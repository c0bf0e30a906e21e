/** The order in which an address space's frames are given back: the pages of
    each table, then the table, and the directory last. */
module PageTeardown {
  import opened PageTables

  /** Whether a place has been passed when the loops stand at entry (i, j). */
  predicate Passed(p: Place, i: nat, j: nat) {
    match p
    case PdOf(_) => false
    case PtOf(_, a) => a < i
    case PageOf(_, a, b) => a < i || (a == i && b < j)
  }

  /** The frames of address space m that are still to be freed. */
  ghost function Remaining(owner: map<nat, Place>, m: nat, i: nat, j: nat): set<nat> {
    set f | f in owner && owner[f].mm == m && !Passed(owner[f], i, j)
  }

  lemma StartRemaining(owner: map<nat, Place>, m: nat)
    ensures Remaining(owner, m, 0, 0) == set f | f in owner && owner[f].mm == m
  {
  }

  lemma PassPage(sp: Space, owner: map<nat, Place>, m: nat, i: nat, j: nat)
    requires Owned(sp, owner)
    ensures PageFrame(sp, m, i, j) == -1 ==> Remaining(owner, m, i, j + 1) == Remaining(owner, m, i, j)
    ensures PageFrame(sp, m, i, j) != -1 ==>
      && PageFrame(sp, m, i, j) >= 0 && PageFrame(sp, m, i, j) in Remaining(owner, m, i, j)
      && Remaining(owner, m, i, j + 1) == Remaining(owner, m, i, j) - {PageFrame(sp, m, i, j)}
  {
    var p := PageOf(m, i, j);
    assert FrameAt(sp, p) == PageFrame(sp, m, i, j);
    forall f | f in owner ensures owner[f].mm == m && Passed(owner[f], i, j + 1)
      <==> owner[f].mm == m && (Passed(owner[f], i, j) || owner[f] == p)
    {
    }
    forall f | f in owner && owner[f] == p ensures f == FrameAt(sp, p) {
    }
  }

  lemma PassTable(sp: Space, owner: map<nat, Place>, m: nat, i: nat)
    requires Owned(sp, owner)
    ensures PtFrame(sp, m, i) == -1 ==> Remaining(owner, m, i + 1, 0) == Remaining(owner, m, i, 0)
    ensures PtFrame(sp, m, i) != -1 ==>
      && PtFrame(sp, m, i) >= 0 && PtFrame(sp, m, i) in Remaining(owner, m, i, ENTRIES)
      && Remaining(owner, m, i + 1, 0) == Remaining(owner, m, i, ENTRIES) - {PtFrame(sp, m, i)}
  {
    var p := PtOf(m, i);
    assert FrameAt(sp, p) == PtFrame(sp, m, i);
    forall f | f in owner ensures FrameAt(sp, owner[f]) == f {
    }
    forall f | f in owner && owner[f].PageOf?
      ensures owner[f].j < ENTRIES && PtFrame(sp, owner[f].mm, owner[f].i) != -1
    {
      assert FrameAt(sp, owner[f]) == f;
    }
  }

  lemma OnlyDirectory(sp: Space, owner: map<nat, Place>, m: nat)
    requires Owned(sp, owner) && IsLive(sp, m)
    ensures Remaining(owner, m, USER_PDES, 0) == {sp.pd[m]}
  {
    assert FrameAt(sp, PdOf(m)) == sp.pd[m];
    forall f | f in Remaining(owner, m, USER_PDES, 0) ensures f == sp.pd[m] {
      assert FrameAt(sp, owner[f]) == f;
    }
  }
}
