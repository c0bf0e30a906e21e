/** What fork promises its two processes: the child starts with the parent's
    image, and from then on neither sees the other's stores. */
module ForkIsolation {
  import opened Regions
  import opened PageTables
  import opened FrameBooks

  lemma UsedIsKept(b0: Books, b: Books, rs: seq<Region>, m: nat, f: nat)
    requires Sound(b0, rs) && Atop(b0, b, m) && f in b0.owner && f < |b0.sp.ram|
    ensures f < |b.sp.ram| && b.sp.ram[f] == b0.sp.ram[f]
  {
    assert Classed(b0, f);
  }

  lemma AtopPlace(b0: Books, b: Books, rs: seq<Region>, m: nat, p: Place)
    requires Sound(b0, rs) && Atop(b0, b, m) && IsLive(b0.sp, p.mm)
    ensures SamePlace(b0.sp, b.sp, p)
  {
    var n := p.mm;
    OwnPd(b0, n);
    UsedIsKept(b0, b, rs, m, b0.sp.pd[n]);
    if !p.PdOf? && PtFrame(b0.sp, n, p.i) != -1 {
      OwnPt(b0, n, p.i);
      UsedIsKept(b0, b, rs, m, PtFrame(b0.sp, n, p.i));
      if p.PageOf? && PageFrame(b0.sp, n, p.i, p.j) != -1 {
        OwnPage(b0, n, p.i, p.j);
        UsedIsKept(b0, b, rs, m, PageFrame(b0.sp, n, p.i, p.j));
      }
    }
  }

  /** Building one address space leaves every other as it was. */
  lemma AtopView(b0: Books, b: Books, rs: seq<Region>, m: nat, n: nat)
    requires Sound(b0, rs) && Atop(b0, b, m) && IsLive(b0.sp, n)
    ensures SameView(b0.sp, b.sp, n)
  {
    forall p: Place | p.mm == n ensures SamePlace(b0.sp, b.sp, p) { AtopPlace(b0, b, rs, m, p); }
  }

  /** What address space n reads after a fork and any stores, by anybody, in any
      order and number: what it read before, and its own stores. */
  lemma ReadsOwn(b0: Books, b: Books, rs: seq<Region>, c: nat, n: nat, stores: seq<StoreBy>, i: nat, j: nat, k: nat)
    requires Sound(b0, rs) && Sound(b, rs) && Atop(b0, b, c) && IsLive(b0.sp, n)
    ensures ReadUser(WriteMixed(b.sp, stores), n, i, j, k)
      == After(OwnStores(stores, n), i, j, k, UserMay(b0.sp, n, i, j, true), ReadUser(b0.sp, n, i, j, k))
  {
    AtopView(b0, b, rs, c, n);
    ViewSymmetric(b0.sp, b.sp, n);
    MixedStores(b.sp, b0.sp, b.owner, b0.owner, stores, n);
    SameViewReads(WriteMixed(b.sp, stores), WriteAll(b0.sp, n, OwnStores(stores, n)), n, i, j, k, false);
    OwnStoresRead(b0.sp, b0.owner, n, OwnStores(stores, n), i, j, k);
  }

  /** After a successful clone of a into c, and whatever all address spaces store
      afterwards, in any order and number: the parent reads its image from
      before the call with its own stores on top, as if there had been no fork;
      the child reads that same image with its own stores on top. */
  lemma ForkIsolates(b0: Books, b: Books, rs: seq<Region>, a: nat, c: nat, stores: seq<StoreBy>, i: nat, j: nat, k: nat)
    requires Sound(b0, rs) && Sound(b, rs) && Atop(b0, b, c) && IsLive(b0.sp, a) && SameUser(b.sp, a, c)
    ensures var may, was := UserMay(b0.sp, a, i, j, true), ReadUser(b0.sp, a, i, j, k);
      && ReadUser(WriteMixed(b.sp, stores), a, i, j, k) == After(OwnStores(stores, a), i, j, k, may, was)
      && ReadUser(WriteMixed(b.sp, stores), c, i, j, k) == After(OwnStores(stores, c), i, j, k, may, was)
  {
    ReadsOwn(b0, b, rs, c, a, stores, i, j, k);
    AtopView(b0, b, rs, c, a);
    SameViewReads(b0.sp, b.sp, a, i, j, k, true);
    SameUserReads(b.sp, b.owner, a, c, i, j, k);
    assert SameView(b.sp, b.sp, c) by { SelfView(b, c); }
    MixedStores(b.sp, b.sp, b.owner, b.owner, stores, c);
    SameViewReads(WriteMixed(b.sp, stores), WriteAll(b.sp, c, OwnStores(stores, c)), c, i, j, k, false);
    OwnStoresRead(b.sp, b.owner, c, OwnStores(stores, c), i, j, k);
  }

  lemma SelfView(b: Books, n: nat)
    requires Owned(b.sp, b.owner)
    ensures SameView(b.sp, b.sp, n)
  {
    forall p: Place | p.mm == n ensures SamePlace(b.sp, b.sp, p) { }
  }
}
