/** The physical memory manager: a bitmap of page frames with a cached count of
    the clear bits and a cyclic search hint, kept consistent with the table of
    permanently reserved regions. */
module Pmm {
  import opened Words
  import opened Bitmap
  import opened Regions

  const FRAME_SIZE: nat := 4096
  const LOW_MEMORY: nat := 0x10_0000

  datatype AllocResult =
    | AllocSuccess
    | AllocOom
    | NoPagesInitialized
    | BitmapInconsistentReserved
    | AlreadyAllocated
    | AllocReserved
    | OutOfBounds
    | UnalignedAddr
    | AlreadyFree

  datatype PagingStatus = PagingOk | NoMem | FrameReserveFailed

  /** Some byte of frame f lies in [lo, hi). */
  predicate Touches(f: nat, lo: int, hi: int) {
    f * FRAME_SIZE < hi && lo < (f + 1) * FRAME_SIZE && lo < hi
  }

  ghost predicate FrameReserved(rs: seq<Region>, f: nat) {
    exists x :: f * FRAME_SIZE <= x < (f + 1) * FRAME_SIZE && Covers(rs, x)
  }

  /** Some byte of the 4 KiB at an address is reserved. */
  ghost predicate Holds4K(rs: seq<Region>, address: int) {
    exists x :: address <= x < address + 4096 && Covers(rs, x)
  }

  /** The 4 KiB at an address are a tracked frame that is taken but not reserved. */
  ghost predicate Returnable(rs: seq<Region>, n: nat, free: set<nat>, address: nat) {
    address % 4096 == 0 && address < n * 4096 && address / 4096 !in free && !Holds4K(rs, address)
  }

  /** No frame of a set touches a reserved region. */
  ghost predicate NoneReserved(rs: seq<Region>, frames: set<nat>) {
    forall f: nat {:trigger FrameReserved(rs, f)} :: f in frames ==> !FrameReserved(rs, f)
  }

  /** Frames that a byte range touches, below a bound. */
  ghost function TouchedFrames(lo: int, hi: int, n: nat): set<nat> {
    set f | 0 <= f < n && Touches(f, lo, hi)
  }

  /** Position k of the cyclic order that starts at the hint. */
  function Cyclic(hint: nat, k: nat, n: nat): nat
    requires hint < n && k < n
  {
    if hint + k < n then hint + k else hint + k - n
  }

  /** f is the first free frame met when counting up cyclically from the hint. */
  ghost predicate FirstFree(free: set<nat>, hint: nat, n: nat, f: nat)
    requires hint < n
  {
    exists k :: 0 <= k < n && f == Cyclic(hint, k, n) && f in free
      && forall j :: 0 <= j < k ==> Cyclic(hint, j, n) !in free
  }

  /** Without the order: no free frame lies between the hint and f, or, if f
      is below the hint, none lies at or above the hint and none below f. */
  lemma FirstFreeIs(free: set<nat>, hint: nat, n: nat, f: nat)
    requires hint < n && forall g :: g in free ==> g < n
    ensures FirstFree(free, hint, n, f) <==>
      f in free && forall g :: g in free ==> if hint <= f then f <= g || g < hint else f <= g < hint
  {
    if FirstFree(free, hint, n, f) {
      forall g | g in free ensures if hint <= f then f <= g || g < hint else f <= g < hint {
        CyclicReaches(hint, n, g);
      }
    } else if f in free {
      CyclicReaches(hint, n, f);
      var k :| 0 <= k < n && f == Cyclic(hint, k, n);
      var j :| 0 <= j < k && Cyclic(hint, j, n) in free;
    }
  }

  lemma CyclicReaches(hint: nat, n: nat, f: nat)
    requires hint < n && f < n
    ensures exists k :: 0 <= k < n && f == Cyclic(hint, k, n)
  {
    var k := if f >= hint then f - hint else f + n - hint;
    assert f == Cyclic(hint, k, n);
  }

  lemma NothingFree(free: set<nat>, hint: nat, n: nat)
    requires hint < n && (forall f :: f in free ==> f < n)
    requires forall j :: 0 <= j < n ==> Cyclic(hint, j, n) !in free
    ensures free == {}
  {
    forall f | f in free ensures false { CyclicReaches(hint, n, f); }
  }

  /** The touched and the inside frames, by the bytes they hold. */
  lemma FramesByBytes(lo: nat, hi: nat, n: nat, f: nat)
    ensures f in TouchedFrames(lo, hi, n) <==> f < n && exists x :: lo <= x < hi && Holds(f, x)
    ensures f in InsideFrames(lo, hi, n) <==> f < n && forall x :: Holds(f, x) ==> lo <= x < hi
  {
    assert Holds(f, f * FRAME_SIZE) && Holds(f, f * FRAME_SIZE + 4095);
    if Touches(f, lo, hi) { assert Holds(f, Max(f * FRAME_SIZE, lo)); }
  }

  /** Byte x belongs to frame f. */
  predicate Holds(f: nat, x: int) { x / 4096 == f }

  lemma AddressOf(f: nat)
    ensures f * FRAME_SIZE % FRAME_SIZE == 0 && f * FRAME_SIZE / FRAME_SIZE == f
  {
  }

  /** Some whole frame f lies inside [lo, hi). */
  predicate Inside(f: nat, lo: int, hi: int) {
    lo <= f * FRAME_SIZE && (f + 1) * FRAME_SIZE <= hi
  }

  ghost function InsideFrames(lo: int, hi: int, n: nat): set<nat> {
    set f | 0 <= f < n && Inside(f, lo, hi)
  }

  /** The touched frames are consecutive: from the one holding the first byte
      to the one holding the last. */
  lemma TouchedBounds(lo: nat, hi: nat, n: nat)
    requires lo < hi
    ensures forall f :: f in TouchedFrames(lo, hi, n) <==>
                        f < n && lo / FRAME_SIZE <= f < (hi + 0xFFF) / FRAME_SIZE
  {
    forall f: nat ensures f in TouchedFrames(lo, hi, n) <==> f < n && lo / FRAME_SIZE <= f < (hi + 0xFFF) / FRAME_SIZE {
      assert Touches(f, lo, hi) <==> lo / FRAME_SIZE <= f < (hi + 0xFFF) / FRAME_SIZE;
    }
  }

  lemma InsideBounds(lo: nat, hi: nat, n: nat)
    ensures forall f :: f in InsideFrames(lo, hi, n) <==>
                        f < n && (lo + 0xFFF) / FRAME_SIZE <= f < hi / FRAME_SIZE
  {
    forall f: nat ensures f in InsideFrames(lo, hi, n) <==> f < n && (lo + 0xFFF) / FRAME_SIZE <= f < hi / FRAME_SIZE {
      assert Inside(f, lo, hi) <==> (lo + 0xFFF) / FRAME_SIZE <= f < hi / FRAME_SIZE;
    }
  }

  /** The bitmap has one bit per frame and set padding; its clear bits are
      the free set, and the counter is that set's size. */
  ghost predicate BitmapOk(map8: seq<bv8>, n: nat, available: int, free: set<nat>) {
    && |map8| == (n + 7) / 8
    && available == |free|
    && (forall f :: f in free ==> f < n)
    && (forall f: nat {:trigger Used(map8, f)} :: f in free <==> !Used(map8, f))
  }

  lemma SetKeepsOk(map8: seq<bv8>, n: nat, available: nat, free: set<nat>, f: nat)
    requires BitmapOk(map8, n, available, free) && f < n
    ensures var now := Set(map8, f);
      BitmapOk(now, n, if now[f / 8] != map8[f / 8] then available - 1 else available, free - {f})
  {
    WithBitHas(map8[f / 8], f % 8, f % 8);
    assert f in free <==> !Used(map8, f);
    assert f !in free ==> free - {f} == free;
    forall g: nat ensures g in free - {f} <==> !Used(Set(map8, f), g) {
      SetUses(map8, f, g);
    }
  }

  lemma ClearKeepsOk(map8: seq<bv8>, n: nat, available: nat, free: set<nat>, f: nat)
    requires BitmapOk(map8, n, available, free) && f < n
    ensures var now := Clear(map8, f);
      BitmapOk(now, n, if now[f / 8] != map8[f / 8] then available + 1 else available, free + {f})
  {
    WithoutBitHas(map8[f / 8], f % 8, f % 8);
    assert f in free <==> !Used(map8, f);
    assert f in free ==> free + {f} == free;
    forall g: nat ensures g in free + {f} <==> !Used(Clear(map8, f), g) {
      ClearUses(map8, f, g);
    }
  }

  function PageUp(x: nat): (r: nat)
    ensures r % 4096 == 0 && x <= r < x + 4096
  {
    (x + 0xFFF) / FRAME_SIZE * FRAME_SIZE
  }

  lemma AllOnes(map8: seq<bv8>, n: nat)
    requires |map8| == (n + 7) / 8 && forall i :: 0 <= i < |map8| ==> map8[i] == 0xFF
    ensures BitmapOk(map8, n, 0, {})
  {
    forall f: nat ensures Used(map8, f) { PlainBytes(f % 8); }
  }

  // ---- Reserved frames ----

  lemma ReservedByLast(rs: seq<Region>, r: Region, f: nat)
    ensures FrameReserved(rs + [r], f) <==> FrameReserved(rs, f) || (r.reserved && Touches(f, r.base, End(r)))
  {
    var lo, hi := f * FRAME_SIZE, (f + 1) * FRAME_SIZE;
    if FrameReserved(rs + [r], f) {
      var x :| lo <= x < hi && Covers(rs + [r], x);
      var i :| 0 <= i < |rs + [r]| && In((rs + [r])[i], x);
      if i < |rs| { assert In(rs[i], x) && Covers(rs, x); }
    }
    if FrameReserved(rs, f) {
      var x :| lo <= x < hi && Covers(rs, x);
      var i :| 0 <= i < |rs| && In(rs[i], x);
      assert In((rs + [r])[i], x) && Covers(rs + [r], x);
    }
    if r.reserved && Touches(f, r.base, End(r)) {
      var x := Max(lo, r.base);
      assert In((rs + [r])[|rs|], x) && Covers(rs + [r], x);
    }
  }

  ghost function TakeOut(all: set<nat>, r: Region, n: nat): set<nat> {
    if r.reserved then all - TouchedFrames(r.base, r.base + r.length, n) else all
  }

  /** What is left of a free set once the first i regions are taken out. */
  ghost function LeftFree(all: set<nat>, rs: seq<Region>, i: nat, n: nat): set<nat>
    requires i <= |rs|
  {
    if i == 0 then all else TakeOut(LeftFree(all, rs, i - 1, n), rs[i - 1], n)
  }

  lemma {:induction false} LeftFreeIsUnreserved(all: set<nat>, rs: seq<Region>, i: nat, n: nat)
    requires i <= |rs|
    ensures forall f: nat :: f < n ==> (f in LeftFree(all, rs, i, n) <==> f in all && !FrameReserved(rs[..i], f))
    ensures LeftFree(all, rs, i, n) <= all
  {
    if i > 0 {
      LeftFreeIsUnreserved(all, rs, i - 1, n);
      assert rs[..i] == rs[..i - 1] + [rs[i - 1]];
      forall f: nat ensures FrameReserved(rs[..i], f)
        <==> FrameReserved(rs[..i - 1], f) || (rs[i - 1].reserved && Touches(f, rs[i - 1].base, End(rs[i - 1])))
      {
        ReservedByLast(rs[..i - 1], rs[i - 1], f);
      }
    }
  }

  /** Whole frames above 1 MiB that neither a reserved region nor the bitmap touches. */
  ghost function InitialFree(rs: seq<Region>, n: nat, bitmapAt: nat, bitmapSize: nat): set<nat> {
    LeftFree(InsideFrames(LOW_MEMORY, n * FRAME_SIZE, n), rs, |rs|, n)
    - TouchedFrames(bitmapAt, bitmapAt + bitmapSize, n)
  }

  /** The same by bytes: no byte of a free frame is reserved or the bitmap's. */
  lemma InitialIs(rs: seq<Region>, n: nat, bitmapAt: nat, bitmapSize: nat, f: nat)
    ensures f in InitialFree(rs, n, bitmapAt, bitmapSize) <==> FreeByBytes(rs, n, bitmapAt, bitmapAt + bitmapSize, f)
  {
    LeftFreeIsUnreserved(InsideFrames(LOW_MEMORY, n * FRAME_SIZE, n), rs, |rs|, n);
    assert rs[..|rs|] == rs;
    var taken := Max(f * FRAME_SIZE, bitmapAt);
    if FreeByBytes(rs, n, bitmapAt, bitmapAt + bitmapSize, f) {
      assert Covers(rs, taken) || !Covers(rs, taken);
      assert f in InsideFrames(LOW_MEMORY, n * FRAME_SIZE, n);
    }
  }

  lemma InitialFrames(rs: seq<Region>, n: nat, bitmapAt: nat, bitmapSize: nat)
    ensures NoneReserved(rs, InitialFree(rs, n, bitmapAt, bitmapSize))
    ensures FreeAre(rs, n, bitmapAt, bitmapAt + bitmapSize, InitialFree(rs, n, bitmapAt, bitmapSize))
  {
    forall f: nat
      ensures f in InitialFree(rs, n, bitmapAt, bitmapSize) <==> FreeByBytes(rs, n, bitmapAt, bitmapAt + bitmapSize, f)
    {
      InitialIs(rs, n, bitmapAt, bitmapSize, f);
    }
  }

  /** A set holds exactly the frames that are free by their bytes. */
  ghost predicate FreeAre(rs: seq<Region>, n: nat, lo: nat, hi: nat, free: set<nat>) {
    forall f: nat :: f in free <==> FreeByBytes(rs, n, lo, hi, f)
  }

  /** Frame f lies above 1 MiB and inside memory of n frames, and none of its
      bytes is reserved or in [lo, hi). */
  ghost predicate FreeByBytes(rs: seq<Region>, n: nat, lo: nat, hi: nat, f: nat) {
    0x100 <= f < n && forall x :: f * 4096 <= x < f * 4096 + 4096 ==> !Covers(rs, x) && !(lo <= x < hi)
  }

  lemma FramesAboveLow(kernelEnd: nat, top: nat)
    requires LOW_MEMORY < kernelEnd && PageUp(kernelEnd) <= top
    ensures top / FRAME_SIZE > LOW_MEMORY / FRAME_SIZE && top > LOW_MEMORY
  {
    assert PageUp(kernelEnd) >= LOW_MEMORY + FRAME_SIZE;
  }

  /** The end of memory, clamped to the 32-bit address space. */
  function Top(availMemoryKib: nat): (r: nat)
    ensures r <= 0x1_0000_0000 && r <= availMemoryKib * 1024
    ensures r == 0x1_0000_0000 || r == availMemoryKib * 1024
  {
    if availMemoryKib * 1024 > WORD then WORD else availMemoryKib * 1024
  }

  lemma WholeFrames(top: nat, usable: nat, n: nat)
    requires LOW_MEMORY < top <= WORD && n == top / FRAME_SIZE && usable == top - LOW_MEMORY
    ensures {} + InsideFrames(LOW_MEMORY, LOW_MEMORY + usable, n) == InsideFrames(LOW_MEMORY, n * FRAME_SIZE, n)
  {
  }

  /** A frame that touches a run of reserved bytes, and held none of them
      before, touches the range that was added. */
  lemma RunTouchesNew(was: seq<Region>, base: nat, length: nat, lo: nat, hi: nat, f: nat)
    requires IsRun(was, base, length, lo, hi) && !FrameReserved(was, f) && Touches(f, lo, hi)
    ensures Touches(f, base, base + length)
  {
    var x := Max(f * FRAME_SIZE, lo);
    assert lo <= x < hi && f * FRAME_SIZE <= x < (f + 1) * FRAME_SIZE;
    assert !Covers(was, x);
  }

  lemma ReservedAfterExtend(was: seq<Region>, now: seq<Region>, base: nat, length: nat, lo: nat, hi: nat,
                            entry: Region, f: nat)
    requires Extended(was, now, base, length, lo, hi, entry)
    requires FrameReserved(now, f)
    ensures FrameReserved(was, f) || Touches(f, entry.base, End(entry))
  {
    var x :| f * FRAME_SIZE <= x < (f + 1) * FRAME_SIZE && Covers(now, x);
  }

  /** What a run of reserved bytes takes out of the free frames: exactly those
      the added range touches, for the others in the run were already used. */
  lemma RunFrames(was: seq<Region>, now: seq<Region>, base: nat, length: nat, lo: nat, hi: nat, entry: Region,
                  free: set<nat>, n: nat)
    requires IsRun(was, base, length, lo, hi) && Extended(was, now, base, length, lo, hi, entry)
    requires forall f :: f in free ==> f < n && !FrameReserved(was, f)
    ensures var left := free - TouchedFrames(entry.base, entry.base + entry.length, n);
      && free - TouchedFrames(base, base + length, n) <= left
      && (hi - lo < WORD ==> left == free - TouchedFrames(base, base + length, n))
      && forall f :: f in left ==> !FrameReserved(now, f)
  {
    forall f | f in free && Touches(f, entry.base, End(entry)) ensures Touches(f, base, base + length) {
      RunTouchesNew(was, base, length, lo, hi, f);
    }
    forall f | f in free && !Touches(f, entry.base, End(entry)) ensures !FrameReserved(now, f) {
      if FrameReserved(now, f) { ReservedAfterExtend(was, now, base, length, lo, hi, entry, f); }
    }
  }

  lemma TakenOnce(all: set<nat>, left: set<nat>, f: nat)
    requires all - {f} <= left <= all
    ensures left - {f} == all - {f}
    ensures f in all ==> |left - {f}| == |all| - 1
  {
  }

  lemma OneFrame(f: nat, n: nat)
    requires f < n
    ensures TouchedFrames(f * FRAME_SIZE, f * FRAME_SIZE + FRAME_SIZE, n) == {f}
  {
    TouchedBounds(f * FRAME_SIZE, f * FRAME_SIZE + FRAME_SIZE, n);
  }

  // ---- Boot-time reservations ----

  const STAGE2_RESERVED_SECTORS: nat := 7
  const BOOTINFO_ADDRESS: nat := 0x500
  const BOOTINFO_SIZE: nat := 289

  /** An entry of the firmware's memory map. */
  datatype MapEntry = MapEntry(base: nat, length: nat, usable: bool)

  /** Byte x is in one of the first n entries, and they say it is not usable. */
  ghost predicate Unusable(e820: seq<MapEntry>, n: nat, x: int)
    requires n <= |e820|
  {
    0 <= x < 0x1_0000_0000
    && exists i :: 0 <= i < n && !e820[i].usable && e820[i].base <= x < e820[i].base + e820[i].length
  }

  ghost predicate LowMemoryReserved(rs: seq<Region>) {
    forall x :: 0 <= x < LOW_MEMORY ==> Covers(rs, x)
  }

  ghost predicate Below4G(rs: seq<Region>) {
    forall x :: Covers(rs, x) ==> 0 <= x < WORD
  }

  /** Reservations stay below 4 GiB and leave out one byte. */
  ghost predicate HoleIn(rs: seq<Region>, hole: nat) {
    hole < WORD && !Covers(rs, hole) && Below4G(rs)
  }

  /** Some byte below 4 GiB besides those of frame f is unreserved. */
  ghost predicate Spare(rs: seq<Region>, f: nat) {
    exists h: nat :: h < WORD && !Covers(rs, h) && !(f * FRAME_SIZE <= h < (f + 1) * FRAME_SIZE)
  }

  /** What reserving frame f does to the table: it adds the frame's bytes, and
      nothing else changes, exactly if a byte stays to spare. */
  ghost predicate FrameAdded(was: seq<Region>, now: seq<Region>, f: nat) {
    Below4G(now) && (CoversBoth(was, now, f * FRAME_SIZE, FRAME_SIZE) <==> Spare(was, f))
  }

  lemma FrameRunFits(rs: seq<Region>, f: nat, lo: nat, hi: nat)
    requires IsRun(rs, f * FRAME_SIZE, FRAME_SIZE, lo, hi) && Below4G(rs) && f < 0x10_0000
    ensures hi <= WORD && (hi - lo < WORD <==> Spare(rs, f))
  {
    assert f * FRAME_SIZE <= hi - 1 < f * FRAME_SIZE + FRAME_SIZE || Covers(rs, hi - 1);
    if hi - lo < WORD {
      assert lo > 0 ==> !Covers(rs, lo - 1);
      assert !Covers(rs, if lo > 0 then lo - 1 else hi);
    }
    if Spare(rs, f) {
      var h: nat :| h < WORD && !Covers(rs, h) && !(f * FRAME_SIZE <= h < (f + 1) * FRAME_SIZE);
      RunMissesHole(rs, f * FRAME_SIZE, FRAME_SIZE, lo, hi, h);
    }
  }

  lemma FrameIsAdded(was: seq<Region>, now: seq<Region>, f: nat, lo: nat, hi: nat)
    requires IsRun(was, f * FRAME_SIZE, FRAME_SIZE, lo, hi) && Below4G(was) && f < 0x10_0000
    requires CoversBoth(was, now, f * FRAME_SIZE, FRAME_SIZE) <==> hi - lo < WORD
    requires forall x :: Covers(now, x) ==> Covers(was, x) || lo <= x < hi
    ensures FrameAdded(was, now, f)
  {
    FrameRunFits(was, f, lo, hi);
  }

  /** A byte to spare outside the frame stays one, and reserved memory stays
      reserved. */
  lemma FrameAddedKeeps(was: seq<Region>, now: seq<Region>, f: nat, h: nat)
    requires FrameAdded(was, now, f) && HoleIn(was, h) && !(f * FRAME_SIZE <= h < (f + 1) * FRAME_SIZE)
    ensures HoleIn(now, h) && CoversBoth(was, now, f * FRAME_SIZE, FRAME_SIZE)
    ensures LowMemoryReserved(was) ==> LowMemoryReserved(now)
  {
  }

  /** While another frame is free there is a byte to spare. */
  lemma FreeFrameIsSpare(rs: seq<Region>, free: set<nat>, f: nat, g: nat)
    requires NoneReserved(rs, free) && g in free && g != f && g < 0x10_0000
    ensures Spare(rs, f)
  {
    assert !FrameReserved(rs, g);
    assert !Covers(rs, g * FRAME_SIZE);
  }

  lemma RunMissesHole(rs: seq<Region>, base: nat, length: nat, lo: nat, hi: nat, hole: nat)
    requires IsRun(rs, base, length, lo, hi) && HoleIn(rs, hole)
    requires 0 < length && base + length <= WORD && !(base <= hole < base + length)
    ensures hi - lo < WORD
  {
    assert base <= hi - 1 < base + length || Covers(rs, hi - 1);
    assert lo <= hole < hi ==> Covers(rs, hole);
  }

  /** The table is full, and no entry overlaps or touches frame f. */
  ghost predicate NoSlotFor(rs: seq<Region>, f: nat) {
    |rs| == 256 && Untouched(rs, f * FRAME_SIZE, FRAME_SIZE)
  }

  /** No frame that holds a byte of the kernel image is free. */
  lemma ImageIsUsed(rs: seq<Region>, free: set<nat>, lo: nat, hi: nat)
    requires NoneReserved(rs, free) && lo < hi && forall x :: lo <= x < hi ==> Covers(rs, x)
    ensures forall f :: f in free ==> f * 4096 + 4096 <= lo || hi <= f * 4096
  {
    forall f | f in free ensures f * 4096 + 4096 <= lo || hi <= f * 4096 {
      assert !FrameReserved(rs, f);
      assert Covers(rs, Max(f * 4096, lo)) ==> f * 4096 + 4096 <= lo || hi <= f * 4096;
    }
  }

  /** There is only one first free frame. */
  lemma OneFirstFree(free: set<nat>, hint: nat, n: nat, f: nat)
    requires hint < n && FirstFree(free, hint, n, f)
    ensures forall g :: FirstFree(free, hint, n, g) ==> g == f
  {
  }

  class Manager {
    const table: RegionTable
    var bitmap: array<bv8>
    var frameCount: nat
    var frameHint: nat
    var availableFrames: nat

    /** The frames whose bit is clear. */
    ghost var free: set<nat>

    /** No free frame touches a reserved region. */
    ghost predicate ReservedAreUsed()
      reads this, table
    {
      NoneReserved(table.slots, free)
    }

    ghost predicate BitmapValid()
      reads this, bitmap
    {
      && frameCount <= 0x10_0000
      && BitmapOk(bitmap[..], frameCount, availableFrames, free)
    }

    ghost predicate Valid()
      reads this, bitmap, table
    {
      && table.Valid()
      && BitmapValid()
      && (frameCount > 0 ==> frameHint < frameCount)
      && ReservedAreUsed()
    }

    constructor ()
      ensures Valid() && table.slots == [] && frameCount == 0 && free == {}
      ensures fresh(bitmap) && fresh(table)
    {
      table := new RegionTable();
      bitmap := new bv8[0];
      frameCount, frameHint, availableFrames, free := 0, 0, 0, {};
    }

    /** Marks a frame used; the count follows only if the bit changed. */
    method BmSet(f: nat)
      requires BitmapValid() && f < frameCount
      modifies bitmap, this`availableFrames, this`free
      ensures BitmapValid()
      ensures free == old(free) - {f}
      ensures bitmap[..] == Set(old(bitmap[..]), f)
    {
      ghost var was := bitmap[..];
      SetKeepsOk(was, frameCount, availableFrames, free, f);
      var val := bitmap[f / 8];
      bitmap[f / 8] := WithBit(val, f % 8);
      assert bitmap[..] == Set(was, f);
      free := free - {f};
      if val != bitmap[f / 8] {
        availableFrames := availableFrames - 1;
      }
    }

    method BmClear(f: nat)
      requires BitmapValid() && f < frameCount
      modifies bitmap, this`availableFrames, this`free
      ensures BitmapValid()
      ensures free == old(free) + {f}
      ensures bitmap[..] == Clear(old(bitmap[..]), f)
    {
      ghost var was := bitmap[..];
      ClearKeepsOk(was, frameCount, availableFrames, free, f);
      var val := bitmap[f / 8];
      bitmap[f / 8] := WithoutBit(val, f % 8);
      assert bitmap[..] == Clear(was, f);
      free := free + {f};
      if val != bitmap[f / 8] {
        availableFrames := availableFrames + 1;
      }
    }

    method BmSetFrames(start: nat, end: nat)
      requires BitmapValid() && end <= frameCount
      modifies bitmap, this`availableFrames, this`free
      ensures BitmapValid()
      ensures forall g :: g in free <==> g in old(free) && !(start <= g < end)
    {
      ghost var was := free;
      var f := start;
      while f < end
        invariant if start <= end then start <= f <= end else f == start
        invariant BitmapValid()
        invariant forall g :: g in free <==> g in was && !(start <= g < f)
      {
        BmSet(f);
        f := f + 1;
      }
    }

    method BmClearFrames(start: nat, end: nat)
      requires BitmapValid() && end <= frameCount
      modifies bitmap, this`availableFrames, this`free
      ensures BitmapValid()
      ensures forall g :: g in free <==> g in old(free) || start <= g < end
    {
      ghost var was := free;
      var f := start;
      while f < end
        invariant if start <= end then start <= f <= end else f == start
        invariant BitmapValid()
        invariant forall g :: g in free <==> g in was || start <= g < f
      {
        BmClear(f);
        f := f + 1;
      }
    }

    /** Marks every frame that a byte range touches. */
    method BmSetRangeTouched(base: nat, len: nat)
      requires BitmapValid()
      modifies bitmap, this`availableFrames, this`free
      ensures BitmapValid()
      ensures free == old(free) - TouchedFrames(base, base + len, frameCount)
    {
      if len == 0 {
        return;
      }
      TouchedBounds(base, base + len, frameCount);
      var start, end := base / FRAME_SIZE, (base + len + 0xFFF) / FRAME_SIZE;
      BmSetFrames(start, if end > frameCount then frameCount else end);
    }

    /** Frees every frame that lies wholly inside a byte range. */
    method BmClearRangeFullPages(base: nat, len: nat)
      requires BitmapValid()
      modifies bitmap, this`availableFrames, this`free
      ensures BitmapValid()
      ensures free == old(free) + InsideFrames(base, base + len, frameCount)
    {
      InsideBounds(base, base + len, frameCount);
      if len < FRAME_SIZE {
        return;
      }
      var start, end := (base + 0xFFF) / FRAME_SIZE, (base + len) / FRAME_SIZE;
      if end <= start {
        return;
      }
      BmClearFrames(start, if end > frameCount then frameCount else end);
    }
  
    /** Sizes the bitmap for the memory present, frees all whole frames above
        1 MiB, then takes out the reserved regions and the bitmap itself. False
        means the machine halts: the bitmap does not fit below the top. */
    method Init(availMemoryKib: nat, kernelEnd: nat) returns (ok: bool)
      requires table.Valid() && frameHint == LOW_MEMORY / FRAME_SIZE
      requires LOW_MEMORY < kernelEnd < WORD
      modifies this
      ensures ok ==> Valid() && fresh(bitmap) && frameCount > LOW_MEMORY / FRAME_SIZE
      ensures ok ==> frameCount == Top(availMemoryKib) / 4096 && bitmap.Length == (frameCount + 7) / 8
      ensures ok ==> var at := PageUp(kernelEnd); FreeAre(table.slots, frameCount, at, at + bitmap.Length, free)
      ensures ok <==> PageUp(kernelEnd) + (Top(availMemoryKib) / FRAME_SIZE + 7) / 8 <= Top(availMemoryKib)
    {
      var top := Top(availMemoryKib);
      frameCount := top / FRAME_SIZE;
      var size := (frameCount + 7) / 8;
      var loc := PageUp(kernelEnd);
      if loc + size > top {
        return false;
      }
      FramesAboveLow(kernelEnd, top);
      BuildBitmap(top, loc, size);
      return true;
    }

    /** A bitmap with every bit set. */
    method AllocateBitmap(size: nat)
      requires size == (frameCount + 7) / 8 && frameCount <= 0x10_0000
      modifies this`bitmap, this`availableFrames, this`free
      ensures BitmapValid() && fresh(bitmap) && bitmap.Length == size && free == {}
    {
      bitmap := new bv8[size](_ => 0xFF);
      availableFrames, free := 0, {};
      AllOnes(bitmap[..], frameCount);
    }

    /** Frees every whole frame between 1 MiB and the top of memory. */
    method ClearUsable(top: nat)
      requires BitmapValid() && free == {}
      requires LOW_MEMORY < top <= WORD && frameCount == top / FRAME_SIZE
      modifies bitmap, this`availableFrames, this`free
      ensures BitmapValid() && free == InsideFrames(LOW_MEMORY, frameCount * FRAME_SIZE, frameCount)
    {
      var usable := top - LOW_MEMORY;
      if usable > 0xFFFF_FFFF {
        usable := 0xFFFF_FFFF;
      }
      WholeFrames(top, usable, frameCount);
      BmClearRangeFullPages(LOW_MEMORY, usable);
    }

    method BuildBitmap(top: nat, loc: nat, size: nat)
      requires LOW_MEMORY < top <= WORD && frameCount == top / FRAME_SIZE && size == (frameCount + 7) / 8
      modifies this`bitmap, this`availableFrames, this`free
      ensures BitmapValid() && ReservedAreUsed() && fresh(bitmap) && bitmap.Length == size
      ensures FreeAre(table.slots, frameCount, loc, loc + size, free)
    {
      AllocateBitmap(size);
      ClearUsable(top);
      ReserveListed();
      BmSetRangeTouched(loc, size);
      InitialFrames(table.slots, frameCount, loc, size);
    }

    method TakeRegion(r: Region)
      requires BitmapValid()
      modifies bitmap, this`availableFrames, this`free
      ensures BitmapValid() && free == TakeOut(old(free), r, frameCount)
    {
      if r.reserved {
        BmSetRangeTouched(r.base, r.length);
      }
    }

    /** Marks the frames of every region in the table. */
    method ReserveListed()
      requires BitmapValid()
      modifies bitmap, this`availableFrames, this`free
      ensures BitmapValid()
      ensures free == LeftFree(old(free), table.slots, |table.slots|, frameCount)
    {
      ghost var list := table.slots;
      var i := 0;
      while i < |table.slots|
        invariant 0 <= i <= |table.slots|
        invariant BitmapValid()
        invariant free == LeftFree(old(free), list, i, frameCount)
      {
        TakeRegion(table.slots[i]);
        i := i + 1;
      }
    }
  
    /** One boot-time reservation; any failure halts the machine. The hole is
        a byte that stays unreserved, so no run can fill the address space. */
    method ReserveAtBoot(base: nat, length: nat, ghost hole: nat) returns (ok: bool)
      requires Valid() && frameCount == 0 && base < WORD && length < WORD && base + length <= WORD
      requires HoleIn(table.slots, hole) && !(base <= hole < base + length)
      modifies table, bitmap, this`availableFrames, this`free
      ensures Valid() && frameCount == 0
      ensures ok ==> CoversBoth(old(table.slots), table.slots, base, length)
      ensures HoleIn(table.slots, hole)
    {
      var result;
      ghost var lo, hi;
      result, lo, hi := ReserveRange(base, length, false);
      ok := result == ReserveSuccess || result == UpdatedExistingRegion;
      if ok {
        RunMissesHole(old(table.slots), base, length, lo, hi, hole);
      }
    }

    /** Boot: reserve the first megabyte, the loader's and firmware's areas, the
        kernel image and the firmware's reserved map entries, then build the
        bitmap. False means the machine halts. */
    method MemInit(kernelPhys: nat, kernelEnd: nat, e820: seq<MapEntry>, availMemoryKib: nat, ghost hole: nat)
      returns (ok: bool)
      requires Valid() && frameCount == 0 && table.slots == []
      requires kernelPhys < kernelEnd < WORD && LOW_MEMORY < kernelEnd
      requires LOW_MEMORY <= hole < WORD && !(kernelPhys <= hole < kernelEnd)
      requires forall i :: 0 <= i < |e820| && !e820[i].usable ==>
          !(e820[i].base <= hole < e820[i].base + e820[i].length)
      modifies this, table, bitmap
      ensures ok ==> Valid() && fresh(bitmap) && frameCount > LOW_MEMORY / FRAME_SIZE
      ensures ok ==> LowMemoryReserved(table.slots) && HoleIn(table.slots, hole)
      ensures ok ==> forall x :: Covers(table.slots, x) <==>
        0 <= x < 0x10_0000 || kernelPhys <= x < kernelEnd || Unusable(e820, |e820|, x)
      ensures ok ==> frameCount == Top(availMemoryKib) / 4096 && bitmap.Length == (frameCount + 7) / 8
      ensures ok ==> var at := PageUp(kernelEnd); FreeAre(table.slots, frameCount, at, at + bitmap.Length, free)
      ensures ok ==> forall f :: f in free ==> f * 4096 + 4096 <= kernelPhys || kernelEnd <= f * 4096
    {
      ok := ReserveAtBoot(0, LOW_MEMORY, hole);
      if !ok { return; }
      frameHint := LOW_MEMORY / FRAME_SIZE;
      ok := ReserveAtBoot(0x10000, STAGE2_RESERVED_SECTORS * 512, hole);
      if !ok { return; }
      ok := ReserveAtBoot(0xA0000, 0x20000, hole);
      if !ok { return; }
      ok := ReserveAtBoot(0xC0000, 0x40000, hole);
      if !ok { return; }
      ok := ReserveAtBoot(BOOTINFO_ADDRESS, BOOTINFO_SIZE, hole);
      if !ok { return; }
      ok := ReserveAtBoot(kernelPhys, kernelEnd - kernelPhys, hole);
      if !ok { return; }
      ok := ReserveMap(e820, hole);
      if !ok { return; }
      ok := Init(availMemoryKib, kernelEnd);
      if ok {
        ImageIsUsed(table.slots, free, kernelPhys, kernelEnd);
      }
    }

    /** Reserves every unusable entry of the firmware's memory e820, clamped to
        the 32-bit address space. */
    method ReserveMap(e820: seq<MapEntry>, ghost hole: nat) returns (ok: bool)
      requires Valid() && frameCount == 0 && HoleIn(table.slots, hole)
      requires forall i :: 0 <= i < |e820| && !e820[i].usable ==>
          !(e820[i].base <= hole < e820[i].base + e820[i].length)
      modifies table, bitmap, this`availableFrames, this`free
      ensures Valid() && frameCount == 0 && HoleIn(table.slots, hole)
      ensures ok ==> forall x :: Covers(table.slots, x) <==> Covers(old(table.slots), x) || Unusable(e820, |e820|, x)
    {
      var i := 0;
      while i < |e820|
        invariant 0 <= i <= |e820|
        invariant Valid() && frameCount == 0 && HoleIn(table.slots, hole)
        invariant forall x :: Covers(table.slots, x) <==> Covers(old(table.slots), x) || Unusable(e820, i, x)
      {
        var d := e820[i];
        if !d.usable && d.length != 0 && d.base < WORD {
          var end := if d.base + d.length > WORD then WORD else d.base + d.length;
          var length := (end - d.base) % WORD;
          if length != 0 {
            if |table.slots| >= MEM_REGIONS_MAX {
              return false;
            }
            ok := ReserveAtBoot(d.base, length, hole);
            if !ok { return; }
          }
        }
        i := i + 1;
      }
      return true;
    }

    // ---- Allocation ----

    /** Marks a frame found free, unless the region table says it is reserved. */
    method TakeFrame(f: nat) returns (address: nat, status: AllocResult)
      requires table.Valid() && BitmapValid() && f in free && f < frameCount
      modifies bitmap, this`availableFrames, this`free, this`frameHint
      ensures BitmapValid()
      ensures status == if FrameReserved(table.slots, f) then BitmapInconsistentReserved else AllocSuccess
      ensures status == AllocSuccess ==>
        && address == f * FRAME_SIZE && free == old(free) - {f} && frameHint == (f + 1) % frameCount
        && bitmap[..] == Set(old(bitmap[..]), f)
      ensures status != AllocSuccess ==>
        address == 0 && free == old(free) && frameHint == old(frameHint) && bitmap[..] == old(bitmap[..])
    {
      var reserved := table.IsRegionReserved(f * FRAME_SIZE, FRAME_SIZE);
      if reserved {
        return 0, BitmapInconsistentReserved;
      }
      BmSet(f);
      frameHint := (f + 1) % frameCount;
      return f * FRAME_SIZE, AllocSuccess;
    }

    /** The search: cyclic from the hint, with the shortcut that a byte of
        zeros means all its frames are free. */
    method FindFree() returns (found: bool, f: nat)
      requires BitmapValid() && frameHint < frameCount
      ensures found <==> availableFrames != 0
      ensures found ==> f in free && f < frameCount && FirstFree(free, frameHint, frameCount, f)
    {
      f := frameHint;
      var counted := 0;
      while counted < frameCount
        invariant 0 <= counted <= frameCount && f < frameCount
        invariant counted < frameCount ==> f == Cyclic(frameHint, counted, frameCount)
        invariant forall j :: 0 <= j < counted ==> Cyclic(frameHint, j, frameCount) !in free
      {
        assert Used(bitmap[..], f) <==> HasBit(bitmap[f / 8], f % 8);
        if bitmap[f / 8] == 0 {
          PlainBytes(f % 8);
          return true, f;
        }
        if !HasBit(bitmap[f / 8], f % 8) {
          return true, f;
        }
        f := if f + 1 >= frameCount then 0 else f + 1;
        counted := counted + 1;
      }
      NothingFree(free, frameHint, frameCount);
      return false, 0;
    }

    /** Allocates the first free frame in cyclic order from the hint. */
    method GetNextAvailableBlock() returns (address: nat, status: AllocResult)
      requires Valid()
      modifies bitmap, this`availableFrames, this`free, this`frameHint
      ensures Valid()
      ensures status == NoPagesInitialized <==> frameCount == 0
      ensures status == AllocOom <==> frameCount > 0 && old(availableFrames) == 0
      ensures status in {NoPagesInitialized, AllocOom, AllocSuccess}
      ensures status == AllocSuccess ==>
        && address % FRAME_SIZE == 0
        && FirstFree(old(free), old(frameHint), frameCount, address / FRAME_SIZE)
        && free == old(free) - {address / FRAME_SIZE}
        && frameHint == (address / FRAME_SIZE + 1) % frameCount
        && bitmap[..] == Set(old(bitmap[..]), address / FRAME_SIZE)
      ensures status != AllocSuccess ==>
        address == 0 && free == old(free) && frameHint == old(frameHint) && bitmap[..] == old(bitmap[..])
    {
      if frameCount == 0 {
        return 0, NoPagesInitialized;
      }
      var found, f := FindFree();
      if !found {
        return 0, AllocOom;
      }
      AddressOf(f);
      address, status := TakeFrame(f);
    }
  
    /** True for a page-aligned tracked address whose bit is set. */
    method QueryBitmap(address: nat) returns (used: bool)
      requires BitmapValid()
      ensures used <==> address % FRAME_SIZE == 0 && address / FRAME_SIZE < frameCount && address / FRAME_SIZE !in free
    {
      if address % FRAME_SIZE != 0 {
        return false;
      }
      var f := address / FRAME_SIZE;
      if f >= frameCount {
        return false;
      }
      used := HasBit(bitmap[f / 8], f % 8);
      assert used <==> Used(bitmap[..], f);
    }

    /** Allocates the frame at a given address, if it is there to be had. */
    method AllocSpecificBlock(address: nat) returns (status: AllocResult)
      requires Valid()
      modifies bitmap, this`availableFrames, this`free
      ensures Valid()
      ensures status == UnalignedAddr <==> address % 4096 != 0
      ensures status == OutOfBounds <==> address % 4096 == 0 && address >= frameCount * 4096
      ensures status == AllocReserved <==>
        address % 4096 == 0 && address < frameCount * 4096 && Holds4K(table.slots, address)
      ensures status == AllocSuccess <==> address % 4096 == 0 && address / 4096 in old(free)
      ensures status in {UnalignedAddr, OutOfBounds, AllocReserved, AllocSuccess, AlreadyAllocated}
      ensures free == if status == AllocSuccess then old(free) - {address / FRAME_SIZE} else old(free)
    {
      if address % FRAME_SIZE != 0 {
        return UnalignedAddr;
      }
      var f := address / FRAME_SIZE;
      if f >= frameCount {
        return OutOfBounds;
      }
      var reserved := table.IsRegionReserved(address, FRAME_SIZE);
      if reserved {
        assert FrameReserved(table.slots, f);
        return AllocReserved;
      }
      var used := QueryBitmap(address);
      if used {
        return AlreadyAllocated;
      }
      BmSet(f);
      return AllocSuccess;
    }

    /** Frees the frame at a given address and points the hint at it. */
    method DeallocSpecificBlock(address: nat) returns (status: AllocResult)
      requires Valid()
      modifies bitmap, this`availableFrames, this`free, this`frameHint
      ensures Valid()
      ensures status == UnalignedAddr <==> address % 4096 != 0
      ensures status == NoPagesInitialized <==> address % 4096 == 0 && frameCount == 0
      ensures status == OutOfBounds <==> address % 4096 == 0 && 0 < frameCount && address >= frameCount * 4096
      ensures status == AllocReserved <==>
        address % 4096 == 0 && address < frameCount * 4096 && Holds4K(table.slots, address)
      ensures status == AlreadyFree <==> address % 4096 == 0 && address / 4096 in old(free)
      ensures status == AllocSuccess <==> Returnable(table.slots, frameCount, old(free), address)
      ensures status == AllocSuccess ==>
        && free == old(free) + {address / FRAME_SIZE} && frameHint == address / FRAME_SIZE
        && bitmap[..] == Clear(old(bitmap[..]), address / FRAME_SIZE)
      ensures status != AllocSuccess ==>
          free == old(free) && frameHint == old(frameHint) && bitmap[..] == old(bitmap[..])
    {
      if address % FRAME_SIZE != 0 {
        return UnalignedAddr;
      }
      if frameCount == 0 {
        return NoPagesInitialized;
      }
      var f := address / FRAME_SIZE;
      if f >= frameCount {
        return OutOfBounds;
      }
      var reserved := table.IsRegionReserved(address, FRAME_SIZE);
      if reserved {
        assert FrameReserved(table.slots, f);
        return AllocReserved;
      }
      var used := QueryBitmap(address);
      if !used {
        return AlreadyFree;
      }
      frameHint := f;
      BmClear(f);
      return AllocSuccess;
    }

    /** Reserves a byte range for good. `init` also takes its frames out of the
        bitmap; ranges reserved before the bitmap exists are applied by Init. */
    method ReserveRange(base: nat, length: nat, init: bool)
      returns (result: ReserveResult, ghost lo: nat, ghost hi: nat)
      requires Valid() && base < WORD && length < WORD
      requires init || frameCount == 0
      modifies table, bitmap, this`availableFrames, this`free
      ensures Valid()
      ensures result == InvalidRegionLength <==> length == 0
      ensures result == NoMoreRegionSlots <==>
        length != 0 && |old(table.slots)| == 256 && Untouched(old(table.slots), base, length)
      ensures result in {InvalidRegionLength, NoMoreRegionSlots} ==>
        table.slots == old(table.slots) && free == old(free)
      ensures result in {ReserveSuccess, UpdatedExistingRegion} ==>
        && IsRun(old(table.slots), base, length, lo, hi)
        && (CoversBoth(old(table.slots), table.slots, base, length) <==> hi - lo < WORD)
        && (forall x :: Covers(table.slots, x) ==> Covers(old(table.slots), x) || lo <= x < hi)
        && old(free) - TouchedFrames(base, base + length, frameCount) <= free <= old(free)
        && (hi - lo < WORD ==> free == old(free) - TouchedFrames(base, base + length, frameCount))
    {
      ghost var was := table.slots;
      var entry;
      result, entry, lo, hi := table.ReserveRange(base, length);
      if result != ReserveSuccess && result != UpdatedExistingRegion {
        return;
      }
      ExactIffRunFits(was, table.slots, base, length, lo, hi, entry);
      if init && frameCount != 0 {
        BmSetRangeTouched(entry.base, entry.length);
      }
      RunFrames(was, table.slots, base, length, lo, hi, entry, old(free), frameCount);
    }
  
    /** The first frame, cyclically from the hint, that is neither reserved nor used. */
    method FindUnreserved() returns (found: bool, f: nat)
      requires Valid() && frameHint < frameCount
      ensures found <==> availableFrames != 0
      ensures found ==> f in free && f < frameCount && FirstFree(free, frameHint, frameCount, f)
    {
      f := frameHint;
      var counted := 0;
      while counted < frameCount
        invariant 0 <= counted <= frameCount && f < frameCount
        invariant counted < frameCount ==> f == Cyclic(frameHint, counted, frameCount)
        invariant forall j :: 0 <= j < counted ==> Cyclic(frameHint, j, frameCount) !in free
      {
        AddressOf(f);
        var reserved := table.IsRegionReserved(f * FRAME_SIZE, FRAME_SIZE);
        var used := QueryBitmap(f * FRAME_SIZE);
        assert reserved <==> FrameReserved(table.slots, f);
        if !reserved && !used {
          return true, f;
        }
        f := if f + 1 >= frameCount then 0 else f + 1;
        counted := counted + 1;
      }
      NothingFree(free, frameHint, frameCount);
      return false, 0;
    }

    /** Puts a frame into the region table. */
    method ReserveFrameRange(f: nat) returns (ok: bool)
      requires Valid() && f < frameCount
      modifies table, bitmap, this`availableFrames, this`free
      ensures Valid()
      ensures ok ==> old(free) - {f} <= free <= old(free)
      ensures ok && Below4G(old(table.slots)) ==> FrameAdded(old(table.slots), table.slots, f)
      ensures ok <==> !NoSlotFor(old(table.slots), f)
      ensures !ok ==> free == old(free) && table.slots == old(table.slots)
    {
      OneFrame(f, frameCount);
      var result;
      ghost var lo, hi;
      result, lo, hi := ReserveRange(f * FRAME_SIZE, FRAME_SIZE, true);
      ok := result == ReserveSuccess || result == UpdatedExistingRegion;
      if ok && Below4G(old(table.slots)) {
        FrameIsAdded(old(table.slots), table.slots, f, lo, hi);
      }
    }

    /** Puts a free frame into the region table and out of the bitmap. */
    method ReserveFrame(f: nat) returns (ok: bool)
      requires Valid() && f in free && f < frameCount
      modifies table, bitmap, this`availableFrames, this`free, this`frameHint
      ensures Valid()
      ensures ok ==> free == old(free) - {f}
      ensures ok && Below4G(old(table.slots)) ==> FrameAdded(old(table.slots), table.slots, f)
      ensures ok <==> !NoSlotFor(old(table.slots), f)
      ensures !ok ==> free == old(free) && table.slots == old(table.slots)
    {
      ok := ReserveFrameRange(f);
      if !ok {
        return;
      }
      TakenOnce(old(free), free, f);
      BmSet(f);
      frameHint := (f + 1) % frameCount;
    }

    /** Reserves one frame for good. Exactly that frame leaves the free set,
        also when its region coalesces with its neighbours. */
    method ReservePageframe() returns (status: PagingStatus, address: nat)
      requires Valid() && frameCount > 0
      modifies table, bitmap, this`availableFrames, this`free, this`frameHint
      ensures Valid()
      ensures status == NoMem <==> old(availableFrames) == 0
      ensures status == FrameReserveFailed <==>
        exists f :: FirstFree(old(free), old(frameHint), frameCount, f) && NoSlotFor(old(table.slots), f)
      ensures status == PagingOk ==>
        && address % FRAME_SIZE == 0
        && FirstFree(old(free), old(frameHint), frameCount, address / FRAME_SIZE)
        && free == old(free) - {address / FRAME_SIZE}
        && availableFrames == old(availableFrames) - 1
        && (Below4G(old(table.slots)) ==> FrameAdded(old(table.slots), table.slots, address / FRAME_SIZE))
      ensures status != PagingOk ==>
        free == old(free) && availableFrames == old(availableFrames) && table.slots == old(table.slots)
    {
      var found, f := FindUnreserved();
      if !found {
        return NoMem, 0;
      }
      AddressOf(f);
      OneFirstFree(free, frameHint, frameCount, f);
      var ok := ReserveFrame(f);
      if !ok {
        return FrameReserveFailed, 0;
      }
      return PagingOk, f * FRAME_SIZE;
    }
  }

  /** Taking a frame and giving it back restores bits and count. */
  method AllocThenFree(m: Manager) returns (address: nat, status: AllocResult, status': AllocResult)
    requires m.Valid() && m.frameCount > 0
    modifies m, m.bitmap
    ensures m.Valid()
    ensures status == AllocSuccess ==> status' == AllocSuccess
    ensures m.bitmap == old(m.bitmap) && m.bitmap[..] == old(m.bitmap[..])
    ensures m.free == old(m.free) && m.availableFrames == old(m.availableFrames)
  {
    address, status := m.GetNextAvailableBlock();
    status' := status;
    if status == AllocSuccess {
      ghost var f := address / FRAME_SIZE;
      ClearUndoesSet(old(m.bitmap[..]), f);
      assert !FrameReserved(m.table.slots, f);
      status' := m.DeallocSpecificBlock(address);
    }
  }

  /** With the first megabyte reserved no free frame lies below it. */
  lemma FreeAboveLowMemory(rs: seq<Region>, free: set<nat>)
    requires LowMemoryReserved(rs) && NoneReserved(rs, free)
    ensures forall f :: f in free ==> f >= LOW_MEMORY / FRAME_SIZE
  {
    forall f | f in free ensures f >= LOW_MEMORY / FRAME_SIZE {
      assert f * FRAME_SIZE < LOW_MEMORY ==> Covers(rs, f * FRAME_SIZE) && FrameReserved(rs, f);
    }
  }

  // ---- Every state after boot ----

  datatype Request = GetAny | GetAt(address: nat) | ReturnAt(address: nat) | ReserveOne

  /** Request r, answered with an address or -1, reserved the last bytes below
      4 GiB that were left in the table. */
  ghost predicate FillsUp(rs: seq<Region>, r: Request, address: int) {
    r == ReserveOne && address >= 0 && !Spare(rs, address / FRAME_SIZE)
  }

  /** A request is answered: the state is sound, no inconsistency is reported,
      what is handed out was free and is not any more, nothing else becomes free
      but what is returned, and what was reserved stays so. Stated as one fact. */
  ghost predicate Answered(m: Manager, n: nat, was: seq<Region>, free: set<nat>, request: Request, address: int,
                           status: AllocResult)
    reads m, m.bitmap, m.table
  {
    true == (&& m.Valid() && m.frameCount == n && status != BitmapInconsistentReserved
             && FrameGiven(free, m.free, request, address)
             && (Below4G(was) && !FillsUp(was, request, address) ==>
                   Below4G(m.table.slots) && Kept(was, m.table.slots)))
  }

  ghost predicate FrameGiven(free: set<nat>, free': set<nat>, request: Request, address: int) {
    if address == -1 then
      && (request.GetAny? ==> free == {})
      && (request.GetAt? ==> request.address % 4096 != 0 || request.address / 4096 !in free)
      && (free' == free
          || (request.ReturnAt? && request.address % 4096 == 0 && free' == free + {request.address / 4096}))
    else
      && !request.ReturnAt? && (request.GetAt? ==> address == request.address)
      && 0 <= address && address % 4096 == 0 && address / 4096 in free && free' == free - {address / 4096}
  }

  /** Every reserved byte stays reserved. */
  ghost predicate Kept(was: seq<Region>, now: seq<Region>) {
    forall x :: Covers(was, x) ==> Covers(now, x)
  }

  method ServeAny(m: Manager) returns (address: int, status: AllocResult)
    requires m.Valid() && m.frameCount > 0
    modifies m`availableFrames, m`free, m`frameHint, m.bitmap
    ensures Answered(m, old(m.frameCount), old(m.table.slots), old(m.free), GetAny, address, status)
  {
    var at;
    at, status := m.GetNextAvailableBlock();
    address := if status == AllocSuccess then at else -1;
  }

  method ServeAt(m: Manager, at: nat) returns (address: int, status: AllocResult)
    requires m.Valid() && m.frameCount > 0
    modifies m`availableFrames, m`free, m.bitmap
    ensures Answered(m, old(m.frameCount), old(m.table.slots), old(m.free), GetAt(at), address, status)
  {
    status := m.AllocSpecificBlock(at);
    address := if status == AllocSuccess then at else -1;
  }

  method ServeReturn(m: Manager, at: nat) returns (address: int, status: AllocResult)
    requires m.Valid() && m.frameCount > 0
    modifies m`availableFrames, m`free, m`frameHint, m.bitmap
    ensures Answered(m, old(m.frameCount), old(m.table.slots), old(m.free), ReturnAt(at), address, status)
  {
    status := m.DeallocSpecificBlock(at);
    address := -1;
  }

  method ServeReserve(m: Manager) returns (address: int, status: AllocResult)
    requires m.Valid() && m.frameCount > 0
    modifies m`availableFrames, m`free, m`frameHint, m.bitmap, m.table
    ensures Answered(m, old(m.frameCount), old(m.table.slots), old(m.free), ReserveOne, address, status)
  {
    var reserved, at := m.ReservePageframe();
    address, status := if reserved == PagingOk then at else -1, AllocSuccess;
  }

  /** Serves one request; `address` is what was handed out, or -1. */
  method Serve(m: Manager, request: Request) returns (address: int, status: AllocResult)
    requires m.Valid() && m.frameCount > 0
    modifies m`availableFrames, m`free, m`frameHint, m.bitmap, m.table
    ensures Answered(m, old(m.frameCount), old(m.table.slots), old(m.free), request, address, status)
  {
    match request
    case GetAny => address, status := ServeAny(m);
    case GetAt(at) => address, status := ServeAt(m, at);
    case ReturnAt(at) => address, status := ServeReturn(m, at);
    case ReserveOne => address, status := ServeReserve(m);
  }

  /** What request j handed out has not been returned before request i. */
  ghost predicate Held(requests: seq<Request>, given: seq<int>, j: nat, i: nat)
    requires j < i <= |requests| && j < |given|
  {
    given[j] >= 0 && forall k :: j < k < i ==> requests[k] != ReturnAt(given[j])
  }

  /** No byte of the 4 KiB at an address was reserved. */
  ghost predicate Clean(rs: seq<Region>, address: int) {
    address == -1 || !Holds4K(rs, address)
  }

  lemma FreeIsClean(start: seq<Region>, was: seq<Region>, free: set<nat>, address: int)
    requires Kept(start, was) && NoneReserved(was, free)
    requires 0 <= address && address % 4096 == 0 && address / 4096 in free
    ensures Clean(start, address)
  {
    assert !FrameReserved(was, address / 4096);
  }

  /** What was held stays out of the free frames through one more request. */
  lemma HeldStaysUsed(requests: seq<Request>, given: seq<int>, i: nat, free: set<nat>, free': set<nat>)
    requires i < |requests| && |given| == i + 1 && FrameGiven(free, free', requests[i], given[i])
    requires forall j :: 0 <= j < i ==> given[j] == -1 || (0 <= given[j] && given[j] % 4096 == 0)
    requires forall j :: 0 <= j < i && Held(requests, given, j, i) ==> given[j] / 4096 !in free
    ensures forall j :: 0 <= j <= i && Held(requests, given, j, i + 1) ==> given[j] / 4096 !in free'
    ensures forall j :: 0 <= j < i && Held(requests, given, j, i) ==> given[j] != given[i]
  {
  }

  /** However requests follow each other after boot: no frame is handed out again
      before it is returned, and none that holds a byte reserved at the start is
      handed out at all, until a request reserves the last bytes below 4 GiB:
      request `full`, or none. tables[i] is the table before request i. */
  method ServeAll(m: Manager, requests: seq<Request>)
    returns (given: seq<int>, ghost full: nat, ghost tables: seq<seq<Region>>)
    requires m.Valid() && m.frameCount > 0 && Below4G(m.table.slots)
    modifies m`availableFrames, m`free, m`frameHint, m.bitmap, m.table
    ensures m.Valid() && |given| == |requests| == |tables| && full <= |requests|
    ensures forall j, i :: 0 <= j < i < |given| && Held(requests, given, j, i) ==> given[j] != given[i]
    ensures forall i :: 0 <= i < |given| ==> given[i] >= -1
    ensures forall i :: 0 <= i < |given| && i <= full ==> Clean(old(m.table.slots), given[i])
    ensures full < |requests| ==> FillsUp(tables[full], requests[full], given[full])
    ensures full == |requests| ==> Kept(old(m.table.slots), m.table.slots)
  {
    given, full, tables := [], 0, [];
    ghost var filled := false;
    for i := 0 to |requests|
      invariant m.Valid() && m.frameCount > 0 && |given| == i == |tables|
      invariant if filled then full < i && FillsUp(tables[full], requests[full], given[full])
        else full == i && Below4G(m.table.slots) && Kept(old(m.table.slots), m.table.slots)
      invariant forall j :: 0 <= j < i ==> given[j] == -1 || (0 <= given[j] && given[j] % 4096 == 0)
      invariant forall j :: 0 <= j < i && j <= full ==> Clean(old(m.table.slots), given[j])
      invariant forall j :: 0 <= j < i && Held(requests, given, j, i) ==> given[j] / 4096 !in m.free
      invariant forall j, k :: 0 <= j < k < i && Held(requests, given, j, k) ==> given[j] != given[k]
    {
      tables := tables + [m.table.slots];
      ghost var free, was := m.free, given;
      var address, _ := Serve(m, requests[i]);
      given := given + [address];
      if !filled && address != -1 { FreeIsClean(old(m.table.slots), tables[i], free, address); }
      assert forall j, k :: 0 <= j < k <= i && Held(requests, given, j, k) ==> Held(requests, was, j, k);
      HeldStaysUsed(requests, given, i, free, m.free);
      if !filled {
        if FillsUp(tables[i], requests[i], address) { filled := true; } else { full := i + 1; }
      }
    }
  }

  /** After boot, what is clean of the reserved bytes is no part of the first
      megabyte, of the kernel image or of a map entry that is not usable. */
  lemma CleanAfterBoot(rs: seq<Region>, kernelPhys: nat, kernelEnd: nat, e820: seq<MapEntry>, address: nat)
    requires kernelPhys < kernelEnd && Clean(rs, address)
    requires forall x :: Covers(rs, x) <==>
      0 <= x < 0x10_0000 || kernelPhys <= x < kernelEnd || Unusable(e820, |e820|, x)
    ensures address >= 0x10_0000 && (address + 4096 <= kernelPhys || kernelEnd <= address)
    ensures forall x :: address <= x < address + 4096 ==> !Unusable(e820, |e820|, x)
  {
    assert !Covers(rs, address);
    var x := Max(address, kernelPhys);
    assert x < kernelEnd && x < address + 4096 ==> Covers(rs, x);
    forall x | address <= x < address + 4096 ensures !Unusable(e820, |e820|, x) {
      assert !Covers(rs, x);
    }
  }

  /** From boot on, whatever is asked: no frame of the first megabyte, of the
      kernel image or of unusable memory is handed out, and none twice. */
  method BootAndServe(m: Manager, kernelPhys: nat, kernelEnd: nat, e820: seq<MapEntry>, availMemoryKib: nat,
                      ghost hole: nat, requests: seq<Request>)
    returns (ok: bool, given: seq<int>, ghost full: nat, ghost tables: seq<seq<Region>>)
    requires m.Valid() && m.frameCount == 0 && m.table.slots == []
    requires kernelPhys < kernelEnd < WORD && LOW_MEMORY < kernelEnd
    requires LOW_MEMORY <= hole < WORD && !(kernelPhys <= hole < kernelEnd)
    requires forall i :: 0 <= i < |e820| && !e820[i].usable ==>
        !(e820[i].base <= hole < e820[i].base + e820[i].length)
    modifies m, m.table, m.bitmap
    ensures ok ==> m.Valid() && |given| == |requests| == |tables| && full <= |requests|
    ensures ok ==> forall j, i :: 0 <= j < i < |given| && Held(requests, given, j, i) ==> given[j] != given[i]
    ensures ok ==> forall i :: 0 <= i < |given| && i <= full && given[i] != -1 ==>
      && given[i] >= 0x10_0000 && (given[i] + 4096 <= kernelPhys || kernelEnd <= given[i])
      && forall x :: given[i] <= x < given[i] + 4096 ==> !Unusable(e820, |e820|, x)
    ensures ok && full < |requests| ==> FillsUp(tables[full], requests[full], given[full])
  {
    given, full, tables := [], 0, [];
    ok := m.MemInit(kernelPhys, kernelEnd, e820, availMemoryKib, hole);
    if ok {
      ghost var booted := m.table.slots;
      given, full, tables := ServeAll(m, requests);
      forall i | 0 <= i < |given| && i <= full && given[i] != -1
        ensures given[i] >= 0x10_0000 && (given[i] + 4096 <= kernelPhys || kernelEnd <= given[i])
        ensures forall x :: given[i] <= x < given[i] + 4096 ==> !Unusable(e820, |e820|, x)
      {
        CleanAfterBoot(booted, kernelPhys, kernelEnd, e820, given[i]);
      }
    }
  }
}
