/** What user code finds at a virtual address, said of the words in memory: the
    walk of the 80386 through directory and table (sections 5.2 and 6.4 of the
    Intel 80386 Programmer's Reference Manual). */
module UserMemory {
  import opened Regions
  import opened PageTables
  import opened PageBytes
  import opened FrameBooks
  import opened MapBooks
  import opened Vmas
  import Loading = Exec

  /** An entry that leads on: present, the user's and, for a write, writable. */
  predicate LeadsOn(entry: nat, frames: nat, write: bool) {
    entry % 2 == 1 && entry / 4 % 2 == 1 && (write ==> entry / 2 % 2 == 1) && entry / 0x1000 < frames
  }

  /** The walk to virtual address va of address space m succeeds. */
  predicate Reaches(sp: Space, m: nat, va: nat, write: bool) {
    && m < |sp.live| && m < |sp.pd| && sp.live[m] && va < 0xC000_0000 && sp.pd[m] < |sp.ram|
    && LeadsOn(sp.ram[sp.pd[m]][va / 0x40_0000], |sp.ram|, write)
    && LeadsOn(sp.ram[sp.ram[sp.pd[m]][va / 0x40_0000] / 0x1000][va / 0x1000 % 0x400], |sp.ram|, write)
  }

  /** The frame that the walk ends in. */
  function Reached(sp: Space, m: nat, va: nat): (f: nat)
    requires Reaches(sp, m, va, false)
    ensures f < |sp.ram|
  {
    sp.ram[sp.ram[sp.pd[m]][va / 0x40_0000] / 0x1000][va / 0x1000 % 0x400] / 0x1000
  }

  lemma FirstBit(x: nat)
    ensures x % 4096 % 2 == x % 2
  {
    assert x == 2 * (2048 * (x / 4096)) + x % 4096;
    EvenApart(2048 * (x / 4096), x % 4096);
  }

  lemma SecondBit(x: nat)
    ensures x % 4096 / 2 % 2 == x / 2 % 2
  {
    var q, r := x / 4096, x % 4096;
    assert x == 2 * (2048 * q) + r;
    HalfOfSum(2048 * q, r);
    EvenApart(1024 * q, r / 2);
  }

  lemma HalfOfSum(a: nat, r: nat)
    ensures (2 * a + r) / 2 == a + r / 2
  {
  }

  lemma QuarterOfSum(a: nat, r: nat)
    ensures (4 * a + r) / 4 == a + r / 4
  {
  }

  lemma EvenApart(a: nat, r: nat)
    ensures (2 * a + r) % 2 == r % 2
  {
  }

  lemma ThirdBit(x: nat)
    ensures x % 4096 / 4 % 2 == x / 4 % 2
  {
    var q, r := x / 4096, x % 4096;
    assert x == 4 * (1024 * q) + r;
    QuarterOfSum(1024 * q, r);
    EvenApart(512 * q, r / 4);
  }

  lemma FlagBits(entry: nat)
    ensures Present(entry) <==> entry % 2 == 1
    ensures Writable(entry) <==> entry / 2 % 2 == 1
    ensures ForUser(entry) <==> entry / 4 % 2 == 1
    ensures FrameOf(entry) == entry / 0x1000
  {
    SecondBit(entry);
    ThirdBit(entry);
    FirstBit(entry);
  }

  /** Which page an address is in. */
  lemma PageOfAddress(va: nat)
    ensures va / 0x1000 / 0x400 == va / 0x40_0000 && va / 0x1000 % 0x400 < 0x400
    ensures va < 0xC000_0000 <==> va / 0x40_0000 < 768
  {
  }

  /** The model's access check is that walk. */
  lemma UserMayIff(sp: Space, m: nat, va: nat, write: bool)
    ensures UserMay(sp, m, va / 0x40_0000, va / 0x1000 % 0x400, write) <==> Reaches(sp, m, va, write)
    ensures Reaches(sp, m, va, false) ==> PageFrame(sp, m, va / 0x40_0000, va / 0x1000 % 0x400) == Reached(sp, m, va)
  {
    PageOfAddress(va);
    var i, j := va / 0x40_0000, va / 0x1000 % 0x400;
    if IsLive(sp, m) && i < 768 && sp.pd[m] < |sp.ram| {
      var pde := sp.ram[sp.pd[m]][i];
      FlagBits(pde);
      if pde / 0x1000 < |sp.ram| { FlagBits(sp.ram[pde / 0x1000][j]); }
    }
  }

  /** A read finds the word of that frame, or faults where the walk fails; a
      write changes that word and nothing else, or nothing. */
  lemma AccessIs(sp: Space, m: nat, va: nat, w: nat)
    ensures ReadUser(sp, m, va / 0x40_0000, va / 0x1000 % 0x400, va % 0x1000 / 4)
      == if Reaches(sp, m, va, false) then Word(sp.ram[Reached(sp, m, va)][va % 0x1000 / 4]) else Fault
    ensures WriteUser(sp, m, va / 0x40_0000, va / 0x1000 % 0x400, va % 0x1000 / 4, w).ram
      == if Reaches(sp, m, va, true) then sp.ram[Reached(sp, m, va) := sp.ram[Reached(sp, m, va)][va % 0x1000 / 4 := w]]
         else sp.ram
  {
    UserMayIff(sp, m, va, false);
    UserMayIff(sp, m, va, true);
  }

  /** Bytes go into words least significant first. */
  lemma ByteIs(word: nat)
    ensures ByteIn(word, 0) == word % 0x100
    ensures ByteIn(word, 1) == word / 0x100 % 0x100
    ensures ByteIn(word, 2) == word / 0x1_0000 % 0x100
    ensures ByteIn(word, 3) == word / 0x100_0000 % 0x100
  {
    ByteFurther(word, 0);
    ByteFurther(word, 1);
    ByteFurther(word, 2);
    ByteFurther(word / 0x100, 0);
    ByteFurther(word / 0x100, 1);
    ByteFurther(word / 0x100 / 0x100, 0);
    ShiftTwice(word);
  }

  lemma ByteFurther(word: nat, r: nat)
    ensures ByteIn(word, r + 1) == ByteIn(word / 0x100, r)
  {
  }

  lemma ShiftTwice(word: nat)
    ensures word / 0x100 / 0x100 == word / 0x1_0000 && word / 0x100 / 0x100 / 0x100 == word / 0x100_0000
  {
  }

  /** The byte at a virtual address. */
  function ByteAt(sp: Space, m: nat, va: nat): nat
    requires Reaches(sp, m, va, false)
  {
    var word := sp.ram[Reached(sp, m, va)][va % 0x1000 / 4];
    if va % 4 == 0 then word % 0x100
    else if va % 4 == 1 then word / 0x100 % 0x100
    else if va % 4 == 2 then word / 0x1_0000 % 0x100
    else word / 0x100_0000 % 0x100
  }

  lemma SameQuarter(va: nat)
    ensures va % 0x1000 % 4 == va % 4
  {
    assert va == 4 * (va / 4096 * 1024) + va % 4096;
  }

  lemma PageByteAt(sp: Space, m: nat, va: nat)
    requires Reaches(sp, m, va, false)
    ensures ByteAt(sp, m, va) == PageByte(sp.ram[Reached(sp, m, va)], va % 0x1000)
  {
    SameQuarter(va);
    ByteIs(sp.ram[Reached(sp, m, va)][va % 0x1000 / 4]);
  }

  /** User code reads this byte there, and may write there or not. */
  predicate UserFinds(sp: Space, m: nat, va: nat, byte: nat, writable: bool) {
    true == (&& Reaches(sp, m, va, false) && ByteAt(sp, m, va) == byte
             && (Reaches(sp, m, va, true) <==> writable))
  }

  // ---- Mapped regions ----

  /** A page with the user's flags under a directory entry that allows all. */
  lemma PageReaches(sp: Space, m: nat, kernelPd: nat, va: nat, flags: nat, content: Page)
    requires DirectoryOk(sp, m, kernelPd) && IsLive(sp, m) && va < 0xC000_0000
    requires HasPage(sp, m, va / 0x40_0000, va / 0x1000 % 0x400, flags, content) && (flags == 7 || flags == 5)
    ensures Reaches(sp, m, va, false) && sp.ram[Reached(sp, m, va)] == content
    ensures Reaches(sp, m, va, true) <==> flags == 7
  {
    PageOfAddress(va);
    var i, j := va / 0x40_0000, va / 0x1000 % 0x400;
    assert sp.ram[sp.pd[m]][i] % 4096 == 7 by { FlagBits(sp.ram[sp.pd[m]][i]); }
    UserMayIff(sp, m, va, false);
    UserMayIff(sp, m, va, true);
  }

  /** So is each of its bytes. */
  lemma ByteReaches(sp: Space, m: nat, kernelPd: nat, va: nat, i: nat, j: nat, k: nat, flags: nat, data: seq<nat>)
    requires DirectoryOk(sp, m, kernelPd) && IsLive(sp, m) && va < 0xC000_0000 && IsBytes(data)
    requires i == va / 0x40_0000 && j == va / 0x1000 % 0x400 && k == va % 0x1000
    requires HasPage(sp, m, i, j, flags, PageWith(data)) && (flags == 7 || flags == 5)
    ensures UserFinds(sp, m, va, ByteOr0(data, k), flags == 7)
  {
    PageReaches(sp, m, kernelPd, va, flags, PageWith(data));
    PageByteAt(sp, m, va);
    PageReads(data, k);
  }

  /** Where a byte of a region is. */
  lemma PlaceInRegion(start: nat, q0: nat, o: nat)
    requires start == q0 * 4096
    ensures var va, q := start + o, q0 + o / 0x1000;
      va / 0x40_0000 == q / 1024 && va / 0x1000 % 0x400 == q % 1024 && va % 0x1000 == o % 0x1000
  {
    InRegion(start, q0, o);
    PageOfAddress(start + o);
  }

  lemma InRegion(start: nat, q0: nat, o: nat)
    requires start == q0 * 4096
    ensures (start + o) / 0x1000 == q0 + o / 0x1000 && (start + o) % 0x1000 == o % 0x1000
  {
  }

  /** Byte o of the data is in its page. */
  lemma ChunkByte(data: seq<nat>, o: nat)
    ensures ByteOr0(Chunk(data, o / 0x1000), o % 0x1000) == if o < |data| then data[o] else 0
  {
    var k := o / 0x1000;
    assert o == k * 4096 + o % 0x1000;
  }

  lemma BelowEnd(q0: nat, q1: nat, o: nat)
    requires q0 * 4096 + o < q1 * 4096
    ensures q0 + o / 0x1000 < q1
  {
  }

  lemma RegionPage(b1: Books, b: Books, m: nat, areas: seq<seq<Vma>>, areas': seq<seq<Vma>>, v: Vma,
                   q0: nat, q1: nat, data: seq<nat>, q: nat)
    requires RegionOutcome(b1, b, m, areas, areas', v, q0, q1, data, true) && q0 <= q < q1
    ensures HasPage(b.sp, m, q / 1024, q % 1024, FlagsFor(v.prot), PageWith(Chunk(data, q - q0)))
  {
    assert PageMapped(b.sp, m, q0, q, FlagsFor(v.prot), data);
  }

  lemma FoundAt(sp: Space, m: nat, kernelPd: nat, va: nat, q: nat, k: nat, flags: nat, chunk: seq<nat>, byte: nat,
                may: bool)
    requires DirectoryOk(sp, m, kernelPd) && IsLive(sp, m) && va < 0xC000_0000 && IsBytes(chunk)
    requires va / 0x40_0000 == q / 1024 && va / 0x1000 % 0x400 == q % 1024 && va % 0x1000 == k
    requires HasPage(sp, m, q / 1024, q % 1024, flags, PageWith(chunk)) && flags == (if may then 7 else 5)
    requires ByteOr0(chunk, k) == byte
    ensures UserFinds(sp, m, va, byte, may)
  {
    ByteReaches(sp, m, kernelPd, va, q / 1024, q % 1024, k, flags, chunk);
  }

  lemma RegionFound(b1: Books, b: Books, rs: seq<Region>, m: nat, areas: seq<seq<Vma>>, areas': seq<seq<Vma>>, v: Vma,
                    q0: nat, q1: nat, data: seq<nat>, va: nat, q: nat, n: nat, k: nat, byte: nat)
    requires RegionOutcome(b1, b, m, areas, areas', v, q0, q1, data, true) && Sound(b, rs) && IsLive(b.sp, m)
    requires IsBytes(data) && va < 0xC000_0000 && q0 <= q < q1 && q - q0 == n && ByteOr0(Chunk(data, n), k) == byte
    requires va / 0x40_0000 == q / 1024 && va / 0x1000 % 0x400 == q % 1024 && va % 0x1000 == k
    ensures UserFinds(b.sp, m, va, byte, v.prot / 2 % 2 == 1)
  {
    RegionPage(b1, b, m, areas, areas', v, q0, q1, data, q);
    assert DirectoryOk(b.sp, m, b.kernelPd);
    FoundAt(b.sp, m, b.kernelPd, va, q, k, FlagsFor(v.prot), Chunk(data, n), byte, v.prot / 2 % 2 == 1);
  }

  /** User code reads the data of a region that was mapped with success, then
      zeros, and may write there exactly if the protection says so. */
  lemma RegionReads(b1: Books, b: Books, rs: seq<Region>, m: nat, areas: seq<seq<Vma>>, areas': seq<seq<Vma>>, v: Vma,
                    q0: nat, q1: nat, data: seq<nat>, o: nat)
    requires RegionOutcome(b1, b, m, areas, areas', v, q0, q1, data, true) && Sound(b, rs) && IsLive(b.sp, m)
    requires v.start == q0 * 4096 && v.end == q1 * 4096 <= 0xC000_0000 && IsBytes(data) && v.start + o < v.end
    ensures UserFinds(b.sp, m, v.start + o, if o < |data| then data[o] else 0, v.prot / 2 % 2 == 1)
  {
    PlaceInRegion(v.start, q0, o);
    BelowEnd(q0, q1, o);
    ChunkByte(data, o);
    RegionFound(b1, b, rs, m, areas, areas', v, q0, q1, data, v.start + o, q0 + o / 0x1000, o / 0x1000, o % 0x1000,
                if o < |data| then data[o] else 0);
  }

  /** Byte o of the code page is the image's, or zero behind it, and byte o of the
      stack page above is zero; both writable. */
  predicate ImageByte(sp: Space, m: nat, image: seq<nat>, o: nat) {
    true == (&& UserFinds(sp, m, 0x4000_0000 + o, if o < |image| then image[o] else 0, true)
             && UserFinds(sp, m, 0x4000_1000 + o, 0, true))
  }

  /** After exec user code finds the image at 1 GiB, zeros behind it, and a zeroed
      stack page above, all of it writable. */
  lemma ImageIsThere(sp: Space, m: nat, kernelPd: nat, image: seq<nat>, o: nat)
    requires Loading.ImageLoaded(sp, m, image) && IsLive(sp, m) && DirectoryOk(sp, m, kernelPd) && IsBytes(image)
    requires o < 0x1000
    ensures ImageByte(sp, m, image, o)
  {
    PlaceInRegion(0x4000_0000, 0x4_0000, o);
    PlaceInRegion(0x4000_1000, 0x4_0001, o);
    ByteReaches(sp, m, kernelPd, 0x4000_0000 + o, 256, 0, o, 7, image);
    ByteReaches(sp, m, kernelPd, 0x4000_1000 + o, 256, 1, o, 7, []);
  }
}
