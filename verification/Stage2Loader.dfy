/** The kernel load loop of the stage2 boot loader: it follows a FAT12 cluster
    chain, copies the clusters to memory from 1 MiB on, and keeps a running
    CRC-32 of the bytes it copies. */
module Stage2Loader {
  import opened Crc32

  const BYTES_PER_SECTOR: nat := 512
  const LOAD_ADDRESS: nat := 0x10_0000

  const FAT12_MIN_VALID: nat := 0x002
  const FAT12_RESERVED_LO: nat := 0xFF0
  const FAT12_BAD: nat := 0xFF7
  const FAT12_EOC_MIN: nat := 0xFF8

  /** One 512-byte disk sector. */
  type Sector = s: seq<bv8> | |s| == BYTES_PER_SECTOR witness seq(BYTES_PER_SECTOR, _ => 0)

  /** Sectors reachable through the 16-bit block numbers of the loader. */
  type Disk = d: seq<Sector> | |d| == 0x1_0000 witness seq(0x1_0000, _ => BLANK)

  const BLANK: Sector := seq(BYTES_PER_SECTOR, _ => 0)

  /** A byte of the file allocation table, as a number. */
  type TableByteValue = x: int | 0 <= x < 0x100

  /** The 64 KiB segment that holds the file allocation table. */
  type FatSegment = s: seq<TableByteValue> | |s| == 0x1_0000 witness seq(0x1_0000, _ => 0)

  /** A disk with its table in memory: first data sector, and sectors per
      cluster as a byte that the loader's 16-bit shift turns into a byte count. */
  datatype Volume = Volume(disk: Disk, fat: FatSegment, dataStart: nat, sectorsPerCluster: nat)

  predicate ValidVolume(v: Volume) { v.dataStart < 0x1_0000 && 1 <= v.sectorsPerCluster <= 127 }

  datatype Outcome = Loaded | ReadError | SizeMismatch

  // ---- FAT12 entries ----

  /** The 16-bit little-endian word at byte offset n + n/2 of the table, cut
      down to its high or low twelve bits by the parity of n. */
  function NextCluster(fat: FatSegment, n: nat): (r: nat)
    requires n < 0x1_0000
    ensures r < 0x1000
  {
    var at := (n + n / 2) % 0x1_0000;
    EntryOf(fat[at], fat[(at + 1) % 0x1_0000], n % 2 == 1)
  }

  function EntryOf(low: nat, high: nat, odd: bool): (r: nat)
    requires low < 0x100 && high < 0x100
  {
    if odd then (low + 0x100 * high) / 16 % 0x1000 else (low + 0x100 * high) % 0x1000
  }

  /** An even entry is a byte and the low half of the next, as its high bits; an
      odd one is the high half of a byte, as its low bits, and the next byte. */
  lemma EntryIs(low: nat, high: nat)
    requires low < 0x100 && high < 0x100
    ensures EntryOf(low, high, false) == high % 16 * 256 + low
    ensures EntryOf(low, high, true) == high * 16 + low / 16
  {
    assert low + 0x100 * high == high / 16 * 0x1000 + (high % 16 * 256 + low);
    assert low + 0x100 * high == 16 * (high * 16) + low;
  }

  /** The on-disk packing: two 12-bit entries in three bytes. */
  function PackPair(lo: nat, hi: nat): (r: seq<TableByteValue>)
    requires lo < 0x1000 && hi < 0x1000
    ensures |r| == 3
  {
    [lo % 0x100, lo / 0x100 + hi % 0x10 * 0x10, hi / 0x10]
  }

  function Pack(entries: seq<nat>): (r: seq<TableByteValue>)
    requires |entries| % 2 == 0 && forall i :: 0 <= i < |entries| ==> entries[i] < 0x1000
    ensures |r| == |entries| / 2 * 3
  {
    if entries == [] then [] else PackPair(entries[0], entries[1]) + Pack(entries[2..])
  }

  lemma PairDecodes(lo: nat, hi: nat)
    requires lo < 0x1000 && hi < 0x1000
    ensures var p := PackPair(lo, hi); EntryOf(p[0], p[1], false) == lo && EntryOf(p[1], p[2], true) == hi
  {
    var p := PackPair(lo, hi);
    var a: nat, b: nat, c: nat := p[0], p[1], p[2];
    assert a + 0x100 * b == lo + 0x1000 * (hi % 0x10);
    assert b + 0x100 * c == lo / 0x100 + 0x10 * hi;
  }

  lemma {:induction false} PackAt(entries: seq<nat>, k: nat)
    requires |entries| % 2 == 0 && 2 * k < |entries| && forall i :: 0 <= i < |entries| ==> entries[i] < 0x1000
    ensures |Pack(entries)| >= 3 * k + 3
    ensures Pack(entries)[3 * k..3 * k + 3] == PackPair(entries[2 * k], entries[2 * k + 1])
  {
    if k != 0 {
      PackAt(entries[2..], k - 1);
      assert Pack(entries)[3..] == Pack(entries[2..]);
      assert Pack(entries)[3 * k..3 * k + 3] == Pack(entries[2..])[3 * (k - 1)..3 * (k - 1) + 3];
    }
  }

  /** The decoder inverts the packing, for even and odd clusters alike. */
  lemma NextClusterInvertsPack(entries: seq<nat>, fat: FatSegment, n: nat)
    requires |entries| % 2 == 0 && n < |entries| <= 0x1000
    requires forall i :: 0 <= i < |entries| ==> entries[i] < 0x1000
    requires Pack(entries) <= fat
    ensures NextCluster(fat, n) == entries[n]
  {
    var k := n / 2;
    PackAt(entries, k);
    var p := Pack(entries)[3 * k..3 * k + 3];
    assert p[0] == fat[3 * k] && p[1] == fat[3 * k + 1] && p[2] == fat[3 * k + 2];
    PairDecodes(entries[2 * k], entries[2 * k + 1]);
    NextClusterAt(fat, n, k);
  }

  /** Two entries share three bytes. */
  lemma NextClusterAt(fat: FatSegment, n: nat, k: nat)
    requires n < 0x1000 && k == n / 2
    ensures n % 2 == 0 ==> n == 2 * k && NextCluster(fat, n) == EntryOf(fat[3 * k], fat[3 * k + 1], false)
    ensures n % 2 == 1 ==> n == 2 * k + 1 && NextCluster(fat, n) == EntryOf(fat[3 * k + 1], fat[3 * k + 2], true)
  {
    EntryOffset(n, k);
  }

  lemma EntryOffset(n: nat, k: nat)
    requires n < 0x1000 && k == n / 2
    ensures n % 2 == 0 ==> n == 2 * k
    ensures n % 2 == 1 ==> n == 2 * k + 1
    ensures (n + n / 2) % 0x1_0000 == 3 * k + n % 2
    ensures ((n + n / 2) % 0x1_0000 + 1) % 0x1_0000 == 3 * k + n % 2 + 1
  {
  }

  // ---- The cluster chain, as the file system defines it ----

  function ClusterBytes(v: Volume): (n: nat)
    requires ValidVolume(v)
    ensures n > 0
  {
    v.sectorsPerCluster * BYTES_PER_SECTOR
  }

  /** The sectors that k clusters take. */
  function SectorsOf(v: Volume, k: nat): (n: nat) { if k == 0 then 0 else SectorsOf(v, k - 1) + v.sectorsPerCluster }

  lemma {:induction false} SectorsOfIs(v: Volume, k: nat)
    ensures SectorsOf(v, k) == k * v.sectorsPerCluster
  {
    if k > 0 {
      SectorsOfIs(v, k - 1);
      assert k * v.sectorsPerCluster == (k - 1) * v.sectorsPerCluster + v.sectorsPerCluster;
    }
  }

  lemma {:induction false} SectorsOfGrow(v: Volume, m: nat, n: nat)
    requires m < n
    ensures SectorsOf(v, m) + v.sectorsPerCluster <= SectorsOf(v, n)
  {
    if m < n - 1 { SectorsOfGrow(v, m, n - 1); }
  }

  /** The offset in a file of its k-th cluster. */
  function Offset(v: Volume, k: nat): (o: nat) { SectorsOf(v, k) * BYTES_PER_SECTOR }

  /** The first sector of a cluster in the loader's 16-bit arithmetic. */
  function FirstSector(v: Volume, cluster: nat): (lba: nat)
    ensures lba < 0x1_0000
  {
    (SectorsOf(v, (cluster + 0xFFFE) % 0x1_0000) + v.dataStart) % 0x1_0000
  }

  /** The contents of n consecutive sectors, block numbers wrapping at 16 bits. */
  function Sectors(disk: Disk, lba: nat, n: nat): (r: seq<bv8>)
    ensures |r| == n * BYTES_PER_SECTOR
  {
    if n == 0 then [] else Sectors(disk, lba, n - 1) + disk[(lba + n - 1) % 0x1_0000]
  }

  function Cluster(v: Volume, cluster: nat): (r: seq<bv8>)
    requires ValidVolume(v)
    ensures |r| == ClusterBytes(v)
  {
    Sectors(v.disk, FirstSector(v, cluster), v.sectorsPerCluster)
  }

  /** The k-th cluster of the chain that starts at `start`. */
  function ChainAt(v: Volume, start: nat, k: nat): (r: nat)
    requires start < 0x1_0000
    ensures r < 0x1_0000
  {
    if k == 0 then start else NextCluster(v.fat, ChainAt(v, start, k - 1))
  }

  /** The data of the first n clusters of the chain, end to end. */
  function ChainData(v: Volume, start: nat, n: nat): (r: seq<bv8>)
    requires ValidVolume(v) && start < 0x1_0000
    ensures |r| == Offset(v, n)
  {
    if n == 0 then [] else ChainData(v, start, n - 1) + Cluster(v, ChainAt(v, start, n - 1))
  }

  predicate IsDataCluster(c: nat) { FAT12_MIN_VALID <= c < FAT12_RESERVED_LO }

  /** How many clusters a file of this size occupies. */
  function ClustersFor(v: Volume, size: nat): (n: nat)
    requires ValidVolume(v)
    ensures Offset(v, n) >= size
    ensures n > 0 ==> Offset(v, n - 1) < size
    decreases size
  {
    if size == 0 then 0
    else if size <= ClusterBytes(v) then 1
    else 1 + ClustersFor(v, size - ClusterBytes(v))
  }

  lemma {:induction false} ChainDataExtends(v: Volume, start: nat, m: nat, n: nat)
    requires ValidVolume(v) && start < 0x1_0000 && m <= n
    ensures ChainData(v, start, m) <= ChainData(v, start, n)
    decreases n
  {
    if m < n { ChainDataExtends(v, start, m, n - 1); }
  }

  /** The file's contents: the first `size` bytes of its chain. */
  function FileBytes(v: Volume, start: nat, size: nat): (r: seq<bv8>)
    requires ValidVolume(v) && start < 0x1_0000
    ensures |r| == size
  {
    ChainData(v, start, ClustersFor(v, size))[..size]
  }

  /** A cluster belongs to the file exactly if it starts before the file's end. */
  lemma StartsBeforeEnd(v: Volume, size: nat, k: nat)
    requires ValidVolume(v)
    ensures k < ClustersFor(v, size) <==> Offset(v, k) < size
  {
    var n := ClustersFor(v, size);
    if k < n - 1 { SectorsOfGrow(v, k, n - 1); }
    if n < k { SectorsOfGrow(v, n, k); }
  }

  /** One more cluster continues the file's contents. */
  lemma FileBytesGrow(v: Volume, start: nat, size: nat, k: nat)
    requires ValidVolume(v) && start < 0x1_0000 && k < ClustersFor(v, size)
    requires Offset(v, k) <= size
    ensures var n := Min(size - Offset(v, k), ClusterBytes(v));
      FileBytes(v, start, size)[..Offset(v, k) + n]
      == FileBytes(v, start, size)[..Offset(v, k)] + Cluster(v, ChainAt(v, start, k))[..n]
  {
    ChainGrows(v, start, ClustersFor(v, size), size, k, Min(size - Offset(v, k), ClusterBytes(v)));
  }

  lemma ChainGrows(v: Volume, start: nat, count: nat, size: nat, k: nat, n: nat)
    requires ValidVolume(v) && start < 0x1_0000 && k < count && size <= Offset(v, count)
    requires n <= ClusterBytes(v) && Offset(v, k) + n <= size
    ensures var all := ChainData(v, start, count)[..size];
      all[..Offset(v, k) + n] == all[..Offset(v, k)] + Cluster(v, ChainAt(v, start, k))[..n]
  {
    ChainContinues(v, start, k, count);
    PrefixGrows(ChainData(v, start, count), ChainData(v, start, k), Cluster(v, ChainAt(v, start, k)), size, n);
  }

  lemma ChainContinues(v: Volume, start: nat, k: nat, n: nat)
    requires ValidVolume(v) && start < 0x1_0000 && k < n
    ensures ChainData(v, start, k) + Cluster(v, ChainAt(v, start, k)) <= ChainData(v, start, n)
  {
    ChainDataExtends(v, start, k + 1, n);
  }

  lemma PrefixGrows(all: seq<bv8>, part: seq<bv8>, more: seq<bv8>, size: nat, n: nat)
    requires part + more <= all && size <= |all| && n <= |more| && |part| + n <= size
    ensures all[..size][..|part| + n] == all[..size][..|part|] + more[..n]
  {
    assert all[..|part| + n] == part + more[..n];
  }

  // ---- Where the bytes of a file are on the disk ----

  /** The whole of cluster c lies within the sectors that 16 bits can number. */
  predicate OnDisk(v: Volume, c: nat) {
    2 <= c && v.dataStart + (c - 1) * v.sectorsPerCluster <= 0x1_0000
  }

  /** Cluster 2 is the first of the data area. The 16-bit arithmetic finds the
      right sector if and only if 16 bits can hold it. */
  lemma FirstSectorIff(v: Volume, c: nat)
    requires ValidVolume(v) && 2 <= c < 0x1_0000
    ensures FirstSector(v, c) == v.dataStart + (c - 2) * v.sectorsPerCluster <==>
      v.dataStart + (c - 2) * v.sectorsPerCluster < 0x1_0000
  {
    assert (c + 0xFFFE) % 0x1_0000 == c - 2;
    SectorsOfIs(v, c - 2);
  }

  /** Data that starts at the last sector: the second cluster is taken from the
      boot sector. */
  lemma FarSectorWraps(v: Volume)
    requires v.dataStart == 0xFFFF && v.sectorsPerCluster == 1
    ensures ValidVolume(v) && FirstSector(v, 3) == 0
  {
    assert SectorsOf(v, 1) == 1;
  }

  /** A cluster's sectors follow those of the clusters before it. */
  lemma ClusterStarts(v: Volume, c: nat)
    requires ValidVolume(v) && OnDisk(v, c) && c < 0x1_0000
    ensures FirstSector(v, c) == v.dataStart + SectorsOf(v, c - 2)
    ensures FirstSector(v, c) + v.sectorsPerCluster <= 0x1_0000
  {
    assert (c + 0xFFFE) % 0x1_0000 == c - 2;
    SectorsOfIs(v, c - 1);
  }

  /** Different clusters have no sector in common. */
  lemma ClustersApart(v: Volume, c: nat, d: nat, i: nat, j: nat)
    requires ValidVolume(v) && OnDisk(v, c) && OnDisk(v, d) && c < d < 0x1_0000
    requires i < v.sectorsPerCluster && j < v.sectorsPerCluster
    ensures FirstSector(v, c) + i < FirstSector(v, d) + j
  {
    ClusterStarts(v, c);
    ClusterStarts(v, d);
    SectorsOfGrow(v, c - 2, d - 2);
  }

  lemma {:induction false} SectorsAt(disk: Disk, lba: nat, n: nat, o: nat)
    requires o < n * 512
    ensures Sectors(disk, lba, n)[o] == disk[(lba + o / 512) % 0x1_0000][o % 512]
  {
    if o < (n - 1) * 512 {
      SectorsAt(disk, lba, n - 1, o);
    } else {
      assert o / 512 == n - 1 && o % 512 == o - (n - 1) * 512;
    }
  }

  lemma SectorsFit(disk: Disk, lba: nat, n: nat, o: nat)
    requires o < n * 512 && lba + n <= 0x1_0000
    ensures lba + o / 512 < 0x1_0000 && Sectors(disk, lba, n)[o] == disk[lba + o / 512][o % 512]
  {
    SectorsAt(disk, lba, n, o);
    assert o / 512 < n;
  }

  lemma ClusterAt(v: Volume, c: nat, o: nat)
    requires ValidVolume(v) && o < ClusterBytes(v) && FirstSector(v, c) + v.sectorsPerCluster <= 0x1_0000
    ensures FirstSector(v, c) + o / 512 < 0x1_0000
    ensures Cluster(v, c)[o] == v.disk[FirstSector(v, c) + o / 512][o % 512]
  {
    SectorsFit(v.disk, FirstSector(v, c), v.sectorsPerCluster, o);
  }

  lemma ClusterOnDisk(v: Volume, c: nat, o: nat)
    requires ValidVolume(v) && OnDisk(v, c) && c < 0x1_0000 && o < ClusterBytes(v)
    ensures FirstSector(v, c) + o / 512 < 0x1_0000
    ensures Cluster(v, c)[o] == v.disk[FirstSector(v, c) + o / 512][o % 512]
  {
    ClusterStarts(v, c);
    ClusterAt(v, c, o);
  }

  lemma {:induction false} ChainDataAt(v: Volume, start: nat, n: nat, k: nat, o: nat)
    requires ValidVolume(v) && start < 0x1_0000 && k < n && o < ClusterBytes(v)
    ensures Offset(v, k) + o < Offset(v, n)
    ensures ChainData(v, start, n)[Offset(v, k) + o] == Cluster(v, ChainAt(v, start, k))[o]
  {
    if k < n - 1 { ChainDataAt(v, start, n - 1, k, o); }
  }

  /** Every cluster that the file needs is on the disk. */
  ghost predicate AllOnDisk(v: Volume, start: nat, size: nat)
    requires ValidVolume(v) && start < 0x1_0000
  {
    forall k :: 0 <= k < ClustersFor(v, size) ==> OnDisk(v, ChainAt(v, start, k))
  }

  /** Byte o of cluster k of the file: which sector it is in, and where in it. */
  lemma FileByteIs(v: Volume, start: nat, size: nat, k: nat, o: nat)
    requires ValidVolume(v) && start < 0x1_0000 && AllOnDisk(v, start, size)
    requires o < ClusterBytes(v) && Offset(v, k) + o < size
    ensures var sector := FirstSector(v, ChainAt(v, start, k)) + o / 512;
      sector < 0x1_0000 && FileBytes(v, start, size)[Offset(v, k) + o] == v.disk[sector][o % 512]
  {
    StartsBeforeEnd(v, size, k);
    ChainDataAt(v, start, ClustersFor(v, size), k, o);
    ClusterOnDisk(v, ChainAt(v, start, k), o);
  }

  /** A file in the first clusters of the data area, one after the other, is the
      data area from its first byte on. */
  lemma FirstFileIs(v: Volume, size: nat, o: nat)
    requires ValidVolume(v) && o < size && AllOnDisk(v, 2, size)
    requires forall k :: 0 <= k < ClustersFor(v, size) ==> ChainAt(v, 2, k) == k + 2
    ensures v.dataStart + o / 512 < 0x1_0000 && FileBytes(v, 2, size)[o] == v.disk[v.dataStart + o / 512][o % 512]
  {
    var k, r := Split(v, o);
    StartsBeforeEnd(v, size, k);
    var c := ChainAt(v, 2, k);
    assert OnDisk(v, c);
    ClusterStarts(v, c);
    FileByteIs(v, 2, size, k, r);
    SameByte(v.disk, FirstSector(v, c) + r / 512, r, v.dataStart + o / 512, o);
  }

  lemma SameByte(disk: Disk, a: nat, r: nat, b: nat, o: nat)
    requires a == b < 0x1_0000 && r % 512 == o % 512
    ensures disk[a][r % 512] == disk[b][o % 512]
  {
  }

  /** A byte's place by cluster and by sector. */
  lemma {:induction false} Split(v: Volume, o: nat) returns (k: nat, r: nat)
    requires ValidVolume(v)
    ensures r < ClusterBytes(v) && o == Offset(v, k) + r
    ensures o / 512 == SectorsOf(v, k) + r / 512 && o % 512 == r % 512
  {
    if o < ClusterBytes(v) {
      k, r := 0, o;
    } else {
      k, r := Split(v, o - ClusterBytes(v));
      k := k + 1;
    }
  }

  /** Every link the file needs leads to a data cluster. */
  ghost predicate ChainIsWhole(v: Volume, start: nat, size: nat)
    requires ValidVolume(v) && start < 0x1_0000
  {
    forall k :: 1 <= k < ClustersFor(v, size) ==> IsDataCluster(ChainAt(v, start, k))
  }

  /** The chain breaks off at link k, before the file is complete. */
  ghost predicate BreaksAt(v: Volume, start: nat, size: nat, k: nat)
    requires ValidVolume(v) && start < 0x1_0000
  {
    && 1 <= k < ClustersFor(v, size)
    && !IsDataCluster(ChainAt(v, start, k))
    && forall j :: 1 <= j < k ==> IsDataCluster(ChainAt(v, start, j))
  }

  /** The first k links lead to data clusters. */
  ghost predicate Followed(v: Volume, start: nat, k: nat)
    requires start < 0x1_0000
  {
    forall j :: 1 <= j <= k ==> IsDataCluster(ChainAt(v, start, j))
  }

  lemma FollowedIsWhole(v: Volume, start: nat, size: nat, k: nat)
    requires ValidVolume(v) && start < 0x1_0000 && Followed(v, start, k) && ClustersFor(v, size) <= k + 1
    ensures ChainIsWhole(v, start, size)
  {
  }

  lemma FollowedOn(v: Volume, start: nat, size: nat, k: nat)
    requires ValidVolume(v) && start < 0x1_0000 && Followed(v, start, k) && k + 1 < ClustersFor(v, size)
    ensures if IsDataCluster(ChainAt(v, start, k + 1)) then Followed(v, start, k + 1)
            else BreaksAt(v, start, size, k + 1) && !ChainIsWhole(v, start, size)
  {
  }

  /** `image` sits in memory from `address` on. */
  ghost predicate Holds(memory: map<nat, bv8>, address: nat, image: seq<bv8>) {
    forall a :: address <= a < address + |image| ==> a in memory && memory[a] == image[a - address]
  }

  /** Memory outside a range is as it was. */
  ghost predicate SameOutside(before: map<nat, bv8>, after: map<nat, bv8>, lo: nat, hi: nat) {
    forall a :: a < lo || a >= hi ==> (a in after <==> a in before) && (a in before ==> after[a] == before[a])
  }

  function Min(a: nat, b: nat): nat { if a <= b then a else b }

  // ---- How much a round copies, in 16-bit registers ----

  /** The count in cx: a cluster's bytes, or what remains of the file. */
  function CopyCount(sectorsPerCluster: nat, remaining: nat): (cx: nat)
    ensures cx < 0x1_0000 && cx <= remaining
  {
    var dx := sectorsPerCluster * 0x200 % 0x1_0000;
    if remaining / 0x1_0000 != 0 then dx
    else if remaining % 0x1_0000 <= dx then remaining % 0x1_0000
    else dx
  }

  /** A count of zero makes the loop instruction go round 65536 times, after which
      the 16-bit source index is zero again; so this is also what the remaining
      count falls by. The count is right if and only if a cluster has fewer than
      65536 bytes or the rest of the file is within the truncated count. */
  lemma CopiedIff(sectorsPerCluster: nat, remaining: nat)
    requires 0 < sectorsPerCluster < 256
    ensures CopyCount(sectorsPerCluster, remaining) == Min(remaining, sectorsPerCluster * BYTES_PER_SECTOR) <==>
      sectorsPerCluster <= 127 || remaining <= sectorsPerCluster * 0x200 % 0x1_0000
  {
  }

  /** What remains of the file after k rounds. */
  function Remaining(sectorsPerCluster: nat, size: nat, k: nat): nat {
    if k == 0 then size
    else var r := Remaining(sectorsPerCluster, size, k - 1); r - CopyCount(sectorsPerCluster, r)
  }

  lemma CountIsZeroIff(sectorsPerCluster: nat, remaining: nat)
    requires remaining > 0
    ensures CopyCount(sectorsPerCluster, remaining) == 0 <==> sectorsPerCluster % 128 == 0
  {
    assert sectorsPerCluster * 0x200 % 0x1_0000 == sectorsPerCluster % 128 * 0x200;
  }

  lemma {:induction false} NeverFalls(sectorsPerCluster: nat, size: nat, k: nat)
    requires sectorsPerCluster % 128 == 0
    ensures Remaining(sectorsPerCluster, size, k) == size
  {
    if k > 0 {
      NeverFalls(sectorsPerCluster, size, k - 1);
      if size > 0 { CountIsZeroIff(sectorsPerCluster, size); }
    }
  }

  lemma {:induction false} FallsEachRound(sectorsPerCluster: nat, size: nat, k: nat)
    requires sectorsPerCluster % 128 != 0
    ensures Remaining(sectorsPerCluster, size, k) == 0 || Remaining(sectorsPerCluster, size, k) + k <= size
  {
    if k > 0 {
      FallsEachRound(sectorsPerCluster, size, k - 1);
      var r := Remaining(sectorsPerCluster, size, k - 1);
      if r > 0 { CountIsZeroIff(sectorsPerCluster, r); }
    }
  }

  /** With no link broken, the rounds come to an end if and only if the shifted
      byte count is not zero; it is for 128 sectors per cluster. */
  lemma LoadEndsIff(sectorsPerCluster: nat, size: nat)
    requires size > 0
    ensures (exists k :: Remaining(sectorsPerCluster, size, k) == 0) <==> sectorsPerCluster % 128 != 0
  {
    if sectorsPerCluster % 128 == 0 {
      forall k: nat ensures Remaining(sectorsPerCluster, size, k) != 0 { NeverFalls(sectorsPerCluster, size, k); }
    } else {
      FallsEachRound(sectorsPerCluster, size, size + 1);
    }
  }

  /** 128 sectors to a cluster: what remains of a file never falls. */
  lemma BigClusterNeverLoads(size: nat, k: nat)
    requires size > 0
    ensures Remaining(128, size, k) == size
  {
    NeverFalls(128, size, k);
  }

  lemma FoldOneMore<R>(step: (R, bv8) -> R, r: R, data: seq<bv8>, b: bv8)
    ensures Fold(step, r, data + [b]) == step(Fold(step, r, data), b)
  {
    FoldSplits(step, r, data, [b]);
  }

  lemma NextSector(lba: nat, k: nat)
    ensures ((lba + k) % 0x1_0000 + 1) % 0x1_0000 == (lba + k + 1) % 0x1_0000
  {
  }

  /** A checksum kept while copying: its first value and its update per byte. */
  datatype Running<!R> = Running(initial: R, step: (R, bv8) -> R)

  /** The image so far is in memory and in the checksum, and nothing else has
      changed; stated as one fact. */
  ghost predicate ImageSoFar<R>(sum: Running<R>, ram: map<nat, bv8>, memory: map<nat, bv8>, crc: R, done: seq<bv8>) {
    true == (&& Holds(memory, LOAD_ADDRESS, done)
             && SameOutside(ram, memory, LOAD_ADDRESS, LOAD_ADDRESS + |done|)
             && crc == Fold(sum.step, sum.initial, done))
  }

  lemma HoldsMore(memory: map<nat, bv8>, memory': map<nat, bv8>, address: nat, done: seq<bv8>, more: seq<bv8>)
    requires Holds(memory, address, done) && Holds(memory', address + |done|, more)
    requires SameOutside(memory, memory', address + |done|, address + |done| + |more|)
    ensures Holds(memory', address, done + more)
  {
    forall a | address <= a < address + |done + more| ensures a in memory' && memory'[a] == (done + more)[a - address] {
      if a < address + |done| { assert a in memory && memory[a] == done[a - address]; }
    }
  }

  lemma OutsideMore(ram: map<nat, bv8>, memory: map<nat, bv8>, memory': map<nat, bv8>, lo: nat, mid: nat, hi: nat)
    requires SameOutside(ram, memory, lo, mid) && SameOutside(memory, memory', mid, hi) && lo <= mid <= hi
    ensures SameOutside(ram, memory', lo, hi)
  {
  }

  lemma ImageGrows<R>(sum: Running<R>, ram: map<nat, bv8>, memory: map<nat, bv8>, memory': map<nat, bv8>,
                      crc: R, done: seq<bv8>, more: seq<bv8>)
    requires ImageSoFar(sum, ram, memory, crc, done)
    requires Holds(memory', LOAD_ADDRESS + |done|, more)
    requires SameOutside(memory, memory', LOAD_ADDRESS + |done|, LOAD_ADDRESS + |done| + |more|)
    ensures ImageSoFar(sum, ram, memory', Fold(sum.step, crc, more), done + more)
  {
    FoldSplits(sum.step, sum.initial, done, more);
    HoldsMore(memory, memory', LOAD_ADDRESS, done, more);
    OutsideMore(ram, memory, memory', LOAD_ADDRESS, LOAD_ADDRESS + |done|, LOAD_ADDRESS + |done| + |more|);
    assert |done + more| == |done| + |more|;
  }

  /** The loader stands before cluster k of a file, with bytes still missing. */
  ghost predicate AtLink(v: Volume, size: nat, remaining: nat, k: nat)
    requires ValidVolume(v)
    decreases k
  {
    remaining > 0 && if k == 0 then remaining == size else AtLink(v, size, remaining + ClusterBytes(v), k - 1)
  }

  lemma {:induction false} LinkOffset(v: Volume, size: nat, remaining: nat, k: nat)
    requires ValidVolume(v) && AtLink(v, size, remaining, k)
    ensures remaining <= size && size - remaining == Offset(v, k) && k < ClustersFor(v, size)
    decreases k
  {
    if k > 0 { LinkOffset(v, size, remaining + ClusterBytes(v), k - 1); }
    StartsBeforeEnd(v, size, k);
  }

  lemma LastLink(v: Volume, size: nat, remaining: nat, k: nat)
    requires ValidVolume(v) && AtLink(v, size, remaining, k) && remaining <= ClusterBytes(v)
    ensures ClustersFor(v, size) == k + 1
  {
    LinkOffset(v, size, remaining, k);
    StartsBeforeEnd(v, size, k + 1);
  }

  /** What cluster k adds to the image of a file, and where that takes the loader. */
  ghost predicate Continues(v: Volume, file: seq<bv8>, size: nat, remaining: nat, k: nat, more: seq<bv8>)
    requires ValidVolume(v)
  {
    && 0 < |more| <= remaining <= size == |file|
    && (if remaining == |more| then ClustersFor(v, size) == k + 1
        else k + 1 < ClustersFor(v, size) && AtLink(v, size, remaining - |more|, k + 1))
    && file[..size - remaining + |more|] == file[..size - remaining] + more
  }

  lemma LinkStep(v: Volume, start: nat, size: nat, remaining: nat, k: nat)
    requires ValidVolume(v) && start < 0x1_0000 && AtLink(v, size, remaining, k)
    ensures Continues(v, FileBytes(v, start, size), size, remaining, k,
                      Cluster(v, ChainAt(v, start, k))[..Min(remaining, ClusterBytes(v))])
  {
    LinkOffset(v, size, remaining, k);
    FileBytesGrow(v, start, size, k);
    if remaining <= ClusterBytes(v) {
      LastLink(v, size, remaining, k);
    } else {
      LinkOffset(v, size, remaining - ClusterBytes(v), k + 1);
    }
  }

  class Loader<R> {
    const volume: Volume
    const bounce: array<bv8>
    const sum: Running<R>
    var memory: map<nat, bv8>
    var loadCursor: nat
    var remainingBytes: nat
    var curCluster: nat
    var crcRuntime: R

    ghost predicate Valid()
      reads this
    {
      && ValidVolume(volume) && bounce.Length == 0x1_0000
      && curCluster < 0x1_0000 && remainingBytes < 0x1_0000_0000
    }

    constructor (v: Volume, checksum: Running<R>, ram: map<nat, bv8>, startCluster: nat, sizeBytes: nat)
      requires ValidVolume(v) && startCluster < 0x1_0000 && sizeBytes < 0x1_0000_0000
      ensures Valid() && volume == v && sum == checksum && memory == ram
      ensures curCluster == startCluster && remainingBytes == sizeBytes
      ensures fresh(bounce)
    {
      volume, sum, memory := v, checksum, ram;
      bounce := new bv8[0x1_0000](_ => 0);
      loadCursor, crcRuntime := 0, checksum.initial;
      curCluster, remainingBytes := startCluster, sizeBytes;
    }

    /** One sector read into the bounce buffer at `bx`; the bytes before stay. */
    method ReadSector(ax: nat, bx: nat)
      requires ax < 0x1_0000 && bx + BYTES_PER_SECTOR <= bounce.Length
      modifies bounce
      ensures bounce[..bx + BYTES_PER_SECTOR] == old(bounce[..bx]) + volume.disk[ax]
    {
      var sector: seq<bv8> := volume.disk[ax];
      forall i | 0 <= i < BYTES_PER_SECTOR { bounce[bx + i] := sector[i]; }
      assert bounce[..bx] == old(bounce[..bx]);
      assert bounce[bx..bx + BYTES_PER_SECTOR] == sector;
      assert bounce[..bx + BYTES_PER_SECTOR] == bounce[..bx] + bounce[bx..bx + BYTES_PER_SECTOR];
    }

    /** Reads the sectors of the current cluster into the bounce buffer. */
    method ReadClusterSectors()
      requires Valid()
      modifies bounce
      ensures bounce[..ClusterBytes(volume)] == Cluster(volume, curCluster)
    {
      var n := volume.sectorsPerCluster;
      var ax := FirstSector(volume, curCluster);
      var bx, cx := 0, n;
      ghost var lba := ax;
      while cx > 0
        invariant 0 <= cx <= n
        invariant bx == (n - cx) * BYTES_PER_SECTOR
        invariant ax == (lba + (n - cx)) % 0x1_0000
        invariant bounce[..bx] == Sectors(volume.disk, lba, n - cx)
      {
        ReadSector(ax, bx);
        NextSector(lba, n - cx);
        bx := bx + BYTES_PER_SECTOR;
        ax := (ax + 1) % 0x1_0000;
        cx := cx - 1;
      }
    }

    /** Copies n bytes of the bounce buffer to the load cursor, feeding each
        one to the running checksum. */
    method CopyBytes(n: nat) returns (si: nat)
      requires Valid() && n <= bounce.Length
      modifies this`memory, this`crcRuntime
      ensures si == n
      ensures crcRuntime == Fold(sum.step, old(crcRuntime), bounce[..n])
      ensures Holds(memory, loadCursor, bounce[..n])
      ensures SameOutside(old(memory), memory, loadCursor, loadCursor + n)
    {
      var cx, edi := n, loadCursor;
      si := 0;
      while cx > 0
        invariant 0 <= cx <= n && si == n - cx && edi == loadCursor + si
        invariant crcRuntime == Fold(sum.step, old(crcRuntime), bounce[..si])
        invariant Holds(memory, loadCursor, bounce[..si])
        invariant SameOutside(old(memory), memory, loadCursor, loadCursor + si)
      {
        var al := bounce[si];
        memory := memory[edi := al];
        FoldOneMore(sum.step, old(crcRuntime), bounce[..si], al);
        assert bounce[..si + 1] == bounce[..si] + [al];
        crcRuntime := sum.step(crcRuntime, al);
        si := si + 1;
        edi := edi + 1;
        cx := cx - 1;
      }
    }

    /** Copies the buffered cluster, or as much of it as the file still needs. */
    method CopyClusterToHimem()
      requires Valid() && remainingBytes > 0
      modifies this`memory, this`crcRuntime, this`loadCursor, this`remainingBytes
      ensures Valid()
      ensures var n := Min(old(remainingBytes), ClusterBytes(volume));
        && remainingBytes == old(remainingBytes) - n
        && loadCursor == old(loadCursor) + n
        && crcRuntime == Fold(sum.step, old(crcRuntime), bounce[..n])
        && Holds(memory, old(loadCursor), bounce[..n])
        && SameOutside(old(memory), memory, old(loadCursor), old(loadCursor) + n)
    {
      var cx := CopyCount(volume.sectorsPerCluster, remainingBytes);
      CopiedIff(volume.sectorsPerCluster, remainingBytes);
      var si := CopyBytes(cx);
      loadCursor := loadCursor + si;
      remainingBytes := remainingBytes - si;
    }

    /** Moves on to the next cluster, unless the table entry ends the chain. */
    method FollowLink(ghost start: nat, ghost k: nat) returns (outcome: Outcome)
      requires start < 0x1_0000 && curCluster < 0x1_0000 && curCluster == ChainAt(volume, start, k)
      modifies this`curCluster
      ensures outcome == Loaded <==> 2 <= ChainAt(volume, start, k + 1) < 0xFF0
      ensures outcome == SizeMismatch <==> ChainAt(volume, start, k + 1) >= 0xFF8
      ensures curCluster == if outcome == Loaded then ChainAt(volume, start, k + 1) else old(curCluster)
    {
      var ax := NextCluster(volume.fat, curCluster);
      assert ax == ChainAt(volume, start, k + 1);
      if ax < FAT12_MIN_VALID {
        return ReadError;
      }
      if ax >= FAT12_RESERVED_LO {
        if ax == FAT12_BAD || ax < FAT12_EOC_MIN {
          return ReadError;
        }
        return SizeMismatch;
      }
      curCluster := ax;
      return Loaded;
    }

    /** The load loop. It ends on every table, cyclic chains included, because
        each round consumes bytes of the file. */
    method ParseKernel() returns (outcome: Outcome)
      requires Valid() && LOAD_ADDRESS + remainingBytes <= 0x1_0000_0000
      modifies this, bounce
      ensures outcome == Loaded <==> ChainIsWhole(volume, old(curCluster), old(remainingBytes))
      ensures outcome == Loaded ==>
        && Holds(memory, 0x10_0000, FileBytes(volume, old(curCluster), old(remainingBytes)))
        && SameOutside(old(memory), memory, 0x10_0000, 0x10_0000 + old(remainingBytes))
        && crcRuntime == Fold(sum.step, sum.initial, FileBytes(volume, old(curCluster), old(remainingBytes)))
      ensures outcome != Loaded ==> exists k ::
        && BreaksAt(volume, old(curCluster), old(remainingBytes), k)
        && (outcome == SizeMismatch <==> ChainAt(volume, old(curCluster), k) >= 0xFF8)
    {
      ghost var start, size := curCluster, remainingBytes;
      ghost var k := 0;
      ghost var file := FileBytes(volume, start, size);
      assert file[..0] == [];
      loadCursor := LOAD_ADDRESS;
      crcRuntime := sum.initial;
      while remainingBytes != 0
        invariant if size == 0 then remainingBytes == 0 && ImageSoFar(sum, old(memory), memory, crcRuntime, file)
          else remainingBytes > 0 && Underway(start, size, k, old(memory), file)
        invariant Followed(volume, start, k)
        decreases remainingBytes
      {
        outcome := Round(start, size, k, old(memory), file);
        if remainingBytes == 0 {
          FollowedIsWhole(volume, start, size, k);
          return;
        }
        FollowedOn(volume, start, size, k);
        if outcome != Loaded {
          return;
        }
        k := k + 1;
      }
      return Loaded;
    }

    /** The loader stands before cluster k, with the image so far in memory. Stated
        as one fact. */
    ghost predicate Underway(start: nat, size: nat, k: nat, ram: map<nat, bv8>, file: seq<bv8>)
      reads this
    {
      true == (&& Valid() && start < 0x1_0000 && remainingBytes <= size == |file|
               && AtLink(volume, size, remainingBytes, k)
               && curCluster == ChainAt(volume, start, k) && loadCursor == LOAD_ADDRESS + (size - remainingBytes)
               && ImageSoFar(sum, ram, memory, crcRuntime, file[..size - remainingBytes]))
    }

    /** One round: a cluster, and the link to the next if bytes are missing. */
    method Round(ghost start: nat, ghost size: nat, ghost k: nat, ghost ram: map<nat, bv8>, ghost file: seq<bv8>)
      returns (outcome: Outcome)
      requires Underway(start, size, k, ram, file) && start < 0x1_0000 && ValidVolume(volume)
      requires file == FileBytes(volume, start, size)
      modifies this, bounce
      ensures remainingBytes < old(remainingBytes)
      ensures remainingBytes == 0 ==>
        outcome == Loaded && ClustersFor(volume, size) == k + 1 && ImageSoFar(sum, ram, memory, crcRuntime, file)
      ensures remainingBytes > 0 ==> k + 1 < ClustersFor(volume, size)
      ensures remainingBytes > 0 && outcome == Loaded ==> Underway(start, size, k + 1, ram, file)
      ensures remainingBytes > 0 ==> (outcome == Loaded <==> IsDataCluster(ChainAt(volume, start, k + 1)))
      ensures remainingBytes > 0 ==> (outcome == SizeMismatch <==> ChainAt(volume, start, k + 1) >= 0xFF8)
    {
      LoadCluster(start, size, k, ram, file);
      if remainingBytes == 0 {
        assert file[..size] == file;
        return Loaded;
      }
      outcome := FollowLink(start, k);
    }

    /** Reads the current cluster and appends it, or the part still needed. */
    method FetchCluster(ghost more: seq<bv8>)
      requires Valid() && remainingBytes > 0
      requires more == Cluster(volume, curCluster)[..Min(remainingBytes, ClusterBytes(volume))]
      modifies this`memory, this`crcRuntime, this`loadCursor, this`remainingBytes, bounce
      ensures Valid() && |more| <= old(remainingBytes)
      ensures
        && remainingBytes == old(remainingBytes) - |more|
        && loadCursor == old(loadCursor) + |more|
        && crcRuntime == Fold(sum.step, old(crcRuntime), more)
        && Holds(memory, old(loadCursor), more)
        && SameOutside(old(memory), memory, old(loadCursor), old(loadCursor) + |more|)
    {
      ghost var n, cb := Min(remainingBytes, ClusterBytes(volume)), ClusterBytes(volume);
      ReadClusterSectors();
      assert bounce[..n] == bounce[..cb][..n];
      CopyClusterToHimem();
    }

    /** Adds the current cluster, or the part still needed, to the image. */
    method AppendCluster(ghost ram: map<nat, bv8>, ghost done: seq<bv8>, ghost more: seq<bv8>)
      requires Valid() && remainingBytes > 0
      requires more == Cluster(volume, curCluster)[..Min(remainingBytes, ClusterBytes(volume))]
      requires loadCursor == LOAD_ADDRESS + |done| && ImageSoFar(sum, ram, memory, crcRuntime, done)
      modifies this`memory, this`crcRuntime, this`loadCursor, this`remainingBytes, bounce
      ensures Valid() && remainingBytes == old(remainingBytes) - |more|
      ensures loadCursor == LOAD_ADDRESS + |done| + |more| && ImageSoFar(sum, ram, memory, crcRuntime, done + more)
    {
      FetchCluster(more);
      ImageGrows(sum, ram, old(memory), memory, old(crcRuntime), done, more);
    }

    /** One round of the load loop continues the image by one cluster. */
    method LoadCluster(ghost start: nat, ghost size: nat, ghost k: nat, ghost ram: map<nat, bv8>, ghost file: seq<bv8>)
      requires Valid() && start < 0x1_0000 && remainingBytes <= size && AtLink(volume, size, remainingBytes, k)
      requires curCluster == ChainAt(volume, start, k) && file == FileBytes(volume, start, size)
      requires loadCursor == LOAD_ADDRESS + (size - remainingBytes)
      requires ImageSoFar(sum, ram, memory, crcRuntime, file[..size - remainingBytes])
      modifies this`memory, this`crcRuntime, this`loadCursor, this`remainingBytes, bounce
      ensures Valid() && remainingBytes < old(remainingBytes)
      ensures if remainingBytes == 0 then ClustersFor(volume, size) == k + 1
              else k + 1 < ClustersFor(volume, size) && AtLink(volume, size, remainingBytes, k + 1)
      ensures loadCursor == LOAD_ADDRESS + (size - remainingBytes)
      ensures ImageSoFar(sum, ram, memory, crcRuntime, file[..size - remainingBytes])
    {
      LinkStep(volume, start, size, remainingBytes, k);
      ghost var more := Cluster(volume, curCluster)[..Min(remainingBytes, ClusterBytes(volume))];
      AppendCluster(ram, file[..size - remainingBytes], more);
    }
  }

  /** Byte o of cluster k, if the file has it, is in memory as it is on the disk:
      cluster 2 starts the data area, and sectors follow each other. */
  ghost predicate ByteLoaded(v: Volume, memory: map<nat, bv8>, start: nat, size: nat, k: nat, o: nat)
    requires ValidVolume(v) && start < 0x1_0000
  {
    var at := 0x10_0000 + k * v.sectorsPerCluster * 512 + o;
    var sector := v.dataStart + (ChainAt(v, start, k) - 2) * v.sectorsPerCluster + o / 512;
    o < v.sectorsPerCluster * 512 && at < 0x10_0000 + size ==>
      at in memory && 0 <= sector < 0x1_0000 && memory[at] == v.disk[sector][o % 512]
  }

  lemma ImageIsLoaded(v: Volume, memory: map<nat, bv8>, start: nat, size: nat, k: nat, o: nat)
    requires ValidVolume(v) && start < 0x1_0000 && AllOnDisk(v, start, size)
    requires Holds(memory, 0x10_0000, FileBytes(v, start, size))
    ensures ByteLoaded(v, memory, start, size, k, o)
  {
    SectorsOfIs(v, k);
    if o < ClusterBytes(v) && Offset(v, k) + o < size {
      StartsBeforeEnd(v, size, k);
      FileByteIs(v, start, size, k, o);
      var c := ChainAt(v, start, k);
      assert OnDisk(v, c);
      ClusterStarts(v, c);
      SectorsOfIs(v, c - 2);
      assert 0x10_0000 + (Offset(v, k) + o) in memory;
    }
  }

  /** Loads the kernel and compares its checksum with the one recorded at build
      time; holding F8 skips the comparison. */
  method LoadAndVerify(v: Volume, ram: map<nat, bv8>, start: nat, size: nat, expected: bv32, skip: bool)
    returns (outcome: Outcome, accepted: bool, memory: map<nat, bv8>)
    requires ValidVolume(v) && start < 0x1_0000 && LOAD_ADDRESS + size <= 0x1_0000_0000
    ensures outcome == Loaded <==> ChainIsWhole(v, start, size)
    ensures outcome != Loaded ==> !accepted && exists k ::
      BreaksAt(v, start, size, k) && (outcome == SizeMismatch <==> ChainAt(v, start, k) >= 0xFF8)
    ensures outcome == Loaded ==>
      && Holds(memory, 0x10_0000, FileBytes(v, start, size))
      && SameOutside(ram, memory, 0x10_0000, 0x10_0000 + size)
      && (accepted <==> skip || Checksum(FileBytes(v, start, size)) == expected)
    ensures outcome == Loaded && AllOnDisk(v, start, size) ==>
      forall k: nat, o: nat :: ByteLoaded(v, memory, start, size, k, o)
  {
    var loader := new Loader<bv32>(v, Running(INITIAL, TableByte), ram, start, size);
    outcome := loader.ParseKernel();
    memory := loader.memory;
    if outcome != Loaded {
      return outcome, false, memory;
    }
    TableFoldIsChecksum(FileBytes(v, start, size));
    forall k: nat, o: nat | AllOnDisk(v, start, size) ensures ByteLoaded(v, memory, start, size, k, o) {
      ImageIsLoaded(v, memory, start, size, k, o);
    }
    accepted := skip || loader.crcRuntime ^ 0xFFFF_FFFF == expected;
  }
}
