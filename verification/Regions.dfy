/** The table of permanently reserved physical ranges. New ranges coalesce with
    every entry they overlap or touch, found by a scan repeated to a fixed point. */
module Regions {
  import opened Words

  const MEM_REGIONS_MAX: nat := 256

  /** A table entry; `reserved` is the entry's type being MEM_RESERVED. */
  datatype Region = Region(base: nat, length: nat, reserved: bool)

  datatype ReserveResult = ReserveSuccess | NoMoreRegionSlots | InvalidRegionLength | UpdatedExistingRegion

  function End(r: Region): nat { r.base + r.length }

  predicate Live(r: Region) { r.reserved && r.length != 0 }

  predicate In(r: Region, x: int) { r.reserved && r.base <= x < End(r) }

  ghost predicate Covers(rs: seq<Region>, x: int) {
    exists i :: 0 <= i < |rs| && In(rs[i], x)
  }

  /** Neither overlapping nor adjacent. */
  predicate Apart(a: Region, b: Region) { End(a) < b.base || End(b) < a.base }

  predicate Fits(r: Region) { r.base < WORD && r.length < WORD }

  ghost predicate Canonical(rs: seq<Region>) {
    && (forall i :: 0 <= i < |rs| ==> Live(rs[i]) && Fits(rs[i]))
    && (forall i, j :: 0 <= i < j < |rs| ==> Apart(rs[i], rs[j]))
  }

  /** The maximal stretch of bytes that a new range joins: everything in it is
      new or already covered, and the bytes on either side are not covered. */
  ghost predicate IsRun(rs: seq<Region>, base: nat, length: nat, lo: nat, hi: nat) {
    && lo <= base && base + length <= hi
    && (forall x :: lo <= x < hi ==> base <= x < base + length || Covers(rs, x))
    && !Covers(rs, lo - 1) && !Covers(rs, hi)
  }

  // ---- The merge in progress ----

  /** The span merged so far, and the entry that will hold it (-1 for none). */
  datatype Span = Span(lo: nat, hi: nat, primary: int)

  predicate CanMerge(s: Span, r: Region) { s.lo <= End(r) && r.base <= s.hi }

  function Tombstone(r: Region): Region { r.(length := 0, reserved := false) }

  predicate Within(s: Span, r: Region) { s.lo <= r.base && End(r) <= s.hi }

  ghost predicate EntryFollows(was: Region, now: Region, s: Span) {
    now == was || (now == Tombstone(was) && Live(was) && Within(s, was))
  }

  ghost predicate MergeInv(was: seq<Region>, now: seq<Region>, base: nat, length: nat, s: Span) {
    && |now| == |was|
    && s.lo <= base && base + length <= s.hi
    && (forall i :: 0 <= i < |was| ==> EntryFollows(was[i], now[i], s))
    && -1 <= s.primary < |was|
    && (s.primary == -1 ==> now == was && s.lo == base && s.hi == base + length)
    && (s.primary >= 0 ==>
          && now[s.primary] == was[s.primary] && Live(was[s.primary]) && Within(s, was[s.primary])
          && CanMerge(Span(base, base + length, -1), was[s.primary]))
    && (forall x :: s.lo <= x < s.hi ==> base <= x < base + length || Covers(was, x))
  }

  /** Entries that later rounds may still absorb. */
  ghost function Pending(now: seq<Region>, s: Span): set<nat> {
    set i | 0 <= i < |now| && Live(now[i]) && i != s.primary
  }

  /** No entry is left that the span overlaps or touches. */
  ghost predicate Settled(now: seq<Region>, s: Span) {
    forall i :: 0 <= i < |now| && Live(now[i]) && i != s.primary ==> !CanMerge(s, now[i])
  }

  function Min(a: nat, b: nat): nat { if a < b then a else b }
  function Max(a: nat, b: nat): nat { if a > b then a else b }

  function Widened(s: Span, r: Region): Span { s.(lo := Min(s.lo, r.base), hi := Max(s.hi, End(r))) }

  /** Absorbing one more entry: as the primary, or tombstoned. */
  lemma AbsorbKeeps(was: seq<Region>, now: seq<Region>, base: nat, length: nat, s: Span, i: nat)
    requires MergeInv(was, now, base, length, s)
    requires i < |now| && Live(now[i]) && CanMerge(s, now[i]) && i != s.primary
    ensures s.primary == -1 ==> var t := Widened(s, now[i]).(primary := i);
      MergeInv(was, now, base, length, t) && Pending(now, t) < Pending(now, s)
    ensures s.primary >= 0 ==> var next, t := now[i := Tombstone(now[i])], Widened(s, now[i]);
      MergeInv(was, next, base, length, t) && Pending(next, t) < Pending(now, s)
  {
    var w := Widened(s, now[i]);
    assert i in Pending(now, s);
    assert EntryFollows(was[i], now[i], s);
    forall x | w.lo <= x < w.hi ensures base <= x < base + length || Covers(was, x) {
      if !(s.lo <= x < s.hi) { assert In(was[i], x); }
    }
    assert forall j :: 0 <= j < |was| && EntryFollows(was[j], now[j], s) ==> EntryFollows(was[j], now[j], w);
  }

  lemma PrimaryAbsorbed(was: seq<Region>, now: seq<Region>, base: nat, length: nat, s: Span)
    requires MergeInv(was, now, base, length, s) && s.primary >= 0
    ensures Widened(s, now[s.primary]) == s
  {
  }

  // ---- What a settled merge means ----

  function Committed(now: seq<Region>, s: Span): seq<Region>
    requires 0 <= s.primary < |now|
  {
    now[s.primary := Region(s.lo, (s.hi - s.lo) % WORD, true)]
  }

  /** Entries of non-zero length, in order. */
  function Compact(rs: seq<Region>): seq<Region> {
    if rs == [] then [] else Compact(rs[..|rs| - 1]) + (if rs[|rs| - 1].length == 0 then [] else [rs[|rs| - 1]])
  }

  lemma SettledIsRun(was: seq<Region>, now: seq<Region>, base: nat, length: nat, s: Span)
    requires MergeInv(was, now, base, length, s) && Settled(now, s)
    ensures IsRun(was, base, length, s.lo, s.hi)
  {
    forall i | 0 <= i < |was| ensures !In(was[i], s.lo - 1) && !In(was[i], s.hi) {
      assert EntryFollows(was[i], now[i], s);
    }
  }

  /** The committed table covers the old bytes and the new range, exactly when
      the merged length fits the 32-bit length field. */
  lemma CommittedCovers(was: seq<Region>, now: seq<Region>, base: nat, length: nat, s: Span)
    requires MergeInv(was, now, base, length, s) && Settled(now, s) && s.primary >= 0 && length > 0
    ensures s.hi - s.lo < WORD ==>
      forall x :: Covers(Committed(now, s), x) <==> Covers(was, x) || base <= x < base + length
    ensures s.hi - s.lo >= WORD ==> !Covers(Committed(now, s), s.hi - 1)
  {
    var rs := Committed(now, s);
    forall x | Covers(rs, x) && s.hi - s.lo < WORD ensures Covers(was, x) || base <= x < base + length {
      var j :| 0 <= j < |rs| && In(rs[j], x);
      assert EntryFollows(was[j], now[j], s);
      assert j != s.primary ==> In(was[j], x);
    }
    forall x | (Covers(was, x) || base <= x < base + length) && s.hi - s.lo < WORD ensures Covers(rs, x) {
      if s.lo <= x < s.hi {
        assert In(rs[s.primary], x);
      } else {
        var i :| 0 <= i < |was| && In(was[i], x);
        assert EntryFollows(was[i], now[i], s);
        assert In(rs[i], x);
      }
    }
    if s.hi - s.lo >= WORD {
      forall j | 0 <= j < |rs| ensures !In(rs[j], s.hi - 1) {
        assert EntryFollows(was[j], now[j], s);
      }
    }
  }

  lemma CommittedNoMore(was: seq<Region>, now: seq<Region>, base: nat, length: nat, s: Span)
    requires MergeInv(was, now, base, length, s) && s.primary >= 0
    ensures forall x :: Covers(Committed(now, s), x) ==> Covers(was, x) || In(Committed(now, s)[s.primary], x)
  {
    var rs := Committed(now, s);
    forall x | Covers(rs, x) ensures Covers(was, x) || In(rs[s.primary], x) {
      var j :| 0 <= j < |rs| && In(rs[j], x);
      assert EntryFollows(was[j], now[j], s);
      assert j != s.primary ==> In(was[j], x);
    }
  }

  /** Canonical but for entries of zero length. */
  ghost predicate AlmostCanonical(rs: seq<Region>) {
    && (forall i :: 0 <= i < |rs| && rs[i].length != 0 ==> Live(rs[i]) && Fits(rs[i]))
    && (forall i, j :: 0 <= i < j < |rs| && rs[i].length != 0 && rs[j].length != 0 ==> Apart(rs[i], rs[j]))
  }

  lemma CommittedAlmostCanonical(was: seq<Region>, now: seq<Region>, base: nat, length: nat, s: Span)
    requires Canonical(was) && MergeInv(was, now, base, length, s) && Settled(now, s) && s.primary >= 0
    requires base < WORD
    ensures AlmostCanonical(Committed(now, s))
  {
    var rs := Committed(now, s);
    forall i | 0 <= i < |rs| && rs[i].length != 0 ensures Live(rs[i]) && Fits(rs[i]) {
      assert EntryFollows(was[i], now[i], s);
    }
    forall i, j | 0 <= i < j < |rs| && rs[i].length != 0 && rs[j].length != 0 ensures Apart(rs[i], rs[j]) {
      assert EntryFollows(was[i], now[i], s) && EntryFollows(was[j], now[j], s);
      if i == s.primary {
        assert !CanMerge(s, now[j]);
      } else if j == s.primary {
        assert !CanMerge(s, now[i]);
      }
    }
  }

  lemma CompactStep(rs: seq<Region>, i: nat)
    requires i < |rs|
    ensures Compact(rs[..i + 1]) == Compact(rs[..i]) + if rs[i].length == 0 then [] else [rs[i]]
  {
    assert rs[..i + 1][..i] == rs[..i];
  }

  lemma {:induction false} CompactMembers(rs: seq<Region>)
    ensures forall r :: r in Compact(rs) <==> r in rs && r.length != 0
    ensures |Compact(rs)| <= |rs|
  {
    if rs != [] { CompactMembers(rs[..|rs| - 1]); }
  }

  lemma {:induction false} CompactCanonical(rs: seq<Region>)
    requires AlmostCanonical(rs)
    ensures Canonical(Compact(rs))
  {
    if rs != [] {
      var front, last := rs[..|rs| - 1], rs[|rs| - 1];
      CompactCanonical(front);
      CompactMembers(front);
      if last.length != 0 {
        var c := Compact(front);
        forall i | 0 <= i < |c| ensures Apart(c[i], last) {
          assert c[i] in c;
          var k :| 0 <= k < |front| && front[k] == c[i];
          assert rs[k] == c[i];
        }
      }
    }
  }

  lemma CompactCovers(rs: seq<Region>)
    ensures forall x :: Covers(Compact(rs), x) <==> Covers(rs, x)
  {
    CompactMembers(rs);
    var c := Compact(rs);
    forall x | Covers(rs, x) ensures Covers(c, x) {
      var i :| 0 <= i < |rs| && In(rs[i], x);
      assert rs[i] in c;
    }
    forall x | Covers(c, x) ensures Covers(rs, x) {
      var i :| 0 <= i < |c| && In(c[i], x);
      assert c[i] in rs;
    }
  }

  /** The first empty slot, when nothing merged. */
  lemma AppendKeeps(rs: seq<Region>, base: nat, length: nat, s: Span)
    requires Canonical(rs) && s == Span(base, base + length, -1) && Settled(rs, s)
    requires 0 < length < WORD && base < WORD
    ensures Canonical(rs + [Region(base, length, true)])
    ensures forall x :: Covers(rs + [Region(base, length, true)], x) <==> Covers(rs, x) || base <= x < base + length
  {
    var r := Region(base, length, true);
    forall x | Covers(rs, x) ensures Covers(rs + [r], x) {
      var i :| 0 <= i < |rs| && In(rs[i], x);
      assert (rs + [r])[i] == rs[i];
    }
    forall x | base <= x < base + length ensures Covers(rs + [r], x) {
      assert (rs + [r])[|rs|] == r;
    }
  }

  /** No entry overlaps or touches the range. */
  ghost predicate Untouched(rs: seq<Region>, base: nat, length: nat) {
    forall i :: 0 <= i < |rs| ==> !CanMerge(Span(base, base + length, -1), rs[i])
  }

  /** Covers what `was` covers and the new range, and nothing else. */
  ghost predicate CoversBoth(was: seq<Region>, now: seq<Region>, base: nat, length: nat) {
    forall x :: Covers(now, x) <==> Covers(was, x) || base <= x < base + length
  }

  /** A table after a range joined the run [lo, hi), recorded in `entry`. When
      the run's length does not fit 32 bits its last byte is lost. */
  ghost predicate Extended(was: seq<Region>, now: seq<Region>, base: nat, length: nat, lo: nat, hi: nat,
                           entry: Region)
  {
    && (hi - lo < WORD ==> CoversBoth(was, now, base, length))
    && (hi - lo >= WORD ==> !Covers(now, hi - 1))
    && (forall x :: Covers(now, x) ==> Covers(was, x) || In(entry, x))
    && entry == Region(lo, (hi - lo) % WORD, true)
  }

  /** The table grows by exactly the new range if and only if the run it joins
      is shorter than 4 GiB. */
  lemma ExactIffRunFits(was: seq<Region>, now: seq<Region>, base: nat, length: nat, lo: nat, hi: nat, entry: Region)
    requires IsRun(was, base, length, lo, hi) && length > 0 && Extended(was, now, base, length, lo, hi, entry)
    ensures CoversBoth(was, now, base, length) <==> hi - lo < WORD
  {
    if CoversBoth(was, now, base, length) {
      assert base <= hi - 1 < base + length || Covers(was, hi - 1);
    }
  }

  /** The failing family has members: with the lower 2 GiB reserved, reserving
      the upper 2 GiB loses both. */
  lemma FullAddressSpaceIsLost()
    ensures var half := 0x8000_0000; var was, s := [Region(0, half, true)], Span(0, WORD, 0);
      && MergeInv(was, was, half, half, s) && Settled(was, s)
      && Compact(Committed(was, s)) == []
  {
    var half := 0x8000_0000;
    var was := [Region(0, half, true)];
    forall x | 0 <= x < WORD ensures half <= x < half + half || Covers(was, x) {
      assert x < half ==> In(was[0], x);
    }
    var after := Committed(was, Span(0, WORD, 0));
    assert after == [Region(0, 0, true)];
    assert Compact(after[..0]) == [];
  }

  lemma CommitExtends(was: seq<Region>, now: seq<Region>, base: nat, length: nat, s: Span)
    requires Canonical(was) && base < WORD && length > 0
    requires MergeInv(was, now, base, length, s) && Settled(now, s) && s.primary >= 0
    ensures Canonical(Compact(Committed(now, s))) && |Compact(Committed(now, s))| <= |now|
    ensures Extended(was, Compact(Committed(now, s)), base, length, s.lo, s.hi,
      Region(s.lo, (s.hi - s.lo) % WORD, true))
  {
    CommittedCovers(was, now, base, length, s);
    CommittedAlmostCanonical(was, now, base, length, s);
    CommittedNoMore(was, now, base, length, s);
    CompactCanonical(Committed(now, s));
    CompactMembers(Committed(now, s));
    CompactCovers(Committed(now, s));
  }

  class RegionTable {
    /** The entries in use, at most MEM_REGIONS_MAX of them. */
    var slots: seq<Region>

    ghost predicate Valid()
      reads this
    {
      |slots| <= MEM_REGIONS_MAX && Canonical(slots)
    }

    constructor ()
      ensures Valid() && slots == []
    {
      slots := [];
    }

    /** Whether a range overlaps any reserved one. */
    method IsRegionReserved(address: nat, length: nat) returns (reserved: bool)
      requires Valid()
      ensures reserved <==> exists x :: address <= x < address + length && Covers(slots, x)
    {
      if length == 0 {
        return false;
      }
      var i := 0;
      while i < |slots|
        invariant 0 <= i <= |slots|
        invariant forall j, x :: 0 <= j < i && address <= x < address + length ==> !In(slots[j], x)
      {
        var r := slots[i];
        if r.length != 0 && r.reserved && address < End(r) && r.base < address + length {
          ghost var x := Max(address, r.base);
          assert In(slots[i], x);
          assert Covers(slots, x);
          return true;
        }
        i := i + 1;
      }
      return false;
    }

    /** One scan over the table, absorbing whatever the span touches. */
    method MergePass(ghost was: seq<Region>, base: nat, length: nat, s0: Span) returns (s: Span, changed: bool)
      requires MergeInv(was, slots, base, length, s0)
      modifies this
      ensures MergeInv(was, slots, base, length, s)
      ensures changed ==> Pending(slots, s) < Pending(old(slots), s0)
      ensures !changed ==> Settled(slots, s) && Pending(slots, s) == Pending(old(slots), s0)
    {
      s, changed := s0, false;
      var i := 0;
      while i < |slots|
        invariant 0 <= i <= |slots|
        invariant MergeInv(was, slots, base, length, s)
        invariant Pending(slots, s) <= Pending(old(slots), s0)
        invariant changed ==> Pending(slots, s) < Pending(old(slots), s0)
        invariant !changed ==> s == s0 && slots == old(slots)
        invariant !changed ==> forall j :: 0 <= j < i && Live(slots[j]) && j != s.primary ==> !CanMerge(s, slots[j])
      {
        var r := slots[i];
        if r.reserved && r.length != 0 && CanMerge(s, r) {
          var wide := Widened(s, r);
          if s.primary == -1 {
            AbsorbKeeps(was, slots, base, length, s, i);
            wide := wide.(primary := i);
            changed := true;
          } else if i != s.primary {
            AbsorbKeeps(was, slots, base, length, s, i);
            slots := slots[i := Tombstone(r)];
            changed := true;
          } else {
            PrimaryAbsorbed(was, slots, base, length, s);
          }
          if wide.lo != s.lo || wide.hi != s.hi {
            changed := true;
          }
          s := wide;
        }
        i := i + 1;
      }
    }
  
    /** Scans until nothing changes; every round that changes something leaves
        fewer entries to absorb. */
    method MergeAll(base: nat, length: nat) returns (s: Span)
      requires Valid()
      modifies this
      ensures MergeInv(old(slots), slots, base, length, s) && Settled(slots, s)
    {
      ghost var was := slots;
      s := Span(base, base + length, -1);
      var changed := true;
      while changed
        invariant MergeInv(was, slots, base, length, s)
        invariant !changed ==> Settled(slots, s)
        decreases Pending(slots, s), changed
      {
        s, changed := MergePass(was, base, length, s);
      }
    }

    /** Moves one entry down to the write position unless its length is zero. */
    method KeepEntry(write: nat, read: nat) returns (write': nat)
      requires write <= read < |slots|
      modifies this
      ensures |slots| == |old(slots)| && slots[read + 1..] == old(slots)[read + 1..]
      ensures write' <= read + 1
      ensures slots[..write'] == old(slots)[..write] + if old(slots)[read].length == 0 then [] else [old(slots)[read]]
    {
      write' := write;
      if slots[read].length != 0 {
        if write != read {
          slots := slots[write := slots[read]];
        }
        write' := write + 1;
      }
    }

    /** Closes the gaps that zero-length entries leave. */
    method CompactTable()
      modifies this
      ensures |slots| <= |old(slots)| && slots == Compact(old(slots))
    {
      ghost var was := slots;
      var write, read := 0, 0;
      while read < |slots|
        invariant 0 <= write <= read <= |slots| == |was|
        invariant slots[..write] == Compact(was[..read])
        invariant slots[read..] == was[read..]
      {
        CompactStep(was, read);
        assert slots[read] == was[read..][0];
        write := KeepEntry(write, read);
        read := read + 1;
      }
      assert was[..|was|] == was;
      slots := slots[..write];
    }

    /** Writes the merged span into its entry and drops the absorbed ones. */
    method CommitSpan(s: Span) returns (entry: Region)
      requires 0 <= s.primary < |slots| && s.lo <= s.hi
      modifies this
      ensures slots == Compact(Committed(old(slots), s)) && entry == Region(s.lo, (s.hi - s.lo) % WORD, true)
    {
      entry := Region(s.lo, (s.hi - s.lo) % WORD, true);
      slots := slots[s.primary := entry];
      CompactTable();
    }

    /** Reserves [base, base + length). The ghost results are the run of
        covered bytes that the range belongs to. */
    method ReserveRange(base: nat, length: nat)
      returns (result: ReserveResult, entry: Region, ghost lo: nat, ghost hi: nat)
      requires Valid() && base < WORD && length < WORD
      modifies this
      ensures Valid()
      ensures result == InvalidRegionLength <==> length == 0
      ensures result == NoMoreRegionSlots <==>
        length != 0 && |old(slots)| == 256 && Untouched(old(slots), base, length)
      ensures result == ReserveSuccess <==>
        length != 0 && |old(slots)| != 256 && Untouched(old(slots), base, length)
      ensures result in {InvalidRegionLength, NoMoreRegionSlots} ==> slots == old(slots)
      ensures result in {ReserveSuccess, UpdatedExistingRegion} ==>
        IsRun(old(slots), base, length, lo, hi) && Extended(old(slots), slots, base, length, lo, hi, entry)
    {
      lo, hi, entry := 0, 0, Region(0, 0, false);
      if length == 0 {
        return InvalidRegionLength, entry, lo, hi;
      }
      ghost var was := slots;
      var s := MergeAll(base, length);
      lo, hi := s.lo, s.hi;
      SettledIsRun(was, slots, base, length, s);
      if s.primary >= 0 {
        CommitExtends(was, slots, base, length, s);
        entry := CommitSpan(s);
        return UpdatedExistingRegion, entry, lo, hi;
      }
      if |slots| >= MEM_REGIONS_MAX {
        return NoMoreRegionSlots, entry, lo, hi;
      }
      AppendKeeps(was, base, length, s);
      entry := Region(base, length, true);
      slots := slots + [entry];
      return ReserveSuccess, entry, lo, hi;
    }
  }
}
