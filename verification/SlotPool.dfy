/** Demand-paged pools seen as slot allocators: one used-flag per slot, and the
    lowest free slot is handed out. */
module SlotPool {
  import opened Lists

  ghost function FreeSlots(used: seq<bool>): set<nat> { set x | 0 <= x < |used| && !used[x] }

  ghost function Members(c: seq<nat>): set<nat> { set x | x in c }

  lemma SubsetSize(a: set<nat>, b: set<nat>)
    requires a <= b
    ensures |a| <= |b|
  {
    assert b == a + (b - a);
  }

  lemma {:induction false} DistinctSize(c: seq<nat>)
    requires Distinct(c)
    ensures |Members(c)| == |c|
  {
    if c == [] {
      assert Members(c) == {};
    } else {
      var rest, last := c[..|c| - 1], c[|c| - 1];
      DistinctSize(rest);
      assert c == rest + [last] && last !in rest;
      assert Members(c) == Members(rest) + {last};
    }
  }

  /** Slots that have been taken were free; when none is free any more, they are
      all that were. */
  lemma TakenSlots(used0: seq<bool>, used: seq<bool>, c: seq<nat>)
    requires |used| == |used0| && Distinct(c) && forall x :: x in c ==> x < |used0| && !used0[x] && used[x]
    requires forall x {:trigger used[x]} {:trigger used0[x]} :: 0 <= x < |used0| && x !in c ==> used[x] == used0[x]
    ensures |c| <= |FreeSlots(used0)|
    ensures FreeSlots(used) == {} ==> |c| == |FreeSlots(used0)|
  {
    DistinctSize(c);
    SubsetSize(Members(c), FreeSlots(used0));
    if FreeSlots(used) == {} {
      forall x | x in FreeSlots(used0) ensures x in Members(c) {
        assert x !in FreeSlots(used);
        assert used[x];
      }
      assert Members(c) == FreeSlots(used0);
    }
  }

  method AllocSlot(used: seq<bool>) returns (slot: int)
    ensures slot == -1 <==> FreeSlots(used) == {}
    ensures slot != -1 ==> 0 <= slot < |used| && !used[slot] && forall x :: 0 <= x < slot ==> used[x]
  {
    slot := 0;
    while slot < |used|
      invariant 0 <= slot <= |used|
      invariant forall x :: 0 <= x < slot ==> used[x]
    {
      if !used[slot] {
        assert slot in FreeSlots(used);
        return;
      }
      slot := slot + 1;
    }
    slot := -1;
  }
}
