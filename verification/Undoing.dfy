/** New processes that are given up leave no trace. */
module Undoing {
  import opened Lists
  import opened SchedModel
  import opened SchedInv
  import opened ActiveSpace

  /** The same threads and processes, whatever unused slots hold. */
  ghost predicate SameSystem(s: Sys, s': Sys) {
    && |s'.ts| == |s.ts| && |s'.ps| == |s.ps| && s' == s.(ts := s'.ts, ps := s'.ps)
    && (forall t {:trigger s'.ts[t]} :: 0 <= t < |s.ts| ==>
        if s.ts[t].state == Unused then s'.ts[t].state == Unused && s'.ts[t].wait == NoWait else s'.ts[t] == s.ts[t])
    && (forall p {:trigger s'.ps[p]} :: 0 <= p < |s.ps| ==>
        if s.ps[p].inuse then s'.ps[p] == s.ps[p] else !s'.ps[p].inuse)
  }

  lemma SameSystemSelf(s: Sys)
    requires Inv(s)
    ensures SameSystem(s, s)
  {
    ThreadsAlike(s);
  }

  lemma SameSystemInv(s: Sys, s': Sys)
    requires Inv(s) && SameSystem(s, s')
    ensures Inv(s')
  {
    forall t: nat ensures ThreadOk(s', t) { assert ThreadOk(s, t); }
    forall p: nat, t: nat ensures WaiterOk(s', p, t) { assert WaiterOk(s, p, t); }
    forall p: nat, t: nat ensures MemberOk(s', p, t) { assert MemberOk(s, p, t); }
    forall p: nat, c: nat ensures ChildOk(s', p, c) { assert ChildOk(s, p, c); }
    forall p: nat ensures ProcOk(s', p) { assert ProcOk(s, p); }
    forall i | 0 <= i < |s.sleepers| ensures s'.ts[s.sleepers[i]] == s.ts[s.sleepers[i]] {
      assert s.sleepers[i] in s.sleepers && ThreadOk(s, s.sleepers[i]);
    }
  }

  lemma SameSystemSpaces(s: Sys, s': Sys)
    requires Inv(s) && SpacesInv(s) && SameSystem(s, s')
    ensures SpacesInv(s')
  {
    forall p: nat ensures SpaceOk(s', p) { assert SpaceOk(s, p); }
    forall p: nat, c: nat ensures KinOk(s', p, c) { assert KinOk(s, p, c) && ChildOk(s, p, c); }
    if s.loaded != -1 {
      var p: nat :| IsProc(s, p) && s.ps[p].space == s.loaded;
      assert IsProc(s', p) && s'.ps[p].space == s.loaded;
    }
  }

  lemma AppendedIndex(q: seq<nat>, x: nat)
    requires x !in q
    ensures Without(q + [x], x) == q
  {
    assert (q + [x])[|q|] == x;
    var k := IndexOf(q + [x], x);
    assert k == |q|;
  }

  lemma OpenUndone(s: Sys, p: nat, parent: int, user: bool)
    requires Inv(s) && p < |s.ps| && !s.ps[p].inuse
    ensures SameSystem(s, DropProc(OpenProc(s, p, parent, user), p))
  {
    OpenDropInv(s, p, parent, user);
    ThreadsAlike(s);
  }

  lemma ThreadsAlike(s: Sys)
    requires Inv(s)
    ensures forall t :: 0 <= t < |s.ts| && s.ts[t].state == Unused ==> s.ts[t].wait == NoWait
  {
    forall t | 0 <= t < |s.ts| && s.ts[t].state == Unused ensures s.ts[t].wait == NoWait { assert ThreadOk(s, t); }
  }

  /** A process that is freed before it has a thread leaves no trace. */
  lemma NewProcUndone(s: Sys, p: nat, parent: int, user: bool, space: int)
    requires Inv(s) && p < |s.ps| && !s.ps[p].inuse && IsProc(s, parent)
    ensures Sized(AddProc(s, p, parent, user, space)) && p < |AddProc(s, p, parent, user, space).ps|
    ensures SameSystem(s, FreeProc(AddProc(s, p, parent, user, space), p))
  {
    UnusedIsBare(s, p);
    ThreadsAlike(s);
    AppendedIndex(s.children[parent], p);
    var s' := FreeProc(AddProc(s, p, parent, user, space), p);
    assert s'.children == s.children && s'.members == s.members && s'.waiters == s.waiters;
  }

  lemma ThreadUndone(s: Sys, t: nat, p: nat)
    requires Sized(s) && IsProc(s, p) && s.members[p] == [] && t < |s.ts| && t !in s.ring && t !in s.sleepers
    ensures var s2 := AddThread(s, t, p);
      && Sized(s2) && IsThread(s2, t) && s2.ts[t].proc == p && IsProc(s2, p)
      && ReapThread(s2, t) == s.(ts := s.ts[t := Thread(Unused, -1, 0, NoWait, 0)], ps := s2.ps)
  {
    var s2 := AddThread(s, t, p);
    AppendedIndex(s.ring, t);
    AppendedIndex([], t);
    assert [] + [t] == [t];
    assert s2.members[p := []] == s.members;
  }

  lemma FreeForgets(s: Sys, s': Sys, p: nat, live: nat)
    requires Sized(s) && p < |s.ps| && s' == s.(ts := s'.ts, ps := s.ps[p := s.ps[p].(live := live)])
    ensures FreeProc(s', p) == FreeProc(s, p).(ts := s'.ts)
  {
    assert FreeProc(s', p).ps == FreeProc(s, p).ps;
  }

  lemma SameButSlot(s: Sys, s': Sys, t: nat, wake: nat)
    requires SameSystem(s, s') && t < |s.ts| && s.ts[t].state == Unused
    ensures SameSystem(s, s'.(ts := s'.ts[t := Thread(Unused, -1, wake, NoWait, 0)]))
  {
  }

  /** Nor does one whose only thread has not run; s1 is where it was listed. */
  lemma ThreadLeavesNoTrace(s: Sys, s1: Sys, p: nat, t: nat)
    requires Sized(s1) && IsProc(s1, p) && s1.members[p] == [] && s1.ts == s.ts && t < |s.ts| && s.ts[t].state == Unused
    requires t !in s1.ring && t !in s1.sleepers && SameSystem(s, FreeProc(s1, p))
    ensures var s2 := AddThread(s1, t, p);
      && Sized(s2) && IsThread(s2, t) && s2.ts[t].proc == p && IsProc(s2, p)
      && SameSystem(s, FreeProc(ReapThread(s2, t), p))
  {
    ThreadUndone(s1, t, p);
    FreeForgets(s1, ReapThread(AddThread(s1, t, p), t), p, s1.ps[p].live + 1);
    SameButSlot(s, FreeProc(s1, p), t, 0);
  }

  lemma ForkUndone(s: Sys, p: nat, t: nat, parent: int, user: bool, space: int)
    requires Inv(s) && p < |s.ps| && !s.ps[p].inuse && IsProc(s, parent) && t < |s.ts| && s.ts[t].state == Unused
    ensures var s1 := AddProc(s, p, parent, user, space);
      && Sized(s1) && p < |s1.ps| && t < |s1.ts|
      && var s2 := AddThread(s1, t, p);
         && Sized(s2) && IsThread(s2, t) && s2.ts[t].proc == p && IsProc(s2, p)
         && SameSystem(s, FreeProc(ReapThread(s2, t), p))
  {
    UnusedIsBare(s, p);
    assert ThreadOk(s, t);
    NewProcUndone(s, p, parent, user, space);
    ThreadLeavesNoTrace(s, AddProc(s, p, parent, user, space), p, t);
  }

  /** A fork that has come as far as listing the child, and maybe giving it a
      thread. */
  ghost predicate HalfForkedIn(s: Sys, t: int, c: nat, parent: int, user: bool, space: int, s0: Sys) {
    true == (&& Inv(s0) && c < |s0.ps| && !s0.ps[c].inuse && IsProc(s0, parent)
             && (t == -1 || (0 <= t < |s0.ts| && s0.ts[t].state == Unused))
             && s == (if t == -1 then AddProc(s0, c, parent, user, space)
               else AddThread(AddProc(s0, c, parent, user, space), t, c)))
  }
}
