/** waitpid: what it returns, and what is left of a reaped child. */
module Reaping {
  import opened SchedModel
  import opened SchedInv
  import opened SchedRuns
  import opened ActiveSpace

  /** The first matching zombie among some children, or -1. */
  function FirstZombie(s: Sys, q: seq<nat>, wait: Wait): (r: int)
    ensures r == -1 || (r in q && 0 <= r < |s.ps| && Matches(wait, r) && s.ps[r].state == PZombie)
    ensures r == -1 ==> forall c :: c in q && c < |s.ps| && Matches(wait, c) ==> s.ps[c].state != PZombie
  {
    if q == [] then -1
    else if q[0] < |s.ps| && Matches(wait, q[0]) && s.ps[q[0]].state == PZombie then q[0]
    else FirstZombie(s, q[1..], wait)
  }

  ghost predicate HasMatch(q: seq<nat>, wait: Wait) { exists c :: c in q && Matches(wait, c) }

  datatype WaitResult = Reaped(pid: nat, code: int) | NoChild | Blocks

  /** One pass of waitpid's loop. */
  ghost function WaitResultOf(s: Sys, p: nat, wait: Wait): WaitResult
    requires Sized(s) && p < |s.ps|
  {
    var z := FirstZombie(s, s.children[p], wait);
    if z != -1 then Reaped(z, s.ps[z].code)
    else if HasMatch(s.children[p], wait) then Blocks
    else NoChild
  }

  /** A zombie child can always be reaped by its running parent. */
  lemma ZombieCanGo(s: Sys, c: nat)
    requires Inv(s) && Acting(s) && IsProc(s, c) && s.ps[c].state == PZombie
    ensures CanGo(s, c)
  {
    assert ProcOk(s, c);
    forall t | t in s.members[c] ensures t < |s.ts| && t != s.current && t != s.idle && s.ts[t].state == Zombie {
      assert MemberOk(s, c, t);
    }
  }

  /** waitpid returns a pid and an exit code only for a matching zombie child;
      it fails exactly if no matching child is listed; otherwise it must wait. */
  lemma WaitpidExact(s: Sys, p: nat, wait: Wait)
    requires Inv(s) && Acting(s) && CurrentProc(s) == p && IsProc(s, p) && wait != NoWait
    ensures match WaitResultOf(s, p, wait)
      case Reaped(c, code) =>
        && c in s.children[p] && Matches(wait, c) && IsProc(s, c) && s.ps[c].state == PZombie && s.ps[c].parent == p
        && code == s.ps[c].code && Enabled(s, DoReap(c))
      case NoChild => !HasMatch(s.children[p], wait)
      case Blocks => Enabled(s, DoBlock(wait))
    ensures WaitResultOf(s, p, wait) == NoChild <==> !HasMatch(s.children[p], wait)
  {
    var z := FirstZombie(s, s.children[p], wait);
    if z != -1 {
      assert ChildOk(s, p, z);
      ZombieCanGo(s, z);
    }
  }

  /** Child q[k] is a zombie that waitpid with this pid, or -1 for any, may take,
      and no child before it is. */
  ghost predicate FirstToTake(s: Sys, q: seq<nat>, filter: int, k: nat) {
    && k < |q| && q[k] < |s.ps| && (filter == -1 || q[k] == filter) && s.ps[q[k]].state == PZombie
    && forall j :: 0 <= j < k && q[j] < |s.ps| && (filter == -1 || q[j] == filter) ==> s.ps[q[j]].state != PZombie
  }

  lemma {:induction false} FirstZombieIs(s: Sys, q: seq<nat>, filter: int) returns (k: nat)
    requires filter >= -1
    ensures var z := FirstZombie(s, q, if filter == -1 then AnyChild else Child(filter));
      if z == -1 then forall i: nat :: !FirstToTake(s, q, filter, i) else FirstToTake(s, q, filter, k) && q[k] == z
  {
    var wait := if filter == -1 then AnyChild else Child(filter);
    if q == [] || (q[0] < |s.ps| && Matches(wait, q[0]) && s.ps[q[0]].state == PZombie) {
      k := 0;
    } else {
      k := FirstZombieIs(s, q[1..], filter);
      forall i: nat | FirstToTake(s, q, filter, i) ensures i > 0 && FirstToTake(s, q[1..], filter, i - 1) { }
      if FirstZombie(s, q, wait) != -1 {
        k := k + 1;
        forall j | 0 <= j < k && q[j] < |s.ps| && (filter == -1 || q[j] == filter) ensures s.ps[q[j]].state != PZombie {
          assert j > 0 ==> q[j] == q[1..][j - 1];
        }
      }
    }
  }

  predicate IsZombie(s: Sys, c: nat) { c < |s.ps| && s.ps[c].inuse && s.ps[c].state == PZombie }

  /** The same said of the pid that waitpid is given: it takes the first zombie
      among the children that the pid names, with the code it exited with, fails
      exactly if the pid names no child, and waits if none it names is a zombie. */
  ghost predicate WaitAnswer(s: Sys, p: nat, filter: int, r: WaitResult)
    requires Sized(s) && p < |s.ps|
  {
    && (r == NoChild <==> forall c :: c in s.children[p] ==> filter != -1 && c != filter)
    && (r.Reaped? <==> exists c :: c in s.children[p] && (filter == -1 || c == filter) && IsZombie(s, c))
    && (r.Reaped? ==> exists k: nat :: FirstToTake(s, s.children[p], filter, k) && s.children[p][k] == r.pid
                                  && r.code == s.ps[r.pid].code)
  }

  lemma WaitpidAnswers(s: Sys, p: nat, filter: int)
    requires Inv(s) && IsProc(s, p) && filter >= -1
    ensures WaitAnswer(s, p, filter, WaitResultOf(s, p, if filter == -1 then AnyChild else Child(filter)))
  {
    var wait := if filter == -1 then AnyChild else Child(filter);
    var k := FirstZombieIs(s, s.children[p], filter);
    forall c | c in s.children[p]
      ensures IsProc(s, c) && (Matches(wait, c) <==> filter == -1 || c == filter)
    {
      assert ChildOk(s, p, c);
    }
    if FirstZombie(s, s.children[p], wait) != -1 { assert s.children[p][k] in s.children[p]; }
  }

  /** A reaped child is off every list, its slot is free, and so is its thread's. */
  lemma ReapedIsGone(s: Sys, c: nat, q: nat)
    requires Enabled(s, DoReap(c)) && s.ps[c].state == PZombie && q < |s.ps|
    ensures var s' := Reap(s, c);
      && |s.members[c]| == 1 && !IsProc(s', c) && Sized(s') && |s'.ps| == |s.ps| && c !in s'.children[q]
      && var t := s.members[c][0];
         && t < |s'.ts| && s'.ts[t].state == Unused && t !in s'.ring && t !in s'.sleepers
         && t !in s'.members[q] && t !in s'.waiters[q]
  {
    var s' := Reap(s, c);
    ReapIs(s, c);
    ReapInv(s, c);
    assert ProcOk(s, c);
    var t := s.members[c][0];
    assert t in s.members[c] && MemberOk(s, c, t);
    assert ThreadOk(s', t) && ChildOk(s', q, c) && MemberOk(s', q, t) && WaiterOk(s', q, t);
  }

  /** Nothing else is reaped: every other process keeps its record and, but for
      the parent, its children. */
  lemma ReapSparesOthers(s: Sys, c: nat, q: nat)
    requires Enabled(s, DoReap(c)) && q < |s.ps| && q != c
    ensures var s' := Reap(s, c);
      && |s'.ps| == |s.ps| && s'.ps[q] == s.ps[q] && Sized(s') && s'.waiters[q] == s.waiters[q]
      && s'.members[q] == s.members[q]
      && s'.children[q] == Without(s.children[q], c)
  {
    ReapIs(s, c);
    assert ChildOk(s, q, c);
  }

  // ---- Over runs ----

  /** The process that a last thread leaves is a zombie with that thread's code. */
  lemma LastExitLeavesCode(s: Sys, code: int)
    requires CanExit(s) && s.ps[s.ts[s.current].proc].live == 1
    ensures var s', c := Exit(s, code), s.ts[s.current].proc; IsZombie(s', c) && s'.ps[c].code == code
  {
    var t := s.current;
    var p := s.ts[t].proc;
    var s1 := s.(ts := s.ts[t := s.ts[t].(state := Zombie, code := code)],
                 ps := s.ps[p := s.ps[p].(live := 0, state := PZombie, code := code)]);
    assert WakeParent(s1, p).ps == s1.ps;
  }

  lemma StepLeavesCode(s: Sys, code: int)
    requires Enabled(s, DoExit(code)) && 0 <= CurrentProc(s) < |s.ps| && s.ps[CurrentProc(s)].live == 1
    ensures var s', c := Step(s, DoExit(code)), CurrentProc(s); IsZombie(s', c) && s'.ps[c].code == code
  {
    ActingHasProc(s);
    LastExitLeavesCode(s, code);
  }

  /** A zombie stays one, and keeps its code, until it is reaped. */
  lemma ZombieKeeps(s: Sys, e: Event, c: nat)
    requires Enabled(s, e) && IsZombie(s, c) && e != DoReap(c)
    ensures IsZombie(Step(s, e), c) && Step(s, e).ps[c].code == s.ps[c].code
  {
    match e
    case Timer =>
    case Yield =>
    case DoExit(code) => ActingHasProc(s); ExitSparesOthers(s, code, c);
    case DoReap(d) => ReapTables(s, d);
    case DoExec(_) => ActingHasProc(s);
    case _ =>
  }

  lemma ExitSparesOthers(s: Sys, code: int, c: nat)
    requires CanExit(s) && c < |s.ps| && c != s.ts[s.current].proc
    ensures c < |Exit(s, code).ps| && Exit(s, code).ps[c] == s.ps[c]
  {
  }

  lemma ExitLeavesCode(run: seq<Sys>, events: seq<Event>, code: int, i: nat)
    requires IsRun(run, events) && Inv(run[0]) && i < |events| && events[i] == DoExit(code)
    requires var c := CurrentProc(run[i]); 0 <= c < |run[i].ps| && run[i].ps[c].live == 1
    ensures var c := CurrentProc(run[i]); IsZombie(run[i + 1], c) && run[i + 1].ps[c].code == code
  {
    RunStep(run, events, i);
    StepLeavesCode(run[i], code);
  }

  lemma StepKeepsCode(run: seq<Sys>, events: seq<Event>, c: nat, i: nat)
    requires IsRun(run, events) && Inv(run[0]) && i < |events| && events[i] != DoReap(c) && IsZombie(run[i], c)
    ensures IsZombie(run[i + 1], c) && run[i + 1].ps[c].code == run[i].ps[c].code
  {
    RunStep(run, events, i);
    ZombieKeeps(run[i], events[i], c);
  }

  /** The code that waitpid reports, on the way: what the last thread left with
      is there for as long as nobody reaps the process. */
  lemma {:induction false} ExitCodeKept(run: seq<Sys>, events: seq<Event>, code: int, c: nat, i: nat, j: nat)
    requires IsRun(run, events) && Inv(run[0]) && i < j < |run| && events[i] == DoExit(code)
    requires CurrentProc(run[i]) == c && c < |run[i].ps| && run[i].ps[c].live == 1
    requires forall k :: i < k < j ==> events[k] != DoReap(c)
    ensures IsZombie(run[j], c) && run[j].ps[c].code == code
    decreases j
  {
    if i == j - 1 {
      ExitLeavesCode(run, events, code, i);
    } else {
      ExitCodeKept(run, events, code, c, i, j - 1);
      StepKeepsCode(run, events, c, j - 1);
    }
  }

  /** So waitpid, when it gets to a child after its last thread's exit, reports
      the code of that exit. */
  lemma WaitpidReportsExit(run: seq<Sys>, events: seq<Event>, code: int, c: nat, i: nat, j: nat, p: nat, filter: int)
    requires IsRun(run, events) && Inv(run[0]) && i < j < |run| && events[i] == DoExit(code)
    requires CurrentProc(run[i]) == c && c < |run[i].ps| && run[i].ps[c].live == 1
    requires forall k :: i < k < j ==> events[k] != DoReap(c)
    requires IsProc(run[j], p) && filter >= -1
    ensures Inv(run[j])
    ensures var r := WaitResultOf(run[j], p, if filter == -1 then AnyChild else Child(filter));
      r.Reaped? && r.pid == c ==> r.code == code
    ensures filter == c && c in run[j].children[p] ==> WaitResultOf(run[j], p, Child(c)) == Reaped(c, code)
  {
    ExitCodeKept(run, events, code, c, i, j);
    AlwaysConsistent(run, events, j);
    WaitpidAnswers(run[j], p, filter);
  }

  /** A free slot stays free until a new process takes it. */
  lemma FreeStaysFree(s: Sys, e: Event, c: nat)
    requires Enabled(s, e) && c < |s.ps| && !s.ps[c].inuse && !(e.NewProc? && e.p == c)
    ensures c < |Step(s, e).ps| && !Step(s, e).ps[c].inuse
  {
    match e
    case Timer =>
    case Yield =>
    case DoExit(code) => ActingHasProc(s); ExitTables(s, code);
    case DoReap(d) => ReapTables(s, d);
    case _ =>
  }

  lemma {:induction false} FreeUntil(run: seq<Sys>, events: seq<Event>, c: nat, i: nat, j: nat)
    requires IsRun(run, events) && Inv(run[0]) && i <= j < |run| && c < |run[i].ps| && !run[i].ps[c].inuse
    requires forall k :: i <= k < j ==> !(events[k].NewProc? && events[k].p == c)
    ensures c < |run[j].ps| && !run[j].ps[c].inuse
    decreases j
  {
    if i < j {
      FreeUntil(run, events, c, i, j - 1);
      RunStep(run, events, j - 1);
      FreeStaysFree(run[j - 1], events[j - 1], c);
    }
  }

  lemma ReapFrees(run: seq<Sys>, events: seq<Event>, c: nat, i: nat)
    requires IsRun(run, events) && Inv(run[0]) && i < |events| && events[i] == DoReap(c)
    ensures c < |run[i].ps| && run[i].ps[c].inuse && c < |run[i + 1].ps| && !run[i + 1].ps[c].inuse
  {
    RunStep(run, events, i);
    ReapTables(run[i], c);
  }

  /** Reaping is exactly once: between two reaps of the same pid a new process
      has taken the slot. */
  lemma ReapedOnce(run: seq<Sys>, events: seq<Event>, c: nat, i: nat, j: nat)
    requires IsRun(run, events) && Inv(run[0]) && i < j < |events| && events[i] == DoReap(c) && events[j] == DoReap(c)
    ensures exists k :: i < k < j && events[k].NewProc? && events[k].p == c
  {
    ReapFrees(run, events, c, i);
    ReapFrees(run, events, c, j);
    if forall k :: i + 1 <= k < j ==> !(events[k].NewProc? && events[k].p == c) {
      FreeUntil(run, events, c, i + 1, j);
      assert false;
    }
  }
}
