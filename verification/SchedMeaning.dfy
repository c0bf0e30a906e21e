/** What steps of the scheduler do, said of threads, deadlines and positions in
    the lists rather than by the functions that compute the new state. */
module SchedMeaning {
  import opened Lists
  import opened SchedModel
  import opened SchedInv
  import opened SchedRuns
  import opened SchedSleep
  import opened BoundedWaiting

  /** Thread t can run after a switch: it is runnable, or running now. */
  predicate Ready(s: Sys, t: int) {
    0 <= t < |s.ts| && (s.ts[t].state == Runnable || (t == s.current && s.ts[t].state == Running))
  }

  /** Position i is that of the current thread, or -1 if there is none. */
  predicate At(s: Sys, i: int) {
    if s.current == -1 then i == -1 else 0 <= i < |s.ring| && s.ring[i] == s.current
  }

  /** Counting on from the current thread around the ring, itself last, c is
      the first that can run: i and m are their positions. */
  ghost predicate NextInRing(s: Sys, c: int, i: int, m: nat) {
    && At(s, i) && m < |s.ring| && c == s.ring[m] && Ready(s, c)
    && forall j :: 0 <= j < |s.ring| && Ready(s, s.ring[j]) ==> if i < m then j <= i || m <= j else m <= j <= i
  }

  lemma {:induction false} FirstRunnableAt(ts: seq<Thread>, q: seq<nat>) returns (k: nat)
    requires FirstRunnable(ts, q) != -1
    ensures k < |q| && q[k] == FirstRunnable(ts, q) && q[k] < |ts| && ts[q[k]].state == Runnable
    ensures forall j :: 0 <= j < k ==> q[j] >= |ts| || ts[q[j]].state != Runnable
  {
    if q[0] < |ts| && ts[q[0]].state == Runnable {
      k := 0;
    } else {
      k := FirstRunnableAt(ts, q[1..]);
      k := k + 1;
    }
  }

  /** Which position of the ring is at position k of the search. */
  lemma OrderFrom(s: Sys, k: nat) returns (m: nat)
    requires k < |s.ring|
    ensures m < |s.ring| && |Order(s)| == |s.ring| && Order(s)[k] == s.ring[m]
    ensures BoundedWaiting.Ahead(|s.ring|, From(s), m) == k
  {
    var n, f := |s.ring|, From(s);
    m := if f + 1 + k < n then f + 1 + k else f + 1 + k - n;
    OrderAt(s, m);
  }

  /** A switch goes to the next thread in the ring that can run. */
  lemma SwitchPicks(s: Sys) returns (i: int, m: nat)
    requires Inv(s)
    ensures NextInRing(s, Switch(s).current, i, m) && !Switch(s).pending
  {
    SwitchFinds(s);
    if s.current != -1 { assert ThreadOk(s, s.current); }
    i := if s.current == -1 then -1 else IndexOf(s.ring, s.current);
    OrderAt(s, 0);
    var k := FirstRunnableAt(Preempted(s), Order(s));
    m := OrderFrom(s, k);
    forall j | 0 <= j < |s.ring| && Ready(s, s.ring[j]) ensures if i < m then j <= i || m <= j else m <= j <= i {
      OrderAt(s, j);
    }
  }

  /** And only the two threads change state. */
  lemma SwitchStates(s: Sys, t: nat)
    requires Inv(s) && t < |s.ts|
    ensures |Switch(s).ts| == |s.ts|
    ensures Switch(s).ts[t] == s.ts[t].(state := if t == Switch(s).current then Running
                                                 else if s.ts[t].state == Running then Runnable else s.ts[t].state)
  {
    SwitchFinds(s);
    assert ThreadOk(s, t);
  }

  // ---- The timer ----

  /** Some sleeper's deadline has come. */
  ghost predicate SomeoneDue(s: Sys) {
    exists t :: 0 <= t < |s.ts| && s.ts[t].state == Sleeping && s.ts[t].wake <= s.ticks + 1
  }

  /** A tick asks for a switch exactly if one was asked for, the time slice of ten
      ticks is used up, or it wakes somebody. */
  lemma TickPendsIff(s: Sys)
    requires Inv(s)
    ensures Tick(s).pending <==> s.pending || s.rr == 1 || SomeoneDue(s)
    ensures Tick(s).rr == (if s.rr == 1 then 10 else s.rr - 1) && Tick(s).ticks == s.ticks + 1
    ensures Tick(s).ring == s.ring && Tick(s).current == s.current
  {
    var q, k := s.sleepers, Due(s.ts, s.sleepers, s.ticks + 1);
    if k > 0 {
      assert q[0] in q && ThreadOk(s, q[0]);
    }
    if SomeoneDue(s) {
      var t :| 0 <= t < |s.ts| && s.ts[t].state == Sleeping && s.ts[t].wake <= s.ticks + 1;
      assert ThreadOk(s, t);
      DueMeans(s.ts, q, s.ticks + 1, IndexOf(q, t));
    }
  }

  /** So a timer interrupt goes on to the next thread in the ring exactly then,
      among those that are awake after it, and otherwise lets the current one
      go on. */
  lemma InterruptGoesOn(s: Sys) returns (i: int, m: nat)
    requires Inv(s)
    ensures s.pending || s.rr == 1 || SomeoneDue(s) ==> NextInRing(Tick(s), Interrupt(s).current, i, m)
    ensures !(s.pending || s.rr == 1 || SomeoneDue(s)) ==>
      Interrupt(s).current == s.current && Interrupt(s).ts == s.ts && !Interrupt(s).pending
  {
    TickPendsIff(s);
    TickInv(s);
    i, m := SwitchPicks(Tick(s));
    if !(s.pending || s.rr == 1 || SomeoneDue(s)) {
      forall t: nat | t < |s.ts| ensures Tick(s).ts[t] == s.ts[t] {
        if s.ts[t].state == Sleeping {
          assert Due(s.ts, s.sleepers, s.ticks + 1) == 0;
        } else {
          TickSparesOthers(s, t);
        }
      }
    }
  }

  // ---- Sleeping ----

  /** The deadline in 32 bits, and the place among the sleepers. */
  lemma SleepMeans(s: Sys, n: nat) returns (k: nat)
    requires Inv(s) && Acting(s)
    ensures var s', t, wake := Sleep(s, n), s.current, (s.ticks + n) % 0x1_0000_0000;
      && s'.ts == s.ts[t := s.ts[t].(state := Sleeping, wake := wake)]
      && k <= |s.sleepers| && s'.sleepers == s.sleepers[..k] + [t] + s.sleepers[k..]
      && (forall j :: 0 <= j < k ==> s.sleepers[j] < |s.ts| && s.ts[s.sleepers[j]].wake <= wake)
      && (forall j :: k <= j < |s.sleepers| ==> s.sleepers[j] < |s.ts| && s.ts[s.sleepers[j]].wake > wake)
  {
    var t, s' := s.current, Sleep(s, n);
    k := Due(s'.ts, s.sleepers, s'.ts[t].wake);
    assert t !in s.sleepers by { assert ThreadOk(s, t); }
    forall j | 0 <= j < |s.sleepers| ensures s.sleepers[j] != t && s.sleepers[j] < |s.ts| {
      assert s.sleepers[j] in s.sleepers;
    }
    if k < |s.sleepers| {
      forall j | k <= j < |s.sleepers| ensures s.ts[s.sleepers[j]].wake > s'.ts[t].wake {
        assert s.ts[s.sleepers[k]].wake <= s.ts[s.sleepers[j]].wake;
      }
    }
  }
}
