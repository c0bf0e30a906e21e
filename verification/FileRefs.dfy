/** Reference counts of open files and their targets: each count is the number
    of things that name the object, plus one while its creator still does. An
    fd entry in limbo exists but its reference is not counted: it was just
    taken, or is just being given back. */
module FileRefs {
  import opened Lists
  import opened SlotPool

  datatype Refs = Refs(eUsed: seq<bool>, eOf: seq<int>, eLocal: seq<int>,
                       oUsed: seq<bool>, oRefs: seq<nat>, oTarget: seq<int>,
                       tUsed: seq<bool>, tRefs: seq<nat>,
                       oOwn: set<nat>, tOwn: set<nat>)

  predicate Sized(f: Refs) {
    && |f.eOf| == |f.eUsed| && |f.eLocal| == |f.eUsed|
    && |f.oRefs| == |f.oUsed| && |f.oTarget| == |f.oUsed| && |f.tRefs| == |f.tUsed|
  }

  /** The fd entries that name an open file. */
  ghost function Namers(f: Refs, o: int, limbo: set<nat>): set<nat>
    requires Sized(f)
  {
    set e | 0 <= e < |f.eUsed| && f.eUsed[e] && e !in limbo && f.eOf[e] == o
  }

  /** The open files that name a target. */
  ghost function Openers(f: Refs, t: int): set<nat>
    requires Sized(f)
  {
    OpenersIn(f.oUsed, f.oTarget, t)
  }

  ghost function OpenersIn(used: seq<bool>, targets: seq<int>, t: int): set<nat>
    requires |used| == |targets|
  {
    set o | 0 <= o < |used| && used[o] && targets[o] == t
  }

  predicate UsedFile(f: Refs, o: int) { 0 <= o < |f.oUsed| && f.oUsed[o] }

  predicate UsedTarget(f: Refs, t: int) { 0 <= t < |f.tUsed| && f.tUsed[t] }

  function One(x: nat, s: set<nat>): nat { if x in s then 1 else 0 }

  ghost predicate FileExact(f: Refs, o: nat, limbo: set<nat>)
    requires Sized(f)
  {
    UsedFile(f, o) ==>
      && f.oRefs[o] == |Namers(f, o, limbo)| + One(o, f.oOwn) && f.oRefs[o] > 0
      && (f.oTarget[o] == -1 || UsedTarget(f, f.oTarget[o]))
  }

  ghost predicate TargetExact(f: Refs, t: nat)
    requires Sized(f)
  {
    UsedTarget(f, t) ==> f.tRefs[t] == |Openers(f, t)| + One(t, f.tOwn) && f.tRefs[t] > 0
  }

  ghost predicate EntryExact(f: Refs, e: nat, limbo: set<nat>)
    requires Sized(f)
  {
    e < |f.eUsed| && f.eUsed[e] && e !in limbo ==> f.eOf[e] == -1 || UsedFile(f, f.eOf[e])
  }

  /** Every count is exact, nothing counted is zero, nothing names a free object. */
  ghost predicate Exact(f: Refs, limbo: set<nat>) {
    && Sized(f)
    && (forall o: nat :: FileExact(f, o, limbo))
    && (forall t: nat :: TargetExact(f, t))
    && (forall e: nat :: EntryExact(f, e, limbo))
    && (forall o :: o in f.oOwn ==> UsedFile(f, o))
    && (forall t :: t in f.tOwn ==> UsedTarget(f, t))
  }

  /** So an open file is in use exactly while its creator or an entry holds it. */
  lemma FileUsedIff(f: Refs, o: nat)
    requires Exact(f, {}) && o < |f.oUsed|
    ensures f.oUsed[o] <==> o in f.oOwn || exists e :: 0 <= e < |f.eUsed| && f.eUsed[e] && f.eOf[e] == o
  {
    assert FileExact(f, o, {});
    if f.oUsed[o] && o !in f.oOwn { var e :| e in Namers(f, o, {}); }
    forall e: nat | e < |f.eUsed| && f.eUsed[e] && f.eOf[e] == o ensures f.oUsed[o] { assert EntryExact(f, e, {}); }
  }

  /** And a target exactly while its creator or an open file holds it. */
  lemma TargetUsedIff(f: Refs, t: nat)
    requires Exact(f, {}) && t < |f.tUsed|
    ensures f.tUsed[t] <==> t in f.tOwn || exists o :: 0 <= o < |f.oUsed| && f.oUsed[o] && f.oTarget[o] == t
  {
    assert TargetExact(f, t);
    if f.tUsed[t] && t !in f.tOwn { var o :| o in Openers(f, t); }
    forall o: nat | o < |f.oUsed| && f.oUsed[o] && f.oTarget[o] == t ensures f.tUsed[t] { assert FileExact(f, o, {}); }
  }

  // ---- Entries ----

  function Taken(f: Refs, e: nat, o: int): Refs
    requires Sized(f) && e < |f.eUsed|
  {
    f.(eUsed := f.eUsed[e := true], eOf := f.eOf[e := o], eLocal := f.eLocal[e := 0])
  }

  lemma TakenExact(f: Refs, limbo: set<nat>, e: nat, o: int)
    requires Exact(f, limbo) && e < |f.eUsed| && !f.eUsed[e]
    ensures Exact(Taken(f, e, o), limbo + {e})
  {
    var f' := Taken(f, e, o);
    forall p: nat ensures FileExact(f', p, limbo + {e}) {
      assert FileExact(f, p, limbo);
      assert Namers(f', p, limbo + {e}) == Namers(f, p, limbo);
    }
    forall t: nat ensures TargetExact(f', t) {
      assert TargetExact(f, t);
      assert Openers(f', t) == Openers(f, t);
    }
    forall d: nat ensures EntryExact(f', d, limbo + {e}) { assert EntryExact(f, d, limbo); }
  }

  function Freed(f: Refs, e: nat): Refs
    requires Sized(f) && e < |f.eUsed|
  {
    f.(eUsed := f.eUsed[e := false], eOf := f.eOf[e := -1], eLocal := f.eLocal[e := 0])
  }

  lemma FreedExact(f: Refs, limbo: set<nat>, e: nat)
    requires Exact(f, limbo) && e < |f.eUsed| && e in limbo
    ensures Exact(Freed(f, e), limbo - {e})
  {
    var f' := Freed(f, e);
    forall p: nat ensures FileExact(f', p, limbo - {e}) {
      assert FileExact(f, p, limbo);
      assert Namers(f', p, limbo - {e}) == Namers(f, p, limbo);
    }
    forall t: nat ensures TargetExact(f', t) {
      assert TargetExact(f, t);
      assert Openers(f', t) == Openers(f, t);
    }
    forall d: nat ensures EntryExact(f', d, limbo - {e}) { assert EntryExact(f, d, limbo); }
  }

  // ---- Getting ----

  function Got(f: Refs, o: int): Refs
    requires Sized(f) && (o == -1 || UsedFile(f, o))
  {
    if o == -1 then f else f.(oRefs := f.oRefs[o := f.oRefs[o] + 1])
  }

  /** The reference of an entry in limbo is counted. */
  lemma GotExact(f: Refs, limbo: set<nat>, e: nat, o: int)
    requires Exact(f, limbo) && e < |f.eUsed| && f.eUsed[e] && e in limbo && f.eOf[e] == o
    requires (o == -1 || UsedFile(f, o))
    ensures Exact(Got(f, o), limbo - {e})
  {
    var f' := Got(f, o);
    forall p: nat ensures FileExact(f', p, limbo - {e}) {
      assert FileExact(f, p, limbo);
      NamersRelease(f, f', p, limbo, e);
    }
    forall t: nat ensures TargetExact(f', t) {
      assert TargetExact(f, t);
      assert Openers(f', t) == Openers(f, t);
    }
    forall d: nat ensures EntryExact(f', d, limbo - {e}) { assert EntryExact(f, d, limbo); }
  }

  lemma NamersRelease(f: Refs, f': Refs, p: int, limbo: set<nat>, e: nat)
    requires Sized(f) && Sized(f') && f'.eUsed == f.eUsed && f'.eOf == f.eOf
    requires e < |f.eUsed| && f.eUsed[e] && e in limbo
    ensures Namers(f', p, limbo - {e}) == Namers(f, p, limbo) + (if f.eOf[e] == p then {e} else {})
    ensures |Namers(f', p, limbo - {e})| == |Namers(f, p, limbo)| + if f.eOf[e] == p then 1 else 0
  {
    assert e !in Namers(f, p, limbo);
    assert Namers(f', p, limbo - {e}) == Namers(f, p, limbo) + (if f.eOf[e] == p then {e} else {});
  }

  // ---- Putting ----

  function TargetPut(f: Refs, t: int): Refs
    requires Sized(f) && (t == -1 || (UsedTarget(f, t) && f.tRefs[t] > 0))
  {
    if t == -1 then f
    else if f.tRefs[t] == 1 then f.(tRefs := f.tRefs[t := 0], tUsed := f.tUsed[t := false])
    else f.(tRefs := f.tRefs[t := f.tRefs[t] - 1])
  }

  function FilePut(f: Refs, o: int): Refs
    requires Sized(f) && (o == -1 || (UsedFile(f, o) && f.oRefs[o] > 0))
    requires o != -1 ==> f.oTarget[o] == -1 || (UsedTarget(f, f.oTarget[o]) && f.tRefs[f.oTarget[o]] > 0)
  {
    if o == -1 then f
    else if f.oRefs[o] == 1 then
      TargetPut(f, f.oTarget[o]).(oRefs := f.oRefs[o := 0], oUsed := f.oUsed[o := false], oTarget := f.oTarget[o := -1])
    else f.(oRefs := f.oRefs[o := f.oRefs[o] - 1])
  }

  /** No put underflows. */
  lemma CanPut(f: Refs, limbo: set<nat>, o: int)
    requires Exact(f, limbo) && UsedFile(f, o)
    ensures f.oRefs[o] > 0 && (f.oTarget[o] == -1 || (UsedTarget(f, f.oTarget[o]) && f.tRefs[f.oTarget[o]] > 0))
  {
    assert FileExact(f, o, limbo);
    assert f.oTarget[o] != -1 ==> TargetExact(f, f.oTarget[o]);
  }

  lemma NamersHold(f: Refs, f': Refs, p: int, limbo: set<nat>, e: nat)
    requires Sized(f) && Sized(f') && f'.eUsed == f.eUsed && f'.eOf == f.eOf
    requires e < |f.eUsed| && f.eUsed[e] && e !in limbo
    ensures Namers(f', p, limbo + {e}) == Namers(f, p, limbo) - (if f.eOf[e] == p then {e} else {})
    ensures |Namers(f', p, limbo + {e})| == |Namers(f, p, limbo)| - if f.eOf[e] == p then 1 else 0
  {
    assert f.eOf[e] == p ==> e in Namers(f, p, limbo);
    assert Namers(f', p, limbo + {e}) == Namers(f, p, limbo) - (if f.eOf[e] == p then {e} else {});
  }

  /** A put by whoever holds one of at least two references. */
  lemma PutKeepsFile(f: Refs, f': Refs, o: nat, limbo: set<nat>, limbo': set<nat>)
    requires Exact(f, limbo) && UsedFile(f, o) && f.oRefs[o] > 1
    requires f.oTarget[o] == -1 || (UsedTarget(f, f.oTarget[o]) && f.tRefs[f.oTarget[o]] > 0)
    requires f' == FilePut(f, o).(oOwn := f'.oOwn) && limbo <= limbo'
    requires forall p :: p in f'.oOwn <==> p in f.oOwn && (p != o || o in f'.oOwn)
    requires |Namers(f', o, limbo')| + One(o, f'.oOwn) == f.oRefs[o] - 1
    requires forall p: nat {:trigger Namers(f', p, limbo')} :: p != o ==>
        |Namers(f', p, limbo')| == |Namers(f, p, limbo)|
    ensures Exact(f', limbo')
  {
    forall p: nat ensures FileExact(f', p, limbo') {
      assert FileExact(f, p, limbo);
      assert p != o ==> |Namers(f', p, limbo')| == |Namers(f, p, limbo)|;
    }
    forall t: nat ensures TargetExact(f', t) {
      assert TargetExact(f, t);
      assert Openers(f', t) == Openers(f, t);
    }
    forall d: nat ensures EntryExact(f', d, limbo') { assert EntryExact(f, d, limbo); }
  }

  lemma OpenersDrop(f: Refs, f': Refs, o: nat, t: int)
    requires Sized(f) && Sized(f') && UsedFile(f, o) && t != -1
    requires f'.oUsed == f.oUsed[o := false] && f'.oTarget == f.oTarget[o := -1]
    ensures Openers(f', t) == Openers(f, t) - (if f.oTarget[o] == t then {o} else {})
    ensures |Openers(f', t)| == |Openers(f, t)| - if f.oTarget[o] == t then 1 else 0
  {
    assert f.oTarget[o] == t ==> o in Openers(f, t);
    assert Openers(f', t) == Openers(f, t) - (if f.oTarget[o] == t then {o} else {});
  }

  /** A put by the holder of the last reference. */
  lemma PutFreesFile(f: Refs, f': Refs, o: nat, limbo: set<nat>, limbo': set<nat>)
    requires Exact(f, limbo) && UsedFile(f, o) && f.oRefs[o] == 1
    requires f.oTarget[o] == -1 || (UsedTarget(f, f.oTarget[o]) && f.tRefs[f.oTarget[o]] > 0)
    requires f' == FilePut(f, o).(oOwn := f'.oOwn) && limbo <= limbo' && f'.oOwn == f.oOwn - {o}
    requires Namers(f', o, limbo') == {}
    requires forall p: nat {:trigger Namers(f', p, limbo')} :: p != o ==>
        |Namers(f', p, limbo')| == |Namers(f, p, limbo)|
    ensures Exact(f', limbo')
  {
    forall t: nat ensures TargetExact(f', t) {
      assert TargetExact(f, t);
      OpenersDrop(f, f', o, t);
    }
    forall p: nat ensures FileExact(f', p, limbo') {
      assert FileExact(f, p, limbo);
      assert p != o ==> |Namers(f', p, limbo')| == |Namers(f, p, limbo)|;
      if p != o && UsedFile(f, p) && f.oTarget[p] != -1 {
        LastOpener(f, f', o, p);
      }
    }
    forall d: nat ensures EntryExact(f', d, limbo') {
      assert EntryExact(f, d, limbo);
      assert d !in Namers(f', o, limbo');
    }
    forall t | t in f'.tOwn ensures UsedTarget(f', t) { assert TargetExact(f, t); OpenersDrop(f, f', o, t); }
  }

  /** A target that another open file names outlives this one. */
  lemma LastOpener(f: Refs, f': Refs, o: nat, p: nat)
    requires Sized(f) && UsedFile(f, o) && UsedFile(f, p) && o != p && (forall t: nat :: TargetExact(f, t))
    requires f.oTarget[o] == -1 || (UsedTarget(f, f.oTarget[o]) && f.tRefs[f.oTarget[o]] > 0)
    requires f.oRefs[o] == 1 && f' == FilePut(f, o).(oOwn := f'.oOwn) && UsedTarget(f, f.oTarget[p])
    ensures UsedTarget(f', f.oTarget[p])
  {
    var t := f.oTarget[p];
    if f.oTarget[o] == t {
      assert TargetExact(f, t);
      assert o in Openers(f, t) && p in Openers(f, t);
      assert |Openers(f, t)| >= 2 by {
        assert {o, p} <= Openers(f, t) && |{o, p}| == 2;
        SubsetSize({o, p}, Openers(f, t));
      }
    }
  }

  /** Dropping the reference of an entry, which goes into limbo. */
  lemma EntryPutExact(f: Refs, limbo: set<nat>, e: nat, o: int)
    requires Exact(f, limbo) && e < |f.eUsed| && f.eUsed[e] && e !in limbo && f.eOf[e] == o
    ensures o == -1 || (UsedFile(f, o) && f.oRefs[o] > 0)
    ensures o != -1 ==> f.oTarget[o] == -1 || (UsedTarget(f, f.oTarget[o]) && f.tRefs[f.oTarget[o]] > 0)
    ensures Exact(FilePut(f, o), limbo + {e})
  {
    assert EntryExact(f, e, limbo);
    if o == -1 {
      NothingPut(f, limbo, e);
      return;
    }
    CanPut(f, limbo, o);
    SomethingPut(f, limbo, e, o);
  }

  lemma SomethingPut(f: Refs, limbo: set<nat>, e: nat, o: nat)
    requires Exact(f, limbo) && e < |f.eUsed| && f.eUsed[e] && e !in limbo && f.eOf[e] == o && UsedFile(f, o)
    requires f.oRefs[o] > 0
    requires f.oTarget[o] == -1 || (UsedTarget(f, f.oTarget[o]) && f.tRefs[f.oTarget[o]] > 0)
    ensures Exact(FilePut(f, o), limbo + {e})
  {
    assert FileExact(f, o, limbo);
    var f' := FilePut(f, o);
    forall p: nat ensures |Namers(f', p, limbo + {e})| == |Namers(f, p, limbo)| - (if o == p then 1 else 0) {
      NamersHold(f, f', p, limbo, e);
    }
    if f.oRefs[o] > 1 {
      PutKeepsFile(f, f', o, limbo, limbo + {e});
    } else {
      assert |Namers(f', o, limbo + {e})| == |Namers(f, o, limbo)| - 1;
      PutFreesFile(f, f', o, limbo, limbo + {e});
    }
  }

  lemma NothingPut(f: Refs, limbo: set<nat>, e: nat)
    requires Exact(f, limbo) && e < |f.eUsed| && f.eUsed[e] && e !in limbo && f.eOf[e] == -1
    ensures Exact(f, limbo + {e})
  {
    forall p: nat ensures FileExact(f, p, limbo + {e}) {
      assert FileExact(f, p, limbo);
      NamersHold(f, f, p, limbo, e);
    }
    forall d: nat ensures EntryExact(f, d, limbo + {e}) { assert EntryExact(f, d, limbo); }
  }

  /** Dropping the creator's reference. */
  lemma CreatorPutExact(f: Refs, limbo: set<nat>, o: nat)
    requires Exact(f, limbo) && o in f.oOwn
    ensures UsedFile(f, o) && f.oRefs[o] > 0
    ensures f.oTarget[o] == -1 || (UsedTarget(f, f.oTarget[o]) && f.tRefs[f.oTarget[o]] > 0)
    ensures Exact(FilePut(f, o).(oOwn := f.oOwn - {o}), limbo)
    ensures UsedFile(FilePut(f, o), o) <==> Namers(f, o, limbo) != {}
  {
    CanPut(f, limbo, o);
    assert FileExact(f, o, limbo);
    var f' := FilePut(f, o).(oOwn := f.oOwn - {o});
    forall p: nat ensures Namers(f', p, limbo) == Namers(f, p, limbo) { }
    if f.oRefs[o] > 1 {
      PutKeepsFile(f, f', o, limbo, limbo);
    } else {
      PutFreesFile(f, f', o, limbo, limbo);
    }
  }

  // ---- New open files and targets ----

  lemma FreeHasNoNamers(f: Refs, limbo: set<nat>, o: nat)
    requires Exact(f, limbo) && !UsedFile(f, o)
    ensures Namers(f, o, limbo) == {} && o !in f.oOwn
  {
    assert forall e: nat :: e in Namers(f, o, limbo) ==> EntryExact(f, e, limbo);
  }

  lemma FreeHasNoOpeners(f: Refs, limbo: set<nat>, t: nat)
    requires Exact(f, limbo) && !UsedTarget(f, t)
    ensures Openers(f, t) == {} && t !in f.tOwn
  {
    assert forall o: nat :: o in Openers(f, t) ==> FileExact(f, o, limbo);
  }

  function FileMade(f: Refs, o: nat, t: int): Refs
    requires Sized(f) && o < |f.oUsed| && (t == -1 || UsedTarget(f, t))
  {
    var g := f.(oUsed := f.oUsed[o := true], oRefs := f.oRefs[o := 1], oTarget := f.oTarget[o := t],
      oOwn := f.oOwn + {o});
    if t == -1 then g else g.(tRefs := f.tRefs[t := f.tRefs[t] + 1])
  }

  lemma FileMadeFiles(f: Refs, limbo: set<nat>, o: nat, t: int, p: nat)
    requires Exact(f, limbo) && o < |f.oUsed| && !f.oUsed[o] && (t == -1 || UsedTarget(f, t))
    ensures FileExact(FileMade(f, o, t), p, limbo)
  {
    var f' := FileMade(f, o, t);
    FreeHasNoNamers(f, limbo, o);
    assert FileExact(f, p, limbo);
    assert Namers(f', p, limbo) == Namers(f, p, limbo);
  }

  lemma OpenersMade(used: seq<bool>, targets: seq<int>, o: nat, t: int, u: nat)
    requires |used| == |targets| && o < |used| && !used[o]
    ensures var n := |OpenersIn(used, targets, u)|;
      |OpenersIn(used[o := true], targets[o := t], u)| == if u == t then n + 1 else n
  {
    var us, us' := OpenersIn(used, targets, u), OpenersIn(used[o := true], targets[o := t], u);
    if u == t { assert us' == us + {o}; } else { assert us' == us; }
  }

  lemma FileMadeTargets(f: Refs, limbo: set<nat>, o: nat, t: int, u: nat)
    requires Exact(f, limbo) && o < |f.oUsed| && !f.oUsed[o] && (t == -1 || UsedTarget(f, t))
    ensures TargetExact(FileMade(f, o, t), u)
  {
    assert TargetExact(f, u);
    OpenersMade(f.oUsed, f.oTarget, o, t, u);
  }

  lemma FileMadeExact(f: Refs, limbo: set<nat>, o: nat, t: int)
    requires Exact(f, limbo) && o < |f.oUsed| && !f.oUsed[o] && (t == -1 || UsedTarget(f, t))
    ensures Exact(FileMade(f, o, t), limbo)
    ensures var f' := FileMade(f, o, t);
      && f'.oUsed == f.oUsed[o := true] && f'.oTarget == f.oTarget[o := t] && f'.oRefs == f.oRefs[o := 1]
      && f'.tRefs == (if t == -1 then f.tRefs else f.tRefs[t := f.tRefs[t] + 1]) && f'.tUsed == f.tUsed
      && f'.eUsed == f.eUsed && f'.eOf == f.eOf
  {
    var f' := FileMade(f, o, t);
    forall p: nat ensures FileExact(f', p, limbo) { FileMadeFiles(f, limbo, o, t, p); }
    forall u: nat ensures TargetExact(f', u) { FileMadeTargets(f, limbo, o, t, u); }
    forall d: nat ensures EntryExact(f', d, limbo) { assert EntryExact(f, d, limbo); }
  }

  function TargetMade(f: Refs, t: nat): Refs
    requires Sized(f) && t < |f.tUsed|
  {
    f.(tUsed := f.tUsed[t := true], tRefs := f.tRefs[t := 1], tOwn := f.tOwn + {t})
  }

  lemma TargetMadeExact(f: Refs, limbo: set<nat>, t: nat)
    requires Exact(f, limbo) && t < |f.tUsed| && !f.tUsed[t]
    ensures Exact(TargetMade(f, t), limbo)
  {
    var f' := TargetMade(f, t);
    FreeHasNoOpeners(f, limbo, t);
    forall p: nat ensures FileExact(f', p, limbo) {
      assert FileExact(f, p, limbo);
      assert Namers(f', p, limbo) == Namers(f, p, limbo);
    }
    forall u: nat ensures TargetExact(f', u) {
      assert TargetExact(f, u);
      assert Openers(f', u) == Openers(f, u);
    }
    forall d: nat ensures EntryExact(f', d, limbo) { assert EntryExact(f, d, limbo); }
  }

  // ---- Entries on top of others ----

  /** Entry e names the same open file by the same number. */
  ghost predicate SameEntry(f0: Refs, f: Refs, e: nat)
    requires Sized(f0) && Sized(f) && e < |f0.eUsed| == |f.eUsed|
  {
    f.eOf[e] == f0.eOf[e] && f.eLocal[e] == f0.eLocal[e]
  }

  /** f is f0 with the entries c added; everything else is the same. */
  ghost predicate OnTop(f0: Refs, f: Refs, c: seq<nat>) {
    true == (&& Exact(f0, {}) && Exact(f, {}) && Distinct(c)
             && |f.eUsed| == |f0.eUsed| && f.oUsed == f0.oUsed && f.oTarget == f0.oTarget && f.tUsed == f0.tUsed
             && f.tRefs == f0.tRefs
             && f.oOwn == f0.oOwn && f.tOwn == f0.tOwn
             && (forall e :: e in c ==> e < |f0.eUsed| && !f0.eUsed[e] && f.eUsed[e])
             && (forall e {:trigger f.eUsed[e]} {:trigger f0.eUsed[e]} :: 0 <= e < |f0.eUsed| && e !in c ==>
                   f.eUsed[e] == f0.eUsed[e] && (f0.eUsed[e] ==> SameEntry(f0, f, e))))
  }

  lemma AddOnTop(f0: Refs, f: Refs, c: seq<nat>, e: nat, o: int)
    requires OnTop(f0, f, c) && e < |f.eUsed| && !f.eUsed[e] && (o == -1 || UsedFile(f, o))
    ensures OnTop(f0, Got(Taken(f, e, o), o), c + [e])
  {
    TakenExact(f, {}, e, o);
    assert {} + {e} == {e} && {e} - {e} == {};
    GotExact(Taken(f, e, o), {e}, e, o);
    assert e !in c;
    var f' := Got(Taken(f, e, o), o);
    forall d | 0 <= d < |f0.eUsed| && d !in c + [e]
      ensures f'.eUsed[d] == f0.eUsed[d] && (f0.eUsed[d] ==> SameEntry(f0, f', d))
    {
      assert f.eUsed[d] == f0.eUsed[d];
    }
  }

  /** Counts do not depend on how entries are numbered. */
  lemma RenumberedExact(f: Refs, local: seq<int>, limbo: set<nat>)
    requires Exact(f, limbo) && |local| == |f.eUsed|
    ensures Exact(f.(eLocal := local), limbo)
  {
    var f' := f.(eLocal := local);
    forall o: nat ensures FileExact(f', o, limbo) {
      assert FileExact(f, o, limbo);
      assert Namers(f', o, limbo) == Namers(f, o, limbo);
    }
    forall t: nat ensures TargetExact(f', t) {
      assert TargetExact(f, t);
      assert Openers(f', t) == Openers(f, t);
    }
    forall e: nat ensures EntryExact(f', e, limbo) { assert EntryExact(f, e, limbo); }
  }

  /** The added entries get other numbers. */
  lemma RenumberOnTop(f0: Refs, f: Refs, c: seq<nat>, local: seq<int>)
    requires OnTop(f0, f, c) && |local| == |f.eUsed|
    requires forall e :: 0 <= e < |local| && e !in c ==> local[e] == f.eLocal[e]
    ensures OnTop(f0, f.(eLocal := local), c)
  {
    RenumberedExact(f, local, {});
    var f' := f.(eLocal := local);
    forall d | 0 <= d < |f0.eUsed| && d !in c
      ensures f'.eUsed[d] == f0.eUsed[d] && (f0.eUsed[d] ==> SameEntry(f0, f', d))
    {
      assert f.eUsed[d] == f0.eUsed[d];
    }
  }

  /** Added entries were free; when none is free any more, they are all. */
  lemma TopFits(f0: Refs, f: Refs, c: seq<nat>)
    requires OnTop(f0, f, c)
    ensures |c| <= |FreeSlots(f0.eUsed)|
    ensures FreeSlots(f.eUsed) == {} ==> |c| == |FreeSlots(f0.eUsed)|
  {
    TakenSlots(f0.eUsed, f.eUsed, c);
  }

  /** Something of f0 holds on to o: its creator, or an entry that names it. */
  ghost predicate Named(f0: Refs, o: int) {
    Sized(f0) && (o == -1 || o in f0.oOwn || exists d :: 0 <= d < |f0.eUsed| && f0.eUsed[d] && f0.eOf[d] == o)
  }

  /** With a second reference to the same open file, a put frees nothing. */
  lemma SharedPut(f0: Refs, f: Refs, c: seq<nat>, e: nat, o: nat)
    requires OnTop(f0, f, c) && e in c && e < |f.eOf| && f.eOf[e] == o && Named(f0, o)
    ensures UsedFile(f, o) && f.oRefs[o] > 1
  {
    assert EntryExact(f, e, {}) && FileExact(f, o, {});
    assert e in Namers(f, o, {});
    if o !in f0.oOwn {
      var d :| 0 <= d < |f0.eUsed| && f0.eUsed[d] && f0.eOf[d] == o;
      assert f.eUsed[d] == f0.eUsed[d];
      assert {e, d} <= Namers(f, o, {}) && |{e, d}| == 2;
      SubsetSize({e, d}, Namers(f, o, {}));
    } else {
      SubsetSize({e}, Namers(f, o, {}));
    }
  }

  /** Taking back the first of the added entries; what it names is held. */
  lemma DropOnTop(f0: Refs, f: Refs, c: seq<nat>, o: int)
    requires OnTop(f0, f, c) && c != [] && c[0] < |f.eUsed| && f.eOf[c[0]] == o && Named(f0, o)
    ensures o == -1 || (UsedFile(f, o) && f.oRefs[o] > 0)
    ensures o != -1 ==> f.oTarget[o] == -1 || (UsedTarget(f, f.oTarget[o]) && f.tRefs[f.oTarget[o]] > 0)
    ensures OnTop(f0, Freed(FilePut(f, o), c[0]), c[1..])
  {
    var e := c[0];
    assert e in c;
    EntryPutExact(f, {}, e, o);
    if o != -1 {
      SharedPut(f0, f, c, e, o);
    }
    assert {} + {e} == {e} && {e} - {e} == {};
    FreedExact(FilePut(f, o), {e}, e);
    DropRest(f0, f, Freed(FilePut(f, o), e), c);
  }

  lemma DropRest(f0: Refs, f: Refs, f': Refs, c: seq<nat>)
    requires OnTop(f0, f, c) && c != [] && c[0] < |f.eUsed| && Exact(f', {})
    requires f'.eUsed == f.eUsed[c[0] := false] && f'.eOf == f.eOf[c[0] := -1] && f'.eLocal == f.eLocal[c[0] := 0]
    requires f'.oUsed == f.oUsed && f'.oTarget == f.oTarget && f'.tUsed == f.tUsed && f'.tRefs == f.tRefs
    requires f'.oOwn == f.oOwn && f'.tOwn == f.tOwn
    ensures OnTop(f0, f', c[1..])
  {
    assert c == [c[0]] + c[1..];
    assert c[0] in c && c[0] !in c[1..];
    forall e | e in c[1..] ensures e < |f0.eUsed| && !f0.eUsed[e] && f'.eUsed[e] { assert e in c; }
    forall d | 0 <= d < |f0.eUsed| && d !in c[1..]
      ensures f'.eUsed[d] == f0.eUsed[d] && (f0.eUsed[d] ==> SameEntry(f0, f', d))
    {
      assert d != c[0] ==> f.eUsed[d] == f0.eUsed[d];
    }
  }

  /** When nothing is left on top, every count is what it was. */
  lemma NothingOnTop(f0: Refs, f: Refs, o: nat)
    requires OnTop(f0, f, [])
    ensures f.eUsed == f0.eUsed && (UsedFile(f0, o) ==> f.oRefs[o] == f0.oRefs[o])
  {
    assert f.eUsed == f0.eUsed;
    assert FileExact(f, o, {}) && FileExact(f0, o, {});
    assert Namers(f, o, {}) == Namers(f0, o, {});
  }
}
