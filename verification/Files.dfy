/** File descriptor tables: pools of fd entries, open files and targets, and a
    linked list of entries per process. */
module Files {
  import opened Lists
  import opened SlotPool
  import opened FileRefs

  /** The first k entries of s are copied, in order, to c. */
  ghost predicate CopyOf(eOf: seq<int>, eLocal: seq<int>, s: seq<nat>, c: seq<nat>) {
    && |c| <= |s| && |eLocal| == |eOf|
    && (forall i {:trigger c[i]} :: 0 <= i < |c| ==>
        s[i] < |eOf| && c[i] < |eOf| && eOf[c[i]] == eOf[s[i]] && eLocal[c[i]] == eLocal[s[i]])
  }

  lemma CopyMore(eOf: seq<int>, eLocal: seq<int>, s: seq<nat>, c: seq<nat>, e: nat)
    requires CopyOf(eOf, eLocal, s, c) && |c| < |s| && s[|c|] < |eOf| && e < |eOf|
    requires e !in c && e !in s
    ensures CopyOf(eOf[e := eOf[s[|c|]]], eLocal[e := eLocal[s[|c|]]], s, c + [e])
  {
    forall i | 0 <= i < |c| ensures c[i] != e && s[i] != e { assert c[i] in c && s[i] in s; }
    assert s[|c|] in s;
  }

  /** What each entry of c names is held by something of f0. */
  ghost predicate Backed(f0: Refs, eOf: seq<int>, c: seq<nat>) {
    forall i {:trigger c[i]} :: 0 <= i < |c| ==> c[i] < |eOf| && Named(f0, eOf[c[i]])
  }

  lemma BackedMore(f0: Refs, eOf: seq<int>, c: seq<nat>, e: nat, o: int)
    requires Backed(f0, eOf, c) && e < |eOf| && Named(f0, o)
    ensures Backed(f0, eOf[e := o], c + [e])
  {
  }

  lemma BackedRest(f0: Refs, eOf: seq<int>, c: seq<nat>)
    requires Backed(f0, eOf, c) && c != [] && Distinct(c)
    ensures c[0] < |eOf| && Backed(f0, eOf[c[0] := -1], c[1..])
  {
    forall i | 0 <= i < |c[1..]| ensures c[1..][i] < |eOf| && c[1..][i] != c[0] && Named(f0, eOf[c[1..][i]]) {
      assert c[1..][i] == c[i + 1];
    }
  }

  /** Entries c have been made on top of f0, linked from head to tail, beside
      the lists that are there. */
  ghost predicate BuiltOn(f0: Refs, f: Refs, next: seq<int>, heads: seq<int>, lists: seq<seq<nat>>, home: map<nat, nat>,
                          head: int, tail: int, c: seq<nat>)
  {
    && OnTop(f0, f, c) && |next| == |f.eUsed| && Chains(next, heads, lists, home)
    && (forall e :: e in home ==> e < |f0.eUsed| && f0.eUsed[e] && e !in c)
    && Linked(next, head, c) && Backed(f0, f.eOf, c)
    && tail == if c == [] then -1 else c[|c| - 1]
  }

  /** The links once x is behind the tail. */
  function Appended(next: seq<int>, tail: int, x: nat): seq<int>
    requires x < |next| && -1 <= tail < |next|
  {
    if tail == -1 then next[x := -1] else next[x := -1][tail := x]
  }

  lemma AppendLinks(next: seq<int>, heads: seq<int>, lists: seq<seq<nat>>, home: map<nat, nat>, head: int, tail: int,
                    c: seq<nat>, x: nat)
    requires Chains(next, heads, lists, home) && Linked(next, head, c) && tail == (if c == [] then -1 else c[|c| - 1])
    requires x < |next| && x !in c && x !in home && forall e :: e in home ==> e !in c
    ensures -1 <= tail < |next|
    ensures Chains(Appended(next, tail, x), heads, lists, home)
    ensures Linked(Appended(next, tail, x), if tail == -1 then x else head, c + [x])
  {
    assert c != [] ==> tail in c;
    LinkedFrame(next, next[x := -1], head, c);
    LinkLast(next[x := -1], head, c, x);
    ChainsFrame(next, Appended(next, tail, x), heads, lists, home);
    assert c == [] ==> c + [x] == [x];
  }

  lemma BuiltNumbered(f0: Refs, f: Refs, next: seq<int>, heads: seq<int>, lists: seq<seq<nat>>, home: map<nat, nat>,
                      head: int, tail: int, c: seq<nat>, local: seq<int>)
    requires BuiltOn(f0, f, next, heads, lists, home, head, tail, c) && |local| == |f.eUsed|
    requires forall e :: 0 <= e < |local| && e !in c ==> local[e] == f.eLocal[e]
    ensures BuiltOn(f0, f.(eLocal := local), next, heads, lists, home, head, tail, c)
  {
    RenumberOnTop(f0, f, c, local);
  }

  lemma BuiltMore(f0: Refs, f: Refs, next: seq<int>, heads: seq<int>, lists: seq<seq<nat>>, home: map<nat, nat>,
                  head: int, tail: int, c: seq<nat>, x: nat, o: int)
    requires BuiltOn(f0, f, next, heads, lists, home, head, tail, c)
    requires x < |f.eUsed| && !f.eUsed[x] && (o == -1 || UsedFile(f, o)) && Named(f0, o)
    ensures -1 <= tail < |next| && x !in c && x !in home
    ensures BuiltOn(f0, Got(Taken(f, x, o), o), Appended(next, tail, x), heads, lists, home,
                    if tail == -1 then x else head, x, c + [x])
  {
    assert x !in c;
    assert f.eUsed[x] == f0.eUsed[x];
    AddOnTop(f0, f, c, x, o);
    AppendLinks(next, heads, lists, home, head, tail, c, x);
    BackedMore(f0, f.eOf, c, x, o);
  }

  /** The copy stands at the |c|-th entry of s. */
  ghost predicate CopyingOn(f0: Refs, f: Refs, next: seq<int>, heads: seq<int>, lists: seq<seq<nat>>,
                            home: map<nat, nat>, s: seq<nat>, head: int, tail: int, c: seq<nat>, src: int)
  {
    && BuiltOn(f0, f, next, heads, lists, home, head, tail, c)
    && CopyOf(f.eOf, f.eLocal, s, c) && (forall i :: 0 <= i < |s| ==> s[i] in home)
    && src == if |c| < |s| then s[|c|] else -1
  }

  lemma SourceFacts(f0: Refs, f: Refs, next: seq<int>, heads: seq<int>, lists: seq<seq<nat>>,
                    home: map<nat, nat>, s: seq<nat>, head: int, tail: int, c: seq<nat>, src: nat)
    requires CopyingOn(f0, f, next, heads, lists, home, s, head, tail, c, src)
    ensures |c| < |s| && src == s[|c|] && src in home && src < |f.eOf| == |f.eLocal|
    ensures Named(f0, f.eOf[src]) && (f.eOf[src] == -1 || UsedFile(f, f.eOf[src]))
  {
    assert s[|c|] in home;
    ListedNames(f0, f, c, src);
  }

  lemma CopyStep(f0: Refs, f: Refs, eOf: seq<int>, local: seq<int>, next: seq<int>, heads: seq<int>,
                 lists: seq<seq<nat>>, home: map<nat, nat>, parent: nat, head: int, e: nat, c: seq<nat>)
    requires parent < |lists| && BuiltOn(f0, f, next, heads, lists, home, head, e, c + [e])
    requires var s := lists[parent];
      && CopyOf(eOf, local, s, c) && |c| < |s| && s[|c|] < |eOf| && e < |eOf|
      && (forall i :: 0 <= i < |s| ==> s[i] in home)
      && f.eOf == eOf[e := eOf[s[|c|]]] && f.eLocal == local[e := local[s[|c|]]]
    requires e !in c && e !in home
    ensures var s := lists[parent];
      && s[|c|] < |next| && CopyingOn(f0, f, next, heads, lists, home, s, head, e, c + [e], next[s[|c|]])
  {
    var s := lists[parent];
    CopyMore(eOf, local, s, c, e);
    ChainNext(next, heads, lists, home, parent, |c|);
  }

  lemma StartBuilt(f: Refs, next: seq<int>, heads: seq<int>, lists: seq<seq<nat>>, home: map<nat, nat>)
    requires Exact(f, {}) && |next| == |f.eUsed| && Chains(next, heads, lists, home)
    requires forall e :: e in home ==> e < |f.eUsed| && f.eUsed[e]
    ensures BuiltOn(f, f, next, heads, lists, home, -1, -1, [])
  {
  }

  lemma StartCopying(f: Refs, next: seq<int>, heads: seq<int>, lists: seq<seq<nat>>, home: map<nat, nat>, parent: nat)
    requires Exact(f, {}) && |next| == |f.eUsed| && Chains(next, heads, lists, home) && parent < |lists|
    requires forall e :: e in home ==> e < |f.eUsed| && f.eUsed[e]
    ensures CopyingOn(f, f, next, heads, lists, home, lists[parent], -1, -1, [], heads[parent])
  {
    StartBuilt(f, next, heads, lists, home);
    assert forall i :: 0 <= i < |lists[parent]| ==> lists[parent][i] in lists[parent];
  }

  lemma CopyDone(f0: Refs, f: Refs, next: seq<int>, heads: seq<int>, lists: seq<seq<nat>>, home: map<nat, nat>,
                 s: seq<nat>, head: int, tail: int, c: seq<nat>)
    requires CopyingOn(f0, f, next, heads, lists, home, s, head, tail, c, -1)
    ensures |c| == |s| <= |FreeSlots(f0.eUsed)|
  {
    TopFits(f0, f, c);
  }

  /** The first added entry goes. */
  lemma BuiltLess(f0: Refs, f: Refs, next: seq<int>, heads: seq<int>, lists: seq<seq<nat>>, home: map<nat, nat>,
                  head: nat, tail: int, c: seq<nat>)
    requires BuiltOn(f0, f, next, heads, lists, home, head, tail, c)
    ensures c != [] && head == c[0] && head < |f.eOf| == |next| && next[head] == (if |c| > 1 then c[1] else -1)
    ensures var o := f.eOf[head];
      && (o == -1 || (UsedFile(f, o) && f.oRefs[o] > 0))
      && (o != -1 ==> f.oTarget[o] == -1 || (UsedTarget(f, f.oTarget[o]) && f.tRefs[f.oTarget[o]] > 0))
      && BuiltOn(f0, Freed(FilePut(f, o), head), next[head := -1], heads, lists, home, next[head],
        if |c| > 1 then tail else -1, c[1..])
  {
    FrontLinks(next, heads, lists, home, head, c);
    FrontRefs(f0, f, c);
    assert c == [c[0]] + c[1..];
  }

  lemma FrontRefs(f0: Refs, f: Refs, c: seq<nat>)
    requires OnTop(f0, f, c) && c != [] && Backed(f0, f.eOf, c)
    ensures c[0] < |f.eOf|
    ensures var o := f.eOf[c[0]];
      && (o == -1 || (UsedFile(f, o) && f.oRefs[o] > 0))
      && (o != -1 ==> f.oTarget[o] == -1 || (UsedTarget(f, f.oTarget[o]) && f.tRefs[f.oTarget[o]] > 0))
      && OnTop(f0, Freed(FilePut(f, o), c[0]), c[1..]) && Backed(f0, Freed(FilePut(f, o), c[0]).eOf, c[1..])
  {
    var o := f.eOf[c[0]];
    assert Named(f0, o);
    DropOnTop(f0, f, c, o);
    BackedRest(f0, f.eOf, c);
  }

  lemma FrontLinks(next: seq<int>, heads: seq<int>, lists: seq<seq<nat>>, home: map<nat, nat>, head: int, c: seq<nat>)
    requires Chains(next, heads, lists, home) && Linked(next, head, c) && c != [] && forall e :: e in home ==> e !in c
    ensures head == c[0] && head < |next| && next[head] == (if |c| > 1 then c[1] else -1)
    ensures Linked(next[head := -1], next[head], c[1..]) && Chains(next[head := -1], heads, lists, home)
  {
    assert next[c[0]] == LinkAfter(c, 0);
    UnlinkFront(next, head, c);
    assert RemoveAt(c, 0) == c[1..];
    assert c[0] in c;
    LinkedFrame(next, next[head := -1], next[head], c[1..]);
    ChainsFrame(next, next[head := -1], heads, lists, home);
  }

  /** Entries c have been made on top of f0, all naming o, in no list yet. */
  ghost predicate LooseOn(f0: Refs, f: Refs, next: seq<int>, heads: seq<int>, lists: seq<seq<nat>>, home: map<nat, nat>,
                          c: seq<nat>, o: int)
  {
    && OnTop(f0, f, c) && |next| == |f.eUsed| && Chains(next, heads, lists, home)
    && (forall e :: e in home ==> e < |f0.eUsed| && f0.eUsed[e] && e !in c)
    && (o == -1 || o in f0.oOwn) && (forall e :: e in c ==> f.eOf[e] == o)
  }

  lemma LooseMore(f0: Refs, f: Refs, next: seq<int>, heads: seq<int>, lists: seq<seq<nat>>, home: map<nat, nat>,
                  c: seq<nat>, x: nat, o: int)
    requires LooseOn(f0, f, next, heads, lists, home, c, o) && x < |f.eUsed| && !f.eUsed[x]
    ensures o == -1 || UsedFile(f, o)
    ensures LooseOn(f0, Got(Taken(f, x, o), o), next[x := -1], heads, lists, home, c + [x], o)
  {
    assert f.eUsed[x] == f0.eUsed[x];
    AddOnTop(f0, f, c, x, o);
    ChainsFrame(next, next[x := -1], heads, lists, home);
  }

  lemma LooseLess(f0: Refs, f: Refs, next: seq<int>, heads: seq<int>, lists: seq<seq<nat>>, home: map<nat, nat>,
                  c: seq<nat>, x: nat, o: int)
    requires LooseOn(f0, f, next, heads, lists, home, [x] + c, o)
    ensures x < |f.eUsed| && (o == -1 || (UsedFile(f, o) && f.oRefs[o] > 0))
    ensures o != -1 ==> f.oTarget[o] == -1 || (UsedTarget(f, f.oTarget[o]) && f.tRefs[f.oTarget[o]] > 0)
    ensures LooseOn(f0, Freed(FilePut(f, o), x), next[x := -1], heads, lists, home, c, o)
  {
    var d := [x] + c;
    assert d[0] in d && d[1..] == c;
    DropOnTop(f0, f, d, o);
    ChainsFrame(next, next[x := -1], heads, lists, home);
    forall e | e in c ensures e in d && e != x { var i :| 0 <= i < |c| && c[i] == e; assert d[i + 1] == e; }
  }

  /** The entry, if there is one. */
  ghost function Maybe(e: int): seq<nat> { if e < 0 then [] else [e] }

  /** Three loose entries, linked. */
  lemma LooseIsBuilt(f0: Refs, f: Refs, next: seq<int>, heads: seq<int>, lists: seq<seq<nat>>, home: map<nat, nat>,
                     a: nat, b: nat, c: nat, o: int)
    requires LooseOn(f0, f, next, heads, lists, home, [a, b, c], o) && a < |next| && b < |next| && c < |next|
    requires next[c] == -1
    ensures BuiltOn(f0, f, next[a := b][b := c], heads, lists, home, a, c, [a, b, c])
  {
    var s := [a, b, c];
    assert s[0] in s && s[1] in s && s[2] in s;
    assert a != b && b != c && a != c by { assert Distinct(s); assert s[0] != s[1] && s[1] != s[2] && s[0] != s[2]; }
    var next' := next[a := b][b := c];
    assert LinkAfter(s, 0) == b && LinkAfter(s, 1) == c && LinkAfter(s, 2) == -1;
    assert next'[s[0]] == b && next'[s[1]] == c && next'[s[2]] == -1;
    ChainsFrame(next, next', heads, lists, home);
  }

  /** The new list becomes the one of process p, which had none. */
  lemma Attach(f0: Refs, f: Refs, next: seq<int>, heads: seq<int>, lists: seq<seq<nat>>, home: map<nat, nat>,
               head: int, tail: int, c: seq<nat>, p: nat)
    requires BuiltOn(f0, f, next, heads, lists, home, head, tail, c) && p < |lists| && lists[p] == []
    requires forall e {:trigger f0.eUsed[e]} :: 0 <= e < |f0.eUsed| && f0.eUsed[e] ==> e in home
    ensures Chains(next, heads[p := head], lists[p := c], Lists.Settled(home, c, p))
    ensures forall e :: e in Lists.Settled(home, c, p) ==> e < |f.eUsed| && f.eUsed[e]
    ensures forall e {:trigger f.eUsed[e]} :: 0 <= e < |f.eUsed| && f.eUsed[e] ==> e in Lists.Settled(home, c, p)
  {
    ChainAdopt(next, heads, lists, home, p, head, c);
    forall e | e in Lists.Settled(home, c, p) ensures e < |f.eUsed| && f.eUsed[e] {
      assert e !in c ==> e in home && f.eUsed[e] == f0.eUsed[e];
    }
    forall e | 0 <= e < |f.eUsed| && f.eUsed[e] ensures e in Lists.Settled(home, c, p) {
      assert e !in c ==> f.eUsed[e] == f0.eUsed[e];
    }
  }

  /** A listed entry names nothing, or an open file. */
  lemma ListedNames(f0: Refs, f: Refs, c: seq<nat>, d: nat)
    requires OnTop(f0, f, c) && d < |f0.eUsed| && f0.eUsed[d] && d !in c
    ensures f.eOf[d] == f0.eOf[d] && Named(f0, f.eOf[d]) && (f.eOf[d] == -1 || UsedFile(f, f.eOf[d]))
  {
    assert f.eUsed[d] == f0.eUsed[d];
    assert EntryExact(f0, d, {});
  }

  /** Three descriptors, numbered 0, 1 and 2, on one open file. */
  ghost predicate ThreeOn(eOf: seq<int>, eLocal: seq<int>, s: seq<nat>, o: int) {
    |s| == 3 && forall i {:trigger s[i]} :: 0 <= i < 3 ==>
        s[i] < |eOf| && s[i] < |eLocal| && eOf[s[i]] == o && eLocal[s[i]] == i
  }

  lemma LinkedThree(f0: Refs, f: Refs, next: seq<int>, heads: seq<int>, lists: seq<seq<nat>>, home: map<nat, nat>,
                    a: nat, b: nat, c: nat, o: int)
    requires LooseOn(f0, f, next, heads, lists, home, Maybe(a) + Maybe(b) + Maybe(c), o)
    requires c < |next| && next[c] == -1
    ensures a < |next| && b < |next| && a < |f.eLocal| && b < |f.eLocal| && c < |f.eLocal|
    ensures var local := f.eLocal[a := 0][b := 1][c := 2];
      && BuiltOn(f0, f.(eLocal := local), next[a := b][b := c], heads, lists, home, a, c, [a, b, c])
      && ThreeOn(f.eOf, local, [a, b, c], o)
  {
    var s := [a, b, c];
    assert Maybe(a) + Maybe(b) + Maybe(c) == s;
    assert s[0] in s && s[1] in s && s[2] in s;
    assert s[0] != s[1] && s[1] != s[2] && s[0] != s[2];
    LooseIsBuilt(f0, f, next, heads, lists, home, a, b, c, o);
    NumberedThree(f.eOf, f.eLocal, a, b, c, o);
    BuiltNumbered(f0, f, next[a := b][b := c], heads, lists, home, a, c, s, f.eLocal[a := 0][b := 1][c := 2]);
  }

  lemma NumberedThree(eOf: seq<int>, eLocal: seq<int>, a: nat, b: nat, c: nat, o: int)
    requires a < |eLocal| && b < |eLocal| && c < |eLocal| && a != b && b != c && a != c && |eOf| == |eLocal|
    requires eOf[a] == o && eOf[b] == o && eOf[c] == o
    ensures ThreeOn(eOf, eLocal[a := 0][b := 1][c := 2], [a, b, c], o)
    ensures forall e :: 0 <= e < |eLocal| && e !in [a, b, c] ==> eLocal[a := 0][b := 1][c := 2][e] == eLocal[e]
  {
    var s := [a, b, c];
    assert s[0] in s && s[1] in s && s[2] in s;
  }

  /** Of the open files of f0, those that are left are what they were. */
  ghost predicate FilesKept(f0: Refs, f: Refs) {
    && Sized(f0) && Sized(f) && |f.oUsed| == |f0.oUsed| && |f.eUsed| == |f0.eUsed|
    && f.oOwn == f0.oOwn && f.tOwn == f0.tOwn
    && (forall o {:trigger f.oUsed[o]} :: 0 <= o < |f.oUsed| && f.oUsed[o] ==>
        f0.oUsed[o] && f.oTarget[o] == f0.oTarget[o])
  }

  /** Every listed entry names what it named, by the same number. */
  ghost predicate EntriesKept(f0: Refs, f: Refs, lists: seq<seq<nat>>) {
    && Sized(f0) && Sized(f) && |f.eUsed| == |f0.eUsed|
    && forall p, e :: 0 <= p < |lists| && e in lists[p] ==> e < |f.eUsed| && SameEntry(f0, f, e)
  }

  /** A process's list is being given back: s is what is left of it, and no
      longer counts as a list. */
  ghost predicate CleaningOn(f0: Refs, f: Refs, next: seq<int>, heads: seq<int>, lists: seq<seq<nat>>,
                             home: map<nat, nat>, it: int, s: seq<nat>)
  {
    && Exact(f, {}) && |next| == |f.eUsed| && Chains(next, heads, lists, home) && Linked(next, it, s)
    && FilesKept(f0, f)
    && (forall e :: e in home ==> e < |f.eUsed| && f.eUsed[e] && e !in s && SameEntry(f0, f, e))
    && (forall e :: e in s ==> e < |f.eUsed| && f.eUsed[e])
    && (forall e {:trigger f.eUsed[e]} :: 0 <= e < |f.eUsed| && f.eUsed[e] ==> e in home || e in s)
  }

  lemma StartCleaning(f: Refs, next: seq<int>, heads: seq<int>, lists: seq<seq<nat>>, home: map<nat, nat>, p: nat)
    requires Exact(f, {}) && |next| == |f.eUsed| && Chains(next, heads, lists, home) && p < |lists|
    requires forall e :: e in home ==> e < |f.eUsed| && f.eUsed[e]
    requires forall e {:trigger f.eUsed[e]} :: 0 <= e < |f.eUsed| && f.eUsed[e] ==> e in home
    ensures CleaningOn(f, f, next, heads[p := -1], lists[p := []], Evicted(home, p), heads[p], lists[p])
  {
    ChainDrop(next, heads, lists, home, p);
    ListIsHome(next, heads, lists, home, p);
  }

  /** Giving back one listed entry, as far as counts go. */
  lemma CleanRefs(f0: Refs, f: Refs, it: nat)
    requires Exact(f, {}) && FilesKept(f0, f) && it < |f.eUsed| && f.eUsed[it]
    ensures var o := f.eOf[it];
      && (o == -1 || (UsedFile(f, o) && f.oRefs[o] > 0))
      && (o != -1 ==> f.oTarget[o] == -1 || (UsedTarget(f, f.oTarget[o]) && f.tRefs[f.oTarget[o]] > 0))
      && Exact(Freed(FilePut(f, o), it), {}) && FilesKept(f0, Freed(FilePut(f, o), it))
      && FilePut(f, o).eUsed == f.eUsed && FilePut(f, o).eOf == f.eOf && FilePut(f, o).eLocal == f.eLocal
  {
    EntryPutExact(f, {}, it, f.eOf[it]);
    assert {} + {it} == {it} && {it} - {it} == {};
    FreedExact(FilePut(f, f.eOf[it]), {it}, it);
  }

  lemma CleanStep(f0: Refs, f: Refs, next: seq<int>, heads: seq<int>, lists: seq<seq<nat>>, home: map<nat, nat>,
                  it: nat, s: seq<nat>)
    requires CleaningOn(f0, f, next, heads, lists, home, it, s)
    ensures s != [] && it == s[0] && it < |next| == |f.eOf|
    ensures var o := f.eOf[it];
      && (o == -1 || (UsedFile(f, o) && f.oRefs[o] > 0))
      && (o != -1 ==> f.oTarget[o] == -1 || (UsedTarget(f, f.oTarget[o]) && f.tRefs[f.oTarget[o]] > 0))
      && CleaningOn(f0, Freed(FilePut(f, o), it), next[it := -1], heads, lists, home, next[it], s[1..])
  {
    assert s[0] in s && s == [s[0]] + s[1..] && s[0] !in s[1..];
    FrontLinks(next, heads, lists, home, it, s);
    CleanRefs(f0, f, it);
    forall e | e in s[1..] ensures e in s && e != it { }
  }

  lemma CleanDone(f0: Refs, f: Refs, next: seq<int>, heads: seq<int>, lists: seq<seq<nat>>, home: map<nat, nat>,
                  s: seq<nat>)
    requires CleaningOn(f0, f, next, heads, lists, home, -1, s)
    ensures FilesKept(f0, f) && EntriesKept(f0, f, lists)
    ensures Exact(f, {}) && |next| == |f.eUsed| && Chains(next, heads, lists, home)
    ensures forall e :: e in home ==> e < |f.eUsed| && f.eUsed[e]
    ensures forall e {:trigger f.eUsed[e]} :: 0 <= e < |f.eUsed| && f.eUsed[e] ==> e in home
  {
    assert s == [];
    forall p, e | 0 <= p < |lists| && e in lists[p] ensures e in home { ListIsHome(next, heads, lists, home, p); }
  }

  /** Position i of a list is the first that carries a local number. */
  ghost predicate FirstWith(eLocal: seq<int>, s: seq<nat>, fd: int, i: nat) {
    && i < |s| && (forall j :: 0 <= j <= i ==> s[j] < |eLocal|)
    && eLocal[s[i]] == fd && (forall j :: 0 <= j < i ==> eLocal[s[j]] != fd)
  }

  class FileTable {
    var eUsed: seq<bool>
    var eOf: seq<int>
    var eLocal: seq<int>
    var eNext: seq<int>
    var oUsed: seq<bool>
    var oRefs: seq<nat>
    var oTarget: seq<int>
    var tUsed: seq<bool>
    var tRefs: seq<nat>
    /** Each process's list of entries. */
    var fdHeads: seq<int>
    ghost var lists: seq<seq<nat>>
    ghost var home: map<nat, nat>
    /** The open files and targets whose creator still holds a reference. */
    ghost var oOwn: set<nat>
    ghost var tOwn: set<nat>

    ghost function Now(): Refs
      reads this
    {
      Refs(eUsed, eOf, eLocal, oUsed, oRefs, oTarget, tUsed, tRefs, oOwn, tOwn)
    }

    ghost predicate Listed()
      reads this
    {
      && |eNext| == |eUsed|
      && Chains(eNext, fdHeads, lists, home)
      && (forall e :: e in home ==> e < |eUsed| && eUsed[e])
    }

    /** Counts are exact, and the entries in use are the listed ones. */
    ghost predicate Valid()
      reads this
    {
      && Exact(Now(), {}) && Listed()
      && (forall e {:trigger eUsed[e]} :: 0 <= e < |eUsed| && eUsed[e] ==> e in home)
    }

    constructor (entries: nat, files: nat, targets: nat, processes: nat)
      ensures Valid() && |lists| == processes && forall p :: 0 <= p < processes ==> lists[p] == []
    {
      eUsed, eOf, eLocal, eNext := seq(entries, _ => false), seq(entries, _ => -1), seq(entries, _ => 0),
        seq(entries, _ => -1);
      oUsed, oRefs, oTarget := seq(files, _ => false), seq(files, _ => 0), seq(files, _ => -1);
      tUsed, tRefs := seq(targets, _ => false), seq(targets, _ => 0);
      fdHeads := seq(processes, _ => -1);
      lists, home, oOwn, tOwn := seq(processes, _ => []), map[], {}, {};
    }

    /** Open files and targets are in use exactly while something holds them: a
        creator, an entry that names the file, an open file on the target. */
    ghost predicate HeldInUse()
      reads this
    {
      && |eOf| == |eUsed| && |oTarget| == |oUsed|
      && (forall o {:trigger oUsed[o]} :: 0 <= o < |oUsed| ==>
            (oUsed[o] <==> o in oOwn || exists e :: 0 <= e < |eUsed| && eUsed[e] && eOf[e] == o))
      && (forall t {:trigger tUsed[t]} :: 0 <= t < |tUsed| ==>
            (tUsed[t] <==> t in tOwn || exists o :: 0 <= o < |oUsed| && oUsed[o] && oTarget[o] == t))
      && (forall o {:trigger oTarget[o]} :: 0 <= o < |oUsed| && oUsed[o] && oTarget[o] != -1 ==>
            0 <= oTarget[o] < |tUsed| && tUsed[oTarget[o]])
    }

    lemma HeldMeans()
      requires Valid()
      ensures HeldInUse()
    {
      forall o: nat | o < |oUsed|
        ensures oUsed[o] <==> o in oOwn || exists e :: 0 <= e < |eUsed| && eUsed[e] && eOf[e] == o
        ensures oUsed[o] && oTarget[o] != -1 ==> UsedTarget(Now(), oTarget[o])
      {
        FileUsedIff(Now(), o);
        assert FileExact(Now(), o, {});
      }
      forall t: nat | t < |tUsed|
        ensures tUsed[t] <==> t in tOwn || exists o :: 0 <= o < |oUsed| && oUsed[o] && oTarget[o] == t
      {
        TargetUsedIff(Now(), t);
      }
    }

    // ---- Pools ----

    /** An fd entry that names o; its reference is not counted yet. */
    method AllocEntry(o: int) returns (e: int)
      requires Sized(Now()) && |eNext| == |eUsed|
      modifies this`eUsed, this`eOf, this`eLocal, this`eNext
      ensures e == -1 <==> FreeSlots(old(eUsed)) == {}
      ensures e == -1 ==> eUsed == old(eUsed) && eOf == old(eOf) && eLocal == old(eLocal) && eNext == old(eNext)
      ensures e != -1 ==>
        && 0 <= e < |old(eUsed)| && !old(eUsed)[e] && Now() == Taken(old(Now()), e, o)
        && eUsed == old(eUsed)[e := true] && eOf == old(eOf)[e := o] && eNext == old(eNext)[e := -1]
    {
      e := AllocSlot(eUsed);
      if e != -1 {
        eUsed, eOf, eLocal, eNext := eUsed[e := true], eOf[e := o], eLocal[e := 0], eNext[e := -1];
      }
    }

    /** Frees an fd entry whose reference has been dropped. */
    method FreeEntry(e: nat)
      requires Sized(Now()) && |eNext| == |eUsed| && e < |eUsed|
      modifies this`eUsed, this`eOf, this`eLocal, this`eNext
      ensures Now() == Freed(old(Now()), e) && eNext == old(eNext)[e := -1]
    {
      eUsed, eOf, eLocal, eNext := eUsed[e := false], eOf[e := -1], eLocal[e := 0], eNext[e := -1];
    }

    method GetFile(o: int)
      requires Sized(Now()) && (o == -1 || UsedFile(Now(), o))
      modifies this`oRefs
      ensures Now() == Got(old(Now()), o)
      ensures o != -1 ==> oRefs == old(oRefs)[o := old(oRefs)[o] + 1]
    {
      if o == -1 {
        return;
      }
      oRefs := oRefs[o := oRefs[o] + 1];
    }

    method PutTarget(t: int)
      requires Sized(Now()) && (t == -1 || (UsedTarget(Now(), t) && tRefs[t] > 0))
      modifies this`tRefs, this`tUsed
      ensures Now() == TargetPut(old(Now()), t)
      ensures t != -1 ==> tRefs == old(tRefs)[t := old(tRefs)[t] - 1]
      ensures t != -1 ==> tUsed == old(tUsed)[t := old(tRefs)[t] > 1]
    {
      if t == -1 {
        return;
      }
      tRefs := tRefs[t := tRefs[t] - 1];
      if tRefs[t] == 0 {
        tUsed := tUsed[t := false];
      }
    }

    /** Drops a reference; the last one takes the open file with it. */
    method PutFile(o: int)
      requires Sized(Now()) && (o == -1 || (UsedFile(Now(), o) && oRefs[o] > 0))
      requires o != -1 ==> oTarget[o] == -1 || (UsedTarget(Now(), oTarget[o]) && tRefs[oTarget[o]] > 0)
      modifies this`oRefs, this`oUsed, this`oTarget, this`tRefs, this`tUsed
      ensures Now() == FilePut(old(Now()), o)
      ensures o != -1 ==> oRefs == old(oRefs)[o := old(oRefs)[o] - 1] && oUsed == old(oUsed)[o := old(oRefs)[o] > 1]
      ensures o != -1 && old(oRefs)[o] > 1 ==> oTarget == old(oTarget) && tRefs == old(tRefs) && tUsed == old(tUsed)
      ensures o != -1 && old(oRefs)[o] == 1 ==> oTarget == old(oTarget)[o := -1] && var t := old(oTarget)[o];
        if t == -1 then tRefs == old(tRefs) && tUsed == old(tUsed)
        else tRefs == old(tRefs)[t := old(tRefs)[t] - 1] && tUsed == old(tUsed)[t := old(tRefs)[t] > 1]
    {
      if o == -1 {
        return;
      }
      oRefs := oRefs[o := oRefs[o] - 1];
      if oRefs[o] == 0 {
        PutTarget(oTarget[o]);
        oUsed, oTarget := oUsed[o := false], oTarget[o := -1];
      }
    }

    /** A target, or -1; its creator holds a reference. */
    method AllocTarget() returns (t: int)
      requires Valid()
      modifies this`tUsed, this`tRefs, this`tOwn
      ensures Valid() && (t == -1 <==> FreeSlots(old(tUsed)) == {})
      ensures t == -1 ==> Now() == old(Now())
      ensures t != -1 ==> 0 <= t < |old(tUsed)| && !old(tUsed)[t] && Now() == TargetMade(old(Now()), t)
      ensures t != -1 ==> tUsed == old(tUsed)[t := true] && tRefs == old(tRefs)[t := 1] && tOwn == old(tOwn) + {t}
    {
      t := AllocSlot(tUsed);
      if t != -1 {
        TargetMadeExact(Now(), {}, t);
        tUsed, tRefs, tOwn := tUsed[t := true], tRefs[t := 1], tOwn + {t};
      }
    }

    /** An open file on a target, or -1; its creator holds a reference. */
    method AllocFile(t: int) returns (o: int)
      requires Valid() && (t == -1 || UsedTarget(Now(), t))
      modifies this`oUsed, this`oRefs, this`oTarget, this`tRefs, this`oOwn
      ensures Valid() && (o == -1 <==> FreeSlots(old(oUsed)) == {})
      ensures o == -1 ==> Now() == old(Now())
      ensures o != -1 ==> 0 <= o < |old(oUsed)| && !old(oUsed)[o] && Now() == FileMade(old(Now()), o, t)
      ensures o != -1 ==> oUsed == old(oUsed)[o := true] && oTarget == old(oTarget)[o := t]
      ensures o != -1 ==> oRefs == old(oRefs)[o := 1] && oOwn == old(oOwn) + {o}
      ensures tRefs == if o == -1 || t == -1 then old(tRefs) else old(tRefs)[t := old(tRefs)[t] + 1]
    {
      o := AllocSlot(oUsed);
      if o != -1 {
        FileMadeExact(Now(), {}, o, t);
        OpenOn(o, t);
      }
    }

    /** Open file o, which is free, names target t. */
    method OpenOn(o: nat, t: int)
      requires Sized(Now()) && o < |oUsed| && (t == -1 || UsedTarget(Now(), t))
      modifies this`oUsed, this`oRefs, this`oTarget, this`tRefs, this`oOwn
      ensures Now() == FileMade(old(Now()), o, t)
    {
      oUsed, oRefs, oTarget, oOwn := oUsed[o := true], oRefs[o := 1], oTarget[o := t], oOwn + {o};
      if t != -1 {
        tRefs := tRefs[t := tRefs[t] + 1];
      }
    }

    /** The creator lets go of an open file. */
    method Release(o: nat)
      requires Valid() && o in oOwn
      modifies this`oRefs, this`oUsed, this`oTarget, this`tRefs, this`tUsed, this`oOwn
      ensures Valid() && oOwn == old(oOwn) - {o} && Sized(old(Now())) && UsedFile(old(Now()), o)
      ensures UsedFile(Now(), o) <==> Namers(old(Now()), o, {}) != {}
      ensures oUsed == old(oUsed)[o := exists e :: 0 <= e < |eUsed| == |eOf| && eUsed[e] && eOf[e] == o]
      ensures oTarget == if oUsed[o] then old(oTarget) else old(oTarget)[o := -1]
      ensures HeldInUse()
    {
      CreatorPutExact(Now(), {}, o);
      PutFile(o);
      oOwn := oOwn - {o};
      HeldMeans();
    }

    // ---- Fork ----

    ghost predicate Built(f0: Refs, head: int, tail: int, c: seq<nat>)
      reads this
    {
      BuiltOn(f0, Now(), eNext, fdHeads, lists, home, head, tail, c)
    }

    /** A counted entry that names o, linked behind the tail of the new list. */
    method LinkEntry(o: int, head: int, tail: int, ghost f0: Refs, ghost c: seq<nat>) returns (e: int, head': int)
      requires Built(f0, head, tail, c) && (o == -1 || UsedFile(Now(), o)) && Named(f0, o)
      modifies this`eUsed, this`eOf, this`eLocal, this`eNext, this`oRefs
      ensures e == -1 ==> FreeSlots(eUsed) == {} && Now() == old(Now()) && eNext == old(eNext)
      ensures e != -1 ==>
        && 0 <= e < |old(eUsed)| == |old(eOf)| == |old(eLocal)| && e !in c && e !in home
        && Built(f0, head', e, c + [e as nat]) && eOf == old(eOf)[e := o] && eLocal == old(eLocal)[e := 0]
    {
      head' := head;
      ghost var f, next := Now(), eNext;
      e := AllocEntry(o);
      if e == -1 {
        return;
      }
      BuiltMore(f0, f, next, fdHeads, lists, home, head, tail, c, e, o);
      GetFile(o);
      if tail != -1 {
        eNext := eNext[tail := e];
      } else {
        head' := e;
      }
    }

    /** The same, under a local number. */
    method AppendEntry(o: int, local: int, head: int, tail: int, ghost f0: Refs, ghost c: seq<nat>)
      returns (e: int, head': int)
      requires Built(f0, head, tail, c) && (o == -1 || UsedFile(Now(), o)) && Named(f0, o)
      modifies this`eUsed, this`eOf, this`eLocal, this`eNext, this`oRefs
      ensures e == -1 ==> FreeSlots(eUsed) == {} && Now() == old(Now()) && eNext == old(eNext)
      ensures e != -1 ==>
        && 0 <= e < |old(eUsed)| == |old(eOf)| == |old(eLocal)| && e !in c && e !in home
        && Built(f0, head', e, c + [e as nat]) && eOf == old(eOf)[e := o] && eLocal == old(eLocal)[e := local]
    {
      e, head' := LinkEntry(o, head, tail, f0, c);
      if e != -1 {
        BuiltNumbered(f0, Now(), eNext, fdHeads, lists, home, head', e, c + [e as nat], eLocal[e := local]);
        eLocal := eLocal[e := local];
      }
    }

    ghost predicate CopyingAt(f0: Refs, parent: nat, head: int, tail: int, c: seq<nat>, src: int)
      reads this
    {
      parent < |lists| && CopyingOn(f0, Now(), eNext, fdHeads, lists, home, lists[parent], head, tail, c, src)
    }

    /** Copies the entry the walk stands at and moves on. */
    method CopyNext(parent: nat, src: nat, head: int, tail: int, ghost f0: Refs, ghost c: seq<nat>)
      returns (e: int, head': int, src': int)
      requires CopyingAt(f0, parent, head, tail, c, src)
      modifies this`eUsed, this`eOf, this`eLocal, this`eNext, this`oRefs
      ensures e == -1 ==> Built(f0, head, tail, c) && |FreeSlots(f0.eUsed)| < |lists[parent]|
      ensures e != -1 ==> 0 <= e && CopyingAt(f0, parent, head', e, c + [e as nat], src')
    {
      ghost var of0, local0 := eOf, eLocal;
      SourceFacts(f0, Now(), eNext, fdHeads, lists, home, lists[parent], head, tail, c, src);
      e, head' := AppendEntry(eOf[src], eLocal[src], head, tail, f0, c);
      src' := -1;
      if e != -1 {
        CopyStep(f0, Now(), of0, local0, eNext, fdHeads, lists, home, parent, head', e, c);
        src' := eNext[src];
      } else {
        TopFits(f0, Now(), c);
      }
    }

    /** Takes back the entry at the front of the new list. */
    method DropFirst(head: nat, ghost tail: int, ghost f0: Refs, ghost c: seq<nat>)
      returns (head': int, ghost tail': int)
      requires Built(f0, head, tail, c)
      modifies this`eUsed, this`eOf, this`eLocal, this`eNext, this`oRefs, this`oUsed, this`oTarget, this`tRefs
      modifies this`tUsed
      ensures c != [] && Built(f0, head', tail', c[1..])
    {
      BuiltLess(f0, Now(), eNext, fdHeads, lists, home, head, tail, c);
      head', tail' := eNext[head], if |c| > 1 then tail else -1;
      PutFile(eOf[head]);
      FreeEntry(head);
    }

    /** Takes back all of the new list: every count is as before. */
    method DropAll(head: int, ghost tail: int, ghost f0: Refs, ghost c: seq<nat>)
      requires Built(f0, head, tail, c)
      modifies this`eUsed, this`eOf, this`eLocal, this`eNext, this`oRefs, this`oUsed, this`oTarget, this`tRefs
      modifies this`tUsed
      ensures Built(f0, -1, -1, [])
    {
      var it := head;
      ghost var t, left := tail, c;
      while it != -1
        invariant Built(f0, it, t, left)
        decreases |left|
      {
        it, t := DropFirst(it, t, f0, left);
        left := left[1..];
      }
    }

    /** Copies entries until the walk ends or entries run out. */
    method CopyAll(parent: nat, ghost f0: Refs) returns (ok: bool, head: int, tail: int, ghost c: seq<nat>)
      requires parent < |fdHeads| && CopyingAt(f0, parent, -1, -1, [], fdHeads[parent])
      modifies this`eUsed, this`eOf, this`eLocal, this`eNext, this`oRefs
      ensures ok ==> CopyingAt(f0, parent, head, tail, c, -1)
      ensures !ok ==> Built(f0, head, tail, c) && |FreeSlots(f0.eUsed)| < |lists[parent]|
    {
      head, tail, c := -1, -1, [];
      var src := fdHeads[parent];
      while src != -1
        invariant CopyingAt(f0, parent, head, tail, c, src)
        decreases |lists[parent]| - |c|
      {
        var e, head', src' := CopyNext(parent, src, head, tail, f0, c);
        if e == -1 {
          return false, head, tail, c;
        }
        head, tail, src := head', e, src';
        c := c + [e as nat];
      }
      ok := true;
    }

    /** A copy of a process's entries, each sharing its open file; or -1, with
        everything as before, when there are too few free entries. */
    method ForkCopy(parent: nat) returns (head: int, ghost c: seq<nat>, ghost tail: int)
      requires Valid() && parent < |lists|
      modifies this`eUsed, this`eOf, this`eLocal, this`eNext, this`oRefs, this`oUsed, this`oTarget, this`tRefs
      modifies this`tUsed
      ensures Built(old(Now()), head, tail, c) && CopyOf(eOf, eLocal, lists[parent], c)
      ensures |c| == if |lists[parent]| <= |FreeSlots(old(eUsed))| then |lists[parent]| else 0
    {
      ghost var f0 := Now();
      StartCopying(f0, eNext, fdHeads, lists, home, parent);
      var ok, first, last;
      ok, first, last, c := CopyAll(parent, f0);
      if ok {
        CopyDone(f0, Now(), eNext, fdHeads, lists, home, lists[parent], first, last, c);
        return first, c, last;
      }
      DropAll(first, last, f0, c);
      return -1, [], -1;
    }

    /** A list built on top of the others becomes that of process p. */
    method AdoptList(head: int, p: nat, ghost f0: Refs, ghost tail: int, ghost c: seq<nat>)
      requires Built(f0, head, tail, c) && p < |lists| && lists[p] == []
      requires forall e {:trigger f0.eUsed[e]} :: 0 <= e < |f0.eUsed| && f0.eUsed[e] ==> e in home
      modifies this`fdHeads, this`lists, this`home
      ensures Valid() && Now() == old(Now()) && lists == old(lists)[p := c] && fdHeads == old(fdHeads)[p := head]
    {
      Attach(f0, Now(), eNext, fdHeads, lists, home, head, tail, c, p);
      fdHeads := fdHeads[p := head];
      lists, home := lists[p := c], Lists.Settled(home, c, p);
    }

    /** Gives the child of a fork copies of the parent's descriptors. */
    method ForkFds(parent: nat, child: nat) returns (ok: bool)
      requires Valid() && parent < |lists| && child < |lists| && parent != child && lists[child] == []
      modifies this
      ensures Valid() && |lists| == |old(lists)| && OnTop(old(Now()), Now(), lists[child])
      ensures lists == old(lists)[child := lists[child]]
      ensures ok <==> |lists[parent]| <= |FreeSlots(old(eUsed))|
      ensures ok ==> |lists[child]| == |lists[parent]| && CopyOf(eOf, eLocal, lists[parent], lists[child])
      ensures !ok ==> lists[child] == []
    {
      ghost var f0, c, tail := Now(), [], -1;
      var head;
      head, c, tail := ForkCopy(parent);
      AdoptList(head, child, f0, tail, c);
      ok := !(fdHeads[child] == -1 && fdHeads[parent] != -1);
    }

    // ---- Standard descriptors ----

    ghost predicate Loose(f0: Refs, c: seq<nat>, o: int)
      reads this
    {
      LooseOn(f0, Now(), eNext, fdHeads, lists, home, c, o)
    }

    /** A counted entry for the console, in no list yet. */
    method NewEntry(o: int, ghost f0: Refs, ghost c: seq<nat>) returns (e: int)
      requires Loose(f0, c, o)
      modifies this`eUsed, this`eOf, this`eLocal, this`eNext, this`oRefs
      ensures e == -1 ==> Loose(f0, c, o) && |FreeSlots(f0.eUsed)| == |c|
      ensures e != -1 ==> 0 <= e < |old(eNext)| && Loose(f0, c + [e as nat], o) && eNext == old(eNext)[e := -1]
    {
      ghost var f, next := Now(), eNext;
      e := AllocEntry(o);
      if e != -1 {
        LooseMore(f0, f, next, fdHeads, lists, home, c, e, o);
        GetFile(o);
      } else {
        TopFits(f0, f, c);
      }
    }

    /** Takes back the first of the loose entries. */
    method DropEntry(e: nat, o: int, ghost f0: Refs, ghost c: seq<nat>)
      requires Loose(f0, [e] + c, o)
      modifies this`eUsed, this`eOf, this`eLocal, this`eNext, this`oRefs, this`oUsed, this`oTarget, this`tRefs
      modifies this`tUsed
      ensures Loose(f0, c, o)
    {
      LooseLess(f0, Now(), eNext, fdHeads, lists, home, c, e, o);
      assert ([e] + c)[0] in [e] + c;
      PutFile(eOf[e]);
      FreeEntry(e);
    }

    method TakeTwo(o: int, ghost f0: Refs) returns (a: int, b: int)
      requires Loose(f0, [], o)
      modifies this`eUsed, this`eOf, this`eLocal, this`eNext, this`oRefs
      ensures Loose(f0, Maybe(a) + Maybe(b), o) && a >= -1 && b >= -1
      ensures a == -1 || b == -1 ==> |FreeSlots(f0.eUsed)| < 2
    {
      a := NewEntry(o, f0, []);
      assert [] + Maybe(a) == Maybe(a);
      b := NewEntry(o, f0, Maybe(a));
      assert Maybe(a) + [] == Maybe(a);
    }

    method TakeThree(o: int, ghost f0: Refs) returns (a: int, b: int, c: int)
      requires Loose(f0, [], o)
      modifies this`eUsed, this`eOf, this`eLocal, this`eNext, this`oRefs
      ensures Loose(f0, Maybe(a) + Maybe(b) + Maybe(c), o) && a >= -1 && b >= -1 && c >= -1
      ensures c != -1 ==> c < |eNext| && eNext[c] == -1
      ensures a == -1 || b == -1 || c == -1 <==> |FreeSlots(f0.eUsed)| < 3
    {
      a, b := TakeTwo(o, f0);
      c := NewEntry(o, f0, Maybe(a) + Maybe(b));
      assert Maybe(a) + Maybe(b) + [] == Maybe(a) + Maybe(b);
      TopFits(f0, Now(), Maybe(a) + Maybe(b) + Maybe(c));
    }

    /** Some of the three could not be had: the others go back. */
    method DropThree(a: int, b: int, c: int, o: int, ghost f0: Refs)
      requires Loose(f0, Maybe(a) + Maybe(b) + Maybe(c), o) && a >= -1 && b >= -1 && c >= -1
      modifies this`eUsed, this`eOf, this`eLocal, this`eNext, this`oRefs, this`oUsed, this`oTarget, this`tRefs
      modifies this`tUsed
      ensures Loose(f0, [], o)
    {
      assert Maybe(a) + Maybe(b) + Maybe(c) == Maybe(a) + (Maybe(b) + Maybe(c));
      if a != -1 {
        DropEntry(a, o, f0, Maybe(b) + Maybe(c));
      } else {
        assert [] + (Maybe(b) + Maybe(c)) == Maybe(b) + Maybe(c);
      }
      if b != -1 {
        DropEntry(b, o, f0, Maybe(c));
      } else {
        assert [] + Maybe(c) == Maybe(c);
      }
      if c != -1 {
        assert [c as nat] + [] == [c];
        DropEntry(c, o, f0, []);
      }
    }

    /** Standard input, output and error for a first process: three entries on
        the console, or none. */
    method Bootstrap(p: nat, stdio: int)
      requires Valid() && p < |lists| && lists[p] == [] && (stdio == -1 || stdio in oOwn)
      modifies this
      ensures Valid() && |lists| == |old(lists)| && OnTop(old(Now()), Now(), lists[p])
      ensures lists == old(lists)[p := lists[p]]
      ensures if |FreeSlots(old(eUsed))| < 3 then lists[p] == [] else ThreeOn(eOf, eLocal, lists[p], stdio)
    {
      ghost var f0 := Now();
      var a, b, c := TakeThree(stdio, f0);
      if a == -1 || b == -1 || c == -1 {
        LinkNone(a, b, c, p, stdio, f0);
      } else {
        LinkThree(a, b, c, p, stdio, f0);
      }
    }

    method LinkThree(a: nat, b: nat, c: nat, p: nat, o: int, ghost f0: Refs)
      requires Loose(f0, Maybe(a) + Maybe(b) + Maybe(c), o) && c < |eNext| && eNext[c] == -1 && p < |lists|
      requires lists[p] == []
      requires forall e {:trigger f0.eUsed[e]} :: 0 <= e < |f0.eUsed| && f0.eUsed[e] ==> e in home
      modifies this`eNext, this`eLocal, this`fdHeads, this`lists, this`home
      ensures Valid() && OnTop(f0, Now(), [a, b, c]) && lists == old(lists)[p := [a, b, c]]
      ensures ThreeOn(eOf, eLocal, [a, b, c], o)
    {
      LinkedThree(f0, Now(), eNext, fdHeads, lists, home, a, b, c, o);
      ghost var f := Now().(eLocal := eLocal[a := 0][b := 1][c := 2]);
      eNext := eNext[a := b];
      eNext := eNext[b := c];
      eLocal := eLocal[a := 0][b := 1][c := 2];
      assert Now() == f;
      AdoptList(a, p, f0, c, [a, b, c]);
    }

    /** Some of the three could not be had: the process gets none. */
    method LinkNone(a: int, b: int, c: int, p: nat, o: int, ghost f0: Refs)
      requires Loose(f0, Maybe(a) + Maybe(b) + Maybe(c), o) && a >= -1 && b >= -1 && c >= -1
      requires p < |lists| && lists[p] == []
      requires forall e {:trigger f0.eUsed[e]} :: 0 <= e < |f0.eUsed| && f0.eUsed[e] ==> e in home
      modifies this
      ensures Valid() && OnTop(f0, Now(), []) && lists == old(lists)[p := []]
    {
      DropThree(a, b, c, o, f0);
      AdoptList(-1, p, f0, -1, []);
    }

    // ---- Exit ----

    ghost predicate Cleaning(f0: Refs, p: nat, it: int, s: seq<nat>)
      reads this
    {
      && p < |lists| == |fdHeads|
      && CleaningOn(f0, Now(), eNext, fdHeads[p := -1], lists[p := []], Evicted(home, p), it, s)
    }

    method CleanOne(p: nat, it: nat, ghost f0: Refs, ghost s: seq<nat>) returns (it': int)
      requires Cleaning(f0, p, it, s)
      modifies this`eUsed, this`eOf, this`eLocal, this`eNext, this`oRefs, this`oUsed, this`oTarget, this`tRefs
      modifies this`tUsed
      ensures s != [] && Cleaning(f0, p, it', s[1..])
    {
      CleanStep(f0, Now(), eNext, fdHeads[p := -1], lists[p := []], Evicted(home, p), it, s);
      it' := eNext[it];
      PutFile(eOf[it]);
      FreeEntry(it);
    }

    /** Gives back every descriptor of an exiting process, each once. */
    method Cleanup(p: nat)
      requires Valid() && p < |lists|
      modifies this
      ensures Valid() && lists == old(lists)[p := []]
      ensures FilesKept(old(Now()), Now()) && EntriesKept(old(Now()), Now(), lists) && HeldInUse()
    {
      CleanList(p);
      HeldMeans();
    }

    method CleanList(p: nat)
      requires Valid() && p < |lists|
      modifies this
      ensures Valid() && lists == old(lists)[p := []]
      ensures FilesKept(old(Now()), Now()) && EntriesKept(old(Now()), Now(), lists)
    {
      StartCleaning(Now(), eNext, fdHeads, lists, home, p);
      DrainList(p, Now());
      DropList(p, old(Now()));
    }

    method DropList(p: nat, ghost f0: Refs)
      requires Cleaning(f0, p, -1, [])
      modifies this`fdHeads, this`lists, this`home
      ensures Valid() && p < |old(lists)| && lists == old(lists)[p := []]
      ensures FilesKept(f0, Now()) && EntriesKept(f0, Now(), lists)
    {
      CleanDone(f0, Now(), eNext, fdHeads[p := -1], lists[p := []], Evicted(home, p), []);
      fdHeads := fdHeads[p := -1];
      lists, home := lists[p := []], Evicted(home, p);
    }

    method DrainList(p: nat, ghost f0: Refs)
      requires p < |lists| && p < |fdHeads| && Cleaning(f0, p, fdHeads[p], lists[p])
      modifies this`eUsed, this`eOf, this`eLocal, this`eNext, this`oRefs, this`oUsed, this`oTarget, this`tRefs
      modifies this`tUsed
      ensures Cleaning(f0, p, -1, [])
    {
      ghost var s := lists[p];
      var it := fdHeads[p];
      while it != -1
        invariant Cleaning(f0, p, it, s)
        decreases |s|
      {
        it := CleanOne(p, it, f0, s);
        s := s[1..];
      }
      assert s == [];
    }

    /** The open file a process knows as local descriptor fd, or -1. */
    method LocalFd(p: nat, fd: int) returns (o: int, found: bool)
      requires Valid() && p < |lists|
      ensures found <==> exists e :: e in lists[p] && eLocal[e] == fd
      ensures found ==> exists i: nat :: FirstWith(eLocal, lists[p], fd, i) && o == eOf[lists[p][i]]
      ensures found ==> o == -1 || UsedFile(Now(), o)
      ensures !found ==> o == -1
    {
      ghost var s, k := lists[p], 0;
      var it := fdHeads[p];
      while it != -1
        invariant 0 <= k <= |s| && it == if k < |s| then s[k] else -1
        invariant forall j :: 0 <= j < k ==> eLocal[s[j]] != fd
        decreases |s| - k
      {
        assert s[k] in s;
        if eLocal[it] == fd {
          assert EntryExact(Now(), it, {});
          assert FirstWith(eLocal, s, fd, k);
          return eOf[it], true;
        }
        ChainNext(eNext, fdHeads, lists, home, p, k);
        it := eNext[it];
        k := k + 1;
      }
      return -1, false;
    }
  }
}
