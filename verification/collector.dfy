/**
 * The cycle controller (`run` and `dry_run` in `Python/marksweep.c`) and what
 * a whole cycle achieves.
 */
module Collector {
  import opened Flags
  import opened Objects
  import opened Marker
  import opened Roots
  import opened Registry
  import opened Seqs

  /**
   * `run`: `mark_all` followed by `sweep`. Roots that are registry members
   * survive; survivors carry no MARKED bit; objects outside the registry are
   * not swept, so a root among them keeps its mark.
   */
  function Run(h: Heap, rt: Runtime, reg: seq<Id>): (r: Collected)
    requires Closed(h) && RootsIn(h, rt) && RegistryWf(h, reg)
    ensures forall id :: IsRoot(rt, id) && id in reg ==> id in r.registry
    ensures forall id :: id in r.registry ==> id in r.heap && !IsMarked(r.heap[id].flags)
    ensures forall id :: IsRoot(rt, id) && id !in reg ==> Marked(r.heap, id)
    ensures forall id :: id in h && h[id].refcnt != 0 ==> id in r.heap
  {
    var m := MarkAll(h, rt);
    GrowsFacts(h, m);
    SweepUnmarks(m, reg);
    Sweep(m, reg)
  }

  /**
   * `dry_run`: `mark_all`, then the counting loop; nothing is swept and the
   * marks are left in place.
   */
  method DryRun(h: Heap, rt: Runtime, reg: seq<Id>) returns (r: Heap, total: int, marked: int, unsafe: int)
    requires Closed(h) && RootsIn(h, rt) && AllIn(h, reg)
    ensures Grows(h, r) && forall id :: IsRoot(rt, id) ==> Marked(r, id)
    ensures total == |reg|
    ensures marked == Count(reg, MarkedIn(r))
    ensures unsafe == Count(reg, UnsafeIn(r))
    ensures 0 <= marked <= total && 0 <= unsafe <= total - marked
    ensures r == MarkAll(h, rt)
    ensures NoDup(reg) ==> marked + unsafe == |Run(h, rt, reg).registry|
  {
    r := MarkAll(h, rt);
    GrowsFacts(h, r);
    total, marked, unsafe := CountRegistry(r, reg);
    if NoDup(reg) {
      DryRunPredictsRun(h, rt, reg);
    }
  }

  /** A sweep keeps exactly as many members as the dry-run counts report marked or unsafe. */
  lemma SweepKeepsMarkedAndUnsafe(h: Heap, reg: seq<Id>)
    requires RegistryWf(h, reg)
    ensures |Sweep(h, reg).registry| == Count(reg, MarkedIn(h)) + Count(reg, UnsafeIn(h))
  {
    CountSplit(reg, KeptBy(h), MarkedIn(h), UnsafeIn(h));
  }

  /**
   * After `dry_run`, a `run` on the resulting heap marks nothing more, and the
   * sweep keeps exactly `marked + unsafe` members.
   */
  lemma DryRunPredictsRun(h: Heap, rt: Runtime, reg: seq<Id>)
    requires Closed(h) && RootsIn(h, rt) && RegistryWf(h, reg)
    ensures var m := MarkAll(h, rt);
            |Run(h, rt, reg).registry| == Count(reg, MarkedIn(m)) + Count(reg, UnsafeIn(m))
    ensures var m := MarkAll(h, rt);
            MarkAll(m, rt) == m && Run(m, rt, reg) == Run(h, rt, reg)
  {
    var m := MarkAll(h, rt);
    GrowsFacts(h, m);
    SweepKeepsMarkedAndUnsafe(m, reg);
    MarkAllIdempotent(h, rt);
  }

  /**
   * A whole cycle from an unmarked heap without faults: a registry member
   * survives exactly when it is reachable from a root or still counted as
   * referenced, and a member that does not survive is freed.
   */
  lemma RunReclaims(h: Heap, rt: Runtime, reg: seq<Id>)
    requires Closed(h) && RootsIn(h, rt) && RegistryWf(h, reg)
    requires NoMarks(h) && NoFaults(h)
    ensures var r := Run(h, rt, reg);
            forall id :: id in reg ==>
              && (id in r.registry <==> ReachableFromRoots(h, rt, id) || h[id].refcnt != 0)
              && (id in r.heap <==> id in r.registry)
  {
    var m := MarkAll(h, rt);
    MarkAllExact(h, rt);
    GrowsFacts(h, m);
    var r := Sweep(m, reg);
    forall id | id in reg
      ensures m[id].refcnt == h[id].refcnt
    {
    }
  }

  /** Every reference out of a heap object is to an object whose count is nonzero. */
  ghost predicate Counted(h: Heap) {
    forall x, c :: x in h && c in Refs(h[x]) ==> c in h && h[c].refcnt != 0
  }

  /**
   * When the counts account for the references, a sweep frees nothing that
   * another object still references: no object left in the heap refers to a
   * freed one.
   */
  lemma SweepIsSafe(h: Heap, reg: seq<Id>)
    requires RegistryWf(h, reg) && Counted(h)
    ensures Closed(Sweep(h, reg).heap)
    ensures forall x, c :: x in h && c in Refs(h[x]) ==> c in Sweep(h, reg).heap
  {
    var r := Sweep(h, reg);
    forall x, c | x in h && c in Refs(h[x])
      ensures c in r.heap
    {
      SweepKeepsReferenced(h, reg, c);
    }
    forall x, c | x in r.heap && c in Refs(r.heap[x])
      ensures c in r.heap
    {
      assert x in h && (x !in reg || Survives(h[x]));
      SweepKeepsRefs(h, reg, x);
      assert Refs(r.heap[x]) == Refs(h[x]);
    }
  }

  /** An object whose count is nonzero is never freed by a sweep. */
  lemma SweepKeepsReferenced(h: Heap, reg: seq<Id>, c: Id)
    requires RegistryWf(h, reg) && c in h && h[c].refcnt != 0
    ensures c in Sweep(h, reg).heap
  {
    assert Survives(h[c]);
  }

  /** A sweep changes no object's kind or edges, hence none of its references. */
  lemma SweepKeepsRefs(h: Heap, reg: seq<Id>, x: Id)
    requires RegistryWf(h, reg) && x in h && (x !in reg || Survives(h[x]))
    ensures x in Sweep(h, reg).heap
    ensures Sweep(h, reg).heap[x].kind == h[x].kind && Sweep(h, reg).heap[x].edges == h[x].edges
  {
  }

  /**
   * Starting from registry members whose flag words are all zero (as
   * `reset_all_refchain` leaves them), a run leaves every remaining member with
   * a zero flag word, so `_unsafe_sanitize` afterwards unlinks nothing.
   */
  lemma RunLeavesNothingToSanitize(h: Heap, rt: Runtime, reg: seq<Id>)
    requires Closed(h) && RootsIn(h, rt) && RegistryWf(h, reg)
    requires forall i :: 0 <= i < |reg| ==> h[reg[i]].flags == 0
    ensures var r := Run(h, rt, reg);
            AllIn(r.heap, r.registry) && Sanitize(r.heap, r.registry) == Sanitized(r.registry, 0)
  {
    var m := MarkAll(h, rt);
    GrowsFacts(h, m);
    var r := Run(h, rt, reg);
    assert r == Sweep(m, reg);
    forall i | 0 <= i < |r.registry|
      ensures Clean(r.heap)(r.registry[i])
    {
      var id := r.registry[i];
      assert id in r.registry;
      assert id in reg && KeptBy(m)(id);
      if !IsMarked(m[id].flags) {
        SetMarkedMarks(h[id].flags);
        assert m[id] == h[id];
        var j :| 0 <= j < |reg| && reg[j] == id;
      }
    }
    FilterAll(r.registry, Clean(r.heap));
  }

  /**
   * Two unmarked objects referring to each other, counted once each and
   * reachable from no root, survive a run: the sweep frees only objects whose
   * count is zero, so it never reclaims a cycle.
   */
  /** Two objects referring to each other, each counted once, neither marked. */
  const CycleHeap: Heap := map[1 := Header(1, 0, GcObject(TraverseProc(false)), [2]),
                               2 := Header(1, 0, GcObject(TraverseProc(false)), [1])]

  /** A runtime with no interpreters and empty object pools: there are no roots. */
  const NoRoots: Runtime := Runtime([], ObjectPools([], [], [], [], [], []))

  lemma UnreachableCycleSurvives()
    ensures Closed(CycleHeap) && RootsIn(CycleHeap, NoRoots) && RegistryWf(CycleHeap, [1, 2])
    ensures !ReachableFromRoots(CycleHeap, NoRoots, 1) && !ReachableFromRoots(CycleHeap, NoRoots, 2)
    ensures Run(CycleHeap, NoRoots, [1, 2]).registry == [1, 2]
  {
    CycleWellFormed();
    CycleUnrooted();
    CycleKept();
  }

  lemma CycleWellFormed()
    ensures Closed(CycleHeap) && RootsIn(CycleHeap, NoRoots) && RegistryWf(CycleHeap, [1, 2])
  {
    assert RootSeq(NoRoots) == [];
  }

  lemma CycleUnrooted()
    ensures forall id :: !IsRoot(NoRoots, id)
    ensures !ReachableFromRoots(CycleHeap, NoRoots, 1) && !ReachableFromRoots(CycleHeap, NoRoots, 2)
  {
  }

  lemma CycleKept()
    requires Closed(CycleHeap) && RootsIn(CycleHeap, NoRoots) && RegistryWf(CycleHeap, [1, 2])
    ensures Run(CycleHeap, NoRoots, [1, 2]).registry == [1, 2]
  {
    assert RootSeq(NoRoots) == [];
    assert MarkAll(CycleHeap, NoRoots) == CycleHeap;
    assert Filter([1, 2], KeptBy(CycleHeap)) == [1, 2] by {
      assert [1, 2][1..] == [2];
    }
  }
}
