/**
 * The passes over the registry of live objects (`refchain`, a sequence of
 * identities here): `reset_all_refchain`, `sweep`, the counting loop of
 * `dry_run`, and the unlinking loop of `_unsafe_sanitize`, all in
 * `Python/marksweep.c`.
 */
module Registry {
  import opened Flags
  import opened Objects
  import opened Seqs

  /** Every registry member is a heap object and appears once. */
  ghost predicate RegistryWf(h: Heap, reg: seq<Id>) {
    AllIn(h, reg) && NoDup(reg)
  }

  // ---------------------------------------------------------------------------
  // reset_all_refchain

  /** Clears the whole flag word of every registry member, front to back. */
  function ResetAll(h: Heap, reg: seq<Id>): (r: Heap)
    requires AllIn(h, reg)
    ensures r.Keys == h.Keys
    ensures forall id :: id in h && id in reg ==> r[id] == h[id].(flags := 0)
    ensures forall id :: id in h && id !in reg ==> r[id] == h[id]
    decreases |reg|
  {
    if |reg| == 0 then h
    else
      var id := reg[0];
      ResetAll(h[id := h[id].(flags := ClearFlag(h[id].flags))], reg[1..])
  }

  /** Resetting twice is resetting once. */
  lemma ResetAllIdempotent(h: Heap, reg: seq<Id>)
    requires AllIn(h, reg)
    ensures ResetAll(ResetAll(h, reg), reg) == ResetAll(h, reg)
  {
    var r1 := ResetAll(h, reg);
    var r2 := ResetAll(r1, reg);
    assert forall id :: id in r2 ==> r2[id] == r1[id];
  }

  // ---------------------------------------------------------------------------
  // sweep

  /** The keep policy of `sweep`: marked, or still counted as referenced. */
  predicate Survives(hd: Header) {
    IsMarked(hd.flags) || hd.refcnt != 0
  }

  function KeptBy(h: Heap): Id -> bool {
    id => id in h && Survives(h[id])
  }

  /** The heap and the registry after a pass. */
  datatype Collected = Collected(heap: Heap, registry: seq<Id>)

  /**
   * `sweep`: one pass over the registry, front to back. A marked member has
   * its flag word cleared and stays; an unmarked member with a nonzero count is
   * left exactly as it is (the "unsafe" case); an unmarked member with count
   * zero is deallocated, which frees it and unlinks it from the registry.
   */
  function Sweep(h: Heap, reg: seq<Id>): (r: Collected)
    requires RegistryWf(h, reg)
    ensures r.registry == Filter(reg, KeptBy(h))
    ensures forall id :: id in r.heap <==> id in h && (id !in reg || Survives(h[id]))
    ensures forall id :: id in reg && IsMarked(h[id].flags) ==> id in r.heap && r.heap[id] == h[id].(flags := 0)
    ensures forall id :: id in reg && !IsMarked(h[id].flags) && h[id].refcnt != 0 ==> id in r.heap && r.heap[id] == h[id]
    ensures forall id :: id in h && id !in reg ==> id in r.heap && r.heap[id] == h[id]
    decreases |reg|
  {
    if |reg| == 0 then Collected(h, [])
    else
      var id := reg[0];
      var hd := h[id];
      NoDupTail(reg);
      if !IsMarked(hd.flags) then
        if hd.refcnt != 0 then
          var rest := Sweep(h, reg[1..]);
          Collected(rest.heap, [id] + rest.registry)
        else
          var h1 := h - {id};
          KeptByAgree(h, h1, reg[1..]);
          Sweep(h1, reg[1..])
      else
        var h1 := h[id := hd.(flags := ClearFlag(hd.flags))];
        KeptByAgree(h, h1, reg[1..]);
        var rest := Sweep(h1, reg[1..]);
        Collected(rest.heap, [id] + rest.registry)
  }

  /** No member left in the registry after a sweep carries the MARKED bit. */
  lemma SweepUnmarks(h: Heap, reg: seq<Id>)
    requires RegistryWf(h, reg)
    ensures var r := Sweep(h, reg);
            forall id :: id in r.registry ==> id in r.heap && !IsMarked(r.heap[id].flags)
  {
    var r := Sweep(h, reg);
    forall id | id in r.registry
      ensures id in r.heap && !IsMarked(r.heap[id].flags)
    {
      assert id in reg && KeptBy(h)(id);
      if IsMarked(h[id].flags) {
        assert r.heap[id].flags == 0;
      }
    }
  }

  /** The registry left by a sweep is again well formed. */
  lemma SweepKeepsRegistryWf(h: Heap, reg: seq<Id>)
    requires RegistryWf(h, reg)
    ensures RegistryWf(Sweep(h, reg).heap, Sweep(h, reg).registry)
  {
    FilterNoDup(reg, KeptBy(h));
    var r := Sweep(h, reg);
    assert forall i :: 0 <= i < |r.registry| ==> r.registry[i] in r.registry;
  }

  lemma NoDupTail(reg: seq<Id>)
    requires |reg| > 0 && NoDup(reg)
    ensures NoDup(reg[1..]) && reg[0] !in reg[1..]
  {
    forall j | 0 <= j < |reg[1..]|
      ensures reg[1..][j] != reg[0]
    {
      assert reg[1..][j] == reg[j + 1];
    }
  }

  /** Two heaps that agree on the members of `s` keep the same members of `s`. */
  lemma KeptByAgree(h: Heap, h': Heap, s: seq<Id>)
    requires forall i :: 0 <= i < |s| ==> s[i] in h && s[i] in h' && h'[s[i]] == h[s[i]]
    ensures Filter(s, KeptBy(h')) == Filter(s, KeptBy(h))
  {
    FilterCongruent(s, KeptBy(h'), KeptBy(h));
  }

  // ---------------------------------------------------------------------------
  // _unsafe_sanitize

  function Clean(h: Heap): Id -> bool {
    id => id in h && h[id].flags == 0
  }

  function Tainted(h: Heap): Id -> bool {
    id => id in h && h[id].flags != 0
  }

  /** The registry after `_unsafe_sanitize`, and its `removed` counter. */
  datatype Sanitized = Sanitized(registry: seq<Id>, removed: int)

  /**
   * `_unsafe_sanitize`: every member whose flag word is nonzero is unlinked
   * from the registry (`_Py_ForgetReference`, which frees nothing), and
   * `removed` counts them.
   */
  function Sanitize(h: Heap, reg: seq<Id>): (r: Sanitized)
    requires AllIn(h, reg)
    ensures r.registry == Filter(reg, Clean(h))
    ensures r.removed == Count(reg, Tainted(h))
    ensures r.removed == |reg| - |r.registry|
    decreases |reg|
  {
    if |reg| == 0 then Sanitized([], 0)
    else
      var rest := Sanitize(h, reg[1..]);
      if h[reg[0]].flags != 0 then Sanitized(rest.registry, rest.removed + 1)
      else Sanitized([reg[0]] + rest.registry, rest.removed)
  }

  /** A second `_unsafe_sanitize` over the same heap unlinks nothing more. */
  lemma SanitizeIdempotent(h: Heap, reg: seq<Id>)
    requires AllIn(h, reg)
    ensures var s := Sanitize(h, reg);
            AllIn(h, s.registry) && Sanitize(h, s.registry) == Sanitized(s.registry, 0)
  {
    var s := Sanitize(h, reg);
    assert forall i :: 0 <= i < |s.registry| ==> s.registry[i] in s.registry;
    FilterAll(s.registry, Clean(h));
  }

  // ---------------------------------------------------------------------------
  // The counting loop of dry_run

  function MarkedIn(h: Heap): Id -> bool {
    id => id in h && IsMarked(h[id].flags)
  }

  /** Unmarked, yet still counted as referenced. */
  function UnsafeIn(h: Heap): Id -> bool {
    id => id in h && !IsMarked(h[id].flags) && h[id].refcnt != 0
  }

  /**
   * The loop of `dry_run` after `mark_all`: `total` counts the members,
   * `marked` the marked ones, `unsafe` the unmarked ones with a nonzero count.
   */
  method CountRegistry(h: Heap, reg: seq<Id>) returns (total: int, marked: int, unsafe: int)
    requires AllIn(h, reg)
    ensures total == |reg|
    ensures marked == Count(reg, MarkedIn(h))
    ensures unsafe == Count(reg, UnsafeIn(h))
    ensures 0 <= marked <= total && 0 <= unsafe <= total - marked
  {
    total, marked, unsafe := 0, 0, 0;
    var i := 0;
    while i < |reg|
      invariant 0 <= i <= |reg|
      invariant total == i
      invariant marked == Count(reg[..i], MarkedIn(h))
      invariant unsafe == Count(reg[..i], UnsafeIn(h))
      invariant 0 <= marked && 0 <= unsafe && marked + unsafe <= total
    {
      CountSnoc(reg, i, MarkedIn(h));
      CountSnoc(reg, i, UnsafeIn(h));
      var cur := reg[i];
      total := total + 1;
      if IsMarked(h[cur].flags) {
        marked := marked + 1;
      } else if h[cur].refcnt != 0 {
        unsafe := unsafe + 1;
      }
      i := i + 1;
    }
    assert reg[..|reg|] == reg;
  }
}
