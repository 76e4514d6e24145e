# Mark-sweep collector engine, modelled in Dafny

This project models the engine of a mark-sweep cycle collector added to a
reference-counting Python runtime. The engine is in `Python/marksweep.c`, with its
flag and mark macros in `Include/marksweep.h`. The model covers these parts:

- **Flag word** (`flags.dfy`, module `Flags`). It holds `Py_MSFLAGS_MARKED` and the
  `PyMarkSweep_HasFlag/ClearFlag/SetFlag/IsMarked` macros as operations on a 32-bit word.
- **Heap** (`objects.dfy`, module `Objects`). It maps object identities to headers.
  A header holds a reference count, a flag word, a kind and an ordered edge list.
  The kind is one of three:
  - a code object, with its ten reference fields;
  - a GC object, whose type's `tp_traverse` is either null or a routine that may report a fault;
  - any other object.

  This file also defines the references the marker follows and reachability along them.
- **Marker** (`marker.dfy`, module `Marker`). `mark_object` is `MarkObject`. A traverse
  routine calling `mark_object` as its visitor is `VisitEdges`. `Py_MARK` is `PyMark`.
  `Py_MARK` over a fixed field list (`code_traverse`, `interpreter_traverse`,
  `thread_traverse`) is `MarkFields`. These four are mutually recursive. They terminate
  because each call either shrinks the set of unmarked objects or keeps it and shortens
  the list left to visit.
- **What marking achieves** (`marker_theory.dfy`, modules `MarkerTheory` and `EdgeIndependence`):
  - soundness: the marker marks only objects reachable from where it starts;
  - closure: without faults, every object it marks has all its references marked;
  - an object that is already marked never has its edge list consulted again, so a
    code object's own traverse report is never used.
- **Roots** (`roots.dfy`, module `Roots`). Interpreters, threads and the object pools
  are modelled as lists of nullable references. `mark_all` is `MarkAll`. The theorem
  `MarkAllExact` says that, starting from an unmarked heap with no faults, `mark_all`
  marks exactly the objects reachable from the root set.
- **Registry passes** (`registry.dfy`, module `Registry`). The registry (`refchain`)
  is a sequence of identities. This file models `reset_all_refchain`, `sweep`, the
  counting loop of `dry_run`, and `_unsafe_sanitize`.
- **Cycle controller** (`collector.dfy`, module `Collector`). This file models `run`
  and `dry_run`, and proves what one whole cycle does.
- `options.dfy` and `seqs.dfy` are helpers: nullable references, and order-preserving
  filtering of sequences.

Calls the model cannot see become parameters:
- each type's `tp_traverse` is the object's edge list plus a flag saying whether the routine reports a fault;
- each of the six pool hooks `PyTuple_Traverse` … `PyFloat_Traverse` is the list of references it hands to `marker`;
- `_Py_Dealloc` removes one object from the heap and from the registry;
- `_Py_ForgetReference` removes one object from the registry only.

A traverse routine follows the `Py_VISIT` convention. It visits its edges in order
and returns at once the first nonzero result of the visitor. A routine whose fault
flag is set reports failure after it has visited its edges. A routine that fails after
`k` edges is the same routine with its list cut to those `k` edges.

Behaviour of the code worth stating outright:

- A run does not reclaim an unreferenced cycle. `sweep` frees only unmarked members
  whose count is zero (`Python/marksweep.c:197-207`). Each member of a cycle is counted
  by the other member, so the cycle survives as "unsafe".
  `Collector.UnreachableCycleSurvives` proves this for a two-object cycle.
  `Collector.SweepIsSafe` proves the general fact: when counts account for references,
  the sweep never frees a referenced object.
- An unmarked member whose count is nonzero keeps its flag word untouched. Only marked
  members have the word cleared (`Python/marksweep.c:199-210`), and `Registry.Sweep` does
  the same.
- `sweep` applies one rule to every registry member, whatever its type, so members of
  non-GC types are swept too. The model does the same.
- `mark_object` recurses through `tp_traverse` and `code_traverse` instead of using an
  explicit work list, and so does the model.

The sweep clears marks only on registry members. An object outside the registry that
`mark_all` marked keeps its mark after `run`. `Collector.Run` states this. A later
cycle then skips that object and does not look into it again.

## Model

| member | source | states |
|---|---|---|
| Flags.IsMarked | Include/marksweep.h:10-17 | an object is marked exactly when bit 0 of its flag word is set, i.e. the word is odd |
| Flags.SetFlag | Include/marksweep.h:15 | after or-ing in a nonzero `f`, `HasFlag(w, f)` holds, and every bit set before is still set |
| Flags.SetFlagOnlyAdds | Include/marksweep.h:15 | SetFlag changes no bit outside `f` |
| Flags.SetFlagKeeps | Include/marksweep.h:13-15 | a flag present before SetFlag is still present after it |
| Flags.SetFlagIdempotent | Include/marksweep.h:15 | setting the same flag twice equals setting it once |
| Flags.ClearFlag | Include/marksweep.h:14 | the whole word becomes zero, so no flag at all is present afterwards and the object is unmarked |
| Flags.ClearFlagIdempotent | Include/marksweep.h:14 | clearing twice equals clearing once |
| Flags.SetMarkedMarks | Include/marksweep.h:10-17 | setting MARKED always marks; on a word already marked it changes nothing |
| Marker.MarkObject | Python/marksweep.c:118-156 | on an already marked object: returns 0 and changes nothing. Otherwise: the object ends up marked, and marking only sets MARKED bits, never clearing a flag, count, kind or edge. A non-GC object, or one whose type has a null traverse routine, is marked and nothing else changes. The result is 0 or 1. It is 1 only for a GC object with a traverse routine, and it is 1 whenever that routine reports a fault. When the result is 0, every reference of the object is marked, so a code object always gets all its non-null fields marked |
| Marker.VisitEdges | Python/marksweep.c:146-153 | the visitor runs over the reported edges. Marks are only added. A result of 0 means every edge is now marked |
| Marker.PyMark | Include/marksweep.h:21-28 | a null reference leaves the heap unchanged. A non-null one ends up marked, with marks only added |
| Marker.MarkFields | Python/marksweep.c:97-113 | every non-null entry of the field list ends up marked, whatever the individual `mark_object` calls returned. Marks are only added |
| MarkerTheory.MarkObjectSound | Python/marksweep.c:118-156 | every object that `mark_object(ob)` marks anew is reachable from `ob` along the references the marker follows |
| MarkerTheory.VisitEdgesSound | Python/marksweep.c:146-153 | every object marked anew while traversing is reachable from one of the visited edges |
| MarkerTheory.MarkFieldsSound | Python/marksweep.c:97-113 | every object marked anew by a field list is reachable from one of its non-null fields. For a code object these are exactly its ten fields |
| MarkerTheory.MarkObjectComplete | Python/marksweep.c:118-156 | with no faulting traverse routine, `mark_object` returns 0, and every object it marks anew has all its references marked |
| MarkerTheory.VisitEdgesComplete | Python/marksweep.c:146-153 | with no fault, the traversal returns 0 and leaves every object it marks anew with all its references marked |
| MarkerTheory.MarkFieldsComplete | Python/marksweep.c:97-113 | with no fault, a field list leaves every object it marks anew with all its references marked |
| EdgeIndependence.MarkObjectIgnoresEdges | Python/marksweep.c:124-127 | two heaps that differ only in the edge list of an object already marked give the same result and again differ only there: a marked object is never looked into |
| EdgeIndependence.CodeTraverseIgnoresEdges | Python/marksweep.c:133-138 | marking a code object gives the same return value and the same heap (apart from that edge list) whatever edge list its header carries: its traverse routine is never consulted |
| Roots.RootSeqIsRootSet | Python/marksweep.c:50-185 | the sequence of `Py_MARK` arguments of `mark_all` contains exactly the root set. These arguments are the fields `interpreter_traverse` and `thread_traverse` mark, in source order, including the three `HAVE_FORK` fields. The roots are the non-null interpreter fields, the non-null thread fields, each thread's frame, and the pool roots |
| Roots.MarkAll | Python/marksweep.c:50-185 | every root is marked afterwards. Marks are only added, and no reference changes |
| Roots.MarkAllSound | Python/marksweep.c:164-185 | every object `mark_all` marks anew is reachable from a root, whether or not a traverse routine faults |
| Roots.MarkAllExact | Python/marksweep.c:164-185 | starting with nothing marked and no faulting traverse routine, an object is marked afterwards exactly when it is reachable from a root |
| Roots.MarkAllIdempotent | Python/marksweep.c:164-185 | a second `mark_all` right after a first changes nothing |
| Registry.ResetAll | Python/marksweep.c:42-46 | the heap keeps the same objects. Every registry member's flag word is zero, with the rest of its header unchanged. Objects outside the registry are untouched |
| Registry.ResetAllIdempotent | Python/marksweep.c:42-46 | resetting twice equals resetting once |
| Registry.Sweep | Python/marksweep.c:187-217 | the new registry is the old one filtered by "marked or nonzero count", in the original order. A marked member stays, with its flag word cleared. An unmarked member with a nonzero count stays untouched. An unmarked member with count zero is freed. Non-members are untouched |
| Registry.SweepUnmarks | Python/marksweep.c:197-212 | no member left in the registry after a sweep carries the MARKED bit |
| Registry.SweepKeepsRegistryWf | Python/marksweep.c:187-217 | after a sweep, every registry member is still a heap object, and none appears twice |
| Registry.Sanitize | Python/marksweep.c:317-336 | exactly the members with a nonzero flag word are unlinked. The rest keep their order. `removed` equals both the number of tainted members and the number of members dropped |
| Registry.SanitizeIdempotent | Python/marksweep.c:317-336 | a second sanitize pass over the same heap unlinks nothing and reports `removed == 0` |
| Registry.CountRegistry | Python/marksweep.c:232-240 | `total` is the registry length. `marked` counts the marked members. `unsafe` counts the unmarked members with a nonzero count. Hence `marked <= total` and `unsafe <= total - marked` |
| Collector.DryRun | Python/marksweep.c:225-243 | the heap it leaves is exactly the one `mark_all` produces, and every root is marked in it. It reports `total`, `marked` and `unsafe` as the counting loop defines them. When no member appears twice, `marked + unsafe` is the number of members a `run` from the same heap keeps. Nothing is swept, and the registry is not changed |
| Collector.Run | Python/marksweep.c:219-222 | a root in the registry survives. No survivor is marked. A root outside the registry stays marked. No object with a nonzero count is freed |
| Collector.SweepKeepsMarkedAndUnsafe | Python/marksweep.c:187-243 | a sweep keeps exactly `marked + unsafe` members, as counted by the dry-run loop on the same heap |
| Collector.DryRunPredictsRun | Python/marksweep.c:219-243 | after a dry run, `run` marks nothing more. It keeps exactly the `marked + unsafe` members the dry run reported |
| Collector.RunReclaims | Python/marksweep.c:164-217 | starting with nothing marked and no fault, a registry member survives a run exactly when it is reachable from a root or its count is nonzero. A member that does not survive is freed |
| Collector.SweepIsSafe | Python/marksweep.c:197-207 | when every referenced object has a nonzero count, no object left after the sweep refers to a freed one, and nothing referenced is freed |
| Collector.RunLeavesNothingToSanitize | Python/marksweep.c:187-217 | when every registry member starts with a zero flag word, as `reset_all_refchain` leaves it, every member left after a run still has a zero flag word. A later `_unsafe_sanitize` therefore unlinks nothing and reports `removed == 0` |
| Collector.SweepKeepsReferenced | Python/marksweep.c:199-200 | an object whose count is nonzero is still in the heap after a sweep |
| Collector.UnreachableCycleSurvives | Python/marksweep.c:197-207 | two objects referring only to each other, each counted once and reachable from no root, are both kept by a run |

## Left out

- Diagnostics that only print: `_print_runtime`, `Marksweep_print_object`, the output of
  `Marksweep__sancheck`, and the `printf` calls in `mark_object`, `dry_run` and
  `_unsafe_sanitize`. They change no state.
- The Python module glue: the `Marksweep_*` wrappers, `MarksweepMethods` and
  `PyInit_marksweep`. These only dispatch to the modelled functions. The same goes for
  `marksweep_test`.
- The internals of `_Py_Dealloc` and `_Py_ForgetReference`. Each is one removal.
  Deallocation can cascade: freeing one object lowers other objects' counts and can free
  them too. That is not modelled, and nor is its effect on the sweep's saved `next`
  cursor, which the code does not guard against.
- The bodies of the per-type traverse routines and of the pool hooks
  `PyTuple_Traverse` … `PyFloat_Traverse`. These are not part of this model. Each is
  an edge list with a fault flag, or a given list of references.
- The real layouts of `_PyRuntime`, the interpreters, the threads and the frames. The
  only parts kept are the reference fields the code marks.
- `HAVE_FORK`: an interpreter's three fork-handler fields are present or absent as a group.
- The C width of the `int` counters in `dry_run` and `_unsafe_sanitize`. The model counts
  with unbounded integers, so overflow past 2^31 - 1 objects is not modelled.
- The width of the flag word. `Include/marksweep.h` uses `Py_MSFLAGS` without declaring its type, so the word is modelled as 32 bits.
- Registry linkage. The doubly linked list with its sentinel is a sequence. Each member
  appears once, which is an assumption of `Registry.Sweep`.
- Stack depth. The recursion of `mark_object` is unbounded in the model, so stack exhaustion on deep graphs is not modelled.
- MarkerTheory.MarkObjectComplete: closure under faults is not stated. With a fault,
  the routine stops early, and a code object discards its fields' results, so a subtree
  can be left partly marked. The model states only soundness and the return value for
  that case.
