/**
 * Root enumeration (`interpreter_traverse`, `thread_traverse` and `mark_all`
 * in `Python/marksweep.c`): fixed lists of interpreter and thread fields,
 * each thread's innermost frame, and the roots the six object-pool hooks
 * report. Interpreters and threads are not objects; they only hold references.
 */
module Roots {
  import opened Options
  import opened Objects
  import opened Marker
  import opened MarkerTheory

  /** The reference fields of a thread that `thread_traverse` marks, and its innermost frame. */
  datatype ThreadState = ThreadState(
    dict: Option<Id>, asyncExc: Option<Id>,
    curexcType: Option<Id>, curexcValue: Option<Id>, curexcTraceback: Option<Id>,
    excType: Option<Id>, excValue: Option<Id>, excTraceback: Option<Id>,
    profileObj: Option<Id>, traceObj: Option<Id>,
    asyncGenFirstiter: Option<Id>, asyncGenFinalizer: Option<Id>,
    context: Option<Id>,
    frame: Option<Id>)

  /** The three fork-handler lists, which exist only in a build with `HAVE_FORK`. */
  datatype ForkHandlers = ForkHandlers(
    beforeForkers: Option<Id>, afterForkersParent: Option<Id>, afterForkersChild: Option<Id>)

  /** The reference fields of an interpreter that `interpreter_traverse` marks, and its threads. */
  datatype InterpreterState = InterpreterState(
    auditHooks: Option<Id>, codecSearchPath: Option<Id>, codecSearchCache: Option<Id>,
    codecErrorRegistry: Option<Id>, modules: Option<Id>, modulesByIndex: Option<Id>,
    sysdict: Option<Id>, builtins: Option<Id>, builtinsCopy: Option<Id>,
    importlib: Option<Id>, importFunc: Option<Id>, dict: Option<Id>,
    forkHandlers: Option<ForkHandlers>,
    threads: seq<ThreadState>)

  /**
   * What the pool hooks `PyTuple_Traverse` ... `PyFloat_Traverse` hand to the
   * `marker` callback, one list per hook. Their bodies are not part of this
   * model; each list is taken as given.
   */
  datatype ObjectPools = ObjectPools(
    tuples: seq<Option<Id>>, lists: seq<Option<Id>>, sets: seq<Option<Id>>,
    bytes: seq<Option<Id>>, longs: seq<Option<Id>>, floats: seq<Option<Id>>)

  /** `_PyRuntime`: the interpreter list, in order, and the object pools. */
  datatype Runtime = Runtime(interpreters: seq<InterpreterState>, pools: ObjectPools)

  function ThreadRootFields(t: ThreadState): seq<Option<Id>> {
    [t.dict, t.asyncExc,
     t.curexcType, t.curexcValue, t.curexcTraceback,
     t.excType, t.excValue, t.excTraceback,
     t.profileObj, t.traceObj,
     t.asyncGenFirstiter, t.asyncGenFinalizer,
     t.context]
  }

  function InterpRootFields(it: InterpreterState): seq<Option<Id>> {
    [it.auditHooks, it.codecSearchPath, it.codecSearchCache, it.codecErrorRegistry,
     it.modules, it.modulesByIndex, it.sysdict, it.builtins, it.builtinsCopy,
     it.importlib, it.importFunc, it.dict]
    + match it.forkHandlers
      case None => []
      case Some(f) => [f.beforeForkers, f.afterForkersParent, f.afterForkersChild]
  }

  /** For each thread in order: `thread_traverse`, then `Py_MARK(tstate->frame)`. */
  function ThreadsRootSeq(ts: seq<ThreadState>): seq<Option<Id>>
    decreases |ts|
  {
    if |ts| == 0 then []
    else ThreadRootFields(ts[0]) + [ts[0].frame] + ThreadsRootSeq(ts[1..])
  }

  /** For each interpreter in order: `interpreter_traverse`, then its threads. */
  function InterpsRootSeq(its: seq<InterpreterState>): seq<Option<Id>>
    decreases |its|
  {
    if |its| == 0 then []
    else InterpRootFields(its[0]) + ThreadsRootSeq(its[0].threads) + InterpsRootSeq(its[1..])
  }

  function PoolsRootSeq(p: ObjectPools): seq<Option<Id>> {
    p.tuples + p.lists + p.sets + p.bytes + p.longs + p.floats
  }

  /** Every `Py_MARK` argument of one `mark_all`, in the order it is marked. */
  function RootSeq(rt: Runtime): seq<Option<Id>> {
    InterpsRootSeq(rt.interpreters) + PoolsRootSeq(rt.pools)
  }

  // ---------------------------------------------------------------------------
  // The root set, stated without regard to order

  ghost predicate ThreadHolds(t: ThreadState, id: Id) {
    Some(id) in ThreadRootFields(t) || t.frame == Some(id)
  }

  ghost predicate InterpHolds(it: InterpreterState, id: Id) {
    || Some(id) in InterpRootFields(it)
    || exists j :: 0 <= j < |it.threads| && ThreadHolds(it.threads[j], id)
  }

  ghost predicate PoolHolds(p: ObjectPools, id: Id) {
    || Some(id) in p.tuples || Some(id) in p.lists || Some(id) in p.sets
    || Some(id) in p.bytes || Some(id) in p.longs || Some(id) in p.floats
  }

  /**
   * `id` is a root: a non-null root field of some interpreter or of one of its
   * threads, a thread's innermost frame, or an object a pool hook reports.
   */
  ghost predicate IsRoot(rt: Runtime, id: Id) {
    || (exists i :: 0 <= i < |rt.interpreters| && InterpHolds(rt.interpreters[i], id))
    || PoolHolds(rt.pools, id)
  }

  ghost predicate RootsIn(h: Heap, rt: Runtime) {
    forall id :: IsRoot(rt, id) ==> id in h
  }

  ghost predicate ReachableFromRoots(h: Heap, rt: Runtime, id: Id) {
    exists root :: IsRoot(rt, root) && Reachable(h, root, id)
  }

  lemma {:induction false} ThreadsRootSeqHolds(ts: seq<ThreadState>, id: Id)
    ensures Some(id) in ThreadsRootSeq(ts) <==> exists j :: 0 <= j < |ts| && ThreadHolds(ts[j], id)
    decreases |ts|
  {
    if |ts| > 0 {
      ThreadsRootSeqHolds(ts[1..], id);
      if exists j :: 0 <= j < |ts| && ThreadHolds(ts[j], id) {
        var j :| 0 <= j < |ts| && ThreadHolds(ts[j], id);
        if j > 0 {
          assert ThreadHolds(ts[1..][j - 1], id);
        }
      }
      if exists j :: 0 <= j < |ts[1..]| && ThreadHolds(ts[1..][j], id) {
        var j :| 0 <= j < |ts[1..]| && ThreadHolds(ts[1..][j], id);
        assert ThreadHolds(ts[j + 1], id);
      }
    }
  }

  lemma {:induction false} InterpsRootSeqHolds(its: seq<InterpreterState>, id: Id)
    ensures Some(id) in InterpsRootSeq(its) <==> exists i :: 0 <= i < |its| && InterpHolds(its[i], id)
    decreases |its|
  {
    if |its| > 0 {
      InterpsRootSeqHolds(its[1..], id);
      ThreadsRootSeqHolds(its[0].threads, id);
      if exists i :: 0 <= i < |its| && InterpHolds(its[i], id) {
        var i :| 0 <= i < |its| && InterpHolds(its[i], id);
        if i > 0 {
          assert InterpHolds(its[1..][i - 1], id);
        }
      }
      if exists i :: 0 <= i < |its[1..]| && InterpHolds(its[1..][i], id) {
        var i :| 0 <= i < |its[1..]| && InterpHolds(its[1..][i], id);
        assert InterpHolds(its[i + 1], id);
      }
    }
  }

  /** The marking order of `mark_all` visits exactly the root set. */
  lemma RootSeqIsRootSet(rt: Runtime)
    ensures forall id: Id :: Some(id) in RootSeq(rt) <==> IsRoot(rt, id)
  {
    forall id: Id
      ensures Some(id) in RootSeq(rt) <==> IsRoot(rt, id)
    {
      InterpsRootSeqHolds(rt.interpreters, id);
    }
  }

  lemma RootsInFields(h: Heap, rt: Runtime)
    requires RootsIn(h, rt)
    ensures FieldsIn(h, RootSeq(rt))
  {
    RootSeqIsRootSet(rt);
    var fs := RootSeq(rt);
    forall i | 0 <= i < |fs| && fs[i].Some?
      ensures fs[i].value in h
    {
      assert Some(fs[i].value) in fs;
    }
  }

  // ---------------------------------------------------------------------------
  // mark_all

  /**
   * `mark_all`: `Py_MARK` over every root in the order of `RootSeq`, each
   * `mark_object` result discarded. Every root ends up marked, marking only
   * ever sets MARKED, and no reference changes.
   */
  function MarkAll(h: Heap, rt: Runtime): (r: Heap)
    requires Closed(h) && RootsIn(h, rt)
    ensures Grows(h, r) && Closed(r)
    ensures forall id :: IsRoot(rt, id) ==> Marked(r, id)
  {
    RootsInFields(h, rt);
    RootSeqIsRootSet(rt);
    var r := MarkFields(h, RootSeq(rt));
    GrowsFacts(h, r);
    r
  }

  /** `mark_all` marks anew only objects reachable from a root, faults or not. */
  lemma MarkAllSound(h: Heap, rt: Runtime)
    requires Closed(h) && RootsIn(h, rt)
    ensures forall id :: NewlyMarked(h, MarkAll(h, rt), id) ==> ReachableFromRoots(h, rt, id)
  {
    RootsInFields(h, rt);
    RootSeqIsRootSet(rt);
    var fs := RootSeq(rt);
    MarkFieldsSound(h, fs);
    forall id | NewlyMarked(h, MarkAll(h, rt), id)
      ensures ReachableFromRoots(h, rt, id)
    {
      var i :| 0 <= i < |fs| && fs[i].Some? && Reachable(h, fs[i].value, id);
      assert fs[i] in fs;
      assert IsRoot(rt, fs[i].value);
    }
  }

  /**
   * Starting with nothing marked and no faulting traverse routine, the objects
   * `mark_all` marks are exactly the objects reachable from the roots.
   */
  lemma MarkAllExact(h: Heap, rt: Runtime)
    requires Closed(h) && RootsIn(h, rt) && NoMarks(h) && NoFaults(h)
    ensures forall id :: id in h ==> (Marked(MarkAll(h, rt), id) <==> ReachableFromRoots(h, rt, id))
  {
    var r := MarkAll(h, rt);
    RootsInFields(h, rt);
    MarkAllSound(h, rt);
    MarkFieldsComplete(h, RootSeq(rt));
    GrowsFacts(h, r);
    assert forall id, c :: Marked(r, id) && c in Refs(r[id]) ==> Marked(r, c) by {
      forall id, c | Marked(r, id) && c in Refs(r[id])
        ensures Marked(r, c)
      {
        assert NewlyMarked(h, r, id);
      }
    }
    forall id | id in h && ReachableFromRoots(h, rt, id)
      ensures Marked(r, id)
    {
      var root :| IsRoot(rt, root) && Reachable(h, root, id);
      SameShapeReachable(h, r, root, id);
      var p :| IsPath(r, p) && p[0] == root && p[|p| - 1] == id;
      MarkedClosureReach(r, p);
    }
  }

  /** Marking a field list whose non-null entries are all marked changes nothing. */
  lemma {:induction false} MarkFieldsMarked(h: Heap, fs: seq<Option<Id>>)
    requires Closed(h) && FieldsIn(h, fs)
    requires forall i :: 0 <= i < |fs| && fs[i].Some? ==> Marked(h, fs[i].value)
    ensures MarkFields(h, fs) == h
    decreases |fs|
  {
    if |fs| > 0 {
      assert PyMark(h, fs[0]) == h;
      MarkFieldsMarked(h, fs[1..]);
    }
  }

  /** A second `mark_all` right after the first changes nothing. */
  lemma MarkAllIdempotent(h: Heap, rt: Runtime)
    requires Closed(h) && RootsIn(h, rt)
    ensures MarkAll(MarkAll(h, rt), rt) == MarkAll(h, rt)
  {
    var r := MarkAll(h, rt);
    GrowsFacts(h, r);
    RootsInFields(r, rt);
    RootSeqIsRootSet(rt);
    var fs := RootSeq(rt);
    forall i | 0 <= i < |fs| && fs[i].Some?
      ensures Marked(r, fs[i].value)
    {
      assert fs[i] in fs;
    }
    MarkFieldsMarked(r, fs);
  }
}
