/**
 * The marker (`mark_object` and the hand-written `code_traverse` in
 * `Python/marksweep.c`, `Py_MARK` in `Include/marksweep.h`): a depth-first
 * walk that uses the MARKED bit as its visited set.
 */
module Marker {
  import opened Options
  import opened Flags
  import opened Objects

  /** The heap after a call, and the call's `int` return value. */
  datatype MarkResult = MarkResult(heap: Heap, ret: int)

  /** The header with MARKED or-ed into its flag word. */
  function SetMark(hd: Header): Header {
    hd.(flags := SetFlag(hd.flags, MARKED))
  }

  /**
   * `h'` differs from `h` only in that some objects had MARKED set: no object
   * appears or disappears, and no flag bit, count, kind or edge list changes.
   */
  ghost predicate Grows(h: Heap, h': Heap) {
    h'.Keys == h.Keys && forall id :: id in h ==> h'[id] == h[id] || h'[id] == SetMark(h[id])
  }

  ghost function Unmarked(h: Heap): set<Id> {
    set id | id in h && !IsMarked(h[id].flags)
  }

  ghost predicate NewlyMarked(h: Heap, h': Heap, id: Id) {
    id in h && !IsMarked(h[id].flags) && Marked(h', id)
  }

  /** Every object `h'` marked anew has all its references marked in `h'`. */
  ghost predicate ClosedOver(h: Heap, h': Heap) {
    forall id, c :: NewlyMarked(h, h', id) && c in Refs(h[id]) ==> Marked(h', c)
  }

  // ---------------------------------------------------------------------------
  // Facts about Grows

  lemma GrowsFacts(h: Heap, h': Heap)
    requires Grows(h, h')
    ensures Unmarked(h') <= Unmarked(h)
    ensures forall id :: Marked(h, id) ==> Marked(h', id)
    ensures SameShape(h, h')
    ensures Closed(h) ==> Closed(h')
    ensures NoFaults(h) ==> NoFaults(h')
  {
    forall id | id in h
      ensures Marked(h, id) ==> Marked(h', id)
      ensures IsMarked(h'[id].flags) || h'[id] == h[id]
    {
      SetMarkedMarks(h[id].flags);
    }
  }

  lemma GrowsTrans(h: Heap, h1: Heap, h2: Heap)
    requires Grows(h, h1) && Grows(h1, h2)
    ensures Grows(h, h2)
  {
    forall id | id in h
      ensures h2[id] == h[id] || h2[id] == SetMark(h[id])
    {
      SetFlagIdempotent(h[id].flags, MARKED);
    }
  }

  /** Setting MARKED on one unmarked object removes exactly it from the unmarked set. */
  lemma MarkOneShrinks(h: Heap, ob: Id)
    requires ob in h && !IsMarked(h[ob].flags)
    ensures Grows(h, h[ob := SetMark(h[ob])])
    ensures Unmarked(h[ob := SetMark(h[ob])]) < Unmarked(h)
  {
    var h1 := h[ob := SetMark(h[ob])];
    SetMarkedMarks(h[ob].flags);
    GrowsFacts(h, h1);
    assert ob in Unmarked(h) && ob !in Unmarked(h1);
  }

  lemma ClosedRefsIn(h: Heap, ob: Id)
    requires Closed(h) && ob in h
    ensures AllIn(h, Refs(h[ob]))
    ensures h[ob].kind.CodeObject? ==> FieldsIn(h, CodeFieldList(h[ob].kind.fields))
  {
    var rs := Refs(h[ob]);
    assert forall i :: 0 <= i < |rs| ==> rs[i] in rs;
    if h[ob].kind.CodeObject? {
      var fs := CodeFieldList(h[ob].kind.fields);
      assert forall i :: 0 <= i < |fs| && fs[i].Some? ==> fs[i] in fs;
    }
  }

  /** Once every non-null entry of a field list is marked, so is every element of its non-null part. */
  lemma NonNullMarked(h: Heap, fs: seq<Option<Id>>)
    requires forall i :: 0 <= i < |fs| && fs[i].Some? ==> Marked(h, fs[i].value)
    ensures forall i :: 0 <= i < |NonNull(fs)| ==> Marked(h, NonNull(fs)[i])
  {
    forall i | 0 <= i < |NonNull(fs)|
      ensures Marked(h, NonNull(fs)[i])
    {
      var e := NonNull(fs)[i];
      assert Some(e) in fs;
      var j :| 0 <= j < |fs| && fs[j] == Some(e);
    }
  }

  // ---------------------------------------------------------------------------
  // The marker

  /**
   * `mark_object(ob, NULL)`. An already marked object is left alone; otherwise
   * MARKED is set first and then, by kind: a code object has its ten fields
   * marked by `code_traverse`; a non-GC object, or one whose type has no
   * traverse routine, is not looked into; any other object is handed to its
   * type's traverse routine with `mark_object` as the visitor, and a nonzero
   * result from the routine makes the call return 1.
   */
  function MarkObject(h: Heap, ob: Id): (r: MarkResult)
    requires ob in h && Closed(h)
    ensures Grows(h, r.heap)
    ensures Marked(r.heap, ob)
    ensures Marked(h, ob) ==> r == MarkResult(h, 0)
    ensures r.ret == 0 || r.ret == 1
    ensures r.ret == 1 ==> !Marked(h, ob) && h[ob].kind.GcObject? && h[ob].kind.traverse.TraverseProc?
    ensures !Marked(h, ob) && h[ob].kind == GcObject(TraverseProc(true)) ==> r.ret == 1
    ensures !Marked(h, ob) && (h[ob].kind.PlainObject? || h[ob].kind == GcObject(NullTraverse)) ==>
              r.heap == h[ob := SetMark(h[ob])]
    ensures !Marked(h, ob) && r.ret == 0 ==> forall i :: 0 <= i < |Refs(h[ob])| ==> Marked(r.heap, Refs(h[ob])[i])
    decreases Unmarked(h), 0, 0
  {
    if IsMarked(h[ob].flags) then MarkResult(h, 0)
    else
      var h1 := h[ob := SetMark(h[ob])];
      MarkOneShrinks(h, ob);
      GrowsFacts(h, h1);
      ClosedRefsIn(h, ob);
      match h[ob].kind
      case CodeObject(c) =>
        var h2 := MarkFields(h1, CodeFieldList(c));
        GrowsTrans(h, h1, h2);
        GrowsFacts(h1, h2);
        NonNullMarked(h2, CodeFieldList(c));
        assert Refs(h[ob]) == NonNull(CodeFieldList(c));
        MarkResult(h2, 0)
      case PlainObject => MarkResult(h1, 0)
      case GcObject(NullTraverse) => MarkResult(h1, 0)
      case GcObject(TraverseProc(fails)) =>
        var t := VisitEdges(h1, h[ob].edges);
        GrowsTrans(h, h1, t.heap);
        GrowsFacts(h1, t.heap);
        assert Refs(h[ob]) == h[ob].edges;
        MarkResult(t.heap, if t.ret != 0 || fails then 1 else 0)
  }

  /**
   * A traverse routine calling the visitor `mark_object` on each reported
   * reference in order, returning the first nonzero visitor result as soon as
   * it sees one (the `Py_VISIT` convention).
   */
  function VisitEdges(h: Heap, es: seq<Id>): (r: MarkResult)
    requires Closed(h) && AllIn(h, es)
    ensures Grows(h, r.heap)
    ensures r.ret == 0 || r.ret == 1
    ensures r.ret == 0 ==> forall i :: 0 <= i < |es| ==> Marked(r.heap, es[i])
    decreases Unmarked(h), 1, |es|
  {
    if |es| == 0 then MarkResult(h, 0)
    else
      var m := MarkObject(h, es[0]);
      if m.ret != 0 then m
      else
        GrowsFacts(h, m.heap);
        var t := VisitEdges(m.heap, es[1..]);
        GrowsTrans(h, m.heap, t.heap);
        GrowsFacts(m.heap, t.heap);
        t
  }

  /** `Py_MARK`: a null reference is skipped, any other is passed to `mark_object`. */
  function PyMark(h: Heap, ob: Option<Id>): (r: Heap)
    requires Closed(h) && (ob.Some? ==> ob.value in h)
    ensures Grows(h, r)
    ensures ob.None? ==> r == h
    ensures ob.Some? ==> Marked(r, ob.value)
    decreases Unmarked(h), 1, 0
  {
    match ob
    case None => h
    case Some(o) => MarkObject(h, o).heap
  }

  /**
   * `Py_MARK` applied to each entry of a fixed field list in order, the
   * return value of each `mark_object` discarded (`code_traverse`,
   * `interpreter_traverse`, `thread_traverse`).
   */
  function MarkFields(h: Heap, fs: seq<Option<Id>>): (r: Heap)
    requires Closed(h) && FieldsIn(h, fs)
    ensures Grows(h, r)
    ensures forall i :: 0 <= i < |fs| && fs[i].Some? ==> Marked(r, fs[i].value)
    decreases Unmarked(h), 1, |fs|
  {
    if |fs| == 0 then h
    else
      var h1 := PyMark(h, fs[0]);
      GrowsFacts(h, h1);
      var h2 := MarkFields(h1, fs[1..]);
      GrowsTrans(h, h1, h2);
      GrowsFacts(h1, h2);
      h2
  }
}
