/**
 * What the marker achieves: it marks only what is reachable from where it
 * starts (soundness), and, when no traverse routine faults, every object it
 * marks has all its references marked by the time it returns (closure).
 */
module MarkerTheory {
  import opened Options
  import opened Flags
  import opened Objects
  import opened Marker

  lemma ClosedOverTrans(h: Heap, h1: Heap, h2: Heap)
    requires Grows(h, h1) && Grows(h1, h2)
    requires ClosedOver(h, h1) && ClosedOver(h1, h2)
    ensures ClosedOver(h, h2)
  {
    GrowsFacts(h, h1);
    GrowsFacts(h1, h2);
    forall id, c | NewlyMarked(h, h2, id) && c in Refs(h[id])
      ensures Marked(h2, c)
    {
      if Marked(h1, id) {
        assert NewlyMarked(h, h1, id);
      } else {
        assert NewlyMarked(h1, h2, id);
        assert Refs(h1[id]) == Refs(h[id]);
      }
    }
  }

  // ---------------------------------------------------------------------------
  // Soundness: everything marked anew is reachable from the starting points.

  lemma {:induction false} MarkObjectSound(h: Heap, ob: Id)
    requires ob in h && Closed(h)
    ensures forall id :: NewlyMarked(h, MarkObject(h, ob).heap, id) ==> Reachable(h, ob, id)
    decreases Unmarked(h), 0, 0
  {
    if !IsMarked(h[ob].flags) {
      var h1 := h[ob := SetMark(h[ob])];
      MarkOneShrinks(h, ob);
      GrowsFacts(h, h1);
      ClosedRefsIn(h, ob);
      var r := MarkObject(h, ob).heap;
      match h[ob].kind
      case CodeObject(c) =>
        var fs := CodeFieldList(c);
        MarkFieldsSound(h1, fs);
        forall id | NewlyMarked(h1, r, id)
          ensures exists i :: 0 <= i < |NonNull(fs)| && Reachable(h1, NonNull(fs)[i], id)
        {
          FromAnyNonNull(h1, fs, id);
        }
        SoundStep(h, ob, h1, r, NonNull(fs));
      case PlainObject =>
        SoundStep(h, ob, h1, r, []);
      case GcObject(NullTraverse) =>
        SoundStep(h, ob, h1, r, []);
      case GcObject(TraverseProc(_)) =>
        VisitEdgesSound(h1, h[ob].edges);
        assert r == VisitEdges(h1, h[ob].edges).heap;
        SoundStep(h, ob, h1, r, h[ob].edges);
    }
  }

  /**
   * If, after marking `ob`, everything marked anew is reachable from one of
   * `ob`'s references, then everything marked anew is reachable from `ob`.
   */
  lemma SoundStep(h: Heap, ob: Id, h1: Heap, r: Heap, srcs: seq<Id>)
    requires ob in h && !IsMarked(h[ob].flags) && h1 == h[ob := SetMark(h[ob])]
    requires Grows(h1, r)
    requires forall i :: 0 <= i < |srcs| ==> srcs[i] in Refs(h[ob])
    requires forall id :: NewlyMarked(h1, r, id) ==> exists i :: 0 <= i < |srcs| && Reachable(h1, srcs[i], id)
    ensures forall id :: NewlyMarked(h, r, id) ==> Reachable(h, ob, id)
  {
    MarkOneShrinks(h, ob);
    GrowsFacts(h, h1);
    forall id | NewlyMarked(h, r, id)
      ensures Reachable(h, ob, id)
    {
      if id == ob {
        ReachableSelf(h, ob);
      } else {
        assert NewlyMarked(h1, r, id);
        var i :| 0 <= i < |srcs| && Reachable(h1, srcs[i], id);
        SameShapeReachable(h, h1, srcs[i], id);
        ReachableStep(h, ob, srcs[i], id);
      }
    }
  }

  lemma FromAnyNonNull(h: Heap, fs: seq<Option<Id>>, id: Id)
    requires ReachableFromAny(h, fs, id)
    ensures exists i :: 0 <= i < |NonNull(fs)| && Reachable(h, NonNull(fs)[i], id)
  {
    var j :| 0 <= j < |fs| && fs[j].Some? && Reachable(h, fs[j].value, id);
    assert fs[j] in fs;
    var e := fs[j].value;
    assert e in NonNull(fs);
    var i :| 0 <= i < |NonNull(fs)| && NonNull(fs)[i] == e;
  }

  lemma {:induction false} VisitEdgesSound(h: Heap, es: seq<Id>)
    requires Closed(h) && AllIn(h, es)
    ensures forall id :: NewlyMarked(h, VisitEdges(h, es).heap, id) ==>
              exists i :: 0 <= i < |es| && Reachable(h, es[i], id)
    decreases Unmarked(h), 1, |es|
  {
    if |es| > 0 {
      var m := MarkObject(h, es[0]);
      MarkObjectSound(h, es[0]);
      if m.ret == 0 {
        GrowsFacts(h, m.heap);
        var t := VisitEdges(m.heap, es[1..]);
        VisitEdgesSound(m.heap, es[1..]);
        forall id | NewlyMarked(h, t.heap, id)
          ensures exists i :: 0 <= i < |es| && Reachable(h, es[i], id)
        {
          if Marked(m.heap, id) {
            assert Reachable(h, es[0], id);
          } else {
            assert NewlyMarked(m.heap, t.heap, id);
            var j :| 0 <= j < |es[1..]| && Reachable(m.heap, es[1..][j], id);
            SameShapeReachable(h, m.heap, es[j + 1], id);
            assert Reachable(h, es[j + 1], id);
          }
        }
      }
    }
  }

  lemma {:induction false} MarkFieldsSound(h: Heap, fs: seq<Option<Id>>)
    requires Closed(h) && FieldsIn(h, fs)
    ensures forall id :: NewlyMarked(h, MarkFields(h, fs), id) ==> ReachableFromAny(h, fs, id)
    decreases Unmarked(h), 1, |fs|
  {
    if |fs| > 0 {
      var h1 := PyMark(h, fs[0]);
      if fs[0].Some? {
        MarkObjectSound(h, fs[0].value);
      }
      GrowsFacts(h, h1);
      var h2 := MarkFields(h1, fs[1..]);
      MarkFieldsSound(h1, fs[1..]);
      forall id | NewlyMarked(h, h2, id)
        ensures ReachableFromAny(h, fs, id)
      {
        if Marked(h1, id) {
          assert Reachable(h, fs[0].value, id);
        } else {
          assert NewlyMarked(h1, h2, id);
          var j :| 0 <= j < |fs[1..]| && fs[1..][j].Some? && Reachable(h1, fs[1..][j].value, id);
          SameShapeReachable(h, h1, fs[j + 1].value, id);
          assert Reachable(h, fs[j + 1].value, id);
        }
      }
    }
  }

  // ---------------------------------------------------------------------------
  // Closure: without faults, the marker leaves no marked object with an
  // unmarked reference behind it.

  lemma {:induction false} MarkObjectComplete(h: Heap, ob: Id)
    requires ob in h && Closed(h) && NoFaults(h)
    ensures MarkObject(h, ob).ret == 0
    ensures ClosedOver(h, MarkObject(h, ob).heap)
    decreases Unmarked(h), 0, 0
  {
    if !IsMarked(h[ob].flags) {
      var h1 := h[ob := SetMark(h[ob])];
      MarkOneShrinks(h, ob);
      GrowsFacts(h, h1);
      ClosedRefsIn(h, ob);
      var r := MarkObject(h, ob);
      match h[ob].kind
      case CodeObject(c) =>
        MarkFieldsComplete(h1, CodeFieldList(c));
        OneMoreClosed(h, ob, r.heap);
      case PlainObject =>
      case GcObject(NullTraverse) =>
      case GcObject(TraverseProc(_)) =>
        VisitEdgesComplete(h1, h[ob].edges);
        OneMoreClosed(h, ob, r.heap);
    }
  }

  /** Marking `ob` and then closing over everything else closes over `ob` too. */
  lemma OneMoreClosed(h: Heap, ob: Id, h2: Heap)
    requires ob in h && !IsMarked(h[ob].flags)
    requires Grows(h[ob := SetMark(h[ob])], h2)
    requires ClosedOver(h[ob := SetMark(h[ob])], h2)
    requires forall i :: 0 <= i < |Refs(h[ob])| ==> Marked(h2, Refs(h[ob])[i])
    ensures ClosedOver(h, h2)
  {
    var h1 := h[ob := SetMark(h[ob])];
    forall id, c | NewlyMarked(h, h2, id) && c in Refs(h[id])
      ensures Marked(h2, c)
    {
      if id != ob {
        assert NewlyMarked(h1, h2, id);
      } else {
        var i :| 0 <= i < |Refs(h[ob])| && Refs(h[ob])[i] == c;
      }
    }
  }

  lemma {:induction false} VisitEdgesComplete(h: Heap, es: seq<Id>)
    requires Closed(h) && AllIn(h, es) && NoFaults(h)
    ensures VisitEdges(h, es).ret == 0
    ensures ClosedOver(h, VisitEdges(h, es).heap)
    decreases Unmarked(h), 1, |es|
  {
    if |es| > 0 {
      var m := MarkObject(h, es[0]);
      MarkObjectComplete(h, es[0]);
      GrowsFacts(h, m.heap);
      var t := VisitEdges(m.heap, es[1..]);
      VisitEdgesComplete(m.heap, es[1..]);
      ClosedOverTrans(h, m.heap, t.heap);
    }
  }

  lemma {:induction false} MarkFieldsComplete(h: Heap, fs: seq<Option<Id>>)
    requires Closed(h) && FieldsIn(h, fs) && NoFaults(h)
    ensures ClosedOver(h, MarkFields(h, fs))
    decreases Unmarked(h), 1, |fs|
  {
    if |fs| > 0 {
      var h1 := PyMark(h, fs[0]);
      if fs[0].Some? {
        MarkObjectComplete(h, fs[0].value);
      }
      GrowsFacts(h, h1);
      var h2 := MarkFields(h1, fs[1..]);
      MarkFieldsComplete(h1, fs[1..]);
      ClosedOverTrans(h, h1, h2);
    }
  }
}

/**
 * The traverse report of an object already marked plays no part in marking;
 * in particular a code object's own traverse report is never consulted, since
 * `mark_object` marks it before handing over to `code_traverse`.
 */
module EdgeIndependence {
  import opened Options
  import opened Flags
  import opened Objects
  import opened Marker

  /** `h` and `h'` differ at most in the edge list of `ob`. */
  ghost predicate DifferAtEdges(h: Heap, h': Heap, ob: Id) {
    && h'.Keys == h.Keys && ob in h
    && h'[ob] == h[ob].(edges := h'[ob].edges)
    && forall id :: id in h && id != ob ==> h'[id] == h[id]
  }

  lemma DifferUnmarked(h: Heap, h': Heap, ob: Id)
    requires DifferAtEdges(h, h', ob)
    ensures Unmarked(h') == Unmarked(h)
  {
  }

  lemma {:induction false} MarkObjectIgnoresEdges(h: Heap, h': Heap, ob: Id, x: Id)
    requires DifferAtEdges(h, h', ob) && Marked(h, ob)
    requires x in h && Closed(h) && Closed(h')
    ensures MarkObject(h', x).ret == MarkObject(h, x).ret
    ensures DifferAtEdges(MarkObject(h, x).heap, MarkObject(h', x).heap, ob)
    decreases Unmarked(h), 0, 0
  {
    if !IsMarked(h[x].flags) {
      assert x != ob;
      var h1 := h[x := SetMark(h[x])];
      var h1' := h'[x := SetMark(h'[x])];
      MarkOneShrinks(h, x);
      GrowsFacts(h, h1);
      MarkOneShrinks(h', x);
      GrowsFacts(h', h1');
      ClosedRefsIn(h, x);
      SetMarkedMarks(h[ob].flags);
      assert DifferAtEdges(h1, h1', ob);
      match h[x].kind
      case CodeObject(c) =>
        MarkFieldsIgnoresEdges(h1, h1', ob, CodeFieldList(c));
      case PlainObject =>
      case GcObject(NullTraverse) =>
      case GcObject(TraverseProc(_)) =>
        VisitEdgesIgnoresEdges(h1, h1', ob, h[x].edges);
    }
  }

  lemma {:induction false} VisitEdgesIgnoresEdges(h: Heap, h': Heap, ob: Id, es: seq<Id>)
    requires DifferAtEdges(h, h', ob) && Marked(h, ob)
    requires AllIn(h, es) && Closed(h) && Closed(h')
    ensures VisitEdges(h', es).ret == VisitEdges(h, es).ret
    ensures DifferAtEdges(VisitEdges(h, es).heap, VisitEdges(h', es).heap, ob)
    decreases Unmarked(h), 1, |es|
  {
    if |es| > 0 {
      var m := MarkObject(h, es[0]);
      var m' := MarkObject(h', es[0]);
      MarkObjectIgnoresEdges(h, h', ob, es[0]);
      if m.ret == 0 {
        GrowsFacts(h, m.heap);
        GrowsFacts(h', m'.heap);
        VisitEdgesIgnoresEdges(m.heap, m'.heap, ob, es[1..]);
      }
    }
  }

  lemma {:induction false} MarkFieldsIgnoresEdges(h: Heap, h': Heap, ob: Id, fs: seq<Option<Id>>)
    requires DifferAtEdges(h, h', ob) && Marked(h, ob)
    requires FieldsIn(h, fs) && Closed(h) && Closed(h')
    ensures DifferAtEdges(MarkFields(h, fs), MarkFields(h', fs), ob)
    decreases Unmarked(h), 1, |fs|
  {
    if |fs| > 0 {
      var h1 := PyMark(h, fs[0]);
      var h1' := PyMark(h', fs[0]);
      if fs[0].Some? {
        MarkObjectIgnoresEdges(h, h', ob, fs[0].value);
      }
      GrowsFacts(h, h1);
      GrowsFacts(h', h1');
      MarkFieldsIgnoresEdges(h1, h1', ob, fs[1..]);
    }
  }

  /**
   * Marking a code object gives the same result whatever edge list its header
   * carries: only the ten code fields are followed.
   */
  lemma CodeTraverseIgnoresEdges(h: Heap, ob: Id, e: seq<Id>)
    requires ob in h && Closed(h) && h[ob].kind.CodeObject?
    ensures var h' := h[ob := h[ob].(edges := e)];
            Closed(h') &&
            MarkObject(h', ob).ret == MarkObject(h, ob).ret &&
            MarkObject(h', ob).heap == MarkObject(h, ob).heap[ob := MarkObject(h, ob).heap[ob].(edges := e)]
  {
    var h' := h[ob := h[ob].(edges := e)];
    assert Closed(h') by {
      assert forall id :: id in h' ==> Refs(h'[id]) == Refs(h[id]);
    }
    if !IsMarked(h[ob].flags) {
      CodeUnmarked(h, ob, e, h');
    }
  }

  lemma CodeUnmarked(h: Heap, ob: Id, e: seq<Id>, h': Heap)
    requires ob in h && Closed(h) && h[ob].kind.CodeObject? && !IsMarked(h[ob].flags)
    requires h' == h[ob := h[ob].(edges := e)] && Closed(h')
    ensures MarkObject(h', ob).ret == MarkObject(h, ob).ret
    ensures MarkObject(h', ob).heap == MarkObject(h, ob).heap[ob := MarkObject(h, ob).heap[ob].(edges := e)]
  {
    var h1 := h[ob := SetMark(h[ob])];
    var h1' := h'[ob := SetMark(h'[ob])];
    var fs := CodeFieldList(h[ob].kind.fields);
    assert h1' == h[ob := SetMark(h[ob]).(edges := e)];
    CodeStep(h, ob, e, h1, h1');
    assert MarkObject(h, ob) == MarkResult(MarkFields(h1, fs), 0);
    assert MarkObject(h', ob) == MarkResult(MarkFields(h1', fs), 0);
  }

  lemma CodeStep(h: Heap, ob: Id, e: seq<Id>, h1: Heap, h1': Heap)
    requires ob in h && Closed(h) && h[ob].kind.CodeObject? && !IsMarked(h[ob].flags)
    requires h1 == h[ob := SetMark(h[ob])]
    requires h1' == h[ob := SetMark(h[ob]).(edges := e)]
    ensures var fs := CodeFieldList(h[ob].kind.fields);
            Closed(h1) && FieldsIn(h1, fs) && Closed(h1') && FieldsIn(h1', fs) &&
            MarkFields(h1', fs) == MarkFields(h1, fs)[ob := MarkFields(h1, fs)[ob].(edges := e)]
  {
    var fs := CodeFieldList(h[ob].kind.fields);
    CodeStepPre(h, ob, e, h1, h1');
    MarkFieldsIgnoresEdges(h1, h1', ob, fs);
    var r := MarkFields(h1, fs);
    var r' := MarkFields(h1', fs);
    assert r'[ob] == h1'[ob] by {
      SetMarkedMarks(h1'[ob].flags);
    }
    assert r' == r[ob := r[ob].(edges := e)];
  }

  lemma CodeStepPre(h: Heap, ob: Id, e: seq<Id>, h1: Heap, h1': Heap)
    requires ob in h && Closed(h) && h[ob].kind.CodeObject? && !IsMarked(h[ob].flags)
    requires h1 == h[ob := SetMark(h[ob])]
    requires h1' == h[ob := SetMark(h[ob]).(edges := e)]
    ensures var fs := CodeFieldList(h[ob].kind.fields);
            Closed(h1) && FieldsIn(h1, fs) && Closed(h1') && FieldsIn(h1', fs)
    ensures DifferAtEdges(h1, h1', ob) && Marked(h1, ob)
  {
    MarkOneShrinks(h, ob);
    GrowsFacts(h, h1);
    ClosedRefsIn(h, ob);
    SetMarkedMarks(h[ob].flags);
    assert Closed(h1') by {
      assert forall id :: id in h1' ==> Refs(h1'[id]) == Refs(h1[id]);
    }
  }
}
