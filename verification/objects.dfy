/**
 * The abstract heap the collector works on: object headers keyed by identity,
 * the references the collector can see from each object, and reachability
 * along those references.
 */
module Objects {
  import opened Options
  import opened Flags

  /** Object identity (the address of a `PyObject`). */
  type Id = nat

  /** The ten reference fields of a code object that `code_traverse` marks, in its order. */
  datatype CodeFields = CodeFields(
    code: Option<Id>, consts: Option<Id>, names: Option<Id>, varnames: Option<Id>,
    freevars: Option<Id>, cellvars: Option<Id>,
    filename: Option<Id>, name: Option<Id>, lnotab: Option<Id>,
    zombieframe: Option<Id>)

  /** The type's `tp_traverse` slot: null, or a routine that may report a fault. */
  datatype Traverse = NullTraverse | TraverseProc(fails: bool)

  /**
   * The three shapes `mark_object` tells apart: a code object, an object whose
   * type takes part in GC (`PyObject_IS_GC`), and any other object.
   */
  datatype Kind =
    | CodeObject(fields: CodeFields)
    | GcObject(traverse: Traverse)
    | PlainObject

  /**
   * An object header: reference count, flag word, kind, and the references
   * the type's traverse routine reports, in the order it reports them.
   */
  datatype Header = Header(refcnt: int, flags: Word, kind: Kind, edges: seq<Id>)

  type Heap = map<Id, Header>

  function CodeFieldList(c: CodeFields): seq<Option<Id>> {
    [c.code, c.consts, c.names, c.varnames, c.freevars, c.cellvars,
     c.filename, c.name, c.lnotab, c.zombieframe]
  }

  /** The non-null entries of a field list, in order. */
  function NonNull(fs: seq<Option<Id>>): (r: seq<Id>)
    ensures forall e :: e in r <==> Some(e) in fs
    ensures |r| <= |fs|
  {
    if |fs| == 0 then []
    else (if fs[0].Some? then [fs[0].value] else []) + NonNull(fs[1..])
  }

  /**
   * The references the marker follows out of an object: the non-null code
   * fields of a code object, the traverse routine's report for a GC object
   * with a routine, and nothing otherwise.
   */
  function Refs(hd: Header): seq<Id> {
    match hd.kind
    case CodeObject(c) => NonNull(CodeFieldList(c))
    case GcObject(TraverseProc(_)) => hd.edges
    case GcObject(NullTraverse) => []
    case PlainObject => []
  }

  predicate Marked(h: Heap, id: Id) {
    id in h && IsMarked(h[id].flags)
  }

  /** Every reference the marker can follow leads to an object of the heap. */
  ghost predicate Closed(h: Heap) {
    forall id, c :: id in h && c in Refs(h[id]) ==> c in h
  }

  ghost predicate AllIn(h: Heap, ids: seq<Id>) {
    forall i :: 0 <= i < |ids| ==> ids[i] in h
  }

  /** Every non-null entry of a field list is an object of the heap. */
  ghost predicate FieldsIn(h: Heap, fs: seq<Option<Id>>) {
    forall i :: 0 <= i < |fs| && fs[i].Some? ==> fs[i].value in h
  }

  /** No traverse routine in the heap reports a fault. */
  ghost predicate NoFaults(h: Heap) {
    forall id :: id in h ==> h[id].kind != GcObject(TraverseProc(true))
  }

  ghost predicate NoMarks(h: Heap) {
    forall id :: id in h ==> !IsMarked(h[id].flags)
  }

  /** `p` is a chain of heap objects, each referenced by its predecessor. */
  ghost predicate IsPath(h: Heap, p: seq<Id>) {
    && |p| > 0
    && (forall i :: 0 <= i < |p| ==> p[i] in h)
    && (forall i :: 0 <= i < |p| - 1 ==> p[i + 1] in Refs(h[p[i]]))
  }

  ghost predicate Reachable(h: Heap, a: Id, b: Id) {
    exists p :: IsPath(h, p) && p[0] == a && p[|p| - 1] == b
  }

  /** `b` is reachable from some non-null entry of `srcs`. */
  ghost predicate ReachableFromAny(h: Heap, srcs: seq<Option<Id>>, b: Id) {
    exists i :: 0 <= i < |srcs| && srcs[i].Some? && Reachable(h, srcs[i].value, b)
  }

  /** Every object reaches itself. */
  lemma ReachableSelf(h: Heap, a: Id)
    requires a in h
    ensures Reachable(h, a, a)
  {
    assert IsPath(h, [a]);
  }

  /** A reference followed by a path is a path. */
  lemma ReachableStep(h: Heap, a: Id, c: Id, b: Id)
    requires a in h && c in Refs(h[a]) && Reachable(h, c, b)
    ensures Reachable(h, a, b)
  {
    var p :| IsPath(h, p) && p[0] == c && p[|p| - 1] == b;
    var q := [a] + p;
    assert forall i :: 0 < i < |q| ==> q[i] == p[i - 1];
    assert IsPath(h, q);
  }

  /** Reachability depends only on the objects' kinds and edges, not on flags or counts. */
  ghost predicate SameShape(h: Heap, h': Heap) {
    h'.Keys == h.Keys && forall id :: id in h ==> Refs(h'[id]) == Refs(h[id])
  }

  lemma SameShapeReachable(h: Heap, h': Heap, a: Id, b: Id)
    requires SameShape(h, h')
    ensures Reachable(h, a, b) <==> Reachable(h', a, b)
  {
    if Reachable(h, a, b) {
      var p :| IsPath(h, p) && p[0] == a && p[|p| - 1] == b;
      assert IsPath(h', p);
    }
    if Reachable(h', a, b) {
      var p :| IsPath(h', p) && p[0] == a && p[|p| - 1] == b;
      assert IsPath(h, p);
    }
  }

  /**
   * In a heap where every marked object's references are marked, everything
   * reachable from a marked object is marked.
   */
  lemma {:induction false} MarkedClosureReach(h: Heap, p: seq<Id>)
    requires IsPath(h, p) && Marked(h, p[0])
    requires forall id, c :: Marked(h, id) && c in Refs(h[id]) ==> Marked(h, c)
    ensures Marked(h, p[|p| - 1])
    decreases |p|
  {
    if |p| > 1 {
      assert p[1] in Refs(h[p[0]]);
      assert IsPath(h, p[1..]);
      MarkedClosureReach(h, p[1..]);
    }
  }
}
