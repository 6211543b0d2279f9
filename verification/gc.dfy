/**
 * Mark-and-sweep garbage collection (gc.c). Every object the runtime
 * allocates is on one list, oldest first, whose head is `nil`. An object is
 * an id in a heap; `children` are the objects its type's `expand` iterator
 * yields, in order. Marks are the characters of the C code: `'w'`
 * (`GC_NOMARK`), `'g'` (`GC_QUEUED`), `'b'` (`GC_MARKED`), plus the 0 that
 * `lisp_init` gives `nil`, which is none of the three.
 */
module Gc {
  import opened Values
  import RingBuf

  datatype Mark = Zero | NoMark | Queued | Marked

  datatype Obj = Obj(children: seq<nat>, mark: Mark)

  type Heap = map<nat, Obj>

  /** Every child is an object of the heap. */
  predicate Closed(h: Heap)
  {
    forall o :: o in h ==> forall k :: 0 <= k < |h[o].children| ==> h[o].children[k] in h
  }

  predicate NoneQueued(h: Heap)
  {
    forall o :: o in h ==> h[o].mark != Queued
  }

  /** A mark a finished marking pass leaves alone: marked, or the initial 0. */
  predicate Settled(m: Mark)
  {
    m == Marked || m == Zero
  }

  /** The children of a marked object are settled. */
  predicate MarkedClosed(h: Heap)
    requires Closed(h)
  {
    forall o :: o in h && h[o].mark == Marked ==>
      forall k :: 0 <= k < |h[o].children| ==> Settled(h[h[o].children[k]].mark)
  }

  /** Only objects without children (`nil`) carry the initial 0 mark. */
  predicate ZeroChildless(h: Heap)
  {
    forall o :: o in h && h[o].mark == Zero ==> |h[o].children| == 0
  }

  /** The state a marking pass starts from and ends in. */
  predicate Ready(h: Heap)
  {
    Closed(h) && NoneQueued(h) && MarkedClosed(h) && ZeroChildless(h)
  }

  /** `p` follows `expand` edges from `p[0]` to its last element. */
  predicate IsPath(h: Heap, p: seq<nat>)
  {
    && |p| > 0
    && (forall k :: 0 <= k < |p| ==> p[k] in h)
    && forall k :: 0 <= k < |p| - 1 ==> p[k + 1] in h[p[k]].children
  }

  ghost predicate Reachable(h: Heap, v: nat, o: nat)
  {
    exists p :: IsPath(h, p) && p[0] == v && p[|p| - 1] == o
  }

  lemma PathExtend(h: Heap, p: seq<nat>, c: nat)
    requires IsPath(h, p) && Closed(h) && c in h[p[|p| - 1]].children
    ensures IsPath(h, p + [c])
  {
    var x := p[|p| - 1];
    var k :| 0 <= k < |h[x].children| && h[x].children[k] == c;
  }

  /** The heap with the mark of `o` replaced. */
  function SetMark(h: Heap, o: nat, m: Mark): (r: Heap)
    requires o in h
    ensures r.Keys == h.Keys && r[o] == Obj(h[o].children, m)
    ensures forall p :: p in h && p != o ==> r[p] == h[p]
  {
    h[o := h[o].(mark := m)]
  }

  /** The objects still marked `'w'`. */
  function NoMarks(h: Heap): set<nat>
  {
    set o | o in h && h[o].mark == NoMark
  }

  /** Re-marking an object never adds to the unmarked set, and takes away an unmarked one. */
  lemma NoMarksAfter(h: Heap, o: nat, m: Mark)
    requires o in h && m != NoMark
    ensures NoMarks(SetMark(h, o, m)) == NoMarks(h) - {o}
    ensures h[o].mark == NoMark ==> |NoMarks(SetMark(h, o, m))| == |NoMarks(h)| - 1
    ensures |NoMarks(SetMark(h, o, m))| <= |NoMarks(h)|
  {
    var h2 := SetMark(h, o, m);
    assert NoMarks(h2) == NoMarks(h) - {o};
  }

  /** Marks changed only from `'w'` or 0 to `'g'` or `'b'`, and every changed object has a path from `v`. */
  ghost predicate Traced(h: Heap, v: nat, r: Heap, paths: map<nat, seq<nat>>)
  {
    && r.Keys == h.Keys && (forall o :: o in h ==> r[o].children == h[o].children)
    && (forall o :: o in h && h[o].mark == Marked ==> r[o].mark == Marked)
    && (forall o :: o in h && r[o].mark != h[o].mark ==> (r[o].mark == Marked || r[o].mark == Queued) && o in paths)
    && (forall o :: o in paths ==> o in h && IsPath(h, paths[o]) && paths[o][0] == v && paths[o][|paths[o]| - 1] == o)
  }

  /** Every `'g'` object waits in the queue, and everything queued has a path. */
  ghost predicate Pending(r: Heap, queue: seq<nat>, paths: map<nat, seq<nat>>)
  {
    && (forall k :: 0 <= k < |queue| ==> queue[k] in paths)
    && (forall o :: o in r && r[o].mark == Queued ==> o in queue)
  }

  /** Every `'b'` object outside `skip` has no `'w'` child. */
  predicate Expanded(r: Heap, skip: set<nat>)
  {
    forall o :: o in r && r[o].mark == Marked && o !in skip ==>
      forall k :: 0 <= k < |r[o].children| ==> r[o].children[k] in r && r[r[o].children[k]].mark != NoMark
  }

  /** The objects queued so far: each was `'w'` before and is no longer, and none twice. */
  predicate Fresh(h: Heap, r: Heap, enqueued: seq<nat>)
  {
    && (forall k :: 0 <= k < |enqueued| ==> enqueued[k] in h && enqueued[k] in r
                                            && h[enqueued[k]].mark == NoMark && r[enqueued[k]].mark != NoMark)
    && (forall i, j :: 0 <= i < j < |enqueued| ==> enqueued[i] != enqueued[j])
  }

  /** Marking `'b'` an object with a path keeps the record of what changed. */
  lemma MarkTraced(h: Heap, v: nat, r: Heap, x: nat, paths: map<nat, seq<nat>>)
    requires Traced(h, v, r, paths) && x in paths
    ensures x in r && Traced(h, v, SetMark(r, x, Marked), paths)
  {
  }

  /** Popping `x` off the queue and marking it `'b'` leaves every other `'g'` object in the rest of the queue. */
  lemma MarkPending(r: Heap, x: nat, rest: seq<nat>, paths: map<nat, seq<nat>>)
    requires Pending(r, [x] + rest, paths) && x in r
    ensures x in paths && Pending(SetMark(r, x, Marked), rest, paths)
  {
    assert ([x] + rest)[0] == x;
    var r2 := SetMark(r, x, Marked);
    forall o | o in r2 && r2[o].mark == Queued
      ensures o in rest
    {
      assert o in [x] + rest && o != x;
    }
    forall k | 0 <= k < |rest|
      ensures rest[k] in paths
    {
      assert rest[k] == ([x] + rest)[k + 1];
    }
  }

  /** Marking `'b'` takes no mark back to `'w'` and leaves only `x` to expand. */
  lemma MarkKeeps(h: Heap, r: Heap, x: nat, enqueued: seq<nat>)
    requires Fresh(h, r, enqueued) && Expanded(r, {}) && x in r
    ensures Fresh(h, SetMark(r, x, Marked), enqueued)
    ensures Expanded(SetMark(r, x, Marked), {x})
    ensures |NoMarks(SetMark(r, x, Marked))| <= |NoMarks(r)|
    ensures forall o :: o in r && r[o].mark != NoMark ==> SetMark(r, x, Marked)[o].mark != NoMark
  {
    NoMarksAfter(r, x, Marked);
  }

  /** Where marking starts: only the root queued. */
  lemma MarkStart(h: Heap, v: nat)
    requires Ready(h) && v in h
    ensures Traced(h, v, h, map[v := [v]]) && Pending(h, [v], map[v := [v]]) && Fresh(h, h, [])
    ensures Expanded(h, {})
  {
  }

  /** Where marking ends: the queue empty, so no `'g'` is left and every `'b'` object's children are settled. */
  lemma MarkDone(h: Heap, v: nat, r: Heap, paths: map<nat, seq<nat>>)
    requires Ready(h) && Traced(h, v, r, paths) && Pending(r, [], paths) && Expanded(r, {})
    ensures Ready(r)
    ensures forall o :: o in h && r[o].mark != h[o].mark ==> r[o].mark == Marked && Reachable(h, v, o)
  {
    forall o | o in h && r[o].mark != h[o].mark
      ensures Reachable(h, v, o)
    {
      assert IsPath(h, paths[o]);
    }
  }

  /** Queueing a `'w'` child `c` of `x` keeps every marking invariant, for the queue grown by `c`. */
  lemma QueueStep(h: Heap, v: nat, r: Heap, queue: seq<nat>, paths: map<nat, seq<nat>>, enqueued: seq<nat>,
                  x: nat, c: nat)
    requires Closed(h) && Traced(h, v, r, paths) && Pending(r, queue, paths) && Fresh(h, r, enqueued)
    requires x in paths && c in h[x].children && c in r && r[c].mark == NoMark
    ensures Traced(h, v, SetMark(r, c, Queued), paths[c := paths[x] + [c]])
    ensures Pending(SetMark(r, c, Queued), queue + [c], paths[c := paths[x] + [c]])
    ensures Fresh(h, SetMark(r, c, Queued), enqueued + [c])
    ensures |NoMarks(SetMark(r, c, Queued))| + 1 == |NoMarks(r)|
    ensures forall o :: o in r && r[o].mark != NoMark ==> SetMark(r, c, Queued)[o].mark == r[o].mark
  {
    QueueTraced(h, v, r, paths, x, c);
    QueuePending(r, queue, paths, x, c);
    QueueFresh(h, r, enqueued, c);
    NoMarksAfter(r, c, Queued);
  }

  lemma QueueTraced(h: Heap, v: nat, r: Heap, paths: map<nat, seq<nat>>, x: nat, c: nat)
    requires Closed(h) && Traced(h, v, r, paths) && x in paths && c in h[x].children && c in r && r[c].mark == NoMark
    ensures Traced(h, v, SetMark(r, c, Queued), paths[c := paths[x] + [c]])
  {
    PathExtend(h, paths[x], c);
  }

  lemma QueuePending(r: Heap, queue: seq<nat>, paths: map<nat, seq<nat>>, x: nat, c: nat)
    requires Pending(r, queue, paths) && x in paths && c in r
    ensures Pending(SetMark(r, c, Queued), queue + [c], paths[c := paths[x] + [c]])
  {
  }

  lemma QueueFresh(h: Heap, r: Heap, enqueued: seq<nat>, c: nat)
    requires Fresh(h, r, enqueued) && c in h && c in r && h[c].mark == NoMark && r[c].mark == NoMark
    ensures Fresh(h, SetMark(r, c, Queued), enqueued + [c])
  {
  }

  /** Marking `'g'` a child that was `'w'` keeps `Expanded`, and records that child as done. */
  lemma QueueExpanded(r: Heap, x: nat, children: seq<nat>, j: nat)
    requires x in r && Expanded(r, {x}) && j < |children| && children[j] in r
    requires forall k :: 0 <= k < j ==> children[k] in r && r[children[k]].mark != NoMark
    ensures var r2 := if r[children[j]].mark == NoMark then SetMark(r, children[j], Queued) else r;
            && Expanded(r2, {x})
            && (forall k :: 0 <= k < j + 1 ==> children[k] in r2 && r2[children[k]].mark != NoMark)
  {
  }

  /** The inner loop of `lisp_mark`: queue each `'w'` child of the just-marked `x`, marking it `'g'`. */
  method QueueChildren(h: Heap, v: nat, r0: Heap, rb0: RingBuf.Ring<nat>, x: nat,
                       ghost paths0: map<nat, seq<nat>>, ghost enqueued0: seq<nat>)
    returns (r: Heap, rb: RingBuf.Ring<nat>, ghost paths: map<nat, seq<nat>>, ghost enqueued: seq<nat>)
    requires Closed(h) && Traced(h, v, r0, paths0) && RingBuf.Valid(rb0)
    requires Pending(r0, RingBuf.Items(rb0), paths0) && Fresh(h, r0, enqueued0)
    requires x in paths0 && r0[x].mark == Marked && Expanded(r0, {x})
    ensures Traced(h, v, r, paths) && RingBuf.Valid(rb)
    ensures Pending(r, RingBuf.Items(rb), paths) && Fresh(h, r, enqueued)
    ensures Expanded(r, {})
    ensures forall o :: o in r0 && r0[o].mark != NoMark ==> r[o].mark == r0[o].mark
    ensures |NoMarks(r)| + rb.count <= |NoMarks(r0)| + rb0.count && rb.count >= rb0.count
  {
    r, rb, paths, enqueued := r0, rb0, paths0, enqueued0;
    var children := r0[x].children;
    var j := 0;
    while j < |children|
      invariant 0 <= j <= |children| && RingBuf.Valid(rb) && r.Keys == r0.Keys && x in paths
      invariant Traced(h, v, r, paths) && Pending(r, RingBuf.Items(rb), paths) && Fresh(h, r, enqueued)
      invariant children == h[x].children && Expanded(r, {x})
      invariant forall k :: 0 <= k < j ==> children[k] in r && r[children[k]].mark != NoMark
      invariant forall o :: o in r0 && r0[o].mark != NoMark ==> r[o].mark == r0[o].mark
      invariant |NoMarks(r)| + rb.count <= |NoMarks(r0)| + rb0.count && rb.count >= rb0.count
    {
      var c := children[j];
      assert c in h[x].children;
      QueueExpanded(r, x, children, j);
      if r[c].mark == NoMark {
        QueueStep(h, v, r, RingBuf.Items(rb), paths, enqueued, x, c);
        r := SetMark(r, c, Queued);
        rb := RingBuf.PushBack(rb, c, 0);
        paths := paths[c := paths[x] + [c]];
        enqueued := enqueued + [c];
      }
      j := j + 1;
    }
  }

  /** One round of the outer loop of `lisp_mark`: pop the front object, mark it `'b'`, queue its `'w'` children. */
  method MarkNext(h: Heap, v: nat, r0: Heap, rb0: RingBuf.Ring<nat>,
                  ghost paths0: map<nat, seq<nat>>, ghost enqueued0: seq<nat>)
    returns (r: Heap, rb: RingBuf.Ring<nat>, ghost paths: map<nat, seq<nat>>, ghost enqueued: seq<nat>)
    requires Closed(h) && RingBuf.Valid(rb0) && rb0.count > 0
    requires Traced(h, v, r0, paths0) && Pending(r0, RingBuf.Items(rb0), paths0) && Fresh(h, r0, enqueued0)
    requires Expanded(r0, {})
    ensures RingBuf.Valid(rb)
    ensures Traced(h, v, r, paths) && Pending(r, RingBuf.Items(rb), paths) && Fresh(h, r, enqueued)
    ensures Expanded(r, {})
    ensures v in r0 && (r0[v].mark == Marked || RingBuf.Items(rb0)[0] == v) ==> r[v].mark == Marked
    ensures |NoMarks(r)| < |NoMarks(r0)| || (|NoMarks(r)| == |NoMarks(r0)| && rb.count < rb0.count)
  {
    var popped := RingBuf.PopFront(rb0);
    var x := popped.0;
    assert RingBuf.Items(rb0)[0] == x && x in paths0;
    MarkPending(r0, x, RingBuf.Items(popped.1), paths0);
    MarkTraced(h, v, r0, x, paths0);
    MarkKeeps(h, r0, x, enqueued0);
    var r1 := SetMark(r0, x, Marked);
    r, rb, paths, enqueued := QueueChildren(h, v, r1, popped.1, x, paths0, enqueued0);
  }

  /**
   * `lisp_mark`: breadth-first through a ring buffer of 16 slots. The root
   * is queued as it is; a popped object is marked `'b'`, and each of its
   * children still `'w'` is marked `'g'` and queued. `enqueued` lists the
   * children queued, in order.
   */
  method MarkFrom(h: Heap, v: nat) returns (r: Heap, ghost enqueued: seq<nat>)
    requires Ready(h) && v in h
    ensures r.Keys == h.Keys && forall o :: o in h ==> r[o].children == h[o].children
    ensures Ready(r) && r[v].mark == Marked
    ensures forall o :: o in h && h[o].mark == Marked ==> r[o].mark == Marked
    ensures forall o :: o in h && r[o].mark != h[o].mark ==> r[o].mark == Marked && Reachable(h, v, o)
    ensures Fresh(h, r, enqueued)
  {
    var rb := RingBuf.Init(16, 0);
    rb := RingBuf.PushBack(rb, v, 0);
    r := h;
    ghost var paths: map<nat, seq<nat>> := map[v := [v]];
    enqueued := [];
    MarkStart(h, v);
    while rb.count > 0
      invariant RingBuf.Valid(rb)
      invariant Traced(h, v, r, paths) && Pending(r, RingBuf.Items(rb), paths) && Fresh(h, r, enqueued)
      invariant Expanded(r, {})
      invariant r[v].mark == Marked || (rb.count > 0 && RingBuf.Items(rb)[0] == v)
      decreases |NoMarks(r)|, rb.count
    {
      r, rb, paths, enqueued := MarkNext(h, v, r, rb, paths, enqueued);
    }
    MarkDone(h, v, r, paths);
  }

  /**
   * After a marking pass from `v` every object reachable from `v` is marked,
   * except that the initial 0 mark of `nil` stays (it has no children).
   */
  lemma {:induction false} ReachableMarked(h: Heap, v: nat, p: seq<nat>)
    requires Ready(h) && v in h && h[v].mark == Marked
    requires IsPath(h, p) && p[0] == v
    ensures forall k :: 0 <= k < |p| - 1 ==> h[p[k]].mark == Marked
    ensures Settled(h[p[|p| - 1]].mark)
    decreases |p|
  {
    if |p| > 1 {
      var q := p[..|p| - 1];
      assert IsPath(h, q);
      ReachableMarked(h, v, q);
      var x := q[|q| - 1];
      assert x == p[|p| - 2];
      assert p[|p| - 1] in h[x].children;
      var k :| 0 <= k < |h[x].children| && h[x].children[k] == p[|p| - 1];
      assert |h[x].children| > 0;
    }
  }

  /*
   * The runtime's collector state.
   */

  datatype Runtime = Runtime(
    heap: Heap,
    objects: seq<nat>,        // the allocation list, `head` first, `tail` last
    nil: nat,
    stack: nat,
    depth: int,
    errorStack: Option<nat>,
    error: Option<string>,
    errorLine: int,
    errno: Errno,
    hasMarked: bool)

  predicate Distinct(xs: seq<nat>)
  {
    forall i, j :: 0 <= i < j < |xs| ==> xs[i] != xs[j]
  }

  /** What holds between collector calls. */
  predicate Valid(rt: Runtime)
  {
    && |rt.objects| > 0 && rt.objects[0] == rt.nil && Distinct(rt.objects)
    && (forall o :: o in rt.heap ==> o in rt.objects)
    && (forall k :: 0 <= k < |rt.objects| ==> rt.objects[k] in rt.heap)
    && Ready(rt.heap)
    && |rt.heap[rt.nil].children| == 0
    && (forall o :: o in rt.heap && rt.heap[o].mark == Zero ==> o == rt.nil)
    && rt.stack in rt.heap
    && (rt.errorStack.Some? ==> rt.errorStack.value in rt.heap)
  }

  /** `lisp_init`, for the collector's part: `nil` alone, with mark 0. `has_marked` is left as `malloc` gave it. */
  function Init(nil: nat, hasMarked: bool): (rt: Runtime)
    ensures Valid(rt) && rt.objects == [nil] && rt.heap[nil].mark == Zero
    ensures rt.stack == nil && rt.depth == 0 && rt.errorStack.None? && rt.error.None?
  {
    Runtime(map[nil := Obj([], Zero)], [nil], nil, nil, 0, None, None, 0, LeNone, hasMarked)
  }

  /** `lisp_new`: a fresh object, unmarked, appended at the tail. */
  function New(rt: Runtime, id: nat, children: seq<nat>): (r: Runtime)
    requires Valid(rt) && id !in rt.heap
    requires forall k :: 0 <= k < |children| ==> children[k] in rt.heap
    ensures Valid(r) && r.objects == rt.objects + [id]
    ensures r.heap.Keys == rt.heap.Keys + {id} && r.heap[id] == Obj(children, NoMark)
    ensures forall o :: o in rt.heap ==> r.heap[o] == rt.heap[o]
  {
    NewValid(rt, id, children);
    rt.(heap := rt.heap[id := Obj(children, NoMark)], objects := rt.objects + [id])
  }

  lemma NewValid(rt: Runtime, id: nat, children: seq<nat>)
    requires Valid(rt) && id !in rt.heap
    requires forall k :: 0 <= k < |children| ==> children[k] in rt.heap
    ensures Valid(rt.(heap := rt.heap[id := Obj(children, NoMark)], objects := rt.objects + [id]))
  {
    var h := rt.heap[id := Obj(children, NoMark)];
    var objects := rt.objects + [id];
    assert forall k :: 0 <= k < |rt.objects| ==> objects[k] == rt.objects[k];
    assert Ready(h);
    assert Distinct(objects);
  }

  /** Following the same `expand` edges, two heaps reach the same objects. */
  lemma ReachableSameEdges(h1: Heap, h2: Heap, v: nat, o: nat)
    requires h1.Keys == h2.Keys && forall x :: x in h1 ==> h1[x].children == h2[x].children
    requires Reachable(h1, v, o)
    ensures Reachable(h2, v, o)
  {
    var p :| IsPath(h1, p) && p[0] == v && p[|p| - 1] == o;
    assert IsPath(h2, p);
  }

  /** Everything reachable from a `'b'` object of a settled heap is `'b'`, or `nil`'s 0. */
  lemma ReachedSettled(h: Heap, m: Heap, v: nat, o: nat)
    requires Ready(m) && v in m && m[v].mark == Marked
    requires h.Keys == m.Keys && forall x :: x in h ==> h[x].children == m[x].children
    requires Reachable(h, v, o)
    ensures o in m && Settled(m[o].mark)
  {
    ReachableSameEdges(h, m, v, o);
    var p :| IsPath(m, p) && p[0] == v && p[|p| - 1] == o;
    ReachableMarked(m, v, p);
  }

  /** `lisp_mark` on the runtime: mark from `v` and note that marking happened. */
  method MarkRoot(rt: Runtime, v: nat) returns (r: Runtime)
    requires Valid(rt) && v in rt.heap
    ensures Valid(r) && r == rt.(heap := r.heap, hasMarked := true)
    ensures r.heap.Keys == rt.heap.Keys && forall o :: o in rt.heap ==> r.heap[o].children == rt.heap[o].children
    ensures r.heap[v].mark == Marked
    ensures forall o :: o in rt.heap && rt.heap[o].mark == Marked ==> r.heap[o].mark == Marked
    ensures forall o :: o in rt.heap && r.heap[o].mark != rt.heap[o].mark ==>
              r.heap[o].mark == Marked && Reachable(rt.heap, v, o)
  {
    var h, _ := MarkFrom(rt.heap, v);
    r := rt.(heap := h, hasMarked := true);
    forall o | o in r.heap && r.heap[o].mark == Zero ensures o == rt.nil {
      assert rt.heap[o].mark == Zero;
    }
  }

  /** The objects a collection must keep: reachable from the call stack or the error stack. */
  ghost predicate Rooted(rt: Runtime, o: nat)
  {
    Reachable(rt.heap, rt.stack, o) || (rt.errorStack.Some? && Reachable(rt.heap, rt.errorStack.value, o))
  }

  /** `lisp_mark_basics`: the error stack, when there is one, then the call stack. */
  method MarkBasics(rt: Runtime) returns (r: Runtime)
    requires Valid(rt)
    ensures Valid(r) && r == rt.(heap := r.heap, hasMarked := true)
    ensures r.heap.Keys == rt.heap.Keys && forall o :: o in rt.heap ==> r.heap[o].children == rt.heap[o].children
    ensures forall o :: o in rt.heap && Rooted(rt, o) ==> Settled(r.heap[o].mark)
    ensures forall o :: o in rt.heap && rt.heap[o].mark == Marked ==> r.heap[o].mark == Marked
    ensures forall o :: o in rt.heap && r.heap[o].mark != rt.heap[o].mark ==>
              r.heap[o].mark == Marked && Rooted(rt, o)
  {
    var m := rt;
    if rt.errorStack.Some? {
      m := MarkRoot(rt, rt.errorStack.value);
      forall o | o in rt.heap && Reachable(m.heap, m.stack, o) ensures Reachable(rt.heap, rt.stack, o) {
        ReachableSameEdges(m.heap, rt.heap, rt.stack, o);
      }
    }
    r := MarkRoot(m, rt.stack);
    forall o | o in rt.heap && Rooted(rt, o)
      ensures Settled(r.heap[o].mark)
    {
      if Reachable(rt.heap, rt.stack, o) {
        ReachedSettled(rt.heap, r.heap, rt.stack, o);
      } else {
        ReachedSettled(rt.heap, r.heap, rt.errorStack.value, o);
      }
    }
  }

  /** The list entries, in order, that are marked `'b'`. */
  function MarkedOnly(xs: seq<nat>, h: Heap): (r: seq<nat>)
    requires forall k :: 0 <= k < |xs| ==> xs[k] in h
    ensures |r| <= |xs|
  {
    if |xs| == 0 then []
    else MarkedOnly(xs[..|xs| - 1], h) + (if h[xs[|xs| - 1]].mark == Marked then [xs[|xs| - 1]] else [])
  }

  /** An entry is kept exactly when it is marked. */
  lemma {:induction false} MarkedOnlyMembers(xs: seq<nat>, h: Heap, o: nat)
    requires forall k :: 0 <= k < |xs| ==> xs[k] in h
    ensures o in MarkedOnly(xs, h) <==> o in xs && h[o].mark == Marked
  {
    if |xs| > 0 {
      MarkedOnlyMembers(xs[..|xs| - 1], h, o);
      assert xs == xs[..|xs| - 1] + [xs[|xs| - 1]];
    }
  }

  /** Filtering a list without repeats gives a list without repeats. */
  lemma {:induction false} MarkedOnlyDistinct(xs: seq<nat>, h: Heap)
    requires forall k :: 0 <= k < |xs| ==> xs[k] in h
    requires Distinct(xs)
    ensures Distinct(MarkedOnly(xs, h))
  {
    if |xs| > 0 {
      var init := xs[..|xs| - 1];
      assert Distinct(init);
      MarkedOnlyDistinct(init, h);
      MarkedOnlyMembers(init, h, xs[|xs| - 1]);
    }
  }

  /**
   * The walk of `lisp_sweep` over the list after the head: an entry not
   * marked `'b'` is unlinked and freed, a marked one stays and is reset to
   * `'w'`. The head is never examined; it stays and is reset too. The
   * survivors' heap is built from the kept list after the walk.
   */
  method SweepList(h: Heap, objects: seq<nat>) returns (heap: Heap, kept: seq<nat>)
    requires |objects| > 0 && Distinct(objects)
    requires (forall o :: o in h ==> o in objects) && forall k :: 0 <= k < |objects| ==> objects[k] in h
    ensures kept == [objects[0]] + MarkedOnly(objects[1..], h)
    ensures forall o :: o in heap <==> o == objects[0] || (o in h && h[o].mark == Marked)
    ensures forall o :: o in heap ==> o in h && heap[o] == Obj(h[o].children, NoMark)
  {
    kept := [objects[0]];
    var k := 1;
    while k < |objects|
      invariant 1 <= k <= |objects|
      invariant kept == [objects[0]] + MarkedOnly(objects[1..k], h)
    {
      var o := objects[k];
      SweepStep(h, objects, k);
      if h[o].mark == Marked {
        kept := kept + [o];
      }
      k := k + 1;
    }
    SweepEnd(h, objects, kept);
    heap := map o | o in kept :: Obj(h[o].children, NoMark);
  }

  /** One more list entry: `MarkedOnly` grows by it exactly when it is marked. */
  lemma SweepStep(h: Heap, objects: seq<nat>, k: nat)
    requires 1 <= k < |objects| && forall i :: 0 <= i < |objects| ==> objects[i] in h
    ensures MarkedOnly(objects[1..k + 1], h)
            == MarkedOnly(objects[1..k], h) + (if h[objects[k]].mark == Marked then [objects[k]] else [])
  {
    var t := objects[1..k + 1];
    assert |t| == k && t[k - 1] == objects[k];
    assert t[..k - 1] == objects[1..k];
  }

  /** The entries kept are the head and every marked object. */
  lemma SweepEnd(h: Heap, objects: seq<nat>, kept: seq<nat>)
    requires |objects| > 0 && (forall o :: o in h ==> o in objects)
    requires forall i :: 0 <= i < |objects| ==> objects[i] in h
    requires kept == [objects[0]] + MarkedOnly(objects[1..|objects|], h)
    ensures kept == [objects[0]] + MarkedOnly(objects[1..], h)
    ensures forall o :: o in kept <==> o == objects[0] || (o in h && h[o].mark == Marked)
  {
    assert objects[1..|objects|] == objects[1..];
    forall o
      ensures o in kept <==> o == objects[0] || (o in h && h[o].mark == Marked)
    {
      MarkedOnlyMembers(objects[1..], h, o);
      if o in h && o != objects[0] {
        var i :| 0 <= i < |objects| && objects[i] == o;
        assert objects[1..][i - 1] == o;
      }
    }
  }

  /** The list entries, in order, that are keys of `keys`. */
  function InKeys(xs: seq<nat>, keys: set<nat>): (r: seq<nat>)
    ensures |r| <= |xs|
  {
    if |xs| == 0 then []
    else InKeys(xs[..|xs| - 1], keys) + (if xs[|xs| - 1] in keys then [xs[|xs| - 1]] else [])
  }

  /** Keeping the marked entries is keeping the entries of any key set that holds exactly the marked ones. */
  lemma {:induction false} MarkedOnlyInKeys(xs: seq<nat>, h: Heap, keys: set<nat>)
    requires forall k :: 0 <= k < |xs| ==> xs[k] in h && (xs[k] in keys <==> h[xs[k]].mark == Marked)
    ensures MarkedOnly(xs, h) == InKeys(xs, keys)
  {
    if |xs| > 0 {
      MarkedOnlyInKeys(xs[..|xs| - 1], h, keys);
    }
  }

  /** The list the walk leaves is `nil` and then the survivors, in their old order. */
  lemma SweptInOrder(m: Runtime, heap: Heap, kept: seq<nat>)
    requires Valid(m)
    requires kept == [m.objects[0]] + MarkedOnly(m.objects[1..], m.heap)
    requires forall o :: o in heap <==> o == m.objects[0] || (o in m.heap && m.heap[o].mark == Marked)
    ensures kept == [m.nil] + InKeys(m.objects[1..], heap.Keys)
  {
    var xs := m.objects[1..];
    forall k | 0 <= k < |xs|
      ensures xs[k] in m.heap && (xs[k] in heap.Keys <==> m.heap[xs[k]].mark == Marked)
    {
      assert xs[k] == m.objects[k + 1] && m.objects[k + 1] != m.objects[0];
    }
    MarkedOnlyInKeys(xs, m.heap, heap.Keys);
  }

  /** Resetting every survivor's mark keeps the heap ready for the next marking pass. */
  lemma SweptReady(h: Heap, nil: nat, heap: Heap)
    requires Ready(h) && nil in h && |h[nil].children| == 0
    requires forall o :: o in h && h[o].mark == Zero ==> o == nil
    requires forall o :: o in heap <==> o == nil || (o in h && h[o].mark == Marked)
    requires forall o :: o in heap ==> o in h && heap[o] == Obj(h[o].children, NoMark)
    ensures Ready(heap)
  {
  }

  /**
   * `lisp_sweep`. When something was marked first, the call stack and the
   * error stack are marked too; otherwise the error is cleared and the call
   * stack emptied. Then every object but `nil` that is not marked `'b'` is
   * freed, and the survivors are reset to `'w'`.
   */
  method Sweep(rt: Runtime) returns (r: Runtime)
    requires Valid(rt)
    ensures Valid(r) && !r.hasMarked && r.objects[0] == r.nil == rt.nil
    ensures forall o :: o in r.heap ==> o in rt.heap && r.heap[o] == Obj(rt.heap[o].children, NoMark)
    ensures rt.hasMarked ==> r == rt.(heap := r.heap, objects := r.objects, hasMarked := false)
    ensures rt.hasMarked ==> forall o :: o in rt.heap && Rooted(rt, o) ==> o in r.heap
    ensures rt.hasMarked ==> forall o :: o in rt.heap && rt.heap[o].mark == Marked ==> o in r.heap
    ensures rt.hasMarked ==> forall o :: o in r.heap ==> o == rt.nil || rt.heap[o].mark == Marked || Rooted(rt, o)
    ensures !rt.hasMarked ==> r == rt.(heap := r.heap, objects := r.objects, stack := rt.nil, depth := 0,
                                       errorStack := None, error := None, errorLine := 0, errno := LeNone,
                                       hasMarked := false)
    ensures !rt.hasMarked ==> forall o :: o in r.heap <==> o == rt.nil || (o in rt.heap && rt.heap[o].mark == Marked)
    ensures r.objects == [rt.nil] + InKeys(rt.objects[1..], r.heap.Keys)
  {
    var m: Runtime;
    if rt.hasMarked {
      m := MarkBasics(rt);
      RootsSettled(rt, m);
    } else {
      m := rt.(stack := rt.nil, depth := 0, errorStack := None, error := None, errorLine := 0, errno := LeNone);
    }
    var heap, kept := SweepList(m.heap, m.objects);
    SweptValid(m, heap, kept);
    SweptInOrder(m, heap, kept);
    r := m.(heap := heap, objects := kept, hasMarked := false);
  }

  /**
   * `lisp_mark` of a value followed by `lisp_sweep`, the way a program keeps
   * what it still uses. Exactly these survive: `nil`, whatever was marked
   * already, everything reachable from the value, and everything reachable
   * from the call stack or the error stack. The list keeps its order.
   */
  method MarkThenSweep(rt: Runtime, v: nat) returns (r: Runtime)
    requires Valid(rt) && v in rt.heap
    ensures Valid(r) && r == rt.(heap := r.heap, objects := r.objects, hasMarked := false)
    ensures forall o :: o in r.heap <==>
              o in rt.heap && (o == rt.nil || rt.heap[o].mark == Marked || Reachable(rt.heap, v, o) || Rooted(rt, o))
    ensures r.objects == [rt.nil] + InKeys(rt.objects[1..], r.heap.Keys)
  {
    var m := MarkRoot(rt, v);
    r := Sweep(m);
    assert r.objects[0] in r.heap;
    forall o
      ensures o in r.heap <==>
              o in rt.heap && (o == rt.nil || rt.heap[o].mark == Marked || Reachable(rt.heap, v, o) || Rooted(rt, o))
    {
      if o in rt.heap {
        if Reachable(rt.heap, v, o) {
          ReachedSettled(rt.heap, m.heap, v, o);
        }
        if Reachable(rt.heap, rt.stack, o) {
          ReachableSameEdges(rt.heap, m.heap, rt.stack, o);
        }
        if Reachable(m.heap, m.stack, o) {
          ReachableSameEdges(m.heap, rt.heap, m.stack, o);
        }
        if rt.errorStack.Some? && Reachable(rt.heap, rt.errorStack.value, o) {
          ReachableSameEdges(rt.heap, m.heap, rt.errorStack.value, o);
        }
        if m.errorStack.Some? && Reachable(m.heap, m.errorStack.value, o) {
          ReachableSameEdges(m.heap, rt.heap, m.errorStack.value, o);
        }
      }
    }
  }

  /** After `MarkBasics` the roots themselves are marked, or are `nil`. */
  lemma RootsSettled(rt: Runtime, m: Runtime)
    requires Valid(rt) && Valid(m) && m.heap.Keys == rt.heap.Keys && m.stack == rt.stack
    requires m.errorStack == rt.errorStack && m.nil == rt.nil
    requires forall o :: o in rt.heap && Rooted(rt, o) ==> Settled(m.heap[o].mark)
    ensures m.stack == m.nil || m.heap[m.stack].mark == Marked
    ensures m.errorStack.Some? ==> m.errorStack.value == m.nil || m.heap[m.errorStack.value].mark == Marked
  {
    assert IsPath(rt.heap, [rt.stack]);
    if rt.errorStack.Some? {
      assert IsPath(rt.heap, [rt.errorStack.value]);
    }
  }

  /** What `SweepList` leaves is a valid runtime once the roots survived. */
  lemma SweptValid(m: Runtime, heap: Heap, kept: seq<nat>)
    requires Valid(m)
    requires kept == [m.objects[0]] + MarkedOnly(m.objects[1..], m.heap)
    requires forall o :: o in heap <==> o == m.objects[0] || (o in m.heap && m.heap[o].mark == Marked)
    requires forall o :: o in heap ==> o in m.heap && heap[o] == Obj(m.heap[o].children, NoMark)
    requires m.stack in heap && (m.errorStack.Some? ==> m.errorStack.value in heap)
    ensures Valid(m.(heap := heap, objects := kept, hasMarked := false))
  {
    SweptReady(m.heap, m.nil, heap);
    MarkedOnlyDistinct(m.objects[1..], m.heap);
    forall o | o in heap ensures o in kept {
      if o != m.nil {
        MarkedOnlyMembers(m.objects[1..], m.heap, o);
      }
    }
    forall k | 0 <= k < |kept| ensures kept[k] in heap {
      if k > 0 {
        MarkedOnlyMembers(m.objects[1..], m.heap, kept[k]);
      }
    }
    MarkedOnlyMembers(m.objects[1..], m.heap, m.nil);
    forall i | 0 <= i < |m.objects| - 1
      ensures m.objects[1..][i] != m.nil
    {
      assert m.objects[1..][i] == m.objects[i + 1];
    }
    DistinctCons(m.nil, MarkedOnly(m.objects[1..], m.heap));
  }

  lemma DistinctCons(a: nat, xs: seq<nat>)
    requires Distinct(xs) && a !in xs
    ensures Distinct([a] + xs)
  {
    forall i, j | 0 <= i < j < |xs| + 1
      ensures ([a] + xs)[i] != ([a] + xs)[j]
    {
      assert ([a] + xs)[j] == xs[j - 1];
    }
  }

  /**
   * `lisp_destroy`, for the collector's part: a sweep with `has_marked`
   * cleared, so nothing but `nil` and objects already marked `'b'` survive.
   */
  method Destroy(rt: Runtime) returns (r: Runtime)
    requires Valid(rt)
    ensures forall o :: o in r.heap <==> o == rt.nil || (o in rt.heap && rt.heap[o].mark == Marked)
    ensures (forall o :: o in rt.heap ==> rt.heap[o].mark != Marked) ==> r.heap.Keys == {rt.nil}
  {
    r := Sweep(rt.(hasMarked := false));
  }
}
