/**
 * The ring buffer (ringbuf.c) the garbage collector uses as its work queue.
 * `data` holds `nalloc` slots; the items, front to back, are the `count`
 * slots starting at `start` and wrapping around the end. Every element has
 * the same size `dsize` in the C code; here a slot holds one element.
 *
 * Memory that `calloc` zeroes or `realloc` leaves undefined is filled with a
 * caller-chosen value: no operation reads a slot before writing it.
 */
module RingBuf {
  import opened Values

  datatype Ring<T> = Ring(data: seq<T>, start: nat, count: nat)

  /** The shape every operation keeps: at least one slot, `start` inside, at most full. */
  predicate Valid<T>(rb: Ring<T>)
  {
    0 < |rb.data| && rb.start < |rb.data| && rb.count <= |rb.data|
  }

  /** `x % n` for `x` below `2 * n`, without division. */
  function Fold(x: nat, n: nat): nat
  {
    if x < n then x else x - n
  }

  lemma ModIsFold(x: nat, n: nat)
    requires 0 < n && x < 2 * n
    ensures x % n == Fold(x, n)
  {
    if x < n {
      ModUnique(x, 0, x, n);
    } else {
      ModUnique(x, 1, x - n, n);
    }
  }

  /** The items, front to back. */
  function Items<T>(rb: Ring<T>): (r: seq<T>)
    requires Valid(rb)
    ensures |r| == rb.count
  {
    seq(rb.count, i requires 0 <= i < rb.count => rb.data[Fold(rb.start + i, |rb.data|)])
  }

  /** `rb_init`: `init` zeroed slots, empty. */
  function Init<T>(init: nat, zero: T): (r: Ring<T>)
    requires init > 0
    ensures Valid(r) && |r.data| == init && Items(r) == []
  {
    Ring(seq(init, _ => zero), 0, 0)
  }

  /**
   * `rb_grow` as evidently intended: double the slots, then move every item
   * whose slot index changes under the new size, one element at a time.
   */
  method Grow<T>(rb: Ring<T>, fill: T) returns (r: Ring<T>)
    requires Valid(rb)
    ensures Valid(r) && |r.data| == 2 * |rb.data|
    ensures r.start == rb.start && r.count == rb.count
    ensures Items(r) == Items(rb)
  {
    var n := |rb.data|;
    var m := 2 * n;
    var data := rb.data + seq(n, _ => fill);
    var i := 0;
    while i < rb.count
      invariant 0 <= i <= rb.count && |data| == m
      invariant data[..n] == rb.data
      invariant forall k :: rb.start <= k < rb.start + i ==> data[k] == rb.data[Fold(k, n)]
    {
      ModIsFold(rb.start + i, n);
      ModIsFold(rb.start + i, m);
      var oldIndex := (rb.start + i) % n;
      var newIndex := (rb.start + i) % m;
      assert data[oldIndex] == rb.data[oldIndex] by {
        assert data[oldIndex] == data[..n][oldIndex];
      }
      if oldIndex != newIndex {
        assert oldIndex < rb.start && n <= newIndex;
        var before := data;
        data := data[newIndex := data[oldIndex]];
        assert data[..n] == before[..n];
      }
      assert data[rb.start + i] == rb.data[Fold(rb.start + i, n)];
      i := i + 1;
    }
    r := Ring(data, rb.start, rb.count);
    forall j | 0 <= j < r.count
      ensures Items(r)[j] == Items(rb)[j]
    {
      assert Fold(rb.start + j, m) == rb.start + j;
    }
  }

  /** `rb_push_front`: grow when full, then step `start` back one slot and store `x` there. */
  method PushFront<T>(rb: Ring<T>, x: T, fill: T) returns (r: Ring<T>)
    requires Valid(rb)
    ensures Valid(r) && Items(r) == [x] + Items(rb)
    ensures |r.data| == if rb.count >= |rb.data| then 2 * |rb.data| else |rb.data|
  {
    var g := rb;
    if rb.count >= |rb.data| {
      g := Grow(rb, fill);
    }
    var n := |g.data|;
    ModIsFold(g.start + n - 1, n);
    var newStart := (g.start + n - 1) % n;
    r := Ring(g.data[newStart := x], newStart, g.count + 1);
    assert g.count < n;
    forall i | 0 <= i < r.count
      ensures Items(r)[i] == ([x] + Items(g))[i]
    {
      if i > 0 {
        var k := Fold(g.start + (i - 1), n);
        assert Fold(newStart + i, n) == k;
        assert k != newStart;
        assert Items(r)[i] == g.data[k];
        assert ([x] + Items(g))[i] == Items(g)[i - 1] == g.data[k];
      } else {
        assert Fold(newStart, n) == newStart;
      }
    }
  }

  /** `rb_pop_front`: take the item at `start` and step `start` forward. Popping an empty buffer is undefined. */
  function PopFront<T>(rb: Ring<T>): (p: (T, Ring<T>))
    requires Valid(rb) && rb.count > 0
    ensures Valid(p.1) && |p.1.data| == |rb.data|
    ensures Items(rb) == [p.0] + Items(p.1)
  {
    ModIsFold(rb.start + 1, |rb.data|);
    var r := Ring(rb.data, (rb.start + 1) % |rb.data|, rb.count - 1);
    forall i | 0 <= i < r.count
      ensures Items(r)[i] == Items(rb)[i + 1]
    {
      assert Fold(r.start + i, |rb.data|) == Fold(rb.start + (i + 1), |rb.data|);
    }
    assert Fold(rb.start + 0, |rb.data|) == rb.start;
    (rb.data[rb.start], r)
  }

  /** `rb_push_back`: grow when full, then store `x` in the slot after the last item. */
  method PushBack<T>(rb: Ring<T>, x: T, fill: T) returns (r: Ring<T>)
    requires Valid(rb)
    ensures Valid(r) && Items(r) == Items(rb) + [x]
    ensures |r.data| == if rb.count >= |rb.data| then 2 * |rb.data| else |rb.data|
  {
    var g := rb;
    if rb.count >= |rb.data| {
      g := Grow(rb, fill);
    }
    var n := |g.data|;
    ModIsFold(g.start + g.count, n);
    var index := (g.start + g.count) % n;
    r := Ring(g.data[index := x], g.start, g.count + 1);
    forall i | 0 <= i < r.count
      ensures Items(r)[i] == (Items(g) + [x])[i]
    {
      if i < g.count {
        assert Fold(g.start + i, n) != index;
      }
    }
  }

  /** `rb_pop_back`: take the last item. Popping an empty buffer is undefined. */
  function PopBack<T>(rb: Ring<T>): (p: (T, Ring<T>))
    requires Valid(rb) && rb.count > 0
    ensures Valid(p.1) && |p.1.data| == |rb.data| && p.1.start == rb.start
    ensures Items(rb) == Items(p.1) + [p.0]
  {
    ModIsFold(rb.start + rb.count - 1, |rb.data|);
    var r := Ring(rb.data, rb.start, rb.count - 1);
    assert forall i :: 0 <= i < r.count ==> Items(r)[i] == Items(rb)[i];
    (rb.data[(rb.start + rb.count - 1) % |rb.data|], r)
  }

  /*
   * The copy length in `rb_grow`. Line 35 of ringbuf.c passes the new slot
   * count `nalloc` to `memcpy` as the number of bytes to move, where one
   * element is `dsize` bytes. The writes below are byte ranges
   * (offset, length) into the grown block of `2 * oldAlloc * dsize` bytes.
   */

  /** The writes of the move loop from item `i` on, each `len` bytes long. */
  function MoveWrites(start: nat, count: nat, oldAlloc: nat, dsize: nat, len: nat, i: nat): (w: seq<(nat, nat)>)
    requires oldAlloc > 0
    ensures forall k :: 0 <= k < |w| ==> w[k].1 == len
    decreases count - i
  {
    if i >= count then []
    else
      var oldIndex := (start + i) % oldAlloc;
      var newIndex := (start + i) % (2 * oldAlloc);
      (if oldIndex != newIndex then [(newIndex * dsize, len)] else [])
      + MoveWrites(start, count, oldAlloc, dsize, len, i + 1)
  }

  /** Every write from item `j` on is also a write from item `i <= j` on. */
  lemma {:induction false} MoveWritesSuffix(start: nat, count: nat, oldAlloc: nat, dsize: nat, len: nat, i: nat, j: nat)
    requires oldAlloc > 0 && i <= j
    ensures forall w :: w in MoveWrites(start, count, oldAlloc, dsize, len, j) ==>
                        w in MoveWrites(start, count, oldAlloc, dsize, len, i)
    decreases j - i
  {
    if i < j && i < count {
      MoveWritesSuffix(start, count, oldAlloc, dsize, len, i + 1, j);
    }
  }

  /**
   * As written: the garbage collector's queue (8-byte pointers, 16 slots)
   * grown while its 16 items start at slot 15 moves its last item to slot
   * 30 with a 32-byte copy, ending at byte 272 of a 256-byte block.
   */
  lemma GrowOverrunsAsWritten()
    ensures exists w :: w in MoveWrites(15, 16, 16, 8, 32, 0) && w.0 + w.1 > 2 * 16 * 8
  {
    assert MoveWrites(15, 16, 16, 8, 32, 15) == [(240, 32)];
    MoveWritesSuffix(15, 16, 16, 8, 32, 0, 15);
    assert (240, 32) in MoveWrites(15, 16, 16, 8, 32, 0);
  }

  /** With one element's `dsize` bytes per copy, every write stays inside the grown block. */
  lemma {:induction false} MovesStayInside(start: nat, count: nat, oldAlloc: nat, dsize: nat, i: nat)
    requires oldAlloc > 0
    ensures forall w :: w in MoveWrites(start, count, oldAlloc, dsize, dsize, i) ==>
                        w.0 + w.1 <= 2 * oldAlloc * dsize
    decreases count - i
  {
    if i < count {
      var newIndex := (start + i) % (2 * oldAlloc);
      MulMonotone(newIndex + 1, 2 * oldAlloc, dsize);
      MovesStayInside(start, count, oldAlloc, dsize, i + 1);
    }
  }

  lemma MulMonotone(a: nat, b: nat, c: nat)
    requires a <= b
    ensures a * c <= b * c
  {
  }
}
