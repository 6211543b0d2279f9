/**
 * Iterators (iter.c). A C iterator is a record of callbacks: `has_next`,
 * `next` (which may return NULL) and `close`. The components a concatenation
 * walks through are one of three kinds: the empty iterator, the single-value
 * iterator, and a listing that yields a fixed sequence of results, which
 * stands for the container iterators (hash table keys and values, list
 * cells) whose own code is not part of this module. `None` is NULL.
 */
module Iter {
  import opened Values

  datatype Leaf<T> =
    | EmptyLeaf
    | SingleLeaf(ds: Option<T>, index: nat)
    | Listing(results: seq<Option<T>>, pos: nat)

  /**
   * A concatenation records the components, the one it is on (`state_int`),
   * the count of non-NULL results (`index`) and, in order, the positions of
   * the components it has closed.
   */
  datatype Iter<T> =
    | Basic(leaf: Leaf<T>)
    | Concat(parts: seq<Leaf<T>>, state: nat, index: nat, closed: seq<nat>)

  /*
   * Reference view: what each iterator still has to give.
   */

  /** The results a component still yields, NULLs included. */
  function LeafItems<T>(l: Leaf<T>): seq<Option<T>>
  {
    match l
    case EmptyLeaf => []
    case SingleLeaf(ds, index) => if index == 0 then [ds] else []
    case Listing(results, pos) => if pos <= |results| then results[pos..] else []
  }

  /** The results of components `s ..` in order. */
  function Flat<T>(parts: seq<Leaf<T>>, s: nat): seq<Option<T>>
    decreases |parts| - s
  {
    if s >= |parts| then [] else LeafItems(parts[s]) + Flat(parts, s + 1)
  }

  function Items<T>(it: Iter<T>): seq<Option<T>>
  {
    match it
    case Basic(l) => LeafItems(l)
    case Concat(parts, s, _, _) => Flat(parts, s)
  }

  function CountSome<T>(xs: seq<Option<T>>): (n: nat)
    ensures n <= |xs|
  {
    if |xs| == 0 then 0 else (if xs[0].Some? then 1 else 0) + CountSome(xs[1..])
  }

  /** The positions `a .. b-1`, in order. */
  function Range(a: nat, b: nat): (r: seq<nat>)
    ensures |r| == if a <= b then b - a else 0
  {
    if a <= b then seq(b - a, k => a + k) else []
  }

  /*
   * The callbacks.
   */

  /** `empty_has_next`, `sv_has_next`, and a listing's test. */
  predicate LeafHasNext<T>(l: Leaf<T>)
  {
    match l
    case EmptyLeaf => false
    case SingleLeaf(_, index) => index == 0
    case Listing(results, pos) => pos < |results|
  }

  /** `empty_next` (NULL), `sv_next` (the value, counting the call), and a listing's step. */
  function LeafNext<T>(l: Leaf<T>): (p: (Option<T>, Leaf<T>))
    ensures LeafHasNext(l) ==> LeafItems(l) == [p.0] + LeafItems(p.1)
  {
    match l
    case EmptyLeaf => (None, l)
    case SingleLeaf(ds, index) => (ds, SingleLeaf(ds, index + 1))
    case Listing(results, pos) =>
      if pos < |results| then (results[pos], Listing(results, pos + 1)) else (None, l)
  }

  /** A component has a next result exactly when it has results left. */
  lemma HasNextIffItems<T>(l: Leaf<T>)
    ensures LeafHasNext(l) <==> |LeafItems(l)| > 0
  {
  }

  /**
   * The loop of `cc_has_next`: from component `s`, close and pass every
   * component without a next result; stop at the first one with one.
   */
  function Advance<T>(parts: seq<Leaf<T>>, s: nat, closed: seq<nat>): (r: (nat, seq<nat>))
    ensures s <= r.0 && (s <= |parts| ==> r.0 <= |parts|)
    ensures r.1 == closed + Range(s, r.0)
    ensures r.0 < |parts| ==> LeafHasNext(parts[r.0])
    ensures Flat(parts, r.0) == Flat(parts, s)
    decreases |parts| - s
  {
    if s >= |parts| || LeafHasNext(parts[s]) then (s, closed)
    else
      HasNextIffItems(parts[s]);
      var r := Advance(parts, s + 1, closed + [s]);
      assert closed + [s] + Range(s + 1, r.0) == closed + Range(s, r.0);
      r
  }

  /** `has_next`: a concatenation also moves past (and closes) exhausted components. */
  function HasNext<T>(it: Iter<T>): (p: (bool, Iter<T>))
    ensures Items(p.1) == Items(it)
    ensures p.0 <==> |Items(it)| > 0
    ensures p.0 && p.1.Concat? ==> p.1.state < |p.1.parts| && LeafHasNext(p.1.parts[p.1.state])
    ensures p.1.Concat? <==> it.Concat?
  {
    match it
    case Basic(l) =>
      HasNextIffItems(l);
      (LeafHasNext(l), it)
    case Concat(parts, s, index, closed) =>
      var (s2, closed2) := Advance(parts, s, closed);
      if s2 < |parts| then HasNextIffItems(parts[s2]); (true, Concat(parts, s2, index, closed2))
      else (false, Concat(parts, s2, index, closed2))
  }

  /** Updating a component before `s` does not change what components `s ..` yield. */
  lemma {:induction false} FlatFrame<T>(parts: seq<Leaf<T>>, j: nat, l: Leaf<T>, s: nat)
    requires j < s && j < |parts|
    ensures Flat(parts[j := l], s) == Flat(parts, s)
    decreases |parts| - s
  {
    if s < |parts| {
      FlatFrame(parts, j, l, s + 1);
    }
  }

  /**
   * `next`. `cc_next` reads the component at `state_int` without a bound
   * check, so it needs one to be there; it counts only non-NULL results.
   */
  function Next<T>(it: Iter<T>): (p: (Option<T>, Iter<T>))
    requires it.Concat? ==> it.state < |it.parts|
    ensures it.Basic? ==> p == (LeafNext(it.leaf).0, Basic(LeafNext(it.leaf).1))
    ensures it.Concat? ==> p.1.Concat? && p.1.state == it.state && p.1.closed == it.closed
                           && p.1.parts == it.parts[it.state := LeafNext(it.parts[it.state]).1]
                           && p.0 == LeafNext(it.parts[it.state]).0
                           && p.1.index == it.index + (if p.0.Some? then 1 else 0)
  {
    match it
    case Basic(l) =>
      var (x, l2) := LeafNext(l);
      (x, Basic(l2))
    case Concat(parts, s, index, closed) =>
      var (x, l2) := LeafNext(parts[s]);
      (x, Concat(parts[s := l2], s, if x.Some? then index + 1 else index, closed))
  }

  /** A `next` after a successful `has_next` consumes exactly the first item. */
  lemma NextConsumes<T>(it: Iter<T>)
    requires it.Concat? ==> it.state < |it.parts|
    requires it.Basic? ==> LeafHasNext(it.leaf)
    requires it.Concat? ==> LeafHasNext(it.parts[it.state])
    ensures Items(it) == [Next(it).0] + Items(Next(it).1)
  {
    if it.Concat? {
      var s := it.state;
      var (x, l2) := LeafNext(it.parts[s]);
      var parts2 := it.parts[s := l2];
      var rest := Flat(it.parts, s + 1);
      FlatFrame(it.parts, s, l2, s + 1);
      assert Items(it) == LeafItems(it.parts[s]) + rest;
      assert Items(Next(it).1) == LeafItems(l2) + rest by {
        assert Next(it).1.parts == parts2 && parts2[s] == l2;
      }
      AppendAssoc([x], LeafItems(l2), rest);
    }
  }

  /** Run an iterator to the end: every result `next` returns, and the final state. */
  function Run<T>(it: Iter<T>): (r: (seq<Option<T>>, Iter<T>))
    decreases |Items(it)|
  {
    var (more, it1) := HasNext(it);
    if !more then ([], it1)
    else
      NextConsumes(it1);
      var (x, it2) := Next(it1);
      var (rest, last) := Run(it2);
      ([x] + rest, last)
  }

  /** One step of `Run`. */
  lemma RunStep<T>(it: Iter<T>)
    ensures !HasNext(it).0 ==> Run(it) == ([], HasNext(it).1)
    ensures HasNext(it).0 ==>
              var n := Next(HasNext(it).1);
              Run(it) == ([n.0] + Run(n.1).0, Run(n.1).1)
  {
  }

  lemma RangeJoin(a: nat, b: nat, c: nat)
    requires a <= b <= c
    ensures Range(a, b) + Range(b, c) == Range(a, c)
  {
  }

  lemma AppendAssoc<T>(a: seq<T>, b: seq<T>, c: seq<T>)
    ensures (a + b) + c == a + (b + c)
  {
  }

  lemma CountSomeCons<T>(x: Option<T>, rest: seq<Option<T>>)
    ensures CountSome([x] + rest) == (if x.Some? then 1 else 0) + CountSome(rest)
  {
    assert ([x] + rest)[1..] == rest;
  }

  /** An iterator yields exactly its items, NULLs included. */
  lemma {:induction false} RunYieldsItems<T>(it: Iter<T>)
    ensures Run(it).0 == Items(it)
    decreases |Items(it)|
  {
    RunStep(it);
    var h := HasNext(it);
    if h.0 {
      NextConsumes(h.1);
      RunYieldsItems(Next(h.1).1);
    }
  }

  /** `iterator_empty`. */
  function Empty<T>(): Iter<T>
  {
    Basic(EmptyLeaf)
  }

  /** `iterator_single_value`. */
  function Single<T>(value: Option<T>): Iter<T>
  {
    Basic(SingleLeaf(value, 0))
  }

  /** `iterator_concat`: the components in order, starting on the first. */
  function ConcatOf<T>(parts: seq<Leaf<T>>): (it: Iter<T>)
    ensures Items(it) == Flat(parts, 0)
  {
    Concat(parts, 0, 0, [])
  }

  /** `iterator_concat2`. */
  function Concat2<T>(left: Leaf<T>, right: Leaf<T>): Iter<T>
  {
    ConcatOf([left, right])
  }

  /** `iterator_concat3`. */
  function Concat3<T>(a: Leaf<T>, b: Leaf<T>, c: Leaf<T>): Iter<T>
  {
    ConcatOf([a, b, c])
  }

  /** The empty iterator never reports a next result. */
  lemma EmptyYieldsNothing<T>()
    ensures !HasNext(Empty<T>()).0
    ensures Run(Empty<T>()).0 == []
  {
  }

  /** The single-value iterator yields its value once. */
  lemma SingleYieldsValue<T>(value: Option<T>)
    ensures Run(Single(value)).0 == [value]
  {
    RunYieldsItems(Single(value));
  }

  /** Run from component `s` on: the components' results, in order. */
  lemma {:induction false} RunConcat<T>(parts: seq<Leaf<T>>, s: nat, index: nat, closed: seq<nat>)
    requires s <= |parts|
    ensures Run(Concat(parts, s, index, closed)).0 == Flat(parts, s)
    decreases |Flat(parts, s)|
  {
    if Advance(parts, s, closed).0 < |parts| {
      var next := ConcatStep(parts, s, index, closed);
      RunConcat(next.parts, next.state, next.index, next.closed);
    } else {
      ConcatEnd(parts, s, index, closed);
    }
  }

  /** Run from component `s` on: every component from `s` on is closed, once each, in order. */
  lemma {:induction false} RunConcatCloses<T>(parts: seq<Leaf<T>>, s: nat, index: nat, closed: seq<nat>)
    requires s <= |parts|
    ensures Run(Concat(parts, s, index, closed)).1.Concat?
    ensures Run(Concat(parts, s, index, closed)).1.closed == closed + Range(s, |parts|)
    decreases |Flat(parts, s)|
  {
    if Advance(parts, s, closed).0 < |parts| {
      var next := ConcatStep(parts, s, index, closed);
      RunConcatCloses(next.parts, next.state, next.index, next.closed);
      RangeJoin(s, next.state, |parts|);
      AppendAssoc(closed, Range(s, next.state), Range(next.state, |parts|));
    } else {
      ConcatEnd(parts, s, index, closed);
    }
  }

  /** Run from component `s` on: `index` grows by the number of non-NULL results. */
  lemma {:induction false} RunConcatIndex<T>(parts: seq<Leaf<T>>, s: nat, index: nat, closed: seq<nat>)
    requires s <= |parts|
    ensures Run(Concat(parts, s, index, closed)).1.Concat?
    ensures Run(Concat(parts, s, index, closed)).1.index == index + CountSome(Flat(parts, s))
    decreases |Flat(parts, s)|
  {
    if Advance(parts, s, closed).0 < |parts| {
      var next := ConcatStep(parts, s, index, closed);
      RunConcatIndex(next.parts, next.state, next.index, next.closed);
      var x := LeafNext(parts[next.state]).0;
      CountSomeCons(x, Flat(next.parts, next.state));
    } else {
      ConcatEnd(parts, s, index, closed);
    }
  }

  /**
   * One `has_next`/`next` step of a concatenation that has a result left:
   * the state after it, the result it returns first, and how the rest relates.
   */
  lemma ConcatStep<T>(parts: seq<Leaf<T>>, s: nat, index: nat, closed: seq<nat>) returns (next: Iter<T>)
    requires s <= |parts| && Advance(parts, s, closed).0 < |parts|
    ensures next.Concat? && next.state == Advance(parts, s, closed).0 && s <= next.state < |parts|
    ensures |next.parts| == |parts|
    ensures next.closed == closed + Range(s, next.state)
    ensures var x := LeafNext(parts[next.state]).0;
      && Run(Concat(parts, s, index, closed)) == ([x] + Run(next).0, Run(next).1)
      && next == Concat(next.parts, next.state, next.index, next.closed)
      && next.index == index + (if x.Some? then 1 else 0)
      && Flat(parts, s) == [x] + Flat(next.parts, next.state)
  {
    var it := Concat(parts, s, index, closed);
    var a := Advance(parts, s, closed);
    var it1 := Concat(parts, a.0, index, a.1);
    assert HasNext(it) == (true, it1);
    RunStep(it);
    NextConsumes(it1);
    next := Next(it1).1;
  }

  /** A concatenation with no result left stops after closing the rest. */
  lemma ConcatEnd<T>(parts: seq<Leaf<T>>, s: nat, index: nat, closed: seq<nat>)
    requires s <= |parts| && Advance(parts, s, closed).0 >= |parts|
    ensures Run(Concat(parts, s, index, closed)) == ([], Concat(parts, |parts|, index, closed + Range(s, |parts|)))
    ensures Flat(parts, s) == []
  {
    var it := Concat(parts, s, index, closed);
    RunStep(it);
  }

  lemma FlatThree<T>(p: seq<Leaf<T>>)
    requires |p| == 3
    ensures Flat(p, 0) == LeafItems(p[0]) + LeafItems(p[1]) + LeafItems(p[2])
  {
    assert Flat(p, 2) == LeafItems(p[2]) + Flat(p, 3);
    assert Flat(p, 1) == LeafItems(p[1]) + Flat(p, 2);
  }
}
