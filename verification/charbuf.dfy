/**
 * The growable character buffer (charbuf.c) used to build printed text.
 * `mem` is the allocated block, so its size is the buffer's `capacity`; the
 * text is the first `length` characters and a NUL always follows it.
 *
 * Bytes that `calloc` zeroes or `realloc` adds are modelled as NUL: no
 * operation reads them before writing them.
 */
module CharBuf {

  datatype Buf = Buf(mem: seq<char>, length: nat)

  /** The text fits with its terminator, and the terminator is in place. */
  predicate Valid(b: Buf)
  {
    b.length < |b.mem| && b.mem[b.length] == '\0'
  }

  /** The text held, without its terminator. */
  function Contents(b: Buf): (s: seq<char>)
    requires Valid(b)
    ensures |s| == b.length
  {
    b.mem[..b.length]
  }

  function Pow2(k: nat): (p: nat)
    ensures p >= 1
  {
    if k == 0 then 1 else 2 * Pow2(k - 1)
  }

  lemma DoubleStep(c: nat, k: nat)
    ensures c * Pow2(k + 1) == 2 * (c * Pow2(k))
  {
    assert Pow2(k + 1) == 2 * Pow2(k);
  }

  /** `cb_init`: an empty text in a block of `capacity` bytes (writing the first byte needs one). */
  function Init(capacity: nat): (b: Buf)
    requires capacity > 0
    ensures Valid(b) && Contents(b) == [] && |b.mem| == capacity
  {
    Buf(seq(capacity, _ => '\0'), 0)
  }

  /**
   * `cb_expand_to_fit`: double the capacity until it is at least `minsize`,
   * reallocating only when it changed. A zero capacity would double for
   * ever, so the buffer must have one byte.
   */
  method ExpandToFit(b: Buf, minsize: nat) returns (r: Buf)
    requires |b.mem| > 0
    ensures |r.mem| >= minsize && |r.mem| >= |b.mem| && r.length == b.length
    ensures r.mem[..|b.mem|] == b.mem
    ensures |b.mem| >= minsize ==> r == b
    ensures |b.mem| < minsize ==> |r.mem| < 2 * minsize
    ensures exists k: nat :: |r.mem| == |b.mem| * Pow2(k)
  {
    var capacity := |b.mem|;
    ghost var k: nat := 0;
    while capacity < minsize
      invariant capacity == |b.mem| * Pow2(k) && capacity >= |b.mem|
      invariant capacity == |b.mem| || capacity < 2 * minsize
      decreases minsize - capacity
    {
      DoubleStep(|b.mem|, k);
      capacity := capacity * 2;
      k := k + 1;
    }
    r := b;
    if capacity != |b.mem| {
      r := Buf(b.mem + seq(capacity - |b.mem|, _ => '\0'), b.length);
    }
    assert |r.mem| == |b.mem| * Pow2(k);
  }

  /** `cb_append`: make room for one more character and its terminator, then add it. */
  method Append(b: Buf, c: char) returns (r: Buf)
    requires Valid(b)
    ensures Valid(r) && Contents(r) == Contents(b) + [c]
    ensures |r.mem| >= |b.mem|
  {
    var e := ExpandToFit(b, b.length + 2);
    var mem := e.mem[e.length := c][e.length + 1 := '\0'];
    r := Buf(mem, e.length + 1);
    assert e.mem[..b.length] == b.mem[..b.length];
    assert Contents(r) == mem[..b.length] + [c];
  }

  /** `cb_concat`: make room for the text `s` of a C string and its terminator, then copy it. */
  method Concat(b: Buf, s: seq<char>) returns (r: Buf)
    requires Valid(b) && '\0' !in s
    ensures Valid(r) && Contents(r) == Contents(b) + s
    ensures |r.mem| >= |b.mem|
  {
    var e := ExpandToFit(b, b.length + |s| + 1);
    var n := b.length;
    var mem := e.mem[..n] + s + ['\0'] + e.mem[n + |s| + 1..];
    r := Buf(mem, n + |s|);
    assert e.mem[..n] == b.mem[..n];
    assert mem[..n + |s|] == b.mem[..n] + s;
  }

  /** `cb_trim`: shrink the block to exactly the text and its terminator. */
  function Trim(b: Buf): (r: Buf)
    requires Valid(b)
    ensures Valid(r) && Contents(r) == Contents(b) && |r.mem| == b.length + 1
  {
    Buf(b.mem[..b.length + 1], b.length)
  }

  /** `cb_clear`: the empty text, keeping the block. */
  function Clear(b: Buf): (r: Buf)
    requires |b.mem| > 0
    ensures Valid(r) && Contents(r) == [] && |r.mem| == |b.mem|
  {
    Buf(b.mem[0 := '\0'], 0)
  }
}
