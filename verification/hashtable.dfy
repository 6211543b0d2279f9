/**
 * The generic hash table of hashtable.c: open addressing with quadratic
 * probing over a prime-sized slot array, gravestones for removed entries and
 * growth to the next size in a table of primes once more than half of the
 * slots are full.
 *
 * The C table stores raw key and value bytes behind a one-byte mark; here a
 * slot is a datatype, the caller's `hash` function is a parameter and the
 * caller's `equal` function is Dafny equality on keys. A removed slot keeps
 * its key and value (the C code only rewrites the mark), and probing for
 * retrieval still compares that stale key.
 */
module HashTable {
  import opened Values

  datatype Slot<K, V> = Empty | Full(key: K, value: V) | Grave(key: K, value: V)

  datatype Table<K, V> = Table(length: nat, slots: seq<Slot<K, V>>)

  /** `HASH_TABLE_INITIAL_SIZE`. */
  const InitialSize: nat := 31

  /** `ht_primes`: the sizes a table grows through. */
  const Primes: seq<nat> := [
    31, 61, 127, 257, 509, 1021, 2053, 4093, 8191, 16381, 32771, 65537,
    131071, 262147, 524287, 1048573, 2097143, 4194301, 8388617, 16777213,
    33554467, 67108859, 134217757, 268435459, 536870909, 1073741827,
    2147483647, 4294967291]

  /** The size `ht_next_size` can still grow from without reading past the primes. */
  const MaxGrowable: nat := 2147483647

  const U32: nat := 0x1_0000_0000

  predicate Sorted(a: seq<nat>)
  {
    forall i, j :: 0 <= i < j < |a| ==> a[i] <= a[j]
  }

  lemma PrimesIncrease()
    ensures forall i, j :: 0 <= i < j < |Primes| ==> Primes[i] < Primes[j]
  {
    assert forall i :: 0 <= i < |Primes| - 1 ==> Primes[i] < Primes[i + 1];
    forall i, j | 0 <= i < j < |Primes| ensures Primes[i] < Primes[j] {
      StepsIncrease(Primes, i, j);
    }
  }

  lemma {:induction false} StepsIncrease(a: seq<nat>, i: nat, j: nat)
    requires forall k :: 0 <= k < |a| - 1 ==> a[k] < a[k + 1]
    requires i < j < |a|
    ensures a[i] < a[j]
    decreases j - i
  {
    if i + 1 < j {
      StepsIncrease(a, i + 1, j);
    }
  }

  /** The least index whose entry is at least `value`, or `|a|`: what a binary search on a sorted array finds. */
  function LowerBound(a: seq<nat>, value: nat): (r: nat)
    ensures r <= |a|
    ensures forall i :: 0 <= i < r ==> a[i] < value
    ensures r < |a| ==> value <= a[r]
  {
    if |a| == 0 || value <= a[0] then 0 else 1 + LowerBound(a[1..], value)
  }

  /**
   * `binary_search`: halves `[lo, hi)` until it is empty. On any array the
   * result sits between an entry below `value` and an entry at least
   * `value`; on a sorted array it is the lower bound.
   */
  method BinarySearch(a: seq<nat>, value: nat) returns (lo: nat)
    ensures lo <= |a|
    ensures lo > 0 ==> a[lo - 1] < value
    ensures lo < |a| ==> value <= a[lo]
    ensures Sorted(a) ==> lo == LowerBound(a, value)
  {
    lo := 0;
    var hi := |a|;
    while lo < hi
      invariant 0 <= lo <= hi <= |a|
      invariant lo > 0 ==> a[lo - 1] < value
      invariant hi < |a| ==> value <= a[hi]
    {
      var mid := (lo + hi) / 2;
      if value <= a[mid] {
        hi := mid;
      } else {
        lo := mid + 1;
      }
    }
    if Sorted(a) {
      LowerBoundUnique(a, value, lo);
    }
  }

  /** On a sorted array only the lower bound sits between an entry below `value` and one at least `value`. */
  lemma LowerBoundUnique(a: seq<nat>, value: nat, lo: nat)
    requires Sorted(a) && lo <= |a|
    requires lo > 0 ==> a[lo - 1] < value
    requires lo < |a| ==> value <= a[lo]
    ensures lo == LowerBound(a, value)
  {
  }

  /**
   * `ht_next_size`: the prime after the lower bound of `current`. The C code
   * reads past the end of `ht_primes` for a size above `MaxGrowable`.
   */
  function NextSize(current: nat): (r: nat)
    requires current <= MaxGrowable
    ensures r in Primes && r > current
    ensures forall k :: 0 <= k < |Primes| - 1 && Primes[k] == current ==> r == Primes[k + 1]
  {
    GrowableIndex(current);
    Primes[LowerBound(Primes, current) + 1]
  }

  /** A growable size has a successor in the primes, and a prime's lower bound is its own index. */
  lemma GrowableIndex(current: nat)
    requires current <= MaxGrowable
    ensures var i := LowerBound(Primes, current);
      && i < |Primes| - 1 && current <= Primes[i] < Primes[i + 1]
      && forall k :: 0 <= k < |Primes| && Primes[k] == current ==> k == i
  {
    PrimesIncrease();
    SuccessorIndex(Primes, current);
  }

  /** In a strictly increasing array, a value up to the last-but-one entry has a successor after its lower bound. */
  lemma SuccessorIndex(a: seq<nat>, current: nat)
    requires forall i, j :: 0 <= i < j < |a| ==> a[i] < a[j]
    requires |a| >= 2 && current <= a[|a| - 2]
    ensures var i := LowerBound(a, current);
      && i < |a| - 1 && current <= a[i] < a[i + 1]
      && forall k :: 0 <= k < |a| && a[k] == current ==> k == i
  {
    var i := LowerBound(a, current);
    forall k | 0 <= k < |a| && a[k] == current ensures k == i {
      LowerBoundUnique(a, current, k);
    }
  }

  /** Slot `k` of the probe sequence for hash `h` in `n` slots: `(h + k^2) mod n`. */
  function Probe(h: nat, k: nat, n: nat): (i: nat)
    requires n > 0
    ensures i < n
  {
    (h + k * k) % n
  }

  /** The C loop reaches the next probe by adding the odd increment `2k + 1`. */
  lemma ProbeStep(h: nat, k: nat, n: nat)
    requires n > 0
    ensures (Probe(h, k, n) + 2 * k + 1) % n == Probe(h, k + 1, n)
  {
    var a := h + k * k;
    assert (k + 1) * (k + 1) == k * k + 2 * k + 1;
    ModAddLeft(a, 2 * k + 1, n);
  }

  /** The probe sequence repeats with period `n`. */
  lemma ProbePeriodic(h: nat, k: nat, n: nat)
    requires n > 0
    ensures Probe(h, k + n, n) == Probe(h, k, n)
  {
    assert (k + n) * (k + n) == k * k + (2 * k + n) * n;
    ModShift(h + k * k, 2 * k + n, n);
  }

  /** Probing for retrieval (`ht_find_retrieve`) or for insertion (`ht_find_insert`). */
  datatype Mode = Retrieving | Inserting

  /**
   * Whether a probe for `key` ends at slot `s`: retrieval ends at an empty
   * slot or at any slot, full or grave, holding `key`; insertion ends at any
   * slot that is not full or that holds `key`.
   */
  predicate Stops<K(==), V>(mode: Mode, s: Slot<K, V>, key: K)
  {
    match mode
    case Retrieving => s.Empty? || s.key == key
    case Inserting => !s.Full? || s.key == key
  }

  /**
   * The slot a probe for `key` ends at, trying probes `k`, `k + 1`, ...,
   * `n - 1`. `None` means no probe ends: by `SearchNeverEnds` the C loop
   * then runs for ever.
   */
  function Search<K(==), V>(slots: seq<Slot<K, V>>, key: K, h: nat, mode: Mode, k: nat): (r: Option<nat>)
    requires |slots| > 0
    ensures r.Some? ==> r.value < |slots| && Stops(mode, slots[r.value], key)
    decreases |slots| - k
  {
    if k >= |slots| then None
    else
      var i := Probe(h, k, |slots|);
      if Stops(mode, slots[i], key) then Some(i) else Search(slots, key, h, mode, k + 1)
  }

  /** The search from probe `k` finds the first probe at or after `k` that ends. */
  lemma {:induction false} SearchFirst<K, V>(slots: seq<Slot<K, V>>, key: K, h: nat, mode: Mode, k: nat)
    requires |slots| > 0
    ensures var r := Search(slots, key, h, mode, k);
      r.None? <==> forall j :: k <= j < |slots| ==> !Stops(mode, slots[Probe(h, j, |slots|)], key)
    decreases |slots| - k
  {
    if k < |slots| && !Stops(mode, slots[Probe(h, k, |slots|)], key) {
      SearchFirst(slots, key, h, mode, k + 1);
    }
  }

  /** When the search from the first probe finds nothing, no probe of the endless C loop ends either. */
  lemma SearchNeverEnds<K, V>(slots: seq<Slot<K, V>>, key: K, h: nat, mode: Mode, k: nat)
    requires |slots| > 0 && Search(slots, key, h, mode, 0).None?
    ensures !Stops(mode, slots[Probe(h, k, |slots|)], key)
  {
    SearchFirst(slots, key, h, mode, 0);
    ProbeMod(h, k, |slots|);
  }

  lemma ProbeMod(h: nat, k: nat, n: nat)
    requires n > 0
    ensures Probe(h, k, n) == Probe(h, k % n, n)
  {
    var a, r := k / n, k % n;
    assert k == a * n + r;
    assert k * k == r * r + (2 * a * r + a * a * n) * n;
    ModShift(h + r * r, 2 * a * r + a * a * n, n);
  }

  /**
   * The probing loop of `ht_find_retrieve` and `ht_find_insert`, with the
   * index advanced by odd increments as in the C code. The C loop has no
   * bound; this one gives up after `n` probes, which by `SearchNeverEnds`
   * is exactly when the C loop would never end.
   */
  method FindIndex<K(==), V>(slots: seq<Slot<K, V>>, key: K, h: nat, mode: Mode) returns (r: Option<nat>)
    requires |slots| > 0
    ensures r == Search(slots, key, h, mode, 0)
  {
    var n := |slots|;
    var index := h % n;
    var j := 1;
    var steps := 0;
    while steps < n && !Stops(mode, slots[index], key)
      invariant 0 <= steps <= n
      invariant index == Probe(h, steps, n)
      invariant j == 2 * steps + 1
      invariant Search(slots, key, h, mode, steps) == Search(slots, key, h, mode, 0)
      decreases n - steps
    {
      ProbeStep(h, steps, n);
      index := (index + j) % n;
      j := j + 2;
      steps := steps + 1;
    }
    if steps < n {
      r := Some(index);
    } else {
      r := None;
    }
  }

  /** Number of full slots. */
  function FullCount<K, V>(slots: seq<Slot<K, V>>): (c: nat)
    ensures c <= |slots|
  {
    if |slots| == 0 then 0 else (if slots[0].Full? then 1 else 0) + FullCount(slots[1..])
  }

  /** Rewriting one slot changes the count of full slots by the change at that slot. */
  lemma {:induction false} FullCountUpdate<K, V>(slots: seq<Slot<K, V>>, p: nat, s: Slot<K, V>)
    requires p < |slots|
    ensures FullCount(slots[p := s]) + (if slots[p].Full? then 1 else 0)
         == FullCount(slots) + (if s.Full? then 1 else 0)
  {
    if p > 0 {
      assert slots[p := s][1..] == slots[1..][p - 1 := s];
      FullCountUpdate(slots[1..], p - 1, s);
    } else {
      assert slots[p := s][1..] == slots[1..];
    }
  }

  /**
   * The table invariant: the length counts the full slots, and a retrieval
   * probe for the key of any full slot ends at that slot. The second part
   * implies that no key is stored twice (`KeysDistinct`).
   */
  predicate Valid<K(==), V>(t: Table<K, V>, hash: K -> nat)
  {
    && |t.slots| > 0
    && t.length == FullCount(t.slots)
    && forall i :: 0 <= i < |t.slots| && t.slots[i].Full? ==>
         Search(t.slots, t.slots[i].key, hash(t.slots[i].key), Retrieving, 0) == Some(i)
  }

  lemma KeysDistinct<K, V>(t: Table<K, V>, hash: K -> nat, i: nat, j: nat)
    requires Valid(t, hash)
    requires i < |t.slots| && j < |t.slots| && t.slots[i].Full? && t.slots[j].Full?
    requires t.slots[i].key == t.slots[j].key
    ensures i == j
  {
  }

  /** Two different full slots of a valid table hold different keys. */
  lemma KeysDiffer<K, V>(t: Table<K, V>, hash: K -> nat, i: nat, j: nat)
    requires Valid(t, hash)
    requires i < |t.slots| && j < |t.slots| && t.slots[i].Full? && t.slots[j].Full? && i != j
    ensures t.slots[i].key != t.slots[j].key
  {
  }

  /** `ht_init`: `InitialSize` empty slots. */
  function Init<K, V>(): (t: Table<K, V>)
    ensures |t.slots| == InitialSize && t.length == 0
    ensures forall i :: 0 <= i < |t.slots| ==> t.slots[i].Empty?
  {
    Table(0, seq(InitialSize, _ => Empty))
  }

  lemma {:induction false} NoFullCount<K, V>(slots: seq<Slot<K, V>>)
    requires forall i :: 0 <= i < |slots| ==> !slots[i].Full?
    ensures FullCount(slots) == 0
  {
    if |slots| > 0 {
      NoFullCount(slots[1..]);
    }
  }

  /** A freshly initialised table satisfies the invariant and holds nothing. */
  lemma InitValid<K, V>(hash: K -> nat, key: K)
    ensures Valid(Init<K, V>(), hash)
    ensures Get(Init<K, V>(), hash, key).None?
  {
    NoFullCount(Init<K, V>().slots);
  }

  /**
   * `ht_get` (and `ht_contains`, which tests it for NULL): the value in the
   * full slot where the retrieval probe ends. A probe that never ends is
   * treated as a miss here; see `GetAsWritten`.
   */
  function Get<K(==), V>(t: Table<K, V>, hash: K -> nat, key: K): (r: Option<V>)
    requires |t.slots| > 0
    ensures r.Some? ==> Full(key, r.value) in t.slots
  {
    match Search(t.slots, key, hash(key), Retrieving, 0)
    case Some(i) => if t.slots[i].Full? then Some(t.slots[i].value) else None
    case None => None
  }

  /** On a valid table `Get` finds exactly the full slots. */
  lemma GetIffStored<K, V>(t: Table<K, V>, hash: K -> nat, key: K, v: V)
    requires Valid(t, hash)
    ensures Get(t, hash, key) == Some(v) <==> Full(key, v) in t.slots
  {
    if Full(key, v) in t.slots {
      var i :| 0 <= i < |t.slots| && t.slots[i] == Full(key, v);
      assert Search(t.slots, key, hash(key), Retrieving, 0) == Some(i);
    }
  }

  /** The result of `ht_get` as written: a probe that never ends hangs. */
  datatype Lookup<V> = Found(value: V) | Missing | Hangs

  function GetAsWritten<K(==), V>(t: Table<K, V>, hash: K -> nat, key: K): (r: Lookup<V>)
    requires |t.slots| > 0
    ensures r.Found? ==> Get(t, hash, key) == Some(r.value)
    ensures r.Missing? ==> Get(t, hash, key).None?
    ensures r.Hangs? <==> Search(t.slots, key, hash(key), Retrieving, 0).None?
  {
    match Search(t.slots, key, hash(key), Retrieving, 0)
    case Some(i) => if t.slots[i].Full? then Found(t.slots[i].value) else Missing
    case None => Hangs
  }

  /** Some full slot holds `key`. */
  predicate Stored<K(==), V>(t: Table<K, V>, key: K)
  {
    exists i :: 0 <= i < |t.slots| && t.slots[i].Full? && t.slots[i].key == key
  }

  /** `ht_contains`: whether `ht_get` finds a value; `None` when its probe never ends. */
  function Contains<K(==), V>(t: Table<K, V>, hash: K -> nat, key: K): (r: Option<bool>)
    requires |t.slots| > 0
    ensures r.None? <==> GetAsWritten(t, hash, key).Hangs?
    ensures r == Some(true) <==> GetAsWritten(t, hash, key).Found?
  {
    match GetAsWritten(t, hash, key)
    case Found(_) => Some(true)
    case Missing => Some(false)
    case Hangs => None
  }

  /** On a valid table, a `ht_contains` that returns answers whether some full slot holds the key. */
  lemma ContainsIffStored<K, V>(t: Table<K, V>, hash: K -> nat, key: K)
    requires Valid(t, hash) && Contains(t, hash, key).Some?
    ensures Contains(t, hash, key).value <==> Stored(t, key)
  {
    if Get(t, hash, key).Some? {
      GetIffStored(t, hash, key, Get(t, hash, key).value);
    } else {
      forall i | 0 <= i < |t.slots| && t.slots[i].Full? ensures t.slots[i].key != key {
        GetIffStored(t, hash, key, t.slots[i].value);
      }
    }
  }

  /**
   * Rewriting slot `p` keeps the end of a search that does not end at `p`,
   * as long as a slot the search passed over is still passed over, and keeps
   * a search that ends at `p` if `p` still ends it.
   */
  lemma {:induction false} SearchFrame<K, V>(s1: seq<Slot<K, V>>, s2: seq<Slot<K, V>>, p: nat,
                                                 key: K, h: nat, mode: Mode, k: nat)
    requires |s1| == |s2| > 0 && p < |s1|
    requires forall q :: 0 <= q < |s1| && q != p ==> s2[q] == s1[q]
    requires Search(s1, key, h, mode, k).Some?
    requires Search(s1, key, h, mode, k).value == p ==> Stops(mode, s2[p], key)
    requires Search(s1, key, h, mode, k).value != p && !Stops(mode, s1[p], key) ==> !Stops(mode, s2[p], key)
    ensures Search(s2, key, h, mode, k) == Search(s1, key, h, mode, k)
    decreases |s1| - k
  {
    var q := Probe(h, k, |s1|);
    if !Stops(mode, s1[q], key) {
      SearchFrame(s1, s2, p, key, h, mode, k + 1);
    }
  }

  /** Filling the slot an insertion probe ends at makes a retrieval probe for the same key end there. */
  lemma {:induction false} InsertThenFound<K, V>(s: seq<Slot<K, V>>, key: K, v: V, h: nat, k: nat)
    requires |s| > 0 && Search(s, key, h, Inserting, k).Some?
    ensures var p := Search(s, key, h, Inserting, k).value;
      Search(s[p := Full(key, v)], key, h, Retrieving, k) == Some(p)
    decreases |s| - k
  {
    var q := Probe(h, k, |s|);
    if !Stops(Inserting, s[q], key) {
      InsertThenFound(s, key, v, h, k + 1);
    }
  }

  /** A retrieval probe that ends at a slot that is not full lets the insertion probe end too. */
  lemma {:induction false} RetrievalEndsInsertion<K, V>(slots: seq<Slot<K, V>>, key: K, h: nat, k: nat)
    requires |slots| > 0
    requires var f := Search(slots, key, h, Retrieving, k); f.Some? && !slots[f.value].Full?
    ensures Search(slots, key, h, Inserting, k).Some?
    decreases |slots| - k
  {
    var q := Probe(h, k, |slots|);
    if !Stops(Retrieving, slots[q], key) {
      RetrievalEndsInsertion(slots, key, h, k + 1);
    }
  }

  /**
   * The part of `ht_insert` after the load check: overwrite the value of a
   * stored key, or fill the first slot of the insertion probe that is not
   * full. `None` means the C code never returns: the retrieval probe it
   * starts with never ends.
   */
  function Put<K(==), V>(t: Table<K, V>, hash: K -> nat, key: K, value: V): (r: Option<Table<K, V>>)
    requires |t.slots| > 0
    ensures r.Some? ==> |r.value.slots| == |t.slots|
    ensures r.None? <==> Search(t.slots, key, hash(key), Retrieving, 0).None?
  {
    var h := hash(key);
    match Search(t.slots, key, h, Retrieving, 0)
    case None => None
    case Some(i) =>
      if t.slots[i].Full? then Some(Table(t.length, t.slots[i := Full(key, value)]))
      else
        RetrievalEndsInsertion(t.slots, key, h, 0);
        var p := Search(t.slots, key, h, Inserting, 0).value;
        Some(Table(t.length + 1, t.slots[p := Full(key, value)]))
  }

  /** Rewriting slot `p` of a valid table keeps every other key's retrieval, provided `p` passes over other keys as before. */
  lemma OthersKept<K, V>(t: Table<K, V>, hash: K -> nat, s2: seq<Slot<K, V>>, p: nat, key: K, j: nat)
    requires Valid(t, hash) && |s2| == |t.slots| && p < |s2| && j < |s2|
    requires forall q :: 0 <= q < |s2| && q != p ==> s2[q] == t.slots[q]
    requires j != p && t.slots[j].Full? && t.slots[j].key != key
    requires s2[p].Full? || s2[p].Grave?
    requires s2[p].key == key
    requires t.slots[p].Full? ==> t.slots[p].key == key
    ensures Search(s2, t.slots[j].key, hash(t.slots[j].key), Retrieving, 0) == Some(j)
  {
    var z := t.slots[j].key;
    SearchFrame(t.slots, s2, p, z, hash(z), Retrieving, 0);
  }

  /** `Put` on a valid table keeps it valid and maps `key` to `value`, leaving every other key as it was. */
  lemma PutSpec<K, V>(t: Table<K, V>, hash: K -> nat, key: K, value: V, z: K)
    requires Valid(t, hash) && Put(t, hash, key, value).Some?
    ensures var t2 := Put(t, hash, key, value).value;
      && Valid(t2, hash)
      && Get(t2, hash, z) == (if z == key then Some(value) else Get(t, hash, z))
      && t2.length == t.length + (if Stored(t, key) then 0 else 1)
  {
    var t2 := Put(t, hash, key, value).value;
    var h := hash(key);
    var found := Search(t.slots, key, h, Retrieving, 0);
    var p: nat;
    if found.Some? && t.slots[found.value].Full? {
      p := found.value;
      assert Full(key, t.slots[p].value) in t.slots;
      SearchFrame(t.slots, t2.slots, p, key, h, Retrieving, 0);
    } else {
      RetrievalEndsInsertion(t.slots, key, h, 0);
      p := Search(t.slots, key, h, Inserting, 0).value;
      InsertThenFound(t.slots, key, value, h, 0);
      forall v ensures Full(key, v) !in t.slots {
        GetIffStored(t, hash, key, v);
      }
    }
    assert t2.slots == t.slots[p := Full(key, value)];
    FullCountUpdate(t.slots, p, Full(key, value));
    forall j | 0 <= j < |t2.slots| && t2.slots[j].Full?
      ensures Search(t2.slots, t2.slots[j].key, hash(t2.slots[j].key), Retrieving, 0) == Some(j)
    {
      if j != p {
        OthersKept(t, hash, t2.slots, p, key, j);
      }
    }
    GetAfter(t, t2, hash, p, key, z);
  }

  /** The conditions under which rewriting slot `p` with an entry for `key` is a local change. */
  ghost predicate Rewrites<K, V>(t: Table<K, V>, t2: Table<K, V>, p: nat, key: K)
  {
    && |t2.slots| == |t.slots| && p < |t.slots|
    && (forall q :: 0 <= q < |t.slots| && q != p ==> t2.slots[q] == t.slots[q])
    && (t2.slots[p].Full? || t2.slots[p].Grave?) && t2.slots[p].key == key
    && (t.slots[p].Full? ==> t.slots[p].key == key)
  }

  /** After rewriting slot `p` to hold `key` (full or grave), every other key is found as before. */
  lemma GetAfter<K, V>(t: Table<K, V>, t2: Table<K, V>, hash: K -> nat, p: nat, key: K, z: K)
    requires Valid(t, hash) && Valid(t2, hash) && Rewrites(t, t2, p, key)
    requires t2.slots[p].Grave? ==> t.slots[p].Full?
    ensures z == key && t2.slots[p].Full? ==> Get(t2, hash, z) == Some(t2.slots[p].value)
    ensures z == key && t2.slots[p].Grave? ==> Get(t2, hash, z).None?
    ensures z != key ==> Get(t2, hash, z) == Get(t, hash, z)
  {
    if z == key && t2.slots[p].Full? {
      GetIffStored(t2, hash, z, t2.slots[p].value);
    } else if z == key {
      GetAfterGrave(t, t2, hash, p, key);
    } else {
      GetOther(t, t2, hash, p, key, z);
    }
  }

  lemma GetAfterGrave<K, V>(t: Table<K, V>, t2: Table<K, V>, hash: K -> nat, p: nat, key: K)
    requires Valid(t, hash) && Valid(t2, hash) && Rewrites(t, t2, p, key) && t2.slots[p].Grave?
    requires t.slots[p].Full?
    ensures Get(t2, hash, key).None?
  {
    forall i | 0 <= i < |t2.slots| && t2.slots[i].Full?
      ensures t2.slots[i].key != key
    {
      KeysDiffer(t, hash, i, p);
    }
  }

  /** A rewrite of slot `p` for `key` stores every other key's entries as before. */
  lemma StoredOther<K, V>(t: Table<K, V>, t2: Table<K, V>, p: nat, key: K, z: K, v: V)
    requires Rewrites(t, t2, p, key) && z != key
    ensures Full(z, v) in t.slots <==> Full(z, v) in t2.slots
  {
    if Full(z, v) in t.slots {
      var i :| 0 <= i < |t.slots| && t.slots[i] == Full(z, v);
      assert t2.slots[i] == Full(z, v);
    }
    if Full(z, v) in t2.slots {
      var i :| 0 <= i < |t2.slots| && t2.slots[i] == Full(z, v);
      assert t.slots[i] == Full(z, v);
    }
  }

  lemma GetOther<K, V>(t: Table<K, V>, t2: Table<K, V>, hash: K -> nat, p: nat, key: K, z: K)
    requires Valid(t, hash) && Valid(t2, hash) && Rewrites(t, t2, p, key) && z != key
    ensures Get(t2, hash, z) == Get(t, hash, z)
  {
    var a, b := Get(t, hash, z), Get(t2, hash, z);
    if a.Some? {
      StoredOther(t, t2, p, key, z, a.value);
      GetIffStored(t2, hash, z, a.value);
    }
    if b.Some? {
      StoredOther(t, t2, p, key, z, b.value);
      GetIffStored(t, hash, z, b.value);
    }
  }

  /** `ht_remove`: the status it returns and the table after it. */
  datatype Removal<K, V> = Removal(status: int, t: Table<K, V>)

  /**
   * `ht_remove`: -1 when the key is not stored, otherwise 0 with the slot
   * turned into a grave and the unsigned length decremented. `None` means
   * the retrieval probe never ends, so the C call never returns.
   */
  function Remove<K(==), V>(t: Table<K, V>, hash: K -> nat, key: K): (r: Option<Removal<K, V>>)
    requires |t.slots| > 0
    ensures r.None? <==> Search(t.slots, key, hash(key), Retrieving, 0).None?
    ensures r.Some? ==> (r.value.status == -1 || r.value.status == 0) && |r.value.t.slots| == |t.slots|
  {
    match Search(t.slots, key, hash(key), Retrieving, 0)
    case Some(i) =>
      if t.slots[i].Full? then
        Some(Removal(0, Table(if t.length == 0 then U32 - 1 else t.length - 1, t.slots[i := Grave(key, t.slots[i].value)])))
      else Some(Removal(-1, t))
    case None => None
  }

  /**
   * Removing from a valid table keeps it valid, reports -1 exactly when the
   * key was not stored, forgets the key and leaves every other key alone.
   */
  lemma RemoveSpec<K, V>(t: Table<K, V>, hash: K -> nat, key: K, z: K)
    requires Valid(t, hash)
    ensures Remove(t, hash, key).Some? ==> var r := Remove(t, hash, key).value;
      && Valid(r.t, hash)
      && (r.status == -1 <==> Get(t, hash, key).None?)
      && r.t.length == (if r.status == 0 then t.length - 1 else t.length)
      && Get(r.t, hash, z) == (if z == key then None else Get(t, hash, z))
  {
    var found := Search(t.slots, key, hash(key), Retrieving, 0);
    if found.Some? && t.slots[found.value].Full? {
      var r := Remove(t, hash, key).value;
      var p := found.value;
      var t2 := r.t;
      FullCountUpdate(t.slots, p, Grave(key, t.slots[p].value));
      assert t.length > 0;
      forall j | 0 <= j < |t2.slots| && t2.slots[j].Full?
        ensures Search(t2.slots, t2.slots[j].key, hash(t2.slots[j].key), Retrieving, 0) == Some(j)
      {
        OthersKept(t, hash, t2.slots, p, key, j);
      }
      GetAfter(t, t2, hash, p, key, z);
    }
  }

  /** The full slots' entries in slot order. */
  function Entries<K, V>(slots: seq<Slot<K, V>>): (es: seq<(K, V)>)
    ensures |es| == FullCount(slots)
  {
    if |slots| == 0 then []
    else if slots[0].Full? then [(slots[0].key, slots[0].value)] + Entries(slots[1..])
    else Entries(slots[1..])
  }

  /**
   * Step two of `ht_resize`: insert the full slots `src[from..]` in slot
   * order. The C code re-inserts through `ht_insert`, whose load check is
   * left out here.
   */
  function Reinsert<K(==), V>(t: Table<K, V>, hash: K -> nat, src: seq<Slot<K, V>>, from: nat): (r: Option<Table<K, V>>)
    requires |t.slots| > 0 && from <= |src|
    ensures r.Some? ==> |r.value.slots| == |t.slots|
    decreases |src| - from
  {
    if from == |src| then Some(t)
    else if !src[from].Full? then Reinsert(t, hash, src, from + 1)
    else match Put(t, hash, src[from].key, src[from].value)
      case Some(t2) => Reinsert(t2, hash, src, from + 1)
      case None => None
  }

  /** `ht_resize`: a table of the next size holding the old table's full slots; gravestones are dropped. */
  function Resize<K(==), V>(t: Table<K, V>, hash: K -> nat): (r: Option<Table<K, V>>)
    requires 0 < |t.slots| <= MaxGrowable
    ensures r.Some? ==> |r.value.slots| == NextSize(|t.slots|)
  {
    Reinsert(Table(0, seq(NextSize(|t.slots|), _ => Empty)), hash, t.slots, 0)
  }

  /** The table being built holds exactly the full slots of `src` before `from`. */
  ghost predicate ReinsertState<K, V>(cur: Table<K, V>, hash: K -> nat, src: Table<K, V>, from: nat)
    requires Valid(cur, hash) && Valid(src, hash) && from <= |src.slots|
  {
    && cur.length == FullCount(src.slots[..from])
    && (forall i :: 0 <= i < from && src.slots[i].Full? ==>
          Get(cur, hash, src.slots[i].key) == Some(src.slots[i].value))
    && (forall j :: 0 <= j < |cur.slots| && cur.slots[j].Full? ==> cur.slots[j] in src.slots[..from])
  }

  lemma {:induction false} FullCountPrefix<K, V>(slots: seq<Slot<K, V>>, from: nat)
    requires from < |slots|
    ensures FullCount(slots[..from + 1]) == FullCount(slots[..from]) + (if slots[from].Full? then 1 else 0)
  {
    if from > 0 {
      assert slots[..from + 1][1..] == slots[1..][..from];
      assert slots[..from][1..] == slots[1..][..from - 1];
      FullCountPrefix(slots[1..], from - 1);
    } else {
      assert slots[..1][1..] == [];
    }
  }

  /** One re-insertion step keeps `ReinsertState`. */
  lemma ReinsertStep<K, V>(cur: Table<K, V>, hash: K -> nat, src: Table<K, V>, from: nat)
    requires Valid(cur, hash) && Valid(src, hash) && from < |src.slots|
    requires ReinsertState(cur, hash, src, from)
    requires src.slots[from].Full? ==> Put(cur, hash, src.slots[from].key, src.slots[from].value).Some?
    ensures var next := if src.slots[from].Full? then Put(cur, hash, src.slots[from].key, src.slots[from].value).value else cur;
      Valid(next, hash) && ReinsertState(next, hash, src, from + 1)
  {
    var s := src.slots;
    assert s[..from + 1] == s[..from] + [s[from]];
    FullCountPrefix(s, from);
    if s[from].Full? {
      var x, w := s[from].key, s[from].value;
      var next := Put(cur, hash, x, w).value;
      assert !Stored(cur, x) by {
        forall j | 0 <= j < |cur.slots| && cur.slots[j].Full? ensures cur.slots[j].key != x {
          var i :| 0 <= i < from && s[i] == cur.slots[j];
          KeysDiffer(src, hash, i, from);
        }
      }
      PutSpec(cur, hash, x, w, x);
      forall i | 0 <= i < from + 1 && s[i].Full? ensures Get(next, hash, s[i].key) == Some(s[i].value) {
        PutSpec(cur, hash, x, w, s[i].key);
        if s[i].key == x {
          KeysDistinct(src, hash, i, from);
        }
      }
      forall j | 0 <= j < |next.slots| && next.slots[j].Full? ensures next.slots[j] in s[..from + 1] {
        var z, v := next.slots[j].key, next.slots[j].value;
        GetIffStored(next, hash, z, v);
        PutSpec(cur, hash, x, w, z);
        if z != x {
          GetIffStored(cur, hash, z, v);
          var k :| 0 <= k < |cur.slots| && cur.slots[k] == Full(z, v);
        }
      }
    }
  }

  lemma {:induction false} ReinsertSpec<K, V>(cur: Table<K, V>, hash: K -> nat, src: Table<K, V>, from: nat)
    requires Valid(cur, hash) && Valid(src, hash) && from <= |src.slots|
    requires ReinsertState(cur, hash, src, from)
    requires Reinsert(cur, hash, src.slots, from).Some?
    ensures var r := Reinsert(cur, hash, src.slots, from).value;
      Valid(r, hash) && ReinsertState(r, hash, src, |src.slots|)
    decreases |src.slots| - from
  {
    if from < |src.slots| {
      ReinsertStep(cur, hash, src, from);
      var next := if src.slots[from].Full? then Put(cur, hash, src.slots[from].key, src.slots[from].value).value else cur;
      ReinsertSpec(next, hash, src, from + 1);
    }
  }

  /** Growing a valid table keeps it valid, keeps its length and keeps every key's value. */
  lemma ResizeSpec<K, V>(t: Table<K, V>, hash: K -> nat, z: K)
    requires Valid(t, hash) && |t.slots| <= MaxGrowable && Resize(t, hash).Some?
    ensures var r := Resize(t, hash).value;
      Valid(r, hash) && r.length == t.length && Get(r, hash, z) == Get(t, hash, z)
  {
    var blank := Table(0, seq(NextSize(|t.slots|), _ => Empty));
    NoFullCount(blank.slots);
    assert t.slots[..0] == [];
    assert ReinsertState(blank, hash, t, 0);
    ReinsertSpec(blank, hash, t, 0);
    var r := Resize(t, hash).value;
    assert t.slots[..|t.slots|] == t.slots;
    if Get(t, hash, z).Some? {
      var v := Get(t, hash, z).value;
      var i :| 0 <= i < |t.slots| && t.slots[i] == Full(z, v);
    } else if Get(r, hash, z).Some? {
      GetIffStored(t, hash, z, Get(r, hash, z).value);
    }
  }

  /**
   * `ht_insert`: grow first when more than half of the slots are full
   * (`length / allocated > 0.5`, stated without floating point), then `Put`.
   */
  function Insert<K(==), V>(t: Table<K, V>, hash: K -> nat, key: K, value: V): (r: Option<Table<K, V>>)
    requires 0 < |t.slots| <= MaxGrowable
    ensures r.Some? ==> |r.value.slots| == (if 2 * t.length > |t.slots| then NextSize(|t.slots|) else |t.slots|)
  {
    if 2 * t.length > |t.slots| then
      match Resize(t, hash)
      case Some(t2) => Put(t2, hash, key, value)
      case None => None
    else Put(t, hash, key, value)
  }

  /** Inserting into a valid table keeps it valid and maps `key` to `value`, leaving every other key alone. */
  lemma InsertSpec<K, V>(t: Table<K, V>, hash: K -> nat, key: K, value: V, z: K)
    requires Valid(t, hash) && |t.slots| <= MaxGrowable && Insert(t, hash, key, value).Some?
    ensures var t2 := Insert(t, hash, key, value).value;
      && Valid(t2, hash)
      && Get(t2, hash, z) == (if z == key then Some(value) else Get(t, hash, z))
      && t2.length == t.length + (if Get(t, hash, key).Some? then 0 else 1)
  {
    var mid := if 2 * t.length > |t.slots| then Resize(t, hash).value else t;
    if 2 * t.length > |t.slots| {
      ResizeSpec(t, hash, z);
      ResizeSpec(t, hash, key);
    }
    PutSpec(mid, hash, key, value, z);
    if Get(mid, hash, key).Some? {
      GetIffStored(mid, hash, key, Get(mid, hash, key).value);
    } else {
      forall v ensures Full(key, v) !in mid.slots {
        GetIffStored(mid, hash, key, v);
      }
    }
  }

  /** `ht_next`: the first full slot at or after `pos`. */
  function NextFull<K, V>(slots: seq<Slot<K, V>>, pos: nat): (r: Option<nat>)
    ensures r.Some? ==> pos <= r.value < |slots| && slots[r.value].Full?
    ensures r.Some? ==> forall q :: pos <= q < r.value ==> !slots[q].Full?
    ensures r.None? ==> forall q :: pos <= q < |slots| ==> !slots[q].Full?
    decreases |slots| - pos
  {
    if pos >= |slots| then None
    else if slots[pos].Full? then Some(pos)
    else NextFull(slots, pos + 1)
  }

  /**
   * Draining the iterator of `ht_iter_keys` / `ht_iter_values`: while
   * `ht_has_next` (fewer than `length` items returned) call `ht_next`,
   * which resumes the slot scan at `pos`. Each step yields the entry whose
   * key or value the iterator returns.
   */
  function Drain<K, V>(t: Table<K, V>, pos: nat, index: nat): (r: seq<(K, V)>)
    decreases |t.slots| - pos
  {
    if index >= t.length then []
    else match NextFull(t.slots, pos)
      case Some(i) => [(t.slots[i].key, t.slots[i].value)] + Drain(t, i + 1, index + 1)
      case None => []
  }

  lemma {:induction false} SkipNonFull<K, V>(slots: seq<Slot<K, V>>, pos: nat, i: nat)
    requires pos <= i <= |slots|
    requires forall q :: pos <= q < i ==> !slots[q].Full?
    ensures Entries(slots[pos..]) == Entries(slots[i..])
    ensures FullCount(slots[pos..]) == FullCount(slots[i..])
    decreases i - pos
  {
    if pos < i {
      assert slots[pos..][1..] == slots[pos + 1..];
      SkipNonFull(slots, pos + 1, i);
    }
  }

  lemma {:induction false} DrainFrom<K, V>(t: Table<K, V>, pos: nat, index: nat)
    requires pos <= |t.slots| && index + FullCount(t.slots[pos..]) == t.length
    ensures Drain(t, pos, index) == Entries(t.slots[pos..])
    decreases |t.slots| - pos
  {
    match NextFull(t.slots, pos)
    case None =>
      SkipNonFull(t.slots, pos, |t.slots|);
    case Some(i) =>
      SkipNonFull(t.slots, pos, i);
      assert t.slots[i..][1..] == t.slots[i + 1..];
      DrainFrom(t, i + 1, index + 1);
  }

  /** Iterating a table whose length counts its full slots yields each full slot once, in slot order, `length` items in all. */
  lemma IterationYieldsEntries<K, V>(t: Table<K, V>)
    requires t.length == FullCount(t.slots)
    ensures Drain(t, 0, 0) == Entries(t.slots)
    ensures |Drain(t, 0, 0)| == t.length
  {
    assert t.slots[0..] == t.slots;
    DrainFrom(t, 0, 0);
  }

  /** Every full slot's entry is yielded, and only those. */
  lemma {:induction false} EntriesAreFullSlots<K, V>(slots: seq<Slot<K, V>>, k: K, v: V)
    ensures (k, v) in Entries(slots) <==> Full(k, v) in slots
  {
    if |slots| > 0 {
      EntriesAreFullSlots(slots[1..], k, v);
      assert slots == [slots[0]] + slots[1..];
    }
  }

  type byte = b: int | 0 <= b < 256

  /** The value of a byte read as a (signed) C `char`. */
  function SignedChar(b: byte): (c: int)
    ensures -128 <= c < 128
    ensures b < 128 ==> c == b
  {
    if b < 128 then b else b - 256
  }

  /** The bytes of a C string: everything before the first NUL. */
  function CString(s: seq<byte>): (r: seq<byte>)
    ensures r <= s && 0 !in r
    ensures |r| < |s| ==> s[|r|] == 0
  {
    if |s| == 0 || s[0] == 0 then [] else [s[0]] + CString(s[1..])
  }

  /** Reference definition of the string hash: `h := h * 31 + c` over the characters, modulo 2^32. */
  function HashOf(s: seq<byte>): (h: nat)
    ensures h < U32
  {
    if |s| == 0 then 0 else (HashOf(s[..|s| - 1]) * 31 + SignedChar(s[|s| - 1])) % U32
  }

  lemma ShiftSubtract(h: nat, c: int)
    ensures (((h * 32) % U32 - h) % U32 + c) % U32 == (h * 31 + c) % U32
  {
    var a := h * 32;
    var q1 := a / U32;
    assert a == q1 * U32 + a % U32;
    var b := a % U32 - h;
    var q2 := b / U32;
    assert b == q2 * U32 + b % U32;
    assert b % U32 + c == (h * 31 + c) - (q1 + q2) * U32;
    ModShift(h * 31 + c, -(q1 + q2), U32);
  }

  /**
   * `ht_string_hash`: `(hash << 5) - hash + c` over the characters up to
   * the NUL, in unsigned 32-bit arithmetic; a NULL string hashes to 0.
   */
  method StringHash(s: Option<seq<byte>>) returns (h: nat)
    ensures h < U32
    ensures s.None? ==> h == 0
    ensures s.Some? ==> h == HashOf(CString(s.value))
  {
    h := 0;
    if s.None? {
      return;
    }
    var str := s.value;
    var i := 0;
    while i < |str| && str[i] != 0
      invariant 0 <= i <= |str|
      invariant 0 !in str[..i]
      invariant h == HashOf(str[..i])
    {
      ShiftSubtract(h, SignedChar(str[i]));
      assert str[..i + 1][..i] == str[..i];
      h := (((h * 32) % U32 - h) % U32 + SignedChar(str[i])) % U32;
      i := i + 1;
    }
    CStringIsPrefix(str, i);
  }

  lemma {:induction false} CStringIsPrefix(s: seq<byte>, i: nat)
    requires i <= |s| && 0 !in s[..i] && (i == |s| || s[i] == 0)
    ensures CString(s) == s[..i]
  {
    if i > 0 {
      assert s[1..][..i - 1] == s[..i][1..];
      CStringIsPrefix(s[1..], i - 1);
      assert s[..i] == [s[0]] + s[..i][1..];
    }
  }

  /** A table of 31 slots whose first `m` slots are graves of the keys `0 .. m-1`. */
  function GraveRow(m: nat): (s: seq<Slot<nat, nat>>)
    requires m <= InitialSize
    ensures |s| == InitialSize
  {
    seq(InitialSize, i => if i < m then Grave(i, 0) else Empty)
  }

  function Identity(k: nat): nat { k }

  /** `ht_init`'s table is the row with no graves yet. */
  lemma InitIsRow()
    ensures Init<nat, nat>() == Table(0, GraveRow(0))
  {
  }

  /** In a row of graves, key `k` probes first at slot `k`, which is empty. */
  lemma InsertIntoRow(k: nat)
    requires k < InitialSize
    ensures Insert(Table(0, GraveRow(k)), Identity, k, 0) == Some(Table(1, GraveRow(k)[k := Full(k, 0)]))
  {
    var s := GraveRow(k);
    assert Probe(k, 0, InitialSize) == k;
    assert Search(s, k, k, Retrieving, 0) == Some(k);
    assert Search(s, k, k, Inserting, 0) == Some(k);
  }

  /** Removing key `k` again leaves one more grave. */
  lemma RemoveFromRow(k: nat)
    requires k < InitialSize
    ensures Remove(Table(1, GraveRow(k)[k := Full(k, 0)]), Identity, k) == Some(Removal(0, Table(0, GraveRow(k + 1))))
  {
    var s := GraveRow(k)[k := Full(k, 0)];
    assert Probe(k, 0, InitialSize) == k;
    assert Search(s, k, k, Retrieving, 0) == Some(k);
    assert s[k := Grave(k, 0)] == GraveRow(k + 1);
  }

  /**
   * Gravestones never count against the load: from `ht_init`, inserting
   * and then removing each of the keys `0 .. 30` (hashing a key to itself)
   * turns every slot into a grave while `length` stays 0. A lookup of key
   * 31 then finds neither an empty slot nor its key, so `ht_get`,
   * `ht_contains`, `ht_insert` and `ht_remove` all loop for ever on it,
   * whereas the bounded search reports the key absent.
   */
  method GravesHangLookup() returns (t: Table<nat, nat>, r: Lookup<nat>)
    ensures t.length == 0 && |t.slots| == InitialSize
    ensures forall i :: 0 <= i < |t.slots| ==> t.slots[i].Grave?
    ensures r == GetAsWritten(t, Identity, 31) && r == Hangs
    ensures Get(t, Identity, 31).None?
    ensures Contains(t, Identity, 31).None?
    ensures Insert(t, Identity, 31, 0).None? && Remove(t, Identity, 31).None?
  {
    t := Init();
    InitIsRow();
    var k: nat := 0;
    while k < InitialSize
      invariant 0 <= k <= InitialSize
      invariant t == Table(0, GraveRow(k))
    {
      InsertIntoRow(k);
      RemoveFromRow(k);
      var t1 := Insert(t, Identity, k, 0).value;
      t := Remove(t1, Identity, k).value.t;
      k := k + 1;
    }
    var s := t.slots;
    assert forall q :: 0 <= q < |s| ==> !Stops(Retrieving, s[q], 31);
    SearchFirst(s, 31, 31, Retrieving, 0);
    r := GetAsWritten(t, Identity, 31);
  }
}
