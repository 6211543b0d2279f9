/**
 * Interning of strings and symbols (textcache.c). A cache is a hash table
 * whose keys are text objects, hashed and compared by their text; here it
 * maps the text to the id of the object holding it, which is what
 * `ht_get_key_ptr` hands back. That function is not part of this model
 * (src/hashtable.c does not define it): the model assumes it returns the
 * stored key object, or NULL when the text is absent. Text objects live in
 * `texts`, keyed by id;
 * the id of a new object is a parameter (it is an address `malloc` picks).
 *
 * The bits `LS_OWN` and `LS_CPY` of the `flags` argument are the booleans
 * `own` and `copy`. A copied text and the caller's text are equal strings,
 * so copying shows only in who frees what.
 */
module TextCache {
  import opened Values
  import HashTable

  datatype Kind = StringText | SymbolText

  /** A `lisp_string` or `lisp_symbol`: its text and whether freeing the object frees the text. */
  datatype Text = Text(kind: Kind, s: string, canFree: bool)

  type Cache = HashTable.Table<string, nat>

  /** A cache the hash table operations accept: at least one slot. */
  predicate Usable(cache: Cache)
  {
    0 < |cache.slots|
  }

  /** The cache is a valid table, and every entry names an object of `kind` holding exactly its key. */
  predicate CacheOk(texts: map<nat, Text>, cache: Cache, hash: string -> nat, kind: Kind)
  {
    && HashTable.Valid(cache, hash)
    && forall i :: 0 <= i < |cache.slots| && cache.slots[i].Full? ==>
         cache.slots[i].value in texts
         && texts[cache.slots[i].value].s == cache.slots[i].key
         && texts[cache.slots[i].value].kind == kind
  }

  /** What `lisp_text_new` returns, with the objects and the cache after it. */
  datatype Made = Made(id: nat, texts: map<nat, Text>, cache: Option<Cache>, freedArgument: bool)

  /**
   * `lisp_text_new`. With a cache holding text equal to `s`, the cached
   * object is returned and nothing is allocated; the caller's text is freed
   * when ownership was given without a copy. Otherwise a new object `newId`
   * holds the text, may free it exactly when `own`, and is saved in the
   * cache when there is one. `None` means the cache insertion never finds
   * a free slot, or the table has outgrown the sizes it can grow through.
   */
  function TextNew(texts: map<nat, Text>, cache: Option<Cache>, hash: string -> nat, kind: Kind,
                   s: string, own: bool, copy: bool, newId: nat): (r: Option<Made>)
    requires newId !in texts
    requires cache.Some? ==> Usable(cache.value)
    ensures r.Some? && cache.None? ==> r.value.cache.None?
    ensures r.Some? && r.value.freedArgument ==> own && !copy && r.value.texts == texts
    ensures r.Some? ==> r.value.texts == texts
                        || (r.value.id == newId && !r.value.freedArgument
                            && r.value.texts == texts[newId := Text(kind, s, own)])
  {
    if cache.Some? && HashTable.Get(cache.value, hash, s).Some? then
      Some(Made(HashTable.Get(cache.value, hash, s).value, texts, cache, own && !copy))
    else
      var texts2 := texts[newId := Text(kind, s, own)];
      if cache.Some? then
        if |cache.value.slots| > HashTable.MaxGrowable then None
        else match HashTable.Insert(cache.value, hash, s, newId)
        case Some(t2) => Some(Made(newId, texts2, Some(t2), false))
        case None => None
      else Some(Made(newId, texts2, None, false))
  }

  /** A cache entry for `s` names an object holding `s`. */
  lemma CachedHolds(texts: map<nat, Text>, cache: Cache, hash: string -> nat, kind: Kind, s: string)
    requires CacheOk(texts, cache, hash, kind) && HashTable.Get(cache, hash, s).Some?
    ensures var id := HashTable.Get(cache, hash, s).value;
      id in texts && texts[id].s == s && texts[id].kind == kind
  {
    var id := HashTable.Get(cache, hash, s).value;
    HashTable.GetIffStored(cache, hash, s, id);
    var i :| 0 <= i < |cache.slots| && cache.slots[i] == HashTable.Full(s, id);
  }

  /** With a cache entry for the text, `TextNew` returns that object and changes nothing. */
  lemma HitAllocatesNothing(texts: map<nat, Text>, cache: Cache, hash: string -> nat, kind: Kind,
                            s: string, own: bool, copy: bool, newId: nat)
    requires newId !in texts && Usable(cache) && CacheOk(texts, cache, hash, kind)
    requires HashTable.Get(cache, hash, s).Some?
    ensures var r := TextNew(texts, Some(cache), hash, kind, s, own, copy, newId);
      && r.Some? && r.value.id != newId && r.value.texts == texts && r.value.cache == Some(cache)
      && r.value.id in texts && texts[r.value.id].s == s
  {
    CachedHolds(texts, cache, hash, kind, s);
  }

  /** The invariant survives saving a new object in the cache. */
  lemma SavePreserves(texts: map<nat, Text>, cache: Cache, hash: string -> nat, kind: Kind,
                      s: string, own: bool, newId: nat)
    requires newId !in texts && Usable(cache) && |cache.slots| <= HashTable.MaxGrowable
    requires CacheOk(texts, cache, hash, kind) && HashTable.Insert(cache, hash, s, newId).Some?
    ensures var t2 := HashTable.Insert(cache, hash, s, newId).value;
      && CacheOk(texts[newId := Text(kind, s, own)], t2, hash, kind)
      && forall z :: HashTable.Get(t2, hash, z) == (if z == s then Some(newId) else HashTable.Get(cache, hash, z))
  {
    var t2 := HashTable.Insert(cache, hash, s, newId).value;
    var texts2 := texts[newId := Text(kind, s, own)];
    forall z
      ensures HashTable.Get(t2, hash, z) == (if z == s then Some(newId) else HashTable.Get(cache, hash, z))
    {
      HashTable.InsertSpec(cache, hash, s, newId, z);
    }
    HashTable.InsertSpec(cache, hash, s, newId, s);
    forall i | 0 <= i < |t2.slots| && t2.slots[i].Full?
      ensures t2.slots[i].value in texts2 && texts2[t2.slots[i].value].s == t2.slots[i].key
              && texts2[t2.slots[i].value].kind == kind
    {
      var z, v := t2.slots[i].key, t2.slots[i].value;
      HashTable.GetIffStored(t2, hash, z, v);
      if z != s {
        HashTable.GetIffStored(cache, hash, z, v);
        var j :| 0 <= j < |cache.slots| && cache.slots[j] == HashTable.Full(z, v);
      }
    }
  }

  /**
   * On a miss a new object `newId` holds the text, may free it exactly when
   * `own`, and the cache (if any) now maps the text to it and every other
   * text as before.
   */
  lemma MissCreates(texts: map<nat, Text>, cache: Option<Cache>, hash: string -> nat, kind: Kind,
                    s: string, own: bool, copy: bool, newId: nat)
    requires newId !in texts
    requires cache.Some? ==> Usable(cache.value) && CacheOk(texts, cache.value, hash, kind)
    requires cache.None? || HashTable.Get(cache.value, hash, s).None?
    ensures var r := TextNew(texts, cache, hash, kind, s, own, copy, newId);
      r.Some? ==>
        && r.value.id == newId && r.value.texts == texts[newId := Text(kind, s, own)]
        && !r.value.freedArgument
        && (cache.Some? ==> r.value.cache.Some? && CacheOk(r.value.texts, r.value.cache.value, hash, kind)
                            && HashTable.Get(r.value.cache.value, hash, s) == Some(newId))
  {
    if cache.Some? && |cache.value.slots| <= HashTable.MaxGrowable
       && HashTable.Insert(cache.value, hash, s, newId).Some? {
      SavePreserves(texts, cache.value, hash, kind, s, own, newId);
    }
  }

  /** Whatever happens, the object returned holds the text asked for, and the cache stays consistent. */
  lemma TextNewHolds(texts: map<nat, Text>, cache: Option<Cache>, hash: string -> nat, kind: Kind,
                     s: string, own: bool, copy: bool, newId: nat)
    requires newId !in texts
    requires cache.Some? ==> Usable(cache.value) && CacheOk(texts, cache.value, hash, kind)
    ensures var r := TextNew(texts, cache, hash, kind, s, own, copy, newId);
      r.Some? ==>
        && r.value.id in r.value.texts && r.value.texts[r.value.id].s == s
        && r.value.texts[r.value.id].kind == kind
        && (forall o :: o in texts ==> o in r.value.texts && r.value.texts[o] == texts[o])
        && (r.value.cache.Some? ==> CacheOk(r.value.texts, r.value.cache.value, hash, kind))
  {
    if cache.Some? && HashTable.Get(cache.value, hash, s).Some? {
      HitAllocatesNothing(texts, cache.value, hash, kind, s, own, copy, newId);
    } else {
      MissCreates(texts, cache, hash, kind, s, own, copy, newId);
    }
  }

  /** Interning: asking a cache twice for the same text gives the same object, the second time allocating nothing. */
  lemma InternTwice(texts: map<nat, Text>, cache: Cache, hash: string -> nat, kind: Kind,
                    s: string, own1: bool, copy1: bool, newId1: nat, own2: bool, copy2: bool, newId2: nat)
    requires newId1 !in texts && Usable(cache) && CacheOk(texts, cache, hash, kind)
    requires TextNew(texts, Some(cache), hash, kind, s, own1, copy1, newId1).Some?
    requires var m := TextNew(texts, Some(cache), hash, kind, s, own1, copy1, newId1).value;
      newId2 !in m.texts && m.cache.Some? && Usable(m.cache.value)
    ensures var m := TextNew(texts, Some(cache), hash, kind, s, own1, copy1, newId1).value;
      var m2 := TextNew(m.texts, m.cache, hash, kind, s, own2, copy2, newId2);
      m2.Some? && m2.value.id == m.id && m2.value.texts == m.texts && m2.value.cache == m.cache
  {
    var m := TextNew(texts, Some(cache), hash, kind, s, own1, copy1, newId1).value;
    TextNewHolds(texts, Some(cache), hash, kind, s, own1, copy1, newId1);
    if HashTable.Get(cache, hash, s).Some? {
      HitAllocatesNothing(texts, cache, hash, kind, s, own1, copy1, newId1);
    } else {
      MissCreates(texts, Some(cache), hash, kind, s, own1, copy1, newId1);
    }
    HitAllocatesNothing(m.texts, m.cache.value, hash, kind, s, own2, copy2, newId2);
  }

  /** Without a cache every request makes a new object, even for equal text. */
  lemma NoCacheAlwaysNew(texts: map<nat, Text>, hash: string -> nat, kind: Kind,
                         s: string, own: bool, copy: bool, newId: nat)
    requires newId !in texts
    ensures var r := TextNew(texts, None, hash, kind, s, own, copy, newId);
      r.Some? && r.value.id == newId && r.value.id !in texts && r.value.cache.None?
  {
  }

  /**
   * `lisp_textcache_remove`: drop the entry for the text of object `id`,
   * but only when the cached object for that text is `id` itself.
   */
  function CacheRemove(texts: map<nat, Text>, cache: Cache, hash: string -> nat, id: nat): (r: Cache)
    requires id in texts && |cache.slots| > 0
    ensures |r.slots| == |cache.slots|
  {
    if HashTable.Get(cache, hash, texts[id].s) == Some(id) then
      HashTable.Remove(cache, hash, texts[id].s).value.t
    else cache
  }

  /**
   * Removing object `id` forgets its text exactly when the cache named `id`
   * for it, and leaves every other text's entry and the invariant intact.
   */
  lemma CacheRemoveSpec(texts: map<nat, Text>, cache: Cache, hash: string -> nat, kind: Kind, id: nat, z: string)
    requires id in texts && CacheOk(texts, cache, hash, kind)
    ensures var r := CacheRemove(texts, cache, hash, id);
      && CacheOk(texts, r, hash, kind)
      && HashTable.Get(r, hash, z) ==
           (if z == texts[id].s && HashTable.Get(cache, hash, z) == Some(id) then None
            else HashTable.Get(cache, hash, z))
  {
    var s := texts[id].s;
    if HashTable.Get(cache, hash, s) == Some(id) {
      var r := HashTable.Remove(cache, hash, s).value.t;
      HashTable.RemoveSpec(cache, hash, s, z);
      forall i | 0 <= i < |r.slots| && r.slots[i].Full?
        ensures r.slots[i].value in texts && texts[r.slots[i].value].s == r.slots[i].key
                && texts[r.slots[i].value].kind == kind
      {
        var k, v := r.slots[i].key, r.slots[i].value;
        HashTable.RemoveSpec(cache, hash, s, k);
        HashTable.GetIffStored(r, hash, k, v);
        HashTable.GetIffStored(cache, hash, k, v);
        var j :| 0 <= j < |cache.slots| && cache.slots[j] == HashTable.Full(k, v);
      }
    }
  }

  /** The runtime's two caches; `None` is a disabled cache. */
  datatype Interner = Interner(texts: map<nat, Text>, strcache: Option<Cache>, symcache: Option<Cache>)

  predicate InternerOk(it: Interner, hash: string -> nat)
  {
    && (it.strcache.Some? ==> Usable(it.strcache.value) && CacheOk(it.texts, it.strcache.value, hash, StringText))
    && (it.symcache.Some? ==> Usable(it.symcache.value) && CacheOk(it.texts, it.symcache.value, hash, SymbolText))
  }

  /** Adding objects to `texts` keeps a cache consistent. */
  lemma CacheOkGrow(texts: map<nat, Text>, texts2: map<nat, Text>, cache: Cache, hash: string -> nat, kind: Kind)
    requires CacheOk(texts, cache, hash, kind)
    requires forall o :: o in texts ==> o in texts2 && texts2[o] == texts[o]
    ensures CacheOk(texts2, cache, hash, kind)
  {
  }

  /** `lisp_string_new`: text interning through the string cache only. */
  method StringNew(it: Interner, hash: string -> nat, s: string, own: bool, copy: bool, newId: nat)
    returns (r: Option<(nat, Interner)>)
    requires newId !in it.texts && InternerOk(it, hash)
    ensures r.Some? ==> r.value.1.symcache == it.symcache && InternerOk(r.value.1, hash)
    ensures r.Some? ==> r.value.0 in r.value.1.texts && r.value.1.texts[r.value.0].s == s
                        && r.value.1.texts[r.value.0].kind == StringText
  {
    var m := TextNew(it.texts, it.strcache, hash, StringText, s, own, copy, newId);
    TextNewHolds(it.texts, it.strcache, hash, StringText, s, own, copy, newId);
    if m.Some? {
      if it.symcache.Some? {
        CacheOkGrow(it.texts, m.value.texts, it.symcache.value, hash, SymbolText);
      }
      r := Some((m.value.id, Interner(m.value.texts, m.value.cache, it.symcache)));
    } else {
      r := None;
    }
  }

  /** `lisp_symbol_new`: text interning through the symbol cache only. */
  method SymbolNew(it: Interner, hash: string -> nat, s: string, own: bool, copy: bool, newId: nat)
    returns (r: Option<(nat, Interner)>)
    requires newId !in it.texts && InternerOk(it, hash)
    ensures r.Some? ==> r.value.1.strcache == it.strcache && InternerOk(r.value.1, hash)
    ensures r.Some? ==> r.value.0 in r.value.1.texts && r.value.1.texts[r.value.0].s == s
                        && r.value.1.texts[r.value.0].kind == SymbolText
  {
    var m := TextNew(it.texts, it.symcache, hash, SymbolText, s, own, copy, newId);
    TextNewHolds(it.texts, it.symcache, hash, SymbolText, s, own, copy, newId);
    if m.Some? {
      if it.strcache.Some? {
        CacheOkGrow(it.texts, m.value.texts, it.strcache.value, hash, StringText);
      }
      r := Some((m.value.id, Interner(m.value.texts, it.strcache, m.value.cache)));
    } else {
      r := None;
    }
  }

  /** `lisp_enable_strcache` and `lisp_enable_symcache`: a new, empty cache that holds no text. */
  method EnableCache(hash: string -> nat) returns (c: Cache)
    ensures Usable(c) && |c.slots| <= HashTable.MaxGrowable
    ensures forall texts: map<nat, Text>, kind :: CacheOk(texts, c, hash, kind)
    ensures forall s :: HashTable.Get(c, hash, s).None?
  {
    c := HashTable.Init();
    HashTable.InitValid<string, nat>(hash, []);
    forall s ensures HashTable.Get(c, hash, s).None? {
      HashTable.InitValid<string, nat>(hash, s);
    }
  }
}
