/** get and set of an index, with the cache in front of the data file. */
module CachedIndexes {
  import opened Bytes
  import opened NodeCodec
  import opened IndexStore
  import opened IndexState
  import opened KvIndexes
  import opened LruSpec
  import opened Lru

  const BUFSIZ: nat := 8192

  /** The largest key and value the cache of an index takes. */
  const MAX_CACHED: nat := 1024

  /** Every cached pair is the last value set for its key. */
  ghost predicate Coherent(entries: seq<Pair>, last: map<Key, Bytes>) {
    forall p :: p in entries ==> p.k in last && last[p.k] == p.v
  }

  /** The cached value of a key, if there is one, is `v`. */
  ghost predicate CachedAs(entries: seq<Pair>, k: Key, v: Bytes) {
    forall p :: p in entries && p.k == k ==> p.v == v
  }

  /**
   * A set keeps the cache right exactly if the pair fits the cache or the key
   * is not cached with another value: a pair that is too large is not cached,
   * and an older value stays where it is.
   */
  lemma SetCoherence(entries: seq<Pair>, last: map<Key, Bytes>, max: nat, maxElem: nat, k: Key, v: Bytes)
    requires KeysDistinct(entries) && Coherent(entries, last)
    ensures Coherent(LruSpec.Set(entries, max, maxElem, Pair(k, v)), last[k := v])
       <==> |k| + |v| <= maxElem || CachedAs(entries, k, v)
  {
    SetKeys(entries, max, maxElem, Pair(k, v));
  }

  /** An oversized set after a cached one leaves the cache wrong. */
  lemma OversizedSetGoesStale(k: Key, v: Bytes, w: Bytes)
    requires |k| + |v| <= MAX_CACHED < |k| + |w|
    ensures Coherent([Pair(k, v)], map[k := v])
    ensures !Coherent(LruSpec.Set([Pair(k, v)], BUFSIZ * 1024, MAX_CACHED, Pair(k, w)), map[k := v][k := w])
  {
    assert Pair(k, v) in [Pair(k, v)];
    assert CachedAs([Pair(k, v)], k, w) ==> Pair(k, v).v == w;
    SetCoherence([Pair(k, v)], map[k := v], BUFSIZ * 1024, MAX_CACHED, k, w);
  }

  class CachedIndex {
    const idx: KvIndex
    const cache: KvLru

    ghost predicate Valid()
      reads this, idx, idx.dbf, idx.dbf.Repr, cache, cache.Repr
    {
      && idx.Valid() && AllLive(idx.ix.tree) && cache.Valid()
      && cache.maxElemSize == MAX_CACHED
      && idx.dbf in idx.dbf.Repr && idx !in cache.Repr && idx !in idx.dbf.Repr
      && cache !in idx.dbf.Repr && cache !in cache.Repr
      && idx.dbf.Repr !! cache.Repr
    }

    /** init and open_index on a new file. */
    constructor (ghost keyLen: nat, hash: Bytes -> int)
      requires keyLen <= MAX_KEY
      ensures Valid() && fresh(idx) && fresh(idx.dbf.Repr) && fresh(cache) && fresh(cache.Repr)
      ensures idx.keyLen == keyLen && idx.last == map[] && cache.entries == []
      ensures idx.dbf.file.used == 2
      ensures cache.hash == hash && cache.bucketCount == BUFSIZ && cache.maxSize == BUFSIZ * 1024
    {
      hide KvIndex.Valid, KvLru.Valid;
      idx := new KvIndex(keyLen);
      cache := new KvLru(hash, BUFSIZ, BUFSIZ * 1024, MAX_CACHED);
    }

    /** get: a non-empty cache hit, or else what the data file has. */
    method Get(k: Key) returns (ret: int, val: array?<byte>)
      requires Valid() && |k| == idx.keyLen
      modifies cache, cache.Repr
      ensures Valid() && idx.last == old(idx.last)
      ensures cache.Repr == old(cache.Repr) && idx.dbf.Repr == old(idx.dbf.Repr)
      ensures idx.dbf.file == old(idx.dbf.file) && idx.shown == old(idx.shown)
      ensures var es := old(cache.entries); var i := Place(es, k);
              if i < |es| && es[i].v != [] then
                val != null && ret == |es[i].v| && val[..] == es[i].v
              else if k in idx.shown then
                val != null && ret == val.Length && val[..] == idx.shown[k]
              else
                val == null && ret == 0
      ensures var es := old(cache.entries); var i := Place(es, k);
              cache.entries == if i < |es| then [es[i]] + Others(es, k) else es
      ensures Coherent(old(cache.entries), idx.last) ==>
                && Coherent(cache.entries, idx.last)
                && if k in idx.last then
                     val != null && ret == val.Length && ZeroTail(idx.last[k], val[..])
                   else
                     val == null && ret == 0
    {
      hide KvIndex.Valid, KvLru.Valid, KeysDistinct, LruSpec.Get, Others;
      ghost var es := cache.entries;
      ghost var i := Place(es, k);
      CacheKeysDistinct();
      GetRecency(es, k);
      val := cache.Get(k);
      GetCoherent(es, idx.last, k);
      if val != null && val.Length > 0 {
        assert es[i] in es;
        return val.Length, val;
      }
      ret, val := idx.Get(k);
    }

    static lemma GetCoherent(es: seq<Pair>, last: map<Key, Bytes>, k: Key)
      ensures Coherent(es, last) ==> Coherent(LruSpec.Get(es, k), last)
    {
    }

    /** The data file first, then the cache. */
    method SetBoth(k: Key, v: Bytes)
      requires Valid() && |k| == idx.keyLen && idx.dbf.file.used + 2 <= MAX_INT
      modifies idx, idx.dbf.Repr, cache, cache.Repr
      ensures Valid() && fresh(idx.dbf.Repr - old(idx.dbf.Repr)) && fresh(cache.Repr - old(cache.Repr))
      ensures idx.last == old(idx.last)[k := v]
      ensures k in idx.shown && idx.shown == old(idx.shown)[k := idx.shown[k]]
      ensures SetYields(ShownFor(old(idx.shown), k), v, idx.shown[k])
      ensures idx.dbf.file.used <= old(idx.dbf.file).used + 3 + Shares(|v|)
      ensures cache.entries == LruSpec.Set(old(cache.entries), cache.maxSize, MAX_CACHED, Pair(k, v))
    {
      hide KvIndex.Valid, KvLru.Valid, LruSpec.Set, SetYields;
      idx.Set(k, v);
      cache.Set(k, v);
    }

    /** set */
    method Set(k: Key, v: Bytes)
      requires Valid() && |k| == idx.keyLen && idx.dbf.file.used + 2 <= MAX_INT
      modifies idx, idx.dbf.Repr, cache, cache.Repr
      ensures Valid() && fresh(idx.dbf.Repr - old(idx.dbf.Repr)) && fresh(cache.Repr - old(cache.Repr))
      ensures idx.last == old(idx.last)[k := v]
      ensures k in idx.shown && idx.shown == old(idx.shown)[k := idx.shown[k]]
      ensures SetYields(ShownFor(old(idx.shown), k), v, idx.shown[k])
      ensures idx.dbf.file.used <= old(idx.dbf.file).used + 3 + Shares(|v|)
      ensures |k| + |v| <= MAX_CACHED ==> cache.entries != [] && cache.entries[0] == Pair(k, v)
      ensures |k| + |v| <= MAX_CACHED && Total(old(cache.entries)) <= cache.maxSize ==>
                cache.entries == [Pair(k, v)] + Others(old(cache.entries), k)
      ensures |k| + |v| > MAX_CACHED ==> cache.entries == old(cache.entries)
      ensures Coherent(old(cache.entries), old(idx.last)) ==>
                (Coherent(cache.entries, idx.last) <==> |k| + |v| <= MAX_CACHED || CachedAs(old(cache.entries), k, v))
    {
      ghost var es, last := cache.entries, idx.last;
      CacheKeysDistinct();
      SetCaches(es, cache.maxSize, MAX_CACHED, Pair(k, v));
      hide SetYields, Others, Total;
      hide Valid, KvIndex.Valid, KvLru.Valid, KeysDistinct, LruSpec.Set, Coherent, CachedAs;
      if Coherent(es, last) {
        SetCoherence(es, last, cache.maxSize, MAX_CACHED, k, v);
      }
      SetBoth(k, v);
    }

    /** A pair that fits is the hottest afterwards, with the others behind it unless the cache was over its maximum. */
    static lemma SetCaches(es: seq<Pair>, max: nat, maxElem: nat, p: Pair)
      requires KeysDistinct(es)
      ensures var es' := LruSpec.Set(es, max, maxElem, p);
              && (Weight(p) > maxElem ==> es' == es)
              && (Weight(p) <= maxElem ==> es' != [] && es'[0] == p)
              && (Weight(p) <= maxElem && Total(es) <= max ==> es' == [p] + Others(es, p.k))
    {
      if Weight(p) <= maxElem && Total(es) <= max {
        SetKeepsAll(es, max, maxElem, p);
      }
    }

    lemma CacheKeysDistinct()
      requires Valid()
      ensures KeysDistinct(cache.entries)
    {
    }
  }
}
