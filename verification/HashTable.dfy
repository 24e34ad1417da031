/** Two's complement masking of a hash. */
module Masking {

  /** Bitwise and of a two's complement integer with a non-negative one. */
  function And(x: int, mask: nat): nat
    decreases mask
  {
    if mask == 0 then 0 else (x % 2) * (mask % 2) + 2 * And(x / 2, mask / 2)
  }

  predicate IsPower2(n: nat) {
    n == 1 || (n > 1 && n % 2 == 0 && IsPower2(n / 2))
  }

  /** With a power of two, masking by one less is the Euclidean remainder, also of negative numbers. */
  lemma {:induction false} MaskIsRemainder(x: int, n: nat)
    requires IsPower2(n)
    ensures And(x, n - 1) == x % n
    decreases n
  {
    if n > 1 {
      var h := n / 2;
      MaskIsRemainder(x / 2, h);
      assert (n - 1) % 2 == 1 && (n - 1) / 2 == h - 1;
      Halve(x, h);
    }
  }

  lemma Halve(x: int, h: nat)
    requires h > 0
    ensures x % (2 * h) == x % 2 + 2 * (x / 2 % h)
  {
    var q, r := x / 2 / h, x / 2 % h;
    assert x == 2 * (x / 2) + x % 2 && x / 2 == q * h + r;
    var low := x % 2 + 2 * r;
    assert x == q * (2 * h) + low by {
      assert 2 * (q * h) == q * (2 * h);
    }
    RemainderUnique(x, 2 * h, q, low);
  }

  lemma RemainderUnique(x: int, d: int, q: int, r: int)
    requires d > 0 && x == q * d + r && 0 <= r < d
    ensures x % d == r
  {
    var q', r' := x / d, x % d;
    assert x == q' * d + r';
    var a := q - q';
    assert a * d == r' - r;
    assert a >= 1 ==> a * d >= d;
    assert a <= -1 ==> a * d <= -d;
  }

  /** _make_bucket_count: the first power of two from 128 on that is not below `bucketCount`. */
  method MakeBucketCount(bucketCount: int) returns (i: nat)
    ensures IsPower2(i) && i >= 128 && i >= bucketCount
    ensures i == 128 || i / 2 < bucketCount
  {
    assert IsPower2(2) && IsPower2(4) && IsPower2(8) && IsPower2(16) && IsPower2(32) && IsPower2(64);
    i := 128;
    while i < bucketCount
      invariant i >= 128 && IsPower2(i)
      invariant i == 128 || i / 2 < bucketCount
    {
      i := i * 2;
    }
  }
}

module HashTables {
  import opened Links
  import opened LinkLists
  import opened Masking

  datatype Elem<K, V> = Elem(k: K, v: V)

  /** The elements of all buckets, bucket by bucket. */
  function Flat<T>(chains: seq<seq<T>>): seq<T> {
    if chains == [] then [] else chains[0] + Flat(chains[1..])
  }

  /** In its bucket, `k` is at place `i`; `i` is the length if it is not there. */
  ghost predicate At<K, V>(chain: seq<Elem<K, V>>, k: K, i: nat) {
    && i <= |chain|
    && (i < |chain| ==> chain[i].k == k)
    && (forall j :: 0 <= j < |chain| && j != i ==> chain[j].k != k)
  }

  /** The elements are in the chains of their hashes, and pairs of the map. */
  ghost predicate InPlace<K, V>(chains: seq<seq<Elem<K, V>>>, index: K -> nat, m: map<K, V>) {
    forall b, i :: 0 <= b < |chains| && 0 <= i < |chains[b]| ==>
      index(chains[b][i].k) == b && chains[b][i].k in m && m[chains[b][i].k] == chains[b][i].v
  }

  ghost predicate Once<K, V>(chain: seq<Elem<K, V>>) {
    forall i, j :: 0 <= i < j < |chain| ==> chain[i].k != chain[j].k
  }

  ghost predicate HasKey<K, V>(chain: seq<Elem<K, V>>, k: K) {
    exists i :: 0 <= i < |chain| && chain[i].k == k
  }

  /** Every key of the map sits once in the chain of its hash, with its value. */
  ghost predicate Holds<K, V>(chains: seq<seq<Elem<K, V>>>, index: K -> nat, m: map<K, V>) {
    && InPlace(chains, index, m)
    && (forall b :: 0 <= b < |chains| ==> Once(chains[b]))
    && (forall k :: k in m ==> index(k) < |chains| && HasKey(chains[index(k)], k))
  }

  lemma AddHolds<K, V>(chains: seq<seq<Elem<K, V>>>, index: K -> nat, m: map<K, V>, k: K, v: V)
    requires Holds(chains, index, m) && index(k) < |chains| && k !in m
    ensures Holds(chains[index(k) := chains[index(k)] + [Elem(k, v)]], index, m[k := v])
    ensures |m[k := v]| == |m| + 1
  {
    var b := index(k);
    var chain' := chains[b] + [Elem(k, v)];
    assert chain'[|chains[b]|].k == k;
    forall x | HasKey(chains[b], x) ensures HasKey(chain', x) {
      var i :| 0 <= i < |chains[b]| && chains[b][i].k == x;
      assert chain'[i].k == x;
    }
  }

  lemma ReplaceHolds<K, V>(chains: seq<seq<Elem<K, V>>>, index: K -> nat, m: map<K, V>, k: K, v: V, i: nat)
    requires Holds(chains, index, m) && index(k) < |chains| && i < |chains[index(k)]| && chains[index(k)][i].k == k
    ensures Holds(chains[index(k) := chains[index(k)][i := Elem(k, v)]], index, m[k := v])
    ensures |m[k := v]| == |m|
  {
    var b := index(k);
    var chain' := chains[b][i := Elem(k, v)];
    assert m.Keys == m[k := v].Keys;
    assert Once(chains[b]);
    forall x | HasKey(chains[b], x) ensures HasKey(chain', x) {
      var j :| 0 <= j < |chains[b]| && chains[b][j].k == x;
      assert chain'[j].k == x;
    }
  }

  lemma WithoutChain<K, V>(chain: seq<Elem<K, V>>, i: nat)
    requires Once(chain) && i < |chain|
    ensures Once(Without(chain, i))
    ensures forall j :: 0 <= j < |Without(chain, i)| ==>
              Without(chain, i)[j] in chain && Without(chain, i)[j].k != chain[i].k
    ensures forall x :: x != chain[i].k && HasKey(chain, x) ==> HasKey(Without(chain, i), x)
  {
    forall x | x != chain[i].k && HasKey(chain, x) ensures HasKey(Without(chain, i), x) {
      var j :| 0 <= j < |chain| && chain[j].k == x;
      assert Without(chain, i)[if j > i then j - 1 else j].k == x;
    }
  }

  lemma DelHolds<K, V>(chains: seq<seq<Elem<K, V>>>, index: K -> nat, m: map<K, V>, k: K, i: nat)
    requires Holds(chains, index, m) && index(k) < |chains| && i < |chains[index(k)]| && chains[index(k)][i].k == k
    ensures Holds(chains[index(k) := Without(chains[index(k)], i)], index, m - {k})
    ensures |m - {k}| == |m| - 1
  {
    var b := index(k);
    assert m == (m - {k})[k := m[k]];
    WithoutChain(chains[b], i);
    hide Once, HasKey, Without;
  }

  class HashTable<K(==,!new), V(!new)> {
    const hash: K -> int
    const defaultValue: V
    const bucketCount: nat
    var size: int
    var buckets: seq<LinkList<Elem<K, V>>>

    /** The map the table stands for, and the chain of each bucket. */
    ghost var m: map<K, V>
    ghost var chains: seq<seq<Elem<K, V>>>
    ghost var Repr: set<object>

    /** The bucket of a key: the hash masked by one less than the bucket count. */
    function Index(k: K): nat {
      if bucketCount == 0 then 0 else And(hash(k), bucketCount - 1)
    }

    ghost predicate BucketOk(b: nat)
      requires b < |buckets|
      reads this`buckets, this`chains, this`Repr, Repr
    {
      var l := buckets[b];
      && l in Repr
      && (forall i :: 0 <= i < |l.nodes| ==> l.nodes[i] in Repr)
      && l.Valid()
      && b < |chains| && l.contents == chains[b]
    }

    /** Buckets share nothing. */
    ghost predicate Apart()
      reads this`buckets, this`chains, this`Repr, Repr
    {
      && (forall b :: 0 <= b < |buckets| ==> buckets[b] in Repr)
      && (forall b, c :: 0 <= b < c < |buckets| ==> buckets[b] != buckets[c])
      && (forall b, c, i :: 0 <= b < |buckets| && 0 <= c < |buckets| && b != c && 0 <= i < |buckets[b].nodes| ==>
            buckets[b].nodes[i] !in buckets[c].nodes)
    }

    /** The chains are the contents of the buckets. */
    ghost predicate Wired()
      reads this`buckets, this`chains, this`Repr, Repr
    {
      && this !in Repr
      && |buckets| == |chains| == bucketCount > 0
      && Apart()
      && (forall b :: 0 <= b < |buckets| ==> BucketOk(b))
    }

    ghost predicate Valid()
      reads this, Repr
    {
      && this !in Repr
      && Wired()
      && IsPower2(bucketCount)
      && Holds(chains, Index, m)
      && size == |m|
    }

    /** _init_buckets */
    static method InitBuckets(count: nat) returns (bs: seq<LinkList<Elem<K, V>>>)
      ensures |bs| == count && Distinct(bs)
      ensures forall b :: 0 <= b < count ==> fresh(bs[b]) && bs[b].Valid() && bs[b].contents == [] && bs[b].nodes == []
    {
      bs := [];
      while |bs| < count
        invariant |bs| <= count && Distinct(bs)
        invariant forall b :: 0 <= b < |bs| ==>
                    fresh(bs[b]) && bs[b].Valid() && bs[b].contents == [] && bs[b].nodes == []
      {
        var l := new LinkList<Elem<K, V>>();
        bs := bs + [l];
      }
    }

    /** init: empty buckets, as many as _make_bucket_count says. */
    constructor (count: int, defaultValue: V, hash: K -> int)
      ensures Valid() && fresh(Repr) && m == map[]
      ensures this.hash == hash && this.defaultValue == defaultValue
      ensures bucketCount >= 128 && bucketCount >= count && (bucketCount == 128 || bucketCount / 2 < count)
    {
      this.hash, this.defaultValue, size := hash, defaultValue, 0;
      var c := MakeBucketCount(count);
      bucketCount := c;
      var bs := InitBuckets(c);
      buckets := bs;
      ghost var lists: set<object> := set b | 0 <= b < |bs| :: bs[b];
      m, chains, Repr := map[], seq(c, i => []), lists;
    }

    lemma IndexInRange(k: K)
      requires IsPower2(bucketCount)
      ensures Index(k) == hash(k) % bucketCount < bucketCount
    {
      MaskIsRemainder(hash(k), bucketCount);
    }

    method Find(k: K) returns (v: V)
      requires Valid()
      ensures v == if k in m then m[k] else defaultValue
    {
      IndexInRange(k);
      var b := Index(k);
      assert BucketOk(b);
      var n, i := buckets[b].Contains((e: Elem<K, V>) => e.k == k);
      if n != null {
        v := n.data.v;
      } else {
        v := defaultValue;
      }
    }

    /** Appends to the chain of bucket `b`. */
    method ChainAppend(b: nat, e: Elem<K, V>)
      requires Wired() && b < bucketCount
      modifies this`chains, this`Repr, Repr
      ensures Wired() && fresh(Repr - old(Repr)) && old(Repr) <= Repr
      ensures chains == old(chains)[b := old(chains)[b] + [e]]
    {
      assert BucketOk(b);
      var l := buckets[b];
      l.Append(e);
      Repr := Repr + {l.nodes[|l.nodes| - 1]};
      chains := chains[b := l.contents];
      forall c | 0 <= c < |buckets| ensures BucketOk(c) { assert old(BucketOk(c)); }
    }

    /** Overwrites element `i` of bucket `b` in place. */
    method ChainReplace(b: nat, n: LNode<Elem<K, V>>, ghost i: nat, e: Elem<K, V>)
      requires Wired() && b < bucketCount && i < |buckets[b].nodes| && buckets[b].nodes[i] == n
      modifies this`chains, this`Repr, Repr
      ensures Wired() && Repr == old(Repr) && i < |old(chains)[b]|
      ensures chains == old(chains)[b := old(chains)[b][i := e]]
    {
      assert BucketOk(b);
      var l := buckets[b];
      l.Replace(n, i, e);
      chains := chains[b := l.contents];
      forall c | 0 <= c < |buckets| ensures BucketOk(c) { assert old(BucketOk(c)); }
    }

    /** Takes element `i` out of bucket `b`. */
    method ChainDel(b: nat, n: LNode<Elem<K, V>>, ghost i: nat)
      requires Wired() && b < bucketCount && i < |buckets[b].nodes| && buckets[b].nodes[i] == n
      modifies this`chains, this`Repr, Repr
      ensures Wired() && Repr == old(Repr) && i < |old(chains)[b]|
      ensures chains == old(chains)[b := Without(old(chains)[b], i)]
    {
      assert BucketOk(b);
      var l := buckets[b];
      l.Del(n, i);
      chains := chains[b := l.contents];
      forall c | 0 <= c < |buckets| ensures BucketOk(c) { assert old(BucketOk(c)); }
    }

    /** Node `i` of bucket `b`, or null behind the last one. */
    ghost function NodeAt(b: nat, i: nat): LNode?<Elem<K, V>>
      reads this`buckets, buckets
    {
      if b < |buckets| && i < |buckets[b].nodes| then buckets[b].nodes[i] else null
    }

    method FirstNode(b: nat) returns (n: LNode?<Elem<K, V>>)
      requires Wired() && b < bucketCount
      ensures b < |chains| && n == NodeAt(b, 0) && (n == null <==> chains[b] == [])
    {
      assert BucketOk(b);
      n := null;
      if buckets[b].size > 0 { n := buckets[b].begin; }
    }

    method NextNode(ghost b: nat, ghost i: nat, n: LNode<Elem<K, V>>) returns (next: LNode?<Elem<K, V>>)
      requires Wired() && b < bucketCount && n == NodeAt(b, i)
      ensures b < |chains| && i < |chains[b]| && n.data == chains[b][i]
      ensures next == NodeAt(b, i + 1) && (next == null <==> |chains[b]| == i + 1)
    {
      assert BucketOk(b);
      next := n.next;
    }

    /** Looks for a key in its bucket. */
    method Search(b: nat, k: K) returns (n: LNode?<Elem<K, V>>, ghost i: nat)
      requires Valid() && b == Index(k) < bucketCount
      ensures b < |buckets| == |chains|
      ensures if k in m then
                && i < |buckets[b].nodes| && n == buckets[b].nodes[i]
                && i < |chains[b]| && chains[b][i].k == k && n.data == chains[b][i]
              else n == null
    {
      assert BucketOk(b);
      n, i := buckets[b].Contains((e: Elem<K, V>) => e.k == k);
    }

    /** _add_elem in bucket `b`: 1 if the key is new. */
    method AddElem(b: nat, k: K, v: V) returns (r: int)
      requires Valid() && b == Index(k) < bucketCount
      modifies this, Repr
      ensures this !in Repr && Wired() && fresh(Repr - old(Repr))
      ensures m == old(m)[k := v] && r == |m| - |old(m)| && Holds(chains, Index, m)
      ensures size == old(size)
    {
      hide Wired, Holds, And;
      var n, i := Search(b, k);
      if n != null {
        ChainReplace(b, n, i, Elem(k, v));
        ReplaceHolds(old(chains), Index, m, k, v, i);
        r := 0;
      } else {
        AddHolds(chains, Index, m, k, v);
        ChainAppend(b, Elem(k, v));
        r := 1;
      }
      m := m[k := v];
    }

    /** Tells whether the key is new. */
    method AddOrReplace(k: K, v: V) returns (added: bool)
      requires Valid()
      modifies this, Repr
      ensures Valid() && fresh(Repr - old(Repr))
      ensures m == old(m)[k := v] && added == (k !in old(m))
    {
      hide Wired, Holds, And;
      IndexInRange(k);
      var r := AddElem(Index(k), k, v);
      size := size + r;
      added := r != 0;
    }

    method Del(k: K) returns (found: bool)
      requires Valid()
      modifies this, Repr
      ensures Valid() && Repr == old(Repr)
      ensures m == old(m) - {k} && found == (k in old(m))
    {
      hide Wired, Holds, And;
      IndexInRange(k);
      var b := Index(k);
      var n, i := Search(b, k);
      if n == null { return false; }
      DelHolds(chains, Index, m, k, i);
      ChainDel(b, n, i);
      m := m - {k};
      size := size - 1;
      return true;
    }
  }

  // ---------------------------------------------------------------- iteration

  lemma FlatStep<T>(chains: seq<seq<T>>, i: nat)
    requires i < |chains|
    ensures Flat(chains[i..]) == chains[i] + Flat(chains[i + 1..])
  {
    assert chains[i..][1..] == chains[i + 1..];
  }

  lemma {:induction false} FlatFrom<K, V>(chains: seq<seq<Elem<K, V>>>, index: K -> nat, m: map<K, V>, b: nat)
    requires Holds(chains, index, m) && b <= |chains|
    ensures forall i :: 0 <= i < |Flat(chains[b..])| ==>
              var e := Flat(chains[b..])[i]; e.k in m && m[e.k] == e.v && index(e.k) >= b
    ensures forall k :: k in m && index(k) >= b ==> Elem(k, m[k]) in Flat(chains[b..])
    ensures forall i, j :: 0 <= i < j < |Flat(chains[b..])| ==> Flat(chains[b..])[i].k != Flat(chains[b..])[j].k
    decreases |chains| - b
  {
    if b < |chains| {
      FlatStep(chains, b);
      FlatFrom(chains, index, m, b + 1);
      forall k | k in m && index(k) == b ensures Elem(k, m[k]) in chains[b] {
        assert HasKey(chains[b], k);
        var i :| 0 <= i < |chains[b]| && chains[b][i].k == k;
        assert chains[b][i] == Elem(k, m[k]);
      }
    } else {
      assert chains[b..] == [];
    }
  }

  /** The flattened chains list each entry of the map exactly once. */
  lemma FlatIsMap<K, V>(chains: seq<seq<Elem<K, V>>>, index: K -> nat, m: map<K, V>)
    requires Holds(chains, index, m)
    ensures forall i :: 0 <= i < |Flat(chains)| ==> var e := Flat(chains)[i]; e.k in m && m[e.k] == e.v
    ensures forall k :: k in m ==> Elem(k, m[k]) in Flat(chains)
    ensures forall i, j :: 0 <= i < j < |Flat(chains)| ==> Flat(chains)[i].k != Flat(chains)[j].k
  {
    assert chains[0..] == chains;
    FlatFrom(chains, index, m, 0);
  }

  /** The first node of the first bucket that has one; the last bucket if none has. */
  method FirstFilled<K(==,!new), V(!new)>(table: HashTable<K, V>) returns (n: LNode?<Elem<K, V>>, b: nat)
    requires table.Wired()
    ensures b < table.bucketCount == |table.chains| && n == table.NodeAt(b, 0) && (n == null <==> table.chains[b] == [])
    ensures Flat(table.chains[b..]) == Flat(table.chains)
    ensures n == null ==> Flat(table.chains[b..]) == []
  {
    assert |table.chains| == table.bucketCount > 0;
    assert table.chains[0..] == table.chains;
    hide HashTable.Wired, HashTable.NodeAt, Flat;
    b := 0;
    while true
      invariant b < table.bucketCount && Flat(table.chains[b..]) == Flat(table.chains)
      decreases table.bucketCount - b
    {
      n := table.FirstNode(b);
      if n != null { return; }
      FlatStep(table.chains, b);
      if b == table.bucketCount - 1 {
        FlatEnd(table.chains);
        return;
      }
      b := b + 1;
    }
  }

  class HashIterator<K(==,!new), V(!new)> {
    const table: HashTable<K, V>
    var n: LNode?<Elem<K, V>>
    var idx: nat
    ghost var at: nat

    /** The element the iterator is at and all that follow. */
    ghost function Rest(): seq<Elem<K, V>>
      reads this, table
    {
      if idx < |table.chains| && at <= |table.chains[idx]| then
        table.chains[idx][at..] + Flat(table.chains[idx + 1..])
      else []
    }

    ghost predicate Valid()
      reads this, table, table.Repr, table.buckets
    {
      && this !in table.Repr
      && table.Wired()
      && idx < table.bucketCount == |table.chains|
      && at <= |table.chains[idx]|
      && n == table.NodeAt(idx, at)
      && (n == null <==> at == |table.chains[idx]|)
      && (n == null ==> Rest() == [])
    }

    /** begin() */
    constructor (table: HashTable<K, V>)
      requires table.Wired()
      ensures Valid() && this.table == table && Rest() == Flat(table.chains)
    {
      hide HashTable.Wired, HashTable.NodeAt, Flat;
      this.table := table;
      var first, b := FirstFilled(table);
      n, idx, at := first, b, 0;
      new;
      FlatStep(table.chains, b);
    }

    /** operator++ */
    method Next()
      requires Valid() && n != null
      modifies this
      ensures Valid() && [old(n.data)] + Rest() == old(Rest())
    {
      hide HashTable.Wired, HashTable.NodeAt, Flat;
      ghost var rest := Rest();
      ghost var e := n.data;
      n := table.NextNode(idx, at, n);
      at := at + 1;
      assert rest == [e] + Rest();
      if n == null {
        SkipEmpty(Rest());
      }
    }

    /** Moves from the end of one chain to the first element of a later one. */
    method SkipEmpty(ghost rest: seq<Elem<K, V>>)
      requires this !in table.Repr && table.Wired() && idx < table.bucketCount == |table.chains|
      requires n == null == table.NodeAt(idx, at) && at == |table.chains[idx]| && Rest() == rest
      modifies this
      ensures Valid() && Rest() == rest
    {
      hide HashTable.Wired, HashTable.NodeAt, Flat;
      assert Flat(table.chains[idx + 1..]) == rest;
      while idx < table.bucketCount - 1
        invariant idx < table.bucketCount == |table.chains| && this !in table.Repr && table.Wired()
        invariant n == null == table.NodeAt(idx, at) && at == |table.chains[idx]|
        invariant Flat(table.chains[idx + 1..]) == rest
      {
        FlatStep(table.chains, idx + 1);
        idx := idx + 1;
        at := 0;
        n := table.FirstNode(idx);
        if n != null { return; }
      }
      FlatEnd(table.chains);
    }
  }

  lemma FlatEnd<T>(chains: seq<seq<T>>)
    ensures Flat(chains[|chains|..]) == []
  {
  }

  /** A loop from begin() by ++. */
  method Walk<K(==,!new), V(!new)>(table: HashTable<K, V>) returns (seen: seq<Elem<K, V>>)
    requires table.Wired()
    ensures seen == Flat(table.chains)
  {
    hide HashTable.Wired, HashTable.NodeAt, Flat;
    seen := [];
    var it := new HashIterator(table);
    while it.n != null
      invariant it.Valid() && it.table == table && fresh(it)
      invariant seen + it.Rest() == Flat(table.chains)
      decreases |it.Rest()|
    {
      seen := seen + [it.n.data];
      it.Next();
    }
  }

  /** Such a loop sees all elements of the table once, bucket by bucket. */
  method VisitAll<K(==,!new), V(!new)>(table: HashTable<K, V>) returns (seen: seq<Elem<K, V>>)
    requires table.Valid()
    ensures seen == Flat(table.chains)
    ensures forall i :: 0 <= i < |seen| ==> seen[i].k in table.m && table.m[seen[i].k] == seen[i].v
    ensures forall k :: k in table.m ==> Elem(k, table.m[k]) in seen
    ensures forall i, j :: 0 <= i < j < |seen| ==> seen[i].k != seen[j].k
  {
    hide HashTable.Wired, Holds, Masking.IsPower2, Flat;
    seen := Walk(table);
    FlatIsMap(table.chains, table.Index, table.m);
  }
}
