/** The hash buckets of the cache: an array of llists that share nothing. */
module LruBuckets {
  import opened Links
  import opened LLists

  class Buckets<T> {
    var lists: seq<LList<T>>
    ghost var chains: seq<seq<T>>
    ghost var Repr: set<object>

    ghost predicate ListOk(b: nat)
      requires b < |lists|
      reads this, Repr
    {
      var l := lists[b];
      && l in Repr
      && (forall i :: 0 <= i < |l.nodes| ==> l.nodes[i] in Repr)
      && l.Valid()
      && b < |chains| && l.contents == chains[b]
    }

    ghost predicate Apart()
      reads this, Repr
    {
      && (forall b :: 0 <= b < |lists| ==> lists[b] in Repr)
      && (forall b, c :: 0 <= b < c < |lists| ==> lists[b] != lists[c])
      && (forall b, c, i :: 0 <= b < |lists| && 0 <= c < |lists| && b != c && 0 <= i < |lists[b].nodes| ==>
            lists[b].nodes[i] !in lists[c].nodes)
    }

    ghost predicate Valid()
      reads this, Repr
    {
      && this in Repr
      && |lists| == |chains|
      && Apart()
      && (forall b :: 0 <= b < |lists| ==> ListOk(b))
    }

    constructor (count: nat)
      ensures Valid() && fresh(Repr)
      ensures chains == seq(count, i => [])
    {
      var ls := MakeLists(count);
      lists := ls;
      ghost var objects: set<object> := set b | 0 <= b < |ls| :: ls[b];
      chains, Repr := seq(count, i => []), {this} + objects;
    }

    static method MakeLists(count: nat) returns (ls: seq<LList<T>>)
      ensures |ls| == count && Distinct(ls)
      ensures forall b :: 0 <= b < count ==> fresh(ls[b]) && ls[b].Valid() && ls[b].contents == [] && ls[b].nodes == []
    {
      ls := [];
      while |ls| < count
        invariant |ls| <= count && Distinct(ls)
        invariant forall b :: 0 <= b < |ls| ==>
                    fresh(ls[b]) && ls[b].Valid() && ls[b].contents == [] && ls[b].nodes == []
      {
        var l := new LList<T>();
        ls := ls + [l];
      }
    }

    method PushBack(b: nat, data: T)
      requires Valid() && b < |chains|
      modifies Repr
      ensures Valid() && fresh(Repr - old(Repr)) && old(Repr) <= Repr
      ensures chains == old(chains)[b := old(chains)[b] + [data]]
    {
      assert ListOk(b);
      var l := lists[b];
      l.PushBack(data);
      Repr := Repr + {l.nodes[|l.nodes| - 1]};
      chains := chains[b := l.contents];
      forall c | 0 <= c < |lists| ensures ListOk(c) { assert old(ListOk(c)); }
    }

    method Del(b: nat, n: LNode<T>, ghost i: nat)
      requires Valid() && b < |chains| && n == NodeAt(b, i)
      modifies Repr
      ensures Valid() && Repr == old(Repr) && i < |old(chains)[b]|
      ensures chains == old(chains)[b := Without(old(chains)[b], i)]
    {
      assert ListOk(b);
      var l := lists[b];
      l.Del(n, i);
      chains := chains[b := l.contents];
      forall c | 0 <= c < |lists| ensures ListOk(c) { assert old(ListOk(c)); }
    }

    ghost function NodeAt(b: nat, i: nat): LNode?<T>
      reads this, lists
    {
      if b < |lists| && i < |lists[b].nodes| then lists[b].nodes[i] else null
    }

    method First(b: nat) returns (n: LNode?<T>)
      requires Valid() && b < |chains|
      ensures n == NodeAt(b, 0) && (n == null <==> chains[b] == [])
    {
      assert ListOk(b);
      n := lists[b].first;
    }

    /** The data at a node and the node after it. */
    method Step(ghost b: nat, ghost i: nat, n: LNode<T>) returns (data: T, next: LNode?<T>)
      requires Valid() && b < |chains| && n == NodeAt(b, i)
      ensures i < |chains[b]| && data == chains[b][i]
      ensures next == NodeAt(b, i + 1) && (next == null <==> |chains[b]| == i + 1)
    {
      assert ListOk(b);
      data, next := n.data, n.next;
    }
  }
}

/** kv_lru: the cache of an index. */
module Lru {
  import opened Bytes
  import opened Links
  import opened LruBuckets
  import opened LruSpec

  class LruNode {
    const k: Bytes
    var v: Bytes
    var prev: LruNode?
    var next: LruNode?

    constructor (k: Bytes, v: Bytes)
      ensures this.k == k && this.v == v && prev == null && next == null
    {
      this.k, this.v, prev, next := k, v, null, null;
    }
  }

  /** The list from the hottest node to the coldest, linked through the nodes themselves. */
  class LruHead {
    var nodeCount: int
    var hot: LruNode?
    var cold: LruNode?
    ghost var order: seq<LruNode>

    ghost predicate Valid()
      reads this, order
    {
      && Distinct(order)
      && nodeCount == |order|
      && hot == (if order == [] then null else order[0])
      && cold == (if order == [] then null else order[|order| - 1])
      && (forall i {:trigger order[i].prev} :: 0 <= i < |order| ==>
            order[i].prev == if i == 0 then null else order[i - 1])
      && (forall i {:trigger order[i].next} :: 0 <= i < |order| ==>
            order[i].next == if i == |order| - 1 then null else order[i + 1])
    }

    constructor ()
      ensures Valid() && order == []
    {
      nodeCount, hot, cold, order := 0, null, null, [];
    }

    /** _lru_insert */
    method Insert(n: LruNode)
      requires Valid() && n !in order && n.prev == null
      modifies this, order`prev, order`next, n`next
      ensures Valid() && order == [n] + old(order)
    {
      if hot != null { hot.prev := n; }
      n.next := hot;
      hot := n;
      if cold == null { cold := n; }
      nodeCount := nodeCount + 1;
      order := [n] + order;
    }

    /** _lru_del */
    method Remove(n: LruNode, ghost i: nat)
      requires Valid() && i < |order| && order[i] == n
      modifies this, order`prev, order`next
      ensures Valid() && order == Without(old(order), i)
      ensures n.prev == null && n.next == null
    {
      var pre, nex := n.prev, n.next;
      assert hot == n <==> i == 0;
      assert cold == n <==> i == |order| - 1;
      if hot == n { hot := nex; }
      if cold == n { cold := pre; }
      if pre != null { pre.next := nex; }
      if nex != null { nex.prev := pre; }
      n.prev := null;
      n.next := null;
      nodeCount := nodeCount - 1;
      order := Without(order, i);
    }

    /** Takes node `i` out and puts it in front. */
    method MoveToHot(n: LruNode, ghost i: nat)
      requires Valid() && i < |order| && order[i] == n
      modifies this, order`prev, order`next
      ensures Valid() && order == [n] + Without(old(order), i)
    {
      assert n !in Without(order, i);
      hide Valid;
      Remove(n, i);
      Insert(n);
    }
  }

  /** The entries are the nodes' keys and values. */
  ghost predicate Mirrors(order: seq<LruNode>, entries: seq<Pair>)
    reads order`v
  {
    && |entries| == |order|
    && forall i {:trigger entries[i]} :: 0 <= i < |order| ==> entries[i] == Pair(order[i].k, order[i].v)
  }

  /** The buckets hold exactly the listed nodes, each once and under its hash. */
  ghost predicate Bucketed(chains: seq<seq<LruNode>>, order: seq<LruNode>, slot: Bytes -> nat) {
    && (forall b, j :: 0 <= b < |chains| && 0 <= j < |chains[b]| ==>
          chains[b][j] in order && slot(chains[b][j].k) == b)
    && (forall b :: 0 <= b < |chains| ==> Distinct(chains[b]))
    && (forall n :: n in order ==> slot(n.k) < |chains| && n in chains[slot(n.k)])
  }

  class KvLru {
    const hash: Bytes -> int
    const bucketCount: nat
    const maxSize: nat
    const maxElemSize: nat
    const tab: Buckets<LruNode>
    const lru: LruHead
    var size: int

    /** The cached pairs from hot to cold. */
    ghost var entries: seq<Pair>
    ghost var Repr: set<object>

    /** _lru_hash: the remainder of the absolute value. */
    function Slot(k: Bytes): nat {
      var h := hash(k);
      if bucketCount == 0 then 0 else if h > 0 then h % bucketCount else -1 * h % bucketCount
    }

    /** The lists are sound and the entries mirror the hot-to-cold list. */
    ghost predicate Listed()
      reads this, Repr
    {
      && this !in Repr && tab in Repr && lru in Repr && tab.Repr <= Repr
      && (forall i :: 0 <= i < |lru.order| ==> lru.order[i] in Repr && lru.order[i] !in tab.Repr)
      && lru !in tab.Repr
      && tab.Valid() && lru.Valid()
      && |tab.chains| == bucketCount > 0
      && |entries| == |lru.order|
      && Mirrors(lru.order, entries)
      && KeysDistinct(entries)
      && size == Total(entries)
    }

    ghost predicate Valid()
      reads this, Repr
    {
      Listed() && Bucketed(tab.chains, lru.order, Slot)
    }

    constructor (hash: Bytes -> int, bucketCount: nat, maxSize: nat, maxElemSize: nat)
      requires bucketCount > 0
      ensures Valid() && entries == []
      ensures fresh(Repr) && this !in Repr
      ensures this.hash == hash && this.bucketCount == bucketCount
      ensures this.maxSize == maxSize && this.maxElemSize == maxElemSize
    {
      this.hash, this.bucketCount, this.maxSize, this.maxElemSize := hash, bucketCount, maxSize, maxElemSize;
      var t := new Buckets<LruNode>(bucketCount);
      var l := new LruHead();
      tab, lru, size, entries := t, l, 0, [];
      Repr := {t, l} + t.Repr;
    }

    /** The scan of one bucket: the node of the key, if there is one. */
    method FindNode(k: Bytes) returns (node: LruNode?, ghost i: nat)
      requires Valid()
      ensures i == Place(entries, k) <= |lru.order|
      ensures node == if i < |entries| then lru.order[i] else null
    {
      i := Place(entries, k);
      var b := Slot(k);
      ghost var chain := tab.chains[b];
      var n := tab.First(b);
      ghost var j := 0;
      while n != null
        invariant n == tab.NodeAt(b, j) && j <= |chain| && (n == null <==> j == |chain|)
        invariant forall x :: 0 <= x < j ==> chain[x].k != k
        decreases |chain| - j
      {
        var ln, next := tab.Step(b, j, n);
        if |k| == |ln.k| && k == ln.k {
          HitIsPlaced(lru.order, entries, ln, k);
          return ln, i;
        }
        n := next;
        j := j + 1;
      }
      node := null;
    }

    static lemma HitIsPlaced(order: seq<LruNode>, entries: seq<Pair>, n: LruNode, k: Bytes)
      requires Mirrors(order, entries) && KeysDistinct(entries) && n in order && n.k == k
      ensures Place(entries, k) < |order| && order[Place(entries, k)] == n
    {
      var i :| 0 <= i < |order| && order[i] == n;
      assert entries[i] == Pair(order[i].k, order[i].v);
    }

    /** _lru_del and _lru_insert of one node: it becomes the hottest. */
    method Promote(n: LruNode, ghost i: nat)
      requires Valid() && i == Place(entries, n.k) < |lru.order| && lru.order[i] == n
      modifies this, Repr
      ensures Valid() && lru.order == [n] + Without(old(lru.order), i)
      ensures entries == Touch(old(entries), i) && Repr == old(Repr)
    {
      hide Bucketed, Total, KeysDistinct, LruHead.Valid, Buckets.Valid, Mirrors;
      ghost var order, es := lru.order, entries;
      GetKeys(es, n.k);
      Reordered(order, i);
      BucketedSame(tab.chains, order, [n] + Without(order, i), Slot);
      lru.MoveToHot(n, i);
      size := size - |n.k| - |n.v|;
      size := size + |n.k| + |n.v|;
      entries := Touch(es, i);
      MirrorsTouch(order, es, i);
    }

    static lemma MirrorsTouch(order: seq<LruNode>, es: seq<Pair>, i: nat)
      requires Mirrors(order, es) && i < |order|
      ensures Mirrors([order[i]] + Without(order, i), Touch(es, i))
    {
      var order', es' := [order[i]] + Without(order, i), Touch(es, i);
      forall j {:trigger es'[j]} | 0 <= j < |order'| ensures es'[j] == Pair(order'[j].k, order'[j].v) {
        var j0 := if j == 0 then i else if j <= i then j - 1 else j;
        assert order'[j] == order[j0] && es'[j] == es[j0];
      }
    }

    static lemma Reordered<T>(s: seq<T>, i: nat)
      requires i < |s|
      ensures forall x :: x in [s[i]] + Without(s, i) <==> x in s
    {
      forall x | x in s ensures x in [s[i]] + Without(s, i) {
        var j :| 0 <= j < |s| && s[j] == x;
        assert j != i ==> Without(s, i)[if j < i then j else j - 1] == x;
      }
    }

    static lemma BucketedSame(chains: seq<seq<LruNode>>, order: seq<LruNode>, order': seq<LruNode>, slot: Bytes -> nat)
      requires Bucketed(chains, order, slot) && forall n :: n in order' <==> n in order
      ensures Bucketed(chains, order', slot)
    {
    }

    /** _get of a node: a hit becomes the hottest entry. */
    method GetNode(k: Bytes) returns (node: LruNode?)
      requires Valid()
      modifies this, Repr
      ensures Valid() && entries == LruSpec.Get(old(entries), k)
      ensures Repr == old(Repr)
      ensures if Place(old(entries), k) < |old(entries)| then lru.order != [] && node == lru.order[0] else node == null
    {
      ghost var i;
      node, i := FindNode(k);
      if node != null {
        Promote(node, i);
      }
    }

    /** get: the value of a cached key, or null. */
    method Get(k: Bytes) returns (v: array?<byte>)
      requires Valid()
      modifies this, Repr
      ensures Valid() && entries == LruSpec.Get(old(entries), k)
      ensures Repr == old(Repr)
      ensures var i := Place(old(entries), k);
              if i < |old(entries)| then v != null && fresh(v) && v[..] == old(entries)[i].v else v == null
    {
      var node := GetNode(k);
      if node == null { return null; }
      assert entries[0] == Pair(lru.order[0].k, lru.order[0].v);
      var value := node.v;
      v := new byte[|value|](i requires 0 <= i < |value| => value[i]);
    }

    // ---------------------------------------------------------------- set

    /** _lru_insert of a node with a new key. */
    method InsertHot(n: LruNode)
      requires Listed() && n !in Repr && n !in lru.order && n.prev == null && Place(entries, n.k) == |entries|
      modifies this, lru, lru.order`prev, lru.order`next, n`next
      ensures Listed() && Repr == old(Repr) + {n} && lru.order == [n] + old(lru.order)
      ensures entries == [Pair(n.k, n.v)] + old(entries)
    {
      hide Total, LruHead.Valid, Buckets.Valid, Mirrors;
      ghost var order, es := lru.order, entries;
      lru.Insert(n);
      size := size + |n.k| + |n.v|;
      MirrorsCons(n, order, es);
      TotalCons(Pair(n.k, n.v), es);
      entries := [Pair(n.k, n.v)] + es;
      Repr := Repr + {n};
    }

    /** A new node in front of the list and at the end of its bucket. */
    method AddNode(k: Bytes, v: Bytes)
      requires Valid() && Place(entries, k) == |entries|
      modifies this, Repr
      ensures Valid() && fresh(Repr - old(Repr)) && old(Repr) <= Repr
      ensures entries == [Pair(k, v)] + old(entries)
    {
      hide Bucketed, Total, LruHead.Valid, Buckets.Valid, KeysDistinct, Mirrors;
      ghost var order, chains := lru.order, tab.chains;
      var n := new LruNode(k, v);
      InsertHot(n);
      assert Slot(k) < bucketCount;
      tab.PushBack(Slot(k), n);
      BucketedAdd(chains, order, n, Slot);
      Repr := Repr + tab.Repr;
    }

    static lemma MirrorsCons(n: LruNode, order: seq<LruNode>, es: seq<Pair>)
      requires Mirrors(order, es)
      ensures Mirrors([n] + order, [Pair(n.k, n.v)] + es)
    {
      var order', es' := [n] + order, [Pair(n.k, n.v)] + es;
      forall j {:trigger es'[j]} | 0 <= j < |order'| ensures es'[j] == Pair(order'[j].k, order'[j].v) {
        assert j > 0 ==> order'[j] == order[j - 1] && es'[j] == es[j - 1];
      }
    }

    static lemma BucketedAdd(chains: seq<seq<LruNode>>, order: seq<LruNode>, n: LruNode, slot: Bytes -> nat)
      requires Bucketed(chains, order, slot) && n !in order && slot(n.k) < |chains|
      ensures var b := slot(n.k); Bucketed(chains[b := chains[b] + [n]], [n] + order, slot)
    {
      var b := slot(n.k);
      var chains' := chains[b := chains[b] + [n]];
      forall x | x in [n] + order ensures slot(x.k) < |chains'| && x in chains'[slot(x.k)] {
        if x == n { assert chains'[b][|chains[b]|] == n; }
      }
      forall c, i, j | 0 <= c < |chains'| && 0 <= i < j < |chains'[c]| ensures chains'[c][i] != chains'[c][j] {
        assert i < |chains[c]| ==> chains[c][i] in order;
      }
    }

    /** _set: a hit gets the new value, a miss a new node. */
    method SetNode(k: Bytes, v: Bytes)
      requires Valid()
      modifies this, Repr
      ensures Valid() && fresh(Repr - old(Repr)) && old(Repr) <= Repr
      ensures entries == Put(old(entries), Pair(k, v))
    {
      hide Bucketed, LruHead.Valid, Buckets.Valid, Total, KeysDistinct;
      ghost var es := entries;
      var node := GetNode(k);
      if node == null {
        AddNode(k, v);
      } else {
        assert entries[0] == Pair(lru.order[0].k, lru.order[0].v);
        SetValue(node, v);
      }
      PutKeys(es, Pair(k, v));
    }

    /** Replaces the value of the hottest node. */
    method SetValue(node: LruNode, v: Bytes)
      requires Valid() && lru.order != [] && node == lru.order[0]
      modifies this`size, this`entries, node`v
      ensures Valid() && entries == [Pair(node.k, v)] + old(entries)[1..]
    {
      hide Bucketed, Total, Buckets.Valid;
      ghost var es := entries;
      assert es[0] == Pair(lru.order[0].k, lru.order[0].v);
      assert es == [es[0]] + es[1..];
      TotalCons(es[0], es[1..]);
      TotalCons(Pair(node.k, v), es[1..]);
      size := size - |node.v| + |v|;
      node.v := v;
      entries := [Pair(node.k, v)] + es[1..];
      forall j {:trigger entries[j]} | 0 <= j < |lru.order| ensures entries[j] == Pair(lru.order[j].k, lru.order[j].v) {
        assert j > 0 ==> entries[j] == es[j];
      }
    }

    // ---------------------------------------------------------------- eviction

    /** _del of the coldest node. */
    method EvictCold()
      requires Valid() && entries != []
      modifies this, Repr
      ensures Valid() && Repr == old(Repr)
      ensures entries == old(entries)[..|old(entries)| - 1]
    {
      ghost var order := lru.order;
      assert Distinct(order);
      hide Total, LruHead.Valid, Buckets.Valid, KeysDistinct, Mirrors, Bucketed, Distinct;
      var n := RemoveCold();
      DropFromBucket(n, order);
    }

    /** Finds a node that was taken out of the list in its bucket, and takes it out there. */
    method DropFromBucket(n: LruNode, ghost order: seq<LruNode>)
      requires Listed() && Bucketed(tab.chains, order, Slot) && Distinct(order)
      requires order != [] && n == order[|order| - 1] && lru.order == order[..|order| - 1]
      modifies tab.Repr
      ensures Valid()
    {
      hide Total, LruHead.Valid, Buckets.Valid, KeysDistinct, Mirrors, Bucketed, Distinct;
      var b := Slot(n.k);
      ghost var chain := tab.chains[b];
      InBucket(tab.chains, order, |order| - 1, Slot);
      var ln := tab.First(b);
      ghost var j := 0;
      while ln != null
        invariant Listed() && tab.chains == old(tab.chains) && tab.Repr == old(tab.Repr)
        invariant ln == tab.NodeAt(b, j) && j <= |chain| && (ln == null <==> j == |chain|)
        invariant forall x :: 0 <= x < j ==> chain[x] != n
        decreases |chain| - j
      {
        var data, next := tab.Step(b, j, ln);
        if data == n {
          BucketedDel(tab.chains, order, b, j, Slot);
          tab.Del(b, ln, j);
          return;
        }
        ln := next;
        j := j + 1;
      }
    }

    /** _lru_del of the coldest node. */
    method RemoveCold() returns (n: LruNode)
      requires Valid() && entries != []
      modifies this, lru, lru.order`prev, lru.order`next
      ensures Listed() && Repr == old(Repr)
      ensures lru.order + [n] == old(lru.order)
      ensures entries + [Pair(n.k, n.v)] == old(entries)
    {
      ghost var i := |entries| - 1;
      n := lru.cold;
      ghost var order := lru.order;
      ColdFacts(order, entries);
      assert n == order[i];
      hide Total, LruHead.Valid, Buckets.Valid, Mirrors, KeysDistinct, Without;
      lru.Remove(n, i);
      size := size - |n.k| - |n.v|;
      entries := entries[..i];
    }

    static lemma ColdFacts(order: seq<LruNode>, es: seq<Pair>)
      requires Mirrors(order, es) && KeysDistinct(es) && es != []
      ensures var i := |es| - 1; var n := order[i];
              && Without(es, i) == es[..i] && Without(order, i) == order[..i]
              && es[i] == Pair(n.k, n.v)
              && Mirrors(order[..i], es[..i]) && KeysDistinct(es[..i]) && Total(es[..i]) == Total(es) - |n.k| - |n.v|
    {
      TotalWithout(es, |es| - 1);
    }

    static lemma InBucket(chains: seq<seq<LruNode>>, order: seq<LruNode>, i: nat, slot: Bytes -> nat)
      requires Bucketed(chains, order, slot) && i < |order|
      ensures slot(order[i].k) < |chains|
      ensures exists j :: 0 <= j < |chains[slot(order[i].k)]| && chains[slot(order[i].k)][j] == order[i]
    {
      assert order[i] in order;
    }

    static lemma BucketedDel(chains: seq<seq<LruNode>>, order: seq<LruNode>, b: nat, j: nat, slot: Bytes -> nat)
      requires Bucketed(chains, order, slot) && Distinct(order) && order != []
      requires b < |chains| && j < |chains[b]| && chains[b][j] == order[|order| - 1]
      ensures Bucketed(chains[b := Without(chains[b], j)], order[..|order| - 1], slot)
    {
      var n, order' := order[|order| - 1], order[..|order| - 1];
      var chains' := chains[b := Without(chains[b], j)];
      forall x | x in order' ensures slot(x.k) < |chains'| && x in chains'[slot(x.k)] {
        assert x in order && x != n;
        var y :| 0 <= y < |chains[slot(x.k)]| && chains[slot(x.k)][y] == x;
        if slot(x.k) == b {
          assert chains'[b][if y < j then y else y - 1] == x;
        }
      }
      forall c, y | 0 <= c < |chains'| && 0 <= y < |chains'[c]|
        ensures chains'[c][y] in order' && slot(chains'[c][y].k) == c
      {
        var y0 := if c == b && y >= j then y + 1 else y;
        assert chains[c][y0] == chains'[c][y] && chains[c][y0] in order && slot(chains[c][y0].k) == c;
        assert chains'[c][y] != n;
      }
    }

    /** _ageout: down to half the maximum, coldest first. */
    method AgeOut()
      requires Valid()
      modifies this, Repr
      ensures Valid() && Repr == old(Repr)
      ensures entries == LruSpec.AgeOut(old(entries), maxSize / 2)
    {
      ghost var es := entries;
      while size > maxSize / 2
        invariant Valid() && Repr == old(Repr)
        invariant LruSpec.AgeOut(entries, maxSize / 2) == LruSpec.AgeOut(es, maxSize / 2)
        decreases |entries|
      {
        EvictCold();
      }
    }

    /** set */
    method Set(k: Bytes, v: Bytes)
      requires Valid()
      modifies this, Repr
      ensures Valid() && fresh(Repr - old(Repr)) && old(Repr) <= Repr
      ensures entries == LruSpec.Set(old(entries), maxSize, maxElemSize, Pair(k, v))
      ensures old(size) <= maxSize + maxElemSize ==> size <= maxSize + maxElemSize
    {
      hide Bucketed, Total, Put, LruHead.Valid, Buckets.Valid, Mirrors, KeysDistinct;
      if size <= maxSize + maxElemSize {
        SetBound(entries, maxSize, maxElemSize, Pair(k, v));
      }
      if |k| + |v| > maxElemSize { return; }
      if size > maxSize { AgeOut(); }
      SetNode(k, v);
    }
  }
}
