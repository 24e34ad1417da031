/** What the cache does, as operations on its entries from hot to cold. */
module LruSpec {
  import opened Bytes
  import opened Links

  datatype Pair = Pair(k: Bytes, v: Bytes)

  function Weight(p: Pair): nat {
    |p.k| + |p.v|
  }

  function Total(es: seq<Pair>): nat {
    if es == [] then 0 else Weight(es[0]) + Total(es[1..])
  }

  /** Where the entry of a key is; the length if there is none. */
  function Place(es: seq<Pair>, k: Bytes): (i: nat)
    ensures i <= |es|
    ensures i < |es| ==> es[i].k == k
    ensures forall j :: 0 <= j < i ==> es[j].k != k
  {
    if es == [] || es[0].k == k then 0 else 1 + Place(es[1..], k)
  }

  ghost predicate KeysDistinct(es: seq<Pair>) {
    forall i, j :: 0 <= i < j < |es| ==> es[i].k != es[j].k
  }

  /** Entry `i` becomes the hottest. */
  ghost function Touch(es: seq<Pair>, i: nat): seq<Pair>
    requires i < |es|
  {
    [es[i]] + Without(es, i)
  }

  /** Evicts the coldest entries until at most `limit` bytes are left. */
  function AgeOut(es: seq<Pair>, limit: nat): (r: seq<Pair>)
    ensures r <= es && Total(r) <= limit
    decreases |es|
  {
    if Total(es) > limit then AgeOut(es[..|es| - 1], limit) else es
  }

  ghost function Put(es: seq<Pair>, p: Pair): seq<Pair> {
    var i := Place(es, p.k);
    if i < |es| then [p] + Without(es, i) else [p] + es
  }

  ghost function Get(es: seq<Pair>, k: Bytes): seq<Pair> {
    var i := Place(es, k);
    if i < |es| then Touch(es, i) else es
  }

  /** kv_lru::set: too large an element is not cached; a cache over its maximum is first halved. */
  ghost function Set(es: seq<Pair>, max: nat, maxElem: nat, p: Pair): seq<Pair> {
    if Weight(p) > maxElem then es
    else Put(if Total(es) > max then AgeOut(es, max / 2) else es, p)
  }

  lemma {:induction false} TotalConcat(a: seq<Pair>, b: seq<Pair>)
    ensures Total(a + b) == Total(a) + Total(b)
  {
    if a == [] {
      assert a + b == b;
    } else {
      assert (a + b)[1..] == a[1..] + b;
      TotalConcat(a[1..], b);
    }
  }

  lemma TotalWithout(es: seq<Pair>, i: nat)
    requires i < |es|
    ensures Total(Without(es, i)) == Total(es) - Weight(es[i])
  {
    TotalConcat(es[..i], es[i + 1..]);
    TotalConcat(es[..i], es[i..]);
    assert es == es[..i] + es[i..];
    assert es[i..][1..] == es[i + 1..];
  }

  lemma TotalCons(p: Pair, es: seq<Pair>)
    ensures Total([p] + es) == Weight(p) + Total(es)
  {
    assert ([p] + es)[1..] == es;
  }

  /** Ageing keeps the longest hot part that fits: one entry more would be too much. */
  lemma {:induction false} AgeOutLongest(es: seq<Pair>, limit: nat)
    ensures |AgeOut(es, limit)| < |es| ==> Total(es[..|AgeOut(es, limit)| + 1]) > limit
    decreases |es|
  {
    if Total(es) > limit {
      var es' := es[..|es| - 1];
      AgeOutLongest(es', limit);
      if |AgeOut(es', limit)| < |es'| {
        assert es'[..|AgeOut(es', limit)| + 1] == es[..|AgeOut(es', limit)| + 1];
      } else {
        assert es[..|es|] == es;
      }
    }
  }

  /** The cache never holds more than its maximum and one element. */
  lemma SetBound(es: seq<Pair>, max: nat, maxElem: nat, p: Pair)
    requires Total(es) <= max + maxElem
    ensures Total(Set(es, max, maxElem, p)) <= max + maxElem
  {
    if Weight(p) <= maxElem {
      var es1 := if Total(es) > max then AgeOut(es, max / 2) else es;
      var i := Place(es1, p.k);
      if i < |es1| {
        TotalWithout(es1, i);
        TotalCons(p, Without(es1, i));
      } else {
        TotalCons(p, es1);
      }
    }
  }

  lemma PutKeys(es: seq<Pair>, p: Pair)
    requires KeysDistinct(es)
    ensures KeysDistinct(Put(es, p))
    ensures p in Put(es, p)
    ensures forall q :: q in Put(es, p) && q != p ==> q in es && q.k != p.k
  {
    assert Put(es, p)[0] == p;
  }

  /** After a set that fits, the key has the new value; every other entry is one that was there before. */
  lemma SetKeys(es: seq<Pair>, max: nat, maxElem: nat, p: Pair)
    requires KeysDistinct(es)
    ensures KeysDistinct(Set(es, max, maxElem, p))
    ensures Weight(p) <= maxElem ==> p in Set(es, max, maxElem, p)
    ensures Weight(p) > maxElem ==> Set(es, max, maxElem, p) == es
    ensures forall q :: q in Set(es, max, maxElem, p) ==> q in es || (q == p && Weight(p) <= maxElem)
    ensures Weight(p) <= maxElem ==> forall q :: q in Set(es, max, maxElem, p) && q.k == p.k ==> q == p
  {
    if Weight(p) <= maxElem {
      var es1 := if Total(es) > max then AgeOut(es, max / 2) else es;
      assert KeysDistinct(es1);
      PutKeys(es1, p);
    }
  }

  lemma TouchSame(es: seq<Pair>, i: nat, q: Pair)
    requires i < |es|
    ensures q in Touch(es, i) <==> q in es
  {
    assert es == es[..i] + [es[i]] + es[i + 1..];
  }

  lemma TouchDistinct(es: seq<Pair>, i: nat)
    requires i < |es| && KeysDistinct(es)
    ensures KeysDistinct(Touch(es, i))
  {
  }

  lemma GetKeys(es: seq<Pair>, k: Bytes)
    requires KeysDistinct(es)
    ensures KeysDistinct(Get(es, k)) && Total(Get(es, k)) == Total(es)
    ensures forall q :: q in Get(es, k) <==> q in es
  {
    hide KeysDistinct, Total;
    var i := Place(es, k);
    if i < |es| {
      TotalWithout(es, i);
      TotalCons(es[i], Without(es, i));
      TouchDistinct(es, i);
      forall q ensures q in Touch(es, i) <==> q in es {
        TouchSame(es, i, q);
      }
    }
  }

  // ---------------------------------------------------------------- what stays, and in which order

  /** The entries of all keys but one, in their order. */
  function Others(es: seq<Pair>, k: Bytes): seq<Pair> {
    if es == [] then [] else (if es[0].k == k then [] else [es[0]]) + Others(es[1..], k)
  }

  lemma {:induction false} OthersAll(es: seq<Pair>, k: Bytes)
    requires forall j :: 0 <= j < |es| ==> es[j].k != k
    ensures Others(es, k) == es
  {
    if es != [] {
      OthersAll(es[1..], k);
    }
  }

  lemma {:induction false} OthersWithout(es: seq<Pair>, i: nat)
    requires KeysDistinct(es) && i < |es|
    ensures Others(es, es[i].k) == Without(es, i)
  {
    if i == 0 {
      OthersAll(es[1..], es[0].k);
    } else {
      OthersWithout(es[1..], i - 1);
      assert es[i].k == es[1..][i - 1].k && es[0].k != es[i].k;
      assert Without(es, i) == [es[0]] + Without(es[1..], i - 1);
    }
  }

  /** A get makes the entry of the key the first and keeps the others in their order; a miss changes nothing. */
  lemma GetRecency(es: seq<Pair>, k: Bytes)
    requires KeysDistinct(es)
    ensures var i := Place(es, k); Get(es, k) == if i < |es| then [es[i]] + Others(es, k) else es
  {
    if Place(es, k) < |es| {
      OthersWithout(es, Place(es, k));
    }
  }

  lemma PutFront(es: seq<Pair>, p: Pair)
    requires KeysDistinct(es)
    ensures Put(es, p) == [p] + Others(es, p.k)
  {
    var i := Place(es, p.k);
    if i < |es| {
      OthersWithout(es, i);
    } else {
      OthersAll(es, p.k);
    }
  }

  /** A set within the maximum keeps every other entry, in order, behind the new one. */
  lemma SetKeepsAll(es: seq<Pair>, max: nat, maxElem: nat, p: Pair)
    requires KeysDistinct(es) && Weight(p) <= maxElem && Total(es) <= max
    ensures Set(es, max, maxElem, p) == [p] + Others(es, p.k)
  {
    PutFront(es, p);
  }

  /** A set beyond the maximum keeps exactly the longest hot part of at most half of it. */
  lemma SetKeepsHot(es: seq<Pair>, max: nat, maxElem: nat, p: Pair, m: nat)
    requires KeysDistinct(es) && Weight(p) <= maxElem && Total(es) > max
    requires m <= |es| && Total(es[..m]) <= max / 2 && (m < |es| ==> Total(es[..m + 1]) > max / 2)
    ensures Set(es, max, maxElem, p) == [p] + Others(es[..m], p.k)
  {
    AgeOutIs(es, max / 2, m);
    PutFront(es[..m], p);
  }

  lemma TotalUp(es: seq<Pair>, a: nat, b: nat)
    requires a <= b <= |es|
    ensures Total(es[..a]) <= Total(es[..b])
  {
    TotalConcat(es[..a], es[a..b]);
    assert es[..b] == es[..a] + es[a..b];
  }

  lemma AgeOutIs(es: seq<Pair>, limit: nat, m: nat)
    requires m <= |es| && Total(es[..m]) <= limit && (m < |es| ==> Total(es[..m + 1]) > limit)
    ensures AgeOut(es, limit) == es[..m]
  {
    var j := |AgeOut(es, limit)|;
    AgeOutLongest(es, limit);
    assert AgeOut(es, limit) == es[..j];
    if j < m { TotalUp(es, j + 1, m); }
    if m < j { TotalUp(es, m + 1, j); }
  }
}
