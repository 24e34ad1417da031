/** The search-tree order across nodes: every subtree keeps to the interval its slot allows. */
module IndexOrder {
  import opened NodeCodec
  import opened KeyOrder
  import opened IndexTree

  /** The open interval a subtree's keys lie in. */
  datatype Bounds = Bounds(lo: Option<Key>, hi: Option<Key>)

  type BoundsMap = map<nat, Bounds>

  predicate Within(b: Bounds, key: Key) {
    && (b.lo.Some? ==> Less(b.lo.value, key))
    && (b.hi.Some? ==> Less(key, b.hi.value))
  }

  /** Slot `i` of a node lies between the keys on either side of it. */
  function SlotBounds(nd: Node, b: Bounds, i: nat): Bounds
    requires i <= |nd.entries|
  {
    Bounds(if i == 0 then b.lo else Some(nd.entries[i - 1].key),
           if i == |nd.entries| then b.hi else Some(nd.entries[i].key))
  }

  ghost predicate NodeBounded(t: Tree, bd: BoundsMap, n: nat)
    requires n in t && n in bd
  {
    && (forall i :: 0 <= i < |t[n].entries| ==> Within(bd[n], t[n].entries[i].key))
    && (forall i :: 0 <= i <= |t[n].entries| && Slot(t[n], i) != 0 ==>
          Slot(t[n], i) in bd && bd[Slot(t[n], i)] == SlotBounds(t[n], bd[n], i))
  }

  ghost predicate Ordered(t: Tree, bd: BoundsMap) {
    && bd.Keys == t.Keys
    && (forall n :: n in t ==> NodeBounded(t, bd, n))
  }

  /** `m` is `n` or below it. */
  ghost predicate Beneath(t: Tree, n: nat, m: nat)
    decreases MAX_INT - n
  {
    && n in t
    && (m == n || exists i :: 0 <= i <= |t[n].entries| && n < Slot(t[n], i) <= MAX_INT && Beneath(t, Slot(t[n], i), m))
  }

  lemma WithinSlot(nd: Node, b: Bounds, i: nat, key: Key)
    requires i <= |nd.entries|
    requires forall j :: 0 <= j < |nd.entries| ==> Within(b, nd.entries[j].key)
    requires Within(SlotBounds(nd, b, i), key)
    ensures Within(b, key)
  {
    if i > 0 && b.lo.Some? {
      LessTransitive(b.lo.value, nd.entries[i - 1].key, key);
    }
    if i < |nd.entries| && b.hi.Some? {
      LessTransitive(key, nd.entries[i].key, b.hi.value);
    }
  }

  /** Every key below a slot lies strictly between the keys on either side of the slot. */
  lemma {:induction false} SubtreeWithin(t: Tree, bd: BoundsMap, n: nat, m: nat, i: nat)
    requires Ordered(t, bd) && Beneath(t, n, m) && m in t && i < |t[m].entries|
    ensures Within(bd[n], t[m].entries[i].key)
    decreases MAX_INT - n
  {
    assert NodeBounded(t, bd, n);
    if m != n {
      var j :| 0 <= j <= |t[n].entries| && n < Slot(t[n], j) <= MAX_INT && Beneath(t, Slot(t[n], j), m);
      SubtreeWithin(t, bd, Slot(t[n], j), m, i);
      WithinSlot(t[n], bd[n], j, t[m].entries[i].key);
    }
  }

  /** Following a key's place into a child keeps the key in bounds. */
  lemma DescendWithin(nd: Node, b: Bounds, key: Key)
    requires Sorted(nd.entries) && Within(b, key)
    ensures match PlaceOf(nd, key)
            case Below(i) => Within(SlotBounds(nd, b, i), key)
            case Full => Within(SlotBounds(nd, b, |nd.entries|), key)
            case _ => true
  {
    PlaceUnique(nd, key, PlaceOf(nd, key));
  }

  ghost function ChildBounds(t: Tree, bd: BoundsMap, n: nat, i: nat, c: nat): BoundsMap
    requires n in t && n in bd && i <= |t[n].entries|
  {
    bd[c := SlotBounds(t[n], bd[n], i)]
  }

  lemma AddChildBounded(t: Tree, bd: BoundsMap, n: nat, i: nat, c: nat, x: nat)
    requires n in t && n in bd && i <= |t[n].entries| && c !in t && c !in bd
    requires x in t && x in bd && NodeBounded(t, bd, x)
    requires forall j :: 0 <= j <= |t[x].entries| ==> SlotOk(t, x, j)
    ensures NodeBounded(AddChild(t, n, i, c), ChildBounds(t, bd, n, i, c), x)
  {
    var t', bd' := AddChild(t, n, i, c), ChildBounds(t, bd, n, i, c);
    forall j | 0 <= j <= |t'[x].entries| && Slot(t'[x], j) != 0
      ensures Slot(t'[x], j) in bd' && bd'[Slot(t'[x], j)] == SlotBounds(t'[x], bd'[x], j)
    {
      assert SlotOk(t, x, j);
      assert SlotBounds(t'[x], bd'[x], j) == SlotBounds(t[x], bd[x], j);
    }
  }

  lemma AddChildOrdered(t: Tree, bd: BoundsMap, keyLen: nat, n: nat, i: nat, c: nat)
    requires TreeOk(t, keyLen) && Ordered(t, bd) && Linkable(t, keyLen, n, i, c)
    ensures Ordered(AddChild(t, n, i, c), ChildBounds(t, bd, n, i, c))
  {
    hide NodeOk, FreeSpace, NodeBounded, SlotOk, HasParent;
    var t', bd' := AddChild(t, n, i, c), ChildBounds(t, bd, n, i, c);
    assert bd'.Keys == t'.Keys;
    forall x | x in t' && x != c ensures NodeBounded(t', bd', x) {
      assert NodeBounded(t, bd, x) && InTree(t, keyLen, x);
      AddChildBounded(t, bd, n, i, c, x);
    }
    EmptyBounded(t', bd', c);
  }

  lemma EmptyBounded(t: Tree, bd: BoundsMap, c: nat)
    requires c in t && c in bd && t[c].entries == [] && t[c].right == 0
    ensures NodeBounded(t, bd, c)
  {
  }

  lemma AddEntryOrdered(t: Tree, bd: BoundsMap, keyLen: nat, n: nat, e: Entry)
    requires Ordered(t, bd) && Appendable(t, keyLen, n, e) && Within(bd[n], e.key)
    ensures Ordered(AddEntry(t, n, e), bd)
  {
    var t' := AddEntry(t, n, e);
    assert bd.Keys == t'.Keys;
    AppendNodeOk(t[n], keyLen, e);
    forall x | x in t' ensures NodeBounded(t', bd, x) {
      assert NodeBounded(t, bd, x);
      forall j | 0 <= j <= |t'[x].entries| && Slot(t'[x], j) != 0
        ensures Slot(t'[x], j) in bd && bd[Slot(t'[x], j)] == SlotBounds(t'[x], bd[x], j)
      {
        assert Slot(t'[x], j) == Slot(t[x], j);
      }
    }
  }
}
