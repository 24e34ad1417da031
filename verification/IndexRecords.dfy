/** A search from the root finds every record of the tree, and nothing else. */
module IndexRecords {
  import opened NodeCodec
  import opened KeyOrder
  import opened IndexTree
  import opened IndexOrder

  const EVERYTHING := Bounds(None, None)

  /** The record is too long for what is left of the node. */
  predicate TooLong(nd: Node, key: Key) {
    FreeSpace(nd) < |key|
  }

  /** Keys of any length: what went to the right child did not fit the node. */
  ghost predicate NodeSearchable(t: Tree, n: nat)
    requires n in t
  {
    && n <= MAX_INT
    && Sorted(t[n].entries)
    && (forall i :: 0 <= i <= |t[n].entries| && Slot(t[n], i) != 0 ==>
          Slot(t[n], i) in t && n < Slot(t[n], i) <= MAX_INT)
    && (forall m, j :: t[n].right != 0 && Beneath(t, t[n].right, m) && m in t && 0 <= j < |t[m].entries| ==>
          TooLong(t[n], t[m].entries[j].key))
  }

  ghost predicate Searchable(t: Tree, bd: BoundsMap) {
    && ROOT in t
    && Ordered(t, bd)
    && bd[ROOT] == EVERYTHING
    && (forall n :: n in t ==> NodeSearchable(t, n))
  }

  /** With one key length the tree invariant is all it takes. */
  lemma UniformSearchable(t: Tree, bd: BoundsMap, keyLen: nat)
    requires TreeOk(t, keyLen) && Ordered(t, bd) && bd[ROOT] == EVERYTHING
    ensures Searchable(t, bd)
  {
    hide FreeSpace, HasParent, Sorted, Beneath;
    forall n | n in t ensures NodeSearchable(t, n) {
      assert InTree(t, keyLen, n);
      forall i | 0 <= i <= |t[n].entries| && Slot(t[n], i) != 0
        ensures Slot(t[n], i) in t && n < Slot(t[n], i) <= MAX_INT
      {
        assert SlotOk(t, n, i) && InTree(t, keyLen, Slot(t[n], i));
      }
      forall m, j | t[n].right != 0 && m in t && 0 <= j < |t[m].entries| ensures TooLong(t[n], t[m].entries[j].key) {
        assert InTree(t, keyLen, m);
      }
    }
  }

  /** A key within the bounds of a slot, and too long for the node in the case of the last one, is placed there. */
  lemma SlotPlace(nd: Node, b: Bounds, i: nat, key: Key)
    requires Sorted(nd.entries) && i <= |nd.entries| && Within(SlotBounds(nd, b, i), key)
    requires i == |nd.entries| ==> TooLong(nd, key)
    ensures PlaceOf(nd, key) == if i < |nd.entries| then Below(i) else Full
  {
    var es := nd.entries;
    forall j | 0 <= j < |es|
      ensures if j < i then Less(es[j].key, key) else Less(key, es[j].key)
      ensures es[j].key != key
    {
      LessTotal(key, es[j].key);
      if j < i - 1 {
        LessTransitive(es[j].key, es[i - 1].key, key);
      } else if j > i {
        LessTransitive(key, es[i].key, es[j].key);
      }
      LessTotal(key, key);
    }
    if i < |es| {
      forall j | 0 <= j < |es| && Less(key, es[j].key) ensures !Less(es[j].key, es[i].key) {
        LessTotal(es[j].key, key);
        LessTotal(es[i].key, es[j].key);
      }
      PlaceUnique(nd, key, Below(i));
    } else {
      PlaceUnique(nd, key, Full);
    }
  }

  /** A record is found where it is. */
  lemma MatchPlace(nd: Node, j: nat)
    requires Sorted(nd.entries) && j < |nd.entries|
    ensures PlaceOf(nd, nd.entries[j].key) == Match(j)
  {
    PlaceUnique(nd, nd.entries[j].key, Match(j));
  }

  /** From any node above it, a search for the key of a record finds that record. */
  lemma {:induction false} RecordFound(t: Tree, bd: BoundsMap, n: nat, m: nat, j: nat)
    requires Searchable(t, bd) && n in t && Beneath(t, n, m) && m in t && j < |t[m].entries|
    ensures Lookup(t, n, t[m].entries[j].key) == Some(t[m].entries[j].val)
    decreases MAX_INT - n
  {
    hide PlaceOf, Sorted, NodeBounded, TooLong;
    var key := t[m].entries[j].key;
    assert NodeSearchable(t, n);
    if m == n {
      MatchPlace(t[n], j);
    } else {
      var i := StepTowards(t, n, m);
      var c := Slot(t[n], i);
      SlotTakes(t, bd, n, i, m, j);
      RecordFound(t, bd, c, m, j);
      assert Lookup(t, n, key) == LookupChild(t, n, c, key);
    }
  }

  /** The slot a node lies below. */
  lemma StepTowards(t: Tree, n: nat, m: nat) returns (i: nat)
    requires Beneath(t, n, m) && m != n
    ensures n in t && i <= |t[n].entries| && n < Slot(t[n], i) <= MAX_INT && Beneath(t, Slot(t[n], i), m)
  {
    i :| 0 <= i <= |t[n].entries| && n < Slot(t[n], i) <= MAX_INT && Beneath(t, Slot(t[n], i), m);
  }

  /** The key of a record below a slot is placed at the slot. */
  lemma SlotTakes(t: Tree, bd: BoundsMap, n: nat, i: nat, m: nat, j: nat)
    requires Searchable(t, bd) && n in t && i <= |t[n].entries| && Slot(t[n], i) != 0
    requires Beneath(t, Slot(t[n], i), m) && m in t && j < |t[m].entries|
    ensures PlaceOf(t[n], t[m].entries[j].key) == if i < |t[n].entries| then Below(i) else Full
  {
    assert NodeSearchable(t, n) && NodeBounded(t, bd, n);
    SubtreeWithin(t, bd, Slot(t[n], i), m, j);
    SlotPlace(t[n], bd[n], i, t[m].entries[j].key);
  }

  /** What is found from a node lies within the node's bounds. */
  lemma {:induction false} LookupWithin(t: Tree, bd: BoundsMap, n: nat, key: Key)
    requires Ordered(t, bd) && n in t && Lookup(t, n, key).Some?
    ensures Within(bd[n], key)
    decreases MAX_INT - n
  {
    assert NodeBounded(t, bd, n);
    match PlaceOf(t[n], key)
    case Match(i) => MatchHasKey(t[n], key);
    case Below(i) => SlotWithin(t, bd, n, i, key);
    case Full => SlotWithin(t, bd, n, |t[n].entries|, key);
  }

  lemma MatchHasKey(nd: Node, key: Key)
    ensures PlaceOf(nd, key).Match? ==> nd.entries[PlaceOf(nd, key).i].key == key
  {
  }

  lemma SlotWithin(t: Tree, bd: BoundsMap, n: nat, i: nat, key: Key)
    requires Ordered(t, bd) && n in t && i <= |t[n].entries|
    requires LookupChild(t, n, Slot(t[n], i), key).Some?
    ensures Within(bd[n], key)
    ensures Slot(t[n], i) != 0 && Within(SlotBounds(t[n], bd[n], i), key)
    decreases MAX_INT - n, 0
  {
    assert NodeBounded(t, bd, n);
    LookupWithin(t, bd, Slot(t[n], i), key);
    WithinSlot(t[n], bd[n], i, key);
  }

  lemma {:induction false} BeneathTrans(t: Tree, x: nat, n: nat, m: nat)
    requires Beneath(t, x, n) && Beneath(t, n, m)
    ensures Beneath(t, x, m)
    decreases MAX_INT - x
  {
    if x != n {
      var i := StepTowards(t, x, n);
      BeneathTrans(t, Slot(t[x], i), n, m);
    }
  }

  lemma LinkBeneath(t: Tree, bd: BoundsMap, n: nat, i: nat, m: nat)
    requires Searchable(t, bd) && n in t && i <= |t[n].entries| && Slot(t[n], i) != 0
    requires Beneath(t, Slot(t[n], i), m)
    ensures Beneath(t, n, m)
  {
    assert NodeSearchable(t, n);
  }

  /** Every search that finds something finds a record below. */
  lemma {:induction false} FoundRecord(t: Tree, bd: BoundsMap, n: nat, key: Key) returns (m: nat, j: nat)
    requires Searchable(t, bd) && Lookup(t, n, key).Some?
    ensures n in t && Beneath(t, n, m) && m in t && j < |t[m].entries|
    ensures t[m].entries[j].key == key && t[m].entries[j].val == Lookup(t, n, key).value
    decreases MAX_INT - n
  {
    hide Ordered, NodeSearchable;
    match PlaceOf(t[n], key)
    case Match(i) => m, j := n, i;
    case Below(i) =>
      m, j := FoundRecord(t, bd, Slot(t[n], i), key);
      LinkBeneath(t, bd, n, i, m);
    case Full =>
      m, j := FoundRecord(t, bd, Slot(t[n], |t[n].entries|), key);
      LinkBeneath(t, bd, n, |t[n].entries|, m);
  }

  /**
   * A search for a key below node `n` comes to `n`, also in a tree `t'` that is
   * different there.
   */
  lemma {:induction false} SearchReaches(t: Tree, bd: BoundsMap, t': Tree, x: nat, n: nat, m: nat, j: nat)
    requires Searchable(t, bd) && x in t && Beneath(t, x, n) && Beneath(t, n, m) && m in t && j < |t[m].entries|
    requires forall y :: y in t && y != n ==> y in t' && t'[y] == t[y]
    ensures Lookup(t', x, t[m].entries[j].key) == Lookup(t', n, t[m].entries[j].key)
    decreases MAX_INT - x
  {
    hide PlaceOf, Ordered, NodeSearchable;
    if x != n {
      var i := StepTowards(t, x, n);
      var c := Slot(t[x], i);
      BeneathTrans(t, c, n, m);
      SlotTakes(t, bd, x, i, m, j);
      SearchReaches(t, bd, t', c, n, m, j);
      assert Lookup(t', x, t[m].entries[j].key) == LookupChild(t', x, c, t[m].entries[j].key);
    }
  }

  /** Every node of the tree is below the root. */
  lemma {:induction false} BelowRoot(t: Tree, keyLen: nat, n: nat)
    requires TreeOk(t, keyLen) && n in t
    ensures Beneath(t, ROOT, n)
    decreases n
  {
    hide NodeOk;
    assert InTree(t, keyLen, n);
    if n != ROOT {
      var p := t[n].parent;
      var i :| 0 <= i <= |t[p].entries| && Slot(t[p], i) == n;
      assert InTree(t, keyLen, p) && SlotOk(t, p, i);
      BelowRoot(t, keyLen, p);
      assert Beneath(t, n, n) && Beneath(t, p, n);
      BeneathTrans(t, ROOT, p, n);
    }
  }

  /** A search from the root finds every record of the tree. */
  lemma EveryRecordFound(t: Tree, bd: BoundsMap, keyLen: nat, n: nat, j: nat)
    requires TreeOk(t, keyLen) && Ordered(t, bd) && bd[ROOT] == EVERYTHING && n in t && j < |t[n].entries|
    ensures Beneath(t, ROOT, n)
    ensures Lookup(t, ROOT, t[n].entries[j].key) == Some(t[n].entries[j].val)
  {
    UniformSearchable(t, bd, keyLen);
    BelowRoot(t, keyLen, n);
    RecordFound(t, bd, ROOT, n, j);
  }

  /** No other record of the tree has the key of a record of the root. */
  lemma RootKeyOnce(t: Tree, bd: BoundsMap, keyLen: nat, i: nat, n: nat, j: nat)
    requires TreeOk(t, keyLen) && Ordered(t, bd) && bd[ROOT] == EVERYTHING
    requires i < |t[ROOT].entries| && n in t && j < |t[n].entries|
    requires t[n].entries[j].key == t[ROOT].entries[i].key
    ensures n == ROOT && j == i
  {
    UniformSearchable(t, bd, keyLen);
    assert NodeSearchable(t, ROOT);
    MatchPlace(t[ROOT], i);
    if n == ROOT {
      MatchPlace(t[ROOT], j);
    } else {
      BelowRoot(t, keyLen, n);
      var s := StepTowards(t, ROOT, n);
      SlotTakes(t, bd, ROOT, s, n, j);
    }
  }
}
