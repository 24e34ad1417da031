/** Deleting a key of the root. */
module IndexDelete {
  import opened Bytes
  import opened Page
  import opened HeapFile
  import opened HeapRows
  import opened HeapProofs
  import opened NodeCodec
  import opened KeyOrder
  import opened IndexTree
  import opened IndexOrder
  import opened IndexRecords
  import opened IndexStore
  import opened IndexState

  // ---------------------------------------------------------------- deleting

  function Erased(nd: Node, i: nat): Node
    requires i < |nd.entries|
  {
    nd.(entries := nd.entries[i := nd.entries[i].(val := NO_ROW)])
  }

  ghost function Erase(t: Tree, n: nat, i: nat): Tree
    requires n in t && i < |t[n].entries|
  {
    t[n := Erased(t[n], i)]
  }

  lemma ErasedSame(nd: Node, i: nat, key: Key)
    requires i < |nd.entries|
    ensures PlaceOf(Erased(nd, i), key) == PlaceOf(nd, key)
    ensures FreeSpace(Erased(nd, i)) == FreeSpace(nd)
    ensures forall j :: 0 <= j <= |nd.entries| ==> Slot(Erased(nd, i), j) == Slot(nd, j)
  {
    RankSame(nd.entries, Erased(nd, i).entries, key);
    PackSame(nd.entries, Erased(nd, i).entries);
  }

  /** Erasing a value changes only the lookup of its own key. */
  lemma {:induction false} EraseLookup(t: Tree, n: nat, i: nat, x: nat, key: Key)
    requires n in t && i < |t[n].entries| && x in t && key != t[n].entries[i].key
    ensures Lookup(Erase(t, n, i), x, key) == Lookup(t, x, key)
    decreases MAX_INT - x
  {
    hide PlaceOf;
    var t' := Erase(t, n, i);
    ErasedSame(t[n], i, key);
    assert PlaceOf(t'[x], key) == PlaceOf(t[x], key);
    match PlaceOf(t[x], key)
    case Match(j) =>
      PlaceMatches(t[x], key);
    case Tail =>
    case Below(j) =>
      var c := Slot(t[x], j);
      assert Slot(t'[x], j) == c;
      if x < c <= MAX_INT && c in t {
        EraseLookup(t, n, i, c, key);
      }
      assert LookupChild(t', x, c, key) == LookupChild(t, x, c, key);
    case Full =>
      var c := t[x].right;
      if x < c <= MAX_INT && c in t {
        EraseLookup(t, n, i, c, key);
      }
      assert LookupChild(t', x, c, key) == LookupChild(t, x, c, key);
  }

  lemma PlaceMatches(nd: Node, key: Key)
    ensures PlaceOf(nd, key).Match? ==> nd.entries[PlaceOf(nd, key).i].key == key
  {
  }

  lemma EraseTreeOk(t: Tree, keyLen: nat, n: nat, i: nat)
    requires TreeOk(t, keyLen) && n in t && i < |t[n].entries|
    ensures TreeOk(Erase(t, n, i), keyLen)
  {
    hide InTree;
    forall x | x in t ensures InTree(Erase(t, n, i), keyLen, x) {
      EraseInTree(t, keyLen, n, i, x);
    }
  }

  lemma ErasedNodeOk(nd: Node, i: nat, keyLen: nat)
    requires NodeOk(nd, keyLen) && i < |nd.entries|
    ensures NodeOk(Erased(nd, i), keyLen)
  {
    ErasedSame(nd, i, []);
  }

  lemma EraseInTree(t: Tree, keyLen: nat, n: nat, i: nat, x: nat)
    requires TreeOk(t, keyLen) && n in t && i < |t[n].entries| && x in t
    ensures InTree(Erase(t, n, i), keyLen, x)
  {
    var t' := Erase(t, n, i);
    assert InTree(t, keyLen, n) && InTree(t, keyLen, x);
    ErasedNodeOk(t[n], i, keyLen);
    ErasedSame(t[n], i, []);
    hide NodeOk, TreeOk, PlaceOf, FreeSpace;
    forall j | 0 <= j <= |t'[x].entries| ensures SlotOk(t', x, j) {
      assert SlotOk(t, x, j);
    }
    if x != ROOT {
      KeepsParent(t, t', x);
    }
  }

  lemma EraseOrdered(t: Tree, bd: BoundsMap, n: nat, i: nat)
    requires Ordered(t, bd) && n in t && i < |t[n].entries|
    ensures Ordered(Erase(t, n, i), bd)
  {
    var t' := Erase(t, n, i);
    assert bd.Keys == t'.Keys;
    forall x | x in t' ensures NodeBounded(t', bd, x) {
      assert NodeBounded(t, bd, x);
      forall j | 0 <= j <= |t'[x].entries| && Slot(t'[x], j) != 0
        ensures Slot(t'[x], j) in bd && bd[Slot(t'[x], j)] == SlotBounds(t'[x], bd[x], j)
      {
        assert Slot(t'[x], j) == Slot(t[x], j);
      }
    }
  }

  lemma EraseGrown(t: Tree, bd: BoundsMap, keyLen: nat, i: nat)
    requires Grown(t, bd, keyLen) && i < |t[ROOT].entries|
    ensures Grown(Erase(t, ROOT, i), bd, keyLen)
  {
    EraseTreeOk(t, keyLen, ROOT, i);
    EraseOrdered(t, bd, ROOT, i);
    hide TreeOk, Ordered;
  }

  /** _delete_row for the value of a key that is there. */
  lemma DeleteValueStored(f: File, roles: Roles, t: Tree, keyOf: KeyOf, id: RowId)
    requires Stored(f, roles, t, keyOf) && id in keyOf
    ensures IsRecord(f, id)
    ensures var (g, ok) := DeleteRow(f, id);
            && ok && Stored(g, roles, t, keyOf - {id})
            && ValuesKept(f, g, keyOf, id)
            && ReadRow(g, id) == Gone
            && IsRow(g, roles, id) && (forall n :: n in t ==> id != NodeRow(n))
  {
    hide PageOk, Represents, FileOk, LinkOk, Owned;
    assert ValueStored(f, roles, t, id);
    RowIsOwner(f, roles, id);
    DeleteOk(f, roles, id);
    var g := DeleteRow(f, id).0;
    StoredFrame(f, g, roles, roles, t, keyOf, id);
  }

  /** Saving a node leaves every other row as it reads, deleted ones too. */
  lemma SaveLeavesRow(f: File, roles: Roles, t: Tree, keyOf: KeyOf, n: nat, nd: Node, s: Bytes, x: RowId)
    requires Stored(f, roles, t, keyOf) && n in t && Represents(s, nd)
    requires IsRow(f, roles, x) && x != NodeRow(n)
    ensures IsBlock(f, n)
    ensures var h := ModifyRow(f, NodeRow(n), s).0; Valid(h) && IsRecord(h, x) && ReadRow(h, x) == ReadRow(f, x)
  {
    hide PageOk, NodeFits, HeadIs, FileOk, LinkOk, Owned;
    assert NodeStored(f, roles, n, t[n]) && |s| == NODE_LEN;
    hide Represents;
    SaveInPlace(f, roles, n, t[n], s);
    RowIsOwner(f, roles, NodeRow(n));
    RowIsOwner(f, roles, x);
    ModifyFrame(f, ModifyRow(f, NodeRow(n), s).0, roles, NodeRow(n), x);
  }

  /** The row is there and deleted. */
  ghost predicate RowGone(f: File, id: RowId)
    requires Valid(f)
  {
    IsRecord(f, id) && ReadRow(f, id) == Gone
  }

  ghost function EraseIndex(ix: Index, n: nat, i: nat): Index
    requires n in ix.tree && i < |ix.tree[n].entries|
  {
    ix.(tree := Erase(ix.tree, n, i), keyOf := ix.keyOf - {ix.tree[n].entries[i].val})
  }

  /** After a delete the key has no value, and every other key the one it had. */
  lemma EraseOk(f: File, ix: Index, g: File, h: File, keyLen: nat, i: nat, last: map<Key, Bytes>)
    requires IndexOk(f, ix, keyLen) && Filled(ix.tree) && Holds(f, ix, keyLen, last)
    requires ROOT in ix.tree && i < |ix.tree[ROOT].entries| && ix.tree[ROOT].entries[i].val in ix.keyOf
    requires Valid(g) && ValuesKept(f, g, ix.keyOf, ix.tree[ROOT].entries[i].val)
    requires Stored(h, ix.roles, Erase(ix.tree, ROOT, i), EraseIndex(ix, ROOT, i).keyOf)
    requires ValuesKept(g, h, EraseIndex(ix, ROOT, i).keyOf, NO_ROW)
    ensures IndexOk(h, EraseIndex(ix, ROOT, i), keyLen) && Filled(EraseIndex(ix, ROOT, i).tree)
    ensures Holds(h, EraseIndex(ix, ROOT, i), keyLen, last - {ix.tree[ROOT].entries[i].key})
  {
    hide PageOk, FileOk, LinkOk, Owned, NodeStored, ValueStored, TreeOk, Ordered, Found;
    var e, ix' := ix.tree[ROOT].entries[i], EraseIndex(ix, ROOT, i);
    EraseShaped(f, ix, keyLen, i);
    hide Shaped, LiveBelow, NodeKnown;
    forall k: Key | |k| == keyLen ensures Answer(h, ix', last - {e.key}, k) {
      assert Answer(f, ix, last, k);
      if k == e.key {
        EraseHides(ix.tree, keyLen, ROOT, i);
      } else {
        EraseLookup(ix.tree, ROOT, i, ROOT, k);
        if k in last {
          EraseKeeps(f, ix, g, h, keyLen, i, k, last[k]);
        }
      }
    }
  }

  lemma EraseShaped(f: File, ix: Index, keyLen: nat, i: nat)
    requires IndexOk(f, ix, keyLen) && Filled(ix.tree)
    requires ROOT in ix.tree && i < |ix.tree[ROOT].entries| && ix.tree[ROOT].entries[i].val in ix.keyOf
    ensures Shaped(EraseIndex(ix, ROOT, i), keyLen) && Filled(EraseIndex(ix, ROOT, i).tree)
    ensures TreeOk(ix.tree, keyLen) && EntryKnown(ix.keyOf, ix.tree[ROOT].entries[i])
  {
    hide PageOk, FileOk, LinkOk, Owned, NodeStored, Stored, TreeOk, Ordered;
    NoNullRow(f, ix, keyLen);
    EraseGrown(ix.tree, ix.bounds, keyLen, i);
    assert NodeKnown(ix.keyOf, ix.tree[ROOT]) && EntryKnown(ix.keyOf, ix.tree[ROOT].entries[i]);
    var ix' := EraseIndex(ix, ROOT, i);
    forall n | n in ix'.tree ensures NodeKnown(ix'.keyOf, ix'.tree[n]) {
      EraseKnown(ix, keyLen, i, n);
    }
  }

  lemma NoNullRow(f: File, ix: Index, keyLen: nat)
    requires IndexOk(f, ix, keyLen)
    ensures forall id :: id in ix.keyOf ==> id.block != 0
  {
    hide PageOk, FileOk, LinkOk, Owned, NodeStored, Shaped;
    forall id | id in ix.keyOf ensures id.block != 0 {
      assert ValueStored(f, ix.roles, ix.tree, id);
    }
  }

  /** No other record names the row of the erased one. */
  lemma EraseKnown(ix: Index, keyLen: nat, i: nat, n: nat)
    requires Shaped(ix, keyLen) && ROOT in ix.tree && i < |ix.tree[ROOT].entries| && n in ix.tree
    requires ix.tree[ROOT].entries[i].val in ix.keyOf && NO_ROW !in ix.keyOf
    ensures NodeKnown(EraseIndex(ix, ROOT, i).keyOf, EraseIndex(ix, ROOT, i).tree[n])
  {
    hide TreeOk, Ordered;
    var nd', keyOf' := EraseIndex(ix, ROOT, i).tree[n], EraseIndex(ix, ROOT, i).keyOf;
    assert NodeKnown(ix.keyOf, ix.tree[n]) && NodeKnown(ix.keyOf, ix.tree[ROOT]);
    assert EntryKnown(ix.keyOf, ix.tree[ROOT].entries[i]);
    forall j | 0 <= j < |nd'.entries| ensures EntryKnown(keyOf', nd'.entries[j]) {
      assert EntryKnown(ix.keyOf, ix.tree[n].entries[j]);
      if ix.tree[n].entries[j].val == ix.tree[ROOT].entries[i].val {
        RootKeyOnce(ix.tree, ix.bounds, keyLen, i, n, j);
      }
    }
  }

  /** The node has a value for the key. */
  ghost predicate HasKey(nd: Node, key: Key) {
    exists i :: 0 <= i < |nd.entries| && nd.entries[i].key == key && nd.entries[i].val != NO_ROW
  }

  /** What the record at a key's place says about the key. */
  lemma DelStep(f: File, ix: Index, keyLen: nat, key: Key, place: Place)
    requires IndexOk(f, ix, keyLen) && IsPlace(ix.tree[ROOT], key, place)
    ensures HasKey(ix.tree[ROOT], key) <==> place.Match? && ix.tree[ROOT].entries[place.i].val.block != 0
    ensures HasKey(ix.tree[ROOT], key) ==>
              var id := ix.tree[ROOT].entries[place.i].val; id in ix.keyOf && ix.keyOf[id] == key
    ensures forall j :: 0 <= j < |ix.tree[ROOT].entries| && ix.tree[ROOT].entries[j].key == key ==> place == Match(j)
  {
    hide PageOk, FileOk, LinkOk, Owned, Stored, HasParent, SlotOk, Ordered, LiveBelow;
    NoNullRow(f, ix, keyLen);
    var nd := ix.tree[ROOT];
    assert InTree(ix.tree, keyLen, ROOT);
    LessTotal(key, key);
    PlaceUnique(nd, key, place);
    forall j | 0 <= j < |nd.entries| && nd.entries[j].key == key ensures place == Match(j) {
      PlaceUnique(nd, key, Match(j));
    }
    if place.Match? {
      assert NodeKnown(ix.keyOf, nd) && EntryKnown(ix.keyOf, nd.entries[place.i]);
    }
  }

  lemma EraseHides(t: Tree, keyLen: nat, n: nat, i: nat)
    requires TreeOk(t, keyLen) && n in t && i < |t[n].entries|
    ensures Lookup(Erase(t, n, i), n, t[n].entries[i].key) == Some(NO_ROW)
  {
    var key := t[n].entries[i].key;
    assert InTree(t, keyLen, n);
    PlaceUnique(t[n], key, Match(i));
    ErasedSame(t[n], i, key);
  }

  lemma EraseKeeps(f: File, ix: Index, g: File, h: File, keyLen: nat, i: nat, k: Key, value: Bytes)
    requires IndexOk(f, ix, keyLen)
    requires ROOT in ix.tree && i < |ix.tree[ROOT].entries| && ix.tree[ROOT].entries[i].val in ix.keyOf
    requires ix.keyOf[ix.tree[ROOT].entries[i].val] == ix.tree[ROOT].entries[i].key != k
    requires Valid(g) && ValuesKept(f, g, ix.keyOf, ix.tree[ROOT].entries[i].val)
    requires Valid(h) && ValuesKept(g, h, EraseIndex(ix, ROOT, i).keyOf, NO_ROW)
    requires Lookup(EraseIndex(ix, ROOT, i).tree, ROOT, k) == Lookup(ix.tree, ROOT, k)
    requires Found(f, ix, ROOT, k, value)
    ensures Found(h, EraseIndex(ix, ROOT, i), ROOT, k, value)
  {
    hide PageOk, FileOk, LinkOk, Owned, NodeStored, TreeOk, Ordered, LiveBelow;
    var id := Lookup(ix.tree, ROOT, k).value;
    var m, j := LookupFinds(ix.tree, ROOT, k);
    assert NodeKnown(ix.keyOf, ix.tree[m]) && EntryKnown(ix.keyOf, ix.tree[m].entries[j]);
    assert ix.keyOf[id] == k;
    assert ValueStored(f, ix.roles, ix.tree, id);
  }
}
