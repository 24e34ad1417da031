/** The search tree of index nodes, as the map from node block to node. */
module IndexTree {
  import opened Page
  import opened NodeCodec
  import opened KeyOrder

  datatype Option<T> = None | Some(value: T)

  type Tree = map<nat, Node>

  const ROOT: nat := 2

  // ---------------------------------------------------------------- one node

  /** _node_free_space: the key bytes a further record may have. */
  function FreeSpace(nd: Node): int {
    NODE_LEN - INFO_LEN - TailAt(nd)
  }

  /** The free space is what the key of a further record can have. */
  lemma FreeSpaceExact(nd: Node, e: Entry)
    ensures var es := nd.entries + [e];
            Offset(es, |es|) <= NODE_LEN <==> |e.key| <= FreeSpace(nd)
  {
    var es := nd.entries + [e];
    assert es[..|es|] == es && es[..|es| - 1] == nd.entries;
  }

  ghost predicate Sorted(es: seq<Entry>) {
    forall i, j :: 0 <= i < j < |es| ==> Less(es[i].key, es[j].key)
  }

  /** How many leading records have a smaller key. */
  function Rank(es: seq<Entry>, key: Key): (r: nat)
    ensures r <= |es|
    ensures forall j :: 0 <= j < r ==> Less(es[j].key, key)
    ensures r < |es| ==> !Less(es[r].key, key)
  {
    if es == [] || !Less(es[0].key, key) then 0 else 1 + Rank(es[1..], key)
  }

  /** Where a key belongs in a node. */
  datatype Place =
    | Match(i: nat)  // record i has the key
    | Below(i: nat)  // record i has the least greater key
    | Tail           // greater than all keys, and a record fits
    | Full           // greater than all keys, and no record fits

  ghost predicate IsPlace(nd: Node, key: Key, p: Place) {
    var es := nd.entries;
    match p
    case Match(i) => i < |es| && es[i].key == key
    case Below(i) =>
      && i < |es| && Less(key, es[i].key)
      && (forall j :: 0 <= j < |es| ==> es[j].key != key)
      && (forall j :: 0 <= j < |es| && Less(key, es[j].key) ==> !Less(es[j].key, es[i].key))
    case Tail => (forall j :: 0 <= j < |es| ==> Less(es[j].key, key)) && FreeSpace(nd) >= |key|
    case Full => (forall j :: 0 <= j < |es| ==> Less(es[j].key, key)) && FreeSpace(nd) < |key|
  }

  /** A key greater than all others goes to the tail exactly when its record ends inside the node. */
  lemma TailExact(nd: Node, e: Entry)
    requires forall j :: 0 <= j < |nd.entries| ==> Less(nd.entries[j].key, e.key)
    ensures var es := nd.entries + [e];
            IsPlace(nd, e.key, if Offset(es, |es|) <= NODE_LEN then Tail else Full)
            && !IsPlace(nd, e.key, if Offset(es, |es|) <= NODE_LEN then Full else Tail)
  {
    FreeSpaceExact(nd, e);
  }

  /** In a sorted node the place is found by counting smaller keys. */
  function PlaceOf(nd: Node, key: Key): (p: Place)
    ensures p.Match? || p.Below? ==> p.i < |nd.entries|
  {
    var r := Rank(nd.entries, key);
    if r < |nd.entries| then
      (if nd.entries[r].key == key then Match(r) else Below(r))
    else if FreeSpace(nd) >= |key| then Tail else Full
  }

  lemma PlaceUnique(nd: Node, key: Key, p: Place)
    requires Sorted(nd.entries)
    ensures IsPlace(nd, key, p) <==> p == PlaceOf(nd, key)
  {
    var es, r := nd.entries, Rank(nd.entries, key);
    forall j | 0 <= j < |es|
      ensures CmpKey(es[j].key, key) == 0 <==> es[j].key == key
      ensures Less(key, es[j].key) <==> CmpKey(es[j].key, key) > 0
      ensures j > r ==> Less(key, es[j].key)
    {
      LessTotal(es[j].key, key);
      if j > r {
        LessTotal(es[r].key, key);
        if Less(key, es[r].key) {
          LessTransitive(key, es[r].key, es[j].key);
        }
      }
    }
    forall i, j | 0 <= i < |es| && 0 <= j < |es|
      ensures !Less(es[i].key, es[j].key) && !Less(es[j].key, es[i].key) ==> i == j
      ensures Less(es[i].key, es[j].key) ==> i < j
    {
      LessTotal(es[i].key, es[j].key);
    }
  }

  // ---------------------------------------------------------------- the tree

  /** Child slot `i`: the left child of record `i`, or the right child after the last record; 0 is none. */
  function Slot(nd: Node, i: nat): nat
    requires i <= |nd.entries|
  {
    if i < |nd.entries| then nd.entries[i].left else nd.right
  }

  function WithSlot(nd: Node, i: nat, c: nat): Node
    requires i <= |nd.entries|
  {
    if i < |nd.entries| then nd.(entries := nd.entries[i := nd.entries[i].(left := c)]) else nd.(right := c)
  }

  /** With one key length, a node has a right child only once it is full. */
  ghost predicate NodeOk(nd: Node, keyLen: nat) {
    && Sorted(nd.entries)
    && (forall i :: 0 <= i < |nd.entries| ==> |nd.entries[i].key| == keyLen)
    && (nd.right != 0 ==> FreeSpace(nd) < keyLen)
  }

  /** A child is a later node that records this one as its parent; no two slots share it. */
  ghost predicate SlotOk(t: Tree, n: nat, i: nat)
    requires n in t && i <= |t[n].entries|
  {
    var c := Slot(t[n], i);
    c != 0 ==>
      && c in t && n < c && t[c].parent == n
      && forall j :: 0 <= j <= |t[n].entries| && Slot(t[n], j) == c ==> j == i
  }

  ghost predicate HasParent(t: Tree, c: nat)
    requires c in t
  {
    var p := t[c].parent;
    p in t && exists i :: 0 <= i <= |t[p].entries| && Slot(t[p], i) == c
  }

  ghost predicate InTree(t: Tree, keyLen: nat, n: nat)
    requires n in t
  {
    && 2 <= n <= MAX_INT
    && t[n].block == n
    && NodeOk(t[n], keyLen)
    && (forall i :: 0 <= i <= |t[n].entries| ==> SlotOk(t, n, i))
    && (n != ROOT ==> HasParent(t, n))
  }

  ghost predicate TreeOk(t: Tree, keyLen: nat) {
    ROOT in t && forall n :: n in t ==> InTree(t, keyLen, n)
  }

  /** _find_key: the row that holds the value of `key`, as seen from node `n`. */
  ghost function Lookup(t: Tree, n: nat, key: Key): Option<RowId>
    decreases MAX_INT - n
  {
    if n !in t then None
    else
      match PlaceOf(t[n], key)
      case Match(i) => Some(t[n].entries[i].val)
      case Below(i) => LookupChild(t, n, t[n].entries[i].left, key)
      case Tail => None
      case Full => LookupChild(t, n, t[n].right, key)
  }

  ghost function LookupChild(t: Tree, n: nat, c: nat, key: Key): Option<RowId>
    decreases MAX_INT - n, 0
  {
    if n < c <= MAX_INT then Lookup(t, c, key) else None
  }

  // ---------------------------------------------------------------- growing the tree

  /** Node `n` gets a new, empty child in slot `i`. */
  ghost function AddChild(t: Tree, n: nat, i: nat, c: nat): Tree
    requires n in t && i <= |t[n].entries|
  {
    t[n := WithSlot(t[n], i, c)][c := Node(c, n, 0, [])]
  }

  ghost function AddEntry(t: Tree, n: nat, e: Entry): Tree
    requires n in t
  {
    t[n := t[n].(entries := t[n].entries + [e])]
  }

  lemma {:induction false} RankSame(es: seq<Entry>, es': seq<Entry>, key: Key)
    requires |es| == |es'| && forall i :: 0 <= i < |es| ==> es[i].key == es'[i].key
    ensures Rank(es, key) == Rank(es', key)
  {
    if es != [] {
      RankSame(es[1..], es'[1..], key);
    }
  }

  lemma {:induction false} PackSame(es: seq<Entry>, es': seq<Entry>)
    requires |es| == |es'| && forall i :: 0 <= i < |es| ==> es[i].key == es'[i].key
    ensures |Pack(es)| == |Pack(es')|
  {
    if es != [] {
      PackSame(es[..|es| - 1], es'[..|es| - 1]);
    }
  }

  /** A new child leaves the keys of its parent where they are. */
  lemma WithSlotOk(nd: Node, i: nat, c: nat, key: Key)
    requires i <= |nd.entries|
    ensures PlaceOf(WithSlot(nd, i, c), key) == PlaceOf(nd, key)
    ensures FreeSpace(WithSlot(nd, i, c)) == FreeSpace(nd)
  {
    RankSame(nd.entries, WithSlot(nd, i, c).entries, key);
    PackSame(nd.entries, WithSlot(nd, i, c).entries);
  }

  /** An empty child changes no lookup. */
  lemma {:induction false} AddChildLookup(t: Tree, n: nat, i: nat, c: nat, x: nat, key: Key)
    requires n in t && i <= |t[n].entries| && Slot(t[n], i) == 0 && c !in t && n < c <= MAX_INT
    requires x in t
    requires forall m :: m in t ==> forall j :: 0 <= j <= |t[m].entries| ==> Slot(t[m], j) != c
    ensures Lookup(AddChild(t, n, i, c), x, key) == Lookup(t, x, key)
    decreases MAX_INT - x
  {
    var t' := AddChild(t, n, i, c);
    WithSlotOk(t[n], i, c, key);
    assert PlaceOf(t'[x], key) == PlaceOf(t[x], key);
    match PlaceOf(t[x], key)
    case Match(j) =>
    case Tail =>
    case Below(j) => AddChildSlot(t, n, i, c, x, j, key);
    case Full => AddChildSlot(t, n, i, c, x, |t[x].entries|, key);
  }

  lemma {:induction false} AddChildSlot(t: Tree, n: nat, i: nat, c: nat, x: nat, j: nat, key: Key)
    requires n in t && i <= |t[n].entries| && Slot(t[n], i) == 0 && c !in t && n < c <= MAX_INT
    requires x in t && j <= |t[x].entries|
    requires forall m :: m in t ==> forall j :: 0 <= j <= |t[m].entries| ==> Slot(t[m], j) != c
    ensures LookupChild(AddChild(t, n, i, c), x, Slot(AddChild(t, n, i, c)[x], j), key)
         == LookupChild(t, x, Slot(t[x], j), key)
    decreases MAX_INT - x, 0
  {
    var t' := AddChild(t, n, i, c);
    var s := Slot(t[x], j);
    if x == n && j == i {
      assert Lookup(t', c, key) == None;
    } else if x < s <= MAX_INT && s in t {
      AddChildLookup(t, n, i, c, s, key);
    }
  }

  lemma {:induction false} RankAppend(es: seq<Entry>, e: Entry, key: Key)
    ensures Rank(es + [e], key)
         == if Rank(es, key) < |es| then Rank(es, key) else if Less(e.key, key) then |es| + 1 else |es|
  {
    if es == [] {
      assert Rank([e][1..], key) == 0;
      assert es + [e] == [e];
    } else {
      assert (es + [e])[1..] == es[1..] + [e];
      RankAppend(es[1..], e, key);
    }
  }

  /** A record appended behind smaller keys, in a node that has room for it. */
  ghost predicate Appendable(t: Tree, keyLen: nat, n: nat, e: Entry) {
    && n in t
    && NodeOk(t[n], keyLen)
    && e.left == 0 && |e.key| == keyLen
    && IsPlace(t[n], e.key, Tail)
  }

  lemma AddEntryHere(t: Tree, keyLen: nat, n: nat, e: Entry, key: Key)
    requires Appendable(t, keyLen, n, e) && |key| == keyLen && key != e.key
    ensures match PlaceOf(t[n], key)
            case Match(i) => PlaceOf(AddEntry(t, n, e)[n], key) == Match(i)
            case Below(i) => PlaceOf(AddEntry(t, n, e)[n], key) == Below(i)
            case Tail => Lookup(AddEntry(t, n, e), n, key) == None
            case Full => false
  {
    RankAppend(t[n].entries, e, key);
    var place := PlaceOf(AddEntry(t, n, e)[n], key);
    if PlaceOf(t[n], key) == Tail {
      if place == Full {
        assert AddEntry(t, n, e)[n].right == 0;
      }
    }
  }

  /** Appending a record changes no other key's lookup. */
  lemma {:induction false} AddEntryLookup(t: Tree, keyLen: nat, n: nat, e: Entry, x: nat, key: Key)
    requires Appendable(t, keyLen, n, e) && |key| == keyLen && key != e.key
    requires x in t
    ensures Lookup(AddEntry(t, n, e), x, key) == Lookup(t, x, key)
    decreases MAX_INT - x
  {
    hide PlaceOf, NodeOk, IsPlace;
    var t' := AddEntry(t, n, e);
    AddEntryHere(t, keyLen, n, e, key);
    match PlaceOf(t[x], key)
    case Match(j) =>
    case Tail =>
    case Below(j) =>
      assert PlaceOf(t'[x], key) == Below(j) && t'[x].entries[j] == t[x].entries[j];
      var c := t[x].entries[j].left;
      if x < c <= MAX_INT && c in t {
        AddEntryLookup(t, keyLen, n, e, c, key);
      }
      assert LookupChild(t', x, c, key) == LookupChild(t, x, c, key);
    case Full =>
      if x != n {
        var c := t[x].right;
        assert t'[x] == t[x];
        if x < c <= MAX_INT && c in t {
          AddEntryLookup(t, keyLen, n, e, c, key);
        }
        assert LookupChild(t', x, c, key) == LookupChild(t, x, c, key);
      }
  }

  lemma AddEntryFinds(t: Tree, keyLen: nat, n: nat, e: Entry)
    requires Appendable(t, keyLen, n, e)
    ensures Lookup(AddEntry(t, n, e), n, e.key) == Some(e.val)
  {
    RankAppend(t[n].entries, e, e.key);
    LessTotal(e.key, e.key);
  }

  lemma AddEntryTreeOk(t: Tree, keyLen: nat, n: nat, e: Entry)
    requires TreeOk(t, keyLen) && Appendable(t, keyLen, n, e)
    ensures TreeOk(AddEntry(t, n, e), keyLen)
  {
    var t' := AddEntry(t, n, e);
    hide FreeSpace, Sorted;
    AppendNodeOk(t[n], keyLen, e);
    forall x | x in t' ensures InTree(t', keyLen, x) {
      assert InTree(t, keyLen, x);
      forall i | 0 <= i <= |t'[x].entries| ensures SlotOk(t', x, i) {
        AddEntrySlotOk(t, keyLen, n, e, x, i);
      }
      if x != ROOT {
        KeepsParent(t, t', x);
      }
    }
  }

  lemma AppendNodeOk(nd: Node, keyLen: nat, e: Entry)
    requires NodeOk(nd, keyLen) && |e.key| == keyLen && IsPlace(nd, e.key, Tail)
    ensures nd.right == 0
    ensures NodeOk(nd.(entries := nd.entries + [e]), keyLen)
  {
  }

  lemma AddEntrySlotOk(t: Tree, keyLen: nat, n: nat, e: Entry, x: nat, i: nat)
    requires n in t && e.left == 0 && t[n].right == 0
    requires x in t && i <= |AddEntry(t, n, e)[x].entries|
    requires forall j :: 0 <= j <= |t[x].entries| ==> SlotOk(t, x, j)
    ensures SlotOk(AddEntry(t, n, e), x, i)
  {
    var t' := AddEntry(t, n, e);
    forall k | 0 <= k <= |t'[x].entries|
      ensures Slot(t'[x], k) == if x == n && k >= |t[n].entries| then 0 else Slot(t[x], k) {
    }
    if i <= |t[x].entries| { assert SlotOk(t, x, i); }
  }

  /** A node keeps its parent when the parent keeps its slots. */
  lemma KeepsParent(t: Tree, t': Tree, x: nat)
    requires x in t && x in t' && t'[x].parent == t[x].parent && HasParent(t, x)
    requires var p := t[x].parent;
             p in t' && |t[p].entries| <= |t'[p].entries|
             && forall i :: 0 <= i <= |t[p].entries| && Slot(t[p], i) == x ==> Slot(t'[p], i) == x
    ensures HasParent(t', x)
  {
    var p := t[x].parent;
    var i :| 0 <= i <= |t[p].entries| && Slot(t[p], i) == x;
    assert Slot(t'[p], i) == x;
  }

  /** Slot `i` of node `n` can take the new node `c`. */
  ghost predicate Linkable(t: Tree, keyLen: nat, n: nat, i: nat, c: nat) {
    && n in t && i <= |t[n].entries| && Slot(t[n], i) == 0
    && (i == |t[n].entries| ==> FreeSpace(t[n]) < keyLen)
    && c <= MAX_INT
    && forall m :: m in t ==> m < c
  }

  lemma AddChildTreeOk(t: Tree, keyLen: nat, n: nat, i: nat, c: nat)
    requires TreeOk(t, keyLen) && Linkable(t, keyLen, n, i, c)
    ensures TreeOk(AddChild(t, n, i, c), keyLen)
  {
    var t' := AddChild(t, n, i, c);
    assert InTree(t, keyLen, n) && InTree(t, keyLen, ROOT);
    WithSlotNodeOk(t[n], keyLen, i, c);
    hide FreeSpace, Sorted;
    forall x | x in t' ensures InTree(t', keyLen, x) {
      if x == c {
        assert Slot(t'[n], i) == c;
      } else {
        assert InTree(t, keyLen, x);
        forall j | 0 <= j <= |t'[x].entries| ensures SlotOk(t', x, j) {
          AddChildSlotOk(t, n, i, c, x, j);
        }
        if x != ROOT {
          KeepsParent(t, t', x);
        }
      }
    }
  }

  lemma WithSlotNodeOk(nd: Node, keyLen: nat, i: nat, c: nat)
    requires NodeOk(nd, keyLen) && i <= |nd.entries|
    requires i == |nd.entries| ==> FreeSpace(nd) < keyLen
    ensures NodeOk(WithSlot(nd, i, c), keyLen)
  {
    WithSlotOk(nd, i, c, []);
  }

  lemma AddChildSlotOk(t: Tree, n: nat, i: nat, c: nat, x: nat, j: nat)
    requires n in t && i <= |t[n].entries| && Slot(t[n], i) == 0
    requires forall m :: m in t ==> m < c
    requires x in t && j <= |t[x].entries|
    requires forall k :: 0 <= k <= |t[x].entries| ==> SlotOk(t, x, k)
    ensures SlotOk(AddChild(t, n, i, c), x, j)
  {
    var t' := AddChild(t, n, i, c);
    assert SlotOk(t, x, j);
    forall k | 0 <= k <= |t[x].entries| ensures Slot(t[x], k) != c {
      assert SlotOk(t, x, k);
    }
    forall k | 0 <= k <= |t[x].entries|
      ensures Slot(t'[x], k) == if x == n && k == i then c else Slot(t[x], k) {
    }
  }

  /** What a lookup finds is the value of a record with that key. */
  lemma {:induction false} LookupFinds(t: Tree, n: nat, key: Key) returns (m: nat, i: nat)
    requires Lookup(t, n, key).Some?
    ensures m in t && i < |t[m].entries|
    ensures t[m].entries[i].key == key && t[m].entries[i].val == Lookup(t, n, key).value
    decreases MAX_INT - n
  {
    match PlaceOf(t[n], key)
    case Match(j) => m, i := n, j;
    case Below(j) => m, i := LookupFinds(t, t[n].entries[j].left, key);
    case Full => m, i := LookupFinds(t, t[n].right, key);
  }
}
