/**
 * Where the code of the index does something else than the model, the literal
 * code is written out here, with exactly when the two agree.
 */
module IndexDeviations {
  import opened Bytes
  import opened Page
  import opened NodeCodec
  import opened KeyOrder
  import opened IndexTree
  import opened IndexOrder
  import opened IndexRecords
  import opened HeapFile
  import opened HeapRows
  import opened IndexStore
  import opened IndexState
  import opened IndexDelete

  /** The size of a pointer, which the code takes for the size of a k_info. */
  const POINTER_SIZE: nat := 8

  /** The variable `space` of _find_pos after `i` records: only those with a greater key count. */
  function ScanSpace(es: seq<Entry>, key: Key, i: nat): int
    requires i <= |es|
  {
    if i == 0 then NODE_LEN - HEAD_LEN
    else
      ScanSpace(es, key, i - 1) - if CmpKey(es[i - 1].key, key) > 0 then POINTER_SIZE + |es[i - 1].key| else 0
  }

  /** The test _find_pos makes before it hands out the tail. */
  predicate LiteralRoom(nd: Node, key: Key) {
    ScanSpace(nd.entries, key, |nd.entries|) >= INFO_LEN + |key|
  }

  lemma {:induction false} ScanSpaceWhole(es: seq<Entry>, key: Key, i: nat)
    requires i <= |es| && forall j :: 0 <= j < |es| ==> Less(es[j].key, key)
    ensures ScanSpace(es, key, i) == NODE_LEN - HEAD_LEN
  {
    if i > 0 {
      ScanSpaceWhole(es, key, i - 1);
    }
  }

  /**
   * The test is only made when all keys of the node are smaller, and then it
   * does not look at the node at all.  So it agrees with the room there is
   * exactly if there is room, or the key is too long even for an empty node.
   */
  lemma LiteralRoomAgrees(nd: Node, key: Key)
    requires forall j :: 0 <= j < |nd.entries| ==> Less(nd.entries[j].key, key)
    ensures LiteralRoom(nd, key) <==> |key| <= MAX_KEY
    ensures (LiteralRoom(nd, key) <==> FreeSpace(nd) >= |key|) <==> FreeSpace(nd) >= |key| || |key| > MAX_KEY
  {
    ScanSpaceWhole(nd.entries, key, |nd.entries|);
  }

  function Repeat(b: byte, n: nat): (k: Key)
    ensures |k| == n && forall i :: 0 <= i < n ==> k[i] == b
  {
    seq(n, i => b)
  }

  lemma FirstByteLess(a: Key, b: Key)
    requires a != [] && b != [] && a[0] < b[0]
    ensures Less(a, b)
  {
  }

  /** Two keys of 5000 bytes: the second is given the tail of a node it does not fit. */
  lemma LiteralRoomOverruns()
    ensures var nd, key := Node(ROOT, 0, 0, [Entry(0, RowId(3, 1), Repeat(1, 5000))]), Repeat(2, 5000);
            && IsPlace(nd, key, Full)
            && LiteralRoom(nd, key)
            && TailAt(nd) + INFO_LEN + |key| > NODE_LEN
  {
    var nd, key := Node(ROOT, 0, 0, [Entry(0, RowId(3, 1), Repeat(1, 5000))]), Repeat(2, 5000);
    FirstByteLess(nd.entries[0].key, key);
    LiteralRoomAgrees(nd, key);
    PackOne(nd.entries[0]);
  }

  lemma PackOne(e: Entry)
    ensures |Pack([e])| == INFO_LEN + |e.key|
  {
    assert Pack([e]) == Pack([e][..0]) + EncEntry(e);
  }

  // ---------------------------------------------------------------- keys that fit no node

  /** A key longer than 8124 bytes fits no node, not even an empty one. */
  lemma LongKeyNeverPlaced(nd: Node, key: Key)
    ensures FreeSpace(nd) <= MAX_KEY
    ensures |key| > MAX_KEY ==> PlaceOf(nd, key) != Tail
    ensures nd.entries == [] ==> PlaceOf(nd, key) == (if |key| <= MAX_KEY then Tail else Full)
  {
  }

  /** Where a set stands: the tree, the last block in use, and the node _set_key was called for. */
  datatype Descent = Descent(tree: Tree, used: nat, at: nat)

  /** Nodes are in blocks in use, links lead to later nodes, and the keys fit. */
  ghost predicate CanDescend(d: Descent) {
    && d.at in d.tree
    && (forall n :: n in d.tree ==> n <= d.used && KeysFit(d.tree[n]) && LinksLater(d.tree, n))
  }

  ghost predicate KeysFit(nd: Node) {
    forall i :: 0 <= i < |nd.entries| ==> |nd.entries[i].key| <= MAX_KEY
  }

  ghost predicate LinksLater(t: Tree, n: nat)
    requires n in t
  {
    forall i :: 0 <= i <= |t[n].entries| && Slot(t[n], i) != 0 ==> Slot(t[n], i) in t && n < Slot(t[n], i)
  }

  /** _set_key goes on in the child of slot `i`, which it adds if there is none. */
  ghost function Into(d: Descent, i: nat): Descent
    requires d.at in d.tree && i <= |d.tree[d.at].entries|
  {
    var c := Slot(d.tree[d.at], i);
    if c != 0 then d.(at := c)
    else Descent(AddChild(d.tree, d.at, i, d.used + 1), d.used + 1, d.used + 1)
  }

  /** One call of _set_key, unless it comes to write a record. */
  ghost function Down(d: Descent, key: Key): Descent
    requires d.at in d.tree
  {
    match PlaceOf(d.tree[d.at], key)
    case Below(i) => Into(d, i)
    case Full => Into(d, |d.tree[d.at].entries|)
    case _ => d
  }

  lemma IntoDescends(d: Descent, i: nat)
    requires CanDescend(d) && i <= |d.tree[d.at].entries|
    ensures CanDescend(Into(d, i)) && d.at < Into(d, i).at
  {
    hide KeysFit;
    var d' := Into(d, i);
    assert LinksLater(d.tree, d.at);
    if Slot(d.tree[d.at], i) == 0 {
      forall n | n in d'.tree ensures n <= d'.used && KeysFit(d'.tree[n]) && LinksLater(d'.tree, n) {
        SlotKeysFit(d.tree[d.at], i, d'.used, Node(d'.used, d.at, 0, []));
        if n in d.tree {
          assert LinksLater(d.tree, n) && n <= d.used;
          forall j | 0 <= j <= |d.tree[n].entries|
            ensures Slot(d'.tree[n], j) == if n == d.at && j == i then d'.used else Slot(d.tree[n], j)
          {
          }
        }
      }
    }
  }

  lemma SlotKeysFit(nd: Node, i: nat, c: nat, empty: Node)
    requires KeysFit(nd) && i <= |nd.entries| && empty.entries == []
    ensures KeysFit(WithSlot(nd, i, c)) && KeysFit(empty)
  {
  }

  /** The state after `k` nested calls. */
  ghost function LongSet(d: Descent, key: Key, k: nat): (d': Descent)
    requires CanDescend(d) && |key| > MAX_KEY
    ensures CanDescend(d') && d.at + k <= d'.at
  {
    if k == 0 then d else
      var e := LongSet(d, key, k - 1);
      LongKeyGoesDown(e, key);
      Down(e, key)
  }

  lemma LongKeyGoesDown(d: Descent, key: Key)
    requires CanDescend(d) && |key| > MAX_KEY
    ensures PlaceOf(d.tree[d.at], key).Below? || PlaceOf(d.tree[d.at], key).Full?
    ensures CanDescend(Down(d, key)) && d.at < Down(d, key).at
  {
    var nd := d.tree[d.at];
    assert KeysFit(nd);
    LongKeyNeverPlaced(nd, key);
    match PlaceOf(nd, key)
    case Below(i) => IntoDescends(d, i);
    case Full => IntoDescends(d, |nd.entries|);
  }

  /**
   * A set of a key longer than 8124 bytes never ends: after any number of
   * nested calls the next one neither finds the key nor has room for it, the
   * file has grown by new nodes without bound, and the key is found nowhere.
   */
  lemma LongSetNeverEnds(d: Descent, key: Key, k: nat, x: nat)
    requires CanDescend(d) && |key| > MAX_KEY
    ensures var e := LongSet(d, key, k);
            && (PlaceOf(e.tree[e.at], key).Below? || PlaceOf(e.tree[e.at], key).Full?)
            && d.at + k <= e.at <= e.used
            && Lookup(e.tree, x, key) == None
  {
    var e := LongSet(d, key, k);
    LongKeyGoesDown(e, key);
    if Lookup(e.tree, x, key).Some? {
      var m, i := LookupFinds(e.tree, x, key);
    }
  }

  /** Every stored index is such a state. */
  lemma StoredCanDescend(f: File, roles: Roles, t: Tree, keyOf: KeyOf, keyLen: nat, n: nat)
    requires Stored(f, roles, t, keyOf) && TreeOk(t, keyLen) && keyLen <= MAX_KEY && n in t
    ensures CanDescend(Descent(t, f.used, n))
  {
    hide Represents;
    forall m | m in t ensures m <= f.used && KeysFit(t[m]) && LinksLater(t, m) {
      assert NodeStored(f, roles, m, t[m]) && InTree(t, keyLen, m);
      NodeAlone(f, roles, t, keyOf, m, NodeRow(m));
      forall i | 0 <= i <= |t[m].entries| && Slot(t[m], i) != 0 ensures Slot(t[m], i) in t && m < Slot(t[m], i) {
        assert SlotOk(t, m, i);
      }
    }
  }

  // ---------------------------------------------------------------- keys of different lengths

  /** A record added to a node changes no lookup begun at a later one. */
  lemma {:induction false} LookupBelow(t: Tree, n: nat, nd: Node, x: nat, key: Key)
    requires n < x
    ensures Lookup(t[n := nd], x, key) == Lookup(t, x, key)
    decreases MAX_INT - x
  {
    if x in t {
      match PlaceOf(t[x], key)
      case Match(i) =>
      case Tail =>
      case Below(i) =>
        var c := t[x].entries[i].left;
        if x < c <= MAX_INT { LookupBelow(t, n, nd, c, key); }
      case Full =>
        var c := t[x].right;
        if x < c <= MAX_INT { LookupBelow(t, n, nd, c, key); }
    }
  }

  /** The keys below the right child of a node are all greater. */
  ghost predicate RightAbove(t: Tree, n: nat, key: Key)
    requires n in t
  {
    forall m, j :: t[n].right != 0 && Beneath(t, t[n].right, m) && m in t && 0 <= j < |t[m].entries| ==>
      Less(key, t[m].entries[j].key)
  }

  /**
   * With keys of different lengths a short key may still be appended to a node
   * that was too full for longer ones.  No other key is lost by that exactly if
   * every key below the node's right child is greater than the appended one.
   */
  lemma ShortKeyHidesLonger(t: Tree, bd: BoundsMap, n: nat, e: Entry)
    requires Searchable(t, bd) && n in t && Beneath(t, ROOT, n)
    requires e.left == 0 && PlaceOf(t[n], e.key) == Tail
    ensures (forall k: Key :: k != e.key ==> Lookup(AddEntry(t, n, e), ROOT, k) == Lookup(t, ROOT, k))
       <==> RightAbove(t, n, e.key)
  {
    hide NodeSearchable, PlaceOf, Ordered, FreeSpace;
    if RightAbove(t, n, e.key) {
      forall k: Key | k != e.key ensures Lookup(AddEntry(t, n, e), ROOT, k) == Lookup(t, ROOT, k) {
        ShortKeyKeeps(t, bd, n, e, ROOT, k);
      }
    } else {
      var m, j :| t[n].right != 0 && Beneath(t, t[n].right, m) && m in t && 0 <= j < |t[m].entries|
                  && !Less(e.key, t[m].entries[j].key);
      ShortKeyLoses(t, bd, n, e, m, j);
    }
  }

  /** The appended key is not among those below the right child: they were too long for the node. */
  lemma AppendedIsNew(t: Tree, bd: BoundsMap, n: nat, key: Key, m: nat, j: nat)
    requires Searchable(t, bd) && n in t && PlaceOf(t[n], key) == Tail
    requires t[n].right != 0 && Beneath(t, t[n].right, m) && m in t && j < |t[m].entries|
    ensures |key| < |t[m].entries[j].key|
  {
    assert NodeSearchable(t, n) && TooLong(t[n], t[m].entries[j].key);
  }

  lemma ShortKeyLoses(t: Tree, bd: BoundsMap, n: nat, e: Entry, m: nat, j: nat)
    requires Searchable(t, bd) && n in t && Beneath(t, ROOT, n)
    requires e.left == 0 && PlaceOf(t[n], e.key) == Tail
    requires t[n].right != 0 && Beneath(t, t[n].right, m) && m in t && j < |t[m].entries|
    requires !Less(e.key, t[m].entries[j].key)
    ensures var k := t[m].entries[j].key;
            k != e.key && Lookup(t, ROOT, k).Some? && Lookup(AddEntry(t, n, e), ROOT, k) == None
  {
    hide Searchable, PlaceOf, Beneath, FreeSpace;
    var k := t[m].entries[j].key;
    AppendedIsNew(t, bd, n, e.key, m, j);
    LessTotal(e.key, k);
    LinkBeneath(t, bd, n, |t[n].entries|, m);
    BeneathTrans(t, ROOT, n, m);
    RecordFound(t, bd, ROOT, m, j);
    SlotTakes(t, bd, n, |t[n].entries|, m, j);
    SearchReaches(t, bd, AddEntry(t, n, e), ROOT, n, m, j);
    LessTotal(k, e.key);
    SmallerIsHidden(t[n], e, k);
  }

  lemma SmallerIsHidden(nd: Node, e: Entry, k: Key)
    requires PlaceOf(nd, k) == Full && Less(k, e.key)
    ensures PlaceOf(nd.(entries := nd.entries + [e]), k) == Below(|nd.entries|)
  {
    RankAppend(nd.entries, e, k);
    LessTotal(k, e.key);
  }

  /** From any node, a key other than the appended one is found as before. */
  lemma {:induction false} ShortKeyKeeps(t: Tree, bd: BoundsMap, n: nat, e: Entry, x: nat, k: Key)
    requires Searchable(t, bd) && n in t && x in t && k != e.key
    requires e.left == 0 && PlaceOf(t[n], e.key) == Tail && RightAbove(t, n, e.key)
    ensures Lookup(AddEntry(t, n, e), x, k) == Lookup(t, x, k)
    decreases MAX_INT - x
  {
    hide PlaceOf, Ordered, FreeSpace, RightAbove;
    var t' := AddEntry(t, n, e);
    assert NodeSearchable(t, x);
    if x == n {
      ShortKeyKeepsHere(t, bd, n, e, k);
    } else {
      match PlaceOf(t[x], k)
      case Match(i) =>
      case Tail =>
      case Below(i) =>
        var c := Slot(t[x], i);
        if c != 0 { ShortKeyKeeps(t, bd, n, e, c, k); }
        assert LookupChild(t', x, c, k) == LookupChild(t, x, c, k);
      case Full =>
        var c := Slot(t[x], |t[x].entries|);
        if c != 0 { ShortKeyKeeps(t, bd, n, e, c, k); }
        assert LookupChild(t', x, c, k) == LookupChild(t, x, c, k);
    }
  }

  lemma ShortKeyKeepsHere(t: Tree, bd: BoundsMap, n: nat, e: Entry, k: Key)
    requires Searchable(t, bd) && n in t && k != e.key
    requires e.left == 0 && PlaceOf(t[n], e.key) == Tail && RightAbove(t, n, e.key)
    ensures Lookup(AddEntry(t, n, e), n, k) == Lookup(t, n, k)
  {
    var t', nd := AddEntry(t, n, e), t[n];
    AppendPlace(nd, e, k);
    hide PlaceOf, Ordered, FreeSpace;
    match PlaceOf(nd, k)
    case Match(i) =>
    case Below(i) => ChildKept(t, n, t'[n], nd.entries[i].left, k);
    case _ =>
      ChildKept(t, n, t'[n], nd.right, k);
      if LookupChild(t, n, nd.right, k).Some? {
        RightIsAbove(t, bd, n, e.key, k);
      }
  }

  lemma ChildKept(t: Tree, n: nat, nd: Node, c: nat, k: Key)
    ensures LookupChild(t[n := nd], n, c, k) == LookupChild(t, n, c, k)
  {
    if n < c <= MAX_INT { LookupBelow(t, n, nd, c, k); }
  }

  /** A key found through the right child is greater than the appended one, and longer. */
  lemma RightIsAbove(t: Tree, bd: BoundsMap, n: nat, key: Key, k: Key)
    requires Searchable(t, bd) && n in t && RightAbove(t, n, key) && LookupChild(t, n, t[n].right, k).Some?
    ensures Less(key, k) && TooLong(t[n], k)
  {
    var m, j := FoundRecord(t, bd, t[n].right, k);
    assert NodeSearchable(t, n);
  }

  lemma AppendPlace(nd: Node, e: Entry, k: Key)
    requires PlaceOf(nd, e.key) == Tail && k != e.key
    ensures var nd' := nd.(entries := nd.entries + [e]);
            match PlaceOf(nd, k)
            case Match(i) => PlaceOf(nd', k) == Match(i)
            case Below(i) => PlaceOf(nd', k) == Below(i)
            case _ =>
              if Less(e.key, k) then
                (PlaceOf(nd', k) == Full || (PlaceOf(nd', k) == Tail && PlaceOf(nd, k) == Tail))
              else PlaceOf(nd', k) == Below(|nd.entries|)
  {
    RankAppend(nd.entries, e, k);
    LessTotal(e.key, k);
    MoreIsFuller(nd, e);
  }

  lemma MoreIsFuller(nd: Node, e: Entry)
    ensures FreeSpace(nd.(entries := nd.entries + [e])) < FreeSpace(nd)
  {
    var es := nd.entries + [e];
    assert es[..|es| - 1] == nd.entries;
  }

  const BIG: Key := Repeat(1, 8000)
  const LONG: Key := Repeat(2, 200)
  const SHORT: Key := [3]

  /** The root after a set of the key of 8000 bytes. */
  const FULL_ROOT := Node(ROOT, 0, 0, [Entry(0, RowId(3, 1), BIG)])

  /** The tree after a set of the key of 200 bytes, which goes to a right child. */
  const TWO_NODES: Tree := map[ROOT := FULL_ROOT.(right := 4), 4 := Node(4, ROOT, 0, [Entry(0, RowId(5, 1), LONG)])]

  /** A root with one record gets a right child with one record. */
  lemma TwoSets(e: Entry, e': Entry, c: nat)
    requires ROOT < c
    ensures var t: Tree := AddEntry(map[ROOT := EMPTY_ROOT], ROOT, e);
            t[ROOT] == Node(ROOT, 0, 0, [e])
            && AddEntry(AddChild(t, ROOT, 1, c), c, e')
               == map[ROOT := Node(ROOT, 0, c, [e]), c := Node(c, ROOT, 0, [e'])]
  {
    var t: Tree := AddEntry(map[ROOT := EMPTY_ROOT], ROOT, e);
    assert [] + [e] == [e] && [] + [e'] == [e'];
    assert AddChild(t, ROOT, 1, c) == map[ROOT := Node(ROOT, 0, c, [e]), c := Node(c, ROOT, 0, [])];
  }

  lemma TwoNodesMade()
    ensures var t: Tree := AddEntry(map[ROOT := EMPTY_ROOT], ROOT, Entry(0, RowId(3, 1), BIG));
            t[ROOT] == FULL_ROOT && PlaceOf(FULL_ROOT, LONG) == Full
            && TWO_NODES == AddEntry(AddChild(t, ROOT, 1, 4), 4, Entry(0, RowId(5, 1), LONG))
  {
    hide PlaceOf, Repeat;
    TwoSets(Entry(0, RowId(3, 1), BIG), Entry(0, RowId(5, 1), LONG), 4);
    RootPlaces(0);
    assert FULL_ROOT.(right := 0) == FULL_ROOT;
  }

  lemma RootPlaces(right: nat)
    ensures PlaceOf(FULL_ROOT.(right := right), LONG) == Full
    ensures PlaceOf(FULL_ROOT.(right := right), SHORT) == Tail
  {
    PackOne(FULL_ROOT.entries[0]);
    FirstByteLess(BIG, LONG);
    FirstByteLess(BIG, SHORT);
    PlaceUnique(FULL_ROOT.(right := right), LONG, Full);
    PlaceUnique(FULL_ROOT.(right := right), SHORT, Tail);
  }

  /**
   * A key of a single byte, greater than the other two, still fits the root
   * that the key of 200 bytes did not fit.  Then that one is found no more.
   */
  lemma ShortKeyHides200()
    ensures PlaceOf(TWO_NODES[ROOT], SHORT) == Tail
    ensures Lookup(TWO_NODES, ROOT, LONG) == Some(RowId(5, 1))
    ensures Lookup(AddEntry(TWO_NODES, ROOT, Entry(0, RowId(5, 2), SHORT)), ROOT, LONG) == None
  {
    RootPlaces(4);
    MatchPlace(TWO_NODES[4], 0);
    FirstByteLess(LONG, SHORT);
    SmallerIsHidden(TWO_NODES[ROOT], Entry(0, RowId(5, 2), SHORT), LONG);
    hide PlaceOf;
    assert Lookup(TWO_NODES, ROOT, LONG) == LookupChild(TWO_NODES, ROOT, 4, LONG) == Lookup(TWO_NODES, 4, LONG);
  }

  // ---------------------------------------------------------------- a set that meets a deleted key

  /** What the root's cleared bytes behind its last record read as once it counts a record too many. */
  const OVERCOUNTED := Entry(0, NO_ROW, [])

  /**
   * _set_key at record `i` of the root when its block id is 0: the key and the
   * new value are written over the record, its child is dropped, and the root
   * counts one record more.
   */
  function ResetNode(nd: Node, i: nat, id: RowId, key: Key): Node
    requires i < |nd.entries|
  {
    nd.(entries := nd.entries[i := Entry(0, id, key)] + [OVERCOUNTED])
  }

  ghost function Reset(t: Tree, i: nat, id: RowId, key: Key): Tree
    requires ROOT in t && i < |t[ROOT].entries|
  {
    t[ROOT := ResetNode(t[ROOT], i, id, key)]
  }

  /** Counting one record more reads cleared bytes behind the last one as such a record. */
  lemma OvercountReads(s: Bytes, s': Bytes, nd: Node)
    requires Represents(s, nd) && |nd.entries| < MAX_SHORT && TailAt(nd) + INFO_LEN <= NODE_LEN
    requires s[TailAt(nd)..TailAt(nd) + INFO_LEN] == Zeros(INFO_LEN)
    requires s' == Patch(s, 4, Enc16(|nd.entries| + 1))
    ensures Represents(s', nd.(entries := nd.entries + [OVERCOUNTED]))
  {
    assert EncEntry(OVERCOUNTED) == Zeros(INFO_LEN);
    AppendRepresents(s, s', nd, OVERCOUNTED);
  }

  /** The row _get reads for a key; none if the key's record has block 0. */
  ghost function ValueRow(t: Tree, key: Key): Option<RowId> {
    if Lookup(t, ROOT, key) == Some(NO_ROW) then None else Lookup(t, ROOT, key)
  }

  /** Node `c` and what is below it have no record but one for the key. */
  predicate Only(t: Tree, c: nat, key: Key) {
    c in t && t[c].right == 0 && |t[c].entries| == 1 && t[c].entries[0].key == key && t[c].entries[0].left == 0
  }

  /** A set that meets a deleted record of the root: the key is the record's or belongs below it. */
  ghost predicate MeetsDeleted(t: Tree, i: nat, key: Key) {
    && ROOT in t && i < |t[ROOT].entries| && t[ROOT].entries[i].val == NO_ROW
    && (PlaceOf(t[ROOT], key) == Match(i) || PlaceOf(t[ROOT], key) == Below(i))
  }

  /** The guard of KvIndex.Set shuts out exactly these sets. */
  lemma GuardIsExact(t: Tree, key: Key)
    requires ROOT in t
    ensures Clear(t[ROOT], key) <==> forall i: nat :: !MeetsDeleted(t, i, key)
  {
    match PlaceOf(t[ROOT], key)
    case Match(i) => assert MeetsDeleted(t, i, key) <==> t[ROOT].entries[i].val == NO_ROW;
    case Below(i) => assert MeetsDeleted(t, i, key) <==> t[ROOT].entries[i].val == NO_ROW;
    case _ =>
  }

  /** No key but the one that is set reads differently. */
  ghost predicate OthersKept(t: Tree, t': Tree, keyLen: nat, key: Key) {
    forall k: Key :: |k| == keyLen && k != key ==> ValueRow(t', k) == ValueRow(t, k)
  }

  /**
   * Such a set leaves every other key as it was exactly if the deleted record
   * has no left child, or the left child holds the key that is set and nothing
   * else.  The key itself gets its value.
   */
  lemma ResetKeepsOthers(t: Tree, bd: BoundsMap, keyLen: nat, i: nat, id: RowId, key: Key)
    requires Grown(t, bd, keyLen) && |key| == keyLen && MeetsDeleted(t, i, key) && id != NO_ROW
    ensures ValueRow(Reset(t, i, id, key), key) == Some(id)
    ensures OthersKept(t, Reset(t, i, id, key), keyLen, key)
       <==> t[ROOT].entries[i].left == 0 || Only(t, t[ROOT].entries[i].left, key)
  {
    hide Grown, PlaceOf, Only, Lookup;
    var left := t[ROOT].entries[i].left;
    ResetFinds(t, bd, keyLen, i, id, key);
    if left == 0 || Only(t, left, key) {
      forall k: Key | |k| == keyLen && k != key ensures ValueRow(Reset(t, i, id, key), k) == ValueRow(t, k) {
        ResetKeeps(t, bd, keyLen, i, id, key, k);
      }
    } else {
      var m, j := OtherBelow(t, bd, keyLen, i, key);
      ResetLoses(t, bd, keyLen, i, id, key, m, j);
    }
  }

  /** Setting the deleted key itself again is harmless exactly if its record has no left child. */
  lemma ResetSameKey(t: Tree, bd: BoundsMap, keyLen: nat, i: nat, id: RowId)
    requires Grown(t, bd, keyLen) && ROOT in t && i < |t[ROOT].entries| && t[ROOT].entries[i].val == NO_ROW
    requires id != NO_ROW
    ensures var key := t[ROOT].entries[i].key;
            OthersKept(t, Reset(t, i, id, key), keyLen, key) <==> t[ROOT].entries[i].left == 0
  {
    hide OthersKept;
    var key, left := t[ROOT].entries[i].key, t[ROOT].entries[i].left;
    RootOk(t, bd, keyLen);
    MatchPlace(t[ROOT], i);
    ResetKeepsOthers(t, bd, keyLen, i, id, key);
    if left != 0 {
      LeftChild(t, bd, keyLen, i, 0);
      LessTotal(key, key);
    }
  }

  lemma RootOk(t: Tree, bd: BoundsMap, keyLen: nat)
    requires Grown(t, bd, keyLen)
    ensures ROOT in t && NodeOk(t[ROOT], keyLen)
  {
    assert InTree(t, keyLen, ROOT);
  }

  // What the root looks like after the set.

  /** Writing a key over a record it may take the place of keeps the order. */
  lemma RekeyedSorted(nd: Node, i: nat, e: Entry)
    requires Sorted(nd.entries) && (PlaceOf(nd, e.key) == Match(i) || PlaceOf(nd, e.key) == Below(i))
    ensures i < |nd.entries| && Sorted(nd.entries[i := e])
    ensures e.key == nd.entries[i].key || Less(e.key, nd.entries[i].key)
    ensures i > 0 ==> Less(nd.entries[i - 1].key, e.key)
  {
    var es := nd.entries;
    PlaceUnique(nd, e.key, PlaceOf(nd, e.key));
    assert Rank(es, e.key) == i;
    forall j | 0 <= j < |es| && j != i ensures if j < i then Less(es[j].key, e.key) else Less(e.key, es[j].key) {
      if j > i && e.key != es[i].key { LessTransitive(e.key, es[i].key, es[j].key); }
    }
  }

  /** The record counted too many is never a place. */
  lemma OvercountPlace(nd: Node, k: Key)
    requires k != []
    ensures var nd' := nd.(entries := nd.entries + [OVERCOUNTED]);
            match PlaceOf(nd, k)
            case Tail => PlaceOf(nd', k) == Tail || PlaceOf(nd', k) == Full
            case _ => PlaceOf(nd', k) == PlaceOf(nd, k)
  {
    RankAppend(nd.entries, OVERCOUNTED, k);
    LessTotal([], k);
    MoreIsFuller(nd, OVERCOUNTED);
    EmptyIsLess(k);
  }

  lemma EmptyIsLess(k: Key)
    requires k != []
    ensures Less([], k)
  {
  }

  /** Where another key belongs in the root afterwards. */
  ghost function PlaceAfter(nd: Node, i: nat, key: Key, k: Key): Place
    requires i < |nd.entries|
  {
    var p := PlaceOf(nd, k);
    if (p == Match(i) || p == Below(i)) && Less(key, k) then
      if i + 1 < |nd.entries| then Below(i + 1) else if FreeSpace(nd) >= |k| then Tail else Full
    else if p == Match(i) then Below(i)
    else p
  }

  /** The rank is where the smaller keys end. */
  lemma RankIs(es: seq<Entry>, k: Key, r: nat)
    requires r <= |es| && (forall j :: 0 <= j < r ==> Less(es[j].key, k))
    requires r < |es| ==> !Less(es[r].key, k)
    ensures Rank(es, k) == r
  {
  }

  lemma RekeyedRank(es: seq<Entry>, i: nat, e: Entry, k: Key)
    requires Sorted(es) && i < |es| && (e.key == es[i].key || Less(e.key, es[i].key)) && k != e.key
    ensures var r := Rank(es, k); var r' := if r == i && Less(e.key, k) then i + 1 else r;
            && Rank(es[i := e], k) == r'
            && (r == i && r' < |es| ==> es[i := e][r'].key != k)
  {
    var es2, r := es[i := e], Rank(es, k);
    LessTotal(e.key, k);
    LessTotal(k, es[i].key);
    if r > i && e.key != es[i].key { LessTransitive(e.key, es[i].key, k); }
    if r == i && Less(e.key, k) {
      if i + 1 < |es| {
        if k != es[i].key { LessTransitive(k, es[i].key, es[i + 1].key); }
        LessTotal(k, es[i + 1].key);
        LessTotal(es[i + 1].key, k);
      }
      RankIs(es2, k, i + 1);
    } else {
      RankIs(es2, k, r);
    }
  }

  lemma RekeyedPlace(nd: Node, i: nat, id: RowId, key: Key, k: Key)
    requires Sorted(nd.entries) && (PlaceOf(nd, key) == Match(i) || PlaceOf(nd, key) == Below(i))
    requires |nd.entries[i].key| == |key| && k != key
    ensures PlaceOf(nd.(entries := nd.entries[i := Entry(0, id, key)]), k) == PlaceAfter(nd, i, key, k)
  {
    hide Rank, FreeSpace, Sorted, Less;
    var e := Entry(0, id, key);
    RekeyedSorted(nd, i, e);
    RekeyedSpace(nd, i, e);
    RekeyedRank(nd.entries, i, e, k);
  }

  lemma RekeyedSpace(nd: Node, i: nat, e: Entry)
    requires i < |nd.entries| && |nd.entries[i].key| == |e.key|
    ensures FreeSpace(nd.(entries := nd.entries[i := e])) == FreeSpace(nd)
  {
    PackUpdate(nd.entries, i, e);
  }

  /** Everything about the root afterwards: its places, and where its slots lead. */
  lemma ResetPlace(t: Tree, bd: BoundsMap, keyLen: nat, i: nat, id: RowId, key: Key, k: Key)
    requires Grown(t, bd, keyLen) && |key| == keyLen && MeetsDeleted(t, i, key)
    requires |k| == keyLen && k != key
    ensures ROOT in t && i < |t[ROOT].entries| && Sorted(t[ROOT].entries)
    ensures var p := PlaceAfter(t[ROOT], i, key, k); var q := PlaceOf(ResetNode(t[ROOT], i, id, key), k);
            q == p || (p == Tail && q == Full)
  {
    RootOk(t, bd, keyLen);
    RekeyedPlace(t[ROOT], i, id, key, k);
    OvercountPlace(t[ROOT].(entries := t[ROOT].entries[i := Entry(0, id, key)]), k);
  }

  lemma ResetFinds(t: Tree, bd: BoundsMap, keyLen: nat, i: nat, id: RowId, key: Key)
    requires Grown(t, bd, keyLen) && |key| == keyLen && MeetsDeleted(t, i, key) && id != NO_ROW
    ensures ValueRow(Reset(t, i, id, key), key) == Some(id)
  {
    var nd, e := t[ROOT], Entry(0, id, key);
    RootOk(t, bd, keyLen);
    RekeyedSorted(nd, i, e);
    LessTotal(key, key);
    var es := ResetNode(nd, i, id, key).entries;
    forall j | 0 <= j < i ensures Less(es[j].key, key) {
      assert j < i - 1 ==> Less(nd.entries[j].key, nd.entries[i - 1].key);
      if j < i - 1 { LessTransitive(nd.entries[j].key, nd.entries[i - 1].key, key); }
    }
    RankIs(es, key, i);
  }

  // A key the deleted record's left child would have: it is not found any more.

  lemma ResetHidesBetween(t: Tree, bd: BoundsMap, keyLen: nat, i: nat, id: RowId, key: Key, k: Key)
    requires Grown(t, bd, keyLen) && |key| == keyLen && MeetsDeleted(t, i, key)
    requires |k| == keyLen && k != key && (PlaceOf(t[ROOT], k) == Match(i) || PlaceOf(t[ROOT], k) == Below(i))
    ensures Lookup(Reset(t, i, id, key), ROOT, k) == None
  {
    hide PlaceOf, Grown, FreeSpace, Lookup, Sorted, Less;
    var nd, nd' := t[ROOT], ResetNode(t[ROOT], i, id, key);
    ResetPlace(t, bd, keyLen, i, id, key, k);
    NextSlotAbove(t, bd, keyLen, i, k);
    RootLookup(t, nd', k);
  }

  /** A search with another root. */
  lemma {:induction false} RootLookup(t: Tree, nd: Node, k: Key)
    ensures Lookup(t[ROOT := nd], ROOT, k) ==
            match PlaceOf(nd, k)
            case Match(j) => Some(nd.entries[j].val)
            case Below(j) => LookupChild(t, ROOT, Slot(nd, j), k)
            case Tail => None
            case Full => LookupChild(t, ROOT, nd.right, k)
  {
    match PlaceOf(nd, k)
    case Match(j) =>
    case Below(j) => ChildKept(t, ROOT, nd, nd.entries[j].left, k);
    case Tail =>
    case Full => ChildKept(t, ROOT, nd, nd.right, k);
  }

  /** What comes behind record `i` is greater than its key. */
  lemma NextSlotAbove(t: Tree, bd: BoundsMap, keyLen: nat, i: nat, k: Key)
    requires Grown(t, bd, keyLen) && ROOT in t && i < |t[ROOT].entries|
    requires PlaceOf(t[ROOT], k) == Match(i) || PlaceOf(t[ROOT], k) == Below(i)
    ensures LookupChild(t, ROOT, Slot(t[ROOT], i + 1), k) == None
  {
    RootOk(t, bd, keyLen);
    PlaceUnique(t[ROOT], k, PlaceOf(t[ROOT], k));
    LessTotal(k, t[ROOT].entries[i].key);
    LessTotal(t[ROOT].entries[i].key, k);
    if LookupChild(t, ROOT, Slot(t[ROOT], i + 1), k).Some? {
      SlotWithin(t, bd, ROOT, i + 1, k);
    }
  }

  lemma ResetKeeps(t: Tree, bd: BoundsMap, keyLen: nat, i: nat, id: RowId, key: Key, k: Key)
    requires Grown(t, bd, keyLen) && |key| == keyLen && MeetsDeleted(t, i, key)
    requires |k| == keyLen && k != key
    requires t[ROOT].entries[i].left == 0 || Only(t, t[ROOT].entries[i].left, key)
    ensures ValueRow(Reset(t, i, id, key), k) == ValueRow(t, k)
  {
    var nd := t[ROOT];
    if PlaceOf(nd, k) == Match(i) || PlaceOf(nd, k) == Below(i) {
      ResetHidesBetween(t, bd, keyLen, i, id, key, k);
      if Only(t, nd.entries[i].left, key) {
        OnlyFindsNothing(t, nd.entries[i].left, key, k);
      }
    } else {
      ResetKeepsElsewhere(t, bd, keyLen, i, id, key, k);
    }
  }

  lemma OnlyFindsNothing(t: Tree, c: nat, key: Key, k: Key)
    requires Only(t, c, key) && k != key
    ensures Lookup(t, c, k) == None
  {
  }

  lemma ResetKeepsElsewhere(t: Tree, bd: BoundsMap, keyLen: nat, i: nat, id: RowId, key: Key, k: Key)
    requires Grown(t, bd, keyLen) && |key| == keyLen && MeetsDeleted(t, i, key)
    requires |k| == keyLen && k != key && PlaceOf(t[ROOT], k) != Match(i) && PlaceOf(t[ROOT], k) != Below(i)
    ensures Lookup(Reset(t, i, id, key), ROOT, k) == Lookup(t, ROOT, k)
  {
    var nd, nd' := t[ROOT], ResetNode(t[ROOT], i, id, key);
    ResetPlace(t, bd, keyLen, i, id, key, k);
    RootOk(t, bd, keyLen);
    assert PlaceOf(nd, k) == Tail ==> nd.right == 0;
    RootLookup(t, nd', k);
    RootLookup(t, nd, k);
    assert t[ROOT := nd] == t;
    hide PlaceOf, Grown, FreeSpace, Lookup;
  }

  // The other way round: a record below the left child that is lost.

  /** The left child of record `i` of the root, a record in it, and its children. */
  lemma LeftChild(t: Tree, bd: BoundsMap, keyLen: nat, i: nat, s: nat)
    requires Grown(t, bd, keyLen) && ROOT in t && i < |t[ROOT].entries| && t[ROOT].entries[i].left != 0
    ensures var c := t[ROOT].entries[i].left;
            && c in t && ROOT < c <= MAX_INT && t[c].entries != []
            && Less(t[c].entries[0].key, t[ROOT].entries[i].key)
            && (s <= |t[c].entries| && Slot(t[c], s) != 0 ==>
                  Slot(t[c], s) in t && c < Slot(t[c], s) <= MAX_INT && t[Slot(t[c], s)].entries != [])
  {
    var c := t[ROOT].entries[i].left;
    UniformSearchable(t, bd, keyLen);
    assert Slot(t[ROOT], i) == c;
    assert NodeSearchable(t, ROOT) && NodeBounded(t, bd, ROOT);
    assert NodeSearchable(t, c) && NodeBounded(t, bd, c);
  }

  /** A left child with the key alone has a child of its own, with another key. */
  lemma LoneSlot(t: Tree, bd: BoundsMap, keyLen: nat, i: nat, key: Key) returns (s: nat)
    requires Grown(t, bd, keyLen) && ROOT in t && i < |t[ROOT].entries|
    requires t[ROOT].entries[i].left != 0 && t[ROOT].entries[i].left in t
    requires var c := t[ROOT].entries[i].left; forall j :: 0 <= j < |t[c].entries| ==> t[c].entries[j].key == key
    requires !Only(t, t[ROOT].entries[i].left, key)
    ensures var c := t[ROOT].entries[i].left;
            && s <= |t[c].entries| && c < Slot(t[c], s) <= MAX_INT
            && Slot(t[c], s) in t && t[Slot(t[c], s)].entries != [] && t[Slot(t[c], s)].entries[0].key != key
  {
    var c := t[ROOT].entries[i].left;
    LeftChild(t, bd, keyLen, i, 0);
    LeftChild(t, bd, keyLen, i, 1);
    UniformSearchable(t, bd, keyLen);
    assert NodeSearchable(t, c) && NodeBounded(t, bd, c);
    LessTotal(key, key);
    s := if t[c].entries[0].left != 0 then 0 else 1;
    var d := Slot(t[c], s);
    assert NodeBounded(t, bd, d) && Within(bd[d], t[d].entries[0].key);
  }

  /** Below the left child there is a record for another key than the one that is set. */
  lemma OtherBelow(t: Tree, bd: BoundsMap, keyLen: nat, i: nat, key: Key) returns (m: nat, j: nat)
    requires Grown(t, bd, keyLen) && ROOT in t && i < |t[ROOT].entries|
    requires t[ROOT].entries[i].left != 0 && !Only(t, t[ROOT].entries[i].left, key)
    ensures m in t && m != ROOT && j < |t[m].entries| && t[m].entries[j].key != key
    ensures Beneath(t, t[ROOT].entries[i].left, m)
  {
    var c := t[ROOT].entries[i].left;
    LeftChild(t, bd, keyLen, i, 0);
    LeftChild(t, bd, keyLen, i, 1);
    if j0 :| 0 <= j0 < |t[c].entries| && t[c].entries[j0].key != key {
      m, j := c, j0;
    } else {
      var s := LoneSlot(t, bd, keyLen, i, key);
      m, j := Slot(t[c], s), 0;
    }
  }

  lemma ResetLoses(t: Tree, bd: BoundsMap, keyLen: nat, i: nat, id: RowId, key: Key, m: nat, j: nat)
    requires Grown(t, bd, keyLen) && |key| == keyLen && MeetsDeleted(t, i, key)
    requires t[ROOT].entries[i].left != 0 && Beneath(t, t[ROOT].entries[i].left, m)
    requires m in t && m != ROOT && j < |t[m].entries| && t[m].entries[j].key != key
    ensures !OthersKept(t, Reset(t, i, id, key), keyLen, key)
  {
    var k, val := t[m].entries[j].key, t[m].entries[j].val;
    UniformSearchable(t, bd, keyLen);
    assert InTree(t, keyLen, m);
    LinkBeneath(t, bd, ROOT, i, m);
    RecordFound(t, bd, ROOT, m, j);
    SlotTakes(t, bd, ROOT, i, m, j);
    ResetHidesBetween(t, bd, keyLen, i, id, key, k);
    hide Lookup, PlaceOf, Beneath;
    assert ValueRow(t, k) == Some(val) && ValueRow(Reset(t, i, id, key), k) == None;
  }

  // The shortest run that loses a key: set [9], set [5], del [9], and then set [3] or set [9].

  const NINE := Node(ROOT, 0, 0, [Entry(4, NO_ROW, [9])])
  const FIVE := Node(4, ROOT, 0, [Entry(0, RowId(5, 1), [5])])

  const AFTER_DELETE: Tree := map[ROOT := NINE, 4 := FIVE]

  /** A root with one record gets a left child with one record, and its own record is deleted. */
  lemma TwoSetsOneDelete(e: Entry, e': Entry, c: nat)
    requires ROOT < c
    ensures var t: Tree := AddEntry(map[ROOT := EMPTY_ROOT], ROOT, e);
            t[ROOT] == Node(ROOT, 0, 0, [e])
            && Erase(AddEntry(AddChild(t, ROOT, 0, c), c, e'), ROOT, 0)
               == map[ROOT := Node(ROOT, 0, 0, [Entry(c, NO_ROW, e.key)]), c := Node(c, ROOT, 0, [e'])]
  {
    var t: Tree := AddEntry(map[ROOT := EMPTY_ROOT], ROOT, e);
    assert [] + [e] == [e] && [] + [e'] == [e'];
    assert [e][0 := e.(left := c)] == [e.(left := c)];
    assert AddChild(t, ROOT, 0, c) == map[ROOT := Node(ROOT, 0, 0, [e.(left := c)]), c := Node(c, ROOT, 0, [])];
    assert [e.(left := c)][0 := Entry(c, NO_ROW, e.key)] == [Entry(c, NO_ROW, e.key)];
  }

  lemma AfterDeleteMade()
    ensures var t: Tree := AddEntry(map[ROOT := EMPTY_ROOT], ROOT, Entry(0, RowId(3, 1), [9]));
            t[ROOT] == Node(ROOT, 0, 0, [Entry(0, RowId(3, 1), [9])])
            && AFTER_DELETE == Erase(AddEntry(AddChild(t, ROOT, 0, 4), 4, Entry(0, RowId(5, 1), [5])), ROOT, 0)
  {
    TwoSetsOneDelete(Entry(0, RowId(3, 1), [9]), Entry(0, RowId(5, 1), [5]), 4);
    hide AddEntry, AddChild, Erase;
  }

  lemma AfterDeletePlaces()
    ensures PlaceOf(NINE, [9]) == Match(0)
    ensures PlaceOf(NINE, [3]) == Below(0) && PlaceOf(NINE, [5]) == Below(0)
    ensures PlaceOf(FIVE, [5]) == Match(0)
  {
    FirstByteLess([3], [9]);
    FirstByteLess([5], [9]);
    MatchPlace(NINE, 0);
    MatchPlace(FIVE, 0);
    PlaceUnique(NINE, [3], Below(0));
    PlaceUnique(NINE, [5], Below(0));
  }

  /** The key [5], which nobody deleted, is lost by a set of [3] and by a set of [9]. */
  lemma ResetLosesFive(id: RowId)
    requires id != NO_ROW
    ensures MeetsDeleted(AFTER_DELETE, 0, [3]) && MeetsDeleted(AFTER_DELETE, 0, [9])
    ensures ValueRow(AFTER_DELETE, [5]) == Some(RowId(5, 1))
    ensures ValueRow(Reset(AFTER_DELETE, 0, id, [3]), [5]) == None
    ensures ValueRow(Reset(AFTER_DELETE, 0, id, [9]), [5]) == None
  {
    AfterDeletePlaces();
    AfterDeleteGrown();
    hide PlaceOf, Grown;
    var t, bd := AFTER_DELETE, AFTER_BOUNDS;
    assert Lookup(t, ROOT, [5]) == LookupChild(t, ROOT, 4, [5]) == Lookup(t, 4, [5]);
    ResetHidesBetween(t, bd, 1, 0, id, [3], [5]);
    ResetHidesBetween(t, bd, 1, 0, id, [9], [5]);
  }

  const AFTER_BOUNDS: BoundsMap := map[ROOT := EVERYTHING, 4 := Bounds(None, Some([9]))]

  lemma AfterDeleteGrown()
    ensures Grown(AFTER_DELETE, AFTER_BOUNDS, 1)
  {
    var t, bd := AFTER_DELETE, AFTER_BOUNDS;
    FirstByteLess([5], [9]);
    assert bd.Keys == t.Keys;
    assert NodeBounded(t, bd, ROOT) && NodeBounded(t, bd, 4);
    assert Slot(t[ROOT], 0) == 4 && HasParent(t, 4);
    assert InTree(t, 1, ROOT) && InTree(t, 1, 4);
  }
}
