/** The whole state of an index and the steps a set takes through it. */
module IndexState {
  import opened Bytes
  import opened Page
  import opened HeapFile
  import opened HeapRows
  import opened HeapProofs
  import opened NodeCodec
  import opened IndexTree
  import opened IndexOrder
  import opened IndexRecords
  import opened IndexStore

  /** What is known of an index file besides its bytes. */
  datatype Index = Index(roles: Roles, tree: Tree, bounds: BoundsMap, keyOf: KeyOf)

  /** The record of a deleted key has the null row id. */
  ghost predicate EntryKnown(keyOf: KeyOf, e: Entry) {
    if e.val in keyOf then keyOf[e.val] == e.key else e.val == NO_ROW
  }

  ghost predicate NodeKnown(keyOf: KeyOf, nd: Node) {
    forall i :: 0 <= i < |nd.entries| ==> EntryKnown(keyOf, nd.entries[i])
  }

  /** Only records of the root lose their values. */
  ghost predicate LiveBelow(t: Tree) {
    forall n :: n in t && n != ROOT ==> NodeLive(t[n])
  }

  ghost predicate NodeLive(nd: Node) {
    forall i :: 0 <= i < |nd.entries| ==> nd.entries[i].val != NO_ROW
  }

  /** No key is deleted. */
  ghost predicate AllLive(t: Tree) {
    LiveBelow(t) && ROOT in t && NodeLive(t[ROOT])
  }

  ghost predicate Shaped(ix: Index, keyLen: nat) {
    && TreeOk(ix.tree, keyLen)
    && Ordered(ix.tree, ix.bounds)
    && ix.bounds[ROOT] == EVERYTHING
    && LiveBelow(ix.tree)
    && (forall n :: n in ix.tree ==> NodeKnown(ix.keyOf, ix.tree[n]))
  }

  /** The invariant of an index whose keys are `keyLen` bytes long. */
  ghost predicate IndexOk(f: File, ix: Index, keyLen: nat) {
    && keyLen <= MAX_KEY
    && Stored(f, ix.roles, ix.tree, ix.keyOf)
    && Shaped(ix, keyLen)
  }

  /** Nothing about other keys changes. */
  ghost predicate Undisturbed(f: File, ix: Index, g: File, ix': Index, key: Key, keyLen: nat)
    requires Valid(f) && Valid(g)
  {
    && (forall x :: x in ix.tree ==> x in ix'.tree)
    && (forall x, k :: x in ix.tree && |k| == keyLen && k != key ==> Lookup(ix'.tree, x, k) == Lookup(ix.tree, x, k))
    && (forall id :: id in ix.keyOf ==> id in ix'.keyOf && ix'.keyOf[id] == ix.keyOf[id])
    && (forall id :: id in ix.keyOf && ix.keyOf[id] != key ==>
          IsRecord(f, id) && IsRecord(g, id) && ReadRow(g, id) == ReadRow(f, id))
  }

  /** The bytes of the row a search for the key from node `n` leads to. */
  ghost function Yield(f: File, ix: Index, n: nat, key: Key): Option<Bytes>
    requires Valid(f)
  {
    match Lookup(ix.tree, n, key)
    case None => None
    case Some(id) =>
      if id in ix.keyOf && IsRecord(f, id) && ReadRow(f, id).Row? then Some(ReadRow(f, id).bytes) else None
  }

  /** Seen from node `n`, the key has a row that reads exactly `value`. */
  ghost predicate Found(f: File, ix: Index, n: nat, key: Key, value: Bytes)
    requires Valid(f)
  {
    Yield(f, ix, n, key) == Some(value)
  }

  /** What a key may yield after a set: the value, zero-filled only if it replaces a longer one. */
  ghost predicate SetYields(before: Option<Bytes>, value: Bytes, after: Bytes) {
    match before
    case None => after == value
    case Some(was) => after == value || (|value| < |was| && after == Pad(value, |was|))
  }

  // ---------------------------------------------------------------- the three steps of a set

  ghost function GrowIndex(ix: Index, roles: Roles, n: nat, i: nat, c: nat): Index
    requires n in ix.tree && n in ix.bounds && i <= |ix.tree[n].entries|
  {
    Index(roles, AddChild(ix.tree, n, i, c), ChildBounds(ix.tree, ix.bounds, n, i, c), ix.keyOf)
  }

  /** A new empty node in a free slot. */
  lemma GrowOk(f: File, ix: Index, keyLen: nat, g: File, roles: Roles, n: nat, i: nat, c: nat, key: Key)
    requires IndexOk(f, ix, keyLen) && Linkable(ix.tree, keyLen, n, i, c)
    requires Stored(g, roles, AddChild(ix.tree, n, i, c), ix.keyOf)
    requires ValuesKept(f, g, ix.keyOf, NO_ROW)
    ensures IndexOk(g, GrowIndex(ix, roles, n, i, c), keyLen)
    ensures Undisturbed(f, ix, g, GrowIndex(ix, roles, n, i, c), key, keyLen)
  {
    hide PageOk, FileOk, LinkOk, Owned, NodeStored, ValueStored, Shaped, TreeOk, Linkable;
    GrowShaped(ix, keyLen, roles, n, i, c);
    forall x, k | x in ix.tree && |k| == keyLen && k != key
      ensures Lookup(AddChild(ix.tree, n, i, c), x, k) == Lookup(ix.tree, x, k)
    {
      GrowLookup(ix.tree, keyLen, n, i, c, x, k);
    }
    KeptIds(f, g, ix.roles, ix.tree, ix.keyOf);
  }

  lemma GrowShaped(ix: Index, keyLen: nat, roles: Roles, n: nat, i: nat, c: nat)
    requires Shaped(ix, keyLen) && Linkable(ix.tree, keyLen, n, i, c)
    ensures TreeOk(ix.tree, keyLen) && n in ix.tree && n in ix.bounds && i <= |ix.tree[n].entries|
    ensures Shaped(GrowIndex(ix, roles, n, i, c), keyLen)
  {
    var t, t' := ix.tree, AddChild(ix.tree, n, i, c);
    AddChildTreeOk(t, keyLen, n, i, c);
    AddChildOrdered(t, ix.bounds, keyLen, n, i, c);
    hide InTree, NodeBounded, NodeLive, NodeKnown, TreeOk, Ordered, LiveBelow;
    GrowLive(t, n, i, c);
    forall x | x in t' ensures NodeKnown(ix.keyOf, t'[x]) {
      if x != c {
        assert NodeKnown(ix.keyOf, t[x]);
        WithSlotKnown(ix.keyOf, t[n], i, c);
      } else {
        EmptyKnown(ix.keyOf, t'[c]);
      }
    }
  }

  lemma EmptyKnown(keyOf: KeyOf, nd: Node)
    requires nd.entries == []
    ensures NodeKnown(keyOf, nd) && NodeLive(nd)
  {
  }

  lemma GrowLive(t: Tree, n: nat, i: nat, c: nat)
    requires n in t && i <= |t[n].entries| && c != ROOT
    ensures LiveBelow(t) ==> LiveBelow(AddChild(t, n, i, c))
    ensures AllLive(t) ==> AllLive(AddChild(t, n, i, c))
  {
    WithSlotLive(t[n], i, c);
    EmptyKnown(map[], Node(c, n, 0, []));
    hide NodeLive;
  }

  lemma WithSlotLive(nd: Node, i: nat, c: nat)
    requires i <= |nd.entries|
    ensures NodeLive(nd) ==> NodeLive(WithSlot(nd, i, c))
  {
  }

  lemma GrowLookup(t: Tree, keyLen: nat, n: nat, i: nat, c: nat, x: nat, k: Key)
    requires TreeOk(t, keyLen) && Linkable(t, keyLen, n, i, c) && x in t
    ensures Lookup(AddChild(t, n, i, c), x, k) == Lookup(t, x, k)
  {
    forall m, j | m in t && 0 <= j <= |t[m].entries| ensures Slot(t[m], j) != c {
      assert InTree(t, keyLen, m) && SlotOk(t, m, j);
    }
    assert n < c;
    AddChildLookup(t, n, i, c, x, k);
  }

  lemma WithSlotKnown(keyOf: KeyOf, nd: Node, i: nat, c: nat)
    requires NodeKnown(keyOf, nd) && i <= |nd.entries|
    ensures NodeKnown(keyOf, WithSlot(nd, i, c))
  {
    forall j | 0 <= j < |nd.entries| ensures EntryKnown(keyOf, WithSlot(nd, i, c).entries[j]) {
      assert EntryKnown(keyOf, nd.entries[j]);
    }
  }

  /** No value row is the null row id. */
  lemma KeptIds(f: File, g: File, roles: Roles, t: Tree, keyOf: KeyOf)
    requires Stored(f, roles, t, keyOf) && Valid(g) && ValuesKept(f, g, keyOf, NO_ROW)
    ensures forall id :: id in keyOf ==> IsRecord(f, id) && IsRecord(g, id) && ReadRow(g, id) == ReadRow(f, id)
  {
    hide PageOk, FileOk, LinkOk, Owned, NodeStored;
    assert NO_ROW in keyOf ==> ValueStored(f, roles, t, NO_ROW);
  }

  ghost function AppendIndex(ix: Index, roles: Roles, n: nat, e: Entry): Index
    requires n in ix.tree
  {
    Index(roles, AddEntry(ix.tree, n, e), ix.bounds, ix.keyOf[e.val := e.key])
  }

  /** A new record for a key that had none. */
  lemma AppendOk(f: File, ix: Index, keyLen: nat, g: File, roles: Roles, n: nat, e: Entry)
    requires IndexOk(f, ix, keyLen) && Appendable(ix.tree, keyLen, n, e)
    requires n in ix.bounds && Within(ix.bounds[n], e.key)
    requires e.val !in ix.keyOf && e.val != NO_ROW
    requires Stored(g, roles, AddEntry(ix.tree, n, e), ix.keyOf[e.val := e.key])
    requires ValuesKept(f, g, ix.keyOf, NO_ROW)
    ensures IndexOk(g, AppendIndex(ix, roles, n, e), keyLen)
    ensures Undisturbed(f, ix, g, AppendIndex(ix, roles, n, e), e.key, keyLen)
    ensures Lookup(AddEntry(ix.tree, n, e), n, e.key) == Some(e.val)
  {
    hide PageOk, FileOk, LinkOk, Owned, NodeStored, ValueStored, Shaped, TreeOk, Appendable;
    AppendShaped(ix, keyLen, roles, n, e);
    forall x, k | x in ix.tree && |k| == keyLen && k != e.key
      ensures Lookup(AddEntry(ix.tree, n, e), x, k) == Lookup(ix.tree, x, k)
    {
      AddEntryLookup(ix.tree, keyLen, n, e, x, k);
    }
    AddEntryFinds(ix.tree, keyLen, n, e);
    KeptIds(f, g, ix.roles, ix.tree, ix.keyOf);
  }

  lemma AppendShaped(ix: Index, keyLen: nat, roles: Roles, n: nat, e: Entry)
    requires Shaped(ix, keyLen) && Appendable(ix.tree, keyLen, n, e)
    requires n in ix.bounds && Within(ix.bounds[n], e.key) && e.val !in ix.keyOf && e.val != NO_ROW
    ensures n in ix.tree && Shaped(AppendIndex(ix, roles, n, e), keyLen)
  {
    var t, t' := ix.tree, AddEntry(ix.tree, n, e);
    var keyOf' := ix.keyOf[e.val := e.key];
    AddEntryTreeOk(t, keyLen, n, e);
    AddEntryOrdered(t, ix.bounds, keyLen, n, e);
    hide InTree, NodeBounded, NodeLive, NodeKnown, TreeOk, Ordered, LiveBelow;
    AppendLive(t, n, e);
    forall x | x in t' ensures NodeKnown(keyOf', t'[x]) {
      AppendKnown(ix.keyOf, t[x], e);
    }
  }

  lemma AppendNodeLive(nd: Node, e: Entry)
    requires e.val != NO_ROW
    ensures NodeLive(nd) ==> NodeLive(nd.(entries := nd.entries + [e]))
  {
  }

  lemma AppendLive(t: Tree, n: nat, e: Entry)
    requires n in t && e.val != NO_ROW
    ensures LiveBelow(t) ==> LiveBelow(AddEntry(t, n, e))
    ensures AllLive(t) ==> AllLive(AddEntry(t, n, e))
  {
    AppendNodeLive(t[n], e);
    hide NodeLive;
  }

  lemma AppendKnown(keyOf: KeyOf, nd: Node, e: Entry)
    requires NodeKnown(keyOf, nd) && e.val !in keyOf && e.val != NO_ROW
    ensures NodeKnown(keyOf[e.val := e.key], nd)
    ensures NodeKnown(keyOf[e.val := e.key], nd.(entries := nd.entries + [e]))
  {
    var nd' := nd.(entries := nd.entries + [e]);
    forall j | 0 <= j < |nd'.entries| ensures EntryKnown(keyOf[e.val := e.key], nd'.entries[j]) {
      assert j < |nd.entries| ==> EntryKnown(keyOf, nd.entries[j]);
    }
    forall j | 0 <= j < |nd.entries| ensures EntryKnown(keyOf[e.val := e.key], nd.entries[j]) {
      assert EntryKnown(keyOf, nd.entries[j]);
    }
  }

  lemma UndisturbedTrans(f: File, ix: Index, g: File, ix1: Index, h: File, ix2: Index, key: Key, keyLen: nat)
    requires Valid(f) && Valid(g) && Valid(h)
    requires Undisturbed(f, ix, g, ix1, key, keyLen) && Undisturbed(g, ix1, h, ix2, key, keyLen)
    ensures Undisturbed(f, ix, h, ix2, key, keyLen)
  {
    hide PageOk, FileOk, LinkOk;
  }

  // ---------------------------------------------------------------- the map the index refines

  /** A key of the map reads as it says; another has no row. */
  ghost predicate Answer(f: File, ix: Index, shown: map<Key, Bytes>, k: Key)
    requires Valid(f)
  {
    if k in shown then Found(f, ix, ROOT, k, shown[k])
    else Lookup(ix.tree, ROOT, k) == None || Lookup(ix.tree, ROOT, k) == Some(NO_ROW)
  }

  /** The index is the map `shown`. */
  ghost predicate Holds(f: File, ix: Index, keyLen: nat, shown: map<Key, Bytes>)
    requires Valid(f)
  {
    forall k: Key :: |k| == keyLen ==> Answer(f, ix, shown, k)
  }

  ghost function ShownFor(shown: map<Key, Bytes>, k: Key): Option<Bytes> {
    if k in shown then Some(shown[k]) else None
  }

  /** Before a set, the key yields what the map says. */
  lemma YieldIs(f: File, ix: Index, keyLen: nat, shown: map<Key, Bytes>, k: Key)
    requires Valid(f) && Holds(f, ix, keyLen, shown) && |k| == keyLen
    ensures Yield(f, ix, ROOT, k) == ShownFor(shown, k)
  {
    hide PageOk, FileOk, LinkOk;
    assert Answer(f, ix, shown, k);
  }

  /** A completed set updates the map at its key. */
  lemma SetHolds(f: File, ix: Index, g: File, ix': Index, keyLen: nat, shown: map<Key, Bytes>, key: Key, after: Bytes)
    requires IndexOk(f, ix, keyLen) && Valid(g) && |key| == keyLen
    requires Holds(f, ix, keyLen, shown)
    requires Undisturbed(f, ix, g, ix', key, keyLen) && Found(g, ix', ROOT, key, after)
    ensures Holds(g, ix', keyLen, shown[key := after])
  {
    hide PageOk, FileOk, LinkOk, Owned, NodeStored, ValueStored;
    forall k: Key | |k| == keyLen && k != key
      ensures Answer(g, ix', shown, k)
    {
      assert Answer(f, ix, shown, k);
      assert Lookup(ix'.tree, ROOT, k) == Lookup(ix.tree, ROOT, k);
      if k in shown {
        FoundKept(f, ix, g, ix', keyLen, key, k, shown[k]);
      }
    }
  }

  lemma FoundKept(f: File, ix: Index, g: File, ix': Index, keyLen: nat, key: Key, k: Key, value: Bytes)
    requires IndexOk(f, ix, keyLen) && Valid(g) && k != key
    requires Undisturbed(f, ix, g, ix', key, keyLen)
    requires Lookup(ix'.tree, ROOT, k) == Lookup(ix.tree, ROOT, k)
    requires Found(f, ix, ROOT, k, value)
    ensures Found(g, ix', ROOT, k, value)
  {
    hide PageOk, FileOk, LinkOk, Stored;
    var m, i := LookupFinds(ix.tree, ROOT, k);
    assert NodeKnown(ix.keyOf, ix.tree[m]) && EntryKnown(ix.keyOf, ix.tree[m].entries[i]);
  }

  const EMPTY_ROOT := Node(ROOT, 0, 0, [])

  ghost function NewIndex(roles: Roles): Index {
    Index(roles, map[ROOT := EMPTY_ROOT], map[ROOT := EVERYTHING], map[])
  }

  /** A fresh index is the empty map. */
  lemma NewIndexOk(f: File, roles: Roles, keyLen: nat)
    requires keyLen <= MAX_KEY && Stored(f, roles, map[ROOT := EMPTY_ROOT], map[])
    ensures IndexOk(f, NewIndex(roles), keyLen) && Holds(f, NewIndex(roles), keyLen, map[])
  {
    hide PageOk, FileOk, LinkOk, Owned, NodeStored;
    var t: Tree := map[ROOT := EMPTY_ROOT];
    assert InTree(t, keyLen, ROOT);
    assert forall k: Key :: |k| == keyLen ==> Lookup(t, ROOT, k) == None;
  }

  /** The value row of a record is a value row the index knows. */
  lemma KnownRow(f: File, ix: Index, keyLen: nat, n: nat, i: nat)
    requires IndexOk(f, ix, keyLen) && n in ix.tree && i < |ix.tree[n].entries|
    requires ix.tree[n].entries[i].val != NO_ROW
    ensures var id := ix.tree[n].entries[i].val;
            id in ix.keyOf && ix.keyOf[id] == ix.tree[n].entries[i].key && IsRecord(f, id) && ReadRow(f, id).Row?
  {
    hide PageOk, FileOk, LinkOk, Owned, NodeStored;
    assert NodeKnown(ix.keyOf, ix.tree[n]) && EntryKnown(ix.keyOf, ix.tree[n].entries[i]);
    assert ValueStored(f, ix.roles, ix.tree, ix.tree[n].entries[i].val);
  }

  /** A child link leads to a later node of the tree. */
  ghost predicate ChildOk(ix: Index, n: nat, c: nat) {
    c != 0 ==> c in ix.tree && n < c <= MAX_INT
  }

  ghost function LookupOr0(ix: Index, c: nat, key: Key): Option<RowId> {
    if c == 0 then None else Lookup(ix.tree, c, key)
  }

  lemma SlotLeads(ix: Index, keyLen: nat, n: nat, i: nat, key: Key)
    requires TreeOk(ix.tree, keyLen) && n in ix.tree && i <= |ix.tree[n].entries|
    ensures ChildOk(ix, n, Slot(ix.tree[n], i))
    ensures LookupChild(ix.tree, n, Slot(ix.tree[n], i), key) == LookupOr0(ix, Slot(ix.tree[n], i), key)
  {
    hide NodeOk, HasParent;
    assert InTree(ix.tree, keyLen, n) && SlotOk(ix.tree, n, i);
    var c := Slot(ix.tree[n], i);
    assert c in ix.tree ==> InTree(ix.tree, keyLen, c);
  }

  /** The record's value is a row of its key, unless the key was deleted. */
  ghost predicate RecordKnown(ix: Index, e: Entry) {
    e.val != NO_ROW ==> e.val in ix.keyOf && ix.keyOf[e.val] == e.key && e.val.block != 0
  }

  /** The record a set would use at this node was not deleted. */
  ghost predicate Clear(nd: Node, key: Key) {
    match PlaceOf(nd, key)
    case Match(i) => nd.entries[i].val != NO_ROW
    case Below(i) => nd.entries[i].val != NO_ROW
    case _ => true
  }

  lemma LiveIsClear(nd: Node, key: Key)
    requires NodeLive(nd)
    ensures Clear(nd, key)
  {
  }

  /** One step of a search, whatever place _find_pos found. */
  lemma {:induction false} SearchStep(f: File, ix: Index, keyLen: nat, n: nat, key: Key, place: Place)
    requires IndexOk(f, ix, keyLen) && n in ix.tree
    requires IsPlace(ix.tree[n], key, place)
    ensures place == PlaceOf(ix.tree[n], key)
    ensures ix.tree[n].block == n && ROOT <= n <= MAX_INT
    ensures |key| == keyLen && ix.tree[n].entries == [] ==> place == Tail
    ensures match place
            case Match(i) =>
              var e := ix.tree[n].entries[i];
              Lookup(ix.tree, n, key) == Some(e.val) && e.key == key && RecordKnown(ix, e)
            case Below(i) =>
              var e := ix.tree[n].entries[i];
              && ChildOk(ix, n, e.left) && e.key != key && RecordKnown(ix, e)
              && Lookup(ix.tree, n, key) == LookupOr0(ix, e.left, key)
            case Tail =>
              Lookup(ix.tree, n, key) == None
            case Full =>
              ChildOk(ix, n, ix.tree[n].right) && Lookup(ix.tree, n, key) == LookupOr0(ix, ix.tree[n].right, key)
  {
    hide PageOk, FileOk, LinkOk, Owned, Stored, HasParent, SlotOk, Ordered;
    assert InTree(ix.tree, keyLen, n);
    PlaceUnique(ix.tree[n], key, place);
    match place
    case Match(i) =>
      if ix.tree[n].entries[i].val != NO_ROW { KnownRow(f, ix, keyLen, n, i); }
    case Below(i) =>
      if ix.tree[n].entries[i].val != NO_ROW { KnownRow(f, ix, keyLen, n, i); }
      SlotLeads(ix, keyLen, n, i, key);
    case Tail =>
    case Full =>
      SlotLeads(ix, keyLen, n, |ix.tree[n].entries|, key);
  }

  // ---------------------------------------------------------------- what a set promises

  /** Other nodes stay as they are; `n` may change. */
  ghost predicate OnlyFrom(ix: Index, ix': Index, n: nat) {
    forall x :: x in ix.tree && x < n ==> x in ix'.tree && ix'.tree[x] == ix.tree[x]
  }

  /** Every node but the root has a record. */
  ghost predicate Filled(t: Tree) {
    forall n :: n in t && n != ROOT ==> t[n].entries != []
  }

  /** The trees that sets and deletes leave. */
  ghost predicate Grown(t: Tree, bd: BoundsMap, keyLen: nat) {
    && TreeOk(t, keyLen)
    && Ordered(t, bd)
    && bd[ROOT] == EVERYTHING
    && Filled(t)
    && LiveBelow(t)
  }

  ghost predicate NoNewEmpty(t: Tree, t': Tree) {
    forall x :: x in t' && t'[x].entries == [] ==> x in t && t[x].entries == []
  }

  /** A set of `key`, begun at node `n`, is done. */
  ghost predicate SetDone(f: File, ix: Index, g: File, ix': Index, keyLen: nat, n: nat, key: Key, value: Bytes)
    requires Valid(f) && Valid(g)
  {
    && Undisturbed(f, ix, g, ix', key, keyLen)
    && Yield(g, ix', n, key).Some?
    && SetYields(Yield(f, ix, n, key), value, Yield(g, ix', n, key).value)
    && OnlyFrom(ix, ix', n)
    && NoNewEmpty(ix.tree, ix'.tree)
    && (AllLive(ix.tree) ==> AllLive(ix'.tree))
  }

  lemma EmptyTakes(nd: Node, key: Key)
    requires |key| <= MAX_KEY
    ensures nd.entries == [] ==> PlaceOf(nd, key) == Tail
  {
  }

  /** The node a set begins at has a record afterwards. */
  lemma SetFills(f: File, ix: Index, g: File, ix': Index, keyLen: nat, n: nat, key: Key, value: Bytes)
    requires Valid(f) && IndexOk(g, ix', keyLen) && |key| == keyLen
    requires SetDone(f, ix, g, ix', keyLen, n, key, value)
    ensures n in ix'.tree && ix'.tree[n].entries != []
  {
    hide PageOk, FileOk, LinkOk, Stored, Shaped, Undisturbed, OnlyFrom, NoNewEmpty;
    assert Lookup(ix'.tree, n, key).Some?;
    EmptyTakes(ix'.tree[n], key);
  }

  lemma NodeInTree(ix: Index, keyLen: nat, n: nat, e: Entry)
    requires Appendable(ix.tree, keyLen, n, e)
    ensures n in ix.tree
  {
  }

  /** Appending a record for a value just written. */
  lemma AppendDone(f: File, ix: Index, keyLen: nat, f1: File, g: File, roles: Roles, n: nat, e: Entry, value: Bytes)
    requires IndexOk(f, ix, keyLen) && Appendable(ix.tree, keyLen, n, e)
    requires n in ix.bounds && Within(ix.bounds[n], e.key) && e.val !in ix.keyOf
    requires Lookup(ix.tree, n, e.key) == None
    requires Valid(f1) && IsRecord(f1, e.val) && ReadRow(f1, e.val) == Row(value)
    requires Stored(g, roles, AddEntry(ix.tree, n, e), ix.keyOf[e.val := e.key])
    requires ValuesKept(f, f1, ix.keyOf, NO_ROW) && ValuesKept(f1, g, ix.keyOf[e.val := e.key], NO_ROW)
    ensures IndexOk(g, AppendIndex(ix, roles, n, e), keyLen)
    ensures SetDone(f, ix, g, AppendIndex(ix, roles, n, e), keyLen, n, e.key, value)
  {
    hide PageOk, FileOk, LinkOk, Owned, NodeStored, ValueStored, Shaped, Appendable, AllLive;
    AppendOk(f, ix, keyLen, g, roles, n, e);
    NodeInTree(ix, keyLen, n, e);
    AppendLive(ix.tree, n, e);
  }

  /** Descending into the child of slot `i`, what is done there is done here. */
  lemma DescendDone(f: File, ix: Index, g: File, ix': Index, keyLen: nat, n: nat, i: nat, key: Key, value: Bytes)
    requires Valid(f) && Valid(g) && n in ix.tree && i <= |ix.tree[n].entries|
    requires n < Slot(ix.tree[n], i) <= MAX_INT
    requires SetDone(f, ix, g, ix', keyLen, Slot(ix.tree[n], i), key, value)
    requires PlaceOf(ix.tree[n], key) == if i < |ix.tree[n].entries| then Below(i) else Full
    ensures SetDone(f, ix, g, ix', keyLen, n, key, value)
  {
    hide PageOk, FileOk, LinkOk, Undisturbed, PlaceOf;
    var c := Slot(ix.tree[n], i);
    assert ix'.tree[n] == ix.tree[n];
    assert Lookup(ix.tree, n, key) == LookupChild(ix.tree, n, c, key) == Lookup(ix.tree, c, key);
    assert Lookup(ix'.tree, n, key) == LookupChild(ix'.tree, n, c, key) == Lookup(ix'.tree, c, key);
  }

  /** A key that belongs to a slot without child is absent, and still is after the child was added. */
  lemma NewChildAbsent(t: Tree, n: nat, i: nat, c: nat, key: Key)
    requires n in t && i <= |t[n].entries| && n < c && Slot(t[n], i) == 0
    requires PlaceOf(t[n], key) == if i < |t[n].entries| then Below(i) else Full
    ensures Lookup(t, n, key) == None && Lookup(AddChild(t, n, i, c), n, key) == None
  {
    var t' := AddChild(t, n, i, c);
    WithSlotOk(t[n], i, c, key);
    hide PlaceOf;
    assert Lookup(t', c, key) == None;
    assert Lookup(t', n, key) == LookupChild(t', n, c, key);
  }

  lemma GrownTree(ix: Index, ix1: Index, ix': Index, n: nat, i: nat, c: nat)
    requires n in ix.tree && i <= |ix.tree[n].entries| && ROOT <= n < c
    requires ix1.tree == AddChild(ix.tree, n, i, c)
    requires OnlyFrom(ix1, ix', n) && NoNewEmpty(ix1.tree, ix'.tree)
    requires AllLive(ix1.tree) ==> AllLive(ix'.tree)
    requires c in ix'.tree && ix'.tree[c].entries != []
    ensures OnlyFrom(ix, ix', n) && NoNewEmpty(ix.tree, ix'.tree)
    ensures AllLive(ix.tree) ==> AllLive(ix'.tree)
  {
    GrowLive(ix.tree, n, i, c);
    hide AllLive;
    assert forall x :: x in ix.tree && x < n ==> ix1.tree[x] == ix.tree[x];
  }

  /** Adding a child first changes nothing of that. */
  lemma GrownDone(f: File, ix: Index, f1: File, ix1: Index, g: File, ix': Index, keyLen: nat,
                  n: nat, i: nat, c: nat, key: Key, value: Bytes)
    requires Valid(f) && Valid(f1) && Valid(g)
    requires n in ix.tree && n in ix.bounds && i <= |ix.tree[n].entries| && ROOT <= n < c
    requires Slot(ix.tree[n], i) == 0
    requires PlaceOf(ix.tree[n], key) == if i < |ix.tree[n].entries| then Below(i) else Full
    requires ix1 == GrowIndex(ix, ix1.roles, n, i, c)
    requires Undisturbed(f, ix, f1, ix1, key, keyLen)
    requires SetDone(f1, ix1, g, ix', keyLen, n, key, value)
    requires c in ix'.tree && ix'.tree[c].entries != []
    ensures SetDone(f, ix, g, ix', keyLen, n, key, value)
  {
    hide Valid, PageOk, FileOk, LinkOk, Undisturbed, AllLive, NoNewEmpty, OnlyFrom, NodeLive;
    UndisturbedTrans(f, ix, f1, ix1, g, ix', key, keyLen);
    GrownTree(ix, ix1, ix', n, i, c);
    assert Yield(f, ix, n, key) == None == Yield(f1, ix1, n, key) by {
      NewChildAbsent(ix.tree, n, i, c, key);
    }
  }

  /** A key placed at the tail can be appended there. */
  lemma CanAppend(f: File, ix: Index, keyLen: nat, n: nat, e: Entry)
    requires IndexOk(f, ix, keyLen) && n in ix.tree
    requires |e.key| == keyLen && e.left == 0 && e.val.block <= MAX_INT && e.val.idx <= MAX_SHORT
    requires IsPlace(ix.tree[n], e.key, Tail)
    ensures Appendable(ix.tree, keyLen, n, e) && EntryFits(e) && FreeSpace(ix.tree[n]) >= |e.key|
  {
    hide PageOk, FileOk, LinkOk, Owned, Stored, HasParent, SlotOk, Ordered;
    assert InTree(ix.tree, keyLen, n);
  }

  /** Replacing the value of a key that has one. */
  lemma ModifyDone(f: File, ix: Index, keyLen: nat, g: File, roles: Roles, n: nat, id: RowId, key: Key, value: Bytes)
    requires IndexOk(f, ix, keyLen) && id in ix.keyOf && ix.keyOf[id] == key && IsRecord(f, id)
    requires Lookup(ix.tree, n, key) == Some(id)
    requires Stored(g, roles, ix.tree, ix.keyOf) && ValuesKept(f, g, ix.keyOf, id)
    requires IsRecord(g, id) && ReadRow(g, id) == Row(Modified(f, id, value))
    ensures IndexOk(g, ix.(roles := roles), keyLen)
    ensures SetDone(f, ix, g, ix.(roles := roles), keyLen, n, key, value)
  {
    hide PageOk, FileOk, LinkOk, Owned, NodeStored, TreeOk, Ordered;
    assert ValueStored(f, ix.roles, ix.tree, id);
    ModifiedIs(f, id, value);
    hide ValueStored, Modified;
  }

  /** The root takes every key. */
  lemma RootTakesAll(f: File, ix: Index, keyLen: nat, key: Key)
    requires IndexOk(f, ix, keyLen)
    ensures ROOT in ix.tree && ROOT in ix.bounds && Within(ix.bounds[ROOT], key)
  {
  }

  lemma ChildClear(ix: Index, keyLen: nat, n: nat, i: nat, key: Key)
    requires Shaped(ix, keyLen) && n in ix.tree && i <= |ix.tree[n].entries|
    ensures var c := Slot(ix.tree[n], i); c != 0 && c in ix.tree ==> Clear(ix.tree[c], key)
  {
    hide Ordered, NodeOk, HasParent, Clear, NodeLive;
    assert InTree(ix.tree, keyLen, n) && SlotOk(ix.tree, n, i);
    var c := Slot(ix.tree[n], i);
    if c != 0 && c in ix.tree {
      LiveIsClear(ix.tree[c], key);
    }
  }

  /** A key in bounds at a node is in bounds at the child its place leads to. */
  lemma ChildTakes(f: File, ix: Index, keyLen: nat, n: nat, i: nat, key: Key)
    requires IndexOk(f, ix, keyLen) && n in ix.tree && n in ix.bounds && Within(ix.bounds[n], key)
    requires i <= |ix.tree[n].entries|
    requires PlaceOf(ix.tree[n], key) == if i < |ix.tree[n].entries| then Below(i) else Full
    requires Slot(ix.tree[n], i) != 0
    ensures var c := Slot(ix.tree[n], i);
            c in ix.bounds && Within(ix.bounds[c], key) && (c in ix.tree ==> Clear(ix.tree[c], key))
  {
    hide PageOk, FileOk, LinkOk, Owned, Stored, HasParent;
    ChildClear(ix, keyLen, n, i, key);
    assert InTree(ix.tree, keyLen, n) && NodeBounded(ix.tree, ix.bounds, n);
    DescendWithin(ix.tree[n], ix.bounds[n], key);
  }
}
