/** The index: a map from keys to values, kept in the rows of one data file. */
module KvIndexes {
  import opened Bytes
  import opened Page
  import opened HeapFile
  import opened HeapRows
  import opened DataFiles
  import opened NodeCodec
  import opened KeyOrder
  import opened IndexTree
  import opened IndexOrder
  import opened IndexStore
  import opened IndexState
  import opened IndexDelete
  import opened NodeBuffer

  class KvIndex {
    const dbf: DataFile
    ghost const keyLen: nat
    ghost var ix: Index

    /** The last value set for each key, and what a get yields for it. */
    ghost var last: map<Key, Bytes>
    ghost var shown: map<Key, Bytes>

    ghost predicate Open()
      reads this, dbf, dbf.Repr
    {
      && dbf.Valid()
      && this !in dbf.Repr
      && IndexOk(dbf.file, ix, keyLen)
    }

    ghost predicate Valid()
      reads this, dbf, dbf.Repr
    {
      && Open() && Holds(dbf.file, ix, keyLen, shown) && Filled(ix.tree)
      && Padded(last, shown)
    }

    /** What is yielded is the last value and then zeros. */
    static ghost predicate Padded(last: map<Key, Bytes>, shown: map<Key, Bytes>) {
      last.Keys == shown.Keys && forall k :: k in last ==> ZeroTail(last[k], shown[k])
    }

    /** A set of the key would not come upon a deleted record of the root. */
    ghost predicate CanSet(key: Key)
      reads this
    {
      AllLive(ix.tree) || (ROOT in ix.tree && Clear(ix.tree[ROOT], key))
    }

    /** init and open_index on a file that is not there yet. */
    constructor (ghost keyLen: nat)
      requires keyLen <= MAX_KEY
      ensures Valid() && fresh(dbf.Repr) && dbf in dbf.Repr && this !in dbf.Repr
      ensures this.keyLen == keyLen && last == shown == map[] && dbf.file.used == 2 && AllLive(ix.tree)
    {
      hide PageOk, FileOk, LinkOk, Owned, Represents, DataFile.Synced, Holds;
      this.keyLen := keyLen;
      dbf := new DataFile();
      ix := NewIndex(p => Role(p, true));
      last, shown := map[], map[];
      new;
      var head := new byte[NODE_LEN](i => 0);
      ZeroRoot(head[..]);
      SetNodeBlock(head, Node(0, 0, 0, []), ROOT);
      ghost var roles := CreateStored(EMPTY_ROOT, head[..]);
      var _ := dbf.Write(head[..]);
      NewIndexOk(dbf.file, roles, keyLen);
      ix := NewIndex(roles);
    }

    static lemma ZeroRoot(s: Bytes)
      requires s == Zeros(NODE_LEN)
      ensures Represents(s, Node(0, 0, 0, []))
    {
      assert Enc32(0) == [0, 0, 0, 0] && Enc16(0) == [0, 0];
      EmptyRepresents(s, 0);
    }

    // ---------------------------------------------------------------- nodes

    /** _save_node */
    method SaveNode(node: array<byte>, ghost roles: Roles, ghost t: Tree, ghost keyOf: KeyOf, ghost nd: Node)
      requires dbf.Valid() && this !in dbf.Repr && Stored(dbf.file, roles, t, keyOf)
      requires Represents(node[..], nd) && nd.block in t
      modifies dbf.Repr
      ensures dbf.Valid() && fresh(dbf.Repr - old(dbf.Repr)) && old(dbf.Repr) <= dbf.Repr
      ensures Stored(dbf.file, roles, t[nd.block := nd], keyOf)
      ensures HeapFile.Valid(old(dbf.file)) && HeapFile.Valid(dbf.file)
      ensures ValuesKept(old(dbf.file), dbf.file, keyOf, NO_ROW)
      ensures dbf.file.used == old(dbf.file).used
      ensures IsBlock(old(dbf.file), nd.block)
      ensures dbf.file == ModifyRow(old(dbf.file), NodeRow(nd.block), old(node[..])).0
    {
      hide HeapFile.Valid, DataFile.Valid, Represents, Stored, ValuesKept, ModifyRow;
      SaveFacts(dbf.file, roles, t, keyOf, nd, node[..]);
      var b := Get32(node[..], 0);
      var _ := dbf.Modify(NodeRow(b), node[..]);
    }

    static lemma SaveFacts(f: File, roles: Roles, t: Tree, keyOf: KeyOf, nd: Node, s: Bytes)
      requires Stored(f, roles, t, keyOf) && Represents(s, nd) && nd.block in t
      ensures HeapFile.Valid(f) && IsBlock(f, nd.block) && |s| >= 4 && Get32(s, 0) == nd.block
      ensures var g := ModifyRow(f, NodeRow(nd.block), s).0;
              && Stored(g, roles, t[nd.block := nd], keyOf)
              && HeapFile.Valid(g)
              && ValuesKept(f, g, keyOf, NO_ROW)
              && g.used == f.used
    {
      hide PageOk, FileOk, LinkOk, Owned;
      HeadFields(s, nd);
      SaveStored(f, roles, t, keyOf, nd.block, nd, s);
      assert NodeStored(f, roles, nd.block, t[nd.block]);
    }

    /** _get_node */
    method GetNode(n: nat) returns (node: array<byte>)
      requires dbf.Valid() && Stored(dbf.file, ix.roles, ix.tree, ix.keyOf) && n in ix.tree
      ensures fresh(node) && Represents(node[..], ix.tree[n])
    {
      hide PageOk, FileOk, LinkOk, Owned;
      assert NodeStored(dbf.file, ix.roles, n, ix.tree[n]);
      var _, row := dbf.Read(NodeRow(n));
      node := row;
    }

    /** _add_node: a new block with an empty node that knows its block and parent. */
    method AddNode(parent: nat) returns (c: nat, ghost roles: Roles)
      requires Open() && parent <= MAX_INT && dbf.file.used < MAX_INT
      modifies dbf.Repr
      ensures dbf.Valid() && fresh(dbf.Repr - old(dbf.Repr)) && old(dbf.Repr) <= dbf.Repr
      ensures HeapFile.Valid(old(dbf.file))
      ensures c == old(dbf.file).used + 1 == dbf.file.used
      ensures forall n :: n in ix.tree ==> n < c
      ensures Stored(dbf.file, roles, ix.tree[c := Node(c, parent, 0, [])], ix.keyOf)
      ensures ValuesKept(old(dbf.file), dbf.file, ix.keyOf, NO_ROW)
    {
      hide PageOk, FileOk, LinkOk, Owned, HeadIs, NodeFits, DataFile.Synced, NodeStored, ValueStored, Shaped;
      ghost var f, t := dbf.file, ix.tree;
      var node := NewNode(parent);
      ghost var nd := Node(0, parent, 0, []);
      roles := WriteNodeStored(f, ix.roles, t, ix.keyOf, nd, node[..]);
      c := dbf.WriteNewBlock(node[..]);
      ghost var f1 := dbf.file;
      SetNodeBlock(node, nd, c);
      ghost var t1: Tree := t[c := nd];
      SaveNode(node, roles, t1, ix.keyOf, nd.(block := c));
      ghost var t2: Tree := t1[c := nd.(block := c)];
      assert t2 == t[c := nd.(block := c)];
      KeptTrans(f, f1, dbf.file, ix.roles, t, ix.keyOf);
    }

    static lemma KeptTrans(f: File, g: File, h: File, roles: Roles, t: Tree, keyOf: KeyOf)
      requires Stored(f, roles, t, keyOf) && HeapFile.Valid(g) && HeapFile.Valid(h)
      requires ValuesKept(f, g, keyOf, NO_ROW) && ValuesKept(g, h, keyOf, NO_ROW)
      ensures ValuesKept(f, h, keyOf, NO_ROW)
    {
      hide PageOk, FileOk, LinkOk, Owned;
    }

    /** Links a new empty node into free slot `i` of node `n`. */
    method GrowNode(node: array<byte>, ghost n: nat, ghost i: nat, pos: int, ghost key: Key) returns (c: nat)
      requires Open() && n in ix.tree && Represents(node[..], ix.tree[n]) && node !in dbf.Repr
      requires ix.tree[n].block == n <= MAX_INT && n in ix.bounds
      requires i <= |ix.tree[n].entries| && Slot(ix.tree[n], i) == 0
      requires i == |ix.tree[n].entries| ==> FreeSpace(ix.tree[n]) < keyLen
      requires pos == if i < |ix.tree[n].entries| then Offset(ix.tree[n].entries, i) else -1
      requires dbf.file.used < MAX_INT
      modifies this`ix, dbf.Repr, node
      ensures Open() && fresh(dbf.Repr - old(dbf.Repr)) && old(dbf.Repr) <= dbf.Repr
      ensures HeapFile.Valid(old(dbf.file)) && HeapFile.Valid(dbf.file)
      ensures dbf.file.used == old(dbf.file).used + 1 && n < c <= MAX_INT && c !in old(ix).tree
      ensures ix == GrowIndex(old(ix), ix.roles, n, i, c)
      ensures Undisturbed(old(dbf.file), old(ix), dbf.file, ix, key, keyLen)
    {
      hide DataFile.Valid, Undisturbed, Stored, Shaped, ValuesKept, HeadIs, NodeFits, FileOk, LinkOk, FreeSpace;
      ghost var f, t, nd := dbf.file, ix.tree, ix.tree[n];
      HeadFields(node[..], nd);
      ghost var roles;
      var parent := Get32(node[..], 0);
      c, roles := AddNode(parent);
      ghost var f1 := dbf.file;
      ghost var t1: Tree := t[c := Node(c, n, 0, [])];
      SetSlot(node, nd, i, pos, c);
      SaveNode(node, roles, t1, ix.keyOf, WithSlot(nd, i, c));
      assert t1[n := WithSlot(nd, i, c)] == AddChild(t, n, i, c);
      KeptTrans(f, f1, dbf.file, ix.roles, t, ix.keyOf);
      GrowOk(f, ix, keyLen, dbf.file, roles, n, i, c, key);
      ix := GrowIndex(ix, roles, n, i, c);
    }

    // ---------------------------------------------------------------- get

    /** _find_key: the row id of the key's value, or block 0. */
    method FindKey(node: array<byte>, ghost n: nat, key: Key) returns (id: RowId)
      requires Open() && node !in dbf.Repr
      requires n in ix.tree && Represents(node[..], ix.tree[n])
      modifies node
      ensures match Lookup(ix.tree, n, key)
              case None => id == NO_ROW
              case Some(x) => id == x
      decreases MAX_INT - n
    {
      hide DataFile.Valid, HeadIs, NodeFits, Lookup, Stored, Shaped;
      ghost var nd := ix.tree[n];
      var pos, place := FindPos(node, nd, key);
      SearchStep(dbf.file, ix, keyLen, n, key, place);
      id := NO_ROW;
      var child := 0;
      if pos != -1 {
        var info := ReadInfo(node, nd, pos, place);
        LessTotal(info.key, key);
        if CmpKey(info.key, key) == 0 {
          id := info.val;
        } else {
          child := info.left;
        }
      } else {
        HeadFields(node[..], nd);
        child := Get32(node[..], 12);
      }
      if child != 0 {
        var childNode := GetNode(child);
        id := FindKey(childNode, child, key);
      }
    }

    /** _get: 0 and no bytes for a key that is not there. */
    method Get(key: Key) returns (ret: int, val: array?<byte>)
      requires Valid() && |key| == keyLen
      ensures if key in shown then
                val != null && ret == val.Length && val[..] == shown[key]
              else
                val == null && ret == 0
      ensures key in last <==> key in shown
      ensures key in last ==> ZeroTail(last[key], shown[key])
    {
      hide DataFile.Synced, Represents, Stored, Shaped, FileOk, LinkOk;
      RootAndHeap(dbf.file, ix, keyLen);
      assert Answer(dbf.file, ix, shown, key);
      var root := GetNode(ROOT);
      var id := FindKey(root, ROOT, key);
      if id.block == 0 { return 0, null; }
      ret, val := dbf.Read(id);
    }

    static lemma RootAndHeap(f: File, ix: Index, keyLen: nat)
      requires IndexOk(f, ix, keyLen)
      ensures ROOT in ix.tree && ix.tree[ROOT].block == ROOT && HeapFile.Valid(f)
    {
      assert InTree(ix.tree, keyLen, ROOT);
    }

    // ---------------------------------------------------------------- del

    /** _del: only the root is searched, so a key further down stays. */
    method Del(key: Key)
      requires Valid() && |key| == keyLen
      modifies this, dbf.Repr
      ensures Valid() && fresh(dbf.Repr - old(dbf.Repr)) && old(dbf.Repr) <= dbf.Repr
      ensures ROOT in old(ix).tree
      ensures last == if HasKey(old(ix).tree[ROOT], key) then old(last) - {key} else old(last)
      ensures shown == if HasKey(old(ix).tree[ROOT], key) then old(shown) - {key} else old(shown)
      ensures !HasKey(old(ix).tree[ROOT], key) ==> dbf.file == old(dbf.file)
      ensures HeapFile.Valid(dbf.file)
      ensures forall e :: e in old(ix).tree[ROOT].entries && e.key == key && e.val != NO_ROW ==>
                RowGone(dbf.file, e.val)
      ensures dbf.file.used == old(dbf.file).used
    {
      hide DataFile.Synced, Represents, Stored, Shaped, FileOk, LinkOk, Holds, Filled, IsPlace, HasKey;
      RootAndHeap(dbf.file, ix, keyLen);
      ghost var nd := ix.tree[ROOT];
      var root := GetNode(ROOT);
      var pos, place := FindPos(root, nd, key);
      PlaceInNode(nd, key, place);
      DelStep(dbf.file, ix, keyLen, key, place);
      NoRowForKey(nd, key);
      if pos == -1 { return; }
      var info := ReadInfo(root, nd, pos, place);
      if info.val.block == 0 { return; }
      PlaceHasKey(nd, key, place);
      LessTotal(info.key, key);
      if CmpKey(info.key, key) == 0 {
        EraseValue(root, place.i, pos, info.val, key);
      }
    }

    static lemma NoRowForKey(nd: Node, key: Key)
      ensures !HasKey(nd, key) ==> forall e :: e in nd.entries && e.key == key ==> e.val == NO_ROW
    {
    }

    static lemma PlaceInNode(nd: Node, key: Key, place: Place)
      requires IsPlace(nd, key, place)
      ensures place.Match? || place.Below? ==> place.i < |nd.entries|
    {
    }

    static lemma PlaceHasKey(nd: Node, key: Key, place: Place)
      requires IsPlace(nd, key, place)
      ensures place.Match? ==> CmpKey(nd.entries[place.i].key, key) == 0
      ensures place.Below? ==> CmpKey(nd.entries[place.i].key, key) != 0
    {
      if place.Match? || place.Below? {
        LessTotal(nd.entries[place.i].key, key);
      }
    }

    /** Deletes the value of record `i` of the root and clears its id there. */
    method EraseValue(root: array<byte>, ghost i: nat, pos: nat, id: RowId, key: Key)
      requires Valid() && ROOT in ix.tree && Represents(root[..], ix.tree[ROOT]) && root !in dbf.Repr
      requires i < |ix.tree[ROOT].entries| && pos == Offset(ix.tree[ROOT].entries, i)
      requires ix.tree[ROOT].entries[i].key == key && ix.tree[ROOT].entries[i].val == id && id in ix.keyOf
      requires ix.tree[ROOT].block == ROOT
      modifies this, dbf.Repr, root
      ensures Valid() && fresh(dbf.Repr - old(dbf.Repr)) && old(dbf.Repr) <= dbf.Repr
      ensures last == old(last) - {key} && shown == old(shown) - {key}
      ensures HeapFile.Valid(dbf.file) && RowGone(dbf.file, id)
      ensures dbf.file.used == old(dbf.file).used
    {
      hide DataFile.Synced, Represents, Stored, Shaped, FileOk, LinkOk, Holds, Filled;
      ghost var f, nd := dbf.file, ix.tree[ROOT];
      RootAndHeap(f, ix, keyLen);
      DeleteValueStored(f, ix.roles, ix.tree, ix.keyOf, id);
      var _ := dbf.Delete(id);
      ghost var g := dbf.file;
      ClearVal(root, nd, i, pos);
      SaveLeavesRow(g, ix.roles, ix.tree, ix.keyOf - {id}, ROOT, Erased(nd, i), root[..], id);
      SaveNode(root, ix.roles, ix.tree, ix.keyOf - {id}, Erased(nd, i));
      EraseOk(f, ix, g, dbf.file, keyLen, i, shown);
      ix := EraseIndex(ix, ROOT, i);
      last, shown := last - {key}, shown - {key};
    }

    // ---------------------------------------------------------------- set

    /** write_row for the value of a new key. */
    method WriteValue(key: Key, value: Bytes) returns (id: RowId, ghost roles: Roles)
      requires Open()
      modifies dbf.Repr
      ensures dbf.Valid() && fresh(dbf.Repr - old(dbf.Repr)) && old(dbf.Repr) <= dbf.Repr
      ensures HeapFile.Valid(old(dbf.file)) && Stored(dbf.file, roles, ix.tree, ix.keyOf[id := key])
      ensures ValuesKept(old(dbf.file), dbf.file, ix.keyOf, NO_ROW)
      ensures id !in ix.keyOf && IsRecord(dbf.file, id) && ReadRow(dbf.file, id) == Row(value)
      ensures id.block <= old(dbf.file).used + 1 && id.idx <= MAX_SHORT
      ensures dbf.file.used <= old(dbf.file).used + 2 + Shares(|value|)
    {
      hide DataFile.Synced, NodeStored, ValueStored, Shaped, LinkOk, Owned, PageOk;
      roles := WriteValueStored(dbf.file, ix.roles, ix.tree, ix.keyOf, value, key);
      WriteGrowth(dbf.file, value);
      id := dbf.Write(value);
    }

    /** A record for a key the node does not have, at its tail. */
    method AppendValue(node: array<byte>, ghost n: nat, pos: nat, key: Key, value: Bytes)
      requires Open() && n in ix.tree && Represents(node[..], ix.tree[n]) && node !in dbf.Repr
      requires |key| == keyLen && n in ix.bounds && Within(ix.bounds[n], key)
      requires IsPlace(ix.tree[n], key, Tail) && pos == TailAt(ix.tree[n]) && Lookup(ix.tree, n, key) == None
      requires ix.tree[n].block == n
      requires dbf.file.used + 1 <= MAX_INT
      modifies this`ix, dbf.Repr, node
      ensures Open() && fresh(dbf.Repr - old(dbf.Repr)) && old(dbf.Repr) <= dbf.Repr
      ensures HeapFile.Valid(old(dbf.file)) && HeapFile.Valid(dbf.file)
      ensures SetDone(old(dbf.file), old(ix), dbf.file, ix, keyLen, n, key, value)
      ensures dbf.file.used <= old(dbf.file).used + 2 + Shares(|value|)
    {
      hide DataFile.Valid, Represents, Stored, Shaped, IsPlace, Appendable, SetDone, ValuesKept, FileOk, LinkOk;
      ghost var f, nd := dbf.file, ix.tree[n];
      var id, roles := WriteValue(key, value);
      ghost var f1 := dbf.file;
      var e := Entry(0, id, key);
      CanAppend(f, ix, keyLen, n, e);
      AppendRecord(node, nd, pos, e);
      ghost var keyOf1: KeyOf := ix.keyOf[id := key];
      SaveNode(node, roles, ix.tree, keyOf1, nd.(entries := nd.entries + [e]));
      AppendDone(f, ix, keyLen, f1, dbf.file, roles, n, e, value);
      ix := AppendIndex(ix, roles, n, e);
    }

    /** modify_row for the value of a key that has one. */
    method ModifyValue(ghost n: nat, id: RowId, key: Key, value: Bytes)
      requires Open() && id in ix.keyOf && ix.keyOf[id] == key && Lookup(ix.tree, n, key) == Some(id)
      modifies this`ix, dbf.Repr
      ensures Open() && fresh(dbf.Repr - old(dbf.Repr)) && old(dbf.Repr) <= dbf.Repr
      ensures HeapFile.Valid(old(dbf.file)) && HeapFile.Valid(dbf.file)
      ensures SetDone(old(dbf.file), old(ix), dbf.file, ix, keyLen, n, key, value)
      ensures dbf.file.used <= old(dbf.file).used + 2 + Shares(|value|)
    {
      hide DataFile.Synced, NodeStored, ValueStored, Shaped, SetDone, FileOk, LinkOk, Owned;
      ghost var f := dbf.file;
      ghost var roles := ModifyValueStored(f, ix.roles, ix.tree, ix.keyOf, id, value);
      ModifyGrowth(f, id, value);
      var _ := dbf.Modify(id, value);
      ModifyDone(f, ix, keyLen, dbf.file, roles, n, id, key, value);
      ix := ix.(roles := roles);
    }

    /** The blocks a set begun at a node may still take: one for a new node and two for the value. */
    static ghost function Need(nd: Node): nat {
      if nd.entries == [] then 1 else 2
    }

    /** _set_key */
    method SetKey(node: array<byte>, ghost n: nat, key: Key, value: Bytes)
      requires Open() && n in ix.tree && Represents(node[..], ix.tree[n]) && node !in dbf.Repr
      requires |key| == keyLen && n in ix.bounds && Within(ix.bounds[n], key) && Clear(ix.tree[n], key)
      requires dbf.file.used + Need(ix.tree[n]) <= MAX_INT
      modifies this`ix, dbf.Repr, node
      ensures Open() && fresh(dbf.Repr - old(dbf.Repr)) && old(dbf.Repr) <= dbf.Repr
      ensures HeapFile.Valid(old(dbf.file)) && HeapFile.Valid(dbf.file)
      ensures SetDone(old(dbf.file), old(ix), dbf.file, ix, keyLen, n, key, value)
      ensures dbf.file.used <= old(dbf.file).used + old(Need(ix.tree[n])) + 1 + Shares(|value|)
      decreases MAX_INT - n
    {
      hide DataFile.Valid, IndexOk, SetDone, HeadIs, NodeFits, Lookup;
      ghost var f, ix0, nd := dbf.file, ix, ix.tree[n];
      var pos, place := FindPos(node, nd, key);
      SearchStep(f, ix, keyLen, n, key, place);
      ClearRecord(ix, nd, key);
      if pos == -1 {
        HeadFields(node[..], nd);
        var right := Get32(node[..], 12);
        Descend(node, n, |nd.entries|, pos, right, key, value);
      } else {
        var info := ReadInfo(node, nd, pos, place);
        if info.val.block == 0 {
          AppendValue(node, n, pos, key, value);
        } else if CmpKey(info.key, key) == 0 {
          LessTotal(info.key, key);
          ModifyValue(n, info.val, key, value);
        } else {
          LessTotal(info.key, key);
          Descend(node, n, place.i, pos, info.left, key, value);
        }
      }
    }

    static lemma ClearRecord(ix: Index, nd: Node, key: Key)
      requires Clear(nd, key)
      ensures match PlaceOf(nd, key)
              case Match(i) => RecordKnown(ix, nd.entries[i]) ==>
                nd.entries[i].val in ix.keyOf && ix.keyOf[nd.entries[i].val] == nd.entries[i].key
                && nd.entries[i].val.block != 0
              case Below(i) => RecordKnown(ix, nd.entries[i]) ==> nd.entries[i].val.block != 0
              case _ => true
    {
    }

    /** Goes on in the child of slot `i`, after adding it if there is none. */
    method Descend(node: array<byte>, ghost n: nat, ghost i: nat, pos: int, child: nat, key: Key, value: Bytes)
      requires Open() && n in ix.tree && Represents(node[..], ix.tree[n]) && node !in dbf.Repr
      requires |key| == keyLen && n in ix.bounds && Within(ix.bounds[n], key)
      requires ix.tree[n].block == n && ROOT <= n <= MAX_INT
      requires dbf.file.used + 2 <= MAX_INT
      requires i <= |ix.tree[n].entries| && child == Slot(ix.tree[n], i) && ChildOk(ix, n, child)
      requires PlaceOf(ix.tree[n], key) == if i < |ix.tree[n].entries| then Below(i) else Full
      requires pos == if i < |ix.tree[n].entries| then Offset(ix.tree[n].entries, i) else -1
      modifies this`ix, dbf.Repr, node
      ensures Open() && fresh(dbf.Repr - old(dbf.Repr)) && old(dbf.Repr) <= dbf.Repr
      ensures HeapFile.Valid(old(dbf.file)) && HeapFile.Valid(dbf.file)
      ensures SetDone(old(dbf.file), old(ix), dbf.file, ix, keyLen, n, key, value)
      ensures dbf.file.used <= old(dbf.file).used + 3 + Shares(|value|)
      decreases MAX_INT - n, 1
    {
      hide DataFile.Valid, IndexOk, SetDone, Represents, Lookup, Undisturbed, PlaceOf;
      if child != 0 {
        SetInChild(n, i, child, key, value);
      } else {
        ghost var f, ix0 := dbf.file, ix;
        PlaceFacts(ix.tree[n], key);
        var c := GrowNode(node, n, i, pos, key);
        WithSlotOk(ix0.tree[n], i, c, key);
        ghost var f1, ix1 := dbf.file, ix;
        SetInChild(n, i, c, key, value);
        GrownDone(f, ix0, f1, ix1, dbf.file, ix, keyLen, n, i, c, key, value);
      }
    }

    static lemma OpenStored(f: File, ix: Index, keyLen: nat)
      requires IndexOk(f, ix, keyLen)
      ensures Stored(f, ix.roles, ix.tree, ix.keyOf)
    {
    }

    /** Sets the key in the child of slot `i`. */
    method SetInChild(ghost n: nat, ghost i: nat, c: nat, key: Key, value: Bytes)
      requires Open() && n in ix.tree && |key| == keyLen && n in ix.bounds && Within(ix.bounds[n], key)
      requires i <= |ix.tree[n].entries| && c == Slot(ix.tree[n], i) && c in ix.tree && n < c <= MAX_INT
      requires PlaceOf(ix.tree[n], key) == if i < |ix.tree[n].entries| then Below(i) else Full
      requires dbf.file.used + Need(ix.tree[c]) <= MAX_INT
      modifies this`ix, dbf.Repr
      ensures Open() && fresh(dbf.Repr - old(dbf.Repr)) && old(dbf.Repr) <= dbf.Repr
      ensures HeapFile.Valid(old(dbf.file)) && HeapFile.Valid(dbf.file)
      ensures SetDone(old(dbf.file), old(ix), dbf.file, ix, keyLen, n, key, value)
      ensures dbf.file.used <= old(dbf.file).used + old(Need(ix.tree[c])) + 1 + Shares(|value|)
      ensures c in ix.tree && ix.tree[c].entries != []
      decreases MAX_INT - n, 0
    {
      hide DataFile.Valid, IndexOk, SetDone, Represents, Lookup, Undisturbed, PlaceOf;
      ghost var f1, ix1 := dbf.file, ix;
      ChildTakes(f1, ix1, keyLen, n, i, key);
      OpenStored(f1, ix1, keyLen);
      var childNode := GetNode(c);
      SetKey(childNode, c, key, value);
      SetFills(f1, ix1, dbf.file, ix, keyLen, c, key, value);
      DescendDone(f1, ix1, dbf.file, ix, keyLen, n, i, key, value);
    }

    static lemma PlaceFacts(nd: Node, key: Key)
      ensures PlaceOf(nd, key) == Full ==> FreeSpace(nd) < |key|
    {
    }

    /** _set */
    method Set(key: Key, value: Bytes)
      requires Valid() && |key| == keyLen && CanSet(key)
      requires dbf.file.used + 2 <= MAX_INT
      modifies this, dbf.Repr
      ensures Valid() && fresh(dbf.Repr - old(dbf.Repr)) && old(dbf.Repr) <= dbf.Repr
      ensures last == old(last)[key := value]
      ensures key in shown && shown == old(shown)[key := shown[key]]
      ensures SetYields(ShownFor(old(shown), key), value, shown[key])
      ensures old(AllLive(ix.tree)) ==> AllLive(ix.tree)
      ensures dbf.file.used <= old(dbf.file).used + 3 + Shares(|value|)
    {
      hide DataFile.Valid, IndexOk, SetDone, Represents, Holds, Undisturbed, Found, Yield, SetYields;
      hide AllLive, Clear, Filled;
      ghost var f, ix0 := dbf.file, ix;
      RootTakesAll(f, ix, keyLen, key);
      OpenStored(f, ix, keyLen);
      RootClear(ix.tree, key);
      var root := GetNode(ROOT);
      SetKey(root, ROOT, key, value);
      SetDoneParts(f, ix0, dbf.file, ix, keyLen, key, value);
      YieldIs(f, ix0, keyLen, shown, key);
      ghost var after := Yield(dbf.file, ix, ROOT, key).value;
      SetHolds(f, ix0, dbf.file, ix, keyLen, shown, key, after);
      YieldPadded(Yield(f, ix0, ROOT, key), value, after);
      last, shown := last[key := value], shown[key := after];
    }

    static lemma SetDoneParts(f: File, ix: Index, g: File, ix': Index, keyLen: nat, key: Key, value: Bytes)
      requires HeapFile.Valid(f) && HeapFile.Valid(g) && SetDone(f, ix, g, ix', keyLen, ROOT, key, value)
      ensures Undisturbed(f, ix, g, ix', key, keyLen)
      ensures Yield(g, ix', ROOT, key).Some? && Found(g, ix', ROOT, key, Yield(g, ix', ROOT, key).value)
      ensures SetYields(Yield(f, ix, ROOT, key), value, Yield(g, ix', ROOT, key).value)
      ensures Filled(ix.tree) ==> Filled(ix'.tree)
      ensures AllLive(ix.tree) ==> AllLive(ix'.tree)
    {
    }

    static lemma YieldPadded(before: Option<Bytes>, value: Bytes, after: Bytes)
      requires SetYields(before, value, after)
      ensures ZeroTail(value, after)
    {
    }

    static lemma RootClear(t: Tree, key: Key)
      requires AllLive(t) || (ROOT in t && Clear(t[ROOT], key))
      ensures ROOT in t && Clear(t[ROOT], key)
    {
      if AllLive(t) { LiveIsClear(t[ROOT], key); }
    }
  }
}
