/** Index nodes and values as rows of one data file. */
module IndexStore {
  import opened Bytes
  import opened Page
  import opened HeapFile
  import opened HeapRows
  import opened HeapProofs
  import opened NodeCodec
  import opened IndexTree

  /** The key whose value a row holds. */
  type KeyOf = map<RowId, Key>

  function NodeRow(n: nat): RowId {
    RowId(n, 1)
  }

  /** A node row is never chained, migrated or deleted, and its offset leaves its block no room. */
  ghost predicate NodeStored(f: File, roles: Roles, n: nat, nd: Node)
    requires HeapOk(f, roles)
  {
    var p := NodeRow(n);
    && IsRow(f, roles, p)
    && Rec(f, p) == Record(false, false, false, RECORD_SIZE, NODE_LEN, Rec(f, p).next)
    && ReadRow(f, p).Row?
    && Represents(ReadRow(f, p).bytes, nd)
  }

  ghost predicate ValueStored(f: File, roles: Roles, t: Tree, id: RowId)
    requires HeapOk(f, roles)
  {
    IsRow(f, roles, id) && ReadRow(f, id).Row? && (id.idx == 1 ==> id.block !in t)
  }

  ghost predicate Stored(f: File, roles: Roles, t: Tree, keyOf: KeyOf) {
    && HeapOk(f, roles)
    && (forall n :: n in t ==> NodeStored(f, roles, n, t[n]))
    && (forall id :: id in keyOf ==> ValueStored(f, roles, t, id))
  }

  ghost predicate ValuesKept(f: File, g: File, keyOf: KeyOf, but: RowId)
    requires Valid(f) && Valid(g)
  {
    forall id :: id in keyOf && id != but ==>
      IsRecord(f, id) && IsRecord(g, id) && ReadRow(g, id) == ReadRow(f, id)
  }

  /** A node shares its block with no other row. */
  lemma NodeAlone(f: File, roles: Roles, t: Tree, keyOf: KeyOf, n: nat, p: RowId)
    requires Stored(f, roles, t, keyOf) && n in t
    requires IsRecord(f, p) && p.block == n
    ensures p == NodeRow(n) && n <= f.used
  {
    assert NodeStored(f, roles, n, t[n]);
    assert RecordOk(f.blocks[n], 0);
  }

  /** Rows not served by the changed record stay stored. */
  lemma StoredFrame(f: File, g: File, roles: Roles, roles': Roles, t: Tree, keyOf: KeyOf, hole: RowId)
    requires Stored(f, roles, t, keyOf) && HeapOk(g, roles')
    requires IsRecord(f, hole) && KeepsBut(f, g, hole)
    requires forall x :: IsRow(f, roles, x) ==> IsRow(g, roles', x)
    ensures forall n :: n in t && NodeRow(n) != roles(hole).owner ==> NodeStored(g, roles', n, t[n])
    ensures forall id :: id in keyOf && id != roles(hole).owner ==>
              ValueStored(g, roles', t, id) && ReadRow(g, id) == ReadRow(f, id)
  {
    hide PageOk, Represents;
    forall n | n in t && NodeRow(n) != roles(hole).owner ensures NodeStored(g, roles', n, t[n]) {
      assert NodeStored(f, roles, n, t[n]);
      assert Same(f, g, NodeRow(n));
      ModifyFrame(f, g, roles, hole, NodeRow(n));
    }
    forall id | id in keyOf && id != roles(hole).owner
      ensures ValueStored(g, roles', t, id) && ReadRow(g, id) == ReadRow(f, id)
    {
      assert ValueStored(f, roles, t, id);
      ModifyFrame(f, g, roles, hole, id);
    }
  }

  /** Modifying a node row by a whole node overwrites it where it is. */
  lemma SaveInPlace(f: File, roles: Roles, n: nat, nd: Node, s: Bytes)
    requires HeapOk(f, roles) && NodeStored(f, roles, n, nd) && |s| == NODE_LEN
    ensures var p := NodeRow(n); var (g, ok) := ModifyRow(f, p, s);
            && ok && HeapOk(g, roles) && KeepsBut(f, g, p) && SameRecords(f, g)
            && Rec(g, p) == Rec(f, p) && ReadRow(g, p) == Row(s)
            && g.used == f.used && |g.blocks| == |f.blocks|
  {
    hide PageOk, Represents;
    OverwriteOk(f, roles, NodeRow(n), s);
  }

  /** _save_node rewrites the node where it is. */
  lemma SaveStored(f: File, roles: Roles, t: Tree, keyOf: KeyOf, n: nat, nd: Node, s: Bytes)
    requires Stored(f, roles, t, keyOf) && n in t && Represents(s, nd)
    ensures var (g, ok) := ModifyRow(f, NodeRow(n), s);
            && ok && Stored(g, roles, t[n := nd], keyOf)
            && ValuesKept(f, g, keyOf, NO_ROW)
            && ReadRow(g, NodeRow(n)) == Row(s)
            && g.used == f.used && |g.blocks| == |f.blocks|
  {
    hide PageOk, HeadIs, NodeFits, FileOk, LinkOk, Owned, ModifyRow, ReadRow, RoleOk;
    var p := NodeRow(n);
    assert NodeStored(f, roles, n, t[n]);
    assert |s| == NODE_LEN;
    hide Represents;
    SaveInPlace(f, roles, n, t[n], s);
    RowIsOwner(f, roles, p);
    var g := ModifyRow(f, p, s).0;
    StoredFrame(f, g, roles, roles, t, keyOf, p);
    assert NodeStored(g, roles, n, nd);
    forall id | id in keyOf ensures ValueStored(g, roles, t[n := nd], id) && ReadRow(g, id) == ReadRow(f, id) {
      assert ValueStored(f, roles, t, id);
    }
  }

  lemma RowIsOwner(f: File, roles: Roles, p: RowId)
    requires HeapOk(f, roles) && IsRow(f, roles, p)
    ensures roles(p) == Role(p, true)
  {
    assert RoleOk(f, roles, p);
  }

  // ---------------------------------------------------------------- new rows

  /** A new row leaves all stored nodes and values as they are. */
  lemma WroteFrame(f: File, g: File, roles: Roles, t: Tree, keyOf: KeyOf, q: RowId, row: Bytes)
    requires Stored(f, roles, t, keyOf) && FileOk(g) && Wrote(f, g, NO_ROW, q, row)
    ensures Stored(g, Grow(f, roles, q, q), t, keyOf)
    ensures ValuesKept(f, g, keyOf, NO_ROW)
    ensures !IsRecord(f, q) && ReadRow(g, q) == Row(row) && IsRow(g, Grow(f, roles, q, q), q)
    ensures q !in keyOf && (forall n :: n in t ==> q != NodeRow(n))
  {
    hide PageOk, Represents;
    WriteOk(f, g, roles, q, row);
    var roles' := Grow(f, roles, q, q);
    forall n | n in t ensures NodeStored(g, roles', n, t[n]) && q != NodeRow(n) {
      assert NodeStored(f, roles, n, t[n]) && Same(f, g, NodeRow(n));
    }
    forall id | id in keyOf ensures ValueStored(g, roles', t, id) && ReadRow(g, id) == ReadRow(f, id) && id != q {
      assert ValueStored(f, roles, t, id);
    }
  }

  /** write_row for a new value. */
  lemma WriteValueStored(f: File, roles: Roles, t: Tree, keyOf: KeyOf, v: Bytes, key: Key) returns (roles': Roles)
    requires Stored(f, roles, t, keyOf)
    ensures var (g, q) := WriteRow(f, v);
            && Stored(g, roles', t, keyOf[q := key])
            && ValuesKept(f, g, keyOf, NO_ROW)
            && q !in keyOf && ReadRow(g, q) == Row(v)
  {
    hide PageOk, Represents, FileOk, LinkOk, Owned;
    var (g, q) := WriteRow(f, v);
    WriteRowWrote(f, v);
    WroteFrame(f, g, roles, t, keyOf, q, v);
    roles' := Grow(f, roles, q, q);
    forall id | id in keyOf[q := key] ensures ValueStored(g, roles', t, id) {
    }
  }

  /** modify_row for the value of a key that is there. */
  lemma ModifyValueStored(f: File, roles: Roles, t: Tree, keyOf: KeyOf, id: RowId, v: Bytes) returns (roles': Roles)
    requires Stored(f, roles, t, keyOf) && id in keyOf
    ensures IsRecord(f, id)
    ensures var (g, ok) := ModifyRow(f, id, v);
            && ok && Stored(g, roles', t, keyOf)
            && ValuesKept(f, g, keyOf, id)
            && ReadRow(g, id) == Row(Modified(f, id, v))
  {
    hide PageOk, Represents, FileOk, LinkOk, Owned;
    assert ValueStored(f, roles, t, id);
    RowIsOwner(f, roles, id);
    roles' := ModifyOk(f, roles, id, v);
    var g := ModifyRow(f, id, v).0;
    StoredFrame(f, g, roles, roles', t, keyOf, Target(f, id));
    forall n | n in t ensures NodeRow(n) != id {
    }
    assert ValueStored(g, roles', t, id);
  }

  /** A node written to an unused block fills it. */
  lemma WriteNodeRecord(f: File, s: Bytes)
    requires FileOk(f) && f.blocks[f.used].records == [] && |s| == NODE_LEN
    ensures var g := WriteHere(f, s); var p := NodeRow(f.used);
            && NextRow(f) == p && IsRecord(g, p)
            && Rec(g, p) == Record(false, false, false, RECORD_SIZE, NODE_LEN, NO_ROW)
            && g.used == f.used && |g.blocks| == |f.blocks|
  {
    ReserveOk(f, |s|);
    CopyInKeeps(Reserve(f, |s|), NextRow(f), s);
  }

  /** write_row_new_block for a node: its block id is new and later than every node's. */
  lemma WriteNodeStored(f: File, roles: Roles, t: Tree, keyOf: KeyOf, nd: Node, s: Bytes) returns (roles': Roles)
    requires Stored(f, roles, t, keyOf) && Represents(s, nd)
    ensures var (g, q) := WriteRowNewBlock(f, s); var c := f.used + 1;
            && q == NodeRow(c) && g.used == c && (forall n :: n in t ==> n < c)
            && Stored(g, roles', t[c := nd], keyOf)
            && ValuesKept(f, g, keyOf, NO_ROW)
  {
    hide PageOk, NodeFits, HeadIs, LinkOk, Owned;
    var (g, q) := WriteRowNewBlock(f, s);
    var c := f.used + 1;
    WriteRowNewBlockWrote(f, s);
    WriteNodeRecord(NewBlock(f), s);
    WroteFrame(f, g, roles, t, keyOf, q, s);
    roles' := Grow(f, roles, q, q);
    forall n | n in t ensures n < c {
      assert NodeStored(f, roles, n, t[n]);
      NodeAlone(f, roles, t, keyOf, n, NodeRow(n));
    }
    assert NodeStored(g, roles', c, nd);
    forall id | id in keyOf ensures ValueStored(g, roles', t[c := nd], id) {
      assert ValueStored(f, roles, t, id) && ValueStored(g, roles', t, id);
    }
  }

  /** _create: the root is row 1 of block 2. */
  lemma CreateStored(nd: Node, s: Bytes) returns (roles: Roles)
    requires Represents(s, nd)
    ensures var (g, q) := WriteRow(Create(), s);
            && q == NodeRow(ROOT) && g.used == 2
            && Stored(g, roles, map[ROOT := nd], map[])
  {
    hide PageOk, NodeFits, HeadIs;
    var f := Create();
    var roles0 := (p: RowId) => Role(p, true);
    var (g, q) := WriteRow(f, s);
    assert FindBlock(f) == f;
    WriteRowWrote(f, s);
    WriteNodeRecord(f, s);
    WroteFrame(f, g, roles0, map[], map[], q, s);
    roles := Grow(f, roles0, q, q);
  }

  // ---------------------------------------------------------------- growth

  /** How many blocks a row fills. */
  function Shares(len: nat): nat {
    len / (DATA_LEN - RECORD_SIZE)
  }

  /** Once the block in use is full, the next one is taken, and it is empty. */
  lemma NextBlockEmpty(f: File)
    requires FileOk(f) && FreeBytes(f.blocks[f.used]) == 0
    ensures var g := FindBlock(f); g.used == f.used + 1 && g.blocks[g.used].records == []
  {
    hide PageOk;
    assert ExtendIfFull(f).blocks[f.used] == f.blocks[f.used];
  }

  /** The rest of a row that did not fit goes to an empty block. */
  lemma RestGoesToEmpty(f: File, data: Bytes)
    requires FileOk(f) && FreeBytes(f.blocks[f.used]) > 0 && FreeBytes(f.blocks[f.used]) < |data|
    ensures var n := Fitting(f, |data|); var g := FindBlock(Reserve(f, |data|));
            && 0 < n < |data|
            && g.used == f.used + 1 && g.blocks[g.used].records == []
            && WriteHere(f, data).used == WriteHere(g, data[n..]).used
  {
    hide PageOk;
    ReserveOk(f, |data|);
    NextBlockEmpty(Reserve(f, |data|));
  }

  /** A row started in an unused block takes a new block only for every full one. */
  lemma {:induction false} GrowthFromEmpty(f: File, data: Bytes)
    requires FileOk(f) && f.blocks[f.used].records == []
    ensures WriteHere(f, data).used <= f.used + Shares(|data|)
    decreases |data|
  {
    hide PageOk, WriteHere, Reserve, FindBlock;
    if FreeBytes(f.blocks[f.used]) < |data| {
      RestGoesToEmpty(f, data);
      assert Fitting(f, |data|) == DATA_LEN - RECORD_SIZE;
      GrowthFromEmpty(FindBlock(Reserve(f, |data|)), data[DATA_LEN - RECORD_SIZE..]);
    } else {
      FitsHere(f, data);
    }
  }

  lemma FitsHere(f: File, data: Bytes)
    requires FileOk(f) && FreeBytes(f.blocks[f.used]) > 0 && |data| <= FreeBytes(f.blocks[f.used])
    ensures WriteHere(f, data).used == f.used
  {
    hide PageOk;
    ReserveOk(f, |data|);
  }

  lemma SharesUp(a: nat, b: nat)
    requires a <= b
    ensures Shares(a) <= Shares(b)
  {
  }

  lemma GrowthWithRest(f: File, data: Bytes)
    requires FileOk(f) && FreeBytes(f.blocks[f.used]) > 0 && FreeBytes(f.blocks[f.used]) < |data|
    ensures WriteHere(f, data).used <= f.used + 1 + Shares(|data|)
  {
    RestGoesToEmpty(f, data);
    hide PageOk, WriteHere, FindBlock, FreeBytes, Fitting, Shares;
    var rest := data[Fitting(f, |data|)..];
    GrowthFromEmpty(FindBlock(Reserve(f, |data|)), rest);
    SharesUp(|rest|, |data|);
  }

  /** How far a write moves the block in use. */
  lemma Growth(f: File, data: Bytes)
    requires FileOk(f) && FreeBytes(f.blocks[f.used]) > 0
    ensures WriteHere(f, data).used <= f.used + 1 + Shares(|data|)
  {
    hide PageOk, WriteHere, Shares;
    if FreeBytes(f.blocks[f.used]) < |data| {
      GrowthWithRest(f, data);
    } else {
      FitsHere(f, data);
    }
  }

  /** A block with free space has fewer than 510 records. */
  lemma NextRowSmall(f: File)
    requires FileOk(f) && FreeBytes(f.blocks[f.used]) > 0
    ensures NextRow(f).idx < 511
  {
    var b := f.blocks[f.used];
    if b.records != [] {
      assert RecordOk(b, |b.records| - 1);
    }
  }

  lemma WriteGrowth(f: File, data: Bytes)
    requires FileOk(f)
    ensures WriteRow(f, data).0.used <= f.used + 2 + Shares(|data|)
    ensures WriteRow(f, data).1.block <= f.used + 1 && WriteRow(f, data).1.idx < 511
  {
    hide PageOk, FileOk;
    Growth(FindBlock(f), data);
    NextRowSmall(FindBlock(f));
  }

  /** A migrated row takes as much as a new one. */
  lemma {:induction false} ModifyGrowth(f: File, p: RowId, row: Bytes)
    requires Valid(f) && IsRecord(f, p)
    ensures ModifyRow(f, p, row).0.used <= f.used + 2 + Shares(|row|)
    decreases |f.blocks| - p.block, |f.blocks[p.block].records| - p.idx
  {
    hide PageOk, FileOk, WriteHere;
    assert LinkOk(f, p);
    var r := Rec(f, p);
    if r.migrated {
      ModifyGrowth(f, r.next, row);
    } else if r.chained || |row| > r.len {
      Growth(FindBlock(SetRec(f, p, r.(migrated := true))), row);
    }
  }
}
