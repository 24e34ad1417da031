/**
 * The row operations of a data file and the invariant that makes a file a map
 * from row ids to rows.
 */
module HeapRows {
  import opened Bytes
  import opened Page
  import opened HeapFile
  import opened HeapWrite

  // ---------------------------------------------------------------- operations

  /** The bytes of the chain that starts at `p`. */
  function ReadChain(f: File, p: RowId): (row: Bytes)
    requires Valid(f) && IsRecord(f, p) && !Rec(f, p).migrated
    ensures |row| == Rec(f, p).len
    decreases |f.blocks| - p.block
  {
    assert LinkOk(f, p);
    var own := FragmentAt(f, p);
    if |own| < Rec(f, p).len then own + ReadChain(f, Rec(f, p).next) else own
  }

  function ReadRow(f: File, p: RowId): ReadResult
    requires Valid(f) && IsBlock(f, p.block)
    decreases |f.blocks| - p.block, |f.blocks[p.block].records| - p.idx
  {
    if !IsRecord(f, p) then Missing
    else
      assert LinkOk(f, p);
      var r := Rec(f, p);
      if r.deleted then Gone
      else if r.migrated then ReadRow(f, r.next)
      else Row(ReadChain(f, p))
  }

  function WriteRow(f: File, row: Bytes): (r: (File, RowId))
    requires FileOk(f)
    ensures FileOk(r.0)
  {
    var g := FindBlock(f);
    (WriteHere(g, row), NextRow(g))
  }

  /** The file with the next, unwritten block in use. */
  function NewBlock(f: File): (g: File)
    requires FileOk(f)
    ensures FileOk(g) && g.blocks[g.used].records == [] && f.blocks <= g.blocks && g.used == f.used + 1
  {
    var g := ExtendIfFull(f);
    g.(used := g.used + 1)
  }

  function WriteRowNewBlock(f: File, row: Bytes): (r: (File, RowId))
    requires FileOk(f)
    ensures FileOk(r.0)
  {
    var g := NewBlock(f);
    (WriteHere(g, row), NextRow(g))
  }

  /** The row at `p` moves: its record only forwards to where `row` is written. */
  function Migrate(f: File, p: RowId, row: Bytes): (g: File)
    requires FileOk(f) && IsRecord(f, p)
    ensures FileOk(g)
  {
    hide PageOk;
    var r := Rec(f, p).(migrated := true);
    var f1 := SetRec(f, p, r);
    var f2 := FindBlock(f1);
    SetRecKeeps(f, p, r);
    FindBlockKeeps(f1);
    WriteKeeps(f2, row);
    assert Same(f1, f2, p) && Same(f2, WriteHere(f2, row), p);
    SetRec(WriteHere(f2, row), p, r.(next := NextRow(f2)))
  }

  /** _modify_row; the flag tells whether it was done. */
  function ModifyRow(f: File, p: RowId, row: Bytes): (r: (File, bool))
    requires Valid(f) && IsBlock(f, p.block)
    ensures FileOk(r.0)
    decreases |f.blocks| - p.block, |f.blocks[p.block].records| - p.idx
  {
    if !IsRecord(f, p) then (f, false)
    else
      assert LinkOk(f, p);
      var r := Rec(f, p);
      if r.deleted then (f, false)
      else if r.migrated then ModifyRow(f, r.next, row)
      else if r.chained || |row| > r.len then (Migrate(f, p, row), true)
      else (CopyIn(f, p, Pad(row, r.len)), true)
  }

  function DeleteRow(f: File, p: RowId): (r: (File, bool))
    requires FileOk(f) && IsBlock(f, p.block)
    ensures FileOk(r.0)
  {
    if !IsRecord(f, p) then (f, false)
    else (SetRec(f, p, Rec(f, p).(deleted := true)), true)
  }

  // ---------------------------------------------------------------- ownership

  /** Which written row a record serves, and whether it starts a copy of that row or continues a chain. */
  datatype Role = Role(owner: RowId, entry: bool)

  type Roles = RowId -> Role

  ghost predicate RoleOk(f: File, roles: Roles, p: RowId)
    requires IsRecord(f, p)
  {
    var r, o := Rec(f, p), roles(p).owner;
    && IsRecord(f, o)
    && roles(o) == Role(o, true)
    && (r.migrated ==> roles(p).entry && roles(r.next) == Role(o, true))
    && (r.chained && !r.migrated ==> roles(r.next) == Role(o, false))
    && (r.deleted ==> o == p)
  }

  /** Every record serves one row, and links stay within the row. */
  ghost predicate Owned(f: File, roles: Roles) {
    forall p :: IsRecord(f, p) ==> RoleOk(f, roles, p)
  }

  ghost predicate HeapOk(f: File, roles: Roles) {
    Valid(f) && Owned(f, roles)
  }

  /** `p` is an id some write returned. */
  ghost predicate IsRow(f: File, roles: Roles, p: RowId) {
    IsRecord(f, p) && roles(p).owner == p
  }

  /** The roles after records were added to `f` for the row `owner`, with `head` as their first. */
  ghost function Grow(f: File, roles: Roles, head: RowId, owner: RowId): Roles {
    p => if IsRecord(f, p) then roles(p) else Role(owner, p == head)
  }

  // ---------------------------------------------------------------- lemmas

  lemma {:induction false} ReadChainSpells(f: File, p: RowId, data: Bytes)
    requires Valid(f) && IsRecord(f, p) && Spells(f, p, data)
    ensures ReadChain(f, p) == data
    decreases |data|
  {
    hide PageOk;
    assert LinkOk(f, p);
    if Rec(f, p).chained {
      ReadChainSpells(f, Rec(f, p).next, data[|FragmentAt(f, p)|..]);
    }
  }

  /** A row reads the same as long as the records that serve it are the same. */
  lemma {:induction false} ReadChainFrame(f: File, g: File, roles: Roles, p: RowId)
    requires HeapOk(f, roles) && Valid(g)
    requires IsRecord(f, p) && !Rec(f, p).migrated
    requires forall q :: IsRecord(f, q) && roles(q).owner == roles(p).owner ==> Same(f, g, q)
    ensures IsRecord(g, p) && Rec(g, p) == Rec(f, p) && ReadChain(f, p) == ReadChain(g, p)
    decreases |f.blocks| - p.block
  {
    hide PageOk;
    assert LinkOk(f, p) && RoleOk(f, roles, p) && Same(f, g, p);
    if Rec(f, p).chained {
      ReadChainFrame(f, g, roles, Rec(f, p).next);
    }
  }

  lemma {:induction false} ReadRowFrame(f: File, g: File, roles: Roles, p: RowId)
    requires HeapOk(f, roles) && Valid(g)
    requires IsRecord(f, p)
    requires forall q :: IsRecord(f, q) && roles(q).owner == roles(p).owner ==> Same(f, g, q)
    ensures IsRecord(g, p) && ReadRow(f, p) == ReadRow(g, p)
    decreases |f.blocks| - p.block, |f.blocks[p.block].records| - p.idx
  {
    hide PageOk;
    assert LinkOk(f, p) && RoleOk(f, roles, p) && Same(f, g, p);
    if Rec(f, p).migrated {
      ReadRowFrame(f, g, roles, Rec(f, p).next);
    } else {
      ReadChainFrame(f, g, roles, p);
    }
  }
}
