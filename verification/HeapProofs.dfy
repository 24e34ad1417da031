/** What each row operation does to the map from row ids to rows. */
module HeapProofs {
  import opened Bytes
  import opened Page
  import opened HeapFile
  import opened HeapWrite
  import opened HeapRows

  /** A row was written at `q`; of the old records only `hole` changed. */
  ghost predicate Wrote(f: File, g: File, hole: RowId, q: RowId, row: Bytes)
    requires FileOk(f) && FileOk(g)
  {
    && KeepsBut(f, g, hole)
    && f.used <= q.block
    && Added(f, g, q)
    && Spells(g, q, row)
    && forall x :: Added(f, g, x) ==> AddedOk(f, g, q, x)
  }

  /** In place of its bytes, `hole` now forwards to `q`. */
  ghost predicate Forwards(f: File, g: File, hole: RowId, q: RowId)
    requires FileOk(f) && FileOk(g)
  {
    && IsRecord(f, hole) && IsRecord(g, hole)
    && Rec(g, hole) == Rec(f, hole).(migrated := true, next := q)
  }

  lemma WriteHereWrote(f: File, row: Bytes)
    requires FileOk(f) && FreeBytes(f.blocks[f.used]) > 0
    ensures Wrote(f, WriteHere(f, row), NO_ROW, NextRow(f), row)
  {
    hide PageOk;
    WriteKeeps(f, row);
    WriteSpells(f, row);
    forall x | Added(f, WriteHere(f, row), x) ensures AddedOk(f, WriteHere(f, row), NextRow(f), x) {
      WriteAdds(f, row, x);
    }
  }

  /** Writing after the allocator moved on is writing in the original file. */
  lemma WroteAfter(f: File, f': File, g: File, q: RowId, row: Bytes)
    requires FileOk(f) && FileOk(f') && FileOk(g)
    requires Keeps(f, f') && SameRecords(f, f') && Wrote(f', g, NO_ROW, q, row)
    ensures Wrote(f, g, NO_ROW, q, row)
  {
    hide PageOk;
    forall p | IsRecord(f, p) ensures Same(f, g, p) {
      assert Same(f, f', p) && Same(f', g, p);
    }
    forall x | Added(f, g, x) ensures AddedOk(f, g, q, x) {
      assert Added(f', g, x) && AddedOk(f', g, q, x);
    }
  }

  lemma WriteRowWrote(f: File, row: Bytes)
    requires FileOk(f)
    ensures var r := WriteRow(f, row); Wrote(f, r.0, NO_ROW, r.1, row)
  {
    hide PageOk;
    FindBlockKeeps(f);
    WriteHereWrote(FindBlock(f), row);
    WroteAfter(f, FindBlock(f), WriteRow(f, row).0, WriteRow(f, row).1, row);
  }

  /** The first record of a written row has as many of its bytes as the block has free. */
  lemma WriteHereHead(f: File, row: Bytes)
    requires FileOk(f) && FreeBytes(f.blocks[f.used]) > 0
    ensures var g, q := WriteHere(f, row), NextRow(f);
            IsRecord(g, q) && Rec(g, q).len == |row| && |FragmentAt(g, q)| == Fitting(f, |row|)
  {
    hide PageOk;
    var n, g := Fitting(f, |row|), Reserve(f, |row|);
    ReserveOk(f, |row|);
    if n == |row| {
      CopyInKeeps(g, NextRow(f), row);
    } else {
      var g' := FindBlock(g);
      FindBlockKeeps(g);
      WriteKeeps(g', row[n..]);
      assert Same(g, g', NextRow(f)) && Same(g', WriteHere(g', row[n..]), NextRow(f));
      ChainToKeeps(WriteHere(g', row[n..]), NextRow(f), NextRow(g'), row[..n]);
    }
  }

  /**
   * A row goes to the block in use as long as that has room for a byte, else
   * to the next block; it is split exactly when it cannot be taken whole, and
   * then its first part is the longest the block can take.
   */
  lemma WriteRowPlace(f: File, row: Bytes)
    requires FileOk(f)
    ensures var (g, q) := WriteRow(f, row);
            var blk := if HasRoom(f.blocks[f.used]) then f.blocks[f.used] else EMPTY_BLOCK;
            && q == (if HasRoom(f.blocks[f.used]) then RowId(f.used, |blk.records| + 1) else RowId(f.used + 1, 1))
            && IsRecord(g, q) && Rec(g, q).len == |row|
            && (row != [] ==> (Rec(g, q).chained <==> !CanTake(blk, |row|)))
            && (Rec(g, q).chained ==>
                  CanTake(blk, |FragmentAt(g, q)|) && !CanTake(blk, |FragmentAt(g, q)| + 1))
  {
    var f' := FindBlock(f);
    var blk := if HasRoom(f.blocks[f.used]) then f.blocks[f.used] else EMPTY_BLOCK;
    RoomIsFreeBytes(f.blocks[f.used]);
    WriteHereHead(f', row);
    forall len: nat | len > 0 ensures len <= FreeBytes(f'.blocks[f'.used]) <==> CanTake(blk, len) {
      FreeBytesExact(blk, len);
    }
    hide PageOk, CanTake, HasRoom;
  }

  lemma NewBlockKeeps(f: File)
    requires FileOk(f)
    ensures Keeps(f, NewBlock(f)) && SameRecords(f, NewBlock(f))
  {
    var g := NewBlock(f);
    forall p ensures IsRecord(f, p) <==> IsRecord(g, p) {
      assert p.block >= |f.blocks| ==> !IsRecord(g, p);
    }
  }

  lemma WriteRowNewBlockWrote(f: File, row: Bytes)
    requires FileOk(f)
    ensures var r := WriteRowNewBlock(f, row); Wrote(f, r.0, NO_ROW, r.1, row)
  {
    hide PageOk;
    NewBlockKeeps(f);
    WriteHereWrote(NewBlock(f), row);
    WroteAfter(f, NewBlock(f), WriteRowNewBlock(f, row).0, WriteRowNewBlock(f, row).1, row);
  }

  lemma MigrateWrote(f: File, p: RowId, row: Bytes) returns (q: RowId)
    requires FileOk(f) && IsRecord(f, p)
    ensures var g := Migrate(f, p, row); Wrote(f, g, p, q, row) && Forwards(f, g, p, q) && Before(p, q)
  {
    hide PageOk;
    var r := Rec(f, p).(migrated := true);
    var f1 := SetRec(f, p, r);
    var f2 := FindBlock(f1);
    var h := WriteHere(f2, row);
    q := NextRow(f2);
    SetRecKeeps(f, p, r);
    FindBlockKeeps(f1);
    WriteHereWrote(f2, row);
    WroteAfter(f1, f2, h, q, row);
    assert Same(f1, h, p);
    SetRecKeeps(h, p, r.(next := q));
    MigrateMiddle(f, f1, h, Migrate(f, p, row), p, q, row);
    assert f.blocks[p.block].records != [];
  }

  /** Reflagging `p`, writing at `q` and relinking `p` come to one write with `p` as the hole. */
  lemma MigrateMiddle(f: File, f1: File, h: File, g: File, p: RowId, q: RowId, row: Bytes)
    requires FileOk(f) && FileOk(f1) && FileOk(h) && FileOk(g) && IsRecord(f, p)
    requires KeepsBut(f, f1, p) && SameRecords(f, f1)
    requires Wrote(f1, h, NO_ROW, q, row)
    requires KeepsBut(h, g, p) && SameRecords(h, g)
    requires f1.used == f.used
    ensures Wrote(f, g, p, q, row)
  {
    hide PageOk;
    forall x | IsRecord(f, x) && x != p ensures Same(f, g, x) {
      assert Same(f, f1, x) && Same(f1, h, x) && Same(h, g, x);
    }
    forall x | Added(f, g, x) ensures AddedOk(f, g, q, x) {
      assert Added(f1, h, x) && AddedOk(f1, h, q, x) && Same(h, g, x);
    }
    SpellsOff(h, g, f1, p, q, q, row);
  }

  /** A freshly written chain does not run through the old record `p`. */
  lemma {:induction false} SpellsOff(h: File, g: File, f: File, p: RowId, head: RowId, q: RowId, row: Bytes)
    requires FileOk(f) && FileOk(h) && FileOk(g) && KeepsBut(h, g, p)
    requires IsRecord(f, p) && Added(f, h, q) && Spells(h, q, row)
    requires forall x :: Added(f, h, x) ==> AddedOk(f, h, head, x)
    ensures IsRecord(g, q) && Spells(g, q, row)
    decreases |row|
  {
    hide PageOk;
    assert Same(h, g, q) && AddedOk(f, h, head, q);
    if Rec(h, q).chained {
      SpellsOff(h, g, f, p, head, Rec(h, q).next, row[|FragmentAt(h, q)|..]);
    }
  }

  // ---------------------------------------------------------------- the invariant is kept

  lemma GrowKeepsRecord(f: File, g: File, roles: Roles, hole: RowId, q: RowId, owner: RowId, row: Bytes, x: RowId)
    requires HeapOk(f, roles) && FileOk(g) && Wrote(f, g, hole, q, row)
    requires hole != NO_ROW ==>
               Forwards(f, g, hole, q) && roles(hole) == Role(owner, roles(hole).entry) && roles(hole).entry
    requires hole == NO_ROW ==> owner == q
    requires IsRecord(f, x) && x != hole
    ensures Same(f, g, x) && LinkOk(g, x) && RoleOk(g, Grow(f, roles, q, owner), x)
  {
    hide PageOk;
    assert Same(f, g, x) && LinkOk(f, x) && RoleOk(f, roles, x);
    var r := Rec(f, x);
    if r.migrated || r.chained {
      assert IsRecord(f, r.next) && RoleOk(f, roles, r.next);
      if r.next != hole { assert Same(f, g, r.next); }
    }
    var o := roles(x).owner;
    if o != hole { assert Same(f, g, o); }
  }

  lemma GrowAddsRecord(f: File, g: File, roles: Roles, hole: RowId, q: RowId, owner: RowId, row: Bytes, x: RowId)
    requires HeapOk(f, roles) && FileOk(g) && Wrote(f, g, hole, q, row)
    requires owner == q || (IsRecord(f, owner) && IsRecord(g, owner) && roles(owner) == Role(owner, true))
    requires Added(f, g, x)
    ensures LinkOk(g, x) && RoleOk(g, Grow(f, roles, q, owner), x)
  {
    hide PageOk;
    assert AddedOk(f, g, q, x);
    if Rec(g, x).chained {
      assert AddedOk(f, g, q, Rec(g, x).next);
    }
  }

  /** A new row: it reads back, and nothing else changes. */
  lemma WriteOk(f: File, g: File, roles: Roles, q: RowId, row: Bytes)
    requires HeapOk(f, roles) && FileOk(g) && Wrote(f, g, NO_ROW, q, row)
    ensures HeapOk(g, Grow(f, roles, q, q))
    ensures !IsRecord(f, q) && ReadRow(g, q) == Row(row)
    ensures forall p :: IsRecord(f, p) ==> IsRecord(g, p) && ReadRow(g, p) == ReadRow(f, p)
    ensures forall p :: IsRow(g, Grow(f, roles, q, q), p) <==> IsRow(f, roles, p) || p == q
  {
    hide PageOk;
    var roles' := Grow(f, roles, q, q);
    forall x | IsRecord(g, x) ensures LinkOk(g, x) && RoleOk(g, roles', x) {
      if IsRecord(f, x) {
        GrowKeepsRecord(f, g, roles, NO_ROW, q, q, row, x);
      } else {
        GrowAddsRecord(f, g, roles, NO_ROW, q, q, row, x);
      }
    }
    assert AddedOk(f, g, q, q);
    ReadChainSpells(g, q, row);
    forall p | IsRecord(f, p) ensures IsRecord(g, p) && ReadRow(g, p) == ReadRow(f, p) {
      assert forall x :: IsRecord(f, x) ==> Same(f, g, x);
      ReadRowFrame(f, g, roles, p);
    }
    forall p ensures IsRow(g, roles', p) <==> IsRow(f, roles, p) || p == q {
      assert IsRecord(f, p) ==> Same(f, g, p);
    }
  }

  /** The record that holds the row `p` forwards to. */
  function Target(f: File, p: RowId): (t: RowId)
    requires Valid(f) && IsRecord(f, p)
    ensures IsRecord(f, t) && !Rec(f, t).migrated && (t == p || Before(p, t))
    decreases |f.blocks| - p.block, |f.blocks[p.block].records| - p.idx
  {
    assert LinkOk(f, p);
    if Rec(f, p).migrated then Target(f, Rec(f, p).next) else p
  }

  /** What a row reads as after it was modified to `row`. */
  function Modified(f: File, p: RowId, row: Bytes): Bytes
    requires Valid(f) && IsRecord(f, p)
  {
    var t := Rec(f, Target(f, p));
    if t.chained then row else Pad(row, t.len)
  }

  /** A row is as long as the record that holds it says. */
  lemma {:induction false} RowLength(f: File, p: RowId)
    requires Valid(f) && IsRecord(f, p) && ReadRow(f, p).Row?
    ensures |ReadRow(f, p).bytes| == Rec(f, Target(f, p)).len
    decreases |f.blocks| - p.block, |f.blocks[p.block].records| - p.idx
  {
    hide PageOk;
    assert LinkOk(f, p);
    if Rec(f, p).migrated {
      RowLength(f, Rec(f, p).next);
    }
  }

  /** In terms of what the row read as before: the new bytes, zero-filled only if fewer than the old ones. */
  lemma ModifiedIs(f: File, p: RowId, row: Bytes)
    requires Valid(f) && IsRecord(f, p) && ReadRow(f, p).Row?
    ensures var was := ReadRow(f, p).bytes;
            Modified(f, p, row) == if |row| < |was| && !Rec(f, Target(f, p)).chained then Pad(row, |was|) else row
  {
    RowLength(f, p);
  }

  lemma MigrateOk(f: File, roles: Roles, p: RowId, row: Bytes) returns (roles': Roles)
    requires HeapOk(f, roles) && IsRecord(f, p) && roles(p).entry && !Rec(f, p).deleted && !Rec(f, p).migrated
    ensures var g := Migrate(f, p, row);
            && HeapOk(g, roles') && KeepsBut(f, g, p) && IsRecord(g, p)
            && ReadRow(g, p) == Row(row)
            && (forall x :: IsRecord(f, x) ==> roles'(x) == roles(x))
            && (forall x :: IsRow(g, roles', x) <==> IsRow(f, roles, x))
  {
    hide PageOk;
    assert RoleOk(f, roles, p);
    var o := roles(p).owner;
    var g := Migrate(f, p, row);
    var q := MigrateWrote(f, p, row);
    roles' := Grow(f, roles, q, o);
    assert o != p ==> Same(f, g, o);
    forall x | IsRecord(g, x) ensures LinkOk(g, x) && RoleOk(g, roles', x) {
      if x == p {
      } else if IsRecord(f, x) {
        GrowKeepsRecord(f, g, roles, p, q, o, row, x);
      } else {
        GrowAddsRecord(f, g, roles, p, q, o, row, x);
      }
    }
    assert AddedOk(f, g, q, q);
    ReadChainSpells(g, q, row);
    forall x ensures IsRow(g, roles', x) <==> IsRow(f, roles, x) {
      assert IsRecord(f, x) && x != p ==> Same(f, g, x);
    }
  }

  lemma OverwriteOk(f: File, roles: Roles, p: RowId, bytes: Bytes)
    requires HeapOk(f, roles) && IsRecord(f, p) && !Rec(f, p).deleted && !Rec(f, p).migrated && !Rec(f, p).chained
    requires |bytes| == Rec(f, p).len
    ensures var g := CopyIn(f, p, bytes);
            && HeapOk(g, roles) && KeepsBut(f, g, p) && SameRecords(f, g) && Rec(g, p) == Rec(f, p)
            && ReadRow(g, p) == Row(bytes)
  {
    hide PageOk;
    var g := CopyIn(f, p, bytes);
    CopyInKeeps(f, p, bytes);
    forall x | IsRecord(g, x) ensures LinkOk(g, x) && RoleOk(g, roles, x) {
      assert LinkOk(f, x) && RoleOk(f, roles, x);
      assert x != p ==> Same(f, g, x);
      var r := Rec(f, x);
      if r.migrated || r.chained {
        assert r.next != p ==> Same(f, g, r.next);
      }
    }
  }

  /** Modifying through any number of forwarding links changes the row and nothing else. */
  lemma {:induction false} ModifyOk(f: File, roles: Roles, p: RowId, row: Bytes) returns (roles': Roles)
    requires HeapOk(f, roles) && IsRecord(f, p) && roles(p).entry
    requires p == roles(p).owner || Before(roles(p).owner, p)
    requires !Rec(f, p).deleted
    ensures var (g, ok) := ModifyRow(f, p, row);
            && ok && HeapOk(g, roles') && KeepsBut(f, g, Target(f, p)) && IsRecord(g, p)
            && ReadRow(g, p) == Row(Modified(f, p, row))
            && (forall x :: IsRecord(f, x) ==> roles'(x) == roles(x))
            && (forall x :: IsRow(g, roles', x) <==> IsRow(f, roles, x))
            && roles(Target(f, p)).owner == roles(p).owner
    decreases |f.blocks| - p.block, |f.blocks[p.block].records| - p.idx
  {
    hide PageOk;
    assert LinkOk(f, p) && RoleOk(f, roles, p);
    var r := Rec(f, p);
    if r.migrated {
      assert RoleOk(f, roles, r.next);
      roles' := ModifyOk(f, roles, r.next, row);
      assert Same(f, ModifyRow(f, r.next, row).0, p);
    } else if r.chained || |row| > r.len {
      roles' := MigrateOk(f, roles, p, row);
    } else {
      roles' := roles;
      OverwriteOk(f, roles, p, Pad(row, r.len));
    }
  }

  /** No other row notices. */
  lemma ModifyFrame(f: File, g: File, roles: Roles, hole: RowId, x: RowId)
    requires HeapOk(f, roles) && Valid(g) && IsRecord(f, hole) && KeepsBut(f, g, hole)
    requires IsRecord(f, x) && roles(x).owner != roles(hole).owner
    ensures IsRecord(g, x) && ReadRow(g, x) == ReadRow(f, x)
  {
    hide PageOk;
    forall q | IsRecord(f, q) && roles(q).owner == roles(x).owner ensures Same(f, g, q) {
    }
    ReadRowFrame(f, g, roles, x);
  }

  lemma DeleteOk(f: File, roles: Roles, p: RowId)
    requires HeapOk(f, roles) && IsRow(f, roles, p)
    ensures var (g, ok) := DeleteRow(f, p);
            && ok && HeapOk(g, roles) && KeepsBut(f, g, p) && IsRecord(g, p)
            && ReadRow(g, p) == Gone
            && (forall x :: IsRow(g, roles, x) <==> IsRow(f, roles, x))
  {
    hide PageOk;
    var g := DeleteRow(f, p).0;
    SetRecKeeps(f, p, Rec(f, p).(deleted := true));
    forall x | IsRecord(g, x) ensures LinkOk(g, x) && RoleOk(g, roles, x) {
      assert LinkOk(f, x) && RoleOk(f, roles, x);
      assert x != p ==> Same(f, g, x);
      var r := Rec(f, x);
      if r.migrated || r.chained {
        assert r.next != p ==> Same(f, g, r.next);
      }
    }
  }
}
