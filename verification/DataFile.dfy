/** The data file as the program has it: blocks changed in place. */
module DataFiles {
  import opened Bytes
  import opened Page
  import opened HeapFile
  import opened HeapWrite
  import opened HeapRows

  /** A mapped block.  `records` is the index array laid over the start of `data`. */
  class DataBlock {
    var records: seq<Record>
    const data: array<byte>

    ghost function Value(): Block
      reads this, data
    {
      Block(records, data[..])
    }

    /** _format_block */
    constructor ()
      ensures Value() == EMPTY_BLOCK
      ensures fresh(data)
    {
      records := [];
      data := new byte[DATA_LEN](i => 0);
    }

    /** memcpy(data + at, bytes, |bytes|) */
    method Store(at: nat, bytes: Bytes)
      requires at + |bytes| <= data.Length
      modifies data
      ensures Value() == Block(records, Patch(old(data[..]), at, bytes))
    {
      forall i | 0 <= i < |bytes| {
        data[at + i] := bytes[i];
      }
      assert data[..] == Patch(old(data[..]), at, bytes);
    }

    /** memset(data + at, 0, len) and memcpy(data + at, row, |row|) */
    method Overwrite(at: nat, len: nat, row: Bytes)
      requires at + len <= data.Length && |row| <= len
      modifies data
      ensures Value() == Block(records, Patch(old(data[..]), at, Pad(row, len)))
    {
      ClearThenCopy(data[..], at, row, len);
      Store(at, Zeros(len));
      Store(at, row);
    }
  }

  lemma ClearThenCopy(data: Bytes, at: nat, row: Bytes, len: nat)
    requires |row| <= len && at + len <= |data|
    ensures Patch(Patch(data, at, Zeros(len)), at, row) == Patch(data, at, Pad(row, len))
  {
    assert data[..at] == Patch(data, at, Zeros(len))[..at];
    assert Patch(data, at, Zeros(len))[at + |row|..] == Zeros(len)[|row|..] + data[at + len..];
  }

  class DataFile {
    var blocks: seq<DataBlock>
    var blockCount: nat
    var used: nat

    /** The value of the whole file. */
    ghost var file: File
    ghost var Repr: set<object>

    /** The mapped blocks are distinct and hold what `file` says. */
    ghost predicate Mapped()
      reads this, Repr
    {
      && |blocks| == |file.blocks|
      && (forall b :: 0 <= b < |blocks| ==> blocks[b] in Repr && blocks[b].data in Repr)
      && (forall b :: 0 <= b < |blocks| ==> file.blocks[b] == blocks[b].Value())
      && (forall b, c :: 0 <= b < c < |blocks| ==> blocks[b] != blocks[c] && blocks[b].data != blocks[c].data)
    }

    /** The counters and blocks agree with `file`; create_file passes through states that are not FileOk. */
    ghost predicate Synced()
      reads this, Repr
    {
      && this in Repr
      && Mapped()
      && blockCount == BlockCount(file)
      && used == file.used
    }

    ghost predicate Valid()
      reads this, Repr
    {
      Synced() && FileOk(file)
    }

    /** create_file */
    constructor ()
      ensures Valid() && fresh(Repr)
      ensures file == Create() && |file.blocks| == 130 && file.used == 2
    {
      var none := new DataBlock();
      var head := new DataBlock();
      blocks, blockCount, used := [none, head], 1, 1;
      file := File([EMPTY_BLOCK, EMPTY_BLOCK], 1);
      Repr := {this, none, none.data, head, head.data};
      new;
      ExtendFile(EXTENT);
      used := 2;
      file := file.(used := 2);
      assert file.blocks == Create().blocks;
    }

    /** _extend_file */
    method ExtendFile(count: nat)
      requires Synced()
      modifies this
      ensures Synced() && fresh(Repr - old(Repr)) && old(Repr) <= Repr
      ensures used == old(used)
      ensures file == Extend(old(file), count)
    {
      var i := 0;
      assert file.blocks == Extend(file, 0).blocks;
      while i < count
        invariant 0 <= i <= count
        invariant Synced() && fresh(Repr - old(Repr)) && old(Repr) <= Repr
        invariant used == old(used)
        invariant file == Extend(old(file), i)
      {
        var blk := new DataBlock();
        blocks := blocks + [blk];
        blockCount := blockCount + 1;
        Repr := Repr + {blk, blk.data};
        file := file.(blocks := file.blocks + [EMPTY_BLOCK]);
        i := i + 1;
        assert file.blocks == Extend(old(file), i).blocks;
      }
    }

    // ---------------------------------------------------------------- one block

    /** _block_free_bytes */
    method BlockFreeBytes(b: nat) returns (free: int)
      requires Valid() && b < |file.blocks|
      ensures free == FreeBytes(file.blocks[b])
    {
      var records := blocks[b].records;
      if |records| == 0 { return DATA_LEN - RECORD_SIZE; }
      var recordSize := (|records| + 1) * RECORD_SIZE;
      var last := records[|records| - 1];
      if last.offset <= recordSize { return 0; }
      return last.offset - recordSize;
    }

    /** _row_get_record */
    method GetRecord(p: RowId) returns (found: bool, r: Record)
      requires Valid() && IsBlock(file, p.block)
      ensures found == IsRecord(file, p)
      ensures found ==> r == Rec(file, p)
    {
      var records := blocks[p.block].records;
      if p.idx < 1 || p.idx > |records| { return false, Record(false, false, false, 0, 0, NO_ROW); }
      return true, records[p.idx - 1];
    }

    /** _row_get_len_in_block */
    method RowLenInBlock(p: RowId) returns (len: int)
      requires Valid() && IsRecord(file, p)
      ensures len == |FragmentAt(file, p)|
    {
      var records := blocks[p.block].records;
      var currOffset := records[p.idx - 1].offset;
      var nextOffset := DATA_LEN;
      if p.idx > 1 { nextOffset := records[p.idx - 2].offset; }
      if nextOffset - currOffset > records[p.idx - 1].len {
        len := records[p.idx - 1].len;
      } else {
        len := nextOffset - currOffset;
      }
    }

    /** _row_add_record */
    method RowAddRecord(b: nat, len: nat, chained: bool) returns (idx: nat)
      requires Valid() && b == used && FreeBytes(file.blocks[b]) > 0
      requires chained == (FreeBytes(file.blocks[b]) < len)
      modifies Repr
      ensures Valid() && Repr == old(Repr)
      ensures RowId(b, idx) == NextRow(old(file))
      ensures file == Reserve(old(file), len)
    {
      ReserveOk(file, len);
      var records := blocks[b].records;
      var lastOffset := DATA_LEN;
      if |records| > 0 { lastOffset := records[|records| - 1].offset; }
      idx := |records| + 1;
      var offset := if chained then idx * RECORD_SIZE else lastOffset - len;
      assert offset == AddRecord(file.blocks[b], len, chained).records[|records|].offset;
      ghost var next := Reserve(file, len);
      blocks[b].records := records + [Record(false, chained, false, offset, len, NO_ROW)];
      file := next;
    }

    /** Writes the record back: flags or link changed. */
    method PutRecord(p: RowId, r: Record)
      requires Valid() && IsRecord(file, p)
      requires r.offset == Rec(file, p).offset && r.len == Rec(file, p).len && r.chained == Rec(file, p).chained
      modifies Repr
      ensures Valid() && Repr == old(Repr)
      ensures file == SetRec(old(file), p, r)
    {
      ghost var next := SetRec(file, p, r);
      blocks[p.block].records := blocks[p.block].records[p.idx - 1 := r];
      file := next;
    }

    /** memcpy(block->data + record->offset, bytes, |bytes|) for all bytes of the record. */
    method CopyBytes(p: RowId, bytes: Bytes)
      requires Valid() && IsRecord(file, p) && |bytes| == |FragmentAt(file, p)|
      modifies Repr
      ensures Valid() && Repr == old(Repr)
      ensures file == CopyIn(old(file), p, bytes)
    {
      hide PageOk;
      ghost var next := CopyIn(file, p, bytes);
      CopyToOk(file.blocks[p.block], p.idx - 1, bytes);
      blocks[p.block].Store(blocks[p.block].records[p.idx - 1].offset, bytes);
      file := next;
    }

    /** Replaces the bytes of an unchained record by `row` and zeros. */
    method Overwrite(p: RowId, row: Bytes)
      requires Valid() && IsRecord(file, p) && !Rec(file, p).chained && |row| <= Rec(file, p).len
      modifies Repr
      ensures Valid() && Repr == old(Repr)
      ensures file == CopyIn(old(file), p, Pad(row, Rec(old(file), p).len))
    {
      hide PageOk;
      ghost var bytes := Pad(row, Rec(file, p).len);
      ghost var next := CopyIn(file, p, bytes);
      CopyToOk(file.blocks[p.block], p.idx - 1, bytes);
      var record := blocks[p.block].records[p.idx - 1];
      blocks[p.block].Overwrite(record.offset, record.len, row);
      file := next;
    }

    // ---------------------------------------------------------------- allocation

    method ExtendWhenFull()
      requires Valid()
      modifies this
      ensures Valid() && fresh(Repr - old(Repr)) && old(Repr) <= Repr
      ensures file == ExtendIfFull(old(file))
    {
      hide PageOk;
      hide Mapped;
      if used == blockCount { ExtendFile(EXTENT); }
      assert file == ExtendIfFull(old(file));
    }

    /** Takes the next block of the file into use. */
    method TakeNextBlock()
      requires Valid() && file.used < BlockCount(file)
      modifies this
      ensures Valid() && Repr == old(Repr)
      ensures file == old(file).(used := old(file.used) + 1)
    {
      used := used + 1;
      file := file.(used := used);
    }

    /** _find_block_can_write: the loop goes round at most once. */
    method FindBlockCanWrite() returns (free: int)
      requires Valid()
      modifies Repr
      ensures Valid() && fresh(Repr - old(Repr)) && old(Repr) <= Repr
      ensures file == FindBlock(old(file))
      ensures free == FreeBytes(file.blocks[file.used]) > 0
    {
      hide PageOk;
      hide Mapped;
      ExtendWhenFull();
      ghost var g := file;
      free := BlockFreeBytes(used);
      while free == 0
        invariant Valid() && fresh(Repr - old(Repr)) && old(Repr) <= Repr
        invariant file == if free == 0 then g else FindBlock(old(file))
        invariant free == FreeBytes(file.blocks[file.used]) >= 0
        decreases free == 0
      {
        TakeNextBlock();
        free := BlockFreeBytes(used);
      }
    }

    // ---------------------------------------------------------------- rows

    /** _write_row on the block in use. */
    method WriteRowHere(row: Bytes) returns (idx: nat)
      requires Valid() && FreeBytes(file.blocks[file.used]) > 0
      modifies Repr
      ensures Valid() && fresh(Repr - old(Repr)) && old(Repr) <= Repr
      ensures RowId(old(used), idx) == NextRow(old(file))
      ensures file == WriteHere(old(file), row)
      decreases |row|, 0
    {
      hide PageOk;
      hide Mapped;
      var free := BlockFreeBytes(used);
      var writeLen := if free >= |row| then |row| else free;
      ghost var f := file;
      ReserveOk(f, |row|);
      var b := used;
      idx := RowAddRecord(b, |row|, free < |row|);
      var p := RowId(b, idx);
      if free < |row| {
        WriteRest(p, row[writeLen..]);
      } else {
        assert row[..writeLen] == row;
      }
      CopyBytes(p, row[..writeLen]);
    }

    /** Writes the rest of a row to the next block and links record `p` to it. */
    method WriteRest(p: RowId, rest: Bytes)
      requires Valid() && IsRecord(file, p)
      modifies Repr
      ensures Valid() && fresh(Repr - old(Repr)) && old(Repr) <= Repr
      ensures var g := FindBlock(old(file)); var h := WriteHere(g, rest);
              IsRecord(h, p) && file == SetRec(h, p, Rec(h, p).(next := NextRow(g)))
      decreases |rest|, 1
    {
      hide PageOk;
      hide Mapped;
      ghost var g := file;
      var _ := FindBlockCanWrite();
      ghost var g' := file;
      var chainedBlock := used;
      var chainedIdx := WriteRowHere(rest);
      FindBlockKeeps(g);
      WriteKeeps(g', rest);
      assert Same(g, g', p) && Same(g', file, p);
      var _, record := GetRecord(p);
      PutRecord(p, record.(next := RowId(chainedBlock, chainedIdx)));
    }

    /** write_row */
    method Write(row: Bytes) returns (id: RowId)
      requires Valid()
      modifies Repr
      ensures Valid() && fresh(Repr - old(Repr)) && old(Repr) <= Repr
      ensures (file, id) == WriteRow(old(file), row)
    {
      var _ := FindBlockCanWrite();
      var b := used;
      var idx := WriteRowHere(row);
      id := RowId(b, idx);
    }

    /** write_row_new_block; the row is row 1 of its block. */
    method WriteNewBlock(row: Bytes) returns (b: nat)
      requires Valid()
      modifies Repr
      ensures Valid() && fresh(Repr - old(Repr)) && old(Repr) <= Repr
      ensures (file, RowId(b, 1)) == WriteRowNewBlock(old(file), row)
    {
      hide PageOk;
      hide Mapped;
      ExtendWhenFull();
      TakeNextBlock();
      b := used;
      ghost var g := file;
      assert g == NewBlock(old(file)) && NextRow(g) == RowId(b, 1);
      hide NewBlock, WriteHere, NextRow;
      var _ := WriteRowHere(row);
    }

    /** _modify_row */
    method Modify(p: RowId, row: Bytes) returns (ok: bool)
      requires Valid() && HeapFile.Valid(file) && IsBlock(file, p.block)
      modifies Repr
      ensures Valid() && fresh(Repr - old(Repr)) && old(Repr) <= Repr
      ensures (file, ok) == ModifyRow(old(file), p, row)
      decreases |file.blocks| - p.block, |file.blocks[p.block].records| - p.idx
    {
      hide PageOk;
      hide Mapped;
      var found, record := GetRecord(p);
      if !found { return false; }
      assert LinkOk(file, p);
      if record.deleted { return false; }
      if record.migrated {
        ok := Modify(record.next, row);
        return;
      }
      if record.chained || |row| > record.len {
        MigrateTo(p, row);
      } else {
        Overwrite(p, row);
      }
      ok := true;
    }

    method MigrateTo(p: RowId, row: Bytes)
      requires Valid() && IsRecord(file, p)
      modifies Repr
      ensures Valid() && fresh(Repr - old(Repr)) && old(Repr) <= Repr
      ensures file == Migrate(old(file), p, row)
    {
      hide PageOk;
      hide Mapped;
      var _, record := GetRecord(p);
      PutRecord(p, record.(migrated := true));
      ghost var f1 := file;
      var _ := FindBlockCanWrite();
      ghost var f2 := file;
      var newBlock := used;
      var newIdx := WriteRowHere(row);
      SetRecKeeps(old(file), p, record.(migrated := true));
      FindBlockKeeps(f1);
      WriteKeeps(f2, row);
      assert Same(f1, f2, p) && Same(f2, file, p);
      PutRecord(p, record.(migrated := true, next := RowId(newBlock, newIdx)));
    }

    /** _delete_row */
    method Delete(p: RowId) returns (ok: bool)
      requires Valid() && IsBlock(file, p.block)
      modifies Repr
      ensures Valid() && Repr == old(Repr)
      ensures (file, ok) == DeleteRow(old(file), p)
    {
      hide PageOk;
      hide Mapped;
      var found, record := GetRecord(p);
      if !found { return false; }
      PutRecord(p, record.(deleted := true));
      ok := true;
    }

    /** memcpy(row + at, block->data + record->offset, n) */
    method CopyOut(p: RowId, row: array<byte>, at: nat, n: nat)
      requires Valid() && IsRecord(file, p) && row !in Repr
      requires n == |FragmentAt(file, p)| && at + n <= row.Length
      modifies row
      ensures row[..at + n] == old(row[..at]) + FragmentAt(file, p)
    {
      assert RecordOk(file.blocks[p.block], p.idx - 1);
      var data, offset := blocks[p.block].data, blocks[p.block].records[p.idx - 1].offset;
      assert data[offset..offset + n] == FragmentAt(file, p);
      forall i | 0 <= i < n {
        row[at + i] := data[offset + i];
      }
    }

    /** The loop of _read_row over a chain. */
    method ReadChained(p: RowId, row: array<byte>)
      requires Valid() && HeapFile.Valid(file) && IsRecord(file, p) && !Rec(file, p).migrated
      requires row !in Repr && row.Length == Rec(file, p).len
      modifies row
      ensures row[..] == ReadChain(file, p)
    {
      hide PageOk;
      hide Mapped;
      var curr := p;
      var remain, at := row.Length, 0;
      while true
        invariant IsRecord(file, curr) && !Rec(file, curr).migrated && remain == Rec(file, curr).len
        invariant 0 <= at && at + remain == row.Length
        invariant row[..at] + ReadChain(file, curr) == ReadChain(file, p)
        decreases |file.blocks| - curr.block
      {
        assert LinkOk(file, curr);
        ghost var own := FragmentAt(file, curr);
        var readLen := RowLenInBlock(curr);
        CopyOut(curr, row, at, readLen);
        remain := remain - readLen;
        at := at + readLen;
        if remain <= 0 {
          assert at == row.Length && own == ReadChain(file, curr);
          break;
        }
        var _, record := GetRecord(curr);
        assert ReadChain(file, curr) == own + ReadChain(file, record.next);
        curr := record.next;
      }
      assert row[..row.Length] == row[..];
    }

    /** _read_row: -1 for no such row, 0 and no bytes for a deleted one. */
    method Read(p: RowId) returns (ret: int, row: array?<byte>)
      requires Valid() && HeapFile.Valid(file) && IsBlock(file, p.block)
      ensures match ReadRow(file, p)
              case Missing => ret == -1 && row == null
              case Gone => ret == 0 && row == null
              case Row(bytes) => row != null && fresh(row) && row[..] == bytes && ret == |bytes|
      decreases |file.blocks| - p.block, |file.blocks[p.block].records| - p.idx
    {
      hide PageOk;
      hide Mapped;
      var found, record := GetRecord(p);
      if !found { return -1, null; }
      assert LinkOk(file, p);
      if record.deleted { return 0, null; }
      if record.migrated {
        ret, row := Read(record.next);
        return;
      }
      var buf := new byte[record.len];
      if record.chained {
        ReadChained(p, buf);
      } else {
        CopyOut(p, buf, 0, record.len);
        assert buf[..] == buf[..0 + record.len];
      }
      ret, row := record.len, buf;
    }
  }
}
