/**
 * One 8192-byte block of a data file: a 16-byte head, 8168 data bytes and an
 * 8-byte tail.  The data bytes hold the record index array growing up and the
 * row bytes growing down.
 */
module Page {
  import opened Bytes

  const DATA_LEN: nat := 8168
  const RECORD_SIZE: nat := 16

  /** (block id, 1-based record number); block ids start at 2. */
  datatype RowId = RowId(block: nat, idx: nat)

  const NO_ROW := RowId(0, 0)

  /** The three low flag bits, the offset of the bytes, and the forwarding link. */
  datatype Record = Record(deleted: bool, chained: bool, migrated: bool,
                           offset: nat, len: nat, next: RowId)

  datatype Block = Block(records: seq<Record>, data: Bytes)

  const EMPTY_BLOCK := Block([], Zeros(DATA_LEN))

  /** Where the row bytes of record `i` (0-based) must end. */
  function Ceiling(b: Block, i: nat): nat
    requires i <= |b.records|
  {
    if i == 0 then DATA_LEN else b.records[i - 1].offset
  }

  function FreeBytes(b: Block): nat {
    if |b.records| == 0 then DATA_LEN - RECORD_SIZE
    else
      var size := (|b.records| + 1) * RECORD_SIZE;
      var last := b.records[|b.records| - 1].offset;
      if last <= size then 0 else last - size
  }

  /** The number of bytes record `i` has in this block. */
  function LenInBlock(b: Block, i: nat): int
    requires i < |b.records|
  {
    var room := Ceiling(b, i) - b.records[i].offset;
    if room > b.records[i].len then b.records[i].len else room
  }

  /** The record claims bytes of its own, above the index array and below its predecessor. */
  predicate RecordOk(b: Block, i: nat)
    requires i < |b.records|
  {
    var r := b.records[i];
    && RECORD_SIZE * |b.records| <= r.offset <= Ceiling(b, i) <= DATA_LEN
    && (if r.chained then
          i == |b.records| - 1 && r.offset == RECORD_SIZE * |b.records| && 0 < Ceiling(b, i) - r.offset < r.len
        else
          r.offset + r.len == Ceiling(b, i))
  }

  predicate PageOk(b: Block) {
    && |b.data| == DATA_LEN
    && forall i :: 0 <= i < |b.records| ==> RecordOk(b, i)
  }

  /** The bytes of record `i` in this block. */
  function Fragment(b: Block, i: nat): (f: Bytes)
    requires PageOk(b) && i < |b.records|
    ensures |f| == LenInBlock(b, i)
  {
    assert RecordOk(b, i);
    b.data[b.records[i].offset..b.records[i].offset + LenInBlock(b, i)]
  }

  function AddRecord(b: Block, len: nat, chained: bool): Block
    requires chained || len <= Ceiling(b, |b.records|)
  {
    var n := |b.records| + 1;
    var offset := if chained then n * RECORD_SIZE else Ceiling(b, |b.records|) - len;
    b.(records := b.records + [Record(false, chained, false, offset, len, NO_ROW)])
  }

  /** A further record with all its `len` bytes in this block leaves the page in order. */
  predicate CanTake(b: Block, len: nat) {
    len <= Ceiling(b, |b.records|) && PageOk(AddRecord(b, len, false))
  }

  /** The page has room for a further record of at least one byte. */
  ghost predicate HasRoom(b: Block) {
    exists len: nat :: len > 0 && CanTake(b, len)
  }

  /** Copies `bytes` to where record `i` keeps its bytes. */
  function CopyTo(b: Block, i: nat, bytes: Bytes): Block
    requires i < |b.records| && b.records[i].offset + |bytes| <= |b.data|
  {
    b.(data := Patch(b.data, b.records[i].offset, bytes))
  }

  function SetRecord(b: Block, i: nat, r: Record): Block
    requires i < |b.records|
  {
    b.(records := b.records[i := r])
  }

  /** A later record never starts above an earlier one. */
  lemma {:induction false} OffsetsDescend(b: Block, i: nat, j: nat)
    requires PageOk(b) && i < j < |b.records|
    ensures b.records[j].offset <= Ceiling(b, j) <= b.records[i].offset
    ensures b.records[j].offset + LenInBlock(b, j) <= b.records[i].offset
    decreases j
  {
    assert RecordOk(b, j) && RecordOk(b, j - 1);
    if i < j - 1 {
      OffsetsDescend(b, i, j - 1);
    }
  }

  /** Row regions overlap neither each other nor the index array. */
  lemma RegionsDisjoint(b: Block, i: nat, j: nat, at: nat)
    requires PageOk(b) && i < |b.records| && j < |b.records|
    requires b.records[i].offset <= at < b.records[i].offset + LenInBlock(b, i)
    requires b.records[j].offset <= at < b.records[j].offset + LenInBlock(b, j)
    ensures i == j && RECORD_SIZE * |b.records| <= at < DATA_LEN
  {
    if i < j { OffsetsDescend(b, i, j); }
    if j < i { OffsetsDescend(b, j, i); }
    assert RecordOk(b, i);
  }

  /** Adding a record sized by the free space keeps the page in order and moves nothing. */
  lemma AddRecordOk(b: Block, len: nat)
    requires PageOk(b) && FreeBytes(b) > 0
    ensures var n := |b.records|;
            var b' := AddRecord(b, len, FreeBytes(b) < len);
            && PageOk(b')
            && (forall i :: 0 <= i < n ==> b'.records[i] == b.records[i] && Fragment(b', i) == Fragment(b, i))
            && LenInBlock(b', n) == (if FreeBytes(b) < len then FreeBytes(b) else len)
            && (FreeBytes(b) < len ==> FreeBytes(b') == 0)
  {
    var n := |b.records|;
    var b' := AddRecord(b, len, FreeBytes(b) < len);
    if n > 0 {
      assert RecordOk(b, n - 1);
    }
    forall i | 0 <= i < |b'.records| ensures RecordOk(b', i) {
      if i < n {
        assert RecordOk(b, i);
        if i < n - 1 { OffsetsDescend(b, i, n - 1); }
        assert Ceiling(b', i) == Ceiling(b, i);
      }
    }
    forall i | 0 <= i < n ensures Fragment(b', i) == Fragment(b, i) {
      assert Ceiling(b', i) == Ceiling(b, i);
    }
  }

  /** The free bytes are what a further record can have, whole or as the first part of a chained one. */
  lemma FreeBytesExact(b: Block, len: nat)
    requires PageOk(b) && len > 0
    ensures len <= FreeBytes(b) <==> CanTake(b, len)
    ensures 0 < FreeBytes(b) < len <==> PageOk(AddRecord(b, len, true))
  {
    var n := |b.records|;
    if n > 0 {
      assert RecordOk(b, n - 1);
    }
    if 0 < FreeBytes(b) {
      AddRecordOk(b, len);
    }
    if len <= Ceiling(b, n) && PageOk(AddRecord(b, len, false)) {
      assert RecordOk(AddRecord(b, len, false), n);
    }
    if PageOk(AddRecord(b, len, true)) {
      assert RecordOk(AddRecord(b, len, true), n);
    }
  }

  lemma RoomIsFreeBytes(b: Block)
    requires PageOk(b)
    ensures HasRoom(b) <==> FreeBytes(b) > 0
  {
    forall len: nat | len > 0 ensures len <= FreeBytes(b) <==> CanTake(b, len) {
      FreeBytesExact(b, len);
    }
    if FreeBytes(b) > 0 {
      assert CanTake(b, 1);
    }
  }

  /** Writing inside one record's region leaves every other fragment alone. */
  lemma CopyToOk(b: Block, i: nat, bytes: Bytes)
    requires PageOk(b) && i < |b.records| && |bytes| == LenInBlock(b, i)
    ensures b.records[i].offset + |bytes| <= |b.data|
    ensures var b' := CopyTo(b, i, bytes);
            && PageOk(b')
            && Fragment(b', i) == bytes
            && forall j :: 0 <= j < |b.records| && j != i ==> Fragment(b', j) == Fragment(b, j)
  {
    assert RecordOk(b, i);
    var b' := CopyTo(b, i, bytes);
    forall j | 0 <= j < |b.records|
      ensures RecordOk(b', j) && LenInBlock(b', j) == LenInBlock(b, j)
    {
      assert RecordOk(b, j);
      assert Ceiling(b', j) == Ceiling(b, j);
    }
    forall j | 0 <= j < |b.records| && j != i ensures Fragment(b', j) == Fragment(b, j) {
      assert RecordOk(b, j);
      if i < j { OffsetsDescend(b, i, j); } else { OffsetsDescend(b, j, i); }
    }
  }

  /** Changing flags or the link of a record moves no bytes. */
  lemma SetRecordOk(b: Block, i: nat, r: Record)
    requires PageOk(b) && i < |b.records|
    requires r.offset == b.records[i].offset && r.len == b.records[i].len && r.chained == b.records[i].chained
    ensures var b' := SetRecord(b, i, r);
            && PageOk(b')
            && FreeBytes(b') == FreeBytes(b)
            && forall j :: 0 <= j < |b.records| ==> Fragment(b', j) == Fragment(b, j)
  {
    var b' := SetRecord(b, i, r);
    forall j | 0 <= j < |b.records|
      ensures RecordOk(b', j) && LenInBlock(b', j) == LenInBlock(b, j)
    {
      assert RecordOk(b, j);
      assert Ceiling(b', j) == Ceiling(b, j);
    }
  }
}
