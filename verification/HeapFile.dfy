/**
 * A data file: its blocks and the two counters of the file head.  Every
 * operation is a function from file to file; class DataFile performs them in place.
 */
module HeapFile {
  import opened Bytes
  import opened Page

  /** `blocks[id]` is block `id`.  Slot 0 is no block and slot 1 is the file head; neither holds rows. */
  datatype File = File(blocks: seq<Block>, used: nat)

  datatype ReadResult = Missing | Gone | Row(bytes: Bytes)

  const EXTENT: nat := 128

  function BlockCount(f: File): int {
    |f.blocks| - 1
  }

  /** Allocator and page invariants: blocks above `used` are unwritten. */
  ghost predicate FileOk(f: File) {
    && 2 <= f.used < |f.blocks|
    && (forall b :: 0 <= b < |f.blocks| ==> PageOk(f.blocks[b]))
    && (forall b :: 0 <= b < |f.blocks| && (b < 2 || b > f.used) ==> f.blocks[b].records == [])
  }

  predicate IsBlock(f: File, b: nat) {
    2 <= b < |f.blocks|
  }

  predicate IsRecord(f: File, p: RowId) {
    IsBlock(f, p.block) && 1 <= p.idx <= |f.blocks[p.block].records|
  }

  function Rec(f: File, p: RowId): Record
    requires IsRecord(f, p)
  {
    f.blocks[p.block].records[p.idx - 1]
  }

  function FragmentAt(f: File, p: RowId): (b: Bytes)
    requires IsRecord(f, p) && PageOk(f.blocks[p.block])
    ensures |b| <= Rec(f, p).len
    ensures Rec(f, p).chained <==> |b| < Rec(f, p).len
    ensures Rec(f, p).chained ==> |b| > 0
  {
    assert RecordOk(f.blocks[p.block], p.idx - 1);
    Fragment(f.blocks[p.block], p.idx - 1)
  }

  /** Links lead forward: to a later block, or further down the same one. */
  predicate Before(p: RowId, q: RowId) {
    p.block < q.block || (p.block == q.block && p.idx < q.idx)
  }

  ghost predicate LinkOk(f: File, p: RowId)
    requires FileOk(f) && IsRecord(f, p)
  {
    var r := Rec(f, p);
    && (r.migrated ==> IsRecord(f, r.next) && Before(p, r.next))
    && (r.chained && !r.migrated ==>
          && IsRecord(f, r.next)
          && p.block < r.next.block
          && !Rec(f, r.next).migrated
          && Rec(f, r.next).len == r.len - |FragmentAt(f, p)|)
  }

  ghost predicate Valid(f: File) {
    FileOk(f) && forall p :: IsRecord(f, p) ==> LinkOk(f, p)
  }

  // ---------------------------------------------------------------- block updates

  function SetBlock(f: File, b: nat, blk: Block): File
    requires b < |f.blocks|
  {
    f.(blocks := f.blocks[b := blk])
  }

  /** The file with record `p` relinked or reflagged; its bytes stay where they are. */
  function SetRec(f: File, p: RowId, r: Record): (g: File)
    requires FileOk(f) && IsRecord(f, p)
    requires r.offset == Rec(f, p).offset && r.len == Rec(f, p).len && r.chained == Rec(f, p).chained
    ensures FileOk(g) && IsRecord(g, p) && FragmentAt(g, p) == FragmentAt(f, p)
    ensures g.used == f.used && |g.blocks| == |f.blocks|
  {
    SetRecordOk(f.blocks[p.block], p.idx - 1, r);
    SetBlock(f, p.block, SetRecord(f.blocks[p.block], p.idx - 1, r))
  }

  /** The file with `bytes` as the bytes of record `p`. */
  function CopyIn(f: File, p: RowId, bytes: Bytes): (g: File)
    requires FileOk(f) && IsRecord(f, p) && |bytes| == |FragmentAt(f, p)|
    ensures FileOk(g) && IsRecord(g, p)
    ensures g.used == f.used && |g.blocks| == |f.blocks|
  {
    CopyToOk(f.blocks[p.block], p.idx - 1, bytes);
    SetBlock(f, p.block, CopyTo(f.blocks[p.block], p.idx - 1, bytes))
  }

  /** The file with record `p` chained on to `q` and `bytes` as its own share of the row. */
  function ChainTo(f: File, p: RowId, q: RowId, bytes: Bytes): (g: File)
    requires FileOk(f) && IsRecord(f, p) && |bytes| == |FragmentAt(f, p)|
    ensures FileOk(g) && IsRecord(g, p)
    ensures g.used == f.used && |g.blocks| == |f.blocks|
  {
    CopyIn(SetRec(f, p, Rec(f, p).(next := q)), p, bytes)
  }

  // ---------------------------------------------------------------- allocation

  /** create_file: the head block, one extent, and block 2 in use. */
  function Create(): (f: File)
    ensures Valid(f) && forall p :: !IsRecord(f, p)
  {
    File(seq(2 + EXTENT, i => EMPTY_BLOCK), 2)
  }

  function Extend(f: File, blocks: nat): File {
    f.(blocks := f.blocks + seq(blocks, i => EMPTY_BLOCK))
  }

  function ExtendIfFull(f: File): (g: File)
    requires FileOk(f)
    ensures FileOk(g) && g.used == f.used < BlockCount(g) && f.blocks <= g.blocks
  {
    if f.used == BlockCount(f) then Extend(f, EXTENT) else f
  }

  /** The file in which the block that takes the next row is block `used`. */
  function FindBlock(f: File): (g: File)
    requires FileOk(f)
    ensures FileOk(g) && f.blocks <= g.blocks && f.used <= g.used <= f.used + 1
    ensures FreeBytes(g.blocks[g.used]) > 0
  {
    var g := ExtendIfFull(f);
    if FreeBytes(g.blocks[g.used]) == 0 then g.(used := g.used + 1) else g
  }

  // ---------------------------------------------------------------- write

  /** The used block with a record for `len` bytes, as many of them as fit. */
  function Reserve(f: File, len: nat): (g: File)
    requires FileOk(f) && FreeBytes(f.blocks[f.used]) > 0
    ensures FileOk(g) && |g.blocks| == |f.blocks| && g.used == f.used
  {
    var blk := f.blocks[f.used];
    AddRecordOk(blk, len);
    SetBlock(f, f.used, AddRecord(blk, len, FreeBytes(blk) < len))
  }

  /** The row id the next record of block `used` gets. */
  function NextRow(f: File): RowId
    requires f.used < |f.blocks|
  {
    RowId(f.used, |f.blocks[f.used].records| + 1)
  }

  /** How many of `len` bytes go in block `used`. */
  function Fitting(f: File, len: nat): (n: int)
    requires f.used < |f.blocks|
  {
    var free := FreeBytes(f.blocks[f.used]);
    if free >= len then len else free
  }

  lemma ReserveOk(f: File, len: nat)
    requires FileOk(f) && FreeBytes(f.blocks[f.used]) > 0
    ensures var g := Reserve(f, len); var p := NextRow(f); var n := Fitting(f, len);
            && IsRecord(g, p)
            && Rec(g, p).len == len
            && Rec(g, p).chained == (n < len)
            && Rec(g, p) == Record(false, n < len, false, Rec(g, p).offset, len, NO_ROW)
            && |FragmentAt(g, p)| == n
            && (n < len ==> FreeBytes(g.blocks[g.used]) == 0)
  {
    AddRecordOk(f.blocks[f.used], len);
  }

  /** _write_row on block `used`: what does not fit goes on, chained, in the next block. */
  function WriteHere(f: File, data: Bytes): (g: File)
    requires FileOk(f) && FreeBytes(f.blocks[f.used]) > 0
    ensures FileOk(g) && Written(f, g)
    decreases |data|
  {
    hide PageOk;
    ReserveOk(f, |data|);
    var p, n, g := NextRow(f), Fitting(f, |data|), Reserve(f, |data|);
    if n == |data| then
      CopyIn(g, p, data)
    else
      var g' := FindBlock(g);
      var h := WriteHere(g', data[n..]);
      assert h.blocks[f.used] == g.blocks[f.used];
      ChainTo(h, p, NextRow(g'), data[..n])
  }

  /** From `f` to `g` a row was added to block `used`: no other block of `f` was touched. */
  ghost predicate Written(f: File, g: File) {
    && f.used < |f.blocks| <= |g.blocks|
    && f.used <= g.used
    && |g.blocks[f.used].records| == |f.blocks[f.used].records| + 1
    && forall b :: 0 <= b < f.used ==> f.blocks[b] == g.blocks[b]
  }


  // ---------------------------------------------------------------- what an update keeps

  /** Record `p` and its bytes are in `g` what they are in `f`. */
  ghost predicate Same(f: File, g: File, p: RowId)
    requires FileOk(f) && FileOk(g) && IsRecord(f, p)
  {
    IsRecord(g, p) && Rec(g, p) == Rec(f, p) && FragmentAt(g, p) == FragmentAt(f, p)
  }

  /** Nothing is lost from `f` to `g` except possibly at `hole`. */
  ghost predicate KeepsBut(f: File, g: File, hole: RowId)
    requires FileOk(f) && FileOk(g)
  {
    && |f.blocks| <= |g.blocks|
    && f.used <= g.used
    && forall p :: IsRecord(f, p) && p != hole ==> Same(f, g, p)
  }

  ghost predicate Keeps(f: File, g: File)
    requires FileOk(f) && FileOk(g)
  {
    KeepsBut(f, g, NO_ROW)
  }

  ghost predicate SameRecords(f: File, g: File) {
    forall p :: IsRecord(f, p) <==> IsRecord(g, p)
  }

  lemma SetRecKeeps(f: File, p: RowId, r: Record)
    requires FileOk(f) && IsRecord(f, p)
    requires r.offset == Rec(f, p).offset && r.len == Rec(f, p).len && r.chained == Rec(f, p).chained
    ensures var g := SetRec(f, p, r);
            KeepsBut(f, g, p) && SameRecords(f, g) && Rec(g, p) == r && FragmentAt(g, p) == FragmentAt(f, p)
  {
    SetRecordOk(f.blocks[p.block], p.idx - 1, r);
  }

  lemma CopyInKeeps(f: File, p: RowId, bytes: Bytes)
    requires FileOk(f) && IsRecord(f, p) && |bytes| == |FragmentAt(f, p)|
    ensures var g := CopyIn(f, p, bytes);
            KeepsBut(f, g, p) && SameRecords(f, g) && Rec(g, p) == Rec(f, p) && FragmentAt(g, p) == bytes
  {
    CopyToOk(f.blocks[p.block], p.idx - 1, bytes);
  }

  lemma ReserveKeeps(f: File, len: nat)
    requires FileOk(f) && FreeBytes(f.blocks[f.used]) > 0
    ensures var g := Reserve(f, len);
            && Keeps(f, g)
            && forall q :: IsRecord(g, q) <==> IsRecord(f, q) || q == NextRow(f)
  {
    AddRecordOk(f.blocks[f.used], len);
  }

  lemma FindBlockKeeps(f: File)
    requires FileOk(f)
    ensures var g := FindBlock(f); Keeps(f, g) && SameRecords(f, g)
    ensures |FindBlock(f).blocks| == |f.blocks| + if f.used == BlockCount(f) then 128 else 0
  {
    var g := FindBlock(f);
    forall p ensures IsRecord(f, p) <==> IsRecord(g, p) {
      assert p.block >= |f.blocks| ==> !IsRecord(g, p);
    }
  }

  lemma ChainToKeeps(f: File, p: RowId, q: RowId, bytes: Bytes)
    requires FileOk(f) && IsRecord(f, p) && |bytes| == |FragmentAt(f, p)|
    ensures var g := ChainTo(f, p, q, bytes);
            KeepsBut(f, g, p) && SameRecords(f, g) && Rec(g, p) == Rec(f, p).(next := q) && FragmentAt(g, p) == bytes
  {
    hide PageOk;
    SetRecKeeps(f, p, Rec(f, p).(next := q));
    CopyInKeeps(SetRec(f, p, Rec(f, p).(next := q)), p, bytes);
  }
}
