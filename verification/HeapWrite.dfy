/** Writing a row: what was there stays, and the new chain spells the row. */
module HeapWrite {
  import opened Bytes
  import opened Page
  import opened HeapFile

  /** The fragments from `p` on, along unmigrated chain links, spell `data`. */
  ghost predicate Spells(f: File, p: RowId, data: Bytes)
    requires FileOk(f) && IsRecord(f, p)
    decreases |data|
  {
    var r := Rec(f, p);
    var n := |FragmentAt(f, p)|;
    && !r.migrated
    && r.len == |data|
    && FragmentAt(f, p) == data[..n]
    && (r.chained ==> IsRecord(f, r.next) && p.block < r.next.block && Spells(f, r.next, data[n..]))
  }

  /** A record the write from `f` to `g` added. */
  ghost predicate Added(f: File, g: File, q: RowId)
    requires FileOk(f) && FileOk(g)
  {
    IsRecord(g, q) && !IsRecord(f, q)
  }

  /**
   * Records added with `head` as the first carry no delete or migrate flag, and
   * each chain link goes to an added record in a later block.
   */
  ghost predicate AddedOk(f: File, g: File, head: RowId, q: RowId)
    requires FileOk(f) && FileOk(g) && Added(f, g, q)
  {
    var r := Rec(g, q);
    && !r.deleted && !r.migrated
    && (q == head || head.block < q.block)
    && (r.chained ==> Added(f, g, r.next) && q.block < r.next.block && Rec(g, r.next).len == r.len - |FragmentAt(g, q)|)
  }

  lemma {:induction false} SpellsKept(f: File, g: File, p: RowId, q: RowId, data: Bytes)
    requires FileOk(f) && FileOk(g) && KeepsBut(f, g, p)
    requires IsRecord(f, q) && p.block < q.block && Spells(f, q, data)
    ensures IsRecord(g, q) && Spells(g, q, data)
    decreases |data|
  {
    hide PageOk;
    assert Same(f, g, q);
    var r := Rec(f, q);
    if r.chained {
      SpellsKept(f, g, p, r.next, data[|FragmentAt(f, q)|..]);
    }
  }

  lemma {:induction false} WriteKeeps(f: File, data: Bytes)
    requires FileOk(f) && FreeBytes(f.blocks[f.used]) > 0
    ensures Keeps(f, WriteHere(f, data)) && Added(f, WriteHere(f, data), NextRow(f))
    decreases |data|
  {
    hide PageOk;
    var p, n := NextRow(f), Fitting(f, |data|);
    var g := Reserve(f, |data|);
    ReserveOk(f, |data|);
    ReserveKeeps(f, |data|);
    if n == |data| {
      CopyInKeeps(g, p, data);
    } else {
      var g' := FindBlock(g);
      FindBlockKeeps(g);
      WriteKeeps(g', data[n..]);
      ChainToKeeps(WriteHere(g', data[n..]), p, NextRow(g'), data[..n]);
    }
  }

  lemma {:induction false} WriteSpells(f: File, data: Bytes)
    requires FileOk(f) && FreeBytes(f.blocks[f.used]) > 0
    ensures IsRecord(WriteHere(f, data), NextRow(f)) && Spells(WriteHere(f, data), NextRow(f), data)
    decreases |data|
  {
    hide PageOk;
    var p, n := NextRow(f), Fitting(f, |data|);
    var g := Reserve(f, |data|);
    ReserveOk(f, |data|);
    if n == |data| {
      CopyInKeeps(g, p, data);
    } else {
      var g' := FindBlock(g);
      var q := NextRow(g');
      var h := WriteHere(g', data[n..]);
      FindBlockKeeps(g);
      WriteKeeps(g', data[n..]);
      WriteSpells(g', data[n..]);
      ChainToKeeps(h, p, q, data[..n]);
      SpellsKept(h, ChainTo(h, p, q, data[..n]), p, q, data[n..]);
    }
  }

  lemma {:induction false} WriteAdds(f: File, data: Bytes, q: RowId)
    requires FileOk(f) && FreeBytes(f.blocks[f.used]) > 0
    requires Added(f, WriteHere(f, data), q)
    ensures AddedOk(f, WriteHere(f, data), NextRow(f), q)
    decreases |data|
  {
    hide PageOk;
    var p, n := NextRow(f), Fitting(f, |data|);
    var g := Reserve(f, |data|);
    ReserveOk(f, |data|);
    ReserveKeeps(f, |data|);
    if n == |data| {
      CopyInKeeps(g, p, data);
    } else {
      var g' := FindBlock(g);
      var h := WriteHere(g', data[n..]);
      FindBlockKeeps(g);
      WriteKeeps(g', data[n..]);
      ChainToKeeps(h, p, NextRow(g'), data[..n]);
      if q == p {
        WriteSpells(g', data[n..]);
        assert Same(h, ChainTo(h, p, NextRow(g'), data[..n]), NextRow(g'));
      } else {
        WriteAdds(g', data[n..], q);
        assert Same(h, ChainTo(h, p, NextRow(g'), data[..n]), q);
        if Rec(h, q).chained {
          assert Same(h, ChainTo(h, p, NextRow(g'), data[..n]), Rec(h, q).next);
        }
      }
    }
  }
}
