/** The I/O buffer: a queue of blocks that reads and writes as one byte stream. */
module IoBufs {
  import opened Bytes

  function Concat(parts: seq<Bytes>): Bytes {
    if parts == [] then [] else parts[0] + Concat(parts[1..])
  }

  lemma {:induction false} ConcatSnoc(parts: seq<Bytes>, last: Bytes)
    ensures Concat(parts + [last]) == Concat(parts) + last
  {
    if parts == [] {
      assert Concat([last][1..]) == [];
      assert parts + [last] == [last];
    } else {
      assert (parts + [last])[1..] == parts[1..] + [last];
      ConcatSnoc(parts[1..], last);
    }
  }

  /** All parts but the last have `n` bytes. */
  lemma ConcatGrow(parts: seq<Bytes>, more: Bytes)
    requires parts != []
    ensures var last := |parts| - 1; Concat(parts[..last] + [parts[last] + more]) == Concat(parts) + more
  {
    hide Concat;
    var last := |parts| - 1;
    assert parts == parts[..last] + [parts[last]];
    ConcatSnoc(parts[..last], parts[last]);
    ConcatSnoc(parts[..last], parts[last] + more);
    Associative(Concat(parts[..last]), parts[last], more);
  }

  lemma Associative(a: Bytes, b: Bytes, c: Bytes)
    ensures a + (b + c) == (a + b) + c
  {
  }

  lemma ConcatTake(parts: seq<Bytes>, add: nat)
    requires parts != [] && add <= |parts[0]|
    ensures parts[0][..add] + Concat([parts[0][add..]] + parts[1..]) == Concat(parts)
    ensures parts[0] + Concat(parts[1..]) == Concat(parts)
  {
    var rest := [parts[0][add..]] + parts[1..];
    assert rest[1..] == parts[1..] && Concat(rest) == parts[0][add..] + Concat(parts[1..]);
    assert parts[0] == parts[0][..add] + parts[0][add..];
  }

  lemma {:induction false} ConcatLength(parts: seq<Bytes>, n: nat)
    requires parts != [] && forall i :: 0 <= i < |parts| - 1 ==> |parts[i]| == n
    ensures |Concat(parts)| == (|parts| - 1) * n + |parts[|parts| - 1]|
  {
    if |parts| == 1 {
      assert Concat(parts[1..]) == [];
    } else {
      ConcatLength(parts[1..], n);
      assert (|parts| - 1) * n == (|parts| - 2) * n + n;
    }
  }

  class IoBlock {
    const data: array<byte>
    var rOffset: int
    var wOffset: int

    constructor (size: nat)
      ensures fresh(data) && data.Length == size && rOffset == wOffset == 0
    {
      data := new byte[size];
      rOffset, wOffset := 0, 0;
    }
  }

  class IoBuf {
    const blockSize: nat
    var blocks: seq<IoBlock>

    /** The unread bytes of each block, and all bytes ever written and read. */
    ghost var parts: seq<Bytes>
    ghost var written: Bytes
    ghost var taken: Bytes
    ghost var Repr: set<object>

    ghost predicate BlockOk(i: nat)
      requires i < |blocks|
      reads this, Repr
    {
      var b := blocks[i];
      && b in Repr && b.data in Repr
      && b.data.Length == blockSize
      && 0 <= b.rOffset <= b.wOffset <= blockSize && b.rOffset < blockSize
      && i < |parts| && parts[i] == b.data[b.rOffset..b.wOffset]
      && (i < |blocks| - 1 ==> b.wOffset == blockSize)
      && (i > 0 ==> b.rOffset == 0)
    }

    /** All blocks but the last are full, all but the first unread, and none is read out. */
    ghost predicate Valid()
      reads this, Repr
    {
      && this !in Repr
      && blockSize > 0
      && |blocks| == |parts|
      && (forall i :: 0 <= i < |blocks| ==> BlockOk(i))
      && (forall i, j :: 0 <= i < j < |blocks| ==> blocks[i] != blocks[j] && blocks[i].data != blocks[j].data)
      && written == taken + Concat(parts)
    }

    /** The offsets are shorts. */
    constructor (blockSize: nat)
      requires 0 < blockSize <= 0x7fff
      ensures Valid() && fresh(Repr) && written == taken == [] && this.blockSize == blockSize
    {
      this.blockSize := blockSize;
      blocks, parts, written, taken, Repr := [], [], [], [], {};
    }

    method PushNewBlock()
      requires Valid()
      requires blocks == [] || blocks[|blocks| - 1].wOffset == blockSize
      modifies this
      ensures Valid() && fresh(Repr - old(Repr)) && old(Repr) <= Repr
      ensures |blocks| == |old(blocks)| + 1 && blocks[..|old(blocks)|] == old(blocks)
      ensures fresh(blocks[|old(blocks)|]) && fresh(blocks[|old(blocks)|].data)
      ensures blocks[|old(blocks)|].rOffset == blocks[|old(blocks)|].wOffset == 0
      ensures parts == old(parts) + [[]] && written == old(written) && taken == old(taken)
    {
      var b := new IoBlock(blockSize);
      forall i | 0 <= i < |blocks| ensures blocks[i].wOffset == blockSize { assert BlockOk(i); }
      ConcatSnoc(parts, []);
      blocks, parts, Repr := blocks + [b], parts + [[]], Repr + {b, b.data};
      forall i | 0 <= i < |blocks| ensures BlockOk(i) { assert i < |old(blocks)| ==> old(BlockOk(i)); }
    }

    /** size() */
    method Size() returns (n: int)
      requires Valid()
      ensures n == |written| - |taken|
    {
      if |blocks| == 0 { return 0; }
      var r, w := blocks[0], blocks[|blocks| - 1];
      assert BlockOk(0) && BlockOk(|blocks| - 1);
      if r == w {
        assert Concat(parts[1..]) == [];
        return w.wOffset - r.rOffset;
      }
      forall i | 1 <= i < |blocks| - 1 ensures |parts[i]| == blockSize { assert BlockOk(i); }
      ConcatLength(parts[1..], blockSize);
      return (blockSize - r.rOffset) + w.wOffset + (|blocks| - 2) * blockSize;
    }

    /** r_len(): the bytes to be had at r_ptr(). */
    method RLen() returns (n: int)
      requires Valid()
      modifies this
      ensures Valid() && fresh(Repr - old(Repr)) && old(Repr) <= Repr
      ensures written == old(written) && taken == old(taken)
      ensures blocks != [] && n == |parts[0]|
      ensures |written| > |taken| ==> n > 0
      ensures old(blocks) != [] ==> blocks == old(blocks) && parts == old(parts)
    {
      if |blocks| == 0 { PushNewBlock(); }
      var b := blocks[0];
      assert BlockOk(0);
      if |parts| > 1 { assert BlockOk(1); }
      assert |parts| == 1 ==> Concat(parts[1..]) == [];
      n := b.wOffset - b.rOffset;
    }

    /** r_ptr(): the front block from its read offset on. */
    method RPtr() returns (data: array<byte>, at: int)
      requires Valid()
      modifies this
      ensures Valid() && fresh(Repr - old(Repr)) && old(Repr) <= Repr
      ensures written == old(written) && taken == old(taken)
      ensures blocks != [] && data == blocks[0].data && at == blocks[0].rOffset
      ensures 0 <= at && at + |parts[0]| <= data.Length && data[at..at + |parts[0]|] == parts[0]
      ensures old(blocks) != [] ==> blocks == old(blocks) && parts == old(parts)
    {
      if |blocks| == 0 { PushNewBlock(); }
      assert BlockOk(0);
      data, at := blocks[0].data, blocks[0].rOffset;
    }

    /** The room at w_ptr(), which hands out a new block when the last one is full. */
    ghost function Room(): int
      reads this, Repr
      requires Valid()
    {
      if blocks == [] then blockSize
      else
        assert BlockOk(|blocks| - 1);
        var b := blocks[|blocks| - 1];
        if b.wOffset == blockSize then blockSize else blockSize - b.wOffset
    }

    /** w_ptr(): the last block from its write offset on. */
    method WPtr() returns (data: array<byte>, at: int)
      requires Valid()
      modifies this
      ensures Valid() && fresh(Repr - old(Repr)) && old(Repr) <= Repr
      ensures written == old(written) && taken == old(taken)
      ensures blocks != [] && data == blocks[|blocks| - 1].data && at == blocks[|blocks| - 1].wOffset
      ensures 0 <= at && data.Length - at == old(Room()) == Room() > 0
      ensures data in Repr
    {
      if |blocks| == 0 { PushNewBlock(); }
      assert BlockOk(|blocks| - 1);
      if blocks[|blocks| - 1].wOffset == blockSize { PushNewBlock(); }
      assert BlockOk(|blocks| - 1);
      data, at := blocks[|blocks| - 1].data, blocks[|blocks| - 1].wOffset;
    }

    /** w_len(): the room at w_ptr(), never none. */
    method WLen() returns (n: int)
      requires Valid()
      modifies this
      ensures Valid() && fresh(Repr - old(Repr)) && old(Repr) <= Repr
      ensures written == old(written) && taken == old(taken)
      ensures blocks != [] && n == blockSize - blocks[|blocks| - 1].wOffset && n == old(Room()) == Room() > 0
    {
      if |blocks| == 0 { PushNewBlock(); }
      assert BlockOk(|blocks| - 1);
      if blocks[|blocks| - 1].wOffset == blockSize { PushNewBlock(); }
      n := blockSize - blocks[|blocks| - 1].wOffset;
    }

    /** add_r_offset(): the bytes read are the next of the stream. */
    method AddROffset(add: nat)
      requires Valid() && blocks != [] && add <= |parts[0]|
      modifies this, Repr
      ensures Valid() && Repr == old(Repr)
      ensures written == old(written) && taken == old(taken) + old(parts[0])[..add]
    {
      assert BlockOk(0);
      var b := blocks[0];
      var front := parts[0];
      ConcatTake(parts, add);
      hide Concat;
      b.rOffset := b.rOffset + add;
      taken := taken + front[..add];
      if b.rOffset == blockSize {
        assert front[..add] == front;
        blocks, parts := blocks[1..], parts[1..];
        forall i | 0 <= i < |blocks| ensures BlockOk(i) { assert old(BlockOk(i + 1)); }
      } else {
        parts := [front[add..]] + parts[1..];
        assert parts[1..] == old(parts)[1..];
        forall i | 0 <= i < |blocks| ensures BlockOk(i) { assert old(BlockOk(i)); }
      }
    }

    /** add_w_offset(): what was put at w_ptr() joins the stream. */
    method AddWOffset(add: nat)
      requires Valid() && blocks != [] && add <= blockSize - blocks[|blocks| - 1].wOffset
      modifies this, Repr
      ensures Valid() && Repr == old(Repr)
      ensures taken == old(taken)
      ensures var b := old(blocks[|blocks| - 1]); var at := old(blocks[|blocks| - 1].wOffset);
              0 <= at && at + add <= b.data.Length && written == old(written) + old(b.data[at..at + add])
    {
      var last := |blocks| - 1;
      assert BlockOk(last);
      var b := blocks[last];
      var more := b.data[b.wOffset..b.wOffset + add];
      assert b.data[b.rOffset..b.wOffset + add] == parts[last] + more;
      b.wOffset := b.wOffset + add;
      ConcatGrow(parts, more);
      hide Concat;
      parts := parts[..last] + [parts[last] + more];
      written := written + more;
      Associative(taken, old(Concat(parts)), more);
      assert BlockOk(last);
      forall i | 0 <= i < last ensures BlockOk(i) { assert old(BlockOk(i)); }
    }

    // ---------------------------------------------------------------- the way the buffer is used

    /** recv into w_ptr(): bytes from the write offset on, not counted yet. */
    method PutAtWPtr(bytes: Bytes)
      requires Valid() && |bytes| <= Room()
      modifies this, Repr
      ensures Valid() && fresh(Repr - old(Repr)) && old(Repr) <= Repr
      ensures written == old(written) && taken == old(taken)
      ensures blocks != [] && Room() == old(Room())
      ensures var b := blocks[|blocks| - 1];
              0 <= b.wOffset && b.wOffset + Room() == b.data.Length == blockSize
              && b.data[b.wOffset..b.wOffset + |bytes|] == bytes
    {
      var data, at := WPtr();
      FillFree(data, at, bytes);
      assert BlockOk(|blocks| - 1);
    }

    /** Writes to the free bytes of the last block, which the stream does not contain yet. */
    method FillFree(data: array<byte>, at: int, bytes: Bytes)
      requires Valid() && blocks != [] && data == blocks[|blocks| - 1].data && at == blocks[|blocks| - 1].wOffset
      requires 0 <= at && at + |bytes| <= data.Length
      modifies data
      ensures Valid()
      ensures data[at..at + |bytes|] == bytes
    {
      assert BlockOk(|blocks| - 1);
      forall i | 0 <= i < |bytes| {
        data[at + i] := bytes[i];
      }
      forall i | 0 <= i < |blocks| ensures BlockOk(i) { assert old(BlockOk(i)); }
    }

    /** Receiving: any number of bytes, as much at a time as w_len() has room for. */
    method Receive(bytes: Bytes)
      requires Valid()
      modifies this, Repr
      ensures Valid() && fresh(Repr - old(Repr))
      ensures written == old(written) + bytes && taken == old(taken)
    {
      hide BlockOk;
      var done := 0;
      while done < |bytes|
        invariant 0 <= done <= |bytes|
        invariant Valid() && fresh(Repr - old(Repr))
        invariant written == old(written) + bytes[..done] && taken == old(taken)
      {
        var len := WLen();
        if len > |bytes| - done { len := |bytes| - done; }
        PutAtWPtr(bytes[done..done + len]);
        AddWOffset(len);
        assert bytes[..done + len] == bytes[..done] + bytes[done..done + len];
        done := done + len;
      }
      assert bytes[..done] == bytes;
    }

    /** Sending until size() is 0 sends all bytes that were written, in order. */
    method SendAll() returns (sent: Bytes)
      requires Valid()
      modifies this, Repr
      ensures Valid() && fresh(Repr - old(Repr))
      ensures written == old(written) == taken && taken == old(taken) + sent
    {
      hide BlockOk;
      sent := [];
      var size := Size();
      while size > 0
        invariant Valid() && fresh(Repr - old(Repr))
        invariant size == |written| - |taken|
        invariant written == old(written) && taken == old(taken) + sent
        decreases size
      {
        var len := RLen();
        var data, at := RPtr();
        sent := sent + data[at..at + len];
        AddROffset(len);
        size := Size();
      }
      assert |Concat(parts)| == 0;
    }
  }
}
