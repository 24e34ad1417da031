/**
 * The byte layout of an index node: a 16-byte head, then packed records of a
 * 12-byte k_info and the key bytes.  Integers are little-endian.
 */
module NodeCodec {
  import opened Bytes
  import opened Page

  const NODE_LEN: nat := 8152
  const HEAD_LEN: nat := 16
  const INFO_LEN: nat := 12
  const MAX_SHORT := 0x7fff
  const MAX_INT := 0x7fff_ffff

  /** The longest key an empty node has room for. */
  const MAX_KEY: nat := NODE_LEN - HEAD_LEN - INFO_LEN

  type Key = Bytes

  datatype Entry = Entry(left: nat, val: RowId, key: Key)

  datatype Node = Node(block: nat, parent: nat, right: nat, entries: seq<Entry>)

  // ---------------------------------------------------------------- integers

  function LowByte(n: nat): byte {
    n % 256
  }

  function Enc16(n: nat): (s: Bytes)
    ensures |s| == 2
  {
    [LowByte(n), LowByte(n / 256)]
  }

  function Enc32(n: nat): (s: Bytes)
    ensures |s| == 4
  {
    Enc16(n % 0x1_0000) + Enc16(n / 0x1_0000)
  }

  function Unsigned16(s: Bytes, at: nat): nat
    requires at + 2 <= |s|
  {
    s[at] as int + 0x100 * s[at + 1] as int
  }

  /** Reading a short. */
  function Get16(s: Bytes, at: nat): int
    requires at + 2 <= |s|
  {
    var u := Unsigned16(s, at);
    if u <= MAX_SHORT then u else u - 0x1_0000
  }

  /** Reading an int. */
  function Get32(s: Bytes, at: nat): int
    requires at + 4 <= |s|
  {
    var u := Unsigned16(s, at) + 0x1_0000 * Unsigned16(s, at + 2);
    if u <= MAX_INT then u else u - 0x1_0000_0000
  }

  lemma Get16Enc(s: Bytes, at: nat, n: nat)
    requires n <= MAX_SHORT && at + 2 <= |s| && s[at..at + 2] == Enc16(n)
    ensures Get16(s, at) == n
  {
    assert s[at] == s[at..at + 2][0] && s[at + 1] == s[at..at + 2][1];
  }

  lemma Unsigned16Enc(s: Bytes, at: nat, n: nat)
    requires n < 0x1_0000 && at + 2 <= |s| && s[at..at + 2] == Enc16(n)
    ensures Unsigned16(s, at) == n
  {
    assert s[at] == s[at..at + 2][0] && s[at + 1] == s[at..at + 2][1];
  }

  lemma Get32Enc(s: Bytes, at: nat, n: nat)
    requires n <= MAX_INT && at + 4 <= |s| && s[at..at + 4] == Enc32(n)
    ensures Get32(s, at) == n
  {
    assert s[at..at + 2] == s[at..at + 4][..2] == Enc16(n % 0x1_0000);
    assert s[at + 2..at + 4] == s[at..at + 4][2..] == Enc16(n / 0x1_0000);
    Unsigned16Enc(s, at, n % 0x1_0000);
    Unsigned16Enc(s, at + 2, n / 0x1_0000);
  }

  // ---------------------------------------------------------------- records

  function EncInfo(e: Entry): (s: Bytes)
    ensures |s| == INFO_LEN
  {
    Enc32(e.left) + Enc32(e.val.block) + Enc16(e.val.idx) + Enc16(|e.key|)
  }

  function EncEntry(e: Entry): (s: Bytes)
    ensures |s| == INFO_LEN + |e.key|
  {
    EncInfo(e) + e.key
  }

  function Pack(es: seq<Entry>): Bytes {
    if es == [] then [] else Pack(es[..|es| - 1]) + EncEntry(es[|es| - 1])
  }

  /** Where record `i` starts; for i == |es|, where the next one goes. */
  function Offset(es: seq<Entry>, i: nat): nat
    requires i <= |es|
  {
    HEAD_LEN + |Pack(es[..i])|
  }

  predicate EntryFits(e: Entry) {
    e.left <= MAX_INT && e.val.block <= MAX_INT && e.val.idx <= MAX_SHORT && |e.key| <= MAX_SHORT
  }

  ghost predicate NodeFits(nd: Node) {
    && nd.block <= MAX_INT && nd.parent <= MAX_INT && nd.right <= MAX_INT
    && |nd.entries| <= MAX_SHORT
    && (forall i :: 0 <= i < |nd.entries| ==> EntryFits(nd.entries[i]))
    && Offset(nd.entries, |nd.entries|) <= NODE_LEN
  }

  ghost predicate HeadIs(s: Bytes, nd: Node)
    requires |s| == NODE_LEN
  {
    && s[0..4] == Enc32(nd.block)
    && s[4..6] == Enc16(|nd.entries|)
    && s[8..12] == Enc32(nd.parent)
    && s[12..16] == Enc32(nd.right)
  }

  /** The bytes of node `nd`; padding and what lies beyond the last record are free. */
  ghost predicate Represents(s: Bytes, nd: Node) {
    && |s| == NODE_LEN
    && NodeFits(nd)
    && HeadIs(s, nd)
    && Offset(nd.entries, |nd.entries|) == HEAD_LEN + |Pack(nd.entries)|
    && s[HEAD_LEN..Offset(nd.entries, |nd.entries|)] == Pack(nd.entries)
  }

  lemma {:induction false} OffsetStep(es: seq<Entry>, i: nat)
    requires i < |es|
    ensures Offset(es, 0) == HEAD_LEN
    ensures Offset(es, i + 1) == Offset(es, i) + INFO_LEN + |es[i].key|
  {
    assert es[..i + 1][..i] == es[..i];
    assert es[..i + 1][i] == es[i];
  }

  lemma {:induction false} OffsetUp(es: seq<Entry>, i: nat, j: nat)
    requires i <= j <= |es|
    ensures Offset(es, i) <= Offset(es, j)
    ensures Pack(es[..j])[..|Pack(es[..i])|] == Pack(es[..i])
    decreases j
  {
    if i < j {
      OffsetUp(es, i, j - 1);
      OffsetStep(es, j - 1);
      assert es[..j][..j - 1] == es[..j - 1];
    }
  }

  /** Record `i` is found, whole, at its offset. */
  lemma EntryBytes(s: Bytes, nd: Node, i: nat)
    requires Represents(s, nd) && i < |nd.entries|
    ensures Offset(nd.entries, i) + INFO_LEN + |nd.entries[i].key| == Offset(nd.entries, i + 1) <= NODE_LEN
    ensures s[Offset(nd.entries, i)..Offset(nd.entries, i + 1)] == EncEntry(nd.entries[i])
  {
    var es := nd.entries;
    OffsetStep(es, i);
    OffsetUp(es, i + 1, |es|);
    assert es[..|es|] == es;
    PackAt(es, i);
    SliceOfSlice(s, HEAD_LEN, Offset(es, |es|), |Pack(es[..i])|, |Pack(es[..i + 1])|);
  }

  lemma PackAt(es: seq<Entry>, i: nat)
    requires i < |es|
    ensures |Pack(es[..i])| <= |Pack(es[..i + 1])| <= |Pack(es)|
    ensures Pack(es)[|Pack(es[..i])|..|Pack(es[..i + 1])|] == EncEntry(es[i])
  {
    OffsetUp(es, i + 1, |es|);
    assert es[..|es|] == es;
    assert es[..i + 1][..i] == es[..i];
    var head := Pack(es)[..|Pack(es[..i + 1])|];
    assert head == Pack(es[..i]) + EncEntry(es[i]);
    assert Pack(es)[|Pack(es[..i])|..|Pack(es[..i + 1])|] == head[|Pack(es[..i])|..];
  }

  lemma SliceOfSlice(s: Bytes, lo: nat, hi: nat, i: nat, j: nat)
    requires lo <= hi <= |s| && i <= j <= hi - lo
    ensures s[lo..hi][i..j] == s[lo + i..lo + j]
  {
    forall k | 0 <= k < j - i ensures s[lo..hi][i..j][k] == s[lo + i..lo + j][k] {
    }
  }

  /** The fields read through a pointer to record `i` are that record's. */
  lemma EntryFields(s: Bytes, nd: Node, i: nat)
    requires Represents(s, nd) && i < |nd.entries|
    ensures var at := Offset(nd.entries, i); var e := nd.entries[i];
            && at + INFO_LEN + |e.key| == Offset(nd.entries, i + 1) <= NODE_LEN
            && Get32(s, at) == e.left
            && Get32(s, at + 4) == e.val.block
            && Get16(s, at + 8) == e.val.idx
            && Get16(s, at + 10) == |e.key|
            && s[at + INFO_LEN..at + INFO_LEN + |e.key|] == e.key
  {
    EntryBytes(s, nd, i);
    var at, e := Offset(nd.entries, i), nd.entries[i];
    assert EntryFits(e);
    assert s[at..at + INFO_LEN] == s[at..Offset(nd.entries, i + 1)][..INFO_LEN];
    assert s[at + INFO_LEN..Offset(nd.entries, i + 1)] == s[at..Offset(nd.entries, i + 1)][INFO_LEN..];
    InfoFields(s, at, e);
  }

  lemma InfoFields(s: Bytes, at: nat, e: Entry)
    requires EntryFits(e) && at + INFO_LEN <= |s| && s[at..at + INFO_LEN] == EncInfo(e)
    ensures Get32(s, at) == e.left
    ensures Get32(s, at + 4) == e.val.block
    ensures Get16(s, at + 8) == e.val.idx
    ensures Get16(s, at + 10) == |e.key|
  {
    var info := EncInfo(e);
    SliceOfSlice(s, at, at + INFO_LEN, 0, 4);
    SliceOfSlice(s, at, at + INFO_LEN, 4, 8);
    SliceOfSlice(s, at, at + INFO_LEN, 8, 10);
    SliceOfSlice(s, at, at + INFO_LEN, 10, 12);
    assert info[0..4] == Enc32(e.left);
    assert info[4..8] == Enc32(e.val.block);
    assert info[8..10] == Enc16(e.val.idx);
    assert info[10..12] == Enc16(|e.key|);
    Get32Enc(s, at, e.left);
    Get32Enc(s, at + 4, e.val.block);
    Get16Enc(s, at + 8, e.val.idx);
    Get16Enc(s, at + 10, |e.key|);
  }

  lemma HeadFields(s: Bytes, nd: Node)
    requires Represents(s, nd)
    ensures Get32(s, 0) == nd.block && Get16(s, 4) == |nd.entries|
    ensures Get32(s, 8) == nd.parent && Get32(s, 12) == nd.right
  {
    Get32Enc(s, 0, nd.block);
    Get16Enc(s, 4, |nd.entries|);
    Get32Enc(s, 8, nd.parent);
    Get32Enc(s, 12, nd.right);
  }

  /** The layout, byte by byte: node 2 below node 9 with right child 4 and one record. */
  lemma LayoutExample(s: Bytes)
    requires |s| == NODE_LEN
    requires s[..6] == [2, 0, 0, 0, 1, 0]
    requires s[8..16] == [9, 0, 0, 0, 4, 0, 0, 0]
    requires s[16..29] == [0x04, 0x03, 0x02, 0x01, 5, 0, 0, 0, 6, 0, 1, 0, 7]
    ensures Represents(s, Node(2, 9, 4, [Entry(0x01020304, RowId(5, 6), [7])]))
  {
    var e := Entry(0x01020304, RowId(5, 6), [7]);
    assert Pack([e]) == Pack([e][..0]) + EncEntry([e][0]);
    assert [e][..1] == [e];
    assert EncInfo(e) == [0x04, 0x03, 0x02, 0x01, 5, 0, 0, 0, 6, 0, 1, 0];
    assert s[0..4] == s[..6][..4] && s[4..6] == s[..6][4..];
    assert s[8..12] == s[8..16][..4] && s[12..16] == s[8..16][4..];
  }

  // ---------------------------------------------------------------- updates in place

  /** Where the next record goes. */
  function TailAt(nd: Node): nat {
    HEAD_LEN + |Pack(nd.entries)|
  }

  lemma SameSlices(s: Bytes, s': Bytes, t: nat)
    requires t <= |s| == |s'| && s'[..t] == s[..t]
    ensures forall lo, hi :: 0 <= lo <= hi <= t ==> s'[lo..hi] == s[lo..hi]
  {
    forall k | 0 <= k < t ensures s'[k] == s[k] {
      assert s'[k] == s'[..t][k] && s[k] == s[..t][k];
    }
  }

  /** Bytes from the tail on are free. */
  lemma TailIsFree(s: Bytes, s': Bytes, nd: Node)
    requires Represents(s, nd) && |s'| == |s| && s'[..TailAt(nd)] == s[..TailAt(nd)]
    ensures Represents(s', nd)
  {
    var t := TailAt(nd);
    assert nd.entries[..|nd.entries|] == nd.entries;
    SameSlices(s, s', t);
  }

  /** Appending a record at the tail and counting it. */
  lemma AppendRepresents(s: Bytes, s': Bytes, nd: Node, e: Entry)
    requires Represents(s, nd) && EntryFits(e) && |nd.entries| < MAX_SHORT
    requires |s'| == |s| && TailAt(nd) + INFO_LEN + |e.key| <= NODE_LEN
    requires s'[0..4] == s[0..4] && s'[4..6] == Enc16(|nd.entries| + 1)
    requires s'[8..12] == s[8..12] && s'[12..16] == s[12..16]
    requires s'[HEAD_LEN..TailAt(nd)] == s[HEAD_LEN..TailAt(nd)]
    requires s'[TailAt(nd)..TailAt(nd) + INFO_LEN + |e.key|] == EncEntry(e)
    ensures Represents(s', nd.(entries := nd.entries + [e]))
  {
    var es, es' := nd.entries, nd.entries + [e];
    var t := TailAt(nd);
    assert es'[..|es'| - 1] == es && es'[..|es'|] == es' && es[..|es|] == es;
    assert Pack(es') == Pack(es) + EncEntry(e);
    assert s'[HEAD_LEN..t + |EncEntry(e)|] == s'[HEAD_LEN..t] + s'[t..t + |EncEntry(e)|];
  }

  lemma PatchInFront(a: Bytes, b: Bytes, at: nat, x: Bytes)
    requires at + |x| <= |a|
    ensures Patch(a + b, at, x) == Patch(a, at, x) + b
  {
  }

  lemma PatchBehind(a: Bytes, b: Bytes, x: Bytes)
    requires |x| == |b|
    ensures Patch(a + b, |a|, x) == a + x
  {
  }

  lemma {:induction false} PackUpdate(es: seq<Entry>, i: nat, e: Entry)
    requires i < |es| && |e.key| == |es[i].key|
    ensures |Pack(es[..i])| + |EncEntry(e)| <= |Pack(es)|
    ensures Pack(es[i := e]) == Patch(Pack(es), |Pack(es[..i])|, EncEntry(e))
  {
    hide EncEntry;
    hide Patch;
    var n := |es| - 1;
    var es' := es[i := e];
    assert Pack(es) == Pack(es[..n]) + EncEntry(es[n]);
    assert Pack(es') == Pack(es'[..n]) + EncEntry(es'[n]);
    if i == n {
      assert es'[..n] == es[..n];
      PatchBehind(Pack(es[..n]), EncEntry(es[n]), EncEntry(e));
    } else {
      assert es'[..n] == es[..n][i := e];
      assert es[..n][..i] == es[..i];
      PackUpdate(es[..n], i, e);
      PatchInFront(Pack(es[..n]), EncEntry(es[n]), |Pack(es[..i])|, EncEntry(e));
    }
  }

  /** Rewriting the child id of record `i` in place. */
  lemma SetLeftRepresents(s: Bytes, nd: Node, i: nat, c: nat)
    requires Represents(s, nd) && i < |nd.entries| && c <= MAX_INT
    ensures Offset(nd.entries, i) + 4 <= NODE_LEN
    ensures Represents(Patch(s, Offset(nd.entries, i), Enc32(c)),
                       nd.(entries := nd.entries[i := nd.entries[i].(left := c)]))
  {
    var es, at := nd.entries, Offset(nd.entries, i);
    var e := es[i].(left := c);
    EntryBytes(s, nd, i);
    SetLeftPack(s, nd, i, c);
    var es' := es[i := e];
    assert es'[..|es'|] == es' && es[..|es|] == es;
    var s' := Patch(s, at, Enc32(c));
    forall j | 0 <= j < |es'| ensures EntryFits(es'[j]) {
      assert EntryFits(es[j]);
    }
  }

  lemma SetLeftPack(s: Bytes, nd: Node, i: nat, c: nat)
    requires Represents(s, nd) && i < |nd.entries| && c <= MAX_INT
    requires Offset(nd.entries, i) + 4 <= NODE_LEN
    ensures var es' := nd.entries[i := nd.entries[i].(left := c)];
            && |Pack(es')| == |Pack(nd.entries)|
            && Patch(s, Offset(nd.entries, i), Enc32(c))[HEAD_LEN..TailAt(nd)] == Pack(es')
  {
    hide Patch;
    var es, at := nd.entries, Offset(nd.entries, i);
    var e := es[i].(left := c);
    EntryBytes(s, nd, i);
    PackUpdate(es, i, e);
    EncLeft(es[i], c);
    assert es[..|es|] == es;
    OffsetUp(es, i + 1, |es|);
    var end := Offset(es, i + 1);
    SliceOfSlice(s, at, end, 4, end - at);
    LeftInPack(s, HEAD_LEN, TailAt(nd), at, Enc32(c), EncEntry(e));
  }

  /** A record's bytes begin with its child id. */
  lemma EncLeft(e: Entry, c: nat)
    ensures EncEntry(e.(left := c)) == Enc32(c) + EncEntry(e)[4..]
  {
  }

  /** Patching the front of a region, seen from the slice that holds it. */
  lemma LeftInPack(s: Bytes, lo: nat, hi: nat, at: nat, front: Bytes, whole: Bytes)
    requires lo <= at <= at + |front| <= at + |whole| <= hi <= |s|
    requires whole == front + s[at + |front|..at + |whole|]
    ensures Patch(s, at, front)[lo..hi] == Patch(s[lo..hi], at - lo, whole)
  {
    var l, r := Patch(s, at, front)[lo..hi], Patch(s[lo..hi], at - lo, whole);
    forall k | 0 <= k < hi - lo ensures l[k] == r[k] {
      if at + |front| <= lo + k < at + |whole| {
        assert r[k] == whole[lo + k - at];
      }
    }
  }

  /** Clearing the value of record `i` in place: its block and row index, behind the child id. */
  lemma ClearValRepresents(s: Bytes, nd: Node, i: nat)
    requires Represents(s, nd) && i < |nd.entries|
    ensures Offset(nd.entries, i) + INFO_LEN <= NODE_LEN
    ensures Represents(Patch(s, Offset(nd.entries, i) + 4, Enc32(0) + Enc16(0)),
                       nd.(entries := nd.entries[i := nd.entries[i].(val := NO_ROW)]))
  {
    var es, at := nd.entries, Offset(nd.entries, i);
    var e := es[i].(val := NO_ROW);
    EntryBytes(s, nd, i);
    ClearValPack(s, nd, i);
    var es' := es[i := e];
    assert es'[..|es'|] == es' && es[..|es|] == es;
    var s' := Patch(s, at + 4, Enc32(0) + Enc16(0));
    forall j | 0 <= j < |es'| ensures EntryFits(es'[j]) {
      assert EntryFits(es[j]);
    }
  }

  lemma ClearValPack(s: Bytes, nd: Node, i: nat)
    requires Represents(s, nd) && i < |nd.entries|
    requires Offset(nd.entries, i) + INFO_LEN <= NODE_LEN
    ensures var es' := nd.entries[i := nd.entries[i].(val := NO_ROW)];
            && |Pack(es')| == |Pack(nd.entries)|
            && Patch(s, Offset(nd.entries, i) + 4, Enc32(0) + Enc16(0))[HEAD_LEN..TailAt(nd)] == Pack(es')
  {
    hide Patch;
    var es, at := nd.entries, Offset(nd.entries, i);
    var e := es[i].(val := NO_ROW);
    EntryBytes(s, nd, i);
    PackUpdate(es, i, e);
    EncVal(es[i], NO_ROW);
    assert es[..|es|] == es;
    OffsetUp(es, i + 1, |es|);
    var end := Offset(es, i + 1);
    SliceOfSlice(s, at, end, 0, 4);
    SliceOfSlice(s, at, end, 10, end - at);
    var front := s[at..at + 4] + (Enc32(0) + Enc16(0));
    PatchWider(s, at, 4, Enc32(0) + Enc16(0));
    assert EncEntry(es[i])[..4] == s[at..at + 4];
    assert EncEntry(es[i])[10..] == s[at + 10..end];
    assert |front| == 10 && at + |EncEntry(e)| == end;
    LeftInPack(s, HEAD_LEN, TailAt(nd), at, front, EncEntry(e));
  }

  /** A record's value id lies behind its child id and before its key length. */
  lemma EncVal(e: Entry, val: RowId)
    ensures EncEntry(e.(val := val)) == EncEntry(e)[..4] + (Enc32(val.block) + Enc16(val.idx)) + EncEntry(e)[10..]
  {
  }

  /** A patch may as well rewrite the bytes before it. */
  lemma PatchWider(s: Bytes, at: nat, n: nat, x: Bytes)
    requires at + n + |x| <= |s|
    ensures Patch(s, at + n, x) == Patch(s, at, s[at..at + n] + x)
  {
  }

  lemma SetRightRepresents(s: Bytes, nd: Node, c: nat)
    requires Represents(s, nd) && c <= MAX_INT
    ensures Represents(Patch(s, 12, Enc32(c)), nd.(right := c))
  {
  }

  lemma SetBlockRepresents(s: Bytes, nd: Node, b: nat)
    requires Represents(s, nd) && b <= MAX_INT
    ensures Represents(Patch(s, 0, Enc32(b)), nd.(block := b))
  {
  }

  /** A head without records makes an empty node of any bytes. */
  lemma EmptyRepresents(s: Bytes, parent: nat)
    requires |s| == NODE_LEN && parent <= MAX_INT
    requires s[0..4] == Enc32(0) && s[4..6] == Enc16(0) && s[8..12] == Enc32(parent) && s[12..16] == Enc32(0)
    ensures Represents(s, Node(0, parent, 0, []))
  {
  }

  // ---------------------------------------------------------------- decoding

  /** Reads `n` records from `at` on, the way a pointer walks them. */
  function Unpack(s: Bytes, at: nat, n: nat): seq<Entry>
    decreases n
  {
    if n == 0 || at + INFO_LEN > |s| then []
    else
      var left, block, idx, len := Get32(s, at), Get32(s, at + 4), Get16(s, at + 8), Get16(s, at + 10);
      if left < 0 || block < 0 || idx < 0 || len < 0 || at + INFO_LEN + len > |s| then []
      else
        [Entry(left, RowId(block, idx), s[at + INFO_LEN..at + INFO_LEN + len])] + Unpack(s, at + INFO_LEN + len, n - 1)
  }

  lemma {:induction false} UnpackFrom(s: Bytes, nd: Node, i: nat)
    requires Represents(s, nd) && i <= |nd.entries|
    ensures Unpack(s, Offset(nd.entries, i), |nd.entries| - i) == nd.entries[i..]
    decreases |nd.entries| - i
  {
    hide Offset, Get32, Get16, NodeFits, HeadIs, Pack;
    if i < |nd.entries| {
      EntryFields(s, nd, i);
      UnpackFrom(s, nd, i + 1);
    }
  }

  /** Decoding what the bytes represent gives it back. */
  lemma DecodeRepresented(s: Bytes, nd: Node)
    requires Represents(s, nd)
    ensures nd.block == Get32(s, 0) && nd.parent == Get32(s, 8) && nd.right == Get32(s, 12)
    ensures Get16(s, 4) >= 0 && nd.entries == Unpack(s, HEAD_LEN, Get16(s, 4))
  {
    assert Offset(nd.entries, 0) == HEAD_LEN;
    HeadFields(s, nd);
    UnpackFrom(s, nd, 0);
  }
}
