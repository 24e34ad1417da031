/** The node buffers an index works on, read and changed through pointers. */
module NodeBuffer {
  import opened Bytes
  import opened Page
  import opened NodeCodec
  import opened KeyOrder
  import opened IndexTree

  method Put(node: array<byte>, at: nat, bytes: Bytes)
    requires at + |bytes| <= node.Length
    modifies node
    ensures node[..] == Patch(old(node[..]), at, bytes)
  {
    forall i | 0 <= i < |bytes| {
      node[at + i] := bytes[i];
    }
  }

  /** _node_free_space */
  method NodeFreeSpace(node: array<byte>, ghost nd: Node) returns (ret: int)
    requires Represents(node[..], nd)
    ensures ret == FreeSpace(nd)
  {
    hide NodeFits, HeadIs, Pack;
    HeadFields(node[..], nd);
    ret := NODE_LEN - HEAD_LEN;
    var at, i := HEAD_LEN, 0;
    var count := Get16(node[..], 4);
    OffsetZero(nd.entries);
    while i < count
      invariant 0 <= i <= count == |nd.entries|
      invariant at == Offset(nd.entries, i)
      invariant ret == NODE_LEN - at
    {
      EntryFields(node[..], nd, i);
      var keyLen := Get16(node[..], at + 10);
      ret := ret - INFO_LEN - keyLen;
      at := at + INFO_LEN + keyLen;
      i := i + 1;
    }
    assert nd.entries[..i] == nd.entries;
    ret := ret - INFO_LEN;
  }

  lemma OffsetZero(es: seq<Entry>)
    ensures Offset(es, 0) == HEAD_LEN && Offset(es, |es|) == HEAD_LEN + |Pack(es)|
  {
    assert es[..|es|] == es;
  }

  /** The pointer _find_pos hands out for a place; -1 is NULL. */
  ghost function PosOf(nd: Node, p: Place): int {
    match p
    case Match(i) => if i <= |nd.entries| then Offset(nd.entries, i) else -1
    case Below(i) => if i <= |nd.entries| then Offset(nd.entries, i) else -1
    case Tail => TailAt(nd)
    case Full => -1
  }

  /** After the scan of `i` records: none has the key, and `m` has the least greater key seen, if any. */
  ghost predicate Scanned(es: seq<Entry>, key: Key, i: nat, m: int)
    requires i <= |es|
  {
    && -1 <= m < i
    && (forall j :: 0 <= j < i ==> es[j].key != key)
    && (m == -1 ==> forall j :: 0 <= j < i ==> Less(es[j].key, key))
    && (m >= 0 ==>
          Less(key, es[m].key) && forall j :: 0 <= j < i && Less(key, es[j].key) ==> !Less(es[j].key, es[m].key))
  }

  lemma ScanStep(es: seq<Entry>, key: Key, i: nat, m: int) returns (m': int)
    requires i < |es| && Scanned(es, key, i, m) && es[i].key != key
    ensures Scanned(es, key, i + 1, m')
    ensures m' == if Less(es[i].key, key) then m
                  else if m == -1 || CmpKey(es[m].key, es[i].key) > 0 then i else m
  {
    LessTotal(es[i].key, key);
    if Less(es[i].key, key) {
      m' := m;
      if m >= 0 { LessTotal(key, es[i].key); }
    } else if m == -1 || CmpKey(es[m].key, es[i].key) > 0 {
      m' := i;
      LessTotal(es[i].key, es[i].key);
      if m >= 0 {
        LessTotal(es[m].key, es[i].key);
        forall j | 0 <= j < i && Less(key, es[j].key) ensures !Less(es[j].key, es[i].key) {
          if Less(es[j].key, es[i].key) { LessTransitive(es[j].key, es[i].key, es[m].key); }
        }
      }
      forall j | 0 <= j < i && m == -1 ensures !Less(key, es[j].key) {
        LessTotal(es[j].key, key);
      }
    } else {
      m' := m;
      LessTotal(es[m].key, es[i].key);
    }
  }

  /**
   * _find_pos, with the room of _node_free_space.  At the tail the bytes of
   * the next k_info are cleared.
   */
  method FindPos(node: array<byte>, ghost nd: Node, key: Key) returns (pos: int, ghost place: Place)
    requires Represents(node[..], nd)
    modifies node
    ensures IsPlace(nd, key, place) && pos == PosOf(nd, place)
    ensures Represents(node[..], nd)
    ensures place.Tail? ==> pos + INFO_LEN <= NODE_LEN && node[..] == Patch(old(node[..]), pos, Zeros(INFO_LEN))
    ensures !place.Tail? ==> node[..] == old(node[..])
  {
    hide NodeFits, HeadIs, Pack;
    HeadFields(node[..], nd);
    OffsetZero(nd.entries);
    var at, i := HEAD_LEN, 0;
    var count := Get16(node[..], 4);
    var matchAt, matchKey := -1, [];
    ghost var m := -1;
    while i < count
      invariant 0 <= i <= count == |nd.entries|
      invariant at == Offset(nd.entries, i)
      invariant Scanned(nd.entries, key, i, m)
      invariant if m == -1 then matchAt == -1 else matchAt == Offset(nd.entries, m) && matchKey == nd.entries[m].key
      invariant node[..] == old(node[..])
    {
      EntryFields(node[..], nd, i);
      var currKeyLen := Get16(node[..], at + 10);
      var currKey := node[at + INFO_LEN..at + INFO_LEN + currKeyLen];
      var cmp := CmpKey(currKey, key);
      LessTotal(currKey, key);
      if cmp == 0 {
        return at, Match(i);
      }
      ghost var m' := ScanStep(nd.entries, key, i, m);
      if cmp > 0 && (matchAt == -1 || CmpKey(matchKey, currKey) > 0) {
        matchAt, matchKey := at, currKey;
      }
      m := m';
      at := at + INFO_LEN + currKeyLen;
      i := i + 1;
    }
    if matchAt != -1 {
      return matchAt, Below(m);
    }
    var space := NodeFreeSpace(node, nd);
    if space < |key| {
      return -1, Full;
    }
    Put(node, at, Zeros(INFO_LEN));
    TailIsFree(old(node[..]), node[..], nd);
    return at, Tail;
  }

  // ---------------------------------------------------------------- changes to a node

  lemma PatchThen(s: Bytes, at: nat, x: Bytes, y: Bytes)
    requires at + |x| + |y| <= |s|
    ensures Patch(Patch(s, at, x), at + |x|, y) == Patch(s, at, x + y)
  {
    assert Patch(s, at, x)[..at + |x|] == s[..at] + x;
  }

  lemma PatchBefore(s: Bytes, at: nat, x: Bytes, y: Bytes)
    requires at + |x| + |y| <= |s|
    ensures Patch(Patch(s, at + |x|, y), at, x) == Patch(s, at, x + y)
  {
    assert Patch(s, at + |x|, y)[at + |x|..] == y + s[at + |x| + |y|..];
  }

  /** Fills in the k_info at the tail and the key behind it. */
  method PutEntry(node: array<byte>, pos: nat, e: Entry)
    requires pos + INFO_LEN + |e.key| <= node.Length
    modifies node
    ensures node[..] == Patch(old(node[..]), pos, EncEntry(e))
  {
    hide Patch;
    ghost var s := node[..];
    var a, b, c, d := Enc32(e.val.block), Enc16(e.val.idx), Enc16(|e.key|), Enc32(e.left);
    Put(node, pos + 4, a);
    Put(node, pos + 8, b);
    PatchThen(s, pos + 4, a, b);
    Put(node, pos + 10, c);
    PatchThen(s, pos + 4, a + b, c);
    Put(node, pos, d);
    PatchBefore(s, pos, d, a + b + c);
    assert d + (a + b + c) == EncInfo(e);
    Put(node, pos + INFO_LEN, e.key);
    PatchThen(s, pos, EncInfo(e), e.key);
  }

  /** Adds a record at the tail and counts it. */
  method AppendRecord(node: array<byte>, ghost nd: Node, pos: nat, e: Entry)
    requires Represents(node[..], nd) && EntryFits(e)
    requires pos == TailAt(nd) && FreeSpace(nd) >= |e.key|
    modifies node
    ensures Represents(node[..], nd.(entries := nd.entries + [e]))
  {
    hide Patch, Pack, EncEntry;
    HeadFields(node[..], nd);
    PackBound(nd.entries);
    ghost var s := node[..];
    PutEntry(node, pos, e);
    ghost var s1 := node[..];
    var count := Get16(node[..], 4);
    SameField(s, s1, 4, 6);
    Put(node, 4, Enc16(count + 1));
    ghost var s2 := node[..];
    assert s2[pos..pos + |EncEntry(e)|] == s1[pos..pos + |EncEntry(e)|] == EncEntry(e);
    AppendRepresents(s, s2, nd, e);
  }

  /** An unchanged field reads the same. */
  lemma SameField(s: Bytes, s': Bytes, lo: nat, hi: nat)
    requires lo + 2 == hi <= |s| == |s'| && s[lo..hi] == s'[lo..hi]
    ensures Get16(s, lo) == Get16(s', lo)
  {
    assert s[lo] == s[lo..hi][0] && s[lo + 1] == s[lo..hi][1];
    assert s'[lo] == s'[lo..hi][0] && s'[lo + 1] == s'[lo..hi][1];
  }

  /** Each record takes at least its k_info. */
  lemma {:induction false} PackBound(es: seq<Entry>)
    ensures INFO_LEN * |es| <= |Pack(es)|
  {
    if es != [] {
      PackBound(es[..|es| - 1]);
    }
  }

  /** Stores a child id: in record `i`, or as the right child. */
  method SetSlot(node: array<byte>, ghost nd: Node, ghost i: nat, pos: int, c: nat)
    requires Represents(node[..], nd) && i <= |nd.entries| && c <= MAX_INT
    requires pos == if i < |nd.entries| then Offset(nd.entries, i) else -1
    modifies node
    ensures Represents(node[..], WithSlot(nd, i, c))
  {
    ghost var s := node[..];
    if pos == -1 {
      Put(node, 12, Enc32(c));
      SetRightRepresents(s, nd, c);
    } else {
      SetLeftRepresents(s, nd, i, c);
      Put(node, pos, Enc32(c));
    }
  }

  /** Clears the value of record `i`. */
  method ClearVal(node: array<byte>, ghost nd: Node, ghost i: nat, pos: nat)
    requires Represents(node[..], nd) && i < |nd.entries| && pos == Offset(nd.entries, i)
    modifies node
    ensures Represents(node[..], nd.(entries := nd.entries[i := nd.entries[i].(val := NO_ROW)]))
  {
    hide Patch;
    ghost var s := node[..];
    ClearValRepresents(s, nd, i);
    Put(node, pos + 4, Enc32(0));
    Put(node, pos + 8, Enc16(0));
    PatchThen(s, pos + 4, Enc32(0), Enc16(0));
  }

  /** A new node of whatever bytes the allocator hands out; its block is not known yet. */
  method NewNode(parent: nat) returns (node: array<byte>)
    requires parent <= MAX_INT
    ensures fresh(node) && Represents(node[..], Node(0, parent, 0, []))
  {
    hide Patch;
    node := new byte[NODE_LEN];
    Put(node, 0, Enc32(0));
    Put(node, 8, Enc32(parent));
    Put(node, 12, Enc32(0));
    Put(node, 4, Enc16(0));
    EmptyRepresents(node[..], parent);
  }

  method SetNodeBlock(node: array<byte>, ghost nd: Node, b: nat)
    requires Represents(node[..], nd) && b <= MAX_INT
    modifies node
    ensures Represents(node[..], nd.(block := b))
  {
    ghost var s := node[..];
    Put(node, 0, Enc32(b));
    SetBlockRepresents(s, nd, b);
  }

  /** What the pointer _find_pos handed out points to; cleared bytes at the tail. */
  method ReadInfo(node: array<byte>, ghost nd: Node, pos: nat, ghost place: Place) returns (e: Entry)
    requires Represents(node[..], nd) && pos == PosOf(nd, place)
    requires place.Match? || place.Below? ==> place.i < |nd.entries|
    requires place.Tail? ==> pos + INFO_LEN <= NODE_LEN && node[pos..pos + INFO_LEN] == Zeros(INFO_LEN)
    ensures match place
            case Match(i) => e == nd.entries[i]
            case Below(i) => e == nd.entries[i]
            case _ => e == Entry(0, NO_ROW, [])
  {
    hide NodeFits, HeadIs, Pack;
    ghost var s := node[..];
    if place.Tail? {
      ClearedFields(s, pos);
    } else {
      EntryFields(s, nd, place.i);
    }
    var left, block := Get32(node[..], pos), Get32(node[..], pos + 4);
    var idx, len := Get16(node[..], pos + 8), Get16(node[..], pos + 10);
    e := Entry(left, RowId(block, idx), node[pos + INFO_LEN..pos + INFO_LEN + len]);
  }

  lemma ClearedFields(s: Bytes, pos: nat)
    requires pos + INFO_LEN <= |s| && s[pos..pos + INFO_LEN] == Zeros(INFO_LEN)
    ensures Get32(s, pos) == 0 && Get32(s, pos + 4) == 0 && Get16(s, pos + 8) == 0 && Get16(s, pos + 10) == 0
  {
    var info := s[pos..pos + INFO_LEN];
    forall k | 0 <= k < INFO_LEN ensures info[k] == s[pos + k] == 0 {
    }
  }
}
