/** The order of keys: byte by byte, a prefix before what extends it. */
module KeyOrder {
  import opened NodeCodec

  /** memcmp of the bytes from `i` up to `n`. */
  function MemCmp(a: Key, b: Key, i: nat, n: nat): int
    requires i <= n <= |a| && n <= |b|
    decreases n - i
  {
    if i == n then 0
    else if a[i] != b[i] then a[i] as int - b[i] as int
    else MemCmp(a, b, i + 1, n)
  }

  /** _cmp_key */
  function CmpKey(a: Key, b: Key): int {
    var len := if |a| < |b| then |a| else |b|;
    var ret := MemCmp(a, b, 0, len);
    if ret == 0 then (if |a| == |b| then 0 else if |a| > |b| then 1 else -1) else ret
  }

  predicate Less(a: Key, b: Key) {
    CmpKey(a, b) < 0
  }

  /** `a` and `b` agree up to `i`, where `a` ends or has the smaller byte. */
  predicate FirstBelow(a: Key, b: Key, i: nat) {
    && i <= |a| && i < |b| && a[..i] == b[..i]
    && (i == |a| || a[i] < b[i])
  }

  lemma {:induction false} MemCmpSplits(a: Key, b: Key, i: nat, n: nat) returns (k: nat)
    requires i <= n <= |a| && n <= |b| && a[..i] == b[..i]
    ensures i <= k <= n && a[..k] == b[..k]
    ensures MemCmp(a, b, i, n) == if k == n then 0 else a[k] as int - b[k] as int
    ensures k < n ==> a[k] != b[k]
    decreases n - i
  {
    if i == n || a[i] != b[i] {
      k := i;
    } else {
      assert a[..i + 1] == a[..i] + [a[i]] && b[..i + 1] == b[..i] + [b[i]];
      k := MemCmpSplits(a, b, i + 1, n);
    }
  }

  /** Comparing is looking for the first difference. */
  lemma CmpKeyMeans(a: Key, b: Key) returns (k: nat)
    ensures CmpKey(a, b) == 0 ==> a == b
    ensures CmpKey(a, b) < 0 ==> FirstBelow(a, b, k)
    ensures CmpKey(a, b) > 0 ==> FirstBelow(b, a, k)
    ensures a == b ==> CmpKey(a, b) == 0
  {
    var n := if |a| < |b| then |a| else |b|;
    k := MemCmpSplits(a, b, 0, n);
    if k == n && |a| == |b| {
      assert a == a[..n] == b[..n] == b;
    }
  }

  lemma FirstBelowIsLess(a: Key, b: Key, i: nat)
    requires FirstBelow(a, b, i)
    ensures Less(a, b)
  {
    var k := CmpKeyMeans(a, b);
    if !Less(a, b) {
      assert false;
    }
  }

  lemma LessTransitive(a: Key, b: Key, c: Key)
    requires Less(a, b) && Less(b, c)
    ensures Less(a, c)
  {
    var i := CmpKeyMeans(a, b);
    var j := CmpKeyMeans(b, c);
    var m := if i < j then i else j;
    assert a[..m] == a[..i][..m] && b[..m] == b[..i][..m] == b[..j][..m] && c[..m] == c[..j][..m];
    if i < j { assert b[i] == b[..j][i] == c[..j][i] == c[i]; }
    if j < i { assert a[j] == a[..i][j] == b[..i][j] == b[j]; }
    FirstBelowIsLess(a, c, m);
  }

  /** Exactly one of less, equal and greater. */
  lemma LessTotal(a: Key, b: Key)
    ensures CmpKey(a, b) == 0 <==> a == b
    ensures Less(b, a) <==> CmpKey(a, b) > 0
  {
    var k := CmpKeyMeans(a, b);
    var l := CmpKeyMeans(b, a);
    if CmpKey(a, b) > 0 {
      FirstBelowIsLess(b, a, k);
    }
    if CmpKey(a, b) < 0 && Less(b, a) {
      assert false;
    }
  }
}
