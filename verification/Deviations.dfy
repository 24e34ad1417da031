/**
 * Where the code of the cache and of the server does something else than the
 * model, the literal code is written out here, with exactly when the two agree.
 */
module CacheDeviations {
  import opened Bytes
  import opened LruSpec
  import opened Links

  /**
   * The bucket search as written: `k_len = ln->k_len && memcmp(k, ln->k, k_len) == 0`
   * assigns the outcome of the whole conjunction to k_len.  So after one
   * mismatch the length compared is 0.
   */
  function LiteralSearch(chain: seq<Bytes>, k: Bytes, kLen: nat): (i: nat)
    requires kLen <= |k| && forall j :: 0 <= j < |chain| ==> kLen <= |chain[j]|
    ensures i <= |chain|
    decreases |chain|
  {
    if chain == [] then 0
    else if chain[0] != [] && chain[0][..kLen] == k[..kLen] then 0
    else 1 + LiteralSearch(chain[1..], k, 0)
  }

  /** What is meant: the first node with the key. */
  function Search(chain: seq<Bytes>, k: Bytes): (i: nat)
    ensures i <= |chain|
  {
    if chain == [] || chain[0] == k then 0 else 1 + Search(chain[1..], k)
  }

  /**
   * With keys of one length the literal search is right exactly if the
   * bucket's first two nodes are: from the second on everything matches.
   */
  lemma LiteralSearchAgrees(chain: seq<Bytes>, k: Bytes)
    requires k != [] && forall j :: 0 <= j < |chain| ==> |chain[j]| == |k|
    ensures LiteralSearch(chain, k, |k|) == Search(chain, k)
       <==> |chain| < 2 || chain[0] == k || chain[1] == k
  {
    if |chain| >= 2 && chain[0] != k {
      assert chain[0][..|k|] == chain[0] && k[..|k|] == k;
      assert chain[1..][0] == chain[1];
      assert chain[1] != [] && chain[1][..0] == k[..0];
      assert LiteralSearch(chain[1..], k, 0) == 0;
      assert Search(chain[1..], k) == 0 <==> chain[1] == k;
    } else if chain != [] {
      assert chain[0][..|k|] == chain[0] && k[..|k|] == k;
    }
  }

  /** Three keys in one bucket, the third looked for: the second node is taken for it. */
  lemma LiteralSearchMistakes()
    ensures LiteralSearch([[1], [2], [3]], [3], 1) == 1 && Search([[1], [2], [3]], [3]) == 2
  {
    var chain: seq<Bytes> := [[1], [2], [3]];
    assert chain[0][..1][0] == 1 && [3][..1][0] == 3;
    assert chain[1..][0][..0] == [3][..0];
    assert chain[1..][1..] == [[3]];
    LiteralSearchAgrees(chain, [3]);
  }

  /**
   * Replacing a value leaves `_size` as it was.  It is then still the sum of
   * all lengths exactly if the new value is as long as the old one.
   */
  lemma UnadjustedSize(es: seq<Pair>, p: Pair)
    requires Place(es, p.k) < |es|
    ensures Total(Put(es, p)) - Total(es) == |p.v| - |es[Place(es, p.k)].v|
    ensures Total(Put(es, p)) == Total(es) <==> |p.v| == |es[Place(es, p.k)].v|
  {
    var i := Place(es, p.k);
    TotalWithout(es, i);
    TotalCons(p, Without(es, i));
  }

  /** A one-byte value replaced by one of three: the size is two bytes short. */
  lemma UnadjustedSizeShort()
    ensures Total([Pair([7], [1])]) == 2 && Total(Put([Pair([7], [1])], Pair([7], [1, 2, 3]))) == 4
  {
    var es := [Pair([7], [1])];
    assert Total(es[1..]) == 0;
    assert Place(es, [7]) == 0;
    UnadjustedSize(es, Pair([7], [1, 2, 3]));
  }
}

module ServerDeviations {
  import opened Masking
  import opened FileTiling

  /** The remainder operator of the implementation language: it has the sign of the dividend. */
  function TruncRemainder(h: int, n: nat): int
    requires n > 0
  {
    if h >= 0 then h % n else -((-h) % n)
  }

  /** A request has a queue exactly if its hash is not of the negative kind and its file is among the local ones. */
  lemma RequestHasQueue(hash: int, fileCount: nat, local: nat)
    requires 0 < fileCount
    ensures 0 <= TruncRemainder(hash, fileCount) < local
       <==> (hash >= 0 || hash % fileCount == 0) && hash % fileCount < local
  {
    if hash < 0 {
      NegRemainder(hash, fileCount);
    }
  }

  lemma NegRemainder(h: int, n: nat)
    requires n > 0 && h < 0
    ensures h % n == 0 <==> (-h) % n == 0
  {
    var q, q' := h / n, (-h) / n;
    if h % n == 0 {
      assert -h == (-q) * n;
      RemainderUnique(-h, n, -q, 0);
    }
    if (-h) % n == 0 {
      assert h == (-q') * n;
      RemainderUnique(h, n, -q', 0);
    }
  }

  /**
   * The queue is chosen by the file's number among all files, not among the
   * local ones: every non-negative hash has a queue exactly if the server
   * keeps as many files as there are.
   */
  lemma EveryRequestHasQueue(id: nat, fileCount: nat, serverCount: nat)
    requires id < serverCount && 0 < fileCount
    ensures (forall hash: nat :: TruncRemainder(hash, fileCount) < Count(id, fileCount, serverCount))
       <==> Count(id, fileCount, serverCount) >= fileCount
  {
    var last := fileCount - 1;
    assert TruncRemainder(last, fileCount) == last;
  }

  /** A hash of -1 gives queue -1. */
  lemma NegativeHashHasNoQueue(fileCount: nat)
    requires 1 < fileCount
    ensures TruncRemainder(-1, fileCount) == -1
  {
  }

  // ---------------------------------------------------------------- the requests clients send to a server

  /** The greatest common divisor. */
  function Gcd(a: nat, b: nat): (g: nat)
    requires a > 0
    ensures g > 0
    decreases b
  {
    if b == 0 then a else Gcd(b, a % b)
  }

  /** It divides both numbers and is a combination of them. */
  lemma {:induction false} Bezout(a: nat, b: nat) returns (u: int, v: int, a': nat, b': nat)
    requires a > 0
    ensures u * a + v * b == Gcd(a, b)
    ensures a == a' * Gcd(a, b) && b == b' * Gcd(a, b)
    decreases b
  {
    if b == 0 {
      u, v, a', b' := 1, 0, 1, 0;
    } else {
      var g, q := Gcd(b, a % b), a / b;
      var x, y, b1, r := Bezout(b, a % b);
      u, v, b' := y, x - y * q, b1;
      a' := q * b1 + r;
      assert a == q * b + a % b;
      BezoutStep(a, b, q, a % b, x, y, b1, r, g);
    }
  }

  lemma BezoutStep(a: nat, b: nat, q: nat, rem: nat, x: int, y: int, b1: nat, r: nat, g: nat)
    requires a == q * b + rem && x * b + y * rem == g && b == b1 * g && rem == r * g
    ensures y * a + (x - y * q) * b == g
    ensures a == (q * b1 + r) * g
  {
    assert y * a == y * (q * b) + y * rem;
    assert (x - y * q) * b == x * b - y * (q * b) by {
      assert (y * q) * b == y * (q * b);
    }
    assert (q * b1 + r) * g == q * (b1 * g) + r * g by {
      assert (q * b1) * g == q * (b1 * g);
    }
  }

  /** Two remainders go together as those of one hash exactly if they agree modulo the common divisor. */
  lemma CommonHash(serverCount: nat, fileCount: nat, id: nat, file: nat) returns (hash: nat)
    requires id < serverCount && file < fileCount
    requires id % Gcd(serverCount, fileCount) == file % Gcd(serverCount, fileCount)
    ensures hash % serverCount == id && hash % fileCount == file
  {
    var g := Gcd(serverCount, fileCount);
    var u, v, s', f' := Bezout(serverCount, fileCount);
    var d := Difference(id, file, g);
    var k := Lift(u * d, fileCount);
    var q1, q2 := u * d + k * fileCount, k * serverCount - v * d;
    Combine(serverCount, fileCount, id, file, u, v, g, d, k);
    NotNegative(q1, serverCount);
    hash := q1 * serverCount + id;
    RemainderUnique(hash, serverCount, q1, id);
    RemainderUnique(hash, fileCount, q2, file);
  }

  lemma Difference(a: nat, b: nat, g: nat) returns (d: int)
    requires g > 0 && a % g == b % g
    ensures b == a + g * d
  {
    d := b / g - a / g;
    assert a == a / g * g + a % g && b == b / g * g + b % g;
    assert g * d == b / g * g - a / g * g;
  }

  lemma Lift(x: int, n: nat) returns (k: nat)
    requires n > 0
    ensures x + k * n >= 0
  {
    k := if x < 0 then -x else 0;
    assert k * n >= k;
  }

  lemma NotNegative(a: int, b: nat)
    requires a >= 0
    ensures a * b >= 0
  {
  }

  lemma Combine(s: nat, f: nat, id: nat, file: nat, u: int, v: int, g: nat, d: int, k: nat)
    requires u * s + v * f == g && file == id + g * d
    ensures (u * d + k * f) * s + id == (k * s - v * d) * f + file
  {
    assert (u * d + k * f) * s == d * (u * s) + k * f * s by {
      assert (u * d) * s == d * (u * s);
    }
    assert (k * s - v * d) * f == k * s * f - d * (v * f) by {
      assert (v * d) * f == d * (v * f);
    }
    assert k * f * s == k * s * f;
    assert d * (u * s) + d * (v * f) == d * g;
  }

  /** Remainders of one hash agree modulo the common divisor. */
  lemma SameClass(serverCount: nat, fileCount: nat, hash: nat)
    requires 0 < serverCount && 0 < fileCount
    ensures var g := Gcd(serverCount, fileCount); hash % serverCount % g == hash % fileCount % g
  {
    var g := Gcd(serverCount, fileCount);
    var u, v, s', f' := Bezout(serverCount, fileCount);
    ReduceTwice(hash, serverCount, s', g);
    ReduceTwice(hash, fileCount, f', g);
  }

  lemma ReduceTwice(h: nat, n: nat, n': nat, g: nat)
    requires g > 0 && n > 0 && n == n' * g
    ensures h % n % g == h % g
  {
    var q, r := h / n, h % n;
    var q', r' := r / g, r % g;
    assert h == q * n + r && r == q' * g + r';
    assert q * n == (q * n') * g;
    assert h == (q * n' + q') * g + r' by {
      assert (q * n' + q') * g == (q * n') * g + q' * g;
    }
    RemainderUnique(h, g, q * n' + q', r');
  }

  /** All requests clients send to the server have a queue there. */
  ghost predicate RoutedHaveQueues(id: nat, fileCount: nat, serverCount: nat)
    requires id < serverCount && 0 < fileCount
  {
    forall hash: nat :: hash % serverCount == id ==>
      TruncRemainder(hash, fileCount) < Count(id, fileCount, serverCount)
  }

  /**
   * Clients send a request to the server its hash names modulo the number of
   * servers.  All those requests have a queue there exactly if the server keeps
   * that many files that the last file number agreeing with its own number
   * modulo the common divisor is below.
   */
  lemma RoutedRequestsHaveQueues(id: nat, fileCount: nat, serverCount: nat)
    requires id < serverCount && 0 < fileCount
    ensures RoutedHaveQueues(id, fileCount, serverCount)
       <==> fileCount - Gcd(serverCount, fileCount) + id % Gcd(serverCount, fileCount)
            < Count(id, fileCount, serverCount)
  {
    hide Count, Gcd;
    var g := Gcd(serverCount, fileCount);
    var last := LastOfClass(id, fileCount, serverCount);
    if RoutedHaveQueues(id, fileCount, serverCount) {
      var hash := CommonHash(serverCount, fileCount, id, last);
      assert TruncRemainder(hash, fileCount) == last;
    }
    if last < Count(id, fileCount, serverCount) {
      forall hash: nat | hash % serverCount == id
        ensures TruncRemainder(hash, fileCount) < Count(id, fileCount, serverCount)
      {
        SameClass(serverCount, fileCount, hash);
        LastIsLargest(hash % fileCount, id, fileCount, serverCount);
      }
    }
  }

  /** The last file number that agrees with `id` modulo the common divisor. */
  lemma LastOfClass(id: nat, fileCount: nat, serverCount: nat) returns (last: nat)
    requires id < serverCount && 0 < fileCount
    ensures var g := Gcd(serverCount, fileCount);
            last == fileCount - g + id % g && last < fileCount && last % g == id % g
  {
    var g := Gcd(serverCount, fileCount);
    var u, v, s', f' := Bezout(serverCount, fileCount);
    assert f' >= 1;
    assert (f' - 1) * g == fileCount - g;
    NotNegative(f' - 1, g);
    last := (f' - 1) * g + id % g;
    RemainderUnique(last, g, f' - 1, id % g);
  }

  lemma LastIsLargest(x: nat, id: nat, fileCount: nat, serverCount: nat)
    requires id < serverCount && x < fileCount
    requires x % Gcd(serverCount, fileCount) == id % Gcd(serverCount, fileCount)
    ensures var g := Gcd(serverCount, fileCount); x <= fileCount - g + id % g
  {
    var g := Gcd(serverCount, fileCount);
    var u, v, s', f' := Bezout(serverCount, fileCount);
    var q := x / g;
    assert x == q * g + x % g;
    if q >= f' {
      Product(f', q, g);
    }
    Product(q, f' - 1, g);
    assert (f' - 1) * g == fileCount - g;
  }
}
