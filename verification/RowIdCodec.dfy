/** Row ids as text: base 62 numbers joined by underscores. */
module RowIdCodec {

  const INT_MAX := 0x7fff_ffff
  const SEP := '_'

  predicate IsDigit(c: char) {
    '0' <= c <= '9' || 'a' <= c <= 'z' || 'A' <= c <= 'Z'
  }

  /** The table of rowidstr_to_int. */
  function DigitValue(c: char): nat
    requires IsDigit(c)
  {
    if c <= '9' then c as int - '0' as int
    else if c >= 'a' then 10 + c as int - 'a' as int
    else 36 + c as int - 'A' as int
  }

  /** The table of int_to_rowidstr: digits, small letters, capitals. */
  function Num(d: nat): char
    requires d < 62
  {
    if d < 10 then ('0' as int + d) as char
    else if d < 36 then ('a' as int + d - 10) as char
    else ('A' as int + d - 36) as char
  }

  lemma DigitRoundTrip(d: nat)
    requires d < 62
    ensures IsDigit(Num(d)) && DigitValue(Num(d)) == d
  {
  }

  // ---------------------------------------------------------------- numbers

  function Digits(n: nat): string {
    if n == 0 then "" else Digits(n / 62) + [Num(n % 62)]
  }

  function Print(n: nat): string {
    if n == 0 then "0" else Digits(n)
  }

  predicate AllDigits(s: string) {
    forall i :: 0 <= i < |s| ==> IsDigit(s[i])
  }

  function Value(s: string): nat
    requires AllDigits(s)
  {
    if s == "" then 0 else Value(s[..|s| - 1]) * 62 + DigitValue(s[|s| - 1])
  }

  lemma {:induction false} DigitsRoundTrip(n: nat)
    ensures AllDigits(Digits(n)) && Value(Digits(n)) == n
  {
    if n > 0 {
      DigitsRoundTrip(n / 62);
      DigitRoundTrip(n % 62);
      var s := Digits(n);
      assert s[..|s| - 1] == Digits(n / 62);
    }
  }

  /** Printing and parsing is the identity. */
  lemma PrintRoundTrip(n: nat)
    ensures AllDigits(Print(n)) && Value(Print(n)) == n
  {
    DigitsRoundTrip(n);
    if n == 0 {
      assert Value("0"[..0]) == 0;
    }
  }

  /** The higher digit comes first, and the digits are 0 to 9, a to z and A to Z. */
  lemma PrintTwoDigits(a: nat, b: nat)
    requires 0 < a < 62 && b < 62
    ensures Print(62 * a + b) == [Num(a), Num(b)]
    ensures Print(0) == "0" && Print(9) == "9" && Print(10) == "a" && Print(35) == "z"
    ensures Print(36) == "A" && Print(61) == "Z"
  {
    assert (62 * a + b) / 62 == a && (62 * a + b) % 62 == b;
    assert a / 62 == 0 && a % 62 == a;
    assert Digits(a) == Digits(0) + [Num(a)];
  }

  lemma {:induction false} PrefixValue(s: string, i: nat)
    requires AllDigits(s) && i <= |s|
    ensures AllDigits(s[..i]) && Value(s[..i]) <= Value(s)
  {
    if i < |s| {
      PrefixValue(s[..|s| - 1], i);
      assert s[..|s| - 1][..i] == s[..i];
    } else {
      assert s[..i] == s;
    }
  }

  /** A number below 62^k prints in at most k digits. */
  function Power62(k: nat): nat {
    if k == 0 then 1 else 62 * Power62(k - 1)
  }

  lemma {:induction false} DigitsLength(n: nat, k: nat)
    requires n < Power62(k)
    ensures |Digits(n)| <= k
  {
    if n > 0 {
      DigitsLength(n / 62, k - 1);
    }
  }

  lemma IntDigits(l: nat)
    requires l <= INT_MAX
    ensures |Digits(l)| <= 6
  {
    assert Power62(1) == 62 && Power62(2) == 3844 && Power62(3) == 238328 && Power62(4) == 14776336;
    assert Power62(5) == 916132832 && Power62(6) == 56800235584;
    DigitsLength(l, 6);
  }

  lemma DigitsStep(n: nat)
    requires n > 0
    ensures n - n / 62 * 62 == n % 62 && n / 62 < n
    ensures Digits(n) == Digits(n / 62) + [Num(n % 62)]
  {
  }

  lemma DigitsPrepend(n: nat, tail: string, all: string)
    requires n > 0 && Digits(n) + tail == all
    ensures 0 <= n - n / 62 * 62 < 62 && n / 62 < n && |Digits(n)| == |Digits(n / 62)| + 1
    ensures Digits(n / 62) + ([Num(n - n / 62 * 62)] + tail) == all
  {
    DigitsStep(n);
    hide Digits, Num;
    assert Digits(n / 62) + ([Num(n % 62)] + tail) == Digits(n / 62) + [Num(n % 62)] + tail;
  }

  lemma NoDigits()
    ensures Digits(0) == []
  {
  }

  /** int_to_rowidstr: digits written from the end of a 20-character buffer. */
  method IntToRowIdStr(l: nat) returns (s: string)
    requires l <= INT_MAX
    ensures s == Print(l)
  {
    if l == 0 { return "0"; }
    IntDigits(l);
    ghost var all := Digits(l);
    assert Print(l) == all;
    hide Digits, Num, Power62, Print;
    var rowid := new char[20];
    var i, n := 19, l;
    rowid[19] := '\0';
    while n > 0
      invariant |Digits(n)| <= i <= 19
      invariant Digits(n) + rowid[i..19] == all
      decreases n
    {
      ghost var tail := rowid[i..19];
      i := i - 1;
      var tmp := n / 62;
      DigitsPrepend(n, tail, all);
      var digit := n - tmp * 62;
      rowid[i] := Num(digit);
      assert rowid[i..19] == [Num(digit)] + tail;
      n := tmp;
    }
    NoDigits();
    s := rowid[i..19];
  }

  /** rowidstr_to_int: no step goes beyond an int if the result does not. */
  method RowIdStrToInt(s: string) returns (ret: nat)
    requires AllDigits(s) && Value(s) <= INT_MAX
    ensures ret == Value(s)
  {
    ret := 0;
    var i := 0;
    while i < |s|
      invariant 0 <= i <= |s| && AllDigits(s[..i]) && ret == Value(s[..i]) <= INT_MAX
    {
      assert s[..i + 1][..i] == s[..i];
      ret := ret * 62;
      ret := ret + DigitValue(s[i]);
      i := i + 1;
      PrefixValue(s, i);
    }
    assert s[..i] == s;
  }

  // ---------------------------------------------------------------- fields

  /** str.find("_", from); -1 stands for npos. */
  function Find(s: string, from: nat): (i: int)
    ensures i == -1 || from <= i < |s|
    decreases |s| - from
  {
    if from >= |s| then -1 else if s[from] == SEP then from else Find(s, from + 1)
  }

  lemma {:induction false} FindMeans(s: string, from: nat)
    ensures var i := Find(s, from);
            && (i >= 0 ==> s[i] == SEP && forall j :: from <= j < i ==> s[j] != SEP)
            && (i == -1 ==> forall j :: from <= j < |s| ==> s[j] != SEP)
    decreases |s| - from
  {
    if from < |s| && s[from] != SEP {
      FindMeans(s, from + 1);
    }
  }

  /** The fields between underscores. */
  function Split(s: string): (fs: seq<string>)
    ensures fs != []
    decreases |s|
  {
    var i := Find(s, 0);
    if i == -1 then [s] else [s[..i]] + Split(s[i + 1..])
  }

  lemma FindShift(s: string, from: nat, k: nat)
    requires k <= from <= |s|
    ensures Find(s, from) == if Find(s[k..], from - k) == -1 then -1 else Find(s[k..], from - k) + k
  {
    var i, j := Find(s, from), Find(s[k..], from - k);
    FindMeans(s, from);
    FindMeans(s[k..], from - k);
    if j >= 0 { assert s[j + k] == SEP; }
    if i >= 0 { assert s[k..][i - k] == SEP; }
  }

  function Count(s: string, c: char): nat {
    if s == "" then 0 else (if s[0] == c then 1 else 0) + Count(s[1..], c)
  }

  /** count_char */
  method CountChar(s: string, c: char) returns (re: nat)
    ensures re == Count(s, c)
  {
    re := 0;
    var i := 0;
    assert s[0..] == s;
    while i < |s|
      invariant 0 <= i <= |s| && re + Count(s[i..], c) == Count(s, c)
    {
      assert s[i..][1..] == s[i + 1..];
      if s[i] == c { re := re + 1; }
      i := i + 1;
    }
  }

  /** One field more than underscores. */
  lemma {:induction false} CountAtFind(s: string)
    ensures Count(s, SEP) == if Find(s, 0) == -1 then 0 else 1 + Count(s[Find(s, 0) + 1..], SEP)
  {
    if s != "" && s[0] != SEP {
      CountAtFind(s[1..]);
      FindShift(s, 1, 1);
      var i := Find(s[1..], 0);
      if i >= 0 { assert s[1..][i + 1..] == s[i + 2..]; }
    }
  }

  lemma {:induction false} SplitCount(s: string)
    ensures |Split(s)| == Count(s, SEP) + 1
    decreases |s|
  {
    CountAtFind(s);
    if Find(s, 0) >= 0 {
      SplitCount(s[Find(s, 0) + 1..]);
    }
  }

  lemma SplitHead(s: string)
    ensures Find(s, 0) == -1 ==> Split(s) == [s]
    ensures Find(s, 0) >= 0 ==> Split(s) == [s[..Find(s, 0)]] + Split(s[Find(s, 0) + 1..])
  {
  }

  /** The next field ends at the next underscore, or is the last. */
  lemma FieldStep(s: string, at: nat, i: nat)
    requires at <= |s| && i < |Split(s)| && Split(s)[i..] == Split(s[at..])
    ensures var to := Find(s, at);
            if i == |Split(s)| - 1 then to == -1 && Split(s)[i] == s[at..]
            else to >= at && Split(s)[i] == s[at..to] && Split(s)[i + 1..] == Split(s[to + 1..])
  {
    hide Split;
    var rest := s[at..];
    FindShift(s, at, at);
    SplitHead(rest);
    hide Find;
    var fs := Split(s)[i..];
    assert fs[0] == Split(s)[i] && fs[1..] == Split(s)[i + 1..];
    var cut := Find(rest, 0);
    if cut >= 0 {
      assert rest[..cut] == s[at..at + cut] && rest[cut + 1..] == s[at + cut + 1..];
    }
  }

  /** Where the field that starts at `at` ends. */
  function FieldEnd(s: string, at: nat): (to: nat)
    requires at <= |s|
    ensures at <= to <= |s|
  {
    if Find(s, at) == -1 then |s| else Find(s, at)
  }

  lemma FieldAt(s: string, at: nat, i: nat)
    requires at <= |s| && i < |Split(s)| && Split(s)[i..] == Split(s[at..])
    ensures Split(s)[i] == s[at..FieldEnd(s, at)]
  {
    FieldStep(s, at, i);
    hide Split, Find;
  }

  lemma NextField(s: string, at: nat, i: nat)
    requires at <= |s| && i < |Split(s)| - 1 && Split(s)[i..] == Split(s[at..])
    ensures at <= Find(s, at) < |s| && Split(s)[i + 1..] == Split(s[Find(s, at) + 1..])
  {
    FieldStep(s, at, i);
    hide Split, Find;
  }

  /** get_sub_str: field `idx`, counted from 1. */
  method GetSubStr(str: string, idx: nat) returns (r: string)
    requires 1 <= idx <= |Split(str)|
    ensures r == Split(str)[idx - 1]
  {
    hide Split, Find;
    assert str[0..] == str && Split(str)[0..] == Split(str);
    var to := Find(str, 0);
    if idx == 1 {
      FieldAt(str, 0, 0);
      return if to == -1 then str else str[..to];
    }
    var from, i := -1, 0;
    while i < idx - 1
      invariant 0 <= i <= idx - 1 && -1 <= from < |str|
      invariant Split(str)[i..] == Split(str[from + 1..])
    {
      NextField(str, from + 1, i);
      from := Find(str, from + 1);
      i := i + 1;
    }
    FieldAt(str, from + 1, i);
    to := Find(str, from + 1);
    if to == -1 { to := |str|; }
    r := str[from + 1..to];
  }

  // ---------------------------------------------------------------- row ids

  function MakeRowId(block: nat, row: nat): string {
    Print(block) + [SEP] + Print(row)
  }

  function MakeFileRowId(file: nat, block: nat, row: nat): string {
    Print(file) + [SEP] + Print(block) + [SEP] + Print(row)
  }

  /** rowidstr_to_int of field `idx`; the table has no entry for other characters. */
  function FieldValue(rowId: string, idx: nat): int {
    var fs := Split(rowId);
    if 1 <= idx <= |fs| && AllDigits(fs[idx - 1]) then Value(fs[idx - 1]) else -1
  }

  function RowIdToBlockId(rowId: string): int {
    if Count(rowId, SEP) == 2 then FieldValue(rowId, 2)
    else if Count(rowId, SEP) == 1 then FieldValue(rowId, 1)
    else -1
  }

  function RowIdToRowIdx(rowId: string): int {
    if Count(rowId, SEP) == 2 then FieldValue(rowId, 3)
    else if Count(rowId, SEP) == 1 then FieldValue(rowId, 2)
    else -1
  }

  /** All fields of a row id are numbers an int holds. */
  ghost predicate Parses(rowId: string) {
    forall i :: 0 <= i < |Split(rowId)| ==> AllDigits(Split(rowId)[i]) && Value(Split(rowId)[i]) <= INT_MAX
  }

  /** The number in field `idx`. */
  method FieldToInt(rowId: string, idx: nat) returns (n: int)
    requires Parses(rowId) && 1 <= idx <= |Split(rowId)|
    ensures n == FieldValue(rowId, idx)
  {
    hide Split;
    var field := GetSubStr(rowId, idx);
    n := RowIdStrToInt(field);
  }

  /** rowid_to_block_id: the second of three fields, the first of two. */
  method BlockIdOf(rowId: string) returns (id: int)
    requires Parses(rowId)
    ensures id == RowIdToBlockId(rowId)
  {
    hide Split, Count, Parses, FieldValue;
    SplitCount(rowId);
    var n := CountChar(rowId, SEP);
    if n == 2 {
      id := FieldToInt(rowId, 2);
    } else if n == 1 {
      id := FieldToInt(rowId, 1);
    } else {
      id := -1;
    }
  }

  /** rowid_to_row_idx: the last field. */
  method RowIdxOf(rowId: string) returns (idx: int)
    requires Parses(rowId)
    ensures idx == RowIdToRowIdx(rowId)
  {
    hide Split, Count, Parses, FieldValue;
    SplitCount(rowId);
    var n := CountChar(rowId, SEP);
    if n == 2 {
      idx := FieldToInt(rowId, 3);
    } else if n == 1 {
      idx := FieldToInt(rowId, 2);
    } else {
      idx := -1;
    }
  }

  lemma FindFirst(a: string, b: string)
    requires AllDigits(a)
    ensures Find(a, 0) == -1 && Find(a + [SEP] + b, 0) == |a|
  {
    var s := a + [SEP] + b;
    FindMeans(a, 0);
    FindMeans(s, 0);
    assert s[|a|] == SEP;
    forall j | 0 <= j < |a| ensures s[j] != SEP {
      assert s[j] == a[j] && IsDigit(a[j]);
    }
  }

  lemma SplitJoin(a: string, b: string)
    requires AllDigits(a)
    ensures Split(a) == [a] && Split(a + [SEP] + b) == [a] + Split(b)
  {
    FindFirst(a, b);
    var s := a + [SEP] + b;
    assert s[..|a|] == a && s[|a| + 1..] == b;
  }

  lemma SplitRowId(block: nat, row: nat)
    ensures Split(MakeRowId(block, row)) == [Print(block), Print(row)]
    ensures Count(MakeRowId(block, row), SEP) == 1
  {
    PrintRoundTrip(block);
    PrintRoundTrip(row);
    SplitJoin(Print(block), Print(row));
    SplitJoin(Print(row), "");
    SplitCount(MakeRowId(block, row));
  }

  lemma SplitFileRowId(file: nat, block: nat, row: nat)
    ensures Split(MakeFileRowId(file, block, row)) == [Print(file), Print(block), Print(row)]
    ensures Count(MakeFileRowId(file, block, row), SEP) == 2
  {
    hide Print, Split;
    PrintRoundTrip(file);
    SplitRowId(block, row);
    var f, b, r := Print(file), Print(block), Print(row);
    assert f + [SEP] + b + [SEP] + r == f + [SEP] + (b + [SEP] + r);
    SplitJoin(f, b + [SEP] + r);
    SplitCount(MakeFileRowId(file, block, row));
  }

  /** Row ids of both forms give back their block and row. */
  lemma RowIdRoundTrip(file: nat, block: nat, row: nat)
    ensures RowIdToBlockId(MakeRowId(block, row)) == block
    ensures RowIdToRowIdx(MakeRowId(block, row)) == row
    ensures RowIdToBlockId(MakeFileRowId(file, block, row)) == block
    ensures RowIdToRowIdx(MakeFileRowId(file, block, row)) == row
  {
    hide Print, Split, Count, MakeRowId, MakeFileRowId, Value;
    PrintRoundTrip(block);
    PrintRoundTrip(row);
    SplitRowId(block, row);
    SplitFileRowId(file, block, row);
  }
}

/** Which data files a server keeps. */
module FileTiling {

  /** The constructor's file count: files per server, rounded up. */
  method LocalFileCount(fileCount: nat, serverCount: nat) returns (n: nat)
    requires serverCount > 0
    ensures n == PerServer(fileCount, serverCount)
  {
    n := fileCount / serverCount;
    while n * serverCount < fileCount
      invariant n == fileCount / serverCount || (n == PerServer(fileCount, serverCount) && n * serverCount >= fileCount)
      decreases fileCount - n * serverCount
    {
      RoundUp(fileCount, serverCount);
      n := n + 1;
    }
  }

  function PerServer(fileCount: nat, serverCount: nat): nat
    requires serverCount > 0
  {
    fileCount / serverCount + if fileCount % serverCount == 0 then 0 else 1
  }

  /** Rounded up: the least count that covers all files. */
  lemma RoundUp(fileCount: nat, serverCount: nat)
    requires serverCount > 0
    ensures PerServer(fileCount, serverCount) * serverCount >= fileCount
    ensures fileCount / serverCount * serverCount < fileCount ==>
              PerServer(fileCount, serverCount) == fileCount / serverCount + 1
    ensures fileCount / serverCount * serverCount >= fileCount ==>
              PerServer(fileCount, serverCount) == fileCount / serverCount
  {
    var q, r := fileCount / serverCount, fileCount % serverCount;
    assert fileCount == q * serverCount + r;
  }

  /** The first file of a server. */
  function Low(id: nat, fileCount: nat, serverCount: nat): nat
    requires serverCount > 0
  {
    id * PerServer(fileCount, serverCount)
  }

  /** How many files it keeps; the last server takes what is left. */
  function Count(id: nat, fileCount: nat, serverCount: nat): int
    requires serverCount > 0
  {
    var n := PerServer(fileCount, serverCount);
    if id == serverCount - 1 then n - (n * serverCount - fileCount) else n
  }

  ghost predicate Keeps(id: nat, file: int, fileCount: nat, serverCount: nat)
    requires serverCount > 0
  {
    var low := Low(id, fileCount, serverCount);
    low <= file < low + Count(id, fileCount, serverCount)
  }

  ghost predicate Kept(file: nat, fileCount: nat, serverCount: nat)
    requires serverCount > 0
  {
    exists id: nat :: id < serverCount && Keeps(id, file, fileCount, serverCount)
  }

  /** Each file is kept by exactly one server, and nothing else is kept. */
  ghost predicate Tiles(fileCount: nat, serverCount: nat)
    requires serverCount > 0
  {
    && (forall id: nat, file: int :: id < serverCount && Keeps(id, file, fileCount, serverCount) ==>
          0 <= file < fileCount)
    && (forall file: nat :: file < fileCount ==> Kept(file, fileCount, serverCount))
    && (forall id: nat, jd: nat, file: int ::
          id < jd < serverCount && Keeps(id, file, fileCount, serverCount) ==> !Keeps(jd, file, fileCount, serverCount))
  }

  /** The ranges tile the files exactly if the servers before the last do not take too many. */
  lemma TilesExactly(fileCount: nat, serverCount: nat)
    requires serverCount > 0
    ensures Tiles(fileCount, serverCount) <==> (serverCount - 1) * PerServer(fileCount, serverCount) <= fileCount
  {
    var n := PerServer(fileCount, serverCount);
    RoundUp(fileCount, serverCount);
    if (serverCount - 1) * n <= fileCount {
      TilesWhenFit(fileCount, serverCount);
    } else {
      var id := serverCount - 2;
      assert (serverCount - 1) * n == id * n + n;
      assert Keeps(id, (serverCount - 1) * n - 1, fileCount, serverCount);
    }
  }

  lemma Product(a: nat, b: nat, n: nat)
    requires a <= b
    ensures a * n <= b * n
  {
  }

  lemma TilesWhenFit(fileCount: nat, serverCount: nat)
    requires serverCount > 0 && (serverCount - 1) * PerServer(fileCount, serverCount) <= fileCount
    ensures Tiles(fileCount, serverCount)
  {
    var n := PerServer(fileCount, serverCount);
    RoundUp(fileCount, serverCount);
    hide PerServer;
    var last := serverCount - 1;
    assert n * serverCount == last * n + n;
    forall id: nat, file: int | id < serverCount && Keeps(id, file, fileCount, serverCount)
      ensures 0 <= file < fileCount
    {
      KeepsBound(id, file, fileCount, serverCount);
    }
    forall file: nat | file < fileCount ensures Kept(file, fileCount, serverCount) {
      if file >= last * n {
        assert Keeps(last, file, fileCount, serverCount);
      } else {
        KeptBeforeLast(file, fileCount, serverCount);
      }
    }
    forall id: nat, jd: nat, file: int | id < jd < serverCount && Keeps(id, file, fileCount, serverCount)
      ensures !Keeps(jd, file, fileCount, serverCount)
    {
      KeepsBound(id, file, fileCount, serverCount);
      Product(id + 1, jd, n);
    }
  }

  lemma KeepsBound(id: nat, file: int, fileCount: nat, serverCount: nat)
    requires serverCount > 0 && (serverCount - 1) * PerServer(fileCount, serverCount) <= fileCount
    requires id < serverCount && Keeps(id, file, fileCount, serverCount)
    ensures 0 <= file < fileCount
    ensures id < serverCount - 1 ==> file < (id + 1) * PerServer(fileCount, serverCount)
  {
    var n, last := PerServer(fileCount, serverCount), serverCount - 1;
    assert n * serverCount == last * n + n;
    if id < last {
      Product(id + 1, last, n);
      assert (id + 1) * n == id * n + n;
    }
  }

  lemma KeptBeforeLast(file: nat, fileCount: nat, serverCount: nat)
    requires serverCount > 0 && file < (serverCount - 1) * PerServer(fileCount, serverCount)
    ensures Kept(file, fileCount, serverCount)
  {
    var n, last := PerServer(fileCount, serverCount), serverCount - 1;
    hide PerServer;
    var id := file / n;
    assert id * n <= file < id * n + n;
    if id >= last { Product(last, id, n); }
    assert Keeps(id, file, fileCount, serverCount);
  }
}
