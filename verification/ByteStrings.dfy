// util/comparator.cpp: the bytewise order of strings, and the short keys put between two of them.
module ByteStrings {
  import opened Coding
  import opened Ordering

  type Bytes = seq<byte>

  // How many leading bytes two strings share, counted from i on.
  function CommonPrefix(a: Bytes, b: Bytes, i: nat): (s: nat)
    requires i <= |a| && i <= |b| && a[..i] == b[..i]
    ensures i <= s <= |a| && s <= |b| && a[..s] == b[..s]
    ensures s < |a| && s < |b| ==> a[s] != b[s]
    decreases |a| - i
  {
    if i < |a| && i < |b| && a[i] == b[i] then
      assert a[..i + 1] == a[..i] + [a[i]] && b[..i + 1] == b[..i] + [b[i]];
      CommonPrefix(a, b, i + 1)
    else i
  }

  lemma {:induction false} CommonPrefixIs(a: Bytes, b: Bytes, d: nat, i: nat)
    requires i <= d <= |a| && d <= |b| && a[..d] == b[..d]
    requires d == |a| || d == |b| || a[d] != b[d]
    ensures a[..i] == b[..i] && CommonPrefix(a, b, i) == d
    decreases d - i
  {
    assert a[..i] == a[..d][..i] == b[..i];
    if i < d {
      assert a[i] == a[..d][i] == b[i];
      CommonPrefixIs(a, b, d, i + 1);
    }
  }

  // Slice::compare: the first differing byte decides, else the shorter string comes first.
  function BytewiseCompare(a: Bytes, b: Bytes): int {
    var d := CommonPrefix(a, b, 0);
    if d < |a| && d < |b| then a[d] as int - b[d] as int else |a| - |b|
  }

  const BYTEWISE: Comparator<Bytes> := (a, b) => BytewiseCompare(a, b)

  lemma BytewiseTransitive(a: Bytes, b: Bytes, c: Bytes)
    requires BytewiseCompare(a, b) < 0 && BytewiseCompare(b, c) < 0
    ensures BytewiseCompare(a, c) < 0
  {
    var d, e := CommonPrefix(a, b, 0), CommonPrefix(b, c, 0);
    var m := if d < e then d else e;
    assert a[..m] == b[..m] == c[..m] by {
      assert a[..m] == a[..d][..m] == b[..d][..m] && b[..m] == b[..e][..m] == c[..e][..m];
    }
    assert d < e ==> d < |c| && b[d] == b[..e][d] == c[..e][d];
    CommonPrefixIs(a, c, m, 0);
  }

  lemma BytewiseAntisymmetric(a: Bytes, b: Bytes)
    ensures BytewiseCompare(a, b) == -BytewiseCompare(b, a)
    ensures BytewiseCompare(a, b) == 0 <==> a == b
  {
    CommonPrefixIs(b, a, CommonPrefix(a, b, 0), 0);
    var d := CommonPrefix(a, b, 0);
    if BytewiseCompare(a, b) == 0 {
      assert a == a[..d] && b == b[..d];
    }
    if a == b {
      CommonPrefixIs(a, b, |a|, 0);
    }
  }

  lemma BytewiseIsTotal()
    ensures TotalOrder(BYTEWISE)
  {
    forall a, b ensures Compare(BYTEWISE, a, b) == -Compare(BYTEWISE, b, a) && (Compare(BYTEWISE, a, b) == 0 <==> a == b) {
      BytewiseAntisymmetric(a, b);
    }
    forall a, b, d | Compare(BYTEWISE, a, b) < 0 && Compare(BYTEWISE, b, d) < 0 ensures Compare(BYTEWISE, a, d) < 0 {
      BytewiseTransitive(a, b, d);
    }
  }

  // What Comparator::FindShortestSeparator owes: a string in [start, limit), when there is one.
  ghost predicate Separates(c: Comparator<Bytes>, start: Bytes, limit: Bytes, s: Bytes) {
    if Lt(c, start, limit) then Le(c, start, s) && Lt(c, s, limit) else s == start
  }

  // One past the first differing byte, if that is still below limit's.
  function ShortestSeparator(start: Bytes, limit: Bytes): Bytes {
    var d := CommonPrefix(start, limit, 0);
    if d < |start| && d < |limit| && start[d] < 0xff && start[d] + 1 < limit[d] then start[..d] + [start[d] + 1]
    else start
  }

  // One past the first byte that is not 0xff, if there is one.
  function ShortSuccessor(key: Bytes, i: nat): Bytes
    requires i <= |key|
    decreases |key| - i
  {
    if i == |key| then key
    else if key[i] != 0xff then key[..i] + [key[i] + 1]
    else ShortSuccessor(key, i + 1)
  }

  lemma ShortestSeparates(start: Bytes, limit: Bytes)
    ensures Separates(BYTEWISE, start, limit, ShortestSeparator(start, limit))
  {
    var d, s := CommonPrefix(start, limit, 0), ShortestSeparator(start, limit);
    BytewiseAntisymmetric(start, start);
    if s != start {
      CommonPrefixIs(start, s, d, 0);
      CommonPrefixIs(s, limit, d, 0);
    }
  }

  lemma {:induction false} ShortSuccessorFollows(key: Bytes, i: nat)
    requires i <= |key|
    ensures Le(BYTEWISE, key, ShortSuccessor(key, i))
    decreases |key| - i
  {
    if i == |key| {
      BytewiseAntisymmetric(key, key);
    } else if key[i] != 0xff {
      CommonPrefixIs(key, ShortSuccessor(key, i), i, 0);
    } else {
      ShortSuccessorFollows(key, i + 1);
    }
  }

  method FindShortestSeparator(start: Bytes, limit: Bytes) returns (s: Bytes)
    ensures s == ShortestSeparator(start, limit)
  {
    var minLength := if |start| < |limit| then |start| else |limit|;
    var diffIndex := 0;
    while diffIndex < minLength && start[diffIndex] == limit[diffIndex]
      invariant diffIndex <= minLength && start[..diffIndex] == limit[..diffIndex]
    {
      diffIndex := diffIndex + 1;
    }
    CommonPrefixIs(start, limit, diffIndex, 0);
    s := start;
    if diffIndex < minLength {
      var diffByte := start[diffIndex];
      if diffByte < 0xff && diffByte + 1 < limit[diffIndex] {
        s := start[..diffIndex] + [diffByte + 1];
      }
    }
  }

  method FindShortSuccessor(key: Bytes) returns (s: Bytes)
    ensures s == ShortSuccessor(key, 0)
  {
    for i := 0 to |key|
      invariant ShortSuccessor(key, 0) == ShortSuccessor(key, i)
    {
      if key[i] != 0xff {
        s := key[..i] + [key[i] + 1];
        return;
      }
    }
    s := key;
  }

  // ---- How short they are ----

  // Nothing in between is shorter than up to the first differing byte.
  lemma NoShorterSeparator(start: Bytes, limit: Bytes, d: nat, x: Bytes)
    requires d < |start| && d < |limit| && start[..d] == limit[..d] && start[d] < limit[d]
    requires Le(BYTEWISE, start, x) && Lt(BYTEWISE, x, limit)
    ensures d < |x|
  {
    var e := CommonPrefix(start, x, 0);
    if |x| <= d && e < |x| {
      assert x[e] != start[e] && limit[..d][e] == start[..d][e];
      assert x[..e] == start[..e] == start[..d][..e] == limit[..e];
      CommonPrefixIs(x, limit, e, 0);
    }
  }

  // When the first differing bytes leave room between them, the result is the bytes before them
  // and one byte more, and no string in the range is shorter; otherwise start stays.
  lemma SeparatorIsShortest(start: Bytes, limit: Bytes, d: nat)
    requires d <= |start| && d <= |limit| && start[..d] == limit[..d]
    requires d == |start| || d == |limit| || start[d] != limit[d]
    ensures var s := ShortestSeparator(start, limit);
      if d < |start| && d < |limit| && start[d] < limit[d] && start[d] + 1 != limit[d]
      then && s == start[..d] + [start[d] + 1]
           && forall x :: Le(BYTEWISE, start, x) && Lt(BYTEWISE, x, limit) ==> |s| <= |x|
      else s == start
  {
    CommonPrefixIs(start, limit, d, 0);
    if d < |start| && d < |limit| && start[d] < limit[d] {
      forall x | Le(BYTEWISE, start, x) && Lt(BYTEWISE, x, limit) ensures d < |x| {
        NoShorterSeparator(start, limit, d, x);
      }
    }
  }

  lemma NoShorterSuccessor(key: Bytes, i: nat, x: Bytes)
    requires i < |key| && (forall j :: 0 <= j < i ==> key[j] == 0xff) && Le(BYTEWISE, key, x)
    ensures i < |x|
  {
    var e := CommonPrefix(key, x, 0);
    assert e < |x| && e < |key| ==> x[e] != key[e];
  }

  // The result ends one past the first byte that is not 0xff, and no string that is not below the
  // key is shorter; a key of such bytes alone stays.
  lemma {:induction false} SuccessorIsShortest(key: Bytes, k: nat, i: nat)
    requires k <= i <= |key| && (forall j :: 0 <= j < i ==> key[j] == 0xff) && (i < |key| ==> key[i] != 0xff)
    ensures ShortSuccessor(key, k) == if i < |key| then key[..i] + [key[i] + 1] else key
    ensures i < |key| ==> forall x :: Le(BYTEWISE, key, x) ==> |ShortSuccessor(key, k)| <= |x|
    decreases i - k
  {
    if k < i {
      SuccessorIsShortest(key, k + 1, i);
    } else if i < |key| {
      forall x | Le(BYTEWISE, key, x) ensures i < |x| {
        NoShorterSuccessor(key, i, x);
      }
    }
  }
}
