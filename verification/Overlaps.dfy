// db/version_set.cpp: which files of a level overlap a range of user keys.
module Overlaps {
  import opened Options
  import opened Ordering
  import opened Entries
  import opened ByteStrings
  import opened Compaction
  import opened InternalKeys

  // A range of user keys; None is unbounded.
  datatype Range<+K> = Range(begin: Option<K>, end: Option<K>)

  // f is not completely before or completely after r.
  predicate Overlaps<K>(c: Comparator<K>, f: FileRange<K>, r: Range<K>) {
    && (r.begin.Some? ==> Le(c, r.begin.value, f.largest))
    && (r.end.Some? ==> Le(c, f.smallest, r.end.value))
  }

  predicate Within<K>(c: Comparator<K>, f: FileRange<K>, r: Range<K>) {
    && (r.begin.Some? ==> Le(c, r.begin.value, f.smallest))
    && (r.end.Some? ==> Le(c, f.largest, r.end.value))
  }

  // outer contains inner.
  predicate Encloses<K>(c: Comparator<K>, outer: Range<K>, inner: Range<K>) {
    && (outer.begin.Some? ==> inner.begin.Some? && Le(c, outer.begin.value, inner.begin.value))
    && (outer.end.Some? ==> inner.end.Some? && Le(c, inner.end.value, outer.end.value))
  }

  // No file that overlaps r reaches beyond it.
  ghost predicate Closed<K>(c: Comparator<K>, files: seq<FileRange<K>>, r: Range<K>) {
    forall f :: f in files && Overlaps(c, f, r) ==> Within(c, f, r)
  }

  // r contains the request, and lies in every range that does and that its files stay within.
  ghost predicate Needed<K(!new)>(c: Comparator<K>, files: seq<FileRange<K>>, request: Range<K>, r: Range<K>) {
    && Encloses(c, r, request)
    && forall s :: Encloses(c, s, request) && Closed(c, files, s) ==> Encloses(c, s, r)
  }

  // r is the least range that contains the request and every file overlapping it.
  ghost predicate IsClosure<K(!new)>(c: Comparator<K>, files: seq<FileRange<K>>, request: Range<K>, r: Range<K>) {
    Needed(c, files, request, r) && Closed(c, files, r)
  }

  function Overlapping<K>(c: Comparator<K>, files: seq<FileRange<K>>, r: Range<K>): seq<FileRange<K>> {
    if |files| == 0 then []
    else
      var last := files[|files| - 1];
      Overlapping(c, files[..|files| - 1], r) + if Overlaps(c, last, r) then [last] else []
  }

  // On how many sides f reaches beyond r.
  function Sticks<K>(c: Comparator<K>, f: FileRange<K>, r: Range<K>): nat {
    (if r.begin.Some? && Lt(c, f.smallest, r.begin.value) then 1 else 0)
    + (if r.end.Some? && Lt(c, r.end.value, f.largest) then 1 else 0)
  }

  ghost function Beyond<K>(c: Comparator<K>, files: seq<FileRange<K>>, r: Range<K>): nat {
    if |files| == 0 then 0 else Beyond(c, files[..|files| - 1], r) + Sticks(c, files[|files| - 1], r)
  }

  lemma SticksLess<K(!new)>(c: Comparator<K>, g: FileRange<K>, r: Range<K>, s: Range<K>)
    requires TotalOrder(c) && Encloses(c, s, r) && r.begin.Some? == s.begin.Some? && r.end.Some? == s.end.Some?
    ensures Sticks(c, g, s) <= Sticks(c, g, r)
  {
    if s.begin.Some? {
      assert Compare(c, s.begin.value, r.begin.value) == 0 <==> s.begin.value == r.begin.value;
    }
    if s.end.Some? {
      assert Compare(c, r.end.value, s.end.value) == 0 <==> r.end.value == s.end.value;
    }
  }

  lemma {:induction false} BeyondLess<K(!new)>(c: Comparator<K>, files: seq<FileRange<K>>, r: Range<K>, s: Range<K>, f: FileRange<K>)
    requires TotalOrder(c) && Encloses(c, s, r) && r.begin.Some? == s.begin.Some? && r.end.Some? == s.end.Some?
    requires Sticks(c, f, s) < Sticks(c, f, r)
    ensures Beyond(c, files, s) <= Beyond(c, files, r)
    ensures f in files ==> Beyond(c, files, s) < Beyond(c, files, r)
  {
    hide Sticks, Encloses;
    if |files| > 0 {
      BeyondLess(c, files[..|files| - 1], r, s, f);
      SticksLess(c, files[|files| - 1], r, s);
    }
  }

  // A file that overlaps the range reached so far and sticks out of it belongs to every closed
  // range around the request; widening to take it in keeps the range inside all of those.
  lemma Widened<K(!new)>(c: Comparator<K>, files: seq<FileRange<K>>, request: Range<K>, r: Range<K>, s: Range<K>, f: FileRange<K>)
    requires TotalOrder(c) && f in files && Overlaps(c, f, r) && Needed(c, files, request, r)
    requires || (r.begin.Some? && Lt(c, f.smallest, r.begin.value) && s == r.(begin := Some(f.smallest)))
             || (r.end.Some? && Lt(c, r.end.value, f.largest) && s == r.(end := Some(f.largest)))
    ensures Needed(c, files, request, s)
    ensures Beyond(c, files, s) < Beyond(c, files, r)
  {
    assert Le(c, f.smallest, f.smallest) by { assert Compare(c, f.smallest, f.smallest) == 0; }
    EnclosesTransitive(c, s, r, request);
    forall t | Encloses(c, t, request) && Closed(c, files, t) ensures Encloses(c, t, s) {
      OverlapsWider(c, f, r, t);
      assert Within(c, f, t);
    }
    StickOnce(c, f, r, s);
    BeyondLess(c, files, r, s, f);
  }

  lemma StickOnce<K(!new)>(c: Comparator<K>, f: FileRange<K>, r: Range<K>, s: Range<K>)
    requires TotalOrder(c)
    requires || (r.begin.Some? && Lt(c, f.smallest, r.begin.value) && s == r.(begin := Some(f.smallest)))
             || (r.end.Some? && Lt(c, r.end.value, f.largest) && s == r.(end := Some(f.largest)))
    ensures Sticks(c, f, s) < Sticks(c, f, r)
  {
    assert Compare(c, f.smallest, f.smallest) == 0 && Compare(c, f.largest, f.largest) == 0;
  }

  lemma EnclosesTransitive<K(!new)>(c: Comparator<K>, s: Range<K>, r: Range<K>, q: Range<K>)
    requires TotalOrder(c) && Encloses(c, r, q)
    requires s.begin.Some? == r.begin.Some? && s.end.Some? == r.end.Some?
    requires s.begin == r.begin || Le(c, s.begin.value, r.begin.value)
    requires s.end == r.end || Le(c, r.end.value, s.end.value)
    ensures Encloses(c, s, q) && Encloses(c, s, r)
  {
  }

  lemma OverlapsWider<K(!new)>(c: Comparator<K>, f: FileRange<K>, r: Range<K>, t: Range<K>)
    requires TotalOrder(c) && Overlaps(c, f, r) && Encloses(c, t, r)
    ensures Overlaps(c, f, t)
  {
  }

  // Version::GetOverlappingInputs: the files of a level that overlap the request or, in level 0,
  // the least range that also takes in every file it overlaps.
  method GetOverlappingInputs<K(!new)>(c: Comparator<K>, level: nat, files: seq<FileRange<K>>, request: Range<K>)
    returns (inputs: seq<FileRange<K>>, ghost reached: Range<K>)
    requires TotalOrder(c)
    ensures inputs == Overlapping(c, files, reached)
    ensures if level == 0 then IsClosure(c, files, request, reached) else reached == request
  {
    var userBegin, userEnd := request.begin, request.end;
    inputs := [];
    reached := request;
    EnclosesItself(c, files, request);
    StartOver(c, files, request);
    hide Needed, TotalOrder, Beyond, Overlapping, Overlaps, Within, Closed, ClosedUpTo, Compare;
    var i := 0;
    while i < |files|
      invariant i <= |files| && reached == Range(userBegin, userEnd)
      invariant inputs == Overlapping(c, files[..i], reached)
      invariant level > 0 ==> reached == request
      invariant level == 0 ==> ClosedUpTo(c, files, i, reached)
      invariant Needed(c, files, request, reached)
      decreases Beyond(c, files, reached), |files| - i
    {
      var f := files[i];
      BeforeAfter(c, f, reached);
      NextFile(c, files, i, reached);
      i := i + 1;
      if userBegin.Some? && Lt(c, f.largest, userBegin.value) {
        // completely before the range
      } else if userEnd.Some? && Compare(c, f.smallest, userEnd.value) > 0 {
        // completely after the range
      } else {
        inputs := inputs + [f];
        if level == 0 {
          if userBegin.Some? && Lt(c, f.smallest, userBegin.value) {
            Widened(c, files, request, reached, reached.(begin := Some(f.smallest)), f);
            userBegin := Some(f.smallest);
            reached := reached.(begin := userBegin);
            StartOver(c, files, reached);
            inputs := [];
            i := 0;
          } else if userEnd.Some? && Compare(c, f.largest, userEnd.value) > 0 {
            Widened(c, files, request, reached, reached.(end := Some(f.largest)), f);
            userEnd := Some(f.largest);
            reached := reached.(end := userEnd);
            StartOver(c, files, reached);
            inputs := [];
            i := 0;
          }
        }
      }
    }
    assert files[..|files|] == files;
    AllClosed(c, files, reached);
  }

  lemma StartOver<K>(c: Comparator<K>, files: seq<FileRange<K>>, r: Range<K>)
    ensures Overlapping(c, files[..0], r) == [] && ClosedUpTo(c, files, 0, r)
  {
  }

  lemma NextFile<K>(c: Comparator<K>, files: seq<FileRange<K>>, i: nat, r: Range<K>)
    requires i < |files|
    ensures Overlapping(c, files[..i + 1], r)
         == Overlapping(c, files[..i], r) + if Overlaps(c, files[i], r) then [files[i]] else []
    ensures ClosedUpTo(c, files, i, r) && (Overlaps(c, files[i], r) ==> Within(c, files[i], r)) ==> ClosedUpTo(c, files, i + 1, r)
  {
    assert files[..i + 1][..i] == files[..i];
  }

  lemma AllClosed<K>(c: Comparator<K>, files: seq<FileRange<K>>, r: Range<K>)
    ensures ClosedUpTo(c, files, |files|, r) <==> Closed(c, files, r)
  {
  }

  // The first n files that overlap r stay within it.
  ghost predicate ClosedUpTo<K>(c: Comparator<K>, files: seq<FileRange<K>>, n: nat, r: Range<K>)
    requires n <= |files|
  {
    forall i :: 0 <= i < n && Overlaps(c, files[i], r) ==> Within(c, files[i], r)
  }

  lemma EnclosesItself<K(!new)>(c: Comparator<K>, files: seq<FileRange<K>>, r: Range<K>)
    requires TotalOrder(c)
    ensures Needed(c, files, r, r)
  {
    if r.begin.Some? {
      assert Compare(c, r.begin.value, r.begin.value) == 0;
    }
    if r.end.Some? {
      assert Compare(c, r.end.value, r.end.value) == 0;
    }
  }

  // The tests of the loop are Overlaps and Within, comparing the other way round.
  lemma BeforeAfter<K(!new)>(c: Comparator<K>, f: FileRange<K>, r: Range<K>)
    requires TotalOrder(c)
    ensures Overlaps(c, f, r) <==> !(|| (r.begin.Some? && Lt(c, f.largest, r.begin.value))
                                     || (r.end.Some? && Compare(c, f.smallest, r.end.value) > 0))
    ensures Within(c, f, r) <==> !(|| (r.begin.Some? && Lt(c, f.smallest, r.begin.value))
                                   || (r.end.Some? && Compare(c, f.largest, r.end.value) > 0))
    ensures r.end.Some? && Compare(c, f.largest, r.end.value) > 0 ==> Lt(c, r.end.value, f.largest)
  {
    if r.begin.Some? {
      assert Compare(c, f.largest, r.begin.value) < 0 <==> Compare(c, r.begin.value, f.largest) > 0;
      assert Compare(c, f.smallest, r.begin.value) < 0 <==> Compare(c, r.begin.value, f.smallest) > 0;
    }
    if r.end.Some? {
      assert Compare(c, r.end.value, f.largest) < 0 <==> Compare(c, f.largest, r.end.value) > 0;
    }
  }

  // Every file left out is disjoint from the range reached, and every file taken overlaps it.
  lemma {:induction false} OverlappingMembers<K>(c: Comparator<K>, files: seq<FileRange<K>>, r: Range<K>, f: FileRange<K>)
    ensures f in Overlapping(c, files, r) <==> f in files && Overlaps(c, f, r)
  {
    if |files| > 0 {
      OverlappingMembers(c, files[..|files| - 1], r, f);
    }
  }

  // FindFile: the first file whose largest key is not below the target, by binary search.
  method FindFile<K(!new)>(c: Comparator<K>, files: seq<FileRange<K>>, key: K) returns (right: nat)
    requires TotalOrder(c) && forall i, j :: 0 <= i < j < |files| ==> Le(c, files[i].largest, files[j].largest)
    ensures right <= |files|
    ensures forall i :: 0 <= i < right ==> Lt(c, files[i].largest, key)
    ensures forall i :: right <= i < |files| ==> !Lt(c, files[i].largest, key)
  {
    var left := 0;
    right := |files|;
    while left < right
      invariant left <= right <= |files|
      invariant forall i :: 0 <= i < left ==> Lt(c, files[i].largest, key)
      invariant forall i :: right <= i < |files| ==> !Lt(c, files[i].largest, key)
    {
      var mid := (left + right) / 2;
      if Compare(c, files[mid].largest, key) < 0 {
        forall i | 0 <= i <= mid ensures Lt(c, files[i].largest, key) {
          assert i < mid ==> Le(c, files[i].largest, files[mid].largest);
          assert Compare(c, files[i].largest, files[mid].largest) == 0 <==> files[i].largest == files[mid].largest;
        }
        left := mid + 1;
      } else {
        forall i | mid <= i < |files| ensures !Lt(c, files[i].largest, key) {
          assert i > mid ==> Le(c, files[mid].largest, files[i].largest);
          assert Compare(c, files[mid].largest, files[i].largest) == 0 <==> files[mid].largest == files[i].largest;
        }
        right := mid;
      }
    }
  }

  // The user keys of a file whose bounds are internal keys.
  function UserRange(f: FileRange<Bytes>): FileRange<Bytes> {
    FileRange(UserKey(f.smallest), UserKey(f.largest))
  }

  ghost predicate BoundsOk(c: Comparator<Bytes>, f: FileRange<Bytes>) {
    && |f.smallest| >= 8 && |f.largest| >= 8 && Tag(f.largest) <= Pack(MAX_SEQUENCE, TYPE_VALUE)
    && InternalCompare(c, f.smallest, f.largest) <= 0
  }

  ghost predicate DisjointSorted(c: Comparator<Bytes>, files: seq<FileRange<Bytes>>) {
    forall i, j :: 0 <= i < j < |files| ==> InternalCompare(c, files[i].largest, files[j].smallest) < 0
  }

  lemma SortedBounds(c: Comparator<Bytes>, files: seq<FileRange<Bytes>>, i: nat, j: nat)
    requires TotalOrder(c) && i < j < |files| && DisjointSorted(c, files) && BoundsOk(c, files[i]) && BoundsOk(c, files[j])
    ensures InternalCompare(c, files[i].largest, files[j].largest) < 0
    ensures Le(c, UserKey(files[i].smallest), UserKey(files[j].smallest))
  {
    hide BytewiseCompare;
    var a, b := files[i], files[j];
    assert InternalCompare(c, a.largest, b.smallest) < 0;
    assert Compare(c, UserKey(a.smallest), UserKey(a.largest)) == 0 <==> UserKey(a.smallest) == UserKey(a.largest);
    assert Compare(c, UserKey(a.largest), UserKey(b.smallest)) == 0 <==> UserKey(a.largest) == UserKey(b.smallest);
    assert Compare(c, UserKey(b.smallest), UserKey(b.largest)) == 0 <==> UserKey(b.smallest) == UserKey(b.largest);
  }

  // A file is before the earliest internal key of a user key just when its largest user key is.
  lemma BeforeUserKey(c: Comparator<Bytes>, f: FileRange<Bytes>, u: Bytes)
    requires TotalOrder(c) && BoundsOk(c, f)
    ensures InternalCompare(c, f.largest, LookupKey(u, MAX_SEQUENCE)) < 0 <==> !Le(c, u, UserKey(f.largest))
  {
    Parts(u, Pack(MAX_SEQUENCE, TYPE_VALUE));
    assert Compare(c, UserKey(f.largest), u) < 0 <==> Compare(c, u, UserKey(f.largest)) > 0;
    assert Compare(c, u, UserKey(f.largest)) < 0 <==> Compare(c, UserKey(f.largest), u) > 0;
  }

  method SomeFileOverlapsRange(c: Comparator<Bytes>, disjointSortedFiles: bool, files: seq<FileRange<Bytes>>, r: Range<Bytes>)
    returns (some: bool)
    requires TotalOrder(c) && forall f :: f in files ==> BoundsOk(c, f)
    requires disjointSortedFiles ==> DisjointSorted(c, files)
    ensures some <==> exists i :: 0 <= i < |files| && Overlaps(c, UserRange(files[i]), r)
  {
    hide InternalCompare, Overlaps, TotalOrder, LookupKey, BoundsOk, Le;
    if !disjointSortedFiles {
      for i := 0 to |files|
        invariant forall j :: 0 <= j < i ==> !Overlaps(c, UserRange(files[j]), r)
      {
        BeforeAfterFile(c, files[i], r);
        if (r.begin.Some? && Compare(c, r.begin.value, UserKey(files[i].largest)) > 0)
           || (r.end.Some? && Compare(c, r.end.value, UserKey(files[i].smallest)) < 0) {
          // No overlap
        } else {
          return true;
        }
      }
      return false;
    }
    var index := 0;
    if r.begin.Some? {
      InternalIsTotal(c);
      LargestAscend(c, files);
      index := FindFile(InternalOrder(c), files, LookupKey(r.begin.value, MAX_SEQUENCE));
    }
    forall i: nat | i < |files| ensures i < index ==> !Overlaps(c, UserRange(files[i]), r)
                                ensures i >= index && r.begin.Some? ==> Le(c, r.begin.value, UserKey(files[i].largest))
    {
      if r.begin.Some? {
        BeforeUserKey(c, files[i], r.begin.value);
        EitherEnd(c, files[i], r);
      }
    }
    if index >= |files| {
      return false;
    }
    forall i: nat | index < i < |files| ensures Overlaps(c, UserRange(files[i]), r) ==> Overlaps(c, UserRange(files[index]), r) {
      SortedBounds(c, files, index, i);
      if Overlaps(c, UserRange(files[i]), r) {
        LaterFile(c, files[index], files[i], r);
      }
    }
    some := !(r.end.Some? && Compare(c, r.end.value, UserKey(files[index].smallest)) < 0);
    BeforeAfterFile(c, files[index], r);
    EitherEnd(c, files[index], r);
    NotAfter(c, files[index], r);
  }

  lemma LargestAscend(c: Comparator<Bytes>, files: seq<FileRange<Bytes>>)
    requires TotalOrder(c) && DisjointSorted(c, files) && forall f :: f in files ==> BoundsOk(c, f)
    ensures forall i, j :: 0 <= i < j < |files| ==> Le(InternalOrder(c), files[i].largest, files[j].largest)
  {
    forall i, j | 0 <= i < j < |files| ensures Le(InternalOrder(c), files[i].largest, files[j].largest) {
      SortedBounds(c, files, i, j);
    }
  }

  lemma EitherEnd(c: Comparator<Bytes>, f: FileRange<Bytes>, r: Range<Bytes>)
    ensures r.begin.Some? && !Le(c, r.begin.value, UserKey(f.largest)) ==> !Overlaps(c, UserRange(f), r)
  {
  }

  lemma NotAfter(c: Comparator<Bytes>, f: FileRange<Bytes>, r: Range<Bytes>)
    requires TotalOrder(c) && (r.begin.Some? ==> Le(c, r.begin.value, UserKey(f.largest)))
    ensures r.begin.Some? ==> !(Compare(c, r.begin.value, UserKey(f.largest)) > 0)
  {
  }

  // AfterFile and BeforeFile.
  lemma BeforeAfterFile(c: Comparator<Bytes>, f: FileRange<Bytes>, r: Range<Bytes>)
    requires TotalOrder(c)
    ensures Overlaps(c, UserRange(f), r)
       <==> !(|| (r.begin.Some? && Compare(c, r.begin.value, UserKey(f.largest)) > 0)
              || (r.end.Some? && Compare(c, r.end.value, UserKey(f.smallest)) < 0))
  {
    if r.end.Some? {
      assert Compare(c, r.end.value, UserKey(f.smallest)) < 0 <==> Compare(c, UserKey(f.smallest), r.end.value) > 0;
    }
  }

  lemma LaterFile(c: Comparator<Bytes>, f: FileRange<Bytes>, g: FileRange<Bytes>, r: Range<Bytes>)
    requires TotalOrder(c) && Le(c, UserKey(f.smallest), UserKey(g.smallest)) && Overlaps(c, UserRange(g), r)
    requires r.begin.Some? ==> Le(c, r.begin.value, UserKey(f.largest))
    ensures Overlaps(c, UserRange(f), r)
  {
    assert Compare(c, UserKey(f.smallest), UserKey(g.smallest)) == 0 <==> UserKey(f.smallest) == UserKey(g.smallest);
    if r.end.Some? {
      assert Compare(c, UserKey(g.smallest), r.end.value) == 0 <==> UserKey(g.smallest) == r.end.value;
    }
  }

  // ---- What overlapping means ----

  predicate InRange<K>(c: Comparator<K>, r: Range<K>, k: K) {
    (r.begin.Some? ==> Le(c, r.begin.value, k)) && (r.end.Some? ==> Le(c, k, r.end.value))
  }

  // A file and a range, neither of them empty, overlap just when some key lies in both.
  lemma OverlapIsCommonKey<K(!new)>(c: Comparator<K>, f: FileRange<K>, r: Range<K>)
    requires TotalOrder(c) && Compare(c, f.smallest, f.largest) <= 0
    requires r.begin.Some? && r.end.Some? ==> Compare(c, r.begin.value, r.end.value) <= 0
    ensures Overlaps(c, f, r)
       <==> exists k :: Compare(c, f.smallest, k) <= 0 && Compare(c, k, f.largest) <= 0 && InRange(c, r, k)
  {
    if Overlaps(c, f, r) {
      CommonKey(c, f, r);
    }
    forall k | Compare(c, f.smallest, k) <= 0 && Compare(c, k, f.largest) <= 0 && InRange(c, r, k) ensures Overlaps(c, f, r) {
      if r.begin.Some? {
        LeChain(c, r.begin.value, k, f.largest);
      }
      if r.end.Some? {
        LeChain(c, f.smallest, k, r.end.value);
      }
    }
  }

  lemma CommonKey<K(!new)>(c: Comparator<K>, f: FileRange<K>, r: Range<K>)
    requires TotalOrder(c) && Compare(c, f.smallest, f.largest) <= 0 && Overlaps(c, f, r)
    requires r.begin.Some? && r.end.Some? ==> Compare(c, r.begin.value, r.end.value) <= 0
    ensures exists k :: Compare(c, f.smallest, k) <= 0 && Compare(c, k, f.largest) <= 0 && InRange(c, r, k)
  {
    var k := if r.begin.Some? && Lt(c, f.smallest, r.begin.value) then r.begin.value else f.smallest;
    assert Compare(c, k, k) == 0;
    assert Compare(c, f.smallest, k) <= 0 && Compare(c, k, f.largest) <= 0;
    assert r.begin.Some? ==> Le(c, r.begin.value, k);
    assert InRange(c, r, k);
  }

  // ---- The closure is what a chain of overlapping files leads to ----

  // Two files have a key in common.
  predicate Meets<K>(c: Comparator<K>, f: FileRange<K>, g: FileRange<K>) {
    Compare(c, f.smallest, g.largest) <= 0 && Compare(c, g.smallest, f.largest) <= 0
  }

  // From a file that overlaps the request, each file of the chain meets the next.
  ghost predicate Chain<K>(c: Comparator<K>, files: seq<FileRange<K>>, request: Range<K>, path: seq<FileRange<K>>) {
    && |path| > 0 && Overlaps(c, path[0], request)
    && (forall i :: 0 <= i < |path| ==> path[i] in files)
    && (forall i :: 0 < i < |path| ==> Meets(c, path[i - 1], path[i]))
  }

  ghost predicate Reached<K(!new)>(c: Comparator<K>, files: seq<FileRange<K>>, request: Range<K>, f: FileRange<K>) {
    exists path :: Chain(c, files, request, path) && path[|path| - 1] == f
  }

  ghost predicate NoneEmpty<K>(c: Comparator<K>, files: seq<FileRange<K>>) {
    forall f :: f in files ==> Le(c, f.smallest, f.largest)
  }

  lemma ChainOn<K>(c: Comparator<K>, files: seq<FileRange<K>>, request: Range<K>, path: seq<FileRange<K>>, g: FileRange<K>)
    requires Chain(c, files, request, path) && Meets(c, path[|path| - 1], g) && g in files
    ensures Chain(c, files, request, path + [g])
  {
    hide Meets, Overlaps;
    var more := path + [g];
    forall i | 0 < i < |more| ensures Meets(c, more[i - 1], more[i]) {
      assert i < |path| ==> more[i - 1] == path[i - 1] && more[i] == path[i];
    }
  }

  lemma ChainBack<K>(c: Comparator<K>, files: seq<FileRange<K>>, request: Range<K>, path: seq<FileRange<K>>)
    requires Chain(c, files, request, path) && |path| > 1
    ensures Chain(c, files, request, path[..|path| - 1]) && Meets(c, path[|path| - 2], path[|path| - 1])
  {
    hide Meets, Overlaps;
  }

  // A file before the request, and not before where a chain has got to, is on the way there.
  lemma {:induction false} OnTheWayLeft<K(!new)>(c: Comparator<K>, files: seq<FileRange<K>>, request: Range<K>, path: seq<FileRange<K>>, g: FileRange<K>)
    requires TotalOrder(c) && Chain(c, files, request, path) && g in files && Le(c, g.smallest, g.largest)
    requires request.begin.Some? && Lt(c, g.largest, request.begin.value) && Le(c, path[|path| - 1].smallest, g.largest)
    ensures Reached(c, files, request, g)
    decreases |path|
  {
    var n := |path| - 1;
    if Meets(c, path[n], g) {
      ChainOn(c, files, request, path, g);
      assert (path + [g])[|path|] == g;
    } else {
      NotReaching(c, path[n], g);
      if n > 0 {
        ChainBack(c, files, request, path);
        LeChain(c, path[n - 1].smallest, path[n].largest, g.largest);
        OnTheWayLeft(c, files, request, path[..n], g);
      }
    }
  }

  lemma NotReaching<K(!new)>(c: Comparator<K>, f: FileRange<K>, g: FileRange<K>)
    requires TotalOrder(c) && Le(c, g.smallest, g.largest) && !Meets(c, f, g)
    ensures Le(c, f.smallest, g.largest) ==> Lt(c, f.largest, g.smallest) && Lt(c, f.largest, g.largest)
    ensures Le(c, g.smallest, f.largest) ==> Lt(c, g.largest, f.smallest) && Lt(c, g.smallest, f.smallest)
  {
    assert Compare(c, g.smallest, g.largest) == 0 <==> g.smallest == g.largest;
  }

  lemma {:induction false} OnTheWayRight<K(!new)>(c: Comparator<K>, files: seq<FileRange<K>>, request: Range<K>, path: seq<FileRange<K>>, g: FileRange<K>)
    requires TotalOrder(c) && Chain(c, files, request, path) && g in files && Le(c, g.smallest, g.largest)
    requires request.end.Some? && Lt(c, request.end.value, g.smallest) && Le(c, g.smallest, path[|path| - 1].largest)
    ensures Reached(c, files, request, g)
    decreases |path|
  {
    var n := |path| - 1;
    if Meets(c, path[n], g) {
      ChainOn(c, files, request, path, g);
      assert (path + [g])[|path|] == g;
    } else {
      NotReaching(c, path[n], g);
      if n > 0 {
        ChainBack(c, files, request, path);
        LeChain(c, g.smallest, path[n].smallest, path[n - 1].largest);
        OnTheWayRight(c, files, request, path[..n], g);
      }
    }
  }

  // The request, widened to the first n files that a chain leads to.
  ghost function Hull<K(!new)>(c: Comparator<K>, files: seq<FileRange<K>>, request: Range<K>, n: nat): Range<K>
    requires n <= |files|
  {
    if n == 0 then request
    else
      var s, f := Hull(c, files, request, n - 1), files[n - 1];
      if !Reached(c, files, request, f) then s
      else Range(if s.begin.Some? && Lt(c, f.smallest, s.begin.value) then Some(f.smallest) else s.begin,
                 if s.end.Some? && Lt(c, s.end.value, f.largest) then Some(f.largest) else s.end)
  }

  // Its ends are those of the request, or of files that a chain leads to.
  ghost predicate HullOk<K(!new)>(c: Comparator<K>, files: seq<FileRange<K>>, request: Range<K>, n: nat, s: Range<K>)
    requires n <= |files|
  {
    && Encloses(c, s, request) && s.begin.Some? == request.begin.Some? && s.end.Some? == request.end.Some?
    && (forall i :: 0 <= i < n && Reached(c, files, request, files[i]) ==> Within(c, files[i], s))
    && (s.begin == request.begin || exists f :: Reached(c, files, request, f) && s.begin == Some(f.smallest))
    && (s.end == request.end || exists f :: Reached(c, files, request, f) && s.end == Some(f.largest))
  }

  lemma EnclosesSelf<K(!new)>(c: Comparator<K>, r: Range<K>)
    requires TotalOrder(c)
    ensures Encloses(c, r, r)
  {
    assert r.begin.Some? ==> Compare(c, r.begin.value, r.begin.value) == 0;
    assert r.end.Some? ==> Compare(c, r.end.value, r.end.value) == 0;
  }

  lemma Widen<K(!new)>(c: Comparator<K>, s: Range<K>, f: FileRange<K>, t: Range<K>)
    requires TotalOrder(c)
    requires t == Range(if s.begin.Some? && Lt(c, f.smallest, s.begin.value) then Some(f.smallest) else s.begin,
                        if s.end.Some? && Lt(c, s.end.value, f.largest) then Some(f.largest) else s.end)
    ensures Within(c, f, t) && Encloses(c, t, s)
    ensures forall g :: Within(c, g, s) ==> Within(c, g, t)
    ensures forall q :: Encloses(c, s, q) && s.begin.Some? == q.begin.Some? && s.end.Some? == q.end.Some? ==> Encloses(c, t, q)
  {
    EnclosesSelf(c, s);
    assert Compare(c, f.smallest, f.smallest) == 0 && Compare(c, f.largest, f.largest) == 0;
    forall g | Within(c, g, s) ensures Within(c, g, t) {
      if s.begin.Some? {
        LeChain(c, t.begin.value, s.begin.value, g.smallest);
      }
      if s.end.Some? {
        LeChain(c, g.largest, s.end.value, t.end.value);
      }
    }
    forall q | Encloses(c, s, q) && s.begin.Some? == q.begin.Some? && s.end.Some? == q.end.Some? ensures Encloses(c, t, q) {
      EnclosesTransitive(c, t, s, q);
    }
  }

  lemma {:induction false} HullIs<K(!new)>(c: Comparator<K>, files: seq<FileRange<K>>, request: Range<K>, n: nat)
    requires TotalOrder(c) && n <= |files|
    ensures HullOk(c, files, request, n, Hull(c, files, request, n))
  {
    hide Reached, Within, Encloses;
    if n == 0 {
      EnclosesSelf(c, request);
    } else {
      HullIs(c, files, request, n - 1);
      var s, f := Hull(c, files, request, n - 1), files[n - 1];
      Widen(c, s, f, Range(if s.begin.Some? && Lt(c, f.smallest, s.begin.value) then Some(f.smallest) else s.begin,
                           if s.end.Some? && Lt(c, s.end.value, f.largest) then Some(f.largest) else s.end));
    }
  }

  // Whatever overlaps the hull is reached itself.
  lemma InHullIsReached<K(!new)>(c: Comparator<K>, files: seq<FileRange<K>>, request: Range<K>, s: Range<K>, g: FileRange<K>)
    requires TotalOrder(c) && NoneEmpty(c, files) && HullOk(c, files, request, |files|, s) && g in files && Overlaps(c, g, s)
    ensures Reached(c, files, request, g)
  {
    if Overlaps(c, g, request) {
      assert Chain(c, files, request, [g]) && [g][0] == g;
    } else if request.begin.Some? && !Le(c, request.begin.value, g.largest) {
      var h :| Reached(c, files, request, h) && s.begin == Some(h.smallest);
      var path :| Chain(c, files, request, path) && path[|path| - 1] == h;
      OnTheWayLeft(c, files, request, path, g);
    } else {
      var h :| Reached(c, files, request, h) && s.end == Some(h.largest);
      var path :| Chain(c, files, request, path) && path[|path| - 1] == h;
      OnTheWayRight(c, files, request, path, g);
    }
  }

  lemma {:induction false} ChainStaysInside<K(!new)>(c: Comparator<K>, files: seq<FileRange<K>>, request: Range<K>, r: Range<K>, path: seq<FileRange<K>>)
    requires TotalOrder(c) && IsClosure(c, files, request, r) && Chain(c, files, request, path)
    ensures Overlaps(c, path[|path| - 1], r)
    decreases |path|
  {
    var n := |path| - 1;
    if n == 0 {
      OverlapsWider(c, path[0], request, r);
    } else {
      ChainBack(c, files, request, path);
      ChainStaysInside(c, files, request, r, path[..n]);
      var f, g := path[n - 1], path[n];
      assert Within(c, f, r);
      if r.begin.Some? {
        LeChain(c, r.begin.value, f.smallest, g.largest);
      }
      if r.end.Some? {
        LeChain(c, g.smallest, f.largest, r.end.value);
      }
    }
  }

  // At level 0 the files returned are just those that a chain of overlapping files, beginning
  // with one that overlaps the request, leads to.
  lemma ClosureIsChains<K(!new)>(c: Comparator<K>, files: seq<FileRange<K>>, request: Range<K>, r: Range<K>, f: FileRange<K>)
    requires TotalOrder(c) && NoneEmpty(c, files) && IsClosure(c, files, request, r)
    ensures f in Overlapping(c, files, r) <==> f in files && Reached(c, files, request, f)
  {
    hide Encloses, Overlaps;
    OverlappingMembers(c, files, r, f);
    if f in files && Reached(c, files, request, f) {
      var path :| Chain(c, files, request, path) && path[|path| - 1] == f;
      ChainStaysInside(c, files, request, r, path);
    }
    if f in files && Overlaps(c, f, r) {
      var s := Hull(c, files, request, |files|);
      HullIs(c, files, request, |files|);
      forall g | g in files && Overlaps(c, g, s) ensures Within(c, g, s) {
        InHullIsReached(c, files, request, s, g);
      }
      assert Closed(c, files, s);
      OverlapsWider(c, f, r, s);
      InHullIsReached(c, files, request, s, f);
    }
  }
}
