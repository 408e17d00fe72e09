// db/version_set.cpp: VersionSet::Builder, one edit at a time and all edits at once.
module Versions {
  import opened Options
  import opened Coding
  import opened Ordering
  import opened ByteStrings
  import opened Entries
  import opened VersionEdits

  // BySmallestKey; c orders internal keys.
  predicate Before(c: Comparator<Bytes>, f: FileMeta, g: FileMeta) {
    var r := Compare(c, f.smallest, g.smallest);
    r < 0 || (r == 0 && f.number < g.number)
  }

  ghost predicate SortedFiles(c: Comparator<Bytes>, fs: seq<FileMeta>) {
    forall i, j :: 0 <= i < j < |fs| ==> Before(c, fs[i], fs[j])
  }

  // Builder::LevelState: added is a std::set ordered by BySmallestKey.
  datatype Level = Level(deleted: set<nat>, added: seq<FileMeta>)

  const NOTHING: Level := Level({}, [])

  // std::set::insert: files that neither come before the other are the same to it.
  function Insert(c: Comparator<Bytes>, fs: seq<FileMeta>, f: FileMeta): seq<FileMeta> {
    if |fs| == 0 then [f]
    else if Before(c, fs[0], f) then [fs[0]] + Insert(c, fs[1..], f)
    else if Before(c, f, fs[0]) then [f] + fs
    else fs
  }

  function DeletedAt(files: set<(nat, nat)>, l: nat): set<nat> {
    set d | d in files && d.0 == l :: d.1
  }

  function TakeNew(c: Comparator<Bytes>, s: Level, f: FileMeta): Level {
    Level(s.deleted - {f.number}, Insert(c, s.added, f))
  }

  // The first n new files of an edit, as level l takes them.
  function TakeNews(c: Comparator<Bytes>, s: Level, l: nat, news: seq<(nat, FileMeta)>, n: nat): Level
    requires n <= |news|
  {
    if n == 0 then s
    else
      var before := TakeNews(c, s, l, news, n - 1);
      if news[n - 1].0 == l then TakeNew(c, before, news[n - 1].1) else before
  }

  // What Builder::Apply does to level l.
  function Applied(c: Comparator<Bytes>, s: Level, l: nat, e: Edit): Level {
    TakeNews(c, Level(s.deleted + DeletedAt(e.deletedFiles, l), s.added), l, e.newFiles, |e.newFiles|)
  }

  // The files of a level of the new version: those of the base and the added ones, unless deleted.
  ghost function Live(base: set<FileMeta>, s: Level): set<FileMeta> {
    set f | f in base + SetOf(s.added) && f.number !in s.deleted
  }

  // The order tells any two of these files apart.
  ghost predicate Apart(c: Comparator<Bytes>, fs: seq<FileMeta>, gs: seq<FileMeta>) {
    forall i, j :: 0 <= i < |fs| && 0 <= j < |gs| ==> Before(c, fs[i], gs[j]) || Before(c, gs[j], fs[i])
  }

  // No file comes before an earlier one.
  ghost predicate Ordered(c: Comparator<Bytes>, fs: seq<FileMeta>) {
    forall i, j :: 0 <= i < j < |fs| ==> !Before(c, fs[j], fs[i])
  }

  function Undeleted(fs: seq<FileMeta>, deleted: set<nat>): seq<FileMeta> {
    if |fs| == 0 then [] else MaybeAddFile(Undeleted(fs[..|fs| - 1], deleted), fs[|fs| - 1], deleted)
  }

  // What SaveTo makes of a level: the base and added files not marked deleted, each as often as
  // it was there, in order.
  ghost predicate Saved(c: Comparator<Bytes>, files: seq<FileMeta>, s: Level, out: seq<FileMeta>) {
    Ordered(c, out) && multiset(out) == multiset(Undeleted(files, s.deleted)) + multiset(Undeleted(s.added, s.deleted))
  }

  lemma BeforeTransitive(c: Comparator<Bytes>, f: FileMeta, g: FileMeta, h: FileMeta)
    requires TotalOrder(c)
    ensures Before(c, f, g) && Before(c, g, h) ==> Before(c, f, h)
    ensures !(Before(c, f, g) && Before(c, g, f))
    ensures !Before(c, f, f)
    ensures f.number != g.number ==> Before(c, f, g) || Before(c, g, f)
  {
    assert Compare(c, f.smallest, g.smallest) == 0 <==> f.smallest == g.smallest;
    assert Compare(c, g.smallest, h.smallest) == 0 <==> g.smallest == h.smallest;
    assert Compare(c, f.smallest, g.smallest) < 0 <==> Compare(c, g.smallest, f.smallest) > 0;
    assert Compare(c, g.smallest, f.smallest) < 0 <==> Compare(c, f.smallest, g.smallest) > 0;
    assert Compare(c, f.smallest, f.smallest) == 0;
  }

  // Files in the same order with the same members are the same list.
  lemma {:induction false} SortedUnique(c: Comparator<Bytes>, a: seq<FileMeta>, b: seq<FileMeta>)
    requires TotalOrder(c) && SortedFiles(c, a) && SortedFiles(c, b) && SetOf(a) == SetOf(b)
    ensures a == b
    decreases |a|
  {
    assert |b| > 0 ==> b[0] in SetOf(b);
    if |a| == 0 {
      assert SetOf(a) == {};
    } else {
      assert a[0] in SetOf(a);
      var j :| 0 <= j < |b| && b[j] == a[0];
      var i :| 0 <= i < |a| && a[i] == b[0];
      BeforeTransitive(c, a[0], b[0], a[0]);
      assert i == 0 && j == 0;
      TailMembers(c, a);
      TailMembers(c, b);
      SortedUnique(c, a[1..], b[1..]);
    }
  }

  lemma TailMembers(c: Comparator<Bytes>, a: seq<FileMeta>)
    requires TotalOrder(c) && SortedFiles(c, a) && |a| > 0
    ensures SortedFiles(c, a[1..]) && SetOf(a[1..]) == SetOf(a) - {a[0]}
  {
    forall f | f in SetOf(a[1..]) ensures f != a[0] {
      var i :| 0 <= i < |a[1..]| && a[1..][i] == f;
      assert Before(c, a[0], a[i + 1]);
      BeforeTransitive(c, a[0], a[0], a[0]);
    }
    forall f | f in SetOf(a) - {a[0]} ensures f in a[1..] {
      var i :| 0 <= i < |a| && a[i] == f;
      assert a[1..][i - 1] == f;
    }
  }

  // A file that the order tells from all the others joins an ordered set.
  lemma {:induction false} InsertJoins(c: Comparator<Bytes>, fs: seq<FileMeta>, f: FileMeta)
    requires TotalOrder(c) && SortedFiles(c, fs) && forall g :: g in fs ==> Before(c, f, g) || Before(c, g, f)
    ensures SortedFiles(c, Insert(c, fs, f)) && SetOf(Insert(c, fs, f)) == SetOf(fs) + {f}
    decreases |fs|
  {
    hide Before, TotalOrder;
    if |fs| > 0 {
      BeforeTransitive(c, f, fs[0], f);
      var r := Insert(c, fs, f);
      if Before(c, fs[0], f) {
        InsertJoins(c, fs[1..], f);
        assert fs == [fs[0]] + fs[1..];
        var rest := Insert(c, fs[1..], f);
        forall i | 0 <= i < |rest| ensures Before(c, fs[0], rest[i]) {
          assert rest[i] in SetOf(rest);
          assert rest[i] != f ==> rest[i] in fs[1..];
        }
      } else {
        forall i | 0 <= i < |fs| ensures Before(c, f, fs[i]) {
          BeforeTransitive(c, f, fs[0], fs[i]);
        }
      }
    }
  }

  lemma {:induction false} InsertSorted(c: Comparator<Bytes>, fs: seq<FileMeta>, f: FileMeta)
    requires TotalOrder(c) && SortedFiles(c, fs)
    ensures SortedFiles(c, Insert(c, fs, f)) && forall g :: g in Insert(c, fs, f) ==> g in fs || g == f
    decreases |fs|
  {
    hide Before, TotalOrder;
    if |fs| > 0 {
      assert fs == [fs[0]] + fs[1..];
      if Before(c, fs[0], f) {
        InsertSorted(c, fs[1..], f);
        var rest := Insert(c, fs[1..], f);
        forall i | 0 <= i < |rest| ensures Before(c, fs[0], rest[i]) {
          assert rest[i] in rest;
          assert rest[i] != f ==> rest[i] in fs[1..];
        }
      } else if Before(c, f, fs[0]) {
        forall i | 0 <= i < |fs| ensures Before(c, f, fs[i]) {
          BeforeTransitive(c, f, fs[0], fs[i]);
        }
      }
    }
  }

  lemma {:induction false} NewsSorted(c: Comparator<Bytes>, s: Level, l: nat, news: seq<(nat, FileMeta)>, n: nat)
    requires TotalOrder(c) && SortedFiles(c, s.added) && n <= |news|
    ensures SortedFiles(c, TakeNews(c, s, l, news, n).added)
  {
    hide SortedFiles, TotalOrder, Insert;
    if n > 0 {
      NewsSorted(c, s, l, news, n - 1);
      InsertSorted(c, TakeNews(c, s, l, news, n - 1).added, news[n - 1].1);
    }
  }

  // The files the first n items add to level l.
  ghost function NewAt(news: seq<(nat, FileMeta)>, l: nat, n: nat): set<FileMeta>
    requires n <= |news|
  {
    set i | 0 <= i < n && news[i].0 == l :: news[i].1
  }

  ghost function Numbers(fs: set<FileMeta>): set<nat> {
    set f | f in fs :: f.number
  }

  // Level l gains no number it knows, and none twice.
  ghost predicate FreshNews(known: set<nat>, news: seq<(nat, FileMeta)>, l: nat) {
    && (forall i :: 0 <= i < |news| && news[i].0 == l ==> news[i].1.number !in known)
    && (forall i, j :: 0 <= i < j < |news| && news[i].0 == l && news[j].0 == l ==> news[i].1.number != news[j].1.number)
  }

  lemma NewAtNext(news: seq<(nat, FileMeta)>, l: nat, n: nat)
    requires n < |news|
    ensures NewAt(news, l, n + 1) == NewAt(news, l, n) + if news[n].0 == l then {news[n].1} else {}
  {
  }

  lemma {:induction false} NewsAdded(c: Comparator<Bytes>, s: Level, l: nat, news: seq<(nat, FileMeta)>, n: nat)
    requires TotalOrder(c) && SortedFiles(c, s.added) && n <= |news| && FreshNews(Numbers(SetOf(s.added)), news, l)
    ensures var t := TakeNews(c, s, l, news, n);
      && SortedFiles(c, t.added) && SetOf(t.added) == SetOf(s.added) + NewAt(news, l, n)
      && t.deleted == s.deleted - Numbers(NewAt(news, l, n))
  {
    hide Insert, SortedFiles, TotalOrder, Before;
    if n > 0 {
      NewsAdded(c, s, l, news, n - 1);
      NewAtNext(news, l, n - 1);
      var t := TakeNews(c, s, l, news, n - 1);
      if news[n - 1].0 == l {
        var f := news[n - 1].1;
        forall g | g in t.added ensures Before(c, f, g) || Before(c, g, f) {
          assert g in SetOf(t.added);
          assert g in SetOf(s.added) ==> g.number in Numbers(SetOf(s.added));
          BeforeTransitive(c, f, g, f);
        }
        InsertJoins(c, t.added, f);
        assert Numbers(NewAt(news, l, n)) == Numbers(NewAt(news, l, n - 1)) + {f.number};
      }
    }
  }

  // One edit, applied to what a builder holds, or to the version built from it: the same files.
  lemma ApplyCommutes(c: Comparator<Bytes>, base: set<FileMeta>, s: Level, l: nat, e: Edit)
    requires TotalOrder(c) && SortedFiles(c, s.added)
    requires FreshNews(Numbers(base + SetOf(s.added)), e.newFiles, l)
    ensures Live(base, Applied(c, s, l, e)) == Live(Live(base, s), Applied(c, NOTHING, l, e))
    ensures SortedFiles(c, Applied(c, s, l, e).added)
    ensures SetOf(Applied(c, s, l, e).added) == SetOf(s.added) + NewAt(e.newFiles, l, |e.newFiles|)
  {
    hide TakeNews, TotalOrder, SortedFiles, DeletedAt;
    var d, n := DeletedAt(e.deletedFiles, l), |e.newFiles|;
    assert Numbers(SetOf(s.added)) <= Numbers(base + SetOf(s.added));
    NewsAdded(c, Level(s.deleted + d, s.added), l, e.newFiles, n);
    assert SortedFiles(c, []) && SetOf<FileMeta>([]) == {} && Numbers({}) == {} by { NothingSorted(c); }
    NewsAdded(c, Level({} + d, []), l, e.newFiles, n);
    LiveAgrees(base, s, d, NewAt(e.newFiles, l, n), Applied(c, s, l, e), Applied(c, NOTHING, l, e));
  }

  lemma NothingSorted(c: Comparator<Bytes>)
    ensures SortedFiles(c, []) && SetOf<FileMeta>([]) == {} && Numbers({}) == {}
  {
  }

  lemma LiveAgrees(base: set<FileMeta>, s: Level, d: set<nat>, news: set<FileMeta>, batch: Level, single: Level)
    requires Numbers(base + SetOf(s.added)) !! Numbers(news)
    requires SetOf(batch.added) == SetOf(s.added) + news && batch.deleted == s.deleted + d - Numbers(news)
    requires SetOf(single.added) == news && single.deleted == d - Numbers(news)
    ensures Live(base, batch) == Live(Live(base, s), single)
  {
    forall f ensures f in Live(base, batch) <==> f in Live(Live(base, s), single) {
      assert f in news ==> f.number in Numbers(news);
      assert f in base + SetOf(s.added) ==> f.number in Numbers(base + SetOf(s.added));
    }
  }

  // What a builder holds for level l after the first n edits.
  function Batch(c: Comparator<Bytes>, l: nat, edits: seq<Edit>, n: nat): Level
    requires n <= |edits|
  {
    if n == 0 then NOTHING else Applied(c, Batch(c, l, edits, n - 1), l, edits[n - 1])
  }

  // Everything the first n edits add to level l.
  ghost function AddedBy(l: nat, edits: seq<Edit>, n: nat): set<FileMeta>
    requires n <= |edits|
  {
    if n == 0 then {} else AddedBy(l, edits, n - 1) + NewAt(edits[n - 1].newFiles, l, |edits[n - 1].newFiles|)
  }

  // No number is added to level l twice, or was there from the start.
  ghost predicate FreshNumbers(l: nat, base: seq<FileMeta>, edits: seq<Edit>) {
    forall n :: 0 <= n < |edits| ==> FreshNews(Numbers(SetOf(base) + AddedBy(l, edits, n)), edits[n].newFiles, l)
  }

  // v' is level l of the version a builder makes of v and one edit.
  ghost predicate Installs(c: Comparator<Bytes>, l: nat, v: seq<FileMeta>, e: Edit, v': seq<FileMeta>) {
    Saved(c, v, Applied(c, NOTHING, l, e), v')
  }

  lemma {:induction false} BatchFollows(c: Comparator<Bytes>, l: nat, edits: seq<Edit>, vs: seq<seq<FileMeta>>, n: nat)
    requires TotalOrder(c) && |vs| == |edits| + 1 && n <= |edits| && FreshNumbers(l, vs[0], edits)
    requires forall i :: 0 <= i < |edits| ==> Installs(c, l, vs[i], edits[i], vs[i + 1])
    ensures SetOf(vs[n]) == Live(SetOf(vs[0]), Batch(c, l, edits, n))
    ensures SortedFiles(c, Batch(c, l, edits, n).added) && SetOf(Batch(c, l, edits, n).added) == AddedBy(l, edits, n)
  {
    hide Applied, Live, SortedFiles, FreshNews, NewAt, TotalOrder, Saved;
    if n == 0 {
      NothingSorted(c);
      NothingChanges(SetOf(vs[0]));
    } else {
      BatchFollows(c, l, edits, vs, n - 1);
      assert Installs(c, l, vs[n - 1], edits[n - 1], vs[n]);
      SavedMembers(c, vs[n - 1], Applied(c, NOTHING, l, edits[n - 1]), vs[n]);
      ApplyCommutes(c, SetOf(vs[0]), Batch(c, l, edits, n - 1), l, edits[n - 1]);
    }
  }

  lemma NothingChanges(base: set<FileMeta>)
    ensures Live(base, NOTHING) == base
  {
  }

  // The numbers of what the builder holds after n edits are not those of the base.
  lemma {:induction false} AddedFresh(l: nat, base: seq<FileMeta>, edits: seq<Edit>, n: nat)
    requires n <= |edits| && FreshNumbers(l, base, edits)
    ensures Numbers(SetOf(base)) !! Numbers(AddedBy(l, edits, n))
  {
    hide FreshNews, NewAt, Numbers;
    if n > 0 {
      AddedFresh(l, base, edits, n - 1);
      var news, known := edits[n - 1].newFiles, SetOf(base) + AddedBy(l, edits, n - 1);
      NewApart(Numbers(known), news, l);
      NumbersUnion(SetOf(base), AddedBy(l, edits, n - 1));
      NumbersUnion(AddedBy(l, edits, n - 1), NewAt(news, l, |news|));
    } else {
      assert Numbers({}) == {} by { NoNumbers(); }
    }
  }

  lemma NumbersUnion(a: set<FileMeta>, b: set<FileMeta>)
    ensures Numbers(a + b) == Numbers(a) + Numbers(b)
  {
  }

  lemma NoNumbers()
    ensures Numbers({}) == {}
  {
  }

  // Every version of the history is in strict order.
  lemma {:induction false} HistorySorted(c: Comparator<Bytes>, l: nat, edits: seq<Edit>, vs: seq<seq<FileMeta>>, n: nat)
    requires TotalOrder(c) && |vs| == |edits| + 1 && n <= |edits| && FreshNumbers(l, vs[0], edits) && SortedFiles(c, vs[0])
    requires forall i :: 0 <= i < |edits| ==> Installs(c, l, vs[i], edits[i], vs[i + 1])
    ensures SortedFiles(c, vs[n])
  {
    hide Applied, Live, SortedFiles, FreshNews, NewAt, TotalOrder, Saved, Batch, Numbers;
    if n > 0 {
      var known := SetOf(vs[0]) + AddedBy(l, edits, n - 1);
      HistorySorted(c, l, edits, vs, n - 1);
      BatchFollows(c, l, edits, vs, n - 1);
      assert Installs(c, l, vs[n - 1], edits[n - 1], vs[n]);
      KnownNumbers(c, SetOf(vs[0]), Batch(c, l, edits, n - 1));
      FreshLess(Numbers(known), Numbers(SetOf(vs[n - 1])), edits[n - 1].newFiles, l);
      InstalledSorted(c, l, vs[n - 1], edits[n - 1], vs[n]);
    }
  }

  lemma InstalledSorted(c: Comparator<Bytes>, l: nat, v: seq<FileMeta>, e: Edit, v': seq<FileMeta>)
    requires TotalOrder(c) && SortedFiles(c, v) && Installs(c, l, v, e, v') && FreshNews(Numbers(SetOf(v)), e.newFiles, l)
    ensures SortedFiles(c, v')
  {
    hide Applied, SortedFiles, FreshNews, NewAt, TotalOrder, Saved, Numbers, SetOf;
    FreshLess(Numbers(SetOf(v)), {}, e.newFiles, l);
    AppliedNew(c, l, e);
    NewApart(Numbers(SetOf(v)), e.newFiles, l);
    FreshApart(c, v, Applied(c, NOTHING, l, e));
    SavedStrictly(c, v, Applied(c, NOTHING, l, e), v');
  }

  lemma KnownNumbers(c: Comparator<Bytes>, base: set<FileMeta>, s: Level)
    ensures Numbers(Live(base, s)) <= Numbers(base + SetOf(s.added))
  {
  }

  lemma FreshLess(known: set<nat>, fewer: set<nat>, news: seq<(nat, FileMeta)>, l: nat)
    requires FreshNews(known, news, l) && fewer <= known
    ensures FreshNews(fewer, news, l)
  {
  }

  lemma NewApart(known: set<nat>, news: seq<(nat, FileMeta)>, l: nat)
    requires FreshNews(known, news, l)
    ensures known !! Numbers(NewAt(news, l, |news|))
  {
  }

  lemma AppliedNew(c: Comparator<Bytes>, l: nat, e: Edit)
    requires TotalOrder(c) && FreshNews({}, e.newFiles, l)
    ensures SortedFiles(c, Applied(c, NOTHING, l, e).added)
    ensures SetOf(Applied(c, NOTHING, l, e).added) == NewAt(e.newFiles, l, |e.newFiles|)
  {
    hide TotalOrder, SortedFiles, FreshNews, NewAt;
    NothingSorted(c);
    NewsAdded(c, Level({} + DeletedAt(e.deletedFiles, l), []), l, e.newFiles, |e.newFiles|);
  }

  // One builder fed every edit may be saved, and makes the list of files that a version per edit
  // led to.
  lemma BatchEqualsHistory(c: Comparator<Bytes>, l: nat, edits: seq<Edit>, vs: seq<seq<FileMeta>>, out: seq<FileMeta>)
    requires TotalOrder(c) && |vs| == |edits| + 1 && FreshNumbers(l, vs[0], edits) && SortedFiles(c, vs[0])
    requires forall i :: 0 <= i < |edits| ==> Installs(c, l, vs[i], edits[i], vs[i + 1])
    ensures var batch := Batch(c, l, edits, |edits|);
      && SortedFiles(c, batch.added) && Apart(c, vs[0], batch.added)
      && (Saved(c, vs[0], batch, out) ==> out == vs[|edits|])
  {
    hide Live, SortedFiles, FreshNumbers, TotalOrder, Batch, Saved, Apart, Installs;
    var batch := Batch(c, l, edits, |edits|);
    BatchFollows(c, l, edits, vs, |edits|);
    AddedFresh(l, vs[0], edits, |edits|);
    FreshApart(c, vs[0], batch);
    if Saved(c, vs[0], batch, out) {
      SavedStrictly(c, vs[0], batch, out);
      SavedMembers(c, vs[0], batch, out);
      HistorySorted(c, l, edits, vs, |edits|);
      SortedUnique(c, out, vs[|edits|]);
    }
  }

  // A builder may save what it holds: numbers of their own keep added files apart from the base.
  lemma FreshApart(c: Comparator<Bytes>, base: seq<FileMeta>, s: Level)
    requires TotalOrder(c) && Numbers(SetOf(base)) !! Numbers(SetOf(s.added))
    ensures Apart(c, base, s.added)
  {
    forall i: nat, j: nat | i < |base| && j < |s.added|
      ensures Before(c, base[i], s.added[j]) || Before(c, s.added[j], base[i])
    {
      assert base[i] in SetOf(base) && s.added[j] in SetOf(s.added);
      assert base[i].number in Numbers(SetOf(base)) && s.added[j].number in Numbers(SetOf(s.added));
      BeforeTransitive(c, base[i], s.added[j], base[i]);
    }
  }

  // When a number comes back after its deletion, the batch revives the file that had it first.
  lemma NumbersMustBeFresh(c: Comparator<Bytes>, f: FileMeta, g: FileMeta)
    requires TotalOrder(c) && f.number == g.number && f.smallest != g.smallest
    ensures var edits := [EMPTY.(newFiles := [(0, f)]), EMPTY.(deletedFiles := {(0, f.number)}), EMPTY.(newFiles := [(0, g)])];
            var v1 := Live({}, Applied(c, NOTHING, 0, edits[0]));
            var v2 := Live(v1, Applied(c, NOTHING, 0, edits[1]));
            Live(v2, Applied(c, NOTHING, 0, edits[2])) == {g} && Live({}, Batch(c, 0, edits, 3)) == {f, g}
  {
    var e1, e2, e3 := EMPTY.(newFiles := [(0, f)]), EMPTY.(deletedFiles := {(0, f.number)}), EMPTY.(newFiles := [(0, g)]);
    var edits := [e1, e2, e3];
    assert Compare(c, f.smallest, g.smallest) == 0 <==> f.smallest == g.smallest;
    assert Compare(c, f.smallest, g.smallest) < 0 <==> Compare(c, g.smallest, f.smallest) > 0;
    assert Compare(c, g.smallest, f.smallest) < 0 <==> Compare(c, f.smallest, g.smallest) > 0;
    OneAdded(c, NOTHING, e1, f);
    OneAdded(c, NOTHING, e3, g);
    var s1 := Applied(c, NOTHING, 0, e1);
    assert s1 == Level({}, [f]);
    OneDeleted(c, NOTHING, e2, f.number);
    OneDeleted(c, s1, e2, f.number);
    var s2 := Level({f.number}, [f]);
    OneAdded(c, s2, e3, g);
    assert Batch(c, 0, edits, 1) == s1 && Batch(c, 0, edits, 2) == s2;
    var s3 := Batch(c, 0, edits, 3);
    assert [f][1..] == [];
    assert s3.added == [f, g] || s3.added == [g, f];
    assert s3.deleted == {} && f in s3.added && g in s3.added && SetOf(s3.added) == {f, g};
  }

  lemma OneAdded(c: Comparator<Bytes>, s: Level, e: Edit, f: FileMeta)
    requires e == EMPTY.(newFiles := [(0, f)])
    ensures Applied(c, s, 0, e) == TakeNew(c, s, f)
  {
    assert DeletedAt({}, 0) == {} && s.deleted + {} == s.deleted;
    assert TakeNews(c, s, 0, e.newFiles, 1) == TakeNew(c, TakeNews(c, s, 0, e.newFiles, 0), f);
  }

  lemma OneDeleted(c: Comparator<Bytes>, s: Level, e: Edit, n: nat)
    requires e == EMPTY.(deletedFiles := {(0, n)})
    ensures Applied(c, s, 0, e) == Level(s.deleted + {n}, s.added)
  {
    assert DeletedAt({(0, n)}, 0) == {n};
  }

  ghost predicate LevelsInRange(e: Edit) {
    && (forall d :: d in e.deletedFiles ==> d.0 < NUM_LEVELS)
    && (forall i :: 0 <= i < |e.newFiles| ==> e.newFiles[i].0 < NUM_LEVELS)
    && (forall i :: 0 <= i < |e.compactPointers| ==> e.compactPointers[i].0 < NUM_LEVELS)
  }

  // The last of the first n pointers that is for level l, if any, else the one there was.
  function PointerAt(was: Bytes, ps: seq<(nat, Bytes)>, l: nat, n: nat): Bytes
    requires n <= |ps|
  {
    if n == 0 then was else if ps[n - 1].0 == l then ps[n - 1].1 else PointerAt(was, ps, l, n - 1)
  }

  // It is the last one in the list for that level; one the list does not have stays.
  lemma {:induction false} PointerIsLast(was: Bytes, ps: seq<(nat, Bytes)>, l: nat, n: nat, i: nat)
    requires i < n <= |ps| && ps[i].0 == l && forall j :: i < j < n ==> ps[j].0 != l
    ensures PointerAt(was, ps, l, n) == ps[i].1
  {
    if i < n - 1 {
      PointerIsLast(was, ps, l, n - 1, i);
    }
  }

  lemma {:induction false} PointerStays(was: Bytes, ps: seq<(nat, Bytes)>, l: nat, n: nat)
    requires n <= |ps| && forall i :: 0 <= i < n ==> ps[i].0 != l
    ensures PointerAt(was, ps, l, n) == was
  {
    if n > 0 {
      PointerStays(was, ps, l, n - 1);
    }
  }

  // A saved level ascends by smallest key, and by number among equal ones.
  lemma SavedAscends(c: Comparator<Bytes>, files: seq<FileMeta>, s: Level, out: seq<FileMeta>, i: nat, j: nat)
    requires TotalOrder(c) && Saved(c, files, s, out) && i < j < |out|
    ensures Compare(c, out[i].smallest, out[j].smallest) <= 0
    ensures Compare(c, out[i].smallest, out[j].smallest) == 0 ==> out[i].number <= out[j].number
  {
    assert !Before(c, out[j], out[i]);
    assert Compare(c, out[i].smallest, out[j].smallest) == 0 <==> out[i].smallest == out[j].smallest;
    assert Compare(c, out[j].smallest, out[i].smallest) == 0 <==> out[i].smallest == out[j].smallest;
    assert Compare(c, out[j].smallest, out[i].smallest) < 0 <==> Compare(c, out[i].smallest, out[j].smallest) > 0;
  }

  lemma {:induction false} UndeletedMembers(fs: seq<FileMeta>, deleted: set<nat>, f: FileMeta)
    ensures f in Undeleted(fs, deleted) <==> f in fs && f.number !in deleted
  {
    if |fs| > 0 {
      UndeletedMembers(fs[..|fs| - 1], deleted, f);
    }
  }

  lemma {:induction false} UndeletedOnce(c: Comparator<Bytes>, fs: seq<FileMeta>, deleted: set<nat>, f: FileMeta)
    requires TotalOrder(c) && SortedFiles(c, fs)
    ensures multiset(Undeleted(fs, deleted))[f] <= 1
  {
    hide TotalOrder, Before;
    if |fs| > 0 {
      var n := |fs| - 1;
      UndeletedOnce(c, fs[..n], deleted, f);
      UndeletedMembers(fs[..n], deleted, f);
      BeforeTransitive(c, f, f, f);
      assert f in fs[..n] ==> Before(c, f, fs[n]);
    }
  }

  // The members of a saved level.
  lemma SavedMembers(c: Comparator<Bytes>, files: seq<FileMeta>, s: Level, out: seq<FileMeta>)
    requires Saved(c, files, s, out)
    ensures SetOf(out) == Live(SetOf(files), s)
  {
    hide Ordered;
    forall f ensures f in SetOf(out) <==> f in Live(SetOf(files), s) {
      assert f in out <==> f in multiset(out);
      UndeletedMembers(files, s.deleted, f);
      UndeletedMembers(s.added, s.deleted, f);
      assert f in Undeleted(files, s.deleted) <==> f in multiset(Undeleted(files, s.deleted));
      assert f in Undeleted(s.added, s.deleted) <==> f in multiset(Undeleted(s.added, s.deleted));
    }
  }

  lemma TwicePositions(out: seq<FileMeta>, i: nat, j: nat)
    requires i < j < |out| && out[i] == out[j]
    ensures multiset(out)[out[j]] >= 2
  {
    assert out == out[..j] + [out[j]] + out[j + 1..];
    assert out[i] in out[..j];
  }

  // When the order tells all files apart, the saved level is in strict order.
  lemma SavedStrictly(c: Comparator<Bytes>, files: seq<FileMeta>, s: Level, out: seq<FileMeta>)
    requires TotalOrder(c) && Saved(c, files, s, out)
    requires SortedFiles(c, files) && SortedFiles(c, s.added) && Apart(c, files, s.added)
    ensures SortedFiles(c, out)
  {
    forall i, j | 0 <= i < j < |out| ensures Before(c, out[i], out[j]) {
      SavedApart(c, files, s, out, i, j);
    }
  }

  lemma SavedApart(c: Comparator<Bytes>, files: seq<FileMeta>, s: Level, out: seq<FileMeta>, i: nat, j: nat)
    requires TotalOrder(c) && Saved(c, files, s, out) && i < j < |out|
    requires SortedFiles(c, files) && SortedFiles(c, s.added) && Apart(c, files, s.added)
    ensures Before(c, out[i], out[j])
  {
    hide TotalOrder, Before, Live;
    var f, g := out[i], out[j];
    BeforeTransitive(c, f, f, f);
    SavedMembers(c, files, s, out);
    assert f in SetOf(out) && g in SetOf(out);
    assert (f in files || f in s.added) && (g in files || g in s.added) by { LiveKnown(SetOf(files), s, f); LiveKnown(SetOf(files), s, g); }
    SavedOnce(c, files, s, out, f);
    if f == g {
      TwicePositions(out, i, j);
    } else {
      assert Before(c, f, g) || Before(c, g, f);
    }
  }

  lemma SavedOnce(c: Comparator<Bytes>, files: seq<FileMeta>, s: Level, out: seq<FileMeta>, f: FileMeta)
    requires TotalOrder(c) && Saved(c, files, s, out)
    requires SortedFiles(c, files) && SortedFiles(c, s.added) && Apart(c, files, s.added)
    ensures multiset(out)[f] <= 1
  {
    hide TotalOrder, Before, Undeleted, Ordered;
    UndeletedOnce(c, files, s.deleted, f);
    UndeletedOnce(c, s.added, s.deleted, f);
    UndeletedMembers(files, s.deleted, f);
    UndeletedMembers(s.added, s.deleted, f);
    BeforeTransitive(c, f, f, f);
    if f in files {
      assert f !in s.added;
    }
  }

  lemma LiveKnown(base: set<FileMeta>, s: Level, f: FileMeta)
    requires f in Live(base, s)
    ensures f in base || f in s.added
  {
  }

  function MaybeAddFile(out: seq<FileMeta>, f: FileMeta, deleted: set<nat>): seq<FileMeta> {
    if f.number in deleted then out else out + [f]
  }

  lemma OrderedMore(c: Comparator<Bytes>, out: seq<FileMeta>, f: FileMeta, deleted: set<nat>)
    requires Ordered(c, out) && forall i: nat :: i < |out| ==> !Before(c, f, out[i])
    ensures Ordered(c, MaybeAddFile(out, f, deleted))
  {
    hide Before;
  }

  // None of rest[from..] comes before a file of out.
  ghost predicate NoneBefore(c: Comparator<Bytes>, rest: seq<FileMeta>, from: nat, out: seq<FileMeta>) {
    forall i, j :: 0 <= i < |out| && from <= j < |rest| ==> !Before(c, rest[j], out[i])
  }

  lemma NoneBeforeNext(c: Comparator<Bytes>, rest: seq<FileMeta>, from: nat, out: seq<FileMeta>)
    requires NoneBefore(c, rest, from, out)
    ensures NoneBefore(c, rest, from + 1, out)
    ensures from < |rest| ==> forall i: nat :: i < |out| ==> !Before(c, rest[from], out[i])
  {
    hide Before;
  }

  lemma NoneBeforeMore(c: Comparator<Bytes>, rest: seq<FileMeta>, from: nat, out: seq<FileMeta>, f: FileMeta, deleted: set<nat>)
    requires NoneBefore(c, rest, from, out) && forall j: nat :: from <= j < |rest| ==> !Before(c, rest[j], f)
    ensures NoneBefore(c, rest, from, MaybeAddFile(out, f, deleted))
  {
    hide Before;
  }

  lemma MoreOf(fs: seq<FileMeta>, n: nat, deleted: set<nat>, out: seq<FileMeta>)
    requires n < |fs|
    ensures multiset(Undeleted(fs[..n + 1], deleted)) == multiset(Undeleted(fs[..n], deleted)) + Single(fs[n], deleted)
    ensures multiset(MaybeAddFile(out, fs[n], deleted)) == multiset(out) + Single(fs[n], deleted)
  {
    assert fs[..n + 1][..n] == fs[..n];
  }

  function Single(f: FileMeta, deleted: set<nat>): multiset<FileMeta> {
    if f.number in deleted then multiset{} else multiset{f}
  }

  class Builder {
    const c: Comparator<Bytes>            // of internal keys
    const base: seq<seq<FileMeta>>        // files_ of the base version
    var levels: seq<Level>
    var compactPointer: seq<Bytes>        // of the version set

    constructor (c: Comparator<Bytes>, base: seq<seq<FileMeta>>, compactPointer: seq<Bytes>)
      requires |base| == NUM_LEVELS && |compactPointer| == NUM_LEVELS
      ensures this.c == c && this.base == base && this.compactPointer == compactPointer
      ensures Valid() && forall l :: 0 <= l < NUM_LEVELS ==> levels[l] == NOTHING
    {
      this.c := c;
      this.base := base;
      this.compactPointer := compactPointer;
      this.levels := seq(NUM_LEVELS, _ => NOTHING);
    }

    predicate Valid()
      reads this
    {
      |base| == NUM_LEVELS && |levels| == NUM_LEVELS && |compactPointer| == NUM_LEVELS
    }

    method Apply(e: Edit)
      requires Valid() && LevelsInRange(e)
      modifies this
      ensures Valid()
      ensures forall l: nat :: l < NUM_LEVELS ==> levels[l] == Applied(c, old(levels)[l], l, e)
      ensures forall l: nat :: l < NUM_LEVELS ==>
                compactPointer[l] == PointerAt(old(compactPointer)[l], e.compactPointers, l, |e.compactPointers|)
    {
      for i := 0 to |e.compactPointers|
        invariant Valid() && levels == old(levels)
        invariant forall l: nat :: l < NUM_LEVELS ==> compactPointer[l] == PointerAt(old(compactPointer)[l], e.compactPointers, l, i)
      {
        var (level, key) := e.compactPointers[i];
        compactPointer := compactPointer[level := key];
      }
      ApplyDeleted(e.deletedFiles);
      label C:
      ghost var start := levels;
      for i := 0 to |e.newFiles|
        invariant Valid() && compactPointer == old@C(compactPointer)
        invariant forall l: nat :: l < NUM_LEVELS ==> levels[l] == TakeNews(c, start[l], l, e.newFiles, i)
      {
        var (level, f) := e.newFiles[i];
        levels := levels[level := Level(levels[level].deleted - {f.number}, Insert(c, levels[level].added, f))];
      }
    }

    method ApplyDeleted(files: set<(nat, nat)>)
      requires Valid() && forall d :: d in files ==> d.0 < NUM_LEVELS
      modifies this`levels
      ensures Valid()
      ensures forall l: nat :: l < NUM_LEVELS ==>
                levels[l] == Level(old(levels)[l].deleted + DeletedAt(files, l), old(levels)[l].added)
    {
      var left := files;
      while left != {}
        invariant Valid() && left <= files
        invariant forall l: nat :: l < NUM_LEVELS ==>
                    levels[l] == Level(old(levels)[l].deleted + DeletedAt(files - left, l), old(levels)[l].added)
        decreases left
      {
        var d :| d in left;
        var (level, number) := d;
        ghost var done := files - left;
        forall l: nat | l < NUM_LEVELS
          ensures DeletedAt(files - (left - {d}), l) == DeletedAt(done, l) + if l == level then {number} else {}
        {
          assert files - (left - {d}) == done + {d};
        }
        levels := levels[level := levels[level].(deleted := levels[level].deleted + {number})];
        left := left - {d};
      }
    }

    method SaveTo() returns (v: seq<seq<FileMeta>>)
      requires Valid() && TotalOrder(c)
      requires forall l: nat :: l < NUM_LEVELS ==> Ordered(c, base[l]) && SortedFiles(c, levels[l].added)
      ensures |v| == NUM_LEVELS && forall l: nat :: l < NUM_LEVELS ==> Saved(c, base[l], levels[l], v[l])
    {
      hide SortedFiles, Ordered, Saved, TotalOrder;
      v := [];
      for l := 0 to NUM_LEVELS
        invariant |v| == l
        invariant forall k: nat :: k < l ==> Saved(c, base[k], levels[k], v[k])
      {
        var files := SaveLevel(base[l], levels[l]);
        v := v + [files];
      }
    }

    // Merges the added files with the base files, and drops the deleted ones.
    method SaveLevel(files: seq<FileMeta>, s: Level) returns (out: seq<FileMeta>)
      requires TotalOrder(c) && Ordered(c, files) && SortedFiles(c, s.added)
      ensures Saved(c, files, s, out)
    {
      hide SortedFiles, Ordered, TotalOrder, Before, Merged;
      out := [];
      var b := 0;
      MergedNothing(files, s);
      for a := 0 to |s.added|
        invariant b <= |files| && Merged(files, s, a, b, out)
      {
        while b < |files| && !Before(c, s.added[a], files[b])
          invariant b <= |files| && Merged(files, s, a, b, out)
        {
          TakeBase(files, s, a, b, out);
          out := MaybeAddFile(out, files[b], s.deleted);
          b := b + 1;
        }
        TakeAdded(files, s, a, b, out);
        out := MaybeAddFile(out, s.added[a], s.deleted);
      }
      while b < |files|
        invariant b <= |files| && Merged(files, s, |s.added|, b, out)
      {
        TakeBase(files, s, |s.added|, b, out);
        out := MaybeAddFile(out, files[b], s.deleted);
        b := b + 1;
      }
      MergedAll(files, s, out);
    }

    // out is what the first b base files and the first a added ones come to, and the others follow.
    ghost predicate Merged(files: seq<FileMeta>, s: Level, a: nat, b: nat, out: seq<FileMeta>)
      requires a <= |s.added| && b <= |files|
    {
      && Ordered(c, out)
      && multiset(out) == multiset(Undeleted(files[..b], s.deleted)) + multiset(Undeleted(s.added[..a], s.deleted))
      && NoneBefore(c, files, b, out) && NoneBefore(c, s.added, a, out)
    }

    lemma MergedNothing(files: seq<FileMeta>, s: Level)
      ensures Merged(files, s, 0, 0, [])
    {
    }

    lemma MergedAll(files: seq<FileMeta>, s: Level, out: seq<FileMeta>)
      requires Merged(files, s, |s.added|, |files|, out)
      ensures Saved(c, files, s, out)
    {
      assert files[..|files|] == files && s.added[..|s.added|] == s.added;
    }

    // f joins, and no file still to come is before it.
    lemma MergedGrows(files: seq<FileMeta>, s: Level, a: nat, b: nat, out: seq<FileMeta>, a': nat, b': nat, f: FileMeta)
      requires a <= |s.added| && b <= |files| && Merged(files, s, a, b, out)
      requires (a' == a && b' == b + 1 <= |files| && f == files[b]) || (a' == a + 1 <= |s.added| && b' == b && f == s.added[a])
      requires forall j: nat :: b' <= j < |files| ==> !Before(c, files[j], f)
      requires forall j: nat :: a' <= j < |s.added| ==> !Before(c, s.added[j], f)
      ensures Merged(files, s, a', b', MaybeAddFile(out, f, s.deleted))
    {
      hide Before, NoneBefore, Ordered, Undeleted, MaybeAddFile;
      NoneBeforeNext(c, files, b, out);
      NoneBeforeNext(c, s.added, a, out);
      OrderedMore(c, out, f, s.deleted);
      NoneBeforeMore(c, files, b', out, f, s.deleted);
      NoneBeforeMore(c, s.added, a', out, f, s.deleted);
      if b' == b + 1 {
        MoreOf(files, b, s.deleted, out);
      } else {
        MoreOf(s.added, a, s.deleted, out);
      }
    }

    lemma TakeBase(files: seq<FileMeta>, s: Level, a: nat, b: nat, out: seq<FileMeta>)
      requires TotalOrder(c) && Ordered(c, files) && SortedFiles(c, s.added)
      requires a <= |s.added| && b < |files| && Merged(files, s, a, b, out)
      requires a < |s.added| ==> !Before(c, s.added[a], files[b])
      ensures Merged(files, s, a, b + 1, MaybeAddFile(out, files[b], s.deleted))
    {
      hide Before, TotalOrder, Merged;
      var f := files[b];
      forall j: nat | a <= j < |s.added| ensures !Before(c, s.added[j], f) {
        BeforeTransitive(c, s.added[a], s.added[j], f);
        assert a < j ==> Before(c, s.added[a], s.added[j]);
      }
      MergedGrows(files, s, a, b, out, a, b + 1, f);
    }

    lemma TakeAdded(files: seq<FileMeta>, s: Level, a: nat, b: nat, out: seq<FileMeta>)
      requires TotalOrder(c) && Ordered(c, files) && SortedFiles(c, s.added)
      requires a < |s.added| && b <= |files| && Merged(files, s, a, b, out)
      requires b < |files| ==> Before(c, s.added[a], files[b])
      ensures Merged(files, s, a + 1, b, MaybeAddFile(out, s.added[a], s.deleted))
    {
      hide Before, TotalOrder, Merged;
      var f := s.added[a];
      forall j: nat | b <= j < |files| ensures !Before(c, files[j], f) {
        BeforeTransitive(c, files[j], f, files[b]);
        BeforeTransitive(c, f, files[j], f);
        assert b < j ==> !Before(c, files[j], files[b]);
      }
      forall j: nat | a < j < |s.added| ensures !Before(c, s.added[j], f) {
        BeforeTransitive(c, f, s.added[j], f);
        assert Before(c, f, s.added[j]);
      }
      MergedGrows(files, s, a, b, out, a + 1, b, f);
    }
  }
}
