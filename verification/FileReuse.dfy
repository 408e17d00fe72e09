// db/version_set.cpp, Builder::Apply over a whole manifest: just when feeding all edits to one
// builder comes to the same files as installing a version for each, whatever numbers are reused.
module FileReuse {
  import opened Coding
  import opened Ordering
  import opened ByteStrings
  import opened Entries
  import opened VersionEdits
  import opened Versions

  // Files that BySmallestKey cannot tell apart.
  predicate SameKey(f: FileMeta, g: FileMeta) {
    f.smallest == g.smallest && f.number == g.number
  }

  lemma ToldApart(c: Comparator<Bytes>, f: FileMeta, g: FileMeta)
    requires TotalOrder(c)
    ensures SameKey(f, g) <==> !Before(c, f, g) && !Before(c, g, f)
  {
    assert Compare(c, f.smallest, g.smallest) == 0 <==> f.smallest == g.smallest;
    assert Compare(c, g.smallest, f.smallest) == 0 <==> f.smallest == g.smallest;
    assert Compare(c, f.smallest, g.smallest) < 0 <==> Compare(c, g.smallest, f.smallest) > 0;
    assert Compare(c, g.smallest, f.smallest) < 0 <==> Compare(c, f.smallest, g.smallest) > 0;
  }

  ghost predicate Clashes(fs: set<FileMeta>, f: FileMeta) {
    exists g :: g in fs && SameKey(g, f)
  }

  // What an edit adds to level l, and the numbers it deletes there and does not add.
  ghost function News(l: nat, e: Edit): set<FileMeta> {
    NewAt(e.newFiles, l, |e.newFiles|)
  }

  ghost function Dead(l: nat, e: Edit): set<nat> {
    DeletedAt(e.deletedFiles, l) - Numbers(News(l, e))
  }

  // Of the files an edit adds to a level under one smallest key and number, the set takes the first.
  ghost predicate FirstAt(news: seq<(nat, FileMeta)>, l: nat, p: nat) {
    && p < |news| && news[p].0 == l
    && forall q :: 0 <= q < p && news[q].0 == l ==> !SameKey(news[q].1, news[p].1)
  }

  ghost function Firsts(news: seq<(nat, FileMeta)>, l: nat, n: nat): set<FileMeta>
    requires n <= |news|
  {
    set p | 0 <= p < n && FirstAt(news, l, p) :: news[p].1
  }

  ghost function Taken(l: nat, e: Edit): set<FileMeta> {
    Firsts(e.newFiles, l, |e.newFiles|)
  }

  lemma {:induction false} FirstExists(news: seq<(nat, FileMeta)>, l: nat, n: nat, f: FileMeta)
    requires n <= |news| && exists q :: 0 <= q < n && news[q].0 == l && SameKey(news[q].1, f)
    ensures Clashes(Firsts(news, l, n), f)
  {
    var q :| 0 <= q < n && news[q].0 == l && SameKey(news[q].1, f);
    if exists r :: 0 <= r < q && news[r].0 == l && SameKey(news[r].1, f) {
      FirstExists(news, l, q, f);
      var g :| g in Firsts(news, l, q) && SameKey(g, f);
      assert g in Firsts(news, l, n);
    } else {
      assert FirstAt(news, l, q);
      assert news[q].1 in Firsts(news, l, n);
    }
  }

  // One edit takes no two files of one key.
  lemma TakenOnce(l: nat, e: Edit, f: FileMeta, g: FileMeta)
    requires f in Taken(l, e) && g in Taken(l, e) && SameKey(f, g)
    ensures f == g
  {
    var p :| 0 <= p < |e.newFiles| && FirstAt(e.newFiles, l, p) && e.newFiles[p].1 == f;
    var q :| 0 <= q < |e.newFiles| && FirstAt(e.newFiles, l, q) && e.newFiles[q].1 == g;
  }

  lemma TakenIsNew(l: nat, e: Edit, f: FileMeta)
    requires f in Taken(l, e)
    ensures f in News(l, e) && f.number in Numbers(News(l, e))
  {
    var p :| 0 <= p < |e.newFiles| && FirstAt(e.newFiles, l, p) && e.newFiles[p].1 == f;
    assert f in News(l, e);
  }

  lemma {:induction false} InsertKnown(c: Comparator<Bytes>, fs: seq<FileMeta>, f: FileMeta)
    requires TotalOrder(c) && SortedFiles(c, fs) && Clashes(SetOf(fs), f)
    ensures Insert(c, fs, f) == fs
    decreases |fs|
  {
    hide Before, TotalOrder;
    var g :| g in SetOf(fs) && SameKey(g, f);
    var i :| 0 <= i < |fs| && fs[i] == g;
    ToldApart(c, g, f);
    if i > 0 {
      assert Before(c, fs[0], g);
      ClashBefore(c, fs[0], g, f);
      assert fs[1..][i - 1] == g && fs == [fs[0]] + fs[1..];
      assert g in SetOf(fs[1..]);
      InsertKnown(c, fs[1..], f);
    }
  }

  // A file is before any of two that cannot be told apart, or before none.
  lemma ClashBefore(c: Comparator<Bytes>, h: FileMeta, g: FileMeta, f: FileMeta)
    requires SameKey(g, f)
    ensures Before(c, h, g) <==> Before(c, h, f)
  {
  }

  lemma InsertIs(c: Comparator<Bytes>, fs: seq<FileMeta>, f: FileMeta)
    requires TotalOrder(c) && SortedFiles(c, fs)
    ensures SortedFiles(c, Insert(c, fs, f))
    ensures SetOf(Insert(c, fs, f)) == if Clashes(SetOf(fs), f) then SetOf(fs) else SetOf(fs) + {f}
  {
    hide Before, TotalOrder, Insert, SortedFiles, SameKey;
    if Clashes(SetOf(fs), f) {
      InsertKnown(c, fs, f);
    } else {
      forall g | g in fs ensures Before(c, f, g) || Before(c, g, f) {
        assert g in SetOf(fs);
        ToldApart(c, g, f);
      }
      InsertJoins(c, fs, f);
    }
  }

  // Of these files, those that clash with none of the others.
  ghost function Unclashing(fs: set<FileMeta>, known: set<FileMeta>): set<FileMeta> {
    set f | f in fs && !Clashes(known, f)
  }

  lemma FirstsNext(news: seq<(nat, FileMeta)>, l: nat, n: nat)
    requires n < |news|
    ensures Firsts(news, l, n + 1) == Firsts(news, l, n) + if FirstAt(news, l, n) then {news[n].1} else {}
  {
  }

  lemma FirstIffNoClash(news: seq<(nat, FileMeta)>, l: nat, n: nat)
    requires n < |news| && news[n].0 == l
    ensures FirstAt(news, l, n) <==> !Clashes(Firsts(news, l, n), news[n].1)
  {
    var f := news[n].1;
    if Clashes(Firsts(news, l, n), f) {
      var g :| g in Firsts(news, l, n) && SameKey(g, f);
      var p :| 0 <= p < n && FirstAt(news, l, p) && news[p].1 == g;
    } else if !FirstAt(news, l, n) {
      FirstExists(news, l, n, f);
    }
  }

  // A new file clashes with what there was, or with an earlier new one that was taken.
  lemma ClashesSplit(known: set<FileMeta>, fs: set<FileMeta>, f: FileMeta)
    ensures Clashes(known + Unclashing(fs, known), f) <==> Clashes(known, f) || Clashes(fs, f)
  {
    if Clashes(fs, f) && !Clashes(known, f) {
      var g :| g in fs && SameKey(g, f);
      assert !Clashes(known, g);
      assert g in Unclashing(fs, known);
    }
    if Clashes(known, f) {
      var g :| g in known && SameKey(g, f);
      assert g in known + Unclashing(fs, known);
    }
  }

  lemma UnclashingNext(fs: set<FileMeta>, known: set<FileMeta>, f: FileMeta)
    ensures Unclashing(fs + {f}, known) == Unclashing(fs, known) + if Clashes(known, f) then {} else {f}
  {
  }

  lemma {:induction false} NewsTaken(c: Comparator<Bytes>, s: Level, l: nat, news: seq<(nat, FileMeta)>, n: nat)
    requires TotalOrder(c) && SortedFiles(c, s.added) && n <= |news|
    ensures var t := TakeNews(c, s, l, news, n);
      && SortedFiles(c, t.added) && SetOf(t.added) == SetOf(s.added) + Unclashing(Firsts(news, l, n), SetOf(s.added))
      && t.deleted == s.deleted - Numbers(NewAt(news, l, n))
  {
    hide Insert, SortedFiles, TotalOrder, Before, Clashes, FirstAt, SameKey, Firsts, Unclashing;
    if n > 0 {
      var f, known := news[n - 1].1, SetOf(s.added);
      NewAtNext(news, l, n - 1);
      NewsTaken(c, s, l, news, n - 1);
      FirstsNext(news, l, n - 1);
      if news[n - 1].0 == l {
        var fs := Firsts(news, l, n - 1);
        InsertIs(c, TakeNews(c, s, l, news, n - 1).added, f);
        FirstIffNoClash(news, l, n - 1);
        ClashesSplit(known, fs, f);
        UnclashingNext(fs, known, f);
        if FirstAt(news, l, n - 1) {
          assert Firsts(news, l, n) == fs + {f};
        } else {
          assert Firsts(news, l, n) == fs;
        }
        assert Numbers(NewAt(news, l, n)) == Numbers(NewAt(news, l, n - 1)) + {f.number};
      } else {
        NotFirst(news, l, n - 1);
        assert Firsts(news, l, n) == Firsts(news, l, n - 1);
      }
    } else {
      NoFirsts(news, l, SetOf(s.added));
    }
  }

  lemma NotFirst(news: seq<(nat, FileMeta)>, l: nat, p: nat)
    requires p < |news| && news[p].0 != l
    ensures !FirstAt(news, l, p)
  {
  }

  lemma NoFirsts(news: seq<(nat, FileMeta)>, l: nat, known: set<FileMeta>)
    ensures Unclashing(Firsts(news, l, 0), known) == {}
  {
  }

  // One edit, in a builder that holds s already or in a new one.
  lemma AppliedIs(c: Comparator<Bytes>, s: Level, l: nat, e: Edit)
    requires TotalOrder(c) && SortedFiles(c, s.added)
    ensures var t := Applied(c, s, l, e);
      && SortedFiles(c, t.added) && SetOf(t.added) == SetOf(s.added) + Unclashing(Taken(l, e), SetOf(s.added))
      && t.deleted == s.deleted + DeletedAt(e.deletedFiles, l) - Numbers(News(l, e))
  {
    hide TakeNews, TotalOrder, SortedFiles, DeletedAt, NewAt, Firsts, Unclashing;
    NewsTaken(c, Level(s.deleted + DeletedAt(e.deletedFiles, l), s.added), l, e.newFiles, |e.newFiles|);
  }

  // ---- What the builder holds after n edits ----

  // f was taken by an edit, and no earlier edit took a file of its key.
  ghost predicate Holds(l: nat, edits: seq<Edit>, n: nat, f: FileMeta)
    requires n <= |edits|
  {
    exists i :: 0 <= i < n && f in Taken(l, edits[i]) && forall k :: 0 <= k < i ==> !Clashes(Taken(l, edits[k]), f)
  }

  // The first of the edits that takes a file of this key.
  lemma {:induction false} FirstTaker(l: nat, edits: seq<Edit>, n: nat, f: FileMeta) returns (k: nat, g: FileMeta)
    requires n <= |edits| && exists i :: 0 <= i < n && Clashes(Taken(l, edits[i]), f)
    ensures k < n && g in Taken(l, edits[k]) && SameKey(g, f) && forall i :: 0 <= i < k ==> !Clashes(Taken(l, edits[i]), f)
  {
    hide Taken;
    if exists i :: 0 <= i < n - 1 && Clashes(Taken(l, edits[i]), f) {
      k, g := FirstTaker(l, edits, n - 1, f);
    } else {
      k := n - 1;
      g :| g in Taken(l, edits[k]) && SameKey(g, f);
    }
  }

  lemma SameClashes(fs: set<FileMeta>, f: FileMeta, g: FileMeta)
    requires SameKey(f, g)
    ensures Clashes(fs, f) <==> Clashes(fs, g)
  {
  }

  lemma {:induction false} BatchHolds(c: Comparator<Bytes>, l: nat, edits: seq<Edit>, n: nat, f: FileMeta)
    requires TotalOrder(c) && n <= |edits|
    ensures SortedFiles(c, Batch(c, l, edits, n).added)
    ensures f in SetOf(Batch(c, l, edits, n).added) <==> Holds(l, edits, n, f)
    decreases n
  {
    hide Applied, TotalOrder, Before, SortedFiles, Taken, Clashes, SetOf;
    if n == 0 {
      NothingSorted(c);
      NothingChanges({});
    } else {
      var s := Batch(c, l, edits, n - 1);
      var held, e := SetOf(s.added), edits[n - 1];
      BatchHolds(c, l, edits, n - 1, f);
      AppliedIs(c, s, l, e);
      if exists k :: 0 <= k < n - 1 && Clashes(Taken(l, edits[k]), f) {
        var k, g := FirstTaker(l, edits, n - 1, f);
        forall i | 0 <= i < k ensures !Clashes(Taken(l, edits[i]), g) {
          SameClashes(Taken(l, edits[i]), f, g);
        }
        BatchHolds(c, l, edits, n - 1, g);
        ClashIs(held, f, g);
        HeldEarlier(l, edits, n, f);
      } else {
        forall g | g in held ensures !SameKey(g, f) {
          BatchHolds(c, l, edits, n - 1, g);
          HeldIsTaken(l, edits, n - 1, g, f);
        }
        NoClash(held, f);
        NewlyHeld(l, edits, n, f);
      }
    }
  }

  lemma ClashIs(fs: set<FileMeta>, f: FileMeta, g: FileMeta)
    requires g in fs && SameKey(g, f)
    ensures Clashes(fs, f)
  {
  }

  lemma NoClash(fs: set<FileMeta>, f: FileMeta)
    requires forall g :: g in fs ==> !SameKey(g, f)
    ensures !Clashes(fs, f) && f !in fs
  {
    assert SameKey(f, f);
  }

  lemma HeldIsTaken(l: nat, edits: seq<Edit>, n: nat, g: FileMeta, f: FileMeta)
    requires n <= |edits| && Holds(l, edits, n, g) && forall k :: 0 <= k < n ==> !Clashes(Taken(l, edits[k]), f)
    ensures !SameKey(g, f)
  {
    var i :| 0 <= i < n && g in Taken(l, edits[i]);
    assert !Clashes(Taken(l, edits[i]), f);
  }

  lemma HeldEarlier(l: nat, edits: seq<Edit>, n: nat, f: FileMeta)
    requires 0 < n <= |edits| && exists k :: 0 <= k < n - 1 && Clashes(Taken(l, edits[k]), f)
    ensures Holds(l, edits, n, f) <==> Holds(l, edits, n - 1, f)
  {
  }

  lemma NewlyHeld(l: nat, edits: seq<Edit>, n: nat, f: FileMeta)
    requires 0 < n <= |edits| && forall k :: 0 <= k < n - 1 ==> !Clashes(Taken(l, edits[k]), f)
    ensures Holds(l, edits, n, f) <==> f in Taken(l, edits[n - 1])
    ensures !Holds(l, edits, n - 1, f)
  {
    forall k | 0 <= k < n - 1 ensures f !in Taken(l, edits[k]) {
      assert !Clashes(Taken(l, edits[k]), f) && SameKey(f, f);
    }
  }

  // A number stays deleted from its last effective deletion, unless a later edit adds it.
  ghost predicate StaysDead(l: nat, edits: seq<Edit>, n: nat, m: nat)
    requires n <= |edits|
  {
    exists j :: 0 <= j < n && m in Dead(l, edits[j]) && forall k :: j < k < n ==> m !in Numbers(News(l, edits[k]))
  }

  lemma {:induction false} DeletedIs(c: Comparator<Bytes>, l: nat, edits: seq<Edit>, n: nat, m: nat)
    requires TotalOrder(c) && n <= |edits|
    ensures m in Batch(c, l, edits, n).deleted <==> StaysDead(l, edits, n, m)
  {
    hide News, Numbers, DeletedAt, TotalOrder, Before, Applied, SortedFiles, SetOf;
    if n > 0 {
      DeletedIs(c, l, edits, n - 1, m);
      BatchSorted(c, l, edits, n - 1);
      AppliedIs(c, Batch(c, l, edits, n - 1), l, edits[n - 1]);
      if m in Dead(l, edits[n - 1]) {
        assert StaysDead(l, edits, n, m);
      }
      if StaysDead(l, edits, n - 1, m) && m !in Numbers(News(l, edits[n - 1])) {
        var j :| 0 <= j < n - 1 && m in Dead(l, edits[j]) && forall k :: j < k < n - 1 ==> m !in Numbers(News(l, edits[k]));
        assert StaysDead(l, edits, n, m);
      }
    }
  }

  lemma BatchSorted(c: Comparator<Bytes>, l: nat, edits: seq<Edit>, n: nat)
    requires TotalOrder(c) && n <= |edits|
    ensures SortedFiles(c, Batch(c, l, edits, n).added)
  {
    hide Batch, SortedFiles, TotalOrder;
    var f: FileMeta :| true;
    BatchHolds(c, l, edits, n, f);
  }

  // ---- The history ----

  // Level l after the first n edits, each installed by itself.
  ghost function History(c: Comparator<Bytes>, l: nat, base: set<FileMeta>, edits: seq<Edit>, n: nat): set<FileMeta>
    requires n <= |edits|
  {
    if n == 0 then base else Live(History(c, l, base, edits, n - 1), Applied(c, NOTHING, l, edits[n - 1]))
  }

  // f comes with the base (-1) or with edit i.
  ghost predicate Comes(l: nat, base: set<FileMeta>, edits: seq<Edit>, i: int, f: FileMeta) {
    (i == -1 && f in base) || (0 <= i < |edits| && f in Taken(l, edits[i]))
  }

  // f comes and is not deleted from then on.
  ghost predicate Survives(l: nat, base: set<FileMeta>, edits: seq<Edit>, n: nat, f: FileMeta)
    requires n <= |edits|
  {
    exists i :: -1 <= i < n && Comes(l, base, edits, i, f) && forall j :: i < j < n ==> f.number !in Dead(l, edits[j])
  }

  lemma StepHistory(c: Comparator<Bytes>, l: nat, base: set<FileMeta>, edits: seq<Edit>, n: nat, f: FileMeta)
    requires TotalOrder(c) && n < |edits|
    ensures f in History(c, l, base, edits, n + 1)
       <==> f in Taken(l, edits[n]) || (f in History(c, l, base, edits, n) && f.number !in Dead(l, edits[n]))
  {
    hide TotalOrder, Before, News, DeletedAt, Applied, SortedFiles, Taken, SameKey;
    NothingSorted(c);
    AppliedIs(c, NOTHING, l, edits[n]);
    if f in Taken(l, edits[n]) {
      TakenIsNew(l, edits[n], f);
    }
  }

  lemma {:induction false} HistoryIs(c: Comparator<Bytes>, l: nat, base: set<FileMeta>, edits: seq<Edit>, n: nat, f: FileMeta)
    requires TotalOrder(c) && n <= |edits|
    ensures f in History(c, l, base, edits, n) <==> Survives(l, base, edits, n, f)
  {
    hide TotalOrder, Before, Taken, Dead, Live, Applied;
    if n == 0 {
      assert f in base ==> Comes(l, base, edits, -1, f);
    } else {
      HistoryIs(c, l, base, edits, n - 1, f);
      StepHistory(c, l, base, edits, n - 1, f);
      if f in Taken(l, edits[n - 1]) {
        assert Comes(l, base, edits, n - 1, f);
      } else if Survives(l, base, edits, n - 1, f) && f.number !in Dead(l, edits[n - 1]) {
        var i :| -1 <= i < n - 1 && Comes(l, base, edits, i, f) && forall j :: i < j < n - 1 ==> f.number !in Dead(l, edits[j]);
        assert Survives(l, base, edits, n, f);
      }
    }
  }

  // ---- Where the two differ ----

  // f survives, but the builder took g before f ever came: another file of the same smallest key
  // and number.
  ghost predicate Shadowed(l: nat, base: set<FileMeta>, edits: seq<Edit>, f: FileMeta, k: nat, g: FileMeta) {
    && Survives(l, base, edits, |edits|, f) && f !in base
    && k < |edits| && g in Taken(l, edits[k]) && SameKey(g, f) && g != f
    && forall i :: 0 <= i <= k ==> f !in Taken(l, edits[i])
  }

  // f is there when edit j deletes its number, and does not come again; then edit k adds the
  // number for another file, and nothing deletes it after that. The builder still holds f.
  ghost predicate Revived(l: nat, base: set<FileMeta>, edits: seq<Edit>, f: FileMeta, j: nat, k: nat) {
    && j < k < |edits|
    && Survives(l, base, edits, j, f) && f.number in Dead(l, edits[j])
    && (forall i :: j < i < |edits| ==> f !in Taken(l, edits[i]))
    && f.number in Numbers(News(l, edits[k]))
    && (forall i :: k < i < |edits| ==> f.number !in Dead(l, edits[i]))
    && (f in base || Holds(l, edits, |edits|, f))
  }

  // Level l as one builder fed all edits leaves it.
  ghost function Replayed(c: Comparator<Bytes>, l: nat, base: set<FileMeta>, edits: seq<Edit>): set<FileMeta> {
    Live(base, Batch(c, l, edits, |edits|))
  }

  lemma ReplayedIs(c: Comparator<Bytes>, l: nat, base: set<FileMeta>, edits: seq<Edit>, f: FileMeta)
    requires TotalOrder(c)
    ensures f in Replayed(c, l, base, edits)
       <==> (f in base || Holds(l, edits, |edits|, f)) && !StaysDead(l, edits, |edits|, f.number)
  {
    hide Batch, TotalOrder, SortedFiles, Holds, StaysDead;
    BatchHolds(c, l, edits, |edits|, f);
    DeletedIs(c, l, edits, |edits|, f.number);
  }

  lemma SurvivorsStay(l: nat, base: set<FileMeta>, edits: seq<Edit>, f: FileMeta)
    requires Survives(l, base, edits, |edits|, f)
    ensures !StaysDead(l, edits, |edits|, f.number)
  {
    hide Taken, News, Numbers, DeletedAt;
    var n := |edits|;
    var i :| -1 <= i < n && Comes(l, base, edits, i, f) && forall j :: i < j < n ==> f.number !in Dead(l, edits[j]);
    forall j | 0 <= j < n && f.number in Dead(l, edits[j]) ensures exists k :: j < k < n && f.number in Numbers(News(l, edits[k])) {
      assert j <= i;
      TakenIsNew(l, edits[i], f);
    }
  }

  // A file of the history that the builder does not hold has another in its place.
  lemma NotHeld(l: nat, base: set<FileMeta>, edits: seq<Edit>, f: FileMeta) returns (k: nat, g: FileMeta)
    requires Survives(l, base, edits, |edits|, f) && f !in base && !Holds(l, edits, |edits|, f)
    ensures Shadowed(l, base, edits, f, k, g)
  {
    hide Taken, Dead;
    var n := |edits|;
    var i :| -1 <= i < n && Comes(l, base, edits, i, f);
    assert SameKey(f, f) && Clashes(Taken(l, edits[i]), f);
    k, g := FirstTaker(l, edits, n, f);
    FirstIsHeld(l, edits, f, k, g);
    OneOfKey(l, edits[k], f, g);
    forall o | 0 <= o <= k ensures f !in Taken(l, edits[o]) {
      InClashes(Taken(l, edits[o]), f);
    }
  }

  lemma FirstIsHeld(l: nat, edits: seq<Edit>, f: FileMeta, k: nat, g: FileMeta)
    requires k < |edits| && g in Taken(l, edits[k]) && forall i :: 0 <= i < k ==> !Clashes(Taken(l, edits[i]), f)
    ensures g == f ==> Holds(l, edits, |edits|, f)
  {
  }

  lemma OneOfKey(l: nat, e: Edit, f: FileMeta, g: FileMeta)
    requires g in Taken(l, e) && SameKey(g, f)
    ensures f in Taken(l, e) ==> f == g
  {
    if f in Taken(l, e) {
      TakenOnce(l, e, f, g);
    }
  }

  lemma InClashes(fs: set<FileMeta>, f: FileMeta)
    ensures f in fs ==> Clashes(fs, f)
  {
    assert SameKey(f, f);
  }

  lemma ShadowedNotHeld(l: nat, base: set<FileMeta>, edits: seq<Edit>, f: FileMeta, k: nat, g: FileMeta)
    requires Shadowed(l, base, edits, f, k, g)
    ensures !Holds(l, edits, |edits|, f)
  {
    hide Taken, Survives;
    forall i | 0 <= i < |edits| && f in Taken(l, edits[i]) ensures exists o :: 0 <= o < i && Clashes(Taken(l, edits[o]), f) {
      assert k < i && Clashes(Taken(l, edits[k]), f);
    }
  }

  // The files the replay loses are the shadowed ones.
  lemma LostExactly(c: Comparator<Bytes>, l: nat, base: set<FileMeta>, edits: seq<Edit>, f: FileMeta)
    requires TotalOrder(c)
    ensures f in History(c, l, base, edits, |edits|) && f !in Replayed(c, l, base, edits)
       <==> exists k, g :: Shadowed(l, base, edits, f, k, g)
  {
    hide TotalOrder, Replayed, History, Holds, StaysDead;
    HistoryIs(c, l, base, edits, |edits|, f);
    ReplayedIs(c, l, base, edits, f);
    if Survives(l, base, edits, |edits|, f) {
      SurvivorsStay(l, base, edits, f);
      if f !in Replayed(c, l, base, edits) {
        var k, g := NotHeld(l, base, edits, f);
      }
    }
    if k, g :| Shadowed(l, base, edits, f, k, g) {
      ShadowedNotHeld(l, base, edits, f, k, g);
    }
  }

  // The last edit before n, or the base, that f comes with.
  lemma {:induction false} LastComing(l: nat, base: set<FileMeta>, edits: seq<Edit>, n: nat, f: FileMeta) returns (i: int)
    requires n <= |edits| && exists o :: -1 <= o < n && Comes(l, base, edits, o, f)
    ensures -1 <= i < n && Comes(l, base, edits, i, f) && forall o :: i < o < n ==> !Comes(l, base, edits, o, f)
  {
    hide Comes;
    if n == 0 || Comes(l, base, edits, n - 1, f) {
      i := n - 1;
    } else {
      i := LastComing(l, base, edits, n - 1, f);
    }
  }

  lemma {:induction false} FirstDeath(l: nat, edits: seq<Edit>, i: int, n: nat, m: nat) returns (j: nat)
    requires -1 <= i < n <= |edits| && exists o :: i < o < n && m in Dead(l, edits[o])
    ensures i < j < n && m in Dead(l, edits[j]) && forall o :: i < o < j ==> m !in Dead(l, edits[o])
    decreases n - i
  {
    hide Dead;
    if m in Dead(l, edits[i + 1]) {
      j := i + 1;
    } else {
      j := FirstDeath(l, edits, i + 1, n, m);
    }
  }

  lemma {:induction false} LastAddition(l: nat, edits: seq<Edit>, j: nat, n: nat, m: nat) returns (k: nat)
    requires j < n <= |edits| && exists o :: j < o < n && m in Numbers(News(l, edits[o]))
    ensures j < k < n && m in Numbers(News(l, edits[k])) && forall o :: k < o < n ==> m !in Numbers(News(l, edits[o]))
  {
    hide News, Numbers;
    if m in Numbers(News(l, edits[n - 1])) {
      k := n - 1;
    } else {
      k := LastAddition(l, edits, j, n - 1, m);
    }
  }

  lemma HeldComes(l: nat, base: set<FileMeta>, edits: seq<Edit>, f: FileMeta)
    requires f in base || Holds(l, edits, |edits|, f)
    ensures exists i :: -1 <= i < |edits| && Comes(l, base, edits, i, f)
  {
    hide Taken;
    if f in base {
      assert Comes(l, base, edits, -1, f);
    } else {
      var i :| 0 <= i < |edits| && f in Taken(l, edits[i]);
      assert Comes(l, base, edits, i, f);
    }
  }

  // A file only the replay has was revived.
  lemma OnlyRevived(l: nat, base: set<FileMeta>, edits: seq<Edit>, f: FileMeta) returns (j: nat, k: nat)
    requires (f in base || Holds(l, edits, |edits|, f)) && !StaysDead(l, edits, |edits|, f.number)
    requires !Survives(l, base, edits, |edits|, f)
    ensures Revived(l, base, edits, f, j, k)
  {
    hide Taken, News, Numbers, Dead, Holds;
    var n := |edits|;
    HeldComes(l, base, edits, f);
    var i := LastComing(l, base, edits, n, f);
    j := FirstDeath(l, edits, i, n, f.number);
    k := LastAddition(l, edits, j, n, f.number);
    forall o | j < o < n ensures f !in Taken(l, edits[o]) {
      assert !Comes(l, base, edits, o, f);
    }
  }

  // A revived file is in the replay and not in the history.
  lemma RevivedDiffers(l: nat, base: set<FileMeta>, edits: seq<Edit>, f: FileMeta, j: nat, k: nat)
    requires Revived(l, base, edits, f, j, k)
    ensures !StaysDead(l, edits, |edits|, f.number) && !Survives(l, base, edits, |edits|, f)
  {
    hide Taken, News, Numbers, DeletedAt, Holds;
    var n := |edits|;
    forall o | 0 <= o < n && f.number in Dead(l, edits[o]) ensures exists p :: o < p < n && f.number in Numbers(News(l, edits[p])) {
      assert o < k;
    }
    forall o | -1 <= o < n && Comes(l, base, edits, o, f) ensures o < j {
      if o >= 0 {
        TakenIsNew(l, edits[o], f);
      }
    }
  }

  // The files the replay adds are the revived ones.
  lemma GainedExactly(c: Comparator<Bytes>, l: nat, base: set<FileMeta>, edits: seq<Edit>, f: FileMeta)
    requires TotalOrder(c)
    ensures f in Replayed(c, l, base, edits) && f !in History(c, l, base, edits, |edits|)
       <==> exists j, k :: Revived(l, base, edits, f, j, k)
  {
    hide TotalOrder, Replayed, History, Holds, StaysDead, Survives;
    HistoryIs(c, l, base, edits, |edits|, f);
    ReplayedIs(c, l, base, edits, f);
    if f in Replayed(c, l, base, edits) && !Survives(l, base, edits, |edits|, f) {
      var j, k := OnlyRevived(l, base, edits, f);
    }
    if j, k :| Revived(l, base, edits, f, j, k) {
      RevivedDiffers(l, base, edits, f, j, k);
      assert f in base || Holds(l, edits, |edits|, f);
    }
  }

  // Replaying a whole manifest into one builder comes to the files of the history if and only if
  // no file of it is shadowed and none is revived.
  lemma ReplayAgreesExactly(c: Comparator<Bytes>, l: nat, base: set<FileMeta>, edits: seq<Edit>)
    requires TotalOrder(c)
    ensures Replayed(c, l, base, edits) == History(c, l, base, edits, |edits|)
       <==> (forall f, k, g :: !Shadowed(l, base, edits, f, k, g)) && (forall f, j, k :: !Revived(l, base, edits, f, j, k))
    ensures History(c, l, base, edits, |edits|) <= Replayed(c, l, base, edits)
       <==> forall f, k, g :: !Shadowed(l, base, edits, f, k, g)
  {
    hide TotalOrder, Replayed, History, Revived, Shadowed;
    var replay, history := Replayed(c, l, base, edits), History(c, l, base, edits, |edits|);
    forall f, k, g | Shadowed(l, base, edits, f, k, g) ensures f in history && f !in replay {
      LostExactly(c, l, base, edits, f);
    }
    forall f, j, k | Revived(l, base, edits, f, j, k) ensures f in replay && f !in history {
      GainedExactly(c, l, base, edits, f);
    }
    forall f | f in history && f !in replay ensures exists k, g :: Shadowed(l, base, edits, f, k, g) {
      LostExactly(c, l, base, edits, f);
    }
    forall f | f in replay && f !in history ensures exists j, k :: Revived(l, base, edits, f, j, k) {
      GainedExactly(c, l, base, edits, f);
    }
  }

  // One edit adds f; the next deletes its number and adds g, of the same number and smallest key.
  // The addition undoes the deletion, so the history has both; the replay lacks g.
  lemma RewrittenFileIsLost(c: Comparator<Bytes>, f: FileMeta, g: FileMeta)
    requires TotalOrder(c) && SameKey(f, g) && f != g
    ensures var edits := [EMPTY.(newFiles := [(0, f)]), EMPTY.(deletedFiles := {(0, f.number)}, newFiles := [(0, g)])];
            History(c, 0, {}, edits, 2) == {f, g} && Replayed(c, 0, {}, edits) == {f}
  {
    var e1, e2 := EMPTY.(newFiles := [(0, f)]), EMPTY.(deletedFiles := {(0, f.number)}, newFiles := [(0, g)]);
    var edits := [e1, e2];
    ToldApart(c, f, g);
    OneAdded(c, NOTHING, e1, f);
    OneReplaced(c, NOTHING, e2, g);
    var s := Level({}, [f]);
    assert Applied(c, NOTHING, 0, e1) == s;
    OneReplaced(c, s, e2, g);
    assert Batch(c, 0, edits, 0) == NOTHING && Batch(c, 0, edits, 1) == s;
    assert Batch(c, 0, edits, 2) == Applied(c, s, 0, e2) == Level({}, [f]);
    assert SetOf([f]) == {f} && SetOf([g]) == {g};
    assert History(c, 0, {}, edits, 0) == {} && History(c, 0, {}, edits, 1) == {f};
    assert Applied(c, NOTHING, 0, e2) == Level({}, [g]);
    assert History(c, 0, {}, edits, 2) == {f, g};
  }

  lemma OneReplaced(c: Comparator<Bytes>, s: Level, e: Edit, g: FileMeta)
    requires e == EMPTY.(deletedFiles := {(0, g.number)}, newFiles := [(0, g)])
    ensures Applied(c, s, 0, e) == Level(s.deleted - {g.number}, Insert(c, s.added, g))
  {
    var d := Level(s.deleted + {g.number}, s.added);
    assert DeletedAt({(0, g.number)}, 0) == {g.number};
    assert TakeNews(c, d, 0, e.newFiles, 1) == TakeNew(c, TakeNews(c, d, 0, e.newFiles, 0), g);
    assert s.deleted + {g.number} - {g.number} == s.deleted - {g.number};
  }
}
