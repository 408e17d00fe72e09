// db/version_set.cpp: the levels that SaveTo makes are the ones FindFile searches.
module LevelSearch {
  import opened Options
  import opened Ordering
  import opened ByteStrings
  import opened Entries
  import opened InternalKeys
  import opened VersionEdits
  import Compaction
  import Overlaps
  import Versions

  type Range = Compaction.FileRange<Bytes>

  // The key ranges of the files of a level.
  function RangesOf(files: seq<FileMeta>): (r: seq<Range>)
    ensures |r| == |files|
    ensures forall i :: 0 <= i < |r| ==> r[i].smallest == files[i].smallest && r[i].largest == files[i].largest
  {
    seq(|files|, i requires 0 <= i < |files| => Compaction.FileRange(files[i].smallest, files[i].largest))
  }

  // No internal key lies in two of the files, and no file is empty.
  ghost predicate Disjoint(c: Comparator<Bytes>, files: seq<FileMeta>) {
    && (forall i :: 0 <= i < |files| ==> InternalCompare(c, files[i].smallest, files[i].largest) <= 0)
    && (forall i, j, k :: 0 <= i < j < |files| && Inside(c, files[i], k) ==> !Inside(c, files[j], k))
  }

  ghost predicate Inside(c: Comparator<Bytes>, f: FileMeta, k: Bytes) {
    InternalCompare(c, f.smallest, k) <= 0 && InternalCompare(c, k, f.largest) <= 0
  }

  lemma OneAfterTheOther(c: Comparator<Bytes>, f: FileMeta, g: FileMeta)
    requires TotalOrder(InternalOrder(c)) && InternalCompare(c, f.smallest, f.largest) <= 0
    requires InternalCompare(c, g.smallest, g.largest) <= 0 && InternalCompare(c, f.smallest, g.smallest) <= 0
    requires Inside(c, f, g.smallest) ==> !Inside(c, g, g.smallest)
    ensures InternalCompare(c, f.largest, g.smallest) < 0
  {
    hide InternalCompare;
    var o := InternalOrder(c);
    assert Compare(o, g.smallest, g.smallest) == 0;
    assert Compare(o, g.smallest, f.largest) <= 0 || Compare(o, f.largest, g.smallest) < 0;
  }

  // A level saved from disjoint files is in the order that FindFile and SomeFileOverlapsRange ask for.
  lemma SavedLevelIsSearchable(c: Comparator<Bytes>, files: seq<FileMeta>, s: Versions.Level, out: seq<FileMeta>)
    requires TotalOrder(c) && Versions.Saved(InternalOrder(c), files, s, out) && Disjoint(c, out)
    ensures Overlaps.DisjointSorted(c, RangesOf(out))
    ensures forall i, j :: 0 <= i < j < |out| ==> Le(InternalOrder(c), out[i].largest, out[j].largest)
  {
    hide InternalCompare, Versions.Saved, TotalOrder;
    InternalIsTotal(c);
    forall i, j | 0 <= i < j < |out|
      ensures InternalCompare(c, out[i].largest, out[j].smallest) < 0 && Le(InternalOrder(c), out[i].largest, out[j].largest)
    {
      Versions.SavedAscends(InternalOrder(c), files, s, out, i, j);
      OneAfterTheOther(c, out[i], out[j]);
      Chained(c, out[i].largest, out[j].smallest, out[j].largest);
    }
  }

  lemma Chained(c: Comparator<Bytes>, x: Bytes, y: Bytes, z: Bytes)
    requires TotalOrder(InternalOrder(c)) && InternalCompare(c, x, y) <= 0 && InternalCompare(c, y, z) <= 0
    ensures Le(InternalOrder(c), x, z)
  {
    hide InternalCompare;
    var o := InternalOrder(c);
    assert (Compare(o, x, y) < 0 || x == y) && (Compare(o, y, z) < 0 || y == z);
  }

  // Version::Get in a level above 0: only the file found may hold the version sought. Its largest
  // key is not below the key sought, and every other key of the level that is not comes after it.
  method FileFor(c: Comparator<Bytes>, key: Bytes, out: seq<FileMeta>, ghost files: seq<FileMeta>, ghost s: Versions.Level)
    returns (index: Option<nat>)
    requires TotalOrder(c) && Versions.Saved(InternalOrder(c), files, s, out) && Disjoint(c, out) && |key| >= 8
    requires forall i :: 0 <= i < |out| ==> |out[i].smallest| >= 8
    ensures match index
            case Some(r) =>
              && r < |out| && !Lt(InternalOrder(c), out[r].largest, key)
              && forall i, k :: 0 <= i < |out| && i != r && Inside(c, out[i], k) && !Lt(InternalOrder(c), k, key) ==>
                   Lt(InternalOrder(c), out[r].largest, k)
            case None =>
              forall i, k :: 0 <= i < |out| && Inside(c, out[i], k) && !Lt(InternalOrder(c), k, key) ==> UserKey(k) != UserKey(key)
  {
    hide InternalCompare, Versions.Saved, TotalOrder;
    SavedLevelIsSearchable(c, files, s, out);
    InternalIsTotal(c);
    var right := Overlaps.FindFile(InternalOrder(c), RangesOf(out), key);
    index := if right < |out| && Compare(c, UserKey(key), UserKey(out[right].smallest)) >= 0 then Some(right) else None;
    forall i, k | 0 <= i < |out| && Inside(c, out[i], k) && !Lt(InternalOrder(c), k, key)
      ensures right <= i && (right < i ==> Lt(InternalOrder(c), out[right].largest, k))
      ensures right <= i && Compare(c, UserKey(key), UserKey(out[right].smallest)) < 0 ==> UserKey(k) != UserKey(key)
    {
      NotBefore(c, out[i], k, key);
      if right <= i {
        if right < i {
          RightBeforeKey(c, out[right], out[i], k);
        }
        SmallestFirst(c, out, right, i, k);
        UserKeyBeyond(c, key, out[right].smallest, k);
      }
    }
  }

  lemma NotBefore(c: Comparator<Bytes>, f: FileMeta, k: Bytes, key: Bytes)
    requires TotalOrder(InternalOrder(c)) && Inside(c, f, k) && !Lt(InternalOrder(c), k, key)
    ensures !Lt(InternalOrder(c), f.largest, key)
  {
    hide InternalCompare;
    var o := InternalOrder(c);
    assert Compare(o, k, f.largest) < 0 || k == f.largest by { assert Compare(o, k, f.largest) <= 0; }
    assert Compare(o, f.largest, key) < 0 && Compare(o, k, f.largest) < 0 ==> Compare(o, k, key) < 0;
  }

  lemma RightBeforeKey(c: Comparator<Bytes>, f: FileMeta, g: FileMeta, key: Bytes)
    requires TotalOrder(InternalOrder(c)) && InternalCompare(c, f.largest, g.smallest) < 0 && Inside(c, g, key)
    ensures Lt(InternalOrder(c), f.largest, key)
  {
    hide InternalCompare;
    var o := InternalOrder(c);
    assert Compare(o, f.largest, g.smallest) < 0 && (Compare(o, g.smallest, key) < 0 || g.smallest == key);
  }

  lemma SmallestFirst(c: Comparator<Bytes>, out: seq<FileMeta>, r: nat, i: nat, k: Bytes)
    requires TotalOrder(InternalOrder(c)) && r <= i < |out| && Inside(c, out[i], k)
    requires InternalCompare(c, out[r].smallest, out[r].largest) <= 0
    requires r < i ==> InternalCompare(c, out[r].largest, out[i].smallest) < 0
    ensures InternalCompare(c, out[r].smallest, k) <= 0
  {
    hide InternalCompare;
    var o := InternalOrder(c);
    if r < i {
      RightBeforeKey(c, out[r], out[i], k);
      Chained(c, out[r].smallest, out[r].largest, k);
    }
  }

  lemma UserKeyBeyond(c: Comparator<Bytes>, key: Bytes, smallest: Bytes, k: Bytes)
    requires TotalOrder(c) && |key| >= 8 && |smallest| >= 8 && InternalCompare(c, smallest, k) <= 0
    ensures Compare(c, UserKey(key), UserKey(smallest)) < 0 ==> UserKey(k) != UserKey(key)
  {
    assert |k| >= 8;
    assert Compare(c, UserKey(key), UserKey(smallest)) < 0 <==> Compare(c, UserKey(smallest), UserKey(key)) > 0;
  }
}
