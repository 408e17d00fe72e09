// db/version_set.cpp VersionSet::Recover: replaying the edits of a manifest into one builder.
module Manifest {
  import opened Options
  import opened Coding
  import opened Ordering
  import opened ByteStrings
  import opened Entries
  import opened VersionEdits
  import opened Versions
  import Log

  // What the replay has gathered: the builder's levels, and the last value of each counter.
  datatype Gathered = Gathered(levels: seq<Level>, logNumber: Option<nat>, prevLogNumber: Option<nat>,
                               nextFile: Option<nat>, lastSequence: Option<nat>)

  // The version set's numbers once the version is installed.
  datatype Numbers = Numbers(log: nat, prevLog: nat, manifest: nat, nextFile: nat, lastSequence: nat)

  function Start(): (g: Gathered)
    ensures |g.levels| == NUM_LEVELS && forall l :: 0 <= l < NUM_LEVELS ==> g.levels[l] == NOTHING
  {
    Gathered(seq(NUM_LEVELS, _ => NOTHING), None, None, None, None)
  }

  function Later(was: Option<nat>, n: Option<nat>): Option<nat> {
    if n.Some? then n else was
  }

  function Gather(c: Comparator<Bytes>, g: Gathered, e: Edit): (r: Gathered)
    ensures |r.levels| == |g.levels|
  {
    Gathered(seq(|g.levels|, l requires 0 <= l < |g.levels| => Applied(c, g.levels[l], l, e)),
             Later(g.logNumber, e.logNumber), Later(g.prevLogNumber, e.prevLogNumber),
             Later(g.nextFile, e.nextFileNumber), Later(g.lastSequence, e.lastSequence))
  }

  // One record; None if it is corrupt or written under another comparator's name.
  function ReplayRecord(c: Comparator<Bytes>, name: Bytes, g: Gathered, record: Bytes): (r: Option<Gathered>)
    ensures r.Some? ==> |r.value.levels| == |g.levels|
  {
    match Decode(EMPTY, record)
    case None => None
    case Some(e) => if e.comparator.Some? && e.comparator.value != name then None else Some(Gather(c, g, e))
  }

  function Replay(c: Comparator<Bytes>, name: Bytes, records: seq<Bytes>): (r: Option<Gathered>)
    ensures r.Some? ==> |r.value.levels| == NUM_LEVELS
  {
    if |records| == 0 then Some(Start())
    else
      match Replay(c, name, records[..|records| - 1])
      case None => None
      case Some(g) => ReplayRecord(c, name, g, records[|records| - 1])
  }

  lemma {:induction false} ReplayFails(c: Comparator<Bytes>, name: Bytes, a: seq<Bytes>, b: seq<Bytes>)
    requires Replay(c, name, a).None?
    ensures Replay(c, name, a + b).None?
    decreases |b|
  {
    if |b| == 0 {
      assert a + b == a;
    } else {
      ReplayFails(c, name, a, b[..|b| - 1]);
      assert (a + b)[..|a + b| - 1] == a + b[..|b| - 1];
    }
  }

  lemma {:induction false} DecodedInRange(e: Edit, s: Bytes)
    requires LevelsInRange(e) && Decode(e, s).Some?
    ensures LevelsInRange(Decode(e, s).value)
    decreases |s|
  {
    hide GetVarint32, ParseBody, LevelsInRange, AddField;
    match GetVarint32(s)
    case None =>
    case Some((tag, rest)) =>
      var (f, rest') := ParseBody(tag, rest).value;
      FieldInRange(e, tag, rest);
      DecodedInRange(AddField(e, f), rest');
  }

  lemma FieldInRange(e: Edit, tag: nat, s: Bytes)
    requires LevelsInRange(e) && ParseBody(tag, s).Some?
    ensures LevelsInRange(AddField(e, ParseBody(tag, s).value.0))
  {
    hide GetVarint32, GetVarint64, GetLengthPrefixed, ParseFile;
    var f := ParseBody(tag, s).value.0;
    assert f.CompactPointer? || f.DeletedFile? || f.NewFile? ==> f.level < NUM_LEVELS;
  }

  // Whether Recover may install what was gathered.
  predicate Complete(g: Gathered) {
    g.nextFile.Some? && g.logNumber.Some? && g.lastSequence.Some?
  }

  // What was gathered may be saved.
  ghost predicate Sorted(c: Comparator<Bytes>, g: Gathered) {
    forall l :: 0 <= l < |g.levels| ==> SortedFiles(c, g.levels[l].added)
  }

  lemma GatherSorted(c: Comparator<Bytes>, g: Gathered, e: Edit)
    requires TotalOrder(c) && Sorted(c, g)
    ensures Sorted(c, Gather(c, g, e))
  {
    hide SortedFiles, TakeNews, TotalOrder;
    forall l | 0 <= l < |g.levels| ensures SortedFiles(c, Applied(c, g.levels[l], l, e).added) {
      var s := g.levels[l];
      NewsSorted(c, Level(s.deleted + DeletedAt(e.deletedFiles, l), s.added), l, e.newFiles, |e.newFiles|);
    }
  }

  lemma {:induction false} ReplaySorted(c: Comparator<Bytes>, name: Bytes, records: seq<Bytes>)
    requires TotalOrder(c) && Replay(c, name, records).Some?
    ensures Sorted(c, Replay(c, name, records).value)
  {
    hide Sorted, TotalOrder, Decode, Gather;
    if |records| == 0 {
      StartSorted(c);
    } else {
      var n := |records| - 1;
      ReplaySorted(c, name, records[..n]);
      GatherSorted(c, Replay(c, name, records[..n]).value, Decode(EMPTY, records[n]).value);
    }
  }

  lemma StartSorted(c: Comparator<Bytes>)
    ensures Sorted(c, Start())
  {
    NothingSorted(c);
  }

  lemma EmptyInRange()
    ensures LevelsInRange(EMPTY)
  {
  }

  // One turn of the loop: the record is decoded, and its edit applied.
  method TakeRecord(c: Comparator<Bytes>, name: Bytes, builder: Builder, g: Gathered, record: Bytes) returns (ok: bool, g': Gathered)
    requires builder.Valid() && builder.c == c && builder.levels == g.levels
    modifies builder
    ensures match ReplayRecord(c, name, g, record)
            case None => !ok
            case Some(r) => ok && g' == r && builder.Valid() && builder.levels == r.levels
  {
    hide Decode, Applied, Gather, LevelsInRange, PointerAt, Later;
    ok, g' := false, g;
    var edit := new VersionEdit();
    var decoded := edit.DecodeFrom(record);
    if !decoded || (edit.comparator.Some? && edit.comparator.value != name) {
      return;
    }
    var e := edit.State();
    EmptyInRange();
    DecodedInRange(EMPTY, record);
    builder.Apply(e);
    GatherIs(c, g, e, builder.levels);
    ok := true;
    g' := Gathered(builder.levels, Later(g.logNumber, e.logNumber), Later(g.prevLogNumber, e.prevLogNumber),
                   Later(g.nextFile, e.nextFileNumber), Later(g.lastSequence, e.lastSequence));
  }

  lemma ReadOn(crc: Checksum, s: Log.ReaderState, data: Bytes, next: Log.ReaderState)
    requires Log.ReadLogical(crc, true, s, false, []) == Log.Record(data, next, [])
    ensures Log.ReadAll(crc, true, s) == ([data] + Log.ReadAll(crc, true, next).0, Log.ReadAll(crc, true, next).1)
  {
    hide Log.ReadLogical;
    assert [] + Log.ReadAll(crc, true, next).1 == Log.ReadAll(crc, true, next).1;
  }

  lemma ReadEnds(crc: Checksum, s: Log.ReaderState)
    requires Log.ReadLogical(crc, true, s, false, []).Finished?
    ensures Log.ReadAll(crc, true, s) == ([], Log.ReadLogical(crc, true, s, false, []).drops)
  {
    hide Log.ReadLogical;
  }

  lemma ReadDrops(crc: Checksum, s: Log.ReaderState)
    requires Log.ReadLogical(crc, true, s, false, []).drops != []
    ensures Log.ReadAll(crc, true, s).1 != []
  {
    hide Log.ReadLogical;
  }

  lemma ReplayNext(c: Comparator<Bytes>, name: Bytes, done: seq<Bytes>, g: Gathered, record: Bytes, left: seq<Bytes>)
    requires Replay(c, name, done) == Some(g)
    ensures Replay(c, name, done + [record]) == ReplayRecord(c, name, g, record)
    ensures ReplayRecord(c, name, g, record) == None ==> Replay(c, name, done + ([record] + left)) == None
  {
    hide ReplayRecord;
    assert (done + [record])[..|done|] == done;
    if ReplayRecord(c, name, g, record) == None {
      ReplayFails(c, name, done + [record], left);
      assert done + [record] + left == done + ([record] + left);
    }
  }

  method Recover(c: Comparator<Bytes>, name: Bytes, crc: Checksum, file: Bytes, base: seq<seq<FileMeta>>, pointers: seq<Bytes>)
    returns (ok: bool, g: Gathered, v: seq<seq<FileMeta>>, n: Numbers)
    requires TotalOrder(c) && |base| == NUM_LEVELS && |pointers| == NUM_LEVELS
    requires forall l: nat :: l < NUM_LEVELS ==> Ordered(c, base[l])
    ensures var (records, drops) := Log.ReadAll(crc, true, Log.Opened(file));
            match Replay(c, name, records)
            case None => !ok
            case Some(r) => (ok <==> drops == [] && Complete(r)) && (ok ==> g == r)
    ensures ok ==> |v| == NUM_LEVELS && |g.levels| == NUM_LEVELS && forall l: nat :: l < NUM_LEVELS ==> Saved(c, base[l], g.levels[l], v[l])
    ensures ok ==>
              && g.logNumber == Some(n.log) && g.nextFile == Some(n.manifest) && g.lastSequence == Some(n.lastSequence)
              && n.nextFile == (n.manifest + 1) % TWO_64
              && n.prevLog == if g.prevLogNumber.Some? then g.prevLogNumber.value else 0
  {
    hide Log.ReadLogical, Log.ReadAll, ReplayRecord, Complete, TotalOrder, Ordered, Saved, Sorted, Replay;
    var reader := new Log.Reader(crc, true, file);
    var builder := new Builder(c, base, pointers);
    ok, g, v, n := true, Start(), [], Numbers(0, 0, 0, 0, 0);
    ghost var all := Log.ReadAll(crc, true, Log.Opened(file));
    ghost var done: seq<Bytes> := [];
    assert [] + all.0 == all.0;
    assert builder.levels == g.levels;
    ReplayNothing(c, name);
    while true
      invariant builder.Valid() && builder.c == c && builder.base == base && builder.levels == g.levels
      invariant reader.crc == crc && reader.checksum && ok && reader.drops == []
      invariant Replay(c, name, done) == Some(g)
      invariant all == (done + Log.ReadAll(crc, true, reader.State()).0, Log.ReadAll(crc, true, reader.State()).1)
      decreases Log.Remaining(reader.State())
    {
      ghost var was := reader.State();
      var more, record := reader.ReadRecord();
      if |reader.drops| > 0 {
        ReadDrops(crc, was);
        return false, g, [], n;
      }
      if !more {
        ReadEnds(crc, was);
        assert done + [] == done;
        ok := Complete(g);
        break;
      }
      ReadOn(crc, was, record, reader.State());
      ghost var left := Log.ReadAll(crc, true, reader.State()).0;
      ReplayNext(c, name, done, g, record, left);
      ok, g := TakeRecord(c, name, builder, g, record);
      if !ok {
        return false, g, [], n;
      }
      assert done + ([record] + left) == done + [record] + left;
      done := done + [record];
    }
    if ok {
      ReplaySorted(c, name, done);
      GatheredSorted(c, g);
      v := builder.SaveTo();
      n := Install(g);
    }
  }

  method Install(g: Gathered) returns (n: Numbers)
    requires Complete(g)
    ensures g.logNumber == Some(n.log) && g.nextFile == Some(n.manifest) && g.lastSequence == Some(n.lastSequence)
    ensures n.nextFile == (n.manifest + 1) % TWO_64
    ensures n.prevLog == if g.prevLogNumber.Some? then g.prevLogNumber.value else 0
  {
    var prevLog := if g.prevLogNumber == None then 0 else g.prevLogNumber.value;
    n := Numbers(g.logNumber.value, prevLog, g.nextFile.value, (g.nextFile.value + 1) % TWO_64, g.lastSequence.value);
  }

  lemma ReplayNothing(c: Comparator<Bytes>, name: Bytes)
    ensures Replay(c, name, []) == Some(Start())
  {
  }

  lemma GatheredSorted(c: Comparator<Bytes>, g: Gathered)
    requires Sorted(c, g)
    ensures forall l: nat :: l < |g.levels| ==> SortedFiles(c, g.levels[l].added)
  {
  }

  lemma GatherIs(c: Comparator<Bytes>, g: Gathered, e: Edit, levels: seq<Level>)
    requires |levels| == |g.levels| && forall l: nat :: l < |levels| ==> levels[l] == Applied(c, g.levels[l], l, e)
    ensures Gather(c, g, e) == Gathered(levels, Later(g.logNumber, e.logNumber), Later(g.prevLogNumber, e.prevLogNumber),
                                        Later(g.nextFile, e.nextFileNumber), Later(g.lastSequence, e.lastSequence))
  {
    hide Applied;
    assert Gather(c, g, e).levels == levels;
  }

  // ---- The manifest of a run gives back the version the run had reached ----

  // The edits as LogAndApply writes them, under this comparator's name, if any.
  ghost predicate Writes(name: Bytes, edits: seq<Edit>, listings: seq<seq<(nat, nat)>>) {
    && |listings| == |edits|
    && forall i :: 0 <= i < |edits| ==>
         && EditFits(edits[i]) && Lists(listings[i], edits[i].deletedFiles)
         && (edits[i].comparator.Some? ==> edits[i].comparator.value == name)
  }

  function Encoded(edits: seq<Edit>, listings: seq<seq<(nat, nat)>>): (records: seq<Bytes>)
    requires |listings| == |edits|
    ensures |records| == |edits|
  {
    seq(|edits|, i requires 0 <= i < |edits| => EncodeFields(FieldsOf(edits[i], listings[i])))
  }

  lemma {:induction false} ReplayIsBatch(c: Comparator<Bytes>, name: Bytes, edits: seq<Edit>, listings: seq<seq<(nat, nat)>>)
    requires Writes(name, edits, listings)
    ensures var r := Replay(c, name, Encoded(edits, listings));
            r.Some? && forall l :: 0 <= l < NUM_LEVELS ==> r.value.levels[l] == Batch(c, l, edits, |edits|)
  {
    hide Decode, Applied, EncodeFields, FieldsOf, EditFits;
    if |edits| > 0 {
      var n := |edits| - 1;
      assert Encoded(edits, listings)[..n] == Encoded(edits[..n], listings[..n]);
      ReplayIsBatch(c, name, edits[..n], listings[..n]);
      EditRoundTrip(edits[n], listings[n]);
      forall l: nat | l < NUM_LEVELS ensures Batch(c, l, edits, n) == Batch(c, l, edits[..n], n) {
        BatchPrefix(c, l, edits, n, n);
      }
    }
  }

  lemma {:induction false} BatchPrefix(c: Comparator<Bytes>, l: nat, edits: seq<Edit>, n: nat, k: nat)
    requires k <= n <= |edits|
    ensures Batch(c, l, edits[..n], k) == Batch(c, l, edits, k)
  {
    if k > 0 {
      BatchPrefix(c, l, edits, n, k - 1);
    }
  }

  // vs[i] is the version, as one list of files a level, after i edits, each installed by itself.
  ghost predicate IsHistory(c: Comparator<Bytes>, edits: seq<Edit>, vs: seq<seq<seq<FileMeta>>>) {
    && |vs| == |edits| + 1
    && (forall i :: 0 <= i < |vs| ==> |vs[i]| == NUM_LEVELS)
    && (forall i :: 0 <= i < |edits| ==> InstalledAt(c, edits, vs, i))
  }

  ghost predicate InstalledAt(c: Comparator<Bytes>, edits: seq<Edit>, vs: seq<seq<seq<FileMeta>>>, i: nat)
    requires i < |edits| && i + 1 < |vs| && |vs[i]| == NUM_LEVELS && |vs[i + 1]| == NUM_LEVELS
  {
    forall l :: 0 <= l < NUM_LEVELS ==> Installs(c, l, vs[i][l], edits[i], vs[i + 1][l])
  }

  function LevelOf(vs: seq<seq<seq<FileMeta>>>, l: nat): (r: seq<seq<FileMeta>>)
    requires forall i :: 0 <= i < |vs| ==> l < |vs[i]|
    ensures |r| == |vs|
  {
    seq(|vs|, i requires 0 <= i < |vs| => vs[i][l])
  }

  // A manifest read to its end: every level gathered may be saved, and whatever Recover saves for
  // it is the very list the run had installed last, when no number was ever added to a level twice.
  lemma ManifestReplays(c: Comparator<Bytes>, name: Bytes, crc: Checksum, edits: seq<Edit>, listings: seq<seq<(nat, nat)>>,
                        vs: seq<seq<seq<FileMeta>>>, l: nat, out: seq<FileMeta>)
    requires TotalOrder(c) && Writes(name, edits, listings) && IsHistory(c, edits, vs) && l < NUM_LEVELS
    requires SortedFiles(c, vs[0][l]) && FreshNumbers(l, vs[0][l], edits)
    ensures var (records, drops) := Log.ReadAll(crc, true, Log.Opened(Log.Written(crc, Encoded(edits, listings))));
            var r := Replay(c, name, records);
            && drops == [] && r.Some?
            && SortedFiles(c, r.value.levels[l].added) && Apart(c, vs[0][l], r.value.levels[l].added)
            && (Saved(c, vs[0][l], r.value.levels[l], out) ==> out == vs[|edits|][l])
  {
    hide SortedFiles, FreshNumbers, TotalOrder, Live, Log.Written, Log.ReadAll, Encoded, EditFits, Replay, Installs, Batch, Saved, Apart;
    var records := Encoded(edits, listings);
    var file := Log.Written(crc, records);
    assert records[..|records|] == records && file[..|file|] == file;
    Log.CrashPrefix(crc, true, records, |file|, |records|);
    ReplayIsBatch(c, name, edits, listings);
    var history := LevelOf(vs, l);
    forall i | 0 <= i < |edits| ensures Installs(c, l, history[i], edits[i], history[i + 1]) {
      assert InstalledAt(c, edits, vs, i);
    }
    BatchEqualsHistory(c, l, edits, history, out);
  }

  // ---- The numbers, and failures ----

  // v is what the last of these to have a value has, if one has.
  ghost predicate IsLast(values: seq<Option<nat>>, v: Option<nat>) {
    && (forall i :: 0 <= i < |values| && values[i].Some? && (forall j :: i < j < |values| ==> values[j].None?) ==> v == values[i])
    && ((forall i :: 0 <= i < |values| ==> values[i].None?) ==> v.None?)
  }

  lemma LastNext(values: seq<Option<nat>>, v: Option<nat>, n: Option<nat>)
    requires IsLast(values, v)
    ensures IsLast(values + [n], if n.Some? then n else v)
  {
    var more := values + [n];
    forall i | 0 <= i < |more| && more[i].Some? && (forall j :: i < j < |more| ==> more[j].None?)
      ensures (if n.Some? then n else v) == more[i]
    {
      if i < |values| {
        assert more[|values|].None?;
        assert forall j :: i < j < |values| ==> values[j] == more[j];
      }
    }
    if forall i :: 0 <= i < |more| ==> more[i].None? {
      assert forall i :: 0 <= i < |values| ==> values[i] == more[i];
      assert more[|values|] == n;
    }
  }

  function LogNumbers(edits: seq<Edit>): (r: seq<Option<nat>>)
    ensures |r| == |edits|
  {
    seq(|edits|, i requires 0 <= i < |edits| => edits[i].logNumber)
  }

  function PrevLogNumbers(edits: seq<Edit>): (r: seq<Option<nat>>)
    ensures |r| == |edits|
  {
    seq(|edits|, i requires 0 <= i < |edits| => edits[i].prevLogNumber)
  }

  function NextFiles(edits: seq<Edit>): (r: seq<Option<nat>>)
    ensures |r| == |edits|
  {
    seq(|edits|, i requires 0 <= i < |edits| => edits[i].nextFileNumber)
  }

  function LastSequences(edits: seq<Edit>): (r: seq<Option<nat>>)
    ensures |r| == |edits|
  {
    seq(|edits|, i requires 0 <= i < |edits| => edits[i].lastSequence)
  }

  ghost predicate HasLatest(edits: seq<Edit>, g: Gathered) {
    && IsLast(LogNumbers(edits), g.logNumber) && IsLast(PrevLogNumbers(edits), g.prevLogNumber)
    && IsLast(NextFiles(edits), g.nextFile) && IsLast(LastSequences(edits), g.lastSequence)
  }

  lemma GatherLatest(c: Comparator<Bytes>, edits: seq<Edit>, g: Gathered, e: Edit)
    requires HasLatest(edits, g)
    ensures HasLatest(edits + [e], Gather(c, g, e))
  {
    hide IsLast, Applied;
    LastNext(LogNumbers(edits), g.logNumber, e.logNumber);
    LastNext(PrevLogNumbers(edits), g.prevLogNumber, e.prevLogNumber);
    LastNext(NextFiles(edits), g.nextFile, e.nextFileNumber);
    LastNext(LastSequences(edits), g.lastSequence, e.lastSequence);
    assert LogNumbers(edits + [e]) == LogNumbers(edits) + [e.logNumber];
    assert PrevLogNumbers(edits + [e]) == PrevLogNumbers(edits) + [e.prevLogNumber];
    assert NextFiles(edits + [e]) == NextFiles(edits) + [e.nextFileNumber];
    assert LastSequences(edits + [e]) == LastSequences(edits) + [e.lastSequence];
  }

  // Each number gathered is that of the last edit to have one.
  lemma {:induction false} LatestReplayed(c: Comparator<Bytes>, name: Bytes, edits: seq<Edit>, listings: seq<seq<(nat, nat)>>)
    requires Writes(name, edits, listings)
    ensures var r := Replay(c, name, Encoded(edits, listings)); r.Some? && HasLatest(edits, r.value)
  {
    hide Decode, Applied, EncodeFields, FieldsOf, EditFits, HasLatest, Gather;
    if |edits| > 0 {
      var n := |edits| - 1;
      assert Encoded(edits, listings)[..n] == Encoded(edits[..n], listings[..n]);
      LatestReplayed(c, name, edits[..n], listings[..n]);
      EditRoundTrip(edits[n], listings[n]);
      GatherLatest(c, edits[..n], Replay(c, name, Encoded(edits[..n], listings[..n])).value, edits[n]);
      assert edits[..n] + [edits[n]] == edits;
    } else {
      NoneGathered();
    }
  }

  lemma NoneGathered()
    ensures HasLatest([], Start())
  {
  }

  // The last value there is, looked for from n back.
  lemma {:induction false} LastSome(values: seq<Option<nat>>, n: nat, k: nat) returns (i: nat)
    requires k < n <= |values| && values[k].Some? && forall j :: n <= j < |values| ==> values[j].None?
    ensures i < |values| && values[i].Some? && forall j :: i < j < |values| ==> values[j].None?
    decreases n
  {
    if values[n - 1].Some? {
      i := n - 1;
    } else {
      i := LastSome(values, n - 1, k);
    }
  }

  lemma LastFound(values: seq<Option<nat>>, v: Option<nat>)
    requires IsLast(values, v)
    ensures v.Some? <==> exists i :: 0 <= i < |values| && values[i].Some?
  {
    if k :| 0 <= k < |values| && values[k].Some? {
      var i := LastSome(values, |values|, k);
    }
  }

  // A manifest read to its end is complete just when some edit has a next file number, some a log
  // number and some a last sequence number. The latest of each is what Recover gathers.
  lemma ManifestNumbers(c: Comparator<Bytes>, name: Bytes, crc: Checksum, edits: seq<Edit>, listings: seq<seq<(nat, nat)>>)
    requires Writes(name, edits, listings)
    ensures var r := Replay(c, name, Log.ReadAll(crc, true, Log.Opened(Log.Written(crc, Encoded(edits, listings)))).0);
      && r.Some? && HasLatest(edits, r.value)
      && (Complete(r.value) <==>
            && (exists i :: 0 <= i < |edits| && edits[i].nextFileNumber.Some?)
            && (exists i :: 0 <= i < |edits| && edits[i].logNumber.Some?)
            && (exists i :: 0 <= i < |edits| && edits[i].lastSequence.Some?))
  {
    hide Log.Written, Log.ReadAll, Encoded, EditFits, Replay, IsLast;
    var records := Encoded(edits, listings);
    var file := Log.Written(crc, records);
    assert records[..|records|] == records && file[..|file|] == file;
    Log.CrashPrefix(crc, true, records, |file|, |records|);
    LatestReplayed(c, name, edits, listings);
    var g := Replay(c, name, records).value;
    LastFound(NextFiles(edits), g.nextFile);
    LastFound(LogNumbers(edits), g.logNumber);
    LastFound(LastSequences(edits), g.lastSequence);
    SomeOf(edits);
  }

  lemma SomeOf(edits: seq<Edit>)
    ensures (exists i :: 0 <= i < |edits| && NextFiles(edits)[i].Some?) <==> exists i :: 0 <= i < |edits| && edits[i].nextFileNumber.Some?
    ensures (exists i :: 0 <= i < |edits| && LogNumbers(edits)[i].Some?) <==> exists i :: 0 <= i < |edits| && edits[i].logNumber.Some?
    ensures (exists i :: 0 <= i < |edits| && LastSequences(edits)[i].Some?) <==> exists i :: 0 <= i < |edits| && edits[i].lastSequence.Some?
  {
    assert forall i :: 0 <= i < |edits| ==> NextFiles(edits)[i] == edits[i].nextFileNumber;
    assert forall i :: 0 <= i < |edits| ==> LogNumbers(edits)[i] == edits[i].logNumber;
    assert forall i :: 0 <= i < |edits| ==> LastSequences(edits)[i] == edits[i].lastSequence;
  }

  // A manifest with an edit written under another comparator's name is refused.
  lemma OtherComparatorFails(c: Comparator<Bytes>, name: Bytes, records: seq<Bytes>, k: nat, e: Edit, listing: seq<(nat, nat)>)
    requires k < |records| && EditFits(e) && Lists(listing, e.deletedFiles) && records[k] == EncodeFields(FieldsOf(e, listing))
    requires e.comparator.Some? && e.comparator.value != name
    ensures Replay(c, name, records) == None
  {
    hide Decode, EncodeFields, FieldsOf, EditFits, Gather;
    EditRoundTrip(e, listing);
    assert records[..k + 1][..k] == records[..k];
    assert Replay(c, name, records[..k + 1]).None?;
    ReplayFails(c, name, records[..k + 1], records[k + 1..]);
    assert records[..k + 1] + records[k + 1..] == records;
  }
}
