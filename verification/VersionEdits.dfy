// db/version_edit.cpp: a change to the set of files, as a record of the manifest.
module VersionEdits {
  import opened Options
  import opened Coding
  import opened ByteStrings

  const NUM_LEVELS: nat := 7

  // FileMetaData: the bounds are internal keys.
  datatype FileMeta = FileMeta(number: nat, size: nat, smallest: Bytes, largest: Bytes)

  datatype Edit = Edit(
    comparator: Option<Bytes>,
    logNumber: Option<nat>,
    prevLogNumber: Option<nat>,
    nextFileNumber: Option<nat>,
    lastSequence: Option<nat>,
    compactPointers: seq<(nat, Bytes)>,
    deletedFiles: set<(nat, nat)>,
    newFiles: seq<(nat, FileMeta)>)

  const EMPTY: Edit := Edit(None, None, None, None, None, [], {}, [])

  // One tagged item of an encoded edit.
  datatype Field =
    | Comparator(name: Bytes)
    | LogNumber(number: nat)
    | NextFileNumber(number: nat)
    | LastSequence(number: nat)
    | CompactPointer(level: nat, key: Bytes)
    | DeletedFile(level: nat, number: nat)
    | NewFile(level: nat, file: FileMeta)
    | PrevLogNumber(number: nat)

  predicate FieldFits(f: Field) {
    match f
    case Comparator(name) => |name| < TWO_32
    case CompactPointer(level, key) => level < NUM_LEVELS && |key| < TWO_32
    case DeletedFile(level, number) => level < NUM_LEVELS && number < TWO_64
    case NewFile(level, file) =>
      && level < NUM_LEVELS && file.number < TWO_64 && file.size < TWO_64
      && |file.smallest| < TWO_32 && |file.largest| < TWO_32
    case _ => f.number < TWO_64
  }

  function TagOf(f: Field): nat {
    match f
    case Comparator(_) => 1
    case LogNumber(_) => 2
    case NextFileNumber(_) => 3
    case LastSequence(_) => 4
    case CompactPointer(_, _) => 5
    case DeletedFile(_, _) => 6
    case NewFile(_, _) => 7
    case PrevLogNumber(_) => 9
  }

  function EncodeFile(f: FileMeta): Bytes {
    Varint(f.number) + Varint(f.size) + LengthPrefixed(f.smallest) + LengthPrefixed(f.largest)
  }

  function EncodeBody(f: Field): Bytes {
    match f
    case Comparator(name) => LengthPrefixed(name)
    case CompactPointer(level, key) => Varint(level) + LengthPrefixed(key)
    case DeletedFile(level, number) => Varint(level) + Varint(number)
    case NewFile(level, file) =>
      Varint(level) + EncodeFile(file)
    case _ => Varint(f.number)
  }

  function EncodeField(f: Field): (s: Bytes)
    ensures |s| > 0
  {
    Varint(TagOf(f)) + EncodeBody(f)
  }

  function EncodeFields(fs: seq<Field>): Bytes {
    if |fs| == 0 then [] else EncodeField(fs[0]) + EncodeFields(fs[1..])
  }

  function GetLevel(s: Bytes): (r: Option<(nat, Bytes)>)
    ensures r.Some? ==> |r.value.1| < |s|
  {
    match GetVarint32(s)
    case None => None
    case Some((v, rest)) => if v < NUM_LEVELS then Some((v, rest)) else None
  }

  function ParseNumber(tag: nat, s: Bytes): (r: Option<(Field, Bytes)>)
    ensures r.Some? ==> |r.value.1| < |s|
  {
    match GetVarint64(s)
    case None => None
    case Some((n, rest)) =>
      Some((if tag == 2 then LogNumber(n) else if tag == 9 then PrevLogNumber(n)
            else if tag == 3 then NextFileNumber(n) else LastSequence(n), rest))
  }

  function ParseLeveled(tag: nat, s: Bytes): (r: Option<(Field, Bytes)>)
    ensures r.Some? ==> |r.value.1| < |s|
  {
    match GetLevel(s)
    case None => None
    case Some((level, rest)) =>
      if tag == 5 then
        match GetLengthPrefixed(rest)
        case None => None
        case Some((key, rest')) => Some((CompactPointer(level, key), rest'))
      else if tag == 6 then
        match GetVarint64(rest)
        case None => None
        case Some((n, rest')) => Some((DeletedFile(level, n), rest'))
      else
        match ParseFile(rest)
        case None => None
        case Some((f, rest')) => Some((NewFile(level, f), rest'))
  }

  function ParseFile(s: Bytes): (r: Option<(FileMeta, Bytes)>)
    ensures r.Some? ==> |r.value.1| < |s|
  {
    match GetVarint64(s)
    case None => None
    case Some((number, s1)) =>
      match GetVarint64(s1)
      case None => None
      case Some((size, s2)) =>
        match GetLengthPrefixed(s2)
        case None => None
        case Some((smallest, s3)) =>
          match GetLengthPrefixed(s3)
          case None => None
          case Some((largest, s4)) => Some((FileMeta(number, size, smallest, largest), s4))
  }

  // The item after a tag; None for an unknown tag, or an item cut short.
  function ParseBody(tag: nat, s: Bytes): (r: Option<(Field, Bytes)>)
    ensures r.Some? ==> |r.value.1| < |s|
  {
    if tag == 1 then
      match GetLengthPrefixed(s)
      case None => None
      case Some((name, rest)) => Some((Comparator(name), rest))
    else if tag == 2 || tag == 3 || tag == 4 || tag == 9 then ParseNumber(tag, s)
    else if tag == 5 || tag == 6 || tag == 7 then ParseLeveled(tag, s)
    else None
  }

  lemma ParseBodyInverts(f: Field, rest: Bytes)
    requires FieldFits(f)
    ensures ParseBody(TagOf(f), EncodeBody(f) + rest) == Some((f, rest))
  {
    hide GetVarint64, GetVarint32, GetLengthPrefixed, LengthPrefixed, Varint;
    match f
    case Comparator(name) => LengthPrefixedRoundTrip(name, rest);
    case CompactPointer(level, key) =>
      Varint32RoundTrip(level, LengthPrefixed(key) + rest);
      LengthPrefixedRoundTrip(key, rest);
      assert EncodeBody(f) + rest == Varint(level) + (LengthPrefixed(key) + rest);
    case DeletedFile(level, number) =>
      Varint32RoundTrip(level, Varint(number) + rest);
      Varint64RoundTrip(number, rest);
      assert EncodeBody(f) + rest == Varint(level) + (Varint(number) + rest);
    case NewFile(level, file) =>
      ParseFileInverts(file, rest);
      Varint32RoundTrip(level, EncodeFile(file) + rest);
      assert EncodeBody(f) + rest == Varint(level) + (EncodeFile(file) + rest);
    case _ => Varint64RoundTrip(f.number, rest);
  }

  lemma ParseFileInverts(f: FileMeta, rest: Bytes)
    requires f.number < TWO_64 && f.size < TWO_64 && |f.smallest| < TWO_32 && |f.largest| < TWO_32
    ensures ParseFile(EncodeFile(f) + rest) == Some((f, rest))
  {
    hide GetVarint64, GetLengthPrefixed, LengthPrefixed, Varint;
    var s3 := LengthPrefixed(f.largest) + rest;
    var s2 := LengthPrefixed(f.smallest) + s3;
    var s1 := Varint(f.size) + s2;
    assert EncodeFile(f) + rest == Varint(f.number) + s1;
    Varint64RoundTrip(f.number, s1);
    Varint64RoundTrip(f.size, s2);
    LengthPrefixedRoundTrip(f.smallest, s3);
    LengthPrefixedRoundTrip(f.largest, rest);
  }

  function AddField(e: Edit, f: Field): Edit {
    match f
    case Comparator(name) => e.(comparator := Some(name))
    case LogNumber(n) => e.(logNumber := Some(n))
    case PrevLogNumber(n) => e.(prevLogNumber := Some(n))
    case NextFileNumber(n) => e.(nextFileNumber := Some(n))
    case LastSequence(n) => e.(lastSequence := Some(n))
    case CompactPointer(level, key) => e.(compactPointers := e.compactPointers + [(level, key)])
    case DeletedFile(level, n) => e.(deletedFiles := e.deletedFiles + {(level, n)})
    case NewFile(level, file) => e.(newFiles := e.newFiles + [(level, file)])
  }

  function AddFields(e: Edit, fs: seq<Field>): Edit
    decreases |fs|
  {
    if |fs| == 0 then e else AddFields(AddField(e, fs[0]), fs[1..])
  }

  // DecodeFrom, on an edit that holds e after Clear; None is a corruption.
  function Decode(e: Edit, s: Bytes): Option<Edit>
    decreases |s|
  {
    match GetVarint32(s)
    case None => if |s| == 0 then Some(e) else None
    case Some((tag, rest)) =>
      match ParseBody(tag, rest)
      case None => None
      case Some((f, rest')) => Decode(AddField(e, f), rest')
  }

  lemma {:induction false} DecodeInverts(e: Edit, fs: seq<Field>)
    requires forall i :: 0 <= i < |fs| ==> FieldFits(fs[i])
    ensures Decode(e, EncodeFields(fs)) == Some(AddFields(e, fs))
    decreases |fs|
  {
    hide ParseBody, EncodeBody, FieldFits, AddField, Varint;
    if |fs| == 0 {
      assert GetVarint32([]) == None;
    } else {
      hide GetVarint32;
      var rest := EncodeFields(fs[1..]);
      var f := fs[0];
      Varint32RoundTrip(TagOf(f), EncodeBody(f) + rest);
      assert EncodeFields(fs) == Varint(TagOf(f)) + (EncodeBody(f) + rest);
      ParseBodyInverts(f, rest);
      DecodeInverts(AddField(e, f), fs[1..]);
    }
  }

  // The items EncodeTo writes, listing being the deleted files in the order they are visited.
  function FieldsOf(e: Edit, listing: seq<(nat, nat)>): seq<Field> {
    Header(e) + PointerFields(e.compactPointers) + DeletedFields(listing) + NewFields(e.newFiles)
  }

  function PointerFields(ps: seq<(nat, Bytes)>): (fs: seq<Field>)
    ensures |fs| == |ps|
  {
    seq(|ps|, i requires 0 <= i < |ps| => CompactPointer(ps[i].0, ps[i].1))
  }

  function DeletedFields(ds: seq<(nat, nat)>): (fs: seq<Field>)
    ensures |fs| == |ds|
  {
    seq(|ds|, i requires 0 <= i < |ds| => DeletedFile(ds[i].0, ds[i].1))
  }

  function NewFields(ns: seq<(nat, FileMeta)>): (fs: seq<Field>)
    ensures |fs| == |ns|
  {
    seq(|ns|, i requires 0 <= i < |ns| => NewFile(ns[i].0, ns[i].1))
  }

  function Header(e: Edit): seq<Field> {
    (if e.comparator.Some? then [Comparator(e.comparator.value)] else [])
    + (if e.logNumber.Some? then [LogNumber(e.logNumber.value)] else [])
    + (if e.prevLogNumber.Some? then [PrevLogNumber(e.prevLogNumber.value)] else [])
    + (if e.nextFileNumber.Some? then [NextFileNumber(e.nextFileNumber.value)] else [])
    + (if e.lastSequence.Some? then [LastSequence(e.lastSequence.value)] else [])
  }

  ghost predicate EditFits(e: Edit) {
    && (forall i :: 0 <= i < |Header(e)| ==> FieldFits(Header(e)[i]))
    && (forall i :: 0 <= i < |e.compactPointers| ==> e.compactPointers[i].0 < NUM_LEVELS && |e.compactPointers[i].1| < TWO_32)
    && (forall d :: d in e.deletedFiles ==> d.0 < NUM_LEVELS && d.1 < TWO_64)
    && (forall i :: 0 <= i < |e.newFiles| ==> FieldFits(NewFile(e.newFiles[i].0, e.newFiles[i].1)))
  }

  ghost predicate Lists(listing: seq<(nat, nat)>, files: set<(nat, nat)>) {
    files == set d | d in listing
  }

  lemma {:induction false} AddFieldsConcat(e: Edit, a: seq<Field>, b: seq<Field>)
    ensures AddFields(e, a + b) == AddFields(AddFields(e, a), b)
    decreases |a|
  {
    hide AddField;
    if |a| == 0 {
      assert a + b == b;
    } else {
      assert (a + b)[1..] == a[1..] + b;
      AddFieldsConcat(AddField(e, a[0]), a[1..], b);
    }
  }

  lemma {:induction false} AddPointers(e: Edit, ps: seq<(nat, Bytes)>)
    ensures AddFields(e, PointerFields(ps)) == e.(compactPointers := e.compactPointers + ps)
    decreases |ps|
  {
    if |ps| > 0 {
      assert PointerFields(ps)[1..] == PointerFields(ps[1..]);
      AddPointers(AddField(e, PointerFields(ps)[0]), ps[1..]);
      assert e.compactPointers + [(ps[0].0, ps[0].1)] + ps[1..] == e.compactPointers + ps;
    } else {
      assert e.compactPointers + ps == e.compactPointers;
    }
  }

  lemma {:induction false} AddDeleted(e: Edit, ds: seq<(nat, nat)>, files: set<(nat, nat)>)
    requires Lists(ds, files)
    ensures AddFields(e, DeletedFields(ds)) == e.(deletedFiles := e.deletedFiles + files)
    decreases |ds|
  {
    if |ds| > 0 {
      assert DeletedFields(ds)[1..] == DeletedFields(ds[1..]);
      var rest := set d | d in ds[1..];
      assert files == {(ds[0].0, ds[0].1)} + rest;
      AddDeleted(AddField(e, DeletedFields(ds)[0]), ds[1..], rest);
      assert e.deletedFiles + {(ds[0].0, ds[0].1)} + rest == e.deletedFiles + files;
    } else {
      assert e.deletedFiles + files == e.deletedFiles;
    }
  }

  lemma {:induction false} AddNews(e: Edit, ns: seq<(nat, FileMeta)>)
    ensures AddFields(e, NewFields(ns)) == e.(newFiles := e.newFiles + ns)
    decreases |ns|
  {
    if |ns| > 0 {
      assert NewFields(ns)[1..] == NewFields(ns[1..]);
      AddNews(AddField(e, NewFields(ns)[0]), ns[1..]);
      assert e.newFiles + [(ns[0].0, ns[0].1)] + ns[1..] == e.newFiles + ns;
    } else {
      assert e.newFiles + ns == e.newFiles;
    }
  }

  lemma AddHeader(e: Edit)
    ensures AddFields(EMPTY, Header(e)) == e.(compactPointers := [], deletedFiles := {}, newFiles := [])
  {
    var a := if e.comparator.Some? then [Comparator(e.comparator.value)] else [];
    var b := if e.logNumber.Some? then [LogNumber(e.logNumber.value)] else [];
    var p := if e.prevLogNumber.Some? then [PrevLogNumber(e.prevLogNumber.value)] else [];
    var n := if e.nextFileNumber.Some? then [NextFileNumber(e.nextFileNumber.value)] else [];
    var l := if e.lastSequence.Some? then [LastSequence(e.lastSequence.value)] else [];
    AddFieldsConcat(EMPTY, a + b + p + n, l);
    AddFieldsConcat(EMPTY, a + b + p, n);
    AddFieldsConcat(EMPTY, a + b, p);
    AddFieldsConcat(EMPTY, a, b);
  }

  // An edit read back is the edit written, whatever order its deleted files were visited in.
  lemma EditRoundTrip(e: Edit, listing: seq<(nat, nat)>)
    requires EditFits(e) && Lists(listing, e.deletedFiles)
    ensures Decode(EMPTY, EncodeFields(FieldsOf(e, listing))) == Some(e)
  {
    hide Header, AddFields, PointerFields, NewFields, DeletedFields, Decode, EncodeFields;
    var h, p, d, n := Header(e), PointerFields(e.compactPointers), DeletedFields(listing), NewFields(e.newFiles);
    AddFieldsConcat(EMPTY, h + p + d, n);
    AddFieldsConcat(EMPTY, h + p, d);
    AddFieldsConcat(EMPTY, h, p);
    AddHeader(e);
    var e0 := e.(compactPointers := [], deletedFiles := {}, newFiles := []);
    AddPointers(e0, e.compactPointers);
    assert [] + e.compactPointers == e.compactPointers && [] + e.newFiles == e.newFiles;
    assert {} + e.deletedFiles == e.deletedFiles;
    var e1 := e0.(compactPointers := e.compactPointers);
    assert AddFields(EMPTY, h + p) == e1;
    AddDeleted(e1, listing, e.deletedFiles);
    var e2 := e1.(deletedFiles := e.deletedFiles);
    assert AddFields(EMPTY, h + p + d) == e2;
    AddNews(e2, e.newFiles);
    assert e2.(newFiles := e.newFiles) == e;
    AllFieldsFit(e, listing);
    DecodeInverts(EMPTY, FieldsOf(e, listing));
  }

  lemma AllFieldsFit(e: Edit, listing: seq<(nat, nat)>)
    requires EditFits(e) && Lists(listing, e.deletedFiles)
    ensures forall i :: 0 <= i < |FieldsOf(e, listing)| ==> FieldFits(FieldsOf(e, listing)[i])
  {
    hide Header;
    assert forall i :: 0 <= i < |listing| ==> listing[i] in e.deletedFiles;
    assert forall f :: f in DeletedFields(listing) ==> FieldFits(f);
    assert forall f :: f in PointerFields(e.compactPointers) ==> FieldFits(f);
    assert forall f :: f in NewFields(e.newFiles) ==> FieldFits(f);
    assert forall f :: f in Header(e) ==> FieldFits(f);
    assert forall f :: f in FieldsOf(e, listing) ==> FieldFits(f);
  }

  class VersionEdit {
    var comparator: Option<Bytes>
    var logNumber: Option<nat>
    var prevLogNumber: Option<nat>
    var nextFileNumber: Option<nat>
    var lastSequence: Option<nat>
    var compactPointers: seq<(nat, Bytes)>
    var deletedFiles: set<(nat, nat)>
    var newFiles: seq<(nat, FileMeta)>

    constructor ()
      ensures State() == EMPTY
    {
      comparator, logNumber, prevLogNumber, nextFileNumber, lastSequence := None, None, None, None, None;
      compactPointers, deletedFiles, newFiles := [], {}, [];
    }

    function State(): Edit
      reads this
    {
      Edit(comparator, logNumber, prevLogNumber, nextFileNumber, lastSequence, compactPointers, deletedFiles, newFiles)
    }

    // The compaction pointers stay.
    method Clear()
      modifies this
      ensures State() == EMPTY.(compactPointers := old(compactPointers))
    {
      comparator, logNumber, prevLogNumber, nextFileNumber, lastSequence := None, None, None, None, None;
      deletedFiles, newFiles := {}, [];
    }

    method EncodeTo() returns (dst: Bytes, ghost listing: seq<(nat, nat)>)
      ensures Lists(listing, deletedFiles) && dst == EncodeFields(FieldsOf(State(), listing))
    {
      dst := EncodeHeader();
      ghost var fs := Header(State());
      fs, dst := AppendPointers(fs, dst);
      fs, dst, listing := AppendDeleted(fs, dst);
      fs, dst := AppendNews(fs, dst);
    }

    method EncodeHeader() returns (dst: Bytes)
      ensures dst == EncodeFields(Header(State()))
    {
      hide EncodeField, EncodeFields;
      dst := [];
      ghost var fs: seq<Field> := [];
      EncodeNone();
      if comparator.Some? {
        fs, dst := Put(fs, dst, Comparator(comparator.value));
      }
      if logNumber.Some? {
        fs, dst := Put(fs, dst, LogNumber(logNumber.value));
      }
      if prevLogNumber.Some? {
        fs, dst := Put(fs, dst, PrevLogNumber(prevLogNumber.value));
      }
      if nextFileNumber.Some? {
        fs, dst := Put(fs, dst, NextFileNumber(nextFileNumber.value));
      }
      if lastSequence.Some? {
        fs, dst := Put(fs, dst, LastSequence(lastSequence.value));
      }
      assert fs == Header(State());
    }

    static method Put(ghost fs: seq<Field>, dst: Bytes, f: Field) returns (ghost fs': seq<Field>, dst': Bytes)
      requires dst == EncodeFields(fs)
      ensures fs' == fs + [f] && dst' == EncodeFields(fs')
    {
      EncodeNext(fs, f);
      fs' := fs + [f];
      dst' := dst + EncodeField(f);
    }

    method AppendPointers(ghost fs: seq<Field>, dst: Bytes) returns (ghost fs': seq<Field>, dst': Bytes)
      requires dst == EncodeFields(fs)
      ensures fs' == fs + PointerFields(compactPointers) && dst' == EncodeFields(fs')
    {
      hide EncodeFields;
      fs', dst' := fs, dst;
      for i := 0 to |compactPointers|
        invariant fs' == fs + PointerFields(compactPointers)[..i] && dst' == EncodeFields(fs')
      {
        var (level, key) := compactPointers[i];
        fs', dst' := Put(fs', dst', CompactPointer(level, key));
      }
    }

    method AppendDeleted(ghost fs: seq<Field>, dst: Bytes)
      returns (ghost fs': seq<Field>, dst': Bytes, ghost listing: seq<(nat, nat)>)
      requires dst == EncodeFields(fs)
      ensures Lists(listing, deletedFiles) && fs' == fs + DeletedFields(listing) && dst' == EncodeFields(fs')
    {
      hide EncodeFields;
      fs', dst', listing := fs, dst, [];
      var left := deletedFiles;
      while left != {}
        invariant left <= deletedFiles && Lists(listing, deletedFiles - left)
        invariant fs' == fs + DeletedFields(listing) && dst' == EncodeFields(fs')
        decreases left
      {
        var d :| d in left;
        assert DeletedFields(listing + [d]) == DeletedFields(listing) + [DeletedFile(d.0, d.1)];
        fs', dst' := Put(fs', dst', DeletedFile(d.0, d.1));
        ListsNext(listing, deletedFiles - left, d);
        listing := listing + [d];
        left := left - {d};
        assert deletedFiles - left == deletedFiles - (left + {d}) + {d};
      }
    }

    method AppendNews(ghost fs: seq<Field>, dst: Bytes) returns (ghost fs': seq<Field>, dst': Bytes)
      requires dst == EncodeFields(fs)
      ensures fs' == fs + NewFields(newFiles) && dst' == EncodeFields(fs')
    {
      hide EncodeFields;
      fs', dst' := fs, dst;
      for i := 0 to |newFiles|
        invariant fs' == fs + NewFields(newFiles)[..i] && dst' == EncodeFields(fs')
      {
        var (level, f) := newFiles[i];
        fs', dst' := Put(fs', dst', NewFile(level, f));
      }
    }

    method DecodeFrom(src: Bytes) returns (ok: bool)
      modifies this
      ensures match Decode(EMPTY.(compactPointers := old(compactPointers)), src)
              case None => !ok
              case Some(e) => ok && State() == e
    {
      Clear();
      hide ParseBody, GetVarint32;
      var input := src;
      ghost var start := State();
      while true
        invariant Decode(State(), input) == Decode(start, src)
        decreases |input|
      {
        var tag := GetVarint32(input);
        if tag.None? {
          return |input| == 0;
        }
        var item := ParseBody(tag.value.0, tag.value.1);
        if item.None? {
          return false;
        }
        ghost var before := State();
        Set(item.value.0);
        input := item.value.1;
      }
    }

    method Set(f: Field)
      modifies this
      ensures State() == AddField(old(State()), f)
    {
      match f
      case Comparator(name) => comparator := Some(name);
      case LogNumber(n) => logNumber := Some(n);
      case PrevLogNumber(n) => prevLogNumber := Some(n);
      case NextFileNumber(n) => nextFileNumber := Some(n);
      case LastSequence(n) => lastSequence := Some(n);
      case CompactPointer(level, key) => compactPointers := compactPointers + [(level, key)];
      case DeletedFile(level, n) => deletedFiles := deletedFiles + {(level, n)};
      case NewFile(level, file) => newFiles := newFiles + [(level, file)];
    }
  }

  lemma ListsNext(listing: seq<(nat, nat)>, files: set<(nat, nat)>, d: (nat, nat))
    requires Lists(listing, files)
    ensures Lists(listing + [d], files + {d})
  {
  }

  lemma EncodeNone()
    ensures EncodeFields([]) == []
  {
  }

  lemma {:induction false} EncodeNext(fs: seq<Field>, f: Field)
    ensures EncodeFields(fs + [f]) == EncodeFields(fs) + EncodeField(f)
  {
    hide EncodeField;
    if |fs| > 0 {
      assert (fs + [f])[1..] == fs[1..] + [f];
      EncodeNext(fs[1..], f);
    }
  }

  // ---- The format, and damaged edits ----

  // Each field begins with its tag. Small numbers take one byte.
  lemma NumberLayout(level: nat, n: nat)
    requires level < NUM_LEVELS && n < 128
    ensures EncodeField(LogNumber(n)) == [2, n] && EncodeField(NextFileNumber(n)) == [3, n]
    ensures EncodeField(LastSequence(n)) == [4, n] && EncodeField(PrevLogNumber(n)) == [9, n]
    ensures EncodeField(DeletedFile(level, n)) == [6, level, n]
  {
  }

  lemma KeyLayout(level: nat, key: Bytes)
    requires level < NUM_LEVELS
    ensures EncodeField(Comparator(key)) == [1] + LengthPrefixed(key)
    ensures EncodeField(CompactPointer(level, key)) == [5] + ([level] + LengthPrefixed(key))
    ensures |key| < 128 ==> LengthPrefixed(key) == [|key|] + key
  {
    assert |key| < 128 ==> Varint(|key|) == [|key|];
    hide LengthPrefixed;
  }

  lemma FileLayout(level: nat, f: FileMeta)
    requires level < NUM_LEVELS && f.number < 128 && f.size < 128
    ensures EncodeField(NewFile(level, f))
         == [7] + ([level] + ([f.number] + [f.size] + LengthPrefixed(f.smallest) + LengthPrefixed(f.largest)))
  {
    hide LengthPrefixed;
  }

  // An unknown tag makes the edit corrupt, and so does a level there is not.
  lemma UnknownIsCorrupt(e: Edit, tag: nat, rest: Bytes)
    requires tag < 128 && tag !in {1, 2, 3, 4, 5, 6, 7, 9}
    ensures Decode(e, [tag] + rest) == None
  {
    assert Varint(tag) + rest == [tag] + rest;
    Varint32RoundTrip(tag, rest);
  }

  lemma NoSuchLevel(e: Edit, tag: nat, level: nat, rest: Bytes)
    requires tag in {5, 6, 7} && 7 <= level < TWO_32
    ensures Decode(e, [tag] + (Varint(level) + rest)) == None
  {
    hide GetVarint32, GetVarint64, GetLengthPrefixed;
    var more := Varint(level) + rest;
    assert Varint(tag) + more == [tag] + more;
    Varint32RoundTrip(tag, more);
    Varint32RoundTrip(level, rest);
  }

  // x is read off the front of anything, but not off a part of itself.
  ghost predicate ReadsWhole<T>(get: Bytes -> Option<(T, Bytes)>, x: T, s: Bytes) {
    && (forall rest :: get(s + rest) == Some((x, rest)))
    && (forall m :: 0 <= m < |s| ==> get(s[..m]) == None)
  }

  lemma Varint32ReadsWhole(v: nat)
    requires v < TWO_32
    ensures ReadsWhole((s: Bytes) => GetVarint32(s), v, Varint(v))
  {
    hide Varint, ReadVarint;
    forall rest ensures GetVarint32(Varint(v) + rest) == Some((v, rest)) {
      Varint32RoundTrip(v, rest);
    }
    forall m | 0 <= m < |Varint(v)| ensures GetVarint32(Varint(v)[..m]) == None {
      CutVarint(v, 5, TWO_32, 1, 0, m);
    }
  }

  lemma Varint64ReadsWhole(v: nat)
    requires v < TWO_64
    ensures ReadsWhole((s: Bytes) => GetVarint64(s), v, Varint(v))
  {
    hide Varint, ReadVarint;
    forall rest ensures GetVarint64(Varint(v) + rest) == Some((v, rest)) {
      Varint64RoundTrip(v, rest);
    }
    forall m | 0 <= m < |Varint(v)| ensures GetVarint64(Varint(v)[..m]) == None {
      CutVarint(v, 10, TWO_64, 1, 0, m);
    }
  }

  lemma PrefixReadsWhole(x: Bytes)
    requires |x| < TWO_32
    ensures ReadsWhole((s: Bytes) => GetLengthPrefixed(s), x, LengthPrefixed(x))
  {
    hide LengthPrefixed, GetLengthPrefixed;
    forall rest ensures GetLengthPrefixed(LengthPrefixed(x) + rest) == Some((x, rest)) {
      LengthPrefixedRoundTrip(x, rest);
    }
    forall m | 0 <= m < |LengthPrefixed(x)| ensures GetLengthPrefixed(LengthPrefixed(x)[..m]) == None {
      CutLengthPrefixed(x, m);
    }
  }

  // Two in a row, cut off.
  lemma CutPair(a: Bytes, b: Bytes, m: nat)
    requires m < |a + b|
    ensures if m < |a| then (a + b)[..m] == a[..m] else (a + b)[..m] == a + b[..m - |a|] && m - |a| < |b|
  {
  }

  lemma CutFile(f: FileMeta, m: nat)
    requires f.number < TWO_64 && f.size < TWO_64 && |f.smallest| < TWO_32 && |f.largest| < TWO_32 && m < |EncodeFile(f)|
    ensures ParseFile(EncodeFile(f)[..m]) == None
  {
    hide Varint, LengthPrefixed, GetVarint64, GetLengthPrefixed;
    var a, b, d, e := Varint(f.number), Varint(f.size), LengthPrefixed(f.smallest), LengthPrefixed(f.largest);
    assert EncodeFile(f) == a + (b + (d + e));
    Varint64ReadsWhole(f.number);
    Varint64ReadsWhole(f.size);
    PrefixReadsWhole(f.smallest);
    PrefixReadsWhole(f.largest);
    CutPair(a, b + (d + e), m);
    if m >= |a| {
      CutPair(b, d + e, m - |a|);
      if m >= |a| + |b| {
        CutPair(d, e, m - |a| - |b|);
      }
    }
  }

  lemma CutBody(f: Field, m: nat)
    requires FieldFits(f) && m < |EncodeBody(f)|
    ensures ParseBody(TagOf(f), EncodeBody(f)[..m]) == None
  {
    hide Varint, LengthPrefixed, GetVarint32, GetVarint64, GetLengthPrefixed, ParseFile, EncodeFile;
    match f
    case Comparator(name) => PrefixReadsWhole(name);
    case CompactPointer(level, key) =>
      Varint32ReadsWhole(level);
      PrefixReadsWhole(key);
      CutPair(Varint(level), LengthPrefixed(key), m);
    case DeletedFile(level, number) =>
      Varint32ReadsWhole(level);
      Varint64ReadsWhole(number);
      CutPair(Varint(level), Varint(number), m);
    case NewFile(level, file) =>
      Varint32ReadsWhole(level);
      CutPair(Varint(level), EncodeFile(file), m);
      if m >= |Varint(level)| {
        CutFile(file, m - |Varint(level)|);
      }
    case _ => Varint64ReadsWhole(f.number);
  }

  // An edit cut off inside a field is corrupt.
  lemma {:induction false} CutEditIsCorrupt(e: Edit, fs: seq<Field>, f: Field, m: nat)
    requires (forall i :: 0 <= i < |fs| ==> FieldFits(fs[i])) && FieldFits(f) && 0 < m < |EncodeField(f)|
    ensures Decode(e, EncodeFields(fs) + EncodeField(f)[..m]) == None
    decreases |fs|
  {
    hide Varint, EncodeBody, ParseBody, GetVarint32, AddField;
    if |fs| == 0 {
      var tag := Varint(TagOf(f));
      Varint32ReadsWhole(TagOf(f));
      CutPair(tag, EncodeBody(f), m);
      assert EncodeFields(fs) + EncodeField(f)[..m] == EncodeField(f)[..m];
      if m >= |tag| {
        CutBody(f, m - |tag|);
      }
    } else {
      var rest := EncodeFields(fs[1..]) + EncodeField(f)[..m];
      var body := EncodeBody(fs[0]) + rest;
      assert EncodeFields(fs) + EncodeField(f)[..m] == Varint(TagOf(fs[0])) + body;
      Varint32RoundTrip(TagOf(fs[0]), body);
      ParseBodyInverts(fs[0], rest);
      CutEditIsCorrupt(AddField(e, fs[0]), fs[1..], f, m);
    }
  }
}
