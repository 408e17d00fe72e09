// db/skiplist.h with one writer and lock-free readers: every load and every store of a link
// or of max_height_ is one atomic step, in any interleaving.
module ConcurrentSkipList {
  import opened Options
  import opened Ordering

  const MAX_HEIGHT: nat := 12

  // The immutable part of a node. Node 0 is head_, whose key is never looked at.
  datatype Node<+K> = Node(key: Option<K>, height: nat)

  // Where Insert stands. prev[l] is the node after which the new one goes at level l.
  datatype Writer<+K> =
    | Idle
    | Searching(key: K, x: nat, level: nat, prev: seq<nat>)   // in FindGreaterOrEqual(key, prev)
    | Searched(key: K, prev: seq<nat>)                        // before the max_height_ store
    | Raised(key: K, height: nat, prev: seq<nat>)             // before NewNode
    | Linking(id: nat, prev: seq<nat>, level: nat, own: bool) // own: the node's own link is stored

  // FindGreaterOrEqual(key), FindLessThan(key), FindLast()
  datatype Goal<+K> = GreaterOrEqual(key: K) | LessThan(key: K) | Last

  // A reader: a search, or a scan with Iterator::Next from the first node or from one that a
  // search for `from` found. `since` is the level-0 list when it started, `seen` the one at its
  // last load, `yielded` the nodes the scan has stood at.
  datatype Reader<+K> =
    | Started(goal: Goal<K>, since: set<nat>)
    | Descending(goal: Goal<K>, x: nat, level: nat, since: set<nat>)
    | Done(goal: Goal<K>, result: Option<nat>, since: set<nat>, seen: set<nat>)
    | Scanning(from: Option<K>, x: nat, yielded: seq<nat>, since: set<nat>)
    | Scanned(from: Option<K>, yielded: seq<nat>, since: set<nat>, seen: set<nat>)

  // next_[l] of node x is cells[(x, l)]; a cell outside the map was never stored.
  datatype State<K> = State(nodes: seq<Node<K>>, cells: map<(nat, nat), Option<nat>>, maxHeight: nat,
                            writer: Writer<K>, readers: map<nat, Reader<K>>)

  // x is in the list of level l: it reaches that high and has been published there.
  ghost predicate InLevel<K>(s: State<K>, l: nat, x: nat) {
    && 0 < x < |s.nodes| && l < s.nodes[x].height
    && (s.writer.Linking? && s.writer.id == x ==> l < s.writer.level)
  }

  ghost function Level0<K>(s: State<K>): set<nat> {
    set x | 0 <= x < |s.nodes| && InLevel(s, 0, x)
  }

  // Node x sorts before key k; head_ sorts before all keys.
  ghost predicate NodeBefore<K>(c: Comparator<K>, nodes: seq<Node<K>>, x: nat, k: K) {
    x < |nodes| && (x == 0 || (nodes[x].key.Some? && Lt(c, nodes[x].key.value, k)))
  }

  ghost predicate Before<K>(c: Comparator<K>, nodes: seq<Node<K>>, x: nat, y: nat) {
    0 < y < |nodes| && nodes[y].key.Some? && NodeBefore(c, nodes, x, nodes[y].key.value)
  }

  // The link of x at level l leads to the nearest later node of that level.
  ghost predicate LinkRight<K>(c: Comparator<K>, s: State<K>, l: nat, x: nat) {
    && (x, l) in s.cells
    && match s.cells[(x, l)]
       case None => forall z :: InLevel(s, l, z) ==> !Before(c, s.nodes, x, z)
       case Some(y) =>
         && InLevel(s, l, y) && Before(c, s.nodes, x, y)
         && forall z :: InLevel(s, l, z) && Before(c, s.nodes, x, z) ==> z == y || Before(c, s.nodes, y, z)
  }

  // p is the last node of level l before key k.
  ghost predicate IsPred<K>(c: Comparator<K>, s: State<K>, l: nat, k: K, p: nat) {
    && (p == 0 || InLevel(s, l, p)) && NodeBefore(c, s.nodes, p, k)
    && forall z :: InLevel(s, l, z) && NodeBefore(c, s.nodes, z, k) ==> !Before(c, s.nodes, p, z)
  }

  ghost predicate NodesOk<K>(c: Comparator<K>, nodes: seq<Node<K>>) {
    && |nodes| > 0 && nodes[0].height == MAX_HEIGHT
    && (forall x :: 0 < x < |nodes| ==> nodes[x].key.Some? && 1 <= nodes[x].height <= MAX_HEIGHT)
    && (forall x, y :: 0 < x < y < |nodes| ==> nodes[x].key != nodes[y].key)
  }

  ghost predicate NewKey<K>(nodes: seq<Node<K>>, k: K) {
    forall x :: 0 < x < |nodes| ==> nodes[x].key != Some(k)
  }

  ghost predicate Preds<K>(c: Comparator<K>, s: State<K>, k: K, from: nat, to: nat, prev: seq<nat>) {
    |prev| == MAX_HEIGHT && to <= MAX_HEIGHT && forall l :: from <= l < to ==> IsPred(c, s, l, k, prev[l])
  }

  ghost predicate WriterOk<K>(c: Comparator<K>, s: State<K>) {
    match s.writer
    case Idle => true
    case Searching(k, x, level, prev) =>
      && NewKey(s.nodes, k) && level < s.maxHeight && Preds(c, s, k, level + 1, s.maxHeight, prev)
      && (x == 0 || InLevel(s, level, x)) && NodeBefore(c, s.nodes, x, k)
    case Searched(k, prev) => NewKey(s.nodes, k) && Preds(c, s, k, 0, s.maxHeight, prev)
    case Raised(k, height, prev) =>
      NewKey(s.nodes, k) && 1 <= height <= s.maxHeight && Preds(c, s, k, 0, height, prev)
    case Linking(id, prev, level, own) =>
      && 0 < id < |s.nodes| && s.nodes[id].key.Some? && level < s.nodes[id].height
      && Preds(c, s, s.nodes[id].key.value, level, s.nodes[id].height, prev)
      && (own ==> (id, level) in s.cells && (prev[level], level) in s.cells
                  && s.cells[(id, level)] == s.cells[(prev[level], level)])
  }

  ghost predicate ListsOk<K>(c: Comparator<K>, s: State<K>) {
    && 1 <= s.maxHeight <= MAX_HEIGHT
    && (forall x :: 0 < x < |s.nodes| ==> s.nodes[x].height <= s.maxHeight)
    && (forall l, x :: 0 <= l < MAX_HEIGHT && (x == 0 || InLevel(s, l, x)) ==> LinkRight(c, s, l, x))
  }

  // x satisfies the search condition "go on past it".
  ghost predicate Past<K>(c: Comparator<K>, nodes: seq<Node<K>>, goal: Goal<K>, x: nat) {
    if goal.Last? then x < |nodes| else NodeBefore(c, nodes, x, goal.key)
  }

  // What a finished search returned, judged against the list `seen`.
  ghost predicate Answers<K>(c: Comparator<K>, nodes: seq<Node<K>>, goal: Goal<K>, result: Option<nat>, seen: set<nat>) {
    match goal
    case GreaterOrEqual(k) =>
      (match result
       case None => forall z :: z in seen ==> NodeBefore(c, nodes, z, k)
       case Some(y) =>
         && y in seen && !NodeBefore(c, nodes, y, k)
         && forall z :: z in seen && !NodeBefore(c, nodes, z, k) ==> z == y || Before(c, nodes, y, z))
    case LessThan(k) =>
      && result.Some? && (result.value == 0 || result.value in seen) && NodeBefore(c, nodes, result.value, k)
      && forall z :: z in seen && NodeBefore(c, nodes, z, k) ==> !Before(c, nodes, result.value, z)
    case Last =>
      && result.Some? && (result.value == 0 || result.value in seen)
      && forall z :: z in seen ==> !Before(c, nodes, result.value, z)
  }

  ghost predicate ReaderOk<K>(c: Comparator<K>, s: State<K>, r: Reader<K>) {
    match r
    case Started(_, since) => since <= Level0(s)
    case Descending(goal, x, level, since) =>
      && since <= Level0(s) && level < MAX_HEIGHT
      && (x == 0 || InLevel(s, level, x)) && Past(c, s.nodes, goal, x)
    case Done(goal, result, since, seen) =>
      since <= seen <= Level0(s) && Answers(c, s.nodes, goal, result, seen)
    case Scanning(from, x, yielded, since) =>
      && since <= Level0(s) && (x == 0 || InLevel(s, 0, x))
      && (if yielded == [] then x == 0 && from == None else x == yielded[|yielded| - 1])
      && InOrder(c, s.nodes, from, yielded) && (forall y :: y in yielded ==> y in Level0(s))
      && (forall z :: z in since && FromOn(c, s.nodes, from, z) && !Before(c, s.nodes, x, z) ==> z in yielded)
    case Scanned(from, yielded, since, seen) =>
      && since <= seen <= Level0(s)
      && InOrder(c, s.nodes, from, yielded) && (forall y :: y in yielded ==> y in seen)
      && (forall z :: z in since && FromOn(c, s.nodes, from, z) ==> z in yielded)
  }

  // A scan from this key has to yield node z.
  ghost predicate FromOn<K>(c: Comparator<K>, nodes: seq<Node<K>>, from: Option<K>, z: nat) {
    from.Some? ==> !NodeBefore(c, nodes, z, from.value)
  }

  ghost predicate InOrder<K>(c: Comparator<K>, nodes: seq<Node<K>>, from: Option<K>, yielded: seq<nat>) {
    && (forall i, j :: 0 <= i < j < |yielded| ==> Before(c, nodes, yielded[i], yielded[j]))
    && (forall y :: y in yielded ==> 0 < y < |nodes| && FromOn(c, nodes, from, y))
  }

  ghost predicate Inv<K>(c: Comparator<K>, s: State<K>) {
    && NodesOk(c, s.nodes) && ListsOk(c, s) && WriterOk(c, s)
    && forall r :: r in s.readers ==> ReaderOk(c, s, s.readers[r])
  }

  ghost predicate Init<K>(s: State<K>) {
    && s.nodes == [Node(None, MAX_HEIGHT)] && s.maxHeight == 1 && s.writer == Idle && s.readers == map[]
    && (forall l :: 0 <= l < MAX_HEIGHT ==> (0, l) in s.cells && s.cells[(0, l)] == None)
  }

  datatype Step<+K> =
    | Insert(key: K)
    | LoadForInsert
    | Raise(height: nat)
    | Allocate
    | StoreOwn
    | Publish
    | Start(reader: nat, goal: Goal<K>)
    | LoadHeight(reader: nat)
    | Load(reader: nat)
    | ScanFirst(reader: nat)
    | ScanFound(reader: nat)
    | LoadNext(reader: nat)

  ghost predicate Next<K>(c: Comparator<K>, s: State<K>, step: Step<K>, t: State<K>) {
    match step
    case Insert(k) =>
      // no equal key may be present; prev is uninitialised memory until the search fills it
      && s.writer == Idle && NewKey(s.nodes, k) && s.maxHeight > 0
      && t == s.(writer := Searching(k, 0, s.maxHeight - 1, seq(MAX_HEIGHT, _ => 0)))
    case LoadForInsert =>
      && s.writer.Searching?
      && var w := s.writer;
      && (w.x, w.level) in s.cells && w.level < |w.prev|
      && var next := s.cells[(w.x, w.level)];
      && t == s.(writer :=
           if next.Some? && NodeBefore(c, s.nodes, next.value, w.key) then w.(x := next.value)
           else if w.level > 0 then Searching(w.key, w.x, w.level - 1, w.prev[w.level := w.x])
           else Searched(w.key, w.prev[w.level := w.x]))
    case Raise(height) =>
      // RandomHeight(); levels not in use yet start at head_
      && s.writer.Searched? && 1 <= height <= MAX_HEIGHT && |s.writer.prev| == MAX_HEIGHT
      && t == s.(maxHeight := if height > s.maxHeight then height else s.maxHeight,
                 writer := Raised(s.writer.key, height,
                   seq(MAX_HEIGHT, l requires 0 <= l < MAX_HEIGHT =>
                     if s.maxHeight <= l < height then 0 else s.writer.prev[l])))
    case Allocate =>
      && s.writer.Raised?
      && t == s.(nodes := s.nodes + [Node(Some(s.writer.key), s.writer.height)],
                 writer := Linking(|s.nodes|, s.writer.prev, 0, false))
    case StoreOwn =>
      && s.writer.Linking? && !s.writer.own && s.writer.level < |s.writer.prev|
      && (s.writer.prev[s.writer.level], s.writer.level) in s.cells
      && t == s.(cells := s.cells[(s.writer.id, s.writer.level) := s.cells[(s.writer.prev[s.writer.level], s.writer.level)]],
                 writer := s.writer.(own := true))
    case Publish =>
      && s.writer.Linking? && s.writer.own && s.writer.level < |s.writer.prev| && s.writer.id < |s.nodes|
      && t == s.(cells := s.cells[(s.writer.prev[s.writer.level], s.writer.level) := Some(s.writer.id)],
                 writer := if s.writer.level + 1 < s.nodes[s.writer.id].height
                           then s.writer.(level := s.writer.level + 1, own := false) else Idle)
    case Start(r, goal) =>
      && MayStart(s, r)
      && t == s.(readers := s.readers[r := Started(goal, Level0(s))])
    case LoadHeight(r) =>
      && r in s.readers && s.readers[r].Started? && s.maxHeight > 0
      && t == s.(readers := s.readers[r := Descending(s.readers[r].goal, 0, s.maxHeight - 1, s.readers[r].since)])
    case Load(r) =>
      && r in s.readers && s.readers[r].Descending?
      && var d := s.readers[r];
      && (d.x, d.level) in s.cells
      && var next := s.cells[(d.x, d.level)];
      && t == s.(readers := s.readers[r :=
           if next.Some? && Past(c, s.nodes, d.goal, next.value) then Descending(d.goal, next.value, d.level, d.since)
           else if d.level > 0 then Descending(d.goal, d.x, d.level - 1, d.since)
           else Done(d.goal, if d.goal.GreaterOrEqual? then next else Some(d.x), d.since, Level0(s))])
    case ScanFirst(r) =>
      // SeekToFirst, whose load is the first LoadNext
      && MayStart(s, r)
      && t == s.(readers := s.readers[r := Scanning(None, 0, [], Level0(s))])
    case ScanFound(r) =>
      && r in s.readers && s.readers[r].Done? && s.readers[r].goal.GreaterOrEqual? && s.readers[r].result.Some?
      && var d := s.readers[r];
      && t == s.(readers := s.readers[r := Scanning(Some(d.goal.key), d.result.value, [d.result.value], d.since)])
    case LoadNext(r) =>
      && r in s.readers && s.readers[r].Scanning?
      && var d := s.readers[r];
      && (d.x, 0) in s.cells
      && t == s.(readers := s.readers[r :=
           match s.cells[(d.x, 0)]
           case Some(y) => Scanning(d.from, y, d.yielded + [y], d.since)
           case None => Scanned(d.from, d.yielded, d.since, Level0(s))])
  }

  predicate MayStart<K>(s: State<K>, r: nat) {
    r in s.readers ==> s.readers[r].Done? || s.readers[r].Scanned?
  }

  predicate ReaderStep<K>(step: Step<K>) {
    step.Start? || step.LoadHeight? || step.Load? || step.ScanFirst? || step.ScanFound? || step.LoadNext?
  }

  // What the proof of one step needs when no list changes.
  ghost predicate SameLists<K>(s: State<K>, t: State<K>) {
    && s.nodes <= t.nodes && s.maxHeight <= t.maxHeight
    && (forall l: nat, x: nat :: InLevel(s, l, x) <==> InLevel(t, l, x))
    && (forall l: nat, x: nat :: (x == 0 || InLevel(s, l, x)) && (x, l) in s.cells ==>
          (x, l) in t.cells && s.cells[(x, l)] == t.cells[(x, l)])
  }

  lemma ListsKept<K(!new)>(c: Comparator<K>, s: State<K>, t: State<K>)
    requires TotalOrder(c) && NodesOk(c, s.nodes) && ListsOk(c, s) && SameLists(s, t)
    requires t.maxHeight <= MAX_HEIGHT && forall x :: 0 < x < |t.nodes| ==> t.nodes[x].height <= t.maxHeight
    ensures ListsOk(c, t)
  {
    forall l, x | 0 <= l < MAX_HEIGHT && (x == 0 || InLevel(t, l, x))
      ensures LinkRight(c, t, l, x)
    {
      assert LinkRight(c, s, l, x);
    }
  }

  lemma PredKept<K(!new)>(c: Comparator<K>, s: State<K>, t: State<K>, l: nat, k: K, p: nat)
    requires SameLists(s, t) && IsPred(c, s, l, k, p)
    ensures IsPred(c, t, l, k, p)
  {
  }

  lemma ReaderKept<K(!new)>(c: Comparator<K>, s: State<K>, t: State<K>, r: Reader<K>)
    requires SameLists(s, t) && ReaderOk(c, s, r)
    ensures ReaderOk(c, t, r)
  {
    assert Level0(s) == Level0(t);
  }

  lemma Undisturbed<K(!new)>(c: Comparator<K>, s: State<K>, t: State<K>)
    requires TotalOrder(c) && Inv(c, s) && SameLists(s, t) && s.readers == t.readers
    requires t.maxHeight <= MAX_HEIGHT && forall x :: 0 < x < |t.nodes| ==> t.nodes[x].height <= t.maxHeight
    ensures ListsOk(c, t)
    ensures forall r :: r in t.readers ==> ReaderOk(c, t, t.readers[r])
  {
    ListsKept(c, s, t);
    forall r | r in t.readers ensures ReaderOk(c, t, t.readers[r]) {
      ReaderKept(c, s, t, s.readers[r]);
    }
  }

  lemma InsertKeeps<K(!new)>(c: Comparator<K>, s: State<K>, step: Step<K>, t: State<K>)
    requires TotalOrder(c) && Inv(c, s) && Next(c, s, step, t) && step.Insert?
    ensures Inv(c, t)
  {
    assert SameLists(s, t);
    Undisturbed(c, s, t);
  }

  // A load that does not move on has found the last node of its level before the key.
  lemma StopsAtPred<K(!new)>(c: Comparator<K>, s: State<K>, l: nat, k: K, x: nat)
    requires TotalOrder(c) && NodesOk(c, s.nodes) && LinkRight(c, s, l, x)
    requires (x == 0 || InLevel(s, l, x)) && NodeBefore(c, s.nodes, x, k)
    requires s.cells[(x, l)].Some? ==> !NodeBefore(c, s.nodes, s.cells[(x, l)].value, k)
    ensures IsPred(c, s, l, k, x)
  {
  }

  lemma LoadForInsertKeeps<K(!new)>(c: Comparator<K>, s: State<K>, step: Step<K>, t: State<K>)
    requires TotalOrder(c) && Inv(c, s) && Next(c, s, step, t) && step.LoadForInsert?
    ensures Inv(c, t)
  {
    var w := s.writer;
    assert LinkRight(c, s, w.level, w.x);
    assert SameLists(s, t);
    Undisturbed(c, s, t);
    var next := s.cells[(w.x, w.level)];
    if !(next.Some? && NodeBefore(c, s.nodes, next.value, w.key)) {
      StopsAtPred(c, s, w.level, w.key, w.x);
      var prev := w.prev[w.level := w.x];
      forall l | w.level <= l < s.maxHeight ensures IsPred(c, t, l, w.key, prev[l]) {
        PredKept(c, s, t, l, w.key, prev[l]);
      }
    }
  }

  lemma RaiseKeeps<K(!new)>(c: Comparator<K>, s: State<K>, step: Step<K>, t: State<K>)
    requires TotalOrder(c) && Inv(c, s) && Next(c, s, step, t) && step.Raise?
    ensures Inv(c, t)
  {
    assert SameLists(s, t);
    Undisturbed(c, s, t);
    var w := s.writer;
    forall l | 0 <= l < step.height ensures IsPred(c, t, l, w.key, t.writer.prev[l]) {
      if l < s.maxHeight {
        PredKept(c, s, t, l, w.key, w.prev[l]);
      }
    }
  }

  lemma AllocateKeeps<K(!new)>(c: Comparator<K>, s: State<K>, step: Step<K>, t: State<K>)
    requires TotalOrder(c) && Inv(c, s) && Next(c, s, step, t) && step.Allocate?
    ensures Inv(c, t)
  {
    assert SameLists(s, t);
    Undisturbed(c, s, t);
    forall l | 0 <= l < s.writer.height ensures IsPred(c, t, l, s.writer.key, s.writer.prev[l]) {
      PredKept(c, s, t, l, s.writer.key, s.writer.prev[l]);
    }
  }

  lemma StoreOwnKeeps<K(!new)>(c: Comparator<K>, s: State<K>, step: Step<K>, t: State<K>)
    requires TotalOrder(c) && Inv(c, s) && Next(c, s, step, t) && step.StoreOwn?
    ensures Inv(c, t)
  {
    assert SameLists(s, t);
    Undisturbed(c, s, t);
    var w := s.writer;
    var k := s.nodes[w.id].key.value;
    forall l | w.level <= l < s.nodes[w.id].height ensures IsPred(c, t, l, k, w.prev[l]) {
      PredKept(c, s, t, l, k, w.prev[l]);
    }
  }

  // Publishing node id at a level: its list gains exactly id.
  lemma PublishedLevel<K(!new)>(c: Comparator<K>, s: State<K>, step: Step<K>, t: State<K>)
    requires TotalOrder(c) && Inv(c, s) && Next(c, s, step, t) && step.Publish?
    ensures forall l: nat, x: nat ::
              InLevel(t, l, x) <==> InLevel(s, l, x) || (l == s.writer.level && x == s.writer.id)
  {
  }

  lemma LinkOfPrev<K(!new)>(c: Comparator<K>, s: State<K>, step: Step<K>, t: State<K>)
    requires TotalOrder(c) && Inv(c, s) && Next(c, s, step, t) && step.Publish?
    ensures LinkRight(c, t, s.writer.level, s.writer.prev[s.writer.level])
  {
    PublishedLevel(c, s, step, t);
    var w := s.writer;
    assert IsPred(c, s, w.level, s.nodes[w.id].key.value, w.prev[w.level]);
  }

  lemma LinkOfOwn<K(!new)>(c: Comparator<K>, s: State<K>, step: Step<K>, t: State<K>)
    requires TotalOrder(c) && Inv(c, s) && Next(c, s, step, t) && step.Publish?
    ensures LinkRight(c, t, s.writer.level, s.writer.id)
  {
    PublishedLevel(c, s, step, t);
    var w := s.writer;
    assert IsPred(c, s, w.level, s.nodes[w.id].key.value, w.prev[w.level]);
    assert LinkRight(c, s, w.level, w.prev[w.level]);
  }

  lemma LinkOfOther<K(!new)>(c: Comparator<K>, s: State<K>, step: Step<K>, t: State<K>, l: nat, x: nat)
    requires TotalOrder(c) && Inv(c, s) && Next(c, s, step, t) && step.Publish?
    requires l < MAX_HEIGHT && (x == 0 || InLevel(s, l, x))
    requires l != s.writer.level || x != s.writer.prev[l]
    ensures LinkRight(c, t, l, x)
  {
    PublishedLevel(c, s, step, t);
    var w := s.writer;
    assert LinkRight(c, s, l, x);
    if l == w.level {
      assert IsPred(c, s, l, s.nodes[w.id].key.value, w.prev[l]);
      assert Before(c, s.nodes, x, w.id) ==> Before(c, s.nodes, x, w.prev[l]);
    }
  }

  lemma PublishLinks<K(!new)>(c: Comparator<K>, s: State<K>, step: Step<K>, t: State<K>, l: nat, x: nat)
    requires TotalOrder(c) && Inv(c, s) && Next(c, s, step, t) && step.Publish?
    requires l < MAX_HEIGHT && (x == 0 || InLevel(t, l, x))
    ensures LinkRight(c, t, l, x)
  {
    var w := s.writer;
    if l == w.level && x == w.id {
      LinkOfOwn(c, s, step, t);
    } else if l == w.level && x == w.prev[l] {
      LinkOfPrev(c, s, step, t);
    } else {
      PublishedLevel(c, s, step, t);
      LinkOfOther(c, s, step, t, l, x);
    }
  }

  lemma PublishKeeps<K(!new)>(c: Comparator<K>, s: State<K>, step: Step<K>, t: State<K>)
    requires TotalOrder(c) && Inv(c, s) && Next(c, s, step, t) && step.Publish?
    ensures Inv(c, t)
  {
    var w := s.writer;
    PublishedLevel(c, s, step, t);
    forall l, x | 0 <= l < MAX_HEIGHT && (x == 0 || InLevel(t, l, x)) ensures LinkRight(c, t, l, x) {
      PublishLinks(c, s, step, t, l, x);
    }
    assert Level0(s) <= Level0(t);
    forall r | r in t.readers ensures ReaderOk(c, t, t.readers[r]) {
      assert ReaderOk(c, s, s.readers[r]);
    }
    if t.writer.Linking? {
      forall l | t.writer.level <= l < s.nodes[w.id].height
        ensures IsPred(c, t, l, s.nodes[w.id].key.value, w.prev[l])
      {
        assert IsPred(c, s, l, s.nodes[w.id].key.value, w.prev[l]);
      }
    }
  }

  // The load with which a search ends sees, at that very moment, the answer in the level-0 list.
  lemma LastLoadAnswers<K(!new)>(c: Comparator<K>, s: State<K>, goal: Goal<K>, x: nat)
    requires TotalOrder(c) && Inv(c, s) && (x == 0 || InLevel(s, 0, x)) && Past(c, s.nodes, goal, x)
    requires (x, 0) in s.cells
    requires s.cells[(x, 0)].Some? ==> !Past(c, s.nodes, goal, s.cells[(x, 0)].value)
    ensures Answers(c, s.nodes, goal, if goal.GreaterOrEqual? then s.cells[(x, 0)] else Some(x), Level0(s))
  {
    assert LinkRight(c, s, 0, x);
  }

  lemma WriterKept<K(!new)>(c: Comparator<K>, s: State<K>, t: State<K>)
    requires SameLists(s, t) && WriterOk(c, s)
    requires t == s.(readers := t.readers)
    ensures WriterOk(c, t)
  {
    forall l: nat, k, p | IsPred(c, s, l, k, p) ensures IsPred(c, t, l, k, p) {
      PredKept(c, s, t, l, k, p);
    }
  }

  lemma OwnStepKeeps<K(!new)>(c: Comparator<K>, s: State<K>, step: Step<K>, t: State<K>)
    requires TotalOrder(c) && Inv(c, s) && Next(c, s, step, t) && ReaderStep(step)
    ensures ReaderOk(c, t, t.readers[step.reader])
  {
    assert Level0(s) == Level0(t);
    if step.Load? {
      OwnLoadKeeps(c, s, step, t);
    } else if step.LoadNext? {
      ScanKeeps(c, s, step, t);
    } else if step.ScanFound? {
      ScanStarts(c, s, step, t);
    } else if step.LoadHeight? {
      assert ReaderOk(c, s, s.readers[step.reader]);
    }
  }

  lemma ScanStarts<K(!new)>(c: Comparator<K>, s: State<K>, step: Step<K>, t: State<K>)
    requires TotalOrder(c) && Inv(c, s) && Next(c, s, step, t) && step.ScanFound?
    ensures ReaderOk(c, t, t.readers[step.reader])
  {
    var d := s.readers[step.reader];
    assert Level0(s) == Level0(t) && ReaderOk(c, s, d);
  }

  lemma YieldsInOrder<K(!new)>(c: Comparator<K>, nodes: seq<Node<K>>, from: Option<K>, x: nat, yielded: seq<nat>, y: nat)
    requires TotalOrder(c) && NodesOk(c, nodes) && InOrder(c, nodes, from, yielded) && Before(c, nodes, x, y) && x < |nodes|
    requires if yielded == [] then x == 0 && from == None else x == yielded[|yielded| - 1]
    ensures InOrder(c, nodes, from, yielded + [y])
  {
    forall i | 0 <= i < |yielded| ensures Before(c, nodes, yielded[i], y) {
      assert yielded[i] == x || Before(c, nodes, yielded[i], x);
    }
    if from.Some? {
      assert x in yielded && FromOn(c, nodes, from, x);
    }
  }

  // The link of the node a scan stands at leads to the next node there is, so no node that was
  // there from the start is passed over.
  lemma ScanKeeps<K(!new)>(c: Comparator<K>, s: State<K>, step: Step<K>, t: State<K>)
    requires TotalOrder(c) && Inv(c, s) && Next(c, s, step, t) && step.LoadNext?
    ensures ReaderOk(c, t, t.readers[step.reader])
  {
    hide TotalOrder, Before, InOrder, FromOn;
    var d := s.readers[step.reader];
    assert Level0(s) == Level0(t) && ReaderOk(c, s, d);
    assert LinkRight(c, s, 0, d.x);
    var next := s.cells[(d.x, 0)];
    if next.Some? {
      YieldsInOrder(c, s.nodes, d.from, d.x, d.yielded, next.value);
    }
  }

  lemma OwnLoadKeeps<K(!new)>(c: Comparator<K>, s: State<K>, step: Step<K>, t: State<K>)
    requires TotalOrder(c) && Inv(c, s) && Next(c, s, step, t) && step.Load?
    ensures ReaderOk(c, t, t.readers[step.reader])
  {
    var d := s.readers[step.reader];
    assert Level0(s) == Level0(t) && ReaderOk(c, s, d);
    assert LinkRight(c, s, d.level, d.x);
    if t.readers[step.reader].Done? {
      LastLoadAnswers(c, s, d.goal, d.x);
    }
  }

  lemma ReaderStepKeeps<K(!new)>(c: Comparator<K>, s: State<K>, step: Step<K>, t: State<K>)
    requires TotalOrder(c) && Inv(c, s) && Next(c, s, step, t) && ReaderStep(step)
    ensures Inv(c, t)
  {
    assert SameLists(s, t);
    ListsKept(c, s, t);
    WriterKept(c, s, t);
    forall r | r in t.readers ensures ReaderOk(c, t, t.readers[r]) {
      if r != step.reader {
        ReaderKept(c, s, t, s.readers[r]);
      } else {
        OwnStepKeeps(c, s, step, t);
      }
    }
  }

  lemma Level0Grows<K(!new)>(c: Comparator<K>, s: State<K>, step: Step<K>, t: State<K>)
    requires TotalOrder(c) && Inv(c, s) && Next(c, s, step, t)
    ensures Level0(s) <= Level0(t)
  {
    hide TotalOrder, ListsOk, ReaderOk;
    if step.Publish? {
      PublishedLevel(c, s, step, t);
    }
  }

  lemma StepKeeps<K(!new)>(c: Comparator<K>, s: State<K>, step: Step<K>, t: State<K>)
    requires TotalOrder(c) && Inv(c, s) && Next(c, s, step, t)
    ensures Inv(c, t)
    ensures Level0(s) <= Level0(t)
  {
    hide TotalOrder, Inv, Next, Level0;
    Level0Grows(c, s, step, t);
    match step
    case Insert(_) => InsertKeeps(c, s, step, t);
    case LoadForInsert => LoadForInsertKeeps(c, s, step, t);
    case Raise(_) => RaiseKeeps(c, s, step, t);
    case Allocate => AllocateKeeps(c, s, step, t);
    case StoreOwn => StoreOwnKeeps(c, s, step, t);
    case Publish => PublishKeeps(c, s, step, t);
    case Start(_, _) => ReaderStepKeeps(c, s, step, t);
    case LoadHeight(_) => ReaderStepKeeps(c, s, step, t);
    case Load(_) => ReaderStepKeeps(c, s, step, t);
    case ScanFirst(_) => ReaderStepKeeps(c, s, step, t);
    case ScanFound(_) => ReaderStepKeeps(c, s, step, t);
    case LoadNext(_) => ReaderStepKeeps(c, s, step, t);
  }

  // A run: states linked by steps, from the empty list.
  ghost predicate IsRun<K>(c: Comparator<K>, run: seq<State<K>>, steps: seq<Step<K>>) {
    && |run| == |steps| + 1 && Init(run[0])
    && forall i :: 0 <= i < |steps| ==> Next(c, run[i], steps[i], run[i + 1])
  }

  lemma {:induction false} RunInv<K(!new)>(c: Comparator<K>, run: seq<State<K>>, steps: seq<Step<K>>, i: nat)
    requires TotalOrder(c) && IsRun(c, run, steps) && i < |run|
    ensures Inv(c, run[i])
  {
    if i > 0 {
      RunInv(c, run, steps, i - 1);
      StepKeeps(c, run[i - 1], steps[i - 1], run[i]);
    }
  }

  // Where a reader began, and what it was asked for.
  predicate Begins<K>(step: Step<K>, r: nat) {
    (step.Start? || step.ScanFirst?) && step.reader == r
  }

  ghost function Since<K>(r: Reader<K>): set<nat> {
    r.since
  }

  ghost predicate AsksFor<K>(r: Reader<K>, step: Step<K>)
    requires step.Start? || step.ScanFirst?
  {
    match r
    case Started(goal, _) => step.Start? && goal == step.goal
    case Descending(goal, _, _, _) => step.Start? && goal == step.goal
    case Done(goal, _, _, _) => step.Start? && goal == step.goal
    case Scanning(from, _, _, _) => if step.Start? then step.goal.GreaterOrEqual? && from == Some(step.goal.key) else from == None
    case Scanned(from, _, _, _) => if step.Start? then step.goal.GreaterOrEqual? && from == Some(step.goal.key) else from == None
  }

  lemma KeepsAsking<K(!new)>(c: Comparator<K>, s: State<K>, step: Step<K>, t: State<K>, r: nat, begin: Step<K>, since: set<nat>)
    requires Next(c, s, step, t) && (begin.Start? || begin.ScanFirst?) && !Begins(step, r)
    requires r in s.readers && AsksFor(s.readers[r], begin) && Since(s.readers[r]) == since
    ensures r in t.readers && AsksFor(t.readers[r], begin) && Since(t.readers[r]) == since
  {
  }

  lemma {:induction false} AsksSince<K(!new)>(c: Comparator<K>, run: seq<State<K>>, steps: seq<Step<K>>, j: nat, i: nat, r: nat)
    requires IsRun(c, run, steps) && j < i < |run| && Begins(steps[j], r) && forall k :: j < k < i ==> !Begins(steps[k], r)
    ensures r in run[i].readers && AsksFor(run[i].readers[r], steps[j]) && Since(run[i].readers[r]) == Level0(run[j])
    decreases i
  {
    hide Level0, Next, AsksFor;
    if j < i - 1 {
      AsksSince(c, run, steps, j, i - 1, r);
      KeepsAsking(c, run[i - 1], steps[i - 1], run[i], r, steps[j], Level0(run[j]));
    } else {
      BeginsAsking(c, run[j], steps[j], run[i], r);
    }
  }

  lemma BeginsAsking<K(!new)>(c: Comparator<K>, s: State<K>, step: Step<K>, t: State<K>, r: nat)
    requires Next(c, s, step, t) && Begins(step, r)
    ensures r in t.readers && AsksFor(t.readers[r], step) && Since(t.readers[r]) == Level0(s)
  {
    hide Level0;
  }

  // In every interleaving, a search begun at step j that ends with the load of step i answers for
  // the level-0 list at that load, which holds everything that was in the list at step j.
  lemma SearchesAreLinearizable<K(!new)>(c: Comparator<K>, run: seq<State<K>>, steps: seq<Step<K>>, j: nat, i: nat, r: nat)
    requires TotalOrder(c) && IsRun(c, run, steps) && j < i < |steps| && steps[i] == Load(r) && steps[j].Start?
    requires Begins(steps[j], r) && forall k :: j < k < i ==> !Begins(steps[k], r)
    requires r in run[i + 1].readers && run[i + 1].readers[r].Done?
    ensures Level0(run[j]) <= Level0(run[i])
    ensures Answers(c, run[i].nodes, steps[j].goal, run[i + 1].readers[r].result, Level0(run[i]))
  {
    hide Level0, Answers, Inv, Next;
    AsksSince(c, run, steps, j, i + 1, r);
    SearchEnds(c, run, steps, i, r);
  }

  lemma SearchEnds<K(!new)>(c: Comparator<K>, run: seq<State<K>>, steps: seq<Step<K>>, i: nat, r: nat)
    requires TotalOrder(c) && IsRun(c, run, steps) && i < |steps| && steps[i] == Load(r)
    requires r in run[i + 1].readers && run[i + 1].readers[r].Done?
    ensures run[i + 1].readers[r].since <= Level0(run[i])
    ensures Answers(c, run[i].nodes, run[i + 1].readers[r].goal, run[i + 1].readers[r].result, Level0(run[i]))
  {
    hide Level0, Answers;
    RunInv(c, run, steps, i + 1);
    assert ReaderOk(c, run[i + 1], run[i + 1].readers[r]);
  }

  // The key a scan begun so is to begin with, if any.
  function FirstKey<K>(step: Step<K>): Option<K> {
    if step.Start? && step.goal.GreaterOrEqual? then Some(step.goal.key) else None
  }

  // In every interleaving, a scan begun at step j, with the first node or with a search for its
  // first key, has at its end yielded, in key order and each once, only nodes that were in the
  // list at its last load, and every node from that key on that was in the list at step j.
  lemma ScansAreComplete<K(!new)>(c: Comparator<K>, run: seq<State<K>>, steps: seq<Step<K>>, j: nat, i: nat, r: nat)
    requires TotalOrder(c) && IsRun(c, run, steps) && j < i < |run|
    requires Begins(steps[j], r) && forall k :: j < k < i ==> !Begins(steps[k], r)
    requires r in run[i].readers && run[i].readers[r].Scanned?
    ensures var s, d, from := run[i], run[i].readers[r], FirstKey(steps[j]);
      && (steps[j].Start? ==> steps[j].goal.GreaterOrEqual?)
      && d.seen <= Level0(s)
      && (forall p, q :: 0 <= p < q < |d.yielded| ==> Before(c, s.nodes, d.yielded[p], d.yielded[q]))
      && (forall y :: y in d.yielded ==> y in d.seen && FromOn(c, s.nodes, from, y))
      && (forall z :: z in Level0(run[j]) && FromOn(c, s.nodes, from, z) ==> z in d.yielded)
  {
    hide Level0, Next, Before, FromOn;
    AsksSince(c, run, steps, j, i, r);
    RunInv(c, run, steps, i);
    assert ReaderOk(c, run[i], run[i].readers[r]);
  }

  lemma {:induction false} Level0GrowsTo<K(!new)>(c: Comparator<K>, run: seq<State<K>>, steps: seq<Step<K>>, j: nat, i: nat)
    requires TotalOrder(c) && IsRun(c, run, steps) && j <= i < |run|
    ensures Level0(run[j]) <= Level0(run[i]) && run[j].nodes <= run[i].nodes
    decreases i
  {
    hide Level0, Inv, TotalOrder, Next;
    if j < i {
      Level0GrowsTo(c, run, steps, j, i - 1);
      RunInv(c, run, steps, i - 1);
      StepKeeps(c, run[i - 1], steps[i - 1], run[i]);
      NodesStay(c, run[i - 1], steps[i - 1], run[i]);
    }
  }

  lemma NodesStay<K(!new)>(c: Comparator<K>, s: State<K>, step: Step<K>, t: State<K>)
    requires Next(c, s, step, t)
    ensures s.nodes <= t.nodes
  {
    hide Level0, NodeBefore, Past, NewKey;
  }

  // Once a node is published at level 0, every search for its key that begins later finds it.
  lemma PublishedIsFound<K(!new)>(c: Comparator<K>, run: seq<State<K>>, steps: seq<Step<K>>, p: nat, j: nat, i: nat, r: nat)
    requires TotalOrder(c) && IsRun(c, run, steps) && p < j < i < |steps| && steps[i] == Load(r) && steps[j].Start?
    requires steps[p] == Publish && run[p].writer.Linking? && run[p].writer.level == 0 && run[p].writer.id < |run[p].nodes|
    requires run[p].nodes[run[p].writer.id].key.Some? && steps[j].goal == GreaterOrEqual(run[p].nodes[run[p].writer.id].key.value)
    requires Begins(steps[j], r) && forall k :: j < k < i ==> !Begins(steps[k], r)
    requires r in run[i + 1].readers && run[i + 1].readers[r].Done?
    ensures run[i + 1].readers[r].result == Some(run[p].writer.id)
  {
    hide Next, Inv;
    SearchesAreLinearizable(c, run, steps, j, i, r);
    RunInv(c, run, steps, p);
    Published(c, run[p], steps[p], run[p + 1]);
    Level0GrowsTo(c, run, steps, p + 1, i);
    Level0GrowsTo(c, run, steps, p, p + 1);
    FoundItself(c, run[i].nodes, run[p].writer.id, run[i + 1].readers[r].result, Level0(run[i]));
  }

  lemma Published<K(!new)>(c: Comparator<K>, s: State<K>, step: Step<K>, t: State<K>)
    requires TotalOrder(c) && Inv(c, s) && Next(c, s, step, t) && step.Publish? && s.writer.level == 0
    ensures s.writer.id in Level0(t)
  {
    hide TotalOrder, ListsOk, ReaderOk;
    PublishedLevel(c, s, step, t);
  }

  lemma FoundItself<K(!new)>(c: Comparator<K>, nodes: seq<Node<K>>, x: nat, result: Option<nat>, seen: set<nat>)
    requires TotalOrder(c) && 0 < x < |nodes| && nodes[x].key.Some? && x in seen
    requires Answers(c, nodes, GreaterOrEqual(nodes[x].key.value), result, seen)
    ensures result == Some(x)
  {
    assert Compare(c, nodes[x].key.value, nodes[x].key.value) == 0;
    assert !NodeBefore(c, nodes, x, nodes[x].key.value);
  }

  // No link is read before it is stored: a reader or the inserter can always take its next load.
  lemma LoadsAreOfStoredLinks<K(!new)>(c: Comparator<K>, run: seq<State<K>>, steps: seq<Step<K>>, i: nat)
    requires TotalOrder(c) && IsRun(c, run, steps) && i < |run|
    ensures forall r :: r in run[i].readers && run[i].readers[r].Descending? ==>
              (run[i].readers[r].x, run[i].readers[r].level) in run[i].cells
    ensures forall r :: r in run[i].readers && run[i].readers[r].Scanning? ==> (run[i].readers[r].x, 0) in run[i].cells
    ensures run[i].writer.Searching? ==> (run[i].writer.x, run[i].writer.level) in run[i].cells
    ensures run[i].writer.Linking? ==>
              && run[i].writer.level < |run[i].writer.prev|
              && (run[i].writer.prev[run[i].writer.level], run[i].writer.level) in run[i].cells
  {
    RunInv(c, run, steps, i);
    var s := run[i];
    forall r | r in s.readers && s.readers[r].Descending?
      ensures (s.readers[r].x, s.readers[r].level) in s.cells
    {
      assert ReaderOk(c, s, s.readers[r]);
      assert LinkRight(c, s, s.readers[r].level, s.readers[r].x);
    }
    forall r | r in s.readers && s.readers[r].Scanning? ensures (s.readers[r].x, 0) in s.cells {
      assert ReaderOk(c, s, s.readers[r]);
      assert LinkRight(c, s, 0, s.readers[r].x);
    }
    if s.writer.Searching? {
      assert LinkRight(c, s, s.writer.level, s.writer.x);
    } else if s.writer.Linking? {
      var w := s.writer;
      assert IsPred(c, s, w.level, s.nodes[w.id].key.value, w.prev[w.level]);
      assert LinkRight(c, s, w.level, w.prev[w.level]);
    }
  }

  // Every level is a sublist of the one below it, and its links run in key order.
  lemma LevelsNest<K(!new)>(c: Comparator<K>, run: seq<State<K>>, steps: seq<Step<K>>, i: nat, l: nat, x: nat)
    requires TotalOrder(c) && IsRun(c, run, steps) && i < |run| && l < MAX_HEIGHT
    requires x == 0 || InLevel(run[i], l, x)
    ensures x != 0 && l > 0 ==> InLevel(run[i], l - 1, x)
    ensures (x, l) in run[i].cells
    ensures run[i].cells[(x, l)].Some? ==>
              InLevel(run[i], l, run[i].cells[(x, l)].value) && Before(c, run[i].nodes, x, run[i].cells[(x, l)].value)
  {
    RunInv(c, run, steps, i);
    assert LinkRight(c, run[i], l, x);
  }

  // A reader that is not done can always take its next step, whatever the inserter does.
  lemma ReaderMoves<K(!new)>(c: Comparator<K>, s: State<K>, r: nat) returns (step: Step<K>, t: State<K>)
    requires Inv(c, s) && r in s.readers && !s.readers[r].Done? && !s.readers[r].Scanned?
    ensures step == LoadHeight(r) || step == Load(r) || step == LoadNext(r)
    ensures Next(c, s, step, t)
  {
    hide Level0, NodeBefore, Past;
    var d := s.readers[r];
    assert ReaderOk(c, s, d);
    match d
    case Started(goal, since) =>
      step, t := LoadHeight(r), s.(readers := s.readers[r := Descending(goal, 0, s.maxHeight - 1, since)]);
    case Descending(goal, x, level, since) =>
      assert LinkRight(c, s, level, x);
      var next := s.cells[(x, level)];
      step := Load(r);
      t := s.(readers := s.readers[r :=
             if next.Some? && Past(c, s.nodes, goal, next.value) then Descending(goal, next.value, level, since)
             else if level > 0 then Descending(goal, x, level - 1, since)
             else Done(goal, if goal.GreaterOrEqual? then next else Some(x), since, Level0(s))]);
    case Scanning(from, x, yielded, since) =>
      assert LinkRight(c, s, 0, x);
      step := LoadNext(r);
      t := s.(readers := s.readers[r :=
             match s.cells[(x, 0)]
             case Some(y) => Scanning(from, y, yielded + [y], since)
             case None => Scanned(from, yielded, since, Level0(s))]);
  }

  // Nor is the inserter ever held up.
  lemma WriterMoves<K(!new)>(c: Comparator<K>, s: State<K>) returns (step: Step<K>, t: State<K>)
    requires Inv(c, s) && s.writer != Idle
    ensures !ReaderStep(step) && Next(c, s, step, t)
  {
    hide Level0, NodeBefore, NewKey, ReaderOk;
    var w := s.writer;
    match w
    case Searching(k, x, level, prev) =>
      assert LinkRight(c, s, level, x);
      var next := s.cells[(x, level)];
      step := LoadForInsert;
      t := s.(writer :=
             if next.Some? && NodeBefore(c, s.nodes, next.value, k) then w.(x := next.value)
             else if level > 0 then Searching(k, x, level - 1, prev[level := x])
             else Searched(k, prev[level := x]));
    case Searched(k, prev) =>
      step := Raise(MAX_HEIGHT);
      t := s.(maxHeight := if MAX_HEIGHT > s.maxHeight then MAX_HEIGHT else s.maxHeight,
              writer := Raised(k, MAX_HEIGHT, seq(MAX_HEIGHT, l requires 0 <= l < MAX_HEIGHT => if s.maxHeight <= l < MAX_HEIGHT then 0 else prev[l])));
    case Raised(k, height, prev) =>
      step := Allocate;
      t := s.(nodes := s.nodes + [Node(Some(k), height)], writer := Linking(|s.nodes|, prev, 0, false));
    case Linking(id, prev, level, own) =>
      assert IsPred(c, s, level, s.nodes[id].key.value, prev[level]);
      assert LinkRight(c, s, level, prev[level]);
      if own {
        step := Publish;
        t := s.(cells := s.cells[(prev[level], level) := Some(id)],
                writer := if level + 1 < s.nodes[id].height then w.(level := level + 1, own := false) else Idle);
      } else {
        step := StoreOwn;
        t := s.(cells := s.cells[(id, level) := s.cells[(prev[level], level)]], writer := w.(own := true));
      }
  }
}
