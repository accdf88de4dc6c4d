/** What a subscriber can rebuild from the events, and how the lanes converge. */
module RealtimeLaws {
  import opened Values
  import opened Realtime

  // ---------- The subscriber's view ----------

  /** The documents the subscriber may hold: they match and the Get rule allows their key. */
  function VisibleAt(r: Rules, k: Key, d: Option<Doc>): Option<Doc> {
    if d.Some? && r.matches(d.value) && r.allow(k) then d else None
  }

  function Visible(r: Rules, snap: Store): Store {
    map k | k in snap && VisibleAt(r, k, Some(snap[k])).Some? :: snap[k]
  }

  lemma VisibleLookup(r: Rules, snap: Store, k: Key)
    ensures Lookup(Visible(r, snap), k) == VisibleAt(r, k, Lookup(snap, k))
  {}

  /** Playing one event on one entry: an Add needs it absent, a Change present,
      a Remove present with the document it names. */
  function PlayAt(cur: Option<Doc>, e: Option<Event>): Option<Option<Doc>> {
    if e.None? then Some(cur)
    else
      match e.value.kind
      case Add => if cur.None? then Some(Some(e.value.doc)) else None
      case Change => if cur.Some? then Some(Some(e.value.doc)) else None
      case Remove => if cur == Some(e.value.doc) then Some(None) else None
  }

  function Put(view: Store, k: Key, d: Option<Doc>): Store {
    if d.Some? then view[k := d.value] else view - {k}
  }

  /** Replays events on a view; None as soon as one does not fit. */
  function Replay(view: Store, events: seq<Event>): Option<Store> {
    if events == [] then Some(view)
    else
      var before := Replay(view, events[..|events| - 1]);
      var e := events[|events| - 1];
      if before.None? then None
      else
        var next := PlayAt(Lookup(before.value, e.key), Some(e));
        if next.None? then None else Some(Put(before.value, e.key, next.value))
  }

  lemma ReplayOpt(view: Store, events: seq<Event>, e: Option<Event>)
    requires Replay(view, events).Some?
    ensures Replay(view, events + Opt(e)) ==
            if e.None? then Replay(view, events)
            else var next := PlayAt(Lookup(Replay(view, events).value, e.value.key), e);
                 if next.None? then None else Some(Put(Replay(view, events).value, e.value.key, next.value))
  {
    if e.None? {
      assert events + Opt(e) == events;
    } else {
      assert (events + [e.value])[..|events|] == events;
    }
  }

  lemma {:induction false} ReplayAppend(view: Store, a: seq<Event>, b: seq<Event>)
    requires Replay(view, a).Some?
    ensures Replay(view, a + b) == Replay(Replay(view, a).value, b)
    decreases |b|
  {
    if b == [] {
      assert a + b == a;
    } else {
      var init := b[..|b| - 1];
      ReplayAppend(view, a, init);
      assert (a + b)[..|a + b| - 1] == a + init;
    }
  }

  // ---------- Steps of a run ----------

  /** Ids in documents agree with the keys they are held under. */
  ghost predicate WellKeyed(s: Store) {
    forall k :: k in s ==> s[k].id == k.1
  }

  ghost predicate GetWellKeyed(get: Key -> GetResult) {
    forall k :: get(k).Found? ==> get(k).doc.id == k.1
  }

  datatype Input =
    | Ingest(coll: string, change: DbChange)
    | Tick(full: Store, get: Key -> GetResult, order: seq<Key>)
    | Resync(coll: string, listed: Option<seq<Doc>>)

  ghost predicate WellFormed(snap: Store, i: Input) {
    match i
    case Ingest(_, c) => c.doc.Some? ==> c.doc.value.id == c.id
    case Tick(full, get, order) => WellKeyed(full) && GetWellKeyed(get) && Enumerates(order, snap.Keys + full.Keys)
    case Resync(_, _) => true
  }

  function After(r: Rules, snap: Store, i: Input): Store {
    match i
    case Ingest(coll, c) => IngestSnapshot(r, snap, coll, c)
    case Tick(full, get, _) => DiffSnapshot(snap, full, get)
    case Resync(coll, listed) => ResyncSnapshot(snap, coll, listed)
  }

  function Emitted(r: Rules, snap: Store, i: Input): seq<Event> {
    match i
    case Ingest(coll, c) => Opt(IngestEvent(r, snap, coll, c))
    case Tick(full, get, order) => DiffEvents(r, snap, full, get, order)
    case Resync(_, _) => []
  }

  lemma {:induction false} InsertAllWellKeyed(snap: Store, coll: string, docs: seq<Doc>)
    requires WellKeyed(snap)
    ensures WellKeyed(InsertAll(snap, coll, docs))
    decreases |docs|
  {
    if docs != [] {
      InsertAllWellKeyed(snap, coll, docs[..|docs| - 1]);
    }
  }

  lemma AfterWellKeyed(r: Rules, snap: Store, i: Input)
    requires WellKeyed(snap) && WellFormed(snap, i)
    ensures WellKeyed(After(r, snap, i))
  {
    if i.Resync? && i.listed.Some? {
      InsertAllWellKeyed(map k | k in snap && k.0 != i.coll :: snap[k], i.coll, i.listed.value);
    }
  }

  /** What a change leaves: nothing of its key after a Remove, a document with the body it carries after a put, and
      all else, and everything when it carries no document, as it was. */
  lemma IngestLeaves(r: Rules, snap: Store, coll: string, c: DbChange, k: Key)
    ensures var held := Lookup(IngestSnapshot(r, snap, coll, c), k);
            if k != (coll, c.id) || (!c.kind.Remove? && c.doc.None?) then held == Lookup(snap, k)
            else if c.kind.Remove? then held == None
            else held == c.doc || (held.Some? && held == Lookup(snap, k) && held.value.data == c.doc.value.data)
  {}

  /** What a tick leaves: listed keys as listed; of the others, those held and found by the `get` as found, those it
      failed on as they were, and none that it found absent. */
  lemma TickLeaves(snap: Store, full: Store, get: Key -> GetResult, k: Key)
    ensures Lookup(DiffSnapshot(snap, full, get), k) ==
            if k in full then Some(full[k])
            else if k !in snap then None
            else match get(k)
                 case Found(d) => Some(d)
                 case Failed => Some(snap[k])
                 case Absent => None
  {}

  // ---------- The view law, step by step ----------

  lemma ReplayOptAt(view: Store, events: seq<Event>, e: Option<Event>, last: Key, target: Option<Doc>, k: Key)
    requires Replay(view, events).Some? && (e.Some? ==> e.value.key == last)
    requires PlayAt(Lookup(Replay(view, events).value, last), e) == Some(target)
    ensures Replay(view, events + Opt(e)).Some?
    ensures Lookup(Replay(view, events + Opt(e)).value, k) ==
            if k == last then target else Lookup(Replay(view, events).value, k)
  {
    ReplayOpt(view, events, e);
  }

  lemma ReplayOne(view: Store, e: Option<Event>, key: Key, target: Option<Doc>, k: Key)
    requires (e.Some? ==> e.value.key == key) && PlayAt(Lookup(view, key), e) == Some(target)
    ensures Replay(view, Opt(e)).Some?
    ensures Lookup(Replay(view, Opt(e)).value, k) == if k == key then target else Lookup(view, k)
  {
    assert [] + Opt(e) == Opt(e);
    ReplayOptAt(view, [], e, key, target, k);
  }

  /** A step that moves one key, and tells of it. */
  lemma OneEventKeepsView(r: Rules, snap: Store, next: Store, e: Option<Event>, key: Key)
    requires (e.Some? ==> e.value.key == key) && forall k :: k != key ==> Lookup(next, k) == Lookup(snap, k)
    requires PlayAt(VisibleAt(r, key, Lookup(snap, key)), e) == Some(VisibleAt(r, key, Lookup(next, key)))
    ensures Replay(Visible(r, snap), Opt(e)) == Some(Visible(r, next))
  {
    var view := Visible(r, snap);
    VisibleLookup(r, snap, key);
    forall k
      ensures Replay(view, Opt(e)).Some? && Lookup(Replay(view, Opt(e)).value, k) == Lookup(Visible(r, next), k)
    {
      VisibleLookup(r, snap, k);
      VisibleLookup(r, next, k);
      ReplayOne(view, e, key, VisibleAt(r, key, Lookup(next, key)), k);
    }
    SameLookups(Replay(view, Opt(e)).value, Visible(r, next));
  }

  /** A change from the bus or a feed keeps the law, whatever it carries. */
  lemma IngestKeepsView(r: Rules, snap: Store, coll: string, c: DbChange)
    requires WellKeyed(snap) && WellFormed(snap, Ingest(coll, c))
    ensures Replay(Visible(r, snap), Opt(IngestEvent(r, snap, coll, c)))
            == Some(Visible(r, IngestSnapshot(r, snap, coll, c)))
  {
    OneEventKeepsView(r, snap, IngestSnapshot(r, snap, coll, c), IngestEvent(r, snap, coll, c), (coll, c.id));
  }

  /** What a key shows once a tick has passed, if the verifying `get` moved nothing silently. */
  function TickTarget(r: Rules, snap: Store, full: Store, get: Key -> GetResult, k: Key): Option<Doc> {
    if k in full then VisibleAt(r, k, Some(full[k]))
    else if get(k).Absent? then None
    else VisibleAt(r, k, Lookup(snap, k))
  }

  lemma TickAtKey(r: Rules, snap: Store, full: Store, get: Key -> GetResult, k: Key)
    requires WellKeyed(snap) && WellKeyed(full)
    ensures PlayAt(VisibleAt(r, k, Lookup(snap, k)), DiffEvent(r, snap, full, get, k))
            == Some(TickTarget(r, snap, full, get, k))
  {}

  function EventsOf(event: Key -> Option<Event>, order: seq<Key>): seq<Event> {
    if order == [] then [] else EventsOf(event, order[..|order| - 1]) + Opt(event(order[|order| - 1]))
  }

  lemma {:induction false} TickEventsOf(r: Rules, snap: Store, full: Store, get: Key -> GetResult, order: seq<Key>)
    ensures DiffEvents(r, snap, full, get, order) == EventsOf(k => DiffEvent(r, snap, full, get, k), order)
  {
    if order != [] {
      TickEventsOf(r, snap, full, get, order[..|order| - 1]);
    }
  }

  /** Each key's event takes what it shows from `shown` to `target`, so all of them, in any order, take the view. */
  lemma {:induction false} ReplayEach(event: Key -> Option<Event>, shown: Key -> Option<Doc>,
                                      target: Key -> Option<Doc>, view: Store, order: seq<Key>, done: set<Key>, k: Key)
    requires Enumerates(order, done) && forall j :: Lookup(view, j) == shown(j)
    requires forall j :: (event(j).Some? ==> event(j).value.key == j) && PlayAt(shown(j), event(j)) == Some(target(j))
    ensures Replay(view, EventsOf(event, order)).Some?
    ensures Lookup(Replay(view, EventsOf(event, order)).value, k) == if k in done then target(k) else shown(k)
    decreases |order|
  {
    if order != [] {
      var init, last := order[..|order| - 1], order[|order| - 1];
      ReplayEach(event, shown, target, view, init, done - {last}, k);
      ReplayEach(event, shown, target, view, init, done - {last}, last);
      ReplayOptAt(view, EventsOf(event, init), event(last), last, target(last), k);
    }
  }

  lemma TickReplay(r: Rules, snap: Store, full: Store, get: Key -> GetResult, order: seq<Key>, k: Key)
    requires WellKeyed(snap) && WellKeyed(full) && Enumerates(order, snap.Keys + full.Keys)
    ensures var after := Replay(Visible(r, snap), DiffEvents(r, snap, full, get, order));
            after.Some? && Lookup(after.value, k) ==
            if k in snap.Keys + full.Keys then TickTarget(r, snap, full, get, k) else VisibleAt(r, k, Lookup(snap, k))
  {
    var shown := (j: Key) => VisibleAt(r, j, Lookup(snap, j));
    var target := (j: Key) => TickTarget(r, snap, full, get, j);
    var event := (j: Key) => DiffEvent(r, snap, full, get, j);
    forall j ensures Lookup(Visible(r, snap), j) == shown(j) {
      VisibleLookup(r, snap, j);
    }
    forall j ensures (event(j).Some? ==> event(j).value.key == j) && PlayAt(shown(j), event(j)) == Some(target(j)) {
      TickAtKey(r, snap, full, get, j);
    }
    TickEventsOf(r, snap, full, get, order);
    ReplayEach(event, shown, target, Visible(r, snap), order, snap.Keys + full.Keys, k);
  }

  /** A missing key that the `get` finds shows what it showed. */
  predicate Unmoved(r: Rules, snap: Store, full: Store, get: Key -> GetResult, k: Key) {
    k in snap && k !in full && get(k).Found? ==>
      VisibleAt(r, k, Some(get(k).doc)) == VisibleAt(r, k, Some(snap[k]))
  }

  ghost predicate NoSilentMove(r: Rules, snap: Store, full: Store, get: Key -> GetResult) {
    forall k :: Unmoved(r, snap, full, get, k)
  }

  /** A tick's events always fit the subscriber's view, and they rebuild the visible snapshot
      exactly when nothing visible moved silently. */
  lemma TickViewLaw(r: Rules, snap: Store, full: Store, get: Key -> GetResult, order: seq<Key>)
    requires WellKeyed(snap) && WellFormed(snap, Tick(full, get, order))
    ensures Replay(Visible(r, snap), DiffEvents(r, snap, full, get, order)).Some?
    ensures Replay(Visible(r, snap), DiffEvents(r, snap, full, get, order))
            == Some(Visible(r, DiffSnapshot(snap, full, get)))
            <==> NoSilentMove(r, snap, full, get)
  {
    TickReplay(r, snap, full, get, order, ("", ""));
    var view := Replay(Visible(r, snap), DiffEvents(r, snap, full, get, order)).value;
    var target := Visible(r, DiffSnapshot(snap, full, get));
    forall k ensures Lookup(view, k) == Lookup(target, k) <==> Unmoved(r, snap, full, get, k) {
      TickReplay(r, snap, full, get, order, k);
      VisibleLookup(r, DiffSnapshot(snap, full, get), k);
    }
    if NoSilentMove(r, snap, full, get) {
      SameLookups(view, target);
    }
  }

  // ---------- The view law, over whole runs ----------

  /** A step that moves nothing visible without an event. */
  ghost predicate Announced(r: Rules, snap: Store, i: Input) {
    match i
    case Ingest(_, _) => true
    case Tick(full, get, _) => NoSilentMove(r, snap, full, get)
    case Resync(coll, listed) =>
      listed.Some? ==> Visible(r, ResyncSnapshot(snap, coll, listed)) == Visible(r, snap)
  }

  function RunSnapshot(r: Rules, snap: Store, run: seq<Input>): Store {
    if run == [] then snap else After(r, RunSnapshot(r, snap, run[..|run| - 1]), run[|run| - 1])
  }

  function RunEvents(r: Rules, snap: Store, run: seq<Input>): seq<Event> {
    if run == [] then []
    else RunEvents(r, snap, run[..|run| - 1]) + Emitted(r, RunSnapshot(r, snap, run[..|run| - 1]), run[|run| - 1])
  }

  ghost predicate GoodRun(r: Rules, snap: Store, run: seq<Input>) {
    run == [] ||
    (var before, last := RunSnapshot(r, snap, run[..|run| - 1]), run[|run| - 1];
     GoodRun(r, snap, run[..|run| - 1]) && WellFormed(before, last) && Announced(r, before, last))
  }

  /** The events of a whole run, replayed on what was visible at the start, rebuild what is visible at the end. */
  lemma {:induction false} RunViewLaw(r: Rules, snap: Store, run: seq<Input>)
    requires WellKeyed(snap) && GoodRun(r, snap, run)
    ensures WellKeyed(RunSnapshot(r, snap, run))
    ensures Replay(Visible(r, snap), RunEvents(r, snap, run)) == Some(Visible(r, RunSnapshot(r, snap, run)))
    decreases |run|
  {
    if run != [] {
      var init, last := run[..|run| - 1], run[|run| - 1];
      var before := RunSnapshot(r, snap, init);
      RunViewLaw(r, snap, init);
      AfterWellKeyed(r, before, last);
      match last {
        case Ingest(coll, c) => IngestKeepsView(r, before, coll, c);
        case Tick(full, get, order) => TickViewLaw(r, before, full, get, order);
        case Resync(_, _) =>
      }
      ReplayAppend(Visible(r, snap), RunEvents(r, snap, init), Emitted(r, before, last));
    }
  }

  // ---------- Removes and silent moves ----------

  lemma {:induction false} TickEventsExact(r: Rules, snap: Store, full: Store, get: Key -> GetResult, order: seq<Key>,
      e: Event)
    requires e in DiffEvents(r, snap, full, get, order)
    ensures DiffEvent(r, snap, full, get, e.key) == Some(e)
    decreases |order|
  {
    if e in DiffEvents(r, snap, full, get, order[..|order| - 1]) {
      TickEventsExact(r, snap, full, get, order[..|order| - 1], e);
    }
  }

  /** A Remove for a key the tick did not list goes out only when the `get` found nothing. */
  lemma RemoveOnlyWhenAbsent(r: Rules, snap: Store, full: Store, get: Key -> GetResult, order: seq<Key>, e: Event)
    requires e in DiffEvents(r, snap, full, get, order) && e.key !in full
    ensures e.kind.Remove? && get(e.key).Absent? && e.key in snap && e.doc == snap[e.key]
  {
    TickEventsExact(r, snap, full, get, order, e);
  }

  /** The step tells of document `d` under `k` as it is: a change of another key or a put that carries `d`, or a
      tick that lists `d`, or that does not list it while the `get` finds `d` or fails. */
  predicate TellsOf(i: Input, k: Key, d: Doc) {
    match i
    case Ingest(coll, c) => (coll, c.id) == k ==> !c.kind.Remove? && c.doc == Some(d)
    case Tick(full, get, _) =>
      if k in full then full[k] == d else get(k).Failed? || get(k) == Found(d)
    case Resync(_, _) => false
  }

  lemma SilentStep(r: Rules, snap: Store, k: Key, i: Input, e: Event)
    requires k in snap && TellsOf(i, k, snap[k])
    ensures k in After(r, snap, i) && After(r, snap, i)[k] == snap[k]
    ensures e in Emitted(r, snap, i) ==> e.key != k
  {
    if i.Tick? && e in Emitted(r, snap, i) {
      TickEventsExact(r, snap, i.full, i.get, i.order, e);
    }
  }

  /** A silent move is never made good: while every lane tells of the document as the `get` found it,
      no event about it goes out, although the snapshot holds it. */
  lemma {:induction false} SilentMoveStaysSilent(r: Rules, snap: Store, k: Key, run: seq<Input>, e: Event)
    requires k in snap && forall i :: i in run ==> TellsOf(i, k, snap[k])
    ensures k in RunSnapshot(r, snap, run) && RunSnapshot(r, snap, run)[k] == snap[k]
    ensures e in RunEvents(r, snap, run) ==> e.key != k
    decreases |run|
  {
    if run != [] {
      var init, last := run[..|run| - 1], run[|run| - 1];
      assert last in run;
      SilentMoveStaysSilent(r, snap, k, init, e);
      SilentStep(r, RunSnapshot(r, snap, init), k, last, e);
    }
  }

  /** A concrete silent move: the held document changed, the tick missed it, the `get` found it. */
  lemma SilentMoveExists()
    ensures exists r, snap, full, get, order :: WellKeyed(snap) && WellFormed(snap, Tick(full, get, order))
              && Replay(Visible(r, snap), DiffEvents(r, snap, full, get, order))
                 != Some(Visible(r, DiffSnapshot(snap, full, get)))
  {
    var k: Key := ("c", "a");
    var was, now := Doc("a", map["n" := Num(1)]), Doc("a", map["n" := Num(2)]);
    assert was.data["n"] != now.data["n"];
    var r, snap := Rules(d => true, key => true), map[k := was];
    var get := (key: Key) => if key == k then Found(now) else Absent;
    var full: Store := map[];
    assert [k][..0] == [] && {k} - {k} == {} && snap.Keys + full.Keys == {k};
    assert Enumerates([k], {k});
    assert WellFormed(snap, Tick(full, get, [k]));
    assert !Unmoved(r, snap, full, get, k);
    TickViewLaw(r, snap, full, get, [k]);
  }

  // ---------- Re-listing ----------

  lemma {:induction false} InsertedAt(snap: Store, coll: string, docs: seq<Doc>, k: Key)
    ensures k.0 != coll ==> Lookup(InsertAll(snap, coll, docs), k) == Lookup(snap, k)
    ensures k.0 == coll ==>
              match Lookup(InsertAll(snap, coll, docs), k)
              case Some(d) => (d in docs && d.id == k.1) || Lookup(snap, k) == Some(d)
              case None => k !in snap && forall d :: d in docs ==> d.id != k.1
    decreases |docs|
  {
    if docs != [] {
      InsertedAt(snap, coll, docs[..|docs| - 1], k);
      assert docs == docs[..|docs| - 1] + [docs[|docs| - 1]];
    }
  }

  /** A re-list that succeeds makes the snapshot of its collection exactly the listed documents, and touches no
      other collection. */
  lemma ResyncExact(snap: Store, coll: string, docs: seq<Doc>, k: Key)
    ensures var r := ResyncSnapshot(snap, coll, Some(docs));
            && (k.0 != coll ==> Lookup(r, k) == Lookup(snap, k))
            && (k.0 == coll ==> (k in r <==> exists d :: d in docs && d.id == k.1))
            && (k.0 == coll && k in r ==> r[k] in docs && r[k].id == k.1)
  {
    InsertedAt(map j | j in snap && j.0 != coll :: snap[j], coll, docs, k);
  }

  // ---------- Lanes converge ----------

  lemma {:induction false} QuietTick(r: Rules, snap: Store, full: Store, get: Key -> GetResult,
                                     order: seq<Key>, done: set<Key>, k: Key)
    requires Enumerates(order, done)
    requires forall j :: j in done && j != k ==> DiffEvent(r, snap, full, get, j).None?
    ensures DiffEvents(r, snap, full, get, order) == if k in done then Opt(DiffEvent(r, snap, full, get, k)) else []
    decreases |order|
  {
    if order != [] {
      QuietTick(r, snap, full, get, order[..|order| - 1], done - {order[|order| - 1]}, k);
    }
  }

  /** A tick that lists one commit on top of the snapshot owes only that commit's event. */
  lemma OneCommitTick(r: Rules, snap: Store, full: Store, get: Key -> GetResult, order: seq<Key>, k: Key)
    requires Enumerates(order, snap.Keys + full.Keys)
    requires forall j :: j != k ==> Lookup(full, j) == Lookup(snap, j)
    ensures DiffEvents(r, snap, full, get, order) == Opt(DiffEvent(r, snap, full, get, k))
  {
    forall j | j in snap.Keys + full.Keys && j != k ensures DiffEvent(r, snap, full, get, j).None? {
      assert Lookup(full, j) == Lookup(snap, j);
    }
    QuietTick(r, snap, full, get, order, snap.Keys + full.Keys, k);
  }

  /** The tick carries the commit that the bus carries: it lists the document put, or it misses the document deleted
      and the `get` confirms. What else it lists is left open. */
  predicate Carries(full: Store, get: Key -> GetResult, coll: string, c: DbChange) {
    var key := (coll, c.id);
    if c.kind.Remove? then key !in full && get(key).Absent?
    else c.doc.Some? && c.doc.value.id == c.id && key in full && full[key] == c.doc.value
  }

  /** After the bus a tick owes this key nothing and every other key what it owed before; the key's own debt
      was the bus's event. */
  lemma BusThenTickAt(r: Rules, snap: Store, full: Store, get: Key -> GetResult, coll: string, c: DbChange, k: Key)
    requires WellKeyed(snap) && Carries(full, get, coll, c)
    ensures var key, held := (coll, c.id), IngestSnapshot(r, snap, coll, c);
            && Lookup(DiffSnapshot(held, full, get), k) == Lookup(DiffSnapshot(snap, full, get), k)
            && DiffEvent(r, held, full, get, k) == (if k == key then None else DiffEvent(r, snap, full, get, k))
            && DiffEvent(r, snap, full, get, key) == IngestEvent(r, snap, coll, c)
  {}

  /** After the tick the bus's repeat of the commit, and the tick's own, are ignored. */
  lemma TickThenRepeatAt(r: Rules, snap: Store, full: Store, get: Key -> GetResult, coll: string, c: DbChange, k: Key)
    requires Carries(full, get, coll, c)
    ensures var held := DiffSnapshot(snap, full, get);
            && Lookup(IngestSnapshot(r, held, coll, c), k) == Lookup(held, k) && IngestEvent(r, held, coll, c).None?
            && Lookup(DiffSnapshot(held, full, get), k) == Lookup(held, k) && DiffEvent(r, held, full, get, k).None?
  {}

  lemma BusTwice(r: Rules, snap: Store, full: Store, get: Key -> GetResult, coll: string, c: DbChange)
    requires WellKeyed(snap) && Carries(full, get, coll, c)
    ensures var held := IngestSnapshot(r, snap, coll, c);
            IngestSnapshot(r, held, coll, c) == held && IngestEvent(r, held, coll, c).None?
  {
    var key := (coll, c.id);
    assert key in snap ==> snap[key].id == c.id;
  }

  /** An event goes out at most once, when its key is visited and owes it. */
  lemma {:induction false} EventCount(event: Key -> Option<Event>, order: seq<Key>, done: set<Key>, x: Event)
    requires Enumerates(order, done) && forall k :: event(k).Some? ==> event(k).value.key == k
    ensures multiset(EventsOf(event, order))[x] == if x.key in done && event(x.key) == Some(x) then 1 else 0
    decreases |order|
  {
    if order != [] {
      var init, last := order[..|order| - 1], order[|order| - 1];
      EventCount(event, init, done - {last}, x);
      assert EventsOf(event, order) == EventsOf(event, init) + Opt(event(last));
    }
  }

  lemma TickCount(r: Rules, snap: Store, full: Store, get: Key -> GetResult, order: seq<Key>, x: Event)
    requires Enumerates(order, snap.Keys + full.Keys)
    ensures multiset(DiffEvents(r, snap, full, get, order))[x] ==
            if DiffEvent(r, snap, full, get, x.key) == Some(x) then 1 else 0
  {
    var event := (k: Key) => DiffEvent(r, snap, full, get, k);
    assert DiffEvents(r, snap, full, get, order) == EventsOf(event, order) by {
      TickEventsOf(r, snap, full, get, order);
    }
    assert x.key !in snap.Keys + full.Keys ==> event(x.key).None?;
    EventCount(event, order, snap.Keys + full.Keys, x);
  }

  lemma SameCount(r: Rules, snap: Store, full: Store, get: Key -> GetResult, coll: string, c: DbChange,
                  alone: seq<Key>, after: seq<Key>, x: Event)
    requires WellKeyed(snap) && Carries(full, get, coll, c) && Enumerates(alone, snap.Keys + full.Keys)
    requires Enumerates(after, IngestSnapshot(r, snap, coll, c).Keys + full.Keys)
    ensures var e, held := IngestEvent(r, snap, coll, c), IngestSnapshot(r, snap, coll, c);
            (if e == Some(x) then 1 else 0) + multiset(DiffEvents(r, held, full, get, after))[x]
            == multiset(DiffEvents(r, snap, full, get, alone))[x]
  {
    BusThenTickAt(r, snap, full, get, coll, c, x.key);
    TickCount(r, snap, full, get, alone, x);
    TickCount(r, IngestSnapshot(r, snap, coll, c), full, get, after, x);
  }

  /** Bus and tick together send what the tick alone would. */
  lemma SameEvents(r: Rules, snap: Store, full: Store, get: Key -> GetResult, coll: string, c: DbChange,
                   alone: seq<Key>, after: seq<Key>)
    requires WellKeyed(snap) && Carries(full, get, coll, c) && Enumerates(alone, snap.Keys + full.Keys)
    requires Enumerates(after, IngestSnapshot(r, snap, coll, c).Keys + full.Keys)
    ensures multiset(Opt(IngestEvent(r, snap, coll, c)))
            + multiset(DiffEvents(r, IngestSnapshot(r, snap, coll, c), full, get, after))
            == multiset(DiffEvents(r, snap, full, get, alone))
  {
    var e := IngestEvent(r, snap, coll, c);
    var one, rest := multiset(Opt(e)), multiset(DiffEvents(r, IngestSnapshot(r, snap, coll, c), full, get, after));
    forall x ensures (one + rest)[x] == multiset(DiffEvents(r, snap, full, get, alone))[x] {
      SameCount(r, snap, full, get, coll, c, alone, after, x);
      assert one[x] == if e == Some(x) then 1 else 0;
    }
  }

  /** A tick over a snapshot that it has just brought about sends nothing. */
  lemma {:induction false} NothingOwed(r: Rules, snap: Store, full: Store, get: Key -> GetResult, order: seq<Key>)
    requires forall k :: DiffEvent(r, snap, full, get, k).None?
    ensures DiffEvents(r, snap, full, get, order) == []
  {
    if order != [] {
      NothingOwed(r, snap, full, get, order[..|order| - 1]);
    }
  }

  /** One commit carried by the bus and by a tick, whatever else that tick carries. Either order and the tick alone
      reach one snapshot and send the same events, each once; a lane that repeats it changes and sends nothing.
      `alone`, `after` and `again` are the tick's walks of the three snapshots it meets. */
  lemma LanesConverge(r: Rules, snap: Store, full: Store, get: Key -> GetResult, coll: string, c: DbChange,
                      alone: seq<Key>, after: seq<Key>, again: seq<Key>)
    requires WellKeyed(snap) && Carries(full, get, coll, c) && Enumerates(alone, snap.Keys + full.Keys)
    requires Enumerates(after, IngestSnapshot(r, snap, coll, c).Keys + full.Keys)
    requires Enumerates(again, DiffSnapshot(snap, full, get).Keys + full.Keys)
    ensures var bus, tick := Ingest(coll, c), Tick(full, get, alone);
            var onBus, onTick := After(r, snap, bus), After(r, snap, tick);
            && After(r, onBus, Tick(full, get, after)) == onTick && After(r, onTick, bus) == onTick
            && |Emitted(r, snap, bus)| <= 1 && Emitted(r, onTick, bus) == []
            && multiset(Emitted(r, snap, bus)) + multiset(Emitted(r, onBus, Tick(full, get, after)))
               == multiset(Emitted(r, snap, tick))
            && After(r, onBus, bus) == onBus && Emitted(r, onBus, bus) == []
            && After(r, onTick, Tick(full, get, again)) == onTick && Emitted(r, onTick, Tick(full, get, again)) == []
  {
    var held, ticked := IngestSnapshot(r, snap, coll, c), DiffSnapshot(snap, full, get);
    forall k
      ensures Lookup(DiffSnapshot(held, full, get), k) == Lookup(ticked, k)
      ensures Lookup(IngestSnapshot(r, ticked, coll, c), k) == Lookup(ticked, k)
      ensures Lookup(DiffSnapshot(ticked, full, get), k) == Lookup(ticked, k)
      ensures IngestEvent(r, ticked, coll, c).None? && DiffEvent(r, ticked, full, get, k).None?
    {
      BusThenTickAt(r, snap, full, get, coll, c, k);
      TickThenRepeatAt(r, snap, full, get, coll, c, k);
    }
    SameLookups(DiffSnapshot(held, full, get), ticked);
    SameLookups(IngestSnapshot(r, ticked, coll, c), ticked);
    SameLookups(DiffSnapshot(ticked, full, get), ticked);
    BusTwice(r, snap, full, get, coll, c);
    SameEvents(r, snap, full, get, coll, c, alone, after);
    NothingOwed(r, ticked, full, get, again);
  }

  /** When the tick carries nothing else, the one event it sends is the bus's. */
  lemma LoneCommit(r: Rules, snap: Store, full: Store, get: Key -> GetResult, coll: string, c: DbChange,
                   order: seq<Key>)
    requires WellKeyed(snap) && Carries(full, get, coll, c) && Enumerates(order, snap.Keys + full.Keys)
    requires forall j :: j != (coll, c.id) ==> Lookup(full, j) == Lookup(snap, j)
    ensures DiffEvents(r, snap, full, get, order) == Opt(IngestEvent(r, snap, coll, c))
    ensures DiffSnapshot(snap, full, get) == full
  {
    OneCommitTick(r, snap, full, get, order, (coll, c.id));
    BusThenTickAt(r, snap, full, get, coll, c, (coll, c.id));
    forall k ensures Lookup(DiffSnapshot(snap, full, get), k) == Lookup(full, k) {
      assert k != (coll, c.id) ==> Lookup(full, k) == Lookup(snap, k);
    }
    SameLookups(DiffSnapshot(snap, full, get), full);
  }
}
