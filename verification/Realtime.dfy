/** One realtime subscription: bus, driver feed and poll ticks move a snapshot and emit
    Add / Change / Remove events from it. */
module Realtime {
  import opened Values

  datatype ChangeKind = Add | Change | Remove

  /** An event as the subscriber gets it, with the snapshot key it is about. */
  datatype Event = Event(kind: ChangeKind, key: Key, doc: Doc)

  /** A change carried by the bus or by a driver feed. */
  datatype DbChange = DbChange(id: string, kind: ChangeKind, doc: Option<Doc>)

  /** Answer of the verifying `get`. */
  datatype GetResult = Found(doc: Doc) | Absent | Failed

  /** What a subscription fixes at open: its filters and cursor, and its Get rule. */
  datatype Rules = Rules(matches: Doc -> bool, allow: Key -> bool)

  function Transition(oldMatch: bool, newMatch: bool): Option<ChangeKind> {
    match (oldMatch, newMatch)
    case (false, true) => Some(Add)
    case (true, false) => Some(Remove)
    case (true, true) => Some(Change)
    case (false, false) => None
  }

  /** At most one event; the Get rule sees the collection and the id of the document sent. */
  function DeliverIn(r: Rules, key: Key, prev: Option<Doc>, next: Option<Doc>, oldMatch: bool,
      newMatch: bool): Option<Event>
    requires oldMatch ==> prev.Some?
    requires newMatch ==> next.Some?
  {
    var kind := Transition(oldMatch, newMatch);
    if kind.None? then None
    else
      var doc := if kind.value.Remove? then prev.value else next.value;
      if r.allow((key.0, doc.id)) then Some(Event(kind.value, key, doc)) else None
  }

  function Opt(e: Option<Event>): seq<Event> {
    if e.Some? then [e.value] else []
  }

  predicate MatchesOpt(r: Rules, d: Option<Doc>) {
    d.Some? && r.matches(d.value)
  }

  predicate SameData(prev: Option<Doc>, doc: Doc) {
    prev.Some? && prev.value.data == doc.data
  }

  // ---------- Single changes ----------

  function IngestSnapshot(r: Rules, snap: Store, coll: string, c: DbChange): Store {
    var key := (coll, c.id);
    if c.kind.Remove? then snap - {key}
    else if c.doc.None? then snap
    else
      var prev := Lookup(snap, key);
      if SameData(prev, c.doc.value) && MatchesOpt(r, prev) == r.matches(c.doc.value) then snap
      else snap[key := c.doc.value]
  }

  function IngestEvent(r: Rules, snap: Store, coll: string, c: DbChange): Option<Event> {
    var key := (coll, c.id);
    var prev := Lookup(snap, key);
    if c.kind.Remove? then
      if MatchesOpt(r, prev) then DeliverIn(r, key, prev, None, true, false) else None
    else if c.doc.None? then None
    else
      var om, nm := MatchesOpt(r, prev), r.matches(c.doc.value);
      if SameData(prev, c.doc.value) && om == nm then None else DeliverIn(r, key, prev, c.doc, om, nm)
  }

  // ---------- Poll ticks ----------

  /** The event a tick owes for one key. */
  function DiffEvent(r: Rules, snap: Store, full: Store, get: Key -> GetResult, k: Key): Option<Event> {
    var prev := Lookup(snap, k);
    if k in full then
      var om, nm := MatchesOpt(r, prev), r.matches(full[k]);
      if !SameData(prev, full[k]) || !om || !nm then DeliverIn(r, k, prev, Some(full[k]), om, nm) else None
    else if MatchesOpt(r, prev) && get(k).Absent? then DeliverIn(r, k, prev, None, true, false)
    else None
  }

  /** The events of a tick that visits the keys in this order. */
  function DiffEvents(r: Rules, snap: Store, full: Store, get: Key -> GetResult, order: seq<Key>): seq<Event> {
    if order == [] then []
    else DiffEvents(r, snap, full, get, order[..|order| - 1]) + Opt(DiffEvent(r, snap, full, get, order[|order| - 1]))
  }

  /** Fresh documents, plus missing keys that `get` found (at what it found) or failed on (as held). */
  function DiffSnapshot(snap: Store, full: Store, get: Key -> GetResult): Store {
    map k | k in snap.Keys + full.Keys && (k in full || !get(k).Absent?) ::
      if k in full then full[k] else if get(k).Found? then get(k).doc else snap[k]
  }

  // ---------- Re-listing ----------

  function InsertAll(snap: Store, coll: string, docs: seq<Doc>): Store {
    if docs == [] then snap
    else InsertAll(snap, coll, docs[..|docs| - 1])[(coll, docs[|docs| - 1].id) := docs[|docs| - 1]]
  }

  /** A failed list leaves the snapshot as it was. */
  function ResyncSnapshot(snap: Store, coll: string, listed: Option<seq<Doc>>): Store {
    if listed.None? then snap
    else InsertAll(map k | k in snap && k.0 != coll :: snap[k], coll, listed.value)
  }

  class Subscription {
    const rules: Rules
    var snapshot: Store
    var sent: seq<Event>

    constructor (rules: Rules, initial: Store)
      ensures this.rules == rules && snapshot == initial && sent == []
    {
      this.rules := rules;
      snapshot := initial;
      sent := [];
    }

    method Send(e: Option<Event>) returns (delivered: bool)
      modifies this`sent
      ensures sent == old(sent) + Opt(e) && delivered == e.Some?
    {
      sent := sent + Opt(e);
      delivered := e.Some?;
    }

    /** One bus or feed change; tells whether an event went out. */
    method IngestChange(coll: string, c: DbChange) returns (delivered: bool)
      modifies this
      ensures snapshot == IngestSnapshot(rules, old(snapshot), coll, c)
      ensures sent == old(sent) + Opt(IngestEvent(rules, old(snapshot), coll, c))
      ensures delivered <==> IngestEvent(rules, old(snapshot), coll, c).Some?
    {
      var key := (coll, c.id);
      var prev := Lookup(snapshot, key);
      delivered := false;
      if c.kind.Remove? {
        snapshot := snapshot - {key};
        if MatchesOpt(rules, prev) {
          delivered := Send(DeliverIn(rules, key, prev, None, true, false));
        }
      } else if c.doc.Some? {
        var doc := c.doc.value;
        var oldMatch, newMatch := MatchesOpt(rules, prev), rules.matches(doc);
        if SameData(prev, doc) && oldMatch == newMatch {
          return false;
        }
        delivered := Send(DeliverIn(rules, key, prev, Some(doc), oldMatch, newMatch));
        snapshot := snapshot[key := doc];
      }
    }

    /** One poll tick. Hash maps are walked in any order, so the keys are visited in any order. */
    method ApplyDiff(full: Store, get: Key -> GetResult) returns (count: nat, ghost order: seq<Key>)
      modifies this
      ensures snapshot == DiffSnapshot(old(snapshot), full, get)
      ensures Enumerates(order, old(snapshot).Keys + full.Keys)
      ensures sent == old(sent) + DiffEvents(rules, old(snapshot), full, get, order)
      ensures count == |DiffEvents(rules, old(snapshot), full, get, order)|
    {
      var dropped;
      count, order := DiffListed(full, get);
      dropped, order := DiffMissing(full, get, order, old(sent));
      count := count + dropped;
      TakeListed(full);
    }

    /** Present keys: classify each listed document against the held one. */
    method DiffListed(full: Store, ghost get: Key -> GetResult) returns (count: nat, ghost order: seq<Key>)
      modifies this`sent
      ensures Enumerates(order, full.Keys)
      ensures sent == old(sent) + DiffEvents(rules, snapshot, full, get, order)
      ensures count == |DiffEvents(rules, snapshot, full, get, order)|
    {
      count, order := 0, [];
      var todo := full.Keys;
      ghost var done: set<Key> := {};
      while todo != {}
        invariant todo !! done && todo + done == full.Keys
        invariant Enumerates(order, done)
        invariant sent == old(sent) + DiffEvents(rules, snapshot, full, get, order)
        invariant count == |DiffEvents(rules, snapshot, full, get, order)|
      {
        var key :| key in todo;
        var doc, prev := full[key], Lookup(snapshot, key);
        var oldMatch, newMatch := MatchesOpt(rules, prev), rules.matches(doc);
        if !SameData(prev, doc) || !oldMatch || !newMatch {
          var ok := Send(DeliverIn(rules, key, prev, Some(doc), oldMatch, newMatch));
          if ok { count := count + 1; }
        }
        Visit(rules, snapshot, full, get, order, done, key);
        order := order + [key];
        todo, done := todo - {key}, done + {key};
      }
    }

    /** Missing keys: verify each before removing it. `sent0` is what had been sent before the tick. */
    method DiffMissing(full: Store, get: Key -> GetResult, ghost listed: seq<Key>, ghost sent0: seq<Event>)
      returns (count: nat, ghost order: seq<Key>)
      requires Enumerates(listed, full.Keys)
      requires sent == sent0 + DiffEvents(rules, snapshot, full, get, listed)
      modifies this
      ensures snapshot + full == DiffSnapshot(old(snapshot), full, get)
      ensures Enumerates(order, old(snapshot).Keys + full.Keys)
      ensures sent == sent0 + DiffEvents(rules, old(snapshot), full, get, order)
      ensures count == |sent| - |old(sent)|
    {
      ghost var before := snapshot;
      count, order := 0, listed;
      var todo := snapshot.Keys - full.Keys;
      ghost var done := full.Keys;
      while todo != {}
        invariant todo !! done && todo + done == before.Keys + full.Keys && full.Keys <= done
        invariant Enumerates(order, done)
        invariant sent == sent0 + DiffEvents(rules, before, full, get, order) && count == |sent| - |old(sent)|
        invariant snapshot == VerifiedSoFar(before, full, get, done)
      {
        var key :| key in todo;
        Visit(rules, before, full, get, order, done, key);
        var ok := VerifyKey(key, get, full, before, done);
        if ok { count := count + 1; }
        order := order + [key];
        todo, done := todo - {key}, done + {key};
      }
      assert done == before.Keys + full.Keys;
      VerifyAll(before, full, get);
    }

    /** Converge on what the `get` found, keep what it failed on, remove what is gone. */
    method VerifyKey(key: Key, get: Key -> GetResult, ghost full: Store, ghost before: Store, ghost done: set<Key>)
      returns (delivered: bool)
      requires key in before && key !in full && key !in done
      requires snapshot == VerifiedSoFar(before, full, get, done)
      modifies this
      ensures snapshot == VerifiedSoFar(before, full, get, done + {key})
      ensures sent == old(sent) + Opt(DiffEvent(rules, before, full, get, key))
      ensures delivered <==> DiffEvent(rules, before, full, get, key).Some?
    {
      VerifyOne(before, full, get, done, key);
      var prev := snapshot[key];
      delivered := false;
      match get(key) {
        case Found(current) =>
          snapshot := snapshot[key := current];
        case Failed =>
        case Absent =>
          if rules.matches(prev) {
            delivered := Send(DeliverIn(rules, key, Some(prev), None, true, false));
          }
          snapshot := snapshot - {key};
      }
    }

    /** Listed documents win for every key they carry. */
    method TakeListed(full: Store)
      modifies this`snapshot
      ensures snapshot == old(snapshot) + full
    {
      var todo := full.Keys;
      ghost var done: set<Key> := {};
      while todo != {}
        invariant todo !! done && todo + done == full.Keys
        invariant snapshot == old(snapshot) + map k | k in done :: full[k]
      {
        var key :| key in todo;
        snapshot := snapshot[key := full[key]];
        todo, done := todo - {key}, done + {key};
      }
    }

    /** Re-lists one collection into the snapshot after lag or flood. */
    method Resync(coll: string, listed: Option<seq<Doc>>)
      modifies this`snapshot
      ensures snapshot == ResyncSnapshot(old(snapshot), coll, listed)
      ensures listed.None? ==> snapshot == old(snapshot)
    {
      if listed.Some? {
        var docs := listed.value;
        snapshot := map k | k in snapshot && k.0 != coll :: snapshot[k];
        ghost var kept := snapshot;
        for n := 0 to |docs|
          invariant snapshot == InsertAll(kept, coll, docs[..n])
        {
          assert docs[..n + 1][..n] == docs[..n];
          snapshot := snapshot[(coll, docs[n].id) := docs[n]];
        }
        assert docs[..|docs|] == docs;
      }
    }
  }

  /** The snapshot when only the missing keys in `done` have been verified. */
  ghost function VerifiedSoFar(before: Store, full: Store, get: Key -> GetResult, done: set<Key>): Store {
    map k | k in before && !(k in done && k !in full && get(k).Absent?) ::
      if k in done && k !in full && get(k).Found? then get(k).doc else before[k]
  }

  lemma VerifyOne(before: Store, full: Store, get: Key -> GetResult, done: set<Key>, k: Key)
    requires k in before && k !in full && k !in done
    ensures k in VerifiedSoFar(before, full, get, done) && VerifiedSoFar(before, full, get, done)[k] == before[k]
    ensures VerifiedSoFar(before, full, get, done + {k}) ==
            match get(k)
            case Found(current) => VerifiedSoFar(before, full, get, done)[k := current]
            case Failed => VerifiedSoFar(before, full, get, done)
            case Absent => VerifiedSoFar(before, full, get, done) - {k}
  {}

  lemma VerifyAll(before: Store, full: Store, get: Key -> GetResult)
    ensures VerifiedSoFar(before, full, get, before.Keys + full.Keys) + full == DiffSnapshot(before, full, get)
  {}

  lemma Visit(r: Rules, snap: Store, full: Store, get: Key -> GetResult, order: seq<Key>, done: set<Key>, k: Key)
    requires Enumerates(order, done) && k !in done
    ensures Enumerates(order + [k], done + {k})
    ensures DiffEvents(r, snap, full, get, order + [k])
            == DiffEvents(r, snap, full, get, order) + Opt(DiffEvent(r, snap, full, get, k))
  {
    assert (order + [k])[..|order|] == order;
    assert done + {k} - {k} == done;
  }
}
