/** Write coalescing: bodies are acked and folded in memory, taken in flight by the flusher,
    written, and requeued underneath newer merges when a write fails. */
module Coalesce {
  import opened Values
  import Atomics
  import opened Text

  /** Milliseconds. */
  const COALESCE_WINDOW: int := 100
  const MAX_FLUSH_FAILS: nat := 10

  datatype Pending = Pending(body: Body, firstAt: int, fails: nat)

  /** An entry taken by the flusher and not yet written. */
  datatype Due = Due(key: Key, body: Body, fails: nat)

  type Queue = map<Key, Pending>

  /** The key or some string of the tree spells the sentinel marker. */
  predicate Mentions(v: Json) {
    match v
    case Str(s) => Contains(s, Atomics.TYPE_KEY)
    case Arr(items) => exists i :: 0 <= i < |items| && Mentions(items[i])
    case Obj(fields) => exists k :: k in fields && (Contains(k, Atomics.TYPE_KEY) || Mentions(fields[k]))
    case _ => false
  }

  /** An object whose top-level keys have no dots, and no marker anywhere. */
  predicate Eligible(body: Json) {
    body.Obj? && (forall k :: k in body.fields ==> '.' !in k) && !Mentions(body)
  }

  lemma {:induction false} SentinelIsMentioned(v: Json)
    ensures Atomics.HasSentinel(v) ==> Mentions(v)
  {
    match v
    case Arr(items) =>
      forall i | 0 <= i < |items| { SentinelIsMentioned(items[i]); }
    case Obj(fields) =>
      forall k | k in fields { SentinelIsMentioned(fields[k]); }
      if Atomics.OpOf(v).Some? {
        assert Atomics.TYPE_KEY in fields && Contains(Atomics.TYPE_KEY, Atomics.TYPE_KEY);
      }
    case _ =>
  }

  /** An eligible body has no dot path and no sentinel, at any depth. */
  lemma EligibleIsPlain(body: Json)
    requires Eligible(body)
    ensures body.Obj? && forall k :: k in body.fields ==> '.' !in k && !Atomics.HasSentinel(body.fields[k])
  {
    forall k | k in body.fields ensures !Atomics.HasSentinel(body.fields[k]) {
      SentinelIsMentioned(body.fields[k]);
    }
  }

  /** Any body of numbers, truth values and nulls is, under keys that have no dot and do not spell the marker. */
  lemma ScalarsAreEligible(body: Body)
    requires forall k :: k in body ==> '.' !in k && !Contains(k, "__type__")
    requires forall k :: k in body ==> body[k].Num? || body[k].Bool? || body[k].Null?
    ensures Eligible(Obj(body))
  {}

  function Merged(q: Queue, k: Key, body: Body, now: int): Queue {
    if k in q then q[k := q[k].(body := q[k].body + body)] else q[k := Pending(body, now, 0)]
  }

  predicate IsDue(p: Pending, now: int) {
    now - p.firstAt >= COALESCE_WINDOW
  }

  function DueKeys(q: Queue, now: int): set<Key> {
    set k | k in q && IsDue(q[k], now)
  }

  function NotDue(q: Queue, now: int): Queue {
    map k | k in q && !IsDue(q[k], now) :: q[k]
  }

  function Taken(q: Queue, order: seq<Key>): seq<Due>
    requires forall k :: k in order ==> k in q
  {
    if order == [] then []
    else
      var k := order[|order| - 1];
      Taken(q, order[..|order| - 1]) + [Due(k, q[k].body, q[k].fails)]
  }

  /** No newer merge and no budget left: the body is lost. */
  predicate Drops(q: Queue, d: Due) {
    d.key !in q && d.fails >= MAX_FLUSH_FAILS
  }

  function Requeued(q: Queue, d: Due, now: int): Queue {
    if d.key in q then
      q[d.key := q[d.key].(body := d.body + q[d.key].body, fails := q[d.key].fails + 1)]
    else if d.fails < MAX_FLUSH_FAILS then q[d.key := Pending(d.body, now, d.fails + 1)]
    else q
  }

  function StoredBody(store: map<Key, Body>, k: Key): Body {
    if k in store then store[k] else map[]
  }

  class Coalescer {
    var pending: Queue
    /** What the one running flush has taken and not yet settled, in its order. */
    var due: seq<Due>

    /** Folds a body into the pending entry; the caller acks. */
    method Merge(key: Key, body: Body, now: int) returns (merged: bool)
      modifies this`pending
      ensures merged && pending == Merged(old(pending), key, body, now)
    {
      if key !in pending {
        pending := pending[key := Pending(map[], now, 0)];
      }
      var e := pending[key];
      pending := pending[key := e.(body := e.body + body)];
      assert map[] + body == body;
      return true;
    }

    /** The read path's view of a document that has a pending body. `s` is any system with this queue: what the
        caller then serves is its read view. */
    method Overlay(key: Key, stored: Option<Body>, ghost s: System) returns (view: Option<Body>)
      ensures view.Some? <==> key in pending
      ensures s.pending == pending && StoredBody(s.store, key) == (if stored.Some? then stored.value else map[]) ==>
                ReadView(s, key) == if view.Some? then view.value else StoredBody(s.store, key)
    {
      if key !in pending {
        assert StoredBody(s.store, key) + map[] == StoredBody(s.store, key);
        return None;
      }
      var base := if stored.Some? then stored.value else map[];
      return Some(base + pending[key].body);
    }

    /** First half of a flush: entries at least 100 ms old leave the queue, each once and as they were; the others
        stay. */
    method TakeDue(now: int) returns (ghost order: seq<Key>)
      modifies this
      ensures Enumerates(order, DueKeys(old(pending), now)) && forall k :: k in order ==> k in old(pending)
      ensures pending == NotDue(old(pending), now) && due == Taken(old(pending), order)
      ensures forall k :: k in pending <==> k in old(pending) && now - old(pending)[k].firstAt < 100
      ensures forall k :: k in pending ==> pending[k] == old(pending)[k]
      ensures forall d :: d in due <==> && d.key in old(pending) && now - old(pending)[d.key].firstAt >= 100
                                        && d == Due(d.key, old(pending)[d.key].body, old(pending)[d.key].fails)
      ensures Distinct(due)
    {
      ghost var before := pending;
      var todo := pending.Keys;
      ghost var gone: set<Key> := {};
      due, order := [], [];
      while todo != {}
        invariant todo <= before.Keys && todo !! gone
        invariant gone == set k | k in before && k !in todo && IsDue(before[k], now)
        invariant Enumerates(order, gone) && (forall k :: k in order ==> k in before)
        invariant due == Taken(before, order)
        invariant pending == map k | k in before && k !in gone :: before[k]
      {
        var key :| key in todo;
        var p := pending[key];
        if now - p.firstAt >= COALESCE_WINDOW {
          due := due + [Due(key, p.body, p.fails)];
          pending := pending - {key};
          EnumerateOne(order, gone, key);
          assert (order + [key])[..|order|] == order;
          order, gone := order + [key], gone + {key};
        }
        todo := todo - {key};
      }
      assert gone == DueKeys(before, now);
      TakenAre(before, order, gone);
    }

    /** One turn of the write loop: `wrote` is the driver's answer for the entry at the head. */
    method Settle(wrote: bool, now: int) returns (flushed: bool)
      requires due != []
      modifies this
      ensures due == old(due)[1..]
      ensures flushed <==> old(due)[0].body != map[] && wrote
      ensures pending == if old(due)[0].body == map[] || wrote then old(pending)
                         else Requeued(old(pending), old(due)[0], now)
    {
      var d := due[0];
      due := due[1..];
      if d.body == map[] || wrote {
        return d.body != map[];
      }
      if d.key in pending {
        var p := pending[d.key];
        pending := pending[d.key := p.(fails := p.fails + 1, body := d.body + p.body)];
      } else if d.fails < MAX_FLUSH_FAILS {
        pending := pending[d.key := Pending(d.body, now, d.fails + 1)];
      }
      return false;
    }
  }

  // ---------- Every interleaving ----------

  /** Queue, entries in flight, and the driver's documents. */
  datatype System = System(pending: Queue, due: seq<Due>, store: map<Key, Body>)

  datatype Action =
    | Merge(key: Key, body: Body, now: int)
    | Take(now: int, order: seq<Key>)
    | Write(ok: bool, now: int)

  /** One flusher: it takes only when it has settled everything, and writes what it has taken. */
  ghost predicate Enabled(s: System, a: Action) {
    match a
    case Merge(_, _, _) => true
    case Take(now, order) =>
      s.due == [] && Enumerates(order, DueKeys(s.pending, now)) && forall k :: k in order ==> k in s.pending
    case Write(_, _) => s.due != []
  }

  function Next(s: System, a: Action): System
    requires a.Take? ==> forall k :: k in a.order ==> k in s.pending
    requires a.Write? ==> s.due != []
  {
    match a
    case Merge(k, body, now) => s.(pending := Merged(s.pending, k, body, now))
    case Take(now, order) => s.(pending := NotDue(s.pending, now), due := Taken(s.pending, order))
    case Write(ok, now) =>
      var d := s.due[0];
      if d.body == map[] then s.(due := s.due[1..])
      else if ok then s.(due := s.due[1..], store := s.store[d.key := StoredBody(s.store, d.key) + d.body])
      else s.(due := s.due[1..], pending := Requeued(s.pending, d, now))
  }

  ghost predicate Legal(s: System, trace: seq<Action>)
    decreases |trace|, 0
  {
    trace == [] ||
    (Legal(s, trace[..|trace| - 1]) && Enabled(Reached(s, trace[..|trace| - 1]), trace[|trace| - 1]))
  }

  ghost function Reached(s: System, trace: seq<Action>): System
    requires Legal(s, trace)
    decreases |trace|, 1
  {
    if trace == [] then s else Next(Reached(s, trace[..|trace| - 1]), trace[|trace| - 1])
  }

  predicate DropsKey(s: System, a: Action, k: Key) {
    a.Write? && !a.ok && s.due != [] && s.due[0].body != map[] && s.due[0].key == k && Drops(s.pending, s.due[0])
  }

  /** The acked merges of a document folded in ack order, over the document stored at the start
      or at the latest drop. */
  ghost function Acked(s: System, trace: seq<Action>, k: Key): Body
    requires Legal(s, trace)
  {
    if trace == [] then StoredBody(s.store, k)
    else
      var init, last := trace[..|trace| - 1], trace[|trace| - 1];
      if last.Merge? && last.key == k then Acked(s, init, k) + last.body
      else if DropsKey(Reached(s, init), last, k) then StoredBody(Reached(s, init).store, k)
      else Acked(s, init, k)
  }

  /** Failed writes of a document since its last successful one. */
  ghost function FailStreak(s: System, trace: seq<Action>, k: Key): nat
    requires Legal(s, trace)
  {
    if trace == [] then 0
    else
      var init, last := trace[..|trace| - 1], trace[|trace| - 1];
      if last.Write? && Reached(s, init).due[0].key == k && Reached(s, init).due[0].body != map[]
      then if last.ok then 0 else FailStreak(s, init, k) + 1
      else FailStreak(s, init, k)
  }

  function InFlight(due: seq<Due>, k: Key): Body {
    if due == [] then map[]
    else if due[0].key == k then due[0].body
    else InFlight(due[1..], k)
  }

  function PendingBody(q: Queue, k: Key): Body {
    if k in q then q[k].body else map[]
  }

  predicate HasKey(due: seq<Due>, k: Key) {
    due != [] && (due[0].key == k || HasKey(due[1..], k))
  }

  function FailsIn(due: seq<Due>, k: Key): nat {
    if due == [] then 0 else if due[0].key == k then due[0].fails else FailsIn(due[1..], k)
  }

  predicate Distinct(due: seq<Due>) {
    due == [] || (!HasKey(due[1..], due[0].key) && Distinct(due[1..]))
  }

  lemma {:induction false} AppendDue(due: seq<Due>, d: Due, k: Key)
    ensures HasKey(due + [d], k) <==> HasKey(due, k) || d.key == k
    ensures !HasKey(due, d.key) && Distinct(due) ==> Distinct(due + [d])
    ensures InFlight(due + [d], k) == if HasKey(due, k) then InFlight(due, k) else if d.key == k then d.body else map[]
    ensures FailsIn(due + [d], k) == if HasKey(due, k) then FailsIn(due, k) else if d.key == k then d.fails else 0
    decreases |due|
  {
    if due != [] {
      assert (due + [d])[1..] == due[1..] + [d];
      AppendDue(due[1..], d, k);
      AppendDue(due[1..], d, due[0].key);
    }
  }

  lemma {:induction false} TakenByKey(q: Queue, order: seq<Key>, keys: set<Key>, k: Key)
    requires Enumerates(order, keys) && forall j :: j in order ==> j in q
    ensures Distinct(Taken(q, order)) && (HasKey(Taken(q, order), k) <==> k in keys)
    ensures k in keys ==>
              k in q && InFlight(Taken(q, order), k) == q[k].body && FailsIn(Taken(q, order), k) == q[k].fails
    ensures k !in keys ==> InFlight(Taken(q, order), k) == map[]
    decreases |order|
  {
    if order != [] {
      var last, init := order[|order| - 1], order[..|order| - 1];
      TakenByKey(q, init, keys - {last}, k);
      TakenByKey(q, init, keys - {last}, last);
      AppendDue(Taken(q, init), Due(last, q[last].body, q[last].fails), k);
      NoKeyNothingInFlight(Taken(q, init), k);
    }
  }

  /** What is taken, in whatever order: one entry for each key, as it was in the queue. */
  lemma {:induction false} TakenAre(q: Queue, order: seq<Key>, keys: set<Key>)
    requires Enumerates(order, keys) && forall k :: k in order ==> k in q
    ensures forall d :: d in Taken(q, order) <==>
              d.key in keys && d.key in q && d == Due(d.key, q[d.key].body, q[d.key].fails)
    ensures Distinct(Taken(q, order))
    decreases |order|
  {
    TakenByKey(q, order, keys, ("", ""));
    if order != [] {
      TakenAre(q, order[..|order| - 1], keys - {order[|order| - 1]});
    }
  }

  lemma {:induction false} NoKeyNothingInFlight(due: seq<Due>, k: Key)
    ensures !HasKey(due, k) ==> InFlight(due, k) == map[]
  {
    if due != [] {
      NoKeyNothingInFlight(due[1..], k);
    }
  }

  /** What a run keeps, for one document. */
  ghost predicate Kept(s: System, acked: Body, streak: nat, k: Key) {
    && Distinct(s.due)
    && StoredBody(s.store, k) + InFlight(s.due, k) + PendingBody(s.pending, k) == acked
    && (k in s.pending ==> s.pending[k].fails <= streak)
    && (HasKey(s.due, k) ==> FailsIn(s.due, k) <= streak && (k in s.pending ==> s.pending[k].fails == 0))
  }

  lemma MergeKeeps(s: System, a: Action, acked: Body, streak: nat, k: Key)
    requires a.Merge? && Kept(s, acked, streak, k)
    ensures Kept(Next(s, a), if a.key == k then acked + a.body else acked, streak, k)
  {
    if a.key == k {
      var below := StoredBody(s.store, k) + InFlight(s.due, k);
      assert below + (PendingBody(s.pending, k) + a.body) == below + PendingBody(s.pending, k) + a.body;
    }
  }

  lemma TakeKeeps(s: System, a: Action, acked: Body, streak: nat, k: Key)
    requires a.Take? && Enabled(s, a) && Kept(s, acked, streak, k)
    ensures Kept(Next(s, a), acked, streak, k)
  {
    TakenByKey(s.pending, a.order, DueKeys(s.pending, a.now), k);
    var below := StoredBody(s.store, k);
    assert below + map[] == below;
    assert below + PendingBody(s.pending, k) + map[] == below + PendingBody(s.pending, k);
  }

  /** A body in flight, moved down into the store or up under the pending one, or empty. */
  lemma Stacked(stored: Body, flight: Body, pending: Body)
    ensures stored + flight + map[] + pending == stored + flight + pending
    ensures stored + map[] + (flight + pending) == stored + flight + pending
    ensures stored + map[] + flight == stored + flight + map[]
    ensures stored + map[] + map[] == stored
  {}

  lemma WriteKeeps(s: System, a: Action, acked: Body, streak: nat, k: Key)
    requires a.Write? && s.due != [] && Kept(s, acked, streak, k)
    ensures var mine := s.due[0].key == k && s.due[0].body != map[];
            Kept(Next(s, a), if DropsKey(s, a, k) then StoredBody(s.store, k) else acked,
                 if mine then if a.ok then 0 else streak + 1 else streak, k)
    ensures DropsKey(s, a, k) ==> streak >= MAX_FLUSH_FAILS
  {
    if s.due[0].key == k {
      NoKeyNothingInFlight(s.due[1..], k);
      Stacked(StoredBody(s.store, k), s.due[0].body, PendingBody(s.pending, k));
    }
  }

  lemma {:induction false} RunKeeps(s: System, trace: seq<Action>, k: Key)
    requires s.pending == map[] && s.due == [] && Legal(s, trace)
    ensures Kept(Reached(s, trace), Acked(s, trace, k), FailStreak(s, trace, k), k)
    decreases |trace|
  {
    if trace == [] {
      assert StoredBody(s.store, k) + map[] + map[] == StoredBody(s.store, k);
    } else {
      var init, a := trace[..|trace| - 1], trace[|trace| - 1];
      RunKeeps(s, init, k);
      var before, acked, streak := Reached(s, init), Acked(s, init, k), FailStreak(s, init, k);
      match a {
        case Merge(_, _, _) => MergeKeeps(before, a, acked, streak, k);
        case Take(_, _) => TakeKeeps(before, a, acked, streak, k);
        case Write(_, _) => WriteKeeps(before, a, acked, streak, k);
      }
    }
  }

  /** Nothing acked is lost: stored, in flight and pending together are the acked fold. */
  lemma Conservation(s: System, trace: seq<Action>, k: Key)
    requires s.pending == map[] && s.due == [] && Legal(s, trace)
    ensures var now := Reached(s, trace);
            StoredBody(now.store, k) + InFlight(now.due, k) + PendingBody(now.pending, k) == Acked(s, trace, k)
  {
    RunKeeps(s, trace, k);
  }

  /** A body is dropped only by a failed write that follows ten failed writes in a row. */
  lemma DropAfterBudget(s: System, trace: seq<Action>, a: Action, k: Key)
    requires s.pending == map[] && s.due == [] && Legal(s, trace) && DropsKey(Reached(s, trace), a, k)
    ensures FailStreak(s, trace, k) >= 10
  {
    RunKeeps(s, trace, k);
    WriteKeeps(Reached(s, trace), a, Acked(s, trace, k), FailStreak(s, trace, k), k);
  }

  /** Failed writes of a document that its budget counts: a success, an empty body or a drop starts over, and a
      failure that finds a newer merge starts over at one. */
  ghost function Charged(s: System, trace: seq<Action>, k: Key): nat
    requires Legal(s, trace)
  {
    if trace == [] then 0
    else
      var init, last := trace[..|trace| - 1], trace[|trace| - 1];
      var before := Reached(s, init);
      if !(last.Write? && before.due[0].key == k) then Charged(s, init, k)
      else if before.due[0].body == map[] || last.ok || DropsKey(before, last, k) then 0
      else if k in before.pending then 1
      else Charged(s, init, k) + 1
  }

  /** A document's entry carries its charge: in flight when it is there, else in the queue. */
  ghost predicate Carried(s: System, charge: nat, k: Key) {
    && Distinct(s.due)
    && (HasKey(s.due, k) ==> FailsIn(s.due, k) == charge && (k in s.pending ==> s.pending[k].fails == 0))
    && (!HasKey(s.due, k) && k in s.pending ==> s.pending[k].fails == charge)
    && (!HasKey(s.due, k) && k !in s.pending ==> charge == 0)
  }

  lemma CarriedStep(s: System, a: Action, charge: nat, k: Key)
    requires Enabled(s, a) && Carried(s, charge, k)
    ensures Carried(Next(s, a),
                    if !(a.Write? && s.due[0].key == k) then charge
                    else if s.due[0].body == map[] || a.ok || DropsKey(s, a, k) then 0
                    else if k in s.pending then 1
                    else charge + 1, k)
  {
    if a.Take? {
      TakenByKey(s.pending, a.order, DueKeys(s.pending, a.now), k);
    }
  }

  lemma {:induction false} RunCarries(s: System, trace: seq<Action>, k: Key)
    requires s.pending == map[] && s.due == [] && Legal(s, trace)
    ensures Carried(Reached(s, trace), Charged(s, trace, k), k)
    decreases |trace|
  {
    if trace != [] {
      var init := trace[..|trace| - 1];
      RunCarries(s, init, k);
      CarriedStep(Reached(s, init), trace[|trace| - 1], Charged(s, init, k), k);
    }
  }

  /** Over every run, a failing write leaves its document in neither queue nor flight, which drops it, exactly when no
      merge waits and the budget counts ten failures already. */
  lemma DropIff(s: System, trace: seq<Action>, a: Action, k: Key)
    requires s.pending == map[] && s.due == [] && Legal(s, trace) && Enabled(Reached(s, trace), a)
    requires a.Write? && !a.ok && Reached(s, trace).due[0].key == k && Reached(s, trace).due[0].body != map[]
    ensures DropsKey(Reached(s, trace), a, k) <==> k !in Reached(s, trace).pending && Charged(s, trace, k) >= 10
    ensures var after := Next(Reached(s, trace), a);
            DropsKey(Reached(s, trace), a, k) <==> k !in after.pending && !HasKey(after.due, k)
  {
    RunCarries(s, trace, k);
  }

  // ---------- How long an entry waits ----------

  /** When the entry of a document was made: by the first merge after the last one left, or by a requeue. */
  ghost function MadeAt(s: System, trace: seq<Action>, k: Key): Option<int>
    requires Legal(s, trace)
  {
    if trace == [] then None
    else
      var init, last := trace[..|trace| - 1], trace[|trace| - 1];
      var before := Reached(s, init);
      if k in before.pending then MadeAt(s, init, k)
      else if last.Merge? && last.key == k then Some(last.now)
      else if last.Write? && !last.ok && before.due[0].key == k && before.due[0].body != map[] then Some(last.now)
      else MadeAt(s, init, k)
  }

  lemma {:induction false} EntryIsDated(s: System, trace: seq<Action>, k: Key)
    requires s.pending == map[] && s.due == [] && Legal(s, trace)
    ensures k in Reached(s, trace).pending ==> MadeAt(s, trace, k) == Some(Reached(s, trace).pending[k].firstAt)
  {
    if trace != [] {
      EntryIsDated(s, trace[..|trace| - 1], k);
    }
  }

  /** Over every run, a flush takes a queued document exactly when its entry was made at least 100 ms before: then the
      whole body goes in flight, else the entry stays as it is. */
  lemma FlushTakesTheAged(s: System, trace: seq<Action>, a: Action, k: Key)
    requires s.pending == map[] && s.due == [] && Legal(s, trace) && Enabled(Reached(s, trace), a) && a.Take?
    requires k in Reached(s, trace).pending
    ensures MadeAt(s, trace, k).Some?
    ensures var q, after := Reached(s, trace).pending, Next(Reached(s, trace), a);
            if a.now - MadeAt(s, trace, k).value >= 100
            then k !in after.pending && Due(k, q[k].body, q[k].fails) in after.due
            else k in after.pending && after.pending[k] == q[k] && !HasKey(after.due, k)
  {
    EntryIsDated(s, trace, k);
    var q := Reached(s, trace).pending;
    TakenAre(q, a.order, DueKeys(q, a.now));
    TakenByKey(q, a.order, DueKeys(q, a.now), k);
  }

  lemma Extend(s: System, trace: seq<Action>, a: Action, k: Key)
    requires Legal(s, trace) && Enabled(Reached(s, trace), a)
    ensures Legal(s, trace + [a]) && Reached(s, trace + [a]) == Next(Reached(s, trace), a)
    ensures FailStreak(s, trace + [a], k) ==
            if a.Write? && Reached(s, trace).due[0].key == k && Reached(s, trace).due[0].body != map[]
            then if a.ok then 0 else FailStreak(s, trace, k) + 1
            else FailStreak(s, trace, k)
  {
    assert (trace + [a])[..|trace|] == trace;
  }

  const HOT_KEY: Key := ("c", "hot")
  const HOT_BODY: Body := map["x" := Num(1)]

  lemma HotSteps(at: int, fails: nat)
    ensures var now := at + COALESCE_WINDOW;
            var s0 := System(map[HOT_KEY := Pending(HOT_BODY, at, fails)], [], map[]);
            var s1 := System(map[], [Due(HOT_KEY, HOT_BODY, fails)], map[]);
            var s2 := System(map[HOT_KEY := Pending(HOT_BODY, now, 0)], [Due(HOT_KEY, HOT_BODY, fails)], map[]);
            && Enabled(s0, Take(now, [HOT_KEY])) && Next(s0, Take(now, [HOT_KEY])) == s1
            && Next(s1, Merge(HOT_KEY, HOT_BODY, now)) == s2 && HOT_BODY != map[]
            && Next(s2, Write(false, now)) == System(map[HOT_KEY := Pending(HOT_BODY, now, 1)], [], map[])
  {
    var now, q := at + COALESCE_WINDOW, map[HOT_KEY := Pending(HOT_BODY, at, fails)];
    assert [HOT_KEY][..0] == [] && {HOT_KEY} - {HOT_KEY} == {} && DueKeys(q, now) == {HOT_KEY};
    assert Enumerates([HOT_KEY], {HOT_KEY});
    assert Taken(q, []) == [] && Taken(q, [HOT_KEY]) == [] + [Due(HOT_KEY, HOT_BODY, fails)];
    assert HOT_BODY + HOT_BODY == HOT_BODY && "x" in HOT_BODY;
  }

  /** One more failed write of a document that is merged into while it is in flight. */
  lemma HotTurn(s: System, trace: seq<Action>, at: int, fails: nat)
    returns (longer: seq<Action>)
    requires Legal(s, trace)
    requires Reached(s, trace) == System(map[HOT_KEY := Pending(HOT_BODY, at, fails)], [], map[])
    ensures Legal(s, longer)
    ensures Reached(s, longer) == System(map[HOT_KEY := Pending(HOT_BODY, at + COALESCE_WINDOW, 1)], [], map[])
    ensures FailStreak(s, longer, HOT_KEY) == FailStreak(s, trace, HOT_KEY) + 1
  {
    var now := at + COALESCE_WINDOW;
    var take, merge, write := Take(now, [HOT_KEY]), Merge(HOT_KEY, HOT_BODY, now), Write(false, now);
    HotSteps(at, fails);
    Extend(s, trace, take, HOT_KEY);
    Extend(s, trace + [take], merge, HOT_KEY);
    Extend(s, trace + [take] + [merge], write, HOT_KEY);
    longer := trace + [take] + [merge] + [write];
  }

  /** The budget does not bound a document that keeps being merged into: any number of failed writes
      in a row leaves it queued, with a failure count of at most one. */
  lemma {:induction false} HotDocumentNeverDrops(n: nat) returns (trace: seq<Action>, at: int)
    ensures var s := System(map[], [], map[]);
            && Legal(s, trace) && FailStreak(s, trace, HOT_KEY) == n
            && exists fails: nat :: fails <= 1
                 && Reached(s, trace) == System(map[HOT_KEY := Pending(HOT_BODY, at, fails)], [], map[])
  {
    var s := System(map[], [], map[]);
    if n == 0 {
      at := 0;
      assert Legal(s, []);
      Extend(s, [], Merge(HOT_KEY, HOT_BODY, at), HOT_KEY);
      trace := [] + [Merge(HOT_KEY, HOT_BODY, at)];
      var fails: nat := 0;
      assert Reached(s, trace) == System(map[HOT_KEY := Pending(HOT_BODY, at, fails)], [], map[]);
    } else {
      trace, at := HotDocumentNeverDrops(n - 1);
      var fails: nat :|
        fails <= 1 && Reached(s, trace) == System(map[HOT_KEY := Pending(HOT_BODY, at, fails)], [], map[]);
      trace := HotTurn(s, trace, at, fails);
      at := at + COALESCE_WINDOW;
    }
  }

  // ---------- Reads ----------

  /** What a read serves: the overlay when there is one, else the stored document. */
  function ReadView(s: System, k: Key): Body {
    StoredBody(s.store, k) + PendingBody(s.pending, k)
  }

  /** Every member in flight is shadowed by a pending one or already stored with that value. */
  predicate FlightHidden(s: System, k: Key) {
    forall f :: f in InFlight(s.due, k) && f !in PendingBody(s.pending, k) ==>
      f in StoredBody(s.store, k) && StoredBody(s.store, k)[f] == InFlight(s.due, k)[f]
  }

  /** A read serves the acked fold exactly when nothing in flight would show. */
  lemma ReadYourWritesIff(s: System, trace: seq<Action>, k: Key)
    requires s.pending == map[] && s.due == [] && Legal(s, trace)
    ensures ReadView(Reached(s, trace), k) == Acked(s, trace, k) <==> FlightHidden(Reached(s, trace), k)
    ensures !HasKey(Reached(s, trace).due, k) ==> ReadView(Reached(s, trace), k) == Acked(s, trace, k)
  {
    Conservation(s, trace, k);
    var now := Reached(s, trace);
    var stored, flight, pending := StoredBody(now.store, k), InFlight(now.due, k), PendingBody(now.pending, k);
    NoKeyNothingInFlight(now.due, k);
    if FlightHidden(now, k) {
      assert stored + pending == stored + flight + pending;
    } else {
      var f :| f in flight && f !in pending && !(f in stored && stored[f] == flight[f]);
      assert f in stored + flight + pending && (stored + flight + pending)[f] == flight[f];
      assert f in stored + pending ==> (stored + pending)[f] == stored[f];
    }
  }

  /** While a body is in flight a read can miss an acked write. */
  lemma InFlightReadIsStale()
    ensures exists s: System, trace, k :: s.pending == map[] && s.due == [] && Legal(s, trace)
                                         && ReadView(Reached(s, trace), k) != Acked(s, trace, k)
  {
    var k: Key := ("c", "d");
    var body: Body := map["x" := Num(1)];
    var s := System(map[], [], map[]);
    var merge, take := Merge(k, body, 0), Take(COALESCE_WINDOW, [k]);
    var t1, t2 := [merge], [merge, take];
    assert t1[..0] == [] && t2[..1] == t1;
    assert Legal(s, []) && Reached(s, []) == s;
    assert Legal(s, t1) && Reached(s, t1) == Next(s, merge);
    var s1 := Next(s, merge);
    assert s1.pending == map[k := Pending(body, 0, 0)];
    assert DueKeys(s1.pending, COALESCE_WINDOW) == {k};
    assert [k][..0] == [] && {k} - {k} == {};
    assert Enumerates([k], {k});
    assert Legal(s, t2) && Reached(s, t2) == Next(s1, take);
    assert Taken(s1.pending, [k]) == Taken(s1.pending, [k][..0]) + [Due(k, body, 0)] == [Due(k, body, 0)];
    assert "x" in InFlight(Reached(s, t2).due, k);
    assert !FlightHidden(Reached(s, t2), k);
    ReadYourWritesIff(s, t2, k);
  }

  // ---------- Folding is exact ----------

  function Fold(bodies: seq<Body>): Body {
    if bodies == [] then map[] else Fold(bodies[..|bodies| - 1]) + bodies[|bodies| - 1]
  }

  /** One walk for each update map. */
  ghost predicate Walks(bodies: seq<Body>, walks: seq<seq<string>>) {
    |walks| == |bodies| &&
    forall i :: 0 <= i < |bodies| ==>
      Enumerates(walks[i], bodies[i].Keys) && forall k :: k in walks[i] ==> k in bodies[i]
  }

  /** The bodies applied one update at a time. */
  ghost function InTurn(base: Body, bodies: seq<Body>, walks: seq<seq<string>>, ts: string): Json
    requires Walks(bodies, walks)
  {
    if bodies == [] then Obj(base)
    else
      var n := |bodies| - 1;
      Atomics.ApplyAll(InTurn(base, bodies[..n], walks[..n], ts), bodies[n], walks[n], ts)
  }

  lemma {:induction false} FoldIsPlain(bodies: seq<Body>)
    requires forall b :: b in bodies ==> Atomics.Plain(b)
    ensures Atomics.Plain(Fold(bodies))
  {
    if bodies != [] {
      FoldIsPlain(bodies[..|bodies| - 1]);
      assert Atomics.Plain(bodies[|bodies| - 1]);
    }
  }

  /** Eligible bodies, and any without dot paths and sentinels, applied one by one, their fold applied once, and a
      shallow merge all agree. */
  lemma {:induction false} FoldIsExact(base: Body, bodies: seq<Body>, walks: seq<seq<string>>, walk: seq<string>,
      ts: string)
    requires (forall b :: b in bodies ==> Eligible(Obj(b)) || Atomics.Plain(b)) && Walks(bodies, walks)
    requires Enumerates(walk, Fold(bodies).Keys) && forall k :: k in walk ==> k in Fold(bodies)
    ensures InTurn(base, bodies, walks, ts) == Obj(base + Fold(bodies))
    ensures Atomics.ApplyAll(Obj(base), Fold(bodies), walk, ts) == Obj(base + Fold(bodies))
  {
    forall b | b in bodies ensures Atomics.Plain(b) {
      if Eligible(Obj(b)) { EligibleIsPlain(Obj(b)); }
    }
    InTurnMerges(base, bodies, walks, ts);
    FoldIsPlain(bodies);
    Atomics.PlainUpdateIsMerge(base, Fold(bodies), walk, ts);
  }

  lemma FoldLast(base: Body, bodies: seq<Body>)
    requires bodies != []
    ensures base + Fold(bodies[..|bodies| - 1]) + bodies[|bodies| - 1] == base + Fold(bodies)
  {}

  lemma {:induction false} InTurnMerges(base: Body, bodies: seq<Body>, walks: seq<seq<string>>, ts: string)
    requires (forall b :: b in bodies ==> Atomics.Plain(b)) && Walks(bodies, walks)
    ensures InTurn(base, bodies, walks, ts) == Obj(base + Fold(bodies))
    decreases |bodies|
  {
    if bodies == [] {
      assert base + map[] == base;
    } else {
      var n := |bodies| - 1;
      var before := base + Fold(bodies[..n]);
      assert InTurn(base, bodies[..n], walks[..n], ts) == Obj(before) by {
        InTurnMerges(base, bodies[..n], walks[..n], ts);
      }
      assert Atomics.ApplyAll(Obj(before), bodies[n], walks[n], ts) == Obj(before + bodies[n]) by {
        assert Atomics.Plain(bodies[n]);
        Atomics.PlainUpdateIsMerge(before, bodies[n], walks[n], ts);
      }
      FoldLast(base, bodies);
    }
  }
}
